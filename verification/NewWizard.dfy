/** What the wizard makes of the flags and the answers, and what it prints before anything is
    validated. */
module NewWizard {
  import opened Options
  import opened Pieces
  import opened ShellWords
  import opened ShellSizes
  import opened NewCommand
  import opened NewPrinted

  // ---------------------------------------------------------------- The feature menu

  function Offered(names: seq<string>, t: Template): seq<string> {
    if names == [] then []
    else (if names[0] !in BaseFeatures(t) && Offers(t, names[0]) then [names[0]] else []) + Offered(names[1..], t)
  }

  /** The features on the menu: not the template's own, and ones it offers. */
  function Menu(t: Template): seq<string> { Offered(OPTIONAL_FEATURES, t) }

  predicate AllDigits(s: string) { s != "" && forall i :: 0 <= i < |s| ==> '0' <= s[i] <= '9' }

  function DecimalValue(s: string): nat
    requires forall i :: 0 <= i < |s| ==> '0' <= s[i] <= '9'
  {
    if s == "" then 0 else DecimalValue(s[..|s| - 1]) * 10 + (s[|s| - 1] as int - '0' as int)
  }

  /** `parse::<usize>`: digits, perhaps after a `+`. Too large a number is off the menu either way. */
  function Number(token: string): Option<nat> {
    var digits := if token != "" && token[0] == '+' then token[1..] else token;
    if AllDigits(digits) then Some(DecimalValue(digits)) else None
  }

  function NonEmpty(pieces: seq<string>): seq<string> {
    if pieces == [] then [] else (if pieces[0] == "" then [] else [pieces[0]]) + NonEmpty(pieces[1..])
  }

  function Tokens(line: string): seq<string> { NonEmpty(Split(Commas(line), COMMA)) }

  /** The menu entry a token picks. */
  function Picked(menu: seq<string>, token: string): Option<string> {
    match Number(token)
    case Some(n) => if 1 <= n <= |menu| then Some(menu[n - 1]) else None
    case None => None
  }

  /** One more pick, unless it is there already. */
  function Add(picked: seq<string>, name: string): seq<string> { if name in picked then picked else picked + [name] }

  /** All the picks of a line; none if one of them is not on the menu. */
  function Picks(picked: seq<string>, menu: seq<string>, tokens: seq<string>): Option<seq<string>>
    decreases |tokens|
  {
    if tokens == [] then Some(picked)
    else
      match Picked(menu, tokens[0])
      case Some(name) => Picks(Add(picked, name), menu, tokens[1..])
      case None => None
  }

  /** `ask_features` on the lines typed: asks again after a bad one, and gives up when they end. */
  function Asked(menu: seq<string>, given: seq<string>, lines: seq<string>): Option<seq<string>>
    decreases |lines|
  {
    if menu == [] then Some(given)
    else if lines == [] then None
    else
      var line := TrimRight(TrimLeft(lines[0]));
      if line == "" then Some(given)
      else
        match Picks(given, menu, Tokens(line))
        case Some(picked) => Some(picked)
        case None => Asked(menu, given, lines[1..])
  }

  lemma PicksFirst(picked: seq<string>, menu: seq<string>, token: string, rest: seq<string>)
    ensures Picks(picked, menu, [token] + rest) ==
      match Picked(menu, token)
      case Some(name) => Picks(Add(picked, name), menu, rest)
      case None => None
  {
    assert ([token] + rest)[0] == token && ([token] + rest)[1..] == rest;
  }

  lemma PicksStep(picked: seq<string>, menu: seq<string>, tokens: seq<string>, i: nat)
    requires i < |tokens|
    ensures Picks(picked, menu, tokens[i..]) ==
      match Picked(menu, tokens[i])
      case Some(name) => Picks(Add(picked, name), menu, tokens[i + 1..])
      case None => None
  {
    assert tokens[i..] == [tokens[i]] + tokens[i + 1..];
    PicksFirst(picked, menu, tokens[i], tokens[i + 1..]);
  }

  method PickLine(given: seq<string>, menu: seq<string>, tokens: seq<string>) returns (r: Option<seq<string>>)
    ensures r == Picks(given, menu, tokens)
  {
    var picked := given;
    var i := 0;
    ghost var want := Picks(given, menu, tokens);
    assert tokens[0..] == tokens;
    while i < |tokens|
      invariant i <= |tokens| && want == Picks(picked, menu, tokens[i..])
    {
      PicksStep(picked, menu, tokens, i);
      var name := Picked(menu, tokens[i]);
      if name.None? {
        return None;
      }
      picked := Add(picked, name.value);
      i := i + 1;
    }
    r := Some(picked);
  }

  method AskFeatures(t: Template, given: seq<string>, lines: seq<string>) returns (r: Option<seq<string>>)
    ensures r == Asked(Menu(t), given, lines)
  {
    var menu := Menu(t);
    if menu == [] {
      return Some(given);
    }
    var i := 0;
    assert lines[0..] == lines;
    while i < |lines|
      invariant i <= |lines| && Asked(menu, given, lines) == Asked(menu, given, lines[i..])
    {
      assert lines[i..][0] == lines[i] && lines[i..][1..] == lines[i + 1..];
      var line := TrimRight(TrimLeft(lines[i]));
      if line == "" {
        return Some(given);
      }
      var picked := PickLine(given, menu, Tokens(line));
      if picked.Some? {
        return picked;
      }
      i := i + 1;
    }
    r := None;
  }

  // ---------------------------------------------------------------- What a line picks

  /** A number as the menu shows it. */
  function Numeral(n: nat): (s: string)
    ensures s != "" && forall i :: 0 <= i < |s| ==> '0' <= s[i] <= '9'
  {
    var digit := '0' + (n % 10) as char;
    if n < 10 then [digit] else Numeral(n / 10) + [digit]
  }

  lemma {:induction false} NumeralValue(n: nat)
    ensures DecimalValue(Numeral(n)) == n
  {
    var s := Numeral(n);
    var digit := '0' + (n % 10) as char;
    assert s[|s| - 1] == digit;
    if n < 10 {
      assert s[..|s| - 1] == "";
    } else {
      assert s[..|s| - 1] == Numeral(n / 10);
      NumeralValue(n / 10);
    }
  }

  /** A number picks the entry the menu shows it at, and nothing if it shows none. */
  lemma PickedByNumber(menu: seq<string>, n: nat)
    ensures Picked(menu, Numeral(n)) == if 1 <= n <= |menu| then Some(menu[n - 1]) else None
  {
    NumeralValue(n);
    assert '0' <= Numeral(n)[0] <= '9';
  }

  lemma {:induction false} NonEmptyConcat(a: seq<string>, b: seq<string>)
    ensures NonEmpty(a + b) == NonEmpty(a) + NonEmpty(b)
  {
    if a == [] {
      assert a + b == b;
    } else {
      assert (a + b)[1..] == a[1..] + b;
      NonEmptyConcat(a[1..], b);
    }
  }

  /** Commas and spaces separate the numbers of a line, wherever they stand. */
  lemma TokensOfTwo(a: string, c: char, b: string)
    requires c == ',' || c == ' '
    ensures Tokens(a + [c] + b) == Tokens(a) + Tokens(b)
  {
    assert Commas(a + [c] + b) == Commas(a) + [COMMA] + Commas(b);
    SplitConcat(Commas(a), COMMA, Commas(b));
    NonEmptyConcat(Split(Commas(a), COMMA), Split(Commas(b), COMMA));
  }

  lemma OneToken(t: string)
    requires COMMA !in t && ' ' !in t
    ensures Tokens(t) == if t == "" then [] else [t]
  {
    assert Commas(t) == t;
    FindNone(t, COMMA);
    var one := [t];
    assert Split(t, COMMA) == one && one[1..] == [] && NonEmpty(one[1..]) == [];
  }

  /** The picks of a line come after what was there, each where it is first picked. */
  lemma {:induction false} PicksAre(base: seq<string>, menu: seq<string>, tokens: seq<string>, names: seq<string>)
    requires |names| == |tokens| && forall i :: 0 <= i < |tokens| ==> Picked(menu, tokens[i]) == Some(names[i])
    ensures Picks(FirstMentions(base), menu, tokens) == Some(FirstMentions(base + names))
    decreases |tokens|
  {
    if tokens == [] {
      assert base + names == base;
    } else {
      var more := base + [names[0]];
      assert more[..|base|] == base;
      MentionsKeep(base, names[0]);
      assert Add(FirstMentions(base), names[0]) == FirstMentions(more);
      assert more + names[1..] == base + names;
      PicksAre(more, menu, tokens[1..], names[1..]);
    }
  }

  /** One token off the menu spoils the line. */
  lemma {:induction false} PicksNone(picked: seq<string>, menu: seq<string>, tokens: seq<string>, i: nat)
    requires i < |tokens| && Picked(menu, tokens[i]).None?
    ensures Picks(picked, menu, tokens).None?
    decreases |tokens|
  {
    if i > 0 && Picked(menu, tokens[0]).Some? {
      assert tokens[1..][i - 1] == tokens[i];
      PicksNone(Add(picked, Picked(menu, tokens[0]).value), menu, tokens[1..], i - 1);
    }
  }

  /** A line of numbers adds their entries to the features given; a line with anything else on it
      is asked for again; an empty one adds nothing. */
  lemma LineAdds(menu: seq<string>, given: seq<string>, line: string, names: seq<string>, lines: seq<string>)
    requires menu != [] && NoRepeats(given)
    ensures var tokens := Tokens(TrimRight(TrimLeft(line)));
      && (TrimRight(TrimLeft(line)) == "" ==> Asked(menu, given, [line] + lines) == Some(given))
      && (TrimRight(TrimLeft(line)) != "" && |names| == |tokens| &&
          (forall i :: 0 <= i < |tokens| ==> Picked(menu, tokens[i]) == Some(names[i])) ==>
            Asked(menu, given, [line] + lines) == Some(FirstMentions(given + names)))
      && (TrimRight(TrimLeft(line)) != "" && (exists i :: 0 <= i < |tokens| && Picked(menu, tokens[i]).None?) ==>
            Asked(menu, given, [line] + lines) == Asked(menu, given, lines))
  {
    var all, tokens := [line] + lines, Tokens(TrimRight(TrimLeft(line)));
    assert all[0] == line && all[1..] == lines;
    MentionsIff(given);
    if |names| == |tokens| && forall i :: 0 <= i < |tokens| ==> Picked(menu, tokens[i]) == Some(names[i]) {
      PicksAre(given, menu, tokens, names);
    }
    if i :| 0 <= i < |tokens| && Picked(menu, tokens[i]).None? {
      PicksNone(given, menu, tokens, i);
    }
  }

  /** The menu shows exactly the optional features the template offers and does not have anyway. */
  lemma MenuIff(t: Template, f: string)
    ensures f in Menu(t) <==> f in OPTIONAL_FEATURES && f !in BaseFeatures(t) && (t == Tenant || f !in TENANT_ONLY)
  {
    OfferedIff(OPTIONAL_FEATURES, t, f);
  }

  lemma {:induction false} OfferedIff(names: seq<string>, t: Template, f: string)
    ensures f in Offered(names, t) <==> f in names && f !in BaseFeatures(t) && Offers(t, f)
  {
    if names != [] {
      OfferedIff(names[1..], t, f);
    }
  }

  // ---------------------------------------------------------------- What comes of it

  /** Added to a list without repeats, picks make one, and bring only what is on the menu. */
  lemma {:induction false} PicksKeep(picked: seq<string>, menu: seq<string>, tokens: seq<string>)
    requires NoRepeats(picked) && FeatureTexts(picked) && FeatureTexts(menu) && Picks(picked, menu, tokens).Some?
    ensures NoRepeats(Picks(picked, menu, tokens).value) && FeatureTexts(Picks(picked, menu, tokens).value)
    ensures picked <= Picks(picked, menu, tokens).value
    decreases |tokens|
  {
    if tokens != [] {
      var name := Picked(menu, tokens[0]).value;
      assert FeatureText(name);
      PicksKeep(Add(picked, name), menu, tokens[1..]);
    }
  }

  lemma {:induction false} AskedKeeps(menu: seq<string>, given: seq<string>, lines: seq<string>)
    requires NoRepeats(given) && FeatureTexts(given) && FeatureTexts(menu) && Asked(menu, given, lines).Some?
    ensures NoRepeats(Asked(menu, given, lines).value) && FeatureTexts(Asked(menu, given, lines).value)
    ensures given <= Asked(menu, given, lines).value
    decreases |lines|
  {
    if menu != [] && lines != [] {
      var line := TrimRight(TrimLeft(lines[0]));
      if line != "" {
        if Picks(given, menu, Tokens(line)).Some? {
          PicksKeep(given, menu, Tokens(line));
        } else {
          AskedKeeps(menu, given, lines[1..]);
        }
      }
    }
  }

  lemma {:induction false} OfferedFrom(names: seq<string>, t: Template)
    ensures forall i :: 0 <= i < |Offered(names, t)| ==> Offered(names, t)[i] in names
  {
    if names != [] {
      OfferedFrom(names[1..], t);
    }
  }

  lemma MenuTexts(t: Template)
    ensures FeatureTexts(Menu(t))
  {
    OfferedFrom(OPTIONAL_FEATURES, t);
    forall i | 0 <= i < |Menu(t)|
      ensures FeatureText(Menu(t)[i])
    {
      OptionalWord(Menu(t)[i]);
      WordIsText(Menu(t)[i]);
    }
  }

  // ---------------------------------------------------------------- What the parser hands over

  lemma {:induction false} TrimLeftEnds(s: string)
    ensures TrimLeft(s) == "" || !White(TrimLeft(s)[0])
    ensures forall c :: c !in s ==> c !in TrimLeft(s)
  {
    if s != "" && White(s[0]) {
      TrimLeftEnds(s[1..]);
    }
  }

  lemma {:induction false} TrimRightEnds(s: string)
    ensures TrimRight(s) <= s && (TrimRight(s) == "" || !White(TrimRight(s)[|TrimRight(s)| - 1]))
    decreases |s|
  {
    if s != "" && White(s[|s| - 1]) {
      TrimRightEnds(s[..|s| - 1]);
    }
  }

  /** A text that neither starts nor ends with white space has nothing to trim. */
  lemma TrimmedAlready(t: string)
    requires t != "" && !White(t[0]) && !White(t[|t| - 1])
    ensures TrimRight(TrimLeft(t)) == t
  {
  }

  /** Trimming twice is trimming once, and brings no character in. */
  lemma TrimmedText(s: string)
    requires COMMA !in s && ' ' !in s && TrimRight(TrimLeft(s)) != ""
    ensures FeatureText(TrimRight(TrimLeft(s)))
  {
    var l := TrimLeft(s);
    TrimLeftEnds(s);
    TrimRightEnds(l);
    var t := TrimRight(l);
    assert t[0] == l[0];
    TrimmedAlready(t);
  }

  lemma {:induction false} TrimmedTexts(pieces: seq<string>)
    requires Free(pieces, COMMA) && Free(pieces, ' ')
    ensures FeatureTexts(Trimmed(pieces))
  {
    if pieces != [] {
      if TrimRight(TrimLeft(pieces[0])) != "" {
        TrimmedText(pieces[0]);
      }
      TrimmedTexts(pieces[1..]);
    }
  }

  lemma {:induction false} SplitOf(s: string, c: char, d: char)
    requires d !in s
    ensures Free(Split(s, c), d)
    decreases |s|
  {
    var i := Find(s, c);
    if i < |s| {
      SplitOf(s[i + 1..], c, d);
    }
  }

  lemma SplitTexts(raw: string)
    ensures FeatureTexts(SplitFeatures(raw))
  {
    JoinOfSplit(Commas(raw), COMMA);
    SplitOf(Commas(raw), COMMA, ' ');
    TrimmedTexts(Split(Commas(raw), COMMA));
  }

  /** What flags hold while they are parsed. */
  predicate SoundFlags(f: NewFlags) { FeatureTexts(f.features) && (f.name.Some? ==> Named(f.name.value)) }

  lemma AssignKeeps(f: NewFlags, flag: Flag, v: string)
    requires SoundFlags(f) && Assign(f, flag, v).Ok?
    ensures SoundFlags(Assign(f, flag, v).value)
  {
    SplitTexts(v);
  }

  lemma PositionalIsNamed(arg: string)
    requires Classify(arg) == Positional
    ensures Named(arg)
  {
    assert (arg != "" && arg[0] == '-') ==> Starts(arg, "-");
  }

  lemma {:induction false} ParseKeeps(args: seq<string>, f: NewFlags)
    requires SoundFlags(f) && Parse(args, f).Ok?
    ensures SoundFlags(Parse(args, f).value)
    decreases |args|
  {
    if args != [] {
      match Classify(args[0])
      case Takes(flag) =>
        AssignKeeps(f, flag, args[1]);
        ParseKeeps(args[2..], Assign(f, flag, args[1]).value);
      case Brings(flag, v) =>
        AssignKeeps(f, flag, v);
        ParseKeeps(args[1..], Assign(f, flag, v).value);
      case Asks => ParseKeeps(args[1..], f);
      case Positional =>
        PositionalIsNamed(args[0]);
        ParseKeeps(args[1..], f.(name := Some(args[0])));
    }
  }

  lemma ParsedKeeps(args: seq<string>, interactive: bool)
    requires Parsed(args, interactive).Ok?
    ensures var f := Parsed(args, interactive).value;
      SoundFlags(f) && f.name.Some? && NoRepeats(f.features)
  {
    ParseKeeps(args, NoFlags());
    var f := Parse(args, NoFlags()).value;
    MentionsFrom(f.features);
    MentionsDistinct(f.features);
  }

  // ---------------------------------------------------------------- The wizard's choice

  /** What is typed: a name that passed validation, menu picks, and the lines at the feature menu. */
  datatype Answers = Answers(name: string, template: Template, backend: Backend, lines: seq<string>)

  /** `ask`, up to the printed command: a flag given is not asked for again. `path` is the
      absolute path of the checkout, if one was named. */
  function Ask(f: NewFlags, path: Option<string>, answers: Answers): Option<NewArgs> {
    var template := if f.template.Some? then f.template.value else answers.template;
    match Asked(Menu(template), f.features, answers.lines)
    case None => None
    case Some(features) =>
      Some(NewArgs(if f.name.Some? && f.name.value != "" then f.name.value else answers.name, template,
                   if f.backend.Some? then f.backend.value else answers.backend, features, path, f.dep))
  }

  /** What a flag answered is not asked again; what none did is the answer typed. */
  lemma FlagsStand(f: NewFlags, path: Option<string>, answers: Answers)
    requires Ask(f, path, answers).Some?
    ensures var a := Ask(f, path, answers).value;
      && a.path == path && a.dep == f.dep
      && (f.name.Some? && f.name.value != "" ==> a.name == f.name.value)
      && (f.name == None || f.name == Some("") ==> a.name == answers.name)
      && (f.template.Some? ==> a.template == f.template.value) && (f.template.None? ==> a.template == answers.template)
      && (f.backend.Some? ==> a.backend == f.backend.value) && (f.backend.None? ==> a.backend == answers.backend)
      && Asked(Menu(a.template), f.features, answers.lines) == Some(a.features)
  {
  }

  /** Every choice the wizard can make names each feature once and can be said with flags. */
  lemma WizardChoice(args: seq<string>, path: Option<string>, answers: Answers)
    requires Parsed(args, true).Ok? && NameLike(answers.name) && Ask(Parsed(args, true).value, path, answers).Some?
    ensures var a := Ask(Parsed(args, true).value, path, answers).value;
      NoRepeats(a.features) && Expressible(a) && a.name != ""
  {
    var f := Parsed(args, true).value;
    ParsedKeeps(args, true);
    var template := if f.template.Some? then f.template.value else answers.template;
    MenuTexts(template);
    AskedKeeps(Menu(template), f.features, answers.lines);
  }

  /** The command the wizard prints gives its choice back exactly when a shell takes the name
      as it is and the template has the features. It prints before either is validated. */
  lemma WizardPrintsBackIff(args: seq<string>, path: Option<string>, answers: Answers)
    requires Parsed(args, true).Ok? && NameLike(answers.name) && Ask(Parsed(args, true).value, path, answers).Some?
    ensures var a := Ask(Parsed(args, true).value, path, answers).value;
      GivesBack(a) <==> AllLiteral(a.name) && AllowedFeatures(a.features, a.template)
  {
    WizardChoice(args, path, answers);
    PrintedParsesBack(Ask(Parsed(args, true).value, path, answers).value);
  }

  // ---------------------------------------------------------------- Two it does not give back

  lemma InteractiveFlag()
    ensures Classify("-i") == Asks
  {
    var w := "-i";
    assert |w| == 2 && w[1] == 'i';
    assert "-b"[1] == 'b' && "-F"[1] == 'F' && "-t"[1] == 't';
    assert |"-b="| == 3 && |"-F="| == 3 && |"-t="| == 3 && |"--backend"| == 9;
  }

  /** `new <name> -i`, default answers. */
  lemma GivenNameParses(name: string)
    requires Named(name)
    ensures Parsed([name, "-i"], true) == Ok(NewFlags(Some(name), None, None, [], None, Rustango))
  {
    NameIsPositional(name);
    InteractiveFlag();
    var f := NoFlags().(name := Some(name));
    assert [name, "-i"][1..] == ["-i"] && ["-i"][1..] == [];
    assert Parse(["-i"], f) == Parse([], f);
    assert Parse([name, "-i"], NoFlags()) == Ok(f);
    assert FirstMentions([]) == [];
  }

  lemma SpacedText(u: string, v: string, rest: string)
    ensures (u + " " + v) + rest == u + " " + (v + rest)
  {
  }

  lemma NothingPicked(t: Template, lines: seq<string>)
    requires lines != [] && lines[0] == ""
    ensures Asked(Menu(t), [], lines) == Some([])
  {
  }

  /** A name a shell takes as it is comes back, whether it will pass validation or not. */
  lemma LiteralNameComesBack(name: string, answers: Answers)
    requires AllLiteral(name) && Named(name) && answers.lines != [] && answers.lines[0] == ""
    ensures Parsed([name, "-i"], true).Ok?
    ensures var a := Ask(Parsed([name, "-i"], true).value, None, answers);
      a.Some? && a.value.name == name && GivesBack(a.value)
  {
    GivenNameParses(name);
    NothingPicked(answers.template, answers.lines);
    var a := NewArgs(name, answers.template, answers.backend, [], None, Rustango);
    assert Ask(Parsed([name, "-i"], true).value, None, answers) == Some(a);
    PrintedParsesBack(a);
  }

  /** Such names that no crate may have: one character more than a name may hold. */
  lemma UnusualName(name: string, c: char)
    requires NameLike(name) && Literal(c) && !NamePart(c)
    ensures AllLiteral(name + [c]) && Named(name + [c]) && !NameLike(name + [c])
  {
    var w := name + [c];
    NameLiteral(name);
    assert w[|name|] == c && w[0] == name[0];
  }

  lemma UnusualCharacters()
    ensures Literal('^') && !NamePart('^') && Literal('\U{00E9}') && !NamePart('\U{00E9}')
  {
  }

  /** What the shell makes of it. */
  lemma SpacedNameReads(a: NewArgs, u: string, v: string)
    requires AllLiteral(u) && AllLiteral(v) && a.name == u + " " + v && LiteralChoice(a.(name := v))
    ensures Words(Printed(a), None) == Some(["cargo", "rustango", "new"] + ([u] + NewWords(a.(name := v))))
  {
    var b := a.(name := v);
    PrintedRegrouped(a);
    PrintedRegrouped(b);
    PrintedReadsIff(b);
    NameIsRead(b);
    assert AfterName(a) == AfterName(b);
    SpacedText(u, v, AfterName(a));
    OneWordFirst(u, v + AfterName(b));
    ThreeWordsFirst(a.name + AfterName(a));
  }

  lemma TwoNames(u: string, v: string, rest: seq<string>)
    requires Named(u) && Named(v)
    ensures Parse([u] + ([v] + rest), NoFlags()) == Err(ExtraPositional)
  {
    NameIsPositional(u);
    NameIsPositional(v);
    ParseNamed(u, [v] + rest, NoFlags());
    assert ([v] + rest)[0] == v;
  }

  /** A name given with a space in it is accepted by the flags and printed as it is; the shell reads
      two words, and the command is refused for the second. */
  lemma SpacedNameIsRefused(u: string, v: string, answers: Answers)
    requires AllLiteral(u) && AllLiteral(v) && Named(u) && Named(v) && answers.lines != [] && answers.lines[0] == ""
    ensures Parsed([u + " " + v, "-i"], true).Ok?
    ensures var a := Ask(Parsed([u + " " + v, "-i"], true).value, None, answers);
      && a.Some? && a.value.name == u + " " + v
      && Words(Printed(a.value), None).Some? && |Words(Printed(a.value), None).value| >= 3
      && Parsed(Words(Printed(a.value), None).value[3..], false) == Err(ExtraPositional)
  {
    var name := u + " " + v;
    assert Named(name);
    GivenNameParses(name);
    var f := Parsed([name, "-i"], true).value;
    var a := NewArgs(name, answers.template, answers.backend, [], None, Rustango);
    NothingPicked(answers.template, answers.lines);
    assert Ask(f, None, answers) == Some(a);
    SpacedNameReads(a, u, v);
    var rest := [u] + NewWords(a.(name := v));
    assert (["cargo", "rustango", "new"] + rest)[3..] == rest;
    TwoNames(u, v, NewWords(a.(name := v))[1..]);
    assert NewWords(a.(name := v)) == [v] + NewWords(a.(name := v))[1..];
  }

  /** A special character outside quotes stops the reader. */
  lemma StopsReading(u: string, c: char, rest: string)
    requires AllLiteral(u) && Special(c)
    ensures Words(u + ([c] + rest), None) == None
  {
    LiteralReads(u, [c] + rest, None);
    assert ([c] + rest)[0] == c;
  }

  lemma SpecialText(u: string, v: string, rest: string)
    ensures (u + ";" + v) + rest == u + ([';'] + (v + rest))
  {
  }

  lemma SpecialFeatureReads(a: NewArgs, u: string, v: string)
    requires AllLiteral(a.name) && AllLiteral(u) && a.features == [u + ";" + v]
    ensures Words(Printed(a), None) == None
  {
    var j := Join(a.features, COMMA);
    assert j == u + ";" + v;
    PrintedRegrouped(a);
    AfterNameNested(a);
    TemplateLiteral(a.template);
    BackendLiteral(a.backend);
    OwnWordsLiteral();
    SixFirst(a.name, "--template", TemplateName(a.template), "--backend", BackendName(a.backend), "--features",
             j + AfterFeatures(a));
    SpecialText(u, v, AfterFeatures(a));
    StopsReading(u, ';', v + AfterFeatures(a));
    ThreeWordsFirst(a.name + AfterName(a));
  }

  lemma OneMention(f: string)
    ensures FirstMentions([f]) == [f]
  {
    assert [f][..0] == [] && FirstMentions([]) == [];
    assert FirstMentions([f]) == FirstMentions([f][..0]) + [f];
  }

  lemma SpecialFeatureFlags(name: string, f: string)
    requires Named(name) && FeatureText(f)
    ensures Parse([name, "-i", "--features", f], NoFlags()) == Ok(NewFlags(Some(name), None, None, [f], None, Rustango))
  {
    var named, rest := NoFlags().(name := Some(name)), ["--features", f];
    NameIsPositional(name);
    InteractiveFlag();
    FeaturesFlagWord();
    FeaturesReadBack([f]);
    assert Join([f], COMMA) == f && [] + [f] == [f];
    assert [name, "-i", "--features", f] == [name] + (["-i"] + rest);
    ParseNamed(name, ["-i"] + rest, NoFlags());
    assert (["-i"] + rest)[0] == "-i" && (["-i"] + rest)[1..] == rest;
    ParseSteps(rest, [], named, named.(features := [f]));
    assert rest + [] == rest;
  }

  /** Such a feature comes through the flags when no template is given. */
  lemma SpecialFeatureParses(name: string, f: string)
    requires NameLike(name) && FeatureText(f) && f != "tenancy"
    ensures Parsed([name, "-i", "--features", f], true) == Ok(NewFlags(Some(name), None, None, [f], None, Rustango))
  {
    NameLiteral(name);
    SpecialFeatureFlags(name, f);
    OneMention(f);
  }

  /** `new <name> -i --features '<u>;<v>'`: the flags take it, the choice is printed before its
      features are checked, and the line is not one command to a shell. */
  lemma SpecialFeatureIsPrinted(name: string, u: string, v: string, answers: Answers)
    requires NameLike(name) && AllLiteral(u) && FeatureText(u + ";" + v) && answers.lines != []
    requires answers.lines[0] == ""
    ensures Parsed([name, "-i", "--features", u + ";" + v], true).Ok?
    ensures var a := Ask(Parsed([name, "-i", "--features", u + ";" + v], true).value, None, answers);
      a.Some? && a.value.features == [u + ";" + v] && Words(Printed(a.value), None) == None
  {
    var f := u + ";" + v;
    assert f[|u|] == ';' && ';' !in "tenancy";
    SpecialFeatureParses(name, f);
    NameLiteral(name);
    var a := NewArgs(name, answers.template, answers.backend, [f], None, Rustango);
    assert Asked(Menu(answers.template), [f], answers.lines) == Some([f]);
    SpecialFeatureReads(a, u, v);
  }
}
