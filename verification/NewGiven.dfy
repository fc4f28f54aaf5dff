/** What an accepted `new` command line says: the flags and values it gives, in order, and what
    the parser makes of them. */
module NewGiven {
  import opened Options
  import opened Pieces
  import opened ShellWords
  import opened NewCommand

  // ---------------------------------------------------------------- What a line gives

  /** A flag with its value, or a positional argument. */
  datatype Item = Set(flag: Flag, value: string) | Name(text: string)

  /** What one argument list gives, in order. */
  function Given(args: seq<string>): seq<Item>
    decreases |args|
  {
    if args == [] then []
    else
      match Classify(args[0])
      case Takes(flag) => if |args| < 2 then [] else [Set(flag, args[1])] + Given(args[2..])
      case Brings(flag, v) => [Set(flag, v)] + Given(args[1..])
      case Positional => [Name(args[0])] + Given(args[1..])
      case _ => Given(args[1..])
  }

  /** A flag gives its value under any of its names, in either spelling. */
  lemma GivenSet(flag: Flag, k: nat, v: string, rest: seq<string>)
    requires k < |Spellings(flag)|
    ensures Given([Spellings(flag)[k], v] + rest) == [Set(flag, v)] + Given(rest)
    ensures Given([Spellings(flag)[k] + "=" + v] + rest) == [Set(flag, v)] + Given(rest)
  {
    SpellingKinds(flag, k, v);
    var two, one := [Spellings(flag)[k], v] + rest, [Spellings(flag)[k] + "=" + v] + rest;
    assert two[0] == Spellings(flag)[k] && two[1] == v && two[2..] == rest;
    assert one[0] == Spellings(flag)[k] + "=" + v && one[1..] == rest;
  }

  /** Anything that does not start with a dash is a name. */
  lemma GivenName(name: string, rest: seq<string>)
    requires Named(name)
    ensures Given([name] + rest) == [Name(name)] + Given(rest)
  {
    NameIsPositional(name);
    assert ([name] + rest)[0] == name && ([name] + rest)[1..] == rest;
  }

  // ---------------------------------------------------------------- What the parser makes of it

  /** The values given to `--features`, split, one after the other. */
  function FeaturesIn(items: seq<Item>): seq<string> {
    if items == [] then []
    else (if items[0].Set? && items[0].flag == FeaturesFlag then SplitFeatures(items[0].value) else [])
         + FeaturesIn(items[1..])
  }

  function NamesIn(items: seq<Item>): seq<string> {
    if items == [] then [] else (if items[0].Name? then [items[0].text] else []) + NamesIn(items[1..])
  }

  /** The value a flag was given last. */
  function Latest(items: seq<Item>, flag: Flag): Option<string> {
    if items == [] then None
    else
      var later := Latest(items[1..], flag);
      if later.Some? then later
      else if items[0].Set? && items[0].flag == flag then Some(items[0].value) else None
  }

  lemma {:induction false} LatestIs(items: seq<Item>, flag: Flag, i: nat)
    requires i < |items| && items[i].Set? && items[i].flag == flag
    requires forall j :: i < j < |items| && items[j].Set? ==> items[j].flag != flag
    ensures Latest(items, flag) == Some(items[i].value)
  {
    if i > 0 {
      assert items[1..][i - 1] == items[i];
      LatestIs(items[1..], flag, i - 1);
    } else {
      LatestNone(items[1..], flag);
    }
  }

  lemma {:induction false} LatestNone(items: seq<Item>, flag: Flag)
    requires forall j :: 0 <= j < |items| && items[j].Set? ==> items[j].flag != flag
    ensures Latest(items, flag) == None
  {
    if items != [] {
      LatestNone(items[1..], flag);
    }
  }

  /** A value its flag takes. */
  predicate Takeable(item: Item) {
    item.Set? ==>
      && (item.flag == BackendFlag ==> ParseBackend(item.value).Some?)
      && (item.flag == TemplateFlag ==> ParseTemplate(item.value).Some?)
      && (item.flag == AliasFlag ==> ParseDep(item.value).Some?)
  }

  predicate AllTakeable(items: seq<Item>) { forall i :: 0 <= i < |items| ==> Takeable(items[i]) }

  /** No help asked for, no unknown flag, no flag without its value. */
  predicate Complete(args: seq<string>)
    decreases |args|
  {
    args == [] ||
    match Classify(args[0])
    case Takes(_) => |args| >= 2 && Complete(args[2..])
    case Brings(_, _) => Complete(args[1..])
    case Asks => Complete(args[1..])
    case Positional => Complete(args[1..])
    case Help => false
    case Unknown => false
  }

  /** At most one name, counting one already there. */
  predicate OneName(f: NewFlags, items: seq<Item>) { (if f.name.Some? then 1 else 0) + |NamesIn(items)| <= 1 }

  /** A value given, read; else what was there. */
  function Pick<T>(parse: string -> Option<T>, v: Option<string>, before: Option<T>): Option<T> {
    match v
    case Some(text) => parse(text)
    case None => before
  }

  function AsIs(s: string): Option<string> { Some(s) }

  function Or<T>(o: Option<T>, before: T): T { if o.Some? then o.value else before }

  /** The flags once the items are taken: features add up, of the others the last one stands. */
  function Taken(f: NewFlags, items: seq<Item>): NewFlags {
    NewFlags(if NamesIn(items) != [] then Some(NamesIn(items)[0]) else f.name,
             Pick(ParseTemplate, Latest(items, TemplateFlag), f.template),
             Pick(ParseBackend, Latest(items, BackendFlag), f.backend),
             f.features + FeaturesIn(items),
             Pick(AsIs, Latest(items, PathFlag), f.path),
             Or(Pick(ParseDep, Latest(items, AliasFlag), Some(f.dep)), f.dep))
  }

  lemma {:induction false} LatestTakeable(items: seq<Item>, flag: Flag)
    requires AllTakeable(items)
    ensures Latest(items, flag).Some? ==> Takeable(Set(flag, Latest(items, flag).value))
  {
    if items != [] {
      LatestTakeable(items[1..], flag);
      assert Takeable(items[0]);
    }
  }

  lemma TakenNothing(f: NewFlags)
    ensures Taken(f, []) == f
  {
    assert f.features + [] == f.features;
  }

  /** What one item does to a flag's value. */
  function Once<T>(parse: string -> Option<T>, item: Item, flag: Flag, before: Option<T>): Option<T> {
    if item.Set? && item.flag == flag then parse(item.value) else before
  }

  lemma PickFirst<T>(parse: string -> Option<T>, item: Item, rest: seq<Item>, flag: Flag, before: Option<T>)
    ensures Pick(parse, Latest([item] + rest, flag), before) ==
      Pick(parse, Latest(rest, flag), Once(parse, item, flag, before))
  {
    assert ([item] + rest)[1..] == rest;
  }

  lemma ListsFirst(item: Item, rest: seq<Item>, before: seq<string>)
    ensures before + FeaturesIn([item] + rest) ==
      before + (if item.Set? && item.flag == FeaturesFlag then SplitFeatures(item.value) else []) + FeaturesIn(rest)
    ensures NamesIn([item] + rest) == (if item.Name? then [item.text] else []) + NamesIn(rest)
  {
    assert ([item] + rest)[1..] == rest;
  }

  /** The flags after one item. */
  function After(f: NewFlags, item: Item): NewFlags {
    NewFlags(if item.Name? then Some(item.text) else f.name,
             Once(ParseTemplate, item, TemplateFlag, f.template),
             Once(ParseBackend, item, BackendFlag, f.backend),
             f.features + (if item.Set? && item.flag == FeaturesFlag then SplitFeatures(item.value) else []),
             Once(AsIs, item, PathFlag, f.path),
             Or(Once(ParseDep, item, AliasFlag, Some(f.dep)), f.dep))
  }

  lemma AssignIsAfter(f: NewFlags, flag: Flag, v: string)
    ensures Assign(f, flag, v).Ok? <==> Takeable(Set(flag, v))
    ensures Assign(f, flag, v).Ok? ==> Assign(f, flag, v).value == After(f, Set(flag, v))
  {
    assert f.features + [] == f.features;
  }

  lemma DepFirst(item: Item, rest: seq<Item>, dep: DepName)
    requires Takeable(item) && AllTakeable(rest)
    ensures Or(Pick(ParseDep, Latest([item] + rest, AliasFlag), Some(dep)), dep) ==
      var d := Or(Once(ParseDep, item, AliasFlag, Some(dep)), dep);
      Or(Pick(ParseDep, Latest(rest, AliasFlag), Some(d)), d)
  {
    PickFirst(ParseDep, item, rest, AliasFlag, Some(dep));
    LatestTakeable(rest, AliasFlag);
  }

  lemma TakenFirst(f: NewFlags, item: Item, rest: seq<Item>)
    requires Takeable(item) && AllTakeable(rest) && OneName(f, [item] + rest)
    ensures Taken(f, [item] + rest) == Taken(After(f, item), rest)
  {
    PickFirst(ParseTemplate, item, rest, TemplateFlag, f.template);
    PickFirst(ParseBackend, item, rest, BackendFlag, f.backend);
    PickFirst(AsIs, item, rest, PathFlag, f.path);
    DepFirst(item, rest, f.dep);
    ListsFirst(item, rest, f.features);
  }

  lemma SplitItems(item: Item, rest: seq<Item>, f: NewFlags)
    ensures AllTakeable([item] + rest) <==> Takeable(item) && AllTakeable(rest)
    ensures OneName(f, [item] + rest) <==>
      if item.Name? then f.name.None? && NamesIn(rest) == [] else OneName(f, rest)
  {
    var items := [item] + rest;
    assert items[0] == item && items[1..] == rest;
    assert forall i :: 0 <= i < |rest| ==> items[i + 1] == rest[i];
  }

  /** The parser accepts exactly what is complete, takeable and names one project at most, and
      then the flags are those of the items taken in order. */
  lemma {:induction false} ParseSays(args: seq<string>, f: NewFlags)
    ensures Parse(args, f).Ok? <==> Complete(args) && AllTakeable(Given(args)) && OneName(f, Given(args))
    ensures Parse(args, f).Ok? ==> Parse(args, f).value == Taken(f, Given(args))
    decreases |args|, 0
  {
    if args == [] {
      TakenNothing(f);
    } else {
      match Classify(args[0])
      case Takes(flag) =>
        if |args| >= 2 {
          SaysSet(f, flag, args[1], args[2..]);
          assert Given(args) == [Set(flag, args[1])] + Given(args[2..]);
        }
      case Brings(flag, v) =>
        SaysSet(f, flag, v, args[1..]);
        assert Given(args) == [Set(flag, v)] + Given(args[1..]);
      case Asks => ParseSays(args[1..], f);
      case Help =>
      case Unknown =>
      case Positional =>
        SaysName(f, args[0], args[1..]);
        assert Given(args) == [Name(args[0])] + Given(args[1..]);
    }
  }

  lemma {:induction false} SaysName(f: NewFlags, name: string, rest: seq<string>)
    ensures var items, g := [Name(name)] + Given(rest), f.(name := Some(name));
      && (f.name.None? && Parse(rest, g).Ok? <==> Complete(rest) && AllTakeable(items) && OneName(f, items))
      && (f.name.None? && Parse(rest, g).Ok? ==> Parse(rest, g).value == Taken(f, items))
    decreases |rest|, 1
  {
    var g := f.(name := Some(name));
    SplitItems(Name(name), Given(rest), f);
    ParseSays(rest, g);
    assert f.features + [] == f.features;
    assert After(f, Name(name)) == g;
    if f.name.None? && Parse(rest, g).Ok? {
      TakenFirst(f, Name(name), Given(rest));
    }
  }

  lemma {:induction false} SaysSet(f: NewFlags, flag: Flag, v: string, rest: seq<string>)
    ensures var items, next := [Set(flag, v)] + Given(rest), Assign(f, flag, v);
      && (next.Ok? && Parse(rest, next.value).Ok? <==> Complete(rest) && AllTakeable(items) && OneName(f, items))
      && (next.Ok? && Parse(rest, next.value).Ok? ==> Parse(rest, next.value).value == Taken(f, items))
    decreases |rest|, 1
  {
    AssignIsAfter(f, flag, v);
    SplitItems(Set(flag, v), Given(rest), f);
    if Takeable(Set(flag, v)) {
      ParseSays(rest, After(f, Set(flag, v)));
      if Parse(rest, After(f, Set(flag, v))).Ok? {
        TakenFirst(f, Set(flag, v), Given(rest));
      }
    }
  }

  lemma WizardWord()
    ensures Classify("--interactive") == Asks && Classify("-i") == Asks
  {
    var w := "--interactive";
    assert |w| == 13 && w[1] == '-' && w[2] == 'i';
    assert "--backend="[2] == 'b' && "--features="[2] == 'f' && "--template="[2] == 't';
    assert "--rustango-path="[2] == 'r' && "--alias="[2] == 'a' && |"--backend"| == 9 && |"--features"| == 10;
    assert |"--template"| == 10 && |"--rustango-path"| == 15 && |"--alias"| == 7;
    assert |"-i"| == 2 && "-i"[1] == 'i' && "-b"[1] == 'b' && "-F"[1] == 'F' && "-t"[1] == 't';
    assert |"-b"| == 2 && |"-F"| == 2 && |"-t"| == 2 && |"-b="| == 3 && "-F="[1] == 'F' && "-t="[1] == 't';
  }

  lemma HelpWord()
    ensures Classify("--help") == Help && Classify("-h") == Help
  {
    var w := "--help";
    assert |w| == 6 && w[1] == '-' && w[2] == 'h';
    assert |"--backend"| == 9 && |"--features"| == 10 && |"--template"| == 10 && |"--rustango-path"| == 15;
    assert |"--alias"| == 7 && |"--interactive"| == 13 && |"-i"| == 2 && "-i"[1] == 'i';
    assert |"-h"| == 2 && "-h"[1] == 'h' && "-b"[1] == 'b' && "-F"[1] == 'F' && "-t"[1] == 't';
    assert |"-b"| == 2 && |"-F"| == 2 && |"-t"| == 2 && "-b="[1] == 'b' && "-F="[1] == 'F' && "-t="[1] == 't';
  }

  /** `-i` gives nothing; a line with `-h` where a flag may stand is answered with the help. */
  lemma OtherWords(rest: seq<string>, f: NewFlags)
    ensures Parse(["--interactive"] + rest, f) == Parse(["-i"] + rest, f) == Parse(rest, f)
    ensures Parse(["--help"] + rest, f) == Parse(["-h"] + rest, f) == Err(HelpShown)
  {
    WizardWord();
    HelpWord();
    assert (["--interactive"] + rest)[1..] == rest && (["-i"] + rest)[1..] == rest;
  }

  /** Every name a backend goes by. */
  lemma BackendNames()
    ensures ParseBackend("postgres") == ParseBackend("postgresql") == ParseBackend("pg") == Some(Postgres)
    ensures ParseBackend("sqlite") == ParseBackend("sqlite3") == Some(Sqlite)
    ensures ParseBackend("mysql") == ParseBackend("mariadb") == Some(Mysql)
  {
    assert |"pg"| == 2 && |"postgres"| == 8 && |"postgresql"| == 10 && |"sqlite"| == 6 && |"sqlite3"| == 7;
    assert |"mysql"| == 5 && |"mariadb"| == 7 && "mariadb"[0] == 'm' && "sqlite3"[0] == 's';
  }

  /** What is not said. */
  lemma Defaults(f: NewFlags)
    ensures Resolve(f).template == Or(f.template, Fullstack) && Resolve(f).backend == Or(f.backend, Postgres)
    ensures Resolve(f).path == f.path && Resolve(f).dep == f.dep && Resolve(f).features == f.features
    ensures f.name.Some? ==> Resolve(f).name == f.name.value
  {
  }

  // ---------------------------------------------------------------- The whole line

  /** The template a line asks for: the last one named, else the tenant one if it names tenancy. */
  function AskedTemplate(items: seq<Item>): Option<Template> {
    var t := Pick(ParseTemplate, Latest(items, TemplateFlag), None);
    if t.None? && "tenancy" in FeaturesIn(items) then Some(Tenant) else t
  }

  /** What the parser does once the arguments are read. */
  lemma FinishSays(f: NewFlags, interactive: bool)
    ensures var template := if f.template.None? && "tenancy" in f.features then Some(Tenant) else f.template;
      && (Finish(f, interactive).Ok? <==>
            && (f.name.Some? || interactive)
            && (template.Some? || !interactive ==>
                  AllowedFeatures(f.features, if template.Some? then template.value else Fullstack)))
      && (Finish(f, interactive).Ok? ==>
            Finish(f, interactive).value ==
              f.(name := Some(Or(f.name, "")), features := FirstMentions(f.features), template := template))
  {
    MentionsKeep(f.features, "tenancy");
    var template := if f.template.None? && "tenancy" in f.features then Some(Tenant) else f.template;
    MentionsAllowed(f.features, if template.Some? then template.value else Fullstack);
  }

  /** The flags of a whole line, before it is finished. */
  lemma LineFlags(items: seq<Item>)
    ensures var f := Taken(NoFlags(), items);
      && f.features == FeaturesIn(items)
      && f.name == (if NamesIn(items) == [] then None else Some(NamesIn(items)[0]))
      && f.template == Pick(ParseTemplate, Latest(items, TemplateFlag), None)
      && f.backend == Pick(ParseBackend, Latest(items, BackendFlag), None)
      && f.path == Latest(items, PathFlag)
      && f.dep == Or(Pick(ParseDep, Latest(items, AliasFlag), None), Rustango)
  {
    assert [] + FeaturesIn(items) == FeaturesIn(items);
  }

  /** A line is accepted exactly when it is complete, every value is one its flag takes, it names
      one project (or none for the wizard to ask), and the template it asks for, or the default
      one, has its features; the wizard's pick is left for later. */
  lemma AcceptedIff(args: seq<string>, interactive: bool)
    ensures var items := Given(args);
      var template := AskedTemplate(items);
      Parsed(args, interactive).Ok? <==>
        && Complete(args) && AllTakeable(items)
        && (|NamesIn(items)| == 1 || (interactive && NamesIn(items) == []))
        && (template.Some? || !interactive ==>
              AllowedFeatures(FeaturesIn(items), if template.Some? then template.value else Fullstack))
  {
    ParseSays(args, NoFlags());
    LineFlags(Given(args));
    FinishSays(Taken(NoFlags(), Given(args)), interactive);
  }

  /** What an accepted line means: the one name; each feature where it is first mentioned in all the
      values given to `--features`, one after the other; of every other flag the value given last,
      or its default; and the template tenancy asks for when none is named. */
  lemma AcceptedLine(args: seq<string>, interactive: bool)
    requires Parsed(args, interactive).Ok?
    ensures var f, items := Parsed(args, interactive).value, Given(args);
      && f.features == FirstMentions(FeaturesIn(items))
      && f.name == Some(if NamesIn(items) == [] then "" else NamesIn(items)[0])
      && f.template == AskedTemplate(items)
      && f.backend == Pick(ParseBackend, Latest(items, BackendFlag), None)
      && f.path == Latest(items, PathFlag)
      && f.dep == Or(Pick(ParseDep, Latest(items, AliasFlag), None), Rustango)
  {
    ParseSays(args, NoFlags());
    LineFlags(Given(args));
    FinishSays(Taken(NoFlags(), Given(args)), interactive);
  }

  /** A line that names tenancy and no template is accepted with the tenant template, if that has
      the other features. */
  lemma TenancyAsksForTenant(args: seq<string>)
    requires Complete(args) && AllTakeable(Given(args)) && |NamesIn(Given(args))| == 1
    requires "tenancy" in FeaturesIn(Given(args)) && Latest(Given(args), TemplateFlag) == None
    requires AllowedFeatures(FeaturesIn(Given(args)), Tenant)
    ensures Parsed(args, false).Ok? && Resolve(Parsed(args, false).value).template == Tenant
  {
    AcceptedIff(args, false);
    AcceptedLine(args, false);
  }

  /** Two values given to `--features`, under whichever of its names, add up in order. */
  lemma FeaturesAddUp(i: nat, j: nat, a: string, b: string, rest: seq<string>)
    requires i < |Spellings(FeaturesFlag)| && j < |Spellings(FeaturesFlag)|
    ensures FeaturesIn(Given([Spellings(FeaturesFlag)[i], a] + ([Spellings(FeaturesFlag)[j], b] + rest))) ==
      SplitFeatures(a) + (SplitFeatures(b) + FeaturesIn(Given(rest)))
  {
    var later := [Spellings(FeaturesFlag)[j], b] + rest;
    GivenSet(FeaturesFlag, j, b, rest);
    GivenSet(FeaturesFlag, i, a, later);
    var x, y := Set(FeaturesFlag, a), Set(FeaturesFlag, b);
    assert ([y] + Given(rest))[1..] == Given(rest);
    assert ([x] + Given(later))[1..] == Given(later);
  }

  // ---------------------------------------------------------------- Features in order

  lemma FindInPrefix(a: seq<string>, last: string, f: string)
    ensures f in a ==> Find(a + [last], f) == Find(a, f) < |a|
    ensures f !in a && f == last ==> Find(a + [last], f) == |a|
  {
    var s := a + [last];
    if f in a {
      var i := Find(a, f);
      assert i < |a| by { assert a[..|a|] == a; }
      assert s[..i] == a[..i] && s[i] == f;
      FindAt(s, f, i);
    } else if f == last {
      assert s[..|a|] == a;
      FindAt(s, f, |a|);
    }
  }

  /** First mentions come in the order of their first mentioning. */
  lemma {:induction false} MentionsInOrder(features: seq<string>, i: nat, j: nat)
    requires i < j < |FirstMentions(features)|
    ensures Find(features, FirstMentions(features)[i]) < Find(features, FirstMentions(features)[j])
    decreases |features|
  {
    var init, last := features[..|features| - 1], features[|features| - 1];
    var kept := FirstMentions(init);
    assert features == init + [last];
    MentionsFrom(init);
    FindInPrefix(init, last, FirstMentions(features)[i]);
    FindInPrefix(init, last, FirstMentions(features)[j]);
    if j < |kept| {
      MentionsInOrder(init, i, j);
    }
  }

  // ---- What one value splits into

  lemma {:induction false} TrimmedConcat(a: seq<string>, b: seq<string>)
    ensures Trimmed(a + b) == Trimmed(a) + Trimmed(b)
  {
    if a == [] {
      assert a + b == b;
    } else {
      assert (a + b)[1..] == a[1..] + b;
      TrimmedConcat(a[1..], b);
    }
  }

  /** Commas and spaces separate features, wherever they stand. */
  lemma SplitAtSeparator(a: string, c: char, b: string)
    requires c == ',' || c == ' '
    ensures SplitFeatures(a + [c] + b) == SplitFeatures(a) + SplitFeatures(b)
  {
    assert Commas(a + [c] + b) == Commas(a) + [COMMA] + Commas(b);
    SplitConcat(Commas(a), COMMA, Commas(b));
    TrimmedConcat(Split(Commas(a), COMMA), Split(Commas(b), COMMA));
  }

  predicate AllWhite(s: string) { forall i :: 0 <= i < |s| ==> White(s[i]) }

  lemma {:induction false} TrimsLeft(u: string, t: string)
    requires AllWhite(u) && (t == "" || !White(t[0]))
    ensures TrimLeft(u + t) == t
  {
    if u == "" {
      assert u + t == t;
    } else {
      assert (u + t)[0] == u[0] && (u + t)[1..] == u[1..] + t;
      TrimsLeft(u[1..], t);
    }
  }

  lemma {:induction false} TrimsRight(t: string, w: string)
    requires AllWhite(w) && (t == "" || !White(t[|t| - 1]))
    ensures TrimRight(t + w) == t
    decreases |w|
  {
    if w == "" {
      assert t + w == t;
    } else {
      var n := |w| - 1;
      assert (t + w)[|t + w| - 1] == w[n] && (t + w)[..|t + w| - 1] == t + w[..n];
      TrimsRight(t, w[..n]);
    }
  }

  /** Without a separator there is one feature, without the white space around it, or none. */
  lemma SplitOne(u: string, t: string, w: string)
    requires AllWhite(u) && AllWhite(w) && COMMA !in u + t + w && ' ' !in u + t + w
    requires t == "" || (!White(t[0]) && !White(t[|t| - 1]))
    ensures SplitFeatures(u + t + w) == if t == "" then [] else [t]
  {
    var s := u + t + w;
    assert Commas(s) == s;
    FindNone(s, COMMA);
    assert Split(s, COMMA) == [s] && [s][1..] == [];
    if t == "" {
      assert s == (u + w) + "";
      TrimsLeft(u + w, "");
    } else {
      assert s == u + (t + w);
      TrimsLeft(u, t + w);
      TrimsRight(t, w);
    }
    assert Trimmed([s]) == (if TrimRight(TrimLeft(s)) == "" then [] else [TrimRight(TrimLeft(s))]) + Trimmed([s][1..]);
  }
}
