/** The command line the wizard prints for a choice, and when a shell reads it back. */
module NewPrinted {
  import opened Options
  import opened Pieces
  import opened ShellWords
  import opened ShellSizes
  import opened NewCommand

  // ---------------------------------------------------------------- The text

  function TemplateText(a: NewArgs): string { " --template " + TemplateName(a.template) }

  function BackendText(a: NewArgs): string { " --backend " + BackendName(a.backend) }

  function FeaturesText(a: NewArgs): string {
    if a.features == [] then "" else " --features " + Join(a.features, COMMA)
  }

  function PathText(a: NewArgs): string {
    if a.path.None? then "" else " --rustango-path " + Quoted(a.path.value)
  }

  function AliasText(a: NewArgs): string { if a.dep == Rustango then "" else " --alias " + DepIdent(a.dep) }

  /** What is printed: only the path is quoted. */
  function Printed(a: NewArgs): string {
    "cargo rustango new " + a.name + TemplateText(a) + BackendText(a) + FeaturesText(a) + PathText(a) + AliasText(a)
  }

  // ---------------------------------------------------------------- As a line of words

  lemma Regrouped(a: string, b: string, c: string)
    ensures a + " " + (b + " " + c) == a + " " + b + " " + c
  {
  }

  lemma {:induction false} LineMore(quote: string -> string, words: seq<string>, w: string)
    requires words != []
    ensures LineWith(quote, words + [w]) == LineWith(quote, words) + " " + quote(w)
  {
    if |words| == 1 {
      assert (words + [w])[0] == words[0] && (words + [w])[1..] == [w];
      assert LineWith(quote, [w]) == quote(w);
    } else {
      assert (words + [w])[0] == words[0] && (words + [w])[1..] == words[1..] + [w];
      LineMore(quote, words[1..], w);
      Regrouped(quote(words[0]), LineWith(quote, words[1..]), quote(w));
    }
  }

  predicate PairOrNone(pair: seq<string>) { pair == [] || |pair| == 2 }

  /** What a flag and its value add to the line. */
  function Pushed(quote: string -> string, pair: seq<string>): string
    requires PairOrNone(pair)
  {
    if pair == [] then "" else " " + quote(pair[0]) + " " + quote(pair[1])
  }

  lemma LinePushed(quote: string -> string, words: seq<string>, pair: seq<string>)
    requires words != [] && PairOrNone(pair)
    ensures LineWith(quote, words + pair) == LineWith(quote, words) + Pushed(quote, pair)
  {
    if pair == [] {
      assert words + pair == words;
    } else {
      LineMore(quote, words, pair[0]);
      LineMore(quote, words + [pair[0]], pair[1]);
      assert words + [pair[0]] + [pair[1]] == words + pair;
      var line, x, y := LineWith(quote, words), quote(pair[0]), quote(pair[1]);
      assert line + " " + x + " " + y == line + (" " + x + " " + y);
    }
  }

  lemma NestFive(u: seq<string>, v: seq<string>, w: seq<string>, x: seq<string>, y: seq<string>, z: seq<string>)
    ensures u + (v + (w + (x + (y + z)))) == u + v + w + x + y + z
  {
  }

  lemma LineFive(quote: string -> string, u: seq<string>, v: seq<string>, w: seq<string>, x: seq<string>,
                 y: seq<string>, z: seq<string>)
    requires u != [] && PairOrNone(v) && PairOrNone(w) && PairOrNone(x) && PairOrNone(y) && PairOrNone(z)
    ensures LineWith(quote, u + (v + (w + (x + (y + z))))) ==
      LineWith(quote, u) + Pushed(quote, v) + Pushed(quote, w) + Pushed(quote, x) + Pushed(quote, y) + Pushed(quote, z)
  {
    NestFive(u, v, w, x, y, z);
    var two := u + v;
    var three := two + w;
    var four := three + x;
    var five := four + y;
    LinePushed(quote, u, v);
    LinePushed(quote, two, w);
    LinePushed(quote, three, x);
    LinePushed(quote, four, y);
    LinePushed(quote, five, z);
  }

  lemma FourWords(quote: string -> string, a: string, b: string, c: string, d: string)
    requires quote(a) == a && quote(b) == b && quote(c) == c && quote(d) == d
    ensures LineWith(quote, [a, b, c, d]) == a + " " + b + " " + c + " " + d
  {
    LineMore(quote, [a], b);
    LineMore(quote, [a, b], c);
    LineMore(quote, [a, b, c], d);
    assert [a] + [b] == [a, b] && [a, b] + [c] == [a, b, c] && [a, b, c] + [d] == [a, b, c, d];
  }

  lemma HeadLine(name: string)
    ensures "cargo rustango new " + name == LineWith(Same, ["cargo", "rustango", "new", name])
  {
    FourWords(Same, "cargo", "rustango", "new", name);
    assert "cargo" + " " + "rustango" + " " + "new" + " " == "cargo rustango new ";
  }

  /** The words as they are printed: only the path is quoted. */
  function PathTexts(a: NewArgs): seq<string> {
    if a.path.None? then [] else ["--rustango-path", Quoted(a.path.value)]
  }

  function CommandTexts(a: NewArgs): seq<string> {
    ["cargo", "rustango", "new", a.name] +
    (TemplateWords(a) + (BackendWords(a) + (FeatureWords(a) + (PathTexts(a) + AliasWords(a)))))
  }

  lemma PairText(flag: string, v: string, text: string)
    requires text == " " + flag + " "
    ensures text + v == Pushed(Same, [flag, v])
  {
  }

  lemma TemplatePushed(a: NewArgs)
    ensures TemplateText(a) == Pushed(Same, TemplateWords(a))
  {
    assert " --template " == " " + "--template" + " ";
    PairText("--template", TemplateName(a.template), " --template ");
  }

  lemma BackendPushed(a: NewArgs)
    ensures BackendText(a) == Pushed(Same, BackendWords(a))
  {
    assert " --backend " == " " + "--backend" + " ";
    PairText("--backend", BackendName(a.backend), " --backend ");
  }

  lemma FeaturesPushed(a: NewArgs)
    ensures FeaturesText(a) == Pushed(Same, FeatureWords(a))
  {
    if a.features != [] {
      assert " --features " == " " + "--features" + " ";
      PairText("--features", Join(a.features, COMMA), " --features ");
    }
  }

  lemma PathPushed(a: NewArgs)
    ensures PathText(a) == Pushed(Same, PathTexts(a))
  {
    if a.path.Some? {
      assert " --rustango-path " == " " + "--rustango-path" + " ";
      PairText("--rustango-path", Quoted(a.path.value), " --rustango-path ");
    }
  }

  lemma AliasPushed(a: NewArgs)
    ensures AliasText(a) == Pushed(Same, AliasWords(a))
  {
    if a.dep != Rustango {
      assert " --alias " == " " + "--alias" + " ";
      PairText("--alias", DepIdent(a.dep), " --alias ");
    }
  }

  /** The printed text is its texts with a space between. */
  lemma PrintedIsLine(a: NewArgs)
    ensures Printed(a) == LineWith(Same, CommandTexts(a))
  {
    HeadLine(a.name);
    TemplatePushed(a);
    BackendPushed(a);
    FeaturesPushed(a);
    PathPushed(a);
    AliasPushed(a);
    LineFive(Same, ["cargo", "rustango", "new", a.name],
             TemplateWords(a), BackendWords(a), FeatureWords(a), PathTexts(a), AliasWords(a));
  }

  /** Nothing in the name or the features that a shell would not take as it is. */
  predicate LiteralChoice(a: NewArgs) {
    AllLiteral(a.name) && (a.features != [] ==> AllLiteral(Join(a.features, COMMA)))
  }

  lemma OwnWordsLiteral()
    ensures AllLiteral("cargo") && AllLiteral("rustango") && AllLiteral("new") && AllLiteral("--features")
    ensures AllLiteral("--rustango-path") && AllLiteral("--alias") && AllLiteral("rgo")
  {
    assert AllPlain("cargo") && AllPlain("rustango") && AllPlain("new") && AllPlain("--features");
    assert AllPlain("--rustango-path") && AllPlain("--alias") && AllPlain("rgo");
    PlainIsLiteral("cargo");
    PlainIsLiteral("rustango");
    PlainIsLiteral("new");
    PlainIsLiteral("--features");
    PlainIsLiteral("--rustango-path");
    PlainIsLiteral("--alias");
    PlainIsLiteral("rgo");
  }

  lemma TemplateLiteral(t: Template)
    ensures AllLiteral(TemplateName(t)) && AllLiteral("--template")
  {
    assert AllPlain(TemplateName(t)) && AllPlain("--template");
    PlainIsLiteral(TemplateName(t));
    PlainIsLiteral("--template");
  }

  lemma BackendLiteral(b: Backend)
    ensures AllLiteral(BackendName(b)) && AllLiteral("--backend")
  {
    assert AllPlain(BackendName(b)) && AllPlain("--backend");
    PlainIsLiteral(BackendName(b));
    PlainIsLiteral("--backend");
  }

  /** Text by text, each is read as its word. */
  ghost predicate AllReadAs(texts: seq<string>, words: seq<string>) {
    |texts| == |words| && forall i :: 0 <= i < |texts| ==> ReadsAs(texts[i], words[i])
  }

  lemma AllReadAsConcat(t: seq<string>, w: seq<string>, u: seq<string>, x: seq<string>)
    requires AllReadAs(t, w) && AllReadAs(u, x)
    ensures AllReadAs(t + u, w + x)
  {
  }

  lemma PairReadsAs(flag: string, v: string, text: string)
    requires AllLiteral(flag) && ReadsAs(text, v)
    ensures AllReadAs([flag, text], [flag, v])
  {
    LiteralReadsAs(flag);
  }

  lemma HeadReadsAs(name: string)
    requires AllLiteral(name)
    ensures AllReadAs(["cargo", "rustango", "new", name], ["cargo", "rustango", "new", name])
  {
    OwnWordsLiteral();
    LiteralReadsAs("cargo");
    LiteralReadsAs("rustango");
    LiteralReadsAs("new");
    LiteralReadsAs(name);
  }

  lemma FlagsReadAs(a: NewArgs)
    requires LiteralChoice(a)
    ensures AllReadAs(TemplateWords(a), TemplateWords(a)) && AllReadAs(BackendWords(a), BackendWords(a))
    ensures AllReadAs(FeatureWords(a), FeatureWords(a)) && AllReadAs(PathTexts(a), PathWords(a))
    ensures AllReadAs(AliasWords(a), AliasWords(a))
  {
    OwnWordsLiteral();
    TemplateLiteral(a.template);
    LiteralReadsAs(TemplateName(a.template));
    PairReadsAs("--template", TemplateName(a.template), TemplateName(a.template));
    BackendLiteral(a.backend);
    LiteralReadsAs(BackendName(a.backend));
    PairReadsAs("--backend", BackendName(a.backend), BackendName(a.backend));
    if a.features != [] {
      var j := Join(a.features, COMMA);
      LiteralReadsAs(j);
      PairReadsAs("--features", j, j);
    }
    if a.path.Some? {
      QuotedReadsAs(a.path.value);
      PairReadsAs("--rustango-path", a.path.value, Quoted(a.path.value));
    }
    if a.dep != Rustango {
      LiteralReadsAs("rgo");
      PairReadsAs("--alias", "rgo", "rgo");
    }
  }

  lemma HeadFirst(a: string, b: string, c: string, d: string, rest: seq<string>)
    ensures [a, b, c] + ([d] + rest) == [a, b, c, d] + rest
  {
  }

  lemma CommandReadsAs(a: NewArgs)
    requires LiteralChoice(a)
    ensures AllReadAs(CommandTexts(a), CommandWords(a))
  {
    var v, w, x, y, z := TemplateWords(a), BackendWords(a), FeatureWords(a), PathTexts(a), AliasWords(a);
    var head := ["cargo", "rustango", "new", a.name];
    HeadReadsAs(a.name);
    FlagsReadAs(a);
    AllReadAsConcat(y, PathWords(a), z, z);
    AllReadAsConcat(x, x, y + z, PathWords(a) + z);
    AllReadAsConcat(w, w, x + (y + z), x + (PathWords(a) + z));
    AllReadAsConcat(v, v, w + (x + (y + z)), w + (x + (PathWords(a) + z)));
    AllReadAsConcat(head, head, v + (w + (x + (y + z))), v + (w + (x + (PathWords(a) + z))));
    HeadFirst("cargo", "rustango", "new", a.name, v + (w + (x + (PathWords(a) + z))));
  }

  // ---------------------------------------------------------------- How much of it is words

  lemma PairSize(flag: string, v: string)
    ensures Size([flag, v]) == |flag| + |v| + 2
  {
    assert [flag, v][1..] == [v] && [v][1..] == [];
    assert Size([v]) == |v| + 1 + Size([]);
  }

  /** Up to the path: the part of the line nothing quotes. */
  function Unquoted(a: NewArgs): string {
    "cargo rustango new " + a.name + TemplateText(a) + BackendText(a) + FeaturesText(a)
  }

  lemma HeadSize()
    ensures Size(["cargo", "rustango", "new"]) == 19 == |"cargo rustango new "|
  {
    assert |"cargo"| == 5 && |"rustango"| == 8 && |"new"| == 3;
    assert ["cargo", "rustango", "new"][1..] == ["rustango", "new"] && ["rustango", "new"][1..] == ["new"];
    assert ["new"][1..] == [];
  }

  lemma PairSizes(a: NewArgs)
    ensures Size(TemplateWords(a)) == |TemplateText(a)| && Size(BackendWords(a)) == |BackendText(a)|
    ensures Size(FeatureWords(a)) == |FeaturesText(a)| && Size(AliasWords(a)) == |AliasText(a)|
    ensures Size(PathWords(a)) == if a.path.None? then 0 else 17 + |a.path.value|
  {
    assert |" --template "| == |"--template"| + 2 && |" --backend "| == |"--backend"| + 2;
    PairSize("--template", TemplateName(a.template));
    PairSize("--backend", BackendName(a.backend));
    if a.features != [] {
      assert |" --features "| == |"--features"| + 2;
      PairSize("--features", Join(a.features, COMMA));
    }
    if a.path.Some? {
      assert |"--rustango-path"| == 15;
      PairSize("--rustango-path", a.path.value);
    }
    if a.dep != Rustango {
      assert |" --alias "| == |"--alias"| + 2;
      PairSize("--alias", "rgo");
    }
  }

  /** Quoting aside, the printed text is exactly its words. */
  lemma WordsSize(a: NewArgs)
    ensures Size(CommandWords(a)) ==
      |Unquoted(a)| + 1 + (if a.path.None? then 0 else 17 + |a.path.value|) + |AliasText(a)|
  {
    var v, w, x, y, z := TemplateWords(a), BackendWords(a), FeatureWords(a), PathWords(a), AliasWords(a);
    HeadSize();
    PairSizes(a);
    assert [a.name][1..] == [];
    assert Size([a.name]) == |a.name| + 1;
    SizeConcat(["cargo", "rustango", "new"], NewWords(a));
    SizeConcat([a.name], v + (w + (x + (y + z))));
    SizeConcat(v, w + (x + (y + z)));
    SizeConcat(w, x + (y + z));
    SizeConcat(x, y + z);
    SizeConcat(y, z);
  }

  function AfterFeatures(a: NewArgs): string { PathText(a) + AliasText(a) }

  lemma AliasHasNoQuote(a: NewArgs)
    ensures QUOTE !in AliasText(a)
  {
    assert QUOTE !in " --alias " && QUOTE !in "rgo";
  }

  lemma Regroup(h: string, n: string, t: string, b: string, f: string, p: string, l: string)
    ensures h + n + t + b + f + p + l == h + (n + (t + b + f + p + l))
    ensures h + n + t + b + f == h + n + (t + b + f)
    ensures h + n + t + b + f + p + l == h + n + t + b + f + (p + l)
    ensures t + b + f + p + l == t + b + f + (p + l)
  {
  }

  lemma RegroupPath(x: string, k: string, q: string, l: string)
    ensures x + ((k + q) + l) == (x + k) + (q + l)
  {
  }

  lemma PrintedRegrouped(a: NewArgs)
    ensures Printed(a) == "cargo rustango new " + (a.name + AfterName(a)) == Unquoted(a) + AfterFeatures(a)
    ensures Unquoted(a) == "cargo rustango new " + a.name + BeforePath(a)
    ensures AfterName(a) == BeforePath(a) + AfterFeatures(a)
  {
    Regroup("cargo rustango new ", a.name, TemplateText(a), BackendText(a), FeaturesText(a), PathText(a), AliasText(a));
  }

  function AfterName(a: NewArgs): string {
    TemplateText(a) + BackendText(a) + FeaturesText(a) + PathText(a) + AliasText(a)
  }

  function BeforePath(a: NewArgs): string { TemplateText(a) + BackendText(a) + FeaturesText(a) }

  lemma StartsWithSpace(a: NewArgs)
    ensures BeforePath(a) != "" && BeforePath(a)[0] == ' ' && AfterName(a) != "" && AfterName(a)[0] == ' '
    ensures AfterFeatures(a) != "" ==> AfterFeatures(a)[0] == ' '
  {
    assert TemplateText(a)[0] == ' ';
  }

  lemma CleanToTheEnd(a: NewArgs)
    requires Words(Printed(a), None) == Some(CommandWords(a)) && a.path.None?
    ensures Clean(Printed(a), None)
  {
    WordsSize(a);
    PrintedRegrouped(a);
    SizeBound(Printed(a), None);
  }

  lemma CleanToThePath(a: NewArgs)
    requires Words(Printed(a), None) == Some(CommandWords(a)) && a.path.Some?
    ensures Clean(Unquoted(a) + " --rustango-path ", None)
  {
    var s, t := Unquoted(a) + " --rustango-path ", Quoted(a.path.value) + AliasText(a);
    WordsSize(a);
    PrintedRegrouped(a);
    RegroupPath(Unquoted(a), " --rustango-path ", Quoted(a.path.value), AliasText(a));
    assert Printed(a) == s + t;
    assert |" --rustango-path "| == 17 && s[|s| - 1] == ' ';
    AliasHasNoQuote(a);
    BeforeQuoted(s, a.path.value, AliasText(a), None);
  }

  /** A line read as the words of its command spends nothing before the path. */
  lemma ReadIsClean(a: NewArgs) returns (s: string)
    requires Words(Printed(a), None) == Some(CommandWords(a))
    ensures Clean(s, None) && Unquoted(a) <= s
    ensures AfterFeatures(a) != "" ==> |s| > |Unquoted(a)| && s[|Unquoted(a)|] == ' '
  {
    StartsWithSpace(a);
    PrintedRegrouped(a);
    if a.path.None? {
      s := Printed(a);
      CleanToTheEnd(a);
    } else {
      s := Unquoted(a) + " --rustango-path ";
      CleanToThePath(a);
      assert " --rustango-path "[0] == ' ';
    }
  }

  // ---------------------------------------------------------------- Word by word

  lemma HeadText(rest: string)
    ensures "cargo rustango new " + rest == "cargo" + " " + ("rustango" + " " + ("new" + " " + rest))
  {
    assert "cargo rustango new " == "cargo" + " " + "rustango" + " " + "new" + " ";
  }

  /** Three words in front. */
  lemma ThreeWordsFirst(rest: string)
    ensures Words("cargo rustango new " + rest, None) ==
      (match Words(rest, None) case None => None case Some(ws) => Some(["cargo", "rustango", "new"] + ws))
  {
    OwnWordsLiteral();
    HeadText(rest);
    OneWordFirst("cargo", "rustango" + " " + ("new" + " " + rest));
    OneWordFirst("rustango", "new" + " " + rest);
    OneWordFirst("new", rest);
    if Words(rest, None).Some? {
      var ws := Words(rest, None).value;
      assert ["cargo"] + (["rustango"] + (["new"] + ws)) == ["cargo", "rustango", "new"] + ws;
    }
  }

  /** What stands in a clean text behind a space. */
  lemma CleanAfter(s: string, u: string, n: string)
    requires Clean(s, None) && u + n <= s && u != "" && u[|u| - 1] == ' '
    ensures forall i :: 0 <= i < |n| ==> Blank(n[i]) || Literal(n[i])
    ensures n != "" ==> !Blank(n[0]) && !Leading(n[0])
  {
    forall i | 0 <= i < |n|
      ensures Blank(n[i]) || Literal(n[i])
    {
      assert (u + n)[|u| + i] == n[i];
      CleanChars(s, None, |u| + i);
    }
    if n != "" {
      assert (u + n)[|u|] == n[0] && (u + n)[|u| - 1] == u[|u| - 1];
      CleanChars(s, None, |u|);
    }
  }

  /** A word that is read there is not empty. */
  lemma NotEmptyThere(s: string, u: string, n: string, rest: string)
    requires Clean(s, None) && u + n <= s && u != "" && u[|u| - 1] == ' '
    requires Words(n + rest, None).Some? && Words(n + rest, None).value != []
    requires rest != "" ==> |s| > |u + n| && s[|u + n|] == ' '
    ensures n != ""
  {
    if rest != "" {
      assert (u + n)[|u + n| - 1] == s[|u + n| - 1];
      CleanChars(s, None, |u + n|);
    } else {
      assert n + rest == n;
    }
  }

  lemma NameIsRead(a: NewArgs)
    requires Words(Printed(a), None) == Some(CommandWords(a))
    ensures Words(a.name + AfterName(a), None) == Some(NewWords(a)) && NewWords(a)[0] == a.name
  {
    PrintedRegrouped(a);
    ThreeWordsFirst(a.name + AfterName(a));
    var ws := Words(a.name + AfterName(a), None).value;
    SamePrefix(["cargo", "rustango", "new"], ws, ["cargo", "rustango", "new"], NewWords(a));
  }

  lemma Stands(x: string, y: string, s: string)
    requires x + y <= s && y != ""
    ensures x <= s && |s| > |x| && s[|x|] == y[0]
  {
    assert s[..|x|] == (x + y)[..|x|] == x;
    assert s[|x|] == (x + y)[|x|];
  }

  lemma NameStands(a: NewArgs, s: string)
    requires Unquoted(a) <= s
    ensures "cargo rustango new " + a.name <= s
    ensures |s| > |"cargo rustango new " + a.name| && s[|"cargo rustango new " + a.name|] == ' '
  {
    PrintedRegrouped(a);
    StartsWithSpace(a);
    Stands("cargo rustango new " + a.name, BeforePath(a), s);
  }

  lemma NameMustBeLiteral(a: NewArgs)
    requires Words(Printed(a), None) == Some(CommandWords(a))
    ensures AllLiteral(a.name)
  {
    var s := ReadIsClean(a);
    PrintedRegrouped(a);
    StartsWithSpace(a);
    var u := "cargo rustango new ";
    assert u[|u| - 1] == ' ';
    NameIsRead(a);
    NameStands(a, s);
    CleanAfter(s, u, a.name);
    NotEmptyThere(s, u, a.name, AfterName(a));
    FirstWordLiteral(a.name, AfterName(a));
  }

  lemma ThreeFirst(a: string, b: string, c: string, rest: string)
    requires AllLiteral(a) && AllLiteral(b) && AllLiteral(c)
    ensures Words(a + " " + (b + " " + (c + " " + rest)), None) ==
      (match Words(rest, None) case None => None case Some(ws) => Some([a, b, c] + ws))
  {
    OneWordFirst(c, rest);
    OneWordFirst(b, c + " " + rest);
    OneWordFirst(a, b + " " + (c + " " + rest));
    if Words(rest, None).Some? {
      var ws := Words(rest, None).value;
      assert [a] + ([b] + ([c] + ws)) == [a, b, c] + ws;
    }
  }

  lemma SixFirst(a: string, b: string, c: string, d: string, e: string, f: string, rest: string)
    requires AllLiteral(a) && AllLiteral(b) && AllLiteral(c) && AllLiteral(d) && AllLiteral(e) && AllLiteral(f)
    ensures Words(a + " " + (b + " " + (c + " " + (d + " " + (e + " " + (f + " " + rest))))), None) ==
      (match Words(rest, None) case None => None case Some(ws) => Some([a, b, c] + ([d, e, f] + ws)))
  {
    ThreeFirst(d, e, f, rest);
    ThreeFirst(a, b, c, d + " " + (e + " " + (f + " " + rest)));
  }

  lemma FlagSpaces()
    ensures " --template " == " " + "--template" + " " && " --backend " == " " + "--backend" + " "
    ensures " --features " == " " + "--features" + " "
  {
  }

  lemma Nested(n: string, t: string, tv: string, b: string, bv: string, f: string, j: string, z: string)
    ensures n + ((" " + t + " " + tv) + (" " + b + " " + bv) + (" " + f + " " + j) + z) ==
            n + " " + (t + " " + (tv + " " + (b + " " + (bv + " " + (f + " " + (j + z))))))
  {
  }

  lemma AfterNameNested(a: NewArgs)
    requires a.features != []
    ensures var t, b, j := TemplateName(a.template), BackendName(a.backend), Join(a.features, COMMA);
      a.name + AfterName(a) ==
      a.name + " " + ("--template" + " " + (t + " " + ("--backend" + " " + (b + " " +
        ("--features" + " " + (j + AfterFeatures(a)))))))
  {
    FlagSpaces();
    PrintedRegrouped(a);
    Nested(a.name, "--template", TemplateName(a.template), "--backend", BackendName(a.backend), "--features",
           Join(a.features, COMMA), AfterFeatures(a));
  }

  lemma SeventhWord(a: NewArgs)
    requires a.features != []
    ensures |NewWords(a)| > 6 && NewWords(a)[6] == Join(a.features, COMMA)
  {
    assert FeatureWords(a)[1] == Join(a.features, COMMA);
  }

  lemma FeaturesAreRead(a: NewArgs)
    requires Words(Printed(a), None) == Some(CommandWords(a)) && a.features != [] && AllLiteral(a.name)
    ensures var ws := Words(Join(a.features, COMMA) + AfterFeatures(a), None);
      ws.Some? && ws.value != [] && ws.value[0] == Join(a.features, COMMA)
  {
    var j := Join(a.features, COMMA);
    NameIsRead(a);
    AfterNameNested(a);
    TemplateLiteral(a.template);
    BackendLiteral(a.backend);
    OwnWordsLiteral();
    SixFirst(a.name, "--template", TemplateName(a.template), "--backend", BackendName(a.backend), "--features",
             j + AfterFeatures(a));
    SeventhWord(a);
  }

  lemma EndRegrouped(x: string, k: string, j: string)
    ensures (x + k) + j == x + (k + j)
  {
  }

  /** Where the features stand. */
  lemma UnquotedEnds(a: NewArgs) returns (u: string)
    requires a.features != []
    ensures u != "" && u[|u| - 1] == ' ' && u + Join(a.features, COMMA) == Unquoted(a)
  {
    var x, k := "cargo rustango new " + a.name + TemplateText(a) + BackendText(a), " --features ";
    u := x + k;
    assert k != "" && k[|k| - 1] == ' ';
    EndRegrouped(x, k, Join(a.features, COMMA));
  }

  lemma FeaturesMustBeLiteral(a: NewArgs)
    requires Words(Printed(a), None) == Some(CommandWords(a)) && a.features != []
    ensures AllLiteral(Join(a.features, COMMA))
  {
    var j := Join(a.features, COMMA);
    NameMustBeLiteral(a);
    FeaturesAreRead(a);
    var s := ReadIsClean(a);
    var u := UnquotedEnds(a);
    CleanAfter(s, u, j);
    NotEmptyThere(s, u, j, AfterFeatures(a));
    FirstWordLiteral(j, AfterFeatures(a));
  }

  /** A shell reads the printed line as the words of the command exactly when name and features
      hold nothing it would not take as it is; the path may be anything. */
  lemma PrintedReadsIff(a: NewArgs)
    ensures Words(Printed(a), None) == Some(CommandWords(a)) <==> LiteralChoice(a)
  {
    if LiteralChoice(a) {
      PrintedIsLine(a);
      CommandReadsAs(a);
      TextsRead(CommandTexts(a), CommandWords(a));
    }
    if Words(Printed(a), None) == Some(CommandWords(a)) {
      NameMustBeLiteral(a);
      if a.features != [] {
        FeaturesMustBeLiteral(a);
      }
    }
  }

  lemma AllowedAreLiteral(a: NewArgs)
    requires AllowedFeatures(a.features, a.template)
    ensures FeatureTexts(a.features) && (a.features != [] ==> AllLiteral(Join(a.features, COMMA)))
  {
    AllWords(a);
    forall i | 0 <= i < |a.features|
      ensures FeatureText(a.features[i])
    {
      WordIsText(a.features[i]);
    }
    if a.features != [] {
      JoinedPlain(a.features);
      PlainIsLiteral(Join(a.features, COMMA));
    }
  }

  /** The printed line is read as the command's words, and those mean the choice again. */
  predicate GivesBack(a: NewArgs) {
    Words(Printed(a), None) == Some(CommandWords(a)) && CommandWords(a)[3..] == NewWords(a) && Reparsed(a) == Ok(a)
  }

  /** For every choice the flags can express, the printed line gives it back exactly when a shell takes
      the name as it is, the template has the features, and no feature repeats. */
  lemma PrintedParsesBack(a: NewArgs)
    requires Expressible(a)
    ensures GivesBack(a) <==> AllLiteral(a.name) && AllowedFeatures(a.features, a.template) && NoRepeats(a.features)
  {
    PrintedReadsIff(a);
    ReparsedIff(a);
    if AllowedFeatures(a.features, a.template) {
      AllowedAreLiteral(a);
    }
  }

  lemma NameLiteral(name: string)
    requires NameLike(name)
    ensures AllLiteral(name) && Named(name)
  {
    PlainIsLiteral(name);
  }

  /** Whatever command line is accepted for a well-formed name, the command printed for it means
      the same choice. */
  lemma AcceptedPrintsBack(args: seq<string>)
    requires Parsed(args, false).Ok? && NameLike(Resolve(Parsed(args, false).value).name)
    ensures GivesBack(Resolve(Parsed(args, false).value))
  {
    var a := Resolve(Parsed(args, false).value);
    ParsedIsAllowed(args);
    AllowedAreLiteral(a);
    NameLiteral(a.name);
    PrintedParsesBack(a);
  }

  method PushFeatures(cmd: string, a: NewArgs) returns (out: string)
    ensures out == cmd + FeaturesText(a)
  {
    out := cmd;
    if a.features != [] {
      out := out + (" --features " + Join(a.features, COMMA));
    }
  }

  method PushPath(cmd: string, a: NewArgs) returns (out: string)
    ensures out == cmd + PathText(a)
  {
    out := cmd;
    if a.path.Some? {
      out := out + (" --rustango-path " + Quoted(a.path.value));
    }
  }

  method PushAlias(cmd: string, a: NewArgs) returns (out: string)
    ensures out == cmd + AliasText(a)
  {
    out := cmd;
    if a.dep != Rustango {
      out := out + (" --alias " + DepIdent(a.dep));
    }
  }

  /** `equivalent_command`: a shell reads it as the words of the command exactly when it takes
      name and features as they are. */
  method EquivalentCommand(a: NewArgs) returns (cmd: string)
    ensures cmd == Printed(a)
    ensures Words(cmd, None) == Some(CommandWords(a)) <==> LiteralChoice(a)
  {
    cmd := "cargo rustango new " + a.name + TemplateText(a) + BackendText(a);
    cmd := PushFeatures(cmd, a);
    cmd := PushPath(cmd, a);
    cmd := PushAlias(cmd, a);
    PrintedReadsIff(a);
  }
}
