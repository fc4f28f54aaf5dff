/** `cargo rustango new`: its flags, and the command line the wizard prints for a choice. */
module NewCommand {
  import opened Options
  import opened Pieces
  import opened ShellWords

  datatype Template = Api | Fullstack | Tenant

  datatype Backend = Postgres | Sqlite | Mysql

  datatype DepName = Rustango | Rgo

  function TemplateName(t: Template): string {
    match t case Api => "api" case Fullstack => "fullstack" case Tenant => "tenant"
  }

  function BackendName(b: Backend): string {
    match b case Postgres => "postgres" case Sqlite => "sqlite" case Mysql => "mysql"
  }

  function DepIdent(d: DepName): string { match d case Rustango => "rustango" case Rgo => "rgo" }

  function ParseTemplate(s: string): Option<Template> {
    if s == "api" then Some(Api) else if s == "fullstack" then Some(Fullstack)
    else if s == "tenant" then Some(Tenant) else None
  }

  function ParseBackend(s: string): Option<Backend> {
    if s in ["postgres", "postgresql", "pg"] then Some(Postgres)
    else if s in ["sqlite", "sqlite3"] then Some(Sqlite)
    else if s in ["mysql", "mariadb"] then Some(Mysql)
    else None
  }

  function ParseDep(s: string): Option<DepName> {
    if s == "rustango" then Some(Rustango) else if s == "rgo" then Some(Rgo) else None
  }

  const DEFAULT_TEMPLATE := Fullstack
  const DEFAULT_BACKEND := Postgres

  // ---------------------------------------------------------------- Features

  const OPTIONAL_FEATURES := [
    "csrf", "sso", "admin-sso", "passkey", "cache-redis", "cache-page", "jobs", "jobs-postgres",
    "scheduler", "email-smtp", "mcp", "http2", "testkit", "test_utils"]

  const BACKEND_FEATURES := ["postgres", "sqlite", "mysql"]

  const TENANT_ONLY := ["mcp"]

  function BaseFeatures(t: Template): seq<string> {
    match t
    case Api => ["manage"]
    case Fullstack => ["batteries"]
    case Tenant => ["batteries", "tenancy"]
  }

  predicate Offers(t: Template, f: string) { t.Tenant? || f !in TENANT_ONLY }

  predicate AllowedFeature(f: string, t: Template) {
    && f !in BACKEND_FEATURES
    && (f in BaseFeatures(t) || (f != "tenancy" && Offers(t, f) && f in OPTIONAL_FEATURES))
  }

  predicate AllowedFeatures(features: seq<string>, t: Template) {
    forall i :: 0 <= i < |features| ==> AllowedFeature(features[i], t)
  }

  /** Unicode white space. */
  predicate White(c: char) {
    var n := c as int;
    || 9 <= n <= 13 || n == 32 || n == 133 || n == 160 || n == 5760 || 8192 <= n <= 8202
    || n == 8232 || n == 8233 || n == 8239 || n == 8287 || n == 12288
  }

  function TrimLeft(s: string): string { if s != "" && White(s[0]) then TrimLeft(s[1..]) else s }

  function TrimRight(s: string): string
    decreases |s|
  {
    if s != "" && White(s[|s| - 1]) then TrimRight(s[..|s| - 1]) else s
  }

  function Trimmed(pieces: seq<string>): seq<string> {
    if pieces == [] then []
    else
      var t := TrimRight(TrimLeft(pieces[0]));
      (if t == "" then [] else [t]) + Trimmed(pieces[1..])
  }

  const COMMA: char := ','

  function Commas(s: string): string { seq(|s|, i requires 0 <= i < |s| => if s[i] == ' ' then COMMA else s[i]) }

  /** `split_features`: at commas and spaces, trimmed, empty ones dropped. */
  function SplitFeatures(raw: string): seq<string> { Trimmed(Split(Commas(raw), COMMA)) }

  /** Each feature where it is first named. */
  function FirstMentions(features: seq<string>): seq<string>
    decreases |features|
  {
    if features == [] then []
    else
      var init, last := features[..|features| - 1], features[|features| - 1];
      FirstMentions(init) + (if last in init then [] else [last])
  }

  // ---------------------------------------------------------------- Flags

  datatype NewFlags = NewFlags(
    name: Option<string>, template: Option<Template>, backend: Option<Backend>,
    features: seq<string>, path: Option<string>, dep: DepName)

  datatype NewArgs = NewArgs(
    name: string, template: Template, backend: Backend, features: seq<string>, path: Option<string>, dep: DepName)

  datatype Flag = BackendFlag | FeaturesFlag | TemplateFlag | PathFlag | AliasFlag

  datatype Error =
    | MissingValue(flag: Flag) | BadValue(flag: Flag) | UnknownFlag | ExtraPositional
    | MissingName | BadFeature | HelpShown

  datatype Result<+T> = Ok(value: T) | Err(error: Error)

  /** What an argument is: a flag whose value follows, one that brings it, or none. */
  datatype Kind = Takes(flag: Flag) | Brings(flag: Flag, value: string) | Asks | Help | Unknown | Positional

  predicate Starts(arg: string, prefix: string) { prefix <= arg }

  function Classify(arg: string): Kind {
    if arg == "--backend" || arg == "-b" then Takes(BackendFlag)
    else if Starts(arg, "--backend=") then Brings(BackendFlag, arg[10..])
    else if Starts(arg, "-b=") then Brings(BackendFlag, arg[3..])
    else if arg == "--features" || arg == "-F" then Takes(FeaturesFlag)
    else if Starts(arg, "--features=") then Brings(FeaturesFlag, arg[11..])
    else if Starts(arg, "-F=") then Brings(FeaturesFlag, arg[3..])
    else if arg == "--template" || arg == "-t" then Takes(TemplateFlag)
    else if Starts(arg, "--template=") then Brings(TemplateFlag, arg[11..])
    else if Starts(arg, "-t=") then Brings(TemplateFlag, arg[3..])
    else if arg == "--rustango-path" then Takes(PathFlag)
    else if Starts(arg, "--rustango-path=") then Brings(PathFlag, arg[16..])
    else if arg == "--alias" then Takes(AliasFlag)
    else if Starts(arg, "--alias=") then Brings(AliasFlag, arg[8..])
    else if arg == "--interactive" || arg == "-i" then Asks
    else if arg == "--help" || arg == "-h" then Help
    else if Starts(arg, "-") then Unknown
    else Positional
  }

  /** A flag takes its value; `--features` adds, the others replace. */
  function Assign(f: NewFlags, flag: Flag, v: string): Result<NewFlags> {
    match flag
    case BackendFlag => if ParseBackend(v).Some? then Ok(f.(backend := ParseBackend(v))) else Err(BadValue(flag))
    case TemplateFlag => if ParseTemplate(v).Some? then Ok(f.(template := ParseTemplate(v))) else Err(BadValue(flag))
    case AliasFlag => if ParseDep(v).Some? then Ok(f.(dep := ParseDep(v).value)) else Err(BadValue(flag))
    case FeaturesFlag => Ok(f.(features := f.features + SplitFeatures(v)))
    case PathFlag => Ok(f.(path := Some(v)))
  }

  function Parse(args: seq<string>, f: NewFlags): Result<NewFlags>
    decreases |args|
  {
    if args == [] then Ok(f)
    else
      match Classify(args[0])
      case Takes(flag) =>
        if |args| < 2 then Err(MissingValue(flag))
        else (match Assign(f, flag, args[1]) case Err(e) => Err(e) case Ok(g) => Parse(args[2..], g))
      case Brings(flag, v) => (match Assign(f, flag, v) case Err(e) => Err(e) case Ok(g) => Parse(args[1..], g))
      case Asks => Parse(args[1..], f)
      case Help => Err(HelpShown)
      case Unknown => Err(UnknownFlag)
      case Positional => if f.name.Some? then Err(ExtraPositional) else Parse(args[1..], f.(name := Some(args[0])))
  }

  function NoFlags(): NewFlags { NewFlags(None, None, None, [], None, Rustango) }

  /** After the arguments: the name, repeated features, the template tenancy asks for. */
  function Finish(f: NewFlags, interactive: bool): Result<NewFlags> {
    if f.name.None? && !interactive then Err(MissingName)
    else
      var features := FirstMentions(f.features);
      var template := if f.template.None? && "tenancy" in features then Some(Tenant) else f.template;
      if (template.Some? || !interactive) &&
        !AllowedFeatures(features, if template.Some? then template.value else DEFAULT_TEMPLATE) then Err(BadFeature)
      else Ok(f.(name := Some(if f.name.Some? then f.name.value else ""), features := features, template := template))
  }

  function Parsed(args: seq<string>, interactive: bool): Result<NewFlags> {
    match Parse(args, NoFlags())
    case Err(e) => Err(e)
    case Ok(f) => Finish(f, interactive)
  }

  /** `resolve`: absent flags take their defaults. */
  function Resolve(f: NewFlags): NewArgs {
    NewArgs(if f.name.Some? then f.name.value else "", if f.template.Some? then f.template.value else DEFAULT_TEMPLATE,
            if f.backend.Some? then f.backend.value else DEFAULT_BACKEND, f.features, f.path, f.dep)
  }

  // ---------------------------------------------------------------- The parsing loop

  method RetainFirst(features: seq<string>) returns (kept: seq<string>)
    ensures kept == FirstMentions(features)
  {
    kept := [];
    var seen: seq<string> := [];
    var i := 0;
    while i < |features|
      invariant i <= |features| && seen == features[..i] && kept == FirstMentions(features[..i])
    {
      assert features[..i + 1][..i] == features[..i];
      if features[i] !in seen {
        kept := kept + [features[i]];
      }
      seen := seen + [features[i]];
      i := i + 1;
    }
    assert features[..i] == features;
  }

  method ParseArgs(args: seq<string>) returns (r: Result<NewFlags>)
    ensures r == Parse(args, NoFlags())
  {
    var f := NoFlags();
    var i := 0;
    assert args[0..] == args;
    while i < |args|
      invariant i <= |args| && Parse(args, NoFlags()) == Parse(args[i..], f)
    {
      var arg := args[i];
      ghost var rest := args[i..];
      assert rest[0] == arg && rest[1..] == args[i + 1..];
      i := i + 1;
      var kind := Classify(arg);
      match kind {
        case Takes(flag) =>
          if i == |args| {
            return Err(MissingValue(flag));
          }
          assert rest[1] == args[i] && rest[2..] == args[i + 1..];
          var next := Assign(f, flag, args[i]);
          if next.Err? {
            return next;
          }
          f, i := next.value, i + 1;
        case Brings(flag, v) =>
          var next := Assign(f, flag, v);
          if next.Err? {
            return next;
          }
          f := next.value;
        case Asks =>
        case Help => return Err(HelpShown);
        case Unknown => return Err(UnknownFlag);
        case Positional =>
          if f.name.Some? {
            return Err(ExtraPositional);
          }
          f := f.(name := Some(arg));
      }
    }
    r := Ok(f);
  }

  /** `parse_new_flags`. */
  method ParseNewFlags(args: seq<string>, interactive: bool) returns (r: Result<NewFlags>)
    ensures r == Parsed(args, interactive)
  {
    r := ParseArgs(args);
    if r.Err? {
      return;
    }
    var f := r.value;
    if f.name.None? && !interactive {
      return Err(MissingName);
    }
    var features := RetainFirst(f.features);
    var template := f.template;
    if template.None? && "tenancy" in features {
      template := Some(Tenant);
    }
    if template.Some? || !interactive {
      if !AllowedFeatures(features, if template.Some? then template.value else DEFAULT_TEMPLATE) {
        return Err(BadFeature);
      }
    }
    r := Ok(f.(name := Some(if f.name.Some? then f.name.value else ""), features := features, template := template));
  }

  // ---------------------------------------------------------------- The printed command

  predicate NamePart(c: char) { Alphanumeric(c) || c == '_' || c == '-' }

  /** A crate name as far as its letters go: `[A-Za-z_][A-Za-z0-9_-]*`. */
  predicate NameLike(name: string) {
    && name != "" && !('0' <= name[0] <= '9') && name[0] != '-'
    && forall i :: 0 <= i < |name| ==> NamePart(name[i])
  }

  /** The words of the command. */
  function CommandWords(a: NewArgs): seq<string> {
    ["cargo", "rustango", "new"] + NewWords(a)
  }

  function TemplateWords(a: NewArgs): seq<string> { ["--template", TemplateName(a.template)] }

  function BackendWords(a: NewArgs): seq<string> { ["--backend", BackendName(a.backend)] }

  function FeatureWords(a: NewArgs): seq<string> {
    if a.features == [] then [] else ["--features", Join(a.features, COMMA)]
  }

  function PathWords(a: NewArgs): seq<string> {
    if a.path.None? then [] else ["--rustango-path", a.path.value]
  }

  function AliasWords(a: NewArgs): seq<string> {
    if a.dep == Rustango then [] else ["--alias", DepIdent(a.dep)]
  }

  function NewWords(a: NewArgs): seq<string> {
    [a.name] + (TemplateWords(a) + (BackendWords(a) + (FeatureWords(a) + (PathWords(a) + AliasWords(a)))))
  }

  // ---- Feature names are words

  predicate WordChar(c: char) { 'a' <= c <= 'z' || '0' <= c <= '9' || c == '-' || c == '_' }

  predicate WordLike(s: string) { s != "" && forall i :: 0 <= i < |s| ==> WordChar(s[i]) }

  lemma SomeWords()
    ensures WordLike("csrf") && WordLike("sso") && WordLike("admin-sso") && WordLike("passkey")
    ensures WordLike("cache-redis") && WordLike("cache-page") && WordLike("jobs")
  {
  }

  lemma MoreWords()
    ensures WordLike("jobs-postgres") && WordLike("scheduler") && WordLike("email-smtp") && WordLike("mcp")
    ensures WordLike("http2") && WordLike("testkit") && WordLike("test_utils")
  {
  }

  lemma OptionalWord(f: string)
    requires f in OPTIONAL_FEATURES
    ensures WordLike(f)
  {
    SomeWords();
    MoreWords();
  }

  lemma AllowedIsWord(f: string, t: Template)
    requires AllowedFeature(f, t)
    ensures WordLike(f)
  {
    if f in OPTIONAL_FEATURES {
      OptionalWord(f);
    }
    assert WordLike("manage") && WordLike("batteries") && WordLike("tenancy");
  }

  lemma WordTrims(s: string)
    requires WordLike(s)
    ensures TrimRight(TrimLeft(s)) == s
  {
    assert WordChar(s[0]) && WordChar(s[|s| - 1]);
  }

  /** A feature as `--features` can bring it: no separator in it, nothing to trim. */
  predicate FeatureText(f: string) {
    f != "" && COMMA !in f && ' ' !in f && TrimRight(TrimLeft(f)) == f
  }

  predicate FeatureTexts(features: seq<string>) { forall i :: 0 <= i < |features| ==> FeatureText(features[i]) }

  lemma WordIsText(f: string)
    requires WordLike(f)
    ensures FeatureText(f)
  {
    WordTrims(f);
    assert forall k :: 0 <= k < |f| ==> WordChar(f[k]);
  }

  lemma {:induction false} TextsTrim(words: seq<string>)
    requires FeatureTexts(words)
    ensures Trimmed(words) == words
  {
    if words != [] {
      TextsTrim(words[1..]);
      assert words == [words[0]] + words[1..];
    }
  }

  lemma {:induction false} JoinedSpaces(words: seq<string>)
    requires FeatureTexts(words)
    ensures ' ' !in Join(words, COMMA)
  {
    if words != [] {
      JoinedSpaces(words[1..]);
    }
  }

  /** Features written as one value are read back as they were. */
  lemma FeaturesReadBack(words: seq<string>)
    requires words != [] && FeatureTexts(words)
    ensures SplitFeatures(Join(words, COMMA)) == words
  {
    var j := Join(words, COMMA);
    JoinedSpaces(words);
    assert Commas(j) == j;
    SplitOfJoin(words, COMMA);
    TextsTrim(words);
  }

  lemma {:induction false} JoinedPlain(words: seq<string>)
    requires words != [] && forall i :: 0 <= i < |words| ==> WordLike(words[i])
    ensures AllPlain(Join(words, COMMA))
  {
    assert forall k :: 0 <= k < |words[0]| ==> WordChar(words[0][k]);
    if |words| > 1 {
      JoinedPlain(words[1..]);
    }
  }

  // ---- What each word of the command parses as

  lemma TemplateFlagWord()
    ensures Classify("--template") == Takes(TemplateFlag)
  {
    var w := "--template";
    assert w[2] == 't' && w[1] == '-' && |w| == 10;
    assert "--backend="[2] == 'b' && "--features="[2] == 'f' && "-b="[1] == 'b' && "-F="[1] == 'F';
    assert |"-b"| == 2 && |"-F"| == 2 && "--backend"[2] == 'b' && "--features"[2] == 'f';
  }

  lemma BackendFlagWord()
    ensures Classify("--backend") == Takes(BackendFlag)
  {
  }

  lemma FeaturesFlagWord()
    ensures Classify("--features") == Takes(FeaturesFlag)
  {
    var w := "--features";
    assert w[2] == 'f' && w[1] == '-' && |w| == 10;
    assert "--backend="[2] == 'b' && "-b="[1] == 'b' && |"-b"| == 2 && "--backend"[2] == 'b';
  }

  lemma PathFlagWord()
    ensures Classify("--rustango-path") == Takes(PathFlag)
  {
    var w := "--rustango-path";
    assert w[2] == 'r' && w[1] == '-' && |w| == 15;
    assert "--backend="[2] == 'b' && "--features="[2] == 'f' && "--template="[2] == 't';
    assert "-b="[1] == 'b' && "-F="[1] == 'F' && "-t="[1] == 't';
    assert |"-b"| == 2 && |"-F"| == 2 && |"-t"| == 2;
    assert "--backend"[2] == 'b' && "--features"[2] == 'f' && "--template"[2] == 't';
  }

  lemma AliasFlagWord()
    ensures Classify("--alias") == Takes(AliasFlag)
  {
    var w := "--alias";
    assert w[2] == 'a' && w[1] == '-' && |w| == 7;
    assert "--backend="[2] == 'b' && "--features="[2] == 'f' && "--template="[2] == 't' && "--rustango-path="[2] == 'r';
    assert "-b="[1] == 'b' && "-F="[1] == 'F' && "-t="[1] == 't';
    assert |"-b"| == 2 && |"-F"| == 2 && |"-t"| == 2;
    assert "--backend"[2] == 'b' && "--features"[2] == 'f' && "--template"[2] == 't' && "--rustango-path"[2] == 'r';
  }

  /** A name as the parser takes it. */
  predicate Named(name: string) { name == "" || name[0] != '-' }

  lemma NameIsPositional(name: string)
    requires Named(name)
    ensures Classify(name) == Positional
  {
    assert name != "" ==> name[0] != '-';
  }

  lemma TemplateParses(t: Template)
    ensures ParseTemplate(TemplateName(t)) == Some(t)
  {
    assert |"api"| == 3 && |"fullstack"| == 9 && |"tenant"| == 6;
  }

  lemma BackendParses(b: Backend)
    ensures ParseBackend(BackendName(b)) == Some(b)
  {
    assert |"sqlite"| == 6 && |"mysql"| == 5 && |"postgres"| == 8;
  }

  lemma DepParses(d: DepName)
    ensures ParseDep(DepIdent(d)) == Some(d)
  {
    assert |"rustango"| == 8 && |"rgo"| == 3;
  }

  /** The words are nothing, or a flag and a value that takes `f` to `g`. */
  predicate Steps(words: seq<string>, f: NewFlags, g: NewFlags) {
    || (words == [] && f == g)
    || (|words| == 2 && Classify(words[0]).Takes? && Assign(f, Classify(words[0]).flag, words[1]) == Ok(g))
  }

  lemma ParseSteps(words: seq<string>, rest: seq<string>, f: NewFlags, g: NewFlags)
    requires Steps(words, f, g)
    ensures Parse(words + rest, f) == Parse(rest, g)
  {
    var args := words + rest;
    if words == [] {
      assert args == rest;
    } else {
      assert args[0] == words[0] && args[1] == words[1] && args[2..] == rest;
    }
  }

  lemma TemplateSteps(a: NewArgs, f: NewFlags)
    ensures Steps(TemplateWords(a), f, f.(template := Some(a.template)))
  {
    TemplateFlagWord();
    TemplateParses(a.template);
  }

  lemma BackendSteps(a: NewArgs, f: NewFlags)
    ensures Steps(BackendWords(a), f, f.(backend := Some(a.backend)))
  {
    BackendFlagWord();
    BackendParses(a.backend);
  }

  lemma AllWords(a: NewArgs)
    requires AllowedFeatures(a.features, a.template)
    ensures forall i :: 0 <= i < |a.features| ==> WordLike(a.features[i])
  {
    forall i | 0 <= i < |a.features|
      ensures WordLike(a.features[i])
    {
      AllowedIsWord(a.features[i], a.template);
    }
  }

  lemma FeatureSteps(a: NewArgs, f: NewFlags)
    requires FeatureTexts(a.features) && f.features == []
    ensures Steps(FeatureWords(a), f, f.(features := a.features))
  {
    if a.features != [] {
      FeaturesFlagWord();
      FeaturesReadBack(a.features);
      assert [] + a.features == a.features;
    }
  }

  lemma PathSteps(a: NewArgs, f: NewFlags)
    requires f.path == None
    ensures Steps(PathWords(a), f, f.(path := a.path))
  {
    PathFlagWord();
  }

  lemma AliasSteps(a: NewArgs, f: NewFlags)
    requires f.dep == Rustango
    ensures Steps(AliasWords(a), f, f.(dep := a.dep))
  {
    AliasFlagWord();
    DepParses(a.dep);
  }

  lemma ParseFive(v: seq<string>, w: seq<string>, x: seq<string>, y: seq<string>, z: seq<string>,
                  f: NewFlags, g: NewFlags, h: NewFlags, k: NewFlags, l: NewFlags, m: NewFlags)
    requires Steps(v, f, g) && Steps(w, g, h) && Steps(x, h, k) && Steps(y, k, l) && Steps(z, l, m)
    ensures Parse(v + (w + (x + (y + z))), f) == Ok(m)
  {
    ParseSteps(v, w + (x + (y + z)), f, g);
    ParseSteps(w, x + (y + z), g, h);
    ParseSteps(x, y + z, h, k);
    ParseSteps(y, z, k, l);
    ParseSteps(z, [], l, m);
    assert z + [] == z;
  }

  lemma ParseNamed(name: string, rest: seq<string>, f: NewFlags)
    requires Classify(name) == Positional && f.name == None
    ensures Parse([name] + rest, f) == Parse(rest, f.(name := Some(name)))
  {
    assert ([name] + rest)[0] == name && ([name] + rest)[1..] == rest;
  }

  /** A choice the flags can express. */
  predicate Expressible(a: NewArgs) { Named(a.name) && FeatureTexts(a.features) }

  lemma ParseWords(a: NewArgs)
    requires Expressible(a)
    ensures Parse(NewWords(a), NoFlags()) ==
            Ok(NewFlags(Some(a.name), Some(a.template), Some(a.backend), a.features, a.path, a.dep))
  {
    NameIsPositional(a.name);
    var f1 := NoFlags().(name := Some(a.name));
    var f2 := f1.(template := Some(a.template));
    var f3 := f2.(backend := Some(a.backend));
    var f4 := f3.(features := a.features);
    var f5 := f4.(path := a.path);
    var f6 := f5.(dep := a.dep);
    TemplateSteps(a, f1);
    BackendSteps(a, f2);
    FeatureSteps(a, f3);
    PathSteps(a, f4);
    AliasSteps(a, f5);
    ParseFive(TemplateWords(a), BackendWords(a), FeatureWords(a), PathWords(a), AliasWords(a), f1, f2, f3, f4, f5, f6);
    ParseNamed(a.name, TemplateWords(a) + (BackendWords(a) + (FeatureWords(a) + (PathWords(a) + AliasWords(a)))),
               NoFlags());
  }

  // ---- Repeated features

  predicate NoRepeats(features: seq<string>) {
    forall i, j :: 0 <= i < j < |features| ==> features[i] != features[j]
  }

  lemma {:induction false} MentionsFrom(features: seq<string>)
    ensures |FirstMentions(features)| <= |features|
    ensures forall i :: 0 <= i < |FirstMentions(features)| ==> FirstMentions(features)[i] in features
    decreases |features|
  {
    if features != [] {
      MentionsFrom(features[..|features| - 1]);
    }
  }

  lemma {:induction false} MentionsIff(features: seq<string>)
    ensures FirstMentions(features) == features <==> NoRepeats(features)
    decreases |features|
  {
    if features != [] {
      var n := |features| - 1;
      var init, last := features[..n], features[n];
      MentionsIff(init);
      MentionsFrom(init);
      assert features == init + [last];
      if last in init {
        var k :| 0 <= k < |init| && init[k] == last;
        assert features[k] == features[n];
        assert |FirstMentions(features)| <= n;
      } else {
        if FirstMentions(features) == features {
          SamePrefix(FirstMentions(init), [last], init, [last]);
        }
      }
    }
  }

  /** What parsing the words of the command gives. */
  function Reparsed(a: NewArgs): Result<NewArgs> {
    match Parsed(NewWords(a), false)
    case Err(e) => Err(e)
    case Ok(f) => Ok(Resolve(f))
  }

  lemma {:induction false} MentionsKeep(features: seq<string>, f: string)
    ensures f in FirstMentions(features) <==> f in features
    decreases |features|
  {
    if features != [] {
      var init, last := features[..|features| - 1], features[|features| - 1];
      MentionsKeep(init, f);
      assert features == init + [last];
    }
  }

  lemma MentionsAllowed(features: seq<string>, t: Template)
    ensures AllowedFeatures(FirstMentions(features), t) <==> AllowedFeatures(features, t)
  {
    forall i | 0 <= i < |features|
      ensures features[i] in FirstMentions(features)
    {
      MentionsKeep(features, features[i]);
    }
    MentionsFrom(features);
  }

  /** The words of a choice parse back to it with each feature named once, if its template has
      all of them, and are refused otherwise. */
  lemma ReparsedIs(a: NewArgs)
    requires Expressible(a)
    ensures Reparsed(a) ==
      if AllowedFeatures(a.features, a.template) then Ok(a.(features := FirstMentions(a.features))) else Err(BadFeature)
  {
    ParseWords(a);
    MentionsAllowed(a.features, a.template);
  }

  /** So they give back the choice exactly when its template has its features and none repeats. */
  lemma ReparsedIff(a: NewArgs)
    requires Expressible(a)
    ensures Reparsed(a) == Ok(a) <==> AllowedFeatures(a.features, a.template) && NoRepeats(a.features)
  {
    ReparsedIs(a);
    MentionsIff(a.features);
  }

  // ---- Every spelling of a flag

  /** The long name, the short one if it has one. */
  function Spellings(flag: Flag): seq<string> {
    match flag
    case BackendFlag => ["--backend", "-b"]
    case FeaturesFlag => ["--features", "-F"]
    case TemplateFlag => ["--template", "-t"]
    case PathFlag => ["--rustango-path"]
    case AliasFlag => ["--alias"]
  }

  lemma LongTakes(flag: Flag)
    ensures Classify(Spellings(flag)[0]) == Takes(flag)
  {
    match flag
    case BackendFlag => BackendFlagWord();
    case FeaturesFlag => FeaturesFlagWord();
    case TemplateFlag => TemplateFlagWord();
    case PathFlag => PathFlagWord();
    case AliasFlag => AliasFlagWord();
  }

  lemma ShortTakes()
    ensures Classify("-b") == Takes(BackendFlag) && Classify("-F") == Takes(FeaturesFlag)
    ensures Classify("-t") == Takes(TemplateFlag)
  {
    assert "-b"[1] == 'b' && "-F"[1] == 'F' && "-t"[1] == 't';
    assert |"-b"| == 2 && |"-F"| == 2 && |"-t"| == 2;
  }

  lemma ShortBrings(v: string)
    ensures Classify("-b=" + v) == Brings(BackendFlag, v) && Classify("-F=" + v) == Brings(FeaturesFlag, v)
    ensures Classify("-t=" + v) == Brings(TemplateFlag, v)
  {
    var b, f, t := "-b=" + v, "-F=" + v, "-t=" + v;
    assert b[1] == 'b' && f[1] == 'F' && t[1] == 't' && b[2] == '=' && f[2] == '=' && t[2] == '=';
    assert b[3..] == v && f[3..] == v && t[3..] == v;
    assert |"-b"| == 2 && |"-F"| == 2 && |"-t"| == 2;
    assert "--backend="[1] == '-' && "--features="[1] == '-' && "--template="[1] == '-';
    assert "--backend"[1] == '-' && "--features"[1] == '-' && "--template"[1] == '-';
  }

  lemma BackendBrings(v: string)
    ensures Classify("--backend=" + v) == Brings(BackendFlag, v)
  {
    var w := "--backend=" + v;
    assert |w| >= 10 && w[9] == '=' && w[10..] == v && "--backend=" <= w;
  }

  lemma FeaturesBrings(v: string)
    ensures Classify("--features=" + v) == Brings(FeaturesFlag, v)
  {
    var w := "--features=" + v;
    assert |w| >= 11 && w[1] == '-' && w[2] == 'f' && w[10] == '=' && w[11..] == v && "--features=" <= w;
    assert "--backend="[2] == 'b' && "-b="[1] == 'b' && |"-b"| == 2 && "--backend"[2] == 'b' && |"--features"| == 10;
    assert |"-F"| == 2;
  }

  lemma TemplateBrings(v: string)
    ensures Classify("--template=" + v) == Brings(TemplateFlag, v)
  {
    var w := "--template=" + v;
    assert |w| >= 11 && w[1] == '-' && w[2] == 't' && w[10] == '=' && w[11..] == v && "--template=" <= w;
    assert "--backend="[2] == 'b' && "-b="[1] == 'b' && |"-b"| == 2 && "--backend"[2] == 'b';
    assert "--features="[2] == 'f' && "-F="[1] == 'F' && |"-F"| == 2 && "--features"[2] == 'f';
    assert |"--template"| == 10 && |"-t"| == 2;
  }

  lemma PathBrings(v: string)
    ensures Classify("--rustango-path=" + v) == Brings(PathFlag, v)
  {
    var w := "--rustango-path=" + v;
    assert |w| >= 16 && w[1] == '-' && w[2] == 'r' && w[16..] == v && "--rustango-path=" <= w;
    assert "--backend="[2] == 'b' && "-b="[1] == 'b' && |"-b"| == 2 && "--backend"[2] == 'b';
    assert "--features="[2] == 'f' && "-F="[1] == 'F' && |"-F"| == 2 && "--features"[2] == 'f';
    assert "--template="[2] == 't' && "-t="[1] == 't' && |"-t"| == 2 && "--template"[2] == 't';
    assert |"--rustango-path"| == 15;
  }

  lemma AliasBrings(v: string)
    ensures Classify("--alias=" + v) == Brings(AliasFlag, v)
  {
    var w := "--alias=" + v;
    assert |w| >= 8 && w[1] == '-' && w[2] == 'a' && w[8..] == v && "--alias=" <= w;
    assert "--backend="[2] == 'b' && "-b="[1] == 'b' && |"-b"| == 2 && "--backend"[2] == 'b';
    assert "--features="[2] == 'f' && "-F="[1] == 'F' && |"-F"| == 2 && "--features"[2] == 'f';
    assert "--template="[2] == 't' && "-t="[1] == 't' && |"-t"| == 2 && "--template"[2] == 't';
    assert "--rustango-path="[2] == 'r' && "--rustango-path"[2] == 'r' && |"--alias"| == 7;
  }

  lemma SpellingKinds(flag: Flag, k: nat, v: string)
    requires k < |Spellings(flag)|
    ensures Classify(Spellings(flag)[k]) == Takes(flag) && Classify(Spellings(flag)[k] + "=" + v) == Brings(flag, v)
  {
    if k == 0 {
      LongTakes(flag);
      assert "--backend" + "=" == "--backend=" && "--features" + "=" == "--features=";
      assert "--template" + "=" == "--template=";
      assert "--rustango-path" + "=" == "--rustango-path=" && "--alias" + "=" == "--alias=";
      match flag
      case BackendFlag => BackendBrings(v);
      case FeaturesFlag => FeaturesBrings(v);
      case TemplateFlag => TemplateBrings(v);
      case PathFlag => PathBrings(v);
      case AliasFlag => AliasBrings(v);
    } else {
      assert "-b" + "=" == "-b=" && "-F" + "=" == "-F=" && "-t" + "=" == "-t=";
      ShortTakes();
      ShortBrings(v);
    }
  }

  lemma KindsParseAlike(one: string, two: string, flag: Flag, v: string, rest: seq<string>, f: NewFlags)
    requires Classify(one) == Takes(flag) && Classify(two) == Brings(flag, v)
    ensures Parse([one, v] + rest, f) == Parse([two] + rest, f)
  {
    assert ([one, v] + rest)[0] == one && ([one, v] + rest)[1] == v && ([one, v] + rest)[2..] == rest;
    assert ([two] + rest)[0] == two && ([two] + rest)[1..] == rest;
  }

  /** A value may follow its flag or be joined to it by `=`, under any of the flag's names. */
  lemma SpellingsAgree(flag: Flag, i: nat, j: nat, v: string, rest: seq<string>, f: NewFlags)
    requires i < |Spellings(flag)| && j < |Spellings(flag)|
    ensures Parse([Spellings(flag)[i], v] + rest, f) == Parse([Spellings(flag)[j] + "=" + v] + rest, f)
  {
    SpellingKinds(flag, i, v);
    SpellingKinds(flag, j, v);
    KindsParseAlike(Spellings(flag)[i], Spellings(flag)[j] + "=" + v, flag, v, rest, f);
  }

  lemma OnlyTenantHasTenancy(t: Template)
    requires AllowedFeature("tenancy", t)
    ensures t == Tenant
  {
    assert |"manage"| == 6 && |"batteries"| == 9 && |"tenancy"| == 7;
  }

  lemma {:induction false} MentionsDistinct(features: seq<string>)
    ensures NoRepeats(FirstMentions(features))
    decreases |features|
  {
    if features != [] {
      var init, last := features[..|features| - 1], features[|features| - 1];
      MentionsDistinct(init);
      MentionsFrom(init);
    }
  }

  /** An accepted command line names each feature once, only features its template has, and the
      tenant template if it names tenancy. */
  lemma ParsedIsAllowed(args: seq<string>)
    requires Parsed(args, false).Ok?
    ensures var a := Resolve(Parsed(args, false).value);
      && Parsed(args, false).value.name.Some? && NoRepeats(a.features) && AllowedFeatures(a.features, a.template)
      && ("tenancy" in a.features ==> a.template == Tenant)
  {
    var f := Parse(args, NoFlags()).value;
    MentionsDistinct(f.features);
    var a := Resolve(Parsed(args, false).value);
    if "tenancy" in a.features {
      var i :| 0 <= i < |a.features| && a.features[i] == "tenancy";
      assert AllowedFeature(a.features[i], a.template);
      OnlyTenantHasTenancy(a.template);
    }
  }
}
