/** Quoting a shell word and splitting a command line, as section 2.2 of the Shell Command
    Language in POSIX.1-2017 has it. */
module ShellWords {
  import opened Options
  import opened Pieces

  predicate Alphanumeric(c: char) { 'a' <= c <= 'z' || 'A' <= c <= 'Z' || '0' <= c <= '9' }

  /** Characters `shell_quote` leaves alone. */
  predicate Plain(c: char) { Alphanumeric(c) || c in "-_./:=@,+" }

  predicate AllPlain(s: string) { s != "" && forall i :: 0 <= i < |s| ==> Plain(s[i]) }

  const QUOTE: char := '\''

  /** What separates words. */
  predicate Blank(c: char) { c == ' ' || c == '\t' }

  /** Operators, expansions, double quotes and patterns: what a shell takes as something else than
      itself, or may, depending on the files around. */
  predicate Special(c: char) { c in "|&;<>()$`\"\n*?[" }

  /** Every other character means itself, but for quotes and backslashes. */
  predicate Literal(c: char) { !Blank(c) && !Special(c) && c != QUOTE && c != '\\' }

  /** A comment or a home directory where a word starts, themselves inside one. */
  predicate Leading(c: char) { c == '#' || c == '~' }

  /** A word a shell takes as it is. */
  predicate AllLiteral(s: string) {
    s != "" && !Leading(s[0]) && forall i :: 0 <= i < |s| ==> Literal(s[i])
  }

  lemma PlainCharIsLiteral(c: char)
    requires Plain(c)
    ensures Literal(c) && !Leading(c)
  {
  }

  lemma PlainIsLiteral(s: string)
    requires AllPlain(s)
    ensures AllLiteral(s)
  {
    forall i | 0 <= i < |s|
      ensures Literal(s[i]) && !Leading(s[i])
    {
      PlainCharIsLiteral(s[i]);
    }
  }

  /** Each `'` closed, escaped and opened again. */
  function Escaped(s: string): string {
    if s == "" then "" else (if s[0] == QUOTE then "'\\''" else [s[0]]) + Escaped(s[1..])
  }

  /** `shell_quote`: `s` as one shell word. */
  function Quoted(s: string): string { if AllPlain(s) then s else [QUOTE] + Escaped(s) + [QUOTE] }

  function Begun(word: Option<string>): string { if word.Some? then word.value else "" }

  /** The words of a command line, `word` being the one begun. A special character outside quotes
      is refused, and so is a comment or a home directory. */
  function Words(s: string, word: Option<string>): Option<seq<string>>
    decreases |s|
  {
    if s == "" then Some(if word.Some? then [word.value] else [])
    else if Blank(s[0]) then
      match Words(s[1..], None)
      case None => None
      case Some(rest) => Some((if word.Some? then [word.value] else []) + rest)
    else if s[0] == QUOTE then
      var n := Find(s[1..], QUOTE);
      if n == |s| - 1 then None else Words(s[n + 2..], Some(Begun(word) + s[1..n + 1]))
    else if s[0] == '\\' then
      if |s| == 1 then None
      else if s[1] == '\n' then Words(s[2..], word)
      else Words(s[2..], Some(Begun(word) + [s[1]]))
    else if Special(s[0]) || (word.None? && Leading(s[0])) then None
    else Words(s[1..], Some(Begun(word) + [s[0]]))
  }

  lemma LiteralStep(c: char, rest: string, word: Option<string>)
    requires Literal(c) && (word.None? ==> !Leading(c))
    ensures Words([c] + rest, word) == Words(rest, Some(Begun(word) + [c]))
  {
    var t := [c] + rest;
    assert t[0] == c && t[1..] == rest;
  }

  lemma FirstThenRest(b: string, s: string)
    requires s != ""
    ensures b + [s[0]] + s[1..] == b + s
  {
  }

  lemma {:induction false} LiteralReads(s: string, rest: string, word: Option<string>)
    requires s != "" && (word.None? ==> !Leading(s[0])) && forall i :: 0 <= i < |s| ==> Literal(s[i])
    ensures Words(s + rest, word) == Words(rest, Some(Begun(word) + s))
    decreases |s|
  {
    assert Literal(s[0]);
    assert s + rest == [s[0]] + (s[1..] + rest);
    LiteralStep(s[0], s[1..] + rest, word);
    var next := Some(Begun(word) + [s[0]]);
    if |s| == 1 {
      assert s == [s[0]] && s[1..] + rest == rest;
    } else {
      LiteralReads(s[1..], rest, next);
      FirstThenRest(Begun(word), s);
    }
  }

  /** A quoted stretch without quotes inside. */
  lemma StretchReads(a: string, rest: string, word: Option<string>)
    requires QUOTE !in a
    ensures Words([QUOTE] + a + [QUOTE] + rest, word) == Words(rest, Some(Begun(word) + a))
  {
    var t := [QUOTE] + a + [QUOTE] + rest;
    assert t[1..] == a + [QUOTE] + rest;
    assert t[1..][..|a|] == a;
    FindAt(t[1..], QUOTE, |a|);
    assert t[1..|a| + 1] == a && t[|a| + 2..] == rest;
  }

  lemma {:induction false} EscapedPlain(a: string)
    requires QUOTE !in a
    ensures Escaped(a) == a
  {
    if a != "" {
      EscapedPlain(a[1..]);
      assert a == [a[0]] + a[1..];
    }
  }

  lemma {:induction false} EscapedConcat(a: string, b: string)
    ensures Escaped(a + b) == Escaped(a) + Escaped(b)
  {
    if a == "" {
      assert a + b == b;
    } else {
      assert (a + b)[0] == a[0] && (a + b)[1..] == a[1..] + b;
      EscapedConcat(a[1..], b);
    }
  }

  lemma EscapedCut(a: string, b: string)
    requires QUOTE !in a
    ensures Escaped(a + [QUOTE] + b) == a + "'\\''" + Escaped(b)
  {
    EscapedConcat(a + [QUOTE], b);
    EscapedConcat(a, [QUOTE]);
    EscapedPlain(a);
    assert Escaped([QUOTE]) == "'\\''" + Escaped("");
  }

  lemma BackslashReads(rest: string, word: Option<string>)
    ensures Words("\\'" + rest, word) == Words(rest, Some(Begun(word) + [QUOTE]))
  {
    var t := "\\'" + rest;
    assert t[0] == '\\' && t[1] == QUOTE && t[2..] == rest;
  }

  /** A stretch, then a quote, then the rest of the word. */
  lemma PieceReads(a: string, tail: string, word: Option<string>)
    requires QUOTE !in a
    ensures Words([QUOTE] + a + [QUOTE] + ("\\'" + tail), word) == Words(tail, Some(Begun(word) + a + [QUOTE]))
  {
    StretchReads(a, "\\'" + tail, word);
    BackslashReads(tail, Some(Begun(word) + a));
  }

  lemma Regroup(a: string, e: string, rest: string)
    ensures [QUOTE] + (a + "'\\''" + e) + [QUOTE] + rest ==
      [QUOTE] + a + [QUOTE] + ("\\'" + ([QUOTE] + e + [QUOTE] + rest))
  {
    assert "'\\''" == [QUOTE] + "\\'" + [QUOTE];
  }

  lemma EscapedText(a: string, b: string, rest: string)
    requires QUOTE !in a
    ensures [QUOTE] + Escaped(a + [QUOTE] + b) + [QUOTE] + rest ==
            [QUOTE] + a + [QUOTE] + ("\\'" + ([QUOTE] + Escaped(b) + [QUOTE] + rest))
  {
    EscapedCut(a, b);
    Regroup(a, Escaped(b), rest);
  }

  lemma CutReads(a: string, b: string, rest: string, word: Option<string>)
    requires QUOTE !in a
    ensures Words([QUOTE] + Escaped(a + [QUOTE] + b) + [QUOTE] + rest, word) ==
            Words([QUOTE] + Escaped(b) + [QUOTE] + rest, Some(Begun(word) + a + [QUOTE]))
  {
    EscapedText(a, b, rest);
    PieceReads(a, [QUOTE] + Escaped(b) + [QUOTE] + rest, word);
  }

  lemma WholeReads(s: string, rest: string, word: Option<string>)
    requires QUOTE !in s
    ensures Words([QUOTE] + Escaped(s) + [QUOTE] + rest, word) == Words(rest, Some(Begun(word) + s))
  {
    EscapedPlain(s);
    StretchReads(s, rest, word);
  }

  lemma CutWord(s: string, n: nat, b: string)
    requires n < |s| && s[n] == QUOTE
    ensures s[..n] + [QUOTE] + s[n + 1..] == s && b + s[..n] + [QUOTE] + s[n + 1..] == b + s
  {
  }

  lemma {:induction false} EscapedReads(s: string, rest: string, word: Option<string>)
    ensures Words([QUOTE] + Escaped(s) + [QUOTE] + rest, word) == Words(rest, Some(Begun(word) + s))
    decreases |s|
  {
    var n := Find(s, QUOTE);
    if n == |s| {
      assert s[..n] == s;
      WholeReads(s, rest, word);
    } else {
      var a, b := s[..n], s[n + 1..];
      var begun := Some(Begun(word) + a + [QUOTE]);
      EscapedReads(b, rest, begun);
      CutReads(a, b, rest, word);
      CutWord(s, n, Begun(word));
    }
  }

  /** However it is quoted, a word is read back as itself. */
  lemma QuotedReads(s: string, rest: string, word: Option<string>)
    ensures Words(Quoted(s) + rest, word) == Words(rest, Some(Begun(word) + s))
  {
    if AllPlain(s) {
      PlainIsLiteral(s);
      LiteralReads(s, rest, word);
    } else {
      EscapedReads(s, rest, word);
    }
  }

  /** Words, each quoted, with a space between. */
  function LineWith(quote: string -> string, words: seq<string>): string {
    if words == [] then ""
    else if |words| == 1 then quote(words[0])
    else quote(words[0]) + " " + LineWith(quote, words[1..])
  }

  function Line(words: seq<string>): string { LineWith(Quoted, words) }

  /** A line of quoted words splits into exactly those words. */
  lemma {:induction false} LineReads(words: seq<string>)
    ensures Words(Line(words), None) == Some(words)
  {
    if words != [] {
      var w := words[0];
      assert Begun(None) + w == w;
      if |words| == 1 {
        QuotedReads(w, "", None);
        assert Quoted(w) + "" == Quoted(w);
        assert words == [w];
      } else {
        var rest := " " + Line(words[1..]);
        assert Line(words) == Quoted(w) + rest;
        QuotedReads(w, rest, None);
        assert rest[0] == ' ' && rest[1..] == Line(words[1..]);
        LineReads(words[1..]);
        assert words == [w] + words[1..];
      }
    }
  }

  /** The text `t` is read as the word `w`, whatever comes after it. */
  ghost predicate ReadsAs(t: string, w: string) { forall rest :: Words(t + rest, None) == Words(rest, Some(w)) }

  lemma LiteralReadsAs(w: string)
    requires AllLiteral(w)
    ensures ReadsAs(w, w)
  {
    forall rest
      ensures Words(w + rest, None) == Words(rest, Some(w))
    {
      LiteralReads(w, rest, None);
      assert Begun(None) + w == w;
    }
  }

  lemma QuotedReadsAs(w: string)
    ensures ReadsAs(Quoted(w), w)
  {
    forall rest
      ensures Words(Quoted(w) + rest, None) == Words(rest, Some(w))
    {
      QuotedReads(w, rest, None);
      assert Begun(None) + w == w;
    }
  }

  function Same(t: string): string { t }

  /** One text, a space, and the rest of the line. */
  lemma TextThenRest(t: string, w: string, rest: string, words: seq<string>)
    requires ReadsAs(t, w) && Words(rest, None) == Some(words)
    ensures Words(t + " " + rest, None) == Some([w] + words)
  {
    var s := " " + rest;
    assert t + " " + rest == t + s;
    assert Words(t + s, None) == Words(s, Some(w));
    assert s[0] == ' ' && s[1..] == rest;
  }

  lemma TextAlone(t: string, w: string)
    requires ReadsAs(t, w)
    ensures Words(t, None) == Some([w])
  {
    assert Words(t + "", None) == Words("", Some(w)) && t + "" == t;
  }

  /** Texts as they are, with a space between, are read as the words each of them is read as. */
  lemma {:induction false} TextsRead(texts: seq<string>, words: seq<string>)
    requires |texts| == |words| && forall i :: 0 <= i < |texts| ==> ReadsAs(texts[i], words[i])
    ensures Words(LineWith(Same, texts), None) == Some(words)
  {
    if |texts| == 1 {
      TextAlone(texts[0], words[0]);
      assert words == [words[0]];
    } else if texts != [] {
      TextsRead(texts[1..], words[1..]);
      TextThenRest(texts[0], words[0], LineWith(Same, texts[1..]), words[1..]);
      assert words == [words[0]] + words[1..];
    }
  }

  /** Two words are quoted alike only if they are the same. */
  lemma QuotedInjective(s: string, t: string)
    requires Quoted(s) == Quoted(t)
    ensures s == t
  {
    QuotedReads(s, "", None);
    QuotedReads(t, "", None);
    assert Quoted(s) + "" == Quoted(t) + "";
    assert Begun(None) + s == s && Begun(None) + t == t;
    assert Words("", Some(s)) == Some([s]) && Words("", Some(t)) == Some([t]);
    assert [s][0] == [t][0];
  }
}
