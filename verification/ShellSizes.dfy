/** How much text a command line spends on its words: quoting costs, and a line that spends
    nothing on it has only words a shell takes as they are. */
module ShellSizes {
  import opened Options
  import opened Pieces
  import opened ShellWords

  /** The words and one separator each. */
  function Size(words: seq<string>): nat { if words == [] then 0 else |words[0]| + 1 + Size(words[1..]) }

  lemma {:induction false} SizeConcat(a: seq<string>, b: seq<string>)
    ensures Size(a + b) == Size(a) + Size(b)
  {
    if a == [] {
      assert a + b == b;
    } else {
      assert (a + b)[1..] == a[1..] + b;
      SizeConcat(a[1..], b);
    }
  }

  /** Literal words with one blank between them. */
  predicate Clean(s: string, word: Option<string>)
    decreases |s|
  {
    || s == ""
    || (Blank(s[0]) && word.Some? && Clean(s[1..], None))
    || (Literal(s[0]) && (word.None? ==> !Leading(s[0])) && Clean(s[1..], Some(Begun(word) + [s[0]])))
  }

  lemma {:induction false} CleanChars(s: string, word: Option<string>, i: nat)
    requires Clean(s, word) && i < |s|
    ensures Blank(s[i]) || Literal(s[i])
    ensures Blank(s[i]) || Leading(s[i]) ==> if i == 0 then word.Some? else !Blank(s[i - 1])
    decreases |s|
  {
    if i > 0 {
      var next := if Blank(s[0]) then None else Some(Begun(word) + [s[0]]);
      CleanChars(s[1..], next, i - 1);
    }
  }

  // ---------------------------------------------------------------- One step of the reader

  lemma SpaceReads(s: string, word: Option<string>)
    requires s != "" && Blank(s[0]) && Words(s, word).Some?
    ensures Words(s[1..], None).Some?
    ensures Words(s, word).value == (if word.Some? then [word.value] else []) + Words(s[1..], None).value
  {
  }

  lemma SpaceSize(s: string, word: Option<string>)
    requires s != "" && Blank(s[0]) && Words(s, word).Some?
    ensures Words(s[1..], None).Some?
    ensures Size(Words(s, word).value) == Size(Words(s[1..], None).value) + (if word.Some? then |word.value| + 1 else 0)
  {
    SpaceReads(s, word);
    SizeConcat(if word.Some? then [word.value] else [], Words(s[1..], None).value);
    if word.Some? {
      assert [word.value][1..] == [];
      assert Size([word.value]) == |word.value| + 1 + Size([]);
    }
  }

  /** No line gives more text than it has; one that gives all of it is clean. */
  lemma {:induction false} SizeBound(s: string, word: Option<string>)
    requires Words(s, word).Some?
    ensures Size(Words(s, word).value) <= |s| + |Begun(word)| + 1
    ensures Size(Words(s, word).value) == |s| + |Begun(word)| + 1 ==> Clean(s, word)
    decreases |s|
  {
    if s == "" {
      if word.Some? {
        assert [word.value][1..] == [];
      }
    } else if Blank(s[0]) {
      SpaceSize(s, word);
      SizeBound(s[1..], None);
    } else if s[0] == QUOTE {
      var n := Find(s[1..], QUOTE);
      SizeBound(s[n + 2..], Some(Begun(word) + s[1..n + 1]));
    } else if s[0] == '\\' {
      SizeBound(s[2..], if s[1] == '\n' then word else Some(Begun(word) + [s[1]]));
    } else {
      SizeBound(s[1..], Some(Begun(word) + [s[0]]));
    }
  }

  // ---------------------------------------------------------------- A quoted word out of step

  /** Whatever is read from here is at most this much. */
  predicate AtMost(s: string, word: Option<string>, n: int) {
    Words(s, word).Some? ==> Size(Words(s, word).value) <= n
  }

  lemma AtMostToo(s: string, word: Option<string>, t: string, begun: Option<string>, n: int)
    requires Words(s, word) == Words(t, begun) && AtMost(t, begun, n)
    ensures AtMost(s, word, n)
  {
  }

  lemma PostAtMost(post: string, word: Option<string>, n: int)
    requires |post| + |Begun(word)| + 1 <= n
    ensures AtMost(post, word, n)
  {
    if Words(post, word).Some? {
      SizeBound(post, word);
    }
  }

  lemma QuoteThenEscaped(p: string, post: string, word: Option<string>, n: int)
    requires |Begun(word)| + |p| + 1 + |post| <= n
    ensures AtMost([QUOTE] + Escaped(p) + [QUOTE] + post, word, n)
  {
    EscapedReads(p, post, word);
    PostAtMost(post, Some(Begun(word) + p), n);
    AtMostToo([QUOTE] + Escaped(p) + [QUOTE] + post, word, post, Some(Begun(word) + p), n);
  }

  lemma EscapedFirst(p: string)
    requires p != ""
    ensures Escaped(p) == (if p[0] == QUOTE then "'\\''" else [p[0]]) + Escaped(p[1..])
  {
  }

  lemma QuoteText(e: string, post: string)
    ensures "'\\''" + e + [QUOTE] + post == [QUOTE] + "\\" + [QUOTE] + ([QUOTE] + e + [QUOTE] + post)
  {
    assert "'\\''" == [QUOTE] + "\\" + [QUOTE] + [QUOTE];
  }

  lemma BackslashText(e: string, post: string)
    ensures "\\" + ("'\\''" + e) + [QUOTE] + post == "\\'" + ("\\'" + ([QUOTE] + e + [QUOTE] + post))
  {
  }

  /** The word's own quote, met inside quotes: `'\''` reads as a backslash, and the rest in step. */
  lemma QuoteOutOfStep(p: string, post: string, word: Option<string>)
    requires p != "" && p[0] == QUOTE
    ensures AtMost(Escaped(p) + [QUOTE] + post, word, |Begun(word)| + |p| + 1 + |post|)
  {
    var e, n := Escaped(p[1..]), |Begun(word)| + |p| + 1 + |post|;
    var rest, begun := [QUOTE] + e + [QUOTE] + post, Some(Begun(word) + "\\");
    EscapedFirst(p);
    QuoteText(e, post);
    StretchReads("\\", rest, word);
    QuoteThenEscaped(p[1..], post, begun, n);
    AtMostToo(Escaped(p) + [QUOTE] + post, word, rest, begun, n);
  }

  lemma TwoBackslashes(rest: string, word: Option<string>)
    ensures Words("\\'" + ("\\'" + rest), word) == Words(rest, Some(Begun(word) + [QUOTE] + [QUOTE]))
  {
    BackslashReads("\\'" + rest, word);
    BackslashReads(rest, Some(Begun(word) + [QUOTE]));
  }

  /** A backslash before the word's own quote. */
  lemma BackslashOutOfStep(p: string, post: string, word: Option<string>)
    requires |p| >= 2 && p[0] == '\\' && p[1] == QUOTE
    ensures AtMost(Escaped(p) + [QUOTE] + post, word, |Begun(word)| + |p| + 1 + |post|)
  {
    var e, n := Escaped(p[2..]), |Begun(word)| + |p| + 1 + |post|;
    var rest, begun := [QUOTE] + e + [QUOTE] + post, Some(Begun(word) + [QUOTE] + [QUOTE]);
    EscapedFirst(p);
    EscapedFirst(p[1..]);
    assert p[1..][1..] == p[2..];
    BackslashText(e, post);
    TwoBackslashes(rest, word);
    QuoteThenEscaped(p[2..], post, begun, n);
    AtMostToo(Escaped(p) + [QUOTE] + post, word, rest, begun, n);
  }

  lemma EscapedTail(p: string, post: string)
    requires p != "" && p[0] != QUOTE
    ensures (Escaped(p) + [QUOTE] + post)[0] == p[0]
    ensures (Escaped(p) + [QUOTE] + post)[1..] == Escaped(p[1..]) + [QUOTE] + post
  {
    EscapedFirst(p);
  }

  /** Read with its opening quote already spent, a quoted word gives no more than its own length. */
  lemma {:induction false} OutOfStep(p: string, post: string, word: Option<string>)
    requires QUOTE !in post
    ensures AtMost(Escaped(p) + [QUOTE] + post, word, |Begun(word)| + |p| + 1 + |post|)
    decreases |p|
  {
    var s := Escaped(p) + [QUOTE] + post;
    if p == "" {
      assert s == [QUOTE] + post && s[1..] == post;
      FindNone(post, QUOTE);
    } else if p[0] == QUOTE {
      QuoteOutOfStep(p, post, word);
    } else {
      EscapedTail(p, post);
      if Blank(p[0]) {
        if Words(s, word).Some? {
          SpaceSize(s, word);
        }
        OutOfStep(p[1..], post, None);
      } else if p[0] != '\\' {
        OutOfStep(p[1..], post, Some(Begun(word) + [p[0]]));
      } else if |p| == 1 {
        assert s == "\\'" + post;
        BackslashReads(post, word);
        PostAtMost(post, Some(Begun(word) + [QUOTE]), |Begun(word)| + 2 + |post|);
      } else if p[1] == QUOTE {
        BackslashOutOfStep(p, post, word);
      } else {
        EscapedTail(p[1..], post);
        assert p[1..][1..] == p[2..];
        assert s[1] == p[1] && s[2..] == Escaped(p[2..]) + [QUOTE] + post;
        OutOfStep(p[2..], post, if p[1] == '\n' then word else Some(Begun(word) + [p[1]]));
      }
    }
  }

  // ---------------------------------------------------------------- Text before a quoted word

  predicate EndsInSpace(s: string) { s == "" || s[|s| - 1] == ' ' }

  lemma OpenText(s: string, e: string, post: string)
    requires s != "" && s[0] == QUOTE
    ensures s + ([QUOTE] + e + [QUOTE]) + post == [QUOTE] + s[1..] + [QUOTE] + (e + [QUOTE] + post)
  {
  }

  lemma NoQuoteInPlain(p: string)
    requires AllPlain(p)
    ensures QUOTE !in p
  {
    assert !Plain(QUOTE);
  }

  /** A quote left open before a quoted word swallows up to its opening quote. */
  lemma OpenQuote(s: string, p: string, post: string, word: Option<string>)
    requires s != "" && s[0] == QUOTE && QUOTE !in s[1..] && QUOTE !in post
    ensures AtMost(s + Quoted(p) + post, word, |s| + |Begun(word)| + |p| + |post|)
  {
    var t, n := s + Quoted(p) + post, |s| + |Begun(word)| + |p| + |post|;
    if AllPlain(p) {
      NoQuoteInPlain(p);
      assert t[0] == QUOTE && t[1..] == s[1..] + p + post;
      FindNone(t[1..], QUOTE);
    } else {
      var rest, begun := Escaped(p) + [QUOTE] + post, Some(Begun(word) + s[1..]);
      OpenText(s, Escaped(p), post);
      StretchReads(s[1..], rest, word);
      OutOfStep(p, post, begun);
      AtMostToo(t, word, rest, begun, n);
    }
  }

  /** Read from here, `s` and what follows it give at most `n`, and that only if `s` is clean. */
  predicate Spends(s: string, t: string, word: Option<string>, n: int) {
    Words(s + t, word).Some? ==>
      Size(Words(s + t, word).value) <= n && (Size(Words(s + t, word).value) == n ==> Clean(s, word))
  }

  lemma Rest(s: string, t: string, k: nat)
    requires k <= |s|
    ensures (s + t)[k..] == s[k..] + t && forall i :: 0 <= i < k ==> (s + t)[i] == s[i]
  {
  }

  lemma SpendsSpace(s: string, t: string, word: Option<string>, n: int)
    requires s != "" && Blank(s[0]) && Spends(s[1..], t, None, n)
    ensures Spends(s, t, word, n + |Begun(word)| + 1)
  {
    Rest(s, t, 1);
    if Words(s + t, word).Some? {
      SpaceSize(s + t, word);
    }
  }

  lemma SpendsLiteral(s: string, t: string, word: Option<string>, n: int)
    requires s != "" && !Blank(s[0]) && s[0] != QUOTE && s[0] != '\\'
    requires Spends(s[1..], t, Some(Begun(word) + [s[0]]), n)
    ensures Spends(s, t, word, n)
  {
    Rest(s, t, 1);
  }

  lemma SpendsBackslash(s: string, t: string, word: Option<string>, n: int)
    requires |s| >= 2 && s[0] == '\\' && Spends(s[2..], t, if s[1] == '\n' then word else Some(Begun(word) + [s[1]]), n)
    ensures AtMost(s + t, word, n)
  {
    Rest(s, t, 2);
  }

  lemma ClosedQuote(s: string, n: nat, rest: string)
    requires s != "" && n == Find(s[1..], QUOTE) < |s| - 1
    ensures Find((s + rest)[1..], QUOTE) == n && (s + rest)[n + 2..] == s[n + 2..] + rest
    ensures (s + rest)[1..n + 1] == s[1..n + 1]
  {
    var t := (s + rest)[1..];
    assert t == s[1..] + rest && t[..n] == s[1..][..n] && t[n] == s[1..][n];
    FindAt(t, QUOTE, n);
  }

  lemma SpendsQuote(s: string, t: string, word: Option<string>, k: nat, n: int)
    requires s != "" && s[0] == QUOTE && k == Find(s[1..], QUOTE) < |s| - 1
    requires Spends(s[k + 2..], t, Some(Begun(word) + s[1..k + 1]), n)
    ensures AtMost(s + t, word, n)
  {
    ClosedQuote(s, k, t);
    Rest(s, t, 1);
  }

  /** Before a quoted word as after it: no more text than there is, and all of it only if clean. */
  lemma {:induction false} BeforeQuoted(s: string, p: string, post: string, word: Option<string>)
    requires EndsInSpace(s) && QUOTE !in post
    ensures Spends(s, Quoted(p) + post, word, |s| + |Begun(word)| + |p| + 1 + |post|)
    decreases |s|
  {
    var t, n := Quoted(p) + post, |s| + |Begun(word)| + |p| + 1 + |post|;
    if s == "" {
      assert s + t == t;
      QuotedReads(p, post, word);
      PostAtMost(post, Some(Begun(word) + p), n);
    } else if Blank(s[0]) {
      BeforeQuoted(s[1..], p, post, None);
      SpendsSpace(s, t, word, |s| - 1 + |p| + 1 + |post|);
    } else if s[0] == QUOTE {
      var k := Find(s[1..], QUOTE);
      if k == |s| - 1 {
        assert s[1..][..k] == s[1..];
        OpenQuote(s, p, post, word);
        assert s + Quoted(p) + post == s + t;
      } else {
        var begun := Some(Begun(word) + s[1..k + 1]);
        BeforeQuoted(s[k + 2..], p, post, begun);
        SpendsQuote(s, t, word, k, |s[k + 2..]| + |Begun(begun)| + |p| + 1 + |post|);
      }
    } else if s[0] == '\\' {
      assert s[|s| - 1] == ' ' && |s| >= 2;
      var begun := if s[1] == '\n' then word else Some(Begun(word) + [s[1]]);
      BeforeQuoted(s[2..], p, post, begun);
      SpendsBackslash(s, t, word, |s[2..]| + |Begun(begun)| + |p| + 1 + |post|);
    } else {
      BeforeQuoted(s[1..], p, post, Some(Begun(word) + [s[0]]));
      SpendsLiteral(s, t, word, n);
    }
  }

  // ---------------------------------------------------------------- The first word of a clean text

  /** Where the first blank is, or the end. */
  function FirstBlank(s: string): (k: nat)
    ensures k <= |s| && (k < |s| ==> Blank(s[k])) && forall i :: 0 <= i < k ==> !Blank(s[i])
  {
    if s == "" || Blank(s[0]) then 0 else 1 + FirstBlank(s[1..])
  }

  /** The first word ends at the first blank. */
  lemma FirstWordCut(n: string, rest: string, k: nat)
    requires 0 < k < |n| && Blank(n[k]) && !Leading(n[0]) && forall i :: 0 <= i < k ==> Literal(n[i])
    ensures Words(n + rest, None).Some? ==>
      (Words(n + rest, None).value != [] && Words(n + rest, None).value[0] == n[..k])
  {
    var u, t := n[..k], n[k..] + rest;
    assert n + rest == u + t && Blank(t[0]);
    LiteralReads(u, t, None);
    assert Begun(None) + u == u;
    if Words(t, Some(u)).Some? {
      SpaceReads(t, Some(u));
    }
  }

  /** A text read as one word that is the text itself is literal. */
  lemma FirstWordLiteral(n: string, rest: string)
    requires Words(n + rest, None).Some? && Words(n + rest, None).value != []
    requires Words(n + rest, None).value[0] == n
    requires n != "" && !Blank(n[0]) && !Leading(n[0])
    requires forall i :: 0 <= i < |n| ==> Blank(n[i]) || Literal(n[i])
    ensures AllLiteral(n)
  {
    var k := FirstBlank(n);
    if k < |n| {
      FirstWordCut(n, rest, k);
    }
  }

  /** A literal word and a space in front of a line are one more word. */
  lemma OneWordFirst(w: string, rest: string)
    requires AllLiteral(w)
    ensures Words(w + " " + rest, None) == (match Words(rest, None) case None => None case Some(ws) => Some([w] + ws))
  {
    assert w + " " + rest == w + (" " + rest);
    LiteralReads(w, " " + rest, None);
    assert Begun(None) + w == w;
    assert (" " + rest)[0] == ' ' && (" " + rest)[1..] == rest;
  }
}
