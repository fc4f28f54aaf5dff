/** Policies that name someone else's nonce keep their page out of the cache. */
module NoncePolicy {
  import opened Options
  import opened Pieces
  import opened PageFrame
  import opened NonceSwap
  import opened PageNonce

  const SPACE: byte := 32

  // ---------------------------------------------------------------- Replacing piece by piece

  lemma ReplacedCut(s: Bytes, pat: Bytes, to: Bytes, i: nat, seg: Bytes, rest: Bytes)
    requires pat != [] && First(s, pat) == i < |s| && s[..i] == seg && s[i + |pat|..] == rest
    ensures Replaced(s, pat, to) == seg + (to + Replaced(rest, pat, to))
  {
    SegmentsCut(s, pat, i, seg, rest);
    WeaveCons(seg, Segments(rest, pat), to);
  }

  /** Before `u` no occurrence starts, so the first is the first in what follows it. */
  lemma FirstBehind(u: Bytes, b: Bytes, pat: Bytes)
    requires pat != [] && forall i: nat :: i < |u| ==> !At(u + b, pat, i)
    ensures First(u + b, pat) == |u| + First(b, pat)
  {
    var s, j := u + b, First(b, pat);
    assert s[|u|..] == b;
    forall k: nat | |u| <= k
      ensures At(s, pat, k) <==> At(b, pat, k - |u|)
    {
      ShiftedAt(s, pat, |u|, k - |u|);
    }
    if j < |b| {
      FirstIs(s, pat, |u| + j);
    }
  }

  lemma Regrouped(a: Bytes, b: Bytes, c: Bytes)
    ensures a + b + c == a + (b + c)
  {
  }

  /** What no occurrence reaches into is copied. */
  lemma ReplacedPrefix(u: Bytes, b: Bytes, pat: Bytes, to: Bytes)
    requires pat != [] && forall i: nat :: i < |u| ==> !At(u + b, pat, i)
    ensures Replaced(u + b, pat, to) == u + Replaced(b, pat, to)
  {
    var j := First(b, pat);
    FirstBehind(u, b, pat);
    if j < |b| {
      var seg, rest := b[..j], b[j + |pat|..];
      assert (u + b)[..|u| + j] == u + seg && (u + b)[|u| + j + |pat|..] == rest;
      ReplacedCut(u + b, pat, to, |u| + j, u + seg, rest);
      ReplacedCut(b, pat, to, j, seg, rest);
      Regrouped(u, seg, to + Replaced(rest, pat, to));
    } else {
      ReplacedNothing(b, pat, to);
      ReplacedNothing(u + b, pat, to);
    }
  }

  lemma SidesRegrouped(seg: Bytes, to: Bytes, x: Bytes, c: byte, y: Bytes)
    ensures seg + (to + (x + [c] + y)) == seg + (to + x) + [c] + y
  {
  }

  lemma SidesCut(a: Bytes, c: byte, b: Bytes, i: nat, j: nat)
    requires i <= j <= |a|
    ensures (a + [c] + b)[..i] == a[..i] && (a + [c] + b)[j..] == a[j..] + [c] + b
  {
  }

  /** An occurrence that starts before or at a `c` ends before it. */
  lemma NotAcross(a: Bytes, c: byte, b: Bytes, pat: Bytes, k: nat)
    requires pat != [] && c !in pat && k <= |a|
    ensures At(a + [c] + b, pat, k) <==> At(a, pat, k)
  {
    var s := a + [c] + b;
    if k + |pat| <= |a| {
      assert s[k..k + |pat|] == a[k..k + |pat|];
    } else if k + |pat| <= |s| {
      assert s[k..k + |pat|][|a| - k] == c;
    }
  }

  lemma FirstInSide(a: Bytes, c: byte, b: Bytes, pat: Bytes)
    requires pat != [] && c !in pat && Occurs(a, pat)
    ensures First(a + [c] + b, pat) == First(a, pat)
  {
    var i := First(a, pat);
    forall k: nat | k <= i
      ensures At(a + [c] + b, pat, k) <==> At(a, pat, k)
    {
      NotAcross(a, c, b, pat, k);
    }
    FirstIs(a + [c] + b, pat, i);
  }

  /** A pattern without `c` in it is replaced on each side of a `c`. */
  lemma {:induction false} ReplacedSides(a: Bytes, c: byte, b: Bytes, pat: Bytes, to: Bytes)
    requires pat != [] && c !in pat
    ensures Replaced(a + [c] + b, pat, to) == Replaced(a, pat, to) + [c] + Replaced(b, pat, to)
    decreases |a|
  {
    var i := First(a, pat);
    if i < |a| {
      FirstInSide(a, c, b, pat);
      var seg, rest := a[..i], a[i + |pat|..];
      SidesCut(a, c, b, i, i + |pat|);
      ReplacedCut(a + [c] + b, pat, to, i, seg, rest + [c] + b);
      ReplacedCut(a, pat, to, i, seg, rest);
      ReplacedSides(rest, c, b, pat, to);
      SidesRegrouped(seg, to, Replaced(rest, pat, to), c, Replaced(b, pat, to));
    } else {
      ReplacedNothing(a, pat, to);
      forall k: nat | k < |a + [c]|
        ensures !At(a + [c] + b, pat, k)
      {
        NotAcross(a, c, b, pat, k);
      }
      ReplacedPrefix(a + [c], b, pat, to);
    }
  }

  lemma {:induction false} WeaveFree(segs: seq<Bytes>, t: Bytes, c: byte)
    requires c !in t && forall i :: 0 <= i < |segs| ==> c !in segs[i]
    ensures c !in Weave(segs, t)
  {
    if |segs| > 1 {
      WeaveFree(segs[1..], t, c);
    }
  }

  lemma {:induction false} SegmentsFree(v: Bytes, t: Bytes, c: byte)
    requires t != [] && c !in v
    ensures forall i :: 0 <= i < |Segments(v, t)| ==> c !in Segments(v, t)[i]
    decreases |v|
  {
    var i := First(v, t);
    if i < |v| {
      SegmentsFree(v[i + |t|..], t, c);
    }
  }

  lemma ReplacedFree(v: Bytes, from: Bytes, to: Bytes, c: byte)
    requires c !in v && c !in to
    ensures c !in Replaced(v, from, to)
  {
    if from != [] {
      SegmentsFree(v, from, c);
      WeaveFree(Segments(v, from), to, c);
    }
  }

  lemma EachCons(a: Bytes, rest: seq<Bytes>, pat: Bytes, to: Bytes)
    ensures Each([a] + rest, pat, to) == [Replaced(a, pat, to)] + Each(rest, pat, to)
  {
  }

  /** The piece before the first `c`. */
  lemma PiecesReplacedStep(a: Bytes, c: byte, b: Bytes, pat: Bytes, to: Bytes)
    requires c !in a && c !in pat && c !in to && Split(Replaced(b, pat, to), c) == Each(Split(b, c), pat, to)
    ensures Split(Replaced(a + [c] + b, pat, to), c) == Each(Split(a + [c] + b, c), pat, to)
  {
    if pat != [] {
      ReplacedSides(a, c, b, pat, to);
    }
    ReplacedFree(a, pat, to, c);
    SplitCut(Replaced(a, pat, to), c, Replaced(b, pat, to));
    SplitCut(a, c, b);
    EachCons(a, Split(b, c), pat, to);
  }

  lemma OnePieceReplaced(v: Bytes, c: byte, pat: Bytes, to: Bytes)
    requires c !in v && c !in to
    ensures Split(Replaced(v, pat, to), c) == Each(Split(v, c), pat, to)
  {
    ReplacedFree(v, pat, to, c);
    FindNone(Replaced(v, pat, to), c);
    FindNone(v, c);
  }

  /** Neither the pattern nor what replaces it holds the separator: replacing is replacing in each piece. */
  lemma {:induction false} PiecesReplaced(v: Bytes, c: byte, pat: Bytes, to: Bytes)
    requires c !in pat && c !in to
    ensures Split(Replaced(v, pat, to), c) == Each(Split(v, c), pat, to)
    decreases |v|
  {
    var i := Find(v, c);
    if i == |v| {
      assert v[..i] == v;
      OnePieceReplaced(v, c, pat, to);
    } else {
      PiecesReplaced(v[i + 1..], c, pat, to);
      PiecesReplacedStep(v[..i], c, v[i + 1..], pat, to);
      assert v == v[..i] + [c] + v[i + 1..];
    }
  }

  lemma FindsSides(a: Bytes, c: byte, b: Bytes, pat: Bytes)
    requires pat != [] && c !in pat
    ensures Finds(a + [c] + b, pat) <==> Finds(a, pat) || Finds(b, pat)
  {
    var s, m := a + [c] + b, |a| + 1;
    assert s[m..] == b;
    forall k: nat
      ensures k < m ==> (At(s, pat, k) <==> At(a, pat, k))
      ensures At(b, pat, k) <==> At(s, pat, m + k)
    {
      if k < m {
        NotAcross(a, c, b, pat, k);
      }
      ShiftedAt(s, pat, m, k);
    }
    if Finds(s, pat) {
      var k := First(s, pat);
      assert k >= m ==> At(b, pat, k - m);
    }
    if Finds(b, pat) {
      assert At(s, pat, m + First(b, pat));
    }
  }

  // ---------------------------------------------------------------- Token by token

  function Ours(t: Bytes): Bytes { B("nonce-") + t }

  lemma TextLacks(s: string, c: char)
    requires c as int < 256 && forall i :: 0 <= i < |s| ==> s[i] as int < 256 && s[i] != c
    ensures (c as int) as byte !in B(s)
  {
  }

  lemma PlaceholderHasNoSpace()
    ensures SPACE !in Quoted(PlaceholderText())
  {
    TextLacks("nonce-__RUSTANGO_NONCE__", ' ');
  }

  lemma LeadHasNeither()
    ensures SPACE !in Lead() && QUOTE !in Lead()
  {
    TextLacks("__RUSTANGO_CACHED_NONCE_", ' ');
    TextLacks("__RUSTANGO_CACHED_NONCE_", '\'');
  }

  lemma TokenHasNeither(hex: Bytes)
    requires HexText(hex)
    ensures SPACE !in NonceSwap.Token(hex) && SPACE !in Quoted(Ours(NonceSwap.Token(hex)))
    ensures QUOTE !in NonceSwap.Token(hex)
  {
    TextLacks("nonce-", ' ');
    TextLacks("__", ' ');
    TextLacks("__", '\'');
    LeadHasNeither();
    assert SPACE !in hex && QUOTE !in hex;
  }

  lemma WordInSides(a: Bytes, b: Bytes)
    ensures Finds(Lower(a + [SPACE] + b), B("'nonce-")) <==>
            Finds(Lower(a), B("'nonce-")) || Finds(Lower(b), B("'nonce-"))
  {
    assert Lower(a + [SPACE] + b) == Lower(a) + [SPACE] + Lower(b);
    TextLacks("'nonce-", ' ');
    FindsSides(Lower(a), SPACE, Lower(b), B("'nonce-"));
  }

  lemma SidesForeign(a: Bytes, b: Bytes, hex: Bytes)
    requires HexText(hex)
    ensures var t := NonceSwap.Token(hex);
      NamesForeignNonce(a + [SPACE] + b, t) <==> NamesForeignNonce(a, t) || NamesForeignNonce(b, t)
  {
    var y, z := Quoted(PlaceholderText()), Quoted(Ours(NonceSwap.Token(hex)));
    PlaceholderHasNoSpace();
    TokenHasNeither(hex);
    ReplacedSides(a, SPACE, b, y, []);
    ReplacedSides(Replaced(a, y, []), SPACE, Replaced(b, y, []), z, []);
    WordInSides(Replaced(Replaced(a, y, []), z, []), Replaced(Replaced(b, y, []), z, []));
  }

  predicate SomeForeign(tokens: seq<Bytes>, t: Bytes) {
    exists i :: 0 <= i < |tokens| && NamesForeignNonce(tokens[i], t)
  }

  lemma SomeForeignCons(a: Bytes, rest: seq<Bytes>, t: Bytes)
    ensures SomeForeign([a] + rest, t) <==> NamesForeignNonce(a, t) || SomeForeign(rest, t)
  {
    var all := [a] + rest;
    assert all[0] == a;
    if SomeForeign(rest, t) {
      var k :| 0 <= k < |rest| && NamesForeignNonce(rest[k], t);
      assert NamesForeignNonce(all[k + 1], t);
    }
  }

  /** A policy names a foreign nonce exactly when one of its tokens does. */
  lemma {:induction false} TokensForeign(v: Bytes, hex: Bytes)
    requires HexText(hex)
    ensures NamesForeignNonce(v, NonceSwap.Token(hex)) <==> SomeForeign(Split(v, SPACE), NonceSwap.Token(hex))
    decreases |v|
  {
    var i := Find(v, SPACE);
    if i == |v| {
      assert Split(v, SPACE)[0] == v;
    } else {
      var a, b := v[..i], v[i + 1..];
      assert v == a + [SPACE] + b;
      SidesForeign(a, b, hex);
      TokensForeign(b, hex);
      SomeForeignCons(a, Split(b, SPACE), NonceSwap.Token(hex));
    }
  }

  // ---------------------------------------------------------------- Between the quotes

  /** `nonce-` in any case, right behind a quote. */
  predicate Names(w: Bytes) { |w| >= 6 && Lower(w[..6]) == B("nonce-") }

  predicate QuoteFree(u: Bytes, w: Bytes, z: Bytes) { QUOTE !in u && QUOTE !in w && QUOTE !in z }

  function TwoQuotes(u: Bytes, w: Bytes, z: Bytes): Bytes { u + [QUOTE] + (w + [QUOTE] + z) }

  lemma QuotesAt(u: Bytes, w: Bytes, z: Bytes, i: nat)
    requires QuoteFree(u, w, z) && i < |TwoQuotes(u, w, z)|
    ensures TwoQuotes(u, w, z)[i] == QUOTE <==> i == |u| || i == |u| + 1 + |w|
  {
    var s := TwoQuotes(u, w, z);
    if i < |u| {
      assert s[i] == u[i];
    } else if |u| < i < |u| + 1 + |w| {
      assert s[i] == w[i - |u| - 1];
    } else if i > |u| + 1 + |w| {
      assert s[i] == z[i - |u| - |w| - 2];
    }
  }

  lemma OneQuoteAt(u: Bytes, w: Bytes, i: nat)
    requires QUOTE !in u && QUOTE !in w && i <= |u| + |w|
    ensures (u + [QUOTE] + w)[i] == QUOTE <==> i == |u|
  {
    var s := u + [QUOTE] + w;
    if i < |u| {
      assert s[i] == u[i];
    } else if i > |u| {
      assert s[i] == w[i - |u| - 1];
    }
  }

  lemma QuotedEnds(s: Bytes, y: Bytes, i: nat)
    requires At(s, Quoted(y), i)
    ensures i + |y| + 1 < |s| && s[i] == QUOTE && s[i + |y| + 1] == QUOTE
  {
    var pat := Quoted(y);
    assert s[i..i + |pat|][0] == pat[0] && s[i..i + |pat|][|y| + 1] == pat[|y| + 1];
  }

  lemma QuotedAt(u: Bytes, w: Bytes, z: Bytes, y: Bytes, i: nat)
    requires QuoteFree(u, w, z)
    ensures At(TwoQuotes(u, w, z), Quoted(y), i) ==> i == |u| && w == y
  {
    var s, pat, n := TwoQuotes(u, w, z), Quoted(y), |y| + 1;
    if At(s, pat, i) {
      QuotedEnds(s, y, i);
      QuotesAt(u, w, z, i);
      QuotesAt(u, w, z, i + n);
      assert i == |u| && n == 1 + |w|;
      assert s[i + 1..i + n] == w && s[i..i + |pat|][1..n] == s[i + 1..i + n];
      assert pat[1..n] == y;
    }
  }

  lemma WordBytes()
    ensures var word := B("'nonce-"); |word| == 7 && word[0] == QUOTE && word[1..] == B("nonce-") && QUOTE !in word[1..]
  {
    TextLacks("nonce-", '\'');
  }

  lemma WordBehindQuote(s: Bytes, i: nat)
    requires At(Lower(s), B("'nonce-"), i)
    ensures i < |s| && s[i] == QUOTE
  {
    WordBytes();
    assert Lower(s)[i..i + 7][0] == QUOTE;
    assert Lower(s)[i] == LowerByte(s[i]);
  }

  lemma NoQuoteNothing(s: Bytes, y: Bytes)
    requires QUOTE !in s
    ensures Replaced(s, Quoted(y), []) == s && !Finds(Lower(s), B("'nonce-"))
  {
    var pat := Quoted(y);
    if Occurs(s, pat) {
      QuotedEnds(s, y, First(s, pat));
      assert false;
    }
    ReplacedNothing(s, pat, []);
    if Finds(Lower(s), B("'nonce-")) {
      WordBehindQuote(s, First(Lower(s), B("'nonce-")));
      assert false;
    }
  }

  /** Removing a quoted text takes it out from between the quotes, or nothing. */
  lemma QuotedRemoved(u: Bytes, w: Bytes, z: Bytes, y: Bytes)
    requires QuoteFree(u, w, z)
    ensures Replaced(TwoQuotes(u, w, z), Quoted(y), []) == if w == y then u + z else TwoQuotes(u, w, z)
  {
    var s, pat := TwoQuotes(u, w, z), Quoted(y);
    if w == y {
      assert s[|u|..|u| + |pat|] == pat && s[..|u|] == u && s[|u| + |pat|..] == z;
      forall k: nat | k < |u|
        ensures !At(s, pat, k)
      {
        QuotedAt(u, w, z, y, k);
      }
      FirstIs(s, pat, |u|);
      ReplacedCut(s, pat, [], |u|, u, z);
      NoQuoteNothing(z, y);
      assert [] + z == z;
    } else {
      if Occurs(s, pat) {
        QuotedAt(u, w, z, y, First(s, pat));
        assert false;
      }
      ReplacedNothing(s, pat, []);
    }
  }

  /** The word stands in a text right behind one of its quotes. */
  lemma WordAt(a: Bytes, b: Bytes)
    ensures At(Lower(a + [QUOTE] + b), B("'nonce-"), |a|) <==> Names(b)
  {
    var s, word := a + [QUOTE] + b, B("'nonce-");
    WordBytes();
    if |b| >= 6 {
      var cut := Lower(s)[|a|..|a| + 7];
      assert cut[0] == QUOTE && cut[1..] == Lower(b[..6]);
      assert cut == [cut[0]] + cut[1..] && word == [word[0]] + word[1..];
    }
  }

  /** Up to the next quote. */
  lemma NamesBefore(w: Bytes, z: Bytes)
    ensures Names(w + [QUOTE] + z) <==> Names(w)
  {
    var s := w + [QUOTE] + z;
    WordBytes();
    if |w| >= 6 {
      assert s[..6] == w[..6];
    } else {
      assert |s| >= 6 ==> Lower(s[..6])[|w|] == QUOTE;
    }
  }

  lemma OneQuoteFinds(u: Bytes, w: Bytes)
    requires QUOTE !in u && QUOTE !in w
    ensures Finds(Lower(u + [QUOTE] + w), B("'nonce-")) <==> Names(w)
  {
    var s, word := u + [QUOTE] + w, B("'nonce-");
    WordAt(u, w);
    WordBytes();
    if Finds(Lower(s), word) {
      WordBehindQuote(s, First(Lower(s), word));
      OneQuoteAt(u, w, First(Lower(s), word));
    }
  }

  lemma TwoQuotesFind(u: Bytes, w: Bytes, z: Bytes)
    requires QuoteFree(u, w, z)
    ensures Finds(Lower(TwoQuotes(u, w, z)), B("'nonce-")) <==> Names(w) || Names(z)
  {
    var s, word := TwoQuotes(u, w, z), B("'nonce-");
    var a := u + [QUOTE] + w;
    WordAt(u, w + [QUOTE] + z);
    NamesBefore(w, z);
    assert s == a + [QUOTE] + z;
    WordAt(a, z);
    if Finds(Lower(s), word) {
      WordBehindQuote(s, First(Lower(s), word));
      QuotesAt(u, w, z, First(Lower(s), word));
    }
  }

  /** What a token with two quotes names. */
  lemma TwoQuotesForeign(u: Bytes, w: Bytes, z: Bytes, t: Bytes)
    requires QuoteFree(u, w, z)
    ensures NamesForeignNonce(TwoQuotes(u, w, z), t) <==>
            w != PlaceholderText() && w != Ours(t) && (Names(w) || Names(z))
  {
    QuotedRemoved(u, w, z, PlaceholderText());
    if w == PlaceholderText() {
      NoQuoteNothing(u + z, Ours(t));
    } else {
      QuotedRemoved(u, w, z, Ours(t));
      NoQuoteNothing(u + z, Ours(t));
      TwoQuotesFind(u, w, z);
    }
  }

  lemma OneQuoteNothing(u: Bytes, w: Bytes, y: Bytes)
    requires QUOTE !in u && QUOTE !in w
    ensures Replaced(u + [QUOTE] + w, Quoted(y), []) == u + [QUOTE] + w
  {
    var s, pat := u + [QUOTE] + w, Quoted(y);
    if Occurs(s, pat) {
      var i: nat, j: nat := First(s, pat), First(s, pat) + |y| + 1;
      QuotedEnds(s, y, i);
      OneQuoteAt(u, w, j);
      OneQuoteAt(u, w, i);
      assert false;
    }
    ReplacedNothing(s, pat, []);
  }

  // ---------------------------------------------------------------- The visitor's nonce swapped out

  lemma {:induction false} WeaveLength(segs: seq<Bytes>, t: Bytes)
    requires |segs| > 1
    ensures |Weave(segs, t)| >= |t| + |segs[0]|
    ensures t != [] && |Weave(segs, t)| == |t| ==> |segs| == 2 && segs[0] == [] && segs[1] == []
  {
    if |segs| > 2 {
      WeaveLength(segs[1..], t);
    } else {
      assert Weave(segs, t) == segs[0] + (t + segs[1]);
    }
  }

  /** Only the nonce itself is swapped into exactly the token. */
  lemma SwappedIntoToken(x: Bytes, n: Bytes, t: Bytes)
    requires t != [] && Replaced(x, n, t) == t
    ensures x == t || (n != [] && x == n)
  {
    if n != [] && Occurs(x, n) {
      var i := First(x, n);
      var segs := Segments(x, n);
      SegmentsCut(x, n, i, x[..i], x[i + |n|..]);
      WeaveLength(segs, t);
      assert segs[1..] == Segments(x[i + |n|..], n);
      var rest := x[i + |n|..];
      assert |segs| == 2 && |Segments(rest, n)| == 1;
      assert rest == segs[1] == [] && i == 0;
      assert x == x[..i] + n + rest;
    } else {
      ReplacedNothing(x, n, t);
    }
  }

  /** The nonce does not reach into a leading `nonce-`. */
  predicate Untouched(w: Bytes, n: Bytes) { n == [] || First(w, n) >= 6 }

  predicate Absent(w: Bytes, n: Bytes) { n == [] || !Occurs(w, n) }

  lemma SwappedFirst(w: Bytes, n: Bytes, to: Bytes)
    requires n != [] && Occurs(w, n)
    ensures var i := First(w, n); Replaced(w, n, to) == w[..i] + (to + Replaced(w[i + |n|..], n, to))
  {
    var i := First(w, n);
    ReplacedCut(w, n, to, i, w[..i], w[i + |n|..]);
  }

  /** After the swap a text starts with `nonce-` exactly when it did and no nonce reached into that. */
  lemma NamesSwapped(w: Bytes, n: Bytes, hex: Bytes)
    ensures Names(Replaced(w, n, NonceSwap.Token(hex))) <==> Names(w) && Untouched(w, n)
  {
    var t := NonceSwap.Token(hex);
    if Absent(w, n) {
      ReplacedNothing(w, n, t);
    } else {
      var i, r := First(w, n), Replaced(w, n, t);
      SwappedFirst(w, n, t);
      assert |t| > 0 && t[0] == 95;
      if i >= 6 {
        assert r[..6] == w[..6];
      } else {
        assert r[i] == 95;
        assert |r| >= 6 ==> Lower(r[..6])[i] == 95 && B("nonce-")[i] != 95;
      }
    }
  }

  /** What is the placeholder after the swap was it before, with no nonce in it. */
  lemma PlaceholderSwapped(w: Bytes, n: Bytes, hex: Bytes)
    ensures Replaced(w, n, NonceSwap.Token(hex)) == PlaceholderText() <==> w == PlaceholderText() && Absent(w, n)
  {
    var t := NonceSwap.Token(hex);
    if Absent(w, n) {
      ReplacedNothing(w, n, t);
    } else {
      SwappedFirst(w, n, t);
      assert |PlaceholderText()| == 24 && |Lead()| == 24 && |t| >= 26;
    }
  }

  lemma WholeReplaced(n: Bytes, to: Bytes)
    requires n != []
    ensures Replaced(n, n, to) == to
  {
    assert n[0..|n|] == n;
    FirstIs(n, n, 0);
    SwappedFirst(n, n, to);
    ReplacedNothing([], n, to);
    assert n[|n|..] == [] && [] + (to + []) == to;
  }

  lemma BehindWord(w: Bytes, n: Bytes, to: Bytes)
    requires |w| >= 6 && Untouched(w, n)
    ensures Replaced(w, n, to) == w[..6] + Replaced(w[6..], n, to)
  {
    assert w[..6] + w[6..] == w;
    if n != [] {
      ReplacedPrefix(w[..6], w[6..], n, to);
    }
  }

  /** `nonce-` and the visitor's own nonce, which the swap turns into the layer's token. */
  predicate IsOwn(w: Bytes, n: Bytes) { n != [] && w == Ours(n) && Untouched(w, n) }

  lemma OwnBecomesToken(w: Bytes, n: Bytes, t: Bytes)
    requires IsOwn(w, n)
    ensures Replaced(w, n, t) == Ours(t)
  {
    var word := B("nonce-");
    assert |word| == 6 && w[..6] == word && w[6..] == n;
    BehindWord(w, n, t);
    WholeReplaced(n, t);
  }

  lemma OursNames(t: Bytes)
    ensures Names(Ours(t))
  {
    var word := B("nonce-");
    assert |word| == 6 && Ours(t)[..6] == word && Lower(word) == word;
  }

  lemma OnlyOwn(w: Bytes, n: Bytes, t: Bytes)
    requires t != [] && !Occurs(w, t) && Names(w) && Untouched(w, n) && Replaced(w, n, t) == Ours(t)
    ensures IsOwn(w, n)
  {
    var word, x := B("nonce-"), w[6..];
    BehindWord(w, n, t);
    assert |word| == 6;
    SamePrefix(w[..6], Replaced(x, n, t), word, t);
    assert w == word + x;
    SwappedIntoToken(x, n, t);
    assert x == t ==> At(w, t, 6);
  }

  /** Nothing but the visitor's own source turns into the layer's. */
  lemma OwnSwapped(w: Bytes, n: Bytes, hex: Bytes)
    requires HexText(hex) && !Occurs(w, NonceSwap.Token(hex))
    ensures Replaced(w, n, NonceSwap.Token(hex)) == Ours(NonceSwap.Token(hex)) <==> IsOwn(w, n)
  {
    var t := NonceSwap.Token(hex);
    if IsOwn(w, n) {
      OwnBecomesToken(w, n, t);
    } else if Replaced(w, n, t) == Ours(t) {
      OursNames(t);
      NamesSwapped(w, n, hex);
      OnlyOwn(w, n, t);
    }
  }

  // ---------------------------------------------------------------- One token

  /** A text behind a quote that still opens a nonce source after the swap. */
  predicate Opening(w: Bytes, n: Bytes) { Names(w) && Untouched(w, n) }

  /** Between two quotes and behind them: neither the placeholder nor the visitor's own source, and
      one of the two still opens a nonce source after the swap. */
  predicate NamesBetween(w: Bytes, z: Bytes, n: Bytes) {
    && !(w == PlaceholderText() && Absent(w, n)) && !IsOwn(w, n)
    && (Opening(w, n) || Opening(z, n))
  }

  /** A token, cut at its quotes, names a nonce that is neither the placeholder nor the visitor's.
      With more than two quotes it is what the replacements leave of it. */
  predicate NamesOther(token: Bytes, n: Bytes, t: Bytes) {
    var ps := Split(token, QUOTE);
    if |ps| == 1 then false
    else if |ps| == 2 then Opening(ps[1], n)
    else if |ps| == 3 then NamesBetween(ps[1], ps[2], n)
    else NamesForeignNonce(Replaced(token, n, t), t)
  }

  lemma ThreePieces(s: Bytes)
    ensures var ps := Split(s, QUOTE);
      && Free(ps, QUOTE)
      && (|ps| == 1 ==> s == ps[0])
      && (|ps| == 2 ==> s == ps[0] + [QUOTE] + ps[1])
      && (|ps| == 3 ==> s == TwoQuotes(ps[0], ps[1], ps[2]))
  {
    JoinOfSplit(s, QUOTE);
    var ps := Split(s, QUOTE);
    if |ps| == 3 {
      assert ps[1..] == [ps[1], ps[2]] && ps[1..][1..] == [ps[2]];
    }
  }

  lemma OneQuoteForeign(u: Bytes, w: Bytes, t: Bytes)
    requires QUOTE !in u && QUOTE !in w
    ensures NamesForeignNonce(u + [QUOTE] + w, t) <==> Names(w)
  {
    OneQuoteNothing(u, w, PlaceholderText());
    OneQuoteNothing(u, w, Ours(t));
    OneQuoteFinds(u, w);
  }

  lemma NoQuoteForeign(s: Bytes, t: Bytes)
    requires QUOTE !in s
    ensures !NamesForeignNonce(s, t)
  {
    NoQuoteNothing(s, PlaceholderText());
    NoQuoteNothing(s, Ours(t));
  }

  /** What becomes of the text between two quotes and behind them. */
  lemma BetweenSwapped(w: Bytes, z: Bytes, n: Bytes, hex: Bytes)
    requires HexText(hex) && !Occurs(w, NonceSwap.Token(hex))
    ensures var t := NonceSwap.Token(hex); var w', z' := Replaced(w, n, t), Replaced(z, n, t);
      w' != PlaceholderText() && w' != Ours(t) && (Names(w') || Names(z')) <==> NamesBetween(w, z, n)
  {
    NamesSwapped(w, n, hex);
    NamesSwapped(z, n, hex);
    PlaceholderSwapped(w, n, hex);
    OwnSwapped(w, n, hex);
  }

  lemma MiddleLacks(u: Bytes, w: Bytes, z: Bytes, t: Bytes)
    requires t != [] && !Occurs(TwoQuotes(u, w, z), t)
    ensures !Occurs(w, t)
  {
    var s := TwoQuotes(u, w, z);
    assert s[|u| + 1..|u| + 1 + |w|] == w;
    NotInPart(s, |u| + 1, |u| + 1 + |w|, t);
  }

  lemma NamesOtherIff(token: Bytes, n: Bytes, hex: Bytes)
    requires HexText(hex) && QUOTE !in n && !Occurs(token, NonceSwap.Token(hex))
    ensures var t := NonceSwap.Token(hex); NamesForeignNonce(Replaced(token, n, t), t) <==> NamesOther(token, n, t)
  {
    var t := NonceSwap.Token(hex);
    var ps, rs := Split(token, QUOTE), Split(Replaced(token, n, t), QUOTE);
    assert rs == Each(ps, n, t) by {
      TokenHasNeither(hex);
      PiecesReplaced(token, QUOTE, n, t);
    }
    ThreePieces(Replaced(token, n, t));
    if |ps| == 1 {
      NoQuoteForeign(rs[0], t);
    } else if |ps| == 2 {
      OneQuoteForeign(rs[0], rs[1], t);
      NamesSwapped(ps[1], n, hex);
    } else if |ps| == 3 {
      ThreePieces(token);
      MiddleLacks(ps[0], ps[1], ps[2], t);
      TwoQuotesForeign(rs[0], rs[1], rs[2], t);
      BetweenSwapped(ps[1], ps[2], n, hex);
    }
  }

  // ---------------------------------------------------------------- The page

  lemma PolicyNames(name: Bytes)
    requires IsPolicy(name)
    ensures name != MarkName() && name != LengthName()
  {
    assert |MarkName()| == 23 && |LengthName()| == 14;
    assert |B("content-security-policy")| == 23 && |B("content-security-policy-report-only")| == 35;
    assert B("content-security-policy")[0] == 99 && MarkName()[0] == 120;
  }

  /** A nonce as the layer mints it: no quote and no space in it. */
  predicate MintedLike(n: Bytes) { QUOTE !in n && SPACE !in n }

  /** One of the tokens of the policy names another nonce. */
  predicate NamesAnother(v: Bytes, n: Bytes, t: Bytes) {
    exists k :: 0 <= k < |Split(v, SPACE)| && NamesOther(Split(v, SPACE)[k], n, t)
  }

  lemma {:induction false} PiecesLack(v: Bytes, c: byte, t: Bytes)
    requires t != [] && !Occurs(v, t)
    ensures forall k :: 0 <= k < |Split(v, c)| ==> !Occurs(Split(v, c)[k], t)
    decreases |v|
  {
    var i := Find(v, c);
    if i < |v| {
      NotInPart(v, 0, i, t);
      NotInPart(v, i + 1, |v|, t);
      assert v[0..i] == v[..i] && v[i + 1..|v|] == v[i + 1..];
      PiecesLack(v[i + 1..], c, t);
    }
  }

  lemma PolicyNamesIff(v: Bytes, n: Bytes, hex: Bytes)
    requires HexText(hex) && MintedLike(n) && !Occurs(v, NonceSwap.Token(hex))
    ensures var t := NonceSwap.Token(hex); NamesForeignNonce(Replaced(v, n, t), t) <==> NamesAnother(v, n, t)
  {
    var t := NonceSwap.Token(hex);
    var ts, rs := Split(v, SPACE), Split(Replaced(v, n, t), SPACE);
    TokensForeign(Replaced(v, n, t), hex);
    assert rs == Each(ts, n, t) by {
      TokenHasNeither(hex);
      PiecesReplaced(v, SPACE, n, t);
    }
    PiecesLack(v, SPACE, t);
    forall k | 0 <= k < |ts|
      ensures NamesForeignNonce(rs[k], t) <==> NamesOther(ts[k], n, t)
    {
      NamesOtherIff(ts[k], n, hex);
    }
  }

  function NonceText(nonce: Option<Bytes>): Bytes { if nonce.Some? then nonce.value else [] }

  /** The values of a policy once the visitor's nonce is swapped out. */
  lemma SwappedPolicy(p: Page, nonce: Option<Bytes>, hex: Bytes, name: Bytes)
    requires ValidPage(p) && HexText(hex) && IsPolicy(name)
    ensures var t := NonceSwap.Token(hex);
      Values(SwappedOut(p, nonce, t).headers, name) == Each(Values(p.headers, name), NonceText(nonce), t)
  {
    var t := NonceSwap.Token(hex);
    PolicyNames(name);
    NamesAreValid(hex);
    if nonce.Some? {
      ValuesOfSwapped(p, nonce.value, t, name);
      ValuesInsert(Swap(p, nonce.value, t).headers, Header(MarkName(), t), name);
    }
  }

  /** A policy header of the page names another nonce. */
  predicate PolicyNamesAnother(h: Headers, n: Bytes, t: Bytes) {
    exists i :: 0 <= i < |h| && NamesAnother(h[i].value, n, t) &&
      (h[i].name == B("content-security-policy") || h[i].name == B("content-security-policy-report-only"))
  }

  lemma ValueLacks(p: Page, name: Bytes, v: Bytes, t: Bytes)
    requires t != [] && !Holds(p, t) && Carries(p.headers, name, v)
    ensures !Occurs(v, t)
  {
    var i :| 0 <= i < |p.headers| && p.headers[i] == Header(name, v);
  }

  /** A policy header of the stored page comes from one of the page. */
  lemma SwappedFrom(p: Page, nonce: Option<Bytes>, hex: Bytes, name: Bytes, v': Bytes) returns (v: Bytes)
    requires ValidPage(p) && HexText(hex) && IsPolicy(name)
    requires Carries(SwappedOut(p, nonce, NonceSwap.Token(hex)).headers, name, v')
    ensures Carries(p.headers, name, v) && v' == Replaced(v, NonceText(nonce), NonceSwap.Token(hex))
  {
    var t := NonceSwap.Token(hex);
    ValueIff(SwappedOut(p, nonce, t).headers, name, v');
    SwappedPolicy(p, nonce, hex, name);
    var vs := Values(p.headers, name);
    var j :| 0 <= j < |vs| && Each(vs, NonceText(nonce), t)[j] == v';
    v := vs[j];
    ValueIff(p.headers, name, v);
  }

  lemma SwappedTo(p: Page, nonce: Option<Bytes>, hex: Bytes, name: Bytes, v: Bytes)
    requires ValidPage(p) && HexText(hex) && IsPolicy(name) && Carries(p.headers, name, v)
    ensures var t := NonceSwap.Token(hex);
      Carries(SwappedOut(p, nonce, t).headers, name, Replaced(v, NonceText(nonce), t))
  {
    var t := NonceSwap.Token(hex);
    ValueIff(p.headers, name, v);
    SwappedPolicy(p, nonce, hex, name);
    var vs := Values(p.headers, name);
    var j :| 0 <= j < |vs| && vs[j] == v;
    assert Each(vs, NonceText(nonce), t)[j] == Replaced(v, NonceText(nonce), t);
    ValueIff(SwappedOut(p, nonce, t).headers, name, Replaced(v, NonceText(nonce), t));
  }

  lemma CarriedForeign(p: Page, name: Bytes, v: Bytes, t: Bytes)
    requires Carries(p.headers, name, v) && IsPolicy(name) && NamesForeignNonce(v, t)
    ensures Foreign(p, t)
  {
    var i :| 0 <= i < |p.headers| && p.headers[i] == Header(name, v);
  }

  lemma CarriedAnother(h: Headers, name: Bytes, v: Bytes, n: Bytes, t: Bytes)
    requires Carries(h, name, v) && IsPolicy(name) && NamesAnother(v, n, t)
    ensures PolicyNamesAnother(h, n, t)
  {
    var i :| 0 <= i < |h| && h[i] == Header(name, v);
  }

  lemma ForeignComesFrom(p: Page, nonce: Option<Bytes>, hex: Bytes)
    requires ValidPage(p) && HexText(hex) && MintedLike(NonceText(nonce)) && !Holds(p, NonceSwap.Token(hex))
    requires Foreign(SwappedOut(p, nonce, NonceSwap.Token(hex)), NonceSwap.Token(hex))
    ensures PolicyNamesAnother(p.headers, NonceText(nonce), NonceSwap.Token(hex))
  {
    var t, n := NonceSwap.Token(hex), NonceText(nonce);
    var h := SwappedOut(p, nonce, t).headers;
    var i :| 0 <= i < |h| && IsPolicy(h[i].name) && NamesForeignNonce(h[i].value, t);
    var v := SwappedFrom(p, nonce, hex, h[i].name, h[i].value);
    ValueLacks(p, h[i].name, v, t);
    PolicyNamesIff(v, n, hex);
    CarriedAnother(p.headers, h[i].name, v, n, t);
  }

  lemma ForeignGoesTo(p: Page, nonce: Option<Bytes>, hex: Bytes)
    requires ValidPage(p) && HexText(hex) && MintedLike(NonceText(nonce)) && !Holds(p, NonceSwap.Token(hex))
    requires PolicyNamesAnother(p.headers, NonceText(nonce), NonceSwap.Token(hex))
    ensures Foreign(SwappedOut(p, nonce, NonceSwap.Token(hex)), NonceSwap.Token(hex))
  {
    var t, n, h := NonceSwap.Token(hex), NonceText(nonce), p.headers;
    var k :| 0 <= k < |h| && NamesAnother(h[k].value, n, t) &&
      (h[k].name == B("content-security-policy") || h[k].name == B("content-security-policy-report-only"));
    var name, v := h[k].name, h[k].value;
    ValueLacks(p, name, v, t);
    PolicyNamesIff(v, n, hex);
    SwappedTo(p, nonce, hex, name, v);
    CarriedForeign(SwappedOut(p, nonce, t), name, Replaced(v, n, t), t);
  }

  /** A page is kept out of the cache exactly when it holds the layer's token, or a token of one of
      its policies names a nonce that is neither the placeholder nor the visitor's own, and the
      visitor's nonce does not reach into the word `nonce-` there. */
  lemma ForeignNonceIff(p: Page, nonce: Option<Bytes>, hex: Bytes)
    requires ValidPage(p) && HexText(hex) && MintedLike(NonceText(nonce))
    ensures var t := NonceSwap.Token(hex);
      WithoutNonce(p, nonce, t).None? <==> Holds(p, t) || PolicyNamesAnother(p.headers, NonceText(nonce), t)
  {
    var t := NonceSwap.Token(hex);
    if !Holds(p, t) {
      if Foreign(SwappedOut(p, nonce, t), t) {
        ForeignComesFrom(p, nonce, hex);
      } else if PolicyNamesAnother(p.headers, NonceText(nonce), t) {
        ForeignGoesTo(p, nonce, hex);
      }
    }
  }

  lemma TwoQuotesSplit(u: Bytes, w: Bytes, z: Bytes)
    requires QuoteFree(u, w, z)
    ensures Split(TwoQuotes(u, w, z), QUOTE) == [u, w, z]
  {
    SplitCut(u, QUOTE, w + [QUOTE] + z);
    SplitCut(w, QUOTE, z);
    FindNone(z, QUOTE);
  }

  /** A quoted source naming any other nonce keeps its page out, whatever else page and policy hold. */
  lemma ForeignNonceNotStored(p: Page, nonce: Option<Bytes>, hex: Bytes, i: nat, k: nat, u: Bytes, w: Bytes, z: Bytes)
    requires ValidPage(p) && HexText(hex) && MintedLike(NonceText(nonce))
    requires i < |p.headers| && k < |Split(p.headers[i].value, SPACE)|
    requires p.headers[i].name == B("content-security-policy") ||
      p.headers[i].name == B("content-security-policy-report-only")
    requires Split(p.headers[i].value, SPACE)[k] == TwoQuotes(u, w, z) && QuoteFree(u, w, z)
    requires Names(w) && w != PlaceholderText() && w != Ours(NonceText(nonce)) && Untouched(w, NonceText(nonce))
    ensures WithoutNonce(p, nonce, NonceSwap.Token(hex)).None?
  {
    var t, n := NonceSwap.Token(hex), NonceText(nonce);
    TwoQuotesSplit(u, w, z);
    assert NamesOther(Split(p.headers[i].value, SPACE)[k], n, t);
    assert NamesAnother(p.headers[i].value, n, t);
    ForeignNonceIff(p, nonce, hex);
  }

  // ---------------------------------------------------------------- One that is stored

  /** `'nonce-<x>'`. */
  function NonceSource(x: Bytes): Bytes { TwoQuotes([], Ours(x), []) }

  /** A page with nothing but that policy. */
  function PageNaming(x: Bytes): Page { Page(200, [Header(B("content-security-policy"), NonceSource(x))], []) }

  lemma PageNamingValid(x: Bytes)
    requires ValidValue(x)
    ensures ValidPage(PageNaming(x))
  {
    PlainName("content-security-policy");
    assert forall i :: 0 <= i < 6 ==> 32 <= B("nonce-")[i] < 127;
  }

  lemma ReachesIn(x: Bytes)
    ensures !Untouched(Ours(x), B("-") + x)
  {
    var w, n := Ours(x), B("-") + x;
    assert w[5..5 + |n|] == n;
    assert At(w, n, 5);
  }

  lemma WordLacksBoth()
    ensures MintedLike(B("nonce-")) && MintedLike(B("-"))
  {
    TextLacks("nonce-", ' ');
    TextLacks("nonce-", '\'');
    TextLacks("-", ' ');
    TextLacks("-", '\'');
  }

  lemma OverlapIsMissed(x: Bytes, t: Bytes)
    requires MintedLike(x)
    ensures !NamesAnother(NonceSource(x), B("-") + x, t)
  {
    var v := NonceSource(x);
    WordLacksBoth();
    FindNone(v, SPACE);
    assert Split(v, SPACE) == [v];
    TwoQuotesSplit([], Ours(x), []);
    ReachesIn(x);
  }

  /** Someone else's nonce gets into the cache when the visitor's is that one with a `-` before it. */
  lemma OverlappingNonceIsStored(x: Bytes, hex: Bytes)
    requires HexText(hex) && ValidValue(x) && MintedLike(x) && !Holds(PageNaming(x), NonceSwap.Token(hex))
    ensures WithoutNonce(PageNaming(x), Some(B("-") + x), NonceSwap.Token(hex)).Some?
  {
    PageNamingValid(x);
    WordLacksBoth();
    OverlapIsMissed(x, NonceSwap.Token(hex));
    ForeignNonceIff(PageNaming(x), Some(B("-") + x), hex);
  }
}
