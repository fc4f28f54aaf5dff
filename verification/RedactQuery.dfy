/** Hiding the values of secret parameters in a logged query string. */
module RedactQuery {
  import opened Pieces

  const PERCENT: byte := 37
  const PLUS: byte := 43

  /** Which names are secret, and how an escaped name is read. */
  datatype Names = Names(secret: Bytes -> bool, decode: Bytes -> Bytes)

  function Key(pair: Bytes): Bytes { pair[..Find(pair, EQUALS)] }

  /** A pair with a value whose decoded name is secret. */
  predicate Hidden(pair: Bytes, names: Names) {
    && EQUALS in pair
    && var k := Key(pair);
       names.secret(if PERCENT in k || PLUS in k then names.decode(k) else k)
  }

  function Mask(): Bytes { B("=[redacted]") }

  function Shown(pair: Bytes, names: Names): Bytes {
    if Hidden(pair, names) then Key(pair) + Mask() else pair
  }

  function ShowEach(pairs: seq<Bytes>, names: Names): seq<Bytes> {
    seq(|pairs|, i requires 0 <= i < |pairs| => Shown(pairs[i], names))
  }

  /** Split at `&`, hide, join. */
  function Redacted(raw: Bytes, names: Names): Bytes {
    Join(ShowEach(Split(raw, AMPERSAND), names), AMPERSAND)
  }

  // ---------------------------------------------------------------- The two-phase pass

  /** The pieces, each with its separator after it. */
  function Closed(pieces: seq<Bytes>): Bytes {
    if pieces == [] then [] else Closed(pieces[..|pieces| - 1]) + pieces[|pieces| - 1] + [AMPERSAND]
  }

  lemma {:induction false} JoinCut(a: seq<Bytes>, b: seq<Bytes>)
    requires b != []
    ensures Join(a + b, AMPERSAND) == Closed(a) + Join(b, AMPERSAND)
    decreases |a|
  {
    if a == [] {
      assert a + b == b;
    } else {
      var init, last := a[..|a| - 1], a[|a| - 1];
      assert a + b == init + ([last] + b);
      JoinCut(init, [last] + b);
      assert ([last] + b)[1..] == b;
    }
  }

  lemma ClosedMore(pieces: seq<Bytes>, i: nat)
    requires i < |pieces|
    ensures Closed(pieces[..i + 1]) == Closed(pieces[..i]) + pieces[i] + [AMPERSAND]
  {
    assert pieces[..i + 1][..i] == pieces[..i];
  }

  lemma CutJoined(pieces: seq<Bytes>, raw: Bytes, i: nat)
    requires i < |pieces| && Free(pieces, AMPERSAND) && raw == Join(pieces, AMPERSAND)
    ensures var offset := |Closed(pieces[..i])|;
      offset <= |raw| && raw[..offset] == Closed(pieces[..i]) && raw[offset..] == Join(pieces[i..], AMPERSAND)
  {
    JoinCut(pieces[..i], pieces[i..]);
    assert pieces[..i] + pieces[i..] == pieces;
  }

  /** Cutting a query after some of its pairs leaves the others. */
  lemma CutAt(raw: Bytes, pieces: seq<Bytes>, i: nat)
    requires pieces == Split(raw, AMPERSAND) && i < |pieces|
    ensures var offset := |Closed(pieces[..i])|;
      offset <= |raw| && raw[..offset] == Closed(pieces[..i]) && Split(raw[offset..], AMPERSAND) == pieces[i..]
  {
    JoinOfSplit(raw, AMPERSAND);
    CutJoined(pieces, raw, i);
    assert Free(pieces[i..], AMPERSAND);
    SplitOfJoin(pieces[i..], AMPERSAND);
  }

  /** The first hidden pair, or past the last. */
  function FirstAt(pieces: seq<Bytes>, names: Names): (i: nat)
    ensures i <= |pieces| && (i < |pieces| ==> Hidden(pieces[i], names))
    ensures forall k :: 0 <= k < i ==> !Hidden(pieces[k], names)
  {
    if pieces == [] || Hidden(pieces[0], names) then 0 else 1 + FirstAt(pieces[1..], names)
  }

  lemma FirstAtIs(pieces: seq<Bytes>, names: Names, i: nat)
    requires i <= |pieces| && (forall k :: 0 <= k < i ==> !Hidden(pieces[k], names))
    requires i < |pieces| ==> Hidden(pieces[i], names)
    ensures FirstAt(pieces, names) == i
  {
  }

  /** Where the first hidden pair starts, if there is one. */
  method FirstHidden(raw: Bytes, names: Names) returns (found: bool, offset: nat)
    ensures var pieces := Split(raw, AMPERSAND);
      var i := FirstAt(pieces, names);
      found == (i < |pieces|) && offset == |Closed(pieces[..i])|
  {
    var pieces := Split(raw, AMPERSAND);
    var n := 0;
    offset := 0;
    while n < |pieces| && !Hidden(pieces[n], names)
      invariant n <= |pieces| && offset == |Closed(pieces[..n])|
      invariant forall k :: 0 <= k < n ==> !Hidden(pieces[k], names)
    {
      ClosedMore(pieces, n);
      offset := offset + |pieces[n]| + 1;
      n := n + 1;
    }
    FirstAtIs(pieces, names, n);
    found := n < |pieces|;
  }

  lemma JoinMore(pieces: seq<Bytes>, i: nat)
    requires 0 < i < |pieces|
    ensures Join(pieces[..i + 1], AMPERSAND) == Join(pieces[..i], AMPERSAND) + [AMPERSAND] + pieces[i]
  {
    JoinCut(pieces[..i], [pieces[i]]);
    assert pieces[..i + 1] == pieces[..i] + [pieces[i]];
    JoinCut(pieces[..i - 1], [pieces[i - 1]]);
    assert pieces[..i] == pieces[..i - 1] + [pieces[i - 1]];
    ClosedMore(pieces, i - 1);
  }

  lemma ShowRest(pieces: seq<Bytes>, i: nat, names: Names)
    requires i < |pieces| && forall k :: 0 <= k < i ==> !Hidden(pieces[k], names)
    ensures ShowEach(pieces, names) == pieces[..i] + ShowEach(pieces[i..], names)
  {
  }

  method ShowPair(pair: Bytes, first: bool, names: Names) returns (text: Bytes)
    requires first ==> Hidden(pair, names)
    ensures text == Shown(pair, names)
  {
    if EQUALS in pair && (first || Hidden(pair, names)) {
      text := Key(pair) + Mask();
    } else {
      text := pair;
    }
  }

  /** Pair by pair onto `start`; the first is known to be hidden. */
  method ShowPairs(start: Bytes, pairs: seq<Bytes>, names: Names) returns (out: Bytes)
    requires pairs != [] && Hidden(pairs[0], names)
    ensures out == start + Join(ShowEach(pairs, names), AMPERSAND)
  {
    ghost var shown := ShowEach(pairs, names);
    var text := ShowPair(pairs[0], true, names);
    out := start + text;
    assert Join(shown[..1], AMPERSAND) == text;
    var j := 1;
    while j < |pairs|
      invariant 1 <= j <= |pairs| == |shown| && out == start + Join(shown[..j], AMPERSAND)
    {
      JoinMore(shown, j);
      text := ShowPair(pairs[j], false, names);
      assert text == shown[j];
      out := out + [AMPERSAND] + text;
      j := j + 1;
    }
    assert shown[..j] == shown;
  }

  lemma NothingHidden(raw: Bytes, names: Names)
    requires forall k :: 0 <= k < |Split(raw, AMPERSAND)| ==> !Hidden(Split(raw, AMPERSAND)[k], names)
    ensures Redacted(raw, names) == raw
  {
    JoinOfSplit(raw, AMPERSAND);
    assert ShowEach(Split(raw, AMPERSAND), names) == Split(raw, AMPERSAND);
  }

  lemma RedactedFrom(raw: Bytes, names: Names, i: nat)
    requires i < |Split(raw, AMPERSAND)| && forall k :: 0 <= k < i ==> !Hidden(Split(raw, AMPERSAND)[k], names)
    ensures var pieces := Split(raw, AMPERSAND);
      Redacted(raw, names) == Closed(pieces[..i]) + Join(ShowEach(pieces[i..], names), AMPERSAND)
  {
    var pieces := Split(raw, AMPERSAND);
    ShowRest(pieces, i, names);
    JoinCut(pieces[..i], ShowEach(pieces[i..], names));
  }

  /** `redact_query`: copies up to the first hidden pair, then goes pair by pair. */
  method Redact(raw: Bytes, names: Names) returns (out: Bytes, borrowed: bool)
    ensures out == Redacted(raw, names)
    ensures borrowed <==> forall k :: 0 <= k < |Split(raw, AMPERSAND)| ==> !Hidden(Split(raw, AMPERSAND)[k], names)
    ensures borrowed ==> out == raw
  {
    var found, offset := FirstHidden(raw, names);
    ghost var i := FirstAt(Split(raw, AMPERSAND), names);
    if !found {
      NothingHidden(raw, names);
      return raw, true;
    }
    CutAt(raw, Split(raw, AMPERSAND), i);
    RedactedFrom(raw, names, i);
    out := ShowPairs(raw[..offset], Split(raw[offset..], AMPERSAND), names);
    borrowed := false;
  }

  // ---------------------------------------------------------------- What it hides and keeps

  lemma MaskFree()
    ensures AMPERSAND !in Mask() && Mask()[0] == EQUALS
  {
  }

  lemma ShownFree(pair: Bytes, names: Names)
    requires AMPERSAND !in pair
    ensures AMPERSAND !in Shown(pair, names)
  {
    MaskFree();
  }

  /** The pairs of the redacted query are the pairs, shown. */
  lemma SplitOfRedacted(raw: Bytes, names: Names)
    ensures Split(Redacted(raw, names), AMPERSAND) == ShowEach(Split(raw, AMPERSAND), names)
  {
    var pieces := Split(raw, AMPERSAND);
    JoinOfSplit(raw, AMPERSAND);
    forall i | 0 <= i < |pieces|
      ensures AMPERSAND !in ShowEach(pieces, names)[i]
    {
      ShownFree(pieces[i], names);
    }
    SplitOfJoin(ShowEach(pieces, names), AMPERSAND);
  }

  /** A masked pair has the name it had. */
  lemma MaskedKey(k: Bytes)
    requires EQUALS !in k
    ensures Key(k + Mask()) == k && EQUALS in k + Mask()
  {
    MaskFree();
    var s := k + Mask();
    assert s[|k|] == EQUALS && s[..|k|] == k;
    FindAt(s, EQUALS, |k|);
  }

  lemma ShownTwice(pair: Bytes, names: Names)
    ensures Hidden(Shown(pair, names), names) <==> Hidden(pair, names)
    ensures Shown(Shown(pair, names), names) == Shown(pair, names)
  {
    if Hidden(pair, names) {
      MaskedKey(Key(pair));
    }
  }

  lemma RedactedTwice(raw: Bytes, names: Names)
    ensures Redacted(Redacted(raw, names), names) == Redacted(raw, names)
  {
    var pieces := Split(raw, AMPERSAND);
    SplitOfRedacted(raw, names);
    forall i | 0 <= i < |pieces|
      ensures Shown(ShowEach(pieces, names)[i], names) == ShowEach(pieces, names)[i]
    {
      ShownTwice(pieces[i], names);
    }
    assert ShowEach(ShowEach(pieces, names), names) == ShowEach(pieces, names);
  }

  /** Every pair that is not hidden is kept byte for byte, in its place. */
  lemma OthersKept(raw: Bytes, names: Names, i: nat)
    requires i < |Split(raw, AMPERSAND)|
    ensures var before, after := Split(raw, AMPERSAND), Split(Redacted(raw, names), AMPERSAND);
      && |after| == |before|
      && after[i] == (if Hidden(before[i], names) then Key(before[i]) + Mask() else before[i])
  {
    SplitOfRedacted(raw, names);
  }

  /** The pairs are the same, but for values of hidden ones. */
  predicate Alike(a: Bytes, b: Bytes, names: Names) {
    a == b || (Hidden(a, names) && Hidden(b, names) && Key(a) == Key(b))
  }

  lemma ShownAlike(a: Bytes, b: Bytes, names: Names)
    ensures Shown(a, names) == Shown(b, names) <==> Alike(a, b, names)
  {
    ShownTwice(a, names);
    ShownTwice(b, names);
    if Hidden(a, names) {
      MaskedKey(Key(a));
    }
    if Hidden(b, names) {
      MaskedKey(Key(b));
    }
  }

  predicate AllAlike(a: seq<Bytes>, b: seq<Bytes>, names: Names) {
    |a| == |b| && forall i :: 0 <= i < |a| ==> Alike(a[i], b[i], names)
  }

  /** Two queries look the same in the log exactly when they differ only in the values of hidden
      pairs: nothing of those values gets through, and nothing else is lost. */
  lemma SameRedactedIff(a: Bytes, b: Bytes, names: Names)
    ensures Redacted(a, names) == Redacted(b, names) <==> AllAlike(Split(a, AMPERSAND), Split(b, AMPERSAND), names)
  {
    var p, q := Split(a, AMPERSAND), Split(b, AMPERSAND);
    SplitOfRedacted(a, names);
    SplitOfRedacted(b, names);
    var x, y := ShowEach(p, names), ShowEach(q, names);
    forall i | 0 <= i < |p| && i < |q|
      ensures x[i] == y[i] <==> Alike(p[i], q[i], names)
    {
      ShownAlike(p[i], q[i], names);
    }
    if AllAlike(p, q, names) {
      assert x == y;
    }
  }

  // ---------------------------------------------------------------- Which values it hides

  /** Each side of an `&` is redacted by itself. */
  lemma RedactedSides(a: Bytes, b: Bytes, names: Names)
    ensures Redacted(a + [AMPERSAND] + b, names) == Redacted(a, names) + [AMPERSAND] + Redacted(b, names)
  {
    var x, y := Split(a, AMPERSAND), Split(b, AMPERSAND);
    SplitConcat(a, AMPERSAND, b);
    assert ShowEach(x + y, names) == ShowEach(x, names) + ShowEach(y, names);
    JoinConcat(ShowEach(x, names), ShowEach(y, names), AMPERSAND);
  }

  lemma RedactedOne(pair: Bytes, names: Names)
    requires AMPERSAND !in pair
    ensures Redacted(pair, names) == Shown(pair, names)
  {
    FindNone(pair, AMPERSAND);
    assert Split(pair, AMPERSAND) == [pair];
    assert ShowEach([pair], names) == [Shown(pair, names)];
  }

  /** The value of a pair is hidden exactly when its name is secret: as it stands, or decoded when
      it holds a `%` or a `+`. With `RedactedSides` and `RedactedBare` this says what becomes of
      every query. */
  lemma RedactedPair(k: Bytes, v: Bytes, names: Names)
    requires AMPERSAND !in k && AMPERSAND !in v && EQUALS !in k
    ensures PERCENT !in k && PLUS !in k ==>
      Redacted(k + [EQUALS] + v, names) == if names.secret(k) then k + B("=[redacted]") else k + [EQUALS] + v
    ensures PERCENT in k || PLUS in k ==>
      Redacted(k + [EQUALS] + v, names) ==
      if names.secret(names.decode(k)) then k + B("=[redacted]") else k + [EQUALS] + v
  {
    var pair := k + [EQUALS] + v;
    assert pair[..|k|] == k && pair[|k|] == EQUALS;
    FindAt(pair, EQUALS, |k|);
    RedactedOne(pair, names);
  }

  /** A pair without `=` has no value to hide. */
  lemma RedactedBare(pair: Bytes, names: Names)
    requires AMPERSAND !in pair && EQUALS !in pair
    ensures Redacted(pair, names) == pair
  {
    RedactedOne(pair, names);
  }
}
