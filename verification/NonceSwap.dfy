/** Byte-string replacement, and swapping one visitor's nonce for a token and the token for
    the next visitor's nonce. */
module NonceSwap {
  import opened Options
  import opened Pieces

  predicate At(s: Bytes, t: Bytes, i: nat) { i + |t| <= |s| && s[i..i + |t|] == t }

  /** Where `t` first occurs in `s`, or the end. */
  function First(s: Bytes, t: Bytes): (i: nat)
    requires t != []
    ensures i <= |s| && (i < |s| ==> At(s, t, i))
    ensures forall k: nat :: k < i ==> !At(s, t, k)
    ensures i == |s| ==> forall k: nat :: !At(s, t, k)
  {
    FirstFrom(s, t, 0)
  }

  function FirstFrom(s: Bytes, t: Bytes, from: nat): (i: nat)
    requires t != [] && from <= |s|
    ensures from <= i <= |s| && (i < |s| ==> At(s, t, i))
    ensures forall k: nat :: from <= k < i ==> !At(s, t, k)
    decreases |s| - from
  {
    if from == |s| || At(s, t, from) then from else FirstFrom(s, t, from + 1)
  }

  predicate Occurs(s: Bytes, t: Bytes)
    requires t != []
  {
    First(s, t) < |s|
  }

  /** The stretches between occurrences, taken leftmost first and without overlap. */
  function Segments(s: Bytes, t: Bytes): (segs: seq<Bytes>)
    requires t != []
    ensures segs != []
    decreases |s|
  {
    var i := First(s, t);
    if i == |s| then [s] else [s[..i]] + Segments(s[i + |t|..], t)
  }

  function Weave(segs: seq<Bytes>, t: Bytes): Bytes {
    if segs == [] then [] else if |segs| == 1 then segs[0] else segs[0] + (t + Weave(segs[1..], t))
  }

  /** `s` with every `from` replaced by `to`. */
  function Replaced(s: Bytes, from: Bytes, to: Bytes): Bytes {
    if from == [] then s else Weave(Segments(s, from), to)
  }

  lemma WeaveCons(seg: Bytes, rest: seq<Bytes>, t: Bytes)
    requires rest != []
    ensures Weave([seg] + rest, t) == seg + (t + Weave(rest, t))
  {
    assert ([seg] + rest)[1..] == rest;
  }

  lemma SegmentsCut(s: Bytes, t: Bytes, i: nat, seg: Bytes, rest: Bytes)
    requires t != [] && First(s, t) == i < |s| && s[..i] == seg && s[i + |t|..] == rest
    ensures Segments(s, t) == [seg] + Segments(rest, t)
  {
  }

  lemma FirstIs(s: Bytes, t: Bytes, i: nat)
    requires t != [] && At(s, t, i) && forall k: nat :: k < i ==> !At(s, t, k)
    ensures First(s, t) == i && i < |s|
  {
  }

  lemma ReplacedNothing(s: Bytes, from: Bytes, to: Bytes)
    requires from == [] || !Occurs(s, from)
    ensures Replaced(s, from, to) == s
  {
  }

  // ---------------------------------------------------------------- The loop

  lemma ShiftedAt(hay: Bytes, from: Bytes, copied: nat, k: nat)
    requires copied <= |hay|
    ensures At(hay[copied..], from, k) <==> At(hay, from, copied + k)
  {
    if copied + k + |from| <= |hay| {
      assert hay[copied..][k..k + |from|] == hay[copied + k..copied + k + |from|];
    }
  }

  lemma FirstAfter(hay: Bytes, from: Bytes, copied: nat, i: nat)
    requires from != [] && copied <= i && i + |from| <= |hay| && At(hay, from, i)
    requires forall k: nat :: copied <= k < i ==> !At(hay, from, k)
    ensures First(hay[copied..], from) == i - copied < |hay[copied..]|
  {
    var s := hay[copied..];
    forall k: nat
      ensures At(s, from, k) <==> At(hay, from, copied + k)
    {
      ShiftedAt(hay, from, copied, k);
    }
    FirstIs(s, from, i - copied);
  }

  lemma NoneAfter(hay: Bytes, from: Bytes, copied: nat)
    requires from != [] && copied <= |hay|
    requires forall k: nat :: copied <= k ==> !At(hay, from, k)
    ensures First(hay[copied..], from) == |hay[copied..]|
  {
    ShiftedAt(hay, from, copied, First(hay[copied..], from));
  }

  lemma ReplaceStep(hay: Bytes, from: Bytes, to: Bytes, copied: nat, i: nat)
    requires from != [] && copied <= i && i + |from| <= |hay| && At(hay, from, i)
    requires forall k: nat :: copied <= k < i ==> !At(hay, from, k)
    ensures Weave(Segments(hay[copied..], from), to) ==
            hay[copied..i] + to + Weave(Segments(hay[i + |from|..], from), to)
  {
    FirstAfter(hay, from, copied, i);
    var s, seg, rest := hay[copied..], hay[copied..i], hay[i + |from|..];
    assert s[..i - copied] == seg && s[i - copied + |from|..] == rest;
    SegmentsCut(s, from, i - copied, seg, rest);
    WeaveCons(seg, Segments(rest, from), to);
    var tail := Weave(Segments(rest, from), to);
    assert seg + (to + tail) == seg + to + tail;
  }

  /** The next occurrence at or after `c` is at `i`. */
  ghost predicate NextAt(hay: Bytes, from: Bytes, c: nat, i: nat) {
    c <= i && At(hay, from, i) && forall k: nat :: c <= k < i ==> !At(hay, from, k)
  }

  /** `rest(c)` is what is still to be written once everything before `c` is. */
  ghost predicate RemainsAt(hay: Bytes, from: Bytes, to: Bytes, rest: nat -> Bytes, c: nat, i: nat) {
    NextAt(hay, from, c, i) ==> rest(c) == hay[c..i] + to + rest(i + |from|)
  }

  ghost predicate Remaining(hay: Bytes, from: Bytes, to: Bytes, rest: nat -> Bytes) {
    forall c: nat, i: nat :: RemainsAt(hay, from, to, rest, c, i)
  }

  lemma Written(out: Bytes, piece: Bytes, to: Bytes, tail: Bytes)
    ensures out + (piece + to + tail) == out + piece + to + tail
  {
  }

  /** The scan of `replace_bytes`: what it wrote, and how far it copied. */
  method Scan(hay: Bytes, from: Bytes, to: Bytes, ghost rest: nat -> Bytes) returns (out: Bytes, copied: nat)
    requires from != [] && Remaining(hay, from, to, rest)
    ensures copied <= |hay| && (copied == 0 ==> out == [])
    ensures forall k: nat :: copied <= k ==> !At(hay, from, k)
    ensures rest(0) == out + rest(copied)
    ensures copied > 0 ==> exists k: nat :: At(hay, from, k)
  {
    out, copied := [], 0;
    var i: nat := 0;
    while i + |from| <= |hay|
      invariant copied <= i <= |hay|
      invariant forall k: nat :: copied <= k < i ==> !At(hay, from, k)
      invariant rest(0) == out + rest(copied)
      invariant copied == 0 ==> out == []
      invariant copied > 0 ==> exists k: nat :: At(hay, from, k)
    {
      if At(hay, from, i) {
        assert RemainsAt(hay, from, to, rest, copied, i);
        Written(out, hay[copied..i], to, rest(i + |from|));
        out := out + hay[copied..i] + to;
        i := i + |from|;
        copied := i;
      } else {
        i := i + 1;
      }
    }
  }

  function RestAt(hay: Bytes, from: Bytes, to: Bytes, c: nat): Bytes
    requires from != []
  {
    if c <= |hay| then Weave(Segments(hay[c..], from), to) else []
  }

  function RestOf(hay: Bytes, from: Bytes, to: Bytes): nat -> Bytes
    requires from != []
  {
    (c: nat) => RestAt(hay, from, to, c)
  }

  lemma RestStep(hay: Bytes, from: Bytes, to: Bytes, c: nat, i: nat)
    requires from != [] && NextAt(hay, from, c, i)
    ensures RestAt(hay, from, to, c) == hay[c..i] + to + RestAt(hay, from, to, i + |from|)
  {
    ReplaceStep(hay, from, to, c, i);
    var x, y := Weave(Segments(hay[c..], from), to), Weave(Segments(hay[i + |from|..], from), to);
    assert RestAt(hay, from, to, c) == x;
    assert RestAt(hay, from, to, i + |from|) == y;
    assert x == hay[c..i] + to + y;
  }

  lemma RestOfRemains(hay: Bytes, from: Bytes, to: Bytes, c: nat, i: nat)
    requires from != []
    ensures RemainsAt(hay, from, to, RestOf(hay, from, to), c, i)
  {
    if NextAt(hay, from, c, i) {
      RestStep(hay, from, to, c, i);
      assert RestOf(hay, from, to)(c) == RestAt(hay, from, to, c);
      assert RestOf(hay, from, to)(i + |from|) == RestAt(hay, from, to, i + |from|);
    }
  }

  lemma RestRemains(hay: Bytes, from: Bytes, to: Bytes)
    requires from != []
    ensures Remaining(hay, from, to, RestOf(hay, from, to))
  {
    forall c: nat, i: nat
      ensures RemainsAt(hay, from, to, RestOf(hay, from, to), c, i)
    {
      RestOfRemains(hay, from, to, c, i);
    }
  }

  lemma RestAtEnds(hay: Bytes, from: Bytes, to: Bytes, copied: nat)
    requires from != [] && copied <= |hay| && forall k: nat :: copied <= k ==> !At(hay, from, k)
    ensures RestOf(hay, from, to)(0) == Replaced(hay, from, to)
    ensures RestOf(hay, from, to)(copied) == hay[copied..]
  {
    assert hay[0..] == hay;
    NoneAfter(hay, from, copied);
  }

  /** `replace_bytes`: `None` when nothing occurs, else every `from` replaced, left to right. */
  method ReplaceBytes(hay: Bytes, from: Bytes, to: Bytes) returns (r: Option<Bytes>)
    ensures r == if from == [] || !Occurs(hay, from) then None else Some(Replaced(hay, from, to))
  {
    if from == [] {
      return None;
    }
    RestRemains(hay, from, to);
    var out, copied := Scan(hay, from, to, RestOf(hay, from, to));
    if copied == 0 {
      return None;
    }
    RestAtEnds(hay, from, to, copied);
    r := Some(out + hay[copied..]);
  }

  // ---------------------------------------------------------------- Swapping back

  /** Woven with `t`, the segments can be told apart again: `t` does not occur in the last,
      nor anywhere before the one woven in after each of the others. */
  predicate Clear(segs: seq<Bytes>, t: Bytes)
    requires t != []
  {
    && segs != [] && !Occurs(segs[|segs| - 1], t)
    && forall i :: 0 <= i < |segs| - 1 ==> First(segs[i] + t, t) == |segs[i]|
  }

  lemma FirstInWeave(seg: Bytes, t: Bytes, rest: Bytes)
    requires t != [] && First(seg + t, t) == |seg|
    ensures First(seg + (t + rest), t) == |seg|
  {
    var s := seg + (t + rest);
    assert s[|seg|..|seg| + |t|] == t;
    forall k: nat | k < |seg|
      ensures !At(s, t, k)
    {
      assert s[k..k + |t|] == (seg + t)[k..k + |t|];
      assert !At(seg + t, t, k);
    }
    FirstIs(s, t, |seg|);
  }

  lemma SegmentsOfStep(seg: Bytes, rest: Bytes, t: Bytes)
    requires t != [] && First(seg + t, t) == |seg|
    ensures Segments(seg + (t + rest), t) == [seg] + Segments(rest, t)
  {
    var s := seg + (t + rest);
    FirstInWeave(seg, t, rest);
    assert s[..|seg|] == seg && s[|seg| + |t|..] == rest;
    SegmentsCut(s, t, |seg|, seg, rest);
  }

  lemma ClearTail(segs: seq<Bytes>, t: Bytes)
    requires t != [] && Clear(segs, t) && |segs| > 1
    ensures Clear(segs[1..], t) && First(segs[0] + t, t) == |segs[0]|
  {
  }

  lemma {:induction false} SegmentsOfWeave(segs: seq<Bytes>, t: Bytes)
    requires t != [] && Clear(segs, t)
    ensures Segments(Weave(segs, t), t) == segs
  {
    if |segs| > 1 {
      var seg, tail := segs[0], segs[1..];
      ClearTail(segs, t);
      assert Segments(Weave(tail, t), t) == tail by { SegmentsOfWeave(tail, t); }
      assert Segments(seg + (t + Weave(tail, t)), t) == [seg] + tail by { SegmentsOfStep(seg, Weave(tail, t), t); }
      assert Weave(segs, t) == seg + (t + Weave(tail, t));
      assert [seg] + tail == segs;
    }
  }

  /** When the text between the nonces is clear of the token, swapping the first nonce for the
      token and the token for another nonce is swapping the nonces directly. */
  lemma SwapBack(s: Bytes, nonce: Bytes, token: Bytes, other: Bytes)
    requires nonce != [] && token != [] && Clear(Segments(s, nonce), token)
    ensures Replaced(Replaced(s, nonce, token), token, other) == Replaced(s, nonce, other)
  {
    SegmentsOfWeave(Segments(s, nonce), token);
  }

  // ---------------------------------------------------------------- The stored token

  predicate Hex(b: byte) { 48 <= b <= 57 || 97 <= b <= 102 }

  /** `__RUSTANGO_CACHED_NONCE_{hex}__`, the hex part random. */
  function Token(hex: Bytes): Bytes { Lead() + hex + B("__") }

  predicate HexText(hex: Bytes) { hex != [] && forall i :: 0 <= i < |hex| ==> Hex(hex[i]) }

  lemma LeadHasNoHex(i: nat)
    requires i < |Lead()|
    ensures !Hex(Lead()[i])
  {
  }

  function Lead(): Bytes { B("__RUSTANGO_CACHED_NONCE_") }

  /** A token carries its hex part with it. */
  lemma HexInside(s: Bytes, hex: Bytes, k: nat, j: nat)
    requires At(s, Token(hex), k) && j < |hex|
    ensures s[k + |Lead()| + j] == hex[j]
  {
    assert s[k..k + |Token(hex)|][|Lead()| + j] == Token(hex)[|Lead()| + j];
  }

  /** A token found early would put the hex part where it cannot be. */
  lemma NoEarlyToken(seg: Bytes, hex: Bytes, k: nat)
    requires HexText(hex) && !Occurs(seg, hex) && k < |seg|
    ensures !At(seg + Token(hex), Token(hex), k)
  {
    var t, s := Token(hex), seg + Token(hex);
    var at := k + |Lead()|;
    if At(s, t, k) {
      forall j | 0 <= j < |hex|
        ensures s[at + j] == hex[j]
      {
        HexInside(s, hex, k, j);
      }
      if at + |hex| <= |seg| {
        assert seg[at..at + |hex|] == hex;
        assert At(seg, hex, at);
      } else {
        var q := if at < |seg| then |seg| else at;
        assert Hex(hex[q - at]);
        assert s[q] == hex[q - at];
        assert s[q] == Lead()[q - |seg|];
        LeadHasNoHex(q - |seg|);
      }
    }
  }

  lemma TokenNotInside(seg: Bytes, hex: Bytes)
    requires HexText(hex) && !Occurs(seg, hex)
    ensures !Occurs(seg, Token(hex)) && First(seg + Token(hex), Token(hex)) == |seg|
  {
    var t := Token(hex);
    forall k: nat | k < |seg|
      ensures !At(seg + t, t, k) && !At(seg, t, k)
    {
      assert k + |t| <= |seg| ==> (seg + t)[k..k + |t|] == seg[k..k + |t|];
      NoEarlyToken(seg, hex, k);
    }
    assert (seg + t)[|seg|..|seg| + |t|] == t;
    FirstIs(seg + t, t, |seg|);
  }

  lemma OccursInPart(s: Bytes, i: nat, j: nat, t: Bytes)
    requires t != [] && i <= j <= |s| && Occurs(s[i..j], t)
    ensures Occurs(s, t)
  {
    var k := First(s[i..j], t);
    assert s[i..j][k..k + |t|] == s[i + k..i + k + |t|];
    assert At(s, t, i + k);
  }

  /** Text without `hex` in it cannot confuse `t`. */
  ghost predicate Guards(hex: Bytes, t: Bytes)
    requires hex != [] && t != []
  {
    forall seg: Bytes :: !Occurs(seg, hex) ==> !Occurs(seg, t) && First(seg + t, t) == |seg|
  }

  lemma TokenGuards(hex: Bytes)
    requires HexText(hex)
    ensures Guards(hex, Token(hex))
  {
    forall seg: Bytes | !Occurs(seg, hex)
      ensures !Occurs(seg, Token(hex)) && First(seg + Token(hex), Token(hex)) == |seg|
    {
      TokenNotInside(seg, hex);
    }
  }

  lemma NotInPart(s: Bytes, i: nat, j: nat, t: Bytes)
    requires t != [] && i <= j <= |s| && !Occurs(s, t)
    ensures !Occurs(s[i..j], t)
  {
    if Occurs(s[i..j], t) {
      OccursInPart(s, i, j, t);
    }
  }

  lemma {:induction false} SegmentsLack(s: Bytes, nonce: Bytes, hex: Bytes)
    requires nonce != [] && hex != [] && !Occurs(s, hex)
    ensures forall k :: 0 <= k < |Segments(s, nonce)| ==> !Occurs(Segments(s, nonce)[k], hex)
    decreases |s|
  {
    var i := First(s, nonce);
    if i < |s| {
      var seg, rest := s[..i], s[i + |nonce|..];
      NotInPart(s, 0, i, hex);
      NotInPart(s, i + |nonce|, |s|, hex);
      assert s[0..i] == seg && s[i + |nonce|..|s|] == rest;
      SegmentsLack(rest, nonce, hex);
      SegmentsCut(s, nonce, i, seg, rest);
    }
  }

  lemma SegmentsClear(s: Bytes, nonce: Bytes, hex: Bytes, t: Bytes)
    requires nonce != [] && hex != [] && t != [] && Guards(hex, t) && !Occurs(s, hex)
    ensures Clear(Segments(s, nonce), t)
  {
    SegmentsLack(s, nonce, hex);
  }

  /** Through the stored token and back equals swapping the nonces directly, whenever the
      token's random hex part is not in the text. */
  lemma ThroughToken(s: Bytes, nonce: Bytes, hex: Bytes, other: Bytes)
    requires HexText(hex) && !Occurs(s, hex)
    ensures Replaced(Replaced(s, nonce, Token(hex)), Token(hex), other) == Replaced(s, nonce, other)
  {
    if nonce == [] {
      TokenNotInside(s, hex);
      ReplacedNothing(s, Token(hex), other);
    } else {
      TokenGuards(hex);
      SegmentsClear(s, nonce, hex, Token(hex));
      SwapBack(s, nonce, Token(hex), other);
    }
  }
}
