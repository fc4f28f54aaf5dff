/** Bytes, and texts cut at a separator. Texts are their UTF-8 bytes. */
module Pieces {

  newtype byte = b: int | 0 <= b < 256

  type Bytes = seq<byte>

  /** The bytes of an ASCII literal. */
  function B(s: string): Bytes {
    seq(|s|, i requires 0 <= i < |s| => ((s[i] as int) % 256) as byte)
  }

  const AMPERSAND: byte := 38
  const COLON: byte := 58
  const EQUALS: byte := 61
  const BAR: byte := 124
  const HASH: byte := 35

  /** Where `c` first occurs in `s`, or the end. */
  function Find<T(==)>(s: seq<T>, c: T): (i: nat)
    ensures i <= |s| && c !in s[..i] && (i < |s| ==> s[i] == c)
  {
    if s == [] || s[0] == c then 0
    else
      var i := Find(s[1..], c) + 1;
      assert s[..i] == [s[0]] + s[1..][..i - 1];
      i
  }

  /** The pieces between the occurrences of `c`; always at least one. */
  function Split<T(==)>(s: seq<T>, c: T): (pieces: seq<seq<T>>)
    ensures |pieces| >= 1
    decreases |s|
  {
    var i := Find(s, c);
    if i == |s| then [s] else [s[..i]] + Split(s[i + 1..], c)
  }

  function Join<T>(pieces: seq<seq<T>>, c: T): seq<T> {
    if pieces == [] then []
    else if |pieces| == 1 then pieces[0]
    else pieces[0] + [c] + Join(pieces[1..], c)
  }

  predicate Free<T(==)>(pieces: seq<seq<T>>, c: T) {
    forall i :: 0 <= i < |pieces| ==> c !in pieces[i]
  }

  lemma FindAt<T>(s: seq<T>, c: T, i: nat)
    requires i < |s| && s[i] == c && c !in s[..i]
    ensures Find(s, c) == i
  {
  }

  lemma FindNone<T>(s: seq<T>, c: T)
    requires c !in s
    ensures Find(s, c) == |s|
  {
  }

  lemma {:induction false} JoinOfSplit<T>(s: seq<T>, c: T)
    ensures Join(Split(s, c), c) == s && Free(Split(s, c), c)
    decreases |s|
  {
    var i := Find(s, c);
    if i < |s| {
      JoinOfSplit(s[i + 1..], c);
      assert Split(s, c)[1..] == Split(s[i + 1..], c);
      assert s == s[..i] + [c] + s[i + 1..];
    } else {
      assert s[..i] == s;
    }
  }

  lemma SplitCut<T>(a: seq<T>, c: T, rest: seq<T>)
    requires c !in a
    ensures Split(a + [c] + rest, c) == [a] + Split(rest, c)
  {
    var s := a + [c] + rest;
    assert s[..|a|] == a && s[|a| + 1..] == rest;
    FindAt(s, c, |a|);
  }

  lemma {:induction false} SplitOfJoin<T>(pieces: seq<seq<T>>, c: T)
    requires pieces != [] && Free(pieces, c)
    ensures Split(Join(pieces, c), c) == pieces
  {
    if |pieces| == 1 {
      FindNone(pieces[0], c);
    } else {
      SplitCut(pieces[0], c, Join(pieces[1..], c));
      SplitOfJoin(pieces[1..], c);
      assert pieces == [pieces[0]] + pieces[1..];
    }
  }

  lemma Regrouped<T>(x: seq<T>, c: T, y: seq<T>, z: seq<T>)
    ensures x + [c] + (y + [c] + z) == (x + [c] + y) + [c] + z
  {
  }

  lemma {:induction false} JoinConcat<T>(p: seq<seq<T>>, q: seq<seq<T>>, c: T)
    requires p != [] && q != []
    ensures Join(p + q, c) == Join(p, c) + [c] + Join(q, c)
    decreases |p|
  {
    var all := p + q;
    assert all[0] == p[0] && all[1..] == p[1..] + q;
    if |p| == 1 {
      assert p[1..] + q == q;
    } else {
      JoinConcat(p[1..], q, c);
      Regrouped(p[0], c, Join(p[1..], c), Join(q, c));
    }
  }

  /** A separator cuts wherever it stands. */
  lemma SplitConcat<T>(a: seq<T>, c: T, b: seq<T>)
    ensures Split(a + [c] + b, c) == Split(a, c) + Split(b, c)
  {
    var p, q := Split(a, c), Split(b, c);
    JoinOfSplit(a, c);
    JoinOfSplit(b, c);
    JoinConcat(p, q, c);
    SplitOfJoin(p + q, c);
  }

  /** A text is cut at its first `c` in one way only. */
  lemma CutUnique<T>(a: seq<T>, x: seq<T>, b: seq<T>, y: seq<T>, c: T)
    requires c !in a && c !in b && a + [c] + x == b + [c] + y
    ensures a == b && x == y
  {
    var s := a + [c] + x;
    assert s[..|a|] == a && s[..|b|] == b;
    assert s[|a|] == c && s[|b|] == c;
    FindAt(s, c, |a|);
    FindAt(s, c, |b|);
    assert s[|a| + 1..] == x && s[|b| + 1..] == y;
  }

  /** Equal prefixes leave equal rests. */
  lemma SamePrefix<T>(a: seq<T>, x: seq<T>, b: seq<T>, y: seq<T>)
    requires |a| == |b| && a + x == b + y
    ensures a == b && x == y
  {
    assert (a + x)[..|a|] == a && (b + y)[..|b|] == b;
    assert (a + x)[|a|..] == x && (b + y)[|b|..] == y;
  }

  // ---------------------------------------------------------------- Decimal numbers

  function Digit(n: nat): byte
    requires n < 10
  {
    (48 + n) as byte
  }

  function Decimal(n: nat): (s: Bytes)
    ensures s != [] && forall i :: 0 <= i < |s| ==> 48 <= s[i] < 58
  {
    if n < 10 then [Digit(n)] else Decimal(n / 10) + [Digit(n % 10)]
  }

  lemma {:induction false} DecimalInjective(m: nat, n: nat)
    requires Decimal(m) == Decimal(n)
    ensures m == n
    decreases m
  {
    var s, t := Decimal(m), Decimal(n);
    assert s[|s| - 1] == Digit(m % 10) && t[|t| - 1] == Digit(n % 10);
    if m >= 10 && n >= 10 {
      assert s[..|s| - 1] == Decimal(m / 10) && t[..|t| - 1] == Decimal(n / 10);
      DecimalInjective(m / 10, n / 10);
    }
  }

  /** An `i64` as Rust prints it. */
  function Signed(n: int): Bytes {
    if n < 0 then B("-") + Decimal(-n) else Decimal(n)
  }

  lemma SignedInjective(m: int, n: int)
    requires Signed(m) == Signed(n)
    ensures m == n
  {
    var s, t := Signed(m), Signed(n);
    assert if m < 0 then s[0] == 45 else s[0] >= 48;
    assert if n < 0 then t[0] == 45 else t[0] >= 48;
    if m < 0 && n < 0 {
      assert s[1..] == Decimal(-m) && t[1..] == Decimal(-n);
      DecimalInjective(-m, -n);
    } else if m >= 0 && n >= 0 {
      DecimalInjective(m, n);
    }
  }
}
