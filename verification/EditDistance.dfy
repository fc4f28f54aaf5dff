/** The typo hint's edit distance: a one-row dynamic program proved to return the least
    number of single-character edits. */
module EditDistance {

  type Text = seq<char>

  function Min(x: nat, y: nat): nat { if x < y then x else y }

  function Init(s: Text): Text
    requires s != []
  {
    s[..|s| - 1]
  }

  function Last(s: Text): char
    requires s != []
  {
    s[|s| - 1]
  }

  /** The recurrence the row follows, equal last characters taking the shortcut. */
  function Dist(a: Text, b: Text): nat
    decreases |a| + |b|
  {
    if a == [] then |b|
    else if b == [] then |a|
    else if Last(a) == Last(b) then Dist(Init(a), Init(b))
    else 1 + Min(Min(Dist(Init(a), Init(b)), Dist(Init(a), b)), Dist(a, Init(b)))
  }

  // ---------------------------------------------------------------- Edits

  /** `b` is `a` with one character inserted, deleted or substituted at `i`. */
  predicate EditAt(a: Text, b: Text, i: nat) {
    || (i < |b| && |b| == |a| + 1 && b[..i] == a[..i] && b[i + 1..] == a[i..])
    || (i < |a| && |a| == |b| + 1 && a[..i] == b[..i] && a[i + 1..] == b[i..])
    || (i < |a| && |a| == |b| && a[..i] == b[..i] && a[i + 1..] == b[i + 1..])
  }

  predicate Edit(a: Text, b: Text) {
    exists i: nat :: i <= |a| && EditAt(a, b, i)
  }

  /** A script of edits, as every text on the way. */
  predicate Script(path: seq<Text>, a: Text, b: Text) {
    && |path| >= 1 && path[0] == a && path[|path| - 1] == b
    && forall k :: 0 <= k < |path| - 1 ==> Edit(path[k], path[k + 1])
  }

  // ---------------------------------------------------------------- No script is shorter

  lemma {:induction false} Symmetric(a: Text, b: Text)
    ensures Dist(a, b) == Dist(b, a)
    decreases |a| + |b|
  {
    if a != [] && b != [] {
      Symmetric(Init(a), Init(b));
      if Last(a) != Last(b) {
        Symmetric(Init(a), b);
        Symmetric(a, Init(b));
      }
    }
  }

  /** One more character at the end moves the distance by at most one. */
  lemma {:induction false} Lipschitz(a: Text, b: Text, x: char)
    ensures Dist(a + [x], b) <= Dist(a, b) + 1
    ensures Dist(a, b) <= Dist(a + [x], b) + 1
    decreases |a| + |b|, 0
  {
    assert Init(a + [x]) == a;
    if b != [] {
      Lipschitz(a, Init(b), x);
      LipschitzRight(a, Init(b), Last(b));
      assert b == Init(b) + [Last(b)];
    }
  }

  lemma {:induction false} LipschitzRight(a: Text, b: Text, y: char)
    ensures Dist(a, b + [y]) <= Dist(a, b) + 1
    ensures Dist(a, b) <= Dist(a, b + [y]) + 1
    decreases |a| + |b|, 1
  {
    Lipschitz(b, a, y);
    Symmetric(a, b);
    Symmetric(a, b + [y]);
  }

  lemma {:induction false} LastSubstituted(p: Text, x: char, y: char, c: Text)
    ensures Dist(p + [y], c) <= Dist(p + [x], c) + 1
  {
    assert Init(p + [x]) == p && Init(p + [y]) == p;
    if c != [] {
      assert c == Init(c) + [Last(c)];
      if y == Last(c) {
        Lipschitz(p, Init(c), x);
        LipschitzRight(p + [x], Init(c), Last(c));
        LipschitzRight(p, Init(c), Last(c));
      } else {
        LastSubstituted(p, x, y, Init(c));
      }
    }
  }

  /** An edit before the last character is an edit of what comes before it. */
  lemma EditInside(a: Text, b: Text, i: nat)
    requires a != [] && b != [] && i <= |a| && EditAt(a, b, i)
    requires i < |a| - 1 || (|b| == |a| + 1 && i < |a|)
    ensures Last(a) == Last(b) && EditAt(Init(a), Init(b), i) && i <= |Init(a)|
  {
    if |b| == |a| + 1 {
      assert b[i + 1..][|a| - i - 1] == a[i..][|a| - i - 1];
      assert Init(b)[..i] == b[..i] && Init(a)[..i] == a[..i];
      assert Init(b)[i + 1..] == b[i + 1..][..|a| - i - 1];
      assert Init(a)[i..] == a[i..][..|a| - i - 1];
    } else if |a| == |b| + 1 {
      assert a[i + 1..][|b| - i - 1] == b[i..][|b| - i - 1];
      assert Init(b)[..i] == b[..i] && Init(a)[..i] == a[..i];
      assert Init(a)[i + 1..] == a[i + 1..][..|b| - i - 1];
      assert Init(b)[i..] == b[i..][..|b| - i - 1];
    } else {
      assert a[i + 1..][|a| - i - 2] == b[i + 1..][|a| - i - 2];
      assert Init(b)[..i] == b[..i] && Init(a)[..i] == a[..i];
      assert Init(a)[i + 1..] == a[i + 1..][..|a| - i - 2];
      assert Init(b)[i + 1..] == b[i + 1..][..|a| - i - 2];
    }
  }

  /** One edit moves the distance to any text by at most one. */
  lemma {:induction false} EditMovesByOne(a: Text, b: Text, c: Text, i: nat)
    requires i <= |a| && EditAt(a, b, i)
    ensures Dist(b, c) <= Dist(a, c) + 1
    decreases |a| + |b| + |c|
  {
    if a != [] && b != [] && (i < |a| - 1 || (|b| == |a| + 1 && i < |a|)) {
      EditInside(a, b, i);
      if c != [] {
        EditMovesByOne(Init(a), Init(b), Init(c), i);
        EditMovesByOne(Init(a), Init(b), c, i);
        EditMovesByOne(a, b, Init(c), i);
      }
    } else if |b| == |a| + 1 {
      assert b == a + [b[i]];
      Lipschitz(a, c, b[i]);
    } else if |a| == |b| + 1 {
      assert a == b + [a[i]];
      Lipschitz(b, c, a[i]);
    } else {
      assert a == a[..i] + [a[i]] && b == a[..i] + [b[i]];
      LastSubstituted(a[..i], a[i], b[i], c);
    }
  }

  lemma {:induction false} DistSelf(a: Text)
    ensures Dist(a, a) == 0
  {
    if a != [] {
      DistSelf(Init(a));
    }
  }

  lemma EditBack(a: Text, b: Text, i: nat)
    requires i <= |a| && EditAt(a, b, i)
    ensures i <= |b| && EditAt(b, a, i)
  {
  }

  /** Every script is at least `Dist` edits long. */
  lemma {:induction false} NoShorterScript(path: seq<Text>, a: Text, b: Text)
    requires Script(path, a, b)
    ensures Dist(a, b) <= |path| - 1
    decreases |path|
  {
    if |path| == 1 {
      DistSelf(a);
    } else {
      var rest := path[1..];
      forall k | 0 <= k < |rest| - 1
        ensures Edit(rest[k], rest[k + 1])
      {
        assert Edit(path[k + 1], path[k + 2]);
      }
      NoShorterScript(rest, path[1], b);
      assert Edit(path[0], path[1]);
      var i: nat :| i <= |a| && EditAt(a, path[1], i);
      EditBack(a, path[1], i);
      EditMovesByOne(path[1], a, b, i);
    }
  }

  // ---------------------------------------------------------------- One script is that short

  lemma EditAtSuffix(p: Text, q: Text, i: nat, x: char)
    requires i <= |p| && EditAt(p, q, i)
    ensures EditAt(p + [x], q + [x], i)
  {
    var px, qx := p + [x], q + [x];
    if |q| == |p| + 1 {
      assert qx[..i] == q[..i] && px[..i] == p[..i];
      assert qx[i + 1..] == q[i + 1..] + [x] && px[i..] == p[i..] + [x];
    } else if |p| == |q| + 1 {
      assert qx[..i] == q[..i] && px[..i] == p[..i];
      assert px[i + 1..] == p[i + 1..] + [x] && qx[i..] == q[i..] + [x];
    } else {
      assert qx[..i] == q[..i] && px[..i] == p[..i];
      assert px[i + 1..] == p[i + 1..] + [x] && qx[i + 1..] == q[i + 1..] + [x];
    }
  }

  /** The same script with a common last character kept. */
  lemma ScriptSuffix(path: seq<Text>, a: Text, b: Text, x: char) returns (longer: seq<Text>)
    requires Script(path, a, b)
    ensures Script(longer, a + [x], b + [x]) && |longer| == |path|
  {
    longer := seq(|path|, k requires 0 <= k < |path| => path[k] + [x]);
    forall k | 0 <= k < |path| - 1
      ensures Edit(longer[k], longer[k + 1])
    {
      assert Edit(path[k], path[k + 1]);
      var p, q := path[k], path[k + 1];
      var i: nat :| i <= |p| && EditAt(p, q, i);
      assert EditAt(p + [x], q + [x], i) by {
        EditAtSuffix(p, q, i, x);
      }
    }
  }

  lemma ScriptThen(path: seq<Text>, a: Text, b: Text, c: Text, i: nat)
    requires Script(path, a, b) && i <= |b| && EditAt(b, c, i)
    ensures Script(path + [c], a, c)
  {
    assert Edit(b, c);
    var longer := path + [c];
    forall k | 0 <= k < |longer| - 1
      ensures Edit(longer[k], longer[k + 1])
    {
      if k < |path| - 1 {
        assert longer[k] == path[k] && longer[k + 1] == path[k + 1];
      }
    }
  }

  lemma {:induction false} ShortestScript(a: Text, b: Text) returns (path: seq<Text>)
    ensures Script(path, a, b) && |path| == Dist(a, b) + 1
    decreases |a| + |b|
  {
    if a == [] && b == [] {
      path := [a];
    } else if a == [] {
      path := ShortestScript(a, Init(b));
      ScriptThen(path, a, Init(b), b, |b| - 1);
      path := path + [b];
    } else if b == [] {
      path := DropLast(a, b);
    } else if Last(a) == Last(b) {
      var p := ShortestScript(Init(a), Init(b));
      path := ScriptSuffix(p, Init(a), Init(b), Last(a));
      assert a == Init(a) + [Last(a)] && b == Init(b) + [Last(b)];
    } else if Dist(a, b) == 1 + Dist(Init(a), Init(b)) {
      var p := ShortestScript(Init(a), Init(b));
      path := ScriptSuffix(p, Init(a), Init(b), Last(a));
      assert a == Init(a) + [Last(a)];
      var mid := Init(b) + [Last(a)];
      assert EditAt(mid, b, |b| - 1);
      ScriptThen(path, a, mid, b, |b| - 1);
      path := path + [b];
    } else if Dist(a, b) == 1 + Dist(Init(a), b) {
      path := DropLast(a, b);
    } else {
      path := ShortestScript(a, Init(b));
      ScriptThen(path, a, Init(b), b, |b| - 1);
      path := path + [b];
    }
  }

  /** First delete the last character, then the shortest script for the rest. */
  lemma {:induction false} DropLast(a: Text, b: Text) returns (path: seq<Text>)
    requires a != []
    ensures Script(path, a, b) && |path| == Dist(Init(a), b) + 2
    decreases |a| + |b|, 0
  {
    var p := ShortestScript(Init(a), b);
    path := [a] + p;
    assert EditAt(a, Init(a), |a| - 1);
    forall k | 0 <= k < |path| - 1
      ensures Edit(path[k], path[k + 1])
    {
      if k > 0 {
        assert path[k] == p[k - 1] && path[k + 1] == p[k];
      }
    }
  }

  // ---------------------------------------------------------------- A metric

  lemma Triangle(a: Text, b: Text, c: Text)
    ensures Dist(a, c) <= Dist(a, b) + Dist(b, c)
  {
    var p := ShortestScript(a, b);
    var q := ShortestScript(b, c);
    var path := p + q[1..];
    forall k | 0 <= k < |path| - 1
      ensures Edit(path[k], path[k + 1])
    {
      if k < |p| - 1 {
        assert path[k] == p[k] && path[k + 1] == p[k + 1];
      } else {
        assert path[k] == q[k - |p| + 1] && path[k + 1] == q[k - |p| + 2];
      }
    }
    NoShorterScript(path, a, c);
  }

  /** Only equal texts are at distance 0. */
  lemma {:induction false} ZeroMeansEqual(a: Text, b: Text)
    ensures Dist(a, b) == 0 <==> a == b
    decreases |a|
  {
    if a == b {
      DistSelf(a);
    } else if a != [] && b != [] && Last(a) == Last(b) {
      assert a == Init(a) + [Last(a)] && b == Init(b) + [Last(b)];
      ZeroMeansEqual(Init(a), Init(b));
    }
  }

  // ---------------------------------------------------------------- The loop

  /** The recurrence between neighbouring cells of the table. */
  lemma Cell(a: Text, b: Text, i: nat, j: nat)
    requires i < |a| && j < |b|
    ensures Dist(a[..i + 1], b[..j + 1]) ==
      if a[i] == b[j] then Dist(a[..i], b[..j])
      else 1 + Min(Min(Dist(a[..i], b[..j]), Dist(a[..i], b[..j + 1])), Dist(a[..i + 1], b[..j]))
  {
    assert Init(a[..i + 1]) == a[..i] && Init(b[..j + 1]) == b[..j];
  }

  /** Row `next` of the table follows row `cur` for the character `c`. */
  predicate RowAfter(cur: seq<nat>, next: seq<nat>, c: char, b: Text) {
    && |cur| == |next| == |b| + 1 && next[0] == cur[0] + 1
    && forall j :: 0 <= j < |b| ==>
      next[j + 1] == if c == b[j] then cur[j] else 1 + Min(Min(cur[j], cur[j + 1]), next[j])
  }

  function Row(a: Text, b: Text): seq<nat> {
    seq(|b| + 1, j requires 0 <= j <= |b| => Dist(a, b[..j]))
  }

  lemma RowsFollow(a: Text, b: Text, i: nat)
    requires i < |a|
    ensures RowAfter(Row(a[..i], b), Row(a[..i + 1], b), a[i], b)
  {
    forall j | 0 <= j < |b|
      ensures Row(a[..i + 1], b)[j + 1] ==
        if a[i] == b[j] then Row(a[..i], b)[j]
        else 1 + Min(Min(Row(a[..i], b)[j], Row(a[..i], b)[j + 1]), Row(a[..i + 1], b)[j])
    {
      Cell(a, b, i, j);
    }
  }

  /** One pass of the outer loop: the row overwritten in place, `prev` carrying the value the
      last write displaced. */
  method NextRow(c: char, b: Text, i: nat, row: array<nat>, ghost next: seq<nat>)
    requires row.Length == |b| + 1 && row[0] == i && RowAfter(row[..], next, c, b)
    modifies row
    ensures row[..] == next
  {
    ghost var cur := row[..];
    var prev := row[0];
    row[0] := i + 1;
    var j := 0;
    while j < |b|
      invariant j <= |b|
      invariant prev == cur[j]
      invariant forall k :: 0 <= k <= j ==> row[k] == next[k]
      invariant forall k :: j < k <= |b| ==> row[k] == cur[k]
    {
      var displaced := row[j + 1];
      row[j + 1] := if c == b[j] then prev else 1 + Min(Min(prev, displaced), row[j]);
      prev := displaced;
      j := j + 1;
    }
  }

  method LastRow(a: Text, b: Text) returns (d: nat)
    ensures d == Dist(a, b)
  {
    var row := new nat[|b| + 1](j => j);
    assert row[..] == Row(a[..0], b);
    var i := 0;
    while i < |a|
      invariant i <= |a|
      invariant row[..] == Row(a[..i], b)
    {
      assert row[..][0] == i;
      RowsFollow(a, b, i);
      NextRow(a[i], b, i, row, Row(a[..i + 1], b));
      i := i + 1;
    }
    assert a[..|a|] == a && b[..|b|] == b;
    d := row[|b|];
    assert d == row[..][|b|];
  }

  /** `distance` returns the length of a shortest edit script. */
  method Distance(a: Text, b: Text) returns (d: nat)
    ensures exists path :: Script(path, a, b) && d == |path| - 1
    ensures forall path :: Script(path, a, b) ==> d <= |path| - 1
  {
    d := LastRow(a, b);
    ghost var shortest := ShortestScript(a, b);
    forall path | Script(path, a, b)
      ensures d <= |path| - 1
    {
      NoShorterScript(path, a, b);
    }
  }
}
