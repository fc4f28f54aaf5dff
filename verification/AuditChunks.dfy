/** A bulk write done a page of keys at a time, against the same write done at once. */
module AuditChunks {
  import opened AuditWhere

  predicate Distinct(keys: seq<int>) { forall i, j :: 0 <= i < j < |keys| ==> keys[i] != keys[j] }

  predicate Present(keys: seq<int>, t: Table) { forall i :: 0 <= i < |keys| ==> keys[i] in t }

  function PageLength(keys: seq<int>, chunk: nat): (n: nat)
    ensures n <= |keys| && n <= chunk
  {
    if |keys| < chunk then |keys| else chunk
  }

  /** The update, page after page; each statement reads what the earlier ones wrote. */
  function Chunked(t: Table, keys: seq<int>, chunk: nat, assign: seq<Assignment>): Table
    requires chunk > 0
    decreases |keys|
  {
    if keys == [] then t
    else
      var n := PageLength(keys, chunk);
      Chunked(UpdateKeys(t, keys[..n], assign), keys[n..], chunk, assign)
  }

  lemma UpdateSplits(t: Table, head: seq<int>, rest: seq<int>, assign: seq<Assignment>)
    requires AllOfRow(assign) && forall k :: k in head ==> k !in rest
    ensures UpdateKeys(UpdateKeys(t, head, assign), rest, assign) == UpdateKeys(t, head + rest, assign)
  {
    var u := UpdateKeys(t, head, assign);
    forall k | k in t
      ensures UpdateKeys(u, rest, assign)[k] == UpdateKeys(t, head + rest, assign)[k]
    {
      if k in rest {
        WrittenAlone(assign, t, u, k);
      }
    }
  }

  lemma DistinctSplit(keys: seq<int>, n: nat)
    requires Distinct(keys) && n <= |keys|
    ensures Distinct(keys[n..]) && keys[..n] + keys[n..] == keys
    ensures forall k :: k in keys[..n] ==> k !in keys[n..]
  {
  }

  /** Page by page is at once, when the SET list reads only the row. */
  lemma {:induction false} ChunkedIsAtOnce(t: Table, keys: seq<int>, chunk: nat, assign: seq<Assignment>)
    requires chunk > 0 && Distinct(keys) && AllOfRow(assign)
    ensures Chunked(t, keys, chunk, assign) == UpdateKeys(t, keys, assign)
    decreases |keys|
  {
    if keys == [] {
      assert UpdateKeys(t, keys, assign) == t;
    } else {
      var n := PageLength(keys, chunk);
      DistinctSplit(keys, n);
      ChunkedIsAtOnce(UpdateKeys(t, keys[..n], assign), keys[n..], chunk, assign);
      UpdateSplits(t, keys[..n], keys[n..], assign);
    }
  }

  lemma OnePage(t: Table, keys: seq<int>, chunk: nat, assign: seq<Assignment>)
    requires chunk > 0 && |keys| <= chunk
    ensures Chunked(t, keys, chunk, assign) == UpdateKeys(t, keys, assign)
  {
    if keys == [] {
      assert UpdateKeys(t, keys, assign) == t;
    } else {
      assert keys[..|keys|] == keys && keys[|keys|..] == [];
    }
  }

  // ---------------------------------------------------------------- More than one page

  lemma {:induction false} ChunkedKeeps(t: Table, keys: seq<int>, chunk: nat, assign: seq<Assignment>, k: int)
    requires chunk > 0 && k in t && k !in keys
    ensures k in Chunked(t, keys, chunk, assign) && Chunked(t, keys, chunk, assign)[k] == t[k]
    decreases |keys|
  {
    if keys != [] {
      var n := PageLength(keys, chunk);
      ChunkedKeeps(UpdateKeys(t, keys[..n], assign), keys[n..], chunk, assign, k);
    }
  }

  /** `COALESCE(column, 0)`: the column as a number, NULL and any other value as 0. */
  function NumberIn(row: Row, column: string): int {
    if column in row && row[column].Number? then row[column].n else 0
  }

  /** `m` is the greatest of the column over all rows. */
  predicate IsMax(t: Table, column: string, m: int) {
    (exists k :: k in t && NumberIn(t[k], column) == m) && forall k :: k in t ==> NumberIn(t[k], column) <= m
  }

  lemma EmptyOrNot(s: set<int>)
    ensures s == {} || exists k :: k in s
  {
    if forall k :: k !in s {
      assert s == {};
    }
  }

  lemma MaxOfTwo(t: Table, column: string, k: int, m: int)
    requires k in t && IsMax(t - {k}, column, m)
    ensures IsMax(t, column, if NumberIn(t[k], column) > m then NumberIn(t[k], column) else m)
  {
    var rest := t - {k};
    var j :| j in rest && NumberIn(rest[j], column) == m;
    assert NumberIn(t[j], column) == m;
    forall i | i in t
      ensures i == k || NumberIn(t[i], column) <= m
    {
      assert i == k || i in rest;
    }
  }

  lemma {:induction false} MaxExists(t: Table, column: string)
    requires t.Keys != {}
    ensures exists m :: IsMax(t, column, m)
    decreases |t.Keys|
  {
    EmptyOrNot(t.Keys);
    var k :| k in t.Keys;
    var rest := t - {k};
    if rest.Keys == {} {
      assert t.Keys == {k};
      assert IsMax(t, column, NumberIn(t[k], column));
    } else {
      assert rest.Keys == t.Keys - {k};
      MaxExists(rest, column);
      var m :| IsMax(rest, column, m);
      MaxOfTwo(t, column, k, m);
    }
  }

  lemma MaxUnique(t: Table, column: string, m: int, n: int)
    requires IsMax(t, column, m) && IsMax(t, column, n)
    ensures m == n
  {
  }

  /** `SELECT MAX(COALESCE(column, 0)) FROM …`, 0 over no rows. */
  ghost function MaxIn(t: Table, column: string): (m: int)
    ensures t.Keys != {} ==> IsMax(t, column, m)
  {
    if t.Keys == {} then 0
    else
      MaxExists(t, column);
      var m :| IsMax(t, column, m);
      m
  }

  /** `SET column = (SELECT MAX(COALESCE(column, 0)) FROM …) + 1`. Without the COALESCE an all-NULL
      column would stay NULL on every page. */
  ghost function NextNumber(column: string): seq<Assignment> {
    [Assignment(column, Reading((t: Table, k: int) => Number(MaxIn(t, column) + 1)))]
  }

  lemma NextNumberWrites(column: string, t: Table, k: int)
    requires k in t
    ensures Written(NextNumber(column), t, k) == t[k][column := Number(MaxIn(t, column) + 1)]
  {
    var m := NextNumber(column);
    assert m[..0] == [];
    assert Written(m, t, k) == Written(m[..0], t, k)[column := ValueOf(m[0].value, t, k)];
  }

  /** After one page of it, the greatest number is one more. */
  lemma PageRaisesMax(t: Table, keys: seq<int>, column: string)
    requires keys != [] && Present(keys, t)
    ensures MaxIn(UpdateKeys(t, keys, NextNumber(column)), column) == MaxIn(t, column) + 1
  {
    var u, m := UpdateKeys(t, keys, NextNumber(column)), MaxIn(t, column);
    assert keys[0] in t.Keys && keys[0] in u.Keys;
    forall k | k in u
      ensures NumberIn(u[k], column) == if k in keys then m + 1 else NumberIn(t[k], column)
    {
      NextNumberWrites(column, t, k);
    }
    assert NumberIn(u[keys[0]], column) == m + 1;
    MaxUnique(u, column, MaxIn(u, column), m + 1);
  }

  /** The first row of the second page takes its number after the first page is written. */
  lemma SecondPageRow(t: Table, keys: seq<int>, chunk: nat, column: string)
    requires 0 < chunk < |keys| && Distinct(keys) && Present(keys, t)
    ensures var after := Chunked(t, keys, chunk, NextNumber(column));
      keys[chunk] in after && after[keys[chunk]] == t[keys[chunk]][column := Number(MaxIn(t, column) + 2)]
  {
    var m := NextNumber(column);
    var k := keys[chunk];
    var rest := keys[chunk..];
    var n := PageLength(rest, chunk);
    var one := UpdateKeys(t, keys[..chunk], m);
    var two := UpdateKeys(one, rest[..n], m);
    assert k !in keys[..chunk] && rest[..n][0] == k;
    PageRaisesMax(t, keys[..chunk], column);
    NextNumberWrites(column, one, k);
    assert k !in rest[n..] by { DistinctSplit(keys, chunk); DistinctSplit(rest, n); }
    ChunkedKeeps(two, rest[n..], chunk, m, k);
    assert Chunked(t, keys, chunk, m) == Chunked(one, rest, chunk, m);
    assert Chunked(one, rest, chunk, m) == Chunked(two, rest[n..], chunk, m);
  }

  /** With more rows than a page, `SET column = (SELECT MAX(COALESCE(column, 0)) …) + 1` gives every
      row the same number at once, and the second page a greater one page by page. */
  lemma TwoPagesDiffer(t: Table, keys: seq<int>, chunk: nat, column: string)
    requires 0 < chunk < |keys| && Distinct(keys) && Present(keys, t)
    ensures Chunked(t, keys, chunk, NextNumber(column)) != UpdateKeys(t, keys, NextNumber(column))
  {
    var k := keys[chunk];
    SecondPageRow(t, keys, chunk, column);
    NextNumberWrites(column, t, k);
    assert k in keys;
    var m := MaxIn(t, column);
    assert t[k][column := Number(m + 1)][column] != t[k][column := Number(m + 2)][column];
  }

  /** Whatever is being set, page by page is at once exactly when the rows fit one page: a SET
      may read other rows, and then the second page reads what the first wrote. */
  lemma AnySetIffOnePage(t: Table, keys: seq<int>, chunk: nat)
    requires chunk > 0 && Distinct(keys) && Present(keys, t)
    ensures (forall assign :: Chunked(t, keys, chunk, assign) == UpdateKeys(t, keys, assign)) <==> |keys| <= chunk
  {
    if |keys| <= chunk {
      forall assign
        ensures Chunked(t, keys, chunk, assign) == UpdateKeys(t, keys, assign)
      {
        OnePage(t, keys, chunk, assign);
      }
    } else {
      TwoPagesDiffer(t, keys, chunk, "value");
    }
  }
}
