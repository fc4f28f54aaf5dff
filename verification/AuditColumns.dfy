/** What an audited upsert or delete leaves of a table, row by row and column by column. */
module AuditColumns {
  import opened Options
  import opened AuditWhere
  import opened AuditUpsert
  import AuditBulkInsert
  import AuditWrites

  // ---------------------------------------------------------------- Upsert

  /** The two rows stand for one thing: the same value, and not NULL, in the conflict column. */
  predicate SameThing(a: Row, b: Row, target: string) {
    target in a && target in b && a[target] == b[target] && a[target] != Null
  }

  /** Row `j` is the last from `i` on that stands for the same thing as `row`. */
  predicate LastFrom(rows: seq<Row>, i: nat, target: string, row: Row, j: nat) {
    && i <= j < |rows| && SameThing(rows[j], row, target)
    && forall k :: j < k < |rows| ==> !SameThing(rows[k], row, target)
  }

  predicate NoneFrom(rows: seq<Row>, i: nat, target: string, row: Row) {
    forall k :: i <= k < |rows| ==> !SameThing(rows[k], row, target)
  }

  /** `after` has the update columns of `last` and every other column of `before`. */
  ghost predicate Overwritten(before: Row, last: Row, columns: set<string>, after: Row) {
    forall c :: if c in columns && c in last then SameAt(after, last, c) else SameAt(after, before, c)
  }

  lemma SameKey(a: Row, b: Row, target: string)
    ensures SameThing(a, b, target) <==> KeyOf(b, target).Some? && KeyOf(a, target) == KeyOf(b, target)
  {
  }

  lemma {:induction false} LastForIs(rows: seq<Row>, i: nat, target: string, row: Row, j: nat)
    requires LastFrom(rows, i, target, row, j)
    ensures LastFor(rows[i..], target, KeyOf(row, target)) == Some(rows[j])
    decreases |rows| - i
  {
    var rest := rows[i..];
    assert rest[0] == rows[i] && rest[1..] == rows[i + 1..];
    SameKey(rows[i], row, target);
    SameKey(rows[j], row, target);
    if i < j {
      LastForIs(rows, i + 1, target, row, j);
    } else {
      NoneForIs(rows, i + 1, target, row);
    }
  }

  lemma {:induction false} NoneForIs(rows: seq<Row>, i: nat, target: string, row: Row)
    requires i <= |rows| && NoneFrom(rows, i, target, row)
    ensures LastFor(rows[i..], target, KeyOf(row, target)) == None
    decreases |rows| - i
  {
    if i < |rows| {
      var rest := rows[i..];
      assert rest[0] == rows[i] && rest[1..] == rows[i + 1..];
      SameKey(rows[i], row, target);
      NoneForIs(rows, i + 1, target, row);
    }
  }

  lemma LastForCons(first: Row, rest: seq<Row>, target: string, key: Option<Value>)
    ensures LastFor([first] + rest, target, key) ==
      if key.None? then None
      else if LastFor(rest, target, key).Some? then LastFor(rest, target, key)
      else if KeyOf(first, target) == key then Some(first) else None
  {
    assert ([first] + rest)[1..] == rest;
  }

  /** A key the table has already: every row of the batch that carries it is skipped. */
  lemma {:induction false} HeldSkipped(t: Table, ids: Ids, target: string, rows: seq<Row>, i: nat, key: Option<Value>)
    requires ValidTable(ids, target, t) && ValidRows(ids, target, rows) && i <= |rows|
    requires key.Some? && Holder(t, target, key).Some?
    ensures LastFor(Skipped(t, ids, target, rows, i), target, key) == LastFor(rows[i..], target, key)
    decreases |rows| - i
  {
    if i < |rows| {
      var row := rows[i];
      assert rows[i..] == [row] + rows[i + 1..];
      LastForCons(row, rows[i + 1..], target, key);
      if Conflicts(t, target, row) {
        HeldSkipped(t, ids, target, rows, i + 1, key);
        LastForCons(row, Skipped(t, ids, target, rows, i + 1), target, key);
      } else {
        InsertedValid(ids, t, target, i, row);
        HolderInserted(t, ids, target, i, row, key.value);
        HeldSkipped(Inserted(t, ids, target, i, row), ids, target, rows, i + 1, key);
      }
    }
  }

  lemma MergedColumns(before: Row, row: Row, columns: set<string>)
    ensures Overwritten(before, row, columns, Merge(before, row, columns))
  {
  }

  /** What a row of the table is once the batch is upserted: the update columns of the batch's
      last row for the same thing, and its own otherwise; as it was if the batch has none. */
  lemma UpsertedColumns(t: Table, ids: Ids, target: string, rows: seq<Row>, columns: set<string>, all: set<string>,
                        p: int)
    requires ValidTable(ids, target, t) && ValidRows(ids, target, rows) && SameColumns(rows, all) && p in t
    ensures var u := OneByOne(t, ids, target, rows, 0, DoUpdate(columns));
      && p in u
      && (forall j :: 0 <= j < |rows| && LastFrom(rows, 0, target, t[p], j) ==>
            Overwritten(t[p], rows[j], columns, u[p]))
      && (NoneFrom(rows, 0, target, t[p]) ==> u[p] == t[p])
  {
    var first, skipped := Firsts(t, ids, target, rows, 0), Skipped(t, ids, target, rows, 0);
    var key := KeyOf(t[p], target);
    PassesAreOneByOne(t, ids, target, rows, 0, DoUpdate(columns));
    AuditBulkInsert.FirstsKeep(t, ids, target, rows, 0);
    AuditBulkInsert.SkippedColumns(t, ids, target, rows, 0, all);
    RewritesAt(first, target, skipped, columns, all, p);
    assert rows[0..] == rows;
    if key.Some? {
      HolderIs(t, target, key, p);
      HeldSkipped(t, ids, target, rows, 0, key);
    }
    forall j | 0 <= j < |rows| && LastFrom(rows, 0, target, t[p], j)
      ensures Overwritten(t[p], rows[j], columns, OneByOne(t, ids, target, rows, 0, DoUpdate(columns))[p])
    {
      LastForIs(rows, 0, target, t[p], j);
      MergedColumns(t[p], rows[j], columns);
    }
    if NoneFrom(rows, 0, target, t[p]) {
      NoneForIs(rows, 0, target, t[p]);
    }
  }

  /** A row nobody has yet is put into the table as it is by the first pass. */
  lemma {:induction false} NewRowStands(t: Table, ids: Ids, target: string, rows: seq<Row>, i: nat, j: nat)
    returns (p: int)
    requires ValidTable(ids, target, t) && ValidRows(ids, target, rows) && i <= j < |rows|
    requires !Conflicts(t, target, rows[j]) && forall k :: i <= k < j ==> !SameThing(rows[k], rows[j], target)
    ensures p !in t && p in Firsts(t, ids, target, rows, i) && Firsts(t, ids, target, rows, i)[p] == rows[j]
    ensures KeyOf(rows[j], target).Some? ==>
      LastFor(Skipped(t, ids, target, rows, i), target, KeyOf(rows[j], target)) ==
      LastFor(rows[j + 1..], target, KeyOf(rows[j], target))
    decreases |rows| - i
  {
    var row, key := rows[i], KeyOf(rows[j], target);
    if i == j {
      InsertedValid(ids, t, target, i, row);
      FreshPk(ids, t, target, i, row);
      p := PkFor(ids, target, t.Keys, i, row);
      var u := Inserted(t, ids, target, i, row);
      AuditBulkInsert.FirstsKeep(u, ids, target, rows, i + 1);
      if key.Some? {
        HolderInserted(t, ids, target, i, row, key.value);
        HeldSkipped(u, ids, target, rows, i + 1, key);
      }
    } else {
      SameKey(row, rows[j], target);
      if Conflicts(t, target, row) {
        p := NewRowStands(t, ids, target, rows, i + 1, j);
        LastForCons(row, Skipped(t, ids, target, rows, i + 1), target, key);
      } else {
        InsertedValid(ids, t, target, i, row);
        if key.Some? {
          HolderInserted(t, ids, target, i, row, key.value);
        }
        p := NewRowStands(Inserted(t, ids, target, i, row), ids, target, rows, i + 1, j);
      }
    }
  }

  /** What becomes of the batch's first row for a thing the table does not have: a new row, with the
      update columns of the batch's last row for it, and its own otherwise; itself if it is the only one. */
  lemma NewRowColumns(t: Table, ids: Ids, target: string, rows: seq<Row>, columns: set<string>, all: set<string>,
                      j: nat)
    returns (p: int)
    requires ValidTable(ids, target, t) && ValidRows(ids, target, rows) && SameColumns(rows, all) && j < |rows|
    requires forall q :: q in t ==> !SameThing(t[q], rows[j], target)
    requires forall k :: 0 <= k < j ==> !SameThing(rows[k], rows[j], target)
    ensures var u := OneByOne(t, ids, target, rows, 0, DoUpdate(columns));
      && p !in t && p in u
      && (forall m :: 0 <= m < |rows| && LastFrom(rows, j + 1, target, rows[j], m) ==>
            Overwritten(rows[j], rows[m], columns, u[p]))
      && (NoneFrom(rows, j + 1, target, rows[j]) ==> u[p] == rows[j])
  {
    var h := Holder(t, target, KeyOf(rows[j], target));
    assert h.Some? ==> SameThing(t[h.value], rows[j], target);
    p := NewRowStands(t, ids, target, rows, 0, j);
    PassesAreOneByOne(t, ids, target, rows, 0, DoUpdate(columns));
    AuditBulkInsert.SkippedColumns(t, ids, target, rows, 0, all);
    RewritesAt(Firsts(t, ids, target, rows, 0), target, Skipped(t, ids, target, rows, 0), columns, all, p);
    forall m | 0 <= m < |rows| && LastFrom(rows, j + 1, target, rows[j], m)
      ensures Overwritten(rows[j], rows[m], columns, OneByOne(t, ids, target, rows, 0, DoUpdate(columns))[p])
    {
      LastForIs(rows, j + 1, target, rows[j], m);
      MergedColumns(rows[j], rows[m], columns);
    }
    if NoneFrom(rows, j + 1, target, rows[j]) {
      NoneForIs(rows, j + 1, target, rows[j]);
    }
  }

  // ---------------------------------------------------------------- Delete

  /** Queries that each look at the row alone delete exactly the rows one of them selects. */
  lemma {:induction false} DeletedIff(t: Table, queries: seq<Where>, k: int)
    requires k in t && forall i :: 0 <= i < |queries| ==> IsRowLocal(queries[i])
    ensures k !in AuditWrites.DeletedBy(t, queries) <==> exists i :: 0 <= i < |queries| && Matches(queries[i], t, k)
    ensures k in AuditWrites.DeletedBy(t, queries) ==> AuditWrites.DeletedBy(t, queries)[k] == t[k]
    decreases |queries|
  {
    if queries != [] {
      var u := t - Matching(queries[0], t);
      if Matches(queries[0], t, k) {
        NeverBack(u, queries[1..], k);
      } else {
        DeletedIff(u, queries[1..], k);
        forall i | 0 < i < |queries|
          ensures Matches(queries[i], t, k) <==> Matches(queries[1..][i - 1], u, k)
        {
          RowLocalAlone(queries[i], t, u, k);
        }
      }
    }
  }

  lemma {:induction false} NeverBack(t: Table, queries: seq<Where>, k: int)
    requires k !in t
    ensures k !in AuditWrites.DeletedBy(t, queries)
    decreases |queries|
  {
    if queries != [] {
      NeverBack(t - Matching(queries[0], t), queries[1..], k);
    }
  }

  /** Any queries: the later ones find what the earlier ones left. */
  lemma {:induction false} DeletedInTurn(t: Table, a: seq<Where>, w: Where)
    ensures AuditWrites.DeletedBy(t, a + [w]) ==
      AuditWrites.DeletedBy(t, a) - Matching(w, AuditWrites.DeletedBy(t, a))
    decreases |a|
  {
    var all := a + [w];
    if a == [] {
      assert all == [w] && all[1..] == [];
    } else {
      assert all[0] == a[0] && all[1..] == a[1..] + [w];
      DeletedInTurn(t - Matching(a[0], t), a[1..], w);
    }
  }
}
