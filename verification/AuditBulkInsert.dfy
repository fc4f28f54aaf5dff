/** The loops of the audited upsert. */
module AuditBulkInsert {
  import opened Options
  import opened AuditWhere
  import opened AuditChunks
  import opened AuditPages
  import opened AuditUpsert
  import AuditWrites

  // ---------------------------------------------------------------- First pass

  ghost predicate ConflictsIn(t: Table, target: string, row: Row) {
    exists p :: Holds(t, target, KeyOf(row, target), p)
  }

  ghost predicate AllConflict(t: Table, target: string, rows: seq<Row>) {
    forall i :: 0 <= i < |rows| ==> ConflictsIn(t, target, rows[i])
  }

  ghost predicate Within(t: Table, u: Table) { forall p :: p in t ==> p in u && t[p] == u[p] }

  lemma {:induction false} FirstsKeep(t: Table, ids: Ids, target: string, rows: seq<Row>, i: nat)
    requires ValidTable(ids, target, t) && ValidRows(ids, target, rows) && i <= |rows|
    ensures Within(t, Firsts(t, ids, target, rows, i))
    decreases |rows| - i
  {
    if i < |rows| {
      if Conflicts(t, target, rows[i]) {
        FirstsKeep(t, ids, target, rows, i + 1);
      } else {
        InsertedValid(ids, t, target, i, rows[i]);
        FreshPk(ids, t, target, i, rows[i]);
        FirstsKeep(Inserted(t, ids, target, i, rows[i]), ids, target, rows, i + 1);
      }
    }
  }

  lemma {:induction false} SkippedConflict(t: Table, ids: Ids, target: string, rows: seq<Row>, i: nat)
    requires ValidTable(ids, target, t) && ValidRows(ids, target, rows) && i <= |rows|
    ensures AllConflict(Firsts(t, ids, target, rows, i), target, Skipped(t, ids, target, rows, i))
    decreases |rows| - i
  {
    if i < |rows| {
      if Conflicts(t, target, rows[i]) {
        var u := Firsts(t, ids, target, rows, i + 1);
        FirstsKeep(t, ids, target, rows, i + 1);
        SkippedConflict(t, ids, target, rows, i + 1);
        assert Holds(u, target, KeyOf(rows[i], target), Holder(t, target, KeyOf(rows[i], target)).value);
        assert ConflictsIn(u, target, rows[i]);
      } else {
        InsertedValid(ids, t, target, i, rows[i]);
        SkippedConflict(Inserted(t, ids, target, i, rows[i]), ids, target, rows, i + 1);
      }
    }
  }

  /** `INSERT … ON CONFLICT DO NOTHING RETURNING pk`. */
  method TryInsert(tx: Tx, ids: Ids, target: string, i: nat, row: Row) returns (p: Option<int>)
    requires ValidTable(ids, target, tx.table) && ValidRow(ids, target, row)
    modifies tx
    ensures tx.log == old(tx.log) && ValidTable(ids, target, tx.table)
    ensures p.None? <==> Conflicts(old(tx.table), target, row)
    ensures p.None? ==> tx.table == old(tx.table)
    ensures p.Some? ==> tx.table == Inserted(old(tx.table), ids, target, i, row)
    ensures p.Some? ==> p.value !in old(tx.table) && tx.table.Keys == old(tx.table).Keys + {p.value}
  {
    if Conflicts(tx.table, target, row) {
      return None;
    }
    InsertedValid(ids, tx.table, target, i, row);
    FreshPk(ids, tx.table, target, i, row);
    p := Some(PkFor(ids, target, tx.table.Keys, i, row));
    tx.table := tx.table[p.value := row];
  }

  lemma CreatedMore(created: seq<int>, before: set<int>, now: set<int>, p: int)
    requires Distinct(created) && Elements(created) == now - before && before <= now && p !in now
    ensures Distinct(created + [p]) && Elements(created + [p]) == (now + {p}) - before
  {
    DistinctConcat(created, [p]);
  }

  /** Every row tried once: the keys created, and the rows skipped. */
  method FirstPass(tx: Tx, ids: Ids, target: string, rows: seq<Row>) returns (created: seq<int>, skipped: seq<Row>)
    requires ValidTable(ids, target, tx.table) && ValidRows(ids, target, rows)
    modifies tx
    ensures tx.table == Firsts(old(tx.table), ids, target, rows, 0) && tx.log == old(tx.log)
    ensures skipped == Skipped(old(tx.table), ids, target, rows, 0)
    ensures Distinct(created) && Elements(created) == tx.table.Keys - old(tx.table).Keys
    ensures old(tx.table).Keys <= tx.table.Keys
  {
    created, skipped := [], [];
    var i := 0;
    while i < |rows|
      invariant i <= |rows| && tx.log == old(tx.log) && ValidTable(ids, target, tx.table)
      invariant Firsts(old(tx.table), ids, target, rows, 0) == Firsts(tx.table, ids, target, rows, i)
      invariant Skipped(old(tx.table), ids, target, rows, 0) == skipped + Skipped(tx.table, ids, target, rows, i)
      invariant Distinct(created) && Elements(created) == tx.table.Keys - old(tx.table).Keys
      invariant old(tx.table).Keys <= tx.table.Keys
    {
      ghost var now := tx.table.Keys;
      var p := TryInsert(tx, ids, target, i, rows[i]);
      if p.None? {
        skipped := skipped + [rows[i]];
      } else {
        CreatedMore(created, old(tx.table).Keys, now, p.value);
        created := created + [p.value];
      }
      i := i + 1;
    }
  }

  // ---------------------------------------------------------------- Second pass

  /** From the last row back, each key's first sight is kept. */
  method KeepRows(rows: seq<Row>, target: string) returns (kept: seq<Row>)
    ensures kept == KeepLast(rows, target)
  {
    kept := [];
    var seen: set<Value> := {};
    var i := |rows|;
    while i > 0
      invariant 0 <= i <= |rows| && kept == KeepLast(rows[i..], target)
      invariant forall key :: key in seen <==> Carried(rows[i..], target, Some(key))
    {
      i := i - 1;
      var key := KeyOf(rows[i], target);
      assert rows[i..] == [rows[i]] + rows[i + 1..] && rows[i..][1..] == rows[i + 1..];
      forall k: Value
        ensures Carried(rows[i..], target, Some(k)) <==> key == Some(k) || Carried(rows[i + 1..], target, Some(k))
      {
        CarriedStep(rows[i], rows[i + 1..], target, Some(k));
      }
      if key.None? || key.value !in seen {
        kept := [rows[i]] + kept;
        seen := seen + (if key.Some? then {key.value} else {});
      }
    }
    assert rows[0..] == rows;
  }

  lemma {:induction false} KeptFrom(rows: seq<Row>, target: string)
    ensures forall i :: 0 <= i < |KeepLast(rows, target)| ==> KeepLast(rows, target)[i] in rows
  {
    if rows != [] {
      KeptFrom(rows[1..], target);
    }
  }

  /** No two kept rows share a key. */
  lemma {:induction false} KeptDiffer(rows: seq<Row>, target: string)
    ensures forall i, j :: 0 <= i < j < |KeepLast(rows, target)| && KeyOf(KeepLast(rows, target)[i], target).Some? ==>
      KeyOf(KeepLast(rows, target)[i], target) != KeyOf(KeepLast(rows, target)[j], target)
  {
    if rows != [] {
      var rest := KeepLast(rows[1..], target);
      KeptDiffer(rows[1..], target);
      KeptFrom(rows[1..], target);
      var key := KeyOf(rows[0], target);
      if !Carried(rows[1..], target, key) {
        forall j | 0 <= j < |rest| && key.Some?
          ensures KeyOf(rest[j], target) != key
        {
          assert rest[j] in rows[1..];
        }
      }
    }
  }

  lemma KeptCarries(rows: seq<Row>, target: string, key: Option<Value>)
    ensures Carried(KeepLast(rows, target), target, key) <==> Carried(rows, target, key)
  {
    LastForIff(rows, target, key);
    LastForIff(KeepLast(rows, target), target, key);
    KeepLastSame(rows, target, key);
  }

  /** The rows whose key is among `rows`. */
  function HeldBy(t: Table, target: string, rows: seq<Row>): set<int> {
    set p | p in t && Carried(rows, target, KeyOf(t[p], target))
  }

  lemma NoneHeld(t: Table, target: string)
    ensures HeldBy(t, target, []) == {}
  {
    forall p | p in t
      ensures !Carried([], target, KeyOf(t[p], target))
    {
    }
  }

  /** A row that conflicts rewrites the row that has its key. */
  method UpsertRow(tx: Tx, target: string, row: Row, columns: set<string>) returns (p: int)
    requires Unique(tx.table, target) && ConflictsIn(tx.table, target, row)
    modifies tx
    ensures tx.table == Rewritten(old(tx.table), target, row, DoUpdate(columns)) && tx.log == old(tx.log)
    ensures Holds(old(tx.table), target, KeyOf(row, target), p)
    ensures Unique(tx.table, target) && SameKeys(old(tx.table), tx.table, target)
  {
    RewrittenKeepsKeys(tx.table, target, row, DoUpdate(columns));
    p := Holder(tx.table, target, KeyOf(row, target)).value;
    tx.table := tx.table[p := Merge(tx.table[p], row, columns)];
  }

  lemma StillConflicts(t: Table, u: Table, target: string, row: Row)
    requires SameKeys(t, u, target)
    ensures ConflictsIn(t, target, row) ==> ConflictsIn(u, target, row)
    ensures forall p :: Holds(u, target, KeyOf(row, target), p) ==> Holds(t, target, KeyOf(row, target), p)
  {
    if ConflictsIn(t, target, row) {
      var p :| Holds(t, target, KeyOf(row, target), p);
      assert Holds(u, target, KeyOf(row, target), p);
    }
  }

  lemma SameKeysThrough(t: Table, u: Table, v: Table, target: string)
    requires SameKeys(t, u, target) && SameKeys(u, v, target)
    ensures SameKeys(t, v, target)
  {
  }

  lemma NoMoreRewrites(t: Table, target: string, rows: seq<Row>, clause: Clause)
    requires Unique(t, target)
    ensures Rewrites(t, target, rows[|rows|..], clause) == t
  {
  }

  lemma RewritesStep(t: Table, target: string, rows: seq<Row>, i: nat, clause: Clause)
    requires Unique(t, target) && i < |rows| && Unique(Rewritten(t, target, rows[i], clause), target)
    ensures Rewrites(t, target, rows[i..], clause) ==
      Rewrites(Rewritten(t, target, rows[i], clause), target, rows[i + 1..], clause)
  {
    assert rows[i..][0] == rows[i] && rows[i..][1..] == rows[i + 1..];
  }

  /** Part of the way: `t` is what the first `i` rows made of `t0`, and `updated` who held them. */
  ghost predicate Rewriting(t0: Table, t: Table, target: string, rows: seq<Row>, i: nat, clause: Clause,
                            updated: seq<int>) {
    && i <= |rows| && Unique(t0, target) && Unique(t, target) && SameKeys(t0, t, target)
    && Rewrites(t, target, rows[i..], clause) == Rewrites(t0, target, rows, clause)
    && |updated| == i && forall k :: 0 <= k < i ==> Holds(t0, target, KeyOf(rows[k], target), updated[k])
  }

  lemma RewritingStarts(t0: Table, target: string, rows: seq<Row>, clause: Clause)
    requires Unique(t0, target)
    ensures Rewriting(t0, t0, target, rows, 0, clause, [])
  {
    assert rows[0..] == rows;
  }

  lemma RewritingStep(t0: Table, t: Table, u: Table, target: string, rows: seq<Row>, i: nat, clause: Clause,
                      updated: seq<int>, p: int)
    requires Rewriting(t0, t, target, rows, i, clause, updated) && i < |rows|
    requires u == Rewritten(t, target, rows[i], clause) && Unique(u, target) && SameKeys(t, u, target)
    requires Holds(t, target, KeyOf(rows[i], target), p)
    ensures Rewriting(t0, u, target, rows, i + 1, clause, updated + [p])
  {
    RewritesStep(t, target, rows, i, clause);
    StillConflicts(t0, t, target, rows[i]);
    SameKeysThrough(t0, t, u, target);
  }

  /** `INSERT … ON CONFLICT DO UPDATE` of rows that all conflict, returning their keys in order. */
  method UpsertRows(tx: Tx, target: string, rows: seq<Row>, columns: set<string>) returns (updated: seq<int>)
    requires Unique(tx.table, target) && AllConflict(tx.table, target, rows)
    modifies tx
    ensures tx.table == Rewrites(old(tx.table), target, rows, DoUpdate(columns)) && tx.log == old(tx.log)
    ensures |updated| == |rows| && forall k :: 0 <= k < |rows| ==>
      Holds(old(tx.table), target, KeyOf(rows[k], target), updated[k])
  {
    updated := [];
    ghost var t0 := tx.table;
    RewritingStarts(t0, target, rows, DoUpdate(columns));
    var i := 0;
    while i < |rows|
      invariant tx.log == old(tx.log) && Rewriting(t0, tx.table, target, rows, i, DoUpdate(columns), updated)
    {
      ghost var t := tx.table;
      StillConflicts(t0, t, target, rows[i]);
      var p := UpsertRow(tx, target, rows[i], columns);
      RewritingStep(t0, t, tx.table, target, rows, i, DoUpdate(columns), updated, p);
      updated := updated + [p];
      i := i + 1;
    }
    NoMoreRewrites(tx.table, target, rows, DoUpdate(columns));
  }

  lemma HoldersAre(t: Table, target: string, rows: seq<Row>, held: seq<int>)
    requires Unique(t, target) && |held| == |rows|
    requires forall k :: 0 <= k < |rows| ==> Holds(t, target, KeyOf(rows[k], target), held[k])
    requires forall i, j :: 0 <= i < j < |rows| && KeyOf(rows[i], target).Some? ==>
      KeyOf(rows[i], target) != KeyOf(rows[j], target)
    ensures Distinct(held) && Elements(held) == HeldBy(t, target, rows)
  {
    forall p
      ensures p in Elements(held) <==> p in HeldBy(t, target, rows)
    {
      if p in HeldBy(t, target, rows) {
        var i :| 0 <= i < |rows| && KeyOf(rows[i], target) == KeyOf(t[p], target);
        assert held[i] == p;
      }
      if p in held {
        var i :| 0 <= i < |held| && held[i] == p;
        assert Holds(t, target, KeyOf(rows[i], target), p);
      }
    }
  }

  method SecondPass(tx: Tx, target: string, skipped: seq<Row>, columns: set<string>, ghost all: set<string>)
    returns (updated: seq<int>)
    requires Unique(tx.table, target) && AllConflict(tx.table, target, skipped) && SameColumns(skipped, all)
    modifies tx
    ensures tx.table == Rewrites(old(tx.table), target, skipped, DoUpdate(columns)) && tx.log == old(tx.log)
    ensures Distinct(updated) && Elements(updated) == HeldBy(old(tx.table), target, skipped)
  {
    var kept := KeepRows(skipped, target);
    KeptFrom(skipped, target);
    KeptDiffer(skipped, target);
    KeepLastRewrites(tx.table, target, skipped, columns, all);
    forall p | p in tx.table
      ensures Carried(kept, target, KeyOf(tx.table[p], target)) <==>
        Carried(skipped, target, KeyOf(tx.table[p], target))
    {
      KeptCarries(skipped, target, KeyOf(tx.table[p], target));
    }
    assert HeldBy(tx.table, target, kept) == HeldBy(tx.table, target, skipped);
    ghost var t := tx.table;
    updated := UpsertRows(tx, target, kept, columns);
    HoldersAre(t, target, kept, updated);
  }

  // ---------------------------------------------------------------- The record

  lemma RecordStep(t: Table, op: Op, pks: seq<int>, i: nat, j: nat, d: seq<Entry>, e: seq<Entry>)
    requires Distinct(pks) && i <= j <= |pks| && OnePerRow(d, op, t, Elements(pks[..i]))
    requires OnePerRow(e, op, t, Elements(pks[i..j]))
    ensures OnePerRow(d + e, op, t, Elements(pks[..j]))
  {
    assert pks[..j][..i] == pks[..i] && pks[..j][i..] == pks[i..j];
    AuditWrites.KeysCut(pks[..j], i);
    MoreEntries(d, e, op, t, Elements(pks[..i]), Elements(pks[i..j]));
  }

  /** The rows as they are after both passes, read back a page of keys at a time. */
  method Record(tx: Tx, op: Op, pks: seq<int>, batch: nat) returns (ghost entries: seq<Entry>)
    requires Present(pks, tx.table) && Distinct(pks) && batch > 0
    modifies tx
    ensures tx.table == old(tx.table) && tx.log == old(tx.log) + entries
    ensures OnePerRow(entries, op, tx.table, Elements(pks))
  {
    entries := [];
    var i := 0;
    while i < |pks|
      invariant i <= |pks| && tx.table == old(tx.table) && tx.log == old(tx.log) + entries
      invariant OnePerRow(entries, op, tx.table, Elements(pks[..i]))
    {
      var j := if |pks| - i < AuditWrites.CHUNK then |pks| else i + AuditWrites.CHUNK;
      var rows := tx.RowsWhere(PkIn(pks[i..j]));
      PkInMatches(pks[i..j], tx.table);
      EntriesShow(op, rows, tx.table);
      RecordStep(tx.table, op, pks, i, j, entries, EntriesOf(op, rows));
      tx.Emit(EntriesOf(op, rows), batch);
      entries := entries + EntriesOf(op, rows);
      i := j;
    }
    assert pks[..i] == pks;
  }

  datatype Result = Ok | Unsupported | MissingPrimaryKey

  lemma {:induction false} SkippedColumns(t: Table, ids: Ids, target: string, rows: seq<Row>, i: nat, all: set<string>)
    requires ValidTable(ids, target, t) && ValidRows(ids, target, rows) && i <= |rows| && SameColumns(rows, all)
    ensures SameColumns(Skipped(t, ids, target, rows, i), all)
    decreases |rows| - i
  {
    if i < |rows| {
      if Conflicts(t, target, rows[i]) {
        SkippedColumns(t, ids, target, rows, i + 1, all);
      } else {
        InsertedValid(ids, t, target, i, rows[i]);
        SkippedColumns(Inserted(t, ids, target, i, rows[i]), ids, target, rows, i + 1, all);
      }
    }
  }

  lemma {:induction false} NothingRewritten(t: Table, target: string, rows: seq<Row>)
    requires Unique(t, target)
    ensures Rewrites(t, target, rows, DoNothing) == t
    decreases |rows|
  {
    if rows != [] {
      NothingRewritten(t, target, rows[1..]);
    }
  }

  /** The two passes. */
  method WriteRows(tx: Tx, ids: Ids, target: string, rows: seq<Row>, clause: Clause, ghost all: set<string>)
    returns (created: seq<int>, updated: seq<int>)
    requires ValidTable(ids, target, tx.table) && ValidRows(ids, target, rows) && SameColumns(rows, all)
    modifies tx
    ensures tx.table == OneByOne(old(tx.table), ids, target, rows, 0, clause) && tx.log == old(tx.log)
    ensures Distinct(created) && Elements(created) == tx.table.Keys - old(tx.table).Keys
    ensures old(tx.table).Keys <= tx.table.Keys
    ensures var first := Firsts(old(tx.table), ids, target, rows, 0);
      && Distinct(updated) && first.Keys == tx.table.Keys
      && Elements(updated) ==
        (if clause.DoUpdate? then HeldBy(first, target, Skipped(old(tx.table), ids, target, rows, 0)) else {})
  {
    PassesAreOneByOne(tx.table, ids, target, rows, 0, clause);
    SkippedConflict(tx.table, ids, target, rows, 0);
    SkippedColumns(tx.table, ids, target, rows, 0, all);
    var skipped;
    created, skipped := FirstPass(tx, ids, target, rows);
    ghost var first := tx.table;
    RewritesKeepKeys(first, target, skipped, clause);
    updated := [];
    NoneHeld(first, target);
    if clause.DoUpdate? && skipped != [] {
      updated := SecondPass(tx, target, skipped, clause.columns, all);
    } else if clause.DoNothing? {
      NothingRewritten(tx.table, target, skipped);
    }
  }

  lemma AllPresent(keys: seq<int>, t: Table)
    requires Elements(keys) <= t.Keys
    ensures Present(keys, t)
  {
    forall i | 0 <= i < |keys|
      ensures keys[i] in t
    {
      Inside(keys, i);
    }
  }

  /** `bulk_insert_with_audit`: the table that upserting row after row leaves, a Create entry for
      exactly the rows newly present, and an Update entry for exactly the rows the second pass
      rewrote, all showing the rows as they are at the end. */
  method BulkInsert(tx: Tx, returning: bool, model: AuditWrites.Model, ids: Ids, target: string, rows: seq<Row>,
                    clause: Clause, batch: nat, ghost all: set<string>)
    returns (r: Result, ghost creates: seq<Entry>, ghost updates: seq<Entry>)
    requires ValidTable(ids, target, tx.table) && ValidRows(ids, target, rows) && SameColumns(rows, all) && batch > 0
    modifies tx
    ensures r == Unsupported <==> !returning
    ensures r == MissingPrimaryKey <==> returning && rows != [] && model.pk.None?
    ensures r != Ok ==> tx.table == old(tx.table) && tx.log == old(tx.log)
    ensures r == Ok ==>
      tx.table == OneByOne(old(tx.table), ids, target, rows, 0, clause) && tx.log == old(tx.log) + creates + updates
    ensures r == Ok ==> OnePerRow(creates, Create, tx.table, tx.table.Keys - old(tx.table).Keys)
    ensures r == Ok ==> OnePerRow(updates, Update, tx.table,
      if clause.DoUpdate? then HeldBy(Firsts(old(tx.table), ids, target, rows, 0), target,
                                      Skipped(old(tx.table), ids, target, rows, 0))
      else {})
  {
    creates, updates := [], [];
    if !returning {
      return Unsupported, creates, updates;
    }
    if rows == [] {
      NoneHeld(tx.table, target);
      return Ok, creates, updates;
    }
    if model.pk.None? {
      return MissingPrimaryKey, creates, updates;
    }
    var created, updated := WriteRows(tx, ids, target, rows, clause, all);
    AllPresent(created, tx.table);
    AllPresent(updated, tx.table);
    creates := Record(tx, Create, created, batch);
    updates := Record(tx, Update, updated, batch);
    r := Ok;
  }
}
