/** The audited bulk update and delete, and what a run of either leaves behind. */
module AuditWrites {
  import opened Options
  import opened AuditWhere
  import opened AuditChunks
  import opened AuditPages

  /** Keys per statement. */
  const CHUNK := 500

  datatype Model = Model(pk: Option<string>)

  datatype Outcome = Done(affected: nat) | MissingPrimaryKey | ChangesPrimaryKey

  predicate SetsKey(model: Model, assign: seq<Assignment>) {
    model.pk.Some? && exists i :: 0 <= i < |assign| && assign[i].column == model.pk.value
  }

  /** `UPDATE … SET … WHERE …`, as one statement. */
  function AtOnce(t: Table, w: Where, assign: seq<Assignment>): Table {
    map k | k in t :: if Matches(w, t, k) then Written(assign, t, k) else t[k]
  }

  lemma AtOnceColumns(t: Table, w: Where, assign: seq<Assignment>)
    ensures UpdatedColumns(t, AtOnce(t, w, assign), w, assign)
  {
    forall k | k in t && Matches(w, t, k)
      ensures ColumnsSet(assign, t, k, AtOnce(t, w, assign)[k])
    {
      WrittenColumns(assign, t, k);
    }
  }

  lemma UpdateLeavesOthers(t: Table, keys: seq<int>, assign: seq<Assignment>)
    ensures SameBut(t, UpdateKeys(t, keys, assign), keys)
  {
  }

  lemma KeysAreWhere(t: Table, w: Where, keys: seq<int>, assign: seq<Assignment>)
    requires Elements(keys) == Matching(w, t)
    ensures UpdateKeys(t, keys, assign) == AtOnce(t, w, assign)
  {
    forall k | k in t
      ensures k in keys <==> Matches(w, t, k)
    {
      assert k in keys <==> k in Elements(keys);
    }
  }

  lemma PagedIsAtOnce(t: Table, w: Where, keys: seq<int>, assign: seq<Assignment>)
    requires Distinct(keys) && Elements(keys) == Matching(w, t) && (AllOfRow(assign) || |keys| <= CHUNK)
    ensures Chunked(t, keys, CHUNK, assign) == AtOnce(t, w, assign)
  {
    KeysAreWhere(t, w, keys, assign);
    if AllOfRow(assign) {
      ChunkedIsAtOnce(t, keys, CHUNK, assign);
    } else {
      OnePage(t, keys, CHUNK, assign);
    }
  }

  // ---------------------------------------------------------------- Update

  /** One page: write its rows by key, read them back, record them. */
  method UpdatePage(tx: Tx, keys: seq<int>, assign: seq<Assignment>, batch: nat)
    returns (affected: nat, ghost entries: seq<Entry>)
    requires Present(keys, tx.table) && Distinct(keys) && batch > 0
    modifies tx
    ensures tx.table == UpdateKeys(old(tx.table), keys, assign) && affected == |keys|
    ensures tx.log == old(tx.log) + entries && OnePerRow(entries, Update, tx.table, Elements(keys))
  {
    affected := tx.UpdateIn(keys, assign);
    var rows := tx.RowsWhere(PkIn(keys));
    PkInMatches(keys, tx.table);
    EntriesShow(Update, rows, tx.table);
    entries := EntriesOf(Update, rows);
    tx.Emit(EntriesOf(Update, rows), batch);
  }

  lemma KeysCut(keys: seq<int>, n: nat)
    requires Distinct(keys) && n <= |keys|
    ensures Distinct(keys[..n]) && Distinct(keys[n..]) && Elements(keys[..n]) !! Elements(keys[n..])
    ensures Elements(keys) == Elements(keys[..n]) + Elements(keys[n..])
  {
    assert keys == keys[..n] + keys[n..];
  }

  /** What holds before each page: `seen` is written and recorded, `left` is to come. */
  ghost predicate Midway(tx: Tx, pages: Pages, t0: Table, log0: seq<Entry>, all: seq<int>, assign: seq<Assignment>,
                         seen: set<int>, entries: seq<Entry>, left: seq<int>)
    reads tx, pages
  {
    && pages.Valid(tx.table) && pages.Left(tx.table) == left && Distinct(left) && Present(left, tx.table)
    && seen !! Elements(left) && seen + Elements(left) == Elements(all)
    && Chunked(tx.table, left, CHUNK, assign) == Chunked(t0, all, CHUNK, assign)
    && tx.log == log0 + entries && OnePerRow(entries, Update, tx.table, seen)
  }

  /** The pure part of a page. */
  lemma PageStep(t: Table, left: seq<int>, n: nat, assign: seq<Assignment>, seen: set<int>, d: seq<Entry>,
                 e: seq<Entry>)
    requires Distinct(left) && Present(left, t) && seen !! Elements(left) && left != [] && n == PageLength(left, CHUNK)
    requires OnePerRow(d, Update, t, seen)
    requires OnePerRow(e, Update, UpdateKeys(t, left[..n], assign), Elements(left[..n]))
    ensures var u := UpdateKeys(t, left[..n], assign);
      && SameBut(t, u, left[..n]) && Present(left[n..], u) && Distinct(left[n..])
      && Chunked(u, left[n..], CHUNK, assign) == Chunked(t, left, CHUNK, assign)
      && OnePerRow(d + e, Update, u, seen + Elements(left[..n]))
      && (seen + Elements(left[..n])) !! Elements(left[n..])
      && seen + Elements(left[..n]) + Elements(left[n..]) == seen + Elements(left)
  {
    var u := UpdateKeys(t, left[..n], assign);
    UpdateLeavesOthers(t, left[..n], assign);
    KeysCut(left, n);
    EntriesStay(d, Update, t, u, seen, left[..n]);
    MoreEntries(d, e, Update, u, seen, Elements(left[..n]));
  }

  method UpdatePages(tx: Tx, pages: Pages, assign: seq<Assignment>, batch: nat, ghost all: seq<int>)
    returns (affected: nat, ghost entries: seq<Entry>)
    requires pages.Valid(tx.table) && pages.Left(tx.table) == all && Distinct(all) && Present(all, tx.table)
    requires batch > 0
    modifies tx, pages
    ensures tx.table == Chunked(old(tx.table), all, CHUNK, assign) && affected == |all|
    ensures tx.log == old(tx.log) + entries && OnePerRow(entries, Update, tx.table, Elements(all))
  {
    affected, entries := 0, [];
    ghost var seen, left := {}, all;
    while true
      invariant Midway(tx, pages, old(tx.table), old(tx.log), all, assign, seen, entries, left)
      invariant affected + |left| == |all|
      decreases |left|
    {
      ghost var t := tx.table;
      var rows := pages.Next(tx, CHUNK);
      ghost var n := PageLength(left, CHUNK);
      assert |KeysOf(rows)| == |rows| == n;
      if rows == [] {
        break;
      }
      var keys := KeysOf(rows);
      KeysCut(left, n);
      var count, more := UpdatePage(tx, keys, assign, batch);
      affected := affected + count;
      PageStep(t, left, n, assign, seen, entries, more);
      seen, entries, left := seen + Elements(keys), entries + more, left[n..];
    }
  }

  lemma KeysPresent(keys: seq<int>, t: Table, w: Where)
    requires Elements(keys) == Matching(w, t)
    ensures Present(keys, t)
  {
    forall i | 0 <= i < |keys|
      ensures keys[i] in t
    {
      Inside(keys, i);
    }
  }

  /** `update_many_with_audit`. It writes exactly the rows that matched before the call, each
      once, and records each once as it is afterwards; the table is the one-statement update's
      whenever the SET list reads only the row, or one page holds all rows. */
  method UpdateMany(tx: Tx, model: Model, w: Where, assign: seq<Assignment>, batch: nat)
    returns (r: Outcome, ghost keys: seq<int>, ghost entries: seq<Entry>)
    requires batch > 0
    modifies tx
    ensures r == MissingPrimaryKey <==> model.pk.None?
    ensures r == ChangesPrimaryKey <==> SetsKey(model, assign)
    ensures !r.Done? ==> tx.table == old(tx.table) && tx.log == old(tx.log)
    ensures r.Done? ==> Distinct(keys) && Elements(keys) == Matching(w, old(tx.table)) && r.affected == |keys|
    ensures r.Done? ==> tx.table == Chunked(old(tx.table), keys, CHUNK, assign)
    ensures r.Done? ==> tx.log == old(tx.log) + entries && OnePerRow(entries, Update, tx.table, Elements(keys))
    ensures r.Done? && (AllOfRow(assign) || |keys| <= CHUNK) ==>
      && tx.table == AtOnce(old(tx.table), w, assign)
      && UpdatedColumns(old(tx.table), tx.table, w, assign)
  {
    keys, entries := [], [];
    if model.pk.None? {
      return MissingPrimaryKey, keys, entries;
    }
    if exists i :: 0 <= i < |assign| && assign[i].column == model.pk.value {
      return ChangesPrimaryKey, keys, entries;
    }
    var pages := new Pages(w, tx);
    keys := pages.Left(tx.table);
    KeysPresent(keys, tx.table, w);
    var affected;
    affected, entries := UpdatePages(tx, pages, assign, batch, keys);
    if AllOfRow(assign) || |keys| <= CHUNK {
      PagedIsAtOnce(old(tx.table), w, keys, assign);
      AtOnceColumns(old(tx.table), w, assign);
    }
    r := Done(affected);
  }

  // ---------------------------------------------------------------- Delete

  /** One query after another, each as one statement. */
  function DeletedBy(t: Table, queries: seq<Where>): Table {
    if queries == [] then t else DeletedBy(t - Matching(queries[0], t), queries[1..])
  }

  lemma DeleteLeavesOthers(t: Table, keys: seq<int>)
    ensures SameBut(t, t - Elements(keys), keys)
  {
  }

  lemma StillPresent(t0: Table, seen: set<int>, left: seq<int>, n: nat)
    requires Present(left, t0) && seen !! Elements(left) && n <= |left|
    ensures Present(left[..n], t0 - seen)
  {
    forall i | 0 <= i < n
      ensures left[i] in t0 - seen
    {
      Inside(left, i);
    }
  }

  /** The pure part of a page: the rows recorded are those of the table at the start. */
  lemma DeleteStep(t0: Table, left: seq<int>, n: nat, seen: set<int>, d: seq<Entry>, rows: seq<Keyed>)
    requires Distinct(left) && seen !! Elements(left) && n <= |left| && KeysOf(rows) == left[..n]
    requires OnePerRow(d, Delete, t0, seen) && FromTable(rows, t0 - seen) && Present(left, t0)
    ensures Present(left[..n], t0 - seen) && Distinct(left[..n]) && Present(left[n..], t0)
    ensures SameBut(t0 - seen, t0 - (seen + Elements(left[..n])), left[..n])
    ensures (t0 - seen) - Elements(left[..n]) == t0 - (seen + Elements(left[..n]))
    ensures OnePerRow(d + EntriesOf(Delete, rows), Delete, t0, seen + Elements(left[..n]))
    ensures (seen + Elements(left[..n])) !! Elements(left[n..]) && Distinct(left[n..])
    ensures seen + Elements(left[..n]) + Elements(left[n..]) == seen + Elements(left)
  {
    KeysCut(left, n);
    StillPresent(t0, seen, left, n);
    DeleteLeavesOthers(t0 - seen, left[..n]);
    assert FromTable(rows, t0);
    EntriesShow(Delete, rows, t0);
    MoreEntries(d, EntriesOf(Delete, rows), Delete, t0, seen, Elements(left[..n]));
  }

  /** One page: delete its rows by key and record them as they were read. */
  method DeletePage(tx: Tx, rows: seq<Keyed>, batch: nat) returns (affected: nat)
    requires Present(KeysOf(rows), tx.table) && Distinct(KeysOf(rows)) && batch > 0
    modifies tx
    ensures tx.table == old(tx.table) - Elements(KeysOf(rows)) && affected == |rows|
    ensures tx.log == old(tx.log) + EntriesOf(Delete, rows)
  {
    affected := tx.DeleteIn(KeysOf(rows));
    tx.Emit(EntriesOf(Delete, rows), batch);
  }

  ghost predicate MidDelete(tx: Tx, pages: Pages, t0: Table, log0: seq<Entry>, all: seq<int>,
                            seen: set<int>, entries: seq<Entry>, left: seq<int>)
    reads tx, pages
  {
    && pages.Valid(tx.table) && pages.Left(tx.table) == left && Distinct(left) && Present(left, t0)
    && seen !! Elements(left) && seen + Elements(left) == Elements(all) && tx.table == t0 - seen
    && tx.log == log0 + entries && OnePerRow(entries, Delete, t0, seen)
  }

  /** The next page, deleted and recorded; none when nothing is left. */
  method DeleteNext(tx: Tx, pages: Pages, batch: nat, ghost t0: Table, ghost log0: seq<Entry>, ghost all: seq<int>,
                    ghost seen: set<int>, ghost entries: seq<Entry>, ghost left: seq<int>)
    returns (rows: seq<Keyed>, count: nat)
    requires MidDelete(tx, pages, t0, log0, all, seen, entries, left) && batch > 0
    modifies tx, pages
    ensures count == |rows|
    ensures rows == [] ==> left == [] && tx.table == old(tx.table) && tx.log == old(tx.log)
    ensures |rows| <= |left|
    ensures rows != [] ==>
      MidDelete(tx, pages, t0, log0, all, seen + Elements(left[..|rows|]), entries + EntriesOf(Delete, rows),
                left[|rows|..])
  {
    count := 0;
    rows := pages.Next(tx, CHUNK);
    assert |KeysOf(rows)| == |rows| == PageLength(left, CHUNK);
    if rows != [] {
      ghost var n := |rows|;
      assert KeysOf(rows) == left[..n] && pages.StillToCome(tx.table, left[..n], left[n..]);
      DeleteStep(t0, left, n, seen, entries, rows);
      count := DeletePage(tx, rows, batch);
      assert tx.table == t0 - (seen + Elements(left[..n]));
    }
  }

  method DeletePages(tx: Tx, pages: Pages, batch: nat, ghost all: seq<int>)
    returns (affected: nat, ghost entries: seq<Entry>)
    requires pages.Valid(tx.table) && pages.Left(tx.table) == all && Distinct(all) && Present(all, tx.table)
    requires batch > 0
    modifies tx, pages
    ensures tx.table == old(tx.table) - Elements(all) && affected == |entries|
    ensures tx.log == old(tx.log) + entries && OnePerRow(entries, Delete, old(tx.table), Elements(all))
  {
    affected, entries := 0, [];
    ghost var seen, left := {}, all;
    while true
      invariant MidDelete(tx, pages, old(tx.table), old(tx.log), all, seen, entries, left)
      invariant affected == |entries|
      decreases |left|
    {
      var rows, count := DeleteNext(tx, pages, batch, old(tx.table), old(tx.log), all, seen, entries, left);
      if rows == [] {
        break;
      }
      affected := affected + count;
      seen, entries, left := seen + Elements(left[..|rows|]), entries + EntriesOf(Delete, rows), left[|rows|..];
    }
  }

  /** Whether a delete without a primary key comes through: only if it finds nothing, and not
      by pages of keys. */
  predicate NeedsNoKey(w: Where, t: Table) { !IsRowLocal(w) && Matching(w, t) == {} }

  method DeleteOne(tx: Tx, model: Model, w: Where, batch: nat)
    returns (r: Outcome, ghost entries: seq<Entry>)
    requires batch > 0
    modifies tx
    ensures r.Done? || r == MissingPrimaryKey
    ensures r.Done? <==> model.pk.Some? || NeedsNoKey(w, old(tx.table))
    ensures !r.Done? ==> tx.table == old(tx.table) && tx.log == old(tx.log)
    ensures r.Done? ==> tx.table == old(tx.table) - Matching(w, old(tx.table)) && r.affected == |entries|
    ensures r.Done? ==>
      tx.log == old(tx.log) + entries && OnePerRow(entries, Delete, old(tx.table), Matching(w, old(tx.table)))
  {
    entries := [];
    var pages := new Pages(w, tx);
    ghost var all := pages.Left(tx.table);
    KeysPresent(all, tx.table, w);
    if model.pk.None? && (pages.pinned.None? || pages.pinned.value != []) {
      if pages.pinned.Some? {
        assert KeysOf(pages.pinned.value)[0] in Elements(all);
      }
      return MissingPrimaryKey, entries;
    }
    assert model.pk.None? ==> all == [];
    var affected;
    affected, entries := DeletePages(tx, pages, batch, all);
    r := Done(affected);
  }

  /** What is recorded of a run of deletes: every row gone, once, as it was at the start. */
  predicate Recorded(entries: seq<Entry>, t0: Table, t: Table) {
    t.Keys <= t0.Keys && (forall k :: k in t ==> t[k] == t0[k]) && OnePerRow(entries, Delete, t0, t0.Keys - t.Keys)
  }

  lemma RecordMore(d: seq<Entry>, e: seq<Entry>, t0: Table, t: Table, w: Where)
    requires Recorded(d, t0, t) && OnePerRow(e, Delete, t, Matching(w, t))
    ensures Recorded(d + e, t0, t - Matching(w, t))
  {
    var m := Matching(w, t);
    assert OnePerRow(e, Delete, t0, m);
    MoreEntries(d, e, Delete, t0, t0.Keys - t.Keys, m);
    assert t0.Keys - (t - m).Keys == t0.Keys - t.Keys + m;
  }

  /** `delete_each_with_audit`: the queries one after another in one transaction, or nothing. */
  method DeleteEach(tx: Tx, model: Model, queries: seq<Where>, batch: nat)
    returns (r: Outcome, ghost entries: seq<Entry>)
    requires batch > 0
    modifies tx
    ensures r.Done? || r == MissingPrimaryKey
    ensures r.Done? <==> model.pk.Some? || forall i :: 0 <= i < |queries| ==> NeedsNoKey(queries[i], old(tx.table))
    ensures !r.Done? ==> tx.table == old(tx.table) && tx.log == old(tx.log)
    ensures r.Done? ==> tx.table == DeletedBy(old(tx.table), queries) && r.affected == |entries|
    ensures r.Done? ==> tx.log == old(tx.log) + entries && Recorded(entries, old(tx.table), tx.table)
  {
    var table, log := tx.table, tx.log;
    var affected := 0;
    entries := [];
    var i := 0;
    while i < |queries|
      invariant i <= |queries| && affected == |entries|
      invariant DeletedBy(table, queries) == DeletedBy(tx.table, queries[i..])
      invariant tx.log == log + entries && Recorded(entries, table, tx.table)
      invariant model.pk.None? ==> tx.table == table && forall j :: 0 <= j < i ==> NeedsNoKey(queries[j], table)
    {
      ghost var t := tx.table;
      var one, more := DeleteOne(tx, model, queries[i], batch);
      if !one.Done? {
        tx.table, tx.log := table, log;
        return one, entries;
      }
      RecordMore(entries, more, table, t, queries[i]);
      assert queries[i..][1..] == queries[i + 1..];
      affected, entries := affected + one.affected, entries + more;
      i := i + 1;
    }
    r := Done(affected);
  }
}
