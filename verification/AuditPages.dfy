/** Audited bulk update and delete: pages of rows, written and recorded inside one transaction. */
module AuditPages {
  import opened Options
  import opened AuditWhere
  import opened AuditChunks

  // ---------------------------------------------------------------- Keys in order

  predicate Ascending(keys: seq<int>) { forall i, j :: 0 <= i < j < |keys| ==> keys[i] < keys[j] }

  function Elements(keys: seq<int>): set<int> { set k | k in keys }

  predicate IsLeast(s: set<int>, m: int) { m in s && forall k :: k in s ==> m <= k }

  lemma LeastOfTwo(s: set<int>, x: int, y: int)
    requires x in s && IsLeast(s - {x}, y)
    ensures IsLeast(s, if x < y then x else y)
  {
    forall k | k in s
      ensures k == x || y <= k
    {
      assert k == x || k in s - {x};
    }
  }

  lemma LeastOfOne(s: set<int>, x: int)
    requires x in s && s - {x} == {}
    ensures IsLeast(s, x)
  {
    assert s == {x};
  }

  lemma {:induction false} LeastExists(s: set<int>)
    requires s != {}
    ensures exists m :: IsLeast(s, m)
  {
    EmptyOrNot(s);
    var x :| x in s;
    if s - {x} == {} {
      LeastOfOne(s, x);
    } else {
      LeastExists(s - {x});
      var y :| IsLeast(s - {x}, y);
      LeastOfTwo(s, x, y);
    }
  }

  function Least(s: set<int>): (m: int)
    requires s != {}
    ensures IsLeast(s, m)
  {
    LeastExists(s);
    assert exists m :: m in s && IsLeast(s, m);
    var m :| m in s && IsLeast(s, m);
    m
  }

  lemma Inside(keys: seq<int>, i: nat)
    requires i < |keys|
    ensures keys[i] in Elements(keys)
  {
  }

  lemma LeastFirst(s: set<int>, m: int, rest: seq<int>)
    requires IsLeast(s, m) && Ascending(rest) && Elements(rest) == s - {m}
    ensures Ascending([m] + rest) && Elements([m] + rest) == s
  {
    forall i | 0 <= i < |rest|
      ensures m < rest[i]
    {
      Inside(rest, i);
    }
    forall k
      ensures k in Elements([m] + rest) <==> k in s
    {
      assert k in rest <==> k in Elements(rest);
    }
  }

  /** `ORDER BY pk`. */
  function Sort(s: set<int>): (keys: seq<int>)
    ensures Ascending(keys) && Elements(keys) == s
  {
    if s == {} then []
    else
      var m := Least(s);
      LeastFirst(s, m, Sort(s - {m}));
      [m] + Sort(s - {m})
  }

  lemma TailElements(a: seq<int>)
    requires a != [] && Ascending(a)
    ensures Elements(a[1..]) == Elements(a) - {a[0]} && Ascending(a[1..])
  {
    assert a == [a[0]] + a[1..];
  }

  lemma {:induction false} AscendingUnique(a: seq<int>, b: seq<int>)
    requires Ascending(a) && Ascending(b) && Elements(a) == Elements(b)
    ensures a == b
    decreases |a|
  {
    assert a != [] ==> a[0] in Elements(b);
    assert b != [] ==> b[0] in Elements(a);
    if a != [] {
      assert a[0] == b[0];
      TailElements(a);
      TailElements(b);
      AscendingUnique(a[1..], b[1..]);
      assert a == [a[0]] + a[1..] && b == [b[0]] + b[1..];
    }
  }

  // ---------------------------------------------------------------- Keyset pages

  predicate Beyond(k: int, last: Option<int>) { last.Some? ==> k > last.value }

  /** `WHERE … AND pk > last`. */
  function Ahead(w: Where, t: Table, last: Option<int>): set<int> {
    set k | k in t && Matches(w, t, k) && Beyond(k, last)
  }

  /** `t` and `u` are the same but for `keys`. */
  ghost predicate SameBut(t: Table, u: Table, keys: seq<int>) {
    forall k :: k !in keys ==> (k in t <==> k in u) && (k in t ==> t[k] == u[k])
  }

  lemma AheadStays(w: Where, t: Table, u: Table, last: Option<int>, mark: int, k: int)
    requires IsRowLocal(w) && Beyond(mark, last) && k > mark
    requires (k in t <==> k in u) && (k in t ==> t[k] == u[k])
    ensures k in Ahead(w, u, Some(mark)) <==> k in Ahead(w, t, last)
  {
    if k in t {
      RowLocalAlone(w, t, u, k);
    }
  }

  lemma PastMark(keys: seq<int>, n: nat, k: int)
    requires Ascending(keys) && 0 < n <= |keys|
    ensures k in keys[n..] <==> k in keys && k > keys[n - 1]
    ensures k > keys[n - 1] ==> k !in keys[..n]
  {
    if k in keys && k > keys[n - 1] {
      var i :| 0 <= i < |keys| && keys[i] == k;
      assert keys[n..][i - n] == k;
    }
  }

  lemma RestAt(w: Where, t: Table, last: Option<int>, keys: seq<int>, n: nat, u: Table, k: int)
    requires IsRowLocal(w) && Ascending(keys) && Elements(keys) == Ahead(w, t, last) && 0 < n <= |keys|
    requires SameBut(t, u, keys[..n])
    ensures k in Ahead(w, u, Some(keys[n - 1])) <==> k in keys[n..]
  {
    PastMark(keys, n, k);
    Inside(keys, n - 1);
    if k > keys[n - 1] {
      AheadStays(w, t, u, last, keys[n - 1], k);
      assert k in keys <==> k in Elements(keys);
    }
  }

  /** After a page is written, what lies past its last key is what lay past it before. */
  lemma PageRest(w: Where, t: Table, last: Option<int>, keys: seq<int>, n: nat, u: Table)
    requires IsRowLocal(w) && keys == Sort(Ahead(w, t, last)) && 0 < n <= |keys| && SameBut(t, u, keys[..n])
    ensures Sort(Ahead(w, u, Some(keys[n - 1]))) == keys[n..]
  {
    forall k
      ensures k in Ahead(w, u, Some(keys[n - 1])) <==> k in keys[n..]
    {
      RestAt(w, t, last, keys, n, u, k);
    }
    assert Elements(keys[n..]) == Ahead(w, u, Some(keys[n - 1]));
    AscendingUnique(Sort(Ahead(w, u, Some(keys[n - 1]))), keys[n..]);
  }

  // ---------------------------------------------------------------- Rows and their entries

  datatype Keyed = Keyed(key: int, row: Row)

  datatype Op = Create | Update | Delete

  datatype Entry = Entry(op: Op, key: int, row: Row)

  function KeysOf(rows: seq<Keyed>): seq<int> { seq(|rows|, i requires 0 <= i < |rows| => rows[i].key) }

  function EntryKeys(entries: seq<Entry>): seq<int> {
    seq(|entries|, i requires 0 <= i < |entries| => entries[i].key)
  }

  function EntriesOf(op: Op, rows: seq<Keyed>): seq<Entry> {
    seq(|rows|, i requires 0 <= i < |rows| => Entry(op, rows[i].key, rows[i].row))
  }

  /** The rows are the table's own. */
  predicate FromTable(rows: seq<Keyed>, t: Table) {
    forall i :: 0 <= i < |rows| ==> rows[i].key in t && t[rows[i].key] == rows[i].row
  }

  predicate Shows(e: Entry, op: Op, t: Table) { e.op == op && e.key in t && e.row == t[e.key] }

  /** Exactly one entry for each key, showing the row `t` has. */
  predicate OnePerRow(entries: seq<Entry>, op: Op, t: Table, keys: set<int>) {
    && Distinct(EntryKeys(entries)) && Elements(EntryKeys(entries)) == keys
    && forall i :: 0 <= i < |entries| ==> Shows(entries[i], op, t)
  }

  lemma EntriesShow(op: Op, rows: seq<Keyed>, t: Table)
    requires FromTable(rows, t) && Distinct(KeysOf(rows))
    ensures OnePerRow(EntriesOf(op, rows), op, t, Elements(KeysOf(rows)))
  {
    assert EntryKeys(EntriesOf(op, rows)) == KeysOf(rows);
  }

  lemma DistinctConcat(a: seq<int>, b: seq<int>)
    requires Distinct(a) && Distinct(b) && Elements(a) !! Elements(b)
    ensures Distinct(a + b) && Elements(a + b) == Elements(a) + Elements(b)
  {
    forall i, j | 0 <= i < j < |a + b|
      ensures (a + b)[i] != (a + b)[j]
    {
      if i < |a| <= j {
        assert a[i] in Elements(a) && b[j - |a|] in Elements(b);
      }
    }
  }

  /** Entries of disjoint keys, one batch after the other. */
  lemma MoreEntries(d: seq<Entry>, e: seq<Entry>, op: Op, t: Table, a: set<int>, b: set<int>)
    requires OnePerRow(d, op, t, a) && OnePerRow(e, op, t, b) && a !! b
    ensures OnePerRow(d + e, op, t, a + b)
  {
    DistinctConcat(EntryKeys(d), EntryKeys(e));
    assert EntryKeys(d + e) == EntryKeys(d) + EntryKeys(e);
  }

  /** Entries already written stay right when other rows change. */
  lemma EntriesStay(d: seq<Entry>, op: Op, t: Table, u: Table, a: set<int>, keys: seq<int>)
    requires OnePerRow(d, op, t, a) && SameBut(t, u, keys) && a !! Elements(keys)
    ensures OnePerRow(d, op, u, a)
  {
    forall i | 0 <= i < |d|
      ensures Shows(d[i], op, u)
    {
      assert EntryKeys(d)[i] in Elements(EntryKeys(d));
      assert d[i].key !in keys;
    }
  }

  /** `pk IN (keys)`. */
  function PkIn(keys: seq<int>): Where { Predicate((k: int, row: Row) => if k in keys then True else False) }

  lemma PkInMatches(keys: seq<int>, t: Table)
    requires Present(keys, t)
    ensures Matching(PkIn(keys), t) == Elements(keys)
  {
  }

  // ---------------------------------------------------------------- The transaction

  function RowsAt(t: Table, keys: seq<int>): (rows: seq<Keyed>)
    requires Present(keys, t)
    ensures KeysOf(rows) == keys && FromTable(rows, t)
  {
    seq(|keys|, i requires 0 <= i < |keys| => Keyed(keys[i], t[keys[i]]))
  }

  lemma SortedPresent(s: set<int>, t: Table)
    requires forall k :: k in s ==> k in t
    ensures Present(Sort(s), t) && Distinct(Sort(s))
  {
    forall i | 0 <= i < |Sort(s)|
      ensures Sort(s)[i] in t
    {
      Inside(Sort(s), i);
    }
  }

  class Tx {
    var table: Table
    var log: seq<Entry>

    constructor (t: Table)
      ensures table == t && log == []
    {
      table, log := t, [];
    }

    /** Rows a WHERE selects, each once. The database promises no order. */
    method RowsWhere(w: Where) returns (rows: seq<Keyed>)
      ensures Distinct(KeysOf(rows)) && Elements(KeysOf(rows)) == Matching(w, table) && FromTable(rows, table)
    {
      SortedPresent(Matching(w, table), table);
      rows := RowsAt(table, Sort(Matching(w, table)));
    }

    /** `… ORDER BY pk LIMIT limit`. */
    method FirstRows(w: Where, last: Option<int>, limit: nat) returns (rows: seq<Keyed>)
      ensures KeysOf(rows) == Sort(Ahead(w, table, last))[..PageLength(Sort(Ahead(w, table, last)), limit)]
      ensures FromTable(rows, table)
    {
      var keys := Sort(Ahead(w, table, last));
      SortedPresent(Ahead(w, table, last), table);
      rows := RowsAt(table, keys[..PageLength(keys, limit)]);
    }

    method UpdateIn(keys: seq<int>, assign: seq<Assignment>) returns (affected: nat)
      requires Present(keys, table) && Distinct(keys)
      modifies this
      ensures table == UpdateKeys(old(table), keys, assign) && log == old(log) && affected == |keys|
    {
      table := UpdateKeys(table, keys, assign);
      affected := |keys|;
    }

    method DeleteIn(keys: seq<int>) returns (affected: nat)
      requires Present(keys, table) && Distinct(keys)
      modifies this
      ensures table == old(table) - Elements(keys) && log == old(log) && affected == |keys|
    {
      table := table - Elements(keys);
      affected := |keys|;
    }

    /** `emit_many_tx`: the entries in order, a bind-limited batch at a time. */
    method Emit(entries: seq<Entry>, batch: nat)
      requires batch > 0
      modifies this
      ensures table == old(table) && log == old(log) + entries
    {
      var i := 0;
      while i < |entries|
        invariant i <= |entries| && table == old(table) && log == old(log) + entries[..i]
      {
        var j := if |entries| - i < batch then |entries| else i + batch;
        assert entries[..j] == entries[..i] + entries[i..j];
        log := log + entries[i..j];
        i := j;
      }
      assert entries[..i] == entries;
    }
  }

  // ---------------------------------------------------------------- Pages

  lemma RestStays(t: Table, left: seq<int>, n: nat, rest: seq<Keyed>)
    requires n <= |left| && Distinct(left) && KeysOf(rest) == left[n..] && FromTable(rest, t)
    ensures forall u :: SameBut(t, u, left[..n]) ==> FromTable(rest, u)
  {
    forall u | SameBut(t, u, left[..n])
      ensures FromTable(rest, u)
    {
      forall i | 0 <= i < |rest|
        ensures rest[i].key in u && u[rest[i].key] == rest[i].row
      {
        assert rest[i].key == KeysOf(rest)[i] == left[n + i];
        assert rest[i].key !in left[..n];
      }
    }
  }

  /** The rows a bulk write goes through. A row-local WHERE is read page by page past the last
      key; any other is read once, before the first write. */
  class Pages {
    const filter: Where
    var pinned: Option<seq<Keyed>>
    var last: Option<int>
    var done: bool

    ghost predicate Valid(t: Table)
      reads this
    {
      if pinned.None? then IsRowLocal(filter) else FromTable(pinned.value, t)
    }

    /** The keys still to come. */
    ghost function Left(t: Table): seq<int>
      reads this
    {
      if pinned.Some? then KeysOf(pinned.value) else if done then [] else Sort(Ahead(filter, t, last))
    }

    constructor (w: Where, tx: Tx)
      ensures Valid(tx.table) && Distinct(Left(tx.table)) && Elements(Left(tx.table)) == Matching(w, tx.table)
      ensures pinned.None? <==> IsRowLocal(w)
    {
      var rows := None;
      if !IsRowLocal(w) {
        var read := tx.RowsWhere(w);
        rows := Some(read);
      }
      filter, pinned, last, done := w, rows, None, false;
      new;
      assert Ahead(w, tx.table, None) == Matching(w, tx.table);
    }

    /** `next`: the first keys still to come; whatever is then written to those rows, the rest
        are still to come. */
    method Next(tx: Tx, chunk: nat) returns (rows: seq<Keyed>)
      requires Valid(tx.table) && chunk > 0 && Distinct(Left(tx.table))
      modifies this
      ensures KeysOf(rows) == old(Left(tx.table))[..PageLength(old(Left(tx.table)), chunk)]
      ensures FromTable(rows, tx.table)
      ensures StillToCome(tx.table, KeysOf(rows), old(Left(tx.table))[|rows|..])
      ensures pinned.None? <==> old(pinned.None?)
    {
      if pinned.Some? {
        rows := NextPinned(tx, chunk);
      } else if done {
        rows := [];
      } else {
        rows := NextKeyset(tx, chunk);
      }
    }

    /** Whatever is written to the rows of `keys`, `rest` is still to come. */
    ghost predicate StillToCome(t: Table, keys: seq<int>, rest: seq<int>)
      reads this
    {
      forall u :: SameBut(t, u, keys) ==> Valid(u) && Left(u) == rest
    }

    method NextPinned(tx: Tx, chunk: nat) returns (rows: seq<Keyed>)
      requires Valid(tx.table) && chunk > 0 && Distinct(Left(tx.table)) && pinned.Some?
      modifies this
      ensures KeysOf(rows) == old(Left(tx.table))[..PageLength(old(Left(tx.table)), chunk)]
      ensures FromTable(rows, tx.table) && pinned.Some?
      ensures StillToCome(tx.table, KeysOf(rows), old(Left(tx.table))[|rows|..])
    {
      ghost var left := Left(tx.table);
      var n := PageLength(KeysOf(pinned.value), chunk);
      rows := pinned.value[..n];
      pinned := Some(pinned.value[n..]);
      assert KeysOf(rows) == left[..n] && KeysOf(pinned.value) == left[n..];
      RestStays(tx.table, left, n, pinned.value);
    }

    method NextKeyset(tx: Tx, chunk: nat) returns (rows: seq<Keyed>)
      requires Valid(tx.table) && chunk > 0 && pinned.None? && !done
      modifies this
      ensures KeysOf(rows) == old(Left(tx.table))[..PageLength(old(Left(tx.table)), chunk)]
      ensures FromTable(rows, tx.table) && pinned.None?
      ensures StillToCome(tx.table, KeysOf(rows), old(Left(tx.table))[|rows|..])
    {
      ghost var t, left, before := tx.table, Left(tx.table), last;
      rows := tx.FirstRows(filter, last, chunk);
      assert |KeysOf(rows)| == |rows| == PageLength(left, chunk);
      done := |rows| < chunk;
      last := if rows == [] then None else Some(rows[|rows| - 1].key);
      if !done {
        assert rows[|rows| - 1].key == KeysOf(rows)[|rows| - 1] == left[|rows| - 1];
        forall u | SameBut(t, u, KeysOf(rows))
          ensures Left(u) == left[|rows|..]
        {
          PageRest(filter, t, before, left, |rows|, u);
        }
      }
    }
  }
}
