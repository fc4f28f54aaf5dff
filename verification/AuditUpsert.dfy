/** The audited upsert in two passes, against upserting the rows one by one. */
module AuditUpsert {
  import opened Options
  import opened AuditWhere

  // ---------------------------------------------------------------- One conflict key

  /** A NULL key never conflicts. */
  function KeyOf(row: Row, target: string): Option<Value> {
    if target in row && row[target] != Null then Some(row[target]) else None
  }

  predicate Holds(t: Table, target: string, key: Option<Value>, p: int) {
    p in t && key.Some? && KeyOf(t[p], target) == key
  }

  /** The unique constraint. */
  predicate Unique(t: Table, target: string) {
    forall p, q :: p in t && q in t && KeyOf(t[p], target).Some? && KeyOf(t[p], target) == KeyOf(t[q], target) ==>
      p == q
  }

  /** Where a row's conflict key already stands. */
  function Holder(t: Table, target: string, key: Option<Value>): (h: Option<int>)
    requires Unique(t, target)
    ensures h.Some? ==> Holds(t, target, key, h.value)
    ensures h.None? ==> forall p :: !Holds(t, target, key, p)
  {
    if exists p :: p in t && Holds(t, target, key, p) then
      var p :| p in t && Holds(t, target, key, p);
      Some(p)
    else None
  }

  lemma HolderIs(t: Table, target: string, key: Option<Value>, p: int)
    requires Unique(t, target) && Holds(t, target, key, p)
    ensures Holder(t, target, key) == Some(p)
  {
  }

  /** Where a new row's primary key comes from: it is the conflict key, or it is generated from
      the keys in use and the row's place in the batch. */
  datatype Ids = ByKey | Generated(pick: (set<int>, nat) -> int)

  predicate ValidRow(ids: Ids, target: string, row: Row) {
    ids.ByKey? ==> target in row && row[target].Number?
  }

  predicate ValidRows(ids: Ids, target: string, rows: seq<Row>) {
    forall i :: 0 <= i < |rows| ==> ValidRow(ids, target, rows[i])
  }

  ghost predicate ValidTable(ids: Ids, target: string, t: Table) {
    && Unique(t, target)
    && (ids.ByKey? ==> forall p :: p in t ==> KeyOf(t[p], target) == Some(Number(p)))
    && (ids.Generated? ==> forall used: set<int>, i: nat :: ids.pick(used, i) !in used)
  }

  function PkFor(ids: Ids, target: string, used: set<int>, i: nat, row: Row): int
    requires ValidRow(ids, target, row)
  {
    match ids
    case ByKey => row[target].n
    case Generated(pick) => pick(used, i)
  }

  /** `SET col = EXCLUDED.col` for the update columns. */
  function Merge(before: Row, row: Row, columns: set<string>): Row {
    before + (map c | c in row && c in columns :: row[c])
  }

  /** `DO NOTHING`, or `DO UPDATE` of some columns. */
  datatype Clause = DoNothing | DoUpdate(columns: set<string>)

  // ---------------------------------------------------------------- One by one

  /** A row that conflicts. */
  function Rewritten(t: Table, target: string, row: Row, clause: Clause): Table
    requires Unique(t, target)
  {
    match Holder(t, target, KeyOf(row, target))
    case Some(p) => if clause.DoUpdate? then t[p := Merge(t[p], row, clause.columns)] else t
    case None => t
  }

  function Inserted(t: Table, ids: Ids, target: string, i: nat, row: Row): Table
    requires ValidRow(ids, target, row)
  {
    t[PkFor(ids, target, t.Keys, i, row) := row]
  }

  predicate Conflicts(t: Table, target: string, row: Row)
    requires Unique(t, target)
  {
    Holder(t, target, KeyOf(row, target)).Some?
  }

  lemma MergeKeepsKey(t: Table, target: string, row: Row, columns: set<string>, p: int)
    requires Holds(t, target, KeyOf(row, target), p)
    ensures KeyOf(Merge(t[p], row, columns), target) == KeyOf(t[p], target)
  {
  }

  lemma RewrittenKeepsKeys(t: Table, target: string, row: Row, clause: Clause)
    requires Unique(t, target)
    ensures var u := Rewritten(t, target, row, clause);
      u.Keys == t.Keys && forall p :: p in t ==> KeyOf(u[p], target) == KeyOf(t[p], target)
  {
    var h := Holder(t, target, KeyOf(row, target));
    if h.Some? && clause.DoUpdate? {
      MergeKeepsKey(t, target, row, clause.columns, h.value);
    }
  }

  lemma RewrittenValid(ids: Ids, t: Table, target: string, row: Row, clause: Clause)
    requires ValidTable(ids, target, t)
    ensures ValidTable(ids, target, Rewritten(t, target, row, clause))
  {
    RewrittenKeepsKeys(t, target, row, clause);
  }

  lemma FreshPk(ids: Ids, t: Table, target: string, i: nat, row: Row)
    requires ValidTable(ids, target, t) && ValidRow(ids, target, row) && !Conflicts(t, target, row)
    ensures PkFor(ids, target, t.Keys, i, row) !in t
  {
    var p := PkFor(ids, target, t.Keys, i, row);
    if ids.ByKey? && p in t {
      assert Holds(t, target, KeyOf(row, target), p);
    }
  }

  lemma InsertedValid(ids: Ids, t: Table, target: string, i: nat, row: Row)
    requires ValidTable(ids, target, t) && ValidRow(ids, target, row) && !Conflicts(t, target, row)
    ensures ValidTable(ids, target, Inserted(t, ids, target, i, row))
  {
    FreshPk(ids, t, target, i, row);
    var p := PkFor(ids, target, t.Keys, i, row);
    var u := Inserted(t, ids, target, i, row);
    forall q, s | q in u && s in u && KeyOf(u[q], target).Some? && KeyOf(u[q], target) == KeyOf(u[s], target)
      ensures q == s
    {
      assert s == p && q != p ==> Holds(t, target, KeyOf(row, target), q);
      assert q == p && s != p ==> Holds(t, target, KeyOf(row, target), s);
    }
  }

  /** `INSERT … ON CONFLICT`, row after row, from row `i` of the batch. */
  function OneByOne(t: Table, ids: Ids, target: string, rows: seq<Row>, i: nat, clause: Clause): Table
    requires ValidTable(ids, target, t) && ValidRows(ids, target, rows) && i <= |rows|
    decreases |rows| - i
  {
    if i == |rows| then t
    else if Conflicts(t, target, rows[i]) then
      RewrittenValid(ids, t, target, rows[i], clause);
      OneByOne(Rewritten(t, target, rows[i], clause), ids, target, rows, i + 1, clause)
    else
      InsertedValid(ids, t, target, i, rows[i]);
      OneByOne(Inserted(t, ids, target, i, rows[i]), ids, target, rows, i + 1, clause)
  }

  // ---------------------------------------------------------------- Two passes

  /** The first pass: every row tried with DO NOTHING. */
  function Firsts(t: Table, ids: Ids, target: string, rows: seq<Row>, i: nat): (u: Table)
    requires ValidTable(ids, target, t) && ValidRows(ids, target, rows) && i <= |rows|
    ensures ValidTable(ids, target, u)
    decreases |rows| - i
  {
    if i == |rows| then t
    else if Conflicts(t, target, rows[i]) then Firsts(t, ids, target, rows, i + 1)
    else
      InsertedValid(ids, t, target, i, rows[i]);
      Firsts(Inserted(t, ids, target, i, rows[i]), ids, target, rows, i + 1)
  }

  /** The rows it skipped. */
  function Skipped(t: Table, ids: Ids, target: string, rows: seq<Row>, i: nat): seq<Row>
    requires ValidTable(ids, target, t) && ValidRows(ids, target, rows) && i <= |rows|
    decreases |rows| - i
  {
    if i == |rows| then []
    else if Conflicts(t, target, rows[i]) then [rows[i]] + Skipped(t, ids, target, rows, i + 1)
    else
      InsertedValid(ids, t, target, i, rows[i]);
      Skipped(Inserted(t, ids, target, i, rows[i]), ids, target, rows, i + 1)
  }

  /** Rows that all conflict, applied in order. */
  function Rewrites(t: Table, target: string, rows: seq<Row>, clause: Clause): Table
    requires Unique(t, target)
    decreases |rows|
  {
    if rows == [] then t
    else
      RewrittenKeepsKeys(t, target, rows[0], clause);
      Rewrites(Rewritten(t, target, rows[0], clause), target, rows[1..], clause)
  }

  /** Same keys, same primary keys: the same rows conflict. */
  ghost predicate SameKeys(t: Table, u: Table, target: string) {
    t.Keys == u.Keys && forall p :: p in t ==> KeyOf(t[p], target) == KeyOf(u[p], target)
  }

  lemma SameHolder(t: Table, u: Table, target: string, key: Option<Value>)
    requires SameKeys(t, u, target) && Unique(t, target) && Unique(u, target)
    ensures Holder(t, target, key) == Holder(u, target, key)
  {
    var h, k := Holder(t, target, key), Holder(u, target, key);
    assert h.Some? ==> Holds(u, target, key, h.value);
    assert k.Some? ==> Holds(t, target, key, k.value);
  }

  lemma HolderAfterInsert(t: Table, ids: Ids, target: string, row: Row, i: nat, other: Row)
    requires ValidTable(ids, target, t) && ValidRow(ids, target, other)
    requires Conflicts(t, target, row) && !Conflicts(t, target, other)
    ensures Unique(Inserted(t, ids, target, i, other), target)
    ensures Holder(Inserted(t, ids, target, i, other), target, KeyOf(row, target)) ==
      Holder(t, target, KeyOf(row, target))
  {
    FreshPk(ids, t, target, i, other);
    InsertedValid(ids, t, target, i, other);
    var p := Holder(t, target, KeyOf(row, target)).value;
    var v := Inserted(t, ids, target, i, other);
    assert Holds(v, target, KeyOf(row, target), p);
    HolderIs(v, target, KeyOf(row, target), p);
  }

  lemma PutsCommute(t: Table, p: int, x: Row, q: int, y: Row)
    requires p != q
    ensures t[p := x][q := y] == t[q := y][p := x]
  {
  }

  /** Rewriting a row and inserting another do not get in each other's way. */
  lemma RewriteInsertCommute(t: Table, ids: Ids, target: string, row: Row, i: nat, other: Row, clause: Clause)
    requires ValidTable(ids, target, t) && ValidRow(ids, target, other)
    requires Conflicts(t, target, row) && !Conflicts(t, target, other)
    ensures Unique(Rewritten(t, target, row, clause), target)
    ensures !Conflicts(Rewritten(t, target, row, clause), target, other)
    ensures Unique(Inserted(t, ids, target, i, other), target)
    ensures Conflicts(Inserted(t, ids, target, i, other), target, row)
    ensures Inserted(Rewritten(t, target, row, clause), ids, target, i, other) ==
            Rewritten(Inserted(t, ids, target, i, other), target, row, clause)
  {
    var u := Rewritten(t, target, row, clause);
    RewrittenKeepsKeys(t, target, row, clause);
    RewrittenValid(ids, t, target, row, clause);
    SameHolder(t, u, target, KeyOf(other, target));
    FreshPk(ids, t, target, i, other);
    HolderAfterInsert(t, ids, target, row, i, other);
    var p, q := Holder(t, target, KeyOf(row, target)).value, PkFor(ids, target, t.Keys, i, other);
    if clause.DoUpdate? {
      PutsCommute(t, p, Merge(t[p], row, clause.columns), q, other);
    }
  }

  /** Rewriting a row first, then the first pass, is the first pass and then the rewriting. */
  lemma {:induction false} RewriteFirst(t: Table, ids: Ids, target: string, row: Row, rows: seq<Row>, i: nat,
                                        clause: Clause)
    requires ValidTable(ids, target, t) && ValidRows(ids, target, rows) && i <= |rows| && Conflicts(t, target, row)
    ensures ValidTable(ids, target, Rewritten(t, target, row, clause))
    ensures Firsts(Rewritten(t, target, row, clause), ids, target, rows, i) ==
            Rewritten(Firsts(t, ids, target, rows, i), target, row, clause)
    ensures Skipped(Rewritten(t, target, row, clause), ids, target, rows, i) == Skipped(t, ids, target, rows, i)
    decreases |rows| - i
  {
    RewrittenValid(ids, t, target, row, clause);
    if i < |rows| {
      var u := Rewritten(t, target, row, clause);
      RewrittenKeepsKeys(t, target, row, clause);
      SameHolder(t, u, target, KeyOf(rows[i], target));
      if Conflicts(t, target, rows[i]) {
        RewriteFirst(t, ids, target, row, rows, i + 1, clause);
      } else {
        RewriteInsertCommute(t, ids, target, row, i, rows[i], clause);
        InsertedValid(ids, t, target, i, rows[i]);
        RewriteFirst(Inserted(t, ids, target, i, rows[i]), ids, target, row, rows, i + 1, clause);
      }
    }
  }

  /** Row after row is the first pass, then the skipped rows in order. */
  lemma {:induction false} PassesAreOneByOne(t: Table, ids: Ids, target: string, rows: seq<Row>, i: nat, clause: Clause)
    requires ValidTable(ids, target, t) && ValidRows(ids, target, rows) && i <= |rows|
    ensures OneByOne(t, ids, target, rows, i, clause) ==
            Rewrites(Firsts(t, ids, target, rows, i), target, Skipped(t, ids, target, rows, i), clause)
    decreases |rows| - i
  {
    if i < |rows| {
      if Conflicts(t, target, rows[i]) {
        var u := Rewritten(t, target, rows[i], clause);
        RewriteFirst(t, ids, target, rows[i], rows, i + 1, clause);
        PassesAreOneByOne(u, ids, target, rows, i + 1, clause);
        assert Skipped(t, ids, target, rows, i)[1..] == Skipped(t, ids, target, rows, i + 1);
      } else {
        InsertedValid(ids, t, target, i, rows[i]);
        PassesAreOneByOne(Inserted(t, ids, target, i, rows[i]), ids, target, rows, i + 1, clause);
      }
    }
  }

  // ---------------------------------------------------------------- The last row of each key

  /** `last_per_conflict_key`: only the last row of a repeated key; NULL keys are all kept. */
  function KeepLast(rows: seq<Row>, target: string): seq<Row> {
    if rows == [] then []
    else (if Carried(rows[1..], target, KeyOf(rows[0], target)) then [] else [rows[0]]) + KeepLast(rows[1..], target)
  }

  predicate Carried(rows: seq<Row>, target: string, key: Option<Value>) {
    key.Some? && exists i :: 0 <= i < |rows| && KeyOf(rows[i], target) == key
  }

  /** The last row with a key. */
  function LastFor(rows: seq<Row>, target: string, key: Option<Value>): Option<Row> {
    if rows == [] || key.None? then None
    else
      var later := LastFor(rows[1..], target, key);
      if later.Some? then later else if KeyOf(rows[0], target) == key then Some(rows[0]) else None
  }

  lemma {:induction false} LastForIff(rows: seq<Row>, target: string, key: Option<Value>)
    ensures LastFor(rows, target, key).Some? <==> Carried(rows, target, key)
  {
    if rows != [] && key.Some? {
      LastForIff(rows[1..], target, key);
      if Carried(rows[1..], target, key) {
        var i :| 0 <= i < |rows[1..]| && KeyOf(rows[1..][i], target) == key;
        assert KeyOf(rows[i + 1], target) == key;
      }
      if Carried(rows, target, key) && KeyOf(rows[0], target) != key {
        var i :| 0 <= i < |rows| && KeyOf(rows[i], target) == key;
        assert KeyOf(rows[1..][i - 1], target) == key;
      }
    }
  }

  lemma {:induction false} KeepLastSame(rows: seq<Row>, target: string, key: Option<Value>)
    ensures LastFor(KeepLast(rows, target), target, key) == LastFor(rows, target, key)
  {
    if rows != [] {
      var rest := KeepLast(rows[1..], target);
      KeepLastSame(rows[1..], target, key);
      LastForIff(rows[1..], target, KeyOf(rows[0], target));
      if Carried(rows[1..], target, KeyOf(rows[0], target)) {
        assert KeepLast(rows, target) == rest;
      } else {
        assert KeepLast(rows, target) == [rows[0]] + rest && ([rows[0]] + rest)[1..] == rest;
      }
    }
  }

  predicate SameColumns(rows: seq<Row>, columns: set<string>) {
    forall i :: 0 <= i < |rows| ==> rows[i].Keys == columns
  }

  lemma {:induction false} LastForColumns(rows: seq<Row>, target: string, key: Option<Value>, columns: set<string>)
    requires SameColumns(rows, columns) && LastFor(rows, target, key).Some?
    ensures LastFor(rows, target, key).value.Keys == columns
  {
    if rows != [] && LastFor(rows[1..], target, key).Some? {
      LastForColumns(rows[1..], target, key, columns);
    }
  }

  /** The later of two rewrites with the same columns is all that is left of them. */
  lemma MergeTwice(row: Row, a: Row, b: Row, columns: set<string>)
    requires a.Keys == b.Keys
    ensures Merge(Merge(row, a, columns), b, columns) == Merge(row, b, columns)
  {
  }

  function Final(row: Row, rows: seq<Row>, target: string, columns: set<string>): Row {
    match LastFor(rows, target, KeyOf(row, target))
    case Some(last) => Merge(row, last, columns)
    case None => row
  }

  lemma RewrittenAt(t: Table, target: string, row: Row, columns: set<string>, p: int)
    requires Unique(t, target) && p in t
    ensures p in Rewritten(t, target, row, DoUpdate(columns))
    ensures Rewritten(t, target, row, DoUpdate(columns))[p] ==
      if Holds(t, target, KeyOf(row, target), p) then Merge(t[p], row, columns) else t[p]
  {
    if Holds(t, target, KeyOf(row, target), p) {
      HolderIs(t, target, KeyOf(row, target), p);
    }
  }

  /** Applied in order, only the last row of each key shows. */
  lemma {:induction false} RewritesAt(t: Table, target: string, rows: seq<Row>, columns: set<string>,
                                      all: set<string>, p: int)
    requires Unique(t, target) && SameColumns(rows, all) && p in t
    ensures p in Rewrites(t, target, rows, DoUpdate(columns))
    ensures Rewrites(t, target, rows, DoUpdate(columns))[p] == Final(t[p], rows, target, columns)
    decreases |rows|
  {
    if rows != [] {
      var u := Rewritten(t, target, rows[0], DoUpdate(columns));
      RewrittenKeepsKeys(t, target, rows[0], DoUpdate(columns));
      RewrittenAt(t, target, rows[0], columns, p);
      RewritesAt(u, target, rows[1..], columns, all, p);
      var key := KeyOf(t[p], target);
      var later := LastFor(rows[1..], target, key);
      if later.Some? {
        LastForColumns(rows[1..], target, key, all);
        MergeTwice(t[p], rows[0], later.value, columns);
      }
    }
  }

  lemma {:induction false} RewritesKeepKeys(t: Table, target: string, rows: seq<Row>, clause: Clause)
    requires Unique(t, target)
    ensures Rewrites(t, target, rows, clause).Keys == t.Keys
    decreases |rows|
  {
    if rows != [] {
      RewrittenKeepsKeys(t, target, rows[0], clause);
      RewritesKeepKeys(Rewritten(t, target, rows[0], clause), target, rows[1..], clause);
    }
  }

  lemma {:induction false} KeepLastColumns(rows: seq<Row>, target: string, all: set<string>)
    requires SameColumns(rows, all)
    ensures SameColumns(KeepLast(rows, target), all)
  {
    if rows != [] {
      KeepLastColumns(rows[1..], target, all);
    }
  }

  /** The statement that keeps one row per key does what all of them in order would. */
  lemma KeepLastRewrites(t: Table, target: string, rows: seq<Row>, columns: set<string>, all: set<string>)
    requires Unique(t, target) && SameColumns(rows, all)
    ensures Rewrites(t, target, KeepLast(rows, target), DoUpdate(columns)) ==
      Rewrites(t, target, rows, DoUpdate(columns))
  {
    KeepLastColumns(rows, target, all);
    RewritesKeepKeys(t, target, rows, DoUpdate(columns));
    RewritesKeepKeys(t, target, KeepLast(rows, target), DoUpdate(columns));
    forall p | p in t
      ensures Rewrites(t, target, KeepLast(rows, target), DoUpdate(columns))[p] ==
        Rewrites(t, target, rows, DoUpdate(columns))[p]
    {
      RewritesAt(t, target, rows, columns, all, p);
      RewritesAt(t, target, KeepLast(rows, target), columns, all, p);
      KeepLastSame(rows, target, KeyOf(t[p], target));
    }
  }

  // ---------------------------------------------------------------- Which keys are rewritten

  function Times(rows: seq<Row>, target: string, key: Value, i: nat): nat
    requires i <= |rows|
    decreases |rows| - i
  {
    if i == |rows| then 0 else (if KeyOf(rows[i], target) == Some(key) then 1 else 0) + Times(rows, target, key, i + 1)
  }

  lemma CarriedStep(first: Row, rest: seq<Row>, target: string, key: Option<Value>)
    ensures Carried([first] + rest, target, key) <==>
      (key.Some? && KeyOf(first, target) == key) || Carried(rest, target, key)
  {
    var rows := [first] + rest;
    if Carried(rest, target, key) {
      var i :| 0 <= i < |rest| && KeyOf(rest[i], target) == key;
      assert rows[i + 1] == rest[i];
    }
    if Carried(rows, target, key) && KeyOf(first, target) != key {
      var i :| 0 <= i < |rows| && KeyOf(rows[i], target) == key;
      assert rest[i - 1] == rows[i];
    }
    assert rows[0] == first;
  }

  lemma HolderInserted(t: Table, ids: Ids, target: string, i: nat, row: Row, key: Value)
    requires ValidTable(ids, target, t) && ValidRow(ids, target, row) && !Conflicts(t, target, row)
    requires Unique(Inserted(t, ids, target, i, row), target)
    ensures Holder(Inserted(t, ids, target, i, row), target, Some(key)).Some? <==>
      Holder(t, target, Some(key)).Some? || KeyOf(row, target) == Some(key)
  {
    FreshPk(ids, t, target, i, row);
    var u, p := Inserted(t, ids, target, i, row), PkFor(ids, target, t.Keys, i, row);
    var h, k := Holder(t, target, Some(key)), Holder(u, target, Some(key));
    assert h.Some? ==> Holds(u, target, Some(key), h.value);
    assert KeyOf(row, target) == Some(key) ==> Holds(u, target, Some(key), p);
    assert k.Some? && k.value != p ==> Holds(t, target, Some(key), k.value);
  }

  /** A key goes to the second pass exactly when the batch has it once more than the table can
      take: once if the table has it already, twice if not. */
  lemma {:induction false} SkippedIff(t: Table, ids: Ids, target: string, rows: seq<Row>, i: nat, key: Value)
    requires ValidTable(ids, target, t) && ValidRows(ids, target, rows) && i <= |rows|
    ensures Carried(Skipped(t, ids, target, rows, i), target, Some(key)) <==>
      Times(rows, target, key, i) >= (if Holder(t, target, Some(key)).Some? then 1 else 2)
    decreases |rows| - i
  {
    if i < |rows| {
      var row := rows[i];
      if Conflicts(t, target, row) {
        SkippedIff(t, ids, target, rows, i + 1, key);
        CarriedStep(row, Skipped(t, ids, target, rows, i + 1), target, Some(key));
      } else {
        var u := Inserted(t, ids, target, i, row);
        InsertedValid(ids, t, target, i, row);
        FreshPk(ids, t, target, i, row);
        SkippedIff(u, ids, target, rows, i + 1, key);
        HolderInserted(t, ids, target, i, row, key);
      }
    }
  }
}
