/** Tables, WHERE clauses and SET lists, as far as audited bulk writes look at them. */
module AuditWhere {
  import opened Options

  datatype Value = Null | Number(n: int) | Text(s: string)

  /** A row without its key: column to value. */
  type Row = map<string, Value>

  /** Rows by primary key. */
  type Table = map<int, Row>

  /** SQL's three truth values. */
  datatype Truth = True | False | Unknown

  /** A WHERE tree. `Predicate` reads the row's own columns. `ColumnCompare` sets a column against
      any expression, which may hold a subquery; `Query` is every other leaf: EXISTS, IN (subquery),
      a comparison of two expressions, a relation test. */
  datatype Where =
    | Predicate(test: (int, Row) -> Truth)
    | ColumnCompare(probe: (Table, int) -> Truth)
    | And(items: seq<Where>)
    | Or(items: seq<Where>)
    | Xor(items: seq<Where>)
    | Not(child: Where)
    | Query(probe: (Table, int) -> Truth)

  function AndOf(a: Truth, b: Truth): Truth {
    if a == False || b == False then False else if a == True && b == True then True else Unknown
  }

  function NotOf(a: Truth): Truth { match a case True => False case False => True case Unknown => Unknown }

  function OrOf(a: Truth, b: Truth): Truth { NotOf(AndOf(NotOf(a), NotOf(b))) }

  function AllOf(values: seq<Truth>): Truth { if values == [] then True else AndOf(values[0], AllOf(values[1..])) }

  function AnyOf(values: seq<Truth>): Truth { if values == [] then False else OrOf(values[0], AnyOf(values[1..])) }

  function Trues(values: seq<Truth>): nat {
    if values == [] then 0 else (if values[0] == True then 1 else 0) + Trues(values[1..])
  }

  /** One child is itself; otherwise an odd number of true ones, unknown counting as false. */
  function XorOf(values: seq<Truth>): Truth {
    if |values| == 1 then values[0] else if Trues(values) % 2 == 1 then True else False
  }

  function Eval(w: Where, t: Table, k: int): Truth
    requires k in t
  {
    match w
    case Predicate(test) => test(k, t[k])
    case ColumnCompare(probe) => probe(t, k)
    case And(items) => AllOf(seq(|items|, i requires 0 <= i < |items| => Eval(items[i], t, k)))
    case Or(items) => AnyOf(seq(|items|, i requires 0 <= i < |items| => Eval(items[i], t, k)))
    case Xor(items) => XorOf(seq(|items|, i requires 0 <= i < |items| => Eval(items[i], t, k)))
    case Not(child) => NotOf(Eval(child, t, k))
    case Query(probe) => probe(t, k)
  }

  predicate Matches(w: Where, t: Table, k: int) { k in t && Eval(w, t, k) == True }

  /** The keys a WHERE selects. */
  function Matching(w: Where, t: Table): set<int> { set k | k in t && Matches(w, t, k) }

  /** `is_row_local`: a test of the syntax alone. */
  predicate IsRowLocal(w: Where) {
    match w
    case Predicate(_) => true
    case And(items) => forall i :: 0 <= i < |items| ==> IsRowLocal(items[i])
    case Or(items) => forall i :: 0 <= i < |items| ==> IsRowLocal(items[i])
    case Xor(items) => forall i :: 0 <= i < |items| ==> IsRowLocal(items[i])
    case Not(child) => IsRowLocal(child)
    case _ => false
  }

  /** If the syntax test passes, no other row has a say in whether a row matches. */
  lemma {:induction false} RowLocalAlone(w: Where, t: Table, u: Table, k: int)
    requires IsRowLocal(w) && k in t && k in u && t[k] == u[k]
    ensures Eval(w, t, k) == Eval(w, u, k)
  {
    match w
    case Predicate(_) =>
    case Not(child) => RowLocalAlone(child, t, u, k);
    case And(items) => ItemsAlone(items, t, u, k);
    case Or(items) => ItemsAlone(items, t, u, k);
    case Xor(items) => ItemsAlone(items, t, u, k);
  }

  lemma {:induction false} ItemsAlone(items: seq<Where>, t: Table, u: Table, k: int)
    requires (forall i :: 0 <= i < |items| ==> IsRowLocal(items[i])) && k in t && k in u && t[k] == u[k]
    ensures seq(|items|, i requires 0 <= i < |items| => Eval(items[i], t, k)) ==
            seq(|items|, i requires 0 <= i < |items| => Eval(items[i], u, k))
  {
    forall i | 0 <= i < |items|
      ensures Eval(items[i], t, k) == Eval(items[i], u, k)
    {
      RowLocalAlone(items[i], t, u, k);
    }
  }

  // ---- The syntax test, leaf by leaf

  /** The subtree a path of child numbers leads to. */
  function At(w: Where, path: seq<nat>): Option<Where>
    decreases |path|
  {
    if path == [] then Some(w)
    else
      match w
      case And(items) => if path[0] < |items| then At(items[path[0]], path[1..]) else None
      case Or(items) => if path[0] < |items| then At(items[path[0]], path[1..]) else None
      case Xor(items) => if path[0] < |items| then At(items[path[0]], path[1..]) else None
      case Not(child) => if path[0] == 0 then At(child, path[1..]) else None
      case _ => None
  }

  /** A leaf that may read other rows. */
  predicate ReadsAround(w: Where) { w.ColumnCompare? || w.Query? }

  lemma {:induction false} LocalEverywhere(w: Where, path: seq<nat>)
    requires IsRowLocal(w) && At(w, path).Some?
    ensures !ReadsAround(At(w, path).value)
    decreases |path|
  {
    if path != [] {
      LocalEverywhere(if w.Not? then w.child else w.items[path[0]], path[1..]);
    }
  }

  lemma {:induction false} ReadsSomewhere(w: Where) returns (path: seq<nat>)
    requires !IsRowLocal(w)
    ensures At(w, path).Some? && ReadsAround(At(w, path).value)
  {
    if ReadsAround(w) {
      path := [];
    } else if w.Not? {
      var rest := ReadsSomewhere(w.child);
      path := [0] + rest;
      assert path[1..] == rest;
    } else {
      var i :| 0 <= i < |w.items| && !IsRowLocal(w.items[i]);
      var rest := ReadsSomewhere(w.items[i]);
      path := [i] + rest;
      assert path[1..] == rest;
    }
  }

  /** The test passes exactly when no leaf anywhere in the tree may read other rows. */
  lemma RowLocalIff(w: Where)
    ensures IsRowLocal(w) <==> forall path :: At(w, path).Some? ==> !ReadsAround(At(w, path).value)
  {
    if IsRowLocal(w) {
      forall path | At(w, path).Some?
        ensures !ReadsAround(At(w, path).value)
      {
        LocalEverywhere(w, path);
      }
    } else {
      var path := ReadsSomewhere(w);
    }
  }

  // ---- What the connectives select

  lemma {:induction false} AllOfIs(values: seq<Truth>)
    ensures AllOf(values) == True <==> forall i :: 0 <= i < |values| ==> values[i] == True
    ensures AllOf(values) == False <==> exists i :: 0 <= i < |values| && values[i] == False
  {
    if values != [] {
      AllOfIs(values[1..]);
      assert forall i :: 0 < i < |values| ==> values[i] == values[1..][i - 1];
    }
  }

  lemma {:induction false} AnyOfIs(values: seq<Truth>)
    ensures AnyOf(values) == True <==> exists i :: 0 <= i < |values| && values[i] == True
    ensures AnyOf(values) == False <==> forall i :: 0 <= i < |values| ==> values[i] == False
  {
    if values != [] {
      AnyOfIs(values[1..]);
      assert forall i :: 0 < i < |values| ==> values[i] == values[1..][i - 1];
    }
  }

  /** AND selects a row exactly when every part does, and rules one out when some part does. */
  lemma AndSelects(items: seq<Where>, t: Table, k: int)
    requires k in t
    ensures Matches(And(items), t, k) <==> forall i :: 0 <= i < |items| ==> Matches(items[i], t, k)
    ensures Matches(Not(And(items)), t, k) <==> exists i :: 0 <= i < |items| && Matches(Not(items[i]), t, k)
  {
    var values := seq(|items|, i requires 0 <= i < |items| => Eval(items[i], t, k));
    AllOfIs(values);
    forall i | 0 <= i < |items|
      ensures values[i] == True <==> Matches(items[i], t, k)
      ensures values[i] == False <==> Matches(Not(items[i]), t, k)
    {
    }
    assert Eval(And(items), t, k) == AllOf(values);
    assert Eval(Not(And(items)), t, k) == NotOf(AllOf(values));
  }

  /** OR selects a row exactly when some part does, and rules one out when every part does. */
  lemma OrSelects(items: seq<Where>, t: Table, k: int)
    requires k in t
    ensures Matches(Or(items), t, k) <==> exists i :: 0 <= i < |items| && Matches(items[i], t, k)
    ensures Matches(Not(Or(items)), t, k) <==> forall i :: 0 <= i < |items| ==> Matches(Not(items[i]), t, k)
  {
    var values := seq(|items|, i requires 0 <= i < |items| => Eval(items[i], t, k));
    AnyOfIs(values);
    forall i | 0 <= i < |items|
      ensures values[i] == True <==> Matches(items[i], t, k)
      ensures values[i] == False <==> Matches(Not(items[i]), t, k)
    {
    }
    assert Eval(Or(items), t, k) == AnyOf(values);
    assert Eval(Not(Or(items)), t, k) == NotOf(AnyOf(values));
  }

  /** XOR of two selects a row exactly one of them selects. */
  lemma XorSelects(a: Where, b: Where, t: Table, k: int)
    requires k in t
    ensures Matches(Xor([a, b]), t, k) <==> Matches(a, t, k) != Matches(b, t, k)
  {
    var items := [a, b];
    var values := seq(|items|, i requires 0 <= i < |items| => Eval(items[i], t, k));
    assert values == [Eval(a, t, k), Eval(b, t, k)];
    assert values[1..] == [values[1]] && values[1..][1..] == [];
    assert Trues(values) == (if values[0] == True then 1 else 0) + Trues(values[1..]);
    assert Eval(Xor(items), t, k) == XorOf(values);
  }

  // ---------------------------------------------------------------- SET

  /** What a column is set to: an expression over the row, or one that reads other rows. */
  datatype Expr = OfRow(f: (int, Row) -> Value) | Reading(g: (Table, int) -> Value)

  datatype Assignment = Assignment(column: string, value: Expr)

  function ValueOf(e: Expr, t: Table, k: int): Value
    requires k in t
  {
    match e
    case OfRow(f) => f(k, t[k])
    case Reading(g) => g(t, k)
  }

  /** The row a SET list makes; every right-hand side reads the table before the statement. */
  function Written(assign: seq<Assignment>, t: Table, k: int): Row
    requires k in t
  {
    if assign == [] then t[k]
    else
      var a := assign[|assign| - 1];
      Written(assign[..|assign| - 1], t, k)[a.column := ValueOf(a.value, t, k)]
  }

  /** `UPDATE … SET … WHERE pk IN (keys)`, as one statement. */
  function UpdateKeys(t: Table, keys: seq<int>, assign: seq<Assignment>): Table {
    map k | k in t :: if k in keys then Written(assign, t, k) else t[k]
  }

  predicate AllOfRow(assign: seq<Assignment>) { forall i :: 0 <= i < |assign| ==> assign[i].value.OfRow? }

  /** A SET list over the row alone writes the same row whatever the other rows are. */
  lemma {:induction false} WrittenAlone(assign: seq<Assignment>, t: Table, u: Table, k: int)
    requires AllOfRow(assign) && k in t && k in u && t[k] == u[k]
    ensures Written(assign, t, k) == Written(assign, u, k)
  {
    if assign != [] {
      WrittenAlone(assign[..|assign| - 1], t, u, k);
    }
  }

  // ---- What it leaves in each column

  /** No later assignment is of the same column. */
  predicate LastOf(assign: seq<Assignment>, i: nat) {
    i < |assign| && forall j :: i < j < |assign| ==> assign[j].column != assign[i].column
  }

  predicate Sets(assign: seq<Assignment>, c: string) { exists i :: 0 <= i < |assign| && assign[i].column == c }

  /** The column is in both rows with one value, or in neither. */
  predicate SameAt(a: Row, b: Row, c: string) { (c in a <==> c in b) && (c in a ==> a[c] == b[c]) }

  /** The column holds what the assignment gives on row `k` of `t`. */
  predicate Gives(a: Assignment, t: Table, k: int, row: Row)
    requires k in t
  {
    a.column in row &&
    row[a.column] == match a.value case OfRow(f) => f(k, t[k]) case Reading(g) => g(t, k)
  }

  /** `row` is row `k` of `t` after the SET list: each column holds what its last assignment gives
      on the table as it was, and a column none names is as it was. */
  ghost predicate ColumnsSet(assign: seq<Assignment>, t: Table, k: int, row: Row)
    requires k in t
  {
    && (forall i :: 0 <= i < |assign| && LastOf(assign, i) ==> Gives(assign[i], t, k, row))
    && (forall c :: !Sets(assign, c) ==> SameAt(row, t[k], c))
  }

  lemma {:induction false} WrittenColumns(assign: seq<Assignment>, t: Table, k: int)
    requires k in t
    ensures ColumnsSet(assign, t, k, Written(assign, t, k))
  {
    if assign != [] {
      var n := |assign| - 1;
      var init, last := assign[..n], assign[n];
      var row := Written(assign, t, k);
      WrittenColumns(init, t, k);
      forall i | 0 <= i < |assign| && LastOf(assign, i)
        ensures Gives(assign[i], t, k, row)
      {
        if i < n {
          assert LastOf(init, i) && init[i] == assign[i] && assign[n].column != assign[i].column;
        }
      }
      forall c | !Sets(assign, c)
        ensures SameAt(row, t[k], c)
      {
        assert !Sets(init, c);
        assert assign[n].column != c;
      }
    }
  }

  /** `u` is `t` with the SET list applied to exactly the rows a WHERE selects. */
  ghost predicate UpdatedColumns(t: Table, u: Table, w: Where, assign: seq<Assignment>) {
    && u.Keys == t.Keys
    && forall k :: k in t ==> if Matches(w, t, k) then ColumnsSet(assign, t, k, u[k]) else u[k] == t[k]
  }
}
