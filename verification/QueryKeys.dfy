/** The part of the query string a page key holds, and when two queries share it. */
module QueryKeys {
  import opened Pieces

  /** Raw, the named params only, or nothing. */
  datatype QueryKey = Raw | Only(names: seq<Bytes>) | Ignore

  // ---------------------------------------------------------------- Names in order

  predicate Leq(a: Bytes, b: Bytes) {
    a == [] || (b != [] && (a[0] < b[0] || (a[0] == b[0] && Leq(a[1..], b[1..]))))
  }

  lemma {:induction false} LeqAntisymmetric(a: Bytes, b: Bytes)
    requires Leq(a, b) && Leq(b, a)
    ensures a == b
  {
    if a != [] && b != [] {
      LeqAntisymmetric(a[1..], b[1..]);
      assert a == [a[0]] + a[1..] && b == [b[0]] + b[1..];
    }
  }

  lemma {:induction false} LeqTotal(a: Bytes, b: Bytes)
    ensures Leq(a, b) || Leq(b, a)
  {
    if a != [] && b != [] {
      LeqTotal(a[1..], b[1..]);
    }
  }

  lemma {:induction false} LeqTransitive(a: Bytes, b: Bytes, c: Bytes)
    requires Leq(a, b) && Leq(b, c)
    ensures Leq(a, c)
  {
    if a != [] && b != [] && c != [] && a[0] == b[0] == c[0] {
      LeqTransitive(a[1..], b[1..], c[1..]);
    }
  }

  // ---------------------------------------------------------------- The key text

  type Decoder = Bytes -> Bytes

  /** The decoded name of a raw pair: what stands before its first `=`. */
  function Name(pair: Bytes, decode: Decoder): Bytes { decode(pair[..Find(pair, EQUALS)]) }

  function NonEmpty(pieces: seq<Bytes>): seq<Bytes> {
    if pieces == [] then []
    else (if pieces[0] == [] then [] else [pieces[0]]) + NonEmpty(pieces[1..])
  }

  /** The raw pairs of a query, empty ones skipped. */
  function RawPairs(query: Bytes): seq<Bytes> { NonEmpty(Split(query, AMPERSAND)) }

  function Kept(pairs: seq<Bytes>, names: seq<Bytes>, decode: Decoder): seq<Bytes> {
    if pairs == [] then []
    else (if Name(pairs[0], decode) in names then [pairs[0]] else []) + Kept(pairs[1..], names, decode)
  }

  function Insert(x: Bytes, sorted: seq<Bytes>, decode: Decoder): seq<Bytes> {
    if sorted == [] || Leq(Name(x, decode), Name(sorted[0], decode)) then [x] + sorted
    else [sorted[0]] + Insert(x, sorted[1..], decode)
  }

  /** By decoded name; repeated params keep their order. */
  function StableSort(pairs: seq<Bytes>, decode: Decoder): seq<Bytes> {
    if pairs == [] then [] else Insert(pairs[0], StableSort(pairs[1..], decode), decode)
  }

  /** The query text this mode keys on. */
  function Of(mode: QueryKey, query: Bytes, decode: Decoder): Bytes {
    match mode
    case Raw => query
    case Ignore => []
    case Only(names) => Join(StableSort(Kept(RawPairs(query), names, decode), decode), AMPERSAND)
  }

  // ---------------------------------------------------------------- Sorting keeps each name's order

  /** The pairs of one name, in order. */
  function Named(pairs: seq<Bytes>, n: Bytes, decode: Decoder): seq<Bytes> {
    if pairs == [] then []
    else (if Name(pairs[0], decode) == n then [pairs[0]] else []) + Named(pairs[1..], n, decode)
  }

  predicate Sorted(pairs: seq<Bytes>, decode: Decoder) {
    pairs == [] ||
    (Sorted(pairs[1..], decode) && (pairs[1..] == [] || Leq(Name(pairs[0], decode), Name(pairs[1], decode))))
  }

  lemma {:induction false} InsertSorts(x: Bytes, sorted: seq<Bytes>, decode: Decoder)
    requires Sorted(sorted, decode)
    ensures Sorted(Insert(x, sorted, decode), decode)
    ensures Insert(x, sorted, decode)[0] == x || (sorted != [] && Insert(x, sorted, decode)[0] == sorted[0])
  {
    if sorted != [] && !Leq(Name(x, decode), Name(sorted[0], decode)) {
      LeqTotal(Name(x, decode), Name(sorted[0], decode));
      InsertSorts(x, sorted[1..], decode);
      assert Insert(x, sorted, decode)[1..] == Insert(x, sorted[1..], decode);
    } else {
      assert ([x] + sorted)[1..] == sorted;
    }
  }

  lemma NamedCons(x: Bytes, pairs: seq<Bytes>, n: Bytes, decode: Decoder)
    ensures Named([x] + pairs, n, decode) == (if Name(x, decode) == n then [x] else []) + Named(pairs, n, decode)
  {
    assert ([x] + pairs)[1..] == pairs;
  }

  lemma OneIsEmpty(a: seq<Bytes>, b: seq<Bytes>, rest: seq<Bytes>)
    requires a == [] || b == []
    ensures a + (b + rest) == b + (a + rest)
  {
  }

  lemma InsertLater(x: Bytes, sorted: seq<Bytes>, decode: Decoder)
    requires sorted != [] && !Leq(Name(x, decode), Name(sorted[0], decode))
    ensures Insert(x, sorted, decode) == [sorted[0]] + Insert(x, sorted[1..], decode)
    ensures Name(x, decode) != Name(sorted[0], decode)
  {
    LeqTotal(Name(x, decode), Name(sorted[0], decode));
  }

  lemma {:induction false} InsertKeepsNamed(x: Bytes, sorted: seq<Bytes>, n: Bytes, decode: Decoder)
    ensures Named(Insert(x, sorted, decode), n, decode) ==
            (if Name(x, decode) == n then [x] else []) + Named(sorted, n, decode)
  {
    if sorted != [] && !Leq(Name(x, decode), Name(sorted[0], decode)) {
      InsertLater(x, sorted, decode);
      InsertKeepsNamed(x, sorted[1..], n, decode);
      NamedCons(sorted[0], Insert(x, sorted[1..], decode), n, decode);
      var one := if Name(x, decode) == n then [x] else [];
      var two := if Name(sorted[0], decode) == n then [sorted[0]] else [];
      OneIsEmpty(one, two, Named(sorted[1..], n, decode));
    } else {
      NamedCons(x, sorted, n, decode);
    }
  }

  lemma {:induction false} SortKeepsNamed(pairs: seq<Bytes>, n: Bytes, decode: Decoder)
    ensures Sorted(StableSort(pairs, decode), decode)
    ensures Named(StableSort(pairs, decode), n, decode) == Named(pairs, n, decode)
  {
    if pairs != [] {
      var rest := StableSort(pairs[1..], decode);
      SortKeepsNamed(pairs[1..], n, decode);
      InsertSorts(pairs[0], rest, decode);
      InsertKeepsNamed(pairs[0], rest, n, decode);
      assert ([pairs[0]] + rest)[1..] == rest;
    }
  }

  lemma {:induction false} KeptKeepsNamed(pairs: seq<Bytes>, names: seq<Bytes>, n: Bytes, decode: Decoder)
    ensures Named(Kept(pairs, names, decode), n, decode) == if n in names then Named(pairs, n, decode) else []
  {
    if pairs != [] {
      var rest := Kept(pairs[1..], names, decode);
      KeptKeepsNamed(pairs[1..], names, n, decode);
      if Name(pairs[0], decode) in names {
        assert ([pairs[0]] + rest)[1..] == rest;
      } else {
        assert [] + rest == rest;
      }
    }
  }

  // ---------------------------------------------------------------- Sorted lists from their names

  lemma {:induction false} FirstIsLeast(pairs: seq<Bytes>, n: Bytes, decode: Decoder)
    requires Sorted(pairs, decode) && Named(pairs, n, decode) != []
    ensures Leq(Name(pairs[0], decode), n)
  {
    if Name(pairs[0], decode) == n {
      LeqTotal(n, n);
    } else {
      assert Named(pairs, n, decode) == Named(pairs[1..], n, decode);
      FirstIsLeast(pairs[1..], n, decode);
      LeqTransitive(Name(pairs[0], decode), Name(pairs[1], decode), n);
    }
  }

  /** Sorted lists with the same pairs of each name start alike. */
  lemma SameHead(a: seq<Bytes>, b: seq<Bytes>, decode: Decoder)
    requires Sorted(a, decode) && Sorted(b, decode) && a != [] && b != []
    requires forall n :: Named(a, n, decode) == Named(b, n, decode)
    ensures a[0] == b[0]
  {
    var k, l := Name(a[0], decode), Name(b[0], decode);
    assert Named(a, k, decode)[0] == a[0];
    assert Named(b, l, decode)[0] == b[0];
    FirstIsLeast(b, k, decode);
    FirstIsLeast(a, l, decode);
    LeqAntisymmetric(k, l);
  }

  lemma SameTail(a: seq<Bytes>, b: seq<Bytes>, n: Bytes, decode: Decoder)
    requires a != [] && b != [] && a[0] == b[0] && Named(a, n, decode) == Named(b, n, decode)
    ensures Named(a[1..], n, decode) == Named(b[1..], n, decode)
  {
    var head := if Name(a[0], decode) == n then [a[0]] else [];
    SamePrefix(head, Named(a[1..], n, decode), head, Named(b[1..], n, decode));
  }

  /** A sorted list is determined by the order its pairs of each name have. */
  lemma {:induction false} SortedDetermined(a: seq<Bytes>, b: seq<Bytes>, decode: Decoder)
    requires Sorted(a, decode) && Sorted(b, decode)
    requires forall n :: Named(a, n, decode) == Named(b, n, decode)
    ensures a == b
    decreases |a|
  {
    assert b != [] ==> Named(b, Name(b[0], decode), decode) == Named(a, Name(b[0], decode), decode);
    assert a != [] ==> Named(a, Name(a[0], decode), decode) == Named(b, Name(a[0], decode), decode);
    if a != [] && b != [] {
      SameHead(a, b, decode);
      forall n
        ensures Named(a[1..], n, decode) == Named(b[1..], n, decode)
      {
        SameTail(a, b, n, decode);
      }
      SortedDetermined(a[1..], b[1..], decode);
      assert a == [a[0]] + a[1..] && b == [b[0]] + b[1..];
    }
  }

  // ---------------------------------------------------------------- When two queries share a key text

  /** Raw pairs: not empty, no `&` inside. */
  predicate Clean(pairs: seq<Bytes>) {
    forall i :: 0 <= i < |pairs| ==> pairs[i] != [] && AMPERSAND !in pairs[i]
  }

  lemma {:induction false} NonEmptyClean(pieces: seq<Bytes>)
    requires Free(pieces, AMPERSAND)
    ensures Clean(NonEmpty(pieces))
  {
    if pieces != [] {
      NonEmptyClean(pieces[1..]);
    }
  }

  lemma {:induction false} KeptClean(pairs: seq<Bytes>, names: seq<Bytes>, decode: Decoder)
    requires Clean(pairs)
    ensures Clean(Kept(pairs, names, decode))
  {
    if pairs != [] {
      KeptClean(pairs[1..], names, decode);
    }
  }

  lemma {:induction false} InsertClean(x: Bytes, sorted: seq<Bytes>, decode: Decoder)
    requires Clean(sorted) && x != [] && AMPERSAND !in x
    ensures Clean(Insert(x, sorted, decode))
  {
    if sorted != [] {
      InsertClean(x, sorted[1..], decode);
    }
  }

  lemma {:induction false} SortClean(pairs: seq<Bytes>, decode: Decoder)
    requires Clean(pairs)
    ensures Clean(StableSort(pairs, decode))
  {
    if pairs != [] {
      SortClean(pairs[1..], decode);
      InsertClean(pairs[0], StableSort(pairs[1..], decode), decode);
    }
  }

  lemma JoinCleanInjective(a: seq<Bytes>, b: seq<Bytes>)
    requires Clean(a) && Clean(b) && Join(a, AMPERSAND) == Join(b, AMPERSAND)
    ensures a == b
  {
    if a != [] && b != [] {
      SplitOfJoin(a, AMPERSAND);
      SplitOfJoin(b, AMPERSAND);
    }
  }

  /** What `query_keys` keys on, before it is joined. */
  function Selected(query: Bytes, names: seq<Bytes>, decode: Decoder): seq<Bytes> {
    StableSort(Kept(RawPairs(query), names, decode), decode)
  }

  lemma SelectedFacts(query: Bytes, names: seq<Bytes>, n: Bytes, decode: Decoder)
    ensures Clean(Selected(query, names, decode)) && Sorted(Selected(query, names, decode), decode)
    ensures Named(Selected(query, names, decode), n, decode) ==
            if n in names then Named(RawPairs(query), n, decode) else []
  {
    JoinOfSplit(query, AMPERSAND);
    NonEmptyClean(Split(query, AMPERSAND));
    KeptClean(RawPairs(query), names, decode);
    SortClean(Kept(RawPairs(query), names, decode), decode);
    SortKeepsNamed(Kept(RawPairs(query), names, decode), n, decode);
    KeptKeepsNamed(RawPairs(query), names, n, decode);
  }

  /** Under `query_keys`, two queries give the same key text exactly when, for every listed
      name, they hold the same raw pairs of that decoded name in the same order. */
  lemma SameQueryKeyIff(q: Bytes, r: Bytes, names: seq<Bytes>, decode: Decoder)
    ensures Of(Only(names), q, decode) == Of(Only(names), r, decode) <==>
            forall n :: n in names ==> Named(RawPairs(q), n, decode) == Named(RawPairs(r), n, decode)
  {
    var a, b := Selected(q, names, decode), Selected(r, names, decode);
    SelectedFacts(q, names, [], decode);
    SelectedFacts(r, names, [], decode);
    if Of(Only(names), q, decode) == Of(Only(names), r, decode) {
      JoinCleanInjective(a, b);
      forall n | n in names
        ensures Named(RawPairs(q), n, decode) == Named(RawPairs(r), n, decode)
      {
        SelectedFacts(q, names, n, decode);
        SelectedFacts(r, names, n, decode);
      }
    }
    if forall n :: n in names ==> Named(RawPairs(q), n, decode) == Named(RawPairs(r), n, decode) {
      forall n
        ensures Named(a, n, decode) == Named(b, n, decode)
      {
        SelectedFacts(q, names, n, decode);
        SelectedFacts(r, names, n, decode);
      }
      SortedDetermined(a, b, decode);
    }
  }

  // ---------------------------------------------------------------- Every mode

  /** The raw pairs of a query with one decoded name, in order. */
  function PairsNamed(query: Bytes, n: Bytes, decode: Decoder): seq<Bytes> { Named(RawPairs(query), n, decode) }

  /** What two queries must share to share a key: all of it, the pairs of each listed name, or
      nothing. */
  predicate SameQuery(mode: QueryKey, q: Bytes, r: Bytes, decode: Decoder) {
    match mode
    case Raw => q == r
    case Only(names) => forall n :: n in names ==> PairsNamed(q, n, decode) == PairsNamed(r, n, decode)
    case Ignore => true
  }

  lemma SameQueryIff(mode: QueryKey, q: Bytes, r: Bytes, decode: Decoder)
    ensures Of(mode, q, decode) == Of(mode, r, decode) <==> SameQuery(mode, q, r, decode)
  {
    if mode.Only? {
      SameQueryKeyIff(q, r, mode.names, decode);
    }
  }

  // ---- Which pairs a query has: these four say it of every query

  lemma {:induction false} NonEmptyConcat(a: seq<Bytes>, b: seq<Bytes>)
    ensures NonEmpty(a + b) == NonEmpty(a) + NonEmpty(b)
  {
    if a == [] {
      assert a + b == b;
    } else {
      assert (a + b)[1..] == a[1..] + b;
      NonEmptyConcat(a[1..], b);
    }
  }

  lemma {:induction false} NamedConcat(a: seq<Bytes>, b: seq<Bytes>, n: Bytes, decode: Decoder)
    ensures Named(a + b, n, decode) == Named(a, n, decode) + Named(b, n, decode)
  {
    if a == [] {
      assert a + b == b;
    } else {
      assert (a + b)[1..] == a[1..] + b;
      NamedConcat(a[1..], b, n, decode);
    }
  }

  /** An `&` separates pairs, wherever it stands. */
  lemma PairsOfTwo(a: Bytes, b: Bytes, n: Bytes, decode: Decoder)
    ensures PairsNamed(a + [AMPERSAND] + b, n, decode) == PairsNamed(a, n, decode) + PairsNamed(b, n, decode)
  {
    SplitConcat(a, AMPERSAND, b);
    NonEmptyConcat(Split(a, AMPERSAND), Split(b, AMPERSAND));
    NamedConcat(RawPairs(a), RawPairs(b), n, decode);
  }

  lemma OnePair(pair: Bytes, n: Bytes, decode: Decoder)
    requires pair != [] && AMPERSAND !in pair
    ensures PairsNamed(pair, n, decode) == if Name(pair, decode) == n then [pair] else []
  {
    FindNone(pair, AMPERSAND);
    assert Split(pair, AMPERSAND) == [pair];
    var one := [pair];
    assert one[1..] == [] && NonEmpty(one) == [one[0]] + NonEmpty(one[1..]);
    assert NonEmpty(one) == [pair];
    NamedCons(pair, [], n, decode);
  }

  /** `k=v` has the decoded name `k`, whatever the value holds. */
  lemma PairOfValue(k: Bytes, v: Bytes, n: Bytes, decode: Decoder)
    requires AMPERSAND !in k && AMPERSAND !in v && EQUALS !in k
    ensures PairsNamed(k + [EQUALS] + v, n, decode) == if decode(k) == n then [k + [EQUALS] + v] else []
  {
    var pair := k + [EQUALS] + v;
    assert pair[..|k|] == k;
    FindAt(pair, EQUALS, |k|);
    OnePair(pair, n, decode);
  }

  /** A pair without `=` is all name, and an empty one is none. */
  lemma PairOfName(k: Bytes, n: Bytes, decode: Decoder)
    requires AMPERSAND !in k && EQUALS !in k
    ensures PairsNamed(k, n, decode) == if k != [] && decode(k) == n then [k] else []
  {
    if k == [] {
      assert Split(k, AMPERSAND) == [[]] && RawPairs(k) == NonEmpty([[]]);
    } else {
      FindNone(k, EQUALS);
      assert k[..|k|] == k;
      OnePair(k, n, decode);
    }
  }
}
