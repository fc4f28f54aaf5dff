/** A stored page carries a token where the request's nonce stood; a hit gets the current
    request's nonce in its place. */
module PageNonce {
  import opened Options
  import opened Pieces
  import opened PageFrame
  import opened NonceSwap

  function MarkName(): Bytes { B("x-rustango-cached-nonce") }

  function LengthName(): Bytes { B("content-length") }

  /** `to_str`: visible ASCII, spaces and tabs. */
  predicate Readable(v: Bytes) { forall i :: 0 <= i < |v| ==> 32 <= v[i] < 127 || v[i] == 9 }

  // ---------------------------------------------------------------- Header map operations

  /** `insert`: in place of every value of the name, or last. */
  function Insert(h: Headers, x: Header): Headers {
    if h == [] then [x]
    else if h[0].name == x.name then [x] + Without(h[1..], x.name)
    else [h[0]] + Insert(h[1..], x)
  }

  lemma {:induction false} ValuesWithout(h: Headers, n: Bytes, m: Bytes)
    ensures Values(Without(h, n), m) == if m == n then [] else Values(h, m)
  {
    if h != [] {
      ValuesWithout(h[1..], n, m);
      if h[0].name != n {
        assert Without(h, n)[1..] == Without(h[1..], n);
      } else {
        assert Without(h, n) == Without(h[1..], n);
      }
    }
  }

  lemma {:induction false} ValuesInsert(h: Headers, x: Header, m: Bytes)
    ensures Values(Insert(h, x), m) == if m == x.name then [x.value] else Values(h, m)
  {
    if h != [] {
      if h[0].name == x.name {
        ValuesWithout(h[1..], x.name, m);
        assert Insert(h, x)[1..] == Without(h[1..], x.name);
      } else {
        ValuesInsert(h[1..], x, m);
        assert Insert(h, x)[1..] == Insert(h[1..], x);
      }
    }
  }

  function One(x: Header, m: Bytes): seq<Bytes> { if x.name == m then [x.value] else [] }

  lemma Regroup(a: seq<Bytes>, b: seq<Bytes>, c: seq<Bytes>)
    ensures a + (b + c) == a + b + c
  {
  }

  lemma {:induction false} ValuesSnoc(h: Headers, x: Header, m: Bytes)
    ensures Values(h + [x], m) == Values(h, m) + One(x, m)
  {
    if h == [] {
      assert h + [x] == [x] && Values([x], m) == One(x, m) + Values([], m);
    } else {
      var first := One(h[0], m);
      assert (h + [x])[0] == h[0] && (h + [x])[1..] == h[1..] + [x];
      assert Values(h + [x], m) == first + Values(h[1..] + [x], m);
      assert Values(h, m) == first + Values(h[1..], m);
      ValuesSnoc(h[1..], x, m);
      Regroup(first, Values(h[1..], m), One(x, m));
    }
  }

  lemma {:induction false} ValuesOfAppend(h: Headers, x: Header, m: Bytes)
    ensures Values(Append(h, x), m) == Values(h, m) + One(x, m)
    decreases |h|
  {
    if !Has(h, x.name) || h[|h| - 1].name == x.name {
      ValuesSnoc(h, x, m);
    } else {
      var init, last := h[..|h| - 1], h[|h| - 1];
      ValuesOfAppend(init, x, m);
      ValuesSnoc(Append(init, x), last, m);
      ValuesSnoc(init, last, m);
      assert h == init + [last];
      assert One(x, m) == [] || One(last, m) == [];
    }
  }

  lemma {:induction false} InsertAbsent(h: Headers, x: Header)
    requires !Has(h, x.name)
    ensures Insert(h, x) == h + [x] && Without(h, x.name) == h
  {
    if h != [] {
      assert h[0].name != x.name;
      assert !Has(h[1..], x.name) by {
        assert forall i :: 0 <= i < |h[1..]| ==> h[1..][i] == h[i + 1];
      }
      InsertAbsent(h[1..], x);
      assert h == [h[0]] + h[1..];
    }
  }

  lemma InsertAbsentValid(h: Headers, x: Header)
    requires ValidHeaders(h) && ValidHeader(x) && !Has(h, x.name)
    ensures ValidHeaders(Insert(h, x))
  {
    InsertAbsent(h, x);
    var g := h + [x];
    forall i, j, k | 0 <= i < j < k < |g| && g[i].name == g[k].name
      ensures g[j].name == g[i].name
    {
      assert k < |h|;
    }
  }

  lemma {:induction false} InsertFrom(h: Headers, x: Header, i: nat)
    requires i < |Insert(h, x)|
    ensures Insert(h, x)[i] == x || Insert(h, x)[i] in h
  {
    if h != [] {
      if h[0].name == x.name {
        var at := WithoutOrder(h[1..], x.name);
      } else if i > 0 {
        InsertFrom(h[1..], x, i - 1);
      }
    }
  }

  /** Where each header of the new map stood, by name, when the name was there. */
  lemma {:induction false} InsertOrder(h: Headers, x: Header) returns (at: seq<nat>)
    requires Has(h, x.name)
    ensures |at| == |Insert(h, x)|
    ensures forall i :: 0 <= i < |at| ==> at[i] < |h| && Insert(h, x)[i].name == h[at[i]].name
    ensures forall i, j :: 0 <= i < j < |at| ==> at[i] < at[j]
  {
    var rest;
    if h[0].name == x.name {
      rest := WithoutOrder(h[1..], x.name);
    } else {
      assert h == [h[0]] + h[1..];
      rest := InsertOrder(h[1..], x);
    }
    at := [0] + seq(|rest|, i requires 0 <= i < |rest| => rest[i] + 1);
  }

  lemma InsertKeepsValid(h: Headers, x: Header)
    requires ValidHeaders(h) && ValidHeader(x)
    ensures ValidHeaders(Insert(h, x))
  {
    if Has(h, x.name) {
      var at := InsertOrder(h, x);
      var g := Insert(h, x);
      forall i | 0 <= i < |g|
        ensures ValidHeader(g[i])
      {
        InsertFrom(h, x, i);
      }
      forall i, j, k | 0 <= i < j < k < |g| && g[i].name == g[k].name
        ensures g[j].name == g[i].name
      {
        assert h[at[i]].name == h[at[k]].name && at[i] < at[j] < at[k];
      }
    } else {
      InsertAbsentValid(h, x);
    }
  }

  // ---------------------------------------------------------------- Swapping through a page

  /** A header value with every `from` swapped, unless that is no header value. */
  function SwapValue(v: Bytes, from: Bytes, to: Bytes): Bytes {
    if ValidValue(Replaced(v, from, to)) then Replaced(v, from, to) else v
  }

  /** Each value through `f`. */
  function MapValues(h: Headers, f: Bytes -> Bytes): Headers {
    seq(|h|, i requires 0 <= i < |h| => Header(h[i].name, f(h[i].value)))
  }

  function SwapValues(h: Headers, from: Bytes, to: Bytes): Headers {
    MapValues(h, v => SwapValue(v, from, to))
  }

  predicate Finds(s: Bytes, from: Bytes) { from != [] && Occurs(s, from) }

  /** `swap`: the body and each header value; a changed body loses its content-length. */
  function Swap(p: Page, from: Bytes, to: Bytes): Page {
    var kept := if Finds(p.body, from) then Without(p.headers, LengthName()) else p.headers;
    Page(p.status, SwapValues(kept, from, to), Replaced(p.body, from, to))
  }

  predicate Swaps(v: Bytes, from: Bytes, to: Bytes) { Finds(v, from) && ValidValue(Replaced(v, from, to)) }

  predicate Changes(p: Page, from: Bytes, to: Bytes) {
    Finds(p.body, from) || exists i :: 0 <= i < |p.headers| && Swaps(p.headers[i].value, from, to)
  }

  /** `holds`: the body or a header value contains `needle`. */
  predicate Holds(p: Page, needle: Bytes) {
    Finds(p.body, needle) || exists i :: 0 <= i < |p.headers| && Finds(p.headers[i].value, needle)
  }

  predicate IsPolicy(n: Bytes) {
    n == B("content-security-policy") || n == B("content-security-policy-report-only")
  }

  const QUOTE: byte := 39

  function Quoted(y: Bytes): Bytes { [QUOTE] + y + [QUOTE] }

  function PlaceholderText(): Bytes { B("nonce-__RUSTANGO_NONCE__") }

  /** The policy names a nonce that is neither the placeholder nor the token. */
  predicate NamesForeignNonce(v: Bytes, token: Bytes) {
    var placeholder, ours := Quoted(PlaceholderText()), Quoted(B("nonce-") + token);
    Finds(Lower(Replaced(Replaced(v, placeholder, []), ours, [])), B("'nonce-"))
  }

  predicate Foreign(p: Page, token: Bytes) {
    exists i :: 0 <= i < |p.headers| && IsPolicy(p.headers[i].name) && NamesForeignNonce(p.headers[i].value, token)
  }

  /** The page with the request's nonce swapped out, and marked when that changed it. */
  function SwappedOut(p: Page, nonce: Option<Bytes>, token: Bytes): Page {
    if nonce.Some? && Changes(p, nonce.value, token) then
      var q := Swap(p, nonce.value, token);
      q.(headers := Insert(q.headers, Header(MarkName(), token)))
    else if nonce.Some? then Swap(p, nonce.value, token)
    else p
  }

  /** `without_nonce`: the page to store, if it may be stored. */
  function WithoutNonce(p: Page, nonce: Option<Bytes>, token: Bytes): Option<Page> {
    if Holds(p, token) then None
    else
      var q := SwappedOut(p, nonce, token);
      if Foreign(q, token) then None else Some(q)
  }

  /** `with_nonce`: a stored page for this request. */
  function WithNonce(p: Page, nonce: Option<Bytes>): Option<Page> {
    var marks := Values(p.headers, MarkName());
    if marks == [] then Some(p)
    else if nonce.None? || !Readable(marks[0]) then None
    else Some(Swap(p.(headers := Without(p.headers, MarkName())), marks[0], nonce.value))
  }

  // ---------------------------------------------------------------- Values stay values

  lemma {:induction false} WeaveValid(segs: seq<Bytes>, t: Bytes)
    requires ValidValue(t) && forall i :: 0 <= i < |segs| ==> ValidValue(segs[i])
    ensures ValidValue(Weave(segs, t))
  {
    if |segs| > 1 {
      WeaveValid(segs[1..], t);
    }
  }

  lemma {:induction false} SegmentsValid(v: Bytes, t: Bytes)
    requires t != [] && ValidValue(v)
    ensures forall i :: 0 <= i < |Segments(v, t)| ==> ValidValue(Segments(v, t)[i])
    decreases |v|
  {
    var i := First(v, t);
    if i < |v| {
      SegmentsValid(v[i + |t|..], t);
    }
  }

  lemma ReplacedValid(v: Bytes, from: Bytes, to: Bytes)
    requires ValidValue(v) && ValidValue(to)
    ensures ValidValue(Replaced(v, from, to))
  {
    if from != [] {
      SegmentsValid(v, from);
      WeaveValid(Segments(v, from), to);
    }
  }

  lemma SwapValuesValid(h: Headers, from: Bytes, to: Bytes)
    requires ValidHeaders(h)
    ensures ValidHeaders(SwapValues(h, from, to))
  {
  }

  lemma {:induction false} ValuesOfMap(h: Headers, f: Bytes -> Bytes, m: Bytes)
    ensures |Values(MapValues(h, f), m)| == |Values(h, m)|
    ensures forall i :: 0 <= i < |Values(h, m)| ==> Values(MapValues(h, f), m)[i] == f(Values(h, m)[i])
  {
    if h != [] {
      assert MapValues(h, f)[1..] == MapValues(h[1..], f);
      ValuesOfMap(h[1..], f, m);
    }
  }

  predicate Carries(h: Headers, m: Bytes, v: Bytes) { Header(m, v) in h }

  lemma {:induction false} ValueIff(h: Headers, m: Bytes, v: Bytes)
    ensures v in Values(h, m) <==> Carries(h, m, v)
  {
    if h != [] {
      ValueIff(h[1..], m, v);
      assert h == [h[0]] + h[1..];
    }
  }

  lemma {:induction false} ValuesEmptyIff(h: Headers, m: Bytes)
    ensures Values(h, m) == [] <==> !Has(h, m)
  {
    if h != [] {
      ValuesEmptyIff(h[1..], m);
      assert h == [h[0]] + h[1..];
      if Has(h[1..], m) {
        var k :| 0 <= k < |h[1..]| && h[1..][k].name == m;
        assert h[k + 1].name == m;
      }
    }
  }

  /** `f` and `hit` are the swap of one value and whether it happened. */
  ghost predicate SwapAt(f: Bytes -> Bytes, hit: Bytes -> bool, from: Bytes, to: Bytes, v: Bytes) {
    f(v) == SwapValue(v, from, to) && hit(v) == Swaps(v, from, to)
  }

  lemma NothingFound(s: Bytes, from: Bytes, to: Bytes)
    ensures !Finds(s, from) ==> Replaced(s, from, to) == s
  {
    if !Finds(s, from) {
      ReplacedNothing(s, from, to);
    }
  }

  method SwapOne(v: Bytes, from: Bytes, to: Bytes, ghost f: Bytes -> Bytes, ghost hit: Bytes -> bool)
    returns (out: Bytes, changed: bool)
    requires SwapAt(f, hit, from, to, v)
    ensures out == f(v) && changed == hit(v)
  {
    var next := ReplaceBytes(v, from, to);
    NothingFound(v, from, to);
    changed := next.Some? && ValidValue(next.value);
    out := if changed then next.value else v;
  }

  method SwapHeaders(h: Headers, from: Bytes, to: Bytes, ghost f: Bytes -> Bytes, ghost hit: Bytes -> bool)
    returns (out: Headers, changed: bool)
    requires forall v :: SwapAt(f, hit, from, to, v)
    ensures out == MapValues(h, f)
    ensures changed <==> exists k :: 0 <= k < |h| && hit(h[k].value)
  {
    out, changed := [], false;
    var i := 0;
    while i < |h|
      invariant i <= |h| && |out| == i && forall k :: 0 <= k < i ==> out[k] == Header(h[k].name, f(h[k].value))
      invariant changed <==> exists k :: 0 <= k < i && hit(h[k].value)
    {
      var v, swapped := SwapOne(h[i].value, from, to, f, hit);
      changed := changed || swapped;
      out := out + [Header(h[i].name, v)];
      i := i + 1;
    }
  }

  /** `swap`, and whether it changed anything. */
  method SwapPage(p: Page, from: Bytes, to: Bytes) returns (q: Page, changed: bool)
    ensures q == Swap(p, from, to) && changed == Changes(p, from, to)
  {
    var body := ReplaceBytes(p.body, from, to);
    NothingFound(p.body, from, to);
    var kept := if body.Some? then Without(p.headers, LengthName()) else p.headers;
    var headers, some := SwapHeaders(kept, from, to, v => SwapValue(v, from, to), v => Swaps(v, from, to));
    changed := body.Some? || some;
    q := Page(p.status, headers, if body.Some? then body.value else p.body);
  }

  // ---------------------------------------------------------------- One page for two visitors

  /** Each value with `from` replaced. */
  function Each(values: seq<Bytes>, from: Bytes, to: Bytes): seq<Bytes> {
    seq(|values|, i requires 0 <= i < |values| => Replaced(values[i], from, to))
  }

  /** No value and no part of the body contains `needle`. */
  predicate Lacks(p: Page, needle: Bytes)
    requires needle != []
  {
    !Occurs(p.body, needle) && forall i :: 0 <= i < |p.headers| ==> !Occurs(p.headers[i].value, needle)
  }

  lemma LackedValue(p: Page, needle: Bytes, m: Bytes, v: Bytes)
    requires needle != [] && Lacks(p, needle) && v in Values(p.headers, m)
    ensures !Occurs(v, needle)
  {
    ValueIff(p.headers, m, v);
  }

  lemma ValidIn(h: Headers, m: Bytes, v: Bytes)
    requires ValidHeaders(h) && v in Values(h, m)
    ensures ValidValue(v)
  {
    ValueIff(h, m, v);
  }

  /** Swapping valid values for valid values replaces every one of them. */
  lemma SwapIsReplace(h: Headers, from: Bytes, to: Bytes, m: Bytes)
    requires ValidHeaders(h) && ValidValue(to)
    ensures Values(SwapValues(h, from, to), m) == Each(Values(h, m), from, to)
  {
    var vs := Values(h, m);
    ValuesOfMap(h, v => SwapValue(v, from, to), m);
    forall i | 0 <= i < |vs|
      ensures Values(SwapValues(h, from, to), m)[i] == Replaced(vs[i], from, to)
    {
      ValidIn(h, m, vs[i]);
      ReplacedValid(vs[i], from, to);
    }
  }

  /** What `swap` does, name by name. */
  lemma ValuesOfSwapped(p: Page, from: Bytes, to: Bytes, m: Bytes)
    requires ValidPage(p) && ValidValue(to) && m != LengthName()
    ensures Values(Swap(p, from, to).headers, m) == Each(Values(p.headers, m), from, to)
  {
    WithoutKeepsValid(p.headers, LengthName());
    ValuesWithout(p.headers, LengthName(), m);
    SwapIsReplace(p.headers, from, to, m);
    SwapIsReplace(Without(p.headers, LengthName()), from, to, m);
  }

  lemma SwapValid(p: Page, from: Bytes, to: Bytes)
    requires ValidPage(p)
    ensures ValidPage(Swap(p, from, to))
  {
    WithoutKeepsValid(p.headers, LengthName());
    SwapValuesValid(p.headers, from, to);
    SwapValuesValid(Without(p.headers, LengthName()), from, to);
  }

  /** Nothing to swap leaves the page alone. */
  lemma SwapNothing(p: Page, from: Bytes, to: Bytes)
    requires !Holds(p, from)
    ensures Swap(p, from, to) == p
  {
    ReplacedNothing(p.body, from, to);
    forall i | 0 <= i < |p.headers|
      ensures SwapValue(p.headers[i].value, from, to) == p.headers[i].value
    {
      ReplacedNothing(p.headers[i].value, from, to);
    }
  }

  lemma ChangesIffHolds(p: Page, from: Bytes, to: Bytes)
    requires ValidPage(p) && ValidValue(to)
    ensures Changes(p, from, to) <==> Holds(p, from)
  {
    forall i | 0 <= i < |p.headers|
      ensures ValidValue(Replaced(p.headers[i].value, from, to))
    {
      ReplacedValid(p.headers[i].value, from, to);
    }
  }

  predicate PlainChar(c: char) { 'a' <= c <= 'z' || c == '-' }

  /** Header names written in lower-case letters and dashes. */
  lemma PlainName(s: string)
    requires 1 <= |s| <= MAX_NAME && forall i :: 0 <= i < |s| ==> PlainChar(s[i])
    ensures ValidName(B(s))
  {
    forall i | 0 <= i < |s|
      ensures PageFrame.Token(B(s)[i]) && LowerByte(B(s)[i]) == B(s)[i]
    {
      assert PlainChar(s[i]);
    }
    assert Lower(B(s)) == B(s);
  }

  lemma NamesDiffer()
    ensures MarkName() != LengthName() && MarkName() != CacheStatusName() && LengthName() != CacheStatusName()
  {
    assert |MarkName()| == 23 && |LengthName()| == 14 && |CacheStatusName()| == 14;
    assert LengthName()[0] == 99 && CacheStatusName()[0] == 120;
  }

  lemma TextReadable(s: string)
    requires forall i :: 0 <= i < |s| ==> Visible(s[i])
    ensures Readable(B(s))
  {
    forall i | 0 <= i < |s|
      ensures 32 <= B(s)[i] < 127
    {
      assert Visible(s[i]);
    }
  }

  lemma ReadableConcat(a: Bytes, b: Bytes)
    requires Readable(a) && Readable(b)
    ensures Readable(a + b)
  {
  }

  lemma TokenReadable(hex: Bytes)
    requires HexText(hex)
    ensures Readable(NonceSwap.Token(hex))
  {
    TextReadable("__RUSTANGO_CACHED_NONCE_");
    TextReadable("__");
    ReadableConcat(Lead(), hex);
    ReadableConcat(Lead() + hex, B("__"));
  }

  lemma NamesAreValid(hex: Bytes)
    requires HexText(hex)
    ensures ValidValue(NonceSwap.Token(hex)) && ValidName(MarkName())
    ensures MarkName() != LengthName() && MarkName() != CacheStatusName() && LengthName() != CacheStatusName()
  {
    TokenReadable(hex);
    PlainName("x-rustango-cached-nonce");
    NamesDiffer();
  }

  /** A page its request's nonce is in is stored with that text replaced and with one mark, the
      token's, whatever marks it had. */
  lemma StoredMarked(p: Page, n: Bytes, hex: Bytes, m: Bytes)
    requires ValidPage(p) && HexText(hex) && Holds(p, n)
    ensures var q := SwappedOut(p, Some(n), NonceSwap.Token(hex));
      && ValidPage(q) && q.status == p.status && q.body == Replaced(p.body, n, NonceSwap.Token(hex))
      && Values(q.headers, MarkName()) == [NonceSwap.Token(hex)]
      && (m != LengthName() && m != MarkName() ==>
            Values(q.headers, m) == Each(Values(p.headers, m), n, NonceSwap.Token(hex)))
  {
    var t := NonceSwap.Token(hex);
    NamesAreValid(hex);
    ChangesIffHolds(p, n, t);
    var q := Swap(p, n, t);
    SwapValid(p, n, t);
    var x := Header(MarkName(), t);
    InsertKeepsValid(q.headers, x);
    ValuesInsert(q.headers, x, MarkName());
    ValuesInsert(q.headers, x, m);
    if m != LengthName() {
      ValuesOfSwapped(p, n, t, m);
    }
  }

  lemma StoredUnmarked(p: Page, nonce: Option<Bytes>, hex: Bytes)
    requires ValidPage(p) && HexText(hex) && (nonce.Some? ==> !Holds(p, nonce.value))
    ensures SwappedOut(p, nonce, NonceSwap.Token(hex)) == p
  {
    if nonce.Some? {
      NamesAreValid(hex);
      ChangesIffHolds(p, nonce.value, NonceSwap.Token(hex));
      SwapNothing(p, nonce.value, NonceSwap.Token(hex));
    }
  }

  /** Through the token and back, value by value. */
  lemma EachThroughToken(p: Page, m: Bytes, n: Bytes, hex: Bytes, other: Bytes)
    requires HexText(hex) && Lacks(p, hex)
    ensures Each(Each(Values(p.headers, m), n, NonceSwap.Token(hex)), NonceSwap.Token(hex), other) ==
            Each(Values(p.headers, m), n, other)
  {
    var vs := Values(p.headers, m);
    forall i | 0 <= i < |vs|
      ensures Replaced(Replaced(vs[i], n, NonceSwap.Token(hex)), NonceSwap.Token(hex), other) ==
        Replaced(vs[i], n, other)
    {
      LackedValue(p, hex, m, vs[i]);
      ThroughToken(vs[i], n, hex, other);
    }
  }

  /** `q` is `p` with `from` replaced by `to` in the body and in every value of `m`. */
  predicate SwapsTo(p: Page, q: Page, from: Bytes, to: Bytes, m: Bytes) {
    && q.status == p.status && q.body == Replaced(p.body, from, to)
    && Values(q.headers, m) == Each(Values(p.headers, m), from, to)
  }

  /** A page as it comes back from the store: encoded without `x-cache-status`. */
  function Kept(p: Page): Page { p.(headers := Without(p.headers, CacheStatusName())) }

  lemma WithNonceSwaps(d: Page, t: Bytes, other: Bytes, m: Bytes)
    requires ValidPage(d) && ValidValue(other) && Readable(t) && m != LengthName() && m != MarkName()
    requires Values(d.headers, MarkName()) == [t]
    ensures WithNonce(d, Some(other)).Some? && SwapsTo(d, WithNonce(d, Some(other)).value, t, other, m)
  {
    var bare := d.(headers := Without(d.headers, MarkName()));
    WithoutKeepsValid(d.headers, MarkName());
    ValuesWithout(d.headers, MarkName(), m);
    ValuesOfSwapped(bare, t, other, m);
  }

  /** One visitor's page, stored and handed to the next: the same status, and in the body and
      in every header but content-length the first visitor's nonce replaced by the second's.
      This needs only that the token's random part is not in the page. */
  lemma NonceThroughStore(p: Page, n: Bytes, hex: Bytes, other: Bytes, m: Bytes)
    requires ValidPage(p) && HexText(hex) && Lacks(p, hex)
    requires ValidValue(other) && Holds(p, n) && WithoutNonce(p, Some(n), NonceSwap.Token(hex)).Some?
    requires m != LengthName() && m != MarkName() && m != CacheStatusName()
    ensures var stored := WithoutNonce(p, Some(n), NonceSwap.Token(hex)).value;
      && ValidPage(stored) && WithNonce(Kept(stored), None) == None
      && WithNonce(Kept(stored), Some(other)).Some?
      && SwapsTo(p, WithNonce(Kept(stored), Some(other)).value, n, other, m)
  {
    var t := NonceSwap.Token(hex);
    var stored := WithoutNonce(p, Some(n), t).value;
    assert stored == SwappedOut(p, Some(n), t);
    StoredMarked(p, n, hex, m);
    NamesAreValid(hex);
    TokenReadable(hex);
    var d := Kept(stored);
    WithoutKeepsValid(stored.headers, CacheStatusName());
    ValuesWithout(stored.headers, CacheStatusName(), MarkName());
    ValuesWithout(stored.headers, CacheStatusName(), m);
    WithNonceSwaps(d, t, other, m);
    ThroughToken(p.body, n, hex, other);
    EachThroughToken(p, m, n, hex, other);
  }

  /** No page is opened with a mark on it. */
  lemma OpenedHasNoMark(d: Page, nonce: Option<Bytes>)
    requires ValidPage(d) && (nonce.Some? ==> ValidValue(nonce.value)) && WithNonce(d, nonce).Some?
    ensures Values(WithNonce(d, nonce).value.headers, MarkName()) == []
  {
    NamesDiffer();
    var marks := Values(d.headers, MarkName());
    if marks != [] {
      var bare := d.(headers := Without(d.headers, MarkName()));
      WithoutKeepsValid(d.headers, MarkName());
      ValuesWithout(d.headers, MarkName(), MarkName());
      ValuesOfSwapped(bare, marks[0], nonce.value, MarkName());
    }
  }

  /** A page its request's nonce is not in is stored as it is. It comes back as it was, for any
      visitor, exactly when it carried no mark header of its own: one it did carry is taken for
      the layer's and dropped. */
  lemma PlainThroughStore(p: Page, nonce: Option<Bytes>, hex: Bytes, other: Option<Bytes>)
    requires ValidPage(p) && HexText(hex) && (nonce.Some? ==> !Holds(p, nonce.value))
    requires WithoutNonce(p, nonce, NonceSwap.Token(hex)).Some? && (other.Some? ==> ValidValue(other.value))
    ensures WithoutNonce(p, nonce, NonceSwap.Token(hex)) == Some(p)
    ensures WithNonce(Kept(p), other) == Some(Kept(p)) <==> !Has(p.headers, MarkName())
  {
    StoredUnmarked(p, nonce, hex);
    NamesDiffer();
    ValuesEmptyIff(p.headers, MarkName());
    ValuesWithout(p.headers, CacheStatusName(), MarkName());
    WithoutKeepsValid(p.headers, CacheStatusName());
    if WithNonce(Kept(p), other).Some? {
      OpenedHasNoMark(Kept(p), other);
    }
  }

  predicate Visible(c: char) { ' ' <= c <= '~' }
}
