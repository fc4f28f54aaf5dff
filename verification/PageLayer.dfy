/** What the page layer does with one request: whether the cache may answer it, under which
    key, what it may store, and how it labels its replies. */
module PageLayer {
  import opened Options
  import opened Pieces
  import opened PageKeys
  import opened PageFrame
  import opened PageNonce
  import opened PageLists
  import opened NonceSwap
  import QueryKeys

  /** A request, with the tenant it resolved to and the nonce minted for it. */
  datatype Request = Request(
    verb: Bytes, path: Bytes, query: Bytes, headers: Headers, authority: Option<Bytes>,
    body: Bytes, space: Option<Space>, nonce: Option<Bytes>)

  /** `credentials` is empty on a layer that caches authenticated requests. */
  datatype Layer = Layer(
    prefix: Bytes, mode: QueryKeys.QueryKey, varyOn: seq<Bytes>, credentials: seq<Bytes>, cacheQuery: bool,
    decode: Bytes -> Bytes, digest: Bytes -> Bytes)

  const MAX_BODY := 1048576

  const NEWLINE: byte := 10

  function HostName(): Bytes { B("host") }

  function VaryName(): Bytes { B("vary") }

  function CacheControlName(): Bytes { B("cache-control") }

  predicate ValidRequest(r: Request) {
    && ValidHeaders(r.headers) && (r.nonce.Some? ==> ValidValue(r.nonce.value))
    && (r.space.Some? ==> ValidSpace(r.space.value))
  }

  /** The digest tells bodies apart and is base64 text. */
  ghost predicate ValidLayer(l: Layer) {
    && (forall a, b :: l.digest(a) == l.digest(b) ==> a == b)
    && (forall a :: l.digest(a) != [] && l.digest(a)[0] != HASH)
  }

  // ---------------------------------------------------------------- The key of a request

  predicate IsQuery(l: Layer, r: Request) { l.cacheQuery && r.verb == B("QUERY") }

  /** Not bypassed before the generation is read. */
  predicate Admitted(l: Layer, r: Request) {
    && (r.verb == B("GET") || IsQuery(l, r))
    && (forall i :: 0 <= i < |l.credentials| ==> Values(r.headers, l.credentials[i]) == [])
    && r.space.Some?
  }

  /** A QUERY body too large to key on. */
  predicate TooLarge(l: Layer, r: Request) { IsQuery(l, r) && |r.body| > MAX_BODY }

  /** The first `Host` header if it can be read, else the authority, else nothing. */
  function Host(r: Request): Bytes {
    var hosts := Values(r.headers, HostName());
    if hosts != [] && Readable(hosts[0]) then hosts[0]
    else if r.authority.Some? then r.authority.value
    else []
  }

  predicate AllReadable(values: seq<Bytes>) { forall i :: 0 <= i < |values| ==> Readable(values[i]) }

  /** Every value of a header, joined by newlines; `None` when one cannot be read. */
  function VaryValue(h: Headers, n: Bytes): Option<Bytes> {
    if AllReadable(Values(h, n)) then Some(Join(Values(h, n), NEWLINE)) else None
  }

  predicate Keyable(l: Layer, r: Request) {
    forall i :: 0 <= i < |l.varyOn| ==> VaryValue(r.headers, l.varyOn[i]).Some?
  }

  predicate Cached(l: Layer, r: Request) { Admitted(l, r) && Keyable(l, r) && !TooLarge(l, r) }

  function PartsOf(l: Layer, r: Request, generation: nat): (p: PageParts)
    requires Cached(l, r)
    ensures |p.vary| == |l.varyOn|
  {
    PageParts(r.verb, r.path, QueryKeys.Of(l.mode, r.query, l.decode), Host(r), r.space.value,
              seq(|l.varyOn|, i requires 0 <= i < |l.varyOn| => VaryValue(r.headers, l.varyOn[i]).value),
              if IsQuery(l, r) then Some(l.digest(r.body)) else None, generation)
  }

  function Key(l: Layer, r: Request, generation: nat): Bytes
    requires Cached(l, r)
  {
    KeyText(l.prefix, PartsOf(l, r, generation), l.varyOn)
  }

  function Counter(l: Layer, r: Request): Bytes
    requires Admitted(l, r)
  {
    CounterText(l.prefix, r.path, Host(r), r.space.value)
  }

  // ---------------------------------------------------------------- What may be stored

  function VaryTokens(p: Page): seq<Bytes> { Elements(Values(p.headers, VaryName()), B("*")) }

  /** A `Vary` header of the page lists `n`; one that is not text lists `*`. */
  ghost predicate VaryNames(p: Page, n: Bytes) {
    exists i :: 0 <= i < |p.headers| && p.headers[i].name == B("vary") && ElementOf(p.headers[i].value, n, B("*"))
  }

  lemma VaryTokensIff(p: Page, n: Bytes)
    ensures n in VaryTokens(p) <==> VaryNames(p, n)
  {
    var values := Values(p.headers, VaryName());
    ElementsIff(values, n, B("*"));
    if n in VaryTokens(p) {
      var i :| 0 <= i < |values| && ElementOf(values[i], n, B("*"));
      ValueIff(p.headers, VaryName(), values[i]);
      var k :| 0 <= k < |p.headers| && p.headers[k] == Header(VaryName(), values[i]);
      assert ElementOf(p.headers[k].value, n, B("*"));
    }
    if VaryNames(p, n) {
      var k :| 0 <= k < |p.headers| && p.headers[k].name == B("vary") && ElementOf(p.headers[k].value, n, B("*"));
      ValueIff(p.headers, VaryName(), p.headers[k].value);
      assert p.headers[k] == Header(VaryName(), p.headers[k].value);
    }
  }

  /** A `Vary` token the key, or the bypass of credentials, already covers. */
  predicate Covered(l: Layer, token: Bytes) {
    Lower(token) == HostName() || Lower(token) in l.varyOn || Lower(token) in l.credentials
  }

  predicate UnkeyedVary(l: Layer, p: Page) {
    exists i :: 0 <= i < |VaryTokens(p)| && !Covered(l, VaryTokens(p)[i])
  }

  predicate OptsOut(v: Bytes) {
    && Readable(v)
    && (Finds(Lower(v), B("no-store")) || Finds(Lower(v), B("private")) || Finds(Lower(v), B("no-cache")))
  }

  /** 200, mints no cookie, and did not opt out. */
  predicate Shareable(p: Page) {
    var control := Values(p.headers, CacheControlName());
    && p.status == 200 && Values(p.headers, B("set-cookie")) == []
    && forall i :: 0 <= i < |control| ==> !OptsOut(control[i])
  }

  predicate Storable(l: Layer, r: Request, hex: Bytes, p: Page) {
    && Shareable(p) && !UnkeyedVary(l, p) && |p.body| <= MAX_BODY
    && WithoutNonce(p, r.nonce, NonceSwap.Token(hex)).Some?
  }

  /** The bytes stored for a page, if they fit a frame. */
  function FrameFor(r: Request, hex: Bytes, p: Page): Option<Bytes>
    requires ValidPage(p) && WithoutNonce(p, r.nonce, NonceSwap.Token(hex)).Some?
  {
    Encode(WithoutNonce(p, r.nonce, NonceSwap.Token(hex)).value)
  }

  // ---------------------------------------------------------------- Replies

  function VaryText(l: Layer): Bytes { HostName() + Listed(l.varyOn) }

  function Directives(elements: seq<Bytes>): seq<Bytes> {
    if elements == [] then []
    else (if Lower(elements[0]) == B("public") || Lower(elements[0]) == B("private") then [] else [elements[0]])
         + Directives(elements[1..])
  }

  /** `mark_private`, on the Cache-Control values there are. */
  function Private(values: seq<Bytes>): Bytes { B("private") + Listed(Directives(Elements(values, []))) }

  /** The headers of a reply: where it came from, what the cache keys on, and no shared copies
      of a QUERY's answer. */
  function Labelled(l: Layer, r: Request, h: Headers, origin: Bytes): Headers {
    var named := Append(Insert(h, Header(CacheStatusName(), origin)), Header(VaryName(), VaryText(l)));
    if IsQuery(l, r) then Insert(named, Header(CacheControlName(), Private(Values(named, CacheControlName()))))
    else named
  }

  function MissReply(l: Layer, r: Request, p: Page): Page { p.(headers := Labelled(l, r, p.headers, B("MISS"))) }

  function HitReply(l: Layer, r: Request, p: Page): Page { p.(headers := Labelled(l, r, p.headers, B("HIT"))) }

  function BypassReply(p: Page): Page { p.(headers := Insert(p.headers, Header(CacheStatusName(), B("BYPASS")))) }

  /** The page a frame holds for this request, if it holds one. */
  function Opened(frame: Bytes, r: Request): Option<Page> {
    match Decode(frame)
    case Err(_) => None
    case Ok(p) => WithNonce(p, r.nonce)
  }

  // ---------------------------------------------------------------- The loop of vary_value

  lemma {:induction false} JoinAppend(pieces: seq<Bytes>, x: Bytes)
    ensures Join(pieces + [x], NEWLINE) == if pieces == [] then x else Join(pieces, NEWLINE) + [NEWLINE] + x
  {
    if |pieces| > 1 {
      JoinAppend(pieces[1..], x);
      assert (pieces + [x])[1..] == pieces[1..] + [x];
    } else if |pieces| == 1 {
      assert (pieces + [x])[1..] == [x];
    }
  }

  lemma JoinStep(values: seq<Bytes>, i: nat)
    requires i < |values|
    ensures Join(values[..i + 1], NEWLINE) == (if i > 0 then Join(values[..i], NEWLINE) + [NEWLINE] else []) + values[i]
  {
    JoinAppend(values[..i], values[i]);
    assert values[..i + 1] == values[..i] + [values[i]];
  }

  method JoinAll(values: seq<Bytes>) returns (out: Option<Bytes>)
    ensures out == if AllReadable(values) then Some(Join(values, NEWLINE)) else None
  {
    var text := [];
    var i := 0;
    while i < |values|
      invariant i <= |values| && text == Join(values[..i], NEWLINE)
      invariant forall k :: 0 <= k < i ==> Readable(values[k])
    {
      if !Readable(values[i]) {
        return None;
      }
      JoinStep(values, i);
      text := (if i > 0 then text + [NEWLINE] else []) + values[i];
      i := i + 1;
    }
    assert values[..i] == values;
    out := Some(text);
  }

  method JoinValues(h: Headers, n: Bytes) returns (out: Option<Bytes>)
    ensures out == VaryValue(h, n)
  {
    out := JoinAll(Values(h, n));
  }

  // ---------------------------------------------------------------- What equal keys say

  /** The same values of a header, a missing one counting as one empty value. */
  predicate SameHeader(g: Headers, h: Headers, n: Bytes) {
    Values(g, n) == Values(h, n) || (Values(g, n) in {[], [[]]} && Values(h, n) in {[], [[]]})
  }

  lemma ReadableFree(values: seq<Bytes>)
    requires AllReadable(values)
    ensures Free(values, NEWLINE)
  {
    forall i | 0 <= i < |values|
      ensures NEWLINE !in values[i]
    {
      assert Readable(values[i]);
    }
  }

  /** Joined values say which values there were, but for a missing header and an empty one. */
  lemma SameVaryValueIff(g: Headers, h: Headers, n: Bytes)
    requires VaryValue(g, n).Some? && VaryValue(h, n).Some?
    ensures VaryValue(g, n) == VaryValue(h, n) <==> SameHeader(g, h, n)
  {
    var a, b := Values(g, n), Values(h, n);
    ReadableFree(a);
    ReadableFree(b);
    if Join(a, NEWLINE) == Join(b, NEWLINE) {
      if a != [] && b != [] {
        SplitOfJoin(a, NEWLINE);
        SplitOfJoin(b, NEWLINE);
      } else if a == [] && b != [] {
        SplitOfJoin(b, NEWLINE);
        assert Split(Join(b, NEWLINE), NEWLINE) == [[]];
      } else if b == [] && a != [] {
        SplitOfJoin(a, NEWLINE);
        assert Split(Join(a, NEWLINE), NEWLINE) == [[]];
      }
    }
  }

  /** The same keyed parts: verb, path, keyed query, host, tenant, vary_on headers, QUERY body. */
  predicate SameKeyed(l: Layer, s: Request, r: Request) {
    && s.verb == r.verb && s.path == r.path && Host(s) == Host(r) && s.space == r.space
    && QueryKeys.SameQuery(l.mode, s.query, r.query, l.decode)
    && (forall i :: 0 <= i < |l.varyOn| ==> SameHeader(s.headers, r.headers, l.varyOn[i]))
    && (IsQuery(l, s) ==> s.body == r.body)
  }

  lemma PartsValid(l: Layer, r: Request, g: nat)
    requires ValidLayer(l) && ValidRequest(r) && Cached(l, r)
    ensures ValidParts(PartsOf(l, r, g), l.varyOn)
  {
  }

  lemma SamePartsIff(l: Layer, s: Request, g: nat, r: Request, h: nat)
    requires ValidLayer(l) && Cached(l, s) && Cached(l, r)
    ensures PartsOf(l, s, g) == PartsOf(l, r, h) <==> SameKeyed(l, s, r) && g == h
  {
    var p, q := PartsOf(l, s, g), PartsOf(l, r, h);
    QueryKeys.SameQueryIff(l.mode, s.query, r.query, l.decode);
    forall i | 0 <= i < |l.varyOn|
      ensures p.vary[i] == q.vary[i] <==> SameHeader(s.headers, r.headers, l.varyOn[i])
    {
      SameVaryValueIff(s.headers, r.headers, l.varyOn[i]);
    }
    if SameKeyed(l, s, r) {
      assert p.vary == q.vary;
    }
  }

  /** Two cached requests share a key exactly when they agree on every keyed part and read the
      same generation. */
  lemma SameKeyIff(l: Layer, s: Request, g: nat, r: Request, h: nat)
    requires ValidLayer(l) && ValidRequest(s) && ValidRequest(r) && Cached(l, s) && Cached(l, r)
    ensures Key(l, s, g) == Key(l, r, h) <==> SameKeyed(l, s, r) && g == h
  {
    PartsValid(l, s, g);
    PartsValid(l, r, h);
    SameKeyIffSameParts(l.prefix, PartsOf(l, s, g), PartsOf(l, r, h), l.varyOn);
    SamePartsIff(l, s, g, r, h);
  }

  /** `s` and `r` agree on every header the page's `Vary` names. */
  ghost predicate SameVaried(s: Request, r: Request, p: Page) {
    forall n :: VaryNames(p, n) && Lower(n) != HostName() ==> SameHeader(s.headers, r.headers, Lower(n))
  }

  /** Whatever a storable page's `Vary` names besides `Host`, requests that share its key agree on. */
  lemma KeyCoversVary(l: Layer, s: Request, r: Request, p: Page)
    requires Cached(l, s) && Cached(l, r) && SameKeyed(l, s, r) && !UnkeyedVary(l, p)
    ensures SameVaried(s, r, p)
  {
    forall token | VaryNames(p, token) && Lower(token) != HostName()
      ensures SameHeader(s.headers, r.headers, Lower(token))
    {
      VaryTokensIff(p, token);
      assert Covered(l, token);
      var n := Lower(token);
      if n in l.varyOn {
        var k :| 0 <= k < |l.varyOn| && l.varyOn[k] == n;
      } else {
        var k :| 0 <= k < |l.credentials| && l.credentials[k] == n;
      }
    }
  }

  /** Two requests without a readable `Host` share a key only if they name one authority. */
  lemma AuthoritiesApart(l: Layer, s: Request, r: Request)
    requires SameKeyed(l, s, r) && s.authority.Some? && r.authority.Some?
    requires Values(s.headers, HostName()) == [] && Values(r.headers, HostName()) == []
    ensures s.authority == r.authority
  {
  }

  /** The host part of the key: the first `Host` if it can be read, else the authority, else
      nothing. */
  lemma HostPart(r: Request, i: nat)
    requires i < |r.headers| && r.headers[i].name == B("host")
    requires forall j :: 0 <= j < i ==> r.headers[j].name != B("host")
    ensures Readable(r.headers[i].value) ==> Host(r) == r.headers[i].value
    ensures !Readable(r.headers[i].value) ==> Host(r) == (if r.authority.Some? then r.authority.value else [])
  {
    FirstValue(r.headers, HostName(), i);
  }

  lemma NoHostPart(r: Request)
    requires forall j :: 0 <= j < |r.headers| ==> r.headers[j].name != B("host")
    ensures Host(r) == (if r.authority.Some? then r.authority.value else [])
  {
    ValuesEmptyIff(r.headers, HostName());
  }

  lemma {:induction false} FirstValue(h: Headers, n: Bytes, i: nat)
    requires i < |h| && h[i].name == n && forall j :: 0 <= j < i ==> h[j].name != n
    ensures Values(h, n) != [] && Values(h, n)[0] == h[i].value
  {
    if i > 0 {
      assert h[1..][i - 1] == h[i];
      FirstValue(h[1..], n, i - 1);
    }
  }

  /** One `Host` header, and it can be read. */
  predicate PlainHost(r: Request) {
    |Values(r.headers, HostName())| == 1 && Readable(Values(r.headers, HostName())[0])
  }

  /** Requests with one readable `Host` each that share a key agree on the raw header too. */
  lemma KeyCoversHost(l: Layer, s: Request, r: Request)
    requires SameKeyed(l, s, r) && PlainHost(s) && PlainHost(r)
    ensures Values(s.headers, HostName()) == Values(r.headers, HostName())
  {
    var a, b := Values(s.headers, HostName()), Values(r.headers, HostName());
    assert a == [Host(s)] && b == [Host(r)];
  }

  /** Nothing but the host and the listed headers is read for the key. */
  lemma KeyReads(l: Layer, r: Request, h: Headers, g: nat)
    requires Cached(l, r) && Host(r.(headers := h)) == Host(r)
    requires forall i :: 0 <= i < |l.varyOn| ==> Values(h, l.varyOn[i]) == Values(r.headers, l.varyOn[i])
    requires forall i :: 0 <= i < |l.credentials| ==> Values(h, l.credentials[i]) == Values(r.headers, l.credentials[i])
    ensures Cached(l, r.(headers := h)) && Key(l, r.(headers := h), g) == Key(l, r, g)
  {
    var s := r.(headers := h);
    assert Cached(l, s);
    assert PartsOf(l, s, g).vary == PartsOf(l, r, g).vary;
  }

  /** The host part is the first `Host` that can be read, else the authority: a `Host` that
      cannot be read shares a key with none at all. */
  lemma UnreadableHostShares(l: Layer, r: Request, v: Bytes, g: nat)
    requires Cached(l, r) && Values(r.headers, HostName()) == [] && !Readable(v)
    requires HostName() !in l.varyOn && HostName() !in l.credentials
    ensures var h := Insert(r.headers, Header(HostName(), v));
      && Cached(l, r.(headers := h)) && Key(l, r.(headers := h), g) == Key(l, r, g)
      && Values(h, HostName()) != Values(r.headers, HostName())
  {
    var x := Header(HostName(), v);
    var h := Insert(r.headers, x);
    ValuesInsert(r.headers, x, x.name);
    forall n | n != x.name
      ensures Values(h, n) == Values(r.headers, n)
    {
      ValuesInsert(r.headers, x, n);
    }
    assert Host(r.(headers := h)) == Host(r);
    KeyReads(l, r, h, g);
  }

  // ---------------------------------------------------------------- Labels

  lemma TwoLabels(h: Headers, x: Header, y: Header, m: Bytes)
    requires m != x.name
    ensures Values(Append(Insert(h, x), y), m) == Values(h, m) + (if m == y.name then [y.value] else [])
  {
    ValuesInsert(h, x, m);
    ValuesOfAppend(Insert(h, x), y, m);
  }

  /** What one name holds after labelling depends on what it held before. */
  function LabelOf(l: Layer, r: Request, values: seq<Bytes>, m: Bytes): seq<Bytes> {
    var more := values + (if m == VaryName() then [VaryText(l)] else []);
    if IsQuery(l, r) && m == CacheControlName() then [Private(more)] else more
  }

  lemma LabelledValues(l: Layer, r: Request, h: Headers, origin: Bytes, m: Bytes)
    requires m != CacheStatusName()
    ensures Values(Labelled(l, r, h, origin), m) == LabelOf(l, r, Values(h, m), m)
  {
    var x, y := Header(CacheStatusName(), origin), Header(VaryName(), VaryText(l));
    var named := Append(Insert(h, x), y);
    TwoLabels(h, x, y, m);
    if IsQuery(l, r) {
      var z := Header(CacheControlName(), Private(Values(named, CacheControlName())));
      assert Labelled(l, r, h, origin) == Insert(named, z);
      ValuesInsert(named, z, m);
    }
  }

  /** Labels keep two pages alike wherever they were alike. */
  lemma LabelsKeepAlike(l: Layer, r: Request, p: Page, q: Page, m: Bytes)
    requires m != CacheStatusName() && Values(p.headers, m) == Values(q.headers, m)
    ensures Values(HitReply(l, r, p).headers, m) == Values(MissReply(l, r, q).headers, m)
  {
    LabelledValues(l, r, p.headers, B("HIT"), m);
    LabelledValues(l, r, q.headers, B("MISS"), m);
  }

  lemma OriginStays(h: Headers, x: Header, y: Header, z: Header)
    requires x.name != y.name && x.name != z.name
    ensures Values(Append(Insert(h, x), y), x.name) == [x.value]
    ensures Values(Insert(Append(Insert(h, x), y), z), x.name) == [x.value]
  {
    ValuesInsert(h, x, x.name);
    ValuesOfAppend(Insert(h, x), y, x.name);
    ValuesInsert(Append(Insert(h, x), y), z, x.name);
  }

  lemma LabelNamesDiffer()
    ensures CacheStatusName() != VaryName() && CacheStatusName() != CacheControlName()
    ensures VaryName() != CacheControlName()
  {
    assert |CacheStatusName()| == 14 && |VaryName()| == 4 && |CacheControlName()| == 13;
  }

  /** Every labelled reply names its origin once, whatever the handler sent under that name; its
      `Vary` is the handler's and then every header the cache keys on; a QUERY's answer has one
      `Cache-Control`, which starts with `private`. */
  lemma LabelsSay(l: Layer, r: Request, h: Headers, origin: Bytes)
    ensures Values(Labelled(l, r, h, origin), CacheStatusName()) == [origin]
    ensures Values(Labelled(l, r, h, origin), VaryName()) == Values(h, VaryName()) + [HostName() + Listed(l.varyOn)]
    ensures IsQuery(l, r) ==> |Values(Labelled(l, r, h, origin), CacheControlName())| == 1
    ensures IsQuery(l, r) ==> B("private") <= Values(Labelled(l, r, h, origin), CacheControlName())[0]
    ensures !IsQuery(l, r) ==> Values(Labelled(l, r, h, origin), CacheControlName()) == Values(h, CacheControlName())
  {
    LabelNamesDiffer();
    var x, y := Header(CacheStatusName(), origin), Header(VaryName(), VaryText(l));
    var named := Append(Insert(h, x), y);
    OriginStays(h, x, y, Header(CacheControlName(), Private(Values(named, CacheControlName()))));
    LabelledValues(l, r, h, origin, VaryName());
    LabelledValues(l, r, h, origin, CacheControlName());
  }

  // ---- What the label lists say

  lemma NameIsItem(n: Bytes)
    requires ValidName(n)
    ensures Item(n)
  {
    assert forall i :: 0 <= i < |n| ==> PageFrame.Token(n[i]);
  }

  lemma NamesAreItems(names: seq<Bytes>)
    requires forall i :: 0 <= i < |names| ==> ValidName(names[i])
    ensures Items(names)
  {
    forall i | 0 <= i < |names|
      ensures Item(names[i])
    {
      NameIsItem(names[i]);
    }
  }

  lemma HostIsItem()
    ensures Item(HostName())
  {
    var w: Bytes := [104, 111, 115, 116];
    assert Item(w);
    assert HostName() == w;
  }

  /** The `Vary` value a reply is given reads as `host` and every header the layer varies on. */
  lemma VaryTextReads(l: Layer)
    requires forall i :: 0 <= i < |l.varyOn| ==> ValidName(l.varyOn[i])
    ensures Elements([VaryText(l)], B("*")) == [B("host")] + l.varyOn
  {
    NamesAreItems(l.varyOn);
    HostIsItem();
    ListReads(HostName(), l.varyOn, B("*"));
  }

  /** A directive that says who may keep a copy. */
  predicate SaysWho(d: Bytes) { Lower(d) == B("public") || Lower(d) == B("private") }

  lemma {:induction false} DirectivesKeep(elements: seq<Bytes>, d: Bytes)
    ensures d in Directives(elements) <==> d in elements && !SaysWho(d)
    ensures (forall i :: 0 <= i < |elements| ==> !SaysWho(elements[i])) ==> Directives(elements) == elements
    ensures Items(elements) ==> Items(Directives(elements))
  {
    if elements != [] {
      DirectivesKeep(elements[1..], d);
      assert elements == [elements[0]] + elements[1..];
    }
  }

  lemma PrivateIsItem()
    ensures Item(B("private"))
  {
    var w: Bytes := [112, 114, 105, 118, 97, 116, 101];
    assert Item(w);
    assert B("private") == w;
  }

  /** The one `Cache-Control` of a QUERY's answer reads as `private` and what the handler said
      besides `public` and `private`. */
  lemma PrivateReads(values: seq<Bytes>)
    ensures Elements([Private(values)], []) == [B("private")] + Directives(Elements(values, []))
  {
    var kept := Directives(Elements(values, []));
    assert Items(kept) by {
      ElementsItems(values, []);
      DirectivesKeep(Elements(values, []), []);
    }
    PrivateIsItem();
    ListReads(B("private"), kept, []);
  }
}
