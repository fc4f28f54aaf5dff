/** The page cache under any interleaving of requests, invalidations and evictions. */
module PageRuns {
  import opened Options
  import opened Pieces
  import opened PageKeys
  import opened PageFrame
  import opened PageNonce
  import opened PageLayer
  import NonceSwap

  /** A stored page (and the session that stored it), or a generation counter. */
  datatype Cell = Stored(frame: Bytes, writer: nat) | Count(n: nat)

  type Cache = map<Bytes, Cell>

  /** A request on its way through the layer; `hex` is the random part of its process's token. */
  datatype Session =
    | Starting(req: Request, hex: Bytes)
    | Passing(req: Request, hex: Bytes, tagged: bool)
    | Looking(req: Request, hex: Bytes, generation: nat)
    | Running(req: Request, hex: Bytes, generation: nat)
    | Storing(req: Request, hex: Bytes, generation: nat, page: Page)
    | Missed(req: Request, hex: Bytes, generation: nat, page: Page, reply: Page)
    | Hit(req: Request, hex: Bytes, generation: nat, writer: nat, reply: Page)
    | Passed(req: Request, hex: Bytes, page: Page, reply: Page)

  datatype State = State(cache: Cache, sessions: map<nat, Session>)

  /** `Respond` is the handler's answer; `Bump` the increment of `invalidate`; `Drop` its delete,
      or an entry evicted or expired. Counters are not dropped. */
  datatype Event =
    | Arrive(id: nat, req: Request, hex: Bytes)
    | Step(id: nat)
    | Respond(id: nat, page: Page)
    | Bump(path: Bytes, host: Bytes, space: Space)
    | Drop(key: Bytes)

  /** A missing counter, or one that is no number, reads as 0. */
  function Reading(cache: Cache, key: Bytes): nat {
    if key in cache && cache[key].Count? then cache[key].n else 0
  }

  /** The page an entry holds for this request. A counter's text is no frame. */
  function Found(cache: Cache, key: Bytes, r: Request): Option<Page> {
    if key in cache && cache[key].Stored? then Opened(cache[key].frame, r) else None
  }

  function Start(l: Layer, cache: Cache, s: Session): Session
    requires s.Starting?
  {
    if Admitted(l, s.req) then Looking(s.req, s.hex, Reading(cache, Counter(l, s.req)))
    else Passing(s.req, s.hex, false)
  }

  function Look(l: Layer, cache: Cache, s: Session): Session
    requires s.Looking?
  {
    if TooLarge(l, s.req) then Passing(s.req, s.hex, true)
    else if !Cached(l, s.req) then Passing(s.req, s.hex, false)
    else
      var key := Key(l, s.req, s.generation);
      match Found(cache, key, s.req)
      case Some(p) => Hit(s.req, s.hex, s.generation, cache[key].writer, HitReply(l, s.req, p))
      case None => Running(s.req, s.hex, s.generation)
  }

  function Answer(l: Layer, s: Session, page: Page): Session
    requires s.Running? || s.Passing?
  {
    if s.Passing? then Passed(s.req, s.hex, page, if s.tagged then BypassReply(page) else page)
    else if !Shareable(page) then Passed(s.req, s.hex, page, page)
    else if !Storable(l, s.req, s.hex, page) then Passed(s.req, s.hex, page, BypassReply(page))
    else Storing(s.req, s.hex, s.generation, page)
  }

  function Store(l: Layer, cache: Cache, s: Session, id: nat): Cache
    requires s.Storing? && ValidPage(s.page) && Cached(l, s.req) && Storable(l, s.req, s.hex, s.page)
  {
    match FrameFor(s.req, s.hex, s.page)
    case Some(frame) => cache[Key(l, s.req, s.generation) := Stored(frame, id)]
    case None => cache
  }

  predicate Enabled(l: Layer, st: State, e: Event) {
    match e
    case Arrive(id, req, hex) => id !in st.sessions && ValidRequest(req) && NonceSwap.HexText(hex)
    case Step(id) =>
      && id in st.sessions && var s := st.sessions[id];
      || s.Starting? || s.Looking?
      || (s.Storing? && ValidPage(s.page) && Cached(l, s.req) && Storable(l, s.req, s.hex, s.page))
    case Respond(id, page) =>
      id in st.sessions && (st.sessions[id].Running? || st.sessions[id].Passing?) && ValidPage(page)
    case Bump(_, _, space) => ValidSpace(space)
    case Drop(key) => key in st.cache && st.cache[key].Stored?
  }

  function Stepped(l: Layer, st: State, id: nat): State
    requires Enabled(l, st, Step(id))
  {
    var s := st.sessions[id];
    match s
    case Starting(_, _) => st.(sessions := st.sessions[id := Start(l, st.cache, s)])
    case Looking(_, _, _) => st.(sessions := st.sessions[id := Look(l, st.cache, s)])
    case Storing(req, hex, generation, page) =>
      State(Store(l, st.cache, s, id), st.sessions[id := Missed(req, hex, generation, page, MissReply(l, req, page))])
  }

  function Apply(l: Layer, st: State, e: Event): State
    requires Enabled(l, st, e)
  {
    match e
    case Arrive(id, req, hex) => st.(sessions := st.sessions[id := Starting(req, hex)])
    case Step(id) => Stepped(l, st, id)
    case Respond(id, page) => st.(sessions := st.sessions[id := Answer(l, st.sessions[id], page)])
    case Bump(path, host, space) =>
      var key := CounterText(l.prefix, path, host, space);
      st.(cache := st.cache[key := Count(Reading(st.cache, key) + 1)])
    case Drop(key) => st.(cache := st.cache - {key})
  }

  predicate Runnable(l: Layer, st: State, run: seq<Event>)
    decreases |run|
  {
    run == [] || (Enabled(l, st, run[0]) && Runnable(l, Apply(l, st, run[0]), run[1..]))
  }

  function After(l: Layer, st: State, run: seq<Event>): State
    requires Runnable(l, st, run)
    decreases |run|
  {
    if run == [] then st else After(l, Apply(l, st, run[0]), run[1..])
  }

  function Empty(): State { State(map[], map[]) }

  // ---------------------------------------------------------------- What is sent

  /** A header the layer does not touch in a reply to `r`. */
  predicate LeftAlone(l: Layer, r: Request, m: Bytes) {
    && m != B("x-cache-status") && m != B("vary")
    && !(m == B("cache-control") && l.cacheQuery && r.verb == B("QUERY"))
  }

  /** A miss sends the handler's page: its status, body and headers, with the origin said once, the
      keyed headers added to `Vary`, and no shared copies of a QUERY's answer. */
  ghost predicate MissSent(l: Layer, r: Request, p: Page, reply: Page) {
    && reply.status == p.status && reply.body == p.body
    && Values(reply.headers, B("x-cache-status")) == [B("MISS")]
    && Values(reply.headers, B("vary")) == Values(p.headers, B("vary")) + [VaryText(l)]
    && (l.cacheQuery && r.verb == B("QUERY") ==>
          Values(reply.headers, B("cache-control")) == [Private(Values(p.headers, B("cache-control")))])
    && (forall m :: LeftAlone(l, r, m) ==> Values(reply.headers, m) == Values(p.headers, m))
  }

  /** A page passed on is the handler's as it is, or with one `x-cache-status`, `BYPASS`. */
  ghost predicate PassSent(p: Page, reply: Page, bypass: bool) {
    if !bypass then reply == p
    else
      && reply.status == p.status && reply.body == p.body
      && Values(reply.headers, B("x-cache-status")) == [B("BYPASS")]
      && forall m :: m != B("x-cache-status") ==> Values(reply.headers, m) == Values(p.headers, m)
  }

  /** A page passed on is marked when the layer would have kept it but could not: too large a
      QUERY to key on, or a page it may share and still not store. */
  predicate Bypasses(l: Layer, s: Session)
    requires s.Passed?
  {
    Admitted(l, s.req) && (TooLarge(l, s.req) || (Keyable(l, s.req) && Shareable(s.page)))
  }

  ghost predicate Replied(l: Layer, s: Session) {
    && (s.Missed? ==> MissSent(l, s.req, s.page, s.reply))
    && (s.Passed? ==> PassSent(s.page, s.reply, Bypasses(l, s)))
    && (s.Hit? ==> Values(s.reply.headers, B("x-cache-status")) == [B("HIT")])
  }

  lemma LeftAloneLabel(l: Layer, r: Request, h: Headers, origin: Bytes, m: Bytes)
    requires LeftAlone(l, r, m)
    ensures Values(Labelled(l, r, h, origin), m) == Values(h, m)
  {
    LabelledValues(l, r, h, origin, m);
    assert Values(h, m) + [] == Values(h, m);
  }

  lemma QueryLabel(l: Layer, r: Request, h: Headers, origin: Bytes)
    requires IsQuery(l, r)
    ensures Values(Labelled(l, r, h, origin), CacheControlName()) == [Private(Values(h, CacheControlName()))]
  {
    LabelNamesDiffer();
    LabelledValues(l, r, h, origin, CacheControlName());
    assert Values(h, CacheControlName()) + [] == Values(h, CacheControlName());
  }

  lemma MissReplySent(l: Layer, r: Request, p: Page)
    ensures MissSent(l, r, p, MissReply(l, r, p))
  {
    LabelsSay(l, r, p.headers, B("MISS"));
    if IsQuery(l, r) {
      QueryLabel(l, r, p.headers, B("MISS"));
    }
    forall m | LeftAlone(l, r, m)
      ensures Values(MissReply(l, r, p).headers, m) == Values(p.headers, m)
    {
      LeftAloneLabel(l, r, p.headers, B("MISS"), m);
    }
  }

  lemma BypassSent(p: Page)
    ensures PassSent(p, BypassReply(p), true)
  {
    var x := Header(CacheStatusName(), B("BYPASS"));
    forall m
      ensures Values(BypassReply(p).headers, m) == if m == x.name then [x.value] else Values(p.headers, m)
    {
      ValuesInsert(p.headers, x, m);
    }
  }

  // ---------------------------------------------------------------- Where pages come from

  /** What a session must satisfy whatever else is going on. */
  ghost predicate Sound(l: Layer, s: Session) {
    && ValidRequest(s.req) && NonceSwap.HexText(s.hex)
    && (s.Looking? ==> Admitted(l, s.req))
    && (s.Passing? ==> !Cached(l, s.req) && (s.tagged <==> Admitted(l, s.req) && TooLarge(l, s.req)))
    && (s.Running? || s.Storing? || s.Missed? || s.Hit? ==> Cached(l, s.req))
    && (s.Storing? || s.Missed? ==> ValidPage(s.page) && Storable(l, s.req, s.hex, s.page))
    && (s.Passed? ==> !(Cached(l, s.req) && Storable(l, s.req, s.hex, s.page)))
    && Replied(l, s)
  }

  /** `frame` is what session `s` stored at `key`. */
  ghost predicate Wrote(l: Layer, s: Session, key: Bytes, frame: Bytes) {
    && s.Missed? && Sound(l, s) && Key(l, s.req, s.generation) == key
    && FrameFor(s.req, s.hex, s.page) == Some(frame)
  }

  ghost predicate CellFrom(l: Layer, sessions: map<nat, Session>, key: Bytes, c: Cell) {
    c.Stored? ==> c.writer in sessions && Wrote(l, sessions[c.writer], key, c.frame)
  }

  /** The reply is the page the writer stored under the reader's own key, opened for the reader. */
  ghost predicate Served(l: Layer, s: Session, w: Session) {
    && s.Hit? && w.Missed? && Sound(l, s) && Sound(l, w)
    && Key(l, s.req, s.generation) == Key(l, w.req, w.generation)
    && FrameFor(w.req, w.hex, w.page).Some?
    && Opened(FrameFor(w.req, w.hex, w.page).value, s.req).Some?
    && s.reply == HitReply(l, s.req, Opened(FrameFor(w.req, w.hex, w.page).value, s.req).value)
  }

  ghost predicate HitFrom(l: Layer, sessions: map<nat, Session>, s: Session) {
    s.Hit? ==> s.writer in sessions && Served(l, s, sessions[s.writer])
  }

  ghost predicate SessionsFine(l: Layer, sessions: map<nat, Session>) {
    forall id :: id in sessions ==> Sound(l, sessions[id]) && HitFrom(l, sessions, sessions[id])
  }

  ghost predicate CellsFine(l: Layer, cache: Cache, sessions: map<nat, Session>) {
    forall key :: key in cache ==> CellFrom(l, sessions, key, cache[key])
  }

  ghost predicate Inv(l: Layer, st: State) { SessionsFine(l, st.sessions) && CellsFine(l, st.cache, st.sessions) }

  lemma StartSound(l: Layer, cache: Cache, s: Session)
    requires s.Starting? && Sound(l, s)
    ensures Sound(l, Start(l, cache, s)) && !Start(l, cache, s).Hit?
  {
  }

  lemma LookSound(l: Layer, cache: Cache, sessions: map<nat, Session>, s: Session)
    requires s.Looking? && Sound(l, s)
    requires CellsFine(l, cache, sessions)
    ensures Sound(l, Look(l, cache, s)) && HitFrom(l, sessions, Look(l, cache, s))
  {
    if Cached(l, s.req) {
      var key := Key(l, s.req, s.generation);
      if key in cache && cache[key].Stored? {
        assert CellFrom(l, sessions, key, cache[key]);
        var found := Opened(cache[key].frame, s.req);
        if found.Some? {
          LabelsSay(l, s.req, found.value.headers, B("HIT"));
        }
      }
    }
  }

  lemma AnswerSound(l: Layer, s: Session, page: Page)
    requires (s.Running? || s.Passing?) && Sound(l, s) && ValidPage(page)
    ensures Sound(l, Answer(l, s, page)) && !Answer(l, s, page).Hit?
  {
    BypassSent(page);
  }

  lemma HitStays(l: Layer, sessions: map<nat, Session>, id: nat, s: Session, hit: Session)
    requires (id in sessions ==> !sessions[id].Missed?) && HitFrom(l, sessions, hit)
    ensures HitFrom(l, sessions[id := s], hit)
  {
  }

  lemma CellStays(l: Layer, sessions: map<nat, Session>, id: nat, s: Session, key: Bytes, c: Cell)
    requires (id in sessions ==> !sessions[id].Missed?) && CellFrom(l, sessions, key, c)
    ensures CellFrom(l, sessions[id := s], key, c)
  {
  }

  lemma SessionStays(l: Layer, sessions: map<nat, Session>, id: nat, s: Session, k: nat)
    requires SessionsFine(l, sessions) && Sound(l, s) && HitFrom(l, sessions, s)
    requires (id in sessions ==> !sessions[id].Missed?) && k in sessions[id := s]
    ensures Sound(l, sessions[id := s][k]) && HitFrom(l, sessions[id := s], sessions[id := s][k])
  {
    HitStays(l, sessions, id, s, sessions[id := s][k]);
  }

  lemma SessionsStay(l: Layer, sessions: map<nat, Session>, id: nat, s: Session)
    requires SessionsFine(l, sessions) && Sound(l, s) && HitFrom(l, sessions, s)
    requires id in sessions ==> !sessions[id].Missed?
    ensures SessionsFine(l, sessions[id := s])
  {
    var after := sessions[id := s];
    forall k | k in after
      ensures Sound(l, after[k]) && HitFrom(l, after, after[k])
    {
      SessionStays(l, sessions, id, s, k);
    }
  }

  lemma CellsStay(l: Layer, cache: Cache, sessions: map<nat, Session>, id: nat, s: Session)
    requires CellsFine(l, cache, sessions) && (id in sessions ==> !sessions[id].Missed?)
    ensures CellsFine(l, cache, sessions[id := s])
  {
    forall key | key in cache
      ensures CellFrom(l, sessions[id := s], key, cache[key])
    {
      CellStays(l, sessions, id, s, key, cache[key]);
    }
  }

  /** One session moves on; what it had not finished, nobody relied on. */
  lemma MoveKeeps(l: Layer, st: State, id: nat, s: Session)
    requires Inv(l, st) && Sound(l, s) && HitFrom(l, st.sessions, s)
    requires id in st.sessions ==> !st.sessions[id].Missed?
    ensures Inv(l, st.(sessions := st.sessions[id := s]))
  {
    SessionsStay(l, st.sessions, id, s);
    CellsStay(l, st.cache, st.sessions, id, s);
  }

  lemma StoreKeeps(l: Layer, st: State, id: nat)
    requires Inv(l, st) && Enabled(l, st, Step(id)) && st.sessions[id].Storing?
    ensures Inv(l, Stepped(l, st, id))
  {
    var s := st.sessions[id];
    var done := Missed(s.req, s.hex, s.generation, s.page, MissReply(l, s.req, s.page));
    MissReplySent(l, s.req, s.page);
    var moved := st.(sessions := st.sessions[id := done]);
    MoveKeeps(l, st, id, done);
    var after := Stepped(l, st, id);
    assert after.sessions == moved.sessions;
    forall key | key in after.cache
      ensures CellFrom(l, after.sessions, key, after.cache[key])
    {
      if key in st.cache && after.cache[key] == st.cache[key] {
        assert CellFrom(l, moved.sessions, key, moved.cache[key]);
      }
    }
  }

  lemma ApplyKeeps(l: Layer, st: State, e: Event)
    requires Inv(l, st) && Enabled(l, st, e)
    ensures Inv(l, Apply(l, st, e))
  {
    match e
    case Arrive(id, req, hex) => MoveKeeps(l, st, id, Starting(req, hex));
    case Step(id) =>
      var s := st.sessions[id];
      if s.Starting? {
        StartSound(l, st.cache, s);
        MoveKeeps(l, st, id, Start(l, st.cache, s));
      } else if s.Looking? {
        LookSound(l, st.cache, st.sessions, s);
        MoveKeeps(l, st, id, Look(l, st.cache, s));
      } else {
        StoreKeeps(l, st, id);
      }
    case Respond(id, page) =>
      AnswerSound(l, st.sessions[id], page);
      MoveKeeps(l, st, id, Answer(l, st.sessions[id], page));
    case Bump(path, host, space) =>
    case Drop(key) =>
  }

  lemma {:induction false} RunKeeps(l: Layer, st: State, run: seq<Event>)
    requires Inv(l, st) && Runnable(l, st, run)
    ensures Inv(l, After(l, st, run))
    decreases |run|
  {
    if run != [] {
      ApplyKeeps(l, st, run[0]);
      RunKeeps(l, Apply(l, st, run[0]), run[1..]);
    }
  }

  // ---------------------------------------------------------------- A hit is the miss it saved

  predicate SamePage(p: Page, q: Page, m: Bytes) {
    p.status == q.status && p.body == q.body && Values(p.headers, m) == Values(q.headers, m)
  }

  /** A visitor's nonce is in the page. */
  predicate ShowsNonce(r: Request, p: Page) { r.nonce.Some? && Holds(p, r.nonce.value) }

  /** How the answer to `r` follows from the answer `p` to `s`: the same page, with the one
      nonce in place of the other if the page shows it (its length is then its own). */
  ghost predicate Follows(s: Request, p: Page, r: Request, q: Page) {
    if !ShowsNonce(s, p) then forall m :: SamePage(p, q, m)
    else r.nonce.Some? ==> forall m :: m != LengthName() ==> SwapsTo(p, q, s.nonce.value, r.nonce.value, m)
  }

  /** Among the requests of `st`, the handler's answer is determined by the keyed parts and the
      headers its own `Vary` names. */
  ghost predicate Determined(l: Layer, st: State, handler: Request -> Page) {
    forall i, k :: i in st.sessions && k in st.sessions ==>
      var s, r := st.sessions[i].req, st.sessions[k].req;
      SameKeyed(l, s, r) && SameVaried(s, r, handler(s)) ==> Follows(s, handler(s), r, handler(r))
  }

  /** A stored page is the handler's answer and does not hold the random part of its process's
      token. */
  predicate FromHandler(s: Session, handler: Request -> Page) {
    s.Missed? ==> s.page == handler(s.req) && s.hex != [] && Lacks(s.page, s.hex)
  }

  predicate AllFromHandler(st: State, handler: Request -> Page) {
    forall i :: i in st.sessions ==> FromHandler(st.sessions[i], handler)
  }

  /** What a session needs to have stored its page. */
  predicate StoredBy(w: Session) {
    && w.Missed? && ValidPage(w.page) && NonceSwap.HexText(w.hex)
    && WithoutNonce(w.page, w.req.nonce, NonceSwap.Token(w.hex)).Some? && FrameFor(w.req, w.hex, w.page).Some?
  }

  /** What `r` gets from the page `w` stored. */
  function OpenedFor(w: Session, r: Request): Option<Page>
    requires StoredBy(w)
  {
    Opened(FrameFor(w.req, w.hex, w.page).value, r)
  }

  lemma OpenedIs(w: Session, r: Request, stored: Page)
    requires StoredBy(w) && ValidPage(stored)
    requires WithoutNonce(w.page, w.req.nonce, NonceSwap.Token(w.hex)) == Some(stored)
    ensures OpenedFor(w, r) == WithNonce(Kept(stored), r.nonce)
  {
    DecodeOfEncode(stored);
  }

  /** What is stored is a page. */
  lemma StoredIsPage(w: Session)
    requires StoredBy(w)
    ensures ValidPage(WithoutNonce(w.page, w.req.nonce, NonceSwap.Token(w.hex)).value)
  {
    if ShowsNonce(w.req, w.page) {
      StoredMarked(w.page, w.req.nonce.value, w.hex, []);
    } else {
      StoredUnmarked(w.page, w.req.nonce, w.hex);
    }
  }

  /** Nothing of the layer's own is in what is opened. */
  lemma MarkGone(w: Session, r: Request)
    requires StoredBy(w) && ValidRequest(r) && OpenedFor(w, r).Some?
    ensures Values(OpenedFor(w, r).value.headers, MarkName()) == []
  {
    var stored := WithoutNonce(w.page, w.req.nonce, NonceSwap.Token(w.hex)).value;
    StoredIsPage(w);
    OpenedIs(w, r, stored);
    WithoutKeepsValid(stored.headers, CacheStatusName());
    OpenedHasNoMark(Kept(stored), r.nonce);
  }

  /** Whether `r` can be given the page: one that shows a nonce needs one to put in its place, and
      so does one whose handler sent a mark header of its own. */
  predicate CanOpen(s: Request, p: Page, r: Request) {
    if ShowsNonce(s, p) then r.nonce.Some?
    else Values(p.headers, MarkName()) != [] ==> r.nonce.Some? && Readable(Values(p.headers, MarkName())[0])
  }

  lemma OpensIff(w: Session, r: Request)
    requires StoredBy(w)
    ensures OpenedFor(w, r).Some? <==> CanOpen(w.req, w.page, r)
  {
    NamesDiffer();
    var stored := WithoutNonce(w.page, w.req.nonce, NonceSwap.Token(w.hex)).value;
    StoredIsPage(w);
    OpenedIs(w, r, stored);
    ValuesWithout(stored.headers, CacheStatusName(), MarkName());
    if ShowsNonce(w.req, w.page) {
      StoredMarked(w.page, w.req.nonce.value, w.hex, []);
      TokenReadable(w.hex);
    } else {
      StoredUnmarked(w.page, w.req.nonce, w.hex);
    }
  }

  /** A page without nonce and mark opens as it is. */
  lemma OpenedPlain(w: Session, r: Request, m: Bytes)
    requires StoredBy(w) && ValidRequest(r) && !Has(w.page.headers, MarkName()) && !ShowsNonce(w.req, w.page)
    requires m != CacheStatusName()
    ensures OpenedFor(w, r).Some? && SamePage(w.page, OpenedFor(w, r).value, m)
  {
    PlainThroughStore(w.page, w.req.nonce, w.hex, r.nonce);
    OpenedIs(w, r, w.page);
    ValuesWithout(w.page.headers, CacheStatusName(), m);
  }

  /** A page that shows its nonce opens with the visitor's. */
  lemma OpenedSwapped(w: Session, r: Request, m: Bytes)
    requires StoredBy(w) && Lacks(w.page, w.hex) && ValidRequest(r) && ShowsNonce(w.req, w.page)
    requires OpenedFor(w, r).Some?
    requires m != CacheStatusName() && m != MarkName() && m != LengthName()
    ensures r.nonce.Some? && SwapsTo(w.page, OpenedFor(w, r).value, w.req.nonce.value, r.nonce.value, m)
  {
    var stored := WithoutNonce(w.page, w.req.nonce, NonceSwap.Token(w.hex)).value;
    OpensIff(w, r);
    NonceThroughStore(w.page, w.req.nonce.value, w.hex, r.nonce.value, m);
    OpenedIs(w, r, stored);
  }

  /** The handler's answer to `r` carries as many marks as its answer to the writer. */
  lemma MarkFollows(w: Session, r: Request, q: Page)
    requires StoredBy(w) && Follows(w.req, w.page, r, q) && OpenedFor(w, r).Some?
    ensures |Values(q.headers, MarkName())| == |Values(w.page.headers, MarkName())|
  {
    NamesDiffer();
    OpensIff(w, r);
    if ShowsNonce(w.req, w.page) {
      assert SwapsTo(w.page, q, w.req.nonce.value, r.nonce.value, MarkName());
    } else {
      assert SamePage(w.page, q, MarkName());
    }
  }

  /** Opened for `r`, an unmarked page agrees with the handler's answer to `r`. */
  lemma OpenedAgrees(w: Session, r: Request, q: Page, m: Bytes)
    requires StoredBy(w) && Lacks(w.page, w.hex) && ValidRequest(r) && Follows(w.req, w.page, r, q)
    requires !Has(w.page.headers, MarkName()) && OpenedFor(w, r).Some?
    requires m != CacheStatusName() && (m == LengthName() ==> !ShowsNonce(w.req, w.page))
    ensures Values(OpenedFor(w, r).value.headers, m) == Values(q.headers, m)
    ensures m != MarkName() ==> SamePage(OpenedFor(w, r).value, q, m)
  {
    if m == MarkName() {
      MarkFollows(w, r, q);
      MarkGone(w, r);
      ValuesEmptyIff(w.page.headers, MarkName());
    } else if ShowsNonce(w.req, w.page) {
      OpenedSwapped(w, r, m);
      assert SwapsTo(w.page, q, w.req.nonce.value, r.nonce.value, m);
    } else {
      OpenedPlain(w, r, m);
      assert SamePage(w.page, q, m);
    }
  }

  lemma ServedOpened(l: Layer, s: Session, w: Session)
    requires Served(l, s, w)
    ensures StoredBy(w) && ValidRequest(s.req) && OpenedFor(w, s.req).Some?
    ensures s.reply == HitReply(l, s.req, OpenedFor(w, s.req).value)
  {
  }

  lemma VaryIsNotLength()
    ensures VaryName() != LengthName() && VaryName() != MarkName() && CacheControlName() != MarkName()
  {
    assert |VaryName()| == 4 && |LengthName()| == 14 && |MarkName()| == 23 && |CacheControlName()| == 13;
  }

  /** A hit of an unmarked page agrees with the miss the handler would give, in one name. */
  lemma ServedAgrees(l: Layer, s: Session, w: Session, q: Page, m: Bytes)
    requires Served(l, s, w) && Follows(w.req, w.page, s.req, q)
    requires !Has(w.page.headers, MarkName()) && Lacks(w.page, w.hex)
    requires m != CacheStatusName() && (m == LengthName() ==> !ShowsNonce(w.req, w.page))
    ensures SamePage(s.reply, MissReply(l, s.req, q), m)
  {
    NamesDiffer();
    LabelNamesDiffer();
    ServedOpened(l, s, w);
    VaryIsNotLength();
    OpenedAgrees(w, s.req, q, VaryName());
    OpenedAgrees(w, s.req, q, m);
    LabelsKeepAlike(l, s.req, OpenedFor(w, s.req).value, q, m);
  }

  /** A hit of a marked page lacks the mark the miss would have. */
  lemma ServedLacksMark(l: Layer, s: Session, w: Session, q: Page)
    requires Served(l, s, w) && Follows(w.req, w.page, s.req, q) && Has(w.page.headers, MarkName())
    ensures !SamePage(s.reply, MissReply(l, s.req, q), MarkName())
  {
    NamesDiffer();
    VaryIsNotLength();
    ServedOpened(l, s, w);
    var p := OpenedFor(w, s.req).value;
    MarkGone(w, s.req);
    MarkFollows(w, s.req, q);
    ValuesEmptyIff(w.page.headers, MarkName());
    LabelledValues(l, s.req, p.headers, B("HIT"), MarkName());
    LabelledValues(l, s.req, q.headers, B("MISS"), MarkName());
  }

  /** Status, body and every header but `x-cache-status`; only a page that shows its visitor's
      nonce may differ in content-length, which is then set from the body. */
  ghost predicate Agrees(reply: Page, miss: Page, w: Session)
    requires w.Missed?
  {
    forall m :: m != CacheStatusName() && (m == LengthName() ==> !ShowsNonce(w.req, w.page)) ==>
      SamePage(reply, miss, m)
  }

  lemma ServedAgreesIff(l: Layer, s: Session, w: Session, q: Page)
    requires Served(l, s, w) && Follows(w.req, w.page, s.req, q) && Lacks(w.page, w.hex)
    ensures Agrees(s.reply, MissReply(l, s.req, q), w) <==> !Has(w.page.headers, MarkName())
  {
    if Has(w.page.headers, MarkName()) {
      NamesDiffer();
      ServedLacksMark(l, s, w, q);
    } else {
      forall m | m != CacheStatusName() && (m == LengthName() ==> !ShowsNonce(w.req, w.page))
        ensures SamePage(s.reply, MissReply(l, s.req, q), m)
      {
        ServedAgrees(l, s, w, q, m);
      }
    }
  }

  /** In every run, if the handler's answers are determined by the keyed parts of a request and
      the headers its own `Vary` names, every hit is the miss the handler would have given that
      request: the same status, body and headers, all but `x-cache-status`. The one exception is
      a handler that sends the layer's own mark header: a hit agrees exactly when the page it came
      from carried none. */
  lemma HitIsMiss(l: Layer, run: seq<Event>, handler: Request -> Page, id: nat)
    requires ValidLayer(l) && Runnable(l, Empty(), run)
    requires var st := After(l, Empty(), run);
      && AllFromHandler(st, handler) && Determined(l, st, handler)
      && id in st.sessions && st.sessions[id].Hit?
    ensures var st := After(l, Empty(), run);
      var s := st.sessions[id];
      && s.writer in st.sessions && st.sessions[s.writer].Missed?
      && var w := st.sessions[s.writer];
      && (Agrees(s.reply, MissReply(l, s.req, handler(s.req)), w) <==> !Has(handler(w.req).headers, MarkName()))
  {
    var st := After(l, Empty(), run);
    RunKeeps(l, Empty(), run);
    var s := st.sessions[id];
    assert HitFrom(l, st.sessions, s);
    var w := st.sessions[s.writer];
    assert FromHandler(w, handler);
    SameKeyIff(l, s.req, s.generation, w.req, w.generation);
    SameKeyIff(l, w.req, w.generation, s.req, s.generation);
    KeyCoversVary(l, w.req, s.req, w.page);
    assert Follows(w.req, w.page, s.req, handler(s.req));
    ServedAgreesIff(l, s, w, handler(s.req));
  }

  // ---------------------------------------------------------------- What is never shared

  predicate NoCredential(l: Layer, r: Request) {
    forall i :: 0 <= i < |l.credentials| ==> !Has(r.headers, l.credentials[i])
  }

  /** A page anyone may be given. */
  predicate Public(p: Page) {
    && p.status == 200 && !Has(p.headers, B("set-cookie"))
    && forall i :: 0 <= i < |p.headers| && p.headers[i].name == CacheControlName() && Readable(p.headers[i].value) ==>
      var v := Lower(p.headers[i].value);
      !Finds(v, B("no-store")) && !Finds(v, B("private")) && !Finds(v, B("no-cache"))
  }

  lemma ShareableIsPublic(p: Page)
    requires Shareable(p)
    ensures Public(p)
  {
    ValuesEmptyIff(p.headers, B("set-cookie"));
    forall i | 0 <= i < |p.headers| && p.headers[i].name == CacheControlName()
      ensures !OptsOut(p.headers[i].value)
    {
      assert p.headers[i] == Header(CacheControlName(), p.headers[i].value);
      ValueIff(p.headers, CacheControlName(), p.headers[i].value);
    }
  }

  lemma AdmittedHasNone(l: Layer, r: Request)
    requires Admitted(l, r)
    ensures NoCredential(l, r)
  {
    forall i | 0 <= i < |l.credentials|
      ensures !Has(r.headers, l.credentials[i])
    {
      ValuesEmptyIff(r.headers, l.credentials[i]);
    }
  }

  /** In every run: a request with a credential header is neither answered from the cache nor the
      source of an entry, and no page that sets a cookie, opts out or is not a 200 is one. */
  lemma NeverShared(l: Layer, run: seq<Event>, id: nat)
    requires Runnable(l, Empty(), run) && id in After(l, Empty(), run).sessions
    ensures var s := After(l, Empty(), run).sessions[id];
      && (s.Hit? || s.Missed? ==> NoCredential(l, s.req))
      && (s.Missed? ==> Public(s.page))
    ensures forall key :: key in After(l, Empty(), run).cache && After(l, Empty(), run).cache[key].Stored? ==>
      var w := After(l, Empty(), run).cache[key].writer;
      w in After(l, Empty(), run).sessions && After(l, Empty(), run).sessions[w].Missed?
  {
    RunKeeps(l, Empty(), run);
    var st := After(l, Empty(), run);
    var s := st.sessions[id];
    if s.Hit? || s.Missed? {
      AdmittedHasNone(l, s.req);
    }
    if s.Missed? {
      ShareableIsPublic(s.page);
    }
    forall key | key in st.cache && st.cache[key].Stored?
      ensures st.cache[key].writer in st.sessions && st.sessions[st.cache[key].writer].Missed?
    {
      assert CellFrom(l, st.sessions, key, st.cache[key]);
    }
  }
}
