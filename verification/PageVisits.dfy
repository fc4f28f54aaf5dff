/** Whole visits: what a generation counts, that no request gets stuck, and that a first visit is
    followed by a hit. */
module PageVisits {
  import opened Options
  import opened Pieces
  import opened PageKeys
  import opened PageFrame
  import opened PageLayer
  import opened PageRuns
  import opened PageInvalidation
  import opened PageSent
  import NonceSwap

  // ---------------------------------------------------------------- What a generation counts

  /** How often a run invalidates the path of this host and tenant. */
  function Bumps(run: seq<Event>, path: Bytes, host: Bytes, space: Space): nat {
    if run == [] then 0
    else (if run[0] == Bump(path, host, space) then 1 else 0) + Bumps(run[1..], path, host, space)
  }

  lemma BumpCounts(l: Layer, cache: Cache, p: Bytes, h: Bytes, s: Space, path: Bytes, host: Bytes, space: Space)
    requires ValidSpace(s) && ValidSpace(space)
    ensures var key := CounterText(l.prefix, p, h, s);
      CountOf(l, cache[key := Count(Reading(cache, key) + 1)], path, host, space) ==
      CountOf(l, cache, path, host, space) + if (p, h, s) == (path, host, space) then 1 else 0
  {
    SameCounterIffSamePage(l.prefix, path, host, space, p, h, s);
  }

  lemma StepCounts(l: Layer, st: State, id: nat, path: Bytes, host: Bytes, space: Space)
    requires ValidLayer(l) && Inv(l, st) && Enabled(l, st, Step(id)) && ValidSpace(space)
    ensures CountOf(l, Stepped(l, st, id).cache, path, host, space) == CountOf(l, st.cache, path, host, space)
  {
    var s := st.sessions[id];
    if s.Storing? {
      assert Sound(l, s);
      StoreSparesCounters(l, st.cache, s, id, path, host, space);
    }
  }

  lemma DropCounts(l: Layer, cache: Cache, key: Bytes, path: Bytes, host: Bytes, space: Space)
    requires key in cache && cache[key].Stored?
    ensures CountOf(l, cache - {key}, path, host, space) == CountOf(l, cache, path, host, space)
  {
  }

  lemma EventCounts(l: Layer, st: State, e: Event, path: Bytes, host: Bytes, space: Space)
    requires ValidLayer(l) && Inv(l, st) && Enabled(l, st, e) && ValidSpace(space)
    ensures CountOf(l, Apply(l, st, e).cache, path, host, space) ==
      CountOf(l, st.cache, path, host, space) + if e == Bump(path, host, space) then 1 else 0
  {
    match e
    case Step(id) => StepCounts(l, st, id, path, host, space);
    case Bump(p, h, s) => BumpCounts(l, st.cache, p, h, s, path, host, space);
    case Drop(key) => DropCounts(l, st.cache, key, path, host, space);
    case Arrive(_, _, _) =>
    case Respond(_, _) =>
  }

  lemma {:induction false} RunCounts(l: Layer, st: State, run: seq<Event>, path: Bytes, host: Bytes, space: Space)
    requires ValidLayer(l) && Inv(l, st) && Runnable(l, st, run) && ValidSpace(space)
    ensures CountOf(l, After(l, st, run).cache, path, host, space) ==
      CountOf(l, st.cache, path, host, space) + Bumps(run, path, host, space)
    decreases |run|
  {
    if run != [] {
      EventCounts(l, st, run[0], path, host, space);
      ApplyKeeps(l, st, run[0]);
      RunCounts(l, Apply(l, st, run[0]), run[1..], path, host, space);
    }
  }

  /** The generation a request goes by is the number of invalidations of its path, for its host
      and tenant, in the run so far: no page stored, evicted or asked for changes it. */
  lemma GenerationIsBumps(l: Layer, run: seq<Event>, id: nat)
    requires ValidLayer(l) && Runnable(l, Empty(), run)
    requires id in After(l, Empty(), run).sessions && After(l, Empty(), run).sessions[id].Starting?
    requires Eligible(l, After(l, Empty(), run).sessions[id].req)
    ensures var st := After(l, Empty(), run);
      var s := st.sessions[id];
      && Enabled(l, st, Step(id))
      && Apply(l, st, Step(id)).sessions[id] ==
        Looking(s.req, s.hex, Bumps(run, s.req.path, Host(s.req), s.req.space.value))
  {
    var st := After(l, Empty(), run);
    var s := st.sessions[id];
    AdmittedIff(l, s.req);
    RunKeeps(l, Empty(), run);
    assert Sound(l, s);
    RunCounts(l, Empty(), run, s.req.path, Host(s.req), s.req.space.value);
  }

  // ---------------------------------------------------------------- No request gets stuck

  predicate Finished(s: Session) { s.Missed? || s.Hit? || s.Passed? }

  /** The most events a request still takes. */
  function Left(s: Session): nat {
    match s
    case Starting(_, _) => 4
    case Looking(_, _, _) => 3
    case Running(_, _, _) => 2
    case Passing(_, _, _) => 2
    case Storing(_, _, _, _) => 1
    case _ => 0
  }

  /** The event that moves a session on, given the page its handler would answer with. */
  function NextEvent(s: Session, id: nat, page: Page): Event {
    if s.Running? || s.Passing? then Respond(id, page) else Step(id)
  }

  lemma LookLeaves(l: Layer, cache: Cache, s: Session)
    requires s.Looking?
    ensures Left(Look(l, cache, s)) < 3
  {
  }

  lemma AnswerLeaves(l: Layer, s: Session, page: Page)
    requires s.Running? || s.Passing?
    ensures Left(Answer(l, s, page)) < 2
  {
  }

  lemma MovesOn(l: Layer, st: State, id: nat, page: Page)
    requires id in st.sessions && Sound(l, st.sessions[id]) && !Finished(st.sessions[id]) && ValidPage(page)
    ensures var e := NextEvent(st.sessions[id], id, page);
      && Enabled(l, st, e) && id in Apply(l, st, e).sessions
      && Left(Apply(l, st, e).sessions[id]) < Left(st.sessions[id])
  {
    var s := st.sessions[id];
    if s.Looking? {
      LookLeaves(l, st.cache, s);
    } else if s.Running? || s.Passing? {
      AnswerLeaves(l, s, page);
    }
  }

  /** In every state of every run, a request in the layer is answered by at most four events of its
      own, whatever page its handler gives. */
  lemma {:induction false} Answered(l: Layer, st: State, id: nat, page: Page) returns (run: seq<Event>)
    requires Inv(l, st) && id in st.sessions && ValidPage(page)
    ensures |run| <= Left(st.sessions[id]) && forall e :: e in run ==> e == Step(id) || e == Respond(id, page)
    ensures Runnable(l, st, run) && id in After(l, st, run).sessions && Finished(After(l, st, run).sessions[id])
    decreases Left(st.sessions[id])
  {
    run := [];
    if !Finished(st.sessions[id]) {
      var e := NextEvent(st.sessions[id], id, page);
      MovesOn(l, st, id, page);
      ApplyKeeps(l, st, e);
      var rest := Answered(l, Apply(l, st, e), id, page);
      RunStep(l, st, e, rest);
      run := [e] + rest;
    }
  }

  // ---------------------------------------------------------------- A visit and the next

  lemma {:induction false} RunAppend(l: Layer, st: State, a: seq<Event>, b: seq<Event>)
    requires Runnable(l, st, a) && Runnable(l, After(l, st, a), b)
    ensures Runnable(l, st, a + b) && After(l, st, a + b) == After(l, After(l, st, a), b)
    decreases |a|
  {
    if a == [] {
      assert a + b == b;
    } else {
      RunAppend(l, Apply(l, st, a[0]), a[1..], b);
      assert (a + b)[0] == a[0] && (a + b)[1..] == a[1..] + b;
    }
  }

  /** A request that may be answered, on an entry it cannot use. */
  predicate Misses(l: Layer, st: State, i: nat, r: Request, hex: Bytes) {
    && i !in st.sessions && ValidRequest(r) && NonceSwap.HexText(hex) && Cached(l, r)
    && Found(st.cache, Key(l, r, PageCount(l, st.cache, r)), r).None?
  }

  /** How a visitor who misses goes on. */
  lemma MissGoesOn(l: Layer, cache: Cache, r: Request, hex: Bytes, page: Page)
    requires Cached(l, r) && Found(cache, Key(l, r, PageCount(l, cache, r)), r).None? && Storable(l, r, hex, page)
    ensures var g := PageCount(l, cache, r);
      && Start(l, cache, Starting(r, hex)) == Looking(r, hex, g)
      && Look(l, cache, Looking(r, hex, g)) == Running(r, hex, g)
      && Answer(l, Running(r, hex, g), page) == Storing(r, hex, g, page)
  {
  }

  lemma SetAgain(sessions: map<nat, Session>, i: nat, s: Session, t: Session)
    ensures sessions[i := s][i := t] == sessions[i := t]
  {
  }

  /** Up to the handler's answer. */
  lemma FirstVisit(l: Layer, st: State, i: nat, r: Request, hex: Bytes, page: Page)
    requires Misses(l, st, i, r, hex) && ValidPage(page) && Storable(l, r, hex, page)
    ensures var visit := [Arrive(i, r, hex), Step(i), Step(i), Respond(i, page)];
      && Runnable(l, st, visit)
      && After(l, st, visit) ==
        st.(sessions := st.sessions[i := Storing(r, hex, PageCount(l, st.cache, r), page)])
  {
    var g := PageCount(l, st.cache, r);
    MissGoesOn(l, st.cache, r, hex, page);
    var a, b, c, d := Starting(r, hex), Looking(r, hex, g), Running(r, hex, g), Storing(r, hex, g, page);
    SetAgain(st.sessions, i, a, b);
    SetAgain(st.sessions, i, b, c);
    SetAgain(st.sessions, i, c, d);
    RunsFour(l, st, Arrive(i, r, hex), Step(i), Step(i), Respond(i, page));
  }

  /** A page that may be kept is sent as a miss, and the next request with the same key is a hit
      from it exactly when it can be given the page, and else goes to the handler. */
  lemma SecondVisit(l: Layer, st: State, i: nat, r: Request, hex: Bytes, page: Page, j: nat, q: Request, hex': Bytes)
    requires ValidLayer(l) && Inv(l, st) && Misses(l, st, i, r, hex) && ValidPage(page) && Storable(l, r, hex, page)
    requires FrameFor(r, hex, page).Some?
    requires j !in st.sessions && j != i && ValidRequest(q) && NonceSwap.HexText(hex') && Cached(l, q)
    requires SameKeyed(l, r, q)
    ensures var run := [Arrive(i, r, hex), Step(i), Step(i), Respond(i, page)] +
                       [Step(i), Arrive(j, q, hex'), Step(j), Step(j)];
      && Runnable(l, st, run) && i in After(l, st, run).sessions && j in After(l, st, run).sessions
      && var mine, next := After(l, st, run).sessions[i], After(l, st, run).sessions[j];
      && mine.Missed? && mine.page == page
      && (if CanOpen(r, page, q) then next.Hit? && next.writer == i else next.Running?)
  {
    var visit, again := [Arrive(i, r, hex), Step(i), Step(i), Respond(i, page)],
                        [Step(i), Arrive(j, q, hex'), Step(j), Step(j)];
    FirstVisit(l, st, i, r, hex, page);
    var mid := After(l, st, visit);
    RunKeeps(l, st, visit);
    StoredIsServed(l, mid, i, j, q, hex');
    RunAppend(l, st, visit, again);
  }

  /** An entry can go at any time; the next request for it is then a miss. */
  lemma DroppedMisses(l: Layer, st: State, key: Bytes, i: nat, r: Request, hex: Bytes)
    requires ValidLayer(l) && Inv(l, st) && key in st.cache && st.cache[key].Stored?
    requires i !in st.sessions && ValidRequest(r) && NonceSwap.HexText(hex) && Cached(l, r)
    requires key == Key(l, r, PageCount(l, st.cache, r))
    ensures Enabled(l, st, Drop(key)) && Misses(l, Apply(l, st, Drop(key)), i, r, hex)
  {
    EventCounts(l, st, Drop(key), r.path, Host(r), r.space.value);
  }
}
