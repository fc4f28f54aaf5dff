/** Invalidation: after a path's counter is bumped, no page made before is served again; and
    without one, a stored page is. */
module PageInvalidation {
  import opened Options
  import opened Pieces
  import opened PageKeys
  import opened PageFrame
  import opened PageNonce
  import opened PageLayer
  import opened PageRuns

  /** The session has read its page's generation. */
  predicate HasRead(s: Session) { s.Looking? || s.Running? || s.Storing? || s.Missed? || s.Hit? }

  predicate ReadIn(st: State, id: nat) { id in st.sessions && HasRead(st.sessions[id]) }

  function CountOf(l: Layer, cache: Cache, path: Bytes, host: Bytes, space: Space): nat {
    Reading(cache, CounterText(l.prefix, path, host, space))
  }

  function PageCount(l: Layer, cache: Cache, r: Request): nat
    requires Admitted(l, r)
  {
    CountOf(l, cache, r.path, Host(r), r.space.value)
  }

  // ---------------------------------------------------------------- Counters only rise

  ghost predicate Rises(l: Layer, a: Cache, b: Cache) {
    forall path, host, space :: ValidSpace(space) ==>
      CountOf(l, a, path, host, space) <= CountOf(l, b, path, host, space)
  }

  /** Storing a page touches no counter. */
  lemma StoreSparesCounters(l: Layer, cache: Cache, s: Session, id: nat, path: Bytes, host: Bytes, space: Space)
    requires ValidLayer(l) && s.Storing? && Sound(l, s) && ValidSpace(space)
    ensures CountOf(l, Store(l, cache, s, id), path, host, space) == CountOf(l, cache, path, host, space)
  {
    PartsValid(l, s.req, s.generation);
    KeyIsNotCounter(l.prefix, PartsOf(l, s.req, s.generation), l.varyOn, path, host, space);
  }

  lemma StepRises(l: Layer, st: State, id: nat)
    requires ValidLayer(l) && Inv(l, st) && Enabled(l, st, Step(id))
    ensures Rises(l, st.cache, Stepped(l, st, id).cache)
  {
    var s := st.sessions[id];
    if s.Storing? {
      forall path, host, space | ValidSpace(space)
        ensures CountOf(l, st.cache, path, host, space) <= CountOf(l, Store(l, st.cache, s, id), path, host, space)
      {
        StoreSparesCounters(l, st.cache, s, id, path, host, space);
      }
    }
  }

  lemma ApplyRises(l: Layer, st: State, e: Event)
    requires ValidLayer(l) && Inv(l, st) && Enabled(l, st, e)
    ensures Rises(l, st.cache, Apply(l, st, e).cache)
  {
    if e.Step? {
      StepRises(l, st, e.id);
    }
  }

  // ---------------------------------------------------------------- What a session read

  /** A session read no more than its counter holds now. */
  predicate ReadAtMost(l: Layer, cache: Cache, s: Session) {
    HasRead(s) ==> Admitted(l, s.req) && s.generation <= PageCount(l, cache, s.req)
  }

  /** The same request, and the same generation if it had read one. */
  predicate Continues(s: Session, t: Session) {
    && s.req == t.req
    && (HasRead(s) && HasRead(t) ==> s.generation == t.generation)
    && (HasRead(t) ==> HasRead(s) || s.Starting?)
  }

  /** The generation a starting session reads is its counter's. */
  predicate ReadsNow(l: Layer, cache: Cache, t: Session) {
    HasRead(t) ==> Admitted(l, t.req) && t.generation == PageCount(l, cache, t.req)
  }

  /** How one session goes on, given the cache it saw. */
  predicate GoesOn(l: Layer, cache: Cache, s: Session, t: Session) {
    Continues(s, t) && (s.Starting? ==> ReadsNow(l, cache, t))
  }

  lemma StartGoesOn(l: Layer, cache: Cache, s: Session)
    requires s.Starting?
    ensures GoesOn(l, cache, s, Start(l, cache, s))
  {
  }

  lemma LookGoesOn(l: Layer, cache: Cache, s: Session)
    requires s.Looking?
    ensures GoesOn(l, cache, s, Look(l, cache, s))
  {
  }

  lemma AnswerGoesOn(l: Layer, cache: Cache, s: Session, page: Page)
    requires s.Running? || s.Passing?
    ensures GoesOn(l, cache, s, Answer(l, s, page))
  {
  }

  lemma EventGoesOn(l: Layer, st: State, e: Event)
    requires Enabled(l, st, e) && (e.Step? || e.Respond?)
    ensures e.id in Apply(l, st, e).sessions && GoesOn(l, st.cache, st.sessions[e.id], Apply(l, st, e).sessions[e.id])
  {
    var s := st.sessions[e.id];
    match e
    case Step(_) =>
      if s.Starting? {
        StartGoesOn(l, st.cache, s);
      } else if s.Looking? {
        LookGoesOn(l, st.cache, s);
      }
    case Respond(_, page) => AnswerGoesOn(l, st.cache, s, page);
  }

  /** Since `a`: a session that had read a generation still has it, and one that has read since
      read at least what its counter was at `a`. */
  predicate SinceFor(l: Layer, a: State, id: nat, t: Session) {
    if ReadIn(a, id) then t.req == a.sessions[id].req && (HasRead(t) ==> t.generation == a.sessions[id].generation)
    else HasRead(t) ==> Admitted(l, t.req) && PageCount(l, a.cache, t.req) <= t.generation
  }

  /** No session left, none went back to its start, and all did as above. */
  predicate AllSince(l: Layer, a: State, b: State) {
    && (forall id :: id in b.sessions ==> SinceFor(l, a, id, b.sessions[id]))
    && (forall id :: id in a.sessions ==> id in b.sessions)
    && (forall id :: ReadIn(a, id) && id in b.sessions ==> !b.sessions[id].Starting?)
  }

  lemma RisesHere(l: Layer, a: Cache, b: Cache, r: Request)
    requires Rises(l, a, b) && Admitted(l, r) && ValidRequest(r)
    ensures PageCount(l, a, r) <= PageCount(l, b, r)
  {
  }

  lemma RisesOn(l: Layer, a: Cache, b: Cache, c: Cache)
    requires Rises(l, a, b) && Rises(l, b, c)
    ensures Rises(l, a, c)
  {
    forall path, host, space | ValidSpace(space)
      ensures CountOf(l, a, path, host, space) <= CountOf(l, c, path, host, space)
    {
      assert CountOf(l, a, path, host, space) <= CountOf(l, b, path, host, space);
    }
  }

  lemma GoesOnSince(l: Layer, a: State, cache: Cache, id: nat, s: Session, t: Session)
    requires Rises(l, a.cache, cache) && SinceFor(l, a, id, s) && GoesOn(l, cache, s, t) && ValidRequest(s.req)
    requires ReadIn(a, id) ==> !s.Starting?
    ensures SinceFor(l, a, id, t)
  {
    if HasRead(t) && s.Starting? {
      RisesHere(l, a.cache, cache, t.req);
    }
  }

  /** The session an event moves, if any. */
  predicate Moves(e: Event, id: nat) { !e.Bump? && !e.Drop? && e.id == id }

  lemma OthersStay(l: Layer, st: State, e: Event, id: nat)
    requires Enabled(l, st, e) && !Moves(e, id)
    ensures id in Apply(l, st, e).sessions <==> id in st.sessions
    ensures id in st.sessions ==> Apply(l, st, e).sessions[id] == st.sessions[id]
  {
  }

  lemma NeverStarting(l: Layer, st: State, e: Event)
    requires Enabled(l, st, e) && (e.Step? || e.Respond?)
    ensures e.id in Apply(l, st, e).sessions && !Apply(l, st, e).sessions[e.id].Starting?
  {
  }

  /** One session across one event. */
  lemma SessionSince(l: Layer, a: State, b: State, e: Event, id: nat)
    requires Inv(l, b) && Enabled(l, b, e) && Rises(l, a.cache, b.cache) && AllSince(l, a, b)
    ensures id in b.sessions ==> id in Apply(l, b, e).sessions
    ensures id in Apply(l, b, e).sessions ==> SinceFor(l, a, id, Apply(l, b, e).sessions[id])
    ensures id in Apply(l, b, e).sessions && ReadIn(a, id) ==> !Apply(l, b, e).sessions[id].Starting?
  {
    if !Moves(e, id) {
      OthersStay(l, b, e, id);
    } else if e.Arrive? {
      assert Apply(l, b, e).sessions[id] == Starting(e.req, e.hex);
    } else {
      EventGoesOn(l, b, e);
      GoesOnSince(l, a, b.cache, id, b.sessions[id], Apply(l, b, e).sessions[id]);
      NeverStarting(l, b, e);
    }
  }

  lemma ApplySince(l: Layer, a: State, b: State, e: Event)
    requires ValidLayer(l) && Inv(l, b) && Enabled(l, b, e) && Rises(l, a.cache, b.cache) && AllSince(l, a, b)
    ensures Rises(l, a.cache, Apply(l, b, e).cache) && AllSince(l, a, Apply(l, b, e))
  {
    var c := Apply(l, b, e);
    ApplyRises(l, b, e);
    RisesOn(l, a.cache, b.cache, c.cache);
    forall id: nat
      ensures id in b.sessions ==> id in c.sessions
      ensures id in c.sessions ==> SinceFor(l, a, id, c.sessions[id])
      ensures id in c.sessions && ReadIn(a, id) ==> !c.sessions[id].Starting?
    {
      SessionSince(l, a, b, e, id);
    }
  }

  lemma {:induction false} RunSince(l: Layer, a: State, b: State, run: seq<Event>)
    requires ValidLayer(l) && Inv(l, b) && Runnable(l, b, run) && Rises(l, a.cache, b.cache) && AllSince(l, a, b)
    ensures AllSince(l, a, After(l, b, run))
    decreases |run|
  {
    if run != [] {
      ApplyKeeps(l, b, run[0]);
      ApplySince(l, a, b, run[0]);
      RunSince(l, a, Apply(l, b, run[0]), run[1..]);
    }
  }

  // ---------------------------------------------------------------- Nobody read ahead

  ghost predicate Bounded(l: Layer, st: State) {
    forall id :: id in st.sessions ==> ReadAtMost(l, st.cache, st.sessions[id])
  }

  lemma GoesOnBounded(l: Layer, b: Cache, c: Cache, s: Session, t: Session)
    requires Rises(l, b, c) && ReadAtMost(l, b, s) && GoesOn(l, b, s, t) && ValidRequest(s.req)
    ensures ReadAtMost(l, c, t)
  {
    if HasRead(t) {
      RisesHere(l, b, c, t.req);
    }
  }

  lemma StaysBounded(l: Layer, b: Cache, c: Cache, s: Session)
    requires Rises(l, b, c) && ReadAtMost(l, b, s) && ValidRequest(s.req)
    ensures ReadAtMost(l, c, s)
  {
    if HasRead(s) {
      RisesHere(l, b, c, s.req);
    }
  }

  lemma SessionBounded(l: Layer, st: State, e: Event, id: nat)
    requires Inv(l, st) && Enabled(l, st, e) && Bounded(l, st) && Rises(l, st.cache, Apply(l, st, e).cache)
    ensures id in Apply(l, st, e).sessions ==> ReadAtMost(l, Apply(l, st, e).cache, Apply(l, st, e).sessions[id])
  {
    var c := Apply(l, st, e);
    if !Moves(e, id) {
      OthersStay(l, st, e, id);
      if id in st.sessions {
        StaysBounded(l, st.cache, c.cache, st.sessions[id]);
      }
    } else if e.Arrive? {
      assert c.sessions[id] == Starting(e.req, e.hex);
    } else {
      EventGoesOn(l, st, e);
      GoesOnBounded(l, st.cache, c.cache, st.sessions[id], c.sessions[id]);
    }
  }

  lemma ApplyBounded(l: Layer, st: State, e: Event)
    requires ValidLayer(l) && Inv(l, st) && Enabled(l, st, e) && Bounded(l, st)
    ensures Bounded(l, Apply(l, st, e))
  {
    ApplyRises(l, st, e);
    forall id | id in Apply(l, st, e).sessions
      ensures ReadAtMost(l, Apply(l, st, e).cache, Apply(l, st, e).sessions[id])
    {
      SessionBounded(l, st, e, id);
    }
  }

  lemma {:induction false} RunBounded(l: Layer, st: State, run: seq<Event>)
    requires ValidLayer(l) && Inv(l, st) && Runnable(l, st, run) && Bounded(l, st)
    ensures Bounded(l, After(l, st, run))
    decreases |run|
  {
    if run != [] {
      ApplyKeeps(l, st, run[0]);
      ApplyBounded(l, st, run[0]);
      RunBounded(l, Apply(l, st, run[0]), run[1..]);
    }
  }

  // ---------------------------------------------------------------- The promise of invalidate

  /** The state of a run just after a path's counter was bumped. */
  function Bumped(l: Layer, earlier: seq<Event>, path: Bytes, host: Bytes, space: Space): State
    requires Runnable(l, Empty(), earlier) && ValidSpace(space)
  {
    Apply(l, After(l, Empty(), earlier), Bump(path, host, space))
  }

  lemma ServedSameCount(l: Layer, s: Session, w: Session)
    requires ValidLayer(l) && Served(l, s, w)
    ensures SameKeyed(l, s.req, w.req) && s.generation == w.generation
  {
    SameKeyIff(l, s.req, s.generation, w.req, w.generation);
  }

  lemma ReadBefore(l: Layer, st: State, id: nat)
    requires Bounded(l, st)
    ensures ReadIn(st, id) ==> ReadAtMost(l, st.cache, st.sessions[id])
  {
  }

  /** The bump puts every generation read before below every one read after. */
  lemma BumpParts(l: Layer, a: State, path: Bytes, host: Bytes, space: Space, end: State, id: nat, w: nat)
    requires Bounded(l, a) && ValidSpace(space)
    requires var b := Apply(l, a, Bump(path, host, space));
      && AllSince(l, b, end) && id in end.sessions && w in end.sessions && !ReadIn(b, id) && HasRead(end.sessions[id])
    requires var r := end.sessions[id].req; r.path == path && Host(r) == host && r.space == Some(space)
    requires HasRead(end.sessions[w]) && SameKeyed(l, end.sessions[id].req, end.sessions[w].req)
    requires end.sessions[id].generation == end.sessions[w].generation
    ensures !ReadIn(Apply(l, a, Bump(path, host, space)), w)
  {
    ReadBefore(l, a, w);
    var b := Apply(l, a, Bump(path, host, space));
    assert SinceFor(l, b, id, end.sessions[id]) && SinceFor(l, b, w, end.sessions[w]);
    assert CountOf(l, b.cache, path, host, space) == CountOf(l, a.cache, path, host, space) + 1;
  }

  lemma BumpedKeeps(l: Layer, earlier: seq<Event>, path: Bytes, host: Bytes, space: Space)
    requires Runnable(l, Empty(), earlier) && ValidSpace(space)
    ensures Inv(l, Bumped(l, earlier, path, host, space))
  {
    RunKeeps(l, Empty(), earlier);
    ApplyKeeps(l, After(l, Empty(), earlier), Bump(path, host, space));
  }

  lemma RunAfterBump(l: Layer, earlier: seq<Event>, path: Bytes, host: Bytes, space: Space, later: seq<Event>)
    requires ValidLayer(l) && ValidSpace(space) && Runnable(l, Empty(), earlier)
    requires Runnable(l, Bumped(l, earlier, path, host, space), later)
    ensures Bounded(l, After(l, Empty(), earlier))
    ensures var b := Bumped(l, earlier, path, host, space);
      Inv(l, After(l, b, later)) && AllSince(l, b, After(l, b, later))
  {
    var b := Bumped(l, earlier, path, host, space);
    RunBounded(l, Empty(), earlier);
    BumpedKeeps(l, earlier, path, host, space);
    RunKeeps(l, b, later);
    RunSince(l, b, b, later);
  }

  /** A request that reads its generation after an invalidation of its path is never answered
      from a page whose own request had read its generation before, whatever else runs, however
      late that page is stored, for every query, header value and verb. */
  lemma InvalidationHolds(l: Layer, earlier: seq<Event>, path: Bytes, host: Bytes, space: Space, later: seq<Event>,
                          id: nat)
    requires ValidLayer(l) && ValidSpace(space) && Runnable(l, Empty(), earlier)
    requires Runnable(l, Bumped(l, earlier, path, host, space), later)
    requires var end := After(l, Bumped(l, earlier, path, host, space), later);
      && id in end.sessions && end.sessions[id].Hit? && !ReadIn(Bumped(l, earlier, path, host, space), id)
      && end.sessions[id].req.path == path && Host(end.sessions[id].req) == host
      && end.sessions[id].req.space == Some(space)
    ensures var end := After(l, Bumped(l, earlier, path, host, space), later);
      && end.sessions[id].writer in end.sessions
      && !ReadIn(Bumped(l, earlier, path, host, space), end.sessions[id].writer)
  {
    var end := After(l, Bumped(l, earlier, path, host, space), later);
    RunAfterBump(l, earlier, path, host, space, later);
    var s := end.sessions[id];
    assert HitFrom(l, end.sessions, s);
    ServedSameCount(l, s, end.sessions[s.writer]);
    BumpParts(l, After(l, Empty(), earlier), path, host, space, end, id, s.writer);
  }

  // ---------------------------------------------------------------- Without one, the page is served

  lemma LookHits(l: Layer, cache: Cache, key: Bytes, frame: Bytes, w: nat, s: Session)
    requires s.Looking? && Cached(l, s.req) && Key(l, s.req, s.generation) == key
    requires key in cache && cache[key] == Stored(frame, w)
    ensures if Opened(frame, s.req).Some? then Look(l, cache, s).Hit? else Look(l, cache, s).Running?
    ensures Look(l, cache, s).Hit? ==> Look(l, cache, s).writer == w
  {
  }

  lemma OpensFor(l: Layer, w: Session, r: Request)
    requires w.Storing? && Sound(l, w) && FrameFor(w.req, w.hex, w.page).Some?
    ensures Opened(FrameFor(w.req, w.hex, w.page).value, r).Some? <==> CanOpen(w.req, w.page, r)
  {
    OpensIff(Missed(w.req, w.hex, w.generation, w.page, w.page), r);
  }

  lemma RunStep(l: Layer, st: State, e: Event, rest: seq<Event>)
    requires Enabled(l, st, e) && Runnable(l, Apply(l, st, e), rest)
    ensures Runnable(l, st, [e] + rest) && After(l, st, [e] + rest) == After(l, Apply(l, st, e), rest)
  {
    assert ([e] + rest)[1..] == rest;
  }

  lemma RunsFour(l: Layer, st: State, a: Event, b: Event, c: Event, d: Event)
    requires Enabled(l, st, a) && Enabled(l, Apply(l, st, a), b) && Enabled(l, Apply(l, Apply(l, st, a), b), c)
    requires Enabled(l, Apply(l, Apply(l, Apply(l, st, a), b), c), d)
    ensures Runnable(l, st, [a, b, c, d])
    ensures After(l, st, [a, b, c, d]) == Apply(l, Apply(l, Apply(l, Apply(l, st, a), b), c), d)
  {
    var one := Apply(l, st, a);
    var two := Apply(l, one, b);
    var three := Apply(l, two, c);
    RunStep(l, three, d, []);
    RunStep(l, two, c, [d]);
    RunStep(l, one, b, [c, d]);
    RunStep(l, st, a, [b, c, d]);
    assert [d] + [] == [d] && [c] + [d] == [c, d] && [b] + [c, d] == [b, c, d] && [a] + [b, c, d] == [a, b, c, d];
  }

  /** Once a page is stored, the next request for it at the same generation is a hit from it when
      it can be given the page, and else goes to the handler. */
  lemma StoredIsServed(l: Layer, st: State, i: nat, j: nat, r: Request, hex: Bytes)
    requires ValidLayer(l) && Inv(l, st) && Enabled(l, st, Step(i)) && st.sessions[i].Storing?
    requires Enabled(l, st, Arrive(j, r, hex)) && Cached(l, r)
    requires var w := st.sessions[i];
      FrameFor(w.req, w.hex, w.page).Some? && SameKeyed(l, w.req, r) && w.generation == PageCount(l, st.cache, r)
    ensures Runnable(l, st, [Step(i), Arrive(j, r, hex), Step(j), Step(j)])
    ensures var end := After(l, st, [Step(i), Arrive(j, r, hex), Step(j), Step(j)]);
      && i in end.sessions && end.sessions[i].Missed? && end.sessions[i].page == st.sessions[i].page
      && j in end.sessions
      && (if CanOpen(st.sessions[i].req, st.sessions[i].page, r) then
            end.sessions[j].Hit? && end.sessions[j].writer == i
          else end.sessions[j].Running?)
  {
    var w := st.sessions[i];
    var one := Apply(l, st, Step(i));
    var two := Apply(l, one, Arrive(j, r, hex));
    StoreSparesCounters(l, st.cache, w, i, r.path, Host(r), r.space.value);
    var reader := Looking(r, hex, w.generation);
    assert Start(l, two.cache, Starting(r, hex)) == reader;
    var three := Apply(l, two, Step(j));
    SameKeyIff(l, w.req, w.generation, r, w.generation);
    OpensFor(l, w, r);
    LookHits(l, three.cache, Key(l, r, w.generation), FrameFor(w.req, w.hex, w.page).value, i, reader);
    var four := Apply(l, three, Step(j));
    RunsFour(l, st, Step(i), Arrive(j, r, hex), Step(j), Step(j));
  }
}
