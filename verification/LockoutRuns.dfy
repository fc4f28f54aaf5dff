/** Runs of the lockout protocol without expiry, explicit clear or success report: at most
    `max_attempts` slots are out at once, through the lock and the clear that races it. */
module LockoutRuns {
  import opened Options
  import opened LockoutMachine
  import opened LockoutBounds

  /** Any number of `reserve`, `reserve_sole`, `release` and `reserved_failed` calls, and
      failures recorded or locks forced beside them. */
  predicate QuietEvent(e: Event) {
    match e
    case Spawn(c) => c != Clear
    case Tell(_, how) => how != Succeeded
    case Advance(_, _) => true
    case Evict(_) => false
  }

  predicate Quiet(run: seq<Event>) { forall k :: 0 <= k < |run| ==> QuietEvent(run[k]) }

  /** Clearing only ever happens behind the lock. */
  predicate Behind(s: Session, locked: bool) {
    match s.pc
    case ClearGet(unlock) => locked && !unlock
    case ClearAttempts(_, unlock) => locked && !unlock
    case ClearFailures(_, unlock) => locked && !unlock
    case ClearWindow(unlock) => locked && !unlock
    case ClearLock | SuccessGet | SuccessRead(_) => false
    case _ => true
  }

  /** Every slot carries `w`, and until the lock so does every attempt on its way to one. */
  predicate Follows(s: Session, locked: bool, w: Option<Id>) {
    && (s.slot.Some? ==> s.slot == w)
    && (!locked && (s.pc.Count? || s.pc.Recheck?) ==> PcId(s.pc) == w)
  }

  predicate OneWindow(st: State, w: Option<Id>) {
    && st.lost == st.stale
    && (!st.store.locked ==> st.store.window == w)
    && (forall i :: 0 <= i < |st.sessions| ==>
          Behind(st.sessions[i], st.store.locked) && Follows(st.sessions[i], st.store.locked, w))
  }

  /** The window slots carry after an event: the one it opened, while unlocked. */
  function NextWindow(st': State, w: Option<Id>): Option<Id> {
    if st'.store.locked then w else st'.store.window
  }

  lemma QuietStep(max: nat, store: Store, s: Session, clock: Id, w: Option<Id>)
    requires Behind(s, store.locked) && Follows(s, store.locked, w)
    requires !store.locked ==> store.window == w
    ensures var (store', s') := Step(max, store, s, clock);
      && Behind(s', store'.locked)
      && (store.locked ==> store'.locked && Follows(s', store'.locked, w))
      && (!store.locked ==> store'.window == store.window || store.window.None?)
      && (!store.locked && store'.locked ==> store'.window == store.window && Follows(s', true, w))
      && (!store'.locked ==> Follows(s', false, store'.window))
      && (!store'.locked ==> store'.attempts.Keys >= store.attempts.Keys)
  {
  }

  lemma QuietEventKeeps(max: nat, st: State, e: Event, w: Option<Id>)
    requires Shape(st) && OneWindow(st, w) && Enabled(st, e) && QuietEvent(e)
    ensures OneWindow(Apply(max, st, e), NextWindow(Apply(max, st, e), w))
  {
    var st' := Apply(max, st, e);
    match e
    case Spawn(c) =>
    case Tell(i, how) =>
      assert Behind(st.sessions[i], st.store.locked) && Follows(st.sessions[i], st.store.locked, w);
    case Evict(_) =>
    case Advance(i, clock) =>
      QuietStep(max, st.store, st.sessions[i], clock, w);
      assert Gone(st.store, st'.store) == {} || st'.store.locked;
  }

  lemma {:induction false} QuietRunKeeps(max: nat, st: State, run: seq<Event>, w: Option<Id>)
    returns (w': Option<Id>)
    requires max >= 1 && Inv(max, st) && OneWindow(st, w) && Runnable(max, st, run) && Quiet(run)
    ensures OneWindow(After(max, st, run), w')
    decreases |run|
  {
    if run == [] {
      w' := w;
    } else {
      var next := Apply(max, st, run[0]);
      EventInv(max, st, run[0]);
      QuietEventKeeps(max, st, run[0], w);
      assert forall k :: 0 <= k < |run[1..]| ==> run[1..][k] == run[k + 1];
      w' := QuietRunKeeps(max, next, run[1..], NextWindow(next, w));
    }
  }

  /** Slots that carry a window id and were not given back, over every window. */
  function SlotsOut(ss: seq<Session>): nat {
    if ss == [] then 0 else SlotsOut(ss[..|ss| - 1]) + One(ss[|ss| - 1].slot.Some?)
  }

  lemma {:induction false} SlotsOutOfOneWindow(ss: seq<Session>, w: Option<Id>)
    requires forall i :: 0 <= i < |ss| ==> ss[i].slot.Some? ==> ss[i].slot == w
    ensures SlotsOut(ss) == if w.Some? then Total(Slots, ss, w.value) else 0
  {
    if ss != [] {
      SlotsOutOfOneWindow(ss[..|ss| - 1], w);
    }
  }

  lemma {:induction false} StaleIsNotCarried(max: nat, st: State, id: Id)
    requires Inv(max, st) && id in st.stale
    ensures Total(Slots, st.sessions, id) == 0
  {
    TotalUnknown(Slots, st.sessions, Live(st), id);
  }

  /** At most `max` slots are out at any moment of any such run, whichever windows they
      carry: through the lock, the clear racing the attempts in flight, and every window
      opened behind the lock. */
  lemma QuietRunsBounded(max: nat, st: State, run: seq<Event>)
    requires max >= 1 && Initial(st) && Runnable(max, st, run) && Quiet(run)
    ensures SlotsOut(After(max, st, run).sessions) <= max
  {
    var now := After(max, st, run);
    InitialInv(max, st);
    RunInv(max, st, run);
    var w := QuietRunKeeps(max, st, run, None);
    assert forall i :: 0 <= i < |now.sessions| ==> Follows(now.sessions[i], now.store.locked, w);
    SlotsOutOfOneWindow(now.sessions, w);
    if w.Some? {
      if w.value in now.stale {
        StaleIsNotCarried(max, now, w.value);
      } else {
        SlotsBounded(max, st, run, w.value);
      }
    }
  }

  // ---------------------------------------------------------------- record_failure

  /** `record_failure` locks on a count below the limit only when the counter is negative,
      which takes two undo steps pending on it. */
  lemma RecordLocksOnCount(max: nat, st: State, run: seq<Event>, i: nat, clock: Id)
    requires max >= 1 && Initial(st) && Runnable(max, st, run)
    requires i < |After(max, st, run).sessions| && After(max, st, run).sessions[i].pc.RecordCount?
    ensures var now := After(max, st, run);
      var id := now.sessions[i].pc.id;
      var next := Step(max, now.store, now.sessions[i], clock).1.pc;
      && (next == SetLock(None) <==> Val(now.store.attempts, id) + 1 >= max || Val(now.store.attempts, id) < -1)
      && (Val(now.store.attempts, id) < -1 ==> Total(Undoing, now.sessions, id) >= 2)
  {
    var now := After(max, st, run);
    CountersNotNegative(max, st, run, now.sessions[i].pc.id);
  }

  lemma {:induction false} Extend(max: nat, st: State, run: seq<Event>, e: Event)
    requires Runnable(max, st, run) && Enabled(After(max, st, run), e)
    ensures Runnable(max, st, run + [e])
    ensures After(max, st, run + [e]) == Apply(max, After(max, st, run), e)
    decreases |run|
  {
    if run == [] {
      assert [e][1..] == [];
    } else {
      assert (run + [e])[1..] == run[1..] + [e];
      Extend(max, Apply(max, st, run[0]), run[1..], e);
    }
  }

  const EMPTY := State(Store(None, map[], map[], false), [], {}, {}, {}, {})

  /** `run` leads from nothing to `a`. */
  predicate Leads(max: nat, run: seq<Event>, a: State) {
    Runnable(max, EMPTY, run) && After(max, EMPTY, run) == a
  }

  lemma Then(max: nat, run: seq<Event>, a: State, e: Event, b: State) returns (longer: seq<Event>)
    requires Leads(max, run, a) && Enabled(a, e) && Apply(max, a, e) == b
    ensures Leads(max, longer, b) && longer == run + [e]
  {
    Extend(max, EMPTY, run, e);
    longer := run + [e];
  }

  /** The callers, on an unlocked account whose window 1 counts `n` attempts. */
  function Counting(n: int, ss: seq<Session>): State {
    State(Store(Some(1), map[1 := n], map[], false), ss, {}, {1}, {}, {})
  }

  function Holding(pc: Pc): Session { Session(pc, Some(1), None, None) }

  lemma FirstOpens(max: nat) returns (run: seq<Event>)
    ensures Leads(max, run, State(Store(Some(1), map[], map[], false), [Start(Count(1, false))], {}, {1}, {}, {}))
  {
    var a0 := EMPTY.(sessions := [Start(CheckLock)]);
    var a1 := EMPTY.(sessions := [Start(OpenGet(Reserving, false))]);
    var a2 := EMPTY.(sessions := [Start(OpenAdd(Reserving, false))]);
    var a3 := State(Store(Some(1), map[], map[], false), [Start(Count(1, false))], {}, {1}, {}, {});
    run := Then(max, [], EMPTY, Spawn(Reserve), a0);
    run := Then(max, run, a0, Advance(0, 1), a1);
    run := Then(max, run, a1, Advance(0, 1), a2);
    run := Then(max, run, a2, Advance(0, 1), a3);
  }

  lemma FirstReserves(max: nat) returns (run: seq<Event>)
    requires max >= 1
    ensures Leads(max, run, Counting(1, [Holding(Held)]))
  {
    var a3 := State(Store(Some(1), map[], map[], false), [Start(Count(1, false))], {}, {1}, {}, {});
    run := FirstOpens(max);
    run := Then(max, run, a3, Advance(0, 1), Counting(1, [Start(Recheck(1))]));
    run := Then(max, run, Counting(1, [Start(Recheck(1))]), Advance(0, 1), Counting(1, [Holding(Held)]));
  }

  lemma SecondReserves(max: nat) returns (run: seq<Event>)
    requires max >= 2
    ensures Leads(max, run, Counting(2, [Holding(Held), Holding(Held)]))
  {
    var h := Holding(Held);
    run := FirstReserves(max);
    run := Then(max, run, Counting(1, [h]), Spawn(Reserve), Counting(1, [h, Start(CheckLock)]));
    run := Then(max, run, Counting(1, [h, Start(CheckLock)]), Advance(1, 1),
                Counting(1, [h, Start(OpenGet(Reserving, false))]));
    run := Then(max, run, Counting(1, [h, Start(OpenGet(Reserving, false))]), Advance(1, 1),
                Counting(1, [h, Start(Count(1, false))]));
    run := Then(max, run, Counting(1, [h, Start(Count(1, false))]), Advance(1, 1),
                Counting(2, [h, Start(Recheck(1))]));
    run := Then(max, run, Counting(2, [h, Start(Recheck(1))]), Advance(1, 1), Counting(2, [h, h]));
  }

  /** The counter of an unlocked account went away: window 1 is lost. */
  function Evicted(n: int, ss: seq<Session>): State {
    State(Store(Some(1), map[1 := n], map[], false), ss, {}, {1}, {}, {1})
  }

  function Uncounted(ss: seq<Session>): State {
    State(Store(Some(1), map[], map[], false), ss, {}, {1}, {}, {1})
  }

  lemma BothRelease(max: nat) returns (run: seq<Event>)
    requires max >= 2
    ensures Leads(max, run, Uncounted([Holding(GiveBack(1)), Holding(GiveBack(1))]))
  {
    var h, g := Holding(Held), Holding(GiveBack(1));
    run := SecondReserves(max);
    run := Then(max, run, Counting(2, [h, h]), Evict(AttemptsKey(1)), Uncounted([h, h]));
    run := Then(max, run, Uncounted([h, h]), Tell(0, Released), Uncounted([g, h]));
    run := Then(max, run, Uncounted([g, h]), Tell(1, Released), Uncounted([g, g]));
  }

  lemma BothGiveBack(max: nat) returns (run: seq<Event>)
    requires max >= 2
    ensures Leads(max, run, Evicted(-2, [Start(Undo(1)), Start(Undo(1))]))
  {
    var g, u := Holding(GiveBack(1)), Start(Undo(1));
    run := BothRelease(max);
    run := Then(max, run, Uncounted([g, g]), Advance(0, 1), Evicted(-1, [u, g]));
    run := Then(max, run, Evicted(-1, [u, g]), Advance(1, 1), Evicted(-2, [u, u]));
  }

  lemma ThenOneRecords(max: nat) returns (run: seq<Event>)
    requires max >= 2
    ensures Leads(max, run, Evicted(-2, [Start(Undo(1)), Start(Undo(1)), Start(RecordCount(1))]))
  {
    var u := Start(Undo(1));
    run := BothGiveBack(max);
    run := Then(max, run, Evicted(-2, [u, u]), Spawn(RecordFailure), Evicted(-2, [u, u, Start(RecordCheck)]));
    run := Then(max, run, Evicted(-2, [u, u, Start(RecordCheck)]), Advance(2, 1),
                Evicted(-2, [u, u, Start(OpenGet(Recording, false))]));
    run := Then(max, run, Evicted(-2, [u, u, Start(OpenGet(Recording, false))]), Advance(2, 1),
                Evicted(-2, [u, u, Start(RecordCount(1))]));
  }

  /** With the counter evicted and two releases undoing at once, one single failure locks
      the account, however high the limit. */
  lemma OneFailureLocks(max: nat) returns (run: seq<Event>)
    requires max >= 2
    ensures Runnable(max, EMPTY, run)
    ensures After(max, EMPTY, run).store.locked
    ensures After(max, EMPTY, run).sessions ==
      [Start(Undo(1)), Start(Undo(1)), Session(ClearGet(false), None, None, Some(1))]
  {
    var u := Start(Undo(1));
    var r := Session(SetLock(None), None, None, Some(1));
    var before := Evicted(-2, [u, u, Start(RecordCount(1))]);
    var counted := Evicted(-1, [u, u, r]);
    var locked := counted.(store := counted.store.(locked := true),
                           sessions := [u, u, r.(pc := ClearGet(false))]);
    run := ThenOneRecords(max);
    run := Then(max, run, before, Advance(2, 1), counted);
    run := Then(max, run, counted, Advance(2, 1), locked);
  }
}
