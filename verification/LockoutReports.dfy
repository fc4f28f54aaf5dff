/** Failure reports, counted along a run: which report locks, and when counting restarts. */
module LockoutReports {
  import opened Options
  import opened LockoutMachine
  import opened LockoutBounds
  import opened LockoutCalls
  import opened LockoutRuns

  /** The event counts a failure report of window `id`. */
  predicate Reports(st: State, e: Event, id: Id) {
    e.Advance? && e.i < |st.sessions| && st.sessions[e.i].pc == Fail(id)
  }

  /** How many reports of `id` a run counted since the id's failures counter last went away;
      `n` stood at the start. */
  function Since(max: nat, st: State, run: seq<Event>, id: Id, n: int): int
    requires Runnable(max, st, run)
    decreases |run|
  {
    if run == [] then n
    else
      var next := Apply(max, st, run[0]);
      var now := if id !in next.store.failures then 0 else if Reports(st, run[0], id) then n + 1 else n;
      Since(max, next, run[1..], id, now)
  }

  /** Only a report of an id moves its failures counter, short of dropping it. */
  lemma ReportMoves(max: nat, store: Store, s: Session, clock: Id, id: Id)
    ensures var after := Step(max, store, s, clock).0;
      && (s.pc == Fail(id) ==> id in after.failures && after.failures[id] == Val(store.failures, id) + 1)
      && (s.pc != Fail(id) && id in after.failures ==> id in store.failures && after.failures[id] == store.failures[id])
  {
  }

  lemma EventMoves(max: nat, st: State, e: Event, id: Id)
    requires Enabled(st, e)
    ensures var after := Apply(max, st, e).store;
      id in after.failures ==>
        after.failures[id] == Val(st.store.failures, id) + (if Reports(st, e, id) then 1 else 0)
  {
    if e.Advance? {
      ReportMoves(max, st.store, st.sessions[e.i], e.clock, id);
    }
  }

  /** The failures counter is the number of reports since it last went away, in every run. */
  lemma {:induction false} CounterIsReports(max: nat, st: State, run: seq<Event>, id: Id)
    requires Runnable(max, st, run)
    ensures Val(After(max, st, run).store.failures, id) == Since(max, st, run, id, Val(st.store.failures, id))
    decreases |run|
  {
    if run != [] {
      EventMoves(max, st, run[0], id);
      CounterIsReports(max, Apply(max, st, run[0]), run[1..], id);
    }
  }

  /** On every interleaving, and however many other attempts are in flight, a report goes on to
      set the lock exactly when it is at least the `max`-th of its id since the id's counter last
      went away; once it has, nothing stands between it and the lock. */
  lemma ReportLocksIff(max: nat, st: State, run: seq<Event>, i: nat, clock: Id, id: Id)
    requires Runnable(max, st, run) && id !in st.store.failures
    requires i < |After(max, st, run).sessions| && After(max, st, run).sessions[i].pc == Fail(id)
    ensures var next := Apply(max, After(max, st, run), Advance(i, clock));
      && (next.sessions[i].pc == SetLock(Some(id)) <==> Since(max, st, run, id, 0) + 1 >= max)
      && (next.sessions[i].pc == Done <==> Since(max, st, run, id, 0) + 1 < max)
    ensures forall store, s: Session :: s.pc == SetLock(Some(id)) ==> Step(max, store, s, clock).0.locked
  {
    CounterIsReports(max, st, run, id);
  }

  // ---------------------------------------------------------------- The rest of the call, alone

  /** From a report on, a call opens no window. */
  predicate Closing(pc: Pc) {
    pc.Fail? || pc.SetLock? || pc.ClearGet? || pc.ClearAttempts? || pc.ClearFailures? || pc.ClearWindow? ||
      pc.ClearLock? || pc == Done
  }

  lemma StepCloses(max: nat, store: Store, s: Session, clock: Id)
    requires Closing(s.pc)
    ensures Closing(Step(max, store, s, clock).1.pc)
  {
  }

  predicate Only(run: seq<Event>, i: nat, clock: Id) { forall k :: 0 <= k < |run| ==> run[k] == Advance(i, clock) }

  /** A call run to its end with nothing in between, as a run. */
  lemma {:induction false} AloneRuns(max: nat, st: State, i: nat, clock: Id) returns (run: seq<Event>)
    requires i < |st.sessions| && Closing(st.sessions[i].pc)
    ensures Runnable(max, st, run) && Only(run, i, clock)
    ensures var (store, s) := Finish(max, st.store, st.sessions[i], clock);
      After(max, st, run).store == store && After(max, st, run).sessions == st.sessions[i := s]
    decreases Rank(st.sessions[i].pc)
  {
    var s := st.sessions[i];
    if Over(s) {
      run := [];
    } else {
      StepRank(max, st.store, s, clock);
      StepCloses(max, st.store, s, clock);
      var next := Apply(max, st, Advance(i, clock));
      var rest := AloneRuns(max, next, i, clock);
      run := [Advance(i, clock)] + rest;
      assert run[1..] == rest;
    }
  }

  lemma {:induction false} RunsOn(max: nat, st: State, run: seq<Event>, more: seq<Event>, id: Id, n: int)
    requires Runnable(max, st, run) && Runnable(max, After(max, st, run), more)
    ensures Runnable(max, st, run + more) && After(max, st, run + more) == After(max, After(max, st, run), more)
    ensures Since(max, st, run + more, id, n) == Since(max, After(max, st, run), more, id, Since(max, st, run, id, n))
    decreases |run|
  {
    if run == [] {
      assert run + more == more;
    } else {
      assert (run + more)[0] == run[0] && (run + more)[1..] == run[1..] + more;
      var next := Apply(max, st, run[0]);
      var now := if id !in next.store.failures then 0 else if Reports(st, run[0], id) then n + 1 else n;
      RunsOn(max, next, run[1..], more, id, now);
    }
  }

  /** After any run, a report whose call meets no interference locks exactly when it brings the
      reports since the last restart to the limit. It then leaves no window open, and counting of
      its id restarts from zero exactly when that id was the open window's; otherwise the reports
      go on counting from where they were. */
  lemma ReportRestartsIff(max: nat, st: State, run: seq<Event>, i: nat, clock: Id, id: Id) returns (alone: seq<Event>)
    requires Runnable(max, st, run) && id !in st.store.failures && max >= 1
    requires i < |After(max, st, run).sessions| && After(max, st, run).sessions[i].pc == Fail(id)
    requires !After(max, st, run).store.locked
    ensures Only(alone, i, clock) && Runnable(max, st, run + alone)
    ensures var before, after := After(max, st, run), After(max, st, run + alone);
      var count := Since(max, st, run, id, 0) + 1;
      && i < |after.sessions| && after.sessions[i].pc == Done
      && (after.store.locked <==> count >= max)
      && (after.store.locked ==> after.store.window.None?)
      && Since(max, st, run + alone, id, 0) == (if count >= max && before.store.window == Some(id) then 0 else count)
  {
    var before := After(max, st, run);
    alone := AloneRuns(max, before, i, clock);
    FinishCounting(max, before.store, before.sessions[i], clock);
    RunsOn(max, st, run, alone, id, 0);
    CounterIsReports(max, st, run, id);
    CounterIsReports(max, st, run + alone, id);
  }

  /** An expiry or eviction of an id's failures counter restarts the count of its reports, and of no
      other's. */
  lemma EvictionRestarts(max: nat, st: State, run: seq<Event>, id: Id, other: Id, n: int)
    requires Runnable(max, st, run) && other != id
    ensures Runnable(max, st, run + [Evict(FailuresKey(id))])
    ensures Since(max, st, run + [Evict(FailuresKey(id))], id, n) == 0
    ensures other in After(max, st, run).store.failures ==>
      Since(max, st, run + [Evict(FailuresKey(id))], other, n) == Since(max, st, run, other, n)
  {
    var e := [Evict(FailuresKey(id))];
    assert e[1..] == [];
    RunsOn(max, st, run, e, id, n);
    RunsOn(max, st, run, e, other, n);
  }

  /** In every run, a window opened at a time no window opened before starts with both counters
      at zero. */
  lemma NewWindowStartsFromZero(max: nat, st: State, run: seq<Event>, id: Id)
    requires max >= 1 && Initial(st) && Runnable(max, st, run) && id !in After(max, st, run).used
    ensures Val(After(max, st, run).store.attempts, id) == 0 && Val(After(max, st, run).store.failures, id) == 0
  {
    InitialInv(max, st);
    RunInv(max, st, run);
  }

  // ---------------------------------------------------------------- A run that does not restart

  /** Window 1 open and unlocked, with these attempts counters and these callers. */
  function Window1(attempts: map<Id, int>, ss: seq<Session>, lost: set<Id>): State {
    State(Store(Some(1), attempts, map[], false), ss, {}, {1}, {}, lost)
  }

  /** One more caller reserves in window 1. */
  lemma OneMore(max: nat, run: seq<Event>, attempts: map<Id, int>, ss: seq<Session>, lost: set<Id>)
    returns (longer: seq<Event>)
    requires Leads(max, run, Window1(attempts, ss, lost)) && Val(attempts, 1) < max
    ensures Leads(max, longer, Window1(attempts[1 := Val(attempts, 1) + 1], ss + [Holding(Held)], lost))
  {
    var n := |ss|;
    var more := attempts[1 := Val(attempts, 1) + 1];
    var a0 := Window1(attempts, ss + [Start(CheckLock)], lost);
    var a1 := Window1(attempts, ss + [Start(OpenGet(Reserving, false))], lost);
    var a2 := Window1(attempts, ss + [Start(Count(1, false))], lost);
    var a3 := Window1(more, ss + [Start(Recheck(1))], lost);
    longer := Then(max, run, Window1(attempts, ss, lost), Spawn(Reserve), a0);
    longer := Then(max, longer, a0, Advance(n, 1), a1);
    longer := Then(max, longer, a1, Advance(n, 1), a2);
    longer := Then(max, longer, a2, Advance(n, 1), a3);
    longer := Then(max, longer, a3, Advance(n, 1), Window1(more, ss + [Holding(Held)], lost));
  }

  /** `k` callers who reported and the rest of `n` who hold a slot. */
  function Callers(n: nat, k: nat): seq<Session> {
    seq(n, i => if i < k then Session(Done, Some(1), Some(1), None) else Holding(Held))
  }

  lemma CallerAt(n: nat, k: nat, i: nat)
    requires i < n
    ensures Callers(n, k)[i] == if i < k then Session(Done, Some(1), Some(1), None) else Holding(Held)
  {
  }

  lemma {:induction false} AllHold(max: nat, k: nat) returns (run: seq<Event>)
    requires 1 <= k <= max
    ensures Leads(max, run, Window1(map[1 := k], Callers(k, 0), {}))
  {
    if k == 1 {
      run := FirstReserves(max);
      assert Callers(1, 0) == [Holding(Held)];
    } else {
      run := AllHold(max, k - 1);
      run := OneMore(max, run, map[1 := k - 1], Callers(k - 1, 0), {});
      assert map[1 := k - 1][1 := k] == map[1 := k];
      assert Callers(k - 1, 0) + [Holding(Held)] == Callers(k, 0);
    }
  }

  /** The attempts counter is evicted, one more caller gets a slot, and the window's key goes. */
  lemma OneTooMany(max: nat) returns (run: seq<Event>)
    requires max >= 1
    ensures Leads(max, run, Shut(max, map[], false, 0))
  {
    run := AllHold(max, max);
    var held := Window1(map[1 := max], Callers(max, 0), {});
    run := Then(max, run, held, Evict(AttemptsKey(1)), Window1(map[], Callers(max, 0), {1}));
    run := OneMore(max, run, map[], Callers(max, 0), {1});
    assert Callers(max, 0) + [Holding(Held)] == Callers(max + 1, 0);
    run := Then(max, run, Window1(map[1 := 1], Callers(max + 1, 0), {1}), Evict(WindowKey), Shut(max, map[], false, 0));
  }

  /** No window open; `k` of `max + 1` slots of window 1 are reported. */
  function Shut(max: nat, failures: map<Id, int>, locked: bool, k: nat): State {
    State(Store(None, map[1 := 1], failures, locked), Callers(max + 1, k), {}, {1}, {}, {1})
  }

  /** A state like `Shut` whose `k`-th caller is in the middle of its report. */
  function Telling(max: nat, failures: map<Id, int>, locked: bool, k: nat, s: Session): State
    requires k <= max
  {
    Shut(max, failures, locked, k).(sessions := Callers(max + 1, k)[k := s])
  }

  lemma TellingStarts(max: nat, run: seq<Event>, failures: map<Id, int>, k: nat) returns (longer: seq<Event>)
    requires Leads(max, run, Shut(max, failures, false, k)) && k <= max
    ensures Leads(max, longer, Telling(max, failures, false, k, Holding(Fail(1)))) && longer == run + [Tell(k, Failed)]
  {
    assert Callers(max + 1, k)[k] == Holding(Held);
    longer := Then(max, run, Shut(max, failures, false, k), Tell(k, Failed),
                   Telling(max, failures, false, k, Holding(Fail(1))));
  }

  /** The reporting caller takes one step. */
  lemma TellingStep(max: nat, run: seq<Event>, f: map<Id, int>, locked: bool, k: nat, s: Session,
                    f': map<Id, int>, locked': bool, s': Session)
    returns (longer: seq<Event>)
    requires k <= max && Leads(max, run, Telling(max, f, locked, k, s)) && !s.pc.OpenAdd?
    requires Step(max, Store(None, map[1 := 1], f, locked), s, 1) == (Store(None, map[1 := 1], f', locked'), s')
    ensures Leads(max, longer, Telling(max, f', locked', k, s')) && longer == run + [Advance(k, 1)]
  {
    assert Callers(max + 1, k)[k := s][k := s'] == Callers(max + 1, k)[k := s'];
    longer := Then(max, run, Telling(max, f, locked, k, s), Advance(k, 1), Telling(max, f', locked', k, s'));
  }

  function Told(pc: Pc): Session { Session(pc, Some(1), Some(1), None) }

  /** One more of the slots is reported. */
  lemma CountsOne(max: nat, run: seq<Event>, failures: map<Id, int>, k: nat) returns (longer: seq<Event>)
    requires Leads(max, run, Shut(max, failures, false, k)) && k <= max && Val(failures, 1) == k && max >= 1
    ensures longer == run + [Tell(k, Failed)] + [Advance(k, 1)]
    ensures k + 1 < max ==> Leads(max, longer, Shut(max, failures[1 := k + 1], false, k + 1))
    ensures k + 1 >= max ==> Leads(max, longer, Telling(max, failures[1 := k + 1], false, k, Told(SetLock(Some(1)))))
  {
    var reported := Told(if k + 1 >= max then SetLock(Some(1)) else Done);
    longer := TellingStarts(max, run, failures, k);
    longer := TellingStep(max, longer, failures, false, k, Holding(Fail(1)), failures[1 := k + 1], false, reported);
    if k + 1 < max {
      assert Callers(max + 1, k)[k := reported] == Callers(max + 1, k + 1);
    }
  }

  lemma {:induction false} AllButOneReport(max: nat, k: nat) returns (run: seq<Event>)
    requires k < max
    ensures Leads(max, run, Shut(max, if k == 0 then map[] else map[1 := k], false, k))
  {
    if k == 0 {
      run := OneTooMany(max);
    } else {
      var before := if k == 1 then map[] else map[1 := k - 1];
      run := AllButOneReport(max, k - 1);
      run := CountsOne(max, run, before, k - 1);
      assert before[1 := k] == map[1 := k];
    }
  }

  lemma LockSteps(max: nat, f: map<Id, int>)
    ensures var shut := (locked: bool) => Store(None, map[1 := 1], f, locked);
      && Step(max, shut(false), Told(SetLock(Some(1))), 1) == (shut(true), Told(ClearGet(false)))
      && Step(max, shut(true), Told(ClearGet(false)), 1) == (shut(true), Told(ClearWindow(false)))
      && Step(max, shut(true), Told(ClearWindow(false)), 1) == (shut(true), Told(Done))
  {
  }

  lemma SetsLock(max: nat, run: seq<Event>, f: map<Id, int>, k: nat) returns (longer: seq<Event>)
    requires k <= max && Leads(max, run, Telling(max, f, false, k, Told(SetLock(Some(1)))))
    ensures Leads(max, longer, Telling(max, f, true, k, Told(ClearGet(false)))) && longer == run + [Advance(k, 1)]
  {
    LockSteps(max, f);
    longer := TellingStep(max, run, f, false, k, Told(SetLock(Some(1))), f, true, Told(ClearGet(false)));
  }

  /** A clear that finds no window clears no counter. */
  lemma ClearsNothing(max: nat, run: seq<Event>, f: map<Id, int>, k: nat) returns (longer: seq<Event>)
    requires k <= max && Leads(max, run, Telling(max, f, true, k, Told(ClearGet(false))))
    ensures Leads(max, longer, Telling(max, f, true, k, Told(Done)))
  {
    LockSteps(max, f);
    var middle := TellingStep(max, run, f, true, k, Told(ClearGet(false)), f, true, Told(ClearWindow(false)));
    longer := TellingStep(max, middle, f, true, k, Told(ClearWindow(false)), f, true, Told(Done));
  }

  lemma LastReport(max: nat) returns (run: seq<Event>)
    requires max >= 1
    ensures Leads(max, run, Telling(max, map[1 := max], false, max - 1, Told(SetLock(Some(1)))))
  {
    var before := if max == 1 then map[] else map[1 := max - 1];
    run := AllButOneReport(max, max - 1);
    run := CountsOne(max, run, before, max - 1);
    assert before[1 := max] == map[1 := max];
  }

  lemma AllTold(max: nat, f: map<Id, int>)
    requires max >= 1
    ensures Telling(max, f, true, max - 1, Told(Done)) == Shut(max, f, true, max)
    ensures Quiescent(Shut(max, f, true, max))
  {
    var ss := Callers(max + 1, max);
    assert Callers(max + 1, max - 1)[max - 1 := Told(Done)] == ss;
    forall i | 0 <= i < |ss|
      ensures Over(ss[i])
    {
      CallerAt(max + 1, max, i);
    }
  }

  /** The last report locks, and its clear finds no window to clear. */
  lemma LocksUncleared(max: nat) returns (run: seq<Event>)
    requires max >= 1
    ensures Leads(max, run, Shut(max, map[1 := max], true, max))
  {
    run := LastReport(max);
    run := SetsLock(max, run, map[1 := max], max - 1);
    run := ClearsNothing(max, run, map[1 := max], max - 1);
    AllTold(max, map[1 := max]);
  }

  /** The lock ends, and the slot that is left is reported. */
  lemma LeftoverLocks(max: nat, run: seq<Event>) returns (longer: seq<Event>)
    requires max >= 1 && Leads(max, run, Shut(max, map[1 := max], true, max))
    ensures longer == run + [Evict(LockKey)] + [Tell(max, Failed)] + [Advance(max, 1)] + [Advance(max, 1)]
    ensures Leads(max, longer, Telling(max, map[1 := max + 1], true, max, Told(ClearGet(false))))
  {
    var f := map[1 := max];
    longer := Then(max, run, Shut(max, f, true, max), Evict(LockKey), Shut(max, f, false, max));
    longer := CountsOne(max, longer, f, max);
    assert f[1 := max + 1] == map[1 := max + 1];
    longer := SetsLock(max, longer, map[1 := max + 1], max);
  }

  /** For every limit, a run that ends locked with all `max` reports of window 1 still counted, in
      which, once the lock ends, the one slot left of that window locks the account again by
      itself. */
  lemma OneReportLocksAgain(max: nat) returns (run: seq<Event>, again: seq<Event>)
    requires max >= 1
    ensures Runnable(max, EMPTY, run)
    ensures var locked := After(max, EMPTY, run);
      && locked.store.locked && locked.store.failures == map[1 := max] && Quiescent(locked)
    ensures again == [Evict(LockKey), Tell(max, Failed), Advance(max, 1), Advance(max, 1)]
    ensures Runnable(max, EMPTY, run + again) && After(max, EMPTY, run + again).store.locked
  {
    run := LocksUncleared(max);
    AllTold(max, map[1 := max]);
    var longer := LeftoverLocks(max, run);
    again := [Evict(LockKey), Tell(max, Failed), Advance(max, 1), Advance(max, 1)];
    assert longer == run + again;
  }
}
