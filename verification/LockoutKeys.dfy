/** What each call, run alone, leaves of the account's keys, key by key; and when a sole
    reservation counts, in every run. */
module LockoutKeys {
  import opened Options
  import opened LockoutMachine
  import opened LockoutBounds
  import opened LockoutCalls

  /** A call that ended without a slot and reported nothing. */
  const REFUSED := Session(Done, None, None, None)

  lemma PutTwice(store: Store, id: Id, m: int, n: int)
    ensures PutAttempts(PutAttempts(store, id, m), id, n) == PutAttempts(store, id, n)
  {
    assert store.attempts[id := m][id := n] == store.attempts[id := n];
  }

  /** `reserve`: counted and granted below the limit, refused with the count as it was at the
      limit, and without a trace while locked. */
  lemma ReserveKeys(max: nat, store: Store, clock: Id)
    ensures var id := if store.window.Some? then store.window.value else clock;
      var n := if id in store.attempts then store.attempts[id] else 0;
      Finish(max, store, Start(CallPc(Reserve)), clock) ==
      if store.locked then (store, REFUSED)
      else if n < max then
        (Store(Some(id), store.attempts[id := n + 1], store.failures, false), Session(Held, Some(id), None, None))
      else (Store(Some(id), store.attempts[id := n], store.failures, false), REFUSED)
  {
    FinishReserve(max, store, clock);
    var id := WindowOr(store, clock);
    PutTwice(Opened(store, clock), id, Val(store.attempts, id) + 1, Val(store.attempts, id));
  }

  /** The counting step of `reserve_sole` and what follows it, alone. */
  lemma FinishSole(max: nat, open: Store, id: Id, clock: Id)
    ensures var n := Val(open.attempts, id);
      Finish(max, open, Start(Count(id, true)), clock) ==
      if !open.locked && n == 0 then (PutAttempts(open, id, 1), Session(Held, Some(id), None, None))
      else (PutAttempts(open, id, if n < 0 then n + 1 else n), REFUSED)
  {
    var n := Val(open.attempts, id);
    var counted := PutAttempts(open, id, n + 1);
    var c, r, g := Start(Count(id, true)), Start(Recheck(id)), Start(GiveBack(id));
    if n == 0 {
      Unroll(max, open, c, clock, counted, r);
      if open.locked {
        Unroll(max, counted, r, clock, counted, g);
      } else {
        Unroll(max, counted, r, clock, counted, Session(Held, Some(id), None, None));
      }
    } else {
      Unroll(max, open, c, clock, counted, g);
    }
    FinishGiveBack(max, counted, g, clock);
    PutTwice(open, id, n + 1, if n < 0 then n + 1 else n);
  }

  /** `reserve_sole`: a slot exactly when the account is not locked and the window's counter reads
      0, which leaves it at 1. Otherwise no slot, and the counter is what it was; only one that
      reads below 0 rises, by one, towards it. */
  lemma SoleKeys(max: nat, store: Store, clock: Id)
    ensures var id := if store.window.Some? then store.window.value else clock;
      var n := if id in store.attempts then store.attempts[id] else 0;
      Finish(max, store, Start(CallPc(ReserveSole)), clock) ==
      if !store.locked && n == 0 then
        (Store(Some(id), store.attempts[id := 1], store.failures, false), Session(Held, Some(id), None, None))
      else
        (Store(Some(id), store.attempts[id := if n < 0 then n + 1 else n], store.failures, store.locked), REFUSED)
  {
    FinishOpen(max, store, ReservingSole, clock, Start(OpenGet(ReservingSole, false)));
    FinishSole(max, Opened(store, clock), WindowOr(store, clock), clock);
  }

  /** In every run, a sole attempt goes on to its slot exactly when the counter read 0: in a
      window whose counter never went away, exactly when nobody else is counted in it. */
  lemma SoleCountsAlone(max: nat, st: State, run: seq<Event>, i: nat, clock: Id, id: Id)
    requires max >= 1 && Initial(st) && Runnable(max, st, run)
    requires i < |After(max, st, run).sessions| && After(max, st, run).sessions[i].pc == Count(id, true)
    ensures var now := After(max, st, run);
      var next := Apply(max, now, Advance(i, clock));
      && (next.sessions[i].pc == Recheck(id) <==> (if id in now.store.attempts then now.store.attempts[id] else 0) == 0)
      && (next.sessions[i].pc != Recheck(id) ==> next.sessions[i].pc == GiveBack(id))
      && (id !in now.lost && id !in now.removed ==>
            (next.sessions[i].pc == Recheck(id) <==> Total(Counted, now.sessions, id) == 0))
      && (next.sessions[i].pc == Recheck(id) && id !in now.lost && id !in now.removed ==>
            Total(Counted, next.sessions, id) == 1)
  {
    InitialInv(max, st);
    RunInv(max, st, run);
    var now := After(max, st, run);
    assert Bounded(max, now, id);
    TotalUpdate(Counted, now.sessions, i, Step(max, now.store, now.sessions[i], clock).1, id);
    assert WellFormed(now.sessions[i]);
  }

  /** `reserved_failed`, for a slot of window `id` or of none: the failure is counted, and at the
      limit the account is locked and the open window gone with both its counters. */
  lemma FailedKeys(max: nat, store: Store, slot: Option<Id>, clock: Id)
    ensures var id := if slot.Some? then slot.value else if store.window.Some? then store.window.value else clock;
      var open := if slot.Some? then store.window else Some(id);
      var n := (if id in store.failures then store.failures[id] else 0) + 1;
      var counted := store.failures[id := n];
      var gone := if open.Some? then {open.value} else {};
      Finish(max, store, Session(ReportPc(slot, Failed), slot, None, None), clock) ==
      (if n < max then Store(open, store.attempts, counted, store.locked)
       else Store(None, store.attempts - gone, counted - gone, true),
       Session(Done, slot, Some(id), None))
  {
    FinishFail(max, store, slot, clock);
    if slot.Some? && store.window.None? {
      var counted := store.failures[slot.value := Val(store.failures, slot.value) + 1];
      assert store.attempts - {} == store.attempts && counted - {} == counted;
    }
  }

  /** `record_failure`: nothing while locked; else the attempt is counted, and the account locks
      when the count is at the limit or below 0. */
  lemma RecordKeys(max: nat, store: Store, clock: Id)
    ensures var id := if store.window.Some? then store.window.value else clock;
      var n := (if id in store.attempts then store.attempts[id] else 0) + 1;
      && Finish(max, store, Start(CallPc(RecordFailure)), clock).0 ==
        (if store.locked then store
         else if 0 <= n < max then Store(Some(id), store.attempts[id := n], store.failures, false)
         else Store(None, store.attempts - {id}, store.failures - {id}, true))
      && Returned(max, store, clock) ==
        (if store.locked then max else if 0 <= n <= 0xFFFF_FFFF then n else 0xFFFF_FFFF)
  {
    FinishRecord(max, store, clock);
    var id := WindowOr(store, clock);
    assert store.attempts[id := Val(store.attempts, id) + 1] - {id} == store.attempts - {id};
  }

  /** `reserved_succeeded`: a window with a failure is gone with both its counters; otherwise only
      the slot's own counter goes down by one, if it is above 0. The lock stays as it is. */
  lemma SucceededKeys(max: nat, store: Store, slot: Option<Id>, clock: Id)
    ensures var after := Finish(max, store, Session(ReportPc(slot, Succeeded), slot, None, None), clock).0;
      if store.window.Some? && store.window.value in store.failures && store.failures[store.window.value] > 0 then
        after == Store(None, store.attempts - {store.window.value}, store.failures - {store.window.value}, store.locked)
      else if slot.Some? then
        var n := if slot.value in store.attempts then store.attempts[slot.value] else 0;
        after == store.(attempts := store.attempts[slot.value := if n > 0 then n - 1 else n])
      else after == store
  {
    FinishSucceed(max, store, slot, clock);
  }

  /** `release`: only the slot's own counter, down by one and never below 0. */
  lemma ReleasedKeys(max: nat, store: Store, slot: Option<Id>, clock: Id)
    ensures var after := Finish(max, store, Session(ReportPc(slot, Released), slot, None, None), clock).0;
      if slot.None? then after == store
      else
        var n := if slot.value in store.attempts then store.attempts[slot.value] else 0;
        after == store.(attempts := store.attempts[slot.value := if n > 0 then n - 1 else n])
  {
    if slot.Some? {
      FinishGiveBack(max, store, Session(GiveBack(slot.value), slot, None, None), clock);
    }
  }

  /** The end of `clear`, once the counters are gone. */
  lemma FinishUnlock(max: nat, store: Store, clock: Id)
    ensures Finish(max, store, Start(ClearWindow(true)), clock).0 ==
      Store(None, store.attempts, store.failures, false)
  {
    var shut := store.(window := None);
    Unroll(max, store, Start(ClearWindow(true)), clock, shut, Start(ClearLock));
    Unroll(max, shut, Start(ClearLock), clock, shut.(locked := false), Start(Done));
  }

  /** `clear`: the window, both its counters and the lock. */
  lemma ClearKeys(max: nat, store: Store, clock: Id)
    ensures var gone := if store.window.Some? then {store.window.value} else {};
      Finish(max, store, Start(CallPc(Clear)), clock).0 ==
      Store(None, store.attempts - gone, store.failures - gone, false)
  {
    var s, w := Start(ClearGet(true)), Start(ClearWindow(true));
    if store.window.Some? {
      var id := store.window.value;
      var a, f := Start(ClearAttempts(id, true)), Start(ClearFailures(id, true));
      var one := store.(attempts := store.attempts - {id});
      var two := one.(failures := one.failures - {id});
      Unroll(max, store, s, clock, store, a);
      Unroll(max, store, a, clock, one, f);
      Unroll(max, one, f, clock, two, w);
      FinishUnlock(max, two, clock);
    } else {
      Unroll(max, store, s, clock, store, w);
      FinishUnlock(max, store, clock);
      assert store.attempts - {} == store.attempts && store.failures - {} == store.failures;
    }
  }

  /** `force_lock`: the lock and nothing else. */
  lemma ForceKeys(max: nat, store: Store, clock: Id)
    ensures Finish(max, store, Start(CallPc(Force)), clock) == (store.(locked := true), Start(Done))
  {
    Unroll(max, store, Start(ForceLock), clock, store.(locked := true), Start(Done));
  }

  /** A call that finds the window opened by another in the meantime goes on in that window,
      whatever it wanted it for. */
  lemma LostRaceJoins(max: nat, store: Store, goal: Goal, clock: Id, s: Session)
    requires s.pc == OpenAdd(goal, false) && store.window.Some?
    ensures Finish(max, store, s, clock) ==
            Finish(max, store, s.(pc := Enter(goal, store.window.value)), clock)
  {
    var again := s.(pc := OpenGet(goal, true));
    Unroll(max, store, s, clock, store, again);
    Unroll(max, store, again, clock, store, s.(pc := Enter(goal, store.window.value)));
  }

  /** A call that finds it gone, and then opened by another, twice over is without a window: only
      `reserve` goes on, with a slot that is not counted. */
  lemma NoWindowTwice(max: nat, store: Store, goal: Goal, clock: Id, s: Session)
    requires s.pc == OpenAdd(goal, true) && store.window.Some?
    ensures Finish(max, store, s, clock) == (store, s.(pc := if goal == Reserving then Held else Done))
  {
    Unroll(max, store, s, clock, store, s.(pc := if goal == Reserving then Held else Done));
  }
}
