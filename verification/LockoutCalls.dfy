/** Lockout calls taken one at a time: what each whole call does to the account's keys,
    derived from the same single-operation steps the interleavings use. */
module LockoutCalls {
  import opened Options
  import opened LockoutMachine

  /** Steps left in a call that meets no interference. */
  function Rank(pc: Pc): nat {
    match pc
    case CheckLock | RecordCheck => 30
    case SuccessGet => 28
    case SuccessRead(_) => 27
    case OpenGet(_, again) => if again then 24 else 26
    case OpenAdd(_, again) => if again then 23 else 25
    case Count(_, _) | Fail(_) | RecordCount(_) => 20
    case Recheck(_) => 19
    case GiveBack(_) => 18
    case Undo(_) => 17
    case SetLock(_) => 16
    case ClearGet(_) => 15
    case ClearAttempts(_, _) => 14
    case ClearFailures(_, _) => 13
    case ClearWindow(_) => 12
    case ClearLock | ForceLock => 11
    case Held | Done => 0
  }

  predicate Over(s: Session) { s.pc == Held || s.pc == Done }

  lemma StepRank(max: nat, store: Store, s: Session, clock: Id)
    requires !Over(s)
    ensures Rank(Step(max, store, s, clock).1.pc) < Rank(s.pc)
  {
  }

  /** The call run to its end alone. */
  function Finish(max: nat, store: Store, s: Session, clock: Id): (Store, Session)
    decreases Rank(s.pc)
  {
    if Over(s) then (store, s)
    else
      StepRank(max, store, s, clock);
      var (store', s') := Step(max, store, s, clock);
      Finish(max, store', s', clock)
  }

  // ---------------------------------------------------------------- Whole calls

  function WindowOr(store: Store, clock: Id): Id {
    if store.window.Some? then store.window.value else clock
  }

  /** The store once the window is open. */
  function Opened(store: Store, clock: Id): Store { store.(window := Some(WindowOr(store, clock))) }

  function PutAttempts(store: Store, id: Id, n: int): Store { store.(attempts := store.attempts[id := n]) }

  function PutFailures(store: Store, id: Id, n: int): Store { store.(failures := store.failures[id := n]) }

  /** `decrement`: one off, never below 0. */
  function TakeOne(store: Store, id: Id): Store {
    var n := Val(store.attempts, id) - 1;
    PutAttempts(store, id, if n < 0 then n + 1 else n)
  }

  function ReserveCall(max: nat, store: Store, clock: Id): (Store, Option<Id>) {
    if store.locked then (store, None)
    else
      var id := WindowOr(store, clock);
      var n := Val(store.attempts, id) + 1;
      var counted := PutAttempts(Opened(store, clock), id, n);
      if n > max then (TakeOne(counted, id), None) else (counted, Some(id))
  }

  function Cleared(store: Store): Store {
    if store.window.Some? then
      Store(None, store.attempts - {store.window.value}, store.failures - {store.window.value}, store.locked)
    else store
  }

  function FailCall(max: nat, store: Store, id: Id): Store {
    var n := Val(store.failures, id) + 1;
    var counted := PutFailures(store, id, n);
    if n >= max then Cleared(counted.(locked := true)) else counted
  }

  const U32_MAX := 0xFFFF_FFFF

  /** `u32::try_from(n).unwrap_or(u32::MAX)`. */
  function AsU32(n: int): nat { if 0 <= n <= U32_MAX then n else U32_MAX }

  /** `record_failure`, and the count it returns. */
  function RecordCall(max: nat, store: Store, clock: Id): (Store, nat) {
    if store.locked then (store, max)
    else
      var id := WindowOr(store, clock);
      var n := Val(store.attempts, id) + 1;
      var counted := PutAttempts(Opened(store, clock), id, n);
      (if RecordLocks(max, n) then Cleared(counted.(locked := true)) else counted, AsU32(n))
  }

  /** `reserved_failed`: a slot without a window id is counted in the open window. */
  function ReportCall(max: nat, store: Store, slot: Option<Id>, clock: Id): Store {
    if slot.Some? then FailCall(max, store, slot.value)
    else FailCall(max, Opened(store, clock), WindowOr(store, clock))
  }

  /** What the call's own `incr` of the attempts counter returned, if it got that far. */
  function Counted(max: nat, store: Store, s: Session, clock: Id): Option<int>
    decreases Rank(s.pc)
  {
    if s.pc.RecordCount? then Some(Val(store.attempts, s.pc.id) + 1)
    else if Over(s) then None
    else
      StepRank(max, store, s, clock);
      var (store', s') := Step(max, store, s, clock);
      Counted(max, store', s', clock)
  }

  /** The count `record_failure` returns: the limit when it was locked. */
  function Returned(max: nat, store: Store, clock: Id): nat {
    match Counted(max, store, Start(RecordCheck), clock)
    case Some(n) => AsU32(n)
    case None => max
  }

  function SucceedCall(store: Store, slot: Option<Id>): Store {
    if store.window.Some? && Val(store.failures, store.window.value) > 0 then Cleared(store)
    else if slot.Some? then TakeOne(store, slot.value)
    else store
  }

  // One step of `Finish`, so a call unrolls without unfolding its recursion.
  lemma Unroll(max: nat, store: Store, s: Session, clock: Id, store': Store, s': Session)
    requires !Over(s) && Step(max, store, s, clock) == (store', s')
    ensures Finish(max, store, s, clock) == Finish(max, store', s', clock)
  {
  }

  lemma FinishOpen(max: nat, store: Store, goal: Goal, clock: Id, s: Session)
    requires s.pc == OpenGet(goal, false)
    ensures Finish(max, store, s, clock) ==
            Finish(max, Opened(store, clock), s.(pc := Enter(goal, WindowOr(store, clock))), clock)
  {
    if store.window.Some? {
      Unroll(max, store, s, clock, store, s.(pc := Enter(goal, store.window.value)));
    } else {
      var a := s.(pc := OpenAdd(goal, false));
      Unroll(max, store, s, clock, store, a);
      Unroll(max, store, a, clock, Opened(store, clock), s.(pc := Enter(goal, clock)));
    }
  }

  lemma FinishGiveBack(max: nat, store: Store, s: Session, clock: Id)
    requires s.pc.GiveBack?
    ensures Finish(max, store, s, clock) == (TakeOne(store, s.pc.id), s.(pc := Done, slot := None))
  {
    var id := s.pc.id;
    var n := Val(store.attempts, id) - 1;
    var less := PutAttempts(store, id, n);
    if n < 0 {
      var u := s.(pc := Undo(id), slot := None);
      Unroll(max, store, s, clock, less, u);
      Unroll(max, less, u, clock, PutAttempts(less, id, n + 1), s.(pc := Done, slot := None));
      assert PutAttempts(less, id, n + 1) == TakeOne(store, id);
    } else {
      Unroll(max, store, s, clock, less, s.(pc := Done, slot := None));
    }
  }

  lemma FinishClear(max: nat, store: Store, s: Session, clock: Id)
    requires s.pc == ClearGet(false)
    ensures Finish(max, store, s, clock) == (Cleared(store), s.(pc := Done))
  {
    var w := s.(pc := ClearWindow(false));
    if store.window.Some? {
      var id := store.window.value;
      var a, f := s.(pc := ClearAttempts(id, false)), s.(pc := ClearFailures(id, false));
      var store1 := store.(attempts := store.attempts - {id});
      var store2 := store1.(failures := store1.failures - {id});
      Unroll(max, store, s, clock, store, a);
      Unroll(max, store, a, clock, store1, f);
      Unroll(max, store1, f, clock, store2, w);
      Unroll(max, store2, w, clock, Cleared(store), s.(pc := Done));
    } else {
      Unroll(max, store, s, clock, store, w);
      Unroll(max, store, w, clock, store, s.(pc := Done));
    }
  }

  lemma FinishLock(max: nat, store: Store, s: Session, clock: Id)
    requires s.pc.SetLock?
    ensures Finish(max, store, s, clock) == (Cleared(store.(locked := true)), s.(pc := Done))
  {
    var c := s.(pc := ClearGet(false));
    Unroll(max, store, s, clock, store.(locked := true), c);
    FinishClear(max, store.(locked := true), c, clock);
  }

  /** `reserve` alone. */
  lemma FinishReserve(max: nat, store: Store, clock: Id)
    ensures var (store', slot) := ReserveCall(max, store, clock);
      Finish(max, store, Start(CheckLock), clock) ==
      (store', Session(if slot.Some? then Held else Done, slot, None, None))
  {
    var s := Start(CheckLock);
    if store.locked {
      Unroll(max, store, s, clock, store, Start(Done));
    } else {
      Unroll(max, store, s, clock, store, Start(OpenGet(Reserving, false)));
      FinishOpen(max, store, Reserving, clock, Start(OpenGet(Reserving, false)));
      var id := WindowOr(store, clock);
      var n := Val(store.attempts, id) + 1;
      var open := Opened(store, clock);
      var counted := PutAttempts(open, id, n);
      if n > max {
        Unroll(max, open, Start(Count(id, false)), clock, counted, Start(GiveBack(id)));
        FinishGiveBack(max, counted, Start(GiveBack(id)), clock);
      } else {
        Unroll(max, open, Start(Count(id, false)), clock, counted, Start(Recheck(id)));
        Unroll(max, counted, Start(Recheck(id)), clock, counted, Session(Held, Some(id), None, None));
      }
    }
  }

  /** The counting step of `reserved_failed` and what follows it, alone. */
  lemma FinishCounting(max: nat, store: Store, s: Session, clock: Id)
    requires s.pc.Fail?
    ensures Finish(max, store, s, clock) ==
            (FailCall(max, store, s.pc.id), s.(pc := Done, reported := Some(s.pc.id)))
  {
    var id := s.pc.id;
    var n := Val(store.failures, id) + 1;
    var counted := PutFailures(store, id, n);
    if n >= max {
      var l := s.(pc := SetLock(Some(id)), reported := Some(id));
      Unroll(max, store, s, clock, counted, l);
      FinishLock(max, counted, l, clock);
    } else {
      Unroll(max, store, s, clock, counted, s.(pc := Done, reported := Some(id)));
    }
  }

  /** `reserved_failed` alone, for a slot with a window id or without one. */
  lemma FinishFail(max: nat, store: Store, slot: Option<Id>, clock: Id)
    ensures var id := if slot.Some? then slot.value else WindowOr(store, clock);
      Finish(max, store, Session(ReportPc(slot, Failed), slot, None, None), clock) ==
      (ReportCall(max, store, slot, clock), Session(Done, slot, Some(id), None))
  {
    var s := Session(ReportPc(slot, Failed), slot, None, None);
    if slot.Some? {
      FinishCounting(max, store, s, clock);
    } else {
      FinishOpen(max, store, Reporting, clock, s);
      FinishCounting(max, Opened(store, clock), s.(pc := Fail(WindowOr(store, clock))), clock);
    }
  }

  // One step of `Counted`.
  lemma UnrollCounted(max: nat, store: Store, s: Session, clock: Id, store': Store, s': Session)
    requires !Over(s) && !s.pc.RecordCount? && Step(max, store, s, clock) == (store', s')
    ensures Counted(max, store, s, clock) == Counted(max, store', s', clock)
  {
  }

  lemma CountedRecord(max: nat, store: Store, clock: Id)
    ensures Returned(max, store, clock) == RecordCall(max, store, clock).1
  {
    var s, open := Start(RecordCheck), Start(OpenGet(Recording, false));
    if store.locked {
      UnrollCounted(max, store, s, clock, store, Start(Done));
    } else {
      UnrollCounted(max, store, s, clock, store, open);
      if store.window.Some? {
        UnrollCounted(max, store, open, clock, store, Start(RecordCount(store.window.value)));
      } else {
        var add := Start(OpenAdd(Recording, false));
        UnrollCounted(max, store, open, clock, store, add);
        UnrollCounted(max, store, add, clock, Opened(store, clock), Start(RecordCount(clock)));
      }
    }
  }

  /** `record_failure` alone: the store it leaves and the count it returns. */
  lemma FinishRecord(max: nat, store: Store, clock: Id)
    ensures (Finish(max, store, Start(RecordCheck), clock).0, Returned(max, store, clock)) ==
      RecordCall(max, store, clock)
  {
    CountedRecord(max, store, clock);
    var s := Start(RecordCheck);
    if store.locked {
      Unroll(max, store, s, clock, store, Start(Done));
    } else {
      Unroll(max, store, s, clock, store, Start(OpenGet(Recording, false)));
      FinishOpen(max, store, Recording, clock, Start(OpenGet(Recording, false)));
      var id := WindowOr(store, clock);
      var n := Val(store.attempts, id) + 1;
      var open := Opened(store, clock);
      var counted := PutAttempts(open, id, n);
      if RecordLocks(max, n) {
        var l := Session(SetLock(None), None, None, Some(id));
        Unroll(max, open, Start(RecordCount(id)), clock, counted, l);
        FinishLock(max, counted, l, clock);
      } else {
        Unroll(max, open, Start(RecordCount(id)), clock, counted, Session(Done, None, None, Some(id)));
      }
    }
  }

  /** `reserved_succeeded` alone. */
  lemma FinishSucceed(max: nat, store: Store, slot: Option<Id>, clock: Id)
    ensures Finish(max, store, Session(SuccessGet, slot, None, None), clock).0 == SucceedCall(store, slot)
  {
    var s := Session(SuccessGet, slot, None, None);
    var release := s.(pc := ReleasePc(slot));
    if store.window.Some? {
      var id := store.window.value;
      var r := s.(pc := SuccessRead(id));
      Unroll(max, store, s, clock, store, r);
      if Val(store.failures, id) > 0 {
        Unroll(max, store, r, clock, store, s.(pc := ClearGet(false)));
        FinishClear(max, store, s.(pc := ClearGet(false)), clock);
      } else {
        Unroll(max, store, r, clock, store, release);
      }
    } else {
      Unroll(max, store, s, clock, store, release);
    }
    if slot.Some? {
      FinishGiveBack(max, store, release, clock);
    }
  }

  // ---------------------------------------------------------------- Locking, one call at a time

  /** One attempt reserved, then reported as failed when it got a slot. */
  function Attempt(max: nat, store: Store, clock: Id): Store {
    var (reserved, slot) := ReserveCall(max, store, clock);
    if slot.Some? then FailCall(max, reserved, slot.value) else reserved
  }

  /** `k` such attempts one after the other; `clock` is when the window opens. */
  function Attempts(max: nat, store: Store, clock: Id, k: nat): Store {
    if k == 0 then store else Attempt(max, Attempts(max, store, clock, k - 1), clock)
  }

  /** The account with `k` failures in the window opened at `clock`. */
  function Failing(store: Store, clock: Id, k: nat): Store {
    if k == 0 then store
    else Store(Some(clock), store.attempts[clock := k], store.failures[clock := k], false)
  }

  lemma OneAttempt(max: nat, store: Store, clock: Id, k: nat)
    requires k < max && !store.locked && store.window.None?
    requires clock !in store.attempts && clock !in store.failures
    ensures Attempt(max, Failing(store, clock, k), clock) ==
            if k + 1 < max then Failing(store, clock, k + 1) else store.(locked := true)
  {
    var before := Failing(store, clock, k);
    assert Val(before.attempts, clock) == k && Val(before.failures, clock) == k;
    assert WindowOr(before, clock) == clock;
    assert before.attempts[clock := k + 1] == store.attempts[clock := k + 1];
    assert before.failures[clock := k + 1] == store.failures[clock := k + 1];
    var reserved := Store(Some(clock), store.attempts[clock := k + 1], before.failures, false);
    assert ReserveCall(max, before, clock) == (reserved, Some(clock));
    assert store.attempts[clock := k + 1] - {clock} == store.attempts;
    assert store.failures[clock := k + 1] - {clock} == store.failures;
  }

  /** On an account with no window, fewer than `max` failures leave it unlocked with every one
      counted; exactly the `max`-th locks it, drops the window and its counters, and every
      later attempt is refused without a trace. */
  lemma {:induction false} MaxFailuresLock(max: nat, store: Store, clock: Id, k: nat)
    requires max >= 1 && !store.locked && store.window.None?
    requires clock !in store.attempts && clock !in store.failures
    ensures Attempts(max, store, clock, k) ==
            if k < max then Failing(store, clock, k) else store.(locked := true)
  {
    if k > 0 {
      MaxFailuresLock(max, store, clock, k - 1);
      if k <= max {
        OneAttempt(max, store, clock, k - 1);
      }
    }
  }
}
