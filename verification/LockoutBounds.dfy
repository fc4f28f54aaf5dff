/** What every step of the lockout protocol keeps, and so what holds in every state any
    interleaving can reach, expiries, evictions and clears included. */
module LockoutBounds {
  import opened Options
  import opened LockoutMachine

  // ---------------------------------------------------------------- Tallies

  /** What a session can add to a count kept per window id. */
  datatype Tally =
    | Slots     // counted slots not given back
    | Granted   // those, and attempts counted within the limit but not yet handed out
    | Counted   // everything the attempts counter should hold
    | Undoing   // undo steps still to run
    | Reported  // failure reports counted under the id

  function One(b: bool): nat { if b then 1 else 0 }

  function Weight(k: Tally, s: Session, id: Id): nat {
    match k
    case Slots => One(s.slot == Some(id))
    case Granted => One(s.slot == Some(id)) + One(s.pc == Recheck(id))
    case Counted =>
      One(s.slot == Some(id)) + One(s.pc == Recheck(id)) + One(s.pc == GiveBack(id) && s.slot.None?)
      + One(s.recorded == Some(id))
    case Undoing => One(s.pc == Undo(id))
    case Reported => One(s.reported == Some(id))
  }

  function Total(k: Tally, ss: seq<Session>, id: Id): nat {
    if ss == [] then 0 else Total(k, ss[..|ss| - 1], id) + Weight(k, ss[|ss| - 1], id)
  }

  lemma {:induction false} TotalUpdate(k: Tally, ss: seq<Session>, i: nat, s: Session, id: Id)
    requires i < |ss|
    ensures Total(k, ss[i := s], id) + Weight(k, ss[i], id) == Total(k, ss, id) + Weight(k, s, id)
    decreases |ss|
  {
    var n := |ss| - 1;
    if i == n {
      assert ss[i := s][..n] == ss[..n];
    } else {
      assert ss[i := s][..n] == ss[..n][i := s];
      TotalUpdate(k, ss[..n], i, s, id);
    }
  }

  lemma TotalAppend(k: Tally, ss: seq<Session>, s: Session, id: Id)
    ensures Total(k, ss + [s], id) == Total(k, ss, id) + Weight(k, s, id)
  {
    assert (ss + [s])[..|ss|] == ss;
  }

  lemma {:induction false} TotalAtLeast(k: Tally, ss: seq<Session>, i: nat, id: Id)
    requires i < |ss|
    ensures Total(k, ss, id) >= Weight(k, ss[i], id)
  {
    if i < |ss| - 1 {
      TotalAtLeast(k, ss[..|ss| - 1], i, id);
    }
  }

  lemma {:induction false} TotalUnknown(k: Tally, ss: seq<Session>, ids: set<Id>, id: Id)
    requires id !in ids
    requires forall i :: 0 <= i < |ss| ==> Known(ss[i], ids)
    ensures Total(k, ss, id) == 0
  {
    if ss != [] {
      TotalUnknown(k, ss[..|ss| - 1], ids, id);
      assert Known(ss[|ss| - 1], ids);
    }
  }

  // ---------------------------------------------------------------- One session

  predicate Among(o: Option<Id>, ids: set<Id>) { o.Some? ==> o.value in ids }

  function PcId(pc: Pc): Option<Id> {
    match pc
    case Count(id, _) => Some(id)
    case Recheck(id) => Some(id)
    case GiveBack(id) => Some(id)
    case Undo(id) => Some(id)
    case Fail(id) => Some(id)
    case RecordCount(id) => Some(id)
    case SetLock(r) => r
    case SuccessRead(id) => Some(id)
    case ClearAttempts(id, _) => Some(id)
    case ClearFailures(id, _) => Some(id)
    case _ => None
  }

  predicate Carries(s: Session, id: Id) {
    PcId(s.pc) == Some(id) || s.slot == Some(id) || s.reported == Some(id) || s.recorded == Some(id)
  }

  /** Every window id the session carries is one of `ids`. */
  predicate Known(s: Session, ids: set<Id>) {
    Among(PcId(s.pc), ids) && Among(s.slot, ids) && Among(s.reported, ids) && Among(s.recorded, ids)
  }

  /** What a session has at each point of its call. */
  predicate WellFormed(s: Session) {
    match s.pc
    case CheckLock | RecordCheck | OpenGet(_, _) | OpenAdd(_, _) | Count(_, _) | Recheck(_) | RecordCount(_) =>
      s.slot.None? && s.reported.None? && s.recorded.None?
    case Held | SuccessGet | SuccessRead(_) | Fail(_) => s.reported.None? && s.recorded.None?
    case GiveBack(id) => s.recorded.None? && (s.slot.Some? ==> s.slot == Some(id))
    case _ => true
  }

  // One cache operation, seen from one window id.

  lemma StepWellFormed(max: nat, store: Store, s: Session, clock: Id)
    requires WellFormed(s)
    ensures WellFormed(Step(max, store, s, clock).1)
  {
  }

  /** The attempts counter moves as the session's own share of it does, except where a
      decrement meets an empty counter. */
  lemma StepCounted(max: nat, store: Store, s: Session, clock: Id, id: Id)
    requires WellFormed(s)
    requires !(s.pc == GiveBack(id) && Val(store.attempts, id) <= 0) && s.pc != Undo(id)
    ensures var (store', s') := Step(max, store, s, clock);
      (id in store.attempts && id !in store'.attempts) ||
      Val(store'.attempts, id) - Val(store.attempts, id) == Weight(Counted, s', id) - Weight(Counted, s, id)
  {
  }

  lemma StepGranted(max: nat, store: Store, s: Session, clock: Id, id: Id)
    requires max >= 1 && WellFormed(s)
    ensures var (store', s') := Step(max, store, s, clock);
      && (Weight(Granted, s', id) > Weight(Granted, s, id) ==> Val(store'.attempts, id) <= max)
      && (Weight(Slots, s', id) > Weight(Slots, s, id) ==> !store.locked)
  {
  }

  lemma StepUndoing(max: nat, store: Store, s: Session, clock: Id, id: Id)
    requires WellFormed(s)
    ensures var (store', s') := Step(max, store, s, clock);
      && (Weight(Undoing, s', id) > Weight(Undoing, s, id) ==>
            s.pc == GiveBack(id) && Val(store.attempts, id) <= 0)
      && ((Val(store'.attempts, id) >= 0 && Weight(Undoing, s', id) >= Weight(Undoing, s, id))
          || Val(store'.attempts, id) + Weight(Undoing, s', id) >= Val(store.attempts, id) + Weight(Undoing, s, id))
  {
  }

  lemma StepReported(max: nat, store: Store, s: Session, clock: Id, id: Id)
    requires WellFormed(s)
    ensures var (store', s') := Step(max, store, s, clock);
      && Weight(Reported, s', id) >= Weight(Reported, s, id)
      && (Val(store'.failures, id) == 0 ||
          Val(store'.failures, id) <= Val(store.failures, id) + Weight(Reported, s', id) - Weight(Reported, s, id))
      && (s'.pc == SetLock(Some(id)) ==> s.pc == SetLock(Some(id)) || Val(store'.failures, id) >= max)
  {
  }

  /** A step moves on only to ids it was given, or the window's. */
  lemma StepPcId(max: nat, store: Store, s: Session, clock: Id, id: Id)
    requires PcId(Step(max, store, s, clock).1.pc) == Some(id)
    ensures PcId(s.pc) == Some(id) || s.slot == Some(id) || store.window == Some(id)
      || Step(max, store, s, clock).0.window == Some(id)
  {
    match s.pc
    case OpenGet(_, _) =>
    case OpenAdd(_, _) =>
    case SuccessGet | SuccessRead(_) =>
    case ClearGet(_) | ClearWindow(_) =>
    case Held | Done | CheckLock | RecordCheck | ClearLock | ForceLock =>
    case Count(_, _) | Recheck(_) | GiveBack(_) | Undo(_) | Fail(_) | RecordCount(_) =>
    case SetLock(_) | ClearAttempts(_, _) | ClearFailures(_, _) =>
  }

  lemma StepFields(max: nat, store: Store, s: Session, clock: Id, id: Id)
    ensures var s' := Step(max, store, s, clock).1;
      && (s'.slot == Some(id) ==> s.slot == Some(id) || PcId(s.pc) == Some(id))
      && (s'.reported == Some(id) ==> s.reported == Some(id) || PcId(s.pc) == Some(id))
      && (s'.recorded == Some(id) ==> s.recorded == Some(id) || PcId(s.pc) == Some(id))
  {
  }

  lemma StepWindow(max: nat, store: Store, s: Session, clock: Id, id: Id)
    requires Step(max, store, s, clock).0.window == Some(id)
    ensures store.window == Some(id) || (s.pc.OpenAdd? && store.window.None? && id == clock)
  {
  }

  /** Counters are only ever written under the id the session carries. */
  lemma StepKeys(max: nat, store: Store, s: Session, clock: Id, ids: set<Id>)
    requires Known(s, ids) && store.attempts.Keys <= ids && store.failures.Keys <= ids
    ensures Step(max, store, s, clock).0.attempts.Keys <= ids
    ensures Step(max, store, s, clock).0.failures.Keys <= ids
  {
  }

  // ---------------------------------------------------------------- The invariant

  /** Ids of windows opened during the run. */
  function Live(st: State): set<Id> { st.used - st.stale }

  predicate Shape(st: State) {
    && (forall i :: 0 <= i < |st.sessions| ==> WellFormed(st.sessions[i]) && Known(st.sessions[i], Live(st)))
    && Among(st.store.window, Live(st))
    && st.stale <= st.used && st.stale <= st.lost
    && (st.removed != {} ==> st.store.locked)
    && st.store.attempts.Keys <= st.used && st.store.failures.Keys <= st.used
  }

  /** An id whose counter never went away: the counter is exact, no undo runs on it, and
      attempts within the limit stay within it. */
  predicate Exact(max: nat, st: State, id: Id) {
    && Val(st.store.attempts, id) == Total(Counted, st.sessions, id)
    && Total(Granted, st.sessions, id) <= max
    && Total(Undoing, st.sessions, id) == 0
  }

  predicate Bounded(max: nat, st: State, id: Id) {
    if id in st.lost then true
    else if id in st.removed then Total(Slots, st.sessions, id) <= max
    else Exact(max, st, id)
  }

  /** Counter plus pending undo steps is never below zero. */
  predicate Covered(st: State, id: Id) {
    Val(st.store.attempts, id) + Total(Undoing, st.sessions, id) >= 0
  }

  /** The failures counter never runs ahead of the reports. */
  predicate Honest(max: nat, st: State, id: Id) {
    && (id !in st.stale ==> Val(st.store.failures, id) <= Total(Reported, st.sessions, id))
    && (forall i :: 0 <= i < |st.sessions| && st.sessions[i].pc == SetLock(Some(id)) ==>
          Total(Reported, st.sessions, id) >= max)
  }

  ghost predicate Inv(max: nat, st: State) {
    && Shape(st)
    && (forall id :: Bounded(max, st, id) && Covered(st, id) && Honest(max, st, id))
  }

  lemma InitialInv(max: nat, st: State)
    requires Initial(st)
    ensures Inv(max, st)
  {
  }

  lemma {:induction false} TalliesNest(ss: seq<Session>, id: Id)
    ensures Total(Slots, ss, id) <= Total(Granted, ss, id) <= Total(Counted, ss, id)
  {
    if ss != [] {
      TalliesNest(ss[..|ss| - 1], id);
    }
  }

  // ---------------------------------------------------------------- Advance

  lemma AdvanceShape(max: nat, st: State, i: nat, clock: Id)
    requires Inv(max, st) && Enabled(st, Advance(i, clock))
    ensures Shape(Apply(max, st, Advance(i, clock)))
  {
    var s := st.sessions[i];
    var (store', s') := Step(max, st.store, s, clock);
    var st' := Apply(max, st, Advance(i, clock));
    StepWellFormed(max, st.store, s, clock);
    StepKeys(max, st.store, s, clock, st.used);
    assert Known(s', Live(st')) && Among(store'.window, Live(st')) by {
      forall id: Id | Carries(s', id) || store'.window == Some(id)
        ensures id in Live(st')
      {
        StepFields(max, st.store, s, clock, id);
        if PcId(s'.pc) == Some(id) {
          StepPcId(max, st.store, s, clock, id);
        }
        if store'.window == Some(id) {
          StepWindow(max, st.store, s, clock, id);
        }
      }
    }
    assert Live(st) <= Live(st');
  }

  lemma AdvanceExact(max: nat, st: State, i: nat, clock: Id, id: Id)
    requires max >= 1 && Enabled(st, Advance(i, clock)) && WellFormed(st.sessions[i])
    requires Exact(max, st, id)
    requires id in st.store.attempts ==> id in Apply(max, st, Advance(i, clock)).store.attempts
    ensures Exact(max, Apply(max, st, Advance(i, clock)), id)
  {
    var s := st.sessions[i];
    var (store', s') := Step(max, st.store, s, clock);
    TotalAtLeast(Counted, st.sessions, i, id);
    TotalAtLeast(Undoing, st.sessions, i, id);
    TotalUpdate(Counted, st.sessions, i, s', id);
    TotalUpdate(Granted, st.sessions, i, s', id);
    TotalUpdate(Undoing, st.sessions, i, s', id);
    TalliesNest(st.sessions[i := s'], id);
    StepCounted(max, st.store, s, clock, id);
    StepGranted(max, st.store, s, clock, id);
    StepUndoing(max, st.store, s, clock, id);
  }

  lemma AdvanceBounded(max: nat, st: State, i: nat, clock: Id, id: Id)
    requires max >= 1 && Inv(max, st) && Enabled(st, Advance(i, clock))
    ensures Bounded(max, Apply(max, st, Advance(i, clock)), id)
  {
    var s := st.sessions[i];
    var (store', s') := Step(max, st.store, s, clock);
    var st' := Apply(max, st, Advance(i, clock));
    assert Bounded(max, st, id);
    if id !in st'.lost {
      TotalUpdate(Slots, st.sessions, i, s', id);
      StepGranted(max, st.store, s, clock, id);
      if id in st.removed {
      } else if id in st.store.attempts && id !in store'.attempts {
        assert s.pc.ClearAttempts?;
        TalliesNest(st.sessions, id);
      } else {
        assert id !in st'.removed;
        AdvanceExact(max, st, i, clock, id);
      }
    }
  }

  lemma AdvanceCovered(max: nat, st: State, i: nat, clock: Id, id: Id)
    requires Inv(max, st) && Enabled(st, Advance(i, clock))
    ensures Covered(Apply(max, st, Advance(i, clock)), id)
  {
    var s := st.sessions[i];
    var s' := Step(max, st.store, s, clock).1;
    assert Covered(st, id);
    TotalUpdate(Undoing, st.sessions, i, s', id);
    StepUndoing(max, st.store, s, clock, id);
  }

  lemma AdvanceHonest(max: nat, st: State, i: nat, clock: Id, id: Id)
    requires Inv(max, st) && Enabled(st, Advance(i, clock))
    ensures Honest(max, Apply(max, st, Advance(i, clock)), id)
  {
    var s := st.sessions[i];
    var s' := Step(max, st.store, s, clock).1;
    var st' := Apply(max, st, Advance(i, clock));
    assert Honest(max, st, id);
    TotalUpdate(Reported, st.sessions, i, s', id);
    StepReported(max, st.store, s, clock, id);
    if s'.pc == SetLock(Some(id)) && s.pc != SetLock(Some(id)) {
      AdvanceShape(max, st, i, clock);
      assert Known(st'.sessions[i], Live(st'));
      assert id !in st.stale;
    }
  }

  // ---------------------------------------------------------------- Other events

  lemma SpawnMovesNothing(k: Tally, ss: seq<Session>, c: Call, id: Id)
    ensures Total(k, ss + [Start(CallPc(c))], id) == Total(k, ss, id)
  {
    TotalAppend(k, ss, Start(CallPc(c)), id);
  }

  lemma SpawnAt(max: nat, st: State, c: Call, id: Id)
    requires Inv(max, st)
    ensures var st' := Apply(max, st, Spawn(c));
      Bounded(max, st', id) && Covered(st', id) && Honest(max, st', id)
  {
    assert Bounded(max, st, id) && Covered(st, id) && Honest(max, st, id);
    SpawnMovesNothing(Slots, st.sessions, c, id);
    SpawnMovesNothing(Granted, st.sessions, c, id);
    SpawnMovesNothing(Counted, st.sessions, c, id);
    SpawnMovesNothing(Undoing, st.sessions, c, id);
    SpawnMovesNothing(Reported, st.sessions, c, id);
  }

  lemma SpawnInv(max: nat, st: State, c: Call)
    requires Inv(max, st)
    ensures Inv(max, Apply(max, st, Spawn(c)))
  {
    var st' := Apply(max, st, Spawn(c));
    assert Live(st') == Live(st);
    forall id
      ensures Bounded(max, st', id) && Covered(st', id) && Honest(max, st', id)
    {
      SpawnAt(max, st, c, id);
    }
  }

  /** Starting a report moves no tally: the slot is given back only by its decrement. */
  lemma ReportMovesNothing(k: Tally, ss: seq<Session>, i: nat, how: Report, id: Id)
    requires i < |ss| && WellFormed(ss[i]) && ss[i].pc == Held
    ensures Total(k, ss[i := ss[i].(pc := ReportPc(ss[i].slot, how))], id) == Total(k, ss, id)
  {
    TotalUpdate(k, ss, i, ss[i].(pc := ReportPc(ss[i].slot, how)), id);
  }

  lemma TellAt(max: nat, st: State, i: nat, how: Report, id: Id)
    requires Inv(max, st) && Enabled(st, Tell(i, how))
    ensures var st' := Apply(max, st, Tell(i, how));
      Bounded(max, st', id) && Covered(st', id) && Honest(max, st', id)
  {
    assert WellFormed(st.sessions[i]);
    assert Bounded(max, st, id) && Covered(st, id) && Honest(max, st, id);
    ReportMovesNothing(Slots, st.sessions, i, how, id);
    ReportMovesNothing(Granted, st.sessions, i, how, id);
    ReportMovesNothing(Counted, st.sessions, i, how, id);
    ReportMovesNothing(Undoing, st.sessions, i, how, id);
    ReportMovesNothing(Reported, st.sessions, i, how, id);
  }

  lemma TellInv(max: nat, st: State, i: nat, how: Report)
    requires Inv(max, st) && Enabled(st, Tell(i, how))
    ensures Inv(max, Apply(max, st, Tell(i, how)))
  {
    var s := st.sessions[i];
    var st' := Apply(max, st, Tell(i, how));
    assert Live(st') == Live(st);
    assert WellFormed(s) && Known(s, Live(st));
    forall id
      ensures Bounded(max, st', id) && Covered(st', id) && Honest(max, st', id)
    {
      TellAt(max, st, i, how, id);
    }
  }

  lemma EvictInv(max: nat, st: State, k: Key)
    requires Inv(max, st)
    ensures Inv(max, Apply(max, st, Evict(k)))
  {
    var st' := Apply(max, st, Evict(k));
    assert Live(st') == Live(st);
    forall id
      ensures Bounded(max, st', id) && Covered(st', id) && Honest(max, st', id)
    {
      assert Bounded(max, st, id) && Covered(st, id) && Honest(max, st, id);
      TalliesNest(st.sessions, id);
    }
  }

  /** Every event keeps the invariant. */
  lemma EventInv(max: nat, st: State, e: Event)
    requires max >= 1 && Inv(max, st) && Enabled(st, e)
    ensures Inv(max, Apply(max, st, e))
  {
    match e
    case Spawn(c) => SpawnInv(max, st, c);
    case Tell(i, how) => TellInv(max, st, i, how);
    case Evict(k) => EvictInv(max, st, k);
    case Advance(i, clock) =>
      AdvanceShape(max, st, i, clock);
      forall id
        ensures var st' := Apply(max, st, e); Bounded(max, st', id) && Covered(st', id) && Honest(max, st', id)
      {
        AdvanceBounded(max, st, i, clock, id);
        AdvanceCovered(max, st, i, clock, id);
        AdvanceHonest(max, st, i, clock, id);
      }
  }

  lemma {:induction false} RunInv(max: nat, st: State, run: seq<Event>)
    requires max >= 1 && Inv(max, st) && Runnable(max, st, run)
    ensures Inv(max, After(max, st, run))
    decreases |run|
  {
    if run != [] {
      EventInv(max, st, run[0]);
      RunInv(max, Apply(max, st, run[0]), run[1..]);
    }
  }

  // ---------------------------------------------------------------- Every run

  /** Slots of one window never exceed the limit, in any run whatever: reserving, reporting,
      recording, clearing, force-locking, expiries and evictions, interleaved one cache
      operation at a time. The bound stands from the window's opening until its attempts
      counter goes away with no lock standing, so it spans the clear that races the lock. */
  lemma SlotsBounded(max: nat, st: State, run: seq<Event>, id: Id)
    requires max >= 1 && Initial(st) && Runnable(max, st, run)
    requires id !in After(max, st, run).lost
    ensures Total(Slots, After(max, st, run).sessions, id) <= max
  {
    InitialInv(max, st);
    RunInv(max, st, run);
    assert Bounded(max, After(max, st, run), id);
    TalliesNest(After(max, st, run).sessions, id);
  }

  /** No call in progress. */
  predicate Quiescent(st: State) {
    forall i :: 0 <= i < |st.sessions| ==> st.sessions[i].pc == Held || st.sessions[i].pc == Done
  }

  lemma {:induction false} NoUndo(ss: seq<Session>, id: Id)
    requires forall i :: 0 <= i < |ss| ==> !ss[i].pc.Undo?
    ensures Total(Undoing, ss, id) == 0
  {
    if ss != [] {
      NoUndo(ss[..|ss| - 1], id);
    }
  }

  /** No attempts counter is negative once no call is in progress, whatever was cleared,
      evicted or expired in the middle of a call. */
  lemma CountersNotNegative(max: nat, st: State, run: seq<Event>, id: Id)
    requires max >= 1 && Initial(st) && Runnable(max, st, run)
    ensures Val(After(max, st, run).store.attempts, id) + Total(Undoing, After(max, st, run).sessions, id) >= 0
    ensures Quiescent(After(max, st, run)) ==> Val(After(max, st, run).store.attempts, id) >= 0
  {
    InitialInv(max, st);
    RunInv(max, st, run);
    assert Covered(After(max, st, run), id);
    if Quiescent(After(max, st, run)) {
      NoUndo(After(max, st, run).sessions, id);
    }
  }

  /** A lock that failure reports ask for comes only after `max` of them carried one window
      id: the step that sets it belongs to a session whose id has that many reports. */
  lemma LockNeedsReports(max: nat, st: State, run: seq<Event>, i: nat, clock: Id)
    requires max >= 1 && Initial(st) && Runnable(max, st, run)
    requires Enabled(After(max, st, run), Advance(i, clock))
    requires !After(max, st, run).store.locked
    requires Apply(max, After(max, st, run), Advance(i, clock)).store.locked
    ensures var now := After(max, st, run);
      var pc := now.sessions[i].pc;
      || pc == ForceLock || pc == SetLock(None)
      || (pc.SetLock? && pc.reports.Some? && Total(Reported, now.sessions, pc.reports.value) >= max)
  {
    InitialInv(max, st);
    RunInv(max, st, run);
    var now := After(max, st, run);
    var pc := now.sessions[i].pc;
    if pc.SetLock? && pc.reports.Some? {
      assert Honest(max, now, pc.reports.value);
    }
  }
}
