/** The lockout calls as programs whose steps are single cache operations.

    One account's keys are the window id, the two counters tied to a window id and
    the lock. A session is one caller: it reserves (or records a failure, clears, or
    force-locks), and a caller holding a slot later reports it once. Any number of
    sessions interleave, one cache operation at a time. */
module LockoutMachine {
  import opened Options

  /** A window id: its start time in microseconds. */
  type Id = nat

  /** The account's live cache keys. */
  datatype Store = Store(
    window: Option<Id>,
    attempts: map<Id, int>,
    failures: map<Id, int>,
    locked: bool)

  /** A counter read by `incr` and `decr`: a missing key counts as 0. */
  function Val(counters: map<Id, int>, id: Id): int {
    if id in counters then counters[id] else 0
  }

  /** Why a call opens the window. */
  datatype Goal = Reserving | ReservingSole | Recording | Reporting

  /** What a call does next. Each constructor but `Held` and `Done` is one cache operation. */
  datatype Pc =
    | CheckLock                        // reserve: exists(lock)
    | RecordCheck                      // record_failure: exists(lock)
    | OpenGet(goal: Goal, again: bool) // window: get(window)
    | OpenAdd(goal: Goal, again: bool) // window: add(window, now)
    | Count(id: Id, sole: bool)        // incr(attempts)
    | Recheck(id: Id)                  // exists(lock), after the count
    | GiveBack(id: Id)                 // decrement: decr(attempts)
    | Undo(id: Id)                     // decrement: incr(attempts), undone below 0
    | Held                             // the caller has the slot
    | Fail(id: Id)                     // reserved_failed: incr(failures)
    | RecordCount(id: Id)              // record_failure: incr(attempts)
    | SetLock(reports: Option<Id>)     // set(lock); whose failure reports asked for it
    | SuccessGet                       // failure_count: get(window)
    | SuccessRead(id: Id)              // failure_count: get(failures)
    | ClearGet(unlock: bool)           // clear_window: get(window)
    | ClearAttempts(id: Id, unlock: bool)
    | ClearFailures(id: Id, unlock: bool)
    | ClearWindow(unlock: bool)
    | ClearLock                        // clear: delete(lock)
    | ForceLock                        // force_lock: set(lock)
    | Done

  /** One caller. `slot` is the window id of a counted slot not given back, `reported`
      and `recorded` the id this caller's failure was counted under. */
  datatype Session = Session(pc: Pc, slot: Option<Id>, reported: Option<Id>, recorded: Option<Id>)

  function Start(pc: Pc): Session { Session(pc, None, None, None) }

  /** Where `window` returns to once it has an id. */
  function Enter(goal: Goal, id: Id): Pc {
    match goal
    case Reserving => Count(id, false)
    case ReservingSole => Count(id, true)
    case Recording => RecordCount(id)
    case Reporting => Fail(id)
  }

  /** Where `window` returns to when no window could be opened: `reserve` admits an
      uncounted slot, the others stop. */
  function NoWindow(goal: Goal): Pc { if goal == Reserving then Held else Done }

  /** The window-dropping tail shared by a lock, a success and an explicit clear. */
  function AfterWindow(unlock: bool): Pc { if unlock then ClearLock else Done }

  /** How the caller reports a slot. */
  datatype Report = Failed | Succeeded | Released

  function ReleasePc(slot: Option<Id>): Pc {
    if slot.Some? then GiveBack(slot.value) else Done
  }

  /** The first step of the report; the slot is consumed by it. */
  function ReportPc(slot: Option<Id>, how: Report): Pc {
    match how
    case Failed => if slot.Some? then Fail(slot.value) else OpenGet(Reporting, false)
    case Released => ReleasePc(slot)
    case Succeeded => SuccessGet
  }

  /** `u32::try_from(counted).unwrap_or(u32::MAX) >= max_attempts`: a negative count
      converts to the largest value. */
  predicate RecordLocks(max: nat, n: int) { n < 0 || n >= max }

  /** One cache operation of one session. `clock` is the time a new window would start at. */
  function Step(max: nat, store: Store, s: Session, clock: Id): (Store, Session) {
    match s.pc
    case CheckLock =>
      (store, s.(pc := if store.locked then Done else OpenGet(Reserving, false)))
    case RecordCheck =>
      (store, s.(pc := if store.locked then Done else OpenGet(Recording, false)))
    case OpenGet(goal, again) =>
      (store, s.(pc := if store.window.Some? then Enter(goal, store.window.value)
                       else OpenAdd(goal, again)))
    case OpenAdd(goal, again) =>
      if store.window.None? then
        (store.(window := Some(clock)), s.(pc := Enter(goal, clock)))
      else
        (store, s.(pc := if again then NoWindow(goal) else OpenGet(goal, true)))
    case Count(id, sole) =>
      var n := Val(store.attempts, id) + 1;
      var refused := if sole then n != 1 else n > max;
      (store.(attempts := store.attempts[id := n]),
       s.(pc := if refused then GiveBack(id) else Recheck(id)))
    case Recheck(id) =>
      if store.locked then (store, s.(pc := GiveBack(id)))
      else (store, s.(pc := Held, slot := Some(id)))
    case GiveBack(id) =>
      var n := Val(store.attempts, id) - 1;
      (store.(attempts := store.attempts[id := n]),
       s.(pc := if n < 0 then Undo(id) else Done, slot := None))
    case Undo(id) =>
      (store.(attempts := store.attempts[id := Val(store.attempts, id) + 1]), s.(pc := Done))
    case Fail(id) =>
      var n := Val(store.failures, id) + 1;
      (store.(failures := store.failures[id := n]),
       s.(pc := if n >= max then SetLock(Some(id)) else Done, reported := Some(id)))
    case RecordCount(id) =>
      var n := Val(store.attempts, id) + 1;
      (store.(attempts := store.attempts[id := n]),
       s.(pc := if RecordLocks(max, n) then SetLock(None) else Done, recorded := Some(id)))
    case SetLock(_) =>
      (store.(locked := true), s.(pc := ClearGet(false)))
    case SuccessGet =>
      (store, s.(pc := if store.window.Some? then SuccessRead(store.window.value)
                       else ReleasePc(s.slot)))
    case SuccessRead(id) =>
      (store, s.(pc := if Val(store.failures, id) > 0 then ClearGet(false) else ReleasePc(s.slot)))
    case ClearGet(unlock) =>
      (store, s.(pc := if store.window.Some? then ClearAttempts(store.window.value, unlock)
                       else ClearWindow(unlock)))
    case ClearAttempts(id, unlock) =>
      (store.(attempts := store.attempts - {id}), s.(pc := ClearFailures(id, unlock)))
    case ClearFailures(id, unlock) =>
      (store.(failures := store.failures - {id}), s.(pc := ClearWindow(unlock)))
    case ClearWindow(unlock) =>
      (store.(window := None), s.(pc := AfterWindow(unlock)))
    case ClearLock =>
      (store.(locked := false), s.(pc := Done))
    case ForceLock =>
      (store.(locked := true), s.(pc := Done))
    case Held => (store, s)
    case Done => (store, s)
  }

  /** What a new caller can ask for. */
  datatype Call = Reserve | ReserveSole | RecordFailure | Clear | Force

  function CallPc(c: Call): Pc {
    match c
    case Reserve => CheckLock
    case ReserveSole => OpenGet(ReservingSole, false)
    case RecordFailure => RecordCheck
    case Clear => ClearGet(true)
    case Force => ForceLock
  }

  /** A key the backend drops on its own: an expiry or an eviction. */
  datatype Key = WindowKey | AttemptsKey(id: Id) | FailuresKey(id: Id) | LockKey

  function Drop(store: Store, k: Key): Store {
    match k
    case WindowKey => store.(window := None)
    case AttemptsKey(id) => store.(attempts := store.attempts - {id})
    case FailuresKey(id) => store.(failures := store.failures - {id})
    case LockKey => store.(locked := false)
  }

  datatype Event =
    | Spawn(call: Call)
    | Advance(i: nat, clock: Id)
    | Tell(i: nat, how: Report)
    | Evict(key: Key)

  /** The account's keys and every session, with what the theorems speak of:
      - `stale` and `used`: ids of windows opened before the run, and before now;
      - `removed`: ids whose attempts counter went away while the account was locked,
        the lock standing ever since;
      - `lost`: ids whose attempts counter went away with no lock standing since. */
  datatype State = State(
    store: Store,
    sessions: seq<Session>,
    stale: set<Id>,
    used: set<Id>,
    removed: set<Id>,
    lost: set<Id>)

  predicate Enabled(st: State, e: Event) {
    match e
    case Spawn(_) => true
    case Advance(i, clock) =>
      // Windows of one account open at distinct times.
      i < |st.sessions| &&
      (st.sessions[i].pc.OpenAdd? && st.store.window.None? ==> clock !in st.used)
    case Tell(i, _) => i < |st.sessions| && st.sessions[i].pc == Held
    case Evict(_) => true
  }

  function Gone(before: Store, after: Store): set<Id> {
    before.attempts.Keys - after.attempts.Keys
  }

  /** The state with a new store and new sessions, bookkeeping included. */
  function With(st: State, store: Store, sessions: seq<Session>): State {
    State(store, sessions, st.stale,
          st.used + (if store.window.Some? then {store.window.value} else {}),
          if store.locked then st.removed + Gone(st.store, store) else {},
          if store.locked then st.lost else st.lost + st.removed + Gone(st.store, store))
  }

  function Apply(max: nat, st: State, e: Event): State
    requires Enabled(st, e)
  {
    match e
    case Spawn(c) => With(st, st.store, st.sessions + [Start(CallPc(c))])
    case Advance(i, clock) =>
      var (store, s) := Step(max, st.store, st.sessions[i], clock);
      With(st, store, st.sessions[i := s])
    case Tell(i, how) =>
      With(st, st.store,
           st.sessions[i := st.sessions[i].(pc := ReportPc(st.sessions[i].slot, how))])
    case Evict(k) => With(st, Drop(st.store, k), st.sessions)
  }

  /** No call in progress, no lock, no open window; counters of earlier windows may linger. */
  predicate Initial(st: State) {
    && st.sessions == [] && st.store.window.None? && !st.store.locked
    && st.stale == st.used == st.lost && st.removed == {}
    && st.store.attempts.Keys <= st.used && st.store.failures.Keys <= st.used
    && forall id :: id in st.store.attempts ==> st.store.attempts[id] >= 0
  }

  predicate Runnable(max: nat, st: State, run: seq<Event>)
    decreases |run|
  {
    run == [] || (Enabled(st, run[0]) && Runnable(max, Apply(max, st, run[0]), run[1..]))
  }

  function After(max: nat, st: State, run: seq<Event>): State
    requires Runnable(max, st, run)
    decreases |run|
  {
    if run == [] then st else After(max, Apply(max, st, run[0]), run[1..])
  }
}
