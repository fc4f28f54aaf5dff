/** The lockout tracker on a cache with expiries: each call, taken one at a time at one
    instant of a single clock, does to the live keys what the untimed call does, whether
    `incr` resets a counter's TTL or keeps it. */
module LockoutClock {
  import opened Options
  import opened LockoutMachine
  import opened LockoutCalls

  /** A cached value, the last instant it is live, and when it was last written. */
  datatype Entry<T> = Entry(value: T, expiry: int, written: int)

  datatype Cache = Cache(
    window: Option<Entry<Id>>,
    attempts: map<Id, Entry<int>>,
    failures: map<Id, Entry<int>>,
    lock: Option<int>)

  function LiveCounters(m: map<Id, Entry<int>>, now: int): map<Id, int> {
    map id | id in m && now <= m[id].expiry :: m[id].value
  }

  /** The keys a reader sees at `now`. */
  function View(c: Cache, now: int): Store {
    Store(if c.window.Some? && now <= c.window.value.expiry then Some(c.window.value.value) else None,
          LiveCounters(c.attempts, now),
          LiveCounters(c.failures, now),
          c.lock.Some? && now <= c.lock.value)
  }

  /** `incr`: the new counter. A live key keeps its expiry unless the backend resets it. */
  function Bump(m: map<Id, Entry<int>>, id: Id, delta: int, ttl: int, now: int, resets: bool): map<Id, Entry<int>> {
    var keeps := id in m && now <= m[id].expiry && !resets;
    m[id := Entry(Val(LiveCounters(m, now), id) + delta, if keeps then m[id].expiry else now + ttl, now)]
  }

  lemma BumpLive(m: map<Id, Entry<int>>, id: Id, delta: int, ttl: int, now: int, resets: bool)
    requires ttl >= 0
    ensures LiveCounters(Bump(m, id, delta, ttl, now, resets), now) ==
            LiveCounters(m, now)[id := Val(LiveCounters(m, now), id) + delta]
  {
  }

  /** The two ways a backend may treat a TTL: every `incr` sets it anew, or only the one that makes
      the key. */
  lemma BumpTtl(m: map<Id, Entry<int>>, id: Id, delta: int, ttl: int, now: int)
    ensures Bump(m, id, delta, ttl, now, true)[id].expiry == now + ttl
    ensures id in m && now <= m[id].expiry ==> Bump(m, id, delta, ttl, now, false)[id].expiry == m[id].expiry
    ensures id !in m || now > m[id].expiry ==> Bump(m, id, delta, ttl, now, false)[id].expiry == now + ttl
  {
  }

  lemma DeleteLive(m: map<Id, Entry<int>>, id: Id, now: int)
    ensures LiveCounters(m - {id}, now) == LiveCounters(m, now) - {id}
  {
  }

  /** `decrement`: `decr`, then `incr` again when that went below 0. */
  function Lessened(m: map<Id, Entry<int>>, id: Id, ttl: int, now: int, resets: bool): map<Id, Entry<int>> {
    var less := Bump(m, id, -1, ttl, now, resets);
    if Val(LiveCounters(m, now), id) - 1 < 0 then Bump(less, id, 1, ttl, now, resets) else less
  }

  lemma LessenedLive(m: map<Id, Entry<int>>, id: Id, ttl: int, now: int, resets: bool)
    requires ttl >= 0
    ensures var v := Val(LiveCounters(m, now), id) - 1;
      LiveCounters(Lessened(m, id, ttl, now, resets), now) == LiveCounters(m, now)[id := if v < 0 then v + 1 else v]
  {
    var less := Bump(m, id, -1, ttl, now, resets);
    BumpLive(m, id, -1, ttl, now, resets);
    if Val(LiveCounters(m, now), id) - 1 < 0 {
      BumpLive(less, id, 1, ttl, now, resets);
    }
  }

  lemma LessenedOnly(m: map<Id, Entry<int>>, id: Id, ttl: int, now: int, resets: bool, k: Id)
    requires k in Lessened(m, id, ttl, now, resets) && (id in m ==> m[id].value >= 0) && ttl >= 0
    ensures k != id ==> k in m && Lessened(m, id, ttl, now, resets)[k] == m[k]
    ensures k == id ==> 0 <= Lessened(m, id, ttl, now, resets)[k].value <= if id in m then m[id].value else 0
  {
  }

  /** Letting time pass only drops keys, as evictions do. */
  lemma TimeDrops(c: Cache, now: int, later: int)
    requires now <= later
    ensures var a, b := View(c, now), View(c, later);
      && (b.window == a.window || b.window.None?)
      && (b.locked ==> a.locked)
      && b.attempts.Keys <= a.attempts.Keys && b.failures.Keys <= a.failures.Keys
      && (forall id :: id in b.attempts ==> b.attempts[id] == a.attempts[id])
      && (forall id :: id in b.failures ==> b.failures[id] == a.failures[id])
  {
  }

  /** How many of the times fall in `[start, start + length]`. */
  function Within(times: seq<int>, start: int, length: nat): nat {
    if times == [] then 0
    else Within(times[..|times| - 1], start, length) + if start <= times[|times| - 1] <= start + length then 1 else 0
  }

  lemma WithinAppend(times: seq<int>, t: int, start: int, length: nat)
    ensures Within(times + [t], start, length) ==
      Within(times, start, length) + if start <= t <= start + length then 1 else 0
  {
    assert (times + [t])[..|times|] == times;
  }

  const MILLISECOND := 1000

  /** The limit's own type. */
  type U32 = n: nat | n <= U32_MAX

  class Lockout {
    const max: U32
    const counterTtl: nat
    const lockFor: nat
    const resets: bool
    var cache: Cache
    /** The latest instant a call was made at. */
    var clock: nat
    /** When each attempt was counted. */
    ghost var counted: seq<int>

    constructor (max: U32, counterTtl: nat, lockFor: nat, resets: bool)
      ensures Valid() && counted == [] && cache == Cache(None, map[], map[], None)
      ensures this.max == (if max < 1 then 1 else max) && this.counterTtl == counterTtl
      ensures this.lockFor == lockFor && this.resets == resets && clock == 0
    {
      this.max := if max < 1 then 1 else max;
      this.counterTtl := counterTtl;
      this.lockFor := lockFor;
      this.resets := resets;
      cache := Cache(None, map[], map[], None);
      clock := 0;
      counted := [];
    }

    /** No window counter outlives its window, or a millisecond past its last write. */
    predicate Fleeting(m: map<Id, Entry<int>>)
      reads this
    {
      forall id :: id in m ==>
        && m[id].written <= clock
        && (m[id].expiry <= id + counterTtl || m[id].expiry <= m[id].written + MILLISECOND)
    }

    /** No attempts counter is negative, or ahead of the attempts counted within one
        window's length of its start. */
    predicate Witnessed(m: map<Id, Entry<int>>, times: seq<int>) {
      forall id :: id in m ==> 0 <= m[id].value <= Within(times, id, counterTtl)
    }

    ghost predicate Valid()
      reads this
    {
      && max >= 1
      && Fleeting(cache.attempts) && Fleeting(cache.failures)
      && (cache.window.Some? ==>
            cache.window.value.value <= clock && cache.window.value.expiry == cache.window.value.value + counterTtl)
      && Witnessed(cache.attempts, counted)
    }

    /** Time left in the window that started at `id`, at least a millisecond. */
    function WindowLeft(id: Id, now: nat): (left: nat)
      ensures left >= MILLISECOND && (left == MILLISECOND || now + left <= id + counterTtl)
      ensures id <= now ==> now + left >= id + counterTtl
    {
      var elapsed := if now > id then now - id else 0;
      if counterTtl - elapsed < MILLISECOND then MILLISECOND else counterTtl - elapsed
    }

    /** No window counter goes before its window. */
    predicate LastingIn(m: map<Id, Entry<int>>) { forall id :: id in m ==> m[id].expiry >= id + counterTtl }

    ghost predicate Lasting()
      reads this
    {
      LastingIn(cache.attempts) && LastingIn(cache.failures)
    }

    lemma BumpLasting(m: map<Id, Entry<int>>, id: Id, delta: int, now: nat)
      requires LastingIn(m) && id <= now
      ensures LastingIn(Bump(m, id, delta, WindowLeft(id, now), now, resets))
    {
    }

    lemma LessenedLasting(m: map<Id, Entry<int>>, id: Id, now: nat)
      requires LastingIn(m) && id <= now
      ensures LastingIn(Lessened(m, id, WindowLeft(id, now), now, resets))
    {
      BumpLasting(m, id, -1, now);
      BumpLasting(Bump(m, id, -1, WindowLeft(id, now), now, resets), id, 1, now);
    }

    /** Time passing inside a window drops neither it nor its counters. */
    lemma TimeKeeps(now: int, later: int)
      requires Valid() && Lasting() && now <= later
      ensures var a, b := View(cache, now), View(cache, later);
        b.window.Some? ==>
          && a.window == b.window
          && Val(a.attempts, b.window.value) == Val(b.attempts, b.window.value)
          && Val(a.failures, b.window.value) == Val(b.failures, b.window.value)
    {
    }

    lemma BumpFleeting(m: map<Id, Entry<int>>, id: Id, delta: int)
      requires Fleeting(m)
      ensures Fleeting(Bump(m, id, delta, WindowLeft(id, clock), clock, resets))
    {
    }

    lemma MoreWitnessed(m: map<Id, Entry<int>>, more: map<Id, Entry<int>>, times: seq<int>, id: Id, now: int)
      requires Witnessed(m, times) && id <= now <= id + counterTtl && more.Keys == m.Keys + {id}
      requires forall k :: k in m && k != id ==> more[k] == m[k]
      requires 0 <= more[id].value <= (if id in m then m[id].value else 0) + 1
      ensures Witnessed(more, times + [now])
    {
      forall k | k in more
        ensures 0 <= more[k].value <= Within(times + [now], k, counterTtl)
      {
        WithinAppend(times, now, k, counterTtl);
      }
    }

    lemma LessenedFleeting(id: Id)
      requires Valid()
      ensures Fleeting(Lessened(cache.attempts, id, WindowLeft(id, clock), clock, resets))
    {
      BumpFleeting(cache.attempts, id, -1);
      BumpFleeting(Bump(cache.attempts, id, -1, WindowLeft(id, clock), clock, resets), id, 1);
    }

    lemma LessenedWitnessed(id: Id)
      requires Valid()
      ensures Witnessed(Lessened(cache.attempts, id, WindowLeft(id, clock), clock, resets), counted)
    {
      var less := Lessened(cache.attempts, id, WindowLeft(id, clock), clock, resets);
      forall k | k in less
        ensures 0 <= less[k].value <= Within(counted, k, counterTtl)
      {
        LessenedOnly(cache.attempts, id, WindowLeft(id, clock), clock, resets, k);
      }
    }

    method IsLocked(now: nat) returns (locked: bool)
      ensures locked == View(cache, now).locked
    {
      locked := cache.lock.Some? && now <= cache.lock.value;
    }

    /** `window`, opening one when there is none. */
    method OpenWindow(now: nat) returns (id: Id)
      requires Valid() && clock <= now
      modifies this`cache, this`clock
      ensures Valid() && clock == now
      ensures View(cache, now) == Opened(View(old(cache), now), now)
      ensures View(cache, now).window == Some(id) && id <= now <= id + counterTtl
      ensures cache == old(cache).(window := cache.window)
    {
      clock := now;
      if cache.window.Some? && now <= cache.window.value.expiry {
        id := cache.window.value.value;
      } else {
        id := now;
        cache := cache.(window := Some(Entry(now, now + counterTtl, now)));
      }
    }

    /** `incr` of one counter: its new value, ending with its window. */
    method Incr(m: map<Id, Entry<int>>, id: Id, now: nat) returns (more: map<Id, Entry<int>>, n: int)
      requires Fleeting(m) && clock == now
      ensures n == Val(LiveCounters(m, now), id) + 1 && LiveCounters(more, now) == LiveCounters(m, now)[id := n]
      ensures more.Keys == m.Keys + {id} && more[id].value == n
      ensures forall k :: k in m && k != id ==> more[k] == m[k]
      ensures Fleeting(more) && (LastingIn(m) && id <= now ==> LastingIn(more))
    {
      BumpLive(m, id, 1, WindowLeft(id, now), now, resets);
      BumpFleeting(m, id, 1);
      if LastingIn(m) && id <= now {
        BumpLasting(m, id, 1, now);
      }
      n := Val(LiveCounters(m, now), id) + 1;
      more := Bump(m, id, 1, WindowLeft(id, now), now, resets);
    }

    /** `incr` on the attempts counter: one more attempt counted in the live window `id`. */
    method CountAttempt(id: Id, now: nat) returns (n: int)
      requires Valid() && id <= now <= id + counterTtl && clock == now
      modifies this`cache, this`counted
      ensures Valid() && n == Val(View(old(cache), now).attempts, id) + 1
      ensures n <= Within(counted, id, counterTtl)
      ensures View(cache, now) == PutAttempts(View(old(cache), now), id, n)
      ensures counted == old(counted) + [now]
      ensures cache == old(cache).(attempts := cache.attempts)
      ensures old(Lasting()) ==> Lasting()
    {
      var more;
      more, n := Incr(cache.attempts, id, now);
      MoreWitnessed(cache.attempts, more, counted, id, now);
      cache := cache.(attempts := more);
      counted := counted + [now];
    }

    /** `decrement`: one off, undone below 0. */
    method Decrement(id: Id, now: nat)
      requires Valid() && clock == now
      modifies this`cache
      ensures Valid() && View(cache, now) == TakeOne(View(old(cache), now), id)
      ensures cache == old(cache).(attempts := cache.attempts)
      ensures old(Lasting()) && id <= now ==> Lasting()
    {
      var less := Lessened(cache.attempts, id, WindowLeft(id, now), now, resets);
      assert LastingIn(cache.attempts) && id <= now ==> LastingIn(less) by {
        if LastingIn(cache.attempts) && id <= now {
          LessenedLasting(cache.attempts, id, now);
        }
      }
      assert Fleeting(less) by { LessenedFleeting(id); }
      assert Witnessed(less, counted) by { LessenedWitnessed(id); }
      assert LiveCounters(less, now) == TakeOne(View(cache, now), id).attempts by {
        LessenedLive(cache.attempts, id, WindowLeft(id, now), now, resets);
      }
      cache := cache.(attempts := less);
    }

    /** `clear_window`: drop the current window and its counters. */
    method ClearWindow(now: nat)
      requires Valid()
      modifies this`cache
      ensures Valid() && View(cache, now) == Cleared(View(old(cache), now))
      ensures cache.lock == old(cache).lock && (old(Lasting()) ==> Lasting())
    {
      if cache.window.Some? && now <= cache.window.value.expiry {
        var id := cache.window.value.value;
        DeleteLive(cache.attempts, id, now);
        DeleteLive(cache.failures, id, now);
        cache := cache.(attempts := cache.attempts - {id});
        cache := cache.(failures := cache.failures - {id});
      }
      cache := cache.(window := None);
    }

    method SetLock(now: nat)
      requires Valid()
      modifies this`cache
      ensures Valid() && View(cache, now) == View(old(cache), now).(locked := true)
      ensures cache == old(cache).(lock := Some(now + lockFor))
    {
      cache := cache.(lock := Some(now + lockFor));
    }

    /** Lock, then start from zero once the lock ends. */
    method LockOut(now: nat)
      requires Valid()
      modifies this`cache
      ensures Valid() && View(cache, now) == Cleared(View(old(cache), now).(locked := true))
      ensures cache.lock == Some(now + lockFor) && (old(Lasting()) ==> Lasting())
    {
      SetLock(now);
      ClearWindow(now);
    }

    /** Open the window and count an attempt in it, at a time within its length of its start. */
    method CountInWindow(now: nat) returns (id: Id, n: int)
      requires Valid() && clock <= now
      modifies this
      ensures Valid() && clock == now && counted == old(counted) + [now]
      ensures id == WindowOr(View(old(cache), now), now) && n == Val(View(old(cache), now).attempts, id) + 1
      ensures View(cache, now) == PutAttempts(Opened(View(old(cache), now), now), id, n)
      ensures id <= now <= id + counterTtl && n <= Within(counted, id, counterTtl)
      ensures cache.lock == old(cache).lock && n >= 1 && (old(Lasting()) ==> Lasting())
    {
      id := OpenWindow(now);
      n := CountAttempt(id, now);
    }

    /** Count an attempt on an account that is not locked, and lock it at the limit. */
    method CountAndLock(now: nat) returns (next: nat)
      requires Valid() && clock <= now && !View(cache, now).locked
      modifies this
      ensures Valid() && clock == now && counted == old(counted) + [now] && next >= 1
      ensures (View(cache, now), next) == RecordCall(max, View(old(cache), now), now)
      ensures next >= max <==> View(cache, now).locked
      ensures next >= max ==> cache.lock == Some(now + lockFor)
      ensures old(Lasting()) ==> Lasting()
      ensures next >= max ==>
        exists start: int :: start <= now <= start + counterTtl && Within(counted, start, counterTtl) >= max
    {
      var id, n := CountInWindow(now);
      next := AsU32(n);
      if next >= max {
        assert id <= now <= id + counterTtl && Within(counted, id, counterTtl) >= max;
        LockOut(now);
      }
    }

    /** Count one failed login. While locked it neither extends nor restarts the lock. The call
        locks exactly on the `max`-th attempt of its window, for exactly `lockFor`, and then
        `max` attempts were counted inside one interval of length `counterTtl`. */
    method RecordFailure(now: nat) returns (next: nat)
      requires Valid() && clock <= now
      modifies this
      ensures Valid() && clock == now
      ensures (View(cache, now), next) == RecordCall(max, View(old(cache), now), now)
      ensures View(old(cache), now).locked ==> next == max && cache == old(cache) && counted == old(counted)
      ensures !View(old(cache), now).locked ==> counted == old(counted) + [now] && next >= 1
      ensures old(Lasting()) ==> Lasting()
      ensures !View(old(cache), now).locked && View(cache, now).locked ==>
        && next >= max && cache.lock == Some(now + lockFor)
        && exists start: int :: start <= now <= start + counterTtl && Within(counted, start, counterTtl) >= max
    {
      clock := now;
      var locked := IsLocked(now);
      if locked {
        return max;
      }
      next := CountAndLock(now);
    }

    /** Count an attempt on an account that is not locked, and take it back over the limit. */
    method CountOrRefuse(now: nat) returns (slot: Option<Id>)
      requires Valid() && clock <= now && !View(cache, now).locked
      modifies this
      ensures Valid() && clock == now
      ensures (View(cache, now), slot) == ReserveCall(max, View(old(cache), now), now)
      ensures cache.lock == old(cache).lock && (old(Lasting()) ==> Lasting())
    {
      var id, n := CountInWindow(now);
      if n > max {
        Decrement(id, now);
        return None;
      }
      slot := Some(id);
    }

    /** Count an attempt before its password is checked: the window id of its slot, or none
        when the account is locked or full. */
    method Reserve(now: nat) returns (slot: Option<Id>)
      requires Valid() && clock <= now
      modifies this
      ensures Valid() && clock == now
      ensures (View(cache, now), slot) == ReserveCall(max, View(old(cache), now), now)
      ensures cache.lock == old(cache).lock && (old(Lasting()) ==> Lasting())
    {
      clock := now;
      var locked := IsLocked(now);
      if locked {
        return None;
      }
      slot := CountOrRefuse(now);
    }

    /** `incr` on the failures counter. */
    method CountFailure(id: Id, now: nat) returns (n: int)
      requires Valid() && clock == now
      modifies this`cache
      ensures Valid() && n == Val(View(old(cache), now).failures, id) + 1
      ensures View(cache, now) == PutFailures(View(old(cache), now), id, n)
      ensures cache == old(cache).(failures := cache.failures)
      ensures old(Lasting()) && id <= now ==> Lasting()
    {
      var more;
      more, n := Incr(cache.failures, id, now);
      cache := cache.(failures := more);
    }

    /** Count a failure in window `id`, and lock at the limit. */
    method CountReport(id: Id, now: nat)
      requires Valid() && clock == now
      modifies this`cache
      ensures Valid() && View(cache, now) == FailCall(max, View(old(cache), now), id)
      ensures cache.lock == (if Val(View(old(cache), now).failures, id) + 1 >= max then Some(now + lockFor)
                             else old(cache).lock)
      ensures old(Lasting()) && id <= now ==> Lasting()
    {
      var n := CountFailure(id, now);
      if n >= max {
        LockOut(now);
      }
    }

    /** A reserved attempt failed. */
    method ReservedFailed(slot: Option<Id>, now: nat)
      requires Valid() && clock <= now
      modifies this
      ensures Valid() && clock == now && counted == old(counted)
      ensures View(cache, now) == ReportCall(max, View(old(cache), now), slot, now)
      ensures cache.lock == old(cache).lock || cache.lock == Some(now + lockFor)
      ensures !View(old(cache), now).locked && View(cache, now).locked ==> cache.lock == Some(now + lockFor)
      ensures old(Lasting()) && (slot.Some? ==> slot.value <= now) ==> Lasting()
    {
      clock := now;
      var id;
      if slot.Some? {
        id := slot.value;
      } else {
        id := OpenWindow(now);
      }
      CountReport(id, now);
    }

    /** A reserved attempt passed. Never lifts a lock. */
    method ReservedSucceeded(slot: Option<Id>, now: nat)
      requires Valid() && clock <= now
      modifies this
      ensures Valid() && clock == now && counted == old(counted)
      ensures View(cache, now) == SucceedCall(View(old(cache), now), slot)
      ensures cache.lock == old(cache).lock
      ensures old(Lasting()) && (slot.Some? ==> slot.value <= now) ==> Lasting()
    {
      clock := now;
      var live := View(cache, now);
      if live.window.Some? && Val(live.failures, live.window.value) > 0 {
        ClearWindow(now);
      } else if slot.Some? {
        Decrement(slot.value, now);
      }
    }

    /** Clear the window's counters and any lock. */
    method Clear(now: nat)
      requires Valid() && clock <= now
      modifies this
      ensures Valid() && clock == now && counted == old(counted)
      ensures View(cache, now) == Cleared(View(old(cache), now)).(locked := false)
      ensures cache.lock == None && (old(Lasting()) ==> Lasting())
    {
      clock := now;
      ClearWindow(now);
      cache := cache.(lock := None);
    }

    /** The first failure opens a window. */
    predicate Opens(now: nat)
      reads this
    {
      var live := View(cache, now);
      !live.locked && live.window.None? && now !in live.attempts
    }

    /** `n` failures counted in the window that opened at `start`, and no lock. */
    ghost predicate CountedUp(start: nat, now: nat, n: nat)
      reads this
    {
      var live := View(cache, now);
      && clock == now && !live.locked
      && cache.window.Some? && live.window == Some(start) && Val(live.attempts, start) == n
    }

    /** Locked just now, for the lock duration. */
    ghost predicate LockedAt(now: nat)
      reads this
    {
      View(cache, now).locked && cache.lock == Some(now + lockFor)
    }

    /** Below the limit all `n` are counted, at the limit the account is locked. */
    ghost predicate Stands(start: nat, now: nat, n: nat)
      reads this
    {
      if n < max then CountedUp(start, now, n) else LockedAt(now)
    }

    /** One more failure, later in the same window. */
    method RecordNext(start: nat, before: nat, now: nat, n: nat)
      requires Valid() && Lasting() && CountedUp(start, before, n) && before <= now <= start + counterTtl && n < max
      modifies this
      ensures Valid() && Lasting()
      ensures Stands(start, now, n + 1)
    {
      TimeKeeps(before, now);
      TimeDrops(cache, before, now);
      var next := RecordFailure(now);
    }

    method RecordFirst(now: nat)
      requires Valid() && Lasting() && clock <= now && Opens(now)
      modifies this
      ensures Valid() && Lasting()
      ensures Stands(now, now, 1)
    {
      var next := RecordFailure(now);
    }

    /** Failures at any times within one window's length of the first add up: fewer than `max`
        leave the account open with all of them counted, and the `max`-th locks it, for the lock
        duration from then on. */
    method RecordAll(times: seq<nat>)
      requires Valid() && Lasting() && 0 < |times| <= max && clock <= times[0] && Opens(times[0])
      requires forall i, j :: 0 <= i < j < |times| ==> times[i] <= times[j]
      requires forall i :: 0 <= i < |times| ==> times[i] <= times[0] + counterTtl
      modifies this
      ensures Valid() && Lasting()
      ensures |times| < max ==> CountedUp(times[0], times[|times| - 1], |times|)
      ensures |times| == max ==> LockedAt(times[|times| - 1])
    {
      RecordFirst(times[0]);
      var i := 1;
      while i < |times|
        invariant 1 <= i <= |times| && Valid() && Lasting()
        invariant Stands(times[0], times[i - 1], i)
      {
        RecordNext(times[0], times[i - 1], times[i], i);
        i := i + 1;
      }
    }
  }
}
