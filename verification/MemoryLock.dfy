/**
 The in-process lock: an entry per key with its own expiry timer. Timers are the pending callbacks of
 the event loop; a pending one may fire at any time from its due time on.
 */
module MemoryLock {
  import opened Js
  import opened Lease

  datatype Held = Held(token: string, expireAt: int, timer: nat)
  datatype Timer = Timer(key: string, due: int)
  datatype LockState = LockState(locks: map<string, Held>, timers: map<nat, Timer>, next: nat)

  const EMPTY: LockState := LockState(map[], map[], 0)

  function Drop(s: LockState, key: string): LockState {
    if key in s.locks then s.(locks := s.locks - {key}, timers := s.timers - {s.locks[key].timer}) else s
  }

  function Released(s: LockState, key: string, token: string): LockState {
    if key in s.locks && s.locks[key].token == token then Drop(s, key) else s
  }

  function Step(s: LockState, now: int, op: Op): (LockState, bool) {
    match op
    case Acquire(k, ttl, token) =>
      if k in s.locks && now < s.locks[k].expireAt then (s, false)
      else
        var s1 := Drop(s, k);
        (LockState(s1.locks[k := Held(token, now + ttl, s.next)],
               s1.timers[s.next := Timer(k, now + TimerDelay(ttl))], s.next + 1), true)
    case Release(k, token) => (Released(s, k, token), true)
    case Fire(id) =>
      if id in s.timers && s.timers[id].due <= now then
        (s.(locks := s.locks - {s.timers[id].key}, timers := s.timers - {id}), true)
      else (s, true)
  }

  ghost function Run(ops: seq<Timed>): LockState {
    if ops == [] then EMPTY
    else Step(Run(ops[..|ops| - 1]), ops[|ops| - 1].at, ops[|ops| - 1].op).0
  }

  class MemoryDistributedLock {
    var locks: map<string, Held>
    var timers: map<nat, Timer>     // the event loop's pending timers of this object
    var next: nat

    ghost function State(): LockState
      reads this
    {
      LockState(locks, timers, next)
    }

    constructor ()
      ensures State() == EMPTY
    {
      locks, timers, next := map[], map[], 0;
    }

    method Acquire(key: string, ttlMs: int, uuid: string, now: int) returns (token: Option<string>)
      modifies this
      ensures State() == Step(old(State()), now, Op.Acquire(key, ttlMs, uuid)).0
      ensures token == if Step(old(State()), now, Op.Acquire(key, ttlMs, uuid)).1 then Some(uuid) else None
    {
      if key in locks && now >= locks[key].expireAt {
        timers := timers - {locks[key].timer};
        locks := locks - {key};
      }
      if key in locks {
        return None;
      }
      var expireAt := now + ttlMs;
      var timer := next;
      next := next + 1;
      timers := timers[timer := Timer(key, now + TimerDelay(ttlMs))];
      locks := locks[key := Held(uuid, expireAt, timer)];
      return Some(uuid);
    }

    method Release(key: string, token: string)
      modifies this
      ensures State() == Released(old(State()), key, token)
    {
      if key !in locks || locks[key].token != token {
        return;
      }
      timers := timers - {locks[key].timer};
      locks := locks - {key};
    }

    /** The event loop runs a timer that is due. */
    method FireTimer(timer: nat, now: int)
      requires timer in timers && timers[timer].due <= now
      modifies this
      ensures State() == Step(old(State()), now, Fire(timer)).0
    {
      var key := timers[timer].key;
      timers := timers - {timer};
      locks := locks - {key};
    }
  }

  // ---------- timers belong to the hold that set them ----------

  ghost predicate TimerOwned(s: LockState) {
    && (forall id :: id in s.timers ==>
      id < s.next && s.timers[id].key in s.locks && s.locks[s.timers[id].key].timer == id)
    && (forall k :: k in s.locks ==>
      s.locks[k].timer in s.timers && s.timers[s.locks[k].timer].key == k)
  }

  /** No timer is due before the lease it guards runs out. */
  ghost predicate NoEarlyTimer(s: LockState) {
    forall id :: id in s.timers && s.timers[id].key in s.locks ==>
      s.locks[s.timers[id].key].expireAt <= s.timers[id].due
  }

  ghost predicate ShortTtls(ops: seq<Timed>) {
    forall i :: 0 <= i < |ops| && ops[i].op.Acquire? ==> ops[i].op.ttl <= MAX_TIMEOUT_MS
  }

  /** The unexpired entries are the unexpired leases. */
  ghost predicate SameHolds(s: LockState, l: Leases, now: int) {
    forall k ::
      (k in s.locks && now < s.locks[k].expireAt <==> k in View(l, now)) &&
      (k in View(l, now) ==> s.locks[k].token == l[k].token && s.locks[k].expireAt == l[k].expireAt)
  }

  lemma SameHoldsLater(s: LockState, l: Leases, was: int, now: int)
    requires SameHolds(s, l, was) && was <= now
    ensures SameHolds(s, l, now)
  {
    forall k
      ensures k in s.locks && now < s.locks[k].expireAt <==> k in View(l, now)
    {
      assert k in s.locks && was < s.locks[k].expireAt <==> k in View(l, was);
    }
  }

  lemma StepKeepsTimers(s: LockState, now: int, op: Op)
    requires TimerOwned(s)
    ensures TimerOwned(Step(s, now, op).0)
    ensures NoEarlyTimer(s) && (op.Acquire? ==> op.ttl <= MAX_TIMEOUT_MS) ==> NoEarlyTimer(Step(s, now, op).0)
  {
  }

  lemma StepRefines(s: LockState, l: Leases, now: int, op: Op)
    requires TimerOwned(s) && NoEarlyTimer(s) && SameHolds(s, l, now)
    ensures SameHolds(Step(s, now, op).0, LeaseStep(l, now, op).0, now)
    ensures Step(s, now, op).1 == LeaseStep(l, now, op).1
  {
    var s', l' := Step(s, now, op).0, LeaseStep(l, now, op).0;
    var key := match op
               case Acquire(k, _, _) => k
               case Release(k, _) => k
               case Fire(id) => if id in s.timers then s.timers[id].key else "";
    assert key in s.locks && now < s.locks[key].expireAt <==> key in View(l, now);
    forall k
      ensures k in s'.locks && now < s'.locks[k].expireAt <==> k in View(l', now)
      ensures k in View(l', now) ==> s'.locks[k].token == l'[k].token && s'.locks[k].expireAt == l'[k].expireAt
    {
      if k != key {
        assert k in s'.locks <==> k in s.locks;
        assert k in View(l', now) <==> k in View(l, now);
      }
    }
  }

  lemma {:induction false} RunTimers(ops: seq<Timed>)
    ensures TimerOwned(Run(ops)) && (ShortTtls(ops) ==> NoEarlyTimer(Run(ops)))
  {
    if ops != [] {
      RunTimers(ops[..|ops| - 1]);
      StepKeepsTimers(Run(ops[..|ops| - 1]), ops[|ops| - 1].at, ops[|ops| - 1].op);
    }
  }

  /**
   In every run a pending timer is the current timer of a hold on its key: a timer set for an earlier
   holder is never left behind to remove a later one.
   */
  lemma OldTimersAreGone(ops: seq<Timed>, id: nat)
    requires id in Run(ops).timers
    ensures var s := Run(ops); s.timers[id].key in s.locks && s.locks[s.timers[id].key].timer == id
  {
    RunTimers(ops);
  }

  ghost predicate AnswersLikeLease(ops: seq<Timed>) {
    forall i :: 0 <= i < |ops| ==>
      Step(Run(ops[..i]), ops[i].at, ops[i].op).1 == LeaseStep(LeaseRun(ops[..i]), ops[i].at, ops[i].op).1
  }

  lemma {:induction false} RunRefines(ops: seq<Timed>, now: int)
    requires Monotone(ops) && ShortTtls(ops)
    requires ops != [] ==> ops[|ops| - 1].at <= now
    ensures SameHolds(Run(ops), LeaseRun(ops), now)
  {
    if ops != [] {
      var before, last := ops[..|ops| - 1], ops[|ops| - 1];
      RunRefines(before, last.at);
      RunTimers(before);
      StepRefines(Run(before), LeaseRun(before), last.at, last.op);
      SameHoldsLater(Run(ops), LeaseRun(ops), last.at, now);
    }
  }

  /** With leases `setTimeout` can wait for, the in-process lock is the lease lock, whenever its timers fire. */
  lemma RefinesLease(ops: seq<Timed>)
    requires Monotone(ops) && ShortTtls(ops)
    ensures AnswersLikeLease(ops)
  {
    forall i | 0 <= i < |ops|
      ensures Step(Run(ops[..i]), ops[i].at, ops[i].op).1 == LeaseStep(LeaseRun(ops[..i]), ops[i].at, ops[i].op).1
    {
      RunRefines(ops[..i], ops[i].at);
      RunTimers(ops[..i]);
      StepRefines(Run(ops[..i]), LeaseRun(ops[..i]), ops[i].at, ops[i].op);
    }
  }

  ghost predicate ConstantTtl(ops: seq<Timed>, ttl: int) {
    forall i :: 0 <= i < |ops| && ops[i].op.Acquire? ==> ops[i].op.ttl == ttl
  }

  /** A lease longer than `setTimeout` can wait for is dropped one millisecond after it is taken. */
  lemma OverflowBreaksLease(ttl: int)
    requires MAX_TIMEOUT_MS < ttl
    ensures exists ops :: Monotone(ops) && ConstantTtl(ops, ttl) && !AnswersLikeLease(ops)
  {
    var o0 := Timed(0, Acquire("k", ttl, "a"));
    var o1 := Timed(1, Fire(0));
    var o2 := Timed(1, Acquire("k", ttl, "b"));
    var ops := [o0, o1, o2];
    assert ops[..2] == [o0, o1] && [o0, o1][..1] == [o0] && [o0][..0] == [];
    assert Run([o0]).timers == map[0 := Timer("k", 1)];
    assert Run([o0, o1]).locks == map[];
    assert LeaseRun([o0]) == map["k" := Hold("a", ttl)];
    assert Step(Run(ops[..2]), ops[2].at, ops[2].op).1 != LeaseStep(LeaseRun(ops[..2]), ops[2].at, ops[2].op).1;
    assert !AnswersLikeLease(ops);
  }

  /** Exactly the lock TTLs up to 2^31 - 1 ms make the in-process lock a lease lock in every run. */
  lemma LeaseIff(ttl: int)
    ensures (forall ops :: Monotone(ops) && ConstantTtl(ops, ttl) ==> AnswersLikeLease(ops)) <==> ttl <= 2147483647
  {
    if ttl <= MAX_TIMEOUT_MS {
      forall ops | Monotone(ops) && ConstantTtl(ops, ttl) ensures AnswersLikeLease(ops) {
        RefinesLease(ops);
      }
    } else {
      OverflowBreaksLease(ttl);
    }
  }
}
