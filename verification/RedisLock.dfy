/**
 The Redis lock: SET with NX and PX to acquire, a compare-and-delete script to release. Times are in
 milliseconds; a lifetime below one is refused by the server.
 */
module RedisLock {
  import opened Js
  import opened Redis
  import opened Lease

  const PREFIX: string := "auth:lock:"

  datatype Reply = Granted(key: string, token: string) | Refused | InvalidExpire

  function SetNx(s: Keys<string>, now: int, k: string, v: string, ttl: int): (Keys<string>, Option<bool>) {
    if ttl < 1 then (s, None)
    else if Live(s, now, k) then (s, Some(false))
    else (Put(s, now, k, v, Some(ttl)), Some(true))
  }

  function CompareAndDelete(s: Keys<string>, now: int, k: string, v: string): Keys<string> {
    if Redis.Get(s, now, k) == Some(v) then s - {k} else s
  }

  class RedisDistributedLock {
    var keys: Keys<string>

    constructor ()
      ensures keys == map[]
    {
      keys := map[];
    }

    /** The token handed out carries the prefixed key. */
    method Acquire(key: string, ttlMs: int, uuid: string, now: int) returns (reply: Reply)
      modifies this
      ensures keys == SetNx(old(keys), now, PREFIX + key, uuid, ttlMs).0
      ensures reply.Granted? <==> ttlMs >= 1 && !Live(old(keys), now, PREFIX + key)
      ensures reply.Granted? ==> reply.key == PREFIX + key && reply.token == uuid
      ensures reply.InvalidExpire? <==> ttlMs < 1
    {
      var (after, answer) := SetNx(keys, now, PREFIX + key, uuid, ttlMs);
      keys := after;
      reply := match answer
               case None => InvalidExpire
               case Some(ok) => if ok then Granted(PREFIX + key, uuid) else Refused;
    }

    /** A token that does not hold the key changes nothing; one that does frees it, and no other key. */
    method Release(lockKey: string, token: string, now: int)
      modifies this
      ensures Redis.Get(old(keys), now, lockKey) != Some(token) ==> keys == old(keys)
      ensures Redis.Get(old(keys), now, lockKey) == Some(token) ==> lockKey !in keys
      ensures keys - {lockKey} == old(keys) - {lockKey}
    {
      keys := CompareAndDelete(keys, now, lockKey, token);
    }
  }

  // ---------- a lease lock ----------

  function Step(s: Keys<string>, now: int, op: Op): (Keys<string>, bool) {
    match op
    case Acquire(k, ttl, token) =>
      var (s', answer) := SetNx(s, now, PREFIX + k, token, ttl);
      (s', answer == Some(true))
    case Release(k, token) => (CompareAndDelete(s, now, PREFIX + k, token), true)
    case Fire(_) => (s, true)
  }

  ghost function Run(ops: seq<Timed>): Keys<string> {
    if ops == [] then map[]
    else Step(Run(ops[..|ops| - 1]), ops[|ops| - 1].at, ops[|ops| - 1].op).0
  }

  ghost predicate PositiveTtls(ops: seq<Timed>) {
    forall i :: 0 <= i < |ops| && ops[i].op.Acquire? ==> ops[i].op.ttl >= 1
  }

  /** The server holds, under prefixed keys, exactly the unexpired leases. */
  ghost predicate SameHolds(s: Keys<string>, l: Leases, now: int) {
    forall k: string ::
      (Live(s, now, PREFIX + k) <==> k in View(l, now)) &&
      (k in View(l, now) ==> s[PREFIX + k] == Cell(l[k].token, Some(l[k].expireAt)))
  }

  lemma PrefixInjective(a: string, b: string)
    ensures PREFIX + a == PREFIX + b <==> a == b
  {
    assert (PREFIX + a)[|PREFIX|..] == a && (PREFIX + b)[|PREFIX|..] == b;
  }

  lemma StepRefines(s: Keys<string>, l: Leases, now: int, op: Op)
    requires SameHolds(s, l, now) && (op.Acquire? ==> op.ttl >= 1)
    ensures Step(s, now, op).1 == LeaseStep(l, now, op).1
    ensures forall later :: now <= later ==> SameHolds(Step(s, now, op).0, LeaseStep(l, now, op).0, later)
  {
    var s', l' := Step(s, now, op).0, LeaseStep(l, now, op).0;
    forall later | now <= later ensures SameHolds(s', l', later) {
      forall k: string
        ensures Live(s', later, PREFIX + k) <==> k in View(l', later)
        ensures k in View(l', later) ==> s'[PREFIX + k] == Cell(l'[k].token, Some(l'[k].expireAt))
      {
        if !op.Fire? {
          PrefixInjective(k, op.key);
        }
        assert Live(s, now, PREFIX + k) <==> k in View(l, now);
      }
    }
  }

  lemma {:induction false} RunRefines(ops: seq<Timed>, now: int)
    requires Monotone(ops) && PositiveTtls(ops)
    requires ops != [] ==> ops[|ops| - 1].at <= now
    ensures SameHolds(Run(ops), LeaseRun(ops), now)
  {
    if ops != [] {
      var before, last := ops[..|ops| - 1], ops[|ops| - 1];
      RunRefines(before, last.at);
      StepRefines(Run(before), LeaseRun(before), last.at, last.op);
    }
  }

  /** Every answer of the Redis lock, in every run, is the lease lock's. */
  lemma RefinesLease(ops: seq<Timed>, i: nat)
    requires Monotone(ops) && PositiveTtls(ops) && i < |ops|
    ensures Step(Run(ops[..i]), ops[i].at, ops[i].op).1 == LeaseStep(LeaseRun(ops[..i]), ops[i].at, ops[i].op).1
  {
    RunRefines(ops[..i], ops[i].at);
    StepRefines(Run(ops[..i]), LeaseRun(ops[..i]), ops[i].at, ops[i].op);
  }
}
