/**
 A lease lock: what both distributed locks are meant to be. A key is held by the token that
 acquired it until that token releases it or its time runs out.
 */
module Lease {
  datatype Hold = Hold(token: string, expireAt: int)

  type Leases = map<string, Hold>

  datatype Op =
    | Acquire(key: string, ttl: int, token: string)
    | Release(key: string, token: string)
    | Fire(timer: nat)        // a pending timer's callback; nothing to the lease itself

  datatype Timed = Timed(at: int, op: Op)

  /** The unexpired holds. */
  function View(l: Leases, now: int): Leases {
    map k | k in l && now < l[k].expireAt :: l[k]
  }

  function LeaseStep(l: Leases, now: int, op: Op): (Leases, bool) {
    match op
    case Acquire(k, ttl, token) =>
      if k in View(l, now) then (l, false) else (l[k := Hold(token, now + ttl)], true)
    case Release(k, token) =>
      if k in l && l[k].token == token then (l - {k}, true) else (l, true)
    case Fire(_) => (l, true)
  }

  ghost function LeaseRun(ops: seq<Timed>): Leases {
    if ops == [] then map[]
    else LeaseStep(LeaseRun(ops[..|ops| - 1]), ops[|ops| - 1].at, ops[|ops| - 1].op).0
  }

  ghost predicate Monotone(ops: seq<Timed>) {
    forall i, j :: 0 <= i < j < |ops| ==> ops[i].at <= ops[j].at
  }

  /** Tokens are drawn fresh for every attempt. */
  ghost predicate FreshTokens(ops: seq<Timed>) {
    forall i, j :: 0 <= i < j < |ops| && ops[i].op.Acquire? && ops[j].op.Acquire? ==>
      ops[i].op.token != ops[j].op.token
  }

  ghost predicate Acquires(ops: seq<Timed>, i: nat, key: string)
    requires i < |ops|
  {
    ops[i].op.Acquire? && ops[i].op.key == key && LeaseStep(LeaseRun(ops[..i]), ops[i].at, ops[i].op).1
  }

  ghost predicate ReleasedBetween(ops: seq<Timed>, i: nat, j: nat, hold: Op)
    requires i <= j <= |ops| && hold.Acquire?
  {
    exists k :: i < k < j && ops[k].op == Release(hold.key, hold.token)
  }

  /** Until its own release or its deadline, nothing takes a hold away: not a stale release, not an attempt. */
  lemma {:induction false} HoldStays(ops: seq<Timed>, i: nat, j: nat)
    requires Monotone(ops) && FreshTokens(ops) && i < j <= |ops|
    requires ops[i].op.Acquire? && Acquires(ops, i, ops[i].op.key)
    requires !ReleasedBetween(ops, i, j, ops[i].op)
    requires ops[j - 1].at < ops[i].at + ops[i].op.ttl
    ensures var l := LeaseRun(ops[..j]);
      ops[i].op.key in l && l[ops[i].op.key] == Hold(ops[i].op.token, ops[i].at + ops[i].op.ttl)
  {
    assert ops[..j][..j - 1] == ops[..j - 1];
    if j > i + 1 {
      assert ops[j - 2].at <= ops[j - 1].at;
      HoldStays(ops, i, j - 1);
    }
  }

  /**
   Mutual exclusion over every run: when two attempts on one key succeed, the earlier holder released
   in between or its lease had run out.
   */
  lemma Exclusive(ops: seq<Timed>, i: nat, j: nat, key: string)
    requires Monotone(ops) && FreshTokens(ops) && i < j < |ops|
    requires Acquires(ops, i, key) && Acquires(ops, j, key)
    ensures ReleasedBetween(ops, i, j, ops[i].op) || ops[i].at + ops[i].op.ttl <= ops[j].at
  {
    if !ReleasedBetween(ops, i, j, ops[i].op) && ops[j].at < ops[i].at + ops[i].op.ttl {
      assert ops[j - 1].at <= ops[j].at;
      HoldStays(ops, i, j);
    }
  }

  lemma PrefixRun(ops: seq<Timed>, i: nat, j: nat)
    requires i < j <= |ops|
    ensures ops[..j][..i] == ops[..i] && ops[..j][i] == ops[i]
  {
  }

  /** Every hold on record was acquired by some step and not released since. */
  lemma {:induction false} HoldFrom(ops: seq<Timed>, key: string) returns (i: nat)
    requires key in LeaseRun(ops)
    ensures i < |ops| && Acquires(ops, i, key) && !ReleasedBetween(ops, i, |ops|, ops[i].op)
    ensures LeaseRun(ops)[key] == Hold(ops[i].op.token, ops[i].at + ops[i].op.ttl)
  {
    var before, last := ops[..|ops| - 1], ops[|ops| - 1];
    if Acquires(ops, |ops| - 1, key) {
      i := |ops| - 1;
    } else {
      i := HoldFrom(before, key);
      PrefixRun(ops, i, |ops| - 1);
      forall k | i < k < |ops| ensures ops[k].op != Release(key, ops[i].op.token) {
        if k < |ops| - 1 {
          assert before[k] == ops[k];
        }
      }
    }
  }

  /** An attempt succeeds exactly when every earlier hold on the key was released in between or has run out. */
  lemma AcquiresIff(ops: seq<Timed>, j: nat, key: string)
    requires Monotone(ops) && FreshTokens(ops) && j < |ops| && ops[j].op.Acquire? && ops[j].op.key == key
    ensures Acquires(ops, j, key)
            <==> forall i: nat :: i < j && Acquires(ops, i, key) ==>
                   ReleasedBetween(ops, i, j, ops[i].op) || ops[i].at + ops[i].op.ttl <= ops[j].at
  {
    if Acquires(ops, j, key) {
      forall i: nat | i < j && Acquires(ops, i, key)
        ensures ReleasedBetween(ops, i, j, ops[i].op) || ops[i].at + ops[i].op.ttl <= ops[j].at
      {
        Exclusive(ops, i, j, key);
      }
    } else {
      var i := HoldFrom(ops[..j], key);
      PrefixRun(ops, i, j);
      assert Acquires(ops, i, key);
      SameReleases(ops, i, j);
    }
  }

  lemma SameReleases(ops: seq<Timed>, i: nat, j: nat)
    requires i < j <= |ops| && ops[i].op.Acquire?
    ensures ReleasedBetween(ops, i, j, ops[i].op) ==> ReleasedBetween(ops[..j], i, j, ops[i].op)
  {
    if ReleasedBetween(ops, i, j, ops[i].op) {
      var k :| i < k < j && ops[k].op == Release(ops[i].op.key, ops[i].op.token);
      assert ops[..j][k] == ops[k];
    }
  }
}
