/**
 Where the limits of login policies end: without the lock, under another lock key, and one session for
 every fault of a run.
 */
module LoginLimits {
  import opened Js
  import opened Lease
  import opened LoginPolicy
  import opened Sessions
  import opened LoginProtocol

  // ---------- where the bound fails ----------

  lemma RunSnoc(cfg: Config, s: Sys, events: seq<Event>, e: Event)
    ensures RunFrom(cfg, s, events + [e]) == Apply(cfg, RunFrom(cfg, s, events), e)
  {
    assert (events + [e])[..|events|] == events;
  }

  lemma CountSnoc(cfg: Config, s: Sys, events: seq<Event>, e: Event, user: string, device: Option<string>)
    ensures CountFaults(cfg, s, events + [e], user, device)
         == CountFaults(cfg, s, events, user, device) + Faults(cfg, RunFrom(cfg, s, events), e, user, device)
  {
    assert (events + [e])[..|events|] == events;
  }

  /** n logins of one user on one device, each past its lease before the next begins, none having stored. */
  function Gather(cfg: Config, user: string, device: Option<string>, n: nat): seq<Event> {
    if n == 0 then []
    else Gather(cfg, user, device, n - 1) + [Begin(n - 1, user, device, Name(n - 1))] + [List(n - 1, [])]
         + [Tick(cfg.lockTtl)]
  }

  function StoreAll(k: nat): seq<Event> {
    if k == 0 then [] else StoreAll(k - 1) + [Store(k - 1, Name(k - 1))]
  }

  /** n logins have listed nothing and wait; the lock is free again. */
  ghost predicate Waiting(s: Sys, user: string, device: Option<string>, n: nat) {
    && (forall i: nat :: i in s.procs <==> i < n)
    && (forall i: nat :: i < n ==> Ready(s, user, device, i))
    && s.sessions == map[] && s.ids == {} && s.rotations == map[]
    && (forall t :: t in s.tokens ==> |t| <= n)
    && (forall key :: key in s.leases ==> s.leases[key].expireAt <= s.now)
  }

  ghost predicate Ready(s: Sys, user: string, device: Option<string>, i: nat) {
    && i in s.procs && s.procs[i].stage == Clearing([], 0, 0)
    && s.procs[i].user == user && s.procs[i].device == device
  }

  lemma OneMoreBegins(cfg: Config, s: Sys, user: string, device: Option<string>, n: nat)
    requires Waiting(s, user, device, n)
    ensures
      var s' := Apply(cfg, s, Begin(n, user, device, Name(n)));
      && s'.procs.Keys == s.procs.Keys + {n} && (forall i: nat :: i < n ==> s'.procs[i] == s.procs[i])
      && s'.procs[n].stage == Acquired && s'.procs[n].user == user && s'.procs[n].device == device
      && s'.sessions == map[] && s'.ids == {} && s'.rotations == map[]
      && s'.tokens == s.tokens + {Name(n)} && s'.now == s.now
      && (forall key :: key in s'.leases ==> s'.leases[key].expireAt <= s.now + cfg.lockTtl)
  {
    assert |Name(n)| == n + 1;
    assert LockKey(user, device) !in View(s.leases, s.now);
  }

  lemma OneMoreWaits(cfg: Config, s: Sys, user: string, device: Option<string>, n: nat)
    requires Waiting(s, user, device, n)
    ensures
      var s1 := Apply(cfg, s, Begin(n, user, device, Name(n)));
      Waiting(Apply(cfg, Apply(cfg, s1, List(n, [])), Tick(cfg.lockTtl)), user, device, n + 1)
  {
    OneMoreBegins(cfg, s, user, device, n);
    var s1 := Apply(cfg, s, Begin(n, user, device, Name(n)));
    ListNothing(cfg, s1, n);
    var s2 := Apply(cfg, s1, List(n, []));
    assert |Name(n)| == n + 1;
    forall i: nat | i < n + 1 ensures Ready(s2, user, device, i) {
      if i < n {
        assert Ready(s, user, device, i);
      }
    }
    var s3 := Apply(cfg, s2, Tick(cfg.lockTtl));
    assert forall i: nat :: i < n + 1 ==> Ready(s2, user, device, i) == Ready(s3, user, device, i);
  }

  lemma ListNothing(cfg: Config, s: Sys, p: nat)
    requires p in s.procs && s.procs[p].stage == Acquired
    ensures Apply(cfg, s, List(p, [])) == s.(procs := s.procs[p := s.procs[p].(stage := Clearing([], 0, 0))])
  {
  }

  /** Nothing can be missed in an empty store. */
  lemma NothingMissed(cfg: Config, s: Sys, e: Event, user: string, device: Option<string>)
    requires s.sessions == map[] && !e.RotateStore? && !e.RotateQuit?
    ensures Faults(cfg, s, e, user, device) == 0
  {
    if e.List? {
      assert Kept(cfg, s, user, device) - Names(e.found) == {};
    }
  }

  lemma {:induction false} Gathering(cfg: Config, user: string, device: Option<string>, n: nat)
    ensures Waiting(RunFrom(cfg, Init(0), Gather(cfg, user, device, n)), user, device, n)
    ensures CountFaults(cfg, Init(0), Gather(cfg, user, device, n), user, device) == 0
  {
    hide Apply, Faults, CountFaults, Waiting, LockKey, RunFrom, Name;
    if n == 0 {
      NobodyWaits(cfg, user, device);
    } else {
      Gathering(cfg, user, device, n - 1);
      var before := Gather(cfg, user, device, n - 1);
      OneMoreWaits(cfg, RunFrom(cfg, Init(0), before), user, device, n - 1);
      var e0, e1, e2 := Begin(n - 1, user, device, Name(n - 1)), List(n - 1, []), Tick(cfg.lockTtl);
      RunSnoc(cfg, Init(0), before, e0);
      RunSnoc(cfg, Init(0), before + [e0], e1);
      RunSnoc(cfg, Init(0), before + [e0] + [e1], e2);
      CountSnoc(cfg, Init(0), before, e0, user, device);
      CountSnoc(cfg, Init(0), before + [e0], e1, user, device);
      CountSnoc(cfg, Init(0), before + [e0] + [e1], e2, user, device);
      WaitingFaults(cfg, RunFrom(cfg, Init(0), before), user, device, n - 1);
    }
  }

  lemma NobodyWaits(cfg: Config, user: string, device: Option<string>)
    ensures Waiting(RunFrom(cfg, Init(0), []), user, device, 0) && CountFaults(cfg, Init(0), [], user, device) == 0
  {
  }

  lemma WaitingFaults(cfg: Config, s: Sys, user: string, device: Option<string>, n: nat)
    requires Waiting(s, user, device, n)
    ensures
      var e := Begin(n, user, device, Name(n));
      && Faults(cfg, s, e, user, device) == 0
      && Faults(cfg, Apply(cfg, s, e), List(n, []), user, device) == 0
      && Faults(cfg, Apply(cfg, Apply(cfg, s, e), List(n, [])), Tick(cfg.lockTtl), user, device) == 0
  {
    OneMoreBegins(cfg, s, user, device, n);
    NothingMissed(cfg, Apply(cfg, s, Begin(n, user, device, Name(n))), List(n, []), user, device);
  }

  /** k of n waiting logins have stored. */
  ghost predicate HaveStored(cfg: Config, s: Sys, user: string, device: Option<string>, n: nat, k: nat) {
    && |Cell(cfg, s, user, device)| == k && s.rotations == map[]
    && (forall id :: id in s.ids ==> |id| <= k) && (forall id :: id in s.sessions ==> id in s.ids)
    && (forall i: nat :: k <= i < n ==> Ready(s, user, device, i))
  }

  lemma OneMoreStores(cfg: Config, s: Sys, user: string, device: Option<string>, n: nat, k: nat)
    requires HaveStored(cfg, s, user, device, n, k) && k < n
    ensures HaveStored(cfg, Apply(cfg, s, Store(k, Name(k))), user, device, n, k + 1)
  {
    hide Apply, LockKey;
    assert |Name(k)| == k + 1;
    assert Ready(s, user, device, k);
    StoreEffect(cfg, s, Store(k, Name(k)));
    var s' := Apply(cfg, s, Store(k, Name(k)));
    assert Cell(cfg, s', user, device) == Cell(cfg, s, user, device) + {Name(k)};
    forall i: nat | k + 1 <= i < n ensures Ready(s', user, device, i) {
      assert Ready(s, user, device, i);
    }
  }

  lemma NoneStored(cfg: Config, s: Sys, user: string, device: Option<string>, n: nat)
    requires Waiting(s, user, device, n)
    ensures HaveStored(cfg, s, user, device, n, 0)
  {
    assert Cell(cfg, s, user, device) == {};
  }

  /** Then all of them store. */
  lemma {:induction false} Crowding(cfg: Config, user: string, device: Option<string>, n: nat, k: nat)
    requires k <= n
    ensures HaveStored(cfg, RunFrom(cfg, Init(0), Gather(cfg, user, device, n) + StoreAll(k)), user, device, n, k)
    ensures CountFaults(cfg, Init(0), Gather(cfg, user, device, n) + StoreAll(k), user, device) == 0
  {
    hide Apply, Cell, HaveStored, LockKey, CountFaults, RunFrom;
    var gather := Gather(cfg, user, device, n);
    if k == 0 {
      Gathering(cfg, user, device, n);
      assert gather + StoreAll(0) == gather;
      NoneStored(cfg, RunFrom(cfg, Init(0), gather), user, device, n);
    } else {
      Crowding(cfg, user, device, n, k - 1);
      var before, e := gather + StoreAll(k - 1), Store(k - 1, Name(k - 1));
      assert gather + StoreAll(k) == before + [e];
      RunSnoc(cfg, Init(0), before, e);
      CountSnoc(cfg, Init(0), before, e, user, device);
      OneMoreStores(cfg, RunFrom(cfg, Init(0), before), user, device, n, k - 1);
    }
  }

  /**
   Without the lock, or once logins outlive their leases, no limit holds: whatever the policy and its
   limit, some run ends with more sessions than any given number.
   */
  lemma OverrunBreaksBound(cfg: Config, user: string, device: Option<string>, n: nat) returns (events: seq<Event>)
    ensures |Cell(cfg, RunFrom(cfg, Init(0), events), user, device)| == n
    ensures CountFaults(cfg, Init(0), events, user, device) == 0 && RunFrom(cfg, Init(0), events).rotations == map[]
  {
    hide Apply, Cell, CountFaults, RunFrom;
    Crowding(cfg, user, device, n, n);
    events := Gather(cfg, user, device, n) + StoreAll(n);
  }

  /** The limit, in every timely run without faults and whenever no rotation is under way. */
  ghost predicate BoundedInEveryRun(cfg: Config, user: string, device: Option<string>) {
    forall events :: Timely(cfg, Init(0), events) && Clean(cfg, events, user, device) ==>
      |Cell(cfg, RunFrom(cfg, Init(0), events), user, device)| <= Bound(cfg)
  }

  ghost predicate Clean(cfg: Config, events: seq<Event>, user: string, device: Option<string>) {
    && CountFaults(cfg, Init(0), events, user, device) == 0
    && UnderWay(cfg, RunFrom(cfg, Init(0), events), user, device) == {}
  }

  lemma NoRotations(cfg: Config, s: Sys, user: string, device: Option<string>)
    requires s.rotations == map[]
    ensures UnderWay(cfg, s, user, device) == {}
  {
  }

  lemma CleanBound(cfg: Config, events: seq<Event>, user: string, device: Option<string>)
    requires cfg.locking && Timely(cfg, Init(0), events) && Limits(cfg, device) && Clean(cfg, events, user, device)
    ensures |Cell(cfg, RunFrom(cfg, Init(0), events), user, device)| <= Bound(cfg)
  {
    hide Apply, Cell, CountFaults, RunFrom, UnderWay, Timely, Limits, Bound;
    BoundHolds(cfg, 0, events, user, device);
  }

  /** A policy's limit holds in every timely run without faults exactly when login locking is on. */
  lemma BoundIffLocking(cfg: Config, user: string, device: Option<string>)
    requires Limits(cfg, device)
    ensures BoundedInEveryRun(cfg, user, device) <==> cfg.locking
  {
    hide Apply, Cell, CountFaults, RunFrom, UnderWay, InTime, Limits, Bound;
    if cfg.locking {
      forall events | Timely(cfg, Init(0), events) && Clean(cfg, events, user, device)
        ensures |Cell(cfg, RunFrom(cfg, Init(0), events), user, device)| <= Bound(cfg)
      {
        CleanBound(cfg, events, user, device);
      }
    } else {
      var events := OverrunBreaksBound(cfg, user, device, Bound(cfg) + 1);
      NoRotations(cfg, RunFrom(cfg, Init(0), events), user, device);
      assert Timely(cfg, Init(0), events) && Clean(cfg, events, user, device);
    }
  }

  // ---------- every fault counts ----------

  lemma {:induction false} RunAppend(cfg: Config, s: Sys, a: seq<Event>, b: seq<Event>)
    ensures RunFrom(cfg, s, a + b) == RunFrom(cfg, RunFrom(cfg, s, a), b)
  {
    hide Apply;
    if b == [] {
      assert a + b == a;
    } else {
      RunAppend(cfg, s, a, b[..|b| - 1]);
      assert (a + b)[..|a + b| - 1] == a + b[..|b| - 1];
    }
  }

  lemma {:induction false} CountAppend(cfg: Config, s: Sys, a: seq<Event>, b: seq<Event>, user: string,
                                       device: Option<string>)
    ensures CountFaults(cfg, s, a + b, user, device)
         == CountFaults(cfg, s, a, user, device) + CountFaults(cfg, RunFrom(cfg, s, a), b, user, device)
  {
    hide Apply, Faults, RunFrom;
    if b == [] {
      assert a + b == a;
    } else {
      CountAppend(cfg, s, a, b[..|b| - 1], user, device);
      RunAppend(cfg, s, a, b[..|b| - 1]);
      assert (a + b)[..|a + b| - 1] == a + b[..|b| - 1];
    }
  }

  lemma TimelyAppend(cfg: Config, s: Sys, a: seq<Event>, b: seq<Event>)
    requires Timely(cfg, s, a) && Timely(cfg, RunFrom(cfg, s, a), b)
    ensures Timely(cfg, s, a + b)
  {
    hide Apply, InTime, RunFrom;
    if cfg.locking {
      forall i | 0 <= i < |a + b| ensures InTime(RunFrom(cfg, s, (a + b)[..i]), (a + b)[i]) {
        if i < |a| {
          assert (a + b)[..i] == a[..i];
        } else {
          RunAppend(cfg, s, a, b[..i - |a|]);
          assert (a + b)[..i] == a + b[..i - |a|];
        }
      }
    }
  }

  lemma {:induction false} Unfolded(cfg: Config, s: Sys, es: seq<Event>, user: string, device: Option<string>)
    ensures RunFrom(cfg, s, es[..0]) == s && es[..|es|] == es && CountFaults(cfg, s, es[..0], user, device) == 0
    ensures forall k: nat :: k < |es| ==>
      && RunFrom(cfg, s, es[..k + 1]) == Apply(cfg, RunFrom(cfg, s, es[..k]), es[k])
      && CountFaults(cfg, s, es[..k + 1], user, device)
         == CountFaults(cfg, s, es[..k], user, device) + Faults(cfg, RunFrom(cfg, s, es[..k]), es[k], user, device)
  {
    hide Apply, Faults;
    forall k: nat | k < |es|
      ensures RunFrom(cfg, s, es[..k + 1]) == Apply(cfg, RunFrom(cfg, s, es[..k]), es[k])
      ensures CountFaults(cfg, s, es[..k + 1], user, device)
           == CountFaults(cfg, s, es[..k], user, device) + Faults(cfg, RunFrom(cfg, s, es[..k]), es[k], user, device)
    {
      assert es[..k + 1][..k] == es[..k];
    }
  }

  /** Nobody is logging in or rotating, and no lease is held. */
  ghost predicate Quiet(s: Sys) {
    s.procs == map[] && s.rotations == map[] && View(s.leases, s.now) == map[] && Known(s)
  }

  /** One login from start to end, with an exact listing and room for it. */
  lemma LoginStates(cfg: Config, s: Sys, user: string, device: Option<string>, found: seq<string>,
                    token: string, id: string, s1: Sys, s2: Sys, s3: Sys, s4: Sys)
    requires Quiet(s) && cfg.locking && cfg.lockTtl > 0 && Limits(cfg, device)
    requires Names(found) == Cell(cfg, s, user, device) && |found| < Bound(cfg)
    requires token !in s.tokens && id !in s.ids
    requires s1 == Apply(cfg, s, Begin(0, user, device, token)) && s2 == Apply(cfg, s1, List(0, found))
    requires s3 == Apply(cfg, s2, Store(0, id)) && s4 == Apply(cfg, s3, Finish(0))
    ensures Quiet(s4) && Cell(cfg, s4, user, device) == Cell(cfg, s, user, device) + {id}
    ensures InTime(s2, Store(0, id)) && Faults(cfg, s1, List(0, found), user, device) == 0
  {
    hide Apply, LockKey, Limits, Bound, Cell, Quiet, Known, Faults;
    LoginBegins(cfg, s, user, device, token, s1);
    SameCellFor(cfg, s, s1, user, device);
    LoginLists(cfg, s1, user, device, found, s2);
    QuietKnown(s, s2);
    SameCellFor(cfg, s, s2, user, device);
    LoginStores(cfg, s2, user, device, id, s3);
    LoginEnds(cfg, s3, LockKey(user, device), token, s.now + cfg.lockTtl, s4);
    SameCellFor(cfg, s3, s4, user, device);
    QuietAgain(s, s4, LockKey(user, device), Hold(token, s.now + cfg.lockTtl), id);
  }

  lemma SameCellFor(cfg: Config, s: Sys, s1: Sys, user: string, device: Option<string>)
    requires s1.sessions == s.sessions
    ensures Cell(cfg, s1, user, device) == Cell(cfg, s, user, device)
  {
    hide Counted;
  }

  lemma QuietKnown(s: Sys, s1: Sys)
    requires Quiet(s) && s1.sessions == s.sessions && s1.ids == s.ids && s1.rotations == s.rotations
    ensures Known(s1)
  {
  }

  lemma QuietAgain(s: Sys, s1: Sys, key: string, hold: Hold, id: string)
    requires Quiet(s) && s1.now == s.now && s1.procs == map[] && s1.rotations == s.rotations
    requires s1.sessions.Keys == s.sessions.Keys + {id} && s1.ids == s.ids + {id}
    requires s1.leases == s.leases[key := hold] - {key}
    ensures Quiet(s1)
  {
  }

  lemma LoginEnds(cfg: Config, s: Sys, key: string, token: string, leaseEnd: int, s1: Sys)
    requires s.procs.Keys == {0} && LockKey(s.procs[0].user, s.procs[0].device) == key && s.procs[0].token == token
    requires cfg.locking && key in s.leases && s.leases[key] == Hold(token, leaseEnd)
    requires s1 == Apply(cfg, s, Finish(0))
    ensures s1 == s.(procs := map[], leases := s.leases - {key})
  {
    assert s.procs - {0} == map[];
  }

  lemma LoginBegins(cfg: Config, s: Sys, user: string, device: Option<string>, token: string, s1: Sys)
    requires Quiet(s) && cfg.locking && token !in s.tokens && s1 == Apply(cfg, s, Begin(0, user, device, token))
    ensures s1 == s.(procs := map[0 := Proc(user, device, token, s.now + cfg.lockTtl, Acquired)],
                     tokens := s.tokens + {token},
                     leases := s.leases[LockKey(user, device) := Hold(token, s.now + cfg.lockTtl)])
  {
    assert LockKey(user, device) !in View(s.leases, s.now);
  }

  lemma LoginLists(cfg: Config, s: Sys, user: string, device: Option<string>, found: seq<string>, s1: Sys)
    requires 0 in s.procs && s.procs[0].stage == Acquired && s.procs[0].device == device && Limits(cfg, device)
    requires Names(found) == Cell(cfg, s, user, device) && |found| < Bound(cfg)
    requires s1 == Apply(cfg, s, List(0, found))
    ensures s1 == s.(procs := s.procs[0 := s.procs[0].(stage := Clearing(found, 0, 0))])
    ensures Faults(cfg, s, List(0, found), user, device) == 0
  {
    assert Kept(cfg, s, user, device) - Names(found) == {};
  }

  lemma LoginStores(cfg: Config, s: Sys, user: string, device: Option<string>, id: string, s1: Sys)
    requires 0 in s.procs && s.procs[0].stage.Clearing? && s.procs[0].stage.done == s.procs[0].stage.target
    requires s.procs[0].user == user && s.procs[0].device == device && id !in s.ids && Known(s)
    requires s1 == Apply(cfg, s, Store(0, id))
    ensures s1 == s.(sessions := s.sessions[id := SessionData(user, device, s.now)], ids := s.ids + {id},
                     procs := s.procs[0 := s.procs[0].(stage := Stored)])
    ensures Cell(cfg, s1, user, device) == Cell(cfg, s, user, device) + {id}
  {
  }

  lemma {:induction false} Enumerate(ids: set<string>) returns (found: seq<string>)
    ensures Names(found) == ids && |found| == |ids|
  {
    if ids == {} {
      found := [];
    } else {
      var id :| id in ids;
      var rest := Enumerate(ids - {id});
      found := rest + [id];
      assert Names(found) == Names(rest) + {id};
    }
  }

  lemma OneMoreLogin(cfg: Config, s: Sys, user: string, device: Option<string>) returns (es: seq<Event>)
    requires Quiet(s) && cfg.locking && cfg.lockTtl > 0 && Limits(cfg, device)
    requires |Cell(cfg, s, user, device)| < Bound(cfg)
    ensures Quiet(RunFrom(cfg, s, es)) && Timely(cfg, s, es) && CountFaults(cfg, s, es, user, device) == 0
    ensures |Cell(cfg, RunFrom(cfg, s, es), user, device)| == |Cell(cfg, s, user, device)| + 1
  {
    hide Apply, RunFrom, CountFaults, Quiet, Cell, Limits, Bound;
    var found := Enumerate(Cell(cfg, s, user, device));
    var token := FreshName(s.tokens);
    var id := FreshName(s.ids);
    es := [Begin(0, user, device, token), List(0, found), Store(0, id), Finish(0)];
    Unfolded(cfg, s, es, user, device);
    LoginStates(cfg, s, user, device, found, token, id, RunFrom(cfg, s, es[..1]), RunFrom(cfg, s, es[..2]),
                RunFrom(cfg, s, es[..3]), RunFrom(cfg, s, es[..4]));
    NewInCell(cfg, s, id, user, device);
    assert forall i :: 0 <= i < 4 ==> InTime(RunFrom(cfg, s, es[..i]), es[i]);
  }

  lemma NewInCell(cfg: Config, s: Sys, id: string, user: string, device: Option<string>)
    requires Quiet(s) && id !in s.ids
    ensures id !in Cell(cfg, s, user, device)
  {
  }

  /** Two rotations of one session that both read before either deletes. */
  function TwoRotations(x: string, y: string, z: string): seq<Event> {
    [RotateRead(0, x), RotateRead(1, x), RotateStore(0, y), RotateDelete(0), RotateStore(1, z), RotateDelete(1)]
  }

  lemma RotationStates(cfg: Config, s: Sys, user: string, device: Option<string>, x: string, y: string, z: string,
                       s1: Sys, s2: Sys, s3: Sys, s4: Sys, s5: Sys, s6: Sys)
    requires Quiet(s) && x in Cell(cfg, s, user, device) && y !in s.ids && z !in s.ids && y != z
    requires s1 == Apply(cfg, s, RotateRead(0, x)) && s2 == Apply(cfg, s1, RotateRead(1, x))
    requires s3 == Apply(cfg, s2, RotateStore(0, y)) && s4 == Apply(cfg, s3, RotateDelete(0))
    requires s5 == Apply(cfg, s4, RotateStore(1, z)) && s6 == Apply(cfg, s5, RotateDelete(1))
    ensures Quiet(s6) && Cell(cfg, s6, user, device) == Cell(cfg, s, user, device) - {x} + {y, z}
    ensures Faults(cfg, s2, RotateStore(0, y), user, device) == 0 && Faults(cfg, s4, RotateStore(1, z), user, device) == 1
  {
    hide Apply, Counted, Faults;
    var data := s.sessions[x];
    BothRead(cfg, s, x, s1, s2);
    FirstSwaps(cfg, s, s2, user, device, x, y, s3, s4);
    SecondSwaps(cfg, s, s4, user, device, x, y, z, s5, s6);
    QuietAfter(s, s6, data);
  }

  lemma BothRead(cfg: Config, s: Sys, x: string, s1: Sys, s2: Sys)
    requires s.rotations == map[] && x in s.sessions
    requires s1 == Apply(cfg, s, RotateRead(0, x)) && s2 == Apply(cfg, s1, RotateRead(1, x))
    ensures s2 == s.(rotations := map[0 := Reading(x, s.sessions[x]), 1 := Reading(x, s.sessions[x])])
  {
  }

  lemma FirstSwaps(cfg: Config, s: Sys, s2: Sys, user: string, device: Option<string>, x: string, y: string,
                   s3: Sys, s4: Sys)
    requires x in Cell(cfg, s, user, device) && y !in s.ids && s.procs == map[]
    requires s2 == s.(rotations := map[0 := Reading(x, s.sessions[x]), 1 := Reading(x, s.sessions[x])])
    requires s3 == Apply(cfg, s2, RotateStore(0, y)) && s4 == Apply(cfg, s3, RotateDelete(0))
    ensures s4 == s.(sessions := s.sessions[y := s.sessions[x]] - {x}, rotations := map[1 := Reading(x, s.sessions[x])],
                     ids := s.ids + {y})
    ensures Faults(cfg, s2, RotateStore(0, y), user, device) == 0
  {
    hide Counted;
    assert Doomed(s2) == {} && x in Kept(cfg, s2, user, device);
    assert s3.rotations[0] == Swapped(x) && s3.rotations[1] == Reading(x, s.sessions[x]);
    assert s3.rotations - {0} == map[1 := Reading(x, s.sessions[x])];
  }

  lemma SecondSwaps(cfg: Config, s: Sys, s4: Sys, user: string, device: Option<string>, x: string, y: string, z: string,
                    s5: Sys, s6: Sys)
    requires x in Cell(cfg, s, user, device) && y !in s.ids && z !in s.ids && y != z
    requires s4 == s.(sessions := s.sessions[y := s.sessions[x]] - {x}, rotations := map[1 := Reading(x, s.sessions[x])],
                      ids := s.ids + {y})
    requires s5 == Apply(cfg, s4, RotateStore(1, z)) && s6 == Apply(cfg, s5, RotateDelete(1))
    ensures s6 == s.(sessions := (s.sessions[y := s.sessions[x]] - {x})[z := s.sessions[x]] - {x}, rotations := map[],
                     ids := s.ids + {y} + {z})
    ensures Faults(cfg, s4, RotateStore(1, z), user, device) == 1
  {
    hide Counted;
    assert x !in s4.sessions;
    assert s5.rotations == map[1 := Swapped(x)];
  }

  lemma QuietAfter(s: Sys, s6: Sys, data: SessionData)
    requires Quiet(s) && s6 == s.(sessions := s6.sessions, rotations := map[], ids := s6.ids)
    requires forall id :: id in s6.sessions ==> id in s6.ids
    ensures Quiet(s6)
  {
  }

  lemma OneMoreFault(cfg: Config, s: Sys, user: string, device: Option<string>) returns (es: seq<Event>)
    requires Quiet(s) && Cell(cfg, s, user, device) != {}
    ensures Quiet(RunFrom(cfg, s, es)) && Timely(cfg, s, es) && CountFaults(cfg, s, es, user, device) == 1
    ensures |Cell(cfg, RunFrom(cfg, s, es), user, device)| == |Cell(cfg, s, user, device)| + 1
  {
    hide Apply, RunFrom, CountFaults, Quiet, Cell;
    var x :| x in Cell(cfg, s, user, device);
    var y := FreshName(s.ids);
    var z := FreshName(s.ids + {y});
    es := TwoRotations(x, y, z);
    Unfolded(cfg, s, es, user, device);
    RotationStates(cfg, s, user, device, x, y, z, RunFrom(cfg, s, es[..1]), RunFrom(cfg, s, es[..2]),
                   RunFrom(cfg, s, es[..3]), RunFrom(cfg, s, es[..4]), RunFrom(cfg, s, es[..5]), RunFrom(cfg, s, es[..6]));
    NewInCell(cfg, s, y, user, device);
    NewInCell(cfg, s, z, user, device);
    TwoForOne(Cell(cfg, s, user, device), x, y, z);
    assert forall i :: 0 <= i < 6 ==> InTime(RunFrom(cfg, s, es[..i]), es[i]);
  }

  lemma TwoForOne(cell: set<string>, x: string, y: string, z: string)
    requires x in cell && y !in cell && z !in cell && y != z
    ensures |cell - {x} + {y, z}| == |cell| + 1
  {
    assert cell - {x} + {y, z} == (cell - {x} + {y}) + {z};
  }

  ghost predicate Reached(cfg: Config, events: seq<Event>, user: string, device: Option<string>, n: nat, k: nat) {
    && Timely(cfg, Init(0), events) && Quiet(RunFrom(cfg, Init(0), events))
    && CountFaults(cfg, Init(0), events, user, device) == k
    && |Cell(cfg, RunFrom(cfg, Init(0), events), user, device)| == n
  }

  lemma Onwards(cfg: Config, events: seq<Event>, es: seq<Event>, user: string, device: Option<string>, n: nat,
                k: nat, d: nat)
    requires Reached(cfg, events, user, device, n, k)
    requires
      var s := RunFrom(cfg, Init(0), events);
      && Quiet(RunFrom(cfg, s, es)) && Timely(cfg, s, es) && CountFaults(cfg, s, es, user, device) == d
      && |Cell(cfg, RunFrom(cfg, s, es), user, device)| == n + 1
    ensures Reached(cfg, events + es, user, device, n + 1, k + d)
  {
    hide Apply, RunFrom, CountFaults, Quiet, Cell, Timely;
    RunAppend(cfg, Init(0), events, es);
    CountAppend(cfg, Init(0), events, es, user, device);
    TimelyAppend(cfg, Init(0), events, es);
  }

  lemma NothingYet(cfg: Config, user: string, device: Option<string>)
    ensures Reached(cfg, [], user, device, 0, 0)
  {
    assert Cell(cfg, Init(0), user, device) == {};
  }

  /** Logins alone fill a cell up to its bound. */
  lemma {:induction false} FillUp(cfg: Config, user: string, device: Option<string>, n: nat) returns (events: seq<Event>)
    requires cfg.locking && cfg.lockTtl > 0 && Limits(cfg, device) && n <= Bound(cfg)
    ensures Reached(cfg, events, user, device, n, 0)
  {
    hide Apply, RunFrom, CountFaults, Quiet, Cell, Timely, Limits, Bound;
    if n == 0 {
      events := [];
      NothingYet(cfg, user, device);
    } else {
      var before := FillUp(cfg, user, device, n - 1);
      var es := OneMoreLogin(cfg, RunFrom(cfg, Init(0), before), user, device);
      Onwards(cfg, before, es, user, device, n - 1, 0, 0);
      events := before + es;
    }
  }

  /** Every fault can be one session over the limit, for good. */
  lemma {:induction false} FaultsTight(cfg: Config, user: string, device: Option<string>,
                                       k: nat) returns (events: seq<Event>)
    requires cfg.locking && cfg.lockTtl > 0 && Limits(cfg, device)
    ensures Reached(cfg, events, user, device, Bound(cfg) + k, k)
  {
    hide Apply, RunFrom, CountFaults, Quiet, Cell, Timely, Limits;
    if k == 0 {
      events := FillUp(cfg, user, device, Bound(cfg));
    } else {
      var before := FaultsTight(cfg, user, device, k - 1);
      var es := OneMoreFault(cfg, RunFrom(cfg, Init(0), before), user, device);
      Onwards(cfg, before, es, user, device, Bound(cfg) + (k - 1), k - 1, 1);
      events := before + es;
    }
  }

  /** Nothing is stored inside a lease of no length. */
  ghost predicate Idle(s: Sys) {
    s.sessions == map[] && s.rotations == map[] && (forall p :: p in s.procs ==> s.procs[p].leaseEnd <= s.now)
  }

  lemma StepIdle(cfg: Config, s: Sys, e: Event)
    requires cfg.locking && cfg.lockTtl == 0 && Idle(s) && InTime(s, e)
    ensures Idle(Apply(cfg, s, e))
  {
    hide LockKey, Limits, Surplus, LeaseStep;
  }

  lemma {:induction false} RunIdle(cfg: Config, events: seq<Event>)
    requires cfg.locking && cfg.lockTtl == 0 && Timely(cfg, Init(0), events)
    ensures Idle(RunFrom(cfg, Init(0), events))
  {
    hide Apply, InTime, Timely;
    if events != [] {
      TimelyPrefix(cfg, Init(0), events);
      RunIdle(cfg, events[..|events| - 1]);
      StepIdle(cfg, RunFrom(cfg, Init(0), events[..|events| - 1]), events[|events| - 1]);
    }
  }

  lemma NobodyIdle(cfg: Config, s: Sys, user: string, d1: Option<string>, d2: Option<string>)
    requires Idle(s)
    ensures Cell(cfg, s, user, d1) == {} && OnDevices(s, user, d1, d2) == {}
  {
  }

  ghost predicate OverAtMost(cfg: Config, user: string, device: Option<string>, k: nat, m: nat) {
    forall events ::
      Timely(cfg, Init(0), events) && CountFaults(cfg, Init(0), events, user, device) <= k
      && UnderWay(cfg, RunFrom(cfg, Init(0), events), user, device) == {} ==>
        |Cell(cfg, RunFrom(cfg, Init(0), events), user, device)| <= Bound(cfg) + m
  }

  /**
   Timely runs with at most k faults stay within m of the limit exactly when k <= m, or leases have no length
   and no run stores anything in time.
   */
  lemma FaultsIff(cfg: Config, user: string, device: Option<string>, k: nat, m: nat)
    requires cfg.locking && Limits(cfg, device)
    ensures OverAtMost(cfg, user, device, k, m) <==> k <= m || cfg.lockTtl == 0
  {
    hide Apply, RunFrom, CountFaults, Cell, Timely, Limits, UnderWay, Bound, OnDevices, Idle;
    if k <= m || cfg.lockTtl == 0 {
      forall events | Timely(cfg, Init(0), events) && CountFaults(cfg, Init(0), events, user, device) <= k
          && UnderWay(cfg, RunFrom(cfg, Init(0), events), user, device) == {}
        ensures |Cell(cfg, RunFrom(cfg, Init(0), events), user, device)| <= Bound(cfg) + m
      {
        if cfg.lockTtl == 0 {
          RunIdle(cfg, events);
          NobodyIdle(cfg, RunFrom(cfg, Init(0), events), user, device, device);
        } else {
          BoundHolds(cfg, 0, events, user, device);
        }
      }
    } else {
      var events := FaultsTight(cfg, user, device, k);
      NoRotations(cfg, RunFrom(cfg, Init(0), events), user, device);
    }
  }

  // ---------- one login, undisturbed ----------

  /** The first n of what is to be deleted, with nothing in between. */
  lemma {:induction false} Deletes(cfg: Config, s: Sys, p: nat, n: nat) returns (events: seq<Event>)
    requires p in s.procs && s.procs[p].stage.Clearing? && s.procs[p].stage.done == 0
    requires n <= s.procs[p].stage.target <= |s.procs[p].stage.listed|
    ensures
      var stage := s.procs[p].stage;
      && RunFrom(cfg, s, events)
         == s.(sessions := s.sessions - Names(stage.listed[..n]),
               procs := s.procs[p := s.procs[p].(stage := stage.(done := n))])
      && Timely(cfg, s, events) && |events| == n
  {
    hide RunFrom, Timely;
    var listed := s.procs[p].stage.listed;
    if n == 0 {
      events := [];
      NothingRuns(cfg, s);
      assert Names(listed[..0]) == {};
      assert s.procs[p := s.procs[p].(stage := s.procs[p].stage.(done := 0))] == s.procs;
    } else {
      var before := Deletes(cfg, s, p, n - 1);
      var s1 := RunFrom(cfg, s, before);
      DeletesNext(cfg, s, p, n, s1);
      RunSnoc(cfg, s, before, DeleteOne(p));
      OneTimely(cfg, s1, DeleteOne(p));
      TimelyAppend(cfg, s, before, [DeleteOne(p)]);
      events := before + [DeleteOne(p)];
    }
  }

  lemma NothingRuns(cfg: Config, s: Sys)
    ensures RunFrom(cfg, s, []) == s && Timely(cfg, s, [])
  {
  }

  lemma OneTimely(cfg: Config, s: Sys, e: Event)
    requires InTime(s, e)
    ensures RunFrom(cfg, s, [e]) == Apply(cfg, s, e) && Timely(cfg, s, [e])
  {
    hide Apply, InTime;
    assert [e][..0] == [];
    NothingRuns(cfg, s);
  }

  lemma DeletesNext(cfg: Config, s: Sys, p: nat, n: nat, s1: Sys)
    requires p in s.procs && s.procs[p].stage.Clearing? && s.procs[p].stage.done == 0
    requires 0 < n <= s.procs[p].stage.target <= |s.procs[p].stage.listed|
    requires
      var stage := s.procs[p].stage;
      s1 == s.(sessions := s.sessions - Names(stage.listed[..n - 1]),
               procs := s.procs[p := s.procs[p].(stage := stage.(done := n - 1))])
    ensures
      var stage := s.procs[p].stage;
      Apply(cfg, s1, DeleteOne(p)) == s.(sessions := s.sessions - Names(stage.listed[..n]),
                                         procs := s.procs[p := s.procs[p].(stage := stage.(done := n))])
  {
    var listed := s.procs[p].stage.listed;
    assert listed[..n] == listed[..n - 1] + [listed[n - 1]];
    assert Names(listed[..n]) == Names(listed[..n - 1]) + {listed[n - 1]};
    assert s.sessions - Names(listed[..n]) == s.sessions - Names(listed[..n - 1]) - {listed[n - 1]};
  }

  /** Taking the lock and listing. */
  lemma ListsFirst(cfg: Config, s: Sys, p: nat, user: string, device: Option<string>, token: string,
                   found: seq<string>) returns (events: seq<Event>, s': Sys)
    requires p !in s.procs && token !in s.tokens && (cfg.locking ==> LockKey(user, device) !in View(s.leases, s.now))
    ensures RunFrom(cfg, s, events) == s' && Timely(cfg, s, events)
    ensures
      var listed := if Limits(cfg, device) then found else [];
      && p in s'.procs && s'.procs == s.procs[p := s'.procs[p]] && s'.sessions == s.sessions && s'.rotations == s.rotations
      && s'.now == s.now && s'.ids == s.ids && s'.procs[p].stage == Clearing(listed, 0, Surplus(cfg, |listed|))
      && s'.procs[p].user == user && s'.procs[p].device == device && s'.procs[p].token == token
      && (cfg.locking ==> s'.procs[p].leaseEnd == s.now + cfg.lockTtl
                          && s'.leases == s.leases[LockKey(user, device) := Hold(token, s.now + cfg.lockTtl)])
      && (!cfg.locking ==> s'.leases == s.leases)
  {
    hide RunFrom, Timely, LockKey, Surplus, Limits;
    var e0, e1 := Begin(p, user, device, token), List(p, found);
    var s1 := Apply(cfg, s, e0);
    s' := Apply(cfg, s1, e1);
    OneTimely(cfg, s, e0);
    OneTimely(cfg, s1, e1);
    TimelyAppend(cfg, s, [e0], [e1]);
    RunAppend(cfg, s, [e0], [e1]);
    events := [e0] + [e1];
  }

  /** Storing and releasing the lock. */
  lemma StoresLast(cfg: Config, s: Sys, p: nat, id: string) returns (events: seq<Event>, s': Sys)
    requires CanStore(s, p, id) && s.now < s.procs[p].leaseEnd
    ensures RunFrom(cfg, s, events) == s' && Timely(cfg, s, events)
    ensures s'.sessions == s.sessions[id := SessionData(s.procs[p].user, s.procs[p].device, s.now)]
    ensures s'.procs == s.procs - {p} && s'.rotations == s.rotations && s'.now == s.now
    ensures
      var key := LockKey(s.procs[p].user, s.procs[p].device);
      s'.leases == if cfg.locking && key in s.leases && s.leases[key].token == s.procs[p].token then s.leases - {key}
                   else s.leases
  {
    hide RunFrom, Timely, LockKey;
    var s1 := Apply(cfg, s, Store(p, id));
    s' := Apply(cfg, s1, Finish(p));
    OneTimely(cfg, s, Store(p, id));
    OneTimely(cfg, s1, Finish(p));
    TimelyAppend(cfg, s, [Store(p, id)], [Finish(p)]);
    RunAppend(cfg, s, [Store(p, id)], [Finish(p)]);
    assert s.procs[p := s.procs[p].(stage := Stored)] - {p} == s.procs - {p};
    events := [Store(p, id)] + [Finish(p)];
  }

  /**
   A login that nothing comes between, beside others that wait: of what it lists, the oldest past the limit go,
   its session comes, and the lock is free again.
   */
  lemma LoginUndisturbed(cfg: Config, s: Sys, p: nat, user: string, device: Option<string>, token: string,
                         found: seq<string>, id: string) returns (events: seq<Event>)
    requires p !in s.procs && token !in s.tokens && id !in s.ids
    requires cfg.locking && cfg.lockTtl > 0 && LockKey(user, device) !in View(s.leases, s.now)
    ensures Timely(cfg, s, events)
    ensures
      var s' := RunFrom(cfg, s, events);
      var over := if !Limits(cfg, device) then 0 else if cfg.policy.Single? then |found|
                  else Max(0, |found| - Max(cfg.maxSame, 1) + 1);
      && over <= |found|
      && s'.sessions == (s.sessions - Names(found[..over]))[id := SessionData(user, device, s.now)]
      && s'.procs == s.procs && s'.rotations == s.rotations && s'.now == s.now
      && LockKey(user, device) !in s'.leases && s'.leases == s.leases - {LockKey(user, device)}
  {
    hide RunFrom, Timely, LockKey, Limits, Names;
    var first, s1 := ListsFirst(cfg, s, p, user, device, token, found);
    var stage := s1.procs[p].stage;
    var second := Deletes(cfg, s1, p, stage.target);
    var s2 := RunFrom(cfg, s1, second);
    var third, s3 := StoresLast(cfg, s2, p, id);
    RunAppend(cfg, s, first, second);
    TimelyAppend(cfg, s, first, second);
    RunAppend(cfg, s, first + second, third);
    TimelyAppend(cfg, s, first + second, third);
    events := first + second + third;
    if !Limits(cfg, device) {
      assert found[..0] == stage.listed[..0];
    }
    assert s1.procs[p := s2.procs[p]] - {p} == s.procs;
  }

  /** Without locking a login begins at once, whoever else does. */
  lemma NobodyWaitsUnlocked(cfg: Config, s: Sys, p: nat, user: string, device: Option<string>, token: string)
    requires !cfg.locking && p !in s.procs && token !in s.tokens
    ensures p in Apply(cfg, s, Begin(p, user, device, token)).procs
    ensures Apply(cfg, s, Begin(p, user, device, token)).leases == s.leases
  {
  }

  // ---------- `single` across devices ----------

  ghost function OnDevices(s: Sys, user: string, d1: Option<string>, d2: Option<string>): set<string> {
    set id | id in s.sessions && s.sessions[id].userId == user && s.sessions[id].device in {d1, d2}
  }

  /** Two logins of one user under different lock keys, both listing before either stores. */
  function SideBySide(user: string, d1: Option<string>, d2: Option<string>): seq<Event> {
    [Begin(0, user, d1, Name(0)), Begin(1, user, d2, Name(1)), List(0, []), List(1, []),
     Store(0, Name(0)), Store(1, Name(1))]
  }

  lemma BothBegin(cfg: Config, user: string, d1: Option<string>, d2: Option<string>)
    requires cfg.locking && LockKey(user, d1) != LockKey(user, d2)
    ensures
      var s := Apply(cfg, Apply(cfg, Init(0), Begin(0, user, d1, Name(0))), Begin(1, user, d2, Name(1)));
      && s.procs == map[0 := Proc(user, d1, Name(0), cfg.lockTtl, Acquired),
                        1 := Proc(user, d2, Name(1), cfg.lockTtl, Acquired)]
      && s.now == 0 && s.sessions == map[] && s.ids == {} && s.rotations == map[]
  {
    NameInjective(0, 1);
    assert LockKey(user, d1) !in View(map[], 0);
    var s1 := Apply(cfg, Init(0), Begin(0, user, d1, Name(0)));
    assert LockKey(user, d2) !in View(s1.leases, 0);
  }

  lemma BothStore(cfg: Config, s: Sys, user: string, d1: Option<string>, d2: Option<string>)
    requires s.sessions == map[] && s.ids == {} && s.procs.Keys == {0, 1} && s.rotations == map[]
    requires Ready(s, user, d1, 0) && Ready(s, user, d2, 1)
    ensures |OnDevices(Apply(cfg, Apply(cfg, s, Store(0, Name(0))), Store(1, Name(1))), user, d1, d2)| == 2
  {
    NameInjective(0, 1);
    var s1 := Apply(cfg, s, Store(0, Name(0)));
    assert s1.sessions == map[Name(0) := SessionData(user, d1, s.now)] && Ready(s1, user, d2, 1);
    var s2 := Apply(cfg, s1, Store(1, Name(1)));
    assert s2.sessions == map[Name(0) := SessionData(user, d1, s.now), Name(1) := SessionData(user, d2, s.now)];
    assert OnDevices(s2, user, d1, d2) == {Name(0), Name(1)};
  }

  lemma SideBySideStates(cfg: Config, user: string, d1: Option<string>, d2: Option<string>,
                         s1: Sys, s2: Sys, s3: Sys, s4: Sys, s5: Sys, s6: Sys)
    requires cfg.locking && cfg.lockTtl > 0 && LockKey(user, d1) != LockKey(user, d2)
    requires s1 == Apply(cfg, Init(0), Begin(0, user, d1, Name(0))) && s2 == Apply(cfg, s1, Begin(1, user, d2, Name(1)))
    requires s3 == Apply(cfg, s2, List(0, [])) && s4 == Apply(cfg, s3, List(1, []))
    requires s5 == Apply(cfg, s4, Store(0, Name(0))) && s6 == Apply(cfg, s5, Store(1, Name(1)))
    ensures InTime(s4, Store(0, Name(0))) && InTime(s5, Store(1, Name(1)))
    ensures s2.sessions == s3.sessions == map[] && s6.rotations == map[]
    ensures |OnDevices(s6, user, d1, d2)| == 2
  {
    BothBegin(cfg, user, d1, d2);
    ListNothing(cfg, s2, 0);
    ListNothing(cfg, s3, 1);
    BothStore(cfg, s4, user, d1, d2);
    assert s4.procs[0].leaseEnd == cfg.lockTtl && s5.procs[1].leaseEnd == cfg.lockTtl && s4.now == s5.now == 0;
  }

  lemma TwoSessions(cfg: Config, user: string, d1: Option<string>, d2: Option<string>)
    requires cfg.locking && cfg.lockTtl > 0 && LockKey(user, d1) != LockKey(user, d2)
    ensures Timely(cfg, Init(0), SideBySide(user, d1, d2)) && Clean(cfg, SideBySide(user, d1, d2), user, d1)
    ensures |OnDevices(RunFrom(cfg, Init(0), SideBySide(user, d1, d2)), user, d1, d2)| == 2
  {
    hide Apply, RunFrom, CountFaults, OnDevices, LockKey, Init, Name, UnderWay, Kept;
    var es, s := SideBySide(user, d1, d2), Init(0);
    Unfolded(cfg, s, es, user, d1);
    SideBySideStates(cfg, user, d1, d2, RunFrom(cfg, s, es[..1]), RunFrom(cfg, s, es[..2]), RunFrom(cfg, s, es[..3]),
                     RunFrom(cfg, s, es[..4]), RunFrom(cfg, s, es[..5]), RunFrom(cfg, s, es[..6]));
    NothingMissed(cfg, RunFrom(cfg, s, es[..2]), es[2], user, d1);
    NothingMissed(cfg, RunFrom(cfg, s, es[..3]), es[3], user, d1);
    NoRotations(cfg, RunFrom(cfg, s, es), user, d1);
    assert forall i :: 0 <= i < 6 ==> InTime(RunFrom(cfg, s, es[..i]), es[i]);
  }

  /** At most one session on the two devices, in every timely run without faults. */
  ghost predicate OneSession(cfg: Config, user: string, d1: Option<string>, d2: Option<string>) {
    forall events :: Timely(cfg, Init(0), events) && Clean(cfg, events, user, d1) ==>
      |OnDevices(RunFrom(cfg, Init(0), events), user, d1, d2)| <= 1
  }

  /** A device's own name, or the one all nameless devices have. */
  ghost function Named(device: Option<string>): string {
    if device.Some? && device.value != "" then device.value else "unknown"
  }

  lemma SameKeyIff(user: string, d1: Option<string>, d2: Option<string>)
    ensures LockKey(user, d1) == LockKey(user, d2) <==> Named(d1) == Named(d2)
  {
    var x, y, n := LockKey(user, d1), LockKey(user, d2), |user| + 7;
    assert x[n..] == Named(d1) && y[n..] == Named(d2);
  }

  /**
   `single` keeps a user's logins on two devices down to one session in every timely run exactly when
   the two devices go by one name, as those without one do with a device called "unknown", or leases have
   no length.
   */
  lemma SingleIffOneKey(cfg: Config, user: string, d1: Option<string>, d2: Option<string>)
    requires cfg.policy.Single? && cfg.locking
    ensures OneSession(cfg, user, d1, d2) <==> Named(d1) == Named(d2) || cfg.lockTtl == 0
  {
    SameKeyIff(user, d1, d2);
    hide Apply, RunFrom, CountFaults, Timely, UnderWay, Idle;
    if LockKey(user, d1) == LockKey(user, d2) || cfg.lockTtl == 0 {
      forall events | Timely(cfg, Init(0), events) && Clean(cfg, events, user, d1)
        ensures |OnDevices(RunFrom(cfg, Init(0), events), user, d1, d2)| <= 1
      {
        var s := RunFrom(cfg, Init(0), events);
        if cfg.lockTtl == 0 {
          RunIdle(cfg, events);
          NobodyIdle(cfg, s, user, d1, d2);
        } else {
          CleanBound(cfg, events, user, d1);
          SubsetSize(OnDevices(s, user, d1, d2), Cell(cfg, s, user, d1));
        }
      }
    } else {
      TwoSessions(cfg, user, d1, d2);
    }
  }

  // ---------- a rotation and a logout ----------

  /** A session ended after a rotation has read it comes back under its new id, unless the rotation gives up. */
  lemma EndedComesBack(cfg: Config, s: Sys, r: nat, x: string, y: string)
    requires r !in s.rotations && x in s.sessions && y !in s.ids
    ensures
      var s1 := Apply(cfg, Apply(cfg, s, RotateRead(r, x)), Remove(x));
      && x !in s1.sessions
      && Apply(cfg, s1, RotateStore(r, y)).sessions == (s.sessions - {x})[y := s.sessions[x]]
      && Apply(cfg, Apply(cfg, s1, RotateQuit(r)), RotateStore(r, y)).sessions == s.sessions - {x}
  {
  }
}
