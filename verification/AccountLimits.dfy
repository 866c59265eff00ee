/**
 Where the account limit of a device ends: two logins at once pass it by one account, one login beside the
 rotations of those who are there passes it again and again, and every fault of a run can count.
 */
module AccountLimits {
  import opened Js
  import opened Sessions
  import opened LoginPolicy
  import opened AccountProtocol

  // ---------- runs put together ----------

  /** The events lead from s to s', never with more than c logins and rotations side by side. */
  ghost predicate Leads(cfg: Config, s: Sys, events: seq<Event>, s': Sys, c: nat) {
    RunFrom(cfg, s, events) == s' && Within(cfg, s, events, c)
  }

  lemma {:induction false} RunAppend(cfg: Config, s: Sys, a: seq<Event>, b: seq<Event>)
    ensures RunFrom(cfg, s, a + b) == RunFrom(cfg, RunFrom(cfg, s, a), b)
  {
    hide Apply;
    if b == [] {
      assert a + b == a;
    } else {
      RunAppend(cfg, s, a, b[..|b| - 1]);
      assert (a + b)[..|a + b| - 1] == a + b[..|b| - 1];
    }
  }

  lemma Then(cfg: Config, s: Sys, a: seq<Event>, s1: Sys, b: seq<Event>, s2: Sys, c: nat)
    requires Leads(cfg, s, a, s1, c) && Leads(cfg, s1, b, s2, c)
    ensures Leads(cfg, s, a + b, s2, c)
  {
    hide Apply, RunFrom, AtOnce;
    RunAppend(cfg, s, a, b);
    forall k | 0 <= k <= |a + b| ensures AtOnce(RunFrom(cfg, s, (a + b)[..k])) <= c {
      if k <= |a| {
        assert (a + b)[..k] == a[..k];
      } else {
        RunAppend(cfg, s, a, b[..k - |a|]);
        assert (a + b)[..k] == a + b[..k - |a|];
      }
    }
  }

  lemma Once(cfg: Config, s: Sys, e: Event, s': Sys, c: nat)
    requires s' == Apply(cfg, s, e) && AtOnce(s) <= c && AtOnce(s') <= c
    ensures Leads(cfg, s, [e], s', c)
  {
    hide Apply, AtOnce;
    assert [e][..0] == [] && [e][..1] == [e];
    assert RunFrom(cfg, s, []) == s;
  }

  lemma ThenOne(cfg: Config, s: Sys, a: seq<Event>, s1: Sys, e: Event, s2: Sys, c: nat)
    requires Leads(cfg, s, a, s1, c) && s2 == Apply(cfg, s1, e) && AtOnce(s2) <= c
    ensures Leads(cfg, s, a + [e], s2, c)
  {
    hide Apply, AtOnce, RunFrom;
    assert a[..|a|] == a;
    assert AtOnce(s1) <= c;
    Once(cfg, s1, e, s2, c);
    Then(cfg, s, a, s1, [e], s2, c);
  }

  lemma Nothing(cfg: Config, s: Sys, c: nat)
    requires AtOnce(s) <= c
    ensures Leads(cfg, s, [], s, c)
  {
  }

  // ---------- one login ----------

  lemma {:induction false} AllOf(ids: set<string>) returns (listed: seq<string>)
    ensures NoDup(listed) && forall id :: id in listed <==> id in ids
  {
    if ids == {} {
      listed := [];
    } else {
      var id :| id in ids;
      var rest := AllOf(ids - {id});
      listed := [id] + rest;
      NoDupCons(id, rest);
    }
  }

  function ReadOf(t: Table, ids: seq<string>): Table {
    map id | id in ids && id in t :: t[id]
  }

  lemma WithProc(s: Sys, p: nat, proc: Proc)
    ensures AtOnce(s.(procs := s.procs[p := proc])) == AtOnce(s) + if p in s.procs then 0 else 1
  {
    var procs := s.procs[p := proc];
    assert procs.Keys == s.procs.Keys + {p};
    assert |procs| == |procs.Keys| && |s.procs| == |s.procs.Keys|;
    if p in s.procs {
      assert procs.Keys == s.procs.Keys;
    }
  }

  /** Reading the first n of what is listed, with nothing in between. */
  lemma {:induction false} ReadFirst(cfg: Config, s: Sys, p: nat, n: nat, c: nat) returns (events: seq<Event>)
    requires p in s.procs && s.procs[p].stage.Reading? && s.procs[p].stage.next == 0 && s.procs[p].stage.found == map[]
    requires n <= |s.procs[p].stage.listed| && AtOnce(s) <= c
    ensures
      var listed := s.procs[p].stage.listed;
      Leads(cfg, s, events,
            s.(procs := s.procs[p := s.procs[p].(stage := Reading(listed, n, ReadOf(s.sessions, listed[..n])))]), c)
  {
    hide Leads, AtOnce;
    var listed := s.procs[p].stage.listed;
    if n == 0 {
      events := [];
      Nothing(cfg, s, c);
      assert s.procs[p := s.procs[p].(stage := Reading(listed, 0, ReadOf(s.sessions, listed[..0])))] == s.procs;
    } else {
      var before := Reading(listed, n - 1, ReadOf(s.sessions, listed[..n - 1]));
      var s1 := s.(procs := s.procs[p := s.procs[p].(stage := before)]);
      events := ReadFirst(cfg, s, p, n - 1, c);
      ReadOneMore(s.sessions, listed, n);
      var s2 := Apply(cfg, s1, Read(p));
      WithProc(s, p, s2.procs[p]);
      assert s2.procs == s.procs[p := s2.procs[p]];
      ThenOne(cfg, s, events, s1, Read(p), s2, c);
      events := events + [Read(p)];
    }
  }

  lemma ReadOneMore(t: Table, listed: seq<string>, n: nat)
    requires 0 < n <= |listed|
    ensures NextRead(t, Reading(listed, n - 1, ReadOf(t, listed[..n - 1]))) == Reading(listed, n, ReadOf(t, listed[..n]))
  {
    assert listed[..n] == listed[..n - 1] + [listed[n - 1]];
  }

  /** Beginning and listing. */
  lemma Enters(cfg: Config, s: Sys, p: nat, user: string, listed: seq<string>, c: nat) returns (events: seq<Event>)
    requires p !in s.procs && LockFree(cfg, s, user) && AtOnce(s) < c && Lists(s.sessions, s.sessions.Keys, listed)
    ensures Leads(cfg, s, events, s.(procs := s.procs[p := Proc(user, Reading(listed, 0, map[]))]), c)
  {
    hide Leads, AtOnce, LockFree, Lists;
    events := [Begin(p, user)];
    var s1 := s.(procs := s.procs[p := Proc(user, Begun)]);
    var s2 := s.(procs := s.procs[p := Proc(user, Reading(listed, 0, map[]))]);
    WithProc(s, p, Proc(user, Begun));
    WithProc(s, p, Proc(user, Reading(listed, 0, map[])));
    Once(cfg, s, Begin(p, user), s1, c);
    assert s1.procs[p := Proc(user, Reading(listed, 0, map[]))] == s2.procs;
    ThenOne(cfg, s, events, s1, List(p, listed), s2, c);
    events := events + [List(p, listed)];
  }

  lemma ListsAll(t: Table, listed: seq<string>)
    requires NoDup(listed) && forall id :: id in listed <==> id in t.Keys
    ensures Lists(t, t.Keys, listed) && ReadOf(t, listed) == t
  {
  }

  /** A check that nothing comes between decides by exactly the accounts that are there. */
  lemma CheckUndisturbed(cfg: Config, s: Sys, p: nat, user: string, c: nat)
    returns (listed: seq<string>, events: seq<Event>)
    requires p !in s.procs && LockFree(cfg, s, user) && AtOnce(s) < c
    ensures Lists(s.sessions, s.sessions.Keys, listed)
    ensures
      match Decided(cfg, user, listed, s.sessions)
      case None => Leads(cfg, s, events, s, c)
      case Some(stage) => Leads(cfg, s, events, s.(procs := s.procs[p := Proc(user, stage)]), c)
  {
    hide Leads, AtOnce, LockFree, Decided, Lists, ReadOf;
    listed := AllOf(s.sessions.Keys);
    ListsAll(s.sessions, listed);
    events := Enters(cfg, s, p, user, listed, c);
    var s1 := s.(procs := s.procs[p := Proc(user, Reading(listed, 0, map[]))]);
    WithProc(s, p, s1.procs[p]);
    var more := ReadFirst(cfg, s1, p, |listed|, c);
    assert listed[..|listed|] == listed;
    var s2 := s.(procs := s.procs[p := Proc(user, Reading(listed, |listed|, s.sessions))]);
    assert s1.procs[p := Proc(user, Reading(listed, |listed|, s.sessions))] == s2.procs;
    Then(cfg, s, events, s1, more, s2, c);
    events := events + more;
    Decides(cfg, s, p, user, listed);
    var s3 := Apply(cfg, s2, Decide(p));
    match Decided(cfg, user, listed, s.sessions) {
      case None =>
      case Some(stage) => WithProc(s, p, Proc(user, stage));
    }
    ThenOne(cfg, s, events, s2, Decide(p), s3, c);
    events := events + [Decide(p)];
  }

  lemma Decides(cfg: Config, s: Sys, p: nat, user: string, listed: seq<string>)
    requires p !in s.procs
    ensures
      var s' := s.(procs := s.procs[p := Proc(user, Reading(listed, |listed|, s.sessions))]);
      Apply(cfg, s', Decide(p)) ==
      match Decided(cfg, user, listed, s.sessions)
      case None => s
      case Some(stage) => s.(procs := s.procs[p := Proc(user, stage)])
  {
    hide Decided;
    var s' := s.(procs := s.procs[p := Proc(user, Reading(listed, |listed|, s.sessions))]);
    assert s'.procs - {p} == s.procs;
  }

  lemma {:induction false} KeepNone(s: seq<string>)
    ensures Keep(s, {}) == []
  {
    if s != [] {
      KeepNone(s[1..]);
    }
  }

  /** A user not on the device is let in exactly when there is a place. */
  lemma DecidedNew(cfg: Config, user: string, listed: seq<string>, t: Table)
    requires user !in Accounts(t)
    ensures Decided(cfg, user, listed, t) == if |Accounts(t)| < cfg.maxAccounts then Some(Clearing([], 0, true)) else None
  {
    assert OfUser(t, user) == {};
    KeepNone(listed);
  }

  /** Storing the session and releasing the lock. */
  lemma Stores(cfg: Config, s: Sys, p: nat, id: string, c: nat) returns (events: seq<Event>)
    requires p in s.procs && Promises(s.procs[p].stage) && s.procs[p].stage.done == |s.procs[p].stage.drop|
    requires AtOnce(s) <= c
    ensures Leads(cfg, s, events, s.(sessions := s.sessions[id := SessionData(s.procs[p].user, Some(cfg.device), s.now)],
                                     procs := s.procs - {p}), c)
  {
    hide Leads;
    var s1 := Apply(cfg, s, Store(p, id));
    var s2 := Apply(cfg, s1, Finish(p));
    WithProc(s, p, s1.procs[p]);
    assert s1.procs - {p} == s.procs - {p};
    LessProc(s, p);
    Once(cfg, s, Store(p, id), s1, c);
    ThenOne(cfg, s, [Store(p, id)], s1, Finish(p), s2, c);
    events := [Store(p, id)] + [Finish(p)];
  }

  lemma LessProc(s: Sys, p: nat)
    ensures AtOnce(s.(procs := s.procs - {p})) <= AtOnce(s)
  {
    var procs := s.procs - {p};
    assert |procs| == |procs.Keys| && |s.procs| == |s.procs.Keys|;
    SubsetSize(procs.Keys, s.procs.Keys);
  }

  /** A login of a new user that nothing comes between, beside others that wait. */
  lemma LogsIn(cfg: Config, s: Sys, p: nat, user: string, id: string, c: nat) returns (events: seq<Event>)
    requires p !in s.procs && LockFree(cfg, s, user) && AtOnce(s) < c
    requires user !in Accounts(s.sessions) && |Accounts(s.sessions)| < cfg.maxAccounts
    ensures Leads(cfg, s, events, s.(sessions := s.sessions[id := SessionData(user, Some(cfg.device), s.now)]), c)
  {
    hide Leads, AtOnce, LockFree, Decided, Lists, Accounts;
    var listed, check := CheckUndisturbed(cfg, s, p, user, c);
    DecidedNew(cfg, user, listed, s.sessions);
    var s1 := s.(procs := s.procs[p := Proc(user, Clearing([], 0, true))]);
    WithProc(s, p, s1.procs[p]);
    var more := Stores(cfg, s1, p, id, c);
    assert s1.procs - {p} == s.procs;
    var s2 := s.(sessions := s.sessions[id := SessionData(user, Some(cfg.device), s.now)]);
    Then(cfg, s, check, s1, more, s2, c);
    events := check + more;
  }

  /** The first n of what is to be deleted, with nothing in between. */
  lemma {:induction false} Deletes(cfg: Config, s: Sys, p: nat, n: nat, c: nat) returns (events: seq<Event>)
    requires p in s.procs && s.procs[p].stage.Clearing? && s.procs[p].stage.done == 0
    requires n <= |s.procs[p].stage.drop| && AtOnce(s) <= c
    ensures
      var stage := s.procs[p].stage;
      Leads(cfg, s, events,
            s.(sessions := s.sessions - Dropped(stage.drop, n),
               procs := s.procs[p := s.procs[p].(stage := stage.(done := n))]), c)
  {
    hide Leads, AtOnce;
    var stage := s.procs[p].stage;
    if n == 0 {
      events := [];
      Nothing(cfg, s, c);
      assert s.procs[p := s.procs[p].(stage := stage.(done := 0))] == s.procs;
      assert s.sessions - Dropped(stage.drop, 0) == s.sessions;
    } else {
      events := Deletes(cfg, s, p, n - 1, c);
      var s1 := s.(sessions := s.sessions - Dropped(stage.drop, n - 1),
                   procs := s.procs[p := s.procs[p].(stage := stage.(done := n - 1))]);
      var s2 := Apply(cfg, s1, DeleteOne(p));
      DroppedNext(s.sessions, stage.drop, n);
      assert s2.procs == s.procs[p := s.procs[p].(stage := stage.(done := n))];
      WithProc(s, p, s2.procs[p]);
      SameAtOnce(s2, s.(procs := s2.procs));
      ThenOne(cfg, s, events, s1, DeleteOne(p), s2, c);
      events := events + [DeleteOne(p)];
    }
  }

  function Dropped(drop: seq<string>, n: nat): set<string>
    requires n <= |drop|
  {
    set id | id in drop[..n]
  }

  lemma DroppedNext(t: Table, drop: seq<string>, n: nat)
    requires 0 < n <= |drop|
    ensures t - Dropped(drop, n - 1) - {drop[n - 1]} == t - Dropped(drop, n)
  {
    assert drop[..n] == drop[..n - 1] + [drop[n - 1]];
    assert Dropped(drop, n) == Dropped(drop, n - 1) + {drop[n - 1]};
  }

  /**
   A login that nothing comes between, beside others that wait, is refused and changes nothing, or deletes what
   its decision says, and then stores its session unless it throws.
   */
  lemma LoginUndisturbed(cfg: Config, s: Sys, p: nat, user: string, id: string, c: nat)
    returns (listed: seq<string>, events: seq<Event>)
    requires p !in s.procs && LockFree(cfg, s, user) && AtOnce(s) < c
    ensures Lists(s.sessions, s.sessions.Keys, listed)
    ensures
      match Decided(cfg, user, listed, s.sessions)
      case None => Leads(cfg, s, events, s, c)
      case Some(stage) =>
        && stage.Clearing?
        && var left := s.sessions - Dropped(stage.drop, |stage.drop|);
           Leads(cfg, s, events,
                 s.(sessions := if stage.goesOn then left[id := SessionData(user, Some(cfg.device), s.now)] else left), c)
  {
    hide Leads, AtOnce, LockFree, Lists, Decided, Dropped;
    var check;
    listed, check := CheckUndisturbed(cfg, s, p, user, c);
    events := check;
    var decided := Decided(cfg, user, listed, s.sessions);
    if decided.Some? {
      DecidedFresh(cfg, user, listed, s.sessions);
      var stage := decided.value;
      var s1 := s.(procs := s.procs[p := Proc(user, stage)]);
      WithProc(s, p, s1.procs[p]);
      var clear := Deletes(cfg, s1, p, |stage.drop|, c);
      var s2 := s1.(sessions := s.sessions - Dropped(stage.drop, |stage.drop|),
                    procs := s1.procs[p := Proc(user, stage.(done := |stage.drop|))]);
      WithProc(s, p, s2.procs[p]);
      SameAtOnce(s2, s.(procs := s.procs[p := s2.procs[p]]));
      Then(cfg, s, check, s1, clear, s2, c);
      var last, s3 := Leaves(cfg, s2, p, id, c);
      assert s2.procs - {p} == s.procs;
      Then(cfg, s, check + clear, s2, last, s3, c);
      events := check + clear + last;
      var left := s.sessions - Dropped(stage.drop, |stage.drop|);
      assert s3.sessions == if stage.goesOn then left[id := SessionData(user, Some(cfg.device), s.now)] else left;
      assert s3 == s.(sessions := s3.sessions);
      assert Leads(cfg, s, events, s.(sessions := s3.sessions), c);
    }
  }

  lemma DecidedFresh(cfg: Config, user: string, listed: seq<string>, t: Table)
    ensures Decided(cfg, user, listed, t).Some? ==>
      Decided(cfg, user, listed, t).value.Clearing? && Decided(cfg, user, listed, t).value.done == 0
  {
  }

  /** The end of a login: it stores its session, or throws. */
  lemma Leaves(cfg: Config, s: Sys, p: nat, id: string, c: nat) returns (events: seq<Event>, s': Sys)
    requires p in s.procs && s.procs[p].stage.Clearing? && s.procs[p].stage.done == |s.procs[p].stage.drop|
    requires AtOnce(s) <= c
    ensures Leads(cfg, s, events, s', c)
    ensures s' == s.(procs := s.procs - {p},
                     sessions := if s.procs[p].stage.goesOn then
                       s.sessions[id := SessionData(s.procs[p].user, Some(cfg.device), s.now)] else s.sessions)
  {
    hide Leads, AtOnce;
    if s.procs[p].stage.goesOn {
      events := Stores(cfg, s, p, id, c);
      s' := s.(sessions := s.sessions[id := SessionData(s.procs[p].user, Some(cfg.device), s.now)],
               procs := s.procs - {p});
    } else {
      events, s' := [Finish(p)], Apply(cfg, s, Finish(p));
      LessProc(s, p);
      Once(cfg, s, Finish(p), s', c);
    }
  }

  // ---------- one too many ----------

  /** At rest, with n accounts that have one session each. */
  ghost predicate Settled(s: Sys, n: nat) {
    s.procs == map[] && s.rotations == map[] && |Accounts(s.sessions)| == n && Spread(s.sessions)
  }

  ghost predicate Spread(t: Table) {
    forall x, y :: x in t && y in t && x != y ==> t[x].userId != t[y].userId
  }

  lemma NewAccount(t: Table, id: string, data: SessionData)
    requires id !in t && data.userId !in Accounts(t)
    ensures Accounts(t[id := data]) == Accounts(t) + {data.userId} && |Accounts(t[id := data])| == |Accounts(t)| + 1
    ensures Spread(t) ==> Spread(t[id := data])
  {
    var t' := t[id := data];
    assert t'[id] == data;
    assert forall x :: x in t ==> t'[x] == t[x] && t'[x].userId in Accounts(t);
  }

  lemma AtRest(cfg: Config, s: Sys, user: string)
    requires s.procs == map[] && s.rotations == map[]
    ensures AtOnce(s) == 0 && LockFree(cfg, s, user)
  {
  }

  lemma InitSettled()
    ensures Settled(Init(0), 0)
  {
    assert Accounts(Init(0).sessions) == {};
  }

  /** Logins one after another fill the device. */
  lemma {:induction false} Fills(cfg: Config, n: nat, c: nat) returns (events: seq<Event>, s: Sys)
    requires n <= cfg.maxAccounts && 0 < c
    ensures Leads(cfg, Init(0), events, s, c) && Settled(s, n)
  {
    hide Leads, AtOnce, LockFree, Accounts, Spread;
    if n == 0 {
      events, s := [], Init(0);
      InitSettled();
      AtRest(cfg, s, "");
      Nothing(cfg, s, c);
    } else {
      var before, s1 := Fills(cfg, n - 1, c);
      var user := FreshName(Accounts(s1.sessions));
      var id := FreshName(s1.sessions.Keys);
      AtRest(cfg, s1, user);
      var more := LogsIn(cfg, s1, 0, user, id, c);
      var data := SessionData(user, Some(cfg.device), s1.now);
      s := s1.(sessions := s1.sessions[id := data]);
      NewAccount(s1.sessions, id, data);
      Then(cfg, Init(0), before, s1, more, s, c);
      events := before + more;
    }
  }

  lemma OtherKey(cfg: Config, s: Sys, p: nat, user: string)
    requires s.procs.Keys == {p} && s.procs[p].user != user
    ensures LockFree(cfg, s, user)
  {
    hide LockKey;
    if LockKey(s.procs[p].user, Some(cfg.device)) == LockKey(user, Some(cfg.device)) {
      SameKeySameUser(s.procs[p].user, user, cfg.device);
    }
  }

  lemma SameKeySameUser(a: string, b: string, device: string)
    requires LockKey(a, Some(device)) == LockKey(b, Some(device))
    ensures a == b
  {
    var x, y := LockKey(a, Some(device)), LockKey(b, Some(device));
    assert x[6..6 + |a|] == a && y[6..6 + |b|] == b && |a| == |b|;
  }

  /** Two new users checked before either has stored. */
  lemma OneTooMany(cfg: Config, c: nat) returns (events: seq<Event>)
    requires cfg.maxAccounts > 0 && 2 <= c
    ensures Within(cfg, Init(0), events, c)
    ensures |Accounts(RunFrom(cfg, Init(0), events).sessions)| == cfg.maxAccounts + 1
  {
    hide AtOnce, LockFree, Accounts, Spread, Decided, Lists, Within, RunFrom;
    var before, s := Fills(cfg, cfg.maxAccounts - 1, c);
    var u0 := FreshName(Accounts(s.sessions));
    var u1 := FreshName(Accounts(s.sessions) + {u0});
    AtRest(cfg, s, u0);
    var listed, check := CheckUndisturbed(cfg, s, 0, u0, c);
    DecidedNew(cfg, u0, listed, s.sessions);
    var s1 := s.(procs := s.procs[0 := Proc(u0, Clearing([], 0, true))]);
    WithProc(s, 0, s1.procs[0]);
    OtherKey(cfg, s1, 0, u1);
    var id1 := FreshName(s.sessions.Keys);
    var login := LogsIn(cfg, s1, 1, u1, id1, c);
    var d1 := SessionData(u1, Some(cfg.device), s.now);
    var s2 := s1.(sessions := s.sessions[id1 := d1]);
    NewAccount(s.sessions, id1, d1);
    assert AtOnce(s2) == AtOnce(s1) by { SameAtOnce(s1, s2); }
    var id0 := FreshName(s2.sessions.Keys);
    var store := Stores(cfg, s2, 0, id0, c);
    var d0 := SessionData(u0, Some(cfg.device), s.now);
    var s3 := s2.(sessions := s2.sessions[id0 := d0], procs := s2.procs - {0});
    NewAccount(s2.sessions, id0, d0);
    Then(cfg, Init(0), before, s, check, s1, c);
    Then(cfg, Init(0), before + check, s1, login, s2, c);
    Then(cfg, Init(0), before + check + login, s2, store, s3, c);
    events := before + check + login + store;
  }

  lemma SameAtOnce(s: Sys, s': Sys)
    requires s'.procs == s.procs && s'.rotations == s.rotations
    ensures AtOnce(s') == AtOnce(s)
  {
  }

  ghost predicate LimitKept(cfg: Config, c: nat) {
    forall events :: Within(cfg, Init(0), events, c) ==>
      |Accounts(RunFrom(cfg, Init(0), events).sessions)| <= Max(cfg.maxAccounts, 0)
  }

  /**
   The account limit holds in every run with at most c logins and rotations of the device at once exactly when
   that is one at a time, or the limit lets nobody in; the lock of user and device changes nothing about it.
   */
  lemma LimitIff(cfg: Config, c: nat)
    ensures LimitKept(cfg, c) <==> c <= 1 || cfg.maxAccounts <= 0
  {
    hide Accounts, Within, RunFrom;
    if c <= 1 || cfg.maxAccounts <= 0 {
      forall events | Within(cfg, Init(0), events, c)
        ensures |Accounts(RunFrom(cfg, Init(0), events).sessions)| <= Max(cfg.maxAccounts, 0)
      {
        if cfg.maxAccounts <= 0 {
          NobodyBarred(cfg, 0, events);
        } else {
          WithinMore(cfg, events, c, 1);
          LimitAlone(cfg, 0, events);
        }
      }
    } else {
      var events := OneTooMany(cfg, c);
    }
  }

  lemma WithinMore(cfg: Config, events: seq<Event>, c: nat, d: nat)
    requires Within(cfg, Init(0), events, c) && c <= d
    ensures Within(cfg, Init(0), events, d)
  {
  }

  // ---------- any number, two at once ----------

  /** One of an account's sessions in the place of the other. */
  lemma Replaced(t: Table, x: string, id: string, data: SessionData)
    requires Spread(t) && x in t && id !in t && data.userId == t[x].userId
    ensures Accounts((t - {x})[id := data]) == Accounts(t) && Spread((t - {x})[id := data])
  {
    var t' := (t - {x})[id := data];
    assert t'[id] == data;
    assert forall y :: y in t && y != x ==> t'[y] == t[y];
  }

  /** A new user's login that has listed the device, read i sessions of it and found none of them. */
  ghost predicate Missing(s: Sys, user: string, listed: seq<string>, i: nat) {
    && i <= |listed| && s.procs == map[0 := Proc(user, Reading(listed, i, map[]))] && s.rotations == map[]
    && NoDup(listed) && Spread(s.sessions) && user !in Accounts(s.sessions)
    && (forall j :: i <= j < |listed| ==> listed[j] in s.sessions)
  }

  /** The next session's token is rotated, so the old session is gone when it is read, and the new one not listed. */
  lemma Turns(cfg: Config, s: Sys, user: string, listed: seq<string>, i: nat, c: nat)
    returns (events: seq<Event>, s': Sys)
    requires Missing(s, user, listed, i) && i < |listed| && 2 <= c
    ensures Leads(cfg, s, events, s', c) && Missing(s', user, listed, i + 1)
    ensures Accounts(s'.sessions) == Accounts(s.sessions)
  {
    hide Leads, Accounts, Spread, AtOnce, Apply;
    var old' := listed[i];
    var id := FreshName(s.sessions.Keys);
    var data := s.sessions[old'];
    var e0, e1, e2, e3 := RotateRead(0, old'), RotateStore(0, id), Remove(old'), Read(0);
    var s1 := s.(rotations := map[0 := data]);
    var s2 := s.(sessions := s.sessions[id := data]);
    var s3 := s.(sessions := (s.sessions - {old'})[id := data]);
    s' := s3.(procs := map[0 := Proc(user, Reading(listed, i + 1, map[]))]);
    TurnStates(cfg, s, user, listed, i, id, s1, s2, s3, s');
    Replaced(s.sessions, old', id, data);
    Once(cfg, s, e0, s1, c);
    ThenOne(cfg, s, [e0], s1, e1, s2, c);
    ThenOne(cfg, s, [e0] + [e1], s2, e2, s3, c);
    ThenOne(cfg, s, [e0] + [e1] + [e2], s3, e3, s', c);
    events := [e0] + [e1] + [e2] + [e3];
  }

  lemma TurnStates(cfg: Config, s: Sys, user: string, listed: seq<string>, i: nat, id: string,
                   s1: Sys, s2: Sys, s3: Sys, s4: Sys)
    requires Missing(s, user, listed, i) && i < |listed| && id !in s.sessions
    requires
      var old', data := listed[i], s.sessions[listed[i]];
      && s1 == s.(rotations := map[0 := data]) && s2 == s.(sessions := s.sessions[id := data])
      && s3 == s.(sessions := (s.sessions - {old'})[id := data])
      && s4 == s3.(procs := map[0 := Proc(user, Reading(listed, i + 1, map[]))])
    ensures Apply(cfg, s, RotateRead(0, listed[i])) == s1 && Apply(cfg, s1, RotateStore(0, id)) == s2
    ensures Apply(cfg, s2, Remove(listed[i])) == s3 && Apply(cfg, s3, Read(0)) == s4
    ensures AtOnce(s) == AtOnce(s2) == AtOnce(s3) == AtOnce(s4) == 1 && AtOnce(s1) == 2
  {
    hide Accounts, Spread, Apply, AtOnce;
    RotatesIn(cfg, s, listed[i], id);
    assert s.sessions[id := s.sessions[listed[i]]] - {listed[i]} == s3.sessions;
    assert Apply(cfg, s2, Remove(listed[i])) == s3 by { Removes(cfg, s2, listed[i]); }
    ReadsNothing(cfg, s3, user, listed, i);
    OneProc(s, 0);
    OneProc(s4, 0);
    SameAtOnce(s, s2);
    SameAtOnce(s, s3);
    OneRotation(s, s1.rotations[0]);
  }

  lemma RotatesIn(cfg: Config, s: Sys, old': string, id: string)
    requires s.rotations == map[] && old' in s.sessions
    ensures
      var s1 := s.(rotations := map[0 := s.sessions[old']]);
      && Apply(cfg, s, RotateRead(0, old')) == s1
      && Apply(cfg, s1, RotateStore(0, id)) == s.(sessions := s.sessions[id := s.sessions[old']])
  {
    assert map[0 := s.sessions[old']] - {0} == map[];
  }

  lemma Removes(cfg: Config, s: Sys, id: string)
    ensures Apply(cfg, s, Remove(id)) == s.(sessions := s.sessions - {id})
  {
  }

  lemma ReadsNothing(cfg: Config, s: Sys, user: string, listed: seq<string>, i: nat)
    requires i < |listed| && s.procs == map[0 := Proc(user, Reading(listed, i, map[]))] && listed[i] !in s.sessions
    ensures Apply(cfg, s, Read(0)) == s.(procs := map[0 := Proc(user, Reading(listed, i + 1, map[]))])
  {
  }

  lemma OneRotation(s: Sys, data: SessionData)
    requires s.rotations == map[]
    ensures AtOnce(s.(rotations := map[0 := data])) == AtOnce(s) + 1
  {
    assert |map[0 := data]| == |map[0 := data].Keys|;
  }

  lemma OneProc(s: Sys, p: nat)
    requires s.procs.Keys == {p} && s.rotations == map[]
    ensures AtOnce(s) == 1
  {
    assert |s.procs| == |s.procs.Keys|;
  }

  lemma {:induction false} AllTurn(cfg: Config, s: Sys, user: string, listed: seq<string>, n: nat, c: nat)
    returns (events: seq<Event>, s': Sys)
    requires Missing(s, user, listed, 0) && n <= |listed| && 2 <= c
    ensures Leads(cfg, s, events, s', c) && Missing(s', user, listed, n)
    ensures Accounts(s'.sessions) == Accounts(s.sessions)
  {
    hide Leads, Accounts, Missing;
    if n == 0 {
      events, s' := [], s;
      MissingAlone(s, user, listed);
      Nothing(cfg, s, c);
    } else {
      var before, s1 := AllTurn(cfg, s, user, listed, n - 1, c);
      var more;
      more, s' := Turns(cfg, s1, user, listed, n - 1, c);
      Then(cfg, s, before, s1, more, s', c);
      events := before + more;
    }
  }

  lemma MissingAlone(s: Sys, user: string, listed: seq<string>)
    requires Missing(s, user, listed, 0)
    ensures AtOnce(s) == 1
  {
    OneProc(s, 0);
  }

  /** Having found nobody, a login is let in, whoever is there. */
  lemma LetIn(cfg: Config, s: Sys, user: string, listed: seq<string>, c: nat) returns (events: seq<Event>, s': Sys)
    requires Missing(s, user, listed, |listed|) && cfg.maxAccounts > 0 && 1 <= c
    ensures Leads(cfg, s, events, s', c) && Settled(s', |Accounts(s.sessions)| + 1)
  {
    hide Leads, Accounts, Spread, Decided;
    NobodyFound(cfg, user, listed);
    var s1 := Apply(cfg, s, Decide(0));
    assert s1.procs == map[0 := Proc(user, Clearing([], 0, true))];
    OneProc(s, 0);
    OneProc(s1, 0);
    Once(cfg, s, Decide(0), s1, c);
    var id := FreshName(s.sessions.Keys);
    var data := SessionData(user, Some(cfg.device), s.now);
    var store := Stores(cfg, s1, 0, id, c);
    s' := s1.(sessions := s1.sessions[id := data], procs := s1.procs - {0});
    NewAccount(s.sessions, id, data);
    Then(cfg, s, [Decide(0)], s1, store, s', c);
    events := [Decide(0)] + store;
  }

  lemma NobodyFound(cfg: Config, user: string, listed: seq<string>)
    requires cfg.maxAccounts > 0
    ensures Decided(cfg, user, listed, map[]) == Some(Clearing([], 0, true))
  {
    assert Accounts(map[]) == {};
    DecidedNew(cfg, user, listed, map[]);
  }

  lemma ListedMissing(s: Sys, n: nat, user: string, listed: seq<string>)
    requires Settled(s, n) && user !in Accounts(s.sessions) && Lists(s.sessions, s.sessions.Keys, listed)
    ensures Missing(s.(procs := s.procs[0 := Proc(user, Reading(listed, 0, map[]))]), user, listed, 0)
  {
    hide Accounts, Spread;
  }

  /** One account more than there are, however many there are. */
  lemma OneMoreAccount(cfg: Config, s: Sys, n: nat, c: nat) returns (events: seq<Event>, s': Sys)
    requires Settled(s, n) && cfg.maxAccounts > 0 && 2 <= c
    ensures Leads(cfg, s, events, s', c) && Settled(s', n + 1)
  {
    hide Leads, Accounts, Spread, Lists, LockFree, Missing;
    var user := FreshName(Accounts(s.sessions));
    var listed := AllOf(s.sessions.Keys);
    ListsAll(s.sessions, listed);
    AtRest(cfg, s, user);
    var enter := Enters(cfg, s, 0, user, listed, c);
    var s1 := s.(procs := s.procs[0 := Proc(user, Reading(listed, 0, map[]))]);
    ListedMissing(s, n, user, listed);
    var turns, s2 := AllTurn(cfg, s1, user, listed, |listed|, c);
    var store;
    store, s' := LetIn(cfg, s2, user, listed, c);
    Then(cfg, s, enter, s1, turns, s2, c);
    Then(cfg, s, enter + turns, s2, store, s', c);
    events := enter + turns + store;
  }

  lemma {:induction false} AnyNumber(cfg: Config, n: nat, c: nat) returns (events: seq<Event>, s: Sys)
    requires cfg.maxAccounts > 0 && 2 <= c
    ensures Leads(cfg, Init(0), events, s, c) && Settled(s, n)
  {
    hide Leads, Settled;
    if n == 0 {
      events, s := [], Init(0);
      InitSettled();
      SettledAlone(s);
      Nothing(cfg, s, c);
    } else {
      var before, s1 := AnyNumber(cfg, n - 1, c);
      var more;
      more, s := OneMoreAccount(cfg, s1, n - 1, c);
      Then(cfg, Init(0), before, s1, more, s, c);
      events := before + more;
    }
  }

  lemma SettledAlone(s: Sys)
    requires Settled(s, 0)
    ensures AtOnce(s) == 0
  {
  }

  ghost predicate BoundedBy(cfg: Config, c: nat, m: nat) {
    forall events :: Within(cfg, Init(0), events, c) ==> |Accounts(RunFrom(cfg, Init(0), events).sessions)| <= m
  }

  /**
   Some number, be it above the limit, bounds the accounts of the device in all runs with at most c logins and
   rotations at once exactly when that is one at a time, or the limit lets nobody in.
   */
  lemma BoundedIff(cfg: Config, c: nat)
    ensures (exists m :: BoundedBy(cfg, c, m)) <==> c <= 1 || cfg.maxAccounts <= 0
  {
    hide Accounts, Within, RunFrom;
    LimitIff(cfg, c);
    if c <= 1 || cfg.maxAccounts <= 0 {
      assert BoundedBy(cfg, c, Max(cfg.maxAccounts, 0));
    } else {
      forall m: nat ensures !BoundedBy(cfg, c, m) {
        var events, s := AnyNumber(cfg, m + 1, c);
      }
    }
  }

  // ---------- every fault counts ----------

  lemma RunSnoc(cfg: Config, events: seq<Event>, e: Event)
    ensures RunFrom(cfg, Init(0), events + [e]) == Apply(cfg, RunFrom(cfg, Init(0), events), e)
    ensures CountFaults(cfg, Init(0), events + [e])
         == CountFaults(cfg, Init(0), events) + Faults(cfg, RunFrom(cfg, Init(0), events), e)
  {
    assert (events + [e])[..|events|] == events;
  }

  /** n logins of different users have been let in and wait, before any has stored. */
  ghost predicate Waiting(s: Sys, n: nat) {
    && s.sessions == map[] && s.rotations == map[] && (forall i: nat :: i in s.procs <==> i < n)
    && (forall i: nat :: i < n ==> i in s.procs && s.procs[i] == Proc(Name(i), Clearing([], 0, true)))
  }

  function NamesUpTo(n: nat): set<string> {
    set i: nat | i < n :: Name(i)
  }

  lemma NamesNext(n: nat)
    ensures NamesUpTo(n + 1) == NamesUpTo(n) + {Name(n)} && Name(n) !in NamesUpTo(n)
  {
    forall i: nat | i < n ensures Name(i) != Name(n) {
      NameInjective(i, n);
    }
  }

  lemma {:induction false} NamesSize(n: nat)
    ensures |NamesUpTo(n)| == n
  {
    if n > 0 {
      NamesSize(n - 1);
      NamesNext(n - 1);
    }
  }

  lemma WaitingPromised(s: Sys, n: nat)
    requires Waiting(s, n)
    ensures Promised(s) == NamesUpTo(n)
  {
    hide Name;
    assert Accounts(s.sessions) == {};
    forall i: nat | i < n ensures Name(i) in Promised(s) {
      assert i in s.procs && s.procs[i].user == Name(i);
    }
  }

  lemma WaitingFree(cfg: Config, s: Sys, n: nat)
    requires Waiting(s, n)
    ensures LockFree(cfg, s, Name(n))
  {
    hide LockKey, Name;
    forall p | p in s.procs ensures LockKey(s.procs[p].user, Some(cfg.device)) != LockKey(Name(n), Some(cfg.device)) {
      assert p < n;
      NameInjective(p, n);
      if LockKey(s.procs[p].user, Some(cfg.device)) == LockKey(Name(n), Some(cfg.device)) {
        SameKeySameUser(s.procs[p].user, Name(n), cfg.device);
      }
    }
  }

  lemma OneMoreLetIn(cfg: Config, s: Sys, n: nat)
    requires Waiting(s, n) && cfg.maxAccounts > 0
    ensures
      var s1 := Apply(cfg, s, Begin(n, Name(n)));
      var s2 := Apply(cfg, s1, List(n, []));
      && Waiting(Apply(cfg, s2, Decide(n)), n + 1)
      && Faults(cfg, s, Begin(n, Name(n))) == 0 && Faults(cfg, s1, List(n, [])) == 0
      && Faults(cfg, s2, Decide(n)) == if n < cfg.maxAccounts then 0 else 1
  {
    hide Promised, Name, NamesUpTo, Waiting, LockFree, Apply;
    WaitingPromised(s, n);
    NamesNext(n);
    NamesSize(n);
    var s2 := s.(procs := s.procs[n := Proc(Name(n), Reading([], 0, map[]))]);
    AboutToDecide(cfg, s, n, s2);
  }

  lemma AboutToDecide(cfg: Config, s: Sys, n: nat, s2: Sys)
    requires Waiting(s, n) && cfg.maxAccounts > 0
    requires s2 == s.(procs := s.procs[n := Proc(Name(n), Reading([], 0, map[]))])
    ensures s2 == Apply(cfg, Apply(cfg, s, Begin(n, Name(n))), List(n, []))
    ensures LetThrough(cfg, s2, Decide(n)) == {Name(n)} && Promised(s2) == Promised(s)
    ensures Waiting(Apply(cfg, s2, Decide(n)), n + 1)
  {
    hide Decided, Promised, Name, LockFree;
    WaitingFree(cfg, s, n);
    NobodyFound(cfg, Name(n), []);
    NotPromised(s, s2, n);
    var s1 := s.(procs := s.procs[n := Proc(Name(n), Begun)]);
    assert s1.procs[n := Proc(Name(n), Reading([], 0, map[]))] == s2.procs;
  }

  lemma NotPromised(s: Sys, s': Sys, p: nat)
    requires p !in s.procs && s'.procs.Keys == s.procs.Keys + {p} && !Promises(s'.procs[p].stage)
    requires forall q :: q in s.procs ==> s'.procs[q] == s.procs[q]
    requires s'.sessions == s.sessions && s'.rotations == s.rotations
    ensures Promised(s') == Promised(s)
  {
  }

  lemma {:induction false} Gathering(cfg: Config, n: nat) returns (events: seq<Event>)
    requires cfg.maxAccounts > 0
    ensures Waiting(RunFrom(cfg, Init(0), events), n)
    ensures CountFaults(cfg, Init(0), events) == Max(n - cfg.maxAccounts, 0)
  {
    hide Apply, Faults, RunFrom, CountFaults, Waiting;
    if n == 0 {
      events := [];
      NobodyWaits(cfg);
    } else {
      var before := Gathering(cfg, n - 1);
      var e0, e1, e2 := Begin(n - 1, Name(n - 1)), List(n - 1, []), Decide(n - 1);
      OneMoreLetIn(cfg, RunFrom(cfg, Init(0), before), n - 1);
      RunSnoc(cfg, before, e0);
      RunSnoc(cfg, before + [e0], e1);
      RunSnoc(cfg, before + [e0] + [e1], e2);
      events := before + [e0] + [e1] + [e2];
    }
  }

  lemma NobodyWaits(cfg: Config)
    ensures Waiting(RunFrom(cfg, Init(0), []), 0) && CountFaults(cfg, Init(0), []) == 0
  {
  }

  /** The first k of n have stored. */
  ghost predicate HaveStored(s: Sys, n: nat, k: nat) {
    && Accounts(s.sessions) == NamesUpTo(k) && (forall id :: id in s.sessions ==> |id| <= k)
    && (forall i: nat :: k <= i < n ==> i in s.procs && s.procs[i] == Proc(Name(i), Clearing([], 0, true)))
  }

  lemma OneMoreStores(cfg: Config, s: Sys, n: nat, k: nat)
    requires HaveStored(s, n, k) && k < n
    ensures HaveStored(Apply(cfg, s, Store(k, Name(k))), n, k + 1) && Faults(cfg, s, Store(k, Name(k))) == 0
  {
    hide Promised, Accounts, NamesUpTo;
    assert |Name(k)| == k + 1;
    NamesNext(k);
    NewAccount(s.sessions, Name(k), SessionData(Name(k), Some(cfg.device), s.now));
  }

  lemma NoneStored(s: Sys, n: nat)
    requires Waiting(s, n)
    ensures HaveStored(s, n, 0)
  {
    assert Accounts(s.sessions) == {};
  }

  lemma {:induction false} Crowding(cfg: Config, n: nat, k: nat) returns (events: seq<Event>)
    requires cfg.maxAccounts > 0 && k <= n
    ensures HaveStored(RunFrom(cfg, Init(0), events), n, k)
    ensures CountFaults(cfg, Init(0), events) == Max(n - cfg.maxAccounts, 0)
  {
    hide Apply, Faults, RunFrom, CountFaults, HaveStored, Waiting;
    if k == 0 {
      events := Gathering(cfg, n);
      NoneStored(RunFrom(cfg, Init(0), events), n);
    } else {
      var before := Crowding(cfg, n, k - 1);
      OneMoreStores(cfg, RunFrom(cfg, Init(0), before), n, k - 1);
      RunSnoc(cfg, before, Store(k - 1, Name(k - 1)));
      events := before + [Store(k - 1, Name(k - 1))];
    }
  }

  /** Every fault can be one account over the limit. */
  lemma FaultsTight(cfg: Config, k: nat) returns (events: seq<Event>)
    requires cfg.maxAccounts > 0
    ensures CountFaults(cfg, Init(0), events) == k
    ensures |Accounts(RunFrom(cfg, Init(0), events).sessions)| == cfg.maxAccounts + k
  {
    hide Apply, RunFrom, CountFaults, Accounts;
    var n := cfg.maxAccounts + k;
    events := Crowding(cfg, n, n);
    NamesSize(n);
  }

  ghost predicate OverAtMost(cfg: Config, k: nat, m: nat) {
    forall events :: CountFaults(cfg, Init(0), events) <= k ==>
      |Accounts(RunFrom(cfg, Init(0), events).sessions)| <= Max(cfg.maxAccounts, 0) + m
  }

  /** Runs with at most k faults stay within m accounts of the limit exactly when k <= m, or nobody is let in. */
  lemma FaultsIff(cfg: Config, k: nat, m: nat)
    ensures OverAtMost(cfg, k, m) <==> k <= m || cfg.maxAccounts <= 0
  {
    hide Apply, RunFrom, CountFaults, Accounts;
    if k <= m || cfg.maxAccounts <= 0 {
      forall events | CountFaults(cfg, Init(0), events) <= k
        ensures |Accounts(RunFrom(cfg, Init(0), events).sessions)| <= Max(cfg.maxAccounts, 0) + m
      {
        if cfg.maxAccounts <= 0 {
          NobodyBarred(cfg, 0, events);
        } else {
          AccountsWithinFaults(cfg, 0, events);
        }
      }
    } else {
      var events := FaultsTight(cfg, k);
    }
  }

  // ---------- a rotation and a logout ----------

  /** An account whose sessions ended after a rotation has read one comes back, unless the rotation gives up. */
  lemma EndedComesBack(cfg: Config, s: Sys, r: nat, x: string, y: string)
    requires r !in s.rotations && x in s.sessions
    ensures
      var s1 := Apply(cfg, Apply(cfg, s, RotateRead(r, x)), Remove(x));
      && x !in s1.sessions
      && Apply(cfg, s1, RotateStore(r, y)).sessions == (s.sessions - {x})[y := s.sessions[x]]
      && Apply(cfg, Apply(cfg, s1, RotateQuit(r)), RotateStore(r, y)).sessions == s.sessions - {x}
  {
  }

  /** A login lists once, and its session is dated when it is stored, however long that takes. */
  lemma ListsOnceStoresLate(cfg: Config, s: Sys, p: nat, ids: seq<string>, d: nat, id: string)
    requires p in s.procs && Promises(s.procs[p].stage) && s.procs[p].stage.done == |s.procs[p].stage.drop|
    ensures
      var s1 := Apply(cfg, Apply(cfg, s, List(p, ids)), Tick(d));
      Apply(cfg, s1, Store(p, id)).sessions
      == s.sessions[id := SessionData(s.procs[p].user, Some(cfg.device), s.now + d)]
  {
  }
}
