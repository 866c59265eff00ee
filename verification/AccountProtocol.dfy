/**
 The account limit of one device under concurrency. A login of the device takes its lock, which is per user and
 device, lists the device's sessions, reads them one call at a time, decides by the users it has found, deletes
 the surplus of its own user's sessions and stores the new one; it may fail at any point. Any number of logins
 and token rotations run side by side, while sessions disappear at any moment. An event whose guard does not
 hold changes nothing.
 */
module AccountProtocol {
  import opened Js
  import opened Sessions
  import opened LoginPolicy

  /** Without `locking`, or once leases run out, nothing keeps logins of one user apart. */
  datatype Config = Config(device: string, maxAccounts: int, maxSame: int, locking: bool)

  /** `listed[..next]` is read; `drop[..done]` is deleted; a login that does not go on throws after deleting. */
  datatype Stage =
    | Begun
    | Reading(listed: seq<string>, next: nat, found: Table)
    | Clearing(drop: seq<string>, done: nat, goesOn: bool)
    | Stored

  datatype Proc = Proc(user: string, stage: Stage)

  /** The sessions are those stored on the device; a rotation is known by the session it has read. */
  datatype Sys = Sys(now: int, sessions: Table, procs: map<nat, Proc>, rotations: map<nat, SessionData>)

  function Init(now: int): Sys {
    Sys(now, map[], map[], map[])
  }

  datatype Event =
    | Begin(pid: nat, user: string)
    | List(pid: nat, ids: seq<string>)
    | Read(pid: nat)
    | Decide(pid: nat)
    | DeleteOne(pid: nat)
    | Store(pid: nat, sessionId: string)
    | Finish(pid: nat)
    | RotateRead(rid: nat, rotated: string)
    | RotateStore(rid: nat, newId: string)
    | RotateQuit(rid: nat)
    | Remove(removed: string)         // logout, kick, expiry, eviction, a policy's or a rotation's deletion
    | Tick(d: nat)

  function Accounts(t: Table): set<string> {
    set id | id in t :: t[id].userId
  }

  ghost predicate LockFree(cfg: Config, s: Sys, user: string) {
    cfg.locking ==>
      forall p :: p in s.procs ==> LockKey(s.procs[p].user, Some(cfg.device)) != LockKey(user, Some(cfg.device))
  }

  /** What a login decides by the sessions it has found; None is the refusal. */
  function Decided(cfg: Config, user: string, listed: seq<string>, found: Table): Option<Stage> {
    if user !in Accounts(found) && |Accounts(found)| >= cfg.maxAccounts then None
    else
      var mine := ByCreateTime(found, Keep(listed, OfUser(found, user)));
      Some(Clearing(mine[..Overflow(|mine|, cfg.maxSame)], 0, mine == [] || cfg.maxSame > 0))
  }

  function NextRead(t: Table, stage: Stage): Stage
    requires stage.Reading? && stage.next < |stage.listed|
  {
    var id := stage.listed[stage.next];
    Reading(stage.listed, stage.next + 1, if id in t then stage.found[id := t[id]] else stage.found)
  }

  ghost predicate HasRead(s: Sys, p: nat) {
    p in s.procs && s.procs[p].stage.Reading? && s.procs[p].stage.next >= |s.procs[p].stage.listed|
  }

  ghost function Verdict(cfg: Config, s: Sys, p: nat): Option<Stage>
    requires HasRead(s, p)
  {
    Decided(cfg, s.procs[p].user, s.procs[p].stage.listed, s.procs[p].stage.found)
  }

  ghost function Apply(cfg: Config, s: Sys, e: Event): Sys {
    match e
    case Begin(p, user) =>
      if p !in s.procs && LockFree(cfg, s, user) then s.(procs := s.procs[p := Proc(user, Begun)]) else s
    case List(p, ids) =>
      if p in s.procs && s.procs[p].stage.Begun? && Lists(s.sessions, s.sessions.Keys, ids) then
        s.(procs := s.procs[p := s.procs[p].(stage := Reading(ids, 0, map[]))])
      else s
    case Read(p) =>
      if p in s.procs && s.procs[p].stage.Reading? && s.procs[p].stage.next < |s.procs[p].stage.listed| then
        s.(procs := s.procs[p := s.procs[p].(stage := NextRead(s.sessions, s.procs[p].stage))])
      else s
    case Decide(p) =>
      if HasRead(s, p) then
        match Verdict(cfg, s, p)
        case None => s.(procs := s.procs - {p})
        case Some(stage) => s.(procs := s.procs[p := s.procs[p].(stage := stage)])
      else s
    case DeleteOne(p) =>
      if p in s.procs && s.procs[p].stage.Clearing? && s.procs[p].stage.done < |s.procs[p].stage.drop| then
        var stage := s.procs[p].stage;
        s.(sessions := s.sessions - {stage.drop[stage.done]},
           procs := s.procs[p := s.procs[p].(stage := stage.(done := stage.done + 1))])
      else s
    case Store(p, id) =>
      if p in s.procs && Promises(s.procs[p].stage) && s.procs[p].stage.done == |s.procs[p].stage.drop| then
        s.(sessions := s.sessions[id := SessionData(s.procs[p].user, Some(cfg.device), s.now)],
           procs := s.procs[p := s.procs[p].(stage := Stored)])
      else s
    case Finish(p) => s.(procs := s.procs - {p})
    case RotateRead(r, id) =>
      if r !in s.rotations && id in s.sessions then s.(rotations := s.rotations[r := s.sessions[id]]) else s
    case RotateStore(r, id) =>
      if r in s.rotations then
        s.(sessions := s.sessions[id := s.rotations[r]], rotations := s.rotations - {r})
      else s
    case RotateQuit(r) => s.(rotations := s.rotations - {r})
    case Remove(id) => s.(sessions := s.sessions - {id})
    case Tick(d) => s.(now := s.now + d)
  }

  ghost function RunFrom(cfg: Config, s: Sys, events: seq<Event>): Sys {
    if events == [] then s
    else Apply(cfg, RunFrom(cfg, s, events[..|events| - 1]), events[|events| - 1])
  }

  // ---------- accounts there, and accounts still to come ----------

  predicate Promises(stage: Stage) {
    stage.Clearing? && stage.goesOn
  }

  /** The accounts on the device and those that logins let through, and rotations, are going to store. */
  ghost function Promised(s: Sys): set<string> {
    Accounts(s.sessions)
    + (set p | p in s.procs && Promises(s.procs[p].stage) :: s.procs[p].user)
    + (set r | r in s.rotations :: s.rotations[r].userId)
  }

  /** The login's user, if the event lets it through. */
  ghost function LetThrough(cfg: Config, s: Sys, e: Event): set<string> {
    if e.Decide? && HasRead(s, e.pid) && Verdict(cfg, s, e.pid).Some? && Verdict(cfg, s, e.pid).value.goesOn then
      {s.procs[e.pid].user}
    else {}
  }

  /** One fault is a login let through by what it has found, when the device has all its accounts or is to have them. */
  ghost function Faults(cfg: Config, s: Sys, e: Event): nat {
    if LetThrough(cfg, s, e) <= Promised(s) || |Promised(s)| < cfg.maxAccounts then 0 else 1
  }

  ghost function CountFaults(cfg: Config, s: Sys, events: seq<Event>): nat {
    if events == [] then 0
    else
      var before := events[..|events| - 1];
      CountFaults(cfg, s, before) + Faults(cfg, RunFrom(cfg, s, before), events[|events| - 1])
  }

  /** Only a decision promises an account that was not there or promised before. */
  lemma StepPromised(cfg: Config, s: Sys, e: Event)
    ensures Promised(Apply(cfg, s, e)) <= Promised(s) + LetThrough(cfg, s, e)
  {
    hide LockFree, Decided, Apply, LetThrough;
    var s' := Apply(cfg, s, e);
    forall user | user in Promised(s') ensures user in Promised(s) + LetThrough(cfg, s, e) {
      if id :| id in s'.sessions && s'.sessions[id].userId == user {
        StepSessions(cfg, s, e, id);
      } else if p :| p in s'.procs && Promises(s'.procs[p].stage) && s'.procs[p].user == user {
        StepPromises(cfg, s, e, p);
      } else {
        var r :| r in s'.rotations && s'.rotations[r].userId == user;
        StepRotations(cfg, s, e, r);
      }
    }
  }

  lemma StepSessions(cfg: Config, s: Sys, e: Event, id: string)
    requires id in Apply(cfg, s, e).sessions
    ensures Apply(cfg, s, e).sessions[id].userId in Promised(s)
  {
    hide LockFree, Decided;
  }

  lemma StepPromises(cfg: Config, s: Sys, e: Event, p: nat)
    requires p in Apply(cfg, s, e).procs && Promises(Apply(cfg, s, e).procs[p].stage)
    ensures Apply(cfg, s, e).procs[p].user in Promised(s) + LetThrough(cfg, s, e)
  {
    hide LockFree, Decided;
  }

  lemma StepRotations(cfg: Config, s: Sys, e: Event, r: nat)
    requires r in Apply(cfg, s, e).rotations
    ensures Apply(cfg, s, e).rotations[r].userId in Promised(s)
  {
    hide LockFree, Decided;
  }

  lemma StepCounts(cfg: Config, s: Sys, e: Event, n: int)
    requires |Promised(s)| <= n && cfg.maxAccounts <= n
    ensures |Promised(Apply(cfg, s, e))| <= n + Faults(cfg, s, e)
  {
    hide Apply, Promised;
    StepPromised(cfg, s, e);
    SubsetSize(Promised(Apply(cfg, s, e)), Promised(s) + LetThrough(cfg, s, e));
    if LetThrough(cfg, s, e) <= Promised(s) {
      assert Promised(s) + LetThrough(cfg, s, e) == Promised(s);
    }
  }

  lemma {:induction false} RunCounts(cfg: Config, now: int, events: seq<Event>)
    ensures |Promised(RunFrom(cfg, Init(now), events))| <= Max(cfg.maxAccounts, 0) + CountFaults(cfg, Init(now), events)
  {
    hide Apply, Promised, Faults;
    if events == [] {
      NonePromised(now);
    } else {
      var before := events[..|events| - 1];
      RunCounts(cfg, now, before);
      StepCounts(cfg, RunFrom(cfg, Init(now), before), events[|events| - 1],
                 Max(cfg.maxAccounts, 0) + CountFaults(cfg, Init(now), before));
    }
  }

  lemma NonePromised(now: int)
    ensures Promised(Init(now)) == {}
  {
  }

  /** In every interleaving, locked or not, the accounts of the device exceed the limit by no more than the faults. */
  lemma AccountsWithinFaults(cfg: Config, now: int, events: seq<Event>)
    ensures
      |Accounts(RunFrom(cfg, Init(now), events).sessions)|
      <= Max(cfg.maxAccounts, 0) + CountFaults(cfg, Init(now), events)
  {
    hide RunFrom, CountFaults, Accounts;
    var s := RunFrom(cfg, Init(now), events);
    RunCounts(cfg, now, events);
    SubsetSize(Accounts(s.sessions), Promised(s));
  }

  // ---------- one at a time ----------

  ghost function AtOnce(s: Sys): nat {
    |s.procs| + |s.rotations|
  }

  /** Never more than c logins and rotations side by side. */
  ghost predicate Within(cfg: Config, s: Sys, events: seq<Event>, c: nat) {
    forall k :: 0 <= k <= |events| ==> AtOnce(RunFrom(cfg, s, events[..k])) <= c
  }

  /** A login that reads alone misses nothing that is still there. */
  ghost predicate ReadsAll(cfg: Config, s: Sys, stage: Stage) {
    stage.Reading? ==>
      && stage.next <= |stage.listed|
      && (forall id :: id in s.sessions ==> id in stage.listed)
      && (forall id :: id in s.sessions && id in stage.listed[..stage.next] ==> id in stage.found)
      && (forall id :: id in s.sessions && id in stage.found ==> stage.found[id] == s.sessions[id])
      && |Accounts(stage.found) + Accounts(s.sessions)| <= Max(cfg.maxAccounts, 0)
  }

  ghost predicate Alone(cfg: Config, s: Sys) {
    && |Promised(s)| <= Max(cfg.maxAccounts, 0)
    && (forall p :: p in s.procs ==> ReadsAll(cfg, s, s.procs[p].stage))
  }

  lemma OnlyOne(s: Sys, p: nat)
    requires AtOnce(s) <= 1 && p in s.procs
    ensures s.procs.Keys == {p} && s.rotations == map[]
  {
    assert |s.procs| == |s.procs.Keys| && |s.rotations| == |s.rotations.Keys|;
    SubsetSize({p}, s.procs.Keys);
    if q :| q in s.procs && q != p {
      SubsetSize({p, q}, s.procs.Keys);
    }
  }

  lemma FewerReadsAll(cfg: Config, s: Sys, s': Sys, stage: Stage)
    requires ReadsAll(cfg, s, stage)
    requires forall id :: id in s'.sessions ==> id in s.sessions && s'.sessions[id] == s.sessions[id]
    ensures ReadsAll(cfg, s', stage)
  {
    if stage.Reading? {
      SubsetSize(Accounts(stage.found) + Accounts(s'.sessions), Accounts(stage.found) + Accounts(s.sessions));
    }
  }

  lemma ListReadsAll(cfg: Config, s: Sys, ids: seq<string>)
    requires |Promised(s)| <= Max(cfg.maxAccounts, 0) && Lists(s.sessions, s.sessions.Keys, ids)
    ensures ReadsAll(cfg, s, Reading(ids, 0, map[]))
  {
    SubsetSize(Accounts(map[]) + Accounts(s.sessions), Promised(s));
  }

  lemma OneMoreFound(t: Table, found: Table, id: string)
    requires id in t
    ensures Accounts(found[id := t[id]]) <= Accounts(found) + Accounts(t)
  {
  }

  lemma ReadReadsAll(cfg: Config, s: Sys, stage: Stage)
    requires stage.Reading? && ReadsAll(cfg, s, stage) && stage.next < |stage.listed|
    ensures ReadsAll(cfg, s, NextRead(s.sessions, stage))
  {
    hide Accounts;
    var id, found := stage.listed[stage.next], NextRead(s.sessions, stage).found;
    assert stage.listed[..stage.next + 1] == stage.listed[..stage.next] + [id];
    if id in s.sessions {
      OneMoreFound(s.sessions, stage.found, id);
    }
    SubsetSize(Accounts(found) + Accounts(s.sessions), Accounts(stage.found) + Accounts(s.sessions));
  }

  lemma StoreReadsAll(cfg: Config, s: Sys, e: Event)
    requires AtOnce(s) <= 1 && (e.Store? || e.RotateStore?)
    requires forall p :: p in s.procs ==> ReadsAll(cfg, s, s.procs[p].stage)
    ensures forall p :: p in Apply(cfg, s, e).procs ==> ReadsAll(cfg, Apply(cfg, s, e), Apply(cfg, s, e).procs[p].stage)
  {
    hide ReadsAll, LockFree, Decided;
    if e.Store? && e.pid in s.procs {
      OnlyOne(s, e.pid);
      StoredReadsAll(cfg, Apply(cfg, s, e));
    } else if e.RotateStore? {
      if p :| p in s.procs {
        OnlyOne(s, p);
      }
    }
  }

  lemma StoredReadsAll(cfg: Config, s: Sys)
    ensures ReadsAll(cfg, s, Stored)
  {
  }

  lemma OthersReadAll(cfg: Config, s: Sys, e: Event)
    requires !e.Store? && !e.RotateStore? && |Promised(s)| <= Max(cfg.maxAccounts, 0)
    requires forall p :: p in s.procs ==> ReadsAll(cfg, s, s.procs[p].stage)
    ensures forall p :: p in Apply(cfg, s, e).procs ==> ReadsAll(cfg, Apply(cfg, s, e), Apply(cfg, s, e).procs[p].stage)
  {
    hide ReadsAll, Promised, Apply;
    var s' := Apply(cfg, s, e);
    NewStage(cfg, s, e);
    forall p | p in s'.procs ensures ReadsAll(cfg, s', s'.procs[p].stage) {
      if p in s.procs && s'.procs[p].stage == s.procs[p].stage {
        FewerReadsAll(cfg, s, s', s.procs[p].stage);
      } else if s'.procs[p].stage.Reading? {
        if e.List? {
          ListReadsAll(cfg, s, e.ids);
        } else {
          ReadReadsAll(cfg, s, s.procs[p].stage);
        }
        FewerReadsAll(cfg, s, s', s'.procs[p].stage);
      } else {
        OtherStage(cfg, s', s'.procs[p].stage);
      }
    }
  }

  /** What a step that stores nothing does to the sessions, and how a login comes to read. */
  lemma NewStage(cfg: Config, s: Sys, e: Event)
    requires !e.Store? && !e.RotateStore?
    ensures
      var s' := Apply(cfg, s, e);
      && (forall id :: id in s'.sessions ==> id in s.sessions && s'.sessions[id] == s.sessions[id])
      && (forall p :: p in s'.procs && s'.procs[p].stage.Reading?
                      && !(p in s.procs && s'.procs[p].stage == s.procs[p].stage) ==>
        if e.List? then Lists(s.sessions, s.sessions.Keys, e.ids) && s'.procs[p].stage == Reading(e.ids, 0, map[])
        else
          && p in s.procs && s.procs[p].stage.Reading? && s.procs[p].stage.next < |s.procs[p].stage.listed|
          && s'.procs[p].stage == NextRead(s.sessions, s.procs[p].stage))
  {
    hide LockFree, Lists;
  }

  lemma OtherStage(cfg: Config, s: Sys, stage: Stage)
    requires !stage.Reading?
    ensures ReadsAll(cfg, s, stage)
  {
  }

  /** A login that has read alone has found every account that is there, and nobody else promises any. */
  lemma FoundAlone(cfg: Config, s: Sys, p: nat)
    requires AtOnce(s) <= 1 && Alone(cfg, s) && HasRead(s, p)
    ensures
      var found := s.procs[p].stage.found;
      && Promised(s) == Accounts(s.sessions) <= Accounts(found)
      && |Accounts(found)| <= Max(cfg.maxAccounts, 0)
  {
    hide Accounts, ReadsAll, Promised, AtOnce;
    OnlyOne(s, p);
    PromisedAlone(s, p);
    ReadAllFound(cfg, s, s.procs[p].stage);
  }

  lemma PromisedAlone(s: Sys, p: nat)
    requires s.procs.Keys == {p} && !Promises(s.procs[p].stage) && s.rotations == map[]
    ensures Promised(s) == Accounts(s.sessions)
  {
  }

  lemma ReadAllFound(cfg: Config, s: Sys, stage: Stage)
    requires stage.Reading? && ReadsAll(cfg, s, stage) && stage.next >= |stage.listed|
    ensures Accounts(s.sessions) <= Accounts(stage.found)
    ensures |Accounts(stage.found)| <= Max(cfg.maxAccounts, 0)
  {
    assert stage.listed[..stage.next] == stage.listed;
    AllFound(s.sessions, stage.found);
    SubsetSize(Accounts(stage.found), Accounts(stage.found) + Accounts(s.sessions));
  }

  lemma AllFound(t: Table, found: Table)
    requires forall id :: id in t ==> id in found && found[id] == t[id]
    ensures Accounts(t) <= Accounts(found)
  {
  }

  lemma NoFaultAlone(cfg: Config, s: Sys, e: Event)
    requires AtOnce(s) <= 1 && Alone(cfg, s)
    ensures Faults(cfg, s, e) == 0
  {
    hide Accounts, Alone, AtOnce, Promised;
    if e.Decide? && HasRead(s, e.pid) {
      var user, found := s.procs[e.pid].user, s.procs[e.pid].stage.found;
      FoundAlone(cfg, s, e.pid);
      SubsetSize(Promised(s), Accounts(found));
      if user in Accounts(found) && user !in Promised(s) {
        SubsetSize(Promised(s), Accounts(found) - {user});
      }
    }
  }

  lemma StepAlone(cfg: Config, s: Sys, e: Event)
    requires AtOnce(s) <= 1 && Alone(cfg, s)
    ensures Alone(cfg, Apply(cfg, s, e))
  {
    hide Apply, Promised, Faults, ReadsAll;
    if e.Store? || e.RotateStore? {
      StoreReadsAll(cfg, s, e);
    } else {
      OthersReadAll(cfg, s, e);
    }
    StepPromised(cfg, s, e);
    if cfg.maxAccounts >= 0 {
      NoFaultAlone(cfg, s, e);
      StepCounts(cfg, s, e, cfg.maxAccounts);
    } else {
      NoFaultAlone(cfg, s, e);
      StepCounts(cfg, s, e, 0);
    }
  }

  lemma {:induction false} RunAlone(cfg: Config, now: int, events: seq<Event>)
    requires Within(cfg, Init(now), events, 1)
    ensures Alone(cfg, RunFrom(cfg, Init(now), events))
  {
    hide Apply, Alone, AtOnce;
    if events == [] {
      InitAlone(cfg, now);
    } else {
      var before := events[..|events| - 1];
      assert forall k :: 0 <= k <= |before| ==> before[..k] == events[..k];
      RunAlone(cfg, now, before);
      StepAlone(cfg, RunFrom(cfg, Init(now), before), events[|events| - 1]);
    }
  }

  lemma InitAlone(cfg: Config, now: int)
    ensures Alone(cfg, Init(now))
  {
    NonePromised(now);
  }

  /** One login or rotation at a time, with anything disappearing meanwhile, keeps the limit. */
  lemma LimitAlone(cfg: Config, now: int, events: seq<Event>)
    requires Within(cfg, Init(now), events, 1)
    ensures |Accounts(RunFrom(cfg, Init(now), events).sessions)| <= Max(cfg.maxAccounts, 0)
  {
    hide RunFrom, Accounts, Within, ReadsAll;
    RunAlone(cfg, now, events);
    var s := RunFrom(cfg, Init(now), events);
    SubsetSize(Accounts(s.sessions), Promised(s));
  }

  // ---------- no accounts at all ----------

  /** Under a limit that lets nobody in, nobody is there to be let in again. */
  ghost predicate Barred(s: Sys) {
    && s.sessions == map[] && s.rotations == map[]
    && (forall p :: p in s.procs ==>
      s.procs[p].stage.Begun? || (s.procs[p].stage.Reading? && s.procs[p].stage.found == map[]))
  }

  lemma StepBarred(cfg: Config, s: Sys, e: Event)
    requires cfg.maxAccounts <= 0 && Barred(s)
    ensures Barred(Apply(cfg, s, e))
  {
    hide LockFree;
  }

  lemma {:induction false} RunBarred(cfg: Config, now: int, events: seq<Event>)
    requires cfg.maxAccounts <= 0
    ensures Barred(RunFrom(cfg, Init(now), events))
  {
    hide Apply;
    if events != [] {
      RunBarred(cfg, now, events[..|events| - 1]);
      StepBarred(cfg, RunFrom(cfg, Init(now), events[..|events| - 1]), events[|events| - 1]);
    }
  }

  lemma NobodyBarred(cfg: Config, now: int, events: seq<Event>)
    requires cfg.maxAccounts <= 0
    ensures Accounts(RunFrom(cfg, Init(now), events).sessions) == {}
  {
    RunBarred(cfg, now, events);
  }

  // ---------- locked apart ----------

  ghost predicate Apart(s: Sys) {
    forall p, q :: p in s.procs && q in s.procs && p != q ==> s.procs[p].user != s.procs[q].user
  }

  lemma StepApart(cfg: Config, s: Sys, e: Event)
    requires cfg.locking && Apart(s)
    ensures Apart(Apply(cfg, s, e))
  {
    hide Decided, LockKey;
  }

  /** With locking on, no run has two logins of one user on the device at once. */
  lemma {:induction false} RunApart(cfg: Config, now: int, events: seq<Event>)
    requires cfg.locking
    ensures Apart(RunFrom(cfg, Init(now), events))
  {
    hide Apply;
    if events != [] {
      RunApart(cfg, now, events[..|events| - 1]);
      StepApart(cfg, RunFrom(cfg, Init(now), events[..|events| - 1]), events[|events| - 1]);
    }
  }
}
