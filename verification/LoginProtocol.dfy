/**
 Concurrent logins as interleaved steps. A login acquires its lock, lists the sessions its policy
 looks at, deletes the surplus one call at a time, stores the new session and releases the lock; it may
 fail, and release, at any point. Token rotations take no lock: each reads a session, stores it under a
 new id and deletes the old one, or gives up. Any number of both run side by side, while sessions
 disappear at any moment (logout, kick, forced logout, expiry, eviction, the multi-account limit) and
 the clock moves. An event whose guard does not hold changes nothing.
 */
module LoginProtocol {
  import opened Js
  import opened Lease
  import opened LoginPolicy
  import opened Sessions

  datatype Config = Config(policy: Policy, maxSame: int, locking: bool, lockTtl: nat)

  /** `listed[..done]` is deleted, `listed[done..target]` is still to be. */
  datatype Stage =
    | Acquired
    | Clearing(listed: seq<string>, done: nat, target: nat)
    | Stored

  datatype Proc = Proc(user: string, device: Option<string>, token: string, leaseEnd: int, stage: Stage)

  /** A rotation that has read its session, or has stored the new one and is about to delete the old. */
  datatype Rotation = Reading(old': string, data: SessionData) | Swapped(old': string)

  datatype Sys = Sys(now: int, sessions: Table, leases: Leases, procs: map<nat, Proc>,
                     rotations: map<nat, Rotation>, tokens: set<string>, ids: set<string>)

  function Init(now: int): Sys {
    Sys(now, map[], map[], map[], map[], {}, {})
  }

  datatype Event =
    | Begin(pid: nat, user: string, device: Option<string>, token: string)
    | List(pid: nat, found: seq<string>)
    | DeleteOne(pid: nat)
    | Store(pid: nat, sessionId: string)
    | Finish(pid: nat)
    | RotateRead(rid: nat, rotated: string)
    | RotateStore(rid: nat, newId: string)
    | RotateDelete(rid: nat)
    | RotateQuit(rid: nat)
    | Remove(sessionId: string)
    | Tick(d: nat)

  /** Policies that look at other sessions on this device. */
  ghost predicate Limits(cfg: Config, device: Option<string>) {
    cfg.policy.Single? || (cfg.policy.MutualExclusion? && Truthy(device))
  }

  /** The sessions a login's policy lists: all of the user's, those on the device, or none. */
  function Scope(cfg: Config, sessions: Table, user: string, device: Option<string>): set<string> {
    match cfg.policy
    case Single => OfUser(sessions, user)
    case Multiple => {}
    case MutualExclusion => if Truthy(device) then OfUserOnDevice(sessions, user, device.value) else {}
  }

  /** How many of n listed sessions are deleted. */
  function Surplus(cfg: Config, n: nat): (r: nat)
    ensures r <= n
  {
    if cfg.policy.Single? then n else Overflow(n, cfg.maxSame)
  }

  ghost predicate CanStore(s: Sys, pid: nat, id: string) {
    && pid in s.procs && s.procs[pid].stage.Clearing? && s.procs[pid].stage.done == s.procs[pid].stage.target
    && id !in s.ids
  }

  /** A listing is whatever the store answers. */
  ghost function Apply(cfg: Config, s: Sys, e: Event): Sys {
    match e
    case Begin(p, user, device, token) =>
      if p in s.procs || token in s.tokens then s
      else if !cfg.locking then
        s.(procs := s.procs[p := Proc(user, device, token, s.now, Acquired)], tokens := s.tokens + {token})
      else
        var (leases, ok) := LeaseStep(s.leases, s.now, Acquire(LockKey(user, device), cfg.lockTtl, token));
        if !ok then s
        else s.(procs := s.procs[p := Proc(user, device, token, s.now + cfg.lockTtl, Acquired)],
                leases := leases, tokens := s.tokens + {token})
    case List(p, found) =>
      if p in s.procs && s.procs[p].stage.Acquired? then
        var listed := if Limits(cfg, s.procs[p].device) then found else [];
        s.(procs := s.procs[p := s.procs[p].(stage := Clearing(listed, 0, Surplus(cfg, |listed|)))])
      else s
    case DeleteOne(p) =>
      if p in s.procs && s.procs[p].stage.Clearing? && s.procs[p].stage.done < s.procs[p].stage.target
         && s.procs[p].stage.done < |s.procs[p].stage.listed| then
        var stage := s.procs[p].stage;
        s.(sessions := s.sessions - {stage.listed[stage.done]},
           procs := s.procs[p := s.procs[p].(stage := stage.(done := stage.done + 1))])
      else s
    case Store(p, id) =>
      if CanStore(s, p, id) then
        var proc := s.procs[p];
        s.(sessions := s.sessions[id := SessionData(proc.user, proc.device, s.now)],
           procs := s.procs[p := proc.(stage := Stored)], ids := s.ids + {id})
      else s
    case Finish(p) =>
      if p in s.procs then
        var proc := s.procs[p];
        s.(procs := s.procs - {p},
           leases := if cfg.locking then
                       LeaseStep(s.leases, s.now, Release(LockKey(proc.user, proc.device), proc.token)).0
                     else s.leases)
      else s
    case RotateRead(r, id) =>
      if r !in s.rotations && id in s.sessions then s.(rotations := s.rotations[r := Reading(id, s.sessions[id])]) else s
    case RotateStore(r, id) =>
      if r in s.rotations && s.rotations[r].Reading? && id !in s.ids then
        s.(sessions := s.sessions[id := s.rotations[r].data],
           rotations := s.rotations[r := Swapped(s.rotations[r].old')], ids := s.ids + {id})
      else s
    case RotateDelete(r) =>
      if r in s.rotations && s.rotations[r].Swapped? then
        s.(sessions := s.sessions - {s.rotations[r].old'}, rotations := s.rotations - {r})
      else s
    case RotateQuit(r) => s.(rotations := s.rotations - {r})
    case Remove(id) => s.(sessions := s.sessions - {id})
    case Tick(d) => s.(now := s.now + d)
  }

  ghost function RunFrom(cfg: Config, s: Sys, events: seq<Event>): Sys {
    if events == [] then s
    else Apply(cfg, RunFrom(cfg, s, events[..|events| - 1]), events[|events| - 1])
  }

  /** With locking on, every session is stored before its login's lease has run out. */
  ghost predicate Timely(cfg: Config, s: Sys, events: seq<Event>) {
    cfg.locking ==> forall i :: 0 <= i < |events| ==> InTime(RunFrom(cfg, s, events[..i]), events[i])
  }

  ghost predicate InTime(s: Sys, e: Event) {
    e.Store? && CanStore(s, e.pid, e.sessionId) ==> s.now < s.procs[e.pid].leaseEnd
  }

  // ---------- what a policy bounds ----------

  /** The sessions counted together: by user and lock key under `single`, by user and device otherwise. */
  ghost predicate Counted(cfg: Config, session: SessionData, user: string, device: Option<string>) {
    && session.userId == user
    && if cfg.policy.Single? then LockKey(session.userId, session.device) == LockKey(user, device)
       else session.device == device
  }

  ghost function Cell(cfg: Config, s: Sys, user: string, device: Option<string>): set<string> {
    set id | id in s.sessions && Counted(cfg, s.sessions[id], user, device)
  }

  function Bound(cfg: Config): nat {
    if cfg.policy.Single? then 1 else Max(cfg.maxSame, 1)
  }

  /** Sessions that a rotation has replaced and is about to delete. */
  ghost function Doomed(s: Sys): set<string> {
    set r | r in s.rotations && s.rotations[r].Swapped? :: s.rotations[r].old'
  }

  /** The sessions of a cell that are there to stay. */
  ghost function Kept(cfg: Config, s: Sys, user: string, device: Option<string>): set<string> {
    Cell(cfg, s, user, device) - Doomed(s)
  }

  /** The rotations between storing and deleting whose old session is still in the cell. */
  ghost function UnderWay(cfg: Config, s: Sys, user: string, device: Option<string>): set<nat> {
    set r | r in s.rotations && s.rotations[r].Swapped? && s.rotations[r].old' in Cell(cfg, s, user, device)
  }

  ghost function Names(ids: seq<string>): set<string> {
    set id | id in ids
  }

  ghost predicate InCell(cfg: Config, proc: Proc, user: string, device: Option<string>) {
    Counted(cfg, SessionData(proc.user, proc.device, 0), user, device)
  }

  /** What a login is still going to delete. */
  ghost function MarkedBy(stage: Stage): set<string> {
    if stage.Clearing? && stage.done <= stage.target <= |stage.listed| then
      Names(stage.listed[stage.done..stage.target])
    else {}
  }

  /** A login of the cell, inside its lease, is still going to delete this session. */
  ghost predicate Marked(cfg: Config, s: Sys, id: string, user: string, device: Option<string>) {
    exists p :: p in s.procs && InCell(cfg, s.procs[p], user, device) && s.now < s.procs[p].leaseEnd
                && id in MarkedBy(s.procs[p].stage)
  }

  /** A rotation replaces a session that stays otherwise, so that one goes for the one that comes. */
  ghost predicate Replaces(cfg: Config, s: Sys, id: string, user: string, device: Option<string>) {
    id in Kept(cfg, s, user, device) && !Marked(cfg, s, id, user, device)
  }

  /**
   The sessions of a cell that an event lets stay on top of what logins allow for: those a login's listing
   misses; one for a rotation stored after its session went, or was replaced by another rotation, or while
   a login is going to delete it anyway; and one for a rotation that gives up having stored.
   */
  ghost function Faults(cfg: Config, s: Sys, e: Event, user: string, device: Option<string>): nat {
    match e
    case List(p, found) =>
      if p in s.procs && s.procs[p].stage.Acquired? && InCell(cfg, s.procs[p], user, device) then
        |Kept(cfg, s, user, device) - Names(found)|
      else 0
    case RotateStore(r, id) =>
      if r in s.rotations && s.rotations[r].Reading? && id !in s.ids
         && Counted(cfg, s.rotations[r].data, user, device)
         && !Replaces(cfg, s, s.rotations[r].old', user, device) then 1 else 0
    case RotateQuit(r) => if r in UnderWay(cfg, s, user, device) then 1 else 0
    case _ => 0
  }

  ghost function CountFaults(cfg: Config, s: Sys, events: seq<Event>, user: string, device: Option<string>): nat {
    if events == [] then 0
    else
      var before := events[..|events| - 1];
      CountFaults(cfg, s, before, user, device) + Faults(cfg, RunFrom(cfg, s, before), events[|events| - 1], user, device)
  }

  /** An exact listing misses nothing. */
  lemma ExactListing(cfg: Config, s: Sys, p: nat, found: seq<string>, user: string, device: Option<string>)
    requires p in s.procs && Limits(cfg, device)
    requires OldestFirst(s.sessions, Scope(cfg, s.sessions, s.procs[p].user, s.procs[p].device), found)
    ensures Faults(cfg, s, List(p, found), user, device) == 0
  {
    if InCell(cfg, s.procs[p], user, device) {
      assert Kept(cfg, s, user, device) - Names(found) == {};
    }
  }

  // ---------- the invariant of one cell ----------

  /** A login inside its lease is the holder on record; no two logins share a token. */
  ghost predicate Locked(s: Sys) {
    && (forall p :: p in s.procs ==> s.procs[p].token in s.tokens)
    && (forall p, q :: p in s.procs && q in s.procs && p != q ==> s.procs[p].token != s.procs[q].token)
    && (forall p :: p in s.procs && s.now < s.procs[p].leaseEnd ==>
      var key := LockKey(s.procs[p].user, s.procs[p].device);
      key in s.leases && s.leases[key] == Hold(s.procs[p].token, s.procs[p].leaseEnd))
  }

  /** Ids are never used again, so a rotation knows the session it read. */
  ghost predicate Known(s: Sys) {
    && (forall id :: id in s.sessions ==> id in s.ids)
    && (forall r :: r in s.rotations ==> s.rotations[r].old' in s.ids)
    && (forall r :: r in s.rotations && s.rotations[r].Reading? && s.rotations[r].old' in s.sessions ==>
      s.sessions[s.rotations[r].old'] == s.rotations[r].data)
  }

  /** A login inside its lease that has listed leaves room for one, but for the faults so far. */
  ghost predicate ClearingOk(cfg: Config, s: Sys, proc: Proc, user: string, device: Option<string>, u: nat) {
    proc.stage.Clearing? && InCell(cfg, proc, user, device) ==>
      && proc.stage.done <= proc.stage.target <= |proc.stage.listed|
      && |proc.stage.listed| - proc.stage.target <= Bound(cfg) - 1
      && (s.now < proc.leaseEnd ==>
        |Kept(cfg, s, user, device) - MarkedBy(proc.stage)| <= |proc.stage.listed| - proc.stage.target + u)
  }

  ghost predicate Inv(cfg: Config, s: Sys, user: string, device: Option<string>, u: nat) {
    && Locked(s) && Known(s)
    && |Kept(cfg, s, user, device)| <= Bound(cfg) + u
    && (forall p :: p in s.procs ==> ClearingOk(cfg, s, s.procs[p], user, device, u))
  }

  lemma SizeAtMost<T>(a: set<T>, b: set<T>, n: int)
    requires a <= b && |b| <= n
    ensures |a| <= n
  {
    SubsetSize(a, b);
  }

  /** Less to keep, the same logins or fewer. */
  lemma ShrinkKeeps(cfg: Config, s: Sys, s': Sys, user: string, device: Option<string>, u: nat)
    requires Inv(cfg, s, user, device, u) && Locked(s') && Known(s') && s.now <= s'.now
    requires Kept(cfg, s', user, device) <= Kept(cfg, s, user, device)
    requires forall p :: p in s'.procs ==>
      (p in s.procs && s'.procs[p] == s.procs[p]) || s'.procs[p].stage.Acquired?
    ensures Inv(cfg, s', user, device, u)
  {
    hide Locked, Known, Kept, MarkedBy, InCell, Bound;
    SubsetSize(Kept(cfg, s', user, device), Kept(cfg, s, user, device));
    forall p | p in s'.procs ensures ClearingOk(cfg, s', s'.procs[p], user, device, u) {
      if p in s.procs && s'.procs[p] == s.procs[p] {
        var marked := MarkedBy(s.procs[p].stage);
        SubsetSize(Kept(cfg, s', user, device) - marked, Kept(cfg, s, user, device) - marked);
      }
    }
  }

  /** One more to keep, and one more fault. */
  lemma GrowKeeps(cfg: Config, s: Sys, s': Sys, id: string, user: string, device: Option<string>, u: nat)
    requires Inv(cfg, s, user, device, u) && Locked(s') && Known(s') && s.now == s'.now && s'.procs == s.procs
    requires Kept(cfg, s', user, device) <= Kept(cfg, s, user, device) + {id}
    ensures Inv(cfg, s', user, device, u + 1)
  {
    hide Locked, Known, Kept, MarkedBy, InCell, Bound;
    SubsetSize(Kept(cfg, s', user, device), Kept(cfg, s, user, device) + {id});
    forall p | p in s'.procs ensures ClearingOk(cfg, s', s'.procs[p], user, device, u + 1) {
      var marked := MarkedBy(s.procs[p].stage);
      SubsetSize(Kept(cfg, s', user, device) - marked, (Kept(cfg, s, user, device) - marked) + {id});
    }
  }

  lemma SwapSize(a: set<string>, b: set<string>, x: string, y: string)
    requires x in a && b <= a - {x} + {y}
    ensures |b| <= |a|
  {
    SubsetSize(b, a - {x} + {y});
  }

  /** One for another that nobody was going to delete. */
  lemma SwapKeeps(cfg: Config, s: Sys, s': Sys, id: string, newId: string, user: string, device: Option<string>, u: nat)
    requires Inv(cfg, s, user, device, u) && Locked(s') && Known(s') && s.now == s'.now && s'.procs == s.procs
    requires Replaces(cfg, s, id, user, device)
    requires Kept(cfg, s', user, device) <= Kept(cfg, s, user, device) - {id} + {newId}
    ensures Inv(cfg, s', user, device, u)
  {
    hide Locked, Known, Kept, MarkedBy, InCell, Bound;
    SwapSize(Kept(cfg, s, user, device), Kept(cfg, s', user, device), id, newId);
    forall p | p in s'.procs ensures ClearingOk(cfg, s', s'.procs[p], user, device, u) {
      if InCell(cfg, s.procs[p], user, device) && s.now < s.procs[p].leaseEnd {
        var marked := MarkedBy(s.procs[p].stage);
        assert id !in marked;
        SwapSize(Kept(cfg, s, user, device) - marked, Kept(cfg, s', user, device) - marked, id, newId);
      }
    }
  }

  // ---------- every step keeps it ----------

  lemma BeginLocked(cfg: Config, s: Sys, e: Event)
    requires Locked(s) && (e.Begin? || e.Finish?)
    ensures Locked(Apply(cfg, s, e))
  {
    hide LockKey;
    var s' := Apply(cfg, s, e);
    forall p | p in s'.procs && s'.now < s'.procs[p].leaseEnd
      ensures var key := LockKey(s'.procs[p].user, s'.procs[p].device);
        key in s'.leases && s'.leases[key] == Hold(s'.procs[p].token, s'.procs[p].leaseEnd)
    {
      if p in s.procs {
        assert s'.procs[p] == s.procs[p];
      }
    }
  }

  lemma StepLocked(cfg: Config, s: Sys, e: Event)
    requires Locked(s)
    ensures Locked(Apply(cfg, s, e))
  {
    if e.Begin? || e.Finish? {
      BeginLocked(cfg, s, e);
    } else {
      hide LockKey;
    }
  }

  lemma StepKnown(cfg: Config, s: Sys, e: Event)
    requires Known(s)
    ensures Known(Apply(cfg, s, e))
  {
    hide LockKey, Limits, Surplus;
  }

  /** One login has moved on; nothing more is to be kept. */
  lemma ProcKeeps(cfg: Config, s: Sys, s': Sys, p: nat, user: string, device: Option<string>, u: nat, v: nat)
    requires Inv(cfg, s, user, device, u) && Locked(s') && Known(s') && s'.now == s.now && u <= v && p in s'.procs
    requires s'.procs == s.procs[p := s'.procs[p]]
    requires Kept(cfg, s', user, device) <= Kept(cfg, s, user, device)
    requires ClearingOk(cfg, s', s'.procs[p], user, device, v)
    ensures Inv(cfg, s', user, device, v)
  {
    hide Locked, Known, Kept, MarkedBy, InCell, Bound;
    SubsetSize(Kept(cfg, s', user, device), Kept(cfg, s, user, device));
    forall q | q in s'.procs ensures ClearingOk(cfg, s', s'.procs[q], user, device, v) {
      if q != p {
        assert ClearingOk(cfg, s, s.procs[q], user, device, u);
        var marked := MarkedBy(s.procs[q].stage);
        SubsetSize(Kept(cfg, s', user, device) - marked, Kept(cfg, s, user, device) - marked);
      }
    }
  }

  lemma ListEffect(cfg: Config, s: Sys, e: Event, user: string, device: Option<string>)
    requires e.List? && e.pid in s.procs && s.procs[e.pid].stage.Acquired?
    ensures
      var s', proc := Apply(cfg, s, e), s.procs[e.pid];
      var listed := if Limits(cfg, proc.device) then e.found else [];
      && s'.procs == s.procs[e.pid := proc.(stage := Clearing(listed, 0, Surplus(cfg, |listed|)))]
      && s'.now == s.now && Kept(cfg, s', user, device) == Kept(cfg, s, user, device)
  {
    hide Counted, Surplus;
  }

  lemma NotListed(cfg: Config, s: Sys, e: Event)
    requires e.List? && !(e.pid in s.procs && s.procs[e.pid].stage.Acquired?)
    ensures Apply(cfg, s, e) == s
  {
  }

  lemma ListKeeps(cfg: Config, s: Sys, e: Event, user: string, device: Option<string>, u: nat)
    requires Inv(cfg, s, user, device, u) && e.List? && Limits(cfg, device)
    ensures Inv(cfg, Apply(cfg, s, e), user, device, u + Faults(cfg, s, e, user, device))
  {
    hide Apply, Inv, Locked, Known, Kept, InCell, MarkedBy, Bound, Surplus, Limits;
    var s' := Apply(cfg, s, e);
    InvParts(cfg, s, user, device, u);
    StepLocked(cfg, s, e);
    StepKnown(cfg, s, e);
    if e.pid in s.procs && s.procs[e.pid].stage.Acquired? {
      ListEffect(cfg, s, e, user, device);
      if InCell(cfg, s.procs[e.pid], user, device) {
        ListedRoom(cfg, s.procs[e.pid], e.found, user, device, Kept(cfg, s, user, device));
        SameInCell(cfg, s.procs[e.pid], s'.procs[e.pid].stage, user, device);
      } else {
        SameInCell(cfg, s.procs[e.pid], s'.procs[e.pid].stage, user, device);
      }
      ProcKeeps(cfg, s, s', e.pid, user, device, u, u + Faults(cfg, s, e, user, device));
    } else {
      NotListed(cfg, s, e);
    }
  }

  lemma SameInCell(cfg: Config, proc: Proc, stage: Stage, user: string, device: Option<string>)
    ensures InCell(cfg, proc.(stage := stage), user, device) == InCell(cfg, proc, user, device)
  {
  }

  lemma InvParts(cfg: Config, s: Sys, user: string, device: Option<string>, u: nat)
    requires Inv(cfg, s, user, device, u)
    ensures Locked(s) && Known(s) && |Kept(cfg, s, user, device)| <= Bound(cfg) + u
    ensures forall p :: p in s.procs ==> ClearingOk(cfg, s, s.procs[p], user, device, u)
  {
  }

  /** What a listing leaves over: the sessions past the surplus and those it missed. */
  lemma ListedRoom(cfg: Config, proc: Proc, found: seq<string>, user: string, device: Option<string>, kept: set<string>)
    requires Limits(cfg, device) && InCell(cfg, proc, user, device)
    ensures Limits(cfg, proc.device)
    ensures
      var target := Surplus(cfg, |found|);
      && |found| - target <= Bound(cfg) - 1
      && |kept - MarkedBy(Clearing(found, 0, target))| <= |found| - target + |kept - Names(found)|
  {
    var target := Surplus(cfg, |found|);
    var rest, missed := Names(found[target..]), kept - Names(found);
    assert found == found[..target] + found[target..];
    SizeWithin(rest, found[target..]);
    SubsetSize(kept - MarkedBy(Clearing(found, 0, target)), rest + missed);
  }

  /** A set whose members are all in a sequence is no larger than it. */
  lemma {:induction false} SizeWithin(a: set<string>, s: seq<string>)
    requires forall x :: x in a ==> x in s
    ensures |a| <= |s|
  {
    if s != [] {
      assert s == s[..|s| - 1] + [s[|s| - 1]];
      SizeWithin(a - {s[|s| - 1]}, s[..|s| - 1]);
    }
  }

  lemma DeleteEffect(cfg: Config, s: Sys, e: Event, user: string, device: Option<string>)
    requires e.DeleteOne? && Apply(cfg, s, e) != s
    ensures e.pid in s.procs && s.procs[e.pid].stage.Clearing?
    ensures
      var s', stage := Apply(cfg, s, e), s.procs[e.pid].stage;
      && stage.done < stage.target && stage.done < |stage.listed|
      && s'.procs == s.procs[e.pid := s.procs[e.pid].(stage := stage.(done := stage.done + 1))]
      && s'.now == s.now && Kept(cfg, s', user, device) == Kept(cfg, s, user, device) - {stage.listed[stage.done]}
  {
    hide Counted;
  }

  lemma DeleteKeeps(cfg: Config, s: Sys, e: Event, user: string, device: Option<string>, u: nat)
    requires Inv(cfg, s, user, device, u) && e.DeleteOne?
    ensures Inv(cfg, Apply(cfg, s, e), user, device, u)
  {
    hide Apply, Inv, Locked, Known, Kept, InCell, MarkedBy, Bound;
    var s' := Apply(cfg, s, e);
    InvParts(cfg, s, user, device, u);
    StepLocked(cfg, s, e);
    StepKnown(cfg, s, e);
    if s' != s {
      DeleteEffect(cfg, s, e, user, device);
      var stage := s.procs[e.pid].stage;
      assert ClearingOk(cfg, s, s.procs[e.pid], user, device, u);
      SameInCell(cfg, s.procs[e.pid], s'.procs[e.pid].stage, user, device);
      DeletedMarks(stage);
      if stage.target <= |stage.listed| {
        SubsetSize(Kept(cfg, s', user, device) - MarkedBy(s'.procs[e.pid].stage),
                   Kept(cfg, s, user, device) - MarkedBy(stage));
      }
      ProcKeeps(cfg, s, s', e.pid, user, device, u, u);
    }
  }

  lemma DeletedMarks(stage: Stage)
    requires stage.Clearing? && stage.done < stage.target && stage.done < |stage.listed|
    ensures stage.target <= |stage.listed| ==>
      MarkedBy(stage) == MarkedBy(stage.(done := stage.done + 1)) + {stage.listed[stage.done]}
  {
    if stage.target <= |stage.listed| {
      assert stage.listed[stage.done..stage.target]
          == [stage.listed[stage.done]] + stage.listed[stage.done + 1..stage.target];
    }
  }

  /** Two logins of one cell are not both inside their leases. */
  lemma OneInLease(cfg: Config, s: Sys, p: nat, q: nat, user: string, device: Option<string>)
    requires Locked(s) && p in s.procs && q in s.procs && p != q
    requires InCell(cfg, s.procs[p], user, device) && InCell(cfg, s.procs[q], user, device)
    requires s.now < s.procs[p].leaseEnd
    ensures s.now >= s.procs[q].leaseEnd
  {
    assert LockKey(s.procs[p].user, s.procs[p].device) == LockKey(s.procs[q].user, s.procs[q].device);
  }

  lemma StoreEffect(cfg: Config, s: Sys, e: Event)
    requires e.Store? && CanStore(s, e.pid, e.sessionId)
    ensures
      var s', proc := Apply(cfg, s, e), s.procs[e.pid];
      && s'.sessions == s.sessions[e.sessionId := SessionData(proc.user, proc.device, s.now)]
      && s'.procs == s.procs[e.pid := proc.(stage := Stored)] && s'.ids == s.ids + {e.sessionId}
      && s'.now == s.now && s'.rotations == s.rotations
  {
  }

  /** Storing adds to one cell, which the login has brought below the bound, and to no other login's. */
  lemma StoreKeeps(cfg: Config, s: Sys, e: Event, user: string, device: Option<string>, u: nat)
    requires Inv(cfg, s, user, device, u) && e.Store? && InTime(s, e)
    ensures Inv(cfg, Apply(cfg, s, e), user, device, u)
  {
    hide Apply, Locked, Known, LockKey;
    StepLocked(cfg, s, e);
    StepKnown(cfg, s, e);
    if CanStore(s, e.pid, e.sessionId) {
      StoreEffect(cfg, s, e);
      if InCell(cfg, s.procs[e.pid], user, device) {
        StoreInCell(cfg, s, e, user, device, u);
      } else {
        assert Kept(cfg, Apply(cfg, s, e), user, device) <= Kept(cfg, s, user, device);
        ProcKeeps(cfg, s, Apply(cfg, s, e), e.pid, user, device, u, u);
      }
    } else {
      NothingStored(cfg, s, e);
    }
  }

  lemma NothingStored(cfg: Config, s: Sys, e: Event)
    requires e.Store? && !CanStore(s, e.pid, e.sessionId)
    ensures Apply(cfg, s, e) == s
  {
  }

  lemma StoreInCell(cfg: Config, s: Sys, e: Event, user: string, device: Option<string>, u: nat)
    requires Inv(cfg, s, user, device, u) && e.Store? && CanStore(s, e.pid, e.sessionId) && InTime(s, e)
    requires InCell(cfg, s.procs[e.pid], user, device)
    requires Locked(Apply(cfg, s, e)) && Known(Apply(cfg, s, e))
    ensures Inv(cfg, Apply(cfg, s, e), user, device, u)
  {
    hide Apply, Inv, Locked, Known, Kept, InCell, MarkedBy, Bound;
    InvParts(cfg, s, user, device, u);
    StoreEffect(cfg, s, e);
    var s', proc := Apply(cfg, s, e), s.procs[e.pid];
    var kept, kept' := Kept(cfg, s, user, device), Kept(cfg, s', user, device);
    assert ClearingOk(cfg, s, proc, user, device, u);
    NoMarks(proc.stage);
    assert kept - {} == kept;
    StoredKept(cfg, s, e, user, device);
    SubsetSize(kept', kept + {e.sessionId});
    forall q | q in s'.procs ensures ClearingOk(cfg, s', s'.procs[q], user, device, u) {
      if q != e.pid {
        assert ClearingOk(cfg, s, s.procs[q], user, device, u);
        if InCell(cfg, s.procs[q], user, device) {
          OneInLease(cfg, s, e.pid, q, user, device);
        }
      }
    }
    InvFromParts(cfg, s', user, device, u);
  }

  lemma StoredKept(cfg: Config, s: Sys, e: Event, user: string, device: Option<string>)
    requires e.Store? && CanStore(s, e.pid, e.sessionId)
    ensures Kept(cfg, Apply(cfg, s, e), user, device) <= Kept(cfg, s, user, device) + {e.sessionId}
  {
    hide Apply, Counted;
    StoreEffect(cfg, s, e);
  }

  lemma InvFromParts(cfg: Config, s: Sys, user: string, device: Option<string>, u: nat)
    requires Locked(s) && Known(s) && |Kept(cfg, s, user, device)| <= Bound(cfg) + u
    requires forall p :: p in s.procs ==> ClearingOk(cfg, s, s.procs[p], user, device, u)
    ensures Inv(cfg, s, user, device, u)
  {
  }

  lemma NoMarks(stage: Stage)
    requires stage.Clearing? && stage.done == stage.target
    ensures MarkedBy(stage) == {}
  {
  }

  lemma RotateStoreEffect(cfg: Config, s: Sys, r: nat, id: string, user: string, device: Option<string>)
    requires Known(s) && r in s.rotations && s.rotations[r].Reading? && id !in s.ids
    ensures
      var s', kept := Apply(cfg, s, RotateStore(r, id)), Kept(cfg, s, user, device);
      && s'.procs == s.procs && s'.now == s.now
      && Kept(cfg, s', user, device)
         == kept - {s.rotations[r].old'} + if Counted(cfg, s.rotations[r].data, user, device) then {id} else {}
  {
    hide Counted, Doomed;
    DoomedSwap(s, Apply(cfg, s, RotateStore(r, id)), r);
    DoomedKnown(s);
  }

  lemma DoomedKnown(s: Sys)
    requires Known(s)
    ensures forall id :: id in Doomed(s) ==> id in s.ids
  {
  }

  lemma DoomedSwap(s: Sys, s': Sys, r: nat)
    requires r in s.rotations && s.rotations[r].Reading? && s'.rotations == s.rotations[r := Swapped(s.rotations[r].old')]
    ensures Doomed(s') == Doomed(s) + {s.rotations[r].old'}
  {
    assert s'.rotations[r].Swapped? && s'.rotations[r].old' == s.rotations[r].old';
    forall id | id in Doomed(s) ensures id in Doomed(s') {
      var q :| q in s.rotations && s.rotations[q].Swapped? && s.rotations[q].old' == id;
      assert s'.rotations[q] == s.rotations[q];
    }
    forall id | id in Doomed(s') ensures id in Doomed(s) + {s.rotations[r].old'} {
      var q :| q in s'.rotations && s'.rotations[q].Swapped? && s'.rotations[q].old' == id;
      assert q != r ==> s.rotations[q].old' == id;
    }
  }

  /**
   A rotation's store leaves as many sessions to stay as before exactly when the session it read is still
   one of them; otherwise there is one more.
   */
  lemma RotationAddsIff(cfg: Config, s: Sys, r: nat, id: string, user: string, device: Option<string>)
    requires Known(s) && r in s.rotations && s.rotations[r].Reading? && id !in s.ids
    requires Counted(cfg, s.rotations[r].data, user, device)
    ensures
      var kept, kept' := Kept(cfg, s, user, device), Kept(cfg, Apply(cfg, s, RotateStore(r, id)), user, device);
      |kept'| == if s.rotations[r].old' in kept then |kept| else |kept| + 1
  {
    RotateStoreEffect(cfg, s, r, id, user, device);
    var kept := Kept(cfg, s, user, device);
    assert id !in kept;
    if s.rotations[r].old' !in kept {
      assert kept - {s.rotations[r].old'} == kept;
    }
  }

  lemma RotateStoreKeeps(cfg: Config, s: Sys, e: Event, user: string, device: Option<string>, u: nat)
    requires Inv(cfg, s, user, device, u) && e.RotateStore?
    ensures Inv(cfg, Apply(cfg, s, e), user, device, u + Faults(cfg, s, e, user, device))
  {
    hide Apply, Inv, Locked, Known, Counted, Kept, Replaces, ClearingOk, Bound;
    InvParts(cfg, s, user, device, u);
    StepLocked(cfg, s, e);
    StepKnown(cfg, s, e);
    if e.rid in s.rotations && s.rotations[e.rid].Reading? && e.newId !in s.ids {
      var s', rotation := Apply(cfg, s, e), s.rotations[e.rid];
      RotateStoreEffect(cfg, s, e.rid, e.newId, user, device);
      if !Counted(cfg, rotation.data, user, device) {
        ShrinkKeeps(cfg, s, s', user, device, u);
      } else if Replaces(cfg, s, rotation.old', user, device) {
        SwapKeeps(cfg, s, s', rotation.old', e.newId, user, device, u);
      } else {
        GrowKeeps(cfg, s, s', e.newId, user, device, u);
      }
    } else {
      NothingRotated(cfg, s, e);
    }
  }

  lemma NothingRotated(cfg: Config, s: Sys, e: Event)
    requires e.RotateStore? && !(e.rid in s.rotations && s.rotations[e.rid].Reading? && e.newId !in s.ids)
    ensures Apply(cfg, s, e) == s
  {
  }

  lemma RotateQuitKeeps(cfg: Config, s: Sys, e: Event, user: string, device: Option<string>, u: nat)
    requires Inv(cfg, s, user, device, u) && e.RotateQuit?
    ensures Inv(cfg, Apply(cfg, s, e), user, device, u + Faults(cfg, s, e, user, device))
  {
    hide Locked, Known, Counted, ClearingOk, Bound;
    StepLocked(cfg, s, e);
    StepKnown(cfg, s, e);
    var s' := Apply(cfg, s, e);
    if e.rid in UnderWay(cfg, s, user, device) {
      QuitKept(cfg, s, e.rid, user, device);
      GrowKeeps(cfg, s, s', s.rotations[e.rid].old', user, device, u);
    } else {
      QuitKept(cfg, s, e.rid, user, device);
      ShrinkKeeps(cfg, s, s', user, device, u);
    }
  }

  lemma QuitKept(cfg: Config, s: Sys, r: nat, user: string, device: Option<string>)
    ensures
      var kept, kept' := Kept(cfg, s, user, device), Kept(cfg, s.(rotations := s.rotations - {r}), user, device);
      kept' <= kept + if r in UnderWay(cfg, s, user, device) then {s.rotations[r].old'} else {}
  {
    hide Counted;
    var s' := s.(rotations := s.rotations - {r});
    assert Cell(cfg, s', user, device) == Cell(cfg, s, user, device);
    forall id | id in Doomed(s)
      ensures id in Doomed(s') || (r in s.rotations && s.rotations[r].Swapped? && id == s.rotations[r].old')
    {
      var q :| q in s.rotations && s.rotations[q].Swapped? && s.rotations[q].old' == id;
      if q != r {
        assert s'.rotations[q] == s.rotations[q];
      }
    }
  }

  /** The steps that only take sessions away, or leave them. */
  lemma OthersKept(cfg: Config, s: Sys, e: Event, user: string, device: Option<string>)
    requires e.Begin? || e.Finish? || e.RotateRead? || e.RotateDelete? || e.Remove? || e.Tick?
    ensures Kept(cfg, Apply(cfg, s, e), user, device) <= Kept(cfg, s, user, device)
  {
    hide Counted, LockKey;
    var s' := Apply(cfg, s, e);
    forall id | id in Doomed(s) ensures id in Doomed(s') || id !in s'.sessions {
      var r :| r in s.rotations && s.rotations[r].Swapped? && s.rotations[r].old' == id;
      assert r in s'.rotations ==> s'.rotations[r].Swapped? && s'.rotations[r].old' == id;
    }
  }

  lemma OthersKeep(cfg: Config, s: Sys, e: Event, user: string, device: Option<string>, u: nat)
    requires Inv(cfg, s, user, device, u)
    requires e.Begin? || e.Finish? || e.RotateRead? || e.RotateDelete? || e.Remove? || e.Tick?
    ensures Inv(cfg, Apply(cfg, s, e), user, device, u)
  {
    StepLocked(cfg, s, e);
    StepKnown(cfg, s, e);
    OthersKept(cfg, s, e, user, device);
    OthersProcs(cfg, s, e);
    hide Apply, Locked, Known, Kept, ClearingOk, Bound;
    ShrinkKeeps(cfg, s, Apply(cfg, s, e), user, device, u);
  }

  lemma OthersProcs(cfg: Config, s: Sys, e: Event)
    requires e.Begin? || e.Finish? || e.RotateRead? || e.RotateDelete? || e.Remove? || e.Tick?
    ensures
      var s' := Apply(cfg, s, e);
      && s.now <= s'.now
      && (forall p :: p in s'.procs ==> (p in s.procs && s'.procs[p] == s.procs[p]) || s'.procs[p].stage.Acquired?)
  {
    hide LockKey;
  }

  lemma StepKeeps(cfg: Config, s: Sys, e: Event, user: string, device: Option<string>, u: nat)
    requires Inv(cfg, s, user, device, u) && Limits(cfg, device) && InTime(s, e)
    ensures Inv(cfg, Apply(cfg, s, e), user, device, u + Faults(cfg, s, e, user, device))
  {
    hide Inv, Apply, InTime, Kept, UnderWay, Replaces, Counted, InCell, Limits;
    match e
    case List(_, _) => ListKeeps(cfg, s, e, user, device, u);
    case DeleteOne(_) => DeleteKeeps(cfg, s, e, user, device, u);
    case Store(_, _) => StoreKeeps(cfg, s, e, user, device, u);
    case RotateStore(_, _) => RotateStoreKeeps(cfg, s, e, user, device, u);
    case RotateQuit(_) => RotateQuitKeeps(cfg, s, e, user, device, u);
    case _ => OthersKeep(cfg, s, e, user, device, u);
  }

  lemma TimelyPrefix(cfg: Config, s: Sys, events: seq<Event>)
    requires events != [] && cfg.locking && Timely(cfg, s, events)
    ensures Timely(cfg, s, events[..|events| - 1])
    ensures InTime(RunFrom(cfg, s, events[..|events| - 1]), events[|events| - 1])
  {
    hide InTime, RunFrom;
    var before := events[..|events| - 1];
    forall i | 0 <= i < |before| ensures InTime(RunFrom(cfg, s, before[..i]), before[i]) {
      assert before[..i] == events[..i];
    }
  }

  lemma {:induction false} RunKeeps(cfg: Config, s: Sys, events: seq<Event>, user: string, device: Option<string>)
    requires Inv(cfg, s, user, device, 0) && Limits(cfg, device) && cfg.locking && Timely(cfg, s, events)
    ensures Inv(cfg, RunFrom(cfg, s, events), user, device, CountFaults(cfg, s, events, user, device))
  {
    if events != [] {
      hide Inv, Apply, InTime, Timely, Faults, Limits;
      var before, e := events[..|events| - 1], events[|events| - 1];
      TimelyPrefix(cfg, s, events);
      RunKeeps(cfg, s, before, user, device);
      StepKeeps(cfg, RunFrom(cfg, s, before), e, user, device, CountFaults(cfg, s, before, user, device));
    }
  }

  lemma InitInv(cfg: Config, now: int, user: string, device: Option<string>)
    ensures Inv(cfg, Init(now), user, device, 0)
  {
    assert Kept(cfg, Init(now), user, device) == {};
  }

  lemma {:induction false} ImageSize(rotations: map<nat, Rotation>, rs: set<nat>, ids: set<string>)
    requires forall r :: r in rs ==> r in rotations
    requires forall id :: id in ids ==> exists r :: r in rs && rotations[r].old' == id
    ensures |ids| <= |rs|
  {
    if rs != {} {
      var r :| r in rs;
      var id := rotations[r].old';
      ImageSize(rotations, rs - {r}, ids - {id});
      SizeAtMost(ids, (ids - {id}) + {id}, |rs|);
    }
  }

  lemma CellSplits(cfg: Config, s: Sys, user: string, device: Option<string>)
    ensures |Cell(cfg, s, user, device)| <= |Kept(cfg, s, user, device)| + |UnderWay(cfg, s, user, device)|
  {
    var cell, kept := Cell(cfg, s, user, device), Kept(cfg, s, user, device);
    var rs := UnderWay(cfg, s, user, device);
    forall id | id in cell * Doomed(s) ensures exists r :: r in rs && s.rotations[r].old' == id {
      var r :| r in s.rotations && s.rotations[r].Swapped? && s.rotations[r].old' == id;
      assert r in rs;
    }
    ImageSize(s.rotations, rs, cell * Doomed(s));
    assert cell == kept + cell * Doomed(s);
  }

  /**
   With locking on and every session stored inside its login's lease, in every interleaving: a user's
   sessions under the policy never exceed its limit (at least one) by more than the faults of the run and
   the rotations between storing and deleting.
   */
  lemma BoundHolds(cfg: Config, now: int, events: seq<Event>, user: string, device: Option<string>)
    requires cfg.locking && Timely(cfg, Init(now), events) && Limits(cfg, device)
    ensures
      var s := RunFrom(cfg, Init(now), events);
      |Cell(cfg, s, user, device)|
      <= Bound(cfg) + CountFaults(cfg, Init(now), events, user, device) + |UnderWay(cfg, s, user, device)|
  {
    hide Apply, Cell, UnderWay, Kept, CountFaults, RunFrom, Timely, Limits, Bound;
    InitInv(cfg, now, user, device);
    RunKeeps(cfg, Init(now), events, user, device);
    CellSplits(cfg, RunFrom(cfg, Init(now), events), user, device);
  }
}
