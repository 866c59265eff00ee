/**
 The two session stores side by side. Without a capacity, and once its due timers have run, the
 in-memory store holds the table's sessions after every schedule; so, under compatible lifetimes, both
 stores answer alike.
 */
module StoresAgree {
  import opened Js
  import opened Redis
  import opened Sessions
  import MemoryStore
  import Runs = MemoryStoreRuns
  import RedisStore
  import RedisStoreRuns
  import SessionTable

  ghost function Apply(s: MemoryStore.Store, now: int, a: SessionTable.Act): MemoryStore.Store {
    match a
    case Set(id, data, ttl) => MemoryStore.SetSession(s, 0, now * 1000, id, data, ttl)
    case Delete(id) => MemoryStore.InternalDelete(s, id)
    case DeleteUser(user) => MemoryStore.DeleteAll(s, OfUser(MemoryStore.View(s), user))
    case DeleteUserOnDevice(_, _) => s
    case Renewal(id, ttl) => MemoryStore.Renew(s, now * 1000, id, ttl)
    case Fire(timer) => MemoryStore.FireTimer(s, now * 1000, timer)
    case Wait(_) => s
  }

  ghost function Run(acts: seq<SessionTable.Act>): MemoryStore.Store {
    if acts == [] then MemoryStore.EMPTY
    else Apply(Run(acts[..|acts| - 1]), SessionTable.Run(acts[..|acts| - 1]).now, acts[|acts| - 1])
  }

  /**
   A renewal means the same to both stores: not of an entry that has expired and is still there, and with a
   lifetime, unless the session has none.
   */
  ghost predicate RenewsAlike(s: MemoryStore.Store, t: SessionTable.State, id: string, ttl: Option<int>) {
    id in s.store.m ==>
      && t.now * 1000 < s.store.m[id].expireAt
      && (SessionTable.Seconds(ttl).Some? || s.store.m[id].expireAt == MAX_SAFE_INTEGER)
  }

  ghost predicate RenewalsAlike(acts: seq<SessionTable.Act>) {
    forall i :: 0 <= i < |acts| && acts[i].Renewal? ==>
      RenewsAlike(Run(acts[..i]), SessionTable.Run(acts[..i]), acts[i].id, acts[i].ttl)
  }

  /** What the in-memory store offers: everything but deletion by user and device. */
  ghost predicate Offered(a: SessionTable.Act) {
    && !a.DeleteUserOnDevice?
    && ((a.Set? || a.Renewal?) && a.ttl.Some? ==> 0 <= a.ttl.value <= MAX_TIMEOUT_MS)
  }

  ghost predicate AllOffered(acts: seq<SessionTable.Act>) {
    forall i :: 0 <= i < |acts| ==> Offered(acts[i])
  }

  /** Every session with a deadline has its own pending timer, due at that deadline. */
  ghost predicate OwnTimers(s: MemoryStore.Store) {
    && (forall id :: id in s.store.m ==> s.store.m[id].timer < s.next && HasTimer(s, id))
    && (forall id, x :: id in s.store.m && x in s.store.m && s.store.m[id].timer == s.store.m[x].timer ==> id == x)
  }

  ghost predicate HasTimer(s: MemoryStore.Store, id: string)
    requires id in s.store.m
  {
    var item := s.store.m[id];
    item.expireAt == MAX_SAFE_INTEGER ||
    (item.timer in s.timers && s.timers[item.timer] == MemoryStore.Timer(id, item.expireAt, item.expireAt))
  }

  ghost predicate Quiet(s: MemoryStore.Store, now: int) {
    forall t :: t in s.timers ==> now < s.timers[t].due
  }

  lemma AssignOwn(s: MemoryStore.Store, now: int, id: string, data: SessionData, ttl: Option<int>)
    requires OwnTimers(s) && now <= MAX_DATE && (ttl.Some? ==> 0 <= ttl.value <= MAX_TIMEOUT_MS)
    ensures OwnTimers(MemoryStore.Assign(s, now, id, data, ttl))
  {
    var s' := MemoryStore.Assign(s, now, id, data, ttl);
    forall x | x in s'.store.m ensures s'.store.m[x].timer < s'.next && HasTimer(s', x) {
      if x != id {
        assert HasTimer(s, x);
      }
    }
  }

  lemma DeleteOwn(s: MemoryStore.Store, id: string)
    requires OwnTimers(s)
    ensures OwnTimers(MemoryStore.InternalDelete(s, id))
  {
    var s' := MemoryStore.InternalDelete(s, id);
    forall x | x in s'.store.m ensures s'.store.m[x].timer < s'.next && HasTimer(s', x) {
      assert HasTimer(s, x);
    }
  }

  lemma DeleteAllOwn(s: MemoryStore.Store, gone: set<string>)
    requires OwnTimers(s)
    ensures OwnTimers(MemoryStore.DeleteAll(s, gone))
  {
    var s' := MemoryStore.DeleteAll(s, gone);
    forall x | x in s'.store.m ensures s'.store.m[x].timer < s'.next && HasTimer(s', x) {
      assert HasTimer(s, x);
    }
  }

  lemma FireOwn(s: MemoryStore.Store, now: int, timer: nat)
    requires OwnTimers(s) && Runs.TimersOk(s) && now <= MAX_DATE
    ensures OwnTimers(MemoryStore.FireTimer(s, now, timer))
  {
    if timer in s.timers && s.timers[timer].due <= now {
      assert Runs.TimerOk(s, timer);
      var s' := MemoryStore.FireTimer(s, now, timer);
      forall x | x in s'.store.m ensures s'.store.m[x].timer < s'.next && HasTimer(s', x) {
        assert HasTimer(s, x);
      }
    }
  }

  // ---------- the same sessions as the table ----------

  ghost predicate SameDeadline(expireAt: int, deadline: Option<int>) {
    if deadline.None? then expireAt == MAX_SAFE_INTEGER
    else expireAt <= deadline.value * 1000 < expireAt + 1000
  }

  /** The unexpired entries are the table's sessions. */
  ghost predicate Agrees(s: MemoryStore.Store, t: SessionTable.State) {
    && (forall id :: id in s.store.m && t.now * 1000 < s.store.m[id].expireAt <==>
      id in t.recs && SessionTable.There(t.recs[id], t.now))
    && (forall id :: id in s.store.m && t.now * 1000 < s.store.m[id].expireAt ==>
      s.store.m[id].data == t.recs[id].data && SameDeadline(s.store.m[id].expireAt, t.recs[id].deadline))
  }

  /** A deadline is "never" or within reach of the clock. */
  ghost predicate Dated(s: MemoryStore.Store) {
    forall id :: id in s.store.m ==>
      s.store.m[id].expireAt == MAX_SAFE_INTEGER || s.store.m[id].expireAt <= MAX_DATE + MAX_TIMEOUT_MS
  }

  ghost predicate Inv(s: MemoryStore.Store, t: SessionTable.State) {
    OwnTimers(s) && Runs.TimersOk(s) && Agrees(s, t) && Dated(s)
  }

  lemma StepDated(s: MemoryStore.Store, now: int, a: SessionTable.Act)
    requires Dated(s) && Offered(a) && now * 1000 <= MAX_DATE
    ensures Dated(Apply(s, now, a))
  {
  }

  lemma SetAgrees(s: MemoryStore.Store, t: SessionTable.State, a: SessionTable.Act)
    requires Agrees(s, t) && a.Set? && Offered(a) && 0 <= t.now && t.now * 1000 <= MAX_DATE
    ensures Agrees(Apply(s, t.now, a), SessionTable.Apply(t, a))
  {
    var s', t' := Apply(s, t.now, a), SessionTable.Apply(t, a);
    forall id
      ensures id in s'.store.m && t'.now * 1000 < s'.store.m[id].expireAt <==>
        id in t'.recs && SessionTable.There(t'.recs[id], t'.now)
    {
      if id != a.id {
        assert id in s'.store.m <==> id in s.store.m;
        assert id in t'.recs <==> id in t.recs;
      }
    }
  }

  /** Dropping the table's choice of sessions, and any already expired, from both. */
  lemma DropAgrees(s: MemoryStore.Store, s': MemoryStore.Store, t: SessionTable.State, t': SessionTable.State,
                   gone: set<string>)
    requires Agrees(s, t) && t'.now == t.now
    requires forall id :: id in s'.store.m ==> id in s.store.m && s'.store.m[id] == s.store.m[id]
    requires forall id :: id in s.store.m && t.now * 1000 < s.store.m[id].expireAt ==> (id in s'.store.m <==> id !in gone)
    requires forall id :: id in t'.recs ==> id in t.recs && t'.recs[id] == t.recs[id]
    requires forall id :: id in t.recs && SessionTable.There(t.recs[id], t.now) ==> (id in t'.recs <==> id !in gone)
    ensures Agrees(s', t')
  {
  }

  lemma LaterAgrees(s: MemoryStore.Store, t: SessionTable.State, t': SessionTable.State)
    requires Agrees(s, t) && t.now <= t'.now && t'.recs == t.recs && t'.now * 1000 <= MAX_DATE
    ensures Agrees(s, t')
  {
    forall id
      ensures id in s.store.m && t'.now * 1000 < s.store.m[id].expireAt <==>
        id in t'.recs && SessionTable.There(t'.recs[id], t'.now)
    {
      assert id in s.store.m && t.now * 1000 < s.store.m[id].expireAt <==> id in t.recs && SessionTable.There(t.recs[id], t.now);
    }
  }

  lemma DeletionsAgree(s: MemoryStore.Store, t: SessionTable.State, a: SessionTable.Act)
    requires Agrees(s, t) && (a.Delete? || a.DeleteUser?)
    ensures Agrees(Apply(s, t.now, a), SessionTable.Apply(t, a))
  {
    var gone := if a.Delete? then {a.id} else OfUser(MemoryStore.View(s), a.user);
    if a.DeleteUser? {
      forall id | id in t.recs && SessionTable.There(t.recs[id], t.now)
        ensures id in gone <==> id in OfUser(SessionTable.Live(t), a.user)
      {
        assert id in s.store.m && t.now * 1000 < s.store.m[id].expireAt;
      }
    }
    DropAgrees(s, Apply(s, t.now, a), t, SessionTable.Apply(t, a), gone);
  }

  lemma FireAgrees(s: MemoryStore.Store, t: SessionTable.State, timer: nat)
    requires Agrees(s, t) && Runs.TimersOk(s) && t.now * 1000 <= MAX_DATE
    ensures Agrees(MemoryStore.FireTimer(s, t.now * 1000, timer), t)
  {
    Runs.FireTimers(s, t.now * 1000, timer);
    DropAgrees(s, MemoryStore.FireTimer(s, t.now * 1000, timer), t, t, {});
  }

  lemma RenewedEntry(s: MemoryStore.Store, t: SessionTable.State, id: string, ttl: Option<int>)
    requires id in s.store.m
    ensures
      var s' := MemoryStore.Renew(s, t.now * 1000, id, ttl);
      && s'.store.m.Keys == s.store.m.Keys && (forall x :: x in s.store.m && x != id ==> s'.store.m[x] == s.store.m[x])
      && s'.store.m[id].data == s.store.m[id].data
      && s'.store.m[id].expireAt == MemoryStore.ExpireAt(t.now * 1000, ttl)
  {
  }

  function Prolonged(t: SessionTable.State, r: SessionTable.Rec, ttl: Option<int>): SessionTable.Rec {
    if SessionTable.There(r, t.now) && SessionTable.Seconds(ttl).Some? then
      r.(deadline := Some(t.now + SessionTable.Seconds(ttl).value))
    else r
  }

  lemma RenewedOthers(t: SessionTable.State, id: string, ttl: Option<int>)
    ensures
      var t' := SessionTable.Apply(t, SessionTable.Renewal(id, ttl));
      && t'.now == t.now && t'.recs.Keys == t.recs.Keys
      && (forall x :: x in t.recs && x != id ==> t'.recs[x] == t.recs[x])
      && (id in t.recs ==> t'.recs[id] == Prolonged(t, t.recs[id], ttl))
  {
  }

  /** Both stores still agree after a renewal exactly when it means the same to both. */
  lemma RenewalAgreesIff(s: MemoryStore.Store, t: SessionTable.State, id: string, ttl: Option<int>)
    requires Agrees(s, t) && Dated(s)
    requires 0 <= t.now && t.now * 1000 <= MAX_DATE && (ttl.Some? ==> 0 <= ttl.value <= MAX_TIMEOUT_MS)
    ensures Agrees(MemoryStore.Renew(s, t.now * 1000, id, ttl), SessionTable.Apply(t, SessionTable.Renewal(id, ttl)))
            <==> RenewsAlike(s, t, id, ttl)
  {
    hide MemoryStore.Renew, SessionTable.Apply;
    var s', t' := MemoryStore.Renew(s, t.now * 1000, id, ttl), SessionTable.Apply(t, SessionTable.Renewal(id, ttl));
    RenewedOthers(t, id, ttl);
    if id in s.store.m {
      RenewedEntry(s, t, id, ttl);
      RenewedDeadline(t.now, ttl);
    } else {
      assert s' == s by {
        NotRenewed(s, t.now * 1000, id, ttl);
      }
    }
  }

  lemma NotRenewed(s: MemoryStore.Store, now: int, id: string, ttl: Option<int>)
    requires id !in s.store.m
    ensures MemoryStore.Renew(s, now, id, ttl) == s
  {
  }

  lemma RenewedDeadline(now: int, ttl: Option<int>)
    requires 0 <= now && now * 1000 <= MAX_DATE && (ttl.Some? ==> 0 <= ttl.value <= MAX_TIMEOUT_MS)
    ensures now * 1000 < MemoryStore.ExpireAt(now * 1000, ttl)
    ensures
      var seconds := SessionTable.Seconds(ttl);
      SameDeadline(MemoryStore.ExpireAt(now * 1000, ttl), if seconds.Some? then Some(now + seconds.value) else None)
    ensures SessionTable.Seconds(ttl).None? <==> MemoryStore.ExpireAt(now * 1000, ttl) == MAX_SAFE_INTEGER
  {
  }

  lemma StepKeeps(s: MemoryStore.Store, t: SessionTable.State, a: SessionTable.Act)
    requires Inv(s, t) && Offered(a) && 0 <= t.now && SessionTable.Apply(t, a).now * 1000 <= MAX_DATE
    requires a.Renewal? ==> RenewsAlike(s, t, a.id, a.ttl)
    ensures Inv(Apply(s, t.now, a), SessionTable.Apply(t, a))
  {
    StepDated(s, t.now, a);
    match a
    case Set(id, data, ttl) =>
      AssignOwn(s, t.now * 1000, id, data, ttl);
      Runs.AssignTimers(s, t.now * 1000, id, data, ttl);
      SetAgrees(s, t, a);
    case Delete(id) =>
      DeleteOwn(s, id);
      Runs.DeleteTimers(s, id);
      DeletionsAgree(s, t, a);
    case DeleteUser(user) =>
      DeleteAllOwn(s, OfUser(MemoryStore.View(s), user));
      Runs.DeleteAllTimers(s, OfUser(MemoryStore.View(s), user));
      DeletionsAgree(s, t, a);
    case Renewal(id, ttl) =>
      if id in s.store.m {
        AssignOwn(s, t.now * 1000, id, s.store.m[id].data, ttl);
        Runs.AssignTimers(s, t.now * 1000, id, s.store.m[id].data, ttl);
      }
      RenewalAgreesIff(s, t, id, ttl);
    case Fire(timer) =>
      FireOwn(s, t.now * 1000, timer);
      Runs.FireTimers(s, t.now * 1000, timer);
      FireAgrees(s, t, timer);
    case Wait(d) => LaterAgrees(s, t, SessionTable.Apply(t, a));
  }

  lemma {:induction false} ClockForward(acts: seq<SessionTable.Act>)
    ensures 0 <= SessionTable.Run(acts).now
    ensures acts != [] ==> SessionTable.Run(acts[..|acts| - 1]).now <= SessionTable.Run(acts).now
  {
    if acts != [] {
      ClockForward(acts[..|acts| - 1]);
    }
  }

  lemma AlikePrefix(acts: seq<SessionTable.Act>)
    requires acts != [] && RenewalsAlike(acts)
    ensures RenewalsAlike(acts[..|acts| - 1])
  {
    hide RenewsAlike, Run, SessionTable.Run;
    var before := acts[..|acts| - 1];
    forall i | 0 <= i < |before| ensures before[..i] == acts[..i] && before[i] == acts[i] {
    }
  }

  lemma {:induction false} RunAgrees(acts: seq<SessionTable.Act>)
    requires AllOffered(acts) && RenewalsAlike(acts) && SessionTable.Run(acts).now * 1000 <= MAX_DATE
    ensures Inv(Run(acts), SessionTable.Run(acts))
  {
    if acts != [] {
      var before := acts[..|acts| - 1];
      ClockForward(acts);
      ClockForward(before);
      AlikePrefix(acts);
      RunAgrees(before);
      StepKeeps(Run(before), SessionTable.Run(before), acts[|acts| - 1]);
    }
  }

  /** With no timer due, the in-memory store holds exactly the table's sessions. */
  lemma QuietMemoryIsTable(acts: seq<SessionTable.Act>)
    requires AllOffered(acts) && RenewalsAlike(acts) && SessionTable.Run(acts).now * 1000 <= MAX_DATE
    requires Quiet(Run(acts), SessionTable.Run(acts).now * 1000)
    ensures MemoryStore.View(Run(acts)) == SessionTable.Live(SessionTable.Run(acts))
  {
    var s, t := Run(acts), SessionTable.Run(acts);
    RunAgrees(acts);
    forall id | id in s.store.m ensures t.now * 1000 < s.store.m[id].expireAt {
      assert HasTimer(s, id);
    }
  }

  /**
   After one schedule, a quiet in-memory store and the Redis store hold the same sessions and list the
   same ones for every user, every user and device, and every device.
   */
  lemma SameSessions(acts: seq<SessionTable.Act>, ttls: set<Option<int>>, renews: set<Option<int>>,
                     owner: string -> SessionTable.Owner, user: string, device: string)
    requires AllOffered(acts) && RenewalsAlike(acts) && SessionTable.Run(acts).now * 1000 <= MAX_DATE
    requires Quiet(Run(acts), SessionTable.Run(acts).now * 1000)
    requires SessionTable.Owned(acts, owner) && SessionTable.TtlsIn(acts, ttls) && SessionTable.RenewalsIn(acts, renews)
    requires RedisStoreRuns.Serves(ttls, renews) && RedisStoreRuns.PositiveTtls(ttls + renews)
    ensures
      var mine, theirs, now := MemoryStore.View(Run(acts)), RedisStoreRuns.Run(acts), SessionTable.Run(acts).now;
      var listed := Smembers(theirs.users, now, user);
      && mine == RedisStore.LiveTable(theirs, now)
      && OfUser(mine, user) == RedisStore.There(theirs, now, listed)
      && OfUserOnDevice(mine, user, device) == RedisStore.OnIt(theirs, now, listed, device)
      && (device != "" ==> OnDevice(mine, device) == RedisStore.There(theirs, now, Smembers(theirs.devices, now, device)))
  {
    QuietMemoryIsTable(acts);
    RedisStoreRuns.AnswersLikeTable(acts, ttls, renews, owner, user, device);
  }
}
