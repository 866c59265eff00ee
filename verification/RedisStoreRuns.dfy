/**
 The Redis session store over whole schedules: when its indexes cover its sessions, it answers every
 query as the plain table does.
 */
module RedisStoreRuns {
  import opened Js
  import opened Redis
  import opened Sessions
  import opened RedisStore
  import SessionTable

  ghost function Apply(s: Server, now: int, a: SessionTable.Act): Server {
    match a
    case Set(id, data, ttl) => SetSession(s, now, id, data, SessionTable.Seconds(ttl))
    case Delete(id) => DeleteSession(s, now, id)
    case DeleteUser(user) => DeleteUser(s, now, user)
    case DeleteUserOnDevice(user, device) => DeleteUserOnDevice(s, now, user, device)
    case Renewal(id, ttl) => Renew(s, now, id, SessionTable.Seconds(ttl))
    case Fire(_) => s
    case Wait(_) => s
  }

  ghost function Run(acts: seq<SessionTable.Act>): Server {
    if acts == [] then EMPTY_SERVER
    else Apply(Run(acts[..|acts| - 1]), SessionTable.Run(acts[..|acts| - 1]).now, acts[|acts| - 1])
  }

  /** Every session that is there is in its user's index and in its device's. */
  ghost predicate Covered(s: Server, now: int) {
    forall id :: id in LiveTable(s, now) ==>
      && id in Smembers(s.users, now, LiveTable(s, now)[id].userId)
      && (Truthy(LiveTable(s, now)[id].device) ==> id in Smembers(s.devices, now, LiveTable(s, now)[id].device.value))
  }

  /** Lifetimes that may be mixed: all absent, or all given and within the indexes' grace of one another. */
  ghost predicate Compatible(ttls: set<Option<int>>) {
    forall a, b :: a in ttls && b in ttls ==>
      a.Some? == b.Some? && (a.Some? ==> a.value <= b.value + 60)
  }

  /** And renewals that never take a session past its index: none of sessions that expire, but for one second. */
  ghost predicate Serves(ttls: set<Option<int>>, renews: set<Option<int>>) {
    && Compatible(ttls)
    && (forall a, b :: a in ttls && a.Some? && b in renews && b.Some? ==> b.value <= 1)
  }

  // ---------- the invariant ----------

  ghost predicate Outlasts(index: Option<int>, session: Option<int>) {
    index.None? || (session.Some? && session.value <= index.value)
  }

  ghost predicate Indexed(m: Keys<set<string>>, now: int, k: string, id: string, deadline: Option<int>) {
    Live(m, now, k) && id in m[k].value && Outlasts(m[k].expireAt, deadline)
  }

  /** Deadlines still ahead are those of one of the lifetimes, set at the latest now, or earlier. */
  ghost predicate Bounded(deadline: Option<int>, now: int, ttls: set<Option<int>>) {
    exists a :: a in ttls && (a.Some? ==> deadline.Some? && deadline.value <= now + a.value)
  }

  ghost predicate IndexOk(m: Keys<set<string>>, now: int, ttls: set<Option<int>>) {
    forall k :: Live(m, now, k) && m[k].expireAt.Some? ==> forall a :: a in ttls ==> a.Some?
  }

  ghost predicate SessionOk(s: Server, now: int, ttls: set<Option<int>>, id: string) {
    Live(s.sessions, now, id) ==>
      var cell := s.sessions[id];
      && Bounded(cell.expireAt, now, ttls)
      && Indexed(s.users, now, cell.value.userId, id, cell.expireAt)
      && (Truthy(cell.value.device) ==> Indexed(s.devices, now, cell.value.device.value, id, cell.expireAt))
  }

  ghost predicate Honest(s: Server, now: int, owner: string -> SessionTable.Owner) {
    && (forall id :: Live(s.sessions, now, id) ==>
      s.sessions[id].value.userId == owner(id).user && s.sessions[id].value.device == owner(id).device)
    && (forall user, id :: id in Smembers(s.users, now, user) ==> owner(id).user == user)
    && (forall device, id :: id in Smembers(s.devices, now, device) ==> owner(id).device == Some(device))
  }

  ghost predicate Inv(s: Server, now: int, ttls: set<Option<int>>, owner: string -> SessionTable.Owner) {
    && Honest(s, now, owner)
    && IndexOk(s.users, now, ttls) && IndexOk(s.devices, now, ttls)
    && (forall id :: SessionOk(s, now, ttls, id))
  }

  lemma InvCovers(s: Server, now: int, ttls: set<Option<int>>, owner: string -> SessionTable.Owner)
    requires Inv(s, now, ttls, owner)
    ensures Covered(s, now)
  {
    forall id | id in LiveTable(s, now)
      ensures id in Smembers(s.users, now, LiveTable(s, now)[id].userId)
      ensures Truthy(LiveTable(s, now)[id].device) ==> id in Smembers(s.devices, now, LiveTable(s, now)[id].device.value)
    {
      assert SessionOk(s, now, ttls, id);
    }
  }

  lemma LaterKeeps(s: Server, now: int, later: int, ttls: set<Option<int>>, owner: string -> SessionTable.Owner)
    requires Inv(s, now, ttls, owner) && now <= later
    ensures Inv(s, later, ttls, owner)
  {
    forall id ensures SessionOk(s, later, ttls, id) {
      assert SessionOk(s, now, ttls, id);
    }
    forall user, id | id in Smembers(s.users, later, user) ensures owner(id).user == user {
      assert id in Smembers(s.users, now, user);
    }
    forall device, id | id in Smembers(s.devices, later, device) ensures owner(id).device == Some(device) {
      assert id in Smembers(s.devices, now, device);
    }
  }

  /** Adding to an index keeps what it covered and covers the new session, under compatible lifetimes. */
  lemma IndexAddKeeps(m: Keys<set<string>>, now: int, k: string, id: string, ttl: Option<int>,
                      ttls: set<Option<int>>, x: string, deadline: Option<int>)
    requires Compatible(ttls) && ttl in ttls && IndexOk(m, now, ttls) && (ttl.Some? ==> ttl.value > 0)
    requires Indexed(m, now, k, x, deadline) || (x == id && deadline == if ttl.Some? then Some(now + ttl.value) else None)
    requires Bounded(deadline, now, ttls)
    ensures Indexed(IndexAdd(m, now, k, id, ttl), now, k, x, deadline)
  {
  }

  lemma IndexAddOthers(m: Keys<set<string>>, now: int, k: string, id: string, ttl: Option<int>, j: string)
    requires j != k
    ensures var m' := IndexAdd(m, now, k, id, ttl); (j in m' <==> j in m) && (j in m ==> m'[j] == m[j])
  {
  }

  lemma IndexAddOk(m: Keys<set<string>>, now: int, k: string, id: string, ttl: Option<int>, ttls: set<Option<int>>)
    requires Compatible(ttls) && ttl in ttls && IndexOk(m, now, ttls) && (ttl.Some? ==> ttl.value > 0)
    ensures IndexOk(IndexAdd(m, now, k, id, ttl), now, ttls)
    ensures forall j :: Smembers(IndexAdd(m, now, k, id, ttl), now, j) == Smembers(m, now,
                                                                                   j) + if j == k then {id} else {}
  {
  }

  lemma IndexedAfterAdd(m: Keys<set<string>>, now: int, k: string, id: string, ttl: Option<int>,
                        ttls: set<Option<int>>, j: string, x: string, deadline: Option<int>)
    requires Compatible(ttls) && ttl in ttls && IndexOk(m, now, ttls) && (ttl.Some? ==> ttl.value > 0)
    requires Indexed(m, now, j, x, deadline) && Bounded(deadline, now, ttls)
    ensures Indexed(IndexAdd(m, now, k, id, ttl), now, j, x, deadline)
  {
    if j == k {
      IndexAddKeeps(m, now, k, id, ttl, ttls, x, deadline);
    } else {
      IndexAddOthers(m, now, k, id, ttl, j);
    }
  }

  lemma SetSessionOk(s: Server, now: int, id: string, data: SessionData, ttl: Option<int>, ttls: set<Option<int>>,
                     owner: string -> SessionTable.Owner, x: string)
    requires Inv(s, now, ttls, owner) && Compatible(ttls) && ttl in ttls && (ttl.Some? ==> ttl.value > 0)
    ensures SessionOk(SetSession(s, now, id, data, ttl), now, ttls, x)
  {
    var deadline := if ttl.Some? then Some(now + ttl.value) else None;
    if x == id {
      assert Bounded(deadline, now, ttls);
      IndexAddKeeps(s.users, now, data.userId, id, ttl, ttls, x, deadline);
      if Truthy(data.device) {
        IndexAddKeeps(s.devices, now, data.device.value, id, ttl, ttls, x, deadline);
      }
    } else if Live(s.sessions, now, x) {
      assert SessionOk(s, now, ttls, x);
      var cell := s.sessions[x];
      IndexedAfterAdd(s.users, now, data.userId, id, ttl, ttls, cell.value.userId, x, cell.expireAt);
      if Truthy(data.device) && Truthy(cell.value.device) {
        IndexedAfterAdd(s.devices, now, data.device.value, id, ttl, ttls, cell.value.device.value, x, cell.expireAt);
      }
    }
  }

  lemma SetKeeps(s: Server, now: int, id: string, data: SessionData, ttl: Option<int>, ttls: set<Option<int>>,
                 owner: string -> SessionTable.Owner)
    requires Inv(s, now, ttls, owner) && Compatible(ttls) && ttl in ttls && (ttl.Some? ==> ttl.value > 0)
    requires data.userId == owner(id).user && data.device == owner(id).device
    ensures Inv(SetSession(s, now, id, data, ttl), now, ttls, owner)
  {
    hide SessionOk, IndexAdd;
    forall x ensures SessionOk(SetSession(s, now, id, data, ttl), now, ttls, x) {
      SetSessionOk(s, now, id, data, ttl, ttls, owner, x);
    }
    IndexAddOk(s.users, now, data.userId, id, ttl, ttls);
    if Truthy(data.device) {
      IndexAddOk(s.devices, now, data.device.value, id, ttl, ttls);
    }
  }

  /** Sets only lose members that are not asked about, and keep their deadlines. */
  ghost predicate Thinner(m: Keys<set<string>>, m': Keys<set<string>>, now: int) {
    && (forall k :: Live(m', now, k) ==> Live(m, now, k) && m'[k].expireAt == m[k].expireAt && m'[k].value <= m[k].value)
  }

  lemma RemovalKeeps(s: Server, s': Server, now: int, ttls: set<Option<int>>, owner: string -> SessionTable.Owner)
    requires Inv(s, now, ttls, owner)
    requires Thinner(s.users, s'.users, now) && Thinner(s.devices, s'.devices, now)
    requires forall id :: Live(s'.sessions, now, id) ==>
      && Live(s.sessions, now, id) && s'.sessions[id] == s.sessions[id]
      && id in Smembers(s'.users, now, s.sessions[id].value.userId)
      && (Truthy(s.sessions[id].value.device) ==> id in Smembers(s'.devices, now, s.sessions[id].value.device.value))
    ensures Inv(s', now, ttls, owner)
  {
    forall id ensures SessionOk(s', now, ttls, id) {
      assert SessionOk(s, now, ttls, id);
    }
    forall user, id | id in Smembers(s'.users, now, user) ensures owner(id).user == user {
      assert id in Smembers(s.users, now, user);
    }
    forall device, id | id in Smembers(s'.devices, now, device) ensures owner(id).device == Some(device) {
      assert id in Smembers(s.devices, now, device);
    }
  }

  lemma SremThinner(m: Keys<set<string>>, now: int, k: string, xs: set<string>)
    ensures Thinner(m, SremAll(m, now, k, xs), now)
    ensures forall j ::
      Smembers(SremAll(m, now, k, xs), now, j) == if j == k then Smembers(m, now, j) - xs else Smembers(m, now, j)
  {
  }

  lemma SremFromThinner(m: Keys<set<string>>, now: int, ks: set<string>, xs: set<string>)
    ensures Thinner(m, SremFrom(m, now, ks, xs), now)
    ensures forall j ::
      Smembers(SremFrom(m, now, ks, xs), now, j) == if j in ks then Smembers(m, now, j) - xs else Smembers(m, now, j)
  {
  }

  lemma DeleteKeeps(s: Server, now: int, id: string, ttls: set<Option<int>>, owner: string -> SessionTable.Owner)
    requires Inv(s, now, ttls, owner)
    ensures Inv(DeleteSession(s, now, id), now, ttls, owner)
  {
    var s' := DeleteSession(s, now, id);
    if Live(s.sessions, now, id) {
      var data := s.sessions[id].value;
      SremThinner(s.users, now, data.userId, {id});
      if Truthy(data.device) {
        SremThinner(s.devices, now, data.device.value, {id});
      }
    }
    InvCovers(s, now, ttls, owner);
    hide Inv, SremAll;
    forall x | Live(s'.sessions, now, x)
      ensures x in Smembers(s'.users, now, s.sessions[x].value.userId)
      ensures Truthy(s.sessions[x].value.device) ==> x in Smembers(s'.devices, now, s.sessions[x].value.device.value)
    {
      assert x in LiveTable(s, now) && x != id;
    }
    RemovalKeeps(s, s', now, ttls, owner);
  }

  /** A live session is in a user's index exactly when it is the user's. */
  lemma IndexIsUser(s: Server, now: int, ttls: set<Option<int>>, owner: string -> SessionTable.Owner, user: string)
    requires Inv(s, now, ttls, owner)
    ensures forall id :: id in LiveTable(s, now) ==>
      (id in Smembers(s.users, now, user) <==> LiveTable(s, now)[id].userId == user)
  {
    InvCovers(s, now, ttls, owner);
    forall id | id in LiveTable(s, now)
      ensures id in Smembers(s.users, now, user) <==> LiveTable(s, now)[id].userId == user
    {
      assert Live(s.sessions, now, id);
    }
  }

  lemma LessThinner(m: Keys<set<string>>, now: int, k: string)
    ensures Thinner(m, m - {k}, now)
  {
  }

  lemma DeleteUserKeeps(s: Server, now: int, user: string, ttls: set<Option<int>>, owner: string -> SessionTable.Owner)
    requires Inv(s, now, ttls, owner)
    ensures Inv(DeleteUser(s, now, user), now, ttls, owner)
  {
    hide Inv, SremFrom, Thinner;
    var s', ids := DeleteUser(s, now, user), Smembers(s.users, now, user);
    if ids != {} {
      LessThinner(s.users, now, user);
      SremFromThinner(s.devices, now, DevicesOf(s, now, ids), ids);
      InvCovers(s, now, ttls, owner);
      IndexIsUser(s, now, ttls, owner, user);
      forall x | Live(s'.sessions, now, x)
        ensures x in Smembers(s'.users, now, s.sessions[x].value.userId)
        ensures Truthy(s.sessions[x].value.device) ==> x in Smembers(s'.devices, now, s.sessions[x].value.device.value)
      {
        assert x in LiveTable(s, now);
      }
      RemovalKeeps(s, s', now, ttls, owner);
    }
  }

  lemma DeleteUserOnDeviceKeeps(s: Server, now: int, user: string, device: string, ttls: set<Option<int>>,
                                owner: string -> SessionTable.Owner)
    requires Inv(s, now, ttls, owner)
    ensures Inv(DeleteUserOnDevice(s, now, user, device), now, ttls, owner)
  {
    var s', ids := DeleteUserOnDevice(s, now, user, device), Smembers(s.users, now, user);
    var drop := OnIt(s, now, ids, device) + Gone(s, now, ids);
    SremThinner(s.users, now, user, drop);
    SremThinner(s.devices, now, device, drop);
    InvCovers(s, now, ttls, owner);
    hide Inv, SremAll, Thinner;
    forall x | Live(s'.sessions, now, x)
      ensures x in Smembers(s'.users, now, s.sessions[x].value.userId)
      ensures Truthy(s.sessions[x].value.device) ==> x in Smembers(s'.devices, now, s.sessions[x].value.device.value)
    {
      assert x in LiveTable(s, now) && (ids != {} ==> x !in drop);
    }
    RemovalKeeps(s, s', now, ttls, owner);
  }

  lemma RenewCell(m: Keys<SessionData>, now: int, id: string, ttl: Option<int>)
    requires Live(m, now, id) && ttl.Some?
    ensures Redis.Expire(m, now, id, ttl.value) == m[id := m[id].(expireAt := Some(now + ttl.value))]
  {
  }

  /** A renewal that serves leaves a deadline no later than it was, if there was one. */
  lemma RenewKeeps(s: Server, now: int, id: string, ttl: Option<int>, ttls: set<Option<int>>, renews: set<Option<int>>,
                   owner: string -> SessionTable.Owner)
    requires Inv(s, now, ttls, owner) && Serves(ttls, renews) && ttl in renews && (ttl.Some? ==> ttl.value > 0)
    ensures Inv(Renew(s, now, id, ttl), now, ttls, owner)
  {
    if ttl.Some? && Live(s.sessions, now, id) {
      RenewCell(s.sessions, now, id, ttl);
      forall x ensures SessionOk(Renew(s, now, id, ttl), now, ttls, x) {
        assert SessionOk(s, now, ttls, x);
        if x == id {
          RenewedOk(s, now, id, ttl.value, ttls, renews);
        }
      }
    }
  }

  lemma RenewedOk(s: Server, now: int, id: string, ttl: int, ttls: set<Option<int>>, renews: set<Option<int>>)
    requires SessionOk(s, now, ttls, id) && Live(s.sessions, now, id) && IndexOk(s.users, now,
                                                                                 ttls) && IndexOk(s.devices, now, ttls)
    requires Serves(ttls, renews) && Some(ttl) in renews && ttl > 0
    ensures
      var cell := s.sessions[id];
      && Bounded(Some(now + ttl), now, ttls)
      && Indexed(s.users, now, cell.value.userId, id, Some(now + ttl))
      && (Truthy(cell.value.device) ==> Indexed(s.devices, now, cell.value.device.value, id, Some(now + ttl)))
  {
    var a :| a in ttls && (a.Some? ==> s.sessions[id].expireAt.Some? && s.sessions[id].expireAt.value <= now + a.value);
  }

  // ---------- the same sessions as the table ----------

  /** The server's sessions are the table's, deadlines included. */
  ghost predicate Agrees(s: Server, t: SessionTable.State) {
    && (forall id :: Live(s.sessions, t.now, id) <==> id in t.recs && SessionTable.There(t.recs[id], t.now))
    && (forall id :: Live(s.sessions, t.now, id) ==>
      s.sessions[id] == Cell(t.recs[id].data, t.recs[id].deadline))
  }

  lemma AgreesLive(s: Server, t: SessionTable.State)
    requires Agrees(s, t)
    ensures LiveTable(s, t.now) == SessionTable.Live(t)
  {
  }

  ghost predicate GoodAct(a: SessionTable.Act, ttls: set<Option<int>>, renews: set<Option<int>>,
                          owner: string -> SessionTable.Owner)
  {
    && (a.Set? ==>
      && SessionTable.Seconds(a.ttl) in ttls
      && a.data.userId == owner(a.id).user && a.data.device == owner(a.id).device)
    && (a.Renewal? ==> SessionTable.Seconds(a.ttl) in renews)
  }

  ghost predicate PositiveTtls(ttls: set<Option<int>>) {
    forall a :: a in ttls && a.Some? ==> a.value > 0
  }

  lemma StepKeeps(s: Server, t: SessionTable.State, a: SessionTable.Act, ttls: set<Option<int>>,
                  renews: set<Option<int>>, owner: string -> SessionTable.Owner)
    requires Inv(s, t.now, ttls, owner) && Serves(ttls, renews) && PositiveTtls(ttls + renews)
    requires GoodAct(a, ttls, renews, owner)
    ensures Inv(Apply(s, t.now, a), SessionTable.Apply(t, a).now, ttls, owner)
  {
    hide Inv, SetSession, DeleteSession, DeleteUser, DeleteUserOnDevice, Renew;
    match a
    case Set(id, data, ttl) => SetKeeps(s, t.now, id, data, SessionTable.Seconds(ttl), ttls, owner);
    case Delete(id) => DeleteKeeps(s, t.now, id, ttls, owner);
    case DeleteUser(user) => DeleteUserKeeps(s, t.now, user, ttls, owner);
    case DeleteUserOnDevice(user, device) => DeleteUserOnDeviceKeeps(s, t.now, user, device, ttls, owner);
    case Renewal(id, ttl) => RenewKeeps(s, t.now, id, SessionTable.Seconds(ttl), ttls, renews, owner);
    case Fire(_) =>
    case Wait(d) => LaterKeeps(s, t.now, t.now + d, ttls, owner);
  }

  /** What is live of two collections is still the same once the same live sessions have gone from both. */
  lemma LossAgrees(s: Server, t: SessionTable.State, s': Server, gone: set<string>, gone': set<string>)
    requires Agrees(s, t) && s'.sessions == s.sessions - gone
    requires forall id :: id in SessionTable.Live(t) ==> (id in gone <==> id in gone')
    ensures Agrees(s', t.(recs := t.recs - gone'))
  {
  }

  lemma SetAgrees(s: Server, t: SessionTable.State, id: string, data: SessionData, ttl: Option<int>)
    requires Agrees(s, t)
    ensures Agrees(SetSession(s, t.now, id, data, SessionTable.Seconds(ttl)),
                   SessionTable.Apply(t, SessionTable.Set(id, data, ttl)))
  {
    hide IndexAdd;
  }

  lemma StepAgrees(s: Server, t: SessionTable.State, a: SessionTable.Act, ttls: set<Option<int>>,
                   owner: string -> SessionTable.Owner)
    requires Inv(s, t.now, ttls, owner) && Agrees(s, t)
    ensures Agrees(Apply(s, t.now, a), SessionTable.Apply(t, a))
  {
    hide Inv, Agrees, SetSession, SremFrom, SremAll;
    AgreesLive(s, t);
    match a
    case Set(id, data, ttl) => SetAgrees(s, t, id, data, ttl);
    case Delete(id) => LossAgrees(s, t, DeleteSession(s, t.now, id), {id}, {id});
    case DeleteUser(user) =>
      IndexIsUser(s, t.now, ttls, owner, user);
      LossAgrees(s, t, DeleteUser(s, t.now, user), Smembers(s.users, t.now, user), OfUser(SessionTable.Live(t), user));
    case DeleteUserOnDevice(user, device) =>
      IndexIsUser(s, t.now, ttls, owner, user);
      LossAgrees(s, t, DeleteUserOnDevice(s, t.now, user, device),
                 OnIt(s, t.now, Smembers(s.users, t.now, user), device),
                 OfUserOnDevice(SessionTable.Live(t), user, device));
    case Renewal(id, ttl) => RenewAgrees(s, t, id, ttl);
    case Fire(_) =>
    case Wait(d) => WaitAgrees(s, t, d);
  }

  lemma RenewAgrees(s: Server, t: SessionTable.State, id: string, ttl: Option<int>)
    requires Agrees(s, t)
    ensures Agrees(Renew(s, t.now, id, SessionTable.Seconds(ttl)), SessionTable.Apply(t, SessionTable.Renewal(id, ttl)))
  {
    hide SessionTable.Seconds;
  }

  lemma WaitAgrees(s: Server, t: SessionTable.State, d: nat)
    requires Agrees(s, t)
    ensures Agrees(s, t.(now := t.now + d))
  {
  }

  lemma {:induction false} RunAgrees(acts: seq<SessionTable.Act>, ttls: set<Option<int>>, renews: set<Option<int>>,
                                     owner: string -> SessionTable.Owner)
    requires SessionTable.Owned(acts, owner) && SessionTable.TtlsIn(acts, ttls) && SessionTable.RenewalsIn(acts, renews)
    requires Serves(ttls, renews) && PositiveTtls(ttls + renews)
    ensures
      var s, t := Run(acts), SessionTable.Run(acts);
      Inv(s, t.now, ttls, owner) && Agrees(s, t)
  {
    if acts != [] {
      var before, a := acts[..|acts| - 1], acts[|acts| - 1];
      RunAgrees(before, ttls, renews, owner);
      StepKeeps(Run(before), SessionTable.Run(before), a, ttls, renews, owner);
      StepAgrees(Run(before), SessionTable.Run(before), a, ttls, owner);
    }
  }

  /** Of a device's set, the live sessions are exactly those on the device. */
  lemma IndexIsDevice(s: Server, now: int, ttls: set<Option<int>>, owner: string -> SessionTable.Owner, device: string)
    requires Inv(s, now, ttls, owner) && device != ""
    ensures There(s, now, Smembers(s.devices, now, device)) == OnDevice(LiveTable(s, now), device)
  {
    InvCovers(s, now, ttls, owner);
    forall id | id in LiveTable(s, now)
      ensures id in Smembers(s.devices, now, device) <==> LiveTable(s, now)[id].device == Some(device)
    {
      assert Live(s.sessions, now, id);
    }
  }

  /**
   Under lifetimes the indexes serve, after every schedule the Redis store holds the table's sessions and
   answers its queries: a user's sessions, and a user's sessions on a device, are exactly the table's, and
   so are the sessions of a device's set that are there.
   */
  lemma AnswersLikeTable(acts: seq<SessionTable.Act>, ttls: set<Option<int>>, renews: set<Option<int>>,
                         owner: string -> SessionTable.Owner, user: string, device: string)
    requires SessionTable.Owned(acts, owner) && SessionTable.TtlsIn(acts, ttls) && SessionTable.RenewalsIn(acts, renews)
    requires Serves(ttls, renews) && PositiveTtls(ttls + renews)
    ensures
      var s, t := Run(acts), SessionTable.Run(acts);
      var listed := Smembers(s.users, t.now, user);
      && LiveTable(s, t.now) == SessionTable.Live(t)
      && There(s, t.now, listed) == OfUser(SessionTable.Live(t), user)
      && OnIt(s, t.now, listed, device) == OfUserOnDevice(SessionTable.Live(t), user, device)
      && (device != "" ==> There(s, t.now, Smembers(s.devices, t.now, device)) == OnDevice(SessionTable.Live(t), device))
  {
    hide Inv, Agrees, Run, SessionTable.Run;
    var s, t := Run(acts), SessionTable.Run(acts);
    RunAgrees(acts, ttls, renews, owner);
    AgreesLive(s, t);
    IndexIsUser(s, t.now, ttls, owner, user);
    if device != "" {
      IndexIsDevice(s, t.now, ttls, owner, device);
    }
  }
}
