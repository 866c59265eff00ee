/**
 Login over the in-memory session store, from the policy to the stored session, at one instant: what a
 login does when no other runs beside it. `LoginProtocol` is about logins that do.
 */
module AuthService {
  import opened Js
  import opened Sessions
  import opened LoginPolicy
  import opened MemoryStore
  import Runs = MemoryStoreRuns

  datatype Config = Config(policy: Policy, maxSame: int, multiAccount: bool, maxAccounts: int,
                           tokenTtl: Option<int>, rememberMeTtl: Option<int>)

  /** `TypeError` is the exception of reading a session past the end of the list. */
  datatype Outcome = Success | LimitExceeded | TypeError

  datatype Request = Request(user: string, device: Option<string>, sessionId: string, rememberMe: bool)

  /** `rememberMeTtl || tokenTtl` for a remembered login. */
  function TtlFor(cfg: Config, rememberMe: bool): Option<int> {
    if rememberMe && cfg.rememberMeTtl.Some? && cfg.rememberMeTtl.value != 0 then cfg.rememberMeTtl else cfg.tokenTtl
  }

  /** The sessions a read would find: stored and not past their deadline. */
  function Unexpired(s: Store, now: int): Table {
    map id | id in s.store.m && now <= s.store.m[id].expireAt :: s.store.m[id].data
  }

  function First(ids: seq<string>, k: nat): set<string>
    requires k <= |ids|
  {
    set id | id in ids[..k]
  }

  function Clip(k: int, n: nat): nat {
    if k <= 0 then 0 else if k > n then n else k
  }

  /** The store after the policy's deletions. */
  function ApplyPolicy(cfg: Config, s: Store, user: string, device: Option<string>): Store
  {
    match cfg.policy
    case Single => DeleteAll(s, OfUser(View(s), user))
    case Multiple => s
    case MutualExclusion =>
      if Truthy(device) then
        var ids := ByCreateTime(View(s), Keep(s.store.order, OfUserOnDevice(View(s), user, device.value)));
        DeleteAll(s, First(ids, Overflow(|ids|, cfg.maxSame)))
      else s
  }

  /** The store after the sessions listed were read, one by one. */
  function GetAll(s: Store, now: int, ids: seq<string>): Store {
    if ids == [] then s else GetSession(GetAll(s, now, ids[..|ids| - 1]), now, ids[|ids| - 1]).0
  }

  function UsersOn(t: Table, device: string): set<string> {
    set id | id in OnDevice(t, device) :: t[id].userId
  }

  /** The user's unexpired sessions on the device, oldest first. */
  function Mine(s: Store, now: int, user: string, device: string): seq<string>
  {
    ByCreateTime(Unexpired(s, now), Keep(s.store.order, OfUserOnDevice(Unexpired(s, now), user, device)))
  }

  predicate OverLimit(cfg: Config, s: Store, now: int, user: string, device: string) {
    var users := UsersOn(Unexpired(s, now), device);
    user !in users && |users| >= cfg.maxAccounts
  }

  function Listed(s: Store, device: string): seq<string> {
    Keep(s.store.order, OnDevice(View(s), device))
  }

  /** The store after the multi-account check, and whether the login may go on. */
  function MultiAccount(cfg: Config, s: Store, now: int, user: string, device: string): (Store, Outcome)
  {
    if !cfg.multiAccount then (s, Success)
    else
      var s1 := GetAll(s, now, Listed(s, device));
      if OverLimit(cfg, s, now, user, device) then (s1, LimitExceeded)
      else
        var mine := Mine(s, now, user, device);
        (DeleteAll(s1, First(mine, Overflow(|mine|, cfg.maxSame))),
         if mine != [] && cfg.maxSame <= 0 then TypeError else Success)
  }

  /** The store a login leaves, and what comes of it. */
  function Login(cfg: Config, s: Store, maxSize: nat, now: int, q: Request): (Store, Outcome)
  {
    var s1 := ApplyPolicy(cfg, s, q.user, q.device);
    var (s2, outcome) := if Truthy(q.device) then MultiAccount(cfg, s1, now, q.user, q.device.value) else (s1, Success);
    if !outcome.Success? then (s2, outcome)
    else
      var data := SessionData(q.user, q.device, now);
      (SetSession(s2, maxSize, now, q.sessionId, data, TtlFor(cfg, q.rememberMe)), Success)
  }

  // ---------- the two maps stay in step ----------

  lemma PolicyKeeps(cfg: Config, s: Store, user: string, device: Option<string>)
    requires SameKeys(s)
    ensures SameKeys(ApplyPolicy(cfg, s, user, device))
  {
    hide SameKeys, DeleteAll;
    match cfg.policy
    case Single => Runs.DeleteAllKeeps(s, OfUser(View(s), user));
    case Multiple =>
    case MutualExclusion =>
      if Truthy(device) {
        var ids := ByCreateTime(View(s), Keep(s.store.order, OfUserOnDevice(View(s), user, device.value)));
        Runs.DeleteAllKeeps(s, First(ids, Overflow(|ids|, cfg.maxSame)));
      }
  }

  lemma GetKeeps(s: Store, now: int, id: string)
    requires SameKeys(s)
    ensures SameKeys(GetSession(s, now, id).0)
  {
    hide SameKeys, InternalDelete, Touch;
    Runs.DeleteKeeps(s, id);
    if id in s.store.m {
      Runs.TouchKeeps(s, id);
    }
  }

  lemma {:induction false} GetAllKeeps(s: Store, now: int, ids: seq<string>)
    requires SameKeys(s)
    ensures SameKeys(GetAll(s, now, ids))
  {
    hide SameKeys, GetSession;
    if ids != [] {
      GetAllKeeps(s, now, ids[..|ids| - 1]);
      GetKeeps(GetAll(s, now, ids[..|ids| - 1]), now, ids[|ids| - 1]);
    }
  }

  lemma SetKeeps(s: Store, maxSize: nat, now: int, id: string, data: SessionData, ttl: Option<int>)
    requires SameKeys(s)
    ensures SameKeys(SetSession(s, maxSize, now, id, data, ttl))
  {
    hide SameKeys, Assign, InternalDelete;
    var s1 := Assign(s, now, id, data, ttl);
    Runs.AssignKeeps(s, now, id, data, ttl);
    if s1.lru != [] {
      Runs.DeleteKeeps(s1, s1.lru[0]);
    }
  }

  lemma LoginKeeps(cfg: Config, s: Store, maxSize: nat, now: int, q: Request)
    requires SameKeys(s)
    ensures SameKeys(ApplyPolicy(cfg, s, q.user, q.device)) && SameKeys(Login(cfg, s, maxSize, now, q).0)
  {
    hide SameKeys, ApplyPolicy, GetAll, DeleteAll, SetSession;
    var s1 := ApplyPolicy(cfg, s, q.user, q.device);
    PolicyKeeps(cfg, s, q.user, q.device);
    var s2 := s1;
    if Truthy(q.device) && cfg.multiAccount {
      GetAllKeeps(s1, now, Listed(s1, q.device.value));
      var mine := Mine(s1, now, q.user, q.device.value);
      s2 := GetAll(s1, now, Listed(s1, q.device.value));
      Runs.DeleteAllKeeps(s2, First(mine, Overflow(|mine|, cfg.maxSame)));
      s2 := DeleteAll(s2, First(mine, Overflow(|mine|, cfg.maxSame)));
    }
    SetKeeps(s2, maxSize, now, q.sessionId, SessionData(q.user, q.device, now), TtlFor(cfg, q.rememberMe));
  }

  lemma MineNoDup(s: Store, now: int, user: string, device: string)
    requires s.store.Valid()
    ensures NoDup(Mine(s, now, user, device))
  {
    var mine := OfUserOnDevice(Unexpired(s, now), user, device);
    KeepNoDup(s.store.order, mine);
    ByCreateTimeSorts(Unexpired(s, now), Keep(s.store.order, mine));
  }

  // ---------- reading every session listed ----------

  /** Reading drops what has expired and changes no session. */
  lemma {:induction false} GetAllItems(s: Store, now: int, ids: seq<string>, id: string)
    ensures
      var m := GetAll(s, now, ids).store.m;
      && (id in m <==> id in s.store.m && (id in ids ==> now <= s.store.m[id].expireAt))
      && (id in m ==> m[id] == s.store.m[id])
  {
    if ids != [] {
      var before, last := ids[..|ids| - 1], ids[|ids| - 1];
      assert ids == before + [last];
      GetAllItems(s, now, before, id);
      GetAllItems(s, now, before, last);
      GetItems(GetAll(s, now, before), now, last, id);
    }
  }

  lemma GetItems(s: Store, now: int, x: string, id: string)
    ensures
      var m := GetSession(s, now, x).0.store.m;
      && (id in m <==> id in s.store.m && (id == x ==> now <= s.store.m[id].expireAt))
      && (id in m ==> m[id] == s.store.m[id])
  {
  }

  lemma GetAllUnexpired(s: Store, now: int, ids: seq<string>)
    ensures Unexpired(GetAll(s, now, ids), now) == Unexpired(s, now)
  {
    hide GetAll;
    forall id ensures id in Unexpired(GetAll(s, now, ids), now) <==> id in Unexpired(s, now)
      ensures id in Unexpired(s, now) ==> Unexpired(GetAll(s, now, ids), now)[id] == Unexpired(s, now)[id]
    {
      GetAllItems(s, now, ids, id);
    }
  }

  /** What reading the session after those before it finds. */
  lemma GetNext(s: Store, now: int, before: seq<string>, id: string)
    requires id !in before && id in s.store.m
    ensures GetSession(GetAll(s, now, before), now, id).1 ==
      if id in Unexpired(s, now) then Some(Unexpired(s, now)[id]) else None
  {
    hide GetAll;
    GetAllItems(s, now, before, id);
  }

  lemma {:induction false} SortAgree(t: Table, u: Table, ids: seq<string>)
    requires forall id :: id in ids ==> id in t && id in u && t[id] == u[id]
    ensures ByCreateTime(t, ids) == ByCreateTime(u, ids)
  {
    if ids != [] {
      SortAgree(t, u, ids[1..]);
      InsertAgree(t, u, ids[0], ByCreateTime(t, ids[1..]));
    }
  }

  lemma {:induction false} InsertAgree(t: Table, u: Table, id: string, sorted: seq<string>)
    requires id in t && id in u && t[id] == u[id]
    requires forall x :: x in sorted ==> x in t && x in u && t[x] == u[x]
    ensures InsertByTime(t, id, sorted) == InsertByTime(u, id, sorted)
  {
    if sorted != [] {
      InsertAgree(t, u, id, sorted[1..]);
    }
  }

  /** The sessions the loop has found among the first i listed. */
  ghost predicate FoundSoFar(u: Table, seen: seq<string>, sessions: seq<string>, found: Table, users: set<string>) {
    && sessions == Keep(seen, u.Keys)
    && (forall id :: id in found <==> id in sessions)
    && (forall id :: id in found ==> id in u && found[id] == u[id])
    && users == set id | id in found :: found[id].userId
  }

  lemma FoundNone(u: Table)
    ensures FoundSoFar(u, [], [], map[], {})
  {
  }

  lemma FoundOneMore(u: Table, seen: seq<string>, sessions: seq<string>, found: Table, users: set<string>, id: string)
    requires FoundSoFar(u, seen, sessions, found, users)
    ensures
      if id in u then FoundSoFar(u, seen + [id], sessions + [id], found[id := u[id]], users + {u[id].userId})
      else FoundSoFar(u, seen + [id], sessions, found, users)
  {
    KeepSnoc(seen, id, u.Keys);
    if id in u {
      var found' := found[id := u[id]];
      assert id in found' && found'[id].userId == u[id].userId;
      assert forall x :: x in found ==> found'[x].userId == found[x].userId;
      assert (set x | x in found' :: found'[x].userId) == users + {u[id].userId};
    }
  }

  /** The loop over all the device's sessions has found the unexpired ones, their users, and the user's own. */
  lemma FoundAll(s: Store, now: int, user: string, device: string, sessions: seq<string>, found: Table,
                 users: set<string>)
    requires s.store.Valid()
    requires FoundSoFar(Unexpired(s, now), Listed(s, device), sessions, found, users)
    ensures users == UsersOn(Unexpired(s, now), device)
    ensures forall id :: id in Keep(sessions, OfUser(found, user)) ==> id in found
    ensures ByCreateTime(found, Keep(sessions, OfUser(found, user))) == Mine(s, now, user, device)
  {
    hide ByCreateTime, Keep;
    var u, order := Unexpired(s, now), s.store.order;
    var onIt := OnDevice(View(s), device);
    KeepKeep(order, onIt, u.Keys);
    assert onIt * u.Keys == OnDevice(u, device);
    assert forall id :: id in found <==> id in OnDevice(u, device);
    assert users == UsersOn(u, device);
    KeepKeep(order, OnDevice(u, device), OfUser(found, user));
    assert OnDevice(u, device) * OfUser(found, user) == OfUserOnDevice(u, user, device);
    SortAgree(found, u, Keep(order, OfUserOnDevice(u, user, device)));
  }

  // ---------- the object ----------

  class AuthService {
    const cfg: Config
    const store: MemoryStore

    constructor (cfg: Config, store: MemoryStore)
      ensures this.cfg == cfg && this.store == store
    {
      this.cfg := cfg;
      this.store := store;
    }

    /** One session deleted for each that is over; past the end of the list there is nothing to delete. */
    method DeleteOldest(ids: seq<string>, overflow: int)
      requires NoDup(ids)
      modifies store
      ensures store.State() == DeleteAll(old(store.State()), First(ids, Clip(overflow, |ids|)))
    {
      ghost var s0 := store.State();
      DeleteNone(s0);
      assert First(ids, 0) == {};
      var i := 0;
      while i < overflow
        invariant 0 <= i && (overflow >= 0 ==> i <= overflow) && (overflow < 0 ==> i == 0)
        invariant store.State() == DeleteAll(s0, First(ids, Clip(i, |ids|)))
      {
        if i < |ids| {
          assert ids[..i + 1] == ids[..i] + [ids[i]];
          assert First(ids, i + 1) == First(ids, i) + {ids[i]};
          DeleteOneMore(s0, First(ids, i), ids[i]);
          store.Delete(ids[i]);
        }
        i := i + 1;
      }
    }

    method HandleMultiAccountLogin(user: string, device: string, now: int) returns (outcome: Outcome)
      requires SameKeys(store.State())
      modifies store
      ensures (store.State(), outcome) == MultiAccount(cfg, old(store.State()), now, user, device)
    {
      hide FoundSoFar, ByCreateTime, Keep, DeleteAll, UsersOn, Unexpired, GetSession, OnDevice, OfUser, NoDup;
      if !cfg.multiAccount {
        return Success;
      }
      ghost var s0 := store.State();
      var ids := store.ListByDevice(device);
      KeepNoDup(s0.store.order, OnDevice(View(s0), device));
      var users: set<string>, found: Table, sessions: seq<string> := {}, map[], [];
      FoundNone(Unexpired(s0, now));
      for i := 0 to |ids|
        invariant store.State() == GetAll(s0, now, ids[..i])
        invariant FoundSoFar(Unexpired(s0, now), ids[..i], sessions, found, users)
      {
        assert ids[..i + 1] == ids[..i] + [ids[i]];
        GetNext(s0, now, ids[..i], ids[i]);
        FoundOneMore(Unexpired(s0, now), ids[..i], sessions, found, users, ids[i]);
        var session := store.Get(ids[i], now);
        if session.Some? {
          users := users + {session.value.userId};
          found := found[ids[i] := session.value];
          sessions := sessions + [ids[i]];
        }
      }
      assert ids[..|ids|] == ids;
      FoundAll(s0, now, user, device, sessions, found, users);
      if user !in users && |users| >= cfg.maxAccounts {
        return LimitExceeded;
      }
      var userSessions := ByCreateTime(found, Keep(sessions, OfUser(found, user)));
      MineNoDup(s0, now, user, device);
      DeleteNone(store.State());
      assert First(userSessions, 0) == {};
      if userSessions != [] {
        var overflow := |userSessions| - cfg.maxSame + 1;
        DeleteOldest(userSessions, overflow);
        if overflow > |userSessions| {
          return TypeError;
        }
      }
      return Success;
    }

    /** The in-memory store cannot delete by user and device, so a kick ends all the user's sessions. */
    method KickUser(user: string, device: Option<string>)
      requires SameKeys(store.State())
      modifies store
      ensures store.State() == DeleteAll(old(store.State()), OfUser(View(old(store.State())), user))
    {
      store.DeleteByUserId(user);
    }

    method LoginUser(q: Request, now: int) returns (outcome: Outcome)
      requires SameKeys(store.State())
      modifies store
      ensures SameKeys(store.State())
      ensures (store.State(), outcome) == Login(cfg, old(store.State()), store.maxSize, now, q)
    {
      hide SameKeys, ByCreateTime, Keep, DeleteAll, MultiAccount, SetSession, OldestFirst, NoDup, OfUser;
      hide OfUserOnDevice, View;
      ghost var s0 := store.State();
      LoginKeeps(cfg, s0, store.maxSize, now, q);
      if cfg.policy == Single {
        store.DeleteByUserId(q.user);
      } else if cfg.policy == MutualExclusion && Truthy(q.device) {
        var sessionIds := store.ListByUserIdAndDevice(q.user, q.device.value);
        DeleteOldest(sessionIds, |sessionIds| - cfg.maxSame + 1);
      }
      assert store.State() == ApplyPolicy(cfg, s0, q.user, q.device);
      if Truthy(q.device) {
        outcome := HandleMultiAccountLogin(q.user, q.device.value, now);
        if !outcome.Success? {
          return;
        }
      }
      store.Set(q.sessionId, SessionData(q.user, q.device, now), TtlFor(cfg, q.rememberMe), now);
      return Success;
    }
  }
}
