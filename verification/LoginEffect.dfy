/**
 All that one login does to what is stored, told by the sessions before and after: which go for the policy, which
 were found expired, which make room, what is stored and for how long.
 */
module LoginEffect {
  import opened Js
  import opened Sessions
  import opened LoginPolicy
  import opened MemoryStore
  import opened AuthService
  import opened AuthLogins
  import AuthRuns
  import Runs = MemoryStoreRuns

  /** How many sessions a user may have on a device for one more to come. */
  ghost function Room(cfg: Config): nat {
    if cfg.maxSame <= 1 then 0 else cfg.maxSame - 1
  }

  /** Of `mine` as many as there is room for stay, the newest; the rest go, and nothing else. */
  ghost predicate MakesRoom(t: Table, t': Table, mine: set<string>, room: nat) {
    && Fewer(t, t') && (forall id :: id in t && id !in mine ==> id in t')
    && |mine * t'.Keys| == (if |mine| <= room then |mine| else room)
    && NewestStay(t, t', mine)
  }

  /** What a policy leaves of a table of sessions. */
  ghost predicate AfterPolicy(cfg: Config, t: Table, user: string, device: Option<string>, t': Table) {
    match cfg.policy
    case Single => t' == t - OfUser(t, user)
    case Multiple => t' == t
    case MutualExclusion =>
      if device.Some? && device.value != "" then MakesRoom(t, t', OfUserOnDevice(t, user, device.value), Room(cfg))
      else t' == t
  }

  /** Without what has expired on the device. */
  ghost function StillThere(s: Store, now: int, t: Table, device: string): Table {
    map id | id in t && (t[id].device == Some(device) && id in s.store.m ==> now <= s.store.m[id].expireAt) :: t[id]
  }

  ghost predicate Checked(cfg: Config, q: Request) {
    cfg.multiAccount && q.device.Some? && q.device.value != ""
  }

  ghost predicate Refused(cfg: Config, t: Table, q: Request)
    requires q.device.Some?
  {
    q.user !in UsersOn(t, q.device.value) && |UsersOn(t, q.device.value)| >= cfg.maxAccounts
  }

  /** The lifetime of the session a login stores: its own when remembered and not 0, else a token's. */
  ghost function Deadline(cfg: Config, q: Request, now: int): int {
    var ttl := if q.rememberMe && cfg.rememberMeTtl.Some? && cfg.rememberMeTtl.value != 0 then cfg.rememberMeTtl
               else cfg.tokenTtl;
    if ttl.Some? && ttl.value != 0 then now + ttl.value else MAX_SAFE_INTEGER
  }

  // ---------- making room ----------

  lemma OverflowLeaves(n: nat, cfg: Config)
    ensures n - Overflow(n, cfg.maxSame) == if n <= Room(cfg) then n else Room(cfg)
  {
  }

  /** The front of an oldest-first list goes, as much of it as is over. */
  lemma FrontMakesRoom(cfg: Config, t: Table, scope: set<string>, ids: seq<string>)
    requires OldestFirst(t, scope, ids) && (forall id :: id in scope ==> id in t)
    ensures MakesRoom(t, t - First(ids, Overflow(|ids|, cfg.maxSame)), scope, Room(cfg))
  {
    hide OldestFirst, Overflow, Room, MakesRoom, NewestStay, First;
    var k := Overflow(|ids|, cfg.maxSame);
    var gone := First(ids, k);
    FrontGone(t, scope, ids, cfg.maxSame);
    ListSize(t, scope, ids);
    ScopeSize(ids, scope, k);
    OverflowLeaves(|ids|, cfg);
    GoneMakesRoom(t, scope, gone, Room(cfg));
  }

  lemma GoneMakesRoom(t: Table, scope: set<string>, gone: set<string>, room: nat)
    requires gone <= scope && (forall id :: id in scope ==> id in t)
    requires |scope - gone| == if |scope| <= room then |scope| else room
    requires forall x, y :: x in gone && y in scope && y !in gone ==> t[x].createTime <= t[y].createTime
    ensures MakesRoom(t, t - gone, scope, room)
  {
    assert scope * (t - gone).Keys == scope - gone;
  }

  lemma ListSize(t: Table, scope: set<string>, ids: seq<string>)
    requires OldestFirst(t, scope, ids)
    ensures NoDup(ids) && (forall id :: id in ids <==> id in scope) && |ids| == |scope|
  {
    NoDupSize(ids, scope);
  }

  lemma ExclusionMakesRoom(cfg: Config, s: Store, user: string, device: string)
    requires s.store.Valid() && cfg.policy.MutualExclusion? && device != ""
    ensures MakesRoom(View(s), View(ApplyPolicy(cfg, s, user, Some(device))), OfUserOnDevice(View(s), user, device),
                      Room(cfg))
  {
    hide OldestFirst, Overflow, ByCreateTime, DeleteAll, OfUserOnDevice, MakesRoom, Room;
    var t, scope := View(s), OfUserOnDevice(View(s), user, device);
    var ids := ByCreateTime(t, Keep(s.store.order, scope));
    KeepNoDup(s.store.order, scope);
    ScopeStored(s, scope);
    InTable(t, user, device);
    SortedListing(t, Keep(s.store.order, scope), scope);
    FrontMakesRoom(cfg, t, scope, ids);
    AuthRuns.DeletedStored(s, First(ids, Overflow(|ids|, cfg.maxSame)));
  }

  lemma PolicyLeaves(cfg: Config, s: Store, user: string, device: Option<string>)
    requires s.store.Valid()
    ensures AfterPolicy(cfg, View(s), user, device, View(ApplyPolicy(cfg, s, user, device)))
  {
    hide MakesRoom, DeleteAll, OfUser, OfUserOnDevice, View;
    match cfg.policy
    case Single => AuthRuns.DeletedStored(s, OfUser(View(s), user));
    case Multiple =>
    case MutualExclusion =>
      if device.Some? && device.value != "" {
        ExclusionMakesRoom(cfg, s, user, device.value);
      }
  }

  // ---------- the account check ----------

  /** Nothing is added, and what stays keeps its data and its deadline. */
  ghost predicate Untouched(before: Store, after: Store) {
    forall id :: id in after.store.m ==>
      id in before.store.m && after.store.m[id].data == before.store.m[id].data
      && after.store.m[id].expireAt == before.store.m[id].expireAt
  }

  lemma PolicyUntouched(cfg: Config, s: Store, user: string, device: Option<string>)
    ensures Untouched(s, ApplyPolicy(cfg, s, user, device))
  {
    hide ByCreateTime, Keep, Overflow;
  }

  lemma ReadLeaves(s: Store, now: int, device: string)
    requires s.store.Valid()
    ensures
      var s' := GetAll(s, now, Listed(s, device));
      View(s') == StillThere(s, now, View(s), device) && Untouched(s, s')
  {
    hide GetAll;
    forall id
      ensures
        var m := GetAll(s, now, Listed(s, device)).store.m;
        && (id in m <==> id in s.store.m && (id in Listed(s, device) ==> now <= s.store.m[id].expireAt))
        && (id in m ==> m[id] == s.store.m[id])
    {
      GetAllItems(s, now, Listed(s, device), id);
    }
  }

  /** On the device, what is still there is what is unexpired. */
  lemma ThereIsUnexpired(s: Store, now: int, user: string, device: string)
    ensures
      var t, u := StillThere(s, now, View(s), device), Unexpired(s, now);
      && OnDevice(t, device) == OnDevice(u, device) && (forall id :: id in OnDevice(u, device) ==> t[id] == u[id])
      && OfUserOnDevice(t, user, device) == OfUserOnDevice(u, user, device) && UsersOn(t, device) == UsersOn(u, device)
  {
    var t, u := StillThere(s, now, View(s), device), Unexpired(s, now);
    assert OnDevice(t, device) == OnDevice(u, device);
  }

  lemma SameOldestFirst(t: Table, u: Table, scope: set<string>, ids: seq<string>)
    requires OldestFirst(u, scope, ids) && (forall id :: id in scope ==> id in t && id in u && t[id] == u[id])
    ensures OldestFirst(t, scope, ids)
  {
    forall i, j | 0 <= i < j < |ids| ensures t[ids[i]].createTime <= t[ids[j]].createTime {
      assert ids[i] in scope && ids[j] in scope;
    }
  }

  lemma CheckLeaves(cfg: Config, s: Store, now: int, q: Request)
    requires s.store.Valid() && Checked(cfg, q)
    ensures
      var (s', outcome) := MultiAccount(cfg, s, now, q.user, q.device.value);
      var t := StillThere(s, now, View(s), q.device.value);
      var mine := OfUserOnDevice(t, q.user, q.device.value);
      && (outcome == LimitExceeded <==> Refused(cfg, t, q))
      && (outcome == TypeError <==> !Refused(cfg, t, q) && cfg.maxSame <= 0 && mine != {})
      && (if Refused(cfg, t, q) then View(s') == t else MakesRoom(t, View(s'), mine, Room(cfg)))
      && Untouched(s, s')
  {
    hide OldestFirst, Overflow, GetAll, DeleteAll, Mine, MakesRoom, Room, UsersOn, Unexpired, OfUserOnDevice;
    hide StillThere, View, OnDevice;
    var device := q.device.value;
    var t, u, s1 := StillThere(s, now, View(s), device), Unexpired(s, now), GetAll(s, now, Listed(s, device));
    var scope, mine := OfUserOnDevice(t, q.user, device), Mine(s, now, q.user, device);
    ReadLeaves(s, now, device);
    ThereIsUnexpired(s, now, q.user, device);
    MineListing(s, now, q.user, device);
    OnBoth(t, u, q.user, device);
    SameOldestFirst(t, u, scope, mine);
    FrontMakesRoom(cfg, t, scope, mine);
    MineEmpty(t, scope, mine);
    MineUser(u, q.user, device);
    var gone := First(mine, Overflow(|mine|, cfg.maxSame));
    AuthRuns.DeletedStored(s1, gone);
    DeletedUntouched(s, s1, gone);
  }

  lemma OnBoth(t: Table, u: Table, user: string, device: string)
    requires OnDevice(t, device) == OnDevice(u, device) && (forall id :: id in OnDevice(u, device) ==> t[id] == u[id])
    ensures forall id :: id in OfUserOnDevice(t, user, device) ==> id in t && id in u && t[id] == u[id]
  {
  }

  lemma DeletedUntouched(s: Store, s1: Store, gone: set<string>)
    requires Untouched(s, s1)
    ensures Untouched(s, DeleteAll(s1, gone))
  {
  }

  // ---------- storing ----------

  lemma SetLeaves(s: Store, maxSize: nat, now: int, id: string, data: SessionData, ttl: Option<int>)
    requires SameKeys(s)
    ensures
      var s', added := SetSession(s, maxSize, now, id, data, ttl), View(s)[id := data];
      && Fewer(added, View(s')) && |added| - 1 <= |View(s')|
      && (maxSize == 0 || |added| <= maxSize ==> View(s') == added)
      && id in s'.store.m && s'.store.m[id].expireAt == ExpireAt(now, ttl)
      && (forall x :: x in s'.store.m && x != id ==> x in s.store.m && s'.store.m[x] == s.store.m[x])
  {
    hide SameKeys, Assign, InternalDelete;
    var s1 := Assign(s, now, id, data, ttl);
    Runs.AssignKeeps(s, now, id, data, ttl);
    AssignedItems(s, now, id, data, ttl);
    AssignLru(s, now, id, data, ttl);
    ViewSize(s1);
    LruHead(s1, id);
    if maxSize != 0 && |s1.store.m| > maxSize && s1.lru[0] != "" {
      DeletedItem(s1, s1.lru[0]);
    }
  }

  lemma AssignedItems(s: Store, now: int, id: string, data: SessionData, ttl: Option<int>)
    ensures
      var m := Assign(s, now, id, data, ttl).store.m;
      && id in m && m[id].expireAt == ExpireAt(now, ttl) && View(Assign(s, now, id, data, ttl)) == View(s)[id := data]
      && (forall x :: x in m && x != id ==> x in s.store.m && m[x] == s.store.m[x])
  {
  }

  lemma ViewSize(s: Store)
    ensures |View(s)| == |s.store.m|
  {
    assert View(s).Keys == s.store.m.Keys;
    assert |View(s)| == |View(s).Keys| && |s.store.m| == |s.store.m.Keys|;
  }

  /** The session last touched is only at the head when it is alone. */
  lemma LruHead(s: Store, id: string)
    requires SameKeys(s) && s.lru != [] && s.lru[|s.lru| - 1] == id
    ensures s.lru[0] in s.store.m && (|s.store.m| > 1 ==> s.lru[0] != id)
  {
    NoDupSize(s.lru, s.store.m.Keys);
    assert |s.store.m| == |s.store.m.Keys|;
  }

  lemma DeletedItem(s: Store, id: string)
    requires id in s.store.m
    ensures
      var s' := InternalDelete(s, id);
      && s'.store.m == s.store.m - {id} && View(s') == View(s) - {id} && |View(s')| == |View(s)| - 1
  {
    assert (View(s) - {id}).Keys == View(s).Keys - {id};
    assert |View(s)| == |View(s).Keys| && |View(s) - {id}| == |(View(s) - {id}).Keys|;
  }

  // ---------- the whole of a login ----------

  /**
   A login, step by step over the sessions stored: the policy leaves t1; with several accounts to a device, what
   has expired there is gone in t2 and the user is refused if the device is full of others; otherwise the user's
   oldest sessions on the device make room for one more in t3, and an exception follows if none may stay; the new
   session is stored for its lifetime, and one session at most goes for it, in a full store only. Whatever stays
   keeps its data and its deadline.
   */
  lemma LoginExact(cfg: Config, s: Store, maxSize: nat, now: int, q: Request) returns (t1: Table, t2: Table, t3: Table)
    requires SameKeys(s)
    ensures AfterPolicy(cfg, View(s), q.user, q.device, t1)
    ensures t2 == if Checked(cfg, q) then StillThere(s, now, t1, q.device.value) else t1
    ensures
      if !Checked(cfg, q) || Refused(cfg, t2, q) then t3 == t2
      else MakesRoom(t2, t3, OfUserOnDevice(t2, q.user, q.device.value), Room(cfg))
    ensures
      var (s', outcome) := Login(cfg, s, maxSize, now, q);
      && (outcome == LimitExceeded <==> Checked(cfg, q) && Refused(cfg, t2, q))
      && (outcome == TypeError <==> Checked(cfg, q) && !Refused(cfg, t2, q) && cfg.maxSame <= 0
                                    && OfUserOnDevice(t2, q.user, q.device.value) != {})
      && (outcome != Success ==> View(s') == t3)
      && (outcome == Success ==>
        var added := t3[q.sessionId := SessionData(q.user, q.device, now)];
        && Fewer(added, View(s')) && |added| - 1 <= |View(s')|
        && (maxSize == 0 || |added| <= maxSize ==> View(s') == added)
        && q.sessionId in s'.store.m && s'.store.m[q.sessionId].expireAt == Deadline(cfg, q, now))
      && (forall id :: id in s'.store.m && !(outcome == Success && id == q.sessionId) ==>
        id in s.store.m && s'.store.m[id].data == s.store.m[id].data
        && s'.store.m[id].expireAt == s.store.m[id].expireAt)
  {
    hide SameKeys, ApplyPolicy, MultiAccount, SetSession, MakesRoom, View, StillThere, Refused, OfUserOnDevice, TtlFor;
    hide Fewer, OverLimit, Overflow, Mine;
    var s1 := ApplyPolicy(cfg, s, q.user, q.device);
    PolicyKeeps(cfg, s, q.user, q.device);
    ValidOf(s);
    ValidOf(s1);
    PolicyLeaves(cfg, s, q.user, q.device);
    PolicyUntouched(cfg, s, q.user, q.device);
    t1 := View(s1);
    var s2, outcome := Cleared(cfg, s, now, q).0, Cleared(cfg, s, now, q).1;
    LoginIsCleared(cfg, s, maxSize, now, q);
    t2, t3 := t1, View(s2);
    if Checked(cfg, q) {
      t2 := StillThere(s, now, t1, q.device.value);
      SameStillThere(s, s1, now, q.device.value);
      CheckLeaves(cfg, s1, now, q);
      MultiAccountKeeps(cfg, s1, now, q);
    }
    if outcome == Success {
      SetLeaves(s2, maxSize, now, q.sessionId, SessionData(q.user, q.device, now), TtlFor(cfg, q.rememberMe));
      TtlIs(cfg, q, now);
    }
  }

  lemma MultiAccountKeeps(cfg: Config, s: Store, now: int, q: Request)
    requires SameKeys(s) && Checked(cfg, q)
    ensures SameKeys(MultiAccount(cfg, s, now, q.user, q.device.value).0)
  {
    hide SameKeys, GetAll, DeleteAll, OverLimit, Mine, Overflow;
    var s1, mine := GetAll(s, now, Listed(s, q.device.value)), Mine(s, now, q.user, q.device.value);
    GetAllKeeps(s, now, Listed(s, q.device.value));
    Runs.DeleteAllKeeps(s1, First(mine, Overflow(|mine|, cfg.maxSame)));
  }

  lemma SameStillThere(s: Store, s1: Store, now: int, device: string)
    requires Untouched(s, s1)
    ensures StillThere(s, now, View(s1), device) == StillThere(s1, now, View(s1), device)
  {
  }

  lemma TtlIs(cfg: Config, q: Request, now: int)
    ensures ExpireAt(now, TtlFor(cfg, q.rememberMe)) == Deadline(cfg, q, now)
  {
  }

  /**
   A login that is not `single` ends no session of the user on the device that could be read, as long as there
   are fewer than the limit, or none if it is not positive, and the store is not full.
   */
  lemma SparesBelowLimit(cfg: Config, s: Store, maxSize: nat, now: int, q: Request, id: string)
    requires SameKeys(s) && !cfg.policy.Single? && q.device.Some?
    requires id in OfUserOnDevice(Unexpired(s, now), q.user, q.device.value)
    requires |OfUserOnDevice(View(s), q.user, q.device.value)| < Max(cfg.maxSame, 1)
    ensures
      var s' := Login(cfg, s, maxSize, now, q).0;
      maxSize == 0 || |View(s')| < maxSize ==> id in View(s')
  {
    hide Login, SameKeys, Unexpired, View, MakesRoom, UsersOn, NewestStay;
    var t1, t2, t3 := LoginExact(cfg, s, maxSize, now, q);
    var t, device := View(s), q.device.value;
    UnexpiredThere(s, now, q.user, device, id);
    if cfg.policy.MutualExclusion? && device != "" {
      AllStay(t, t1, OfUserOnDevice(t, q.user, device), Room(cfg));
    }
    if Checked(cfg, q) && !Refused(cfg, t2, q) {
      SubsetSize(OfUserOnDevice(t2, q.user, device), OfUserOnDevice(t, q.user, device));
      AllStay(t2, t3, OfUserOnDevice(t2, q.user, device), Room(cfg));
    }
  }

  lemma UnexpiredThere(s: Store, now: int, user: string, device: string, id: string)
    requires id in OfUserOnDevice(Unexpired(s, now), user, device)
    ensures id in s.store.m && now <= s.store.m[id].expireAt && id in OfUserOnDevice(View(s), user, device)
  {
  }

  lemma AllStay(t: Table, t': Table, mine: set<string>, room: nat)
    requires MakesRoom(t, t', mine, room) && |mine| <= room && (forall id :: id in mine ==> id in t)
    ensures t' == t
  {
    var stay := mine * t'.Keys;
    assert mine == stay + (mine - stay);
    assert |mine - stay| == 0;
    assert mine - stay == {};
  }
}
