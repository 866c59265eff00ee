/**
 What one login does to the sessions that can be read: who is refused, which sessions it may end, its own
 user's and, in a full store, those of others.
 */
module AuthLogins {
  import opened Js
  import opened Sessions
  import opened LoginPolicy
  import opened MemoryStore
  import opened AuthService
  import Runs = MemoryStoreRuns

  // ---------- what the store operations do to the unexpired sessions ----------

  /** Nothing is added or changed. */
  ghost predicate Fewer(before: Table, after: Table) {
    forall id :: id in after ==> id in before && after[id] == before[id]
  }

  lemma DeletedUnexpired(s: Store, now: int, gone: set<string>)
    ensures Unexpired(DeleteAll(s, gone), now) == Unexpired(s, now) - gone
  {
  }

  lemma AssignUnexpired(s: Store, now: int, id: string, data: SessionData, ttl: Option<int>)
    ensures
      var u, u' := Unexpired(s, now), Unexpired(Assign(s, now, id, data, ttl), now);
      && Fewer(u[id := data], u') && (forall x :: x in u && x != id ==> x in u')
      && (now <= ExpireAt(now, ttl) ==> id in u')
  {
  }

  lemma SetUnexpired(s: Store, maxSize: nat, now: int, id: string, data: SessionData, ttl: Option<int>)
    ensures Fewer(Unexpired(s, now)[id := data], Unexpired(SetSession(s, maxSize, now, id, data, ttl), now))
  {
    hide Assign;
    AssignUnexpired(s, now, id, data, ttl);
  }

  /** The session a set evicts. */
  ghost function Victim(s: Store, maxSize: nat, id: string): Option<string> {
    var lru := Without(s.lru, id) + [id];
    if maxSize == 0 || |s.store.m.Keys + {id}| <= maxSize || lru[0] == "" then None else Some(lru[0])
  }

  ghost function Evicted(s: Store, maxSize: nat, id: string): set<string> {
    if Victim(s, maxSize, id).Some? then {Victim(s, maxSize, id).value} else {}
  }

  /** Of a store within its capacity: a new session evicts the least recent one when the store is full. */
  lemma VictimWhenFull(s: Store, maxSize: nat, id: string)
    requires SameKeys(s) && (maxSize > 0 ==> |s.store.m| <= maxSize)
    ensures Victim(s, maxSize, id).Some?
            <==> maxSize > 0 && id !in s.store.m && |s.store.m| == maxSize && s.lru != [] && s.lru[0] != ""
    ensures Victim(s, maxSize, id).Some? ==> Victim(s, maxSize, id).value == s.lru[0]
  {
    var keys := s.store.m.Keys;
    assert |s.store.m| == |keys|;
    NoDupSize(s.lru, keys);
    if id in keys {
      assert keys + {id} == keys;
    } else {
      assert |keys + {id}| == |keys| + 1;
      NotListed(s.lru, id);
    }
  }

  lemma NotListed(ids: seq<string>, id: string)
    requires id !in ids
    ensures Without(ids, id) == ids
  {
    KeepAll(ids, (set x | x in ids) - {id});
  }

  /** A set gives its session, leaves the others and takes away its victim. */
  lemma SetEvicts(s: Store, maxSize: nat, now: int, id: string, data: SessionData, ttl: Option<int>)
    ensures
      var u, u' := Unexpired(s, now), Unexpired(SetSession(s, maxSize, now, id, data, ttl), now);
      && Fewer(u[id := data], u')
      && (forall x :: x in u && x != id ==> (x in u' <==> x !in Evicted(s, maxSize, id)))
  {
    hide Victim;
    var s1 := Assign(s, now, id, data, ttl);
    AssignUnexpired(s, now, id, data, ttl);
    AssignShape(s, maxSize, now, id, data, ttl);
    hide Assign;
    if Victim(s, maxSize, id).Some? {
      DeletedUnexpiredOne(s1, now, Victim(s, maxSize, id).value);
    }
  }

  lemma AssignShape(s: Store, maxSize: nat, now: int, id: string, data: SessionData, ttl: Option<int>)
    ensures
      var s1, victim := Assign(s, now, id, data, ttl), Victim(s, maxSize, id);
      EvictIfNeeded(s1, maxSize) == if victim.Some? then InternalDelete(s1, victim.value) else s1
  {
    hide InternalDelete, Assign, Without;
    var s1 := Assign(s, now, id, data, ttl);
    Runs.AssignKeys(s, now, id, data, ttl);
    AssignLru(s, now, id, data, ttl);
    assert |s1.store.m| == |s1.store.m.Keys|;
  }

  lemma AssignLru(s: Store, now: int, id: string, data: SessionData, ttl: Option<int>)
    ensures Assign(s, now, id, data, ttl).lru == Without(s.lru, id) + [id]
  {
  }

  lemma DeletedUnexpiredOne(s: Store, now: int, id: string)
    ensures Unexpired(InternalDelete(s, id), now) == Unexpired(s, now) - {id}
  {
  }

  // ---------- one login ----------

  /** Of the user's sessions on the device, those left are no older than those gone. */
  ghost predicate NewestStay(before: Table, after: Table, scope: set<string>) {
    forall x, y :: x in scope && x in before && x !in after && y in scope && y in before && y in after ==>
      before[x].createTime <= before[y].createTime
  }

  lemma FirstHas(ids: seq<string>, k: nat, j: nat)
    requires j < k <= |ids|
    ensures ids[j] in First(ids, k)
  {
    assert ids[..k][j] == ids[j];
  }

  lemma FirstOldest(t: Table, scope: set<string>, ids: seq<string>, k: nat)
    requires OldestFirst(t, scope, ids) && k <= |ids| && (forall id :: id in scope ==> id in t)
    ensures First(ids, k) <= scope
    ensures forall x, y :: x in First(ids, k) && y in scope && y !in First(ids, k) ==> t[x].createTime <= t[y].createTime
  {
    forall j: nat | j < k ensures ids[j] in First(ids, k) {
      FirstHas(ids, k, j);
    }
    forall x, y | x in First(ids, k) && y in scope && y !in First(ids, k) ensures t[x].createTime <= t[y].createTime {
      var i :| 0 <= i < k && ids[i] == x;
      assert y in ids;
      var j :| 0 <= j < |ids| && ids[j] == y;
      assert ids[i] in t && ids[j] in t;
    }
  }

  lemma FirstNext(ids: seq<string>, k: nat)
    requires NoDup(ids) && 0 < k <= |ids|
    ensures First(ids, k) == First(ids, k - 1) + {ids[k - 1]} && ids[k - 1] !in First(ids, k - 1)
  {
    assert ids[..k] == ids[..k - 1] + [ids[k - 1]];
  }

  lemma {:induction false} FirstSize(ids: seq<string>, k: nat)
    requires NoDup(ids) && k <= |ids|
    ensures |First(ids, k)| == k
  {
    hide NoDup;
    if k == 0 {
      assert First(ids, 0) == {};
    } else {
      FirstSize(ids, k - 1);
      FirstNext(ids, k);
    }
  }

  lemma ScopeSize(ids: seq<string>, scope: set<string>, k: nat)
    requires NoDup(ids) && k <= |ids| && (forall id :: id in ids <==> id in scope)
    ensures |scope - First(ids, k)| == |ids| - k
  {
    NoDupSize(ids, scope);
    FirstSize(ids, k);
    assert First(ids, k) <= scope;
    assert scope == First(ids, k) + (scope - First(ids, k));
  }

  /** The policy only ends sessions of the user. */
  lemma PolicyEffect(cfg: Config, s: Store, now: int, user: string, device: Option<string>)
    ensures
      var u, u' := Unexpired(s, now), Unexpired(ApplyPolicy(cfg, s, user, device), now);
      && Fewer(u, u') && (forall id :: id in u && u[id].userId != user ==> id in u')
      && (cfg.policy.Single? ==> OfUser(u', user) == {})
      && (cfg.policy.Multiple? ==> u' == u)
      && (cfg.policy.MutualExclusion? ==>
          forall id :: id in u && !(Truthy(device) && u[id].device == device) ==> id in u')
  {
    match cfg.policy
    case Single => DeletedUnexpired(s, now, OfUser(View(s), user));
    case Multiple =>
    case MutualExclusion =>
      if Truthy(device) {
        var ids := ByCreateTime(View(s), Keep(s.store.order, OfUserOnDevice(View(s), user, device.value)));
        DeletedUnexpired(s, now, First(ids, Overflow(|ids|, cfg.maxSame)));
        assert forall id :: id in First(ids, Overflow(|ids|, cfg.maxSame)) ==> id in ids;
      }
  }

  ghost predicate Clears(cfg: Config, device: Option<string>) {
    Truthy(device) && (cfg.policy.MutualExclusion? || cfg.multiAccount)
  }

  lemma SizeWithin<T>(a: set<T>, b: set<T>, n: int)
    requires a <= b && |b| <= n
    ensures |a| <= n
  {
    SubsetSize(a, b);
  }

  /** A list deleted from the front: what goes is oldest, what stays leaves room for one. */
  lemma FrontGone(t: Table, scope: set<string>, ids: seq<string>, maxSame: int)
    requires OldestFirst(t, scope, ids) && (forall id :: id in scope ==> id in t)
    ensures
      var gone := First(ids, Overflow(|ids|, maxSame));
      && gone <= scope && |scope - gone| <= Max(maxSame, 1) - 1
      && (forall x, y :: x in gone && y in scope && y !in gone ==> t[x].createTime <= t[y].createTime)
  {
    FirstOldest(t, scope, ids, Overflow(|ids|, maxSame));
    ScopeSize(ids, scope, Overflow(|ids|, maxSame));
  }

  /** The same seen among the unexpired sessions. */
  lemma FrontGoneLive(t: Table, u: Table, user: string, device: string, gone: set<string>, n: nat)
    requires Fewer(t, u)
    requires
      var scope := OfUserOnDevice(t, user, device);
      && gone <= scope && |scope - gone| <= n
      && (forall x, y :: x in gone && y in scope && y !in gone ==> t[x].createTime <= t[y].createTime)
    ensures NewestStay(u, u - gone, OfUserOnDevice(u, user, device))
    ensures |OfUserOnDevice(u - gone, user, device)| <= n
  {
    var left := OfUserOnDevice(u - gone, user, device);
    assert left <= OfUserOnDevice(t, user, device) - gone;
    SizeWithin(left, OfUserOnDevice(t, user, device) - gone, n);
  }

  /** Under mutual exclusion the oldest go first, and there is room for one more. */
  lemma ExclusionEffect(cfg: Config, s: Store, now: int, user: string, device: string)
    requires s.store.Valid() && cfg.policy.MutualExclusion? && device != ""
    ensures
      var u, u' := Unexpired(s, now), Unexpired(ApplyPolicy(cfg, s, user, Some(device)), now);
      NewestStay(u, u', OfUserOnDevice(u, user, device)) && |OfUserOnDevice(u', user, device)| <= Max(cfg.maxSame, 1) - 1
  {
    hide OldestFirst, NewestStay, Overflow, ByCreateTime, Keep, DeleteAll, OfUserOnDevice;
    var t, scope := View(s), OfUserOnDevice(View(s), user, device);
    var ids := ByCreateTime(t, Keep(s.store.order, scope));
    KeepNoDup(s.store.order, scope);
    ScopeStored(s, scope);
    InTable(t, user, device);
    SortedListing(t, Keep(s.store.order, scope), scope);
    FrontGone(t, scope, ids, cfg.maxSame);
    var gone := First(ids, Overflow(|ids|, cfg.maxSame));
    DeletedUnexpired(s, now, gone);
    FrontGoneLive(t, Unexpired(s, now), user, device, gone, Max(cfg.maxSame, 1) - 1);
  }

  lemma InTable(t: Table, user: string, device: string)
    ensures forall id :: id in OfUserOnDevice(t, user, device) ==> id in t
  {
  }

  lemma ScopeStored(s: Store, scope: set<string>)
    requires s.store.Valid()
    ensures (forall id :: id in scope ==> id in View(s)) ==>
      forall id :: id in Keep(s.store.order, scope) <==> id in scope
  {
  }

  lemma MineListing(s: Store, now: int, user: string, device: string)
    requires s.store.Valid()
    ensures OldestFirst(Unexpired(s, now), OfUserOnDevice(Unexpired(s, now), user, device), Mine(s, now, user, device))
  {
    var u := Unexpired(s, now);
    KeepNoDup(s.store.order, OfUserOnDevice(u, user, device));
    SortedListing(u, Keep(s.store.order, OfUserOnDevice(u, user, device)), OfUserOnDevice(u, user, device));
  }

  /** The multi-account check refuses and changes nothing, or makes room among the user's own sessions. */
  lemma MultiEffect(cfg: Config, s: Store, now: int, user: string, device: string)
    requires s.store.Valid() && cfg.multiAccount
    ensures
      var (s', outcome) := MultiAccount(cfg, s, now, user, device);
      var u, u' := Unexpired(s, now), Unexpired(s', now);
      var scope := OfUserOnDevice(u, user, device);
      && (outcome == LimitExceeded <==> OverLimit(cfg, s, now, user, device))
      && (outcome == TypeError <==> cfg.maxSame <= 0 && scope != {})
      && (outcome == LimitExceeded ==> u' == u)
      && Fewer(u, u') && (forall id :: id in u && id !in scope ==> id in u')
      && NewestStay(u, u', scope)
      && (outcome != LimitExceeded ==> |OfUserOnDevice(u', user, device)| <= Max(cfg.maxSame, 1) - 1)
  {
    hide OldestFirst, Mine, GetAll, DeleteAll, Overflow, Unexpired, NewestStay, UsersOn, OfUserOnDevice;
    var u, scope := Unexpired(s, now), OfUserOnDevice(Unexpired(s, now), user, device);
    var s1, mine := GetAll(s, now, Listed(s, device)), Mine(s, now, user, device);
    GetAllUnexpired(s, now, Listed(s, device));
    MineListing(s, now, user, device);
    InTable(u, user, device);
    FrontGone(u, scope, mine, cfg.maxSame);
    var gone := First(mine, Overflow(|mine|, cfg.maxSame));
    DeletedUnexpired(s1, now, gone);
    MineEmpty(u, scope, mine);
    MineUser(u, user, device);
    NothingGone(u, scope);
    FrontGoneLive(u, u, user, device, gone, Max(cfg.maxSame, 1) - 1);
  }

  lemma NothingGone(t: Table, scope: set<string>)
    ensures NewestStay(t, t, scope)
  {
  }

  lemma MineEmpty(t: Table, scope: set<string>, ids: seq<string>)
    requires OldestFirst(t, scope, ids)
    ensures ids == [] <==> scope == {}
  {
    if ids != [] {
      assert ids[0] in scope;
    }
  }

  lemma MineUser(t: Table, user: string, device: string)
    ensures user in UsersOn(t, device) <==> OfUserOnDevice(t, user, device) != {}
  {
    if OfUserOnDevice(t, user, device) != {} {
      var id :| id in OfUserOnDevice(t, user, device);
      assert id in OnDevice(t, device) && t[id].userId == user;
    }
    if user in UsersOn(t, device) {
      var id :| id in OnDevice(t, device) && t[id].userId == user;
      assert id in OfUserOnDevice(t, user, device);
    }
  }

  // ---------- who is refused ----------

  lemma FewerUsers(before: Table, after: Table, device: string)
    requires Fewer(before, after)
    ensures UsersOn(after, device) <= UsersOn(before, device)
  {
    forall user | user in UsersOn(after, device) ensures user in UsersOn(before, device) {
      var id :| id in OnDevice(after, device) && after[id].userId == user;
      assert id in OnDevice(before, device);
    }
  }

  /** A policy that only ends the user's sessions takes no other account off the device. */
  lemma OthersStayOn(before: Table, after: Table, user: string, device: string)
    requires Fewer(before, after) && (forall id :: id in before && before[id].userId != user ==> id in after)
    ensures UsersOn(before, device) - {user} <= UsersOn(after, device) <= UsersOn(before, device)
  {
    FewerUsers(before, after, device);
    forall other | other in UsersOn(before, device) - {user} ensures other in UsersOn(after, device) {
      var id :| id in OnDevice(before, device) && before[id].userId == other;
      assert id in OnDevice(after, device);
    }
  }

  /** The device was over its limit for the user before the policy, or is because the policy took the user off it. */
  lemma OverLimitAfter(cfg: Config, s: Store, s1: Store, now: int, user: string, device: string)
    requires Fewer(Unexpired(s, now), Unexpired(s1, now))
    requires forall id :: id in Unexpired(s, now) && Unexpired(s, now)[id].userId != user ==> id in Unexpired(s1, now)
    ensures
      var users, users1 := UsersOn(Unexpired(s, now), device), UsersOn(Unexpired(s1, now), device);
      OverLimit(cfg, s1, now, user, device)
      <==> OverLimit(cfg, s, now, user, device) || (user in users && user !in users1 && |users| > cfg.maxAccounts)
  {
    hide Unexpired, UsersOn;
    var users, users1 := UsersOn(Unexpired(s, now), device), UsersOn(Unexpired(s1, now), device);
    OthersStayOn(Unexpired(s, now), Unexpired(s1, now), user, device);
    if user in users {
      if user !in users1 {
        assert users1 == users - {user};
      }
    } else {
      assert users1 == users;
    }
  }

  /** Off the device: the policy has ended all the user's sessions there. */
  ghost predicate TakenOff(cfg: Config, s: Store, now: int, q: Request)
    requires Truthy(q.device)
  {
    && q.user in UsersOn(Unexpired(s, now), q.device.value)
    && q.user !in UsersOn(Unexpired(ApplyPolicy(cfg, s, q.user, q.device), now), q.device.value)
  }

  /**
   A login is refused exactly when, before its policy deletes anything, the device has its full number of
   accounts and the user is not one of them, or it has more than that and the policy takes the user off it.
   */
  lemma RefusedIff(cfg: Config, s: Store, maxSize: nat, now: int, q: Request)
    requires SameKeys(s)
    ensures Login(cfg, s, maxSize, now, q).1 == LimitExceeded
            <==> Truthy(q.device) && cfg.multiAccount
                 && (OverLimit(cfg, s, now, q.user, q.device.value)
                     || (TakenOff(cfg, s, now, q) && |UsersOn(Unexpired(s, now), q.device.value)| > cfg.maxAccounts))
  {
    hide SameKeys, ApplyPolicy, SetSession, MultiAccount, OverLimit, Unexpired, UsersOn;
    if Truthy(q.device) {
      var s1 := ApplyPolicy(cfg, s, q.user, q.device);
      PolicyKeeps(cfg, s, q.user, q.device);
      ValidOf(s1);
      PolicyEffect(cfg, s, now, q.user, q.device);
      OverLimitAfter(cfg, s, s1, now, q.user, q.device.value);
      if cfg.multiAccount {
        MultiEffect(cfg, s1, now, q.user, q.device.value);
      } else {
        NoMulti(cfg, s1, now, q.user, q.device.value);
      }
    }
  }

  /** What a login has done before it stores its session, or instead. */
  ghost function Cleared(cfg: Config, s: Store, now: int, q: Request): (Store, Outcome) {
    var s1 := ApplyPolicy(cfg, s, q.user, q.device);
    if Truthy(q.device) && cfg.multiAccount then MultiAccount(cfg, s1, now, q.user, q.device.value) else (s1, Success)
  }

  lemma LoginIsCleared(cfg: Config, s: Store, maxSize: nat, now: int, q: Request)
    ensures
      var (s2, outcome) := Cleared(cfg, s, now, q);
      Login(cfg, s, maxSize, now, q) ==
      if outcome.Success? then
        (SetSession(s2, maxSize, now, q.sessionId, SessionData(q.user, q.device, now), TtlFor(cfg, q.rememberMe)),
         Success)
      else (s2, outcome)
  {
    hide ApplyPolicy, SetSession, GetAll, Mine, OverLimit;
  }

  lemma FewerTwice(a: Table, b: Table, c: Table)
    requires Fewer(a, b) && Fewer(b, c)
    ensures Fewer(a, c)
  {
  }

  /** Clearing only ends sessions of the user: under `single` any, otherwise those on the device. */
  lemma ClearedEffect(cfg: Config, s: Store, now: int, q: Request)
    requires SameKeys(s)
    ensures
      var u, u' := Unexpired(s, now), Unexpired(Cleared(cfg, s, now, q).0, now);
      && Fewer(u, u') && (forall id :: id in u && u[id].userId != q.user ==> id in u')
      && (!cfg.policy.Single? ==> forall id :: id in u && !(Truthy(q.device) && u[id].device == q.device) ==> id in u')
  {
    hide SameKeys, ApplyPolicy, MultiAccount, Unexpired, OverLimit;
    var s1 := ApplyPolicy(cfg, s, q.user, q.device);
    PolicyKeeps(cfg, s, q.user, q.device);
    ValidOf(s1);
    PolicyEffect(cfg, s, now, q.user, q.device);
    if Truthy(q.device) && cfg.multiAccount {
      MultiEffect(cfg, s1, now, q.user, q.device.value);
      FewerTwice(Unexpired(s, now), Unexpired(s1, now), Unexpired(Cleared(cfg, s, now, q).0, now));
    }
  }

  /** Another user's session that storing this login's will evict. */
  ghost predicate TakesAnothers(s: Store, maxSize: nat, now: int, q: Request) {
    var victim := Victim(s, maxSize, q.sessionId);
    && victim.Some? && victim.value != q.sessionId && victim.value in Unexpired(s, now)
    && Unexpired(s, now)[victim.value].userId != q.user
  }

  /**
   A login leaves every session of other users exactly when it does not come to storing, or what its
   session evicts then, if anything, is not one of theirs.
   */
  lemma OthersStayIff(cfg: Config, s: Store, maxSize: nat, now: int, q: Request)
    requires SameKeys(s)
    ensures
      var u, u' := Unexpired(s, now), Unexpired(Login(cfg, s, maxSize, now, q).0, now);
      var (s2, outcome) := Cleared(cfg, s, now, q);
      (forall id :: id in u && u[id].userId != q.user && id != q.sessionId ==> id in u')
      <==> !outcome.Success? || !TakesAnothers(s2, maxSize, now, q)
  {
    hide SameKeys, ApplyPolicy, Cleared, SetSession, Unexpired, Login, Victim, TtlFor;
    var (s2, outcome) := Cleared(cfg, s, now, q);
    LoginIsCleared(cfg, s, maxSize, now, q);
    ClearedEffect(cfg, s, now, q);
    SetEvicts(s2, maxSize, now, q.sessionId, SessionData(q.user, q.device, now), TtlFor(cfg, q.rememberMe));
  }

  /**
   A refused login leaves every session as it was exactly when its policy had none to end: under `single`
   the user had none, and under `mutual-exclusion` none on the device.
   */
  lemma RefusedUnchangedIff(cfg: Config, s: Store, maxSize: nat, now: int, q: Request)
    requires SameKeys(s) && Login(cfg, s, maxSize, now, q).1 == LimitExceeded
    ensures Unexpired(Login(cfg, s, maxSize, now, q).0, now) == Unexpired(s, now)
            <==> match cfg.policy
                 case Single => OfUser(Unexpired(s, now), q.user) == {}
                 case Multiple => true
                 case MutualExclusion => q.device.Some? && q.user !in UsersOn(Unexpired(s, now), q.device.value)
  {
    hide SameKeys, ApplyPolicy, MultiAccount, Unexpired, Login, UsersOn;
    RefusedIff(cfg, s, maxSize, now, q);
    LoginIsCleared(cfg, s, maxSize, now, q);
    var s1 := ApplyPolicy(cfg, s, q.user, q.device);
    PolicyKeeps(cfg, s, q.user, q.device);
    ValidOf(s1);
    PolicyEffect(cfg, s, now, q.user, q.device);
    MultiEffect(cfg, s1, now, q.user, q.device.value);
    RefusedOff(cfg, s1, now, q.user, q.device.value);
    MineUser(Unexpired(s, now), q.user, q.device.value);
    MineUser(Unexpired(s1, now), q.user, q.device.value);
    SameOrNot(cfg.policy, Unexpired(s, now), Unexpired(s1, now), q.user, q.device.value);
  }

  lemma RefusedOff(cfg: Config, s: Store, now: int, user: string, device: string)
    requires OverLimit(cfg, s, now, user, device)
    ensures user !in UsersOn(Unexpired(s, now), device)
  {
  }

  lemma SameOrNot(policy: Policy, u: Table, u1: Table, user: string, device: string)
    requires Fewer(u, u1) && OfUserOnDevice(u1, user, device) == {}
    requires forall id :: id in u && u[id].userId != user ==> id in u1
    requires policy.Single? ==> OfUser(u1, user) == {}
    requires policy.Multiple? ==> u1 == u
    requires policy.MutualExclusion? ==> forall id :: id in u && u[id].device != Some(device) ==> id in u1
    ensures u1 == u
            <==> match policy
                 case Single => OfUser(u, user) == {}
                 case Multiple => true
                 case MutualExclusion => OfUserOnDevice(u, user, device) == {}
  {
    if policy.MutualExclusion? && OfUserOnDevice(u, user, device) == {} {
      forall id | id in u ensures id in u1 {
        assert id !in OfUserOnDevice(u, user, device);
      }
    }
    if policy.Single? && OfUser(u, user) == {} {
      forall id | id in u ensures id in u1 {
        assert id !in OfUser(u, user);
      }
    }
  }

  /** The exception strikes exactly when the limit per device is not positive and no policy made room before. */
  lemma TypeErrorIff(cfg: Config, s: Store, maxSize: nat, now: int, q: Request)
    requires SameKeys(s)
    ensures Login(cfg, s, maxSize, now, q).1 == TypeError
            <==> Truthy(q.device) && cfg.multiAccount && cfg.maxSame <= 0 && cfg.policy.Multiple?
                 && q.user in UsersOn(Unexpired(s, now), q.device.value)
  {
    hide SameKeys, ApplyPolicy, MultiAccount, Unexpired, Login, UsersOn, OfUserOnDevice;
    LoginIsCleared(cfg, s, maxSize, now, q);
    if Truthy(q.device) && cfg.multiAccount {
      var s1 := ApplyPolicy(cfg, s, q.user, q.device);
      PolicyKeeps(cfg, s, q.user, q.device);
      ValidOf(s1);
      PolicyEffect(cfg, s, now, q.user, q.device);
      MultiEffect(cfg, s1, now, q.user, q.device.value);
      MineUser(Unexpired(s, now), q.user, q.device.value);
      if cfg.policy.Single? {
        NoneOnDevice(Unexpired(s1, now), q.user, q.device.value);
      } else if cfg.policy.MutualExclusion? {
        ValidOf(s);
        ExclusionEffect(cfg, s, now, q.user, q.device.value);
      }
    }
  }

  lemma NoneOnDevice(t: Table, user: string, device: string)
    requires OfUser(t, user) == {}
    ensures OfUserOnDevice(t, user, device) == {}
  {
  }

  /** A session added to the user's on the device. */
  lemma OneMoreOnDevice(t: Table, after: Table, id: string, data: SessionData, device: string, n: int)
    requires Fewer(t[id := data], after) && |OfUserOnDevice(t, data.userId, device)| <= n
    ensures |OfUserOnDevice(after, data.userId, device)| <= n + 1
  {
    var old', new' := OfUserOnDevice(t, data.userId, device), OfUserOnDevice(after, data.userId, device);
    assert new' <= old' + {id};
    SubsetSize(new', old' + {id});
  }

  /** Clearing leaves room for one more session of the user on the device. */
  lemma ClearedRoom(cfg: Config, s: Store, now: int, q: Request)
    requires SameKeys(s) && Clears(cfg, q.device) && Cleared(cfg, s, now, q).1 == Success
    ensures |OfUserOnDevice(Unexpired(Cleared(cfg, s, now, q).0, now), q.user, q.device.value)| <= Max(cfg.maxSame, 1) - 1
  {
    hide SameKeys, ApplyPolicy, MultiAccount, Unexpired, UsersOn, OfUserOnDevice, Fewer;
    var s1 := ApplyPolicy(cfg, s, q.user, q.device);
    PolicyKeeps(cfg, s, q.user, q.device);
    ValidOf(s);
    ValidOf(s1);
    if cfg.multiAccount {
      MultiEffect(cfg, s1, now, q.user, q.device.value);
    } else {
      ExclusionEffect(cfg, s, now, q.user, q.device.value);
    }
  }

  /**
   After a login under mutual exclusion, or with several accounts to a device, the user has on the device
   no more sessions than the limit, or one if it is not positive.
   */
  lemma DeviceBound(cfg: Config, s: Store, maxSize: nat, now: int, q: Request)
    requires SameKeys(s) && Clears(cfg, q.device) && Login(cfg, s, maxSize, now, q).1 == Success
    ensures
      var u' := Unexpired(Login(cfg, s, maxSize, now, q).0, now);
      |OfUserOnDevice(u', q.user, q.device.value)| <= Max(cfg.maxSame, 1)
  {
    hide SameKeys, Cleared, SetSession, Unexpired, Login, OfUserOnDevice, Fewer, TtlFor;
    LoginIsCleared(cfg, s, maxSize, now, q);
    ClearedRoom(cfg, s, now, q);
    var s2, data := Cleared(cfg, s, now, q).0, SessionData(q.user, q.device, now);
    SetUnexpired(s2, maxSize, now, q.sessionId, data, TtlFor(cfg, q.rememberMe));
    OneMoreOnDevice(Unexpired(s2, now), Unexpired(Login(cfg, s, maxSize, now, q).0, now), q.sessionId, data,
                    q.device.value, Max(cfg.maxSame, 1) - 1);
  }

  lemma NewestTwice(u: Table, u1: Table, u2: Table, user: string, device: string)
    requires Fewer(u, u1) && Fewer(u1, u2)
    requires NewestStay(u, u1, OfUserOnDevice(u, user, device)) && NewestStay(u1, u2, OfUserOnDevice(u1, user, device))
    ensures NewestStay(u, u2, OfUserOnDevice(u, user, device))
  {
    var scope := OfUserOnDevice(u, user, device);
    forall x, y | x in scope && x in u && x !in u2 && y in scope && y in u && y in u2
      ensures u[x].createTime <= u[y].createTime
    {
      if x in u1 {
        assert x in OfUserOnDevice(u1, user, device) && y in OfUserOnDevice(u1, user, device);
      }
    }
  }

  /** Of `scope`, what is evicted is not older than something left. */
  ghost predicate TakesNewer(u: Table, s: Store, maxSize: nat, now: int, id: string, scope: set<string>) {
    var victim := Victim(s, maxSize, id);
    && victim.Some? && victim.value != id && victim.value in scope && victim.value in u && victim.value in Unexpired(s, now)
    && exists y :: y in scope && y in u && y in Unexpired(s, now) && y != victim.value
         && u[y].createTime < u[victim.value].createTime
  }

  /**
   Of the user's sessions on the device, those a login that is not `single` ends are no newer than those it
   leaves, exactly when what its session evicts, if it is one of them, is the oldest left.
   */
  lemma OldestGoIff(cfg: Config, s: Store, maxSize: nat, now: int, q: Request, device: string)
    requires SameKeys(s) && !cfg.policy.Single? && q.device == Some(device) && device != ""
    requires q.sessionId !in Unexpired(s, now)
    ensures
      var scope := OfUserOnDevice(Unexpired(s, now), q.user, device);
      var (s2, outcome) := Cleared(cfg, s, now, q);
      NewestStay(Unexpired(s, now), Unexpired(Login(cfg, s, maxSize, now, q).0, now), scope)
      <==> !outcome.Success? || !TakesNewer(Unexpired(s, now), s2, maxSize, now, q.sessionId, scope)
  {
    hide SameKeys, ApplyPolicy, Cleared, MultiAccount, SetSession, Unexpired, Login, OfUserOnDevice, NewestStay, Fewer;
    hide Victim, TakesNewer, TtlFor;
    LoginIsCleared(cfg, s, maxSize, now, q);
    ClearedNewest(cfg, s, now, q, device);
    ClearedEffect(cfg, s, now, q);
    var s2, data := Cleared(cfg, s, now, q).0, SessionData(q.user, q.device, now);
    SetEvicts(s2, maxSize, now, q.sessionId, data, TtlFor(cfg, q.rememberMe));
    if Cleared(cfg, s, now, q).1.Success? {
      NewestWithVictim(Unexpired(s, now), s2, maxSize, now, Unexpired(Login(cfg, s, maxSize, now, q).0, now),
                       q.sessionId, data, OfUserOnDevice(Unexpired(s, now), q.user, device));
    }
  }

  lemma ClearedNewest(cfg: Config, s: Store, now: int, q: Request, device: string)
    requires SameKeys(s) && !cfg.policy.Single? && q.device == Some(device) && device != ""
    ensures
      NewestStay(Unexpired(s, now), Unexpired(Cleared(cfg, s, now, q).0, now),
                 OfUserOnDevice(Unexpired(s, now), q.user, device))
  {
    hide SameKeys, ApplyPolicy, MultiAccount, Unexpired, OfUserOnDevice, NewestStay, Fewer;
    var s1, s2 := ApplyPolicy(cfg, s, q.user, q.device), Cleared(cfg, s, now, q).0;
    var u, u1, u2 := Unexpired(s, now), Unexpired(s1, now), Unexpired(s2, now);
    PolicyKeeps(cfg, s, q.user, q.device);
    ValidOf(s);
    ValidOf(s1);
    PolicyEffect(cfg, s, now, q.user, q.device);
    NothingGone(u, OfUserOnDevice(u, q.user, device));
    NothingGone(u1, OfUserOnDevice(u1, q.user, device));
    FewerSame(u1);
    if cfg.policy.MutualExclusion? {
      ExclusionEffect(cfg, s, now, q.user, device);
    }
    if cfg.multiAccount {
      MultiEffect(cfg, s1, now, q.user, device);
    }
    NewestTwice(u, u1, u2, q.user, device);
  }

  lemma NewestWithVictim(u: Table, s2: Store, maxSize: nat, now: int, u3: Table, id: string, data: SessionData,
                         scope: set<string>)
    requires NewestStay(u, Unexpired(s2, now), scope) && Fewer(u, Unexpired(s2, now)) && id !in u
    requires Fewer(Unexpired(s2, now)[id := data], u3)
    requires forall x :: x in Unexpired(s2, now) && x != id ==> (x in u3 <==> x !in Evicted(s2, maxSize, id))
    ensures NewestStay(u, u3, scope) <==> !TakesNewer(u, s2, maxSize, now, id, scope)
  {
    hide Unexpired, Victim;
    var victim := Victim(s2, maxSize, id);
    if TakesNewer(u, s2, maxSize, now, id, scope) {
      var y :| y in scope && y in u && y in Unexpired(s2, now) && y != victim.value
         && u[y].createTime < u[victim.value].createTime;
      assert victim.value !in u3 && y in u3;
    } else {
      forall x, y | x in scope && x in u && x !in u3 && y in scope && y in u && y in u3
        ensures u[x].createTime <= u[y].createTime
      {
        assert y in Unexpired(s2, now) && y != id;
      }
    }
  }

  lemma FewerSame(t: Table)
    ensures Fewer(t, t)
  {
  }

  lemma NoMulti(cfg: Config, s: Store, now: int, user: string, device: string)
    requires !cfg.multiAccount
    ensures MultiAccount(cfg, s, now, user, device) == (s, Success)
  {
  }

  lemma ValidOf(s: Store)
    requires SameKeys(s)
    ensures s.store.Valid()
  {
  }
}
