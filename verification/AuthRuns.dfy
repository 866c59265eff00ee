/**
 Logins one after another, with reads, renewals, rotations, logouts, kicks and timer firings in between: how
 many accounts a device keeps and how many sessions a user has on it. Both limits are kept by what is stored,
 expired or not, so nothing that revives an expired session can break them.
 */
module AuthRuns {
  import opened Js
  import opened Sessions
  import opened LoginPolicy
  import opened MemoryStore
  import opened AuthService
  import opened AuthLogins
  import RandomToken
  import Runs = MemoryStoreRuns

  // ---------- runs ----------

  datatype Event =
    | LogIn(q: Request)
    | End(ended: string)              // logout, forced logout
    | Kick(kicked: string)
    | Read(read: string)              // a token checked
    | Renewal(renewed: string)
    | Rotation(token: string, newId: string)
    | Fire(timer: nat)
    | Tick(d: nat)

  datatype Sys = Sys(now: int, st: Store)

  ghost function Apply(cfg: Config, maxSize: nat, s: Sys, e: Event): Sys {
    match e
    case LogIn(q) => s.(st := Login(cfg, s.st, maxSize, s.now, q).0)
    case End(id) => s.(st := InternalDelete(s.st, id))
    case Kick(user) => s.(st := DeleteAll(s.st, OfUser(View(s.st), user)))
    case Read(id) => s.(st := GetSession(s.st, s.now, id).0)
    case Renewal(id) => s.(st := Renew(s.st, s.now, id, cfg.tokenTtl))
    case Rotation(token, newId) => s.(st := RandomToken.Rotated(s.st, maxSize, s.now, token, newId).0)
    case Fire(timer) => s.(st := FireTimer(s.st, s.now, timer))
    case Tick(d) => s.(now := s.now + d)
  }

  ghost function Run(cfg: Config, maxSize: nat, now: int, events: seq<Event>): Sys {
    if events == [] then Sys(now, EMPTY)
    else Apply(cfg, maxSize, Run(cfg, maxSize, now, events[..|events| - 1]), events[|events| - 1])
  }

  lemma RotationKeepsKeys(s: Store, maxSize: nat, now: int, token: string, newId: string)
    requires SameKeys(s)
    ensures SameKeys(RandomToken.Rotated(s, maxSize, now, token, newId).0)
  {
    hide SameKeys, InternalDelete, GetSession, SetSession;
    var (s1, session) := GetSession(s, now, token);
    GetKeeps(s, now, token);
    if session.Some? {
      SetKeeps(s1, maxSize, now, newId, session.value, None);
      Runs.DeleteKeeps(SetSession(s1, maxSize, now, newId, session.value, None), token);
    }
  }

  lemma OthersKeepKeys(cfg: Config, maxSize: nat, s: Sys, e: Event)
    requires SameKeys(s.st) && !e.LogIn?
    ensures SameKeys(Apply(cfg, maxSize, s, e).st)
  {
    hide SameKeys, InternalDelete, DeleteAll, GetSession, Renew, FireTimer, RandomToken.Rotated;
    var t := Runs.Sys(s.now, s.st);
    match e
    case End(id) => Runs.StepKeepsKeys(maxSize, t, Runs.Delete(id));
    case Kick(user) => Runs.StepKeepsKeys(maxSize, t, Runs.DeleteUser(user));
    case Read(id) => Runs.StepKeepsKeys(maxSize, t, Runs.Get(id));
    case Renewal(id) => Runs.StepKeepsKeys(maxSize, t, Runs.RenewIt(id, cfg.tokenTtl));
    case Rotation(token, newId) => RotationKeepsKeys(s.st, maxSize, s.now, token, newId);
    case Fire(timer) => Runs.StepKeepsKeys(maxSize, t, Runs.Fire(timer));
    case Tick(_) =>
  }

  lemma {:induction false} RunKeepsKeys(cfg: Config, maxSize: nat, now: int, events: seq<Event>)
    ensures SameKeys(Run(cfg, maxSize, now, events).st)
  {
    hide SameKeys, Login;
    if events == [] {
      EmptyKeys();
    } else {
      var before, e := events[..|events| - 1], events[|events| - 1];
      var s := Run(cfg, maxSize, now, before);
      RunKeepsKeys(cfg, maxSize, now, before);
      if e.LogIn? {
        LoginKeeps(cfg, s.st, maxSize, s.now, e.q);
      } else {
        OthersKeepKeys(cfg, maxSize, s, e);
      }
    }
  }

  lemma EmptyKeys()
    ensures SameKeys(EMPTY)
  {
  }

  // ---------- what is stored ----------

  lemma UnexpiredStored(s: Store, now: int)
    ensures Fewer(View(s), Unexpired(s, now))
  {
  }

  lemma DeletedStored(s: Store, gone: set<string>)
    ensures View(DeleteAll(s, gone)) == View(s) - gone
  {
  }

  lemma SetStored(s: Store, maxSize: nat, now: int, id: string, data: SessionData, ttl: Option<int>)
    ensures Fewer(View(s)[id := data], View(SetSession(s, maxSize, now, id, data, ttl)))
  {
  }

  /** Only logins and rotations store a session; a renewal, of an expired session too, adds none. */
  lemma OthersStored(cfg: Config, maxSize: nat, s: Sys, e: Event)
    requires !e.LogIn? && !e.Rotation?
    ensures Fewer(View(s.st), View(Apply(cfg, maxSize, s, e).st))
  {
  }

  /** A rotation puts one session in the place of another of the same user and device. */
  ghost predicate Swaps(t: Table, t': Table, token: string, newId: string) {
    token in t && token !in t' && Fewer(t[newId := t[token]], t')
  }

  lemma RotationStored(s: Store, maxSize: nat, now: int, token: string, newId: string)
    ensures
      var t, t' := View(s), View(RandomToken.Rotated(s, maxSize, now, token, newId).0);
      Fewer(t, t') || Swaps(t, t', token, newId)
  {
    hide SetSession;
    var (s1, session) := GetSession(s, now, token);
    if session.Some? {
      SetStored(s1, maxSize, now, newId, session.value, None);
    }
  }

  lemma PolicyStored(cfg: Config, s: Store, user: string, device: Option<string>)
    ensures Fewer(View(s), View(ApplyPolicy(cfg, s, user, device)))
  {
    hide DeleteAll;
    match cfg.policy
    case Single => DeletedStored(s, OfUser(View(s), user));
    case Multiple =>
    case MutualExclusion =>
      if Truthy(device) {
        var ids := ByCreateTime(View(s), Keep(s.store.order, OfUserOnDevice(View(s), user, device.value)));
        DeletedStored(s, First(ids, Overflow(|ids|, cfg.maxSame)));
      }
  }

  /** Everything stored on the device can be read. */
  ghost predicate AllThere(s: Store, now: int, device: string) {
    forall id :: id in OnDevice(View(s), device) ==> id in Unexpired(s, now)
  }

  lemma AllReadThere(s: Store, now: int, device: string)
    requires s.store.Valid()
    ensures Fewer(View(s), View(GetAll(s, now, Listed(s, device))))
    ensures AllThere(GetAll(s, now, Listed(s, device)), now, device)
  {
    hide GetAll;
    forall id
      ensures
        var m := GetAll(s, now, Listed(s, device)).store.m;
        && (id in m <==> id in s.store.m && (id in Listed(s, device) ==> now <= s.store.m[id].expireAt))
        && (id in m ==> m[id] == s.store.m[id])
    {
      GetAllItems(s, now, Listed(s, device), id);
    }
  }

  lemma FewerThere(s: Store, gone: set<string>, now: int, device: string)
    requires AllThere(s, now, device)
    ensures AllThere(DeleteAll(s, gone), now, device)
  {
    DeletedStored(s, gone);
    DeletedUnexpired(s, now, gone);
    hide DeleteAll;
    assert OnDevice(View(DeleteAll(s, gone)), device) <= OnDevice(View(s), device);
  }

  /** The multi-account check reads every session on the device, so what has expired there is gone after it. */
  lemma MultiStored(cfg: Config, s: Store, now: int, user: string, device: string)
    requires s.store.Valid() && cfg.multiAccount
    ensures
      var s' := MultiAccount(cfg, s, now, user, device).0;
      Fewer(View(s), View(s')) && AllThere(s', now, device)
  {
    hide GetAll, DeleteAll, Mine, OverLimit, Overflow, AllThere;
    var s1, mine := GetAll(s, now, Listed(s, device)), Mine(s, now, user, device);
    AllReadThere(s, now, device);
    DeletedStored(s1, First(mine, Overflow(|mine|, cfg.maxSame)));
    FewerThere(s1, First(mine, Overflow(|mine|, cfg.maxSame)), now, device);
  }

  lemma ClearedStored(cfg: Config, s: Store, now: int, q: Request)
    requires SameKeys(s)
    ensures
      var s' := Cleared(cfg, s, now, q).0;
      && Fewer(View(s), View(s'))
      && (Truthy(q.device) && cfg.multiAccount ==> AllThere(s', now, q.device.value))
  {
    hide SameKeys, ApplyPolicy, MultiAccount, AllThere;
    var s1 := ApplyPolicy(cfg, s, q.user, q.device);
    PolicyStored(cfg, s, q.user, q.device);
    if Truthy(q.device) && cfg.multiAccount {
      PolicyKeeps(cfg, s, q.user, q.device);
      ValidOf(s1);
      MultiStored(cfg, s1, now, q.user, q.device.value);
      FewerTwice(View(s), View(s1), View(Cleared(cfg, s, now, q).0));
    }
  }

  /** Where everything stored can be read, stored and unexpired sessions are the same. */
  lemma ThereIsStored(s: Store, now: int, device: string)
    requires AllThere(s, now, device)
    ensures UsersOn(View(s), device) == UsersOn(Unexpired(s, now), device)
    ensures forall user :: OfUserOnDevice(View(s), user, device) == OfUserOnDevice(Unexpired(s, now), user, device)
  {
    assert OnDevice(View(s), device) == OnDevice(Unexpired(s, now), device);
  }

  // ---------- accounts of a device, over runs ----------

  /** A session set adds no account to a device, except its own user to its own device. */
  lemma AddedUser(t: Table, after: Table, id: string, data: SessionData, device: string)
    requires Fewer(t[id := data], after)
    ensures UsersOn(after, device) <= UsersOn(t, device) + (if data.device == Some(device) then {data.userId} else {})
  {
    forall user | user in UsersOn(after, device)
      ensures user in UsersOn(t, device) + (if data.device == Some(device) then {data.userId} else {})
    {
      var x :| x in OnDevice(after, device) && after[x].userId == user;
      assert x in t[id := data];
      if x != id {
        assert x in OnDevice(t, device);
      }
    }
  }

  lemma UnionSize(after: set<string>, before: set<string>, user: string, n: int)
    requires after <= before + {user} && |before| <= n && (user in before || |before| < n)
    ensures |after| <= n
  {
    SubsetSize(after, before + {user});
    if user in before {
      assert before + {user} == before;
    }
  }

  /** What the check leaves room for, whatever the number of accounts before. */
  lemma LoginAccounts(cfg: Config, s: Store, maxSize: nat, now: int, q: Request, device: string, n: int)
    requires SameKeys(s) && cfg.multiAccount && device != "" && cfg.maxAccounts <= n
    requires |UsersOn(View(s), device)| <= n
    ensures |UsersOn(View(Login(cfg, s, maxSize, now, q).0), device)| <= n
  {
    hide SameKeys, Cleared, SetSession, View, Unexpired, Login, Fewer, UsersOn, TtlFor, AllThere;
    var s2, s3 := Cleared(cfg, s, now, q).0, Login(cfg, s, maxSize, now, q).0;
    var before, after := UsersOn(View(s), device), UsersOn(View(s3), device);
    LoginIsCleared(cfg, s, maxSize, now, q);
    ClearedStored(cfg, s, now, q);
    FewerUsers(View(s), View(s2), device);
    SubsetSize(UsersOn(View(s2), device), before);
    if Cleared(cfg, s, now, q).1.Success? {
      var data := SessionData(q.user, q.device, now);
      SetStored(s2, maxSize, now, q.sessionId, data, TtlFor(cfg, q.rememberMe));
      AddedUser(View(s2), View(s3), q.sessionId, data, device);
      if q.device == Some(device) {
        PlaceForUser(cfg, s, now, q, device);
        if q.user in before {
          UnionSize(after, before, q.user, n);
        } else {
          UnionSize(after, UsersOn(View(s2), device), q.user, n);
        }
      } else {
        SubsetSize(after, before);
      }
    }
  }

  /** A login that goes on is of a user who was on the device, or finds it with a place left. */
  lemma PlaceForUser(cfg: Config, s: Store, now: int, q: Request, device: string)
    requires SameKeys(s) && cfg.multiAccount && q.device == Some(device) && device != ""
    requires Cleared(cfg, s, now, q).1.Success?
    ensures q.user in UsersOn(View(s), device)
            || |UsersOn(View(Cleared(cfg, s, now, q).0), device)| < cfg.maxAccounts
  {
    hide SameKeys, ApplyPolicy, MultiAccount, View, Unexpired, UsersOn, OfUserOnDevice, NewestStay, AllThere;
    var s1, s2 := ApplyPolicy(cfg, s, q.user, q.device), Cleared(cfg, s, now, q).0;
    PolicyKeeps(cfg, s, q.user, q.device);
    ValidOf(s1);
    PolicyEffect(cfg, s, now, q.user, q.device);
    MultiEffect(cfg, s1, now, q.user, device);
    FewerUsers(Unexpired(s, now), Unexpired(s1, now), device);
    FewerUsers(Unexpired(s1, now), Unexpired(s2, now), device);
    SubsetSize(UsersOn(Unexpired(s2, now), device), UsersOn(Unexpired(s1, now), device));
    UnexpiredStored(s, now);
    FewerUsers(View(s), Unexpired(s, now), device);
    ClearedStored(cfg, s, now, q);
    ThereIsStored(s2, now, device);
  }

  lemma RotationAccounts(t: Table, t': Table, token: string, newId: string, device: string)
    requires Fewer(t, t') || Swaps(t, t', token, newId)
    ensures UsersOn(t', device) <= UsersOn(t, device)
  {
    hide UsersOn, Fewer;
    if Fewer(t, t') {
      FewerUsers(t, t', device);
    } else {
      AddedUser(t, t', newId, t[token], device);
      if t[token].device == Some(device) {
        OnDeviceIsUser(t, token, device);
      }
    }
  }

  lemma OnDeviceIsUser(t: Table, id: string, device: string)
    requires id in t && t[id].device == Some(device)
    ensures t[id].userId in UsersOn(t, device)
  {
    assert id in OnDevice(t, device);
  }

  lemma StepAccounts(cfg: Config, maxSize: nat, s: Sys, e: Event, device: string, n: int)
    requires cfg.multiAccount && device != "" && SameKeys(s.st) && cfg.maxAccounts <= n
    requires |UsersOn(View(s.st), device)| <= n
    ensures |UsersOn(View(Apply(cfg, maxSize, s, e).st), device)| <= n
  {
    hide SameKeys, Login, View, Fewer, UsersOn, Swaps, RandomToken.Rotated;
    if e.LogIn? {
      LoginAccounts(cfg, s.st, maxSize, s.now, e.q, device, n);
    } else {
      var t, t' := View(s.st), View(Apply(cfg, maxSize, s, e).st);
      if e.Rotation? {
        RotationStored(s.st, maxSize, s.now, e.token, e.newId);
        RotationAccounts(t, t', e.token, e.newId, device);
      } else {
        hide Apply;
        OthersStored(cfg, maxSize, s, e);
        FewerUsers(t, t', device);
      }
      SubsetSize(UsersOn(t', device), UsersOn(t, device));
    }
  }

  /**
   With several accounts to a device allowed, no run puts more accounts on a device than the limit, neither
   among the sessions that can be read nor, expired ones included, among those stored.
   */
  lemma {:induction false} AccountsBounded(cfg: Config, maxSize: nat, now: int, events: seq<Event>, device: string)
    requires cfg.multiAccount && device != ""
    ensures
      var s := Run(cfg, maxSize, now, events);
      && |UsersOn(View(s.st), device)| <= Max(cfg.maxAccounts, 0)
      && |UsersOn(Unexpired(s.st, s.now), device)| <= Max(cfg.maxAccounts, 0)
  {
    hide Apply, View, Unexpired, UsersOn, SameKeys, Fewer;
    var s := Run(cfg, maxSize, now, events);
    if events == [] {
      NobodyOn(device);
    } else {
      var before, e := events[..|events| - 1], events[|events| - 1];
      AccountsBounded(cfg, maxSize, now, before, device);
      RunKeepsKeys(cfg, maxSize, now, before);
      StepAccounts(cfg, maxSize, Run(cfg, maxSize, now, before), e, device, Max(cfg.maxAccounts, 0));
    }
    UnexpiredStored(s.st, s.now);
    FewerUsers(View(s.st), Unexpired(s.st, s.now), device);
    SubsetSize(UsersOn(Unexpired(s.st, s.now), device), UsersOn(View(s.st), device));
  }

  lemma NobodyOn(device: string)
    ensures UsersOn(View(EMPTY), device) == {}
    ensures forall user :: OfUserOnDevice(View(EMPTY), user, device) == {}
  {
  }

  /**
   After every run a login is refused exactly when the device has its full number of accounts and the user is
   not one of them. So a user on the device is never refused, and no device is ever past its limit.
   */
  lemma RefusedInRunIff(cfg: Config, maxSize: nat, now: int, events: seq<Event>, q: Request)
    requires cfg.multiAccount
    ensures
      var s := Run(cfg, maxSize, now, events);
      Login(cfg, s.st, maxSize, s.now, q).1 == LimitExceeded
      <==> Truthy(q.device)
           && q.user !in UsersOn(Unexpired(s.st, s.now), q.device.value)
           && |UsersOn(Unexpired(s.st, s.now), q.device.value)| >= cfg.maxAccounts
  {
    hide SameKeys, Login, View, Unexpired, Run, UsersOn, ApplyPolicy;
    var s := Run(cfg, maxSize, now, events);
    RunKeepsKeys(cfg, maxSize, now, events);
    RefusedIff(cfg, s.st, maxSize, s.now, q);
    if Truthy(q.device) {
      AccountsBounded(cfg, maxSize, now, events, q.device.value);
      NonePastNone(UsersOn(Unexpired(s.st, s.now), q.device.value), cfg.maxAccounts, q.user);
    }
  }

  lemma NonePastNone(users: set<string>, maxAccounts: int, user: string)
    requires |users| <= Max(maxAccounts, 0)
    ensures user in users ==> |users| <= maxAccounts
  {
    if user in users {
      SubsetSize({user}, users);
    }
  }

  /** A renewal, of an expired session too, makes its user one of the device's accounts, if not one already. */
  lemma RenewalKeepsIff(cfg: Config, s: Store, now: int, id: string, device: string)
    requires id in s.store.m && s.store.m[id].data.device == Some(device)
    requires now <= ExpireAt(now, cfg.tokenTtl)
    ensures
      var users, user := UsersOn(Unexpired(s, now), device), s.store.m[id].data.userId;
      |UsersOn(Unexpired(Renew(s, now, id, cfg.tokenTtl), now), device)| == |users| + if user in users then 0 else 1
  {
    hide Assign;
    var u, data := Unexpired(s, now), s.store.m[id].data;
    AssignUnexpired(s, now, id, data, cfg.tokenTtl);
    var u' := Unexpired(Renew(s, now, id, cfg.tokenTtl), now);
    assert u' == u[id := data];
    OneMoreUser(u, id, data, device);
    if data.userId in UsersOn(u, device) {
      assert UsersOn(u', device) == UsersOn(u, device);
    }
  }

  lemma OneMoreUser(t: Table, id: string, data: SessionData, device: string)
    requires data.device == Some(device) && (id in t ==> t[id] == data)
    ensures UsersOn(t[id := data], device) == UsersOn(t, device) + {data.userId}
  {
    var after := t[id := data];
    assert id in OnDevice(after, device) && after[id].userId == data.userId;
    FewerSame(after);
    AddedUser(t, after, id, data, device);
    forall user | user in UsersOn(t, device) ensures user in UsersOn(after, device) {
      var x :| x in OnDevice(t, device) && t[x].userId == user;
      assert x in OnDevice(after, device) && after[x].userId == user;
    }
  }

  // ---------- sessions of a user on a device, over runs ----------

  lemma FewerOnDevice(before: Table, after: Table, user: string, device: string)
    requires Fewer(before, after)
    ensures OfUserOnDevice(after, user, device) <= OfUserOnDevice(before, user, device)
  {
  }

  lemma OtherOnDevice(t: Table, after: Table, id: string, data: SessionData, user: string, device: string)
    requires Fewer(t[id := data], after) && (data.userId != user || data.device != Some(device))
    ensures OfUserOnDevice(after, user, device) <= OfUserOnDevice(t, user, device)
  {
  }

  /** Under mutual exclusion the list is of what is stored, so there is room in the store for one more. */
  lemma ExclusionStored(cfg: Config, s: Store, user: string, device: string)
    requires s.store.Valid() && cfg.policy.MutualExclusion? && device != ""
    ensures |OfUserOnDevice(View(ApplyPolicy(cfg, s, user, Some(device))), user, device)| <= Max(cfg.maxSame, 1) - 1
  {
    hide OldestFirst, Overflow, ByCreateTime, DeleteAll, OfUserOnDevice;
    var t, scope := View(s), OfUserOnDevice(View(s), user, device);
    var ids := ByCreateTime(t, Keep(s.store.order, scope));
    KeepNoDup(s.store.order, scope);
    ScopeStored(s, scope);
    InTable(t, user, device);
    SortedListing(t, Keep(s.store.order, scope), scope);
    FrontGone(t, scope, ids, cfg.maxSame);
    var gone := First(ids, Overflow(|ids|, cfg.maxSame));
    DeletedStored(s, gone);
    LessOnDevice(t, gone, user, device);
  }

  lemma LessOnDevice(t: Table, gone: set<string>, user: string, device: string)
    ensures OfUserOnDevice(t - gone, user, device) == OfUserOnDevice(t, user, device) - gone
  {
  }

  /** Clearing leaves room in the store for one more session of the user on the device. */
  lemma ClearedRoomStored(cfg: Config, s: Store, now: int, q: Request)
    requires SameKeys(s) && Clears(cfg, q.device) && Cleared(cfg, s, now, q).1 == Success
    ensures |OfUserOnDevice(View(Cleared(cfg, s, now, q).0), q.user, q.device.value)| <= Max(cfg.maxSame, 1) - 1
  {
    hide SameKeys, ApplyPolicy, MultiAccount, View, Unexpired, OfUserOnDevice, AllThere;
    if cfg.multiAccount {
      ClearedRoom(cfg, s, now, q);
      ClearedStored(cfg, s, now, q);
      ThereIsStored(Cleared(cfg, s, now, q).0, now, q.device.value);
    } else {
      ValidOf(s);
      ExclusionStored(cfg, s, q.user, q.device.value);
    }
  }

  lemma LoginOnDevice(cfg: Config, s: Store, maxSize: nat, now: int, q: Request, user: string, device: string, n: int)
    requires SameKeys(s) && Clears(cfg, Some(device)) && Max(cfg.maxSame, 1) <= n
    requires |OfUserOnDevice(View(s), user, device)| <= n
    ensures |OfUserOnDevice(View(Login(cfg, s, maxSize, now, q).0), user, device)| <= n
  {
    hide SameKeys, Cleared, SetSession, View, Login, OfUserOnDevice, Fewer, TtlFor;
    var s2, s3, data := Cleared(cfg, s, now, q).0, Login(cfg, s, maxSize, now, q).0, SessionData(q.user, q.device, now);
    LoginIsCleared(cfg, s, maxSize, now, q);
    ClearedStored(cfg, s, now, q);
    FewerOnDevice(View(s), View(s2), user, device);
    SubsetSize(OfUserOnDevice(View(s2), user, device), OfUserOnDevice(View(s), user, device));
    if Cleared(cfg, s, now, q).1.Success? {
      SetStored(s2, maxSize, now, q.sessionId, data, TtlFor(cfg, q.rememberMe));
      if q.user == user && q.device == Some(device) {
        ClearedRoomStored(cfg, s, now, q);
        OneMoreOnDevice(View(s2), View(s3), q.sessionId, data, device, Max(cfg.maxSame, 1) - 1);
      } else {
        OtherOnDevice(View(s2), View(s3), q.sessionId, data, user, device);
        SubsetSize(OfUserOnDevice(View(s3), user, device), OfUserOnDevice(View(s2), user, device));
      }
    }
  }

  lemma RotationOnDevice(t: Table, t': Table, token: string, newId: string, user: string, device: string)
    requires Fewer(t, t') || Swaps(t, t', token, newId)
    ensures |OfUserOnDevice(t', user, device)| <= |OfUserOnDevice(t, user, device)|
  {
    var mine, mine' := OfUserOnDevice(t, user, device), OfUserOnDevice(t', user, device);
    if Fewer(t, t') || token !in mine {
      SubsetSize(mine', mine);
    } else {
      SubsetSize(mine', mine - {token} + {newId});
    }
  }

  lemma StepOnDevice(cfg: Config, maxSize: nat, s: Sys, e: Event, user: string, device: string, n: int)
    requires SameKeys(s.st) && Clears(cfg, Some(device)) && Max(cfg.maxSame, 1) <= n
    requires |OfUserOnDevice(View(s.st), user, device)| <= n
    ensures |OfUserOnDevice(View(Apply(cfg, maxSize, s, e).st), user, device)| <= n
  {
    hide SameKeys, Login, View, Fewer, OfUserOnDevice, Swaps, RandomToken.Rotated;
    if e.LogIn? {
      LoginOnDevice(cfg, s.st, maxSize, s.now, e.q, user, device, n);
    } else {
      var t, t' := View(s.st), View(Apply(cfg, maxSize, s, e).st);
      if e.Rotation? {
        RotationStored(s.st, maxSize, s.now, e.token, e.newId);
        RotationOnDevice(t, t', e.token, e.newId, user, device);
      } else {
        hide Apply;
        OthersStored(cfg, maxSize, s, e);
        FewerOnDevice(t, t', user, device);
        SubsetSize(OfUserOnDevice(t', user, device), OfUserOnDevice(t, user, device));
      }
    }
  }

  /**
   Under mutual exclusion, or with several accounts to a device, in every run no user ever has more sessions
   on a device than the limit, or one if it is not positive, expired ones included.
   */
  lemma {:induction false} DeviceBounded(cfg: Config, maxSize: nat, now: int, events: seq<Event>, user: string,
                                         device: string)
    requires Clears(cfg, Some(device))
    ensures
      var s := Run(cfg, maxSize, now, events);
      && |OfUserOnDevice(View(s.st), user, device)| <= Max(cfg.maxSame, 1)
      && |OfUserOnDevice(Unexpired(s.st, s.now), user, device)| <= Max(cfg.maxSame, 1)
  {
    hide Apply, View, Unexpired, OfUserOnDevice, SameKeys, Fewer;
    var s := Run(cfg, maxSize, now, events);
    if events == [] {
      NobodyOn(device);
    } else {
      var before, e := events[..|events| - 1], events[|events| - 1];
      DeviceBounded(cfg, maxSize, now, before, user, device);
      RunKeepsKeys(cfg, maxSize, now, before);
      StepOnDevice(cfg, maxSize, Run(cfg, maxSize, now, before), e, user, device, Max(cfg.maxSame, 1));
    }
    UnexpiredStored(s.st, s.now);
    FewerOnDevice(View(s.st), Unexpired(s.st, s.now), user, device);
    SubsetSize(OfUserOnDevice(Unexpired(s.st, s.now), user, device), OfUserOnDevice(View(s.st), user, device));
  }

  // ---------- kicking a user off one device ----------

  /** Over the in-memory store a kick spares the user's other devices exactly when there is nothing to spare. */
  lemma KickSparesIff(s: Store, now: int, user: string, device: string)
    ensures
      var u, u' := Unexpired(s, now), Unexpired(DeleteAll(s, OfUser(View(s), user)), now);
      OfUser(u, user) - OnDevice(u, device) <= OfUser(u', user) <==> OfUser(u, user) <= OnDevice(u, device)
  {
    DeletedUnexpired(s, now, OfUser(View(s), user));
    var mine, on := OfUser(Unexpired(s, now), user), OnDevice(Unexpired(s, now), device);
    assert OfUser(Unexpired(DeleteAll(s, OfUser(View(s), user)), now), user) == {};
    assert mine == (mine - on) + mine * on;
  }
}
