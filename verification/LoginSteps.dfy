/**
 The steps of the two protocols, with nothing in between, are the login of the service: what the policy deletes
 and what the account check decides are the same.
 */
module LoginSteps {
  import opened Js
  import opened Sessions
  import opened LoginPolicy
  import opened MemoryStore
  import opened AuthService
  import LoginProtocol
  import AccountProtocol

  /** The service's sessions on the device, as a check that reads them all finds them. */
  ghost function Found(s: Store, now: int, device: string): Table {
    map id | id in OnDevice(Unexpired(s, now), device) :: Unexpired(s, now)[id]
  }

  lemma FoundParts(s: Store, now: int, user: string, device: string)
    ensures AccountProtocol.Accounts(Found(s, now, device)) == UsersOn(Unexpired(s, now), device)
    ensures OfUser(Found(s, now, device), user) == OfUserOnDevice(Unexpired(s, now), user, device)
    ensures forall id :: id in OnDevice(Unexpired(s, now), device) ==> id in OnDevice(View(s), device)
  {
    var t, u := Found(s, now, device), Unexpired(s, now);
    assert t.Keys == OnDevice(u, device);
  }

  lemma OnDeviceOnly(t: Table, user: string, device: string)
    ensures OfUserOnDevice(t, user, device) <= OnDevice(t, device)
  {
  }

  /** The protocol's decision is the service's: the same refusal, the same sessions deleted, the same exception. */
  lemma DecidedIsMultiAccount(cfg: Config, locking: bool, s: Store, now: int, user: string, device: string)
    requires s.store.Valid() && cfg.multiAccount
    ensures
      var protocol := AccountProtocol.Config(device, cfg.maxAccounts, cfg.maxSame, locking);
      var decided := AccountProtocol.Decided(protocol, user, Listed(s, device), Found(s, now, device));
      var (s', outcome) := MultiAccount(cfg, s, now, user, device);
      && (decided.None? <==> outcome == LimitExceeded)
      && (decided.Some? ==>
        && decided.value.Clearing? && decided.value.done == 0
        && s' == DeleteAll(GetAll(s, now, Listed(s, device)), set id | id in decided.value.drop)
        && (decided.value.goesOn <==> outcome == Success))
  {
    hide ByCreateTime, Keep, GetAll, DeleteAll, UsersOn, Unexpired, Found, Overflow, OfUserOnDevice;
    var u, t, order := Unexpired(s, now), Found(s, now, device), s.store.order;
    var scope := OfUserOnDevice(u, user, device);
    FoundParts(s, now, user, device);
    OnDeviceOnly(u, user, device);
    KeepKeep(order, OnDevice(View(s), device), scope);
    assert OnDevice(View(s), device) * scope == scope;
    FoundSame(s, now, device);
    ScopeIn(u, user, device);
    SortAgree(t, u, Keep(order, scope));
  }

  lemma FoundSame(s: Store, now: int, device: string)
    ensures forall id :: id in OnDevice(Unexpired(s, now), device) ==>
      id in Found(s, now, device) && Found(s, now, device)[id] == Unexpired(s, now)[id]
  {
  }

  lemma ScopeIn(t: Table, user: string, device: string)
    ensures forall id :: id in OfUserOnDevice(t, user, device) ==> id in t && id in OnDevice(t, device)
  {
  }

  /** The protocol's listing and surplus are what the service's policy lists and deletes. */
  lemma SurplusIsPolicy(cfg: Config, locking: bool, lockTtl: nat, s: Store, user: string, device: Option<string>)
    requires s.store.Valid()
    ensures
      var protocol := LoginProtocol.Config(cfg.policy, cfg.maxSame, locking, lockTtl);
      var scope := LoginProtocol.Scope(protocol, View(s), user, device);
      && (forall id :: id in scope ==> id in View(s))
      && var ids := ByCreateTime(View(s), Keep(s.store.order, scope));
         && OldestFirst(View(s), scope, ids)
         && ApplyPolicy(cfg, s, user, device) ==
            DeleteAll(s, First(ids, LoginProtocol.Surplus(protocol, |ids|)))
  {
    hide ByCreateTime, Keep, DeleteAll, Overflow, OldestFirst;
    var protocol := LoginProtocol.Config(cfg.policy, cfg.maxSame, locking, lockTtl);
    var scope := LoginProtocol.Scope(protocol, View(s), user, device);
    var ids := ByCreateTime(View(s), Keep(s.store.order, scope));
    KeepNoDup(s.store.order, scope);
    SortedListing(View(s), Keep(s.store.order, scope), scope);
    if cfg.policy.Single? {
      assert ids[..|ids|] == ids;
      assert First(ids, |ids|) == scope;
    } else if cfg.policy.Multiple? || !Truthy(device) {
      NothingListed(ids, scope, View(s));
      assert First(ids, 0) == {};
      DeleteNone(s);
    }
  }

  lemma NothingListed(ids: seq<string>, scope: set<string>, t: Table)
    requires OldestFirst(t, scope, ids) && scope == {}
    ensures ids == []
  {
    NoDupSize(ids, scope);
  }
}
