/**
 Exactly how far the Redis indexes go: which lifetimes and renewals they can serve, when a device's set is
 its sessions, and when a deletion that comes late leaves a session unlisted.
 */
module RedisStoreLimits {
  import opened Js
  import opened Redis
  import opened Sessions
  import opened RedisStore
  import opened RedisStoreRuns
  import SessionTable

  // ---------- exactly which lifetimes the indexes can serve ----------

  ghost predicate CoveredInEveryRun(ttls: set<Option<int>>, renews: set<Option<int>>) {
    forall acts, owner ::
      SessionTable.Owned(acts, owner) && SessionTable.TtlsIn(acts, ttls) && SessionTable.RenewalsIn(acts, renews) ==>
        Covered(Run(acts), SessionTable.Run(acts).now)
  }

  function Ms(ttl: Option<int>): Option<int> {
    if ttl.Some? then Some(ttl.value * 1000) else None
  }

  lemma MsSeconds(ttl: Option<int>)
    requires ttl.Some? ==> ttl.value > 0
    ensures SessionTable.Seconds(Ms(ttl)) == ttl
  {
  }

  lemma RunThree(a0: SessionTable.Act, a1: SessionTable.Act, a2: SessionTable.Act)
    ensures
      var t1 := SessionTable.Apply(SessionTable.State(0, map[]), a0);
      var t2 := SessionTable.Apply(t1, a1);
      && SessionTable.Run([a0, a1, a2]) == SessionTable.Apply(t2, a2)
      && Run([a0, a1, a2]) == Apply(Apply(Apply(EMPTY_SERVER, 0, a0), t1.now, a1), t2.now, a2)
  {
    hide Apply, SessionTable.Apply;
    assert [a0][..0] == [] && [a0, a1][..1] == [a0] && [a0, a1, a2][..2] == [a0, a1];
    assert Run([a0]) == Apply(EMPTY_SERVER, 0, a0);
    assert SessionTable.Run([a0]) == SessionTable.Apply(SessionTable.State(0, map[]), a0);
    assert SessionTable.Run([a0, a1]) == SessionTable.Apply(SessionTable.Run([a0]), a1);
    assert Run([a0, a1]) == Apply(Run([a0]), SessionTable.Run([a0]).now, a1);
  }

  /** The second of two sessions of one user cuts the index short of the first, or leaves it too short. */
  lemma IndexTooShort(data: SessionData, first: Option<int>, second: Option<int>, a: int)
    requires !Truthy(data.device) && a > 0
    requires (second == Some(a) && first.Some? && first.value > a + INDEX_GRACE) || (first == Some(a) && second == None)
    ensures
      var server := SetSession(SetSession(EMPTY_SERVER, 0, "s0", data, first), 0, "s1", data, second);
      !Covered(server, a + INDEX_GRACE)
  {
    var server := SetSession(SetSession(EMPTY_SERVER, 0, "s0", data, first), 0, "s1", data, second);
    assert server.users[data.userId].expireAt == Some(a + INDEX_GRACE);
    var long := if second.None? then "s1" else "s0";
    assert long in LiveTable(server, a + INDEX_GRACE) && LiveTable(server, a + INDEX_GRACE)[long] == data;
  }

  /** A first session of lifetime a and then one of lifetime b for the same user, until b's index is gone. */
  lemma Uncovered(ttls: set<Option<int>>, renews: set<Option<int>>, a: Option<int>, b: Option<int>)
    requires a in ttls && b in ttls && PositiveTtls(ttls)
    requires a.Some? && (b.None? || b.value > a.value + INDEX_GRACE)
    ensures !CoveredInEveryRun(ttls, renews)
  {
    hide Covered, SetSession, Run, SessionTable.Run;
    var data := SessionData("u", None, 0);
    var owner := (id: string) => SessionTable.Owner("u", None);
    var first := if b.None? then a else b;
    var second := if b.None? then b else a;
    var a0, a1 := SessionTable.Set("s0", data, Ms(first)), SessionTable.Set("s1", data, Ms(second));
    var a2 := SessionTable.Wait(a.value + INDEX_GRACE);
    MsSeconds(first);
    MsSeconds(second);
    RunThree(a0, a1, a2);
    IndexTooShort(data, first, second, a.value);
    var acts := [a0, a1, a2];
    assert SessionTable.Owned(acts, owner) && SessionTable.TtlsIn(acts, ttls) && SessionTable.RenewalsIn(acts, renews);
  }

  /** One session of lifetime a, renewed for b every second from the start. */
  function Renewed(a: int, b: int, n: nat): seq<SessionTable.Act> {
    if n == 0 then [SessionTable.Set("s", SessionData("u", None, 0), Some(a * 1000))] + [SessionTable.Renewal("s", Some(b * 1000))]
    else Renewed(a, b, n - 1) + [SessionTable.Wait(1)] + [SessionTable.Renewal("s", Some(b * 1000))]
  }

  lemma RunSnoc(acts: seq<SessionTable.Act>, a: SessionTable.Act)
    ensures Run(acts + [a]) == Apply(Run(acts), SessionTable.Run(acts).now, a)
  {
    assert (acts + [a])[..|acts|] == acts;
  }

  /** The session lives on; its index keeps the deadline of the set. */
  ghost predicate LivesOn(s: Server, a: int, b: int, n: nat) {
    && "s" in s.sessions && s.sessions["s"] == Cell(SessionData("u", None, 0), Some(n + b))
    && "u" in s.users && s.users["u"] == Cell({"s"}, Some(a + INDEX_GRACE))
  }

  lemma FirstRenewal(a: int, b: int)
    requires a > 0 && b > 1
    ensures
      var s := SetSession(EMPTY_SERVER, 0, "s", SessionData("u", None, 0), Some(a));
      LivesOn(Renew(s, 0, "s", Some(b)), a, b, 0)
  {
  }

  lemma NextRenewal(s: Server, a: int, b: int, n: nat)
    requires b > 1 && LivesOn(s, a, b, n)
    ensures LivesOn(Renew(s, n + 1, "s", Some(b)), a, b, n + 1)
  {
  }

  lemma {:induction false} RenewedLives(a: int, b: int, n: nat)
    requires a > 0 && b > 1
    ensures SessionTable.Run(Renewed(a, b, n)).now == n && LivesOn(Run(Renewed(a, b, n)), a, b, n)
  {
    hide LivesOn, Renew, SetSession, Run, SessionTable.Run;
    var renewal := SessionTable.Renewal("s", Some(b * 1000));
    MsSeconds(Some(a));
    MsSeconds(Some(b));
    if n == 0 {
      var set' := SessionTable.Set("s", SessionData("u", None, 0), Some(a * 1000));
      NothingRun();
      assert [] + [set'] == [set'];
      RunSnoc([], set');
      SessionTable.RunSnoc([], set');
      RunSnoc([set'], renewal);
      SessionTable.RunSnoc([set'], renewal);
      FirstRenewal(a, b);
    } else {
      var before := Renewed(a, b, n - 1);
      RenewedLives(a, b, n - 1);
      RunSnoc(before, SessionTable.Wait(1));
      SessionTable.RunSnoc(before, SessionTable.Wait(1));
      RunSnoc(before + [SessionTable.Wait(1)], renewal);
      SessionTable.RunSnoc(before + [SessionTable.Wait(1)], renewal);
      NextRenewal(Run(before), a, b, n - 1);
    }
  }

  lemma NothingRun()
    ensures Run([]) == EMPTY_SERVER && SessionTable.Run([]).now == 0
  {
  }

  lemma {:induction false} RenewedGood(a: int, b: int, n: nat, ttls: set<Option<int>>, renews: set<Option<int>>)
    requires a > 0 && b > 1 && Some(a) in ttls && Some(b) in renews
    ensures
      var acts := Renewed(a, b, n);
      && SessionTable.Owned(acts, (id: string) => SessionTable.Owner("u", None))
      && SessionTable.TtlsIn(acts, ttls) && SessionTable.RenewalsIn(acts, renews)
  {
    MsSeconds(Some(a));
    MsSeconds(Some(b));
    if n > 0 {
      RenewedGood(a, b, n - 1, ttls, renews);
    }
  }

  lemma OutlivesIndex(s: Server, a: int, b: int)
    requires a > 0 && b > 1 && LivesOn(s, a, b, a + INDEX_GRACE)
    ensures !Covered(s, a + INDEX_GRACE)
  {
    assert "s" in LiveTable(s, a + INDEX_GRACE);
  }

  lemma UncoveredByRenewals(ttls: set<Option<int>>, renews: set<Option<int>>, a: int, b: int)
    requires a > 0 && b > 1 && Some(a) in ttls && Some(b) in renews
    ensures !CoveredInEveryRun(ttls, renews)
  {
    hide Run, SessionTable.Run, Covered, LivesOn, SessionTable.Owned, SessionTable.TtlsIn, SessionTable.RenewalsIn;
    var acts := Renewed(a, b, a + INDEX_GRACE);
    RenewedLives(a, b, a + INDEX_GRACE);
    RenewedGood(a, b, a + INDEX_GRACE, ttls, renews);
    OutlivesIndex(Run(acts), a, b);
  }

  /**
   The indexes cover every session in every schedule exactly when the lifetimes sessions are set with are
   all absent, or all given and no two of them more than sixty seconds apart, and sessions with a lifetime
   are renewed for no more than one second, which in whole seconds prolongs nothing.
   */
  lemma CoverageIff(ttls: set<Option<int>>, renews: set<Option<int>>)
    requires PositiveTtls(ttls + renews)
    ensures CoveredInEveryRun(ttls, renews) <==> Serves(ttls, renews)
  {
    hide Run, SessionTable.Run, Covered, Inv, Agrees;
    if Serves(ttls, renews) {
      forall acts, owner |
          SessionTable.Owned(acts, owner) && SessionTable.TtlsIn(acts, ttls) && SessionTable.RenewalsIn(acts, renews)
        ensures Covered(Run(acts), SessionTable.Run(acts).now)
      {
        RunAgrees(acts, ttls, renews, owner);
        InvCovers(Run(acts), SessionTable.Run(acts).now, ttls, owner);
      }
    } else if Compatible(ttls) {
      var a, b :| a in ttls && a.Some? && b in renews && b.Some? && b.value > 1;
      assert a in ttls + renews;
      UncoveredByRenewals(ttls, renews, a.value, b.value);
    } else {
      assert PositiveTtls(ttls) by {
        assert forall a :: a in ttls ==> a in ttls + renews;
      }
      Incompatible(ttls, renews);
    }
  }

  lemma Incompatible(ttls: set<Option<int>>, renews: set<Option<int>>)
    requires PositiveTtls(ttls) && !Compatible(ttls)
    ensures !CoveredInEveryRun(ttls, renews)
  {
    hide CoveredInEveryRun;
    var a, b :| a in ttls && b in ttls && !(a.Some? == b.Some? && (a.Some? ==> a.value <= b.value + INDEX_GRACE));
    if a.None? {
      Uncovered(ttls, renews, b, a);
    } else if b.None? {
      Uncovered(ttls, renews, a, b);
    } else {
      Uncovered(ttls, renews, b, a);
    }
  }

  /** Listed under a key of an index for as long as it lives. */
  ghost predicate ListedForLife(s: Server, m: Keys<set<string>>, k: string, id: string, at: int) {
    forall now :: at <= now && id in LiveTable(s, now) ==> id in Smembers(m, now, k)
  }

  lemma OutlivesIff(s: Server, m: Keys<set<string>>, k: string, id: string, at: int, deadline: int)
    requires id in s.sessions && s.sessions[id].expireAt == Some(deadline) && at < deadline
    requires id in Smembers(m, at, k)
    ensures ListedForLife(s, m, k, id, at) <==> m[k].expireAt.None? || deadline <= m[k].expireAt.value
  {
    if m[k].expireAt.Some? && m[k].expireAt.value < deadline {
      var end := m[k].expireAt.value;
      assert id in LiveTable(s, end) && id !in Smembers(m, end, k);
    }
  }

  /**
   Renewal moves a session's deadline but not its indexes'. On any server, a session renewed while it is
   there and listed stays listed under its user, and on its device, for as long as it lives exactly when
   the index has no deadline or one no earlier than the new deadline of the session.
   */
  lemma RenewIff(s: Server, id: string, at: int, again: int)
    requires id in LiveTable(s, at) && 0 < again
    ensures
      var s', data := Renew(s, at, id, Some(again)), LiveTable(s, at)[id];
      && (id in Smembers(s.users, at, data.userId) ==>
        (ListedForLife(s', s'.users, data.userId, id, at)
         <==> s.users[data.userId].expireAt.None? || at + again <= s.users[data.userId].expireAt.value))
      && (Truthy(data.device) && id in Smembers(s.devices, at, data.device.value) ==>
        (ListedForLife(s', s'.devices, data.device.value, id, at)
         <==> s.devices[data.device.value].expireAt.None? || at + again <= s.devices[data.device.value].expireAt.value))
  {
    hide ListedForLife;
    var s', data := Renew(s, at, id, Some(again)), LiveTable(s, at)[id];
    RenewCell(s.sessions, at, id, Some(again));
    if id in Smembers(s.users, at, data.userId) {
      OutlivesIff(s', s'.users, data.userId, id, at, at + again);
    }
    if Truthy(data.device) && id in Smembers(s.devices, at, data.device.value) {
      OutlivesIff(s', s'.devices, data.device.value, id, at, at + again);
    }
  }

  // ---------- a device's set as it is ----------

  /** Every member of a device's set is a session that is there and has no deadline. */
  ghost predicate Lasting(s: Server, now: int) {
    && (forall id :: id in s.sessions ==> s.sessions[id].expireAt.None?)
    && (forall device, id :: device != "" && id in Smembers(s.devices, now, device) ==> id in s.sessions)
  }

  ghost predicate NeverExpires(a: SessionTable.Act) {
    (a.Set? || a.Renewal?) ==> SessionTable.Seconds(a.ttl).None?
  }

  lemma LastingSet(s: Server, now: int, id: string, data: SessionData)
    requires Lasting(s, now)
    ensures Lasting(SetSession(s, now, id, data, None), now)
  {
    var s' := SetSession(s, now, id, data, None);
    forall device, x | device != "" && x in Smembers(s'.devices, now, device) ensures x in s'.sessions {
      assert x == id || x in Smembers(s.devices, now, device);
    }
  }

  lemma LastingDelete(s: Server, now: int, id: string, ttls: set<Option<int>>, owner: string -> SessionTable.Owner)
    requires Lasting(s, now) && Inv(s, now, ttls, owner)
    ensures Lasting(DeleteSession(s, now, id), now)
  {
    var s' := DeleteSession(s, now, id);
    if Live(s.sessions, now, id) && Truthy(s.sessions[id].value.device) {
      SremThinner(s.devices, now, s.sessions[id].value.device.value, {id});
    }
    forall device, x | device != "" && x in Smembers(s'.devices, now, device) ensures x in s'.sessions {
      assert x in Smembers(s.devices, now, device) && Live(s.sessions, now, x);
      DeviceOwned(s, now, ttls, owner, device, x);
    }
  }

  lemma LastingDeleteUser(s: Server, now: int, user: string, ttls: set<Option<int>>, owner: string -> SessionTable.Owner)
    requires Lasting(s, now) && Inv(s, now, ttls, owner)
    ensures Lasting(DeleteUser(s, now, user), now)
  {
    var s', ids := DeleteUser(s, now, user), Smembers(s.users, now, user);
    SremFromThinner(s.devices, now, DevicesOf(s, now, ids), ids);
    forall device, x | device != "" && x in Smembers(s'.devices, now, device) ensures x in s'.sessions {
      assert x in Smembers(s.devices, now, device) && Live(s.sessions, now, x);
      DeviceOwned(s, now, ttls, owner, device, x);
    }
  }

  lemma LastingDeleteUserOnDevice(s: Server, now: int, user: string, on: string, ttls: set<Option<int>>,
                                  owner: string -> SessionTable.Owner)
    requires Lasting(s, now) && Inv(s, now, ttls, owner)
    ensures Lasting(DeleteUserOnDevice(s, now, user, on), now)
  {
    var s', ids := DeleteUserOnDevice(s, now, user, on), Smembers(s.users, now, user);
    var drop := OnIt(s, now, ids, on) + Gone(s, now, ids);
    SremThinner(s.devices, now, on, drop);
    forall device, x | device != "" && x in Smembers(s'.devices, now, device) ensures x in s'.sessions {
      assert x in Smembers(s.devices, now, device) && Live(s.sessions, now, x);
      DeviceOwned(s, now, ttls, owner, device, x);
    }
  }

  lemma DeviceOwned(s: Server, now: int, ttls: set<Option<int>>, owner: string -> SessionTable.Owner,
                    device: string, id: string)
    requires Inv(s, now, ttls, owner) && id in Smembers(s.devices, now, device) && Live(s.sessions, now, id)
    ensures s.sessions[id].value.device == Some(device)
  {
  }

  lemma StepLasting(s: Server, t: SessionTable.State, a: SessionTable.Act, ttls: set<Option<int>>,
                    owner: string -> SessionTable.Owner)
    requires Lasting(s, t.now) && Inv(s, t.now, ttls, owner) && NeverExpires(a) && SessionTable.Apply(t, a).now >= t.now
    ensures Lasting(Apply(s, t.now, a), SessionTable.Apply(t, a).now)
  {
    hide Inv, SetSession, DeleteSession, DeleteUser, DeleteUserOnDevice, SessionTable.Seconds;
    match a
    case Set(id, data, ttl) => LastingSet(s, t.now, id, data);
    case Delete(id) => LastingDelete(s, t.now, id, ttls, owner);
    case DeleteUser(user) => LastingDeleteUser(s, t.now, user, ttls, owner);
    case DeleteUserOnDevice(user, device) => LastingDeleteUserOnDevice(s, t.now, user, device, ttls, owner);
    case Renewal(_, _) =>
    case Fire(_) =>
    case Wait(d) => LastingLater(s, t.now, t.now + d);
  }

  lemma LastingLater(s: Server, now: int, later: int)
    requires Lasting(s, now) && now <= later
    ensures Lasting(s, later)
  {
    forall device, id | device != "" && id in Smembers(s.devices, later, device) ensures id in s.sessions {
      assert id in Smembers(s.devices, now, device);
    }
  }

  lemma {:induction false} RunLasting(acts: seq<SessionTable.Act>, owner: string -> SessionTable.Owner)
    requires SessionTable.Owned(acts, owner) && (forall i :: 0 <= i < |acts| ==> NeverExpires(acts[i]))
    ensures
      var s, t := Run(acts), SessionTable.Run(acts);
      Inv(s, t.now, {None}, owner) && Lasting(s, t.now)
  {
    hide Inv, Lasting, Apply, SessionTable.Apply, NeverExpires, Agrees;
    ForeverIn(acts);
    RunAgrees(acts, {None}, {None}, owner);
    if acts == [] {
      NothingLasts();
    } else {
      var before, a := acts[..|acts| - 1], acts[|acts| - 1];
      RunLasting(before, owner);
      OnlyForward(SessionTable.Run(before), a);
      StepLasting(Run(before), SessionTable.Run(before), a, {None}, owner);
    }
  }

  lemma OnlyForward(t: SessionTable.State, a: SessionTable.Act)
    ensures SessionTable.Apply(t, a).now >= t.now
  {
  }

  lemma NothingLasts()
    ensures Lasting(EMPTY_SERVER, 0)
  {
  }

  lemma ForeverIn(acts: seq<SessionTable.Act>)
    requires forall i :: 0 <= i < |acts| ==> NeverExpires(acts[i])
    ensures SessionTable.TtlsIn(acts, {None}) && SessionTable.RenewalsIn(acts, {None})
    ensures Serves({None}, {None}) && PositiveTtls({None} + {None})
  {
  }

  /** Whether a device's set is the sessions on the device as it stands, in every schedule. */
  ghost predicate RawExactInEveryRun(ttls: set<Option<int>>, renews: set<Option<int>>) {
    forall acts, owner, device: string |
        SessionTable.Owned(acts, owner) && SessionTable.TtlsIn(acts, ttls) && SessionTable.RenewalsIn(acts, renews)
        && device != "" ::
      RawExact(acts, device)
  }

  ghost predicate RawExact(acts: seq<SessionTable.Act>, device: string) {
    var s, now := Run(acts), SessionTable.Run(acts).now;
    Smembers(s.devices, now, device) == OnDevice(LiveTable(s, now), device)
  }

  /** A session that expires, at the moment it does. */
  lemma LeftBehind(ttls: set<Option<int>>, renews: set<Option<int>>, ttl: Option<int>, b: Option<int>)
    requires ttl in ttls && (ttl.Some? ==> ttl.value > 0)
    requires ttl.None? ==> b.Some? && b.value > 0 && b in renews
    ensures !RawExactInEveryRun(ttls, renews)
  {
    hide Run, SessionTable.Run, RawExact;
    var data, owner := SessionData("u", Some("d"), 0), (id: string) => SessionTable.Owner("u", Some("d"));
    var a0 := SessionTable.Set("s", data, Ms(ttl));
    var a1 := if ttl.Some? then SessionTable.Wait(0) else SessionTable.Renewal("s", Ms(b));
    var a2 := SessionTable.Wait(if ttl.Some? then ttl.value else b.value);
    var acts := [a0, a1, a2];
    MsSeconds(ttl);
    if ttl.None? {
      MsSeconds(b);
    }
    RunThree(a0, a1, a2);
    LeftInSet(data, ttl, b);
    assert SessionTable.Owned(acts, owner) && SessionTable.TtlsIn(acts, ttls) && SessionTable.RenewalsIn(acts, renews);
    NotRaw(acts, if ttl.Some? then ttl.value else b.value);
  }

  lemma LeftInSet(data: SessionData, ttl: Option<int>, b: Option<int>)
    requires data.device == Some("d") && (ttl.Some? ==> ttl.value > 0) && (ttl.None? ==> b.Some? && b.value > 0)
    ensures
      var s0 := SetSession(EMPTY_SERVER, 0, "s", data, ttl);
      var s := if ttl.Some? then s0 else Renew(s0, 0, "s", b);
      var now := if ttl.Some? then ttl.value else b.value;
      "s" in Smembers(s.devices, now, "d") && "s" !in LiveTable(s, now)
  {
  }

  lemma NotRaw(acts: seq<SessionTable.Act>, now: int)
    requires SessionTable.Run(acts).now == now
    requires "s" in Smembers(Run(acts).devices, now, "d") && "s" !in LiveTable(Run(acts), now)
    ensures !RawExact(acts, "d")
  {
  }

  /**
   A device's set is exactly the sessions on the device, in every schedule, exactly when no session ever
   expires: none is set with a lifetime, and none is renewed for one.
   */
  lemma RawDeviceSetIff(ttls: set<Option<int>>, renews: set<Option<int>>)
    requires PositiveTtls(ttls + renews)
    ensures RawExactInEveryRun(ttls, renews)
            <==> (forall a :: a in ttls ==> a.None?) && (ttls != {} ==> forall b :: b in renews ==> b.None?)
  {
    hide Run, SessionTable.Run, RawExact;
    if a :| a in ttls && a.Some? {
      assert a in ttls + renews;
      LeftBehind(ttls, renews, a, None);
    } else if ttls != {} {
      if b :| b in renews && b.Some? {
        assert b in ttls + renews;
        var a :| a in ttls;
        LeftBehind(ttls, renews, a, b);
      } else {
        forall acts, owner, device |
            SessionTable.Owned(acts, owner) && SessionTable.TtlsIn(acts, ttls) && SessionTable.RenewalsIn(acts, renews)
            && device != ""
          ensures RawExact(acts, device)
        {
          RunLasting(acts, owner);
          RawWhenLasting(acts, owner, device);
        }
      }
    } else {
      forall acts, owner, device |
          SessionTable.Owned(acts, owner) && SessionTable.TtlsIn(acts, ttls) && SessionTable.RenewalsIn(acts, renews)
          && device != ""
        ensures RawExact(acts, device)
      {
        NothingSet(acts, device);
      }
    }
  }

  lemma RawWhenLasting(acts: seq<SessionTable.Act>, owner: string -> SessionTable.Owner, device: string)
    requires device != "" && Inv(Run(acts), SessionTable.Run(acts).now, {None}, owner)
    requires Lasting(Run(acts), SessionTable.Run(acts).now)
    ensures RawExact(acts, device)
  {
    hide Inv, Run, SessionTable.Run;
    IndexIsDevice(Run(acts), SessionTable.Run(acts).now, {None}, owner, device);
  }

  lemma {:induction false} NothingSet(acts: seq<SessionTable.Act>, device: string)
    requires SessionTable.TtlsIn(acts, {})
    ensures Run(acts).sessions == map[] && Run(acts).devices == map[] && RawExact(acts, device)
  {
    if acts != [] {
      NothingSet(acts[..|acts| - 1], device);
    }
  }

  // ---------- a deletion that comes late ----------

  /** The second half of a deletion by user: what it deletes was read before. */
  function DropRead(s: Server, now: int, user: string, ids: set<string>, devices: set<string>): Server {
    Server(s.sessions - ids, s.users - {user}, SremFrom(s.devices, now, devices, ids))
  }

  lemma DropsWhatItRead(s: Server, now: int, user: string)
    requires Smembers(s.users, now, user) != {}
    ensures
      var ids := Smembers(s.users, now, user);
      DeleteUser(s, now, user) == DropRead(s, now, user, ids, DevicesOf(s, now, ids))
  {
  }

  /**
   When other operations come between a user's index being read and deleted, the indexes still cover every
   session afterwards exactly when every session the user then has was read.
   */
  lemma LateDropIff(s: Server, now: int, user: string, ids: set<string>, devices: set<string>, ttls: set<Option<int>>,
                    owner: string -> SessionTable.Owner)
    requires Inv(s, now, ttls, owner) && (forall id :: id in ids ==> owner(id).user == user)
    ensures Covered(DropRead(s, now, user, ids, devices), now) <==> OfUser(LiveTable(s, now), user) <= ids
  {
    hide Inv, SremFrom;
    var s' := DropRead(s, now, user, ids, devices);
    InvCovers(s, now, ttls, owner);
    IndexIsUser(s, now, ttls, owner, user);
    SremFromThinner(s.devices, now, devices, ids);
    forall id | id in OfUser(LiveTable(s, now), user) && id !in ids ensures !Covered(s', now) {
      assert id in LiveTable(s', now) && LiveTable(s', now)[id].userId == user;
    }
    if OfUser(LiveTable(s, now), user) <= ids {
      forall id | id in LiveTable(s', now)
        ensures id in Smembers(s'.users, now, LiveTable(s', now)[id].userId)
        ensures Truthy(LiveTable(s', now)[id].device) ==>
          id in Smembers(s'.devices, now, LiveTable(s', now)[id].device.value)
      {
        assert id in LiveTable(s, now) && id !in ids;
      }
    }
  }

  // ---------- what is read back, and what is cleaned up ----------

  /**
   A session set at second t with a lifetime in milliseconds is read back for every whole second before the
   lifetime is over, and for ever without one; a lifetime that rounds up to 0 is none. Renewing does the same to
   a session that is there, and without a lifetime nothing.
   */
  lemma ReadBack(s: Server, t: int, id: string, data: SessionData, ttl: Option<int>, at: int)
    requires t <= at
    ensures
      var set', renewed := SetSession(s, t, id, data, SessionTable.Seconds(ttl)), Renew(s, t, id, SessionTable.Seconds(ttl));
      var given := ttl.Some? && !(-1000 < ttl.value <= 0);
      && (id in LiveTable(set', at) <==> !given || (at - t) * 1000 < ttl.value)
      && (id in LiveTable(set', at) ==> LiveTable(set', at)[id] == data)
      && (given ==> (id in LiveTable(renewed, at) <==>
          if id in LiveTable(s, t) then (at - t) * 1000 < ttl.value else id in LiveTable(s, at)))
      && (id in LiveTable(renewed, at) ==> LiveTable(renewed, at)[id] == s.sessions[id].value)
      && (!given ==> renewed == s)
  {
  }

  /**
   Deleting a user's sessions on a device takes, of those in the user's index, the ones on the device, and out of
   both indexes those and the ones that have vanished.
   */
  lemma CleansVanished(s: Server, now: int, user: string, device: string)
    ensures
      var s', listed := DeleteUserOnDevice(s, now, user, device), Smembers(s.users, now, user);
      var live, live' := LiveTable(s, now), LiveTable(s', now);
      var kept := set id | id in listed && id in live && live[id].device != Some(device);
      && (forall id :: id in live' <==> id in live && !(id in listed && live[id].device == Some(device)))
      && (forall id :: id in live' ==> live'[id] == live[id])
      && Smembers(s'.users, now, user) == kept
      && Smembers(s'.devices, now, device) == Smembers(s.devices, now, device) - (listed - kept)
      && (forall u :: u != user ==> Smembers(s'.users, now, u) == Smembers(s.users, now, u))
      && (forall d :: d != device ==> Smembers(s'.devices, now, d) == Smembers(s.devices, now, d))
  {
    var listed := Smembers(s.users, now, user);
    var drop := OnIt(s, now, listed, device) + Gone(s, now, listed);
    SremAllMembers(s.users, now, user, drop);
    SremAllMembers(s.devices, now, device, drop);
  }

  lemma SremAllMembers(m: Keys<set<string>>, now: int, k: string, xs: set<string>)
    ensures Smembers(SremAll(m, now, k, xs), now, k) == Smembers(m, now, k) - xs
    ensures forall x :: x != k ==> Smembers(SremAll(m, now, k, xs), now, x) == Smembers(m, now, x)
  {
  }
}
