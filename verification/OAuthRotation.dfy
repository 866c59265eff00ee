/**
 Refresh-token rotation over interleaved grants. A refresh grant is two steps with an await in
 between: consuming the presented token, then either saving the new pair under the same family
 or, when the token had been used, revoking the family. Any number of grants, failures, lookups,
 revocations and clock ticks may come in between; an event whose guard does not hold, or whose
 names have been used before, changes nothing.
 */
module OAuthRotation {
  import opened Js
  import opened OAuthStore

  datatype Flight = Flight(token: Token, family: string)

  /** What a refresh token was issued with. */
  datatype Issue = Issue(accessToken: string, family: string)

  datatype Sys = Sys(
    store: Store,
    now: int,
    inflight: map<nat, Flight>,     // consumed a token, about to save its successor
    revoking: map<nat, string>,     // saw a reuse, about to revoke the family
    issued: map<string, Issue>,     // every refresh token ever saved
    accesses: set<string>,          // every access token ever saved
    families: set<string>,          // every family ever started
    redeemed: set<string>)          // every refresh token redeemed so far

  function Init(now: int): Sys {
    Sys(EMPTY, now, map[], map[], map[], {}, {}, {})
  }

  datatype Event =
    | Grant(accessToken: string, refreshToken: string, family: string, scope: Option<string>, userId: Option<string>)
    | Present(pid: nat, presented: string)
    | Rotate(pid: nat, accessToken: string, refreshToken: string)
    | Revoke(pid: nat)
    | Fail(pid: nat)
    | Lookup(accessToken: string)
    | RevokeOne(refreshToken: string)
    | RemoveOne(accessToken: string)
    | Tick(d: nat)

  /** Lifetime, in seconds, that every grant gives its access token. */
  const EXPIRES_IN := 3600

  ghost predicate FreshPair(s: Sys, accessToken: string, refreshToken: string) {
    accessToken !in s.accesses && refreshToken !in s.issued && refreshToken != ""
  }

  ghost function Issued(s: Sys, token: Token, family: string): Sys
    requires token.refreshToken.Some?
  {
    s.(store := SaveToken(s.store, s.now, token, Some(family), ""),
       issued := s.issued[token.refreshToken.value := Issue(token.accessToken, family)],
       accesses := s.accesses + {token.accessToken},
       families := s.families + {family})
  }

  ghost function Apply(s: Sys, e: Event): Sys {
    match e
    case Grant(a, r, f, scope, userId) =>
      if FreshPair(s, a, r) && f !in s.families && f != "" then
        Issued(s, Token(a, Some(r), EXPIRES_IN, scope, userId), f)
      else s
    case Present(p, r) =>
      if p in s.inflight || p in s.revoking then s
      else
        var (store, answer) := ConsumeRefreshToken(s.store, s.now, r);
        (match answer
         case Rotated(token, f) =>
           s.(store := store, inflight := s.inflight[p := Flight(token, f)], redeemed := s.redeemed + {r})
         case Reused(f) => s.(store := store, revoking := s.revoking[p := f])
         case _ => s.(store := store))
    case Rotate(p, a, r) =>
      if p in s.inflight && FreshPair(s, a, r) then
        var flight := s.inflight[p];
        Issued(s, Token(a, Some(r), EXPIRES_IN, flight.token.scope, flight.token.userId), flight.family)
          .(inflight := s.inflight - {p})
      else s
    case Revoke(p) =>
      if p in s.revoking then
        s.(store := RevokeTokenFamily(s.store, s.revoking[p]), revoking := s.revoking - {p})
      else s
    case Fail(p) => s.(inflight := s.inflight - {p})
    case Lookup(a) => s.(store := GetToken(s.store, s.now, a).0)
    case RevokeOne(r) => s.(store := RevokeRefreshToken(s.store, r))
    case RemoveOne(a) => s.(store := RemoveToken(s.store, a))
    case Tick(d) => s.(now := s.now + d)
  }

  ghost function RunFrom(s: Sys, events: seq<Event>): Sys {
    if events == [] then s
    else Apply(RunFrom(s, events[..|events| - 1]), events[|events| - 1])
  }

  ghost function Flights(s: Sys, f: string): set<nat> {
    set p | p in s.inflight && s.inflight[p].family == f
  }

  ghost function Unused(store: Store, f: string): set<string> {
    set r | r in store.refresh && store.refresh[r].family == f && !store.refresh[r].used
  }

  /** Event e is the one that redeems refresh token r. */
  ghost predicate Redeems(s: Sys, e: Event, r: string) {
    && e.Present? && e.presented == r
    && e.pid !in s.inflight && e.pid !in s.revoking
    && ConsumeRefreshToken(s.store, s.now, r).1.Rotated?
  }

  // ---------- the invariant of every run ----------

  /** What is stored is what was issued, and names are never issued twice. */
  ghost predicate History(s: Sys) {
    && (forall r :: r in s.store.refresh ==>
      r in s.issued && s.issued[r] == Issue(s.store.refresh[r].accessToken, s.store.refresh[r].family))
    && (forall a :: a in s.store.tokens ==> Truthy(s.store.tokens[a].token.refreshToken))
    && (forall r :: r in s.issued ==> s.issued[r].accessToken in s.accesses && s.issued[r].family in s.families)
    && (forall r, q :: r in s.issued && q in s.issued && s.issued[r].accessToken == s.issued[q].accessToken ==> r == q)
    && "" !in s.families
  }

  ghost predicate Control(s: Sys) {
    && (forall p :: p in s.inflight ==> s.inflight[p].family in s.families)
    && (forall p :: p in s.revoking ==> s.revoking[p] in s.families)
    && (forall r :: r in s.store.refresh ==> (s.store.refresh[r].used <==> r in s.redeemed))
    && (forall r :: r in s.redeemed ==> r in s.issued)
  }

  /** Unused refresh tokens of a family and rotations under way for it: at most one in all. */
  ghost predicate OnePerFamily(s: Sys) {
    forall f :: |Unused(s.store, f)| + |Flights(s, f)| <= 1
  }

  ghost predicate Inv(s: Sys) {
    Consistent(s.store) && History(s) && Control(s) && OnePerFamily(s)
  }

  /** What a save may add and change: the pair being saved, and nothing else. */
  ghost predicate Adds(before: Store, after: Store, token: Token, f: string)
    requires token.refreshToken.Some?
  {
    && (forall r :: r in after.refresh ==>
      if r == token.refreshToken.value then after.refresh[r] == Entry(token.accessToken, f, false)
      else r in before.refresh && after.refresh[r] == before.refresh[r])
    && (forall a :: a in after.tokens ==>
      if a == token.accessToken then after.tokens[a].token == token
      else a in before.tokens && after.tokens[a] == before.tokens[a])
  }

  lemma SaveAdds(s: Sys, token: Token, f: string)
    requires Consistent(s.store) && History(s) && f != ""
    requires token.refreshToken.Some? && FreshPair(s, token.accessToken, token.refreshToken.value)
    ensures
      var s' := Issued(s, token, f);
      && Consistent(s'.store)
      && Adds(s.store, s'.store, token, f)
      && (token.expiresIn >= 0 ==> GetToken(s'.store, s'.now, token.accessToken).1 == Found(token))
  {
    SaveKeeps(s.store, s.now, token, Some(f), "");
    EvictionExact(s.store, s.now, token, Some(f), "");
  }

  /** Dropping stored items, or rotations under way, keeps the invariant. */
  lemma NarrowKeeps(s: Sys, s': Sys)
    requires Inv(s) && Consistent(s'.store) && Narrower(s.store, s'.store)
    requires s'.issued == s.issued && s'.accesses == s.accesses && s'.families == s.families && s'.redeemed == s.redeemed
    requires forall p :: p in s'.inflight ==> p in s.inflight && s'.inflight[p] == s.inflight[p]
    requires forall p :: p in s'.revoking ==> s'.revoking[p] in s.families
    ensures Inv(s')
  {
    forall f ensures |Unused(s'.store, f)| + |Flights(s', f)| <= 1 {
      assert |Unused(s.store, f)| + |Flights(s, f)| <= 1;
      SubsetSize(Unused(s'.store, f), Unused(s.store, f));
      SubsetSize(Flights(s', f), Flights(s, f));
    }
  }

  lemma AddsUnused(before: Store, after: Store, token: Token, f: string, g: string)
    requires token.refreshToken.Some? && Adds(before, after, token, f)
    ensures Unused(after, g) <= Unused(before, g) + (if g == f then {token.refreshToken.value} else {})
  {
  }

  lemma AddsKeepsHistory(s: Sys, s': Sys, token: Token, f: string)
    requires History(s) && Control(s) && f != "" && token.refreshToken.Some?
    requires FreshPair(s, token.accessToken, token.refreshToken.value) && Adds(s.store, s'.store, token, f)
    requires s'.issued == s.issued[token.refreshToken.value := Issue(token.accessToken, f)]
    requires s'.accesses == s.accesses + {token.accessToken} && s'.families == s.families + {f}
    requires s'.inflight == s.inflight && s'.revoking == s.revoking && s'.redeemed == s.redeemed
    ensures History(s') && Control(s')
  {
  }

  /** Issuing a fresh pair under a family that has no way forward gives it one. */
  lemma IssueKeeps(s: Sys, token: Token, f: string)
    requires Inv(s) && Unused(s.store, f) == {} && Flights(s, f) == {} && f != ""
    requires token.refreshToken.Some? && FreshPair(s, token.accessToken, token.refreshToken.value)
    ensures Inv(Issued(s, token, f))
  {
    SaveAdds(s, token, f);
    AddedKeeps(s, Issued(s, token, f), token, f);
  }

  lemma AddedKeeps(s: Sys, s': Sys, token: Token, f: string)
    requires Inv(s) && Unused(s.store, f) == {} && Flights(s, f) == {} && f != "" && token.refreshToken.Some?
    requires FreshPair(s, token.accessToken, token.refreshToken.value)
    requires Consistent(s'.store) && Adds(s.store, s'.store, token, f)
    requires s'.issued == s.issued[token.refreshToken.value := Issue(token.accessToken, f)]
    requires s'.accesses == s.accesses + {token.accessToken} && s'.families == s.families + {f}
    requires s'.inflight == s.inflight && s'.revoking == s.revoking && s'.redeemed == s.redeemed
    ensures Inv(s')
  {
    AddsKeepsHistory(s, s', token, f);
    forall g ensures |Unused(s'.store, g)| + |Flights(s', g)| <= 1 {
      assert |Unused(s.store, g)| + |Flights(s, g)| <= 1;
      assert Flights(s', g) == Flights(s, g);
      AddsUnused(s.store, s'.store, token, f, g);
      SubsetSize(Unused(s'.store, g), if g == f then {token.refreshToken.value} else Unused(s.store, g));
    }
  }

  lemma GrantKeeps(s: Sys, e: Event)
    requires Inv(s) && e.Grant?
    ensures Inv(Apply(s, e))
  {
    if Apply(s, e) != s {
      assert Unused(s.store, e.family) == {} && Flights(s, e.family) == {};
      IssueKeeps(s, Token(e.accessToken, Some(e.refreshToken), EXPIRES_IN, e.scope, e.userId), e.family);
    }
  }

  /** The flight of process p taken out, ready for its save. */
  ghost function Landed(s: Sys, p: nat): Sys {
    s.(inflight := s.inflight - {p})
  }

  ghost function Successor(s: Sys, p: nat, accessToken: string, refreshToken: string): Token
    requires p in s.inflight
  {
    var old_token := s.inflight[p].token;
    Token(accessToken, Some(refreshToken), EXPIRES_IN, old_token.scope, old_token.userId)
  }

  lemma LandedKeeps(s: Sys, p: nat)
    requires Inv(s) && p in s.inflight
    ensures var f := s.inflight[p].family;
      Inv(Landed(s, p)) && Unused(Landed(s, p).store, f) == {} && Flights(Landed(s, p), f) == {} && f != ""
  {
    var f := s.inflight[p].family;
    NarrowKeeps(s, Landed(s, p));
    assert |Unused(s.store, f)| + |Flights(s, f)| <= 1;
    assert Flights(s, f) == Flights(Landed(s, p), f) + {p};
  }

  lemma RotateKeeps(s: Sys, e: Event)
    requires Inv(s) && e.Rotate?
    ensures Inv(Apply(s, e))
  {
    if Apply(s, e) != s {
      LandedKeeps(s, e.pid);
      var token, f := Successor(s, e.pid, e.accessToken, e.refreshToken), s.inflight[e.pid].family;
      IssueKeeps(Landed(s, e.pid), token, f);
      assert Apply(s, e) == Issued(Landed(s, e.pid), token, f);
    }
  }

  ghost function Marked(s: Sys, p: nat, r: string, flight: Flight): Sys
    requires r in s.store.refresh
  {
    s.(store := s.store.(refresh := s.store.refresh[r := s.store.refresh[r].(used := true)]),
       inflight := s.inflight[p := flight], redeemed := s.redeemed + {r})
  }

  lemma MarkedKeepsConsistent(s: Sys, p: nat, r: string, flight: Flight)
    requires Consistent(s.store) && r in s.store.refresh
    ensures Consistent(Marked(s, p, r, flight).store)
  {
  }

  lemma MarkedKeepsHistory(s: Sys, p: nat, r: string, flight: Flight)
    requires History(s) && r in s.store.refresh
    ensures History(Marked(s, p, r, flight))
  {
    assert forall q :: q in Marked(s, p, r, flight).store.refresh ==> q in s.store.refresh;
  }

  lemma MarkedKeepsControl(s: Sys, p: nat, r: string, flight: Flight)
    requires History(s) && Control(s) && r in s.store.refresh && flight.family == s.store.refresh[r].family
    ensures Control(Marked(s, p, r, flight))
  {
  }

  /** A redemption turns the family's one unused token into its one rotation under way. */
  lemma MarkedKeepsBound(s: Sys, p: nat, r: string, flight: Flight, f: string)
    requires |Unused(s.store, f)| + |Flights(s, f)| <= 1
    requires r in s.store.refresh && !s.store.refresh[r].used && p !in s.inflight
    requires flight.family == s.store.refresh[r].family
    ensures var s' := Marked(s, p, r, flight); |Unused(s'.store, f)| + |Flights(s', f)| <= 1
  {
    var s' := Marked(s, p, r, flight);
    if flight.family == f {
      assert Flights(s', f) == Flights(s, f) + {p};
      assert Unused(s'.store, f) == Unused(s.store, f) - {r};
    } else {
      assert Flights(s', f) == Flights(s, f);
      assert Unused(s'.store, f) == Unused(s.store, f);
    }
  }

  lemma MarkedKeeps(s: Sys, p: nat, r: string, flight: Flight)
    requires Inv(s) && r in s.store.refresh && !s.store.refresh[r].used && p !in s.inflight
    requires flight.family == s.store.refresh[r].family
    ensures Inv(Marked(s, p, r, flight))
  {
    hide Consistent, History, Control;
    MarkedKeepsConsistent(s, p, r, flight);
    MarkedKeepsHistory(s, p, r, flight);
    MarkedKeepsControl(s, p, r, flight);
    forall f ensures |Unused(Marked(s, p, r, flight).store, f)| + |Flights(Marked(s, p, r, flight), f)| <= 1 {
      MarkedKeepsBound(s, p, r, flight, f);
    }
  }

  lemma PresentKeeps(s: Sys, e: Event)
    requires Inv(s) && e.Present?
    ensures Inv(Apply(s, e))
  {
    hide Inv;
    var answer := ConsumeRefreshToken(s.store, s.now, e.presented).1;
    if Redeems(s, e, e.presented) {
      MarkedKeeps(s, e.pid, e.presented, Flight(answer.token, answer.family));
    } else if Apply(s, e) != s {
      UnredeemedKeeps(s, e);
    }
  }

  lemma UnredeemedKeeps(s: Sys, e: Event)
    requires Inv(s) && e.Present? && Apply(s, e) != s && !Redeems(s, e, e.presented)
    ensures Inv(Apply(s, e))
  {
    hide OnePerFamily, Consistent;
    ConsumeKeeps(s.store, s.now, e.presented);
    StepNarrows(s.store, s.now, Consume(e.presented));
    NarrowKeeps(s, Apply(s, e));
  }

  /** The store operation behind an event that is neither a save nor a consumption. */
  ghost function StoreOp(s: Sys, e: Event): Option<Op> {
    match e
    case Revoke(p) => if p in s.revoking then Some(RevokeFamily(s.revoking[p])) else None
    case RevokeOne(r) => Some(Op.RevokeRefresh(r))
    case RemoveOne(a) => Some(Op.Remove(a))
    case Lookup(a) => Some(Op.Get(a))
    case _ => None
  }

  /** The steps that only take things away do one operation of the store, or none. */
  lemma ShrinkOp(s: Sys, e: Event)
    requires !e.Grant? && !e.Rotate? && !e.Present?
    ensures
      var op, s' := StoreOp(s, e), Apply(s, e);
      && s'.store == (if op.Some? then Step(s.store, s.now, op.value).0 else s.store)
      && (op.Some? ==> !op.value.Save? && !Step(s.store, s.now, op.value).1.Rotated?)
      && s'.issued == s.issued && s'.accesses == s.accesses && s'.families == s.families && s'.redeemed == s.redeemed
      && (forall p :: p in s'.inflight ==> p in s.inflight && s'.inflight[p] == s.inflight[p])
      && (forall p :: p in s'.revoking ==> p in s.revoking && s'.revoking[p] == s.revoking[p])
  {
    hide RevokeTokenFamily, RevokeRefreshToken, RemoveToken;
  }

  lemma NarrowerSelf(s: Store)
    ensures Narrower(s, s)
  {
  }

  lemma RevokingKnown(s: Sys)
    requires Inv(s)
    ensures Consistent(s.store) && forall p :: p in s.revoking ==> s.revoking[p] in s.families
  {
  }

  lemma ShrinkKeeps(s: Sys, e: Event)
    requires Inv(s) && !e.Grant? && !e.Rotate? && !e.Present?
    ensures Inv(Apply(s, e))
  {
    hide Inv, Apply, Step, StoreOp, Consistent, Narrower;
    ShrinkOp(s, e);
    RevokingKnown(s);
    var op := StoreOp(s, e);
    if op.Some? {
      StepKeepsConsistent(s.store, s.now, op.value);
      StepNarrows(s.store, s.now, op.value);
    } else {
      NarrowerSelf(s.store);
    }
    NarrowKeeps(s, Apply(s, e));
  }

  lemma StepKeepsInv(s: Sys, e: Event)
    requires Inv(s)
    ensures Inv(Apply(s, e))
  {
    if e.Grant? {
      GrantKeeps(s, e);
    } else if e.Rotate? {
      RotateKeeps(s, e);
    } else if e.Present? {
      PresentKeeps(s, e);
    } else {
      ShrinkKeeps(s, e);
    }
  }

  lemma {:induction false} RunKeepsInv(s: Sys, events: seq<Event>)
    requires Inv(s)
    ensures Inv(RunFrom(s, events))
  {
    if events != [] {
      var before := events[..|events| - 1];
      RunKeepsInv(s, before);
      StepKeepsInv(RunFrom(s, before), events[|events| - 1]);
    }
  }

  lemma InitInv(now: int)
    ensures Inv(Init(now))
  {
    forall f ensures Unused(Init(now).store, f) == {} && Flights(Init(now), f) == {} {
    }
  }

  /**
   In every run, each family has at most one way forward: one unused refresh token or one
   rotation under way, never both and never two.
   */
  lemma OneWayForward(now: int, events: seq<Event>, f: string)
    ensures var s := RunFrom(Init(now), events); |Unused(s.store, f)| + |Flights(s, f)| <= 1
  {
    InitInv(now);
    RunKeepsInv(Init(now), events);
  }

  // ---------- a refresh token is redeemed at most once ----------

  lemma RedeemedGrows(s: Sys, e: Event)
    ensures s.redeemed <= Apply(s, e).redeemed
  {
  }

  /** A redeemed token stays redeemed. */
  lemma {:induction false} RedeemedStays(s: Sys, events: seq<Event>, k: nat, r: string)
    requires k <= |events| && r in RunFrom(s, events[..k]).redeemed
    ensures r in RunFrom(s, events).redeemed
    decreases |events|
  {
    if k < |events| {
      hide Apply;
      var before := events[..|events| - 1];
      assert before[..k] == events[..k];
      RedeemedStays(s, before, k, r);
      RedeemedGrows(RunFrom(s, before), events[|events| - 1]);
    } else {
      assert events[..k] == events;
    }
  }

  /** Presenting a redeemed token is answered by reuse while its pair is alive, and by nothing after. */
  lemma RedeemedIsNotRedeemable(s: Sys, r: string)
    requires Inv(s) && r in s.redeemed
    ensures
      var answer := ConsumeRefreshToken(s.store, s.now, r).1;
      var issue := s.issued[r];
      if r in s.store.refresh && issue.accessToken in s.store.tokens
        && !Expired(s.store.tokens[issue.accessToken], s.now)
      then answer == Reused(issue.family)
      else answer == Absent
  {
  }

  /** Of two steps of one run, at most one redeems a given refresh token. */
  lemma RedeemedAtMostOnce(now: int, events: seq<Event>, i: nat, j: nat, r: string)
    requires i < j < |events|
    requires Redeems(RunFrom(Init(now), events[..i]), events[i], r)
    ensures !Redeems(RunFrom(Init(now), events[..j]), events[j], r)
  {
    var upto := events[..j];
    assert events[..i + 1][..i] == events[..i] && upto[..i + 1] == events[..i + 1];
    assert r in RunFrom(Init(now), upto[..i + 1]).redeemed;
    RedeemedStays(Init(now), upto, i + 1, r);
    InitInv(now);
    RunKeepsInv(Init(now), upto);
    RedeemedIsNotRedeemable(RunFrom(Init(now), upto), r);
  }

  // ---------- revoking a family ----------

  /** Neither the access token nor the refresh token of any pair issued under f is accepted. */
  ghost predicate FamilyRejected(s: Sys, f: string) {
    forall r :: r in s.issued && s.issued[r].family == f ==>
      && GetToken(s.store, s.now, s.issued[r].accessToken).1 == Absent
      && ConsumeRefreshToken(s.store, s.now, r).1 == Absent
  }

  ghost predicate RejectedForEver(s: Sys, f: string) {
    forall events :: FamilyRejected(RunFrom(s, events), f)
  }

  ghost predicate Dead(s: Sys, f: string) {
    && f in s.families && Flights(s, f) == {}
    && (forall r :: r in s.issued && s.issued[r].family == f ==>
      r !in s.store.refresh && s.issued[r].accessToken !in s.store.tokens)
  }

  lemma DeadStaysNarrow(s: Sys, s': Sys, f: string)
    requires Dead(s, f) && Narrower(s.store, s'.store) && s'.issued == s.issued && s'.families == s.families
    requires forall p :: p in s'.inflight ==> p in s.inflight && s'.inflight[p] == s.inflight[p]
    ensures Dead(s', f)
  {
    assert Flights(s', f) <= Flights(s, f);
  }

  lemma DeadStaysIssue(s: Sys, token: Token, g: string, f: string)
    requires Inv(s) && Dead(s, f) && g != f && g != ""
    requires token.refreshToken.Some? && FreshPair(s, token.accessToken, token.refreshToken.value)
    ensures Dead(Issued(s, token, g), f)
  {
    SaveAdds(s, token, g);
    assert Flights(Issued(s, token, g), f) == Flights(s, f);
  }

  lemma DeadStaysRotate(s: Sys, e: Event, f: string)
    requires Inv(s) && Dead(s, f) && e.Rotate? && Apply(s, e) != s
    ensures Dead(Apply(s, e), f)
  {
    var token, g := Successor(s, e.pid, e.accessToken, e.refreshToken), s.inflight[e.pid].family;
    assert g != f by { assert e.pid !in Flights(s, f); }
    LandedKeeps(s, e.pid);
    DeadStaysNarrow(s, Landed(s, e.pid), f);
    DeadStaysIssue(Landed(s, e.pid), token, g, f);
    assert Apply(s, e) == Issued(Landed(s, e.pid), token, g);
  }

  lemma DeadStaysShrink(s: Sys, e: Event, f: string)
    requires Inv(s) && Dead(s, f) && !e.Grant? && !e.Rotate? && !e.Present?
    ensures Dead(Apply(s, e), f)
  {
    hide Inv, Dead, Apply, Step, StoreOp, Consistent, Narrower;
    ShrinkOp(s, e);
    var op := StoreOp(s, e);
    if op.Some? {
      StepNarrows(s.store, s.now, op.value);
    } else {
      NarrowerSelf(s.store);
    }
    DeadStaysNarrow(s, Apply(s, e), f);
  }

  lemma DeadStays(s: Sys, e: Event, f: string)
    requires Inv(s) && Dead(s, f)
    ensures Dead(Apply(s, e), f)
  {
    if Apply(s, e) == s {
    } else if e.Grant? {
      DeadStaysIssue(s, Token(e.accessToken, Some(e.refreshToken), EXPIRES_IN, e.scope, e.userId), e.family, f);
    } else if e.Rotate? {
      DeadStaysRotate(s, e, f);
    } else if e.Present? {
      DeadStaysPresent(s, e, f);
    } else {
      DeadStaysShrink(s, e, f);
    }
  }

  lemma RedeemedNotDead(s: Sys, e: Event, f: string)
    requires Inv(s) && Dead(s, f) && e.Present? && Redeems(s, e, e.presented)
    ensures ConsumeRefreshToken(s.store, s.now, e.presented).1.family != f
  {
  }

  lemma DeadStaysPresent(s: Sys, e: Event, f: string)
    requires Inv(s) && Dead(s, f) && e.Present? && Apply(s, e) != s
    ensures Dead(Apply(s, e), f)
  {
    hide Inv;
    if Redeems(s, e, e.presented) {
      RedeemedNotDead(s, e, f);
      assert Flights(Apply(s, e), f) == Flights(s, f);
    } else {
      StepNarrows(s.store, s.now, Consume(e.presented));
      DeadStaysNarrow(s, Apply(s, e), f);
    }
  }

  lemma {:induction false} DeadForEver(s: Sys, events: seq<Event>, f: string)
    requires Inv(s) && Dead(s, f)
    ensures Inv(RunFrom(s, events)) && Dead(RunFrom(s, events), f)
  {
    RunKeepsInv(s, events);
    if events != [] {
      var before := events[..|events| - 1];
      DeadForEver(s, before, f);
      DeadStays(RunFrom(s, before), events[|events| - 1], f);
    }
  }

  lemma RevokedIsDead(s: Sys, p: nat)
    requires Inv(s) && p in s.revoking && Flights(s, s.revoking[p]) == {}
    ensures Dead(Apply(s, Revoke(p)), s.revoking[p]) && p !in Apply(s, Revoke(p)).revoking
  {
    var f, s' := s.revoking[p], Apply(s, Revoke(p));
    assert Flights(s', f) == Flights(s, f);
    forall r | r in s'.issued && s'.issued[r].family == f
      ensures r !in s'.store.refresh && s'.issued[r].accessToken !in s'.store.tokens
    {
      var a := s.issued[r].accessToken;
      if a in s.store.tokens {
        assert r == s.store.tokens[a].token.refreshToken.value;
        assert r in s.store.families[f];
      }
    }
  }

  lemma SavedIsAccepted(s: Sys, e: Event, token: Token, f: string)
    requires e.Rotate? && e.pid in s.inflight && FreshPair(s, e.accessToken, e.refreshToken)
    requires token == Successor(s, e.pid, e.accessToken, e.refreshToken) && f == s.inflight[e.pid].family
    requires GetToken(Issued(s, token, f).store, s.now, token.accessToken).1.Found?
    ensures !FamilyRejected(Apply(s, e), f)
  {
    var s' := Apply(s, e);
    assert s'.store == Issued(s, token, f).store;
    assert s'.issued[e.refreshToken] == Issue(e.accessToken, f);
  }

  /** A rotation under way when the family is revoked can still save a pair that is accepted. */
  lemma FlightSurvivesRevocation(s: Sys, p: nat, q: nat) returns (e: Event)
    requires Inv(s) && p in s.revoking && q in Flights(s, s.revoking[p])
    ensures !FamilyRejected(Apply(Apply(s, Revoke(p)), e), s.revoking[p])
  {
    var f, s' := s.revoking[p], Apply(s, Revoke(p));
    StepKeepsInv(s, Revoke(p));
    var a := FreshName(s'.accesses);
    var r := FreshName(s'.issued.Keys);
    e := Rotate(q, a, r);
    var token := Successor(s', q, a, r);
    SaveAdds(s', token, f);
    SavedIsAccepted(s', e, token, f);
  }

  /**
   Revoking a family after a detected reuse is final, in every continuation and for every pair ever
   issued under it, exactly when no rotation of the family is under way at that moment.
   */
  lemma RevocationIsFinalIff(s: Sys, p: nat)
    requires Inv(s) && p in s.revoking
    ensures RejectedForEver(Apply(s, Revoke(p)), s.revoking[p]) <==> Flights(s, s.revoking[p]) == {}
  {
    var f, s' := s.revoking[p], Apply(s, Revoke(p));
    if Flights(s, f) == {} {
      StepKeepsInv(s, Revoke(p));
      RevokedIsDead(s, p);
      forall events ensures FamilyRejected(RunFrom(s', events), f) {
        DeadForEver(s', events, f);
      }
    } else {
      var q :| q in Flights(s, f);
      var e := FlightSurvivesRevocation(s, p, q);
      assert RunFrom(s', [e]) == Apply(s', e) by {
        assert [e][..0] == [];
      }
    }
  }

  // ---------- a run in which a revocation is escaped ----------

  /** A pair that can be redeemed. */
  ghost predicate Redeemable(s: Sys, a: string, r: string, f: string) {
    && r in s.store.refresh && s.store.refresh[r] == Entry(a, f, false)
    && a in s.store.tokens && !Expired(s.store.tokens[a], s.now)
  }

  lemma GrantedRedeemable(s: Sys, a: string, r: string, f: string)
    requires Inv(s) && FreshPair(s, a, r) && f !in s.families && f != ""
    ensures
      var s' := Apply(s, Grant(a, r, f, None, None));
      Redeemable(s', a, r, f) && s'.inflight == s.inflight && s'.revoking == s.revoking
  {
    hide SaveToken, OnePerFamily;
    EvictionExact(s.store, s.now, Token(a, Some(r), EXPIRES_IN, None, None), Some(f), "");
  }

  lemma PresentedTwice(s: Sys, p: nat, q: nat, a: string, r: string, f: string)
    requires Redeemable(s, a, r, f) && p != q && {p, q} !! s.inflight.Keys + s.revoking.Keys
    ensures
      var s' := Apply(Apply(s, Present(p, r)), Present(q, r));
      q in s'.revoking && s'.revoking[q] == f && p in Flights(s', f)
  {
    assert p in {p, q} && q in {p, q};
  }

  lemma RunThree(s: Sys, e0: Event, e1: Event, e2: Event)
    ensures RunFrom(s, [e0, e1, e2]) == Apply(Apply(Apply(s, e0), e1), e2)
  {
    hide Apply;
    assert [e0, e1, e2][..2] == [e0, e1] && [e0, e1][..1] == [e0] && [e0][..0] == [];
    assert RunFrom(s, [e0]) == Apply(s, e0);
  }

  /** In any state, a new grant whose token is presented twice at once: the reuse is detected and ends nothing. */
  lemma RevocationEscaped(s: Sys, p: nat, q: nat, a: string, r: string, f: string)
    requires Inv(s) && p != q && {p, q} !! s.inflight.Keys + s.revoking.Keys
    requires FreshPair(s, a, r) && f !in s.families && f != ""
    ensures
      var s' := RunFrom(s, [Grant(a, r, f, None, None), Present(p, r), Present(q, r)]);
      && q in s'.revoking && s'.revoking[q] == f
      && !RejectedForEver(Apply(s', Revoke(q)), f)
  {
    hide Apply, Inv, RejectedForEver, Redeemable, RunFrom;
    var events := [Grant(a, r, f, None, None), Present(p, r), Present(q, r)];
    GrantedRedeemable(s, a, r, f);
    PresentedTwice(Apply(s, events[0]), p, q, a, r, f);
    RunThree(s, events[0], events[1], events[2]);
    RunKeepsInv(s, events);
    RevocationIsFinalIff(RunFrom(s, events), q);
  }

  /** Once the rotation under way has failed, the revocation is final. */
  lemma FailedThenFinal(s: Sys, p: nat, q: nat)
    requires Inv(s) && p in s.revoking && q in Flights(s, s.revoking[p])
    ensures RejectedForEver(Apply(Apply(s, Fail(q)), Revoke(p)), s.revoking[p])
  {
    hide RejectedForEver;
    var f, s' := s.revoking[p], Apply(s, Fail(q));
    StepKeepsInv(s, Fail(q));
    assert |Unused(s.store, f)| + |Flights(s, f)| <= 1;
    SubsetSize({q}, Flights(s, f));
    assert Flights(s, f) == Flights(s', f) + {q};
    RevocationIsFinalIff(s', p);
  }

  // ---------- an hour without a rotation ----------

  /** No token lasts more than an hour from now. */
  ghost predicate WithinAnHour(s: Sys) {
    0 <= s.now && forall a :: a in s.store.tokens ==> 0 < s.store.tokens[a].expiresAt <= s.now + 3600000
  }

  lemma SavedWithinAnHour(s: Sys, token: Token, f: string)
    requires WithinAnHour(s) && Consistent(s.store) && History(s) && token.expiresIn == 3600
    requires token.refreshToken.Some? && FreshPair(s, token.accessToken, token.refreshToken.value)
    ensures WithinAnHour(Issued(s, token, f))
  {
    hide SaveToken, IndexExact;
    FreshIsNew(s, token);
    EvictionExact(s.store, s.now, token, Some(f), "");
  }

  lemma FreshIsNew(s: Sys, token: Token)
    requires Consistent(s.store) && History(s)
    requires token.refreshToken.Some? && FreshPair(s, token.accessToken, token.refreshToken.value)
    ensures FreshNames(s.store, token)
  {
  }

  lemma StepWithinAnHour(s: Sys, e: Event)
    requires WithinAnHour(s) && Inv(s)
    ensures WithinAnHour(Apply(s, e))
  {
    hide Inv;
    InvParts(s);
    if e.Grant? {
      if FreshPair(s, e.accessToken, e.refreshToken) {
        SavedWithinAnHour(s, Token(e.accessToken, Some(e.refreshToken), 3600, e.scope, e.userId), e.family);
      }
    } else if e.Rotate? {
      if e.pid in s.inflight && FreshPair(s, e.accessToken, e.refreshToken) {
        SavedWithinAnHour(s, Successor(s, e.pid, e.accessToken, e.refreshToken), s.inflight[e.pid].family);
      }
    } else {
      OthersWithinAnHour(s, e);
    }
  }

  lemma InvParts(s: Sys)
    requires Inv(s)
    ensures Consistent(s.store) && History(s)
  {
  }

  lemma OthersWithinAnHour(s: Sys, e: Event)
    requires WithinAnHour(s) && !e.Grant? && !e.Rotate?
    ensures WithinAnHour(Apply(s, e))
  {
  }

  lemma {:induction false} RunWithinAnHour(now: int, events: seq<Event>)
    requires 0 <= now
    ensures WithinAnHour(RunFrom(Init(now), events))
  {
    hide WithinAnHour, Apply, Inv;
    if events == [] {
      NothingWithinAnHour(now);
    } else {
      var before := events[..|events| - 1];
      RunWithinAnHour(now, before);
      InitInv(now);
      RunKeepsInv(Init(now), before);
      StepWithinAnHour(RunFrom(Init(now), before), events[|events| - 1]);
    }
  }

  lemma NothingWithinAnHour(now: int)
    requires 0 <= now
    ensures WithinAnHour(Init(now))
  {
  }

  /** After every run, an hour in which nothing is saved leaves no family accepted. */
  lemma IdleHourEndsAll(now: int, events: seq<Event>, d: nat, f: string)
    requires 0 <= now && d > 3600000
    ensures FamilyRejected(Apply(RunFrom(Init(now), events), Tick(d)), f)
  {
    hide RunFrom;
    RunWithinAnHour(now, events);
  }
}
