/**
 The OAuth2 token store as a value: three maps that index one another (access tokens, refresh
 entries, token families), and what each operation does to them in one step, without loops.
 `OAuthMemoryStore` holds the object whose loops and in-place updates do just that.
 */
module OAuthStore {
  import opened Js

  datatype Token = Token(accessToken: string, refreshToken: Option<string>, expiresIn: int,
                         scope: Option<string>, userId: Option<string>)

  /** A token with the `expiresAt` (ms) that saving wrote into it. */
  datatype Stored = Stored(token: Token, expiresAt: int)

  datatype Entry = Entry(accessToken: string, family: string, used: bool)

  datatype Store = Store(tokens: map<string, Stored>, refresh: map<string, Entry>,
                         families: map<string, set<string>>)

  const EMPTY: Store := Store(map[], map[], map[])

  datatype Answer =
    | Done
    | Absent
    | Found(token: Token)
    | Rotated(token: Token, family: string)
    | Reused(family: string)

  datatype Op =
    | Save(token: Token, into: Option<string>, uuid: string)
    | Get(accessToken: string)
    | Consume(refreshToken: string)
    | RevokeFamily(family: string)
    | RevokeRefresh(refreshToken: string)
    | Remove(accessToken: string)

  predicate Expired(st: Stored, now: int) {
    st.expiresAt != 0 && now > st.expiresAt
  }

  /** The refresh tokens that the access tokens `accesses` were stored with. */
  function RefreshOf(s: Store, accesses: set<string>): set<string> {
    set a | a in accesses && a in s.tokens && Truthy(s.tokens[a].token.refreshToken)
      :: s.tokens[a].token.refreshToken.value
  }

  /** `removeToken` of every access token in `accesses`. */
  function RemoveAll(s: Store, accesses: set<string>): Store {
    var gone := RefreshOf(s, accesses);
    Store(s.tokens - accesses, s.refresh - gone,
          map f | f in s.families && s.families[f] - Listed(s, gone, f) != {}
            :: s.families[f] - Listed(s, gone, f))
  }

  /** Those of `gone` whose entry names family f. */
  function Listed(s: Store, gone: set<string>, f: string): set<string> {
    set r | r in gone && r in s.refresh && s.refresh[r].family == f
  }

  function ExpiredTokens(s: Store, now: int): set<string> {
    set a | a in s.tokens && Expired(s.tokens[a], now)
  }

  function FamilyFor(family: Option<string>, uuid: string): string {
    if Truthy(family) then family.value else uuid
  }

  function Members(s: Store, f: string): set<string> {
    if f in s.families then s.families[f] else {}
  }

  function Insert(s: Store, now: int, token: Token, f: string): Store {
    var tokens := s.tokens[token.accessToken := Stored(token, now + token.expiresIn * 1000)];
    if Truthy(token.refreshToken) then
      var r := token.refreshToken.value;
      Store(tokens, s.refresh[r := Entry(token.accessToken, f, false)],
            s.families[f := Members(s, f) + {r}])
    else
      s.(tokens := tokens)
  }

  function SaveToken(s: Store, now: int, token: Token, family: Option<string>, uuid: string): Store {
    var s1 := Insert(s, now, token, FamilyFor(family, uuid));
    RemoveAll(s1, ExpiredTokens(s1, now))
  }

  function GetToken(s: Store, now: int, a: string): (Store, Answer) {
    if a !in s.tokens then (s, Absent)
    else if Expired(s.tokens[a], now) then (s.(tokens := s.tokens - {a}), Absent)
    else (s, Found(s.tokens[a].token))
  }

  /** One refresh token dropped from the family `f`. */
  function DropMember(families: map<string, set<string>>, f: string, r: string): map<string, set<string>> {
    if f !in families then families
    else if families[f] - {r} == {} then families - {f}
    else families[f := families[f] - {r}]
  }

  function ConsumeRefreshToken(s: Store, now: int, r: string): (Store, Answer) {
    if r !in s.refresh then (s, Absent)
    else
      var e := s.refresh[r];
      if e.accessToken !in s.tokens then (s, Absent)
      else if Expired(s.tokens[e.accessToken], now) then
        (Store(s.tokens - {e.accessToken}, s.refresh - {r}, DropMember(s.families, e.family, r)), Absent)
      else if e.used then (s, Reused(e.family))
      else (s.(refresh := s.refresh[r := e.(used := true)]),
            Rotated(s.tokens[e.accessToken].token, e.family))
  }

  function RevokeTokenFamily(s: Store, f: string): Store {
    var gone := set r | r in Members(s, f) && r in s.refresh;
    Store(s.tokens - (set r | r in gone :: s.refresh[r].accessToken), s.refresh - gone, s.families - {f})
  }

  function RevokeRefreshToken(s: Store, r: string): Store {
    if r !in s.refresh then s
    else Store(s.tokens - {s.refresh[r].accessToken}, s.refresh - {r},
               DropMember(s.families, s.refresh[r].family, r))
  }

  function RemoveToken(s: Store, a: string): Store {
    RemoveAll(s, {a})
  }

  function Step(s: Store, now: int, op: Op): (Store, Answer) {
    match op
    case Save(token, into, uuid) => (SaveToken(s, now, token, into, uuid), Done)
    case Get(a) => GetToken(s, now, a)
    case Consume(r) => ConsumeRefreshToken(s, now, r)
    case RevokeFamily(f) => (RevokeTokenFamily(s, f), Done)
    case RevokeRefresh(r) => (RevokeRefreshToken(s, r), Done)
    case Remove(a) => (RemoveToken(s, a), Done)
  }

  // ---------- the three maps agree ----------

  ghost predicate NoEmptyFamily(s: Store) {
    forall f :: f in s.families ==> s.families[f] != {}
  }

  /** The families index is exactly the entries grouped by family. */
  ghost predicate IndexExact(s: Store) {
    && NoEmptyFamily(s)
    && (forall f, r :: f in s.families && r in s.families[f] ==> r in s.refresh && s.refresh[r].family == f)
    && (forall r :: r in s.refresh ==> s.refresh[r].family in s.families && r in s.families[s.refresh[r].family])
  }

  /** A stored token with a refresh token has an entry that points back to it. */
  ghost predicate PointBack(s: Store) {
    forall a :: a in s.tokens ==>
      && s.tokens[a].token.accessToken == a
      && (Truthy(s.tokens[a].token.refreshToken) ==>
        var r := s.tokens[a].token.refreshToken.value;
        r in s.refresh && s.refresh[r].accessToken == a)
  }

  /** An entry whose token is stored belongs to that token. */
  ghost predicate EntryOwns(s: Store) {
    forall r :: r in s.refresh && s.refresh[r].accessToken in s.tokens ==>
      s.tokens[s.refresh[r].accessToken].token.refreshToken == Some(r) && r != ""
  }

  ghost predicate Consistent(s: Store) {
    IndexExact(s) && PointBack(s) && EntryOwns(s)
  }

  /** The names of a token to be saved are new to the store. */
  ghost predicate FreshNames(s: Store, token: Token) {
    && token.accessToken !in s.tokens
    && (forall r :: r in s.refresh ==> s.refresh[r].accessToken != token.accessToken)
    && (Truthy(token.refreshToken) ==> token.refreshToken.value !in s.refresh)
  }

  lemma InsertKeepsIndex(s: Store, now: int, token: Token, f: string)
    requires IndexExact(s) && FreshNames(s, token)
    ensures IndexExact(Insert(s, now, token, f))
  {
  }

  lemma InsertKeeps(s: Store, now: int, token: Token, f: string)
    requires Consistent(s) && FreshNames(s, token)
    ensures Consistent(Insert(s, now, token, f))
  {
    hide IndexExact;
    InsertKeepsIndex(s, now, token, f);
  }

  /** In a consistent store only the family of each removed entry changes, by that entry alone. */
  lemma RemoveAllKeeps(s: Store, accesses: set<string>)
    requires Consistent(s)
    ensures Consistent(RemoveAll(s, accesses))
  {
    var gone, s' := RefreshOf(s, accesses), RemoveAll(s, accesses);
    forall r | r in s'.refresh
      ensures s'.refresh[r].family in s'.families && r in s'.families[s'.refresh[r].family]
    {
      var f := s.refresh[r].family;
      assert r in s.families[f] - Listed(s, gone, f);
    }
  }

  lemma SaveKeeps(s: Store, now: int, token: Token, family: Option<string>, uuid: string)
    requires Consistent(s) && FreshNames(s, token)
    ensures Consistent(SaveToken(s, now, token, family, uuid))
  {
    InsertKeeps(s, now, token, FamilyFor(family, uuid));
    var s1 := Insert(s, now, token, FamilyFor(family, uuid));
    RemoveAllKeeps(s1, ExpiredTokens(s1, now));
  }

  lemma ConsumeKeeps(s: Store, now: int, r: string)
    requires Consistent(s)
    ensures Consistent(ConsumeRefreshToken(s, now, r).0)
  {
  }

  lemma RevokeFamilyKeeps(s: Store, f: string)
    requires Consistent(s)
    ensures Consistent(RevokeTokenFamily(s, f))
  {
  }

  lemma RevokeRefreshKeeps(s: Store, r: string)
    requires Consistent(s)
    ensures Consistent(RevokeRefreshToken(s, r))
  {
  }

  /** Every operation keeps the maps in agreement, provided saved names are new. */
  lemma StepKeepsConsistent(s: Store, now: int, op: Op)
    requires Consistent(s)
    requires op.Save? ==> FreshNames(s, op.token)
    ensures Consistent(Step(s, now, op).0)
  {
    match op
    case Save(token, into, uuid) => SaveKeeps(s, now, token, into, uuid);
    case Get(a) =>
    case Consume(r) => ConsumeKeeps(s, now, r);
    case RevokeFamily(f) => RevokeFamilyKeeps(s, f);
    case RevokeRefresh(r) => RevokeRefreshKeeps(s, r);
    case Remove(a) => RemoveAllKeeps(s, {a});
  }

  /**
   Saving evicts exactly the expired tokens: an access token stays iff it has not expired, and an
   entry goes iff its own access token is one of those evicted.
   */
  lemma EvictionExact(s: Store, now: int, token: Token, family: Option<string>, uuid: string)
    requires Consistent(s) && FreshNames(s, token)
    ensures
      var s1 := Insert(s, now, token, FamilyFor(family, uuid));
      var s' := SaveToken(s, now, token, family, uuid);
      && (forall a :: a in s'.tokens <==> a in s1.tokens && !Expired(s1.tokens[a], now))
      && (forall a :: a in s'.tokens ==> s'.tokens[a] == s1.tokens[a])
      && (forall r :: r in s'.refresh <==>
        r in s1.refresh &&
        !(s1.refresh[r].accessToken in s1.tokens && Expired(s1.tokens[s1.refresh[r].accessToken], now)))
      && (forall r :: r in s'.refresh ==> s'.refresh[r] == s1.refresh[r])
  {
    InsertKeeps(s, now, token, FamilyFor(family, uuid));
    var s1 := Insert(s, now, token, FamilyFor(family, uuid));
    var gone := RefreshOf(s1, ExpiredTokens(s1, now));
    forall r | r in s1.refresh
      ensures r in gone <==>
        s1.refresh[r].accessToken in s1.tokens && Expired(s1.tokens[s1.refresh[r].accessToken], now)
    {
      if s1.refresh[r].accessToken in s1.tokens && Expired(s1.tokens[s1.refresh[r].accessToken], now) {
        assert s1.refresh[r].accessToken in ExpiredTokens(s1, now);
      }
    }
  }

  /** Removing one more token after a batch is removing the larger batch. */
  lemma RemoveOneMore(s: Store, batch: set<string>, a: string)
    ensures RemoveAll(RemoveAll(s, batch), {a}) == RemoveAll(s, batch + {a})
  {
    var s1 := RemoveAll(s, batch);
    var gone1, gone2 := RefreshOf(s, batch), RefreshOf(s1, {a});
    var gone := RefreshOf(s, batch + {a});
    assert gone == gone1 + gone2;
    assert s1.refresh - gone2 == s.refresh - gone;
    forall f | f in s.families
      ensures (s.families[f] - Listed(s, gone1, f)) - Listed(s1, gone2, f) == s.families[f] - Listed(s, gone, f)
    {
    }
    assert RemoveAll(s1, {a}).families == RemoveAll(s, batch + {a}).families;
  }

  lemma RemoveNone(s: Store)
    requires NoEmptyFamily(s)
    ensures RemoveAll(s, {}) == s
  {
    assert RefreshOf(s, {}) == {};
    forall f | f in s.families ensures s.families[f] - Listed(s, {}, f) == s.families[f] {
    }
  }

  /** Removing one token unlinks its entry from the family the entry names. */
  lemma RemoveOne(s: Store, a: string)
    requires NoEmptyFamily(s)
    ensures
      var rt := if a in s.tokens then s.tokens[a].token.refreshToken else None;
      RemoveToken(s, a) ==
      if Truthy(rt) then
        Store(s.tokens - {a}, s.refresh - {rt.value},
              if rt.value in s.refresh then DropMember(s.families, s.refresh[rt.value].family, rt.value)
              else s.families)
      else s.(tokens := s.tokens - {a})
  {
    var rt := if a in s.tokens then s.tokens[a].token.refreshToken else None;
    var gone := RefreshOf(s, {a});
    assert gone == if Truthy(rt) then {rt.value} else {};
    forall f | f in s.families
      ensures s.families[f] - Listed(s, gone, f) ==
        if Truthy(rt) && rt.value in s.refresh && s.refresh[rt.value].family == f then s.families[f] - {rt.value}
        else s.families[f]
    {
    }
  }

  // ---------- operations that only take away ----------

  /** Nothing in `after` that is not, unchanged, in `before`. */
  ghost predicate Narrower(before: Store, after: Store) {
    && (forall r :: r in after.refresh ==> r in before.refresh && after.refresh[r] == before.refresh[r])
    && (forall a :: a in after.tokens ==> a in before.tokens && after.tokens[a] == before.tokens[a])
  }

  lemma StepNarrows(s: Store, now: int, op: Op)
    requires !op.Save? && !Step(s, now, op).1.Rotated?
    ensures Narrower(s, Step(s, now, op).0)
  {
  }

  // ---------- how long a saved token is answered ----------

  lemma SavedEntry(s: Store, t: int, token: Token, into: Option<string>, uuid: string)
    requires Consistent(s) && FreshNames(s, token)
    ensures
      var s', until := SaveToken(s, t, token, into, uuid), t + token.expiresIn * 1000;
      var kept := until == 0 || t <= until;
      && (token.accessToken in s'.tokens <==> kept)
      && (kept ==> s'.tokens[token.accessToken] == Stored(token, until))
      && (token.refreshToken.Some? && token.refreshToken.value != "" ==>
        var r := token.refreshToken.value;
        && (r in s'.refresh <==> kept)
        && (kept ==> s'.refresh[r]
                     == Entry(token.accessToken, if into.Some? && into.value != "" then into.value else uuid, false)))
  {
    hide SaveToken;
    EvictionExact(s, t, token, into, uuid);
  }

  /**
   A token saved at t under new names is found at a later time exactly until `expiresIn` seconds after t; only a
   token that would expire at 0 never does. Its refresh token rotates just as long, once, under the family it was
   saved into, or else the new one.
   */
  lemma FoundUntil(s: Store, t: int, token: Token, into: Option<string>, uuid: string, at: int)
    requires Consistent(s) && FreshNames(s, token) && t <= at
    ensures
      var s', until := SaveToken(s, t, token, into, uuid), t + token.expiresIn * 1000;
      && GetToken(s', at, token.accessToken).1 == (if until == 0 || at <= until then Found(token) else Absent)
      && (token.refreshToken.Some? && token.refreshToken.value != "" ==>
        ConsumeRefreshToken(s', at, token.refreshToken.value).1 ==
        if until == 0 || at <= until then
          Rotated(token, if into.Some? && into.value != "" then into.value else uuid)
        else Absent)
  {
    hide SaveToken, Consistent, FreshNames;
    SavedEntry(s, t, token, into, uuid);
  }

  // ---------- what is left after each call ----------

  /** A lookup drops the token asked for if it has expired, and nothing else. */
  lemma LookupLeaves(s: Store, now: int, a: string)
    ensures
      var s' := GetToken(s, now, a).0;
      var over := a in s.tokens && s.tokens[a].expiresAt != 0 && now > s.tokens[a].expiresAt;
      s' == s.(tokens := s.tokens - if over then {a} else {})
  {
  }

  /** A refresh token presented takes its pair away if it has expired, and is marked if it was not used. */
  lemma ConsumeLeaves(s: Store, now: int, r: string)
    requires Consistent(s)
    ensures
      var s' := ConsumeRefreshToken(s, now, r).0;
      var known := r in s.refresh && s.refresh[r].accessToken in s.tokens;
      var over := known && s.tokens[s.refresh[r].accessToken].expiresAt != 0
        && now > s.tokens[s.refresh[r].accessToken].expiresAt;
      && s'.tokens == s.tokens - (if over then {s.refresh[r].accessToken} else {})
      && s'.refresh.Keys == s.refresh.Keys - (if over then {r} else {})
      && (forall x :: x in s'.refresh ==>
        s'.refresh[x] == s.refresh[x].(used := s.refresh[x].used || (known && x == r)))
      && (forall f, x :: x in Members(s', f) <==> x in Members(s, f) && !(over && x == r))
  {
  }

  /** The token was stored with a refresh token of the family. */
  ghost predicate InFamily(s: Store, a: string, f: string) {
    exists r :: r in s.refresh && s.refresh[r].accessToken == a && s.refresh[r].family == f
  }

  /** Revoking a family takes its entries and their access tokens, and leaves every other family whole. */
  lemma RevokeFamilyLeaves(s: Store, f: string)
    requires Consistent(s)
    ensures
      var s' := RevokeTokenFamily(s, f);
      && (forall r :: r in s'.refresh <==> r in s.refresh && s.refresh[r].family != f)
      && (forall r :: r in s'.refresh ==> s'.refresh[r] == s.refresh[r])
      && (forall a :: a in s'.tokens <==> a in s.tokens && !InFamily(s, a, f))
      && (forall a :: a in s'.tokens ==> s'.tokens[a] == s.tokens[a])
      && s'.families == s.families - {f}
  {
    var s' := RevokeTokenFamily(s, f);
    forall a | a in s.tokens ensures a in s'.tokens <==> !InFamily(s, a, f) {
      if InFamily(s, a, f) {
        var r :| r in s.refresh && s.refresh[r].accessToken == a && s.refresh[r].family == f;
        assert r in Members(s, f);
      }
    }
  }

  /** Revoking a refresh token takes it, its access token and its place in the family, and nothing else. */
  lemma RevokeRefreshLeaves(s: Store, r: string)
    requires Consistent(s) && r in s.refresh
    ensures
      var s' := RevokeRefreshToken(s, r);
      && s'.refresh == s.refresh - {r} && s'.tokens == s.tokens - {s.refresh[r].accessToken}
      && (forall f, x :: x in Members(s', f) <==> x in Members(s, f) && x != r)
  {
  }
}
