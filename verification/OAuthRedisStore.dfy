/**
 The Redis OAuth2 store, and how far it answers like the in-memory one.

 Time is in whole seconds. Before anything expires the two stores give the same answer to every
 operation of every run; the first difference is the in-memory store's own `expiresAt`.
 */
module OAuthRedisStore {
  import opened Js
  import opened Redis
  import opened OAuthStore

  datatype Server = Server(tokens: Keys<Token>, refresh: Keys<Entry>, families: Keys<set<string>>)

  const EMPTY_SERVER: Server := Server(map[], map[], map[])

  function RSave(s: Server, now: int, ttl: int, token: Token, family: Option<string>, uuid: string): Server {
    var tokens := Put(s.tokens, now, token.accessToken, token, Some(ttl));
    if Truthy(token.refreshToken) then
      var f, r := FamilyFor(family, uuid), token.refreshToken.value;
      Server(tokens, Put(s.refresh, now, r, Entry(token.accessToken, f, false), Some(ttl)),
             Redis.Expire(Sadd(s.families, now, f, r), now, f, ttl))
    else s.(tokens := tokens)
  }

  function RGet(s: Server, now: int, a: string): Answer {
    match Redis.Get(s.tokens, now, a)
    case None => Absent
    case Some(token) => Found(token)
  }

  /** The script marks the entry and keeps what is left of its lifetime; the token is read after. */
  function RConsume(s: Server, now: int, r: string): (Server, Answer) {
    match Redis.Get(s.refresh, now, r)
    case None => (s, Absent)
    case Some(e) =>
      if e.used then (s, Reused(e.family))
      else
        var s' := s.(refresh := s.refresh[r := s.refresh[r].(value := e.(used := true))]);
        (match Redis.Get(s'.tokens, now, e.accessToken)
         case None => (s', Absent)
         case Some(token) => (s', Rotated(token, e.family)))
  }

  function RRevokeFamily(s: Server, now: int, f: string): Server {
    var gone := set r | r in Smembers(s.families, now, f) && Live(s.refresh, now, r);
    Server(s.tokens - (set r | r in gone :: s.refresh[r].value.accessToken), s.refresh - gone, s.families - {f})
  }

  function RRevokeRefresh(s: Server, now: int, r: string): Server {
    match Redis.Get(s.refresh, now, r)
    case None => s
    case Some(e) => Server(s.tokens - {e.accessToken}, s.refresh - {r}, Srem(s.families, now, e.family, r))
  }

  function RRemove(s: Server, now: int, a: string): Server {
    match Redis.Get(s.tokens, now, a)
    case None => s.(tokens := s.tokens - {a})
    case Some(token) =>
      if !Truthy(token.refreshToken) then s.(tokens := s.tokens - {a})
      else
        var r := token.refreshToken.value;
        Server(s.tokens - {a}, s.refresh - {r},
               match Redis.Get(s.refresh, now, r)
               case None => s.families
               case Some(e) => Srem(s.families, now, e.family, r))
  }

  function RStep(s: Server, now: int, ttl: int, op: Op): (Server, Answer) {
    match op
    case Save(token, into, uuid) => (RSave(s, now, ttl, token, into, uuid), Done)
    case Get(a) => (s, RGet(s, now, a))
    case Consume(r) => RConsume(s, now, r)
    case RevokeFamily(f) => (RRevokeFamily(s, now, f), Done)
    case RevokeRefresh(r) => (RRevokeRefresh(s, now, r), Done)
    case Remove(a) => (RRemove(s, now, a), Done)
  }

  // ---------- the object ----------

  class RedisOAuth2ClientStore {
    var tokens: Keys<Token>
    var refreshTokens: Keys<Entry>
    var families: Keys<set<string>>
    const tokenTtlSeconds: int

    ghost function State(): Server
      reads this
    {
      Server(tokens, refreshTokens, families)
    }

    constructor (tokenTtlSeconds: int)
      ensures State() == EMPTY_SERVER && this.tokenTtlSeconds == tokenTtlSeconds
    {
      tokens, refreshTokens, families := map[], map[], map[];
      this.tokenTtlSeconds := tokenTtlSeconds;
    }

    method SaveToken(token: Token, family: Option<string>, uuid: string, now: int)
      modifies `tokens, `refreshTokens, `families
      ensures State() == RSave(old(State()), now, tokenTtlSeconds, token, family, uuid)
    {
      tokens := Put(tokens, now, token.accessToken, token, Some(tokenTtlSeconds));
      if Truthy(token.refreshToken) {
        var tokenFamily := FamilyFor(family, uuid);
        refreshTokens := Put(refreshTokens, now, token.refreshToken.value,
                             Entry(token.accessToken, tokenFamily, false), Some(tokenTtlSeconds));
        families := Sadd(families, now, tokenFamily, token.refreshToken.value);
        families := Redis.Expire(families, now, tokenFamily, tokenTtlSeconds);
      }
    }

    method GetToken(accessToken: string, now: int) returns (answer: Answer)
      ensures answer == RGet(State(), now, accessToken)
    {
      var value := Redis.Get(tokens, now, accessToken);
      answer := if value.None? then Absent else Found(value.value);
    }

    method ConsumeRefreshToken(refreshToken: string, now: int) returns (answer: Answer)
      modifies `refreshTokens
      ensures (State(), answer) == RConsume(old(State()), now, refreshToken)
    {
      var value := Redis.Get(refreshTokens, now, refreshToken);
      if value.None? {
        return Absent;
      }
      var entry := value.value;
      if entry.used {
        return Reused(entry.family);
      }
      refreshTokens := refreshTokens[refreshToken := refreshTokens[refreshToken].(value := entry.(used := true))];
      var token := Redis.Get(tokens, now, entry.accessToken);
      if token.None? {
        return Absent;
      }
      return Rotated(token.value, entry.family);
    }

    /** Reads every member's entry, then deletes the pairs found and the family in one pipeline. */
    method RevokeTokenFamily(family: string, now: int)
      modifies `tokens, `refreshTokens, `families
      ensures State() == RRevokeFamily(old(State()), now, family)
    {
      var todo := Smembers(families, now, family);
      if todo == {} {
        families := families - {family};
        assert State() == RRevokeFamily(old(State()), now, family);
        return;
      }
      ghost var members := todo;
      var accesses: set<string>, entries: set<string> := {}, {};
      while todo != {}
        invariant todo <= members
        invariant entries == set r | r in members - todo && Live(refreshTokens, now, r)
        invariant accesses == set r | r in entries && r in refreshTokens :: refreshTokens[r].value.accessToken
      {
        var refreshToken :| refreshToken in todo;
        todo := todo - {refreshToken};
        var value := Redis.Get(refreshTokens, now, refreshToken);
        if value.Some? {
          accesses := accesses + {value.value.accessToken};
          entries := entries + {refreshToken};
        }
      }
      tokens, refreshTokens, families := tokens - accesses, refreshTokens - entries, families - {family};
      assert entries == set r | r in members && Live(old(refreshTokens), now, r);
    }

    method RevokeRefreshToken(refreshToken: string, now: int)
      modifies `tokens, `refreshTokens, `families
      ensures State() == RRevokeRefresh(old(State()), now, refreshToken)
    {
      var value := Redis.Get(refreshTokens, now, refreshToken);
      if value.None? {
        return;
      }
      var entry := value.value;
      refreshTokens := refreshTokens - {refreshToken};
      tokens := tokens - {entry.accessToken};
      families := Srem(families, now, entry.family, refreshToken);
    }

    method RemoveToken(accessToken: string, now: int)
      modifies `tokens, `refreshTokens, `families
      ensures State() == RRemove(old(State()), now, accessToken)
    {
      var token := Redis.Get(tokens, now, accessToken);
      tokens := tokens - {accessToken};
      if token.Some? && Truthy(token.value.refreshToken) {
        var refreshToken := token.value.refreshToken.value;
        var entry := Redis.Get(refreshTokens, now, refreshToken);
        refreshTokens := refreshTokens - {refreshToken};
        if entry.Some? {
          families := Srem(families, now, entry.value.family, refreshToken);
        }
      }
    }
  }

  // ---------- the same answers before the first expiry ----------

  datatype Timed = Timed(at: int, op: Op)

  ghost function MemoryRun(ops: seq<Timed>): Store {
    if ops == [] then EMPTY
    else
      var last := ops[|ops| - 1];
      Step(MemoryRun(ops[..|ops| - 1]), last.at * 1000, last.op).0
  }

  ghost function RedisRun(ops: seq<Timed>, ttl: int): Server {
    if ops == [] then EMPTY_SERVER
    else
      var last := ops[|ops| - 1];
      RStep(RedisRun(ops[..|ops| - 1], ttl), last.at, ttl, last.op).0
  }

  /** No two saves of the run share an access token or a refresh token. */
  ghost predicate FreshRun(ops: seq<Timed>) {
    forall i, j :: 0 <= i < j < |ops| && ops[i].op.Save? && ops[j].op.Save? ==>
      && ops[i].op.token.accessToken != ops[j].op.token.accessToken
      && (Truthy(ops[i].op.token.refreshToken) && Truthy(ops[j].op.token.refreshToken) ==>
        ops[i].op.token.refreshToken != ops[j].op.token.refreshToken)
  }

  /** Every operation happens before the horizon, and nothing saved expires before it in either store. */
  ghost predicate BeforeExpiry(ops: seq<Timed>, ttl: int, horizon: int) {
    forall i :: 0 <= i < |ops| ==>
      && ops[i].at < horizon
      && (ops[i].op.Save? ==> horizon <= ops[i].at + ttl && horizon <= ops[i].at + ops[i].op.token.expiresIn)
  }

  ghost predicate SavedIn(ops: seq<Timed>, a: string, r: Option<string>) {
    exists i :: 0 <= i < |ops| && ops[i].op.Save? && ops[i].op.token.accessToken == a &&
      (r.Some? ==> ops[i].op.token.refreshToken == r)
  }

  /** Everything stored was saved in the run. */
  ghost predicate FromRun(m: Store, ops: seq<Timed>) {
    && (forall a :: a in m.tokens ==> SavedIn(ops, a, None))
    && (forall r :: r in m.refresh ==> r != "" && SavedIn(ops, m.refresh[r].accessToken, Some(r)))
  }

  ghost predicate NothingExpires(m: Store, s: Server, horizon: int) {
    && (forall a :: a in m.tokens ==> horizon * 1000 <= m.tokens[a].expiresAt)
    && (forall a :: a in s.tokens ==> s.tokens[a].expireAt.Some? ==> horizon <= s.tokens[a].expireAt.value)
    && (forall r :: r in s.refresh ==> s.refresh[r].expireAt.Some? ==> horizon <= s.refresh[r].expireAt.value)
    && (forall f :: f in s.families ==> s.families[f].expireAt.Some? ==> horizon <= s.families[f].expireAt.value)
  }

  /** The two stores hold the same tokens, entries and families, times aside. */
  ghost predicate Same(m: Store, s: Server) {
    SameTokens(m.tokens, s.tokens) && SameCells(m.refresh, s.refresh) && SameCells(m.families, s.families)
  }

  ghost predicate SameTokens(m: map<string, Stored>, s: Keys<Token>) {
    m.Keys == s.Keys && (forall a :: a in m ==> m[a].token == s[a].value)
  }

  ghost predicate SameCells<V(!new)>(m: map<string, V>, s: Keys<V>) {
    m.Keys == s.Keys && (forall k :: k in m ==> m[k] == s[k].value)
  }

  ghost predicate NoDangling(m: Store) {
    forall r :: r in m.refresh ==> m.refresh[r].accessToken in m.tokens
  }

  ghost predicate Related(m: Store, s: Server, horizon: int) {
    Consistent(m) && NoDangling(m) && Same(m, s) && NothingExpires(m, s, horizon)
  }

  /** No access token is expired before the horizon, so a save evicts nothing. */
  lemma SaveIsInsert(m: Store, now: int, token: Token, into: Option<string>, uuid: string)
    requires Consistent(m) && FreshNames(m, token)
    requires forall a :: a in m.tokens ==> now <= m.tokens[a].expiresAt
    requires 0 <= token.expiresIn
    ensures SaveToken(m, now, token, into, uuid) == Insert(m, now, token, FamilyFor(into, uuid))
  {
    var m1 := Insert(m, now, token, FamilyFor(into, uuid));
    InsertKeeps(m, now, token, FamilyFor(into, uuid));
    assert ExpiredTokens(m1, now) == {};
    RemoveNone(m1);
  }

  lemma PutSame<V(!new)>(m: map<string, V>, s: Keys<V>, now: int, k: string, v: V, ttl: Option<int>)
    requires SameCells(m, s)
    ensures SameCells(m[k := v], Put(s, now, k, v, ttl))
  {
  }

  lemma PutSameToken(m: map<string, Stored>, s: Keys<Token>, now: int, a: string, t: Stored, ttl: Option<int>)
    requires SameTokens(m, s)
    ensures SameTokens(m[a := t], Put(s, now, a, t.token, ttl))
  {
  }

  lemma SaddSame(m: map<string, set<string>>, s: Keys<set<string>>, now: int, f: string, r: string, ttl: int)
    requires SameCells(m, s) && (f in s ==> Live(s, now, f))
    ensures SameCells(m[f := (if f in m then m[f] else {}) + {r}], Redis.Expire(Sadd(s, now, f, r), now, f, ttl))
  {
    var s1 := Sadd(s, now, f, r);
    assert s1[f].value == (if f in m then m[f] else {}) + {r} && Live(s1, now, f);
    assert Redis.Expire(s1, now, f, ttl)[f].value == s1[f].value;
  }

  lemma InsertSame(m: Store, s: Server, horizon: int, now: int, ttl: int, token: Token, into: Option<string>,
                   uuid: string)
    requires Same(m, s) && NothingExpires(m, s, horizon) && now < horizon
    ensures Same(Insert(m, now * 1000, token, FamilyFor(into, uuid)), RSave(s, now, ttl, token, into, uuid))
  {
    hide SameTokens, SameCells, Put, Sadd, Redis.Expire, FamilyFor;
    var f := FamilyFor(into, uuid);
    PutSameToken(m.tokens, s.tokens, now, token.accessToken, Stored(token, now * 1000 + token.expiresIn * 1000),
                 Some(ttl));
    if Truthy(token.refreshToken) {
      var r := token.refreshToken.value;
      PutSame(m.refresh, s.refresh, now, r, Entry(token.accessToken, f, false), Some(ttl));
      SaddSame(m.families, s.families, now, f, r, ttl);
    }
  }

  lemma InsertNothingExpires(m: Store, s: Server, horizon: int, now: int, ttl: int, op: Op)
    requires Same(m, s) && NothingExpires(m, s, horizon) && now < horizon && op.Save?
    requires horizon <= now + ttl && horizon <= now + op.token.expiresIn
    ensures NothingExpires(Insert(m, now * 1000, op.token, FamilyFor(op.into, op.uuid)),
                           RStep(s, now, ttl, op).0, horizon)
  {
    hide FamilyFor, SameCells, SameTokens;
  }

  lemma InsertNoDangling(m: Store, now: int, token: Token, f: string)
    requires NoDangling(m)
    ensures NoDangling(Insert(m, now, token, f))
  {
  }

  lemma SaveRelated(m: Store, s: Server, horizon: int, now: int, ttl: int, op: Op)
    requires Related(m, s, horizon) && now < horizon && op.Save? && FreshNames(m, op.token)
    requires horizon <= now + ttl && horizon <= now + op.token.expiresIn
    ensures
      var m' := Insert(m, now * 1000, op.token, FamilyFor(op.into, op.uuid));
      m' == Step(m, now * 1000, op).0 && Related(m', RStep(s, now, ttl, op).0, horizon)
  {
    InsertKeeps(m, now * 1000, op.token, FamilyFor(op.into, op.uuid));
    InsertNoDangling(m, now * 1000, op.token, FamilyFor(op.into, op.uuid));
    SaveIsInsert(m, now * 1000, op.token, op.into, op.uuid);
    InsertSame(m, s, horizon, now, ttl, op.token, op.into, op.uuid);
    InsertNothingExpires(m, s, horizon, now, ttl, op);
  }

  /** Nothing is removed alone: a pair's token and entry go together. */
  lemma TakingKeepsNoDangling(m: Store, now: int, op: Op)
    requires Consistent(m) && NoDangling(m) && (op.RevokeFamily? || op.RevokeRefresh? || op.Remove?)
    ensures NoDangling(Step(m, now, op).0)
  {
    if op.Remove? {
      RemoveOne(m, op.accessToken);
    }
  }

  /** Removals take the same keys out of both stores. */
  lemma TakingSame(m: Store, s: Server, horizon: int, now: int, ttl: int, op: Op)
    requires Consistent(m) && Same(m, s) && NothingExpires(m, s, horizon) && now < horizon
    requires op.RevokeFamily? || op.RevokeRefresh? || op.Remove?
    ensures Same(Step(m, now * 1000, op).0, RStep(s, now, ttl, op).0)
  {
    hide Same, IndexExact, NothingExpires, RemoveToken, RRemove, RevokeRefreshToken, RRevokeRefresh, RevokeTokenFamily,
      RRevokeFamily;
    if op.Remove? {
      RemoveSame(m, s, horizon, now, op.accessToken);
    } else if op.RevokeFamily? {
      FamilySame(m, s, horizon, now, op.family);
    } else {
      RevokeRefreshSame(m, s, horizon, now, op.refreshToken);
    }
  }

  lemma DropSame(m: map<string, set<string>>, s: Keys<set<string>>, now: int, f: string, r: string)
    requires SameCells(m, s) && (f in m ==> Live(s, now, f) && r in m[f])
    ensures SameCells(DropMember(m, f, r), Srem(s, now, f, r))
  {
  }

  lemma LessSame<V(!new)>(m: map<string, V>, s: Keys<V>, k: string)
    requires SameCells(m, s)
    ensures SameCells(m - {k}, s - {k})
  {
  }

  lemma LessSameToken(m: map<string, Stored>, s: Keys<Token>, a: string)
    requires SameTokens(m, s)
    ensures SameTokens(m - {a}, s - {a})
  {
  }

  lemma RemoveSame(m: Store, s: Server, horizon: int, now: int, a: string)
    requires IndexExact(m) && Same(m, s) && NothingExpires(m, s, horizon) && now < horizon
    ensures Same(RemoveToken(m, a), RRemove(s, now, a))
  {
    hide RemoveToken, DropMember, Srem;
    RemoveOne(m, a);
    LessSameToken(m.tokens, s.tokens, a);
    if a in m.tokens && Truthy(m.tokens[a].token.refreshToken) {
      var r := m.tokens[a].token.refreshToken.value;
      LessSame(m.refresh, s.refresh, r);
      if r in m.refresh {
        DropSame(m.families, s.families, now, m.refresh[r].family, r);
      }
    }
  }

  lemma RevokeRefreshSame(m: Store, s: Server, horizon: int, now: int, r: string)
    requires IndexExact(m) && Same(m, s) && NothingExpires(m, s, horizon) && now < horizon
    ensures Same(RevokeRefreshToken(m, r), RRevokeRefresh(s, now, r))
  {
    hide DropMember, Srem;
    if r in m.refresh {
      LessSame(m.refresh, s.refresh, r);
      DropSame(m.families, s.families, now, m.refresh[r].family, r);
    }
  }

  lemma FamilySame(m: Store, s: Server, horizon: int, now: int, f: string)
    requires Same(m, s) && NothingExpires(m, s, horizon) && now < horizon
    ensures Same(RevokeTokenFamily(m, f), RRevokeFamily(s, now, f))
  {
    var gone := set r | r in Members(m, f) && r in m.refresh;
    var gone' := set r | r in Smembers(s.families, now, f) && Live(s.refresh, now, r);
    assert gone == gone';
    assert (set r | r in gone :: m.refresh[r].accessToken) == (set r | r in gone' :: s.refresh[r].value.accessToken);
  }

  ghost predicate ServerNarrower(before: Server, after: Server) {
    && (forall a :: a in after.tokens ==> a in before.tokens && after.tokens[a] == before.tokens[a])
    && (forall r :: r in after.refresh ==> r in before.refresh && after.refresh[r].expireAt == before.refresh[r].expireAt)
    && (forall f :: f in after.families ==> f in before.families && after.families[f].expireAt == before.families[f].expireAt)
  }

  lemma ServerNarrows(s: Server, now: int, ttl: int, op: Op)
    requires !op.Save?
    ensures ServerNarrower(s, RStep(s, now, ttl, op).0)
  {
  }

  lemma TakingRelated(m: Store, s: Server, horizon: int, now: int, ttl: int, op: Op)
    requires Related(m, s, horizon) && now < horizon && (op.RevokeFamily? || op.RevokeRefresh? || op.Remove?)
    ensures Related(Step(m, now * 1000, op).0, RStep(s, now, ttl, op).0, horizon)
  {
    StepKeepsConsistent(m, now * 1000, op);
    TakingKeepsNoDangling(m, now * 1000, op);
    TakingSame(m, s, horizon, now, ttl, op);
    StepNarrows(m, now * 1000, op);
    ServerNarrows(s, now, ttl, op);
  }

  /** The script and the in-memory code read the entry and its token in a different order, to one end. */
  lemma ConsumeRelated(m: Store, s: Server, horizon: int, now: int, r: string)
    requires Related(m, s, horizon) && now < horizon
    ensures
      var (m', answer) := ConsumeRefreshToken(m, now * 1000, r);
      var (s', answer') := RConsume(s, now, r);
      answer == answer' && Same(m', s') && NoDangling(m') && NothingExpires(m', s', horizon)
  {
    hide Consistent;
    if r in m.refresh {
      assert Live(s.refresh, now, r) && Live(s.tokens, now, m.refresh[r].accessToken);
      assert !Expired(m.tokens[m.refresh[r].accessToken], now * 1000);
    }
  }

  lemma StepRelated(m: Store, s: Server, horizon: int, now: int, ttl: int, op: Op)
    requires Related(m, s, horizon) && now < horizon
    requires op.Save? ==>
      FreshNames(m, op.token) && horizon <= now + ttl && horizon <= now + op.token.expiresIn
    ensures Related(Step(m, now * 1000, op).0, RStep(s, now, ttl, op).0, horizon)
    ensures Step(m, now * 1000, op).1 == RStep(s, now, ttl, op).1
  {
    match op
    case Save(_, _, _) => SaveRelated(m, s, horizon, now, ttl, op);
    case Get(_) =>
    case Consume(r) =>
      ConsumeRelated(m, s, horizon, now, r);
      ConsumeKeeps(m, now * 1000, r);
    case _ => TakingRelated(m, s, horizon, now, ttl, op);
  }

  lemma SavedLonger(ops: seq<Timed>, a: string, r: Option<string>)
    requires ops != [] && SavedIn(ops[..|ops| - 1], a, r)
    ensures SavedIn(ops, a, r)
  {
    var before := ops[..|ops| - 1];
    var i :| 0 <= i < |before| && before[i].op.Save? && before[i].op.token.accessToken == a &&
      (r.Some? ==> before[i].op.token.refreshToken == r);
    assert ops[i] == before[i];
  }

  /** Each entry, used or not, keeps the pair it was saved with. */
  ghost predicate OldPairs(m: Store, m': Store) {
    && (forall a :: a in m'.tokens ==> a in m.tokens)
    && (forall r :: r in m'.refresh ==> r in m.refresh && m'.refresh[r].accessToken == m.refresh[r].accessToken)
  }

  lemma StepOldPairs(m: Store, now: int, op: Op)
    requires !op.Save?
    ensures OldPairs(m, Step(m, now, op).0)
  {
    if !Step(m, now, op).1.Rotated? {
      StepNarrows(m, now, op);
    }
  }

  lemma RemoveAllOldPairs(m: Store, batch: set<string>)
    ensures OldPairs(m, RemoveAll(m, batch))
  {
  }

  lemma StepFromRun(ops: seq<Timed>)
    requires ops != [] && FromRun(MemoryRun(ops[..|ops| - 1]), ops[..|ops| - 1])
    ensures FromRun(MemoryRun(ops), ops)
  {
    var before, last := ops[..|ops| - 1], ops[|ops| - 1];
    var m := MemoryRun(before);
    if last.op.Save? {
      var m1 := Inserted(m, last);
      InsertedFromRun(ops, m);
      RemoveAllOldPairs(m1, ExpiredTokens(m1, last.at * 1000));
    } else {
      StepOldPairs(m, last.at * 1000, last.op);
      InsertedFromRun(ops, m);
    }
  }

  /** The store after a save's insertions and before its eviction; after another operation, the store it found. */
  ghost function Inserted(m: Store, t: Timed): Store {
    if t.op.Save? then Insert(m, t.at * 1000, t.op.token, FamilyFor(t.op.into, t.op.uuid)) else m
  }

  lemma InsertedFromRun(ops: seq<Timed>, m: Store)
    requires ops != [] && FromRun(m, ops[..|ops| - 1])
    ensures FromRun(Inserted(m, ops[|ops| - 1]), ops)
  {
    var last := ops[|ops| - 1];
    var m1 := Inserted(m, last);
    if last.op.Save? {
      var token := last.op.token;
      assert SavedIn(ops, token.accessToken, None) && SavedIn(ops, token.accessToken, token.refreshToken);
    }
    forall a | a in m1.tokens ensures SavedIn(ops, a, None) {
      if a in m.tokens {
        SavedLonger(ops, a, None);
      }
    }
    forall r | r in m1.refresh ensures r != "" && SavedIn(ops, m1.refresh[r].accessToken, Some(r)) {
      if r in m.refresh && m1.refresh[r] == m.refresh[r] {
        SavedLonger(ops, m1.refresh[r].accessToken, Some(r));
      }
    }
  }

  lemma {:induction false} RunRelated(ops: seq<Timed>, ttl: int, horizon: int)
    requires FreshRun(ops) && BeforeExpiry(ops, ttl, horizon)
    ensures Related(MemoryRun(ops), RedisRun(ops, ttl), horizon) && FromRun(MemoryRun(ops), ops)
  {
    if ops != [] {
      var before, last := ops[..|ops| - 1], ops[|ops| - 1];
      RunRelated(before, ttl, horizon);
      StepFromRun(ops);
      if last.op.Save? {
        SaveIsFresh(ops);
      }
      StepRelated(MemoryRun(before), RedisRun(before, ttl), horizon, last.at, ttl, last.op);
    }
  }

  lemma SaveIsFresh(ops: seq<Timed>)
    requires FreshRun(ops) && ops != [] && ops[|ops| - 1].op.Save?
    requires FromRun(MemoryRun(ops[..|ops| - 1]), ops[..|ops| - 1])
    ensures FreshNames(MemoryRun(ops[..|ops| - 1]), ops[|ops| - 1].op.token)
  {
    var before, token := ops[..|ops| - 1], ops[|ops| - 1].op.token;
    assert forall i :: 0 <= i < |before| ==> before[i] == ops[i];
    assert !SavedIn(before, token.accessToken, None);
    forall r | r in MemoryRun(before).refresh
      ensures MemoryRun(before).refresh[r].accessToken != token.accessToken
      ensures Truthy(token.refreshToken) ==> r != token.refreshToken.value
    {
      assert SavedIn(before, MemoryRun(before).refresh[r].accessToken, Some(r));
    }
  }

  /** Before the first expiry, the last answer of every run is the same from both stores. */
  lemma SameAnswers(ops: seq<Timed>, ttl: int, horizon: int)
    requires FreshRun(ops) && BeforeExpiry(ops, ttl, horizon) && ops != []
    ensures
      var before, last := ops[..|ops| - 1], ops[|ops| - 1];
      Step(MemoryRun(before), last.at * 1000, last.op).1 == RStep(RedisRun(before, ttl), last.at, ttl, last.op).1
  {
    var before, last := ops[..|ops| - 1], ops[|ops| - 1];
    RunRelated(before, ttl, horizon);
    if last.op.Save? {
      SaveIsFresh(ops);
    }
    StepRelated(MemoryRun(before), RedisRun(before, ttl), horizon, last.at, ttl, last.op);
  }

  // ---------- where they part ----------

  /** In Redis a pair saved at t is answered for strictly less than the store's lifetime, and so is its family. */
  lemma RFoundUntil(s: Server, t: int, ttl: int, token: Token, into: Option<string>, uuid: string, at: int)
    requires t <= at
    ensures
      var s', f := RSave(s, t, ttl, token, into, uuid), if into.Some? && into.value != "" then into.value else uuid;
      && RGet(s', at, token.accessToken) == (if at < t + ttl then Found(token) else Absent)
      && (token.refreshToken.Some? && token.refreshToken.value != "" ==>
        var r := token.refreshToken.value;
        && RConsume(s', at, r).1 == (if at < t + ttl then Rotated(token, f) else Absent)
        && (r in Smembers(s'.families, at, f) <==> at < t + ttl))
  {
  }

  /** Marking a token used changes no lifetime, and a token marked is answered as reuse for what is left of it. */
  lemma MarkingKeepsLifetimes(s: Server, now: int, r: string, at: int)
    requires now <= at
    ensures
      var (s', answer) := RConsume(s, now, r);
      && s'.tokens == s.tokens && s'.families == s.families
      && (forall x :: Live(s'.refresh, at, x) <==> Live(s.refresh, at, x))
      && (answer.Rotated? ==> RConsume(s', at, r).1 == if Live(s.refresh, at, r) then Reused(answer.family) else Absent)
  {
  }

  /** The save of an access token, and the deadlines it gave the pair in both stores. */
  ghost predicate DatedBy(m: Store, s: Server, t: Timed, ttl: int, a: string)
    requires a in m.tokens
  {
    && t.op.Save? && t.op.token.accessToken == a && m.tokens[a].token == t.op.token
    && m.tokens[a].expiresAt == (t.at + t.op.token.expiresIn) * 1000
    && a in s.tokens && s.tokens[a].expireAt == Some(t.at + ttl)
    && forall r :: r in m.refresh && m.refresh[r].accessToken == a ==>
         r in s.refresh && s.refresh[r].expireAt == Some(t.at + ttl)
  }

  ghost predicate Dated(m: Store, s: Server, ops: seq<Timed>, ttl: int) {
    forall a :: a in m.tokens ==> exists i :: 0 <= i < |ops| && DatedBy(m, s, ops[i], ttl, a)
  }

  lemma OthersDated(m: Store, s: Server, m': Store, s': Server, t: Timed, ttl: int, a: string)
    requires a in m.tokens && DatedBy(m, s, t, ttl, a) && a in m'.tokens && m'.tokens[a] == m.tokens[a]
    requires a in s'.tokens && s'.tokens[a] == s.tokens[a]
    requires forall r :: r in m'.refresh && m'.refresh[r].accessToken == a ==>
      && r in m.refresh && m.refresh[r].accessToken == a
      && r in s'.refresh && (r in s.refresh ==> s'.refresh[r].expireAt == s.refresh[r].expireAt)
    ensures DatedBy(m', s', t, ttl, a)
  {
  }

  lemma InsertDated(m: Store, s: Server, t: Timed, ttl: int, a: string)
    requires t.op.Save? && FreshNames(m, t.op.token)
    requires forall r :: r in m.refresh ==> r in s.refresh
    ensures
      var m' := Insert(m, t.at * 1000, t.op.token, FamilyFor(t.op.into, t.op.uuid));
      var s' := RStep(s, t.at, ttl, t.op).0;
      && (a == t.op.token.accessToken ==> DatedBy(m', s', t, ttl, a))
      && (a in m.tokens && a in s.tokens ==>
        && a in m'.tokens && m'.tokens[a] == m.tokens[a] && a in s'.tokens && s'.tokens[a] == s.tokens[a]
        && forall r :: r in m'.refresh && m'.refresh[r].accessToken == a ==>
             && r in m.refresh && m.refresh[r].accessToken == a
             && r in s'.refresh && (r in s.refresh ==> s'.refresh[r].expireAt == s.refresh[r].expireAt))
  {
    hide FamilyFor, Sadd, Redis.Expire;
  }

  lemma SameParts(m: Store, s: Server, horizon: int)
    requires Related(m, s, horizon)
    ensures m.tokens.Keys == s.tokens.Keys && m.refresh.Keys == s.refresh.Keys
  {
  }

  lemma SaveDated(m: Store, s: Server, ops: seq<Timed>, t: Timed, ttl: int, horizon: int)
    requires Dated(m, s, ops, ttl) && Related(m, s, horizon) && t.at < horizon && t.op.Save?
    requires FreshNames(m, t.op.token) && horizon <= t.at + ttl && horizon <= t.at + t.op.token.expiresIn
    ensures Dated(Step(m, t.at * 1000, t.op).0, RStep(s, t.at, ttl, t.op).0, ops + [t], ttl)
  {
    hide Step, RStep, DatedBy, FreshNames, Related, FamilyFor;
    SaveRelated(m, s, horizon, t.at, ttl, t.op);
    SameParts(m, s, horizon);
    var m' := Step(m, t.at * 1000, t.op).0;
    forall a | a in m'.tokens
      ensures exists i :: 0 <= i < |ops + [t]| && DatedBy(m', RStep(s, t.at, ttl, t.op).0, (ops + [t])[i], ttl, a)
    {
      InsertDated(m, s, t, ttl, a);
      if a == t.op.token.accessToken {
        assert (ops + [t])[|ops|] == t;
      } else {
        var i :| 0 <= i < |ops| && DatedBy(m, s, ops[i], ttl, a);
        OthersDated(m, s, m', RStep(s, t.at, ttl, t.op).0, ops[i], ttl, a);
        assert (ops + [t])[i] == ops[i];
      }
    }
  }

  lemma StepTokensSame(m: Store, now: int, op: Op)
    requires !op.Save?
    ensures
      var m' := Step(m, now, op).0;
      && (forall a :: a in m'.tokens ==> a in m.tokens && m'.tokens[a] == m.tokens[a])
      && (forall r :: r in m'.refresh ==> r in m.refresh && m'.refresh[r].accessToken == m.refresh[r].accessToken)
  {
    StepOldPairs(m, now, op);
    if !Step(m, now, op).1.Rotated? {
      StepNarrows(m, now, op);
    }
  }

  lemma NarrowDated(m: Store, s: Server, ops: seq<Timed>, t: Timed, ttl: int, horizon: int)
    requires Dated(m, s, ops, ttl) && Related(m, s, horizon) && t.at < horizon && !t.op.Save?
    ensures Dated(Step(m, t.at * 1000, t.op).0, RStep(s, t.at, ttl, t.op).0, ops + [t], ttl)
  {
    hide Step, RStep, DatedBy, Related;
    StepRelated(m, s, horizon, t.at, ttl, t.op);
    StepTokensSame(m, t.at * 1000, t.op);
    ServerNarrows(s, t.at, ttl, t.op);
    var m', s' := Step(m, t.at * 1000, t.op).0, RStep(s, t.at, ttl, t.op).0;
    SameParts(m', s', horizon);
    forall a | a in m'.tokens ensures exists i :: 0 <= i < |ops + [t]| && DatedBy(m', s', (ops + [t])[i], ttl, a) {
      var i :| 0 <= i < |ops| && DatedBy(m, s, ops[i], ttl, a);
      OthersDated(m, s, m', s', ops[i], ttl, a);
      assert (ops + [t])[i] == ops[i];
    }
  }

  /** In every run each pair's deadlines are those of its save. */
  lemma {:induction false} RunDated(ops: seq<Timed>, ttl: int, horizon: int)
    requires FreshRun(ops) && BeforeExpiry(ops, ttl, horizon)
    ensures Dated(MemoryRun(ops), RedisRun(ops, ttl), ops, ttl)
  {
    hide Step, RStep, Dated, Related, FreshNames;
    if ops == [] {
      NothingDated(ttl);
    } else {
      var before, last := ops[..|ops| - 1], ops[|ops| - 1];
      assert ops == before + [last];
      RunDated(before, ttl, horizon);
      RunRelated(before, ttl, horizon);
      if last.op.Save? {
        SaveIsFresh(ops);
        SaveDated(MemoryRun(before), RedisRun(before, ttl), before, last, ttl, horizon);
      } else {
        NarrowDated(MemoryRun(before), RedisRun(before, ttl), before, last, ttl, horizon);
      }
    }
  }

  lemma NothingDated(ttl: int)
    ensures Dated(MemoryRun([]), RedisRun([], ttl), [], ttl)
  {
  }

  lemma OneSave(ops: seq<Timed>, i: nat, j: nat)
    requires FreshRun(ops) && i < |ops| && j < |ops| && ops[i].op.Save? && ops[j].op.Save?
    requires ops[i].op.token.accessToken == ops[j].op.token.accessToken
    ensures i == j
  {
  }

  /** How the stores answer at any time for an access token, and for a refresh token, after a run before expiry. */
  lemma AnswersLater(m: Store, s: Server, horizon: int, t: Timed, ttl: int, at: int, a: string, r: string)
    requires Related(m, s, horizon) && a in m.tokens && DatedBy(m, s, t, ttl, a)
    ensures
      var until := t.at + t.op.token.expiresIn;
      var lasts := until == 0 || at <= until;
      && GetToken(m, at * 1000, a).1 == (if lasts then Found(t.op.token) else Absent)
      && RGet(s, at, a) == (if at < t.at + ttl then Found(t.op.token) else Absent)
      && (r in m.refresh && m.refresh[r].accessToken == a ==>
        var answer := if m.refresh[r].used then Reused(m.refresh[r].family)
                      else Rotated(t.op.token, m.refresh[r].family);
        && ConsumeRefreshToken(m, at * 1000, r).1 == (if lasts then answer else Absent)
        && RConsume(s, at, r).1 == (if at < t.at + ttl then answer else Absent))
  {
    hide Consistent, NothingExpires;
  }

  lemma UnknownAbsent(m: Store, s: Server, horizon: int, at: int, a: string, r: string)
    requires Related(m, s, horizon)
    ensures a !in m.tokens ==> GetToken(m, at * 1000, a).1 == Absent == RGet(s, at, a)
    ensures r !in m.refresh ==> ConsumeRefreshToken(m, at * 1000, r).1 == Absent == RConsume(s, at, r).1
    ensures r in m.refresh ==> m.refresh[r].accessToken in m.tokens
  {
  }

  /**
   Where they part: after a run like that, and at any time, both stores answer alike for an access token and for
   its refresh token, used or not, exactly when it is not stored, or the store's lifetime and the token's own,
   both counted from its save, are over for both or for neither: Redis answers strictly less than `ttl` seconds,
   memory up to `expiresIn` of them.
   */
  lemma PartAtExpiry(ops: seq<Timed>, ttl: int, horizon: int, at: int, i: nat, r: string)
    requires FreshRun(ops) && BeforeExpiry(ops, ttl, horizon) && i < |ops| && ops[i].op.Save?
    ensures
      var m, s, a := MemoryRun(ops), RedisRun(ops, ttl), ops[i].op.token.accessToken;
      var until := ops[i].at + ops[i].op.token.expiresIn;
      var alike := at < ops[i].at + ttl <==> until == 0 || at <= until;
      && (GetToken(m, at * 1000, a).1 == RGet(s, at, a) <==> a !in m.tokens || alike)
      && (r in m.refresh && m.refresh[r].accessToken == a ==>
        (ConsumeRefreshToken(m, at * 1000, r).1 == RConsume(s, at, r).1 <==> alike))
      && (r !in m.refresh ==> ConsumeRefreshToken(m, at * 1000, r).1 == RConsume(s, at, r).1)
  {
    hide MemoryRun, RedisRun, FreshRun, BeforeExpiry, Related, GetToken, ConsumeRefreshToken, RGet, RConsume, DatedBy;
    var m, s, a := MemoryRun(ops), RedisRun(ops, ttl), ops[i].op.token.accessToken;
    RunRelated(ops, ttl, horizon);
    RunDated(ops, ttl, horizon);
    UnknownAbsent(m, s, horizon, at, a, r);
    if a in m.tokens {
      var j :| 0 <= j < |ops| && DatedBy(m, s, ops[j], ttl, a);
      DatedSave(m, s, ops[j], ttl, a);
      OneSave(ops, i, j);
      AnswersLater(m, s, horizon, ops[i], ttl, at, a, r);
    }
  }

  lemma DatedSave(m: Store, s: Server, t: Timed, ttl: int, a: string)
    requires a in m.tokens && DatedBy(m, s, t, ttl, a)
    ensures t.op.Save? && t.op.token.accessToken == a
  {
  }
}
