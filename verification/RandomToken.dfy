/** Rotation of random tokens over the in-memory store, where the token is the session's id. */
module RandomToken {
  import opened Js
  import opened Sessions
  import opened MemoryStore
  import Runs = MemoryStoreRuns

  /** Read, stored again under the new token without a lifetime, and deleted under the old. */
  function Rotated(s: Store, maxSize: nat, now: int, token: string, newId: string): (Store, Option<string>) {
    var (s1, session) := GetSession(s, now, token);
    match session
    case None => (s1, None)
    case Some(data) => (InternalDelete(SetSession(s1, maxSize, now, newId, data, None), token), Some(newId))
  }

  class RandomTokenStrategy {
    const store: MemoryStore

    constructor (store: MemoryStore)
      ensures this.store == store
    {
      this.store := store;
    }

    method Rotate(token: string, newId: string, now: int) returns (newToken: Option<string>)
      modifies store
      ensures (store.State(), newToken) == Rotated(old(store.State()), store.maxSize, now, token, newId)
    {
      var session := store.Get(token, now);
      if session.None? {
        return None;
      }
      store.Set(newId, session.value, None, now);
      store.Delete(token);
      return Some(newId);
    }
  }

  /** A session that can be read, a name not in use, and a store within its capacity. */
  ghost predicate Rotatable(s: Store, maxSize: nat, now: int, token: string, newId: string) {
    && SameKeys(s) && token in s.store.m && now <= s.store.m[token].expireAt
    && newId !in s.store.m && "" !in s.store.m && newId != "" && (maxSize > 0 ==> |s.store.m| <= maxSize)
  }

  /** Before the eviction: the session under both names, the old one next to last in recency. */
  lemma BeforeEviction(s: Store, maxSize: nat, now: int, token: string, newId: string)
    requires Rotatable(s, maxSize, now, token, newId)
    ensures
      var data := s.store.m[token].data;
      var s1 := Assign(GetSession(s, now, token).0, now, newId, data, None);
      && s1.lru == Without(s.lru, token) + [token] + [newId]
      && s1.store.m.Keys == s.store.m.Keys + {newId} && |s1.store.m| == |s.store.m| + 1
      && s1.store.m[newId].data == data && s1.store.m[newId].expireAt == MAX_SAFE_INTEGER
      && (forall id :: id in s.store.m ==> s1.store.m[id] == s.store.m[id])
  {
    var s0 := GetSession(s, now, token).0;
    assert newId !in s0.lru;
    Runs.AssignAppends(s0, now, newId, s.store.m[token].data, None);
  }

  /** What the eviction takes: nothing below capacity, the old token if it is alone, another session otherwise. */
  lemma Evicted(s: Store, maxSize: nat, now: int, token: string, newId: string) returns (gone: set<string>)
    requires Rotatable(s, maxSize, now, token, newId)
    ensures
      var data := s.store.m[token].data;
      var s1 := Assign(GetSession(s, now, token).0, now, newId, data, None);
      EvictIfNeeded(s1, maxSize).store.m == s1.store.m - gone
    ensures
      if maxSize == 0 || |s.store.m| < maxSize then gone == {}
      else if |s.store.m| == 1 then gone == {token}
      else exists id :: gone == {id} && id in s.store.m && id != token
  {
    var s1 := Assign(GetSession(s, now, token).0, now, newId, s.store.m[token].data, None);
    BeforeEviction(s, maxSize, now, token, newId);
    NoDupSize(s.lru, s.store.m.Keys);
    assert |s.store.m.Keys| == |s.store.m|;
    gone := {};
    if maxSize != 0 && |s.store.m| == maxSize {
      var rest := Without(s.lru, token);
      HeadOfRest(s.lru, token);
      gone := {s1.lru[0]};
    }
  }

  lemma HeadOfRest(lru: seq<string>, token: string)
    requires NoDup(lru) && token in lru
    ensures
      var all := Without(lru, token) + [token];
      if |lru| == 1 then all[0] == token else all[0] != token && all[0] in lru
  {
    var rest := Without(lru, token);
    if |lru| == 1 {
      assert lru == [token];
      WithoutOnly(token);
    } else {
      var other := if lru[0] == token then lru[1] else lru[0];
      assert other in rest && rest[0] in rest;
    }
  }

  /**
   The session goes on under the new token and no longer under the old, and from then on never expires: its
   deadline stays what it was exactly when it had none.
   */
  lemma RotationMoves(s: Store, maxSize: nat, now: int, token: string, newId: string)
    requires Rotatable(s, maxSize, now, token, newId)
    ensures
      var (s', newToken) := Rotated(s, maxSize, now, token, newId);
      && newToken == Some(newId) && token !in s'.store.m
      && newId in s'.store.m && s'.store.m[newId].data == s.store.m[token].data
      && s'.store.m[newId].expireAt == MAX_SAFE_INTEGER
      && (s'.store.m[newId].expireAt == s.store.m[token].expireAt <==> s.store.m[token].expireAt == MAX_SAFE_INTEGER)
  {
    hide SameKeys, Assign, EvictIfNeeded;
    BeforeEviction(s, maxSize, now, token, newId);
    var gone := Evicted(s, maxSize, now, token, newId);
  }

  /** Rotating one session ends another exactly when the store is at its capacity and that is more than one. */
  lemma RotationKeepsOthersIff(s: Store, maxSize: nat, now: int, token: string, newId: string)
    requires Rotatable(s, maxSize, now, token, newId)
    ensures
      var s' := Rotated(s, maxSize, now, token, newId).0;
      (forall id :: id in s.store.m && id != token ==> id in s'.store.m && s'.store.m[id] == s.store.m[id])
      <==> maxSize == 0 || |s.store.m| < maxSize || maxSize == 1
  {
    hide SameKeys, Assign, EvictIfNeeded;
    BeforeEviction(s, maxSize, now, token, newId);
    var gone := Evicted(s, maxSize, now, token, newId);
  }

  // ---------- the three calls one by one ----------

  /** A set never evicts its own session. */
  lemma SetStays(s: Store, maxSize: nat, now: int, id: string, data: SessionData)
    requires SameKeys(s)
    ensures
      var m := SetSession(s, maxSize, now, id, data, None).store.m;
      id in m && m[id].data == data && m[id].expireAt == MAX_SAFE_INTEGER
  {
    var s1 := Assign(s, now, id, data, None);
    Runs.AssignKeeps(s, now, id, data, None);
    NoDupSize(s1.lru, s1.store.m.Keys);
    assert |s1.store.m| == |s1.store.m.Keys|;
    assert s1.lru[|s1.lru| - 1] == id;
  }

  /**
   A rotation with anything between its calls: once it has read a session, its store puts that session under the
   new token for good, whatever became of the old one meanwhile, a logout included; its deletion then takes the
   old token and nothing else.
   */
  lemma RotationInSteps(maxSize: nat, before: seq<Runs.Event>, between: seq<Runs.Event>, later: seq<Runs.Event>,
                        token: string, newId: string)
    requires
      var s := Runs.Run(maxSize, before);
      GetSession(s.st, s.now, token).1.Some?
    ensures
      var s := Runs.Run(maxSize, before);
      var data := GetSession(s.st, s.now, token).1.value;
      var stored := before + [Runs.Get(token)] + between + [Runs.Set(newId, data, None)];
      var m, m1 := Runs.Run(maxSize, stored).st.store.m, Runs.Run(maxSize, stored + later).st.store.m;
      && newId in m && m[newId].data == data && m[newId].expireAt == MAX_SAFE_INTEGER
      && Runs.Run(maxSize, stored + later + [Runs.Delete(token)]).st.store.m == m1 - {token}
  {
    hide SameKeys, Runs.Apply, Runs.Run, SetSession, GetSession, InternalDelete;
    var s := Runs.Run(maxSize, before);
    var data := GetSession(s.st, s.now, token).1.value;
    var set' := Runs.Set(newId, data, None);
    var upto := before + [Runs.Get(token)] + between;
    Runs.KeysAgree(maxSize, upto);
    Runs.RunSnoc(maxSize, upto, set');
    AppliedSet(maxSize, Runs.Run(maxSize, upto), newId, data);
    SetStays(Runs.Run(maxSize, upto).st, maxSize, Runs.Run(maxSize, upto).now, newId, data);
    Runs.RunSnoc(maxSize, upto + [set'] + later, Runs.Delete(token));
    AppliedDelete(maxSize, Runs.Run(maxSize, upto + [set'] + later), token);
  }

  lemma AppliedSet(maxSize: nat, s: Runs.Sys, id: string, data: SessionData)
    ensures Runs.Apply(maxSize, s, Runs.Set(id, data, None)).st == SetSession(s.st, maxSize, s.now, id, data, None)
  {
  }

  lemma AppliedDelete(maxSize: nat, s: Runs.Sys, id: string)
    ensures Runs.Apply(maxSize, s, Runs.Delete(id)).st.store.m == s.st.store.m - {id}
  {
  }
}
