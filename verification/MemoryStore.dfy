/**
 The in-memory session store: sessions in an insertion-ordered map, a second ordered map for recency,
 and one expiry timer per session. `timers` holds the pending callbacks of the event loop.
 */
module MemoryStore {
  import opened Js
  import opened Sessions

  datatype Item = Item(data: SessionData, expireAt: int, timer: nat)

  /** A pending callback for a session: at its due time it deletes, or waits again if it is too early. */
  datatype Timer = Timer(session: string, expireAt: int, due: int)

  datatype Store = Store(store: JsMap<string, Item>, lru: seq<string>, timers: map<nat, Timer>, next: nat)

  const EMPTY: Store := Store(JsMap(map[], []), [], map[], 0)

  function View(s: Store): Table {
    map id | id in s.store.m :: s.store.m[id].data
  }

  function ExpireAt(now: int, ttl: Option<int>): int {
    if ttl.Some? && ttl.value != 0 then now + ttl.value else MAX_SAFE_INTEGER
  }

  /** The wait asked of `setTimeout`: never more than it can honour, never negative. */
  function Delay(now: int, expireAt: int): int {
    if expireAt - now > MAX_TIMEOUT_MS then MAX_TIMEOUT_MS else Max(0, expireAt - now)
  }

  function Schedule(s: Store, now: int, id: string, expireAt: int): Store {
    s.(timers := s.timers[s.next := Timer(id, expireAt, now + TimerDelay(Delay(now, expireAt)))], next := s.next + 1)
  }

  /** The session's own timer cancelled. */
  function Cancel(s: Store, id: string): Store {
    if id in s.store.m then s.(timers := s.timers - {s.store.m[id].timer}) else s
  }

  function Touch(s: Store, id: string): Store {
    s.(lru := Without(s.lru, id) + [id])
  }

  function InternalDelete(s: Store, id: string): Store {
    Cancel(s, id).(store := s.store.Delete(id), lru := Without(s.lru, id))
  }

  function EvictIfNeeded(s: Store, maxSize: nat): Store {
    if maxSize == 0 || |s.store.m| <= maxSize then s
    else if s.lru != [] && s.lru[0] != "" then InternalDelete(s, s.lru[0])
    else s
  }

  /** A session's timer, deadline and data replaced, and the session made the most recent. */
  function Assign(s: Store, now: int, id: string, data: SessionData, ttl: Option<int>): Store {
    var expireAt := ExpireAt(now, ttl);
    var s1 := Schedule(Cancel(s, id), now, id, expireAt);
    Touch(s1.(store := s1.store.Set(id, Item(data, expireAt, s.next))), id)
  }

  function SetSession(s: Store, maxSize: nat, now: int, id: string, data: SessionData, ttl: Option<int>): Store {
    EvictIfNeeded(Assign(s, now, id, data, ttl), maxSize)
  }

  function GetSession(s: Store, now: int, id: string): (Store, Option<SessionData>) {
    if id !in s.store.m then (s, None)
    else if now > s.store.m[id].expireAt then (InternalDelete(s, id), None)
    else (Touch(s, id), Some(s.store.m[id].data))
  }

  function Renew(s: Store, now: int, id: string, ttl: Option<int>): Store {
    if id in s.store.m then Assign(s, now, id, s.store.m[id].data, ttl) else s
  }

  function TimersOf(s: Store, ids: set<string>): set<nat> {
    set id | id in ids && id in s.store.m :: s.store.m[id].timer
  }

  /** Every session of `gone` deleted, with its timer and its place in the recency order. */
  function DeleteAll(s: Store, gone: set<string>): Store {
    s.(store := s.store.DeleteKeys(gone), lru := WithoutAll(s.lru, gone),
       timers := s.timers - TimersOf(s, gone))
  }

  function FireTimer(s: Store, now: int, timer: nat): Store {
    if timer in s.timers && s.timers[timer].due <= now then
      var t, s1 := s.timers[timer], s.(timers := s.timers - {timer});
      if now >= t.expireAt then InternalDelete(s1, t.session) else Schedule(s1, now, t.session, t.expireAt)
    else s
  }

  /** The two ordered maps hold the same sessions. */
  ghost predicate SameKeys(s: Store) {
    s.store.Valid() && NoDup(s.lru) && (forall id :: id in s.lru <==> id in s.store.m)
  }

  lemma DeleteNone(s: Store)
    ensures DeleteAll(s, {}) == s
  {
    assert TimersOf(s, {}) == {};
    WithoutNone(s.store.order);
    WithoutNone(s.lru);
  }

  lemma DeleteOneMore(s: Store, gone: set<string>, id: string)
    requires id !in gone
    ensures InternalDelete(DeleteAll(s, gone), id) == DeleteAll(s, gone + {id})
  {
    s.store.DeleteOneMoreKey(gone, id);
    WithoutOneMore(s.lru, gone, id);
    assert TimersOf(s, gone + {id}) == TimersOf(s, gone) + if id in s.store.m then {s.store.m[id].timer} else {};
  }

  /** The user's sessions among the first i in insertion order. */
  ghost function Visited(s: Store, user: string, i: nat): set<string>
    requires i <= |s.store.order|
  {
    set id | id in OfUser(View(s), user) && id in s.store.order[..i]
  }

  lemma VisitNext(s: Store, user: string, i: nat)
    requires SameKeys(s) && i < |s.store.order|
    ensures
      var id := s.store.order[i];
      && id !in Visited(s, user, i) && id in s.store.m
      && Visited(s, user, i + 1) ==
         if s.store.m[id].data.userId == user then Visited(s, user, i) + {id} else Visited(s, user, i)
  {
    assert s.store.order[..i + 1] == s.store.order[..i] + [s.store.order[i]];
  }

  /** One turn of the walk: the session met is still there, and goes if it is the user's. */
  lemma VisitTurn(s: Store, user: string, i: nat)
    requires SameKeys(s) && i < |s.store.order|
    ensures
      var before, id := DeleteAll(s, Visited(s, user, i)), s.store.order[i];
      && id in before.store.m
      && DeleteAll(s, Visited(s, user, i + 1)) ==
         if before.store.m[id].data.userId == user then InternalDelete(before, id) else before
  {
    VisitNext(s, user, i);
    StillThere(s, Visited(s, user, i), s.store.order[i]);
    DeleteOneMore(s, Visited(s, user, i), s.store.order[i]);
  }

  lemma StillThere(s: Store, gone: set<string>, id: string)
    requires id !in gone && id in s.store.m
    ensures id in DeleteAll(s, gone).store.m && DeleteAll(s, gone).store.m[id] == s.store.m[id]
  {
  }

  lemma VisitedAll(s: Store, user: string)
    requires SameKeys(s)
    ensures Visited(s, user, |s.store.order|) == OfUser(View(s), user)
  {
    assert s.store.order[..|s.store.order|] == s.store.order;
  }

  // ---------- the object ----------

  class MemoryStore {
    var store: JsMap<string, Item>
    var lru: seq<string>
    var timers: map<nat, Timer>
    var next: nat
    const maxSize: nat

    function State(): Store
      reads this
    {
      Store(store, lru, timers, next)
    }

    constructor (maxSize: int)
      ensures State() == EMPTY && this.maxSize == Max(maxSize, 0)
    {
      store, lru, timers, next := JsMap(map[], []), [], map[], 0;
      this.maxSize := Max(maxSize, 0);
    }

    method ScheduleExpiry(session: string, expireAt: int, now: int) returns (timer: nat)
      modifies `timers, `next
      ensures State() == Schedule(old(State()), now, session, expireAt) && timer == old(next)
    {
      var remaining := expireAt - now;
      var delay := if remaining > MAX_TIMEOUT_MS then MAX_TIMEOUT_MS else Max(0, remaining);
      timer := next;
      timers := timers[timer := Timer(session, expireAt, now + TimerDelay(delay))];
      next := next + 1;
    }

    method Set(sessionId: string, data: SessionData, ttl: Option<int>, now: int)
      modifies this
      ensures State() == SetSession(old(State()), maxSize, now, sessionId, data, ttl)
    {
      if sessionId in store.m {
        timers := timers - {store.m[sessionId].timer};
      }
      var expireAt := if ttl.Some? && ttl.value != 0 then now + ttl.value else MAX_SAFE_INTEGER;
      var timer := ScheduleExpiry(sessionId, expireAt, now);
      store := store.Set(sessionId, Item(data, expireAt, timer));
      TouchLru(sessionId);
      assert State() == Assign(old(State()), now, sessionId, data, ttl);
      EvictNeeded();
    }

    method Get(sessionId: string, now: int) returns (data: Option<SessionData>)
      modifies this
      ensures (State(), data) == GetSession(old(State()), now, sessionId)
    {
      if sessionId !in store.m {
        return None;
      }
      var item := store.m[sessionId];
      if now > item.expireAt {
        Delete(sessionId);
        return None;
      }
      TouchLru(sessionId);
      return Some(item.data);
    }

    method Delete(sessionId: string)
      modifies this
      ensures State() == InternalDelete(old(State()), sessionId)
    {
      if sessionId in store.m {
        timers := timers - {store.m[sessionId].timer};
      }
      store := store.Delete(sessionId);
      lru := Without(lru, sessionId);
    }

    /** Walks the sessions in insertion order, deleting the user's as it meets them. */
    method DeleteByUserId(userId: string)
      requires SameKeys(State())
      modifies this
      ensures State() == DeleteAll(old(State()), OfUser(View(old(State())), userId))
    {
      ghost var s0 := State();
      var entries := store.order;
      DeleteNone(s0);
      assert Visited(s0, userId, 0) == {};
      for i := 0 to |entries|
        invariant State() == DeleteAll(s0, Visited(s0, userId, i))
      {
        VisitTurn(s0, userId, i);
        if store.m[entries[i]].data.userId == userId {
          Delete(entries[i]);
        }
      }
      VisitedAll(s0, userId);
    }

    method ListByUserId(userId: string) returns (sessions: seq<SessionData>)
      requires SameKeys(State())
      ensures sessions == RecordsOf(View(State()), Keep(store.order, OfUser(View(State()), userId)))
    {
      hide NoDup;
      ghost var selected := OfUser(View(State()), userId);
      sessions := [];
      for i := 0 to |store.order|
        invariant sessions == RecordsOf(View(State()), Keep(store.order[..i], selected))
      {
        var sessionId := store.order[i];
        assert store.order[..i + 1] == store.order[..i] + [sessionId];
        KeepSnoc(store.order[..i], sessionId, selected);
        if store.m[sessionId].data.userId == userId {
          sessions := sessions + [store.m[sessionId].data];
        }
      }
      assert store.order[..|store.order|] == store.order;
    }

    method ListByDevice(device: string) returns (ids: seq<string>)
      requires SameKeys(State())
      ensures ids == Keep(store.order, OnDevice(View(State()), device))
    {
      ghost var selected := OnDevice(View(State()), device);
      ids := [];
      for i := 0 to |store.order|
        invariant ids == Keep(store.order[..i], selected)
      {
        var sessionId := store.order[i];
        assert store.order[..i + 1] == store.order[..i] + [sessionId];
        KeepSnoc(store.order[..i], sessionId, selected);
        if store.m[sessionId].data.device == Some(device) {
          ids := ids + [sessionId];
        }
      }
      assert store.order[..|store.order|] == store.order;
    }

    /** Oldest first; the loop's list is sorted by creation time. */
    method ListByUserIdAndDevice(userId: string, device: string) returns (ids: seq<string>)
      requires SameKeys(State())
      ensures OldestFirst(View(State()), OfUserOnDevice(View(State()), userId, device), ids)
      ensures ids == ByCreateTime(View(State()), Keep(store.order, OfUserOnDevice(View(State()), userId, device)))
    {
      ghost var selected := OfUserOnDevice(View(State()), userId, device);
      ids := [];
      for i := 0 to |store.order|
        invariant ids == Keep(store.order[..i], selected)
      {
        var sessionId := store.order[i];
        assert store.order[..i + 1] == store.order[..i] + [sessionId];
        KeepSnoc(store.order[..i], sessionId, selected);
        var data := store.m[sessionId].data;
        if data.userId == userId && data.device == Some(device) {
          ids := ids + [sessionId];
        }
      }
      assert store.order[..|store.order|] == store.order;
      KeepNoDup(store.order, selected);
      SortedListing(View(State()), ids, selected);
      ids := ByCreateTime(View(State()), ids);
    }

    method RenewSession(sessionId: string, ttl: Option<int>, now: int)
      modifies this
      ensures State() == Renew(old(State()), now, sessionId, ttl)
    {
      if sessionId !in store.m {
        return;
      }
      var item := store.m[sessionId];
      timers := timers - {item.timer};
      var expireAt := if ttl.Some? && ttl.value != 0 then now + ttl.value else MAX_SAFE_INTEGER;
      var timer := ScheduleExpiry(sessionId, expireAt, now);
      store := store.Set(sessionId, item.(expireAt := expireAt, timer := timer));
      TouchLru(sessionId);
    }

    method Clear()
      requires SameKeys(State())
      modifies this
      ensures store == JsMap(map[], []) && lru == []
      ensures forall t :: t in timers <==> t in old(timers) && forall id :: id in old(store.m) ==> old(store.m)[id].timer != t
    {
      ghost var s0 := State();
      for i := 0 to |store.order|
        invariant store == s0.store && lru == s0.lru
        invariant forall t :: t in timers <==>
          t in s0.timers && forall k :: 0 <= k < i ==> store.m[store.order[k]].timer != t
      {
        timers := timers - {store.m[store.order[i]].timer};
      }
      store, lru := JsMap(map[], []), [];
    }

    method TouchLru(sessionId: string)
      modifies `lru
      ensures State() == Touch(old(State()), sessionId)
    {
      lru := Without(lru, sessionId);
      lru := lru + [sessionId];
    }

    method EvictNeeded()
      modifies this
      ensures State() == EvictIfNeeded(old(State()), maxSize)
    {
      if maxSize <= 0 || |store.m| <= maxSize {
        return;
      }
      if lru != [] && lru[0] != "" {
        Delete(lru[0]);
      }
    }

    /** The event loop runs a pending timer that is due. */
    method RunTimer(timer: nat, now: int)
      requires timer in timers && timers[timer].due <= now
      modifies this
      ensures State() == FireTimer(old(State()), now, timer)
    {
      var t := timers[timer];
      timers := timers - {timer};
      if now >= t.expireAt {
        Delete(t.session);
      } else {
        var chained := ScheduleExpiry(t.session, t.expireAt, now);
      }
    }
  }
}
