/**
 The in-memory session store over whole runs: any order of sets, reads, deletions, renewals and timer
 firings, with the clock moving in between. A timer may fire at any moment from its due time on.
 */
module MemoryStoreRuns {
  import opened Js
  import opened Sessions
  import opened MemoryStore

  datatype Sys = Sys(now: int, st: Store)

  datatype Event =
    | Set(id: string, data: SessionData, ttl: Option<int>)
    | Get(id: string)
    | Delete(id: string)
    | DeleteUser(user: string)
    | RenewIt(id: string, ttl: Option<int>)
    | Fire(timer: nat)
    | Tick(d: nat)

  ghost function Apply(maxSize: nat, s: Sys, e: Event): Sys {
    match e
    case Set(id, data, ttl) => s.(st := SetSession(s.st, maxSize, s.now, id, data, ttl))
    case Get(id) => s.(st := GetSession(s.st, s.now, id).0)
    case Delete(id) => s.(st := InternalDelete(s.st, id))
    case DeleteUser(user) => s.(st := DeleteAll(s.st, OfUser(View(s.st), user)))
    case RenewIt(id, ttl) => s.(st := Renew(s.st, s.now, id, ttl))
    case Fire(timer) => s.(st := FireTimer(s.st, s.now, timer))
    case Tick(d) => if s.now + d <= MAX_DATE then s.(now := s.now + d) else s
  }

  ghost function Run(maxSize: nat, events: seq<Event>): Sys {
    if events == [] then Sys(0, EMPTY)
    else Apply(maxSize, Run(maxSize, events[..|events| - 1]), events[|events| - 1])
  }

  lemma RunSnoc(maxSize: nat, events: seq<Event>, e: Event)
    ensures Run(maxSize, events + [e]) == Apply(maxSize, Run(maxSize, events), e)
  {
    assert (events + [e])[..|events|] == events;
  }

  // ---------- the two ordered maps, and the capacity ----------

  lemma TouchKeeps(s: Store, id: string)
    requires SameKeys(s) && id in s.store.m
    ensures SameKeys(Touch(s, id))
  {
    KeepNoDup(s.lru, (set x | x in s.lru) - {id});
  }

  lemma DeleteKeeps(s: Store, id: string)
    requires SameKeys(s)
    ensures SameKeys(InternalDelete(s, id))
  {
    s.store.DeleteValid(id);
    KeepNoDup(s.lru, (set x | x in s.lru) - {id});
  }

  lemma AssignKeeps(s: Store, now: int, id: string, data: SessionData, ttl: Option<int>)
    requires SameKeys(s)
    ensures SameKeys(Assign(s, now, id, data, ttl))
  {
    KeepNoDup(s.lru, (set x | x in s.lru) - {id});
  }

  lemma DeleteAllKeeps(s: Store, gone: set<string>)
    requires SameKeys(s)
    ensures SameKeys(DeleteAll(s, gone))
  {
    s.store.DeleteKeysValid(gone);
    KeepNoDup(s.lru, (set x | x in s.lru) - gone);
  }

  lemma StepKeepsKeys(maxSize: nat, s: Sys, e: Event)
    requires SameKeys(s.st)
    ensures SameKeys(Apply(maxSize, s, e).st)
  {
    match e
    case Set(id, data, ttl) =>
      var s1 := Assign(s.st, s.now, id, data, ttl);
      AssignKeeps(s.st, s.now, id, data, ttl);
      if s1.lru != [] {
        DeleteKeeps(s1, s1.lru[0]);
      }
    case Get(id) =>
      DeleteKeeps(s.st, id);
      if id in s.st.store.m {
        TouchKeeps(s.st, id);
      }
    case Delete(id) => DeleteKeeps(s.st, id);
    case DeleteUser(user) => DeleteAllKeeps(s.st, OfUser(View(s.st), user));
    case RenewIt(id, ttl) =>
      if id in s.st.store.m {
        AssignKeeps(s.st, s.now, id, s.st.store.m[id].data, ttl);
      }
    case Fire(timer) =>
      if timer in s.st.timers {
        DeleteKeeps(s.st.(timers := s.st.timers - {timer}), s.st.timers[timer].session);
      }
    case Tick(_) =>
  }

  /** In every run the session map and the recency order hold the same sessions. */
  lemma {:induction false} KeysAgree(maxSize: nat, events: seq<Event>)
    ensures SameKeys(Run(maxSize, events).st)
  {
    if events != [] {
      KeysAgree(maxSize, events[..|events| - 1]);
      StepKeepsKeys(maxSize, Run(maxSize, events[..|events| - 1]), events[|events| - 1]);
    }
  }

  /** No session with the empty id is ever set. */
  ghost predicate NoEmptyId(events: seq<Event>) {
    forall i :: 0 <= i < |events| && events[i].Set? ==> events[i].id != ""
  }

  lemma DeleteSize(s: Store, id: string)
    requires id in s.store.m
    ensures |InternalDelete(s, id).store.m| == |s.store.m| - 1
  {
    assert InternalDelete(s, id).store.m.Keys == s.store.m.Keys - {id};
  }

  lemma AssignSize(s: Store, now: int, id: string, data: SessionData, ttl: Option<int>)
    ensures |Assign(s, now, id, data, ttl).store.m| <= |s.store.m| + 1
    ensures |Assign(s, now, id, data, ttl).store.m| > 0
  {
    var m := Assign(s, now, id, data, ttl).store.m;
    assert m.Keys == s.store.m.Keys + {id};
    assert id in m.Keys;
  }

  /** A set leaves the store within its capacity unless the empty id is the least recent. */
  lemma SetSize(maxSize: nat, s: Store, now: int, id: string, data: SessionData, ttl: Option<int>)
    requires SameKeys(s) && maxSize > 0 && |s.store.m| <= maxSize
    ensures
      var s1 := Assign(s, now, id, data, ttl);
      && s1.lru != []
      && (|SetSession(s, maxSize, now, id, data, ttl).store.m| <= maxSize <==> |s1.store.m| <= maxSize || s1.lru[0] != "")
  {
    var s1 := Assign(s, now, id, data, ttl);
    AssignKeeps(s, now, id, data, ttl);
    AssignSize(s, now, id, data, ttl);
    assert s1.lru[0] in s1.store.m;
    DeleteSize(s1, s1.lru[0]);
  }

  lemma SetNoEmpty(maxSize: nat, s: Store, now: int, id: string, data: SessionData, ttl: Option<int>)
    requires SameKeys(s) && "" !in s.store.m && id != ""
    ensures var s1 := Assign(s, now, id, data, ttl);
      s1.lru != [] && s1.lru[0] != "" && "" !in SetSession(s, maxSize, now, id, data, ttl).store.m
  {
    AssignKeeps(s, now, id, data, ttl);
    var s1 := Assign(s, now, id, data, ttl);
    assert s1.lru[0] in s1.store.m;
  }

  lemma SubmapSize<V>(small: map<string, V>, big: map<string, V>)
    requires small.Keys <= big.Keys
    ensures |small| <= |big|
  {
    assert big.Keys == small.Keys + (big.Keys - small.Keys);
    assert |small| == |small.Keys| && |big| == |big.Keys|;
  }

  lemma OthersOnlyShrink(maxSize: nat, s: Sys, e: Event)
    requires !e.Set?
    ensures Apply(maxSize, s, e).st.store.m.Keys <= s.st.store.m.Keys
  {
  }

  lemma StepSize(maxSize: nat, s: Sys, e: Event)
    requires SameKeys(s.st) && maxSize > 0 && |s.st.store.m| <= maxSize && "" !in s.st.store.m
    requires e.Set? ==> e.id != ""
    ensures |Apply(maxSize, s, e).st.store.m| <= maxSize && "" !in Apply(maxSize, s, e).st.store.m
  {
    if e.Set? {
      SetSize(maxSize, s.st, s.now, e.id, e.data, e.ttl);
      SetNoEmpty(maxSize, s.st, s.now, e.id, e.data, e.ttl);
    } else {
      OthersOnlyShrink(maxSize, s, e);
      SubmapSize(Apply(maxSize, s, e).st.store.m, s.st.store.m);
    }
  }

  lemma {:induction false} SizeBounded(maxSize: nat, events: seq<Event>)
    requires maxSize > 0 && NoEmptyId(events)
    ensures |Run(maxSize, events).st.store.m| <= maxSize && "" !in Run(maxSize, events).st.store.m
  {
    if events != [] {
      SizeBounded(maxSize, events[..|events| - 1]);
      KeysAgree(maxSize, events[..|events| - 1]);
      StepSize(maxSize, Run(maxSize, events[..|events| - 1]), events[|events| - 1]);
    }
  }

  ghost predicate Filled(s: Store, n: nat) {
    |s.store.m| == n + 1 && s.lru != [] && s.lru[0] == "" && (forall id :: id in s.store.m ==> |id| <= n)
  }

  /** The empty id set first, then n others, and nothing evicted. */
  lemma {:induction false} Filling(maxSize: nat, data: SessionData, n: nat) returns (events: seq<Event>)
    requires 0 < maxSize && n <= maxSize
    ensures Filled(Run(maxSize, events).st, n)
  {
    if n == 0 {
      FirstSet(maxSize, Run(maxSize, []), data);
      RunSnoc(maxSize, [], Set("", data, None));
      events := [] + [Set("", data, None)];
    } else {
      events := Filling(maxSize, data, n - 1);
      FillOneMore(maxSize, data, events, n);
      events := events + [Set(Name(n - 1), data, None)];
    }
  }

  lemma FillOneMore(maxSize: nat, data: SessionData, before: seq<Event>, n: nat)
    requires 0 < n <= maxSize && Filled(Run(maxSize, before).st, n - 1)
    ensures Filled(Run(maxSize, before + [Set(Name(n - 1), data, None)]).st, n)
  {
    KeysAgree(maxSize, before);
    NextSet(maxSize, Run(maxSize, before), data, n);
    RunSnoc(maxSize, before, Set(Name(n - 1), data, None));
  }

  lemma FirstSet(maxSize: nat, s: Sys, data: SessionData)
    requires maxSize > 0 && s.st == EMPTY
    ensures Filled(Apply(maxSize, s, Set("", data, None)).st, 0)
  {
    var s1 := Assign(s.st, s.now, "", data, None);
    assert s1.store.m.Keys == {""};
    assert |s1.store.m| == |s1.store.m.Keys|;
    assert Without([], "") == [];
  }

  lemma NextSet(maxSize: nat, s: Sys, data: SessionData, n: nat)
    requires 0 < n <= maxSize && SameKeys(s.st) && Filled(s.st, n - 1)
    ensures Filled(Apply(maxSize, s, Set(Name(n - 1), data, None)).st, n)
  {
    var id := Name(n - 1);
    assert |id| == n;
    AssignAppends(s.st, s.now, id, data, None);
  }

  /** Once the empty id is stored the capacity can be exceeded: eviction takes it for "nothing to evict". */
  lemma EmptyIdOverfills(maxSize: nat) returns (events: seq<Event>)
    requires maxSize > 0
    ensures |Run(maxSize, events).st.store.m| > maxSize
  {
    events := Filling(maxSize, SessionData("u", None, 0), maxSize);
  }

  // ---------- recency ----------

  ghost predicate Touches(e: Event, id: string) {
    (e.Set? || e.Get? || e.RenewIt?) && e.id == id
  }

  /** The last event that set, read or renewed the session; -1 if none did. */
  ghost function LastTouch(events: seq<Event>, id: string): int {
    if events == [] then -1
    else if Touches(events[|events| - 1], id) then |events| - 1
    else LastTouch(events[..|events| - 1], id)
  }

  ghost predicate ByRecency(events: seq<Event>, ids: seq<string>) {
    forall i, j :: 0 <= i < j < |ids| ==> LastTouch(events, ids[i]) < LastTouch(events, ids[j])
  }

  lemma KeepByRecency(events: seq<Event>, ids: seq<string>, keep: set<string>)
    requires ByRecency(events, ids)
    ensures ByRecency(events, Keep(ids, keep))
  {
    var r := Keep(ids, keep);
    forall i, j | 0 <= i < j < |r| ensures LastTouch(events, r[i]) < LastTouch(events, r[j]) {
      assert Before(r, r[i], r[j]);
      KeepBefore(ids, keep, r[i], r[j]);
    }
  }

  lemma UntouchedByRecency(events: seq<Event>, e: Event, ids: seq<string>)
    requires ByRecency(events, ids) && (forall x :: x in ids ==> !Touches(e, x))
    ensures ByRecency(events + [e], ids)
  {
    assert (events + [e])[..|events|] == events;
  }

  lemma {:induction false} LastTouchBound(events: seq<Event>, id: string)
    ensures -1 <= LastTouch(events, id) < |events|
  {
    if events != [] {
      LastTouchBound(events[..|events| - 1], id);
    }
  }

  lemma TouchedByRecency(events: seq<Event>, e: Event, ids: seq<string>, id: string)
    requires ByRecency(events, ids) && Touches(e, id)
    ensures ByRecency(events + [e], Without(ids, id) + [id])
  {
    var rest := Without(ids, id);
    KeepByRecency(events, ids, (set x | x in ids) - {id});
    UntouchedByRecency(events, e, rest);
    assert LastTouch(events + [e], id) == |events|;
    assert (events + [e])[..|events|] == events;
    forall x | x in rest ensures LastTouch(events + [e], x) < |events| {
      LastTouchBound(events, x);
    }
  }

  lemma StepByRecency(maxSize: nat, events: seq<Event>, e: Event)
    requires ByRecency(events, Run(maxSize, events).st.lru) && SameKeys(Run(maxSize, events).st)
    ensures ByRecency(events + [e], Apply(maxSize, Run(maxSize, events), e).st.lru)
  {
    var s := Run(maxSize, events);
    var lru := s.st.lru;
    if e.Set? || (e.RenewIt? && e.id in s.st.store.m)
       || (e.Get? && e.id in s.st.store.m && s.now <= s.st.store.m[e.id].expireAt) {
      TouchedByRecency(events, e, lru, e.id);
      var lru1 := Without(lru, e.id) + [e.id];
      KeepByRecency(events + [e], lru1, (set x | x in lru1) - {lru1[0]});
    } else {
      var lru' := Apply(maxSize, s, e).st.lru;
      OthersKeep(maxSize, s, e);
      var keep := set x | x in lru';
      KeepByRecency(events, lru, keep);
      UntouchedByRecency(events, e, lru');
    }
  }

  /** Events that touch no stored session only take sessions out of the recency order. */
  lemma OthersKeep(maxSize: nat, s: Sys, e: Event)
    requires SameKeys(s.st) && !e.Set? && !(e.RenewIt? && e.id in s.st.store.m)
    requires !(e.Get? && e.id in s.st.store.m && s.now <= s.st.store.m[e.id].expireAt)
    ensures
      var lru' := Apply(maxSize, s, e).st.lru;
      lru' == Keep(s.st.lru, set x | x in lru') && (forall x :: x in lru' ==> !Touches(e, x))
  {
    var lru, lru' := s.st.lru, Apply(maxSize, s, e).st.lru;
    var all := set x | x in lru;
    if lru' == lru {
      KeepAll(lru, all);
    } else {
      var gone := match e
                  case Get(id) => {id}
                  case Delete(id) => {id}
                  case DeleteUser(user) => OfUser(View(s.st), user)
                  case Fire(timer) => {s.st.timers[timer].session}
                  case _ => {};
      assert lru' == WithoutAll(lru, gone);
      KeepAgree(lru, all - gone, set x | x in lru');
    }
  }

  lemma NothingByRecency(maxSize: nat)
    ensures ByRecency([], Run(maxSize, []).st.lru)
  {
  }

  /**
   In every run the recency order is the order of last touches: of two stored sessions, the one set, read
   or renewed less recently stands first.
   */
  lemma {:induction false} RecencyOrder(maxSize: nat, events: seq<Event>)
    ensures ByRecency(events, Run(maxSize, events).st.lru)
  {
    hide *;
    if events == [] {
      NothingByRecency(maxSize);
    } else {
      var before, e := events[..|events| - 1], events[|events| - 1];
      RecencyOrder(maxSize, before);
      KeysAgree(maxSize, before);
      StepByRecency(maxSize, before, e);
      assert before + [e] == events;
      RunSnoc(maxSize, before, e);
    }
  }

  /**
   A set that finds the store full of other sessions evicts one: the stored session touched least
   recently, never the one being set. A set that does not, evicts none.
   */
  lemma EvictsLeastRecent(maxSize: nat, events: seq<Event>, e: Event) returns (victim: string)
    requires maxSize > 0 && e.Set? && NoEmptyId(events + [e])
    ensures
      var before, after := Run(maxSize, events).st.store.m, Apply(maxSize, Run(maxSize, events), e).st.store.m;
      if e.id in before || |before| < maxSize then after.Keys == before.Keys + {e.id}
      else
        && victim in before && victim != e.id
        && after.Keys == before.Keys - {victim} + {e.id}
        && (forall y :: y in before && y != victim ==> LastTouch(events, victim) < LastTouch(events, y))
  {
    hide Apply, Run, ByRecency, LastTouch;
    var s := Run(maxSize, events);
    forall i | 0 <= i < |events| && events[i].Set? ensures events[i].id != "" {
      assert events[i] == (events + [e])[i];
    }
    assert (events + [e])[|events|] == e;
    KeysAgree(maxSize, events);
    SizeBounded(maxSize, events);
    RecencyOrder(maxSize, events);
    victim := "";
    var before := s.st.store.m;
    if e.id in before || |before| < maxSize {
      NoEviction(maxSize, s, e);
    } else {
      victim := EvictionVictim(maxSize, s, e);
      OldestFirstInLru(events, s.st.lru, victim);
    }
  }

  lemma AssignKeys(s: Store, now: int, id: string, data: SessionData, ttl: Option<int>)
    ensures Assign(s, now, id, data, ttl).store.m.Keys == s.store.m.Keys + {id}
  {
  }

  lemma NoEviction(maxSize: nat, s: Sys, e: Event)
    requires e.Set? && |s.st.store.m| <= maxSize && (e.id in s.st.store.m || |s.st.store.m| < maxSize)
    ensures Apply(maxSize, s, e).st.store.m.Keys == s.st.store.m.Keys + {e.id}
  {
    hide Assign;
    var before, m := s.st.store.m, Assign(s.st, s.now, e.id, e.data, e.ttl).store.m;
    AssignKeys(s.st, s.now, e.id, e.data, e.ttl);
    assert |m| == |m.Keys| && |before| == |before.Keys|;
    if e.id in before {
      assert m.Keys == before.Keys;
    }
  }

  lemma EvictionVictim(maxSize: nat, s: Sys, e: Event) returns (victim: string)
    requires SameKeys(s.st) && e.Set? && e.id !in s.st.store.m && |s.st.store.m| == maxSize > 0 && "" !in s.st.store.m
    ensures s.st.lru != [] && victim == s.st.lru[0] && victim in s.st.store.m && victim != e.id
    ensures Apply(maxSize, s, e).st.store.m.Keys == s.st.store.m.Keys - {victim} + {e.id}
  {
    var lru := s.st.lru;
    NoDupSize(lru, s.st.store.m.Keys);
    victim := lru[0];
    assert victim in lru;
    AssignAppends(s.st, s.now, e.id, e.data, e.ttl);
    var s1 := Assign(s.st, s.now, e.id, e.data, e.ttl);
    assert InternalDelete(s1, victim).store.m.Keys == s1.store.m.Keys - {victim};
  }

  lemma AssignAppends(s: Store, now: int, id: string, data: SessionData, ttl: Option<int>)
    requires id !in s.store.m && id !in s.lru
    ensures var s1 := Assign(s, now, id, data, ttl);
      && s1.lru == s.lru + [id] && s1.store.m.Keys == s.store.m.Keys + {id}
      && |s1.store.m| == |s.store.m| + 1
  {
    KeepAll(s.lru, (set x | x in s.lru) - {id});
    var m := Assign(s, now, id, data, ttl).store.m;
    assert m.Keys == s.store.m.Keys + {id} && |m| == |m.Keys|;
  }

  lemma OldestFirstInLru(events: seq<Event>, lru: seq<string>, victim: string)
    requires ByRecency(events, lru) && lru != [] && victim == lru[0]
    ensures forall y :: y in lru && y != victim ==> LastTouch(events, victim) < LastTouch(events, y)
  {
  }

  // ---------- exactly when the capacity is exceeded ----------

  /** A set of a new session finds the store full and the empty id the one touched least recently. */
  ghost predicate Overfills(maxSize: nat, events: seq<Event>, e: Event) {
    var before := Run(maxSize, events).st.store.m;
    && e.Set? && e.id !in before && |before| >= maxSize && "" in before
    && (forall y :: y in before && y != "" ==> LastTouch(events, "") < LastTouch(events, y))
  }

  lemma HeadIsOldest(events: seq<Event>, lru: seq<string>, id: string)
    requires ByRecency(events, lru) && lru != []
    ensures lru[0] == id
            <==> id in lru && (forall y :: y in lru && y != id ==> LastTouch(events, id) < LastTouch(events, y))
  {
    if lru[0] == id {
      OldestFirstInLru(events, lru, id);
    } else if id in lru {
      assert lru[0] in lru;
      OldestFirstInLru(events, lru, lru[0]);
    }
  }

  lemma NewIsLast(s: Store, now: int, id: string, data: SessionData, ttl: Option<int>)
    requires SameKeys(s) && id !in s.store.m
    ensures
      var s1 := Assign(s, now, id, data, ttl);
      s1.lru == s.lru + [id] && |s1.store.m| == |s.store.m| + 1 && (|s.store.m| > 0 ==> s.lru != [])
  {
    AssignAppends(s, now, id, data, ttl);
    NoDupSize(s.lru, s.store.m.Keys);
    assert |s.store.m| == |s.store.m.Keys|;
  }

  /** A step from within the capacity leaves it exactly when it is such a set. */
  lemma OverfillsIff(maxSize: nat, events: seq<Event>, e: Event)
    requires maxSize > 0 && |Run(maxSize, events).st.store.m| <= maxSize
    ensures |Run(maxSize, events + [e]).st.store.m| > maxSize <==> Overfills(maxSize, events, e)
  {
    hide Run, Apply, Assign, SetSession, ByRecency, LastTouch;
    var s := Run(maxSize, events);
    RunSnoc(maxSize, events, e);
    KeysAgree(maxSize, events);
    if !e.Set? {
      OthersOnlyShrink(maxSize, s, e);
      SubmapSize(Apply(maxSize, s, e).st.store.m, s.st.store.m);
    } else if e.id in s.st.store.m || |s.st.store.m| < maxSize {
      NoEviction(maxSize, s, e);
      SizesWithin(Apply(maxSize, s, e).st.store.m, s.st.store.m, e.id, maxSize);
    } else {
      RecencyOrder(maxSize, events);
      SetSize(maxSize, s.st, s.now, e.id, e.data, e.ttl);
      SetApplied(maxSize, s, e);
      NewIsLast(s.st, s.now, e.id, e.data, e.ttl);
      HeadIsOldest(events, s.st.lru, "");
    }
  }

  lemma SetApplied(maxSize: nat, s: Sys, e: Event)
    requires e.Set?
    ensures Apply(maxSize, s, e).st == SetSession(s.st, maxSize, s.now, e.id, e.data, e.ttl)
  {
  }

  lemma SizesWithin<V>(after: map<string, V>, before: map<string, V>, id: string, n: nat)
    requires after.Keys == before.Keys + {id} && |before| <= n && (id in before || |before| < n)
    ensures |after| <= n
  {
    assert |after| == |after.Keys| && |before| == |before.Keys|;
    if id in before {
      assert after.Keys == before.Keys;
    }
  }

  /** A run stays within a positive capacity throughout exactly when no step of it overfills. */
  lemma {:induction false} CapacityIff(maxSize: nat, events: seq<Event>)
    requires maxSize > 0
    ensures (forall k :: 0 <= k <= |events| ==> |Run(maxSize, events[..k]).st.store.m| <= maxSize)
            <==> forall k :: 0 <= k < |events| ==> !Overfills(maxSize, events[..k], events[k])
  {
    hide Run, Apply, Overfills;
    if events == [] {
      NothingStored(maxSize);
      assert events[..0] == [];
    } else {
      var before, e := events[..|events| - 1], events[|events| - 1];
      CapacityIff(maxSize, before);
      assert events == before + [e] && events[..|events|] == events;
      assert forall k :: 0 <= k <= |before| ==> before[..k] == events[..k];
      if |Run(maxSize, before).st.store.m| <= maxSize {
        OverfillsIff(maxSize, before, e);
      } else {
        assert events[..|before|] == before && before[..|before|] == before;
      }
    }
  }

  lemma NothingStored(maxSize: nat)
    ensures |Run(maxSize, []).st.store.m| == 0
  {
  }

  // ---------- timers ----------

  ghost predicate TtlAtMost(events: seq<Event>, bound: int) {
    forall i :: 0 <= i < |events| ==> TtlOf(events[i]) <= bound
  }

  /** The lifetime an event asks for; none at all counts as 0, which the code treats alike. */
  ghost function TtlOf(e: Event): int {
    if e.Set? then (if e.ttl.Some? then e.ttl.value else 0)
    else if e.RenewIt? then (if e.ttl.Some? then e.ttl.value else 0)
    else 0
  }

  /** A pending callback is either the session's own, due no earlier than its deadline, or waits for ever. */
  ghost predicate TimersOk(s: Store) {
    && (forall id :: id in s.store.m ==> s.store.m[id].expireAt <= MAX_SAFE_INTEGER)
    && (forall t :: t in s.timers ==> t < s.next && TimerOk(s, t))
  }

  ghost predicate TimerOk(s: Store, t: nat)
    requires t in s.timers
  {
    var timer := s.timers[t];
    timer.expireAt == MAX_SAFE_INTEGER ||
    (timer.session in s.store.m && s.store.m[timer.session].timer == t &&
     s.store.m[timer.session].expireAt == timer.expireAt <= timer.due)
  }

  lemma AssignTimers(s: Store, now: int, id: string, data: SessionData, ttl: Option<int>)
    requires TimersOk(s) && now <= MAX_DATE && (ttl.Some? ==> ttl.value <= MAX_TIMEOUT_MS)
    ensures TimersOk(Assign(s, now, id, data, ttl))
  {
    var s' := Assign(s, now, id, data, ttl);
    forall t | t in s'.timers ensures t < s'.next && TimerOk(s', t) {
      if t != s.next {
        assert TimerOk(s, t);
      }
    }
  }

  lemma DeleteTimers(s: Store, id: string)
    requires TimersOk(s)
    ensures TimersOk(InternalDelete(s, id))
  {
    var s' := InternalDelete(s, id);
    forall t | t in s'.timers ensures t < s'.next && TimerOk(s', t) {
      assert TimerOk(s, t);
    }
  }

  lemma DeleteAllTimers(s: Store, gone: set<string>)
    requires TimersOk(s)
    ensures TimersOk(DeleteAll(s, gone))
  {
    var s' := DeleteAll(s, gone);
    forall t | t in s'.timers ensures t < s'.next && TimerOk(s', t) {
      assert TimerOk(s, t);
      if s.timers[t].session in gone && s.timers[t].session in s.store.m {
        assert s.store.m[s.timers[t].session].timer in TimersOf(s, gone);
      }
    }
  }

  lemma FireTimers(s: Store, now: int, timer: nat)
    requires TimersOk(s) && now <= MAX_DATE
    ensures TimersOk(FireTimer(s, now, timer))
    ensures forall id :: id in s.store.m && id !in FireTimer(s, now, timer).store.m ==> s.store.m[id].expireAt <= now
  {
    if timer in s.timers && s.timers[timer].due <= now {
      var s1 := s.(timers := s.timers - {timer});
      assert TimerOk(s, timer);
      forall t | t in s1.timers ensures t < s1.next && TimerOk(s1, t) {
        assert TimerOk(s, t);
      }
      DeleteTimers(s1, s.timers[timer].session);
      if now < s.timers[timer].expireAt {
        var s2 := Schedule(s1, now, s.timers[timer].session, s.timers[timer].expireAt);
        forall t | t in s2.timers ensures t < s2.next && TimerOk(s2, t) {
          if t != s1.next {
            assert TimerOk(s1, t);
          }
        }
      }
    }
  }

  lemma StepTimers(maxSize: nat, s: Sys, e: Event)
    requires TimersOk(s.st) && s.now <= MAX_DATE && TtlOf(e) <= MAX_TIMEOUT_MS
    ensures TimersOk(Apply(maxSize, s, e).st) && Apply(maxSize, s, e).now <= MAX_DATE
  {
    match e
    case Set(id, data, ttl) =>
      var s1 := Assign(s.st, s.now, id, data, ttl);
      AssignTimers(s.st, s.now, id, data, ttl);
      if s1.lru != [] {
        DeleteTimers(s1, s1.lru[0]);
      }
    case Get(id) => DeleteTimers(s.st, id);
      forall t | t in s.st.timers ensures TimerOk(Touch(s.st, id), t) {
        assert TimerOk(s.st, t);
      }
    case Delete(id) => DeleteTimers(s.st, id);
    case DeleteUser(user) => DeleteAllTimers(s.st, OfUser(View(s.st), user));
    case RenewIt(id, ttl) =>
      if id in s.st.store.m {
        AssignTimers(s.st, s.now, id, s.st.store.m[id].data, ttl);
      }
    case Fire(timer) => FireTimers(s.st, s.now, timer);
    case Tick(_) =>
  }

  lemma {:induction false} RunTimers(maxSize: nat, events: seq<Event>)
    requires TtlAtMost(events, MAX_TIMEOUT_MS)
    ensures TimersOk(Run(maxSize, events).st) && Run(maxSize, events).now <= MAX_DATE
  {
    if events != [] {
      RunTimers(maxSize, events[..|events| - 1]);
      StepTimers(maxSize, Run(maxSize, events[..|events| - 1]), events[|events| - 1]);
    }
  }

  /** Some timer of the run removes a session whose deadline has not come. */
  ghost predicate RemovesEarly(maxSize: nat, events: seq<Event>) {
    exists i, id :: 0 <= i < |events| && EarlyAt(maxSize, Run(maxSize, events[..i]), events[i], id)
  }

  ghost predicate EarlyAt(maxSize: nat, s: Sys, e: Event, id: string) {
    && e.Fire? && id in s.st.store.m && id !in Apply(maxSize, s, e).st.store.m
    && s.now < s.st.store.m[id].expireAt
  }

  lemma StepNotEarly(maxSize: nat, s: Sys, e: Event, id: string)
    requires TimersOk(s.st) && s.now <= MAX_DATE
    ensures !EarlyAt(maxSize, s, e, id)
  {
    hide TimersOk;
    if e.Fire? {
      FireTimers(s.st, s.now, e.timer);
    }
  }

  /** With lifetimes `setTimeout` can wait for, or none, no timer ever removes a session early. */
  lemma NeverEarly(maxSize: nat, events: seq<Event>)
    requires TtlAtMost(events, MAX_TIMEOUT_MS)
    ensures !RemovesEarly(maxSize, events)
  {
    hide EarlyAt, Run, TimersOk;
    forall i, id | 0 <= i < |events| ensures !EarlyAt(maxSize, Run(maxSize, events[..i]), events[i], id) {
      RunTimers(maxSize, events[..i]);
      StepNotEarly(maxSize, Run(maxSize, events[..i]), events[i], id);
    }
  }

  ghost predicate ConstantTtl(events: seq<Event>, ttl: int) {
    forall i :: 0 <= i < |events| && (events[i].Set? || events[i].RenewIt?) ==> TtlOf(events[i]) == ttl
  }

  /** A lone session watched by one pending timer. */
  ghost predicate Watched(s: Sys, now: int, expireAt: int, own: nat, t: nat, timer: Timer, next: nat) {
    && s.now == now && s.st.next == next
    && "s" in s.st.store.m && s.st.store.m["s"].expireAt == expireAt && s.st.store.m["s"].timer == own
    && s.st.store.m.Keys == {"s"} && t in s.st.timers && s.st.timers[t] == timer
    && s.st.lru == ["s"] && own < s.st.next && t < s.st.next
  }

  lemma LoneSet(maxSize: nat, data: SessionData, ttl: int)
    requires ttl > MAX_TIMEOUT_MS
    ensures Watched(Apply(maxSize, Sys(0, EMPTY), Set("s", data, Some(ttl))), 0, ttl, 0, 0,
                    Timer("s", ttl, MAX_TIMEOUT_MS), 1)
  {
    assert Without([], "s") == [];
    var s1 := Assign(EMPTY, 0, "s", data, Some(ttl));
    assert s1.store.m.Keys == {"s"} && |s1.store.m| == |s1.store.m.Keys|;
  }

  lemma LoneTick(maxSize: nat, s: Sys, d: nat, expireAt: int, own: nat, t: nat, timer: Timer, next: nat)
    requires Watched(s, s.now, expireAt, own, t, timer, next) && s.now + d <= MAX_DATE
    ensures Watched(Apply(maxSize, s, Tick(d)), s.now + d, expireAt, own, t, timer, next)
  {
  }

  lemma LoneChain(maxSize: nat, s: Sys, ttl: int)
    requires ttl > MAX_TIMEOUT_MS && Watched(s, MAX_TIMEOUT_MS, ttl, 0, 0, Timer("s", ttl, MAX_TIMEOUT_MS), 1)
    ensures
      var due := MAX_TIMEOUT_MS + TimerDelay(Delay(MAX_TIMEOUT_MS, ttl));
      due <= ttl && Watched(Apply(maxSize, s, Fire(0)), MAX_TIMEOUT_MS, ttl, 0, 1, Timer("s", ttl, due), 2)
  {
  }

  lemma LoneRenew(maxSize: nat, s: Sys, ttl: int, timer: Timer)
    requires ttl > MAX_TIMEOUT_MS && Watched(s, MAX_TIMEOUT_MS, ttl, 0, 1, timer, 2)
    ensures Watched(Apply(maxSize, s, RenewIt("s", Some(ttl))), MAX_TIMEOUT_MS, MAX_TIMEOUT_MS + ttl, 2, 1, timer, 3)
  {
    WithoutOnly("s");
  }

  lemma LoneEarly(maxSize: nat, s: Sys, ttl: int, timer: Timer)
    requires ttl > MAX_TIMEOUT_MS && Watched(s, ttl, MAX_TIMEOUT_MS + ttl, 2, 1, timer, 3)
    requires timer.session == "s" && timer.expireAt == ttl && timer.due <= ttl
    ensures EarlyAt(maxSize, s, Fire(1), "s")
  {
  }

  function ChainEvents(ttl: int): seq<Event>
    requires MAX_TIMEOUT_MS < ttl
  {
    [Set("s", SessionData("u", None, 0), Some(ttl)), Tick(MAX_TIMEOUT_MS), Fire(0), RenewIt("s", Some(ttl)),
     Tick(ttl - MAX_TIMEOUT_MS), Fire(1)]
  }

  /** The five states before the last firing. */
  lemma ChainStates(maxSize: nat, ttl: int, s: Sys, s1: Sys, s2: Sys, s3: Sys, s4: Sys)
    requires MAX_TIMEOUT_MS < ttl <= MAX_DATE
    requires s == Apply(maxSize, Sys(0, EMPTY), ChainEvents(ttl)[0]) && s1 == Apply(maxSize, s, ChainEvents(ttl)[1])
    requires s2 == Apply(maxSize, s1, ChainEvents(ttl)[2]) && s3 == Apply(maxSize, s2, ChainEvents(ttl)[3])
    requires s4 == Apply(maxSize, s3, ChainEvents(ttl)[4])
    ensures EarlyAt(maxSize, s4, Fire(1), "s")
  {
    LoneSet(maxSize, SessionData("u", None, 0), ttl);
    LoneTick(maxSize, s, MAX_TIMEOUT_MS, ttl, 0, 0, Timer("s", ttl, MAX_TIMEOUT_MS), 1);
    LoneChain(maxSize, s1, ttl);
    var timer := s2.st.timers[1];
    LoneRenew(maxSize, s2, ttl, timer);
    LoneTick(maxSize, s3, ttl - MAX_TIMEOUT_MS, MAX_TIMEOUT_MS + ttl, 2, 1, timer, 3);
    LoneEarly(maxSize, s4, ttl, timer);
  }

  ghost function After(maxSize: nat, s: Sys, es: seq<Event>): Sys
    decreases |es|
  {
    if es == [] then s else After(maxSize, Apply(maxSize, s, es[0]), es[1..])
  }

  lemma {:induction false} AfterIsRun(maxSize: nat, es: seq<Event>, i: nat, k: nat)
    requires i <= k <= |es|
    ensures After(maxSize, Run(maxSize, es[..i]), es[i..k]) == Run(maxSize, es[..k])
    decreases k - i
  {
    if i < k {
      assert es[..i + 1] == es[..i] + [es[i]];
      RunSnoc(maxSize, es[..i], es[i]);
      assert es[i..k][1..] == es[i + 1..k];
      AfterIsRun(maxSize, es, i + 1, k);
    }
  }

  lemma ChainAfter(maxSize: nat, ttl: int) returns (es: seq<Event>)
    requires MAX_TIMEOUT_MS < ttl <= MAX_DATE
    ensures |es| == 6 && ConstantTtl(es, ttl)
    ensures EarlyAt(maxSize, After(maxSize, Sys(0, EMPTY), es[..5]), es[5], "s")
  {
    hide Apply, EarlyAt, After;
    es := ChainEvents(ttl);
    var s := Apply(maxSize, Sys(0, EMPTY), es[0]);
    var s1 := Apply(maxSize, s, es[1]);
    var s2 := Apply(maxSize, s1, es[2]);
    var s3 := Apply(maxSize, s2, es[3]);
    var s4 := Apply(maxSize, s3, es[4]);
    ChainStates(maxSize, ttl, s, s1, s2, s3, s4);
    AfterFive(maxSize, es, s, s1, s2, s3, s4);
  }

  lemma AfterFive(maxSize: nat, es: seq<Event>, s: Sys, s1: Sys, s2: Sys, s3: Sys, s4: Sys)
    requires |es| == 6
    requires s == Apply(maxSize, Sys(0, EMPTY), es[0]) && s1 == Apply(maxSize, s, es[1])
    requires s2 == Apply(maxSize, s1, es[2]) && s3 == Apply(maxSize, s2, es[3]) && s4 == Apply(maxSize, s3, es[4])
    ensures After(maxSize, Sys(0, EMPTY), es[..5]) == s4
  {
    hide Apply;
    assert es[..5][1..] == es[1..5] && es[1..5][1..] == es[2..5] && es[2..5][1..] == es[3..5];
    assert es[3..5][1..] == es[4..5] && es[4..5][1..] == [];
    assert After(maxSize, s3, es[4..5]) == s4;
    assert After(maxSize, s2, es[3..5]) == s4;
    assert After(maxSize, s1, es[2..5]) == s4;
    assert After(maxSize, s, es[1..5]) == s4;
  }

  /**
   A session that outlives one `setTimeout` is watched by a second timer nobody can cancel: renewed in
   between, it is removed at its first deadline.
   */
  lemma ChainedTimerIsEarly(maxSize: nat, ttl: int) returns (es: seq<Event>)
    requires MAX_TIMEOUT_MS < ttl <= MAX_DATE
    ensures ConstantTtl(es, ttl) && RemovesEarly(maxSize, es)
  {
    es := ChainAfter(maxSize, ttl);
    EarlyInRun(maxSize, es, 5, "s");
  }

  lemma EarlyInRun(maxSize: nat, es: seq<Event>, i: nat, id: string)
    requires i < |es| && EarlyAt(maxSize, After(maxSize, Sys(0, EMPTY), es[..i]), es[i], id)
    ensures RemovesEarly(maxSize, es)
  {
    AfterIsRun(maxSize, es, 0, i);
    assert es[0..i] == es[..i];
    assert EarlyAt(maxSize, Run(maxSize, es[..i]), es[i], id);
  }

  /** One lifetime for every session is safe from early removal, in every run, exactly up to 2^31 - 1 ms. */
  lemma EarlyIff(maxSize: nat, ttl: int)
    requires ttl <= MAX_DATE
    ensures (forall events :: ConstantTtl(events, ttl) ==> !RemovesEarly(maxSize, events)) <==> ttl <= 2147483647
  {
    if ttl <= MAX_TIMEOUT_MS {
      forall events | ConstantTtl(events, ttl) ensures !RemovesEarly(maxSize, events) {
        NeverEarly(maxSize, events);
      }
    } else {
      var events := ChainedTimerIsEarly(maxSize, ttl);
    }
  }

  // ---------- what is read back ----------

  lemma AssignedLast(s: Store, now: int, id: string, data: SessionData, ttl: Option<int>)
    requires SameKeys(s)
    ensures
      var s1 := Assign(s, now, id, data, ttl);
      && id in s1.store.m && s1.store.m[id].data == data && s1.store.m[id].expireAt == ExpireAt(now, ttl)
      && s1.lru != [] && (|s1.store.m| > 1 ==> s1.lru[0] != id)
  {
    var s1 := Assign(s, now, id, data, ttl);
    AssignKeeps(s, now, id, data, ttl);
    NoDupSize(s1.lru, s1.store.m.Keys);
    assert |s1.store.m| == |s1.store.m.Keys|;
    assert s1.lru[|s1.lru| - 1] == id;
  }

  /**
   A session set or renewed at t is read back, whatever the capacity, exactly until its lifetime from t is over;
   without one, or with 0, until the end of the safe integers.
   */
  lemma ReadBack(s: Store, maxSize: nat, t: int, id: string, data: SessionData, ttl: Option<int>, at: int)
    requires SameKeys(s) && t <= at
    ensures
      var until := if ttl.Some? && ttl.value != 0 then t + ttl.value else 9007199254740991;
      && GetSession(SetSession(s, maxSize, t, id, data, ttl), at, id).1 == (if at <= until then Some(data) else None)
      && GetSession(Renew(s, t, id, ttl), at, id).1 ==
         if id in s.store.m && at <= until then Some(s.store.m[id].data) else None
  {
    hide Assign, SameKeys, InternalDelete;
    AssignedLast(s, t, id, data, ttl);
    DeletedOthers(Assign(s, t, id, data, ttl), id);
    if id in s.store.m {
      AssignedLast(s, t, id, s.store.m[id].data, ttl);
    }
  }

  lemma DeletedOthers(s: Store, id: string)
    requires id in s.store.m
    ensures forall x :: x != id ==> id in InternalDelete(s, x).store.m && InternalDelete(s, x).store.m[id] == s.store.m[id]
  {
  }

  // ---------- timers fire once ----------

  ghost predicate Numbered(s: Store) {
    forall t :: t in s.timers ==> t < s.next
  }

  lemma StepNumbered(maxSize: nat, s: Sys, e: Event)
    requires Numbered(s.st)
    ensures Numbered(Apply(maxSize, s, e).st)
  {
  }

  lemma {:induction false} RunNumbered(maxSize: nat, events: seq<Event>)
    ensures Numbered(Run(maxSize, events).st)
  {
    hide Numbered, Apply;
    if events == [] {
      NothingNumbered(maxSize);
    } else {
      RunNumbered(maxSize, events[..|events| - 1]);
      StepNumbered(maxSize, Run(maxSize, events[..|events| - 1]), events[|events| - 1]);
    }
  }

  lemma NothingNumbered(maxSize: nat)
    ensures Numbered(Run(maxSize, []).st)
  {
  }

  /**
   In every run a due timer fires once: at its deadline the session goes, with what timer it has by now, and
   before it one new timer waits for the rest, at most as long as `setTimeout` can.
   */
  lemma FiresOnce(maxSize: nat, events: seq<Event>, timer: nat)
    requires
      var s := Run(maxSize, events);
      timer in s.st.timers && s.st.timers[timer].due <= s.now
    ensures
      var s := Run(maxSize, events);
      var s', t := Apply(maxSize, s, Fire(timer)), s.st.timers[timer];
      && timer !in s'.st.timers
      && (s.now >= t.expireAt ==>
        && t.session !in s'.st.store.m && s'.st.timers.Keys <= s.st.timers.Keys)
      && (s.now < t.expireAt ==>
        && s'.st.store == s.st.store && s'.st.timers.Keys == s.st.timers.Keys - {timer} + {s.st.next}
        && s'.st.timers[s.st.next].session == t.session && s'.st.timers[s.st.next].expireAt == t.expireAt
        && s'.st.timers[s.st.next].due == s.now + Min(t.expireAt - s.now, 2147483647))
  {
    hide Run;
    RunNumbered(maxSize, events);
  }

  ghost function Min(a: int, b: int): int {
    if a <= b then a else b
  }
}
