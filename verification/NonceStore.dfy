/**
 The in-memory nonce store: an insertion-ordered map from nonce to expiry, emptied of expired entries on
 every call and of its oldest entry when full.
 */
module NonceStore {
  import opened Js

  type Records = JsMap<string, int>

  const EMPTY: Records := JsMap(map[], [])

  function Expired(r: Records, now: int): set<string> {
    set k | k in r.m && r.m[k] <= now
  }

  function EvictExpired(r: Records, now: int): Records {
    r.DeleteKeys(Expired(r, now))
  }

  /** Room for one more: the oldest entry goes when the store is full. */
  function MakeRoom(r: Records, maxSize: int): Records {
    if |r.m| >= maxSize && r.order != [] then r.Delete(r.order[0]) else r
  }

  predicate IsNew(r: Records, now: int, nonce: string) {
    nonce !in EvictExpired(r, now).m
  }

  function Recorded(r: Records, maxSize: int, nonce: string, expireAt: int): Records {
    MakeRoom(r, maxSize).Set(nonce, expireAt)
  }

  function SetIfAbsent(r: Records, maxSize: int, now: int, nonce: string, ttl: int): Records {
    var r1 := EvictExpired(r, now);
    if nonce in r1.m then r1 else Recorded(r1, maxSize, nonce, now + ttl)
  }

  lemma RecordedValid(r: Records, maxSize: int, nonce: string, expireAt: int)
    requires r.Valid()
    ensures MakeRoom(r, maxSize).Valid() && Recorded(r, maxSize, nonce, expireAt).Valid()
  {
    if r.order != [] {
      r.DeleteValid(r.order[0]);
    }
    MakeRoom(r, maxSize).SetValid(nonce, expireAt);
  }

  /** A nonce recorded again moves to the end. */
  function SetNonce(r: Records, maxSize: int, now: int, nonce: string, ttl: int): Records {
    var r1 := EvictExpired(r, now);
    (if nonce in r1.m then r1.Delete(nonce) else MakeRoom(r1, maxSize)).Set(nonce, now + ttl)
  }

  /** A nonce found moves to the end; an entry that expires at 0 counts as missing. */
  function HasNonce(r: Records, now: int, nonce: string): (Records, bool) {
    var r1 := EvictExpired(r, now);
    if nonce !in r1.m || r1.m[nonce] == 0 then (r1, false)
    else (r1.Delete(nonce).Set(nonce, r1.m[nonce]), true)
  }

  /** The expired nonces among the first i in insertion order. */
  ghost function Swept(r: Records, now: int, i: nat): set<string>
    requires i <= |r.order|
  {
    set k | k in Expired(r, now) && k in r.order[..i]
  }

  lemma SweepNext(r: Records, now: int, i: nat)
    requires r.Valid() && i < |r.order|
    ensures
      var k := r.order[i];
      && k in r.m && k !in Swept(r, now, i)
      && Swept(r, now, i + 1) == if r.m[k] <= now then Swept(r, now, i) + {k} else Swept(r, now, i)
  {
    assert r.order[..i + 1] == r.order[..i] + [r.order[i]];
  }

  /** One turn of the sweep: the nonce met is still there, and goes if it has expired. */
  lemma SweepTurn(r: Records, now: int, i: nat)
    requires r.Valid() && i < |r.order|
    ensures
      var before, k := r.DeleteKeys(Swept(r, now, i)), r.order[i];
      && k in before.m
      && r.DeleteKeys(Swept(r, now, i + 1)) == if before.m[k] <= now then before.Delete(k) else before
  {
    SweepNext(r, now, i);
    r.DeleteOneMoreKey(Swept(r, now, i), r.order[i]);
  }

  lemma SweptAll(r: Records, now: int)
    requires r.Valid()
    ensures Swept(r, now, |r.order|) == Expired(r, now)
  {
    assert r.order[..|r.order|] == r.order;
  }

  class MemoryNonceStore {
    var records: Records
    const maxSize: int

    constructor (maxSize: int)
      ensures records == EMPTY && this.maxSize == maxSize
    {
      records := EMPTY;
      this.maxSize := maxSize;
    }

    method RemoveExpired(now: int)
      requires records.Valid()
      modifies this
      ensures records == EvictExpired(old(records), now) && records.Valid()
    {
      ghost var r0 := records;
      var keys := records.order;
      WithoutNone(keys);
      assert Swept(r0, now, 0) == {};
      for i := 0 to |keys|
        invariant records == r0.DeleteKeys(Swept(r0, now, i))
      {
        SweepTurn(r0, now, i);
        if records.m[keys[i]] <= now {
          records := records.Delete(keys[i]);
        }
      }
      SweptAll(r0, now);
      r0.DeleteKeysValid(Expired(r0, now));
    }

    method AddIfAbsent(nonce: string, ttlMs: int, now: int) returns (added: bool)
      requires records.Valid()
      modifies this
      ensures added == IsNew(old(records), now, nonce)
      ensures records == SetIfAbsent(old(records), maxSize, now, nonce, ttlMs) && records.Valid()
    {
      hide EvictExpired, JsMap.Valid;
      RemoveExpired(now);
      RecordedValid(records, maxSize, nonce, now + ttlMs);
      if nonce in records.m {
        return false;
      }
      if |records.m| >= maxSize && records.order != [] {
        records := records.Delete(records.order[0]);
      }
      records := records.Set(nonce, now + ttlMs);
      return true;
    }

    method Record(nonce: string, ttlMs: int, now: int)
      requires records.Valid()
      modifies this
      ensures records == SetNonce(old(records), maxSize, now, nonce, ttlMs)
    {
      RemoveExpired(now);
      if nonce in records.m {
        records := records.Delete(nonce);
      } else if |records.m| >= maxSize && records.order != [] {
        records := records.Delete(records.order[0]);
      }
      records := records.Set(nonce, now + ttlMs);
    }

    method Has(nonce: string, now: int) returns (found: bool)
      requires records.Valid()
      modifies this
      ensures (records, found) == HasNonce(old(records), now, nonce)
    {
      RemoveExpired(now);
      if nonce !in records.m || records.m[nonce] == 0 {
        return false;
      }
      var expireAt := records.m[nonce];
      records := records.Delete(nonce);
      records := records.Set(nonce, expireAt);
      return true;
    }
  }

  // ---------- runs that only add if absent, with one lifetime ----------

  datatype Request = Request(at: int, nonce: string)

  ghost function Next(maxSize: int, ttl: int, r: Records, q: Request): Records {
    SetIfAbsent(r, maxSize, q.at, q.nonce, ttl)
  }

  ghost function Run(maxSize: int, ttl: int, r: Records, qs: seq<Request>): Records
    decreases |qs|
  {
    if qs == [] then r else Run(maxSize, ttl, Next(maxSize, ttl, r, qs[0]), qs[1..])
  }

  /** How many nonces the requests record. */
  ghost function CountAdded(maxSize: int, ttl: int, r: Records, qs: seq<Request>): nat
    decreases |qs|
  {
    if qs == [] then 0
    else (if IsNew(r, qs[0].at, qs[0].nonce) then 1 else 0) + CountAdded(maxSize, ttl,
                                                                         Next(maxSize, ttl, r, qs[0]), qs[1..])
  }

  /** Times never go back, starting from `since`. */
  ghost predicate Monotone(since: int, qs: seq<Request>) {
    && (forall i :: 0 <= i < |qs| ==> since <= qs[i].at)
    && (forall i, j :: 0 <= i < j < |qs| ==> qs[i].at <= qs[j].at)
  }

  /** Entries stand in the order they expire, and none outlasts a nonce recorded now. */
  ghost predicate Ordered(r: Records, latest: int) {
    && r.Valid()
    && (forall i, j :: 0 <= i < j < |r.order| ==> r.m[r.order[i]] <= r.m[r.order[j]])
    && (forall k :: k in r.m ==> r.m[k] <= latest)
  }

  lemma DeleteOrdered(r: Records, gone: set<string>, latest: int)
    requires Ordered(r, latest)
    ensures Ordered(r.DeleteKeys(gone), latest)
  {
    r.DeleteKeysValid(gone);
    var order := WithoutAll(r.order, gone);
    forall i, j | 0 <= i < j < |order| ensures r.m[order[i]] <= r.m[order[j]] {
      assert Before(order, order[i], order[j]);
      KeepBefore(r.order, (set x | x in r.order) - gone, order[i], order[j]);
    }
  }

  lemma SizeOf(r: Records)
    requires r.Valid()
    ensures |r.order| == |r.m|
  {
    NoDupSize(r.order, r.m.Keys);
    assert |r.m.Keys| == |r.m|;
  }

  lemma DeleteKeepsSize(r: Records, gone: set<string>)
    ensures |r.DeleteKeys(gone).m| <= |r.m|
  {
    var left := r.DeleteKeys(gone).m;
    assert r.m.Keys == left.Keys + (r.m.Keys - left.Keys);
    assert |left| == |left.Keys| && |r.m| == |r.m.Keys|;
  }

  lemma DeleteOneSize(r: Records, k: string)
    requires k in r.m
    ensures |r.Delete(k).m| == |r.m| - 1
  {
    assert r.Delete(k).m.Keys == r.m.Keys - {k};
  }

  lemma AddSize(r: Records, nonce: string, expireAt: int)
    requires nonce !in r.m
    ensures |r.Set(nonce, expireAt).m| == |r.m| + 1
  {
    assert r.Set(nonce, expireAt).m.Keys == r.m.Keys + {nonce};
  }

  lemma AddOrdered(r: Records, latest: int, nonce: string, expireAt: int)
    requires Ordered(r, latest) && latest <= expireAt && nonce !in r.m
    ensures Ordered(r.Set(nonce, expireAt), expireAt)
  {
    r.SetValid(nonce, expireAt);
    var r' := r.Set(nonce, expireAt);
    forall i, j | 0 <= i < j < |r'.order| ensures r'.m[r'.order[i]] <= r'.m[r'.order[j]] {
      assert r'.order[i] == r.order[i] && r.order[i] in r.m;
    }
  }

  lemma RoomOrdered(r: Records, maxSize: int, latest: int)
    requires Ordered(r, latest) && |r.m| <= Max(maxSize, 1)
    ensures Ordered(MakeRoom(r, maxSize), latest) && |MakeRoom(r, maxSize).m| < Max(maxSize, 1)
    ensures forall k :: k in MakeRoom(r, maxSize).m ==> k in r.m
  {
    SizeOf(r);
    if |r.m| >= maxSize && r.order != [] {
      DeleteOrdered(r, {r.order[0]}, latest);
      assert r.order[0] in r.order;
      DeleteOneSize(r, r.order[0]);
    }
  }

  /** The entries are sorted by expiry and no more than the capacity, or one if it is not positive. */
  ghost predicate Tidy(maxSize: int, r: Records, latest: int) {
    Ordered(r, latest) && |r.m| <= Max(maxSize, 1)
  }

  lemma RecordTidy(maxSize: int, r: Records, latest: int, nonce: string)
    requires Tidy(maxSize, r, latest) && nonce !in r.m
    ensures Tidy(maxSize, Recorded(r, maxSize, nonce, latest), latest)
  {
    RoomOrdered(r, maxSize, latest);
    var r2 := MakeRoom(r, maxSize);
    AddOrdered(r2, latest, nonce, latest);
    AddSize(r2, nonce, latest);
  }

  lemma EvictTidy(maxSize: int, r: Records, latest: int, now: int, later: int)
    requires Tidy(maxSize, r, latest) && latest <= later
    ensures Tidy(maxSize, EvictExpired(r, now), later)
  {
    DeleteOrdered(r, Expired(r, now), latest);
    DeleteKeepsSize(r, Expired(r, now));
  }

  lemma StepTidy(maxSize: int, ttl: int, r: Records, latest: int, q: Request)
    requires Tidy(maxSize, r, latest) && latest <= q.at + ttl
    ensures Tidy(maxSize, Next(maxSize, ttl, r, q), q.at + ttl)
  {
    hide Tidy, Recorded, EvictExpired;
    var r1 := EvictExpired(r, q.at);
    EvictTidy(maxSize, r, latest, q.at, q.at + ttl);
    if q.nonce !in r1.m {
      RecordTidy(maxSize, r1, q.at + ttl, q.nonce);
    }
  }

  /** Every run keeps the store tidy. */
  lemma {:induction false} RunTidy(maxSize: int, ttl: int, r: Records, since: int, qs: seq<Request>)
    requires Tidy(maxSize, r, since + ttl) && Monotone(since, qs)
    ensures Tidy(maxSize, Run(maxSize, ttl, r, qs), (if qs == [] then since else qs[|qs| - 1].at) + ttl)
    decreases |qs|
  {
    hide Tidy, Next;
    if qs != [] {
      var r' := Next(maxSize, ttl, r, qs[0]);
      StepTidy(maxSize, ttl, r, since + ttl, qs[0]);
      RunTidy(maxSize, ttl, r', qs[0].at, qs[1..]);
    }
  }

  // ---------- how long a nonce is refused ----------

  /** What stands after x. */
  ghost function After(s: seq<string>, x: string): seq<string> {
    if s == [] then [] else if s[0] == x then s[1..] else After(s[1..], x)
  }

  lemma {:induction false} KeepLength(s: seq<string>, keep: set<string>)
    ensures |Keep(s, keep)| <= |s|
  {
    if s != [] {
      KeepLength(s[1..], keep);
    }
  }

  lemma {:induction false} AfterKeep(s: seq<string>, keep: set<string>, x: string)
    requires x in keep
    ensures |After(Keep(s, keep), x)| <= |After(s, x)|
  {
    if s != [] {
      var rest := Keep(s[1..], keep);
      if s[0] in keep {
        assert ([s[0]] + rest)[1..] == rest;
      }
      if s[0] == x {
        KeepLength(s[1..], keep);
      } else {
        AfterKeep(s[1..], keep, x);
      }
    }
  }

  lemma {:induction false} AfterSnoc(s: seq<string>, x: string, y: string)
    requires x in s
    ensures After(s + [y], x) == After(s, x) + [y]
  {
    assert (s + [y])[1..] == s[1..] + [y];
    if s[0] != x {
      AfterSnoc(s[1..], x, y);
    }
  }

  lemma {:induction false} AfterNew(s: seq<string>, x: string)
    requires x !in s
    ensures After(s + [x], x) == []
  {
    if s != [] {
      assert (s + [x])[1..] == s[1..] + [x];
      AfterNew(s[1..], x);
    }
  }

  /** The nonce is on record until `expireAt`, with at most n entries behind it. */
  ghost predicate OnRecord(r: Records, nonce: string, expireAt: int, n: nat) {
    r.Valid() && nonce in r.m && r.m[nonce] == expireAt && |After(r.order, nonce)| <= n
  }

  lemma EvictKeepsRecord(r: Records, nonce: string, expireAt: int, n: nat, now: int)
    requires OnRecord(r, nonce, expireAt, n) && now < expireAt
    ensures OnRecord(EvictExpired(r, now), nonce, expireAt, n)
  {
    r.DeleteKeysValid(Expired(r, now));
    AfterKeep(r.order, (set x | x in r.order) - Expired(r, now), nonce);
  }

  /** Making room loses the nonce only if as many entries as the store may hold, less one, stand behind it. */
  lemma RoomKeepsRecord(r: Records, maxSize: int, nonce: string, expireAt: int, n: nat)
    requires OnRecord(r, nonce, expireAt, n) && n + 1 < Max(maxSize, 1)
    ensures OnRecord(MakeRoom(r, maxSize), nonce, expireAt, n)
  {
    if |r.m| >= maxSize && r.order != [] {
      SizeOf(r);
      if r.order[0] != nonce {
        r.DeleteValid(r.order[0]);
        AfterKeep(r.order, (set x | x in r.order) - {r.order[0]}, nonce);
      }
    }
  }

  lemma StepKeepsRecord(maxSize: int, ttl: int, r: Records, nonce: string, expireAt: int, n: nat, q: Request)
    requires OnRecord(r, nonce, expireAt, n) && q.at < expireAt
    requires n + (if IsNew(r, q.at, q.nonce) then 1 else 0) < Max(maxSize, 1)
    ensures OnRecord(Next(maxSize, ttl, r, q), nonce, expireAt, n + if IsNew(r, q.at, q.nonce) then 1 else 0)
  {
    EvictKeepsRecord(r, nonce, expireAt, n, q.at);
    var r1 := EvictExpired(r, q.at);
    if q.nonce !in r1.m {
      RoomKeepsRecord(r1, maxSize, nonce, expireAt, n);
      var r2 := MakeRoom(r1, maxSize);
      AfterSnoc(r2.order, nonce, q.nonce);
      r2.SetValid(q.nonce, q.at + ttl);
    }
  }

  /** Still on record after a stretch of requests that recorded fewer nonces than the store holds. */
  lemma {:induction false} RecordLasts(maxSize: int, ttl: int, r: Records, nonce: string, expireAt: int, n: nat,
                                       qs: seq<Request>)
    requires OnRecord(r, nonce, expireAt, n) && (forall i :: 0 <= i < |qs| ==> qs[i].at < expireAt)
    requires n + CountAdded(maxSize, ttl, r, qs) < Max(maxSize, 1)
    ensures OnRecord(Run(maxSize, ttl, r, qs), nonce, expireAt, n + CountAdded(maxSize, ttl, r, qs))
    decreases |qs|
  {
    if qs != [] {
      StepKeepsRecord(maxSize, ttl, r, nonce, expireAt, n, qs[0]);
      RecordLasts(maxSize, ttl, Next(maxSize, ttl, r, qs[0]), nonce, expireAt,
                  n + (if IsNew(r, qs[0].at, qs[0].nonce) then 1 else 0), qs[1..]);
    }
  }

  lemma RecordedNow(r: Records, maxSize: int, nonce: string, expireAt: int)
    requires r.Valid() && nonce !in r.m
    ensures OnRecord(Recorded(r, maxSize, nonce, expireAt), nonce, expireAt, 0)
  {
    RecordedValid(r, maxSize, nonce, expireAt);
    assert nonce !in MakeRoom(r, maxSize).m;
    AfterNew(MakeRoom(r, maxSize).order, nonce);
  }

  lemma JustRecorded(maxSize: int, ttl: int, r: Records, q: Request)
    requires r.Valid() && IsNew(r, q.at, q.nonce)
    ensures OnRecord(Next(maxSize, ttl, r, q), q.nonce, q.at + ttl, 0)
  {
    hide Expired, JsMap.Valid, JsMap.DeleteKeys;
    r.DeleteKeysValid(Expired(r, q.at));
    RecordedNow(EvictExpired(r, q.at), maxSize, q.nonce, q.at + ttl);
  }

  /**
   A nonce recorded by request q is refused to every later request before its lifetime ends, unless at
   least as many nonces as the store holds are recorded in between.
   */
  lemma RefusedUntilExpiry(maxSize: int, ttl: int, r: Records, q: Request, between: seq<Request>, again: Request)
    requires r.Valid() && IsNew(r, q.at, q.nonce) && again.nonce == q.nonce
    requires Monotone(q.at, between + [again]) && again.at < q.at + ttl
    requires CountAdded(maxSize, ttl, Next(maxSize, ttl, r, q), between) < Max(maxSize, 1)
    ensures !IsNew(Run(maxSize, ttl, Next(maxSize, ttl, r, q), between), again.at, again.nonce)
  {
    JustRecorded(maxSize, ttl, r, q);
    var r1, n := Next(maxSize, ttl, r, q), CountAdded(maxSize, ttl, Next(maxSize, ttl, r, q), between);
    forall i | 0 <= i < |between| ensures between[i].at < q.at + ttl {
      assert (between + [again])[i] == between[i] && (between + [again])[|between|] == again;
    }
    RecordLasts(maxSize, ttl, r1, q.nonce, q.at + ttl, 0, between);
    EvictKeepsRecord(Run(maxSize, ttl, r1, between), q.nonce, q.at + ttl, n, again.at);
  }

  // ---------- and when it is forgotten early ----------

  /** If the nonce is still there, at least n entries stand behind it. */
  ghost predicate Behind(r: Records, nonce: string, n: nat) {
    nonce in r.m ==> |After(r.order, nonce)| >= n
  }

  lemma {:induction false} AfterIn(s: seq<string>, x: string, y: string)
    requires y in After(s, x)
    ensures Before(s, x, y)
  {
    if s[0] == x {
      var j :| 0 <= j < |s[1..]| && s[1..][j] == y;
      assert s[0] == x && s[j + 1] == y;
    } else {
      AfterIn(s[1..], x, y);
      var i, j :| 0 <= i < j < |s[1..]| && s[1..][i] == x && s[1..][j] == y;
      assert s[i + 1] == x && s[j + 1] == y;
    }
  }

  lemma {:induction false} AfterKept(s: seq<string>, keep: set<string>, x: string)
    requires x in keep && (forall y :: y in After(s, x) ==> y in keep)
    ensures After(Keep(s, keep), x) == After(s, x)
  {
    if s != [] {
      if s[0] in keep {
        assert ([s[0]] + Keep(s[1..], keep))[1..] == Keep(s[1..], keep);
      }
      if s[0] == x {
        KeepAll(s[1..], keep);
      } else {
        AfterKept(s[1..], keep, x);
      }
    }
  }

  lemma {:induction false} AfterShorter(s: seq<string>, x: string)
    requires x in s
    ensures |After(s, x)| < |s|
  {
    if s[0] != x {
      AfterShorter(s[1..], x);
    }
  }

  /** What expires before the nonce stands before it. */
  lemma EvictKeepsBehind(r: Records, nonce: string, n: nat, latest: int, now: int)
    requires Ordered(r, latest) && Behind(r, nonce, n)
    ensures Behind(EvictExpired(r, now), nonce, n)
  {
    var keep := (set x | x in r.order) - Expired(r, now);
    if nonce in EvictExpired(r, now).m {
      forall y | y in After(r.order, nonce) ensures y in keep {
        AfterIn(r.order, nonce, y);
      }
      AfterKept(r.order, keep, nonce);
    }
  }

  lemma RoomKeepsBehind(r: Records, maxSize: int, nonce: string, n: nat)
    requires r.Valid() && Behind(r, nonce, n)
    ensures Behind(MakeRoom(r, maxSize), nonce, n)
  {
    if |r.m| >= maxSize && r.order != [] && nonce in r.m && nonce != r.order[0] {
      var keep := (set x | x in r.order) - {r.order[0]};
      forall y | y in After(r.order, nonce) ensures y in keep {
        AfterIn(r.order, nonce, y);
      }
      AfterKept(r.order, keep, nonce);
    }
  }

  lemma RecordKeepsBehind(r: Records, maxSize: int, nonce: string, n: nat, other: string, expireAt: int)
    requires r.Valid() && Behind(r, nonce, n) && other !in r.m && other != nonce
    ensures Behind(Recorded(r, maxSize, other, expireAt), nonce, n + 1)
  {
    RoomKeepsBehind(r, maxSize, nonce, n);
    var r2 := MakeRoom(r, maxSize);
    RecordedValid(r, maxSize, other, expireAt);
    assert other !in r2.m;
    if nonce in r2.m {
      AfterSnoc(r2.order, nonce, other);
    }
  }

  lemma StepKeepsBehind(maxSize: int, ttl: int, r: Records, nonce: string, n: nat, latest: int, q: Request)
    requires Ordered(r, latest) && Behind(r, nonce, n) && q.nonce != nonce
    ensures Behind(Next(maxSize, ttl, r, q), nonce, n + if IsNew(r, q.at, q.nonce) then 1 else 0)
  {
    hide Behind, JsMap.Valid, Recorded, Expired;
    EvictKeepsBehind(r, nonce, n, latest, q.at);
    r.DeleteKeysValid(Expired(r, q.at));
    if IsNew(r, q.at, q.nonce) {
      RecordKeepsBehind(EvictExpired(r, q.at), maxSize, nonce, n, q.nonce, q.at + ttl);
    }
  }

  lemma {:induction false} RunKeepsBehind(maxSize: int, ttl: int, r: Records, since: int, nonce: string, n: nat,
                                          qs: seq<Request>)
    requires Tidy(maxSize, r, since + ttl) && Monotone(since, qs)
    requires Behind(r, nonce, n) && (forall i :: 0 <= i < |qs| ==> qs[i].nonce != nonce)
    ensures Behind(Run(maxSize, ttl, r, qs), nonce, n + CountAdded(maxSize, ttl, r, qs))
    decreases |qs|
  {
    hide Behind, Ordered, Next, IsNew;
    if qs != [] {
      StepTidy(maxSize, ttl, r, since + ttl, qs[0]);
      StepKeepsBehind(maxSize, ttl, r, nonce, n, since + ttl, qs[0]);
      RunKeepsBehind(maxSize, ttl, Next(maxSize, ttl, r, qs[0]), qs[0].at, nonce,
                     n + (if IsNew(r, qs[0].at, qs[0].nonce) then 1 else 0), qs[1..]);
    }
  }

  /** No entry of a tidy store has more than the capacity, less one, behind it. */
  lemma Crowded(maxSize: int, r: Records, latest: int, nonce: string, n: nat)
    requires Tidy(maxSize, r, latest) && Behind(r, nonce, n) && n >= Max(maxSize, 1)
    ensures nonce !in r.m
  {
    if nonce in r.m {
      SizeOf(r);
      AfterShorter(r.order, nonce);
    }
  }

  /** If the nonce is on record, it is until `expireAt`. */
  ghost predicate Standing(r: Records, nonce: string, expireAt: int) {
    nonce in r.m ==> r.m[nonce] == expireAt
  }

  lemma StepStanding(maxSize: int, ttl: int, r: Records, nonce: string, expireAt: int, q: Request)
    requires Standing(r, nonce, expireAt) && q.nonce != nonce
    ensures Standing(Next(maxSize, ttl, r, q), nonce, expireAt)
  {
    hide Expired;
  }

  lemma {:induction false} RunStanding(maxSize: int, ttl: int, r: Records, nonce: string, expireAt: int, qs: seq<Request>)
    requires Standing(r, nonce, expireAt) && (forall i :: 0 <= i < |qs| ==> qs[i].nonce != nonce)
    ensures Standing(Run(maxSize, ttl, r, qs), nonce, expireAt)
    decreases |qs|
  {
    hide Standing, Next;
    if qs != [] {
      StepStanding(maxSize, ttl, r, nonce, expireAt, qs[0]);
      RunStanding(maxSize, ttl, Next(maxSize, ttl, r, qs[0]), nonce, expireAt, qs[1..]);
    }
  }

  lemma OverIsNew(r: Records, nonce: string, expireAt: int, now: int)
    requires Standing(r, nonce, expireAt) && expireAt <= now
    ensures IsNew(r, now, nonce)
  {
  }

  lemma RecordStanding(maxSize: int, ttl: int, r: Records, q: Request)
    requires IsNew(r, q.at, q.nonce)
    ensures Standing(Next(maxSize, ttl, r, q), q.nonce, q.at + ttl)
  {
    hide Expired;
  }

  /**
   Of a nonce recorded by request q and presented again with only other nonces in between: it is taken for
   new exactly when its lifetime is over or at least as many of them were recorded as the store holds.
   */
  lemma ForgottenIff(maxSize: int, ttl: int, r: Records, q: Request, between: seq<Request>, again: Request)
    requires Tidy(maxSize, r, q.at + ttl) && IsNew(r, q.at, q.nonce) && again.nonce == q.nonce
    requires Monotone(q.at, between + [again])
    requires forall i :: 0 <= i < |between| ==> between[i].nonce != q.nonce
    ensures
      var r1 := Next(maxSize, ttl, r, q);
      IsNew(Run(maxSize, ttl, r1, between), again.at, again.nonce)
      <==> q.at + ttl <= again.at || CountAdded(maxSize, ttl, r1, between) >= Max(maxSize, 1)
  {
    hide *;
    var r1 := Next(maxSize, ttl, r, q);
    if q.at + ttl <= again.at {
      RecordStanding(maxSize, ttl, r, q);
      RunStanding(maxSize, ttl, r1, q.nonce, q.at + ttl, between);
      OverIsNew(Run(maxSize, ttl, r1, between), q.nonce, q.at + ttl, again.at);
    } else if CountAdded(maxSize, ttl, r1, between) < Max(maxSize, 1) {
      TidyValid(maxSize, r, q.at + ttl);
      RefusedUntilExpiry(maxSize, ttl, r, q, between, again);
    } else {
      MonotonePrefix(q.at, between, again);
      StepTidy(maxSize, ttl, r, q.at + ttl, q);
      StartsBehind(r1, q.nonce);
      RunKeepsBehind(maxSize, ttl, r1, q.at, q.nonce, 0, between);
      RunTidy(maxSize, ttl, r1, q.at, between);
      Crowded(maxSize, Run(maxSize, ttl, r1, between), (if between == [] then q.at else between[|between| - 1].at) + ttl,
              q.nonce, CountAdded(maxSize, ttl, r1, between));
      AbsentIsNew(Run(maxSize, ttl, r1, between), again.at, again.nonce);
    }
  }

  lemma TidyValid(maxSize: int, r: Records, latest: int)
    requires Tidy(maxSize, r, latest)
    ensures r.Valid()
  {
  }

  lemma MonotonePrefix(since: int, qs: seq<Request>, q: Request)
    requires Monotone(since, qs + [q])
    ensures Monotone(since, qs)
  {
    assert qs == (qs + [q])[..|qs|];
  }

  lemma AbsentIsNew(r: Records, now: int, nonce: string)
    requires nonce !in r.m
    ensures IsNew(r, now, nonce)
  {
  }

  lemma StartsBehind(r: Records, nonce: string)
    ensures Behind(r, nonce, 0)
  {
  }

  // ---------- recording anew, and asking ----------

  /** On record, unexpired, with none of the unexpired before it. */
  ghost predicate Oldest(r: Records, now: int, nonce: string) {
    exists i :: 0 <= i < |r.order| && r.order[i] == nonce && nonce !in Expired(r, now)
      && forall j :: 0 <= j < i ==> r.order[j] in Expired(r, now)
  }

  lemma {:induction false} FirstKept(s: seq<string>, keep: set<string>) returns (i: nat)
    requires Keep(s, keep) != []
    ensures i < |s| && s[i] == Keep(s, keep)[0] && s[i] in keep && forall j :: 0 <= j < i ==> s[j] !in keep
  {
    if s[0] in keep {
      i := 0;
    } else {
      var k := FirstKept(s[1..], keep);
      i := k + 1;
      assert forall j :: 0 < j < i ==> s[j] == s[1..][j - 1];
    }
  }

  lemma OldestIsFirst(r: Records, now: int, nonce: string)
    requires r.Valid()
    ensures
      var order := EvictExpired(r, now).order;
      Oldest(r, now, nonce) <==> order != [] && order[0] == nonce
  {
    var keep := (set x | x in r.order) - Expired(r, now);
    assert Oldest(r, now, nonce) ==> nonce in keep;
    if Keep(r.order, keep) != [] {
      var i := FirstKept(r.order, keep);
      assert r.order[i] !in Expired(r, now) && forall j :: 0 <= j < i ==> r.order[j] in Expired(r, now);
      if Oldest(r, now, nonce) {
        var k :| 0 <= k < |r.order| && r.order[k] == nonce && nonce !in Expired(r, now)
          && forall j :: 0 <= j < k ==> r.order[j] in Expired(r, now);
        assert k == i;
      }
    }
  }

  /**
   Recording a nonce keeps it for its lifetime from now on, whether it was on record or not. Another is lost
   before its time exactly when the nonce was not on record, the store is full, and the other is the oldest.
   */
  lemma RecordIff(r: Records, maxSize: int, now: int, nonce: string, ttl: int, other: string, at: int)
    requires r.Valid() && now <= at && other != nonce
    ensures
      var r' := SetNonce(r, maxSize, now, nonce, ttl);
      && (nonce in r'.m && at < r'.m[nonce] <==> at < now + ttl)
      && (other in r'.m && at < r'.m[other]
          <==> other in r.m && at < r.m[other]
               && !((nonce !in r.m || r.m[nonce] <= now) && |EvictExpired(r, now).m| >= maxSize
                    && Oldest(r, now, other)))
  {
    hide JsMap.Valid, Oldest, WithoutAll;
    OldestIsFirst(r, now, other);
  }

  /** A nonce is found exactly when it is on record and does not expire at 0; asking changes no answer. */
  lemma HasIff(r: Records, now: int, nonce: string, other: string, at: int)
    requires r.Valid() && now <= at
    ensures
      var (r', found) := HasNonce(r, now, nonce);
      && (found <==> nonce in r.m && now < r.m[nonce] && r.m[nonce] != 0)
      && (IsNew(r', at, other) <==> IsNew(r, at, other))
      && (found ==> r'.order != [] && r'.order[|r'.order| - 1] == nonce)
  {
    hide JsMap.Valid, WithoutAll;
  }
}
