/**
 The two sliding-window limiters. Each key has a window of its own; below, one key's requests are the
 sequence of their times in milliseconds, never going back.
 */
module RateLimit {
  import opened Js

  datatype Context = Context(action: string, userId: Option<string>, ip: string)

  function BuildKey(c: Context): string {
    c.action + ":" + (if Truthy(c.userId) then c.userId.value + ":" else "") + c.ip
  }

  /**
   Which requests share a window. Between two with a user, and between two without, only those that agree in
   action, user and address do, for actions and users without a colon; a request without a user shares it with
   one of a user whose name and address together read as its address.
   */
  lemma SameKeyIff(c: Context, d: Context)
    requires ':' !in c.action && ':' !in d.action
    requires c.userId.Some? ==> ':' !in c.userId.value
    requires d.userId.Some? ==> ':' !in d.userId.value
    ensures
      var known, known' := c.userId.Some? && c.userId.value != "", d.userId.Some? && d.userId.value != "";
      BuildKey(c) == BuildKey(d)
      <==> c.action == d.action
           && if known && known' then c.userId == d.userId && c.ip == d.ip
              else if known then d.ip == c.userId.value + ":" + c.ip
              else if known' then c.ip == d.userId.value + ":" + d.ip
              else c.ip == d.ip
  {
    FirstColon(c.action, Rest(c), d.action, Rest(d));
    assert BuildKey(c) == c.action + ":" + Rest(c) && BuildKey(d) == d.action + ":" + Rest(d);
    if c.userId.Some? && c.userId.value != "" && d.userId.Some? && d.userId.value != "" {
      FirstColon(c.userId.value, c.ip, d.userId.value, d.ip);
    }
  }

  /** What follows the action in a key. */
  ghost function Rest(c: Context): string {
    if c.userId.Some? && c.userId.value != "" then c.userId.value + ":" + c.ip else c.ip
  }

  lemma ColonAfter(a: string, s: string)
    requires ':' !in a
    ensures (a + ":" + s)[|a|] == ':' && forall i :: 0 <= i < |a| ==> (a + ":" + s)[i] != ':'
    ensures (a + ":" + s)[..|a|] == a && (a + ":" + s)[|a| + 1..] == s
  {
  }

  /** What stands before the first colon, and after it, is settled by the text. */
  lemma FirstColon(a: string, s: string, b: string, t: string)
    requires ':' !in a && ':' !in b
    ensures a + ":" + s == b + ":" + t <==> a == b && s == t
  {
    ColonAfter(a, s);
    ColonAfter(b, t);
  }

  /** Window length in ms, and how many requests it admits. */
  datatype Limit = Limit(windowSeconds: nat, maxRequests: int) {
    function Window(): (ms: nat)
      ensures ms == windowSeconds * 1000
    {
      windowSeconds * 1000
    }
  }

  /** The timestamps after `start`, in order. */
  function Recent(ts: seq<nat>, start: int): seq<nat> {
    if ts == [] then []
    else if ts[0] > start then [ts[0]] + Recent(ts[1..], start)
    else Recent(ts[1..], start)
  }

  function Step(l: Limit, ts: seq<nat>, now: nat): (seq<nat>, bool) {
    var kept := Recent(ts, now - l.Window());
    if |kept| >= l.maxRequests then (kept, false) else (kept + [now], true)
  }

  class MemoryRateLimiter {
    var records: map<string, seq<nat>>
    const limit: Limit

    constructor (windowSeconds: nat, maxRequests: int)
      ensures records == map[] && limit == Limit(windowSeconds, maxRequests)
    {
      records := map[];
      limit := Limit(windowSeconds, maxRequests);
    }

    /** Only the request's own key is read or written. */
    method Allow(context: Context, now: nat) returns (ok: bool)
      modifies this
      ensures
        var key := BuildKey(context);
        var before := if key in old(records) then old(records)[key] else [];
        records == old(records)[key := Step(limit, before, now).0] && ok == Step(limit, before, now).1
    {
      var key := BuildKey(context);
      var windowStart := now - limit.windowSeconds * 1000;
      var timestamps := if key in records then records[key] else [];
      ghost var before := timestamps;
      var kept, i := [], 0;
      while i < |timestamps|
        invariant 0 <= i <= |timestamps|
        invariant kept + Recent(timestamps[i..], windowStart) == Recent(before, windowStart)
      {
        assert timestamps[i..][1..] == timestamps[i + 1..];
        if timestamps[i] > windowStart {
          kept := kept + [timestamps[i]];
        }
        i := i + 1;
      }
      assert kept == Recent(before, windowStart);
      if |kept| >= limit.maxRequests {
        records := records[key := kept];
        return false;
      }
      kept := kept + [now];
      records := records[key := kept];
      return true;
    }
  }

  // ---------- every run of one key ----------

  ghost predicate Nondecreasing(ts: seq<nat>) {
    forall i, j :: 0 <= i < j < |ts| ==> ts[i] <= ts[j]
  }

  ghost predicate Increasing(ts: seq<nat>) {
    forall i, j :: 0 <= i < j < |ts| ==> ts[i] < ts[j]
  }

  ghost function Run(l: Limit, times: seq<nat>): seq<nat> {
    if times == [] then [] else Step(l, Run(l, times[..|times| - 1]), times[|times| - 1]).0
  }

  ghost predicate Allowed(l: Limit, before: seq<nat>, now: nat) {
    Step(l, Run(l, before), now).1
  }

  /** The times of the allowed requests, in order. */
  ghost function Log(l: Limit, times: seq<nat>): seq<nat> {
    if times == [] then []
    else
      var before, now := times[..|times| - 1], times[|times| - 1];
      if Allowed(l, before, now) then Log(l, before) + [now] else Log(l, before)
  }

  lemma {:induction false} RecentSuffix(ts: seq<nat>, start: int)
    requires Nondecreasing(ts)
    ensures var r := Recent(ts, start); var n := |ts| - |r|;
      && 0 <= n && r == ts[n..] && (forall i :: 0 <= i < n ==> ts[i] <= start) && (forall i :: n <= i < |ts| ==> ts[i] > start)
  {
    if ts != [] {
      RecentSuffix(ts[1..], start);
      var r := Recent(ts[1..], start);
      var n := |ts[1..]| - |r|;
      assert forall i :: 0 <= i < |ts[1..]| ==> ts[1..][i] == ts[i + 1];
      if ts[0] > start {
        if |ts| > 1 {
          assert ts[1..][0] == ts[1] >= ts[0];
        }
        assert n == 0 && [ts[0]] + ts[1..] == ts;
      } else {
        assert ts[1..][n..] == ts[n + 1..];
        forall i | 0 <= i < n + 1 ensures ts[i] <= start {
          if i > 0 {
            assert ts[1..][i - 1] <= start;
          }
        }
        forall i | n + 1 <= i < |ts| ensures ts[i] > start {
          assert ts[1..][i - 1] > start;
        }
      }
    }
  }

  /** The window is the tail of the log: what came before it has left the window. */
  ghost predicate TailOfLog(l: Limit, log: seq<nat>, window: seq<nat>, last: nat) {
    var n := |log| - |window|;
    && 0 <= n && window == log[n..]
    && (forall i :: 0 <= i < n ==> log[i] <= last - l.Window())
    && (forall i :: 0 <= i < |log| ==> log[i] <= last)
    && |window| <= Max(l.maxRequests, 0)
  }

  /** Requests that the limiter allowed at least `maxRequests` apart are at least a window apart. */
  ghost predicate Spaced(l: Limit, log: seq<nat>) {
    forall i, j :: 0 <= i && i + Max(l.maxRequests, 0) <= j < |log| ==> log[i] + l.Window() <= log[j]
  }

  /** The log from position n on is what the window keeps at `now`. */
  ghost predicate Since(l: Limit, log: seq<nat>, kept: seq<nat>, now: nat, n: nat) {
    && n <= |log| && kept == log[n..]
    && (forall i :: 0 <= i < n ==> log[i] <= now - l.Window())
    && (forall i :: n <= i < |log| ==> log[i] > now - l.Window())
  }

  lemma TrimmedTail(l: Limit, log: seq<nat>, window: seq<nat>, last: nat, now: nat)
    requires TailOfLog(l, log, window, last) && last <= now && Nondecreasing(log)
    ensures var kept := Recent(window, now - l.Window());
      |kept| <= |window| && Since(l, log, kept, now, |log| - |kept|)
  {
    hide Recent;
    var n := |log| - |window|;
    assert forall i :: 0 <= i < |window| ==> window[i] == log[n + i];
    RecentSuffix(window, now - l.Window());
    var k := |log| - |Recent(window, now - l.Window())|;
    forall i | 0 <= i < k ensures log[i] <= now - l.Window() {
      if i >= n {
        assert log[i] == window[i - n];
      }
    }
    forall i | k <= i < |log| ensures log[i] > now - l.Window() {
      assert log[i] == window[i - n];
    }
  }

  lemma AppendSpaced(l: Limit, log: seq<nat>, kept: seq<nat>, now: nat, n: nat)
    requires Spaced(l, log) && Since(l, log, kept, now, n) && |kept| < l.maxRequests
    requires forall i :: 0 <= i < |log| ==> log[i] <= now
    ensures Spaced(l, log + [now])
  {
    var log' := log + [now];
    forall i, j | 0 <= i && i + Max(l.maxRequests, 0) <= j < |log'| ensures log'[i] + l.Window() <= log'[j] {
      if j < |log| {
        assert log[i] + l.Window() <= log[j];
      } else {
        assert i < n;
      }
    }
  }

  lemma RefusedTail(l: Limit, log: seq<nat>, kept: seq<nat>, now: nat, n: nat)
    requires Since(l, log, kept, now, n) && |kept| <= Max(l.maxRequests, 0)
    requires forall i :: 0 <= i < |log| ==> log[i] <= now
    ensures TailOfLog(l, log, kept, now)
  {
  }

  lemma AllowedTail(l: Limit, log: seq<nat>, kept: seq<nat>, now: nat, n: nat)
    requires Since(l, log, kept, now, n) && |kept| < l.maxRequests && Nondecreasing(log)
    requires forall i :: 0 <= i < |log| ==> log[i] <= now
    ensures TailOfLog(l, log + [now], kept + [now], now) && Nondecreasing(log + [now])
  {
    assert kept + [now] == (log + [now])[n..];
  }

  lemma StepSpaced(l: Limit, log: seq<nat>, window: seq<nat>, last: nat, now: nat)
    requires TailOfLog(l, log, window, last) && last <= now && Nondecreasing(log) && Spaced(l, log)
    ensures
      var (window', ok) := Step(l, window, now);
      var log' := if ok then log + [now] else log;
      TailOfLog(l, log', window', now) && Nondecreasing(log') && Spaced(l, log')
  {
    var kept := Recent(window, now - l.Window());
    TrimmedTail(l, log, window, last, now);
    var k := |log| - |kept|;
    if |kept| < l.maxRequests {
      AppendSpaced(l, log, kept, now, k);
      AllowedTail(l, log, kept, now, k);
    } else {
      RefusedTail(l, log, kept, now, k);
    }
  }

  lemma {:induction false} RunSpaced(l: Limit, times: seq<nat>)
    requires Nondecreasing(times) && times != []
    ensures TailOfLog(l, Log(l, times), Run(l, times), times[|times| - 1])
    ensures Nondecreasing(Log(l, times)) && Spaced(l, Log(l, times))
  {
    var before, now := times[..|times| - 1], times[|times| - 1];
    if before == [] {
      StepSpaced(l, [], [], now, now);
    } else {
      RunSpaced(l, before);
      StepSpaced(l, Log(l, before), Run(l, before), before[|before| - 1], now);
    }
  }

  /** The allowed requests, by position in the log, in the window that ends at t. */
  ghost function InWindow(l: Limit, log: seq<nat>, t: nat): set<nat> {
    set i: nat | i < |log| && t - l.Window() < log[i] <= t
  }

  lemma {:induction false} RangeSize(s: set<nat>, lo: nat, n: nat)
    requires forall x :: x in s ==> lo <= x < lo + n
    ensures |s| <= n
  {
    if n > 0 {
      RangeSize(s - {lo + n - 1}, lo, n - 1);
    }
  }

  lemma {:induction false} FullRangeSize(s: set<nat>, lo: nat, n: nat)
    requires forall x :: x in s <==> lo <= x < lo + n
    ensures |s| == n
  {
    if n == 0 {
      assert s == {};
    } else {
      FullRangeSize(s - {lo + n - 1}, lo, n - 1);
    }
  }

  /** In every run, no interval as long as the window holds more than `maxRequests` allowed requests. */
  lemma WindowBound(l: Limit, times: seq<nat>, t: nat)
    requires Nondecreasing(times)
    ensures |InWindow(l, Log(l, times), t)| <= Max(l.maxRequests, 0)
  {
    var s := InWindow(l, Log(l, times), t);
    if s != {} {
      RunSpaced(l, times);
      var lo := Least(s);
      RangeSize(s, lo, Max(l.maxRequests, 0));
    }
  }

  lemma {:induction false} Least(s: set<nat>) returns (x: nat)
    requires s != {}
    ensures x in s && forall y :: y in s ==> x <= y
  {
    x :| x in s;
    var rest := s - {x};
    assert s == rest + {x};
    if rest != {} {
      var y := Least(rest);
      x := if y < x then y else x;
    }
  }

  /** What a trimmed window holds is what the log has in the window that ends now. */
  lemma TrimmedCount(l: Limit, log: seq<nat>, window: seq<nat>, last: nat, now: nat)
    requires TailOfLog(l, log, window, last) && last <= now && Nondecreasing(log)
    ensures |InWindow(l, log, now)| == |Recent(window, now - l.Window())|
  {
    TrimmedTail(l, log, window, last, now);
    var k := |Recent(window, now - l.Window())|;
    FullRangeSize(InWindow(l, log, now), |log| - k, k);
  }

  /** A request is refused exactly when the window that ends with it already holds all it may. */
  lemma RefusedIff(l: Limit, before: seq<nat>, now: nat)
    requires Nondecreasing(before) && (before != [] ==> before[|before| - 1] <= now)
    ensures !Allowed(l, before, now) <==> |InWindow(l, Log(l, before), now)| == Max(l.maxRequests, 0)
  {
    WindowBound(l, before, now);
    if before != [] {
      RunSpaced(l, before);
      TrimmedCount(l, Log(l, before), Run(l, before), before[|before| - 1], now);
    }
  }

  // ---------- the Redis script ----------

  /** A sorted set whose members are their own scores, and when its key goes. */
  datatype ZSet = ZSet(members: set<nat>, expireAt: int)

  function Present(z: ZSet, now: nat): set<nat> {
    if now < z.expireAt then z.members else {}
  }

  function ScriptStep(l: Limit, z: ZSet, now: nat): (ZSet, bool) {
    var kept := set m | m in Present(z, now) && m > now - l.Window();
    if |kept| >= l.maxRequests then (ZSet(kept, now + l.Window()), false)
    else (ZSet(kept + {now}, now + l.Window()), true)
  }

  class RedisRateLimiter {
    var keys: map<string, ZSet>
    const limit: Limit

    constructor (windowSeconds: nat, maxRequests: int)
      ensures keys == map[] && limit == Limit(windowSeconds, maxRequests)
    {
      keys := map[];
      limit := Limit(windowSeconds, maxRequests);
    }

    method Allow(context: Context, now: nat) returns (ok: bool)
      modifies this
      ensures
        var key := "auth:rate-limit:" + BuildKey(context);
        var before := if key in old(keys) then old(keys)[key] else ZSet({}, now);
        keys == old(keys)[key := ScriptStep(limit, before, now).0] && ok == ScriptStep(limit, before, now).1
    {
      var key := "auth:rate-limit:" + BuildKey(context);
      var members := if key in keys then Present(keys[key], now) else {};
      var windowStart := now - limit.windowSeconds * 1000;
      members := set m | m in members && m > windowStart;
      if |members| >= limit.maxRequests {
        keys := keys[key := ZSet(members, now + limit.windowSeconds * 1000)];
        return false;
      }
      keys := keys[key := ZSet(members + {now}, now + limit.windowSeconds * 1000)];
      return true;
    }
  }

  ghost function ScriptRun(l: Limit, times: seq<nat>): ZSet {
    if times == [] then ZSet({}, 0) else ScriptStep(l, ScriptRun(l, times[..|times| - 1]), times[|times| - 1]).0
  }

  ghost predicate SameVerdicts(l: Limit, times: seq<nat>) {
    forall i :: 0 <= i < |times| ==>
      ScriptStep(l, ScriptRun(l, times[..i]), times[i]).1 == Allowed(l, times[..i], times[i])
  }

  /** Both hold the same timestamps, none twice, and the key outlasts them. */
  ghost predicate SameWindow(l: Limit, window: seq<nat>, z: ZSet, last: nat) {
    && NoDup(window) && (forall x :: x in window <==> x in z.members)
    && (forall x :: x in window ==> x <= last)
    && z.expireAt == last + l.Window()
  }

  lemma {:induction false} RecentElems(ts: seq<nat>, start: int)
    ensures forall x :: x in Recent(ts, start) <==> x in ts && x > start
    ensures NoDup(ts) ==> NoDup(Recent(ts, start))
  {
    if ts != [] {
      assert ts == [ts[0]] + ts[1..];
      RecentElems(ts[1..], start);
      NoDupCons(ts[0], ts[1..]);
      NoDupCons(ts[0], Recent(ts[1..], start));
    }
  }

  /** After trimming, both hold the same timestamps. */
  lemma TrimSame(l: Limit, window: seq<nat>, z: ZSet, last: nat, now: nat)
    requires SameWindow(l, window, z, last) && last <= now
    ensures
      var kept := Recent(window, now - l.Window());
      var members := set m | m in Present(z, now) && m > now - l.Window();
      && NoDup(kept) && (forall x :: x in kept <==> x in members) && |kept| == |members|
      && (forall x :: x in kept ==> x in window)
  {
    var start := now - l.Window();
    RecentElems(window, start);
    var members := set m | m in Present(z, now) && m > start;
    NoDupSize(Recent(window, start), members);
  }

  lemma NoDupSnoc(s: seq<nat>, x: nat)
    requires NoDup(s) && x !in s
    ensures NoDup(s + [x])
  {
  }

  lemma StepSame(l: Limit, window: seq<nat>, z: ZSet, last: nat, now: nat)
    requires SameWindow(l, window, z, last) && last <= now && (last < now || l.maxRequests <= 1 || window == [])
    ensures ScriptStep(l, z, now).1 == Step(l, window, now).1
    ensures SameWindow(l, Step(l, window, now).0, ScriptStep(l, z, now).0, now)
  {
    var kept := Recent(window, now - l.Window());
    TrimSame(l, window, z, last, now);
    if |kept| < l.maxRequests {
      assert now !in kept;
      NoDupSnoc(kept, now);
    }
  }

  lemma {:induction false} RunSame(l: Limit, times: seq<nat>)
    requires Nondecreasing(times) && (Increasing(times) || l.maxRequests <= 1) && times != []
    ensures SameWindow(l, Run(l, times), ScriptRun(l, times), times[|times| - 1])
    ensures ScriptStep(l, ScriptRun(l, times[..|times| - 1]), times[|times| - 1]).1 ==
      Allowed(l, times[..|times| - 1], times[|times| - 1])
  {
    var before, now := times[..|times| - 1], times[|times| - 1];
    if before == [] {
      assert forall m :: m in Present(ZSet({}, 0), now) ==> false;
      StepSame(l, [], ZSet({}, now + l.Window()), now, now);
      assert ScriptStep(l, ZSet({}, 0), now) == ScriptStep(l, ZSet({}, now + l.Window()), now);
    } else {
      RunSame(l, before);
      RunSpaced(l, before);
      StepSame(l, Run(l, before), ScriptRun(l, before), before[|before| - 1], now);
    }
  }

  /**
   When no two requests of a key fall in one millisecond, the script and the in-memory limiter give the
   same verdicts: the key's expiry never drops a request still in the window.
   */
  lemma SameWhenIncreasing(l: Limit, times: seq<nat>)
    requires Increasing(times) || (Nondecreasing(times) && l.maxRequests <= 1)
    ensures SameVerdicts(l, times)
  {
    forall i | 0 <= i < |times|
      ensures ScriptStep(l, ScriptRun(l, times[..i]), times[i]).1 == Allowed(l, times[..i], times[i])
    {
      var upto := times[..i + 1];
      assert upto[..i] == times[..i];
      RunSame(l, upto);
    }
  }

  function Burst(n: nat): seq<nat> {
    seq(n, _ => 0)
  }

  lemma {:induction false} AllKept(n: nat, start: int)
    requires start < 0
    ensures Recent(Burst(n), start) == Burst(n)
  {
    if n > 0 {
      assert Burst(n)[1..] == Burst(n - 1) && [0] + Burst(n - 1) == Burst(n);
      AllKept(n - 1, start);
    }
  }

  lemma BurstStep(l: Limit, k: nat, z: ZSet)
    requires l.windowSeconds > 0 && k < l.maxRequests && l.maxRequests >= 2
    requires z == if k == 0 then ZSet({}, 0) else ZSet({0}, l.Window())
    ensures Step(l, Burst(k), 0) == (Burst(k + 1), true)
    ensures ScriptStep(l, z, 0) == (ZSet({0}, l.Window()), true)
  {
    AllKept(k, 0 - l.Window());
    assert Burst(k) + [0] == Burst(k + 1);
    var kept := set m | m in Present(z, 0) && m > 0 - l.Window();
    assert kept == if k == 0 then {} else {0};
    assert kept + {0} == {0};
  }

  ghost predicate AfterBurst(l: Limit, times: seq<nat>, k: nat) {
    && Run(l, times) == Burst(k)
    && ScriptRun(l, times) == if k == 0 then ZSet({}, 0) else ZSet({0}, l.Window())
  }

  lemma OneMoreInBurst(l: Limit, times: seq<nat>, k: nat)
    requires l.windowSeconds > 0 && k < l.maxRequests && l.maxRequests >= 2 && AfterBurst(l, times, k)
    ensures AfterBurst(l, times + [0], k + 1)
  {
    BurstStep(l, k, ScriptRun(l, times));
    assert (times + [0])[..|times|] == times;
  }

  lemma {:induction false} BurstStates(l: Limit, n: nat)
    requires l.windowSeconds > 0 && 0 <= n <= l.maxRequests && l.maxRequests >= 2
    ensures AfterBurst(l, Burst(n), n)
  {
    if n > 0 {
      BurstStates(l, n - 1);
      OneMoreInBurst(l, Burst(n - 1), n - 1);
      assert Burst(n) == Burst(n - 1) + [0];
    } else {
      assert Burst(0) == [];
    }
  }

  /** One request more than the limit, all in one millisecond: the script counts them as one. */
  lemma BurstDiffers(l: Limit)
    requires l.windowSeconds > 0 && l.maxRequests >= 2
    ensures Nondecreasing(Burst(l.maxRequests + 1)) && !SameVerdicts(l, Burst(l.maxRequests + 1))
  {
    var n := l.maxRequests;
    BurstStates(l, n);
    assert Burst(n + 1)[..n] == Burst(n);
    AllKept(n, 0 - l.Window());
    var kept := set m | m in Present(ScriptRun(l, Burst(n)), 0) && m > 0 - l.Window();
    assert kept == {0};
    assert ScriptStep(l, ScriptRun(l, Burst(n + 1)[..n]), Burst(n + 1)[n]).1 != Allowed(l, Burst(n + 1)[..n],
                                                                                        Burst(n + 1)[n]);
  }

  /** The two limiters agree on every run exactly when they admit at most one request, or have no window. */
  lemma AgreeIff(l: Limit)
    ensures (forall times :: Nondecreasing(times) ==> SameVerdicts(l, times)) <==> l.maxRequests <= 1 || l.windowSeconds == 0
  {
    if l.maxRequests <= 1 {
      forall times | Nondecreasing(times) ensures SameVerdicts(l, times) {
        SameWhenIncreasing(l, times);
      }
    } else if l.windowSeconds == 0 {
      forall times | Nondecreasing(times) ensures SameVerdicts(l, times) {
        NoWindow(l, times);
      }
    } else {
      BurstDiffers(l);
    }
  }

  lemma NoWindow(l: Limit, times: seq<nat>)
    requires l.windowSeconds == 0 && l.maxRequests > 1 && Nondecreasing(times)
    ensures SameVerdicts(l, times)
  {
    forall i | 0 <= i < |times|
      ensures ScriptStep(l, ScriptRun(l, times[..i]), times[i]).1 == Allowed(l, times[..i], times[i])
    {
      EmptyWindow(l, times, i);
    }
  }

  lemma {:induction false} RecentNone(ts: seq<nat>, start: int)
    requires forall x :: x in ts ==> x <= start
    ensures Recent(ts, start) == []
  {
    if ts != [] {
      assert ts[0] in ts && forall x :: x in ts[1..] ==> x in ts;
      RecentNone(ts[1..], start);
    }
  }

  lemma {:induction false} NothingAhead(l: Limit, times: seq<nat>)
    requires l.windowSeconds == 0 && l.maxRequests > 1 && Nondecreasing(times) && times != []
    ensures forall x :: x in Run(l, times) ==> x <= times[|times| - 1]
    ensures ScriptRun(l, times).expireAt == times[|times| - 1]
  {
    var before, now := times[..|times| - 1], times[|times| - 1];
    if before != [] {
      NothingAhead(l, before);
    }
    RecentElems(Run(l, before), now);
  }

  lemma EmptyWindow(l: Limit, times: seq<nat>, i: nat)
    requires l.windowSeconds == 0 && l.maxRequests > 1 && Nondecreasing(times) && i < |times|
    ensures ScriptStep(l, ScriptRun(l, times[..i]), times[i]).1 && Allowed(l, times[..i], times[i])
  {
    var before := times[..i];
    if before != [] {
      NothingAhead(l, before);
    }
    NothingKept(l, Run(l, before), ScriptRun(l, before), times[i]);
  }

  lemma NothingKept(l: Limit, window: seq<nat>, z: ZSet, now: nat)
    requires l.windowSeconds == 0 && l.maxRequests > 1
    requires (forall x :: x in window ==> x <= now) && z.expireAt <= now
    ensures ScriptStep(l, z, now).1 && Step(l, window, now).1
  {
    RecentNone(window, now);
    assert (set m | m in Present(z, now) && m > now - l.Window()) == {};
  }

  // ---------- the script's own window ----------

  ghost predicate ScriptAllowed(l: Limit, before: seq<nat>, now: nat) {
    ScriptStep(l, ScriptRun(l, before), now).1
  }

  /** The times of the requests the script allows. */
  ghost function ScriptLog(l: Limit, times: seq<nat>): seq<nat> {
    if times == [] then []
    else
      var before, now := times[..|times| - 1], times[|times| - 1];
      if ScriptAllowed(l, before, now) then ScriptLog(l, before) + [now] else ScriptLog(l, before)
  }

  lemma {:induction false} SameLog(l: Limit, times: seq<nat>)
    requires SameVerdicts(l, times)
    ensures ScriptLog(l, times) == Log(l, times)
  {
    hide Step, ScriptStep;
    if times != [] {
      var before := times[..|times| - 1];
      assert forall i :: 0 <= i < |before| ==> before[..i] == times[..i] && before[i] == times[i];
      SameLog(l, before);
      assert ScriptStep(l, ScriptRun(l, times[..|before|]), times[|before|]).1 == Allowed(l, before, times[|before|]);
    }
  }

  /** A burst within one millisecond is one member of the set, however long. */
  lemma {:induction false} BurstAllowed(l: Limit, n: nat)
    requires l.windowSeconds > 0 && l.maxRequests >= 2
    ensures ScriptRun(l, Burst(n)) == if n == 0 then ZSet({}, 0) else ZSet({0}, l.Window())
    ensures ScriptLog(l, Burst(n)) == Burst(n)
  {
    if n == 0 {
      assert Burst(0) == [];
    } else {
      BurstAllowed(l, n - 1);
      assert Burst(n) == Burst(n - 1) + [0] && Burst(n)[..|Burst(n)| - 1] == Burst(n - 1);
      OneMember(l, ScriptRun(l, Burst(n - 1)));
    }
  }

  lemma OneMember(l: Limit, z: ZSet)
    requires l.windowSeconds > 0 && l.maxRequests >= 2 && z in {ZSet({}, 0), ZSet({0}, l.Window())}
    ensures ScriptStep(l, z, 0) == (ZSet({0}, l.Window()), true)
  {
    var kept := set m | m in Present(z, 0) && m > 0 - l.Window();
    assert kept == z.members && kept + {0} == {0};
    SubsetSize(kept, {0});
  }

  lemma BurstInWindow(l: Limit, n: nat)
    requires l.windowSeconds > 0
    ensures |InWindow(l, Burst(n), 0)| == n
  {
    FullRangeSize(InWindow(l, Burst(n), 0), 0, n);
  }

  /** The script keeps to the limit in every window of every run exactly when it admits at most one request, or has no window. */
  lemma ScriptWindowIff(l: Limit)
    ensures (forall times, t :: Nondecreasing(times) ==> |InWindow(l, ScriptLog(l, times), t)| <= Max(l.maxRequests, 0))
            <==> l.maxRequests <= 1 || l.windowSeconds == 0
  {
    hide ScriptLog, Log, InWindow, SameVerdicts;
    if l.maxRequests <= 1 || l.windowSeconds == 0 {
      AgreeIff(l);
      forall times, t | Nondecreasing(times) ensures |InWindow(l, ScriptLog(l, times), t)| <= Max(l.maxRequests, 0) {
        SameLog(l, times);
        WindowBound(l, times, t);
      }
    } else {
      var times := Burst(l.maxRequests + 1);
      BurstAllowed(l, l.maxRequests + 1);
      BurstInWindow(l, l.maxRequests + 1);
      assert Nondecreasing(times) && |InWindow(l, ScriptLog(l, times), 0)| > Max(l.maxRequests, 0);
    }
  }
}
