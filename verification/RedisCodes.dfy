/**
 One-time authorization codes in Redis. Consuming is a GET, a look at the clock and then a DEL, so other
 exchanges come in between: any number of exchanges, interleaved, with codes given out and vanishing.
 */
module RedisCodes {
  import opened AuthorizationGrant

  /** An exchange that has read a code and is about to delete it; `inTime` is whether it will answer with it. */
  datatype Exchanging = Exchanging(code: string, authCode: AuthorizationCode, inTime: bool)

  datatype Server = Server(now: int, codes: Codes, reading: map<nat, Exchanging>, given: set<string>)

  datatype Step =
    | Save(saved: AuthorizationCode)
    | Read(pid: nat, code: string)
    | Drop(pid: nat)
    | Vanish(gone: string)
    | Wait(d: nat)

  ghost function Next(s: Server, e: Step): Server {
    match e
    case Save(c) =>
      if c.code in s.given then s else s.(codes := s.codes[c.code := c], given := s.given + {c.code})
    case Read(p, code) =>
      if p in s.reading || code !in s.codes then s
      else s.(reading := s.reading[p := Exchanging(code, s.codes[code], s.now <= s.codes[code].expiresAt)])
    case Drop(p) =>
      if p in s.reading then s.(codes := s.codes - {s.reading[p].code}, reading := s.reading - {p}) else s
    case Vanish(code) => s.(codes := s.codes - {code})
    case Wait(d) => s.(now := s.now + d)
  }

  ghost function After(now: int, steps: seq<Step>): Server {
    if steps == [] then Server(now, map[], map[], {})
    else Next(After(now, steps[..|steps| - 1]), steps[|steps| - 1])
  }

  /** The step finds the code in time. */
  ghost predicate Hits(s: Server, e: Step, code: string) {
    e.Read? && e.code == code && e.pid !in s.reading && code in s.codes && s.now <= s.codes[code].expiresAt
  }

  /** The step answers an exchange with the code. */
  ghost predicate Redeems(s: Server, e: Step, code: string) {
    e.Drop? && e.pid in s.reading && s.reading[e.pid].code == code && s.reading[e.pid].inTime
  }

  /** The exchanges about to answer with the code. */
  ghost function Pending(s: Server, code: string): set<nat> {
    set p | p in s.reading && s.reading[p].code == code && s.reading[p].inTime
  }

  ghost function CountHits(now: int, steps: seq<Step>, code: string): nat {
    if steps == [] then 0
    else
      var before, e := steps[..|steps| - 1], steps[|steps| - 1];
      CountHits(now, before, code) + if Hits(After(now, before), e, code) then 1 else 0
  }

  /** How many exchanges the code was answered to. */
  ghost function CountRedeemed(now: int, steps: seq<Step>, code: string): nat {
    if steps == [] then 0
    else
      var before, e := steps[..|steps| - 1], steps[|steps| - 1];
      CountRedeemed(now, before, code) + if Redeems(After(now, before), e, code) then 1 else 0
  }

  /** Some exchange finds the code while another that found it has not deleted it yet. */
  ghost predicate Overlaps(now: int, steps: seq<Step>, code: string) {
    exists k :: 0 <= k < |steps| && Meets(After(now, steps[..k]), steps[k], code)
  }

  ghost predicate Meets(s: Server, e: Step, code: string) {
    Hits(s, e, code) && Pending(s, code) != {}
  }

  lemma PendingNext(s: Server, e: Step, code: string)
    ensures
      |Pending(Next(s, e), code)| + (if Redeems(s, e, code) then 1 else 0)
      == |Pending(s, code)| + (if Hits(s, e, code) then 1 else 0)
  {
    var s' := Next(s, e);
    if Hits(s, e, code) {
      assert Pending(s', code) == Pending(s, code) + {e.pid};
    } else if Redeems(s, e, code) {
      assert Pending(s', code) == Pending(s, code) - {e.pid};
    } else {
      assert Pending(s', code) == Pending(s, code);
    }
  }

  /** Every find is answered or about to be. */
  lemma {:induction false} Conserved(now: int, steps: seq<Step>, code: string)
    ensures CountHits(now, steps, code) == CountRedeemed(now, steps, code) + |Pending(After(now, steps), code)|
  {
    hide Hits, Redeems, Pending, Next;
    if steps == [] {
      NonePending(now, code);
    } else {
      var before, e := steps[..|steps| - 1], steps[|steps| - 1];
      Conserved(now, before, code);
      PendingNext(After(now, before), e, code);
    }
  }

  lemma NonePending(now: int, code: string)
    ensures |Pending(Server(now, map[], map[], {}), code)| == 0
  {
    assert Pending(Server(now, map[], map[], {}), code) == {};
  }

  /** Once found and no longer pending, a code is gone. */
  ghost predicate Used(s: Server, code: string) {
    code in s.given && (Pending(s, code) == {} ==> code !in s.codes)
  }

  lemma UsedStays(s: Server, e: Step, code: string)
    requires Used(s, code)
    ensures Used(Next(s, e), code)
  {
    if e.Drop? && e.pid in s.reading && s.reading[e.pid].code != code {
      assert Pending(Next(s, e), code) == Pending(s, code);
    } else if e.Read? && Next(s, e) != s {
      assert Pending(s, code) <= Pending(Next(s, e), code);
    } else if !e.Drop? {
      assert Pending(Next(s, e), code) == Pending(s, code);
    }
  }

  lemma HitUses(s: Server, e: Step, code: string)
    requires Hits(s, e, code) && code in s.given
    ensures Used(Next(s, e), code)
  {
    assert e.pid in Pending(Next(s, e), code);
  }

  lemma {:induction false} StoredWasGiven(now: int, steps: seq<Step>, code: string)
    ensures code in After(now, steps).codes ==> code in After(now, steps).given
  {
    if steps != [] {
      StoredWasGiven(now, steps[..|steps| - 1], code);
    }
  }

  lemma HitFindsGiven(s: Server, e: Step, code: string)
    requires Hits(s, e, code)
    ensures code in s.codes
  {
  }

  /** Without overlap a code is found once. */
  lemma {:induction false} SerialFindsOnce(now: int, steps: seq<Step>, code: string)
    requires !Overlaps(now, steps, code)
    ensures CountHits(now, steps, code) <= 1
    ensures CountHits(now, steps, code) == 1 ==> Used(After(now, steps), code)
  {
    hide Hits, Pending, Next, Meets;
    if steps != [] {
      var before, e := steps[..|steps| - 1], steps[|steps| - 1];
      var s := After(now, before);
      assert !Meets(After(now, steps[..|before|]), steps[|before|], code);
      ShorterSerial(now, steps, code);
      SerialFindsOnce(now, before, code);
      StoredWasGiven(now, before, code);
      if Hits(s, e, code) {
        HitFindsGiven(s, e, code);
        HitUses(s, e, code);
        NotMet(s, e, code);
      } else if CountHits(now, before, code) == 1 {
        UsedStays(s, e, code);
      }
    }
  }

  lemma NotMet(s: Server, e: Step, code: string)
    requires Hits(s, e, code) && !Meets(s, e, code)
    ensures Pending(s, code) == {}
  {
  }

  lemma ShorterSerial(now: int, steps: seq<Step>, code: string)
    requires steps != [] && !Overlaps(now, steps, code)
    ensures !Overlaps(now, steps[..|steps| - 1], code)
  {
    hide Meets, After;
    var before := steps[..|steps| - 1];
    forall k | 0 <= k < |before| ensures !Meets(After(now, before[..k]), before[k], code) {
      assert before[..k] == steps[..k] && before[k] == steps[k];
    }
  }

  lemma {:induction false} CountGrows(now: int, steps: seq<Step>, k: nat, code: string)
    requires k <= |steps|
    ensures CountHits(now, steps[..k], code) <= CountHits(now, steps, code)
    decreases |steps|
  {
    hide Hits, After;
    if k < |steps| {
      assert steps[..|steps| - 1][..k] == steps[..k];
      CountGrows(now, steps[..|steps| - 1], k, code);
    } else {
      assert steps[..k] == steps;
    }
  }

  lemma MeetingFindsTwice(now: int, steps: seq<Step>, k: nat, code: string)
    requires k < |steps| && Meets(After(now, steps[..k]), steps[k], code)
    ensures CountHits(now, steps, code) >= 2
  {
    hide Hits, After, Pending;
    var s := After(now, steps[..k]);
    Conserved(now, steps[..k], code);
    assert Pending(s, code) != {} && |Pending(s, code)| > 0;
    assert steps[..k + 1][..k] == steps[..k] && steps[..k + 1][k] == steps[k];
    assert CountHits(now, steps[..k + 1], code) == CountHits(now, steps[..k], code) + 1;
    CountGrows(now, steps, k + 1, code);
  }

  /**
   When every exchange has finished, a code has been answered once at most exactly when no exchange found it
   between another's reading it and deleting it.
   */
  lemma OneUseIff(now: int, steps: seq<Step>, code: string)
    requires Pending(After(now, steps), code) == {}
    ensures CountRedeemed(now, steps, code) <= 1 <==> !Overlaps(now, steps, code)
  {
    hide Pending, After, CountHits, CountRedeemed, Meets;
    Conserved(now, steps, code);
    if Overlaps(now, steps, code) {
      var k :| 0 <= k < |steps| && Meets(After(now, steps[..k]), steps[k], code);
      MeetingFindsTwice(now, steps, k, code);
    } else {
      SerialFindsOnce(now, steps, code);
    }
  }

  /** Two exchanges side by side. */
  function SideBySide(c: AuthorizationCode): seq<Step> {
    [Save(c), Read(0, c.code), Read(1, c.code), Drop(0), Drop(1)]
  }

  /** And indeed a code can be answered twice. */
  lemma AnsweredTwice(now: int, c: AuthorizationCode)
    requires now <= c.expiresAt
    ensures Pending(After(now, SideBySide(c)), c.code) == {} && CountRedeemed(now, SideBySide(c), c.code) == 2
  {
    hide After, CountRedeemed;
    var es := SideBySide(c);
    FiveSteps(now, es);
    var s1 := Next(Server(now, map[], map[], {}), es[0]);
    var s3 := Next(Next(s1, es[1]), es[2]);
    assert s3.reading == map[0 := Exchanging(c.code, c, true), 1 := Exchanging(c.code, c, true)];
    var s5 := Next(Next(s3, es[3]), es[4]);
    assert s5.reading == map[];
    CountFive(now, es, c.code);
  }

  lemma FiveSteps(now: int, es: seq<Step>)
    requires |es| == 5
    ensures After(now, es[..0]) == Server(now, map[], map[], {}) && es[..5] == es
    ensures forall k: nat :: k < 5 ==> After(now, es[..k + 1]) == Next(After(now, es[..k]), es[k])
  {
    hide Next;
    forall k: nat | k < 5 ensures After(now, es[..k + 1]) == Next(After(now, es[..k]), es[k]) {
      assert es[..k + 1][..k] == es[..k];
    }
  }

  lemma CountFive(now: int, es: seq<Step>, code: string)
    requires |es| == 5
    ensures CountRedeemed(now, es, code) ==
      (if Redeems(After(now, es[..0]), es[0], code) then 1 else 0)
      + (if Redeems(After(now, es[..1]), es[1], code) then 1 else 0)
      + (if Redeems(After(now, es[..2]), es[2], code) then 1 else 0)
      + (if Redeems(After(now, es[..3]), es[3], code) then 1 else 0)
      + (if Redeems(After(now, es[..4]), es[4], code) then 1 else 0)
  {
    hide Redeems, After;
    assert es[..5] == es;
    forall k: nat | k < 5
      ensures CountRedeemed(now, es[..k + 1], code)
           == CountRedeemed(now, es[..k], code) + if Redeems(After(now, es[..k]), es[k], code) then 1 else 0
    {
      assert es[..k + 1][..k] == es[..k];
    }
    assert CountRedeemed(now, es[..0], code) == 0;
  }

  lemma AfterTwo(now: int, e0: Step, e1: Step)
    ensures After(now, [e0, e1]) == Next(Next(Server(now, map[], map[], {}), e0), e1)
  {
    hide Next;
    assert [e0, e1][..1] == [e0] && [e0][..0] == [];
    assert After(now, [e0]) == Next(After(now, []), e0);
  }

  /** An exchange that nothing comes between is answered exactly when its code was saved, is in time and is there. */
  lemma AloneIff(now: int, c: AuthorizationCode, d: nat, p: nat, code: string)
    ensures
      var s := After(now, [Save(c), Wait(d)]);
      Redeems(Next(s, Read(p, code)), Drop(p), code) <==> code == c.code && now + d <= c.expiresAt
    ensures !Redeems(Next(After(now, [Save(c), Vanish(c.code)]), Read(p, code)), Drop(p), code)
  {
    AfterTwo(now, Save(c), Wait(d));
    AfterTwo(now, Save(c), Vanish(c.code));
  }
}
