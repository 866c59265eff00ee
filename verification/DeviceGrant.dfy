/**
 The device grant (sections 3.4 and 3.5 of RFC 8628): a device asks for a code, a signed-in user confirms
 the user code, the device polls for its token. Any number of devices and users act in any order while
 the clock moves; each request is handled at one instant.
 */
module DeviceGrant {
  import opened Js

  const CODE_LIFETIME_MS: int := 600000

  datatype DeviceCode = DeviceCode(userCode: string, clientId: string, scope: Option<string>, expiresAt: int,
                                   authorized: bool, userId: Option<string>)

  type Codes = JsMap<string, DeviceCode>

  const NO_CODES: Codes := JsMap(map[], [])

  datatype Verified = Success | UserCodeExpired | InvalidUserCode | MissingUserCode

  datatype Polled =
    | Issued(userId: Option<string>, scope: Option<string>)
    | AuthorizationPending | DeviceCodeExpired | InvalidDeviceCode | MissingDeviceCode

  function Authorized(codes: Codes, now: int, code: string, userCode: string, clientId: string,
                      scope: Option<string>): Codes {
    codes.Set(code, DeviceCode(userCode, clientId, scope, now + CODE_LIFETIME_MS, false, None))
  }

  predicate Awaits(codes: Codes, code: string, userCode: string) {
    code in codes.m && codes.m[code].userCode == userCode && !codes.m[code].authorized
  }

  /** The code a confirmation of `userCode` goes to: the oldest that awaits it. */
  function FirstAwaiting(codes: Codes, order: seq<string>, userCode: string): (r: Option<string>)
    ensures r.Some? ==> Awaits(codes, r.value, userCode)
  {
    if order == [] then None
    else if Awaits(codes, order[0], userCode) then Some(order[0])
    else FirstAwaiting(codes, order[1..], userCode)
  }

  function Verify(codes: Codes, now: int, userCode: string, userId: string): (Codes, Verified) {
    if userCode == "" then (codes, MissingUserCode)
    else
      match FirstAwaiting(codes, codes.order, userCode)
      case None => (codes, InvalidUserCode)
      case Some(code) =>
        if now > codes.m[code].expiresAt then (codes.Delete(code), UserCodeExpired)
        else (codes.Set(code, codes.m[code].(authorized := true, userId := Some(userId))), Success)
  }

  function Poll(codes: Codes, now: int, code: string): (Codes, Polled) {
    if code == "" then (codes, MissingDeviceCode)
    else if code !in codes.m then (codes, InvalidDeviceCode)
    else if now > codes.m[code].expiresAt then (codes.Delete(code), DeviceCodeExpired)
    else if !codes.m[code].authorized then (codes, AuthorizationPending)
    else (codes.Delete(code), Issued(codes.m[code].userId, codes.m[code].scope))
  }

  lemma {:induction false} FirstAwaitingFound(codes: Codes, order: seq<string>, i: nat, userCode: string)
    requires i < |order| && Awaits(codes, order[i], userCode)
    requires forall j :: 0 <= j < i ==> !Awaits(codes, order[j], userCode)
    ensures FirstAwaiting(codes, order, userCode) == Some(order[i])
  {
    if i > 0 {
      FirstAwaitingFound(codes, order[1..], i - 1, userCode);
    }
  }

  lemma {:induction false} FirstAwaitingNone(codes: Codes, order: seq<string>, userCode: string)
    requires forall j :: 0 <= j < |order| ==> !Awaits(codes, order[j], userCode)
    ensures FirstAwaiting(codes, order, userCode) == None
  {
    if order != [] {
      FirstAwaitingNone(codes, order[1..], userCode);
    }
  }

  // ---------- runs ----------

  datatype Event =
    | Ask(code: string, userCode: string, clientId: string, scope: Option<string>)
    | Confirm(confirmed: string, userId: string)
    | PollFor(polled: string)
    | Tick(d: nat)

  /** `asked` is every device code ever given out; none is given out twice. */
  datatype Sys = Sys(now: int, codes: Codes, asked: set<string>)

  ghost function Apply(s: Sys, e: Event): Sys {
    match e
    case Ask(code, userCode, clientId, scope) =>
      if code == "" || code in s.asked then s
      else s.(codes := Authorized(s.codes, s.now, code, userCode, clientId, scope), asked := s.asked + {code})
    case Confirm(userCode, userId) => s.(codes := Verify(s.codes, s.now, userCode, userId).0)
    case PollFor(code) => s.(codes := Poll(s.codes, s.now, code).0)
    case Tick(d) => s.(now := s.now + d)
  }

  ghost function Run(now: int, events: seq<Event>): Sys {
    if events == [] then Sys(now, NO_CODES, {})
    else Apply(Run(now, events[..|events| - 1]), events[|events| - 1])
  }

  ghost predicate GivesOut(s: Sys, e: Event, code: string) {
    e.Ask? && e.code == code && code != "" && code !in s.asked
  }

  /** The event confirms this device code for a user. */
  ghost predicate Confirms(s: Sys, e: Event, code: string) {
    && e.Confirm? && e.confirmed != "" && FirstAwaiting(s.codes, s.codes.order, e.confirmed) == Some(code)
    && s.now <= s.codes.m[code].expiresAt
  }

  ghost predicate Issues(s: Sys, e: Event, code: string) {
    e.PollFor? && e.polled == code && Poll(s.codes, s.now, code).1.Issued?
  }

  // ---------- what a run says about one code ----------

  /** When a code was given out, and with what. */
  datatype Birth = Birth(at: int, userCode: string, clientId: string, scope: Option<string>)

  ghost function Born(now: int, events: seq<Event>, code: string): Option<Birth> {
    if events == [] then None
    else
      var before, e := events[..|events| - 1], events[|events| - 1];
      if GivesOut(Run(now, before), e, code) then Some(Birth(Run(now, before).now, e.userCode, e.clientId, e.scope))
      else Born(now, before, code)
  }

  /** The user who first confirmed the code. */
  ghost function FirstVerifier(now: int, events: seq<Event>, code: string): Option<string> {
    if events == [] then None
    else
      var before, e := events[..|events| - 1], events[|events| - 1];
      var earlier := FirstVerifier(now, before, code);
      if earlier.None? && Confirms(Run(now, before), e, code) then Some(e.userId) else earlier
  }

  /** The code has had its token. */
  ghost predicate Spent(now: int, events: seq<Event>, code: string) {
    exists i :: 0 <= i < |events| && Issues(Run(now, events[..i]), events[i], code)
  }

  /** One code's part of the state, against its history. */
  ghost predicate Told(s: Sys, code: string, born: Option<Birth>, verifier: Option<string>, spent: bool) {
    && (code in s.asked <==> born.Some?)
    && (born.None? ==> verifier.None? && !spent) && (spent ==> verifier.Some?)
    && (born.Some? ==> born.value.at <= s.now)
    && (code in s.codes.m ==> born.Some? && !spent && EntryTold(s.codes.m[code], born.value, verifier))
    && (code !in s.codes.m && born.Some? && !spent ==> s.now > born.value.at + 600000)
  }

  ghost predicate EntryTold(entry: DeviceCode, born: Birth, verifier: Option<string>) {
    && entry.expiresAt == born.at + 600000 && entry.userCode == born.userCode
    && entry.clientId == born.clientId && entry.scope == born.scope
    && entry.userId == verifier && (entry.authorized <==> verifier.Some?)
  }

  ghost function BornNext(s: Sys, e: Event, code: string, born: Option<Birth>): Option<Birth> {
    if GivesOut(s, e, code) then Some(Birth(s.now, e.userCode, e.clientId, e.scope)) else born
  }

  ghost function VerifierNext(s: Sys, e: Event, code: string, verifier: Option<string>): Option<string> {
    if verifier.None? && Confirms(s, e, code) then Some(e.userId) else verifier
  }

  lemma StepTold(s: Sys, e: Event, code: string, born: Option<Birth>, verifier: Option<string>, spent: bool)
    requires Told(s, code, born, verifier, spent) && code != ""
    ensures Told(Apply(s, e), code, BornNext(s, e, code, born), VerifierNext(s, e, code, verifier),
                 spent || Issues(s, e, code))
  {
  }

  lemma SpentSnoc(now: int, events: seq<Event>, e: Event, code: string)
    ensures Spent(now, events + [e], code) <==> Spent(now, events, code) || Issues(Run(now, events), e, code)
  {
    hide Issues, Run;
    var all := events + [e];
    assert all[..|events|] == events;
    forall i | 0 <= i < |events| ensures all[..i] == events[..i] && all[i] == events[i] {
    }
    if Issues(Run(now, events), e, code) {
      assert Issues(Run(now, all[..|events|]), all[|events|], code);
    }
    if Spent(now, events, code) {
      var i :| 0 <= i < |events| && Issues(Run(now, events[..i]), events[i], code);
      assert Issues(Run(now, all[..i]), all[i], code);
    }
    if Spent(now, all, code) {
      var i :| 0 <= i < |all| && Issues(Run(now, all[..i]), all[i], code);
      assert i < |events| ==> Issues(Run(now, events[..i]), events[i], code);
    }
  }

  /** In every run the state of a code is what its history says. */
  lemma {:induction false} RunTold(now: int, events: seq<Event>, code: string)
    requires code != ""
    ensures Told(Run(now, events), code, Born(now, events, code), FirstVerifier(now, events, code),
                 Spent(now, events, code))
  {
    if events != [] {
      hide Told, Apply, Spent, Issues, Confirms, GivesOut;
      var before, e := events[..|events| - 1], events[|events| - 1];
      RunTold(now, before, code);
      StepTold(Run(now, before), e, code, Born(now, before, code), FirstVerifier(now, before, code),
               Spent(now, before, code));
      assert before + [e] == events;
      SpentSnoc(now, before, e, code);
    }
  }

  lemma PollTold(s: Sys, code: string, born: Option<Birth>, verifier: Option<string>, spent: bool)
    requires Told(s, code, born, verifier, spent) && code != ""
    ensures
      var answer := Poll(s.codes, s.now, code).1;
      var inTime := born.Some? && s.now <= born.value.at + 600000;
      && (answer.Issued? <==> verifier.Some? && !spent && inTime)
      && (answer.Issued? ==> answer == Issued(verifier, born.value.scope))
      && (answer == AuthorizationPending <==> verifier.None? && inTime)
      && (answer == DeviceCodeExpired <==> code in s.codes.m && !inTime)
      && (answer == InvalidDeviceCode <==> code !in s.codes.m)
  {
  }

  lemma IssuesIs(s: Sys, code: string)
    ensures Issues(s, PollFor(code), code) <==> Poll(s.codes, s.now, code).1.Issued?
  {
  }

  /**
   A poll is answered with a token exactly when the code was confirmed and has had no token yet, and ten
   minutes since it was given out are not over; the token is for the user who confirmed it first and the scope
   it was asked with. In time and not confirmed, the answer is to wait. A code past its time is reported so
   while it is there, and as unknown once it is gone.
   */
  lemma IssuesIff(now: int, events: seq<Event>, code: string)
    requires code != ""
    ensures
      var s, born, verifier := Run(now, events), Born(now, events, code), FirstVerifier(now, events, code);
      var answer := Poll(s.codes, s.now, code).1;
      var inTime := born.Some? && s.now <= born.value.at + 600000;
      && (Issues(s, PollFor(code), code) <==> verifier.Some? && !Spent(now, events, code) && inTime)
      && (Issues(s, PollFor(code), code) ==> born.Some? && answer == Issued(verifier, born.value.scope))
      && (answer == AuthorizationPending <==> verifier.None? && inTime)
      && (answer == DeviceCodeExpired <==> code in s.codes.m && !inTime)
      && (answer == InvalidDeviceCode <==> code !in s.codes.m)
  {
    hide *;
    RunTold(now, events, code);
    PollTold(Run(now, events), code, Born(now, events, code), FirstVerifier(now, events, code),
             Spent(now, events, code));
    IssuesIs(Run(now, events), code);
  }

  /** The first code in the order that was given this user code and is not confirmed. */
  ghost predicate FirstOf(codes: Codes, userCode: string, code: string) {
    exists i :: 0 <= i < |codes.order| && codes.order[i] == code
      && Unconfirmed(codes, code, userCode)
      && forall j :: 0 <= j < i ==> !Unconfirmed(codes, codes.order[j], userCode)
  }

  ghost predicate Unconfirmed(codes: Codes, code: string, userCode: string) {
    code in codes.m && codes.m[code].userCode == userCode && !codes.m[code].authorized
  }

  lemma {:induction false} FirstFound(codes: Codes, order: seq<string>, userCode: string) returns (i: nat)
    requires FirstAwaiting(codes, order, userCode).Some?
    ensures i < |order| && FirstAwaiting(codes, order, userCode) == Some(order[i]) && Awaits(codes, order[i], userCode)
    ensures forall j :: 0 <= j < i ==> !Awaits(codes, order[j], userCode)
  {
    if Awaits(codes, order[0], userCode) {
      i := 0;
    } else {
      var k := FirstFound(codes, order[1..], userCode);
      i := k + 1;
      assert forall j :: 0 < j < i ==> order[j] == order[1..][j - 1];
    }
  }

  lemma FirstAwaitingIff(codes: Codes, userCode: string, code: string)
    ensures FirstAwaiting(codes, codes.order, userCode) == Some(code) <==> FirstOf(codes, userCode, code)
  {
    if FirstAwaiting(codes, codes.order, userCode) == Some(code) {
      var i := FirstFound(codes, codes.order, userCode);
      assert forall j :: 0 <= j < i ==> !Awaits(codes, codes.order[j], userCode);
    }
    if FirstOf(codes, userCode, code) {
      var i :| 0 <= i < |codes.order| && codes.order[i] == code
        && Unconfirmed(codes, code, userCode)
        && forall j :: 0 <= j < i ==> !Unconfirmed(codes, codes.order[j], userCode);
      FirstAwaitingFound(codes, codes.order, i, userCode);
    }
  }

  /**
   A confirmation succeeds exactly when some code was given this user code and is not confirmed, and the first
   of them is within its time; it is the first that is confirmed. Past its time, that one is reported and goes.
   */
  lemma ConfirmsIff(s: Sys, userCode: string, userId: string, code: string)
    ensures Confirms(s, Confirm(userCode, userId), code)
            <==> userCode != "" && FirstOf(s.codes, userCode, code) && s.now <= s.codes.m[code].expiresAt
    ensures
      var answer := Verify(s.codes, s.now, userCode, userId).1;
      && (answer == MissingUserCode <==> userCode == "")
      && (answer == Success <==> exists c :: Confirms(s, Confirm(userCode, userId), c))
      && (answer == UserCodeExpired
          <==> userCode != "" && exists c :: FirstOf(s.codes, userCode, c) && s.now > s.codes.m[c].expiresAt)
      && (answer == InvalidUserCode <==> userCode != "" && forall c :: !FirstOf(s.codes, userCode, c))
  {
    hide FirstOf, FirstAwaiting;
    forall c ensures FirstAwaiting(s.codes, s.codes.order, userCode) == Some(c) <==> FirstOf(s.codes, userCode, c) {
      FirstAwaitingIff(s.codes, userCode, c);
    }
    var found := FirstAwaiting(s.codes, s.codes.order, userCode);
    if found.Some? {
      assert FirstOf(s.codes, userCode, found.value);
      if s.now <= s.codes.m[found.value].expiresAt {
        assert userCode != "" ==> Confirms(s, Confirm(userCode, userId), found.value);
      }
    }
  }

  // ---------- the story of one token ----------

  lemma IssuesNow(s: Sys, e: Event, code: string)
    requires Issues(s, e, code)
    ensures e == PollFor(code) && code != ""
  {
  }

  lemma {:induction false} BornAt(now: int, events: seq<Event>, code: string) returns (h: nat)
    requires Born(now, events, code).Some?
    ensures h < |events| && GivesOut(Run(now, events[..h]), events[h], code)
    ensures
      var e := events[h];
      Born(now, events, code) == Some(Birth(Run(now, events[..h]).now, e.userCode, e.clientId, e.scope))
  {
    hide GivesOut, Run;
    h := |events| - 1;
    if !GivesOut(Run(now, events[..h]), events[h], code) {
      h := BornAt(now, events[..|events| - 1], code);
      assert events[..|events| - 1][..h] == events[..h];
    }
  }

  lemma {:induction false} VerifierAt(now: int, events: seq<Event>, code: string) returns (i: nat)
    requires FirstVerifier(now, events, code).Some?
    ensures i < |events| && Confirms(Run(now, events[..i]), events[i], code)
    ensures FirstVerifier(now, events, code) == Some(events[i].userId)
  {
    hide Confirms, Run;
    i := |events| - 1;
    if FirstVerifier(now, events[..i], code).Some? {
      i := VerifierAt(now, events[..|events| - 1], code);
      assert events[..|events| - 1][..i] == events[..i];
    } else {
      ConfirmIs(Run(now, events[..i]), events[i], code);
    }
  }

  lemma ConfirmIs(s: Sys, e: Event, code: string)
    requires Confirms(s, e, code)
    ensures e.Confirm?
  {
  }

  lemma ConfirmTold(s: Sys, e: Event, code: string, born: Option<Birth>, verifier: Option<string>, spent: bool)
    requires Told(s, code, born, verifier, spent) && Confirms(s, e, code)
    ensures born.Some? && verifier.None? && e.confirmed == born.value.userCode
  {
  }

  /** Once confirmed, a code stays confirmed for the same user. */
  lemma {:induction false} VerifierStays(now: int, events: seq<Event>, k: nat, code: string)
    requires k <= |events| && FirstVerifier(now, events[..k], code).Some?
    ensures FirstVerifier(now, events, code) == FirstVerifier(now, events[..k], code)
    decreases |events|
  {
    hide Confirms, Run;
    if k < |events| {
      assert events[..|events| - 1][..k] == events[..k];
      VerifierStays(now, events[..|events| - 1], k, code);
    } else {
      assert events[..k] == events;
    }
  }

  lemma VerifierAfter(now: int, events: seq<Event>, i: nat, code: string)
    requires i < |events| && Confirms(Run(now, events[..i]), events[i], code)
    ensures FirstVerifier(now, events[..i + 1], code).Some?
  {
    hide Confirms, Run;
    ConfirmIs(Run(now, events[..i]), events[i], code);
    assert events[..i + 1][..i] == events[..i] && events[..i + 1][i] == events[i];
  }

  /** No code is confirmed twice. */
  lemma ConfirmedOnce(now: int, events: seq<Event>, i: nat, k: nat, code: string)
    requires i < k < |events| && code != "" && Confirms(Run(now, events[..i]), events[i], code)
    ensures !Confirms(Run(now, events[..k]), events[k], code)
  {
    hide *;
    if Confirms(Run(now, events[..k]), events[k], code) {
      VerifierAfter(now, events, i, code);
      assert events[..k][..i + 1] == events[..i + 1];
      VerifierStays(now, events[..k], i + 1, code);
      RunTold(now, events[..k], code);
      ConfirmTold(Run(now, events[..k]), events[k], code, Born(now, events[..k], code),
                  FirstVerifier(now, events[..k], code), Spent(now, events[..k], code));
    }
  }

  /** No code is given two tokens. */
  lemma IssuedOnce(now: int, events: seq<Event>, j: nat, k: nat, code: string)
    requires j < k < |events| && Issues(Run(now, events[..j]), events[j], code)
    ensures !Issues(Run(now, events[..k]), events[k], code)
  {
    hide Run, Issues, Born, FirstVerifier;
    assert events[..k][..j] == events[..j] && events[..k][j] == events[j];
    assert Spent(now, events[..k], code);
    if Issues(Run(now, events[..k]), events[k], code) {
      IssuesNow(Run(now, events[..k]), events[k], code);
      IssuesIff(now, events[..k], code);
    }
  }

  /**
   Behind every token stand one giving out of its code, then one confirmation, and no other ever; the
   token is the only one for its code, is for the user who confirmed, and is issued within ten minutes.
   */
  lemma TokenStory(now: int, events: seq<Event>, j: nat, code: string) returns (h: nat, i: nat)
    requires j < |events| && Issues(Run(now, events[..j]), events[j], code)
    ensures h < i < j
    ensures GivesOut(Run(now, events[..h]), events[h], code) && Confirms(Run(now, events[..i]), events[i], code)
    ensures
      var s := Run(now, events[..j]);
      && Poll(s.codes, s.now, code).1 == Issued(Some(events[i].userId), events[h].scope)
      && s.now <= Run(now, events[..h]).now + 600000 && events[i].confirmed == events[h].userCode
    ensures forall k :: 0 <= k < |events| && k != i ==> !Confirms(Run(now, events[..k]), events[k], code)
    ensures forall k :: 0 <= k < |events| && k != j ==> !Issues(Run(now, events[..k]), events[k], code)
  {
    hide *;
    var until := events[..j];
    IssuesNow(Run(now, until), events[j], code);
    IssuesIff(now, until, code);
    i := VerifierAt(now, until, code);
    assert until[..i] == events[..i];
    RunTold(now, events[..i], code);
    ConfirmTold(Run(now, events[..i]), events[i], code, Born(now, events[..i], code),
                FirstVerifier(now, events[..i], code), Spent(now, events[..i], code));
    h := BornAt(now, events[..i], code);
    assert events[..i][..h] == events[..h];
    BornStays(now, until, i, code);
    forall k | 0 <= k < |events| && k != i ensures !Confirms(Run(now, events[..k]), events[k], code) {
      if i < k {
        ConfirmedOnce(now, events, i, k, code);
      } else if Confirms(Run(now, events[..k]), events[k], code) {
        ConfirmedOnce(now, events, k, i, code);
      }
    }
    forall k | 0 <= k < |events| && k != j ensures !Issues(Run(now, events[..k]), events[k], code) {
      if j < k {
        IssuedOnce(now, events, j, k, code);
      } else if Issues(Run(now, events[..k]), events[k], code) {
        IssuedOnce(now, events, k, j, code);
      }
    }
  }

  lemma NotGivenOutAgain(s: Sys, e: Event, code: string, born: Option<Birth>, verifier: Option<string>, spent: bool)
    requires Told(s, code, born, verifier, spent) && born.Some?
    ensures !GivesOut(s, e, code)
  {
  }

  lemma {:induction false} BornStays(now: int, events: seq<Event>, k: nat, code: string)
    requires k <= |events| && code != "" && Born(now, events[..k], code).Some?
    ensures Born(now, events, code) == Born(now, events[..k], code)
    decreases |events|
  {
    hide GivesOut, Run, Told, FirstVerifier, Spent;
    if k < |events| {
      var before := events[..|events| - 1];
      assert before[..k] == events[..k];
      BornStays(now, before, k, code);
      RunTold(now, before, code);
      NotGivenOutAgain(Run(now, before), events[|events| - 1], code, Born(now, before, code),
                       FirstVerifier(now, before, code), Spent(now, before, code));
    } else {
      assert events[..k] == events;
    }
  }
}
