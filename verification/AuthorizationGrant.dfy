/**
 The authorization code grant (section 4.1 of RFC 6749) with PKCE: a code is given out to a signed-in user
 and exchanged once for a token. Codes are asked for and presented in any order while the clock moves.
 The S256 hash is a parameter.
 */
module AuthorizationGrant {
  import opened Js

  const CODE_LIFETIME_MS: int := 600000

  datatype Method = Plain | S256

  datatype AuthorizationCode = AuthorizationCode(
    code: string, clientId: string, userId: string, redirectUri: string, expiresAt: int, scope: Option<string>,
    codeChallenge: Option<string>, codeChallengeMethod: Option<Method>)

  type Codes = map<string, AuthorizationCode>

  datatype TokenRequest = TokenRequest(code: Option<string>, clientId: string, redirectUri: Option<string>,
                                       codeVerifier: Option<string>)

  datatype Verdict =
    | Granted(authCode: AuthorizationCode)
    | MissingCode | InvalidCode | ClientMismatch | RedirectMismatch | MissingVerifier | InvalidVerifier | PkceRequired

  /** Whatever the answer, the code is gone afterwards; an expired one answers nothing. */
  function Consume(codes: Codes, now: int, code: string): (Codes, Option<AuthorizationCode>) {
    if code !in codes then (codes, None)
    else (codes - {code}, if now > codes[code].expiresAt then None else Some(codes[code]))
  }

  predicate VerifierFits(hash: string -> string, verifier: string, challenge: string, how: Option<Method>) {
    (if how == Some(Plain) then verifier else hash(verifier)) == challenge
  }

  /** What is checked of a code once it has been consumed, in this order. */
  function Check(hash: string -> string, authCode: AuthorizationCode, req: TokenRequest, isPublic: bool): Verdict {
    if authCode.clientId != req.clientId then ClientMismatch
    else if Truthy(req.redirectUri) && authCode.redirectUri != req.redirectUri.value then RedirectMismatch
    else if Truthy(authCode.codeChallenge) then
      if !Truthy(req.codeVerifier) then MissingVerifier
      else if !VerifierFits(hash, req.codeVerifier.value, authCode.codeChallenge.value, authCode.codeChallengeMethod) then
        InvalidVerifier
      else Granted(authCode)
    else if isPublic then PkceRequired
    else Granted(authCode)
  }

  function Exchange(hash: string -> string, codes: Codes, now: int, req: TokenRequest, isPublic: bool): (Codes, Verdict) {
    if !Truthy(req.code) then (codes, MissingCode)
    else
      var (codes', authCode) := Consume(codes, now, req.code.value);
      (codes', match authCode case None => InvalidCode case Some(c) => Check(hash, c, req, isPublic))
  }

  // ---------- runs ----------

  datatype Event =
    | Ask(given: AuthorizationCode)
    | Present(req: TokenRequest, isPublic: bool)
    | Tick(d: nat)

  /** `asked` is every code ever given out; none is given out twice. */
  datatype Sys = Sys(now: int, codes: Codes, asked: set<string>)

  ghost function Stamped(now: int, c: AuthorizationCode): AuthorizationCode {
    c.(expiresAt := now + CODE_LIFETIME_MS)
  }

  ghost function Apply(hash: string -> string, s: Sys, e: Event): Sys {
    match e
    case Ask(c) =>
      if c.code == "" || c.code in s.asked then s
      else s.(codes := s.codes[c.code := Stamped(s.now, c)], asked := s.asked + {c.code})
    case Present(req, isPublic) => s.(codes := Exchange(hash, s.codes, s.now, req, isPublic).0)
    case Tick(d) => s.(now := s.now + d)
  }

  ghost function Run(hash: string -> string, now: int, events: seq<Event>): Sys {
    if events == [] then Sys(now, map[], {})
    else Apply(hash, Run(hash, now, events[..|events| - 1]), events[|events| - 1])
  }

  ghost predicate GivesOut(s: Sys, e: Event, code: string) {
    e.Ask? && e.given.code == code && code != "" && code !in s.asked
  }

  /** The event presents a code already given out. */
  ghost predicate Tries(s: Sys, e: Event, code: string) {
    e.Present? && e.req.code == Some(code) && code in s.asked
  }

  ghost predicate Grants(hash: string -> string, s: Sys, e: Event, code: string) {
    e.Present? && e.req.code == Some(code) && Exchange(hash, s.codes, s.now, e.req, e.isPublic).1.Granted?
  }

  /** A code and when it was given out. */
  datatype Giving = Giving(at: int, given: AuthorizationCode)

  ghost function Given(hash: string -> string, now: int, events: seq<Event>, code: string): Option<Giving> {
    if events == [] then None
    else
      var before, e := events[..|events| - 1], events[|events| - 1];
      if GivesOut(Run(hash, now, before), e, code) then Some(Giving(Run(hash, now, before).now, e.given))
      else Given(hash, now, before, code)
  }

  /** The code has been presented since it was given out. */
  ghost predicate Tried(hash: string -> string, now: int, events: seq<Event>, code: string) {
    exists i :: 0 <= i < |events| && Tries(Run(hash, now, events[..i]), events[i], code)
  }

  ghost predicate Told(s: Sys, code: string, given: Option<Giving>, tried: bool) {
    && (code in s.asked <==> given.Some?) && (tried ==> given.Some?)
    && (code in s.codes <==> given.Some? && !tried)
    && (code in s.codes ==> s.codes[code] == given.value.given.(expiresAt := given.value.at + 600000))
  }

  lemma StepTold(hash: string -> string, s: Sys, e: Event, code: string, given: Option<Giving>, tried: bool)
    requires Told(s, code, given, tried) && code != ""
    ensures Told(Apply(hash, s, e), code, if GivesOut(s, e, code) then Some(Giving(s.now, e.given)) else given,
                 tried || Tries(s, e, code))
  {
  }

  lemma TriedSnoc(hash: string -> string, now: int, events: seq<Event>, e: Event, code: string)
    ensures Tried(hash, now, events + [e], code)
            <==> Tried(hash, now, events, code) || Tries(Run(hash, now, events), e, code)
  {
    hide Tries, Run;
    var all := events + [e];
    assert all[..|events|] == events && all[|events|] == e;
    forall i | 0 <= i < |events| ensures all[..i] == events[..i] && all[i] == events[i] {
    }
    if Tried(hash, now, events, code) {
      var i :| 0 <= i < |events| && Tries(Run(hash, now, events[..i]), events[i], code);
      assert Tries(Run(hash, now, all[..i]), all[i], code);
    }
    if Tried(hash, now, all, code) {
      var i :| 0 <= i < |all| && Tries(Run(hash, now, all[..i]), all[i], code);
      assert i < |events| ==> Tries(Run(hash, now, events[..i]), events[i], code);
    }
  }

  /** In every run a code is there, as it was given out, exactly until it is first presented. */
  lemma {:induction false} RunTold(hash: string -> string, now: int, events: seq<Event>, code: string)
    requires code != ""
    ensures Told(Run(hash, now, events), code, Given(hash, now, events, code), Tried(hash, now, events, code))
  {
    if events != [] {
      hide Told, Apply, Tried, Tries, GivesOut;
      var before, e := events[..|events| - 1], events[|events| - 1];
      RunTold(hash, now, before, code);
      StepTold(hash, Run(hash, now, before), e, code, Given(hash, now, before, code), Tried(hash, now, before, code));
      assert before + [e] == events;
      TriedSnoc(hash, now, before, e, code);
    }
  }

  /** Given out, not presented before, and within its ten minutes. */
  ghost predicate Open(s: Sys, given: Option<Giving>, tried: bool) {
    given.Some? && !tried && s.now <= given.value.at + 600000
  }

  lemma AnswerTold(hash: string -> string, s: Sys, req: TokenRequest, isPublic: bool, code: string,
                   given: Option<Giving>, tried: bool)
    requires Told(s, code, given, tried) && code != "" && req.code == Some(code)
    ensures Exchange(hash, s.codes, s.now, req, isPublic).1 ==
      if Open(s, given, tried) then
        Check(hash, given.value.given.(expiresAt := given.value.at + 600000), req, isPublic)
      else InvalidCode
  {
  }

  /**
   The errors of a token request, in their order: no code; a code not given out, presented before or too old;
   another client's code; another redirect address than the code's; with a challenge, no verifier or one that
   does not fit, where `plain` compares it and anything else its hash; without one, a public client.
   */
  lemma AnsweredIff(hash: string -> string, now: int, events: seq<Event>, req: TokenRequest, isPublic: bool)
    ensures
      var s := Run(hash, now, events);
      var answer := Exchange(hash, s.codes, s.now, req, isPublic).1;
      (answer == MissingCode <==> req.code.None? || req.code.value == "")
      && (answer != MissingCode ==>
        var given, tried := Given(hash, now, events, req.code.value), Tried(hash, now, events, req.code.value);
        (answer == InvalidCode <==> !Open(s, given, tried))
        && (answer != InvalidCode ==>
          var c := given.value.given;
          var client := c.clientId == req.clientId;
          var redirect := req.redirectUri.Some? && req.redirectUri.value != "" ==> req.redirectUri.value == c.redirectUri;
          var challenged := c.codeChallenge.Some? && c.codeChallenge.value != "";
          var shown := req.codeVerifier.Some? && req.codeVerifier.value != "";
          var fits := shown && challenged
            && c.codeChallenge.value == (if c.codeChallengeMethod == Some(Plain) then req.codeVerifier.value
                                         else hash(req.codeVerifier.value));
          && (answer == ClientMismatch <==> !client)
          && (answer == RedirectMismatch <==> client && !redirect)
          && (answer == MissingVerifier <==> client && redirect && challenged && !shown)
          && (answer == InvalidVerifier <==> client && redirect && challenged && shown && !fits)
          && (answer == PkceRequired <==> client && redirect && !challenged && isPublic)
          && (answer.Granted? <==> client && redirect && if challenged then fits else !isPublic)))
  {
    hide *;
    var s := Run(hash, now, events);
    if req.code.Some? && req.code.value != "" {
      var code := req.code.value;
      RunTold(hash, now, events, code);
      var given, tried := Given(hash, now, events, code), Tried(hash, now, events, code);
      AnswerTold(hash, s, req, isPublic, code, given, tried);
      if Open(s, given, tried) {
        OpenGiven(s, given, tried);
        Checked(hash, given.value.given.(expiresAt := given.value.at + 600000), req, isPublic);
      }
    } else {
      TruthyMeans(req.code);
      NoneShown(hash, s.codes, s.now, req, isPublic);
    }
  }

  lemma TruthyMeans(o: Option<string>)
    ensures Truthy(o) <==> o.Some? && o.value != ""
  {
  }

  lemma OpenGiven(s: Sys, given: Option<Giving>, tried: bool)
    requires Open(s, given, tried)
    ensures given.Some?
  {
  }

  lemma NoneShown(hash: string -> string, codes: Codes, now: int, req: TokenRequest, isPublic: bool)
    requires !Truthy(req.code)
    ensures Exchange(hash, codes, now, req, isPublic).1 == MissingCode
  {
  }

  lemma Checked(hash: string -> string, c: AuthorizationCode, req: TokenRequest, isPublic: bool)
    ensures
      var answer := Check(hash, c, req, isPublic);
      var client := c.clientId == req.clientId;
      var redirect := req.redirectUri.Some? && req.redirectUri.value != "" ==> req.redirectUri.value == c.redirectUri;
      var challenged := c.codeChallenge.Some? && c.codeChallenge.value != "";
      var shown := req.codeVerifier.Some? && req.codeVerifier.value != "";
      var fits := shown && challenged
        && c.codeChallenge.value == (if c.codeChallengeMethod == Some(Plain) then req.codeVerifier.value
                                     else hash(req.codeVerifier.value));
      && answer != MissingCode && answer != InvalidCode
      && (answer == ClientMismatch <==> !client)
      && (answer == RedirectMismatch <==> client && !redirect)
      && (answer == MissingVerifier <==> client && redirect && challenged && !shown)
      && (answer == InvalidVerifier <==> client && redirect && challenged && shown && !fits)
      && (answer == PkceRequired <==> client && redirect && !challenged && isPublic)
      && (answer.Granted? <==> client && redirect && if challenged then fits else !isPublic)
      && (answer.Granted? ==> answer == Granted(c))
  {
  }

  /**
   A presentation is answered with a token exactly when the code was given out, was never presented before, is
   within its ten minutes, is the client's and for its redirect address if it sends one, and the verifier fits
   the challenge, or there is none and the client is not public. The token is for the user and scope the code
   was given out for.
   */
  lemma GrantedIff(hash: string -> string, now: int, events: seq<Event>, req: TokenRequest, isPublic: bool, code: string)
    requires code != "" && req.code == Some(code)
    ensures
      var s, giving := Run(hash, now, events), Given(hash, now, events, code);
      Grants(hash, s, Present(req, isPublic), code) <==>
        && giving.Some? && !Tried(hash, now, events, code) && s.now <= giving.value.at + 600000
        && var c := giving.value.given;
           && c.clientId == req.clientId
           && (req.redirectUri.Some? && req.redirectUri.value != "" ==> req.redirectUri.value == c.redirectUri)
           && if c.codeChallenge.Some? && c.codeChallenge.value != "" then
                && req.codeVerifier.Some? && req.codeVerifier.value != ""
                && (c.codeChallengeMethod == Some(Plain) ==> req.codeVerifier.value == c.codeChallenge.value)
                && (c.codeChallengeMethod != Some(Plain) ==> hash(req.codeVerifier.value) == c.codeChallenge.value)
              else !isPublic
    ensures
      var s, giving := Run(hash, now, events), Given(hash, now, events, code);
      Grants(hash, s, Present(req, isPublic), code) ==>
        var answer := Exchange(hash, s.codes, s.now, req, isPublic).1;
        && giving.Some? && answer.Granted?
        && answer.authCode.userId == giving.value.given.userId && answer.authCode.scope == giving.value.given.scope
  {
    hide *;
    var s, given := Run(hash, now, events), Given(hash, now, events, code);
    RunTold(hash, now, events, code);
    AnswerTold(hash, s, req, isPublic, code, given, Tried(hash, now, events, code));
    OpenIs(s, given, Tried(hash, now, events, code));
    GrantsIs(hash, s, req, isPublic, code);
    if given.Some? {
      Checked(hash, given.value.given.(expiresAt := given.value.at + 600000), req, isPublic);
    }
  }

  lemma OpenIs(s: Sys, given: Option<Giving>, tried: bool)
    ensures Open(s, given, tried) <==> given.Some? && !tried && s.now <= given.value.at + 600000
  {
  }

  lemma GrantsIs(hash: string -> string, s: Sys, req: TokenRequest, isPublic: bool, code: string)
    requires req.code == Some(code)
    ensures Grants(hash, s, Present(req, isPublic), code) <==> Exchange(hash, s.codes, s.now, req, isPublic).1.Granted?
  {
  }

  lemma GrantTries(hash: string -> string, s: Sys, e: Event, code: string, given: Option<Giving>, tried: bool)
    requires Told(s, code, given, tried) && Grants(hash, s, e, code)
    ensures Tries(s, e, code) && code != ""
  {
  }

  /** A code yields a token once at most, and never after a presentation that failed. */
  lemma FirstPresentationOnly(hash: string -> string, now: int, events: seq<Event>, j: nat, k: nat, code: string)
    requires j < k < |events| && code != "" && Tries(Run(hash, now, events[..j]), events[j], code)
    ensures !Grants(hash, Run(hash, now, events[..k]), events[k], code)
  {
    hide Run, Tries, Given, Told, Exchange;
    assert events[..k][..j] == events[..j] && events[..k][j] == events[j];
    assert Tried(hash, now, events[..k], code);
    RunTold(hash, now, events[..k], code);
    if events[k].Present? && events[k].req.code == Some(code) {
      AnswerTold(hash, Run(hash, now, events[..k]), events[k].req, events[k].isPublic, code,
                 Given(hash, now, events[..k], code), Tried(hash, now, events[..k], code));
    }
  }

  lemma GrantedOnce(hash: string -> string, now: int, events: seq<Event>, j: nat, k: nat, code: string)
    requires j < k < |events| && code != "" && Grants(hash, Run(hash, now, events[..j]), events[j], code)
    ensures !Grants(hash, Run(hash, now, events[..k]), events[k], code)
  {
    hide *;
    RunTold(hash, now, events[..j], code);
    GrantTries(hash, Run(hash, now, events[..j]), events[j], code, Given(hash, now, events[..j], code),
               Tried(hash, now, events[..j], code));
    FirstPresentationOnly(hash, now, events, j, k, code);
  }
}
