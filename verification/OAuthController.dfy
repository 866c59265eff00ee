/**
 The token and device endpoints' handlers over the in-memory store, run without interruption: what a
 refresh, a code exchange or a device's poll does from end to end, and that a refresh is two steps of the
 interleaved grants. Names for the new pair are parameters; so is the hash of section 4.2 of RFC 7636.
 */
module OAuthController {
  import opened Js
  import opened OAuthStore
  import opened OAuthMemoryStore
  import A = AuthorizationGrant
  import D = DeviceGrant
  import R = OAuthRotation

  datatype Refresh = Renewed(token: Token) | MissingRefreshToken | InvalidRefreshToken | ReuseDetected

  function NewPair(accessToken: string, refreshToken: string, old': Token): Token {
    Token(accessToken, Some(refreshToken), R.EXPIRES_IN, old'.scope, old'.userId)
  }

  function RefreshGrant(s: Store, now: int, presented: Option<string>, accessToken: string, refreshToken: string,
                        uuid: string): (Store, Refresh) {
    if !Truthy(presented) then (s, MissingRefreshToken)
    else
      var (s1, answer) := ConsumeRefreshToken(s, now, presented.value);
      match answer
      case Reused(f) => (RevokeTokenFamily(s1, f), ReuseDetected)
      case Rotated(token, f) =>
        var pair := NewPair(accessToken, refreshToken, token);
        (SaveToken(s1, now, pair, Some(f), uuid), Renewed(pair))
      case _ => (s1, InvalidRefreshToken)
  }

  /** The names a new pair will have. */
  datatype Names = Names(accessToken: string, refreshToken: string, family: string)

  /** `generateToken` and `saveToken` of a grant that starts a family. */
  function Grant(s: Store, now: int, names: Names, scope: Option<string>, userId: Option<string>): Store {
    SaveToken(s, now, Token(names.accessToken, Some(names.refreshToken), R.EXPIRES_IN, scope, userId), None, names.family)
  }

  /**
   With new names, the token of a grant is found for an hour from the grant, with the user and scope it was
   granted for, and its refresh token rotates as long.
   */
  lemma GrantedIsFound(s: Store, now: int, names: Names, scope: Option<string>, userId: Option<string>, at: int)
    requires Consistent(s) && now <= at && names.refreshToken != ""
    requires FreshNames(s, Token(names.accessToken, Some(names.refreshToken), R.EXPIRES_IN, scope, userId))
    ensures
      var s', token := Grant(s, now, names, scope, userId),
                       Token(names.accessToken, Some(names.refreshToken), 3600, scope, userId);
      var lasts := now + 3600000 == 0 || at <= now + 3600000;
      && GetToken(s', at, names.accessToken).1 == (if lasts then Found(token) else Absent)
      && ConsumeRefreshToken(s', at, names.refreshToken).1 == if lasts then Rotated(token, names.family) else Absent
  {
    hide SaveToken, Consistent, FreshNames, GetToken, ConsumeRefreshToken;
    FoundUntil(s, now, Token(names.accessToken, Some(names.refreshToken), 3600, scope, userId), None, names.family, at);
  }

  lemma ConsumedFresh(s: Store, now: int, r: string, token: Token)
    requires Consistent(s) && FreshNames(s, token)
    ensures FreshNames(ConsumeRefreshToken(s, now, r).0, token)
  {
  }

  /** A pair that has not expired: what a presented refresh token needs to be known. */
  ghost predicate Known(s: Store, now: int, r: string) {
    && r in s.refresh && s.refresh[r].accessToken in s.tokens
    && var until := s.tokens[s.refresh[r].accessToken].expiresAt; until == 0 || now <= until
  }

  /**
   The answers to a refresh: an unused token of a pair that has not expired gives a new pair, under new names, for
   the same user, scope and family and for an hour; a used one ends its family; anything else is refused.
   */
  lemma RefreshAnswers(s: Store, now: int, presented: Option<string>, accessToken: string, refreshToken: string,
                       uuid: string, at: int)
    requires Consistent(s) && now <= at && refreshToken != ""
    requires FreshNames(s, Token(accessToken, Some(refreshToken), 3600, None, None))
    ensures
      var (s', answer) := RefreshGrant(s, now, presented, accessToken, refreshToken, uuid);
      (answer == MissingRefreshToken <==> presented.None? || presented.value == "")
      && (answer != MissingRefreshToken ==>
        var r := presented.value;
        && (answer == InvalidRefreshToken <==> !Known(s, now, r))
        && (answer == ReuseDetected <==> Known(s, now, r) && s.refresh[r].used)
        && (answer.Renewed? <==> Known(s, now, r) && !s.refresh[r].used)
        && (answer == ReuseDetected ==>
          forall x :: x in s'.refresh ==> s'.refresh[x].family != s.refresh[r].family)
        && (answer.Renewed? ==>
          var entry, old' := s.refresh[r], s.tokens[s.refresh[r].accessToken].token;
          var token, lasts := Token(accessToken, Some(refreshToken), 3600, old'.scope, old'.userId),
                              now + 3600000 == 0 || at <= now + 3600000;
          && answer.token == token
          && GetToken(s', at, accessToken).1 == (if lasts then Found(token) else Absent)
          && (entry.family != "" ==>
            ConsumeRefreshToken(s', at, refreshToken).1 == if lasts then Rotated(token, entry.family) else Absent)))
  {
    hide SaveToken, RevokeTokenFamily;
    if presented.Some? && presented.value != "" {
      var r := presented.value;
      var (s1, answer) := ConsumeRefreshToken(s, now, r);
      ConsumeKeeps(s, now, r);
      if answer.Rotated? {
        var token := NewPair(accessToken, refreshToken, answer.token);
        ConsumedFresh(s, now, r, token);
        FoundUntil(s1, now, token, Some(answer.family), uuid, at);
      } else if answer.Reused? {
        FamilyGone(s1, answer.family);
      }
    }
  }

  lemma FamilyGone(s: Store, f: string)
    requires Consistent(s)
    ensures forall x :: x in RevokeTokenFamily(s, f).refresh ==> RevokeTokenFamily(s, f).refresh[x].family != f
  {
  }

  class OAuth2Controller {
    const clientStore: InMemoryOAuth2ClientStore
    const hash: string -> string
    var deviceCodes: D.Codes

    constructor (clientStore: InMemoryOAuth2ClientStore, hash: string -> string)
      ensures this.clientStore == clientStore && this.hash == hash && deviceCodes == D.NO_CODES
    {
      this.clientStore := clientStore;
      this.hash := hash;
      deviceCodes := D.NO_CODES;
    }

    method SaveGrant(names: Names, scope: Option<string>, userId: Option<string>, now: int)
      requires clientStore.Valid()
      modifies clientStore`tokens, clientStore`refreshTokens, clientStore`tokenFamilies
      ensures clientStore.Valid() && clientStore.State() == Grant(old(clientStore.State()), now, names, scope, userId)
    {
      var token := Token(names.accessToken, Some(names.refreshToken), 3600, scope, userId);
      clientStore.SaveToken(token, None, names.family, now);
    }

    method HandleAuthorizationCode(req: A.TokenRequest, isPublic: bool, names: Names,
                                   now: int) returns (verdict: A.Verdict)
      requires clientStore.Valid()
      modifies clientStore
      ensures clientStore.Valid()
      ensures (clientStore.authorizationCodes, verdict)
           == A.Exchange(hash, old(clientStore.authorizationCodes), now, req, isPublic)
      ensures clientStore.State() ==
        if verdict.Granted? then
          Grant(old(clientStore.State()), now, names, verdict.authCode.scope, Some(verdict.authCode.userId))
        else old(clientStore.State())
    {
      if !Truthy(req.code) {
        return A.MissingCode;
      }
      var authCode := clientStore.ConsumeAuthorizationCode(req.code.value, now);
      if authCode.None? {
        return A.InvalidCode;
      }
      var c := authCode.value;
      if c.clientId != req.clientId {
        return A.ClientMismatch;
      }
      if Truthy(req.redirectUri) && c.redirectUri != req.redirectUri.value {
        return A.RedirectMismatch;
      }
      if Truthy(c.codeChallenge) {
        if !Truthy(req.codeVerifier) {
          return A.MissingVerifier;
        }
        if !A.VerifierFits(hash, req.codeVerifier.value, c.codeChallenge.value, c.codeChallengeMethod) {
          return A.InvalidVerifier;
        }
      } else if isPublic {
        return A.PkceRequired;
      }
      SaveGrant(names, c.scope, Some(c.userId), now);
      return A.Granted(c);
    }

    method DeviceAuthorize(deviceCode: string, userCode: string, clientId: string, scope: Option<string>, now: int)
      requires deviceCodes.Valid()
      modifies `deviceCodes
      ensures deviceCodes.Valid()
      ensures deviceCodes == D.Authorized(old(deviceCodes), now, deviceCode, userCode, clientId, scope)
    {
      var entry := D.DeviceCode(userCode, clientId, scope, now + 10 * 60 * 1000, false, None);
      deviceCodes := deviceCodes.Set(deviceCode, entry);
    }

    method DeviceVerify(userCode: string, userId: string, now: int) returns (answer: D.Verified)
      requires deviceCodes.Valid()
      modifies `deviceCodes
      ensures deviceCodes.Valid()
      ensures (deviceCodes, answer) == D.Verify(old(deviceCodes), now, userCode, userId)
    {
      if userCode == "" {
        return D.MissingUserCode;
      }
      var order := deviceCodes.order;
      for i := 0 to |order|
        invariant deviceCodes == old(deviceCodes)
        invariant forall j :: 0 <= j < i ==> !D.Awaits(deviceCodes, order[j], userCode)
      {
        var code := order[i];
        var entry := deviceCodes.m[code];
        if entry.userCode == userCode && !entry.authorized {
          D.FirstAwaitingFound(deviceCodes, order, i, userCode);
          if now > entry.expiresAt {
            deviceCodes.DeleteValid(code);
            deviceCodes := deviceCodes.Delete(code);
            return D.UserCodeExpired;
          }
          deviceCodes := deviceCodes.Set(code, entry.(authorized := true, userId := Some(userId)));
          return D.Success;
        }
      }
      D.FirstAwaitingNone(deviceCodes, order, userCode);
      return D.InvalidUserCode;
    }

    method HandleDeviceCodeToken(code: string, names: Names, now: int) returns (answer: D.Polled)
      requires deviceCodes.Valid() && clientStore.Valid()
      modifies `deviceCodes, clientStore`tokens, clientStore`refreshTokens, clientStore`tokenFamilies
      ensures deviceCodes.Valid() && clientStore.Valid()
      ensures (deviceCodes, answer) == D.Poll(old(deviceCodes), now, code)
      ensures clientStore.State() ==
        if answer.Issued? then Grant(old(clientStore.State()), now, names, answer.scope, answer.userId)
        else old(clientStore.State())
    {
      if code == "" {
        return D.MissingDeviceCode;
      }
      if code !in deviceCodes.m {
        return D.InvalidDeviceCode;
      }
      var entry := deviceCodes.m[code];
      deviceCodes.DeleteValid(code);
      if now > entry.expiresAt {
        deviceCodes := deviceCodes.Delete(code);
        return D.DeviceCodeExpired;
      }
      if !entry.authorized {
        return D.AuthorizationPending;
      }
      deviceCodes := deviceCodes.Delete(code);
      SaveGrant(names, entry.scope, entry.userId, now);
      return D.Issued(entry.userId, entry.scope);
    }

    method HandleRefreshToken(presented: Option<string>, accessToken: string, refreshToken: string,
                              uuid: string, now: int)
      returns (outcome: Refresh)
      requires clientStore.Valid()
      modifies clientStore`tokens, clientStore`refreshTokens, clientStore`tokenFamilies
      ensures clientStore.Valid()
      ensures (clientStore.State(), outcome)
           == RefreshGrant(old(clientStore.State()), now, presented, accessToken, refreshToken, uuid)
    {
      hide NoEmptyFamily, RevokeTokenFamily, SaveToken, ConsumeRefreshToken;
      if !Truthy(presented) {
        return MissingRefreshToken;
      }
      var result := clientStore.ConsumeRefreshToken(presented.value, now);
      if result.Reused? {
        clientStore.RevokeTokenFamily(result.family);
        return ReuseDetected;
      }
      if !result.Rotated? {
        return InvalidRefreshToken;
      }
      var token := Token(accessToken, Some(refreshToken), 3600, result.token.scope, result.token.userId);
      clientStore.SaveToken(token, Some(result.family), uuid, now);
      return Renewed(token);
    }
  }

  /** The events of one refresh by process p that nothing comes between. */
  ghost function Uninterrupted(s: R.Sys, p: nat, presented: string, accessToken: string,
                               refreshToken: string): seq<R.Event> {
    var reused := ConsumeRefreshToken(s.store, s.now, presented).1.Reused?;
    [R.Present(p, presented), if reused then R.Revoke(p) else R.Rotate(p, accessToken, refreshToken)]
  }

  /** The handler run in one piece is a consumption followed at once by a save or a revocation. */
  lemma RefreshIsTwoSteps(s: R.Sys, p: nat, presented: string, accessToken: string, refreshToken: string, uuid: string)
    requires R.Inv(s) && p !in s.inflight && p !in s.revoking && presented != ""
    requires R.FreshPair(s, accessToken, refreshToken)
    ensures R.RunFrom(s, Uninterrupted(s, p, presented, accessToken, refreshToken)).store
         == RefreshGrant(s.store, s.now, Some(presented), accessToken, refreshToken, uuid).0
  {
    var es := Uninterrupted(s, p, presented, accessToken, refreshToken);
    RunTwo(s, es[0], es[1]);
    assert es == [es[0], es[1]];
    TwoSteps(s, es[0], es[1], accessToken, refreshToken, uuid);
  }

  lemma RunTwo(s: R.Sys, e0: R.Event, e1: R.Event)
    ensures R.RunFrom(s, [e0, e1]) == R.Apply(R.Apply(s, e0), e1)
  {
    hide R.Apply;
    assert [e0, e1][..1] == [e0] && [e0][..0] == [];
    assert R.RunFrom(s, [e0]) == R.Apply(s, e0);
  }

  lemma TwoSteps(s: R.Sys, e0: R.Event, e1: R.Event, accessToken: string, refreshToken: string, uuid: string)
    requires R.Inv(s) && e0.Present? && e0.pid !in s.inflight && e0.pid !in s.revoking && e0.presented != ""
    requires R.FreshPair(s, accessToken, refreshToken)
    requires e1 == if ConsumeRefreshToken(s.store, s.now, e0.presented).1.Reused? then R.Revoke(e0.pid)
                   else R.Rotate(e0.pid, accessToken, refreshToken)
    ensures R.Apply(R.Apply(s, e0), e1).store
         == RefreshGrant(s.store, s.now, Some(e0.presented), accessToken, refreshToken, uuid).0
  {
    hide R.Control, R.OnePerFamily, Consistent, RevokeTokenFamily, SaveToken;
    var answer := ConsumeRefreshToken(s.store, s.now, e0.presented).1;
    if answer.Rotated? {
      SavedUnderFamily(ConsumeRefreshToken(s.store, s.now, e0.presented).0, s.now,
                       NewPair(accessToken, refreshToken, answer.token), answer.family, uuid);
    }
  }

  lemma SavedUnderFamily(s: Store, now: int, token: Token, f: string, uuid: string)
    requires f != ""
    ensures SaveToken(s, now, token, Some(f), uuid) == SaveToken(s, now, token, Some(f), "")
  {
  }
}
