/**
 The in-memory OAuth2 store: the object that keeps the three maps and the one-time
 authorization codes, updated in place.
 */
module OAuthMemoryStore {
  import opened Js
  import opened OAuthStore
  import AuthorizationGrant

  type AuthorizationCode = AuthorizationGrant.AuthorizationCode

  class InMemoryOAuth2ClientStore {
    var tokens: map<string, Stored>
    var refreshTokens: map<string, Entry>
    var tokenFamilies: map<string, set<string>>
    var authorizationCodes: map<string, AuthorizationCode>

    ghost function State(): Store
      reads this
    {
      Store(tokens, refreshTokens, tokenFamilies)
    }

    ghost predicate Valid()
      reads this
    {
      NoEmptyFamily(State())
    }

    constructor ()
      ensures Valid() && State() == EMPTY && authorizationCodes == map[]
    {
      tokens, refreshTokens, tokenFamilies := map[], map[], map[];
      authorizationCodes := map[];
    }

    /** The code saved is what consuming it answers, until it expires; the other codes are as they were. */
    method SaveAuthorizationCode(code: AuthorizationCode)
      modifies `authorizationCodes
      ensures forall now :: AuthorizationGrant.Consume(authorizationCodes, now, code.code).1
                            == if now > code.expiresAt then None else Some(code)
      ensures authorizationCodes - {code.code} == old(authorizationCodes) - {code.code}
    {
      authorizationCodes := authorizationCodes[code.code := code];
    }

    method ConsumeAuthorizationCode(code: string, now: int) returns (r: Option<AuthorizationCode>)
      modifies `authorizationCodes
      ensures (authorizationCodes, r) == AuthorizationGrant.Consume(old(authorizationCodes), now, code)
    {
      if code !in authorizationCodes {
        return None;
      }
      var authCode := authorizationCodes[code];
      if now > authCode.expiresAt {
        authorizationCodes := authorizationCodes - {code};
        return None;
      }
      authorizationCodes := authorizationCodes - {code};
      return Some(authCode);
    }

    method SaveToken(token: Token, family: Option<string>, uuid: string, now: int)
      requires Valid()
      modifies `tokens, `refreshTokens, `tokenFamilies
      ensures Valid()
      ensures State() == OAuthStore.SaveToken(old(State()), now, token, family, uuid)
    {
      tokens := tokens[token.accessToken := Stored(token, now + token.expiresIn * 1000)];
      if Truthy(token.refreshToken) {
        var r := token.refreshToken.value;
        var tokenFamily := if Truthy(family) then family.value else uuid;
        refreshTokens := refreshTokens[r := Entry(token.accessToken, tokenFamily, false)];
        if tokenFamily !in tokenFamilies {
          tokenFamilies := tokenFamilies[tokenFamily := {}];
        }
        tokenFamilies := tokenFamilies[tokenFamily := tokenFamilies[tokenFamily] + {r}];
      }
      assert State() == Insert(old(State()), now, token, FamilyFor(family, uuid));
      EvictExpiredTokens(now);
    }

    method GetToken(accessToken: string, now: int) returns (answer: Answer)
      requires Valid()
      modifies `tokens
      ensures Valid()
      ensures (State(), answer) == OAuthStore.GetToken(old(State()), now, accessToken)
    {
      if accessToken !in tokens {
        return Absent;
      }
      if Expired(tokens[accessToken], now) {
        tokens := tokens - {accessToken};
        return Absent;
      }
      return Found(tokens[accessToken].token);
    }

    method ConsumeRefreshToken(refreshToken: string, now: int) returns (answer: Answer)
      requires Valid()
      modifies `tokens, `refreshTokens, `tokenFamilies
      ensures Valid()
      ensures (State(), answer) == OAuthStore.ConsumeRefreshToken(old(State()), now, refreshToken)
    {
      if refreshToken !in refreshTokens {
        return Absent;
      }
      var entry := refreshTokens[refreshToken];
      if entry.accessToken !in tokens {
        return Absent;
      }
      var token := tokens[entry.accessToken];
      if Expired(token, now) {
        tokens := tokens - {entry.accessToken};
        refreshTokens := refreshTokens - {refreshToken};
        RemoveFromFamily(entry.family, refreshToken);
        return Absent;
      }
      if entry.used {
        return Reused(entry.family);
      }
      refreshTokens := refreshTokens[refreshToken := entry.(used := true)];
      return Rotated(token.token, entry.family);
    }

    /** Visits every stored token, removing the expired ones while it goes. */
    method EvictExpiredTokens(now: int)
      requires Valid()
      modifies `tokens, `refreshTokens, `tokenFamilies
      ensures Valid()
      ensures State() == RemoveAll(old(State()), ExpiredTokens(old(State()), now))
    {
      ghost var s0 := State();
      ghost var evicted: set<string> := {};
      var todo := tokens.Keys;
      RemoveNone(s0);
      while todo != {}
        invariant Valid()
        invariant State() == RemoveAll(s0, evicted)
        invariant todo <= s0.tokens.Keys && evicted !! todo
        invariant evicted == ExpiredTokens(s0, now) - todo
      {
        var accessToken :| accessToken in todo;
        todo := todo - {accessToken};
        if Expired(tokens[accessToken], now) {
          RemoveToken(accessToken);
          RemoveOneMore(s0, evicted, accessToken);
          evicted := evicted + {accessToken};
        }
      }
      assert evicted == ExpiredTokens(s0, now);
    }

    method RemoveFromFamily(family: string, refreshToken: string)
      requires Valid()
      modifies `tokenFamilies
      ensures Valid()
      ensures tokenFamilies == DropMember(old(tokenFamilies), family, refreshToken)
    {
      if family in tokenFamilies {
        tokenFamilies := tokenFamilies[family := tokenFamilies[family] - {refreshToken}];
        if tokenFamilies[family] == {} {
          tokenFamilies := tokenFamilies - {family};
        }
      }
    }

    method RevokeTokenFamily(family: string)
      requires Valid()
      modifies `tokens, `refreshTokens, `tokenFamilies
      ensures Valid()
      ensures State() == OAuthStore.RevokeTokenFamily(old(State()), family)
    {
      ghost var s0 := State();
      if family !in tokenFamilies {
        assert s0 == OAuthStore.RevokeTokenFamily(s0, family);
        return;
      }
      var todo := tokenFamilies[family];
      ghost var done: set<string> := {};
      while todo != {}
        invariant done + todo == s0.families[family] && done !! todo
        invariant refreshTokens == s0.refresh - done
        invariant tokens == s0.tokens - (set r | r in done && r in s0.refresh :: s0.refresh[r].accessToken)
        invariant tokenFamilies == s0.families
      {
        var refreshToken :| refreshToken in todo;
        todo := todo - {refreshToken};
        if refreshToken in refreshTokens {
          var entry := refreshTokens[refreshToken];
          tokens := tokens - {entry.accessToken};
          refreshTokens := refreshTokens - {refreshToken};
        }
        done := done + {refreshToken};
      }
      tokenFamilies := tokenFamilies - {family};
      assert State() == OAuthStore.RevokeTokenFamily(s0, family);
    }

    method RevokeRefreshToken(refreshToken: string)
      requires Valid()
      modifies `tokens, `refreshTokens, `tokenFamilies
      ensures Valid()
      ensures State() == OAuthStore.RevokeRefreshToken(old(State()), refreshToken)
    {
      if refreshToken !in refreshTokens {
        return;
      }
      var entry := refreshTokens[refreshToken];
      refreshTokens := refreshTokens - {refreshToken};
      tokens := tokens - {entry.accessToken};
      RemoveFromFamily(entry.family, refreshToken);
    }

    method RemoveToken(accessToken: string)
      requires Valid()
      modifies `tokens, `refreshTokens, `tokenFamilies
      ensures Valid()
      ensures State() == OAuthStore.RemoveToken(old(State()), accessToken)
    {
      ghost var s0 := State();
      var token := if accessToken in tokens then tokens[accessToken].token.refreshToken else None;
      tokens := tokens - {accessToken};
      if Truthy(token) {
        var refreshToken := token.value;
        if refreshToken in refreshTokens {
          var entry := refreshTokens[refreshToken];
          refreshTokens := refreshTokens - {refreshToken};
          RemoveFromFamily(entry.family, refreshToken);
        }
      }
      RemoveOne(s0, accessToken);
    }
  }
}
