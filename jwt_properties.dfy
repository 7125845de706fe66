/** Properties of `JWT::decode`: which guard decides each error, the direction of every
    temporal inequality, and that claims are only returned from a verified token. */
module JwtProperties {
  import opened Wrappers
  import Php
  import opened Jwt

  /** An empty key (`""` or `"0"`) is rejected before anything else is looked at. */
  lemma EmptyKeyRejectedFirst(token: Token, key: string, allowed: seq<string>, table: map<string, Signer>,
                              leeway: int, timestamp: int, verify: Verifier)
    requires TemporalClaimsNumeric(token.claims)
    ensures Decode(token, key, allowed, table, leeway, timestamp, verify) == Failure(InvalidKey)
            <==> Php.IsEmpty(key)
  {
  }

  /** An empty `alg` header is rejected once the key passed, before the allowed list. */
  lemma EmptyAlgorithmRejected(token: Token, key: string, allowed: seq<string>, table: map<string, Signer>,
                               leeway: int, timestamp: int, verify: Verifier)
    requires TemporalClaimsNumeric(token.claims)
    ensures Decode(token, key, allowed, table, leeway, timestamp, verify) == Failure(EmptyAlgorithm)
            <==> !Php.IsEmpty(key) && Php.IsEmpty(token.alg)
  {
  }

  /** An algorithm outside the caller's list is refused whatever the table holds. */
  lemma DisallowedAlgorithmRejected(token: Token, key: string, allowed: seq<string>, table: map<string, Signer>,
                                    leeway: int, timestamp: int, verify: Verifier)
    requires TemporalClaimsNumeric(token.claims)
    ensures Decode(token, key, allowed, table, leeway, timestamp, verify) == Failure(AlgorithmNotAllowed)
            <==> !Php.IsEmpty(key) && !Php.IsEmpty(token.alg) && token.alg !in allowed
  {
  }

  /** A supported algorithm the caller did not allow is still refused as not allowed. */
  lemma SupportedButDisallowedRejected(token: Token, key: string, allowed: seq<string>,
                                       leeway: int, timestamp: int, verify: Verifier)
    requires TemporalClaimsNumeric(token.claims)
    requires !Php.IsEmpty(key) && token.alg in SupportedAlgs && token.alg !in allowed
    ensures Decode(token, key, allowed, SupportedAlgs, leeway, timestamp, verify) == Failure(AlgorithmNotAllowed)
  {
  }

  /** The registry check comes after the policy check. */
  lemma UnsupportedAlgorithmRejected(token: Token, key: string, allowed: seq<string>, table: map<string, Signer>,
                                     leeway: int, timestamp: int, verify: Verifier)
    requires TemporalClaimsNumeric(token.claims)
    ensures Decode(token, key, allowed, table, leeway, timestamp, verify) == Failure(AlgorithmNotSupported)
            <==> !Php.IsEmpty(key) && !Php.IsEmpty(token.alg) && token.alg in allowed && token.alg !in table
  {
  }

  /** The table's keys are exactly the three HMAC and three RSA names, each selecting the
      signer of its hash size. */
  lemma SupportedAlgsAreHmacAndRsa()
    ensures SupportedAlgs.Keys == {"HS256", "HS384", "HS512", "RS256", "RS384", "RS512"}
    ensures SupportedAlgs["HS256"] == HmacSha256 && SupportedAlgs["HS384"] == HmacSha384
            && SupportedAlgs["HS512"] == HmacSha512
    ensures SupportedAlgs["RS256"] == RsaSha256 && SupportedAlgs["RS384"] == RsaSha384
            && SupportedAlgs["RS512"] == RsaSha512
  {
  }

  /** An allowed algorithm missing from the table, such as ES256, is not supported. */
  lemma AllowedEs256NotSupported(token: Token, key: string, leeway: int, timestamp: int, verify: Verifier)
    requires TemporalClaimsNumeric(token.claims)
    requires !Php.IsEmpty(key) && token.alg == "ES256"
    ensures Decode(token, key, ["ES256"], SupportedAlgs, leeway, timestamp, verify) == Failure(AlgorithmNotSupported)
  {
    SupportedAlgsAreHmacAndRsa();
  }

  /** A failed signature wins over every temporal claim. */
  lemma BadSignatureRejected(token: Token, key: string, allowed: seq<string>, table: map<string, Signer>,
                             leeway: int, timestamp: int, verify: Verifier)
    requires TemporalClaimsNumeric(token.claims)
    ensures Decode(token, key, allowed, table, leeway, timestamp, verify) == Failure(SignatureInvalid)
            <==> PolicyPasses(token, key, allowed, table) && !verify(token, table[token.alg], key)
  {
  }

  /** No claims come back from a token whose signature did not verify. */
  lemma NoClaimsWithoutSignature(token: Token, key: string, allowed: seq<string>, table: map<string, Signer>,
                                 leeway: int, timestamp: int, verify: Verifier)
    requires TemporalClaimsNumeric(token.claims)
    requires !(token.alg in table && verify(token, table[token.alg], key))
    ensures Decode(token, key, allowed, table, leeway, timestamp, verify).Failure?
  {
  }

  /** `nbf > timestamp + leeway` or `iat > timestamp + leeway` gives BeforeValid, once the
      signature verified. */
  lemma FutureTokenRejected(token: Token, key: string, allowed: seq<string>, table: map<string, Signer>,
                            leeway: int, timestamp: int, verify: Verifier)
    requires TemporalClaimsNumeric(token.claims)
    ensures Decode(token, key, allowed, table, leeway, timestamp, verify) == Failure(BeforeValid)
            <==> SignatureVerified(token, key, allowed, table, verify)
                 && NotYetValid(token.claims, leeway, timestamp)
  {
  }

  /** `timestamp - leeway >= exp` gives Expired, once nbf and iat passed. */
  lemma ExpiredTokenRejected(token: Token, key: string, allowed: seq<string>, table: map<string, Signer>,
                             leeway: int, timestamp: int, verify: Verifier)
    requires TemporalClaimsNumeric(token.claims)
    ensures Decode(token, key, allowed, table, leeway, timestamp, verify) == Failure(Expired)
            <==> SignatureVerified(token, key, allowed, table, verify)
                 && !NotYetValid(token.claims, leeway, timestamp)
                 && ClaimTime(token.claims, "exp").Some?
                 && timestamp - leeway >= ClaimTime(token.claims, "exp").value
  {
  }

  /** At the boundary `timestamp - leeway == exp` the token is already expired; one second
      earlier expiry is not the reason for rejection. */
  lemma ExpiryBoundary(token: Token, key: string, allowed: seq<string>, table: map<string, Signer>,
                       leeway: int, timestamp: int, verify: Verifier)
    requires TemporalClaimsNumeric(token.claims)
    requires SignatureVerified(token, key, allowed, table, verify)
    requires !NotYetValid(token.claims, leeway, timestamp)
    requires "exp" in token.claims && token.claims["exp"].Num?
    ensures token.claims["exp"].n == timestamp - leeway
            ==> Decode(token, key, allowed, table, leeway, timestamp, verify) == Failure(Expired)
    ensures token.claims["exp"].n == timestamp - leeway + 1
            ==> Decode(token, key, allowed, table, leeway, timestamp, verify) == Success(token.claims)
  {
  }

  /** A present but null temporal claim constrains nothing, exactly like an absent one. */
  lemma NullClaimIsNoConstraint(claims: Claims, name: string, leeway: int, timestamp: int)
    requires TemporalClaimsNumeric(claims)
    requires name in {"nbf", "iat", "exp"}
    ensures TemporalClaimsNumeric(claims[name := Null]) && TemporalClaimsNumeric(claims - {name})
    ensures TemporallyValid(claims[name := Null], leeway, timestamp)
            == TemporallyValid(claims - {name}, leeway, timestamp)
  {
  }

  /** Without nbf, iat and exp (or with them null) every timestamp is acceptable. */
  lemma NoTemporalClaimsAlwaysValid(claims: Claims, leeway: int, timestamp: int)
    requires forall name | name in {"nbf", "iat", "exp"} :: name !in claims || claims[name] == Null
    ensures TemporalClaimsNumeric(claims) && TemporallyValid(claims, leeway, timestamp)
  {
    assert "nbf" in {"nbf", "iat", "exp"} && "iat" in {"nbf", "iat", "exp"} && "exp" in {"nbf", "iat", "exp"};
  }

  /** More leeway never turns an accepted token into a rejected one. */
  lemma LeewayMonotone(token: Token, key: string, allowed: seq<string>, table: map<string, Signer>,
                       leeway: int, leeway': int, timestamp: int, verify: Verifier)
    requires TemporalClaimsNumeric(token.claims)
    requires leeway <= leeway'
    requires Decode(token, key, allowed, table, leeway, timestamp, verify).Success?
    ensures Decode(token, key, allowed, table, leeway', timestamp, verify)
            == Decode(token, key, allowed, table, leeway, timestamp, verify)
  {
  }

  /** An RS256 token with `iat` 1000 and `exp` 2000, checked at 1500 with no leeway against
      an RS256-only policy and a signature that verifies, yields its claims unchanged. */
  lemma Rs256Scenario(key: string, verify: Verifier)
    requires !Php.IsEmpty(key)
    requires verify(Token("RS256", "abc", map["iat" := Num(1000), "exp" := Num(2000)], "t"), RsaSha256, key)
    ensures Decode(Token("RS256", "abc", map["iat" := Num(1000), "exp" := Num(2000)], "t"),
                   key, ["RS256"], SupportedAlgs, 0, 1500, verify)
            == Success(map["iat" := Num(1000), "exp" := Num(2000)])
  {
  }
}
