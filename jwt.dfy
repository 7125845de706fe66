/** `JWT::decode`: the guard chain that turns a parsed token into its claims, or throws.
    Parsing, the signature primitive and the clock are parameters; the static `$leeway` and
    `$supported_algs` are read-only and become parameters too. */
module Jwt {
  import opened Wrappers
  import Php

  /** The signer classes of the `$supported_algs` table. */
  datatype Signer = HmacSha256 | HmacSha384 | HmacSha512 | RsaSha256 | RsaSha384 | RsaSha512

  /** `JWT::$supported_algs`: the six algorithm names and the signer each one selects. */
  const SupportedAlgs: map<string, Signer> := map[
    "HS512" := HmacSha512, "HS256" := HmacSha256, "HS384" := HmacSha384,
    "RS512" := RsaSha512, "RS256" := RsaSha256, "RS384" := RsaSha384
  ]

  /** A claim value as the token's JSON payload carries it. */
  datatype Value = Null | Num(n: int) | Text(s: string)

  type Claims = map<string, Value>

  /** A token as the parser exposes it: the `alg` and `kid` headers, the claims, and the
      compact serialisation whose signature `verify` checks. */
  datatype Token = Token(alg: string, kid: string, claims: Claims, raw: string)

  /** `$token->verify($signer, $key)`: the cryptographic check, left abstract. */
  type Verifier = (Token, Signer, string) -> bool

  /** The exceptions `decode` throws, one per guard. */
  datatype Error =
    | InvalidKey             // InvalidArgumentException 'Key may not be empty'
    | EmptyAlgorithm         // UnexpectedValueException 'Empty algorithm'
    | AlgorithmNotAllowed    // UnexpectedValueException 'Algorithm not allowed'
    | AlgorithmNotSupported  // DomainException 'Algorithm not supported'
    | SignatureInvalid       // SignatureInvalidException
    | BeforeValid            // BeforeValidException (nbf or iat in the future)
    | Expired                // ExpiredException

  /** The temporal claims hold an integer or null when present. */
  predicate NumericOrNull(claims: Claims, name: string)
  {
    name in claims ==> !claims[name].Text?
  }

  predicate TemporalClaimsNumeric(claims: Claims)
  {
    NumericOrNull(claims, "nbf") && NumericOrNull(claims, "iat") && NumericOrNull(claims, "exp")
  }

  /** `hasClaim($name)` followed by `isset(getClaim($name))`: the claim's time when it is
      present and not null; an absent or null claim gives `None`, no constraint. */
  function ClaimTime(claims: Claims, name: string): (t: Option<int>)
    requires NumericOrNull(claims, name)
    ensures t.Some? <==> name in claims && claims[name] != Null
    ensures t.Some? ==> claims[name] == Num(t.value)
  {
    if name in claims && claims[name].Num? then Some(claims[name].n) else None
  }

  /** The guards before the signature: key, algorithm, policy list and table, in that order. */
  predicate PolicyPasses(token: Token, key: string, allowed: seq<string>, table: map<string, Signer>)
  {
    !Php.IsEmpty(key) && !Php.IsEmpty(token.alg) && token.alg in allowed && token.alg in table
  }

  predicate SignatureVerified(token: Token, key: string, allowed: seq<string>,
                              table: map<string, Signer>, verify: Verifier)
  {
    PolicyPasses(token, key, allowed, table) && verify(token, table[token.alg], key)
  }

  /** Order-free statement of when a token is acceptable at `timestamp`: not-before and
      issued-at no later than `timestamp + leeway`, expiry strictly after `timestamp - leeway`. */
  predicate TemporallyValid(claims: Claims, leeway: int, timestamp: int)
    requires TemporalClaimsNumeric(claims)
  {
    var nbf, iat, exp := ClaimTime(claims, "nbf"), ClaimTime(claims, "iat"), ClaimTime(claims, "exp");
    && (nbf.Some? ==> nbf.value <= timestamp + leeway)
    && (iat.Some? ==> iat.value <= timestamp + leeway)
    && (exp.Some? ==> exp.value > timestamp - leeway)
  }

  /** The nbf or iat guard fires. */
  predicate NotYetValid(claims: Claims, leeway: int, timestamp: int)
    requires TemporalClaimsNumeric(claims)
  {
    var nbf, iat := ClaimTime(claims, "nbf"), ClaimTime(claims, "iat");
    (nbf.Some? && nbf.value > timestamp + leeway) || (iat.Some? && iat.value > timestamp + leeway)
  }

  /** `JWT::decode`. The first guard that fails decides the error; only a token passing all
      of them yields its claims. */
  function Decode(token: Token, key: string, allowed: seq<string>, table: map<string, Signer>,
                  leeway: int, timestamp: int, verify: Verifier): (r: Result<Claims, Error>)
    requires TemporalClaimsNumeric(token.claims)
    ensures r.Success? <==> SignatureVerified(token, key, allowed, table, verify)
                            && TemporallyValid(token.claims, leeway, timestamp)
    ensures r.Success? ==> r.value == token.claims
  {
    if Php.IsEmpty(key) then Failure(InvalidKey)
    else if Php.IsEmpty(token.alg) then Failure(EmptyAlgorithm)
    else if token.alg !in allowed then Failure(AlgorithmNotAllowed)
    else if token.alg !in table then Failure(AlgorithmNotSupported)
    else if !verify(token, table[token.alg], key) then Failure(SignatureInvalid)
    else
      var nbf := ClaimTime(token.claims, "nbf");
      var iat := ClaimTime(token.claims, "iat");
      var exp := ClaimTime(token.claims, "exp");
      if nbf.Some? && nbf.value > timestamp + leeway then Failure(BeforeValid)
      else if iat.Some? && iat.value > timestamp + leeway then Failure(BeforeValid)
      else if exp.Some? && timestamp - leeway >= exp.value then Failure(Expired)
      else Success(token.claims)
  }
}
