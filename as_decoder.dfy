/** `ASDecoder`: picking the signing key for a token from the published key set, and
    decoding the token with that key's material and algorithm. The key-set document arrives
    already fetched and JSON-decoded; key conversion is an abstract parameter. */
module AsDecoder {
  import opened Wrappers
  import Php
  import Jwt

  /** One entry of the `keys` array: its `kid` (absent in a malformed entry), its `alg`,
      and the remaining JWK members (kty, use, n, e) handed to key conversion. */
  datatype KeyEntry = KeyEntry(kid: Option<string>, alg: Option<string>, params: map<string, string>)

  /** The decoded key-set document; `keys` is `None` when the member is missing or null. */
  datatype KeySet = KeySet(keys: Option<seq<KeyEntry>>)

  /** `JWK::parseKey` followed by `openssl_pkey_get_details`: the `key` member (PEM text) of
      the details, `None` when the details carry no `key`. */
  type KeyConverter = KeyEntry -> Option<string>

  /** The array `fetchPublicKey` returns: `publicKey` and `alg`. */
  datatype PublicKeyData = PublicKeyData(publicKey: string, alg: Option<string>)

  datatype KeyError =
    | InvalidKeyFormat         // 'Invalid key format.'
    | InvalidPublicKeyDetails  // 'Invalid public key details.'
    | KeyNotFound              // raised only by the corrected lookup

  /** Exceptions reaching the caller of `decodeIdentityToken`. */
  datatype DecodeError = KeyFailure(keyError: KeyError) | TokenFailure(tokenError: Jwt.Error)

  function KidOf(entry: KeyEntry): Option<string>
  {
    entry.kid
  }

  /** `isset($doc['keys']) && count($doc['keys']) >= 1`. */
  predicate HasKeys(doc: KeySet)
  {
    doc.keys.Some? && |doc.keys.value| >= 1
  }

  /** `keys[i]` is the first entry whose kid is `kid`. */
  predicate FirstWithKid(keys: seq<KeyEntry>, kid: string, i: int)
  {
    0 <= i < |keys| && keys[i].kid == Some(kid)
    && forall j :: 0 <= j < i ==> keys[j].kid != Some(kid)
  }

  /** Conversion of the chosen entry: its key material paired with the entry's own `alg`,
      or 'Invalid public key details.' when the details lack `key`. */
  function KeyDataOf(entry: KeyEntry, convert: KeyConverter): (r: Result<PublicKeyData, KeyError>)
    ensures r.Success? <==> convert(entry).Some?
    ensures r.Failure? ==> r.error == InvalidPublicKeyDetails
    ensures r.Success? ==> Some(r.value.publicKey) == convert(entry) && r.value.alg == entry.alg
  {
    match convert(entry)
    case None => Failure(InvalidPublicKeyDetails)
    case Some(pem) => Success(PublicKeyData(pem, entry.alg))
  }

  /** The position `fetchPublicKey` indexes `keys` with: `array_search` over the
      `array_column` of kids, PHP's `false` read as 0. */
  function SelectedIndex(kid: string, keys: seq<KeyEntry>): (i: nat)
    requires |keys| >= 1
    ensures i < |keys|
  {
    Php.AsIndex(Php.ArraySearch(kid, Php.ArrayColumn(keys, KidOf)))
  }

  /** `fetchPublicKey`, as written. */
  function FetchPublicKey(kid: string, doc: KeySet, convert: KeyConverter): (r: Result<PublicKeyData, KeyError>)
    ensures r == Failure(InvalidKeyFormat) <==> !HasKeys(doc)
    ensures r.Success? ==> exists i :: 0 <= i < |doc.keys.value|
                                       && convert(doc.keys.value[i]) == Some(r.value.publicKey)
                                       && r.value.alg == doc.keys.value[i].alg
    ensures r.Failure? ==> r.error != KeyNotFound
  {
    if !HasKeys(doc) then Failure(InvalidKeyFormat)
    else
      var keys := doc.keys.value;
      var i := SelectedIndex(kid, keys);
      var r := KeyDataOf(keys[i], convert);
      assert r.Success? ==> convert(keys[i]) == Some(r.value.publicKey);
      r
  }

  /** The kid of every entry, position for position with `keys` (`None` where absent). */
  function KidColumn(keys: seq<KeyEntry>): (c: seq<Option<string>>)
    ensures |c| == |keys| && forall i :: 0 <= i < |keys| ==> c[i] == keys[i].kid
  {
    seq(|keys|, i requires 0 <= i < |keys| => keys[i].kid)
  }

  /** The first entry carrying `kid`, searched over the unfiltered kid column so that the
      position found is a position in `keys`. */
  function FindKey(kid: string, keys: seq<KeyEntry>): (r: Option<nat>)
    ensures r.Some? ==> FirstWithKid(keys, kid, r.value)
    ensures r.None? <==> forall i :: 0 <= i < |keys| ==> keys[i].kid != Some(kid)
    ensures forall i :: FirstWithKid(keys, kid, i) ==> r == Some(i)
  {
    var c := KidColumn(keys);
    var r := Php.ArraySearch(Some(kid), c);
    assert forall i :: FirstWithKid(keys, kid, i) ==> r.Some? && !(r.value < i) && !(i < r.value);
    assert r.None? ==> forall i :: 0 <= i < |keys| ==> c[i] != Some(kid);
    r
  }

  /** The corrected lookup: the first entry whose kid matches, or KeyNotFound. */
  function ResolveKey(kid: string, doc: KeySet, convert: KeyConverter): (r: Result<PublicKeyData, KeyError>)
    ensures r == Failure(InvalidKeyFormat) <==> !HasKeys(doc)
    ensures r == Failure(KeyNotFound)
            <==> HasKeys(doc) && forall i :: 0 <= i < |doc.keys.value| ==> doc.keys.value[i].kid != Some(kid)
    ensures r.Success? ==> exists i :: FirstWithKid(doc.keys.value, kid, i)
                                       && convert(doc.keys.value[i]) == Some(r.value.publicKey)
                                       && r.value.alg == doc.keys.value[i].alg
  {
    if !HasKeys(doc) then Failure(InvalidKeyFormat)
    else
      var keys := doc.keys.value;
      match FindKey(kid, keys)
      case None => Failure(KeyNotFound)
      case Some(i) =>
        var r := KeyDataOf(keys[i], convert);
        assert FirstWithKid(keys, kid, i);
        r
  }

  /** The allowed list `[$alg]` handed to `decode`. A key without `alg` gives `[null]`;
      `in_array` of a non-empty algorithm name against `null` is false, the same outcome
      as an empty list. */
  function AllowedList(alg: Option<string>): (l: seq<string>)
    ensures forall a :: a in l <==> alg == Some(a)
  {
    match alg
    case None => []
    case Some(a) => [a]
  }

  function LiftTokenResult(r: Result<Jwt.Claims, Jwt.Error>): Result<Jwt.Claims, DecodeError>
  {
    match r
    case Success(c) => Success(c)
    case Failure(e) => Failure(TokenFailure(e))
  }

  /** The error `decode` throws when the header alg is not the key's alg: the key and
      algorithm guards still come first. */
  function MismatchError(publicKey: string, token: Jwt.Token): Jwt.Error
  {
    if Php.IsEmpty(publicKey) then Jwt.InvalidKey
    else if Php.IsEmpty(token.alg) then Jwt.EmptyAlgorithm
    else Jwt.AlgorithmNotAllowed
  }

  /** Decoding with the key data a lookup produced: key errors first, then `decode` with
      allowed list `[alg]` of that key. */
  function DecodeWithKey(token: Jwt.Token, lookup: Result<PublicKeyData, KeyError>, table: map<string, Jwt.Signer>,
                         leeway: int, timestamp: int, verify: Jwt.Verifier): (r: Result<Jwt.Claims, DecodeError>)
    requires Jwt.TemporalClaimsNumeric(token.claims)
    ensures lookup.Failure? ==> r == Failure(KeyFailure(lookup.error))
    ensures lookup.Success? && lookup.value.alg == Some(token.alg)
            ==> r == LiftTokenResult(Jwt.Decode(token, lookup.value.publicKey, [token.alg], table, leeway, timestamp, verify))
    ensures lookup.Success? && lookup.value.alg != Some(token.alg)
            ==> r == Failure(TokenFailure(MismatchError(lookup.value.publicKey, token)))
    ensures r.Success? <==> (&& lookup.Success?
                             && lookup.value.alg == Some(token.alg)
                             && Jwt.SignatureVerified(token, lookup.value.publicKey, [token.alg], table, verify)
                             && Jwt.TemporallyValid(token.claims, leeway, timestamp))
    ensures r.Success? ==> r.value == token.claims
  {
    match lookup
    case Failure(e) => Failure(KeyFailure(e))
    case Success(data) =>
      LiftTokenResult(Jwt.Decode(token, data.publicKey, AllowedList(data.alg), table, leeway, timestamp, verify))
  }

  /** `decodeIdentityToken`, as written: the header kid goes to `fetchPublicKey`. */
  function DecodeIdentityToken(token: Jwt.Token, doc: KeySet, convert: KeyConverter, table: map<string, Jwt.Signer>,
                               leeway: int, timestamp: int, verify: Jwt.Verifier): (r: Result<Jwt.Claims, DecodeError>)
    requires Jwt.TemporalClaimsNumeric(token.claims)
    ensures !HasKeys(doc) ==> r == Failure(KeyFailure(InvalidKeyFormat))
    ensures var data := FetchPublicKey(token.kid, doc, convert);
            data.Failure? ==> r == Failure(KeyFailure(data.error))
    ensures var data := FetchPublicKey(token.kid, doc, convert);
            data.Success? && data.value.alg == Some(token.alg)
            ==> r == LiftTokenResult(Jwt.Decode(token, data.value.publicKey, [token.alg], table, leeway, timestamp, verify))
    ensures var data := FetchPublicKey(token.kid, doc, convert);
            data.Success? && data.value.alg != Some(token.alg)
            ==> r == Failure(TokenFailure(MismatchError(data.value.publicKey, token)))
    ensures r.Success? ==> r.value == token.claims
    ensures r.Success? <==> (var data := FetchPublicKey(token.kid, doc, convert);
                             && data.Success?
                             && data.value.alg == Some(token.alg)
                             && Jwt.SignatureVerified(token, data.value.publicKey, [token.alg], table, verify)
                             && Jwt.TemporallyValid(token.claims, leeway, timestamp))
  {
    DecodeWithKey(token, FetchPublicKey(token.kid, doc, convert), table, leeway, timestamp, verify)
  }

  /** `decodeIdentityToken` over the corrected lookup: a token is only ever checked against
      the first published key that carries its own kid. */
  function VerifyIdentityToken(token: Jwt.Token, doc: KeySet, convert: KeyConverter, table: map<string, Jwt.Signer>,
                               leeway: int, timestamp: int, verify: Jwt.Verifier): (r: Result<Jwt.Claims, DecodeError>)
    requires Jwt.TemporalClaimsNumeric(token.claims)
    ensures !HasKeys(doc) ==> r == Failure(KeyFailure(InvalidKeyFormat))
    ensures HasKeys(doc) && (forall i :: 0 <= i < |doc.keys.value| ==> doc.keys.value[i].kid != Some(token.kid))
            ==> r == Failure(KeyFailure(KeyNotFound))
    ensures var data := ResolveKey(token.kid, doc, convert);
            data.Failure? ==> r == Failure(KeyFailure(data.error))
    ensures var data := ResolveKey(token.kid, doc, convert);
            data.Success? && data.value.alg == Some(token.alg)
            ==> r == LiftTokenResult(Jwt.Decode(token, data.value.publicKey, [token.alg], table, leeway, timestamp, verify))
    ensures var data := ResolveKey(token.kid, doc, convert);
            data.Success? && data.value.alg != Some(token.alg)
            ==> r == Failure(TokenFailure(MismatchError(data.value.publicKey, token)))
    ensures r.Success? ==> r.value == token.claims
    ensures r.Success? <==> (&& HasKeys(doc)
                             && exists i :: && FirstWithKid(doc.keys.value, token.kid, i)
                                            && doc.keys.value[i].alg == Some(token.alg)
                                            && convert(doc.keys.value[i]).Some?
                                            && Jwt.SignatureVerified(token, convert(doc.keys.value[i]).value,
                                                                     [token.alg], table, verify)
                                            && Jwt.TemporallyValid(token.claims, leeway, timestamp))
  {
    DecodeWithKey(token, ResolveKey(token.kid, doc, convert), table, leeway, timestamp, verify)
  }
}
