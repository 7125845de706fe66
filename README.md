# Sign in with Apple token verification, modelled in Dafny

This project models the token-verification core of `php-apple-signin`:

- `JWT::decode` (`src/php-apple-signin/JWT.php`). Given a parsed token, a key, the
  caller's allowed algorithms, the supported-algorithm table, a leeway and the current
  time, it runs eight guards in a fixed order, and the first one that fails decides the
  exception. The guards are: key non-empty, `alg` non-empty, `alg` allowed, `alg`
  supported, signature valid, `nbf`, `iat`, `exp`. Only a token that passes all of them
  yields its claims, unchanged.
- `ASDecoder::fetchPublicKey` and `ASDecoder::decodeIdentityToken`
  (`src/php-apple-signin/ASDecoder.php`). These pick the key entry for the token's `kid`
  from the published key set. Then they call `decode` with that entry's key material and
  with the allowed list `[alg]` of that entry.

Everything is pure, so the model is functions over datatypes plus lemmas:

- `wrappers.dfy`: `Option` and `Result`. A `Failure` stands for a thrown exception.
- `php.dfy`: the PHP built-ins the code relies on. These are `empty()` on strings (true
  for `""` and `"0"`), `array_column` (skips rows without the column and reindexes),
  `array_search` (first match, or `false`), and `false` used as an array index (it
  becomes 0).
- `jwt.dfy`, `jwt_properties.dfy`: `Jwt.Decode`, an order-free statement of acceptance
  (`SignatureVerified` plus `TemporallyValid`), and one lemma per error. Each lemma says
  exactly when that error is the result.
- `as_decoder.dfy`, `as_decoder_properties.dfy`: the key lookup as the source writes
  it (`FetchPublicKey`, `DecodeIdentityToken`). Beside it is a corrected lookup
  (`ResolveKey`, `VerifyIdentityToken`) that fails with `KeyNotFound`, and lemmas that
  relate the two.

These become parameters:

- the token parser: a token is `Jwt.Token` with its `alg` and `kid` headers, its claims
  and its raw text;
- the signature primitive `$token->verify`: the `verify` function parameter;
- the clock `time()`: `timestamp`;
- the static `$leeway`: `leeway`;
- the `$supported_algs` table: `table`, a map from name to a `Signer` tag. The source's
  own table is the constant `Jwt.SupportedAlgs`;
- the network fetch and JSON decoding of the key set: `KeySet`, already decoded;
- `JWK::parseKey` with `openssl_pkey_get_details`: `convert`, a partial function from a
  key entry to the `key` member of its details.

Behaviour of the code that the model keeps as it is:

- An unmatched `kid` does not fail: the code falls back to the first key (see Findings).
- With duplicate `kid`s the corrected lookup takes the first match. The as-written lookup never
  takes a later duplicate (`FetchUsesCountOfEarlierKids`: the index used is at most the first
  match). It takes the first match only when no entry without a kid comes before it
  (`AlignedPrefixSelectsFirstMatch`); otherwise it takes an earlier entry that does not carry
  the kid (`KidlessBeforeMatchMisselects`, `MisalignedSelectionIsWrongEntry`, `DuplicateKidWitness`).
- The allowed algorithms are a list, and membership is tested with `in_array`.

## Model

| member | source | states |
|---|---|---|
| `Php.IsEmpty` | src/php-apple-signin/JWT.php:50-55 | `empty()` on a string: true for `""` and `"0"` |
| `Php.EmptyStringExamples` | src/php-apple-signin/JWT.php:50-55 | `""` and `"0"` are empty; `"00"`, `"0.0"`, `" "` and `"false"` are not |
| `Php.ArrayColumn` | src/php-apple-signin/ASDecoder.php:61 | the kid column is no longer than the key list, and every entry's present kid occurs in it |
| `Php.RowOf` | src/php-apple-signin/ASDecoder.php:61 | element k of the column comes from a key entry at position k or later that carries that value |
| `Php.ColumnOfCompleteRows` | src/php-apple-signin/ASDecoder.php:61 | when every entry has a kid, the column has one element per entry, position for position |
| `Php.ArraySearch` | src/php-apple-signin/ASDecoder.php:62 | the result is the first position holding the needle, and it is `false` (None) exactly when the needle does not occur |
| `Php.AsIndex` | src/php-apple-signin/ASDecoder.php:62 | `false` used as an array key reads index 0; an integer key is itself |
| `Php.ColumnSearchFindsFirstRow` | src/php-apple-signin/ASDecoder.php:61-62 | the column position found corresponds to the first key entry that carries the kid |
| `Php.SearchPositionCountsEarlierRows` | src/php-apple-signin/ASDecoder.php:61-62 | the column search returns the number of rows carrying the column before the first row holding the needle |
| `Php.ColumnShorterWhenSomeRowLacks` | src/php-apple-signin/ASDecoder.php:61 | one row without the column makes the column strictly shorter than the rows |
| `Jwt.ClaimTime` | src/php-apple-signin/JWT.php:70-95 | a temporal claim constrains only when it is present and not null (`hasClaim` plus `isset`), and then gives its integer |
| `Jwt.Decode` | src/php-apple-signin/JWT.php:45-98 | success happens exactly when all four policy guards pass, the signature verifies, and nbf/iat are at most timestamp+leeway and exp is above timestamp-leeway; on success the claims are returned unchanged |
| `JwtProperties.EmptyKeyRejectedFirst` | src/php-apple-signin/JWT.php:50-52 | the result is InvalidKey if and only if the key is `""` or `"0"`, whatever else the token holds |
| `JwtProperties.EmptyAlgorithmRejected` | src/php-apple-signin/JWT.php:53-55 | the result is EmptyAlgorithm if and only if the key passed and `alg` is `""` or `"0"` |
| `JwtProperties.DisallowedAlgorithmRejected` | src/php-apple-signin/JWT.php:56-58 | the result is AlgorithmNotAllowed if and only if key and alg are non-empty and alg is not in the caller's list, whatever the table holds |
| `JwtProperties.SupportedButDisallowedRejected` | src/php-apple-signin/JWT.php:56-61 | an algorithm in the supported table that the caller did not allow is refused as not allowed |
| `JwtProperties.UnsupportedAlgorithmRejected` | src/php-apple-signin/JWT.php:59-61 | the result is AlgorithmNotSupported if and only if the earlier guards pass and alg is absent from the table |
| `Jwt.SupportedAlgs` | src/php-apple-signin/JWT.php:23-30 | the six-entry table from algorithm name to signer |
| `JwtProperties.SupportedAlgsAreHmacAndRsa` | src/php-apple-signin/JWT.php:23-30 | the table's keys are exactly HS256/384/512 and RS256/384/512, each mapped to the HMAC or RSA signer of that hash size |
| `JwtProperties.AllowedEs256NotSupported` | src/php-apple-signin/JWT.php:23-30 | with the source's table, an allowed ES256 token fails as not supported |
| `JwtProperties.BadSignatureRejected` | src/php-apple-signin/JWT.php:65-67 | the result is SignatureInvalid if and only if the policy guards pass and verification fails; no temporal claim can change that |
| `JwtProperties.NoClaimsWithoutSignature` | src/php-apple-signin/JWT.php:65-67 | a token whose signature does not verify under the selected signer never yields claims |
| `JwtProperties.FutureTokenRejected` | src/php-apple-signin/JWT.php:70-88 | the result is BeforeValid if and only if the signature verified and nbf or iat exceeds timestamp + leeway |
| `JwtProperties.ExpiredTokenRejected` | src/php-apple-signin/JWT.php:90-95 | the result is Expired if and only if the signature verified, nbf/iat passed, and timestamp - leeway >= exp |
| `JwtProperties.ExpiryBoundary` | src/php-apple-signin/JWT.php:92 | exp equal to timestamp - leeway is rejected as Expired, and exp one second later is accepted |
| `JwtProperties.NullClaimIsNoConstraint` | src/php-apple-signin/JWT.php:72-92 | a present but null nbf, iat or exp gives the same temporal verdict as an absent one |
| `JwtProperties.NoTemporalClaimsAlwaysValid` | src/php-apple-signin/JWT.php:70-95 | without nbf, iat and exp, or with them null, every timestamp and leeway is acceptable |
| `JwtProperties.LeewayMonotone` | src/php-apple-signin/JWT.php:72-97 | a token accepted with some leeway is accepted, with the same claims, for any larger leeway |
| `JwtProperties.Rs256Scenario` | src/php-apple-signin/JWT.php:45-98 | an RS256 token with iat 1000 and exp 2000, checked at 1500 with leeway 0 and an RS256-only list, yields exactly its claims |
| `AsDecoder.HasKeys` | src/php-apple-signin/ASDecoder.php:57 | `isset($doc['keys'])` and at least one entry |
| `AsDecoder.KeyDataOf` | src/php-apple-signin/ASDecoder.php:63-73 | fails with 'Invalid public key details.' exactly when the details lack `key`; otherwise returns that key and the entry's own alg |
| `AsDecoder.SelectedIndex` | src/php-apple-signin/ASDecoder.php:61-62 | the index used is always a valid position in a non-empty key list |
| `AsDecoder.FetchPublicKey` | src/php-apple-signin/ASDecoder.php:52-74 | 'Invalid key format.' exactly when `keys` is missing or empty; a result pairs the key material with the alg of one entry of the key set, never a caller value |
| `AsDecoder.FindKey` | src/php-apple-signin/ASDecoder.php:61-62 | corrected search: the first entry carrying the kid, the same position for every first match, or none exactly when no entry carries it |
| `AsDecoder.ResolveKey` | src/php-apple-signin/ASDecoder.php:52-74 | corrected lookup: InvalidKeyFormat as the source, KeyNotFound exactly when no entry carries the kid, otherwise the first matching entry's material and alg |
| `AsDecoder.AllowedList` | src/php-apple-signin/ASDecoder.php:40-42 | the allowed list contains exactly the key's own alg |
| `AsDecoder.DecodeWithKey` | src/php-apple-signin/ASDecoder.php:37-42 | a lookup error is the result; with the key's alg equal to the header alg the result is `decode`'s own with allowed list `[alg]`, otherwise InvalidKey, EmptyAlgorithm or AlgorithmNotAllowed in guard order; success happens exactly when the alg matches, the signature verifies and the temporal claims pass |
| `AsDecoder.DecodeIdentityToken` | src/php-apple-signin/ASDecoder.php:33-43 | as written: a fetch error is the result; otherwise the result is `decode`'s own for the fetched key with `[alg]` (InvalidKey, EmptyAlgorithm or AlgorithmNotAllowed when the header alg differs); success, with the token's claims, happens exactly when the fetched key's alg equals the header alg, its material verifies the signature, and the temporal claims are valid |
| `AsDecoder.VerifyIdentityToken` | src/php-apple-signin/ASDecoder.php:33-43 | corrected: an unknown kid is KeyNotFound and any lookup error is the result; otherwise the result is `decode`'s own for the resolved key with `[alg]`; success happens exactly when the first entry carrying the token's kid has the token's alg, converts, verifies the signature, and the temporal claims are valid |
| `AsDecoderProperties.MissingKeysRejected` | src/php-apple-signin/ASDecoder.php:57-59 | a missing or empty `keys` list is 'Invalid key format.' in both lookups |
| `AsDecoderProperties.FetchUsesCountOfEarlierKids` | src/php-apple-signin/ASDecoder.php:61-73 | for a kid whose first match is entry f, the source uses entry n, where n is the number of entries carrying a kid before f (n <= f), and returns that entry's key data |
| `AsDecoderProperties.UnmatchedKidFallsBackToFirst` | src/php-apple-signin/ASDecoder.php:62 | when no entry carries the kid, the source selects entry 0 and returns its data instead of failing |
| `AsDecoderProperties.FallbackWitness` | src/php-apple-signin/ASDecoder.php:62 | one key with kid "a" and a request for "z": the source succeeds, the corrected lookup reports KeyNotFound |
| `AsDecoderProperties.MisalignmentWitness` | src/php-apple-signin/ASDecoder.php:61-62 | with a kid-less first entry, a request for the second entry's kid selects the first entry |
| `AsDecoderProperties.DuplicateKidWitness` | src/php-apple-signin/ASDecoder.php:61-62 | with a kid-less first entry followed by two entries with kid "a", a request for "a" selects the kid-less entry, neither duplicate, while the corrected search finds the first duplicate |
| `AsDecoderProperties.SearchTargetsFirstEntryWithKid` | src/php-apple-signin/ASDecoder.php:61-62 | the column search identifies the first entry with the kid, at a position at or after the index the source uses |
| `AsDecoderProperties.AlignedPrefixSelectsFirstMatch` | src/php-apple-signin/ASDecoder.php:61-62 | when no entry without a kid comes before the first match, the source selects that first match and agrees with the corrected lookup |
| `AsDecoderProperties.KidlessBeforeMatchMisselects` | src/php-apple-signin/ASDecoder.php:61-62 | a kid-less entry before the first match f makes the source use an entry before f that does not carry the kid |
| `AsDecoderProperties.MisalignedSelectionIsWrongEntry` | src/php-apple-signin/ASDecoder.php:61-62 | whenever the source's index differs from the first match, the entry it uses does not carry the requested kid |
| `AsDecoderProperties.ResolveKeyNeverFallsBack` | src/php-apple-signin/ASDecoder.php:61-62 | when some entry carries the kid, the corrected lookup returns the conversion of the first such entry and never another |
| `AsDecoderProperties.AlgorithmMismatchRejected` | src/php-apple-signin/ASDecoder.php:35-42 | a token whose header alg differs from the fetched key's alg is refused as AlgorithmNotAllowed |
| `AsDecoderProperties.KeyErrorsComeFirst` | src/php-apple-signin/ASDecoder.php:37-42 | a lookup error surfaces before any token check |
| `AsDecoderProperties.UnknownKidCheckedAgainstFirstKey` | src/php-apple-signin/ASDecoder.php:35-42 | as written, a token with an unknown kid is decoded with the first key; the corrected version fails with KeyNotFound |

## Left out

- Network fetch and JSON decoding of the key set (`ASDecoder.php:54-55`): I/O. The model takes the decoded document as input.
- `JWK::parseKey` and `openssl_pkey_get_details` (`ASDecoder.php:63-64`): foreign code, and `JWK` is not part of this model. They are the abstract `convert`. An exception thrown inside `JWK::parseKey` itself is not modelled.
- Token parsing and `$token->verify` (`JWT.php:38, 48, 65`): library and cryptography. Parse failures and a missing `alg` or `kid` header, which the library reports by throwing, are not modelled.
- Reflection-based signer creation (`JWT.php:63-64`): modelled as a map lookup.
- `time()` (`JWT.php:47`): the `timestamp` parameter.
- Date formatting in the exception messages (`JWT.php:74, 85`): does not affect behaviour.
- `getPublicKeyKid` and `urlsafeB64Decode` (`JWT.php:36-40, 107-110`): thin wrappers over the library.
- `getAppleSignInPayload` and `Payload` (`ASDecoder.php:21-25`): `Payload` is not part of this model.
- Jwt.Decode: requires that `nbf`, `iat` and `exp`, when present, are integers or null. PHP's loose comparison of a string claim against an integer is not modelled.
- `in_array` at `JWT.php:56` and `array_search` at `ASDecoder.php:62` compare loosely. They are modelled as string equality, so numeric strings such as `"1e3"` and `"1000"` are not equated.
- Claim values are null, integers or strings. JSON floats, booleans, arrays and nested objects are
  not represented: a fractional `nbf`, `iat` or `exp` (which PHP compares numerically) cannot be
  expressed, nor can a payload carrying such claims, which `decode` would pass through untouched.
- A token header whose `alg` or `kid` is not a JSON string (`true`, `null`, a number): `Jwt.Token`
  holds strings only. In PHP `"alg": true` passes `in_array` loosely and then fails as not supported,
  and `null` or `0` fails as an empty algorithm; none of these is modelled.
- PHP integer overflow into floats in `timestamp + leeway` and `timestamp - leeway`: integers are unbounded.
- A `kid` whose JSON value is null, a `keys` member that is not a list, and entries that are not objects: not modelled. A `kid` is present or absent.
- AsDecoder.AllowedList: a key without `alg` makes the source pass `[null]`. The model passes `[]`. `in_array` of a non-empty name against `null` is false, so `decode` gives the same result.

## Findings

| source | as written | input that shows it | evidently intended | confidence | as-written member | corrected member |
|---|---|---|---|---|---|---|
| src/php-apple-signin/ASDecoder.php:62 | when no entry carries the kid, `array_search` returns `false`, which indexes entry 0 | keys `[{kid:"a", alg:"RS256"}]`, token kid `"z"`: the key of `"a"` is returned and used to verify | fail with a key-not-found error, never check against another key | high; not executed | `AsDecoderProperties.UnmatchedKidFallsBackToFirst` | `AsDecoder.ResolveKey` |
| src/php-apple-signin/ASDecoder.php:61-62 | `array_column` skips entries without `kid` and reindexes, but its index is used on the unfiltered `keys` | keys `[{alg:"HS256"}, {kid:"b", alg:"RS256"}]`, kid `"b"`: entry 0 (no kid, HS256) is selected | select the entry that carries the kid | high; not executed | `AsDecoderProperties.MisalignmentWitness` | `AsDecoder.FindKey` |
