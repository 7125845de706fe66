/** Properties of the key lookup as written (the fallback and the misalignment), of the
    corrected lookup, and of the composition with `JWT::decode`. */
module AsDecoderProperties {
  import opened Wrappers
  import Php
  import Jwt
  import opened AsDecoder

  /** A missing or empty `keys` list fails with 'Invalid key format.' before any lookup. */
  lemma MissingKeysRejected(kid: string, doc: KeySet, convert: KeyConverter)
    requires doc.keys.None? || doc.keys.value == []
    ensures FetchPublicKey(kid, doc, convert) == Failure(InvalidKeyFormat)
    ensures ResolveKey(kid, doc, convert) == Failure(InvalidKeyFormat)
  {
  }

  /** As written, the entry used for a kid that occurs is at the position given by the
      number of kid-carrying entries before the first match, not at the match itself. */
  lemma FetchUsesCountOfEarlierKids(kid: string, doc: KeySet, convert: KeyConverter, f: nat)
    requires HasKeys(doc) && FirstWithKid(doc.keys.value, kid, f)
    ensures var n := |Php.ArrayColumn(doc.keys.value[..f], KidOf)|;
            && n <= f
            && SelectedIndex(kid, doc.keys.value) == n
            && FetchPublicKey(kid, doc, convert) == KeyDataOf(doc.keys.value[n], convert)
  {
    Php.SearchPositionCountsEarlierRows(kid, doc.keys.value, KidOf, f);
  }

  /** The source's fallback: when no entry carries the requested kid, `array_search`
      gives `false`, read as index 0, and the first key is used instead of failing. */
  lemma UnmatchedKidFallsBackToFirst(kid: string, doc: KeySet, convert: KeyConverter)
    requires HasKeys(doc)
    requires forall i :: 0 <= i < |doc.keys.value| ==> doc.keys.value[i].kid != Some(kid)
    ensures SelectedIndex(kid, doc.keys.value) == 0
    ensures FetchPublicKey(kid, doc, convert) == KeyDataOf(doc.keys.value[0], convert)
  {
    var keys := doc.keys.value;
    var column := Php.ArrayColumn(keys, KidOf);
    if kid in column {
      var k :| 0 <= k < |column| && column[k] == kid;
      var i := Php.RowOf(keys, KidOf, k);
      assert false;
    }
  }

  /** A one-key set and an unknown kid: the source returns the sole key, the corrected
      lookup reports KeyNotFound. */
  lemma FallbackWitness(convert: KeyConverter)
    requires convert(KeyEntry(Some("a"), Some("RS256"), map[])).Some?
    ensures var doc := KeySet(Some([KeyEntry(Some("a"), Some("RS256"), map[])]));
            && FetchPublicKey("z", doc, convert).Success?
            && ResolveKey("z", doc, convert) == Failure(KeyNotFound)
  {
  }

  /** The source's misalignment: `array_column` skips the kid-less first entry, so the
      position of kid "b" in the column (0) indexes the wrong entry of `keys`. */
  lemma MisalignmentWitness()
    ensures var keys := [KeyEntry(None, Some("HS256"), map[]), KeyEntry(Some("b"), Some("RS256"), map[])];
            && SelectedIndex("b", keys) == 0
            && keys[0].kid != Some("b")
            && FindKey("b", keys) == Some(1)
  {
  }

  /** Duplicate kids behind a kid-less entry: the source uses neither duplicate. */
  lemma DuplicateKidWitness()
    ensures var keys := [KeyEntry(None, Some("HS256"), map[]), KeyEntry(Some("a"), Some("RS256"), map[]),
                         KeyEntry(Some("a"), Some("RS384"), map[])];
            && SelectedIndex("a", keys) == 0
            && keys[0].kid != Some("a")
            && FindKey("a", keys) == Some(1)
  {
    var keys := [KeyEntry(None, Some("HS256"), map[]), KeyEntry(Some("a"), Some("RS256"), map[]),
                 KeyEntry(Some("a"), Some("RS384"), map[])];
    assert Php.ArrayColumn(keys, KidOf) == ["a", "a"];
  }

  /** The column search does find the first entry carrying the kid, at position `RowOf` of
      the column index; the source indexes `keys` with the column index itself, which is
      the right entry exactly when no kid-less entry precedes it
      (`AlignedPrefixSelectsFirstMatch`, `KidlessBeforeMatchMisselects`). */
  lemma SearchTargetsFirstEntryWithKid(kid: string, keys: seq<KeyEntry>)
    requires Php.ArraySearch(kid, Php.ArrayColumn(keys, KidOf)).Some?
    ensures var k := Php.ArraySearch(kid, Php.ArrayColumn(keys, KidOf)).value;
            && k <= Php.RowOf(keys, KidOf, k)
            && FirstWithKid(keys, kid, Php.RowOf(keys, KidOf, k))
            && FindKey(kid, keys) == Some(Php.RowOf(keys, KidOf, k))
  {
  }

  /** When no kid-less entry precedes the first match, the source's lookup is the corrected
      one: the first entry with that kid is chosen. */
  lemma AlignedPrefixSelectsFirstMatch(kid: string, doc: KeySet, convert: KeyConverter, f: nat)
    requires HasKeys(doc) && FirstWithKid(doc.keys.value, kid, f)
    requires forall j :: 0 <= j < f ==> doc.keys.value[j].kid.Some?
    ensures SelectedIndex(kid, doc.keys.value) == f
    ensures FetchPublicKey(kid, doc, convert) == ResolveKey(kid, doc, convert)
  {
    var keys := doc.keys.value;
    FetchUsesCountOfEarlierKids(kid, doc, convert, f);
    Php.ColumnOfCompleteRows(keys[..f], KidOf);
    assert FindKey(kid, keys) == Some(f);
  }

  /** A kid-less entry before the first match moves the source's index below it, onto an
      entry that does not carry the kid. */
  lemma KidlessBeforeMatchMisselects(kid: string, keys: seq<KeyEntry>, f: nat, j: nat)
    requires FirstWithKid(keys, kid, f)
    requires j < f && keys[j].kid.None?
    ensures SelectedIndex(kid, keys) < f
    ensures keys[SelectedIndex(kid, keys)].kid != Some(kid)
  {
    Php.SearchPositionCountsEarlierRows(kid, keys, KidOf, f);
    assert keys[..f][j] == keys[j];
    Php.ColumnShorterWhenSomeRowLacks(keys[..f], KidOf, j);
  }

  /** Whenever the source's index differs from the first match, the entry it uses does not
      carry the requested kid at all. */
  lemma MisalignedSelectionIsWrongEntry(kid: string, keys: seq<KeyEntry>)
    requires FindKey(kid, keys).Some?
    requires SelectedIndex(kid, keys) != FindKey(kid, keys).value
    ensures keys[SelectedIndex(kid, keys)].kid != Some(kid)
  {
    var f := FindKey(kid, keys).value;
    Php.SearchPositionCountsEarlierRows(kid, keys, KidOf, f);
    if keys[SelectedIndex(kid, keys)].kid == Some(kid) {
      assert false;
    }
  }

  /** The corrected lookup never falls back: any entry it returns carries the kid asked for,
      and is the first such entry even when kids repeat. */
  lemma ResolveKeyNeverFallsBack(kid: string, doc: KeySet, convert: KeyConverter)
    requires HasKeys(doc)
    requires exists i :: 0 <= i < |doc.keys.value| && doc.keys.value[i].kid == Some(kid)
    ensures var i := FindKey(kid, doc.keys.value).value;
            && FirstWithKid(doc.keys.value, kid, i)
            && ResolveKey(kid, doc, convert) == KeyDataOf(doc.keys.value[i], convert)
  {
  }

  /** The algorithm `decode` is allowed to accept is the chosen key's own: a token whose
      header `alg` differs from it is refused as not allowed, even when both are supported. */
  lemma AlgorithmMismatchRejected(token: Jwt.Token, doc: KeySet, convert: KeyConverter, table: map<string, Jwt.Signer>,
                                  leeway: int, timestamp: int, verify: Jwt.Verifier)
    requires Jwt.TemporalClaimsNumeric(token.claims)
    requires FetchPublicKey(token.kid, doc, convert).Success?
    requires !Php.IsEmpty(FetchPublicKey(token.kid, doc, convert).value.publicKey) && !Php.IsEmpty(token.alg)
    requires FetchPublicKey(token.kid, doc, convert).value.alg != Some(token.alg)
    ensures DecodeIdentityToken(token, doc, convert, table, leeway, timestamp, verify)
            == Failure(TokenFailure(Jwt.AlgorithmNotAllowed))
  {
  }

  /** Lookup errors surface before any token check. */
  lemma KeyErrorsComeFirst(token: Jwt.Token, doc: KeySet, convert: KeyConverter, table: map<string, Jwt.Signer>,
                           leeway: int, timestamp: int, verify: Jwt.Verifier)
    requires Jwt.TemporalClaimsNumeric(token.claims)
    requires FetchPublicKey(token.kid, doc, convert).Failure?
    ensures DecodeIdentityToken(token, doc, convert, table, leeway, timestamp, verify)
            == Failure(KeyFailure(FetchPublicKey(token.kid, doc, convert).error))
  {
  }

  /** As written, a token naming a kid no published key carries is still checked against
      the first key, and its claims are returned whenever that key verifies it. */
  lemma UnknownKidCheckedAgainstFirstKey(token: Jwt.Token, doc: KeySet, convert: KeyConverter,
                                         table: map<string, Jwt.Signer>, leeway: int, timestamp: int,
                                         verify: Jwt.Verifier)
    requires Jwt.TemporalClaimsNumeric(token.claims)
    requires HasKeys(doc)
    requires forall i :: 0 <= i < |doc.keys.value| ==> doc.keys.value[i].kid != Some(token.kid)
    ensures DecodeIdentityToken(token, doc, convert, table, leeway, timestamp, verify)
            == DecodeWithKey(token, KeyDataOf(doc.keys.value[0], convert), table, leeway, timestamp, verify)
    ensures VerifyIdentityToken(token, doc, convert, table, leeway, timestamp, verify)
            == Failure(KeyFailure(KeyNotFound))
  {
    UnmatchedKidFallsBackToFirst(token.kid, doc, convert);
  }
}
