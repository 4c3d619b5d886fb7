/** The TypeScript location-hash codec (`location-hash.ts`): `compose` fills a `URLSearchParams`
    with `set` and serializes it after a `#`; `parse` reads the reserved keys with `get` (the first
    occurrence wins), collects the other keys in a loop (the last occurrence wins), parses the
    factor list, and only then checks the required fields. */
module CoreLocationHash {
  import opened Wrappers
  import opened Strings
  import opened RecoveryFactors
  import opened PathParams
  import opened QueryPairs
  import opened UrlSearchParams

  /** The three `Error`s the module throws: "Invalid recovery path parameters", "Recovery factor
      id is not an integer", "Invalid recovery factor id". */
  datatype HashError = InvalidPathParameters | NotAnInteger(raw: string) | InvalidFactorId(num: int)

  // ---- parseFactors ----

  /** One token of the factor list: `Number(raw)` must be an integer and one of
      `ALL_RECOVERY_FACTORS`. */
  function ParseFactor(raw: string): (r: Result<RecoveryFactor, HashError>)
    ensures r.Success? <==> ParseInt(raw).Some? && 1 <= ParseInt(raw).value <= 6
    ensures r.Success? ==> Code(r.value) == ParseInt(raw).value
    ensures r == Failure(NotAnInteger(raw)) <==> ParseInt(raw).None?
    ensures r.Failure? && ParseInt(raw).Some? ==> r.error == InvalidFactorId(ParseInt(raw).value)
  {
    match ParseInt(raw)
    case None => Failure(NotAnInteger(raw))
    case Some(num) =>
      TsIncludesIffRegistered(num);
      FromValueCorrect(num);
      if num in TsAllRecoveryFactors() then Success(FromValue(num).value) else Failure(InvalidFactorId(num))
  }

  /** `parseFactors(rawFactors)`. */
  function ParseFactors(rawFactors: string): Result<seq<RecoveryFactor>, HashError> {
    if rawFactors == "" then Success([]) else ParseEach(FactorTokens(rawFactors), ParseFactor)
  }

  /** The empty list gives no factors; otherwise every non-empty comma-separated token must be
      the code of a factor, the factors come in token order, and the first bad token is the one
      reported. */
  lemma ParseFactorsSpec(rawFactors: string)
    ensures rawFactors == "" ==> ParseFactors(rawFactors) == Success([])
    ensures var tokens := FactorTokens(rawFactors);
      var r := ParseFactors(rawFactors);
      (r.Success? <==> forall i :: 0 <= i < |tokens| ==> ParseFactor(tokens[i]).Success?) &&
      (r.Success? ==>
        |r.value| == |tokens| && forall i :: 0 <= i < |r.value| ==> Code(r.value[i]) == ParseInt(tokens[i]).value) &&
      (r.Failure? ==>
        exists i :: FirstFailure(tokens, ParseFactor, i) && ParseFactor(tokens[i]) == Failure(r.error))
  {
    if rawFactors == "" {
      assert Split("", ',') == [""];
    } else {
      ParseEachSpec(FactorTokens(rawFactors), ParseFactor);
    }
  }

  /** A written factor list parses back to the same factors, in order, duplicates included. */
  lemma ParseFactorsRoundTrip(fs: seq<RecoveryFactor>)
    ensures ParseFactors(FactorsValue(fs)) == Success(fs)
  {
    forall f
      ensures ParseFactor(NatToDecimal(Code(f))) == Success(f)
    {
      ParseFactorOfCode(f);
    }
    FactorsRoundTrip(fs, ParseFactor);
    FactorTokensOfValue(fs);
  }

  /** The decimal code of a factor parses back to that factor. */
  lemma ParseFactorOfCode(f: RecoveryFactor)
    ensures ParseFactor(NatToDecimal(Code(f))) == Success(f)
  {
    ParseIntOfDecimal(Code(f));
    CodesDistinct();
  }

  /** Runs of commas between two tokens and commas at either end are ignored. */
  lemma ParseFactorsSkipsEmpty(a: string, b: string, n: nat)
    requires ',' !in a
    ensures ParseFactors(a + Repeat(',', n + 1) + b) == ParseFactors(a + "," + b)
  {
    FactorTokensOfCommas(a, b, n);
    FactorTokensOfCommas(a, b, 0);
    assert Repeat(',', 1) == ",";
    assert a + Repeat(',', n + 1) + b != "";
    assert a + "," + b != "";
  }

  // ---- parse ----

  /** The pairs `new URLSearchParams(rawParams)` holds. */
  function HashPairs(hash: string): Pairs {
    ParseQuery(StripQuestionMark(StripHash(hash)))
  }

  /** What `parseUnforgettableLocationHash` returns or throws, given the parsed pairs. */
  function FromPairs(pairs: Pairs): Result<UnforgettablePathParams, HashError> {
    var dataTransferId := FirstValue(pairs, DataTransferIdKey).GetOr("");
    var encryptionPublicKey := FirstValue(pairs, EncryptionPublicKeyKey).GetOr("");
    var factors :- ParseFactors(FirstValue(pairs, FactorsKey).GetOr(""));
    if dataTransferId == "" || encryptionPublicKey == "" then Failure(InvalidPathParameters)
    else
      Success(UnforgettablePathParams(
        dataTransferId, encryptionPublicKey, factors,
        FirstValue(pairs, WalletAddressKey), FirstValue(pairs, GroupKey),
        NoneIfEmpty(CustomFold(pairs))))
  }

  function ParseHash(hash: string): Result<UnforgettablePathParams, HashError> {
    FromPairs(HashPairs(hash))
  }

  /** `parseUnforgettableLocationHash(hash)`. */
  method Parse(hash: string) returns (r: Result<UnforgettablePathParams, HashError>)
    ensures r == ParseHash(hash)
  {
    var rawParams := if |hash| > 0 && hash[0] == '#' then hash[1..] else hash;
    var searchParams := new SearchParams.FromString(rawParams);
    ghost var pairs := searchParams.list;
    assert pairs == HashPairs(hash);

    assert ParseHash(hash) == FromPairs(pairs);
    var customParams := CollectCustomParams(searchParams);

    var dataTransferId := searchParams.Get(DataTransferIdKey).GetOr("");
    var encryptionPublicKey := searchParams.Get(EncryptionPublicKeyKey).GetOr("");
    var factors :- ParseFactors(searchParams.Get(FactorsKey).GetOr(""));
    if dataTransferId == "" || encryptionPublicKey == "" {
      return Failure(InvalidPathParameters);
    }
    r := Success(UnforgettablePathParams(
      dataTransferId, encryptionPublicKey, factors,
      searchParams.Get(WalletAddressKey), searchParams.Get(GroupKey),
      NoneIfEmpty(customParams)));
  }

  /** The `for (const [key, value] of searchParams)` loop of `parse`: every pair whose key is not
      reserved is stored, so the last pair with a key wins. */
  method CollectCustomParams(searchParams: SearchParams) returns (customParams: map<string, string>)
    ensures customParams == CustomFold(searchParams.list)
  {
    ghost var pairs := searchParams.list;
    customParams := map[];
    var i := 0;
    while i < |searchParams.list|
      invariant 0 <= i <= |pairs|
      invariant customParams == CustomFold(pairs[..i])
    {
      var (key, value) := searchParams.list[i];
      if !IsReserved(key) {
        customParams := customParams[key := value];
      }
      CustomFoldStep(pairs, i);
      i := i + 1;
    }
    assert pairs[..i] == pairs;
  }

  /** A leading `#` makes no difference. */
  lemma ParseIgnoresHashSign(s: string)
    requires !(|s| > 0 && s[0] == '#')
    ensures ParseHash("#" + s) == ParseHash(s)
  {
    assert ("#" + s)[1..] == s;
  }

  /** The reserved fields take the first pair with their key, `wa` and `g` keep an empty value,
      and a bad factor list is reported before a missing `id` or `epk`. */
  lemma ParseReservedFirstWins(pairs: Pairs)
    ensures var factors := ParseFactors(FirstValue(pairs, FactorsKey).GetOr(""));
      (factors.Failure? ==> FromPairs(pairs) == Failure(factors.error)) &&
      (FromPairs(pairs).Success? ==>
        FirstValue(pairs, DataTransferIdKey) == Some(FromPairs(pairs).value.dataTransferId) &&
        FirstValue(pairs, EncryptionPublicKeyKey) == Some(FromPairs(pairs).value.encryptionPublicKey) &&
        factors == Success(FromPairs(pairs).value.factors) &&
        FromPairs(pairs).value.walletAddress == FirstValue(pairs, WalletAddressKey) &&
        FromPairs(pairs).value.group == FirstValue(pairs, GroupKey))
  {
    var id := FirstValue(pairs, DataTransferIdKey);
    var epk := FirstValue(pairs, EncryptionPublicKeyKey);
    var factors := ParseFactors(FirstValue(pairs, FactorsKey).GetOr(""));
    if factors.Success? && id.GetOr("") != "" && epk.GetOr("") != "" {
      assert FromPairs(pairs) == Success(UnforgettablePathParams(
        id.value, epk.value, factors.value, FirstValue(pairs, WalletAddressKey), FirstValue(pairs, GroupKey),
        NoneIfEmpty(CustomFold(pairs))));
    }
  }

  /** A missing or empty `id` or `epk` is rejected once the factors have parsed. */
  lemma ParseRequiresIdAndKey(pairs: Pairs)
    requires ParseFactors(FirstValue(pairs, FactorsKey).GetOr("")).Success?
    ensures FromPairs(pairs) == Failure(InvalidPathParameters) <==>
      FirstValue(pairs, DataTransferIdKey) in {None, Some("")} ||
      FirstValue(pairs, EncryptionPublicKeyKey) in {None, Some("")}
  {
    EmptyOrAbsent(FirstValue(pairs, DataTransferIdKey));
    EmptyOrAbsent(FirstValue(pairs, EncryptionPublicKeyKey));
  }

  /** `get(name) || ""` is empty exactly when the name is absent or its value is empty. */
  lemma EmptyOrAbsent(o: Option<string>)
    ensures o in {None, Some("")} <==> o.GetOr("") == ""
  {
    if o.Some? && o.value == "" {
      assert o == Some("");
    }
  }

  /** A custom key takes the value of its last pair. */
  lemma ParseCustomLastWins(pairs: Pairs, i: int)
    requires FromPairs(pairs).Success?
    requires 0 <= i < |pairs| && !IsReserved(pairs[i].0)
    requires forall j :: i < j < |pairs| ==> pairs[j].0 != pairs[i].0
    ensures FromPairs(pairs).value.customParams.Some?
    ensures pairs[i].0 in FromPairs(pairs).value.customParams.value
    ensures FromPairs(pairs).value.customParams.value[pairs[i].0] == pairs[i].1
  {
    CustomFoldIsRestrict(pairs);
    ToMapLastWins(pairs, i);
  }

  /** The custom parameters hold exactly the non-reserved keys and are absent when there is
      none. */
  lemma ParseCustomKeys(pairs: Pairs, key: string)
    requires FromPairs(pairs).Success?
    ensures FromPairs(pairs).value.customParams.None? ==> key !in NamesOf(pairs) || IsReserved(key)
    ensures FromPairs(pairs).value.customParams.Some? ==>
      (key in FromPairs(pairs).value.customParams.value <==> key in NamesOf(pairs) && !IsReserved(key))
  {
    CustomFoldKeys(pairs, key);
  }

  // ---- compose ----

  /** `composeUnforgettableLocationHash(params)`. `order` is the order in which
      `Object.entries` visits the custom parameters. */
  method Compose(p: UnforgettablePathParams) returns (hash: string, ghost order: seq<string>)
    ensures IsListing(order, EmittedCustom(p.customParams).Keys)
    ensures hash == "#" + Serialize(ComposedPairs(p, order, WhenTruthy))
  {
    var searchParams := new SearchParams();
    SetReservedParams(searchParams, p);
    order := SetCustomParams(searchParams, p.customParams);
    ComposedPairsOfOrder(p, order, WhenTruthy);
    hash := "#" + searchParams.ToString();
  }

  /** The `set` calls of `compose` for the reserved names, before the custom loop: on a new
      `URLSearchParams`, they leave the reserved part of the composed list. */
  method SetReservedParams(searchParams: SearchParams, p: UnforgettablePathParams)
    requires searchParams.list == []
    modifies searchParams
    ensures searchParams.list == ComposedPairs(p, [], WhenTruthy)
    ensures forall i :: 0 <= i < |searchParams.list| ==> IsReserved(searchParams.list[i].0)
  {
    searchParams.Set(DataTransferIdKey, p.dataTransferId);
    searchParams.Set(EncryptionPublicKeyKey, p.encryptionPublicKey);
    searchParams.Set(FactorsKey, FactorsValue(p.factors));
    SetFixedKeys(p);
    ghost var head := searchParams.list;
    if p.walletAddress.Some? && p.walletAddress.value != "" {
      searchParams.Set(WalletAddressKey, p.walletAddress.value);
    }
    SetOptionalKey(head, WalletAddressKey, p.walletAddress);
    head := head + OptionalPair(WalletAddressKey, p.walletAddress, WhenTruthy);
    if p.group.Some? && p.group.value != "" {
      searchParams.Set(GroupKey, p.group.value);
    }
    SetOptionalKey(head, GroupKey, p.group);
    head := head + OptionalPair(GroupKey, p.group, WhenTruthy);
    ComposedPairsSplit(p, [], WhenTruthy);
    assert CustomPairs([], EmittedCustom(p.customParams)) == [];
  }

  /** The first three `set` calls on an empty list append the fixed keys in order. */
  lemma SetFixedKeys(p: UnforgettablePathParams)
    ensures SetPair(SetPair(SetPair([], DataTransferIdKey, p.dataTransferId),
                            EncryptionPublicKeyKey, p.encryptionPublicKey), FactorsKey, FactorsValue(p.factors))
      == [(DataTransferIdKey, p.dataTransferId), (EncryptionPublicKeyKey, p.encryptionPublicKey),
          (FactorsKey, FactorsValue(p.factors))]
  {
    var one := [(DataTransferIdKey, p.dataTransferId)];
    SetPairAppends(one, EncryptionPublicKeyKey, p.encryptionPublicKey);
    var two := one + [(EncryptionPublicKeyKey, p.encryptionPublicKey)];
    assert NamesOf(two) == [DataTransferIdKey, EncryptionPublicKeyKey];
    SetPairAppends(two, FactorsKey, FactorsValue(p.factors));
  }

  /** The guarded `set` of `wa` or `g` appends the pair exactly when the value is truthy. */
  lemma SetOptionalKey(pairs: Pairs, key: string, v: Option<string>)
    requires key in {WalletAddressKey, GroupKey}
    requires forall i :: 0 <= i < |pairs| ==> pairs[i].0 in [DataTransferIdKey, EncryptionPublicKeyKey, FactorsKey, WalletAddressKey] && pairs[i].0 != key
    ensures (if v.Some? && v.value != "" then SetPair(pairs, key, v.value) else pairs)
      == pairs + OptionalPair(key, v, WhenTruthy)
    ensures forall i :: 0 <= i < |pairs + OptionalPair(key, v, WhenTruthy)| ==>
      (pairs + OptionalPair(key, v, WhenTruthy))[i].0 in [DataTransferIdKey, EncryptionPublicKeyKey, FactorsKey, WalletAddressKey, GroupKey]
  {
    if v.Some? && v.value != "" {
      SetPairAppends(pairs, key, v.value);
    }
  }

  /** The custom-parameter loop of `compose`: every entry whose key is not reserved is `set`, in
      the order `Object.entries` visits them. Since no such key is in the list yet, each `set`
      appends. */
  method SetCustomParams(searchParams: SearchParams, customParams: Option<map<string, string>>)
    returns (ghost order: seq<string>)
    requires forall i :: 0 <= i < |searchParams.list| ==> IsReserved(searchParams.list[i].0)
    modifies searchParams
    ensures IsListing(order, EmittedCustom(customParams).Keys)
    ensures searchParams.list == old(searchParams.list) + CustomPairs(order, EmittedCustom(customParams))
  {
    ghost var head := searchParams.list;
    ghost var emitted := EmittedCustom(customParams);
    order := [];
    assert CustomPairs(order, emitted) == [];
    if customParams.Some? {
      var custom := customParams.value;
      var keys := custom.Keys;
      ListingStarts(keys, emitted.Keys);
      while keys != {}
        invariant PartlyListed(order, keys, emitted.Keys)
        invariant searchParams.list == head + CustomPairs(order, emitted)
        decreases keys
      {
        var key :| key in keys;
        ListingVisits(order, keys, emitted.Keys, key);
        if !IsReserved(key) {
          ghost var list := searchParams.list;
          assert key !in NamesOf(list) by {
            forall i | 0 <= i < |list|
              ensures list[i].0 != key
            {
              if i >= |head| {
                assert list[i].0 == order[i - |head|];
              }
            }
          }
          SetPairAppends(list, key, custom[key]);
          searchParams.Set(key, custom[key]);
          CustomPairsAppend(order, key, emitted);
          order := order + [key];
        }
        keys := keys - {key};
      }
    }
    ListingEnds(order, emitted.Keys);
  }

  /** The `URLSearchParams` of a composed hash are the pairs that were serialized. */
  lemma HashPairsOfSerialized(pairs: Pairs)
    ensures HashPairs("#" + Serialize(pairs)) == pairs
  {
    var s := Serialize(pairs);
    assert ("#" + s)[1..] == s;
    SerializeNoQuestionMark(pairs);
    SerializeRoundTrip(pairs);
  }

  lemma FromComposedPairs(p: UnforgettablePathParams, order: seq<string>)
    requires IsListing(order, EmittedCustom(p.customParams).Keys)
    ensures var r := FromPairs(ComposedPairs(p, order, WhenTruthy));
      if p.dataTransferId == "" || p.encryptionPublicKey == "" then r == Failure(InvalidPathParameters)
      else r == Success(Normalized(p, WhenTruthy))
  {
    var pairs := ComposedPairs(p, order, WhenTruthy);
    ComposedPairsLookups(p, order, WhenTruthy);
    ParseFactorsRoundTrip(p.factors);
    ComposedPairsCustom(p, order, WhenTruthy);
    CustomFoldIsRestrict(pairs);
    FromPairsOfLookups(pairs, p);
  }

  /** `parse` reads back `p` from any pairs whose lookups give `p`'s fields. */
  lemma FromPairsOfLookups(pairs: Pairs, p: UnforgettablePathParams)
    requires FirstValue(pairs, DataTransferIdKey) == Some(p.dataTransferId)
    requires FirstValue(pairs, EncryptionPublicKeyKey) == Some(p.encryptionPublicKey)
    requires ParseFactors(FirstValue(pairs, FactorsKey).GetOr("")) == Success(p.factors)
    requires FirstValue(pairs, WalletAddressKey) == Emitted(p.walletAddress, WhenTruthy)
    requires FirstValue(pairs, GroupKey) == Emitted(p.group, WhenTruthy)
    requires CustomFold(pairs) == EmittedCustom(p.customParams)
    ensures var r := FromPairs(pairs);
      if p.dataTransferId == "" || p.encryptionPublicKey == "" then r == Failure(InvalidPathParameters)
      else r == Success(Normalized(p, WhenTruthy))
  {
  }

  /** The parameters `parse` gives back for a composed hash: `wa` and `g` are dropped when empty,
      reserved custom keys are dropped, and an empty custom map becomes absent; an empty `id` or
      `epk` makes the hash unparsable. */
  lemma ComposeParseRoundTrip(p: UnforgettablePathParams, order: seq<string>)
    requires IsListing(order, EmittedCustom(p.customParams).Keys)
    ensures p.dataTransferId != "" && p.encryptionPublicKey != "" ==>
      ParseHash("#" + Serialize(ComposedPairs(p, order, WhenTruthy))) == Success(Normalized(p, WhenTruthy))
    ensures p.dataTransferId == "" || p.encryptionPublicKey == "" ==>
      ParseHash("#" + Serialize(ComposedPairs(p, order, WhenTruthy))) == Failure(InvalidPathParameters)
  {
    HashPairsOfSerialized(ComposedPairs(p, order, WhenTruthy));
    FromComposedPairs(p, order);
  }

  /** `parse(compose(p)) == p` for parameters in the form `compose` preserves. */
  lemma ComposeParseIdentity(p: UnforgettablePathParams, order: seq<string>)
    requires IsListing(order, EmittedCustom(p.customParams).Keys)
    requires p.dataTransferId != "" && p.encryptionPublicKey != ""
    requires IsNormal(p, WhenTruthy)
    ensures ParseHash("#" + Serialize(ComposedPairs(p, order, WhenTruthy))) == Success(p)
  {
    ComposeParseRoundTrip(p, order);
    NormalizedOfNormal(p, WhenTruthy);
  }
}
