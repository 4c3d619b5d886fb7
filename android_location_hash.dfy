/** The Kotlin location-hash codec (`LocationHash.kt`). `compose` writes each item as
    `name=value` with `URLEncoder` (the factor list excepted) and joins them with `&`; `parse`
    splits on `&` and at the first `=`, decodes the value (not the name) with `URLDecoder`, builds a
    dictionary in which the last occurrence wins, checks the required fields, and only then parses
    the factor list. */
module AndroidLocationHash {
  import opened Wrappers
  import opened Strings
  import opened RecoveryFactors
  import opened PathParams
  import opened QueryPairs
  import UrlEncoding

  /** The three `LocationHashError`s, and `IllegalArgument`: the `IllegalArgumentException` that
      `URLDecoder.decode` throws out of `parse` on a malformed escape. */
  datatype LocationHashError =
    | InvalidParameters
    | InvalidFactorId(factorId: string)
    | NonIntegerFactor(factor: string)
    | IllegalArgument

  // ---- parseFactors ----

  /** One token: `toIntOrNull()` (a 32-bit integer) and then `RecoveryFactor.fromValue`. */
  function ParseFactor(rawFactor: string): (r: Result<RecoveryFactor, LocationHashError>)
    ensures r.Success? <==>
      ParseIntOfWidth(rawFactor, Int32).Some? && 1 <= ParseIntOfWidth(rawFactor, Int32).value <= 6
    ensures r.Success? ==> Code(r.value) == ParseInt(rawFactor).value
    ensures r == Failure(NonIntegerFactor(rawFactor)) <==> ParseIntOfWidth(rawFactor, Int32).None?
    ensures r.Failure? ==> r.error in {NonIntegerFactor(rawFactor), InvalidFactorId(rawFactor)}
  {
    match ParseIntOfWidth(rawFactor, Int32)
    case None => Failure(NonIntegerFactor(rawFactor))
    case Some(num) =>
      FromValueCorrect(num);
      match FromValue(num)
      case None => Failure(InvalidFactorId(rawFactor))
      case Some(factor) => Success(factor)
  }

  /** What `parseFactors(rawFactors)` returns or throws. */
  function FactorList(rawFactors: string): Result<seq<RecoveryFactor>, LocationHashError> {
    if rawFactors == "" then Success([]) else ParseEach(FactorTokens(rawFactors), ParseFactor)
  }

  /** `parseFactors(rawFactors)`: the `for` loop over the non-empty comma-separated tokens, which
      throws at the first bad one. */
  method ParseFactors(rawFactors: string) returns (r: Result<seq<RecoveryFactor>, LocationHashError>)
    ensures r == FactorList(rawFactors)
  {
    if rawFactors == "" {
      return Success([]);
    }
    var factorStrings := FactorTokens(rawFactors);
    var factors: seq<RecoveryFactor> := [];
    for i := 0 to |factorStrings|
      invariant ParseEach(factorStrings[..i], ParseFactor) == Success(factors)
    {
      var rawFactor := factorStrings[i];
      ParseEachLoopStep(factorStrings, ParseFactor, i, factors);
      var num := ParseIntOfWidth(rawFactor, Int32);
      if num.None? {
        return Failure(NonIntegerFactor(rawFactor));
      }
      var factor := FromValue(num.value);
      if factor.None? {
        return Failure(InvalidFactorId(rawFactor));
      }
      factors := factors + [factor.value];
    }
    assert factorStrings[..|factorStrings|] == factorStrings;
    r := Success(factors);
  }

  /** The empty list gives no factors; otherwise every token must be a code, the factors come in
      token order, and the first bad token is the one reported. */
  lemma FactorListSpec(rawFactors: string)
    ensures rawFactors == "" ==> FactorList(rawFactors) == Success([])
    ensures var tokens := FactorTokens(rawFactors);
      var r := FactorList(rawFactors);
      (r.Success? <==> forall i :: 0 <= i < |tokens| ==> ParseFactor(tokens[i]).Success?) &&
      (r.Success? ==>
        |r.value| == |tokens| && forall i :: 0 <= i < |r.value| ==> Code(r.value[i]) == ParseInt(tokens[i]).value) &&
      (r.Failure? ==>
        exists i :: FirstFailure(tokens, ParseFactor, i) && ParseFactor(tokens[i]) == Failure(r.error))
  {
    if rawFactors == "" {
      assert Split("", ',') == [""];
    } else {
      ParseEachSpec(FactorTokens(rawFactors), ParseFactor);
    }
  }

  /** A written factor list parses back to the same factors. */
  lemma FactorListRoundTrip(fs: seq<RecoveryFactor>)
    ensures FactorList(FactorsValue(fs)) == Success(fs)
  {
    forall f
      ensures ParseFactor(NatToDecimal(Code(f))) == Success(f)
    {
      ParseIntOfDecimal(Code(f));
      FromValueCorrect(Code(f));
    }
    FactorsRoundTrip(fs, ParseFactor);
    FactorTokensOfValue(fs);
  }

  // ---- parse ----

  /** One `&`-separated piece, `split("=", limit = 2)`: without `=` it is dropped (None); with
      one, the value is decoded with `URLDecoder.decode`, and so is the name when `decodeKeys`
      (the written `parse` does not decode names). */
  function DecodePiece(piece: string, decodeKeys: bool): Result<Option<(string, string)>, LocationHashError> {
    var (name, value) := SplitAtFirst(piece, '=');
    if value.None? then Success(None)
    else
      match (if decodeKeys then UrlEncoding.JavaDecode(name) else Some(name), UrlEncoding.JavaDecode(value.value))
      case (Some(k), Some(v)) => Success(Some((k, v)))
      case _ => Failure(IllegalArgument)
  }

  /** The `mapNotNull` over the pieces, in order. */
  function DecodedPairs(pieces: seq<string>, decodeKeys: bool): Result<Pairs, LocationHashError> {
    if pieces == [] then Success([])
    else
      var first :- DecodePiece(pieces[0], decodeKeys);
      var rest :- DecodedPairs(pieces[1..], decodeKeys);
      Success((if first.Some? then [first.value] else []) + rest)
  }

  /** A piece that makes `URLDecoder` throw: it has a `=`, and what it decodes is malformed. */
  predicate Throws(piece: string, decodeKeys: bool) {
    var (name, value) := SplitAtFirst(piece, '=');
    value.Some? && (!UrlEncoding.WellEscaped(value.value) || (decodeKeys && !UrlEncoding.WellEscaped(name)))
  }

  /** `parse` throws `IllegalArgumentException` exactly when some piece has a malformed escape in
      what it decodes. */
  lemma {:induction false} DecodedPairsFailure(pieces: seq<string>, decodeKeys: bool)
    ensures DecodedPairs(pieces, decodeKeys).Failure? <==> exists i :: 0 <= i < |pieces| && Throws(pieces[i], decodeKeys)
    ensures DecodedPairs(pieces, decodeKeys).Failure? ==> DecodedPairs(pieces, decodeKeys).error == IllegalArgument
    decreases |pieces|
  {
    if pieces != [] {
      DecodedPairsFailure(pieces[1..], decodeKeys);
      if exists i :: 0 <= i < |pieces[1..]| && Throws(pieces[1..][i], decodeKeys) {
        var i :| 0 <= i < |pieces[1..]| && Throws(pieces[1..][i], decodeKeys);
        assert Throws(pieces[i + 1], decodeKeys);
      }
      if exists i :: 0 <= i < |pieces| && Throws(pieces[i], decodeKeys) {
        var i :| 0 <= i < |pieces| && Throws(pieces[i], decodeKeys);
        if i > 0 {
          assert Throws(pieces[1..][i - 1], decodeKeys);
        }
      }
    }
  }

  /** What `parseUnforgettableLocationHash` returns or throws, given the dictionary. */
  function FromParams(params: map<string, string>): Result<UnforgettablePathParams, LocationHashError> {
    if DataTransferIdKey !in params || EncryptionPublicKeyKey !in params
       || params[DataTransferIdKey] == "" || params[EncryptionPublicKeyKey] == "" then
      Failure(InvalidParameters)
    else
      var factors :- FactorList(Lookup(params, FactorsKey).GetOr(""));
      Success(UnforgettablePathParams(
        params[DataTransferIdKey], params[EncryptionPublicKeyKey], factors,
        Lookup(params, WalletAddressKey), Lookup(params, GroupKey),
        NoneIfEmpty(RestrictCustom(params))))
  }

  /** The parse, with the written name handling (`decodeKeys` false) or with names decoded. */
  function ParseHashWith(hash: string, decodeKeys: bool): Result<UnforgettablePathParams, LocationHashError> {
    var pairs :- DecodedPairs(Split(StripHash(hash), '&'), decodeKeys);
    FromParams(ToMap(pairs))
  }

  /** `parseUnforgettableLocationHash(hash)` as written. */
  function ParseHash(hash: string): Result<UnforgettablePathParams, LocationHashError> {
    ParseHashWith(hash, false)
  }

  /** `parseUnforgettableLocationHash(hash)` with `URLDecoder.decode(parts[0], "UTF-8")` as the
      key, the inverse of what `compose` writes. */
  function ParseHashDecodingKeys(hash: string): Result<UnforgettablePathParams, LocationHashError> {
    ParseHashWith(hash, true)
  }

  /** A leading `#` makes no difference. */
  lemma ParseIgnoresHashSign(s: string, decodeKeys: bool)
    requires !(|s| > 0 && s[0] == '#')
    ensures ParseHashWith("#" + s, decodeKeys) == ParseHashWith(s, decodeKeys)
  {
    assert ("#" + s)[1..] == s;
  }

  /** A missing or empty `id` or `epk` is reported before anything about the factor list; with
      both present, a bad factor list is what is reported. */
  lemma ParseChecksRequiredFirst(params: map<string, string>)
    ensures var required := DataTransferIdKey in params && EncryptionPublicKeyKey in params &&
        params[DataTransferIdKey] != "" && params[EncryptionPublicKeyKey] != "";
      var factors := FactorList(Lookup(params, FactorsKey).GetOr(""));
      (!required ==> FromParams(params) == Failure(InvalidParameters)) &&
      (required && factors.Failure? ==> FromParams(params) == Failure(factors.error)) &&
      (FromParams(params).Success? <==> required && factors.Success?)
  {
  }

  /** Every field, reserved or custom, takes the value of the last pair with its name. */
  lemma {:induction false} ParseLastWins(pairs: Pairs, i: int)
    requires FromParams(ToMap(pairs)).Success?
    requires 0 <= i < |pairs| && forall j :: i < j < |pairs| ==> pairs[j].0 != pairs[i].0
    ensures var p := FromParams(ToMap(pairs)).value;
      var v := pairs[i].1;
      (pairs[i].0 == DataTransferIdKey ==> p.dataTransferId == v) &&
      (pairs[i].0 == EncryptionPublicKeyKey ==> p.encryptionPublicKey == v) &&
      (pairs[i].0 == WalletAddressKey ==> p.walletAddress == Some(v)) &&
      (pairs[i].0 == GroupKey ==> p.group == Some(v)) &&
      (!IsReserved(pairs[i].0) ==>
        p.customParams.Some? && pairs[i].0 in p.customParams.value && p.customParams.value[pairs[i].0] == v)
  {
    ToMapLastWins(pairs, i);
  }

  /** A piece without `=` is ignored. */
  lemma DropsPieceWithoutEquals(a: seq<string>, piece: string, b: seq<string>, decodeKeys: bool)
    requires '=' !in piece
    ensures DecodedPairs(a + [piece] + b, decodeKeys) == DecodedPairs(a + b, decodeKeys)
  {
    var left := a + [piece];
    DecodedPairsAppend(left, b, decodeKeys);
    DecodedPairsAppend(a, b, decodeKeys);
    assert DecodedPairs(left, decodeKeys) == DecodedPairs(a, decodeKeys) by {
      DecodedPairsAppend(a, [piece], decodeKeys);
      PieceWithoutEqualsDecodesToNothing(piece, decodeKeys);
      match DecodedPairs(a, decodeKeys)
      case Failure(_) =>
      case Success(x) => assert x + [] == x;
    }
  }

  lemma PieceWithoutEqualsDecodesToNothing(piece: string, decodeKeys: bool)
    requires '=' !in piece
    ensures DecodedPairs([piece], decodeKeys) == Success([])
  {
    assert [piece][1..] == [];
    assert DecodePiece(piece, decodeKeys) == Success(None);
    assert DecodedPairs([piece][1..], decodeKeys) == Success([]);
    var none: Pairs := [];
    assert none + none == none;
  }

  lemma {:induction false} DecodedPairsAppend(a: seq<string>, b: seq<string>, decodeKeys: bool)
    ensures DecodedPairs(a + b, decodeKeys) ==
      match DecodedPairs(a, decodeKeys)
      case Failure(e) => Failure(e)
      case Success(x) =>
        match DecodedPairs(b, decodeKeys)
        case Failure(e) => Failure(e)
        case Success(y) => Success(x + y)
    decreases |a|
  {
    if a == [] {
      assert a + b == b;
      match DecodedPairs(b, decodeKeys)
      case Failure(_) =>
      case Success(y) => assert [] + y == y;
    } else {
      assert (a + b)[0] == a[0] && (a + b)[1..] == a[1..] + b;
      DecodedPairsAppend(a[1..], b, decodeKeys);
      match DecodePiece(a[0], decodeKeys)
      case Failure(_) =>
      case Success(first) =>
        var head := if first.Some? then [first.value] else [];
        match DecodedPairs(a[1..], decodeKeys)
        case Failure(_) =>
        case Success(x) =>
          match DecodedPairs(b, decodeKeys)
          case Failure(_) =>
          case Success(y) => assert head + (x + y) == (head + x) + y;
    }
  }

  // ---- compose ----

  /** One item as `compose` writes it: name and value through `URLEncoder.encode`, except the
      factor list, whose value is written as it is. (The reserved names are letters only, so
      encoding them changes nothing.) */
  function WritePair(pair: (string, string)): string {
    UrlEncoding.Encode(UrlEncoding.Form, pair.0) + "=" +
    (if pair.0 == FactorsKey then pair.1 else UrlEncoding.Encode(UrlEncoding.Form, pair.1))
  }

  function WritePairs(pairs: Pairs): (r: seq<string>)
    ensures |r| == |pairs| && forall i :: 0 <= i < |pairs| ==> r[i] == WritePair(pairs[i])
  {
    if pairs == [] then [] else [WritePair(pairs[0])] + WritePairs(pairs[1..])
  }

  lemma ReservedNamesUnescaped()
    ensures forall k :: k in AllParamsKeys ==> UrlEncoding.Encode(UrlEncoding.Form, k) == k
  {
    forall k | k in AllParamsKeys
      ensures UrlEncoding.Encode(UrlEncoding.Form, k) == k
    {
      UrlEncoding.EncodeUnescaped(UrlEncoding.Form, k);
    }
  }

  /** `composeUnforgettableLocationHash(params)`. `order` is the order in which `forEach` visits
      the custom parameters. */
  method Compose(p: UnforgettablePathParams) returns (hash: string, ghost order: seq<string>)
    ensures IsListing(order, EmittedCustom(p.customParams).Keys)
    ensures hash == "#" + Join(WritePairs(ComposedPairs(p, order, WhenPresent)), '&')
  {
    var queryParams := AddReservedParams(p);
    ghost var head := ComposedPairs(p, [], WhenPresent);
    queryParams, order := AddCustomParams(queryParams, head, p.customParams);
    ComposedPairsOfOrder(p, order, WhenPresent);
    hash := "#" + Join(queryParams, '&');
  }

  /** The `queryParams.add` calls of `compose` for the reserved names, before the custom loop. */
  method AddReservedParams(p: UnforgettablePathParams) returns (queryParams: seq<string>)
    ensures queryParams == WritePairs(ComposedPairs(p, [], WhenPresent))
  {
    ghost var written: Pairs := [];
    queryParams := [];
    assert queryParams == WritePairs(written);
    queryParams := queryParams + [DataTransferIdKey + "=" + UrlEncoding.Encode(UrlEncoding.Form, p.dataTransferId)];
    WriteReserved(written, DataTransferIdKey, p.dataTransferId);
    written := written + [(DataTransferIdKey, p.dataTransferId)];
    assert queryParams == WritePairs(written);
    queryParams := queryParams + [EncryptionPublicKeyKey + "=" + UrlEncoding.Encode(UrlEncoding.Form, p.encryptionPublicKey)];
    WriteReserved(written, EncryptionPublicKeyKey, p.encryptionPublicKey);
    written := written + [(EncryptionPublicKeyKey, p.encryptionPublicKey)];
    assert queryParams == WritePairs(written);
    queryParams := queryParams + [FactorsKey + "=" + FactorsValue(p.factors)];
    WriteReserved(written, FactorsKey, FactorsValue(p.factors));
    written := written + [(FactorsKey, FactorsValue(p.factors))];
    assert queryParams == WritePairs(written);
    ghost var fixed := written;
    assert fixed == [(DataTransferIdKey, p.dataTransferId), (EncryptionPublicKeyKey, p.encryptionPublicKey),
                     (FactorsKey, FactorsValue(p.factors))];
    if p.walletAddress.Some? {
      queryParams := queryParams + [WalletAddressKey + "=" + UrlEncoding.Encode(UrlEncoding.Form, p.walletAddress.value)];
      WriteReserved(written, WalletAddressKey, p.walletAddress.value);
      written := written + [(WalletAddressKey, p.walletAddress.value)];
      assert queryParams == WritePairs(written);
    }
    assert written == fixed + OptionalPair(WalletAddressKey, p.walletAddress, WhenPresent);
    if p.group.Some? {
      queryParams := queryParams + [GroupKey + "=" + UrlEncoding.Encode(UrlEncoding.Form, p.group.value)];
      WriteReserved(written, GroupKey, p.group.value);
      written := written + [(GroupKey, p.group.value)];
      assert queryParams == WritePairs(written);
    }
    assert written == fixed + OptionalPair(WalletAddressKey, p.walletAddress, WhenPresent)
                            + OptionalPair(GroupKey, p.group, WhenPresent);
    ComposedPairsSplit(p, [], WhenPresent);
    assert CustomPairs([], EmittedCustom(p.customParams)) == [];
    assert written == ComposedPairs(p, [], WhenPresent);
  }

  /** A reserved name is written as it is, so appending a reserved pair appends `name=value`. */
  lemma WriteReserved(written: Pairs, k: string, v: string)
    requires k in AllParamsKeys
    ensures WritePairs(written + [(k, v)]) ==
      WritePairs(written) + [k + "=" + (if k == FactorsKey then v else UrlEncoding.Encode(UrlEncoding.Form, v))]
  {
    ReservedNamesUnescaped();
    WritePairsAppend(written, [(k, v)]);
  }

  lemma WritePairsAppend(a: Pairs, b: Pairs)
    ensures WritePairs(a + b) == WritePairs(a) + WritePairs(b)
  {
  }

  /** The `customParams?.forEach` loop of `compose`: each entry whose key is not reserved is
      added, in the order `order` in which the loop visits them. */
  method AddCustomParams(queryParams: seq<string>, ghost head: Pairs, customParams: Option<map<string, string>>)
    returns (result: seq<string>, ghost order: seq<string>)
    requires queryParams == WritePairs(head)
    ensures IsListing(order, EmittedCustom(customParams).Keys)
    ensures result == WritePairs(head + CustomPairs(order, EmittedCustom(customParams)))
  {
    ghost var emitted := EmittedCustom(customParams);
    result := queryParams;
    order := [];
    assert head + CustomPairs(order, emitted) == head;
    if customParams.Some? {
      var custom := customParams.value;
      var keys := custom.Keys;
      ListingStarts(keys, emitted.Keys);
      while keys != {}
        invariant PartlyListed(order, keys, emitted.Keys)
        invariant result == WritePairs(head + CustomPairs(order, emitted))
        decreases keys
      {
        var key :| key in keys;
        ListingVisits(order, keys, emitted.Keys, key);
        if !IsReserved(key) {
          result := result + [UrlEncoding.Encode(UrlEncoding.Form, key) + "=" + UrlEncoding.Encode(UrlEncoding.Form, custom[key])];
          WriteCustomStep(head, order, emitted, key);
          order := order + [key];
        }
        keys := keys - {key};
      }
    }
    ListingEnds(order, emitted.Keys);
  }

  /** Writing one more custom entry appends its `name=value` text. */
  lemma WriteCustomStep(head: Pairs, order: seq<string>, emitted: map<string, string>, key: string)
    requires forall i :: 0 <= i < |order| ==> order[i] in emitted
    requires key in emitted && !IsReserved(key)
    ensures WritePairs(head + CustomPairs(order + [key], emitted)) ==
      WritePairs(head + CustomPairs(order, emitted)) +
      [UrlEncoding.Encode(UrlEncoding.Form, key) + "=" + UrlEncoding.Encode(UrlEncoding.Form, emitted[key])]
  {
    CustomPairsAppend(order, key, emitted);
    WritePairsAppend(head + CustomPairs(order, emitted), [(key, emitted[key])]);
    assert head + CustomPairs(order + [key], emitted) == head + CustomPairs(order, emitted) + [(key, emitted[key])];
    assert key != FactorsKey;
  }

  // ---- the round trip ----

  /** The pairs with each name as `compose` writes it. */
  function KeysEncoded(pairs: Pairs): (r: Pairs)
    ensures |r| == |pairs| &&
      forall i :: 0 <= i < |pairs| ==> r[i] == (UrlEncoding.Encode(UrlEncoding.Form, pairs[i].0), pairs[i].1)
  {
    if pairs == [] then [] else [(UrlEncoding.Encode(UrlEncoding.Form, pairs[0].0), pairs[0].1)] + KeysEncoded(pairs[1..])
  }

  /** A factor-list value that is safe to write unescaped: no `&`, `%` or `+`. */
  predicate RawSafe(s: string) {
    '&' !in s && '%' !in s && '+' !in s
  }

  lemma {:induction false} DecodedPairsAll(pieces: seq<string>, out: Pairs, decodeKeys: bool)
    requires |pieces| == |out|
    requires forall i :: 0 <= i < |pieces| ==> DecodePiece(pieces[i], decodeKeys) == Success(Some(out[i]))
    ensures DecodedPairs(pieces, decodeKeys) == Success(out)
    decreases |pieces|
  {
    if pieces != [] {
      DecodedPairsAll(pieces[1..], out[1..], decodeKeys);
      assert [out[0]] + out[1..] == out;
    }
  }

  /** The pieces of a written list decode back to its pairs, names left as written or decoded. */
  lemma DecodeWritten(pairs: Pairs, decodeKeys: bool)
    requires |pairs| > 0
    requires forall i :: 0 <= i < |pairs| && pairs[i].0 == FactorsKey ==> RawSafe(pairs[i].1)
    ensures DecodedPairs(Split(Join(WritePairs(pairs), '&'), '&'), decodeKeys) ==
      Success(if decodeKeys then pairs else KeysEncoded(pairs))
  {
    var pieces := WritePairs(pairs);
    var out := if decodeKeys then pairs else KeysEncoded(pairs);
    forall i | 0 <= i < |pieces|
      ensures '&' !in pieces[i]
      ensures DecodePiece(pieces[i], decodeKeys) == Success(Some(out[i]))
    {
      var (n, v) := pairs[i];
      var name := UrlEncoding.Encode(UrlEncoding.Form, n);
      var value := if n == FactorsKey then v else UrlEncoding.Encode(UrlEncoding.Form, v);
      UrlEncoding.EncodedHasNoSeparator(UrlEncoding.Form, n);
      UrlEncoding.EncodedHasNoSeparator(UrlEncoding.Form, v);
      UrlEncoding.FormRoundTrip(n);
      UrlEncoding.FormRoundTrip(v);
      if n == FactorsKey {
        UrlEncoding.DecodePlain(v);
      }
      assert pieces[i] == name + ['='] + value;
      SplitAtFirstOfPair(name, value, '=');
    }
    SplitJoin(pieces, '&');
    DecodedPairsAll(pieces, out, decodeKeys);
  }

  /** In a composed list, the factor list is the only pair named `f`. */
  lemma ComposedFactorPair(p: UnforgettablePathParams, order: seq<string>)
    requires IsListing(order, EmittedCustom(p.customParams).Keys)
    ensures var pairs := ComposedPairs(p, order, WhenPresent);
      |pairs| > 0 && forall i :: 0 <= i < |pairs| && pairs[i].0 == FactorsKey ==> RawSafe(pairs[i].1)
  {
    var pairs := ComposedPairs(p, order, WhenPresent);
    ComposedPairsLookups(p, order, WhenPresent);
    ComposedPairsCustom(p, order, WhenPresent);
    FactorsValueChars(p.factors);
    assert pairs[2] == (FactorsKey, FactorsValue(p.factors));
  }

  /** The record read back from the dictionary of a composed list. */
  lemma FromComposedPairs(p: UnforgettablePathParams, order: seq<string>)
    requires IsListing(order, EmittedCustom(p.customParams).Keys)
    ensures var r := FromParams(ToMap(ComposedPairs(p, order, WhenPresent)));
      if p.dataTransferId == "" || p.encryptionPublicKey == "" then r == Failure(InvalidParameters)
      else r == Success(Normalized(p, WhenPresent))
  {
    var pairs := ComposedPairs(p, order, WhenPresent);
    ComposedPairsLookups(p, order, WhenPresent);
    ComposedPairsCustom(p, order, WhenPresent);
    forall key
      ensures Lookup(ToMap(pairs), key) == FirstValue(pairs, key)
    {
      ToMapOfDistinct(pairs, key);
    }
    FactorListRoundTrip(p.factors);
  }

  lemma ParseHashOfText(text: string, decodeKeys: bool)
    ensures ParseHashWith("#" + text, decodeKeys) ==
      match DecodedPairs(Split(text, '&'), decodeKeys)
      case Failure(e) => Failure(e)
      case Success(pairs) => FromParams(ToMap(pairs))
  {
    assert ("#" + text)[1..] == text;
  }

  /** With names decoded, a composed hash reads back as the record: `wa` and `g` as they were,
      reserved custom keys dropped, an empty custom map absent; an empty `id` or `epk` is
      rejected. */
  lemma ComposeParseDecodingKeysRoundTrip(p: UnforgettablePathParams, order: seq<string>)
    requires IsListing(order, EmittedCustom(p.customParams).Keys)
    ensures var r := ParseHashDecodingKeys("#" + Join(WritePairs(ComposedPairs(p, order, WhenPresent)), '&'));
      if p.dataTransferId == "" || p.encryptionPublicKey == "" then r == Failure(InvalidParameters)
      else r == Success(Normalized(p, WhenPresent))
  {
    var pairs := ComposedPairs(p, order, WhenPresent);
    ComposedFactorPair(p, order);
    DecodeWritten(pairs, true);
    ParseHashOfText(Join(WritePairs(pairs), '&'), true);
    FromComposedPairs(p, order);
  }

  /** `parse(compose(p)) == p` with names decoded, for a record in the form a round trip keeps. */
  lemma ComposeParseDecodingKeysIdentity(p: UnforgettablePathParams, order: seq<string>)
    requires IsListing(order, EmittedCustom(p.customParams).Keys)
    requires p.dataTransferId != "" && p.encryptionPublicKey != ""
    requires IsNormal(p, WhenPresent)
    ensures ParseHashDecodingKeys("#" + Join(WritePairs(ComposedPairs(p, order, WhenPresent)), '&')) == Success(p)
  {
    ComposeParseDecodingKeysRoundTrip(p, order);
    NormalizedOfNormal(p, WhenPresent);
  }

  // ---- the written parse ----

  /** A custom key that `URLEncoder` leaves as it is: ASCII letters, digits and `*-._`. */
  predicate UnescapedKey(k: string) {
    forall i :: 0 <= i < |k| ==> UrlEncoding.Unescaped(UrlEncoding.Form, k[i])
  }

  /** The written `parse` reads the dictionary with each name as `compose` escaped it. */
  lemma ComposeParseKeysEncoded(p: UnforgettablePathParams, order: seq<string>)
    requires IsListing(order, EmittedCustom(p.customParams).Keys)
    ensures ParseHash("#" + Join(WritePairs(ComposedPairs(p, order, WhenPresent)), '&')) ==
      FromParams(ToMap(KeysEncoded(ComposedPairs(p, order, WhenPresent))))
  {
    var pairs := ComposedPairs(p, order, WhenPresent);
    ComposedFactorPair(p, order);
    DecodeWritten(pairs, false);
    ParseHashOfText(Join(WritePairs(pairs), '&'), false);
  }

  /** Names `URLEncoder` leaves alone are read back as they were written. */
  lemma {:induction false} KeysEncodedUnchanged(pairs: Pairs)
    requires forall i :: 0 <= i < |pairs| ==> UrlEncoding.Encode(UrlEncoding.Form, pairs[i].0) == pairs[i].0
    ensures KeysEncoded(pairs) == pairs
  {
  }

  /** In a composed list whose custom keys are unescaped, every name is written as it is. */
  lemma ComposedNamesUnescaped(p: UnforgettablePathParams, order: seq<string>)
    requires IsListing(order, EmittedCustom(p.customParams).Keys)
    requires p.customParams.Some? ==> forall k :: k in p.customParams.value ==> UnescapedKey(k)
    ensures var pairs := ComposedPairs(p, order, WhenPresent);
      forall i :: 0 <= i < |pairs| ==> UrlEncoding.Encode(UrlEncoding.Form, pairs[i].0) == pairs[i].0
  {
    var pairs := ComposedPairs(p, order, WhenPresent);
    ReservedNamesUnescaped();
    ComposedPairsSplit(p, order, WhenPresent);
    forall i | 0 <= i < |pairs|
      ensures UrlEncoding.Encode(UrlEncoding.Form, pairs[i].0) == pairs[i].0
    {
      if !IsReserved(pairs[i].0) {
        UrlEncoding.EncodeUnescaped(UrlEncoding.Form, pairs[i].0);
      }
    }
  }

  /** So the written codec round-trips when every custom key is made of characters `URLEncoder`
      leaves alone. */
  lemma {:induction false} ComposeParseRoundTrip(p: UnforgettablePathParams, order: seq<string>)
    requires IsListing(order, EmittedCustom(p.customParams).Keys)
    requires p.customParams.Some? ==> forall k :: k in p.customParams.value ==> UnescapedKey(k)
    ensures var r := ParseHash("#" + Join(WritePairs(ComposedPairs(p, order, WhenPresent)), '&'));
      if p.dataTransferId == "" || p.encryptionPublicKey == "" then r == Failure(InvalidParameters)
      else r == Success(Normalized(p, WhenPresent))
  {
    var pairs := ComposedPairs(p, order, WhenPresent);
    assert KeysEncoded(pairs) == pairs by {
      ComposedNamesUnescaped(p, order);
      KeysEncodedUnchanged(pairs);
    }
    assert ParseHash("#" + Join(WritePairs(pairs), '&')) == FromParams(ToMap(pairs)) by {
      ComposeParseKeysEncoded(p, order);
    }
    FromComposedPairs(p, order);
  }

  /** On success, the custom parameters are the dictionary's entries under names that are not
      reserved. */
  lemma FromParamsCustom(params: map<string, string>)
    requires FromParams(params).Success?
    ensures FromParams(params).value.customParams == NoneIfEmpty(RestrictCustom(params))
  {
  }

  /** A name with a space is never among the names the written `parse` reads from a list
      `compose` wrote: `URLEncoder` writes the space as `+`, and the name is not decoded. */
  lemma {:induction false} SpacedNameAbsent(pairs: Pairs, k: string)
    requires ' ' in k
    ensures k !in ToMap(KeysEncoded(pairs))
  {
    var written := KeysEncoded(pairs);
    ToMapKeys(written, k);
    if k in NamesOf(written) {
      var i :| 0 <= i < |written| && NamesOf(written)[i] == k;
      assert k == UrlEncoding.Encode(UrlEncoding.Form, pairs[i].0);
      UrlEncoding.FormEncodedHasNoSpace(pairs[i].0);
      assert false;
    }
  }

  /** A custom key with a space never comes back: the written `parse` keeps `URLEncoder`'s `+`
      in the name. */
  lemma ComposeParseLosesSpacedKey(p: UnforgettablePathParams, order: seq<string>, k: string)
    requires IsListing(order, EmittedCustom(p.customParams).Keys)
    requires ' ' in k
    ensures var r := ParseHash("#" + Join(WritePairs(ComposedPairs(p, order, WhenPresent)), '&'));
      r.Success? ==> r.value.customParams.None? || k !in r.value.customParams.value
  {
    var pairs := ComposedPairs(p, order, WhenPresent);
    var m := ToMap(KeysEncoded(pairs));
    assert ParseHash("#" + Join(WritePairs(pairs), '&')) == FromParams(m) by {
      ComposeParseKeysEncoded(p, order);
    }
    assert k !in m by {
      SpacedNameAbsent(pairs, k);
    }
    if FromParams(m).Success? {
      FromParamsCustom(m);
    }
  }

  /** The written codec therefore does not invert: a record with the custom key `a b` comes back
      without it. */
  lemma ComposeNotInvertible()
    ensures exists p: UnforgettablePathParams, order: seq<string> :: NotRecovered(p, order)
  {
    assert "a b"[1] == ' ' && "a b"[0] == 'a';
    SpacedKeyWitness("a b", "c");
  }

  /** The record with id `i`, key `k` and the one custom entry `name`, where `name` has a space. */
  lemma SpacedKeyWitness(name: string, value: string)
    requires ' ' in name && !IsReserved(name)
    ensures exists p: UnforgettablePathParams, order: seq<string> :: NotRecovered(p, order)
  {
    var custom := map[name := value];
    var p := UnforgettablePathParams("i", "k", [], None, None, Some(custom));
    var order := [name];
    assert EmittedCustom(p.customParams) == custom;
    assert custom.Keys == {name};
    SpacedKeyNotRecovered(p, order, name);
  }

  /** `compose` followed by the written `parse` does not give back `p`, a well-formed record whose
      custom entries were visited in the order `order`. */
  ghost predicate NotRecovered(p: UnforgettablePathParams, order: seq<string>) {
    IsListing(order, EmittedCustom(p.customParams).Keys) &&
    p.dataTransferId != "" && p.encryptionPublicKey != "" && IsNormal(p, WhenPresent) &&
    ParseHash("#" + Join(WritePairs(ComposedPairs(p, order, WhenPresent)), '&')) != Success(p)
  }

  /** Any well-formed record with a spaced custom key is one. */
  lemma SpacedKeyNotRecovered(p: UnforgettablePathParams, order: seq<string>, k: string)
    requires IsListing(order, EmittedCustom(p.customParams).Keys)
    requires p.dataTransferId != "" && p.encryptionPublicKey != "" && IsNormal(p, WhenPresent)
    requires p.customParams.Some? && k in p.customParams.value && ' ' in k
    ensures NotRecovered(p, order)
  {
    ComposeParseLosesSpacedKey(p, order, k);
  }
}
