/** The Swift location-hash codec (`LocationHash.swift`). `compose` appends `URLQueryItem`s to a
    `URLComponents` and returns `#` followed by its `query`; `parse` reads the `queryItems` of
    `URLComponents(string: "?" + rawParams)`, puts every item that has a value into a dictionary
    (the last occurrence wins), checks the required fields, and only then parses the factor
    list. */
module IosLocationHash {
  import opened Wrappers
  import opened Strings
  import opened RecoveryFactors
  import opened PathParams
  import opened QueryPairs
  import UrlEncoding

  /** `LocationHashError`; both factor errors carry the offending token as written. */
  datatype LocationHashError = InvalidParameters | InvalidFactorId(raw: string) | NonIntegerFactor(raw: string)

  // ---- parseFactors ----

  /** One token: `Int(rawFactor)` (a 64-bit integer) and then `RecoveryFactor(rawValue:)`. */
  function ParseFactor(rawFactor: string): (r: Result<RecoveryFactor, LocationHashError>)
    ensures r.Success? <==>
      ParseIntOfWidth(rawFactor, Int64).Some? && 1 <= ParseIntOfWidth(rawFactor, Int64).value <= 6
    ensures r.Success? ==> Code(r.value) == ParseInt(rawFactor).value
    ensures r == Failure(NonIntegerFactor(rawFactor)) <==> ParseIntOfWidth(rawFactor, Int64).None?
    ensures r.Failure? ==> r.error in {NonIntegerFactor(rawFactor), InvalidFactorId(rawFactor)}
  {
    match ParseIntOfWidth(rawFactor, Int64)
    case None => Failure(NonIntegerFactor(rawFactor))
    case Some(num) =>
      FromRawValueCorrect(num);
      match FromRawValue(num)
      case None => Failure(InvalidFactorId(rawFactor))
      case Some(factor) => Success(factor)
  }

  /** What `parseFactors(rawFactors)` returns or throws. */
  function FactorList(rawFactors: string): Result<seq<RecoveryFactor>, LocationHashError> {
    if rawFactors == "" then Success([]) else ParseEach(FactorTokens(rawFactors), ParseFactor)
  }

  /** `parseFactors(rawFactors)`: the `for` loop over the non-empty comma-separated tokens, which
      throws at the first bad one. */
  method ParseFactors(rawFactors: string) returns (r: Result<seq<RecoveryFactor>, LocationHashError>)
    ensures r == FactorList(rawFactors)
  {
    if rawFactors == "" {
      return Success([]);
    }
    var factorStrings := FactorTokens(rawFactors);
    var factors: seq<RecoveryFactor> := [];
    for i := 0 to |factorStrings|
      invariant ParseEach(factorStrings[..i], ParseFactor) == Success(factors)
    {
      var rawFactor := factorStrings[i];
      ParseEachLoopStep(factorStrings, ParseFactor, i, factors);
      var num := ParseIntOfWidth(rawFactor, Int64);
      if num.None? {
        return Failure(NonIntegerFactor(rawFactor));
      }
      var factor := FromRawValue(num.value);
      if factor.None? {
        return Failure(InvalidFactorId(rawFactor));
      }
      factors := factors + [factor.value];
    }
    assert factorStrings[..|factorStrings|] == factorStrings;
    r := Success(factors);
  }

  /** The empty list gives no factors; otherwise every token must be a code, the factors come in
      token order, and the first bad token is the one reported. */
  lemma FactorListSpec(rawFactors: string)
    ensures rawFactors == "" ==> FactorList(rawFactors) == Success([])
    ensures var tokens := FactorTokens(rawFactors);
      var r := FactorList(rawFactors);
      (r.Success? <==> forall i :: 0 <= i < |tokens| ==> ParseFactor(tokens[i]).Success?) &&
      (r.Success? ==>
        |r.value| == |tokens| && forall i :: 0 <= i < |r.value| ==> Code(r.value[i]) == ParseInt(tokens[i]).value) &&
      (r.Failure? ==>
        exists i :: FirstFailure(tokens, ParseFactor, i) && ParseFactor(tokens[i]) == Failure(r.error))
  {
    if rawFactors == "" {
      assert Split("", ',') == [""];
    } else {
      ParseEachSpec(FactorTokens(rawFactors), ParseFactor);
    }
  }

  /** A written factor list parses back to the same factors. */
  lemma FactorListRoundTrip(fs: seq<RecoveryFactor>)
    ensures FactorList(FactorsValue(fs)) == Success(fs)
  {
    forall f
      ensures ParseFactor(NatToDecimal(Code(f))) == Success(f)
    {
      ParseIntOfDecimal(Code(f));
      CodesDistinct();
    }
    FactorsRoundTrip(fs, ParseFactor);
    FactorTokensOfValue(fs);
  }

  // ---- what `URLComponents` reads ----

  /** A `URLQueryItem` as `queryItems` gives it: a name, and a value that is nil when the piece
      has no `=`. */
  type QueryItem = (string, Option<string>)

  /** One `&`-separated piece: the name before the first `=`, the value after it; both are
      percent-decoded (`+` stays `+`), and a malformed escape or bytes that are not UTF-8 make the
      piece unreadable. */
  function ParseItem(piece: string): Option<QueryItem> {
    var (name, value) := SplitAtFirst(piece, '=');
    var decodedName :- UrlEncoding.StrictDecode(name);
    match value
    case None => Some((decodedName, None))
    case Some(v) =>
      var decodedValue :- UrlEncoding.StrictDecode(v);
      Some((decodedName, Some(decodedValue)))
  }

  function ParseItems(pieces: seq<string>): (r: Option<seq<QueryItem>>)
    ensures r.Some? <==> forall i :: 0 <= i < |pieces| ==> ParseItem(pieces[i]).Some?
    ensures r.Some? ==>
      |r.value| == |pieces| && forall i :: 0 <= i < |pieces| ==> r.value[i] == ParseItem(pieces[i]).value
  {
    if pieces == [] then Some([])
    else
      var item :- ParseItem(pieces[0]);
      var rest :- ParseItems(pieces[1..]);
      Some([item] + rest)
  }

  /** `URLComponents(string: "?" + rawParams)?.queryItems`: the query runs up to the first `#`
      and is split on `&`; None when `URLComponents` rejects the text or an item cannot be
      decoded. */
  function QueryItems(rawParams: string): Option<seq<QueryItem>> {
    ParseItems(Split(SplitAtFirst(rawParams, '#').0, '&'))
  }

  // ---- parse ----

  /** The items that carry a value, as name/value pairs, in order. */
  function Valued(items: seq<QueryItem>): Pairs
    decreases |items|
  {
    if items == [] then []
    else
      var last := items[|items| - 1];
      Valued(items[..|items| - 1]) + (if last.1.Some? then [(last.0, last.1.value)] else [])
  }

  /** One more item of the loop: an item with a value is assigned into both dictionaries (the
      custom one only for a non-reserved name), an item without one changes neither. */
  lemma ValuedStep(items: seq<QueryItem>, i: int)
    requires 0 <= i < |items|
    ensures var pre := Valued(items[..i]);
      var post := Valued(items[..i + 1]);
      if items[i].1.Some? then
        ToMap(post) == ToMap(pre)[items[i].0 := items[i].1.value] &&
        CustomFold(post) ==
          if IsReserved(items[i].0) then CustomFold(pre) else CustomFold(pre)[items[i].0 := items[i].1.value]
      else ToMap(post) == ToMap(pre) && CustomFold(post) == CustomFold(pre)
  {
    assert items[..i + 1][..i] == items[..i];
    var pre := Valued(items[..i]);
    if items[i].1.Some? {
      MapsSnoc(pre, (items[i].0, items[i].1.value));
    } else {
      assert Valued(items[..i + 1]) == pre + [];
      assert pre + [] == pre;
    }
  }

  lemma {:induction false} ValuedAppend(a: seq<QueryItem>, b: seq<QueryItem>)
    ensures Valued(a + b) == Valued(a) + Valued(b)
    decreases |b|
  {
    if b == [] {
      assert a + b == a;
    } else {
      var init := b[..|b| - 1];
      ValuedAppend(a, init);
      assert (a + b)[..|a + b| - 1] == a + init;
      assert (a + b)[|a + b| - 1] == b[|b| - 1];
    }
  }

  /** What `parseUnforgettableLocationHash` returns or throws, given the query items. */
  function FromItems(items: seq<QueryItem>): Result<UnforgettablePathParams, LocationHashError> {
    var params := ToMap(Valued(items));
    if DataTransferIdKey !in params || EncryptionPublicKeyKey !in params
       || params[DataTransferIdKey] == "" || params[EncryptionPublicKeyKey] == "" then
      Failure(InvalidParameters)
    else
      var factors :- FactorList(Lookup(params, FactorsKey).GetOr(""));
      Success(UnforgettablePathParams(
        params[DataTransferIdKey], params[EncryptionPublicKeyKey], factors,
        Lookup(params, WalletAddressKey), Lookup(params, GroupKey),
        NoneIfEmpty(RestrictCustom(params))))
  }

  function ParseHash(hash: string): Result<UnforgettablePathParams, LocationHashError> {
    match QueryItems(StripHash(hash))
    case None => Failure(InvalidParameters)
    case Some(items) => FromItems(items)
  }

  /** `parseUnforgettableLocationHash(hash)`. */
  method Parse(hash: string) returns (r: Result<UnforgettablePathParams, LocationHashError>)
    ensures r == ParseHash(hash)
  {
    var rawParams := if |hash| > 0 && hash[0] == '#' then hash[1..] else hash;
    var queryItems := QueryItems(rawParams);
    if queryItems.None? {
      return Failure(InvalidParameters);
    }
    var items := queryItems.value;

    var params: map<string, string> := map[];
    var customParams: map<string, string> := map[];
    for i := 0 to |items|
      invariant params == ToMap(Valued(items[..i]))
      invariant customParams == CustomFold(Valued(items[..i]))
    {
      var (name, value) := items[i];
      ValuedStep(items, i);
      if value.Some? {
        params := params[name := value.value];
        if !IsReserved(name) {
          customParams := customParams[name := value.value];
        }
      }
    }
    assert items[..|items|] == items;
    CustomFoldIsRestrict(Valued(items));

    if DataTransferIdKey !in params || EncryptionPublicKeyKey !in params
       || params[DataTransferIdKey] == "" || params[EncryptionPublicKeyKey] == "" {
      return Failure(InvalidParameters);
    }
    var factors :- ParseFactors(Lookup(params, FactorsKey).GetOr(""));
    r := Success(UnforgettablePathParams(
      params[DataTransferIdKey], params[EncryptionPublicKeyKey], factors,
      Lookup(params, WalletAddressKey), Lookup(params, GroupKey),
      NoneIfEmpty(customParams)));
  }

  /** A leading `#` makes no difference. */
  lemma ParseIgnoresHashSign(s: string)
    requires !(|s| > 0 && s[0] == '#')
    ensures ParseHash("#" + s) == ParseHash(s)
  {
    assert ("#" + s)[1..] == s;
  }

  /** A missing or empty `id` or `epk` is reported before anything about the factor list; with
      both present, a bad factor list is what is reported. */
  lemma ParseChecksRequiredFirst(items: seq<QueryItem>)
    ensures var params := ToMap(Valued(items));
      var required := DataTransferIdKey in params && EncryptionPublicKeyKey in params &&
        params[DataTransferIdKey] != "" && params[EncryptionPublicKeyKey] != "";
      var factors := FactorList(Lookup(params, FactorsKey).GetOr(""));
      (!required ==> FromItems(items) == Failure(InvalidParameters)) &&
      (required && factors.Failure? ==> FromItems(items) == Failure(factors.error)) &&
      (FromItems(items).Success? <==> required && factors.Success?)
  {
  }

  /** Every field, reserved or custom, takes the value of the last item with its name; items
      without a value are ignored. */
  lemma ParseLastWins(items: seq<QueryItem>, i: int)
    requires FromItems(items).Success?
    requires 0 <= i < |items| && items[i].1.Some?
    requires forall j :: i < j < |items| ==> items[j].1.None? || items[j].0 != items[i].0
    ensures var p := FromItems(items).value;
      var v := items[i].1.value;
      (items[i].0 == DataTransferIdKey ==> p.dataTransferId == v) &&
      (items[i].0 == EncryptionPublicKeyKey ==> p.encryptionPublicKey == v) &&
      (items[i].0 == WalletAddressKey ==> p.walletAddress == Some(v)) &&
      (items[i].0 == GroupKey ==> p.group == Some(v)) &&
      (!IsReserved(items[i].0) ==>
        p.customParams.Some? && items[i].0 in p.customParams.value && p.customParams.value[items[i].0] == v)
  {
    var pre := Valued(items[..i]);
    var x := (items[i].0, items[i].1.value);
    var post := Valued(items[i + 1..]);
    assert items == items[..i] + [items[i]] + items[i + 1..];
    ValuedAppend(items[..i] + [items[i]], items[i + 1..]);
    ValuedAppend(items[..i], [items[i]]);
    assert Valued([items[i]]) == [x] by {
      assert [items[i]][..0] == [];
    }
    var pairs := pre + [x] + post;
    assert x.0 in ToMap(Valued(items)) && ToMap(Valued(items))[x.0] == x.1 by {
      assert Valued(items) == pairs;
      assert forall j :: 0 <= j < |post| ==> post[j].0 != x.0 by {
        ValuedNames(items[i + 1..], x.0);
      }
      ToMapLastWins(pairs, |pre|);
    }
    FromItemsOfEntry(items, x.0, x.1);
  }

  /** A name the item map holds with value `v` sets the field of that name to `v`, or the custom
      parameter of that name. */
  lemma FromItemsOfEntry(items: seq<QueryItem>, k: string, v: string)
    requires FromItems(items).Success?
    requires k in ToMap(Valued(items)) && ToMap(Valued(items))[k] == v
    ensures var p := FromItems(items).value;
      (k == DataTransferIdKey ==> p.dataTransferId == v) &&
      (k == EncryptionPublicKeyKey ==> p.encryptionPublicKey == v) &&
      (k == WalletAddressKey ==> p.walletAddress == Some(v)) &&
      (k == GroupKey ==> p.group == Some(v)) &&
      (!IsReserved(k) ==> p.customParams.Some? && k in p.customParams.value && p.customParams.value[k] == v)
  {
  }

  /** A name that no valued item after position 0 carries is absent from the valued pairs. */
  lemma {:induction false} ValuedNames(items: seq<QueryItem>, name: string)
    requires forall j :: 0 <= j < |items| ==> items[j].1.None? || items[j].0 != name
    ensures forall j :: 0 <= j < |Valued(items)| ==> Valued(items)[j].0 != name
    decreases |items|
  {
    if items != [] {
      ValuedNames(items[..|items| - 1], name);
    }
  }

  /** Items without a value change nothing. */
  lemma ParseIgnoresValueless(a: seq<QueryItem>, b: seq<QueryItem>, name: string)
    ensures FromItems(a + [(name, None)] + b) == FromItems(a + b)
  {
    var x: QueryItem := (name, None);
    ValuedAppend(a + [x], b);
    ValuedAppend(a, [x]);
    ValuedAppend(a, b);
    assert [x][..0] == [];
    assert Valued([x]) == [];
    assert Valued(a) + [] == Valued(a);
  }

  // ---- compose ----

  /** The items `compose` appends, every one with a value: `id`, `epk`, `f`, then `wa` and `g`
      when they are not nil, then the non-reserved custom parameters in the order `order` in which
      the `for` over the dictionary visits them. */
  method BuildQueryItems(p: UnforgettablePathParams) returns (items: Pairs, ghost order: seq<string>)
    ensures IsListing(order, EmittedCustom(p.customParams).Keys)
    ensures items == ComposedPairs(p, order, WhenPresent)
  {
    items := [];
    items := items + [(DataTransferIdKey, p.dataTransferId)];
    items := items + [(EncryptionPublicKeyKey, p.encryptionPublicKey)];
    var factorsString := FactorsValue(p.factors);
    items := items + [(FactorsKey, factorsString)];
    ghost var fixed := items;
    if p.walletAddress.Some? {
      items := items + [(WalletAddressKey, p.walletAddress.value)];
    }
    assert items == fixed + OptionalPair(WalletAddressKey, p.walletAddress, WhenPresent);
    if p.group.Some? {
      items := items + [(GroupKey, p.group.value)];
    }
    assert items == fixed + OptionalPair(WalletAddressKey, p.walletAddress, WhenPresent)
                          + OptionalPair(GroupKey, p.group, WhenPresent);
    items, order := AppendCustomItems(items, p.customParams);
  }

  /** The `for (key, value) in customParams` loop of `compose`: each entry whose key is not
      reserved is appended, in the order `order` in which the loop visits them. */
  method AppendCustomItems(head: Pairs, customParams: Option<map<string, string>>)
    returns (items: Pairs, ghost order: seq<string>)
    ensures IsListing(order, EmittedCustom(customParams).Keys)
    ensures items == head + CustomPairs(order, EmittedCustom(customParams))
  {
    ghost var emitted := EmittedCustom(customParams);
    items := head;
    order := [];
    assert CustomPairs(order, emitted) == [];
    if customParams.Some? {
      var custom := customParams.value;
      var keys := custom.Keys;
      ListingStarts(keys, emitted.Keys);
      while keys != {}
        invariant PartlyListed(order, keys, emitted.Keys)
        invariant items == head + CustomPairs(order, emitted)
        decreases keys
      {
        var key :| key in keys;
        ListingVisits(order, keys, emitted.Keys, key);
        if !IsReserved(key) {
          items := items + [(key, custom[key])];
          CustomPairsAppend(order, key, emitted);
          order := order + [key];
        }
        keys := keys - {key};
      }
    }
    ListingEnds(order, emitted.Keys);
  }

  /** One item written as `name=value`. */
  function ItemText(item: (string, string)): string {
    item.0 + "=" + item.1
  }

  function ItemTexts(items: Pairs): (r: seq<string>)
    ensures |r| == |items| && forall i :: 0 <= i < |items| ==> r[i] == ItemText(items[i])
  {
    if items == [] then [] else [ItemText(items[0])] + ItemTexts(items[1..])
  }

  /** The `query` of a `URLComponents` after its `queryItems` are set. Foundation escapes each
      name and value into the URL, and the `query` getter decodes the whole query again, so what
      comes back is the names and values as they were, joined with `=` and `&`. */
  function QueryText(items: Pairs): string {
    Join(ItemTexts(items), '&')
  }

  /** `composeUnforgettableLocationHash(params)` as written: `"#" + (components.query ?? "")`. */
  method Compose(p: UnforgettablePathParams) returns (hash: string, ghost order: seq<string>)
    ensures IsListing(order, EmittedCustom(p.customParams).Keys)
    ensures hash == "#" + QueryText(ComposedPairs(p, order, WhenPresent))
  {
    var items;
    items, order := BuildQueryItems(p);
    hash := "#" + QueryText(items);
  }

  /** Each name and value escaped with the query escape set, which also escapes `&`, `=`, `+`
      and `#`. */
  function EncodeItems(items: Pairs): (r: Pairs)
    ensures |r| == |items|
    ensures forall i :: 0 <= i < |items| ==>
      r[i] == (UrlEncoding.Encode(UrlEncoding.Query, items[i].0), UrlEncoding.Encode(UrlEncoding.Query, items[i].1))
  {
    if items == [] then []
    else
      [(UrlEncoding.Encode(UrlEncoding.Query, items[0].0), UrlEncoding.Encode(UrlEncoding.Query, items[0].1))]
      + EncodeItems(items[1..])
  }

  /** The query with every name and value escaped. This escapes more than Foundation's
      `percentEncodedQuery`, which leaves `+` and `=` in values raw; the round trip
      (`ComposeEncodedRoundTrip`) needs only `&`, `#` and `%` escaped in values, and `=` as well
      in names. */
  function EncodedQuery(items: Pairs): string {
    QueryText(EncodeItems(items))
  }

  /** `compose` writing the escaped query instead of the decoded one. */
  method ComposeEncoded(p: UnforgettablePathParams) returns (hash: string, ghost order: seq<string>)
    ensures IsListing(order, EmittedCustom(p.customParams).Keys)
    ensures hash == "#" + EncodedQuery(ComposedPairs(p, order, WhenPresent))
  {
    var items;
    items, order := BuildQueryItems(p);
    hash := "#" + EncodedQuery(items);
  }

  // ---- the round trip ----

  /** The items a list of pairs stands for, each with its value. */
  function WithValues(pairs: Pairs): (items: seq<QueryItem>)
    ensures |items| == |pairs| && forall i :: 0 <= i < |pairs| ==> items[i] == (pairs[i].0, Some(pairs[i].1))
  {
    if pairs == [] then [] else [(pairs[0].0, Some(pairs[0].1))] + WithValues(pairs[1..])
  }

  lemma {:induction false} ValuedWithValues(pairs: Pairs)
    ensures Valued(WithValues(pairs)) == pairs
    decreases |pairs|
  {
    if pairs != [] {
      var init := pairs[..|pairs| - 1];
      ValuedWithValues(init);
      assert WithValues(pairs)[..|pairs| - 1] == WithValues(init);
      assert pairs == init + [pairs[|pairs| - 1]];
    }
  }

  /** A written item that `queryItems` reads back as `item`: no separator in the written name
      and value, and each decodes to its original. */
  predicate ReadsBackAs(text: (string, string), item: (string, string)) {
    '&' !in text.0 && '=' !in text.0 && '#' !in text.0 && '&' !in text.1 && '#' !in text.1 &&
    UrlEncoding.StrictDecode(text.0) == Some(item.0) && UrlEncoding.StrictDecode(text.1) == Some(item.1)
  }

  lemma QueryItemsOfText(texts: Pairs, items: Pairs)
    requires |texts| == |items| > 0
    requires forall i :: 0 <= i < |texts| ==> ReadsBackAs(texts[i], items[i])
    ensures QueryItems(QueryText(texts)) == Some(WithValues(items))
  {
    var pieces := ItemTexts(texts);
    forall i | 0 <= i < |pieces|
      ensures '&' !in pieces[i] && '#' !in pieces[i]
      ensures ParseItem(pieces[i]) == Some((items[i].0, Some(items[i].1)))
    {
      assert pieces[i] == texts[i].0 + ['='] + texts[i].1;
      SplitAtFirstOfPair(texts[i].0, texts[i].1, '=');
    }
    var q := QueryText(texts);
    assert '#' !in q by {
      if '#' in q {
        JoinChars(pieces, '&', '#');
      }
    }
    SplitJoin(pieces, '&');
    var r := ParseItems(pieces);
    assert r.Some?;
    assert r.value == WithValues(items);
  }

  lemma ParseHashOfText(text: string, items: seq<QueryItem>)
    requires QueryItems(text) == Some(items)
    ensures ParseHash("#" + text) == FromItems(items)
  {
    assert ("#" + text)[1..] == text;
  }

  /** The record read back from the items `compose` writes. */
  lemma FromComposedItems(p: UnforgettablePathParams, order: seq<string>)
    requires IsListing(order, EmittedCustom(p.customParams).Keys)
    ensures var r := FromItems(WithValues(ComposedPairs(p, order, WhenPresent)));
      if p.dataTransferId == "" || p.encryptionPublicKey == "" then r == Failure(InvalidParameters)
      else r == Success(Normalized(p, WhenPresent))
  {
    var pairs := ComposedPairs(p, order, WhenPresent);
    var items := WithValues(pairs);
    ValuedWithValues(pairs);
    ComposedPairsLookups(p, order, WhenPresent);
    ComposedPairsCustom(p, order, WhenPresent);
    ToMapOfDistinct(pairs, DataTransferIdKey);
    ToMapOfDistinct(pairs, EncryptionPublicKeyKey);
    ToMapOfDistinct(pairs, FactorsKey);
    ToMapOfDistinct(pairs, WalletAddressKey);
    ToMapOfDistinct(pairs, GroupKey);
    FactorListRoundTrip(p.factors);
    FromItemsOfLookups(items, p);
  }

  /** `parse` reads back `p` from any items whose dictionary gives `p`'s fields. */
  lemma FromItemsOfLookups(items: seq<QueryItem>, p: UnforgettablePathParams)
    requires var m := ToMap(Valued(items));
      Lookup(m, DataTransferIdKey) == Some(p.dataTransferId) &&
      Lookup(m, EncryptionPublicKeyKey) == Some(p.encryptionPublicKey) &&
      FactorList(Lookup(m, FactorsKey).GetOr("")) == Success(p.factors) &&
      Lookup(m, WalletAddressKey) == Emitted(p.walletAddress, WhenPresent) &&
      Lookup(m, GroupKey) == Emitted(p.group, WhenPresent) &&
      RestrictCustom(m) == EmittedCustom(p.customParams)
    ensures var r := FromItems(items);
      if p.dataTransferId == "" || p.encryptionPublicKey == "" then r == Failure(InvalidParameters)
      else r == Success(Normalized(p, WhenPresent))
  {
  }

  /** Every escaped item reads back as the item. */
  lemma EncodeItemsReadBack(items: Pairs)
    ensures forall i :: 0 <= i < |items| ==> ReadsBackAs(EncodeItems(items)[i], items[i])
  {
    forall i | 0 <= i < |items|
      ensures ReadsBackAs(EncodeItems(items)[i], items[i])
    {
      UrlEncoding.EncodedHasNoSeparator(UrlEncoding.Query, items[i].0);
      UrlEncoding.EncodedHasNoSeparator(UrlEncoding.Query, items[i].1);
      UrlEncoding.QueryRoundTrip(items[i].0);
      UrlEncoding.QueryRoundTrip(items[i].1);
    }
  }

  /** The escaped hash reads back as the record: `wa` and `g` as they were (an empty string
      included), reserved custom keys dropped, an empty custom map absent; an empty `id` or `epk`
      is rejected. */
  lemma ComposeEncodedRoundTrip(p: UnforgettablePathParams, order: seq<string>)
    requires IsListing(order, EmittedCustom(p.customParams).Keys)
    ensures var r := ParseHash("#" + EncodedQuery(ComposedPairs(p, order, WhenPresent)));
      if p.dataTransferId == "" || p.encryptionPublicKey == "" then r == Failure(InvalidParameters)
      else r == Success(Normalized(p, WhenPresent))
  {
    var pairs := ComposedPairs(p, order, WhenPresent);
    var texts := EncodeItems(pairs);
    EncodeItemsReadBack(pairs);
    QueryItemsOfText(texts, pairs);
    ParseHashOfText(QueryText(texts), WithValues(pairs));
    FromComposedItems(p, order);
  }

  /** `parse(compose(p)) == p` for the escaping `compose` and a record in the form it keeps. */
  lemma ComposeEncodedIdentity(p: UnforgettablePathParams, order: seq<string>)
    requires IsListing(order, EmittedCustom(p.customParams).Keys)
    requires p.dataTransferId != "" && p.encryptionPublicKey != ""
    requires IsNormal(p, WhenPresent)
    ensures ParseHash("#" + EncodedQuery(ComposedPairs(p, order, WhenPresent))) == Success(p)
  {
    ComposeEncodedRoundTrip(p, order);
    NormalizedOfNormal(p, WhenPresent);
  }

  // ---- the written compose ----

  /** A value the decoded query keeps apart from its neighbours: no `&` or `#`, and no `%`,
      which the reader would take for an escape. */
  predicate PlainValue(s: string) {
    '&' !in s && '#' !in s && '%' !in s
  }

  predicate PlainName(s: string) {
    PlainValue(s) && '=' !in s
  }

  predicate PlainParams(p: UnforgettablePathParams) {
    PlainValue(p.dataTransferId) && PlainValue(p.encryptionPublicKey) &&
    (p.walletAddress.Some? ==> PlainValue(p.walletAddress.value)) &&
    (p.group.Some? ==> PlainValue(p.group.value)) &&
    (p.customParams.Some? ==> forall k :: k in p.customParams.value ==>
      PlainName(k) && PlainValue(p.customParams.value[k]))
  }

  lemma ComposedPairsPlain(p: UnforgettablePathParams, order: seq<string>)
    requires forall i :: 0 <= i < |order| ==> order[i] in EmittedCustom(p.customParams)
    requires PlainParams(p)
    ensures var pairs := ComposedPairs(p, order, WhenPresent);
      forall i :: 0 <= i < |pairs| ==> PlainName(pairs[i].0) && PlainValue(pairs[i].1)
  {
    var pairs := ComposedPairs(p, order, WhenPresent);
    FactorsValueChars(p.factors);
    var wa := OptionalPair(WalletAddressKey, p.walletAddress, WhenPresent);
    var g := OptionalPair(GroupKey, p.group, WhenPresent);
    var custom := CustomPairs(order, EmittedCustom(p.customParams));
    var head := [(DataTransferIdKey, p.dataTransferId), (EncryptionPublicKeyKey, p.encryptionPublicKey),
                 (FactorsKey, FactorsValue(p.factors))];
    assert pairs == head + wa + g + custom;
    forall i | 0 <= i < |pairs|
      ensures PlainName(pairs[i].0) && PlainValue(pairs[i].1)
    {
      if i < 3 {
        assert pairs[i] == head[i];
      } else if i < 3 + |wa| {
        assert pairs[i] == wa[i - 3];
      } else if i < 3 + |wa| + |g| {
        assert pairs[i] == g[i - 3 - |wa|];
      } else {
        assert pairs[i] == custom[i - 3 - |wa| - |g|];
      }
    }
  }

  /** The written `compose` round-trips as long as no name holds `&`, `=`, `#` or `%` and no value
      holds `&`, `#` or `%`. */
  lemma ComposePlainRoundTrip(p: UnforgettablePathParams, order: seq<string>)
    requires IsListing(order, EmittedCustom(p.customParams).Keys)
    requires PlainParams(p)
    ensures var r := ParseHash("#" + QueryText(ComposedPairs(p, order, WhenPresent)));
      if p.dataTransferId == "" || p.encryptionPublicKey == "" then r == Failure(InvalidParameters)
      else r == Success(Normalized(p, WhenPresent))
  {
    var pairs := ComposedPairs(p, order, WhenPresent);
    ComposedPairsLookups(p, order, WhenPresent);
    ComposedPairsPlain(p, order);
    forall i | 0 <= i < |pairs|
      ensures ReadsBackAs(pairs[i], pairs[i])
    {
      UrlEncoding.DecodePlain(pairs[i].0);
      UrlEncoding.DecodePlain(pairs[i].1);
    }
    QueryItemsOfText(pairs, pairs);
    ParseHashOfText(QueryText(pairs), WithValues(pairs));
    FromComposedItems(p, order);
  }

  /** Two different records that the written `compose` turns into the same hash: a wallet
      address holding `&g=` reads back as a separate group. */
  lemma ComposeCollision(id: string, epk: string, factors: seq<RecoveryFactor>, w: string, g: string)
    ensures var p1 := UnforgettablePathParams(id, epk, factors, Some(w + "&g=" + g), None, None);
      var p2 := UnforgettablePathParams(id, epk, factors, Some(w), Some(g), None);
      p1 != p2 && IsNormal(p1, WhenPresent) && IsNormal(p2, WhenPresent) &&
      QueryText(ComposedPairs(p1, [], WhenPresent)) == QueryText(ComposedPairs(p2, [], WhenPresent))
  {
    var joined := w + "&g=" + g;
    var p1 := UnforgettablePathParams(id, epk, factors, Some(joined), None, None);
    var p2 := UnforgettablePathParams(id, epk, factors, Some(w), Some(g), None);
    assert |joined| > |w|;
    var fixed := [(DataTransferIdKey, id), (EncryptionPublicKeyKey, epk), (FactorsKey, FactorsValue(factors))];
    assert ComposedPairs(p1, [], WhenPresent) == fixed + [(WalletAddressKey, joined)] by {
      assert CustomPairs([], EmittedCustom(None)) == [];
      assert OptionalPair(GroupKey, None, WhenPresent) == [];
    }
    assert ComposedPairs(p2, [], WhenPresent) == fixed + [(WalletAddressKey, w), (GroupKey, g)] by {
      assert CustomPairs([], EmittedCustom(None)) == [];
    }
    var a := ItemText((WalletAddressKey, w));
    var b := ItemText((GroupKey, g));
    assert ItemTexts(fixed + [(WalletAddressKey, joined)]) == ItemTexts(fixed) + [ItemText((WalletAddressKey, joined))];
    assert ItemTexts(fixed + [(WalletAddressKey, w), (GroupKey, g)]) == ItemTexts(fixed) + [a, b];
    assert ItemText((WalletAddressKey, joined)) == a + ['&'] + b by {
      assert GroupKey == "g";
      assert "&g=" + g == ['&'] + GroupKey + "=" + g;
    }
    JoinSplitsLast(ItemTexts(fixed), a, b, '&');
  }

  /** A record in the form a round trip keeps, with an id and a key, that does not come back
      from the hash the written `compose` makes of it. */
  ghost predicate NotRecovered(p: UnforgettablePathParams) {
    p.dataTransferId != "" && p.encryptionPublicKey != "" && IsNormal(p, WhenPresent) &&
    ParseHash("#" + QueryText(ComposedPairs(p, [], WhenPresent))) != Success(p)
  }

  /** So the written `compose` is not inverted by `parse`: some record in the form a round trip
      keeps does not come back. */
  lemma ComposeNotInvertible()
    ensures exists p: UnforgettablePathParams :: NotRecovered(p)
  {
    CollisionNotRecovered("a", "b", "c", "d");
  }

  /** Of the two colliding records, at least one is not recovered. */
  lemma CollisionNotRecovered(id: string, epk: string, w: string, g: string)
    requires id != "" && epk != ""
    ensures exists p: UnforgettablePathParams :: NotRecovered(p)
  {
    var p1 := UnforgettablePathParams(id, epk, [], Some(w + "&g=" + g), None, None);
    var p2 := UnforgettablePathParams(id, epk, [], Some(w), Some(g), None);
    ComposeCollision(id, epk, [], w, g);
    var hash := "#" + QueryText(ComposedPairs(p1, [], WhenPresent));
    assert hash == "#" + QueryText(ComposedPairs(p2, [], WhenPresent));
    if ParseHash(hash) != Success(p1) {
      assert NotRecovered(p1);
    } else {
      assert ParseHash(hash) != Success(p2);
      assert NotRecovered(p2);
    }
  }
}
