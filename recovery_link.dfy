/** `UnforgettableSDK.getRecoveryUrl()` in the Swift and the Kotlin SDK classes: the app URL
    without one trailing `/`, then `/r` to restore or `/c` to create, then the location hash
    composed from the instance's fields. The data-transfer id (a lower-cased random UUID) and the
    public key of the generated key pair are fields here, fixed when the instance is built. */
module RecoveryLink {
  import opened Wrappers
  import opened Strings
  import opened RecoveryFactors
  import opened PathParams
  import opened QueryPairs
  import IosLocationHash
  import AndroidLocationHash

  /** `UnforgettableMode`: `.create`/`.restore` in Swift, `CREATE`/`RESTORE` in Kotlin. */
  datatype Mode = Create | Restore

  /** The fields of an `UnforgettableSDK` instance that `getRecoveryUrl` reads. */
  datatype Sdk = Sdk(
    mode: Mode,
    appUrl: string,
    factors: seq<RecoveryFactor>,
    walletAddress: Option<string>,
    group: Option<string>,
    customParams: Option<map<string, string>>,
    dataTransferId: string,
    encryptionPublicKey: string)

  /** `appUrl.hasSuffix("/") ? String(appUrl.dropLast()) : appUrl` and its Kotlin twin: one
      trailing `/` is dropped, and only one. */
  function BaseUrl(appUrl: string): (r: string)
    ensures |appUrl| > 0 && appUrl[|appUrl| - 1] == '/' ==> r + "/" == appUrl
    ensures !(|appUrl| > 0 && appUrl[|appUrl| - 1] == '/') ==> r == appUrl
  {
    if |appUrl| > 0 && appUrl[|appUrl| - 1] == '/' then appUrl[..|appUrl| - 1] else appUrl
  }

  /** `mode == .restore ? "/r" : "/c"`. */
  function RecoveryPath(mode: Mode): (r: string)
    ensures r == "/r" <==> mode == Restore
    ensures r == "/c" <==> mode == Create
  {
    match mode
    case Restore => "/r"
    case Create => assert "/c"[1] == 'c'; "/c"
  }

  /** The record handed to `composeUnforgettableLocationHash`: the instance's own id, public key,
      factors, wallet, group and custom parameters. */
  function HashParams(sdk: Sdk): UnforgettablePathParams {
    UnforgettablePathParams(sdk.dataTransferId, sdk.encryptionPublicKey, sdk.factors, sdk.walletAddress,
                            sdk.group, sdk.customParams)
  }

  /** What a recovery page reads back from the hash of a recovery URL: the instance's record in
      the form the hash keeps, or `InvalidParameters` when the id or the key is empty. */
  function ExpectedIos(sdk: Sdk): Result<UnforgettablePathParams, IosLocationHash.LocationHashError> {
    if sdk.dataTransferId == "" || sdk.encryptionPublicKey == "" then Failure(IosLocationHash.InvalidParameters)
    else Success(Normalized(HashParams(sdk), WhenPresent))
  }

  function ExpectedAndroid(sdk: Sdk): Result<UnforgettablePathParams, AndroidLocationHash.LocationHashError> {
    if sdk.dataTransferId == "" || sdk.encryptionPublicKey == "" then Failure(AndroidLocationHash.InvalidParameters)
    else Success(Normalized(HashParams(sdk), WhenPresent))
  }

  // ---- Swift ----

  /** `getRecoveryUrl()` in `UnforgettableSDK.swift`: the base, the path, then the hash that
      `composeUnforgettableLocationHash` returns, which is `#` and the percent-decoded query.
      `order` is the order in which the custom parameters were visited. The hash starts right
      after the path, and it reads back as the instance's record when no field holds `&`, `#`
      or `%` (nor a custom name `=`). */
  method IosGetRecoveryUrl(sdk: Sdk) returns (url: string, ghost order: seq<string>)
    ensures IsListing(order, EmittedCustom(sdk.customParams).Keys)
    ensures url == BaseUrl(sdk.appUrl) + RecoveryPath(sdk.mode)
      + "#" + IosLocationHash.QueryText(ComposedPairs(HashParams(sdk), order, WhenPresent))
    ensures var front := BaseUrl(sdk.appUrl) + RecoveryPath(sdk.mode);
      |url| > |front| && url[..|front|] == front && url[|front|] == '#' &&
      (IosLocationHash.PlainParams(HashParams(sdk)) ==>
        IosLocationHash.ParseHash(url[|front|..]) == ExpectedIos(sdk))
  {
    var baseUrl := BaseUrl(sdk.appUrl);
    var path := RecoveryPath(sdk.mode);
    var urlString := baseUrl + path;
    var hash;
    hash, order := IosLocationHash.Compose(HashParams(sdk));
    url := urlString + hash;
    assert url[..|urlString|] == urlString && url[|urlString|..] == hash;
    if IosLocationHash.PlainParams(HashParams(sdk)) {
      IosLocationHash.ComposePlainRoundTrip(HashParams(sdk), order);
    }
  }

  /** An app URL without `#` keeps the first `#` of the recovery URL for the hash: splitting the
      URL there gives the base and path, and, for a record whose fields need no escaping, a query
      that reads back as the instance's record. */
  lemma IosRecoveryUrlSplits(sdk: Sdk, order: seq<string>)
    requires IsListing(order, EmittedCustom(sdk.customParams).Keys)
    requires '#' !in sdk.appUrl
    ensures var query := IosLocationHash.QueryText(ComposedPairs(HashParams(sdk), order, WhenPresent));
      var url := BaseUrl(sdk.appUrl) + RecoveryPath(sdk.mode) + "#" + query;
      var split := SplitAtFirst(url, '#');
      split.0 == BaseUrl(sdk.appUrl) + RecoveryPath(sdk.mode) && split.1 == Some(query) &&
      (IosLocationHash.PlainParams(HashParams(sdk)) ==>
        IosLocationHash.ParseHash("#" + split.1.value) == ExpectedIos(sdk))
  {
    var front := BaseUrl(sdk.appUrl) + RecoveryPath(sdk.mode);
    var query := IosLocationHash.QueryText(ComposedPairs(HashParams(sdk), order, WhenPresent));
    FrontWithoutHashSign(sdk);
    assert front + "#" + query == front + ['#'] + query;
    SplitAtFirstOfPair(front, query, '#');
    if IosLocationHash.PlainParams(HashParams(sdk)) {
      IosLocationHash.ComposePlainRoundTrip(HashParams(sdk), order);
    }
  }

  /** Two instances that differ only in their wallet and group fields build the same recovery
      URL: a wallet address `w&g=g` without a group, and the wallet `w` with group `g`. */
  lemma IosRecoveryUrlCollision(sdk: Sdk, w: string, g: string)
    requires sdk.customParams == None
    ensures var s1 := sdk.(walletAddress := Some(w + "&g=" + g), group := None);
      var s2 := sdk.(walletAddress := Some(w), group := Some(g));
      s1 != s2 &&
      IosLocationHash.QueryText(ComposedPairs(HashParams(s1), [], WhenPresent))
        == IosLocationHash.QueryText(ComposedPairs(HashParams(s2), [], WhenPresent))
  {
    IosLocationHash.ComposeCollision(sdk.dataTransferId, sdk.encryptionPublicKey, sdk.factors, w, g);
    var s1 := sdk.(walletAddress := Some(w + "&g=" + g), group := None);
    var s2 := sdk.(walletAddress := Some(w), group := Some(g));
    assert HashParams(s1) == UnforgettablePathParams(sdk.dataTransferId, sdk.encryptionPublicKey,
      sdk.factors, Some(w + "&g=" + g), None, None);
  }

  /** The recovery URL built with the escaping `compose` instead: splitting at its first `#`
      gives the base and path, and a query that reads back as the instance's record for every
      record. */
  lemma IosEncodedRecoveryUrlSplits(sdk: Sdk, order: seq<string>)
    requires IsListing(order, EmittedCustom(sdk.customParams).Keys)
    requires '#' !in sdk.appUrl
    ensures var query := IosLocationHash.EncodedQuery(ComposedPairs(HashParams(sdk), order, WhenPresent));
      var url := BaseUrl(sdk.appUrl) + RecoveryPath(sdk.mode) + "#" + query;
      var split := SplitAtFirst(url, '#');
      split.0 == BaseUrl(sdk.appUrl) + RecoveryPath(sdk.mode) && split.1 == Some(query) &&
      IosLocationHash.ParseHash("#" + split.1.value) == ExpectedIos(sdk)
  {
    var front := BaseUrl(sdk.appUrl) + RecoveryPath(sdk.mode);
    var query := IosLocationHash.EncodedQuery(ComposedPairs(HashParams(sdk), order, WhenPresent));
    FrontWithoutHashSign(sdk);
    assert front + "#" + query == front + ['#'] + query;
    SplitAtFirstOfPair(front, query, '#');
    IosLocationHash.ComposeEncodedRoundTrip(HashParams(sdk), order);
  }

  /** The base and path have a `#` only if the app URL has one. */
  lemma FrontWithoutHashSign(sdk: Sdk)
    requires '#' !in sdk.appUrl
    ensures '#' !in BaseUrl(sdk.appUrl) + RecoveryPath(sdk.mode)
  {
    var b := BaseUrl(sdk.appUrl);
    assert forall i :: 0 <= i < |b| ==> b[i] == sdk.appUrl[i];
    assert '#' !in b by {
      forall i | 0 <= i < |b|
        ensures b[i] != '#'
      {
        assert b[i] in sdk.appUrl;
      }
    }
  }

  // ---- Kotlin ----

  /** `getRecoveryUrl()` in `UnforgettableSDK.kt`: `"$baseUrl$path$hash"`. The hash reads back as
      the instance's record when names are decoded too. */
  method AndroidGetRecoveryUrl(sdk: Sdk) returns (url: string, ghost order: seq<string>)
    ensures IsListing(order, EmittedCustom(sdk.customParams).Keys)
    ensures var front := BaseUrl(sdk.appUrl) + RecoveryPath(sdk.mode);
      |url| > |front| && url[..|front|] == front && url[|front|] == '#' &&
      AndroidLocationHash.ParseHashDecodingKeys(url[|front|..]) == ExpectedAndroid(sdk)
    ensures url == BaseUrl(sdk.appUrl) + RecoveryPath(sdk.mode)
      + "#" + Join(AndroidLocationHash.WritePairs(ComposedPairs(HashParams(sdk), order, WhenPresent)), '&')
  {
    var baseUrl := BaseUrl(sdk.appUrl);
    var path := RecoveryPath(sdk.mode);
    var hash;
    hash, order := AndroidLocationHash.Compose(HashParams(sdk));
    url := baseUrl + path + hash;
    assert url[..|baseUrl + path|] == baseUrl + path && url[|baseUrl + path|..] == hash;
    AndroidLocationHash.ComposeParseDecodingKeysRoundTrip(HashParams(sdk), order);
  }

  /** Both SDKs build the same URL up to the hash: the same base and the same path. */
  lemma SameFront(sdk: Sdk, iosUrl: string, androidUrl: string, iosOrder: seq<string>, androidOrder: seq<string>)
    requires IsListing(iosOrder, EmittedCustom(sdk.customParams).Keys)
    requires IsListing(androidOrder, EmittedCustom(sdk.customParams).Keys)
    requires iosUrl == BaseUrl(sdk.appUrl) + RecoveryPath(sdk.mode)
      + "#" + IosLocationHash.QueryText(ComposedPairs(HashParams(sdk), iosOrder, WhenPresent))
    requires androidUrl == BaseUrl(sdk.appUrl) + RecoveryPath(sdk.mode)
      + "#" + Join(AndroidLocationHash.WritePairs(ComposedPairs(HashParams(sdk), androidOrder, WhenPresent)), '&')
    ensures var n := |BaseUrl(sdk.appUrl)| + 3; |iosUrl| >= n && |androidUrl| >= n && iosUrl[..n] == androidUrl[..n]
  {
    var front := BaseUrl(sdk.appUrl) + RecoveryPath(sdk.mode) + "#";
    assert iosUrl[..|front|] == front;
    assert androidUrl[..|front|] == front;
  }
}
