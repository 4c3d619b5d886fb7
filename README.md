# Unforgettable SDK: location hash, transfer envelope and recovery URL, in Dafny

The Unforgettable SDK hands data from an app to the Unforgettable recovery page and back. It has
three ports: TypeScript (`packages/core`), Swift (`packages/ios`) and Kotlin (`packages/android`).
This project models the parts of those ports that carry state from one side to the other, and
proves what the two directions promise of each other.

- **Location hash.** `composeUnforgettableLocationHash` writes the recovery parameters as the URL
  fragment: a data-transfer id, an encryption public key, recovery factors, and an optional wallet
  address, group and custom parameters. `parseUnforgettableLocationHash` reads them back.
  - The TypeScript port goes through `URLSearchParams` with its `application/x-www-form-urlencoded` escaping.
  - The Swift port goes through `URLComponents`.
  - The Kotlin port joins `URLEncoder` output itself and splits it with `split`/`URLDecoder`.
  - Modules: `CoreLocationHash`, `IosLocationHash`, `AndroidLocationHash`, and the shared
    `PathParams`, `QueryPairs` and `UrlSearchParams`.
- **Transfer envelope.** `encryptDataTransferData` and `DataTransferKeyPair.decrypt` in the Kotlin
  and Swift `CryptoUtils` exchange base64url text.
  - The envelope is a 32-byte X25519 ephemeral public key, a 12-byte nonce, then the
    ChaCha20-Poly1305 ciphertext and its 16-byte tag.
  - The encryption key comes from HKDF-SHA256 with info `unforgettable-encryption`.
  - Modules: `Envelope`, `AndroidCrypto`, `IosCrypto`, and the codecs `Base64` and `Utf8`.
- **Recovery-factor registries.** `RecoveryFactor` in all three ports, with `fromValue`,
  `init(rawValue:)` and `ALL_RECOVERY_FACTORS`. Module `RecoveryFactors`.
- **`pemToBase64Url`** (TypeScript `utils.ts`): turns a PEM public key into base64url text.
  Module `CoreUtils`.
- **`getRecoveryUrl`** in the Swift and Kotlin `UnforgettableSDK` classes: app URL, `/r` or
  `/c`, then the location hash. Module `RecoveryLink`.

The parts the source takes from its platform are written out here as small specified codecs:
- percent escaping and unescaping (module `UrlEncoding`), with the form escape set of
  `URLSearchParams`/`URLEncoder` and a query escape set for the corrected Swift compose;
- UTF-8 per RFC 3629;
- base64 per section 4 of RFC 4648;
- splitting and decimal integers (module `Strings`).

Cryptographic primitives are not computed. X25519 (RFC 7748), HKDF (RFC 5869) and
ChaCha20-Poly1305 (section 2.8 of RFC 8439) are function-valued fields of `Envelope.Primitives`.
`seal` may fail, standing for a library that throws (no ChaCha20-Poly1305 provider); key
agreement and `open` may fail too. The round trips assume only the laws collected in the
predicate `Envelope.Sound`:
- when sealing succeeds, opening the sealed text with the same key and nonce gives the text back;
- when sealing succeeds, the sealed text is 16 bytes longer than its input;
- public keys are 32 bytes;
- X25519 agreement is symmetric.

`Envelope.SoundIsSatisfiable` shows that these laws can all hold at once.

Where the source iterates over a dictionary (custom parameters), it visits the keys in an order
it does not fix. The composing methods therefore return that order as a ghost out-parameter
`order`, and every statement holds for any order.

## Model

| member | source | states |
|---|---|---|
| RecoveryFactors.Code | packages/core/src/constants.ts:4-11 | every factor's code lies in 1..6 |
| RecoveryFactors.CodesDistinct | packages/android/src/main/kotlin/app/unforgettable/sdk/Constants.kt:16-22 | codes identify factors; the declaration-order list holds each of the six factors once, with codes 1 to 6 in order |
| RecoveryFactors.FirstWithCode | packages/android/src/main/kotlin/app/unforgettable/sdk/Constants.kt:29 | `firstOrNull` returns a listed factor with the asked code, or nothing when no listed factor has it |
| RecoveryFactors.FromValueCorrect | packages/android/src/main/kotlin/app/unforgettable/sdk/Constants.kt:28-30 | `fromValue` succeeds exactly on 1..6, returns the factor with that code, and inverts the code of every factor |
| RecoveryFactors.FromRawValueCorrect | packages/ios/Sources/UnforgettableSDK/Constants.swift:10-17 | Swift `init(rawValue:)` succeeds exactly on 1..6, inverts the code, and agrees with Kotlin `fromValue` on every integer |
| RecoveryFactors.RawValueOfCode | packages/ios/Sources/UnforgettableSDK/Constants.swift:10-17 | the raw value of each case maps back to that case |
| RecoveryFactors.Names | packages/core/src/constants.ts:4-11 | the reverse-mapping entries of the TS numeric enum object are the factors' names, one per factor |
| RecoveryFactors.Numbers | packages/core/src/constants.ts:4-11 | the forward entries of the TS enum object are the factors' codes, one per factor |
| RecoveryFactors.EnumObjectValues | packages/core/src/constants.ts:13 | `Object.values` of a numeric TS enum has twelve entries: six names and six numbers |
| RecoveryFactors.NumbersOnlyOfNames | packages/core/src/constants.ts:13-15 | the `typeof === 'number'` filter drops every name entry |
| RecoveryFactors.NumbersOnlyOfNumbers | packages/core/src/constants.ts:13-15 | the filter keeps every number entry, in order |
| RecoveryFactors.TsAllRecoveryFactorsValue | packages/core/src/constants.ts:13-15 | TS `ALL_RECOVERY_FACTORS` is exactly [1, 2, 3, 4, 5, 6] |
| RecoveryFactors.TsIncludesRange | packages/core/src/location-hash.ts:79 | `ALL_RECOVERY_FACTORS.includes(n)` holds exactly for 1 <= n <= 6 |
| RecoveryFactors.TsIncludesIffRegistered | packages/core/src/location-hash.ts:79 | the TS membership test accepts exactly the integers Kotlin `fromValue` accepts |
| Strings.Split | packages/android/src/main/kotlin/com/rarimo/unforgettable/LocationHash.kt:78 | `split` yields at least one part, no part holds the separator, and joining the parts rebuilds the input |
| Strings.SplitJoin | packages/android/src/main/kotlin/com/rarimo/unforgettable/LocationHash.kt:78 | splitting a join of separator-free parts gives the parts back |
| Strings.SplitAtFirst | packages/android/src/main/kotlin/com/rarimo/unforgettable/LocationHash.kt:80 | `split("=", limit = 2)`: no separator gives the whole piece; otherwise the piece is the name, the separator, then the value, and the name has no separator |
| Strings.SplitAtFirstOfPair | packages/android/src/main/kotlin/com/rarimo/unforgettable/LocationHash.kt:80 | a separator-free name followed by the separator splits back into that name and the rest |
| Strings.ReplaceChar | packages/core/src/utils.ts:6-7 | every occurrence of one character is swapped and nothing else changes |
| Strings.RemoveChar | packages/ios/Sources/UnforgettableSDK/CryptoUtils.swift:141 | removing a character leaves none of it and adds nothing |
| Strings.NatToDecimal | packages/ios/Sources/UnforgettableSDK/LocationHash.swift:70 | `String(rawValue)` is all digits and denotes the number |
| Strings.ParseInt | packages/core/src/location-hash.ts:77 | integer parsing succeeds exactly on an optional sign followed by decimal digits |
| Strings.ParseIntOfDecimal | packages/android/src/main/kotlin/com/rarimo/unforgettable/LocationHash.kt:120 | parsing the decimal text of a natural number gives it back |
| Strings.ParseIntOfWidth | packages/android/src/main/kotlin/com/rarimo/unforgettable/LocationHash.kt:120 | `toIntOrNull` and Swift `Int(...)` succeed exactly when the text is an integer in the type's range, with that value |
| Utf8.EncodeChar | packages/android/src/main/kotlin/app/unforgettable/sdk/CryptoUtils.kt:98 | a character takes 1 to 4 bytes, one byte exactly for ASCII, and the rest are continuation bytes |
| Utf8.EncodeAppend | packages/android/src/main/kotlin/app/unforgettable/sdk/CryptoUtils.kt:98 | encoding distributes over concatenation |
| Utf8.DecodeFirstIsEncoding | packages/ios/Sources/UnforgettableSDK/CryptoUtils.swift:62 | a decoded leading sequence is the encoding of the character it decodes to |
| Utf8.DecodeFirstOfEncoding | packages/ios/Sources/UnforgettableSDK/CryptoUtils.swift:62 | the encoding of a character decodes to that character, whatever follows |
| Utf8.Decode | packages/ios/Sources/UnforgettableSDK/CryptoUtils.swift:62-64 | a successful strict decode returns the one string whose encoding is the bytes |
| Utf8.DecodeEncode | packages/android/src/main/kotlin/app/unforgettable/sdk/CryptoUtils.kt:58 | strict and lossy decoding both invert encoding |
| Utf8.EncodeInjective | packages/ios/Sources/UnforgettableSDK/CryptoUtils.swift:109 | different strings have different UTF-8 encodings |
| Utf8.EncodeAscii | packages/android/src/main/kotlin/com/rarimo/unforgettable/LocationHash.kt:48 | ASCII text encodes byte for byte |
| UrlEncoding.HexValueOfDigit | packages/android/src/main/kotlin/com/rarimo/unforgettable/LocationHash.kt:81 | reading an upper-case hex digit returns its value |
| UrlEncoding.PercentByte | packages/android/src/main/kotlin/com/rarimo/unforgettable/LocationHash.kt:62 | a byte escape is `%` and two hex digits |
| UrlEncoding.Encode | packages/android/src/main/kotlin/com/rarimo/unforgettable/LocationHash.kt:62 | escaped text holds only unreserved characters, `%`, hex digits and (form set) `+` |
| UrlEncoding.FormEncodedHasNoSpace | packages/android/src/main/kotlin/com/rarimo/unforgettable/LocationHash.kt:62 | `URLEncoder` output has no space |
| UrlEncoding.EncodedHasNoSeparator | packages/android/src/main/kotlin/com/rarimo/unforgettable/LocationHash.kt:62 | escaped text has no `&`, `=` or `#`; with the query set, no `+` either |
| UrlEncoding.EncodeAppend | packages/android/src/main/kotlin/com/rarimo/unforgettable/LocationHash.kt:62 | escaping distributes over concatenation |
| UrlEncoding.EncodeUnescaped | packages/android/src/main/kotlin/com/rarimo/unforgettable/LocationHash.kt:48 | text of unreserved characters escapes to itself |
| UrlEncoding.JavaDecode | packages/android/src/main/kotlin/com/rarimo/unforgettable/LocationHash.kt:81 | `URLDecoder.decode` succeeds exactly on well-escaped text; otherwise it throws |
| UrlEncoding.StrictDecode | packages/ios/Sources/UnforgettableSDK/LocationHash.swift:111 | a successful strict decode is well-escaped text whose unescaped bytes are the result's UTF-8 |
| UrlEncoding.UnescapeEscapeBytes | packages/android/src/main/kotlin/com/rarimo/unforgettable/LocationHash.kt:81 | unescaping byte escapes returns the bytes |
| UrlEncoding.UnescapeEncode | packages/android/src/main/kotlin/com/rarimo/unforgettable/LocationHash.kt:81 | unescaping escaped text yields the UTF-8 of the original text |
| UrlEncoding.EncodeWellEscaped | packages/android/src/main/kotlin/com/rarimo/unforgettable/LocationHash.kt:62 | every `%` in escaped text starts a complete escape |
| UrlEncoding.FormRoundTrip | packages/android/src/main/kotlin/com/rarimo/unforgettable/LocationHash.kt:81 | lenient form decoding (TS) and `URLDecoder.decode` both invert form escaping |
| UrlEncoding.QueryRoundTrip | packages/ios/Sources/UnforgettableSDK/LocationHash.swift:111 | strict percent decoding inverts query escaping |
| UrlEncoding.DecodePlain | packages/ios/Sources/UnforgettableSDK/LocationHash.swift:111 | text without `%` decodes to itself strictly, and also with `URLDecoder` when it has no `+` |
| Base64.SextetChar | packages/android/src/main/kotlin/app/unforgettable/sdk/CryptoUtils.kt:135 | each 6-bit value has an alphabet character that reads back as it |
| Base64.SextetValue | packages/android/src/main/kotlin/app/unforgettable/sdk/CryptoUtils.kt:152 | the standard alphabet is exactly A-Z, a-z, 0-9, `+`, `/`, with values below 64 |
| Base64.PadCount | packages/android/src/main/kotlin/app/unforgettable/sdk/CryptoUtils.kt:135 | a final group needs at most two `=` |
| Base64.EncodeBody | packages/ios/Sources/UnforgettableSDK/CryptoUtils.swift:137-141 | the unpadded encoding has 4 characters per 3 bytes plus 2 or 3 for a partial group, all from the alphabet |
| Base64.Encode | packages/android/src/main/kotlin/app/unforgettable/sdk/CryptoUtils.kt:135 | the padded encoding of n bytes has 4 * ceil(n / 3) characters |
| Base64.DecodeQuad | packages/android/src/main/kotlin/app/unforgettable/sdk/CryptoUtils.kt:152 | four sextets decode to three bytes |
| Base64.DecodeFinal | packages/android/src/main/kotlin/app/unforgettable/sdk/CryptoUtils.kt:152 | a final group decodes to one to three bytes |
| Base64.Decode | packages/android/src/main/kotlin/app/unforgettable/sdk/CryptoUtils.kt:152 | only text of a multiple of four characters decodes |
| Base64.TripleRoundTrip | packages/android/src/main/kotlin/app/unforgettable/sdk/CryptoUtils.kt:152 | decoding the four sextets of three bytes gives the three bytes |
| Base64.DecodeEncode | packages/android/src/main/kotlin/app/unforgettable/sdk/CryptoUtils.kt:135-152 | standard decoding inverts standard encoding (section 4 of RFC 4648) |
| Base64.UrlEncode | packages/android/src/main/kotlin/app/unforgettable/sdk/CryptoUtils.kt:134-140 | `base64URLEncode` output has no `+`, `/` or `=` |
| Base64.PadToQuad | packages/android/src/main/kotlin/app/unforgettable/sdk/CryptoUtils.kt:147-150 | padding keeps the text, adds fewer than four `=`, and reaches a multiple of four |
| Base64.Base64UrlDecode | packages/ios/Sources/UnforgettableSDK/CryptoUtils.swift:144-159 | the swap-then-pad decoder computes the base64url decoding |
| Base64.UrlEncodeIsSwappedBody | packages/android/src/main/kotlin/app/unforgettable/sdk/CryptoUtils.kt:136-139 | stripping `=` after the swaps equals swapping the unpadded encoding |
| Base64.PadBody | packages/android/src/main/kotlin/app/unforgettable/sdk/CryptoUtils.kt:147-150 | padding the unpadded encoding rebuilds the padded one |
| Base64.UrlRoundTrip | packages/android/src/main/kotlin/app/unforgettable/sdk/CryptoUtils.kt:134-153 | `base64URLDecode(base64URLEncode(b)) == b` for every byte string |
| PathParams.EmittedCustom | packages/core/src/location-hash.ts:34-38 | the custom parameters compose writes are exactly the entries whose key is not reserved, with their values |
| PathParams.ListingStarts | packages/core/src/location-hash.ts:35 | an iteration that has visited nothing has listed nothing |
| PathParams.ListingVisits | packages/core/src/location-hash.ts:35-36 | visiting a pending key lists it once if it is written and skips it otherwise |
| PathParams.ListingEnds | packages/core/src/location-hash.ts:35-37 | once no key is pending, every written key has been listed exactly once |
| Strings.DropLeading | packages/core/src/location-hash.ts:44 | one leading `#` (or the `?` `URLSearchParams` skips) is dropped, and only one: the input is that character followed by the result, or the result itself |
| PathParams.CodeStrings | packages/ios/Sources/UnforgettableSDK/LocationHash.swift:70 | each factor is written as the decimal text of its code, in order |
| PathParams.CodeStringIsDigit | packages/android/src/main/kotlin/com/rarimo/unforgettable/LocationHash.kt:50 | each factor code is one digit |
| PathParams.FactorsValueChars | packages/android/src/main/kotlin/com/rarimo/unforgettable/LocationHash.kt:50 | the factors value holds only digits and commas, so `URLEncoder` would leave it alone |
| PathParams.NonEmpty | packages/core/src/location-hash.ts:75 | the empty-token filter keeps only non-empty tokens from the input |
| PathParams.NonEmptyAppend | packages/core/src/location-hash.ts:75 | the filter distributes over concatenation |
| PathParams.FactorTokens | packages/core/src/location-hash.ts:73-75 | factor tokens are non-empty and comma-free |
| PathParams.FactorTokensOfCommas | packages/core/src/location-hash.ts:73-75 | a run of commas separates tokens like a single comma, and commas alone give no token |
| PathParams.FactorTokensOfValue | packages/core/src/location-hash.ts:27 | the tokens of the written factors value are the written codes, and the value is empty exactly when there are no factors |
| PathParams.ParseEachSpec | packages/ios/Sources/UnforgettableSDK/LocationHash.swift:156-171 | parsing all tokens succeeds exactly when each parses, with the results in order; on failure it reports the first bad token |
| PathParams.FactorsRoundTrip | packages/ios/Sources/UnforgettableSDK/LocationHash.swift:151-172 | any per-token parser that inverts the code text reads the written factors back |
| PathParams.ParseEachSnoc | packages/android/src/main/kotlin/com/rarimo/unforgettable/LocationHash.kt:119-127 | parsing one more token extends a success or keeps the first failure |
| PathParams.ParseEachFailedPrefix | packages/android/src/main/kotlin/com/rarimo/unforgettable/LocationHash.kt:119-127 | once a prefix fails, later tokens do not change the failure |
| PathParams.ParseEachLoopStep | packages/android/src/main/kotlin/com/rarimo/unforgettable/LocationHash.kt:119-127 | one loop step: a bad token ends the whole parse with its error, a good one appends its factor |
| QueryPairs.NamesOf | packages/core/src/location-hash.ts:48 | the names of a pair list, in order |
| QueryPairs.FirstValueSpec | packages/core/src/location-hash.ts:55-59 | `get` finds nothing exactly when the name is absent, and otherwise returns the value of its first occurrence |
| QueryPairs.FirstValueAppend | packages/core/src/location-hash.ts:55-59 | `get` on a concatenation looks in the second part only when the first lacks the name |
| QueryPairs.FirstValueCons | packages/core/src/location-hash.ts:55-59 | `get` on a list with a new head returns the head's value when it has the name |
| QueryPairs.ToMapAppend | packages/android/src/main/kotlin/com/rarimo/unforgettable/LocationHash.kt:84 | `toMap` of a concatenation lets the second part override the first |
| QueryPairs.ToMapKeys | packages/android/src/main/kotlin/com/rarimo/unforgettable/LocationHash.kt:84 | `toMap` has exactly the names of the list as keys |
| QueryPairs.ToMapOfDistinct | packages/android/src/main/kotlin/com/rarimo/unforgettable/LocationHash.kt:84 | with distinct names, a `toMap` lookup equals `get` |
| QueryPairs.ToMapLastWins | packages/android/src/main/kotlin/com/rarimo/unforgettable/LocationHash.kt:84 | `toMap` keeps the value of the last occurrence of each name |
| QueryPairs.RestrictCustom | packages/android/src/main/kotlin/com/rarimo/unforgettable/LocationHash.kt:86 | `filterKeys` keeps exactly the non-reserved entries with their values |
| QueryPairs.CustomFoldIsRestrict | packages/core/src/location-hash.ts:47-52 | the TS loop that collects custom parameters equals the last-wins map restricted to non-reserved keys |
| QueryPairs.CustomFoldStep | packages/ios/Sources/UnforgettableSDK/LocationHash.swift:119-126 | one loop step updates the custom dictionary only for a non-reserved name |
| QueryPairs.MapsSnoc | packages/ios/Sources/UnforgettableSDK/LocationHash.swift:119-126 | one more item overwrites its name in both dictionaries, the custom one only when unreserved |
| QueryPairs.CustomFoldKeys | packages/core/src/location-hash.ts:47-52 | the collected custom keys are exactly the non-reserved names present |
| QueryPairs.NoneIfEmpty | packages/core/src/location-hash.ts:60 | custom parameters are absent exactly when none were found, and otherwise are the found map |
| QueryPairs.Emitted | packages/core/src/location-hash.ts:28-33 | an optional field is written as itself, or left out only when absent or (TS truthiness) empty |
| QueryPairs.CustomPairs | packages/core/src/location-hash.ts:34-38 | the custom pairs follow the visiting order, with each key's value |
| QueryPairs.CustomPairsAppend | packages/core/src/location-hash.ts:34-38 | visiting one more key appends its pair |
| QueryPairs.ToMapOfCustomPairs | packages/core/src/location-hash.ts:34-38 | reading the written custom pairs into a map gives back the written custom map |
| QueryPairs.CustomPairKey | packages/core/src/location-hash.ts:34-38 | a key is in the read-back map exactly when it was written |
| QueryPairs.CustomPairValue | packages/core/src/location-hash.ts:34-38 | each written key reads back with its value |
| QueryPairs.RestrictReserved | packages/android/src/main/kotlin/com/rarimo/unforgettable/LocationHash.kt:86 | reserved pairs never reach the custom map |
| QueryPairs.ComposedPairsOfOrder | packages/core/src/location-hash.ts:22-38 | the composed list is the reserved pairs followed by the custom pairs |
| QueryPairs.ComposedPairsSplit | packages/ios/Sources/UnforgettableSDK/LocationHash.swift:60-99 | id, key and factors first, then wallet and group when written, then custom pairs; reserved names come only in the head, once each |
| QueryPairs.ComposedPairsLookups | packages/core/src/location-hash.ts:25-33 | `get` on the composed list returns the id, the key, the factors value, and the wallet and group as written |
| QueryPairs.ReservedKeysDistinct | packages/core/src/location-hash.ts:12-20 | the five reserved keys are distinct |
| QueryPairs.CustomPairsUnreserved | packages/core/src/location-hash.ts:36 | no custom pair carries a reserved name |
| QueryPairs.ComposedPairsCustom | packages/android/src/main/kotlin/com/rarimo/unforgettable/LocationHash.kt:60-64 | composed names are distinct, and the custom part of the read-back map is the written custom map |
| QueryPairs.NormalizedOfNormal | packages/core/src/location-hash.ts:28-33 | a record comes back unchanged from a round trip exactly when it is in normal form: optional fields written as they are, custom parameters non-empty and unreserved |
| UrlSearchParams.ParsePieces | packages/core/src/location-hash.ts:45 | `URLSearchParams(init)` turns each `&`-piece into one pair, in order |
| UrlSearchParams.SerializePairs | packages/core/src/location-hash.ts:40 | `toString` writes each pair in order |
| UrlSearchParams.RemoveNamed | packages/core/src/location-hash.ts:25 | removing a name leaves no pair with it and adds no pair |
| UrlSearchParams.RemoveNamedLookup | packages/core/src/location-hash.ts:25 | removing a name does not change `get` for other names |
| UrlSearchParams.SetPairLookup | packages/core/src/location-hash.ts:25-36 | after `set(name, value)`, `get(name)` is the value and `get` of every other name is unchanged |
| UrlSearchParams.SetPairAppends | packages/core/src/location-hash.ts:25-36 | setting a name not yet present appends the pair |
| UrlSearchParams.SearchParams.constructor | packages/core/src/location-hash.ts:23 | a new `URLSearchParams()` is empty |
| UrlSearchParams.SearchParams.FromString | packages/core/src/location-hash.ts:45 | `new URLSearchParams(init)` holds the pairs of the init string without its `?` |
| UrlSearchParams.SearchParams.Set | packages/core/src/location-hash.ts:25-36 | `set` replaces the list by the list with that name set |
| UrlSearchParams.SerializePairShape | packages/core/src/location-hash.ts:40 | a written pair has no `&`, and it splits at its first `=` into the escaped name and value |
| UrlSearchParams.SerializePairRoundTrip | packages/core/src/location-hash.ts:40-45 | parsing a written pair gives the pair back |
| UrlSearchParams.SerializeRoundTrip | packages/core/src/location-hash.ts:40-45 | parsing `toString()` gives back the pair list, for every list |
| UrlSearchParams.SerializeNoQuestionMark | packages/core/src/location-hash.ts:45 | serialized text never begins with `?` |
| CoreLocationHash.ParseFactor | packages/core/src/location-hash.ts:76-80 | a token is accepted exactly when it is an integer from 1 to 6, giving that factor; the error tells a non-integer from an unknown id |
| CoreLocationHash.ParseFactorsSpec | packages/core/src/location-hash.ts:70-82 | an empty value gives no factors; otherwise every non-empty token must be a factor code, the factors come in token order, and the first bad token is the error |
| CoreLocationHash.ParseFactorsRoundTrip | packages/core/src/location-hash.ts:70-82 | the factors value compose writes parses back to the same factor list |
| CoreLocationHash.ParseFactorOfCode | packages/core/src/location-hash.ts:76-80 | the decimal code of every factor parses to that factor |
| CoreLocationHash.ParseFactorsSkipsEmpty | packages/core/src/location-hash.ts:75 | repeated commas parse like one |
| CoreLocationHash.Parse | packages/core/src/location-hash.ts:43-68 | `parseUnforgettableLocationHash` returns what the parse specification gives for the hash |
| CoreLocationHash.CollectCustomParams | packages/core/src/location-hash.ts:47-52 | the custom loop collects the non-reserved entries, the last value of each name winning |
| CoreLocationHash.ParseIgnoresHashSign | packages/core/src/location-hash.ts:44 | a hash with and without its leading `#` parse alike |
| CoreLocationHash.ParseReservedFirstWins | packages/core/src/location-hash.ts:54-59 | a bad factor list is the error; on success the reserved fields are the first values of their names |
| CoreLocationHash.ParseRequiresIdAndKey | packages/core/src/location-hash.ts:63-65 | with valid factors, parse fails exactly when the id or the key is missing or empty |
| CoreLocationHash.EmptyOrAbsent | packages/core/src/location-hash.ts:55-56 | `get(...) \|\| ''` is empty exactly when the value is absent or empty |
| CoreLocationHash.ParseCustomLastWins | packages/core/src/location-hash.ts:48-52 | the last occurrence of a non-reserved name gives its custom value |
| CoreLocationHash.ParseCustomKeys | packages/core/src/location-hash.ts:47-60 | the custom keys are exactly the non-reserved names in the hash, and absent when there are none |
| CoreLocationHash.Compose | packages/core/src/location-hash.ts:22-41 | `compose` writes `#` and the serialized reserved and custom pairs |
| CoreLocationHash.SetReservedParams | packages/core/src/location-hash.ts:25-33 | after the reserved `set` calls, the list is id, key, factors, then the truthy wallet and group |
| CoreLocationHash.SetFixedKeys | packages/core/src/location-hash.ts:25-27 | three `set` calls on an empty list give the three pairs in order |
| CoreLocationHash.SetOptionalKey | packages/core/src/location-hash.ts:28-33 | a truthy wallet or group is appended, and an empty or absent one is skipped |
| CoreLocationHash.SetCustomParams | packages/core/src/location-hash.ts:34-38 | the custom loop appends each non-reserved entry once, in visiting order |
| CoreLocationHash.HashPairsOfSerialized | packages/core/src/location-hash.ts:40-45 | parsing `#` plus the serialized list gives back the list |
| CoreLocationHash.FromComposedPairs | packages/core/src/location-hash.ts:54-67 | reading the composed pairs gives the normal form of the record, or the missing-parameter error |
| CoreLocationHash.FromPairsOfLookups | packages/core/src/location-hash.ts:54-67 | any pair list whose lookups match a record reads back as that record's normal form |
| CoreLocationHash.ComposeParseRoundTrip | packages/core/src/location-hash.ts:22-68 | `parse(compose(p))` gives p in normal form when id and key are non-empty, and the error otherwise, for every visiting order |
| CoreLocationHash.ComposeParseIdentity | packages/core/src/location-hash.ts:22-68 | a record already in normal form with id and key comes back unchanged |
| IosLocationHash.ParseFactor | packages/ios/Sources/UnforgettableSDK/LocationHash.swift:160-166 | a token is accepted exactly when `Int` reads it (64-bit) and it is a raw value 1..6; errors tell the two failures apart |
| IosLocationHash.ParseFactors | packages/ios/Sources/UnforgettableSDK/LocationHash.swift:151-172 | the `for` loop computes the factor-list specification |
| IosLocationHash.FactorListSpec | packages/ios/Sources/UnforgettableSDK/LocationHash.swift:151-172 | an empty value gives no factors; otherwise all tokens must parse, in order, and the first bad token is the error |
| IosLocationHash.FactorListRoundTrip | packages/ios/Sources/UnforgettableSDK/LocationHash.swift:151-172 | the factors value compose writes parses back to the factor list |
| IosLocationHash.ParseItems | packages/ios/Sources/UnforgettableSDK/LocationHash.swift:111-112 | the query parses when every piece decodes, with one item per piece |
| IosLocationHash.ValuedStep | packages/ios/Sources/UnforgettableSDK/LocationHash.swift:119-126 | an item with a value overwrites both dictionaries (custom only when unreserved); a valueless item changes neither |
| IosLocationHash.ValuedAppend | packages/ios/Sources/UnforgettableSDK/LocationHash.swift:119-126 | the valued items of a concatenation are the valued items of each part |
| IosLocationHash.Parse | packages/ios/Sources/UnforgettableSDK/LocationHash.swift:108-147 | `parseUnforgettableLocationHash` returns what the parse specification gives for the hash |
| IosLocationHash.ParseIgnoresHashSign | packages/ios/Sources/UnforgettableSDK/LocationHash.swift:109 | a hash with and without its leading `#` parse alike |
| IosLocationHash.ParseChecksRequiredFirst | packages/ios/Sources/UnforgettableSDK/LocationHash.swift:128-135 | a missing or empty id or key fails before factors are read; otherwise the factor error, if any, is the result |
| IosLocationHash.ParseLastWins | packages/ios/Sources/UnforgettableSDK/LocationHash.swift:119-126 | the last valued occurrence of a name gives its field or its custom value |
| IosLocationHash.FromItemsOfEntry | packages/ios/Sources/UnforgettableSDK/LocationHash.swift:128-146 | each dictionary entry lands in its field, or in the custom map when unreserved |
| IosLocationHash.ValuedNames | packages/ios/Sources/UnforgettableSDK/LocationHash.swift:120 | a name with no valued occurrence does not reach the dictionary |
| IosLocationHash.ParseIgnoresValueless | packages/ios/Sources/UnforgettableSDK/LocationHash.swift:120 | an item without a value has no effect on the result |
| IosLocationHash.BuildQueryItems | packages/ios/Sources/UnforgettableSDK/LocationHash.swift:57-99 | the query items are id, key, factors, the present wallet and group, then the custom entries |
| IosLocationHash.AppendCustomItems | packages/ios/Sources/UnforgettableSDK/LocationHash.swift:90-99 | the custom loop appends each non-reserved entry once, in visiting order |
| IosLocationHash.ItemTexts | packages/ios/Sources/UnforgettableSDK/LocationHash.swift:101 | the decoded query writes each item as name, `=`, value |
| IosLocationHash.Compose | packages/ios/Sources/UnforgettableSDK/LocationHash.swift:56-102 | the written compose returns `#` and the unescaped query text of the items |
| IosLocationHash.EncodeItems | packages/ios/Sources/UnforgettableSDK/LocationHash.swift:101 | the corrected query escapes every name and value |
| IosLocationHash.ComposeEncoded | packages/ios/Sources/UnforgettableSDK/LocationHash.swift:56-102 | the corrected compose returns `#` and the escaped query text |
| IosLocationHash.WithValues | packages/ios/Sources/UnforgettableSDK/LocationHash.swift:119-120 | items read from name=value text all carry a value |
| IosLocationHash.ValuedWithValues | packages/ios/Sources/UnforgettableSDK/LocationHash.swift:119-120 | items that all carry values keep their pairs |
| IosLocationHash.QueryItemsOfText | packages/ios/Sources/UnforgettableSDK/LocationHash.swift:111-112 | a joined text whose pieces read back as given items parses to those items |
| IosLocationHash.ParseHashOfText | packages/ios/Sources/UnforgettableSDK/LocationHash.swift:109-114 | the parse of `#` plus a query that parses to some items is the result for those items |
| IosLocationHash.FromComposedItems | packages/ios/Sources/UnforgettableSDK/LocationHash.swift:116-146 | the composed items read back as the record's normal form, or the missing-parameter error |
| IosLocationHash.FromItemsOfLookups | packages/ios/Sources/UnforgettableSDK/LocationHash.swift:128-146 | any items whose dictionary matches a record read back as the record's normal form |
| IosLocationHash.EncodeItemsReadBack | packages/ios/Sources/UnforgettableSDK/LocationHash.swift:111-112 | each escaped item decodes to the original item |
| IosLocationHash.ComposeEncodedRoundTrip | packages/ios/Sources/UnforgettableSDK/LocationHash.swift:56-147 | with the corrected compose, `parse(compose(p))` gives p in normal form when id and key are non-empty, and the error otherwise |
| IosLocationHash.ComposeEncodedIdentity | packages/ios/Sources/UnforgettableSDK/LocationHash.swift:56-147 | a normal-form record with id and key survives the corrected round trip unchanged |
| IosLocationHash.ComposedPairsPlain | packages/ios/Sources/UnforgettableSDK/LocationHash.swift:60-99 | records free of `&`, `#`, `%` (and `=` in names) compose to plain pairs |
| IosLocationHash.ComposePlainRoundTrip | packages/ios/Sources/UnforgettableSDK/LocationHash.swift:56-147 | the written compose does round-trip on such plain records |
| IosLocationHash.ComposeCollision | packages/ios/Sources/UnforgettableSDK/LocationHash.swift:101 | two different normal-form records (wallet `w&g=g`, and wallet `w` with group `g`) get the same hash from the written compose |
| IosLocationHash.CollisionNotRecovered | packages/ios/Sources/UnforgettableSDK/LocationHash.swift:101 | one of the two colliding records is not recovered by parse |
| IosLocationHash.ComposeNotInvertible | packages/ios/Sources/UnforgettableSDK/LocationHash.swift:101 | some normal-form record with id and key does not survive the written round trip |
| AndroidLocationHash.ParseFactor | packages/android/src/main/kotlin/com/rarimo/unforgettable/LocationHash.kt:120-124 | a token is accepted exactly when `toIntOrNull` reads it (32-bit) and it is a code 1..6; errors tell the two failures apart |
| AndroidLocationHash.ParseFactors | packages/android/src/main/kotlin/com/rarimo/unforgettable/LocationHash.kt:111-130 | the `for` loop computes the factor-list specification |
| AndroidLocationHash.FactorListSpec | packages/android/src/main/kotlin/com/rarimo/unforgettable/LocationHash.kt:111-130 | an empty value gives no factors; otherwise all tokens must parse, in order, and the first bad token is the error |
| AndroidLocationHash.FactorListRoundTrip | packages/android/src/main/kotlin/com/rarimo/unforgettable/LocationHash.kt:111-130 | the factors value compose writes parses back to the factor list |
| AndroidLocationHash.DecodedPairsFailure | packages/android/src/main/kotlin/com/rarimo/unforgettable/LocationHash.kt:78-84 | parse throws `IllegalArgumentException` exactly when some piece has a malformed escape in what it decodes |
| AndroidLocationHash.ParseIgnoresHashSign | packages/android/src/main/kotlin/com/rarimo/unforgettable/LocationHash.kt:76 | a hash with and without its leading `#` parse alike |
| AndroidLocationHash.ParseChecksRequiredFirst | packages/android/src/main/kotlin/com/rarimo/unforgettable/LocationHash.kt:88-95 | a missing or empty id or key fails before factors are read; otherwise the factor error, if any, is the result |
| AndroidLocationHash.ParseLastWins | packages/android/src/main/kotlin/com/rarimo/unforgettable/LocationHash.kt:84-105 | the last occurrence of a name gives its field or its custom value |
| AndroidLocationHash.DropsPieceWithoutEquals | packages/android/src/main/kotlin/com/rarimo/unforgettable/LocationHash.kt:80-82 | a piece without `=` is dropped, wherever it stands |
| AndroidLocationHash.PieceWithoutEqualsDecodesToNothing | packages/android/src/main/kotlin/com/rarimo/unforgettable/LocationHash.kt:80-82 | a lone piece without `=` yields no pair |
| AndroidLocationHash.DecodedPairsAppend | packages/android/src/main/kotlin/com/rarimo/unforgettable/LocationHash.kt:78-83 | decoding the pieces of a concatenation is decoding each part, the first failure winning |
| AndroidLocationHash.WritePairs | packages/android/src/main/kotlin/com/rarimo/unforgettable/LocationHash.kt:48-62 | each pair is written as escaped name `=` value, the factors value unescaped |
| AndroidLocationHash.ReservedNamesUnescaped | packages/android/src/main/kotlin/com/rarimo/unforgettable/LocationHash.kt:48-57 | the reserved names are their own `URLEncoder` output |
| AndroidLocationHash.Compose | packages/android/src/main/kotlin/com/rarimo/unforgettable/LocationHash.kt:45-67 | compose returns `#` and the `&`-join of the written pairs |
| AndroidLocationHash.AddReservedParams | packages/android/src/main/kotlin/com/rarimo/unforgettable/LocationHash.kt:48-58 | the reserved `add` calls write the reserved pairs |
| AndroidLocationHash.WriteReserved | packages/android/src/main/kotlin/com/rarimo/unforgettable/LocationHash.kt:48-57 | one more reserved pair appends its literal text |
| AndroidLocationHash.WritePairsAppend | packages/android/src/main/kotlin/com/rarimo/unforgettable/LocationHash.kt:46-64 | writing distributes over concatenation |
| AndroidLocationHash.AddCustomParams | packages/android/src/main/kotlin/com/rarimo/unforgettable/LocationHash.kt:60-64 | the custom `forEach` appends each non-reserved entry once, in visiting order |
| AndroidLocationHash.WriteCustomStep | packages/android/src/main/kotlin/com/rarimo/unforgettable/LocationHash.kt:62 | one more custom entry appends its escaped name and value |
| AndroidLocationHash.KeysEncoded | packages/android/src/main/kotlin/com/rarimo/unforgettable/LocationHash.kt:62 | names as compose escapes them, values unchanged |
| AndroidLocationHash.DecodedPairsAll | packages/android/src/main/kotlin/com/rarimo/unforgettable/LocationHash.kt:78-83 | pieces that each decode to a pair decode to the list of those pairs |
| AndroidLocationHash.DecodeWritten | packages/android/src/main/kotlin/com/rarimo/unforgettable/LocationHash.kt:78-83 | split-and-decode of the written text gives the pairs with names still escaped, or the pairs themselves when names are decoded too |
| AndroidLocationHash.ComposedFactorPair | packages/android/src/main/kotlin/com/rarimo/unforgettable/LocationHash.kt:50 | the composed list is non-empty and its factors value needs no escaping |
| AndroidLocationHash.FromComposedPairs | packages/android/src/main/kotlin/com/rarimo/unforgettable/LocationHash.kt:84-106 | the map of the composed pairs reads back as the record's normal form, or the missing-parameter error |
| AndroidLocationHash.ParseHashOfText | packages/android/src/main/kotlin/com/rarimo/unforgettable/LocationHash.kt:76-84 | the parse of `#` plus a text is the result for its decoded pairs |
| AndroidLocationHash.ComposeParseDecodingKeysRoundTrip | packages/android/src/main/kotlin/com/rarimo/unforgettable/LocationHash.kt:45-107 | with names decoded too, `parse(compose(p))` gives p in normal form when id and key are non-empty, and the error otherwise |
| AndroidLocationHash.ComposeParseDecodingKeysIdentity | packages/android/src/main/kotlin/com/rarimo/unforgettable/LocationHash.kt:45-107 | with names decoded too, a normal-form record with id and key comes back unchanged |
| AndroidLocationHash.ComposeParseKeysEncoded | packages/android/src/main/kotlin/com/rarimo/unforgettable/LocationHash.kt:81 | the written parse reads the composed hash as the pairs with escaped names |
| AndroidLocationHash.KeysEncodedUnchanged | packages/android/src/main/kotlin/com/rarimo/unforgettable/LocationHash.kt:62 | names that escape to themselves are unchanged |
| AndroidLocationHash.ComposedNamesUnescaped | packages/android/src/main/kotlin/com/rarimo/unforgettable/LocationHash.kt:62 | when no custom name needs escaping, no composed name does |
| AndroidLocationHash.ComposeParseRoundTrip | packages/android/src/main/kotlin/com/rarimo/unforgettable/LocationHash.kt:45-107 | the written parse inverts compose for records whose custom names need no escaping |
| AndroidLocationHash.FromParamsCustom | packages/android/src/main/kotlin/com/rarimo/unforgettable/LocationHash.kt:86-105 | parsed custom parameters are the non-reserved map entries, absent when there are none |
| AndroidLocationHash.SpacedNameAbsent | packages/android/src/main/kotlin/com/rarimo/unforgettable/LocationHash.kt:81 | a name with a space never appears among escaped names |
| AndroidLocationHash.ComposeParseLosesSpacedKey | packages/android/src/main/kotlin/com/rarimo/unforgettable/LocationHash.kt:60-86 | a custom key with a space is missing after the written round trip |
| AndroidLocationHash.SpacedKeyNotRecovered | packages/android/src/main/kotlin/com/rarimo/unforgettable/LocationHash.kt:81 | a normal-form record with such a key is not recovered |
| AndroidLocationHash.SpacedKeyWitness | packages/android/src/main/kotlin/com/rarimo/unforgettable/LocationHash.kt:81 | any unreserved name with a space yields an unrecovered record |
| AndroidLocationHash.ComposeNotInvertible | packages/android/src/main/kotlin/com/rarimo/unforgettable/LocationHash.kt:81 | some normal-form record with id and key does not survive the written round trip |
| Envelope.SoundIsSatisfiable | packages/android/src/main/kotlin/app/unforgettable/sdk/CryptoUtils.kt:113-132 | the laws assumed of X25519, HKDF and ChaCha20-Poly1305 hold together for some primitives |
| Envelope.GenerateKeyPair | packages/android/src/main/kotlin/app/unforgettable/sdk/CryptoUtils.kt:70-80 | the key pair keeps the private key, and its public key text decodes to the public key of that private key |
| AndroidCrypto.GenerateKeyPairAttempt | packages/android/src/main/kotlin/app/unforgettable/sdk/CryptoUtils.kt:70-80 | key generation throws `KeyGenerationFailed` exactly when the private key is not 32 bytes (Tink's `publicFromPrivate` rejects it); otherwise the pair keeps the private key and its public key text decodes to that key's public key |
| AndroidCrypto.GeneratedKeyPairEncrypts | packages/android/src/main/kotlin/app/unforgettable/sdk/CryptoUtils.kt:70-111 | a pair generated from a 32-byte private key is accepted by `encryptDataTransferData`, which then succeeds iff agreement and seal do, and its `decrypt` gives the data back |
| Envelope.Slice | packages/android/src/main/kotlin/app/unforgettable/sdk/CryptoUtils.kt:42-48 | the slices are 32 and 12 bytes and the rest |
| Envelope.CombineLayout | packages/android/src/main/kotlin/app/unforgettable/sdk/CryptoUtils.kt:101-105 | bytes 0-31 are the ephemeral key, 32-43 the nonce, 44 on the sealed text |
| Envelope.SliceCombine | packages/android/src/main/kotlin/app/unforgettable/sdk/CryptoUtils.kt:42-48 | slicing a combined envelope gives back its fields |
| Envelope.CombineSlice | packages/android/src/main/kotlin/app/unforgettable/sdk/CryptoUtils.kt:42-48 | recombining the slices gives back the envelope |
| Envelope.Overwrite | packages/android/src/main/kotlin/app/unforgettable/sdk/CryptoUtils.kt:103-105 | `arraycopy` keeps the buffer size |
| Envelope.OverwritesCombine | packages/android/src/main/kotlin/app/unforgettable/sdk/CryptoUtils.kt:102-105 | the three copies into a fresh buffer produce the combined envelope |
| Envelope.SealedEnvelopeSize | packages/android/src/main/kotlin/app/unforgettable/sdk/CryptoUtils.kt:16 | a sealed envelope is 60 bytes plus the plaintext, never below the minimum size |
| Envelope.Latin1Decode | packages/android/src/main/kotlin/app/unforgettable/sdk/CryptoUtils.kt:65 | ISO-8859-1 decoding maps each byte to the character with that code |
| Envelope.Latin1Encode | packages/ios/Sources/UnforgettableSDK/CryptoUtils.swift:70 | Latin-1 encoding of text below U+0100 maps each character to its code |
| Envelope.Latin1RoundTrip | packages/android/src/main/kotlin/app/unforgettable/sdk/CryptoUtils.kt:64-67 | Latin-1 decoding and encoding are inverse |
| AndroidCrypto.CatchAll | packages/android/src/main/kotlin/app/unforgettable/sdk/CryptoUtils.kt:59-61 | the catch-all keeps a success and turns every exception into the one error |
| AndroidCrypto.DecodeOrThrow | packages/android/src/main/kotlin/app/unforgettable/sdk/CryptoUtils.kt:142-153 | `base64URLDecode` returns the decoding or throws `IllegalArgumentException` |
| AndroidCrypto.DecryptAttempt | packages/android/src/main/kotlin/app/unforgettable/sdk/CryptoUtils.kt:32-58 | undecodable text throws, and fewer than 60 decoded bytes throw `InvalidCiphertext` |
| AndroidCrypto.DecryptRejectsShortInput | packages/android/src/main/kotlin/app/unforgettable/sdk/CryptoUtils.kt:37-39 | short input fails as `DecryptionFailed` before any primitive runs |
| AndroidCrypto.DecryptFailsOnlyAsDecryptionFailed | packages/android/src/main/kotlin/app/unforgettable/sdk/CryptoUtils.kt:32-62 | `decrypt` fails only with `DecryptionFailed`, and succeeds with the lossy UTF-8 of what opens |
| AndroidCrypto.DecryptBinaryOfText | packages/android/src/main/kotlin/app/unforgettable/sdk/CryptoUtils.kt:64-67 | `decryptBinary` of the Latin-1 bytes of a text equals `decrypt` of the text |
| AndroidCrypto.EncryptAttempt | packages/android/src/main/kotlin/app/unforgettable/sdk/CryptoUtils.kt:83-119 | an undecodable key throws, and a key that is not 32 bytes throws `InvalidPublicKey`; a failing key agreement or cipher throws a library exception |
| AndroidCrypto.ArrayCopy | packages/android/src/main/kotlin/app/unforgettable/sdk/CryptoUtils.kt:103-105 | `System.arraycopy` copies the range when it fits and throws (changing nothing) when it does not |
| AndroidCrypto.EncryptBody | packages/android/src/main/kotlin/app/unforgettable/sdk/CryptoUtils.kt:84-107 | the body of `encryptDataTransferData` computes the encryption specification |
| AndroidCrypto.EncryptToBody | packages/android/src/main/kotlin/app/unforgettable/sdk/CryptoUtils.kt:90-107 | once the recipient key is decoded and sized, the steps compute the key-agreement-onwards part of the encryption specification, a failed agreement being a library exception |
| AndroidCrypto.SealAndFrameBody | packages/android/src/main/kotlin/app/unforgettable/sdk/CryptoUtils.kt:95-107 | the nonce draw, the seal and the three copies compute the sealing-and-framing part of the specification, a failed seal being a library exception |
| AndroidCrypto.NewNonce | packages/android/src/main/kotlin/app/unforgettable/sdk/CryptoUtils.kt:95-96 | the nonce buffer holds the random bytes |
| AndroidCrypto.CombineInto | packages/android/src/main/kotlin/app/unforgettable/sdk/CryptoUtils.kt:102-105 | the combined buffer is key, nonce and sealed text, when the key is long enough |
| AndroidCrypto.EncryptDataTransferData | packages/android/src/main/kotlin/app/unforgettable/sdk/CryptoUtils.kt:82-111 | `encryptDataTransferData` is the encryption specification under the catch-all |
| AndroidCrypto.EncryptFailsOnlyAsEncryptionFailed | packages/android/src/main/kotlin/app/unforgettable/sdk/CryptoUtils.kt:82-111 | encryption fails only with `EncryptionFailed`, in particular for a key of the wrong size |
| AndroidCrypto.DecryptSealed | packages/android/src/main/kotlin/app/unforgettable/sdk/CryptoUtils.kt:32-62 | an envelope sealed for a key pair decrypts to the data |
| AndroidCrypto.EncryptDecryptRoundTrip | packages/android/src/main/kotlin/app/unforgettable/sdk/CryptoUtils.kt:32-119 | encryption to a generated public key succeeds exactly when key agreement and the ChaCha20-Poly1305 cipher do, and then `decrypt` gives the data back |
| IosCrypto.Prefix | packages/ios/Sources/UnforgettableSDK/CryptoUtils.swift:39 | `prefix(n)` is the first min(n, count) bytes |
| IosCrypto.DropFirst | packages/ios/Sources/UnforgettableSDK/CryptoUtils.swift:42-45 | `dropFirst(n)` is what follows the prefix |
| IosCrypto.DropLast | packages/ios/Sources/UnforgettableSDK/CryptoUtils.swift:56 | `dropLast(n)` has count - n bytes, or none |
| IosCrypto.Suffix | packages/ios/Sources/UnforgettableSDK/CryptoUtils.swift:57 | `suffix(n)` has min(n, count) bytes |
| IosCrypto.DropLastSuffix | packages/ios/Sources/UnforgettableSDK/CryptoUtils.swift:56-57 | `dropLast(n)` followed by `suffix(n)` is the data |
| IosCrypto.SlicePartsAgree | packages/ios/Sources/UnforgettableSDK/CryptoUtils.swift:39-57 | past the size check, the Swift slices are the Kotlin slices, with a 16-byte tag split off |
| IosCrypto.Decrypt | packages/ios/Sources/UnforgettableSDK/CryptoUtils.swift:30-67 | undecodable text throws `decodingFailed`, and fewer than 60 bytes throw `invalidCiphertext` |
| IosCrypto.DecryptRejectsShortInput | packages/ios/Sources/UnforgettableSDK/CryptoUtils.swift:34-36 | short input fails the same way for any primitives |
| IosCrypto.DecryptRejectsMalformedPlaintext | packages/ios/Sources/UnforgettableSDK/CryptoUtils.swift:62-64 | an opened plaintext that is not UTF-8 throws `decodingFailed` in Swift, while Kotlin returns its lossy decoding |
| IosCrypto.OpenPartsMalformed | packages/ios/Sources/UnforgettableSDK/CryptoUtils.swift:60-64 | opening to bytes that are not UTF-8 throws `decodingFailed` |
| IosCrypto.DecryptAgreesWithKotlin | packages/ios/Sources/UnforgettableSDK/CryptoUtils.swift:30-67 | whenever Swift `decrypt` succeeds, Kotlin `decrypt` returns the same text |
| IosCrypto.DecryptBinaryOfText | packages/ios/Sources/UnforgettableSDK/CryptoUtils.swift:69-75 | `decryptBinary` of the Latin-1 bytes of a text equals `decrypt` of the text |
| IosCrypto.EncryptAttempt | packages/ios/Sources/UnforgettableSDK/CryptoUtils.swift:86-90 | an undecodable key throws `decodingFailed`, and a key that is not 32 bytes throws `invalidPublicKey` |
| IosCrypto.EncryptDataTransferData | packages/ios/Sources/UnforgettableSDK/CryptoUtils.swift:86-123 | `encryptDataTransferData` computes the encryption specification |
| IosCrypto.EncryptToBody | packages/ios/Sources/UnforgettableSDK/CryptoUtils.swift:94-122 | after the key is decoded and sized, the steps compute the agreement-onwards part of the specification: a failed agreement is a CryptoKit error, a failed random draw `encryptionFailed` |
| IosCrypto.SealAndFrameBody | packages/ios/Sources/UnforgettableSDK/CryptoUtils.swift:109-122 | the seal and the appends compute the sealing-and-framing part of the specification, a failed seal being a CryptoKit error |
| IosCrypto.AppendParts | packages/ios/Sources/UnforgettableSDK/CryptoUtils.swift:116-120 | the appends build key, nonce, ciphertext and tag in that order |
| IosCrypto.DecryptWellSized | packages/ios/Sources/UnforgettableSDK/CryptoUtils.swift:32-45 | a well-sized envelope goes straight to key agreement and opening |
| IosCrypto.OpenPartsSealed | packages/ios/Sources/UnforgettableSDK/CryptoUtils.swift:48-66 | parts that open to the UTF-8 of a text decrypt to that text |
| IosCrypto.DecryptSealed | packages/ios/Sources/UnforgettableSDK/CryptoUtils.swift:30-67 | an envelope sealed for a key pair decrypts to the data |
| IosCrypto.EncryptDecryptRoundTrip | packages/ios/Sources/UnforgettableSDK/CryptoUtils.swift:30-123 | encryption to a generated public key succeeds exactly when key agreement, the random source and `ChaChaPoly.seal` do, and then `decrypt` gives the data back |
| CoreUtils.FindFrom | packages/core/src/utils.ts:3 | the search returns the first match at or after the start, or reports none |
| CoreUtils.FindFirst | packages/core/src/utils.ts:3 | a non-global regex `replace` finds the first occurrence of the literal |
| CoreUtils.RemoveFirst | packages/core/src/utils.ts:3-4 | removing the first occurrence shortens by the pattern, and leaves the text alone when there is none |
| CoreUtils.RemoveFirstAfter | packages/core/src/utils.ts:3-4 | with no earlier occurrence, removal takes out exactly the given one |
| CoreUtils.RemoveLineBreaks | packages/core/src/utils.ts:5 | no CR or LF survives |
| CoreUtils.RemoveLineBreaksIsFilter | packages/core/src/utils.ts:5 | removing `\r?\n\|\r` matches is removing every CR and every LF |
| CoreUtils.TrimTrailing | packages/core/src/utils.ts:8 | `=+$` removal keeps a prefix, ends on a non-`=`, and drops only `=` |
| CoreUtils.TrimTrailingRun | packages/core/src/utils.ts:8 | a run of trailing `=` is removed and nothing before it |
| CoreUtils.LineBreaksOnly | packages/core/src/utils.ts:5 | text of line breaks only vanishes |
| CoreUtils.UrlSafeKey | packages/core/src/utils.ts:5-8 | the result has no `+`, `/`, CR, LF, and no trailing `=` |
| CoreUtils.SwappedChars | packages/core/src/utils.ts:6-7 | after the swaps no `+` or `/` remains, and no line break is introduced |
| CoreUtils.PemToBase64Url | packages/core/src/utils.ts:1-9 | `pemToBase64Url` output is URL-safe: no `+`, `/`, line breaks or trailing `=` |
| CoreUtils.StripArmour | packages/core/src/utils.ts:3-4 | header and footer are removed around a body that cannot hold the footer |
| CoreUtils.TrailingLineBreaks | packages/core/src/utils.ts:5 | trailing line breaks after the footer leave no trace |
| CoreUtils.TrimmedSwappedEncoding | packages/core/src/utils.ts:6-8 | the swaps and the `=` trim turn the standard encoding into the base64url encoding |
| CoreUtils.UrlSafeKeyOfEncoding | packages/core/src/utils.ts:5-8 | a body whose lines hold the standard encoding becomes the base64url encoding |
| CoreUtils.NoDashInBody | packages/core/src/utils.ts:4 | a base64 body has no `-`, so it cannot hold the footer |
| CoreUtils.PemRoundTrip | packages/core/src/utils.ts:1-9 | the PEM of a key yields its base64url encoding, which decodes back to the key |
| CoreUtils.Absent | packages/core/src/utils.ts:3-4 | a pattern with a character the text lacks never occurs in it |
| CoreUtils.UrlSafeKeyFixed | packages/core/src/utils.ts:5-8 | text that is already URL-safe passes the clean-up steps unchanged |
| CoreUtils.UrlSafeIsFixed | packages/core/src/utils.ts:1-9 | `pemToBase64Url` leaves already URL-safe text unchanged (idempotence on its output) |
| RecoveryLink.BaseUrl | packages/ios/Sources/UnforgettableSDK/UnforgettableSDK.swift:96 | one trailing `/` is dropped, and only one |
| RecoveryLink.RecoveryPath | packages/ios/Sources/UnforgettableSDK/UnforgettableSDK.swift:97 | restore maps to `/r`, create to `/c` |
| RecoveryLink.IosGetRecoveryUrl | packages/ios/Sources/UnforgettableSDK/UnforgettableSDK.swift:95-111 | the URL is base, path, `#`, then the percent-decoded query that `compose` writes; the hash starts right after the path and reads back as the instance's record when no field holds `&`, `#` or `%` and no custom name holds `=` |
| RecoveryLink.IosRecoveryUrlSplits | packages/ios/Sources/UnforgettableSDK/UnforgettableSDK.swift:99-110 | for an app URL without `#`, splitting the URL at its first `#` gives the base and path and the written query, which reads back as the record when its fields need no escaping |
| RecoveryLink.IosRecoveryUrlCollision | packages/ios/Sources/UnforgettableSDK/UnforgettableSDK.swift:99-110 | an instance with wallet `w&g=g` and no group gets the same recovery URL as one with wallet `w` and group `g` |
| RecoveryLink.IosEncodedRecoveryUrlSplits | packages/ios/Sources/UnforgettableSDK/LocationHash.swift:101 | with the escaping `compose`, the query after the first `#` reads back as the record for every record |
| RecoveryLink.FrontWithoutHashSign | packages/ios/Sources/UnforgettableSDK/UnforgettableSDK.swift:96-99 | base and path hold no `#` when the app URL has none |
| RecoveryLink.AndroidGetRecoveryUrl | packages/android/src/main/kotlin/com/rarimo/unforgettable/UnforgettableSDK.kt:107-123 | the URL is base, path, then a hash that reads back as the instance's record when names are decoded |
| RecoveryLink.SameFront | packages/android/src/main/kotlin/com/rarimo/unforgettable/UnforgettableSDK.kt:108-109 | both SDKs build the same URL up to and including the `#` |

## Left out

- Cryptographic primitives are not computed: X25519, HKDF-SHA256 and ChaCha20-Poly1305 are
  parameters (`Envelope.Primitives`). The round trips assume only the laws in `Envelope.Sound`.
- The HKDF salt is `null` in Kotlin and empty `Data()` in Swift. Both give the same key under
  section 2.2 of RFC 5869, so one `hkdf` field serves both.
- Randomness is a parameter: the ephemeral private key, the nonce bytes, the generated private
  key and the data-transfer UUID. A failing `SecRandomCopyBytes` is a `None` nonce.
- Tink, JCA and CryptoKit exceptions are one opaque thrown value each (`LibraryFailure`,
  `CryptoKitError`): a rejected key in the key agreement, a `seal` that throws (for example
  `Cipher.getInstance("ChaCha20-Poly1305")` on an Android release without that provider), and
  a tag that does not match on `open`. Why a primitive fails is not modelled, only that it may.
- Utf8.DecodeLossy: matches Java's replacement-character decoding only on valid input. The
  number of U+FFFD characters for malformed input is not modelled.
- CoreLocationHash.ParseFactor: models `Number(raw)` as decimal digits with an optional sign.
  JavaScript `Number` also accepts surrounding whitespace, `1.0`, `1e0`, and `0x1`,
  so such tokens are rejected here while the source accepts them. The `InvalidFactorId`
  payload is the exact integer, whereas `Number` rounds digit strings above 2^53 to the nearest
  double (`9007199254740993` is reported as 9007199254740992). A digit string beyond the double
  range becomes `Infinity`, which the source reports as "not an integer"; the model reports it
  as an invalid factor id.
- AndroidLocationHash.ParseFactor: reads ASCII digits only, whereas Kotlin `toIntOrNull`
  also accepts other Unicode decimal digits.
- IosLocationHash.ParseItems: models `URLComponents(string:)` as strict percent decoding of
  each piece. Foundation's other leniencies and rejections (for example of characters outside
  the URL grammar) are not modelled.
- The TypeScript `URLSearchParams` is modelled on string keys only; special object keys such as
  `__proto__` in `Record`/`Object.entries` are not modelled.
- The visiting order of dictionaries (`Object.entries`, Swift `Dictionary`, Kotlin `Map`) is an
  unconstrained ghost order; every stated property holds for every order.
- Network, JSON and polling (`getRecoveredData` and the HTTP client) are not part of this model.
  Neither is the TypeScript `UnforgettableSdk` class with its RSA key variant.
- RecoveryLink.IosGetRecoveryUrl: the URL is the one the SDK builds, with the percent-decoded
  query. Its read-back is promised only for records whose fields hold no `&`, `#` or `%` (and
  whose custom names hold no `=`), because for other records the written hash does not read
  back (see Findings and `RecoveryLink.IosRecoveryUrlCollision`). The condition is sufficient
  only under the model of `URLComponents(string:)`; on a device a value with a space or a
  non-ASCII character may still be rejected (see the `IosLocationHash.ParseItems` line above).
- RecoveryLink.IosRecoveryUrlSplits: the split at the first `#` holds for every record, but
  the read-back of the query only for records whose fields need no escaping, for the same
  reason.
- UrlEncoding.JavaDecode: follows the `URLDecoder` of Android's runtime, which takes only
  ASCII hexadecimal digits after `%`. OpenJDK's decoder reads the two characters with
  `Integer.parseInt(s, i + 1, i + 3, 16)`, so it also accepts a signed escape such as `%+1` or
  `%-0`, and non-ASCII Unicode digits; such text throws `IllegalArgumentException` here.
- RecoveryLink.AndroidGetRecoveryUrl: its read-back is stated with names decoded too. With
  the parse as written, it holds only for custom names that need no escaping
  (`AndroidLocationHash.ComposeParseRoundTrip`).
- `com.rarimo.unforgettable.RecoveryFactor`, which the Kotlin `LocationHash.kt` imports, is not
  part of this model. It is taken to be the same enum as `app.unforgettable.sdk.RecoveryFactor`.
- Text is sequences of Unicode scalar values. Swift grapheme clusters and Java UTF-16 surrogate
  handling are not modelled.

## Findings

| source | as written | input that shows it | evidently intended | confidence | as-written member | corrected member |
|---|---|---|---|---|---|---|
| packages/ios/Sources/UnforgettableSDK/LocationHash.swift:101 | `compose` returns `components.query`, the percent-decoded query, so `&`, `=` and `#` in values are written raw | wallet address `w&g=g` and no group composes to the same hash as wallet `w` with group `g` | return `components.percentEncodedQuery`, so that parse inverts compose | not executed | IosLocationHash.ComposeCollision | IosLocationHash.ComposeEncodedRoundTrip |
| packages/android/src/main/kotlin/com/rarimo/unforgettable/LocationHash.kt:81 | parse URL-decodes values but not names, while compose (line 62) URL-encodes names | custom key `a b` is written `a+b=...` and comes back as key `a+b` | decode `parts[0]` too | not executed | AndroidLocationHash.ComposeParseLosesSpacedKey | AndroidLocationHash.ComposeParseDecodingKeysRoundTrip |
