/** What the three location-hash ports share: the parameters record, the reserved query keys,
    the comma-joined factor list, and the shape of factor-list parsing. */
module PathParams {
  import opened Wrappers
  import opened Strings
  import opened RecoveryFactors

  /** `UnforgettablePathParams`: the TypeScript interface, the Swift struct and the Kotlin data
      class have the same six fields; absent optional fields are None. */
  datatype UnforgettablePathParams = UnforgettablePathParams(
    dataTransferId: string,
    encryptionPublicKey: string,
    factors: seq<RecoveryFactor>,
    walletAddress: Option<string>,
    group: Option<string>,
    customParams: Option<map<string, string>>)

  const DataTransferIdKey: string := "id"
  const EncryptionPublicKeyKey: string := "epk"
  const FactorsKey: string := "f"
  const WalletAddressKey: string := "wa"
  const GroupKey: string := "g"

  /** `ALL_PARAMS_KEYS`: the values of `ParamsKey`, in declaration order. */
  const AllParamsKeys: seq<string> := [DataTransferIdKey, EncryptionPublicKeyKey, FactorsKey, WalletAddressKey, GroupKey]

  predicate IsReserved(key: string) {
    key in AllParamsKeys
  }

  /** The custom entries a `compose` writes: those whose key is not reserved. */
  function EmittedCustom(custom: Option<map<string, string>>): (m: map<string, string>)
    ensures forall k :: k in m <==> custom.Some? && k in custom.value && !IsReserved(k)
    ensures forall k :: k in m ==> m[k] == custom.value[k]
  {
    match custom
    case None => map[]
    case Some(c) => map k | k in c && !IsReserved(k) :: c[k]
  }

  /** `order` lists the keys of `keys` once each: the order in which a `for` over a dictionary
      happens to visit them. */
  ghost predicate IsListing(order: seq<string>, keys: set<string>) {
    (forall i, j :: 0 <= i < j < |order| ==> order[i] != order[j]) &&
    (forall k :: k in order <==> k in keys)
  }

  /** Part way through a loop over the keys of a dictionary: `pending` holds the keys not yet
      visited, and `order` lists, once each, the visited keys that belong to `emitted`. */
  ghost predicate PartlyListed(order: seq<string>, pending: set<string>, emitted: set<string>) {
    (forall i :: 0 <= i < |order| ==> order[i] in emitted && order[i] !in pending) &&
    (forall i, j :: 0 <= i < j < |order| ==> order[i] != order[j]) &&
    (forall k :: k in emitted ==> k in pending || k in order)
  }

  /** Before the loop nothing is listed... */
  lemma ListingStarts(pending: set<string>, emitted: set<string>)
    requires emitted <= pending
    ensures PartlyListed([], pending, emitted)
  {
  }

  /** ...each visit lists the key when it belongs to `emitted`... */
  lemma ListingVisits(order: seq<string>, pending: set<string>, emitted: set<string>, key: string)
    requires PartlyListed(order, pending, emitted) && key in pending
    ensures key !in order
    ensures key in emitted ==> PartlyListed(order + [key], pending - {key}, emitted)
    ensures key !in emitted ==> PartlyListed(order, pending - {key}, emitted)
  {
    if key in emitted {
      var next := order + [key];
      assert forall i :: 0 <= i < |order| ==> next[i] == order[i];
    }
  }

  /** ...and once every key was visited, `order` lists `emitted`. */
  lemma ListingEnds(order: seq<string>, emitted: set<string>)
    requires PartlyListed(order, {}, emitted)
    ensures IsListing(order, emitted)
  {
  }

  /** The hash without one leading `#`: what each `parse` reads the query from. */
  function StripHash(hash: string): string {
    DropLeading(hash, '#')
  }

  // ---- the factor list ----

  /** The decimal code of each factor: `String(code)`, `String($0.rawValue)`, `value.toString()`. */
  function CodeStrings(fs: seq<RecoveryFactor>): (r: seq<string>)
    ensures |r| == |fs|
    ensures forall i :: 0 <= i < |fs| ==> r[i] == NatToDecimal(Code(fs[i]))
  {
    if fs == [] then [] else [NatToDecimal(Code(fs[0]))] + CodeStrings(fs[1..])
  }

  /** The value of the `f` key: the codes joined with `,`. */
  function FactorsValue(fs: seq<RecoveryFactor>): string {
    Join(CodeStrings(fs), ',')
  }

  lemma CodeStringIsDigit(f: RecoveryFactor)
    ensures NatToDecimal(Code(f)) == [DigitChar(Code(f))]
  {
  }

  /** A written factor list is made of digits and commas. */
  lemma FactorsValueChars(fs: seq<RecoveryFactor>)
    ensures forall c :: c in FactorsValue(fs) ==> c == ',' || IsDigit(c)
  {
    forall c | c in FactorsValue(fs)
      ensures c == ',' || IsDigit(c)
    {
      JoinChars(CodeStrings(fs), ',', c);
      if c != ',' {
        var i :| 0 <= i < |fs| && c in CodeStrings(fs)[i];
        CodeStringIsDigit(fs[i]);
      }
    }
  }

  /** The non-empty strings of `parts`, in order: `.filter(x => x !== '')`. */
  function NonEmpty(parts: seq<string>): (r: seq<string>)
    ensures forall i :: 0 <= i < |r| ==> r[i] != "" && r[i] in parts
  {
    if parts == [] then []
    else (if parts[0] == "" then [] else [parts[0]]) + NonEmpty(parts[1..])
  }

  lemma {:induction false} NonEmptyAppend(a: seq<string>, b: seq<string>)
    ensures NonEmpty(a + b) == NonEmpty(a) + NonEmpty(b)
    decreases |a|
  {
    if a == [] {
      assert a + b == b;
    } else {
      var head := if a[0] == "" then [] else [a[0]];
      assert NonEmpty(a + b) == head + NonEmpty(a[1..] + b) by {
        assert a + b != [] && (a + b)[0] == a[0] && (a + b)[1..] == a[1..] + b;
      }
      NonEmptyAppend(a[1..], b);
      assert head + (NonEmpty(a[1..]) + NonEmpty(b)) == (head + NonEmpty(a[1..])) + NonEmpty(b);
    }
  }

  lemma {:induction false} NonEmptyUnchanged(parts: seq<string>)
    requires forall i :: 0 <= i < |parts| ==> parts[i] != ""
    ensures NonEmpty(parts) == parts
    decreases |parts|
  {
    if parts != [] {
      NonEmptyUnchanged(parts[1..]);
      assert [parts[0]] + parts[1..] == parts;
    }
  }

  /** The factor tokens of a raw `f` value: its comma-separated segments without the empty ones. */
  function FactorTokens(raw: string): (tokens: seq<string>)
    ensures forall i :: 0 <= i < |tokens| ==> tokens[i] != "" && ',' !in tokens[i]
  {
    NonEmpty(Split(raw, ','))
  }

  /** Empty segments are dropped: between two pieces, any number of extra commas changes
      nothing, and a value made only of commas has no tokens. */
  lemma FactorTokensOfCommas(a: string, b: string, n: nat)
    requires ',' !in a
    ensures FactorTokens(a + Repeat(',', n + 1) + b) == FactorTokens(a) + FactorTokens(b)
    ensures FactorTokens(Repeat(',', n)) == []
  {
    CommaRun(a, b, n);
    CommasOnly(n);
  }

  lemma {:induction false} CommaRun(a: string, b: string, n: nat)
    requires ',' !in a
    ensures FactorTokens(a + Repeat(',', n + 1) + b) == FactorTokens(a) + FactorTokens(b)
    decreases n
  {
    if n == 0 {
      assert a + Repeat(',', 1) + b == a + [','] + b;
      TokensAfterSegment(a, b);
    } else {
      var rest := Repeat(',', n) + b;
      assert FactorTokens(a + Repeat(',', n + 1) + b) == FactorTokens(a) + FactorTokens(rest) by {
        assert a + Repeat(',', n + 1) + b == a + [','] + rest;
        TokensAfterSegment(a, rest);
      }
      assert FactorTokens(rest) == FactorTokens(b) by {
        CommaRun("", b, n - 1);
        assert "" + Repeat(',', n) + b == rest;
        assert FactorTokens("") == [] by {
          assert Split("", ',') == [""];
        }
      }
    }
  }

  /** A comma ends a segment: the tokens before it, then the tokens after it. */
  lemma TokensAfterSegment(a: string, rest: string)
    requires ',' !in a
    ensures FactorTokens(a + [','] + rest) == FactorTokens(a) + FactorTokens(rest)
  {
    SplitWithoutSeparator(a, ',');
    SplitAfterSegment(a, rest, ',');
    NonEmptyAppend([a], Split(rest, ','));
  }

  lemma {:induction false} CommasOnly(n: nat)
    ensures FactorTokens(Repeat(',', n)) == []
    decreases n
  {
    if n == 0 {
      assert Split("", ',') == [""];
    } else {
      CommasOnly(n - 1);
      assert Repeat(',', n) == [','] + Repeat(',', n - 1);
      assert Split(Repeat(',', n), ',') == [""] + Split(Repeat(',', n - 1), ',');
      NonEmptyAppend([""], Split(Repeat(',', n - 1), ','));
    }
  }

  /** Reading the tokens back out of a written factor list gives the codes in order, duplicates
      included; the list is empty exactly when there are no factors. */
  lemma FactorTokensOfValue(fs: seq<RecoveryFactor>)
    ensures FactorTokens(FactorsValue(fs)) == CodeStrings(fs)
    ensures FactorsValue(fs) == "" <==> fs == []
  {
    var parts := CodeStrings(fs);
    if fs == [] {
      assert Split("", ',') == [""];
    } else {
      forall i | 0 <= i < |parts|
        ensures ',' !in parts[i] && parts[i] != ""
      {
        CodeStringIsDigit(fs[i]);
      }
      SplitJoin(parts, ',');
      NonEmptyUnchanged(parts);
      CodeStringIsDigit(fs[0]);
      assert FactorsValue(fs) != "" by {
        if |parts| > 1 {
          assert |FactorsValue(fs)| >= |parts[0]|;
        }
      }
    }
  }

  // ---- parsing the tokens ----

  /** Token `i` is the first that `parseOne` rejects. */
  ghost predicate FirstFailure<E>(tokens: seq<string>, parseOne: string -> Result<RecoveryFactor, E>, i: int) {
    0 <= i < |tokens| && parseOne(tokens[i]).Failure? &&
    forall j :: 0 <= j < i ==> parseOne(tokens[j]).Success?
  }

  /** Each token parsed in turn, the first failure ending the list: the `map` with a throwing
      callback in TypeScript, the `for` loop with `throw` in Swift and Kotlin. */
  function ParseEach<E>(tokens: seq<string>, parseOne: string -> Result<RecoveryFactor, E>)
    : Result<seq<RecoveryFactor>, E>
  {
    if tokens == [] then Success([])
    else
      match parseOne(tokens[0])
      case Failure(e) => Failure(e)
      case Success(f) =>
        match ParseEach(tokens[1..], parseOne)
        case Failure(e) => Failure(e)
        case Success(rest) => Success([f] + rest)
  }

  /** The list parses exactly when every token does, the factors come in token order, and a
      failure is the error of the first token that fails. */
  lemma {:induction false} ParseEachSpec<E>(tokens: seq<string>, parseOne: string -> Result<RecoveryFactor, E>)
    ensures var r := ParseEach(tokens, parseOne);
      (r.Success? <==> forall i :: 0 <= i < |tokens| ==> parseOne(tokens[i]).Success?) &&
      (r.Success? ==>
        |r.value| == |tokens| && forall i :: 0 <= i < |tokens| ==> r.value[i] == parseOne(tokens[i]).value) &&
      (r.Failure? ==> exists i :: FirstFailure(tokens, parseOne, i) && parseOne(tokens[i]) == Failure(r.error))
    decreases |tokens|
  {
    if tokens != [] {
      ParseEachSpec(tokens[1..], parseOne);
      match parseOne(tokens[0])
      case Failure(e) =>
        assert FirstFailure(tokens, parseOne, 0);
      case Success(f) =>
        match ParseEach(tokens[1..], parseOne)
        case Failure(e) =>
          var i :| FirstFailure(tokens[1..], parseOne, i) && parseOne(tokens[1..][i]) == Failure(e);
          assert FirstFailure(tokens, parseOne, i + 1);
        case Success(rest) =>
          forall i | 0 <= i < |tokens|
            ensures parseOne(tokens[i]).Success?
          {
            if i > 0 {
              assert tokens[i] == tokens[1..][i - 1];
            }
          }
    }
  }

  /** A written factor list parses back to the factors, for any token parser that reads a code
      back as its factor. */
  lemma FactorsRoundTrip<E>(fs: seq<RecoveryFactor>, parseOne: string -> Result<RecoveryFactor, E>)
    requires forall f :: parseOne(NatToDecimal(Code(f))) == Success(f)
    ensures ParseEach(FactorTokens(FactorsValue(fs)), parseOne) == Success(fs)
  {
    FactorTokensOfValue(fs);
    ParseEachSpec(CodeStrings(fs), parseOne);
    var r := ParseEach(CodeStrings(fs), parseOne);
    assert r.Success?;
    assert r.value == fs;
  }

  /** Parsing one more token: the list so far, then that token, the first failure winning. This
      is what the `for` loops of the Swift and Kotlin `parseFactors` do per step. */
  lemma {:induction false} ParseEachSnoc<E>(tokens: seq<string>, token: string, parseOne: string -> Result<RecoveryFactor, E>)
    ensures ParseEach(tokens + [token], parseOne) ==
      match ParseEach(tokens, parseOne)
      case Failure(e) => Failure(e)
      case Success(fs) =>
        match parseOne(token)
        case Failure(e) => Failure(e)
        case Success(f) => Success(fs + [f])
    decreases |tokens|
  {
    if tokens == [] {
      assert tokens + [token] == [token];
      assert [token][0] == token && [token][1..] == [];
      assert ParseEach([], parseOne) == Success([]);
      match parseOne(token)
      case Failure(e) =>
      case Success(f) =>
        assert [f] + [] == [] + [f];
    } else {
      var all := tokens + [token];
      assert all[0] == tokens[0] && all[1..] == tokens[1..] + [token];
      ParseEachSnoc(tokens[1..], token, parseOne);
      match parseOne(tokens[0])
      case Failure(e) =>
      case Success(f) =>
        match ParseEach(tokens[1..], parseOne)
        case Failure(e) =>
        case Success(rest) =>
          match parseOne(token)
          case Failure(e) =>
          case Success(g) =>
            assert [f] + (rest + [g]) == ([f] + rest) + [g];
    }
  }

  /** Once a prefix has failed, the tokens after it are never looked at. */
  lemma {:induction false} ParseEachFailedPrefix<E>(tokens: seq<string>, more: seq<string>, parseOne: string -> Result<RecoveryFactor, E>)
    requires ParseEach(tokens, parseOne).Failure?
    ensures ParseEach(tokens + more, parseOne) == ParseEach(tokens, parseOne)
    decreases |tokens|
  {
    var all := tokens + more;
    assert all[0] == tokens[0] && all[1..] == tokens[1..] + more;
    if parseOne(tokens[0]).Success? {
      ParseEachFailedPrefix(tokens[1..], more, parseOne);
    }
  }

  /** One iteration of a loop that parses the tokens in turn and stops at the first failure. */
  lemma ParseEachLoopStep<E>(tokens: seq<string>, parseOne: string -> Result<RecoveryFactor, E>, i: int,
                             factors: seq<RecoveryFactor>)
    requires 0 <= i < |tokens| && ParseEach(tokens[..i], parseOne) == Success(factors)
    ensures parseOne(tokens[i]).Failure? ==> ParseEach(tokens, parseOne) == Failure(parseOne(tokens[i]).error)
    ensures parseOne(tokens[i]).Success? ==>
      ParseEach(tokens[..i + 1], parseOne) == Success(factors + [parseOne(tokens[i]).value])
  {
    ParseEachSnoc(tokens[..i], tokens[i], parseOne);
    assert tokens[..i + 1] == tokens[..i] + [tokens[i]];
    if parseOne(tokens[i]).Failure? {
      ParseEachFailedPrefix(tokens[..i + 1], tokens[i + 1..], parseOne);
      assert tokens == tokens[..i + 1] + tokens[i + 1..];
    }
  }
}
