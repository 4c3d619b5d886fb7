/** Name/value lists, the common ground of the three location-hash ports: the list a `compose`
    writes, the first-occurrence lookup of `URLSearchParams.get`, and the last-occurrence
    dictionaries Swift and Kotlin build while parsing. */
module QueryPairs {
  import opened Wrappers
  import opened Strings
  import opened PathParams

  type Pairs = seq<(string, string)>

  function NamesOf(pairs: Pairs): (names: seq<string>)
    ensures |names| == |pairs| && forall i :: 0 <= i < |pairs| ==> names[i] == pairs[i].0
  {
    if pairs == [] then [] else [pairs[0].0] + NamesOf(pairs[1..])
  }

  predicate DistinctNames(pairs: Pairs) {
    forall i, j :: 0 <= i < j < |pairs| ==> pairs[i].0 != pairs[j].0
  }

  /** The value of the first pair named `key`, if any: `URLSearchParams.get`. */
  function FirstValue(pairs: Pairs, key: string): Option<string>
  {
    if pairs == [] then None
    else if pairs[0].0 == key then Some(pairs[0].1)
    else FirstValue(pairs[1..], key)
  }

  /** `get` finds the first pair with the name, and nothing when no pair has it. */
  lemma FirstValueSpec(pairs: Pairs, key: string)
    ensures FirstValue(pairs, key).None? <==> key !in NamesOf(pairs)
    ensures FirstValue(pairs, key).Some? ==>
      exists i :: 0 <= i < |pairs| && pairs[i] == (key, FirstValue(pairs, key).value) &&
                  key !in NamesOf(pairs[..i])
  {
    FirstValueAbsent(pairs, key);
    if FirstValue(pairs, key).Some? {
      FirstValueFound(pairs, key);
      var i :| FirstAt(pairs, key, FirstValue(pairs, key).value, i);
      assert 0 <= i < |pairs| && pairs[i] == (key, FirstValue(pairs, key).value) && key !in NamesOf(pairs[..i]);
    }
  }

  /** Position `i` holds the first pair named `key`, and its value is `v`. */
  ghost predicate FirstAt(pairs: Pairs, key: string, v: string, i: int) {
    0 <= i < |pairs| && pairs[i] == (key, v) && key !in NamesOf(pairs[..i])
  }

  lemma {:induction false} FirstValueAbsent(pairs: Pairs, key: string)
    ensures FirstValue(pairs, key).None? <==> key !in NamesOf(pairs)
    decreases |pairs|
  {
    if pairs != [] {
      FirstValueAbsent(pairs[1..], key);
      assert NamesOf(pairs) == [pairs[0].0] + NamesOf(pairs[1..]);
    }
  }

  lemma {:induction false} FirstValueFound(pairs: Pairs, key: string)
    requires FirstValue(pairs, key).Some?
    ensures exists i :: FirstAt(pairs, key, FirstValue(pairs, key).value, i)
    decreases |pairs|
  {
    var v := FirstValue(pairs, key).value;
    if pairs[0].0 == key {
      assert NamesOf(pairs[..0]) == [];
      assert FirstAt(pairs, key, v, 0);
    } else {
      var rest := pairs[1..];
      assert FirstValue(rest, key) == Some(v);
      FirstValueFound(rest, key);
      var i :| FirstAt(rest, key, v, i);
      assert NamesOf(pairs[..i + 1]) == [pairs[0].0] + NamesOf(rest[..i]) by {
        assert pairs[..i + 1] != [] && pairs[..i + 1][0] == pairs[0] && pairs[..i + 1][1..] == rest[..i];
      }
      assert FirstAt(pairs, key, v, i + 1);
    }
  }

  lemma {:induction false} FirstValueAppend(a: Pairs, b: Pairs, key: string)
    ensures FirstValue(a + b, key) == if FirstValue(a, key).Some? then FirstValue(a, key) else FirstValue(b, key)
    decreases |a|
  {
    if a == [] {
      assert a + b == b;
    } else {
      FirstValueAppend(a[1..], b, key);
      assert (a + b)[0] == a[0] && (a + b)[1..] == a[1..] + b;
    }
  }

  lemma {:induction false} NamesOfAppend(a: Pairs, b: Pairs)
    ensures NamesOf(a + b) == NamesOf(a) + NamesOf(b)
  {
  }

  /** The dictionary a loop of assignments `m[name] = value` builds: a later pair overwrites an
      earlier one (Swift's `params[item.name] = value`, Kotlin's `toMap()`). */
  function ToMap(pairs: Pairs): map<string, string>
    decreases |pairs|
  {
    if pairs == [] then map[]
    else ToMap(pairs[..|pairs| - 1])[pairs[|pairs| - 1].0 := pairs[|pairs| - 1].1]
  }

  /** `dict[key]` as an optional value. */
  function Lookup(m: map<string, string>, key: string): Option<string> {
    if key in m then Some(m[key]) else None
  }

  lemma {:induction false} ToMapAppend(a: Pairs, b: Pairs)
    ensures ToMap(a + b) == ToMap(a) + ToMap(b)
    decreases |b|
  {
    if b == [] {
      assert a + b == a;
    } else {
      var init := b[..|b| - 1];
      ToMapAppend(a, init);
      assert (a + b)[..|a + b| - 1] == a + init;
      assert (a + b)[|a + b| - 1] == b[|b| - 1];
    }
  }

  /** The dictionary has an entry exactly for the names in the list. */
  lemma {:induction false} ToMapKeys(pairs: Pairs, key: string)
    ensures key in ToMap(pairs) <==> key in NamesOf(pairs)
    decreases |pairs|
  {
    if pairs != [] {
      var init := pairs[..|pairs| - 1];
      ToMapKeys(init, key);
      assert pairs == init + [pairs[|pairs| - 1]];
      NamesOfAppend(init, [pairs[|pairs| - 1]]);
    }
  }

  /** Without repeated names, the last occurrence is the first: the dictionary of a list agrees
      with `get` on it. */
  lemma {:induction false} ToMapOfDistinct(pairs: Pairs, key: string)
    requires DistinctNames(pairs)
    ensures Lookup(ToMap(pairs), key) == FirstValue(pairs, key)
    decreases |pairs|
  {
    if pairs != [] {
      var init := pairs[..|pairs| - 1];
      var last := pairs[|pairs| - 1];
      ToMapOfDistinct(init, key);
      assert pairs == init + [last];
      FirstValueAppend(init, [last], key);
      if key == last.0 {
        FirstValueSpec(init, key);
        ToMapKeys(init, key);
      }
    }
  }

  /** The later of two pairs with the same name is the one the dictionary keeps. */
  lemma {:induction false} ToMapLastWins(pairs: Pairs, i: int)
    requires 0 <= i < |pairs| && forall j :: i < j < |pairs| ==> pairs[j].0 != pairs[i].0
    ensures pairs[i].0 in ToMap(pairs) && ToMap(pairs)[pairs[i].0] == pairs[i].1
    decreases |pairs|
  {
    var init := pairs[..|pairs| - 1];
    if i < |pairs| - 1 {
      assert init[i] == pairs[i];
      ToMapLastWins(init, i);
    }
  }

  /** A pair list's lookup is its head's when the name is the head's, its tail's otherwise. */
  lemma FirstValueCons(x: (string, string), rest: Pairs, key: string)
    ensures FirstValue([x] + rest, key) == if x.0 == key then Some(x.1) else FirstValue(rest, key)
  {
    assert ([x] + rest)[1..] == rest;
  }

  // ---- custom parameters ----

  /** `filterKeys { !ALL_PARAMS_KEYS.contains(it) }`. */
  function RestrictCustom(m: map<string, string>): (r: map<string, string>)
    ensures forall k :: k in r <==> k in m && !IsReserved(k)
    ensures forall k :: k in r ==> r[k] == m[k]
  {
    map k | k in m && !IsReserved(k) :: m[k]
  }

  /** The loop `for (key, value) ... if (!reserved) customParams[key] = value`, after the given
      pairs. */
  function CustomFold(pairs: Pairs): map<string, string>
    decreases |pairs|
  {
    if pairs == [] then map[]
    else
      var init := CustomFold(pairs[..|pairs| - 1]);
      var last := pairs[|pairs| - 1];
      if IsReserved(last.0) then init else init[last.0 := last.1]
  }

  /** The loop keeps exactly the non-reserved entries of the last-wins dictionary. */
  lemma {:induction false} CustomFoldIsRestrict(pairs: Pairs)
    ensures CustomFold(pairs) == RestrictCustom(ToMap(pairs))
    decreases |pairs|
  {
    if pairs != [] {
      CustomFoldIsRestrict(pairs[..|pairs| - 1]);
    }
  }

  /** One more step of the loop. */
  lemma CustomFoldStep(pairs: Pairs, i: int)
    requires 0 <= i < |pairs|
    ensures CustomFold(pairs[..i + 1]) ==
      if IsReserved(pairs[i].0) then CustomFold(pairs[..i]) else CustomFold(pairs[..i])[pairs[i].0 := pairs[i].1]
  {
    assert pairs[..i + 1][..i] == pairs[..i];
  }

  /** One more assignment at the end: both dictionaries take the new pair. */
  lemma MapsSnoc(pairs: Pairs, x: (string, string))
    ensures ToMap(pairs + [x]) == ToMap(pairs)[x.0 := x.1]
    ensures CustomFold(pairs + [x]) == if IsReserved(x.0) then CustomFold(pairs) else CustomFold(pairs)[x.0 := x.1]
  {
    assert (pairs + [x])[..|pairs|] == pairs;
  }

  /** The loop keeps a key exactly when some pair has it and it is not reserved. */
  lemma {:induction false} CustomFoldKeys(pairs: Pairs, key: string)
    ensures key in CustomFold(pairs) <==> key in NamesOf(pairs) && !IsReserved(key)
    decreases |pairs|
  {
    if pairs != [] {
      var init := pairs[..|pairs| - 1];
      CustomFoldKeys(init, key);
      assert pairs == init + [pairs[|pairs| - 1]];
      NamesOfAppend(init, [pairs[|pairs| - 1]]);
    }
  }

  /** `customParams.isEmpty ? nil : customParams`. */
  function NoneIfEmpty(m: map<string, string>): (r: Option<map<string, string>>)
    ensures r.None? <==> |m| == 0
    ensures r.Some? ==> r.value == m
  {
    if |m| == 0 then None else Some(m)
  }

  // ---- what `compose` writes ----

  /** When an optional field is written: TypeScript tests the value for truthiness, so an empty
      string is left out; Swift and Kotlin test for null only. */
  datatype OptionalRule = WhenTruthy | WhenPresent

  function Emitted(v: Option<string>, rule: OptionalRule): (r: Option<string>)
    ensures r.Some? ==> v == r
    ensures v.Some? && r.None? ==> rule == WhenTruthy && v.value == ""
  {
    match v
    case None => None
    case Some(s) => if rule == WhenTruthy && s == "" then None else Some(s)
  }

  function OptionalPair(key: string, v: Option<string>, rule: OptionalRule): Pairs {
    match Emitted(v, rule)
    case None => []
    case Some(s) => [(key, s)]
  }

  function CustomPairs(order: seq<string>, m: map<string, string>): (r: Pairs)
    requires forall i :: 0 <= i < |order| ==> order[i] in m
    ensures |r| == |order| && forall i :: 0 <= i < |order| ==> r[i] == (order[i], m[order[i]])
  {
    if order == [] then [] else [(order[0], m[order[0]])] + CustomPairs(order[1..], m)
  }

  lemma CustomPairsAppend(order: seq<string>, key: string, m: map<string, string>)
    requires forall i :: 0 <= i < |order| ==> order[i] in m
    requires key in m
    ensures CustomPairs(order + [key], m) == CustomPairs(order, m) + [(key, m[key])]
  {
    var l := CustomPairs(order + [key], m);
    var r := CustomPairs(order, m) + [(key, m[key])];
    assert |l| == |r|;
    forall i | 0 <= i < |l|
      ensures l[i] == r[i]
    {
      if i < |order| {
        assert (order + [key])[i] == order[i];
      }
    }
  }

  /** The list of pairs a `compose` writes, custom entries in the order `order` visits them. */
  function ComposedPairs(p: UnforgettablePathParams, order: seq<string>, rule: OptionalRule): Pairs
    requires forall i :: 0 <= i < |order| ==> order[i] in EmittedCustom(p.customParams)
  {
    [(DataTransferIdKey, p.dataTransferId), (EncryptionPublicKeyKey, p.encryptionPublicKey),
     (FactorsKey, FactorsValue(p.factors))]
    + OptionalPair(WalletAddressKey, p.walletAddress, rule)
    + OptionalPair(GroupKey, p.group, rule)
    + CustomPairs(order, EmittedCustom(p.customParams))
  }

  /** The custom entries, written in any listing order, read back as the same dictionary. */
  lemma ToMapOfCustomPairs(order: seq<string>, m: map<string, string>)
    requires IsListing(order, m.Keys)
    ensures ToMap(CustomPairs(order, m)) == m
  {
    var pairs := CustomPairs(order, m);
    forall k
      ensures k in ToMap(pairs) <==> k in m
    {
      CustomPairKey(order, m, k);
    }
    forall k | k in m
      ensures ToMap(pairs)[k] == m[k]
    {
      CustomPairValue(order, m, k);
    }
  }

  lemma CustomPairKey(order: seq<string>, m: map<string, string>, k: string)
    requires IsListing(order, m.Keys)
    ensures k in ToMap(CustomPairs(order, m)) <==> k in m
  {
    var pairs := CustomPairs(order, m);
    ToMapKeys(pairs, k);
    assert NamesOf(pairs) == order;
  }

  lemma CustomPairValue(order: seq<string>, m: map<string, string>, k: string)
    requires IsListing(order, m.Keys) && k in m
    ensures k in ToMap(CustomPairs(order, m)) && ToMap(CustomPairs(order, m))[k] == m[k]
  {
    var pairs := CustomPairs(order, m);
    assert k in order;
    var i :| 0 <= i < |order| && order[i] == k;
    assert forall j :: i < j < |pairs| ==> pairs[j].0 != pairs[i].0 by {
      forall j | i < j < |pairs|
        ensures pairs[j].0 != pairs[i].0
      {
        assert order[i] != order[j];
      }
    }
    ToMapLastWins(pairs, i);
  }

  /** A dictionary built only from reserved names has no custom entry left. */
  lemma {:induction false} RestrictReserved(pairs: Pairs, rest: map<string, string>)
    requires forall i :: 0 <= i < |pairs| ==> IsReserved(pairs[i].0)
    ensures RestrictCustom(ToMap(pairs) + rest) == RestrictCustom(rest)
  {
    forall k
      ensures k in ToMap(pairs) ==> IsReserved(k)
    {
      ToMapKeys(pairs, k);
    }
  }

  /** The custom entries come after everything a `compose` writes for the reserved names. */
  lemma ComposedPairsOfOrder(p: UnforgettablePathParams, order: seq<string>, rule: OptionalRule)
    requires forall i :: 0 <= i < |order| ==> order[i] in EmittedCustom(p.customParams)
    ensures ComposedPairs(p, order, rule) == ComposedPairs(p, [], rule) + CustomPairs(order, EmittedCustom(p.customParams))
  {
    assert CustomPairs([], EmittedCustom(p.customParams)) == [];
  }

  lemma ComposedPairsSplit(p: UnforgettablePathParams, order: seq<string>, rule: OptionalRule)
    requires forall i :: 0 <= i < |order| ==> order[i] in EmittedCustom(p.customParams)
    ensures var head := [(DataTransferIdKey, p.dataTransferId), (EncryptionPublicKeyKey, p.encryptionPublicKey),
                         (FactorsKey, FactorsValue(p.factors))]
                        + OptionalPair(WalletAddressKey, p.walletAddress, rule)
                        + OptionalPair(GroupKey, p.group, rule);
      var custom := CustomPairs(order, EmittedCustom(p.customParams));
      ComposedPairs(p, order, rule) == head + custom &&
      (forall i :: 0 <= i < |head| ==> IsReserved(head[i].0)) &&
      (forall i :: 0 <= i < |custom| ==> !IsReserved(custom[i].0)) &&
      DistinctNames(head)
  {
  }

  /** Where each reserved name is written: the fixed keys first, then the optional ones when
      their rule lets them be written. */
  lemma ComposedPairsLookups(p: UnforgettablePathParams, order: seq<string>, rule: OptionalRule)
    requires forall i :: 0 <= i < |order| ==> order[i] in EmittedCustom(p.customParams)
    ensures var pairs := ComposedPairs(p, order, rule);
      |pairs| >= 3 && pairs[0] == (DataTransferIdKey, p.dataTransferId) &&
      pairs[1] == (EncryptionPublicKeyKey, p.encryptionPublicKey) &&
      pairs[2] == (FactorsKey, FactorsValue(p.factors)) &&
      FirstValue(pairs, DataTransferIdKey) == Some(p.dataTransferId) &&
      FirstValue(pairs, EncryptionPublicKeyKey) == Some(p.encryptionPublicKey) &&
      FirstValue(pairs, FactorsKey) == Some(FactorsValue(p.factors)) &&
      FirstValue(pairs, WalletAddressKey) == Emitted(p.walletAddress, rule) &&
      FirstValue(pairs, GroupKey) == Emitted(p.group, rule)
  {
    var wa := OptionalPair(WalletAddressKey, p.walletAddress, rule);
    var g := OptionalPair(GroupKey, p.group, rule);
    var custom := CustomPairs(order, EmittedCustom(p.customParams));
    var a := (DataTransferIdKey, p.dataTransferId);
    var b := (EncryptionPublicKeyKey, p.encryptionPublicKey);
    var c := (FactorsKey, FactorsValue(p.factors));
    var rest := wa + (g + custom);
    var pairs := ComposedPairs(p, order, rule);
    assert pairs == [a] + ([b] + ([c] + rest));
    ReservedKeysDistinct();
    assert FirstValue(pairs, DataTransferIdKey) == Some(a.1) by {
      FirstValueCons(a, [b] + ([c] + rest), DataTransferIdKey);
    }
    assert FirstValue(pairs, EncryptionPublicKeyKey) == Some(b.1) by {
      FirstValueCons(a, [b] + ([c] + rest), EncryptionPublicKeyKey);
      FirstValueCons(b, [c] + rest, EncryptionPublicKeyKey);
    }
    assert FirstValue(pairs, FactorsKey) == Some(c.1) by {
      FirstValueCons(a, [b] + ([c] + rest), FactorsKey);
      FirstValueCons(b, [c] + rest, FactorsKey);
      FirstValueCons(c, rest, FactorsKey);
    }
    assert FirstValue(pairs, WalletAddressKey) == Emitted(p.walletAddress, rule) by {
      FirstValueCons(a, [b] + ([c] + rest), WalletAddressKey);
      FirstValueCons(b, [c] + rest, WalletAddressKey);
      FirstValueCons(c, rest, WalletAddressKey);
      FirstValueAppend(wa, g + custom, WalletAddressKey);
      FirstValueAppend(g, custom, WalletAddressKey);
      CustomPairsUnreserved(p, order, rule, WalletAddressKey);
    }
    assert FirstValue(pairs, GroupKey) == Emitted(p.group, rule) by {
      FirstValueCons(a, [b] + ([c] + rest), GroupKey);
      FirstValueCons(b, [c] + rest, GroupKey);
      FirstValueCons(c, rest, GroupKey);
      FirstValueAppend(wa, g + custom, GroupKey);
      FirstValueAppend(g, custom, GroupKey);
      CustomPairsUnreserved(p, order, rule, GroupKey);
    }
  }

  /** The five reserved names are five different strings. */
  lemma ReservedKeysDistinct()
    ensures forall i, j :: 0 <= i < j < |AllParamsKeys| ==> AllParamsKeys[i] != AllParamsKeys[j]
  {
    assert DataTransferIdKey[0] == 'i' && EncryptionPublicKeyKey[0] == 'e' && FactorsKey[0] == 'f';
    assert WalletAddressKey[0] == 'w' && GroupKey[0] == 'g';
  }

  /** The custom entries of a composed list carry no reserved name. */
  lemma CustomPairsUnreserved(p: UnforgettablePathParams, order: seq<string>, rule: OptionalRule, k: string)
    requires forall i :: 0 <= i < |order| ==> order[i] in EmittedCustom(p.customParams)
    requires IsReserved(k)
    ensures FirstValue(CustomPairs(order, EmittedCustom(p.customParams)), k).None?
  {
    ComposedPairsSplit(p, order, rule);
    FirstValueSpec(CustomPairs(order, EmittedCustom(p.customParams)), k);
  }

  /** No name is written twice, and the custom entries read back are exactly the record's
      non-reserved ones. */
  lemma ComposedPairsCustom(p: UnforgettablePathParams, order: seq<string>, rule: OptionalRule)
    requires IsListing(order, EmittedCustom(p.customParams).Keys)
    ensures DistinctNames(ComposedPairs(p, order, rule))
    ensures RestrictCustom(ToMap(ComposedPairs(p, order, rule))) == EmittedCustom(p.customParams)
  {
    var m := EmittedCustom(p.customParams);
    var head := [(DataTransferIdKey, p.dataTransferId), (EncryptionPublicKeyKey, p.encryptionPublicKey),
                 (FactorsKey, FactorsValue(p.factors))]
                + OptionalPair(WalletAddressKey, p.walletAddress, rule)
                + OptionalPair(GroupKey, p.group, rule);
    var custom := CustomPairs(order, m);
    var pairs := head + custom;
    ComposedPairsSplit(p, order, rule);
    forall i, j | 0 <= i < j < |pairs|
      ensures pairs[i].0 != pairs[j].0
    {
      if j < |head| {
        assert pairs[i] == head[i] && pairs[j] == head[j];
      } else if i >= |head| {
        assert pairs[i] == custom[i - |head|] && pairs[j] == custom[j - |head|];
      } else {
        assert pairs[i] == head[i] && pairs[j] == custom[j - |head|];
      }
    }
    ToMapAppend(head, custom);
    ToMapOfCustomPairs(order, m);
    RestrictReserved(head, m);
    assert RestrictCustom(m) == m;
  }

  // ---- what a round trip keeps ----

  /** The record `parse` gives back for a composed hash: the optional fields as their rule writes
      them, and only the non-reserved custom entries, absent when there are none. */
  function Normalized(p: UnforgettablePathParams, rule: OptionalRule): UnforgettablePathParams {
    p.(walletAddress := Emitted(p.walletAddress, rule), group := Emitted(p.group, rule),
       customParams := NoneIfEmpty(EmittedCustom(p.customParams)))
  }

  /** A record that a round trip leaves unchanged: optional fields that the rule writes, and custom
      entries that are present only when there is at least one, none with a reserved key. */
  predicate IsNormal(p: UnforgettablePathParams, rule: OptionalRule) {
    Emitted(p.walletAddress, rule) == p.walletAddress &&
    Emitted(p.group, rule) == p.group &&
    (p.customParams.Some? ==>
      |p.customParams.value| > 0 && forall k :: k in p.customParams.value ==> !IsReserved(k))
  }

  lemma NormalizedOfNormal(p: UnforgettablePathParams, rule: OptionalRule)
    ensures Normalized(p, rule) == p <==> IsNormal(p, rule)
  {
    if p.customParams.Some? {
      var c := p.customParams.value;
      if forall k :: k in c ==> !IsReserved(k) {
        assert EmittedCustom(p.customParams) == c;
      } else {
        var k :| k in c && IsReserved(k);
        assert k !in EmittedCustom(p.customParams);
      }
    }
  }
}
