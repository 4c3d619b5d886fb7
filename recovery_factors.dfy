/** The registry of recovery factors, as the three ports declare it: an enum of six factors with
    the integer codes 1 to 6, the list of all of them, and the lookup from a code to a factor. */
module RecoveryFactors {
  import opened Wrappers

  datatype RecoveryFactor = Face | Image | Password | Object | Book | Geolocation

  /** The integer code of a factor (the TypeScript enum value, Swift's `rawValue`, Kotlin's
      `value`). */
  function Code(f: RecoveryFactor): (n: int)
    ensures 1 <= n <= 6
  {
    match f
    case Face => 1
    case Image => 2
    case Password => 3
    case Object => 4
    case Book => 5
    case Geolocation => 6
  }

  /** The factors in declaration order: Kotlin's `values()` and Swift's `allCases`. */
  const AllRecoveryFactors: seq<RecoveryFactor> := [Face, Image, Password, Object, Book, Geolocation]

  /** Distinct factors have distinct codes, the declaration order lists every factor once, and
      the codes in that order are 1 to 6. */
  lemma CodesDistinct()
    ensures forall f, g :: Code(f) == Code(g) ==> f == g
    ensures |AllRecoveryFactors| == 6
    ensures forall i :: 0 <= i < 6 ==> Code(AllRecoveryFactors[i]) == i + 1
    ensures forall f :: f in AllRecoveryFactors
    ensures forall i, j :: 0 <= i < j < 6 ==> AllRecoveryFactors[i] != AllRecoveryFactors[j]
  {
    forall f
      ensures f in AllRecoveryFactors
    {
      assert AllRecoveryFactors[Code(f) - 1] == f;
    }
  }

  // ---- Kotlin: `fromValue` ----

  /** `firstOrNull { it.value == value }` over a list of factors. */
  function FirstWithCode(fs: seq<RecoveryFactor>, value: int): (r: Option<RecoveryFactor>)
    ensures r.None? ==> forall i :: 0 <= i < |fs| ==> Code(fs[i]) != value
    ensures r.Some? ==> r.value in fs && Code(r.value) == value
  {
    if fs == [] then None
    else if Code(fs[0]) == value then Some(fs[0])
    else
      var r := FirstWithCode(fs[1..], value);
      assert forall i :: 1 <= i < |fs| ==> fs[i] == fs[1..][i - 1];
      r
  }

  /** `RecoveryFactor.fromValue(value)`. */
  function FromValue(value: int): (r: Option<RecoveryFactor>)
  {
    FirstWithCode(AllRecoveryFactors, value)
  }

  /** `fromValue` finds a factor exactly for the codes 1 to 6, it is the factor with that code,
      and it inverts `value`. */
  lemma FromValueCorrect(value: int)
    ensures FromValue(value).Some? <==> 1 <= value <= 6
    ensures FromValue(value).Some? ==> Code(FromValue(value).value) == value
    ensures forall f :: FromValue(Code(f)) == Some(f)
  {
    CodesDistinct();
    if 1 <= value <= 6 {
      assert Code(AllRecoveryFactors[value - 1]) == value;
    }
    forall f
      ensures FromValue(Code(f)) == Some(f)
    {
      assert Code(AllRecoveryFactors[Code(f) - 1]) == Code(f);
    }
  }

  // ---- Swift: `init?(rawValue:)` ----

  /** The failable initializer Swift synthesizes for an `Int` raw-value enum. */
  function FromRawValue(rawValue: int): (r: Option<RecoveryFactor>)
  {
    match rawValue
    case 1 => Some(Face)
    case 2 => Some(Image)
    case 3 => Some(Password)
    case 4 => Some(Object)
    case 5 => Some(Book)
    case 6 => Some(Geolocation)
    case _ => None
  }

  /** `RecoveryFactor(rawValue:)` is non-nil exactly for 1 to 6, inverts `rawValue`, and agrees
      with Kotlin's lookup. */
  lemma FromRawValueCorrect(rawValue: int)
    ensures FromRawValue(rawValue).Some? <==> 1 <= rawValue <= 6
    ensures FromRawValue(rawValue).Some? ==> Code(FromRawValue(rawValue).value) == rawValue
    ensures forall f :: FromRawValue(Code(f)) == Some(f)
    ensures FromRawValue(rawValue) == FromValue(rawValue)
  {
    assert FromRawValue(rawValue).Some? <==> 1 <= rawValue <= 6;
    assert forall f :: FromRawValue(Code(f)) == Some(f) by {
      forall f
        ensures FromRawValue(Code(f)) == Some(f)
      {
        RawValueOfCode(f);
      }
    }
    assert FromRawValue(rawValue) == FromValue(rawValue) by {
      FromValueCorrect(rawValue);
      if 1 <= rawValue <= 6 {
        CodesDistinct();
      }
    }
  }

  /** The initializer maps each factor's code back to that factor. */
  lemma RawValueOfCode(f: RecoveryFactor)
    ensures FromRawValue(Code(f)) == Some(f)
  {
    match f
    case Face =>
    case Image =>
    case Password =>
    case Object =>
    case Book =>
    case Geolocation =>
  }

  // ---- TypeScript: `ALL_RECOVERY_FACTORS` ----

  /** A property value of a TypeScript enum object: the reverse mapping from a code to a member
      name, or the forward mapping from a name to its code. */
  datatype EnumValue = Name(name: string) | Number(number: int)

  function TsName(f: RecoveryFactor): string {
    match f
    case Face => "Face"
    case Image => "Image"
    case Password => "Password"
    case Object => "Object"
    case Book => "Book"
    case Geolocation => "Geolocation"
  }

  function Names(fs: seq<RecoveryFactor>): (r: seq<EnumValue>)
    ensures |r| == |fs| && forall i :: 0 <= i < |fs| ==> r[i] == Name(TsName(fs[i]))
  {
    if fs == [] then [] else [Name(TsName(fs[0]))] + Names(fs[1..])
  }

  function Numbers(fs: seq<RecoveryFactor>): (r: seq<EnumValue>)
    ensures |r| == |fs| && forall i :: 0 <= i < |fs| ==> r[i] == Number(Code(fs[i]))
  {
    if fs == [] then [] else [Number(Code(fs[0]))] + Numbers(fs[1..])
  }

  /** `Object.values(RecoveryFactor)`: the object's integer-like keys "1".."6" come first, in
      ascending order, and map to the member names; the member names follow in declaration order
      and map to the codes. */
  function EnumObjectValues(): (r: seq<EnumValue>)
    ensures |r| == 12
  {
    Names(AllRecoveryFactors) + Numbers(AllRecoveryFactors)
  }

  /** `.filter(factor => typeof factor === 'number')`, keeping the numbers. */
  function NumbersOnly(vs: seq<EnumValue>): (r: seq<int>)
    ensures |r| <= |vs|
  {
    if vs == [] then []
    else (if vs[0].Number? then [vs[0].number] else []) + NumbersOnly(vs[1..])
  }

  lemma {:induction false} NumbersOnlyAppend(a: seq<EnumValue>, b: seq<EnumValue>)
    ensures NumbersOnly(a + b) == NumbersOnly(a) + NumbersOnly(b)
    decreases |a|
  {
    if a == [] {
      assert a + b == b;
    } else {
      var head := (if a[0].Number? then [a[0].number] else []);
      assert NumbersOnly(a + b) == head + NumbersOnly(a[1..] + b) by {
        assert a + b != [] && (a + b)[0] == a[0] && (a + b)[1..] == a[1..] + b;
      }
      NumbersOnlyAppend(a[1..], b);
      assert head + (NumbersOnly(a[1..]) + NumbersOnly(b)) == (head + NumbersOnly(a[1..])) + NumbersOnly(b);
    }
  }

  lemma {:induction false} NumbersOnlyOfNames(fs: seq<RecoveryFactor>)
    ensures NumbersOnly(Names(fs)) == []
    decreases |fs|
  {
    if fs != [] {
      NumbersOnlyOfNames(fs[1..]);
      assert Names(fs)[1..] == Names(fs[1..]);
    }
  }

  lemma {:induction false} NumbersOnlyOfNumbers(fs: seq<RecoveryFactor>)
    ensures NumbersOnly(Numbers(fs)) == seq(|fs|, i requires 0 <= i < |fs| => Code(fs[i]))
    decreases |fs|
  {
    if fs != [] {
      NumbersOnlyOfNumbers(fs[1..]);
      assert Numbers(fs)[1..] == Numbers(fs[1..]);
    }
  }

  /** The TypeScript `ALL_RECOVERY_FACTORS`. */
  function TsAllRecoveryFactors(): seq<int> {
    NumbersOnly(EnumObjectValues())
  }

  /** Filtering out the reverse mapping leaves exactly the codes, in declaration order. */
  lemma TsAllRecoveryFactorsValue()
    ensures TsAllRecoveryFactors() == [1, 2, 3, 4, 5, 6]
  {
    NumbersOnlyAppend(Names(AllRecoveryFactors), Numbers(AllRecoveryFactors));
    NumbersOnlyOfNames(AllRecoveryFactors);
    NumbersOnlyOfNumbers(AllRecoveryFactors);
  }

  lemma TsIncludesRange(n: int)
    ensures n in TsAllRecoveryFactors() <==> 1 <= n <= 6
  {
    TsAllRecoveryFactorsValue();
    OneToSix(TsAllRecoveryFactors(), n);
  }

  lemma OneToSix(xs: seq<int>, n: int)
    requires xs == [1, 2, 3, 4, 5, 6]
    ensures n in xs <==> 1 <= n <= 6
  {
    if 1 <= n <= 6 {
      assert xs[n - 1] == n;
    }
  }

  /** `ALL_RECOVERY_FACTORS.includes(n)`, the registry test of the TypeScript `parseFactors`,
      holds exactly when Kotlin's `fromValue(n)` finds a factor. */
  lemma TsIncludesIffRegistered(n: int)
    ensures n in TsAllRecoveryFactors() <==> FromValue(n).Some?
  {
    TsIncludesRange(n);
    FromValueCorrect(n);
  }
}
