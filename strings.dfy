/** String and number helpers shared by the ports: the byte type, `split`/`join` on one
    separator character, splitting at the first occurrence of a character, and decimal
    integer literals. */
module Strings {
  import opened Wrappers

  type Byte = b: int | 0 <= b < 0x100

  /** `s.split(sep)` as JavaScript and Kotlin do it: every segment, empty ones included,
      so the empty string splits into one empty segment. */
  function Split(s: string, sep: char): (parts: seq<string>)
    ensures |parts| >= 1
    ensures forall i :: 0 <= i < |parts| ==> sep !in parts[i]
    ensures Join(parts, sep) == s
    decreases |s|
  {
    if s == [] then [""]
    else
      var rest := Split(s[1..], sep);
      if s[0] == sep then
        [""] + rest
      else
        assert |rest| >= 2 ==> Join(rest, sep) == rest[0] + [sep] + Join(rest[1..], sep);
        [[s[0]] + rest[0]] + rest[1..]
  }

  /** `parts.join(sep)`. */
  function Join(parts: seq<string>, sep: char): string
  {
    if parts == [] then ""
    else if |parts| == 1 then parts[0]
    else parts[0] + [sep] + Join(parts[1..], sep)
  }

  /** Joining is blind to where a part came from: a last part that holds the separator joins
      like the two parts on either side of it. */
  lemma {:induction false} JoinSplitsLast(parts: seq<string>, a: string, b: string, sep: char)
    ensures Join(parts + [a + [sep] + b], sep) == Join(parts + [a, b], sep)
    decreases |parts|
  {
    var l := parts + [a + [sep] + b];
    var r := parts + [a, b];
    if parts == [] {
      assert l == [a + [sep] + b] && r == [a, b];
      assert r[1..] == [b];
    } else {
      assert l[0] == parts[0] && l[1..] == parts[1..] + [a + [sep] + b];
      assert r[0] == parts[0] && r[1..] == parts[1..] + [a, b];
      JoinSplitsLast(parts[1..], a, b, sep);
    }
  }

  /** A character of a joined string is the separator or a character of one of the parts. */
  lemma {:induction false} JoinChars(parts: seq<string>, sep: char, c: char)
    requires c in Join(parts, sep)
    ensures c == sep || exists i :: 0 <= i < |parts| && c in parts[i]
    decreases |parts|
  {
    if |parts| > 1 {
      if c !in parts[0] && c != sep {
        JoinChars(parts[1..], sep, c);
        var i :| 0 <= i < |parts[1..]| && c in parts[1..][i];
        assert c in parts[i + 1];
      }
    }
  }

  lemma {:induction false} SplitWithoutSeparator(x: string, sep: char)
    requires sep !in x
    ensures Split(x, sep) == [x]
    decreases |x|
  {
    if x != [] {
      SplitWithoutSeparator(x[1..], sep);
    }
  }

  lemma {:induction false} SplitAfterSegment(x: string, y: string, sep: char)
    requires sep !in x
    ensures Split(x + [sep] + y, sep) == [x] + Split(y, sep)
    decreases |x|
  {
    var s := x + [sep] + y;
    if x == [] {
      assert s[0] == sep && s[1..] == y;
    } else {
      assert s[0] == x[0] && s[1..] == x[1..] + [sep] + y;
      var r := Split(s[1..], sep);
      SplitAfterSegment(x[1..], y, sep);
      assert Split(s, sep) == [[s[0]] + r[0]] + r[1..];
      assert r[0] == x[1..] && r[1..] == Split(y, sep);
      assert [x[0]] + x[1..] == x;
    }
  }

  /** Splitting a join gives back the parts, provided no part contains the separator. */
  lemma {:induction false} SplitJoin(parts: seq<string>, sep: char)
    requires |parts| >= 1
    requires forall i :: 0 <= i < |parts| ==> sep !in parts[i]
    ensures Split(Join(parts, sep), sep) == parts
    decreases |parts|
  {
    if |parts| == 1 {
      SplitWithoutSeparator(parts[0], sep);
    } else {
      SplitJoin(parts[1..], sep);
      SplitAfterSegment(parts[0], Join(parts[1..], sep), sep);
    }
  }

  /** The text without one leading `c`: the input is `c` followed by the result when it starts
      with `c`, and the result itself otherwise. */
  function DropLeading(s: string, c: char): (r: string)
    ensures |s| > 0 && s[0] == c ==> [c] + r == s
    ensures !(|s| > 0 && s[0] == c) ==> r == s
  {
    if |s| > 0 && s[0] == c then s[1..] else s
  }

  /** Splits `s` at the first `c`: the text before it and, when `c` occurs, the text after it
      (Kotlin's `split(c, limit = 2)`, and the name/value split of a query pair). */
  function SplitAtFirst(s: string, c: char): (r: (string, Option<string>))
    ensures r.1.None? <==> c !in s
    ensures r.1.None? ==> r.0 == s
    ensures r.1.Some? ==> s == r.0 + [c] + r.1.value && c !in r.0
  {
    if s == [] then ("", None)
    else if s[0] == c then ("", Some(s[1..]))
    else
      var rest := SplitAtFirst(s[1..], c);
      ([s[0]] + rest.0, rest.1)
  }

  lemma {:induction false} SplitAtFirstOfPair(a: string, b: string, c: char)
    requires c !in a
    ensures SplitAtFirst(a + [c] + b, c) == (a, Some(b))
    decreases |a|
  {
    if a == [] {
      assert a + [c] + b == [c] + b;
    } else {
      var s := a + [c] + b;
      SplitAtFirstOfPair(a[1..], b, c);
      assert s[0] == a[0] && s[1..] == a[1..] + [c] + b;
      assert [a[0]] + a[1..] == a;
    }
  }

  // ---- character replacement ----

  /** `s.replace(a, b)` for single characters: every `a` becomes `b`. */
  function ReplaceChar(s: string, a: char, b: char): (r: string)
    ensures |r| == |s|
    ensures forall i :: 0 <= i < |s| ==> r[i] == (if s[i] == a then b else s[i])
  {
    if s == [] then "" else [if s[0] == a then b else s[0]] + ReplaceChar(s[1..], a, b)
  }

  /** `s.replace(c, "")`: the characters of `s` other than `c`, in order. */
  function RemoveChar(s: string, c: char): (r: string)
    ensures c !in r
    ensures |r| <= |s|
    ensures forall x :: x in r ==> x in s
  {
    if s == [] then "" else (if s[0] == c then "" else [s[0]]) + RemoveChar(s[1..], c)
  }

  lemma {:induction false} RemoveCharAppend(a: string, b: string, c: char)
    ensures RemoveChar(a + b, c) == RemoveChar(a, c) + RemoveChar(b, c)
    decreases |a|
  {
    if a == [] {
      assert a + b == b;
    } else {
      var head := (if a[0] == c then "" else [a[0]]);
      assert RemoveChar(a + b, c) == head + RemoveChar(a[1..] + b, c) by {
        assert a + b != [] && (a + b)[0] == a[0] && (a + b)[1..] == a[1..] + b;
      }
      RemoveCharAppend(a[1..], b, c);
      assert head + (RemoveChar(a[1..], c) + RemoveChar(b, c)) == (head + RemoveChar(a[1..], c)) + RemoveChar(b, c);
    }
  }

  lemma {:induction false} RemoveCharAbsent(s: string, c: char)
    requires c !in s
    ensures RemoveChar(s, c) == s
    decreases |s|
  {
    if s != [] {
      RemoveCharAbsent(s[1..], c);
      assert [s[0]] + s[1..] == s;
    }
  }

  /** `c.repeat(n)`. */
  function Repeat(c: char, n: nat): (r: string)
    ensures |r| == n && forall i :: 0 <= i < n ==> r[i] == c
  {
    if n == 0 then "" else [c] + Repeat(c, n - 1)
  }

  // ---- decimal integers ----

  predicate IsDigit(c: char) {
    '0' <= c <= '9'
  }

  predicate AllDigits(s: string) {
    |s| > 0 && forall i :: 0 <= i < |s| ==> IsDigit(s[i])
  }

  function DigitValue(c: char): (d: nat)
    requires IsDigit(c)
    ensures d < 10
  {
    c as int - '0' as int
  }

  function DigitsValue(ds: string): nat
    requires forall i :: 0 <= i < |ds| ==> IsDigit(ds[i])
  {
    if ds == [] then 0
    else DigitsValue(ds[..|ds| - 1]) * 10 + DigitValue(ds[|ds| - 1])
  }

  function DigitChar(d: int): (c: char)
    requires 0 <= d < 10
    ensures IsDigit(c) && DigitValue(c) == d
  {
    ('0' as int + d) as char
  }

  /** The decimal literal of `n`, as `n.toString()` / `String(n)` write it. */
  function NatToDecimal(n: nat): (s: string)
    ensures AllDigits(s)
    ensures DigitsValue(s) == n
  {
    if n < 10 then [DigitChar(n)]
    else
      var init := NatToDecimal(n / 10);
      var s := init + [DigitChar(n % 10)];
      assert s[..|s| - 1] == init;
      s
  }

  /** A decimal integer literal: an optional `+` or `-` sign followed by one or more digits.
      This is the common core of JavaScript's `Number`, Swift's `Int(_:)` and Kotlin's
      `toIntOrNull`. */
  function ParseInt(s: string): (r: Option<int>)
    ensures r.Some? <==> AllDigits(s) || (|s| > 1 && s[0] in "+-" && AllDigits(s[1..]))
  {
    if |s| > 1 && (s[0] == '+' || s[0] == '-') && AllDigits(s[1..]) then
      var magnitude: int := DigitsValue(s[1..]);
      Some(if s[0] == '-' then -magnitude else magnitude)
    else if AllDigits(s) then
      Some(DigitsValue(s))
    else
      None
  }

  lemma ParseIntOfDecimal(n: nat)
    ensures ParseInt(NatToDecimal(n)) == Some(n)
  {
    var s := NatToDecimal(n);
    assert IsDigit(s[0]);
  }

  /** The integer range a language's integer parser accepts. */
  datatype IntWidth = Unbounded | Bounded(min: int, max: int)

  const Int32: IntWidth := Bounded(-0x8000_0000, 0x7FFF_FFFF)
  const Int64: IntWidth := Bounded(-0x8000_0000_0000_0000, 0x7FFF_FFFF_FFFF_FFFF)

  /** `ParseInt` followed by the overflow check of a fixed-width parser, which gives no value
      (`null` / `nil`) for a literal out of range. */
  function ParseIntOfWidth(s: string, w: IntWidth): (r: Option<int>)
    ensures r.Some? <==> ParseInt(s).Some? && (w.Bounded? ==> w.min <= ParseInt(s).value <= w.max)
    ensures r.Some? ==> r == ParseInt(s)
  {
    match ParseInt(s)
    case None => None
    case Some(v) => if w.Unbounded? || w.min <= v <= w.max then Some(v) else None
  }
}
