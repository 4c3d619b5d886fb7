/** Base 64 (section 4 of RFC 4648) and the URL-safe helpers both crypto ports build on it:
    `base64URLEncode` swaps `+` for `-` and `/` for `_` and drops the `=` padding, and
    `base64URLDecode` swaps them back and pads to a multiple of four before decoding, which
    together give the unpadded "base64url" form of section 5 of RFC 4648. */
module Base64 {
  import opened Wrappers
  import opened Strings

  /** The character of a six-bit group in the standard alphabet. */
  function SextetChar(v: int): (c: char)
    requires 0 <= v < 64
    ensures SextetValue(c) == Some(v)
  {
    if v < 26 then ('A' as int + v) as char
    else if v < 52 then ('a' as int + v - 26) as char
    else if v < 62 then ('0' as int + v - 52) as char
    else if v == 62 then '+'
    else '/'
  }

  /** The six-bit group a character of the standard alphabet stands for; None for any other
      character. */
  function SextetValue(c: char): (r: Option<int>)
    ensures r.Some? <==> ('A' <= c <= 'Z' || 'a' <= c <= 'z' || '0' <= c <= '9' || c == '+' || c == '/')
    ensures r.Some? ==> 0 <= r.value < 64
  {
    if 'A' <= c <= 'Z' then Some(c as int - 'A' as int)
    else if 'a' <= c <= 'z' then Some(c as int - 'a' as int + 26)
    else if '0' <= c <= '9' then Some(c as int - '0' as int + 52)
    else if c == '+' then Some(62)
    else if c == '/' then Some(63)
    else None
  }

  predicate InAlphabet(c: char) {
    SextetValue(c).Some?
  }

  // ---- encoding ----

  function EncodeTriple(b0: Byte, b1: Byte, b2: Byte): string {
    [SextetChar(b0 / 4), SextetChar((b0 % 4) * 16 + b1 / 16), SextetChar((b1 % 16) * 4 + b2 / 64),
     SextetChar(b2 % 64)]
  }

  /** The number of `=` that complete the last group of an encoding of `n` bytes. */
  function PadCount(n: nat): (k: nat)
    ensures k <= 2
  {
    if n % 3 == 0 then 0 else 3 - n % 3
  }

  /** The characters of the encoding before its padding: four per three bytes, and two or three
      for a last group of one or two bytes. */
  function EncodeBody(bs: seq<Byte>): (s: string)
    ensures |s| == |bs| / 3 * 4 + (if |bs| % 3 == 0 then 0 else |bs| % 3 + 1)
    ensures forall i :: 0 <= i < |s| ==> InAlphabet(s[i])
  {
    if |bs| == 0 then ""
    else if |bs| == 1 then [SextetChar(bs[0] / 4), SextetChar((bs[0] % 4) * 16)]
    else if |bs| == 2 then
      [SextetChar(bs[0] / 4), SextetChar((bs[0] % 4) * 16 + bs[1] / 16), SextetChar((bs[1] % 16) * 4)]
    else EncodeTriple(bs[0], bs[1], bs[2]) + EncodeBody(bs[3..])
  }

  /** `Base64.getEncoder().encodeToString` / `base64EncodedString()`: the padded encoding. */
  function Encode(bs: seq<Byte>): (s: string)
    ensures |s| % 4 == 0 && |s| == (|bs| + 2) / 3 * 4
  {
    EncodeBody(bs) + Repeat('=', PadCount(|bs|))
  }

  // ---- decoding ----

  function DecodeQuad(s0: int, s1: int, s2: int, s3: int): (bs: seq<Byte>)
    requires 0 <= s0 < 64 && 0 <= s1 < 64 && 0 <= s2 < 64 && 0 <= s3 < 64
    ensures |bs| == 3
  {
    [s0 * 4 + s1 / 16, (s1 % 16) * 16 + s2 / 4, (s2 % 4) * 64 + s3]
  }

  /** The last group of four characters: four characters of the alphabet, or two or three followed
      by `==` or `=`. The bits left over in the last character are ignored. */
  function DecodeFinal(q: string): (r: Option<seq<Byte>>)
    requires |q| == 4
    ensures r.Some? ==> 1 <= |r.value| <= 3
  {
    if !InAlphabet(q[0]) || !InAlphabet(q[1]) then None
    else
      var s0 := SextetValue(q[0]).value;
      var s1 := SextetValue(q[1]).value;
      if q[2] == '=' && q[3] == '=' then
        Some([s0 * 4 + s1 / 16])
      else if InAlphabet(q[2]) && q[3] == '=' then
        var s2 := SextetValue(q[2]).value;
        Some([s0 * 4 + s1 / 16, (s1 % 16) * 16 + s2 / 4])
      else if InAlphabet(q[2]) && InAlphabet(q[3]) then
        Some(DecodeQuad(s0, s1, SextetValue(q[2]).value, SextetValue(q[3]).value))
      else
        None
  }

  /** `Base64.getDecoder().decode` / `Data(base64Encoded:)` on a string whose length is already a
      multiple of four: None for a character outside the alphabet, padding before the last group,
      or a length that is not a multiple of four. */
  function Decode(s: string): (r: Option<seq<Byte>>)
    ensures r.Some? ==> |s| % 4 == 0
    decreases |s|
  {
    if s == [] then Some([])
    else if |s| < 4 then None
    else if |s| == 4 then DecodeFinal(s)
    else if InAlphabet(s[0]) && InAlphabet(s[1]) && InAlphabet(s[2]) && InAlphabet(s[3]) then
      var head := DecodeQuad(SextetValue(s[0]).value, SextetValue(s[1]).value,
                             SextetValue(s[2]).value, SextetValue(s[3]).value);
      var tail :- Decode(s[4..]);
      Some(head + tail)
    else
      None
  }

  lemma TripleRoundTrip(b0: Byte, b1: Byte, b2: Byte)
    ensures DecodeQuad(b0 / 4, (b0 % 4) * 16 + b1 / 16, (b1 % 16) * 4 + b2 / 64, b2 % 64) == [b0, b1, b2]
  {
  }

  lemma PairRoundTrip(b0: Byte, b1: Byte)
    ensures b0 / 4 * 4 + ((b0 % 4) * 16 + b1 / 16) / 16 == b0
    ensures (((b0 % 4) * 16 + b1 / 16) % 16) * 16 + ((b1 % 16) * 4) / 4 == b1
  {
  }

  lemma DecodeEncodeOne(bs: seq<Byte>)
    requires |bs| == 1
    ensures Decode(Encode(bs)) == Some(bs)
  {
    var s := Encode(bs);
    assert s[2] == '=' && s[3] == '=';
    assert SextetValue(s[0]) == Some(bs[0] / 4) && SextetValue(s[1]) == Some((bs[0] % 4) * 16);
    assert DecodeFinal(s) == Some([bs[0]]);
    assert |s| == 4 && bs == [bs[0]];
  }

  lemma DecodeEncodeTwo(bs: seq<Byte>)
    requires |bs| == 2
    ensures Decode(Encode(bs)) == Some(bs)
  {
    var s := Encode(bs);
    PairRoundTrip(bs[0], bs[1]);
    var s1 := (bs[0] % 4) * 16 + bs[1] / 16;
    assert s[3] == '=' && SextetValue(s[0]) == Some(bs[0] / 4) && SextetValue(s[1]) == Some(s1)
      && SextetValue(s[2]) == Some((bs[1] % 16) * 4);
    assert DecodeFinal(s) == Some([bs[0], bs[1]]);
    assert |s| == 4 && bs == [bs[0], bs[1]];
  }

  /** Whether the first four characters of `s` are in the alphabet, and if so what they decode to. */
  predicate GroupDecodesTo(s: string, head: seq<Byte>) {
    |s| >= 4 && InAlphabet(s[0]) && InAlphabet(s[1]) && InAlphabet(s[2]) && InAlphabet(s[3]) &&
    head == DecodeQuad(SextetValue(s[0]).value, SextetValue(s[1]).value,
                       SextetValue(s[2]).value, SextetValue(s[3]).value)
  }

  /** The first group of an encoding of at least three bytes decodes to the first three bytes. */
  lemma DecodeFirstGroup(bs: seq<Byte>)
    requires |bs| >= 3
    ensures Encode(bs) == EncodeTriple(bs[0], bs[1], bs[2]) + Encode(bs[3..])
    ensures GroupDecodesTo(Encode(bs), bs[..3])
  {
    assert PadCount(|bs|) == PadCount(|bs| - 3);
    TripleRoundTrip(bs[0], bs[1], bs[2]);
    var s := Encode(bs);
    assert s[..4] == EncodeTriple(bs[0], bs[1], bs[2]);
    assert bs[..3] == [bs[0], bs[1], bs[2]];
  }

  /** One step of `Decode` past a first group of four alphabet characters. */
  lemma DecodeStep(s: string, head: seq<Byte>, tail: seq<Byte>)
    requires |s| > 4 && GroupDecodesTo(s, head)
    requires Decode(s[4..]) == Some(tail)
    ensures Decode(s) == Some(head + tail)
  {
  }

  lemma DecodeEncodeThree(bs: seq<Byte>)
    requires |bs| == 3
    ensures Decode(Encode(bs)) == Some(bs)
  {
    var s := Encode(bs);
    DecodeFirstGroup(bs);
    assert |s| == 4 && bs[..3] == bs;
  }

  /** Decoding inverts encoding. */
  lemma {:induction false} DecodeEncode(bs: seq<Byte>)
    ensures Decode(Encode(bs)) == Some(bs)
    decreases |bs|
  {
    if |bs| == 1 {
      DecodeEncodeOne(bs);
    } else if |bs| == 2 {
      DecodeEncodeTwo(bs);
    } else if |bs| == 3 {
      DecodeEncodeThree(bs);
    } else if |bs| > 3 {
      var s := Encode(bs);
      DecodeFirstGroup(bs);
      DecodeEncode(bs[3..]);
      assert s[4..] == Encode(bs[3..]);
      DecodeStep(s, bs[..3], bs[3..]);
      assert bs[..3] + bs[3..] == bs;
    }
  }

  // ---- the URL-safe helpers ----

  /** `base64URLEncode`: the standard encoding with `+` → `-`, `/` → `_`, and `=` removed. */
  function UrlEncode(bs: seq<Byte>): (s: string)
    ensures '+' !in s && '/' !in s && '=' !in s
  {
    RemoveChar(ReplaceChar(ReplaceChar(Encode(bs), '+', '-'), '/', '_'), '=')
  }

  /** `string.length % 4 > 0` is completed with `4 - length % 4` `=` characters. */
  function PadToQuad(s: string): (r: string)
    ensures |r| % 4 == 0 && |s| <= |r| < |s| + 4
    ensures r[..|s|] == s && forall i :: |s| <= i < |r| ==> r[i] == '='
  {
    var remainder := |s| % 4;
    if remainder > 0 then s + Repeat('=', 4 - remainder) else s
  }

  /** `base64URLDecode`, as a function of its input. */
  function UrlDecode(s: string): Option<seq<Byte>> {
    Decode(PadToQuad(ReplaceChar(ReplaceChar(s, '-', '+'), '_', '/')))
  }

  /** `base64URLDecode`: the local `base64` is swapped back, then padded in place. */
  method Base64UrlDecode(s: string) returns (r: Option<seq<Byte>>)
    ensures r == UrlDecode(s)
  {
    var base64 := ReplaceChar(ReplaceChar(s, '-', '+'), '_', '/');
    var remainder := |base64| % 4;
    if remainder > 0 {
      base64 := base64 + Repeat('=', 4 - remainder);
    }
    r := Decode(base64);
  }

  lemma {:induction false} ReplaceCharAppend(a: string, b: string, x: char, y: char)
    ensures ReplaceChar(a + b, x, y) == ReplaceChar(a, x, y) + ReplaceChar(b, x, y)
  {
  }

  /** The URL-safe form of an encoding is its body with the alphabet swapped. */
  lemma UrlEncodeIsSwappedBody(bs: seq<Byte>)
    ensures UrlEncode(bs) == ReplaceChar(ReplaceChar(EncodeBody(bs), '+', '-'), '/', '_')
  {
    var body := EncodeBody(bs);
    var pad := Repeat('=', PadCount(|bs|));
    var swapped := ReplaceChar(ReplaceChar(body, '+', '-'), '/', '_');
    ReplaceCharAppend(body, pad, '+', '-');
    ReplaceCharAppend(ReplaceChar(body, '+', '-'), pad, '/', '_');
    assert ReplaceChar(ReplaceChar(pad, '+', '-'), '/', '_') == pad;
    assert ReplaceChar(ReplaceChar(Encode(bs), '+', '-'), '/', '_') == swapped + pad;
    RemoveCharAppend(swapped, pad, '=');
    RemoveCharAbsent(swapped, '=');
    RemoveCharOfRun(PadCount(|bs|));
    assert swapped + "" == swapped;
  }

  /** Padding the body to a multiple of four restores exactly the stripped `=`. */
  lemma PadBody(bs: seq<Byte>)
    ensures PadToQuad(EncodeBody(bs)) == Encode(bs)
  {
    var n := |bs|;
    var body := EncodeBody(bs);
    assert |body| % 4 == (if n % 3 == 0 then 0 else n % 3 + 1);
  }

  /** `base64URLDecode(base64URLEncode(b)) == b` for every byte string `b`. */
  lemma UrlRoundTrip(bs: seq<Byte>)
    ensures UrlDecode(UrlEncode(bs)) == Some(bs)
  {
    var body := EncodeBody(bs);
    UrlEncodeIsSwappedBody(bs);
    var back := ReplaceChar(ReplaceChar(UrlEncode(bs), '-', '+'), '_', '/');
    assert back == body;
    PadBody(bs);
    DecodeEncode(bs);
  }

  lemma {:induction false} RemoveCharOfRun(k: nat)
    ensures RemoveChar(Repeat('=', k), '=') == ""
  {
    if k > 0 {
      RemoveCharOfRun(k - 1);
    }
  }
}
