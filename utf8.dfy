/** UTF-8 (RFC 3629): the encoding of a string into bytes, a strict decoder (Swift's
    `String(data:encoding: .utf8)`, which gives nil on malformed input) and a lossy decoder
    (Kotlin's `String(bytes, UTF_8)` and the URL Standard's "UTF-8 decode without BOM", which put
    U+FFFD in place of a malformed byte). */
module Utf8 {
  import opened Wrappers
  import opened Strings

  const ReplacementCharacter: char := '�'

  predicate IsContinuation(b: Byte) {
    0x80 <= b < 0xC0
  }

  /** The one to four bytes that encode `c`. */
  function EncodeChar(c: char): (bs: seq<Byte>)
    ensures 1 <= |bs| <= 4
    ensures (|bs| == 1) <==> c as int < 0x80
    ensures |bs| == 1 ==> bs[0] == c as int
    ensures forall i :: 1 <= i < |bs| ==> IsContinuation(bs[i])
  {
    var n := c as int;
    if n < 0x80 then [n]
    else if n < 0x800 then [0xC0 + n / 64, 0x80 + n % 64]
    else if n < 0x1_0000 then [0xE0 + n / 64 / 64, 0x80 + n / 64 % 64, 0x80 + n % 64]
    else [0xF0 + n / 64 / 64 / 64, 0x80 + n / 64 / 64 % 64, 0x80 + n / 64 % 64, 0x80 + n % 64]
  }

  function Encode(s: string): (bs: seq<Byte>)
    ensures |bs| >= |s|
  {
    if s == [] then [] else EncodeChar(s[0]) + Encode(s[1..])
  }

  lemma {:induction false} EncodeAppend(a: string, b: string)
    ensures Encode(a + b) == Encode(a) + Encode(b)
    decreases |a|
  {
    if a == [] {
      assert a + b == b;
    } else {
      var head := EncodeChar(a[0]);
      assert Encode(a + b) == head + Encode(a[1..] + b) by {
        assert a + b != [] && (a + b)[0] == a[0] && (a + b)[1..] == a[1..] + b;
      }
      EncodeAppend(a[1..], b);
      assert head + (Encode(a[1..]) + Encode(b)) == (head + Encode(a[1..])) + Encode(b);
    }
  }

  /** The value of a continuation byte's six payload bits. */
  function Payload(b: Byte): (p: int)
    requires IsContinuation(b)
    ensures 0 <= p < 64
  {
    b - 0x80
  }

  /** Decodes the scalar value at the front of `bs` together with the number of bytes it takes;
      None when `bs` does not start with a well-formed sequence (a stray continuation byte, an
      overlong form, a surrogate, a value above U+10FFFF, or a truncated sequence). */
  function DecodeFirst(bs: seq<Byte>): (r: Option<(char, nat)>)
    requires |bs| > 0
    ensures r.Some? ==> 1 <= r.value.1 <= |bs|
  {
    var b0: int := bs[0];
    if b0 < 0x80 then
      Some((b0 as char, 1))
    else if 0xC2 <= b0 < 0xE0 && |bs| >= 2 && IsContinuation(bs[1]) then
      var v := (b0 - 0xC0) * 64 + Payload(bs[1]);
      Some((v as char, 2))
    else if 0xE0 <= b0 < 0xF0 && |bs| >= 3 && IsContinuation(bs[1]) && IsContinuation(bs[2]) then
      var v := ((b0 - 0xE0) * 64 + Payload(bs[1])) * 64 + Payload(bs[2]);
      if 0x800 <= v < 0xD800 || 0xE000 <= v then
        Some((v as char, 3))
      else
        None
    else if 0xF0 <= b0 < 0xF5 && |bs| >= 4 && IsContinuation(bs[1]) && IsContinuation(bs[2])
            && IsContinuation(bs[3]) then
      var v := (((b0 - 0xF0) * 64 + Payload(bs[1])) * 64 + Payload(bs[2])) * 64 + Payload(bs[3]);
      if 0x1_0000 <= v < 0x11_0000 then
        Some((v as char, 4))
      else
        None
    else
      None
  }

  lemma DivMod64(q: int, r: int)
    requires 0 <= r < 64
    ensures (q * 64 + r) / 64 == q && (q * 64 + r) % 64 == r
  {
  }

  /** What `DecodeFirst` accepts is the encoding of the character it returns. */
  lemma DecodeFirstIsEncoding(bs: seq<Byte>)
    requires |bs| > 0 && DecodeFirst(bs).Some?
    ensures bs[..DecodeFirst(bs).value.1] == EncodeChar(DecodeFirst(bs).value.0)
  {
    var (c, k) := DecodeFirst(bs).value;
    var b0: int := bs[0];
    if k == 2 {
      DivMod64(b0 - 0xC0, Payload(bs[1]));
    } else if k == 3 {
      var hi := (b0 - 0xE0) * 64 + Payload(bs[1]);
      DivMod64(hi, Payload(bs[2]));
      DivMod64(b0 - 0xE0, Payload(bs[1]));
    } else if k == 4 {
      var hi := (b0 - 0xF0) * 64 + Payload(bs[1]);
      var mid := hi * 64 + Payload(bs[2]);
      DivMod64(mid, Payload(bs[3]));
      DivMod64(hi, Payload(bs[2]));
      DivMod64(b0 - 0xF0, Payload(bs[1]));
    }
  }

  /** The encoding of a character decodes back to that character, whatever follows it. */
  lemma DecodeFirstOfEncoding(c: char, rest: seq<Byte>)
    ensures DecodeFirst(EncodeChar(c) + rest) == Some((c, |EncodeChar(c)|))
  {
    var n := c as int;
    var bs := EncodeChar(c) + rest;
    if n < 0x80 {
    } else if n < 0x800 {
      DivMod64(n / 64, n % 64);
    } else if n < 0x1_0000 {
      DivMod64(n / 64, n % 64);
      DivMod64(n / 64 / 64, n / 64 % 64);
    } else {
      DivMod64(n / 64, n % 64);
      DivMod64(n / 64 / 64, n / 64 % 64);
      DivMod64(n / 64 / 64 / 64, n / 64 / 64 % 64);
    }
  }

  /** Strict decoding: the string whose encoding is `bs`, or None. */
  function Decode(bs: seq<Byte>): (r: Option<string>)
    ensures r.Some? ==> Encode(r.value) == bs
    decreases |bs|
  {
    if bs == [] then Some("")
    else
      match DecodeFirst(bs)
      case None => None
      case Some((c, k)) =>
        match Decode(bs[k..])
        case None => None
        case Some(rest) =>
          DecodeFirstIsEncoding(bs);
          assert bs == bs[..k] + bs[k..];
          Some([c] + rest)
  }

  /** Lossy decoding: every byte that does not start a well-formed sequence becomes U+FFFD. */
  function DecodeLossy(bs: seq<Byte>): string
    decreases |bs|
  {
    if bs == [] then ""
    else
      match DecodeFirst(bs)
      case None => [ReplacementCharacter] + DecodeLossy(bs[1..])
      case Some((c, k)) => [c] + DecodeLossy(bs[k..])
  }

  /** Both decoders invert `Encode`, and the strict one accepts exactly the encodings:
      `Decode(bs) == Some(s)` holds if and only if `Encode(s) == bs`. */
  lemma {:induction false} DecodeEncode(s: string)
    ensures Decode(Encode(s)) == Some(s)
    ensures DecodeLossy(Encode(s)) == s
    decreases |s|
  {
    if s != [] {
      var bs := Encode(s);
      DecodeFirstOfEncoding(s[0], Encode(s[1..]));
      DecodeEncode(s[1..]);
      assert bs[|EncodeChar(s[0])|..] == Encode(s[1..]);
      assert [s[0]] + s[1..] == s;
    }
  }

  lemma EncodeInjective(s: string, t: string)
    requires Encode(s) == Encode(t)
    ensures s == t
  {
    DecodeEncode(s);
    DecodeEncode(t);
  }

  /** A string of ASCII characters encodes one byte per character, with the character's value. */
  lemma {:induction false} EncodeAscii(s: string)
    requires forall i :: 0 <= i < |s| ==> s[i] as int < 0x80
    ensures |Encode(s)| == |s|
    ensures forall i :: 0 <= i < |s| ==> Encode(s)[i] == s[i] as int
    decreases |s|
  {
    if s != [] {
      EncodeAscii(s[1..]);
    }
  }
}
