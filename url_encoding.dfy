/** Percent-encoding of query names and values, with the two escape sets the ports use.

    `Form` is the application/x-www-form-urlencoded byte serializer of section 5.2 of the WHATWG
    URL Standard, which Java's `URLEncoder` follows as well: ASCII alphanumerics and `*-._` stay,
    a space becomes `+`, every other character becomes `%XX` per UTF-8 byte (upper-case hex).
    `Query` keeps the characters RFC 3986 (section 3.4) allows in a query except the three that
    separate or re-interpret query items: `&`, `=` and `+`.

    Decoding comes in the three flavours the ports rely on:
    - `FormDecode`: the WHATWG parser (section 5.1), `+` means space, a `%` that does not start an
      escape stays as it is, and bytes that are not UTF-8 become U+FFFD;
    - `JavaDecode`: `URLDecoder.decode`, `+` means space, a malformed escape is an error, bytes that
      are not UTF-8 become U+FFFD;
    - `StrictDecode`: Foundation's percent-decoding, `+` is literal, a malformed escape or bytes
      that are not UTF-8 are an error. */
module UrlEncoding {
  import opened Wrappers
  import opened Strings
  import Utf8

  datatype EscapeSet = Form | Query

  predicate IsAsciiAlphanumeric(c: char) {
    ('0' <= c <= '9') || ('A' <= c <= 'Z') || ('a' <= c <= 'z')
  }

  /** The characters that `set` writes as they are. */
  predicate Unescaped(t: EscapeSet, c: char) {
    IsAsciiAlphanumeric(c) ||
    match t
    case Form => c in "*-._"
    case Query => c in "-._~!$'()*,;:@/?"
  }

  function HexDigit(d: int): (c: char)
    requires 0 <= d < 16
    ensures IsAsciiAlphanumeric(c)
  {
    if d < 10 then ('0' as int + d) as char else ('A' as int + d - 10) as char
  }

  /** The value of a hexadecimal digit of either case. */
  function HexValue(c: char): (r: Option<int>)
    ensures r.Some? ==> 0 <= r.value < 16
  {
    if '0' <= c <= '9' then Some(c as int - '0' as int)
    else if 'A' <= c <= 'F' then Some(c as int - 'A' as int + 10)
    else if 'a' <= c <= 'f' then Some(c as int - 'a' as int + 10)
    else None
  }

  lemma HexValueOfDigit(d: int)
    requires 0 <= d < 16
    ensures HexValue(HexDigit(d)) == Some(d)
  {
  }

  function PercentByte(b: Byte): (s: string)
    ensures |s| == 3 && s[0] == '%' && IsAsciiAlphanumeric(s[1]) && IsAsciiAlphanumeric(s[2])
  {
    ['%', HexDigit(b / 16), HexDigit(b % 16)]
  }

  function EscapeBytes(bs: seq<Byte>): (s: string)
    ensures forall i :: 0 <= i < |s| ==> s[i] == '%' || IsAsciiAlphanumeric(s[i])
  {
    if bs == [] then "" else PercentByte(bs[0]) + EscapeBytes(bs[1..])
  }

  function EncodeChar(t: EscapeSet, c: char): string {
    if Unescaped(t, c) then [c]
    else if t == Form && c == ' ' then "+"
    else EscapeBytes(Utf8.EncodeChar(c))
  }

  /** The characters an encoded string can contain. */
  predicate EncodedChar(t: EscapeSet, c: char) {
    Unescaped(t, c) || c == '%' || (t == Form && c == '+')
  }

  function Encode(t: EscapeSet, s: string): (r: string)
    ensures forall i :: 0 <= i < |r| ==> EncodedChar(t, r[i])
  {
    if s == [] then "" else EncodeChar(t, s[0]) + Encode(t, s[1..])
  }

  /** Form encoding writes a space as `+`, so no space is left in its output. */
  lemma FormEncodedHasNoSpace(s: string)
    ensures ' ' !in Encode(Form, s)
  {
    var r := Encode(Form, s);
    forall i | 0 <= i < |r|
      ensures r[i] != ' '
    {
      assert EncodedChar(Form, r[i]);
    }
  }

  /** An encoded string never contains the separators of a query or of a URL's fragment. */
  lemma EncodedHasNoSeparator(t: EscapeSet, s: string)
    ensures '&' !in Encode(t, s) && '=' !in Encode(t, s) && '#' !in Encode(t, s)
    ensures t == Query ==> '+' !in Encode(t, s)
  {
    var r := Encode(t, s);
    forall i | 0 <= i < |r|
      ensures r[i] != '&' && r[i] != '=' && r[i] != '#' && (t == Query ==> r[i] != '+')
    {
      assert EncodedChar(t, r[i]);
    }
  }

  lemma {:induction false} EncodeAppend(t: EscapeSet, a: string, b: string)
    ensures Encode(t, a + b) == Encode(t, a) + Encode(t, b)
    decreases |a|
  {
    if a == [] {
      assert a + b == b;
    } else {
      var head := EncodeChar(t, a[0]);
      assert Encode(t, a + b) == head + Encode(t, a[1..] + b) by {
        assert a + b != [] && (a + b)[0] == a[0] && (a + b)[1..] == a[1..] + b;
      }
      EncodeAppend(t, a[1..], b);
      assert head + (Encode(t, a[1..]) + Encode(t, b)) == (head + Encode(t, a[1..])) + Encode(t, b);
    }
  }

  /** A string made only of characters of the escape set is written unchanged. */
  lemma {:induction false} EncodeUnescaped(t: EscapeSet, s: string)
    requires forall i :: 0 <= i < |s| ==> Unescaped(t, s[i])
    ensures Encode(t, s) == s
    decreases |s|
  {
    if s != [] {
      EncodeUnescaped(t, s[1..]);
      assert [s[0]] + s[1..] == s;
    }
  }

  // ---- decoding ----

  /** Every `%` starts an escape: it is followed by two hexadecimal digits. */
  predicate WellEscaped(s: string) {
    forall i :: 0 <= i < |s| && s[i] == '%' ==>
      i + 2 < |s| && HexValue(s[i + 1]).Some? && HexValue(s[i + 2]).Some?
  }

  /** The bytes a query component stands for: an escape gives its byte, `+` gives a space when
      `plusIsSpace`, and any other character its UTF-8 encoding; a `%` that does not start an escape
      is taken as the `%` byte itself. */
  function Unescape(s: string, plusIsSpace: bool): seq<Byte>
  {
    if s == [] then []
    else if s[0] == '%' && |s| >= 3 && HexValue(s[1]).Some? && HexValue(s[2]).Some? then
      [HexValue(s[1]).value * 16 + HexValue(s[2]).value] + Unescape(s[3..], plusIsSpace)
    else if s[0] == '+' && plusIsSpace then
      [0x20] + Unescape(s[1..], plusIsSpace)
    else
      Utf8.EncodeChar(s[0]) + Unescape(s[1..], plusIsSpace)
  }

  /** The WHATWG form-urlencoded decoding of a name or a value. */
  function FormDecode(s: string): string {
    Utf8.DecodeLossy(Unescape(s, true))
  }

  /** `URLDecoder.decode(s, UTF_8)`; None stands for the `IllegalArgumentException` it throws on
      a malformed escape. */
  function JavaDecode(s: string): (r: Option<string>)
    ensures r.Some? <==> WellEscaped(s)
  {
    if WellEscaped(s) then Some(Utf8.DecodeLossy(Unescape(s, true))) else None
  }

  /** Foundation's strict percent-decoding; None for a malformed escape or bytes that are not
      UTF-8. */
  function StrictDecode(s: string): (r: Option<string>)
    ensures r.Some? ==> WellEscaped(s) && Utf8.Encode(r.value) == Unescape(s, false)
  {
    if WellEscaped(s) then Utf8.Decode(Unescape(s, false)) else None
  }

  lemma UnescapePercentByte(b: Byte, rest: string, plusIsSpace: bool)
    ensures Unescape(PercentByte(b) + rest, plusIsSpace) == [b] + Unescape(rest, plusIsSpace)
  {
    var s := PercentByte(b) + rest;
    HexValueOfDigit(b / 16);
    HexValueOfDigit(b % 16);
    assert s[3..] == rest;
  }

  lemma {:induction false} UnescapeEscapeBytes(bs: seq<Byte>, rest: string, plusIsSpace: bool)
    ensures Unescape(EscapeBytes(bs) + rest, plusIsSpace) == bs + Unescape(rest, plusIsSpace)
    decreases |bs|
  {
    if bs == [] {
      assert EscapeBytes(bs) + rest == rest;
    } else {
      var tail := EscapeBytes(bs[1..]) + rest;
      assert EscapeBytes(bs) + rest == PercentByte(bs[0]) + tail by {
        assert EscapeBytes(bs) == PercentByte(bs[0]) + EscapeBytes(bs[1..]);
      }
      UnescapePercentByte(bs[0], tail, plusIsSpace);
      UnescapeEscapeBytes(bs[1..], rest, plusIsSpace);
      assert [bs[0]] + (bs[1..] + Unescape(rest, plusIsSpace)) == bs + Unescape(rest, plusIsSpace) by {
        assert [bs[0]] + bs[1..] == bs;
      }
    }
  }

  lemma UnescapeEncodeChar(t: EscapeSet, c: char, tail: string)
    ensures Unescape(EncodeChar(t, c) + tail, t == Form) == Utf8.EncodeChar(c) + Unescape(tail, t == Form)
  {
    if Unescaped(t, c) || (t == Form && c == ' ') {
      assert (EncodeChar(t, c) + tail)[1..] == tail;
    } else {
      UnescapeEscapeBytes(Utf8.EncodeChar(c), tail, t == Form);
    }
  }

  /** Unescaping an encoding gives the UTF-8 encoding of the original string; `+` must mean a
      space exactly for the `Form` set, which is the only one that writes a space as `+`. */
  lemma {:induction false} UnescapeEncode(t: EscapeSet, s: string, rest: string)
    ensures Unescape(Encode(t, s) + rest, t == Form) == Utf8.Encode(s) + Unescape(rest, t == Form)
    decreases |s|
  {
    if s == [] {
      assert Encode(t, s) + rest == rest;
    } else {
      var plus := t == Form;
      var tail := Encode(t, s[1..]) + rest;
      calc {
        Unescape(Encode(t, s) + rest, plus);
        { assert Encode(t, s) + rest == EncodeChar(t, s[0]) + tail; }
        Unescape(EncodeChar(t, s[0]) + tail, plus);
        { UnescapeEncodeChar(t, s[0], tail); }
        Utf8.EncodeChar(s[0]) + Unescape(tail, plus);
        { UnescapeEncode(t, s[1..], rest); }
        Utf8.EncodeChar(s[0]) + (Utf8.Encode(s[1..]) + Unescape(rest, plus));
        (Utf8.EncodeChar(s[0]) + Utf8.Encode(s[1..])) + Unescape(rest, plus);
      }
    }
  }

  lemma {:induction false} EscapeBytesWellEscaped(bs: seq<Byte>)
    ensures WellEscaped(EscapeBytes(bs))
    decreases |bs|
  {
    if bs != [] {
      EscapeBytesWellEscaped(bs[1..]);
      var s := EscapeBytes(bs);
      var tail := EscapeBytes(bs[1..]);
      HexValueOfDigit(bs[0] / 16);
      HexValueOfDigit(bs[0] % 16);
      forall i | 0 <= i < |s| && s[i] == '%'
        ensures i + 2 < |s| && HexValue(s[i + 1]).Some? && HexValue(s[i + 2]).Some?
      {
        if i >= 3 {
          assert tail[i - 3] == '%';
        }
      }
    }
  }

  lemma {:induction false} EncodeWellEscaped(t: EscapeSet, s: string)
    ensures WellEscaped(Encode(t, s))
    decreases |s|
  {
    if s != [] {
      EncodeWellEscaped(t, s[1..]);
      var head := EncodeChar(t, s[0]);
      var tail := Encode(t, s[1..]);
      var r := Encode(t, s);
      if !Unescaped(t, s[0]) && !(t == Form && s[0] == ' ') {
        EscapeBytesWellEscaped(Utf8.EncodeChar(s[0]));
      }
      forall i | 0 <= i < |r| && r[i] == '%'
        ensures i + 2 < |r| && HexValue(r[i + 1]).Some? && HexValue(r[i + 2]).Some?
      {
        if i >= |head| {
          assert tail[i - |head|] == '%';
        } else {
          assert head[i] == '%';
        }
      }
    }
  }

  /** Round trips: each decoder inverts the encoder the port pairs it with. */
  lemma FormRoundTrip(s: string)
    ensures FormDecode(Encode(Form, s)) == s
    ensures JavaDecode(Encode(Form, s)) == Some(s)
  {
    UnescapeEncode(Form, s, "");
    assert Encode(Form, s) + "" == Encode(Form, s);
    assert Utf8.Encode(s) + [] == Utf8.Encode(s);
    EncodeWellEscaped(Form, s);
    Utf8.DecodeEncode(s);
  }

  lemma QueryRoundTrip(s: string)
    ensures StrictDecode(Encode(Query, s)) == Some(s)
  {
    UnescapeEncode(Query, s, "");
    assert Encode(Query, s) + "" == Encode(Query, s);
    assert Utf8.Encode(s) + [] == Utf8.Encode(s);
    EncodeWellEscaped(Query, s);
    Utf8.DecodeEncode(s);
  }

  /** Text without `%` (and, where `+` means space, without `+`) stands for its own UTF-8
      bytes. */
  lemma {:induction false} UnescapePlain(s: string, plusIsSpace: bool)
    requires '%' !in s && (plusIsSpace ==> '+' !in s)
    ensures Unescape(s, plusIsSpace) == Utf8.Encode(s)
    decreases |s|
  {
    if s != [] {
      UnescapePlain(s[1..], plusIsSpace);
      assert s == [s[0]] + s[1..];
      Utf8.EncodeAppend([s[0]], s[1..]);
    }
  }

  /** The decoders leave text without escapes as it is. */
  lemma DecodePlain(s: string)
    requires '%' !in s
    ensures StrictDecode(s) == Some(s)
    ensures '+' !in s ==> JavaDecode(s) == Some(s)
  {
    UnescapePlain(s, false);
    Utf8.DecodeEncode(s);
    if '+' !in s {
      UnescapePlain(s, true);
    }
  }
}
