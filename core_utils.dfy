/** `utils.ts`: `pemToBase64Url`, which turns a PEM public key into the unpadded base64url text
    of its DER bytes with a chain of `String.prototype.replace` calls. A regular expression without
    the `g` flag replaces its leftmost match only; with `g` it replaces every match, scanning left
    to right. */
module CoreUtils {
  import opened Wrappers
  import opened Strings
  import Base64

  const PemHeader: string := "-----BEGIN PUBLIC KEY-----"
  const PemFooter: string := "-----END PUBLIC KEY-----"

  /** `pat` occurs in `s` at position `j`. */
  predicate OccursAt(s: string, pat: string, j: nat) {
    j + |pat| <= |s| && s[j..j + |pat|] == pat
  }

  /** The leftmost position from `from` on where `pat` occurs in `s`. */
  function FindFrom(s: string, pat: string, from: nat): (r: Option<nat>)
    requires from <= |s|
    ensures r.Some? ==> from <= r.value && OccursAt(s, pat, r.value)
    ensures r.Some? ==> forall j: nat :: from <= j < r.value ==> !OccursAt(s, pat, j)
    ensures r.None? ==> forall j: nat :: from <= j ==> !OccursAt(s, pat, j)
    decreases |s| - from
  {
    if from + |pat| > |s| then None
    else if s[from..from + |pat|] == pat then Some(from)
    else FindFrom(s, pat, from + 1)
  }

  /** The leftmost position where `pat` occurs in `s`, if any. */
  function FindFirst(s: string, pat: string): (r: Option<nat>)
    ensures r.Some? ==> OccursAt(s, pat, r.value)
    ensures r.Some? ==> forall j: nat :: j < r.value ==> !OccursAt(s, pat, j)
    ensures r.None? ==> forall j: nat :: !OccursAt(s, pat, j)
  {
    FindFrom(s, pat, 0)
  }

  /** `s.replace(/pat/, '')` for a pattern of plain characters: the leftmost occurrence is cut
      out, and nothing changes when there is none. */
  function RemoveFirst(s: string, pat: string): (r: string)
    ensures FindFirst(s, pat).None? ==> r == s
    ensures FindFirst(s, pat).Some? ==> |r| + |pat| == |s|
  {
    match FindFirst(s, pat)
    case None => s
    case Some(i) => s[..i] + s[i + |pat|..]
  }

  /** When `pat` first occurs right after `a`, removing its first occurrence joins `a` and what
      follows it. */
  lemma RemoveFirstAfter(a: string, pat: string, b: string)
    requires forall j: nat :: j < |a| ==> !OccursAt(a + pat + b, pat, j)
    ensures RemoveFirst(a + pat + b, pat) == a + b
  {
    var s := a + pat + b;
    assert OccursAt(s, pat, |a|) by {
      assert s[|a|..|a| + |pat|] == pat;
    }
    var i := FindFirst(s, pat).value;
    assert i == |a|;
    assert s[..i] == a && s[i + |pat|..] == b;
  }

  /** `s.replace(/\r?\n|\r/g, '')`: scanning left to right, a CR LF pair, a lone LF and a lone CR
      are each removed; every other character is kept. */
  function RemoveLineBreaks(s: string): (r: string)
    ensures '\r' !in r && '\n' !in r
    ensures |r| <= |s|
  {
    if s == [] then ""
    else if |s| >= 2 && s[0] == '\r' && s[1] == '\n' then RemoveLineBreaks(s[2..])
    else if s[0] == '\n' || s[0] == '\r' then RemoveLineBreaks(s[1..])
    else [s[0]] + RemoveLineBreaks(s[1..])
  }

  /** The scan removes exactly the CR and LF characters and keeps the others in their order,
      however the line breaks are written. */
  lemma {:induction false} RemoveLineBreaksIsFilter(s: string)
    ensures RemoveLineBreaks(s) == RemoveChar(RemoveChar(s, '\r'), '\n')
  {
    if s == [] {
    } else if |s| >= 2 && s[0] == '\r' && s[1] == '\n' {
      RemoveLineBreaksIsFilter(s[2..]);
      assert s == [s[0]] + [s[1]] + s[2..];
      RemoveCharAppend([s[0]] + [s[1]], s[2..], '\r');
      RemoveCharAppend([s[0]] + [s[1]], s[2..], '\n');
      assert RemoveChar([s[0]] + [s[1]], '\r') == "\n" by {
        assert ([s[0]] + [s[1]])[1..] == [s[1]];
      }
      RemoveCharAppend("\n", RemoveChar(s[2..], '\r'), '\n');
    } else {
      RemoveLineBreaksIsFilter(s[1..]);
      assert s == [s[0]] + s[1..];
      RemoveCharAppend([s[0]], s[1..], '\r');
      RemoveCharAppend(RemoveChar([s[0]], '\r'), RemoveChar(s[1..], '\r'), '\n');
    }
  }

  /** `s.replace(/=+$/, '')`: the longest run of `=` at the end of the text is removed. */
  function TrimTrailing(s: string, c: char): (r: string)
    ensures |r| <= |s| && r == s[..|r|]
    ensures r == [] || r[|r| - 1] != c
    ensures forall i :: |r| <= i < |s| ==> s[i] == c
    ensures forall x :: x in r ==> x in s
  {
    if s != [] && s[|s| - 1] == c then TrimTrailing(s[..|s| - 1], c) else s
  }

  /** The last four steps of `pemToBase64Url`, once the armour lines are gone: line breaks
      removed, `+` → `-` and `/` → `_`, and the trailing `=` trimmed. */
  function UrlSafeKey(text: string): (r: string)
    ensures '+' !in r && '/' !in r
    ensures '\r' !in r && '\n' !in r
    ensures r == [] || r[|r| - 1] != '='
  {
    var oneLine := RemoveLineBreaks(text);
    var urlSafe := ReplaceChar(ReplaceChar(oneLine, '+', '-'), '/', '_');
    SwappedChars(oneLine);
    TrimTrailing(urlSafe, '=')
  }

  /** After the two swaps, a text without line breaks has no `+`, `/` or line break left. */
  lemma SwappedChars(s: string)
    requires '\r' !in s && '\n' !in s
    ensures var u := ReplaceChar(ReplaceChar(s, '+', '-'), '/', '_');
      '+' !in u && '/' !in u && '\r' !in u && '\n' !in u
  {
    var m := ReplaceChar(s, '+', '-');
    var u := ReplaceChar(m, '/', '_');
    forall i | 0 <= i < |u|
      ensures u[i] != '+' && u[i] != '/' && u[i] != '\r' && u[i] != '\n'
    {
      assert u[i] == (if m[i] == '/' then '_' else m[i]);
      assert m[i] == (if s[i] == '+' then '-' else s[i]);
      assert s[i] in s;
    }
  }

  /** `pemToBase64Url(pem)`: the first header line and the first footer line cut out, then the
      text made URL-safe. */
  function PemToBase64Url(pem: string): (r: string)
    ensures '+' !in r && '/' !in r
    ensures '\r' !in r && '\n' !in r
    ensures r == [] || r[|r| - 1] != '='
  {
    UrlSafeKey(RemoveFirst(RemoveFirst(pem, PemHeader), PemFooter))
  }

  // ---- what it computes on a PEM key ----

  /** A character of the base64 lines of a PEM body: the standard alphabet, padding, and line
      breaks. */
  predicate PemBodyChar(c: char) {
    Base64.InAlphabet(c) || c == '=' || c == '\r' || c == '\n'
  }

  /** Trimming a run of `c` from a text whose last character is not `c` leaves that text. */
  lemma {:induction false} TrimTrailingRun(s: string, c: char, k: nat)
    requires s == [] || s[|s| - 1] != c
    ensures TrimTrailing(s + Repeat(c, k), c) == s
  {
    if k > 0 {
      assert (s + Repeat(c, k))[..|s| + k - 1] == s + Repeat(c, k - 1);
      TrimTrailingRun(s, c, k - 1);
    } else {
      assert s + Repeat(c, k) == s;
    }
  }

  /** Text of CR and LF only filters to nothing. */
  lemma {:induction false} LineBreaksOnly(s: string)
    requires forall i :: 0 <= i < |s| ==> s[i] == '\r' || s[i] == '\n'
    ensures RemoveChar(RemoveChar(s, '\r'), '\n') == ""
  {
    if s != [] {
      LineBreaksOnly(s[1..]);
      assert s == [s[0]] + s[1..];
      RemoveCharAppend([s[0]], s[1..], '\r');
      RemoveCharAppend(RemoveChar([s[0]], '\r'), RemoveChar(s[1..], '\r'), '\n');
    }
  }

  /** Cutting the first `header` and then the first `footer` out of `header + lines + footer +
      tail` leaves `lines + tail` when the footer starts with a character the lines lack. */
  lemma StripArmour(header: string, lines: string, footer: string, tail: string)
    requires |footer| > 0 && footer[0] !in lines
    ensures RemoveFirst(RemoveFirst(header + lines + footer + tail, header), footer) == lines + tail
  {
    var rest := lines + footer + tail;
    assert header + lines + footer + tail == [] + header + rest;
    RemoveFirstAfter([], header, rest);
    assert [] + rest == rest;
    forall j: nat | j < |lines|
      ensures !OccursAt(lines + footer + tail, footer, j)
    {
      assert (lines + footer + tail)[j] == lines[j];
    }
    RemoveFirstAfter(lines, footer, tail);
  }

  /** Line breaks after the last line change nothing once they are removed. */
  lemma TrailingLineBreaks(lines: string, tail: string)
    requires forall i :: 0 <= i < |tail| ==> tail[i] == '\r' || tail[i] == '\n'
    ensures RemoveLineBreaks(lines + tail) == RemoveLineBreaks(lines)
  {
    RemoveLineBreaksIsFilter(lines + tail);
    RemoveLineBreaksIsFilter(lines);
    RemoveCharAppend(lines, tail, '\r');
    RemoveCharAppend(RemoveChar(lines, '\r'), RemoveChar(tail, '\r'), '\n');
    LineBreaksOnly(tail);
    assert RemoveChar(RemoveChar(lines, '\r'), '\n') + "" == RemoveChar(RemoveChar(lines, '\r'), '\n');
  }

  /** The padded standard encoding of `bs`, swapped to the URL alphabet and trimmed of its
      trailing `=`, is the unpadded base64url text of `bs`. */
  lemma TrimmedSwappedEncoding(bs: seq<Byte>)
    ensures TrimTrailing(ReplaceChar(ReplaceChar(Base64.Encode(bs), '+', '-'), '/', '_'), '=') == Base64.UrlEncode(bs)
  {
    var body := Base64.EncodeBody(bs);
    var pad := Repeat('=', Base64.PadCount(|bs|));
    var swapped := ReplaceChar(ReplaceChar(body, '+', '-'), '/', '_');
    assert ReplaceChar(ReplaceChar(Base64.Encode(bs), '+', '-'), '/', '_') == swapped + pad by {
      Base64.ReplaceCharAppend(body, pad, '+', '-');
      Base64.ReplaceCharAppend(ReplaceChar(body, '+', '-'), pad, '/', '_');
      assert ReplaceChar(ReplaceChar(pad, '+', '-'), '/', '_') == pad;
    }
    assert swapped == [] || swapped[|swapped| - 1] != '=' by {
      if swapped != [] {
        assert Base64.InAlphabet(body[|body| - 1]);
      }
    }
    TrimTrailingRun(swapped, '=', Base64.PadCount(|bs|));
    Base64.UrlEncodeIsSwappedBody(bs);
  }

  /** Base64 lines of `bs`, line breaks anywhere, become the unpadded base64url text of `bs`. */
  lemma UrlSafeKeyOfEncoding(bs: seq<Byte>, lines: string, tail: string)
    requires RemoveLineBreaks(lines) == Base64.Encode(bs)
    requires forall i :: 0 <= i < |tail| ==> tail[i] == '\r' || tail[i] == '\n'
    ensures UrlSafeKey(lines + tail) == Base64.UrlEncode(bs)
  {
    TrailingLineBreaks(lines, tail);
    TrimmedSwappedEncoding(bs);
  }

  /** The characters of base64 lines include no `-`, the first character of the footer. */
  lemma NoDashInBody(lines: string)
    requires forall i :: 0 <= i < |lines| ==> PemBodyChar(lines[i])
    ensures '-' !in lines
  {
    forall i | 0 <= i < |lines|
      ensures lines[i] != '-'
    {
      assert Base64.InAlphabet(lines[i]) ==> lines[i] != '-';
    }
  }

  /** A PEM public key, header, base64 lines of the DER bytes `bs`, footer and trailing line
      breaks, becomes exactly the unpadded base64url text of `bs`: the form `base64URLEncode`
      produces and `base64URLDecode` reads. */
  lemma PemRoundTrip(bs: seq<Byte>, lines: string, tail: string)
    requires forall i :: 0 <= i < |lines| ==> PemBodyChar(lines[i])
    requires RemoveLineBreaks(lines) == Base64.Encode(bs)
    requires forall i :: 0 <= i < |tail| ==> tail[i] == '\r' || tail[i] == '\n'
    ensures PemToBase64Url(PemHeader + lines + PemFooter + tail) == Base64.UrlEncode(bs)
    ensures Base64.UrlDecode(PemToBase64Url(PemHeader + lines + PemFooter + tail)) == Some(bs)
  {
    NoDashInBody(lines);
    assert PemFooter[0] == '-';
    StripArmour(PemHeader, lines, PemFooter, tail);
    UrlSafeKeyOfEncoding(bs, lines, tail);
    Base64.UrlRoundTrip(bs);
  }

  /** A pattern with a character the text lacks does not occur in it. */
  lemma Absent(s: string, pat: string, k: nat)
    requires k < |pat| && pat[k] !in s
    ensures FindFirst(s, pat).None?
  {
    forall j: nat
      ensures !OccursAt(s, pat, j)
    {
      if j + |pat| <= |s| {
        assert s[j..j + |pat|][k] == s[j + k];
        assert s[j + k] in s;
      }
    }
  }

  /** Text that is already unpadded base64url comes back unchanged: every character keeps its
      place, and a second conversion of a converted key does nothing. */
  lemma UrlSafeIsFixed(s: string)
    requires forall i :: 0 <= i < |s| ==> s[i] !in " \r\n+/"
    requires s == [] || s[|s| - 1] != '='
    ensures PemToBase64Url(s) == s
  {
    assert ' ' !in s by {
      forall i | 0 <= i < |s|
        ensures s[i] != ' '
      {
        assert s[i] !in " \r\n+/";
      }
    }
    assert RemoveFirst(RemoveFirst(s, PemHeader), PemFooter) == s by {
      assert PemHeader[10] == ' ' && PemFooter[8] == ' ';
      Absent(s, PemHeader, 10);
      Absent(s, PemFooter, 8);
    }
    UrlSafeKeyFixed(s);
  }

  /** The last four steps leave unpadded base64url text as it is. */
  lemma UrlSafeKeyFixed(s: string)
    requires forall i :: 0 <= i < |s| ==> s[i] !in " \r\n+/"
    requires s == [] || s[|s| - 1] != '='
    ensures UrlSafeKey(s) == s
  {
    assert RemoveLineBreaks(s) == s by {
      RemoveLineBreaksIsFilter(s);
      RemoveCharAbsent(s, '\r');
      RemoveCharAbsent(s, '\n');
    }
    assert ReplaceChar(ReplaceChar(s, '+', '-'), '/', '_') == s;
    assert TrimTrailing(s, '=') == s;
  }
}
