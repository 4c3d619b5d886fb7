/** `URLSearchParams` as the WHATWG URL Standard defines it: a list of name/value pairs, built by
    the application/x-www-form-urlencoded parser (section 5.1), changed by `set` (section 6.2),
    read by `get`, and written out by the application/x-www-form-urlencoded serializer
    (section 5.2). */
module UrlSearchParams {
  import opened Wrappers
  import opened Strings
  import opened PathParams
  import opened QueryPairs
  import UrlEncoding

  // ---- the parser (section 5.1) ----

  /** One `&`-separated piece: the name is what comes before the first `=`, the value what comes
      after it (empty when there is no `=`); both are form-decoded. */
  function ParsePiece(piece: string): (pair: (string, string))
  {
    var (name, value) := SplitAtFirst(piece, '=');
    (UrlEncoding.FormDecode(name), UrlEncoding.FormDecode(value.GetOr("")))
  }

  function ParsePieces(pieces: seq<string>): (pairs: Pairs)
    ensures |pairs| == |pieces|
    ensures forall i :: 0 <= i < |pieces| ==> pairs[i] == ParsePiece(pieces[i])
  {
    if pieces == [] then [] else [ParsePiece(pieces[0])] + ParsePieces(pieces[1..])
  }

  /** The pairs of a query string: its `&`-separated pieces, empty pieces skipped. */
  function ParseQuery(s: string): Pairs {
    ParsePieces(NonEmpty(Split(s, '&')))
  }

  /** The `URLSearchParams(init)` constructor drops one leading `?` before parsing. */
  function StripQuestionMark(init: string): string {
    DropLeading(init, '?')
  }

  // ---- the serializer (section 5.2) ----

  function SerializePair(pair: (string, string)): string {
    UrlEncoding.Encode(UrlEncoding.Form, pair.0) + "=" + UrlEncoding.Encode(UrlEncoding.Form, pair.1)
  }

  function SerializePairs(pairs: Pairs): (r: seq<string>)
    ensures |r| == |pairs|
    ensures forall i :: 0 <= i < |pairs| ==> r[i] == SerializePair(pairs[i])
  {
    if pairs == [] then [] else [SerializePair(pairs[0])] + SerializePairs(pairs[1..])
  }

  /** `toString()`: every pair serialized, joined with `&`. */
  function Serialize(pairs: Pairs): string {
    Join(SerializePairs(pairs), '&')
  }

  // ---- `set` (section 6.2) ----

  /** The pairs without any pair named `name`. */
  function RemoveNamed(pairs: Pairs, name: string): (r: Pairs)
    ensures name !in NamesOf(r)
    ensures forall i :: 0 <= i < |r| ==> r[i] in pairs
  {
    if pairs == [] then []
    else (if pairs[0].0 == name then [] else [pairs[0]]) + RemoveNamed(pairs[1..], name)
  }

  /** `set(name, value)`: the first pair named `name` takes the value and the other pairs with
      that name are removed; without such a pair, the new pair is appended. */
  function SetPair(pairs: Pairs, name: string, value: string): Pairs
  {
    if pairs == [] then [(name, value)]
    else if pairs[0].0 == name then [(name, value)] + RemoveNamed(pairs[1..], name)
    else [pairs[0]] + SetPair(pairs[1..], name, value)
  }

  lemma {:induction false} RemoveNamedLookup(pairs: Pairs, name: string, key: string)
    requires key != name
    ensures FirstValue(RemoveNamed(pairs, name), key) == FirstValue(pairs, key)
    decreases |pairs|
  {
    if pairs != [] {
      RemoveNamedLookup(pairs[1..], name, key);
      assert [pairs[0]] + pairs[1..] == pairs;
      FirstValueCons(pairs[0], pairs[1..], key);
      if pairs[0].0 != name {
        FirstValueCons(pairs[0], RemoveNamed(pairs[1..], name), key);
      } else {
        assert RemoveNamed(pairs, name) == RemoveNamed(pairs[1..], name);
      }
    }
  }

  /** After `set`, `get(name)` gives the new value, the name occurs once, and every other name
      reads as before. */
  lemma {:induction false} SetPairLookup(pairs: Pairs, name: string, value: string, key: string)
    ensures FirstValue(SetPair(pairs, name, value), key) ==
      if key == name then Some(value) else FirstValue(pairs, key)
    ensures name in NamesOf(SetPair(pairs, name, value))
    decreases |pairs|
  {
    if pairs == [] {
    } else if pairs[0].0 == name {
      FirstValueCons((name, value), RemoveNamed(pairs[1..], name), key);
      if key != name {
        RemoveNamedLookup(pairs[1..], name, key);
        FirstValueCons(pairs[0], pairs[1..], key);
      }
    } else {
      SetPairLookup(pairs[1..], name, value, key);
      FirstValueCons(pairs[0], SetPair(pairs[1..], name, value), key);
      FirstValueCons(pairs[0], pairs[1..], key);
    }
  }

  /** Setting a name the list does not hold appends the pair. */
  lemma {:induction false} SetPairAppends(pairs: Pairs, name: string, value: string)
    requires name !in NamesOf(pairs)
    ensures SetPair(pairs, name, value) == pairs + [(name, value)]
    decreases |pairs|
  {
    if pairs != [] {
      assert NamesOf(pairs)[0] == pairs[0].0;
      assert NamesOf(pairs[1..]) == NamesOf(pairs)[1..];
      SetPairAppends(pairs[1..], name, value);
      assert [pairs[0]] + (pairs[1..] + [(name, value)]) == pairs + [(name, value)];
    }
  }

  // ---- the object ----

  /** A `URLSearchParams` object: its list of pairs, in order. */
  class SearchParams {
    var list: Pairs

    /** `new URLSearchParams()`. */
    constructor ()
      ensures list == []
    {
      list := [];
    }

    /** `new URLSearchParams(init)` for a string `init`. */
    constructor FromString(init: string)
      ensures list == ParseQuery(StripQuestionMark(init))
    {
      list := ParseQuery(StripQuestionMark(init));
    }

    method Set(name: string, value: string)
      modifies this
      ensures list == SetPair(old(list), name, value)
    {
      list := SetPair(list, name, value);
    }

    /** `get(name)`. */
    function Get(name: string): Option<string>
      reads this
    {
      FirstValue(list, name)
    }

    /** `toString()`. */
    function ToString(): string
      reads this
    {
      Serialize(list)
    }
  }

  // ---- the round trip ----

  /** A serialized pair holds no `&`, and its first `=` is the one after the name. */
  lemma SerializePairShape(pair: (string, string))
    ensures '&' !in SerializePair(pair)
    ensures SplitAtFirst(SerializePair(pair), '=') ==
      (UrlEncoding.Encode(UrlEncoding.Form, pair.0), Some(UrlEncoding.Encode(UrlEncoding.Form, pair.1)))
  {
    var n := UrlEncoding.Encode(UrlEncoding.Form, pair.0);
    var v := UrlEncoding.Encode(UrlEncoding.Form, pair.1);
    UrlEncoding.EncodedHasNoSeparator(UrlEncoding.Form, pair.0);
    UrlEncoding.EncodedHasNoSeparator(UrlEncoding.Form, pair.1);
    assert SerializePair(pair) == n + ['='] + v;
    SplitAtFirstOfPair(n, v, '=');
  }

  lemma SerializePairRoundTrip(pair: (string, string))
    ensures ParsePiece(SerializePair(pair)) == pair
    ensures SerializePair(pair) != ""
  {
    SerializePairShape(pair);
    UrlEncoding.FormRoundTrip(pair.0);
    UrlEncoding.FormRoundTrip(pair.1);
  }

  /** The parser reads back exactly the list the serializer wrote, names and values of any
      content, empty ones included. */
  lemma SerializeRoundTrip(pairs: Pairs)
    ensures ParseQuery(Serialize(pairs)) == pairs
  {
    var pieces := SerializePairs(pairs);
    forall i | 0 <= i < |pieces|
      ensures '&' !in pieces[i] && pieces[i] != "" && ParsePiece(pieces[i]) == pairs[i]
    {
      SerializePairShape(pairs[i]);
      SerializePairRoundTrip(pairs[i]);
    }
    if pairs == [] {
      assert Split("", '&') == [""];
    } else {
      SplitJoin(pieces, '&');
      NonEmptyUnchanged(pieces);
    }
  }

  /** A serialized list never starts with `?`, so the constructor's `?` stripping leaves it
      alone. */
  lemma SerializeNoQuestionMark(pairs: Pairs)
    ensures StripQuestionMark(Serialize(pairs)) == Serialize(pairs)
  {
    var s := Serialize(pairs);
    if pairs != [] {
      var first := SerializePair(pairs[0]);
      var n := UrlEncoding.Encode(UrlEncoding.Form, pairs[0].0);
      assert s[..|first|] == first by {
        if |pairs| > 1 {
          assert s == first + ['&'] + Join(SerializePairs(pairs)[1..], '&');
        }
      }
      if n == "" {
        assert first[0] == '=';
      } else {
        assert first[0] == n[0];
        assert UrlEncoding.EncodedChar(UrlEncoding.Form, n[0]);
      }
    }
  }
}
