// Query strings: Request::query and Request::query_decode of src/lib/request.cpp,
// with unhex of src/lib/utils.cpp, and the percent-encoding of section 2.1 of
// RFC 3986 that they undo.
module Queries {
  import opened Bytes
  import opened Paths

  // ----- Parsing -----

  datatype Param = Param(key: Text, value: Text)

  // The text up to the first sep, and what follows it.
  function Cut(s: Text, sep: Byte): (r: (Text, Option<Text>))
    ensures sep !in r.0
    ensures s == if r.1.Some? then r.0 + [sep] + r.1.value else r.0
  {
    if s == [] then ([], None)
    else if s[0] == sep then ([], Some(s[1..]))
    else var (head, tail) := Cut(s[1..], sep); ([s[0]] + head, tail)
  }

  function OrEmpty(t: Option<Text>): Text {
    if t.Some? then t.value else []
  }

  function ParamOf(element: Text): Param {
    var (key, value) := Cut(element, EQUALS);
    Param(key, OrEmpty(value))
  }

  function Params(query: Text): seq<Param>
    decreases |query|
  {
    if query == [] then []
    else var (element, rest) := Cut(query, AMP); [ParamOf(element)] + Params(OrEmpty(rest))
  }

  // A cut is where std::string_view::find puts it.
  lemma {:induction false} CutAt(s: Text, sep: Byte, at: nat)
    requires at <= |s| && sep !in s[..at] && (at < |s| ==> s[at] == sep)
    ensures Cut(s, sep) == (s[..at], if at < |s| then Some(s[at + 1..]) else None)
  {
    if at > 0 {
      assert s[0] == s[..at][0];
      assert s[1..][..at - 1] == s[..at][1..];
      CutAt(s[1..], sep, at - 1);
      assert s[..at] == [s[0]] + s[1..][..at - 1];
      assert at < |s| ==> s[1..][at..] == s[at + 1..];
    }
  }

  // What is left after a cut at index at.
  function After(s: Text, at: nat): Text
    requires at <= |s|
  {
    if at == |s| then [] else s[at + 1..]
  }

  lemma ParamsStep(s: Text, at: nat, equals: nat)
    requires s != [] && at <= |s| && AMP !in s[..at] && (at < |s| ==> s[at] == AMP)
    requires equals <= at && EQUALS !in s[..at][..equals] && (equals < at ==> s[..at][equals] == EQUALS)
    ensures Params(s) == [Param(s[..at][..equals], After(s[..at], equals))] + Params(After(s, at))
  {
    CutAt(s, AMP, at);
    CutAt(s[..at], EQUALS, equals);
  }

  // What a query string says, piece by piece: a piece without an equals sign is a key
  // with no value, the first equals sign ends the key, and a piece may be empty unless
  // it is the last.
  lemma ParamsRead(key: Text, value: Text, rest: Text)
    requires 0x3d !in key && 0x26 !in key && 0x26 !in value
    ensures Params([]) == []
    ensures key != [] ==> Params(key) == [Param(key, [])]
    ensures Params(key + [0x26] + rest) == [Param(key, [])] + Params(rest)
    ensures Params(key + [0x3d] + value) == [Param(key, value)]
    ensures Params(key + [0x3d] + value + [0x26] + rest) == [Param(key, value)] + Params(rest)
  {
    hide Params;
    NoParams();
    assert key[..|key|] == key;
    if key != [] {
      ParamsStep(key, |key|, |key|);
    }
    var lone := key + [0x26] + rest;
    assert lone[..|key|] == key && lone[|key| + 1..] == rest;
    ParamsStep(lone, |key|, |key|);
    SpeltIsCut(Param(key, value), rest);
  }

  // The loop of Request::query.
  method ParseQuery(queryString: Text) returns (query: seq<Param>)
    ensures query == Params(queryString)
  {
    hide Params;
    query := [];
    var queryStr := queryString;
    NoParams();
    while queryStr != []
      invariant query + Params(queryStr) == Params(queryString)
      decreases |queryStr|
    {
      var split := Find(queryStr, AMP);
      var element := queryStr[..split];
      var equals := Find(element, EQUALS);
      ParamsStep(queryStr, split, equals);
      queryStr := After(queryStr, split);
      Associative(query, [Param(element[..equals], After(element, equals))], Params(queryStr));
      query := query + [Param(element[..equals], After(element, equals))];
    }
  }

  lemma NoParams()
    ensures Params([]) == []
  {
  }

  ghost predicate HasKey(params: seq<Param>, key: Text) {
    exists i :: 0 <= i < |params| && params[i].key == key
  }

  ghost predicate FirstWith(params: seq<Param>, key: Text, value: Text) {
    exists i :: 0 <= i < |params| && params[i] == Param(key, value) && forall k :: 0 <= k < i ==> params[k].key != key
  }

  // Request::query(key): the first parameter with that key.
  method FirstParam(params: seq<Param>, key: Text) returns (found: bool, value: Text)
    ensures found <==> HasKey(params, key)
    ensures found ==> FirstWith(params, key, value)
    ensures !found ==> value == []
  {
    for i := 0 to |params|
      invariant forall k :: 0 <= k < i ==> params[k].key != key
    {
      if params[i].key == key {
        assert params[i] == Param(key, params[i].value);
        return true, params[i].value;
      }
    }
    return false, [];
  }

  // ----- Hexadecimal digits -----

  const LOWER: Text := [0x30, 0x31, 0x32, 0x33, 0x34, 0x35, 0x36, 0x37, 0x38, 0x39, 0x61, 0x62, 0x63, 0x64, 0x65, 0x66]
  const UPPER: Text := [0x30, 0x31, 0x32, 0x33, 0x34, 0x35, 0x36, 0x37, 0x38, 0x39, 0x41, 0x42, 0x43, 0x44, 0x45, 0x46]

  // c is the hexadecimal digit of value v, in either case.
  predicate IsDigit(c: Byte, v: Byte) {
    v < 0x10 && (c == LOWER[v] || c == UPPER[v])
  }

  predicate IsHex(c: Byte) {
    c in LOWER || c in UPPER
  }

  // ----- Decoding -----

  function Nibble(c: Byte): (v: Option<Byte>)
    ensures v.Some? ==> v.value < 0x10
  {
    if 0x30 <= c <= 0x39 then Some(c - 0x30)
    else if 0x61 <= c <= 0x66 then Some(c - 0x61 + 10)
    else if 0x41 <= c <= 0x46 then Some(c - 0x41 + 10)
    else None
  }

  function Unhex(high: Byte, low: Byte): Option<Byte> {
    if Nibble(high).Some? && Nibble(low).Some? then Some(Nibble(high).value * 0x10 + Nibble(low).value) else None
  }

  // An escape, at the front of s.
  function EscapeAt(s: Text): Option<Byte> {
    if |s| > 2 && s[0] == PERCENT then Unhex(s[1], s[2]) else None
  }

  function Decoded(s: Text): Text {
    if s == [] then []
    else match EscapeAt(s)
      case Some(c) => [c] + Decoded(s[3..])
      case None => [s[0]] + Decoded(s[1..])
  }

  lemma DecodedFrom(s: Text, idx: nat)
    requires idx < |s|
    ensures EscapeAt(s[idx..]) == if s[idx] == PERCENT && idx + 2 < |s| then Unhex(s[idx + 1], s[idx + 2]) else None
    ensures EscapeAt(s[idx..]).Some? ==> idx + 3 <= |s|
    ensures Decoded(s[idx..]) ==
            match EscapeAt(s[idx..])
            case Some(c) => [c] + Decoded(s[idx + 3..])
            case None => [s[idx]] + Decoded(s[idx + 1..])
  {
    hide Unhex;
    assert s[idx..][1..] == s[idx + 1..];
    assert idx + 3 <= |s| ==> s[idx..][3..] == s[idx + 3..];
  }

  // The loop of Request::query_decode.
  method QueryDecode(value: Text) returns (result: Text)
    ensures result == Decoded(value)
  {
    hide Decoded, EscapeAt, Unhex;
    result := [];
    var idx := 0;
    assert value[0..] == value;
    while idx < |value|
      invariant 0 <= idx <= |value|
      invariant result + Decoded(value[idx..]) == Decoded(value)
    {
      DecodedFrom(value, idx);
      var c := value[idx];
      Associative(result, [c], Decoded(value[idx + 1..]));
      if c == PERCENT && idx + 2 < |value| {
        var chr := Unhex(value[idx + 1], value[idx + 2]);
        if chr.Some? {
          Associative(result, [chr.value], Decoded(value[idx + 3..]));
          result := result + [chr.value];
          idx := idx + 2;
        } else {
          result := result + [c];
        }
      } else {
        result := result + [c];
      }
      idx := idx + 1;
    }
    NothingDecoded(value);
  }

  lemma NothingDecoded(s: Text)
    ensures Decoded(s[|s|..]) == []
  {
  }

  // What a digit is to the code, and what it is in the tables.
  lemma NibbleReadsDigits(c: Byte, v: Byte)
    ensures Nibble(c) == Some(v) <==> IsDigit(c, v)
    ensures Nibble(c).Some? <==> IsHex(c)
  {
    if Nibble(c).Some? {
      assert c == LOWER[Nibble(c).value] || c == UPPER[Nibble(c).value];
    }
  }

  lemma UnhexReads(high: Byte, low: Byte)
    ensures Unhex(high, low).Some? <==> IsHex(high) && IsHex(low)
  {
    hide Nibble, IsHex;
    NibbleReadsDigits(high, 0);
    NibbleReadsDigits(low, 0);
  }

  lemma UnhexIs(high: Byte, low: Byte, c: Byte)
    requires IsDigit(high, c / 0x10) && IsDigit(low, c % 0x10)
    ensures Unhex(high, low) == Some(c)
  {
    hide Nibble, IsDigit;
    NibbleReadsDigits(high, c / 0x10);
    NibbleReadsDigits(low, c % 0x10);
  }

  // A percent sign with two hexadecimal digits after it is the byte the digits spell.
  lemma EscapeIsRead(high: Byte, low: Byte, c: Byte, rest: Text)
    requires IsDigit(high, c / 0x10) && IsDigit(low, c % 0x10)
    ensures Decoded([0x25, high, low] + rest) == [c] + Decoded(rest)
  {
    hide Unhex, IsDigit;
    UnhexIs(high, low, c);
    assert ([0x25, high, low] + rest)[3..] == rest;
  }

  // Any other byte is itself, and so is a percent sign without two digits after it.
  lemma OthersAreKept(c: Byte, rest: Text)
    requires c != 0x25 || |rest| < 2 || !IsHex(rest[0]) || !IsHex(rest[1])
    ensures Decoded([c] + rest) == [c] + Decoded(rest)
  {
    hide Unhex, IsHex;
    if |rest| >= 2 {
      UnhexReads(rest[0], rest[1]);
    }
    assert ([c] + rest)[1..] == rest;
  }

  // A percent sign and two hexadecimal digits at i.
  predicate EscapedAt(s: Text, i: nat) {
    i + 2 < |s| && s[i] == 0x25 && IsHex(s[i + 1]) && IsHex(s[i + 2])
  }

  // Decoding changes exactly the texts that contain an escape: a percent sign that
  // does not start one is kept.
  lemma {:induction false} DecodingKeeps(s: Text)
    ensures |Decoded(s)| <= |s|
    ensures Decoded(s) == s <==> forall i :: 0 <= i < |s| ==> !EscapedAt(s, i)
  {
    hide Unhex, IsHex;
    if s != [] {
      if |s| > 2 {
        UnhexReads(s[1], s[2]);
      }
      if EscapedAt(s, 0) {
        DecodingKeeps(s[3..]);
      } else {
        DecodingKeeps(s[1..]);
        assert Decoded(s) == s <==> Decoded(s[1..]) == s[1..] by {
          assert s == [s[0]] + s[1..];
          assert Decoded(s)[1..] == Decoded(s[1..]);
        }
        assert forall i :: 0 <= i < |s[1..]| ==> EscapedAt(s[1..], i) == EscapedAt(s, i + 1);
        assert forall i :: 0 < i < |s| ==> EscapedAt(s, i) == EscapedAt(s[1..], i - 1);
      }
    }
  }

  // ----- Encoding -----

  // e spells s with some of its bytes escaped, the reserved ones at least.
  ghost predicate Encodes(e: Text, s: Text, reserved: set<Byte>) {
    if s == [] then e == []
    else
      || (e != [] && e[0] == s[0] && s[0] !in reserved && Encodes(e[1..], s[1..], reserved))
      || (|e| > 2 && e[0] == PERCENT && IsDigit(e[1], s[0] / 0x10) && IsDigit(e[2], s[0] % 0x10)
          && Encodes(e[3..], s[1..], reserved))
  }

  // Decoding undoes every percent-encoding.
  lemma {:induction false} DecodesEncoded(e: Text, s: Text, reserved: set<Byte>)
    requires PERCENT in reserved && Encodes(e, s, reserved)
    ensures Decoded(e) == s
  {
    hide Unhex, IsDigit;
    if s != [] {
      if e[0] == PERCENT {
        UnhexIs(e[1], e[2], s[0]);
        DecodesEncoded(e[3..], s[1..], reserved);
      } else {
        DecodesEncoded(e[1..], s[1..], reserved);
      }
    }
  }

  // A reserved separator does not show.
  lemma {:induction false} EncodedAvoids(e: Text, s: Text, reserved: set<Byte>, sep: Byte)
    requires Encodes(e, s, reserved) && sep in reserved && sep in {AMP, EQUALS}
    ensures sep !in e
  {
    if s != [] {
      if e[0] == s[0] && s[0] !in reserved && Encodes(e[1..], s[1..], reserved) {
        EncodedAvoids(e[1..], s[1..], reserved, sep);
        assert e == [e[0]] + e[1..];
      } else {
        EncodedAvoids(e[3..], s[1..], reserved, sep);
        assert e == [e[0], e[1], e[2]] + e[3..];
      }
    }
  }

  // ----- The round trip -----

  ghost predicate EncodesParam(e: Param, p: Param) {
    Encodes(e.key, p.key, {PERCENT, AMP, EQUALS}) && Encodes(e.value, p.value, {PERCENT, AMP})
  }

  function Spelt(p: Param): Text {
    p.key + [EQUALS] + p.value
  }

  function QueryOf(params: seq<Param>): Text {
    if params == [] then []
    else if |params| == 1 then Spelt(params[0])
    else Spelt(params[0]) + [AMP] + QueryOf(params[1..])
  }

  lemma SpeltIsCut(p: Param, rest: Text)
    requires EQUALS !in p.key && AMP !in Spelt(p)
    ensures Params(Spelt(p)) == [p]
    ensures Params(Spelt(p) + [AMP] + rest) == [p] + Params(rest)
  {
    hide Params;
    var e := Spelt(p);
    var s := e + [AMP] + rest;
    assert e[..|e|] == e && s[..|e|] == e && s[|e| + 1..] == rest;
    assert e[..|p.key|] == p.key && e[|p.key| + 1..] == p.value;
    ParamsStep(e, |e|, |p.key|);
    ParamsStep(s, |e|, |p.key|);
    NoParams();
  }

  lemma {:induction false} ParamsOfSpelt(params: seq<Param>)
    requires forall i :: 0 <= i < |params| ==> EQUALS !in params[i].key && AMP !in Spelt(params[i])
    ensures Params(QueryOf(params)) == params
  {
    hide Params, Spelt;
    if params == [] {
      NoParams();
    } else {
      SpeltIsCut(params[0], QueryOf(params[1..]));
      ParamsOfSpelt(params[1..]);
    }
  }

  // Whatever the keys and values and however they are percent-encoded, parsing the
  // joined query string gives the encoded parameters in order, and decoding each part
  // gives the originals.
  lemma {:induction false} QueryRoundTrip(params: seq<Param>, encoded: seq<Param>)
    requires |encoded| == |params| && forall i :: 0 <= i < |params| ==> EncodesParam(encoded[i], params[i])
    ensures Params(QueryOf(encoded)) == encoded
    ensures forall i :: 0 <= i < |params| ==>
              params[i] == Param(Decoded(encoded[i].key), Decoded(encoded[i].value))
  {
    hide Encodes, Decoded;
    forall i | 0 <= i < |params|
      ensures EQUALS !in encoded[i].key && AMP !in Spelt(encoded[i])
      ensures params[i] == Param(Decoded(encoded[i].key), Decoded(encoded[i].value))
    {
      var e, p := encoded[i], params[i];
      EncodedAvoids(e.key, p.key, {PERCENT, AMP, EQUALS}, EQUALS);
      EncodedAvoids(e.key, p.key, {PERCENT, AMP, EQUALS}, AMP);
      EncodedAvoids(e.value, p.value, {PERCENT, AMP}, AMP);
      DecodesEncoded(e.key, p.key, {PERCENT, AMP, EQUALS});
      DecodesEncoded(e.value, p.value, {PERCENT, AMP});
    }
    ParamsOfSpelt(encoded);
  }
}
