// What the formatter of src/lib/generic_formatter.cpp writes for each glyph, and
// what that means for a whole string.
module Markup {
  import opened Bytes
  import opened Utf8

  datatype Format = Verbatim | HTML | HTMLContent | UTF8

  const AMP_ESCAPE: Text := [0x26, 0x61, 0x6d, 0x70, 0x3b]  // &amp;
  const LT_ESCAPE: Text := [0x26, 0x6c, 0x74, 0x3b]         // &lt;
  const GT_ESCAPE: Text := [0x26, 0x72, 0x74, 0x3b]         // &rt; (as the code spells it)
  const ENTITY_OPEN: Text := [0x26, 0x23, 0x78]             // &#x

  // ----- %x -----

  function HexDigit(n: Glyph): Byte
    requires n < 0x10
  {
    if n < 10 then 0x30 + n as Byte else 0x57 + n as Byte
  }

  function Hex(g: Glyph): (t: Text)
    ensures t != []
    decreases g as int
  {
    if g < 0x10 then [HexDigit(g)] else Hex(g / 0x10) + [HexDigit(g % 0x10)]
  }

  function Entity(g: Glyph): Text {
    ENTITY_OPEN + Hex(g) + [SEMICOLON]
  }

  function Power16(n: nat): nat {
    if n == 0 then 1 else 0x10 * Power16(n - 1)
  }

  lemma {:induction false} HexLength(g: Glyph, n: nat)
    requires n > 0 && g as int < Power16(n)
    ensures |Hex(g)| <= n
    decreases n
  {
    if g >= 0x10 {
      HexLength(g / 0x10, n - 1);
    }
  }

  // "&#x", at most eight digits, ";".
  lemma EntityLength(g: Glyph)
    ensures 5 <= |Entity(g)| <= 12
  {
    assert Power16(8) == 0x1_0000_0000 by {
      assert Power16(2) == 0x100;
      assert Power16(4) == 0x1_0000;
      assert Power16(6) == 0x100_0000;
    }
    HexLength(g, 8);
  }

  // ----- One glyph -----

  // The u32 overload, for every format but Verbatim.
  function GlyphOut(f: Format, g: Glyph): Text {
    if f == UTF8 then EncodeGlyph(g)
    else if g < 0x80 then AsciiOut(f, g as Byte)
    else Entity(g)
  }

  function AsciiOut(f: Format, c: Byte): Text {
    if c == LT && f == HTMLContent then LT_ESCAPE
    else if c == GT && f == HTMLContent then GT_ESCAPE
    else if c == AMP then AMP_ESCAPE
    else [c]
  }

  // The byte overload: the decoder has just taken c and produced glyph g. Below
  // 0x80 it is c itself, not g, that is tested and written.
  function ByteOut(f: Format, g: Glyph, c: Byte): Text {
    if f != UTF8 && g < 0x80 then AsciiOut(f, c) else GlyphOut(f, g)
  }

  function ByteStep(f: Format, d: Decoder, c: Byte): (Decoder, Text) {
    var g := Emitted(Advance(d, c));
    (Advance(d, c), if g == 0 then [] else ByteOut(f, g, c))
  }

  // ----- Whole strings -----

  function GlyphWriter(f: Format): Glyph -> Text {
    (g: Glyph) => GlyphOut(f, g)
  }

  function ByteWriter(f: Format): Machine<Decoder, Byte, Byte> {
    (d: Decoder, c: Byte) => ByteStep(f, d, c)
  }

  function GlyphsOut(f: Format, gs: seq<Glyph>): Text {
    FlatMap(GlyphWriter(f), gs)
  }

  function BytesOut(f: Format, s: Text): Text {
    Output(ByteWriter(f), FRESH, s)
  }

  // ----- The two overloads compared -----

  // No glyph below 0x80 was produced from more than one byte.
  predicate NoLongAscii(d: Decoder, s: Text)
    decreases |s|
  {
    s == [] ||
    var d' := Advance(d, s[0]);
    (0 < Emitted(d') < 0x80 ==> s[0] < 0x80) && NoLongAscii(d', s[1..])
  }

  // The bytes of one step, seen from the glyph side.
  lemma StepAgrees(f: Format, d: Decoder, c: Byte)
    requires f == UTF8 || (0 < Emitted(Advance(d, c)) < 0x80 ==> c < 0x80)
    ensures ByteStep(f, d, c).1 == FlatMap(GlyphWriter(f), DecodeStep(d, c).1)
    ensures ByteStep(f, d, c).0 == DecodeStep(d, c).0
  {
    FlatMapOne(GlyphWriter(f), Emitted(Advance(d, c)));
    var g := Emitted(Advance(d, c));
    if 0 < g < 0x80 && f != UTF8 {
      assert g == c as Glyph;
    }
  }

  lemma {:induction false} OverloadsAgree(f: Format, d: Decoder, s: Text)
    requires f == UTF8 || NoLongAscii(d, s)
    ensures Output(ByteWriter(f), d, s) == GlyphsOut(f, Output(DecodeStep, d, s))
    decreases |s|
  {
    if s != [] {
      var d' := Advance(d, s[0]);
      StepAgrees(f, d, s[0]);
      OverloadsAgree(f, d', s[1..]);
      FlatMapConcat(GlyphWriter(f), DecodeStep(d, s[0]).1, Output(DecodeStep, d', s[1..]));
    }
  }

  // The UTF8 format is decoding and encoding again, for every byte string, well
  // formed or not; so writing its own output once more changes nothing.
  lemma Utf8FormatCleans(s: Text)
    ensures BytesOut(UTF8, s) == Clean(s)
    ensures BytesOut(UTF8, BytesOut(UTF8, s)) == BytesOut(UTF8, s)
  {
    OverloadsAgree(UTF8, FRESH, s);
    MapsAgree(GlyphWriter(UTF8), EncodeGlyph, Decode(s));
    OverloadsAgree(UTF8, FRESH, Clean(s));
    MapsAgree(GlyphWriter(UTF8), EncodeGlyph, Decode(Clean(s)));
    CleanIsIdempotent(s);
  }

  // ----- HTML: what is ASCII -----

  lemma {:induction false} HexIsAscii(g: Glyph)
    ensures forall i :: 0 <= i < |Hex(g)| ==> 0x30 <= Hex(g)[i] <= 0x66 && IsHexDigit(Hex(g)[i])
    decreases g as int
  {
    if g >= 0x10 {
      HexIsAscii(g / 0x10);
    }
  }

  lemma EntityMarkup(g: Glyph)
    ensures IsAscii(Entity(g)) && LT !in Entity(g) && GT !in Entity(g)
  {
    hide Hex;
    HexIsAscii(g);
  }

  // One glyph's markup: 7-bit, and in element content free of angle brackets.
  lemma GlyphMarkup(f: Format, g: Glyph)
    requires f == HTML || f == HTMLContent
    ensures IsAscii(GlyphOut(f, g))
    ensures f == HTMLContent ==> LT !in GlyphOut(f, g) && GT !in GlyphOut(f, g)
  {
    if g >= 0x80 {
      EntityMarkup(g);
    }
  }

  // The u32 overload writes nothing but ASCII in both HTML formats, and no
  // angle brackets at all in element content.
  lemma {:induction false} HtmlGlyphsMarkup(f: Format, gs: seq<Glyph>)
    requires f == HTML || f == HTMLContent
    ensures IsAscii(GlyphsOut(f, gs))
    ensures f == HTMLContent ==> LT !in GlyphsOut(f, gs) && GT !in GlyphsOut(f, gs)
  {
    if gs != [] {
      GlyphMarkup(f, gs[0]);
      HtmlGlyphsMarkup(f, gs[1..]);
    }
  }

  // Neither does the byte overload write angle brackets in element content, whatever
  // the bytes.
  lemma {:induction false} ContentHasNoAngles(d: Decoder, s: Text)
    ensures var t := Output(ByteWriter(HTMLContent), d, s); LT !in t && GT !in t
    decreases |s|
  {
    if s != [] {
      if Emitted(Advance(d, s[0])) >= 0x80 {
        GlyphMarkup(HTMLContent, Emitted(Advance(d, s[0])));
      }
      ContentHasNoAngles(Advance(d, s[0]), s[1..]);
    }
  }

  // ----- HTML: what is left alone, and what is not -----

  // Characters that need no escape: ASCII but NUL and '&', and in element content
  // neither angle bracket.
  predicate NeedsNoEscape(f: Format, c: int) {
    0 < c < 0x80 && c != 0x26 && (f == HTMLContent ==> c != 0x3c && c != 0x3e)
  }

  function AsBytes(gs: seq<Glyph>): Text
    requires forall i :: 0 <= i < |gs| ==> gs[i] < 0x100
  {
    seq(|gs|, i requires 0 <= i < |gs| => gs[i] as Byte)
  }

  // Text of such characters is written as it is: markup in HTML, tags and all, and plain
  // words in element content.
  lemma {:induction false} PlainGlyphs(f: Format, gs: seq<Glyph>)
    requires f == HTML || f == HTMLContent
    requires forall i :: 0 <= i < |gs| ==> gs[i] < 0x80 && NeedsNoEscape(f, gs[i] as int)
    ensures GlyphsOut(f, gs) == AsBytes(gs)
  {
    if gs != [] {
      PlainGlyphs(f, gs[1..]);
      assert AsBytes(gs) == [gs[0] as Byte] + AsBytes(gs[1..]);
    }
  }

  lemma {:induction false} AsciiEncodes(gs: seq<Glyph>)
    requires forall i :: 0 <= i < |gs| ==> gs[i] < 0x80
    ensures Encode(gs) == AsBytes(gs)
  {
    if gs != [] {
      AsciiEncodes(gs[1..]);
      assert AsBytes(gs) == [gs[0] as Byte] + AsBytes(gs[1..]);
    }
  }

  lemma {:induction false} PlainBytes(f: Format, s: Text)
    requires f == HTML || f == HTMLContent
    requires forall i :: 0 <= i < |s| ==> NeedsNoEscape(f, s[i] as int)
    ensures BytesOut(f, s) == s
  {
    var gs := seq(|s|, i requires 0 <= i < |s| => s[i] as Glyph);
    assert AsBytes(gs) == s;
    AsciiEncodes(gs);
    EncodedStreamsAlike(f, gs);
    PlainGlyphs(f, gs);
  }

  // All others are escaped, the same in both overloads.
  lemma {:induction false} EscapedGlyphs(f: Format, g: Glyph)
    requires f == HTML || f == HTMLContent
    ensures GlyphsOut(f, [0x26]) == [0x26, 0x61, 0x6d, 0x70, 0x3b]
    ensures GlyphsOut(HTMLContent, [0x3c]) == [0x26, 0x6c, 0x74, 0x3b]
    ensures GlyphsOut(HTMLContent, [0x3e]) == [0x26, 0x72, 0x74, 0x3b]
    ensures g >= 0x80 ==> GlyphsOut(f, [g]) == [0x26, 0x23, 0x78] + Hex(g) + [0x3b]
  {
    FlatMapOne(GlyphWriter(f), 0x26 as Glyph);
    FlatMapOne(GlyphWriter(HTMLContent), 0x3c as Glyph);
    FlatMapOne(GlyphWriter(HTMLContent), 0x3e as Glyph);
    FlatMapOne(GlyphWriter(f), g);
  }

  lemma {:induction false} EscapedBytes(f: Format, g: Glyph)
    requires f == HTML || f == HTMLContent
    ensures BytesOut(f, [0x26]) == [0x26, 0x61, 0x6d, 0x70, 0x3b]
    ensures BytesOut(HTMLContent, [0x3c]) == [0x26, 0x6c, 0x74, 0x3b]
    ensures BytesOut(HTMLContent, [0x3e]) == [0x26, 0x72, 0x74, 0x3b]
    ensures 0x80 <= g < 0x11_0000 ==> BytesOut(f, EncodeGlyph(g)) == [0x26, 0x23, 0x78] + Hex(g) + [0x3b]
  {
    hide BytesOut, GlyphsOut, EncodeGlyph, Hex;
    EscapedGlyphs(f, g);
    OneGlyphAlike(f, 0x26);
    OneGlyphAlike(HTMLContent, 0x3c);
    OneGlyphAlike(HTMLContent, 0x3e);
    AsciiAlone();
    if 0x80 <= g < 0x11_0000 {
      OneGlyphAlike(f, g);
    }
  }

  lemma AsciiAlone()
    ensures EncodeGlyph(0x26) == [0x26] && EncodeGlyph(0x3c) == [0x3c] && EncodeGlyph(0x3e) == [0x3e]
  {
  }

  lemma OneGlyphAlike(f: Format, g: Glyph)
    requires 0 < g < 0x11_0000 && f != Verbatim
    ensures BytesOut(f, EncodeGlyph(g)) == GlyphsOut(f, [g])
  {
    FlatMapOne(EncodeGlyph, g);
    EncodedStreamsAlike(f, [g]);
  }

  const DIGITS: Text :=
    [0x30, 0x31, 0x32, 0x33, 0x34, 0x35, 0x36, 0x37, 0x38, 0x39, 0x61, 0x62, 0x63, 0x64, 0x65, 0x66]

  // The digits of %x, from the last one on: in lower case, and none to spare.
  lemma {:induction false} HexDigits(g: Glyph)
    ensures g < 0x10 ==> Hex(g) == [DIGITS[g]]
    ensures g >= 0x10 ==> Hex(g) == Hex(g / 0x10) + [DIGITS[g % 0x10]]
    ensures g > 0 ==> Hex(g)[0] != 0x30
    decreases g as int
  {
    if g >= 0x10 {
      HexDigits(g / 0x10);
    }
  }

  // A glyph below 0x80 that took more than one byte comes out as a raw byte
  // above it.
  lemma {:induction false} LongAsciiEscapes(f: Format, d: Decoder, s: Text)
    requires f == HTML || f == HTMLContent
    requires !NoLongAscii(d, s)
    ensures !IsAscii(Output(ByteWriter(f), d, s))
    decreases |s|
  {
    var d' := Advance(d, s[0]);
    var first := ByteStep(f, d, s[0]).1;
    var rest := Output(ByteWriter(f), d', s[1..]);
    assert Output(ByteWriter(f), d, s) == first + rest;
    if 0 < Emitted(d') < 0x80 && s[0] >= 0x80 {
      assert first == [s[0]];
      assert (first + rest)[0] == s[0];
    } else {
      LongAsciiEscapes(f, d', s[1..]);
      var i :| 0 <= i < |rest| && rest[i] >= 0x80;
      assert (first + rest)[|first| + i] == rest[i];
    }
  }

  // On arbitrary bytes the byte overload agrees with the u32 one, and stays
  // within ASCII, exactly when no ASCII glyph arrives in a longer form.
  lemma HtmlBytesAgree(f: Format, s: Text)
    requires f == HTML || f == HTMLContent
    ensures BytesOut(f, s) == GlyphsOut(f, Decode(s)) <==> NoLongAscii(FRESH, s)
    ensures IsAscii(BytesOut(f, s)) <==> NoLongAscii(FRESH, s)
  {
    HtmlGlyphsMarkup(f, Decode(s));
    if NoLongAscii(FRESH, s) {
      OverloadsAgree(f, FRESH, s);
    } else {
      LongAsciiEscapes(f, FRESH, s);
    }
  }

  // The two-byte form of '&' is such a string: it is written raw.
  lemma LongAmpersand()
    ensures BytesOut(HTML, [0xc0, 0xa6]) == [0xa6]
    ensures GlyphsOut(HTML, Decode([0xc0, 0xa6])) == AMP_ESCAPE
  {
    var d := Decoder(0, 1, true);
    assert [0xc0, 0xa6] == [0xc0] + [0xa6];
    assert Advance(FRESH, 0xc0) == d && Advance(d, 0xa6) == Decoder(0x26, 0, true);
    assert ByteStep(HTML, FRESH, 0xc0) == (d, []) && DecodeStep(FRESH, 0xc0) == (d, []);
    assert ByteStep(HTML, d, 0xa6).1 == [0xa6] && DecodeStep(d, 0xa6).1 == [0x26];
    MachineConcat(ByteWriter(HTML), FRESH, [0xc0], [0xa6]);
    MachineConcat(DecodeStep, FRESH, [0xc0], [0xa6]);
    MachineOne(ByteWriter(HTML), FRESH, 0xc0);
    MachineOne(ByteWriter(HTML), d, 0xa6);
    MachineOne(DecodeStep, FRESH, 0xc0);
    MachineOne(DecodeStep, d, 0xa6);
    FlatMapOne(GlyphWriter(HTML), 0x26);
  }

  // ----- Both overloads on encoder output -----

  lemma {:induction false} NoLongAsciiConcat(d: Decoder, s: Text, t: Text)
    ensures NoLongAscii(d, s + t) <==> NoLongAscii(d, s) && NoLongAscii(Final(DecodeStep, d, s), t)
    decreases |s|
  {
    if s == [] {
      assert s + t == t;
    } else {
      NoLongAsciiConcat(Advance(d, s[0]), s[1..], t);
      assert (s + t)[1..] == s[1..] + t;
    }
  }

  lemma {:induction false} LargeGlyphsOnly(d: Decoder, s: Text)
    requires forall i :: 0 <= i < |Output(DecodeStep, d, s)| ==> Output(DecodeStep, d, s)[i] >= 0x80
    ensures NoLongAscii(d, s)
    decreases |s|
  {
    if s != [] {
      var first := DecodeStep(d, s[0]).1;
      var rest := Output(DecodeStep, Advance(d, s[0]), s[1..]);
      assert Output(DecodeStep, d, s) == first + rest;
      assert forall i :: 0 <= i < |rest| ==> (first + rest)[|first| + i] == rest[i];
      LargeGlyphsOnly(Advance(d, s[0]), s[1..]);
      if first != [] {
        assert (first + rest)[0] == first[0];
      }
    }
  }

  lemma {:induction false} EncodedHasNoLongAscii(gs: seq<Glyph>, d: Decoder)
    requires AllEncodable(gs) && d.remaining == 0
    ensures NoLongAscii(d, Encode(gs))
  {
    if gs != [] {
      var e := EncodeGlyph(gs[0]);
      GlyphRoundTrip(gs[0], d);
      if gs[0] < 0x80 {
        assert e[1..] == [];
      } else {
        LargeGlyphsOnly(d, e);
      }
      EncodedHasNoLongAscii(gs[1..], Final(DecodeStep, d, e));
      NoLongAsciiConcat(d, e, Encode(gs[1..]));
    }
  }

  // Streaming a string as bytes or as glyphs makes no difference.
  lemma EncodedStreamsAlike(f: Format, gs: seq<Glyph>)
    requires AllEncodable(gs) && f != Verbatim
    ensures BytesOut(f, Encode(gs)) == GlyphsOut(f, gs)
  {
    EncodedHasNoLongAscii(gs, FRESH);
    OverloadsAgree(f, FRESH, Encode(gs));
    RoundTrip(gs);
  }

  // ----- Splitting a string over several calls -----

  lemma GlyphsSplit(f: Format, gs: seq<Glyph>, hs: seq<Glyph>)
    ensures GlyphsOut(f, gs + hs) == GlyphsOut(f, gs) + GlyphsOut(f, hs)
  {
    FlatMapConcat(GlyphWriter(f), gs, hs);
  }

  // Decoder states that cannot be told apart by what follows.
  predicate Alike(d: Decoder, e: Decoder) {
    d.remaining == e.remaining && (d.remaining == 0 || d == e || (!d.valid && !e.valid))
  }

  lemma {:induction false} AlikeOutput(f: Format, d: Decoder, e: Decoder, s: Text)
    requires Alike(d, e)
    ensures Output(ByteWriter(f), d, s) == Output(ByteWriter(f), e, s)
    decreases |s|
  {
    if s != [] {
      AlikeOutput(f, Advance(d, s[0]), Advance(e, s[0]), s[1..]);
    }
  }

  // A byte string may be cut after a exactly when the decoder owes nothing there:
  // each call starts with a fresh decoder.
  lemma BytesSplit(f: Format, a: Text)
    requires f != Verbatim
    ensures (forall b :: BytesOut(f, a + b) == BytesOut(f, a) + BytesOut(f, b))
            <==> Final(DecodeStep, FRESH, a).remaining == 0
  {
    var d := Final(ByteWriter(f), FRESH, a);
    SameStates(f, FRESH, a);
    if d.remaining == 0 {
      forall b ensures BytesOut(f, a + b) == BytesOut(f, a) + BytesOut(f, b) {
        MachineConcat(ByteWriter(f), FRESH, a, b);
        AlikeOutput(f, d, FRESH, b);
      }
    } else {
      var b: Text := [0x41];
      MachineConcat(ByteWriter(f), FRESH, a, b);
      MachineOne(ByteWriter(f), d, 0x41);
      MachineOne(ByteWriter(f), FRESH, 0x41);
      assert BytesOut(f, b) == b;
      InterruptedOutput(f, d);
      assert BytesOut(f, a + b) != BytesOut(f, a) + BytesOut(f, b);
    }
  }

  lemma {:induction false} SameStates(f: Format, d: Decoder, s: Text)
    ensures Final(ByteWriter(f), d, s) == Final(DecodeStep, d, s)
    decreases |s|
  {
    if s != [] {
      SameStates(f, Advance(d, s[0]), s[1..]);
    }
  }

  // A letter in the middle of a sequence is not written as itself.
  lemma InterruptedOutput(f: Format, d: Decoder)
    requires f != Verbatim && d.remaining > 0
    ensures ByteStep(f, d, 0x41).1 != [0x41]
  {
    EntityLength(REPLACEMENT);
  }

  // ----- Reading HTML back -----

  predicate IsHexDigit(c: Byte) {
    0x30 <= c <= 0x39 || 0x61 <= c <= 0x66
  }

  function HexValue(c: Byte): Glyph
    requires IsHexDigit(c)
  {
    if c <= 0x39 then (c - 0x30) as Glyph else (c - 0x57) as Glyph
  }

  // Reads hexadecimal digits from the front of s, on top of those read before.
  function ParseHex(s: Text, value: Glyph): (r: (Glyph, Text))
    ensures |r.1| <= |s|
    decreases |s|
  {
    if s == [] || !IsHexDigit(s[0]) then (value, s)
    else ParseHex(s[1..], ((value as int * 0x10) % 0x1_0000_0000) as Glyph + HexValue(s[0]))
  }

  // The reader of the code's own escapes: &amp; &lt; &rt; and &#x...;.
  function Unescape(s: Text): seq<Glyph>
    decreases |s|
  {
    if s == [] then []
    else if AMP_ESCAPE <= s then [AMP as Glyph] + Unescape(s[5..])
    else if LT_ESCAPE <= s then [LT as Glyph] + Unescape(s[4..])
    else if GT_ESCAPE <= s then [GT as Glyph] + Unescape(s[4..])
    else if ENTITY_OPEN <= s then
      var (value, rest) := ParseHex(s[3..], 0);
      (if rest != [] && rest[0] == SEMICOLON then [value] + Unescape(rest[1..])
       else [AMP as Glyph] + Unescape(s[1..]))
    else [s[0] as Glyph] + Unescape(s[1..])
  }

  lemma ParseDigit(n: Glyph, value: Glyph, rest: Text)
    requires n < 0x10 && value < 0x1000_0000
    ensures ParseHex([HexDigit(n)] + rest, value) == ParseHex(rest, value * 0x10 + n)
  {
    assert ([HexDigit(n)] + rest)[1..] == rest;
  }

  lemma {:induction false} HexRoundTrip(g: Glyph, rest: Text)
    ensures ParseHex(Hex(g) + rest, 0) == ParseHex(rest, g)
    decreases g as int
  {
    if g < 0x10 {
      ParseDigit(g, 0, rest);
    } else {
      var digit := [HexDigit(g % 0x10)];
      assert Hex(g) + rest == Hex(g / 0x10) + (digit + rest);
      HexRoundTrip(g / 0x10, digit + rest);
      ParseDigit(g % 0x10, g / 0x10, rest);
    }
  }

  // Reading an entity whose digits spell g and end before t.
  lemma UnescapeEntity(digits: Text, g: Glyph, t: Text)
    requires ParseHex(digits, 0) == (g, [SEMICOLON] + t)
    ensures Unescape(ENTITY_OPEN + digits) == [g] + Unescape(t)
  {
    var s := ENTITY_OPEN + digits;
    assert s[3..] == digits && s[1] == HASH;
    assert ([SEMICOLON] + t)[1..] == t;
  }

  lemma EntityUnescapes(g: Glyph, t: Text)
    ensures Unescape(Entity(g) + t) == [g] + Unescape(t)
  {
    hide Unescape, Hex;
    var close := [SEMICOLON] + t;
    HexRoundTrip(g, close);
    assert ParseHex(close, g) == (g, close);
    UnescapeEntity(Hex(g) + close, g, t);
    assert Entity(g) + t == ENTITY_OPEN + (Hex(g) + close);
  }

  lemma AsciiUnescapes(f: Format, c: Byte, t: Text)
    ensures Unescape(AsciiOut(f, c) + t) == [c as Glyph] + Unescape(t)
  {
    var out := AsciiOut(f, c);
    var s := out + t;
    assert s[|out|..] == t && s[0] == out[0];
    if |out| > 1 {
      assert s[1] == out[1];
      assert AMP_ESCAPE <= s ==> s[1] == AMP_ESCAPE[1];
      assert LT_ESCAPE <= s ==> s[1] == LT_ESCAPE[1];
      assert out <= s;
    }
  }

  lemma GlyphUnescapes(f: Format, g: Glyph, t: Text)
    requires f == HTML || f == HTMLContent
    ensures Unescape(GlyphOut(f, g) + t) == [g] + Unescape(t)
  {
    if g < 0x80 {
      AsciiUnescapes(f, g as Byte, t);
    } else {
      EntityUnescapes(g, t);
    }
  }

  // Escaping loses nothing, whatever the glyphs: all 32-bit values come back.
  lemma {:induction false} HtmlRoundTrip(f: Format, gs: seq<Glyph>)
    requires f == HTML || f == HTMLContent
    ensures Unescape(GlyphsOut(f, gs)) == gs
  {
    if gs != [] {
      GlyphUnescapes(f, gs[0], GlyphsOut(f, gs[1..]));
      HtmlRoundTrip(f, gs[1..]);
    }
  }
}
