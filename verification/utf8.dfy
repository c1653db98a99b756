// The byte-at-a-time decoder and the encoder of src/lib/utils.cpp, and the two
// whole-string functions of src/lib/request.cpp built on them.
module Utf8 {
  import opened Bytes

  const REPLACEMENT: Glyph := 0xfffd
  const GLYPH_LIMIT: Glyph := 0x110000

  // ----- Specification: the decoder, by ranges of byte values -----

  // The value of a decoder state between two bytes.
  datatype Decoder = Decoder(glyph: Glyph, remaining: nat, valid: bool)

  const FRESH := Decoder(0, 0, false)

  predicate IsContinuation(b: Byte) {
    0x80 <= b < 0xc0
  }

  // glyph shifted left by six, with the low six bits of b in their place.
  function Joined(glyph: Glyph, b: Byte): Glyph {
    ((glyph as int * 0x40) % 0x1_0000_0000 + b as int % 0x40) as Glyph
  }

  function Advance(d: Decoder, b: Byte): (d': Decoder)
    ensures d.remaining > 0 ==> d'.remaining == d.remaining - 1
    ensures d.remaining == 0 ==> d'.remaining <= 3
  {
    if d.remaining > 0 then
      if d.valid && IsContinuation(b) then Decoder(Joined(d.glyph, b), d.remaining - 1, true)
      else Decoder(d.glyph, d.remaining - 1, false)
    else if b < 0x80 then Decoder(b as Glyph, 0, true)
    else if b < 0xc0 || 0xf8 <= b then Decoder(d.glyph, 0, false)
    else if b < 0xe0 then Decoder((b - 0xc0) as Glyph, 1, true)
    else if b < 0xf0 then Decoder((b - 0xe0) as Glyph, 2, true)
    else Decoder((b - 0xf0) as Glyph, 3, true)
  }

  // What a step hands back, given the state it leaves behind.
  function Emitted(d: Decoder): Glyph {
    if d.remaining > 0 then 0 else if d.valid then d.glyph else REPLACEMENT
  }

  // The decoder as a machine; glyph 0 is dropped.
  function DecodeStep(d: Decoder, b: Byte): (Decoder, seq<Glyph>) {
    var d' := Advance(d, b);
    (d', if Emitted(d') != 0 then [Emitted(d')] else [])
  }

  function Decode(s: Text): seq<Glyph> {
    Output(DecodeStep, FRESH, s)
  }

  // ----- Specification: the encoder -----

  // A continuation byte carrying the low six bits of g.
  function Tail(g: Glyph): Byte {
    (0x80 + g % 0x40) as Byte
  }

  function EncodeGlyph(g: Glyph): (t: Text)
    ensures |t| <= 4
  {
    if g < 0x80 then [g as Byte]
    else if g < 0x800 then [(0xc0 + g / 0x40) as Byte, Tail(g)]
    else if g < 0x10000 then [(0xe0 + g / 0x1000) as Byte, Tail(g / 0x40), Tail(g)]
    else if g < GLYPH_LIMIT then [(0xf0 + g / 0x40000) as Byte, Tail(g / 0x1000), Tail(g / 0x40), Tail(g)]
    else []
  }

  function Encode(gs: seq<Glyph>): Text {
    FlatMap(EncodeGlyph, gs)
  }

  // A glyph that survives the trip through bytes: not 0, and below 0x110000.
  predicate Encodable(g: Glyph) {
    0 < g < GLYPH_LIMIT
  }

  predicate AllEncodable(gs: seq<Glyph>) {
    forall i :: 0 <= i < |gs| ==> Encodable(gs[i])
  }

  // ----- The encoder against the table of RFC 3629, section 3 -----

  // The byte patterns of the table: a first byte, which fixes the length, and
  // continuation bytes after it.
  predicate IsSequence(t: Text) {
    && 1 <= |t| <= 4
    && (|t| == 1 ==> t[0] < 0x80)
    && (|t| == 2 ==> 0xc0 <= t[0] < 0xe0)
    && (|t| == 3 ==> 0xe0 <= t[0] < 0xf0)
    && (|t| == 4 ==> 0xf0 <= t[0] < 0xf8)
    && (forall i :: 1 <= i < |t| ==> IsContinuation(t[i]))
  }

  // The number the free bits of the table's patterns spell.
  function Payload(t: Text): int
    requires IsSequence(t)
  {
    var free := match |t| case 1 => 0 case 2 => 0xc0 case 3 => 0xe0 case _ => 0xf0;
    Spelled(t[0] as int - free, t[1..])
  }

  // high, followed by six bits from each byte of t.
  function Spelled(high: int, t: Text): int
    decreases |t|
  {
    if t == [] then high else Spelled(high * 0x40 + (t[0] as int - 0x80), t[1..])
  }

  lemma EncodingIsSequence(g: Glyph)
    requires g < GLYPH_LIMIT
    ensures IsSequence(EncodeGlyph(g))
  {
  }

  // EncodeGlyph gives a sequence of the table that spells g.
  lemma EncodingSpells(g: Glyph)
    requires g < GLYPH_LIMIT
    ensures IsSequence(EncodeGlyph(g)) && Payload(EncodeGlyph(g)) == g as int
  {
    EncodingIsSequence(g);
    var e := EncodeGlyph(g);
    if g < 0x80 {
      assert e[1..] == [];
    } else if g < 0x800 {
      SpelledTail(g, []);
      assert e[1..] == [Tail(g)] + [];
    } else if g < 0x10000 {
      SpelledTwo(g);
      assert e[1..] == [Tail(g / 0x40), Tail(g)];
    } else {
      SpelledTail(g / 0x1000, [Tail(g / 0x40), Tail(g)]);
      SpelledTwo(g);
      assert e[1..] == [Tail(g / 0x1000)] + [Tail(g / 0x40), Tail(g)];
    }
  }

  lemma SpelledTwo(g: Glyph)
    ensures Spelled((g / 0x1000) as int, [Tail(g / 0x40), Tail(g)]) == g as int
  {
    hide Spelled, Tail;
    NothingSpelled(g as int);
    SpelledTail(g, []);
    SpelledTail(g / 0x40, [Tail(g)]);
    assert [Tail(g / 0x40)] + [Tail(g)] == [Tail(g / 0x40), Tail(g)];
    assert [Tail(g)] + [] == [Tail(g)];
  }

  lemma NothingSpelled(high: int)
    ensures Spelled(high, []) == high
  {
  }

  lemma SpelledTail(g: Glyph, rest: Text)
    ensures Spelled((g / 0x40) as int, [Tail(g)] + rest) == Spelled(g as int, rest)
  {
    assert ([Tail(g)] + rest)[1..] == rest;
  }

  // The free bits determine high and the bytes after it.
  lemma {:induction false} SpelledInjective(high: int, t: Text, high': int, t': Text)
    requires |t| == |t'| && Spelled(high, t) == Spelled(high', t')
    requires forall i :: 0 <= i < |t| ==> IsContinuation(t[i]) && IsContinuation(t'[i])
    ensures high == high' && t == t'
    decreases |t|
  {
    if t != [] {
      SpelledInjective(high * 0x40 + (t[0] as int - 0x80), t[1..], high' * 0x40 + (t'[0] as int - 0x80), t'[1..]);
      assert t == [t[0]] + t[1..] && t' == [t'[0]] + t'[1..];
    }
  }

  lemma PayloadBound(t: Text)
    requires IsSequence(t) && |t| <= 3
    ensures Payload(t) < match |t| case 1 => 0x80 case 2 => 0x800 case _ => 0x10000
  {
    if |t| == 1 {
      assert t[1..] == [];
    } else if |t| == 2 {
      assert IsContinuation(t[1]) && t[1..][1..] == [];
      assert Payload(t) == Spelled((t[0] as int - 0xc0) * 0x40 + (t[1] as int - 0x80), []);
    } else {
      assert IsContinuation(t[1]) && IsContinuation(t[2]);
      var high := (t[0] as int - 0xe0) * 0x40 + (t[1] as int - 0x80);
      assert t[1..][1..] == t[2..];
      assert t[2..][1..] == [];
      assert Payload(t) == Spelled(high, t[2..]);
    }
  }

  // EncodeGlyph is the one shortest sequence of the table that spells g.
  lemma ShortestForm(g: Glyph, t: Text)
    requires g < GLYPH_LIMIT
    ensures IsSequence(EncodeGlyph(g)) && Payload(EncodeGlyph(g)) == g as int
    ensures IsSequence(t) && Payload(t) == g as int ==> |EncodeGlyph(g)| < |t| || EncodeGlyph(g) == t
  {
    EncodingSpells(g);
    var e := EncodeGlyph(g);
    if IsSequence(t) && Payload(t) == g as int {
      if |t| <= 3 {
        PayloadBound(t);
      }
      if |t| == |e| {
        var free := match |t| case 1 => 0 case 2 => 0xc0 case 3 => 0xe0 case _ => 0xf0;
        SpelledInjective(t[0] as int - free, t[1..], e[0] as int - free, e[1..]);
        assert t == [t[0]] + t[1..] && e == [e[0]] + e[1..];
      }
    }
  }

  // Glyphs of 0x110000 and above have no encoding, and all others have one.
  lemma {:induction false} NoEncoding(g: Glyph)
    ensures EncodeGlyph(g) == [] <==> g >= 0x11_0000
  {
  }

  // ----- Round trip -----

  // One byte read.
  lemma ReadOne(b: Byte, rest: Text, d: Decoder)
    ensures Final(DecodeStep, d, [b] + rest) == Final(DecodeStep, DecodeStep(d, b).0, rest)
    ensures Output(DecodeStep, d, [b] + rest) == DecodeStep(d, b).1 + Output(DecodeStep, DecodeStep(d, b).0, rest)
  {
    assert ([b] + rest)[1..] == rest;
  }

  // A continuation byte shifts six more bits of g into the state.
  lemma TailStep(g: Glyph, rest: Text, d: Decoder)
    requires d.glyph == g / 0x40 && d.remaining > 0 && d.valid && g != 0
    ensures var d' := Decoder(g, d.remaining - 1, true);
            && Final(DecodeStep, d, [Tail(g)] + rest) == Final(DecodeStep, d', rest)
            && Output(DecodeStep, d, [Tail(g)] + rest) ==
               (if d.remaining == 1 then [g] else []) + Output(DecodeStep, d', rest)
  {
    hide Output, Final, Advance, Tail;
    ReadOne(Tail(g), rest, d);
    TailAdvances(g, d);
  }

  lemma TailAdvances(g: Glyph, d: Decoder)
    requires d.glyph == g / 0x40 && d.remaining > 0 && d.valid
    ensures Advance(d, Tail(g)) == Decoder(g, d.remaining - 1, true)
  {
    assert g / 0x40 < 0x400_0000;
  }

  // d reads e as the glyph g, and is at a boundary then.
  ghost predicate Reads(d: Decoder, e: Text, g: Glyph) {
    Output(DecodeStep, d, e) == [g] && Final(DecodeStep, d, e) == Decoder(g, 0, true)
  }

  // The last one, two and three bytes of an encoding.
  lemma LastOne(g: Glyph)
    requires g != 0
    ensures Reads(Decoder(g / 0x40, 1, true), [Tail(g)], g)
  {
    TailStep(g, [], Decoder(g / 0x40, 1, true));
    MachineNone(DecodeStep, Decoder(g, 0, true));
    assert [Tail(g)] + [] == [Tail(g)];
  }

  lemma LastTwo(g: Glyph)
    requires g >= 0x800
    ensures Reads(Decoder(g / 0x1000, 2, true), [Tail(g / 0x40), Tail(g)], g)
  {
    hide Output, Final, Tail;
    TailStep(g / 0x40, [Tail(g)], Decoder(g / 0x1000, 2, true));
    LastOne(g);
    assert [Tail(g / 0x40)] + [Tail(g)] == [Tail(g / 0x40), Tail(g)];
  }

  lemma LastThree(g: Glyph)
    requires g >= 0x10000
    ensures Reads(Decoder(g / 0x40000, 3, true), [Tail(g / 0x1000), Tail(g / 0x40), Tail(g)], g)
  {
    hide Output, Final, Tail;
    TailStep(g / 0x1000, [Tail(g / 0x40), Tail(g)], Decoder(g / 0x40000, 3, true));
    LastTwo(g);
    assert [Tail(g / 0x1000)] + [Tail(g / 0x40), Tail(g)] == [Tail(g / 0x1000), Tail(g / 0x40), Tail(g)];
  }

  // The first byte takes the decoder from a boundary to where the rest is read.
  lemma FirstByte(g: Glyph, d: Decoder)
    requires Encodable(g) && d.remaining == 0
    ensures var d' := Advance(d, EncodeGlyph(g)[0]);
            d' == if g < 0x80 then Decoder(g, 0, true)
                  else if g < 0x800 then Decoder(g / 0x40, 1, true)
                  else if g < 0x10000 then Decoder(g / 0x1000, 2, true)
                  else Decoder(g / 0x40000, 3, true)
  {
  }

  // One encoded glyph takes the decoder from any boundary to a boundary and
  // yields exactly that glyph.
  lemma GlyphRoundTrip(g: Glyph, d: Decoder)
    requires Encodable(g) && d.remaining == 0
    ensures Output(DecodeStep, d, EncodeGlyph(g)) == [g]
    ensures Final(DecodeStep, d, EncodeGlyph(g)) == Decoder(g, 0, true)
  {
    hide Output, Final, Tail, Advance;
    var e := EncodeGlyph(g);
    FirstByte(g, d);
    assert e == [e[0]] + e[1..];
    ReadOne(e[0], e[1..], d);
    if g < 0x80 {
      assert e[1..] == [];
      MachineNone(DecodeStep, Decoder(g, 0, true));
    } else if g < 0x800 {
      LastOne(g);
      assert e[1..] == [Tail(g)];
    } else if g < 0x10000 {
      LastTwo(g);
      assert e[1..] == [Tail(g / 0x40), Tail(g)];
    } else {
      LastThree(g);
      assert e[1..] == [Tail(g / 0x1000), Tail(g / 0x40), Tail(g)];
    }
  }

  lemma {:induction false} BoundaryRoundTrip(gs: seq<Glyph>, d: Decoder)
    requires AllEncodable(gs) && d.remaining == 0
    ensures Output(DecodeStep, d, Encode(gs)) == gs
    ensures Final(DecodeStep, d, Encode(gs)).remaining == 0
  {
    if gs != [] {
      var e := EncodeGlyph(gs[0]);
      GlyphRoundTrip(gs[0], d);
      MachineConcat(DecodeStep, d, e, Encode(gs[1..]));
      BoundaryRoundTrip(gs[1..], Final(DecodeStep, d, e));
    }
  }

  lemma RoundTrip(gs: seq<Glyph>)
    requires AllEncodable(gs)
    ensures Decode(Encode(gs)) == gs
  {
    BoundaryRoundTrip(gs, FRESH);
  }

  // ----- Resynchronisation after garbage -----

  ghost predicate IsSuffix<T>(tail: seq<T>, whole: seq<T>) {
    |tail| <= |whole| && whole[|whole| - |tail|..] == tail
  }

  // Continuation bytes pay off what is owed, and leave a boundary alone.
  lemma {:induction false} Swallowed(t: Text, d: Decoder)
    requires forall i :: 0 <= i < |t| ==> IsContinuation(t[i])
    ensures Final(DecodeStep, d, t).remaining == if |t| <= d.remaining then d.remaining - |t| else 0
  {
    if t != [] {
      Swallowed(t[1..], Advance(d, t[0]));
    }
  }

  // So does an encoded glyph met while bytes are owed.
  lemma GlyphSwallowed(g: Glyph, d: Decoder)
    requires Encodable(g)
    ensures Final(DecodeStep, d, EncodeGlyph(g)).remaining ==
            if |EncodeGlyph(g)| <= d.remaining then d.remaining - |EncodeGlyph(g)| else 0
  {
    var e := EncodeGlyph(g);
    if d.remaining == 0 {
      GlyphRoundTrip(g, d);
    } else {
      EncodingSpells(g);
      Swallowed(e[1..], Advance(d, e[0]));
    }
  }

  // At most as many glyphs are lost as bytes were owed.
  lemma {:induction false} Resync(gs: seq<Glyph>, d: Decoder) returns (lost: nat)
    requires AllEncodable(gs)
    ensures lost <= d.remaining && lost <= |gs|
    ensures IsSuffix(gs[lost..], Output(DecodeStep, d, Encode(gs)))
  {
    if d.remaining == 0 {
      BoundaryRoundTrip(gs, d);
      lost := 0;
    } else if gs == [] {
      lost := 0;
    } else {
      var e := EncodeGlyph(gs[0]);
      MachineConcat(DecodeStep, d, e, Encode(gs[1..]));
      GlyphSwallowed(gs[0], d);
      var rest := Resync(gs[1..], Final(DecodeStep, d, e));
      lost := rest + 1;
      assert gs[lost..] == gs[1..][rest..];
    }
  }

  lemma {:induction false} RemainingBounded(s: Text, d: Decoder)
    requires d.remaining <= 3
    ensures Final(DecodeStep, d, s).remaining <= 3
  {
    if s != [] {
      RemainingBounded(s[1..], Advance(d, s[0]));
    }
  }

  // Whatever bytes come first, at most three of the glyphs after them are lost.
  lemma GarbagePrefix(s: Text, gs: seq<Glyph>)
    requires AllEncodable(gs)
    ensures exists lost: nat :: lost <= 3 && lost <= |gs| && IsSuffix(gs[lost..], Decode(s + Encode(gs)))
  {
    MachineConcat(DecodeStep, FRESH, s, Encode(gs));
    RemainingBounded(s, FRESH);
    var lost := Resync(gs, Final(DecodeStep, FRESH, s));
    assert IsSuffix(gs[lost..], Decode(s + Encode(gs)));
  }

  // Three is the bound: a lone four-byte start swallows three one-byte glyphs.
  lemma GarbageBoundIsTight()
    ensures Decode([0xf0] + Encode([0x61, 0x62, 0x63])) == [REPLACEMENT]
  {
    var gs: seq<Glyph> := [0x61, 0x62, 0x63];
    var t: Text := [0x61, 0x62, 0x63];
    assert Encode(gs) == t by {
      assert gs == [0x61] + ([0x62] + [0x63]);
      FlatMapConcat(EncodeGlyph, [0x61], [0x62] + [0x63]);
      FlatMapConcat(EncodeGlyph, [0x62], [0x63]);
      FlatMapOne(EncodeGlyph, 0x61);
      FlatMapOne(EncodeGlyph, 0x62);
      FlatMapOne(EncodeGlyph, 0x63);
    }
    var d1 := Decoder(0, 3, true);
    var d2 := Decoder(0, 2, false);
    var d3 := Decoder(0, 1, false);
    assert [0xf0] + t == [0xf0] + ([0x61] + ([0x62] + [0x63]));
    MachineOne(DecodeStep, FRESH, 0xf0);
    MachineOne(DecodeStep, d1, 0x61);
    MachineOne(DecodeStep, d2, 0x62);
    MachineOne(DecodeStep, d3, 0x63);
    MachineConcat(DecodeStep, FRESH, [0xf0], [0x61] + ([0x62] + [0x63]));
    MachineConcat(DecodeStep, d1, [0x61], [0x62] + [0x63]);
    MachineConcat(DecodeStep, d2, [0x62], [0x63]);
  }

  // ----- Cleaning: decoding and encoding again -----

  // The glyphs that have an encoding.
  function Kept(gs: seq<Glyph>): seq<Glyph> {
    if gs == [] then [] else (if gs[0] < GLYPH_LIMIT then [gs[0]] else []) + Kept(gs[1..])
  }

  lemma {:induction false} EncodeKept(gs: seq<Glyph>)
    requires forall i :: 0 <= i < |gs| ==> gs[i] != 0
    ensures Encode(Kept(gs)) == Encode(gs)
    ensures AllEncodable(Kept(gs))
  {
    if gs != [] {
      EncodeKept(gs[1..]);
      FlatMapConcat(EncodeGlyph, if gs[0] < GLYPH_LIMIT then [gs[0]] else [], Kept(gs[1..]));
      FlatMapOne(EncodeGlyph, gs[0]);
    }
  }

  lemma {:induction false} DecodedNonZero(s: Text, d: Decoder)
    ensures forall i :: 0 <= i < |Output(DecodeStep, d, s)| ==> Output(DecodeStep, d, s)[i] != 0
  {
    if s != [] {
      DecodedNonZero(s[1..], Advance(d, s[0]));
    }
  }

  function Clean(s: Text): Text {
    Encode(Decode(s))
  }

  // A second cleaning changes nothing, and what the first leaves decodes to the
  // original glyphs without those that have no encoding.
  lemma CleanIsIdempotent(s: Text)
    ensures Clean(Clean(s)) == Clean(s)
    ensures Decode(Clean(s)) == Kept(Decode(s))
  {
    DecodedNonZero(s, FRESH);
    EncodeKept(Decode(s));
    RoundTrip(Kept(Decode(s)));
  }

  // Cleaning leaves exactly the well-formed strings alone.
  lemma CleanFixpoint(s: Text)
    ensures Clean(s) == s <==> exists gs :: AllEncodable(gs) && Encode(gs) == s
  {
    if Clean(s) == s {
      DecodedNonZero(s, FRESH);
      EncodeKept(Decode(s));
      assert AllEncodable(Kept(Decode(s))) && Encode(Kept(Decode(s))) == s;
    }
    if gs :| AllEncodable(gs) && Encode(gs) == s {
      RoundTrip(gs);
    }
  }

  // ASCII text without NUL is its own glyph string.
  lemma {:induction false} AsciiIsClean(s: Text, d: Decoder)
    requires IsAscii(s) && (forall i :: 0 <= i < |s| ==> s[i] != 0)
    requires d.remaining == 0
    ensures Encode(Output(DecodeStep, d, s)) == s
  {
    if s != [] {
      var d' := Advance(d, s[0]);
      AsciiIsClean(s[1..], d');
      FlatMapConcat(EncodeGlyph, [s[0] as Glyph], Output(DecodeStep, d', s[1..]));
      FlatMapOne(EncodeGlyph, s[0] as Glyph);
    }
  }

  // ----- The code -----

  class ConvertState {
    var glyph: Glyph
    var remaining: nat
    var valid: bool

    constructor ()
      ensures Value() == FRESH
    {
      glyph, remaining, valid := 0, 0, false;
    }

    function Value(): Decoder
      reads this
    {
      Decoder(glyph, remaining, valid)
    }
  }

  method Utf8To32(next: Byte, state: ConvertState) returns (glyph: Glyph)
    modifies state
    ensures state.Value() == Advance(old(state.Value()), next)
    ensures glyph == Emitted(state.Value())
  {
    if state.remaining > 0 {
      if state.valid {
        if next / 0x40 == 2 {
          state.glyph := ((state.glyph as int * 0x40) % 0x1_0000_0000) as Glyph;
          state.glyph := state.glyph + (next % 0x40) as Glyph;
        } else {
          state.valid := false;
        }
      }
      state.remaining := state.remaining - 1;
    } else {
      if next / 0x80 == 0 {
        state.valid := true;
        state.glyph := next as Glyph;
      } else if next / 0x20 == 6 {
        state.valid := true;
        state.remaining := 1;
        state.glyph := (next % 0x20) as Glyph;
      } else if next / 0x10 == 14 {
        state.valid := true;
        state.remaining := 2;
        state.glyph := (next % 0x10) as Glyph;
      } else if next / 0x08 == 30 {
        state.valid := true;
        state.remaining := 3;
        state.glyph := (next % 0x08) as Glyph;
      } else {
        state.valid := false;
      }
    }
    if state.remaining > 0 {
      return 0;
    } else if state.valid {
      return state.glyph;
    } else {
      return REPLACEMENT;
    }
  }

  // buf with the bytes of t in place of those from index at on.
  ghost function Overwritten(buf: Text, at: nat, t: Text): Text
    requires at + |t| <= |buf|
  {
    buf[..at] + t + buf[at + |t|..]
  }

  lemma OverwrittenAt(buf: Text, at: nat, t: Text, i: nat)
    requires at + |t| <= |buf| && i < |buf|
    ensures |Overwritten(buf, at, t)| == |buf|
    ensures Overwritten(buf, at, t)[i] == if at <= i < at + |t| then t[i - at] else buf[i]
  {
  }

  method Utf32To8(glyph: Glyph, buf: array<Byte>, at: nat) returns (len: nat)
    requires at + |EncodeGlyph(glyph)| <= buf.Length
    modifies buf
    ensures len == |EncodeGlyph(glyph)|
    ensures buf[..] == Overwritten(old(buf[..]), at, EncodeGlyph(glyph))
  {
    if glyph < 0x80 {
      buf[at] := glyph as Byte;
      return 1;
    } else if glyph < 0x800 {
      buf[at] := (0xc0 + glyph / 0x40) as Byte;
      buf[at + 1] := (0x80 + glyph % 0x40) as Byte;
      return 2;
    } else if glyph < 0x10000 {
      buf[at] := (0xe0 + glyph / 0x1000) as Byte;
      buf[at + 1] := (0x80 + (glyph / 0x40) % 0x40) as Byte;
      buf[at + 2] := (0x80 + glyph % 0x40) as Byte;
      return 3;
    } else if glyph < 0x110000 {
      buf[at] := (0xf0 + glyph / 0x40000) as Byte;
      buf[at + 1] := (0x80 + (glyph / 0x1000) % 0x40) as Byte;
      buf[at + 2] := (0x80 + (glyph / 0x40) % 0x40) as Byte;
      buf[at + 3] := (0x80 + glyph % 0x40) as Byte;
      return 4;
    } else {
      return 0;
    }
  }

  method Utf8Decode(value: Text) returns (result: seq<Glyph>)
    ensures result == Decode(value)
  {
    result := [];
    var state := new ConvertState();
    for idx := 0 to |value|
      invariant result == Output(DecodeStep, FRESH, value[..idx])
      invariant state.Value() == Final(DecodeStep, FRESH, value[..idx])
    {
      var glyph := Utf8To32(value[idx], state);
      MachineExtend(DecodeStep, FRESH, value, idx);
      if glyph != 0 {
        result := result + [glyph];
      }
    }
    assert value[..|value|] == value;
  }

  method Utf8Encode(value: seq<Glyph>) returns (result: Text)
    ensures result == Encode(value)
  {
    result := [];
    for idx := 0 to |value|
      invariant result == Encode(value[..idx])
    {
      var tmp := new Byte[4];
      var len := Utf32To8(value[idx], tmp, 0);
      FlatMapExtend(EncodeGlyph, value, idx);
      if len > 0 {
        result := result + tmp[..len];
      }
    }
    assert value[..|value|] == value;
  }
}
