// What the decoder of src/lib/utils.cpp makes of any bytes whatever: a reference that
// reads a string piece by piece, and agrees with it on every string.
module Malformed {
  import opened Bytes
  import opened Utf8

  // How many bytes a first byte announces.
  function Announced(b: Byte): (n: nat)
    ensures n <= 3
  {
    if 0xc0 <= b < 0xe0 then 1 else if 0xe0 <= b < 0xf0 then 2 else if 0xf0 <= b < 0xf8 then 3 else 0
  }

  // What it contributes itself.
  function Leading(b: Byte): Glyph
    requires Announced(b) > 0
  {
    (if b < 0xe0 then b - 0xc0 else if b < 0xf0 then b - 0xe0 else b - 0xf0) as Glyph
  }

  predicate Trails(b: Byte) {
    0x80 <= b < 0xc0
  }

  predicate AllTrail(cs: Text) {
    forall i :: 0 <= i < |cs| ==> Trails(cs[i])
  }

  // high, followed by six bits from each byte.
  function Number(high: int, cs: Text): int
    decreases |cs|
  {
    if cs == [] then high else Number(high * 64 + (cs[0] as int - 0x80), cs[1..])
  }

  // No glyph for 0.
  function NonZero(g: int): seq<Glyph>
    requires 0 <= g < 0x20_0000
  {
    if g == 0 then [] else [g as Glyph]
  }

  // The glyph of a first byte and all the bytes it announces: the number they spell, or
  // the replacement character if one of them is no continuation byte. However many bytes
  // are too many, too high or spell too much, they are taken.
  function Piece(b: Byte, cs: Text): seq<Glyph>
    requires Announced(b) == |cs| > 0
  {
    NumberBound(Leading(b) as int, cs);
    if AllTrail(cs) then NonZero(Number(Leading(b) as int, cs)) else [0xfffd]
  }

  // Piece by piece: a byte below 0x80 is itself, a stray one is the replacement
  // character, and a sequence that is cut off at the end is nothing.
  function Meaning(s: Text): seq<Glyph>
    decreases |s|
  {
    if s == [] then []
    else
      var n := Announced(s[0]);
      if s[0] < 0x80 then NonZero(s[0] as int) + Meaning(s[1..])
      else if n == 0 then [0xfffd] + Meaning(s[1..])
      else if |s| <= n then []
      else Piece(s[0], s[1..n + 1]) + Meaning(s[n + 1..])
  }

  // What k more bytes leave room for.
  function Room(k: nat): int {
    match k case 0 => 0x20_0000 case 1 => 0x8000 case 2 => 0x200 case _ => 8
  }

  lemma {:induction false} NumberBound(high: int, cs: Text)
    requires |cs| <= 3 && 0 <= high < Room(|cs|)
    ensures AllTrail(cs) ==> 0 <= Number(high, cs) < 0x20_0000
    decreases |cs|
  {
    if cs != [] && AllTrail(cs) {
      assert Trails(cs[0]);
      assert forall i :: 0 <= i < |cs| - 1 ==> cs[1..][i] == cs[i + 1];
      NumberBound(high * 64 + (cs[0] as int - 0x80), cs[1..]);
    }
  }

  // ----- One piece -----

  lemma AllTrailStep(cs: Text)
    requires cs != []
    ensures AllTrail(cs) <==> Trails(cs[0]) && AllTrail(cs[1..])
  {
    if AllTrail(cs[1..]) {
      forall i | 0 <= i < |cs| && Trails(cs[0]) ensures Trails(cs[i]) {
        assert i > 0 ==> Trails(cs[1..][i - 1]);
      }
    }
  }

  // A byte that was announced.
  lemma OneMore(d: Decoder, c: Byte)
    requires 0 < d.remaining <= 3 && (d.valid ==> d.glyph as int < Room(d.remaining))
    ensures var d' := Advance(d, c);
            && d'.remaining == d.remaining - 1
            && (d'.valid <==> d.valid && Trails(c))
            && (d'.valid ==> d'.glyph as int == d.glyph as int * 64 + (c as int - 0x80) < Room(d'.remaining))
  {
  }

  // The bytes a first one announced, or some of them: nothing comes of them before the
  // last, and then one glyph.
  lemma {:induction false} ReadsMore(d: Decoder, cs: Text)
    requires 0 < d.remaining <= 3 && |cs| <= d.remaining && (d.valid ==> d.glyph as int < Room(d.remaining))
    ensures Final(DecodeStep, d, cs).remaining == d.remaining - |cs|
    ensures d.valid && AllTrail(cs) && |cs| == d.remaining ==> 0 <= Number(d.glyph as int, cs) < 0x20_0000
    ensures Output(DecodeStep, d, cs) ==
            if |cs| < d.remaining then []
            else if d.valid && AllTrail(cs) then NonZero(Number(d.glyph as int, cs))
            else [0xfffd]
    decreases |cs|
  {
    hide Advance, Room;
    if cs != [] {
      var d' := Advance(d, cs[0]);
      OneMore(d, cs[0]);
      AllTrailStep(cs);
      assert cs == [cs[0]] + cs[1..];
      ReadOne(cs[0], cs[1..], d);
      if d'.remaining > 0 {
        ReadsMore(d', cs[1..]);
      } else {
        assert cs[1..] == [];
        MachineNone(DecodeStep, d');
        RoomAtEnd();
      }
    }
  }

  lemma RoomAtEnd()
    ensures Room(0) == 0x20_0000
  {
  }

  lemma FirstOfMany(d: Decoder, b: Byte)
    requires d.remaining == 0 && Announced(b) > 0
    ensures Advance(d, b) == Decoder(Leading(b), Announced(b), true)
    ensures Leading(b) as int < Room(Announced(b))
  {
  }

  // From a boundary, a whole sequence gives its piece, and ends at a boundary.
  lemma {:induction false} ReadsPiece(d: Decoder, b: Byte, cs: Text)
    requires d.remaining == 0 && Announced(b) == |cs| > 0
    ensures Output(DecodeStep, d, [b] + cs) == Piece(b, cs)
    ensures Final(DecodeStep, d, [b] + cs).remaining == 0
  {
    hide Advance, Room, Announced, Leading;
    FirstOfMany(d, b);
    ReadOne(b, cs, d);
    ReadsMore(Advance(d, b), cs);
  }

  // In particular, one that is broken anywhere gives exactly the replacement character.
  lemma {:induction false} BrokenSequence(d: Decoder, b: Byte, cs: Text, i: nat)
    requires d.remaining == 0 && Announced(b) == |cs| && i < |cs| && !(0x80 <= cs[i] < 0xc0)
    ensures Output(DecodeStep, d, [b] + cs) == [0xfffd]
    ensures Final(DecodeStep, d, [b] + cs).remaining == 0
  {
    ReadsPiece(d, b, cs);
    assert !Trails(cs[i]);
  }

  // A sequence that is cut off gives nothing.
  lemma {:induction false} CutOff(d: Decoder, b: Byte, cs: Text)
    requires d.remaining == 0 && |cs| < Announced(b)
    ensures Output(DecodeStep, d, [b] + cs) == []
    ensures Final(DecodeStep, d, [b] + cs).remaining == Announced(b) - |cs|
  {
    hide Advance, Room, Announced, Leading;
    FirstOfMany(d, b);
    ReadOne(b, cs, d);
    ReadsMore(Advance(d, b), cs);
  }

  // A byte that can neither stand alone nor start a sequence gives the replacement
  // character.
  lemma StrayByte(d: Decoder, b: Byte)
    requires d.remaining == 0 && (0x80 <= b < 0xc0 || 0xf8 <= b)
    ensures Output(DecodeStep, d, [b]) == [0xfffd]
    ensures Final(DecodeStep, d, [b]).remaining == 0
  {
    MachineOne(DecodeStep, d, b);
  }

  lemma SingleByte(d: Decoder, b: Byte)
    requires d.remaining == 0 && b < 0x80
    ensures Output(DecodeStep, d, [b]) == NonZero(b as int)
    ensures Final(DecodeStep, d, [b]).remaining == 0
  {
    MachineOne(DecodeStep, d, b);
  }

  // ----- Every string -----

  lemma {:induction false} ReadsMeaning(d: Decoder, s: Text)
    requires d.remaining == 0
    ensures Output(DecodeStep, d, s) == Meaning(s)
    decreases |s|
  {
    hide Output, Final, Piece, DecodeStep;
    if s == [] {
      MachineNone(DecodeStep, d);
    } else {
      var n := Announced(s[0]);
      var k := if |s| <= n then |s| else n + 1;
      var first, rest := s[..k], s[k..];
      assert s == first + rest && first == [s[0]] + s[1..k];
      MachineConcat(DecodeStep, d, first, rest);
      if s[0] < 0x80 {
        assert first == [s[0]];
        SingleByte(d, s[0]);
        ReadsMeaning(Final(DecodeStep, d, first), rest);
      } else if n == 0 {
        assert first == [s[0]];
        StrayByte(d, s[0]);
        ReadsMeaning(Final(DecodeStep, d, first), rest);
      } else if |s| <= n {
        CutOff(d, s[0], s[1..k]);
        assert rest == [];
        MachineNone(DecodeStep, Final(DecodeStep, d, first));
      } else {
        ReadsPiece(d, s[0], s[1..k]);
        ReadsMeaning(Final(DecodeStep, d, first), rest);
      }
    }
  }

  // Decoding any byte string gives its meaning.
  lemma DecodeIsMeaning(s: Text)
    ensures Decode(s) == Meaning(s)
  {
    ReadsMeaning(FRESH, s);
  }

  // Latin-1 text, for one, is full of replacement characters.
  lemma PoundFive()
    ensures Decode([0xa3, 0x35]) == [0xfffd, 0x35]
  {
    DecodeIsMeaning([0xa3, 0x35]);
    assert [0xa3, 0x35][1..] == [0x35] && [0x35][1..] == [];
  }
}
