// The streaming formatter of src/lib/generic_formatter.cpp: both overloads fill a
// scratch buffer of 128 bytes and hand it on when it holds 100 or more.
module Formatter {
  import opened Bytes
  import opened Utf8
  import opened Markup

  const BUFFER_SIZE: nat := 128
  const FLUSH_AT: nat := 100
  const LONGEST_CHUNK: nat := 111

  // The bytes of a char32_t in memory, on a little-endian host.
  function HostBytes(g: Glyph): Text {
    [(g % 0x100) as Byte, (g / 0x100 % 0x100) as Byte, (g / 0x1_0000 % 0x100) as Byte, (g / 0x100_0000) as Byte]
  }

  // Least significant byte first.
  lemma HostBytesAre(g: Glyph)
    ensures var b := HostBytes(g);
            && |b| == 4
            && g as int == b[0] as int + 0x100 * b[1] as int + 0x1_0000 * b[2] as int + 0x100_0000 * b[3] as int
  {
    var n := g as int;
    assert n / 0x1_0000 == n / 0x100 / 0x100 && n / 0x100_0000 == n / 0x1_0000 / 0x100;
    assert g / 0x100 % 0x100 == ((n / 0x100) % 0x100) as Glyph;
    assert g / 0x1_0000 % 0x100 == ((n / 0x1_0000) % 0x100) as Glyph;
  }

  // What a formatter in format f makes of a byte string, and of a glyph string.
  function BytesWritten(f: Format, s: Text): Text {
    if f == Verbatim then s else BytesOut(f, s)
  }

  function GlyphsWritten(f: Format, gs: seq<Glyph>): Text {
    if f == Verbatim then FlatMap(HostBytes, gs) else GlyphsOut(f, gs)
  }

  // Lengths of chunks handed on because the buffer was full enough.
  predicate AllFull(sizes: seq<nat>) {
    forall k :: 0 <= k < |sizes| ==> FLUSH_AT <= sizes[k] <= LONGEST_CHUNK
  }

  // Lengths of the chunks of one call: full ones, and then perhaps a shorter one,
  // never empty.
  predicate Flushed(sizes: seq<nat>) {
    AllFull(sizes) || (AllFull(sizes[..|sizes| - 1]) && 0 < sizes[|sizes| - 1] < FLUSH_AT)
  }

  function Total(sizes: seq<nat>): nat {
    if sizes == [] then 0 else Total(sizes[..|sizes| - 1]) + sizes[|sizes| - 1]
  }

  lemma TotalAppend(sizes: seq<nat>, size: nat)
    ensures Total(sizes + [size]) == Total(sizes) + size
  {
    assert (sizes + [size])[..|sizes|] == sizes;
  }

  lemma TotalOfAll(sizes: seq<nat>)
    ensures Total(sizes[..0]) == 0 && Total(sizes[..|sizes|]) == Total(sizes)
  {
    assert sizes[..|sizes|] == sizes;
  }

  lemma {:induction false} TotalOfPart(sizes: seq<nat>, i: nat)
    requires i < |sizes|
    ensures Total(sizes[..i + 1]) == Total(sizes[..i]) + sizes[i] <= Total(sizes)
  {
    assert sizes[..i + 1][..i] == sizes[..i];
    if i + 1 == |sizes| {
      assert sizes[..i + 1] == sizes;
    } else {
      TotalOfPart(sizes[..|sizes| - 1], i);
      assert sizes[..|sizes| - 1][..i + 1] == sizes[..i + 1] && sizes[..|sizes| - 1][..i] == sizes[..i];
    }
  }

  // There is a chunk just when there is something to hand on.
  lemma FlushedTotal(sizes: seq<nat>)
    requires Flushed(sizes)
    ensures Total(sizes) == 0 <==> sizes == []
  {
  }

  // std::memcpy(buf + at, t, |t|).
  method Copy(buf: array<Byte>, at: nat, t: Text)
    requires at + |t| <= buf.Length
    modifies buf
    ensures buf[..] == Overwritten(old(buf[..]), at, t)
  {
    for k := 0 to |t|
      invariant buf[..at] == old(buf[..at])
      invariant buf[at..at + k] == t[..k]
      invariant buf[at + k..] == old(buf[at + k..])
    {
      buf[at + k] := t[k];
    }
    assert t[..|t|] == t;
  }

  // std::snprintf(buf + at, size, "&#x%x;", glyph): it cuts the text to leave room
  // for the terminating NUL, and returns the length of the text uncut.
  method PrintEntity(buf: array<Byte>, at: nat, size: nat, glyph: Glyph) returns (len: nat)
    requires 0 < size && at + size <= buf.Length
    modifies buf
    ensures len == |Entity(glyph)|
    ensures buf[..] == Overwritten(old(buf[..]), at,
                                   (if len < size then Entity(glyph) else Entity(glyph)[..size - 1]) + [0])
  {
    var text := Entity(glyph);
    len := |text|;
    Copy(buf, at, (if len < size then text else text[..size - 1]) + [0]);
  }

  // What the buffer holds below the offset after something was put at the offset.
  lemma HeldAfter(before: Text, after: Text, at: nat, t: Text, len: nat)
    requires at + |t| <= |before| && after == Overwritten(before, at, t)
    requires len <= |t|
    ensures after[..at + len] == before[..at] + t[..len]
  {
  }

  // The low byte of a glyph below 0x80 is the glyph.
  lemma SameOut(f: Format, g: Glyph)
    ensures ByteOut(f, g, (g % 0x100) as Byte) == GlyphOut(f, g)
  {
  }

  class GenericFormatter {
    var format: Format
    // Everything real_append was given so far, and the length of each piece.
    var output: Text
    var sizes: seq<nat>

    ghost predicate Tallied()
      reads this
    {
      Total(sizes) == |output|
    }

    constructor (format: Format)
      ensures this.format == format && output == [] && sizes == [] && Tallied()
    {
      this.format := format;
      output, sizes := [], [];
    }

    method RealAppend(s: Text)
      modifies this`output, this`sizes
      ensures output == old(output) + s && sizes == old(sizes) + [|s|]
      ensures old(Tallied()) ==> Tallied()
    {
      TotalAppend(sizes, |s|);
      output := output + s;
      sizes := sizes + [|s|];
    }

    // The part of both loops that handles a glyph below 0x80 outside UTF8.
    method PutAscii(tmp: array<Byte>, offset: nat, c: Byte) returns (len: nat)
      requires offset + 12 <= tmp.Length
      modifies tmp
      ensures len == |AsciiOut(format, c)| <= 5
      ensures tmp[..offset + len] == old(tmp[..offset]) + AsciiOut(format, c)
    {
      if c == LT && format == HTMLContent {
        Copy(tmp, offset, LT_ESCAPE);
        len := 4;
      } else if c == GT && format == HTMLContent {
        Copy(tmp, offset, GT_ESCAPE);
        len := 4;
      } else if c == AMP {
        Copy(tmp, offset, AMP_ESCAPE);
        len := 5;
      } else {
        tmp[offset] := c;
        len := 1;
      }
    }

    // The rest of the escaping: nothing is cut off, for there is always room.
    method PutEntity(tmp: array<Byte>, offset: nat, glyph: Glyph) returns (len: nat)
      requires offset < FLUSH_AT && tmp.Length == BUFFER_SIZE
      modifies tmp
      ensures len == |Entity(glyph)| <= 12
      ensures tmp[..offset + len] == old(tmp[..offset]) + Entity(glyph)
    {
      EntityLength(glyph);
      ghost var before := tmp[..];
      len := PrintEntity(tmp, offset, BUFFER_SIZE - offset, glyph);
      HeldAfter(before, tmp[..], offset, Entity(glyph) + [0], len);
      assert (Entity(glyph) + [0])[..len] == Entity(glyph);
    }

    method PutUtf8(tmp: array<Byte>, offset: nat, glyph: Glyph) returns (len: nat)
      requires offset < FLUSH_AT && tmp.Length == BUFFER_SIZE
      modifies tmp
      ensures len == |EncodeGlyph(glyph)| <= 4
      ensures tmp[..offset + len] == old(tmp[..offset]) + EncodeGlyph(glyph)
    {
      ghost var before := tmp[..];
      len := Utf32To8(glyph, tmp, offset);
      HeldAfter(before, tmp[..], offset, EncodeGlyph(glyph), len);
    }

    // Hands the buffer on once it is full enough.
    method FlushIfFull(tmp: array<Byte>, offset: nat) returns (left: nat, ghost full: seq<nat>)
      requires tmp.Length == BUFFER_SIZE && offset <= LONGEST_CHUNK
      modifies this`output, this`sizes
      ensures left < FLUSH_AT
      ensures output + tmp[..left] == old(output + tmp[..offset])
      ensures sizes == old(sizes) + full && AllFull(full) && (old(Tallied()) ==> Tallied())
    {
      hide Total;
      left, full := offset, [];
      if offset >= FLUSH_AT {
        RealAppend(tmp[..offset]);
        left, full := 0, [offset];
      }
    }

    // The body both loops share: c is the byte to test and write for a glyph below
    // 0x80. Returns the new offset.
    method Put(tmp: array<Byte>, offset: nat, glyph: Glyph, c: Byte)
      returns (left: nat, ghost full: seq<nat>)
      requires tmp.Length == BUFFER_SIZE && offset < FLUSH_AT
      modifies this`output, this`sizes, tmp
      ensures left < FLUSH_AT
      ensures output + tmp[..left] == old(output + tmp[..offset]) + ByteOut(format, glyph, c)
      ensures sizes == old(sizes) + full && AllFull(full) && (old(Tallied()) ==> Tallied())
    {
      hide Total, EncodeGlyph, Entity, AsciiOut;
      var len;
      if format == UTF8 {
        len := PutUtf8(tmp, offset, glyph);
      } else if glyph < 0x80 {
        len := PutAscii(tmp, offset, c);
      } else {
        len := PutEntity(tmp, offset, glyph);
      }
      assert tmp[..offset + len] == old(tmp[..offset]) + ByteOut(format, glyph, c);
      assert output + (old(tmp[..offset]) + ByteOut(format, glyph, c))
          == (output + old(tmp[..offset])) + ByteOut(format, glyph, c);
      left, full := FlushIfFull(tmp, offset + len);
    }

    // operator<<(std::string_view). sent lists the lengths of this call's chunks.
    method WriteBytes(s: Text) returns (ghost sent: seq<nat>)
      modifies this`output, this`sizes
      ensures output == old(output) + BytesWritten(format, s)
      ensures sizes == old(sizes) + sent && (old(Tallied()) ==> Tallied())
      ensures if format == Verbatim then sent == [|s|] && output == old(output) + s else Flushed(sent)
    {
      hide Total, EncodeGlyph, Entity, AsciiOut, GlyphOut, ByteOut, Advance, Emitted, Output, Final, FlatMap;
      sent := [];
      if format == Verbatim {
        RealAppend(s);
        sent := [|s|];
        return;
      }
      var m := ByteWriter(format);
      var tmp := new Byte[BUFFER_SIZE];
      var mbstate := new ConvertState();
      var offset: nat := 0;
      ghost var start, out := output, [];
      assert s[..0] == [];
      MachineNone(m, FRESH);
      for i := 0 to |s|
        invariant fresh(tmp) && fresh(mbstate)
        invariant mbstate.Value() == Final(m, FRESH, s[..i]) && out == Output(m, FRESH, s[..i])
        invariant offset < FLUSH_AT
        invariant output + tmp[..offset] == start + out
        invariant sizes == old(sizes) + sent && AllFull(sent) && (old(Tallied()) ==> Tallied())
      {
        MachineExtend(m, FRESH, s, i);
        var glyph := Utf8To32(s[i], mbstate);
        if glyph == 0 {
          continue;
        }
        ghost var more, full := ByteOut(format, glyph, s[i]), [];
        offset, full := Put(tmp, offset, glyph, s[i]);
        Associative(start, out, more);
        out := out + more;
        sent := sent + full;
      }
      assert s[..|s|] == s;
      if offset > 0 {
        RealAppend(tmp[..offset]);
        assert (sent + [offset])[..|sent|] == sent;
        sent := sent + [offset];
      }
    }

    // operator<<(std::u32string_view)
    method WriteGlyphs(s: seq<Glyph>) returns (ghost sent: seq<nat>)
      modifies this`output, this`sizes
      ensures output == old(output) + GlyphsWritten(format, s)
      ensures sizes == old(sizes) + sent && (old(Tallied()) ==> Tallied())
      ensures if format == Verbatim then sent == [|FlatMap(HostBytes, s)|] else Flushed(sent)
    {
      hide Total, EncodeGlyph, Entity, AsciiOut, GlyphOut, ByteOut, Advance, Emitted, Output, Final, FlatMap;
      sent := [];
      if format == Verbatim {
        RealAppend(FlatMap(HostBytes, s));
        sent := [|FlatMap(HostBytes, s)|];
        return;
      }
      var m := GlyphWriter(format);
      var tmp := new Byte[BUFFER_SIZE];
      var offset: nat := 0;
      ghost var start, out := output, [];
      assert s[..0] == [];
      FlatMapNone(m);
      for i := 0 to |s|
        invariant fresh(tmp)
        invariant out == FlatMap(m, s[..i])
        invariant offset < FLUSH_AT
        invariant output + tmp[..offset] == start + out
        invariant sizes == old(sizes) + sent && AllFull(sent) && (old(Tallied()) ==> Tallied())
      {
        FlatMapExtend(m, s, i);
        ghost var more, full := GlyphOut(format, s[i]), [];
        SameOut(format, s[i]);
        offset, full := Put(tmp, offset, s[i], (s[i] % 0x100) as Byte);
        Associative(start, out, more);
        out := out + more;
        sent := sent + full;
      }
      assert s[..|s|] == s;
      if offset > 0 {
        RealAppend(tmp[..offset]);
        assert (sent + [offset])[..|sent|] == sent;
        sent := sent + [offset];
      }
    }

    // RequestStream::operator<<(HTMLContent): element content within HTML.
    method WriteContent(s: Text) returns (ghost sent: seq<nat>)
      modifies this
      ensures format == old(format)
      ensures output == old(output) + BytesWritten(if format == HTML then HTMLContent else format, s)
      ensures sizes == old(sizes) + sent && (old(Tallied()) ==> Tallied())
    {
      if format == HTML {
        format := HTMLContent;
        sent := WriteBytes(s);
        format := HTML;
      } else {
        sent := WriteBytes(s);
      }
    }
  }
}
