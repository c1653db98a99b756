// What a request's answer is to the web server that reads it: a header block in the
// form of section 6 of RFC 3875, and a body in the encoding in force.
module Answers {
  import opened Bytes
  import opened Utf8
  import opened Markup
  import opened Responses
  import Queries

  // ----- Reading headers -----

  datatype Field = Field(key: Text, value: Text)

  // What a reader has of a response: the fields in order, and the body.
  datatype Answer = Answer(fields: seq<Field>, body: Text)

  // The text up to the first line break, and what follows it.
  function CutLine(t: Text): (r: Option<(Text, Text)>)
    ensures r.Some? ==> t == r.value.0 + [0x0d, 0x0a] + r.value.1
  {
    if |t| < 2 then None
    else if t[0] == 0x0d && t[1] == 0x0a then Some(([], t[2..]))
    else match CutLine(t[1..])
      case None => None
      case Some((line, rest)) => Some(([t[0]] + line, rest))
  }

  // A name, a colon, and the value after a space.
  function ReadField(line: Text): Option<Field> {
    var (key, value) := Queries.Cut(line, 0x3a);
    if value.Some? && value.value != [] && value.value[0] == 0x20 then Some(Field(key, value.value[1..])) else None
  }

  // Fields up to the first empty line.
  function ReadAnswer(t: Text): Option<Answer>
    decreases |t|
  {
    match CutLine(t)
    case None => None
    case Some((line, rest)) =>
      if line == [] then Some(Answer([], rest))
      else
        match (ReadField(line), ReadAnswer(rest))
        case (Some(field), Some(answer)) => Some(Answer([field] + answer.fields, answer.body))
        case _ => None
  }

  // No line break inside.
  predicate NoBreak(t: Text) {
    forall i :: 0 <= i < |t| - 1 ==> !(t[i] == 0x0d && t[i + 1] == 0x0a)
  }

  // A line is read as a whole if and only if there is no line break in it.
  lemma {:induction false} CutLineAt(line: Text, rest: Text)
    ensures CutLine(line + [0x0d, 0x0a] + rest).Some?
    ensures var r := CutLine(line + [0x0d, 0x0a] + rest).value;
            if NoBreak(line) then r == (line, rest) else |r.0| < |line|
  {
    var t := line + [0x0d, 0x0a] + rest;
    if line == [] {
      assert t[2..] == rest;
    } else {
      CutLineAt(line[1..], rest);
      assert t[1..] == line[1..] + [0x0d, 0x0a] + rest && t[0] == line[0];
      assert line == [line[0]] + line[1..];
      assert t[1] == if |line| > 1 then line[1] else 0x0d;
      NoBreakStep(line);
    }
  }

  lemma NoBreakStep(t: Text)
    requires t != []
    ensures NoBreak(t) <==> NoBreak(t[1..]) && !(|t| > 1 && t[0] == 0x0d && t[1] == 0x0a)
  {
    if NoBreak(t[1..]) && !(|t| > 1 && t[0] == 0x0d && t[1] == 0x0a) {
      forall i | 0 <= i < |t| - 1 ensures !(t[i] == 0x0d && t[i + 1] == 0x0a) {
        assert i > 0 ==> t[i] == t[1..][i - 1] && t[i + 1] == t[1..][i];
      }
    }
    if NoBreak(t) {
      forall i | 0 <= i < |t[1..]| - 1 ensures !(t[1..][i] == 0x0d && t[1..][i + 1] == 0x0a) {
        assert t[1..][i] == t[i + 1] && t[1..][i + 1] == t[i + 2];
      }
    }
  }

  // A line that reads as a field is the field's name, a colon, a space and its value,
  // and the name has no colon.
  lemma FieldIsRead(line: Text, key: Text, value: Text)
    ensures ReadField(line) == Some(Field(key, value)) <==> 0x3a !in key && line == key + [0x3a, 0x20] + value
  {
    if 0x3a !in key && line == key + [0x3a, 0x20] + value {
      assert line[..|key|] == key && line[|key| + 1..] == [0x20] + value;
      Queries.CutAt(line, 0x3a, |key|);
    }
    if ReadField(line) == Some(Field(key, value)) {
      var rest := Queries.Cut(line, 0x3a).1.value;
      assert rest == [0x20] + value;
    }
  }

  // The name has no colon, and neither it nor the value a line break.
  predicate CanBeRead(key: Text, value: Text) {
    0x3a !in key && NoBreak(key) && NoBreak(value)
  }

  lemma BreakInLine(key: Text, value: Text)
    ensures NoBreak(key + [0x3a, 0x20] + value) <==> NoBreak(key) && NoBreak(value)
  {
    var line := key + [0x3a, 0x20] + value;
    if NoBreak(line) {
      forall i | 0 <= i < |key| - 1 ensures !(key[i] == 0x0d && key[i + 1] == 0x0a) {
        assert line[i] == key[i] && line[i + 1] == key[i + 1];
      }
      forall i | 0 <= i < |value| - 1 ensures !(value[i] == 0x0d && value[i + 1] == 0x0a) {
        assert line[|key| + 2 + i] == value[i] && line[|key| + 2 + i + 1] == value[i + 1];
      }
    }
    if NoBreak(key) && NoBreak(value) {
      forall i | 0 <= i < |line| - 1 ensures !(line[i] == 0x0d && line[i + 1] == 0x0a) {
        if i + 1 < |key| {
          assert line[i] == key[i] && line[i + 1] == key[i + 1];
        } else if i >= |key| + 2 {
          assert line[i] == value[i - |key| - 2] && line[i + 1] == value[i + 1 - |key| - 2];
        }
      }
    }
  }

  function FieldsOf(h: Headers, order: seq<Text>): seq<Field>
    requires forall i :: 0 <= i < |order| ==> order[i] in h
  {
    seq(|order|, i requires 0 <= i < |order| => Field(order[i], h[order[i]]))
  }

  lemma LineIs(h: Headers, key: Text)
    requires key in h
    ensures Line(h, key) == key + [0x3a, 0x20] + h[key] + [0x0d, 0x0a]
  {
  }

  lemma NoLines(h: Headers)
    ensures Lines(h, []) == []
  {
  }

  // The block is read back field by field, and what comes after it as the body, if and
  // only if every header can be read.
  lemma {:induction false} BlockIsRead(h: Headers, order: seq<Text>, body: Text)
    requires forall i :: 0 <= i < |order| ==> order[i] in h
    ensures ReadAnswer(Block(h, order) + body) == Some(Answer(FieldsOf(h, order), body)) <==>
            forall i :: 0 <= i < |order| ==> CanBeRead(order[i], h[order[i]])
  {
    hide Line, Lines, ReadField, NoBreak, CutLine, ReadAnswer;
    var t := Block(h, order) + body;
    if order == [] {
      NoLines(h);
      NoFields(body);
      assert t == [0x0d, 0x0a] + body;
    } else {
      var key := order[0];
      FirstLine(h, order);
      LineIs(h, key);
      BlockIsRead(h, order[1..], body);
      var more := Block(h, order[1..]) + body;
      assert t == key + [0x3a, 0x20] + h[key] + [0x0d, 0x0a] + more;
      FirstField(key, h[key], more, FieldsOf(h, order[1..]), body);
      assert FieldsOf(h, order) == [Field(key, h[key])] + FieldsOf(h, order[1..]);
    }
  }

  lemma NoFields(body: Text)
    ensures ReadAnswer([0x0d, 0x0a] + body) == Some(Answer([], body))
  {
    assert NoBreak([]);
    CutLineAt([], body);
    assert [] + [0x0d, 0x0a] + body == [0x0d, 0x0a] + body;
  }

  lemma FirstField(key: Text, value: Text, more: Text, fields: seq<Field>, body: Text)
    ensures ReadAnswer(key + [0x3a, 0x20] + value + [0x0d, 0x0a] + more) ==
            Some(Answer([Field(key, value)] + fields, body)) <==>
            CanBeRead(key, value) && ReadAnswer(more) == Some(Answer(fields, body))
  {
    hide ReadField, NoBreak, CutLine;
    var line := key + [0x3a, 0x20] + value;
    CutLineAt(line, more);
    BreakInLine(key, value);
    var read := CutLine(line + [0x0d, 0x0a] + more).value.0;
    FieldIsRead(read, key, value);
    assert ([Field(key, value)] + fields)[0] == Field(key, value);
    assert ([Field(key, value)] + fields)[1..] == fields;
    if read != [] && ReadField(read).Some? && ReadAnswer(CutLine(line + [0x0d, 0x0a] + more).value.1).Some? {
      var f, a := ReadField(read).value, ReadAnswer(CutLine(line + [0x0d, 0x0a] + more).value.1).value;
      assert ([f] + a.fields)[0] == f && ([f] + a.fields)[1..] == a.fields;
    }
  }

  lemma FirstLine(h: Headers, order: seq<Text>)
    requires order != []
    ensures Lines(h, order) == Line(h, order[0]) + Lines(h, order[1..])
  {
  }

  // Each header once.
  ghost predicate Lists(fields: seq<Field>, h: Headers) {
    && (forall f :: f in fields ==> f.key in h && h[f.key] == f.value)
    && (forall k :: k in h ==> Field(k, h[k]) in fields)
    && |fields| == |h|
  }

  lemma OrderLists(h: Headers, order: seq<Text>)
    requires IsOrder(order, h)
    ensures Lists(FieldsOf(h, order), h)
  {
    var fields := FieldsOf(h, order);
    forall k | k in h ensures Field(k, h[k]) in fields {
      var i :| 0 <= i < |order| && order[i] == k;
      assert fields[i] == Field(k, h[k]);
    }
    KeysOnce(order);
    assert (set k | k in order) == h.Keys;
  }

  lemma {:induction false} KeysOnce(order: seq<Text>)
    requires forall i, j :: 0 <= i < j < |order| ==> order[i] != order[j]
    ensures |set k | k in order| == |order|
  {
    if order != [] {
      KeysOnce(order[1..]);
      assert (set k | k in order) == {order[0]} + set k | k in order[1..];
    }
  }

  // Whatever was done to a request over its whole life: the reader gets every header
  // once and then the bodies, if and only if the headers can be read.
  lemma {:induction false} ResponseIsRead(states: seq<Response>, ops: seq<Op>, oks: seq<bool>, k: nat)
    returns (fields: seq<Field>)
    requires IsLife(states, ops, oks, k)
    ensures var h := states[|ops|].headers;
            && Lists(fields, h)
            && (ReadAnswer(states[|ops|].output) == Some(Answer(fields, Bodies(states, ops, |ops|))) <==>
                forall key :: key in h ==> CanBeRead(key, h[key]))
  {
    hide Block, FieldsOf, ReadAnswer, Bodies, Fallback, SentHeaders, CanBeRead, Lists;
    var _, order := WholeResponse(states, ops, oks, k);
    var h := states[|ops|].headers;
    BlockIsRead(h, order, Bodies(states, ops, |ops|));
    OrderLists(h, order);
    fields := FieldsOf(h, order);
  }

  // ----- Encodings -----

  // The encoding that goes with a type's name.
  lemma EncodingByName(contentType: Text)
    ensures DetectEncoding(contentType) == HTMLEncoding <==> contentType == Ascii("text/html")
    ensures DetectEncoding(contentType) == VerbatimEncoding <==>
            !exists rest :: contentType == Ascii("text/") + rest
  {
    if TEXT_PREFIX <= contentType {
      assert contentType == Ascii("text/") + contentType[5..];
    }
    assert TEXT_HTML[..5] == Ascii("text/");
  }

  // The operation chooses an encoding, and it comes in time.
  predicate Chooses(op: Op, ok: bool) {
    op.SetEncoding? || (op.SetContentType? && ok)
  }

  // The encoding is the one chosen last.
  lemma {:induction false} EncodingInForce(states: seq<Response>, ops: seq<Op>, oks: seq<bool>, j: nat, i: nat)
    requires IsRun(states, ops, oks) && j < i <= |ops| && Chooses(ops[j], oks[j])
    requires forall k :: j < k < i ==> !Chooses(ops[k], oks[k])
    ensures states[i].encoding == ops[j].encoding
    decreases i
  {
    hide Block, IsOrder, Body;
    assert Does(states[i - 1], ops[i - 1], states[i], oks[i - 1]);
    if j < i - 1 {
      EncodingInForce(states, ops, oks, j, i - 1);
    }
  }

  // What a stream sends: the bytes themselves, well-formed UTF-8, or markup.
  lemma StreamedBody(r: Response, text: Text)
    ensures r.encoding == VerbatimEncoding ==> Body(r, Stream(text)) == text
    ensures r.encoding == UTF8Encoding ==> Body(r, Stream(text)) == Clean(text)
    ensures r.encoding == HTMLEncoding ==> (IsAscii(Body(r, Stream(text))) <==> NoLongAscii(FRESH, text))
    ensures r.encoding == HTMLEncoding && (forall i :: 0 <= i < |text| ==> NeedsNoEscape(HTML, text[i] as int)) ==>
              Body(r, Stream(text)) == text
  {
    hide BytesOut, NoLongAscii, Clean;
    Utf8FormatCleans(text);
    HtmlBytesAgree(HTML, text);
    if forall i :: 0 <= i < |text| ==> NeedsNoEscape(HTML, text[i] as int) {
      PlainBytes(HTML, text);
    }
  }

  // A stream sends the headers unless there is nothing to hand on; in Verbatim the empty
  // text is handed on, too.
  lemma StreamSendsHeaders(r: Response, text: Text, r': Response, ok: bool)
    requires Does(r, Stream(text), r', ok) && !r.sent
    ensures r'.sent <==> r.encoding == VerbatimEncoding || Body(r, Stream(text)) != []
  {
    hide Body, Block, IsOrder;
  }
}
