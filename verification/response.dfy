// What a request answers: the header and body half of src/lib/request.cpp.
module Responses {
  import opened Bytes
  import opened Markup
  import opened Formatter

  // ----- Names and numbers as bytes -----

  predicate IsPlainText(s: string) {
    forall i :: 0 <= i < |s| ==> s[i] as int < 0x80
  }

  function Ascii(s: string): (t: Text)
    requires IsPlainText(s)
    ensures |t| == |s| && IsAscii(t)
  {
    seq(|s|, i requires 0 <= i < |s| => s[i] as int as Byte)
  }

  const STATUS := Ascii("Status")
  const CONTENT_TYPE := Ascii("Content-Type")
  const CONTENT_LENGTH := Ascii("Content-Length")
  const OK_STATUS := Ascii("200")
  const TEXT_PREFIX := Ascii("text/")
  const TEXT_HTML := Ascii("text/html")
  const TEXT_PLAIN := Ascii("text/plain")
  const COLON: Text := [0x3a, 0x20]
  const CRLF: Text := [0x0d, 0x0a]
  const NO_DATA := Ascii("Data processor did not return any data")

  // std::to_string
  function Decimal(n: nat): (t: Text)
    ensures t != [] && forall i :: 0 <= i < |t| ==> 0x30 <= t[i] <= 0x39
  {
    if n < 10 then [(0x30 + n) as Byte] else Decimal(n / 10) + [(0x30 + n % 10) as Byte]
  }

  // The number a row of decimal digits stands for.
  function NumberOf(t: Text): int {
    if t == [] then 0 else NumberOf(t[..|t| - 1]) * 10 + (t[|t| - 1] as int - 0x30)
  }

  lemma {:induction false} DecimalReads(n: nat)
    ensures NumberOf(Decimal(n)) == n
    ensures |Decimal(n)| > 1 ==> Decimal(n)[0] != 0x30
  {
    if n < 10 {
      assert Decimal(n)[..0] == [];
    } else {
      DecimalReads(n / 10);
      assert Decimal(n)[..|Decimal(n)| - 1] == Decimal(n / 10);
    }
  }

  // ----- Responses as values -----

  datatype ContentEncoding = VerbatimEncoding | UTF8Encoding | HTMLEncoding

  function ToFormat(e: ContentEncoding): Format {
    match e case VerbatimEncoding => Verbatim case UTF8Encoding => UTF8 case HTMLEncoding => HTML
  }

  // A header's symbol stands for its string.
  type Headers = map<Text, Text>

  // output is everything given to the web server; once is the once_flag of the
  // warning about headers already sent, and warnings counts how often it was logged.
  datatype Response =
    Response(headers: Headers, sent: bool, encoding: ContentEncoding, output: Text, once: bool, warnings: nat)

  datatype Op =
    | SetHeader(key: Text, value: Text)
    | SetContentType(contentType: Text, encoding: ContentEncoding)
    | SetEncoding(encoding: ContentEncoding)
    | SendHeaders
    | Write(data: Text)
    | Stream(text: Text)

  function SetStatus(code: nat): Op {
    SetHeader(STATUS, Decimal(code))
  }

  function DetectEncoding(contentType: Text): ContentEncoding {
    if contentType == TEXT_HTML then HTMLEncoding
    else if TEXT_PREFIX <= contentType then UTF8Encoding
    else VerbatimEncoding
  }

  // std::unordered_map::emplace: a value that is there stays.
  function Emplaced(h: Headers, key: Text, value: Text): Headers {
    if key in h then h else h[key := value]
  }

  // What a setter does.
  function Set(r: Response, key: Text, value: Text): Response {
    if r.sent then Warned(r) else r.(headers := Emplaced(r.headers, key, value))
  }

  // std::call_once
  function Warned(r: Response): Response {
    if r.once then r else r.(once := true, warnings := r.warnings + 1)
  }

  // order lists every key once.
  ghost predicate IsOrder(order: seq<Text>, h: Headers) {
    && (forall k :: k in order <==> k in h)
    && (forall i, j :: 0 <= i < j < |order| ==> order[i] != order[j])
  }

  function Line(h: Headers, key: Text): Text {
    key + COLON + (if key in h then h[key] else []) + CRLF
  }

  function Lines(h: Headers, order: seq<Text>): Text {
    FlatMap(k => Line(h, k), order)
  }

  // One line for each header, and a blank line.
  function Block(h: Headers, order: seq<Text>): Text {
    Lines(h, order) + CRLF
  }

  // send_headers: the map is iterated in whatever order.
  ghost predicate Sends(r: Response, r': Response) {
    if r.sent then r' == r else exists order :: SendsIn(r, order, r')
  }

  ghost predicate SendsIn(r: Response, order: seq<Text>, r': Response) {
    var h := Emplaced(r.headers, STATUS, OK_STATUS);
    IsOrder(order, h) && r' == r.(headers := h, sent := true, output := r.output + Block(h, order))
  }

  ghost predicate Writes(r: Response, data: Text, r': Response) {
    exists mid :: Sends(r, mid) && r' == mid.(output := mid.output + data)
  }

  // What an operation adds to the body.
  function Body(r: Response, op: Op): Text {
    match op
    case Write(data) => data
    case Stream(text) => BytesWritten(ToFormat(r.encoding), text)
    case _ => []
  }

  // A stream in a format other than Verbatim hands on no empty chunk.
  predicate HandsOn(r: Response, op: Op) {
    op.Stream? ==> r.encoding == VerbatimEncoding || Body(r, op) != []
  }

  // From r operation op leads to r'; ok is what a setter returns.
  ghost predicate Does(r: Response, op: Op, r': Response, ok: bool) {
    match op
    case SetHeader(key, value) => ok == !r.sent && r' == Set(r, key, value)
    case SetContentType(contentType, encoding) =>
      ok == !r.sent &&
      r' == if r.sent then Set(r, CONTENT_TYPE, contentType)
            else Set(r, CONTENT_TYPE, contentType).(encoding := encoding)
    case SetEncoding(encoding) => ok && r' == r.(encoding := encoding)
    case SendHeaders => ok && Sends(r, r')
    case Write(data) => ok && Writes(r, data, r')
    case Stream(_) => ok && if HandsOn(r, op) then Writes(r, Body(r, op), r') else r' == r
  }

  ghost predicate Fresh(r: Response) {
    r.headers == map[] && !r.sent && r.output == [] && !r.once && r.warnings == 0
  }

  // The states before, between and after the operations.
  ghost predicate Steps(states: seq<Response>, ops: seq<Op>, oks: seq<bool>) {
    && |states| == |ops| + 1 && |oks| == |ops|
    && forall i :: 0 <= i < |ops| ==> Does(states[i], ops[i], states[i + 1], oks[i])
  }

  // header(key): empty if there is none.
  function HeaderOf(r: Response, key: Text): Text {
    if key in r.headers then r.headers[key] else []
  }

  // A run of a request from its creation on.
  ghost predicate IsRun(states: seq<Response>, ops: seq<Op>, oks: seq<bool>) {
    Steps(states, ops, oks) && Fresh(states[0])
  }

  // What the destructor does unless headers have been sent.
  function Fallback(): seq<Op> {
    [SetStatus(500), SetContentType(TEXT_PLAIN, DetectEncoding(TEXT_PLAIN)),
     SetHeader(CONTENT_LENGTH, Decimal(|NO_DATA|)), Write(NO_DATA)]
  }

  predicate Sets(op: Op, key: Text) {
    match op
    case SetHeader(k, _) => k == key
    case SetContentType(_, _) => key == CONTENT_TYPE
    case _ => false
  }

  predicate IsSetter(op: Op) {
    op.SetHeader? || op.SetContentType?
  }

  function ValueSet(op: Op): Text {
    match op
    case SetHeader(_, value) => value
    case SetContentType(contentType, _) => contentType
    case _ => []
  }

  // The value of the first operation that sets key.
  function FirstSet(ops: seq<Op>, key: Text): (v: Option<Text>)
    ensures v.None? <==> forall i :: 0 <= i < |ops| ==> !Sets(ops[i], key)
    ensures v.Some? ==> exists i :: 0 <= i < |ops| && Sets(ops[i], key) && ValueSet(ops[i]) == v.value
                                    && forall k :: 0 <= k < i ==> !Sets(ops[k], key)
  {
    if ops == [] then None
    else if Sets(ops[0], key) then Some(ValueSet(ops[0]))
    else FirstSet(ops[1..], key)
  }

  // The bodies of the first n operations.
  function Bodies(states: seq<Response>, ops: seq<Op>, n: nat): Text
    requires n <= |ops| && n <= |states|
  {
    if n == 0 then [] else Bodies(states, ops, n - 1) + Body(states[n - 1], ops[n - 1])
  }

  // h has the first value set by ops for every key they set, and nothing else.
  ghost predicate Reflects(h: Headers, ops: seq<Op>) {
    forall key :: match FirstSet(ops, key)
                  case None => key !in h
                  case Some(value) => key in h && h[key] == value
  }

  // ----- One step -----

  lemma StepUnsent(r: Response, op: Op, r': Response, ok: bool)
    requires Does(r, op, r', ok) && !r.sent && !r'.sent
    ensures ok && r'.output == r.output && Body(r, op) == []
    ensures r'.headers == match op
                          case SetHeader(key, value) => Emplaced(r.headers, key, value)
                          case SetContentType(contentType, _) => Emplaced(r.headers, CONTENT_TYPE, contentType)
                          case _ => r.headers
    ensures r'.once == r.once && r'.warnings == r.warnings
  {
  }

  lemma StepSends(r: Response, op: Op, r': Response, ok: bool) returns (order: seq<Text>)
    requires Does(r, op, r', ok) && !r.sent && r'.sent
    ensures ok && !IsSetter(op)
    ensures r'.headers == Emplaced(r.headers, STATUS, OK_STATUS) && IsOrder(order, r'.headers)
    ensures r'.output == r.output + Block(r'.headers, order) + Body(r, op)
    ensures r'.once == r.once && r'.warnings == r.warnings
  {
    hide Block, IsOrder, BytesWritten;
    if op == SendHeaders {
      order :| SendsIn(r, order, r');
    } else {
      var mid :| Sends(r, mid) && r' == mid.(output := mid.output + Body(r, op));
      order :| SendsIn(r, order, mid);
    }
  }

  lemma StepSent(r: Response, op: Op, r': Response, ok: bool)
    requires Does(r, op, r', ok) && r.sent
    ensures r'.sent && r'.headers == r.headers && r'.output == r.output + Body(r, op)
    ensures IsSetter(op) ==> !ok
    ensures (r'.once, r'.warnings) ==
            if IsSetter(op) && !r.once then (true, r.warnings + 1) else (r.once, r.warnings)
  {
    hide Block, IsOrder, BytesWritten;
  }

  // ----- Whole runs -----

  // The headers a response is sent with, after ops: Status is there, 200 if ops did
  // not set it.
  ghost predicate SentHeaders(h: Headers, ops: seq<Op>) {
    forall key :: match FirstSet(ops, key)
                  case None => if key == STATUS then key in h && h[key] == OK_STATUS else key !in h
                  case Some(value) => key in h && h[key] == value
  }

  // The headers were sent by operation n, in this order: everything given to the web
  // server so far is one header block and the bodies.
  ghost predicate Answered(states: seq<Response>, ops: seq<Op>, i: nat, n: nat, order: seq<Text>)
    requires i <= |ops| && |states| == |ops| + 1
  {
    && n < i && !states[n].sent && states[n + 1].sent && !IsSetter(ops[n])
    && IsOrder(order, states[i].headers) && SentHeaders(states[i].headers, ops[..n])
    && states[i].output == Block(states[i].headers, order) + Bodies(states, ops, i)
  }

  lemma {:induction false} FirstSetExtend(ops: seq<Op>, op: Op, key: Text)
    ensures FirstSet(ops + [op], key) ==
            if FirstSet(ops, key).Some? then FirstSet(ops, key)
            else if Sets(op, key) then Some(ValueSet(op)) else None
  {
    if ops != [] {
      FirstSetExtend(ops[1..], op, key);
      assert (ops + [op])[1..] == ops[1..] + [op];
    }
  }

  lemma ReflectsExtend(h: Headers, h': Headers, ops: seq<Op>, op: Op)
    requires Reflects(h, ops)
    requires h' == match op
                   case SetHeader(key, value) => Emplaced(h, key, value)
                   case SetContentType(contentType, _) => Emplaced(h, CONTENT_TYPE, contentType)
                   case _ => h
    ensures Reflects(h', ops + [op])
  {
    hide FirstSet;
    forall key
      ensures match FirstSet(ops + [op], key) case None => key !in h' case Some(value) => key in h' && h'[key] == value
    {
      FirstSetExtend(ops, op, key);
      assert match FirstSet(ops, key) case None => key !in h case Some(value) => key in h && h[key] == value;
    }
  }

  // At every point of every run: nothing has been sent, and the headers are the
  // first values set; or one header block has, and all bodies after it.
  lemma {:induction false} Emission(states: seq<Response>, ops: seq<Op>, oks: seq<bool>, i: nat)
    returns (n: nat, order: seq<Text>)
    requires IsRun(states, ops, oks) && i <= |ops|
    ensures if states[i].sent then Answered(states, ops, i, n, order)
            else states[i].output == [] && Bodies(states, ops, i) == [] && Reflects(states[i].headers, ops[..i])
  {
    hide FirstSet, Block, IsOrder, Does, Body;
    if i == 0 {
      n, order := 0, [];
      assert ops[..0] == [];
      NothingSet(states[0].headers);
    } else {
      n, order := Emission(states, ops, oks, i - 1);
      var r, op, r', ok := states[i - 1], ops[i - 1], states[i], oks[i - 1];
      assert Does(r, op, r', ok);
      assert ops[..i] == ops[..i - 1] + [op];
      if r.sent {
        StepSent(r, op, r', ok);
      } else if r'.sent {
        n := i - 1;
        order := StepSends(r, op, r', ok);
        StatusAdded(r.headers, r'.headers, ops[..n]);
      } else {
        StepUnsent(r, op, r', ok);
        ReflectsExtend(r.headers, r'.headers, ops[..i - 1], op);
      }
    }
  }

  lemma NothingSet(h: Headers)
    requires h == map[]
    ensures Reflects(h, [])
  {
  }

  lemma StatusAdded(h: Headers, h': Headers, ops: seq<Op>)
    requires Reflects(h, ops) && h' == Emplaced(h, STATUS, OK_STATUS)
    ensures SentHeaders(h', ops)
  {
    hide FirstSet;
  }

  // Once sent, headers stay sent and stay as they are.
  lemma {:induction false} HeadersFrozen(states: seq<Response>, ops: seq<Op>, oks: seq<bool>, i: nat, j: nat)
    requires IsRun(states, ops, oks) && i <= j <= |ops| && states[i].sent
    ensures states[j].sent && states[j].headers == states[i].headers && states[i].output <= states[j].output
    decreases j
  {
    hide Does, Body;
    if i < j {
      HeadersFrozen(states, ops, oks, i, j - 1);
      assert Does(states[j - 1], ops[j - 1], states[j], oks[j - 1]);
      StepSent(states[j - 1], ops[j - 1], states[j], oks[j - 1]);
    }
  }

  // Setters report whether they came in time, and the first that did not is logged.
  lemma {:induction false} WarnedOnce(states: seq<Response>, ops: seq<Op>, oks: seq<bool>, i: nat)
    requires IsRun(states, ops, oks) && i <= |ops|
    ensures forall j :: 0 <= j < i && IsSetter(ops[j]) ==> (oks[j] <==> !states[j].sent)
    ensures states[i].warnings == if states[i].once then 1 else 0
    ensures states[i].once <==> exists j :: 0 <= j < i && IsSetter(ops[j]) && !oks[j]
  {
    hide Body, FirstSet, Block;
    if i > 0 {
      WarnedOnce(states, ops, oks, i - 1);
      var r, op, r', ok := states[i - 1], ops[i - 1], states[i], oks[i - 1];
      assert Does(r, op, r', ok);
      if r.sent {
        StepSent(r, op, r', ok);
      } else if r'.sent {
        var _ := StepSends(r, op, r', ok);
      } else {
        StepUnsent(r, op, r', ok);
      }
    }
  }

  // ----- Destruction -----

  // After k operations of its users the request is destroyed.
  ghost predicate IsLife(states: seq<Response>, ops: seq<Op>, oks: seq<bool>, k: nat) {
    && IsRun(states, ops, oks) && k <= |ops|
    && ops[k..] == if states[k].sent then [] else Fallback()
  }

  function OrElse(v: Option<Text>, otherwise: Text): Text {
    match v case Some(t) => t case None => otherwise
  }

  lemma SetterStays(r: Response, op: Op, r': Response, ok: bool)
    requires Does(r, op, r', ok) && IsSetter(op) && !r.sent
    ensures !r'.sent && Body(r, op) == []
  {
  }

  lemma WriteSends(r: Response, data: Text, r': Response, ok: bool)
    requires Does(r, Write(data), r', ok)
    ensures r'.sent && Body(r, Write(data)) == data
  {
  }

  lemma FourMoreBodies(states: seq<Response>, ops: seq<Op>, k: nat)
    requires |ops| == k + 4 && |states| == |ops| + 1 && Bodies(states, ops, k) == []
    requires Body(states[k], ops[k]) == Body(states[k + 1], ops[k + 1]) == Body(states[k + 2], ops[k + 2]) == []
    ensures Bodies(states, ops, k + 4) == Body(states[k + 3], ops[k + 3])
  {
    hide Body;
    assert Bodies(states, ops, k + 1) == [];
    assert Bodies(states, ops, k + 2) == [];
    assert Bodies(states, ops, k + 3) == [];
  }

  lemma {:induction false} FallbackSends(states: seq<Response>, ops: seq<Op>, oks: seq<bool>, k: nat)
    requires IsLife(states, ops, oks, k) && !states[k].sent
    ensures |ops| == k + 4 && ops[..k + 3] == ops[..k] + Fallback()[..3]
    ensures !states[k + 1].sent && !states[k + 2].sent && !states[k + 3].sent && states[k + 4].sent
    ensures Bodies(states, ops, k + 4) == NO_DATA
  {
    hide Does, Body, Decimal, Bodies, Answered, Reflects;
    var _, _ := Emission(states, ops, oks, k);
    FallbackOps(ops, k);
    StepsAt(states, ops, oks, k);
    StepsAt(states, ops, oks, k + 1);
    StepsAt(states, ops, oks, k + 2);
    StepsAt(states, ops, oks, k + 3);
    SetterStays(states[k], ops[k], states[k + 1], oks[k]);
    SetterStays(states[k + 1], ops[k + 1], states[k + 2], oks[k + 1]);
    SetterStays(states[k + 2], ops[k + 2], states[k + 3], oks[k + 2]);
    WriteSends(states[k + 3], NO_DATA, states[k + 4], oks[k + 3]);
    FourMoreBodies(states, ops, k);
  }

  lemma FallbackOps(ops: seq<Op>, k: nat)
    requires k <= |ops| && ops[k..] == Fallback()
    ensures |ops| == k + 4 && ops[..k + 3] == ops[..k] + Fallback()[..3]
    ensures IsSetter(ops[k]) && IsSetter(ops[k + 1]) && IsSetter(ops[k + 2]) && ops[k + 3] == Write(NO_DATA)
  {
    hide Decimal;
    assert ops == ops[..k] + Fallback();
    assert forall j :: 0 <= j < 4 ==> ops[k + j] == Fallback()[j];
  }

  lemma StepsAt(states: seq<Response>, ops: seq<Op>, oks: seq<bool>, i: nat)
    requires Steps(states, ops, oks) && i < |ops|
    ensures Does(states[i], ops[i], states[i + 1], oks[i])
  {
  }

  lemma {:induction false} SentByFallback(states: seq<Response>, ops: seq<Op>, oks: seq<bool>, k: nat, n: nat)
    requires IsRun(states, ops, oks) && |ops| == k + 4 && n < |ops|
    requires !states[k].sent && !states[k + 1].sent && !states[k + 2].sent && !states[k + 3].sent
    requires states[n + 1].sent
    ensures n == k + 3
  {
    if n < k {
      HeadersFrozen(states, ops, oks, n + 1, k);
    }
  }

  lemma {:induction false} FallbackHeaders(h: Headers, user: seq<Op>, ops: seq<Op>)
    requires ops == user + Fallback()[..3] && SentHeaders(h, ops)
    ensures STATUS in h && h[STATUS] == OrElse(FirstSet(user, STATUS), Decimal(500))
    ensures CONTENT_TYPE in h && h[CONTENT_TYPE] == OrElse(FirstSet(user, CONTENT_TYPE), TEXT_PLAIN)
    ensures CONTENT_LENGTH in h && h[CONTENT_LENGTH] == OrElse(FirstSet(user, CONTENT_LENGTH), Decimal(|NO_DATA|))
  {
    hide FirstSet, Decimal;
    assert |STATUS| != |CONTENT_TYPE| && |CONTENT_LENGTH| != |STATUS| && |CONTENT_LENGTH| != |CONTENT_TYPE|;
    FirstSetWithFallback(user, STATUS);
    FirstSetWithFallback(user, CONTENT_TYPE);
    FirstSetWithFallback(user, CONTENT_LENGTH);
  }

  lemma FirstSetWithFallback(user: seq<Op>, key: Text)
    ensures FirstSet(user + Fallback()[..3], key) ==
            if FirstSet(user, key).Some? then FirstSet(user, key)
            else if key == STATUS then Some(Decimal(500))
            else if key == CONTENT_TYPE then Some(TEXT_PLAIN)
            else if key == CONTENT_LENGTH then Some(Decimal(|NO_DATA|))
            else None
  {
    hide FirstSet, Decimal;
    var f := Fallback();
    assert |STATUS| != |CONTENT_TYPE| && |CONTENT_LENGTH| != |STATUS| && |CONTENT_LENGTH| != |CONTENT_TYPE|;
    assert user + f[..3] == user + [f[0]] + [f[1]] + [f[2]];
    FirstSetExtend(user, f[0], key);
    FirstSetExtend(user + [f[0]], f[1], key);
    FirstSetExtend(user + [f[0]] + [f[1]], f[2], key);
  }

  // Over the whole life of a request one header block, one blank line and the bodies
  // are written; if its users never sent anything the body is the fallback text, and
  // the headers they set stand, completed by those of the fallback.
  lemma {:induction false} WholeResponse(states: seq<Response>, ops: seq<Op>, oks: seq<bool>, k: nat)
    returns (n: nat, order: seq<Text>)
    requires IsLife(states, ops, oks, k)
    ensures Answered(states, ops, |ops|, n, order)
    ensures states[k].sent ==> n < k == |ops|
    ensures !states[k].sent ==>
              && n == k + 3 && Bodies(states, ops, |ops|) == NO_DATA
              && var h := states[|ops|].headers;
                 && STATUS in h && h[STATUS] == OrElse(FirstSet(ops[..k], STATUS), Decimal(500))
                 && CONTENT_TYPE in h && h[CONTENT_TYPE] == OrElse(FirstSet(ops[..k], CONTENT_TYPE), TEXT_PLAIN)
                 && CONTENT_LENGTH in h
                 && h[CONTENT_LENGTH] == OrElse(FirstSet(ops[..k], CONTENT_LENGTH), Decimal(|NO_DATA|))
  {
    hide FirstSet, Does, Body, Reflects, SentHeaders, IsOrder, Block, Decimal;
    if states[k].sent {
      n, order := Emission(states, ops, oks, k);
    } else {
      FallbackSends(states, ops, oks, k);
      n, order := Emission(states, ops, oks, |ops|);
      SentByFallback(states, ops, oks, k, n);
      FallbackHeaders(states[|ops|].headers, ops[..k], ops[..k + 3]);
    }
  }

  // ----- The code -----

  lemma LinesExtend(h: Headers, order: seq<Text>, key: Text)
    ensures Lines(h, order + [key]) == Lines(h, order) + Line(h, key)
  {
    FlatMapConcat(k => Line(h, k), order, [key]);
    FlatMapOne(k => Line(h, k), key);
  }

  // Between two rounds of the loop of send_headers: the keys of order have been
  // written, those remaining have not.
  ghost predicate Halfway(h: Headers, order: seq<Text>, remaining: set<Text>) {
    && (forall k :: k in h <==> k in order || k in remaining)
    && (forall k :: k in order ==> k !in remaining)
    && (forall i, j :: 0 <= i < j < |order| ==> order[i] != order[j])
  }

  lemma HalfwayOn(h: Headers, order: seq<Text>, remaining: set<Text>, key: Text)
    requires Halfway(h, order, remaining) && key in remaining
    ensures Halfway(h, order + [key], remaining - {key}) && key in h
  {
  }

  class HttpResponse {
    var headers: Headers
    var headersSent: bool
    var encoding: ContentEncoding
    var headersSentWarning: bool
    // Everything cgi_data was given, and how many warnings were logged.
    var output: Text
    var warnings: nat

    function Value(): Response
      reads this
    {
      Response(headers, headersSent, encoding, output, headersSentWarning, warnings)
    }

    // The encoding is not initialised.
    constructor ()
      ensures Fresh(Value())
    {
      headers, headersSent, encoding, headersSentWarning := map[], false, *, false;
      output, warnings := [], 0;
    }

    // header(key): empty if there is none.
    function Header(key: Text): (value: Text)
      reads this
    {
      HeaderOf(Value(), key)
    }

    method SetHeader(key: Text, value: Text) returns (ok: bool)
      modifies this
      ensures Does(old(Value()), Op.SetHeader(key, value), Value(), ok)
    {
      if headersSent {
        if !headersSentWarning {
          headersSentWarning := true;
          warnings := warnings + 1;
        }
        return false;
      }
      if key !in headers {
        headers := headers[key := value];
      }
      return true;
    }

    method SetHttpStatus(code: nat) returns (ok: bool)
      modifies this
      ensures Does(old(Value()), SetStatus(code), Value(), ok)
    {
      ok := SetHeader(STATUS, Decimal(code));
    }

    method SetContentTypeAs(contentType: Text, encoding: ContentEncoding) returns (ok: bool)
      modifies this
      ensures Does(old(Value()), Op.SetContentType(contentType, encoding), Value(), ok)
    {
      ok := SetHeader(CONTENT_TYPE, contentType);
      if ok {
        this.encoding := encoding;
      }
    }

    // The encoding follows from the type's name.
    method SetContentType(contentType: Text) returns (ok: bool)
      modifies this
      ensures Does(old(Value()), Op.SetContentType(contentType, DetectEncoding(contentType)), Value(), ok)
    {
      var newEncoding;
      if contentType == TEXT_HTML {
        newEncoding := HTMLEncoding;
      } else if contentType[..if |contentType| < 5 then |contentType| else 5] == TEXT_PREFIX {
        newEncoding := UTF8Encoding;
      } else {
        newEncoding := VerbatimEncoding;
      }
      ok := SetContentTypeAs(contentType, newEncoding);
    }

    method SetEncoding(encoding: ContentEncoding)
      modifies this
      ensures Does(old(Value()), Op.SetEncoding(encoding), Value(), true)
    {
      this.encoding := encoding;
    }

    method SendHeaders()
      modifies this
      ensures Sends(old(Value()), Value())
    {
      hide Line, Lines, Halfway;
      if headersSent {
        return;
      }
      if STATUS !in headers {
        headers := headers[STATUS := OK_STATUS];
      }
      ghost var order: seq<Text> := [];
      var remaining := headers.Keys;
      StartHalfway(headers);
      while remaining != {}
        invariant Halfway(headers, order, remaining)
        invariant headers == Emplaced(old(headers), STATUS, OK_STATUS)
        invariant Value() == old(Value()).(headers := headers, output := old(output) + Lines(headers, order))
        decreases |remaining|
      {
        var key :| key in remaining;
        HalfwayOn(headers, order, remaining, key);
        LinesExtend(headers, order, key);
        LineWritten(headers, old(output), Lines(headers, order), key);
        output := output + key;
        output := output + COLON;
        output := output + headers[key];
        output := output + CRLF;
        order, remaining := order + [key], remaining - {key};
      }
      output := output + CRLF;
      headersSent := true;
      Associative(old(output), Lines(headers, order), CRLF);
      AllWritten(headers, order);
      assert SendsIn(old(Value()), order, Value());
    }

    method Write(data: Text)
      modifies this
      ensures Writes(old(Value()), data, Value())
    {
      SendHeaders();
      ghost var mid := Value();
      output := output + data;
      assert Value() == mid.(output := mid.output + data);
    }

    // RequestStream::real_append, once for every chunk.
    method WriteChunks(out: Text, sizes: seq<nat>)
      requires Total(sizes) == |out|
      modifies this
      ensures if sizes == [] then Value() == old(Value()) else Writes(old(Value()), out, Value())
    {
      hide Writes, Total;
      TotalOfAll(sizes);
      var at := 0;
      for i := 0 to |sizes|
        invariant at == Total(sizes[..i]) && at <= |out|
        invariant if i == 0 then Value() == old(Value()) else Writes(old(Value()), out[..at], Value())
      {
        TotalOfPart(sizes, i);
        ghost var r, piece := Value(), out[at..at + sizes[i]];
        Write(out[at..at + sizes[i]]);
        if i > 0 {
          WritesTwice(old(Value()), out[..at], r, piece, Value());
        }
        assert out[..at + sizes[i]] == out[..at] + piece;
        assert i == 0 ==> out[..at + sizes[i]] == piece;
        at := at + sizes[i];
      }
      assert out[..|out|] == out;
    }

    // The destructor.
    method Destroy() returns (ghost states: seq<Response>, ghost oks: seq<bool>)
      modifies this
      ensures Steps(states, if old(headersSent) then [] else Fallback(), oks)
      ensures states[0] == old(Value()) && states[|states| - 1] == Value()
    {
      hide Does, Decimal;
      states, oks := [Value()], [];
      if !headersSent {
        var ok := SetHttpStatus(500);
        states, oks := states + [Value()], oks + [ok];
        ok := SetContentType(TEXT_PLAIN);
        states, oks := states + [Value()], oks + [ok];
        ok := SetHeader(CONTENT_LENGTH, Decimal(|NO_DATA|));
        states, oks := states + [Value()], oks + [ok];
        ghost var r := Value();
        Write(NO_DATA);
        WritingIsWrite(r, NO_DATA, Value());
        states, oks := states + [Value()], oks + [true];
      }
    }

    // write_stream() << text
    method Stream(text: Text)
      modifies this
      ensures Does(old(Value()), Op.Stream(text), Value(), true)
    {
      hide Sends, Total, BytesWritten, Flushed, Writes;
      var formatter := new GenericFormatter(ToFormat(encoding));
      ghost var sent := formatter.WriteBytes(text);
      assert formatter.sizes == sent && formatter.output == [] + BytesWritten(ToFormat(encoding), text);
      ChunksOf(old(Value()), text, formatter.output, formatter.sizes);
      WriteChunks(formatter.output, formatter.sizes);
    }
  }

  lemma WritingIsWrite(r: Response, data: Text, r': Response)
    requires Writes(r, data, r')
    ensures Does(r, Op.Write(data), r', true)
  {
  }

  // What the formatter makes of text, chunk by chunk.
  lemma ChunksOf(r: Response, text: Text, out: Text, sizes: seq<nat>)
    requires out == BytesWritten(ToFormat(r.encoding), text) && Total(sizes) == |out|
    requires if ToFormat(r.encoding) == Verbatim then sizes == [|text|] else Flushed(sizes)
    ensures Body(r, Op.Stream(text)) == out && (HandsOn(r, Op.Stream(text)) <==> sizes != [])
  {
    if ToFormat(r.encoding) != Verbatim {
      FlushedTotal(sizes);
    }
  }

  lemma WritesTwice(r: Response, a: Text, r1: Response, b: Text, r2: Response)
    requires Writes(r, a, r1) && Writes(r1, b, r2)
    ensures Writes(r, a + b, r2)
  {
    var mid :| Sends(r, mid) && r1 == mid.(output := mid.output + a);
    assert mid.sent && r1.sent;
    Associative(mid.output, a, b);
  }

  lemma StartHalfway(h: Headers)
    ensures Halfway(h, [], h.Keys) && Lines(h, []) == []
  {
  }

  lemma LineWritten(h: Headers, before: Text, lines: Text, key: Text)
    requires key in h
    ensures before + lines + key + COLON + h[key] + CRLF == before + (lines + Line(h, key))
  {
  }

  lemma AllWritten(h: Headers, order: seq<Text>)
    requires Halfway(h, order, {})
    ensures IsOrder(order, h)
  {
  }
}
