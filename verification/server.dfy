// What Server::thread_function of src/lib/server.cpp does to a request once the
// router has returned, or thrown.
module Servers {
  import opened Bytes
  import opened Utf8
  import opened Markup
  import opened Responses
  import Routing

  type RouteResult = Routing.RouteResult

  function DefaultStatus(result: RouteResult): nat {
    match result
    case Handled => 200
    case NotFound => 404
    case InvalidMethod => 405
    case InternalError => 500
  }

  // The status set if there is none.
  function StatusOps(r: Response, result: RouteResult): seq<Op> {
    if HeaderOf(r, STATUS) == [] then [SetStatus(DefaultStatus(result))] else []
  }

  // Then the headers are sent, with the status as body if there is no content type.
  function SendOps(r: Response): seq<Op> {
    if r.sent then []
    else if HeaderOf(r, CONTENT_TYPE) == [] then
      [SetContentType(TEXT_PLAIN, DetectEncoding(TEXT_PLAIN)), Stream(HeaderOf(r, STATUS))]
    else [SendHeaders]
  }

  // The tail of the loop, as the operations it amounts to from r on.
  ghost predicate IsTail(states: seq<Response>, ops: seq<Op>, oks: seq<bool>, result: RouteResult) {
    Steps(states, ops, oks) &&
    var first := StatusOps(states[0], result);
    |first| <= |ops| && ops == first + SendOps(states[|first|])
  }

  // ----- When headers are still not sent after the tail -----

  // The tail leaves headers unsent just when they had not been sent, there is no
  // content type, and there is a status of which nothing is left in UTF-8: an empty
  // one, or bytes that spell no character.
  ghost predicate Unsendable(r: Response) {
    && !r.sent && HeaderOf(r, CONTENT_TYPE) == []
    && STATUS in r.headers && Clean(r.headers[STATUS]) == []
  }

  lemma PlainTextIsUtf8()
    ensures DetectEncoding(TEXT_PLAIN) == UTF8Encoding && DetectEncoding(TEXT_HTML) == HTMLEncoding
    ensures |CONTENT_TYPE| != |STATUS|
  {
    assert TEXT_PLAIN[..5] == TEXT_PREFIX;
    assert |TEXT_PLAIN| != |TEXT_HTML|;
  }

  lemma DecimalIsClean(n: nat)
    ensures Clean(Decimal(n)) == Decimal(n)
  {
    AsciiIsClean(Decimal(n), FRESH);
  }

  // After the first half.
  lemma StatusDone(r: Response, result: RouteResult, states: seq<Response>, oks: seq<bool>, r1: Response)
    requires Steps(states, StatusOps(r, result), oks) && states[0] == r && states[|states| - 1] == r1
    ensures r1.sent == r.sent && r1.encoding == r.encoding
    ensures r.sent ==> r1.headers == r.headers
    ensures !r.sent ==>
              r1.headers == if STATUS in r.headers then r.headers
                            else r.headers[STATUS := Decimal(DefaultStatus(result))]
  {
    hide Decimal;
    if StatusOps(r, result) != [] {
      assert Does(states[0], SetStatus(DefaultStatus(result)), states[1], oks[0]);
    }
  }

  // A stream in UTF-8 sends headers just when something is left of the text.
  lemma StreamSends(r: Response, text: Text, r': Response, ok: bool)
    requires Does(r, Stream(text), r', ok) && !r.sent && r.encoding == UTF8Encoding
    ensures r'.sent <==> Clean(text) != []
    ensures r'.sent ==> r'.headers == Emplaced(r.headers, STATUS, OK_STATUS)
    ensures !r'.sent ==> r' == r
  {
    hide Block, IsOrder, Clean, BytesOut;
    Utf8FormatCleans(text);
    assert Body(r, Stream(text)) == Clean(text);
  }

  lemma HeadersSent(r: Response, r': Response, ok: bool)
    requires Does(r, SendHeaders, r', ok) && !r.sent
    ensures r'.sent && r'.headers == Emplaced(r.headers, STATUS, OK_STATUS)
  {
  }

  // After the second half.
  lemma SendDone(r: Response, states: seq<Response>, oks: seq<bool>, r': Response)
    requires Steps(states, SendOps(r), oks) && states[0] == r && states[|states| - 1] == r'
    ensures r'.sent <==> r.sent || HeaderOf(r, CONTENT_TYPE) != [] || Clean(HeaderOf(r, STATUS)) != []
    ensures forall key :: key in r.headers ==> key in r'.headers && r'.headers[key] == r.headers[key]
  {
    hide Clean, Sends;
    if !r.sent {
      assert Does(states[0], SendOps(r)[0], states[1], oks[0]);
      if HeaderOf(r, CONTENT_TYPE) == [] {
        PlainTextIsUtf8();
        assert Does(states[1], SendOps(r)[1], states[2], oks[1]);
        StreamSends(states[1], HeaderOf(r, STATUS), states[2], oks[1]);
      } else {
        HeadersSent(r, r', oks[0]);
      }
    }
  }

  // The tail sends the headers unless there is a status that cannot be shown and no
  // content type; and a request nobody gave a status gets the router's.
  lemma TailSends(states: seq<Response>, ops: seq<Op>, oks: seq<bool>, result: RouteResult)
    requires IsTail(states, ops, oks, result)
    ensures states[|ops|].sent <==> !Unsendable(states[0])
    ensures !states[0].sent && STATUS !in states[0].headers ==>
              STATUS in states[|ops|].headers && states[|ops|].headers[STATUS] == Decimal(DefaultStatus(result))
  {
    hide Does, Clean, Decimal;
    var r := states[0];
    var first := StatusOps(r, result);
    var n := |first|;
    StatusDone(r, result, states[..n + 1], oks[..n], states[n]);
    SendDone(states[n], states[n..], oks[n..], states[|ops|]);
    PlainTextIsUtf8();
    DecimalIsClean(DefaultStatus(result));
    NothingIsClean();
  }

  // What the router's results are called.
  function StatusText(result: RouteResult): Text {
    match result
    case Handled => Ascii("200")
    case NotFound => Ascii("404")
    case InvalidMethod => Ascii("405")
    case InternalError => Ascii("500")
  }

  lemma StatusNames(result: RouteResult)
    ensures Decimal(DefaultStatus(result)) == StatusText(result)
  {
    ThreeDigits(DefaultStatus(result));
  }

  lemma ThreeDigits(n: nat)
    requires 100 <= n < 1000
    ensures Decimal(n) == [(0x30 + n / 100) as Byte, (0x30 + n / 10 % 10) as Byte, (0x30 + n % 10) as Byte]
  {
    assert Decimal(n) == Decimal(n / 10) + [(0x30 + n % 10) as Byte];
    assert Decimal(n / 10) == Decimal(n / 100) + [(0x30 + n / 10 % 10) as Byte];
  }

  // What the tail writes when it sends: one block, and then the status as text if
  // there was no content type, or nothing.
  ghost predicate TailWrites(r: Response, r': Response, order: seq<Text>) {
    var h := r'.headers;
    && IsOrder(order, h) && STATUS in h
    && (HeaderOf(r, CONTENT_TYPE) == [] ==> r'.output == r.output + Block(h, order) + Clean(h[STATUS]))
    && (HeaderOf(r, CONTENT_TYPE) != [] ==> r'.output == r.output + Block(h, order))
    && (CONTENT_TYPE !in r.headers ==> CONTENT_TYPE in h && h[CONTENT_TYPE] == Ascii("text/plain"))
    && forall key :: key in r.headers ==> key in h && h[key] == r.headers[key]
  }

  lemma SendWrites(r: Response, states: seq<Response>, oks: seq<bool>, r': Response) returns (order: seq<Text>)
    requires Steps(states, SendOps(r), oks) && states[0] == r && states[|states| - 1] == r'
    requires !r.sent && r'.sent && STATUS in r.headers
    ensures TailWrites(r, r', order)
  {
    hide Clean, Sends, IsOrder, Block, BytesOut;
    assert Does(states[0], SendOps(r)[0], states[1], oks[0]);
    if HeaderOf(r, CONTENT_TYPE) == [] {
      PlainTextIsUtf8();
      assert Does(states[1], SendOps(r)[1], states[2], oks[1]);
      StepUnsent(states[0], SendOps(r)[0], states[1], oks[0]);
      order := StepSends(states[1], SendOps(r)[1], states[2], oks[1]);
      Utf8FormatCleans(HeaderOf(r, STATUS));
    } else {
      order := StepSends(r, SendHeaders, r', oks[0]);
      assert r'.output == r.output + Block(r'.headers, order);
    }
  }

  // The tail adds nothing to an answer that has been sent; else, if it sends one, that is
  // one header block and, for want of a content type, the status as plain text. The
  // status is the one set before, or 200, 404, 405 or 500 after the router's result.
  lemma TailOutput(states: seq<Response>, ops: seq<Op>, oks: seq<bool>, result: RouteResult)
    returns (order: seq<Text>)
    requires IsTail(states, ops, oks, result)
    ensures states[0].sent ==> states[|ops|].output == states[0].output && states[|ops|].headers == states[0].headers
    ensures !states[0].sent && states[|ops|].sent ==> TailWrites(states[0], states[|ops|], order)
    ensures !states[0].sent && STATUS !in states[0].headers ==>
              STATUS in states[|ops|].headers && states[|ops|].headers[STATUS] == StatusText(result)
  {
    hide Does, Clean, Decimal, TailWrites, StatusText;
    order := [];
    var r, n := states[0], |StatusOps(states[0], result)|;
    StatusNames(result);
    TailSends(states, ops, oks, result);
    StatusDone(r, result, states[..n + 1], oks[..n], states[n]);
    StatusWritesNothing(r, result, states[..n + 1], oks[..n], states[n]);
    if !r.sent && states[|ops|].sent {
      order := SendWrites(states[n], states[n..], oks[n..], states[|ops|]);
      WritesSame(r, states[n], states[|ops|], order);
    }
  }

  lemma StatusWritesNothing(r: Response, result: RouteResult, states: seq<Response>, oks: seq<bool>, r1: Response)
    requires Steps(states, StatusOps(r, result), oks) && states[0] == r && states[|states| - 1] == r1
    ensures r1.output == r.output
  {
    hide Decimal;
    if StatusOps(r, result) != [] {
      assert Does(states[0], SetStatus(DefaultStatus(result)), states[1], oks[0]);
    }
  }

  lemma WritesSame(r: Response, r1: Response, r': Response, order: seq<Text>)
    requires TailWrites(r1, r', order) && r1.output == r.output
    requires forall key :: key in r.headers ==> key in r1.headers && r1.headers[key] == r.headers[key]
    requires forall key :: key in r1.headers ==> key in r.headers || key == STATUS
    ensures TailWrites(r, r', order)
  {
    hide Block, IsOrder, Clean;
    PlainTextIsUtf8();
  }

  lemma NothingIsClean()
    ensures Clean([]) == []
  {
  }

  // An empty status, which only set_header can give, is enough.
  lemma EmptyStatusIsNotSent(states: seq<Response>, ops: seq<Op>, oks: seq<bool>, result: RouteResult)
    requires IsTail(states, ops, oks, result)
    requires states[0].headers == map[STATUS := []] && !states[0].sent
    ensures !states[|ops|].sent
  {
    hide IsTail;
    PlainTextIsUtf8();
    NothingIsClean();
    TailIsSteps(states, ops, oks, result);
    TailSends(states, ops, oks, result);
  }

  lemma TailIsSteps(states: seq<Response>, ops: seq<Op>, oks: seq<bool>, result: RouteResult)
    requires IsTail(states, ops, oks, result)
    ensures |states| == |ops| + 1 && Steps(states, ops, oks)
  {
  }

  lemma RunIsSteps(states: seq<Response>, ops: seq<Op>, oks: seq<bool>)
    requires IsRun(states, ops, oks)
    ensures |states| == |ops| + 1 && Steps(states, ops, oks)
  {
  }

  // ----- Whatever the handler did -----

  // Status is set through set_http_status, if at all.
  ghost predicate StatusByCode(op: Op) {
    Sets(op, STATUS) ==> exists code: nat :: op == SetStatus(code)
  }

  // k operations of the handler on a new request, then the tail.
  ghost predicate IsService(states: seq<Response>, ops: seq<Op>, oks: seq<bool>, k: nat, result: RouteResult) {
    && k <= |ops| && |states| == |ops| + 1 && |oks| == |ops|
    && IsRun(states[..k + 1], ops[..k], oks[..k]) && IsTail(states[k..], ops[k..], oks[k..], result)
  }

  lemma {:induction false} CodesCanBeShown(h: Headers, ops: seq<Op>)
    requires Reflects(h, ops) && STATUS in h
    requires forall i :: 0 <= i < |ops| ==> StatusByCode(ops[i])
    ensures Clean(h[STATUS]) != []
  {
    hide Clean, Decimal;
    var v := FirstSet(ops, STATUS).value;
    var i :| 0 <= i < |ops| && Sets(ops[i], STATUS) && ValueSet(ops[i]) == v;
    assert StatusByCode(ops[i]);
    var code: nat :| ops[i] == SetStatus(code);
    DecimalIsClean(code);
  }

  // If Status is only ever set through set_http_status, every request leaves the loop
  // with headers sent, whatever the handler wrote and however it ended: the
  // destructor has nothing left to do. A request that got neither a status nor its
  // headers sent is answered with the status for the router's result.
  lemma {:induction false} ServedRequestsAreAnswered(states: seq<Response>, ops: seq<Op>, oks: seq<bool>,
                                                     k: nat, result: RouteResult)
    requires IsService(states, ops, oks, k, result)
    requires forall i :: 0 <= i < k ==> StatusByCode(ops[i])
    ensures states[|ops|].sent && IsLife(states, ops, oks, |ops|)
    ensures !states[k].sent && FirstSet(ops[..k], STATUS) == None ==>
              var h := states[|ops|].headers;
              STATUS in h && h[STATUS] == Decimal(DefaultStatus(result))
  {
    hide Does, Clean, Decimal, FirstSet, StatusByCode, IsTail, IsRun, IsLife, Answered, Bodies, SendOps, StatusOps;
    TailIsSteps(states[k..], ops[k..], oks[k..], result);
    TailSends(states[k..], ops[k..], oks[k..], result);
    RunIsSteps(states[..k + 1], ops[..k], oks[..k]);
    var _, _ := Emission(states[..k + 1], ops[..k], oks[..k], k);
    assert ops[..k][..k] == ops[..k];
    if !states[k].sent && STATUS in states[k].headers {
      CodesCanBeShown(states[k].headers, ops[..k]);
    }
    LifeOf(states, ops, oks, k);
  }

  lemma {:induction false} LifeOf(states: seq<Response>, ops: seq<Op>, oks: seq<bool>, k: nat)
    requires k <= |ops| && |states| == |ops| + 1 && |oks| == |ops| && states[|ops|].sent
    requires IsRun(states[..k + 1], ops[..k], oks[..k]) && Steps(states[k..], ops[k..], oks[k..])
    ensures IsLife(states, ops, oks, |ops|)
  {
    hide Does;
    forall i | 0 <= i < |ops| ensures Does(states[i], ops[i], states[i + 1], oks[i]) {
      if i < k {
        assert Does(states[..k + 1][i], ops[..k][i], states[..k + 1][i + 1], oks[..k][i]);
      } else {
        assert Does(states[k..][i - k], ops[k..][i - k], states[k..][i - k + 1], oks[k..][i - k]);
      }
    }
  }

  // ----- The code -----

  lemma SendingIsSend(r: Response, r': Response)
    requires Sends(r, r')
    ensures Does(r, SendHeaders, r', true)
  {
  }

  lemma ContentTypeKeepsStatus(r: Response, contentType: Text, encoding: ContentEncoding, r': Response, ok: bool)
    requires Does(r, SetContentType(contentType, encoding), r', ok)
    ensures HeaderOf(r', STATUS) == HeaderOf(r, STATUS)
  {
    PlainTextIsUtf8();
  }

  method EnsureStatus(request: HttpResponse, result: RouteResult)
    returns (ghost states: seq<Response>, ghost oks: seq<bool>)
    modifies request
    ensures Steps(states, StatusOps(old(request.Value()), result), oks)
    ensures states[0] == old(request.Value()) && states[|states| - 1] == request.Value()
  {
    hide Does, Decimal;
    states, oks := [request.Value()], [];
    if request.Header(STATUS) == [] {
      var ok;
      match result {
        case Handled => ok := request.SetHttpStatus(200);
        case NotFound => ok := request.SetHttpStatus(404);
        case InvalidMethod => ok := request.SetHttpStatus(405);
        case InternalError => ok := request.SetHttpStatus(500);
      }
      states, oks := states + [request.Value()], oks + [ok];
    }
  }

  method EnsureSent(request: HttpResponse) returns (ghost states: seq<Response>, ghost oks: seq<bool>)
    modifies request
    ensures Steps(states, SendOps(old(request.Value())), oks)
    ensures states[0] == old(request.Value()) && states[|states| - 1] == request.Value()
  {
    hide Does;
    states, oks := [request.Value()], [];
    if !request.headersSent {
      ghost var r := request.Value();
      if request.Header(CONTENT_TYPE) == [] {
        var ok := request.SetContentType(TEXT_PLAIN);
        ContentTypeKeepsStatus(r, TEXT_PLAIN, DetectEncoding(TEXT_PLAIN), request.Value(), ok);
        states, oks := states + [request.Value()], oks + [ok];
        request.Stream(request.Header(STATUS));
        states, oks := states + [request.Value()], oks + [true];
      } else {
        request.SendHeaders();
        SendingIsSend(r, request.Value());
        states, oks := states + [request.Value()], oks + [true];
      }
    }
  }

  method CompleteRequest(request: HttpResponse, result: RouteResult)
    returns (ghost states: seq<Response>, ghost ops: seq<Op>, ghost oks: seq<bool>)
    modifies request
    ensures IsTail(states, ops, oks, result)
    ensures states[0] == old(request.Value()) && states[|ops|] == request.Value()
  {
    hide Does, StatusOps, SendOps;
    ghost var first := StatusOps(request.Value(), result);
    states, oks := EnsureStatus(request, result);
    ghost var second, more, moreOks := SendOps(request.Value()), [], [];
    more, moreOks := EnsureSent(request);
    StepsJoin(states, first, oks, more, second, moreOks);
    assert (states + more[1..])[|first|] == more[0];
    states, ops, oks := states + more[1..], first + second, oks + moreOks;
  }

  lemma StepsJoin(states: seq<Response>, ops: seq<Op>, oks: seq<bool>,
                  more: seq<Response>, moreOps: seq<Op>, moreOks: seq<bool>)
    requires Steps(states, ops, oks) && Steps(more, moreOps, moreOks) && states[|ops|] == more[0]
    ensures Steps(states + more[1..], ops + moreOps, oks + moreOks)
  {
    hide Does;
    var s, o, k := states + more[1..], ops + moreOps, oks + moreOks;
    forall i | 0 <= i < |o| ensures Does(s[i], o[i], s[i + 1], k[i]) {
      if i < |ops| {
        assert Does(states[i], ops[i], states[i + 1], oks[i]);
      } else {
        var j := i - |ops|;
        assert Does(more[j], moreOps[j], more[j + 1], moreOks[j]);
        assert s[i] == more[j];
      }
    }
  }
}
