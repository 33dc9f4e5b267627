/** Responses on the wire: a client that reads header lines and a Content-Length finds the end of
    every one of them. */
module Responses {
  import opened Text
  import opened Numbers
  import opened Ordered
  import opened Http
  import opened RequestReader
  import opened HeadLines
  import opened Session
  import opened RequestRoundTrip
  import opened EntityStore
  import opened EntityHandlers

  // ---------- what the session and the echo handler answer ----------

  function SessionReply(status: StatusCode, body: string): HttpResponse {
    HttpResponse(status, map["Content-Type" := "text/plain", "Content-Length" := ToString(|body|)], body)
  }

  function BadRequestReply(): HttpResponse {
    WithConnection(SessionReply(BAD_REQUEST, "400 Bad Request\n"), true)
  }

  function ContentTooLargeReply(): HttpResponse {
    WithConnection(SessionReply(PAYLOAD_TOO_LARGE, "413 Payload Too Large"), true)
  }

  function NoRouteReply(): HttpResponse {
    SessionReply(NOT_FOUND, "404 Not Found")
  }

  /** The answer to a read that overflows the buffer is a literal and does not go through `ToString`. */
  const OVERFLOW_TEXT :=
    "HTTP/1.1 413 Payload Too Large\r\n" + "Content-Length: 0\r\n" + "Connection: close\r\n" + "\r\n"

  /** The session adds its own header to what a handler answers. */
  function WithConnection(r: HttpResponse, close: bool): HttpResponse {
    r.(headers := r.headers["Connection" := if close then "close" else "keep-alive"])
  }

  function EchoReply(request: HttpRequest): HttpResponse {
    if request.verb != "GET" then SessionReply(BAD_REQUEST, "")
    else SessionReply(OK, RequestText(request))
  }

  /** The echo handler. */
  method Echo(request: HttpRequest) returns (response: HttpResponse)
    ensures response == EchoReply(request)
  {
    if request.verb != "GET" {
      assert ToString(0) == "0";
      return HttpResponse(BAD_REQUEST, map["Content-Type" := "text/plain", "Content-Length" := "0"], "");
    }
    var text := EchoText(request);
    response := HttpResponse(OK, map["Content-Type" := "text/plain"], text);
    response := response.(headers := response.headers["Content-Length" := ToString(|text|)]);
  }

  // ---------- the answers word by word ----------

  lemma SmallNumbers()
    ensures ToString(0) == "0" && ToString(13) == "13" && ToString(16) == "16" && ToString(21) == "21"
  {
    assert NatToString(1) == "1" && NatToString(2) == "2";
  }

  /** What the session answers by itself, and what it adds. */
  lemma SessionAnswers(r: HttpResponse)
    ensures BadRequestReply() == HttpResponse(BAD_REQUEST,
              map["Content-Type" := "text/plain", "Content-Length" := "16", "Connection" := "close"],
              "400 Bad Request\n")
    ensures ContentTooLargeReply() == HttpResponse(PAYLOAD_TOO_LARGE,
              map["Content-Type" := "text/plain", "Content-Length" := "21", "Connection" := "close"],
              "413 Payload Too Large")
    ensures NoRouteReply() == HttpResponse(NOT_FOUND,
              map["Content-Type" := "text/plain", "Content-Length" := "13"], "404 Not Found")
    ensures WithConnection(r, true) == HttpResponse(r.status, r.headers["Connection" := "close"], r.body)
    ensures WithConnection(r, false) == HttpResponse(r.status, r.headers["Connection" := "keep-alive"], r.body)
  {
    hide ToString;
    SmallNumbers();
  }

  /** The echo handler answers a GET with the text of the request, which reads as the request, and
      refuses every other method with an empty body. */
  lemma EchoAnswers(request: HttpRequest)
    ensures request.verb == "GET" ==>
              EchoReply(request) == HttpResponse(OK,
                map["Content-Type" := "text/plain", "Content-Length" := ToString(|RequestText(request)|)],
                RequestText(request))
    ensures request.verb != "GET" ==>
              EchoReply(request) == HttpResponse(BAD_REQUEST,
                map["Content-Type" := "text/plain", "Content-Length" := "0"], "")
    ensures IsWord(request.verb) && IsWord(request.path) && IsWord(request.version) && Printable(request.headers) ==>
              ParsedRequest(RequestText(request)) == request
  {
    hide ToString;
    hide RequestText;
    hide ParsedRequest;
    SmallNumbers();
    if IsWord(request.verb) && IsWord(request.path) && IsWord(request.version) && Printable(request.headers) {
      ParseOfRequestText(request);
    }
  }

  // ---------- the client's side ----------

  datatype Received = Received(statusLine: string, headers: Headers, body: string)

  /** Reads one response off the front of a stream. */
  function Receive(stream: string): Option<(Received, string)> {
    var (headers, after) := ReadHeaders(AfterLine(stream), map[]);
    if stream == "" || LENGTH_NAME !in headers then None
    else
      var length := Stoul(headers[LENGTH_NAME]);
      if !length.Number? || length.value > |after| then None
      else Some((Received(stream[..LineEnd(stream)], headers, after[..length.value]), after[length.value..]))
  }

  function ReceiveAll(stream: string): (seq<Received>, string)
    decreases |stream|
  {
    var one := Receive(stream);
    if one.None? || |one.value.1| >= |stream| then ([], stream)
    else
      var (more, rest) := ReceiveAll(one.value.1);
      ([one.value.0] + more, rest)
  }

  /** The length header is there and tells the length of the body. */
  ghost predicate Delimited(r: HttpResponse) {
    && Printable(r.headers)
    && LENGTH_NAME in r.headers && r.headers[LENGTH_NAME] == ToString(|r.body|)
    && |r.body| < ULONG_RANGE
  }

  /** What the first line of a response says. */
  function Reason(status: StatusCode): string {
    match status
    case OK => "200 OK"
    case BAD_REQUEST => "400 Bad Request"
    case FORBIDDEN => "403 Forbidden"
    case NOT_FOUND => "404 Not Found"
    case PAYLOAD_TOO_LARGE => "500 Internal Server Error"
    case INTERNAL_SERVER_ERROR => "500 Internal Server Error"
  }

  function StatusLine(status: StatusCode): string {
    "HTTP/1.1 " + Reason(status)
  }

  /** The numbers of the statuses. */
  function CodeOf(status: StatusCode): nat {
    match status
    case OK => 200
    case BAD_REQUEST => 400
    case FORBIDDEN => 403
    case NOT_FOUND => 404
    case PAYLOAD_TOO_LARGE => 413
    case INTERNAL_SERVER_ERROR => 500
  }

  function Expected(r: HttpResponse): Received {
    Received(StatusLine(r.status) + "\r", r.headers, r.body)
  }

  function Wire(responses: seq<HttpResponse>): string {
    if responses == [] then "" else ResponseText(responses[0]) + Wire(responses[1..])
  }

  function ExpectedAll(responses: seq<HttpResponse>): seq<Received> {
    if responses == [] then [] else [Expected(responses[0])] + ExpectedAll(responses[1..])
  }

  lemma MessageIsLonger(first: string, headers: Headers, body: string)
    ensures |MessageText(first, headers, body)| > |body|
  {
  }

  lemma StatusLineIsALine(status: StatusCode)
    ensures '\n' !in StatusLine(status)
  {
  }

  lemma StatusLineIsPrinted(r: HttpResponse)
    ensures StatusText(r.status) == Reason(r.status)
    ensures ResponseText(r) == MessageText(StatusLine(r.status), r.headers, r.body)
  {
    hide MessageText;
  }

  /** A response begins with the first line of its status. */
  lemma ResponseBegins(r: HttpResponse)
    ensures ResponseText(r)[..LineEnd(ResponseText(r))] == "HTTP/1.1 " + Reason(r.status) + "\r"
  {
    hide StatusText;
    hide LineEnd;
    hide HeaderLines;
    hide Reason;
    StatusLineIsPrinted(r);
    StatusLineIsALine(r.status);
    var lines := HeaderLines(SortedKeys(r.headers.Keys), r.headers);
    var line := "HTTP/1.1 " + Reason(r.status);
    assert ResponseText(r) == line + ("\r\n" + (lines + ("\r\n" + r.body)));
    FirstLine(line, lines + ("\r\n" + r.body));
  }

  lemma ThreeDigits(d: string)
    requires |d| == 3 && forall i :: 0 <= i < 3 ==> '0' <= d[i] <= '9'
    ensures Decimal(d)
         == 100 * (d[0] as int - '0' as int) + 10 * (d[1] as int - '0' as int) + (d[2] as int - '0' as int)
  {
    assert d[..2][1] == d[1] && d[..2][..1][0] == d[0] && d[..2][..1][..0] == "";
    assert Decimal(d[..2]) == 10 * Decimal(d[..2][..1]) + (d[1] as int - '0' as int);
  }

  lemma ReasonDigits(status: StatusCode)
    ensures var t := Reason(status);
            && |t| > 3 && t[3] == ' ' && (forall i :: 0 <= i < 3 ==> '0' <= t[i] <= '9')
            && 100 * (t[0] as int - '0' as int) + 10 * (t[1] as int - '0' as int) + (t[2] as int - '0' as int)
               == if status.PAYLOAD_TOO_LARGE? then 500 else CodeOf(status)
  {
  }

  /** The number behind the protocol reads as the number of the status, or as 500 for 413. */
  lemma StatusIsRead(r: HttpResponse)
    ensures |ResponseText(r)| > 9 && ResponseText(r)[..9] == "HTTP/1.1 "
    ensures Stoi(ResponseText(r)[9..]) == Number(if r.status.PAYLOAD_TOO_LARGE? then 500 else CodeOf(r.status))
  {
    hide StatusText;
    hide HeaderLines;
    hide Reason;
    hide CodeOf;
    hide Decimal;
    hide Stoi;
    hide SortedKeys;
    var t, text := Reason(r.status), ResponseText(r);
    StatusLineIsPrinted(r);
    ReasonDigits(r.status);
    var more := "\r\n" + (HeaderLines(SortedKeys(r.headers.Keys), r.headers) + ("\r\n" + r.body));
    assert text == ("HTTP/1.1 " + t) + more;
    ReadDigits(text, t, more, if r.status.PAYLOAD_TOO_LARGE? then 500 else CodeOf(r.status));
  }

  lemma ReadDigits(text: string, t: string, more: string, n: nat)
    requires text == ("HTTP/1.1 " + t) + more && n < 1000
    requires |t| > 3 && t[3] == ' ' && (forall i :: 0 <= i < 3 ==> '0' <= t[i] <= '9')
    requires 100 * (t[0] as int - '0' as int) + 10 * (t[1] as int - '0' as int) + (t[2] as int - '0' as int) == n
    ensures text[..9] == "HTTP/1.1 " && Stoi(text[9..]) == Number(n)
  {
    hide Stoi;
    hide Decimal;
    var d, junk := t[..3], t[3..] + more;
    ThreeDigits(d);
    assert text[9..] == t + more == "" + ("" + (d + junk));
    StoiReads(text[9..], "", "", d, junk);
  }

  lemma ReceiveMessage(first: string, headers: Headers, body: string, rest: string)
    requires '\n' !in first && Printable(headers) && |body| < ULONG_RANGE
    requires LENGTH_NAME in headers && headers[LENGTH_NAME] == ToString(|body|)
    ensures Receive(MessageText(first, headers, body) + rest) == Some((Received(first + "\r", headers, body), rest))
  {
    hide ReadHeaders;
    hide Stoul;
    hide ToString;
    MessageThenRest(first, headers, body, rest);
    var lines := HeaderLines(SortedKeys(headers.Keys), headers);
    FirstLine(first, lines + ("\r\n" + (body + rest)));
    ReadPrintedHeaders(headers, body + rest);
    StoulToString(|body|);
    assert (body + rest)[..|body|] == body && (body + rest)[|body|..] == rest;
  }

  lemma ReceiveResponse(r: HttpResponse, rest: string)
    requires Delimited(r)
    ensures Receive(ResponseText(r) + rest) == Some((Expected(r), rest))
    ensures |ResponseText(r)| > 0
  {
    hide Receive;
    hide MessageText;
    hide StatusText;
    StatusLineIsPrinted(r);
    StatusLineIsALine(r.status);
    MessageIsLonger(StatusLine(r.status), r.headers, r.body);
    ReceiveMessage(StatusLine(r.status), r.headers, r.body, rest);
  }

  /** Two statuses are printed alike exactly when they are the same or 413 and 500. */
  lemma StatusTextTellsStatus(a: StatusCode, b: StatusCode)
    ensures StatusText(a) == StatusText(b) <==>
            a == b || {a, b} == {PAYLOAD_TOO_LARGE, INTERNAL_SERVER_ERROR}
  {
    assert StatusText(OK)[0] == '2' && StatusText(INTERNAL_SERVER_ERROR)[0] == '5';
    assert StatusText(BAD_REQUEST)[0] == StatusText(FORBIDDEN)[0] == StatusText(NOT_FOUND)[0] == '4';
    assert StatusText(BAD_REQUEST)[2] == '0' && StatusText(FORBIDDEN)[2] == '3' && StatusText(NOT_FOUND)[2] == '4';
  }

  /** The printed form tells everything but 413 from 500. */
  lemma ResponseTextTellsResponse(a: HttpResponse, b: HttpResponse)
    requires Delimited(a) && Delimited(b)
    ensures ResponseText(a) == ResponseText(b) <==>
            && a.headers == b.headers && a.body == b.body
            && (a.status == b.status || {a.status, b.status} == {PAYLOAD_TOO_LARGE, INTERNAL_SERVER_ERROR})
  {
    hide Receive;
    hide Delimited;
    hide StatusText;
    hide MessageText;
    ReceiveResponse(a, "");
    ReceiveResponse(b, "");
    StatusTextTellsStatus(a.status, b.status);
    hide StatusLine;
    StatusLineIsPrinted(a);
    StatusLineIsPrinted(b);
    var x, y := StatusLine(a.status), StatusLine(b.status);
    assert (x + "\r")[9..|x|] == StatusText(a.status) && (y + "\r")[9..|y|] == StatusText(b.status);
  }

  /** Cutting what was sent returns the header map and the body of each response. */
  lemma {:induction false} ResponsesArrive(responses: seq<HttpResponse>)
    requires forall r :: r in responses ==> Delimited(r)
    ensures ReceiveAll(Wire(responses)) == (ExpectedAll(responses), "")
    decreases |responses|
  {
    hide Receive;
    hide ResponseText;
    hide Expected;
    hide Delimited;
    if responses == [] {
      ReceiveNothing();
    } else {
      assert responses[0] in responses;
      ReceiveResponse(responses[0], Wire(responses[1..]));
      ResponsesArrive(responses[1..]);
    }
  }

  const OVERFLOW_LINE := "HTTP/1.1 413 Payload Too Large"
  const OVERFLOW_HEADERS: Headers := map["Content-Length" := "0", "Connection" := "close"]

  /** The literal answer to an overflow is read in the same way, with an empty body. */
  lemma OverflowArrives(rest: string)
    ensures Receive(OVERFLOW_TEXT + rest)
         == Some((Received(OVERFLOW_LINE + "\r", OVERFLOW_HEADERS, ""), rest))
  {
    hide Stoul;
    hide ReadHeaders;
    hide AfterLine;
    hide LineEnd;
    hide ToString;
    hide HeaderLines;
    OverflowIsPrintable();
    var keys := ["Content-Length", "Connection"];
    var lines := HeaderLines(keys, OVERFLOW_HEADERS);
    OverflowShape(lines, rest);
    OverflowFirstLine(lines, rest);
    ReadPrintedLines(keys, OVERFLOW_HEADERS, map[], rest);
    OverlayIs(map[], keys, OVERFLOW_HEADERS);
    assert Overlay(map[], keys, OVERFLOW_HEADERS) == OVERFLOW_HEADERS;
    ZeroReads();
    assert rest[..0] == "" && rest[0..] == rest;
  }

  lemma OverflowFirstLine(lines: string, rest: string)
    ensures var t := OVERFLOW_LINE + ("\r\n" + (lines + ("\r\n" + rest)));
            t[..LineEnd(t)] == OVERFLOW_LINE + "\r" && AfterLine(t) == lines + ("\r\n" + rest) && t != ""
  {
    FirstLine(OVERFLOW_LINE, lines + ("\r\n" + rest));
  }

  lemma ZeroReads()
    ensures Stoul("0") == Number(0)
  {
    assert ToString(0) == "0";
    StoulToString(0);
  }

  lemma OverflowIsPrintable()
    ensures Printable(OVERFLOW_HEADERS)
  {
  }

  lemma OverflowShape(lines: string, rest: string)
    requires lines == HeaderLines(["Content-Length", "Connection"], OVERFLOW_HEADERS)
    ensures OVERFLOW_TEXT + rest == OVERFLOW_LINE + ("\r\n" + (lines + ("\r\n" + rest)))
  {
    var a, b, c := OVERFLOW_LINE, HeaderLine("Content-Length", "0"), HeaderLine("Connection", "close");
    assert a + "\r\n" == "HTTP/1.1 413 Payload Too Large\r\n";
    assert b + "\r\n" == "Content-Length: 0\r\n";
    assert c + "\r\n" == "Connection: close\r\n";
    TwoLines(b, c, lines);
    Regroup(a + "\r\n", b + "\r\n", c + "\r\n", "\r\n", rest);
    Regroup(a, "\r\n", b + "\r\n" + (c + "\r\n"), "\r\n", rest);
  }

  lemma TwoLines(b: string, c: string, lines: string)
    requires b == HeaderLine("Content-Length", "0") && c == HeaderLine("Connection", "close")
    requires lines == HeaderLines(["Content-Length", "Connection"], OVERFLOW_HEADERS)
    ensures lines == b + "\r\n" + (c + "\r\n")
  {
    hide HeaderLine;
    var keys := ["Content-Length", "Connection"];
    assert keys[1..] == ["Connection"] && ["Connection"][1..] == [];
    assert HeaderLines(["Connection"], OVERFLOW_HEADERS) == c + ("\r\n" + "");
    assert c + ("\r\n" + "") == c + "\r\n";
    assert b + ("\r\n" + (c + "\r\n")) == b + "\r\n" + (c + "\r\n");
  }

  lemma Regroup(a: string, b: string, c: string, d: string, e: string)
    ensures a + b + c + d + e == a + (b + (c + (d + e)))
    ensures a + b + c + d + e == a + (b + c) + d + e
  {
  }

  lemma ReceiveNothing()
    ensures Receive("") == None
  {
  }

  // ---------- every response is delimited ----------

  lemma LengthIsPrintable(n: nat)
    ensures PrintableValue(ToString(n))
  {
    var s := NatToString(n);
    assert IsDigit(s[0]);
    assert forall i :: 0 <= i < |s| ==> IsDigit(s[i]) && s[i] != '\n';
  }

  lemma EntityResponseShape(data: Data, r: HttpRequest)
    ensures var response := Serve(data, r).1;
            response == JsonResponse(response.body) || response == PlainResponse(response.status, response.body)
  {
    hide EntityOf;
    hide NextId;
    hide ValidId;
    hide IdsOf;
    hide ToString;
    hide MakeName;
    hide Has;
    hide EntriesOf;
    hide IdText;
    hide ListText;
  }

  /** Every answer of the entity handler, errors included. */
  lemma EntityResponseDelimited(data: Data, r: HttpRequest)
    requires |Serve(data, r).1.body| < ULONG_RANGE
    ensures Delimited(Serve(data, r).1)
  {
    hide Serve;
    hide ToString;
    EntityResponseShape(data, r);
    LengthIsPrintable(|Serve(data, r).1.body|);
  }

  lemma SessionReplyDelimited(status: StatusCode, body: string)
    requires |body| < ULONG_RANGE
    ensures Delimited(SessionReply(status, body))
  {
    LengthIsPrintable(|body|);
  }

  lemma ConnectionKeepsDelimited(r: HttpResponse, close: bool)
    requires Delimited(r)
    ensures Delimited(WithConnection(r, close))
  {
  }

  /** Every answer of the session itself and of the echo handler, with the header that the session adds. */
  lemma SessionRepliesDelimited(request: HttpRequest, close: bool)
    requires |RequestText(request)| < ULONG_RANGE
    ensures Delimited(BadRequestReply()) && Delimited(ContentTooLargeReply())
    ensures Delimited(WithConnection(NoRouteReply(), close))
    ensures Delimited(WithConnection(EchoReply(request), close))
  {
    hide Delimited;
    hide ToString;
    hide RequestText;
    SessionReplyDelimited(BAD_REQUEST, "400 Bad Request\n");
    SessionReplyDelimited(PAYLOAD_TOO_LARGE, "413 Payload Too Large");
    SessionReplyDelimited(NOT_FOUND, "404 Not Found");
    SessionReplyDelimited(BAD_REQUEST, "");
    SessionReplyDelimited(OK, RequestText(request));
    ConnectionKeepsDelimited(SessionReply(BAD_REQUEST, "400 Bad Request\n"), true);
    ConnectionKeepsDelimited(SessionReply(PAYLOAD_TOO_LARGE, "413 Payload Too Large"), true);
    ConnectionKeepsDelimited(NoRouteReply(), close);
    ConnectionKeepsDelimited(EchoReply(request), close);
  }

  // ---------- what a session says in all ----------

  /** The text that the session hands to the socket for an event; `answer` is what the handler of
      the route gave, if there is a route. */
  function ReplyText(e: Event, answer: HttpResponse): string {
    match e
    case Dispatch(_, _, route, close) =>
      ResponseText(WithConnection(if route.Some? then answer else NoRouteReply(), close))
    case BadRequest(_) => ResponseText(BadRequestReply())
    case ContentTooLarge => ResponseText(ContentTooLargeReply())
    case BufferOverflow => OVERFLOW_TEXT
  }

  function ExpectedReply(e: Event, answer: HttpResponse): Received {
    match e
    case Dispatch(_, _, route, close) => Expected(WithConnection(if route.Some? then answer else NoRouteReply(), close))
    case BadRequest(_) => Expected(BadRequestReply())
    case ContentTooLarge => Expected(ContentTooLargeReply())
    case BufferOverflow => Received(OVERFLOW_LINE + "\r", OVERFLOW_HEADERS, "")
  }

  function Replies(events: seq<Event>, answers: seq<HttpResponse>): string
    requires |events| == |answers|
  {
    if events == [] then "" else ReplyText(events[0], answers[0]) + Replies(events[1..], answers[1..])
  }

  function ExpectedReplies(events: seq<Event>, answers: seq<HttpResponse>): seq<Received>
    requires |events| == |answers|
  {
    if events == [] then []
    else [ExpectedReply(events[0], answers[0])] + ExpectedReplies(events[1..], answers[1..])
  }

  lemma ReceiveReply(e: Event, answer: HttpResponse, rest: string)
    requires Delimited(answer)
    ensures Receive(ReplyText(e, answer) + rest) == Some((ExpectedReply(e, answer), rest))
    ensures |ReplyText(e, answer)| > 0
  {
    hide Receive;
    hide ResponseText;
    hide Delimited;
    hide WithConnection;
    hide Expected;
    SessionReplyDelimited(BAD_REQUEST, "400 Bad Request\n");
    SessionReplyDelimited(PAYLOAD_TOO_LARGE, "413 Payload Too Large");
    SessionReplyDelimited(NOT_FOUND, "404 Not Found");
    match e
    case Dispatch(_, _, route, close) =>
      var r := if route.Some? then answer else NoRouteReply();
      ConnectionKeepsDelimited(r, close);
      ReceiveResponse(WithConnection(r, close), rest);
    case BadRequest(_) =>
      ConnectionKeepsDelimited(SessionReply(BAD_REQUEST, "400 Bad Request\n"), true);
      ReceiveResponse(BadRequestReply(), rest);
    case ContentTooLarge =>
      ConnectionKeepsDelimited(SessionReply(PAYLOAD_TOO_LARGE, "413 Payload Too Large"), true);
      ReceiveResponse(ContentTooLargeReply(), rest);
    case BufferOverflow =>
      OverflowArrives(rest);
  }

  /** Whatever a session does, its replies in a row are read as one response for each event. */
  lemma {:induction false} RepliesArrive(events: seq<Event>, answers: seq<HttpResponse>)
    requires |events| == |answers| && forall r :: r in answers ==> Delimited(r)
    ensures ReceiveAll(Replies(events, answers)) == (ExpectedReplies(events, answers), "")
    decreases |events|
  {
    hide Receive;
    hide ReplyText;
    hide ExpectedReply;
    hide Delimited;
    if events == [] {
      ReceiveNothing();
    } else {
      assert answers[0] in answers;
      ReceiveReply(events[0], answers[0], Replies(events[1..], answers[1..]));
      RepliesArrive(events[1..], answers[1..]);
    }
  }
}
