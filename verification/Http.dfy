/** Requests, responses and their printed forms. */
module Http {
  import opened Ordered

  type Headers = map<string, string>

  datatype HttpRequest = HttpRequest(verb: string, path: string, version: string, headers: Headers, body: string)

  datatype StatusCode = OK | BAD_REQUEST | FORBIDDEN | NOT_FOUND | PAYLOAD_TOO_LARGE | INTERNAL_SERVER_ERROR

  datatype HttpResponse = HttpResponse(status: StatusCode, headers: Headers, body: string)

  function HeaderLine(name: string, value: string): string {
    name + (": " + value)
  }

  /** One line for each key, in the order given. */
  function HeaderLines(keys: seq<string>, headers: Headers): string
    requires forall k :: k in keys ==> k in headers
  {
    if keys == [] then ""
    else HeaderLine(keys[0], headers[keys[0]]) + ("\r\n" + HeaderLines(keys[1..], headers))
  }

  /** A first line, the headers in the order of the map, a blank line and the body. */
  function MessageText(first: string, headers: Headers, body: string): string {
    first + ("\r\n" + (HeaderLines(SortedKeys(headers.Keys), headers) + ("\r\n" + body)))
  }

  function RequestLine(r: HttpRequest): string {
    r.verb + (" " + (r.path + (" " + r.version)))
  }

  /** The request text that the echo handler rebuilds. */
  function RequestText(r: HttpRequest): string {
    MessageText(RequestLine(r), r.headers, r.body)
  }

  /** A message without headers, and one with a single header. */
  lemma MessageOfFew(first: string, name: string, value: string, body: string)
    ensures MessageText(first, map[], body) == first + "\r\n" + "\r\n" + body
    ensures MessageText(first, map[name := value], body)
         == first + "\r\n" + name + ": " + value + "\r\n" + "\r\n" + body
  {
    var one: Headers := map[name := value];
    KeysOfFew(name, value);
    assert [name][1..] == [];
    assert first + ("\r\n" + ("" + ("\r\n" + body))) == first + "\r\n" + "\r\n" + body;
    var line := HeaderLine(name, value);
    assert HeaderLines([name], one) == line + ("\r\n" + "");
    assert line + ("\r\n" + "") == name + ": " + value + "\r\n";
    var lines := name + ": " + value + "\r\n";
    assert first + ("\r\n" + (lines + ("\r\n" + body))) == first + "\r\n" + lines + "\r\n" + body;
    assert first + "\r\n" + lines == first + "\r\n" + name + ": " + value + "\r\n";
  }

  lemma KeysOfFew(name: string, value: string)
    ensures var none: Headers := map[]; SortedKeys(none.Keys) == []
    ensures var one: Headers := map[name := value]; SortedKeys(one.Keys) == [name]
  {
    var one: Headers := map[name := value];
    var keys := SortedKeys(one.Keys);
    assert name in keys && forall k :: k in keys ==> k == name;
    assert |keys| < 2 || keys[0] != keys[1];
    assert forall i :: 0 <= i < |keys| ==> keys[i] in keys;
  }

  /** There is no line of its own for 413: it is printed as a 500. */
  function StatusText(status: StatusCode): string {
    match status
    case OK => "200 OK"
    case BAD_REQUEST => "400 Bad Request"
    case FORBIDDEN => "403 Forbidden"
    case NOT_FOUND => "404 Not Found"
    case PAYLOAD_TOO_LARGE => "500 Internal Server Error"
    case INTERNAL_SERVER_ERROR => "500 Internal Server Error"
  }

  function ResponseText(r: HttpResponse): string {
    MessageText("HTTP/1.1 " + StatusText(r.status), r.headers, r.body)
  }

  /** Text behind a message lengthens its body. */
  lemma MessageThenRest(first: string, headers: Headers, body: string, rest: string)
    ensures MessageText(first, headers, body) + rest == MessageText(first, headers, body + rest)
  {
    var lines := HeaderLines(SortedKeys(headers.Keys), headers);
    assert ("\r\n" + body) + rest == "\r\n" + (body + rest);
    assert (lines + ("\r\n" + body)) + rest == lines + ("\r\n" + (body + rest));
    var t, u := lines + ("\r\n" + body), lines + ("\r\n" + (body + rest));
    assert ("\r\n" + t) + rest == "\r\n" + u;
    assert (first + ("\r\n" + t)) + rest == first + ("\r\n" + u);
  }

  lemma {:induction false} HeaderLinesPush(keys: seq<string>, k: string, headers: Headers)
    requires k in headers && forall x :: x in keys ==> x in headers
    ensures HeaderLines(keys + [k], headers)
         == HeaderLines(keys, headers) + (HeaderLine(k, headers[k]) + "\r\n")
  {
    if keys == [] {
      assert [] + [k] == [k] && [k][1..] == [];
    } else {
      assert (keys + [k])[1..] == keys[1..] + [k];
      HeaderLinesPush(keys[1..], k, headers);
      var a, b := HeaderLine(keys[0], headers[keys[0]]), HeaderLines(keys[1..], headers);
      var c := HeaderLine(k, headers[k]) + "\r\n";
      assert "\r\n" + (b + c) == ("\r\n" + b) + c;
    }
  }

  lemma HeaderLineLeft(prefix: string, lines: string, name: string, value: string)
    ensures (prefix + lines) + (name + ": " + value + "\r\n")
         == prefix + (lines + (HeaderLine(name, value) + "\r\n"))
  {
    assert name + ": " + value + "\r\n" == HeaderLine(name, value) + "\r\n";
  }

  /** The words of a request line stand one blank apart. */
  lemma RequestLineLeft(r: HttpRequest)
    ensures r.verb + " " + r.path + " " + r.version == RequestLine(r)
  {
    assert r.verb + " " + r.path == r.verb + (" " + r.path);
  }

  /** Appends the header lines to a text, in the order in which the map is iterated. */
  method PrintHeaders(prefix: string, headers: Headers) returns (text: string)
    ensures text == prefix + HeaderLines(SortedKeys(headers.Keys), headers)
  {
    hide SortedKeys;
    hide HeaderLine;
    text := prefix;
    var keys := SortedKeys(headers.Keys);
    for i := 0 to |keys|
      invariant forall k :: k in keys[..i] ==> k in headers
      invariant text == prefix + HeaderLines(keys[..i], headers)
    {
      var k := keys[i];
      assert keys[..i + 1] == keys[..i] + [k];
      HeaderLinesPush(keys[..i], k, headers);
      HeaderLineLeft(prefix, HeaderLines(keys[..i], headers), k, headers[k]);
      text := text + (k + ": " + headers[k] + "\r\n");
    }
    assert keys[..|keys|] == keys;
  }

  /** The body that the echo handler answers a GET request with. */
  method EchoText(request: HttpRequest) returns (text: string)
    ensures text == RequestText(request)
  {
    text := request.verb + " " + request.path + " " + request.version + "\r\n";
    RequestLineLeft(request);
    assert text == RequestLine(request) + "\r\n";
    text := PrintHeaders(text, request.headers);
    text := text + ("\r\n" + request.body);
    MessageTextLeft(RequestLine(request), HeaderLines(SortedKeys(request.headers.Keys), request.headers), request.body);
  }

  lemma MessageTextLeft(first: string, lines: string, body: string)
    ensures first + "\r\n" + lines + ("\r\n" + body) == first + ("\r\n" + (lines + ("\r\n" + body)))
  {
  }

  /** Serialises a response. */
  method ResponseToString(r: HttpResponse) returns (text: string)
    ensures text == ResponseText(r)
  {
    var head := "HTTP/1.1 ";
    match r.status {
      case OK => head := head + "200 OK";
      case BAD_REQUEST => head := head + "400 Bad Request";
      case FORBIDDEN => head := head + "403 Forbidden";
      case NOT_FOUND => head := head + "404 Not Found";
      case INTERNAL_SERVER_ERROR => head := head + "500 Internal Server Error";
      case PAYLOAD_TOO_LARGE => head := head + "500 Internal Server Error";
    }
    ghost var first := head;
    head := head + "\r\n";
    head := PrintHeaders(head, r.headers);
    head := head + "\r\n";
    text := head + r.body;
    MessageTextLeft(first, HeaderLines(SortedKeys(r.headers.Keys), r.headers), r.body);
  }
}
