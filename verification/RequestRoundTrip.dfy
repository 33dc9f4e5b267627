/** Printing requests, cutting the stream into frames and parsing them gives the requests back. */
module RequestRoundTrip {
  import opened Text
  import opened Numbers
  import opened Ordered
  import opened Http
  import opened RequestReader
  import opened Framing
  import opened HeadLines
  import opened RouteTable
  import opened Session

  ghost predicate IsWord(w: string) {
    w != "" && forall i :: 0 <= i < |w| ==> !IsSpace(w[i])
  }

  /** A length header, when there is one, reads as the length of the body; otherwise the body is empty. */
  ghost predicate AnnouncesBody(headers: Headers, body: string) {
    if LENGTH_NAME in headers
    then Stoul(headers[LENGTH_NAME]) == Number(|body|) && |body| <= MAX_CONTENT_LENGTH
    else body == ""
  }

  /** The requests that survive printing. A method that starts with `Content-Length:` is a word,
      but the framing scan would take the request line for a header. */
  ghost predicate WellFormedRequest(r: HttpRequest) {
    && IsWord(r.verb) && !IsLengthLine(r.verb)
    && IsWord(r.path)
    && r.version == "HTTP/1.1"
    && Printable(r.headers)
    && AnnouncesBody(r.headers, r.body)
    && !WantsClose(r)
  }

  lemma {:induction false} WordLengthIs(w: string, rest: string)
    requires (forall i :: 0 <= i < |w| ==> !IsSpace(w[i])) && rest != "" && IsSpace(rest[0])
    ensures WordLength(w + rest) == |w|
    decreases |w|
  {
    if w == "" {
      assert w + rest == rest;
    } else {
      assert (w + rest)[1..] == w[1..] + rest;
      WordLengthIs(w[1..], rest);
    }
  }

  lemma ExtractWord(w: string, rest: string)
    requires IsWord(w) && rest != "" && IsSpace(rest[0])
    ensures Extract(w + rest) == (w, rest)
    ensures Extract(" " + (w + rest)) == (w, rest)
  {
    var t := w + rest;
    assert t[0] == w[0];
    assert (" " + t)[1..] == t;
    assert SkipSpaces(t) == t && SkipSpaces(" " + t) == t;
    WordLengthIs(w, rest);
    assert t[..|w|] == w && t[|w|..] == rest;
  }

  /** The three words of a request line, and what the reader sees behind the line. */
  lemma ReadRequestLine(r: HttpRequest, rest: string)
    requires IsWord(r.verb) && IsWord(r.path) && IsWord(r.version)
    ensures var s := RequestLine(r) + ("\r\n" + rest);
            && Extract(s).0 == r.verb
            && Extract(Extract(s).1).0 == r.path
            && Extract(Extract(Extract(s).1).1).0 == r.version
            && BehindRequestLine(s) == rest
  {
    hide Extract;
    hide RequestLine;
    hide IsWord;
    hide LineEnd;
    var s := RequestLine(r) + ("\r\n" + rest);
    var s3 := "\r\n" + rest;
    var s2 := " " + (r.version + s3);
    var s1 := " " + (r.path + s2);
    RequestLineText(r, s3);
    ExtractWord(r.verb, s1);
    ExtractWord(r.path, s2);
    ExtractWord(r.version, s3);
    assert s3 == "" + ("\r\n" + rest);
    FirstLine("", rest);
  }

  lemma RequestLineText(r: HttpRequest, s: string)
    ensures RequestLine(r) + s == r.verb + (" " + (r.path + (" " + (r.version + s))))
  {
    assert (" " + r.version) + s == " " + (r.version + s);
    assert (r.path + (" " + r.version)) + s == r.path + ((" " + r.version) + s);
    assert (" " + (r.path + (" " + r.version))) + s == " " + ((r.path + (" " + r.version)) + s);
  }

  lemma RequestLineAsLength(r: HttpRequest)
    requires IsWord(r.verb) && IsWord(r.path) && IsWord(r.version)
    ensures '\n' !in RequestLine(r) && RequestLine(r) != ""
    ensures IsLengthLine(RequestLine(r) + "\r") ==> IsLengthLine(r.verb)
  {
    var line := RequestLine(r) + "\r";
    assert forall w, i :: IsWord(w) && 0 <= i < |w| ==> w[i] != '\n';
    assert forall i :: 0 <= i < |r.verb| ==> line[i] == r.verb[i];
    assert line[|r.verb|] == ' ';
    assert forall i :: 0 <= i < 15 ==> LENGTH_FIELD[i] != ' ';
    if IsLengthLine(line) {
      assert forall i :: 0 <= i < 15 ==> line[i] == line[..15][i] == LENGTH_FIELD[i];
      assert 15 <= |r.verb|;
      assert r.verb[..15] == LENGTH_FIELD;
    }
  }

  lemma ScanSkipsFirst(first: string, rest: string)
    requires '\n' !in first && first != "" && !IsLengthLine(first + "\r")
    ensures ScanLength(first + ("\r\n" + rest), 0) == ScanLength(rest, 0)
  {
    FirstLine(first, rest);
  }

  /** What is announced by the headers of a printed message. */
  function AnnouncedBy(headers: Headers): Announced {
    if "Content-Length" in headers then Announce(headers["Content-Length"]) else Length(0)
  }

  lemma FrameFrom(s: string, end: nat)
    requires Find(s, BLANK_LINE, 0) == end && end + 4 <= |s|
    ensures ScanLength(s[..end + 4], 0).Unreadable? ==> FrameOf(s).Throws?
    ensures ScanLength(s[..end + 4], 0).OverLimit? ==> FrameOf(s).TooLong?
    ensures ScanLength(s[..end + 4], 0).Length? ==>
              var size := end + 4 + ScanLength(s[..end + 4], 0).value;
              FrameOf(s) == if size <= |s| then Whole(end + 4, size) else Incomplete
  {
    hide ScanLength;
  }

  lemma ScanOfMessage(first: string, headers: Headers, tail: string)
    requires '\n' !in first && first != "" && !IsLengthLine(first + "\r") && Printable(headers)
    ensures var s := MessageText(first, headers, tail);
            var end := |s| - |tail| - 4;
            end >= 0 && Find(s, BLANK_LINE, 0) == end && ScanLength(s[..end + 4], 0) == AnnouncedBy(headers)
  {
    hide ScanLength;
    hide HeaderLines;
    hide Printable;
    hide IsLengthLine;
    hide Find;
    hide Announce;
    hide SortedKeys;
    hide HeaderLine;
    var keys := SortedKeys(headers.Keys);
    var lines := HeaderLines(keys, headers);
    HeadEnd(first, keys, headers, tail);
    MessageHead(first, lines, tail);
    ScanSkipsFirst(first, lines + "\r\n");
    assert LENGTH_NAME in keys <==> LENGTH_NAME in headers;
    ScanPrintedLines(keys, headers, 0);
  }

  /** The framing decision on a printed head, whatever bytes are behind it: an exception when the
      length is unreadable, too long when it is over 1 MiB, and otherwise so many bytes or too few. */
  lemma FrameOfHead(first: string, headers: Headers, tail: string)
    requires '\n' !in first && first != "" && !IsLengthLine(first + "\r") && Printable(headers)
    ensures var s := MessageText(first, headers, tail);
            var a := AnnouncedBy(headers);
            && (a.Unreadable? ==> FrameOf(s).Throws?)
            && (a.OverLimit? ==> FrameOf(s).TooLong?)
            && (a.Length? ==> FrameOf(s) == if a.value <= |tail| then Whole(|s| - |tail|, |s| - |tail| + a.value)
                                             else Incomplete)
  {
    hide ScanLength;
    hide FrameOf;
    hide AnnouncedBy;
    hide MessageText;
    hide IsLengthLine;
    hide Printable;
    hide Find;
    ScanOfMessage(first, headers, tail);
    var s := MessageText(first, headers, tail);
    FrameFrom(s, |s| - |tail| - 4);
  }

  /** The frame of a printed message whose first line is not taken for a length. */
  lemma FrameOfMessage(first: string, headers: Headers, body: string)
    requires '\n' !in first && first != "" && !IsLengthLine(first + "\r")
    requires Printable(headers) && AnnouncesBody(headers, body)
    ensures var s := MessageText(first, headers, body);
            FrameOf(s) == Whole(|s| - |body|, |s|)
  {
    hide FrameOf;
    hide MessageText;
    hide Stoul;
    hide IsLengthLine;
    FrameOfHead(first, headers, body);
  }

  lemma MessageHead(first: string, lines: string, body: string)
    ensures var s := first + ("\r\n" + (lines + ("\r\n" + body)));
            && |s| == |first| + |lines| + 4 + |body|
            && s[..|first| + |lines| + 4] == first + ("\r\n" + (lines + "\r\n"))
  {
  }

  lemma ParseOfRequestText(r: HttpRequest)
    requires IsWord(r.verb) && IsWord(r.path) && IsWord(r.version) && Printable(r.headers)
    ensures ParsedRequest(RequestText(r)) == r
  {
    ReadRequestLine(r, HeaderLines(SortedKeys(r.headers.Keys), r.headers) + ("\r\n" + r.body));
    ReadPrintedHeaders(r.headers, r.body);
  }

  /** The event that a printed request gives rise to. */
  function EventFor(routes: RoutingMap, r: HttpRequest): Event {
    Dispatch(RequestText(r), r, RouteOf(routes, r.path), false)
  }

  lemma OneRequest(routes: RoutingMap, r: HttpRequest)
    requires WellFormedRequest(r)
    ensures FrameOf(RequestText(r)).Whole? && FrameOf(RequestText(r)).size == |RequestText(r)|
    ensures EventOf(routes, RequestText(r)) == EventFor(routes, r)
  {
    assert IsWord(r.version);
    RequestLineAsLength(r);
    FrameOfMessage(RequestLine(r), r.headers, r.body);
    ParseOfRequestText(r);
  }

  function RequestsText(rs: seq<HttpRequest>): string {
    if rs == [] then "" else RequestText(rs[0]) + RequestsText(rs[1..])
  }

  function EventsFor(routes: RoutingMap, rs: seq<HttpRequest>): seq<Event> {
    if rs == [] then [] else [EventFor(routes, rs[0])] + EventsFor(routes, rs[1..])
  }

  /** Any list of well-formed requests, printed one behind the other, is dispatched as exactly that
      list, and nothing is left over. */
  lemma {:induction false} PrintFrameParse(routes: RoutingMap, rs: seq<HttpRequest>)
    requires forall r :: r in rs ==> WellFormedRequest(r)
    ensures Drain(routes, RequestsText(rs)) == Outcome(EventsFor(routes, rs), "", Waiting)
    decreases |rs|
  {
    hide FrameOf;
    hide EventOf;
    if rs == [] {
      NothingToFrame();
    } else {
      var text, rest := RequestText(rs[0]), RequestsText(rs[1..]);
      assert rs[0] in rs;
      OneRequest(routes, rs[0]);
      FrameStable(text, rest);
      assert (text + rest)[..|text|] == text && (text + rest)[|text|..] == rest;
      PrintFrameParse(routes, rs[1..]);
    }
  }

  lemma NothingToFrame()
    ensures FrameOf("").Incomplete?
  {
  }

  /** The same list arrives through any run of reads that does not overflow the buffer. */
  lemma PrintedRequestsArrive(routes: RoutingMap, rs: seq<HttpRequest>, chunks: seq<string>)
    requires forall r :: r in rs ==> WellFormedRequest(r)
    requires Concat(chunks) == RequestsText(rs) && !Overflows(routes, "", chunks)
    ensures Reads(routes, "", chunks) == Outcome(EventsFor(routes, rs), "", Waiting)
  {
    hide *;
    PrintFrameParse(routes, rs);
    assert "" + Concat(chunks) == Concat(chunks);
    WaitingUnlessOverflow(routes, "", chunks);
    NothingToFrame();
    ChunkIndependence(routes, "", chunks);
  }
}
