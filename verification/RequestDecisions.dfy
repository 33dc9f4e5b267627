/** What the loop does with each kind of printed request. */
module RequestDecisions {
  import opened Text
  import opened Numbers
  import opened Http
  import opened RequestReader
  import opened Framing
  import opened HeadLines
  import opened RouteTable
  import opened Session
  import opened RequestRoundTrip

  /** A request line of three words, behind which the headers can be read back. */
  ghost predicate IsPrintedRequest(r: HttpRequest) {
    && IsWord(r.verb) && IsWord(r.path) && IsWord(r.version)
    && !IsLengthLine(r.verb)
    && Printable(r.headers)
  }

  lemma FrameOfRequest(r: HttpRequest, rest: string)
    requires IsPrintedRequest(r)
    ensures var s := RequestText(r) + rest;
            var a := AnnouncedBy(r.headers);
            var tail := r.body + rest;
            && (a.Unreadable? ==> FrameOf(s).Throws?)
            && (a.OverLimit? ==> FrameOf(s).TooLong?)
            && (a.Length? && a.value > |tail| ==> FrameOf(s).Incomplete?)
            && (a.Length? && a.value <= |tail| ==> FrameOf(s).Whole? && FrameOf(s).size == |s| - |tail| + a.value)
  {
    hide FrameOf;
    hide MessageText;
    hide AnnouncedBy;
    hide IsLengthLine;
    hide RequestLine;
    hide Printable;
    hide IsWord;
    RequestLineAsLength(r);
    MessageThenRest(RequestLine(r), r.headers, r.body, rest);
    FrameOfHead(RequestLine(r), r.headers, r.body + rest);
  }

  /** The length that the header announces, in the words of the header; without one it is zero. */
  function LengthOfRequest(r: HttpRequest): Reading {
    if "Content-Length" in r.headers then Stoul(r.headers["Content-Length"]) else Number(0)
  }

  /** A head with an unreadable length throws, one with a length over 1048576 is answered with 413 and
      stays in the buffer, and with any other length the loop waits for exactly that many bytes. */
  lemma LengthDecides(routes: RoutingMap, r: HttpRequest, rest: string)
    requires IsPrintedRequest(r)
    ensures var s := RequestText(r) + rest;
            var length := LengthOfRequest(r);
            && (!length.Number? ==> Drain(routes, s) == Outcome([], s, Status.Threw))
            && (length.Number? && length.value > 1048576 ==>
                  Drain(routes, s) == Outcome([ContentTooLarge], s, Stopped))
            && (length.Number? && |r.body + rest| < length.value <= 1048576 ==>
                  Drain(routes, s) == Outcome([], s, Waiting))
  {
    hide FrameOf;
    hide EventOf;
    hide RequestText;
    hide IsPrintedRequest;
    hide Stoul;
    FrameOfRequest(r, rest);
  }

  /** A printed request whose body is complete. */
  ghost predicate IsComplete(r: HttpRequest) {
    && IsPrintedRequest(r)
    && LengthOfRequest(r) == Number(|r.body|) && |r.body| <= 1048576
  }

  lemma RawRequest(r: HttpRequest, rest: string)
    requires IsComplete(r)
    ensures var s := RequestText(r) + rest;
            && FrameOf(s).Whole? && FrameOf(s).size == |RequestText(r)|
            && s[..FrameOf(s).size] == RequestText(r) && s[FrameOf(s).size..] == rest
            && ParsedRequest(RequestText(r)) == r
  {
    hide FrameOf;
    hide RequestText;
    hide ParsedRequest;
    hide IsWord;
    hide Printable;
    hide IsLengthLine;
    hide Stoul;
    FrameOfRequest(r, rest);
    ParseOfRequestText(r);
  }

  /** Any version but HTTP/1.1 is answered with 400, and the loop stops behind that request. */
  lemma OtherVersionsAreRefused(routes: RoutingMap, r: HttpRequest, rest: string)
    requires IsComplete(r) && r.version != "HTTP/1.1"
    ensures Drain(routes, RequestText(r) + rest) == Outcome([BadRequest(RequestText(r))], rest, Stopped)
  {
    hide FrameOf;
    hide RequestText;
    hide ParsedRequest;
    hide IsComplete;
    RawRequest(r, rest);
  }

  /** With HTTP/1.1 the request is handed to the route of its path. When a header `Connection` has the
      value `close` the loop stops behind it; with any other value, or without one, it goes on. */
  lemma RequestsAreDispatched(routes: RoutingMap, r: HttpRequest, rest: string)
    requires IsComplete(r) && r.version == "HTTP/1.1"
    ensures var text, route := RequestText(r), RouteOf(routes, r.path);
            && ("Connection" in r.headers && r.headers["Connection"] == "close" ==>
                  Drain(routes, text + rest) == Outcome([Dispatch(text, r, route, true)], rest, Stopped))
            && (!("Connection" in r.headers && r.headers["Connection"] == "close") ==>
                  var more := Drain(routes, rest);
                  Drain(routes, text + rest)
                  == Outcome([Dispatch(text, r, route, false)] + more.events, more.rest, more.status))
  {
    hide FrameOf;
    hide RequestText;
    hide ParsedRequest;
    hide RouteOf;
    RawRequest(r, rest);
    WordsAreNotEmpty(r);
    hide IsComplete;
  }

  lemma WordsAreNotEmpty(r: HttpRequest)
    requires IsComplete(r)
    ensures r.verb != "" && r.path != "" && r.version != ""
  {
  }

  // ---------- too few words ----------

  lemma ShortMessage(line: string, rest: string)
    requires '\n' !in line && line != "" && !IsLengthLine(line + "\r")
    ensures var text := line + "\r\n\r\n";
            && FrameOf(text + rest).Whole? && FrameOf(text + rest).size == |text|
            && (text + rest)[..|text|] == text && (text + rest)[|text|..] == rest
  {
    hide FrameOf;
    hide IsLengthLine;
    var none: Headers := map[];
    FrameOfHead(line, none, rest);
    MessageOfFew(line, "", "", rest);
    assert line + "\r\n" + "\r\n" + rest == line + "\r\n\r\n" + rest;
  }

  lemma TwoWordsAtMost(w1: string, gap: string, w2: string)
    requires NoneWhite(w1) && NoneWhite(w2) && AllWhite(gap) && w1 != ""
    requires gap == "" ==> w2 == ""
    ensures var text := w1 + (gap + w2) + "\r\n\r\n";
            ParsedRequest(text).verb == w1 && ParsedRequest(text).path == w2 && ParsedRequest(text).version == ""
  {
    hide ReadHeaders;
    hide Extract;
    hide AfterLine;
    var end := "\r\n\r\n";
    assert AllWhite(end);
    var behind := gap + (w2 + end);
    assert w1 + (gap + w2) + end == "" + (w1 + behind);
    assert behind[0] as int in WHITE_SPACE by {
      assert behind[0] == if gap == "" then end[0] else gap[0];
    }
    WordIsExtracted("", w1, behind);
    if w2 == "" {
      assert behind == gap + end + ("" + "") && AllWhite(gap + end);
      WordIsExtracted(gap + end, "", "");
      WordIsExtracted("", "", "");
    } else {
      WordIsExtracted(gap, w2, end);
      assert end == end + ("" + "");
      WordIsExtracted(end, "", "");
    }
  }

  /** A first line of one or two words with nothing behind it is answered with 400, and the loop stops
      behind its blank line. */
  lemma ShortLinesAreRefused(routes: RoutingMap, w1: string, gap: string, w2: string, rest: string)
    requires NoneWhite(w1) && NoneWhite(w2) && AllWhite(gap) && w1 != "" && '\n' !in gap
    requires gap == "" ==> w2 == ""
    requires !IsLengthLine(w1 + (gap + w2) + "\r")
    ensures var text := w1 + (gap + w2) + "\r\n\r\n";
            Drain(routes, text + rest) == Outcome([BadRequest(text)], rest, Stopped)
  {
    hide FrameOf;
    hide ParsedRequest;
    hide IsLengthLine;
    var line := w1 + (gap + w2);
    assert '\n' !in line by {
      assert forall i :: 0 <= i < |w1| ==> w1[i] != '\n';
      assert forall i :: 0 <= i < |w2| ==> w2[i] != '\n';
    }
    ShortMessage(line, rest);
    TwoWordsAtMost(w1, gap, w2);
  }
}
