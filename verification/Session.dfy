/** The session's read loop: bytes in, requests out. */
module Session {
  import opened Text
  import opened Ordered
  import opened Numbers
  import opened Http
  import opened RequestReader
  import opened Framing
  import opened PrefixRouter
  import opened RouteTable

  /** What the loop does for the client: hand a request to the handler of a route (or answer that
      there is none), or answer by itself. `raw` is the text that was cut from the buffer. */
  datatype Event =
    | Dispatch(raw: string, request: HttpRequest, route: Option<string>, close: bool)
    | BadRequest(raw: string)
    | ContentTooLarge
    | BufferOverflow

  /** `Waiting` arms the next read; `Stopped` is an early return; `Threw` is an exception. */
  datatype Status = Waiting | Stopped | Threw

  datatype Outcome = Outcome(events: seq<Event>, rest: string, status: Status)

  predicate IsMalformed(r: HttpRequest) {
    r.verb == "" || r.path == "" || r.version == "" || r.version != "HTTP/1.1"
  }

  predicate WantsClose(r: HttpRequest) {
    "Connection" in r.headers && r.headers["Connection"] == "close"
  }

  function RouteOf(routes: RoutingMap, path: string): Option<string> {
    BestPrefix(SortedKeys(routes.Keys), path)
  }

  function EventOf(routes: RoutingMap, raw: string): (e: Event)
    ensures (e.Dispatch? || e.BadRequest?) && e.raw == raw
  {
    var r := ParsedRequest(raw);
    if IsMalformed(r) then BadRequest(raw) else Dispatch(raw, r, RouteOf(routes, r.path), WantsClose(r))
  }

  predicate EndsLoop(e: Event) {
    e.Dispatch? ==> e.close
  }

  function Before(events: seq<Event>, o: Outcome): Outcome {
    o.(events := events + o.events)
  }

  /** The loop of one read, on what the buffer holds. */
  function Drain(routes: RoutingMap, buffer: string): (o: Outcome)
    decreases |buffer|
  {
    match FrameOf(buffer)
    case Incomplete => Outcome([], buffer, Waiting)
    case TooLong => Outcome([ContentTooLarge], buffer, Stopped)
    case Throws => Outcome([], buffer, Status.Threw)
    case Whole(_, size) =>
      var e := EventOf(routes, buffer[..size]);
      if EndsLoop(e) then Outcome([e], buffer[size..], Stopped)
      else Before([e], Drain(routes, buffer[size..]))
  }

  /** One read: the limit on the buffer is checked before the bytes are appended. */
  function ReadStep(routes: RoutingMap, buffer: string, data: string): Outcome {
    if |buffer| + |data| > MAX_REQUEST_SIZE then Outcome([BufferOverflow], buffer, Stopped)
    else Drain(routes, buffer + data)
  }

  /** Reads one after the other. An early return does not end the session, as a completed write
      arms the next read. The list of reads is followed up to an exception, which leaves the call
      before it arms a read itself. The status is the first one other than `Waiting`. */
  function Reads(routes: RoutingMap, buffer: string, chunks: seq<string>): Outcome
    decreases |chunks|
  {
    if chunks == [] then Outcome([], buffer, Waiting)
    else
      var o := ReadStep(routes, buffer, chunks[0]);
      if o.status.Threw? then o
      else
        var more := Reads(routes, o.rest, chunks[1..]);
        Outcome(o.events + more.events, more.rest, if o.status.Waiting? then more.status else o.status)
  }

  function Concat(chunks: seq<string>): string {
    if chunks == [] then "" else chunks[0] + Concat(chunks[1..])
  }

  // ---------- the loop does not depend on how the bytes arrive ----------

  lemma BeforeBefore(a: seq<Event>, b: seq<Event>, o: Outcome)
    ensures Before(a, Before(b, o)) == Before(a + b, o)
  {
    assert a + (b + o.events) == a + b + o.events;
  }

  /** A loop that ended waiting goes on where it stopped when more bytes come. */
  lemma {:induction false} DrainResumes(routes: RoutingMap, a: string, b: string)
    requires Drain(routes, a).status.Waiting?
    ensures Drain(routes, a + b) == Before(Drain(routes, a).events, Drain(routes, Drain(routes, a).rest + b))
    decreases |a|
  {
    hide FrameOf;
    hide EventOf;
    var f := FrameOf(a);
    if f.Incomplete? {
      assert [] + Drain(routes, a + b).events == Drain(routes, a + b).events;
    } else {
      FrameStable(a, b);
      SplitAppend(a, b, f.size);
      var e := EventOf(routes, a[..f.size]);
      DrainResumes(routes, a[f.size..], b);
      var o := Drain(routes, a[f.size..]);
      BeforeBefore([e], o.events, Drain(routes, o.rest + b));
    }
  }

  /** A loop that ended otherwise does the same whatever bytes come behind. */
  lemma {:induction false} DrainStands(routes: RoutingMap, a: string, b: string)
    requires !Drain(routes, a).status.Waiting?
    ensures Drain(routes, a + b) == Drain(routes, a).(rest := Drain(routes, a).rest + b)
    decreases |a|
  {
    hide FrameOf;
    hide EventOf;
    var f := FrameOf(a);
    FrameStable(a, b);
    if f.Whole? {
      SplitAppend(a, b, f.size);
      if !EndsLoop(EventOf(routes, a[..f.size])) {
        DrainStands(routes, a[f.size..], b);
      }
    }
  }

  lemma {:induction false} DrainLeavesIncomplete(routes: RoutingMap, a: string)
    requires Drain(routes, a).status.Waiting?
    ensures FrameOf(Drain(routes, a).rest).Incomplete?
    decreases |a|
  {
    hide FrameOf;
    hide EventOf;
    var f := FrameOf(a);
    if f.Whole? {
      DrainLeavesIncomplete(routes, a[f.size..]);
    }
  }

  lemma DrainNothing(routes: RoutingMap, a: string)
    requires FrameOf(a).Incomplete?
    ensures Drain(routes, a) == Outcome([], a, Waiting)
  {
  }

  /** As long as every read ends waiting, the requests dispatched and the bytes left over are
      those of one loop over the whole stream, however the stream was cut. */
  lemma {:induction false} ChunkIndependence(routes: RoutingMap, buffer: string, chunks: seq<string>)
    requires FrameOf(buffer).Incomplete?
    requires Reads(routes, buffer, chunks).status.Waiting?
    ensures Reads(routes, buffer, chunks) == Drain(routes, buffer + Concat(chunks))
    decreases |chunks|
  {
    hide Drain;
    if chunks == [] {
      assert buffer + "" == buffer;
      DrainNothing(routes, buffer);
    } else {
      var a, rest := buffer + chunks[0], Concat(chunks[1..]);
      var o := Drain(routes, a);
      DrainLeavesIncomplete(routes, a);
      ChunkIndependence(routes, o.rest, chunks[1..]);
      DrainResumes(routes, a, rest);
      ConcatMore(buffer, chunks);
    }
  }

  lemma ConcatMore(buffer: string, chunks: seq<string>)
    requires chunks != []
    ensures buffer + Concat(chunks) == buffer + chunks[0] + Concat(chunks[1..])
  {
    assert buffer + (chunks[0] + Concat(chunks[1..])) == buffer + chunks[0] + Concat(chunks[1..]);
  }

  /** Two ways of cutting one stream give the same outcome. */
  lemma SplitsAgree(routes: RoutingMap, a: seq<string>, b: seq<string>)
    requires Concat(a) == Concat(b)
    requires Reads(routes, "", a).status.Waiting? && Reads(routes, "", b).status.Waiting?
    ensures Reads(routes, "", a) == Reads(routes, "", b)
  {
    ChunkIndependence(routes, "", a);
    ChunkIndependence(routes, "", b);
  }

  /** Does a read find the buffer too small, with all reads before it ending waiting? */
  predicate Overflows(routes: RoutingMap, buffer: string, chunks: seq<string>)
    decreases |chunks|
  {
    chunks != [] &&
    (|buffer| + |chunks[0]| > MAX_REQUEST_SIZE
     || var o := Drain(routes, buffer + chunks[0]);
        o.status.Waiting? && Overflows(routes, o.rest, chunks[1..]))
  }

  /** When the whole stream leaves the loop waiting, the only thing that can keep a run from
      doing the same is the buffer limit. */
  lemma {:induction false} WaitingUnlessOverflow(routes: RoutingMap, buffer: string, chunks: seq<string>)
    requires Drain(routes, buffer + Concat(chunks)).status.Waiting?
    ensures Reads(routes, buffer, chunks).status.Waiting? <==> !Overflows(routes, buffer, chunks)
    decreases |chunks|
  {
    hide Drain;
    if chunks != [] && |buffer| + |chunks[0]| <= MAX_REQUEST_SIZE {
      var a, rest := buffer + chunks[0], Concat(chunks[1..]);
      ConcatMore(buffer, chunks);
      if !Drain(routes, a).status.Waiting? {
        DrainStands(routes, a, rest);
      }
      DrainResumes(routes, a, rest);
      WaitingUnlessOverflow(routes, Drain(routes, a).rest, chunks[1..]);
    }
  }

  /** Absent overflow a run agrees with one loop over the whole stream up to the first stop: its
      events begin with those of the loop, the first status that is not `Waiting` is the loop's,
      and there are no further events unless the loop stopped by an early return. */
  lemma {:induction false} SameUntilStop(routes: RoutingMap, buffer: string, chunks: seq<string>)
    requires FrameOf(buffer).Incomplete? && !Overflows(routes, buffer, chunks)
    ensures var run, whole := Reads(routes, buffer, chunks), Drain(routes, buffer + Concat(chunks));
            && run.status == whole.status
            && whole.events <= run.events
            && (!whole.status.Stopped? ==> run.events == whole.events)
    decreases |chunks|
  {
    hide Drain;
    hide FrameOf;
    if chunks == [] {
      assert buffer + "" == buffer;
      DrainNothing(routes, buffer);
    } else {
      var a, rest := buffer + chunks[0], Concat(chunks[1..]);
      ConcatMore(buffer, chunks);
      if Drain(routes, a).status.Waiting? {
        DrainLeavesIncomplete(routes, a);
        DrainResumes(routes, a, rest);
        SameUntilStop(routes, Drain(routes, a).rest, chunks[1..]);
      } else {
        DrainStands(routes, a, rest);
      }
    }
  }

  /** A run that overflows is stopped by that: its last event so far is the overflow, and the events
      before it are those of one loop over the bytes read until then. */
  lemma {:induction false} OverflowStops(routes: RoutingMap, buffer: string, chunks: seq<string>) returns (n: nat)
    requires FrameOf(buffer).Incomplete? && Overflows(routes, buffer, chunks)
    ensures n < |chunks| && Drain(routes, buffer + Concat(chunks[..n])).status.Waiting?
    ensures var run, before := Reads(routes, buffer, chunks), Drain(routes, buffer + Concat(chunks[..n]));
            && run.status.Stopped?
            && before.events + [BufferOverflow] <= run.events
            && |before.rest| + |chunks[n]| > MAX_REQUEST_SIZE
    decreases |chunks|
  {
    hide Drain;
    hide FrameOf;
    if |buffer| + |chunks[0]| > MAX_REQUEST_SIZE {
      n := 0;
      assert buffer + Concat(chunks[..0]) == buffer;
      DrainNothing(routes, buffer);
    } else {
      var a := buffer + chunks[0];
      var o := Drain(routes, a);
      DrainLeavesIncomplete(routes, a);
      var m := OverflowStops(routes, o.rest, chunks[1..]);
      n := m + 1;
      assert chunks[..n][0] == chunks[0] && chunks[..n][1..] == chunks[1..][..m];
      ConcatMore(buffer, chunks[..n]);
      DrainResumes(routes, a, Concat(chunks[1..][..m]));
    }
  }

  /** The route of a path has as many segments as any other match, and is the only one with so many
      exactly when the choice is not contested by the route `/`. */
  lemma RouteHasMostSegments(routes: RoutingMap, path: string)
    ensures RouteOf(routes, path).None? <==> forall r :: r in routes ==> !IsPrefixMatch(r, path)
    ensures RouteOf(routes, path).Some? ==>
              var keys, best := SortedKeys(routes.Keys), RouteOf(routes, path).value;
              && best in routes && IsPrefixMatch(best, path)
              && (forall r :: r in routes && IsPrefixMatch(r, path) ==> |Segments(r)| <= |Segments(best)|)
              && (MostSegments(keys, path, best) <==> !Contested(keys, path))
  {
    hide SortedKeys;
    var keys := SortedKeys(routes.Keys);
    BestPrefixIsLongest(keys, path);
    if BestPrefix(keys, path).Some? {
      BestPrefixHasMostSegments(keys, path);
    }
  }

  // ---------- bounds and conservation ----------

  function RawOf(e: Event): string {
    if e.Dispatch? || e.BadRequest? then e.raw else ""
  }

  function Cut(events: seq<Event>): string {
    if events == [] then "" else RawOf(events[0]) + Cut(events[1..])
  }

  /** A dispatched event is faithful to the text it was cut from, and that text is a whole frame. */
  ghost predicate Faithful(routes: RoutingMap, e: Event) {
    e.Dispatch? ==>
      && e == EventOf(routes, e.raw)
      && FrameOf(e.raw).Whole? && FrameOf(e.raw).size == |e.raw|
  }

  lemma {:induction false} FindInPrefix(s: string, n: nat, pattern: string)
    requires n <= |s| && Find(s, pattern, 0) != NPOS && Find(s, pattern, 0) + |pattern| <= n
    ensures Find(s[..n], pattern, 0) == Find(s, pattern, 0)
  {
    var k := Find(s, pattern, 0);
    assert s[..n][k..k + |pattern|] == s[k..k + |pattern|];
    forall j | 0 <= j < k ensures !OccursAt(s[..n], pattern, j) {
      assert !OccursAt(s, pattern, j);
      assert s[..n][j..j + |pattern|] == s[j..j + |pattern|];
    }
    FindIs(s[..n], pattern, 0, k);
  }

  lemma FrameOfWhole(buffer: string)
    requires FrameOf(buffer).Whole?
    ensures FrameOf(buffer[..FrameOf(buffer).size]) == FrameOf(buffer)
  {
    var size := FrameOf(buffer).size;
    var end := Find(buffer, BLANK_LINE, 0);
    FindInPrefix(buffer, size, BLANK_LINE);
    assert buffer[..size][..end + 4] == buffer[..end + 4];
  }

  lemma CutMore(e: Event, events: seq<Event>)
    ensures Cut([e] + events) == RawOf(e) + Cut(events)
  {
    assert ([e] + events)[1..] == events;
  }

  lemma CutOne(e: Event)
    ensures Cut([e]) == RawOf(e)
  {
    assert [e][1..] == [] && RawOf(e) + "" == RawOf(e);
  }

  lemma Associate(a: string, b: string, c: string)
    ensures a + (b + c) == (a + b) + c
  {
  }

  /** The loop cuts the buffer into requests and a rest: no byte is lost, invented or moved. */
  lemma {:induction false} DrainConserves(routes: RoutingMap, buffer: string)
    ensures Cut(Drain(routes, buffer).events) + Drain(routes, buffer).rest == buffer
    decreases |buffer|
  {
    hide FrameOf;
    hide EventOf;
    var f, o := FrameOf(buffer), Drain(routes, buffer);
    if f.Whole? {
      var raw, rest := buffer[..f.size], buffer[f.size..];
      var e := EventOf(routes, raw);
      SplitAt(buffer, f.size);
      if EndsLoop(e) {
        CutOne(e);
      } else {
        DrainConserves(routes, rest);
        var p := Drain(routes, rest);
        CutMore(e, p.events);
        Associate(raw, Cut(p.events), p.rest);
      }
    } else {
      CutOne(ContentTooLarge);
      assert "" + buffer == buffer;
    }
  }

  /** Every request dispatched was a whole frame of the buffer, and each pass that goes on removes
      at least the four bytes of a blank line. */
  lemma {:induction false} DrainIsFaithful(routes: RoutingMap, buffer: string)
    ensures var o := Drain(routes, buffer);
            && |o.rest| <= |buffer|
            && 4 * |o.events| <= |buffer| - |o.rest| + 4
            && forall e :: e in o.events ==> |RawOf(e)| <= |buffer| && Faithful(routes, e)
    decreases |buffer|
  {
    hide FrameOf;
    hide EventOf;
    var f := FrameOf(buffer);
    if f.Whole? {
      var raw, rest := buffer[..f.size], buffer[f.size..];
      FrameOfWhole(buffer);
      if !EndsLoop(EventOf(routes, raw)) {
        DrainIsFaithful(routes, rest);
      }
    }
  }

  /** A read is refused, before its bytes are looked at, exactly when it would take the buffer over
      8192 bytes. */
  lemma ReadIsRefused(routes: RoutingMap, buffer: string, data: string)
    ensures |buffer| + |data| > 8192 ==> ReadStep(routes, buffer, data) == Outcome([BufferOverflow], buffer, Stopped)
    ensures |buffer| + |data| <= 8192 ==>
              ReadStep(routes, buffer, data) == Drain(routes, buffer + data)
              && forall e :: e in ReadStep(routes, buffer, data).events ==> !e.BufferOverflow?
  {
    hide Drain;
    NoOverflowInLoop(routes, buffer + data);
  }

  lemma {:induction false} NoOverflowInLoop(routes: RoutingMap, buffer: string)
    ensures forall e :: e in Drain(routes, buffer).events ==> !e.BufferOverflow?
    decreases |buffer|
  {
    hide FrameOf;
    hide EventOf;
    if FrameOf(buffer).Whole? {
      NoOverflowInLoop(routes, buffer[FrameOf(buffer).size..]);
    }
  }

  /** From an empty buffer, after any reads whatever, the buffer is within its limit and so is
      every request dispatched, head and body together. */
  lemma {:induction false} BufferBound(routes: RoutingMap, buffer: string, chunks: seq<string>)
    requires |buffer| <= 8192
    ensures |Reads(routes, buffer, chunks).rest| <= 8192
    ensures forall e :: e in Reads(routes, buffer, chunks).events && e.Dispatch? ==>
              |e.raw| <= 8192 && Faithful(routes, e)
    decreases |chunks|
  {
    hide Drain;
    if chunks != [] {
      var o := ReadStep(routes, buffer, chunks[0]);
      if |buffer| + |chunks[0]| <= MAX_REQUEST_SIZE {
        DrainIsFaithful(routes, buffer + chunks[0]);
      }
      if !o.status.Threw? {
        BufferBound(routes, o.rest, chunks[1..]);
      }
    }
  }

  // ---------- the session object ----------

  class HttpSession {
    const routes: RoutingMap
    var requestBuffer: string

    ghost predicate Valid()
      reads this
    {
      |requestBuffer| <= MAX_REQUEST_SIZE
    }

    constructor (routes: RoutingMap)
      ensures Valid() && this.routes == routes && requestBuffer == ""
    {
      this.routes := routes;
      requestBuffer := "";
    }

    /** Handles the bytes of one completed read. */
    method HandleRead(data: string) returns (events: seq<Event>, status: Status)
      requires Valid()
      modifies this
      ensures Valid()
      ensures Outcome(events, requestBuffer, status) == ReadStep(routes, old(requestBuffer), data)
    {
      hide FrameOf;
      hide EventOf;
      hide Drain;
      events := [];
      if |requestBuffer| + |data| > MAX_REQUEST_SIZE {
        return [BufferOverflow], Stopped;
      }
      requestBuffer := requestBuffer + data;
      ghost var whole := requestBuffer;
      while true
        invariant |requestBuffer| <= |whole| <= MAX_REQUEST_SIZE
        invariant Progress(routes, whole, events, requestBuffer)
        decreases |requestBuffer|
      {
        ProgressStep(routes, whole, events, requestBuffer);
        var frame := NextFrame(requestBuffer);
        if frame.Incomplete? {
          break;
        }
        if frame.Throws? {
          return events, Status.Threw;
        }
        if frame.TooLong? {
          return events + [ContentTooLarge], Stopped;
        }
        var raw := requestBuffer[..frame.size];
        requestBuffer := requestBuffer[frame.size..];
        var event := ReadEvent(routes, raw);
        events := events + [event];
        if event.BadRequest? || event.close {
          return events, Stopped;
        }
      }
      status := Waiting;
    }
  }

  /** Looks for a complete request at the front of the buffer. */
  method NextFrame(buffer: string) returns (frame: Frame)
    requires |buffer| <= MAX_REQUEST_SIZE
    ensures frame == FrameOf(buffer)
  {
    hide ScanLength;
    var headerEnd := Find(buffer, BLANK_LINE, 0);
    if headerEnd == NPOS {
      return Incomplete;
    }
    var length := ContentLength(buffer[..headerEnd + 4]);
    if length.Unreadable? {
      return Throws;
    }
    if length.OverLimit? {
      return TooLong;
    }
    SizeFits(buffer, headerEnd, length.value);
    var total := headerEnd + 4 + length.value;
    assert total < ULONG_RANGE;
    if |buffer| < total {
      return Incomplete;
    }
    frame := Whole(headerEnd + 4, total);
  }

  /** Parses one request, checks it and chooses its route. */
  method ReadEvent(routes: RoutingMap, raw: string) returns (event: Event)
    ensures event == EventOf(routes, raw)
  {
    var request := ParseRequest(raw);
    if request.verb == "" || request.path == "" || request.version == "" {
      return BadRequest(raw);
    }
    if request.version != "HTTP/1.1" {
      return BadRequest(raw);
    }
    var route := FindBestPrefix(SortedKeys(routes.Keys), request.path);
    var close := "Connection" in request.headers && request.headers["Connection"] == "close";
    event := Dispatch(raw, request, route, close);
  }

  /** The loop on `whole` has given `events` and is left with `buffer`. */
  ghost predicate Progress(routes: RoutingMap, whole: string, events: seq<Event>, buffer: string) {
    Drain(routes, whole) == Before(events, Drain(routes, buffer))
  }

  lemma ProgressStep(routes: RoutingMap, whole: string, events: seq<Event>, buffer: string)
    requires Progress(routes, whole, events, buffer)
    ensures FrameOf(buffer).Incomplete? ==> Drain(routes, whole) == Outcome(events, buffer, Waiting)
    ensures FrameOf(buffer).TooLong? ==> Drain(routes, whole) == Outcome(events + [ContentTooLarge], buffer, Stopped)
    ensures FrameOf(buffer).Throws? ==> Drain(routes, whole) == Outcome(events, buffer, Status.Threw)
    ensures FrameOf(buffer).Whole? ==>
              var size := FrameOf(buffer).size;
              var e := EventOf(routes, buffer[..size]);
              if EndsLoop(e) then Drain(routes, whole) == Outcome(events + [e], buffer[size..], Stopped)
              else Progress(routes, whole, events + [e], buffer[size..])
  {
    hide FrameOf;
    hide EventOf;
    assert events + [] == events;
    if FrameOf(buffer).Whole? {
      var size := FrameOf(buffer).size;
      BeforeBefore(events, [EventOf(routes, buffer[..size])], Drain(routes, buffer[size..]));
    }
  }
}
