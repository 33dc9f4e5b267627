/** Which streams arrive whatever the sizes of the reads. */
module RequestSplits {
  import opened Text
  import opened Http
  import opened Framing
  import opened RouteTable
  import opened Session
  import opened RequestRoundTrip

  /** The size of the array that one read fills. */
  const MAX_READ := 1024

  /** The chunks are a way of reading the stream. */
  ghost predicate IsSplit(chunks: seq<string>, stream: string) {
    Concat(chunks) == stream && forall c :: c in chunks ==> |c| <= MAX_READ
  }

  /** How many bytes it takes to decide on the front of the buffer. */
  function DecidedAt(s: string): (n: nat)
    requires !FrameOf(s).Incomplete?
    ensures 4 <= n <= |s|
  {
    if FrameOf(s).Whole? then FrameOf(s).size else Find(s, BLANK_LINE, 0) + 4
  }

  /** One more read of any size finds room behind all but the last byte that the decision on the front
      of the buffer takes, or the whole stream fits. */
  predicate RoomInFront(s: string) {
    || |s| <= MAX_REQUEST_SIZE
    || (!FrameOf(s).Incomplete? && DecidedAt(s) - 1 + MAX_READ <= MAX_REQUEST_SIZE)
  }

  /** The same for each request of the stream, up to the first that ends the loop. */
  predicate Room(routes: RoutingMap, s: string)
    decreases |s|
  {
    && RoomInFront(s)
    && (FrameOf(s).Whole? && !EndsLoop(EventOf(routes, s[..FrameOf(s).size])) ==>
          Room(routes, s[FrameOf(s).size..]))
  }

  // ---------- when a decision is taken ----------

  lemma DecidedInFront(s: string)
    requires !FrameOf(s).Incomplete?
    ensures FrameOf(s[..DecidedAt(s)]) == FrameOf(s)
  {
    hide ScanLength;
    hide Find;
    if FrameOf(s).Whole? {
      FrameOfWhole(s);
    } else {
      var n := Find(s, BLANK_LINE, 0) + 4;
      FindInPrefix(s, n, BLANK_LINE);
      assert s[..n][..n] == s[..n];
    }
  }

  /** No decision is taken earlier. */
  lemma UndecidedBefore(a: string, t: string)
    requires !FrameOf(a + t).Incomplete?
    ensures |a| < DecidedAt(a + t) <==> FrameOf(a).Incomplete?
  {
    hide FrameOf;
    var s := a + t;
    var n := DecidedAt(s);
    if n <= |a| {
      DecidedInFront(s);
      assert s[..n] == a[..n] && a[..n] + a[n..] == a;
      FrameStable(a[..n], a[n..]);
    }
    if !FrameOf(a).Incomplete? {
      FrameStable(a, t);
      SameDecision(a, t);
    }
  }

  lemma SameDecision(a: string, t: string)
    requires !FrameOf(a).Incomplete? && FrameOf(a + t) == FrameOf(a)
    ensures DecidedAt(a + t) <= |a|
  {
    hide ScanLength;
    FindStable(a, t, BLANK_LINE, 0);
  }

  lemma PartIsIncomplete(part: string, t: string)
    requires !FrameOf(part + t).Incomplete? ==> |part| < DecidedAt(part + t)
    ensures FrameOf(part).Incomplete?
  {
    hide FrameOf;
    if FrameOf(part + t).Incomplete? {
      if !FrameOf(part).Incomplete? {
        FrameStable(part, t);
      }
    } else {
      UndecidedBefore(part, t);
    }
  }

  // ---------- reads that have room ----------

  lemma {:induction false} RoomBehind(routes: RoutingMap, a: string, t: string)
    requires Drain(routes, a).status.Waiting? && Room(routes, a + t)
    ensures Room(routes, Drain(routes, a).rest + t)
    decreases |a|
  {
    hide FrameOf;
    hide EventOf;
    hide RoomInFront;
    if FrameOf(a).Whole? {
      FrameStable(a, t);
      SplitAppend(a, t, FrameOf(a).size);
      RoomBehind(routes, a[FrameOf(a).size..], t);
    }
  }

  lemma NextReadFits(buffer: string, c: string, t: string)
    requires FrameOf(buffer).Incomplete? && RoomInFront(buffer + (c + t)) && |c| <= MAX_READ
    ensures |buffer| + |c| <= MAX_REQUEST_SIZE
  {
    hide FrameOf;
    if !FrameOf(buffer + (c + t)).Incomplete? {
      UndecidedBefore(buffer, c + t);
    }
  }

  /** When there is room no read overflows the buffer. */
  lemma {:induction false} SmallReadsFit(routes: RoutingMap, buffer: string, chunks: seq<string>)
    requires FrameOf(buffer).Incomplete? && Room(routes, buffer + Concat(chunks))
    requires forall c :: c in chunks ==> |c| <= MAX_READ
    ensures !Overflows(routes, buffer, chunks)
    decreases |chunks|
  {
    hide FrameOf;
    hide Drain;
    hide EventOf;
    hide RoomInFront;
    if chunks != [] {
      var a, rest := buffer + chunks[0], Concat(chunks[1..]);
      assert chunks[0] in chunks;
      ConcatMore(buffer, chunks);
      NextReadFits(buffer, chunks[0], rest);
      if Drain(routes, a).status.Waiting? {
        DrainLeavesIncomplete(routes, a);
        RoomBehind(routes, a, rest);
        SmallReadsFit(routes, Drain(routes, a).rest, chunks[1..]);
      }
    }
  }

  // ---------- a split that overflows ----------

  function Bytes(s: string): (chunks: seq<string>)
    ensures forall c :: c in chunks ==> |c| <= MAX_READ
  {
    if s == "" then [] else [s[..1]] + Bytes(s[1..])
  }

  lemma {:induction false} ConcatBytes(s: string)
    ensures Concat(Bytes(s)) == s
  {
    if s != "" {
      ConcatBytes(s[1..]);
      assert Bytes(s)[1..] == Bytes(s[1..]);
      assert s[..1] + s[1..] == s;
    }
  }

  lemma {:induction false} ConcatAppend(a: seq<string>, b: seq<string>)
    ensures Concat(a + b) == Concat(a) + Concat(b)
  {
    if a == [] {
      assert a + b == b;
      assert "" + Concat(b) == Concat(b);
    } else {
      assert (a + b)[1..] == a[1..] + b;
      ConcatAppend(a[1..], b);
      assert a[0] + (Concat(a[1..]) + Concat(b)) == (a[0] + Concat(a[1..])) + Concat(b);
    }
  }

  lemma {:induction false} OverflowsLater(routes: RoutingMap, buffer: string, a: seq<string>, b: seq<string>)
    requires Overflows(routes, buffer, a)
      || (Reads(routes, buffer, a).status.Waiting? && Overflows(routes, Reads(routes, buffer, a).rest, b))
    ensures Overflows(routes, buffer, a + b)
    decreases |a|
  {
    hide Drain;
    if a == [] {
      assert a + b == b;
    } else {
      assert (a + b)[0] == a[0] && (a + b)[1..] == a[1..] + b;
      if |buffer| + |a[0]| <= MAX_REQUEST_SIZE {
        OverflowsLater(routes, Drain(routes, buffer + a[0]).rest, a[1..], b);
      }
    }
  }

  /** A read of full size behind `part` overflows, when the bytes before it are read one by one. */
  lemma BytesThenFullRead(routes: RoutingMap, front: string, part: string, big: string, t: string)
    requires Drain(routes, front).status.Waiting? && Drain(routes, front).rest == part
    requires |part| + |big| > MAX_REQUEST_SIZE && |big| <= MAX_READ
    ensures var chunks := Bytes(front) + ([big] + Bytes(t));
            IsSplit(chunks, front + (big + t)) && Overflows(routes, "", chunks)
  {
    hide Drain;
    hide Bytes;
    var xs, ys := Bytes(front), [big] + Bytes(t);
    ConcatBytes(front);
    ConcatBytes(t);
    assert ys[1..] == Bytes(t);
    ConcatAppend(xs, ys);
    assert "" + front == front;
    if !Overflows(routes, "", xs) {
      WaitingUnlessOverflow(routes, "", xs);
      NothingToFrame();
      ChunkIndependence(routes, "", xs);
    }
    OverflowsLater(routes, "", xs, ys);
  }

  lemma OneMoreFrame(routes: RoutingMap, s: string, front: string)
    requires FrameOf(s).Whole? && !EndsLoop(EventOf(routes, s[..FrameOf(s).size]))
    requires Drain(routes, front).status.Waiting? && Drain(routes, front).rest == ""
    ensures var more := s[..FrameOf(s).size] + front;
            Drain(routes, more).status.Waiting? && Drain(routes, more).rest == ""
  {
    hide FrameOf;
    hide EventOf;
    var head := s[..FrameOf(s).size];
    FrameOfWhole(s);
    FrameStable(head, front);
    assert (head + front)[..|head|] == head && (head + front)[|head|..] == front;
  }

  /** Without room there is none in front of some place behind whole requests. */
  lemma {:induction false} TightPlace(routes: RoutingMap, s: string) returns (front: string, t: string)
    requires !Room(routes, s)
    ensures s == front + t && !RoomInFront(t)
    ensures Drain(routes, front).status.Waiting? && Drain(routes, front).rest == ""
    decreases |s|
  {
    hide FrameOf;
    hide Drain;
    hide EventOf;
    hide RoomInFront;
    if !RoomInFront(s) {
      front, t := "", s;
      assert "" + s == s;
      NothingToFrame();
      DrainNothing(routes, "");
    } else {
      var size := FrameOf(s).size;
      var behind;
      behind, t := TightPlace(routes, s[size..]);
      OneMoreFrame(routes, s, behind);
      SplitAt(s, size);
      Associate(s[..size], behind, t);
      front := s[..size] + behind;
    }
  }

  /** Without room some way of reading the stream overflows. */
  lemma SomeSplitOverflows(routes: RoutingMap, s: string) returns (chunks: seq<string>)
    requires !Room(routes, s)
    ensures IsSplit(chunks, s) && Overflows(routes, "", chunks)
  {
    hide Drain;
    hide FrameOf;
    hide Bytes;
    hide Overflows;
    hide IsSplit;
    hide Room;
    var n := MAX_REQUEST_SIZE + 1 - MAX_READ;
    var before, stream := TightPlace(routes, s);
    var part, big, t := stream[..n], stream[n..n + MAX_READ], stream[n + MAX_READ..];
    assert part + stream[n..] == stream;
    PartIsIncomplete(part, stream[n..]);
    DrainNothing(routes, part);
    DrainResumes(routes, before, part);
    assert "" + part == part;
    var front := before + part;
    BytesThenFullRead(routes, front, part, big, t);
    chunks := Bytes(front) + ([big] + Bytes(t));
    assert part + (big + t) == stream;
    assert front + (big + t) == before + (part + (big + t));
  }

  /** No way of reading a stream overflows the buffer before the loop stops, if and only if there is
      room. */
  lemma NoSplitOverflows(routes: RoutingMap, s: string)
    ensures (forall chunks :: IsSplit(chunks, s) ==> !Overflows(routes, "", chunks)) <==> Room(routes, s)
  {
    hide Overflows;
    hide Room;
    if Room(routes, s) {
      NothingToFrame();
      forall chunks | IsSplit(chunks, s) ensures !Overflows(routes, "", chunks) {
        assert "" + Concat(chunks) == Concat(chunks);
        SmallReadsFit(routes, "", chunks);
      }
    } else {
      var chunks := SomeSplitOverflows(routes, s);
    }
  }

  /** Then every way of reading it gives what the loop does, up to the first stop. */
  lemma ReadAnyWay(routes: RoutingMap, s: string, chunks: seq<string>)
    requires Room(routes, s) && IsSplit(chunks, s)
    ensures Reads(routes, "", chunks).status == Drain(routes, s).status
    ensures Drain(routes, s).events <= Reads(routes, "", chunks).events
    ensures Drain(routes, s).status.Waiting? ==> Reads(routes, "", chunks) == Drain(routes, s)
  {
    hide Overflows;
    hide Reads;
    hide Drain;
    hide Room;
    NoSplitOverflows(routes, s);
    NothingToFrame();
    assert "" + Concat(chunks) == Concat(chunks);
    SameUntilStop(routes, "", chunks);
    if Drain(routes, s).status.Waiting? {
      ChunkIndependence(routes, "", chunks);
    }
  }

  // ---------- printed requests ----------

  ghost predicate WellFormedRequests(rs: seq<HttpRequest>) {
    forall r :: r in rs ==> WellFormedRequest(r)
  }

  ghost predicate FitsFrom(rs: seq<HttpRequest>, i: nat)
    requires i < |rs|
  {
    |RequestText(rs[i])| <= 7169 || |RequestsText(rs[i..])| <= 8192
  }

  ghost predicate AllFit(rs: seq<HttpRequest>) {
    forall i: nat :: i < |rs| ==> FitsFrom(rs, i)
  }

  lemma AllFitStep(rs: seq<HttpRequest>)
    requires rs != []
    ensures AllFit(rs) <==> FitsFrom(rs, 0) && AllFit(rs[1..])
  {
    hide RequestText;
    hide RequestsText;
    forall i: nat | i < |rs[1..]| ensures FitsFrom(rs[1..], i) <==> FitsFrom(rs, i + 1) {
      assert rs[1..][i..] == rs[i + 1..];
    }
    forall i: nat | 0 < i < |rs| ensures FitsFrom(rs, i) <==> FitsFrom(rs[1..], i - 1) {
      assert rs[1..][i - 1..] == rs[i..];
    }
  }

  lemma {:induction false} RoomForRequests(routes: RoutingMap, rs: seq<HttpRequest>)
    requires WellFormedRequests(rs)
    ensures Room(routes, RequestsText(rs)) <==> AllFit(rs)
    decreases |rs|
  {
    hide FrameOf;
    hide EventOf;
    hide RequestText;
    hide WellFormedRequest;
    hide AllFit;
    if rs == [] {
      NothingToFrame();
      NoRequestsFit();
    } else {
      var text, rest := RequestText(rs[0]), RequestsText(rs[1..]);
      assert rs[0] in rs && rs[0..] == rs;
      OneRequest(routes, rs[0]);
      FrameStable(text, rest);
      assert (text + rest)[..|text|] == text && (text + rest)[|text|..] == rest;
      AllFitStep(rs);
      RoomForRequests(routes, rs[1..]);
    }
  }

  lemma NoRequestsFit()
    ensures AllFit([])
  {
  }

  /** For printed requests: each has at most 7169 bytes, or the stream from it on has at most 8192. */
  lemma NoSplitOfRequestsOverflows(routes: RoutingMap, rs: seq<HttpRequest>)
    requires WellFormedRequests(rs)
    ensures (forall chunks :: IsSplit(chunks, RequestsText(rs)) ==> !Overflows(routes, "", chunks)) <==> AllFit(rs)
  {
    hide Overflows;
    hide RequestsText;
    hide AllFit;
    RoomForRequests(routes, rs);
    NoSplitOverflows(routes, RequestsText(rs));
  }

  /** Then the requests arrive, one by one and in order, whatever the reads. */
  lemma RequestsArriveHoweverRead(routes: RoutingMap, rs: seq<HttpRequest>, chunks: seq<string>)
    requires WellFormedRequests(rs) && AllFit(rs) && IsSplit(chunks, RequestsText(rs))
    ensures Reads(routes, "", chunks) == Outcome(EventsFor(routes, rs), "", Waiting)
  {
    hide Reads;
    hide Drain;
    hide AllFit;
    hide EventsFor;
    hide RequestsText;
    PrintFrameParse(routes, rs);
    RoomForRequests(routes, rs);
    ReadAnyWay(routes, RequestsText(rs), chunks);
  }
}
