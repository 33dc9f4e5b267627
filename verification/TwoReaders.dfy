/** The framing scan and the request parser read the same bytes; when they agree. */
module TwoReaders {
  import opened Text
  import opened Numbers
  import opened Ordered
  import opened Http
  import opened RequestReader
  import opened Framing
  import opened HeadLines
  import opened Session
  import opened RequestRoundTrip

  /** Every line feed of the head follows a carriage return. */
  ghost predicate NoBareFeed(head: string) {
    forall i :: 0 <= i < |head| && head[i] == '\n' ==> i > 0 && head[i - 1] == '\r'
  }

  /** From `from` on, some line of the head in front of its end is a carriage return only. */
  ghost predicate LoneReturn(head: string, from: nat) {
    exists p :: LoneReturnAt(head, from, p)
  }

  ghost predicate LoneReturnAt(head: string, from: nat, p: nat) {
    from <= p && 1 <= p && p + 4 <= |head| && head[p - 1] == '\n' && head[p] == '\r' && head[p + 1] == '\n'
  }

  ghost predicate HasThreeWords(line: string) {
    && Extract(line).0 != ""
    && Extract(Extract(line).1).0 != ""
    && Extract(Extract(Extract(line).1).1).0 != ""
  }

  // ---------- the request line ----------

  lemma {:induction false} WordLengthAppend(s: string, u: string)
    requires u != "" && IsSpace(u[0])
    ensures WordLength(s + u) == WordLength(s)
    decreases |s|
  {
    if s == "" {
      assert s + u == u;
    } else {
      assert (s + u)[1..] == s[1..] + u;
      if !IsSpace(s[0]) {
        WordLengthAppend(s[1..], u);
      }
    }
  }

  lemma ExtractAppend(s: string, u: string)
    requires Extract(s).0 != "" && u != "" && IsSpace(u[0])
    ensures Extract(s + u) == (Extract(s).0, Extract(s).1 + u)
  {
    var t := SkipSpaces(s);
    SkipSpacesAppend(s, u);
    WordLengthAppend(t, u);
    var n := WordLength(t);
    assert (t + u)[..n] == t[..n] && (t + u)[n..] == t[n..] + u;
  }

  lemma {:induction false} SkipSpacesNoFeed(s: string)
    requires '\n' !in s
    ensures '\n' !in SkipSpaces(s)
    decreases |s|
  {
    if s != "" && IsSpace(s[0]) {
      SkipSpacesNoFeed(s[1..]);
    }
  }

  lemma ExtractNoFeed(s: string)
    requires '\n' !in s
    ensures '\n' !in Extract(s).1
  {
    SkipSpacesNoFeed(s);
  }

  /** The parser leaves the request line where the line ends, if the line has three words. */
  lemma RequestLineEnds(line: string, rest: string)
    requires '\n' !in line && HasThreeWords(line)
    ensures BehindRequestLine(line + ("\n" + rest)) == rest
  {
    hide Extract;
    var u := "\n" + rest;
    var r1 := Extract(line).1;
    var r2 := Extract(r1).1;
    var r3 := Extract(r2).1;
    ExtractAppend(line, u);
    ExtractAppend(r1, u);
    ExtractAppend(r2, u);
    ExtractNoFeed(line);
    ExtractNoFeed(r1);
    ExtractNoFeed(r2);
    LineEndIs(r3, rest);
    assert r3 + "\n" + rest == r3 + u;
  }

  // ---------- the header lines ----------

  lemma LineAt(s: string, p: nat, q: nat)
    requires p <= q < |s| && s[q] == '\n' && forall i :: p <= i < q ==> s[i] != '\n'
    ensures s[p..] != "" && s[p..][..LineEnd(s[p..])] == s[p..q]
    ensures AfterLine(s[p..]) == s[q + 1..]
  {
    assert s[p..] == s[p..q] + "\n" + s[q + 1..];
    LineEndIs(s[p..q], s[q + 1..]);
  }

  lemma NextFeed(s: string, p: nat, e: nat) returns (q: nat)
    requires p <= e < |s| && s[e] == '\n'
    ensures p <= q <= e && s[q] == '\n' && forall i :: p <= i < q ==> s[i] != '\n'
  {
    q := p;
    while s[q] != '\n'
      invariant p <= q <= e && forall i :: p <= i < q ==> s[i] != '\n'
      decreases e - q
    {
      q := q + 1;
    }
  }

  lemma ReadLine(s: string, p: nat, q: nat, acc: Headers)
    requires p <= q < |s| && s[q] == '\n' && forall i :: p <= i < q ==> s[i] != '\n'
    ensures ReadHeaders(s[p..], acc) ==
            if s[p..q] == "\r" then (acc, s[q + 1..]) else ReadHeaders(s[q + 1..], AddHeader(acc, s[p..q]))
  {
    hide AddHeader;
    LineAt(s, p, q);
  }

  lemma InHead(s: string, n: nat, p: nat, q: nat)
    requires p <= q < n <= |s|
    ensures s[..n][q] == s[q] && s[..n][p..q] == s[p..q]
  {
  }

  lemma LineNotBlank(head: string, p: nat, q: nat)
    requires 1 <= p <= q && p + 4 <= |head| && q < |head| && head[p - 1] == '\n' && head[q] == '\n'
    requires !LoneReturn(head, p)
    ensures head[p..q] != "\r"
  {
    assert !LoneReturnAt(head, p, p);
    assert q == p + 1 ==> head[p..q] == [head[p]];
  }

  /** From a line start of the head on, when no line in between is a carriage return only, the parser
      stops exactly at the end of the head, and it collects the headers that it would collect from
      the head alone. */
  lemma {:induction false} ParserStopsAtHead(s: string, e: nat, p: nat, acc: Headers)
    requires OccursAt(s, BLANK_LINE, e) && !LoneReturn(s[..e + 4], p)
    requires 1 <= p <= e + 2 && s[p - 1] == '\n'
    ensures ReadHeaders(s[p..], acc) == (ReadHeaders(s[..e + 4][p..], acc).0, s[e + 4..])
    decreases e + 2 - p
  {
    hide ReadHeaders;
    hide AddHeader;
    hide LoneReturn;
    hide OccursAt;
    BlankLineAt(s, e);
    var head := s[..e + 4];
    var q := NextFeed(s, p, if p == e + 2 then e + 3 else e + 1);
    InHead(s, e + 4, p, q);
    ReadLine(s, p, q, acc);
    ReadLine(head, p, q, acc);
    if p == e + 2 {
      assert s[p..q] == "\r";
    } else {
      InHead(s, e + 4, p - 1, p - 1);
      LineNotBlank(head, p, q);
      LaterLoneReturn(head, p, q + 1);
      ParserStopsAtHead(s, e, q + 1, AddHeader(acc, s[p..q]));
    }
  }

  lemma LaterLoneReturn(head: string, p: nat, q: nat)
    requires p <= q
    ensures LoneReturn(head, q) ==> LoneReturn(head, p)
  {
    if r: nat :| LoneReturnAt(head, q, r) {
      assert LoneReturnAt(head, p, r);
    }
  }

  /** The parser stops no later than at the first line that is a carriage return only. */
  lemma {:induction false} ParserStopsAtReturn(s: string, p: nat, r: nat, acc: Headers)
    requires LoneReturnAt(s, p, r)
    ensures |ReadHeaders(s[p..], acc).1| >= |s| - (r + 2)
    decreases r - p
  {
    hide ReadHeaders;
    hide AddHeader;
    var q := NextFeed(s, p, r + 1);
    ReadLine(s, p, q, acc);
    if p == r {
      assert q == p + 1 && s[p..q] == [s[p]];
    } else if s[p..q] != "\r" {
      ParserStopsAtReturn(s, q + 1, r, AddHeader(acc, s[p..q]));
    }
  }

  // ---------- both readers, line by line ----------

  /** The length found by the scan is the one kept in the header map. */
  ghost predicate Agree(found: nat, headers: Headers) {
    if LENGTH_NAME in headers then Stoul(headers[LENGTH_NAME]) == Number(found) else found == 0
  }

  lemma ReadingOfHeaderValue(x: string)
    ensures Stoul(HeaderValue(x)) == Stoul(TrimBlanks(x))
  {
    var t := TrimBlanks(x);
    if t != "" && t[|t| - 1] == '\r' {
      StoulIgnoresReturn(t[..|t| - 1]);
      assert t == t[..|t| - 1] + "\r";
    }
  }

  lemma AddLengthLine(line: string, headers: Headers)
    requires IsLengthLine(line)
    ensures LENGTH_NAME in AddHeader(headers, line)
    ensures Stoul(AddHeader(headers, line)[LENGTH_NAME]) == LengthReading(line)
  {
    hide Stoul;
    hide HeaderValue;
    hide TrimBlanks;
    ColonOfLengthLine(line);
    ReadingOfHeaderValue(line[15..]);
  }

  lemma AddOtherLine(line: string, headers: Headers)
    requires !IsLengthLine(line)
    ensures LENGTH_NAME in AddHeader(headers, line) <==> LENGTH_NAME in headers
    ensures LENGTH_NAME in headers ==> AddHeader(headers, line)[LENGTH_NAME] == headers[LENGTH_NAME]
  {
    hide HeaderValue;
    hide IsLengthLine;
    ColonOfLengthLine(line);
    var colon := Find(line, ":", 0);
    if colon != NPOS && colon != 14 {
      assert |line[..colon]| != |LENGTH_NAME|;
    }
  }

  /** What the last length line in front of a line with a carriage return only reads as; `before` is
      what was read in front of `t`. */
  function LastLength(t: string, before: Option<Reading>): Option<Reading>
    decreases |t|
  {
    if t == "" || t[..LineEnd(t)] == "\r" then before
    else
      var line := t[..LineEnd(t)];
      LastLength(AfterLine(t), if IsLengthLine(line) then Some(LengthReading(line)) else before)
  }

  /** The header map keeps that reading, or no length. */
  ghost predicate Keeps(headers: Headers, last: Option<Reading>) {
    && (LENGTH_NAME in headers <==> last.Some?)
    && (last.Some? ==> Stoul(headers[LENGTH_NAME]) == last.value)
  }

  lemma {:induction false} MapKeepsLast(t: string, headers: Headers, before: Option<Reading>)
    requires Keeps(headers, before)
    ensures Keeps(ReadHeaders(t, headers).0, LastLength(t, before))
    decreases |t|
  {
    hide Stoul;
    hide AddHeader;
    hide LengthReading;
    hide IsLengthLine;
    if t != "" && t[..LineEnd(t)] != "\r" {
      var line := t[..LineEnd(t)];
      if IsLengthLine(line) {
        AddLengthLine(line, headers);
      } else {
        AddOtherLine(line, headers);
      }
      MapKeepsLast(AfterLine(t), AddHeader(headers, line),
                   if IsLengthLine(line) then Some(LengthReading(line)) else before);
    }
  }

  /** When the scan finds a length it is that of the last length line, or the one it started with. */
  lemma {:induction false} ScanFindsLast(t: string, found: nat, before: Option<Reading>)
    requires ScanLength(t, found).Length? && (before.Some? ==> before.value == Number(found))
    ensures var last, n := LastLength(t, before), ScanLength(t, found).value;
            && (last.Some? ==> last.value == Number(n))
            && (last.None? ==> before.None? && n == found)
    decreases |t|
  {
    hide Stoul;
    hide TrimBlanks;
    hide IsLengthLine;
    if t != "" && t[..LineEnd(t)] != "\r" {
      var line := t[..LineEnd(t)];
      if IsLengthLine(line) {
        ScanFindsLast(AfterLine(t), LengthReading(line).value, Some(LengthReading(line)));
      } else {
        ScanFindsLast(AfterLine(t), found, before);
      }
    }
  }

  /** Read from one place, with no length in front, the two agree. */
  lemma ReadersInStep(t: string)
    requires ScanLength(t, 0).Length?
    ensures Agree(ScanLength(t, 0).value, ReadHeaders(t, map[]).0)
  {
    hide ReadHeaders;
    hide ScanLength;
    hide LastLength;
    hide Stoul;
    MapKeepsLast(t, map[], None);
    ScanFindsLast(t, 0, None);
  }

  // ---------- where the parser begins with the headers ----------

  lemma {:induction false} SkipSpacesIsSuffix(s: string)
    ensures SkipSpaces(s) == s[|s| - |SkipSpaces(s)|..]
  {
    if s != "" && IsSpace(s[0]) {
      SkipSpacesIsSuffix(s[1..]);
    }
  }

  lemma ExtractIsSuffix(s: string)
    ensures Extract(s).1 == s[|s| - |Extract(s).1|..]
  {
    SkipSpacesIsSuffix(s);
  }

  lemma SuffixOfSuffix(s: string, a: string, b: string)
    requires |b| <= |a| <= |s| && a == s[|s| - |a|..] && b == a[|a| - |b|..]
    ensures b == s[|s| - |b|..]
    ensures |b| < |a| ==> s[|s| - |b| - 1] == a[|a| - |b| - 1]
  {
  }

  lemma AfterLineIsSuffix(s: string)
    ensures |AfterLine(s)| <= |s| && AfterLine(s) == s[|s| - |AfterLine(s)|..]
    ensures AfterLine(s) != "" ==> |AfterLine(s)| < |s| && s[|s| - |AfterLine(s)| - 1] == '\n'
  {
  }

  ghost predicate IsSuffix(t: string, s: string) {
    |t| <= |s| && t == s[|s| - |t|..]
  }

  lemma WordsLeaveSuffix(s: string)
    ensures IsSuffix(Extract(Extract(Extract(s).1).1).1, s)
  {
    hide Extract;
    var a := Extract(s).1;
    var b := Extract(a).1;
    var c := Extract(b).1;
    ExtractIsSuffix(s);
    ExtractIsSuffix(a);
    ExtractIsSuffix(b);
    SuffixOfSuffix(s, a, b);
    SuffixOfSuffix(s, b, c);
  }

  lemma LineLeavesSuffix(s: string, c: string)
    requires IsSuffix(c, s)
    ensures IsSuffix(AfterLine(c), s)
    ensures AfterLine(c) != "" ==> |AfterLine(c)| < |s| && s[|s| - |AfterLine(c)| - 1] == '\n'
  {
    hide AfterLine;
    AfterLineIsSuffix(c);
    SuffixOfSuffix(s, c, AfterLine(c));
  }

  /** The header lines begin behind a line feed, unless nothing is left. */
  lemma BehindIsSuffix(s: string) returns (p: nat)
    ensures p == |s| - |BehindRequestLine(s)| && BehindRequestLine(s) == s[p..]
    ensures p < |s| ==> p > 0 && s[p - 1] == '\n'
  {
    hide Extract;
    hide AfterLine;
    WordsLeaveSuffix(s);
    LineLeavesSuffix(s, Extract(Extract(Extract(s).1).1).1);
    p := |s| - |BehindRequestLine(s)|;
  }

  lemma {:induction false} BodyIsShorter(t: string, headers: Headers)
    ensures t != "" ==> |ReadHeaders(t, headers).1| < |t|
    decreases |t|
  {
    if t != "" && t[..LineEnd(t)] != "\r" {
      BodyIsShorter(AfterLine(t), AddHeader(headers, t[..LineEnd(t)]));
    }
  }

  // ---------- the exact condition ----------

  lemma FirstLineOfHead(s: string, e: nat) returns (q: nat)
    requires OccursAt(s, BLANK_LINE, e)
    ensures q <= e + 1 && s[q] == '\n' && '\n' !in s[..q] && LineEnd(s[..e + 4]) == q
    ensures s[..e + 4][..q] == s[..q] && AfterLine(s[..e + 4]) == s[..e + 4][q + 1..]
  {
    BlankLineAt(s, e);
    q := NextFeed(s, 0, e + 1);
    var head := s[..e + 4];
    LineAt(head, 0, q);
    assert head[0..] == head && head[0..q] == s[..q];
    assert |head[..LineEnd(head)]| == |s[..q]|;
  }

  lemma ThreeWordsIsNotBlank(line: string)
    requires HasThreeWords(line)
    ensures line != "\r" && line != ""
  {
    assert SkipSpaces("\r") == SkipSpaces("\r"[1..]) == "";
  }

  lemma FrameParts(buffer: string)
    requires FrameOf(buffer).Whole?
    ensures var f := FrameOf(buffer);
            && Find(buffer[..f.size], BLANK_LINE, 0) == f.head - 4
            && ScanLength(buffer[..f.head], 0) == Length(f.size - f.head)
  {
    hide ScanLength;
    hide Find;
    FindInPrefix(buffer, FrameOf(buffer).size, BLANK_LINE);
  }

  /** What the scan makes of the first line: a length, or nothing. */
  function LengthOfLine(line: string): nat {
    if IsLengthLine(line) && LengthReading(line).Number? then LengthReading(line).value else 0
  }

  lemma ScanFirstLine(t: string)
    requires t != "" && t[..LineEnd(t)] != "\r"
    requires ScanLength(t, 0).Length? || !IsLengthLine(t[..LineEnd(t)])
    ensures ScanLength(t, 0) == ScanLength(AfterLine(t), LengthOfLine(t[..LineEnd(t)]))
  {
  }

  /** The parser starts the body where the frame says, the body has the announced length, and that is
      the length in the header map. */
  ghost predicate ReadAlike(buffer: string)
    requires FrameOf(buffer).Whole?
  {
    var f := FrameOf(buffer);
    var r := ParsedRequest(buffer[..f.size]);
    r.body == buffer[f.head..f.size] && Agree(|r.body|, r.headers)
  }

  /** From `p` on, no line in front of the end of the head is a carriage return only, and the last
      length line announces the length of the body, or there is none and no body. */
  ghost predicate HeadReadsAlike(buffer: string, p: nat)
    requires FrameOf(buffer).Whole? && p <= FrameOf(buffer).head
  {
    var f := FrameOf(buffer);
    var last := LastLength(buffer[..f.head][p..], None);
    && !LoneReturn(buffer[..f.head], p)
    && if last.Some? then last.value == Number(f.size - f.head) else f.size == f.head
  }

  /** Where the parser begins with the headers. */
  function HeadersBegin(buffer: string): (p: nat)
    requires FrameOf(buffer).Whole?
    ensures p <= FrameOf(buffer).size
  {
    var s := buffer[..FrameOf(buffer).size];
    BehindIsShorter(s);
    |s| - |BehindRequestLine(s)|
  }

  lemma BehindIsShorter(s: string)
    ensures |BehindRequestLine(s)| <= |s|
  {
    hide Extract;
  }

  lemma BodyAtHead(s: string, e: nat, q: nat)
    requires OccursAt(s, BLANK_LINE, e) && q <= e + 1 && s[q] == '\n'
    ensures ReadHeaders(s[q + 1..], map[]).1 == s[e + 4..] <==> !LoneReturn(s[..e + 4], q + 1)
    ensures !LoneReturn(s[..e + 4], q + 1) ==>
              ReadHeaders(s[q + 1..], map[]).0 == ReadHeaders(s[..e + 4][q + 1..], map[]).0
  {
    hide ReadHeaders;
    var from, head := q + 1, s[..e + 4];
    if r: nat :| LoneReturnAt(head, from, r) {
      InHead(s, e + 4, r - 1, r - 1);
      InHead(s, e + 4, r, r);
      InHead(s, e + 4, r + 1, r + 1);
      assert LoneReturnAt(s, q + 1, r);
      ParserStopsAtReturn(s, q + 1, r, map[]);
    } else {
      ParserStopsAtHead(s, e, q + 1, map[]);
    }
  }

  /** The parts of a frame whose first line has three words: `q` is the end of that line. */
  lemma RequestParts(buffer: string) returns (q: nat)
    requires FrameOf(buffer).Whole? && FirstLineHasThreeWords(buffer)
    ensures var f := FrameOf(buffer);
            var s, head := buffer[..f.size], buffer[..f.head];
            && q == LineEnd(head) && q + 3 <= f.head && s[q] == '\n'
            && s[..f.head] == head && OccursAt(s, BLANK_LINE, f.head - 4)
            && BehindRequestLine(s) == s[q + 1..]
            && ScanLength(head[q + 1..], LengthOfLine(head[..q])) == Length(f.size - f.head)
            && s[f.head..] == buffer[f.head..f.size]
  {
    hide ReadHeaders;
    hide ScanLength;
    hide Extract;
    hide IsLengthLine;
    hide Find;
    hide LineEnd;
    hide FrameOf;
    hide HasThreeWords;
    hide LengthOfLine;
    var f := FrameOf(buffer);
    var s, head, e := buffer[..f.size], buffer[..f.head], f.head - 4;
    FrameParts(buffer);
    assert s[..e + 4] == head;
    q := FirstLineOfHead(s, e);
    var line := s[..q];
    ThreeWordsIsNotBlank(line);
    ScanFirstLine(head);
    assert s == line + ("\n" + s[q + 1..]);
    RequestLineEnds(line, s[q + 1..]);
    assert s[e + 4..] == buffer[f.head..f.size];
  }

  lemma HeadersInHead(buffer: string)
    requires FrameOf(buffer).Whole? && HeadersBegin(buffer) <= FrameOf(buffer).head - 2
    ensures ReadAlike(buffer) <==> HeadReadsAlike(buffer, HeadersBegin(buffer))
  {
    hide ReadHeaders;
    hide LastLength;
    hide ScanLength;
    hide Extract;
    hide Stoul;
    hide LineEnd;
    hide FrameOf;
    hide BehindRequestLine;
    hide LoneReturn;
    hide OccursAt;
    var f := FrameOf(buffer);
    var s, head := buffer[..f.size], buffer[..f.head];
    FrameParts(buffer);
    assert s[..f.head] == head && s[f.head..] == buffer[f.head..f.size];
    var p := BehindIsSuffix(s);
    BodyAtHead(s, f.head - 4, p - 1);
    MapKeepsLast(head[p..], map[], None);
    assert |buffer[f.head..f.size]| == f.size - f.head;
  }

  lemma HeadersBehindHead(buffer: string)
    requires FrameOf(buffer).Whole? && HeadersBegin(buffer) > FrameOf(buffer).head - 2
    ensures ReadAlike(buffer) <==> FrameOf(buffer).size == FrameOf(buffer).head
  {
    hide LastLength;
    hide ScanLength;
    hide Extract;
    hide Stoul;
    hide FrameOf;
    hide BehindRequestLine;
    hide OccursAt;
    hide AddHeader;
    var f := FrameOf(buffer);
    var s := buffer[..f.size];
    FrameParts(buffer);
    BlankLineAt(s, f.head - 4);
    var p := BehindIsSuffix(s);
    assert p >= f.head;
    BodyIsShorter(s[p..], map[]);
    if f.size == f.head {
      assert s[p..] == "" == buffer[f.head..f.size];
    }
  }

  /** The framing scan and the parser read a request in the same way, if and only if the following
      holds. If the parser begins with the headers in the head: no line from there to the end of the
      head is a carriage return only, and the last length line from there on announces the length of
      the body, or there is none and no body. If it begins behind the head: there is no body. */
  lemma TwoReadersAgreeExactly(buffer: string)
    requires FrameOf(buffer).Whole?
    ensures ReadAlike(buffer) <==>
            if HeadersBegin(buffer) <= FrameOf(buffer).head - 2 then HeadReadsAlike(buffer, HeadersBegin(buffer))
            else FrameOf(buffer).size == FrameOf(buffer).head
  {
    hide ReadAlike;
    hide HeadReadsAlike;
    hide HeadersBegin;
    hide FrameOf;
    if HeadersBegin(buffer) <= FrameOf(buffer).head - 2 {
      HeadersInHead(buffer);
    } else {
      HeadersBehindHead(buffer);
    }
  }

  ghost predicate FirstLineHasThreeWords(buffer: string)
    requires FrameOf(buffer).Whole?
  {
    var head := buffer[..FrameOf(buffer).head];
    HasThreeWords(head[..LineEnd(head)])
  }

  /** When the first line has three words the headers begin behind it. Then the two agree if and only
      if no later line in front of the end of the head is a carriage return only, and a length that
      the scan takes from the first line is replaced by that of a later length line, or is zero. */
  lemma ThreeWordsAgreeExactly(buffer: string)
    requires FrameOf(buffer).Whole? && FirstLineHasThreeWords(buffer)
    ensures var head := buffer[..FrameOf(buffer).head];
            && HeadersBegin(buffer) == LineEnd(head) + 1
            && (ReadAlike(buffer) <==>
                 && !LoneReturn(head, LineEnd(head) + 1)
                 && (LastLength(AfterLine(head), None).Some? || LengthOfLine(head[..LineEnd(head)]) == 0))
  {
    hide ReadAlike;
    hide LastLength;
    hide ScanLength;
    hide FrameOf;
    hide LengthOfLine;
    hide BehindRequestLine;
    hide LoneReturn;
    hide OccursAt;
    hide FirstLineHasThreeWords;
    hide Stoul;
    var f := FrameOf(buffer);
    var head := buffer[..f.head];
    var q := RequestParts(buffer);
    TwoReadersAgreeExactly(buffer);
    ScanFindsLast(head[q + 1..], LengthOfLine(head[..q]), None);
    assert AfterLine(head) == head[q + 1..];
  }

  /** A head without bare line feeds has no lone carriage return in front of its end. */
  lemma NoBareFeedNoLoneReturn(s: string, e: nat, from: nat)
    requires Find(s, BLANK_LINE, 0) == e && NoBareFeed(s[..e + 4])
    ensures from > 1 ==> !LoneReturn(s[..e + 4], from)
  {
    hide Find;
    var head := s[..e + 4];
    forall p: nat | from > 1 ensures !LoneReturnAt(head, from, p) {
      BlankLineAt(s, p - 2);
      assert 2 <= p < e + 2 ==> !OccursAt(s, BLANK_LINE, p - 2);
    }
  }

  /** In particular they agree on every request whose head has no bare line feed, and whose first
      line has three words and is no length line. */
  lemma TwoReadersAgree(buffer: string)
    requires FrameOf(buffer).Whole? && FirstLineHasThreeWords(buffer)
    requires var head := buffer[..FrameOf(buffer).head];
             NoBareFeed(head) && !IsLengthLine(head[..LineEnd(head)])
    ensures ReadAlike(buffer)
  {
    hide ScanLength;
    hide Find;
    hide LineEnd;
    hide FrameOf;
    hide HasThreeWords;
    hide ReadHeaders;
    hide NoBareFeed;
    hide LoneReturn;
    hide ReadAlike;
    var f := FrameOf(buffer);
    var s, head := buffer[..f.size], buffer[..f.head];
    FrameParts(buffer);
    assert s[..f.head] == head;
    ThreeWordsIsNotBlank(head[..LineEnd(head)]);
    NoBareFeedNoLoneReturn(s, f.head - 4, LineEnd(head) + 1);
    ThreeWordsAgreeExactly(buffer);
  }

  // ---------- where they part ----------

  lemma BlankLineBehind(line: string)
    requires '\n' !in line && '\r' !in line
    ensures Find(line + ("\n" + BLANK_LINE), BLANK_LINE, 0) == |line| + 1
  {
    var s := line + ("\n" + BLANK_LINE);
    assert forall i :: 0 <= i < |line| ==> s[i] == line[i];
    forall j | 0 <= j <= |line| + 1 ensures OccursAt(s, BLANK_LINE, j) <==> j == |line| + 1 {
      BlankLineAt(s, j);
    }
    FindIs(s, BLANK_LINE, 0, |line| + 1);
  }

  lemma BlankLineAlone()
    ensures ReadHeaders(BLANK_LINE, map[]) == (map[], "\r\n")
    ensures ScanLength(BLANK_LINE, 0) == Length(0)
  {
    var t := BLANK_LINE;
    assert t == "\r" + "\n" + "\r\n";
    LineEndIs("\r", "\r\n");
  }

  /** Without the carriage returns they disagree: when a bare line feed ends the request line and a
      blank line follows, the frame has no body, but the parser finds one of two bytes in it. */
  lemma BareFeedSplitsReaders(line: string)
    requires '\n' !in line && '\r' !in line && HasThreeWords(line) && !IsLengthLine(line)
    ensures var s := line + ("\n" + BLANK_LINE);
            FrameOf(s) == Whole(|s|, |s|) && ParsedRequest(s).body == "\r\n"
  {
    hide Extract;
    hide ReadHeaders;
    hide ScanLength;
    hide IsLengthLine;
    hide Find;
    hide HasThreeWords;
    var s := line + ("\n" + BLANK_LINE);
    BlankLineBehind(line);
    BlankLineAlone();
    RequestLineEnds(line, BLANK_LINE);
    assert s == line + "\n" + BLANK_LINE;
    LineEndIs(line, BLANK_LINE);
    ThreeWordsIsNotBlank(line);
    ScanFirstLine(s);
    assert s[..|line| + 5] == s;
  }

  /** The parser skips a blank line in front of a request. */
  lemma LeadingBreak(t: string)
    ensures ParsedRequest("\r\n" + t) == ParsedRequest(t)
  {
    var u := "\n" + t;
    assert "\r\n" + t == "\r" + u && ("\r" + u)[1..] == u && u[1..] == t;
    assert SkipSpaces("\r\n" + t) == SkipSpaces(u) == SkipSpaces(t);
  }

  lemma FrameBehindBreak(first: string, headers: Headers, body: string)
    requires '\n' !in first && first != "" && Printable(headers)
    ensures var s := "\r\n" + MessageText(first, headers, body);
            FrameOf(s) == Whole(|s| - |body|, |s| - |body|)
  {
    hide ScanLength;
    hide HeaderLines;
    hide Printable;
    hide SortedKeys;
    hide Find;
    var keys := SortedKeys(headers.Keys);
    var t, lines := MessageText(first, headers, body), HeaderLines(keys, headers);
    HeadEnd(first, keys, headers, body);
    assert t[1] == if |first| > 1 then first[1] else '\r';
    BreakAt(t, 0);
    BlankLineAfter("", t);
    assert "" + ("\r\n" + t) == "\r\n" + t;
    ScanStopsAtBreak(t, 2 + |first| + |lines|);
  }

  lemma ScanStopsAtBreak(t: string, end: nat)
    requires end + 4 <= |t| + 2
    ensures ScanLength(("\r\n" + t)[..end + 4], 0) == Length(0)
  {
    var u := ("\r\n" + t)[..end + 4];
    assert u == "" + ("\r\n" + u[2..]);
    FirstLine("", u[2..]);
  }

  /** They also part when the first line has fewer than three words: a blank line in front of a
      printed request stops the scan, which finds no length, but the parser passes over it and keeps
      the length header of a body that it does not get. */
  lemma BlankFirstLineSplitsReaders(r: HttpRequest)
    requires IsWord(r.verb) && IsWord(r.path) && IsWord(r.version) && Printable(r.headers)
    ensures var s := "\r\n" + RequestText(r);
            var f := FrameOf(s);
            && f == Whole(|s| - |r.body|, |s| - |r.body|)
            && ParsedRequest(s[..f.size]) == r.(body := "")
            && (ReadAlike(s) <==> Agree(0, r.headers))
  {
    hide FrameOf;
    hide ParsedRequest;
    hide Stoul;
    hide IsLengthLine;
    hide MessageText;
    hide IsWord;
    hide Printable;
    var s, bare := "\r\n" + RequestText(r), r.(body := "");
    RequestLineAsLength(r);
    FrameBehindBreak(RequestLine(r), r.headers, r.body);
    MessageWithoutBody(RequestLine(r), r.headers, r.body);
    LeadingBreak(RequestText(bare));
    ParseOfRequestText(bare);
    assert s[|s| - |r.body|..|s| - |r.body|] == "";
  }

  lemma MessageWithoutBody(first: string, headers: Headers, body: string)
    ensures var s := "\r\n" + MessageText(first, headers, body);
            s[..|s| - |body|] == "\r\n" + MessageText(first, headers, "")
  {
    hide MessageText;
    MessageThenRest(first, headers, "", body);
    var t := MessageText(first, headers, "");
    assert "" + body == body;
    assert "\r\n" + (t + body) == ("\r\n" + t) + body;
    assert (("\r\n" + t) + body)[..|"\r\n" + t|] == "\r\n" + t;
  }
}
