/** Cutting a buffer into requests. */
module Framing {
  import opened Text
  import opened Numbers
  import opened RequestReader

  const MAX_REQUEST_SIZE := 8192
  const MAX_CONTENT_LENGTH := 1024 * 1024
  const BLANK_LINE := "\r\n\r\n"
  const LENGTH_FIELD := "Content-Length:"

  /** The length announced by a head, a length over the limit, or an exception from `stoul`. */
  datatype Announced = Length(value: nat) | OverLimit | Unreadable

  predicate IsLengthLine(line: string) {
    |LENGTH_FIELD| <= |line| && line[..|LENGTH_FIELD|] == LENGTH_FIELD
  }

  function LengthReading(line: string): Reading
    requires IsLengthLine(line)
  {
    Stoul(TrimBlanks(line[|LENGTH_FIELD|..]))
  }

  /** Looks through the lines up to one that holds a carriage return only. The last length wins;
      the first unreadable or excessive one ends the search. */
  function ScanLength(t: string, found: nat): Announced
    decreases |t|
  {
    if t == "" || t[..LineEnd(t)] == "\r" then Length(found)
    else if !IsLengthLine(t[..LineEnd(t)]) then ScanLength(AfterLine(t), found)
    else
      var r := LengthReading(t[..LineEnd(t)]);
      if !r.Number? then Unreadable
      else if r.value > MAX_CONTENT_LENGTH then OverLimit
      else ScanLength(AfterLine(t), r.value)
  }

  datatype Frame = Incomplete | TooLong | Throws | Whole(head: nat, size: nat)

  /** Is there a complete request at the front of the buffer, and how long is it? */
  function FrameOf(buffer: string): (f: Frame)
    ensures f.Whole? ==> 4 <= f.head <= f.size <= |buffer|
  {
    var end := Find(buffer, BLANK_LINE, 0);
    if end == NPOS then Incomplete
    else
      match ScanLength(buffer[..end + 4], 0)
      case OverLimit => TooLong
      case Unreadable => Throws
      case Length(n) => if |buffer| < end + 4 + n then Incomplete else Whole(end + 4, end + 4 + n)
  }

  /** More bytes do not change a decision that has been taken. */
  lemma FrameStable(a: string, b: string)
    requires !FrameOf(a).Incomplete?
    ensures FrameOf(a + b) == FrameOf(a)
  {
    hide ScanLength;
    FindStable(a, b, BLANK_LINE, 0);
    var end := Find(a, BLANK_LINE, 0);
    assert (a + b)[..end + 4] == a[..end + 4];
  }

  lemma {:induction false} ScanLengthBound(t: string, found: nat)
    requires found <= MAX_CONTENT_LENGTH
    ensures ScanLength(t, found).Length? ==> ScanLength(t, found).value <= MAX_CONTENT_LENGTH
    decreases |t|
  {
    if t != "" && t[..LineEnd(t)] != "\r" {
      if !IsLengthLine(t[..LineEnd(t)]) {
        ScanLengthBound(AfterLine(t), found);
      } else if LengthReading(t[..LineEnd(t)]).Number? && LengthReading(t[..LineEnd(t)]).value <= MAX_CONTENT_LENGTH {
        ScanLengthBound(AfterLine(t), LengthReading(t[..LineEnd(t)]).value);
      }
    }
  }

  /** The size computed for a request, complete or not, is far from the range of `size_t`. */
  lemma SizeFits(buffer: string, end: nat, n: nat)
    requires |buffer| <= MAX_REQUEST_SIZE && end == Find(buffer, BLANK_LINE, 0)
    requires ScanLength(buffer[..end + 4], 0) == Length(n)
    ensures end + 4 + n <= MAX_REQUEST_SIZE + MAX_CONTENT_LENGTH < ULONG_RANGE
  {
    hide ScanLength;
    var head := buffer[..end + 4];
    ScanLengthBound(head, 0);
  }

  /** The search for the length, as the session runs it on the head of a request. */
  method ContentLength(head: string) returns (r: Announced)
    ensures r == ScanLength(head, 0)
  {
    var stream := new StringStream(head);
    var length: nat := 0;
    ghost var unread := head;
    var ok, line := stream.GetLine();
    while ok && line != "\r"
      invariant ok == (unread != "") && line == unread[..LineEnd(unread)] && stream.rest == AfterLine(unread)
      invariant ScanLength(unread, length) == ScanLength(head, 0)
      decreases |unread|
    {
      if IsLengthLine(line) {
        var value := EraseBlanks(line[|LENGTH_FIELD|..]);
        var reading := Stoul(value);
        if !reading.Number? {
          return Unreadable;
        }
        length := reading.value;
        if length > MAX_CONTENT_LENGTH {
          return OverLimit;
        }
      }
      unread := stream.rest;
      ok, line := stream.GetLine();
    }
    r := Length(length);
  }
}
