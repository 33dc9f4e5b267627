/** Reading a request from its text. */
module RequestReader {
  import opened Text
  import opened Http

  /** `stream >> word`: the word and what is left in the stream. */
  function Extract(s: string): (r: (string, string))
    ensures |r.1| <= |s|
  {
    var t := SkipSpaces(s);
    (t[..WordLength(t)], t[WordLength(t)..])
  }

  /** Leading blanks go, and one trailing carriage return. */
  function HeaderValue(text: string): string {
    var t := TrimBlanks(text);
    if t != "" && t[|t| - 1] == '\r' then t[..|t| - 1] else t
  }

  /** A line without a colon is ignored; a later line replaces an earlier one of the same name. */
  function AddHeader(headers: Headers, line: string): Headers {
    var colon := Find(line, ":", 0);
    if colon == NPOS then headers else headers[line[..colon] := HeaderValue(line[colon + 1..])]
  }

  /** Header lines up to a line that holds a carriage return only; what follows is the body. */
  function ReadHeaders(t: string, headers: Headers): (r: (Headers, string))
    decreases |t|
  {
    if t == "" then (headers, "")
    else if t[..LineEnd(t)] == "\r" then (headers, AfterLine(t))
    else ReadHeaders(AfterLine(t), AddHeader(headers, t[..LineEnd(t)]))
  }

  /** The text behind the three words and the rest of the line on which the third one ends. */
  function BehindRequestLine(s: string): string {
    AfterLine(Extract(Extract(Extract(s).1).1).1)
  }

  function ParsedRequest(s: string): HttpRequest {
    var w1 := Extract(s);
    var w2 := Extract(w1.1);
    var w3 := Extract(w2.1);
    var rest := ReadHeaders(BehindRequestLine(s), map[]);
    HttpRequest(w1.0, w2.0, w3.0, rest.0, rest.1)
  }

  // ---------- what the reader accepts ----------

  ghost predicate AllWhite(s: string) {
    forall i :: 0 <= i < |s| ==> s[i] as int in WHITE_SPACE
  }

  ghost predicate NoneWhite(s: string) {
    forall i :: 0 <= i < |s| ==> s[i] as int !in WHITE_SPACE
  }

  lemma {:induction false} WordEnds(w: string, s: string)
    requires NoneWhite(w) && (s == "" || s[0] as int in WHITE_SPACE)
    ensures WordLength(w + s) == |w|
    decreases |w|
  {
    if w == "" {
      assert w + s == s;
    } else {
      assert (w + s)[0] == w[0] && (w + s)[1..] == w[1..] + s;
      SpaceIsWhite(w[0]);
      WordEnds(w[1..], s);
    }
  }

  /** A word is what stands between white space; the white space behind it is left. */
  lemma WordIsExtracted(white: string, w: string, s: string)
    requires AllWhite(white) && NoneWhite(w) && (s == "" || s[0] as int in WHITE_SPACE)
    requires w == "" ==> s == ""
    ensures Extract(white + (w + s)) == (w, s)
  {
    var t := w + s;
    assert t != "" ==> t[0] == w[0];
    WhiteIsSkipped(white, t);
    WordEnds(w, s);
    assert t[..|w|] == w && t[|w|..] == s;
  }

  lemma {:induction false} BlanksAreTrimmed(blanks: string, s: string)
    requires forall i :: 0 <= i < |blanks| ==> blanks[i] == ' ' || blanks[i] == '\t'
    requires s == "" || (s[0] != ' ' && s[0] != '\t')
    ensures TrimBlanks(blanks + s) == s
  {
    if blanks == "" {
      assert blanks + s == s;
    } else {
      assert (blanks + s)[1..] == blanks[1..] + s;
      BlanksAreTrimmed(blanks[1..], s);
    }
  }

  lemma ColonAt(s: string, j: int)
    ensures OccursAt(s, ":", j) <==> 0 <= j < |s| && s[j] == ':'
  {
  }

  lemma FirstColon(name: string, s: string)
    requires ':' !in name
    ensures Find(name + (":" + s), ":", 0) == |name|
  {
    var t := name + (":" + s);
    ColonAt(t, |name|);
    forall j | 0 <= j < |name| ensures !OccursAt(t, ":", j) {
      ColonAt(t, j);
      assert t[j] == name[j];
    }
    FindIs(t, ":", 0, |name|);
  }

  /** A header line is split at its first colon. Blanks and tabs in front of the value go, and so does
      one carriage return at its end; nothing else does, and the name is kept as it is. A line without
      a colon is ignored. */
  lemma HeaderLineIsStored(headers: Headers, name: string, blanks: string, value: string)
    requires ':' !in name
    requires forall i :: 0 <= i < |blanks| ==> blanks[i] == ' ' || blanks[i] == '\t'
    requires value == "" || (value[0] != ' ' && value[0] != '\t')
    ensures AddHeader(headers, name) == headers
    ensures AddHeader(headers, name + (":" + (blanks + (value + "\r")))) == headers[name := value]
    ensures value == "" || value[|value| - 1] != '\r' ==>
              AddHeader(headers, name + (":" + (blanks + value))) == headers[name := value]
  {
    hide TrimBlanks;
    var a, b := blanks + (value + "\r"), blanks + value;
    var s, t := name + (":" + a), name + (":" + b);
    NoColon(name);
    FirstColon(name, a);
    FirstColon(name, b);
    assert s[..|name|] == name && s[|name| + 1..] == a && t[..|name|] == name && t[|name| + 1..] == b;
    BlanksAreTrimmed(blanks, value + "\r");
    BlanksAreTrimmed(blanks, value);
    assert (value + "\r")[..|value|] == value;
  }

  lemma NoColon(name: string)
    requires ':' !in name
    ensures Find(name, ":", 0) == NPOS
  {
    ColonAt(name, Find(name, ":", 0));
  }

  /** The part of `std::istringstream` that the reader uses. */
  class StringStream {
    var rest: string

    constructor (text: string)
      ensures rest == text
    {
      rest := text;
    }

    method ReadWord() returns (word: string)
      modifies this
      ensures (word, rest) == Extract(old(rest))
    {
      var t := SkipSpaces(rest);
      word, rest := t[..WordLength(t)], t[WordLength(t)..];
    }

    /** Fails, and reads nothing, when the stream is exhausted. */
    method GetLine() returns (ok: bool, line: string)
      modifies this
      ensures ok == (old(rest) != "") && rest == AfterLine(old(rest))
      ensures line == old(rest)[..LineEnd(old(rest))]
    {
      ok, line := rest != "", rest[..LineEnd(rest)];
      rest := AfterLine(rest);
    }
  }

  /** Erases the blanks in front of a header value. */
  method EraseBlanks(text: string) returns (value: string)
    ensures value == TrimBlanks(text)
  {
    value := text;
    while value != "" && (value[0] == ' ' || value[0] == '\t')
      invariant TrimBlanks(value) == TrimBlanks(text)
      decreases |value|
    {
      value := value[1..];
    }
  }

  method StoreHeader(headers: Headers, line: string) returns (result: Headers)
    ensures result == AddHeader(headers, line)
  {
    result := headers;
    var colon := Find(line, ":", 0);
    if colon != NPOS {
      var name := line[..colon];
      var value := EraseBlanks(line[colon + 1..]);
      if value != "" && value[|value| - 1] == '\r' {
        value := value[..|value| - 1];
      }
      result := result[name := value];
    }
  }

  method ParseRequest(text: string) returns (request: HttpRequest)
    ensures request == ParsedRequest(text)
  {
    var stream := new StringStream(text);
    var verb := stream.ReadWord();
    var path := stream.ReadWord();
    var version := stream.ReadWord();
    var ok, line := stream.GetLine();
    assert stream.rest == BehindRequestLine(text);
    var headers: Headers := map[];
    ok, line := stream.GetLine();
    ghost var unread := BehindRequestLine(text);
    while ok && line != "\r"
      invariant ok == (unread != "") && line == unread[..LineEnd(unread)] && stream.rest == AfterLine(unread)
      invariant ReadHeaders(unread, headers) == ReadHeaders(BehindRequestLine(text), map[])
      decreases |unread|
    {
      headers := StoreHeader(headers, line);
      unread := stream.rest;
      ok, line := stream.GetLine();
    }
    request := HttpRequest(verb, path, version, headers, stream.rest);
  }
}
