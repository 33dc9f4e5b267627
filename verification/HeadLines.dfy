/** How the readers treat a message head that was printed line by line. */
module HeadLines {
  import opened Text
  import opened Numbers
  import opened Ordered
  import opened Http
  import opened RequestReader
  import opened Framing

  const LENGTH_NAME := "Content-Length"

  /** Names hold no colon or line feed; values hold no line feed and do not start with a blank. */
  ghost predicate Printable(headers: Headers) {
    forall k :: k in headers ==> PrintableName(k) && PrintableValue(headers[k])
  }

  ghost predicate PrintableName(name: string) {
    ':' !in name && '\n' !in name
  }

  ghost predicate PrintableValue(value: string) {
    '\n' !in value && (value == "" || !IsBlank(value[0]))
  }

  lemma LineOfHeader(k: string, v: string)
    requires PrintableName(k) && PrintableValue(v)
    ensures var line := HeaderLine(k, v) + "\r";
            && '\n' !in line && |line| > 2
            && line[..|k|] == k && line[|k|] == ':' && line[|k| + 1..] == " " + (v + "\r")
  {
  }

  lemma BreakAt(s: string, j: int)
    ensures OccursAt(s, "\r\n", j) <==> 0 <= j && j + 2 <= |s| && s[j] == '\r' && s[j + 1] == '\n'
  {
  }

  lemma BlankLineAt(s: string, j: int)
    ensures OccursAt(s, BLANK_LINE, j) <==>
            0 <= j && j + 4 <= |s| && s[j] == '\r' && s[j + 1] == '\n' && s[j + 2] == '\r' && s[j + 3] == '\n'
  {
  }

  lemma ColonOfHeader(k: string, v: string)
    requires PrintableName(k) && PrintableValue(v)
    ensures Find(HeaderLine(k, v) + "\r", ":", 0) == |k|
  {
    LineOfHeader(k, v);
    var line := HeaderLine(k, v) + "\r";
    ColonAt(line, |k|);
    forall j | 0 <= j < |k| ensures !OccursAt(line, ":", j) {
      assert line[j] == line[..|k|][j] == k[j];
      ColonAt(line, j);
    }
    FindIs(line, ":", 0, |k|);
  }

  lemma TrimOfValue(v: string)
    requires PrintableValue(v)
    ensures TrimBlanks(" " + (v + "\r")) == v + "\r" && HeaderValue(" " + (v + "\r")) == v
  {
    var t := v + "\r";
    assert (" " + t)[1..] == t;
    assert t[0] == if v == "" then '\r' else v[0];
    assert TrimBlanks(t) == t;
    assert t[|t| - 1] == '\r' && t[..|t| - 1] == v;
  }

  /** A printed header line is read as that header. */
  lemma AddPrintedHeader(headers: Headers, k: string, v: string)
    requires PrintableName(k) && PrintableValue(v)
    ensures AddHeader(headers, HeaderLine(k, v) + "\r") == headers[k := v]
  {
    LineOfHeader(k, v);
    ColonOfHeader(k, v);
    TrimOfValue(v);
  }

  /** A length line is a line whose first colon stands behind the name of the length. */
  lemma ColonOfLengthLine(line: string)
    ensures IsLengthLine(line) <==>
            Find(line, ":", 0) == |LENGTH_NAME| && line[..|LENGTH_NAME|] == LENGTH_NAME
  {
    assert LENGTH_FIELD == LENGTH_NAME + ":";
    ColonAt(line, 14);
    if IsLengthLine(line) {
      assert forall i :: 0 <= i < 15 ==> line[i] == line[..15][i] == LENGTH_FIELD[i];
      forall j | 0 <= j < 14 ensures !OccursAt(line, ":", j) {
        ColonAt(line, j);
        assert LENGTH_FIELD[j] == LENGTH_NAME[j] != ':';
      }
      FindIs(line, ":", 0, 14);
      assert line[..14] == line[..15][..14];
    }
    if Find(line, ":", 0) == 14 && line[..14] == LENGTH_NAME {
      assert line[..15] == line[..14] + [line[14]];
    }
  }

  lemma ReadingOfHeader(k: string, v: string)
    requires PrintableName(k) && PrintableValue(v) && k == LENGTH_NAME && IsLengthLine(HeaderLine(k, v) + "\r")
    ensures LengthReading(HeaderLine(k, v) + "\r") == Stoul(v)
  {
    hide Stoul;
    hide TrimBlanks;
    LineOfHeader(k, v);
    TrimOfValue(v);
    StoulIgnoresReturn(v);
  }

  /** The framing scan takes a printed header line for a length exactly when that is its name. */
  lemma LengthLineOfHeader(k: string, v: string)
    requires PrintableName(k) && PrintableValue(v)
    ensures var line := HeaderLine(k, v) + "\r";
            && (IsLengthLine(line) <==> k == LENGTH_NAME)
            && (IsLengthLine(line) ==> LengthReading(line) == Stoul(v))
  {
    hide Stoul;
    hide LengthReading;
    hide IsLengthLine;
    hide HeaderLine;
    hide Find;
    LineOfHeader(k, v);
    ColonOfHeader(k, v);
    ColonOfLengthLine(HeaderLine(k, v) + "\r");
    if k == LENGTH_NAME {
      ReadingOfHeader(k, v);
    }
  }

  /** One line and what follows it. */
  lemma FirstLine(line: string, rest: string)
    requires '\n' !in line
    ensures var t := line + ("\r\n" + rest);
            t[..LineEnd(t)] == line + "\r" && AfterLine(t) == rest && t != ""
  {
    var t := line + ("\r\n" + rest);
    assert t == (line + "\r") + "\n" + rest;
    LineEndIs(line + "\r", rest);
  }

  function Overlay(acc: Headers, keys: seq<string>, headers: Headers): Headers
    requires forall k :: k in keys ==> k in headers
    decreases |keys|
  {
    if keys == [] then acc else Overlay(acc[keys[0] := headers[keys[0]]], keys[1..], headers)
  }

  lemma {:induction false} OverlayIs(acc: Headers, keys: seq<string>, headers: Headers)
    requires forall k :: k in keys ==> k in headers
    ensures forall k :: k in Overlay(acc, keys, headers) <==> k in acc || k in keys
    ensures forall k :: k in Overlay(acc, keys, headers) ==>
              Overlay(acc, keys, headers)[k] == if k in keys then headers[k] else acc[k]
    decreases |keys|
  {
    if keys != [] {
      OverlayIs(acc[keys[0] := headers[keys[0]]], keys[1..], headers);
      assert keys == [keys[0]] + keys[1..];
    }
  }

  lemma NextHeaderLine(keys: seq<string>, headers: Headers, rest: string)
    requires keys != [] && forall k :: k in keys ==> k in headers
    ensures HeaderLines(keys, headers) + rest
         == HeaderLine(keys[0], headers[keys[0]]) + ("\r\n" + (HeaderLines(keys[1..], headers) + rest))
  {
    var a, b := HeaderLine(keys[0], headers[keys[0]]), HeaderLines(keys[1..], headers);
    assert "\r\n" + b + rest == "\r\n" + (b + rest);
    assert (a + ("\r\n" + b)) + rest == a + ("\r\n" + b + rest);
  }

  lemma {:induction false} ReadPrintedLines(keys: seq<string>, headers: Headers, acc: Headers, body: string)
    requires Printable(headers) && forall k :: k in keys ==> k in headers
    ensures ReadHeaders(HeaderLines(keys, headers) + ("\r\n" + body), acc) == (Overlay(acc, keys, headers), body)
    decreases |keys|
  {
    if keys == [] {
      FirstLine("", body);
      assert "" + ("\r\n" + body) == "\r\n" + body;
    } else {
      var k, v := keys[0], headers[keys[0]];
      NextHeaderLine(keys, headers, "\r\n" + body);
      LineOfHeader(k, v);
      FirstLine(HeaderLine(k, v), HeaderLines(keys[1..], headers) + ("\r\n" + body));
      AddPrintedHeader(acc, k, v);
      ReadPrintedLines(keys[1..], headers, acc[k := v], body);
    }
  }

  /** The header map is read back whatever the order of its lines. */
  lemma ReadPrintedHeaders(headers: Headers, body: string)
    requires Printable(headers)
    ensures ReadHeaders(HeaderLines(SortedKeys(headers.Keys), headers) + ("\r\n" + body), map[]) == (headers, body)
  {
    hide ReadHeaders;
    hide HeaderLines;
    hide LineEnd;
    hide AddHeader;
    hide SortedKeys;
    hide Printable;
    hide Overlay;
    var keys := SortedKeys(headers.Keys);
    ReadPrintedLines(keys, headers, map[], body);
    OverlayIs(map[], keys, headers);
    assert forall k :: k in keys <==> k in headers;
    assert Overlay(map[], keys, headers) == headers;
  }

  /** What the value of a length header announces. */
  function Announce(value: string): Announced {
    var r := Stoul(value);
    if !r.Number? then Unreadable else if r.value > 1048576 then OverLimit else Length(r.value)
  }

  lemma ScanPrintedLine(k: string, v: string, rest: string, found: nat)
    requires PrintableName(k) && PrintableValue(v)
    ensures ScanLength(HeaderLine(k, v) + ("\r\n" + rest), found) ==
            if k != "Content-Length" then ScanLength(rest, found)
            else if Announce(v).Length? then ScanLength(rest, Announce(v).value) else Announce(v)
  {
    hide Stoul;
    hide IsLengthLine;
    hide LengthReading;
    hide LineEnd;
    hide AfterLine;
    hide HeaderLine;
    LineOfHeader(k, v);
    FirstLine(HeaderLine(k, v), rest);
    LengthLineOfHeader(k, v);
  }

  /** The scan of a printed head comes to what the length header announces. */
  lemma {:induction false} ScanPrintedLines(keys: seq<string>, headers: Headers, found: nat)
    requires Printable(headers) && forall k :: k in keys ==> k in headers
    requires Sorted(keys)
    ensures ScanLength(HeaderLines(keys, headers) + "\r\n", found) ==
            if "Content-Length" in keys then Announce(headers["Content-Length"]) else Length(found)
    decreases |keys|
  {
    hide Announce;
    hide LineEnd;
    hide HeaderLine;
    if keys == [] {
      FirstLine("", "");
      assert "" + ("\r\n" + "") == "" + "\r\n";
    } else {
      var k, v := keys[0], headers[keys[0]];
      NextHeaderLine(keys, headers, "\r\n");
      ScanPrintedLine(k, v, HeaderLines(keys[1..], headers) + "\r\n", found);
      assert keys == [k] + keys[1..];
      var next := if k == "Content-Length" && Announce(v).Length? then Announce(v).value else found;
      ScanPrintedLines(keys[1..], headers, next);
    }
  }

  // ---------- where the head ends ----------

  lemma NoBlankLineYet(line: string, t: string)
    requires '\n' !in line && !OccursAt(t, "\r\n", 0)
    ensures forall j :: 0 <= j < |line| + 2 ==> !OccursAt(line + ("\r\n" + t), BLANK_LINE, j)
  {
    var s := line + ("\r\n" + t);
    assert forall i :: 0 <= i < |line| ==> s[i] == line[i] != '\n';
    assert s[|line| + 1] == '\n' && forall i :: |line| + 2 <= i < |s| ==> s[i] == t[i - |line| - 2];
    BreakAt(t, 0);
    forall j | 0 <= j < |line| + 2 ensures !OccursAt(s, BLANK_LINE, j) {
      BlankLineAt(s, j);
    }
  }

  lemma ShiftedBlankLine(line: string, t: string, j: nat)
    ensures OccursAt(line + ("\r\n" + t), BLANK_LINE, |line| + 2 + j) <==> OccursAt(t, BLANK_LINE, j)
  {
    var s, m := line + ("\r\n" + t), |line| + 2;
    BlankLineAt(s, m + j);
    BlankLineAt(t, j);
    if j + 4 <= |t| {
      assert s[m + j] == t[j] && s[m + j + 1] == t[j + 1] && s[m + j + 2] == t[j + 2] && s[m + j + 3] == t[j + 3];
    }
  }

  lemma BlankLineAfter(line: string, t: string)
    requires '\n' !in line && !OccursAt(t, "\r\n", 0)
    requires Find(t, BLANK_LINE, 0) != NPOS
    ensures Find(line + ("\r\n" + t), BLANK_LINE, 0) == |line| + 2 + Find(t, BLANK_LINE, 0)
  {
    hide *;
    var s, m, k := line + ("\r\n" + t), |line| + 2, Find(t, BLANK_LINE, 0);
    NoBlankLineYet(line, t);
    ShiftedBlankLine(line, t, k);
    forall j | m <= j < m + k ensures !OccursAt(s, BLANK_LINE, j) {
      ShiftedBlankLine(line, t, j - m);
      assert !OccursAt(t, BLANK_LINE, j - m);
    }
    FindIs(s, BLANK_LINE, 0, m + k);
  }

  lemma BlankLineNext(line: string, body: string)
    requires '\n' !in line
    ensures Find(line + ("\r\n" + ("\r\n" + body)), BLANK_LINE, 0) == |line|
  {
    var s := line + ("\r\n" + ("\r\n" + body));
    assert forall i :: 0 <= i < |line| ==> s[i] == line[i] != '\n';
    forall j | 0 <= j <= |line| ensures OccursAt(s, BLANK_LINE, j) <==> j == |line| {
      BlankLineAt(s, j);
    }
    FindIs(s, BLANK_LINE, 0, |line|);
  }

  /** The head of a printed message ends at its own blank line. */
  lemma {:induction false} HeadEnd(first: string, keys: seq<string>, headers: Headers, body: string)
    requires '\n' !in first && Printable(headers) && forall k :: k in keys ==> k in headers
    ensures Find(first + ("\r\n" + (HeaderLines(keys, headers) + ("\r\n" + body))), BLANK_LINE, 0)
         == |first| + |HeaderLines(keys, headers)|
    decreases |keys|
  {
    if keys == [] {
      BlankLineNext(first, body);
      assert HeaderLines(keys, headers) + ("\r\n" + body) == "\r\n" + body;
    } else {
      var k, v := keys[0], headers[keys[0]];
      NextHeaderLine(keys, headers, "\r\n" + body);
      LineOfHeader(k, v);
      HeadEnd(HeaderLine(k, v), keys[1..], headers, body);
      var t := HeaderLine(k, v) + ("\r\n" + (HeaderLines(keys[1..], headers) + ("\r\n" + body)));
      assert t[1] == (HeaderLine(k, v) + "\r")[1] != '\n';
      BreakAt(t, 0);
      BlankLineAfter(first, t);
    }
  }
}
