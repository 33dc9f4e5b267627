/** Character classes and the string operations of the C++ library that the server uses.
    A `char` stands for one byte, and `-1` stands for `std::string::npos`, so that `npos + 1`
    is `0` here as it is for the unsigned type of the original. */
module Text {

  const NPOS := -1

  datatype Option<+T> = None | Some(value: T)

  /** `isspace` in the C locale: blank, tab, line feed, vertical tab, form feed, carriage return. */
  predicate IsSpace(c: char) {
    c == ' ' || '\t' <= c <= '\r'
  }

  predicate IsBlank(c: char) {
    c == ' ' || c == '\t'
  }

  ghost predicate OccursAt(s: string, pattern: string, k: int) {
    0 <= k && k + |pattern| <= |s| && s[k..k + |pattern|] == pattern
  }

  /** `s.find(pattern, from)`: the first occurrence at or after `from`. */
  function Find(s: string, pattern: string, from: nat): (k: int)
    ensures k == NPOS || (from <= k && OccursAt(s, pattern, k))
    ensures forall j {:trigger OccursAt(s, pattern, j)} ::
              from <= j && (k == NPOS || j < k) ==> !OccursAt(s, pattern, j)
    decreases |s| - from
  {
    if from + |pattern| > |s| then NPOS
    else if s[from..from + |pattern|] == pattern then from
    else Find(s, pattern, from + 1)
  }

  /** The first occurrence is the only index that occurs with none before it. */
  lemma FindIs(s: string, pattern: string, from: nat, k: nat)
    requires from <= k && OccursAt(s, pattern, k)
    requires forall j :: from <= j < k ==> !OccursAt(s, pattern, j)
    ensures Find(s, pattern, from) == k
  {
    var r := Find(s, pattern, from);
    assert OccursAt(s, pattern, k);
    if r != NPOS {
      assert OccursAt(s, pattern, r);
    }
  }

  /** An occurrence that has been found does not move when text is appended. */
  lemma FindStable(s: string, t: string, pattern: string, from: nat)
    requires Find(s, pattern, from) != NPOS
    ensures Find(s + t, pattern, from) == Find(s, pattern, from)
  {
    var k := Find(s, pattern, from);
    assert (s + t)[k..k + |pattern|] == s[k..k + |pattern|];
    forall j | from <= j < k
      ensures !OccursAt(s + t, pattern, j)
    {
      assert !OccursAt(s, pattern, j);
      assert (s + t)[j..j + |pattern|] == s[j..j + |pattern|];
    }
    FindIs(s + t, pattern, from, k);
  }

  lemma SplitAt(s: string, n: nat)
    requires n <= |s|
    ensures s == s[..n] + s[n..]
  {
  }

  lemma SplitAppend(s: string, t: string, n: nat)
    requires n <= |s|
    ensures (s + t)[..n] == s[..n] && (s + t)[n..] == s[n..] + t
  {
  }

  /** Drops the longest prefix of blanks and tabs. */
  function TrimBlanks(s: string): (r: string)
    ensures |r| <= |s|
    ensures r == "" || !IsBlank(r[0])
  {
    if s != "" && IsBlank(s[0]) then TrimBlanks(s[1..]) else s
  }

  /** Drops the longest prefix of white space. */
  function SkipSpaces(s: string): (r: string)
    ensures |r| <= |s|
    ensures r == "" || !IsSpace(r[0])
  {
    if s != "" && IsSpace(s[0]) then SkipSpaces(s[1..]) else s
  }

  lemma {:induction false} SkipSpacesAppend(s: string, t: string)
    ensures SkipSpaces(s + t) == if SkipSpaces(s) == "" then SkipSpaces(t) else SkipSpaces(s) + t
  {
    if s == "" {
      assert s + t == t;
    } else if IsSpace(s[0]) {
      assert (s + t)[1..] == s[1..] + t;
      SkipSpacesAppend(s[1..], t);
    }
  }

  /** The characters of `isspace`, as numbers: tab, line feed, vertical tab, form feed, carriage return
      and blank. */
  const WHITE_SPACE: set<int> := {9, 10, 11, 12, 13, 32}

  lemma SpaceIsWhite(c: char)
    ensures IsSpace(c) <==> c as int in WHITE_SPACE
  {
  }

  lemma {:induction false} WhiteIsSkipped(s: string, t: string)
    requires forall i :: 0 <= i < |s| ==> s[i] as int in WHITE_SPACE
    requires t == "" || t[0] as int !in WHITE_SPACE
    ensures SkipSpaces(s + t) == t
  {
    if s == "" {
      assert s + t == t;
    } else {
      assert (s + t)[1..] == s[1..] + t;
      WhiteIsSkipped(s[1..], t);
    }
  }

  /** Length of the longest prefix without white space: what `operator>>` extracts. */
  function WordLength(s: string): (n: nat)
    ensures n <= |s|
    ensures forall i :: 0 <= i < n ==> !IsSpace(s[i])
    ensures n < |s| ==> IsSpace(s[n])
  {
    if s == "" || IsSpace(s[0]) then 0 else 1 + WordLength(s[1..])
  }

  /** Index of the first line feed, or the length when there is none: where `getline` stops. */
  function LineEnd(s: string): (n: nat)
    ensures n <= |s|
    ensures '\n' !in s[..n]
    ensures n < |s| ==> s[n] == '\n'
  {
    if s == "" || s[0] == '\n' then 0 else 1 + LineEnd(s[1..])
  }

  /** What is left after `getline`: the line feed is consumed and dropped. */
  function AfterLine(s: string): (r: string)
    ensures s != "" ==> |r| < |s|
  {
    if LineEnd(s) < |s| then s[LineEnd(s) + 1..] else ""
  }

  lemma LineEndIs(line: string, rest: string)
    requires '\n' !in line
    ensures LineEnd(line + "\n" + rest) == |line|
    ensures (line + "\n" + rest)[..|line|] == line
    ensures AfterLine(line + "\n" + rest) == rest
  {
    var s := line + "\n" + rest;
    var n := LineEnd(s);
    assert forall i :: 0 <= i < |line| ==> s[i] == line[i];
    assert s[|line|] == '\n';
    assert forall i :: 0 <= i < n ==> s[i] == s[..n][i] != '\n';
    assert s[..|line|] == line;
    assert s[|line| + 1..] == rest;
  }
}
