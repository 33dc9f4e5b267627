/** The character lexer of the configuration language. */
module ConfigLexer {
  import opened Text

  datatype TokenType = Start | Normal | StartBlock | EndBlock | Comment | StatementEnd | Eof | Error

  datatype LexState = InitialWhitespace | SingleQuote | DoubleQuote | InComment | InWord

  predicate IsGap(c: char) {
    c == ' ' || c == '\t' || c == '\n' || c == '\r'
  }

  predicate IsPunctuation(c: char) {
    c == '{' || c == '}' || c == ';'
  }

  /** A carriage return does not end a bare word. */
  predicate EndsWord(c: char) {
    c == ' ' || c == '\t' || c == '\n' || c == ';' || c == '{' || c == '}'
  }

  /** Does `c` end the lexeme that is being read in `state`? */
  predicate Ends(state: LexState, c: char) {
    match state
    case InitialWhitespace => !IsGap(c)
    case SingleQuote => c == '\''
    case DoubleQuote => c == '"'
    case InComment => c == '\n' || c == '\r'
    case InWord => EndsWord(c)
  }

  function PunctuationType(c: char): TokenType {
    if c == '{' then StartBlock else if c == '}' then EndBlock else StatementEnd
  }

  /** The state entered on the first character of a lexeme. */
  function StateAfter(c: char): LexState {
    if c == '#' then InComment
    else if c == '"' then DoubleQuote
    else if c == '\'' then SingleQuote
    else InWord
  }

  /** The first index from `i` on whose character ends the lexeme, or the length of the text. */
  function ScanEnd(state: LexState, s: string, i: nat): (e: nat)
    requires i <= |s|
    ensures i <= e <= |s|
    ensures forall j :: i <= j < e ==> !Ends(state, s[j])
    ensures e < |s| ==> Ends(state, s[e])
    decreases |s| - i
  {
    if i == |s| || Ends(state, s[i]) then i else ScanEnd(state, s, i + 1)
  }

  lemma ScanEndIs(state: LexState, s: string, i: nat, e: nat)
    requires i <= e <= |s|
    requires forall j :: i <= j < e ==> !Ends(state, s[j])
    requires e == |s| || Ends(state, s[e])
    ensures ScanEnd(state, s, i) == e
  {
    var r := ScanEnd(state, s, i);
    assert e < |s| ==> Ends(state, s[e]);
    assert r < |s| ==> Ends(state, s[r]);
  }

  /** One call of the lexer: the token returned, and how the input was divided up. */
  datatype Lexeme = Lexeme(kind: TokenType, blanks: string, value: string, terminator: string, rest: string)

  ghost predicate Quoted(w: string, q: char) {
    |w| >= 2 && w[0] == q && w[|w| - 1] == q && forall i :: 0 < i < |w| - 1 ==> w[i] != q
  }

  ghost predicate BareWord(w: string) {
    && w != ""
    && !IsGap(w[0]) && !IsPunctuation(w[0]) && StateAfter(w[0]).InWord?
    && forall i :: 0 < i < |w| ==> !EndsWord(w[i])
  }

  /** The texts that can be the value of a `Normal` token. */
  ghost predicate Lexable(w: string) {
    BareWord(w) || Quoted(w, '\'') || Quoted(w, '"')
  }

  /** A lexeme that starts at the first character and is not a punctuation mark. */
  function LexBody(state: LexState, s: string): (l: Lexeme)
    requires s != "" && !state.InitialWhitespace?
    ensures !l.kind.Eof? && !l.kind.Error? ==> |l.rest| < |s|
  {
    var e := ScanEnd(state, s, 1);
    if e == |s| then
      Lexeme(if state.SingleQuote? || state.DoubleQuote? then Error else Eof, "", s, "", "")
    else if state.InComment? then
      Lexeme(Comment, "", s[..e], [s[e]], s[e + 1..])
    else if state.InWord? then
      Lexeme(Normal, "", s[..e], "", s[e..])
    else
      Lexeme(Normal, "", s[..e + 1], "", s[e + 1..])
  }

  /** One call of the lexer on the unread text `s`. Every call that returns a token consumes at
      least one character, although a bare word is pushed back at its delimiter. */
  function Lex(s: string): (l: Lexeme)
    ensures !l.kind.Eof? && !l.kind.Error? ==> |l.rest| < |s|
    ensures l.kind.Eof? || l.kind.Error? ==> l.rest == ""
    ensures !l.kind.Start?
  {
    if s == "" then Lexeme(Eof, "", "", "", "")
    else if IsGap(s[0]) then
      var l := Lex(s[1..]);
      l.(blanks := [s[0]] + l.blanks)
    else if IsPunctuation(s[0]) then
      Lexeme(PunctuationType(s[0]), "", [s[0]], "", s[1..])
    else
      LexBody(StateAfter(s[0]), s)
  }

  function SpellOne(l: Lexeme): string {
    l.blanks + l.value + l.terminator
  }

  lemma SpellOneIs(kind: TokenType, value: string, terminator: string, rest: string)
    ensures SpellOne(Lexeme(kind, "", value, terminator, rest)) == value + terminator
  {
    assert "" + value == value;
  }

  lemma CommentSpells(s: string, e: nat)
    requires e < |s|
    ensures s == s[..e] + [s[e]] + s[e + 1..]
  {
  }

  lemma LexBodySpells(state: LexState, s: string)
    requires s != "" && !state.InitialWhitespace?
    ensures s == SpellOne(LexBody(state, s)) + LexBody(state, s).rest
  {
    hide SpellOne;
    hide ScanEnd;
    var e, l := ScanEnd(state, s, 1), LexBody(state, s);
    SpellOneIs(l.kind, l.value, l.terminator, l.rest);
    if e < |s| {
      CommentSpells(s, e);
      SplitAt(s, e);
      SplitAt(s, e + 1);
    }
    assert l.terminator == "" ==> l.value + l.terminator == l.value;
    assert l.rest == "" ==> l.value + l.rest == l.value;
  }

  lemma GapSpells(g: string, l: Lexeme)
    ensures SpellOne(l.(blanks := g + l.blanks)) + l.rest == g + (SpellOne(l) + l.rest)
  {
    assert g + l.blanks + l.value + l.terminator == g + (l.blanks + l.value + l.terminator);
  }

  /** The parts of a lexeme spell the text that was consumed. */
  lemma {:induction false} LexSpells(s: string)
    ensures s == SpellOne(Lex(s)) + Lex(s).rest
  {
    if s == "" {
    } else if IsGap(s[0]) {
      LexSpells(s[1..]);
      GapSpells([s[0]], Lex(s[1..]));
      assert s == [s[0]] + s[1..];
    } else if !IsPunctuation(s[0]) {
      LexBodySpells(StateAfter(s[0]), s);
    }
  }

  lemma {:induction false} LexGivesLexable(s: string)
    ensures Lex(s).kind.Normal? ==> Lexable(Lex(s).value)
  {
    if s != "" && IsGap(s[0]) {
      LexGivesLexable(s[1..]);
    } else if s != "" && !IsPunctuation(s[0]) {
      var state := StateAfter(s[0]);
      var e := ScanEnd(state, s, 1);
      if e < |s| && Lex(s).kind.Normal? {
        if state.InWord? {
          assert BareWord(s[..e]);
        } else {
          assert Quoted(s[..e + 1], s[0]);
        }
      }
    }
  }

  lemma BodyReadsBack(state: LexState, w: string, rest: string, e: nat)
    requires w != "" && !state.InitialWhitespace? && 1 <= e <= |w| && e < |w + rest|
    requires forall i :: 1 <= i < e ==> !Ends(state, w[i])
    requires Ends(state, (w + rest)[e])
    requires if state.InWord? then e == |w| else !state.InComment? && e == |w| - 1
    ensures LexBody(state, w + rest) == Lexeme(Normal, "", w, "", rest)
  {
    ScanEndIs(state, w + rest, 1, e);
    assert (w + rest)[..|w|] == w && (w + rest)[|w|..] == rest;
  }

  /** The lexer reads a lexable word back when what follows cannot extend it. */
  lemma LexReadsBack(w: string, rest: string)
    requires Lexable(w)
    requires BareWord(w) ==> rest != "" && EndsWord(rest[0])
    ensures Lex(w + rest) == Lexeme(Normal, "", w, "", rest)
  {
    var state := StateAfter(w[0]);
    assert (w + rest)[0] == w[0];
    BodyReadsBack(state, w, rest, if BareWord(w) then |w| else |w| - 1);
  }

  /** Text appended behind a complete token is left for the next call. */
  lemma {:induction false} LexAppend(s: string, t: string)
    requires !Lex(s).kind.Eof? && !Lex(s).kind.Error?
    ensures Lex(s + t) == Lex(s).(rest := Lex(s).rest + t)
  {
    assert s != "";
    assert (s + t)[1..] == s[1..] + t;
    if IsGap(s[0]) {
      LexAppend(s[1..], t);
    } else if !IsPunctuation(s[0]) {
      var state := StateAfter(s[0]);
      var e := ScanEnd(state, s, 1);
      ScanEndIs(state, s + t, 1, e);
      SplitAppend(s, t, e);
      SplitAppend(s, t, e + 1);
    }
  }

  // ---------- the lexer character by character ----------

  /** Blank, tab, line feed and carriage return are skipped in front of a token, and nothing else is. */
  lemma BlanksAreSkipped(c: char, s: string)
    ensures c == ' ' || c == '\t' || c == '\n' || c == '\r' ==>
              Lex([c] + s) == Lex(s).(blanks := [c] + Lex(s).blanks)
    ensures c != ' ' && c != '\t' && c != '\n' && c != '\r' ==> Lex([c] + s).blanks == ""
  {
    assert ([c] + s)[1..] == s;
  }

  lemma PunctuationStandsAlone(c: char, s: string)
    ensures c == '{' ==> Lex([c] + s) == Lexeme(StartBlock, "", "{", "", s)
    ensures c == '}' ==> Lex([c] + s) == Lexeme(EndBlock, "", "}", "", s)
    ensures c == ';' ==> Lex([c] + s) == Lexeme(StatementEnd, "", ";", "", s)
  {
    assert ([c] + s)[1..] == s;
  }

  /** The characters that begin something other than a bare word. */
  const BEFORE_WORDS := {' ', '\t', '\n', '\r', '{', '}', ';', '#', '"', '\''}

  /** The characters that end a bare word. */
  const BEHIND_WORDS := {' ', '\t', '\n', ';', '{', '}'}

  /** A bare word ends at the first blank, tab, line feed or punctuation mark, which is left for the
      next call. Carriage returns, quotes and number signs inside belong to it. */
  lemma BareWordEnds(w: string, c: char, s: string)
    requires w != "" && w[0] !in BEFORE_WORDS && forall i :: 0 < i < |w| ==> w[i] !in BEHIND_WORDS
    ensures c in BEHIND_WORDS ==> Lex(w + ([c] + s)) == Lexeme(Normal, "", w, "", [c] + s)
    ensures Lex(w) == Lexeme(Eof, "", w, "", "")
  {
    var t := w + ([c] + s);
    assert t[0] == w[0] && forall i :: 0 <= i < |w| ==> t[i] == w[i];
    ScanEndIs(InWord, w, 1, |w|);
    if c in BEHIND_WORDS {
      ScanEndIs(InWord, t, 1, |w|);
      assert t[..|w|] == w && t[|w|..] == [c] + s;
    }
  }

  /** A comment runs from a number sign to the first line feed or carriage return. */
  lemma CommentEnds(w: string, c: char, s: string)
    requires '\n' !in w && '\r' !in w
    ensures c == '\n' || c == '\r' ==> Lex("#" + w + ([c] + s)) == Lexeme(Comment, "", "#" + w, [c], s)
    ensures Lex("#" + w) == Lexeme(Eof, "", "#" + w, "", "")
  {
    var u := "#" + w;
    var t := u + ([c] + s);
    assert forall i :: 1 <= i < |u| ==> u[i] == w[i - 1];
    assert t[0] == '#' && forall i :: 0 <= i < |u| ==> t[i] == u[i];
    ScanEndIs(InComment, u, 1, |u|);
    if c == '\n' || c == '\r' {
      ScanEndIs(InComment, t, 1, |u|);
      assert t[..|u|] == u && t[|u|] == c && t[|u| + 1..] == s;
    }
  }

  lemma QuoteStart(q: char, w: string)
    requires (q == '"' || q == '\'') && q !in w
    ensures var u := [q] + w;
            u[0] == q && forall i :: 1 <= i < |u| ==> !Ends(StateAfter(q), u[i])
  {
    assert forall i :: 1 <= i < |[q] + w| ==> ([q] + w)[i] == w[i - 1];
  }

  lemma QuotedBody(q: char, u: string, s: string)
    requires (q == '"' || q == '\'') && u != "" && u[0] == q
    requires forall i :: 1 <= i < |u| ==> !Ends(StateAfter(q), u[i])
    ensures Lex(u + ([q] + s)) == Lexeme(Normal, "", u + [q], "", s)
  {
    var t := u + ([q] + s);
    assert forall i :: 0 <= i < |u| ==> t[i] == u[i];
    ScanEndIs(StateAfter(q), t, 1, |u|);
    assert t[..|u| + 1] == u + [q] && t[|u| + 1..] == s;
  }

  /** A quoted string runs to the next quote of its kind; without one it is an error. */
  lemma QuotedStringEnds(q: char, w: string, s: string)
    requires (q == '"' || q == '\'') && q !in w
    ensures Lex([q] + w + ([q] + s)) == Lexeme(Normal, "", [q] + w + [q], "", s)
    ensures Lex([q] + w).kind.Error?
  {
    hide ScanEnd;
    QuoteStart(q, w);
    QuotedBody(q, [q] + w, s);
    ScanEndIs(StateAfter(q), [q] + w, 1, |[q] + w|);
  }

  datatype Token = Word(text: string) | Semicolon | Open | Close

  function TokenOf(kind: TokenType, value: string): Token {
    match kind
    case StartBlock => Open
    case EndBlock => Close
    case StatementEnd => Semicolon
    case _ => Word(value)
  }

  /** All tokens of a text without its comments; whether the lexer reported an unterminated
      quote; and the value of the last call, which the parser throws away. */
  datatype Scan = Scan(tokens: seq<Token>, failed: bool, dropped: string)

  function Tokens(s: string): (r: Scan)
    decreases |s|
  {
    var l := Lex(s);
    if l.kind.Eof? || l.kind.Error? then Scan([], l.kind.Error?, l.value)
    else if l.kind.Comment? then Tokens(l.rest)
    else Prepend([TokenOf(l.kind, l.value)], Tokens(l.rest))
  }

  function Prepend(ts: seq<Token>, r: Scan): Scan {
    r.(tokens := ts + r.tokens)
  }

  /** Every call the parser makes on a text, the last one included. */
  function Calls(s: string): (ls: seq<Lexeme>)
    ensures |ls| > 0
    decreases |s|
  {
    var l := Lex(s);
    if l.kind.Eof? || l.kind.Error? then [l] else [l] + Calls(l.rest)
  }

  function Spell(ls: seq<Lexeme>): string {
    if ls == [] then "" else SpellOne(ls[0]) + Spell(ls[1..])
  }

  /** Nothing is lost or invented, and a text of n characters needs at most n + 1 calls. */
  lemma {:induction false} LexerConserves(s: string)
    ensures Spell(Calls(s)) == s
    ensures |Calls(s)| <= |s| + 1
    ensures forall i :: 0 <= i < |Calls(s)| - 1 ==> !Calls(s)[i].kind.Eof? && !Calls(s)[i].kind.Error?
    decreases |s|
  {
    var l := Lex(s);
    LexSpells(s);
    if !l.kind.Eof? && !l.kind.Error? {
      LexerConserves(l.rest);
      assert Calls(s)[1..] == Calls(l.rest);
    } else {
      assert Calls(s)[1..] == [];
    }
  }

  /** Every word that reaches the parser is lexable. */
  lemma {:induction false} TokensLexable(s: string)
    ensures forall t :: t in Tokens(s).tokens && t.Word? ==> Lexable(t.text)
    decreases |s|
  {
    var l := Lex(s);
    if !l.kind.Eof? && !l.kind.Error? {
      TokensLexable(l.rest);
      LexGivesLexable(s);
    }
  }
}
