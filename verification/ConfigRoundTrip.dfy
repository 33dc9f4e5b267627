/** Printing and parsing a configuration undo each other; joining configuration texts. */
module ConfigRoundTrip {
  import opened Text
  import opened ConfigLexer
  import opened ConfigTree
  import opened ConfigParser

  lemma SkipGap(g: char, s: string)
    requires IsGap(g)
    ensures Tokens([g] + s) == Tokens(s)
  {
    assert ([g] + s)[1..] == s;
  }

  lemma ReadPunctuation(c: char, s: string)
    requires IsPunctuation(c)
    ensures Tokens([c] + s) == Prepend([TokenOf(PunctuationType(c), [c])], Tokens(s))
  {
    assert ([c] + s)[1..] == s;
  }

  lemma ReadWord(w: string, s: string)
    requires Lexable(w) && s != "" && EndsWord(s[0])
    ensures Tokens(w + s) == Prepend([Word(w)], Tokens(s))
  {
    LexReadsBack(w, s);
  }

  lemma {:induction false} SkipIndent(depth: nat, s: string)
    ensures Tokens(Indent(depth) + s) == Tokens(s)
  {
    if depth == 0 {
      assert Indent(depth) + s == s;
    } else {
      var t := Indent(depth - 1) + s;
      assert Indent(depth) + s == [' '] + ([' '] + t);
      SkipGap(' ', [' '] + t);
      SkipGap(' ', t);
      SkipIndent(depth - 1, s);
    }
  }

  lemma PrependPrepend(a: seq<Token>, b: seq<Token>, r: Scan)
    ensures Prepend(a, Prepend(b, r)) == Prepend(a + b, r)
  {
    assert a + (b + r.tokens) == a + b + r.tokens;
  }

  lemma {:induction false} ReadWords(ws: seq<string>, s: string)
    requires ws != [] && (forall w :: w in ws ==> Lexable(w))
    requires s != "" && EndsWord(s[0])
    ensures Tokens(JoinWords(ws) + s) == Prepend(Words(ws), Tokens(s))
  {
    assert ws[0] in ws;
    if |ws| == 1 {
      ReadWord(ws[0], s);
      assert Words(ws) == [Word(ws[0])];
    } else {
      var t := JoinWords(ws[1..]) + s;
      assert JoinWords(ws) + s == ws[0] + ([' '] + t);
      ReadWord(ws[0], [' '] + t);
      SkipGap(' ', t);
      ReadWords(ws[1..], s);
      PrependPrepend([Word(ws[0])], Words(ws[1..]), Tokens(s));
      assert Words(ws) == [Word(ws[0])] + Words(ws[1..]);
    }
  }

  lemma ReadPunctuationLine(c: char, s: string)
    requires IsPunctuation(c)
    ensures Tokens([c] + ("\n" + s)) == Prepend([TokenOf(PunctuationType(c), [c])], Tokens(s))
  {
    ReadPunctuation(c, ['\n'] + s);
    SkipGap('\n', s);
  }

  lemma LeafTextThen(a: string, b: string, s: string)
    ensures (a + (b + ";\n")) + s == a + (b + ([';'] + ("\n" + s)))
  {
    assert ";\n" + s == [';'] + ("\n" + s);
    assert (b + ";\n") + s == b + (";\n" + s);
  }

  lemma BlockTextThen(a: string, b: string, c: string, d: string, s: string)
    ensures (a + (b + (" {\n" + (c + (d + "}\n"))))) + s
         == a + (b + ([' '] + (['{'] + ("\n" + (c + (d + (['}'] + ("\n" + s))))))))
  {
    assert "}\n" + s == ['}'] + ("\n" + s);
    var x := d + "}\n";
    assert x + s == d + ("}\n" + s);
    var y := c + x;
    assert y + s == c + (x + s);
    var z := " {\n" + y;
    assert z + s == [' '] + (['{'] + ("\n" + (y + s)));
    assert (b + z) + s == b + (z + s);
  }

  lemma ReadLeaf(ws: seq<string>, depth: nat, s: string)
    requires PrintableStatement(Leaf(ws))
    ensures Tokens(StatementText(Leaf(ws), depth) + s) == Prepend(StatementSentence(Leaf(ws)), Tokens(s))
  {
    var words, t := JoinWords(ws), [';'] + ("\n" + s);
    LeafTextThen(Indent(depth), words, s);
    SkipIndent(depth, words + t);
    ReadWords(ws, t);
    ReadPunctuationLine(';', s);
    PrependPrepend(Words(ws), [Semicolon], Tokens(s));
  }

  lemma JoinBlockTokens(ws: seq<string>, body: Config, r: Scan)
    ensures Prepend(Words(ws), Prepend([Open], Prepend(Sentence(body), Prepend([Close], r))))
         == Prepend(StatementSentence(Block(ws, body)), r)
  {
    PrependPrepend(Words(ws), [Open], Prepend(Sentence(body), Prepend([Close], r)));
    PrependPrepend(Words(ws) + [Open], Sentence(body), Prepend([Close], r));
    PrependPrepend(Words(ws) + [Open] + Sentence(body), [Close], r);
  }

  lemma ReadBlockHead(ws: seq<string>, depth: nat, inner: string)
    requires ws != [] && (forall w :: w in ws ==> Lexable(w))
    ensures Tokens(Indent(depth) + (JoinWords(ws) + ([' '] + (['{'] + ("\n" + inner)))))
         == Prepend(Words(ws), Prepend([Open], Tokens(inner)))
  {
    var open := ['{'] + ("\n" + inner);
    SkipIndent(depth, JoinWords(ws) + ([' '] + open));
    ReadWords(ws, [' '] + open);
    SkipGap(' ', open);
    ReadPunctuationLine('{', inner);
  }

  lemma {:induction false} ReadStatement(st: Statement, depth: nat, s: string)
    requires PrintableStatement(st)
    ensures Tokens(StatementText(st, depth) + s) == Prepend(StatementSentence(st), Tokens(s))
    decreases st, 1
  {
    match st
    case Leaf(ws) =>
      ReadLeaf(ws, depth, s);
    case Block(ws, body) =>
      var close := ['}'] + ("\n" + s);
      var inner := ConfigText(body, depth + 1) + (Indent(depth) + close);
      ReadConfig(body, depth + 1, Indent(depth) + close);
      SkipIndent(depth, close);
      ReadPunctuationLine('}', s);
      ReadBlockHead(ws, depth, inner);
      BlockTextThen(Indent(depth), JoinWords(ws), ConfigText(body, depth + 1), Indent(depth), s);
      JoinBlockTokens(ws, body, Tokens(s));
  }

  /** The lexer reads the printed form of a tree as the tree's sentence, at any depth and
      whatever text follows. */
  lemma {:induction false} ReadConfig(c: Config, depth: nat, s: string)
    requires Printable(c)
    ensures Tokens(ConfigText(c, depth) + s) == Prepend(Sentence(c), Tokens(s))
    decreases c, 0
  {
    if c == [] {
      assert ConfigText(c, depth) + s == s;
    } else {
      assert c[0] in c;
      var t := ConfigText(c[1..], depth) + s;
      assert ConfigText(c, depth) + s == StatementText(c[0], depth) + t;
      ReadStatement(c[0], depth, t);
      ReadConfig(c[1..], depth, s);
      PrependPrepend(StatementSentence(c[0]), Sentence(c[1..]), Tokens(s));
    }
  }

  lemma ParsePrinted(c: Config, depth: nat)
    requires Printable(c)
    ensures ParseText(ConfigText(c, depth)) == Some(c)
  {
    ReadConfig(c, depth, "");
    assert ConfigText(c, depth) + "" == ConfigText(c, depth);
    assert Sentence(c) + [] == Sentence(c);
    PrintableIsWellFormed(c);
    ParserIsGrammar(Sentence(c));
  }

  /** What the parser accepts is printable. */
  lemma ParsedIsPrintable(text: string)
    requires ParseText(text).Some?
    ensures Printable(ParseText(text).value)
  {
    var ts := Tokens(text).tokens;
    ParserIsGrammar(ts);
    TokensLexable(text);
    LexableSentenceIsPrintable(ParseText(text).value);
  }

  /** Printing then parsing is the identity exactly on the trees whose statements have a token
      each and whose tokens are bare words or quoted strings. */
  lemma PrintParseIdentity(c: Config, depth: nat)
    ensures ParseText(ConfigText(c, depth)) == Some(c) <==> Printable(c)
  {
    if Printable(c) {
      ParsePrinted(c, depth);
    }
    if ParseText(ConfigText(c, depth)) == Some(c) {
      ParsedIsPrintable(ConfigText(c, depth));
    }
  }

  /** Reprinting an accepted text changes its layout only, and reprinting again changes nothing. */
  lemma NormalForm(text: string, depth: nat)
    requires ParseText(text).Some?
    ensures var printed := ConfigText(ParseText(text).value, depth);
            && ParseText(printed) == ParseText(text)
            && ConfigText(ParseText(printed).value, depth) == printed
  {
    ParsedIsPrintable(text);
    ParsePrinted(ParseText(text).value, depth);
  }

  // ---------- joining two texts ----------

  /** Was the text cut off inside a bare word? That word is dropped at the end of the file. */
  predicate DropsWord(text: string) {
    var d := Tokens(text).dropped;
    d != "" && d[0] != '#'
  }

  /** The tokens of a text, as they come out when a newline follows it. */
  function Flushed(s: string): seq<Token> {
    Tokens(s).tokens + (if DropsWord(s) then [Word(Tokens(s).dropped)] else [])
  }

  lemma FinishBody(state: LexState, s: string, t: string)
    requires s != "" && (state.InComment? || state.InWord?) && LexBody(state, s).kind.Eof?
    ensures LexBody(state, s + ("\n" + t)) ==
            if state.InWord? then Lexeme(Normal, "", s, "", "\n" + t) else Lexeme(Comment, "", s, "\n", t)
  {
    var u := "\n" + t;
    ScanEndIs(state, s + u, 1, |s|);
    SplitAppend(s, u, |s|);
    assert s[|s|..] + u == u && s[..|s|] == s;
    assert (s + u)[|s| + 1..] == t;
  }

  lemma TokensFrom(x: string, l: Lexeme)
    requires x != "" && !IsGap(x[0]) && !IsPunctuation(x[0]) && l == LexBody(StateAfter(x[0]), x)
    ensures l.kind.Comment? ==> Tokens(x) == Tokens(l.rest)
    ensures l.kind.Normal? ==> Tokens(x) == Prepend([Word(l.value)], Tokens(l.rest))
    ensures l.kind.Eof? ==> Tokens(x) == Scan([], false, l.value)
  {
  }

  lemma JoinUnfinished(s: string, t: string)
    requires s != "" && !IsGap(s[0]) && Lex(s).kind.Eof?
    ensures Tokens(s + ("\n" + t)) == Prepend(Flushed(s), Tokens(t))
  {
    var state, x := StateAfter(s[0]), s + ("\n" + t);
    assert x[0] == s[0];
    FinishBody(state, s, t);
    TokensFrom(x, LexBody(state, x));
    TokensFrom(s, LexBody(state, s));
    SkipGap('\n', t);
  }

  lemma {:induction false} JoinTokens(s: string, t: string)
    requires !Tokens(s).failed
    ensures Tokens(s + ("\n" + t)) == Prepend(Flushed(s), Tokens(t))
    decreases |s|
  {
    var u := "\n" + t;
    var l := Lex(s);
    if !l.kind.Eof? {
      LexAppend(s, u);
      JoinTokens(l.rest, t);
      if !l.kind.Comment? {
        PrependPrepend([TokenOf(l.kind, l.value)], Flushed(l.rest), Tokens(t));
        assert [TokenOf(l.kind, l.value)] + Flushed(l.rest) == Flushed(s);
      }
    } else if s == "" {
      SkipGap('\n', t);
      assert s + u == u;
    } else if IsGap(s[0]) {
      assert s == [s[0]] + s[1..] && s + u == [s[0]] + (s[1..] + u);
      SkipGap(s[0], s[1..]);
      SkipGap(s[0], s[1..] + u);
      JoinTokens(s[1..], t);
    } else {
      JoinUnfinished(s, t);
    }
  }

  lemma UnfinishedWord(w: string)
    requires BareWord(w)
    ensures Tokens(w) == Scan([], false, w)
  {
    ScanEndIs(InWord, w, 1, |w|);
    TokensFrom(w, LexBody(InWord, w));
  }

  lemma LastWordTokens()
    ensures Tokens("a; b") == Scan([Word("a"), Semicolon], false, "b")
  {
    hide Tokens;
    UnfinishedWord("b");
    SkipGap(' ', "b");
    assert " b" == [' '] + "b" && "; b" == [';'] + " b" && "a; b" == "a" + "; b";
    ReadPunctuation(';', " b");
    ReadWord("a", "; b");
  }

  /** A text that is accepted although its last word is lost. */
  lemma LastWordIsDropped()
    ensures ParseText("a; b") == Some([Leaf(["a"])]) && DropsWord("a; b")
  {
    hide Tokens;
    LastWordTokens();
    var c := [Leaf(["a"])];
    SentenceOfOne(c[0]);
    assert Words(["a"]) + [Semicolon] == [Word("a"), Semicolon];
    ParserIsGrammar(Sentence(c));
  }

  /** Two accepted texts joined by a newline are read as the first tree followed by the second,
      exactly when the first text was not cut off inside a bare word. */
  lemma Concatenation(s: string, t: string)
    requires ParseText(s).Some? && ParseText(t).Some?
    ensures ParseText(s + ("\n" + t)) == Some(ParseText(s).value + ParseText(t).value)
            <==> !DropsWord(s)
  {
    var c, d := ParseText(s).value, ParseText(t).value;
    JoinTokens(s, t);
    ParserIsGrammar(Tokens(s).tokens);
    ParserIsGrammar(Tokens(t).tokens);
    SentenceConcat(c, d);
    WellFormedConcat(c, d);
    ParserIsGrammar(Sentence(c + d));
    var ts := Tokens(s + ("\n" + t)).tokens;
    assert ts == Flushed(s) + Sentence(d);
    if DropsWord(s) {
      assert |ts| == |Sentence(c + d)| + 1;
      ParserIsGrammar(ts);
    } else {
      assert Flushed(s) == Sentence(c);
    }
  }

  /** Parsing two texts in turn into one configuration object also gives the first tree followed
      by the second, even when the first text was cut off inside a bare word. */
  lemma ParseInTurn(s: string, t: string)
    requires ParseText(s).Some? && ParseText(t).Some?
    ensures ParseInto(ParseText(s).value, t) == Some(ParseText(s).value + ParseText(t).value)
  {
    ParseIntoAppends(ParseText(s).value, t);
  }
}
