/** The stack parser as a machine on values, and its equivalence with the grammar. */
module ConfigParser {
  import opened Text
  import opened ConfigLexer
  import opened ConfigTree

  /** A block on the parser's stack: its finished statements and the tokens of its last,
      unfinished one. */
  datatype Frame = Frame(done: Config, open: seq<string>)

  /** `below` is the stack under its top, the root first. */
  datatype Machine = Machine(below: seq<Frame>, top: Frame, last: TokenType)

  function Initial(c: Config): Machine {
    Machine([], Frame(c, []), Start)
  }

  predicate MayClose(last: TokenType) {
    last.StatementEnd? || last.EndBlock? || last.StartBlock?
  }

  predicate MayEnd(last: TokenType) {
    last.StatementEnd? || last.EndBlock? || last.Start?
  }

  function Pop(m: Machine): (m': Machine)
    requires m.below != []
  {
    var n := |m.below| - 1;
    var parent := m.below[n];
    Machine(m.below[..n], Frame(parent.done + [Block(parent.open, m.top.done)], []), EndBlock)
  }

  /** The parser's reaction to one token other than a comment: `None` is a bad transition. */
  function Feed(m: Machine, t: Token): (r: Option<Machine>) {
    match t
    case Word(w) =>
      Some(Machine(m.below, Frame(m.top.done, if m.last.Normal? then m.top.open + [w] else [w]), Normal))
    case Semicolon =>
      if !m.last.Normal? then None
      else Some(Machine(m.below, Frame(m.top.done + [Leaf(m.top.open)], []), StatementEnd))
    case Open =>
      if !m.last.Normal? then None else Some(Machine(m.below + [m.top], Frame([], []), StartBlock))
    case Close =>
      if !MayClose(m.last) || m.below == [] then None else Some(Pop(m))
  }

  function FeedAll(m: Machine, ts: seq<Token>): (r: Option<Machine>)
    decreases |ts|
  {
    if ts == [] then Some(m)
    else
      match Feed(m, ts[0])
      case None => None
      case Some(m') => FeedAll(m', ts[1..])
  }

  /** The machine in which the parser stops: behind all tokens, or in front of the first one that is a
      bad transition. */
  function FeedWhile(m: Machine, ts: seq<Token>): Machine
    decreases |ts|
  {
    if ts == [] then m
    else
      match Feed(m, ts[0])
      case None => m
      case Some(m') => FeedWhile(m', ts[1..])
  }

  /** The finished statements of the root block. */
  function RootOf(m: Machine): Config {
    if m.below == [] then m.top.done else m.below[0].done
  }

  /** What the object holds when the parser stops, whether it has accepted the text or not. */
  function Salvaged(c: Config, text: string): Config {
    RootOf(FeedWhile(Initial(c), Tokens(text).tokens))
  }

  /** The decision at the end of the file. */
  predicate Accepting(m: Machine) {
    MayEnd(m.last) && m.below == []
  }

  function ParseTokens(c: Config, ts: seq<Token>): Option<Config> {
    match FeedAll(Initial(c), ts)
    case None => None
    case Some(m) => if Accepting(m) then Some(m.top.done) else None
  }

  /** Parsing a text into a configuration that may already hold statements. */
  function ParseInto(c: Config, text: string): Option<Config> {
    var scan := Tokens(text);
    if scan.failed then None else ParseTokens(c, scan.tokens)
  }

  function ParseText(text: string): Option<Config> {
    ParseInto([], text)
  }

  // ---------- soundness: what has been consumed ----------

  /** Every block under the top has an open statement, and the top has one exactly when the last
      token was a word. */
  ghost predicate Shaped(m: Machine) {
    && (forall d :: 0 <= d < |m.below| ==> m.below[d].open != [])
    && (m.top.open != [] <==> m.last.Normal?)
    && (m.last.Normal? || m.last.StatementEnd? || m.last.StartBlock? || m.last.EndBlock? || m.last.Start?)
    && (m.last.Start? ==> m.below == [])
  }

  ghost predicate MachineOk(m: Machine) {
    && Shaped(m)
    && (forall d :: 0 <= d < |m.below| ==> WellFormed(m.below[d].done))
    && WellFormed(m.top.done)
  }

  lemma FeedKeepsShape(m: Machine, t: Token)
    requires Shaped(m)
    ensures Feed(m, t).Some? ==> Shaped(Feed(m, t).value)
  {
  }

  ghost function Inside(f: Frame): seq<Token> {
    Sentence(f.done) + Words(f.open)
  }

  ghost function Outside(below: seq<Frame>): seq<Token> {
    if below == [] then []
    else Outside(below[..|below| - 1]) + Inside(below[|below| - 1]) + [Open]
  }

  /** The tokens that led to a machine. */
  ghost function Consumed(m: Machine): seq<Token> {
    Outside(m.below) + Inside(m.top)
  }

  lemma WordsPush(ws: seq<string>, w: string)
    ensures Words(ws + [w]) == Words(ws) + [Word(w)]
  {
  }

  lemma WellFormedPush(c: Config, st: Statement)
    requires WellFormed(c) && WellFormedStatement(st)
    ensures WellFormed(c + [st])
  {
    WellFormedConcat(c, [st]);
  }

  lemma SentencePush(c: Config, st: Statement)
    ensures Sentence(c + [st]) == Sentence(c) + StatementSentence(st)
  {
    SentenceConcat(c, [st]);
    SentenceOfOne(st);
  }

  lemma CloseTokens(outer: seq<Token>, before: seq<Token>, ws: seq<Token>, body: seq<Token>)
    ensures outer + (before + (ws + [Open] + body + [Close]) + [])
         == outer + (before + ws) + [Open] + (body + []) + [Close]
  {
  }

  lemma FeedCloseSound(m: Machine)
    requires MachineOk(m) && MayClose(m.last) && m.below != []
    ensures MachineOk(Pop(m))
    ensures Consumed(Pop(m)) == Consumed(m) + [Close]
  {
    hide Sentence;
    hide WellFormed;
    var n := |m.below| - 1;
    var parent := m.below[n];
    var st := Block(parent.open, m.top.done);
    WellFormedPush(parent.done, st);
    SentencePush(parent.done, st);
    assert Words([]) == [];
    CloseTokens(Outside(m.below[..n]), Sentence(parent.done), Words(parent.open), Sentence(m.top.done));
  }

  lemma WordTokens(outer: seq<Token>, before: seq<Token>, words: seq<Token>, t: Token)
    ensures outer + (before + (words + [t])) == outer + (before + words) + [t]
  {
  }

  lemma FeedWordShape(m: Machine, w: string)
    requires Shaped(m)
    ensures Feed(m, Word(w)) == Some(Machine(m.below, Frame(m.top.done, m.top.open + [w]), Normal))
    ensures Shaped(Feed(m, Word(w)).value)
  {
    assert [] + [w] == [w];
  }

  lemma FeedWordSound(m: Machine, w: string)
    requires MachineOk(m)
    ensures MachineOk(Feed(m, Word(w)).value)
    ensures Consumed(Feed(m, Word(w)).value) == Consumed(m) + [Word(w)]
  {
    hide Sentence;
    hide WellFormed;
    hide Outside;
    hide Words;
    hide Feed;
    hide Shaped;
    FeedWordShape(m, w);
    WordsPush(m.top.open, w);
    WordTokens(Outside(m.below), Sentence(m.top.done), Words(m.top.open), Word(w));
  }

  lemma FeedSemicolonSound(m: Machine)
    requires MachineOk(m) && m.last.Normal?
    ensures MachineOk(Feed(m, Semicolon).value)
    ensures Consumed(Feed(m, Semicolon).value) == Consumed(m) + [Semicolon]
  {
    hide Sentence;
    hide WellFormed;
    hide Outside;
    assert Words([]) == [];
    WellFormedPush(m.top.done, Leaf(m.top.open));
    SentencePush(m.top.done, Leaf(m.top.open));
  }

  lemma FeedOpenSound(m: Machine)
    requires MachineOk(m) && m.last.Normal?
    ensures MachineOk(Feed(m, Open).value)
    ensures Consumed(Feed(m, Open).value) == Consumed(m) + [Open]
  {
    assert Words([]) == [];
    assert (m.below + [m.top])[..|m.below|] == m.below;
  }

  /** Every step keeps the machine's invariant and accounts for exactly the token it was given. */
  lemma FeedSound(m: Machine, t: Token)
    requires MachineOk(m) && Feed(m, t).Some?
    ensures MachineOk(Feed(m, t).value)
    ensures Consumed(Feed(m, t).value) == Consumed(m) + [t]
  {
    hide MachineOk;
    hide Consumed;
    match t
    case Word(w) => FeedWordSound(m, w);
    case Semicolon => FeedSemicolonSound(m);
    case Open => FeedOpenSound(m);
    case Close => FeedCloseSound(m);
  }

  lemma OneMoreToken(before: seq<Token>, ts: seq<Token>)
    requires ts != []
    ensures (before + [ts[0]]) + ts[1..] == before + ts
  {
  }

  lemma {:induction false} FeedAllSound(m: Machine, ts: seq<Token>)
    requires MachineOk(m) && FeedAll(m, ts).Some?
    ensures MachineOk(FeedAll(m, ts).value)
    ensures Consumed(FeedAll(m, ts).value) == Consumed(m) + ts
    decreases |ts|
  {
    hide MachineOk;
    hide Consumed;
    hide Feed;
    if ts == [] {
      assert Consumed(m) + [] == Consumed(m);
    } else {
      FeedSound(m, ts[0]);
      FeedAllSound(Feed(m, ts[0]).value, ts[1..]);
      OneMoreToken(Consumed(m), ts);
    }
  }

  // ---------- completeness: every derivation is followed ----------

  lemma {:induction false} FeedAllConcat(m: Machine, a: seq<Token>, b: seq<Token>)
    ensures FeedAll(m, a + b) ==
            match FeedAll(m, a) { case None => None case Some(m') => FeedAll(m', b) }
    decreases |a|
  {
    if a == [] {
      assert a + b == b;
    } else {
      assert (a + b)[1..] == a[1..] + b;
      match Feed(m, a[0])
      case None =>
      case Some(m') => FeedAllConcat(m', a[1..], b);
    }
  }

  /** One more token at the end of a run that succeeded. */
  lemma FeedAllThen(m: Machine, ts: seq<Token>, t: Token)
    requires FeedAll(m, ts).Some?
    ensures FeedAll(m, ts + [t]) == Feed(FeedAll(m, ts).value, t)
  {
    FeedAllConcat(m, ts, [t]);
    assert [t][1..] == [];
  }

  lemma {:induction false} FeedMoreWords(m: Machine, ws: seq<string>)
    requires m.last.Normal?
    ensures FeedAll(m, Words(ws)) == Some(Machine(m.below, Frame(m.top.done, m.top.open + ws), Normal))
    decreases |ws|
  {
    if ws == [] {
      assert m.top.open + ws == m.top.open;
    } else {
      assert Words(ws)[1..] == Words(ws[1..]) && Words(ws)[0] == Word(ws[0]);
      hide Words;
      var m' := Feed(m, Word(ws[0])).value;
      FeedMoreWords(m', ws[1..]);
      assert m'.top.open + ws[1..] == m.top.open + ws;
    }
  }

  lemma FeedWords(m: Machine, ws: seq<string>)
    requires !m.last.Normal? && ws != []
    ensures FeedAll(m, Words(ws)) == Some(Machine(m.below, Frame(m.top.done, ws), Normal))
  {
    FeedMoreWords(Feed(m, Word(ws[0])).value, ws[1..]);
    assert Words(ws)[1..] == Words(ws[1..]);
    assert [ws[0]] + ws[1..] == ws;
  }

  function LastOf(st: Statement): TokenType {
    if st.Leaf? then StatementEnd else EndBlock
  }

  /** The machine with more finished statements in its innermost block. */
  function AddStatements(m: Machine, c: Config): Machine {
    if c == [] then m
    else Machine(m.below, Frame(m.top.done + c, []), LastOf(c[|c| - 1]))
  }

  ghost predicate Idle(m: Machine) {
    !m.last.Normal? && m.top.open == []
  }

  lemma {:induction false} FeedStatement(m: Machine, st: Statement)
    requires Idle(m) && WellFormedStatement(st)
    ensures FeedAll(m, StatementSentence(st)) == Some(AddStatements(m, [st]))
    decreases st, 1
  {
    FeedWords(m, st.tokens);
    match st
    case Leaf(ws) =>
      FeedAllThen(m, Words(ws), Semicolon);
    case Block(ws, body) =>
      FeedAllThen(m, Words(ws), Open);
      var m2 := Machine(m.below + [Frame(m.top.done, ws)], Frame([], []), StartBlock);
      FeedSentence(m2, body);
      FeedAllConcat(m, Words(ws) + [Open], Sentence(body));
      FeedAllThen(m, Words(ws) + [Open] + Sentence(body), Close);
      assert [] + body == body;
      assert m2.below[..|m.below|] == m.below;
  }

  lemma AddTwice(m: Machine, a: Config, b: Config)
    ensures AddStatements(AddStatements(m, a), b) == AddStatements(m, a + b)
  {
    assert a + [] == a && [] + b == b;
    assert m.top.done + (a + b) == (m.top.done + a) + b;
  }

  lemma {:induction false} FeedSentence(m: Machine, c: Config)
    requires Idle(m) && WellFormed(c)
    ensures FeedAll(m, Sentence(c)) == Some(AddStatements(m, c))
    decreases c, 0
  {
    if c != [] {
      assert c[0] in c;
      FeedStatement(m, c[0]);
      FeedSentence(AddStatements(m, [c[0]]), c[1..]);
      FeedAllConcat(m, StatementSentence(c[0]), Sentence(c[1..]));
      AddTwice(m, [c[0]], c[1..]);
      assert [c[0]] + c[1..] == c;
    }
  }

  lemma ParseSentence(c: Config, d: Config)
    requires WellFormed(d)
    ensures ParseTokens(c, Sentence(d)) == Some(c + d)
  {
    FeedSentence(Initial(c), d);
    assert c + [] == c;
  }

  lemma NothingConsumed()
    ensures Consumed(Initial([])) == [] && MachineOk(Initial([]))
  {
    assert Words([]) == [];
  }

  lemma AcceptedConsumed(m: Machine)
    requires MachineOk(m) && Accepting(m)
    ensures Consumed(m) == Sentence(m.top.done) && WellFormed(m.top.done)
  {
    hide Sentence;
    assert Outside([]) == [] && Words([]) == [];
    assert [] + (Sentence(m.top.done) + []) == Sentence(m.top.done);
  }

  lemma ParseTokensSound(ts: seq<Token>)
    requires ParseTokens([], ts).Some?
    ensures WellFormed(ParseTokens([], ts).value)
    ensures Sentence(ParseTokens([], ts).value) == ts
  {
    hide Consumed;
    hide MachineOk;
    hide FeedAll;
    hide Sentence;
    NothingConsumed();
    FeedAllSound(Initial([]), ts);
    AcceptedConsumed(FeedAll(Initial([]), ts).value);
    assert [] + ts == ts;
  }

  /** The stack parser accepts exactly the sentences of the grammar, and the tree it builds is
      the only derivation. */
  lemma ParserIsGrammar(ts: seq<Token>)
    ensures ParseTokens([], ts).Some? <==> exists c :: WellFormed(c) && Sentence(c) == ts
    ensures forall c :: WellFormed(c) && Sentence(c) == ts ==> ParseTokens([], ts) == Some(c)
    ensures ParseTokens([], ts).Some? ==>
              WellFormed(ParseTokens([], ts).value) && Sentence(ParseTokens([], ts).value) == ts
  {
    forall c | WellFormed(c) && Sentence(c) == ts ensures ParseTokens([], ts) == Some(c) {
      ParseSentence([], c);
      assert [] + c == c;
    }
    if ParseTokens([], ts).Some? {
      ParseTokensSound(ts);
    }
  }

  /** A configuration tree is determined by its sentence. */
  lemma SentenceInjective(a: Config, b: Config)
    requires WellFormed(a) && WellFormed(b) && Sentence(a) == Sentence(b)
    ensures a == b
  {
    ParserIsGrammar(Sentence(a));
  }

  // ---------- parsing into a configuration that already has statements ----------

  function PrefixedFrame(c: Config, f: Frame): Frame {
    f.(done := c + f.done)
  }

  /** The machine whose root block also holds `c`, in front. */
  function Prefixed(c: Config, m: Machine): Machine {
    if m.below == [] then m.(top := PrefixedFrame(c, m.top))
    else m.(below := [PrefixedFrame(c, m.below[0])] + m.below[1..])
  }

  lemma FeedPrefixed(c: Config, m: Machine, t: Token)
    ensures Feed(Prefixed(c, m), t) ==
            match Feed(m, t) { case None => None case Some(m') => Some(Prefixed(c, m')) }
  {
    var p := Prefixed(c, m);
    match t
    case Word(w) =>
    case Semicolon =>
      assert c + (m.top.done + [Leaf(m.top.open)]) == c + m.top.done + [Leaf(m.top.open)];
    case Open =>
      if m.below != [] {
        assert (m.below + [m.top])[1..] == m.below[1..] + [m.top];
        assert p.below + [p.top] == [p.below[0]] + (m.below[1..] + [m.top]);
      } else {
        assert m.below + [m.top] == [m.top] && [m.top][1..] == [];
        assert p.below + [p.top] == [p.top] + [];
      }
    case Close =>
      if |m.below| == 1 {
        var st := Block(m.below[0].open, m.top.done);
        assert c + (m.below[0].done + [st]) == c + m.below[0].done + [st];
      } else if |m.below| > 1 {
        var n := |m.below| - 1;
        assert p.below[..n] == [p.below[0]] + m.below[..n][1..];
      }
  }

  lemma {:induction false} FeedAllPrefixed(c: Config, m: Machine, ts: seq<Token>)
    ensures FeedAll(Prefixed(c, m), ts) ==
            match FeedAll(m, ts) { case None => None case Some(m') => Some(Prefixed(c, m')) }
    decreases |ts|
  {
    if ts != [] {
      FeedPrefixed(c, m, ts[0]);
      match Feed(m, ts[0])
      case None =>
      case Some(m') => FeedAllPrefixed(c, m', ts[1..]);
    }
  }

  /** The root block keeps what it held: parsing into `c` appends what parsing afresh builds. */
  lemma ParseIntoAppends(c: Config, text: string)
    ensures ParseInto(c, text) ==
            match ParseText(text) { case None => None case Some(d) => Some(c + d) }
  {
    assert c + [] == c;
    FeedAllPrefixed(c, Initial([]), Tokens(text).tokens);
  }

  // ---------- what a failed parse leaves ----------

  lemma {:induction false} FeedWhileConcat(m: Machine, a: seq<Token>, b: seq<Token>)
    requires FeedAll(m, a).Some?
    ensures FeedWhile(m, a + b) == FeedWhile(FeedAll(m, a).value, b)
    decreases |a|
  {
    if a == [] {
      assert a + b == b;
    } else {
      assert (a + b)[1..] == a[1..] + b;
      FeedWhileConcat(Feed(m, a[0]).value, a[1..], b);
    }
  }

  lemma {:induction false} FeedWhilePrefix(m: Machine, ts: seq<Token>) returns (n: nat)
    ensures n <= |ts| && FeedAll(m, ts[..n]) == Some(FeedWhile(m, ts))
    ensures n == |ts| || Feed(FeedWhile(m, ts), ts[n]).None?
    decreases |ts|
  {
    if ts == [] || Feed(m, ts[0]).None? {
      n := 0;
    } else {
      n := FeedWhilePrefix(Feed(m, ts[0]).value, ts[1..]);
      n := n + 1;
      assert ts[..n][0] == ts[0] && ts[..n][1..] == ts[1..][..n - 1];
    }
  }

  /** The root keeps what it held; behind that stand whole statements, well-formed, whose sentence is
      how the tokens of the text begin. If the text is accepted they are its tree. */
  lemma SalvagedIsPrefix(c: Config, text: string) returns (d: Config)
    ensures Salvaged(c, text) == c + d && WellFormed(d) && Sentence(d) <= Tokens(text).tokens
    ensures ParseText(text).Some? ==> d == ParseText(text).value
  {
    hide Consumed;
    hide Sentence;
    hide WellFormed;
    hide FeedAll;
    hide Tokens;
    var ts := Tokens(text).tokens;
    var m := FeedWhile(Initial([]), ts);
    var n := FeedWhilePrefix(Initial([]), ts);
    NothingConsumed();
    FeedAllSound(Initial([]), ts[..n]);
    d := RootOf(m);
    RootBeginsConsumed(m);
    FeedWhilePrefixed(c, Initial([]), ts);
    assert c + [] == c;
    assert [] + ts[..n] == ts[..n] && ts + [] == ts;
    if ParseText(text).Some? {
      FeedWhileConcat(Initial([]), ts, []);
    }
  }

  lemma PrefixOfLonger(a: seq<Token>, b: seq<Token>, c: seq<Token>)
    requires a <= b
    ensures a <= b + c
  {
  }

  lemma {:induction false} OutsideBegins(below: seq<Frame>)
    requires below != []
    ensures Sentence(below[0].done) <= Outside(below)
    decreases |below|
  {
    hide Sentence;
    hide Words;
    var n := |below| - 1;
    if n > 0 {
      OutsideBegins(below[..n]);
      PrefixOfLonger(Sentence(below[0].done), Outside(below[..n]), Inside(below[n]));
      PrefixOfLonger(Sentence(below[0].done), Outside(below[..n]) + Inside(below[n]), [Open]);
    } else {
      assert below[..0] == [] && Outside([]) == [];
      assert [] + Inside(below[0]) == Inside(below[0]);
      PrefixOfLonger(Sentence(below[0].done), Inside(below[0]), [Open]);
    }
  }

  lemma RootBeginsConsumed(m: Machine)
    ensures Sentence(RootOf(m)) <= Consumed(m)
  {
    if m.below != [] {
      OutsideBegins(m.below);
    } else {
      assert Outside([]) == [] && Consumed(m) == Sentence(m.top.done) + Words(m.top.open);
    }
  }

  lemma {:induction false} FeedWhilePrefixed(c: Config, m: Machine, ts: seq<Token>)
    ensures FeedWhile(Prefixed(c, m), ts) == Prefixed(c, FeedWhile(m, ts))
    ensures RootOf(Prefixed(c, m)) == c + RootOf(m)
    decreases |ts|
  {
    if ts != [] {
      FeedPrefixed(c, m, ts[0]);
      if Feed(m, ts[0]).Some? {
        FeedWhilePrefixed(c, Feed(m, ts[0]).value, ts[1..]);
      }
    }
  }
}
