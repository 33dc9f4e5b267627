/** Configuration trees, the token language that describes them, and their printed form. */
module ConfigTree {
  import opened ConfigLexer

  /** A statement ends in `;`, or carries a child block. */
  datatype Statement =
    | Leaf(tokens: seq<string>)
    | Block(tokens: seq<string>, body: seq<Statement>)

  type Config = seq<Statement>

  function Words(ws: seq<string>): (ts: seq<Token>)
    ensures |ts| == |ws|
    ensures forall i :: 0 <= i < |ws| ==> ts[i] == Word(ws[i])
  {
    seq(|ws|, i requires 0 <= i < |ws| => Word(ws[i]))
  }

  /** The sentence of the grammar `stmt = word* (';' | '{' stmt* '}')` with this derivation. */
  function StatementSentence(st: Statement): seq<Token>
    decreases st, 1
  {
    match st
    case Leaf(ws) => Words(ws) + [Semicolon]
    case Block(ws, body) => Words(ws) + [Open] + Sentence(body) + [Close]
  }

  function Sentence(c: Config): seq<Token>
    decreases c, 0
  {
    if c == [] then [] else StatementSentence(c[0]) + Sentence(c[1..])
  }

  /** Every statement, at every depth, has at least one token. */
  ghost predicate WellFormedStatement(st: Statement)
    decreases st, 1
  {
    st.tokens != [] && (st.Block? ==> WellFormed(st.body))
  }

  ghost predicate WellFormed(c: Config)
    decreases c, 0
  {
    forall st :: st in c ==> WellFormedStatement(st)
  }

  ghost predicate PrintableStatement(st: Statement)
    decreases st, 1
  {
    && st.tokens != []
    && (forall w :: w in st.tokens ==> Lexable(w))
    && (st.Block? ==> Printable(st.body))
  }

  /** Every statement has at least one token and every token can be read by the lexer. */
  ghost predicate Printable(c: Config)
    decreases c, 0
  {
    forall st :: st in c ==> PrintableStatement(st)
  }

  lemma {:induction false} PrintableIsWellFormed(c: Config)
    requires Printable(c)
    ensures WellFormed(c)
    decreases c, 0
  {
    forall st | st in c ensures WellFormedStatement(st) {
      assert PrintableStatement(st);
      if st.Block? {
        PrintableIsWellFormed(st.body);
      }
    }
  }

  lemma {:induction false} SentenceConcat(a: Config, b: Config)
    ensures Sentence(a + b) == Sentence(a) + Sentence(b)
  {
    if a == [] {
      assert a + b == b;
    } else {
      assert (a + b)[1..] == a[1..] + b;
      SentenceConcat(a[1..], b);
    }
  }

  lemma SentenceOfOne(st: Statement)
    ensures Sentence([st]) == StatementSentence(st)
  {
    assert [st][1..] == [];
  }

  lemma WellFormedConcat(a: Config, b: Config)
    ensures WellFormed(a + b) <==> WellFormed(a) && WellFormed(b)
  {
    if WellFormed(a + b) {
      forall st | st in a || st in b ensures WellFormedStatement(st) {
        assert st in a + b;
      }
    }
  }

  /** A well-formed tree whose sentence has only lexable words is printable. */
  lemma {:induction false} LexableSentenceIsPrintable(c: Config)
    requires WellFormed(c)
    requires forall t :: t in Sentence(c) && t.Word? ==> Lexable(t.text)
    ensures Printable(c)
    decreases c, 0
  {
    if c != [] {
      var st := c[0];
      assert st in c && WellFormedStatement(st);
      assert Sentence(c) == StatementSentence(st) + Sentence(c[1..]);
      forall w | w in st.tokens ensures Lexable(w) {
        var i :| 0 <= i < |st.tokens| && st.tokens[i] == w;
        assert StatementSentence(st)[i] == Word(w);
        assert Word(w) in Sentence(c);
      }
      if st.Block? {
        forall t | t in Sentence(st.body) ensures t in Sentence(c) {
          assert t in StatementSentence(st);
        }
        LexableSentenceIsPrintable(st.body);
      }
      LexableSentenceIsPrintable(c[1..]);
      assert c == [st] + c[1..];
    }
  }

  // ---------- the printed form ----------

  function Indent(depth: nat): string {
    if depth == 0 then "" else "  " + Indent(depth - 1)
  }

  function JoinWords(ws: seq<string>): string {
    if ws == [] then ""
    else if |ws| == 1 then ws[0]
    else ws[0] + " " + JoinWords(ws[1..])
  }

  function StatementText(st: Statement, depth: nat): string
    decreases st, 1
  {
    match st
    case Leaf(ws) => Indent(depth) + (JoinWords(ws) + ";\n")
    case Block(ws, body) =>
      Indent(depth) + (JoinWords(ws) + (" {\n" + (ConfigText(body, depth + 1) + (Indent(depth) + "}\n"))))
  }

  function ConfigText(c: Config, depth: nat): string
    decreases c, 0
  {
    if c == [] then "" else StatementText(c[0], depth) + ConfigText(c[1..], depth)
  }

  /** Each level is indented by two blanks. */
  lemma {:induction false} IndentIs(depth: nat)
    ensures |Indent(depth)| == 2 * depth && forall i :: 0 <= i < 2 * depth ==> Indent(depth)[i] == ' '
  {
    if depth > 0 {
      IndentIs(depth - 1);
    }
  }

  /** The layout of statements and blocks, for every words and depth. */
  lemma LayoutOfBlock(a: string, b: string, c: string, depth: nat)
    ensures StatementText(Leaf([b, c]), depth) == Indent(depth) + (b + " " + c + ";\n")
    ensures StatementText(Block([a], [Leaf([b, c])]), depth)
         == Indent(depth) + (a + (" {\n" + (Indent(depth) + "  " + (b + " " + c + ";\n") + (Indent(depth) + "}\n"))))
  {
    assert [b, c][1..] == [c];
    assert JoinWords([b, c]) == b + " " + c;
    assert [Leaf([b, c])][1..] == [];
    var line := StatementText(Leaf([b, c]), depth + 1);
    assert ConfigText([Leaf([b, c])], depth + 1) == line + "";
    IndentIs(depth);
    IndentIs(depth + 1);
    assert Indent(depth + 1) == Indent(depth) + "  ";
  }

  lemma PrintedLeaf()
    ensures StatementText(Leaf(["port", "80"]), 0) == "port 80;\n"
    ensures StatementText(Leaf(["root", "/x"]), 1) == "  root /x;\n"
  {
    assert ["port", "80"][1..] == ["80"] && ["root", "/x"][1..] == ["/x"];
    assert JoinWords(["port", "80"]) == "port 80" && JoinWords(["root", "/x"]) == "root /x";
    assert Indent(1) == "  ";
  }

  lemma PrintedBlock()
    ensures StatementText(Block(["location", "/", "E"], [Leaf(["root", "/x"])]), 0)
         == "location / E {\n  root /x;\n}\n"
  {
    var ws := ["location", "/", "E"];
    assert ws[1..] == ["/", "E"] && ["/", "E"][1..] == ["E"];
    assert JoinWords(ws) == "location / E" by {
      assert JoinWords(["/", "E"]) == "/ E";
    }
    PrintedLeaf();
    hide JoinWords;
    var body := [Leaf(["root", "/x"])];
    assert body[1..] == [] && ConfigText(body, 1) == "  root /x;\n" + "";
    assert ConfigText(body, 1) == "  root /x;\n";
  }

  /** A file as it is printed. */
  lemma PrintedFile()
    ensures ConfigText([Leaf(["port", "80"]), Block(["location", "/", "E"], [Leaf(["root", "/x"])])], 0)
         == "port 80;\n" + "location / E {\n  root /x;\n}\n"
  {
    hide StatementText;
    var p, l := Leaf(["port", "80"]), Block(["location", "/", "E"], [Leaf(["root", "/x"])]);
    PrintedLeaf();
    PrintedBlock();
    assert [p, l][1..] == [l] && [l][1..] == [];
    assert ConfigText([l], 0) == StatementText(l, 0) + "";
  }
}
