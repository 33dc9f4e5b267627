/** The configuration objects, the stack of open blocks that grows them in place, and their printer. */
module ConfigObjects {
  import opened Text
  import opened ConfigLexer
  import opened ConfigTree
  import opened ConfigParser
  import opened ConfigReader
  import opened ConfigRoundTrip

  class NginxConfigStatement {
    var tokens: seq<string>
    var childBlock: NginxConfig?
    ghost var Model: Statement
    ghost var Repr: set<object>

    ghost predicate Valid()
      reads this, Repr
      decreases Repr
    {
      && this in Repr
      && (childBlock == null ==> Model == Leaf(tokens))
      && (childBlock != null ==>
            && childBlock in Repr && childBlock.Repr <= Repr && this !in childBlock.Repr
            && childBlock.Valid()
            && Model == Block(tokens, childBlock.Model))
    }

    constructor ()
      ensures tokens == [] && childBlock == null
    {
      tokens := [];
      childBlock := null;
      Model := Leaf([]);
      Repr := {};
    }

    method ToString(depth: nat) returns (text: string)
      requires Valid()
      ensures text == StatementText(Model, depth)
      decreases Repr
    {
      text := PrintIndent("", depth);
      text := PrintTokens(text, tokens);
      if childBlock != null {
        var inner := childBlock.ToString(depth + 1);
        text := text + " {\n";
        text := text + inner;
        text := PrintIndent(text, depth);
        text := text + "}";
        BlockTextLeft(Indent(depth), JoinWords(tokens), inner);
      } else {
        text := text + ";";
        LeafTextLeft(Indent(depth), JoinWords(tokens));
      }
      text := text + "\n";
    }
  }

  class NginxConfig {
    var statements: seq<NginxConfigStatement>
    ghost var Model: Config
    ghost var Repr: set<object>

    /** The first statements are complete and stand for `Model`; the rest is not looked at. */
    ghost predicate Holds()
      reads this, Repr
      decreases Repr, 0
    {
      && this in Repr
      && |Model| <= |statements|
      && forall i :: 0 <= i < |Model| ==>
           var st := statements[i];
           st in Repr && st.Repr <= Repr && this !in st.Repr && st.Valid() && st.Model == Model[i]
    }

    ghost predicate Valid()
      reads this, Repr
      decreases Repr, 1
    {
      Holds() && |statements| == |Model|
    }

    /** The finished statements were not touched. */
    twostate lemma HoldsKept()
      requires old(Holds()) && Model == old(Model) && Repr == old(Repr)
      requires |statements| >= |Model| && statements[..|Model|] == old(statements[..|Model|])
      requires forall o :: o in old(Repr) && o != this ==> unchanged(o)
      ensures Holds()
    {
      forall i | 0 <= i < |Model|
        ensures var st := statements[i];
          st in Repr && st.Repr <= Repr && this !in st.Repr && st.Valid() && st.Model == Model[i]
      {
        assert statements[i] == statements[..|Model|][i] == old(statements[..|Model|][i]) == old(statements[i]);
        assert old(statements[i].Valid());
      }
    }

    /** One more statement is finished. */
    twostate lemma HoldsMore(st: NginxConfigStatement)
      requires old(Holds()) && |old(statements)| == |old(Model)| + 1 && statements == old(statements)
      requires st == statements[|old(Model)|]
      requires st.Valid() && this !in st.Repr
      requires Model == old(Model) + [st.Model] && Repr == old(Repr) + st.Repr
      requires forall o :: o in old(Repr) && o != this ==> unchanged(o)
      ensures Holds()
    {
      forall i | 0 <= i < |old(Model)|
        ensures var s := statements[i];
          s in Repr && s.Repr <= Repr && this !in s.Repr && s.Valid() && s.Model == Model[i]
      {
        assert old(statements[i].Valid());
      }
    }

    /** The last statement is finished, with its child block if it has one. */
    ghost method FinishLast(st: NginxConfigStatement)
      requires Holds() && |statements| == |Model| + 1 && st == statements[|Model|] && st !in Repr
      requires st.childBlock != null ==>
                 st.childBlock.Valid() && st !in st.childBlock.Repr && this !in st.childBlock.Repr
      modifies this`Repr, this`Model, st`Repr, st`Model
      ensures Holds() && st.Valid()
      ensures st.childBlock == null ==>
                Model == old(Model) + [Leaf(st.tokens)] && Repr == old(Repr) + {st}
      ensures st.childBlock != null ==>
                && Model == old(Model) + [Block(st.tokens, st.childBlock.Model)]
                && Repr == old(Repr) + {st} + st.childBlock.Repr
    {
      var child := st.childBlock;
      st.Repr := {st} + if child == null then {} else child.Repr;
      st.Model := if child == null then Leaf(st.tokens) else Block(st.tokens, child.Model);
      assert child != null ==> child.Valid();
      Repr := Repr + st.Repr;
      Model := Model + [st.Model];
      HoldsMore(st);
    }

    constructor ()
      ensures Valid() && fresh(Repr) && Model == []
      ensures Repr == {this} && statements == []
    {
      statements := [];
      Model := [];
      Repr := {this};
    }

    method ToString(depth: nat) returns (text: string)
      requires Valid()
      ensures text == ConfigText(Model, depth)
      decreases Repr
    {
      text := "";
      for i := 0 to |statements|
        invariant text == ConfigText(Model[..i], depth)
      {
        var line := statements[i].ToString(depth);
        text := text + line;
        ConfigTextPush(Model[..i], Model[i], depth);
        assert Model[..i + 1] == Model[..i] + [Model[i]];
      }
      assert Model[..|statements|] == Model;
    }
  }

  lemma LeafTextLeft(indent: string, words: string)
    ensures "" + indent + words + ";" + "\n" == indent + (words + ";\n")
  {
  }

  lemma BlockTextLeft(indent: string, words: string, inner: string)
    ensures "" + indent + words + " {\n" + inner + indent + "}" + "\n"
         == indent + (words + (" {\n" + (inner + (indent + "}\n"))))
  {
    assert indent + "}" + "\n" == indent + "}\n";
  }

  lemma {:induction false} ConfigTextPush(c: Config, st: Statement, depth: nat)
    ensures ConfigText(c + [st], depth) == ConfigText(c, depth) + StatementText(st, depth)
  {
    if c == [] {
      assert [] + [st] == [st] && [st][1..] == [];
    } else {
      assert (c + [st])[1..] == c[1..] + [st];
      ConfigTextPush(c[1..], st, depth);
    }
  }

  lemma {:induction false} IndentPush(n: nat)
    ensures Indent(n + 1) == Indent(n) + "  "
  {
    if n > 0 {
      IndentPush(n - 1);
    }
  }

  method PrintIndent(prefix: string, depth: nat) returns (text: string)
    ensures text == prefix + Indent(depth)
  {
    text := prefix;
    for i := 0 to depth
      invariant text == prefix + Indent(i)
    {
      text := text + "  ";
      IndentPush(i);
    }
  }

  lemma {:induction false} JoinWordsPush(ws: seq<string>, w: string)
    requires ws != []
    ensures JoinWords(ws + [w]) == JoinWords(ws) + " " + w
  {
    if |ws| > 1 {
      assert (ws + [w])[1..] == ws[1..] + [w];
      JoinWordsPush(ws[1..], w);
    } else {
      assert (ws + [w])[1..] == [w];
    }
  }

  method PrintTokens(prefix: string, tokens: seq<string>) returns (text: string)
    ensures text == prefix + JoinWords(tokens)
  {
    text := prefix;
    for i := 0 to |tokens|
      invariant text == prefix + JoinWords(tokens[..i])
    {
      if i != 0 {
        text := text + " ";
        JoinWordsPush(tokens[..i], tokens[i]);
      }
      text := text + tokens[i];
      assert tokens[..i + 1] == tokens[..i] + [tokens[i]];
    }
    assert tokens[..|tokens|] == tokens;
  }

  // ---------- the stack of open blocks ----------

  /** The stack of blocks under construction, the root first. `machine` is the value-level
      machine that the objects stand for. */
  class ConfigStack {
    var nodes: seq<NginxConfig>
    ghost var machine: Machine
    ghost var Repr: set<object>

    ghost function FrameAt(d: nat): Frame
      requires d <= |machine.below|
      reads this
    {
      if d < |machine.below| then machine.below[d] else machine.top
    }

    ghost predicate HasOpenStatement(d: nat)
      reads this
    {
      d < |machine.below| || machine.last.Normal?
    }

    /** Block `d` holds the finished statements of its frame and, behind them, the statement
        that is still open; the open statement of a lower block owns the block above it. */
    ghost predicate Level(d: nat)
      requires d < |nodes| == |machine.below| + 1
      reads this, Repr
    {
      var n, f := nodes[d], FrameAt(d);
      && n in Repr && n.Repr <= Repr && this !in n.Repr
      && n.Holds() && n.Model == f.done
      && |n.statements| == |f.done| + (if HasOpenStatement(d) then 1 else 0)
      && (HasOpenStatement(d) ==>
            var st := n.statements[|f.done|];
            && st in Repr
            && st.tokens == f.open
            && st.childBlock == (if d < |machine.below| then nodes[d + 1] else null))
    }

    /** No finished statement reaches a block or a statement that is still open, and these are distinct. */
    ghost predicate Apart(d: nat, e: nat)
      requires d < |nodes| == |machine.below| + 1 && e < |nodes|
      requires Level(d) && Level(e)
      reads this, Repr
    {
      && (d != e ==> nodes[d] !in nodes[e].Repr)
      && (HasOpenStatement(d) ==> OpenStatement(d) !in nodes[e].Repr)
      && (d != e && HasOpenStatement(d) && HasOpenStatement(e) ==> OpenStatement(d) != OpenStatement(e))
    }

    ghost predicate Valid()
      reads this, Repr
    {
      && this in Repr
      && |nodes| == |machine.below| + 1
      && Shaped(machine)
      && (forall d: nat :: d < |nodes| ==> Level(d))
      && (forall d: nat, e: nat :: d < |nodes| && e < |nodes| ==> Apart(d, e))
    }

    constructor (config: NginxConfig)
      requires config.Valid()
      ensures Valid() && fresh(Repr - config.Repr)
      ensures machine == Initial(config.Model) && nodes == [config]
    {
      nodes := [config];
      machine := Initial(config.Model);
      Repr := {this} + config.Repr;
    }

    ghost function OpenStatement(d: nat): NginxConfigStatement
      requires d < |nodes| == |machine.below| + 1 && Level(d) && HasOpenStatement(d)
      reads this, Repr
    {
      nodes[d].statements[|FrameAt(d).done|]
    }

    ghost predicate IsOpenAtTop(o: object)
      requires Valid()
      reads this, Repr
    {
      HasOpenStatement(|nodes| - 1) && o == OpenStatement(|nodes| - 1)
    }

    twostate lemma LowerKept(d: nat)
      requires |old(nodes)| == |old(machine).below| + 1 && |nodes| == |machine.below| + 1
      requires d < |old(machine).below| && d < |machine.below|
      requires nodes[d] == old(nodes[d]) && nodes[d + 1] == old(nodes[d + 1])
      requires machine.below[d] == old(machine.below[d])
      requires old(Level(d)) && old(Repr) <= Repr
      requires forall o :: o in old(nodes[d].Repr) ==> unchanged(o)
      requires unchanged(old(OpenStatement(d)))
      ensures Level(d) && OpenStatement(d) == old(OpenStatement(d))
    {
    }

    /** Only the innermost block and its open statement were changed. */
    twostate lemma TopChanged()
      requires old(Valid()) && this in Repr && old(Repr) <= Repr
      requires nodes == old(nodes) && machine.below == old(machine.below) && Shaped(machine)
      requires var top := |nodes| - 1;
        && Level(top)
        && (forall o :: o in old(Repr) && o != this && o != nodes[top] ==> old(IsOpenAtTop(o)) || unchanged(o))
        && (forall o :: o in nodes[top].Repr && old(allocated(o)) ==>
              o in old(nodes[top].Repr) || old(IsOpenAtTop(o)))
        && (HasOpenStatement(top) ==>
              var st := OpenStatement(top);
              && st !in nodes[top].Repr
              && (old(allocated(st)) ==> old(IsOpenAtTop(st))))
      ensures Valid()
    {
      var top := |nodes| - 1;
      forall d: nat | d < top ensures Level(d) && OpenStatement(d) == old(OpenStatement(d)) {
        assert old(Level(d)) && old(Apart(top, d)) && old(Apart(d, d)) && old(Apart(d, top));
        forall o | o in old(nodes[d].Repr) ensures unchanged(o) {
          assert !old(IsOpenAtTop(o));
        }
        assert !old(IsOpenAtTop(OpenStatement(d)));
        LowerKept(d);
      }
      forall d: nat, e: nat | d < |nodes| && e < |nodes| ensures Apart(d, e) {
        assert old(Apart(d, e)) && old(Apart(top, e)) && old(Apart(d, top));
        assert old(Level(e)) && old(Level(d)) && old(Level(top));
        if d != top && e == top {
          assert !old(IsOpenAtTop(nodes[d]));
          assert nodes[d] !in nodes[e].Repr;
        }
        assert d < top ==> !old(IsOpenAtTop(OpenStatement(d))) && OpenStatement(d) == old(OpenStatement(d));
      }
    }

    /** The root object holds the finished statements of the root block, and at most one more that is
        open. When only the root is left and no statement is open, it is a finished tree. */
    lemma RootHolds()
      requires Valid()
      ensures nodes[0].Holds() && nodes[0].Model == RootOf(machine) && nodes[0].Repr <= Repr
      ensures |nodes[0].statements| <= |nodes[0].Model| + 1
      ensures |nodes| == 1 && !machine.last.Normal? ==> nodes[0].Valid() && nodes[0].Model == machine.top.done
    {
      assert Level(0);
    }

    /** A word that starts a new statement of the innermost block. */
    method StartStatement(w: string)
      requires Valid() && !machine.last.Normal?
      modifies Repr
      ensures Valid() && fresh(Repr - old(Repr))
      ensures Some(machine) == Feed(old(machine), Word(w))
      ensures nodes == old(nodes)
    {
      hide Apart;
      hide Shaped;
      ghost var top := |nodes| - 1;
      var n := nodes[|nodes| - 1];
      assert Level(top);
      FeedKeepsShape(machine, Word(w));
      var st := new NginxConfigStatement();
      n.statements := n.statements + [st];
      st.tokens := st.tokens + [w];
      Repr := Repr + {st};
      machine := Feed(machine, Word(w)).value;
      n.HoldsKept();
      assert st.tokens == [w];
      assert Level(top);
      TopChanged();
    }

    /** A word that extends the open statement of the innermost block. */
    method ExtendStatement(w: string)
      requires Valid() && machine.last.Normal?
      modifies Repr
      ensures Valid() && fresh(Repr - old(Repr))
      ensures Some(machine) == Feed(old(machine), Word(w))
      ensures nodes == old(nodes)
    {
      ghost var top := |nodes| - 1;
      var n := nodes[|nodes| - 1];
      assert Level(top) && Apart(top, top);
      var st := n.statements[|n.statements| - 1];
      st.tokens := st.tokens + [w];
      machine := Feed(machine, Word(w)).value;
      n.HoldsKept();
      assert Level(top);
      TopChanged();
    }

    /** A semicolon: nothing changes in the objects, the open statement is finished. */
    ghost method EndStatement()
      requires Valid() && machine.last.Normal?
      modifies Repr
      ensures Valid() && fresh(Repr - old(Repr))
      ensures Some(machine) == Feed(old(machine), Semicolon)
      ensures nodes == old(nodes)
    {
      var top := |nodes| - 1;
      var n := nodes[top];
      assert Level(top) && Apart(top, top);
      var st := OpenStatement(top);
      n.FinishLast(st);
      FeedKeepsShape(machine, Semicolon);
      machine := Feed(machine, Semicolon).value;
      assert Level(top);
      TopChanged();
    }

    /** A fresh block was pushed and hung under the open statement; nothing else was changed. */
    twostate lemma BlockPushed(new child: NginxConfig)
      requires old(Valid()) && this in Repr && old(Repr) <= Repr && Shaped(machine)
      requires var top := |old(nodes)| - 1;
        && nodes == old(nodes) + [child]
        && old(HasOpenStatement(top)) && !machine.last.Normal?
        && machine.below == old(machine.below) + [old(machine.top)]
        && (forall o :: o in old(Repr) && o != this ==> old(IsOpenAtTop(o)) || unchanged(o))
        && unchanged(nodes[top])
        && old(OpenStatement(top)).tokens == old(OpenStatement(top).tokens)
        && old(OpenStatement(top)).childBlock == child && old(OpenStatement(top)) in Repr
        && child.Valid() && child.Model == [] && child.Repr == {child} <= Repr
        && !old(allocated(child)) && this as object != child && machine.top == Frame([], [])
      ensures Valid()
    {
      hide Shaped;
      var top := |old(nodes)| - 1;
      assert old(Level(top)) && old(Apart(top, top));
      nodes[top].HoldsKept();
      assert Level(top) && OpenStatement(top) == old(OpenStatement(top));
      assert Level(top + 1);
      forall d: nat | d < top ensures Level(d) && OpenStatement(d) == old(OpenStatement(d)) {
        assert old(Level(d)) && old(Apart(top, d));
        assert !old(IsOpenAtTop(OpenStatement(d)));
        LowerKept(d);
      }
      forall d: nat, e: nat | d < |nodes| && e < |nodes| ensures Apart(d, e) {
        if d <= top && e <= top {
          assert old(Apart(d, e)) && old(Level(e)) && old(Level(d));
          assert OpenStatement(d) == old(OpenStatement(d));
        } else if d <= top {
          assert old(Level(d)) && OpenStatement(d) == old(OpenStatement(d));
        } else if e <= top {
          assert old(Level(e));
        }
      }
    }

    /** The innermost block was taken off the stack, and its parent's open statement is finished. */
    twostate lemma BlockPopped()
      requires old(Valid()) && this in Repr && old(Repr) <= Repr && Shaped(machine)
      requires |old(nodes)| >= 2 && !machine.last.Normal?
      requires var top := |old(nodes)| - 2;
        && nodes == old(nodes[..|nodes| - 1])
        && machine.below == old(machine.below[..|machine.below| - 1])
        && old(Level(top))
        && (forall o :: o in old(Repr) && o != this && o != nodes[top] ==>
              o == old(OpenStatement(top)) || unchanged(o))
        && Level(top)
        && (forall o :: o in nodes[top].Repr ==>
              o == old(OpenStatement(top)) || o in old(nodes[top].Repr) || o in old(nodes[top + 1].Repr))
      ensures Valid()
    {
      var top := |old(nodes)| - 2;
      forall d: nat | d < top ensures Level(d) && OpenStatement(d) == old(OpenStatement(d)) {
        assert old(Level(d)) && old(Apart(top, d)) && old(Apart(d, d)) && old(Apart(d, top));
        LowerKept(d);
      }
      forall d: nat, e: nat | d < |nodes| && e < |nodes| ensures Apart(d, e) {
        assert old(Apart(d, e)) && old(Apart(d, top)) && old(Apart(d, top + 1));
        assert old(Level(e)) && old(Level(d));
      }
    }

    /** An opening brace: the open statement gets a child block, which becomes the innermost. */
    method OpenBlock()
      requires Valid() && machine.last.Normal?
      modifies Repr
      ensures Valid() && fresh(Repr - old(Repr))
      ensures Some(machine) == Feed(old(machine), Open)
      ensures |nodes| == |old(nodes)| + 1 && nodes[0] == old(nodes[0])
    {
      ghost var top := |nodes| - 1;
      var n := nodes[|nodes| - 1];
      assert Level(top) && Apart(top, top);
      var st := n.statements[|n.statements| - 1];
      var child := new NginxConfig();
      st.childBlock := child;
      nodes := nodes + [child];
      Repr := Repr + {child};
      FeedKeepsShape(machine, Open);
      machine := Feed(machine, Open).value;
      BlockPushed(child);
    }

    /** A closing brace: the innermost block is complete and its parent goes on. */
    method CloseBlock()
      requires Valid() && MayClose(machine.last) && |nodes| > 1
      modifies Repr
      ensures Valid() && fresh(Repr - old(Repr))
      ensures Some(machine) == Feed(old(machine), Close)
      ensures nodes == old(nodes[..|nodes| - 1])
    {
      hide Shaped;
      ghost var top := |nodes| - 2;
      ghost var n, child := nodes[top], nodes[top + 1];
      assert Level(top) && Level(top + 1);
      assert Apart(top, top) && Apart(top, top + 1) && Apart(top + 1, top);
      ghost var st := OpenStatement(top);
      assert n !in child.Repr && st !in child.Repr && child !in n.Repr && st !in n.Repr;
      hide Apart;
      nodes := nodes[..|nodes| - 1];
      assert child.Valid();
      n.FinishLast(st);
      FeedKeepsShape(machine, Close);
      machine := Feed(machine, Close).value;
      assert Level(top);
      BlockPopped();
    }
  }

  /** The parser of `text`, started on `c`, has fed `done` and is in `m`; `rest` is unread. */
  ghost predicate Progress(c: Config, text: string, done: seq<Token>, m: Machine, rest: string) {
    FeedAll(Initial(c), done) == Some(m) && Tokens(text) == Prepend(done, Tokens(rest))
  }

  lemma ProgressStart(c: Config, text: string)
    ensures Progress(c, text, [], Initial(c), text)
  {
    assert [] + Tokens(text).tokens == Tokens(text).tokens;
  }

  lemma ProgressToken(c: Config, text: string, done: seq<Token>, m: Machine, rest: string)
    requires Progress(c, text, done, m, rest)
    requires !Lex(rest).kind.Error? && !Lex(rest).kind.Eof? && !Lex(rest).kind.Comment?
    ensures var l := Lex(rest);
            var t := TokenOf(l.kind, l.value);
            && (Feed(m, t).None? ==> ParseInto(c, text) == None)
            && (Feed(m, t).Some? ==> Progress(c, text, done + [t], Feed(m, t).value, l.rest))
  {
    var l := Lex(rest);
    var t := TokenOf(l.kind, l.value);
    PrependPrepend(done, [t], Tokens(l.rest));
    FeedAllThen(Initial(c), done, t);
    FeedAllConcat(Initial(c), done + [t], Tokens(l.rest).tokens);
  }

  /** Where the parser stops it holds what is promised. */
  lemma ProgressStops(c: Config, text: string, done: seq<Token>, m: Machine, rest: string)
    requires Progress(c, text, done, m, rest)
    requires var l := Lex(rest);
             || l.kind.Error? || l.kind.Eof?
             || (!l.kind.Comment? && Feed(m, TokenOf(l.kind, l.value)).None?)
    ensures Salvaged(c, text) == RootOf(m)
  {
    var ts := Tokens(rest).tokens;
    FeedWhileConcat(Initial(c), done, ts);
    assert ts == [] || Feed(m, ts[0]).None?;
  }

  /** What one lexeme does to the parse. */
  lemma ProgressLexeme(c: Config, text: string, done: seq<Token>, m: Machine, rest: string, l: Lexeme)
    requires Progress(c, text, done, m, rest) && l == Lex(rest)
    ensures l.kind.Error? ==> ParseInto(c, text) == None
    ensures l.kind.Eof? ==> ParseInto(c, text) == if Accepting(m) then Some(m.top.done) else None
    ensures l.kind.Comment? ==> Progress(c, text, done, m, l.rest)
    ensures !l.kind.Error? && !l.kind.Eof? && !l.kind.Comment? ==>
              var t := TokenOf(l.kind, l.value);
              && (Feed(m, t).None? ==> ParseInto(c, text) == None)
              && (Feed(m, t).Some? ==> Progress(c, text, done + [t], Feed(m, t).value, l.rest))
  {
    assert done + [] == done;
    if !l.kind.Error? && !l.kind.Eof? && !l.kind.Comment? {
      ProgressToken(c, text, done, m, rest);
    }
  }

  /** The transitions of the parser on every token but a comment and the end of the file. */
  method Transition(stack: ConfigStack, last: TokenType, kind: TokenType, token: string) returns (ok: bool)
    requires stack.Valid() && last == stack.machine.last
    requires kind == Normal || kind == StatementEnd || kind == StartBlock || kind == EndBlock
    modifies stack.Repr
    ensures stack.Valid() && fresh(stack.Repr - old(stack.Repr)) && stack.nodes[0] == old(stack.nodes[0])
    ensures ok == Feed(old(stack.machine), TokenOf(kind, token)).Some?
    ensures ok ==> Some(stack.machine) == Feed(old(stack.machine), TokenOf(kind, token))
    ensures !ok ==> stack.machine == old(stack.machine)
  {
    if kind == Normal {
      if last != Normal {
        stack.StartStatement(token);
      } else {
        stack.ExtendStatement(token);
      }
    } else if kind == StatementEnd {
      if last != Normal {
        return false;
      }
      stack.EndStatement();
    } else if kind == StartBlock {
      if last != Normal {
        return false;
      }
      stack.OpenBlock();
    } else {
      if last != StatementEnd && last != EndBlock && last != StartBlock {
        return false;
      }
      if |stack.nodes| == 1 {
        return false;
      }
      stack.CloseBlock();
    }
    ok := true;
  }

  /** Parses a stream into a configuration object, in place. The object may already hold statements:
      they are kept, and what is read is appended. After a failure the object holds the statements
      that were finished before it, and may have one more that is not. `calls` counts the calls of
      the lexer. */
  method Parse(input: CharStream, config: NginxConfig) returns (ok: bool, ghost calls: nat)
    requires input.Valid() && config.Valid() && input !in config.Repr
    modifies input, config.Repr
    ensures input.Valid()
    ensures ok == ParseInto(old(config.Model), old(input.Rest())).Some?
    ensures ok ==> config.Valid() && Some(config.Model) == ParseInto(old(config.Model), old(input.Rest()))
    ensures config.Holds() && config.Model == Salvaged(old(config.Model), old(input.Rest()))
    ensures |config.statements| <= |config.Model| + 1
    ensures fresh(config.Repr - old(config.Repr))
    ensures calls <= |old(input.Rest())| + 1
  {
    hide Lex;
    hide Tokens;
    hide FeedAll;
    hide Salvaged;
    calls := 0;
    var stack := new ConfigStack(config);
    var last := Start;
    ghost var c, text := config.Model, input.Rest();
    ghost var done: seq<Token> := [];
    ProgressStart(c, text);
    while true
      invariant input.Valid() && stack.Valid() && input !in stack.Repr
      invariant fresh(stack.Repr - old(config.Repr))
      invariant stack.nodes[0] == config && last == stack.machine.last
      invariant Progress(c, text, done, stack.machine, input.Rest())
      invariant calls + |input.Rest()| <= |text|
      decreases |input.Rest()|
    {
      ghost var unread := input.Rest();
      ghost var l := Lex(unread);
      ProgressLexeme(c, text, done, stack.machine, unread, l);
      var kind, token := ParseToken(input);
      calls := calls + 1;
      if kind == Error {
        ProgressStops(c, text, done, stack.machine, unread);
        break;
      }
      if kind == Comment {
        continue;
      }
      if kind == Eof {
        ProgressStops(c, text, done, stack.machine, unread);
        if last == StatementEnd || last == EndBlock || last == Start {
          ok := |stack.nodes| == 1;
          stack.RootHolds();
          return;
        }
        break;
      }
      var fed := Transition(stack, last, kind, token);
      if !fed {
        ProgressStops(c, text, done, stack.machine, unread);
        break;
      }
      done := done + [TokenOf(kind, token)];
      last := kind;
    }
    stack.RootHolds();
    ok := false;
  }
}
