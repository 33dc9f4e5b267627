/** The configuration parser as the program runs it: a character stream that is advanced and
    pushed back, and a tree of objects that is grown in place through a stack of open blocks. */
module ConfigReader {
  import opened ConfigLexer

  /** The part of `std::istream` that the lexer uses. */
  class CharStream {
    const data: string
    var pos: nat
    var good: bool

    ghost predicate Valid()
      reads this
    {
      pos <= |data| && (!good ==> pos == |data|)
    }

    ghost function Rest(): string
      reads this
      requires Valid()
    {
      data[pos..]
    }

    constructor (text: string)
      ensures Valid() && good && Rest() == text
    {
      data := text;
      pos := 0;
      good := true;
    }

    /** Reading at the end of the data clears `good`. */
    method Get() returns (c: char)
      requires Valid() && good
      modifies this
      ensures Valid() && good == (old(pos) < |data|)
      ensures good ==> c == data[old(pos)] && pos == old(pos) + 1
      ensures !good ==> pos == old(pos)
    {
      if pos < |data| {
        c := data[pos];
        pos := pos + 1;
      } else {
        c := '\0';
        good := false;
      }
    }

    method Unget()
      requires Valid() && good && 0 < pos
      modifies this
      ensures Valid() && good && pos == old(pos) - 1
    {
      pos := pos - 1;
    }
  }

  ghost predicate SameToken(a: Lexeme, b: Lexeme) {
    a.kind == b.kind && a.value == b.value && a.rest == b.rest
  }

  /** What is known of the lexeme `l` that is read from `text`, once the reading has come to `n`. */
  ghost predicate Reading(l: Lexeme, text: string, n: nat, state: LexState, value: string, start: nat) {
    && start <= n <= |text|
    && value == text[start..n]
    && (forall j :: start < j < n ==> !Ends(state, text[j]))
    && (if state.InitialWhitespace? then start == n && SameToken(l, Lex(text[n..]))
        else start < n && SameToken(l, LexBody(state, text[start..])))
  }

  /** What the first character that is looked at in the initial state decides. */
  lemma ReadingFirst(l: Lexeme, text: string, n: nat, value: string, start: nat)
    requires Reading(l, text, n, InitialWhitespace, value, start) && n < |text|
    ensures value == "" && value + [text[n]] == [text[n]]
    ensures IsGap(text[n]) ==> Reading(l, text, n + 1, InitialWhitespace, "", n + 1)
    ensures IsPunctuation(text[n]) ==>
              l.kind == PunctuationType(text[n]) && l.value == [text[n]] && l.rest == text[n + 1..]
    ensures !IsGap(text[n]) && !IsPunctuation(text[n]) ==>
              Reading(l, text, n + 1, StateAfter(text[n]), [text[n]], n)
  {
    assert text[n..][1..] == text[n + 1..];
  }

  lemma ReadingMore(l: Lexeme, text: string, n: nat, state: LexState, value: string, start: nat)
    requires Reading(l, text, n, state, value, start) && !state.InitialWhitespace?
    requires n < |text| && !Ends(state, text[n])
    ensures Reading(l, text, n + 1, state, value + [text[n]], start)
  {
    assert text[start..n + 1] == text[start..n] + [text[n]];
  }

  lemma SliceOfSlice(text: string, start: nat, n: nat)
    requires start <= n < |text|
    ensures text[start..][..n - start] == text[start..n]
    ensures text[start..][..n - start + 1] == text[start..n] + [text[n]]
    ensures text[start..][n - start..] == text[n..]
    ensures text[start..][n - start + 1..] == text[n + 1..]
  {
  }

  lemma ReadingDone(l: Lexeme, text: string, n: nat, state: LexState, value: string, start: nat)
    requires Reading(l, text, n, state, value, start) && !state.InitialWhitespace?
    requires n < |text| && Ends(state, text[n])
    ensures state.InWord? ==> SameToken(l, Lexeme(Normal, "", value, "", text[n..]))
    ensures state.InComment? ==> SameToken(l, Lexeme(Comment, "", value, "", text[n + 1..]))
    ensures state.SingleQuote? || state.DoubleQuote? ==>
              SameToken(l, Lexeme(Normal, "", value + [text[n]], "", text[n + 1..]))
  {
    SliceOfSlice(text, start, n);
    ScanEndIs(state, text[start..], 1, n - start);
  }

  lemma ReadingEnd(l: Lexeme, text: string, state: LexState, value: string, start: nat)
    requires Reading(l, text, |text|, state, value, start)
    ensures SameToken(l, Lexeme(if state.SingleQuote? || state.DoubleQuote? then Error else Eof, "", value, "", ""))
  {
    if state.InitialWhitespace? {
      assert text[|text|..] == "";
    } else {
      ScanEndIs(state, text[start..], 1, |text| - start);
    }
  }

  /** Extracts one token. The five states and the push-back compute `Lex` of the unread text. */
  method ParseToken(input: CharStream) returns (kind: TokenType, value: string)
    requires input.Valid()
    modifies input
    ensures input.Valid()
    ensures kind == Lex(old(input.Rest())).kind
    ensures value == Lex(old(input.Rest())).value
    ensures input.Rest() == Lex(old(input.Rest())).rest
  {
    hide Lex;
    hide LexBody;
    var state := InitialWhitespace;
    value := "";
    ghost var text := input.data;
    ghost var l := Lex(input.Rest());
    ghost var start := input.pos;
    while input.good
      invariant input.Valid()
      invariant Reading(l, text, input.pos, state, value, start)
      decreases |input.data| - input.pos, input.good
    {
      ghost var n := input.pos;
      var c := input.Get();
      if !input.good {
        break;
      }
      match state
      case InitialWhitespace =>
        ReadingFirst(l, text, n, value, start);
        if c == '{' {
          return StartBlock, [c];
        } else if c == '}' {
          return EndBlock, [c];
        } else if c == '#' {
          value := [c];
          state := InComment;
        } else if c == '"' {
          value := [c];
          state := DoubleQuote;
        } else if c == '\'' {
          value := [c];
          state := SingleQuote;
        } else if c == ';' {
          return StatementEnd, [c];
        } else if c == ' ' || c == '\t' || c == '\n' || c == '\r' {
          start := n + 1;
          continue;
        } else {
          value := value + [c];
          state := InWord;
        }
        start := n;
      case SingleQuote =>
        if c == '\'' {
          ReadingDone(l, text, n, state, value, start);
          return Normal, value + [c];
        }
        ReadingMore(l, text, n, state, value, start);
        value := value + [c];
      case DoubleQuote =>
        if c == '"' {
          ReadingDone(l, text, n, state, value, start);
          return Normal, value + [c];
        }
        ReadingMore(l, text, n, state, value, start);
        value := value + [c];
      case InComment =>
        if c == '\n' || c == '\r' {
          ReadingDone(l, text, n, state, value, start);
          return Comment, value;
        }
        ReadingMore(l, text, n, state, value, start);
        value := value + [c];
      case InWord =>
        if c == ' ' || c == '\t' || c == '\n' || c == ';' || c == '{' || c == '}' {
          ReadingDone(l, text, n, state, value, start);
          input.Unget();
          return Normal, value;
        }
        ReadingMore(l, text, n, state, value, start);
        value := value + [c];
    }
    ReadingEnd(l, text, state, value, start);
    if state.SingleQuote? || state.DoubleQuote? {
      return Error, value;
    }
    return Eof, value;
  }
}
