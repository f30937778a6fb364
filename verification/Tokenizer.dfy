// The six-state tokenizer (src/tokenizer.cpp), proved to compute the line lexer.
module Tokenizer {
  import opened Wrappers
  import opened CharUtils
  import opened Lexer

  const EOL := "EOL"
  const EOF := "EOF"

  datatype State = START_LINE | START_TOKEN | STRING_TOKEN | TOKEN | END_TOKEN | END_LINE

  datatype TokenizerException = TokenizerException(error: LexError, lineno: nat, col: nat)

  type TokenResult = Result<seq<string>, TokenizerException>

  // The token list of a whole input, or the first bad line with its offending column.
  function TokenizeLines(lines: seq<string>, lineno: nat): TokenResult {
    if lines == [] then
      Success([EOF])
    else match Lex(lines[0])
      case Bad(error, left) =>
        Failure(TokenizerException(error, lineno, if left <= |lines[0]| then |lines[0]| - left else 0))
      case Tokens(ts) =>
        match TokenizeLines(lines[1..], lineno + 1)
        case Failure(e) => Failure(e)
        case Success(us) => Success(ts + [EOL] + us)
  }

  function Append(prefix: seq<string>, r: TokenResult): TokenResult {
    match r
    case Success(ts) => Success(prefix + ts)
    case Failure(e) => Failure(e)
  }

  lemma AppendTwice(a: seq<string>, b: seq<string>, r: TokenResult)
    ensures Append(a, Append(b, r)) == Append(a + b, r)
    ensures Append([], r) == r
  {
    if r.Success? {
      assert [] + r.value == r.value;
      assert a + (b + r.value) == a + b + r.value;
    }
  }

  // Tokenizing fails exactly if some line does, and then reports the first such line and the
  // offending column in it.
  lemma {:induction false} TokenizeReportsFirstBadLine(lines: seq<string>, lineno: nat)
    ensures match TokenizeLines(lines, lineno)
            case Success(_) => forall i | 0 <= i < |lines| :: Lex(lines[i]).Tokens?
            case Failure(e) =>
              && lineno <= e.lineno < lineno + |lines|
              && var bad := Lex(lines[e.lineno - lineno]);
              && e.col <= |lines[e.lineno - lineno]| && bad == Bad(e.error, |lines[e.lineno - lineno]| - e.col)
              && forall i | 0 <= i < e.lineno - lineno :: Lex(lines[i]).Tokens?
    decreases |lines|
  {
    hide Lex;
    if lines != [] {
      if Lex(lines[0]).Bad? {
        BadColumnInLine(lines[0]);
      } else {
        TokenizeReportsFirstBadLine(lines[1..], lineno + 1);
        assert forall i | 1 <= i < |lines| :: lines[i] == lines[1..][i - 1];
      }
    }
  }

  // The states that may follow one another without consuming a character, in decreasing rank.
  // TOKEN counts twice: entered with an empty buffer it must consume next.
  function Rank(state: State, tokbuf: string): nat {
    match state
    case START_LINE => 4
    case TOKEN => if tokbuf == "" then 1 else 4
    case END_TOKEN => 3
    case START_TOKEN => 2
    case STRING_TOKEN => 1
    case END_LINE => 0
  }

  // What each state knows of the token in progress, and what the line has still to yield:
  // `done` are the tokens stored so far, `rest` the characters not yet consumed.
  ghost predicate Tracks(line: string, state: State, done: seq<string>, tokbuf: string, rest: string) {
    match state
    case TOKEN =>
      && (forall k | 0 <= k < |tokbuf| :: IsWordChar(tokbuf[k]))
      && (tokbuf == "" ==> rest != "" && IsWordChar(rest[0]))
      && Lex(line) == Prepend(done, Lex(tokbuf + rest))
    case STRING_TOKEN =>
      && tokbuf != "" && tokbuf[0] == '"'
      && (forall k | 1 <= k < |tokbuf| :: tokbuf[k] != '"')
      && Lex(line) == Prepend(done, Lex(tokbuf + rest))
    case END_TOKEN =>
      Lex(line) == Prepend(done, Prepend([tokbuf], Lex(rest)))
    case END_LINE =>
      Lex(line) == Tokens(done)
    case _ =>
      Lex(line) == Prepend(done, Lex(rest))
  }

  lemma PrependTwice(ts: seq<string>, t: string, r: LexResult)
    ensures Prepend(ts, Prepend([t], r)) == Prepend(ts + [t], r)
    ensures Prepend(ts, Tokens([])) == Tokens(ts)
    ensures Prepend([], r) == r
  {
    if r.Tokens? {
      assert ts + ([t] + r.tokens) == ts + [t] + r.tokens;
      assert [] + r.tokens == r.tokens;
    }
  }

  lemma Begins(line: string)
    ensures Tracks(line, START_LINE, [], "", line)
  {
    PrependTwice([], "", Lex(line));
  }

  lemma LexBetweenTokens(rest: string)
    ensures rest == "" || rest[0] == ';' ==> Lex(rest) == Tokens([])
    ensures rest != "" && rest[0] == ' ' ==> Lex(rest) == Lex(rest[1..])
    ensures rest != "" && IsSymbol(rest[0]) ==> Lex(rest) == Prepend([[rest[0]]], Lex(rest[1..]))
    ensures rest != "" && !IsWordChar(rest[0]) && !IsSymbol(rest[0]) && rest[0] !in {' ', ';', '"'} ==>
              Lex(rest) == Bad(InvalidToken, |rest|)
  {
    if rest != "" && IsSymbol(rest[0]) {
      assert [rest[0]] + rest[1..] == rest;
      LexSymbol([rest[0]], rest[1..]);
    }
  }

  // Between tokens.
  lemma TokenStarts(line: string, state: State, done: seq<string>, tokbuf: string, rest: string)
    requires Tracks(line, state, done, tokbuf, rest) && state in {START_LINE, START_TOKEN}
    ensures Tracks(line, START_TOKEN, done, "", rest)
    ensures rest == "" || rest[0] == ';' ==> Tracks(line, END_LINE, done, "", rest)
    ensures rest != "" && rest[0] == ' ' ==> Tracks(line, state, done, "", rest[1..])
    ensures rest != "" && IsWordChar(rest[0]) ==> Tracks(line, TOKEN, done, "", rest)
    ensures rest != "" && rest[0] == '"' ==> Tracks(line, STRING_TOKEN, done, "" + [rest[0]], rest[1..])
    ensures rest != "" && IsSymbol(rest[0]) ==> Tracks(line, END_TOKEN, done, "" + [rest[0]], rest[1..])
    ensures rest != "" && !IsWordChar(rest[0]) && !IsSymbol(rest[0]) && rest[0] !in {' ', ';', '"'} ==>
              Lex(line) == Bad(InvalidToken, |rest|)
  {
    assert "" + rest == rest;
    PrependTwice(done, "", Tokens([]));
    LexBetweenTokens(rest);
    hide Lex;
    if rest != "" {
      assert "" + [rest[0]] == [rest[0]];
      assert [rest[0]] + rest[1..] == rest;
    }
  }

  // Inside a quoted string.
  lemma StringGoesOn(line: string, done: seq<string>, tokbuf: string, rest: string)
    requires Tracks(line, STRING_TOKEN, done, tokbuf, rest)
    ensures rest == "" ==> Lex(line) == Bad(UnterminatedString, 0)
    ensures rest != "" && rest[0] == '"' ==> Tracks(line, END_TOKEN, done, tokbuf + [rest[0]], rest[1..])
    ensures rest != "" && rest[0] != '"' ==> Tracks(line, STRING_TOKEN, done, tokbuf + [rest[0]], rest[1..])
  {
    if rest == "" {
      assert tokbuf + rest == tokbuf;
      assert QuoteLength(tokbuf[1..]) == |tokbuf| - 1;
    } else {
      var t := tokbuf + [rest[0]];
      assert tokbuf + rest == t + rest[1..];
      if rest[0] == '"' {
        assert IsQuoted(t);
        LexOneToken(t, rest[1..]);
      }
    }
  }

  // Inside a word.
  lemma WordGoesOn(line: string, done: seq<string>, tokbuf: string, rest: string)
    requires Tracks(line, TOKEN, done, tokbuf, rest)
    ensures rest == "" || EndsWord(rest[0]) ==> Tracks(line, END_TOKEN, done, tokbuf, rest)
    ensures rest != "" && rest[0] == ' ' ==> Tracks(line, END_TOKEN, done, tokbuf, rest[1..])
    ensures rest != "" && IsWordChar(rest[0]) ==> Tracks(line, TOKEN, done, tokbuf + [rest[0]], rest[1..])
    ensures rest != "" && !IsWordChar(rest[0]) && !EndsWord(rest[0]) ==> Lex(line) == Bad(InvalidToken, |rest|)
  {
    if rest == "" || EndsWord(rest[0]) {
      LexOneToken(tokbuf, rest);
    } else if IsWordChar(rest[0]) {
      assert tokbuf + rest == tokbuf + [rest[0]] + rest[1..];
    } else {
      var s := tokbuf + rest;
      assert s[|tokbuf|] == rest[0];
      assert WordLength(s) == |tokbuf|;
    }
  }

  lemma TokenStored(line: string, done: seq<string>, tokbuf: string, rest: string)
    requires Tracks(line, END_TOKEN, done, tokbuf, rest)
    ensures Tracks(line, START_TOKEN, done + [tokbuf], "", rest)
  {
    PrependTwice(done, tokbuf, Lex(rest));
  }

  lemma EmptyWordHasMore(line: string, done: seq<string>, rest: string)
    requires Tracks(line, TOKEN, done, "", rest)
    ensures rest != "" && IsWordChar(rest[0])
  {
  }

  lemma LineEnds(line: string, done: seq<string>, tokbuf: string, rest: string)
    requires Tracks(line, END_LINE, done, tokbuf, rest)
    ensures Lex(line) == Tokens(done)
  {
  }

  // One line through the state machine. `lineno` is the number of lines finished so far.
  method TokenizeLine(line: string, tokens: seq<string>, lineno: nat) returns (r: TokenResult)
    ensures match Lex(line)
            case Tokens(ts) => r == Success(tokens + ts)
            case Bad(error, left) =>
              left <= |line| && r == Failure(TokenizerException(error, lineno, |line| - left))
  {
    hide Tracks, Lex;
    var state := START_LINE;
    var pos, tokbuf := 0, "";
    var out := tokens;
    ghost var done: seq<string> := [];
    ghost var rest := line;
    Begins(line);
    while state != END_LINE
      invariant pos <= |line| && rest == line[pos..]
      invariant out == tokens + done
      invariant Tracks(line, state, done, tokbuf, rest)
      decreases |line| - pos, Rank(state, tokbuf)
    {
      var curr := if pos < |line| then line[pos] else '\0';
      match state {
        case START_LINE =>
          TokenStarts(line, state, done, tokbuf, rest);
          tokbuf := "";
          if pos >= |line| {
            state := END_LINE;
          } else if curr == ' ' {
            pos := pos + 1;
          } else {
            state := START_TOKEN;
          }
        case START_TOKEN =>
          TokenStarts(line, state, done, tokbuf, rest);
          tokbuf := "";
          if pos >= |line| || curr == ';' {
            state := END_LINE;
          } else if curr == ' ' {
            pos := pos + 1;
          } else if IsAlphaNumeric(curr) || curr == '.' || curr == '_' || curr == '\\' {
            state := TOKEN;
          } else if curr == '"' {
            tokbuf := tokbuf + [curr];
            pos := pos + 1;
            state := STRING_TOKEN;
          } else if curr == '(' || curr == ')' || curr == ',' {
            tokbuf := tokbuf + [curr];
            pos := pos + 1;
            state := END_TOKEN;
          } else if IsNumericOp(curr) {
            tokbuf := tokbuf + [curr];
            pos := pos + 1;
            state := END_TOKEN;
          } else {
            return Failure(TokenizerException(InvalidToken, lineno, pos));
          }
        case STRING_TOKEN =>
          StringGoesOn(line, done, tokbuf, rest);
          if pos >= |line| {
            return Failure(TokenizerException(UnterminatedString, lineno, pos));
          } else if curr == '"' {
            tokbuf := tokbuf + [curr];
            pos := pos + 1;
            state := END_TOKEN;
          } else {
            tokbuf := tokbuf + [curr];
            pos := pos + 1;
          }
        case TOKEN =>
          WordGoesOn(line, done, tokbuf, rest);
          if tokbuf == "" {
            EmptyWordHasMore(line, done, rest);
          }
          if pos >= |line| {
            state := END_TOKEN;
          } else if curr == ' ' {
            pos := pos + 1;
            state := END_TOKEN;
          } else if IsNumericOp(curr) {
            state := END_TOKEN;
          } else if curr == ',' || curr == ')' {
            state := END_TOKEN;
          } else if IsAlphaNumeric(curr) || curr == '.' || curr == '_' || curr == '\\' {
            tokbuf := tokbuf + [curr];
            pos := pos + 1;
          } else {
            return Failure(TokenizerException(InvalidToken, lineno, pos));
          }
        case END_TOKEN =>
          TokenStored(line, done, tokbuf, rest);
          out := out + [tokbuf];
          done := done + [tokbuf];
          tokbuf := "";
          state := START_TOKEN;
      }
      rest := line[pos..];
    }
    LineEnds(line, done, tokbuf, rest);
    r := Success(out);
  }

  // The whole input: every line, a line mark after each, and the end mark.
  method Tokenize(lines: seq<string>) returns (r: TokenResult)
    ensures r == TokenizeLines(lines, 0)
  {
    var tokens: seq<string> := [];
    var lineno := 0;
    assert lines[0..] == lines;
    AppendTwice([], [], TokenizeLines(lines, 0));
    while lineno < |lines|
      invariant lineno <= |lines|
      invariant TokenizeLines(lines, 0) == Append(tokens, TokenizeLines(lines[lineno..], lineno))
    {
      assert lines[lineno..][1..] == lines[lineno + 1..];
      ghost var before, rest := tokens, TokenizeLines(lines[lineno + 1..], lineno + 1);
      if Lex(lines[lineno]).Tokens? {
        AppendTwice(before, Lex(lines[lineno]).tokens + [EOL], rest);
      }
      tokens :- TokenizeLine(lines[lineno], tokens, lineno);
      tokens := tokens + [EOL];
      assert tokens == before + (Lex(lines[lineno]).tokens + [EOL]);
      lineno := lineno + 1;
    }
    r := Success(tokens + [EOF]);
  }
}
