// The lexical grammar of one source line, as a longest-match function and as a
// declarative relation between a line and its tokens.
module Lexer {
  import opened CharUtils

  datatype LexError = InvalidToken | UnterminatedString

  // `left` is the number of characters from the offending column to the end of the line.
  datatype LexResult = Tokens(tokens: seq<string>) | Bad(error: LexError, left: nat)

  predicate IsWordChar(c: char) {
    IsAlphaNumeric(c) || c == '.' || c == '_' || c == '\\'
  }

  predicate IsSymbol(c: char) {
    c == '(' || c == ')' || c == ',' || IsNumericOp(c)
  }

  // The characters that may follow a word directly.
  predicate EndsWord(c: char) {
    c == ' ' || c == ',' || c == ')' || IsNumericOp(c)
  }

  function WordLength(s: string): (n: nat)
    ensures n <= |s|
    ensures forall k | 0 <= k < n :: IsWordChar(s[k])
    ensures n < |s| ==> !IsWordChar(s[n])
  {
    if s != "" && IsWordChar(s[0]) then 1 + WordLength(s[1..]) else 0
  }

  // The number of characters before the next double quote.
  function QuoteLength(s: string): (n: nat)
    ensures n <= |s|
    ensures forall k | 0 <= k < n :: s[k] != '"'
    ensures n < |s| ==> s[n] == '"'
  {
    if s != "" && s[0] != '"' then 1 + QuoteLength(s[1..]) else 0
  }

  function Prepend(ts: seq<string>, r: LexResult): LexResult {
    match r
    case Tokens(us) => Tokens(ts + us)
    case Bad(_, _) => r
  }

  function Lex(s: string): LexResult
    decreases |s|
  {
    if s == "" || s[0] == ';' then
      Tokens([])
    else if s[0] == ' ' then
      Lex(s[1..])
    else if IsWordChar(s[0]) then
      var n := WordLength(s);
      if n == |s| || EndsWord(s[n]) then Prepend([s[..n]], Lex(s[n..]))
      else Bad(InvalidToken, |s| - n)
    else if s[0] == '"' then
      var n := 1 + QuoteLength(s[1..]);
      if n == |s| then Bad(UnterminatedString, 0)
      else Prepend([s[..n + 1]], Lex(s[n + 1..]))
    else if IsSymbol(s[0]) then
      Prepend([s[..1]], Lex(s[1..]))
    else
      Bad(InvalidToken, |s|)
  }

  // ---------- Declarative reading of a line ----------

  predicate IsWord(t: string) {
    t != "" && forall k | 0 <= k < |t| :: IsWordChar(t[k])
  }

  predicate IsQuoted(t: string) {
    |t| >= 2 && t[0] == '"' && t[|t| - 1] == '"' && forall k | 0 < k < |t| - 1 :: t[k] != '"'
  }

  predicate IsToken(t: string) {
    IsWord(t) || IsQuoted(t) || (|t| == 1 && IsSymbol(t[0]))
  }

  function SkipSpaces(s: string): string {
    if s != "" && s[0] == ' ' then SkipSpaces(s[1..]) else s
  }

  // `s` spells `ts`: spaces are free before every token, a comment may close the line, and a
  // word touches only a space, a closing symbol, an operator or the end of the line.
  predicate Spells(s: string, ts: seq<string>)
    decreases |ts|
  {
    var r := SkipSpaces(s);
    if ts == [] then
      r == "" || r[0] == ';'
    else
      && IsToken(ts[0])
      && ts[0] <= r
      && var rest := r[|ts[0]|..];
      && (IsWord(ts[0]) && rest != "" ==> EndsWord(rest[0]))
      && Spells(rest, ts[1..])
  }

  lemma SkipSpacesShape(s: string)
    ensures |SkipSpaces(s)| <= |s|
    ensures SkipSpaces(s) != "" ==> SkipSpaces(s)[0] != ' '
    ensures Lex(SkipSpaces(s)) == Lex(s)
  {
  }

  lemma WordLengthOf(t: string, rest: string)
    requires forall k | 0 <= k < |t| :: IsWordChar(t[k])
    requires rest != "" ==> !IsWordChar(rest[0])
    ensures WordLength(t + rest) == |t|
  {
    var r := t + rest;
    assert forall k | 0 <= k < |t| :: r[k] == t[k];
    assert rest != "" ==> r[|t|] == rest[0];
  }

  lemma QuoteLengthOf(t: string, rest: string)
    requires forall k | 0 <= k < |t| :: t[k] != '"'
    requires rest != "" ==> rest[0] == '"'
    ensures QuoteLength(t + rest) == |t|
  {
    var r := t + rest;
    assert forall k | 0 <= k < |t| :: r[k] == t[k];
    assert rest != "" ==> r[|t|] == rest[0];
  }

  lemma LexWord(t: string, rest: string)
    requires IsWord(t) && (rest != "" ==> !IsWordChar(rest[0]))
    ensures Lex(t + rest) == if rest == "" || EndsWord(rest[0]) then Prepend([t], Lex(rest))
                             else Bad(InvalidToken, |rest|)
  {
    WordLengthOf(t, rest);
    var r := t + rest;
    assert r[..|t|] == t && r[|t|..] == rest && r[0] == t[0];
  }

  lemma QuotedLength(t: string, rest: string)
    requires IsQuoted(t)
    ensures 1 + QuoteLength((t + rest)[1..]) == |t| - 1
  {
    var inner := t[1..|t| - 1];
    QuoteLengthOf(inner, ['"'] + rest);
    assert (t + rest)[1..] == inner + (['"'] + rest);
  }

  lemma LexQuoted(t: string, rest: string)
    requires IsQuoted(t)
    ensures Lex(t + rest) == Prepend([t], Lex(rest))
  {
    hide QuoteLength, WordLength, EndsWord;
    QuotedLength(t, rest);
    var r := t + rest;
    assert r[..|t|] == t && r[|t|..] == rest && r[0] == '"';
  }

  lemma LexSymbol(t: string, rest: string)
    requires |t| == 1 && IsSymbol(t[0])
    ensures Lex(t + rest) == Prepend([t], Lex(rest))
  {
    var r := t + rest;
    assert r[..1] == t && r[1..] == rest;
  }

  // One token at the start of a line is cut off whole.
  lemma LexOneToken(t: string, rest: string)
    requires IsToken(t)
    requires IsWord(t) && rest != "" ==> EndsWord(rest[0])
    ensures Lex(t + rest) == Prepend([t], Lex(rest))
  {
    hide Lex;
    if IsWord(t) {
      LexWord(t, rest);
    } else if IsQuoted(t) {
      LexQuoted(t, rest);
    } else {
      LexSymbol(t, rest);
    }
  }

  // What a successful run of the lexer at the start of a token has cut off.
  lemma FirstToken(r: string)
    requires Lex(r).Tokens? && r != "" && r[0] != ' ' && r[0] != ';'
    ensures |Lex(r).tokens| > 0
    ensures var t := Lex(r).tokens[0];
      && IsToken(t)
      && t <= r
      && (IsWord(t) && |t| < |r| ==> EndsWord(r[|t|]))
      && Lex(r[|t|..]) == Tokens(Lex(r).tokens[1..])
  {
  }

  lemma {:induction false} LexSpells(s: string)
    requires Lex(s).Tokens?
    ensures Spells(s, Lex(s).tokens)
    decreases |s|
  {
    var r := SkipSpaces(s);
    SkipSpacesShape(s);
    if r != "" && r[0] != ';' {
      FirstToken(r);
      LexSpells(r[|Lex(r).tokens[0]|..]);
    }
  }

  lemma {:induction false} SpelledLexes(s: string, ts: seq<string>)
    requires Spells(s, ts)
    ensures Lex(s) == Tokens(ts)
    decreases |ts|
  {
    var r := SkipSpaces(s);
    SkipSpacesShape(s);
    if ts != [] {
      var rest := r[|ts[0]|..];
      assert r == ts[0] + rest;
      LexOneToken(ts[0], rest);
      SpelledLexes(rest, ts[1..]);
      assert ts == [ts[0]] + ts[1..];
    }
  }

  // The longest-match lexer accepts exactly the lines the relation allows, with exactly the
  // tokens they spell; so it rejects a line precisely when the line spells no token list.
  lemma LexIffSpells(s: string, ts: seq<string>)
    ensures Lex(s) == Tokens(ts) <==> Spells(s, ts)
  {
    if Spells(s, ts) {
      SpelledLexes(s, ts);
    }
    if Lex(s) == Tokens(ts) {
      LexSpells(s);
    }
  }

  // ---------- Consequences ----------

  lemma {:induction false} LexedTokensAreTokens(s: string)
    requires Lex(s).Tokens?
    ensures forall t | t in Lex(s).tokens :: IsToken(t)
    decreases |s|
  {
    var r := SkipSpaces(s);
    SkipSpacesShape(s);
    if r != "" && r[0] != ';' {
      FirstToken(r);
      var ts := Lex(r).tokens;
      LexedTokensAreTokens(r[|ts[0]|..]);
      assert ts == [ts[0]] + ts[1..];
    }
  }

  // Tokens written out with single spaces between them.
  function Spaced(ts: seq<string>): string {
    if ts == [] then "" else if |ts| == 1 then ts[0] else ts[0] + " " + Spaced(ts[1..])
  }

  lemma {:induction false} SpacedSpells(ts: seq<string>)
    requires forall t | t in ts :: IsToken(t)
    ensures Spells(Spaced(ts), ts)
  {
    if |ts| > 0 {
      assert IsToken(ts[0]);
      assert ts[0][0] != ' ';
    }
    if |ts| > 1 {
      SpacedSpells(ts[1..]);
      var rest := " " + Spaced(ts[1..]);
      assert rest[1..] == Spaced(ts[1..]);
      assert Spaced(ts) == ts[0] + rest;
      assert SkipSpaces(Spaced(ts)) == Spaced(ts);
      assert Spaced(ts)[|ts[0]|..] == rest;
      assert SkipSpaces(rest) == SkipSpaces(Spaced(ts[1..]));
      assert Spells(rest, ts[1..]);
    } else if |ts| == 1 {
      assert ts[0][|ts[0]|..] == "";
      assert SkipSpaces(ts[0]) == ts[0];
    }
  }

  // Space-separated tokens lex back to themselves exactly when each of them is a token.
  lemma SpacedRelexes(ts: seq<string>)
    ensures Lex(Spaced(ts)) == Tokens(ts) <==> forall t | t in ts :: IsToken(t)
  {
    if forall t | t in ts :: IsToken(t) {
      SpacedSpells(ts);
      SpelledLexes(Spaced(ts), ts);
    }
    if Lex(Spaced(ts)) == Tokens(ts) {
      LexedTokensAreTokens(Spaced(ts));
    }
  }

  // Every accepted line re-lexes to the same tokens after being normalised to single spaces.
  lemma RelexNormalised(s: string)
    requires Lex(s).Tokens?
    ensures Lex(Spaced(Lex(s).tokens)) == Lex(s)
  {
    LexedTokensAreTokens(s);
    SpacedRelexes(Lex(s).tokens);
  }

  // The characters of a line that carry meaning, found without any notion of token: all of
  // them except the spaces outside quotes and everything from the first unquoted semicolon.
  function Significant(s: string, quoted: bool): string {
    if s == "" then ""
    else if quoted then [s[0]] + Significant(s[1..], s[0] != '"')
    else if s[0] == ';' then ""
    else if s[0] == ' ' then Significant(s[1..], false)
    else [s[0]] + Significant(s[1..], s[0] == '"')
  }

  function Flatten(ts: seq<string>): string {
    if ts == [] then "" else ts[0] + Flatten(ts[1..])
  }

  // A stretch without spaces, semicolons and quotes is significant as it stands.
  lemma {:induction false} SignificantPlain(t: string, rest: string)
    requires forall k | 0 <= k < |t| :: t[k] != ' ' && t[k] != ';' && t[k] != '"'
    ensures Significant(t + rest, false) == t + Significant(rest, false)
  {
    if t == "" {
      assert t + rest == rest;
    } else {
      assert (t + rest)[1..] == t[1..] + rest;
      SignificantPlain(t[1..], rest);
    }
  }

  // The inside of a quoted string up to and including its closing quote is significant.
  lemma {:induction false} SignificantQuoted(t: string, rest: string)
    requires t != "" && t[|t| - 1] == '"' && forall k | 0 <= k < |t| - 1 :: t[k] != '"'
    ensures Significant(t + rest, true) == t + Significant(rest, false)
  {
    assert (t + rest)[1..] == t[1..] + rest;
    if |t| > 1 {
      SignificantQuoted(t[1..], rest);
    } else {
      assert t[1..] + rest == rest;
    }
  }

  lemma SignificantToken(t: string, rest: string)
    requires IsToken(t)
    ensures Significant(t + rest, false) == t + Significant(rest, false)
  {
    if IsQuoted(t) {
      assert (t + rest)[1..] == t[1..] + rest;
      SignificantQuoted(t[1..], rest);
    } else {
      SignificantPlain(t, rest);
    }
  }

  lemma SkipSpacesSignificant(s: string)
    ensures Significant(SkipSpaces(s), false) == Significant(s, false)
  {
  }

  // No significant character is lost, invented or reordered.
  lemma {:induction false} LexConservesCharacters(s: string)
    requires Lex(s).Tokens?
    ensures Flatten(Lex(s).tokens) == Significant(s, false)
    decreases |s|
  {
    var r := SkipSpaces(s);
    SkipSpacesShape(s);
    SkipSpacesSignificant(s);
    if r != "" && r[0] != ';' {
      FirstToken(r);
      var t := Lex(r).tokens[0];
      var rest := r[|t|..];
      assert r == t + rest;
      SignificantToken(t, rest);
      LexConservesCharacters(rest);
    }
  }

  // `s` goes wrong at `col`: everything before it lexes, no continuation from there on does.
  predicate GoesWrongAt(s: string, col: nat, continuation: string) {
    && col < |s|
    && Lex(s[..col]).Tokens?
    && Lex(s[..col + 1] + continuation) == Bad(InvalidToken, 1 + |continuation|)
  }

  lemma BadAfterWord(t: string, rest: string, continuation: string)
    requires IsWord(t) && rest != "" && !IsWordChar(rest[0]) && !EndsWord(rest[0])
    ensures GoesWrongAt(t + rest, |t|, continuation)
  {
    hide Lex;
    var s := t + rest;
    assert s[..|t|] == t == t + "";
    assert s[..|t| + 1] + continuation == t + ([rest[0]] + continuation);
    LexWord(t, "");
    LexWord(t, [rest[0]] + continuation);
    LexEmpty();
  }

  lemma LexEmpty()
    ensures Lex("") == Tokens([])
  {
  }

  lemma LexAfterSpace(s: string)
    ensures Lex(" " + s) == Lex(s)
  {
    assert (" " + s)[1..] == s;
  }

  lemma BadAtOnce(s: string, continuation: string)
    requires s != "" && !IsWordChar(s[0]) && !IsSymbol(s[0]) && s[0] !in {' ', ';', '"'}
    ensures GoesWrongAt(s, 0, continuation)
  {
    assert (s[..1] + continuation)[0] == s[0];
  }

  lemma {:induction false} BadColumnInLine(s: string)
    requires Lex(s).Bad?
    ensures Lex(s).left <= |s|
    decreases |s|
  {
    if s[0] == ' ' || IsSymbol(s[0]) {
      BadColumnInLine(s[1..]);
    } else if IsWordChar(s[0]) && EndsWord(s[WordLength(s)]) {
      BadColumnInLine(s[WordLength(s)..]);
    } else if s[0] == '"' && 1 + QuoteLength(s[1..]) < |s| {
      BadColumnInLine(s[2 + QuoteLength(s[1..])..]);
    }
  }

  // Right behind a word the line goes wrong exactly when neither a space nor a comma, a closing
  // parenthesis or an operator follows; an opening parenthesis, a quote or a semicolon does not
  // end a word.
  lemma GluedToWord(t: string, rest: string)
    requires IsWord(t) && rest != "" && !IsWordChar(rest[0])
    ensures Lex(t + rest) == Bad(InvalidToken, |rest|) <==> rest[0] !in {' ', ',', ')', '+', '-', '*', '/'}
  {
    LexWord(t, rest);
    if EndsWord(rest[0]) && Lex(rest[1..]).Bad? {
      BadColumnInLine(rest[1..]);
    }
  }

  // Where the lexer meets an invalid character: at once, behind a word, or further on, after a
  // leading space or token.
  lemma InvalidTokenCases(s: string) returns (t: string, rest: string)
    requires s != "" && Lex(s).Bad? && Lex(s).error == InvalidToken
    ensures s == t + rest
    ensures if t == "" then !IsWordChar(s[0]) && !IsSymbol(s[0]) && s[0] !in {' ', ';', '"'} && Lex(s).left == |s|
            else if IsWord(t) && rest != "" && !EndsWord(rest[0])
            then !IsWordChar(rest[0]) && Lex(s).left == |rest|
            else Lex(rest) == Lex(s) && (t == " " || IsToken(t))
  {
    var n := if IsWordChar(s[0]) then WordLength(s)
             else if s[0] == '"' then 2 + QuoteLength(s[1..])
             else if s[0] == ' ' || IsSymbol(s[0]) then 1 else 0;
    t, rest := s[..n], s[n..];
    assert forall k | 0 <= k < n :: t[k] == s[k];
  }

  lemma SliceShift(t: string, rest: string, col: nat, continuation: string)
    requires col < |rest|
    ensures (t + rest)[..|t| + col] == t + rest[..col]
    ensures (t + rest)[..|t| + col + 1] + continuation == t + (rest[..col + 1] + continuation)
  {
  }

  lemma WrongAfterSpace(rest: string, col: nat, continuation: string)
    requires GoesWrongAt(rest, col, continuation)
    ensures GoesWrongAt(" " + rest, 1 + col, continuation)
  {
    hide Lex;
    SliceShift(" ", rest, col, continuation);
    LexAfterSpace(rest[..col]);
    LexAfterSpace(rest[..col + 1] + continuation);
  }

  lemma WrongAfterToken(t: string, rest: string, col: nat, continuation: string)
    requires IsToken(t)
    requires IsWord(t) && rest != "" ==> EndsWord(rest[0])
    requires GoesWrongAt(rest, col, continuation)
    ensures GoesWrongAt(t + rest, |t| + col, continuation)
  {
    hide Lex;
    var a, b := rest[..col], rest[..col + 1] + continuation;
    SliceShift(t, rest, col, continuation);
    assert a != "" ==> a[0] == rest[0];
    assert b[0] == rest[0];
    LexOneToken(t, a);
    LexOneToken(t, b);
  }

  // An invalid character is reported at the first column where the line can no longer be
  // completed.
  lemma {:induction false} InvalidTokenColumn(s: string, continuation: string)
    requires Lex(s).Bad? && Lex(s).error == InvalidToken
    ensures 0 < Lex(s).left <= |s|
    ensures GoesWrongAt(s, |s| - Lex(s).left, continuation)
    decreases |s|
  {
    hide GoesWrongAt, Lex;
    LexEmpty();
    var t, rest := InvalidTokenCases(s);
    if t == "" {
      BadAtOnce(s, continuation);
    } else if IsWord(t) && rest != "" && !EndsWord(rest[0]) {
      BadAfterWord(t, rest, continuation);
    } else {
      InvalidTokenColumn(rest, continuation);
      if t == " " {
        WrongAfterSpace(rest, |rest| - Lex(rest).left, continuation);
      } else {
        WrongAfterToken(t, rest, |rest| - Lex(rest).left, continuation);
      }
    }
  }

  // Where the lexer meets the end of the line inside a quoted string: at once, or further on,
  // after a leading space or token.
  lemma UnterminatedCases(s: string) returns (t: string, rest: string)
    requires Lex(s).Bad? && Lex(s).error == UnterminatedString
    ensures s == t + rest
    ensures if t == "" then Lex(s).left == 0 && IsQuoted(s + ['"'])
            else Lex(rest) == Lex(s) && (t == " " || IsToken(t)) && (IsWord(t) && rest != "" ==> EndsWord(rest[0]))
  {
    hide IsQuoted;
    t, rest := "", s;
    if IsWordChar(s[0]) {
      t, rest := s[..WordLength(s)], s[WordLength(s)..];
    } else if s[0] == '"' {
      var n := 1 + QuoteLength(s[1..]);
      if n == |s| {
        OpenQuote(s);
      } else {
        t, rest := s[..n + 1], s[n + 1..];
        ClosedQuote(s);
      }
    } else {
      t, rest := s[..1], s[1..];
    }
  }

  lemma OpenQuote(s: string)
    requires s != "" && s[0] == '"' && 1 + QuoteLength(s[1..]) == |s|
    ensures IsQuoted(s + ['"'])
  {
  }

  lemma ClosedQuote(s: string)
    requires s != "" && s[0] == '"' && 1 + QuoteLength(s[1..]) < |s|
    ensures IsQuoted(s[..2 + QuoteLength(s[1..])])
  {
  }

  lemma {:induction false} UnterminatedIsCompleted(s: string)
    requires Lex(s).Bad? && Lex(s).error == UnterminatedString
    ensures Lex(s).left == 0 && Lex(s + ['"']).Tokens?
    decreases |s|
  {
    hide Lex, IsQuoted;
    LexEmpty();
    var t, rest := UnterminatedCases(s);
    if t == "" {
      assert s + ['"'] + "" == s + ['"'];
      LexOneToken(s + ['"'], "");
    } else {
      UnterminatedIsCompleted(rest);
      assert s + ['"'] == t + (rest + ['"']);
      assert rest != "" ==> (rest + ['"'])[0] == rest[0];
      if t == " " {
        LexAfterSpace(rest + ['"']);
      } else {
        LexOneToken(t, rest + ['"']);
      }
    }
  }

  lemma InvalidIsNeverCompleted(s: string, continuation: string)
    requires Lex(s).Bad? && Lex(s).error == InvalidToken
    ensures Lex(s + continuation).Bad?
  {
    hide Lex;
    var any := "";
    InvalidTokenColumn(s, any);
    var col := |s| - Lex(s).left;
    InvalidTokenColumn(s, s[col + 1..] + continuation);
    assert s[..col + 1] + (s[col + 1..] + continuation) == s + continuation;
  }

  // A line that fails does so for an unterminated string, at its end, exactly when a closing
  // quote would complete it, and exactly when anything would.
  lemma UnterminatedIff(s: string)
    requires Lex(s).Bad?
    ensures Lex(s) == Bad(UnterminatedString, 0) <==> Lex(s + ['"']).Tokens?
    ensures Lex(s) == Bad(UnterminatedString, 0) <==> exists continuation :: Lex(s + continuation).Tokens?
  {
    hide Lex;
    if Lex(s).error == UnterminatedString {
      UnterminatedIsCompleted(s);
    } else {
      forall continuation: string
        ensures Lex(s + continuation).Bad?
      {
        InvalidIsNeverCompleted(s, continuation);
      }
    }
  }

  // ---------- Character by character ----------

  // What a single character is as a line: a token, nothing, the start of a string, or an error.
  lemma LexOneCharacter(c: char)
    ensures Lex([c]) == Tokens([[c]]) <==>
              || 'a' <= c <= 'z' || 'A' <= c <= 'Z' || '0' <= c <= '9'
              || c in {'.', '_', '\\', '(', ')', ',', '+', '-', '*', '/'}
    ensures Lex([c]) == Tokens([]) <==> c == ' ' || c == ';'
    ensures Lex([c]) == Bad(UnterminatedString, 0) <==> c == '"'
    ensures Lex([c]).Tokens? ==> Lex([c]) == Tokens([[c]]) || Lex([c]) == Tokens([])
    ensures Lex([c]).Bad? && c != '"' ==> Lex([c]) == Bad(InvalidToken, 1)
  {
    LexEmpty();
    assert [c][1..] == "" && [c][..1] == [c] && [c] + "" == [c];
    if IsWordChar(c) {
      LexWord([c], "");
    }
  }

  // Exactly these characters make a word longer.
  lemma WordGrowsIff(t: string, c: char)
    requires IsWord(t)
    ensures Lex(t + [c]) == Tokens([t + [c]]) <==>
              'a' <= c <= 'z' || 'A' <= c <= 'Z' || '0' <= c <= '9' || c == '.' || c == '_' || c == '\\'
  {
    LexEmpty();
    if IsWordChar(c) {
      LexWord(t + [c], "");
      assert t + [c] + "" == t + [c];
    } else {
      hide Lex;
      LexWord(t, [c]);
      if EndsWord(c) && Lex([c]).Tokens? {
        assert Prepend([t], Lex([c])).tokens[0] == t != t + [c];
      }
    }
  }

  // Anything but a quote may stand between quotes.
  lemma QuotedTakesAnything(inner: string)
    requires '"' !in inner
    ensures Lex("\"" + inner + "\"") == Tokens(["\"" + inner + "\""])
  {
    hide Lex;
    var t := "\"" + inner + "\"";
    assert IsQuoted(t) && t + "" == t;
    LexEmpty();
    LexOneToken(t, "");
  }
}
