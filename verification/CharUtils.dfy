// Character classes shared by the tokenizer and the parser (include/char_utils.hpp).
module CharUtils {

  predicate IsAlpha(c: char) {
    'A' <= c <= 'Z' || 'a' <= c <= 'z'
  }

  predicate IsDigit(c: char) {
    '0' <= c <= '9'
  }

  predicate IsAlphaNumeric(c: char) {
    IsAlpha(c) || IsDigit(c)
  }

  predicate IsNumber(tok: string) {
    |tok| != 0 && forall i | 0 <= i < |tok| :: IsDigit(tok[i])
  }

  predicate IsNumericOp(c: char) {
    c == '+' || c == '-' || c == '*' || c == '/'
  }
}
