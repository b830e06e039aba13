/** Character classes used by the tokenizer's regular expressions. */
module Text {

  /** An ASCII capital letter, the only characters the model lowercases. */
  predicate IsAsciiUpper(c: char) {
    'A' <= c <= 'Z'
  }

  /** A carriage return or a line feed. */
  predicate IsLineBreak(c: char) {
    c == '\r' || c == '\n'
  }

  /** One of the twenty-one punctuation characters that tokenizing deletes outright. */
  predicate IsStripped(c: char) {
    c == '.' || c == ',' || c == '/' || c == '#' || c == '!' || c == '$' || c == '%'
    || c == '^' || c == '&' || c == '*' || c == ';' || c == ':' || c == '{' || c == '}'
    || c == '=' || c == '_' || c == '`' || c == '"' || c == '~' || c == '(' || c == ')'
  }

  /** A character matched by the ECMAScript class `\s`
      (WhiteSpace and LineTerminator code points). */
  predicate IsWhitespace(c: char) {
    c == '\t' || c == '\n' || c == '\U{000B}' || c == '\U{000C}' || c == '\r' || c == ' '
    || c == '\U{00A0}' || c == '\U{1680}' || ('\U{2000}' <= c <= '\U{200A}')
    || c == '\U{2028}' || c == '\U{2029}' || c == '\U{202F}' || c == '\U{205F}'
    || c == '\U{3000}' || c == '\U{FEFF}'
  }

  /** Simple (ASCII) lowercasing of one character. */
  function ToLower(c: char): (r: char)
    ensures !IsAsciiUpper(r)
    ensures IsAsciiUpper(c) ==> r as int == c as int + 32
    ensures !IsAsciiUpper(c) ==> r == c
  {
    if IsAsciiUpper(c) then (c as int + 32) as char else c
  }
}
