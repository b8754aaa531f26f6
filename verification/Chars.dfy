/** Character classes of the C locale. */
module Chars {

  predicate IsSpace(c: char) {
    c == ' ' || c == '\n' || c == '\r' || c == '\t' || c == '\U{0B}' || c == '\U{0C}'
  }
}
