/** Tests of characters. */
module Chars {

  predicate IsDigit(c: char)
  {
    '0' <= c <= '9'
  }
}
