/** The characters that trimming removes. */
module Whitespace {
  /** Unicode white space, as Rust's `trim` knows it. */
  predicate IsWhiteSpace(c: char) {
    var n := c as int;
    || 0x9 <= n <= 0xD || n == 0x20 || n == 0x85 || n == 0xA0 || n == 0x1680 || 0x2000 <= n <= 0x200A
    || n == 0x2028 || n == 0x2029 || n == 0x202F || n == 0x205F || n == 0x3000
  }

  /** Python's `strip` takes the four separator controls as well. */
  predicate IsPythonSpace(c: char) {
    IsWhiteSpace(c) || 0x1C <= c as int <= 0x1F
  }
}
