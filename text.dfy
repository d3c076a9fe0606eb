/** Character classes and small string helpers shared by the interpreter's components. */
module Text {

  datatype Option<+T> = None | Some(value: T)

  /** `std::isspace` in the C locale: space, tab, newline, vertical tab, form feed, carriage return. */
  predicate IsSpace(c: char) {
    c == ' ' || ('\t' <= c <= '\r')
  }

  /** `std::isalpha` in the C locale: the ASCII letters. */
  predicate IsAlpha(c: char) {
    ('A' <= c <= 'Z') || ('a' <= c <= 'z')
  }

  /** `s.rfind(p, 0) == 0`: `s` begins with `p`. */
  predicate StartsWith(s: string, p: string) {
    |p| <= |s| && s[..|p|] == p
  }

  /** A non-empty string with no whitespace in it: what `operator>>` extracts into a string. */
  predicate IsWord(w: string) {
    w != [] && forall k :: 0 <= k < |w| ==> !IsSpace(w[k])
  }

  function Max(a: int, b: int): int {
    if a < b then b else a
  }
}
