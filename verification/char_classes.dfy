/**
 * The character classes used by the rule patterns, and maximal runs of them.
 *
 * `\d` and the identifier classes are the ASCII ones the patterns spell out;
 * `\s` is Python's whitespace class for text patterns (every character for
 * which `str.isspace` holds).
 */
module CharClasses {

  predicate IsAsciiDigit(c: char) { '0' <= c <= '9' }

  /** First character of an identifier: a letter or an underscore. */
  predicate IsIdentStart(c: char) { 'A' <= c <= 'Z' || 'a' <= c <= 'z' || c == '_' }

  /** Later characters of an identifier: also digits. */
  predicate IsIdentChar(c: char) { IsIdentStart(c) || IsAsciiDigit(c) }

  /** A word character for the purposes of a word boundary. */
  predicate IsWordChar(c: char) { IsIdentChar(c) }

  predicate IsSpace(c: char)
  {
    || c == ' '
    || '\t' <= c <= '\r'                 // tab, newline, vertical tab, form feed, carriage return
    || '\U{1c}' <= c <= '\U{1f}'         // file, group, record and unit separators
    || c == '\U{85}' || c == '\U{a0}'
    || c == '\U{1680}'
    || '\U{2000}' <= c <= '\U{200a}'
    || c == '\U{2028}' || c == '\U{2029}'
    || c == '\U{202f}' || c == '\U{205f}' || c == '\U{3000}'
  }

  /** A whole identifier: what every captured column name looks like. */
  predicate IsIdentifier(s: string)
  {
    |s| > 0 && IsIdentStart(s[0]) && forall k :: 1 <= k < |s| ==> IsIdentChar(s[k])
  }

  /** The classes that a pattern repeats with `*`, `+` or `+?`. */
  datatype CharClass =
    | Digit        // \d
    | Space        // \s
    | Ident        // [A-Za-z0-9_]
    | NotBacktick  // [^`]
    | NotNewline   // .
    | Plain        // neither a newline nor a backtick

  predicate InClass(cc: CharClass, c: char)
  {
    match cc
    case Digit => IsAsciiDigit(c)
    case Space => IsSpace(c)
    case Ident => IsIdentChar(c)
    case NotBacktick => c != '`'
    case NotNewline => c != '\n'
    case Plain => c != '`' && c != '\n'
  }

  /** Every character of s[a..b] belongs to the class. */
  predicate AllIn(cc: CharClass, s: string, a: int, b: int)
    requires 0 <= a <= b <= |s|
  {
    forall t :: a <= t < b ==> InClass(cc, s[t])
  }

  /** The end of the longest run of class characters starting at j. */
  function RunEnd(cc: CharClass, s: string, j: nat): (e: nat)
    requires j <= |s|
    ensures j <= e <= |s|
    ensures AllIn(cc, s, j, e)
    ensures e == |s| || !InClass(cc, s[e])
    decreases |s| - j
  {
    if j < |s| && InClass(cc, s[j]) then RunEnd(cc, s, j + 1) else j
  }

  /** A run that stops at a non-member (or at the end) is the longest run. */
  lemma RunEndUnique(cc: CharClass, s: string, j: nat, e: nat)
    requires j <= e <= |s|
    requires AllIn(cc, s, j, e)
    requires e == |s| || !InClass(cc, s[e])
    ensures RunEnd(cc, s, j) == e
  {
  }
}
