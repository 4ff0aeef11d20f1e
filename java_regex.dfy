/** What the two patterns of the user API rely on from java.util.regex:
    the set of characters `.` refuses when neither DOTALL nor UNIX_LINES is
    set, and `String.matches` / `Matcher.matches`, which must consume the
    whole input. The patterns themselves are written as predicates in the
    modules that use them. */
module JavaRegex {

  /** A line terminator in java.util.regex.Pattern: `.` never matches one. */
  predicate IsLineTerminator(c: char)
  {
    c == '\n' || c == '\r' || c == '\U{0085}' || c == '\U{2028}' || c == '\U{2029}'
  }

  /** `.*` or `.+` could consume all of `s`: no character of it is a line terminator. */
  function NoLineTerminator(s: string): (b: bool)
    ensures b <==> forall i | 0 <= i < |s| :: !IsLineTerminator(s[i])
    decreases |s|
  {
    if s == [] then true
    else !IsLineTerminator(s[0]) && NoLineTerminator(s[1..])
  }
}
