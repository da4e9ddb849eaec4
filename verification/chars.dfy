/** Character classes, ASCII lower-casing and substring search over `string`.
    Python's `str.lower()`, `\d`, `\s` and `\w` are Unicode-aware; this model
    restricts all of them to their ASCII behaviour. */
module Chars {

  predicate IsUpper(c: char) { 'A' <= c <= 'Z' }

  predicate IsLowerLetter(c: char) { 'a' <= c <= 'z' }

  predicate IsDigit(c: char) { '0' <= c <= '9' }

  /** ASCII characters for which `str.isspace()` holds: space, tab, line feed,
      vertical tab, form feed, carriage return, and the separators 0x1C-0x1F. */
  predicate IsSpace(c: char) {
    var n := c as int;
    n == 32 || 9 <= n <= 13 || 28 <= n <= 31
  }

  /** `\w` restricted to ASCII. */
  predicate IsWordChar(c: char) {
    IsUpper(c) || IsLowerLetter(c) || IsDigit(c) || c == '_'
  }

  function LowerChar(c: char): char {
    if IsUpper(c) then (c as int + 32) as char else c
  }

  /** `str.lower()` restricted to ASCII: maps character by character. */
  function Lower(s: string): string {
    seq(|s|, i requires 0 <= i < |s| => LowerChar(s[i]))
  }

  predicate IsLowerCase(s: string) {
    forall i :: 0 <= i < |s| ==> !IsUpper(s[i])
  }

  /** `t` sits at position `i` of `s`. */
  predicate OccursAt(s: string, t: string, i: int) {
    0 <= i && i + |t| <= |s| && s[i..i + |t|] == t
  }

  /** `t` matches `s` at position `i` ignoring (ASCII) case, as a literal
      pattern compiled with `re.IGNORECASE` does. */
  predicate MatchAt(s: string, t: string, i: int) {
    0 <= i && i + |t| <= |s| && Lower(s[i..i + |t|]) == Lower(t)
  }

  /** Python's `t in s` on strings. */
  predicate Contains(s: string, t: string) {
    exists i :: 0 <= i <= |s| && OccursAt(s, t, i)
  }

  lemma {:induction false} LowerSlice(s: string, a: int, b: int)
    requires 0 <= a <= b <= |s|
    ensures Lower(s[a..b]) == Lower(s)[a..b]
  {
    assert forall k :: 0 <= k < b - a ==> Lower(s[a..b])[k] == Lower(s)[a..b][k];
  }

  lemma {:induction false} LowerAppend(x: string, y: string)
    ensures Lower(x + y) == Lower(x) + Lower(y)
  {
    assert forall k :: 0 <= k < |x| + |y| ==> Lower(x + y)[k] == (Lower(x) + Lower(y))[k];
  }

  /** Lower-casing a string that has no upper-case letter leaves it unchanged. */
  lemma {:induction false} LowerOfLowerCase(s: string)
    requires IsLowerCase(s)
    ensures Lower(s) == s
  {
    assert forall k :: 0 <= k < |s| ==> Lower(s)[k] == s[k];
  }

  /** Any occurrence of a non-empty `t` in `s` puts `t`'s first character in `s`. */
  lemma {:induction false} ContainsHead(s: string, t: string)
    requires |t| > 0
    ensures Contains(s, t) ==> t[0] in s
  {
    if Contains(s, t) {
      var i :| 0 <= i <= |s| && OccursAt(s, t, i);
      assert s[i] == s[i..i + |t|][0];
    }
  }

  /** A string shorter than `t` cannot contain it. */
  lemma ContainsNeedsLength(s: string, t: string)
    requires |s| < |t|
    ensures !Contains(s, t)
  {
  }

  /** A string contains every prefix of itself, in particular `t` in `t + u`. */
  lemma {:induction false} ContainsPrefix(t: string, u: string)
    ensures Contains(t + u, t)
  {
    assert (t + u)[0..|t|] == t;
    assert OccursAt(t + u, t, 0);
  }
}
