/**
 * The three string operations the task list relies on: the substring test behind
 * `name LIKE '%' || query || '%'`, the ordering behind `ORDER BY name`, and Kotlin's
 * `isBlank`.
 */
module Strings {

  /** `q` occurs in `s` starting at position `i`. */
  ghost predicate OccursAt(s: string, q: string, i: int) {
    0 <= i && i + |q| <= |s| && s[i..i + |q|] == q
  }

  /**
   * True iff `q` is a substring of `s`. The empty query is a substring of every name,
   * so `LIKE '%%'` matches every row.
   */
  function Contains(s: string, q: string): (b: bool)
    ensures b <==> exists i :: OccursAt(s, q, i)
    decreases |s|
  {
    if q <= s then
      assert OccursAt(s, q, 0);
      true
    else if |s| == 0 then
      assert forall i :: !OccursAt(s, q, i);
      false
    else
      OccursShift(s, q);
      Contains(s[1..], q)
  }

  /** An occurrence in `s` other than at its start is an occurrence in `s[1..]`, one place earlier. */
  lemma OccursShift(s: string, q: string)
    requires |s| > 0 && !(q <= s)
    ensures (exists i :: OccursAt(s, q, i)) <==> (exists j :: OccursAt(s[1..], q, j))
  {
    if i :| OccursAt(s, q, i) {
      assert s[1..][i - 1..i - 1 + |q|] == s[i..i + |q|];
      assert OccursAt(s[1..], q, i - 1);
    }
    if j :| OccursAt(s[1..], q, j) {
      assert s[j + 1..j + 1 + |q|] == s[1..][j..j + |q|];
      assert OccursAt(s, q, j + 1);
    }
  }

  /**
   * Lexicographic order on strings, character by character, a proper prefix first:
   * the order SQLite's default BINARY collation gives (UTF-8 byte order is code point order).
   */
  predicate LexLe(a: string, b: string) {
    |a| == 0 || (|b| > 0 && (a[0] < b[0] || (a[0] == b[0] && LexLe(a[1..], b[1..]))))
  }

  lemma {:induction false} LexLeReflexive(a: string)
    ensures LexLe(a, a)
  {
    if |a| > 0 { LexLeReflexive(a[1..]); }
  }

  lemma {:induction false} LexLeTotal(a: string, b: string)
    ensures LexLe(a, b) || LexLe(b, a)
  {
    if |a| > 0 && |b| > 0 && a[0] == b[0] {
      LexLeTotal(a[1..], b[1..]);
    }
  }

  lemma {:induction false} LexLeTransitive(a: string, b: string, c: string)
    requires LexLe(a, b) && LexLe(b, c)
    ensures LexLe(a, c)
  {
    if |a| > 0 && a[0] == b[0] && b[0] == c[0] {
      LexLeTransitive(a[1..], b[1..], c[1..]);
    }
  }

  lemma {:induction false} LexLeAntisymmetric(a: string, b: string)
    requires LexLe(a, b) && LexLe(b, a)
    ensures a == b
  {
    if |a| > 0 {
      LexLeAntisymmetric(a[1..], b[1..]);
      assert a == [a[0]] + a[1..];
      assert b == [b[0]] + b[1..];
    }
  }

  /**
   * Kotlin's `Char.isWhitespace` on the JVM: `Character.isWhitespace` or `Character.isSpaceChar`,
   * i.e. the Unicode space, line and paragraph separators and the ASCII controls
   * U+0009 to U+000D and U+001C to U+001F.
   */
  predicate IsWhitespace(c: char) {
    || ('\U{9}' <= c <= '\U{D}') || ('\U{1C}' <= c <= '\U{20}')
    || c == '\U{A0}' || c == '\U{1680}' || ('\U{2000}' <= c <= '\U{200A}')
    || c == '\U{2028}' || c == '\U{2029}' || c == '\U{202F}' || c == '\U{205F}' || c == '\U{3000}'
  }

  /** Kotlin's `isBlank`: empty, or made of whitespace only. */
  predicate IsBlank(s: string) {
    forall i :: 0 <= i < |s| ==> IsWhitespace(s[i])
  }

  /** A string is blank exactly when it has no character that is not whitespace. */
  lemma {:induction false} BlankIffNoVisibleChar(s: string)
    ensures IsBlank(s) <==> !(exists c :: c in s && !IsWhitespace(c))
  {
    if !IsBlank(s) {
      var i :| 0 <= i < |s| && !IsWhitespace(s[i]);
      assert s[i] in s;
    }
  }
}
