/**
 * Character classes and substring search on strings, as JavaScript's regular
 * expressions and `String.prototype.indexOf` see them.
 */
module Text {

  /** JavaScript's `\s` class: the WhiteSpace and LineTerminator code points of ECMAScript. */
  predicate IsWhitespace(c: char)
  {
    c == '\t' || c == '\n' || c == '\U{B}' || c == '\U{C}' || c == '\r' || c == ' ' ||
    c == '\U{A0}' || c == '\U{1680}' || ('\U{2000}' <= c <= '\U{200A}') ||
    c == '\U{2028}' || c == '\U{2029}' || c == '\U{202F}' || c == '\U{205F}' ||
    c == '\U{3000}' || c == '\U{FEFF}'
  }

  /** The characters that the regular-expression `.` does not match. */
  predicate IsLineTerminator(c: char)
  {
    c == '\n' || c == '\r' || c == '\U{2028}' || c == '\U{2029}'
  }

  /** `p` occurs in `s` starting at index `i`. */
  predicate OccursAt(s: string, p: string, i: int)
  {
    0 <= i && i + |p| <= |s| && s[i..i + |p|] == p
  }

  /** `p` occurs somewhere in `s`. */
  ghost predicate Contains(s: string, p: string)
  {
    exists i :: OccursAt(s, p, i)
  }

  /** The first index at or after `from` where `p` occurs in `s`, or -1. */
  function IndexOfFrom(s: string, p: string, from: nat): (r: int)
    ensures r == -1 || (from <= r && OccursAt(s, p, r))
    ensures r == -1 ==> forall i :: from <= i ==> !OccursAt(s, p, i)
    ensures r != -1 ==> forall i :: from <= i < r ==> !OccursAt(s, p, i)
    decreases |s| - from
  {
    if from + |p| > |s| then -1
    else if s[from..from + |p|] == p then from
    else IndexOfFrom(s, p, from + 1)
  }

  /** `s.indexOf(p)`: the first index where `p` occurs in `s`, or -1 when it does not occur. */
  function IndexOf(s: string, p: string): (r: int)
    ensures r == -1 <==> !Contains(s, p)
    ensures r != -1 ==> OccursAt(s, p, r) && forall i :: 0 <= i < r ==> !OccursAt(s, p, i)
  {
    IndexOfFrom(s, p, 0)
  }

  /** An occurrence in `[c] + s` either starts at the front or is an occurrence in `s`. */
  lemma ContainsCons(c: char, s: string, p: string)
    requires p != []
    ensures Contains([c] + s, p) <==> OccursAt([c] + s, p, 0) || Contains(s, p)
  {
    var t := [c] + s;
    if Contains(t, p) && !OccursAt(t, p, 0) {
      var i :| OccursAt(t, p, i);
      assert i >= 1;
      assert s[i - 1..i - 1 + |p|] == t[i..i + |p|];
      assert OccursAt(s, p, i - 1);
    }
    if Contains(s, p) {
      var i :| OccursAt(s, p, i);
      assert t[i + 1..i + 1 + |p|] == s[i..i + |p|];
      assert OccursAt(t, p, i + 1);
    }
  }
}
