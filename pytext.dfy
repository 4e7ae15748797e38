/** The pieces of Python string semantics that the two apps rely on. */
module PyText {

  /** Python's `\s` on a `str` pattern: exactly the characters for which `str.isspace()` holds. */
  predicate IsSpace(c: char) {
    || ('\t' <= c <= '\r')
    || ('\U{1C}' <= c <= ' ')
    || c == '\U{85}' || c == '\U{A0}' || c == '\U{1680}'
    || ('\U{2000}' <= c <= '\U{200A}')
    || c == '\U{2028}' || c == '\U{2029}' || c == '\U{202F}' || c == '\U{205F}' || c == '\U{3000}'
  }

  /** `p` occurs in `s` starting at index `i`. */
  predicate HasAt(s: string, i: nat, p: string) {
    i + |p| <= |s| && s[i..i + |p|] == p
  }

  /** Python's `p in s` for strings. */
  predicate Contains(s: string, p: string) {
    exists i :: 0 <= i <= |s| - |p| && HasAt(s, i, p)
  }

  /** Python's `s.startswith(p)`. */
  predicate StartsWith(s: string, p: string) {
    HasAt(s, 0, p)
  }

  /** `c not in s`. */
  predicate Lacks(s: string, c: char) {
    forall k :: 0 <= k < |s| ==> s[k] != c
  }

  lemma HasAtChar(s: string, i: nat, p: string, k: nat)
    requires HasAt(s, i, p) && k < |p|
    ensures s[i + k] == p[k]
  {
    assert s[i..i + |p|][k] == s[i + k];
  }

  /** `p` occurs in any string made of something, `p`, and something else. */
  lemma ContainsInside(a: string, p: string, b: string)
    ensures Contains(a + p + b, p)
  {
    assert (a + p + b)[|a|..|a| + |p|] == p;
    assert HasAt(a + p + b, |a|, p);
  }

  /** What occurs in `m` occurs in every string that has `m` in it. */
  lemma ContainsWithin(a: string, m: string, b: string, p: string)
    requires Contains(m, p)
    ensures Contains(a + m + b, p)
  {
    var i :| 0 <= i <= |m| - |p| && HasAt(m, i, p);
    assert (a + m + b)[|a| + i..|a| + i + |p|] == m[i..i + |p|];
    assert HasAt(a + m + b, |a| + i, p);
  }

  lemma StartsWithConcat(p: string, e: string)
    ensures StartsWith(p + e, p)
  {
    assert (p + e)[0..|p|] == p;
  }
}
