/** The few C string operations the rest of the model shares. */
module Strings {
  import opened Frames

  /** The text before the first NUL, as `char *` is read. */
  function CStr(s: string): (r: string)
    ensures |r| <= |s| && r == s[..|r|] && NUL !in r
    ensures |r| < |s| ==> s[|r|] == NUL
  {
    if s == [] || s[0] == NUL then [] else [s[0]] + CStr(s[1..])
  }

  lemma CStrOf(t: string, z: string)
    requires NUL !in t && (z == [] || z[0] == NUL)
    ensures CStr(t + z) == t
  {
    if t == [] {
      assert t + z == z;
    } else {
      assert (t + z)[1..] == t[1..] + z;
      CStrOf(t[1..], z);
    }
  }

  predicate OccursAt(s: string, sub: string, i: int) {
    0 <= i <= |s| - |sub| && s[i..i + |sub|] == sub
  }

  /** `s.find( sub ) != npos`. */
  predicate Occurs(s: string, sub: string) {
    exists i | 0 <= i <= |s| - |sub| :: OccursAt(s, sub, i)
  }
}
