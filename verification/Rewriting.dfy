/** In-place shortening of function names: `replace`, `strrep`, `findMatching` and the loop that
    abbreviates `std::basic_string`. */
module Rewriting {
  import opened Frames
  import opened Strings

  /** `s.find( sub, pos )`: the first occurrence at `pos` or later, or -1 for `npos`. */
  function Find(t: string, s: string, pos: nat): (i: int)
    ensures i == -1 || (pos <= i && OccursAt(t, s, i))
    ensures forall j | pos <= j && (i == -1 || j < i) :: !OccursAt(t, s, j)
    decreases |t| - pos
  {
    if OccursAt(t, s, pos) then pos
    else if pos >= |t| then -1
    else Find(t, s, pos + 1)
  }

  /** The string with `t[pos..pos + len]` replaced. */
  function Spliced(t: string, pos: nat, len: nat, r: string): (u: string)
    requires pos + len <= |t|
    ensures |u| == |t| - len + |r|
  {
    t[..pos] + r + t[pos + len..]
  }

  /** First loop of `replace`: write `r` from `pos` on, as far as it fits. */
  method CopyIn(str: array<char>, n: nat, pos: nat, r: string) returns (k: nat)
    requires pos <= n <= str.Length
    modifies str
    ensures pos <= k <= n && k == (if pos + |r| <= n then pos + |r| else n)
    ensures str[pos..k] == r[..k - pos] && str[..pos] == old(str[..pos]) && str[k..] == old(str[k..])
  {
    k := pos;
    for i := 0 to |r|
      invariant pos <= k <= n && k == (if pos + i <= n then pos + i else n)
      invariant str[pos..k] == r[..k - pos] && str[..pos] == old(str[..pos]) && str[k..] == old(str[k..])
    {
      if k >= n { break; }
      ghost var b, o := str[..], old(str[..]);
      str[k] := r[i];
      assert str[..] == b[k := r[i]];
      assert str[k + 1..] == b[k..][1..] == o[k..][1..] == o[k + 1..];
      assert str[pos..k + 1] == b[pos..k] + [r[i]] == r[..k + 1 - pos];
      k := k + 1;
    }
  }

  /** Second loop: move the tail to `k`, reading what may have been overwritten when `k` lies behind it. */
  method MoveTail(str: array<char>, n: nat, from: nat, k0: nat) returns (k: nat)
    requires from <= n <= str.Length && k0 <= n
    modifies str
    ensures k == (if k0 + n - from <= n then k0 + n - from else n)
    ensures str[..k0] == old(str[..k0]) && str[k..] == old(str[k..])
    ensures k0 <= from ==> str[k0..k] == old(str[from..n])
  {
    k := k0;
    for i := from to n
      invariant k0 <= k <= n && str[..k0] == old(str[..k0]) && str[k..] == old(str[k..])
      invariant k == (if k0 + (i - from) <= n then k0 + (i - from) else n)
      invariant k0 <= from ==> k <= i && str[k0..k] == old(str[from..i])
    {
      if k >= n { break; }
      assert k0 <= from ==> str[k..][i - k] == old(str[k..])[i - k];
      str[k] := str[i];
      k := k + 1;
    }
  }

  /** Third loop, which runs up to the old end but always writes at `k`: only the first place behind the new
      end becomes NUL. */
  method Terminate(str: array<char>, n: nat, k: nat)
    requires k <= n <= str.Length
    modifies str
    ensures str[..] == if k < n then old(str[..])[k := NUL] else old(str[..])
  {
    for m := k to n
      invariant str[..] == if k < m then old(str[..])[k := NUL] else old(str[..])
    {
      str[k] := NUL;
    }
  }

  /** The buffer after a replacement that is not longer: the new string and, when it is shorter, one NUL. What
      follows is left from before. */
  function Replaced(b: string, n: nat, pos: nat, len: nat, r: string): (c: string)
    requires pos + len <= n <= |b| && |r| <= len
    ensures |c| == |b|
  {
    var u := Spliced(b[..n], pos, len, r);
    if |u| < n then u + [NUL] + b[|u| + 1..] else u + b[n..]
  }

  /** `replace`, which reads the tail of the string from the buffer it is overwriting. For a range inside
      the string the outcome is the intended one exactly when the replacement is not longer. */
  method Replace(str: array<char>, n: nat, pos: nat, len: nat, r: string) returns (k: nat)
    requires n <= str.Length && pos + len <= n
    modifies str
    ensures k <= n && str[n..] == old(str[n..])
    ensures str[..k] == Spliced(old(str[..n]), pos, len, r) <==> |r| <= len
    ensures |r| <= len ==> str[..] == Replaced(old(str[..]), n, pos, len, r)
    ensures |r| > len ==> k == n
  {
    ghost var o := str[..];
    var k0 := CopyIn(str, n, pos, r);
    ghost var a := str[..];
    k := MoveTail(str, n, pos + len, k0);
    ghost var b := str[..];
    Terminate(str, n, k);
    SameSuffix(a, o, k0, n);
    SameSuffix(b, a, k, n);
    assert str[n..] == b[n..];
    if |r| <= len {
      ReplacedIs(o, a, b, n, pos, len, r, k0, k);
      SameSuffix(a, o, k0, k);
      assert str[..k] == b[..k] && old(str[..n]) == o[..n];
      BufferIs(o, b, str[..], n, pos, len, r, k);
    }
  }

  lemma BufferIs(o: string, b: string, c: string, n: nat, pos: nat, len: nat, r: string, k: nat)
    requires |o| == |b| && pos + len <= n <= |o| && |r| <= len && k == n - len + |r|
    requires b[..k] == Spliced(o[..n], pos, len, r) && b[k..] == o[k..] && c == if k < n then b[k := NUL] else b
    ensures c == Replaced(o, n, pos, len, r)
  {
    hide Spliced;
    if k < n {
      assert b == b[..k] + [b[k]] + b[k + 1..];
      assert b[k + 1..] == b[k..][1..] == o[k..][1..] == o[k + 1..];
    }
  }

  /** Everything between the new end and the old one is NUL exactly when the string got shorter by at most
      one character. */
  lemma {:induction false} ClearedExactly(b: string, n: nat, pos: nat, len: nat, r: string)
    requires pos + len <= n <= |b| && |r| <= len && NUL !in b[..n]
    ensures (forall m | n - len + |r| <= m < n :: Replaced(b, n, pos, len, r)[m] == NUL) <==> len <= |r| + 1
  {
    var k := n - len + |r|;
    if len > |r| + 1 {
      assert Replaced(b, n, pos, len, r)[k + 1] == b[k + 1] == b[..n][k + 1];
    }
  }

  /** Characters of the old string stay behind the NUL. */
  lemma LeftBehind()
    ensures Replaced("abcdef", 6, 0, 4, "x") == "xef" + [NUL] + "ef"
  {
    assert "abcdef"[..6] == "abcdef" && "abcdef"[..0] == [] && "abcdef"[4..] == "ef";
    assert Spliced("abcdef", 0, 4, "x") == "xef";
  }

  /** Read as a C string, the buffer ends at the new end. */
  lemma {:induction false} ReplacedCStr(b: string, n: nat, pos: nat, len: nat, r: string)
    requires pos + len <= n <= |b| && |r| <= len && CStr(b) == b[..n] && NUL !in r
    ensures CStr(Replaced(b, n, pos, len, r)) == Spliced(b[..n], pos, len, r)
  {
    hide Spliced, CStr;
    var t, u := b[..n], Spliced(b[..n], pos, len, r);
    assert NUL !in t;
    NoNulSpliced(t, pos, len, r);
    if |u| < n {
      CStrOf(u, [NUL] + b[|u| + 1..]);
      assert u + ([NUL] + b[|u| + 1..]) == u + [NUL] + b[|u| + 1..];
    } else {
      EndOfCStr(b, n);
      CStrOf(u, b[n..]);
    }
  }

  lemma NoNulSpliced(t: string, pos: nat, len: nat, r: string)
    requires pos + len <= |t| && NUL !in t && NUL !in r
    ensures NUL !in Spliced(t, pos, len, r)
  {
  }

  lemma EndOfCStr(b: string, n: nat)
    requires n <= |b| && CStr(b) == b[..n]
    ensures b[n..] == [] || b[n..][0] == NUL
  {
    assert |CStr(b)| == n;
  }

  lemma SameSuffix(x: string, y: string, k: nat, n: nat)
    requires |x| == |y| && k <= n <= |x| && x[k..] == y[k..]
    ensures x[n..] == y[n..]
  {
    assert x[n..] == x[k..][n - k..] && y[n..] == y[k..][n - k..];
  }

  /** The buffer after the first two loops, for a replacement that is not longer. */
  lemma ReplacedIs(o: string, a: string, b: string, n: nat, pos: nat, len: nat, r: string, k0: nat, k: nat)
    requires |o| == |a| == |b| && pos + len <= n <= |o| && |r| <= len && k0 == pos + |r| && k == k0 + n - (pos + len)
    requires a[..pos] == o[..pos] && a[pos..k0] == r && a[k0..] == o[k0..]
    requires b[..k0] == a[..k0] && b[k0..k] == a[pos + len..n]
    ensures b[..k] == Spliced(o[..n], pos, len, r)
  {
    var u := o[..n];
    assert u[pos + len..] == o[pos + len..n];
    assert a[pos + len..n] == o[pos + len..n] by {
      forall i | pos + len <= i < n ensures a[i] == o[i] {
        assert a[k0..][i - k0] == o[k0..][i - k0];
      }
    }
    assert b[..k] == a[..k0] + a[pos + len..n];
    assert a[..k0] == o[..pos] + r;
    assert u[..pos] == o[..pos];
  }

  /** Replace the leftmost occurrence until none is left. */
  function Rewritten(t: string, s: string, r: string): (u: string)
    requires |r| < |s|
    ensures |u| <= |t|
    decreases |t|
  {
    var pos := Find(t, s, 0);
    if pos == -1 then t else Rewritten(Spliced(t, pos, |s|, r), s, r)
  }

  /** The whole buffer after that, with what is left behind the new end. */
  function RewrittenBuffer(b: string, n: nat, s: string, r: string): (c: string)
    requires n <= |b| && |r| < |s|
    ensures |c| == |b|
    decreases n
  {
    var pos := Find(b[..n], s, 0);
    if pos == -1 then b else RewrittenBuffer(Replaced(b, n, pos, |s|, r), n - |s| + |r|, s, r)
  }

  /** `strrep` for a shorter replacement: it terminates and leaves no occurrence, and what was a C string
      still is one. */
  method StrRep(str: array<char>, n: nat, s: string, r: string) returns (n': nat)
    requires n <= str.Length && |r| < |s|
    modifies str
    ensures n' <= n && str[..n'] == Rewritten(old(str[..n]), s, r)
    ensures !Occurs(str[..n'], s) && str[..] == RewrittenBuffer(old(str[..]), n, s, r)
    ensures str[n..] == old(str[n..]) && (n' < n ==> str[n'] == NUL)
    ensures CStr(old(str[..])) == old(str[..n]) && NUL !in r ==> CStr(str[..]) == str[..n']
  {
    hide *;
    n' := n;
    var pos := Find(str[..n'], s, 0);
    while pos != -1
      invariant n' <= n && pos == Find(str[..n'], s, 0)
      invariant Rewritten(str[..n'], s, r) == Rewritten(old(str[..n]), s, r)
      invariant RewrittenBuffer(str[..], n', s, r) == RewrittenBuffer(old(str[..]), n, s, r)
      invariant str[n..] == old(str[n..]) && (n' < n ==> str[n'] == NUL)
      invariant CStr(old(str[..])) == old(str[..n]) && NUL !in r ==> CStr(str[..]) == str[..n']
      decreases n'
    {
      ghost var b, m := str[..], n';
      assert b[..m] == str[..n'];
      RewriteStep(b, m, s, r, pos, n);
      n' := Replace(str, n', pos, |s|, r);
      assert str[..n'] == str[..][..n'] && str[n..] == str[..][n..];
      pos := Find(str[..n'], s, 0);
    }
    NoneLeft(str[..], n', s, r);
    assert str[..n'] == str[..][..n'];
  }

  /** One turn of `strrep`. */
  lemma {:induction false} RewriteStep(b: string, m: nat, s: string, r: string, pos: int, n: nat)
    requires m <= n <= |b| && |r| < |s| && pos == Find(b[..m], s, 0) && pos != -1
    ensures 0 <= pos && pos + |s| <= m
    ensures var c, k := Replaced(b, m, pos, |s|, r), m - |s| + |r|;
      && k < m && c[..k] == Spliced(b[..m], pos, |s|, r) && c[k] == NUL && c[n..] == b[n..]
      && Rewritten(c[..k], s, r) == Rewritten(b[..m], s, r)
      && RewrittenBuffer(c, k, s, r) == RewrittenBuffer(b, m, s, r)
      && (CStr(b) == b[..m] && NUL !in r ==> CStr(c) == c[..k])
  {
    hide CStr, Spliced, Replaced, OccursAt;
    FindFits(b[..m], s);
    var c, k := Replaced(b, m, pos, |s|, r), m - |s| + |r|;
    ReplacedParts(b, m, pos, |s|, r, n);
    if CStr(b) == b[..m] && NUL !in r { ReplacedCStr(b, m, pos, |s|, r); }
  }

  lemma FindFits(t: string, s: string)
    ensures Find(t, s, 0) != -1 ==> 0 <= Find(t, s, 0) && Find(t, s, 0) + |s| <= |t|
  {
  }

  lemma ReplacedParts(b: string, m: nat, pos: nat, len: nat, r: string, n: nat)
    requires pos + len <= m <= n <= |b| && |r| < len
    ensures var c, k := Replaced(b, m, pos, len, r), m - len + |r|;
      c[..k] == Spliced(b[..m], pos, len, r) && c[k] == NUL && c[n..] == b[n..]
  {
    hide Spliced;
  }

  lemma {:induction false} NoneLeft(b: string, n: nat, s: string, r: string)
    requires n <= |b| && |r| < |s| && Find(b[..n], s, 0) == -1
    ensures Rewritten(b[..n], s, r) == b[..n] && RewrittenBuffer(b, n, s, r) == b && !Occurs(b[..n], s)
  {
    assert forall i | 0 <= i <= n - |s| :: !OccursAt(b[..n], s, i);
  }

  // ---- Angle brackets ----

  /** Number of '<' minus number of '>'. */
  function Depth(s: string): int {
    if s == [] then 0
    else Depth(s[..|s| - 1]) + (if s[|s| - 1] == '<' then 1 else if s[|s| - 1] == '>' then -1 else 0)
  }

  ghost predicate Balanced(s: string) {
    Depth(s) == 0 && forall i | 0 <= i <= |s| :: Depth(s[..i]) >= 0
  }

  lemma {:induction false} DepthAppend(a: string, b: string)
    ensures Depth(a + b) == Depth(a) + Depth(b)
    decreases b
  {
    if b == [] {
      assert a + b == a;
    } else {
      assert (a + b)[..|a + b| - 1] == a + b[..|b| - 1];
      DepthAppend(a, b[..|b| - 1]);
    }
  }

  /** Brackets open before `j` when one is opened at `pos`. */
  function OpenAt(t: string, pos: nat, j: nat): int
    requires pos < j <= |t|
  {
    1 + Depth(t[pos + 1..j])
  }

  /** The first index from `j` on where all brackets are closed, or the end. */
  function MatchFrom(t: string, pos: nat, j: nat): (e: nat)
    requires pos < j
    ensures e >= j && (j <= |t| ==> e <= |t|)
    decreases |t| - j
  {
    if j >= |t| || OpenAt(t, pos, j) == 0 then j else MatchFrom(t, pos, j + 1)
  }

  /** `findMatching`: counting from one open bracket at `pos`, the first index past `pos` where all are
      closed, or the end. A start at or past the last character gives the next index. */
  method FindMatching(str: string, pos: nat) returns (pos2: nat)
    ensures pos + 1 >= |str| ==> pos2 == pos + 1
    ensures pos + 1 < |str| ==> pos + 1 < pos2 <= |str|
    ensures pos < pos2 && (pos2 <= |str| ==> OpenAt(str, pos, pos2) >= 0)
    ensures forall j | pos < j < pos2 && j <= |str| :: OpenAt(str, pos, j) > 0
    ensures pos2 < |str| ==> OpenAt(str, pos, pos2) == 0
    ensures pos2 == MatchFrom(str, pos, pos + 1)
  {
    pos2 := pos + 1;
    var count := 1;
    while count != 0 && pos2 < |str|
      invariant pos < pos2 && (pos2 <= |str| || pos2 == pos + 1) && count >= 0
      invariant pos2 == pos + 1 ==> count == 1
      invariant pos2 <= |str| ==> count == OpenAt(str, pos, pos2)
      invariant MatchFrom(str, pos, pos2) == MatchFrom(str, pos, pos + 1)
      invariant forall j | pos < j < pos2 && j <= |str| :: OpenAt(str, pos, j) > 0
      decreases |str| - pos2
    {
      assert str[pos + 1..pos2 + 1][..pos2 - pos - 1] == str[pos + 1..pos2];
      if str[pos2] == '<' { count := count + 1; }
      if str[pos2] == '>' { count := count - 1; }
      pos2 := pos2 + 1;
    }
  }

  lemma {:induction false} OpenDepth(t: string, pos: nat, j: nat)
    requires pos < j <= |t| && t[pos] == '<'
    ensures Depth(t[pos..j]) == OpenAt(t, pos, j)
  {
    assert t[pos..j] == ([] + ['<']) + t[pos + 1..j];
    DepthAppend([] + ['<'], t[pos + 1..j]);
    assert ([] + ['<'])[..0] == [];
  }

  /** What `findMatching` returns. */
  ghost predicate Matching(t: string, pos: nat, e: nat) {
    pos < e <= |t| && Depth(t[pos..e]) == 0 && forall j | pos < j < e :: Depth(t[pos..j]) > 0
  }

  /** On a balanced name the search does not run off the end, and stops just past a '>'. */
  lemma {:induction false} MatchingExists(t: string, pos: nat, e: nat)
    requires Balanced(t) && pos < e <= |t| && t[pos] == '<'
    requires forall j | pos < j < e :: Depth(t[pos..j]) > 0
    requires Depth(t[pos..e]) == 0 || (e == |t| && Depth(t[pos..e]) > 0)
    ensures Matching(t, pos, e) && e >= pos + 2 && t[e - 1] == '>'
  {
    assert t == t[..pos] + t[pos..];
    DepthAppend(t[..pos], t[pos..]);
    assert t[pos..|t|] == t[pos..];
    assert t[pos..pos + 1] == [] + ['<'];
    assert t[pos..e][..e - 1 - pos] == t[pos..e - 1];
  }

  /** Cutting out a matched bracket with what precedes it, and putting in a text without
      brackets, keeps a name balanced. */
  lemma {:induction false} SplicedBalanced(t: string, pos: nat, pos1: nat, e: nat, r: string)
    requires Balanced(t) && pos <= pos1 && Matching(t, pos1, e)
    requires (forall i | pos <= i < pos1 :: t[i] != '<' && t[i] != '>')
    requires (forall i | 0 <= i < |r| :: r[i] != '<' && r[i] != '>')
    ensures Balanced(Spliced(t, pos, e - pos, r))
  {
    var u := Spliced(t, pos, e - pos, r);
    CutFlat(t, pos, pos1, e);
    forall i | 0 <= i <= |u| ensures Depth(u[..i]) >= 0 {
      SplicedDepth(t, pos, e, r, i);
    }
    SplicedDepth(t, pos, e, r, |u|);
    assert u[..|u|] == u && t[..|t|] == t;
  }

  lemma {:induction false} CutFlat(t: string, pos: nat, pos1: nat, e: nat)
    requires pos <= pos1 && Matching(t, pos1, e) && (forall i | pos <= i < pos1 :: t[i] != '<' && t[i] != '>')
    ensures Depth(t[pos..e]) == 0
  {
    Flat(t[pos..pos1]);
    assert t[pos..e] == t[pos..pos1] + t[pos1..e];
    DepthAppend(t[pos..pos1], t[pos1..e]);
  }

  /** Every prefix of the spliced text is as deep as the corresponding one of the original. */
  lemma {:induction false} SplicedDepth(t: string, pos: nat, e: nat, r: string, i: nat)
    requires pos <= e <= |t| && Depth(t[pos..e]) == 0 && (forall i | 0 <= i < |r| :: r[i] != '<' && r[i] != '>')
    requires i <= |t| - (e - pos) + |r|
    ensures Depth(Spliced(t, pos, e - pos, r)[..i]) ==
      Depth(t[..if i < pos then i else if i < pos + |r| then pos else i - |r| + e - pos])
  {
    var u := Spliced(t, pos, e - pos, r);
    if i < pos {
      assert u[..i] == t[..i];
    } else if i < pos + |r| {
      Flat(r[..i - pos]);
      assert u[..i] == t[..pos] + r[..i - pos];
      DepthAppend(t[..pos], r[..i - pos]);
    } else {
      var j := i - |r| + e - pos;
      Flat(r);
      assert u[..i] == t[..pos] + r + t[e..j];
      DepthAppend(t[..pos] + r, t[e..j]);
      DepthAppend(t[..pos], r);
      PrefixThrough(t, pos, e, j);
    }
  }

  lemma {:induction false} PrefixThrough(t: string, pos: nat, e: nat, j: nat)
    requires pos <= e <= j <= |t| && Depth(t[pos..e]) == 0
    ensures Depth(t[..j]) == Depth(t[..pos]) + Depth(t[e..j])
  {
    assert t[..j] == t[..pos] + t[pos..e] + t[e..j];
    DepthAppend(t[..pos] + t[pos..e], t[e..j]);
    DepthAppend(t[..pos], t[pos..e]);
  }

  lemma {:induction false} Flat(r: string)
    requires forall i | 0 <= i < |r| :: r[i] != '<' && r[i] != '>'
    ensures Depth(r) == 0
  {
    if r != [] { Flat(r[..|r| - 1]); }
  }

  // ---- Abbreviating std::basic_string ----

  const BASIC := "std::basic_string<"

  /** The abbreviation for a `basic_string` whose argument starts at `i`, tried in the order of the code. */
  function Abbreviation(t: string, i: nat): (r: string) {
    if OccursAt(t, "char", i) then "std::string"
    else if OccursAt(t, "wchar_t", i) then "std::wstring"
    else if OccursAt(t, "char16_t", i) then "std::u16string"
    else if OccursAt(t, "char32_t", i) then "std::u32string"
    else ""
  }

  /** The tests for `char16_t` and `char32_t` are never reached: `char` is tried first and matches both. */
  lemma WideNeverReached(t: string, i: nat)
    ensures Abbreviation(t, i) in {"std::string", "std::wstring", ""}
    ensures OccursAt(t, "char16_t", i) || OccursAt(t, "char32_t", i) ==> Abbreviation(t, i) == "std::string"
  {
    if OccursAt(t, "char16_t", i) {
      assert t[i..i + 4] == t[i..i + 8][..4] == "char";
    }
    if OccursAt(t, "char32_t", i) {
      assert t[i..i + 4] == t[i..i + 8][..4] == "char";
    }
  }

  /** No `basic_string` that has an abbreviation starts before `pos`. */
  ghost predicate DoneBefore(t: string, pos: nat) {
    forall q | 0 <= q < pos && OccursAt(t, BASIC, q) :: Abbreviation(t, q + |BASIC|) == ""
  }

  /** No `basic_string` is left that has an abbreviation. */
  ghost predicate NothingLeft(t: string) {
    forall q | OccursAt(t, BASIC, q) :: Abbreviation(t, q + |BASIC|) == ""
  }

  /** No abbreviation can be the middle of a new occurrence: none of these texts has "std" after its start. */
  lemma NoOverlap(pat: string, j: nat)
    requires pat == "std::basic_string<char" || pat == "std::basic_string<wchar_t"
    requires 0 < j < |pat|
    ensures pat[j] != 's' || (j + 2 < |pat| && (pat[j + 1] != 't' || pat[j + 2] != 'd'))
  {
  }

  lemma AbbreviationOf(t: string, q: nat)
    requires OccursAt(t, BASIC, q)
    ensures Abbreviation(t, q + |BASIC|) != "" <==>
      OccursAt(t, "std::basic_string<char", q) || OccursAt(t, "std::basic_string<wchar_t", q)
  {
    var i := q + |BASIC|;
    WideNeverReached(t, i);
    if OccursAt(t, "char", i) { assert t[q..q + 22] == t[q..i] + t[i..i + 4]; }
    if OccursAt(t, "wchar_t", i) { assert t[q..q + 25] == t[q..i] + t[i..i + 7]; }
    if OccursAt(t, "std::basic_string<char", q) { assert t[i..i + 4] == t[q..q + 22][18..]; }
    if OccursAt(t, "std::basic_string<wchar_t", q) { assert t[i..i + 7] == t[q..q + 25][18..]; }
  }

  /** Replacing one occurrence leaves nothing to abbreviate at or before its place. */
  lemma {:induction false} SplicedDone(t: string, pos: nat, len: nat, r: string)
    requires pos + len <= |t| && DoneBefore(t, pos) && (r == "std::string" || r == "std::wstring")
    ensures DoneBefore(Spliced(t, pos, len, r), pos + 1)
  {
    var u := Spliced(t, pos, len, r);
    forall q | 0 <= q < pos + 1 && OccursAt(u, BASIC, q) ensures Abbreviation(u, q + |BASIC|) == "" {
      AbbreviationOf(u, q);
      NoneBefore(t, pos, len, r, q, "std::basic_string<char");
      NoneBefore(t, pos, len, r, q, "std::basic_string<wchar_t");
    }
  }

  lemma {:induction false} NoneBefore(t: string, pos: nat, len: nat, r: string, q: nat, pat: string)
    requires pos + len <= |t| && DoneBefore(t, pos) && (r == "std::string" || r == "std::wstring") && q <= pos
    requires pat == "std::basic_string<char" || pat == "std::basic_string<wchar_t"
    ensures !OccursAt(Spliced(t, pos, len, r), pat, q)
  {
    if OccursAt(Spliced(t, pos, len, r), pat, q) {
      OccurrenceBefore(t, pos, len, r, q, pat);
      BasicPrefix(t, pat, q);
      AbbreviationOf(t, q);
    }
  }

  lemma BasicPrefix(t: string, pat: string, q: nat)
    requires pat == "std::basic_string<char" || pat == "std::basic_string<wchar_t"
    requires OccursAt(t, pat, q)
    ensures OccursAt(t, BASIC, q)
  {
    assert t[q..q + |BASIC|] == t[q..q + |pat|][..|BASIC|];
    assert pat[..|BASIC|] == BASIC;
  }

  lemma OccursChars(t: string, pat: string, q: nat)
    requires OccursAt(t, pat, q)
    ensures forall i | 0 <= i < |pat| :: t[q + i] == pat[i]
  {
    forall i | 0 <= i < |pat| ensures t[q + i] == pat[i] {
      assert t[q..q + |pat|][i] == t[q + i];
    }
  }

  /** An occurrence up to the place of the replacement lies in the untouched part. */
  lemma {:induction false} OccurrenceBefore(t: string, pos: nat, len: nat, r: string, q: nat, pat: string)
    requires pos + len <= |t| && (r == "std::string" || r == "std::wstring")
    requires pat == "std::basic_string<char" || pat == "std::basic_string<wchar_t"
    requires q <= pos && OccursAt(Spliced(t, pos, len, r), pat, q)
    ensures q + |pat| <= pos && OccursAt(t, pat, q)
  {
    var u := Spliced(t, pos, len, r);
    OccursChars(u, pat, q);
    assert u[pos] == 's' && u[pos + 1] == 't' && u[pos + 2] == 'd' && u[pos + 5] != 'b' && pat[5] == 'b';
    var j := pos - q;
    assert q + |pat| <= pos by {
      if 0 < j < |pat| {
        NoOverlap(pat, j);
      }
    }
    assert t[q..q + |pat|] == u[q..q + |pat|];
  }

  lemma NoNulAt(b: string, pat: string, i: nat, x: nat)
    requires OccursAt(b, pat, i) && NUL !in pat && x < |pat|
    ensures b[i + x] != NUL
  {
    OccursChars(b, pat, i);
    assert pat[x] in pat;
  }

  /** A comparison at or before the end of a C string reads nothing behind it. */
  lemma {:induction false} ReadsUpToEnd(b: string, n: nat, pat: string, i: nat)
    requires n < |b| && b[n] == NUL && NUL !in pat && i <= n
    ensures OccursAt(b, pat, i) <==> OccursAt(b[..n], pat, i)
  {
    if OccursAt(b, pat, i) && i + |pat| > n { NoNulAt(b, pat, i, n - i); }
    if i + |pat| <= n { assert b[..n][i..i + |pat|] == b[i..i + |pat|]; }
  }

  lemma {:induction false} AbbreviationUpToEnd(b: string, n: nat, i: nat)
    requires n < |b| && b[n] == NUL && i <= n
    ensures Abbreviation(b, i) == Abbreviation(b[..n], i)
  {
    ReadsUpToEnd(b, n, "char", i);
    ReadsUpToEnd(b, n, "wchar_t", i);
    ReadsUpToEnd(b, n, "char16_t", i);
    ReadsUpToEnd(b, n, "char32_t", i);
  }

  /** The name after the `basic_string` at `q` was abbreviated, if it has an abbreviation. */
  function AbbreviatedAt(t: string, q: nat): (u: string)
    requires q + 18 <= |t|
    ensures |u| <= |t|
  {
    var r := Abbreviation(t, q + 18);
    WideNeverReached(t, q + 18);
    if r == "" then t else Spliced(t, q, MatchFrom(t, q + 17, q + 18) - q, r)
  }

  /** The name after all from `pos` on were, from left to right, each once. */
  function Abbreviated(t: string, pos: nat): string
    decreases |t| - pos
  {
    var q := Find(t, BASIC, pos);
    if q == -1 then t else Abbreviated(AbbreviatedAt(t, q), q + 1)
  }

  /** The loop that abbreviates `std::basic_string`: on every C string it terminates, never lengthens the name
      and leaves nothing to abbreviate; an angle-balanced name stays balanced. */
  method AbbreviateBasicString(name: array<char>, n: nat) returns (n': nat)
    requires n < name.Length && CStr(name[..]) == name[..n]
    modifies name
    ensures n' <= n && CStr(name[..]) == name[..n'] && (Balanced(old(name[..n])) ==> Balanced(name[..n']))
    ensures name[..n'] == Abbreviated(old(name[..n]), 0)
    ensures NothingLeft(name[..n']) && name[n..] == old(name[n..])
  {
    hide *;
    n' := n;
    var pos: nat := 0;
    NothingDone(name[..n]);
    while pos < n'
      invariant n' <= n && CStr(name[..]) == name[..n'] && DoneBefore(name[..n'], pos)
      invariant Balanced(old(name[..n])) ==> Balanced(name[..n'])
      invariant Abbreviated(name[..n'], pos) == Abbreviated(old(name[..n]), 0)
      invariant name[n..] == old(name[n..])
      decreases n' - pos
    {
      NextFound(name[..n'], pos);
      var found := Find(name[..n'], BASIC, pos);
      if found == -1 { break; }
      pos := found;
      n' := AbbreviateAt(name, n, n', pos);
      pos := pos + 1;
    }
    NextFound(name[..n'], pos);
  }

  lemma NothingDone(t: string)
    ensures DoneBefore(t, 0)
  {
  }

  /** From `pos` on: nothing to do, or the next occurrence. */
  lemma {:induction false} NextFound(t: string, pos: nat)
    requires DoneBefore(t, pos)
    ensures var q := Find(t, BASIC, pos);
      if q == -1 then Abbreviated(t, pos) == t && NothingLeft(t)
      else
        && pos <= q && q + 18 <= |t| && OccursAt(t, BASIC, q) && DoneBefore(t, q)
        && Abbreviated(t, pos) == Abbreviated(AbbreviatedAt(t, q), q + 1)
    ensures pos >= |t| ==> Find(t, BASIC, pos) == -1
  {
    hide Abbreviation, AbbreviatedAt;
  }

  /** The body of the loop, for the occurrence at `pos`. */
  method AbbreviateAt(name: array<char>, n: nat, m: nat, pos: nat) returns (m': nat)
    requires m <= n < name.Length && CStr(name[..]) == name[..m]
    requires OccursAt(name[..m], BASIC, pos) && DoneBefore(name[..m], pos)
    modifies name
    ensures m' <= m && CStr(name[..]) == name[..m'] && DoneBefore(name[..m'], pos + 1)
    ensures Balanced(old(name[..m])) ==> Balanced(name[..m'])
    ensures pos + 18 <= |old(name[..m])| && name[..m'] == AbbreviatedAt(old(name[..m]), pos)
    ensures name[n..] == old(name[n..])
  {
    hide *;
    ghost var o, t := name[..], name[..m];
    assert o[..m] == t;
    BasicPlain(t, pos);
    var pos1 := pos + 17;
    var pos2 := FindMatching(name[..m], pos1);
    var r := Abbreviation(name[..], pos1 + 1);
    m' := m;
    AbbreviatedBuffer(o, t, pos, pos1, pos2, r);
    if r != "" {
      m' := Replace(name, m, pos, pos2 - pos, r);
      assert name[..m'] == Spliced(t, pos, pos2 - pos, r);
      assert name[n..] == name[m..][n - m..] == o[m..][n - m..] == o[n..];
    }
  }

  /** What one turn of the loop needs of the buffer `b` and the name `t` in it. */
  lemma {:induction false} AbbreviatedBuffer(b: string, t: string, pos: nat, pos1: nat, e: nat, r: string)
    requires |t| < |b| && t == b[..|t|] && CStr(b) == t
    requires OccursAt(t, BASIC, pos) && DoneBefore(t, pos)
    requires pos1 == pos + 17 && pos1 + 1 <= |t| && pos1 < e <= |t| && r == Abbreviation(b, pos1 + 1)
    requires forall j | pos1 < j < e && j <= |t| :: OpenAt(t, pos1, j) > 0
    requires OpenAt(t, pos1, e) == 0 || (e == |t| && OpenAt(t, pos1, e) > 0)
    requires e == MatchFrom(t, pos1, pos1 + 1)
    ensures AbbreviatedAt(t, pos) == if r == "" then t else Spliced(t, pos, e - pos, r)
    ensures if r == "" then DoneBefore(t, pos + 1)
            else
              var u := Spliced(t, pos, e - pos, r);
              && |r| <= e - pos && (Balanced(t) ==> Balanced(u)) && DoneBefore(u, pos + 1)
              && CStr(Replaced(b, |t|, pos, e - pos, r)) == u
  {
    hide *;
    BasicPlain(t, pos);
    EndOfCStr(b, |t|);
    assert b[|t|] == b[|t|..][0];
    AbbreviationUpToEnd(b, |t|, pos1 + 1);
    NoNulIn(t, pos1 + 1);
    forall j | pos1 < j <= e ensures Depth(t[pos1..j]) == OpenAt(t, pos1, j) {
      OpenDepth(t, pos1, j);
    }
    AbbreviatedKeeps(t, pos, pos1, e, r);
    if r != "" { ReplacedCStr(b, |t|, pos, e - pos, r); }
    AbbreviatedAtIs(t, pos, pos1, e, r);
  }

  lemma NoNulIn(t: string, i: nat)
    ensures NUL !in Abbreviation(t, i)
  {
    WideNeverReached(t, i);
    hide Abbreviation, OccursAt;
  }

  lemma AbbreviatedAtIs(t: string, pos: nat, pos1: nat, e: nat, r: string)
    requires pos1 == pos + 17 && pos1 + 1 <= |t| && r == Abbreviation(t, pos1 + 1) && e == MatchFrom(t, pos1, pos1 + 1)
    ensures e <= |t| && AbbreviatedAt(t, pos) == if r == "" then t else Spliced(t, pos, e - pos, r)
  {
    hide Abbreviation, Spliced, MatchFrom;
  }

  /** One abbreviation: the text is shorter than what it replaces, the name stays done so far, and balanced. */
  lemma {:induction false} AbbreviatedKeeps(t: string, pos: nat, pos1: nat, e: nat, r: string)
    requires DoneBefore(t, pos) && OccursAt(t, BASIC, pos) && pos1 == pos + 17 && pos1 < e <= |t|
    requires forall j | pos1 < j < e :: Depth(t[pos1..j]) > 0
    requires Depth(t[pos1..e]) == 0 || (e == |t| && Depth(t[pos1..e]) > 0)
    requires r == Abbreviation(t, pos1 + 1)
    ensures if r == "" then DoneBefore(t, pos + 1)
            else
              var u := Spliced(t, pos, e - pos, r);
              |r| <= e - pos && (Balanced(t) ==> Balanced(u)) && DoneBefore(u, pos + 1)
  {
    hide Abbreviation, Depth, Spliced, Balanced;
    if r != "" {
      hide OccursAt, DoneBefore, Matching;
      BasicPlain(t, pos);
      WideNeverReached(t, pos1 + 1);
      Plain(r);
      if Balanced(t) {
        MatchingExists(t, pos1, e);
        SplicedBalanced(t, pos, pos1, e, r);
      }
      SplicedDone(t, pos, e - pos, r);
    }
  }

  lemma BasicPlain(t: string, pos: nat)
    requires OccursAt(t, BASIC, pos)
    ensures pos + 18 <= |t| && t[pos + 17] == '<' && forall i | pos <= i < pos + 17 :: t[i] != '<' && t[i] != '>'
  {
    OccursChars(t, BASIC, pos);
    forall i | pos <= i < pos + 17 ensures t[i] != '<' && t[i] != '>' {
      assert t[pos + (i - pos)] == BASIC[i - pos];
    }
  }

  lemma Plain(r: string)
    requires r == "std::string" || r == "std::wstring"
    ensures |r| <= 12 && forall i | 0 <= i < |r| :: r[i] != '<' && r[i] != '>'
  {
  }
}
