/** What single lines and fields are read as, character by character, also those the library does not print. */
module ParserLaws {
  import opened Frames
  import opened Trees
  import opened Text
  import opened Hierarchy
  import opened Parser

  // ---- Fields ----

  lemma {:induction false} ClearedAt(a: string, m: nat, k: nat)
    requires m < |a| && k < |a|
    ensures Cleared(a, m)[k] ==
      if 0 < k <= m && (forall j | k <= j <= m :: a[j] == ' ' || a[j] == NUL) then NUL else a[k]
    decreases m
  {
    if m > 0 && (a[m] == ' ' || a[m] == NUL) {
      var b := a[m := NUL];
      ClearedAt(b, m - 1, k);
      assert forall j | k <= j < m :: b[j] == a[j];
      if 0 < k <= m {
        assert (forall j | k <= j <= m :: a[j] == ' ' || a[j] == NUL)
          <==> (forall j | k <= j <= m - 1 :: b[j] == ' ' || b[j] == NUL);
      }
    }
  }

  /** A field of `size` characters holds the first ones of its text; from the last one on that is neither blank
      nor NUL, all is NUL, except that the very first character stays. */
  lemma {:induction false} FieldExactly(text: string, size: nat, i: nat)
    requires i < size
    ensures Field(text, size)[i] ==
      if i < |text| && (i == 0 || exists j | i <= j < |text| && j < size :: text[j] != ' ' && text[j] != NUL)
      then text[i] else NUL
  {
    var n := if |text| < size then |text| else size;
    var a := text[..n] + Zeros(size - n);
    assert Field(text, size) == Cleared(a, size - 1);
    assert forall j | 0 <= j < n :: a[j] == text[j];
    assert forall j | n <= j < size :: a[j] == NUL;
    hide Cleared, Field;
    ClearedAt(a, size - 1, i);
    if i < |text| && (exists j | i <= j < |text| && j < size :: text[j] != ' ' && text[j] != NUL) {
      var j :| i <= j < |text| && j < size && text[j] != ' ' && text[j] != NUL;
      assert a[j] == text[j];
    }
  }

  // ---- Counts and indents ----

  /** Where `c` first stands, or the length. */
  ghost predicate FirstAt(s: string, c: char, i: nat) {
    i <= |s| && (i < |s| ==> s[i] == c) && forall j | 0 <= j < i :: s[j] != c
  }

  lemma FirstIs(s: string, c: char, i: nat)
    requires FirstAt(s, c, i)
    ensures FindChar(s, c, 0) == i
  {
  }

  /** A line without a bracket before its first 'x' and its first closing one counts 1. */
  lemma CountOne(str: string, p1: nat, p2: nat, p3: nat)
    requires FirstAt(str, '[', p1) && FirstAt(str, ']', p2) && FirstAt(str, 'x', p3) && (p1 >= p2 || p1 >= p3)
    ensures Count(str) == Some(1)
    ensures Kept(str) && Readable(str) ==> LineNode(str).n == 1
  {
    FirstIs(str, '[', p1);
    FirstIs(str, ']', p2);
    FirstIs(str, 'x', p3);
    hide FindChar, HasAddress, LineFrame;
  }

  /** Otherwise it counts what stands between the brackets. */
  lemma CountBetween(str: string, p1: nat, p2: nat, p3: nat)
    requires FirstAt(str, '[', p1) && FirstAt(str, ']', p2) && FirstAt(str, 'x', p3) && p1 < p2 && p1 < p3
    ensures Count(str) == Stoi(str[p1 + 1..p2])
  {
    FirstIs(str, '[', p1);
    FirstIs(str, ']', p2);
    FirstIs(str, 'x', p3);
    hide FindChar;
  }

  /** The indent is that of the bracket, or of the character before the 'x' when this comes first. */
  lemma IndentExactly(str: string, p1: nat, p3: nat)
    requires FirstAt(str, '[', p1) && FirstAt(str, 'x', p3) && p3 > 0
    ensures FindChar(str, 'x', 0) == p3
    ensures Indent(str) == if p1 < p3 then p1 else p3 - 1
  {
    FirstIs(str, '[', p1);
    FirstIs(str, 'x', p3);
    hide FindChar;
  }

  /** A line without a bracket at all. */
  lemma {:induction false} NoBracket(str: string)
    requires Kept(str) && Readable(str) && '[' !in str
    ensures Count(str) == Some(1) && LineNode(str).n == 1
    ensures 0 < FindChar(str, 'x', 0) && Indent(str) == FindChar(str, 'x', 0) - 1
  {
    hide HasAddress, LineFrame;
    var p2, p3 := FindChar(str, ']', 0), FindChar(str, 'x', 0);
    CountOne(str, |str|, p2, p3);
    IndentExactly(str, |str|, p3);
  }

  // ---- Whole texts ----

  /** Every node counts 1. */
  ghost predicate AllOnes(kids: seq<Tree>) {
    forall i | 0 <= i < |kids| :: kids[i].n == 1 && AllOnes(kids[i].kids)
  }

  lemma {:induction false} OnesAppend(a: seq<Tree>, b: seq<Tree>)
    requires forall i | 0 <= i < |a + b| :: (a + b)[i].n == 1
    ensures (forall i | 0 <= i < |a| :: a[i].n == 1) && (forall i | 0 <= i < |b| :: b[i].n == 1)
  {
    assert forall i | 0 <= i < |a| :: a[i] == (a + b)[i];
    assert forall i | 0 <= i < |b| :: b[i] == (a + b)[|a| + i];
  }

  lemma {:induction false} PreorderOnes(kids: seq<Tree>)
    requires forall i | 0 <= i < |Preorder(kids)| :: Preorder(kids)[i].n == 1
    ensures AllOnes(kids)
    decreases kids
  {
    if kids != [] {
      var x, t := kids[0], [Node(kids[0].n, kids[0].frame, [])];
      var below, rest := Preorder(x.kids), Preorder(kids[1..]);
      assert Preorder(kids) == t + below + rest;
      OnesAppend(t + below, rest);
      OnesAppend(t, below);
      assert t[0].n == 1;
      PreorderOnes(x.kids);
      PreorderOnes(kids[1..]);
      forall i | 0 <= i < |kids| ensures kids[i].n == 1 && AllOnes(kids[i].kids) {
        if i > 0 { assert kids[i] == kids[1..][i - 1]; }
      }
    }
  }

  /** A tree that stands for lines without brackets counts 1 everywhere below the root. */
  lemma {:induction false} StandsOnes(root: Tree, text: seq<string>)
    requires AllReadable(text) && AllCounted(text) && StandsFor(root, text)
    requires forall i | 0 <= i < |text| && 'x' in text[i] :: '[' !in text[i]
    ensures AllOnes(root.kids)
  {
    var k := KeptLines(text);
    KeptGood(text);
    forall i | 0 <= i < |Preorder(root.kids)| ensures Preorder(root.kids)[i].n == 1 {
      assert Preorder(root.kids) == LineNodes(k);
      assert k[i] in text && Kept(k[i]);
      assert 'x' in k[i];
      assert Good(k[i]);
      NoBracket(k[i]);
    }
    PreorderOnes(root.kids);
  }
}
