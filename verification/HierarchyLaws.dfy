/** A forest is determined by its lines, and its own indentation gives it back. */
module HierarchyLaws {
  import opened Trees
  import opened Hierarchy

  lemma NearestUnique(indent: seq<nat>, i: nat, j: int, k: int)
    requires i < |indent| && Nearest(indent, i, j) && Nearest(indent, i, k)
    ensures j == k
  {
  }

  lemma {:induction false} ParentsRange(kids: seq<Tree>, self: int, base: int)
    requires self < base
    ensures forall i | 0 <= i < |Parents(kids, self, base)| ::
      Parents(kids, self, base)[i] == self || Parents(kids, self, base)[i] >= base
    decreases kids
  {
    if kids != [] {
      ParentsRange(kids[0].kids, base, base + 1);
      ParentsRange(kids[1..], self, base + 1 + Nodes(kids[0].kids));
    }
  }

  /** Two sequences split at the same place when the first parts avoid `v` and the second start with it. */
  lemma {:induction false} SplitUnique(a: seq<int>, b: seq<int>, c: seq<int>, d: seq<int>, v: int)
    requires [v] + a + b == [v] + c + d
    requires (forall i | 0 <= i < |a| :: a[i] != v) && (forall i | 0 <= i < |c| :: c[i] != v)
    requires (b == [] || b[0] == v) && (d == [] || d[0] == v)
    ensures a == c && b == d
  {
    var s := a + b;
    assert s == ([v] + a + b)[1..] == ([v] + c + d)[1..] == c + d;
    assert (forall i | 0 <= i < |a| :: s[i] == a[i]) && (|a| < |s| ==> s[|a|] == b[0]);
    assert (forall i | 0 <= i < |c| :: s[i] == c[i]) && (|c| < |s| ==> s[|c|] == d[0]);
    assert |a| == |c|;
    assert a == s[..|a|] && c == s[..|c|] && b == s[|a|..] && d == s[|c|..];
  }

  /** Nodes in preorder together with their parents determine the forest. */
  lemma {:induction false} ForestUnique(f: seq<Tree>, g: seq<Tree>, self: int, base: int)
    requires self < base && Preorder(f) == Preorder(g) && Parents(f, self, base) == Parents(g, self, base)
    ensures f == g
    decreases f
  {
    Lengths(f, self, base, 0);
    Lengths(g, self, base, 0);
    if f != [] {
      var x, y := f[0], g[0];
      FirstTree(f, g, self, base);
      ForestUnique(x.kids, y.kids, base, base + 1);
      ForestUnique(f[1..], g[1..], self, base + 1 + Nodes(x.kids));
      assert f == [x] + f[1..] && g == [y] + g[1..];
    }
  }

  lemma {:induction false} FirstTree(f: seq<Tree>, g: seq<Tree>, self: int, base: int)
    requires self < base && f != [] && g != []
    requires Preorder(f) == Preorder(g) && Parents(f, self, base) == Parents(g, self, base)
    ensures f[0].n == g[0].n && f[0].frame == g[0].frame && Nodes(f[0].kids) == Nodes(g[0].kids)
    ensures Preorder(f[0].kids) == Preorder(g[0].kids) && Preorder(f[1..]) == Preorder(g[1..])
    ensures Parents(f[0].kids, base, base + 1) == Parents(g[0].kids, base, base + 1)
    ensures var b := base + 1 + Nodes(f[0].kids); Parents(f[1..], self, b) == Parents(g[1..], self, b)
  {
    hide Parents, Preorder, Nodes;
    var x, y := f[0], g[0];
    var a, b := Parents(x.kids, base, base + 1), Parents(f[1..], self, base + 1 + Nodes(x.kids));
    var c, d := Parents(y.kids, base, base + 1), Parents(g[1..], self, base + 1 + Nodes(y.kids));
    HeadTail(f, self, base);
    HeadTail(g, self, base);
    SplitUnique(a, b, c, d, self);
    var n, m := Node(x.n, x.frame, []), Node(y.n, y.frame, []);
    SplitPreorder(n, Preorder(x.kids), Preorder(f[1..]), m, Preorder(y.kids), Preorder(g[1..]));
  }

  /** The first tree of a forest and the rest. */
  lemma {:induction false} HeadTail(kids: seq<Tree>, self: int, base: int)
    requires self < base && kids != []
    ensures var x, b2 := kids[0], base + 1 + Nodes(kids[0].kids);
      var a, b := Parents(x.kids, base, base + 1), Parents(kids[1..], self, b2);
      && Parents(kids, self, base) == [self] + a + b
      && (forall i | 0 <= i < |a| :: a[i] != self) && (b == [] || b[0] == self)
      && |a| == Nodes(x.kids) == |Preorder(x.kids)|
      && Preorder(kids) == [Node(x.n, x.frame, [])] + Preorder(x.kids) + Preorder(kids[1..])
  {
    ParentsRange(kids[0].kids, base, base + 1);
    Lengths(kids[0].kids, base, base + 1, 0);
    if kids[1..] != [] {
      assert Parents(kids[1..], self, base + 1 + Nodes(kids[0].kids))[0] == self;
    }
  }

  lemma SplitPreorder(n: Tree, a: seq<Tree>, b: seq<Tree>, m: Tree, c: seq<Tree>, d: seq<Tree>)
    requires [n] + a + b == [m] + c + d && |a| == |c|
    ensures n == m && a == c && b == d
  {
    var s, t := [n] + a + b, [m] + c + d;
    assert s[0] == n && t[0] == m;
    assert s[1..1 + |a|] == a && t[1..1 + |c|] == c && s[1 + |a|..] == b && t[1 + |c|..] == d;
  }

  /** The lines determine the forest. */
  lemma {:induction false} ForestOfUnique(indent: seq<nat>, nodes: seq<Tree>, f: seq<Tree>, g: seq<Tree>)
    requires IsForestOf(indent, nodes, f) && IsForestOf(indent, nodes, g)
    ensures f == g
  {
    forall i | 0 <= i < |indent| ensures Parents(f, -1, 0)[i] == Parents(g, -1, 0)[i] {
      NearestUnique(indent, i, Parents(f, -1, 0)[i], Parents(g, -1, 0)[i]);
    }
    assert Parents(f, -1, 0) == Parents(g, -1, 0);
    ForestUnique(f, g, -1, 0);
  }

  // ---- A forest indented by depth ----

  ghost predicate AllAtLeast(D: seq<nat>, d: nat) {
    forall i | 0 <= i < |D| :: D[i] >= d
  }

  lemma {:induction false} DepthsAtLeast(kids: seq<Tree>, d: nat)
    ensures AllAtLeast(Depths(kids, d), d)
    decreases kids
  {
    if kids != [] {
      DepthsAtLeast(kids[0].kids, d + 1);
      DepthsAtLeast(kids[1..], d);
    }
  }

  /** The parent `p` of line `i` within a forest numbered from `base`: the nearest shallower line, or
      none in this forest when `p` is the owner `self`. */
  ghost predicate ParentFits(D: seq<nat>, d: nat, self: int, base: int, i: nat, p: int)
    requires i < |D|
  {
    if p == self then D[i] == d
    else base <= p < base + i && D[p - base] < D[i] && forall k | p - base < k < i :: D[k] >= D[i]
  }

  lemma {:induction false} DepthsFit(kids: seq<Tree>, d: nat, self: int, base: int)
    requires self < base
    ensures |Parents(kids, self, base)| == |Depths(kids, d)|
    ensures forall i | 0 <= i < |Depths(kids, d)| ::
      ParentFits(Depths(kids, d), d, self, base, i, Parents(kids, self, base)[i])
    decreases kids
  {
    hide ParentFits, AllAtLeast, Preorder;
    Lengths(kids, self, base, d);
    if kids != [] {
      var x := kids[0];
      var b2 := base + 1 + Nodes(x.kids);
      Lengths(x.kids, base, base + 1, d + 1);
      Lengths(kids[1..], self, b2, d);
      DepthsFit(x.kids, d + 1, base, base + 1);
      DepthsFit(kids[1..], d, self, b2);
      DepthsAtLeast(x.kids, d + 1);
      ParentsRange(kids[1..], self, b2);
      JoinFits(Depths(x.kids, d + 1), Parents(x.kids, base, base + 1), Depths(kids[1..], d),
               Parents(kids[1..], self, b2), d, self, base);
    }
  }

  lemma {:induction false} JoinFits(A: seq<nat>, PA: seq<int>, B: seq<nat>, PB: seq<int>, d: nat, self: int, base: int)
    requires self < base && |PA| == |A| && |PB| == |B| && AllAtLeast(A, d + 1)
    requires forall i | 0 <= i < |A| :: ParentFits(A, d + 1, base, base + 1, i, PA[i])
    requires forall i | 0 <= i < |B| :: ParentFits(B, d, self, base + 1 + |A|, i, PB[i])
    ensures var D, P := [d] + A + B, [self] + PA + PB;
            forall i | 0 <= i < |D| :: ParentFits(D, d, self, base, i, P[i])
  {
    var D, P := [d] + A + B, [self] + PA + PB;
    forall i | 0 <= i < |D| ensures ParentFits(D, d, self, base, i, P[i]) {
      if 0 < i <= |A| {
        assert D[i] == A[i - 1] && P[i] == PA[i - 1] && ParentFits(A, d + 1, base, base + 1, i - 1, PA[i - 1]);
        forall k | 0 < k <= |A| ensures D[k] == A[k - 1] { }
      } else if i > |A| {
        var j := i - 1 - |A|;
        assert D[i] == B[j] && P[i] == PB[j] && ParentFits(B, d, self, base + 1 + |A|, j, PB[j]);
        forall k | |A| < k < |D| ensures D[k] == B[k - 1 - |A|] { }
      }
    }
  }

  /** Two columns a level, from column `b` on. */
  ghost function Columns(D: seq<nat>, b: nat): (r: seq<nat>)
    ensures |r| == |D| && forall i | 0 <= i < |D| :: r[i] == b + 2 * D[i]
  {
    seq(|D|, i requires 0 <= i < |D| => b + 2 * D[i])
  }

  /** A forest is the one its own lines stand for, when every level is indented by two columns. */
  lemma {:induction false} OwnIndentation(kids: seq<Tree>, b: nat)
    ensures IsForestOf(Columns(Depths(kids, 0), b), Preorder(kids), kids)
  {
    var D := Depths(kids, 0);
    Lengths(kids, -1, 0, 0);
    DepthsFit(kids, 0, -1, 0);
    DepthsAtLeast(kids, 0);
    var P := Parents(kids, -1, 0);
    forall i | 0 <= i < |D| ensures Nearest(Columns(D, b), i, P[i]) {
      assert ParentFits(D, 0, -1, 0, i, P[i]);
    }
  }
}
