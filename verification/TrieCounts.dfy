/** What the counts of a tree mean, and which trees are built from stacks. */
module TrieCounts {
  import opened Frames
  import opened Trees
  import opened Trie

  /** Counting the stacks that pass through a path, or those that end exactly there. */
  datatype Measure = Passing | Ending

  ghost function Weight(m: Measure, t: Tree): int {
    match m
    case Passing => t.n
    case Ending => t.n - SumN(t.kids)
  }

  /** What the tree below `t`, `t` included, contributes to path `p`. */
  ghost function At(m: Measure, t: Tree, p: seq<Frame>): int
    requires p != []
    decreases t, 1
  {
    if !Same(t.frame, p[0]) then 0
    else if |p| == 1 then Weight(m, t)
    else Count(m, t.kids, p[1..])
  }

  /** Total over all nodes whose path equals `p` frame by frame. */
  ghost function Count(m: Measure, kids: seq<Tree>, p: seq<Frame>): int
    requires p != []
    decreases kids, 0
  {
    if kids == [] then 0 else At(m, kids[0], p) + Count(m, kids[1..], p)
  }

  /** `p` is the outermost part of stack `s` (`Passing`), or all of it (`Ending`). */
  ghost predicate Hit(m: Measure, s: seq<Frame>, p: seq<Frame>) {
    && |p| <= |s| && (m.Ending? ==> |p| == |s|)
    && forall i | 0 <= i < |p| :: Same(p[i], s[i])
  }

  /** Number of stacks hit by `p`. */
  ghost function Hits(m: Measure, stacks: seq<seq<Frame>>, p: seq<Frame>): nat {
    if stacks == [] then 0
    else Hits(m, stacks[..|stacks| - 1], p) + if Hit(m, stacks[|stacks| - 1], p) then 1 else 0
  }

  lemma {:induction false} CountAppend(m: Measure, a: seq<Tree>, b: seq<Tree>, p: seq<Frame>)
    requires p != []
    ensures Count(m, a + b, p) == Count(m, a, p) + Count(m, b, p)
    decreases a
  {
    if a == [] {
      assert a + b == b;
    } else {
      assert (a + b)[1..] == a[1..] + b;
      CountAppend(m, a[1..], b, p);
    }
  }

  lemma {:induction false} CountOne(m: Measure, x: Tree, p: seq<Frame>)
    requires p != []
    ensures Count(m, [x], p) == At(m, x, p)
  {
    assert [x][1..] == [];
  }

  lemma {:induction false} CountUpdate(m: Measure, a: seq<Tree>, i: nat, x: Tree, p: seq<Frame>)
    requires i < |a| && p != []
    ensures Count(m, a[i := x], p) == Count(m, a, p) - At(m, a[i], p) + At(m, x, p)
  {
    assert a == a[..i] + [a[i]] + a[i + 1..];
    assert a[i := x] == a[..i] + [x] + a[i + 1..];
    CountAppend(m, a[..i], [a[i]], p);
    CountAppend(m, a[..i] + [a[i]], a[i + 1..], p);
    CountAppend(m, a[..i], [x], p);
    CountAppend(m, a[..i] + [x], a[i + 1..], p);
    CountOne(m, a[i], p);
    CountOne(m, x, p);
  }

  // ---- Insertion and building ----

  lemma {:induction false} InsertSum(kids: seq<Tree>, s: seq<Frame>)
    ensures SumN(InsertKids(kids, s)) == SumN(kids) + if s == [] then 0 else 1
  {
    if s != [] {
      var i := FirstMatch(kids, s[0]);
      if i < |kids| {
        SumNUpdate(kids, i, Inserted(kids[i], s));
      } else {
        var c := Node(1, s[0], InsertKids([], s[1..]));
        SumNAppend(kids, [c]);
        assert [c][1..] == [];
      }
    }
  }

  lemma {:induction false} InsertWeight(m: Measure, t: Tree, s: seq<Frame>)
    requires s != []
    ensures Weight(m, Inserted(t, s)) == Weight(m, t) + if m.Passing? || |s| == 1 then 1 else 0
  {
    InsertSum(t.kids, s[1..]);
  }

  /** Adding a stack raises by one the counts along it and no others. */
  lemma {:induction false} InsertCount(m: Measure, kids: seq<Tree>, s: seq<Frame>, p: seq<Frame>, S: set<Frame>)
    requires Coherent(S) && Within(kids, S) && AllIn(s, S) && AllIn(p, S) && p != []
    ensures Count(m, InsertKids(kids, s), p) == Count(m, kids, p) + if Hit(m, s, p) then 1 else 0
    decreases s
  {
    if s != [] {
      var i := FirstMatch(kids, s[0]);
      if i < |kids| {
        CountUpdate(m, kids, i, Inserted(kids[i], s), p);
        InsertAtCount(m, kids[i], s, p, S);
      } else {
        var c := Node(0, s[0], []);
        assert Inserted(c, s) == Node(1, s[0], InsertKids([], s[1..]));
        CountAppend(m, kids, [Inserted(c, s)], p);
        CountOne(m, Inserted(c, s), p);
        InsertAtCount(m, c, s, p, S);
        assert At(m, c, p) == 0;
      }
    }
  }

  lemma {:induction false} InsertAtCount(m: Measure, t: Tree, s: seq<Frame>, p: seq<Frame>, S: set<Frame>)
    requires Coherent(S) && t.frame in S && Within(t.kids, S) && AllIn(s, S) && AllIn(p, S)
    requires p != [] && s != [] && Same(t.frame, s[0])
    ensures At(m, Inserted(t, s), p) == At(m, t, p) + if Hit(m, s, p) then 1 else 0
    decreases s, 0
  {
    SameShift(S, t.frame, s[0], p[0]);
    if Same(t.frame, p[0]) {
      if |p| == 1 {
        InsertWeight(m, t, s);
      } else {
        assert AllIn(s[1..], S) && AllIn(p[1..], S);
        InsertCount(m, t.kids, s[1..], p[1..], S);
        HitTail(m, s, p);
      }
    }
  }

  lemma {:induction false} HitTail(m: Measure, s: seq<Frame>, p: seq<Frame>)
    requires s != [] && p != [] && Same(p[0], s[0])
    ensures Hit(m, s, p) <==> Hit(m, s[1..], p[1..])
  {
    if Hit(m, s[1..], p[1..]) {
      forall i | 0 <= i < |p| ensures Same(p[i], s[i]) {
        if i > 0 { assert Same(p[1..][i - 1], s[1..][i - 1]); }
      }
    }
  }

  /** The count at a path is the number of stacks through it; what a node counts beyond its children
      is the number of stacks that end there. */
  lemma {:induction false} BuildCount(m: Measure, stacks: seq<seq<Frame>>, p: seq<Frame>, S: set<Frame>)
    requires Coherent(S) && StacksIn(stacks, S) && AllIn(p, S) && p != []
    ensures Count(m, BuildKids(stacks), p) == Hits(m, stacks, p)
  {
    if stacks != [] {
      var init := stacks[..|stacks| - 1];
      BuildCount(m, init, p, S);
      BuildKeeps(init, S);
      InsertCount(m, BuildKids(init), stacks[|stacks| - 1], p, S);
    }
  }

  /** The root counts all stacks; beyond its children it counts the empty ones. */
  lemma {:induction false} BuildRoot(stacks: seq<seq<Frame>>)
    ensures Build(stacks).n == |stacks|
    ensures Weight(Ending, Build(stacks)) == Hits(Ending, stacks, [])
  {
    if stacks != [] {
      BuildRoot(stacks[..|stacks| - 1]);
      InsertSum(BuildKids(stacks[..|stacks| - 1]), stacks[|stacks| - 1]);
    }
  }

  // ---- Merging ----

  lemma {:induction false} MergeOneSum(k: seq<Tree>, x: Tree, S: set<Frame>)
    requires Coherent(S) && FramesIn(k, S) && Apart(k) && x.frame in S
    ensures SumN(MergeOne(k, x)) == SumN(k) + x.n
  {
    var i := FirstMatch(k, x.frame);
    SoleMatch(k, x.frame, S);
    MergeOneSole(k, x, i);
    if i < |k| {
      SumNUpdate(k, i, Merge(k[i], x));
    } else {
      SumNAppend(k, [x]);
      assert [x][1..] == [];
    }
  }

  lemma {:induction false} MergeSum(a: seq<Tree>, b: seq<Tree>, S: set<Frame>)
    requires Coherent(S) && Within(a, S) && Within(b, S) && Distinct(a) && Distinct(b)
    ensures SumN(MergeKids(a, b)) == SumN(a) + SumN(b)
    decreases b
  {
    if b != [] {
      var b', x := b[..|b| - 1], b[|b| - 1];
      MergeSum(a, b', S);
      MergeKeeps(a, b', S);
      MergeOneSum(MergeKids(a, b'), x, S);
      assert b == b' + [x];
      SumNAppend(b', [x]);
      assert [x][1..] == [];
    }
  }

  /** Merging is pointwise addition of the counts. */
  lemma {:induction false} MergeCount(m: Measure, a: seq<Tree>, b: seq<Tree>, p: seq<Frame>, S: set<Frame>)
    requires Coherent(S) && Within(a, S) && Within(b, S) && Distinct(a) && Distinct(b) && AllIn(p, S) && p != []
    ensures Count(m, MergeKids(a, b), p) == Count(m, a, p) + Count(m, b, p)
    decreases b, 0
  {
    if b != [] {
      var b', x := b[..|b| - 1], b[|b| - 1];
      var k := MergeKids(a, b');
      MergeCount(m, a, b', p, S);
      MergeKeeps(a, b', S);
      var i := FirstMatch(k, x.frame);
      SoleMatch(k, x.frame, S);
      MergeOneSole(k, x, i);
      assert b == b' + [x];
      CountAppend(m, b', [x], p);
      CountOne(m, x, p);
      if i < |k| {
        CountUpdate(m, k, i, Merge(k[i], x), p);
        MergeAtCount(m, k[i], x, p, S);
      } else {
        CountAppend(m, k, [x], p);
      }
    }
  }

  lemma {:induction false} MergeAtCount(m: Measure, t: Tree, x: Tree, p: seq<Frame>, S: set<Frame>)
    requires Coherent(S) && t.frame in S && x.frame in S && Within(t.kids, S) && Within(x.kids, S)
    requires Distinct(t.kids) && Distinct(x.kids) && AllIn(p, S) && p != [] && Same(t.frame, x.frame)
    ensures At(m, Merge(t, x), p) == At(m, t, p) + At(m, x, p)
    decreases x, 0
  {
    SameShift(S, t.frame, x.frame, p[0]);
    if |p| == 1 {
      MergeSum(t.kids, x.kids, S);
    } else {
      assert AllIn(p[1..], S);
      MergeCount(m, t.kids, x.kids, p[1..], S);
    }
  }

  // ---- Order of arrival ----

  /** All stacks of a list of replies, in order. */
  ghost function Concat(groups: seq<seq<seq<Frame>>>): seq<seq<Frame>> {
    if groups == [] then [] else Concat(groups[..|groups| - 1]) + groups[|groups| - 1]
  }

  lemma {:induction false} HitsAppend(m: Measure, A: seq<seq<Frame>>, B: seq<seq<Frame>>, p: seq<Frame>)
    ensures Hits(m, A + B, p) == Hits(m, A, p) + Hits(m, B, p)
    decreases B
  {
    if B == [] {
      assert A + B == A;
    } else {
      assert (A + B)[..|A + B| - 1] == A + B[..|B| - 1];
      HitsAppend(m, A, B[..|B| - 1], p);
    }
  }

  lemma {:induction false} HitsRemove(m: Measure, G: seq<seq<seq<Frame>>>, i: nat, p: seq<Frame>)
    requires i < |G|
    ensures Hits(m, Concat(G), p) == Hits(m, Concat(G[..i] + G[i + 1..]), p) + Hits(m, G[i], p)
    decreases G
  {
    var G', g := G[..|G| - 1], G[|G| - 1];
    HitsAppend(m, Concat(G'), g, p);
    if i == |G| - 1 {
      assert G[..i] + G[i + 1..] == G';
    } else {
      HitsRemove(m, G', i, p);
      var R := G[..i] + G[i + 1..];
      assert R[..|R| - 1] == G'[..i] + G'[i + 1..] && R[|R| - 1] == g;
      HitsAppend(m, Concat(R[..|R| - 1]), g, p);
    }
  }

  lemma RemoveOne<T>(H: seq<T>, i: nat)
    requires i < |H|
    ensures multiset(H[..i] + H[i + 1..]) == multiset(H) - multiset{H[i]}
  {
    assert H == H[..i] + [H[i]] + H[i + 1..];
  }

  /** The counts do not depend on the order in which groups of stacks are added. */
  lemma {:induction false} HitsPermuted(m: Measure, G: seq<seq<seq<Frame>>>, H: seq<seq<seq<Frame>>>, p: seq<Frame>)
    requires multiset(G) == multiset(H)
    ensures Hits(m, Concat(G), p) == Hits(m, Concat(H), p)
    decreases G
  {
    if G == [] {
      assert |multiset(H)| == 0;
    } else {
      var g := G[|G| - 1];
      assert g in multiset(H);
      var i :| 0 <= i < |H| && H[i] == g;
      var G', H' := G[..|G| - 1], H[..i] + H[i + 1..];
      RemoveOne(H, i);
      RemoveOne(G, |G| - 1);
      assert G[..|G| - 1] + G[|G| - 1 + 1..] == G';
      assert Concat(G) == Concat(G') + g;
      hide Concat, Hits;
      HitsPermuted(m, G', H', p);
      HitsRemove(m, H, i, p);
      HitsAppend(m, Concat(G'), g, p);
    }
  }

  // ---- Which trees are built from stacks ----

  /** Every node is counted, and at least as often as its children together. */
  ghost predicate Flow(kids: seq<Tree>) {
    forall i | 0 <= i < |kids| :: kids[i].n >= 1 && kids[i].n >= SumN(kids[i].kids) && Flow(kids[i].kids)
  }

  ghost predicate WellFormed(t: Tree) {
    t.frame == EmptyFrame() && t.n >= SumN(t.kids) && Distinct(t.kids) && Flow(t.kids)
  }

  ghost function Copies(s: seq<Frame>, k: int): seq<seq<Frame>> {
    if k <= 0 then [] else Copies(s, k - 1) + [s]
  }

  ghost function Prefixed(f: Frame, L: seq<seq<Frame>>): seq<seq<Frame>> {
    if L == [] then [] else Prefixed(f, L[..|L| - 1]) + [[f] + L[|L| - 1]]
  }

  /** The stacks recorded in a subtree: those ending at its root, then the longer ones. */
  ghost function Stacks(t: Tree): seq<seq<Frame>>
    decreases t, 1
  {
    Copies([], t.n - SumN(t.kids)) + Unbuild(t.kids)
  }

  ghost function Unbuild(kids: seq<Tree>): seq<seq<Frame>>
    decreases kids, 0
  {
    if kids == [] then []
    else var l := kids[|kids| - 1]; Unbuild(kids[..|kids| - 1]) + Prefixed(l.frame, Stacks(l))
  }

  /** Adding a list of stacks to an existing list of children. */
  ghost function InsertAll(kids: seq<Tree>, L: seq<seq<Frame>>): seq<Tree> {
    if L == [] then kids else InsertKids(InsertAll(kids, L[..|L| - 1]), L[|L| - 1])
  }

  lemma {:induction false} InsertAllAppend(kids: seq<Tree>, A: seq<seq<Frame>>, B: seq<seq<Frame>>)
    ensures InsertAll(kids, A + B) == InsertAll(InsertAll(kids, A), B)
    decreases B
  {
    if B == [] {
      assert A + B == A;
    } else {
      assert (A + B)[..|A + B| - 1] == A + B[..|B| - 1];
      InsertAllAppend(kids, A, B[..|B| - 1]);
    }
  }

  lemma {:induction false} BuildIsInsertAll(L: seq<seq<Frame>>)
    ensures BuildKids(L) == InsertAll([], L)
  {
    if L != [] { BuildIsInsertAll(L[..|L| - 1]); }
  }

  lemma {:induction false} InsertCopies(kids: seq<Tree>, k: int)
    ensures InsertAll(kids, Copies([], k)) == kids
    ensures k >= 0 ==> |Copies([], k)| == k
  {
    if k > 0 {
      InsertCopies(kids, k - 1);
      assert Copies([], k)[..|Copies([], k)| - 1] == Copies([], k - 1);
    }
  }

  /** Stacks that all start with a new frame `f` make one new child. */
  lemma {:induction false} InsertPrefixed(kids: seq<Tree>, f: Frame, L: seq<seq<Frame>>)
    requires FirstMatch(kids, f) == |kids| && L != []
    ensures InsertAll(kids, Prefixed(f, L)) == kids + [Node(|L|, f, InsertAll([], L))]
    decreases L
  {
    var L', s := L[..|L| - 1], L[|L| - 1];
    var P := Prefixed(f, L);
    assert P[..|P| - 1] == Prefixed(f, L') && P[|P| - 1] == [f] + s;
    assert ([f] + s)[1..] == s;
    if L' == [] {
      assert Prefixed(f, L') == [] && InsertAll(kids, Prefixed(f, L')) == kids && InsertAll([], L') == [];
    } else {
      InsertPrefixed(kids, f, L');
      var m := kids + [Node(|L'|, f, InsertAll([], L'))];
      MatchIs(m, f, |kids|);
      assert m[|kids| := Inserted(m[|kids|], [f] + s)] == kids + [Node(|L|, f, InsertAll([], L))];
    }
  }

  lemma {:induction false} PrefixedSize(f: Frame, L: seq<seq<Frame>>)
    ensures |Prefixed(f, L)| == |L|
  {
    if L != [] { PrefixedSize(f, L[..|L| - 1]); }
  }

  /** Reading the stacks off a forest and building again gives the same forest. */
  lemma {:induction false} BuildUnbuild(kids: seq<Tree>)
    requires Distinct(kids) && Flow(kids)
    ensures BuildKids(Unbuild(kids)) == kids
    ensures |Unbuild(kids)| == SumN(kids)
    decreases kids, 0
  {
    if kids == [] {
      assert SumN(kids) == 0;
    } else {
      hide BuildKids, Unbuild, Stacks, InsertAll, SumN, Flow, Distinct;
      var K, l := kids[..|kids| - 1], kids[|kids| - 1];
      WithoutLast(kids);
      BuildUnbuild(K);
      StacksBuild(l);
      assert kids == K + [l];
      UnbuildStep(K, l);
    }
  }

  lemma WithoutLast(kids: seq<Tree>)
    requires kids != [] && Distinct(kids) && Flow(kids)
    ensures var K, l := kids[..|kids| - 1], kids[|kids| - 1];
      && Distinct(K) && Flow(K) && FirstMatch(K, l.frame) == |K|
      && Distinct(l.kids) && Flow(l.kids) && l.n >= SumN(l.kids) && l.n >= 1
  {
    hide SumN;
    MatchIs(kids[..|kids| - 1], kids[|kids| - 1].frame, |kids| - 1);
  }

  lemma {:induction false} UnbuildStep(K: seq<Tree>, l: Tree)
    requires BuildKids(Unbuild(K)) == K && |Unbuild(K)| == SumN(K)
    requires InsertAll([], Stacks(l)) == l.kids && |Stacks(l)| == l.n && l.n >= 1
    requires FirstMatch(K, l.frame) == |K|
    ensures BuildKids(Unbuild(K + [l])) == K + [l] && |Unbuild(K + [l])| == SumN(K + [l])
  {
    var P := Prefixed(l.frame, Stacks(l));
    assert (K + [l])[..|K|] == K;
    assert Unbuild(K + [l]) == Unbuild(K) + P;
    BuildIsInsertAll(Unbuild(K));
    BuildIsInsertAll(Unbuild(K) + P);
    InsertAllAppend([], Unbuild(K), P);
    PrefixedSize(l.frame, Stacks(l));
    InsertPrefixed(K, l.frame, Stacks(l));
    SumNAppend(K, [l]);
    assert [l][1..] == [];
  }

  lemma {:induction false} StacksBuild(t: Tree)
    requires Distinct(t.kids) && Flow(t.kids) && t.n >= SumN(t.kids)
    ensures InsertAll([], Stacks(t)) == t.kids
    ensures |Stacks(t)| == t.n
    decreases t, 1
  {
    BuildUnbuild(t.kids);
    StacksStep(t);
  }

  lemma {:induction false} StacksStep(t: Tree)
    requires BuildKids(Unbuild(t.kids)) == t.kids && |Unbuild(t.kids)| == SumN(t.kids) <= t.n
    ensures InsertAll([], Stacks(t)) == t.kids && |Stacks(t)| == t.n
  {
    hide BuildKids, Unbuild, SumN, InsertAll, Copies;
    var C, U := Copies([], t.n - SumN(t.kids)), Unbuild(t.kids);
    assert Stacks(t) == C + U;
    assert InsertAll([], C + U) == t.kids by {
      BuildIsInsertAll(U);
      InsertCopies([], t.n - SumN(t.kids));
      InsertAllAppend([], C, U);
    }
    assert |C| == t.n - SumN(t.kids) by {
      InsertCopies([], t.n - SumN(t.kids));
    }
  }

  lemma {:induction false} InsertFlow(kids: seq<Tree>, s: seq<Frame>)
    requires Flow(kids)
    ensures Flow(InsertKids(kids, s))
    decreases s
  {
    if s != [] {
      var i := FirstMatch(kids, s[0]);
      var k := if i < |kids| then kids[i].kids else [];
      InsertFlow(k, s[1..]);
      InsertSum(k, s[1..]);
    }
  }

  lemma {:induction false} BuildFlow(stacks: seq<seq<Frame>>)
    ensures Flow(BuildKids(stacks)) && |stacks| >= SumN(BuildKids(stacks))
  {
    if stacks != [] {
      BuildFlow(stacks[..|stacks| - 1]);
      InsertFlow(BuildKids(stacks[..|stacks| - 1]), stacks[|stacks| - 1]);
      InsertSum(BuildKids(stacks[..|stacks| - 1]), stacks[|stacks| - 1]);
    }
  }

  lemma {:induction false} BuildDistinct(stacks: seq<seq<Frame>>)
    ensures Distinct(BuildKids(stacks))
  {
    if stacks != [] {
      BuildDistinct(stacks[..|stacks| - 1]);
      InsertDistinct(BuildKids(stacks[..|stacks| - 1]), stacks[|stacks| - 1]);
    }
  }

  /** The trees built from stacks are exactly the well-formed ones, and the stacks can be read off. */
  lemma {:induction false} BuiltExactly(t: Tree)
    ensures WellFormed(t) ==> Build(Stacks(t)) == t
    ensures WellFormed(t) <==> exists stacks :: t == Build(stacks)
  {
    if WellFormed(t) {
      StacksBuild(t);
      BuildIsInsertAll(Stacks(t));
    }
    if stacks :| t == Build(stacks) {
      BuildFlow(stacks);
      BuildDistinct(stacks);
    }
  }

  // ---- Consequences for merging ----

  lemma {:induction false} PrefixedIn(f: Frame, L: seq<seq<Frame>>, S: set<Frame>)
    requires f in S && StacksIn(L, S)
    ensures StacksIn(Prefixed(f, L), S)
  {
    if L != [] {
      PrefixedIn(f, L[..|L| - 1], S);
      assert AllIn([f] + L[|L| - 1], S);
    }
  }

  lemma {:induction false} CopiesIn(k: int, S: set<Frame>)
    ensures StacksIn(Copies([], k), S)
  {
    if k > 0 { CopiesIn(k - 1, S); }
  }

  lemma {:induction false} UnbuildIn(kids: seq<Tree>, S: set<Frame>)
    requires Within(kids, S)
    ensures StacksIn(Unbuild(kids), S)
    decreases kids, 0
  {
    if kids != [] {
      var l := kids[|kids| - 1];
      UnbuildIn(kids[..|kids| - 1], S);
      StacksOfIn(l, S);
      PrefixedIn(l.frame, Stacks(l), S);
    }
  }

  lemma {:induction false} StacksOfIn(t: Tree, S: set<Frame>)
    requires Within(t.kids, S)
    ensures StacksIn(Stacks(t), S)
    decreases t, 1
  {
    UnbuildIn(t.kids, S);
    CopiesIn(t.n - SumN(t.kids), S);
  }

  lemma {:induction false} MergeBuiltAssociative(A: seq<seq<Frame>>, B: seq<seq<Frame>>, C: seq<seq<Frame>>,
                                                 S: set<Frame>)
    requires Coherent(S) && StacksIn(A, S) && StacksIn(B, S) && StacksIn(C, S)
    ensures Merge(Merge(Build(A), Build(B)), Build(C)) == Merge(Build(A), Merge(Build(B), Build(C)))
  {
    assert Merge(Merge(Build(A), Build(B)), Build(C)) == Build(A + B + C) by {
      MergeIsBuild(A, B, S);
      MergeIsBuild(A + B, C, S);
    }
    assert Merge(Build(A), Merge(Build(B), Build(C))) == Build(A + (B + C)) by {
      MergeIsBuild(B, C, S);
      MergeIsBuild(A, B + C, S);
    }
    assert A + B + C == A + (B + C);
  }

  /** Merging well-formed trees is building from the stacks read off both. */
  lemma {:induction false} MergeReadsBack(a: Tree, b: Tree, S: set<Frame>)
    requires Coherent(S) && Within(a.kids, S) && Within(b.kids, S) && WellFormed(a) && WellFormed(b)
    ensures Merge(a, b) == Build(Stacks(a) + Stacks(b)) && WellFormed(Merge(a, b))
  {
    BuiltExactly(a); BuiltExactly(b);
    StacksOfIn(a, S); StacksOfIn(b, S);
    MergeIsBuild(Stacks(a), Stacks(b), S);
    BuiltExactly(Merge(a, b));
  }

  /** Merging well-formed trees is associative. */
  lemma {:induction false} MergeAssociative(a: Tree, b: Tree, c: Tree, S: set<Frame>)
    requires Coherent(S) && Within(a.kids, S) && Within(b.kids, S) && Within(c.kids, S)
    requires WellFormed(a) && WellFormed(b) && WellFormed(c)
    ensures Merge(Merge(a, b), c) == Merge(a, Merge(b, c))
  {
    BuiltExactly(a); BuiltExactly(b); BuiltExactly(c);
    StacksOfIn(a, S); StacksOfIn(b, S); StacksOfIn(c, S);
    MergeBuiltAssociative(Stacks(a), Stacks(b), Stacks(c), S);
  }

  /** Replies merged one after the other into an empty tree. */
  ghost function MergeAll(replies: seq<Tree>): Tree {
    if replies == [] then EmptyTree() else Merge(MergeAll(replies[..|replies| - 1]), replies[|replies| - 1])
  }

  /** The trees of groups of stacks. */
  ghost function BuildAll(groups: seq<seq<seq<Frame>>>): (trees: seq<Tree>)
    ensures |trees| == |groups|
  {
    seq(|groups|, i requires 0 <= i < |groups| => Build(groups[i]))
  }

  ghost predicate GroupsIn(groups: seq<seq<seq<Frame>>>, S: set<Frame>) {
    forall i | 0 <= i < |groups| :: StacksIn(groups[i], S)
  }

  /** Merging the replies in order of arrival builds one tree from all their stacks. */
  lemma {:induction false} MergeAllIsBuild(replies: seq<Tree>, groups: seq<seq<seq<Frame>>>, S: set<Frame>)
    requires Coherent(S) && GroupsIn(groups, S) && |replies| == |groups|
    requires forall i | 0 <= i < |groups| :: replies[i] == Build(groups[i])
    ensures MergeAll(replies) == Build(Concat(groups)) && StacksIn(Concat(groups), S)
  {
    if groups != [] {
      var k := |groups| - 1;
      MergeAllIsBuild(replies[..k], groups[..k], S);
      MergeIsBuild(Concat(groups[..k]), groups[k], S);
    }
  }

  /** The distributed form agrees with one build over the local stacks and then the remote ones. */
  lemma {:induction false} GlobalIsBuild(local: seq<seq<Frame>>, replies: seq<Tree>, groups: seq<seq<seq<Frame>>>,
                                         S: set<Frame>)
    requires Coherent(S) && StacksIn(local, S) && GroupsIn(groups, S) && |replies| == |groups|
    requires forall i | 0 <= i < |groups| :: replies[i] == Build(groups[i])
    ensures Merge(Build(local), MergeAll(replies)) == Build(local + Concat(groups))
  {
    MergeAllIsBuild(replies, groups, S);
    MergeIsBuild(local, Concat(groups), S);
  }

  /** Replies arriving in another order give the same counts. */
  lemma {:induction false} ArrivalOrder(m: Measure, local: seq<seq<Frame>>, G: seq<seq<seq<Frame>>>,
                                        H: seq<seq<seq<Frame>>>,
                                        p: seq<Frame>, S: set<Frame>)
    requires Coherent(S) && StacksIn(local, S) && GroupsIn(G, S) && GroupsIn(H, S) && AllIn(p, S) && p != []
    requires multiset(G) == multiset(H)
    ensures Count(m, Build(local + Concat(G)).kids, p) == Count(m, Build(local + Concat(H)).kids, p)
    ensures |local + Concat(G)| == |local + Concat(H)|
  {
    ConcatIn(G, S); ConcatIn(H, S);
    BuildCount(m, local + Concat(G), p, S);
    BuildCount(m, local + Concat(H), p, S);
    HitsAppend(m, local, Concat(G), p);
    HitsAppend(m, local, Concat(H), p);
    HitsPermuted(m, G, H, p);
    HitsPermuted(Passing, G, H, []);
    HitsAll(Concat(G)); HitsAll(Concat(H));
  }

  lemma {:induction false} ConcatIn(groups: seq<seq<seq<Frame>>>, S: set<Frame>)
    requires GroupsIn(groups, S)
    ensures StacksIn(Concat(groups), S)
  {
    if groups != [] { ConcatIn(groups[..|groups| - 1], S); }
  }

  lemma {:induction false} HitsAll(L: seq<seq<Frame>>)
    ensures Hits(Passing, L, []) == |L|
  {
    if L != [] { HitsAll(L[..|L| - 1]); }
  }
}
