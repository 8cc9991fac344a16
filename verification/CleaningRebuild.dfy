/** With nothing to remove, cleaning a tree is building it again from its stacks. */
module CleaningRebuild {
  import opened Frames
  import opened Trees
  import opened Trie
  import opened TrieCounts
  import opened Cleaning
  import opened CleaningShape
  import opened CleaningCounts

  lemma {:induction false} UnbuildAppend(a: seq<Tree>, b: seq<Tree>)
    ensures Unbuild(a + b) == Unbuild(a) + Unbuild(b)
    decreases b
  {
    if b == [] {
      assert a + b == a;
    } else {
      hide Stacks, Prefixed;
      assert (a + b)[..|a + b| - 1] == a + b[..|b| - 1];
      UnbuildAppend(a, b[..|b| - 1]);
    }
  }

  lemma {:induction false} UnbuildOne(x: Tree)
    ensures Unbuild([x]) == Prefixed(x.frame, Stacks(x))
  {
    assert [x][..0] == [];
  }

  /** As many stacks as were counted. */
  lemma {:induction false} UnbuildSize(kids: seq<Tree>)
    requires Flow(kids)
    ensures |Unbuild(kids)| == SumN(kids)
    decreases kids, 0
  {
    if kids != [] {
      var K, l := kids[..|kids| - 1], kids[|kids| - 1];
      assert kids == K + [l];
      UnbuildSize(K);
      StacksSize(l);
      PrefixedSize(l.frame, Stacks(l));
      SumNAppend(K, [l]);
      assert [l][1..] == [];
    }
  }

  lemma {:induction false} StacksSize(t: Tree)
    requires Flow(t.kids) && t.n >= SumN(t.kids)
    ensures |Stacks(t)| == t.n
    decreases t, 1
  {
    UnbuildSize(t.kids);
    InsertCopies([], t.n - SumN(t.kids));
  }

  /** The stacks through one node build one node. */
  lemma {:induction false} BuildOne(x: Tree)
    requires x.n >= 1 && Flow(x.kids) && x.n >= SumN(x.kids)
    ensures BuildKids(Unbuild([x])) == [Node(x.n, x.frame, BuildKids(Unbuild(x.kids)))]
  {
    hide BuildKids, Flow, SumN, Copies, Unbuild, InsertAll, Prefixed;
    var L, C, U := Stacks(x), Copies([], x.n - SumN(x.kids)), Unbuild(x.kids);
    StacksSize(x);
    UnbuildOne(x);
    BuildIsInsertAll(Prefixed(x.frame, L));
    NoMatch(x.frame);
    InsertPrefixed([], x.frame, L);
    assert L == C + U;
    InsertAllAppend([], C, U);
    InsertCopies([], x.n - SumN(x.kids));
    BuildIsInsertAll(U);
  }

  lemma NoMatch(f: Frame)
    ensures FirstMatch([], f) == 0
  {
  }

  /** Lists of stacks that build the same build the same with more stacks behind them. */
  lemma {:induction false} BuildOn(A: seq<seq<Frame>>, B: seq<seq<Frame>>, R: seq<seq<Frame>>)
    requires BuildKids(A) == BuildKids(B)
    ensures BuildKids(A + R) == BuildKids(B + R)
  {
    BuildIsInsertAll(A); BuildIsInsertAll(B);
    BuildIsInsertAll(A + R); BuildIsInsertAll(B + R);
    InsertAllAppend([], A, R); InsertAllAppend([], B, R);
  }

  /** Well-formed lists of children, one after the other, build what merging them gives. */
  lemma {:induction false} BuildBoth(a: seq<Tree>, b: seq<Tree>, S: set<Frame>)
    requires Coherent(S) && Within(a, S) && Within(b, S) && Distinct(a) && Flow(a) && Distinct(b) && Flow(b)
    ensures BuildKids(Unbuild(a + b)) == MergeKids(a, b)
  {
    hide *;
    UnbuildAppend(a, b);
    UnbuildIn(a, S); UnbuildIn(b, S);
    BuildUnbuild(a); BuildUnbuild(b);
    MergeIsBuild(Unbuild(a), Unbuild(b), S);
  }

  ghost predicate Ready(keep: Frame -> bool, kids: seq<Tree>, S: set<Frame>) {
    Within(kids, S) && Flow(kids) && NothingToRemove(keep, kids)
  }

  lemma {:induction false} ReadyAppend(keep: Frame -> bool, a: seq<Tree>, b: seq<Tree>, S: set<Frame>)
    requires Ready(keep, a, S) && Ready(keep, b, S)
    ensures Ready(keep, a + b, S)
  {
    hide Contributor, LibcFgets;
    WithinAppend(a, b, S);
    WantedAppend(keep, a, b);
  }

  lemma {:induction false} ReadyTail(keep: Frame -> bool, rest: seq<Tree>, S: set<Frame>)
    requires rest != [] && Ready(keep, rest, S)
    ensures var x := rest[0];
      && Judge(keep, x).Retain? && Trim(x) == x
      && Ready(keep, x.kids, S) && Ready(keep, rest[1..], S) && Ready(keep, [], S)
      && x.n >= 1 && x.n >= SumN(x.kids) && x.frame in S
      && keep(x.frame) && !Contributor(x.frame) && !LibcFgets(x.frame)
      && Unbuild(rest) == Unbuild([x]) + Unbuild(rest[1..])
  {
    hide Unbuild, Contributor, LibcFgets, Judge, Trim;
    WantedTail(keep, rest);
    assert rest == [rest[0]] + rest[1..];
    UnbuildAppend([rest[0]], rest[1..]);
  }

  lemma ReadyElement(keep: Frame -> bool, kids: seq<Tree>, i: nat, S: set<Frame>)
    requires Ready(keep, kids, S) && i < |kids|
    ensures Ready(keep, kids[i].kids, S)
  {
    hide Contributor, LibcFgets;
  }

  /** Merging a cleaned child the way `cleanupStackTrace` does is merging it the way `add` does. */
  lemma {:induction false} AbsorbMerges(keep: Frame -> bool, done: seq<Tree>, y: Tree, S: set<Frame>)
    requires Coherent(S) && Ready(keep, done, S) && Distinct(done)
    requires y.frame in S && Ready(keep, y.kids, S) && Distinct(y.kids)
    ensures Absorb(keep, done, y) == MergeOne(done, y)
    decreases Max(Height(done), 1 + Height(y.kids)), 0, 0
  {
    hide CleanLoop, Clean, Absorb, Height, Nodes, Flow, NothingToRemove, Contributor, LibcFgets,
      Coherent, MergeOne, MergeKids,
      BuildKids, Unbuild;
    var k := FirstMatch(done, y.frame);
    SoleMatch(done, y.frame, S);
    AbsorbSole(keep, done, y, k);
    MergeOneSole(done, y, k);
    if k < |done| {
      var d, m := done[k], done[k].kids + y.kids;
      HeightAppend(d.kids, y.kids);
      HeightElement(done, k);
      ReadyElement(keep, done, k, S);
      ReadyAppend(keep, d.kids, y.kids, S);
      CleanRebuilds(keep, m, S);
      BuildBoth(d.kids, y.kids, S);
    }
  }

  /** What a child is after its own children were cleaned. */
  lemma {:induction false} ChildRebuilt(keep: Frame -> bool, x: Tree, y: Tree, S: set<Frame>)
    requires Coherent(S) && Ready(keep, x.kids, S) && x.n >= 1 && x.n >= SumN(x.kids) && x.frame in S
    requires y == Node(x.n, x.frame, CleanLoop(keep, [], x.kids)) && y.kids == BuildKids(Unbuild([]) + Unbuild(x.kids))
    ensures Ready(keep, y.kids, S) && Distinct(y.kids) && BuildKids(Unbuild([x])) == [y]
  {
    hide CleanLoop, Contributor, LibcFgets, Unbuild, Flow, Coherent;
    assert Unbuild([]) + Unbuild(x.kids) == Unbuild(x.kids) by { NoStacks(); }
    BuildFlow(Unbuild(x.kids));
    BuildDistinct(Unbuild(x.kids));
    EmptyForest(S);
    LoopWithin(keep, [], x.kids, S);
    SumBelow(Passing, keep, x, y, [x.frame], S);
    BuildOne(x);
  }

  lemma NoStacks()
    ensures Unbuild([]) == []
  {
  }

  /** The children done after one more. */
  lemma {:induction false} DoneRebuilt(keep: Frame -> bool, done: seq<Tree>, x: Tree, y: Tree, S: set<Frame>)
    requires Coherent(S) && Ready(keep, done, S) && Distinct(done) && Ready(keep, y.kids, S) && Distinct(y.kids)
    requires x.frame in S && y.frame == x.frame && keep(x.frame) && !Contributor(x.frame) && !LibcFgets(x.frame)
    requires Within([x], S) && BuildKids(Unbuild([x])) == [y] && Absorb(keep, done, y) == MergeOne(done, y)
    ensures var r := Absorb(keep, done, y);
      r == BuildKids(Unbuild(done) + Unbuild([x])) && Ready(keep, r, S) && Distinct(r)
  {
    hide Absorb, Contributor, LibcFgets, Unbuild, Flow, Coherent, MergeOne, NothingToRemove, Within;
    MergeLast(done, y);
    BuildUnbuild(done);
    UnbuildIn(done, S);
    UnbuildIn([x], S);
    MergeIsBuild(Unbuild(done), Unbuild([x]), S);
    BuildFlow(Unbuild(done) + Unbuild([x]));
    BuildDistinct(Unbuild(done) + Unbuild([x]));
    AbsorbCounts(Passing, keep, done, y, [x.frame], S);
  }

  /** Adding the stacks of the rest to what was done. */
  lemma {:induction false} RestRebuilt(done: seq<Tree>, A: seq<seq<Frame>>, B: seq<seq<Frame>>, C: seq<seq<Frame>>)
    requires done == BuildKids(A + B)
    ensures BuildKids(Unbuild(done) + C) == BuildKids(A + (B + C))
  {
    hide *;
    BuildFlow(A + B);
    BuildDistinct(A + B);
    BuildUnbuild(done);
    BuildOn(Unbuild(done), A + B, C);
    assert A + B + C == A + (B + C);
  }

  lemma OneWithin(x: Tree, S: set<Frame>)
    requires x.frame in S && Within(x.kids, S)
    ensures Within([x], S)
  {
  }

  lemma ReadyWithin(keep: Frame -> bool, kids: seq<Tree>, S: set<Frame>)
    requires Ready(keep, kids, S)
    ensures Within(kids, S)
  {
  }

  lemma {:induction false} DoneAlone(keep: Frame -> bool, done: seq<Tree>, S: set<Frame>)
    requires Ready(keep, done, S) && Distinct(done)
    ensures CleanLoop(keep, done, []) == BuildKids(Unbuild(done) + Unbuild([]))
  {
    BuildUnbuild(done);
    assert Unbuild(done) + Unbuild([]) == Unbuild(done);
  }

  /** The loop builds from the stacks of the children done and of those left. */
  lemma {:induction false} LoopRebuilds(keep: Frame -> bool, done: seq<Tree>, rest: seq<Tree>, S: set<Frame>)
    requires Coherent(S) && Ready(keep, done, S) && Distinct(done) && Ready(keep, rest, S)
    ensures CleanLoop(keep, done, rest) == BuildKids(Unbuild(done) + Unbuild(rest))
    decreases Max(Height(done), Height(rest)), Nodes(rest), 0
  {
    hide CleanLoop, Absorb, Ready, Distinct, Coherent, Height, Nodes, Judge, Trim, BuildKids, Unbuild, Contributor,
      LibcFgets, MergeOne, SumN, Within;
    if rest == [] {
      DoneAlone(keep, done, S);
    } else {
      Step(keep, done, rest);
      Shrinks(rest);
      ReadyTail(keep, rest, S);
      EmptyForest(S);
      var x := rest[0];
      LoopRebuilds(keep, [], x.kids, S);
      var y := Node(x.n, x.frame, CleanLoop(keep, [], x.kids));
      ChildRebuilt(keep, x, y, S);
      AbsorbMerges(keep, done, y, S);
      ReadyWithin(keep, x.kids, S);
      OneWithin(x, S);
      DoneRebuilt(keep, done, x, y, S);
      var r := Absorb(keep, done, y);
      LoopRebuilds(keep, r, rest[1..], S);
      RestRebuilt(r, Unbuild(done), Unbuild([x]), Unbuild(rest[1..]));
    }
  }

  /** With nothing to remove, cleaning builds the tree again from its stacks: counts, representative frames
      and order of children are those of the first insertion. */
  lemma {:induction false} CleanRebuilds(keep: Frame -> bool, kids: seq<Tree>, S: set<Frame>)
    requires Coherent(S) && Ready(keep, kids, S)
    ensures Clean(keep, kids) == BuildKids(Unbuild(kids))
    decreases Height(kids), Nodes(kids), 1
  {
    assert Unbuild([]) + Unbuild(kids) == Unbuild(kids);
    LoopRebuilds(keep, [], kids, S);
  }

  /** Cleaning two well-formed lists of children, one after the other, is merging them with `add`. */
  lemma {:induction false} CleanIsMerge(keep: Frame -> bool, a: seq<Tree>, b: seq<Tree>, S: set<Frame>)
    requires Coherent(S) && Ready(keep, a, S) && Ready(keep, b, S) && Distinct(a) && Distinct(b)
    ensures Clean(keep, a + b) == MergeKids(a, b)
  {
    hide Clean, NothingToRemove, Flow, Distinct, Coherent;
    ReadyAppend(keep, a, b, S);
    CleanRebuilds(keep, a + b, S);
    BuildBoth(a, b, S);
  }
}
