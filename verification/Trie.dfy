/** Building a tree from call stacks, merging two trees, and why both agree.

    Paths are outermost frame first; the arrays given to `add` hold the outermost frame last. */
module Trie {
  import opened Frames
  import opened Trees

  /** `add(len, stack)` on the list of children. */
  function InsertKids(kids: seq<Tree>, p: seq<Frame>): seq<Tree>
    decreases p
  {
    if p == [] then kids
    else
      var i := FirstMatch(kids, p[0]);
      if i < |kids| then kids[i := Node(kids[i].n + 1, kids[i].frame, InsertKids(kids[i].kids, p[1..]))]
      else kids + [Node(1, p[0], InsertKids([], p[1..]))]
  }

  /** `add(rhs)`: the counts add up and every child of `x` is merged in order. */
  function Merge(t: Tree, x: Tree): Tree
    decreases x, 1
  {
    Node(t.n + x.n, t.frame, MergeKids(t.kids, x.kids))
  }

  function MergeKids(a: seq<Tree>, b: seq<Tree>): seq<Tree>
    decreases b
  {
    if b == [] then a else MergeOne(MergeKids(a, b[..|b| - 1]), b[|b| - 1])
  }

  /** One round of the outer loop: merge `x` into every equal child, or append it. */
  function MergeOne(m: seq<Tree>, x: Tree): (r: seq<Tree>)
    ensures |m| <= |r|
    ensures forall i | 0 <= i < |m| :: r[i].frame == m[i].frame
    decreases x, 2
  {
    seq(|m|, i requires 0 <= i < |m| => if Same(m[i].frame, x.frame) then Merge(m[i], x) else m[i])
    + (if FirstMatch(m, x.frame) == |m| then [x] else [])
  }

  /** The children after adding all stacks in order. */
  function BuildKids(stacks: seq<seq<Frame>>): seq<Tree> {
    if stacks == [] then []
    else InsertKids(BuildKids(stacks[..|stacks| - 1]), stacks[|stacks| - 1])
  }

  /** `generateMultiStack`: the root counts the stacks. */
  function Build(stacks: seq<seq<Frame>>): Tree {
    Node(|stacks|, EmptyFrame(), BuildKids(stacks))
  }

  ghost predicate StacksIn(stacks: seq<seq<Frame>>, S: set<Frame>) {
    forall i | 0 <= i < |stacks| :: AllIn(stacks[i], S)
  }

  // ---- What insertion keeps ----

  lemma {:induction false} InsertDistinct(kids: seq<Tree>, p: seq<Frame>)
    requires Distinct(kids)
    ensures Distinct(InsertKids(kids, p))
    decreases p
  {
    if p != [] {
      var i := FirstMatch(kids, p[0]);
      InsertDistinct(if i < |kids| then kids[i].kids else [], p[1..]);
    }
  }

  lemma {:induction false} InsertKeeps(kids: seq<Tree>, p: seq<Frame>, S: set<Frame>)
    requires Within(kids, S) && Distinct(kids) && AllIn(p, S)
    ensures Within(InsertKids(kids, p), S) && Distinct(InsertKids(kids, p))
    decreases p
  {
    InsertDistinct(kids, p);
    if p != [] {
      hide Distinct;
      var i := FirstMatch(kids, p[0]);
      assert AllIn(p[1..], S);
      assert Distinct(if i < |kids| then kids[i].kids else []) by { DistinctBelow(kids); }
      InsertKeeps(if i < |kids| then kids[i].kids else [], p[1..], S);
    }
  }

  lemma {:induction false} BuildKeeps(stacks: seq<seq<Frame>>, S: set<Frame>)
    requires StacksIn(stacks, S)
    ensures Within(BuildKids(stacks), S) && Distinct(BuildKids(stacks))
  {
    if stacks != [] {
      BuildKeeps(stacks[..|stacks| - 1], S);
      InsertKeeps(BuildKids(stacks[..|stacks| - 1]), stacks[|stacks| - 1], S);
    }
  }

  // ---- What merging keeps ----

  /** When only one child can match, merging touches that child alone, or appends. */
  lemma {:induction false} MergeOneSole(m: seq<Tree>, x: Tree, k: nat)
    requires Sole(m, x.frame, k)
    ensures MergeOne(m, x) == if k < |m| then m[k := Merge(m[k], x)] else m + [x]
  {
    SoleIsFirst(m, x.frame, k);
  }

  lemma {:induction false} InsertSole(m: seq<Tree>, p: seq<Frame>, k: nat)
    requires p != [] && Sole(m, p[0], k) && k < |m|
    ensures InsertKids(m, p) == m[k := Node(m[k].n + 1, m[k].frame, InsertKids(m[k].kids, p[1..]))]
  {
    SoleIsFirst(m, p[0], k);
  }

  /** One round of the outer loop keeps siblings different at this level: frames of earlier children stay,
      and a new child is appended only when it equals none of them. */
  lemma OneApart(m: seq<Tree>, x: Tree)
    requires Apart(m)
    ensures Apart(MergeOne(m, x))
  {
    hide Merge;
  }

  /** Merging keeps siblings different at all depths, whatever the frames. */
  lemma {:induction false} MergeDistinct(a: seq<Tree>, b: seq<Tree>)
    requires Distinct(a) && Distinct(b)
    ensures Distinct(MergeKids(a, b))
    decreases b
  {
    if b != [] {
      var b', x := b[..|b| - 1], b[|b| - 1];
      MergeDistinct(a, b');
      var m := MergeKids(a, b');
      var r := MergeOne(m, x);
      OneApart(m, x);
      forall i | 0 <= i < |r| ensures Distinct(r[i].kids) {
        if i < |m| && Same(m[i].frame, x.frame) { MergeDistinct(m[i].kids, x.kids); }
      }
    }
  }

  lemma {:induction false} MergeWithin(a: seq<Tree>, b: seq<Tree>, S: set<Frame>)
    requires Within(a, S) && Within(b, S)
    ensures Within(MergeKids(a, b), S)
    decreases b
  {
    if b != [] {
      var b', x := b[..|b| - 1], b[|b| - 1];
      MergeWithin(a, b', S);
      var m := MergeKids(a, b');
      var r := MergeOne(m, x);
      assert x.frame in S && Within(x.kids, S);
      forall i | 0 <= i < |r| ensures r[i].frame in S && Within(r[i].kids, S) {
        if i == |m| {
          assert r[i] == x;
        } else {
          assert m[i].frame in S && Within(m[i].kids, S);
          if Same(m[i].frame, x.frame) {
            MergeWithin(m[i].kids, x.kids, S);
            assert r[i] == Merge(m[i], x);
          } else {
            assert r[i] == m[i];
          }
        }
      }
    }
  }

  lemma {:induction false} MergeKeeps(a: seq<Tree>, b: seq<Tree>, S: set<Frame>)
    requires Within(a, S) && Within(b, S) && Distinct(a) && Distinct(b)
    ensures Within(MergeKids(a, b), S) && Distinct(MergeKids(a, b))
  {
    MergeWithin(a, b, S);
    MergeDistinct(a, b);
  }

  /** Every child of the second operand has an equal child in the result. */
  lemma {:induction false} MergeCovers(a: seq<Tree>, b: seq<Tree>, j: nat)
    requires j < |b|
    ensures FirstMatch(MergeKids(a, b), b[j].frame) < |MergeKids(a, b)|
    decreases b
  {
    var b', x := b[..|b| - 1], b[|b| - 1];
    var m := MergeKids(a, b');
    var r := MergeOne(m, x);
    if j < |b'| {
      MergeCovers(a, b', j);
      var i := FirstMatch(m, b[j].frame);
      assert Same(r[i].frame, b[j].frame);
    } else {
      var i := FirstMatch(m, x.frame);
      assert i < |r| && Same(r[i].frame, x.frame);
    }
  }

  // ---- Merging equals building ----

  lemma ChainIs(p: seq<Frame>)
    requires p != []
    ensures InsertKids([], p) == [Node(1, p[0], InsertKids([], p[1..]))]
  {
  }

  lemma MergeLast(m: seq<Tree>, c: Tree)
    ensures MergeKids(m, [c]) == MergeOne(m, c)
  {
    assert [c][..0] == [] && MergeKids(m, []) == m;
  }

  lemma ChildWithin(m: seq<Tree>, k: nat, S: set<Frame>)
    requires Within(m, S) && Distinct(m) && k < |m|
    ensures Within(m[k].kids, S) && Distinct(m[k].kids)
  {
  }

  /** Merging the tree of a single path is the same as inserting the path. */
  lemma {:induction false} MergeChain(m: seq<Tree>, p: seq<Frame>, S: set<Frame>)
    requires Coherent(S) && Within(m, S) && Distinct(m) && AllIn(p, S)
    ensures MergeKids(m, InsertKids([], p)) == InsertKids(m, p)
    decreases p
  {
    if p != [] {
      var c := Node(1, p[0], InsertKids([], p[1..]));
      var k := FirstMatch(m, p[0]);
      ChainIs(p);
      SoleMatch(m, p[0], S);
      MergeOneSole(m, c, k);
      MergeLast(m, c);
      if k < |m| {
        assert AllIn(p[1..], S);
        ChildWithin(m, k, S);
        MergeChain(m[k].kids, p[1..], S);
      }
      hide MergeOne, MergeKids, Within, Distinct, Coherent, AllIn, Apart;
    }
  }

  /** Inserting into the second operand and then merging is merging and then inserting. */
  lemma {:induction false} MergeInsert(a: seq<Tree>, b: seq<Tree>, p: seq<Frame>, S: set<Frame>)
    requires Coherent(S) && Within(a, S) && Within(b, S) && Distinct(a) && Distinct(b) && AllIn(p, S)
    ensures MergeKids(a, InsertKids(b, p)) == InsertKids(MergeKids(a, b), p)
    decreases p, b
  {
    if p != [] {
      assert AllIn(p[1..], S);
      var i := FirstMatch(b, p[0]);
      if i == |b| {
        MergeInsertNew(a, b, p, S);
      } else {
        var b', x := b[..|b| - 1], b[|b| - 1];
        var m := MergeKids(a, b');
        MergeKeeps(a, b', S);
        if i < |b'| {
          MergeInsert(a, b', p, S);
          MergeInsertEarlier(a, b, p, S);
        } else {
          var k := FirstMatch(m, x.frame);
          if k < |m| {
            MergeInsert(m[k].kids, x.kids, p[1..], S);
          }
          SoleMatch(m, x.frame, S);
          SoleShift(m, x.frame, p[0], k, S);
          MergeInserted(m, x, p, k);
          MergeInsertLast(a, b, p);
        }
      }
    }
  }

  /** `p` starts a new child of `b`. */
  lemma {:induction false} MergeInsertNew(a: seq<Tree>, b: seq<Tree>, p: seq<Frame>, S: set<Frame>)
    requires Coherent(S) && Within(a, S) && Within(b, S) && Distinct(a) && Distinct(b) && AllIn(p, S)
    requires p != [] && FirstMatch(b, p[0]) == |b|
    ensures MergeKids(a, InsertKids(b, p)) == InsertKids(MergeKids(a, b), p)
  {
    var c := Node(1, p[0], InsertKids([], p[1..]));
    var m := MergeKids(a, b);
    assert InsertKids([], p) == [c] && InsertKids(b, p) == b + [c];
    assert (b + [c])[..|b|] == b;
    MergeKeeps(a, b, S);
    MergeChain(m, p, S);
    assert [c][..0] == [] && MergeKids(m, [c]) == MergeOne(m, c);
  }

  /** `p` goes into the last child of `b`. */
  lemma {:induction false} MergeInsertLast(a: seq<Tree>, b: seq<Tree>, p: seq<Frame>)
    requires p != [] && b != [] && FirstMatch(b, p[0]) == |b| - 1
    requires var m, x := MergeKids(a, b[..|b| - 1]), b[|b| - 1];
             MergeOne(m, Inserted(x, p)) == InsertKids(MergeOne(m, x), p)
    ensures MergeKids(a, InsertKids(b, p)) == InsertKids(MergeKids(a, b), p)
  {
    var b', x := b[..|b| - 1], b[|b| - 1];
    assert InsertKids(b, p) == b' + [Inserted(x, p)];
    assert (b' + [Inserted(x, p)])[..|b| - 1] == b';
  }

  /** A child after a path through it was counted. */
  ghost function Inserted(x: Tree, p: seq<Frame>): Tree
    requires p != []
  {
    Node(x.n + 1, x.frame, InsertKids(x.kids, p[1..]))
  }

  /** Merging a child into which `p` was inserted is merging the child and then inserting `p`. */
  lemma {:induction false} MergeInserted(m: seq<Tree>, x: Tree, p: seq<Frame>, k: nat)
    requires p != [] && Sole(m, x.frame, k) && Sole(m, p[0], k) && Same(x.frame, p[0])
    requires k < |m| ==>
      MergeKids(m[k].kids, InsertKids(x.kids, p[1..])) == InsertKids(MergeKids(m[k].kids, x.kids), p[1..])
    ensures MergeOne(m, Inserted(x, p)) == InsertKids(MergeOne(m, x), p)
  {
    hide MergeOne, InsertKids;
    MergeOneSole(m, x, k);
    MergeOneSole(m, Inserted(x, p), k);
    if k < |m| {
      InsertSole(m[k := Merge(m[k], x)], p, k);
    } else {
      InsertSole(m + [x], p, k);
      assert (m + [x])[k := Inserted(x, p)] == m + [Inserted(x, p)];
    }
  }

  /** `p` goes into a child of `b` before the last. */
  lemma {:induction false} MergeInsertEarlier(a: seq<Tree>, b: seq<Tree>, p: seq<Frame>, S: set<Frame>)
    requires Coherent(S) && Within(a, S) && Within(b, S) && Distinct(a) && Distinct(b) && AllIn(p, S)
    requires p != [] && b != [] && FirstMatch(b, p[0]) < |b| - 1
    requires var b' := b[..|b| - 1]; MergeKids(a, InsertKids(b', p)) == InsertKids(MergeKids(a, b'), p)
    ensures MergeKids(a, InsertKids(b, p)) == InsertKids(MergeKids(a, b), p)
  {
    var b', x := b[..|b| - 1], b[|b| - 1];
    var m := MergeKids(a, b');
    assert FramesIn(m, S) && Apart(m) by { MergeKeeps(a, b', S); }
    assert FirstMatch(m, b[FirstMatch(b, p[0])].frame) < |m| by { MergeCovers(a, b', FirstMatch(b, p[0])); }
    assert FramesIn(b, S) && Apart(b);
    hide MergeOne, Within, Distinct, Apart, FramesIn, Coherent, Sole, Same;
    MatchesApart(m, b, p[0], S);
    InsertEarlier(b, p);
    InsertCommutesMergeOne(m, x, p, FirstMatch(m, p[0]), FirstMatch(m, x.frame));
  }

  lemma {:induction false} InsertEarlier(b: seq<Tree>, p: seq<Frame>)
    requires p != [] && b != [] && FirstMatch(b, p[0]) < |b| - 1
    ensures InsertKids(b, p)[..|b| - 1] == InsertKids(b[..|b| - 1], p)
    ensures |InsertKids(b, p)| == |b| && InsertKids(b, p)[|b| - 1] == b[|b| - 1]
  {
    MatchIs(b[..|b| - 1], p[0], FirstMatch(b, p[0]));
  }

  /** In the merged list, the child for `f` differs from the child for the last sibling of `b`. */
  lemma {:induction false} MatchesApart(m: seq<Tree>, b: seq<Tree>, f: Frame, S: set<Frame>)
    requires Coherent(S) && FramesIn(m, S) && FramesIn(b, S) && Apart(m) && Apart(b) && f in S
    requires b != [] && FirstMatch(b, f) < |b| - 1 && FirstMatch(m, b[FirstMatch(b, f)].frame) < |m|
    ensures var j, k, x := FirstMatch(m, f), FirstMatch(m, b[|b| - 1].frame), b[|b| - 1];
            j < |m| && Sole(m, f, j) && Sole(m, x.frame, k) && j != k && !Same(x.frame, f)
  {
    var g, x := b[FirstMatch(b, f)].frame, b[|b| - 1];
    SoleMatch(m, f, S);
    SoleMatch(m, x.frame, S);
    SoleMatch(m, g, S);
    SoleShift(m, g, f, FirstMatch(m, g), S);
    SameShift(S, g, f, x.frame);
    SameShift(S, m[FirstMatch(m, f)].frame, f, x.frame);
  }

  /** Insertion below one child commutes with merging into another. */
  lemma {:induction false} InsertCommutesMergeOne(m: seq<Tree>, x: Tree, p: seq<Frame>, j: nat, k: nat)
    requires p != [] && Sole(m, p[0], j) && j < |m| && Sole(m, x.frame, k) && j != k && !Same(x.frame, p[0])
    ensures MergeOne(InsertKids(m, p), x) == InsertKids(MergeOne(m, x), p)
  {
    hide MergeOne, InsertKids, MergeKids;
    InsertSole(m, p, j);
    MergeOneSole(m, x, k);
    MergeOneSole(m[j := Inserted(m[j], p)], x, k);
    if k < |m| {
      InsertSole(m[k := Merge(m[k], x)], p, j);
      assert m[k := Merge(m[k], x)][j := Inserted(m[j], p)] == m[j := Inserted(m[j], p)][k := Merge(m[k], x)];
    } else {
      InsertSole(m + [x], p, j);
      assert (m + [x])[j := Inserted(m[j], p)] == m[j := Inserted(m[j], p)] + [x];
    }
  }

  /** Merging two built trees gives the tree built from both lists of stacks. */
  lemma {:induction false} MergeIsBuild(A: seq<seq<Frame>>, B: seq<seq<Frame>>, S: set<Frame>)
    requires Coherent(S) && StacksIn(A, S) && StacksIn(B, S)
    ensures MergeKids(BuildKids(A), BuildKids(B)) == BuildKids(A + B)
    ensures Merge(Build(A), Build(B)) == Build(A + B)
    decreases B
  {
    if B == [] {
      assert A + B == A;
    } else {
      var B', s := B[..|B| - 1], B[|B| - 1];
      MergeIsBuild(A, B', S);
      BuildKeeps(A, S);
      BuildKeeps(B', S);
      MergeInsert(BuildKids(A), BuildKids(B'), s, S);
      assert (A + B)[..|A + B| - 1] == A + B';
    }
  }

  lemma BuildNext(A: seq<seq<Frame>>, s: seq<Frame>)
    ensures BuildKids(A + [s]) == InsertKids(BuildKids(A), s)
  {
    assert (A + [s])[..|A|] == A;
  }

  /** Inserting a path of one frame. */
  lemma InsertFrame(kids: seq<Tree>, f: Frame)
    ensures InsertKids(kids, [f]) ==
      var i := FirstMatch(kids, f);
      if i < |kids| then kids[i := Node(kids[i].n + 1, kids[i].frame, kids[i].kids)] else kids + [Node(1, f, [])]
  {
    assert [f][1..] == [] && InsertKids([], []) == [];
  }

  /** Two frames that differ, and one that equals both: merging counts the third under both, building only
      under the first. */
  lemma {:induction false} BridgeCounted(a: Frame, b: Frame, c: Frame)
    requires Same(a, b) && Same(b, c) && !Same(a, c)
    ensures MergeKids(BuildKids([[a], [c]]), BuildKids([[b]])) == [Node(2, a, []), Node(2, c, [])]
    ensures BuildKids([[a], [c]] + [[b]]) == [Node(2, a, []), Node(1, c, [])]
  {
    hide BuildKids, InsertKids, MergeKids, Merge;
    var m := [Node(1, a, []), Node(1, c, [])];
    assert BuildKids([]) == [] by { BuildNothing(); }
    assert [] + [[a]] == [[a]] && [[a]] + [[c]] == [[a], [c]] && [] + [[b]] == [[b]];
    BuildNext([], [a]); BuildNext([[a]], [c]); BuildNext([], [b]); BuildNext([[a], [c]], [b]);
    InsertFrame([], a); InsertFrame([], b);
    MatchIs([Node(1, a, [])], c, 1);
    InsertFrame([Node(1, a, [])], c);
    assert [] + [Node(1, a, [])] == [Node(1, a, [])] && [] + [Node(1, b, [])] == [Node(1, b, [])];
    assert [Node(1, a, [])] + [Node(1, c, [])] == m;
    assert BuildKids([[a]]) == [Node(1, a, [])] && BuildKids([[b]]) == [Node(1, b, [])];
    assert BuildKids([[a], [c]]) == m;
    MatchIs(m, b, 0);
    InsertFrame(m, b);
    MergeLast(m, Node(1, b, []));
    MergeLeaves(a, b); MergeLeaves(c, b);
  }

  lemma BuildNothing()
    ensures BuildKids([]) == []
  {
  }

  lemma MergeLeaves(a: Frame, b: Frame)
    ensures Merge(Node(1, a, []), Node(1, b, [])) == Node(2, a, [])
  {
  }

  /** Merging built trees is building from both lists, for all stacks over a set of frames, exactly when
      equality is an equivalence on the set. */
  lemma {:induction false} MergeIsBuildExactly(S: set<Frame>)
    ensures Coherent(S) <==> forall A, B | StacksIn(A, S) && StacksIn(B, S) ::
              MergeKids(BuildKids(A), BuildKids(B)) == BuildKids(A + B)
  {
    hide BuildKids, MergeKids;
    if Coherent(S) {
      forall A, B | StacksIn(A, S) && StacksIn(B, S)
        ensures MergeKids(BuildKids(A), BuildKids(B)) == BuildKids(A + B)
      {
        MergeIsBuild(A, B, S);
      }
    } else {
      var a, b, c :| a in S && b in S && c in S && Same(a, b) && Same(b, c) && !Same(a, c);
      BridgeCounted(a, b, c);
      assert StacksIn([[a], [c]], S) && StacksIn([[b]], S);
      assert [Node(2, a, []), Node(2, c, [])][1].n != [Node(2, a, []), Node(1, c, [])][1].n;
    }
  }
}
