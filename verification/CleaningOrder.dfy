/** Cleaning keeps paths in order for all trees over a set of frames exactly when equality is an equivalence on
    the set. */
module CleaningOrder {
  import opened Frames
  import opened Trees
  import opened Cleaning
  import opened CleaningPaths
  import opened CleaningTwice

  /** Nothing happens to the frame by itself. */
  ghost predicate Plain(keep: Frame -> bool, f: Frame) {
    keep(f) && !Contributor(f) && !LibcFgets(f)
  }

  /** One turn of the loop for a child that stays. */
  lemma {:induction false} PlainStep(keep: Frame -> bool, done: seq<Tree>, x: Tree, rest: seq<Tree>)
    requires Plain(keep, x.frame)
    ensures CleanLoop(keep, done, [x] + rest) ==
      CleanLoop(keep, Absorb(keep, done, Node(x.n, x.frame, Clean(keep, x.kids))), rest)
  {
    hide Contributor, LibcFgets, Absorb;
    var all := [x] + rest;
    assert all[1..] == rest && Trim(x) == x && Judge(keep, x).Retain?;
    hide Trim, Judge, Clean;
    Step(keep, done, all);
    CleanIs(keep, x.kids);
  }

  lemma CleanIs(keep: Frame -> bool, kids: seq<Tree>)
    ensures Clean(keep, kids) == CleanLoop(keep, [], kids)
  {
  }

  lemma LoopEnd(keep: Frame -> bool, done: seq<Tree>)
    ensures CleanLoop(keep, done, []) == done
  {
  }

  lemma AbsorbFirst(keep: Frame -> bool, y: Tree)
    ensures Absorb(keep, [], y) == [y]
  {
  }

  lemma AbsorbEqual(keep: Frame -> bool, d: Tree, y: Tree)
    requires Same(y.frame, d.frame)
    ensures Absorb(keep, [d], y) == [Node(d.n + y.n, d.frame, Clean(keep, d.kids + y.kids))]
  {
    hide Clean;
    MatchIs([d], y.frame, 0);
  }

  /** Two children, the second equal to the first: one is left, with the children of both, cleaned again. */
  lemma {:induction false} CleanPair(keep: Frame -> bool, x: Tree, y: Tree)
    requires Plain(keep, x.frame) && Plain(keep, y.frame) && Same(y.frame, x.frame)
    ensures Clean(keep, [x] + [y]) ==
      [Node(x.n + y.n, x.frame, Clean(keep, Clean(keep, x.kids) + Clean(keep, y.kids)))]
  {
    hide Clean, CleanLoop, Absorb, Plain;
    var d, z := Node(x.n, x.frame, Clean(keep, x.kids)), Node(y.n, y.frame, Clean(keep, y.kids));
    assert [y] + [] == [y];
    CleanIs(keep, [x] + [y]);
    PlainStep(keep, [], x, [y]);
    AbsorbFirst(keep, d);
    PlainStep(keep, [d], y, []);
    AbsorbEqual(keep, d, z);
    LoopEnd(keep, Absorb(keep, [d], z));
  }

  lemma {:induction false} CleanNone(keep: Frame -> bool)
    ensures Clean(keep, []) == []
  {
  }

  function Leaf(f: Frame): Tree {
    Node(1, f, [])
  }

  /** Under two nodes of frame `a`: `a`, and `b` beside `c` with `a` below it. */
  function Bridged(a: Frame, b: Frame, c: Frame): seq<Tree> {
    [Node(1, a, [Leaf(a)])] + [Node(1, a, [Leaf(b)] + [Node(1, c, [Leaf(a)])])]
  }

  /** `b` takes `c` in, then `a` takes `b` in, which leaves `a` below `a` below `a`. */
  lemma {:induction false} BridgedCleaned(keep: Frame -> bool, a: Frame, b: Frame, c: Frame)
    requires Plain(keep, a) && Plain(keep, b) && Plain(keep, c) && Same(a, b) && Same(b, c)
    ensures Clean(keep, Bridged(a, b, c)) == [Node(2, a, [Node(3, a, [Leaf(a)])])]
  {
    var la, lb, x := Leaf(a), Leaf(b), Node(1, c, [Leaf(a)]);
    assert !Contributor(a);
    CleanLeaf(keep, 1, a);
    CleanNone(keep);
    hide Clean, Plain;
    assert [] + [la] == [la];
    CleanPair(keep, lb, x);
    var y := Node(2, b, [la]);
    assert Clean(keep, [lb] + [x]) == [y];
    CleanPair(keep, la, y);
    var z := Node(3, a, [la]);
    assert Clean(keep, [la] + [y]) == [z];
    CleanPair(keep, Node(1, a, [la]), Node(1, a, [lb] + [x]));
  }

  /** A subsequence is no longer; one as long matches everywhere. */
  lemma {:induction false} SubPathLength(p: seq<Frame>, q: seq<Frame>)
    requires SubPath(p, q)
    ensures |p| <= |q|
    ensures |p| == |q| ==> forall i | 0 <= i < |p| :: Same(p[i], q[i])
    decreases q
  {
    if p != [] {
      if SubPath(p, q[1..]) { SubPathLength(p, q[1..]); } else { SubPathLength(p[1..], q[1..]); }
    }
  }

  lemma {:induction false} Middle(p: seq<Frame>, q: seq<Frame>)
    requires SubPath(p, q) && |p| == 3 && |q| <= 3
    ensures |q| == 3 && Same(p[1], q[1])
  {
    SubPathLength(p, q);
  }

  lemma {:induction false} PathHeight(kids: seq<Tree>, q: seq<Frame>)
    requires IsPath(kids, q)
    ensures |q| <= Height(kids)
    decreases q
  {
    var i :| 0 <= i < |kids| && Below(kids[i], q);
    HeightElement(kids, i);
    if |q| > 1 { PathHeight(kids[i].kids, q[1..]); }
  }

  lemma LeafHeight(f: Frame)
    ensures Height([Leaf(f)]) == 1
  {
  }

  /** The only path of three frames goes through `c`. */
  lemma {:induction false} BridgedPaths(a: Frame, b: Frame, c: Frame, q: seq<Frame>)
    requires IsPath(Bridged(a, b, c), q)
    ensures |q| <= 2 || (|q| == 3 && q[1] == c)
  {
    var x, y := Node(1, a, [Leaf(a)]), Node(1, a, [Leaf(b)] + [Node(1, c, [Leaf(a)])]);
    PathAppend([x], [y], q);
    LeafHeight(a); LeafHeight(b);
    hide Height;
    if |q| > 2 {
      var r := q[1..];
      if IsPath([x], q) {
        Top(x, q);
        PathHeight([Leaf(a)], r);
      } else {
        Top(y, q);
        PathAppend([Leaf(b)], [Node(1, c, [Leaf(a)])], r);
        if IsPath([Leaf(b)], r) {
          PathHeight([Leaf(b)], r);
        } else {
          Top(Node(1, c, [Leaf(a)]), r);
          PathHeight([Leaf(a)], r[1..]);
        }
      }
    }
  }

  lemma Top(x: Tree, q: seq<Frame>)
    requires IsPath([x], q)
    ensures q != [] && q[0] == x.frame && (|q| > 1 ==> IsPath(x.kids, q[1..]))
  {
    assert Below([x][0], q);
  }

  lemma ThreeDeep(a: Frame)
    ensures IsPath([Node(2, a, [Node(3, a, [Leaf(a)])])], [a, a, a])
  {
    var p := [a, a, a];
    assert p[1..] == [a, a] && [a, a][1..] == [a];
    assert Below([Leaf(a)][0], [a]);
    assert Below([Node(3, a, [Leaf(a)])][0], [a, a]);
    assert Below([Node(2, a, [Node(3, a, [Leaf(a)])])][0], p);
  }

  lemma BridgedWithin(a: Frame, b: Frame, c: Frame, S: set<Frame>)
    requires a in S && b in S && c in S
    ensures Within(Bridged(a, b, c), S)
  {
    assert Within([], S);
    assert Within([Leaf(a)], S) && Within([Leaf(b)] + [Node(1, c, [Leaf(a)])], S);
  }

  /** The path of the result comes from none of the input. */
  lemma {:induction false} BridgedDisorder(keep: Frame -> bool, a: Frame, b: Frame, c: Frame)
    requires Plain(keep, a) && Plain(keep, b) && Plain(keep, c) && Same(a, b) && Same(b, c) && !Same(a, c)
    ensures IsPath(Clean(keep, Bridged(a, b, c)), [a, a, a]) && !Traces(Bridged(a, b, c), [a, a, a])
  {
    hide Clean, Bridged, IsPath, SubPath, Plain;
    BridgedCleaned(keep, a, b, c);
    ThreeDeep(a);
    var p := [a, a, a];
    forall q | IsPath(Bridged(a, b, c), q) ensures !SubPath(p, q) {
      BridgedPaths(a, b, c, q);
      if SubPath(p, q) { Middle(p, q); }
    }
  }

  /** Over frames that nothing happens to by themselves. */
  lemma {:induction false} KeepsOrderExactly(keep: Frame -> bool, S: set<Frame>)
    requires forall f | f in S :: Plain(keep, f)
    ensures Coherent(S) <==> forall kids, p | Within(kids, S) && IsPath(Clean(keep, kids), p) :: Traces(kids, p)
  {
    hide Clean, Bridged, IsPath, SubPath, Plain, Within, Traces;
    if Coherent(S) {
      forall kids, p | Within(kids, S) && IsPath(Clean(keep, kids), p) ensures Traces(kids, p) {
        CleanTraces(keep, kids, p, S);
      }
    } else {
      var a, b, c :| a in S && b in S && c in S && Same(a, b) && Same(b, c) && !Same(a, c);
      BridgedWithin(a, b, c, S);
      BridgedDisorder(keep, a, b, c);
    }
  }

  lemma {:induction false} CleanTraces(keep: Frame -> bool, kids: seq<Tree>, p: seq<Frame>, S: set<Frame>)
    requires Coherent(S) && Within(kids, S) && IsPath(Clean(keep, kids), p)
    ensures Traces(kids, p)
  {
    hide Clean, IsPath, SubPath, Coherent, Within;
    CleanKeepsOrder(keep, kids, p, S);
  }
}
