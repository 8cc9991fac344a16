/** Every path of a cleaned tree comes, in order, from a path of the tree that was cleaned. */
module CleaningPaths {
  import opened Frames
  import opened Trees
  import opened Cleaning
  import opened CleaningShape

  /** `p` lists the frames from a child of the root down to some node. */
  ghost predicate IsPath(kids: seq<Tree>, p: seq<Frame>) {
    p != [] && exists i :: 0 <= i < |kids| && Below(kids[i], p)
  }

  ghost predicate Below(t: Tree, p: seq<Frame>)
    requires p != []
  {
    p[0] == t.frame && (|p| == 1 || IsPath(t.kids, p[1..]))
  }

  /** `p` is a subsequence of `q` up to frame equality. */
  ghost predicate SubPath(p: seq<Frame>, q: seq<Frame>) {
    if p == [] then true
    else if q == [] then false
    else (Same(p[0], q[0]) && SubPath(p[1..], q[1..])) || SubPath(p, q[1..])
  }

  ghost predicate Traces(kids: seq<Tree>, p: seq<Frame>) {
    exists q :: IsPath(kids, q) && SubPath(p, q)
  }

  /** Every path of `a` is accounted for by one of `b`. */
  ghost predicate Refines(a: seq<Tree>, b: seq<Tree>) {
    forall p | IsPath(a, p) :: Traces(b, p)
  }

  // ---- Paths ----

  lemma {:induction false} PathIn(kids: seq<Tree>, p: seq<Frame>, S: set<Frame>)
    requires IsPath(kids, p) && Within(kids, S)
    ensures AllIn(p, S)
    decreases p
  {
    var i :| 0 <= i < |kids| && Below(kids[i], p);
    if |p| > 1 {
      PathIn(kids[i].kids, p[1..], S);
      assert forall j | 1 <= j < |p| :: p[j] == p[1..][j - 1];
    }
  }

  lemma {:induction false} PathAppend(a: seq<Tree>, b: seq<Tree>, p: seq<Frame>)
    ensures IsPath(a + b, p) <==> IsPath(a, p) || IsPath(b, p)
  {
    if IsPath(a + b, p) {
      var i :| 0 <= i < |a + b| && Below((a + b)[i], p);
      if i < |a| { assert Below(a[i], p); } else { assert Below(b[i - |a|], p); }
    }
    if IsPath(a, p) {
      var i :| 0 <= i < |a| && Below(a[i], p);
      assert Below((a + b)[i], p);
    }
    if IsPath(b, p) {
      var i :| 0 <= i < |b| && Below(b[i], p);
      assert Below((a + b)[|a| + i], p);
    }
  }

  lemma {:induction false} SubPathSelf(p: seq<Frame>)
    ensures SubPath(p, p)
  {
    if p != [] { SubPathSelf(p[1..]); }
  }

  /** Dropping a frame of the longer path, or matching it, keeps a subsequence one. */
  lemma {:induction false} SubPathCons(f: Frame, p: seq<Frame>, g: Frame, q: seq<Frame>)
    requires SubPath(p, q)
    ensures SubPath(p, [g] + q)
    ensures Same(f, g) ==> SubPath([f] + p, [g] + q)
  {
    assert ([f] + p)[1..] == p && ([g] + q)[1..] == q;
  }

  lemma {:induction false} SubPathTrans(p: seq<Frame>, q: seq<Frame>, r: seq<Frame>, S: set<Frame>)
    requires Coherent(S) && AllIn(p, S) && AllIn(q, S) && AllIn(r, S)
    requires SubPath(p, q) && SubPath(q, r)
    ensures SubPath(p, r)
    decreases |q| + |r|
  {
    if p != [] {
      assert AllIn(p[1..], S) && AllIn(q[1..], S) && AllIn(r[1..], S);
      if SubPath(q, r[1..]) {
        SubPathTrans(p, q, r[1..], S);
      } else if SubPath(p, q[1..]) {
        SubPathTrans(p, q[1..], r[1..], S);
      } else {
        SubPathTrans(p[1..], q[1..], r[1..], S);
      }
    }
  }

  // ---- Refinement ----

  lemma {:induction false} RefinesSelf(a: seq<Tree>)
    ensures Refines(a, a)
  {
    forall p | IsPath(a, p) ensures Traces(a, p) { SubPathSelf(p); }
  }

  lemma {:induction false} RefinesTrans(a: seq<Tree>, b: seq<Tree>, c: seq<Tree>, S: set<Frame>)
    requires Coherent(S) && Within(a, S) && Within(b, S) && Within(c, S)
    requires Refines(a, b) && Refines(b, c)
    ensures Refines(a, c)
  {
    forall p | IsPath(a, p) ensures Traces(c, p) {
      var q :| IsPath(b, q) && SubPath(p, q);
      var r :| IsPath(c, r) && SubPath(q, r);
      PathIn(a, p, S); PathIn(b, q, S); PathIn(c, r, S);
      SubPathTrans(p, q, r, S);
    }
  }

  lemma {:induction false} RefinesAppend(a: seq<Tree>, b: seq<Tree>, a': seq<Tree>, b': seq<Tree>)
    requires Refines(a, a') && Refines(b, b')
    ensures Refines(a + b, a' + b')
  {
    forall p | IsPath(a + b, p) ensures Traces(a' + b', p) {
      PathAppend(a, b, p);
      var q :| (IsPath(a', q) || IsPath(b', q)) && SubPath(p, q);
      PathAppend(a', b', q);
    }
  }

  /** Leaving children out refines. */
  lemma {:induction false} RefinesPrefix(a: seq<Tree>, b: seq<Tree>)
    ensures Refines(a, a + b) && Refines(b, a + b)
  {
    forall p | IsPath(a, p) ensures Traces(a + b, p) { SubPathSelf(p); PathAppend(a, b, p); }
    forall p | IsPath(b, p) ensures Traces(a + b, p) { SubPathSelf(p); PathAppend(a, b, p); }
  }

  /** A node whose children are refined refines the node, also from below an equal node. */
  lemma {:induction false} RefinesNode(y: Tree, x: Tree)
    requires Same(y.frame, x.frame) && Refines(y.kids, x.kids)
    ensures Refines([y], [x])
  {
    forall p | IsPath([y], p) ensures Traces([x], p) {
      assert Below(y, p);
      var q: seq<Frame> := [];
      if |p| > 1 {
        assert Traces(x.kids, p[1..]);
        q :| IsPath(x.kids, q) && SubPath(p[1..], q);
      }
      SubPathCons(p[0], p[1..], x.frame, q);
      assert [p[0]] + p[1..] == p && ([x.frame] + q)[1..] == q;
      assert Below([x][0], [x.frame] + q);
    }
  }

  lemma {:induction false} RefinesSplice(x: Tree)
    requires |x.kids| == 1
    ensures Refines([x.kids[0]], [x])
  {
    forall p | IsPath([x.kids[0]], p) ensures Traces([x], p) {
      assert x.kids == [x.kids[0]];
      SubPathSelf(p);
      SubPathCons(x.frame, p, x.frame, p);
      assert ([x.frame] + p)[1..] == p;
      assert Below([x][0], [x.frame] + p);
    }
  }

  lemma {:induction false} RefinesTrim(t: Tree)
    ensures Refines([Trim(t)], [t])
  {
    RefinesSelf(t.kids);
    assert Refines([], t.kids);
    RefinesNode(Trim(t), t);
  }

  /** A node made from two equal ones refines the two. */
  lemma {:induction false} RefinesMerged(z: Tree, d: Tree, y: Tree)
    requires z.frame == d.frame && Same(d.frame, y.frame) && Refines(z.kids, d.kids + y.kids)
    ensures Refines([z], [d] + [y])
  {
    forall p | IsPath([z], p) ensures Traces([d] + [y], p) {
      assert Below(z, p);
      if |p| == 1 {
        assert Below(([d] + [y])[0], p);
        SubPathSelf(p);
      } else {
        assert Traces(d.kids + y.kids, p[1..]);
        var q :| IsPath(d.kids + y.kids, q) && SubPath(p[1..], q);
        PathAppend(d.kids, y.kids, q);
        SubPathCons(p[0], p[1..], d.frame, q);
        SubPathCons(p[0], p[1..], y.frame, q);
        assert [p[0]] + p[1..] == p && ([d.frame] + q)[1..] == q && ([y.frame] + q)[1..] == q;
        if IsPath(d.kids, q) {
          assert Below(([d] + [y])[0], [d.frame] + q);
        } else {
          assert Below(([d] + [y])[1], [y.frame] + q);
        }
      }
    }
  }

  // ---- The loop ----

  /** Cleaning refines: done children, then the remainder. */
  lemma {:induction false} LoopRefines(keep: Frame -> bool, done: seq<Tree>, rest: seq<Tree>, S: set<Frame>)
    requires Coherent(S) && Within(done, S) && Within(rest, S) && Apart(done)
    ensures Refines(CleanLoop(keep, done, rest), done + rest)
    decreases Max(Height(done), Height(rest)), Nodes(rest), 0
  {
    RefinesSelf(done);
    if rest == [] {
      assert done + rest == done;
    } else {
      hide CleanLoop, Absorb, Within, FramesIn, Height, Nodes, Apart, Coherent, Refines, Judge, Trim;
      Step(keep, done, rest);
      Shrinks(rest);
      WithinTail(rest, S);
      EmptyForest(S);
      var x, tail := Trim(rest[0]), rest[1..];
      match Judge(keep, rest[0])
      case Erase =>
        LoopRefines(keep, done, tail, S);
        RefinesErase(done, rest);
        LoopThen(keep, done, tail, done + tail, done + rest, S, done, rest);
      case Splice =>
        SpliceWithin(x, tail, S);
        LoopRefines(keep, done, [x.kids[0]] + tail, S);
        RefinesSpliced(done, rest, S);
        LoopThen(keep, done, [x.kids[0]] + tail, done + ([x.kids[0]] + tail), done + rest, S, done, rest);
      case Retain =>
        var y := Node(x.n, x.frame, CleanLoop(keep, [], x.kids));
        LoopRefines(keep, [], x.kids, S);
        LoopWithin(keep, [], x.kids, S);
        AbsorbWithin(keep, done, y, S);
        AbsorbApart(keep, done, y);
        AbsorbRefines(keep, done, y, S);
        LoopRefines(keep, Absorb(keep, done, y), tail, S);
        RefinesRetained(done, rest, y, Absorb(keep, done, y), S);
        LoopThen(keep, Absorb(keep, done, y), tail, Absorb(keep, done, y) + tail, done + rest, S, done, rest);
    }
  }

  /** The rest of the loop refines what it starts from, hence what that refines. */
  lemma {:induction false} LoopThen(keep: Frame -> bool, d: seq<Tree>, r: seq<Tree>, b: seq<Tree>,
                                    c: seq<Tree>, S: set<Frame>,
                                    done: seq<Tree>, rest: seq<Tree>)
    requires Coherent(S) && Within(d, S) && Within(r, S) && b == d + r && Within(done, S) && Within(rest, S)
    requires c == done + rest
    requires Refines(CleanLoop(keep, d, r), b) && Refines(b, c)
    ensures Refines(CleanLoop(keep, d, r), c)
  {
    hide CleanLoop, Within, Refines, Coherent;
    LoopWithin(keep, d, r, S);
    WithinAppend(d, r, S);
    WithinAppend(done, rest, S);
    RefinesTrans(CleanLoop(keep, d, r), b, c, S);
  }

  lemma {:induction false} RefinesErase(done: seq<Tree>, rest: seq<Tree>)
    requires rest != []
    ensures Refines(done + rest[1..], done + rest)
  {
    hide Refines;
    RefinesSelf(done);
    RefinesPrefix([rest[0]], rest[1..]);
    assert [rest[0]] + rest[1..] == rest;
    RefinesAppend(done, rest[1..], done, rest);
  }

  lemma {:induction false} RefinesSpliced(done: seq<Tree>, rest: seq<Tree>, S: set<Frame>)
    requires Coherent(S) && Within(rest, S)
    requires rest != [] && |Trim(rest[0]).kids| == 1
    ensures Refines(done + ([Trim(rest[0]).kids[0]] + rest[1..]), done + rest)
  {
    hide Refines;
    var x := Trim(rest[0]);
    RefinesSplice(x);
    assert x == rest[0];
    assert rest == [rest[0]] + rest[1..];
    RefinesSelf(done);
    RefinesSelf(rest[1..]);
    RefinesAppend([x.kids[0]], rest[1..], [x], rest[1..]);
    RefinesAppend(done, [x.kids[0]] + rest[1..], done, rest);
  }

  lemma {:induction false} RefinesRetained(done: seq<Tree>, rest: seq<Tree>, y: Tree, r: seq<Tree>, S: set<Frame>)
    requires Coherent(S) && Within(done, S) && Within(rest, S) && rest != [] && Within(y.kids, S) && Within(r, S)
    requires y.frame == rest[0].frame && Refines(y.kids, [] + Trim(rest[0]).kids)
    requires Refines(r, done + [y])
    ensures Refines(r + rest[1..], done + rest)
  {
    hide Refines, Coherent;
    var x, tail := Trim(rest[0]), rest[1..];
    WithinTail(rest, S);
    assert [] + x.kids == x.kids;
    RefinesNode(y, x);
    RefinesTrim(rest[0]);
    RefinesTrans([y], [x], [rest[0]], S);
    RefinesSelf(done); RefinesSelf(tail);
    RefinesAppend(done, [y], done, [rest[0]]);
    WithinAppend(done, [y], S); WithinAppend(done, [rest[0]], S);
    RefinesTrans(r, done + [y], done + [rest[0]], S);
    RefinesAppend(r, tail, done + [rest[0]], tail);
    assert done + [rest[0]] + tail == done + rest;
  }

  lemma {:induction false} AbsorbRefines(keep: Frame -> bool, done: seq<Tree>, y: Tree, S: set<Frame>)
    requires Coherent(S) && Within(done, S) && Apart(done) && y.frame in S && Within(y.kids, S)
    ensures Refines(Absorb(keep, done, y), done + [y])
    decreases Max(Height(done), 1 + Height(y.kids)), 0, 0
  {
    var k := FirstMatch(done, y.frame);
    SoleMatch(done, y.frame, S);
    AbsorbSole(keep, done, y, k);
    if k == |done| {
      RefinesSelf(done + [y]);
    } else {
      EmptyForest(S);
      var d, m := done[k], done[k].kids + y.kids;
      HeightAppend(d.kids, y.kids);
      HeightElement(done, k);
      WithinAppend(d.kids, y.kids, S);
      LoopRefines(keep, [], m, S);
      assert [] + m == m;
      var z := Node(d.n + y.n, d.frame, Clean(keep, m));
      RefinesMerged(z, d, y);
      RefinesUpdated(done, k, z, y);
    }
  }

  lemma {:induction false} RefinesUpdated(done: seq<Tree>, k: nat, z: Tree, y: Tree)
    requires k < |done| && Refines([z], [done[k]] + [y])
    ensures Refines(done[k := z], done + [y])
  {
    forall p | IsPath(done[k := z], p) ensures Traces(done + [y], p) {
      var i :| 0 <= i < |done| && Below(done[k := z][i], p);
      if i == k {
        assert Below([z][0], p);
        assert Traces([done[k]] + [y], p);
        var q :| IsPath([done[k]] + [y], q) && SubPath(p, q);
        assert q != [];
        var j :| 0 <= j < 2 && Below(([done[k]] + [y])[j], q);
        assert Below((done + [y])[if j == 0 then k else |done|], q);
      } else {
        assert Below((done + [y])[i], p);
        SubPathSelf(p);
      }
    }
  }

  /** Each root-to-node path of the result is a subsequence, up to frame equality, of one of the input. */
  lemma {:induction false} CleanKeepsOrder(keep: Frame -> bool, kids: seq<Tree>, p: seq<Frame>, S: set<Frame>)
    requires Coherent(S) && Within(kids, S) && IsPath(Clean(keep, kids), p)
    ensures exists q :: IsPath(kids, q) && SubPath(p, q)
  {
    EmptyForest(S);
    LoopRefines(keep, [], kids, S);
    assert [] + kids == kids;
    assert Traces(kids, p);
  }
}
