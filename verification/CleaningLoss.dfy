/** Cleaning loses no wanted frame: what a path of the input has of them is found, in order, in a path of the
    result. */
module CleaningLoss {
  import opened Frames
  import opened Trees
  import opened Cleaning
  import opened CleaningShape
  import opened CleaningPaths

  /** A path without contributors that does not go below a libc `fgets`. */
  ghost predicate Good(p: seq<Frame>) {
    forall i | 0 <= i < |p| :: !Contributor(p[i]) && (i < |p| - 1 ==> !LibcFgets(p[i]))
  }

  /** The wanted frames of a path. */
  ghost function Kept(keep: Frame -> bool, p: seq<Frame>): seq<Frame> {
    if p == [] then [] else (if keep(p[0]) then [p[0]] else []) + Kept(keep, p[1..])
  }

  /** Equal frames are both wanted or not, and both libc's `fgets` or not. */
  ghost predicate Respects(keep: Frame -> bool, S: set<Frame>) {
    forall a, b | a in S && b in S && Same(a, b) :: (keep(a) <==> keep(b)) && (LibcFgets(a) <==> LibcFgets(b))
  }

  ghost predicate Covered(a: seq<Tree>, w: seq<Frame>) {
    w == [] || exists q :: IsPath(a, q) && Good(q) && SubPath(w, q)
  }

  /** The wanted frames of every good path of `b` are found in a good path of `a`. */
  ghost predicate Covers(keep: Frame -> bool, a: seq<Tree>, b: seq<Tree>) {
    forall p | IsPath(b, p) && Good(p) :: Covered(a, Kept(keep, p))
  }

  // ---- Wanted frames of a path ----

  lemma {:induction false} KeptSub(keep: Frame -> bool, p: seq<Frame>)
    ensures SubPath(Kept(keep, p), p)
  {
    if p != [] {
      KeptSub(keep, p[1..]);
      SubPathCons(p[0], Kept(keep, p[1..]), p[0], p[1..]);
      assert [p[0]] + p[1..] == p && [] + Kept(keep, p[1..]) == Kept(keep, p[1..]);
    }
  }

  lemma {:induction false} KeptIn(keep: Frame -> bool, p: seq<Frame>, S: set<Frame>)
    requires AllIn(p, S)
    ensures AllIn(Kept(keep, p), S) && forall i | 0 <= i < |Kept(keep, p)| :: keep(Kept(keep, p)[i])
  {
    if p != [] {
      assert AllIn(p[1..], S);
      KeptIn(keep, p[1..], S);
    }
  }

  /** A path of wanted frames is matched by wanted frames only. */
  lemma {:induction false} KeptMatch(keep: Frame -> bool, w: seq<Frame>, q: seq<Frame>, S: set<Frame>)
    requires Respects(keep, S) && AllIn(w, S) && AllIn(q, S) && SubPath(w, q)
    requires forall i | 0 <= i < |w| :: keep(w[i])
    ensures SubPath(w, Kept(keep, q))
    decreases q
  {
    if w != [] {
      var k := Kept(keep, q[1..]);
      assert AllIn(w[1..], S) && AllIn(q[1..], S);
      if SubPath(w, q[1..]) {
        KeptMatch(keep, w, q[1..], S);
        SubPathCons(q[0], w, q[0], k);
        assert [] + k == k;
      } else {
        KeptMatch(keep, w[1..], q[1..], S);
        SubPathCons(w[0], w[1..], q[0], k);
        assert [w[0]] + w[1..] == w;
      }
    }
  }

  lemma GoodTail(p: seq<Frame>)
    requires Good(p) && |p| > 1
    ensures Good(p[1..]) && !Contributor(p[0]) && !LibcFgets(p[0])
  {
    hide Contributor, LibcFgets;
    forall i | 0 <= i < |p[1..]| ensures !Contributor(p[1..][i]) && (i < |p[1..]| - 1 ==> !LibcFgets(p[1..][i])) {
      assert p[1..][i] == p[i + 1];
    }
  }

  lemma GoodHead(p: seq<Frame>)
    requires Good(p) && p != []
    ensures !Contributor(p[0])
  {
    hide Contributor, LibcFgets;
  }

  lemma GoodCons(f: Frame, p: seq<Frame>)
    requires !Contributor(f) && (p != [] ==> Good(p) && !LibcFgets(f))
    ensures Good([f] + p)
  {
    hide Contributor, LibcFgets;
    forall i | 0 <= i < |[f] + p|
      ensures !Contributor(([f] + p)[i]) && (i < |[f] + p| - 1 ==> !LibcFgets(([f] + p)[i]))
    {
      if i > 0 { assert ([f] + p)[i] == p[i - 1]; }
    }
  }

  // ---- Covering ----

  lemma {:induction false} CoversSelf(keep: Frame -> bool, a: seq<Tree>)
    ensures Covers(keep, a, a)
  {
    hide Good;
    forall p | IsPath(a, p) && Good(p) ensures Covered(a, Kept(keep, p)) { KeptSub(keep, p); }
  }

  lemma {:induction false} CoversTrans(keep: Frame -> bool, a: seq<Tree>, b: seq<Tree>, c: seq<Tree>, S: set<Frame>)
    requires Coherent(S) && Respects(keep, S) && Within(a, S) && Within(b, S) && Within(c, S)
    requires Covers(keep, a, b) && Covers(keep, b, c)
    ensures Covers(keep, a, c)
  {
    hide Good, Within, Coherent, Respects, IsPath, SubPath, Kept;
    forall p | IsPath(c, p) && Good(p) ensures Covered(a, Kept(keep, p)) {
      var w := Kept(keep, p);
      PathIn(c, p, S);
      KeptIn(keep, p, S);
      if w != [] {
        var q :| IsPath(b, q) && Good(q) && SubPath(w, q);
        PathIn(b, q, S);
        KeptIn(keep, q, S);
        KeptMatch(keep, w, q, S);
        if Kept(keep, q) == [] {
          NotInNothing(w);
        } else {
          var r :| IsPath(a, r) && Good(r) && SubPath(Kept(keep, q), r);
          PathIn(a, r, S);
          SubPathTrans(w, Kept(keep, q), r, S);
        }
      }
    }
  }

  lemma NotInNothing(w: seq<Frame>)
    requires SubPath(w, [])
    ensures w == []
  {
  }

  /** A covering forest may be part of a larger one. */
  lemma CoveredMore(a: seq<Tree>, b: seq<Tree>, w: seq<Frame>)
    requires Covered(a, w) || Covered(b, w)
    ensures Covered(a + b, w)
  {
    hide Good, IsPath, SubPath;
    if w != [] {
      var q :| (IsPath(a, q) || IsPath(b, q)) && Good(q) && SubPath(w, q);
      PathAppend(a, b, q);
    }
  }

  lemma {:induction false} CoversAppend(keep: Frame -> bool, a: seq<Tree>, b: seq<Tree>, a': seq<Tree>, b': seq<Tree>)
    requires Covers(keep, a, a') && Covers(keep, b, b')
    ensures Covers(keep, a + b, a' + b')
  {
    hide Good, IsPath, Covered, Kept;
    forall p | IsPath(a' + b', p) && Good(p) ensures Covered(a + b, Kept(keep, p)) {
      PathAppend(a', b', p);
      CoveredMore(a, b, Kept(keep, p));
    }
  }

  /** One forest may cover two. */
  lemma {:induction false} CoversBoth(keep: Frame -> bool, a: seq<Tree>, b: seq<Tree>, c: seq<Tree>)
    ensures Covers(keep, a, b + c) <==> Covers(keep, a, b) && Covers(keep, a, c)
  {
    hide Good, IsPath, Covered, Kept;
    if Covers(keep, a, b + c) {
      forall p | IsPath(b, p) && Good(p) ensures Covered(a, Kept(keep, p)) { PathAppend(b, c, p); }
      forall p | IsPath(c, p) && Good(p) ensures Covered(a, Kept(keep, p)) { PathAppend(b, c, p); }
    }
    if Covers(keep, a, b) && Covers(keep, a, c) {
      forall p | IsPath(b + c, p) && Good(p) ensures Covered(a, Kept(keep, p)) { PathAppend(b, c, p); }
    }
  }

  /** A path of one node with its children. */
  lemma NodePath(y: Tree, q: seq<Frame>)
    requires q == [] || IsPath(y.kids, q)
    ensures IsPath([y], [y.frame] + q)
  {
    assert ([y.frame] + q)[1..] == q;
    assert Below([y][0], [y.frame] + q);
  }

  lemma {:induction false} PathNode(x: Tree, p: seq<Frame>)
    requires IsPath([x], p)
    ensures p != [] && p[0] == x.frame && (|p| > 1 ==> IsPath(x.kids, p[1..]))
  {
    assert Below([x][0], p);
  }

  /** A node whose children cover covers the node, also in place of an equal one. */
  lemma {:induction false} CoversNode(keep: Frame -> bool, y: Tree, x: Tree)
    requires Same(y.frame, x.frame) && !Contributor(y.frame) && (LibcFgets(y.frame) <==> LibcFgets(x.frame))
    requires Covers(keep, y.kids, x.kids)
    ensures Covers(keep, [y], [x])
  {
    hide Contributor, LibcFgets, IsPath, Good;
    forall p | IsPath([x], p) && Good(p) ensures Covered([y], Kept(keep, p)) {
      PathNode(x, p);
      var w, q: seq<Frame> := Kept(keep, p[1..]), [];
      if |p| > 1 {
        GoodTail(p);
        assert Covered(y.kids, w);
        if w != [] { q :| IsPath(y.kids, q) && Good(q) && SubPath(w, q); }
      }
      GoodCons(y.frame, q);
      NodePath(y, q);
      SubPathCons(p[0], w, y.frame, q);
      assert [] + w == w;
    }
  }

  lemma {:induction false} CoversSplice(keep: Frame -> bool, x: Tree)
    requires !keep(x.frame)
    ensures Covers(keep, x.kids, [x])
  {
    hide IsPath, Good;
    forall p | IsPath([x], p) && Good(p) ensures Covered(x.kids, Kept(keep, p)) {
      PathNode(x, p);
      KeptSub(keep, p[1..]);
      assert [] + Kept(keep, p[1..]) == Kept(keep, p[1..]);
      if |p| > 1 { GoodTail(p); }
    }
  }

  lemma {:induction false} CoversTrim(keep: Frame -> bool, t: Tree)
    ensures Covers(keep, [Trim(t)], [t])
  {
    hide IsPath, Good, Contributor;
    CoversSelf(keep, [t]);
    if LibcFgets(t.frame) {
      hide LibcFgets;
      forall p | IsPath([t], p) && Good(p) ensures Covered([Trim(t)], Kept(keep, p)) {
        PathNode(t, p);
        if |p| > 1 { GoodTail(p); }
        assert p == [t.frame] + [];
        NodePath(Trim(t), []);
        KeptSub(keep, p);
      }
    }
  }

  lemma {:induction false} CoversErase(keep: Frame -> bool, t: Tree)
    requires Judge(keep, t).Erase?
    ensures Covers(keep, [], [t])
  {
    hide IsPath, Good, Contributor, LibcFgets;
    forall p | IsPath([t], p) && Good(p) ensures Covered([], Kept(keep, p)) {
      PathNode(t, p);
      GoodHead(p);
      if |p| > 1 {
        NoPath(p[1..]);
        GoodTail(p);
      }
      assert Kept(keep, p[1..]) == [];
    }
  }

  lemma NoPath(p: seq<Frame>)
    ensures !IsPath([], p)
  {
  }

  /** A node made from two equal ones covers the two. */
  lemma {:induction false} CoversMerged(keep: Frame -> bool, z: Tree, d: Tree, y: Tree)
    requires z.frame == d.frame && Same(d.frame, y.frame) && !Contributor(d.frame)
    requires LibcFgets(d.frame) <==> LibcFgets(y.frame)
    requires Covers(keep, z.kids, d.kids + y.kids)
    ensures Covers(keep, [z], [d] + [y])
  {
    hide Covers, Contributor, LibcFgets;
    CoversBoth(keep, z.kids, d.kids, y.kids);
    CoversNode(keep, z, d);
    CoversNode(keep, z, y);
    CoversBoth(keep, [z], [d], [y]);
  }

  lemma {:induction false} CoversUpdated(keep: Frame -> bool, done: seq<Tree>, k: nat, z: Tree, y: Tree)
    requires k < |done| && Covers(keep, [z], [done[k]] + [y])
    ensures Covers(keep, done[k := z], done + [y])
  {
    hide Covers;
    var a, b := done[..k], done[k + 1..];
    assert done == a + ([done[k]] + b) && done[k := z] == a + ([z] + b);
    CoversSelf(keep, a); CoversSelf(keep, b);
    CoversBoth(keep, [z], [done[k]], [y]);
    CoversAppend(keep, [z], b, [done[k]], b);
    CoversAppend(keep, a, [z] + b, a, [done[k]] + b);
    CoversNothing(keep, b); CoversNothing(keep, a);
    CoversAppend(keep, [z], b, [y], []);
    CoversAppend(keep, a, [z] + b, [], [y] + []);
    assert [] + ([y] + []) == [y];
    CoversBoth(keep, done[k := z], done, [y]);
  }

  lemma {:induction false} CoversNothing(keep: Frame -> bool, a: seq<Tree>)
    ensures Covers(keep, a, [])
  {
    forall p ensures !IsPath([], p) { NoPath(p); }
  }

  // ---- The loop ----

  lemma {:induction false} LoopCovers(keep: Frame -> bool, done: seq<Tree>, rest: seq<Tree>, S: set<Frame>)
    requires Coherent(S) && Respects(keep, S) && Within(done, S) && Within(rest, S)
    requires Distinct(done) && NoContributor(done)
    ensures Covers(keep, CleanLoop(keep, done, rest), done + rest)
    decreases Max(Height(done), Height(rest)), Nodes(rest), 0
  {
    hide CleanLoop, Absorb, Within, FramesIn, Height, Nodes, Distinct, NoContributor, Coherent, Respects, Covers, Judge,
      Trim, Contributor, LibcFgets;
    if rest == [] {
      assert done + rest == done;
      LoopEnd(keep, done);
    } else {
      Step(keep, done, rest);
      Shrinks(rest);
      WithinTail(rest, S);
      EmptyForest(S);
      NothingClear();
      var x, tail := Trim(rest[0]), rest[1..];
      match Judge(keep, rest[0])
      case Erase =>
        LoopCovers(keep, done, tail, S);
        CoversErased(keep, done, rest);
        CoversThen(keep, done, tail, done, rest, S);
      case Splice =>
        var next := [x.kids[0]] + tail;
        SpliceWithin(x, tail, S);
        LoopCovers(keep, done, next, S);
        CoversSpliced(keep, done, rest, S);
        CoversThen(keep, done, next, done, rest, S);
      case Retain =>
        var y := Node(x.n, x.frame, CleanLoop(keep, [], x.kids));
        var r := Absorb(keep, done, y);
        NotContributor(keep, rest[0]);
        LoopCovers(keep, [], x.kids, S);
        LoopWithin(keep, [], x.kids, S);
        LoopIsClear(keep, [], x.kids);
        AbsorbWithin(keep, done, y, S);
        AbsorbIsClear(keep, done, y);
        AbsorbCovers(keep, done, y, S);
        LoopCovers(keep, r, tail, S);
        CoversRetained(keep, done, rest, y, r, S);
        CoversThen(keep, r, tail, done, rest, S);
    }
  }

  lemma LoopEnd(keep: Frame -> bool, done: seq<Tree>)
    ensures Covers(keep, CleanLoop(keep, done, []), done)
  {
    CoversSelf(keep, done);
  }

  lemma NotContributor(keep: Frame -> bool, t: Tree)
    requires Judge(keep, t).Retain?
    ensures !Contributor(t.frame) && Trim(t).frame == t.frame
  {
    hide Contributor, LibcFgets;
  }

  /** The rest of the loop covers what it starts from, hence what that covers. */
  lemma {:induction false} CoversThen(keep: Frame -> bool, d: seq<Tree>, r: seq<Tree>, done: seq<Tree>,
                                      rest: seq<Tree>, S: set<Frame>)
    requires Coherent(S) && Respects(keep, S) && Within(d, S) && Within(r, S) && Within(done, S) && Within(rest, S)
    requires Covers(keep, CleanLoop(keep, d, r), d + r) && Covers(keep, d + r, done + rest)
    ensures Covers(keep, CleanLoop(keep, d, r), done + rest)
  {
    hide *;
    LoopWithin(keep, d, r, S);
    WithinAppend(d, r, S);
    WithinAppend(done, rest, S);
    CoversTrans(keep, CleanLoop(keep, d, r), d + r, done + rest, S);
  }

  lemma {:induction false} CoversErased(keep: Frame -> bool, done: seq<Tree>, rest: seq<Tree>)
    requires rest != [] && Judge(keep, rest[0]).Erase?
    ensures Covers(keep, done + rest[1..], done + rest)
  {
    hide Covers, Judge;
    CoversErase(keep, rest[0]);
    CoversSelf(keep, done); CoversSelf(keep, rest[1..]);
    CoversAppend(keep, [], rest[1..], [rest[0]], rest[1..]);
    assert [] + rest[1..] == rest[1..] && [rest[0]] + rest[1..] == rest;
    CoversAppend(keep, done, rest[1..], done, rest);
  }

  lemma {:induction false} CoversSpliced(keep: Frame -> bool, done: seq<Tree>, rest: seq<Tree>, S: set<Frame>)
    requires rest != [] && Judge(keep, rest[0]).Splice?
    ensures |Trim(rest[0]).kids| == 1
    ensures Covers(keep, done + ([Trim(rest[0]).kids[0]] + rest[1..]), done + rest)
  {
    hide Covers, Contributor, LibcFgets;
    var x := rest[0];
    assert Trim(x) == x && x.kids == [x.kids[0]];
    CoversSplice(keep, x);
    CoversSelf(keep, done); CoversSelf(keep, rest[1..]);
    CoversAppend(keep, x.kids, rest[1..], [x], rest[1..]);
    assert [x] + rest[1..] == rest;
    CoversAppend(keep, done, x.kids + rest[1..], done, rest);
  }

  lemma {:induction false} CoversRetained(keep: Frame -> bool, done: seq<Tree>, rest: seq<Tree>, y: Tree,
                                          r: seq<Tree>, S: set<Frame>)
    requires Coherent(S) && Respects(keep, S) && Within(done, S) && Within(rest, S) && rest != []
    requires Within(y.kids, S) && Within(r, S)
    requires y.frame == rest[0].frame && !Contributor(y.frame)
    requires Covers(keep, y.kids, [] + Trim(rest[0]).kids) && Covers(keep, r, done + [y])
    ensures Covers(keep, r + rest[1..], done + rest)
  {
    hide Covers, Coherent, Respects, Contributor, LibcFgets;
    var x, tail := Trim(rest[0]), rest[1..];
    WithinTail(rest, S);
    assert [] + x.kids == x.kids;
    CoversNode(keep, y, x);
    CoversTrim(keep, rest[0]);
    CoversTrans(keep, [y], [x], [rest[0]], S);
    CoversSelf(keep, done); CoversSelf(keep, tail);
    CoversAppend(keep, done, [y], done, [rest[0]]);
    WithinAppend(done, [y], S); WithinAppend(done, [rest[0]], S);
    CoversTrans(keep, r, done + [y], done + [rest[0]], S);
    CoversAppend(keep, r, tail, done + [rest[0]], tail);
    assert done + [rest[0]] + tail == done + rest;
  }

  lemma {:induction false} AbsorbCovers(keep: Frame -> bool, done: seq<Tree>, y: Tree, S: set<Frame>)
    requires Coherent(S) && Respects(keep, S) && Within(done, S) && y.frame in S && Within(y.kids, S)
    requires Distinct(done) && NoContributor(done)
    ensures Covers(keep, Absorb(keep, done, y), done + [y])
    decreases Max(Height(done), 1 + Height(y.kids)), 0, 0
  {
    hide CleanLoop, Covers, Absorb, Height, Nodes, Contributor, LibcFgets, Coherent;
    var k := FirstMatch(done, y.frame);
    SoleMatch(done, y.frame, S);
    AbsorbSole(keep, done, y, k);
    if k == |done| {
      CoversSelf(keep, done + [y]);
    } else {
      EmptyForest(S);
      NothingClear();
      var d, m := done[k], done[k].kids + y.kids;
      HeightAppend(d.kids, y.kids);
      HeightElement(done, k);
      WithinAppend(d.kids, y.kids, S);
      LoopCovers(keep, [], m, S);
      assert [] + m == m;
      var z := Node(d.n + y.n, d.frame, Clean(keep, m));
      assert Same(d.frame, y.frame) && d.frame in S;
      CoversMerged(keep, z, d, y);
      CoversUpdated(keep, done, k, z, y);
    }
  }

  /** On coherent frames whose equality respects being wanted and being libc's `fgets`: the wanted frames of each
      path of the input without contributors that does not go below a libc `fgets` are, up to frame equality, a
      subsequence of a path of the result. */
  lemma {:induction false} CleanLosesNothing(keep: Frame -> bool, kids: seq<Tree>, p: seq<Frame>, S: set<Frame>)
    requires Coherent(S) && Respects(keep, S) && Within(kids, S) && IsPath(kids, p) && Good(p)
    ensures Kept(keep, p) != [] ==> exists q :: IsPath(Clean(keep, kids), q) && SubPath(Kept(keep, p), q)
  {
    hide CleanLoop, Coherent, Respects, IsPath, SubPath, Kept, Good;
    EmptyForest(S);
    NothingClear();
    assert [] + kids == kids;
    LoopCovers(keep, [], kids, S);
    assert Covered(Clean(keep, kids), Kept(keep, p));
  }
}
