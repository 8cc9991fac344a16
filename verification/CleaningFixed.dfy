/** The forests that `cleanupStackTrace` leaves alone, and when a second pass changes nothing. */
module CleaningFixed {
  import opened Frames
  import opened Trees
  import opened Cleaning
  import opened CleaningShape

  /** Nothing to erase, splice or trim below this node. */
  ghost predicate Settled(keep: Frame -> bool, t: Tree)
    decreases t, 1
  {
    Judge(keep, t).Retain? && Trim(t) == t && Stable(keep, t.kids)
  }

  /** No contributor, no trimmed child, no unwanted frame with at most one child, no equal siblings. */
  ghost predicate Stable(keep: Frame -> bool, kids: seq<Tree>)
    decreases kids, 1
  {
    Apart(kids) && AllSettled(keep, kids)
  }

  ghost predicate AllSettled(keep: Frame -> bool, kids: seq<Tree>)
    decreases kids, 0
  {
    forall i | 0 <= i < |kids| :: Settled(keep, kids[i])
  }

  lemma {:induction false} ApartSplit(done: seq<Tree>, rest: seq<Tree>)
    requires rest != [] && Apart(done + rest)
    ensures Apart(done) && Apart(rest) && Sole(done, rest[0].frame, |done|) && Apart(done + [rest[0]] + rest[1..])
    ensures done + [rest[0]] + rest[1..] == done + rest
  {
    var all := done + rest;
    assert done + [rest[0]] + rest[1..] == all;
    forall j | 0 <= j < |done| ensures !Same(done[j].frame, rest[0].frame) {
      assert all[j] == done[j] && all[|done|] == rest[0];
    }
    forall i, j | 0 <= i < j < |done| ensures !Same(done[i].frame, done[j].frame) {
      assert all[i] == done[i] && all[j] == done[j];
    }
    forall i, j | 0 <= i < j < |rest| ensures !Same(rest[i].frame, rest[j].frame) {
      assert all[|done| + i] == rest[i] && all[|done| + j] == rest[j];
    }
  }

  /** A stable remainder passes through unchanged. */
  lemma {:induction false} StableIsFixed(keep: Frame -> bool, done: seq<Tree>, rest: seq<Tree>)
    requires Apart(done + rest) && AllSettled(keep, rest)
    ensures CleanLoop(keep, done, rest) == done + rest
    decreases rest
  {
    if rest == [] {
      assert done + rest == done;
    } else {
      hide Absorb, Apart, AllSettled, Stable, Settled, CleanLoop, Trim, Judge, Sole;
      var x := rest[0];
      SettledHead(keep, rest);
      StableIsFixed(keep, [], x.kids);
      ApartSplit(done, rest);
      SettledStep(keep, done, rest);
      StableIsFixed(keep, done + [x], rest[1..]);
    }
  }

  lemma {:induction false} SettledHead(keep: Frame -> bool, rest: seq<Tree>)
    requires rest != [] && AllSettled(keep, rest)
    ensures Judge(keep, rest[0]).Retain? && Trim(rest[0]) == rest[0]
    ensures Apart([] + rest[0].kids) && AllSettled(keep, rest[0].kids)
    ensures AllSettled(keep, rest[1..])
  {
    assert Settled(keep, rest[0]);
    assert Stable(keep, rest[0].kids);
    assert [] + rest[0].kids == rest[0].kids;
  }

  lemma {:induction false} SettledStep(keep: Frame -> bool, done: seq<Tree>, rest: seq<Tree>)
    requires rest != [] && Judge(keep, rest[0]).Retain? && Trim(rest[0]) == rest[0]
    requires CleanLoop(keep, [], rest[0].kids) == [] + rest[0].kids
    requires Sole(done, rest[0].frame, |done|)
    ensures CleanLoop(keep, done, rest) == CleanLoop(keep, done + [rest[0]], rest[1..])
  {
    var x := rest[0];
    assert Clean(keep, x.kids) == x.kids by { assert [] + x.kids == x.kids; }
    assert x == Node(x.n, x.frame, x.kids);
    AbsorbSole(keep, done, x, |done|);
  }

  lemma {:induction false} NodesTail(rest: seq<Tree>)
    requires rest != []
    ensures Nodes(rest) == 1 + Nodes(rest[0].kids) + Nodes(rest[1..])
    ensures Nodes(Trim(rest[0]).kids) <= Nodes(rest[0].kids)
    ensures Nodes([]) == 0 && Apart([])
  {
  }

  /** The number of nodes never grows, and it shrinks unless there was nothing to do. */
  lemma {:induction false} LoopNodes(keep: Frame -> bool, done: seq<Tree>, rest: seq<Tree>, S: set<Frame>)
    requires Coherent(S) && Within(done, S) && Within(rest, S) && Apart(done)
    ensures Nodes(CleanLoop(keep, done, rest)) <= Nodes(done) + Nodes(rest)
    ensures Nodes(CleanLoop(keep, done, rest)) == Nodes(done) + Nodes(rest) ==>
      Apart(done + rest) && AllSettled(keep, rest)
    decreases Max(Height(done), Height(rest)), Nodes(rest), 0
  {
    if rest == [] {
      assert done + rest == done;
    } else {
      hide CleanLoop, Absorb, Within, FramesIn, Height, Nodes, Apart, AllSettled, Coherent;
      Step(keep, done, rest);
      Shrinks(rest);
      WithinTail(rest, S);
      NodesTail(rest);
      var x := Trim(rest[0]);
      match Judge(keep, rest[0])
      case Erase => LoopNodes(keep, done, rest[1..], S);
      case Splice =>
        SpliceWithin(x, rest[1..], S);
        LoopNodes(keep, done, [x.kids[0]] + rest[1..], S);
      case Retain =>
        var y := Node(x.n, x.frame, CleanLoop(keep, [], x.kids));
        LoopNodes(keep, [], x.kids, S);
        LoopWithin(keep, [], x.kids, S);
        AbsorbNodes(keep, done, y, S);
        LoopNodes(keep, Absorb(keep, done, y), rest[1..], S);
        if Nodes(CleanLoop(keep, done, rest)) == Nodes(done) + Nodes(rest) {
          RetainedSettled(keep, done, rest);
        }
    }
  }

  lemma {:induction false} RetainedSettled(keep: Frame -> bool, done: seq<Tree>, rest: seq<Tree>)
    requires rest != [] && Judge(keep, rest[0]).Retain?
    requires Nodes(Trim(rest[0]).kids) == Nodes(rest[0].kids)
    requires Apart([] + Trim(rest[0]).kids) && AllSettled(keep, Trim(rest[0]).kids)
    requires var x := Trim(rest[0]);
             var y := Node(x.n, x.frame, CleanLoop(keep, [], x.kids));
             Absorb(keep, done, y) == done + [y] && Apart(done + [y] + rest[1..])
    requires AllSettled(keep, rest[1..])
    ensures Apart(done + rest) && AllSettled(keep, rest)
  {
    hide CleanLoop, Absorb, Apart, Nodes, AllSettled, Trim, Judge;
    TrimSame(rest[0]);
    var x := rest[0];
    StableIsFixed(keep, [], x.kids);
    SettledCons(keep, rest);
    assert Apart(done + rest) by {
      assert x == Node(x.n, x.frame, [] + x.kids);
      assert done + [x] + rest[1..] == done + rest;
    }
  }

  lemma {:induction false} TrimSame(t: Tree)
    requires Nodes(Trim(t).kids) == Nodes(t.kids)
    ensures Trim(t) == t
  {
    assert t == Node(t.n, t.frame, t.kids);
  }

  lemma {:induction false} SettledCons(keep: Frame -> bool, rest: seq<Tree>)
    requires rest != [] && Judge(keep, rest[0]).Retain? && Trim(rest[0]) == rest[0]
    requires Apart([] + rest[0].kids) && AllSettled(keep, rest[0].kids) && AllSettled(keep, rest[1..])
    ensures AllSettled(keep, rest)
  {
    assert [] + rest[0].kids == rest[0].kids;
    assert Stable(keep, rest[0].kids);
    forall i | 0 <= i < |rest| ensures Settled(keep, rest[i]) {
      if i > 0 { assert rest[i] == rest[1..][i - 1]; }
    }
  }

  lemma {:induction false} AbsorbNodes(keep: Frame -> bool, done: seq<Tree>, y: Tree, S: set<Frame>)
    requires Coherent(S) && Within(done, S) && Apart(done) && y.frame in S && Within(y.kids, S)
    ensures var r := Absorb(keep, done, y);
            Within(r, S) && Apart(r) && Nodes(r) <= Nodes(done) + 1 + Nodes(y.kids)
            && (Nodes(r) == Nodes(done) + 1 + Nodes(y.kids) ==> r == done + [y])
    decreases Max(Height(done), 1 + Height(y.kids)), 0, 0
  {
    var k := FirstMatch(done, y.frame);
    AbsorbWithin(keep, done, y, S);
    AbsorbApart(keep, done, y);
    SoleMatch(done, y.frame, S);
    AbsorbSole(keep, done, y, k);
    if k < |done| {
      var m := done[k].kids + y.kids;
      HeightAppend(done[k].kids, y.kids);
      HeightElement(done, k);
      WithinAppend(done[k].kids, y.kids, S);
      LoopNodes(keep, [], m, S);
      NodesAppend(done[k].kids, y.kids);
      NodesUpdate(done, k, Node(done[k].n + y.n, done[k].frame, Clean(keep, m)));
    } else {
      NodesAppend(done, [y]);
      NodesOne(y);
    }
  }

  /** On coherent frames cleaning never adds a node, and loses one unless the forest is stable. */
  lemma {:induction false} CleanNodes(keep: Frame -> bool, kids: seq<Tree>, S: set<Frame>)
    requires Coherent(S) && Within(kids, S)
    ensures Nodes(Clean(keep, kids)) <= Nodes(kids)
    ensures Nodes(Clean(keep, kids)) < Nodes(kids) <==> !Stable(keep, kids)
  {
    assert [] + kids == kids;
    LoopNodes(keep, [], kids, S);
    if Stable(keep, kids) {
      StableIsFixed(keep, [], kids);
    }
  }

  // ---- What is unchanged is stable ----

  /** Where child `x` was, there is now something lower, or `x` with its children cleaned. */
  ghost predicate InPlaceOf(keep: Frame -> bool, x: Tree, u: Tree) {
    || 1 + Height(u.kids) <= Height(x.kids)
    || (Judge(keep, x).Retain? && u == Node(x.n, x.frame, Clean(keep, Trim(x).kids)))
  }

  lemma AbsorbLength(keep: Frame -> bool, done: seq<Tree>, y: Tree)
    ensures var r := Absorb(keep, done, y);
      |r| <= |done| + 1 && (|r| == |done| + 1 ==> r == done + [y])
  {
    hide Clean;
  }

  lemma SplicedInPlace(keep: Frame -> bool, x: Tree, u: Tree)
    requires |Trim(x).kids| == 1 && InPlaceOf(keep, Trim(x).kids[0], u)
    ensures InPlaceOf(keep, x, u)
  {
    hide LibcFgets, Clean, Judge;
    var c := x.kids[0];
    HeightElement(x.kids, 0);
    assert Height(Trim(c).kids) <= Height(c.kids);
  }

  /** The list got no longer. If it is as long as before, every child left a tree in its place. */
  ghost predicate Placed(keep: Frame -> bool, done: seq<Tree>, rest: seq<Tree>, r: seq<Tree>) {
    && |r| <= |done| + |rest|
    && (|r| == |done| + |rest| ==>
          r[..|done|] == done && forall i | 0 <= i < |rest| :: InPlaceOf(keep, rest[i], r[|done| + i]))
  }

  lemma PlacedErase(keep: Frame -> bool, done: seq<Tree>, rest: seq<Tree>, r: seq<Tree>)
    requires rest != [] && Placed(keep, done, rest[1..], r)
    ensures Placed(keep, done, rest, r)
  {
    hide InPlaceOf;
  }

  lemma PlacedSplice(keep: Frame -> bool, done: seq<Tree>, rest: seq<Tree>, r: seq<Tree>)
    requires rest != [] && |Trim(rest[0]).kids| == 1
    requires Placed(keep, done, [Trim(rest[0]).kids[0]] + rest[1..], r)
    ensures Placed(keep, done, rest, r)
  {
    hide InPlaceOf, Trim;
    var next := [Trim(rest[0]).kids[0]] + rest[1..];
    if |r| == |done| + |rest| {
      forall i | 0 <= i < |rest| ensures InPlaceOf(keep, rest[i], r[|done| + i]) {
        assert InPlaceOf(keep, next[i], r[|done| + i]);
        if i == 0 { SplicedInPlace(keep, rest[0], r[|done| + i]); }
      }
    }
  }

  lemma PlacedRetain(keep: Frame -> bool, done: seq<Tree>, rest: seq<Tree>, y: Tree, a: seq<Tree>, r: seq<Tree>)
    requires rest != [] && InPlaceOf(keep, rest[0], y) && |a| <= |done| + 1 && (|a| == |done| + 1 ==> a == done + [y])
    requires Placed(keep, a, rest[1..], r)
    ensures Placed(keep, done, rest, r)
  {
    hide InPlaceOf;
    if |r| == |done| + |rest| {
      assert r[..|done|] == r[..|a|][..|done|] && r[|done|] == r[..|a|][|done|];
      forall i | 0 <= i < |rest| ensures InPlaceOf(keep, rest[i], r[|done| + i]) {
        if i > 0 { assert InPlaceOf(keep, rest[1..][i - 1], r[|a| + (i - 1)]); }
      }
    }
  }

  lemma PlacedNone(keep: Frame -> bool, done: seq<Tree>)
    ensures Placed(keep, done, [], CleanLoop(keep, done, []))
  {
  }

  /** What the loop leaves where. */
  lemma {:induction false} LoopPlaces(keep: Frame -> bool, done: seq<Tree>, rest: seq<Tree>)
    ensures Placed(keep, done, rest, CleanLoop(keep, done, rest))
    decreases Nodes(rest)
  {
    hide CleanLoop, Absorb, Height, Nodes, Judge, Trim, InPlaceOf, Placed;
    if rest == [] {
      PlacedNone(keep, done);
    } else {
      Step(keep, done, rest);
      Shrinks(rest);
      var x, r := Trim(rest[0]), CleanLoop(keep, done, rest);
      match Judge(keep, rest[0])
      case Erase =>
        LoopPlaces(keep, done, rest[1..]);
        PlacedErase(keep, done, rest, r);
      case Splice =>
        LoopPlaces(keep, done, [x.kids[0]] + rest[1..]);
        PlacedSplice(keep, done, rest, r);
      case Retain =>
        var y := Node(x.n, x.frame, CleanLoop(keep, [], x.kids));
        AbsorbLength(keep, done, y);
        LoopPlaces(keep, Absorb(keep, done, y), rest[1..]);
        RetainedInPlace(keep, rest[0]);
        PlacedRetain(keep, done, rest, y, Absorb(keep, done, y), r);
    }
  }

  lemma RetainedInPlace(keep: Frame -> bool, t: Tree)
    requires Judge(keep, t).Retain?
    ensures InPlaceOf(keep, t, Node(Trim(t).n, Trim(t).frame, CleanLoop(keep, [], Trim(t).kids)))
  {
    hide Judge, LibcFgets, CleanLoop;
  }

  lemma {:induction false} FixedIsStable(keep: Frame -> bool, kids: seq<Tree>)
    requires Clean(keep, kids) == kids
    ensures Stable(keep, kids)
    decreases kids
  {
    LoopPlaces(keep, [], kids);
    CleanIsClear(keep, kids);
    forall i | 0 <= i < |kids| ensures Settled(keep, kids[i]) {
      var x := kids[i];
      assert InPlaceOf(keep, kids[i], kids[0 + i]);
      TrimmedAway(keep, x);
      FixedIsStable(keep, x.kids);
    }
  }

  lemma TrimmedAway(keep: Frame -> bool, x: Tree)
    requires x == Node(x.n, x.frame, Clean(keep, Trim(x).kids))
    ensures Trim(x) == x && Clean(keep, x.kids) == x.kids
  {
    hide LibcFgets;
    assert Clean(keep, []) == [];
  }

  /** Cleaning leaves a forest alone exactly when it is stable, whatever the frames. */
  lemma {:induction false} FixedExactly(keep: Frame -> bool, kids: seq<Tree>)
    ensures Clean(keep, kids) == kids <==> Stable(keep, kids)
  {
    if Clean(keep, kids) == kids { FixedIsStable(keep, kids); }
    if Stable(keep, kids) {
      assert [] + kids == kids;
      StableIsFixed(keep, [], kids);
    }
  }

  /** No unwanted frame is left with at most one child, and no libc `fgets` with any. */
  ghost predicate Tidy(keep: Frame -> bool, kids: seq<Tree>) {
    forall i | 0 <= i < |kids| ::
      && (keep(kids[i].frame) || |kids[i].kids| > 1)
      && (LibcFgets(kids[i].frame) ==> kids[i].kids == [])
      && Tidy(keep, kids[i].kids)
  }

  lemma {:induction false} StableIsTidy(keep: Frame -> bool, kids: seq<Tree>)
    requires Distinct(kids) && NoContributor(kids)
    ensures Stable(keep, kids) <==> Tidy(keep, kids)
    decreases kids
  {
    forall i | 0 <= i < |kids| ensures Stable(keep, kids[i].kids) <==> Tidy(keep, kids[i].kids) {
      StableIsTidy(keep, kids[i].kids);
    }
    if Stable(keep, kids) {
      forall i | 0 <= i < |kids|
        ensures keep(kids[i].frame) || |kids[i].kids| > 1
        ensures LibcFgets(kids[i].frame) ==> kids[i].kids == []
        ensures Tidy(keep, kids[i].kids)
      {
        assert AllSettled(keep, kids);
        assert Settled(keep, kids[i]);
      }
    }
    if Tidy(keep, kids) {
      forall i | 0 <= i < |kids| ensures Settled(keep, kids[i]) {
        assert kids[i] == Node(kids[i].n, kids[i].frame, kids[i].kids);
      }
    }
  }

  /** Cleaning twice is cleaning once exactly when the first pass left nothing it would remove now. */
  lemma {:induction false} CleanTwiceExactly(keep: Frame -> bool, kids: seq<Tree>)
    ensures Clean(keep, Clean(keep, kids)) == Clean(keep, kids) <==> Tidy(keep, Clean(keep, kids))
  {
    CleanIsClear(keep, kids);
    FixedExactly(keep, Clean(keep, kids));
    StableIsTidy(keep, Clean(keep, kids));
  }

  /** An unwanted frame that loses its two unwanted children stays, and a second pass removes it. */
  lemma {:induction false} CleanTwiceDiffers()
    ensures exists keep: Frame -> bool, kids :: Clean(keep, Clean(keep, kids)) != Clean(keep, kids)
  {
    var keep := (f: Frame) => false;
    var f := EmptyFrame();
    var leaf := Node(1, f, []);
    var x := Node(2, f, [leaf, leaf]);
    assert !LibcFgets(f) && !Contributor(f);
    assert [leaf, leaf][1..] == [leaf] && [leaf][1..] == [] && [x][1..] == [];
    assert Clean(keep, [leaf]) == [] by { assert Judge(keep, leaf).Erase?; }
    assert CleanLoop(keep, [], [leaf]) == [];
    assert Clean(keep, [leaf, leaf]) == CleanLoop(keep, [], [leaf, leaf]) == CleanLoop(keep, [], [leaf]) == [];
    var y := Node(2, f, []);
    assert Absorb(keep, [], y) == [y];
    assert Clean(keep, [x]) == CleanLoop(keep, [], [x]) == CleanLoop(keep, [y], []) == [y];
    assert [y][1..] == [];
    assert Clean(keep, [y]) == CleanLoop(keep, [], [y]) == CleanLoop(keep, [], []) == [];
    assert Clean(keep, Clean(keep, [x])) != Clean(keep, [x]);
  }
}
