/** With nothing to remove, cleaning only brings a tree into canonical form. */
module CleaningCounts {
  import opened Frames
  import opened Trees
  import opened TrieCounts
  import opened Cleaning
  import opened CleaningShape
  import opened CleaningFixed

  /** Every frame is wanted, none is a contributor's and none is libc's `fgets`. */
  ghost predicate NothingToRemove(keep: Frame -> bool, kids: seq<Tree>) {
    forall i | 0 <= i < |kids| ::
      keep(kids[i].frame) && !Contributor(kids[i].frame) && !LibcFgets(kids[i].frame)
      && NothingToRemove(keep, kids[i].kids)
  }

  lemma {:induction false} WantedTail(keep: Frame -> bool, rest: seq<Tree>)
    requires rest != [] && NothingToRemove(keep, rest)
    ensures Judge(keep, rest[0]).Retain? && Trim(rest[0]) == rest[0]
    ensures NothingToRemove(keep, rest[0].kids) && NothingToRemove(keep, rest[1..]) && NothingToRemove(keep, [])
    ensures keep(rest[0].frame) && !Contributor(rest[0].frame) && !LibcFgets(rest[0].frame)
  {
  }

  lemma NothingWanted(keep: Frame -> bool)
    ensures NothingToRemove(keep, [])
  {
  }

  lemma {:induction false} EmptyCount(m: Measure, p: seq<Frame>)
    requires p != []
    ensures Count(m, [], p) == 0
  {
  }

  /** The loop keeps every summed count. */
  lemma {:induction false} LoopCounts(m: Measure, keep: Frame -> bool, done: seq<Tree>, rest: seq<Tree>,
                                      p: seq<Frame>, S: set<Frame>)
    requires Coherent(S) && Within(done, S) && Within(rest, S) && Apart(done) && AllIn(p, S) && p != []
    requires NothingToRemove(keep, done) && NothingToRemove(keep, rest)
    ensures var r := CleanLoop(keep, done, rest);
            Count(m, r, p) == Count(m, done, p) + Count(m, rest, p) && SumN(r) == SumN(done) + SumN(rest)
            && NothingToRemove(keep, r)
    decreases Max(Height(done), Height(rest)), Nodes(rest), 0
  {
    EmptyCount(m, p);
    EmptyForest(S);
    if rest != [] {
      hide CleanLoop, Absorb, Within, FramesIn, Height, Nodes, Judge, Trim, NothingToRemove, Apart, Coherent, At;
      Step(keep, done, rest);
      Shrinks(rest);
      WithinTail(rest, S);
      WantedTail(keep, rest);
      var x := rest[0];
      var y := Node(x.n, x.frame, CleanLoop(keep, [], x.kids));
      LoopWithin(keep, [], x.kids, S);
      SumBelow(m, keep, x, y, p, S);
      AbsorbCounts(m, keep, done, y, p, S);
      LoopCounts(m, keep, Absorb(keep, done, y), rest[1..], p, S);
    }
  }

  /** Cleaning the children of a node leaves its own contribution alone. */
  lemma {:induction false} SumBelow(m: Measure, keep: Frame -> bool, x: Tree, y: Tree, p: seq<Frame>, S: set<Frame>)
    requires Coherent(S) && Within(x.kids, S) && AllIn(p, S) && p != []
    requires NothingToRemove(keep, x.kids)
    requires y == Node(x.n, x.frame, CleanLoop(keep, [], x.kids))
    ensures At(m, y, p) == At(m, x, p) && NothingToRemove(keep, y.kids)
    decreases Height(x.kids), Nodes(x.kids), 1
  {
    EmptyCount(m, p);
    var q := if |p| > 1 then p[1..] else p;
    assert AllIn(q, S);
    EmptyForest(S);
    NothingWanted(keep);
    LoopCounts(m, keep, [], x.kids, q, S);
    EmptyCount(m, q);
  }

  lemma {:induction false} WantedAppend(keep: Frame -> bool, a: seq<Tree>, b: seq<Tree>)
    requires NothingToRemove(keep, a) && NothingToRemove(keep, b)
    ensures NothingToRemove(keep, a + b)
  {
  }

  lemma {:induction false} AbsorbCounts(m: Measure,
                                        keep: Frame -> bool, done: seq<Tree>, y: Tree, p: seq<Frame>, S: set<Frame>)
    requires Coherent(S) && Within(done, S) && Apart(done) && y.frame in S && Within(y.kids, S) && AllIn(p, S)
    requires p != []
    requires NothingToRemove(keep, done) && NothingToRemove(keep, y.kids)
    requires keep(y.frame) && !Contributor(y.frame) && !LibcFgets(y.frame)
    ensures var r := Absorb(keep, done, y);
            Within(r, S) && Apart(r) && NothingToRemove(keep, r)
            && Count(m, r, p) == Count(m, done, p) + At(m, y, p) && SumN(r) == SumN(done) + y.n
    decreases Max(Height(done), 1 + Height(y.kids)), 0, 0
  {
    hide CleanLoop, Clean, Absorb, Height, Nodes, Count, SumN, Within, Contributor, LibcFgets, Apart, Coherent;
    var k := FirstMatch(done, y.frame);
    AbsorbWithin(keep, done, y, S);
    AbsorbApart(keep, done, y);
    WithinFlat(done, S);
    SoleMatch(done, y.frame, S);
    AbsorbSole(keep, done, y, k);
    if k == |done| {
      CountAppend(m, done, [y], p);
      CountOne(m, y, p);
      SumNAppend(done, [y]);
      SumNOne(y);
    } else {
      var d, c := done[k], done[k].kids + y.kids;
      HeightAppend(d.kids, y.kids);
      HeightElement(done, k);
      WithinAppend(d.kids, y.kids, S);
      WantedAppend(keep, d.kids, y.kids);
      var z := Node(d.n + y.n, d.frame, Clean(keep, c));
      MergedCounts(m, keep, d, y, z, p, S);
      CountUpdate(m, done, k, z, p);
      SumNUpdate(done, k, z);
    }
  }

  lemma SumNOne(y: Tree)
    ensures SumN([y]) == y.n
  {
    assert [y][1..] == [];
  }

  lemma WithinFlat(a: seq<Tree>, S: set<Frame>)
    requires Within(a, S)
    ensures FramesIn(a, S) && forall i | 0 <= i < |a| :: Within(a[i].kids, S)
  {
  }

  /** A merged and re-cleaned node contributes what its two parts did. */
  lemma {:induction false} MergedCounts(m: Measure,
                                        keep: Frame -> bool, d: Tree, y: Tree, z: Tree, p: seq<Frame>, S: set<Frame>)
    requires Coherent(S) && d.frame in S && y.frame in S && Same(d.frame, y.frame) && AllIn(p, S) && p != []
    requires Within(d.kids + y.kids, S) && NothingToRemove(keep, d.kids + y.kids)
    requires z == Node(d.n + y.n, d.frame, Clean(keep, d.kids + y.kids))
    ensures At(m, z, p) == At(m, d, p) + At(m, y, p) && NothingToRemove(keep, z.kids)
    decreases Height(d.kids + y.kids), Nodes(d.kids + y.kids), 2
  {
    var c := d.kids + y.kids;
    var q := if |p| > 1 then p[1..] else p;
    assert AllIn(q, S);
    EmptyForest(S);
    NothingWanted(keep);
    EmptyCount(m, q);
    LoopCounts(m, keep, [], c, q, S);
    CountAppend(m, d.kids, y.kids, q);
    SumNAppend(d.kids, y.kids);
    SameShift(S, d.frame, y.frame, p[0]);
  }

  lemma {:induction false} WantedDistinctStable(keep: Frame -> bool, kids: seq<Tree>)
    requires NothingToRemove(keep, kids) && Distinct(kids)
    ensures Stable(keep, kids)
    decreases kids
  {
    forall i | 0 <= i < |kids| ensures Settled(keep, kids[i]) {
      WantedDistinctStable(keep, kids[i].kids);
    }
  }

  // ---- Whatever the frames ----

  /** Nothing to remove appears. */
  lemma {:induction false} LoopNothing(keep: Frame -> bool, done: seq<Tree>, rest: seq<Tree>)
    requires NothingToRemove(keep, done) && NothingToRemove(keep, rest)
    ensures NothingToRemove(keep, CleanLoop(keep, done, rest))
    decreases Max(Height(done), Height(rest)), Nodes(rest), 0
  {
    if rest != [] {
      hide CleanLoop, Absorb, Height, Nodes, Judge, Trim, NothingToRemove, Contributor, LibcFgets;
      Step(keep, done, rest);
      Shrinks(rest);
      WantedTail(keep, rest);
      var x := rest[0];
      var y := Node(x.n, x.frame, CleanLoop(keep, [], x.kids));
      LoopNothing(keep, [], x.kids);
      AbsorbNothing(keep, done, y);
      LoopNothing(keep, Absorb(keep, done, y), rest[1..]);
    }
  }

  lemma {:induction false} AbsorbNothing(keep: Frame -> bool, done: seq<Tree>, y: Tree)
    requires NothingToRemove(keep, done) && NothingToRemove(keep, y.kids)
    requires keep(y.frame) && !Contributor(y.frame) && !LibcFgets(y.frame)
    ensures NothingToRemove(keep, Absorb(keep, done, y))
    decreases Max(Height(done), 1 + Height(y.kids)), 0, 0
  {
    hide Clean, CleanLoop, Contributor, LibcFgets, Height, Nodes;
    var r := Absorb(keep, done, y);
    forall i | 0 <= i < |r|
      ensures keep(r[i].frame) && !Contributor(r[i].frame) && !LibcFgets(r[i].frame) && NothingToRemove(keep, r[i].kids)
    {
      if i < |done| && Same(y.frame, done[i].frame) {
        HeightAppend(done[i].kids, y.kids);
        HeightElement(done, i);
        WantedAppend(keep, done[i].kids, y.kids);
        CleanNothing(keep, done[i].kids + y.kids);
      }
    }
  }

  lemma {:induction false} CleanNothing(keep: Frame -> bool, kids: seq<Tree>)
    requires NothingToRemove(keep, kids)
    ensures NothingToRemove(keep, Clean(keep, kids))
    decreases Height(kids), Nodes(kids), 1
  {
    LoopNothing(keep, [], kids);
  }

  /** With nothing to remove, siblings become distinct, a tree is left alone exactly when they are already, and
      a second pass changes nothing. */
  lemma {:induction false} CleanCanonicalises(keep: Frame -> bool, kids: seq<Tree>)
    requires NothingToRemove(keep, kids)
    ensures Distinct(Clean(keep, kids))
    ensures Distinct(kids) <==> Clean(keep, kids) == kids
    ensures Clean(keep, Clean(keep, kids)) == Clean(keep, kids)
  {
    var c := Clean(keep, kids);
    hide *;
    CleanIsClear(keep, kids);
    CleanNothing(keep, kids);
    WantedDistinctStable(keep, c);
    FixedExactly(keep, c);
    if Distinct(kids) {
      WantedDistinctStable(keep, kids);
      FixedExactly(keep, kids);
    }
  }

  /** On coherent frames the count of every path stays. */
  lemma {:induction false} CleanKeepsCounts(m: Measure, keep: Frame -> bool, kids: seq<Tree>, p: seq<Frame>,
                                            S: set<Frame>)
    requires Coherent(S) && Within(kids, S) && NothingToRemove(keep, kids) && AllIn(p, S) && p != []
    ensures Count(m, Clean(keep, kids), p) == Count(m, kids, p) && SumN(Clean(keep, kids)) == SumN(kids)
  {
    hide CleanLoop, Within;
    EmptyCount(m, p);
    EmptyForest(S);
    NothingWanted(keep);
    LoopCounts(m, keep, [], kids, p, S);
  }
}
