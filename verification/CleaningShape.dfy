/** The shape of a cleaned tree: distinct siblings, no contributors, conserved counts. */
module CleaningShape {
  import opened Frames
  import opened Trees
  import opened Cleaning

  // ---- Distinct siblings and no contributors, for every tree ----

  ghost predicate NoContributor(kids: seq<Tree>) {
    forall i | 0 <= i < |kids| :: !Contributor(kids[i].frame) && NoContributor(kids[i].kids)
  }

  lemma NothingClear()
    ensures NoContributor([])
  {
  }

  /** At every depth the cleaned forest has distinct siblings and no contributor frame. */
  lemma {:induction false} CleanIsClear(keep: Frame -> bool, kids: seq<Tree>)
    ensures Distinct(Clean(keep, kids)) && NoContributor(Clean(keep, kids))
    decreases Height(kids), Nodes(kids), 1
  {
    LoopIsClear(keep, [], kids);
  }

  lemma {:induction false} LoopIsClear(keep: Frame -> bool, done: seq<Tree>, rest: seq<Tree>)
    requires Distinct(done) && NoContributor(done)
    ensures Distinct(CleanLoop(keep, done, rest)) && NoContributor(CleanLoop(keep, done, rest))
    decreases Max(Height(done), Height(rest)), Nodes(rest), 0
  {
    if rest != [] {
      hide CleanLoop, Absorb;
      Step(keep, done, rest);
      Shrinks(rest);
      var x := Trim(rest[0]);
      match Judge(keep, rest[0])
      case Erase => LoopIsClear(keep, done, rest[1..]);
      case Splice =>
        LoopIsClear(keep, done, [x.kids[0]] + rest[1..]);
      case Retain =>
        var y := Node(x.n, x.frame, CleanLoop(keep, [], x.kids));
        CleanIsClear(keep, x.kids);
        AbsorbIsClear(keep, done, y);
        LoopIsClear(keep, Absorb(keep, done, y), rest[1..]);
    }
  }

  lemma {:induction false} AbsorbApart(keep: Frame -> bool, done: seq<Tree>, y: Tree)
    requires Apart(done)
    ensures Apart(Absorb(keep, done, y))
  {
    hide Clean, CleanLoop, Height;
  }

  lemma {:induction false} AbsorbIsClear(keep: Frame -> bool, done: seq<Tree>, y: Tree)
    requires Distinct(done) && NoContributor(done)
    requires Distinct(y.kids) && NoContributor(y.kids) && !Contributor(y.frame)
    ensures Distinct(Absorb(keep, done, y)) && NoContributor(Absorb(keep, done, y))
    decreases Max(Height(done), 1 + Height(y.kids)), 0, 0
  {
    hide Clean, CleanLoop, Contributor, Height, Nodes;
    AbsorbApart(keep, done, y);
    var r := Absorb(keep, done, y);
    forall i | 0 <= i < |r|
      ensures !Contributor(r[i].frame) && Distinct(r[i].kids) && NoContributor(r[i].kids)
    {
      if i < |done| && Same(y.frame, done[i].frame) {
        HeightAppend(done[i].kids, y.kids);
        HeightElement(done, i);
        CleanIsClear(keep, done[i].kids + y.kids);
      }
    }
  }

  // ---- Frames stay, and a merge has one target ----

  lemma {:induction false} WithinAppend(a: seq<Tree>, b: seq<Tree>, S: set<Frame>)
    ensures Within(a + b, S) <==> Within(a, S) && Within(b, S)
  {
    if Within(a + b, S) {
      forall i | 0 <= i < |a| ensures a[i].frame in S && Within(a[i].kids, S) { assert (a + b)[i] == a[i]; }
      forall i | 0 <= i < |b| ensures b[i].frame in S && Within(b[i].kids, S) { assert (a + b)[|a| + i] == b[i]; }
    }
  }

  lemma {:induction false} SpliceWithin(x: Tree, tail: seq<Tree>, S: set<Frame>)
    requires |x.kids| == 1 && Within(x.kids, S) && Within(tail, S)
    ensures Within([x.kids[0]] + tail, S)
  {
    assert x.kids == [x.kids[0]];
    WithinAppend([x.kids[0]], tail, S);
  }

  lemma {:induction false} WithinTail(rest: seq<Tree>, S: set<Frame>)
    requires rest != [] && Within(rest, S)
    ensures Within(rest[1..], S) && Trim(rest[0]).frame in S && Within(Trim(rest[0]).kids, S) && Within([], S)
  {
  }

  lemma {:induction false} LoopWithin(keep: Frame -> bool, done: seq<Tree>, rest: seq<Tree>, S: set<Frame>)
    requires Within(done, S) && Within(rest, S)
    ensures Within(CleanLoop(keep, done, rest), S)
    decreases Max(Height(done), Height(rest)), Nodes(rest), 0
  {
    if rest != [] {
      hide CleanLoop, Absorb, Within, FramesIn, Height, Nodes, Judge, Trim;
      Step(keep, done, rest);
      Shrinks(rest);
      WithinTail(rest, S);
      var x := Trim(rest[0]);
      match Judge(keep, rest[0])
      case Erase => LoopWithin(keep, done, rest[1..], S);
      case Splice =>
        SpliceWithin(x, rest[1..], S);
        LoopWithin(keep, done, [x.kids[0]] + rest[1..], S);
      case Retain =>
        var y := Node(x.n, x.frame, CleanLoop(keep, [], x.kids));
        LoopWithin(keep, [], x.kids, S);
        AbsorbWithin(keep, done, y, S);
        LoopWithin(keep, Absorb(keep, done, y), rest[1..], S);
    }
  }

  lemma {:induction false} AbsorbWithin(keep: Frame -> bool, done: seq<Tree>, y: Tree, S: set<Frame>)
    requires Within(done, S) && y.frame in S && Within(y.kids, S)
    ensures Within(Absorb(keep, done, y), S)
    decreases Max(Height(done), 1 + Height(y.kids)), 0, 0
  {
    if FirstMatch(done, y.frame) < |done| {
      forall i | 0 <= i < |done| && Same(y.frame, done[i].frame)
        ensures Within(Clean(keep, done[i].kids + y.kids), S)
      {
        HeightAppend(done[i].kids, y.kids);
        HeightElement(done, i);
        WithinAppend(done[i].kids, y.kids, S);
        LoopWithin(keep, [], done[i].kids + y.kids, S);
      }
    }
  }

  /** With one possible target, a merge changes that child only. */
  lemma {:induction false} AbsorbSole(keep: Frame -> bool, done: seq<Tree>, y: Tree, k: nat)
    requires Sole(done, y.frame, k)
    ensures Absorb(keep, done, y) ==
      if k < |done| then done[k := Node(done[k].n + y.n, done[k].frame, Clean(keep, done[k].kids + y.kids))]
      else done + [y]
  {
    SoleIsFirst(done, y.frame, k);
    if k < |done| {
      forall i | 0 <= i < |done| ensures Same(y.frame, done[i].frame) <==> i == k {
        assert Same(done[i].frame, y.frame) <==> i == k;
      }
    }
  }

  // ---- Counts ----

  /** Every node counts at least as much as its children together, and nothing negative. */
  ghost predicate Conserving(kids: seq<Tree>) {
    forall i | 0 <= i < |kids| :: kids[i].n >= 0 && kids[i].n >= SumN(kids[i].kids) && Conserving(kids[i].kids)
  }

  lemma {:induction false} ConservingAppend(a: seq<Tree>, b: seq<Tree>)
    requires Conserving(a) && Conserving(b)
    ensures Conserving(a + b) && SumN(a + b) == SumN(a) + SumN(b)
  {
    SumNAppend(a, b);
  }

  lemma {:induction false} ConservingTail(rest: seq<Tree>)
    requires rest != [] && Conserving(rest)
    ensures var x := Trim(rest[0]);
            Conserving(x.kids) && x.n >= 0 && x.n >= SumN(x.kids) && x.n == rest[0].n
    ensures Conserving(rest[1..]) && SumN(rest) == rest[0].n + SumN(rest[1..])
    ensures Conserving([]) && Apart([]) && SumN([]) == 0
  {
  }

  /** Cleaning keeps the flow of counts, and neither the total nor the number of nodes grows. */
  lemma {:induction false} LoopConserves(keep: Frame -> bool, done: seq<Tree>, rest: seq<Tree>, S: set<Frame>)
    requires Coherent(S) && Within(done, S) && Within(rest, S) && Apart(done)
    requires Conserving(done) && Conserving(rest)
    ensures var r := CleanLoop(keep, done, rest);
            Conserving(r) && SumN(r) <= SumN(done) + SumN(rest)
    decreases Max(Height(done), Height(rest)), Nodes(rest), 0
  {
    if rest != [] {
      hide CleanLoop, Absorb, Within, FramesIn, Height, Nodes, Judge, Trim, Conserving, SumN, Apart, Coherent;
      Step(keep, done, rest);
      Shrinks(rest);
      WithinTail(rest, S);
      ConservingTail(rest);
      var x := Trim(rest[0]);
      match Judge(keep, rest[0])
      case Erase => LoopConserves(keep, done, rest[1..], S);
      case Splice =>
        SpliceWithin(x, rest[1..], S);
        SpliceConserves(x, rest[1..]);
        LoopConserves(keep, done, [x.kids[0]] + rest[1..], S);
      case Retain =>
        var y := Node(x.n, x.frame, CleanLoop(keep, [], x.kids));
        LoopConserves(keep, [], x.kids, S);
        LoopWithin(keep, [], x.kids, S);
        AbsorbConserves(keep, done, y, S);
        LoopConserves(keep, Absorb(keep, done, y), rest[1..], S);
    }
  }

  lemma {:induction false} SpliceConserves(x: Tree, tail: seq<Tree>)
    requires |x.kids| == 1 && x.n >= SumN(x.kids) && Conserving(x.kids) && Conserving(tail)
    ensures Conserving([x.kids[0]] + tail)
    ensures SumN([x.kids[0]] + tail) <= x.n + SumN(tail)
  {
    assert x.kids == [x.kids[0]];
    assert Conserving([x.kids[0]]);
    ConservingAppend([x.kids[0]], tail);
  }

  lemma {:induction false} AbsorbConserves(keep: Frame -> bool, done: seq<Tree>, y: Tree, S: set<Frame>)
    requires Coherent(S) && Within(done, S) && Apart(done) && y.frame in S && Within(y.kids, S)
    requires Conserving(done) && Conserving(y.kids) && y.n >= 0 && y.n >= SumN(y.kids)
    ensures var r := Absorb(keep, done, y);
            Within(r, S) && Apart(r) && Conserving(r) && SumN(r) == SumN(done) + y.n
    decreases Max(Height(done), 1 + Height(y.kids)), 0, 0
  {
    var k := FirstMatch(done, y.frame);
    AbsorbWithin(keep, done, y, S);
    AbsorbApart(keep, done, y);
    SoleMatch(done, y.frame, S);
    AbsorbSole(keep, done, y, k);
    if k < |done| {
      var m := done[k].kids + y.kids;
      HeightAppend(done[k].kids, y.kids);
      HeightElement(done, k);
      WithinAppend(done[k].kids, y.kids, S);
      ConservingAppend(done[k].kids, y.kids);
      LoopConserves(keep, [], m, S);
      SumNUpdate(done, k, Node(done[k].n + y.n, done[k].frame, Clean(keep, m)));
    } else {
      SumNAppend(done, [y]);
      assert [y][1..] == [];
    }
  }

  lemma {:induction false} CleanConserves(keep: Frame -> bool, kids: seq<Tree>, S: set<Frame>)
    requires Coherent(S) && Within(kids, S) && Conserving(kids)
    ensures Conserving(Clean(keep, kids)) && SumN(Clean(keep, kids)) <= SumN(kids)
  {
    LoopConserves(keep, [], kids, S);
  }
}
