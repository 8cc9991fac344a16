/** When a second pass of `cleanupStackTrace` changes nothing, told from the tree before the first. */
module CleaningTwice {
  import opened Frames
  import opened Strings
  import opened Trees
  import opened Cleaning
  import opened CleaningShape
  import opened CleaningFixed

  /** No unwanted frame has more than one child, once children of a libc `fgets` are gone. What lies below a
      contributor or a libc `fgets` does not matter. */
  ghost predicate Narrow(keep: Frame -> bool, kids: seq<Tree>)
    decreases kids
  {
    forall i | 0 <= i < |kids| && !Contributor(kids[i].frame) ::
      && (keep(kids[i].frame) || |Trim(kids[i]).kids| <= 1)
      && (!LibcFgets(kids[i].frame) ==> Narrow(keep, kids[i].kids))
  }

  /** Equal frames agree on being libc's `fgets`. */
  ghost predicate FgetsAgree(S: set<Frame>) {
    forall a, b | a in S && b in S && Same(a, b) :: LibcFgets(a) <==> LibcFgets(b)
  }

  /** Only wanted frames, and no libc `fgets` with children. */
  ghost predicate Wanted(keep: Frame -> bool, kids: seq<Tree>) {
    forall i | 0 <= i < |kids| ::
      keep(kids[i].frame) && (LibcFgets(kids[i].frame) ==> kids[i].kids == []) && Wanted(keep, kids[i].kids)
  }

  lemma {:induction false} WantedIsTidy(keep: Frame -> bool, kids: seq<Tree>)
    requires Wanted(keep, kids)
    ensures Tidy(keep, kids) && Narrow(keep, kids)
    decreases kids
  {
    hide Contributor, LibcFgets;
    forall i | 0 <= i < |kids| ensures Tidy(keep, kids[i].kids) && Narrow(keep, kids[i].kids) {
      WantedIsTidy(keep, kids[i].kids);
    }
  }

  lemma WantedAppend(keep: Frame -> bool, a: seq<Tree>, b: seq<Tree>)
    requires Wanted(keep, a) && Wanted(keep, b)
    ensures Wanted(keep, a + b)
  {
    hide LibcFgets;
  }

  /** What is left to clean stays narrow, whatever happens to its first tree. */
  lemma {:induction false} NarrowStep(keep: Frame -> bool, rest: seq<Tree>)
    requires rest != [] && Narrow(keep, rest)
    ensures Narrow(keep, rest[1..])
    ensures var x := Trim(rest[0]);
      && (Judge(keep, rest[0]).Splice? ==> Narrow(keep, [x.kids[0]] + rest[1..]))
      && (Judge(keep, rest[0]).Retain? ==>
          keep(x.frame) && Narrow(keep, x.kids) && (LibcFgets(x.frame) ==> x.kids == []))
  {
    hide Contributor, LibcFgets;
    var x := Trim(rest[0]);
    if Judge(keep, rest[0]).Splice? {
      var r := [x.kids[0]] + rest[1..];
      assert Narrow(keep, rest[0].kids) && x.kids[0] == rest[0].kids[0];
      assert forall i | 0 < i < |r| :: r[i] == rest[i];
    }
  }

  lemma {:induction false} LoopWanted(keep: Frame -> bool, done: seq<Tree>, rest: seq<Tree>, S: set<Frame>)
    requires Wanted(keep, done) && Narrow(keep, rest) && Within(done, S) && Within(rest, S) && FgetsAgree(S)
    ensures Wanted(keep, CleanLoop(keep, done, rest))
    decreases Max(Height(done), Height(rest)), Nodes(rest), 0
  {
    if rest == [] {
      assert CleanLoop(keep, done, []) == done;
    } else {
      hide CleanLoop, Absorb, Within, Height, Nodes, Judge, Trim, Contributor, LibcFgets, Narrow, Wanted, FgetsAgree;
      Step(keep, done, rest);
      Shrinks(rest);
      WithinTail(rest, S);
      NarrowStep(keep, rest);
      var x := Trim(rest[0]);
      match Judge(keep, rest[0])
      case Erase => LoopWanted(keep, done, rest[1..], S);
      case Splice =>
        SpliceWithin(x, rest[1..], S);
        LoopWanted(keep, done, [x.kids[0]] + rest[1..], S);
      case Retain =>
        NothingWanted(keep);
        LoopWanted(keep, [], x.kids, S);
        LoopWithin(keep, [], x.kids, S);
        var y := Node(x.n, x.frame, CleanLoop(keep, [], x.kids));
        NothingLeft(keep, x);
        AbsorbWanted(keep, done, y, S);
        AbsorbWithin(keep, done, y, S);
        LoopWanted(keep, Absorb(keep, done, y), rest[1..], S);
    }
  }

  lemma NothingWanted(keep: Frame -> bool)
    ensures Wanted(keep, [])
  {
  }

  lemma NothingLeft(keep: Frame -> bool, x: Tree)
    ensures x.kids == [] ==> CleanLoop(keep, [], x.kids) == []
  {
  }

  lemma {:induction false} AbsorbWanted(keep: Frame -> bool, done: seq<Tree>, y: Tree, S: set<Frame>)
    requires Wanted(keep, done) && Wanted(keep, y.kids) && keep(y.frame) && (LibcFgets(y.frame) ==> y.kids == [])
    requires Within(done, S) && y.frame in S && Within(y.kids, S) && FgetsAgree(S)
    ensures Wanted(keep, Absorb(keep, done, y))
    decreases Max(Height(done), 1 + Height(y.kids)), 0, 0
  {
    hide Clean, CleanLoop, Contributor, LibcFgets, Height, Nodes, Narrow;
    var r := Absorb(keep, done, y);
    forall i | 0 <= i < |r|
      ensures keep(r[i].frame) && (LibcFgets(r[i].frame) ==> r[i].kids == []) && Wanted(keep, r[i].kids)
    {
      if i < |done| && Same(y.frame, done[i].frame) {
        var m := done[i].kids + y.kids;
        HeightAppend(done[i].kids, y.kids);
        HeightElement(done, i);
        WantedAppend(keep, done[i].kids, y.kids);
        WantedIsTidy(keep, m);
        WithinAppend(done[i].kids, y.kids, S);
        CleanWanted(keep, m, S);
      }
    }
  }

  lemma {:induction false} CleanWanted(keep: Frame -> bool, kids: seq<Tree>, S: set<Frame>)
    requires Narrow(keep, kids) && Within(kids, S) && FgetsAgree(S)
    ensures Wanted(keep, Clean(keep, kids)) && (kids == [] ==> Clean(keep, kids) == [])
    decreases Height(kids), Nodes(kids), 1
  {
    NothingWanted(keep);
    LoopWanted(keep, [], kids, S);
  }

  /** If no unwanted frame has more than one child, and equal frames agree on being libc's `fgets`, a second
      pass changes nothing: only wanted frames are left. */
  lemma {:induction false} CleanTwiceSame(keep: Frame -> bool, kids: seq<Tree>, S: set<Frame>)
    requires Within(kids, S) && FgetsAgree(S) && Narrow(keep, kids)
    ensures Clean(keep, Clean(keep, kids)) == Clean(keep, kids) && Wanted(keep, Clean(keep, kids))
  {
    CleanWanted(keep, kids, S);
    WantedIsTidy(keep, Clean(keep, kids));
    CleanTwiceExactly(keep, kids);
  }

  // ---- Both conditions are needed ----
  // Without the first, see `CleaningFixed.CleanTwiceDiffers`.

  lemma CleanLeaf(keep: Frame -> bool, n: int, f: Frame)
    requires keep(f) && !Contributor(f)
    ensures Clean(keep, [Node(n, f, [])]) == [Node(n, f, [])]
  {
    hide Contributor, LibcFgets;
    var x := Node(n, f, []);
    assert Trim(x) == x && [x][1..] == [];
    assert Clean(keep, []) == [] && Absorb(keep, [], x) == [x];
    Step(keep, [], [x]);
  }

  /** A libc `fgets` takes the children of an equal frame that is none, and loses them in a second pass. */
  lemma {:induction false} MergedIntoFgets(keep: Frame -> bool, a: Frame, b: Frame, c: Frame)
    requires keep(a) && keep(b) && keep(c) && !Contributor(a) && !Contributor(b) && !Contributor(c)
    requires LibcFgets(a) && !LibcFgets(b) && Same(a, b)
    ensures var kids := [Node(1, a, []), Node(1, b, [Node(1, c, [])])];
      Clean(keep, kids) == [Node(2, a, [Node(1, c, [])])] && Clean(keep, Clean(keep, kids)) == [Node(2, a, [])]
  {
    hide Contributor, LibcFgets;
    var C := Node(1, c, []);
    var A, B := Node(1, a, []), Node(1, b, [C]);
    var m := Node(2, a, [C]);
    CleanLeaf(keep, 1, c);
    assert Clean(keep, []) == [] && Trim(A) == A && Trim(B) == B;
    assert [A, B][1..] == [B] && [B][1..] == [] && [m][1..] == [];
    Step(keep, [], [A, B]);
    assert Absorb(keep, [], A) == [A];
    Step(keep, [A], [B]);
    MatchIs([A], b, 0);
    assert A.kids + B.kids == [C];
    assert Absorb(keep, [A], B) == [m];
    Step(keep, [], [m]);
    assert Absorb(keep, [], Node(2, a, [])) == [Node(2, a, [])];
  }

  function LibcFrame(func: string): Frame
    requires |func| <= FUNCTION_SIZE
  {
    EmptyFrame().(obj := "libc.so" + Zeros(OBJECT_SIZE - 7), func := func + Zeros(FUNCTION_SIZE - |func|))
  }

  lemma {:induction false} LibcTexts(func: string)
    requires |func| <= FUNCTION_SIZE && NUL !in func
    ensures var f := LibcFrame(func);
      && CStr(f.obj) == "libc.so" && CStr(f.func) == func && CStr(f.file) == []
      && f.address == 0
  {
    CStrOf("libc.so", Zeros(OBJECT_SIZE - 7));
    CStrOf(func, Zeros(FUNCTION_SIZE - |func|));
    CStrOf([], Zeros(FILE_SIZE));
    hide CStr;
    assert [] + Zeros(FILE_SIZE) == Zeros(FILE_SIZE);
  }

  lemma {:induction false} LibcFrames()
    ensures var a, b := LibcFrame("fgets"), LibcFrame([]);
      LibcFgets(a) && !LibcFgets(b) && !Contributor(a) && !Contributor(b) && Same(a, b)
  {
    hide CStr, LibcFrame;
    LibcTexts("fgets");
    LibcTexts([]);
    assert OccursAt("libc.so", "libc.so", 0) && OccursAt("fgets", "fgets", 0);
  }

  lemma {:induction false} SuchKids(keep: Frame -> bool, a: Frame, b: Frame)
    requires keep(a) && keep(b) && Same(a, b)
    ensures var kids := [Node(1, a, []), Node(1, b, [Node(1, b, [])])];
      Coherent({a, b}) && Within(kids, {a, b}) && Narrow(keep, kids)
  {
    hide Contributor, LibcFgets;
    var S, C := {a, b}, [Node(1, b, [])];
    assert Within([], S) && Within(C, S);
    assert Narrow(keep, []) && Narrow(keep, C);
  }

  /** Such frames exist: two that agree in address and object but not in function. */
  lemma {:induction false} CleanTwiceFgets()
    ensures exists keep: Frame -> bool, kids, S ::
      Coherent(S) && Within(kids, S) && Narrow(keep, kids) && Clean(keep, Clean(keep, kids)) != Clean(keep, kids)
  {
    hide Clean, Narrow, Within, Coherent, Same, Contributor, LibcFgets, LibcFrame;
    var keep := (f: Frame) => true;
    var a, b := LibcFrame("fgets"), LibcFrame([]);
    LibcFrames();
    MergedIntoFgets(keep, a, b, b);
    SuchKids(keep, a, b);
  }
}
