/** `cleanupStackTrace` as a function on forests, and what it keeps. */
module Cleaning {
  import opened Frames
  import opened Strings
  import opened Trees

  function Max(a: nat, b: nat): nat {
    if a > b then a else b
  }

  /** Frames of threads that only contribute to acquiring the stack. */
  predicate Contributor(f: Frame) {
    && CStr(f.file) == "StackTrace.cpp"
    && (|| Occurs(CStr(f.func), "_callstack_signal_handler")
        || Occurs(CStr(f.func), "getGlobalCallStacks")
        || Occurs(CStr(f.func), "backtrace")
        || !Occurs(CStr(f.func), "("))
  }

  predicate LibcFgets(f: Frame) {
    Occurs(CStr(f.obj), "libc.so") && Occurs(CStr(f.func), "fgets")
  }

  /** Everything below a libc `fgets` goes. */
  function Trim(t: Tree): Tree {
    if LibcFgets(t.frame) then Node(t.n, t.frame, []) else t
  }

  datatype Verdict = Erase | Splice | Retain

  /** What happens to one child; `keep` is the test for frames worth printing. */
  function Judge(keep: Frame -> bool, t: Tree): (v: Verdict)
    ensures v.Splice? ==> |Trim(t).kids| == 1
  {
    if Contributor(t.frame) then Erase
    else if keep(t.frame) || |Trim(t).kids| > 1 then Retain
    else if Trim(t).kids == [] then Erase
    else Splice
  }

  /** `cleanupStackTrace` on the list of children. */
  function Clean(keep: Frame -> bool, kids: seq<Tree>): (r: seq<Tree>)
    ensures Height(r) <= Height(kids)
    decreases Height(kids), Nodes(kids), 1
  {
    CleanLoop(keep, [], kids)
  }

  /** The loop: `done` lies before the iterator, `rest` starts at it. The list of children never gets
      higher, and `rest` loses a node at every turn; re-cleaning an earlier child happens below it. */
  function CleanLoop(keep: Frame -> bool, done: seq<Tree>, rest: seq<Tree>): (r: seq<Tree>)
    ensures Height(r) <= Max(Height(done), Height(rest))
    decreases Max(Height(done), Height(rest)), Nodes(rest), 0
  {
    if rest == [] then done
    else
      var x := Trim(rest[0]);
      assert rest == [rest[0]] + rest[1..];
      match Judge(keep, rest[0])
      case Erase => CleanLoop(keep, done, rest[1..])
      case Splice =>
        SpliceShrinks(x, rest[1..]);
        CleanLoop(keep, done, [x.kids[0]] + rest[1..])
      case Retain =>
        var y := Node(x.n, x.frame, Clean(keep, x.kids));
        CleanLoop(keep, Absorb(keep, done, y), rest[1..])
  }

  /** Merge a cleaned child into the equal ones before it and clean those again, or keep it. */
  function Absorb(keep: Frame -> bool, done: seq<Tree>, y: Tree): (r: seq<Tree>)
    ensures Height(r) <= Max(Height(done), 1 + Height(y.kids))
    decreases Max(Height(done), 1 + Height(y.kids)), 0, 0
  {
    if FirstMatch(done, y.frame) == |done| then
      HeightAppend(done, [y]);
      assert [y][1..] == [];
      done + [y]
    else
      var r := seq(|done|, i requires 0 <= i < |done| =>
        if Same(y.frame, done[i].frame) then
          HeightAppend(done[i].kids, y.kids);
          HeightElement(done, i);
          Node(done[i].n + y.n, done[i].frame, Clean(keep, done[i].kids + y.kids))
        else done[i]);
      assert Height(r) <= Max(Height(done), 1 + Height(y.kids)) by {
        forall i | 0 <= i < |r| ensures 1 + Height(r[i].kids) <= Max(Height(done), 1 + Height(y.kids)) {
          HeightAppend(done[i].kids, y.kids);
          HeightElement(done, i);
        }
        HeightBound(r, Max(Height(done), 1 + Height(y.kids)));
      }
      r
  }

  lemma {:induction false} HeightElement(kids: seq<Tree>, i: nat)
    requires i < |kids|
    ensures 1 + Height(kids[i].kids) <= Height(kids)
  {
    assert kids == [kids[0]] + kids[1..];
    if i > 0 {
      assert kids[1..][i - 1] == kids[i];
      HeightElement(kids[1..], i - 1);
    }
  }

  lemma {:induction false} HeightBound(kids: seq<Tree>, h: nat)
    requires forall i | 0 <= i < |kids| :: 1 + Height(kids[i].kids) <= h
    ensures Height(kids) <= h
  {
    if kids != [] {
      forall i | 0 <= i < |kids[1..]| ensures 1 + Height(kids[1..][i].kids) <= h {
        assert kids[1..][i] == kids[i + 1];
      }
      HeightBound(kids[1..], h);
    }
  }

  /** Replacing a node by its only child drops a node and raises nothing. */
  lemma SpliceShrinks(x: Tree, tail: seq<Tree>)
    requires |x.kids| == 1
    ensures Height([x.kids[0]] + tail) <= Max(1 + Height(x.kids), Height(tail))
    ensures Nodes([x.kids[0]] + tail) < 1 + Nodes(x.kids) + Nodes(tail)
  {
    assert x.kids == [x.kids[0]];
    NodesAppend(x.kids, tail);
    HeightAppend(x.kids, tail);
  }

  /** What one turn does to the measure. */
  lemma Shrinks(rest: seq<Tree>)
    requires rest != []
    ensures var x := Trim(rest[0]);
      && Height(rest[1..]) <= Height(rest) && 1 + Height(x.kids) <= Height(rest)
      && Nodes(rest[1..]) < Nodes(rest)
      && (|x.kids| == 1 ==>
            Height([x.kids[0]] + rest[1..]) <= Height(rest) && Nodes([x.kids[0]] + rest[1..]) < Nodes(rest))
  {
    var x := Trim(rest[0]);
    if |x.kids| == 1 { SpliceShrinks(x, rest[1..]); }
  }

  /** One turn of the loop. */
  lemma Step(keep: Frame -> bool, done: seq<Tree>, rest: seq<Tree>)
    requires rest != []
    ensures CleanLoop(keep, done, rest) ==
      var x := Trim(rest[0]);
      match Judge(keep, rest[0])
      case Erase => CleanLoop(keep, done, rest[1..])
      case Splice => CleanLoop(keep, done, [x.kids[0]] + rest[1..])
      case Retain => CleanLoop(keep, Absorb(keep, done, Node(x.n, x.frame, CleanLoop(keep, [], x.kids))), rest[1..])
  {
  }
}
