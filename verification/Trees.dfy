/** The value of a call-stack tree (`multi_stack_info`) and the measures and predicates on it. */
module Trees {
  import opened Frames

  datatype Tree = Node(n: int, frame: Frame, kids: seq<Tree>)

  function EmptyTree(): Tree {
    Node(0, EmptyFrame(), [])
  }

  ghost predicate FramesIn(kids: seq<Tree>, S: set<Frame>) {
    forall i | 0 <= i < |kids| :: kids[i].frame in S
  }

  /** Every frame of the forest lies in `S`. */
  ghost predicate Within(kids: seq<Tree>, S: set<Frame>) {
    FramesIn(kids, S) && forall i | 0 <= i < |kids| :: Within(kids[i].kids, S)
  }

  /** No two siblings are equal, at this level. */
  ghost predicate Apart(kids: seq<Tree>) {
    forall i, j | 0 <= i < j < |kids| :: !Same(kids[i].frame, kids[j].frame)
  }

  /** No two siblings are equal, at any depth. */
  ghost predicate Distinct(kids: seq<Tree>) {
    Apart(kids) && forall i | 0 <= i < |kids| :: Distinct(kids[i].kids)
  }

  lemma DistinctBelow(kids: seq<Tree>)
    requires Distinct(kids)
    ensures Distinct([]) && forall i | 0 <= i < |kids| :: Distinct(kids[i].kids)
  {
  }

  /** Sum of the counts at this level. */
  ghost function SumN(kids: seq<Tree>): int {
    if kids == [] then 0 else kids[0].n + SumN(kids[1..])
  }

  /** Number of nodes. */
  ghost function Nodes(kids: seq<Tree>): nat {
    if kids == [] then 0 else 1 + Nodes(kids[0].kids) + Nodes(kids[1..])
  }

  /** Length of a longest root-to-node path. */
  ghost function Height(kids: seq<Tree>): nat {
    if kids == [] then 0
    else
      var h, r := 1 + Height(kids[0].kids), Height(kids[1..]);
      if h > r then h else r
  }

  /** Index of the first sibling equal to `f`, or the number of siblings. */
  function FirstMatch(kids: seq<Tree>, f: Frame): (i: nat)
    ensures i <= |kids|
    ensures forall j | 0 <= j < i :: !Same(kids[j].frame, f)
    ensures i < |kids| ==> Same(kids[i].frame, f)
  {
    if kids == [] || Same(kids[0].frame, f) then 0
    else
      var i := 1 + FirstMatch(kids[1..], f);
      assert forall j | 0 <= j < i :: !Same(kids[j].frame, f) by {
        forall j | 0 <= j < i ensures !Same(kids[j].frame, f) {
          if j > 0 { assert kids[j] == kids[1..][j - 1]; }
        }
      }
      i
  }

  lemma MatchIs(kids: seq<Tree>, f: Frame, i: nat)
    requires i <= |kids|
    requires forall j | 0 <= j < i :: !Same(kids[j].frame, f)
    requires i < |kids| ==> Same(kids[i].frame, f)
    ensures FirstMatch(kids, f) == i
  {
  }

  /** Child `k` is the only one equal to `f`; no child is when `k` is their number. */
  ghost predicate Sole(kids: seq<Tree>, f: Frame, k: nat) {
    k <= |kids| && forall j | 0 <= j < |kids| :: Same(kids[j].frame, f) <==> j == k
  }

  lemma SoleIsFirst(kids: seq<Tree>, f: Frame, k: nat)
    requires Sole(kids, f, k)
    ensures FirstMatch(kids, f) == k
  {
    assert k < |kids| ==> Same(kids[k].frame, f);
  }

  /** Among siblings that are pairwise different at most one equals a given frame. */
  lemma SoleMatch(kids: seq<Tree>, f: Frame, S: set<Frame>)
    requires Coherent(S) && FramesIn(kids, S) && Apart(kids) && f in S
    ensures Sole(kids, f, FirstMatch(kids, f))
  {
    var k := FirstMatch(kids, f);
    if k < |kids| {
      forall j | 0 <= j < |kids| && j != k ensures !Same(kids[j].frame, f) {
        SameShift(S, kids[k].frame, f, kids[j].frame);
      }
    }
  }

  lemma SoleShift(kids: seq<Tree>, f: Frame, g: Frame, k: nat, S: set<Frame>)
    requires Coherent(S) && FramesIn(kids, S) && f in S && g in S && Same(f, g)
    requires Sole(kids, f, k)
    ensures Sole(kids, g, k)
  {
    forall j | 0 <= j < |kids| ensures Same(kids[j].frame, f) <==> Same(kids[j].frame, g) {
      SameShift(S, f, g, kids[j].frame);
    }
  }

  lemma SumNAppend(a: seq<Tree>, b: seq<Tree>)
    ensures SumN(a + b) == SumN(a) + SumN(b)
  {
    if a == [] {
      assert a + b == b;
    } else {
      assert (a + b)[1..] == a[1..] + b;
      SumNAppend(a[1..], b);
    }
  }

  lemma SumNUpdate(a: seq<Tree>, i: nat, x: Tree)
    requires i < |a|
    ensures SumN(a[i := x]) == SumN(a) - a[i].n + x.n
  {
    assert a == a[..i] + ([a[i]] + a[i + 1..]);
    assert a[i := x] == a[..i] + ([x] + a[i + 1..]);
    SumNAppend(a[..i], [a[i]] + a[i + 1..]);
    SumNAppend(a[..i], [x] + a[i + 1..]);
    assert ([a[i]] + a[i + 1..])[1..] == a[i + 1..] == ([x] + a[i + 1..])[1..];
  }

  lemma NodesAppend(a: seq<Tree>, b: seq<Tree>)
    ensures Nodes(a + b) == Nodes(a) + Nodes(b)
  {
    if a == [] {
      assert a + b == b;
    } else {
      assert (a + b)[1..] == a[1..] + b;
      NodesAppend(a[1..], b);
    }
  }

  lemma {:induction false} NodesOne(x: Tree)
    ensures Nodes([x]) == 1 + Nodes(x.kids)
  {
    assert [x][1..] == [];
  }

  lemma {:induction false} NodesUpdate(a: seq<Tree>, i: nat, x: Tree)
    requires i < |a|
    ensures Nodes(a[i := x]) == Nodes(a) - Nodes(a[i].kids) + Nodes(x.kids)
  {
    assert a == a[..i] + [a[i]] + a[i + 1..];
    assert a[i := x] == a[..i] + [x] + a[i + 1..];
    NodesAppend(a[..i], [a[i]]);
    NodesAppend(a[..i] + [a[i]], a[i + 1..]);
    NodesAppend(a[..i], [x]);
    NodesAppend(a[..i] + [x], a[i + 1..]);
    NodesOne(a[i]);
    NodesOne(x);
  }

  lemma HeightAppend(a: seq<Tree>, b: seq<Tree>)
    ensures Height(a + b) == if Height(a) > Height(b) then Height(a) else Height(b)
  {
    if a == [] {
      assert a + b == b;
    } else {
      assert (a + b)[1..] == a[1..] + b;
      HeightAppend(a[1..], b);
    }
  }

  /** What holds of no trees at all. */
  lemma EmptyForest(S: set<Frame>)
    ensures Within([], S) && Apart([]) && Distinct([]) && SumN([]) == 0 && Height([]) == 0
  {
  }
}
