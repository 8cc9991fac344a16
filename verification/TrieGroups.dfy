/** A built tree described from its stacks: one child for each outermost frame, in order of first appearance,
    built in turn from what remains of the stacks that start with it. */
module TrieGroups {
  import opened Frames
  import opened Trees
  import opened Trie
  import opened CleaningPaths

  /** The outermost frames, each once, as they first appear. */
  ghost function Firsts(stacks: seq<seq<Frame>>): seq<Frame> {
    if stacks == [] then []
    else
      var a, s := Firsts(stacks[..|stacks| - 1]), stacks[|stacks| - 1];
      if s == [] || exists j | 0 <= j < |a| :: Same(a[j], s[0]) then a else a + [s[0]]
  }

  /** What remains of the stacks that start with a frame equal to `f`. */
  ghost function Tails(stacks: seq<seq<Frame>>, f: Frame): seq<seq<Frame>> {
    if stacks == [] then []
    else
      var a, s := Tails(stacks[..|stacks| - 1], f), stacks[|stacks| - 1];
      if s != [] && Same(s[0], f) then a + [s[1..]] else a
  }

  /** Their number. */
  ghost function Starting(stacks: seq<seq<Frame>>, f: Frame): set<nat> {
    set i: nat | i < |stacks| && stacks[i] != [] && Same(stacks[i][0], f)
  }

  lemma {:induction false} TailsNumber(stacks: seq<seq<Frame>>, f: Frame)
    ensures |Tails(stacks, f)| == |Starting(stacks, f)|
  {
    if stacks == [] {
      assert Starting(stacks, f) == {};
    } else {
      var A, n := stacks[..|stacks| - 1], |stacks| - 1;
      TailsNumber(A, f);
      assert forall i | 0 <= i < n :: A[i] == stacks[i];
      if stacks[n] != [] && Same(stacks[n][0], f) {
        assert Starting(stacks, f) == Starting(A, f) + {n};
      } else {
        assert Starting(stacks, f) == Starting(A, f);
      }
    }
  }

  /** A frame that some stack starts with is among the first ones. */
  lemma {:induction false} TailsFirst(stacks: seq<seq<Frame>>, f: Frame, S: set<Frame>)
    requires Coherent(S) && StacksIn(stacks, S) && f in S && Tails(stacks, f) != []
    ensures exists j | 0 <= j < |Firsts(stacks)| :: Same(Firsts(stacks)[j], f)
  {
    var A, s := stacks[..|stacks| - 1], stacks[|stacks| - 1];
    var a, r := Firsts(A), Firsts(stacks);
    FirstsIn(A, S);
    if Tails(A, f) != [] {
      TailsFirst(A, f, S);
      var j :| 0 <= j < |a| && Same(a[j], f);
      assert r[j] == a[j];
    } else if exists j | 0 <= j < |a| :: Same(a[j], s[0]) {
      var j :| 0 <= j < |a| && Same(a[j], s[0]);
      SameShift(S, s[0], f, a[j]);
      assert r[j] == a[j];
    } else {
      assert r[|a|] == s[0];
    }
  }

  lemma {:induction false} FirstsIn(stacks: seq<seq<Frame>>, S: set<Frame>)
    requires StacksIn(stacks, S)
    ensures AllIn(Firsts(stacks), S)
  {
    if stacks != [] { FirstsIn(stacks[..|stacks| - 1], S); }
  }

  /** The child for `f`. */
  ghost function Group(stacks: seq<seq<Frame>>, f: Frame): Tree {
    Node(|Tails(stacks, f)|, f, BuildKids(Tails(stacks, f)))
  }

  ghost predicate Grouped(stacks: seq<seq<Frame>>, kids: seq<Tree>) {
    && |kids| == |Firsts(stacks)|
    && forall i | 0 <= i < |kids| :: kids[i] == Group(stacks, Firsts(stacks)[i])
  }

  lemma TailsNext(A: seq<seq<Frame>>, s: seq<Frame>, f: Frame)
    ensures Tails(A + [s], f) == if s != [] && Same(s[0], f) then Tails(A, f) + [s[1..]] else Tails(A, f)
  {
    assert (A + [s])[..|A|] == A;
  }

  lemma FirstsNext(A: seq<seq<Frame>>, s: seq<Frame>)
    ensures Firsts(A + [s]) ==
      if s == [] || exists j | 0 <= j < |Firsts(A)| :: Same(Firsts(A)[j], s[0]) then Firsts(A) else Firsts(A) + [s[0]]
  {
    assert (A + [s])[..|A|] == A;
  }

  lemma GroupNext(A: seq<seq<Frame>>, s: seq<Frame>, f: Frame)
    ensures Group(A + [s], f) ==
      if s != [] && Same(s[0], f) then
        Node(Group(A, f).n + 1, f, InsertKids(Group(A, f).kids, s[1..]))
      else Group(A, f)
  {
    TailsNext(A, s, f);
    if s != [] && Same(s[0], f) { BuildNext(Tails(A, f), s[1..]); }
  }

  /** A built tree is the grouped one: representative frames, counts, order and all that lies below. */
  lemma {:induction false} BuildIsGrouped(stacks: seq<seq<Frame>>, S: set<Frame>)
    requires Coherent(S) && StacksIn(stacks, S)
    ensures Grouped(stacks, BuildKids(stacks))
  {
    if stacks != [] {
      var A, s := stacks[..|stacks| - 1], stacks[|stacks| - 1];
      assert stacks == A + [s];
      BuildIsGrouped(A, S);
      BuildNext(A, s);
      FirstsNext(A, s);
      if s == [] {
        hide BuildKids, Tails, Firsts, InsertKids, Group;
        forall f ensures Group(A + [s], f) == Group(A, f) { GroupNext(A, s, f); }
        NothingInserted(BuildKids(A));
      } else {
        BuildKeeps(A, S);
        GroupedOn(A, s, S);
      }
    }
  }

  lemma NothingInserted(kids: seq<Tree>)
    ensures InsertKids(kids, []) == kids
  {
  }

  lemma {:induction false} GroupedOn(A: seq<seq<Frame>>, s: seq<Frame>, S: set<Frame>)
    requires Coherent(S) && StacksIn(A, S) && AllIn(s, S) && s != []
    requires Grouped(A, BuildKids(A)) && Within(BuildKids(A), S) && Distinct(BuildKids(A))
    ensures Grouped(A + [s], InsertKids(BuildKids(A), s))
  {
    var K, F, f := BuildKids(A), Firsts(A), s[0];
    var r := InsertKids(K, s);
    var k := FirstMatch(K, f);
    SoleMatch(K, f, S);
    FirstsNext(A, s);
    hide BuildKids, Tails, Firsts;
    if k < |K| {
      assert Same(F[k], f);
      InsertSole(K, s, k);
      forall i | 0 <= i < |r| ensures r[i] == Group(A + [s], F[i]) {
        GroupNext(A, s, F[i]);
        assert Same(K[i].frame, f) <==> i == k;
      }
    } else {
      GroupNext(A, s, f);
      assert Tails(A, f) == [] by {
        if Tails(A, f) != [] { TailsFirst(A, f, S); }
      }
      BuildNone();
      assert r == K + [Node(1, f, InsertKids([], s[1..]))];
      forall i | 0 <= i < |K| ensures r[i] == Group(A + [s], F[i]) {
        GroupNext(A, s, F[i]);
        assert !Same(K[i].frame, f);
      }
    }
  }

  lemma BuildNone()
    ensures BuildKids([]) == []
  {
  }

  // ---- Every stack is a path ----

  /** `q` stands for `p`, frame by frame. */
  ghost predicate Stands(q: seq<Frame>, p: seq<Frame>) {
    |q| == |p| && forall j | 0 <= j < |p| :: Same(q[j], p[j])
  }

  lemma {:induction false} StandsNext(f: Frame, q: seq<Frame>, p: seq<Frame>)
    requires p != [] && Same(f, p[0]) && Stands(q, p[1..])
    ensures Stands([f] + q, p)
  {
    hide Same;
    forall j | 1 <= j < |p| ensures Same(([f] + q)[j], p[j]) {
      assert Same(q[j - 1], p[1..][j - 1]);
    }
  }

  /** The stack inserted is a path of the result, up to frame equality, and every path stays. */
  lemma {:induction false} InsertPath(kids: seq<Tree>, p: seq<Frame>)
    ensures p != [] ==> exists q :: IsPath(InsertKids(kids, p), q) && Stands(q, p)
    ensures forall q | IsPath(kids, q) :: IsPath(InsertKids(kids, p), q)
    decreases p
  {
    if p != [] {
      var i, r := FirstMatch(kids, p[0]), InsertKids(kids, p);
      var below := if i < |kids| then kids[i].kids else [];
      InsertPath(below, p[1..]);
      var q: seq<Frame> := [];
      if |p| > 1 { q :| IsPath(InsertKids(below, p[1..]), q) && Stands(q, p[1..]); }
      var path := [r[i].frame] + q;
      assert path[1..] == q && Below(r[i], path) && IsPath(r, path);
      StandsNext(r[i].frame, q, p);
      forall x | IsPath(kids, x) ensures IsPath(r, x) {
        var j :| 0 <= j < |kids| && Below(kids[j], x);
        assert Below(r[j], x);
      }
    }
  }

  /** Every stack is a path of the built tree, whatever the frames. */
  lemma {:induction false} BuildPath(stacks: seq<seq<Frame>>, i: nat)
    requires i < |stacks| && stacks[i] != []
    ensures exists q :: IsPath(BuildKids(stacks), q) && Stands(q, stacks[i])
  {
    var A, s := stacks[..|stacks| - 1], stacks[|stacks| - 1];
    InsertPath(BuildKids(A), s);
    if i < |A| {
      BuildPath(A, i);
      var q :| IsPath(BuildKids(A), q) && Stands(q, A[i]);
      assert IsPath(BuildKids(stacks), q) && Stands(q, stacks[i]);
    }
  }
}
