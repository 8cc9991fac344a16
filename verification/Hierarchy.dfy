/** From indented lines to a forest: the second half of `generateFromString`.

    A pointer to a child list is the path of child indices that leads to the list. Appending to a list
    may move its elements, so every pointer to something inside them dangles afterwards; the class
    keeps track of the pointers that may still be used. */
module Hierarchy {
  import opened Frames
  import opened Trees
  import opened Text

  // ---- Preorder, parents and depths ----

  /** The nodes without their children, parents first. */
  ghost function Preorder(kids: seq<Tree>): seq<Tree> {
    if kids == [] then []
    else [Node(kids[0].n, kids[0].frame, [])] + Preorder(kids[0].kids) + Preorder(kids[1..])
  }

  /** For each node in preorder the preorder number of its parent; the top level has parent `self`, and
      numbering starts at `base`. */
  ghost function Parents(kids: seq<Tree>, self: int, base: int): seq<int> {
    if kids == [] then []
    else [self] + Parents(kids[0].kids, base, base + 1) + Parents(kids[1..], self, base + 1 + Nodes(kids[0].kids))
  }

  ghost function Depths(kids: seq<Tree>, d: nat): seq<nat> {
    if kids == [] then [] else [d] + Depths(kids[0].kids, d + 1) + Depths(kids[1..], d)
  }

  /** `j` is the nearest earlier line with a smaller indent than line `i`, or -1 when there is none. */
  ghost predicate Nearest(indent: seq<nat>, i: nat, j: int)
    requires i < |indent|
  {
    && -1 <= j < i && (j >= 0 ==> indent[j] < indent[i])
    && forall k | j < k < i :: indent[k] >= indent[i]
  }

  /** The forest the lines stand for: line order is preorder, and parents are nearest smaller lines. */
  ghost predicate IsForestOf(indent: seq<nat>, nodes: seq<Tree>, kids: seq<Tree>) {
    && |indent| == |nodes| && Preorder(kids) == nodes && |Parents(kids, -1, 0)| == |indent|
    && forall i | 0 <= i < |indent| :: Nearest(indent, i, Parents(kids, -1, 0)[i])
  }

  lemma {:induction false} Lengths(kids: seq<Tree>, self: int, base: int, d: nat)
    ensures |Preorder(kids)| == |Parents(kids, self, base)| == |Depths(kids, d)| == Nodes(kids)
    decreases kids
  {
    if kids != [] {
      Lengths(kids[0].kids, base, base + 1, d + 1);
      Lengths(kids[1..], self, base + 1 + Nodes(kids[0].kids), d);
    }
  }

  // ---- Appending along the rightmost spine ----

  /** Number of lists on the rightmost spine that are not empty. */
  ghost function SpineDepth(kids: seq<Tree>): nat {
    if kids == [] then 0 else 1 + SpineDepth(kids[|kids| - 1].kids)
  }

  /** Path to the list at depth `k` of the spine. */
  ghost function SpinePath(kids: seq<Tree>, k: nat): seq<nat>
    requires k <= SpineDepth(kids)
    decreases k
  {
    if k == 0 then [] else [|kids| - 1] + SpinePath(kids[|kids| - 1].kids, k - 1)
  }

  /** Number of the node whose child list that is. */
  ghost function SpineIndex(kids: seq<Tree>, k: nat, self: int, base: int): int
    requires k <= SpineDepth(kids)
    decreases k
  {
    if k == 0 then self
    else
      var last := base + Nodes(kids[..|kids| - 1]);
      SpineIndex(kids[|kids| - 1].kids, k - 1, last, last + 1)
  }

  ghost function AppendAt(kids: seq<Tree>, k: nat, x: Tree): seq<Tree>
    requires k <= SpineDepth(kids)
    decreases k
  {
    if k == 0 then kids + [x]
    else
      var l := kids[|kids| - 1];
      kids[..|kids| - 1] + [Node(l.n, l.frame, AppendAt(l.kids, k - 1, x))]
  }

  lemma {:induction false} PreorderAppend(a: seq<Tree>, b: seq<Tree>)
    ensures Preorder(a + b) == Preorder(a) + Preorder(b)
    decreases a
  {
    if a == [] {
      assert a + b == b;
    } else {
      assert (a + b)[1..] == a[1..] + b;
      PreorderAppend(a[1..], b);
    }
  }

  lemma {:induction false} ParentsAppend(a: seq<Tree>, b: seq<Tree>, self: int, base: int)
    ensures Parents(a + b, self, base) == Parents(a, self, base) + Parents(b, self, base + Nodes(a))
    decreases a
  {
    if a == [] {
      assert a + b == b;
    } else {
      assert (a + b)[1..] == a[1..] + b;
      ParentsAppend(a[1..], b, self, base + 1 + Nodes(a[0].kids));
    }
  }

  lemma {:induction false} PreorderOne(x: Tree)
    ensures Preorder([x]) == [Node(x.n, x.frame, [])] + Preorder(x.kids)
  {
    assert [x][1..] == [];
  }

  lemma {:induction false} ParentsOne(x: Tree, self: int, base: int)
    ensures Parents([x], self, base) == [self] + Parents(x.kids, base, base + 1)
  {
    assert [x][1..] == [];
  }

  /** The lines of a forest end with those of its last tree. */
  lemma {:induction false} LastLines(init: seq<Tree>, l: Tree, self: int, base: int)
    ensures var last := base + Nodes(init);
      && Preorder(init + [l]) == Preorder(init) + [Node(l.n, l.frame, [])] + Preorder(l.kids)
      && Parents(init + [l], self, base) == Parents(init, self, base) + [self] + Parents(l.kids, last, last + 1)
      && Nodes(init + [l]) == Nodes(init) + 1 + Nodes(l.kids)
  {
    hide Preorder, Parents, Nodes;
    PreorderAppend(init, [l]);
    PreorderOne(l);
    ParentsAppend(init, [l], self, base);
    ParentsOne(l, self, base + Nodes(init));
    NodesAppend(init, [l]);
    NodesOne(l);
    assert Preorder(init) + ([Node(l.n, l.frame, [])] + Preorder(l.kids))
      == Preorder(init) + [Node(l.n, l.frame, [])] + Preorder(l.kids);
    var q := Parents(l.kids, base + Nodes(init), base + Nodes(init) + 1);
    assert Parents(init, self, base) + ([self] + q) == Parents(init, self, base) + [self] + q;
  }

  /** Its spine goes through its last tree. */
  lemma {:induction false} LastSpine(init: seq<Tree>, l: Tree, k: nat, self: int, base: int)
    requires k <= SpineDepth(l.kids)
    ensures var last := base + Nodes(init);
      && SpineDepth(init + [l]) == 1 + SpineDepth(l.kids)
      && SpinePath(init + [l], k + 1) == [|init|] + SpinePath(l.kids, k)
      && SpineIndex(init + [l], k + 1, self, base) == SpineIndex(l.kids, k, last, last + 1)
  {
    assert (init + [l])[..|init|] == init;
  }

  /** Appending a leaf on the spine appends one line; its parent is the spine node there. */
  lemma {:induction false} AppendLine(kids: seq<Tree>, k: nat, x: Tree, self: int, base: int)
    requires k <= SpineDepth(kids) && x.kids == []
    ensures Preorder(AppendAt(kids, k, x)) == Preorder(kids) + [x]
    ensures Parents(AppendAt(kids, k, x), self, base) == Parents(kids, self, base) + [SpineIndex(kids, k, self, base)]
    decreases k
  {
    if k == 0 {
      LastLines(kids, x, self, base);
      assert Preorder(x.kids) == [] && Parents(x.kids, base + Nodes(kids), base + Nodes(kids) + 1) == [];
      assert x == Node(x.n, x.frame, []);
    } else {
      var init, l := kids[..|kids| - 1], kids[|kids| - 1];
      var last := base + Nodes(init);
      var l' := Node(l.n, l.frame, AppendAt(l.kids, k - 1, x));
      assert kids == init + [l] && AppendAt(kids, k, x) == init + [l'];
      AppendLine(l.kids, k - 1, x, last, last + 1);
      AppendLineUp(init, l, l', x, SpineIndex(l.kids, k - 1, last, last + 1), self, base);
    }
  }

  lemma {:induction false} AppendLineUp(init: seq<Tree>, l: Tree, l': Tree, x: Tree, p: int, self: int, base: int)
    requires var last := base + Nodes(init);
      && l'.n == l.n && l'.frame == l.frame && Preorder(l'.kids) == Preorder(l.kids) + [x]
      && Parents(l'.kids, last, last + 1) == Parents(l.kids, last, last + 1) + [p]
    ensures Preorder(init + [l']) == Preorder(init + [l]) + [x]
    ensures Parents(init + [l'], self, base) == Parents(init + [l], self, base) + [p]
  {
    hide Preorder, Parents, Nodes;
    var last := base + Nodes(init);
    LastLines(init, l, self, base);
    LastLines(init, l', self, base);
    Assoc(Preorder(init) + [Node(l.n, l.frame, [])], Preorder(l.kids), [x]);
    Assoc(Parents(init, self, base) + [self], Parents(l.kids, last, last + 1), [p]);
  }

  lemma Assoc<T>(a: seq<T>, b: seq<T>, c: seq<T>)
    ensures a + (b + c) == a + b + c
  {
  }

  /** What one append does to the spine. */
  ghost predicate SpineGrown(kids: seq<Tree>, r: seq<Tree>, k: nat, self: int, base: int)
    requires k <= SpineDepth(kids)
  {
    && SpineDepth(r) == k + 1 && Nodes(r) == Nodes(kids) + 1
    && (forall j | 0 <= j <= k ::
          SpinePath(r, j) == SpinePath(kids, j) && SpineIndex(r, j, self, base) == SpineIndex(kids, j, self, base))
    && SpineIndex(r, k + 1, self, base) == base + Nodes(kids)
  }

  /** The spine after an append: unchanged down to the list appended to, and the new leaf below. */
  lemma {:induction false} AppendSpine(kids: seq<Tree>, k: nat, x: Tree, self: int, base: int)
    requires k <= SpineDepth(kids) && x.kids == []
    ensures SpineGrown(kids, AppendAt(kids, k, x), k, self, base)
    decreases k
  {
    hide Preorder, Parents, SpinePath, SpineIndex, SpineGrown;
    var r := AppendAt(kids, k, x);
    if k == 0 {
      AppendSpineHere(kids, x, self, base);
    } else {
      var init, l := kids[..|kids| - 1], kids[|kids| - 1];
      var last := base + Nodes(init);
      var l' := Node(l.n, l.frame, AppendAt(l.kids, k - 1, x));
      assert kids == init + [l] && r == init + [l'];
      AppendSpine(l.kids, k - 1, x, last, last + 1);
      LastSpine(init, l, k - 1, self, base);
      SpineGrownUp(init, l, l', k - 1, self, base);
    }
  }

  lemma AppendSpineHere(kids: seq<Tree>, x: Tree, self: int, base: int)
    requires x.kids == []
    ensures SpineGrown(kids, kids + [x], 0, self, base)
  {
    LastLines(kids, x, self, base);
    LastSpine(kids, x, 0, self, base);
  }

  lemma {:induction false} SpineGrownUp(init: seq<Tree>, l: Tree, l': Tree, k: nat, self: int, base: int)
    requires k <= SpineDepth(l.kids) && SpineDepth(init + [l]) == 1 + SpineDepth(l.kids)
    requires SpineGrown(l.kids, l'.kids, k, base + Nodes(init), base + Nodes(init) + 1)
    ensures SpineGrown(init + [l], init + [l'], k + 1, self, base)
  {
    hide Preorder, Parents, Nodes, SpinePath, SpineIndex, SpineDepth;
    LastLines(init, l, self, base);
    LastLines(init, l', self, base);
    LastSpine(init, l', k + 1, self, base);
    SpineTop(init + [l], self, base);
    SpineTop(init + [l'], self, base);
    forall j | 0 <= j <= k + 1
      ensures SpinePath(init + [l'], j) == SpinePath(init + [l], j)
      ensures SpineIndex(init + [l'], j, self, base) == SpineIndex(init + [l], j, self, base)
    {
      if j > 0 {
        LastSpine(init, l, j - 1, self, base);
        LastSpine(init, l', j - 1, self, base);
        assert SpinePath(l'.kids, j - 1) == SpinePath(l.kids, j - 1);
      }
    }
  }

  lemma SpineTop(kids: seq<Tree>, self: int, base: int)
    ensures SpinePath(kids, 0) == [] && SpineIndex(kids, 0, self, base) == self
  {
  }

  // ---- Pointers to child lists ----

  ghost predicate ValidPointer(kids: seq<Tree>, path: seq<nat>)
    decreases path
  {
    path == [] || (path[0] < |kids| && ValidPointer(kids[path[0]].kids, path[1..]))
  }

  /** The list a pointer refers to. */
  function ListAt(kids: seq<Tree>, path: seq<nat>): seq<Tree>
    requires ValidPointer(kids, path)
    decreases path
  {
    if path == [] then kids else ListAt(kids[path[0]].kids, path[1..])
  }

  /** The forest after `push_back` on that list. */
  function Pushed(kids: seq<Tree>, path: seq<nat>, x: Tree): seq<Tree>
    requires ValidPointer(kids, path)
    decreases path
  {
    if path == [] then kids + [x]
    else
      var t := kids[path[0]];
      kids[path[0] := Node(t.n, t.frame, Pushed(t.kids, path[1..], x))]
  }

  lemma {:induction false} PushedKeepsPointer(kids: seq<Tree>, path: seq<nat>, x: Tree, q: seq<nat>)
    requires ValidPointer(kids, path) && ValidPointer(kids, q)
    ensures ValidPointer(Pushed(kids, path, x), q)
    decreases path
  {
    if path != [] && q != [] && path[0] == q[0] {
      PushedKeepsPointer(kids[path[0]].kids, path[1..], x, q[1..]);
    }
  }

  lemma {:induction false} LastPointer(kids: seq<Tree>, p: seq<nat>)
    requires ValidPointer(kids, p) && ListAt(kids, p) != []
    ensures ValidPointer(kids, p + [|ListAt(kids, p)| - 1])
    decreases p
  {
    var q := p + [|ListAt(kids, p)| - 1];
    if p == [] {
      assert q[1..] == [];
    } else {
      LastPointer(kids[p[0]].kids, p[1..]);
      assert q[1..] == p[1..] + [|ListAt(kids, p)| - 1];
    }
  }

  /** The tree being built. `live` holds the pointers that were taken and do not dangle. */
  class Forest {
    var kids: seq<Tree>
    ghost var live: set<seq<nat>>

    ghost predicate Valid()
      reads this
    {
      forall p | p in live :: ValidPointer(kids, p)
    }

    constructor ()
      ensures Valid() && kids == [] && live == {[]}
    {
      kids, live := [], {[]};
    }

    /** `&p->back().children`. */
    method ChildrenOfLast(p: seq<nat>) returns (q: seq<nat>)
      requires Valid() && p in live && ListAt(kids, p) != []
      modifies this`live
      ensures Valid() && q == p + [|ListAt(kids, p)| - 1] && live == old(live) + {q}
    {
      q := p + [|ListAt(kids, p)| - 1];
      LastPointer(kids, p);
      live := live + {q};
    }

    /** `p->push_back( x )`: pointers to what lies inside the list dangle from here on. */
    method PushBack(p: seq<nat>, x: Tree)
      requires Valid() && p in live
      modifies this
      ensures Valid() && kids == Pushed(old(kids), p, x)
      ensures live == set q | q in old(live) && !(p < q)
    {
      live := set q | q in live && !(p < q);
      forall q | q in live ensures ValidPointer(Pushed(kids, p, x), q) {
        PushedKeepsPointer(kids, p, x, q);
      }
      kids := Pushed(kids, p, x);
    }
  }

  lemma {:induction false} SpineList(kids: seq<Tree>, k: nat)
    requires k <= SpineDepth(kids)
    ensures |SpinePath(kids, k)| == k && ValidPointer(kids, SpinePath(kids, k))
    ensures ListAt(kids, SpinePath(kids, k)) != [] <==> k < SpineDepth(kids)
    ensures k < SpineDepth(kids) ==>
      SpinePath(kids, k + 1) == SpinePath(kids, k) + [|ListAt(kids, SpinePath(kids, k))| - 1]
    decreases k
  {
    hide SpinePath, SpineDepth, ValidPointer, ListAt;
    if k == 0 {
      SpineListTop(kids);
    } else {
      SpineBelow(kids, k);
      var l := kids[|kids| - 1];
      var p, q := SpinePath(kids, k), SpinePath(l.kids, k - 1);
      SpineList(l.kids, k - 1);
      PointerBelow(kids, p, q);
      if k < SpineDepth(kids) {
        SpineBelow(kids, k + 1);
        assert [|kids| - 1] + (q + [|ListAt(kids, p)| - 1]) == p + [|ListAt(kids, p)| - 1];
      }
    }
  }

  lemma SpineListTop(kids: seq<Tree>)
    ensures SpinePath(kids, 0) == [] && ValidPointer(kids, []) && ListAt(kids, []) == kids
    ensures kids != [] <==> 0 < SpineDepth(kids)
    ensures kids != [] ==> SpinePath(kids, 1) == [] + [|kids| - 1]
  {
    if kids != [] {
      assert SpinePath(kids[|kids| - 1].kids, 0) == [];
    }
  }

  lemma PointerBelow(kids: seq<Tree>, p: seq<nat>, q: seq<nat>)
    requires kids != [] && p == [|kids| - 1] + q && ValidPointer(kids[|kids| - 1].kids, q)
    ensures ValidPointer(kids, p) && ListAt(kids, p) == ListAt(kids[|kids| - 1].kids, q)
  {
    assert p[1..] == q;
  }

  lemma SpineBelow(kids: seq<Tree>, k: nat)
    requires 0 < k <= SpineDepth(kids)
    ensures kids != [] && SpineDepth(kids) == 1 + SpineDepth(kids[|kids| - 1].kids)
    ensures SpinePath(kids, k) == [|kids| - 1] + SpinePath(kids[|kids| - 1].kids, k - 1)
  {
  }

  lemma {:induction false} PushedOnSpine(kids: seq<Tree>, k: nat, x: Tree)
    requires k <= SpineDepth(kids) && ValidPointer(kids, SpinePath(kids, k))
    ensures Pushed(kids, SpinePath(kids, k), x) == AppendAt(kids, k, x)
    decreases k
  {
    if k > 0 {
      var l := kids[|kids| - 1];
      var p := SpinePath(kids, k);
      assert p[1..] == SpinePath(l.kids, k - 1);
      PushedOnSpine(l.kids, k - 1, x);
      assert kids == kids[..|kids| - 1] + [l];
    }
  }

  // ---- The loop over the lines ----

  /** An entry of `map`. */
  datatype Entry = Entry(indent: nat, list: seq<nat>)

  ghost predicate AtLeast(indent: seq<nat>, from: int, to: nat, v: nat) {
    -1 <= from && to <= |indent| && forall t | from < t < to :: indent[t] >= v
  }

  /** What the entries say about the first `i` lines. `owners[j]` is the last line in list `j`: it has the
      indent of the entry, and no line since then has a smaller indent than the next entry. */
  ghost predicate Summary(indent: seq<nat>, i: nat, entries: seq<Entry>, owners: seq<int>) {
    Increasing(entries) && LastLinesOf(indent, i, entries, owners)
  }

  ghost predicate Increasing(entries: seq<Entry>) {
    entries != [] && entries[0].indent == 0
    && forall j, k | 0 <= j < k < |entries| :: entries[j].indent < entries[k].indent
  }

  ghost predicate LastLinesOf(indent: seq<nat>, i: nat, entries: seq<Entry>, owners: seq<int>) {
    && i <= |indent|
    && (if i == 0 then owners == [] && |entries| == 1 else |owners| == |entries| > 0 && owners[|owners| - 1] == i - 1)
    && (forall j | 0 <= j < |owners| :: 0 <= owners[j] < i && indent[owners[j]] == entries[j].indent)
    && (forall j | 0 <= j < |owners| - 1 :: AtLeast(indent, owners[j], i, entries[j + 1].indent))
  }

  /** The list the next line goes to, once `m` entries are left. */
  ghost function Target(indent: seq<nat>, i: nat, entries: seq<Entry>, m: nat): nat
    requires i < |indent| && 0 < m <= |entries|
  {
    if indent[i] == entries[m - 1].indent then m - 1 else m
  }

  /** The entries, with a new one when the line opens list `k`. */
  ghost function Extended(entries: seq<Entry>, ind: nat, k: nat, q: seq<nat>): seq<Entry> {
    if k < |entries| then entries else entries + [Entry(ind, q)]
  }

  /** `m` entries are left after popping. */
  ghost predicate Popped(indent: seq<nat>, i: nat, entries: seq<Entry>, m: nat) {
    && i < |indent| && 0 < m <= |entries| && (i == 0 ==> indent[0] == 0)
    && entries[m - 1].indent <= indent[i] && (m < |entries| ==> indent[i] < entries[m].indent)
  }

  /** The owner of the target list is the nearest earlier line with a smaller indent. */
  lemma {:induction false} OwnerIsNearest(indent: seq<nat>, i: nat, entries: seq<Entry>, owners: seq<int>, m: nat)
    requires Summary(indent, i, entries, owners) && Popped(indent, i, entries, m)
    ensures var k := Target(indent, i, entries, m);
            k <= |owners| && Nearest(indent, i, if k == 0 then -1 else owners[k - 1])
  {
    var k := Target(indent, i, entries, m);
    if 0 < k < |entries| {
      assert AtLeast(indent, owners[k - 1], i, entries[k].indent);
    }
  }

  /** The summary after the line was appended. */
  lemma {:induction false} SummaryOn(indent: seq<nat>, i: nat, entries: seq<Entry>, owners: seq<int>, m: nat,
                                     q: seq<nat>)
    requires Summary(indent, i, entries, owners) && Popped(indent, i, entries, m)
    ensures var k := Target(indent, i, entries, m);
      && k <= |owners|
      && Summary(indent, i + 1, Extended(entries[..m], indent[i], k, q), owners[..k] + [i])
  {
    hide *;
    SummaryParts(indent, i, entries, owners, m);
    var k := Target(indent, i, entries, m);
    var e := Extended(entries[..m], indent[i], k, q);
    var o := owners[..k] + [i];
    ExtendedIs(entries, m, indent[i], k, q);
    IncreasingTo(indent, i, entries, m);
    forall j | 0 <= j < k ensures AtLeast(indent, o[j], i + 1, e[j + 1].indent) {
      AtLeastOn(indent, i, entries, owners, m, j);
    }
    IncreasingOn(entries, e, k);
    LastLinesOn(indent, i, entries, owners, e, o, k);
    SummaryFrom(indent, i + 1, e, o);
  }

  lemma SummaryParts(indent: seq<nat>, i: nat, entries: seq<Entry>, owners: seq<int>, m: nat)
    requires Summary(indent, i, entries, owners) && Popped(indent, i, entries, m)
    ensures i < |indent| && 0 < m <= |entries|
    ensures var k := Target(indent, i, entries, m);
      && Increasing(entries) && LastLinesOf(indent, i, entries, owners)
      && k <= |owners| <= |entries| && m - 1 <= k <= m
      && (k < m ==> entries[m - 1].indent == indent[i]) && (k == 0 ==> indent[i] == 0)
  {
    hide AtLeast;
  }

  lemma SummaryFrom(indent: seq<nat>, i: nat, entries: seq<Entry>, owners: seq<int>)
    requires Increasing(entries) && LastLinesOf(indent, i, entries, owners)
    ensures Summary(indent, i, entries, owners)
  {
    hide Increasing, LastLinesOf;
  }

  lemma ExtendedIs(entries: seq<Entry>, m: nat, ind: nat, k: nat, q: seq<nat>)
    requires 0 < m <= |entries| && m - 1 <= k <= m && (k < m ==> entries[m - 1].indent == ind)
    ensures var e := Extended(entries[..m], ind, k, q);
      |e| == k + 1 && e[k].indent == ind && forall j | 0 <= j < k :: e[j] == entries[j]
  {
  }

  lemma {:induction false} IncreasingOn(entries: seq<Entry>, e: seq<Entry>, k: nat)
    requires Increasing(entries) && k <= |entries| && |e| == k + 1
    requires (forall j | 0 <= j < k :: e[j] == entries[j]) && (k == 0 ==> e[k].indent == 0)
    requires forall j | 0 <= j < k :: entries[j].indent < e[k].indent
    ensures Increasing(e)
  {
  }

  lemma {:induction false} LastLinesOn(indent: seq<nat>, i: nat, entries: seq<Entry>, owners: seq<int>, e: seq<Entry>,
                                       o: seq<int>, k: nat)
    requires LastLinesOf(indent, i, entries, owners) && i < |indent| && k <= |owners| <= |entries|
    requires |e| == |o| == k + 1
    requires e[k].indent == indent[i] && o[k] == i && forall j | 0 <= j < k :: e[j] == entries[j] && o[j] == owners[j]
    requires forall j | 0 <= j < k :: AtLeast(indent, o[j], i + 1, e[j + 1].indent)
    ensures LastLinesOf(indent, i + 1, e, o)
  {
    hide AtLeast;
    forall j | 0 <= j < |o| ensures 0 <= o[j] < i + 1 && indent[o[j]] == e[j].indent {
      if j < k { assert o[j] == owners[j] && e[j] == entries[j]; }
    }
    assert o[|o| - 1] == i;
  }

  lemma {:induction false} IncreasingTo(indent: seq<nat>, i: nat, entries: seq<Entry>, m: nat)
    requires Popped(indent, i, entries, m) && Increasing(entries)
    ensures forall j | 0 <= j < Target(indent, i, entries, m) :: entries[j].indent < indent[i]
  {
  }

  /** No line after `owners[j]`, the new one included, has a smaller indent than the entry that follows. */
  lemma {:induction false} AtLeastOn(indent: seq<nat>, i: nat, entries: seq<Entry>, owners: seq<int>, m: nat, j: nat)
    requires Summary(indent, i, entries, owners) && Popped(indent, i, entries, m)
    requires j < Target(indent, i, entries, m) <= |owners|
    ensures AtLeast(indent, owners[j], i + 1,
                    if j + 1 < Target(indent, i, entries, m) then entries[j + 1].indent else indent[i])
  {
    hide AtLeast, Increasing, LastLinesOf;
    var k := Target(indent, i, entries, m);
    var v := if j + 1 < k then entries[j + 1].indent else indent[i];
    IncreasingTo(indent, i, entries, m);
    OwnersFit(indent, i, entries, owners);
    if j + 1 < |entries| {
      AtLeastMore(indent, owners[j], i, entries[j + 1].indent, v);
    } else {
      AtLeastNew(indent, i, v);
    }
  }

  lemma OwnersFit(indent: seq<nat>, i: nat, entries: seq<Entry>, owners: seq<int>)
    requires LastLinesOf(indent, i, entries, owners)
    ensures i <= |indent| && |owners| <= |entries| && (owners != [] ==> owners[|owners| - 1] == i - 1)
    ensures owners != [] ==> |owners| == |entries|
    ensures forall j | 0 <= j < |owners| - 1 :: AtLeast(indent, owners[j], i, entries[j + 1].indent)
  {
    hide AtLeast;
  }

  lemma AtLeastMore(indent: seq<nat>, from: int, i: nat, v: nat, v': nat)
    requires AtLeast(indent, from, i, v) && v' <= v && i < |indent| && indent[i] >= v'
    ensures AtLeast(indent, from, i + 1, v')
  {
  }

  lemma AtLeastNew(indent: seq<nat>, i: nat, v: nat)
    requires i < |indent| && indent[i] >= v
    ensures AtLeast(indent, i - 1, i + 1, v)
  {
  }

  /** The entries point to the lists of the rightmost spine, from the top. */
  ghost predicate OnSpine(kids: seq<Tree>, entries: seq<Entry>, owners: seq<int>) {
    && SpineDepth(kids) == |owners|
    && (forall j | 0 <= j < |owners| :: SpineIndex(kids, j + 1, -1, 0) == owners[j])
    && (forall j | 0 <= j < |entries| :: j <= |owners| && entries[j].list == SpinePath(kids, j))
  }

  lemma {:induction false} OnSpineOn(kids: seq<Tree>, entries: seq<Entry>, owners: seq<int>, m: nat, k: nat, x: Tree,
                                     ind: nat)
    requires OnSpine(kids, entries, owners) && m - 1 <= k <= m <= |entries| && 0 < m && k <= |owners| && x.kids == []
    ensures SpineIndex(kids, k, -1, 0) == if k == 0 then -1 else owners[k - 1]
    ensures SpineDepth(kids) == |owners|
    ensures OnSpine(AppendAt(kids, k, x), Extended(entries[..m], ind, k, SpinePath(kids, k)),
                    owners[..k] + [Nodes(kids)])
  {
    AppendSpine(kids, k, x, -1, 0);
    assert k > 0 ==> SpineIndex(kids, k - 1 + 1, -1, 0) == owners[k - 1];
    var r, o := AppendAt(kids, k, x), owners[..k] + [Nodes(kids)];
    hide AppendAt, SpinePath, SpineIndex, SpineDepth, Nodes;
    forall j | 0 <= j < |o| ensures SpineIndex(r, j + 1, -1, 0) == o[j] {
      if j < k { assert SpineIndex(kids, j + 1, -1, 0) == owners[j]; }
    }
  }

  /** Drop the entries with a larger indent. */
  method Pop(entries: seq<Entry>, ind: nat) returns (left: seq<Entry>)
    requires Increasing(entries)
    ensures 0 < |left| <= |entries| && left == entries[..|left|]
    ensures left[|left| - 1].indent <= ind && (|left| < |entries| ==> ind < entries[|left|].indent)
  {
    left := entries;
    while ind < left[|left| - 1].indent
      invariant 0 < |left| <= |entries| && left == entries[..|left|]
      invariant |left| < |entries| ==> ind < entries[|left|].indent
      decreases |left|
    {
      left := left[..|left| - 1];
    }
  }

  /** The forest stands for the first `i` lines. */
  ghost predicate Built(indent: seq<nat>, nodes: seq<Tree>, i: nat, kids: seq<Tree>) {
    && i <= |nodes| == |indent| && Preorder(kids) == nodes[..i] && Nodes(kids) == i && |Parents(kids, -1, 0)| == i
    && forall t | 0 <= t < i :: Nearest(indent, t, Parents(kids, -1, 0)[t])
  }

  lemma GrownNodes(kids: seq<Tree>, r: seq<Tree>, k: nat, self: int, base: int)
    requires k <= SpineDepth(kids) && SpineGrown(kids, r, k, self, base)
    ensures Nodes(r) == Nodes(kids) + 1
  {
  }

  lemma {:induction false} BuiltOn(indent: seq<nat>, nodes: seq<Tree>, i: nat, kids: seq<Tree>, k: nat)
    requires Built(indent, nodes, i, kids) && i < |nodes| && k <= SpineDepth(kids) && nodes[i].kids == []
    requires Nearest(indent, i, SpineIndex(kids, k, -1, 0))
    ensures Built(indent, nodes, i + 1, AppendAt(kids, k, nodes[i])) && Nodes(kids) == i
  {
    hide Preorder, Parents, Nodes, AppendAt, SpineIndex, SpinePath, SpineDepth, Nearest, SpineGrown;
    AppendLine(kids, k, nodes[i], -1, 0);
    AppendSpine(kids, k, nodes[i], -1, 0);
    GrownNodes(kids, AppendAt(kids, k, nodes[i]), k, -1, 0);
    assert nodes[..i + 1] == nodes[..i] + [nodes[i]];
  }

  /** Append one line below the last entry: to the list the entry points to, or to the children of the
      last node there, which then gets an entry of its own. */
  method AppendNext(f: Forest, entries: seq<Entry>, ind: nat, x: Tree, ghost all: seq<Entry>, ghost owners: seq<int>,
                    ghost k: nat)
    returns (next: seq<Entry>)
    requires f.Valid() && x.kids == [] && 0 < |entries| <= |all| && entries == all[..|entries|]
    requires OnSpine(f.kids, all, owners)
    requires forall j | 0 <= j < |entries| :: entries[j].list in f.live
    requires k == if ind == all[|entries| - 1].indent then |entries| - 1 else |entries|
    requires k <= |owners|
    modifies f
    ensures f.Valid()
    ensures k <= SpineDepth(old(f.kids)) && f.kids == AppendAt(old(f.kids), k, x)
    ensures next == Extended(entries, ind, k, SpinePath(old(f.kids), k))
    ensures forall j | 0 <= j < |next| :: next[j].list in f.live
  {
    ghost var was, m := f.kids, |entries|;
    var back := entries[|entries| - 1];
    assert back == all[m - 1];
    SpineList(was, m - 1);
    SpineList(was, k);
    forall j | 0 <= j < m ensures |entries[j].list| == j {
      assert entries[j] == all[j];
      SpineList(was, j);
    }
    PushedOnSpine(was, k, x);
    hide AppendAt, SpinePath, SpineIndex, SpineDepth, Pushed, ValidPointer;
    if ind == back.indent {
      f.PushBack(back.list, x);
      next := entries;
    } else {
      var q := f.ChildrenOfLast(back.list);
      f.PushBack(q, x);
      next := entries + [Entry(ind, q)];
    }
  }

  /** One line: what holds before still holds after it was appended to its list. */
  lemma {:induction false} LineStep(indent: seq<nat>, nodes: seq<Tree>, i: nat, kids: seq<Tree>, entries: seq<Entry>,
                                    owners: seq<int>, m: nat)
    requires Summary(indent, i, entries, owners) && i < |indent| && 0 < m <= |entries| && (i == 0 ==> indent[0] == 0)
    requires entries[m - 1].indent <= indent[i] && (m < |entries| ==> indent[i] < entries[m].indent)
    requires OnSpine(kids, entries, owners) && Built(indent, nodes, i, kids) && i < |nodes| && nodes[i].kids == []
    ensures var k := Target(indent, i, entries, m);
      && k == (if indent[i] == entries[m - 1].indent then m - 1 else m)
      && k <= |owners| == SpineDepth(kids)
      && var r, e, o := AppendAt(kids, k, nodes[i]), Extended(entries[..m], indent[i], k, SpinePath(kids, k)),
           owners[..k] + [i];
         Summary(indent, i + 1, e, o) && OnSpine(r, e, o) && Built(indent, nodes, i + 1, r)
  {
    var k := Target(indent, i, entries, m);
    assert Popped(indent, i, entries, m);
    assert Nodes(kids) == i;
    hide Summary, Popped, Extended, OnSpine, Nearest, Built, Nodes, SpineDepth, SpineIndex, SpinePath, AppendAt;
    OwnerIsNearest(indent, i, entries, owners, m);
    OnSpineOn(kids, entries, owners, m, k, nodes[i], indent[i]);
    SummaryOn(indent, i, entries, owners, m, SpinePath(kids, k));
    BuiltOn(indent, nodes, i, kids, k);
  }

  /** What the last entry left points to: a list of the forest, and one with a last element when the next line
      is indented further. */
  lemma {:induction false} BackThere(indent: seq<nat>, i: nat, kids: seq<Tree>, entries: seq<Entry>, owners: seq<int>,
                                     m: nat)
    requires Summary(indent, i, entries, owners) && OnSpine(kids, entries, owners)
    requires i < |indent| && 0 < m <= |entries| && entries[m - 1].indent <= indent[i]
    requires m < |entries| ==> indent[i] < entries[m].indent
    ensures ValidPointer(kids, entries[m - 1].list)
    ensures entries[m - 1].indent < indent[i] && ListAt(kids, entries[m - 1].list) == [] ==> i == 0 && indent[0] > 0
    ensures i == 0 && indent[0] > 0 ==> entries[m - 1].indent < indent[i] && ListAt(kids, entries[m - 1].list) == []
  {
    hide SpinePath, SpineDepth, SpineIndex, ValidPointer, ListAt;
    SpineList(kids, m - 1);
  }

  /** The second half of `generateFromString`, for every sequence of indented lines. When the first line is
      indented, and only then, the code takes the last element of an empty list, which is undefined (`None`).
      Otherwise it builds the forest the lines stand for, and never uses a dangling pointer. */
  method GenerateHierarchy(indent: seq<nat>, nodes: seq<Tree>) returns (r: Option<Tree>)
    requires |indent| == |nodes| && (forall i | 0 <= i < |nodes| :: nodes[i].kids == [])
    ensures r.None? <==> indent != [] && indent[0] > 0
    ensures r.Some? ==>
      r.value.n == 0 && r.value.frame == EmptyFrame() && IsForestOf(indent, nodes, r.value.kids)
  {
    hide *;
    var f := new Forest();
    var entries := [Entry(0, [])];
    ghost var owners: seq<int> := [];
    FirstLine(indent, nodes);
    for i := 0 to |nodes|
      invariant fresh(f) && f.Valid() && Summary(indent, i, entries, owners) && OnSpine(f.kids, entries, owners)
      invariant forall j | 0 <= j < |entries| :: entries[j].list in f.live
      invariant Built(indent, nodes, i, f.kids) && (i > 0 ==> indent[0] == 0)
    {
      ghost var all := entries;
      SummaryIncreasing(indent, i, entries, owners);
      entries := Pop(entries, indent[i]);
      BackThere(indent, i, f.kids, all, owners, |entries|);
      var back := entries[|entries| - 1];
      if indent[i] != back.indent && ListAt(f.kids, back.list) == [] { return None; }
      ghost var k := Target(indent, i, all, |entries|);
      LineStep(indent, nodes, i, f.kids, all, owners, |entries|);
      entries := AppendNext(f, entries, indent[i], nodes[i], all, owners, k);
      owners := owners[..k] + [i];
    }
    LastLine(indent, nodes, f.kids);
    r := Some(Node(0, EmptyFrame(), f.kids));
  }

  lemma FirstLine(indent: seq<nat>, nodes: seq<Tree>)
    requires |indent| == |nodes|
    ensures Summary(indent, 0, [Entry(0, [])], []) && OnSpine([], [Entry(0, [])], []) && Built(indent, nodes, 0, [])
  {
  }

  lemma LastLine(indent: seq<nat>, nodes: seq<Tree>, kids: seq<Tree>)
    requires Built(indent, nodes, |nodes|, kids)
    ensures IsForestOf(indent, nodes, kids)
  {
    assert nodes[..|nodes|] == nodes;
  }

  lemma SummaryIncreasing(indent: seq<nat>, i: nat, entries: seq<Entry>, owners: seq<int>)
    requires Summary(indent, i, entries, owners)
    ensures Increasing(entries)
  {
  }
}
