/** Operations that join the parts: shipping a tree, merging replies, and printing followed by parsing. */
module EndToEnd {
  import opened Frames
  import opened Trees
  import opened Trie
  import opened TrieCounts
  import opened Wire
  import opened Cleaning
  import opened CleaningShape
  import opened CleaningCounts
  import opened Printer
  import opened Parser
  import opened RoundTrip
  import opened MultiStack

  /** What a monitor sends for the traces of its threads. */
  method PackReply(resolve: nat -> Frame, trace: seq<seq<nat>>) returns (data: array<char>)
    requires Encodable(Build(Resolved(resolve, trace)))
    ensures fresh(data) && data[..] == Encode(Build(Resolved(resolve, trace)))
  {
    hide Encode, Encodable, Build, Resolved, Nodes;
    var m := GenerateMultiStack(resolve, trace);
    var bytes := m.Size();
    EncodeLength(m.Value());
    data := new char[bytes];
    var end := m.Pack(data, 0);
    assert data[..] == data[0..end];
  }

  /** What a requester does with a reply: unpack it into a new tree and merge that. */
  method MergeReply(acc: MultiStackInfo, data: array<char>, ghost t: Tree)
    requires Encodable(t) && data[..] == Encode(t)
    modifies acc
    ensures acc.Value() == Merge(old(acc.Value()), t)
  {
    hide *;
    var tmp := new MultiStackInfo();
    assert data[0..data.Length] == data[..];
    var end := tmp.Unpack(data, 0, t);
    acc.AddTree(tmp.Value());
  }

  /** The receiving loop, for replies that hold the packed trees of the given groups of stacks, and
      `getGlobalCallStacks` around it. */
  method GetGlobalCallStacks(resolve: nat -> Frame, trace: seq<seq<nat>>, replies: seq<array<char>>,
                             ghost groups: seq<seq<seq<Frame>>>, ghost S: set<Frame>)
    returns (m: MultiStackInfo)
    requires |replies| == |groups|
    requires forall i | 0 <= i < |groups| :: Encodable(Build(groups[i])) && replies[i][..] == Encode(Build(groups[i]))
    ensures m.Value() == Merge(Build(Resolved(resolve, trace)), MergeAll(BuildAll(groups)))
    ensures Coherent(S) && StacksIn(Resolved(resolve, trace), S) && GroupsIn(groups, S) ==>
      m.Value() == Build(Resolved(resolve, trace) + Concat(groups))
  {
    hide Build, Encodable, Encode, Merge, Resolved, StacksIn, Coherent, GroupsIn;
    m := GenerateMultiStack(resolve, trace);
    var remote := new MultiStackInfo();
    ghost var trees := BuildAll(groups);
    assert trees[..0] == [];
    for i := 0 to |replies|
      invariant fresh(remote) && remote != m && m.Value() == Build(Resolved(resolve, trace))
      invariant remote.Value() == MergeAll(trees[..i])
    {
      assert trees[..i + 1][..i] == trees[..i];
      assert trees[i] == Build(groups[i]);
      MergeReply(remote, replies[i], trees[i]);
    }
    assert trees[..|trees|] == trees;
    m.AddTree(remote.Value());
    if Coherent(S) && StacksIn(Resolved(resolve, trace), S) && GroupsIn(groups, S) {
      GlobalIsBuild(Resolved(resolve, trace), trees, groups, S);
    }
  }

  /** `generateFromString( stack.printString( prefix ) )`, for a prefix of bars and blanks. With a prefix it is
      undefined, unless nothing was printed. Without one there is no exception, and when the root has no address
      the printed part of the forest comes back exactly when every frame can be read back. A root with an
      address comes back one level down. */
  method PrintThenParse(m: MultiStackInfo, prefix: string) returns (r: Parsed)
    requires RootOk(m.Value()) && IsGuide(prefix) && |prefix| + 2 * (1 + Height(m.children)) <= PREFIX_SIZE
    ensures r.Undefined? <==> prefix != [] && (m.children != [] || m.stack.address != 0)
    ensures !r.Undefined? ==> r == Read(Node(0, EmptyFrame(), Returned(m.Value(), AddressWidth(m.Value()))))
    ensures prefix == [] && m.stack.address == 0 ==>
      (r == Read(Node(0, EmptyFrame(), PrintedKids(m.children))) <==> AllSeparable(m.children))
  {
    hide TextKids, TextTree, PrintedKids, RereadKids, RereadTree, AllSeparable, StandsFor, AllReadable, AllCounted,
      StartsAtMargin, Lines, PrintLines, JoinLines, AddressWidth, Printable, EmptyFrame, IsGuide;
    ghost var t := m.Value();
    ghost var w := AddressWidth(t);
    TextStands(t, prefix, w, EmptyTree());
    KidsExactly(m.children, w);
    var out := m.PrintString(prefix);
    PrintTextIs(t, prefix, w);
    r := GenerateFromString(out);
    TextStands(t, prefix, w, if r.Read? then r.root else EmptyTree());
  }

  lemma PrintTextIs(t: Tree, prefix: string, w: nat)
    requires Printable(t)
    ensures PrintText(t, prefix, w) == JoinLines(PrintLines(t, prefix, false, w))
  {
  }

  /** Cleaning what was collected: siblings differ, and with nothing to remove the collected tree is left as it
      is. On coherent frames counts still flow and none are created. */
  lemma {:induction false} CleanCollected(keep: Frame -> bool, stacks: seq<seq<Frame>>, S: set<Frame>)
    ensures var c := Clean(keep, Build(stacks).kids);
      && Distinct(c)
      && (NothingToRemove(keep, Build(stacks).kids) ==> c == Build(stacks).kids)
      && (Coherent(S) && StacksIn(stacks, S) ==> Conserving(c) && SumN(c) <= |stacks|)
  {
    hide Clean, BuildKids, Coherent, Within, StacksIn, Distinct, Conserving, NothingToRemove;
    var kids := BuildKids(stacks);
    CleanIsClear(keep, kids);
    if NothingToRemove(keep, kids) {
      BuildDistinct(stacks);
      CleanCanonicalises(keep, kids);
    }
    if Coherent(S) && StacksIn(stacks, S) {
      BuildKeeps(stacks, S);
      BuildFlow(stacks);
      FlowConserves(kids);
      CleanConserves(keep, kids, S);
    }
  }

  lemma {:induction false} FlowConserves(kids: seq<Tree>)
    requires Flow(kids)
    ensures Conserving(kids)
    decreases kids
  {
    forall i | 0 <= i < |kids| ensures Conserving(kids[i].kids) {
      FlowConserves(kids[i].kids);
    }
  }
}
