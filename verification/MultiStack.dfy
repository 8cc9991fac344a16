/** The tree record with its in-place operations (`multi_stack_info`), and `cleanupStackTrace`.

    The children are held by value, as in the vector of the record: to call an operation on a child
    the model loads it into an object and stores the object's value back. */
module MultiStack {
  import opened Frames
  import opened Trees
  import opened Trie
  import opened TrieGroups
  import opened CleaningPaths
  import opened Wire
  import opened Cleaning
  import opened Strings
  import opened Printer

  /** The stack in `st[..len]`, outermost frame first. */
  function Outermost(st: seq<Frame>, len: nat): (p: seq<Frame>)
    requires len <= |st|
    ensures |p| == len && forall j | 0 <= j < len :: p[j] == st[len - 1 - j]
  {
    seq(len, i requires 0 <= i < len => st[len - 1 - i])
  }

  /** Adding a stack, given innermost frame first, makes it a path from the top down. */
  lemma AddedPath(kids: seq<Tree>, st: seq<Frame>, len: nat)
    requires 0 < len <= |st|
    ensures exists q ::
      && IsPath(InsertKids(kids, Outermost(st, len)), q) && |q| == len
      && forall j | 0 <= j < len :: Same(q[j], st[len - 1 - j])
  {
    hide InsertKids, IsPath;
    InsertPath(kids, Outermost(st, len));
  }

  /** Copy `s` into the buffer at `pos`. */
  method Memcpy(buf: array<char>, pos: nat, s: string) returns (end: nat)
    requires pos + |s| <= buf.Length
    modifies buf
    ensures end == pos + |s|
    ensures buf[..pos] == old(buf[..pos]) && buf[pos..end] == s && buf[end..] == old(buf[end..])
  {
    for i := 0 to |s|
      invariant buf[..pos] == old(buf[..pos]) && buf[pos..pos + i] == s[..i]
      invariant buf[pos + i..] == old(buf[pos + i..])
    {
      buf[pos + i] := s[i];
    }
    end := pos + |s|;
  }

  lemma SliceSlice(s: string, a: nat, b: nat, i: nat, j: nat)
    requires a <= b <= |s| && i <= j <= b - a
    ensures s[a..b][i..j] == s[a + i..a + j]
  {
    var l, r := s[a..b][i..j], s[a + i..a + j];
    assert |l| == |r| && forall k | 0 <= k < |l| :: l[k] == s[a..b][i + k] == s[a + i + k] == r[k];
  }

  /** A buffer in which `[pos, from)` was written already, after `[from, end)` was written too. */
  lemma Written(o: string, a: string, b: string, pos: nat, from: nat, end: nat, first: string, next: string)
    requires pos <= from <= end <= |b| && |o| == |a| == |b|
    requires a[..pos] == o[..pos] && a[pos..from] == first && a[from..] == o[from..]
    requires b[..from] == a[..from] && b[from..end] == next && b[end..] == a[end..]
    ensures b[..pos] == o[..pos] && b[pos..end] == first + next && b[end..] == o[end..]
  {
    assert b[..pos] == b[..from][..pos] && a[..pos] == a[..from][..pos];
    assert b[pos..from] == b[..from][pos..] == a[..from][pos..] == a[pos..from];
    assert b[pos..end] == b[pos..from] + b[from..end];
    assert a[end..] == a[from..][end - from..] && o[end..] == o[from..][end - from..];
  }

  class MultiStackInfo {
    var n: int
    var stack: Frame
    var children: seq<Tree>

    function Value(): Tree
      reads this
    {
      Node(n, stack, children)
    }

    constructor ()
      ensures Value() == EmptyTree()
    {
      n, stack, children := 0, EmptyFrame(), [];
    }

    constructor Of(t: Tree)
      ensures Value() == t
    {
      n, stack, children := t.n, t.frame, t.kids;
    }

    method Clear()
      modifies this
      ensures Value() == EmptyTree()
    {
      n, stack, children := 0, EmptyFrame(), [];
    }

    /** `add( len, stack )`. */
    method AddStack(len: nat, st: seq<Frame>)
      requires len <= |st|
      modifies this
      ensures n == old(n) && stack == old(stack)
      ensures children == InsertKids(old(children), Outermost(st, len))
      decreases len
    {
      if len == 0 { return; }
      ghost var p := Outermost(st, len);
      assert p[1..] == Outermost(st, len - 1);
      var s := st[len - 1];
      for i := 0 to |children|
        invariant n == old(n) && stack == old(stack) && children == old(children)
        invariant forall j | 0 <= j < i :: !Same(children[j].frame, s)
      {
        if Same(children[i].frame, s) {
          MatchIs(children, s, i);
          var c := new MultiStackInfo.Of(children[i]);
          c.n := c.n + 1;
          if len > 1 { c.AddStack(len - 1, st); }
          children := children[i := c.Value()];
          return;
        }
      }
      MatchIs(children, s, |children|);
      var c := new MultiStackInfo.Of(Node(1, s, []));
      if len > 1 { c.AddStack(len - 1, st); }
      children := children + [c.Value()];
    }

    /** `add( rhs )`. */
    method AddTree(rhs: Tree)
      modifies this
      ensures Value() == Merge(old(Value()), rhs)
      decreases rhs, 0
    {
      n := n + rhs.n;
      assert rhs.kids[..0] == [];
      for j := 0 to |rhs.kids|
        invariant n == old(n) + rhs.n && stack == old(stack)
        invariant children == MergeKids(old(children), rhs.kids[..j])
      {
        assert rhs.kids[..j + 1][..j] == rhs.kids[..j];
        MergeChild(rhs.kids[j]);
      }
      assert rhs.kids[..|rhs.kids|] == rhs.kids;
    }

    /** One round of `add( rhs )`: every equal child takes `x` in; without any, `x` is appended. */
    method MergeChild(x: Tree)
      modifies this
      ensures n == old(n) && stack == old(stack) && children == MergeOne(old(children), x)
      decreases x, 1
    {
      hide Merge, MergeKids;
      ghost var before := children;
      var found := false;
      for i := 0 to |children|
        invariant n == old(n) && stack == old(stack) && |children| == |before|
        invariant forall k | 0 <= k < i ::
          children[k] == if Same(before[k].frame, x.frame) then Merge(before[k], x) else before[k]
        invariant forall k | i <= k < |children| :: children[k] == before[k]
        invariant found <==> FirstMatch(before, x.frame) < i
      {
        if Same(children[i].frame, x.frame) {
          found := true;
          var c := new MultiStackInfo.Of(children[i]);
          c.AddTree(x);
          children := children[i := c.Value()];
        }
      }
      if !found { children := children + [x]; }
    }

    /** `size`: the same number of bytes for every node. */
    method Size() returns (bytes: nat)
      ensures bytes == (8 + FRAME_BYTES) * (1 + Nodes(children))
      decreases Value()
    {
      bytes := 2 * 4 + FRAME_BYTES;
      for i := 0 to |children|
        invariant bytes == (8 + FRAME_BYTES) * (1 + Nodes(children[..i]))
      {
        assert children[..i + 1] == children[..i] + [children[i]];
        NodesAppend(children[..i], [children[i]]);
        assert [children[i]][1..] == [];
        var c := new MultiStackInfo.Of(children[i]);
        var b := c.Size();
        bytes := bytes + b;
      }
      assert children[..|children|] == children;
    }

    /** The fixed part of `pack`. */
    method PackHeader(buf: array<char>, pos: nat) returns (end: nat)
      requires Encodable(Value()) && pos + 8 + FRAME_BYTES <= buf.Length
      modifies buf
      ensures end == pos + 8 + FRAME_BYTES
      ensures buf[..pos] == old(buf[..pos]) && buf[pos..end] == Header(Value()) && buf[end..] == old(buf[end..])
    {
      var p1 := Memcpy(buf, pos, IntBytes(n));
      ghost var b1 := buf[..];
      var p2 := Memcpy(buf, p1, FrameBytes(stack));
      ghost var b2 := buf[..];
      Written(old(buf[..]), b1, b2, pos, p1, p2, IntBytes(n), FrameBytes(stack));
      end := Memcpy(buf, p2, IntBytes(|children|));
      Written(old(buf[..]), b2, buf[..], pos, p2, end, IntBytes(n) + FrameBytes(stack), IntBytes(|children|));
    }

    /** `pack`: exactly the encoding is written at `pos`, and nothing outside it. */
    method Pack(buf: array<char>, pos: nat) returns (end: nat)
      requires Encodable(Value()) && pos + |Encode(Value())| <= buf.Length
      modifies buf
      ensures end == pos + |Encode(Value())|
      ensures buf[..pos] == old(buf[..pos]) && buf[pos..end] == Encode(Value()) && buf[end..] == old(buf[end..])
      decreases Value(), 1
    {
      var mid := PackHeader(buf, pos);
      ghost var b := buf[..];
      end := PackKids(children, buf, mid);
      Written(old(buf[..]), b, buf[..], pos, mid, end, Header(Value()), EncodeAll(children));
    }

    /** The loop of `pack`. */
    static method PackKids(kids: seq<Tree>, buf: array<char>, pos: nat) returns (end: nat)
      requires AllEncodable(kids) && pos + |EncodeAll(kids)| <= buf.Length
      modifies buf
      ensures end == pos + |EncodeAll(kids)|
      ensures buf[..pos] == old(buf[..pos]) && buf[pos..end] == EncodeAll(kids) && buf[end..] == old(buf[end..])
      decreases kids, 0
    {
      hide Encodable, Encode, EncodeAll;
      ghost var o := buf[..];
      EncodeAllEmpty();
      assert kids[..0] == [];
      end := pos;
      for i := 0 to |kids|
        invariant end == pos + |EncodeAll(kids[..i])| <= buf.Length
        invariant buf[..][..pos] == o[..pos] && buf[..][pos..end] == EncodeAll(kids[..i]) && buf[..][end..] == o[end..]
      {
        EncodeAllNext(kids, i);
        EncodeAllPrefix(kids, i + 1);
        var c := new MultiStackInfo.Of(kids[i]);
        ghost var b, from := buf[..], end;
        end := c.Pack(buf, end);
        Written(o, b, buf[..], pos, from, end, EncodeAll(kids[..i]), Encode(kids[i]));
      }
      assert kids[..|kids|] == kids;
    }

    /** `print2`: every call writes its marks into the one `prefix` buffer, from `np` on. The lines are the
        pure ones for the prefix found there, and nothing below `np` changes. */
    method Print2(np: nat, prefix: array<char>, w: nat, c: bool) returns (lines: seq<string>)
      requires Printable(Value()) && np + 2 * (1 + Height(children)) <= prefix.Length
      modifies prefix
      ensures lines == PrintLines(Value(), old(prefix[..np]), c, w) && prefix[..np] == old(prefix[..np])
      decreases Value(), 1
    {
      hide NodeLine;
      ghost var p0 := prefix[..np];
      var np1 := np;
      lines := [];
      if stack.address != 0 {
        prefix[np] := NUL;
        lines := [NodeLine(prefix[..], Value(), w)];
        LineCut(prefix[..], np, Value(), w);
        prefix[np] := if c then '|' else ' ';
        prefix[np + 1] := ' ';
        np1 := np + 2;
        assert prefix[..np1] == prefix[..np] + Guide(Value(), c);
      } else {
        assert p0 + Guide(Value(), c) == p0;
      }
      var rest := Print2Kids(children, np1, prefix, w, stack.address != 0);
      assert prefix[..np] == prefix[..np1][..np];
      lines := lines + rest;
    }

    /** The loop of `print2`. */
    static method Print2Kids(kids: seq<Tree>, np: nat, prefix: array<char>, w: nat,
                             shown: bool) returns (lines: seq<string>)
      requires AllPrintable(kids) && np + 2 * Height(kids) <= prefix.Length
      modifies prefix
      ensures lines == KidsLines(kids, |kids|, old(prefix[..np]), shown, w) && prefix[..np] == old(prefix[..np])
      decreases kids, 0
    {
      hide PrintLines;
      lines := [];
      for i := 0 to |kids|
        invariant prefix[..np] == old(prefix[..np]) && lines == KidsLines(kids, i, old(prefix[..np]), shown, w)
      {
        HeightElement(kids, i);
        assert Printable(kids[i]);
        var child := new MultiStackInfo.Of(kids[i]);
        var block := child.Print2(np, prefix, w, |kids| > 1 && i < |kids| - 1 && shown);
        lines := lines + block;
      }
    }

    /** `printString`. */
    method PrintString(prefix: string) returns (out: string)
      requires Printable(Value()) && |prefix| + 2 * (1 + Height(children)) <= PREFIX_SIZE
      ensures out == JoinLines(PrintLines(Value(), prefix, false, AddressWidth(Value())))
    {
      hide *;
      var buffer := new char[PREFIX_SIZE];
      var np := Memcpy(buffer, 0, prefix);
      assert buffer[..np] == buffer[0..np];
      var lines := Print2(np, buffer, AddressWidth(Value()), false);
      out := Join(lines);
    }

    /** The fixed part of `unpack`. */
    method UnpackHeader(buf: array<char>, pos: nat, ghost t: Tree) returns (nc: int)
      requires Encodable(t) && pos + 8 + FRAME_BYTES <= buf.Length && buf[pos..pos + 8 + FRAME_BYTES] == Header(t)
      modifies this
      ensures n == t.n && stack == t.frame && children == old(children) && nc == |t.kids|
    {
      ghost var h := buf[pos..pos + 520];
      HeaderReads(t, h);
      hide ReadInt, ReadFrame, Header, Encodable;
      SliceSlice(buf[..], pos, pos + 520, 0, 4);
      SliceSlice(buf[..], pos, pos + 520, 4, 516);
      SliceSlice(buf[..], pos, pos + 520, 516, 520);
      n := ReadInt(buf[pos..pos + 4]);
      stack := ReadFrame(buf[pos + 4..pos + 516]);
      nc := ReadInt(buf[pos + 516..pos + 520]);
    }

    /** `unpack`, from a buffer holding the encoding of some tree at `pos`: that tree is rebuilt
        whatever this object held before. */
    method Unpack(buf: array<char>, pos: nat, ghost t: Tree) returns (end: nat)
      requires Encodable(t) && pos + |Encode(t)| <= buf.Length && buf[pos..pos + |Encode(t)|] == Encode(t)
      modifies this
      ensures Value() == t && end == pos + |Encode(t)|
      decreases t, 1
    {
      assert buf[pos..pos + 520] == Encode(t)[..520] == Header(t);
      var nc := UnpackHeader(buf, pos, t);
      // children.resize( nc )
      children := if |children| >= nc then children[..nc]
                  else children + seq(nc - |children|, _ => EmptyTree());
      ghost var e := pos + |Encode(t)|;
      assert buf[pos + 520..e] == Encode(t)[520..] == EncodeAll(t.kids);
      end := UnpackKids(buf, pos + 520, t.kids);
    }

    /** The loop of `unpack`, over the children after resizing. */
    method UnpackKids(buf: array<char>, pos: nat, ghost kids: seq<Tree>) returns (end: nat)
      requires AllEncodable(kids) && |children| == |kids|
      requires pos + |EncodeAll(kids)| <= buf.Length && buf[pos..pos + |EncodeAll(kids)|] == EncodeAll(kids)
      modifies this
      ensures n == old(n) && stack == old(stack) && children == kids && end == pos + |EncodeAll(kids)|
      decreases kids, 0
    {
      hide Encodable, Encode, EncodeAll;
      EncodeAllEmpty();
      assert kids[..0] == [];
      ghost var e := EncodeAll(kids);
      end := pos;
      for i := 0 to |children|
        invariant n == old(n) && stack == old(stack) && |children| == |kids|
        invariant end == pos + |EncodeAll(kids[..i])|
        invariant children[..i] == kids[..i]
      {
        var c := new MultiStackInfo.Of(children[i]);
        EncodeAllNext(kids, i);
        EncodeAllPrefix(kids, i + 1);
        ghost var o, l := end - pos, |Encode(kids[i])|;
        assert e[o..o + l] == e[..o + l][o..] == Encode(kids[i]);
        SliceSlice(buf[..], pos, pos + |e|, o, o + l);
        assert buf[pos..pos + |e|] == buf[..][pos..pos + |e|] && buf[end..end + l] == buf[..][end..end + l];
        end := c.Unpack(buf, end, kids[i]);
        children := children[i := c.Value()];
      }
      assert kids[..|kids|] == kids && children[..|kids|] == children;
    }
  }

  /** `%s` of the buffer stops at the NUL just written. */
  lemma LineCut(buffer: string, np: nat, t: Tree, w: nat)
    requires np < |buffer| && buffer[np] == NUL && t.frame.file != []
    ensures NodeLine(buffer, t, w) == NodeLine(buffer[..np], t, w)
  {
    CStrCut(buffer, np);
    hide CStr, FrameText;
  }

  lemma {:induction false} CStrCut(s: string, n: nat)
    requires n < |s| && s[n] == NUL
    ensures CStr(s) == CStr(s[..n])
    decreases s
  {
    if n > 0 && s[0] != NUL {
      assert s[..n][1..] == s[1..][..n - 1];
      CStrCut(s[1..], n - 1);
    }
  }

  /** Appends a line break to every line. */
  method Join(lines: seq<string>) returns (out: string)
    ensures out == JoinLines(lines)
  {
    out := [];
    for i := 0 to |lines|
      invariant out == JoinLines(lines[..i])
    {
      assert lines[..i + 1][..i] == lines[..i];
      out := out + lines[i] + "\n";
    }
    assert lines[..|lines|] == lines;
  }

  /** `generateStacks`: every address is resolved, through a table of the distinct addresses. */
  method GenerateStacks(resolve: nat -> Frame, trace: seq<seq<nat>>) returns (stacks: seq<seq<Frame>>)
    ensures |stacks| == |trace|
    ensures forall i | 0 <= i < |trace| ::
      |stacks[i]| == |trace[i]| && forall j | 0 <= j < |trace[i]| :: stacks[i][j] == resolve(trace[i][j])
  {
    var addresses: seq<nat> := [];
    for i := 0 to |trace|
      invariant forall a, j | 0 <= a < i && 0 <= j < |trace[a]| :: trace[a][j] in addresses
    {
      for j := 0 to |trace[i]|
        invariant forall a, b | 0 <= a < i && 0 <= b < |trace[a]| :: trace[a][b] in addresses
        invariant forall b | 0 <= b < j :: trace[i][b] in addresses
      {
        var k := FindAddress(addresses, trace[i][j]);
        if k == -1 { addresses := addresses + [trace[i][j]]; }
        assert trace[i][j] in addresses;
      }
    }
    var data := seq(|addresses|, k requires 0 <= k < |addresses| => resolve(addresses[k]));
    stacks := [];
    for i := 0 to |trace|
      invariant |stacks| == i
      invariant forall a | 0 <= a < i ::
        |stacks[a]| == |trace[a]| && forall j | 0 <= j < |trace[a]| :: stacks[a][j] == resolve(trace[a][j])
    {
      var st: seq<Frame> := [];
      for j := 0 to |trace[i]|
        invariant |st| == j && forall b | 0 <= b < j :: st[b] == resolve(trace[i][b])
      {
        var k := FindAddress(addresses, trace[i][j]);
        st := st + [data[k]];
      }
      stacks := stacks + [st];
    }
  }

  method FindAddress(data: seq<nat>, x: nat) returns (k: int)
    ensures k == -1 <==> x !in data
    ensures k != -1 ==> 0 <= k < |data| && data[k] == x
  {
    for i := 0 to |data|
      invariant x !in data[..i]
    {
      if data[i] == x { return i; }
    }
    assert data == data[..|data|];
    return -1;
  }

  /** The stacks of the traces, outermost frame first. */
  function Resolved(resolve: nat -> Frame, trace: seq<seq<nat>>): (r: seq<seq<Frame>>)
    ensures |r| == |trace|
    ensures forall i | 0 <= i < |trace| ::
      |r[i]| == |trace[i]| && forall j | 0 <= j < |r[i]| :: r[i][j] == resolve(trace[i][|trace[i]| - 1 - j])
  {
    seq(|trace|, i requires 0 <= i < |trace| =>
      seq(|trace[i]|, j requires 0 <= j < |trace[i]| => resolve(trace[i][|trace[i]| - 1 - j])))
  }

  /** `generateMultiStack`. Every trace, which has its outermost address last, is a path of the tree from the
      top down. */
  method GenerateMultiStack(resolve: nat -> Frame, trace: seq<seq<nat>>) returns (m: MultiStackInfo)
    ensures fresh(m) && m.Value() == Build(Resolved(resolve, trace))
    ensures forall i | 0 <= i < |trace| && trace[i] != [] ::
      exists q ::
        && IsPath(m.children, q) && |q| == |trace[i]|
        && forall j | 0 <= j < |q| :: Same(q[j], resolve(trace[i][|trace[i]| - 1 - j]))
  {
    hide IsPath, Same;
    var st := GenerateStacks(resolve, trace);
    ghost var r := Resolved(resolve, trace);
    m := new MultiStackInfo();
    m.n := |st|;
    for i := 0 to |st|
      invariant m.n == |st| && m.stack == EmptyFrame() && m.children == BuildKids(r[..i])
    {
      assert Outermost(st[i], |st[i]|) == r[i];
      assert r[..i + 1][..i] == r[..i];
      m.AddStack(|st[i]|, st[i]);
    }
    assert r[..|r|] == r;
    ResolvedPaths(resolve, trace);
  }

  lemma {:induction false} ResolvedPaths(resolve: nat -> Frame, trace: seq<seq<nat>>)
    ensures forall i | 0 <= i < |trace| && trace[i] != [] ::
      exists q ::
        && IsPath(BuildKids(Resolved(resolve, trace)), q) && |q| == |trace[i]|
        && forall j | 0 <= j < |q| :: Same(q[j], resolve(trace[i][|trace[i]| - 1 - j]))
  {
    hide BuildKids, IsPath, Same;
    var r := Resolved(resolve, trace);
    forall i | 0 <= i < |trace| && trace[i] != []
      ensures exists q ::
        && IsPath(BuildKids(r), q) && |q| == |trace[i]|
        && forall j | 0 <= j < |q| :: Same(q[j], resolve(trace[i][|trace[i]| - 1 - j]))
    {
      BuildPath(r, i);
      var q :| IsPath(BuildKids(r), q) && Stands(q, r[i]);
      assert forall j | 0 <= j < |q| :: Same(q[j], r[i][j]);
    }
  }

  /** On coherent frames a node below the root counts the traces whose last entry resolves to an equal frame,
      and the nodes stand in the order in which such traces first come. */
  lemma {:induction false} TraceCounts(resolve: nat -> Frame, trace: seq<seq<nat>>, S: set<Frame>)
    requires Coherent(S) && forall i, j | 0 <= i < |trace| && 0 <= j < |trace[i]| :: resolve(trace[i][j]) in S
    ensures var kids := Build(Resolved(resolve, trace)).kids;
      && (forall c | 0 <= c < |kids| :: kids[c].n ==
            |set i: nat | i < |trace| && trace[i] != []
                          && Same(resolve(trace[i][|trace[i]| - 1]), kids[c].frame)|)
      && Firsts(Resolved(resolve, trace)) == seq(|kids|, c requires 0 <= c < |kids| => kids[c].frame)
  {
    var r := Resolved(resolve, trace);
    var kids := BuildKids(r);
    BuildIsGrouped(r, S);
    hide BuildKids, Firsts, Tails;
    forall c | 0 <= c < |kids|
      ensures kids[c].n == |set i: nat | i < |trace| && trace[i] != []
                              && Same(resolve(trace[i][|trace[i]| - 1]), kids[c].frame)|
      ensures kids[c].frame == Firsts(r)[c]
    {
      var f := kids[c].frame;
      assert kids[c] == Group(r, Firsts(r)[c]);
      TailsNumber(r, f);
      assert Starting(r, f) ==
        set i: nat | i < |trace| && trace[i] != [] && Same(resolve(trace[i][|trace[i]| - 1]), f);
    }
  }

  /** `cleanupStackTrace`. The list is split at the iterator only in the invariant; the code erases,
      overwrites and merges in one list of children. */
  method CleanupStackTrace(stack: MultiStackInfo, keep: Frame -> bool)
    modifies stack
    ensures stack.n == old(stack.n) && stack.stack == old(stack.stack)
    ensures stack.children == Clean(keep, old(stack.children))
    decreases Height(stack.children)
  {
    var it := 0;
    ghost var all := stack.children;
    HeightSplit(all, 0);
    while it < |stack.children|
      invariant stack.n == old(stack.n) && stack.stack == old(stack.stack)
      invariant 0 <= it <= |stack.children|
      invariant CleanLoop(keep, stack.children[..it], stack.children[it..]) == Clean(keep, all)
      invariant Height(stack.children[..it]) <= Height(all) && Height(stack.children[it..]) <= Height(all)
      decreases Nodes(stack.children[it..])
    {
      hide CleanLoop, Absorb, Height, Nodes, Judge, Trim, Next;
      ghost var rest := stack.children[it..];
      NextStep(keep, stack.children[..it], rest);
      Shrinks(rest);
      var moved := EraseOrSplice(stack, keep, it);
      if moved { continue; }
      HeightSplit(stack.children, it);
      assert stack.children[it + 1..] == stack.children[it..][1..];
      it := CleanAndMerge(stack, keep, it);
    }
    assert stack.children[..it] == stack.children && stack.children[it..] == [];
  }

  /** The children from the iterator on, after erasing, splicing or trimming the first of them. */
  ghost function Next(keep: Frame -> bool, rest: seq<Tree>): seq<Tree>
    requires rest != []
  {
    match Judge(keep, rest[0])
    case Erase => rest[1..]
    case Splice => [Trim(rest[0]).kids[0]] + rest[1..]
    case Retain => [Trim(rest[0])] + rest[1..]
  }

  lemma {:induction false} NextStep(keep: Frame -> bool, done: seq<Tree>, rest: seq<Tree>)
    requires rest != []
    ensures Height(Next(keep, rest)) <= Height(rest)
    ensures !Judge(keep, rest[0]).Retain? ==>
      CleanLoop(keep, done, Next(keep, rest)) == CleanLoop(keep, done, rest) && Nodes(Next(keep, rest)) < Nodes(rest)
    ensures Judge(keep, rest[0]).Retain? ==>
      && Next(keep, rest) != [] && Next(keep, rest)[1..] == rest[1..]
      && var x := Next(keep, rest)[0];
         CleanLoop(keep, done, rest)
         == CleanLoop(keep, Absorb(keep, done, Node(x.n, x.frame, CleanLoop(keep, [], x.kids))), rest[1..])
  {
    hide CleanLoop, Absorb, Height, Nodes;
    Step(keep, done, rest);
    Shrinks(rest);
    RetainedHeight(rest);
  }

  /** The first half of the loop: erase child `it` and move on, replace it by its only child and look
      again, or go on with it. */
  method EraseOrSplice(stack: MultiStackInfo, keep: Frame -> bool, it: nat) returns (moved: bool)
    requires it < |stack.children|
    modifies stack
    ensures stack.n == old(stack.n) && stack.stack == old(stack.stack)
    ensures it <= |stack.children| && stack.children[..it] == old(stack.children[..it])
    ensures moved <==> !Judge(keep, old(stack.children[it])).Retain?
    ensures stack.children[it..] == Next(keep, old(stack.children[it..]))
  {
    hide Contributor, LibcFgets;
    var x := stack.children[it];
    if Contributor(x.frame) {
      stack.children := stack.children[..it] + stack.children[it + 1..];
      return true;
    }
    if LibcFgets(x.frame) {
      x := Node(x.n, x.frame, []);
      stack.children := stack.children[it := x];
    }
    if !keep(x.frame) {
      if x.kids == [] {
        stack.children := stack.children[..it] + stack.children[it + 1..];
        return true;
      } else if |x.kids| == 1 {
        stack.children := stack.children[it := x.kids[0]];
        return true;
      }
    }
    return false;
  }

  /** The recursive call on child `it`. */
  method CleanChild(stack: MultiStackInfo, keep: Frame -> bool, it: nat)
    requires it < |stack.children|
    modifies stack
    ensures stack.n == old(stack.n) && stack.stack == old(stack.stack)
    ensures var x := old(stack.children[it]);
      stack.children == old(stack.children)[it := Node(x.n, x.frame, CleanLoop(keep, [], x.kids))]
    decreases Height(stack.children), 0, 0
  {
    hide CleanLoop;
    HeightElement(stack.children, it);
    var c := new MultiStackInfo.Of(stack.children[it]);
    CleanupStackTrace(c, keep);
    stack.children := stack.children[it := c.Value()];
  }

  /** The second half of the loop: clean child `it`, then merge it into the equal ones before it. */
  method CleanAndMerge(stack: MultiStackInfo, keep: Frame -> bool, it: nat) returns (next: nat)
    requires it < |stack.children|
    modifies stack
    ensures stack.n == old(stack.n) && stack.stack == old(stack.stack)
    ensures next <= |stack.children|
    ensures var x := old(stack.children[it]);
      && stack.children[..next]
         == Absorb(keep, old(stack.children[..it]), Node(x.n, x.frame, CleanLoop(keep, [], x.kids)))
      && stack.children[next..] == old(stack.children[it + 1..])
    decreases Height(stack.children), 1
  {
    hide CleanLoop, Clean, Absorb, Height, Nodes;
    ghost var done, tail, h := stack.children[..it], stack.children[it + 1..], Height(stack.children);
    CleanChildHeight(keep, stack.children, it);
    CleanChild(stack, keep, it);
    var y := stack.children[it];
    assert stack.children[..it] == done && stack.children[it..] == [y] + tail;
    var remove := MergeIntoEarlier(stack, keep, it);
    assert stack.children[it..] == [y] + tail;
    if remove {
      stack.children := stack.children[..it] + stack.children[it + 1..];
      next := it;
    } else {
      next := it + 1;
    }
  }

  lemma {:induction false} CleanChildHeight(keep: Frame -> bool, kids: seq<Tree>, i: nat)
    requires i < |kids|
    ensures Height(kids[i := Node(kids[i].n, kids[i].frame, CleanLoop(keep, [], kids[i].kids))]) <= Height(kids)
  {
    var r := kids[i := Node(kids[i].n, kids[i].frame, CleanLoop(keep, [], kids[i].kids))];
    forall j | 0 <= j < |r| ensures 1 + Height(r[j].kids) <= Height(kids) {
      HeightElement(kids, j);
    }
    HeightBound(r, Height(kids));
  }

  lemma {:induction false} HeightSplit(kids: seq<Tree>, i: nat)
    requires i <= |kids|
    ensures Height(kids) == Max(Height(kids[..i]), Height(kids[i..]))
  {
    assert kids == kids[..i] + kids[i..];
    HeightAppend(kids[..i], kids[i..]);
  }

  lemma {:induction false} RetainedHeight(rest: seq<Tree>)
    requires rest != []
    ensures Height([Trim(rest[0])] + rest[1..]) <= Height(rest)
  {
    HeightAppend([Trim(rest[0])], rest[1..]);
    assert [Trim(rest[0])][1..] == [];
  }

  /** An earlier child after `y` was compared with it. */
  function Absorbed(keep: Frame -> bool, d: Tree, y: Tree): Tree {
    if Same(y.frame, d.frame) then Node(d.n + y.n, d.frame, Clean(keep, d.kids + y.kids)) else d
  }

  lemma {:induction false} AbsorbIs(keep: Frame -> bool, done: seq<Tree>, y: Tree, r: seq<Tree>)
    requires |r| == |done| && forall k | 0 <= k < |done| :: r[k] == Absorbed(keep, done[k], y)
    ensures r + (if FirstMatch(done, y.frame) < |done| then [] else [y]) == Absorb(keep, done, y)
  {
    hide CleanLoop, Clean;
    if FirstMatch(done, y.frame) == |done| {
      assert r == done;
    }
  }

  /** The inner loop of `cleanupStackTrace`: merge child `it` into the equal ones before it. */
  method MergeIntoEarlier(stack: MultiStackInfo, keep: Frame -> bool, it: nat) returns (remove: bool)
    requires it < |stack.children|
    modifies stack
    ensures stack.n == old(stack.n) && stack.stack == old(stack.stack)
    ensures |stack.children| == |old(stack.children)| && stack.children[it..] == old(stack.children[it..])
    ensures stack.children[..it] + (if remove then [] else [old(stack.children)[it]])
         == Absorb(keep, old(stack.children[..it]), old(stack.children)[it])
    decreases Height(stack.children), 0
  {
    hide CleanLoop, Clean, Absorb, Height, Nodes;
    ghost var was := stack.children;
    var y := stack.children[it];
    remove := false;
    for i := 0 to it
      invariant stack.n == old(stack.n) && stack.stack == old(stack.stack)
      invariant |stack.children| == |was| && forall k | i <= k < |was| :: stack.children[k] == was[k]
      invariant forall k | 0 <= k < i :: stack.children[k] == Absorbed(keep, was[k], y)
      invariant remove <==> FirstMatch(was[..it], y.frame) < i
    {
      var x := stack.children[i];
      assert was[..it][i] == was[i];
      if Same(y.frame, x.frame) {
        remove := true;
        var c := new MultiStackInfo.Of(Node(x.n + y.n, x.frame, x.kids + y.kids));
        HeightAppend(x.kids, y.kids);
        HeightElement(was, i);
        HeightElement(was, it);
        CleanupStackTrace(c, keep);
        stack.children := stack.children[i := c.Value()];
      }
    }
    AbsorbIs(keep, was[..it], y, stack.children[..it]);
  }
}
