/** The printed form of a tree: what each line holds, as a function of the tree. */
module Printer {
  import opened Frames
  import opened Strings
  import opened Trees
  import opened Text

  const PREFIX_SIZE: nat := 1024
  const LINE_SIZE: nat := 4096

  // The widths are minima with the constant array sizes, so every node gives the same.
  const OBJECT_WIDTH: nat := 20
  const FUNCTION_WIDTH: nat := 40

  /** The part after the last path separator. */
  function StripPath(s: string): string {
    if s == [] then s
    else if s[|s| - 1] == '/' || s[|s| - 1] == '\\' then []
    else StripPath(s[..|s| - 1]) + [s[|s| - 1]]
  }

  /** Digits of the widest address of the tree, rounded up to 4, 8, 12 or 16. */
  function AddressWidth(t: Tree): (w: nat)
    ensures w in {4, 8, 12, 16}
    decreases t, 1
  {
    var a := t.frame.address;
    WidestKid(if a <= 0xFFFF then 4 else if a <= 0xFFFF_FFFF then 8 else if a <= 0xFFFF_FFFF_FFFF then 12 else 16,
              t.kids)
  }

  function WidestKid(w: nat, kids: seq<Tree>): (r: nat)
    requires w in {4, 8, 12, 16}
    ensures r in {4, 8, 12, 16} && r >= w
    decreases kids, 0
  {
    if kids == [] then w
    else
      var k := AddressWidth(kids[0]);
      WidestKid(if k > w then k else w, kids[1..])
  }

  /** File and line, when known. */
  function Place(f: Frame): string
    requires f.file != []
  {
    var file := StripPath(CStr(f.file));
    if f.file[0] != NUL && f.line > 0 then "  " + file + ":" + Digits(f.line, 10)
    else if f.file[0] != NUL then "  " + file
    else if f.line > 0 then " : " + Digits(f.line, 10)
    else ""
  }

  /** `stack_info::print2`. */
  function FrameText(f: Frame, w: nat): string
    requires f.file != []
  {
    "0x" + PadLeft(Digits(f.address, 16), w, '0') + ":  "
    + PadLeft(StripPath(CStr(f.obj)), OBJECT_WIDTH, ' ') + "  " + PadLeft(CStr(f.func), FUNCTION_WIDTH, ' ')
    + Place(f)
  }

  function NodeLine(prefix: string, t: Tree, w: nat): string
    requires t.frame.file != []
  {
    CStr(prefix) + "[" + Decimal(t.n) + "] " + FrameText(t.frame, w)
  }

  /** The array of file-name characters is never empty. */
  predicate Printable(t: Tree)
    decreases t, 1
  {
    t.frame.file != [] && AllPrintable(t.kids)
  }

  predicate AllPrintable(kids: seq<Tree>)
    decreases kids, 0
  {
    forall i | 0 <= i < |kids| :: Printable(kids[i])
  }

  /** Nodes with address 0 get no line. */
  predicate Shown(t: Tree) {
    t.frame.address != 0
  }

  /** What a printed node adds to the prefix of its children. */
  function Guide(t: Tree, c: bool): string {
    if Shown(t) then [if c then '|' else ' ', ' '] else []
  }

  /** `multi_stack_info::print2` without its buffer. */
  function PrintLines(t: Tree, prefix: string, c: bool, w: nat): seq<string>
    requires Printable(t)
    decreases t, 1
  {
    (if Shown(t) then [NodeLine(prefix, t, w)] else []) + KidsLines(t.kids, |t.kids|, prefix + Guide(t, c), Shown(t), w)
  }

  /** The lines of the first `k` children; a child is marked when it has a later sibling and a printed parent. */
  function KidsLines(kids: seq<Tree>, k: nat, prefix: string, shown: bool, w: nat): seq<string>
    requires AllPrintable(kids) && k <= |kids|
    decreases kids, 0, k
  {
    if k == 0 then []
    else KidsLines(kids, k - 1, prefix, shown, w) + PrintLines(kids[k - 1], prefix, k < |kids| && shown, w)
  }

  /** The text `printString` builds from the lines. */
  function JoinLines(lines: seq<string>): string {
    if lines == [] then [] else JoinLines(lines[..|lines| - 1]) + lines[|lines| - 1] + "\n"
  }

  // ---- Each line carries the guides of its ancestors ----

  /** Number of lines of a tree. */
  ghost function LineCount(t: Tree): nat
    decreases t, 1
  {
    (if Shown(t) then 1 else 0) + KidsCount(t.kids, |t.kids|)
  }

  ghost function KidsCount(kids: seq<Tree>, k: nat): nat
    requires k <= |kids|
    decreases kids, 0, k
  {
    if k == 0 then 0 else KidsCount(kids, k - 1) + LineCount(kids[k - 1])
  }

  /** `path` gives the child index at every level. */
  ghost predicate ValidPath(t: Tree, path: seq<nat>)
    decreases path
  {
    path == [] || (path[0] < |t.kids| && ValidPath(t.kids[path[0]], path[1..]))
  }

  ghost function NodeAt(t: Tree, path: seq<nat>): Tree
    requires ValidPath(t, path)
    decreases path
  {
    if path == [] then t else NodeAt(t.kids[path[0]], path[1..])
  }

  /** The marks of all proper ancestors: '|' where the ancestor has a later sibling under a printed
      parent, else a blank, and nothing for an ancestor that is not printed itself. */
  ghost function Guides(t: Tree, c: bool, path: seq<nat>): string
    requires ValidPath(t, path)
    decreases path
  {
    if path == [] then []
    else Guide(t, c) + Guides(t.kids[path[0]], path[0] + 1 < |t.kids| && Shown(t), path[1..])
  }

  /** How many lines come before that of the node. */
  ghost function Position(t: Tree, path: seq<nat>): nat
    requires ValidPath(t, path)
    decreases path
  {
    if path == [] then 0
    else (if Shown(t) then 1 else 0) + KidsCount(t.kids, path[0]) + Position(t.kids[path[0]], path[1..])
  }

  lemma {:induction false} LineCounts(t: Tree, prefix: string, c: bool, w: nat)
    requires Printable(t)
    ensures |PrintLines(t, prefix, c, w)| == LineCount(t)
    decreases t, 1
  {
    hide NodeLine;
    KidsCounts(t.kids, |t.kids|, prefix + Guide(t, c), Shown(t), w);
  }

  lemma {:induction false} KidsCounts(kids: seq<Tree>, k: nat, prefix: string, shown: bool, w: nat)
    requires AllPrintable(kids) && k <= |kids|
    ensures |KidsLines(kids, k, prefix, shown, w)| == KidsCount(kids, k)
    decreases kids, 0, k
  {
    if k > 0 {
      KidsCounts(kids, k - 1, prefix, shown, w);
      LineCounts(kids[k - 1], prefix, k < |kids| && shown, w);
    }
  }

  /** The lines of child `i` form a block of the lines of all children. */
  lemma {:induction false} KidBlock(kids: seq<Tree>, k: nat, i: nat, prefix: string, shown: bool, w: nat, j: nat)
    requires AllPrintable(kids) && i < k <= |kids| && j < LineCount(kids[i])
    ensures KidsCount(kids, i) + j < |KidsLines(kids, k, prefix, shown, w)|
    ensures |PrintLines(kids[i], prefix, i + 1 < |kids| && shown, w)| == LineCount(kids[i])
    ensures KidsLines(kids, k, prefix, shown, w)[KidsCount(kids, i) + j]
      == PrintLines(kids[i], prefix, i + 1 < |kids| && shown, w)[j]
    decreases k
  {
    hide PrintLines, LineCount;
    KidsCounts(kids, k - 1, prefix, shown, w);
    LineCounts(kids[i], prefix, i + 1 < |kids| && shown, w);
    if i < k - 1 {
      KidBlock(kids, k - 1, i, prefix, shown, w, j);
    }
  }

  /** And of the lines of the parent. */
  lemma {:induction false} KidInParent(t: Tree, prefix: string, c: bool, w: nat, i: nat, j: nat)
    requires Printable(t) && i < |t.kids| && j < LineCount(t.kids[i])
    ensures Printable(t.kids[i])
    ensures var n := (if Shown(t) then 1 else 0) + KidsCount(t.kids, i) + j;
      var block := PrintLines(t.kids[i], prefix + Guide(t, c), i + 1 < |t.kids| && Shown(t), w);
      && n < |PrintLines(t, prefix, c, w)| && |block| == LineCount(t.kids[i])
      && PrintLines(t, prefix, c, w)[n] == block[j]
  {
    hide NodeLine, KidsLines, LineCount, KidsCount, Guide;
    KidBlock(t.kids, |t.kids|, i, prefix + Guide(t, c), Shown(t), w, j);
  }

  /** The line of every printed node carries exactly the guides of its ancestors. */
  lemma {:induction false} LineOfNode(t: Tree, prefix: string, c: bool, w: nat, path: seq<nat>)
    requires Printable(t) && ValidPath(t, path) && Shown(NodeAt(t, path))
    ensures Printable(NodeAt(t, path))
    ensures Position(t, path) < |PrintLines(t, prefix, c, w)|
    ensures PrintLines(t, prefix, c, w)[Position(t, path)] == NodeLine(prefix + Guides(t, c, path), NodeAt(t, path), w)
    decreases path
  {
    if path == [] {
      hide NodeLine, KidsLines;
      assert prefix + [] == prefix;
    } else {
      hide NodeLine, PrintLines, LineCount, KidsCount, Guide;
      var i, kid := path[0], t.kids[path[0]];
      var c2, q := i + 1 < |t.kids| && Shown(t), prefix + Guide(t, c);
      assert Printable(kid);
      LineOfNode(kid, q, c2, w, path[1..]);
      LineCounts(kid, q, c2, w);
      KidInParent(t, prefix, c, w, i, Position(kid, path[1..]));
      assert q + Guides(kid, c2, path[1..]) == prefix + (Guide(t, c) + Guides(kid, c2, path[1..]));
    }
  }

  // ---- Lines fit their buffer ----

  lemma {:induction false} StripLength(s: string)
    ensures |StripPath(s)| <= |s|
  {
    if s != [] { StripLength(s[..|s| - 1]); }
  }

  lemma PlaceLength(f: Frame)
    requires ValidFrame(f)
    ensures |Place(f)| <= 3 + FILE_SIZE + 10
  {
    DecimalLength(f.line);
    StripLength(CStr(f.file));
    hide Digits, StripPath, CStr;
  }

  lemma PadLength(s: string, w: nat, c: char)
    ensures |PadLeft(s, w, c)| == if |s| < w then w else |s|
  {
  }

  lemma {:induction false} FrameLength(f: Frame, w: nat)
    requires ValidFrame(f) && w <= 16
    ensures |FrameText(f, w)| <= 500
  {
    hide Digits, StripPath, Place, PadLeft, IsBytes;
    var a, o, u := Digits(f.address, 16), StripPath(CStr(f.obj)), CStr(f.func);
    HexLength(f.address);
    PlaceLength(f);
    StripLength(CStr(f.obj));
    PadLength(a, w, '0');
    PadLength(o, OBJECT_WIDTH, ' ');
    PadLength(u, FUNCTION_WIDTH, ' ');
  }

  /** The text of a record and the count in front of it never overrun the buffer of a line. */
  lemma {:induction false} LineFits(prefix: string, t: Tree, w: nat)
    requires ValidFrame(t.frame) && |prefix| <= PREFIX_SIZE && w <= 16 && -0x8000_0000 <= t.n <= 0x7FFF_FFFF
    ensures |NodeLine(prefix, t, w)| < LINE_SIZE
  {
    hide Digits, FrameText, ValidFrame;
    FrameLength(t.frame, w);
    DecimalLength(if t.n < 0 then -t.n else t.n);
  }
}
