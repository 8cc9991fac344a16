/** Printing a tree and parsing the text gives the tree back. */
module RoundTrip {
  import opened Frames
  import opened Strings
  import opened Trees
  import opened Text
  import opened Printer
  import opened Parser
  import opened Hierarchy
  import opened HierarchyLaws
  import opened LineFields
  import opened LineRoundTrip
  import opened Wire

  /** Trees whose every node can be printed and counted. */
  predicate TextTree(t: Tree)
    decreases t, 1
  {
    TextFrame(t.frame) && INT32_MIN <= t.n <= INT32_MAX && TextKids(t.kids)
  }

  predicate TextKids(kids: seq<Tree>)
    decreases kids, 0
  {
    forall i | 0 <= i < |kids| :: TextTree(kids[i])
  }

  /** Every frame of the forest can be read back. */
  predicate AllSeparable(kids: seq<Tree>) {
    forall i | 0 <= i < |kids| :: FrameSeparable(kids[i].frame) && AllSeparable(kids[i].kids)
  }

  /** What survives printing of a whole tree: shape, order and counts, and the printed part of each frame. */
  function PrintedTree(t: Tree): Tree
    requires TextTree(t)
    decreases t, 1
  {
    Node(t.n, PrintedFrame(t.frame), PrintedKids(t.kids))
  }

  function PrintedKids(kids: seq<Tree>): (r: seq<Tree>)
    requires TextKids(kids)
    ensures |r| == |kids|
    decreases kids, 0
  {
    if kids == [] then [] else PrintedKids(kids[..|kids| - 1]) + [PrintedTree(kids[|kids| - 1])]
  }

  /** What a frame is read back as, with the address printed `w` digits wide. */
  function Reread(f: Frame, w: nat): Frame
    requires TextFrame(f) && w <= 16
  {
    FrameReadsExactly(f, w);
    LineFrame(FrameText(f, w))
  }

  function RereadTree(t: Tree, w: nat): Tree
    requires TextTree(t) && w <= 16
    decreases t, 1
  {
    Node(t.n, Reread(t.frame, w), RereadKids(t.kids, w))
  }

  function RereadKids(kids: seq<Tree>, w: nat): (r: seq<Tree>)
    requires TextKids(kids) && w <= 16
    ensures |r| == |kids|
    decreases kids, 0
  {
    if kids == [] then [] else RereadKids(kids[..|kids| - 1], w) + [RereadTree(kids[|kids| - 1], w)]
  }

  lemma RereadIs(f: Frame, w: nat)
    requires TextFrame(f) && w <= 16
    ensures f.file != [] && HasAddress(FrameText(f, w)) && LineFrame(FrameText(f, w)) == Reread(f, w)
    ensures Reread(f, w) == PrintedFrame(f) <==> FrameSeparable(f)
  {
    hide TextFrame, HasAddress, FrameText, LineFrame, PrintedFrame, Separable, CStr;
    FrameReadsExactly(f, w);
  }

  lemma {:induction false} KidsAt(kids: seq<Tree>, i: nat, w: nat)
    requires TextKids(kids) && i < |kids| && w <= 16
    ensures PrintedKids(kids)[i] == PrintedTree(kids[i]) && RereadKids(kids, w)[i] == RereadTree(kids[i], w)
  {
    hide TextFrame, PrintedTree, RereadTree;
    if i < |kids| - 1 {
      KidsAt(kids[..|kids| - 1], i, w);
      assert kids[..|kids| - 1][i] == kids[i];
    }
  }

  /** A forest is read back as its printed part exactly when every frame is. */
  lemma {:induction false} KidsExactly(kids: seq<Tree>, w: nat)
    requires TextKids(kids) && w <= 16
    ensures RereadKids(kids, w) == PrintedKids(kids) <==> AllSeparable(kids)
    decreases kids
  {
    hide TextFrame, Reread, PrintedFrame, FrameSeparable, RereadKids, PrintedKids;
    var r, p := RereadKids(kids, w), PrintedKids(kids);
    forall i | 0 <= i < |kids|
      ensures r[i] == p[i] <==> FrameSeparable(kids[i].frame) && AllSeparable(kids[i].kids)
    {
      var x := kids[i];
      assert TextTree(x);
      KidsAt(kids, i, w);
      RereadIs(x.frame, w);
      KidsExactly(x.kids, w);
      assert RereadTree(x, w) == Node(x.n, Reread(x.frame, w), RereadKids(x.kids, w));
    }
    assert r == p <==> forall i | 0 <= i < |kids| :: r[i] == p[i];
  }

  lemma {:induction false} TextIsPrintable(t: Tree)
    requires TextTree(t)
    ensures Printable(t) && AllPrintable(t.kids) && Shown(t)
    decreases t, 1
  {
    KidsPrintable(t.kids);
  }

  lemma {:induction false} KidsPrintable(kids: seq<Tree>)
    requires TextKids(kids)
    ensures AllPrintable(kids)
    decreases kids, 0
  {
    hide TextFrame;
    forall i | 0 <= i < |kids| ensures Printable(kids[i]) {
      TextIsPrintable(kids[i]);
    }
  }

  // ---- One line ----

  /** Guides are made of bars and blanks. */
  predicate IsGuide(g: string) {
    forall i | 0 <= i < |g| :: g[i] == '|' || g[i] == ' '
  }

  /** A line that reads back as a leaf with the given indent. */
  ghost predicate Reads(str: string, indent: nat, node: Tree) {
    && Good(str) && Count(str).Some? && IndentOf(str) == indent && NodeOf(str) == node && Lacks(str, '\n')
  }

  /** Texts without NUL and line break. */
  predicate PlainText(s: string) {
    NUL !in s && Lacks(s, '\n')
  }

  lemma PlainJoin(a: string, b: string)
    requires PlainText(a) && PlainText(b)
    ensures PlainText(a + b)
  {
  }

  lemma {:induction false} PlainDigits(v: nat)
    ensures PlainText(Digits(v, 10))
  {
    var s := Digits(v, 10);
    DigitsAre(v, 10);
    forall i | 0 <= i < |s| ensures s[i] != NUL && s[i] != '\n' {
      DigitIsPlain(s[i]);
    }
  }

  lemma PlainRepeat(k: int)
    ensures PlainText(Repeat(' ', k))
  {
  }

  /** The text of a printable frame is a C string on one line. */
  lemma {:induction false} PlainFrame(f: Frame, w: nat)
    requires TextFrame(f) && w <= 16
    ensures f.file != [] && PlainText(FrameText(f, w))
  {
    hide *;
    SmallTexts(f);
    var o, u, p := ObjText(f), CStr(f.func), FileText(f);
    var k, l := Blanks(OBJECT_WIDTH, |o|), Blanks(FUNCTION_WIDTH, |u|);
    FrameTextIs(f, w);
    PlainTexts(o, u, p);
    PlainAddress(f, w);
    PlainPlaced(f, p);
    PlainBody(k, o, l, u, Placed(p, LineTail(f)));
    PlainJoin(Address(f, w), Body(k, o, l, u, Placed(p, LineTail(f))));
  }

  lemma PlainTexts(o: string, u: string, p: string)
    requires TextsOk(o, u, p)
    ensures PlainText(o) && PlainText(u) && PlainText(p)
  {
  }

  lemma PlainAddress(f: Frame, w: nat)
    requires f.address < UINT64 && w <= 16
    ensures PlainText(Address(f, w))
  {
    AddressDigits(f.address, w);
    hide Digits, PadLeft, StrToL;
    PlainJoin("0x", PadLeft(Digits(f.address, 16), w, '0'));
  }

  lemma PlainPlaced(f: Frame, p: string)
    requires PlainText(p)
    ensures PlainText(Placed(p, LineTail(f)))
  {
    PlainDigits(f.line);
    hide Digits, PlainText;
    assert PlainText([]) && PlainText(":") && PlainText("  ") by { PlainMarks(); }
    PlainJoin(":", Digits(f.line, 10));
    PlainJoin("  ", p);
    PlainJoin("  " + p, LineTail(f));
  }

  lemma PlainMarks()
    ensures PlainText([]) && PlainText(":") && PlainText("  ")
  {
  }

  lemma PlainBody(k: nat, o: string, l: nat, u: string, place: string)
    requires PlainText(o) && PlainText(u) && PlainText(place)
    ensures PlainText(Body(k, o, l, u, place))
  {
    PlainRepeat(k);
    PlainRepeat(l);
    PlainJoin(":", Repeat(' ', k));
    PlainJoin(":" + Repeat(' ', k), o);
    PlainJoin(":" + Repeat(' ', k) + o, Repeat(' ', l));
    PlainJoin(":" + Repeat(' ', k) + o + Repeat(' ', l), u);
    PlainJoin(":" + Repeat(' ', k) + o + Repeat(' ', l) + u, place);
  }

  lemma PlainIsCStr(s: string)
    requires PlainText(s)
    ensures CStr(s) == s
  {
    CStrOf(s, []);
    assert s + [] == s;
  }

  /** The decimal count contains no marks. */
  lemma {:induction false} DecimalPlain(n: int)
    ensures forall i | 0 <= i < |Decimal(n)| :: Decimal(n)[i] !in ['x', '[', ']', '\n']
  {
    var d := if n < 0 then Digits(-n, 10) else Digits(n, 10);
    DigitsAre(if n < 0 then -n else n, 10);
    hide Digits;
    forall i | 0 <= i < |d| ensures d[i] !in ['x', '[', ']', '\n'] {
      DigitIsPlain(d[i]);
    }
  }

  /** Where the marks of a line are. */
  lemma {:induction false} LineMarks(g: string, d: string, text: string)
    requires IsGuide(g) && (forall i | 0 <= i < |d| :: d[i] !in ['x', '[', ']', '\n'])
    requires |text| > 2 && text[0] == '0' && text[1] == 'x'
    ensures var s := g + "[" + d + "] " + text;
      && FindChar(s, '[', 0) == |g| && FindChar(s, ']', 0) == |g| + 1 + |d|
      && FindChar(s, 'x', 0) == |g| + |d| + 4 < |s|
      && s[|g| + 1..|g| + 1 + |d|] == d && s[|g| + |d| + 3..] == text
  {
    var s := g + "[" + d + "] " + text;
    assert (forall i | 0 <= i < |g| :: s[i] == g[i]) && s[|g|] == '[';
    assert (forall i | |g| < i < |g| + 1 + |d| :: s[i] == d[i - |g| - 1])
      && s[|g| + 1 + |d|] == ']' && s[|g| + 2 + |d|] == ' ';
    assert s[|g| + 3 + |d|] == '0' && s[|g| + 4 + |d|] == 'x';
    FindCharIs(s, '[', 0, |g|);
    FindCharIs(s, ']', 0, |g| + 1 + |d|);
    FindCharIs(s, 'x', 0, |g| + |d| + 4);
  }

  /** The leaf a printed line stands for. */
  function LeafOf(t: Tree, w: nat): Tree
    requires TextTree(t) && w <= 16
  {
    Node(t.n, Reread(t.frame, w), [])
  }

  lemma TextStart(f: Frame, w: nat)
    requires f.file != []
    ensures |FrameText(f, w)| > 2 && FrameText(f, w)[0] == '0' && FrameText(f, w)[1] == 'x'
  {
    hide PadLeft, Place, CStr, StripPath, Digits;
    var a := PadLeft(Digits(f.address, 16), w, '0');
    var b := PadLeft(StripPath(CStr(f.obj)), OBJECT_WIDTH, ' ');
    var c := PadLeft(CStr(f.func), FUNCTION_WIDTH, ' ');
    assert FrameText(f, w) == "0x" + a + ":  " + b + "  " + c + Place(f);
    Starts(FrameText(f, w), a + ":  " + b + "  " + c + Place(f));
  }

  lemma Starts(s: string, rest: string)
    requires s == "0x" + rest && rest != []
    ensures |s| > 2 && s[0] == '0' && s[1] == 'x'
  {
  }

  /** A printed line reads back. */
  lemma {:induction false} LineReadsBack(g: string, t: Tree, w: nat)
    requires IsGuide(g) && TextTree(t) && w <= 16 && t.frame.file != []
    ensures Reads(NodeLine(g, t, w), |g|, LeafOf(t, w))
  {
    hide *;
    TreeFacts(t, w);
    var d, text := Decimal(t.n), FrameText(t.frame, w);
    var s := g + "[" + d + "] " + text;
    GuideIsText(g);
    NodeLineIs(g, t, w);
    DecimalPlain(t.n);
    DecimalReads(t.n);
    TextStart(t.frame, w);
    LineMarks(g, d, text);
    PlainFrame(t.frame, w);
    PlainIsCStr(text);
    RereadIs(t.frame, w);
    LineFacts(s, g, d, text, t, w);
    OneLine(g, d, text);
    ReadsIs(s, |g|, LeafOf(t, w));
  }

  lemma ReadsIs(s: string, indent: nat, node: Tree)
    requires Good(s) && Count(s).Some? && IndentOf(s) == indent && NodeOf(s) == node && Lacks(s, '\n')
    ensures Reads(s, indent, node)
  {
  }

  lemma TreeFacts(t: Tree, w: nat)
    requires TextTree(t) && w <= 16
    ensures TextFrame(t.frame) && -0x8000_0000 <= t.n <= 0x7FFF_FFFF
    ensures LeafOf(t, w) == Node(t.n, Reread(t.frame, w), [])
  {
  }

  lemma GuideIsText(g: string)
    requires IsGuide(g)
    ensures CStr(g) == g
  {
    CStrOf(g, []);
    assert g + [] == g;
  }

  lemma NodeLineIs(g: string, t: Tree, w: nat)
    requires CStr(g) == g && t.frame.file != []
    ensures NodeLine(g, t, w) == g + "[" + Decimal(t.n) + "] " + FrameText(t.frame, w)
  {
    hide FrameText, Decimal, CStr;
  }

  lemma LineFacts(s: string, g: string, d: string, text: string, t: Tree, w: nat)
    requires FindChar(s, '[', 0) == |g| && FindChar(s, ']', 0) == |g| + 1 + |d|
    requires FindChar(s, 'x', 0) == |g| + |d| + 4 < |s|
    requires s[|g| + 1..|g| + 1 + |d|] == d && s[|g| + |d| + 3..] == text && CStr(text) == text
    requires Stoi(d) == Some(t.n) && HasAddress(text) && TextFrame(t.frame) && w <= 16
    requires LineFrame(text) == Reread(t.frame, w)
    ensures Good(s) && Count(s) == Some(t.n) && IndentOf(s) == |g| && NodeOf(s) == Node(t.n, Reread(t.frame, w), [])
  {
    hide FindChar, HasAddress, LineFrame, Reread, Stoi, CStr, TextFrame;
  }

  lemma OneLine(g: string, d: string, text: string)
    requires IsGuide(g) && (forall i | 0 <= i < |d| :: d[i] !in ['x', '[', ']', '\n']) && PlainText(text)
    ensures Lacks(g + "[" + d + "] " + text, '\n')
  {
  }

  // ---- All lines ----

  /** The lines read back as the given leaves with the given indents. */
  ghost predicate AllRead(lines: seq<string>, indents: seq<nat>, nodes: seq<Tree>) {
    && |lines| == |indents| == |nodes|
    && forall i | 0 <= i < |lines| :: Reads(lines[i], indents[i], nodes[i])
  }

  lemma {:induction false} AllReadJoin(a: seq<string>, b: seq<string>, p: seq<nat>, q: seq<nat>, m: seq<Tree>,
                                       n: seq<Tree>)
    requires AllRead(a, p, m) && AllRead(b, q, n)
    ensures AllRead(a + b, p + q, m + n)
  {
    hide Reads;
  }

  lemma {:induction false} DepthsAppend(a: seq<Tree>, b: seq<Tree>, d: nat)
    ensures Depths(a + b, d) == Depths(a, d) + Depths(b, d)
    decreases a
  {
    if a == [] {
      assert a + b == b;
    } else {
      assert (a + b)[1..] == a[1..] + b;
      DepthsAppend(a[1..], b, d);
    }
  }

  lemma {:induction false} DepthsOne(x: Tree, d: nat)
    ensures Depths([x], d) == [d] + Depths(x.kids, d + 1)
  {
    assert [x][1..] == [];
  }

  lemma ColumnsAppend(a: seq<nat>, c: seq<nat>, b: nat)
    ensures Columns(a + c, b) == Columns(a, b) + Columns(c, b)
  {
  }

  lemma OneRead(line: string, indent: nat, node: Tree)
    requires Reads(line, indent, node)
    ensures AllRead([line], [indent], [node])
  {
    hide Reads;
  }

  lemma LongerGuide(g: string, t: Tree, c: bool)
    requires IsGuide(g) && Shown(t)
    ensures IsGuide(g + Guide(t, c)) && |g + Guide(t, c)| == |g| + 2
  {
  }

  lemma PrintedLines(t: Tree, g: string, c: bool, w: nat)
    requires Printable(t) && Shown(t)
    ensures PrintLines(t, g, c, w) == [NodeLine(g, t, w)] + KidsLines(t.kids, |t.kids|, g + Guide(t, c), true, w)
  {
    hide NodeLine, KidsLines;
  }

  lemma WithRoot(t: Tree)
    requires TextTree(t)
    ensures TextKids(t.kids) && t.kids[..|t.kids|] == t.kids
  {
  }

  /** The lines of a tree read back as its nodes in preorder, indented two columns a level. */
  lemma {:induction false} TreeReads(t: Tree, g: string, c: bool, w: nat, d: nat, b: nat)
    requires TextTree(t) && Printable(t) && IsGuide(g) && |g| == b + 2 * d && w <= 16
    ensures AllRead(PrintLines(t, g, c, w), Columns(Depths([RereadTree(t, w)], d), b), Preorder([RereadTree(t, w)]))
    decreases t, 1
  {
    hide *;
    WithRoot(t);
    TextIsPrintable(t);
    FileIsThere(t);
    LineReadsBack(g, t, w);
    LongerGuide(g, t, c);
    var g2, e := g + Guide(t, c), RereadKids(t.kids, w);
    KidsRead(t.kids, |t.kids|, g2, true, w, d + 1, b);
    RereadHead(t, w, d, b);
    PrintedLines(t, g, c, w);
    OneRead(NodeLine(g, t, w), b + 2 * d, LeafOf(t, w));
    AllReadJoin([NodeLine(g, t, w)], KidsLines(t.kids, |t.kids|, g2, true, w), [b + 2 * d],
                Columns(Depths(e, d + 1), b), [LeafOf(t, w)], Preorder(e));
  }

  lemma FileIsThere(t: Tree)
    requires Printable(t)
    ensures t.frame.file != []
  {
  }

  lemma {:induction false} RereadHead(t: Tree, w: nat, d: nat, b: nat)
    requires TextTree(t) && w <= 16
    ensures Columns(Depths([RereadTree(t, w)], d), b) == [b + 2 * d] + Columns(Depths(RereadKids(t.kids, w), d + 1), b)
    ensures Preorder([RereadTree(t, w)]) == [LeafOf(t, w)] + Preorder(RereadKids(t.kids, w))
  {
    hide TextFrame, Reread, Depths, Preorder, RereadKids;
    DepthsOne(RereadTree(t, w), d);
    PreorderOne(RereadTree(t, w));
    ColumnsAppend([d], Depths(RereadKids(t.kids, w), d + 1), b);
    assert Columns([d], b) == [b + 2 * d];
  }

  lemma {:induction false} RereadKidsNext(kids: seq<Tree>, k: nat, w: nat)
    requires TextKids(kids) && 0 < k <= |kids| && w <= 16
    ensures TextKids(kids[..k - 1]) && TextKids(kids[..k]) && TextTree(kids[k - 1])
    ensures RereadKids(kids[..k], w) == RereadKids(kids[..k - 1], w) + [RereadTree(kids[k - 1], w)]
  {
    hide TextFrame, RereadTree;
    assert kids[..k][..k - 1] == kids[..k - 1];
  }

  lemma {:induction false} KidsRead(kids: seq<Tree>, k: nat, g: string, shown: bool, w: nat, d: nat, b: nat)
    requires TextKids(kids) && AllPrintable(kids) && k <= |kids| && IsGuide(g) && |g| == b + 2 * d && w <= 16
    ensures TextKids(kids[..k])
    ensures AllRead(KidsLines(kids, k, g, shown, w), Columns(Depths(RereadKids(kids[..k], w), d), b),
                    Preorder(RereadKids(kids[..k], w)))
    decreases kids, 0, k
  {
    hide TextFrame, NodeLine, Reads, PrintLines, RereadTree, IsGuide, Columns;
    if k == 0 {
      assert kids[..0] == [];
      assert Columns([], b) == [];
    } else {
      hide Depths, Preorder, RereadKids, AllRead;
      var x := kids[k - 1];
      KidsRead(kids, k - 1, g, shown, w, d, b);
      RereadKidsNext(kids, k, w);
      assert Printable(x);
      TreeReads(x, g, k < |kids| && shown, w, d, b);
      var a := RereadKids(kids[..k - 1], w);
      DepthsAppend(a, [RereadTree(x, w)], d);
      ColumnsAppend(Depths(a, d), Depths([RereadTree(x, w)], d), b);
      PreorderAppend(a, [RereadTree(x, w)]);
      AllReadJoin(KidsLines(kids, k - 1, g, shown, w), PrintLines(x, g, k < |kids| && shown, w),
                  Columns(Depths(a, d), b), Columns(Depths([RereadTree(x, w)], d), b), Preorder(a),
                  Preorder([RereadTree(x, w)]));
    }
  }

  // ---- The text ----

  ghost predicate SingleLines(lines: seq<string>) {
    forall i | 0 <= i < |lines| :: Lacks(lines[i], '\n')
  }

  lemma {:induction false} JoinFront(lines: seq<string>)
    requires lines != []
    ensures JoinLines(lines) == lines[0] + "\n" + JoinLines(lines[1..])
    decreases lines
  {
    var init, l := lines[..|lines| - 1], lines[|lines| - 1];
    if init != [] {
      JoinFront(init);
      assert init[1..] == lines[1..][..|lines| - 2];
      assert lines[1..] != [] && lines[1..][|lines| - 2] == l;
      Regrouped(lines[0], JoinLines(init[1..]), l);
    } else {
      assert JoinLines(init) == [] && JoinLines(lines[1..]) == [];
      assert [] + l + "\n" == l + "\n" + [];
    }
  }

  lemma Regrouped(a: string, b: string, l: string)
    ensures a + "\n" + b + l + "\n" == a + "\n" + (b + l + "\n")
  {
  }

  /** Splitting the joined text at line breaks gives the lines and an empty rest. */
  lemma {:induction false} SplitJoined(pre: string, lines: seq<string>)
    requires SingleLines(lines)
    ensures Lines(pre + JoinLines(lines), |pre|) == lines + [[]]
    decreases lines
  {
    var s := pre + JoinLines(lines);
    if lines == [] {
      assert s == pre;
      FindCharIs(s, '\n', |pre|, |pre|);
      assert s[|pre|..] == [];
    } else {
      hide JoinLines, SingleLines;
      var l := lines[0];
      JoinFront(lines);
      assert Lacks(l, '\n') && SingleLines(lines[1..]) by { SingleTail(lines); }
      var next := pre + l + "\n";
      assert s == next + JoinLines(lines[1..]);
      FirstPiece(pre, l, JoinLines(lines[1..]));
      SplitJoined(next, lines[1..]);
      Rest(lines);
    }
  }

  lemma SingleTail(lines: seq<string>)
    requires SingleLines(lines) && lines != []
    ensures Lacks(lines[0], '\n') && SingleLines(lines[1..])
  {
  }

  /** The piece up to the first line break. */
  lemma {:induction false} FirstPiece(pre: string, l: string, rest: string)
    requires Lacks(l, '\n')
    ensures var s := pre + l + "\n" + rest; Lines(s, |pre|) == [l] + Lines(s, |pre + l + "\n"|)
  {
    var s := pre + l + "\n" + rest;
    var e := |pre| + |l|;
    assert forall i | |pre| <= i < e :: s[i] == l[i - |pre|];
    assert s[e] == '\n' && s[|pre|..e] == l;
    FindCharIs(s, '\n', |pre|, e);
  }

  lemma Rest(lines: seq<string>)
    requires lines != []
    ensures [lines[0]] + (lines[1..] + [[]]) == lines + [[]]
  {
  }

  lemma {:induction false} KeepAll(lines: seq<string>)
    requires AllGood(lines)
    ensures KeptLines(lines) == lines
    decreases lines
  {
    hide Readable, Kept;
    if lines != [] {
      var init := lines[..|lines| - 1];
      assert AllGood(init);
      KeepAll(init);
      assert Good(lines[|lines| - 1]);
      assert lines == init + [lines[|lines| - 1]];
    }
  }

  lemma {:induction false} KeepBlank(lines: seq<string>)
    requires AllGood(lines)
    ensures KeptLines(lines + [[]]) == lines
  {
    KeepAll(lines);
    assert (lines + [[]])[..|lines|] == lines;
    assert !Kept([]);
  }

  /** A text of lines that read back stands for the forest with those lines, and starts at the margin exactly
      when its first line does. */
  lemma {:induction false} TextStandsFor(lines: seq<string>, indents: seq<nat>, nodes: seq<Tree>)
    requires AllRead(lines, indents, nodes)
    ensures var text := lines + [[]];
      && AllReadable(text) && AllCounted(text) && (StartsAtMargin(text) <==> (indents != [] ==> indents[0] == 0))
      && KeptLines(text) == lines && AllGood(lines) && AllNumbered(lines)
      && Indents(lines) == indents && LineNodes(lines) == nodes
  {
    hide Count, FindChar, HasAddress, Indent, LineNode, KeptLines;
    forall i | 0 <= i < |lines|
      ensures Good(lines[i]) && Count(lines[i]).Some? && IndentOf(lines[i]) == indents[i]
      ensures NodeOf(lines[i]) == nodes[i]
    {
      assert Reads(lines[i], indents[i], nodes[i]);
    }
    BlankLine();
    KeepBlank(lines);
    KeptGood(lines + [[]]);
  }

  lemma BlankLine()
    ensures Readable([]) && !Kept([])
  {
  }

  /** The text of a tree. */
  function PrintText(t: Tree, prefix: string, w: nat): string
    requires Printable(t)
  {
    JoinLines(PrintLines(t, prefix, false, w))
  }

  /** Trees whose text can be read: a root without an address is not printed and may be anything. */
  predicate RootOk(t: Tree) {
    t.frame.file != [] && TextKids(t.kids) && (t.frame.address == 0 || TextTree(t))
  }

  /** The forest that comes back: without a root that was not printed, otherwise one level down. */
  function Returned(t: Tree, w: nat): seq<Tree>
    requires RootOk(t) && w <= 16
  {
    if t.frame.address == 0 then RereadKids(t.kids, w) else [RereadTree(t, w)]
  }

  /** The text of a tree, behind a prefix of bars and blanks, can be read. One forest stands for its lines: the
      one that comes back. The text starts at the margin exactly when the prefix is empty, or no line at all was
      printed. */
  lemma {:induction false} TextStands(t: Tree, g: string, w: nat, root: Tree)
    requires RootOk(t) && IsGuide(g) && w <= 16
    ensures Printable(t)
    ensures var text := Lines(PrintText(t, g, w), 0);
      && AllReadable(text) && AllCounted(text) && (StartsAtMargin(text) <==> g == [] || Returned(t, w) == [])
      && (StandsFor(root, text) <==> root == Node(0, EmptyFrame(), Returned(t, w)))
  {
    hide *;
    AllLinesRead(t, g, w);
    LinesStand(t, g, PrintLines(t, g, false, w), w, Returned(t, w), root);
  }

  lemma {:induction false} AllLinesRead(t: Tree, g: string, w: nat)
    requires RootOk(t) && IsGuide(g) && w <= 16
    ensures Printable(t)
    ensures var e := Returned(t, w);
      AllRead(PrintLines(t, g, false, w), Columns(Depths(e, 0), |g|), Preorder(e))
  {
    hide AllRead, KidsLines, Depths, Preorder, RereadKids, RereadTree, Columns, TextKids, TextTree, AllPrintable,
      NodeLine, IsGuide;
    KidsPrintable(t.kids);
    if t.frame.address == 0 {
      assert g + Guide(t, false) == g && t.kids[..|t.kids|] == t.kids;
      assert PrintLines(t, g, false, w) == KidsLines(t.kids, |t.kids|, g, false, w);
      KidsRead(t.kids, |t.kids|, g, false, w, 0, |g|);
    } else {
      TreeReads(t, g, false, w, 0, |g|);
    }
  }

  /** Full round trip: for a tree whose root is not printed, the printed text can be parsed, and the one
      forest that stands for its lines is the printed part of the tree exactly when every frame can be read
      back. Shape, order and counts always come back. */
  lemma {:induction false} FullRoundTrip(t: Tree, w: nat, root: Tree)
    requires t.frame.address == 0 && t.frame.file != [] && TextKids(t.kids) && w <= 16
    ensures Printable(t)
    ensures var text := Lines(PrintText(t, [], w), 0);
      && AllReadable(text) && AllCounted(text) && StartsAtMargin(text)
      && (StandsFor(root, text) <==> root == Node(0, EmptyFrame(), RereadKids(t.kids, w)))
    ensures RereadKids(t.kids, w) == PrintedKids(t.kids) <==> AllSeparable(t.kids)
  {
    hide TextKids, RereadKids, PrintedKids, AllSeparable, AllReadable, AllCounted, StartsAtMargin, StandsFor, Lines;
    TextStands(t, [], w, root);
    KidsExactly(t.kids, w);
  }

  /** A root that is printed comes back one level down: as the only child of an empty root. */
  lemma {:induction false} RootReads(t: Tree, w: nat, root: Tree)
    requires TextTree(t) && t.frame.file != [] && w <= 16
    ensures Printable(t)
    ensures var text := Lines(PrintText(t, [], w), 0);
      && AllReadable(text) && AllCounted(text) && StartsAtMargin(text)
      && (StandsFor(root, text) <==> root == Node(0, EmptyFrame(), [RereadTree(t, w)]))
  {
    hide TextKids, RereadKids, RereadTree, AllReadable, AllCounted, StartsAtMargin, StandsFor, Lines;
    TextStands(t, [], w, root);
  }

  /** The forest below the root comes back as the whole forest exactly when the root has no address. */
  lemma {:induction false} RootExactly(t: Tree, w: nat)
    requires RootOk(t) && w <= 16
    ensures Printable(t)
    ensures var text := Lines(PrintText(t, [], w), 0);
      && AllReadable(text) && AllCounted(text) && StartsAtMargin(text)
      && (StandsFor(Node(0, EmptyFrame(), RereadKids(t.kids, w)), text) <==> t.frame.address == 0)
  {
    hide TextKids, TextTree, RereadKids, RereadTree, AllReadable, AllCounted, StartsAtMargin, StandsFor, Lines;
    TextStands(t, [], w, Node(0, EmptyFrame(), RereadKids(t.kids, w)));
    if t.frame.address != 0 { NotItsOwnChild(t, w); }
  }

  lemma NotItsOwnChild(t: Tree, w: nat)
    requires TextTree(t) && w <= 16
    ensures RereadKids(t.kids, w) != [RereadTree(t, w)]
  {
    hide Reread, TextFrame, RereadKids;
    var k := RereadKids(t.kids, w);
    if |k| == 1 { assert k[0] != RereadTree(t, w); }
  }

  /** A tree of one node, which has an address and no texts. */
  function OneNode(): Tree {
    Node(1, EmptyFrame().(address := 1), [])
  }

  lemma {:induction false} OneNodeText()
    ensures TextTree(OneNode()) && OneNode().frame.file != [] && OneNode().frame.address != 0
  {
    CStrOf([], Zeros(OBJECT_SIZE));
    CStrOf([], Zeros(FUNCTION_SIZE));
    CStrOf([], Zeros(FILE_SIZE));
    assert [] + Zeros(FILE_SIZE) == Zeros(FILE_SIZE) && [] + Zeros(OBJECT_SIZE) == Zeros(OBJECT_SIZE);
    assert [] + Zeros(FUNCTION_SIZE) == Zeros(FUNCTION_SIZE);
  }

  /** A tree whose root has an address: what is parsed is not the forest below it. */
  lemma {:induction false} RootLost()
    ensures exists t ::
      && TextTree(t) && Printable(t)
      && AllReadable(Lines(PrintText(t, [], 4), 0)) && AllCounted(Lines(PrintText(t, [], 4), 0))
      && !StandsFor(Node(0, EmptyFrame(), RereadKids(t.kids, 4)), Lines(PrintText(t, [], 4), 0))
  {
    OneNodeText();
    hide RereadKids, Printable, AllReadable, AllCounted, StandsFor, Lines, PrintText, EmptyFrame, OneNode;
    RootExactly(OneNode(), 4);
  }

  /** A text as `abort_error` prints it, behind one blank: taking the last element of an empty vector is what
      parsing it comes to. */
  lemma {:induction false} BlankPrefixUndefined()
    ensures exists t ::
      && TextTree(t) && Printable(t)
      && AllReadable(Lines(PrintText(t, " ", 4), 0)) && AllCounted(Lines(PrintText(t, " ", 4), 0))
      && !StartsAtMargin(Lines(PrintText(t, " ", 4), 0))
  {
    OneNodeText();
    hide RereadKids, RereadTree, Printable, AllReadable, AllCounted, StandsFor, StartsAtMargin, Lines, PrintText,
      EmptyFrame, OneNode;
    TextStands(OneNode(), " ", 4, OneNode());
  }

  /** A text of lines that read back as the forest `e` stands for `e`. */
  lemma {:induction false} LinesStand(t: Tree, g: string, lines: seq<string>, w: nat, e: seq<Tree>, root: Tree)
    requires Printable(t) && lines == PrintLines(t, g, false, w)
    requires AllRead(lines, Columns(Depths(e, 0), |g|), Preorder(e))
    ensures var text := Lines(PrintText(t, g, w), 0);
      && AllReadable(text) && AllCounted(text) && (StartsAtMargin(text) <==> g == [] || e == [])
      && (StandsFor(root, text) <==> root == Node(0, EmptyFrame(), e))
  {
    hide *;
    var D, N := Columns(Depths(e, 0), |g|), Preorder(e);
    ReadSingle(lines, D, N);
    SplitJoined([], lines);
    TextIs(t, g, lines, w);
    FirstColumn(e, |g|);
    TextStandsFor(lines, D, N);
    OwnIndentation(e, |g|);
    StandsIff(root, lines + [[]], lines, D, N, e);
  }

  lemma ReadSingle(lines: seq<string>, D: seq<nat>, N: seq<Tree>)
    requires AllRead(lines, D, N)
    ensures SingleLines(lines)
  {
    hide Good, Count, Lacks;
    forall i | 0 <= i < |lines| ensures Lacks(lines[i], '\n') {
      assert Reads(lines[i], D[i], N[i]);
    }
  }

  lemma TextIs(t: Tree, g: string, lines: seq<string>, w: nat)
    requires Printable(t) && lines == PrintLines(t, g, false, w)
    ensures PrintText(t, g, w) == [] + JoinLines(lines)
  {
    hide PrintLines, JoinLines;
  }

  lemma FirstColumn(e: seq<Tree>, b: nat)
    ensures Columns(Depths(e, 0), b) == [] <==> e == []
    ensures e != [] ==> Columns(Depths(e, 0), b)[0] == b
  {
    if e != [] { assert Depths(e, 0)[0] == 0; }
  }

  lemma {:induction false} StandsIff(root: Tree, text: seq<string>, lines: seq<string>, D: seq<nat>, N: seq<Tree>,
                                     e: seq<Tree>)
    requires AllReadable(text) && AllCounted(text) && KeptLines(text) == lines && AllGood(lines) && AllNumbered(lines)
    requires Indents(lines) == D && LineNodes(lines) == N && IsForestOf(D, N, e)
    ensures StandsFor(root, text) <==> root == Node(0, EmptyFrame(), e)
  {
    hide IsForestOf, AllReadable, AllCounted, KeptLines, AllGood, AllNumbered, Indents, LineNodes, EmptyFrame;
    if StandsFor(root, text) {
      ForestOfUnique(D, N, root.kids, e);
    }
  }
}
