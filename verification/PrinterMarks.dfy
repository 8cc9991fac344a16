/** Which mark stands where in a printed line, and how wide the address column is. */
module PrinterMarks {
  import opened Frames
  import opened Strings
  import opened Trees
  import opened Text
  import opened Printer

  /** Number of printed nodes above the one at `path`. */
  ghost function Above(t: Tree, path: seq<nat>): nat
    requires ValidPath(t, path)
    decreases path
  {
    if path == [] then 0 else (if t.frame.address != 0 then 1 else 0) + Above(t.kids[path[0]], path[1..])
  }

  /** The mark of the node at `path[..m]`: a bar exactly when a sibling follows it and its parent is printed. The
      top node has a bar exactly when it is asked for (`c`). */
  ghost function Mark(t: Tree, c: bool, path: seq<nat>, m: nat): char
    requires ValidPath(t, path) && m <= |path| && (m > 0 ==> ValidPath(t, path[..m - 1]))
  {
    if m == 0 then (if c then '|' else ' ')
    else
      var parent := NodeAt(t, path[..m - 1]);
      if path[m - 1] + 1 < |parent.kids| && parent.frame.address != 0 then '|' else ' '
  }

  lemma {:induction false} PathPrefix(t: Tree, path: seq<nat>, m: nat)
    requires ValidPath(t, path) && m <= |path|
    ensures ValidPath(t, path[..m])
    decreases path
  {
    if m > 0 {
      PathPrefix(t.kids[path[0]], path[1..], m - 1);
      assert path[..m][1..] == path[1..][..m - 1];
    }
  }

  /** One step down. */
  lemma PathStep(t: Tree, path: seq<nat>, m: nat)
    requires ValidPath(t, path) && 0 < m <= |path|
    ensures ValidPath(t, path[..m]) && ValidPath(t.kids[path[0]], path[1..][..m - 1])
    ensures NodeAt(t, path[..m]) == NodeAt(t.kids[path[0]], path[1..][..m - 1])
    ensures Above(t, path[..m]) ==
      (if t.frame.address != 0 then 1 else 0) + Above(t.kids[path[0]], path[1..][..m - 1])
  {
    PathPrefix(t, path, m);
    PathPrefix(t.kids[path[0]], path[1..], m - 1);
    assert path[..m][1..] == path[1..][..m - 1];
  }

  lemma {:induction false} GuidesLength(t: Tree, c: bool, path: seq<nat>)
    requires ValidPath(t, path)
    ensures |Guides(t, c, path)| == 2 * Above(t, path)
    decreases path
  {
    if path != [] {
      GuidesLength(t.kids[path[0]], path[0] + 1 < |t.kids| && Shown(t), path[1..]);
    }
  }

  /** Each printed ancestor has two columns: its mark and a blank. */
  lemma {:induction false} GuideAt(t: Tree, c: bool, path: seq<nat>, m: nat)
    requires ValidPath(t, path) && m < |path|
    ensures ValidPath(t, path[..m]) && (m > 0 ==> ValidPath(t, path[..m - 1]))
    ensures NodeAt(t, path[..m]).frame.address != 0 ==>
      var g, k := Guides(t, c, path), Above(t, path[..m]);
      2 * k + 1 < |g| && g[2 * k] == Mark(t, c, path, m) && g[2 * k + 1] == ' '
    decreases path
  {
    hide Above, Guides, Mark, NodeAt, ValidPath, Guide;
    PathPrefix(t, path, m);
    GuidesLength(t, c, path);
    GuidesStep(t, c, path);
    if m == 0 {
      GuideTop(t, c, path);
    } else {
      PathPrefix(t, path, m - 1);
      PathStep(t, path, m);
      var kid, c2 := t.kids[path[0]], path[0] + 1 < |t.kids| && Shown(t);
      if m > 1 {
        PathPrefix(kid, path[1..], m - 2);
      }
      GuideAt(kid, c2, path[1..], m - 1);
      MarkBelow(t, c, path, m);
      if NodeAt(t, path[..m]).frame.address != 0 {
        var h, g, k := Guides(kid, c2, path[1..]), Guide(t, c), Above(kid, path[1..][..m - 1]);
        assert (g + h)[|g| + 2 * k] == h[2 * k] && (g + h)[|g| + 2 * k + 1] == h[2 * k + 1];
      }
    }
  }

  lemma GuidesStep(t: Tree, c: bool, path: seq<nat>)
    requires ValidPath(t, path) && path != []
    ensures path[0] < |t.kids| && ValidPath(t.kids[path[0]], path[1..])
    ensures Guides(t, c, path) ==
      Guide(t, c) + Guides(t.kids[path[0]], path[0] + 1 < |t.kids| && Shown(t), path[1..])
    ensures |Guide(t, c)| == if t.frame.address != 0 then 2 else 0
  {
  }

  lemma GuideTop(t: Tree, c: bool, path: seq<nat>)
    requires ValidPath(t, path) && path != []
    ensures path[..0] == [] && ValidPath(t, []) && NodeAt(t, []) == t && Above(t, []) == 0
    ensures Mark(t, c, path, 0) == if c then '|' else ' '
    ensures t.frame.address != 0 ==>
      |Guides(t, c, path)| >= 2 && Guides(t, c, path)[0] == (if c then '|' else ' ') && Guides(t, c, path)[1] == ' '
  {
  }

  lemma MarkBelow(t: Tree, c: bool, path: seq<nat>, m: nat)
    requires ValidPath(t, path) && 0 < m < |path| && ValidPath(t, path[..m - 1])
    requires m > 1 ==> ValidPath(t.kids[path[0]], path[1..][..m - 2])
    ensures Mark(t, c, path, m) == Mark(t.kids[path[0]], path[0] + 1 < |t.kids| && Shown(t), path[1..], m - 1)
  {
    if m == 1 {
      assert path[..0] == [];
    } else {
      PathStep(t, path, m - 1);
      assert path[1..][m - 2] == path[m - 1];
    }
  }

  /** In the line of a printed node, character `|prefix| + 2 * k` belongs to its `k`-th printed ancestor, that at
      `path[..m]`: it is a bar if a sibling follows this ancestor and its parent is printed, and a blank
      otherwise. The next character is a blank. */
  lemma {:induction false} MarkOfAncestor(t: Tree, prefix: string, c: bool, w: nat, path: seq<nat>, m: nat)
    requires Printable(t) && NUL !in prefix && ValidPath(t, path) && NodeAt(t, path).frame.address != 0
    requires m < |path| && ValidPath(t, path[..m]) && NodeAt(t, path[..m]).frame.address != 0
    requires m > 0 ==> ValidPath(t, path[..m - 1])
    ensures Position(t, path) < |PrintLines(t, prefix, c, w)|
    ensures var line, i := PrintLines(t, prefix, c, w)[Position(t, path)], |prefix| + 2 * Above(t, path[..m]);
      && i + 1 < |line| && line[i + 1] == ' '
      && line[i] ==
         if m == 0 then (if c then '|' else ' ')
         else if path[m - 1] + 1 < |NodeAt(t, path[..m - 1]).kids|
                 && NodeAt(t, path[..m - 1]).frame.address != 0 then '|'
         else ' '
  {
    LineOfNode(t, prefix, c, w, path);
    GuideAt(t, c, path, m);
    GuidesLength(t, c, path);
    var g := Guides(t, c, path);
    GuidesText(t, c, path);
    hide PrintLines, Guides, Above, FrameText, Decimal, Position;
    CStrWhole(prefix + g);
    LineStart(prefix + g, NodeAt(t, path), w);
  }

  lemma {:induction false} GuidesText(t: Tree, c: bool, path: seq<nat>)
    requires ValidPath(t, path)
    ensures NUL !in Guides(t, c, path)
    decreases path
  {
    if path != [] { GuidesText(t.kids[path[0]], path[0] + 1 < |t.kids| && Shown(t), path[1..]); }
  }

  lemma CStrWhole(s: string)
    requires NUL !in s
    ensures CStr(s) == s
  {
    CStrOf(s, []);
    assert s + [] == s;
  }

  lemma LineStart(g: string, t: Tree, w: nat)
    requires CStr(g) == g && t.frame.file != []
    ensures g <= NodeLine(g, t, w)
  {
    hide CStr, FrameText, Decimal;
  }

  // ---- The address column ----

  ghost predicate Fits(t: Tree, bound: nat)
    decreases t
  {
    t.frame.address < bound && forall i | 0 <= i < |t.kids| :: Fits(t.kids[i], bound)
  }

  function Bound(w: nat): nat {
    if w == 4 then 0x1_0000 else if w == 8 then 0x1_0000_0000 else if w == 12 then 0x1_0000_0000_0000
    else 0x1_0000_0000_0000_0000
  }

  /** Below 2^64, the column is the narrowest of 4, 8, 12 and 16 digits that holds every address of the tree. */
  lemma {:induction false} WidthExactly(t: Tree, w: nat)
    requires w in {4, 8, 12, 16} && Fits(t, 0x1_0000_0000_0000_0000)
    ensures AddressWidth(t) <= w <==> Fits(t, Bound(w))
    decreases t, 1
  {
    var a := t.frame.address;
    WidestExactly(if a <= 0xFFFF then 4 else if a <= 0xFFFF_FFFF then 8 else if a <= 0xFFFF_FFFF_FFFF then 12 else 16,
                  t.kids, w);
  }

  lemma {:induction false} WidestExactly(v: nat, kids: seq<Tree>, w: nat)
    requires v in {4, 8, 12, 16} && w in {4, 8, 12, 16}
    requires forall i | 0 <= i < |kids| :: Fits(kids[i], 0x1_0000_0000_0000_0000)
    ensures WidestKid(v, kids) <= w <==> v <= w && forall i | 0 <= i < |kids| :: Fits(kids[i], Bound(w))
    decreases kids, 0
  {
    if kids != [] {
      hide Bound, Fits;
      WidthExactly(kids[0], w);
      var k := AddressWidth(kids[0]);
      WidestExactly(if k > v then k else v, kids[1..], w);
      assert forall i | 0 < i < |kids| :: kids[1..][i - 1] == kids[i];
    }
  }

  // ---- Lines as printed ----

  lemma HexNext(v: nat, d: nat)
    requires v > 0 && d < 16
    ensures Digits(16 * v + d, 16) == Digits(v, 16) + [Digit(d)]
  {
    assert (16 * v + d) / 16 == v && (16 * v + d) % 16 == d;
  }

  /** Lower-case digits, most significant first. */
  lemma {:induction false} HexText()
    ensures Digits(0x7fc65a0fd88f, 16) == "7fc65a0fd88f"
  {
    assert Digits(0x7, 16) == "7";
    HexNext(0x7, 0xf); HexNext(0x7f, 0xc); HexNext(0x7fc, 0x6); HexNext(0x7fc6, 0x5); HexNext(0x7fc65, 0xa);
    hide Digits;
    assert Digits(0x7fc65a, 16) == "7fc65a";
    HexTail();
  }

  lemma {:induction false} HexTail()
    requires Digits(0x7fc65a, 16) == "7fc65a"
    ensures Digits(0x7fc65a0fd88f, 16) == "7fc65a0fd88f"
  {
    HexNext(0x7fc65a, 0x0); HexNext(0x7fc65a0, 0xf); HexNext(0x7fc65a0f, 0xd); HexNext(0x7fc65a0fd, 0x8);
    HexNext(0x7fc65a0fd8, 0x8); HexNext(0x7fc65a0fd88, 0xf);
    hide Digits;
  }

  /** The frame of a line with these fields. */
  function LineOf(address: nat, obj: string, func: string, file: string, line: nat): Frame
    requires |obj| <= OBJECT_SIZE && |func| <= FUNCTION_SIZE && |file| <= FILE_SIZE
  {
    EmptyFrame().(address := address, address2 := address, line := line, obj := obj + Zeros(OBJECT_SIZE - |obj|),
                  func := func + Zeros(FUNCTION_SIZE - |func|), file := file + Zeros(FILE_SIZE - |file|))
  }

  lemma {:induction false} LineTexts(address: nat, obj: string, func: string, file: string, line: nat)
    requires |obj| <= OBJECT_SIZE && |func| <= FUNCTION_SIZE && |file| <= FILE_SIZE
    requires NUL !in obj && NUL !in func && NUL !in file
    ensures var f := LineOf(address, obj, func, file, line);
      && f.address == address && f.line == line && |f.file| == FILE_SIZE
      && CStr(f.obj) == obj && CStr(f.func) == func && CStr(f.file) == file && (f.file[0] == NUL <==> file == [])
  {
    CStrOf(obj, Zeros(OBJECT_SIZE - |obj|));
    CStrOf(func, Zeros(FUNCTION_SIZE - |func|));
    CStrOf(file, Zeros(FILE_SIZE - |file|));
    hide CStr;
  }

  lemma {:induction false} StripPlain(s: string)
    requires '/' !in s && '\\' !in s
    ensures StripPath(s) == s
  {
    if s != [] { StripPlain(s[..|s| - 1]); }
  }

  /** Only what follows the last separator is shown. */
  lemma {:induction false} StripShows(p: string, s: string)
    requires '/' !in s && '\\' !in s && p != [] && (p[|p| - 1] == '/' || p[|p| - 1] == '\\')
    ensures StripPath(p + s) == s
  {
    if s == [] {
      assert p + s == p;
    } else {
      assert (p + s)[..|p + s| - 1] == p + s[..|s| - 1];
      StripShows(p, s[..|s| - 1]);
    }
  }

  lemma TwelveText()
    ensures Digits(12, 10) == "12" && Digits(16, 10) == "16"
  {
  }

  /** File and line, file alone, line alone, nothing. */
  lemma {:induction false} PlaceTexts()
    ensures Place(LineOf(1, [], [], "src/a.c", 12)) == "  a.c:12"
    ensures Place(LineOf(1, [], [], "src/a.c", 0)) == "  a.c"
    ensures Place(LineOf(1, [], [], [], 12)) == " : 12"
    ensures Place(LineOf(1, [], [], [], 0)) == ""
  {
    hide LineOf, CStr, StripPath, Digits;
    TwelveText();
    LineTexts(1, [], [], "src/a.c", 12);
    LineTexts(1, [], [], "src/a.c", 0);
    LineTexts(1, [], [], [], 12);
    LineTexts(1, [], [], [], 0);
    assert "src/" + "a.c" == "src/a.c";
    StripShows("src/", "a.c");
    assert "  " + "a.c" + ":" + "12" == "  a.c:12" && "  " + "a.c" == "  a.c" && " : " + "12" == " : 12";
  }

  lemma ObjectColumn()
    ensures PadLeft("libc.so.6", OBJECT_WIDTH, ' ') == "           libc.so.6"
  {
    assert Repeat(' ', 11) == "           ";
  }

  lemma FunctionColumn()
    ensures PadLeft("clone", FUNCTION_WIDTH, ' ') == "                                   clone"
  {
    assert Repeat(' ', 35) == "                                   ";
  }

  lemma {:induction false} LineParts(f: Frame, n: int, w: nat, x: string, d: string, o: string, u: string)
    requires f.file != [] && Place(f) == "" && Decimal(n) == x && PadLeft(Digits(f.address, 16), w, '0') == d
    requires PadLeft(StripPath(CStr(f.obj)), OBJECT_WIDTH, ' ') == o && PadLeft(CStr(f.func), FUNCTION_WIDTH, ' ') == u
    ensures NodeLine([], Node(n, f, []), w) == ("[" + x + "] 0x" + d + ":") + ("  " + o) + ("  " + u)
  {
    hide CStr, StripPath, Digits, Decimal, PadLeft, Place;
    CStrWhole([]);
    Glued(x, d, o, u);
  }

  lemma ExampleTexts()
    ensures var f := LineOf(0x7fc65a0fd88f, "libc.so.6", "clone", [], 0);
      && f.file != [] && Place(f) == "" && Decimal(16) == "16"
      && PadLeft(Digits(f.address, 16), 12, '0') == "7fc65a0fd88f"
      && PadLeft(StripPath(CStr(f.obj)), OBJECT_WIDTH, ' ') == "           libc.so.6"
      && PadLeft(CStr(f.func), FUNCTION_WIDTH, ' ') == "                                   clone"
  {
    hide LineOf, CStr, StripPath, Digits, PadLeft, Place;
    LineTexts(0x7fc65a0fd88f, "libc.so.6", "clone", [], 0);
    HexText();
    TwelveText();
    StripPlain("libc.so.6");
    ObjectColumn();
    FunctionColumn();
    NoPlace(LineOf(0x7fc65a0fd88f, "libc.so.6", "clone", [], 0));
    FullWidth("7fc65a0fd88f");
  }

  /** The first line of the example that comes with the library. */
  lemma {:induction false} ExampleLine()
    ensures var f := LineOf(0x7fc65a0fd88f, "libc.so.6", "clone", [], 0);
      && f.file != []
      && NodeLine([], Node(16, f, []), 12) ==
           "[16] 0x7fc65a0fd88f:" + "             libc.so.6" + "                                     clone"
  {
    hide LineOf, CStr, StripPath, Digits, Decimal, PadLeft, Place, NodeLine;
    var f := LineOf(0x7fc65a0fd88f, "libc.so.6", "clone", [], 0);
    ExampleTexts();
    LineParts(f, 16, 12, "16", "7fc65a0fd88f", "           libc.so.6", "                                   clone");
    Front();
    Wider();
  }

  lemma Front()
    ensures "[" + "16" + "] 0x" + "7fc65a0fd88f" + ":" == "[16] 0x7fc65a0fd88f:"
  {
  }

  lemma Wider()
    ensures "  " + "           libc.so.6" == "             libc.so.6"
    ensures "  " + "                                   clone" == "                                     clone"
  {
  }

  lemma NoPlace(f: Frame)
    requires f.file != [] && f.file[0] == NUL && f.line == 0
    ensures Place(f) == ""
  {
  }

  lemma FullWidth(d: string)
    requires |d| == 12
    ensures PadLeft(d, 12, '0') == d
  {
  }

  /** A short address is filled up with zeros. */
  lemma ZeroFilled()
    ensures PadLeft(Digits(0x1f, 16), 4, '0') == "001f"
  {
    HexNext(0x1, 0xf);
    assert Digits(0x1, 16) == "1";
    assert Repeat('0', 2) == "00";
  }

  lemma Glued(x: string, d: string, o: string, u: string)
    ensures [] + "[" + x + "] " + ("0x" + d + ":  " + o + "  " + u + "")
      == ("[" + x + "] 0x" + d + ":") + ("  " + o) + ("  " + u)
  {
    assert [] + "[" + x + "] " + "0x" == "[" + x + "] 0x";
    assert ":  " == ":" + "  ";
  }
}
