/** Printing what was parsed gives the same text again. */
module Reprint {
  import opened Frames
  import opened Strings
  import opened Trees
  import opened Text
  import opened Printer
  import opened LineRoundTrip
  import opened RoundTrip

  /** The printed part of a frame prints like the frame. */
  lemma {:induction false} FramePrintsAgain(f: Frame, w: nat)
    requires TextFrame(f)
    ensures PrintedFrame(f).file != [] && FrameText(PrintedFrame(f), w) == FrameText(f, w)
  {
    var g := PrintedFrame(f);
    PaddedText(ObjText(f), OBJECT_SIZE);
    PaddedText(CStr(f.func), FUNCTION_SIZE);
    PaddedText(FileText(f), FILE_SIZE);
    StripTwice(CStr(f.obj));
    StripTwice(CStr(f.file));
    assert f.file[0] == NUL <==> CStr(f.file) == [];
    assert g.file[0] == NUL <==> CStr(g.file) == [];
    hide CStr, Digits, PadLeft, StripPath, Padded;
  }

  lemma {:induction false} StripTwice(s: string)
    ensures StripPath(StripPath(s)) == StripPath(s)
  {
    if s != [] && s[|s| - 1] != '/' && s[|s| - 1] != '\\' {
      StripTwice(s[..|s| - 1]);
      assert StripPath(s)[..|StripPath(s)| - 1] == StripPath(s[..|s| - 1]);
    }
  }

  /** The printed part of a tree has the lines of the tree. */
  lemma {:induction false} TreePrintsAgain(t: Tree, g: string, c: bool, w: nat)
    requires TextTree(t)
    ensures Printable(t) && Printable(PrintedTree(t))
    ensures PrintLines(PrintedTree(t), g, c, w) == PrintLines(t, g, c, w)
    decreases t, 1
  {
    TextIsPrintable(t);
    FramePrintsAgain(t.frame, w);
    KidsPrintAgain(t.kids, |t.kids|, g + Guide(t, c), true, w);
    hide TextFrame, KidsLines, FrameText, PrintedKids;
  }

  lemma {:induction false} KidsPrintAgain(kids: seq<Tree>, k: nat, g: string, shown: bool, w: nat)
    requires TextKids(kids) && k <= |kids|
    ensures AllPrintable(kids) && AllPrintable(PrintedKids(kids))
    ensures KidsLines(PrintedKids(kids), k, g, shown, w) == KidsLines(kids, k, g, shown, w)
    decreases kids, 0, k
  {
    hide TextFrame, PrintLines, PrintedTree, PrintedKids;
    var r := PrintedKids(kids);
    forall i | 0 <= i < |kids| ensures Printable(kids[i]) && Printable(r[i]) {
      KidsAt(kids, i, 16);
      TreePrintsAgain(kids[i], g, i + 1 < |kids| && shown, w);
    }
    if k > 0 {
      KidsPrintAgain(kids, k - 1, g, shown, w);
      KidsAt(kids, k - 1, 16);
      TreePrintsAgain(kids[k - 1], g, k < |kids| && shown, w);
    }
  }

  /** The columns stay as wide. */
  lemma {:induction false} WidthAgain(t: Tree)
    requires TextTree(t)
    ensures AddressWidth(PrintedTree(t)) == AddressWidth(t)
    decreases t, 1
  {
    hide TextFrame, WidestKid, PrintedKids;
    var a := t.frame.address;
    WidestAgain(if a <= 0xFFFF then 4 else if a <= 0xFFFF_FFFF then 8 else if a <= 0xFFFF_FFFF_FFFF then 12 else 16,
                t.kids);
  }

  lemma {:induction false} WidestAgain(w: nat, kids: seq<Tree>)
    requires TextKids(kids) && w in {4, 8, 12, 16}
    ensures WidestKid(w, PrintedKids(kids)) == WidestKid(w, kids)
    decreases kids, 0
  {
    if kids != [] {
      hide TextFrame, AddressWidth, PrintedTree, PrintedKids;
      var r := PrintedKids(kids);
      forall i | 0 <= i < |kids| ensures r[i] == PrintedTree(kids[i]) {
        KidsAt(kids, i, 16);
      }
      forall i | 0 <= i < |kids| - 1 ensures PrintedKids(kids[1..])[i] == PrintedTree(kids[i + 1]) {
        KidsAt(kids[1..], i, 16);
      }
      assert r[1..] == PrintedKids(kids[1..]);
      WidthAgain(kids[0]);
      var k := AddressWidth(kids[0]);
      WidestAgain(if k > w then k else w, kids[1..]);
    }
  }

  /** Text, parsed and printed again, is the same text: `printString` undoes `generateFromString` on every
      text it wrote for a tree whose frames can be read back. */
  lemma {:induction false} PrintsAgain(t: Tree)
    requires t.frame.address == 0 && t.frame.file != [] && TextKids(t.kids) && AllSeparable(t.kids)
    ensures var r := Node(0, EmptyFrame(), RereadKids(t.kids, AddressWidth(t)));
      && Printable(t) && Printable(r)
      && PrintText(r, [], AddressWidth(r)) == PrintText(t, [], AddressWidth(t))
  {
    KidsExactly(t.kids, AddressWidth(t));
    var r := Node(0, EmptyFrame(), PrintedKids(t.kids));
    KidsPrintAgain(t.kids, |t.kids|, [], false, AddressWidth(t));
    WidestAgain(4, t.kids);
    hide TextFrame, KidsLines, WidestKid, PrintedKids, RereadKids, TextTree, AllSeparable;
    assert [] + Guide(t, false) == [] && [] + Guide(r, false) == [];
    assert AddressWidth(r) == AddressWidth(t);
  }
}
