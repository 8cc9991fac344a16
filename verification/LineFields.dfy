/** Where `parseLine` finds the fields of a line, and when these are the printed ones. */
module LineFields {
  import opened Frames
  import opened Text
  import opened Parser

  predicate Lacks(s: string, c: char) {
    forall i | 0 <= i < |s| :: s[i] != c
  }

  predicate NoGap(s: string) {
    forall i | 0 <= i && i + 1 < |s| :: !(s[i] == s[i + 1] == ' ')
  }

  /** Text that stands between blanks: not empty, without blanks at its ends. */
  predicate Solid(s: string) {
    s != [] && s[0] != ' ' && s[|s| - 1] != ' ' && Lacks(s, '\n')
  }

  /** Object, function and file as the layout can show them; each may be missing. */
  predicate TextsOk(o: string, u: string, p: string) {
    (o == [] || Solid(o)) && (u == [] || Solid(u)) && (p == [] || Solid(p)) && NUL !in o && NUL !in u && NUL !in p
  }

  /** When the parser can tell the fields apart: it goes by double blanks and by the first colon of the third
      field, and takes a first field that starts far out for the function when there is no third one. */
  predicate Separable(o: string, u: string, p: string) {
    NoGap(o) && NoGap(u) && Lacks(p, ':') && Arranged(o, u, p)
  }

  predicate Arranged(o: string, u: string, p: string) {
    if u == [] then p == [] && (o == [] || |o| >= 3)
    else if o == [] then NoGap(p)
    else |o| >= 3 || p != []
  }

  // ---- The layout of a line ----

  /** A line behind its address: object, function and place, with the blanks between them. */
  function Body(k: nat, o: string, l: nat, u: string, place: string): string {
    ":" + Repeat(' ', k) + o + Repeat(' ', l) + u + place
  }

  /** File name and line number. */
  function Placed(p: string, tail: string): string {
    if p == [] then [] else "  " + p + tail
  }

  predicate TailOk(tail: string) {
    tail == [] || (tail[0] == ':' && Lacks(tail, ' '))
  }

  ghost predicate At(s: string, i: nat, t: string) {
    i + |t| <= |s| && forall x | 0 <= x < |t| :: s[i + x] == t[x]
  }

  ghost predicate NoneIn(s: string, c: char, a: nat, b: nat) {
    a <= b <= |s| && forall x | a <= x < b :: s[x] != c
  }

  ghost predicate Blank(s: string, a: nat, b: nat) {
    a <= b <= |s| && forall x | a <= x < b :: s[x] == ' '
  }

  ghost predicate GapFree(s: string, a: nat, b: nat) {
    a <= b <= |s| && forall x | a <= x && x + 1 < b :: !(s[x] == s[x + 1] == ' ')
  }

  /** Where the parts stand: the colon at `c`, the object at `i`, the function at `j` up to `e`, then the place. */
  ghost predicate Laid(s: string, c: nat, i: nat, o: string, j: nat, u: string, e: nat, p: string, tail: string) {
    && c < i && Blank(s, c + 1, i)
    && At(s, i, o) && i + |o| + 2 <= j && Blank(s, i + |o|, j)
    && At(s, j, u) && e == j + |u|
    && (if p == [] then |s| == e
        else Blank(s, e, e + 2) && At(s, e + 2, p) && e + 2 + |p| <= |s| && s[e + 2 + |p|..] == tail)
  }

  lemma {:induction false} BodyShape(h: string, k: nat, o: string, l: nat, u: string, place: string)
    ensures var s, c := h + Body(k, o, l, u, place), |h|;
      var i := c + 1 + k;
      var j := i + |o| + l;
      var e := j + |u|;
      && |s| == e + |place|
      && Blank(s, c + 1, i) && At(s, i, o) && Blank(s, i + |o|, j) && At(s, j, u)
      && s[e..] == place
  {
  }

  lemma {:induction false} PlaceShape(s: string, e: nat, p: string, tail: string)
    requires p != [] && e <= |s| && s[e..] == Placed(p, tail)
    ensures Blank(s, e, e + 2) && At(s, e + 2, p) && e + 2 + |p| <= |s| && s[e + 2 + |p|..] == tail
  {
    var t := s[e..];
    assert |t| == 2 + |p| + |tail| && t[0] == t[1] == ' ' && t[2..2 + |p|] == p && t[2 + |p|..] == tail;
    forall x | 0 <= x < |p| ensures s[e + 2 + x] == p[x] {
      assert t[2..2 + |p|][x] == t[2 + x] == s[e + (2 + x)];
    }
    assert s[e + 2 + |p|..] == t[2 + |p|..];
  }

  lemma {:induction false} BodyLaid(h: string, k: nat, o: string, l: nat, u: string, p: string, tail: string)
    requires l >= 2
    ensures var s, i := h + Body(k, o, l, u, Placed(p, tail)), |h| + 1 + k;
      var j := i + |o| + l;
      Laid(s, |h|, i, o, j, u, j + |u|, p, tail)
  {
    hide At, Blank, Body;
    var s := h + Body(k, o, l, u, Placed(p, tail));
    BodyShape(h, k, o, l, u, Placed(p, tail));
    if p != [] { PlaceShape(s, |h| + 1 + k + |o| + l + |u|, p, tail); }
  }

  // ---- Searching ----

  lemma FindCharIs(s: string, c: char, from: nat, i: nat)
    requires from <= i <= |s| && (i < |s| ==> s[i] == c) && forall j | from <= j < i :: s[j] != c
    ensures FindChar(s, c, from) == i
  {
  }

  lemma SkipBlanksIs(s: string, from: nat, i: nat)
    requires Blank(s, from, i) && (i < |s| ==> s[i] != ' ')
    ensures SkipBlanks(s, from) == i
  {
  }

  lemma FindGapIs(s: string, from: nat, i: nat)
    requires from <= i && i + 2 <= |s| && s[i] == s[i + 1] == ' '
    requires forall j | from <= j < i :: !(s[j] == s[j + 1] == ' ')
    ensures FindGap(s, from) == Some(i)
  {
  }

  /** After a text without double blanks that does not end in a blank, the first double blank is the next one. */
  lemma GapAfter(s: string, from: nat, i: nat)
    requires from < i && i + 2 <= |s| && GapFree(s, from, i) && s[i - 1] != ' ' && s[i] == s[i + 1] == ' '
    ensures FindGap(s, from) == Some(i)
  {
    FindGapIs(s, from, i);
  }

  lemma NoGapAfter(s: string, from: nat)
    requires GapFree(s, from, |s|)
    ensures FindGap(s, from) == None
  {
  }

  lemma Apart(s: string, i: nat, o: string, c: char)
    requires Lacks(o, c) && At(s, i, o)
    ensures NoneIn(s, c, i, i + |o|)
  {
    forall x | i <= x < i + |o| ensures s[x] != c {
      assert s[i + (x - i)] == o[x - i];
    }
  }

  lemma Gapless(s: string, j: nat, u: string)
    requires NoGap(u) && At(s, j, u)
    ensures GapFree(s, j, j + |u|)
  {
    forall x | j <= x && x + 1 < j + |u| ensures !(s[x] == s[x + 1] == ' ') {
      assert s[j + (x - j)] == u[x - j] && s[j + (x - j + 1)] == u[x - j + 1];
    }
  }

  /** A text in a line starts and ends with something that is neither blank nor NUL. */
  lemma EndsOf(s: string, i: nat, t: string)
    requires Solid(t) && NUL !in t && At(s, i, t)
    ensures t != [] && i + |t| <= |s| && s[i] != ' ' && s[i] != NUL && s[i + |t| - 1] != ' '
  {
    assert s[i + 0] == t[0] && s[i + (|t| - 1)] == t[|t| - 1];
  }

  /** Behind the file name stands nothing, or a colon and no blank any more. */
  lemma TailFacts(s: string, a: nat, tail: string)
    requires a <= |s| && s[a..] == tail && TailOk(tail)
    ensures NoneIn(s, ' ', a, |s|) && (a < |s| ==> s[a] == ':')
  {
    forall x | a <= x < |s| ensures s[x] != ' ' {
      assert s[x] == tail[x - a];
    }
    if a < |s| { assert s[a] == tail[0]; }
  }

  lemma GapFreeTail(s: string, a: nat, m: nat)
    requires GapFree(s, a, m) && NoneIn(s, ' ', m, |s|)
    ensures GapFree(s, a, |s|)
  {
  }

  lemma SomeGap(s: string, a: nat, p: string)
    requires At(s, a, p) && !NoGap(p)
    ensures a <= |s| && FindGap(s, a).Some?
  {
    var y := GapSpot(s, a, p);
  }

  lemma BlankJoin(s: string, a: nat, b: nat, c: nat)
    requires Blank(s, a, b) && Blank(s, b, c)
    ensures Blank(s, a, c)
  {
  }

  // ---- The three pointers ----

  /** All three: object `[i, g)`, function `[j, e)` and a file up to `f`. */
  lemma {:induction false} SplitThree(s: string, c: nat, i: nat, g: nat, j: nat, e: nat, f: nat)
    requires c < i < g && g + 2 <= j < e && e + 2 <= f <= |s| && e + 2 < |s|
    requires GapFree(s, i, g) && s[g - 1] != ' ' && Blank(s, g, j) && s[j] != ' ' && GapFree(s, j, e) && s[e - 1] != ' '
    requires Blank(s, e, e + 2) && s[e + 2] != ' ' && NoneIn(s, ':', e + 2, f) && (f < |s| ==> s[f] == ':')
    ensures Split(s, c, i) == Fields(i, j, e + 2, f)
  {
    hide FindGap, FindChar, SkipBlanks, GapFree;
    GapAfter(s, i, g);
    SkipBlanksIs(s, g, j);
    GapAfter(s, j, e);
    SkipBlanksIs(s, e, e + 2);
    FindCharIs(s, ':', e + 2, f);
  }

  /** Two, with nothing after the second up to the end: the first is the object unless it starts far out. */
  lemma {:induction false} SplitTwo(s: string, c: nat, i: nat, g: nat, j: nat, f: nat)
    requires c < i < g && g + 2 <= j <= f <= |s|
    requires GapFree(s, i, g) && s[g - 1] != ' ' && Blank(s, g, j) && (j < |s| ==> s[j] != ' ') && GapFree(s, j, |s|)
    requires NoneIn(s, ':', j, f) && (f < |s| ==> s[f] == ':')
    ensures Split(s, c, i) == if i - c > 20 then Fields(i, i, j, f) else Fields(i, j, |s|, |s|)
  {
    hide FindGap, FindChar, SkipBlanks, GapFree;
    GapAfter(s, i, g);
    SkipBlanksIs(s, g, j);
    NoGapAfter(s, j);
    FindCharIs(s, ':', j, f);
    FindCharIs(s, ':', |s|, |s|);
  }

  /** Just one, far out. */
  lemma {:induction false} SplitOne(s: string, c: nat, j: nat)
    requires c + 20 < j <= |s| && GapFree(s, j, |s|)
    ensures Split(s, c, j) == Fields(j, j, |s|, |s|)
  {
    hide FindGap, FindChar, SkipBlanks, GapFree;
    NoGapAfter(s, j);
    FindCharIs(s, ':', |s|, |s|);
  }

  /** Two, and a double blank in the second: the first is taken for the object. */
  lemma {:induction false} SplitGap(s: string, c: nat, j: nat, e: nat)
    requires c < j < e && e + 2 < |s| && GapFree(s, j, e) && s[e - 1] != ' '
    requires Blank(s, e, e + 2) && s[e + 2] != ' ' && FindGap(s, e + 2).Some?
    ensures Split(s, c, j).obj == j && Split(s, c, j).func == e + 2
  {
    hide FindGap, FindChar, SkipBlanks, GapFree;
    GapAfter(s, j, e);
    SkipBlanksIs(s, e, e + 2);
  }

  /** In any case the first text is taken for the object or for the function. */
  lemma {:induction false} SplitFirst(s: string, c: nat, i: nat)
    requires c < i < |s| && s[i] != ' '
    ensures var f := Split(s, c, i); f.obj == i && (f.func > i || (f.func == i && f.file > i))
  {
    hide FindChar;
    var gap := FindGap(s, i);
    if gap.Some? {
      assert gap.value > i;
    }
  }

  /** Object and place without a function: one of the two is taken for the function. */
  lemma {:induction false} SplitNoFunction(s: string, c: nat, i: nat, g: nat, m: nat)
    requires c < i < g && g + 2 <= m < |s| && GapFree(s, i, g) && s[g - 1] != ' ' && Blank(s, g, m) && s[m] != ' '
    ensures var f := Split(s, c, i); (f.func == i || f.func == m) && f.func < f.file
  {
    hide FindChar, SkipBlanks, GapFree;
    GapAfter(s, i, g);
    SkipBlanksIs(s, g, m);
  }

  // ---- The fields of a line ----

  function First(i: nat, o: string, j: nat, u: string, e: nat, p: string): nat {
    if o != [] then i else if u != [] then j else if p != [] then e + 2 else e
  }

  lemma FirstText(s: string, c: nat, i: nat, o: string, j: nat, u: string, e: nat, p: string, tail: string)
    requires Laid(s, c, i, o, j, u, e, p, tail) && TextsOk(o, u, p)
    ensures var m := First(i, o, j, u, e, p);
      && c < m <= |s| && SkipBlanks(s, c + 1) == m
      && (m < |s| <==> o != [] || u != [] || p != []) && (m < |s| ==> s[m] != ' ' && s[m] != NUL)
  {
    hide At, Blank, SkipBlanks, Solid, Lacks, NoGap;
    var m := First(i, o, j, u, e, p);
    if o != [] {
      EndsOf(s, i, o);
    } else {
      BlankJoin(s, c + 1, i, j);
      if u != [] {
        EndsOf(s, j, u);
      } else if p != [] {
        EndsOf(s, e + 2, p);
        BlankJoin(s, c + 1, j, e + 2);
      }
    }
    BlankBounds(s, c + 1, m);
    SkipBlanksIs(s, c + 1, m);
  }

  lemma BlankBounds(s: string, a: nat, b: nat)
    requires Blank(s, a, b)
    ensures a <= b <= |s|
  {
  }

  /** The fields `parseLine` should find. */
  function Printed(i: nat, o: string, j: nat, e: nat, p: string): Fields {
    var file := if p == [] then e else e + 2;
    Fields(if o == [] then j else i, j, file, file + |p|)
  }

  lemma {:induction false} WithObject(s: string, c: nat, i: nat, o: string, j: nat, u: string, e: nat, p: string,
                                      tail: string)
    requires Laid(s, c, i, o, j, u, e, p, tail) && TextsOk(o, u, p) && TailOk(tail) && o != []
    requires (i - c > 20 <==> |o| < 3) && (u != [] || p == []) && NoGap(o) && NoGap(u)
    ensures if !Arranged(o, u, p) then Split(s, c, i).func == i
            else if Lacks(p, ':') then Split(s, c, i) == Printed(i, o, j, e, p)
            else Misread(s, Split(s, c, i), o, u, p)
  {
    hide At, Blank, NoneIn, GapFree, Split, Solid, Lacks, NoGap, TailOk;
    Gapless(s, i, o);
    EndsOf(s, i, o);
    NothingLacks();
    if u != [] { EndsOf(s, j, u); Gapless(s, j, u); } else { AtEnd(s); }
    if p != [] {
      EndsOf(s, e + 2, p);
      TailFacts(s, e + 2 + |p|, tail);
      var f := NextColon(s, e + 2);
      ColonFree(s, e + 2);
      FileEnd(s, e + 2, p, f);
      SplitThree(s, c, i, i + |o|, j, e, f);
    } else {
      ColonFree(s, j);
      SplitTwo(s, c, i, i + |o|, j, NextColon(s, j));
    }
  }

  lemma AtEnd(s: string)
    ensures GapFree(s, |s|, |s|)
  {
  }

  function NextColon(s: string, j: nat): nat
    requires j <= |s|
  {
    FindChar(s, ':', j)
  }

  lemma ColonFree(s: string, j: nat)
    requires j <= |s|
    ensures var f := NextColon(s, j); j <= f <= |s| && NoneIn(s, ':', j, f) && (f < |s| ==> s[f] == ':')
  {
  }

  lemma {:induction false} WithoutObject(s: string, c: nat, i: nat, j: nat, u: string, e: nat, p: string, tail: string)
    requires Laid(s, c, i, [], j, u, e, p, tail) && TextsOk([], u, p) && TailOk(tail) && i - c > 20 && u != []
    requires NoGap(u)
    ensures if !Arranged([], u, p) then Split(s, c, j).obj == j < Split(s, c, j).func
            else if Lacks(p, ':') then Split(s, c, j) == Printed(i, [], j, e, p)
            else Misread(s, Split(s, c, j), [], u, p)
  {
    hide At, Blank, NoneIn, GapFree, Split, Solid, Lacks, NoGap, TailOk;
    EndsOf(s, j, u);
    Gapless(s, j, u);
    if p == [] {
      NothingLacks();
      SplitOne(s, c, j);
    } else {
      EndsOf(s, e + 2, p);
      if NoGap(p) {
        Gapless(s, e + 2, p);
        TailFacts(s, e + 2 + |p|, tail);
        GapFreeTail(s, e + 2, e + 2 + |p|);
        var f := NextColon(s, e + 2);
        ColonFree(s, e + 2);
        FileEnd(s, e + 2, p, f);
        SplitTwo(s, c, j, e, e + 2, f);
      } else {
        SomeGap(s, e + 2, p);
        SplitGap(s, c, j, e);
      }
    }
  }

  lemma NothingLacks()
    ensures NoGap([]) && Lacks([], ':')
  {
  }

  /** What goes wrong on the other lines: the object or the function gets a text it should not have, or some
      field does not get all of its own. */
  ghost predicate Misread(s: string, f: Fields, o: string, u: string, p: string) {
    || (o == [] && f.obj < f.func <= |s| && s[f.obj] != NUL)
    || (u == [] && f.func < f.file <= |s| && s[f.func] != NUL)
    || f.func - f.obj < |o| || f.file - f.func < |u| || f.end - f.file < |p|
  }

  /** Where the file name ends: at its own first colon, or behind it. */
  lemma FileEnd(s: string, a: nat, p: string, f: nat)
    requires At(s, a, p) && a <= |s| && f == NextColon(s, a)
    requires a + |p| <= |s| && (a + |p| < |s| ==> s[a + |p|] == ':')
    ensures Lacks(p, ':') ==> f == a + |p|
    ensures !Lacks(p, ':') ==> f < a + |p|
    ensures p != [] && s[a] != ':' ==> f > a
  {
    if Lacks(p, ':') {
      Apart(s, a, p, ':');
      FindCharIs(s, ':', a, a + |p|);
    } else {
      var x :| 0 <= x < |p| && p[x] == ':';
      assert s[a + x] == ':';
    }
  }

  /** The first text after a double blank in the object or the function. */
  lemma {:induction false} GapInside(s: string, i: nat, t: string)
    requires At(s, i, t) && Solid(t) && !NoGap(t)
    ensures i + |t| <= |s| && FindGap(s, i).Some?
    ensures var g := FindGap(s, i).value; i < SkipBlanks(s, g) < i + |t|
  {
    hide *;
    var y := GapSpot(s, i, t);
    SolidEdges(s, i, t);
    var g := FindGap(s, i);
    assert g.Some? && g.value <= y;
    assert SkipBlanks(s, g.value) <= i + |t| - 1;
  }

  lemma GapSpot(s: string, i: nat, t: string) returns (y: nat)
    requires At(s, i, t) && !NoGap(t)
    ensures i <= y && y + 1 < i + |t| <= |s| && s[y] == s[y + 1] == ' '
  {
    var x :| 0 <= x && x + 1 < |t| && t[x] == t[x + 1] == ' ';
    assert s[i + x] == t[x] && s[i + (x + 1)] == t[x + 1];
    y := i + x;
  }

  lemma SolidEdges(s: string, i: nat, t: string)
    requires At(s, i, t) && Solid(t)
    ensures t != [] && i + |t| <= |s| && s[i] != ' ' && s[i + |t| - 1] != ' '
  {
    assert s[i + 0] == t[0] && s[i + (|t| - 1)] == t[|t| - 1];
  }

  /** An object with a double blank is cut. */
  lemma {:induction false} GapInObject(s: string, c: nat, i: nat, o: string, j: nat)
    requires c < i && At(s, i, o) && Solid(o) && !NoGap(o) && Blank(s, i + |o|, j) && i + |o| + 2 <= j
    ensures i <= |s| && Split(s, c, i).func - Split(s, c, i).obj < |o|
  {
    GapInside(s, i, o);
    hide FindChar, SkipBlanks;
    var m := SkipBlanks(s, FindGap(s, i).value);
    assert FindGap(s, m).Some? by { BlanksAreGap(s, m, i + |o|, j); }
    hide FindGap;
  }

  lemma BlanksAreGap(s: string, m: nat, a: nat, b: nat)
    requires m <= a && a + 2 <= b && Blank(s, a, b)
    ensures m <= |s| && FindGap(s, m).Some?
  {
    assert s[a] == s[a + 1] == ' ';
  }

  /** So is a function, unless its first part is taken for the object. */
  lemma {:induction false} GapInFunction(s: string, c: nat, i: nat, o: string, j: nat, u: string)
    requires c < i && At(s, i, o) && i + |o| + 2 <= j && Blank(s, i + |o|, j) && (o != [] ==> Solid(o) && NoGap(o))
    requires At(s, j, u) && Solid(u) && !NoGap(u) && NUL !in u && (o == [] ==> i - c > 20)
    ensures var m := if o != [] then i else j; c < m <= |s|
    ensures var f := Split(s, c, if o != [] then i else j);
      f.file - f.func < |u| || (o == [] && f.obj < f.func <= |s| && s[f.obj] != NUL)
  {
    hide FindGap, SkipBlanks, Split, FindChar;
    GapInside(s, j, u);
    assert s[j] != ' ' && s[j] != NUL by { assert s[j + 0] == u[0]; assert u[0] in u; }
    if o != [] {
      Gapless(s, i, o);
      assert s[i + |o| - 1] != ' ' && i + |o| + 2 <= |s| by { assert s[i + (|o| - 1)] == o[|o| - 1]; }
      TwoThere(s, i + |o|, j);
      GapAfter(s, i, i + |o|);
      SkipBlanksIs(s, i + |o|, j);
    }
    CutFunction(s, c, if o != [] then i else j, j, |u|);
  }

  lemma CutFunction(s: string, c: nat, m: nat, j: nat, n: nat)
    requires c < m <= j < |s| && FindGap(s, j).Some? && SkipBlanks(s, FindGap(s, j).value) < j + n
    requires j < SkipBlanks(s, FindGap(s, j).value)
    requires m == j ==> j - c > 20
    requires m < j ==> FindGap(s, m).Some? && SkipBlanks(s, FindGap(s, m).value) == j
    ensures var f := Split(s, c, m); f.file - f.func < n || (m == j && f.obj == j < f.func)
  {
    hide FindGap, SkipBlanks, FindChar;
  }

  lemma TwoThere(s: string, a: nat, b: nat)
    requires Blank(s, a, b) && a + 2 <= b
    ensures b <= |s| && s[a] == s[a + 1] == ' '
  {
  }

  lemma {:induction false} WithoutFunction(s: string, c: nat, i: nat, o: string, j: nat, e: nat, p: string,
                                           tail: string)
    requires Laid(s, c, i, o, j, [], e, p, tail) && TextsOk(o, [], p) && p != []
    requires NoGap(o)
    ensures var m := First(i, o, j, [], e, p); c < m <= |s| && Misread(s, Split(s, c, m), o, [], p)
  {
    hide At, Blank, NoneIn, GapFree, Split, Solid, Lacks, NoGap;
    var m := First(i, o, j, [], e, p);
    FirstText(s, c, i, o, j, [], e, p, tail);
    EndsOf(s, e + 2, p);
    if o == [] {
      SplitFirst(s, c, m);
    } else {
      EndsOf(s, i, o);
      Gapless(s, i, o);
      BlankJoin(s, i + |o|, j, e + 2);
      SplitNoFunction(s, c, i, i + |o|, e + 2);
    }
  }

  /** The fields of a line are found exactly when the texts can be told apart. */
  lemma {:induction false} FieldsFound(s: string, c: nat, i: nat, o: string, j: nat, u: string, e: nat, p: string,
                                       tail: string)
    requires Laid(s, c, i, o, j, u, e, p, tail) && TextsOk(o, u, p) && TailOk(tail)
    requires (i - c > 20 <==> |o| < 3) && (o != [] || u != [] || p != [])
    ensures var m := First(i, o, j, u, e, p);
      && c < m <= |s|
      && (if Separable(o, u, p) then Split(s, c, m) == Printed(i, o, j, e, p)
          else Misread(s, Split(s, c, m), o, u, p))
  {
    hide Split, TailOk, At, Blank, NoGap, Solid, Lacks;
    FirstText(s, c, i, o, j, u, e, p, tail);
    if !NoGap(o) {
      NothingLacks();
      GapInObject(s, c, i, o, j);
    } else if !NoGap(u) {
      NothingLacks();
      GapInFunction(s, c, i, o, j, u);
    } else if u == [] && p != [] {
      WithoutFunction(s, c, i, o, j, e, p, tail);
    } else if o != [] {
      WithObject(s, c, i, o, j, u, e, p, tail);
    } else {
      WithoutObject(s, c, i, j, u, e, p, tail);
    }
  }
}
