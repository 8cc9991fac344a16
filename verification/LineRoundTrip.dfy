/** One printed line reads back as the node it was printed from. */
module LineRoundTrip {
  import opened Frames
  import opened Strings
  import opened Text
  import opened Printer
  import opened Parser
  import opened LineFields

  /** The object as printed. */
  function ObjText(f: Frame): (o: string)
    ensures |o| <= |CStr(f.obj)|
  {
    StripLength(CStr(f.obj));
    StripPath(CStr(f.obj))
  }

  /** The file as printed. */
  function FileText(f: Frame): (p: string)
    ensures |p| <= |CStr(f.file)|
  {
    StripLength(CStr(f.file));
    StripPath(CStr(f.file))
  }

  /** Frames whose texts the printed form can show. */
  predicate TextFrame(f: Frame) {
    && ValidFrame(f) && f.address > 0 && f.line <= 0x7FFF_FFFF
    && |CStr(f.obj)| < OBJECT_SIZE && |CStr(f.func)| < FUNCTION_SIZE && |CStr(f.file)| < FILE_SIZE
    && TextsOk(ObjText(f), CStr(f.func), FileText(f))
    && (FileText(f) == [] ==> CStr(f.file) == [] && f.line == 0)
  }

  /** When the fields can be told apart, and `strtol` can hold the address. */
  predicate FrameSeparable(f: Frame) {
    f.address <= INT64_MAX && Separable(ObjText(f), CStr(f.func), FileText(f))
  }

  /** Frames whose line can be read back. */
  predicate PrintableFrame(f: Frame) {
    TextFrame(f) && FrameSeparable(f)
  }

  function Padded(s: string, size: nat): string
    requires |s| <= size
  {
    s + Zeros(size - |s|)
  }

  /** What survives printing: address, object, function, file and line, without the paths. */
  function PrintedFrame(f: Frame): Frame
    requires TextFrame(f)
  {
    Frame(f.line, f.address, f.address, Padded(ObjText(f), OBJECT_SIZE), Zeros(OBJECT_PATH_SIZE),
          Padded(FileText(f), FILE_SIZE), Zeros(FILE_PATH_SIZE), Padded(CStr(f.func), FUNCTION_SIZE))
  }

  // ---- Fields ----

  lemma {:induction false} ClearedIs(a: string, n: nat, i: nat)
    requires 0 < n <= |a| && n - 1 <= i < |a|
    requires n == 1 || (a[n - 1] != ' ' && a[n - 1] != NUL)
    requires forall j | n <= j <= i :: a[j] == ' ' || a[j] == NUL
    requires forall j | i < j < |a| :: a[j] == NUL
    ensures Cleared(a, i) == a[..n] + Zeros(|a| - n)
    decreases i
  {
    if i == n - 1 {
      assert a == a[..n] + Zeros(|a| - n);
    } else {
      ClearedIs(a[i := NUL], n, i - 1);
      assert a[i := NUL][..n] == a[..n];
    }
  }

  /** A text padded with blanks is stored without them. */
  lemma {:induction false} FieldIs(t: string, k: nat, size: nat)
    requires 0 < |t| <= size && t[|t| - 1] != ' ' && t[|t| - 1] != NUL
    ensures Field(t + Repeat(' ', k), size) == Padded(t, size)
  {
    var s := t + Repeat(' ', k);
    var n := if |s| < size then |s| else size;
    var a := s[..n] + Zeros(size - n);
    assert a[..|t|] == t;
    assert a[|t| - 1] == t[|t| - 1];
    ClearedIs(a, |t|, size - 1);
  }

  lemma FieldEmpty(size: nat)
    requires size > 0
    ensures Field([], size) == Zeros(size)
  {
    assert [] + Zeros(size) == Zeros(size);
    ClearedIs(Zeros(size), 1, size - 1);
    assert Zeros(size)[..1] + Zeros(size - 1) == Zeros(size);
  }

  lemma {:induction false} ClearedAt(a: string, i: nat, k: nat)
    requires i < |a| && k < |a|
    ensures Cleared(a, i)[k] == a[k] || Cleared(a, i)[k] == NUL
    decreases i
  {
    if i > 0 && (a[i] == ' ' || a[i] == NUL) { ClearedAt(a[i := NUL], i - 1, k); }
  }

  /** A field does not hold a text longer than the one stored in it. */
  lemma {:induction false} ShortField(text: string, t: string, size: nat)
    requires |text| < |t| <= size && Ends(t)
    ensures Field(text, size) != Padded(t, size)
  {
    var a, k := text + Zeros(size - |text|), |t| - 1;
    assert text[..|text|] == text;
    ClearedAt(a, size - 1, k);
    assert Field(text, size) == Cleared(a, size - 1) && a[k] == NUL && Padded(t, size)[k] == t[k];
  }

  predicate Ends(t: string) {
    t != [] && t[|t| - 1] != ' ' && t[|t| - 1] != NUL
  }

  lemma SolidEnds(t: string)
    requires Solid(t) && NUL !in t
    ensures Ends(t)
  {
  }

  /** What a range of a line is stored as. */
  lemma {:induction false} StoredAs(s: string, a: nat, b: nat, t: string, size: nat)
    requires At(s, a, t) && Blank(s, a + |t|, b) && |t| <= size && 0 < size
    requires if t == [] then a == b else Ends(t)
    ensures a <= b <= |s| && Field(s[a..b], size) == Padded(t, size)
  {
    if t == [] {
      FieldEmpty(size);
      assert s[a..b] == [] && [] + Zeros(size) == Zeros(size);
    } else {
      assert s[a..b] == t + Repeat(' ', b - a - |t|);
      FieldIs(t, b - a - |t|, size);
    }
  }

  lemma {:induction false} ClearedHead(a: string, i: nat)
    requires i < |a|
    ensures Cleared(a, i)[0] == a[0]
    decreases i
  {
    if i > 0 && (a[i] == ' ' || a[i] == NUL) { ClearedHead(a[i := NUL], i - 1); }
  }

  /** A field keeps the first character of its text. */
  lemma FieldHead(text: string, size: nat)
    requires text != [] && size > 0
    ensures Field(text, size)[0] == text[0]
  {
    var n := if |text| < size then |text| else size;
    ClearedHead(text[..n] + Zeros(size - n), size - 1);
  }

  // ---- One frame ----

  function Blanks(w: nat, n: nat): nat {
    if w > n then 2 + w - n else 2
  }

  function Address(f: Frame, w: nat): string {
    "0x" + PadLeft(Digits(f.address, 16), w, '0')
  }

  lemma RepeatMore(k: int)
    ensures "  " + Repeat(' ', k) == Repeat(' ', if k > 0 then 2 + k else 2)
  {
  }

  lemma Regroup(h: string, a: string, o: string, b: string, u: string, p: string)
    ensures h + ":  " + (a + o) + "  " + (b + u) + p == h + (":" + ("  " + a) + o + ("  " + b) + u + p)
  {
    var x := ":" + ("  " + a) + o;
    assert ":  " + (a + o) == x;
    assert h + ":  " + (a + o) == h + x;
    assert x + ("  " + b) + u == x + "  " + (b + u);
    var y := x + "  " + (b + u);
    assert h + x + "  " + (b + u) == h + y;
    assert h + y + p == h + (y + p);
  }

  /** The digits of an address contain no marks. */
  lemma {:induction false} AddressDigits(a: nat, w: nat)
    requires a < UINT64 && w <= 16
    ensures var d := PadLeft(Digits(a, 16), w, '0');
      && |d| <= 16 && StrToL(d, 16) == (if a > INT64_MAX then INT64_MAX else a)
      && Lacks(d, ':') && Lacks(d, 'x') && Lacks(d, NUL) && Lacks(d, '\n')
  {
    var d := PadLeft(Digits(a, 16), w, '0');
    HexLength(a);
    PadLength(Digits(a, 16), w, '0');
    PaddedReads(a, w, 16);
    PaddedDigits(a, w, 16);
    hide Digits, PadLeft, Repeat, StrToL;
    forall i | 0 <= i < |d| ensures d[i] != ':' && d[i] != 'x' && d[i] != NUL && d[i] != '\n' {
      DigitIsPlain(d[i]);
    }
  }

  /** Finding the marks around them. */
  lemma {:induction false} AddressMarks(d: string, rest: string)
    requires Lacks(d, ':') && Lacks(d, 'x') && rest != [] && rest[0] == ':'
    ensures var s := "0x" + d + rest;
      FindChar(s, 'x', 0) == 1 && FindChar(s, ':', 0) == 2 + |d| < |s| && s[2..2 + |d|] == d
  {
    var s := "0x" + d + rest;
    assert s[0] == '0' && s[1] == 'x' && (forall i | 2 <= i < 2 + |d| :: s[i] == d[i - 2]) && s[2 + |d|] == ':';
    FindCharIs(s, 'x', 0, 1);
    FindCharIs(s, ':', 0, 2 + |d|);
  }

  /** The address of a printed frame reads back, as far as `strtol` can hold it. */
  lemma {:induction false} AddressReads(f: Frame, w: nat, rest: string)
    requires f.address < UINT64 && w <= 16 && rest != [] && rest[0] == ':'
    ensures var s, h := Address(f, w) + rest, Address(f, w);
      && FindChar(s, ':', 0) == |h|
      && HasAddress(s) && AddressFrame(s) == Base(f)
  {
    hide Digits, PadLeft, Repeat, StrToL, EmptyFrame, FindChar, Lacks;
    var d := PadLeft(Digits(f.address, 16), w, '0');
    AddressDigits(f.address, w);
    AddressMarks(d, rest);
  }

  function LineTail(f: Frame): string {
    if f.line > 0 then ":" + Digits(f.line, 10) else []
  }

  lemma {:induction false} TailIsOk(f: Frame)
    ensures TailOk(LineTail(f))
  {
    DigitsAre(f.line, 10);
    hide Digits;
    forall i | 0 <= i < |Digits(f.line, 10)| ensures Digits(f.line, 10)[i] != ' ' {
      DigitIsPlain(Digits(f.line, 10)[i]);
    }
  }

  /** The place of a frame: nothing, or the file and perhaps the line. */
  lemma {:induction false} PlaceIs(f: Frame)
    requires TextFrame(f)
    ensures f.file != [] && Place(f) == Placed(FileText(f), LineTail(f))
  {
    hide StripPath, CStr, Digits, TextsOk, ObjText, FileText;
    NameThere(f);
    var q := "  " + FileText(f);
    assert q + ":" + Digits(f.line, 10) == q + (":" + Digits(f.line, 10));
    assert q + [] == q;
  }

  lemma NameThere(f: Frame)
    requires TextFrame(f)
    ensures f.file != [] && (f.file[0] != NUL <==> FileText(f) != []) && FileText(f) == StripPath(CStr(f.file))
  {
    hide TextsOk, StripPath;
    assert f.file[0] != NUL <==> CStr(f.file) != [];
    assert StripPath([]) == [] by { StripLength([]); }
  }

  /** The text of a frame: address, then the fields behind the colon. */
  lemma {:induction false} FrameTextIs(f: Frame, w: nat)
    requires TextFrame(f)
    ensures var o, u, p := ObjText(f), CStr(f.func), FileText(f);
      && f.file != []
      && FrameText(f, w) == Address(f, w)
           + Body(Blanks(OBJECT_WIDTH, |o|), o, Blanks(FUNCTION_WIDTH, |u|), u, Placed(p, LineTail(f)))
  {
    hide *;
    PlaceIs(f);
    var o, u := ObjText(f), CStr(f.func);
    var a, b := Repeat(' ', OBJECT_WIDTH - |o|), Repeat(' ', FUNCTION_WIDTH - |u|);
    PaddedBlanks(o, OBJECT_WIDTH);
    PaddedBlanks(u, FUNCTION_WIDTH);
    TextParts(f, w);
    BodyParts(Blanks(OBJECT_WIDTH, |o|), o, Blanks(FUNCTION_WIDTH, |u|), u, Place(f));
    Regroup(Address(f, w), a, o, b, u, Place(f));
  }

  lemma PaddedBlanks(t: string, w: nat)
    ensures PadLeft(t, w, ' ') == Repeat(' ', w - |t|) + t
    ensures Repeat(' ', Blanks(w, |t|)) == "  " + Repeat(' ', w - |t|)
  {
    RepeatMore(w - |t|);
    hide Repeat;
  }

  lemma TextParts(f: Frame, w: nat)
    requires f.file != []
    ensures FrameText(f, w) ==
      Address(f, w) + ":  " + PadLeft(ObjText(f), OBJECT_WIDTH, ' ') + "  " + PadLeft(CStr(f.func), FUNCTION_WIDTH, ' ')
      + Place(f)
  {
    hide PadLeft, CStr, StripPath, Place, Digits;
  }

  lemma BodyParts(k: nat, o: string, l: nat, u: string, place: string)
    ensures Body(k, o, l, u, place) == ":" + Repeat(' ', k) + o + Repeat(' ', l) + u + place
  {
    hide Repeat;
  }

  function ReadAddress(f: Frame): nat {
    if f.address > INT64_MAX then INT64_MAX else f.address
  }

  /** A frame with nothing but the address that was read. */
  function Base(f: Frame): Frame {
    EmptyFrame().(address := ReadAddress(f), address2 := ReadAddress(f))
  }

  // Where the texts of a printed frame stand.

  function ObjectAt(f: Frame, w: nat): nat {
    |Address(f, w)| + 1 + Blanks(OBJECT_WIDTH, |ObjText(f)|)
  }

  function FunctionAt(f: Frame, w: nat): nat {
    ObjectAt(f, w) + |ObjText(f)| + Blanks(FUNCTION_WIDTH, |CStr(f.func)|)
  }

  function FunctionEnd(f: Frame, w: nat): nat {
    FunctionAt(f, w) + |CStr(f.func)|
  }

  ghost predicate FrameLaid(f: Frame, w: nat, s: string, c: nat, i: nat, j: nat, e: nat) {
    && Laid(s, c, i, ObjText(f), j, CStr(f.func), e, FileText(f), LineTail(f))
    && (i - c > 20 <==> |ObjText(f)| < 3)
  }

  lemma Positions(f: Frame, w: nat, s: string)
    requires var o, u := ObjText(f), CStr(f.func);
      var i := |Address(f, w)| + 1 + Blanks(OBJECT_WIDTH, |o|);
      var j := i + |o| + Blanks(FUNCTION_WIDTH, |u|);
      Laid(s, |Address(f, w)|, i, o, j, u, j + |u|, FileText(f), LineTail(f))
    ensures FrameLaid(f, w, s, |Address(f, w)|, ObjectAt(f, w), FunctionAt(f, w), FunctionEnd(f, w))
  {
    hide Laid, Address, CStr, LineTail;
  }

  lemma BlanksRange(n: nat)
    ensures Blanks(FUNCTION_WIDTH, n) >= 2
  {
  }

  lemma {:induction false} TextLaid(f: Frame, w: nat)
    requires TextFrame(f) && w <= 16
    ensures var s, c := FrameText(f, w), |Address(f, w)|;
      && f.file != [] && HasAddress(s) && FindChar(s, ':', 0) == c && AddressFrame(s) == Base(f)
      && FrameLaid(f, w, s, c, ObjectAt(f, w), FunctionAt(f, w), FunctionEnd(f, w))
  {
    hide *;
    var o, u, p := ObjText(f), CStr(f.func), FileText(f);
    var k, l := Blanks(OBJECT_WIDTH, |o|), Blanks(FUNCTION_WIDTH, |u|);
    FrameTextIs(f, w);
    SmallTexts(f);
    BlanksRange(|u|);
    BodyHead(k, o, l, u, Placed(p, LineTail(f)));
    AddressReads(f, w, Body(k, o, l, u, Placed(p, LineTail(f))));
    BodyLaid(Address(f, w), k, o, l, u, p, LineTail(f));
    Positions(f, w, FrameText(f, w));
  }

  lemma BodyHead(k: nat, o: string, l: nat, u: string, place: string)
    ensures Body(k, o, l, u, place) != [] && Body(k, o, l, u, place)[0] == ':'
  {
  }

  /** Right fields make up the printed part of the frame. */
  lemma {:induction false} Assemble(f: Frame, s: string, p: Fields)
    requires TextFrame(f) && f.address <= INT64_MAX && p.obj <= p.func <= p.file <= p.end <= |s|
    requires Field(s[p.obj..p.func], OBJECT_SIZE) == Padded(ObjText(f), OBJECT_SIZE)
    requires Field(s[p.func..p.file], FUNCTION_SIZE) == Padded(CStr(f.func), FUNCTION_SIZE)
    requires Field(s[p.file..p.end], FILE_SIZE) == Padded(FileText(f), FILE_SIZE)
    requires p.end < |s| <==> f.line > 0
    requires f.line > 0 ==> LineNumber(s[p.end + 1..]) == f.line
    ensures WithFields(Base(f), s, p) == PrintedFrame(f)
  {
    hide Field, Padded, CStr, LineNumber, TextsOk, ObjText, FileText;
  }

  lemma SmallTexts(f: Frame)
    requires TextFrame(f)
    ensures var o, u, p := ObjText(f), CStr(f.func), FileText(f);
      && |o| <= OBJECT_SIZE && |u| <= FUNCTION_SIZE && |p| <= FILE_SIZE && TextsOk(o, u, p)
      && (o != [] ==> Ends(o)) && (u != [] ==> Ends(u)) && (p != [] ==> Ends(p))
      && 0 < f.address < UINT64 && f.line <= 0x7FFF_FFFF && (p == [] ==> f.line == 0)
  {
    hide CStr, ObjText, FileText;
    var o, u, p := ObjText(f), CStr(f.func), FileText(f);
    if o != [] { SolidEnds(o); }
    if u != [] { SolidEnds(u); }
    if p != [] { SolidEnds(p); }
  }

  // Each text of a line is stored as it should be.

  lemma {:induction false} StoredObject(s: string, c: nat, i: nat, o: string, j: nat, u: string, e: nat, p: string,
                                        tail: string)
    requires Laid(s, c, i, o, j, u, e, p, tail) && |o| <= OBJECT_SIZE && (o != [] ==> Ends(o))
    ensures var a := if o == [] then j else i; a <= j <= |s| && Field(s[a..j], OBJECT_SIZE) == Padded(o, OBJECT_SIZE)
  {
    hide At, Blank, Field, Padded, Ends;
    Bounds(s, j, u);
    if o == [] {
      AtNothing(s, j);
      BlankNothing(s, j);
      StoredAs(s, j, j, o, OBJECT_SIZE);
    } else {
      StoredAs(s, i, j, o, OBJECT_SIZE);
    }
  }

  lemma {:induction false} StoredFunction(s: string, c: nat, i: nat, o: string, j: nat, u: string, e: nat, p: string,
                                          tail: string)
    requires Laid(s, c, i, o, j, u, e, p, tail) && |u| <= FUNCTION_SIZE && (if u == [] then p == [] else Ends(u))
    ensures var b := if p == [] then e else e + 2;
      j <= b <= |s| && Field(s[j..b], FUNCTION_SIZE) == Padded(u, FUNCTION_SIZE)
  {
    hide At, Blank, Field, Padded, Ends;
    Bounds(s, j, u);
    BlankNothing(s, e);
    StoredAs(s, j, if p == [] then e else e + 2, u, FUNCTION_SIZE);
  }

  lemma {:induction false} StoredFile(s: string, c: nat, i: nat, o: string, j: nat, u: string, e: nat, p: string,
                                      tail: string)
    requires Laid(s, c, i, o, j, u, e, p, tail) && |p| <= FILE_SIZE && (p != [] ==> Ends(p))
    ensures var a := if p == [] then e else e + 2;
      && a + |p| <= |s| && Field(s[a..a + |p|], FILE_SIZE) == Padded(p, FILE_SIZE)
      && (p == [] ==> a + |p| == |s|) && (p != [] ==> s[a + |p|..] == tail)
  {
    hide At, Blank, Field, Padded, Ends;
    var a := if p == [] then e else e + 2;
    if p == [] { AtNothing(s, e); }
    BlankNothing(s, a + |p|);
    StoredAs(s, a, a + |p|, p, FILE_SIZE);
  }

  lemma {:induction false} RightFields(f: Frame, w: nat, s: string, c: nat, i: nat, j: nat, e: nat)
    requires PrintableFrame(f) && FrameLaid(f, w, s, c, i, j, e)
    ensures var p := Printed(i, ObjText(f), j, e, FileText(f));
      p.obj <= p.func <= p.file <= p.end <= |s| && WithFields(Base(f), s, p) == PrintedFrame(f)
  {
    hide *;
    var o, u, p := ObjText(f), CStr(f.func), FileText(f);
    var a := if p == [] then e else e + 2;
    PrintableIs(f);
    SmallTexts(f);
    LaidOf(f, w, s, c, i, j, e);
    SeparableFile(o, u, p);
    StoredObject(s, c, i, o, j, u, e, p, LineTail(f));
    StoredFunction(s, c, i, o, j, u, e, p, LineTail(f));
    StoredFile(s, c, i, o, j, u, e, p, LineTail(f));
    if p != [] { LineReads(f, s, a + |p|); }
    PrintedIs(i, o, j, e, p);
    Assemble(f, s, Printed(i, o, j, e, p));
  }

  lemma SeparableFile(o: string, u: string, p: string)
    requires Separable(o, u, p)
    ensures u == [] ==> p == []
  {
  }

  lemma PrintedIs(i: nat, o: string, j: nat, e: nat, p: string)
    ensures var a := if p == [] then e else e + 2;
      Printed(i, o, j, e, p) == Fields(if o == [] then j else i, j, a, a + |p|)
  {
  }

  lemma BlankNothing(s: string, a: nat)
    ensures a <= |s| ==> Blank(s, a, a)
  {
  }

  lemma AtNothing(s: string, a: nat)
    ensures a <= |s| ==> At(s, a, [])
  {
  }

  lemma Bounds(s: string, a: nat, t: string)
    requires At(s, a, t)
    ensures a + |t| <= |s|
  {
  }

  /** A field with a text it should not have, or without all of its own. */
  lemma {:induction false} WrongFields(f: Frame, s: string, p: Fields)
    requires TextFrame(f) && p.obj <= p.func <= p.file <= p.end <= |s|
    requires Misread(s, p, ObjText(f), CStr(f.func), FileText(f))
    ensures WithFields(Base(f), s, p) != PrintedFrame(f)
  {
    hide Field, CStr, ObjText, FileText, TextsOk, LineNumber, Ends;
    var o, u, q := ObjText(f), CStr(f.func), FileText(f);
    SmallTexts(f);
    if p.obj < p.func { FieldHead(s[p.obj..p.func], OBJECT_SIZE); }
    if p.func < p.file { FieldHead(s[p.func..p.file], FUNCTION_SIZE); }
    if p.func - p.obj < |o| { ShortField(s[p.obj..p.func], o, OBJECT_SIZE); }
    if p.file - p.func < |u| { ShortField(s[p.func..p.file], u, FUNCTION_SIZE); }
    if p.end - p.file < |q| { ShortField(s[p.file..p.end], q, FILE_SIZE); }
  }

  lemma WrongAddress(f: Frame, s: string, p: Fields)
    requires TextFrame(f) && f.address > INT64_MAX && p.obj <= p.func <= p.file <= p.end <= |s|
    ensures WithFields(Base(f), s, p) != PrintedFrame(f) && Base(f) != PrintedFrame(f)
  {
    hide Field, CStr, ObjText, FileText, TextsOk, LineNumber;
  }

  lemma LineFrameOf(s: string, c: nat, i: nat)
    requires HasAddress(s) && FindChar(s, ':', 0) == c && c < i <= |s| && SkipBlanks(s, c + 1) == i
    ensures LineFrame(s) == if i == |s| then AddressFrame(s) else WithFields(AddressFrame(s), s, Split(s, c, i))
  {
    hide FindChar, SkipBlanks, Split, AddressFrame, WithFields, HasAddress;
  }

  lemma NothingPrinted(f: Frame)
    requires TextFrame(f) && f.address <= INT64_MAX && ObjText(f) == [] && CStr(f.func) == [] && FileText(f) == []
    ensures Base(f) == PrintedFrame(f)
  {
    hide CStr, ObjText, FileText, ValidFrame;
    assert forall n: nat :: Padded([], n) == Zeros(n);
  }

  /** `parseLine` of a printed frame gives its printed part exactly when the fields can be told apart and
      `strtol` can hold the address. */
  lemma {:induction false} FrameReadsExactly(f: Frame, w: nat)
    requires TextFrame(f) && w <= 16
    ensures f.file != [] && HasAddress(FrameText(f, w))
    ensures LineFrame(FrameText(f, w)) == PrintedFrame(f) <==> FrameSeparable(f)
  {
    hide *;
    TextLaid(f, w);
    var o, u, p := ObjText(f), CStr(f.func), FileText(f);
    var s, c := FrameText(f, w), |Address(f, w)|;
    var i, j, e := ObjectAt(f, w), FunctionAt(f, w), FunctionEnd(f, w);
    TailIsOk(f);
    SmallTexts(f);
    LaidOf(f, w, s, c, i, j, e);
    FirstText(s, c, i, o, j, u, e, p, LineTail(f));
    var m := First(i, o, j, u, e, p);
    LineFrameOf(s, c, m);
    SeparableIs(f);
    if f.address > INT64_MAX {
      if m < |s| { WrongAddress(f, s, Split(s, c, m)); } else { WrongAddress(f, s, Fields(0, 0, 0, 0)); }
    } else if o == [] && u == [] && p == [] {
      NothingPrinted(f);
      NothingSeparable();
    } else {
      FieldsFound(s, c, i, o, j, u, e, p, LineTail(f));
      if Separable(o, u, p) {
        PrintableIs(f);
        RightFields(f, w, s, c, i, j, e);
      } else {
        WrongFields(f, s, Split(s, c, m));
      }
    }
  }

  lemma SeparableIs(f: Frame)
    ensures FrameSeparable(f) <==> f.address <= INT64_MAX && Separable(ObjText(f), CStr(f.func), FileText(f))
  {
  }

  /** A frame whose object has one character, without a file, does not read back. */
  lemma {:induction false} ShortObjectLost()
    ensures exists f ::
      TextFrame(f) && f.file != [] && HasAddress(FrameText(f, 4)) && LineFrame(FrameText(f, 4)) != PrintedFrame(f)
  {
    var f := ShortFrame();
    hide *;
    ShortTexts();
    ShortIsText();
    FrameReadsExactly(f, 4);
  }

  function ShortFrame(): Frame {
    EmptyFrame().(address := 1, obj := Padded("a", OBJECT_SIZE), func := Padded("f", FUNCTION_SIZE))
  }

  lemma {:induction false} ShortTexts()
    ensures var f := ShortFrame();
      CStr(f.obj) == ObjText(f) == "a" && CStr(f.func) == "f" && CStr(f.file) == FileText(f) == []
  {
    hide CStr, Padded, StripPath;
    PaddedText("a", OBJECT_SIZE);
    PaddedText("f", FUNCTION_SIZE);
    NoneText(FILE_SIZE);
    OneLetter('a');
    StripLength([]);
  }

  /** A text stored in an array reads back. */
  lemma {:induction false} PaddedText(t: string, size: nat)
    requires |t| <= size && NUL !in t
    ensures CStr(Padded(t, size)) == t
  {
    hide CStr;
    CStrOf(t, Zeros(size - |t|));
  }

  lemma {:induction false} NoneText(size: nat)
    requires size > 0
    ensures CStr(Zeros(size)) == []
  {
  }

  lemma OneLetter(c: char)
    requires c != '/' && c != '\\'
    ensures StripPath([c]) == [c]
  {
    assert [c][..0] == [] && StripPath([]) == [];
  }

  lemma ShortIsText()
    ensures TextFrame(ShortFrame()) && !FrameSeparable(ShortFrame())
  {
    ShortTexts();
    hide CStr, StripPath, ObjText, FileText;
  }

  lemma LaidOf(f: Frame, w: nat, s: string, c: nat, i: nat, j: nat, e: nat)
    requires FrameLaid(f, w, s, c, i, j, e)
    ensures Laid(s, c, i, ObjText(f), j, CStr(f.func), e, FileText(f), LineTail(f))
    ensures (i - c > 20 <==> |ObjText(f)| < 3)
  {
  }

  lemma PrintableIs(f: Frame)
    ensures PrintableFrame(f) <==>
      TextFrame(f) && f.address <= INT64_MAX && Separable(ObjText(f), CStr(f.func), FileText(f))
  {
  }

  lemma NothingSeparable()
    ensures Separable([], [], [])
  {
  }

  /** The line number behind the file name. */
  lemma {:induction false} LineReads(f: Frame, s: string, a: nat)
    requires f.line <= 0x7FFF_FFFF && a <= |s| && s[a..] == LineTail(f)
    ensures a < |s| <==> f.line > 0
    ensures f.line > 0 ==> LineNumber(s[a + 1..]) == f.line
  {
    hide Digits, StrToL, PadLeft;
    if f.line > 0 {
      var d := Digits(f.line, 10);
      PaddedReads(f.line, 0, 10);
      NoPadding(d);
      assert s[a + 1..] == s[a..][1..] == d;
    }
  }

  lemma NoPadding(d: string)
    requires d != []
    ensures PadLeft(d, 0, '0') == d
  {
  }
}
