/** Reading printed lines: `parseLine` and the first half of `generateFromString`. */
module Parser {
  import opened Frames
  import opened Strings
  import opened Trees
  import opened Text
  import opened Hierarchy

  /** `strchr( s + from, c )` as an index, or the length for a null pointer. */
  function FindChar(s: string, c: char, from: nat): (i: nat)
    requires from <= |s|
    ensures from <= i <= |s| && (i < |s| ==> s[i] == c)
    ensures forall j | from <= j < i :: s[j] != c
    decreases |s| - from
  {
    if from == |s| || s[from] == c then from else FindChar(s, c, from + 1)
  }

  /** `strstr( s + from, "  " )`: two blanks. */
  function FindGap(s: string, from: nat): (r: Option<nat>)
    requires from <= |s|
    ensures r.Some? ==> from <= r.value && r.value + 2 <= |s| && s[r.value] == s[r.value + 1] == ' '
    ensures forall j | from <= j && j + 1 < |s| && (r.Some? ==> j < r.value) :: !(s[j] == s[j + 1] == ' ')
    decreases |s| - from
  {
    if from + 1 >= |s| then None
    else if s[from] == s[from + 1] == ' ' then Some(from)
    else FindGap(s, from + 1)
  }

  function SkipBlanks(s: string, from: nat): (i: nat)
    requires from <= |s|
    ensures from <= i <= |s| && (i < |s| ==> s[i] != ' ')
    ensures forall j | from <= j < i :: s[j] == ' '
    decreases |s| - from
  {
    if from == |s| || s[from] != ' ' then from else SkipBlanks(s, from + 1)
  }

  /** Blanks and NULs at the end of a field become NUL; the first character is left alone. */
  function Cleared(a: string, i: nat): (r: string)
    requires i < |a|
    ensures |r| == |a|
    decreases i
  {
    if i > 0 && (a[i] == ' ' || a[i] == NUL) then Cleared(a[i := NUL], i - 1) else a
  }

  /** What `copyField` leaves in an array of `size` characters. */
  function Field(text: string, size: nat): (r: string)
    requires size > 0
    ensures |r| == size
  {
    var n := if |text| < size then |text| else size;
    Cleared(text[..n] + Zeros(size - n), size - 1)
  }

  /** `atoi` on the rest of the line, stored in an unsigned 32-bit field. */
  function LineNumber(s: string): nat {
    StrToL(s, 10) % UINT32
  }

  /** Where the fields of a line begin; `file` and `end` are the end of the line when absent. */
  datatype Fields = Fields(obj: nat, func: nat, file: nat, end: nat)

  /** The text holds an address between an 'x' and a later ':', short enough for its buffer. */
  predicate HasAddress(s: string) {
    var x, c := FindChar(s, 'x', 0), FindChar(s, ':', 0);
    x < c < |s| && c - x - 1 < 1000
  }

  function Split(s: string, colon: nat, obj: nat): (f: Fields)
    requires colon < obj <= |s|
    ensures obj <= f.obj <= f.func <= f.file <= f.end <= |s|
  {
    var gap := FindGap(s, obj);
    var func := if gap.Some? then Some(SkipBlanks(s, gap.value)) else None;
    var gap2 := if func.Some? then FindGap(s, func.value) else None;
    var file := if gap2.Some? then Some(SkipBlanks(s, gap2.value)) else None;
    // without a third field, a first field that starts far out is taken for the function
    var shift := file.None? && obj - colon > 20;
    var b := if shift then obj else if func.Some? then func.value else |s|;
    var c := if shift then (if func.Some? then func.value else |s|) else if file.Some? then file.value else |s|;
    Fields(obj, b, c, FindChar(s, ':', c))
  }

  /** The frame of a line that holds nothing but an address. */
  function AddressFrame(s: string): Frame
    requires HasAddress(s)
  {
    var address := StrToL(s[FindChar(s, 'x', 0) + 1..FindChar(s, ':', 0)], 16) % UINT64;
    EmptyFrame().(address := address, address2 := address)
  }

  function WithFields(base: Frame, s: string, f: Fields): Frame
    requires f.obj <= f.func <= f.file <= f.end <= |s|
  {
    base.(obj := Field(s[f.obj..f.func], OBJECT_SIZE),
          func := Field(s[f.func..f.file], FUNCTION_SIZE),
          file := Field(s[f.file..f.end], FILE_SIZE),
          line := if f.end < |s| then LineNumber(s[f.end + 1..]) else 0)
  }

  /** `parseLine`. */
  function LineFrame(s: string): Frame
    requires HasAddress(s)
  {
    var colon := FindChar(s, ':', 0);
    var obj := SkipBlanks(s, colon + 1);
    if obj == |s| then AddressFrame(s) else WithFields(AddressFrame(s), s, Split(s, colon, obj))
  }

  /** `copyField`. */
  method CopyField(text: string, field: array<char>)
    requires field.Length > 0
    modifies field
    ensures field[..] == Field(text, field.Length)
  {
    var n := if |text| < field.Length then |text| else field.Length;
    for i := 0 to field.Length
      invariant forall j | 0 <= j < i :: field[j] == NUL
    {
      field[i] := NUL;
    }
    for i := 0 to n
      invariant field[..i] == text[..i] && forall j | i <= j < field.Length :: field[j] == NUL
    {
      field[i] := text[i];
    }
    assert field[..] == text[..n] + Zeros(field.Length - n);
    var i: nat := field.Length - 1;
    while i > 0 && (field[i] == ' ' || field[i] == NUL)
      invariant i < field.Length && Cleared(field[..], i) == Field(text, field.Length)
    {
      field[i] := NUL;
      assert field[..] == field[..][i := NUL];
      i := i - 1;
    }
  }

  method SkipBlanksFrom(s: string, from: nat) returns (i: nat)
    requires from <= |s|
    ensures i == SkipBlanks(s, from)
  {
    i := from;
    while i < |s| && s[i] == ' '
      invariant from <= i <= |s| && SkipBlanks(s, i) == SkipBlanks(s, from)
    {
      i := i + 1;
    }
  }

  lemma AddressFrameLine(s: string)
    requires HasAddress(s)
    ensures AddressFrame(s).line == 0
  {
  }

  /** `parseLine`, with its pointers. */
  method ParseLine(s: string) returns (f: Frame)
    requires HasAddress(s)
    ensures f == LineFrame(s)
  {
    hide Split, AddressFrame, WithFields, FindChar, SkipBlanks;
    var p2 := FindChar(s, ':', 0);
    f := AddressFrame(s);
    assert f.line == 0 by { AddressFrameLine(s); }
    var p3 := SkipBlanksFrom(s, p2 + 1);
    if p3 == |s| { return; }
    var p := FindFields(s, p2, p3);
    f := StoreFields(f, s, p);
  }

  /** The copying of the fields. */
  method StoreFields(base: Frame, s: string, p: Fields) returns (f: Frame)
    requires p.obj <= p.func <= p.file <= p.end <= |s| && base.line == 0
    ensures f == WithFields(base, s, p)
  {
    hide Field, LineNumber;
    var obj, func, file := new char[OBJECT_SIZE], new char[FUNCTION_SIZE], new char[FILE_SIZE];
    CopyField(s[p.obj..p.func], obj);
    CopyField(s[p.func..p.file], func);
    CopyField(s[p.file..p.end], file);
    f := base.(obj := obj[..], func := func[..], file := file[..]);
    if p.end != |s| { f := f.(line := LineNumber(s[p.end + 1..])); }
  }

  /** The pointers `p3` to `p6`, with -1 for a null pointer. */
  method FindFields(s: string, p2: nat, p3: nat) returns (f: Fields)
    requires p2 < p3 <= |s|
    ensures f == Split(s, p2, p3)
  {
    var p4: int, p5: int := -1, -1;
    var gap := FindGap(s, p3);
    if gap.Some? {
      p4 := SkipBlanksFrom(s, gap.value);
      gap := FindGap(s, p4);
      if gap.Some? { p5 := SkipBlanksFrom(s, gap.value); }
    }
    if p5 == -1 && p3 - p2 > 20 { p4, p5 := p3, p4; }
    if p4 == -1 { p4 := |s|; }
    if p5 == -1 { p5 := |s|; }
    f := Fields(p3, p4, p5, FindChar(s, ':', p5));
  }

  // ---- Whole texts ----

  /** Lines without an 'x' are skipped. */
  predicate Kept(str: string) {
    FindChar(str, 'x', 0) < |str|
  }

  /** The text `parseLine` is given: from the character before the 'x' to the first NUL. */
  function AddressText(str: string): string
    requires 0 < FindChar(str, 'x', 0)
  {
    CStr(str[FindChar(str, 'x', 0) - 1..])
  }

  /** What the code relies on for a line it keeps. */
  predicate Readable(str: string) {
    Kept(str) ==> FindChar(str, 'x', 0) > 0 && HasAddress(AddressText(str))
  }

  function Lower(a: nat, b: nat): nat {
    if a < b then a else b
  }

  function Indent(str: string): nat
    requires 0 < FindChar(str, 'x', 0)
  {
    Lower(FindChar(str, '[', 0), FindChar(str, 'x', 0) - 1)
  }

  /** The count in brackets, 1 without one; `None` when `stoi` throws. */
  function Count(str: string): Option<int> {
    var p1, p2, p3 := FindChar(str, '[', 0), FindChar(str, ']', 0), FindChar(str, 'x', 0);
    if p1 < p2 && p1 < p3 then Stoi(str[p1 + 1..p2]) else Some(1)
  }

  function LineNode(str: string): Tree
    requires Kept(str) && Readable(str) && Count(str).Some?
  {
    Node(Count(str).value, LineFrame(AddressText(str)), [])
  }

  function KeptLines(text: seq<string>): (r: seq<string>)
    ensures forall i | 0 <= i < |r| :: Kept(r[i]) && r[i] in text
  {
    if text == [] then []
    else KeptLines(text[..|text| - 1]) + if Kept(text[|text| - 1]) then [text[|text| - 1]] else []
  }

  /** Every line can be read without an exception. */
  predicate AllCounted(text: seq<string>) {
    forall i | 0 <= i < |text| :: Kept(text[i]) ==> Count(text[i]).Some?
  }

  predicate AllReadable(text: seq<string>) {
    forall i | 0 <= i < |text| :: Readable(text[i])
  }

  predicate Good(str: string) {
    Kept(str) && Readable(str)
  }

  predicate AllGood(lines: seq<string>) {
    forall i | 0 <= i < |lines| :: Good(lines[i])
  }

  predicate AllNumbered(lines: seq<string>) {
    forall i | 0 <= i < |lines| :: Count(lines[i]).Some?
  }

  function IndentOf(str: string): nat
    requires Good(str)
  {
    Indent(str)
  }

  function Indents(lines: seq<string>): (r: seq<nat>)
    requires AllGood(lines)
    ensures |r| == |lines|
  {
    seq(|lines|, i requires 0 <= i < |lines| => IndentOf(lines[i]))
  }

  function NodeOf(str: string): (t: Tree)
    requires Good(str) && Count(str).Some?
    ensures t.kids == []
  {
    LineNode(str)
  }

  function LineNodes(lines: seq<string>): (r: seq<Tree>)
    requires AllGood(lines) && AllNumbered(lines)
    ensures |r| == |lines| && forall i | 0 <= i < |r| :: r[i].kids == []
  {
    seq(|lines|, i requires 0 <= i < |lines| => NodeOf(lines[i]))
  }

  lemma KeptGood(text: seq<string>)
    requires AllReadable(text)
    ensures AllGood(KeptLines(text))
    ensures AllCounted(text) ==> AllNumbered(KeptLines(text))
  {
    hide Count, Readable, Kept;
  }

  /** `Undefined` stands for taking the last element of an empty vector. */
  datatype Parsed = Throws | Undefined | Read(root: Tree)

  /** The first line that is kept is not indented. */
  predicate StartsAtMargin(text: seq<string>)
    requires AllReadable(text)
  {
    var k := KeptLines(text);
    KeptGood(text);
    k != [] ==> IndentOf(k[0]) == 0
  }

  /** `root` stands for the lines of the text. */
  ghost predicate StandsFor(root: Tree, text: seq<string>)
    requires AllReadable(text) && AllCounted(text)
  {
    var k := KeptLines(text);
    KeptGood(text);
    root.n == 0 && root.frame == EmptyFrame() && IsForestOf(Indents(k), LineNodes(k), root.kids)
  }

  /** What the loop over the lines has collected. */
  ghost predicate Collected(text: seq<string>, indent: seq<nat>, stack: seq<Tree>) {
    && AllReadable(text) && AllCounted(text)
    && var k := KeptLines(text);
       KeptGood(text);
       indent == Indents(k) && stack == LineNodes(k)
  }

  lemma CollectedNext(text: seq<string>, str: string, indent: seq<nat>, stack: seq<Tree>)
    requires Collected(text, indent, stack) && Readable(str)
    ensures !Kept(str) ==> Collected(text + [str], indent, stack)
    ensures Kept(str) && Count(str).Some? ==>
      Good(str) && Collected(text + [str], indent + [IndentOf(str)], stack + [NodeOf(str)])
  {
    hide Count, Readable, Kept, Indent, LineNode;
    assert (text + [str])[..|text|] == text;
    assert KeptLines(text + [str]) == KeptLines(text) + if Kept(str) then [str] else [];
  }

  lemma CollectedNone()
    ensures Collected([], [], [])
  {
  }

  lemma CollectedAll(text: seq<string>, indent: seq<nat>, stack: seq<Tree>, root: Tree)
    requires Collected(text, indent, stack) && AllReadable(text)
    ensures AllCounted(text) && |indent| == |stack|
    ensures StartsAtMargin(text) <==> (indent != [] ==> indent[0] == 0)
    ensures forall i | 0 <= i < |stack| :: stack[i].kids == []
    ensures root.n == 0 && root.frame == EmptyFrame() && IsForestOf(indent, stack, root.kids) ==> StandsFor(root, text)
  {
    hide IsForestOf, EmptyFrame, LineNode, Indent, Count, Kept, Readable;
  }

  lemma ThrowsFor(text: seq<string>, i: nat)
    requires i < |text| && Kept(text[i]) && Count(text[i]).None?
    ensures !AllCounted(text)
  {
  }

  /** `generateFromString` on lines. */
  method GenerateFromLines(text: seq<string>) returns (r: Parsed)
    requires AllReadable(text)
    ensures r.Throws? <==> !AllCounted(text)
    ensures r.Undefined? <==> AllCounted(text) && !StartsAtMargin(text)
    ensures r.Read? ==> StandsFor(r.root, text)
  {
    var indent: seq<nat> := [];
    var stack: seq<Tree> := [];
    CollectedNone();
    assert forall i | 0 <= i < |text| :: Readable(text[i]);
    hide *;
    assert text[..0] == [];
    for i := 0 to |text|
      invariant Collected(text[..i], indent, stack)
    {
      var str := text[i];
      assert text[..i + 1] == text[..i] + [str];
      CollectedNext(text[..i], str, indent, stack);
      if Kept(str) {
        var count := Count(str);
        if count.None? {
          ThrowsFor(text, i);
          return Throws;
        }
        indent := indent + [IndentOf(str)];
        var t := ParseNode(str, count.value);
        stack := stack + [t];
      }
    }
    assert text[..|text|] == text;
    CollectedAll(text, indent, stack, EmptyTree());
    var root := GenerateHierarchy(indent, stack);
    if root.None? { return Undefined; }
    CollectedAll(text, indent, stack, root.value);
    r := Read(root.value);
  }

  method ParseNode(str: string, count: int) returns (t: Tree)
    requires Good(str) && Count(str) == Some(count)
    ensures t == NodeOf(str)
  {
    hide LineFrame, Count, HasAddress, AddressText;
    var f := ParseLine(AddressText(str));
    t := Node(count, f, []);
  }

  /** The pieces of a text between line breaks. */
  function Lines(str: string, from: nat): (r: seq<string>)
    requires from <= |str|
    decreases |str| - from
  {
    var p := FindChar(str, '\n', from);
    if p == |str| then [str[from..]] else [str[from..p]] + Lines(str, p + 1)
  }

  /** `generateFromString` on one string. */
  method GenerateFromString(str: string) returns (r: Parsed)
    requires AllReadable(Lines(str, 0))
    ensures r.Throws? <==> !AllCounted(Lines(str, 0))
    ensures r.Undefined? <==> AllCounted(Lines(str, 0)) && !StartsAtMargin(Lines(str, 0))
    ensures r.Read? ==> StandsFor(r.root, Lines(str, 0))
  {
    hide *;
    var data: seq<string> := [];
    var p1 := 0;
    var p2 := FindChar(str, '\n', 0);
    while p2 != |str|
      invariant p1 <= p2 <= |str| && p2 == FindChar(str, '\n', p1)
      invariant data + Lines(str, p1) == Lines(str, 0)
      decreases |str| - p1
    {
      LinesFrom(str, p1);
      Assoc(data, [str[p1..p2]], Lines(str, p2 + 1));
      data := data + [str[p1..p2]];
      p1 := p2 + 1;
      p2 := FindChar(str, '\n', p1);
    }
    LinesFrom(str, p1);
    data := data + [str[p1..]];
    r := GenerateFromLines(data);
  }

  lemma LinesFrom(str: string, from: nat)
    requires from <= |str|
    ensures var p := FindChar(str, '\n', from);
      Lines(str, from) == if p == |str| then [str[from..]] else [str[from..p]] + Lines(str, p + 1)
  {
    hide FindChar;
  }
}
