/** Where each byte of a packed tree lies, by number. */
module WireLayout {
  import opened Frames
  import opened Trees
  import opened Wire

  /** The low four bytes of `n` at `o`, least significant first. */
  predicate Word4(s: string, o: nat, n: nat) {
    && o + 4 <= |s|
    && s[o] as int == n % 256
    && s[o + 1] as int == n / 0x100 % 256
    && s[o + 2] as int == n / 0x1_0000 % 256
    && s[o + 3] as int == n / 0x100_0000 % 256
  }

  /** The low eight bytes of `n` at `o`, least significant first. */
  predicate Word8(s: string, o: nat, n: nat) {
    Word4(s, o, n) && Word4(s, o + 4, n / 0x1_0000_0000)
  }

  lemma {:induction false} FirstByte(v: nat, k: nat)
    requires k > 0
    ensures LeBytes(v, k)[0] as int == v % 256 && LeBytes(v, k)[1..] == LeBytes(v / 256, k - 1)
  {
  }

  lemma Quotients(v: nat)
    ensures v / 256 / 256 == v / 0x1_0000
    ensures v / 256 / 256 / 256 == v / 0x100_0000
    ensures v / 256 / 256 / 256 / 256 == v / 0x1_0000_0000
  {
  }

  lemma {:induction false} BytesOfFour(v: nat, v1: nat, v2: nat, v3: nat, v4: nat, k: nat)
    requires k >= 4 && v1 == v / 256 && v2 == v1 / 256 && v3 == v2 / 256 && v4 == v3 / 256
    ensures var s := LeBytes(v, k);
      && s[0] as int == v % 256 && s[1] as int == v1 % 256 && s[2] as int == v2 % 256 && s[3] as int == v3 % 256
      && s[4..] == LeBytes(v4, k - 4)
  {
    FirstByte(v, k);
    FirstByte(v1, k - 1);
    FirstByte(v2, k - 2);
    FirstByte(v3, k - 3);
    hide *;
    var s := LeBytes(v, k);
    assert s[4..] == s[1..][1..][1..][1..];
    assert s[1] == s[1..][0] && s[2] == s[1..][1..][0] && s[3] == s[1..][1..][1..][0];
  }

  lemma {:induction false} FourBytes(v: nat, k: nat)
    requires k >= 4
    ensures Word4(LeBytes(v, k), 0, v) && LeBytes(v, k)[4..] == LeBytes(v / 0x1_0000_0000, k - 4)
  {
    hide LeBytes;
    BytesOfFour(v, v / 256, v / 256 / 256, v / 256 / 256 / 256, v / 256 / 256 / 256 / 256, k);
    Quotients(v);
  }

  lemma {:induction false} EightBytes(v: nat)
    ensures Word8(LeBytes(v, 8), 0, v)
  {
    hide LeBytes;
    FourBytes(v, 8);
    FourBytes(v / 0x1_0000_0000, 4);
    var s := LeBytes(v, 8);
    assert forall i | 0 <= i < 4 :: s[4..][i] == s[4 + i];
  }

  lemma {:induction false} Moved4(s: string, o: nat, x: string, n: nat)
    requires o + |x| <= |s| && s[o..o + |x|] == x && Word4(x, 0, n)
    ensures Word4(s, o, n)
  {
    assert x[0] == s[o] && x[1] == s[o + 1] && x[2] == s[o + 2] && x[3] == s[o + 3];
  }

  lemma {:induction false} Moved8(s: string, o: nat, x: string, n: nat)
    requires o + |x| <= |s| && s[o..o + |x|] == x && Word8(x, 0, n)
    ensures Word8(s, o, n)
  {
    Moved4(s, o, x, n);
    assert s[o + 4..o + |x|] == x[4..];
    Moved4(s, o + 4, x[4..], n / 0x1_0000_0000);
  }

  /** The bytes of a frame that starts at `o`. */
  predicate FrameAt(s: string, o: nat, f: Frame) {
    && o + 512 <= |s| && Word4(s, o, f.line) && Word8(s, o + 8, f.address) && Word8(s, o + 16, f.address2)
    && s[o + 24..o + 80] == f.obj && s[o + 80..o + 128] == f.objPath && s[o + 128..o + 192] == f.file
    && s[o + 192..o + 256] == f.filePath && s[o + 256..o + 512] == f.func
  }

  lemma {:induction false} FrameLies(f: Frame)
    requires ValidFrame(f)
    ensures FrameAt(FrameBytes(f), 0, f)
  {
    hide LeBytes, FrameBytes, Word4, Word8;
    FrameParts(f);
    FourBytes(f.line, 4);
    EightBytes(f.address);
    EightBytes(f.address2);
    var s := FrameBytes(f);
    Moved4(s, 0, s[0..4], f.line);
    Moved8(s, 8, s[8..16], f.address);
    Moved8(s, 16, s[16..24], f.address2);
  }

  lemma {:induction false} Within(s: string, o: nat, x: string, a: nat, b: nat)
    requires o + |x| <= |s| && s[o..o + |x|] == x && a <= b <= |x|
    ensures s[o + a..o + b] == x[a..b]
  {
    var y, n := s[o + a..o + b], o + |x|;
    forall i | 0 <= i < b - a ensures y[i] == x[a..b][i] {
      assert x[a + i] == s[o..n][a + i];
    }
  }

  lemma {:induction false} MovedFrame(s: string, o: nat, x: string, f: Frame)
    requires o + 512 <= |s| && |x| == 512 && s[o..o + 512] == x && FrameAt(x, 0, f)
    ensures FrameAt(s, o, f)
  {
    hide Word4, Word8;
    Within(s, o, x, 0, 4);
    Within(s, o, x, 8, 16);
    Within(s, o, x, 16, 24);
    Within(s, o, x, 24, 80);
    Within(s, o, x, 80, 128);
    Within(s, o, x, 128, 192);
    Within(s, o, x, 192, 256);
    Within(s, o, x, 256, 512);
    Part4(x, 0, f.line);
    Part8(x, 8, f.address);
    Part8(x, 16, f.address2);
    Moved4(s, o, x[0..4], f.line);
    Moved8(s, o + 8, x[8..16], f.address);
    Moved8(s, o + 16, x[16..24], f.address2);
  }

  lemma Part4(s: string, o: nat, n: nat)
    requires Word4(s, o, n)
    ensures Word4(s[o..o + 4], 0, n)
  {
  }

  lemma {:induction false} Part8(s: string, o: nat, n: nat)
    requires Word8(s, o, n)
    ensures o + 8 <= |s| && Word8(s[o..o + 8], 0, n)
  {
  }

  lemma {:induction false} HeadLies(t: Tree)
    requires Encodable(t)
    ensures var s := Encode(t);
      Word4(s, 0, if t.n < 0 then t.n + 0x1_0000_0000 else t.n) && FrameAt(s, 4, t.frame) && Word4(s, 516, |t.kids|)
  {
    hide LeBytes, FrameBytes, Word4, FrameAt, ValidFrame;
    var s, x, f, y := Encode(t), IntBytes(t.n), FrameBytes(t.frame), IntBytes(|t.kids|);
    FourBytes(if t.n < 0 then t.n + UINT32 else t.n, 4);
    FourBytes(|t.kids|, 4);
    FrameLies(t.frame);
    assert s == x + f + y + EncodeAll(t.kids);
    hide *;
    assert s[0..0 + |x|] == x && s[4..4 + |f|] == f && s[516..516 + |y|] == y;
    Moved4(s, 0, x, if t.n < 0 then t.n + UINT32 else t.n);
    MovedFrame(s, 4, f, t.frame);
    Moved4(s, 516, y, |t.kids|);
  }

  /** The fixed part of a packed tree: the count, the frame and the number of children, and behind it the packed
      children one after the other, child `j` behind all nodes that come before it. */
  lemma {:induction false} Layout(t: Tree)
    requires Encodable(t)
    ensures var s := Encode(t);
      && Word4(s, 0, if t.n < 0 then t.n + 0x1_0000_0000 else t.n) && FrameAt(s, 4, t.frame) && Word4(s, 516, |t.kids|)
      && |s| == 520 * (1 + Nodes(t.kids))
      && forall j | 0 <= j < |t.kids| ::
          var o := 520 * (1 + Nodes(t.kids[..j]));
          o + |Encode(t.kids[j])| <= |s| && s[o..o + |Encode(t.kids[j])|] == Encode(t.kids[j])
  {
    hide LeBytes, FrameBytes, Word4, FrameAt, ValidFrame, Encode;
    EncodeLength(t);
    HeadLies(t);
    var s := Encode(t);
    forall j | 0 <= j < |t.kids|
      ensures var o := 520 * (1 + Nodes(t.kids[..j]));
        o + |Encode(t.kids[j])| <= |s| && s[o..o + |Encode(t.kids[j])|] == Encode(t.kids[j])
    {
      ChildLies(t, j);
    }
  }

  lemma {:induction false} ChildLies(t: Tree, j: nat)
    requires Encodable(t) && j < |t.kids| && Encodable(t.kids[j])
    ensures var s, o := Encode(t), 520 * (1 + Nodes(t.kids[..j]));
      o + |Encode(t.kids[j])| <= |s| && s[o..o + |Encode(t.kids[j])|] == Encode(t.kids[j])
  {
    hide LeBytes, FrameBytes, ValidFrame, Header;
    EncodeAllLength(t.kids[..j]);
    EncodeAllNext(t.kids, j);
    EncodeAllPrefix(t.kids, j + 1);
    var e, p, x := EncodeAll(t.kids), EncodeAll(t.kids[..j]), Encode(t.kids[j]);
    LastPart(e, p, x);
    assert Encode(t)[520..] == e;
    assert |p + x| <= |e|;
    assert Encode(t)[520 + |p|..520 + |p| + |x|] == e[|p|..|p| + |x|];
  }
}
