/** The byte layout of a packed tree. A `char` buffer holds one byte per element. */
module Wire {
  import opened Frames
  import opened Trees

  const FRAME_BYTES: nat := 512
  const INT32_MIN: int := -0x8000_0000
  const INT32_MAX: nat := 0x7FFF_FFFF

  function Pow256(k: nat): nat {
    if k == 0 then 1 else 256 * Pow256(k - 1)
  }

  /** The `k` low bytes of `v`, least significant first. */
  function LeBytes(v: nat, k: nat): (s: string)
    ensures |s| == k && IsBytes(s)
  {
    if k == 0 then [] else [(v % 256) as char] + LeBytes(v / 256, k - 1)
  }

  function LeValue(s: string): nat {
    if s == [] then 0 else s[0] as int + 256 * LeValue(s[1..])
  }

  lemma {:induction false} LeRoundTrip(v: nat, k: nat)
    requires v < Pow256(k)
    ensures LeValue(LeBytes(v, k)) == v
  {
    if k > 0 {
      var s := LeBytes(v, k);
      assert s[1..] == LeBytes(v / 256, k - 1);
      LeRoundTrip(v / 256, k - 1);
    }
  }

  lemma Pow256Values()
    ensures Pow256(4) == UINT32 && Pow256(8) == UINT64
  {
    assert Pow256(2) == 0x1_0000;
    assert Pow256(4) == UINT32;
    assert Pow256(6) == 0x1_0000_0000_0000;
  }

  /** An `int` in two's complement. */
  function IntBytes(n: int): (s: string)
    requires INT32_MIN <= n <= INT32_MAX
    ensures |s| == 4
  {
    LeBytes(if n < 0 then n + UINT32 else n, 4)
  }

  function ReadInt(s: string): int {
    var v := LeValue(s);
    if v > INT32_MAX then v - UINT32 else v
  }

  lemma IntRoundTrip(n: int)
    requires INT32_MIN <= n <= INT32_MAX
    ensures ReadInt(IntBytes(n)) == n
  {
    Pow256Values();
    LeRoundTrip(if n < 0 then n + UINT32 else n, 4);
  }

  /** The memory image of a frame; four bytes of padding follow `line`. */
  function FrameBytes(f: Frame): (s: string)
    requires ValidFrame(f)
    ensures |s| == FRAME_BYTES
  {
    LeBytes(f.line, 4) + Zeros(4) + LeBytes(f.address, 8) + LeBytes(f.address2, 8)
    + f.obj + f.objPath + f.file + f.filePath + f.func
  }

  function ReadFrame(s: string): Frame
    requires |s| == FRAME_BYTES
  {
    Frame(LeValue(s[0..4]), LeValue(s[8..16]), LeValue(s[16..24]),
          s[24..80], s[80..128], s[128..192], s[192..256], s[256..512])
  }

  /** The last part of a prefix, and the prefix before it. */
  lemma LastPart(s: string, p: string, x: string)
    requires p + x <= s
    ensures p <= s && s[|p|..|p| + |x|] == x
  {
    assert s[..|p + x|] == p + x;
    assert s[|p|..|p| + |x|] == (p + x)[|p|..];
  }

  /** The fields of the image at their offsets. */
  lemma {:induction false} FrameParts(f: Frame)
    requires ValidFrame(f)
    ensures var s := FrameBytes(f);
      && s[0..4] == LeBytes(f.line, 4) && s[8..16] == LeBytes(f.address, 8) && s[16..24] == LeBytes(f.address2, 8)
      && s[24..80] == f.obj && s[80..128] == f.objPath && s[128..192] == f.file && s[192..256] == f.filePath
      && s[256..512] == f.func
  {
    hide LeBytes, IsBytes;
    var s := FrameBytes(f);
    var p1 := LeBytes(f.line, 4);
    var p2 := p1 + Zeros(4);
    var p3 := p2 + LeBytes(f.address, 8);
    var p4 := p3 + LeBytes(f.address2, 8);
    var p5 := p4 + f.obj;
    var p6 := p5 + f.objPath;
    var p7 := p6 + f.file;
    var p8 := p7 + f.filePath;
    assert s == p8 + f.func;
    hide FrameBytes;
    LastPart(s, p8, f.func);
    LastPart(s, p7, f.filePath);
    LastPart(s, p6, f.file);
    LastPart(s, p5, f.objPath);
    LastPart(s, p4, f.obj);
    LastPart(s, p3, LeBytes(f.address2, 8));
    LastPart(s, p2, LeBytes(f.address, 8));
    LastPart(s, p1, Zeros(4));
    assert s[..4] == p1;
  }

  lemma FrameRoundTrip(f: Frame)
    requires ValidFrame(f)
    ensures ReadFrame(FrameBytes(f)) == f
  {
    hide FrameBytes, LeBytes, LeValue, IsBytes;
    Pow256Values();
    LeRoundTrip(f.line, 4);
    LeRoundTrip(f.address, 8);
    LeRoundTrip(f.address2, 8);
    FrameParts(f);
  }

  /** Counts and numbers of children fit an `int`. */
  ghost predicate Encodable(t: Tree)
    decreases t, 1
  {
    INT32_MIN <= t.n <= INT32_MAX && ValidFrame(t.frame) && |t.kids| <= INT32_MAX && AllEncodable(t.kids)
  }

  ghost predicate AllEncodable(kids: seq<Tree>)
    decreases kids, 0
  {
    forall i | 0 <= i < |kids| :: Encodable(kids[i])
  }

  ghost function Header(t: Tree): (s: string)
    requires Encodable(t)
    ensures |s| == 8 + FRAME_BYTES
  {
    IntBytes(t.n) + FrameBytes(t.frame) + IntBytes(|t.kids|)
  }

  ghost function Encode(t: Tree): (s: string)
    requires Encodable(t)
    ensures |s| >= 8 + FRAME_BYTES
    decreases t, 1
  {
    Header(t) + EncodeAll(t.kids)
  }

  ghost function EncodeAll(kids: seq<Tree>): string
    requires AllEncodable(kids)
    decreases kids, 0
  {
    if kids == [] then [] else EncodeAll(kids[..|kids| - 1]) + Encode(kids[|kids| - 1])
  }

  lemma EncodeAllEmpty()
    ensures AllEncodable([]) && EncodeAll([]) == []
  {
  }

  lemma {:induction false} EncodeAllNext(kids: seq<Tree>, i: nat)
    requires AllEncodable(kids) && i < |kids|
    ensures EncodeAll(kids[..i + 1]) == EncodeAll(kids[..i]) + Encode(kids[i])
  {
    assert kids[..i + 1][..i] == kids[..i];
  }

  /** Every node takes the same number of bytes. */
  lemma {:induction false} EncodeLength(t: Tree)
    requires Encodable(t)
    ensures |Encode(t)| == (8 + FRAME_BYTES) * (1 + Nodes(t.kids))
    decreases t, 1
  {
    EncodeAllLength(t.kids);
  }

  lemma {:induction false} EncodeAllLength(kids: seq<Tree>)
    requires AllEncodable(kids)
    ensures |EncodeAll(kids)| == (8 + FRAME_BYTES) * Nodes(kids)
    decreases kids, 0
  {
    if kids != [] {
      var init, l := kids[..|kids| - 1], kids[|kids| - 1];
      assert kids == init + [l];
      EncodeAllLength(init);
      EncodeLength(l);
      NodesAppend(init, [l]);
      assert [l][1..] == [];
    }
  }

  lemma {:induction false} EncodeAllPrefix(kids: seq<Tree>, i: nat)
    requires AllEncodable(kids) && i <= |kids|
    ensures EncodeAll(kids[..i]) <= EncodeAll(kids)
    decreases |kids| - i
  {
    if i == |kids| {
      assert kids[..i] == kids;
    } else {
      EncodeAllNext(kids, i);
      EncodeAllPrefix(kids, i + 1);
    }
  }

  /** What the fixed part of a packed tree reads back as. */
  lemma {:induction false} HeaderReads(t: Tree, s: string)
    requires Encodable(t) && Header(t) <= s
    ensures ReadInt(s[..4]) == t.n && ReadFrame(s[4..516]) == t.frame && ReadInt(s[516..520]) == |t.kids|
  {
    IntRoundTrip(t.n);
    FrameRoundTrip(t.frame);
    IntRoundTrip(|t.kids|);
    var h := Header(t);
    assert h[..4] == IntBytes(t.n) && h[4..516] == FrameBytes(t.frame) && h[516..520] == IntBytes(|t.kids|);
    assert s[..4] == h[..4] && s[4..516] == h[4..516] && s[516..520] == h[516..520];
  }

  /** No packed tree is a proper prefix of another: packing is injective even with bytes following. */
  lemma {:induction false} EncodePrefixFree(t: Tree, u: Tree, a: string, b: string)
    requires Encodable(t) && Encodable(u) && Encode(t) + a == Encode(u) + b
    ensures t == u && a == b
    decreases t, 1
  {
    EncodeParts(t, a);
    EncodeParts(u, b);
    hide Encode, Header, EncodeAll, ReadInt, ReadFrame, ValidFrame;
    TailAll(t.kids);
    TailAll(u.kids);
    EncodeAllPrefixFree(t.kids, u.kids, 0, a, b);
    assert t.kids[0..] == t.kids && u.kids[0..] == u.kids;
  }

  /** The fixed part and the children of a packed tree with bytes following. */
  lemma {:induction false} EncodeParts(t: Tree, a: string)
    requires Encodable(t)
    ensures var s := Encode(t) + a;
      && ReadInt(s[..4]) == t.n && ReadFrame(s[4..516]) == t.frame && ReadInt(s[516..520]) == |t.kids|
      && s[520..] == EncodeAll(t.kids) + a
  {
    var s := Encode(t) + a;
    assert s == Header(t) + (EncodeAll(t.kids) + a);
    HeaderReads(t, s);
  }

  lemma TailAll(kids: seq<Tree>)
    requires AllEncodable(kids)
    ensures Tail(kids, 0) == EncodeAll(kids)
  {
    assert kids[..0] == [];
  }

  /** What remains of the children from `i` on. */
  ghost function Tail(kids: seq<Tree>, i: nat): string
    requires AllEncodable(kids) && i <= |kids|
  {
    EncodeAllPrefix(kids, i);
    EncodeAll(kids)[|EncodeAll(kids[..i])|..]
  }

  lemma {:induction false} TailNext(kids: seq<Tree>, i: nat)
    requires AllEncodable(kids) && i < |kids|
    ensures Tail(kids, i) == Encode(kids[i]) + Tail(kids, i + 1)
  {
    EncodeAllNext(kids, i);
    EncodeAllPrefix(kids, i);
    EncodeAllPrefix(kids, i + 1);
    var e, p := EncodeAll(kids), EncodeAll(kids[..i]);
    assert e == p + Encode(kids[i]) + e[|p| + |Encode(kids[i])|..];
  }

  lemma {:induction false} TailEnd(kids: seq<Tree>)
    requires AllEncodable(kids)
    ensures Tail(kids, |kids|) == []
  {
    assert kids[..|kids|] == kids;
  }

  lemma {:induction false} EncodeAllPrefixFree(k: seq<Tree>, l: seq<Tree>, i: nat, a: string, b: string)
    requires AllEncodable(k) && AllEncodable(l) && |k| == |l| && i <= |k|
    requires Tail(k, i) + a == Tail(l, i) + b
    ensures k[i..] == l[i..] && a == b
    decreases k, 0, |k| - i
  {
    hide EncodeAll, Encode, Encodable;
    if i == |k| {
      TailEnd(k);
      TailEnd(l);
      assert [] + a == a && [] + b == b;
    } else {
      TailNext(k, i);
      TailNext(l, i);
      assert Encode(k[i]) + (Tail(k, i + 1) + a) == Tail(k, i) + a;
      assert Encode(l[i]) + (Tail(l, i + 1) + b) == Tail(l, i) + b;
      EncodePrefixFree(k[i], l[i], Tail(k, i + 1) + a, Tail(l, i + 1) + b);
      EncodeAllPrefixFree(k, l, i + 1, a, b);
      assert k[i..] == [k[i]] + k[i + 1..] && l[i..] == [l[i]] + l[i + 1..];
    }
  }
}
