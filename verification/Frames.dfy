/** The stack frame record (`stack_info`) and its equality, which is not transitive in general. */
module Frames {

  // Capacities of the fixed-size character arrays of a frame.
  const OBJECT_SIZE: nat := 56
  const OBJECT_PATH_SIZE: nat := 48
  const FILE_SIZE: nat := 64
  const FILE_PATH_SIZE: nat := 64
  const FUNCTION_SIZE: nat := 256

  const UINT32: nat := 0x1_0000_0000
  const UINT64: nat := 0x1_0000_0000_0000_0000

  const NUL := 0 as char

  /** The text fields hold the whole array of the record, including what follows the first NUL. */
  datatype Frame = Frame(
    line: nat, address: nat, address2: nat,
    obj: string, objPath: string, file: string, filePath: string, func: string)

  function Zeros(n: nat): (s: string)
    ensures |s| == n
    ensures forall i | 0 <= i < n :: s[i] == NUL
  {
    seq(n, _ => NUL)
  }

  /** The frame left behind by `clear`. */
  function EmptyFrame(): Frame {
    Frame(0, 0, 0, Zeros(OBJECT_SIZE), Zeros(OBJECT_PATH_SIZE), Zeros(FILE_SIZE),
          Zeros(FILE_PATH_SIZE), Zeros(FUNCTION_SIZE))
  }

  /** A `char` array: every element is one byte. */
  predicate IsBytes(s: string) {
    forall i | 0 <= i < |s| :: s[i] as int < 256
  }

  /** What the C++ types of the record guarantee. */
  predicate ValidFrame(f: Frame) {
    && f.line < UINT32 && f.address < UINT64 && f.address2 < UINT64
    && |f.obj| == OBJECT_SIZE && |f.objPath| == OBJECT_PATH_SIZE
    && |f.file| == FILE_SIZE && |f.filePath| == FILE_PATH_SIZE && |f.func| == FUNCTION_SIZE
    && IsBytes(f.obj) && IsBytes(f.objPath) && IsBytes(f.file) && IsBytes(f.filePath) && IsBytes(f.func)
  }

  /** `operator==`: equal addresses, or equal second address and object. */
  predicate Same(a: Frame, b: Frame) {
    a.address == b.address || (a.address2 == b.address2 && a.obj == b.obj)
  }

  /** On the frames of `S` the comparison is transitive; being reflexive and symmetric anyway,
      it is an equivalence there. */
  ghost predicate Coherent(S: set<Frame>) {
    forall a, b, c | a in S && b in S && c in S && Same(a, b) && Same(b, c) :: Same(a, c)
  }

  /** `address` determines `(address2, object)` on `S`. */
  ghost predicate AddressDetermines(S: set<Frame>) {
    forall a, b | a in S && b in S && a.address == b.address :: a.address2 == b.address2 && a.obj == b.obj
  }

  ghost predicate AllIn(p: seq<Frame>, S: set<Frame>) {
    forall i | 0 <= i < |p| :: p[i] in S
  }

  /** A frame joined to one neighbour only by its address and to another only by `(address2, object)`. */
  ghost predicate Bridge(a: Frame, b: Frame, c: Frame) {
    && a.address == b.address && !(a.address2 == b.address2 && a.obj == b.obj)
    && b.address2 == c.address2 && b.obj == c.obj && b.address != c.address
  }

  /** Equality is an equivalence on a set of frames exactly when the set has no bridge. */
  lemma CoherentExactly(S: set<Frame>)
    ensures Coherent(S) <==> !exists a, b, c | a in S && b in S && c in S :: Bridge(a, b, c)
  {
    if a, b, c :| a in S && b in S && c in S && Bridge(a, b, c) {
      assert Same(a, b) && Same(b, c) && !Same(a, c);
    }
    if !Coherent(S) {
      var a, b, c :| a in S && b in S && c in S && Same(a, b) && Same(b, c) && !Same(a, c);
      assert Bridge(a, b, c) || Bridge(c, b, a);
    }
  }

  lemma AddressDeterminesCoherent(S: set<Frame>)
    requires AddressDetermines(S)
    ensures Coherent(S)
  {
    CoherentExactly(S);
  }

  /** Equal frames are equal to the same frames. */
  lemma SameShift(S: set<Frame>, a: Frame, b: Frame, c: Frame)
    requires Coherent(S) && a in S && b in S && c in S && Same(a, b)
    ensures Same(a, c) <==> Same(b, c)
  {
    assert Same(b, a);
  }

  /** Symbol resolution is a function of the address, so the frames of one process are coherent. */
  lemma ResolvedCoherent(resolve: nat -> Frame, addresses: set<nat>, S: set<Frame>)
    requires forall x | x in addresses :: resolve(x).address == x
    requires S == set x | x in addresses :: resolve(x)
    ensures Coherent(S)
  {
    assert AddressDetermines(S);
    AddressDeterminesCoherent(S);
  }

  /** Three frames on which equality is not transitive. */
  lemma SameNotTransitive()
    ensures exists a, b, c :: Same(a, b) && Same(b, c) && !Same(a, c)
  {
    var b := EmptyFrame();
    var a := b.(address2 := 1);
    var c := b.(address := 2);
    assert Same(a, b) && Same(b, c) && !Same(a, c);
  }
}
