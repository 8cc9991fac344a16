/** The bounded vector and the grouping of frames by object before `addr2line` is called. */
module Batching {
  import opened Frames
  import opened Strings
  import opened Hashing

  // ---- Hash keys ----

  function Number(v: bv32): nat {
    v as nat
  }

  function Pack(high: nat, low: nat): nat {
    high * UINT32 + low
  }

  /** The 64-bit key made from the two hashes of a frame. */
  function Key(v1: bv32, v2: bv32): nat {
    Pack(Number(v1), Number(v1 ^ v2))
  }

  /** `objHash`. */
  function ObjHash(f: Frame): nat {
    Key(HashString(f.obj), HashString(f.objPath))
  }

  lemma NumberInjective(v: bv32, w: bv32)
    ensures Number(v) < UINT32
    ensures Number(v) == Number(w) ==> v == w
  {
    assert (v as nat) as bv32 == v && (w as nat) as bv32 == w;
  }

  lemma PackInjective(h1: nat, l1: nat, h2: nat, l2: nat)
    requires h1 < UINT32 && l1 < UINT32 && h2 < UINT32 && l2 < UINT32
    ensures Pack(h1, l1) < UINT64
    ensures Pack(h1, l1) == Pack(h2, l2) ==> h1 == h2 && l1 == l2
  {
  }

  lemma XorCancels(v: bv32, w: bv32)
    ensures v ^ (v ^ w) == w
  {
  }

  /** Keys fit 64 bits, and are equal only when both hashes are. */
  lemma KeyInjective(v1: bv32, v2: bv32, w1: bv32, w2: bv32)
    ensures Key(v1, v2) < UINT64
    ensures Key(v1, v2) == Key(w1, w2) ==> v1 == w1 && v2 == w2
  {
    hide Number, Pack;
    NumberInjective(v1, w1);
    NumberInjective(w1, v1);
    NumberInjective(v1 ^ v2, w1 ^ w2);
    NumberInjective(w1 ^ w2, v1 ^ v2);
    PackInjective(Number(v1), Number(v1 ^ v2), Number(w1), Number(w1 ^ w2));
    XorCancels(v1, v2); XorCancels(w1, w2);
  }

  /** The key is the pair of the hashes of the texts of a frame, up to the first NUL of each. */
  lemma KeyExactly(f: Frame, g: Frame)
    ensures CStr(f.obj) == CStr(g.obj) && CStr(f.objPath) == CStr(g.objPath) ==> ObjHash(f) == ObjHash(g)
    ensures ObjHash(f) == ObjHash(g) <==>
            HashString(f.obj) == HashString(g.obj) && HashString(f.objPath) == HashString(g.objPath)
  {
    hide HashString, Key;
    KeyInjective(HashString(f.obj), HashString(f.objPath), HashString(g.obj), HashString(g.objPath));
    if CStr(f.obj) == CStr(g.obj) && CStr(f.objPath) == CStr(g.objPath) {
      HashSame(f.obj, g.obj);
      HashSame(f.objPath, g.objPath);
    }
  }

  /** One of the two texts is the same in both frames, and the other differs in one character. */
  ghost predicate OneCharacterApart(f: Frame, g: Frame) {
    || (CStr(f.objPath) == CStr(g.objPath) && DifferInOne(CStr(f.obj), CStr(g.obj)))
    || (CStr(f.obj) == CStr(g.obj) && DifferInOne(CStr(f.objPath), CStr(g.objPath)))
  }

  lemma ApartInKey(f: Frame, g: Frame)
    requires ValidFrame(f) && ValidFrame(g) && OneCharacterApart(f, g)
    ensures ObjHash(f) != ObjHash(g)
  {
    hide HashString, ObjHash, DifferInOne, CStr;
    KeyExactly(f, g);
    if DifferInOne(CStr(f.obj), CStr(g.obj)) {
      HashDiffers(f.obj, g.obj);
    } else {
      HashDiffers(f.objPath, g.objPath);
    }
  }

  // ---- Sorting ----

  ghost predicate TotalOrder<T(!new)>(le: (T, T) -> bool) {
    && (forall a, b :: le(a, b) || le(b, a))
    && (forall a, b :: le(a, b) && le(b, a) ==> a == b)
    && (forall a, b, c :: le(a, b) && le(b, c) ==> le(a, c))
  }

  ghost predicate Sorted<T>(le: (T, T) -> bool, s: seq<T>) {
    forall i, j | 0 <= i < j < |s| :: le(s[i], s[j])
  }

  ghost predicate NoDuplicates<T>(s: seq<T>) {
    forall i, j | 0 <= i < j < |s| :: s[i] != s[j]
  }

  /** `s` with `x` sunk to its place from the right. */
  function Sunk<T>(le: (T, T) -> bool, s: seq<T>, x: T): (r: seq<T>)
    ensures |r| == |s| + 1
  {
    if s == [] || le(s[|s| - 1], x) then s + [x]
    else Sunk(le, s[..|s| - 1], x) + [s[|s| - 1]]
  }

  lemma SunkStep<T>(le: (T, T) -> bool, s: seq<T>, j: nat, x: T, tail: seq<T>)
    requires 0 < j <= |s| && !le(s[j - 1], x)
    ensures Sunk(le, s[..j], x) + tail == Sunk(le, s[..j - 1], x) + ([s[j - 1]] + tail)
  {
    assert s[..j][..j - 1] == s[..j - 1];
  }

  lemma SunkStop<T>(le: (T, T) -> bool, s: seq<T>, x: T)
    requires s == [] || le(s[|s| - 1], x)
    ensures Sunk(le, s, x) == s + [x]
  {
  }

  function SortedSeq<T>(le: (T, T) -> bool, s: seq<T>): (r: seq<T>)
    ensures |r| == |s|
  {
    if s == [] then [] else Sunk(le, SortedSeq(le, s[..|s| - 1]), s[|s| - 1])
  }

  lemma {:induction false} SunkPermutes<T>(le: (T, T) -> bool, s: seq<T>, x: T)
    ensures multiset(Sunk(le, s, x)) == multiset(s) + multiset{x}
  {
    if s != [] && !le(s[|s| - 1], x) {
      SunkPermutes(le, s[..|s| - 1], x);
      assert s == s[..|s| - 1] + [s[|s| - 1]];
    }
  }

  lemma {:induction false} SunkSorted<T(!new)>(le: (T, T) -> bool, s: seq<T>, x: T)
    requires TotalOrder(le) && Sorted(le, s)
    ensures Sorted(le, Sunk(le, s, x))
  {
    if s == [] {
    } else if le(s[|s| - 1], x) {
      forall i | 0 <= i < |s| ensures le(s[i], x) {
        assert i < |s| - 1 ==> le(s[i], s[|s| - 1]);
      }
    } else {
      var s', l := s[..|s| - 1], s[|s| - 1];
      SunkSorted(le, s', x);
      var r := Sunk(le, s', x);
      SunkPermutes(le, s', x);
      forall i | 0 <= i < |r| ensures le(r[i], l) {
        assert r[i] in multiset(r);
        assert r[i] == x || r[i] in multiset(s');
        if r[i] != x {
          var j :| 0 <= j < |s'| && s'[j] == r[i];
          assert le(s[j], s[|s| - 1]);
        }
      }
    }
  }

  /** `SortedSeq` sorts: the result is ordered and a permutation. */
  lemma {:induction false} SortedSeqSorts<T(!new)>(le: (T, T) -> bool, s: seq<T>)
    requires TotalOrder(le)
    ensures Sorted(le, SortedSeq(le, s)) && multiset(SortedSeq(le, s)) == multiset(s)
  {
    if s != [] {
      var s', l := s[..|s| - 1], s[|s| - 1];
      SortedSeqSorts(le, s');
      SunkSorted(le, SortedSeq(le, s'), l);
      SunkPermutes(le, SortedSeq(le, s'), l);
      assert s == s' + [l];
    }
  }

  lemma {:induction false} NoDuplicatesCount<T>(s: seq<T>)
    ensures NoDuplicates(s) <==> forall x | x in multiset(s) :: multiset(s)[x] == 1
    decreases s
  {
    if s != [] {
      var s', l := s[..|s| - 1], s[|s| - 1];
      assert s == s' + [l];
      NoDuplicatesCount(s');
      if NoDuplicates(s) {
        assert l !in multiset(s');
        assert NoDuplicates(s');
      }
      if forall x | x in multiset(s) :: multiset(s)[x] == 1 {
        assert multiset(s)[l] == multiset(s')[l] + 1;
        forall x | x in multiset(s') ensures multiset(s')[x] == 1 {
          assert x in multiset(s);
        }
        assert l !in s';
      }
    }
  }

  // ---- The bounded vector ----

  /** `staticVector`: at most `data.Length` elements, kept in place. */
  class StaticVector<T(==, 0)> {
    var size: nat
    const data: array<T>

    ghost predicate Valid()
      reads this
    {
      size <= data.Length
    }

    ghost function Contents(): seq<T>
      reads this, data
      requires Valid()
    {
      data[..size]
    }

    constructor (capacity: nat)
      ensures Valid() && fresh(data) && data.Length == capacity && Contents() == []
    {
      data := new T[capacity];
      size := 0;
    }

    /** Silently ignores the element when the vector is full. */
    method PushBack(v: T)
      requires Valid()
      modifies this, data
      ensures Valid()
      ensures Contents() == if old(size) < data.Length then old(Contents()) + [v] else old(Contents())
    {
      if size < data.Length {
        data[size] := v;
        size := size + 1;
      }
    }

    method Clear()
      requires Valid()
      modifies this
      ensures Valid() && Contents() == []
    {
      size := 0;
    }

    /** False stands for the `logic_error`. */
    method Resize(n: nat, x: T) returns (ok: bool)
      requires Valid()
      modifies this, data
      ensures Valid() && (ok <==> n <= data.Length)
      ensures Contents() == if !ok then old(Contents())
                            else if n <= |old(Contents())| then old(Contents())[..n]
                            else old(Contents()) + seq(n - |old(Contents())|, _ => x)
    {
      if n > data.Length { return false; }
      ghost var o := Contents();
      if size < n {
        for i := size to n
          invariant size == old(size) && data[..size] == o
          invariant forall j | size <= j < i :: data[j] == x
        {
          data[i] := x;
        }
      }
      size := n;
      ok := true;
    }

    method FindIndex(x: T) returns (i: nat)
      requires Valid()
      ensures i <= size && x !in Contents()[..i] && (i < size ==> Contents()[i] == x)
    {
      i := 0;
      while i < size
        invariant i <= size && x !in data[..i]
      {
        if data[i] == x { return; }
        i := i + 1;
      }
    }

    /** Removes every `x`, moving the others down. */
    method Erase(x: T)
      requires Valid()
      modifies this, data
      ensures Valid() && Contents() == Without(old(Contents()), x)
    {
      ghost var o := Contents();
      assert o[..0] == [];
      var n := 0;
      for i := 0 to size
        invariant n <= i && size == old(size) && data[..n] == Without(o[..i], x)
        invariant data[i..size] == o[i..]
      {
        assert data[i] == data[i..size][0] == o[i];
        assert data[i + 1..size] == data[i..size][1..] == o[i + 1..];
        assert o[..i + 1][..i] == o[..i];
        if data[i] != x {
          data[n] := data[i];
          n := n + 1;
        }
      }
      assert o[..size] == o;
      size := n;
    }

    /** `std::sort` of the elements. */
    method Sort(le: (T, T) -> bool)
      requires Valid()
      modifies data
      ensures Valid() && Contents() == SortedSeq(le, old(Contents()))
    {
      ghost var o := Contents();
      assert o[..0] == [];
      for i := 0 to size
        invariant data[..i] == SortedSeq(le, o[..i]) && data[i..size] == o[i..]
      {
        assert data[i] == data[i..size][0] == o[i];
        assert data[i + 1..size] == data[i..size][1..] == o[i + 1..];
        assert o[..i + 1][..i] == o[..i];
        ghost var tail := data[i + 1..];
        assert tail[..size - i - 1] == o[i + 1..];
        Sink(le, i);
        assert data[i + 1..size] == data[i + 1..][..size - i - 1] == tail[..size - i - 1];
      }
      assert o[..size] == o;
    }

    /** Move element `i` to its place among the sorted ones before it. */
    method Sink(le: (T, T) -> bool, i: nat)
      requires Valid() && i < size
      modifies data
      ensures data[..i + 1] == Sunk(le, old(data[..i]), old(data[i])) && data[i + 1..] == old(data[i + 1..])
    {
      hide Sunk;
      ghost var x, s := data[i], data[..i];
      var j := i;
      assert s[..j] == s && Sunk(le, s, x) + [] == Sunk(le, s, x);
      while j > 0 && !le(data[j - 1], data[j])
        invariant j <= i && data[..j] == s[..j] && data[j] == x
        invariant data[i + 1..] == old(data[i + 1..])
        invariant Sunk(le, s[..j], x) + data[j + 1..i + 1] == Sunk(le, s, x)
      {
        ghost var tail := data[j + 1..i + 1];
        assert data[j - 1] == s[..j][j - 1] && data[..j - 1] == s[..j][..j - 1];
        SunkStep(le, s, j, x, tail);
        data[j - 1], data[j] := data[j], data[j - 1];
        j := j - 1;
        assert data[j + 1..i + 1] == [s[j]] + tail;
      }
      assert j > 0 ==> s[..j][j - 1] == data[j - 1];
      SunkStop(le, s[..j], x);
      assert data[..i + 1] == data[..j] + [data[j]] + data[j + 1..i + 1];
    }

    /** `insert`: nothing for an element already there; otherwise append (if there is room) and sort. */
    method Insert(le: (T, T) -> bool, x: T)
      requires Valid()
      modifies this, data
      ensures Valid()
      ensures Contents() == Inserted(le, old(Contents()), x, data.Length)
    {
      var i := FindIndex(x);
      if i == size {
        assert Contents()[..size] == Contents();
        PushBack(x);
        Sort(le);
      } else {
        assert Contents()[i] == x;
      }
    }
  }

  function Without<T(==)>(s: seq<T>, x: T): (r: seq<T>)
    ensures x !in r && |r| <= |s|
  {
    if s == [] then []
    else if s[|s| - 1] == x then Without(s[..|s| - 1], x)
    else Without(s[..|s| - 1], x) + [s[|s| - 1]]
  }

  function Inserted<T(==)>(le: (T, T) -> bool, s: seq<T>, x: T, capacity: nat): seq<T> {
    if x in s then s
    else if |s| < capacity then SortedSeq(le, s + [x])
    else SortedSeq(le, s)
  }

  /** `insert` keeps the vector sorted and free of duplicates, and adds just the new element. */
  lemma {:induction false} InsertedKeeps<T(!new)>(le: (T, T) -> bool, s: seq<T>, x: T, capacity: nat)
    requires TotalOrder(le) && Sorted(le, s) && NoDuplicates(s)
    ensures var r := Inserted(le, s, x, capacity);
      && Sorted(le, r) && NoDuplicates(r)
      && (|s| < capacity ==> forall y :: y in r <==> y in s || y == x)
      && (|s| >= capacity ==> forall y :: y in r <==> y in s)
      && |r| <= |s| + 1 && (|s| <= capacity ==> |r| <= capacity)
  {
    hide SortedSeq, TotalOrder, Sorted;
    if x !in s {
      var t := if |s| < capacity then s + [x] else s;
      assert NoDuplicates(t);
      SortedSeqSorts(le, t);
      SamePermutation(t, SortedSeq(le, t));
    }
  }

  lemma {:induction false} SamePermutation<T(!new)>(s: seq<T>, r: seq<T>)
    requires multiset(s) == multiset(r) && NoDuplicates(s)
    ensures NoDuplicates(r) && forall y :: y in r <==> y in s
  {
    hide NoDuplicates;
    NoDuplicatesCount(s);
    NoDuplicatesCount(r);
    forall y ensures y in r <==> y in s {
      assert y in r <==> y in multiset(r);
      assert y in s <==> y in multiset(s);
    }
  }

  // ---- Grouping ----

  const BLOCK: nat := 256

  ghost function Flat(batches: seq<seq<nat>>): seq<nat> {
    if batches == [] then [] else Flat(batches[..|batches| - 1]) + batches[|batches| - 1]
  }

  /** How often `i` occurs in `s`. */
  ghost function Times(s: seq<nat>, i: nat): nat {
    if s == [] then 0 else Times(s[..|s| - 1], i) + if s[|s| - 1] == i then 1 else 0
  }

  lemma {:induction false} TimesAppend(a: seq<nat>, b: seq<nat>, i: nat)
    ensures Times(a + b, i) == Times(a, i) + Times(b, i)
    decreases b
  {
    if b == [] {
      assert a + b == a;
    } else {
      assert (a + b)[..|a + b| - 1] == a + b[..|b| - 1];
      TimesAppend(a, b[..|b| - 1], i);
    }
  }

  /** Frames of `[lo, hi)` with key `h`, in order. */
  ghost function OfKey(info: seq<Frame>, h: nat, lo: nat, hi: nat): seq<nat>
    requires lo <= hi <= |info|
    decreases hi
  {
    if lo == hi then [] else OfKey(info, h, lo, hi - 1) + if ObjHash(info[hi - 1]) == h then [hi - 1] else []
  }

  /** A list handed to `getFileAndLineObject`: some frames of one object, at most 256. */
  ghost predicate GoodBatch(info: seq<Frame>, b: seq<nat>) {
    && 0 < |b| <= BLOCK
    && (forall j | 0 <= j < |b| :: b[j] < |info|)
    && forall j | 0 <= j < |b| :: ObjHash(info[b[j]]) == ObjHash(info[b[0]])
  }

  ghost predicate GoodBatches(info: seq<Frame>, batches: seq<seq<nat>>) {
    forall i | 0 <= i < |batches| :: GoodBatch(info, batches[i])
  }

  /** How often frame `i` was handed over after all of `[0, i0)` and the keys `keys` of `[i0, hi)`. */
  ghost function Expected(info: seq<Frame>, i0: nat, hi: nat, keys: seq<nat>, i: nat): nat
    requires i0 <= hi <= |info|
  {
    if i < i0 then 1 else if i < hi && ObjHash(info[i]) in keys then 1 else 0
  }

  lemma {:induction false} OfKeyCount(info: seq<Frame>, h: nat, lo: nat, hi: nat, i: nat)
    requires lo <= hi <= |info|
    ensures Times(OfKey(info, h, lo, hi), i) == if lo <= i < hi && ObjHash(info[i]) == h then 1 else 0
    decreases hi
  {
    hide ObjHash;
    if lo < hi {
      OfKeyCount(info, h, lo, hi - 1, i);
      var o := OfKey(info, h, lo, hi - 1);
      assert (o + [hi - 1])[..|o|] == o && o + [] == o;
    }
  }

  lemma {:induction false} FlatAdd(batches: seq<seq<nat>>, b: seq<nat>)
    ensures Flat(batches + [b]) == Flat(batches) + b
  {
    assert (batches + [b])[..|batches|] == batches;
  }

  /** One call of `getFileAndLineObject`, which returns at once for an empty list. */
  function Handed(batches: seq<seq<nat>>, list: seq<nat>): seq<seq<nat>> {
    if list == [] then batches else batches + [list]
  }

  /** Frames of one key. */
  ghost predicate Alike(info: seq<Frame>, h: nat, list: seq<nat>) {
    forall j | 0 <= j < |list| :: list[j] < |info| && ObjHash(info[list[j]]) == h
  }

  lemma {:induction false} HandedKeeps(info: seq<Frame>, h: nat, batches: seq<seq<nat>>, list: seq<nat>)
    requires GoodBatches(info, batches) && Alike(info, h, list) && |list| <= BLOCK
    ensures GoodBatches(info, Handed(batches, list)) && Flat(Handed(batches, list)) == Flat(batches) + list
  {
    hide ObjHash, Flat, Alike, GoodBatch, GoodBatches;
    FlatAdd(batches, list);
    if list == [] {
      assert Flat(batches) + [] == Flat(batches);
    } else {
      AlikeIsGood(info, h, list);
      GoodAdd(info, batches, list);
    }
  }

  lemma AlikeIsGood(info: seq<Frame>, h: nat, list: seq<nat>)
    requires Alike(info, h, list) && 0 < |list| <= BLOCK
    ensures GoodBatch(info, list)
  {
    hide ObjHash;
  }

  lemma GoodAdd(info: seq<Frame>, batches: seq<seq<nat>>, b: seq<nat>)
    requires GoodBatches(info, batches) && GoodBatch(info, b)
    ensures GoodBatches(info, batches + [b])
  {
    hide GoodBatch;
  }

  lemma Reassociate(a: seq<nat>, l: seq<nat>, b: seq<nat>, o: seq<nat>, x: seq<nat>)
    requires a + l == b + o
    ensures a + (l + x) == b + (o + x)
  {
    assert a + (l + x) == a + l + x && b + (o + x) == b + o + x;
  }

  /** All lists from `n` on hold 256 frames. */
  predicate Full(lists: seq<seq<nat>>, n: nat) {
    forall j | n <= j < |lists| :: |lists[j]| == BLOCK
  }

  /** The frames of one object in `[lo, hi)`, in lists of 256; only the last list may be shorter. */
  method HandOver(info: seq<Frame>, lo: nat, hi: nat, h: nat, batches: seq<seq<nat>>) returns (r: seq<seq<nat>>)
    requires lo <= hi <= |info| && GoodBatches(info, batches)
    ensures GoodBatches(info, r) && Flat(r) == Flat(batches) + OfKey(info, h, lo, hi)
    ensures |batches| <= |r| && r[..|batches|] == batches
    ensures forall j | |batches| <= j < |r| - 1 :: |r[j]| == 256
  {
    hide ObjHash, Flat, GoodBatches, GoodBatch, OfKey, Times, Alike;
    r := batches;
    var list := new StaticVector<nat>(BLOCK);
    assert Flat(r) + [] == Flat(r);
    OfKeyNone(info, h, lo);
    AlikeNone(info, h);
    for i := lo to hi
      invariant list.Valid() && fresh(list) && fresh(list.data) && list.data.Length == BLOCK
      invariant |list.Contents()| < BLOCK
      invariant GoodBatches(info, r) && Alike(info, h, list.Contents())
      invariant Flat(r) + list.Contents() == Flat(batches) + OfKey(info, h, lo, i)
      invariant |batches| <= |r| && r[..|batches|] == batches && Full(r, |batches|)
    {
      Reassociate(Flat(r), list.Contents(), Flat(batches), OfKey(info, h, lo, i),
                  if ObjHash(info[i]) == h then [i] else []);
      OfKeyNext(info, h, lo, i);
      if ObjHash(info[i]) == h {
        AlikeMore(info, h, list.Contents(), i);
        list.PushBack(i);
      }
      if list.size == list.data.Length {
        HandedKeeps(info, h, r, list.Contents());
        r := Handed(r, list.data[..list.size]);
        list.Clear();
        assert Flat(r) + [] == Flat(r);
      }
    }
    HandedKeeps(info, h, r, list.Contents());
    r := Handed(r, list.data[..list.size]);
  }

  lemma AlikeNone(info: seq<Frame>, h: nat)
    ensures Alike(info, h, [])
  {
  }

  lemma AlikeMore(info: seq<Frame>, h: nat, list: seq<nat>, i: nat)
    requires Alike(info, h, list) && i < |info| && ObjHash(info[i]) == h
    ensures Alike(info, h, list + [i])
  {
    hide ObjHash;
  }

  lemma OfKeyNone(info: seq<Frame>, h: nat, lo: nat)
    requires lo <= |info|
    ensures OfKey(info, h, lo, lo) == []
  {
  }

  lemma OfKeyNext(info: seq<Frame>, h: nat, lo: nat, i: nat)
    requires lo <= i < |info|
    ensures OfKey(info, h, lo, i + 1) == OfKey(info, h, lo, i) + if ObjHash(info[i]) == h then [i] else []
  {
  }

  function Less(a: nat, b: nat): bool {
    a <= b
  }

  lemma LessIsTotal()
    ensures TotalOrder(Less)
  {
  }

  /** The keys of frames from `i0` on, until 256 different ones are found. */
  method CollectKeys(info: seq<Frame>, i0: nat) returns (keys: seq<nat>, hi: nat)
    requires i0 < |info|
    ensures i0 < hi <= |info| && Sorted(Less, keys) && NoDuplicates(keys) && |keys| <= BLOCK
    ensures forall h :: h in keys <==> exists i :: i0 <= i < hi && ObjHash(info[i]) == h
    ensures |keys| < BLOCK ==> hi == |info|
  {
    hide ObjHash;
    LessIsTotal();
    hide Less, TotalOrder;
    var v := new StaticVector<nat>(BLOCK);
    hi := i0;
    while hi < |info| && v.size < v.data.Length
      invariant v.Valid() && fresh(v) && fresh(v.data) && v.data.Length == BLOCK
      invariant i0 <= hi <= |info| && (v.size == 0 <==> hi == i0)
      invariant Sorted(Less, v.Contents()) && NoDuplicates(v.Contents())
      invariant forall h :: h in v.Contents() <==> exists i :: i0 <= i < hi && ObjHash(info[i]) == h
      decreases |info| - hi
    {
      ghost var s, x := v.Contents(), ObjHash(info[hi]);
      InsertedKeeps(Less, s, x, BLOCK);
      v.Insert(Less, ObjHash(info[hi]));
      KeysGrow(info, i0, hi, s, v.Contents());
      hi := hi + 1;
    }
    keys := v.data[..v.size];
  }

  lemma {:induction false} KeysGrow(info: seq<Frame>, i0: nat, hi: nat, s: seq<nat>, r: seq<nat>)
    requires i0 <= hi < |info|
    requires forall h :: h in s <==> exists i :: i0 <= i < hi && ObjHash(info[i]) == h
    requires forall y :: y in r <==> y in s || y == ObjHash(info[hi])
    ensures forall h :: h in r <==> exists i :: i0 <= i < hi + 1 && ObjHash(info[i]) == h
    ensures |r| > 0
  {
    hide ObjHash;
    assert ObjHash(info[hi]) in r;
    forall h ensures h in r <==> exists i :: i0 <= i < hi + 1 && ObjHash(info[i]) == h {
      if h in s {
        var i :| i0 <= i < hi && ObjHash(info[i]) == h;
        assert i0 <= i < hi + 1 && ObjHash(info[i]) == h;
      }
    }
  }

  /** `getFileAndLine`: it terminates, every frame is in exactly one batch, and no batch holds frames of
      objects whose name or path differ in one character. */
  method GetFileAndLine(info: seq<Frame>) returns (batches: seq<seq<nat>>)
    ensures GoodBatches(info, batches)
    ensures forall i: nat :: Times(Flat(batches), i) == if i < |info| then 1 else 0
    ensures forall b, j, k | 0 <= b < |batches| && 0 <= j < |batches[b]| && 0 <= k < |batches[b]| ::
              NotApart(info[batches[b][j]], info[batches[b][k]])
  {
    hide ObjHash;
    batches := [];
    var i0 := 0;
    while i0 < |info|
      invariant i0 <= |info| && GoodBatches(info, batches)
      invariant forall i: nat :: Times(Flat(batches), i) == if i < i0 then 1 else 0
      decreases |info| - i0
    {
      var keys, hi := CollectKeys(info, i0);
      for a := 0 to |keys|
        invariant GoodBatches(info, batches)
        invariant forall i: nat :: Times(Flat(batches), i) == Expected(info, i0, hi, keys[..a], i)
      {
        ghost var before := batches;
        batches := HandOver(info, i0, hi, keys[a], batches);
        AllExpected(info, i0, hi, keys, a, Flat(before), Flat(batches));
      }
      assert keys[..|keys|] == keys;
      hide Flat;
      i0 := hi;
    }
    BatchesNotApart(info, batches);
  }

  ghost predicate NotApart(f: Frame, g: Frame) {
    ValidFrame(f) && ValidFrame(g) ==> !OneCharacterApart(f, g)
  }

  lemma {:induction false} BatchesNotApart(info: seq<Frame>, batches: seq<seq<nat>>)
    requires GoodBatches(info, batches)
    ensures forall b, j, k | 0 <= b < |batches| && 0 <= j < |batches[b]| && 0 <= k < |batches[b]| ::
              NotApart(info[batches[b][j]], info[batches[b][k]])
  {
    hide ObjHash, OneCharacterApart, ValidFrame;
    forall b, j, k | 0 <= b < |batches| && 0 <= j < |batches[b]| && 0 <= k < |batches[b]|
      ensures NotApart(info[batches[b][j]], info[batches[b][k]])
    {
      assert GoodBatch(info, batches[b]);
      var f, g := info[batches[b][j]], info[batches[b][k]];
      assert ObjHash(f) == ObjHash(g);
      if ValidFrame(f) && ValidFrame(g) && OneCharacterApart(f, g) {
        ApartInKey(f, g);
      }
    }
  }

  /** Handing over the frames of one more key. */
  lemma {:induction false} AllExpected(info: seq<Frame>, i0: nat, hi: nat, keys: seq<nat>, a: nat, before: seq<nat>,
                                       after: seq<nat>)
    requires i0 <= hi <= |info| && NoDuplicates(keys) && a < |keys|
    requires forall i: nat :: Times(before, i) == Expected(info, i0, hi, keys[..a], i)
    requires after == before + OfKey(info, keys[a], i0, hi)
    ensures forall i: nat :: Times(after, i) == Expected(info, i0, hi, keys[..a + 1], i)
  {
    hide ObjHash, OfKey;
    NewKey(keys, a);
    forall i: nat ensures Times(after, i) == Expected(info, i0, hi, keys[..a + 1], i) {
      OfKeyCount(info, keys[a], i0, hi, i);
      assert Times(before, i) == Expected(info, i0, hi, keys[..a], i);
      TimesAppend(before, OfKey(info, keys[a], i0, hi), i);
    }
  }

  lemma NewKey(keys: seq<nat>, a: nat)
    requires NoDuplicates(keys) && a < |keys|
    ensures keys[a] !in keys[..a] && forall h :: h in keys[..a + 1] <==> h in keys[..a] || h == keys[a]
  {
    assert keys[..a + 1] == keys[..a] + [keys[a]];
  }
}
