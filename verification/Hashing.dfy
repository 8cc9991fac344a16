/** `hashString`, and what its values say about the texts. */
module Hashing {
  import opened Frames
  import opened Strings

  function Word(b: nat): bv32
    requires b < 256
  {
    b as bv8 as bv32
  }

  /** The word of a negative `char`. */
  function Negative(v: bv32): bv32 {
    v | 0xFFFF_FF00
  }

  /** A `char` converted to `uint32_t`; plain `char` is signed here. */
  function CharWord(c: char): bv32 {
    var b := c as int % 256;
    if b < 128 then Word(b) else Negative(Word(b))
  }

  /** One step of the hash, for one character. */
  function Mix(hash: bv32, word: bv32): bv32 {
    Xor((hash << 5) + hash, word)
  }

  function Xor(v: bv32, w: bv32): bv32 {
    v ^ w
  }

  function HashFrom(hash: bv32, s: string): bv32
    decreases s
  {
    if s == [] || s[0] == NUL then hash else HashFrom(Mix(hash, CharWord(s[0])), s[1..])
  }

  /** `hashString`. */
  function HashString(s: string): bv32 {
    HashFrom(5381, s)
  }

  // ---- One step ----

  function Times33(h: bv32): bv32 {
    (h << 5) + h
  }

  /** Seven terms of the series of the inverse of 33 are all of it in 32 bits. */
  function Undone(y: bv32): bv32 {
    y - (y << 5) + (y << 10) - (y << 15) + (y << 20) - (y << 25) + (y << 30)
  }

  lemma Times33Undone(h: bv32)
    ensures Undone(Times33(h)) == h
  {
  }

  lemma Times33Injective(h1: bv32, h2: bv32)
    requires Times33(h1) == Times33(h2)
    ensures h1 == h2
  {
    hide Times33, Undone;
    Times33Undone(h1);
    Times33Undone(h2);
  }

  lemma XorOut(a: bv32, b: bv32, w: bv32)
    requires Xor(a, w) == Xor(b, w)
    ensures a == b
  {
    assert (a ^ w) ^ w == a && (b ^ w) ^ w == b;
  }

  lemma XorIn(a: bv32, v: bv32, w: bv32)
    requires Xor(a, v) == Xor(a, w)
    ensures v == w
  {
    assert a ^ (a ^ v) == v && a ^ (a ^ w) == w;
  }

  lemma MixIs(h: bv32, w: bv32)
    ensures Mix(h, w) == Xor(Times33(h), w)
  {
  }

  /** A step is a bijection in the hash, and injective in the character. */
  lemma MixInjective(h1: bv32, h2: bv32, v: bv32, w: bv32)
    ensures Mix(h1, w) == Mix(h2, w) ==> h1 == h2
    ensures Mix(h1, v) == Mix(h1, w) ==> v == w
  {
    hide Mix, Times33, Xor;
    MixIs(h1, v);
    MixIs(h1, w);
    MixIs(h2, w);
    if Mix(h1, w) == Mix(h2, w) {
      XorOut(Times33(h1), Times33(h2), w);
      Times33Injective(h1, h2);
    }
    if Mix(h1, v) == Mix(h1, w) {
      XorIn(Times33(h1), v, w);
    }
  }

  lemma NextByte(v: bv8)
    requires v < 255
    ensures (v + 1) as nat == v as nat + 1
  {
  }

  lemma ByteBelow(v: bv8)
    ensures v as nat < 255 ==> v < 255
    ensures (v as nat) as bv8 == v
  {
  }

  lemma {:induction false} ByteFor(b: nat) returns (v: bv8)
    requires b < 256
    ensures v as nat == b
  {
    if b == 0 {
      v := 0;
    } else {
      v := ByteFor(b - 1);
      ByteBelow(v);
      NextByte(v);
      v := v + 1;
    }
  }

  lemma ByteBack(b: nat)
    requires b < 256
    ensures (b as bv8) as nat == b
  {
    var v := ByteFor(b);
    ByteBelow(v);
  }

  lemma Widened(v: bv8, w: bv8)
    ensures v as bv32 < 256
    ensures v as bv32 == w as bv32 ==> v == w
  {
  }

  lemma WordSmall(b: nat)
    requires b < 256
    ensures Word(b) < 256
  {
    Widened(b as bv8, 0);
  }

  lemma WordInjective(b: nat, e: nat)
    requires b < 256 && e < 256 && Word(b) == Word(e)
    ensures b == e
  {
    Widened(b as bv8, e as bv8);
    ByteBack(b);
    ByteBack(e);
  }

  lemma NegativeInjective(b: nat, e: nat)
    requires b < 256 && e < 256 && Negative(Word(b)) == Negative(Word(e))
    ensures Word(b) == Word(e)
  {
    hide Word;
    WordSmall(b);
    WordSmall(e);
    HighBits(Word(b), Word(e));
  }

  lemma NegativeApart(b: nat, e: nat)
    requires b < 256 && e < 256
    ensures Negative(Word(b)) != Word(e)
  {
    hide Word;
    WordSmall(b);
    WordSmall(e);
    Mixed(Word(b), Word(e));
  }

  lemma HighBits(v: bv32, w: bv32)
    requires v < 256 && w < 256 && Negative(v) == Negative(w)
    ensures v == w
  {
  }

  lemma Mixed(v: bv32, w: bv32)
    requires v < 256 && w < 256
    ensures Negative(v) != w
  {
  }

  /** Different bytes are different words. */
  lemma CharWordInjective(c: char, d: char)
    requires c as int < 256 && d as int < 256 && CharWord(c) == CharWord(d)
    ensures c == d
  {
    hide Word, Negative;
    var b, e := c as int, d as int;
    if b < 128 && e < 128 {
      WordInjective(b, e);
    } else if b >= 128 && e >= 128 {
      NegativeInjective(b, e);
      WordInjective(b, e);
    } else {
      NegativeApart(b, e);
      NegativeApart(e, b);
    }
  }

  // ---- Texts ----

  /** Only the text up to the first NUL counts. */
  lemma {:induction false} HashUpToNul(h: bv32, s: string)
    ensures HashFrom(h, s) == HashFrom(h, CStr(s))
    decreases s
  {
    hide Mix, CharWord;
    if s != [] && s[0] != NUL {
      assert CStr(s)[1..] == CStr(s[1..]);
      HashUpToNul(Mix(h, CharWord(s[0])), s[1..]);
    }
  }

  lemma {:induction false} HashApart(h1: bv32, h2: bv32, s: string)
    requires HashFrom(h1, s) == HashFrom(h2, s)
    ensures h1 == h2
    decreases s
  {
    hide Mix, CharWord;
    if s != [] && s[0] != NUL {
      var w := CharWord(s[0]);
      HashApart(Mix(h1, w), Mix(h2, w), s[1..]);
      MixInjective(h1, h2, w, w);
    }
  }

  /** Texts of the same length that differ in one character. */
  ghost predicate DifferInOne(s: string, t: string) {
    exists a: string, c: char, d: char, b: string :: s == a + [c] + b && t == a + [d] + b && c != d
  }

  lemma {:induction false} OneApart(h: bv32, a: string, c: char, d: char, b: string)
    requires NUL !in a && c != NUL && d != NUL && c != d && c as int < 256 && d as int < 256
    ensures HashFrom(h, a + [c] + b) != HashFrom(h, a + [d] + b)
    decreases a
  {
    hide Mix, CharWord;
    var s, t := a + [c] + b, a + [d] + b;
    if a == [] {
      assert s[0] == c && t[0] == d && s[1..] == b && t[1..] == b;
      if HashFrom(h, s) == HashFrom(h, t) {
        HashApart(Mix(h, CharWord(c)), Mix(h, CharWord(d)), b);
        MixInjective(h, h, CharWord(c), CharWord(d));
        CharWordInjective(c, d);
      }
    } else {
      assert s[1..] == a[1..] + [c] + b && t[1..] == a[1..] + [d] + b && s[0] == t[0] == a[0];
      OneApart(Mix(h, CharWord(a[0])), a[1..], c, d, b);
    }
  }

  /** Texts that differ in one character have different hashes. */
  lemma {:induction false} HashDiffers(s: string, t: string)
    requires IsBytes(s) && IsBytes(t) && DifferInOne(CStr(s), CStr(t))
    ensures HashString(s) != HashString(t)
  {
    hide HashFrom, CStr;
    HashUpToNul(5381, s);
    HashUpToNul(5381, t);
    var a: string, c: char, d: char, b: string :| CStr(s) == a + [c] + b && CStr(t) == a + [d] + b && c != d;
    assert CStr(s)[|a|] == c && CStr(t)[|a|] == d;
    assert forall i | 0 <= i < |a| :: CStr(s)[i] == a[i];
    assert c in CStr(s) && d in CStr(t);
    assert s[|a|] == c && t[|a|] == d;
    OneApart(5381, a, c, d, b);
  }

  /** Equal texts have equal hashes. */
  lemma HashSame(s: string, t: string)
    requires CStr(s) == CStr(t)
    ensures HashString(s) == HashString(t)
  {
    HashUpToNul(5381, s);
    HashUpToNul(5381, t);
  }

  lemma HashOne(c: char)
    requires c != NUL
    ensures HashString([c]) == Mix(5381, CharWord(c))
  {
    hide Mix, CharWord;
    assert [c][1..] == [];
    assert HashFrom(Mix(5381, CharWord(c)), []) == Mix(5381, CharWord(c));
  }

  lemma WordOf(v: bv8)
    ensures v as nat < 256 && Word(v as nat) == v as bv32
  {
    ByteBelow(v);
  }

  lemma WordOfA()
    ensures CharWord('a') == 97
  {
    hide Word;
    WordOf(97);
  }

  lemma WordOf200()
    ensures CharWord(200 as char) == 0xFFFF_FFC8
  {
    hide Word;
    WordOf(200);
  }

  lemma MixValues()
    ensures Mix(5381, 97) == 177604 && Mix(5381, 0xFFFF_FFC8) == 0xFFFD_4A6D
  {
  }

  /** The start value, a letter, and a byte above 127, which is negative as a `char`. */
  lemma HashValues()
    ensures HashString([]) == 5381 && HashString(['a']) == 177604 && HashString([200 as char]) == 0xFFFD_4A6D
  {
    hide Mix, CharWord;
    HashOne('a');
    HashOne(200 as char);
    WordOfA();
    WordOf200();
    MixValues();
  }

  lemma HashTwo(c: char, d: char)
    requires c != NUL && d != NUL
    ensures HashString([c, d]) == Mix(Mix(5381, CharWord(c)), CharWord(d))
  {
    hide Mix, CharWord;
    var h := Mix(5381, CharWord(c));
    assert [c, d][1..] == [d] && [d][1..] == [];
    assert HashFrom(h, [d]) == HashFrom(Mix(h, CharWord(d)), []) == Mix(h, CharWord(d));
    assert HashFrom(5381, [c, d]) == HashFrom(h, [d]);
  }

  lemma CollidingWords()
    ensures CharWord('b') == 98 && CharWord('c') == 99 && CharWord('C') == 67
  {
    hide Word;
    WordOf(98);
    WordOf(99);
    WordOf(67);
  }

  lemma CollidingMixes()
    ensures Mix(5381, 98) == 0x2B5C7 && Mix(0x2B5C7, 67) == 0x59_6EE4
    ensures Mix(5381, 99) == 0x2B5C6 && Mix(0x2B5C6, 98) == 0x59_6EE4
  {
  }

  /** Two different characters are enough for the same hash. */
  lemma HashCollides()
    ensures HashString(['b', 'C']) == HashString(['c', 'b']) == 0x59_6EE4
  {
    hide Mix, CharWord, HashString;
    HashTwo('b', 'C');
    HashTwo('c', 'b');
    CollidingWords();
    CollidingMixes();
  }
}
