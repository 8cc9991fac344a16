/** Numbers as `printf` writes them and as `strtol`, `stoi` and `atoi` read them. */
module Text {
  import opened Frames

  const INT64_MAX: nat := 0x7FFF_FFFF_FFFF_FFFF
  const INT64_MIN: int := -0x8000_0000_0000_0000

  predicate IsBase(b: nat) {
    b == 10 || b == 16
  }

  function Digit(d: nat): char
    requires d < 16
  {
    if d < 10 then (48 + d) as char else (87 + d) as char
  }

  /** Value of a digit, or 16 for any other character; upper-case letters count too. */
  function DigitValue(c: char): (d: nat)
    ensures d <= 16
  {
    if '0' <= c <= '9' then c as int - 48
    else if 'a' <= c <= 'f' then c as int - 87
    else if 'A' <= c <= 'F' then c as int - 55
    else 16
  }

  function Digits(v: nat, base: nat): (s: string)
    requires IsBase(base)
    ensures s != []
  {
    if v < base then [Digit(v)] else Digits(v / base, base) + [Digit(v % base)]
  }

  predicate AllDigits(s: string, base: nat) {
    forall i | 0 <= i < |s| :: DigitValue(s[i]) < base
  }

  function Repeat(c: char, k: int): (s: string)
    ensures |s| == if k > 0 then k else 0
    ensures forall i | 0 <= i < |s| :: s[i] == c
  {
    if k <= 0 then [] else [c] + Repeat(c, k - 1)
  }

  /** Right-justify. */
  function PadLeft(s: string, w: nat, c: char): string {
    Repeat(c, w - |s|) + s
  }

  /** `%i`. */
  function Decimal(n: int): string {
    if n < 0 then "-" + Digits(-n, 10) else Digits(n, 10)
  }

  /** Value of the leading digits. */
  function ValueOf(s: string, base: nat, acc: nat): nat
    decreases s
  {
    if s == [] || DigitValue(s[0]) >= base then acc
    else ValueOf(s[1..], base, acc * base + DigitValue(s[0]))
  }

  predicate IsSpace(c: char) {
    c == ' ' || 9 <= c as int <= 13
  }

  function SkipSpace(s: string): string {
    if s == [] || !IsSpace(s[0]) then s else SkipSpace(s[1..])
  }

  /** The digits `strtol` looks at: after white space, a sign, and `0x` in base 16. */
  function Unsigned(s: string, base: nat): string {
    var t := SkipSpace(s);
    var u := if t != [] && (t[0] == '-' || t[0] == '+') then t[1..] else t;
    if base == 16 && |u| > 2 && u[0] == '0' && (u[1] == 'x' || u[1] == 'X') && DigitValue(u[2]) < 16 then u[2..] else u
  }

  function IsNegative(s: string): bool {
    var t := SkipSpace(s);
    t != [] && t[0] == '-'
  }

  /** The integer written in front, unbounded. */
  function Written(s: string, base: nat): int {
    var v: int := ValueOf(Unsigned(s, base), base, 0);
    if IsNegative(s) then -v else v
  }

  /** `strtol`, which saturates. */
  function StrToL(s: string, base: nat): int {
    var v := Written(s, base);
    if v > INT64_MAX then INT64_MAX else if v < INT64_MIN then INT64_MIN else v
  }

  datatype Option<+T> = None | Some(value: T)

  /** `std::stoi`; `None` stands for the exceptions. */
  function Stoi(s: string): Option<int> {
    var u := Unsigned(s, 10);
    if u == [] || DigitValue(u[0]) >= 10 then None
    else
      var v := Written(s, 10);
      if -0x8000_0000 <= v <= 0x7FFF_FFFF then Some(v) else None
  }

  // ---- Reading back what was written ----

  lemma DigitRoundTrip(d: nat)
    requires d < 16
    ensures DigitValue(Digit(d)) == d
  {
  }

  /** A digit is none of the characters that structure a line. */
  lemma DigitIsPlain(c: char)
    requires DigitValue(c) < 16
    ensures !IsSpace(c) && c !in ['-', '+', 'x', 'X', ':', '[', ']', '|', ' ', '\n', NUL]
  {
  }

  lemma {:induction false} DigitsAre(v: nat, base: nat)
    requires IsBase(base)
    ensures AllDigits(Digits(v, base), base)
  {
    if v < base {
      DigitRoundTrip(v);
    } else {
      DigitsAre(v / base, base);
      DigitRoundTrip(v % base);
    }
  }

  lemma {:induction false} DigitsValue(v: nat, base: nat, rest: string)
    requires IsBase(base)
    ensures ValueOf(Digits(v, base) + rest, base, 0) == ValueOf(rest, base, v)
    decreases v
  {
    if v < base {
      DigitRoundTrip(v);
      assert (Digits(v, base) + rest)[1..] == rest;
    } else {
      var d := Digit(v % base);
      DigitRoundTrip(v % base);
      DigitsValue(v / base, base, [d] + rest);
      assert Digits(v, base) + rest == Digits(v / base, base) + ([d] + rest);
      assert ([d] + rest)[1..] == rest;
      assert v / base * base + v % base == v by {
        if base == 10 { assert v / 10 * 10 + v % 10 == v; } else { assert v / 16 * 16 + v % 16 == v; }
      }
    }
  }

  lemma {:induction false} ZerosValue(k: int, s: string, base: nat)
    requires IsBase(base)
    ensures ValueOf(Repeat('0', k) + s, base, 0) == ValueOf(s, base, 0)
    decreases k
  {
    if k <= 0 {
      assert Repeat('0', k) + s == s;
    } else {
      assert (Repeat('0', k) + s)[1..] == Repeat('0', k - 1) + s;
      ZerosValue(k - 1, s, base);
    }
  }

  /** A zero-padded number without sign reads back as its value, or as the largest one `strtol` gives. */
  lemma {:induction false} PaddedReads(v: nat, w: nat, base: nat)
    requires IsBase(base)
    ensures StrToL(PadLeft(Digits(v, base), w, '0'), base) == if v > INT64_MAX then INT64_MAX else v
  {
    var s := PadLeft(Digits(v, base), w, '0');
    DigitsAre(v, base);
    ZerosValue(w - |Digits(v, base)|, Digits(v, base), base);
    DigitsValue(v, base, []);
    assert Digits(v, base) + [] == Digits(v, base);
    PaddedDigits(v, w, base);
    NoPrefix(s, base);
  }

  lemma {:induction false} PaddedDigits(v: nat, w: nat, base: nat)
    requires IsBase(base)
    ensures var s := PadLeft(Digits(v, base), w, '0'); s != [] && AllDigits(s, base)
  {
    DigitsAre(v, base);
    assert DigitValue('0') == 0;
  }

  /** Digits have nothing in front of them to skip. */
  lemma NoPrefix(s: string, base: nat)
    requires IsBase(base) && s != [] && AllDigits(s, base)
    ensures SkipSpace(s) == s && Unsigned(s, base) == s && !IsNegative(s)
  {
    assert DigitValue(s[0]) < 16;
    assert |s| > 1 ==> DigitValue(s[1]) < 16;
  }

  /** `stoi` reads back what `%i` writes, for every `int`. */
  lemma {:induction false} DecimalReads(n: int)
    requires -0x8000_0000 <= n <= 0x7FFF_FFFF
    ensures Stoi(Decimal(n)) == Some(n)
  {
    var a := if n < 0 then -n else n;
    var d := Digits(a, 10);
    DigitsAre(a, 10);
    DigitsValue(a, 10, []);
    assert d + [] == d;
    NoPrefix(d, 10);
    if n < 0 {
      assert ("-" + d)[1..] == d;
      assert SkipSpace("-" + d) == "-" + d;
    }
  }

  function Power(base: nat, k: nat): nat {
    if k == 0 then 1 else base * Power(base, k - 1)
  }

  lemma {:induction false} DigitsLength(v: nat, base: nat, k: nat)
    requires IsBase(base) && k > 0 && v < Power(base, k)
    ensures |Digits(v, base)| <= k
    decreases k
  {
    if v >= base {
      assert Power(base, 1) == base * Power(base, 0) == base;
      assert v / base < Power(base, k - 1) by {
        if base == 10 { assert v < 10 * Power(10, k - 1); } else { assert v < 16 * Power(16, k - 1); }
      }
      DigitsLength(v / base, base, k - 1);
    }
  }

  /** A pointer has at most 16 hexadecimal digits. */
  lemma HexLength(v: nat)
    requires v < UINT64
    ensures |Digits(v, 16)| <= 16
  {
    assert Power(16, 4) == 0x1_0000;
    assert Power(16, 8) == 0x1_0000_0000 by { assert Power(16, 6) == 0x100_0000; }
    assert Power(16, 12) == 0x1_0000_0000_0000 by { assert Power(16, 10) == 0x100_0000_0000; }
    assert Power(16, 16) == 0x1_0000_0000_0000_0000 by { assert Power(16, 14) == 0x100_0000_0000_0000; }
    DigitsLength(v, 16, 16);
  }

  /** A 32-bit number has at most ten decimal digits. */
  lemma DecimalLength(v: nat)
    requires v < UINT32
    ensures |Digits(v, 10)| <= 10
  {
    assert Power(10, 5) == 100_000;
    assert Power(10, 10) == 10_000_000_000 by { assert Power(10, 8) == 100_000_000; }
    DigitsLength(v, 10, 10);
  }
}
