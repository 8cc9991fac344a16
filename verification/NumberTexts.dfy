/** Numbers in any text: white space, sign, digits, and what follows. */
module NumberTexts {
  import opened Text

  ghost predicate White(sp: string) {
    forall i | 0 <= i < |sp| :: sp[i] == ' ' || 9 <= sp[i] as int <= 13
  }

  ghost predicate IsDigit(c: char, base: nat) {
    '0' <= c <= '9' || (base == 16 && ('a' <= c <= 'f' || 'A' <= c <= 'F'))
  }

  /** Which characters are digits, and which are written. */
  lemma DigitChars(c: char, d: nat, base: nat)
    requires IsBase(base) && d < 16
    ensures DigitValue(c) < base <==> IsDigit(c, base)
    ensures Digit(d) == "0123456789abcdef"[d] && DigitValue("0123456789abcdef"[d]) == d
    ensures DigitValue("0123456789ABCDEF"[d]) == d
  {
  }

  lemma {:induction false} SpaceSkipped(sp: string, rest: string)
    requires White(sp) && (rest == [] || !(rest[0] == ' ' || 9 <= rest[0] as int <= 13))
    ensures SkipSpace(sp + rest) == rest
  {
    if sp == [] {
      assert sp + rest == rest;
    } else {
      assert (sp + rest)[1..] == sp[1..] + rest;
      SpaceSkipped(sp[1..], rest);
    }
  }

  /** What of a text is looked at. */
  lemma {:induction false} PartsSkipped(sp: string, sign: string, u: string, base: nat)
    requires White(sp) && IsBase(base) && sign in {"", "-", "+"}
    requires sign == "" && u != [] ==> !(u[0] == ' ' || 9 <= u[0] as int <= 13) && u[0] != '-' && u[0] != '+'
    requires base == 16 && |u| > 1 ==> u[1] != 'x' && u[1] != 'X'
    ensures Unsigned(sp + sign + u, base) == u && (IsNegative(sp + sign + u) <==> sign == "-")
  {
    hide SkipSpace;
    assert sp + sign + u == sp + (sign + u);
    SpaceSkipped(sp, sign + u);
    if sign == "" {
      assert sign + u == u;
    } else {
      assert (sign + u)[1..] == u;
    }
  }

  lemma {:induction false} DigitsEnd(v: nat, rest: string, base: nat)
    requires IsBase(base) && (rest == [] || !IsDigit(rest[0], base))
    ensures ValueOf(Digits(v, base) + rest, base, 0) == v
  {
    DigitsValue(v, base, rest);
    if rest != [] { DigitChars(rest[0], 0, base); }
  }

  /** `strtol` and `stoi` on a number that is written somewhere in front. */
  lemma {:induction false} NumberReads(sp: string, sign: string, v: nat, rest: string, base: nat)
    requires White(sp) && IsBase(base) && sign in {"", "-", "+"} && (rest == [] || !IsDigit(rest[0], base))
    requires base == 16 ==> rest == [] || (rest[0] != 'x' && rest[0] != 'X')
    ensures var s, n := sp + sign + (Digits(v, base) + rest), (if sign == "-" then -1 else 1) * v;
      && StrToL(s, base) == (if n > INT64_MAX then INT64_MAX else if n < INT64_MIN then INT64_MIN else n)
      && (base == 10 ==> Stoi(s) == if -0x8000_0000 <= n <= 0x7FFF_FFFF then Some(n) else None)
  {
    var d := Digits(v, base);
    var u := d + rest;
    DigitsAre(v, base);
    assert forall i | 0 <= i < |d| :: u[i] == d[i];
    DigitIsPlain(d[0]);
    DigitChars(d[0], 0, base);
    if |u| > 1 && |d| > 1 { DigitIsPlain(d[1]); }
    if |u| > 1 && |d| == 1 { assert u[1] == rest[0]; }
    PartsSkipped(sp, sign, u, base);
    DigitsEnd(v, rest, base);
    hide Unsigned, IsNegative, ValueOf, Digits;
    assert DigitValue(u[0]) < base;
  }

  /** Without a digit there `stoi` throws. */
  lemma {:induction false} NoNumber(sp: string, sign: string, rest: string)
    requires White(sp) && sign in {"", "-", "+"} && (rest == [] || !IsDigit(rest[0], 10))
    requires sign == "" && rest != [] ==>
      !(rest[0] == ' ' || 9 <= rest[0] as int <= 13) && rest[0] != '-' && rest[0] != '+'
    ensures Stoi(sp + sign + rest) == None
  {
    PartsSkipped(sp, sign, rest, 10);
    if rest != [] { DigitChars(rest[0], 0, 10); }
    hide Unsigned;
  }
}
