/** What abbreviating `std::basic_string` makes of a name, in terms of its texts. */
module RewritingTexts {
  import opened Strings
  import opened Rewriting

  predicate StartsWith(s: string, pat: string) {
    |s| >= |pat| && forall i | 0 <= i < |pat| :: s[i] == pat[i]
  }

  /** Behind `before`, a text occurs exactly when what follows starts with it. */
  lemma OccursBehind(before: string, s: string, pat: string)
    ensures OccursAt(before + s, pat, |before|) <==> StartsWith(s, pat)
  {
    var t := before + s;
    if |s| >= |pat| {
      assert t[|before|..|before| + |pat|] == s[..|pat|];
      assert forall i | 0 <= i < |pat| :: s[i] == s[..|pat|][i];
    }
  }

  lemma AbbreviationBehind(before: string, s: string)
    ensures Abbreviation(before + s, |before|) ==
            if StartsWith(s, "char") then "std::string" else if StartsWith(s, "wchar_t") then "std::wstring" else ""
  {
    hide StartsWith, OccursAt;
    OccursBehind(before, s, "char");
    OccursBehind(before, s, "wchar_t");
    WideNeverReached(before + s, |before|);
  }

  lemma BasicShape()
    ensures |BASIC| == 18 && BASIC[17] == '<' && '<' !in BASIC[..17]
  {
  }

  /** The bracket of each `basic_string`. */
  lemma {:induction false} Brackets(t: string)
    ensures forall q | OccursAt(t, BASIC, q) :: q + 17 < |t| && t[q + 17] == '<'
  {
    hide BASIC;
    BasicShape();
    forall q | OccursAt(t, BASIC, q) ensures q + 17 < |t| && t[q + 17] == '<' {
      OccursChars(t, BASIC, q);
    }
  }

  /** A `basic_string` behind a text without angle bracket is the first one. */
  lemma {:induction false} FirstBasic(before: string, s: string)
    requires '<' !in before
    ensures Find(before + BASIC + s, BASIC, 0) == |before|
  {
    hide BASIC;
    BasicShape();
    var t := before + BASIC + s;
    assert t[|before|..|before| + |BASIC|] == BASIC;
    assert OccursAt(t, BASIC, |before|);
    Brackets(t);
    forall j | 0 <= j < |before| + 17 ensures t[j] != '<' {
      assert t[j] == if j < |before| then before[j] else BASIC[..17][j - |before|];
    }
  }

  lemma {:induction false} NoBasic(t: string, pos: nat)
    requires '<' !in t
    ensures Find(t, BASIC, pos) == -1
  {
    hide BASIC;
    Brackets(t);
  }

  lemma {:induction false} MatchIs(t: string, pos: nat, j: nat, e: nat)
    requires pos < j <= e <= |t| && OpenAt(t, pos, e) == 0
    requires forall i | j <= i < e :: OpenAt(t, pos, i) > 0
    ensures MatchFrom(t, pos, j) == e
    decreases e - j
  {
    hide OpenAt;
    if j < e { MatchIs(t, pos, j + 1, e); }
  }

  /** The bracket opened behind `before` is closed behind a balanced argument. */
  lemma {:induction false} MatchBehind(before: string, arg: string, rest: string)
    requires before != [] && Balanced(arg)
    ensures MatchFrom(before + arg + ">" + rest, |before| - 1, |before|) == |before| + |arg| + 1
  {
    var t, b, p := before + arg + ">" + rest, |before|, |before| - 1;
    forall i | b <= i <= b + |arg| ensures OpenAt(t, p, i) > 0 {
      assert t[b..i] == arg[..i - b];
    }
    assert t[b..b + |arg| + 1][..|arg|] == arg == arg[..|arg|];
    assert OpenAt(t, p, b + |arg| + 1) == 0;
    MatchIs(t, p, b, b + |arg| + 1);
  }

  lemma StartsExactly(arg: string, more: string, pat: string)
    requires '>' !in pat && |more| > 0 && more[0] == '>'
    ensures StartsWith(arg + more, pat) <==> StartsWith(arg, pat)
  {
    var s := arg + more;
    assert s[|arg|] == '>';
    assert forall i | 0 <= i < |arg| :: s[i] == arg[i];
    assert forall i | 0 <= i < |pat| :: pat[i] != '>';
  }

  /** The bracketed list behind `before` is replaced. */
  lemma {:induction false} AbbreviatedThere(before: string, arg: string, rest: string)
    requires Balanced(arg) && (StartsWith(arg, "char") || StartsWith(arg, "wchar_t"))
    ensures AbbreviatedAt(before + BASIC + arg + ">" + rest, |before|) ==
            before + (if StartsWith(arg, "char") then "std::string" else "std::wstring") + rest
  {
    hide BASIC, Abbreviation, StartsWith, MatchFrom, Balanced;
    BasicShape();
    var t, front := before + BASIC + arg + ">" + rest, before + BASIC;
    StartsExactly(arg, ">" + rest, "char");
    StartsExactly(arg, ">" + rest, "wchar_t");
    assert t == front + (arg + (">" + rest)) == front + arg + ">" + rest;
    AbbreviationBehind(front, arg + (">" + rest));
    MatchBehind(front, arg, rest);
    assert t[..|before|] == before && t[|front| + |arg| + 1..] == rest;
  }

  lemma {:induction false} AbbreviatedAll(before: string, arg: string, rest: string)
    requires '<' !in before && '<' !in rest && Balanced(arg) && (StartsWith(arg, "char") || StartsWith(arg, "wchar_t"))
    ensures Abbreviated(before + BASIC + arg + ">" + rest, 0) ==
            before + (if StartsWith(arg, "char") then "std::string" else "std::wstring") + rest
  {
    hide BASIC, AbbreviatedAt, StartsWith, Balanced, Find;
    BasicShape();
    var t := before + BASIC + arg + ">" + rest;
    var u := before + (if StartsWith(arg, "char") then "std::string" else "std::wstring") + rest;
    assert t == before + BASIC + (arg + ">" + rest);
    FirstBasic(before, arg + ">" + rest);
    AbbreviatedThere(before, arg, rest);
    NoBasic(u, |before| + 1);
    assert Abbreviated(u, |before| + 1) == u;
  }

  /** Any other list without brackets is left alone. */
  lemma {:induction false} OtherKept(before: string, arg: string, rest: string)
    requires '<' !in before && '<' !in rest && '<' !in arg && !StartsWith(arg, "char") && !StartsWith(arg, "wchar_t")
    ensures var t := before + BASIC + arg + ">" + rest;
            Abbreviated(t, 0) == t
  {
    hide BASIC, Abbreviation, StartsWith, Find;
    BasicShape();
    var t, front := before + BASIC + arg + ">" + rest, before + BASIC;
    assert t == before + BASIC + (arg + ">" + rest);
    FirstBasic(before, arg + ">" + rest);
    StartsExactly(arg, ">" + rest, "char");
    StartsExactly(arg, ">" + rest, "wchar_t");
    assert t == front + (arg + (">" + rest));
    AbbreviationBehind(front, arg + (">" + rest));
    OnlyOne(before, arg + ">" + rest);
    assert AbbreviatedAt(t, |before|) == t;
    assert Abbreviated(t, |before| + 1) == t;
  }

  lemma {:induction false} OnlyOne(before: string, s: string)
    requires '<' !in s
    ensures Find(before + BASIC + s, BASIC, |before| + 1) == -1
  {
    hide BASIC;
    BasicShape();
    var t := before + BASIC + s;
    Brackets(t);
    forall j | |before| + 18 <= j < |t| ensures t[j] != '<' {
      assert t[j] == s[j - |before| - 18];
    }
  }

  /** One `basic_string` with a balanced argument list, in a name without other brackets: a list that starts with
      `char` makes it a `std::string`, one that starts with `wchar_t` a `std::wstring`, and any other list
      without brackets leaves it alone. */
  lemma {:induction false} AbbreviatedOne(before: string, arg: string, rest: string)
    requires '<' !in before && '<' !in rest && Balanced(arg)
    ensures var t := before + "std::basic_string<" + arg + ">" + rest;
      && (StartsWith(arg, "char") ==> Abbreviated(t, 0) == before + "std::string" + rest)
      && (StartsWith(arg, "wchar_t") ==> Abbreviated(t, 0) == before + "std::wstring" + rest)
      && (!StartsWith(arg, "char") && !StartsWith(arg, "wchar_t") && '<' !in arg ==> Abbreviated(t, 0) == t)
  {
    hide Abbreviated, StartsWith, Balanced;
    if StartsWith(arg, "char") || StartsWith(arg, "wchar_t") {
      NotBoth(arg);
      AbbreviatedAll(before, arg, rest);
    } else if '<' !in arg {
      OtherKept(before, arg, rest);
    }
  }

  lemma NotBoth(arg: string)
    ensures !(StartsWith(arg, "char") && StartsWith(arg, "wchar_t"))
  {
    assert "char"[0] != "wchar_t"[0];
  }
}
