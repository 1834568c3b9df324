/** The LoyaltyPoints repair of the customers script:
    `correct_repeated_pattern` undoes a transmission error that repeats a
    two- or three-digit value ("505050" for 50), then the column is coerced
    to numbers and capped at 100. */
module LoyaltyRepair {
  import opened Wrappers
  import opened Numerals
  import opened Cells

  /** Python's `int(x)` on a float: truncation toward zero. */
  function Truncate(x: real): (n: int)
    ensures x >= 0.0 ==> 0 <= n && n as real <= x < n as real + 1.0
    ensures x < 0.0 ==> n <= 0 && n as real - 1.0 < x <= n as real
  {
    if x >= 0.0 then x.Floor else -((-x).Floor)
  }

  /** `int(val)`, None where it raises (NaN, an unparseable string). */
  function IntOf(c: Cell): Option<int> {
    match c
    case Num(x) => Some(Truncate(x))
    case Str(s) => ParseInt(s)
    case _ => None
  }

  /** `n` back-to-back copies of `grp`. */
  function Copies(grp: seq<int>, n: nat): (r: seq<int>)
    ensures |r| == n * |grp|
  {
    if n == 0 then [] else grp + Copies(grp, n - 1)
  }

  /** What `(\d{g})\1{1,}` fully matches: two or more back-to-back copies
      of the first `g` digits and nothing else. */
  predicate RepeatsGroup(ds: seq<int>, g: nat) {
    g >= 1 && |ds| >= 2 * g && ds == Copies(ds[..g], |ds| / g)
  }

  /** The group `re.fullmatch(r'(\d{2,3})\1{1,}', s)` captures. The
      greedy `{2,3}` tries three digits first and backtracks to two only
      when three cannot match. */
  function RepeatedGroup(ds: seq<int>): (r: Option<seq<int>>)
    ensures r.Some? ==> |r.value| in {2, 3} && RepeatsGroup(ds, |r.value|)
                        && r.value == ds[..|r.value|]
    ensures r.Some? && |r.value| == 2 ==> !RepeatsGroup(ds, 3)
    ensures r.None? <==> !RepeatsGroup(ds, 3) && !RepeatsGroup(ds, 2)
  {
    if RepeatsGroup(ds, 3) then Some(ds[..3])
    else if RepeatsGroup(ds, 2) then Some(ds[..2])
    else None
  }

  /** `correct_repeated_pattern`: when `str(int(val))` is two or more copies
      of a group that is at most 100, the group's value replaces `val`;
      every other value, and every value `int()` rejects, is returned as it
      was. A negative number never matches because of its '-' sign. */
  function CorrectRepeatedPattern(val: Cell): (r: Cell)
    ensures r != val ==>
              IntOf(val).Some? && IntOf(val).value >= 0
              && var ds := Digits(IntOf(val).value);
                 RepeatedGroup(ds).Some?
                 && r == Num(Value(RepeatedGroup(ds).value) as real)
                 && Value(RepeatedGroup(ds).value) <= 100
    ensures r != val ==> r.Num? && 10.0 <= r.x <= 100.0
    ensures IntOf(val).None? ==> r == val
  {
    match IntOf(val)
    case None => val
    case Some(n) =>
      if n < 0 then val
      else
        var ds := Digits(n);
        match RepeatedGroup(ds)
        case None => val
        case Some(grp) =>
          var v := Value(grp);
          assert v >= 10 by { ValuePositive(grp); GroupAtLeastTen(grp); }
          if v <= 100 then Num(v as real) else val
  }

  lemma GroupAtLeastTen(grp: seq<int>)
    requires |grp| in {2, 3} && IsDigitSeq(grp) && grp[0] != 0
    ensures Value(grp) >= 10
  {
    var init := grp[..|grp| - 1];
    ValuePositive(init);
  }

  /** The LoyaltyPoints cell after repair, `pd.to_numeric(errors='coerce')`
      and `.clip(upper=100)`. */
  function PointsCell(lib: Library, c: Cell): (r: Cell)
    ensures r.Missing? || (r.Num? && r.x <= 100.0)
    ensures r.Missing? <==> ToNumeric(lib, CorrectRepeatedPattern(c)).Missing?
  {
    ClipUpper(ToNumeric(lib, CorrectRepeatedPattern(c)), 100.0)
  }

  /** The repair step by step: an integer whose digits repeat a group of
      value at most 100 is replaced by that value. */
  lemma RepairOf(val: Cell, n: nat, grp: seq<int>)
    requires IntOf(val) == Some(n) && RepeatedGroup(Digits(n)) == Some(grp)
    requires IsDigitSeq(grp) && Value(grp) <= 100
    ensures CorrectRepeatedPattern(val) == Num(Value(grp) as real)
  {
  }

  /** An integer whose digits repeat no group of two or three is kept. */
  lemma NoRepairOf(val: Cell, n: nat)
    requires IntOf(val) == Some(n) && RepeatedGroup(Digits(n)).None?
    ensures CorrectRepeatedPattern(val) == val
  {
  }

  /** An integer whose digits repeat a group worth more than 100 is kept. */
  lemma LargeGroupKept(val: Cell, n: nat, grp: seq<int>)
    requires IntOf(val) == Some(n) && RepeatedGroup(Digits(n)) == Some(grp)
    requires IsDigitSeq(grp) && Value(grp) > 100
    ensures CorrectRepeatedPattern(val) == val
  {
  }

  lemma CopiesFew(grp: seq<int>)
    ensures Copies(grp, 2) == grp + grp
    ensures Copies(grp, 3) == grp + grp + grp
  {
    assert Copies(grp, 1) == grp;
  }

  /** A three-digit group written twice is the group the pattern captures. */
  lemma DoubledTriple(ds: seq<int>, grp: seq<int>)
    requires |grp| == 3 && ds == grp + grp
    ensures RepeatedGroup(ds) == Some(grp)
  {
    CopiesFew(grp);
    assert ds[..3] == grp;
  }

  // The worked cases of the repair rule.

  lemma ValueOfThree(a: int, b: int, c: int)
    requires 0 <= a <= 9 && 0 <= b <= 9 && 0 <= c <= 9
    ensures Value([a, b]) == 10 * a + b
    ensures Value([a, b, c]) == 100 * a + 10 * b + c
  {
    assert [a][..0] == [];
    assert Value([a]) == a;
    assert [a, b][..1] == [a];
    assert Value([a, b]) == 10 * a + b;
    assert [a, b, c][..2] == [a, b];
  }

  lemma Digits505050()
    ensures Digits(505050) == [5, 0, 5, 0, 5, 0]
  {
  }

  /** "505" does not repeat across "505050"; "50" does. */
  lemma Group505050()
    ensures RepeatedGroup([5, 0, 5, 0, 5, 0]) == Some([5, 0])
  {
    var ds := [5, 0, 5, 0, 5, 0];
    CopiesFew([5, 0, 5]);
    CopiesFew([5, 0]);
    assert ds[..3] == [5, 0, 5] && ds[..2] == [5, 0];
    assert (ds[..3] + ds[..3])[3] != ds[3];
    assert !RepeatsGroup(ds, 3);
    assert RepeatsGroup(ds, 2);
  }

  lemma Repairs505050()
    ensures CorrectRepeatedPattern(Num(505050.0)) == Num(50.0)
  {
    assert IntOf(Num(505050.0)) == Some(505050) by {
      assert Truncate(505050.0) == 505050;
    }
    assert RepeatedGroup(Digits(505050)) == Some([5, 0]) by {
      Digits505050();
      Group505050();
    }
    assert Value([5, 0]) == 50 by { ValueOfThree(5, 0, 0); }
    RepairOf(Num(505050.0), 505050, [5, 0]);
  }

  lemma Repairs100100()
    ensures CorrectRepeatedPattern(Num(100100.0)) == Num(100.0)
  {
    assert IntOf(Num(100100.0)) == Some(100100) by {
      assert Truncate(100100.0) == 100100;
    }
    assert Digits(100100) == [1, 0, 0] + [1, 0, 0];
    DoubledTriple([1, 0, 0] + [1, 0, 0], [1, 0, 0]);
    ValueOfThree(1, 0, 0);
    RepairOf(Num(100100.0), 100100, [1, 0, 0]);
  }

  lemma Keeps101101()
    ensures CorrectRepeatedPattern(Num(101101.0)) == Num(101101.0)
  {
    assert IntOf(Num(101101.0)) == Some(101101) by {
      assert Truncate(101101.0) == 101101;
    }
    assert Digits(101101) == [1, 0, 1] + [1, 0, 1];
    DoubledTriple([1, 0, 1] + [1, 0, 1], [1, 0, 1]);
    ValueOfThree(1, 0, 1);
    LargeGroupKept(Num(101101.0), 101101, [1, 0, 1]);
  }

  lemma Keeps123123()
    ensures CorrectRepeatedPattern(Num(123123.0)) == Num(123123.0)
  {
    assert IntOf(Num(123123.0)) == Some(123123) by {
      assert Truncate(123123.0) == 123123;
    }
    assert Digits(123123) == [1, 2, 3] + [1, 2, 3];
    DoubledTriple([1, 2, 3] + [1, 2, 3], [1, 2, 3]);
    ValueOfThree(1, 2, 3);
    LargeGroupKept(Num(123123.0), 123123, [1, 2, 3]);
  }

  /** "111" is tried before "11", and 111 exceeds 100. */
  lemma Keeps111111()
    ensures CorrectRepeatedPattern(Num(111111.0)) == Num(111111.0)
  {
    assert IntOf(Num(111111.0)) == Some(111111) by {
      assert Truncate(111111.0) == 111111;
    }
    assert Digits(111111) == [1, 1, 1] + [1, 1, 1];
    DoubledTriple([1, 1, 1] + [1, 1, 1], [1, 1, 1]);
    ValueOfThree(1, 1, 1);
    LargeGroupKept(Num(111111.0), 111111, [1, 1, 1]);
  }

  lemma KeepsShortValues()
    ensures CorrectRepeatedPattern(Num(999.0)) == Num(999.0)
    ensures CorrectRepeatedPattern(Num(50.0)) == Num(50.0)
  {
    assert Digits(999) == [9, 9, 9];
    assert Digits(50) == [5, 0];
  }

  lemma KeepsNegativeAndNonIntegers()
    ensures CorrectRepeatedPattern(Num(-505050.0)) == Num(-505050.0)
    ensures CorrectRepeatedPattern(Str("abc")) == Str("abc")
    ensures CorrectRepeatedPattern(Missing) == Missing
  {
    assert Truncate(-505050.0) == -505050;
    assert ParseInt("abc") == None by {
      Text.StripTrimmed("abc");
    }
  }

  lemma Parse505050()
    ensures ParseInt("505050") == Some(505050)
  {
    Digits505050();
    Shown505050();
    ParseShownDigits(505050);
  }

  lemma Shown505050()
    ensures Show([5, 0, 5, 0, 5, 0]) == "505050"
  {
  }

  lemma Value505050()
    ensures Value([5, 0, 5, 0, 5, 0]) == 505050
  {
    Digits505050();
    ValueOfDigits(505050);
  }

  /** `int()` strips surrounding whitespace. */
  lemma ParsePadded505050()
    ensures ParseInt(" 505050 ") == Some(505050)
  {
    var ds := [5, 0, 5, 0, 5, 0];
    Value505050();
    Shown505050();
    assert " " + "" + Show(ds) + " " == " 505050 ";
    ParseIntPadded(" ", "", ds, " ");
  }

  /** `int()` accepts a leading plus sign. */
  lemma ParsePlus505050()
    ensures ParseInt("+505050") == Some(505050)
  {
    var ds := [5, 0, 5, 0, 5, 0];
    Value505050();
    Shown505050();
    assert "" + "+" + Show(ds) + "" == "+505050";
    ParseIntPadded("", "+", ds, "");
  }

  /** `int()` accepts leading zeros. */
  lemma ParseZeroLed505050()
    ensures ParseInt("0505050") == Some(505050)
  {
    var ds := [5, 0, 5, 0, 5, 0];
    Value505050();
    ZerosPrefix([0], ds);
    assert Show([0] + ds) == "0505050";
    assert "" + "" + Show([0] + ds) + "" == "0505050";
    ParseIntPadded("", "", [0] + ds, "");
  }

  /** `int()` accepts an underscore between digits. */
  lemma ParseUnderscored505050()
    ensures ParseInt("505_050") == Some(505050)
  {
    var ds := [5, 0, 5, 0, 5, 0];
    Value505050();
    Shown505050();
    assert IsNumeral("505_050");
    assert DigitsIn("505_050") == ds;
    assert "" + "" + "505_050" + "" == "505_050";
    ParseIntForm("", "", "505_050", "", ds);
  }

  /** The repair reads a value only through `int(val)`: two values that
      `int()` maps to the same integer are repaired to the same number. */
  lemma SameIntSameRepair(a: Cell, b: Cell)
    requires IntOf(a) == IntOf(b)
    ensures CorrectRepeatedPattern(a) != a ==> CorrectRepeatedPattern(b) == CorrectRepeatedPattern(a)
    ensures CorrectRepeatedPattern(b) != b ==> CorrectRepeatedPattern(a) == CorrectRepeatedPattern(b)
  {
  }

  /** A repeated value held as text is repaired the same way. */
  lemma RepairsText505050()
    ensures CorrectRepeatedPattern(Str("505050")) == Num(50.0)
  {
    assert IntOf(Str("505050")) == Some(505050) by { Parse505050(); }
    assert IntOf(Num(505050.0)) == Some(505050) by {
      assert Truncate(505050.0) == 505050;
    }
    Repairs505050();
    SameIntSameRepair(Num(505050.0), Str("505050"));
  }

  /** The same repair for the other texts `int()` reads as 505050. */
  lemma RepairsTextForms505050()
    ensures CorrectRepeatedPattern(Str(" 505050 ")) == Num(50.0)
    ensures CorrectRepeatedPattern(Str("+505050")) == Num(50.0)
    ensures CorrectRepeatedPattern(Str("0505050")) == Num(50.0)
    ensures CorrectRepeatedPattern(Str("505_050")) == Num(50.0)
  {
    ParsePadded505050();
    ParsePlus505050();
    ParseZeroLed505050();
    ParseUnderscored505050();
    assert IntOf(Num(505050.0)) == Some(505050) by {
      assert Truncate(505050.0) == 505050;
    }
    Repairs505050();
    SameIntSameRepair(Num(505050.0), Str(" 505050 "));
    SameIntSameRepair(Num(505050.0), Str("+505050"));
    SameIntSameRepair(Num(505050.0), Str("0505050"));
    SameIntSameRepair(Num(505050.0), Str("505_050"));
  }
}
