/** Decimal numerals: `str(n)` of a non-negative integer as a digit
    sequence, the value of a digit sequence, zero padding as `strftime`
    writes `%Y`, `%m` and `%d`, and Python's `int(str)`. */
module Numerals {
  import opened Wrappers
  import opened Text

  predicate IsDigitSeq(ds: seq<int>) {
    forall i :: 0 <= i < |ds| ==> 0 <= ds[i] <= 9
  }

  /** The digits `str(n)` writes for `n >= 0`, most significant first. */
  function Digits(n: nat): (ds: seq<int>)
    ensures 1 <= |ds| && IsDigitSeq(ds)
    ensures |ds| > 1 ==> ds[0] != 0
  {
    if n < 10 then [n] else Digits(n / 10) + [n % 10]
  }

  /** The number a digit sequence denotes, most significant digit first. */
  function Value(ds: seq<int>): (v: int)
    requires IsDigitSeq(ds)
    ensures v >= 0
  {
    if ds == [] then 0 else Value(ds[..|ds| - 1]) * 10 + ds[|ds| - 1]
  }

  /** `int(str(n)) == n`. */
  lemma {:induction false} ValueOfDigits(n: nat)
    ensures Value(Digits(n)) == n
  {
    if n >= 10 {
      var ds := Digits(n);
      assert ds[..|ds| - 1] == Digits(n / 10);
      ValueOfDigits(n / 10);
    }
  }

  lemma {:induction false} ValuePositive(ds: seq<int>)
    requires |ds| >= 1 && IsDigitSeq(ds) && ds[0] != 0
    ensures Value(ds) >= 1
  {
    if |ds| > 1 {
      ValuePositive(ds[..|ds| - 1]);
    }
  }

  /** `str(int(s)) == s` for a digit string without a leading zero. */
  lemma {:induction false} DigitsOfValue(ds: seq<int>)
    requires |ds| >= 1 && IsDigitSeq(ds) && (|ds| > 1 ==> ds[0] != 0)
    ensures Digits(Value(ds)) == ds
  {
    if |ds| > 1 {
      var init := ds[..|ds| - 1];
      var v, d := Value(init), ds[|ds| - 1];
      ValuePositive(init);
      DigitsOfValue(init);
      var n := Value(ds);
      assert n == v * 10 + d;
      assert n / 10 == v && n % 10 == d;
      assert Digits(n) == Digits(v) + [d];
      assert init + [d] == ds;
    }
  }

  /** A digit sequence of length w denotes a number below 10^w. */
  lemma {:induction false} ValueBelow(ds: seq<int>, bound: int)
    requires IsDigitSeq(ds) && bound == Pow10(|ds|)
    ensures Value(ds) < bound
  {
    if ds != [] {
      ValueBelow(ds[..|ds| - 1], Pow10(|ds| - 1));
    }
  }

  function Pow10(w: nat): (p: nat)
    ensures p >= 1
  {
    if w == 0 then 1 else 10 * Pow10(w - 1)
  }

  /** `n` written with at least `w` digits, padded with leading zeros. */
  function Padded(n: nat, w: nat): (ds: seq<int>)
    ensures IsDigitSeq(ds) && |ds| >= w && Value(ds) == n
    ensures 1 <= w && n < Pow10(w) ==> |ds| == w
  {
    var d := Digits(n);
    ValueOfDigits(n);
    assert 1 <= w && n < Pow10(w) ==> |d| <= w by {
      if 1 <= w && n < Pow10(w) { DigitsWithin(n, w); }
    }
    if |d| >= w then d
    else
      var zeros := seq(w - |d|, _ => 0);
      ZerosPrefix(zeros, d);
      zeros + d
  }

  /** A number below 10^w has at most w digits. */
  lemma {:induction false} DigitsWithin(n: nat, w: nat)
    requires 1 <= w && n < Pow10(w)
    ensures |Digits(n)| <= w
  {
    if n >= 10 {
      assert w >= 2;
      assert n / 10 < Pow10(w - 1);
      DigitsWithin(n / 10, w - 1);
    }
  }

  lemma {:induction false} ZerosPrefix(zeros: seq<int>, ds: seq<int>)
    requires IsDigitSeq(ds) && forall i :: 0 <= i < |zeros| ==> zeros[i] == 0
    ensures IsDigitSeq(zeros + ds) && Value(zeros + ds) == Value(ds)
    decreases |ds|
  {
    if ds == [] {
      assert zeros + ds == zeros;
      AllZeros(zeros);
    } else {
      assert (zeros + ds)[..|zeros + ds| - 1] == zeros + ds[..|ds| - 1];
      ZerosPrefix(zeros, ds[..|ds| - 1]);
    }
  }

  lemma {:induction false} AllZeros(zeros: seq<int>)
    requires forall i :: 0 <= i < |zeros| ==> zeros[i] == 0
    ensures IsDigitSeq(zeros) && Value(zeros) == 0
  {
    if zeros != [] {
      AllZeros(zeros[..|zeros| - 1]);
    }
  }

  predicate IsDigitChar(c: char) { '0' <= c <= '9' }

  function DigitChar(d: int): (c: char)
    requires 0 <= d <= 9
    ensures IsDigitChar(c)
  {
    ('0' as int + d) as char
  }

  function CharDigit(c: char): (d: int)
    requires IsDigitChar(c)
    ensures 0 <= d <= 9 && DigitChar(d) == c
  {
    c as int - '0' as int
  }

  /** A digit sequence written as text. */
  function Show(ds: seq<int>): (s: string)
    requires IsDigitSeq(ds)
    ensures |s| == |ds|
    ensures forall i :: 0 <= i < |ds| ==> IsDigitChar(s[i]) && CharDigit(s[i]) == ds[i]
  {
    seq(|ds|, i requires 0 <= i < |ds| => DigitChar(ds[i]))
  }

  /** A numeral as Python's `int()` reads it after the sign, by its
      grammar `digit (["_"] digit)*`: a digit, then, unless the text ends
      there, an optional underscore and again a numeral. */
  predicate IsNumeral(s: string) {
    |s| >= 1 && IsDigitChar(s[0])
    && (|s| == 1 || (if s[1] == '_' then IsNumeral(s[2..]) else IsNumeral(s[1..])))
  }

  /** A numeral holds only digits and underscores, and ends in a digit. */
  lemma {:induction false} NumeralShape(s: string)
    requires IsNumeral(s)
    ensures IsDigitChar(s[|s| - 1])
    ensures forall i :: 0 <= i < |s| ==> IsDigitChar(s[i]) || s[i] == '_'
  {
    if |s| > 1 {
      var k := if s[1] == '_' then 2 else 1;
      NumeralShape(s[k..]);
      assert forall i :: k <= i < |s| ==> s[i] == s[k..][i - k];
    }
  }

  /** The digits of `s` in order, other characters skipped. */
  function DigitsIn(s: string): (ds: seq<int>)
    ensures IsDigitSeq(ds) && |ds| <= |s|
  {
    if s == [] then []
    else (if IsDigitChar(s[0]) then [CharDigit(s[0])] else []) + DigitsIn(s[1..])
  }

  /** The digits of a numeral, underscores dropped; None when `s` is not
      one. */
  function NumeralDigits(s: string): (r: Option<seq<int>>)
    ensures r.Some? <==> IsNumeral(s)
    ensures r.Some? ==> 1 <= |r.value| && r.value == DigitsIn(s)
  {
    if s == [] || !IsDigitChar(s[0]) then None
    else if |s| == 1 then
      Some([CharDigit(s[0])])
    else
      DigitsSplit(s);
      match NumeralDigits(if s[1] == '_' then s[2..] else s[1..])
      case None => None
      case Some(rest) => Some([CharDigit(s[0])] + rest)
  }

  /** The digits of text led by a digit and perhaps an underscore. */
  lemma DigitsSplit(s: string)
    requires |s| > 1 && IsDigitChar(s[0])
    ensures DigitsIn(s) == [CharDigit(s[0])] + DigitsIn(if s[1] == '_' then s[2..] else s[1..])
  {
    assert DigitsIn(s) == [CharDigit(s[0])] + DigitsIn(s[1..]);
    if s[1] == '_' {
      assert s[1..][1..] == s[2..];
      assert DigitsIn(s[1..]) == DigitsIn(s[2..]);
    }
  }

  /** The text after an optional leading sign. */
  function Unsigned(t: string): string {
    if t != [] && (t[0] == '-' || t[0] == '+') then t[1..] else t
  }

  /** `int()` on text without surrounding whitespace: an optional sign,
      then a numeral. */
  function ParseSigned(t: string): (r: Option<int>)
    ensures r.Some? <==> t != [] && IsNumeral(Unsigned(t))
    ensures r.Some? ==> IsDigitChar(t[|t| - 1])
    ensures r.Some? && r.value < 0 ==> t[0] == '-'
  {
    match NumeralDigits(Unsigned(t))
    case None => None
    case Some(ds) =>
      NumeralShape(Unsigned(t));
      assert t[|t| - 1] == Unsigned(t)[|Unsigned(t)| - 1];
      Some(if t[0] == '-' then -Value(ds) else Value(ds))
  }

  /** Python's `int(s)` on a string: surrounding whitespace, an optional
      sign, then a numeral of ASCII digits. None where `int` raises
      ValueError. */
  function ParseInt(s: string): (r: Option<int>)
    ensures r.Some? <==> Strip(s) != [] && IsNumeral(Unsigned(Strip(s)))
    ensures r.Some? ==> Strip(s) != [] && IsDigitChar(Strip(s)[|Strip(s)| - 1])
    ensures r.Some? ==> IsDigitChar(Strip(s)[0]) || Strip(s)[0] == '-' || Strip(s)[0] == '+'
    ensures r.Some? && r.value < 0 ==> Strip(s)[0] == '-'
  {
    ParseSigned(Strip(s))
  }

  /** A sign and a numeral read as the signed value of the numeral's
      digits. */
  lemma ParseSignedForm(sign: string, n: string)
    requires sign == "" || sign == "+" || sign == "-"
    requires IsNumeral(n)
    ensures ParseSigned(sign + n) == Some(if sign == "-" then -Value(DigitsIn(n)) else Value(DigitsIn(n)))
  {
    var t := sign + n;
    assert Unsigned(t) == n by {
      if sign != "" { assert t[1..] == n; }
    }
    assert t[0] == '-' <==> sign == "-" by {
      if sign == "" { assert t[0] == n[0]; }
    }
  }

  /** What `int()` returns: for whitespace padding `pre` and `post`, a
      sign in "", "+" and "-", and a numeral `n` (leading zeros and single
      underscores allowed) with digits `ds`, the signed value of `ds`. */
  lemma ParseIntForm(pre: string, sign: string, n: string, post: string, ds: seq<int>)
    requires Blank(pre) && Blank(post)
    requires sign == "" || sign == "+" || sign == "-"
    requires IsNumeral(n) && ds == DigitsIn(n)
    ensures ParseInt(pre + sign + n + post) == Some(if sign == "-" then -Value(ds) else Value(ds))
  {
    PaddedNumeral(pre, sign, n, post);
    ParseStripped(pre + sign + n + post, sign, n, ds);
  }

  /** Stripping padded signed numerals leaves the sign and the numeral. */
  lemma PaddedNumeral(pre: string, sign: string, n: string, post: string)
    requires Blank(pre) && Blank(post)
    requires sign == "" || sign == "+" || sign == "-"
    requires IsNumeral(n)
    ensures Strip(pre + sign + n + post) == sign + n
  {
    SignedNumeralEnds(sign, n);
    BlankSpaces(pre);
    BlankSpaces(post);
    StripPadded(pre, sign + n, post);
    AppendGroups(pre, sign, n, post);
  }

  lemma SignedNumeralEnds(sign: string, n: string)
    requires sign == "" || sign == "+" || sign == "-"
    requires IsNumeral(n)
    ensures !IsSpace((sign + n)[0]) && !IsSpace((sign + n)[|sign + n| - 1])
  {
    var t := sign + n;
    NumeralShape(n);
    assert t[|t| - 1] == n[|n| - 1];
  }

  lemma AppendGroups(a: string, b: string, c: string, d: string)
    ensures a + b + c + d == a + (b + c) + d
  {
  }

  /** `int()` of any text that strips to a signed numeral. */
  lemma ParseStripped(s: string, sign: string, n: string, ds: seq<int>)
    requires sign == "" || sign == "+" || sign == "-"
    requires IsNumeral(n) && ds == DigitsIn(n)
    requires Strip(s) == sign + n
    ensures ParseInt(s) == Some(if sign == "-" then -Value(ds) else Value(ds))
  {
    ParseSignedForm(sign, n);
  }

  /** `int()` of a padded, signed digit string, leading zeros allowed. */
  lemma ParseIntPadded(pre: string, sign: string, ds: seq<int>, post: string)
    requires Blank(pre) && Blank(post)
    requires sign == "" || sign == "+" || sign == "-"
    requires IsDigitSeq(ds) && ds != []
    ensures ParseInt(pre + sign + Show(ds) + post) == Some(if sign == "-" then -Value(ds) else Value(ds))
  {
    NumeralOfDigits(Show(ds), ds);
    ParseIntForm(pre, sign, Show(ds), post, ds);
  }

  /** `int(str(n)) == n` through the text form. */
  lemma ParseShownDigits(n: nat)
    ensures ParseInt(Show(Digits(n))) == Some(n)
  {
    var ds := Digits(n);
    assert "" + "" + Show(ds) + "" == Show(ds);
    ParseIntPadded("", "", ds, "");
    ValueOfDigits(n);
  }

  lemma {:induction false} NumeralOfDigits(s: string, ds: seq<int>)
    requires IsDigitSeq(ds) && |s| == |ds| >= 1
    requires forall i :: 0 <= i < |ds| ==> IsDigitChar(s[i]) && CharDigit(s[i]) == ds[i]
    ensures NumeralDigits(s) == Some(ds)
  {
    if |s| > 1 {
      assert s[1] != '_';
      NumeralOfDigits(s[1..], ds[1..]);
      assert [CharDigit(s[0])] + ds[1..] == ds;
    } else {
      assert [CharDigit(s[0])] == ds;
    }
  }
}
