/** Name canonicalisation of the customers script: `standardize_name`,
    which strips a name, title-cases it and collapses runs of spaces. */
module Names {
  import opened Text

  /** The case `str.title()` gives `c` when the previous character is, or is
      not, a cased letter. Non-letters are left alone. */
  function TitleChar(c: char, afterLetter: bool): (r: char)
    ensures IsLetter(r) == IsLetter(c) && IsSpace(r) == IsSpace(c) && (r == ' ') == (c == ' ')
    ensures !IsLetter(c) ==> r == c
  {
    if afterLetter then LowerChar(c) else UpperChar(c)
  }

  /** `str.title()` continued from a position whose previous character is
      (`afterLetter`) or is not a letter. */
  function TitleFrom(s: string, afterLetter: bool): (r: string)
    ensures |r| == |s|
    ensures forall i :: 0 <= i < |s| ==>
              r[i] == TitleChar(s[i], if i == 0 then afterLetter else IsLetter(s[i - 1]))
    ensures forall i :: 0 <= i < |s| ==> IsSpace(r[i]) == IsSpace(s[i]) && IsLetter(r[i]) == IsLetter(s[i])
    ensures forall i :: 0 <= i < |s| && !IsLetter(s[i]) ==> r[i] == s[i]
  {
    if s == [] then [] else [TitleChar(s[0], afterLetter)] + TitleFrom(s[1..], IsLetter(s[0]))
  }

  /** `str.title()`: a letter is upper-cased when the character before it is
      not a letter, and lower-cased otherwise. */
  function Title(s: string): (r: string)
    ensures |r| == |s|
    ensures forall i :: 0 <= i < |s| ==>
              r[i] == (if i == 0 || !IsLetter(s[i - 1]) then UpperChar(s[i]) else LowerChar(s[i]))
    ensures forall i :: 0 <= i < |s| && IsLetter(s[i]) ==>
              (IsUpper(r[i]) <==> (i == 0 || !IsLetter(s[i - 1])))
    ensures forall i :: 0 <= i < |s| && !IsLetter(s[i]) ==> r[i] == s[i]
    ensures forall i :: 0 <= i < |s| ==> IsSpace(r[i]) == IsSpace(s[i])
  {
    TitleFrom(s, false)
  }

  /** No two adjacent spaces. */
  predicate NoDoubleSpace(s: string) {
    forall i :: 0 <= i < |s| - 1 ==> !(s[i] == ' ' && s[i + 1] == ' ')
  }

  /** Position `i` holds a space and so does the next one: of each run of
      spaces, these are the ones `re.sub(' +', ' ', s)` removes. */
  predicate DoubledAt(s: string, i: int) {
    0 <= i < |s| - 1 && s[i] == ' ' && s[i + 1] == ' '
  }

  /** How many of the characters before position `i` the collapse keeps. */
  function KeptBefore(s: string, i: nat): (n: nat)
    requires i <= |s|
    ensures n <= i
  {
    if i == 0 then 0 else KeptBefore(s, i - 1) + (if DoubledAt(s, i - 1) then 0 else 1)
  }

  /** Counting kept characters from the second character on. */
  lemma {:induction false} KeptBeforeTail(s: string, i: nat)
    requires 1 <= i <= |s|
    ensures KeptBefore(s, i) == (if DoubledAt(s, 0) then 0 else 1) + KeptBefore(s[1..], i - 1)
  {
    if i > 1 {
      KeptBeforeTail(s, i - 1);
      assert DoubledAt(s, i - 1) == DoubledAt(s[1..], i - 2);
    }
  }

  /** `re.sub(' +', ' ', s)`: each run of spaces becomes a single space.
      The result is `s` with exactly the doubled spaces left out: the
      character at every other position `i` of `s` is kept, in order, at
      position `KeptBefore(s, i)`. Other whitespace is kept. */
  function CollapseSpaces(s: string): (r: string)
    ensures |r| == KeptBefore(s, |s|)
    ensures forall i {:trigger KeptBefore(s, i)} :: 0 <= i < |s| && !DoubledAt(s, i) ==> KeptBefore(s, i) < |r| && r[KeptBefore(s, i)] == s[i]
    ensures |r| <= |s|
    ensures s != [] ==> r != [] && r[0] == s[0] && r[|r| - 1] == s[|s| - 1]
    ensures NoDoubleSpace(r)
  {
    if s == [] then []
    else
      var t := CollapseSpaces(s[1..]);
      CollapseStepKept(s, t);
      CollapseStepShape(s, t);
      if DoubledAt(s, 0) then t else [s[0]] + t
  }

  /** One step of the collapse keeps the positional description: given
      that `t` collapses `s[1..]`, dropping or keeping `s[0]` in front of
      it collapses `s`. */
  lemma CollapseStepKept(s: string, t: string)
    requires s != []
    requires |t| == KeptBefore(s[1..], |s[1..]|)
    requires forall i {:trigger KeptBefore(s[1..], i)} :: 0 <= i < |s[1..]| && !DoubledAt(s[1..], i) ==>
               KeptBefore(s[1..], i) < |t| && t[KeptBefore(s[1..], i)] == s[1..][i]
    ensures var r := if DoubledAt(s, 0) then t else [s[0]] + t;
            |r| == KeptBefore(s, |s|)
            && forall i {:trigger KeptBefore(s, i)} :: 0 <= i < |s| && !DoubledAt(s, i) ==> KeptBefore(s, i) < |r| && r[KeptBefore(s, i)] == s[i]
  {
    var u := s[1..];
    var h := if DoubledAt(s, 0) then 0 else 1;
    var r := if DoubledAt(s, 0) then t else [s[0]] + t;
    assert |r| == h + |t|;
    KeptBeforeTail(s, |s|);
    forall i | 0 <= i < |s| && !DoubledAt(s, i) ensures KeptBefore(s, i) < |r| && r[KeptBefore(s, i)] == s[i] {
      if i > 0 {
        KeptAtTail(s, u, t, r, h, i);
      }
    }
  }

  /** The positional description at one position after the first. */
  lemma KeptAtTail(s: string, u: string, t: string, r: string, h: int, i: nat)
    requires s != [] && u == s[1..] && 0 < i < |s| && !DoubledAt(s, i)
    requires h == (if DoubledAt(s, 0) then 0 else 1) && r == (if h == 0 then t else [s[0]] + t)
    requires KeptBefore(u, i - 1) < |t| && t[KeptBefore(u, i - 1)] == u[i - 1]
    ensures KeptBefore(s, i) < |r| && r[KeptBefore(s, i)] == s[i]
  {
    KeptBeforeTail(s, i);
  }

  /** One step of the collapse keeps the ends and leaves no double space. */
  lemma CollapseStepShape(s: string, t: string)
    requires s != [] && |t| <= |s[1..]|
    requires s[1..] != [] ==> t != [] && t[0] == s[1..][0] && t[|t| - 1] == s[1..][|s[1..]| - 1]
    requires NoDoubleSpace(t)
    ensures var r := if DoubledAt(s, 0) then t else [s[0]] + t;
            |r| <= |s| && r != [] && r[0] == s[0] && r[|r| - 1] == s[|s| - 1] && NoDoubleSpace(r)
  {
    if !DoubledAt(s, 0) {
      var r := [s[0]] + t;
      forall i | 0 <= i < |r| - 1 ensures !(r[i] == ' ' && r[i + 1] == ' ') {
        if i > 0 {
          assert r[i] == t[i - 1] && r[i + 1] == t[i];
        }
      }
    }
  }

  /** `standardize_name`: strip, then title-case, then collapse space runs.
      Only whitespace goes and only case changes: the name's other
      characters all survive, in order. */
  function StandardizeName(name: string): (r: string)
    ensures r == [] || (!IsSpace(r[0]) && !IsSpace(r[|r| - 1]))
    ensures NoDoubleSpace(r)
    ensures |r| <= |name|
    ensures NonSpace(Lower(r)) == NonSpace(Lower(name))
  {
    StandardizeShape(name);
    StandardizeKeepsText(name);
    CollapseSpaces(Title(Strip(name)))
  }

  /** The name's shape after the three steps: trimmed, no double space and
      no longer than before. */
  lemma StandardizeShape(name: string)
    ensures var r := CollapseSpaces(Title(Strip(name)));
            (r == [] || (!IsSpace(r[0]) && !IsSpace(r[|r| - 1]))) && NoDoubleSpace(r) && |r| <= |name|
  {
    var u := Strip(name);
    var t := Title(u);
    if u != [] {
      assert IsSpace(t[0]) == IsSpace(u[0]) && IsSpace(t[|t| - 1]) == IsSpace(u[|u| - 1]);
    }
  }

  /** The characters of `s` that are not whitespace, in order. */
  function NonSpace(s: string): (r: string)
    ensures |r| <= |s|
  {
    if s == [] then [] else (if IsSpace(s[0]) then [] else [s[0]]) + NonSpace(s[1..])
  }

  lemma {:induction false} NonSpaceConcat(a: string, b: string)
    ensures NonSpace(a + b) == NonSpace(a) + NonSpace(b)
  {
    if a != [] {
      var h := if IsSpace(a[0]) then [] else [a[0]];
      assert (a + b)[0] == a[0] && (a + b)[1..] == a[1..] + b;
      assert NonSpace(a + b) == h + NonSpace(a[1..] + b);
      NonSpaceConcat(a[1..], b);
      assert NonSpace(a) == h + NonSpace(a[1..]);
    } else {
      assert a + b == b;
    }
  }

  /** Whitespace only has no other characters. */
  lemma {:induction false} NonSpaceOfSpaces(s: string)
    requires forall i :: 0 <= i < |s| ==> IsSpace(s[i])
    ensures NonSpace(s) == []
  {
    if s != [] {
      NonSpaceOfSpaces(s[1..]);
    }
  }

  /** Stripping removes whitespace only. */
  lemma NonSpaceStrip(s: string)
    ensures NonSpace(Strip(s)) == NonSpace(s)
  {
    var pre, post := StripSplit(s);
    NonSpaceOfSpaces(pre);
    NonSpaceOfSpaces(post);
    NonSpaceConcat(pre + Strip(s), post);
    NonSpaceConcat(pre, Strip(s));
  }

  /** Collapsing removes spaces only. */
  lemma {:induction false} NonSpaceCollapse(s: string)
    ensures NonSpace(CollapseSpaces(s)) == NonSpace(s)
  {
    if s != [] {
      NonSpaceCollapse(s[1..]);
      if !DoubledAt(s, 0) {
        var c := CollapseSpaces(s[1..]);
        assert ([s[0]] + c)[0] == s[0] && ([s[0]] + c)[1..] == c;
      }
    }
  }

  /** Lower-casing keeps whitespace where it is. */
  lemma {:induction false} NonSpaceLower(s: string)
    ensures NonSpace(Lower(s)) == Lower(NonSpace(s))
  {
    if s != [] {
      NonSpaceLower(s[1..]);
      assert Lower(s)[1..] == Lower(s[1..]);
      var h := if IsSpace(s[0]) then [] else [s[0]];
      LowerConcat(h, NonSpace(s[1..]));
    }
  }

  lemma {:induction false} LowerConcat(a: string, b: string)
    ensures Lower(a + b) == Lower(a) + Lower(b)
  {
    if a == [] {
      assert a + b == b;
    } else {
      assert (a + b)[0] == a[0] && (a + b)[1..] == a[1..] + b;
      LowerConcat(a[1..], b);
    }
  }

  /** Changing the case of a character first does not change its lower case. */
  lemma LowerOfCase(c: char)
    ensures LowerChar(UpperChar(c)) == LowerChar(c) && LowerChar(LowerChar(c)) == LowerChar(c)
  {
  }

  /** Title-casing changes case only. */
  lemma LowerTitle(s: string)
    ensures Lower(Title(s)) == Lower(s)
  {
    var t := Title(s);
    forall i | 0 <= i < |s| ensures Lower(t)[i] == Lower(s)[i] {
      assert t[i] == (if i == 0 || !IsLetter(s[i - 1]) then UpperChar(s[i]) else LowerChar(s[i]));
      LowerOfCase(s[i]);
    }
  }

  /** The name's non-space characters survive standardisation, up to case. */
  lemma StandardizeKeepsText(name: string)
    ensures NonSpace(Lower(CollapseSpaces(Title(Strip(name))))) == NonSpace(Lower(name))
  {
    var u := Strip(name);
    var t := Title(u);
    NonSpaceLower(CollapseSpaces(t));
    NonSpaceCollapse(t);
    NonSpaceLower(t);
    LowerTitle(u);
    NonSpaceLower(u);
    NonSpaceStrip(name);
    NonSpaceLower(name);
  }

  /** Collapsing a string that has no double space changes nothing. */
  lemma {:induction false} CollapseNoDouble(s: string)
    requires NoDoubleSpace(s)
    ensures CollapseSpaces(s) == s
  {
    if s != [] {
      NoDoubleTail(s);
      CollapseNoDouble(s[1..]);
      CollapseHead(s);
    }
  }

  lemma NoDoubleTail(s: string)
    requires s != [] && NoDoubleSpace(s)
    ensures NoDoubleSpace(s[1..]) && !DoubledAt(s, 0)
  {
    forall i | 0 <= i < |s[1..]| - 1 ensures !(s[1..][i] == ' ' && s[1..][i + 1] == ' ') {
      assert s[1..][i] == s[i + 1] && s[1..][i + 1] == s[i + 2];
    }
  }

  /** A first character that is not a doubled space is kept in front. */
  lemma CollapseHead(s: string)
    requires s != [] && !DoubledAt(s, 0)
    ensures CollapseSpaces(s) == [s[0]] + CollapseSpaces(s[1..])
  {
  }

  /** Title-casing does not depend on the state before a non-letter. */
  lemma TitleAfterNonLetter(s: string, a: bool, b: bool)
    requires s != [] && !IsLetter(s[0])
    ensures TitleFrom(s, a) == TitleFrom(s, b)
  {
  }

  /** Title-casing twice is title-casing once. */
  lemma {:induction false} TitleTwice(s: string, b: bool)
    ensures TitleFrom(TitleFrom(s, b), b) == TitleFrom(s, b)
  {
    if s != [] {
      var t := TitleFrom(s, b);
      TitleTwice(s[1..], IsLetter(s[0]));
      assert t[1..] == TitleFrom(s[1..], IsLetter(s[0]));
      assert TitleChar(t[0], b) == t[0];
    }
  }

  /** Collapsing space runs commutes with title-casing, because spaces are
      not letters and a space never changes case. */
  lemma {:induction false} CollapseTitleCommute(s: string, b: bool)
    ensures CollapseSpaces(TitleFrom(s, b)) == TitleFrom(CollapseSpaces(s), b)
  {
    if s == [] {
    } else if |s| >= 2 && s[0] == ' ' && s[1] == ' ' {
      CollapseTitleCommute(s[1..], false);
      CollapseTitleRun(s, b);
    } else {
      CollapseTitleCommute(s[1..], IsLetter(s[0]));
      CollapseTitleKept(s, b);
    }
  }

  /** The step for a string that starts with two spaces. */
  lemma CollapseTitleRun(s: string, b: bool)
    requires |s| >= 2 && s[0] == ' ' && s[1] == ' '
    requires CollapseSpaces(TitleFrom(s[1..], false)) == TitleFrom(CollapseSpaces(s[1..]), false)
    ensures CollapseSpaces(TitleFrom(s, b)) == TitleFrom(CollapseSpaces(s), b)
  {
    var t := TitleFrom(s, b);
    assert t[0] == ' ' && t[1] == ' ';
    assert t[1..] == TitleFrom(s[1..], false);
    var c := CollapseSpaces(s[1..]);
    assert c[0] == ' ';
    TitleAfterNonLetter(c, b, false);
  }

  /** The step for a string whose first character is kept. */
  lemma CollapseTitleKept(s: string, b: bool)
    requires s != [] && !(|s| >= 2 && s[0] == ' ' && s[1] == ' ')
    requires CollapseSpaces(TitleFrom(s[1..], IsLetter(s[0]))) == TitleFrom(CollapseSpaces(s[1..]), IsLetter(s[0]))
    ensures CollapseSpaces(TitleFrom(s, b)) == TitleFrom(CollapseSpaces(s), b)
  {
    CollapseOfTitleHead(s, b);
    TitleOfCollapseHead(s, b);
  }

  /** Title-casing first, the kept first character comes out in front. */
  lemma CollapseOfTitleHead(s: string, b: bool)
    requires s != [] && !(|s| >= 2 && s[0] == ' ' && s[1] == ' ')
    ensures CollapseSpaces(TitleFrom(s, b)) ==
              [TitleChar(s[0], b)] + CollapseSpaces(TitleFrom(s[1..], IsLetter(s[0])))
  {
    var t := TitleFrom(s, b);
    assert t[0] == TitleChar(s[0], b) && t[1..] == TitleFrom(s[1..], IsLetter(s[0]));
    assert !(|t| >= 2 && t[0] == ' ' && t[1] == ' ');
  }

  /** Collapsing first, the kept first character comes out in front. */
  lemma TitleOfCollapseHead(s: string, b: bool)
    requires s != [] && !(|s| >= 2 && s[0] == ' ' && s[1] == ' ')
    ensures TitleFrom(CollapseSpaces(s), b) ==
              [TitleChar(s[0], b)] + TitleFrom(CollapseSpaces(s[1..]), IsLetter(s[0]))
  {
    var c := CollapseSpaces(s[1..]);
    assert CollapseSpaces(s) == [s[0]] + c;
    assert ([s[0]] + c)[1..] == c;
  }

  /** A standardized name is its own title case. */
  lemma StandardizedIsTitled(name: string)
    ensures Title(StandardizeName(name)) == StandardizeName(name)
  {
    var u := Title(Strip(name));
    CollapseTitleCommute(u, false);
    TitleTwice(Strip(name), false);
  }

  /** `standardize_name` is idempotent. */
  lemma StandardizeIdempotent(name: string)
    ensures StandardizeName(StandardizeName(name)) == StandardizeName(name)
  {
    var y := StandardizeName(name);
    StripTrimmed(y);
    StandardizedIsTitled(name);
    CollapseNoDouble(y);
  }

  /** In a standardized name every letter is upper case exactly when it
      starts a word, i.e. the character before it is not a letter. */
  lemma StandardizedWordCase(name: string, i: int)
    requires 0 <= i < |StandardizeName(name)| && IsLetter(StandardizeName(name)[i])
    ensures IsUpper(StandardizeName(name)[i]) <==> (i == 0 || !IsLetter(StandardizeName(name)[i - 1]))
  {
    var y := StandardizeName(name);
    StandardizedIsTitled(name);
    assert Title(y)[i] == y[i];
  }
}
