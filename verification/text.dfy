/** Python's `str` methods used by the cleaning scripts, with case on ASCII
    letters only:
    `isspace`, `lower`, `upper`, `strip`, and the code-point order `<=` on
    strings that pandas' `sort_values` uses for text columns. */
module Text {

  /** Python's `str.isspace`, which is what `str.strip()` removes: space,
      \t \n \v \f \r, the separator controls \x1c-\x1f, \x85, the
      no-break space \xa0 and the Unicode spaces and separators. */
  predicate IsSpace(c: char) {
    c == ' ' || ('\t' <= c <= '\r') || ('\U{1c}' <= c <= '\U{1f}') || c == '\U{85}' || c == '\U{a0}'
    || c == '\U{1680}' || ('\U{2000}' <= c <= '\U{200a}') || c == '\U{2028}' || c == '\U{2029}'
    || c == '\U{202f}' || c == '\U{205f}' || c == '\U{3000}'
  }

  /** Text made of whitespace only. */
  predicate Blank(s: string) {
    s == [] || (IsSpace(s[0]) && Blank(s[1..]))
  }

  lemma {:induction false} BlankSpaces(s: string)
    requires Blank(s)
    ensures forall i :: 0 <= i < |s| ==> IsSpace(s[i])
  {
    if s != [] {
      BlankSpaces(s[1..]);
      assert forall i :: 1 <= i < |s| ==> s[i] == s[1..][i - 1];
    }
  }

  /** ASCII letters, the only characters Python calls "cased" in this model. */
  predicate IsLetter(c: char) {
    ('a' <= c <= 'z') || ('A' <= c <= 'Z')
  }

  predicate IsUpper(c: char) { 'A' <= c <= 'Z' }

  predicate IsLower(c: char) { 'a' <= c <= 'z' }

  function LowerChar(c: char): (r: char)
    ensures IsLetter(r) == IsLetter(c) && IsSpace(r) == IsSpace(c)
    ensures IsLetter(c) ==> IsLower(r)
    ensures !IsUpper(r)
    ensures !IsUpper(c) ==> r == c
  {
    if IsUpper(c) then (c as int + 32) as char else c
  }

  function UpperChar(c: char): (r: char)
    ensures IsLetter(r) == IsLetter(c) && IsSpace(r) == IsSpace(c)
    ensures IsLetter(c) ==> IsUpper(r)
    ensures !IsLower(c) ==> r == c
  {
    if IsLower(c) then (c as int - 32) as char else c
  }

  /** `str.lower()` */
  function Lower(s: string): (r: string)
    ensures |r| == |s|
    ensures forall i :: 0 <= i < |s| ==> r[i] == LowerChar(s[i])
  {
    if s == [] then [] else [LowerChar(s[0])] + Lower(s[1..])
  }

  function StripLeft(s: string): (r: string)
    ensures |r| <= |s| && r == s[|s| - |r|..]
    ensures r == [] || !IsSpace(r[0])
    ensures forall i :: 0 <= i < |s| - |r| ==> IsSpace(s[i])
  {
    if s != [] && IsSpace(s[0]) then
      var r := StripLeft(s[1..]);
      assert s[1..][|s| - 1 - |r|..] == s[|s| - |r|..];
      assert forall i :: 1 <= i < |s| - |r| ==> s[i] == s[1..][i - 1];
      r
    else s
  }

  function StripRight(s: string): (r: string)
    ensures |r| <= |s| && r == s[..|r|]
    ensures r == [] || !IsSpace(r[|r| - 1])
    ensures forall i :: |r| <= i < |s| ==> IsSpace(s[i])
  {
    if s != [] && IsSpace(s[|s| - 1]) then StripRight(s[..|s| - 1]) else s
  }

  /** The number of whitespace characters `str.strip()` removes at the front. */
  function LeadingSpaces(s: string): (n: nat)
    ensures n <= |s|
  {
    |s| - |StripLeft(s)|
  }

  /** `str.strip()`: what remains of `s` after removing only whitespace at
      both ends (`StripLeft(s)` is the suffix after the leading whitespace;
      the result is a prefix of it); it neither starts nor ends with
      whitespace. */
  function Strip(s: string): (r: string)
    ensures LeadingSpaces(s) + |r| <= |s|
    ensures r == StripLeft(s)[..|r|]
    ensures r == [] || (!IsSpace(r[0]) && !IsSpace(r[|r| - 1]))
    ensures forall i :: 0 <= i < LeadingSpaces(s) ==> IsSpace(s[i])
    ensures forall i :: LeadingSpaces(s) + |r| <= i < |s| ==> IsSpace(s[i])
  {
    StripTail(s);
    StripRight(StripLeft(s))
  }

  /** Everything after the result of both strips is whitespace. */
  lemma StripTail(s: string)
    ensures forall i :: LeadingSpaces(s) + |StripRight(StripLeft(s))| <= i < |s| ==> IsSpace(s[i])
  {
    var l := StripLeft(s);
    var lead := LeadingSpaces(s);
    assert l == s[lead..];
    SuffixSpaces(s, lead, |StripRight(l)|);
  }

  /** Whitespace at the end of a suffix of `s` is whitespace at the end of `s`. */
  lemma SuffixSpaces(s: string, lead: nat, m: nat)
    requires lead + m <= |s|
    requires forall i :: m <= i < |s| - lead ==> IsSpace(s[lead..][i])
    ensures forall i :: lead + m <= i < |s| ==> IsSpace(s[i])
  {
    forall i | lead + m <= i < |s| ensures IsSpace(s[i]) {
      assert s[i] == s[lead..][i - lead];
    }
  }

  /** `s` is some leading whitespace, the stripped text and some trailing
      whitespace. */
  lemma StripSplit(s: string) returns (pre: string, post: string)
    ensures s == pre + Strip(s) + post
    ensures forall i :: 0 <= i < |pre| ==> IsSpace(pre[i])
    ensures forall i :: 0 <= i < |post| ==> IsSpace(post[i])
  {
    var l := LeadingSpaces(s);
    var m := Strip(s);
    StripIsSlice(s);
    Split3(s, l, l + |m|);
    pre := SpacesSlice(s, 0, l);
    post := SpacesSlice(s, l + |m|, |s|);
  }

  /** A stretch of whitespace cut out of `s`. */
  lemma SpacesSlice(s: string, i: nat, j: nat) returns (w: string)
    requires i <= j <= |s| && forall k :: i <= k < j ==> IsSpace(s[k])
    ensures w == s[i..j] && forall k :: 0 <= k < |w| ==> IsSpace(w[k])
  {
    w := s[i..j];
    forall k | 0 <= k < |w| ensures IsSpace(w[k]) {
      assert w[k] == s[i + k];
    }
  }

  /** The stripped text sits right after the leading whitespace. */
  lemma StripIsSlice(s: string)
    ensures LeadingSpaces(s) + |Strip(s)| <= |s|
    ensures Strip(s) == s[LeadingSpaces(s)..LeadingSpaces(s) + |Strip(s)|]
  {
    var l := LeadingSpaces(s);
    assert StripLeft(s) == s[l..];
  }

  /** Lower-casing then stripping leaves no upper-case letter. */
  lemma StripLowerNoUpper(s: string)
    ensures forall i :: 0 <= i < |Strip(Lower(s))| ==> !IsUpper(Strip(Lower(s))[i])
  {
    var low := Lower(s);
    StripIsSlice(low);
    var t := Strip(low);
    forall i | 0 <= i < |t| ensures !IsUpper(t[i]) {
      assert t[i] == low[LeadingSpaces(low) + i];
    }
  }

  lemma Split3(s: string, i: nat, j: nat)
    requires i <= j <= |s|
    ensures s == s[0..i] + s[i..j] + s[j..|s|]
  {
  }

  /** A string that already has no surrounding whitespace is left alone. */
  lemma {:induction false} StripTrimmed(s: string)
    requires s == [] || (!IsSpace(s[0]) && !IsSpace(s[|s| - 1]))
    ensures Strip(s) == s
  {
  }

  /** Whitespace in front of a string that does not start with whitespace
      is exactly what `lstrip` removes. */
  lemma {:induction false} StripLeftSpaces(pre: string, u: string)
    requires forall i :: 0 <= i < |pre| ==> IsSpace(pre[i])
    requires u == [] || !IsSpace(u[0])
    ensures StripLeft(pre + u) == u
    decreases |pre|
  {
    if pre == [] {
      assert pre + u == u;
    } else {
      assert (pre + u)[1..] == pre[1..] + u;
      StripLeftSpaces(pre[1..], u);
    }
  }

  /** Whitespace after a string that does not end with whitespace is
      exactly what `rstrip` removes. */
  lemma {:induction false} StripRightSpaces(u: string, post: string)
    requires forall i :: 0 <= i < |post| ==> IsSpace(post[i])
    requires u == [] || !IsSpace(u[|u| - 1])
    ensures StripRight(u + post) == u
    decreases |post|
  {
    if post == [] {
      assert u + post == u;
    } else {
      var last := |post| - 1;
      assert (u + post)[..|u + post| - 1] == u + post[..last];
      StripRightSpaces(u, post[..last]);
    }
  }

  /** `strip` undoes any whitespace padding around a trimmed string. */
  lemma StripPadded(pre: string, s: string, post: string)
    requires forall i :: 0 <= i < |pre| ==> IsSpace(pre[i])
    requires forall i :: 0 <= i < |post| ==> IsSpace(post[i])
    requires s == [] || (!IsSpace(s[0]) && !IsSpace(s[|s| - 1]))
    ensures Strip(pre + s + post) == s
  {
    if s == [] {
      assert pre + s + post == (pre + post) + [];
      assert forall i :: 0 <= i < |pre + post| ==> IsSpace((pre + post)[i]);
      StripLeftSpaces(pre + post, []);
    } else {
      assert pre + s + post == pre + (s + post);
      StripLeftSpaces(pre, s + post);
      StripRightSpaces(s, post);
    }
  }

  /** Lexicographic order on code points, Python's `<=` on `str`. */
  predicate StrLeq(a: string, b: string)
    decreases |a|
  {
    a == [] || (b != [] && (a[0] < b[0] || (a[0] == b[0] && StrLeq(a[1..], b[1..]))))
  }

  lemma {:induction false} StrLeqTotal(a: string, b: string)
    ensures StrLeq(a, b) || StrLeq(b, a)
    decreases |a|
  {
    if a != [] && b != [] && a[0] == b[0] {
      StrLeqTotal(a[1..], b[1..]);
    }
  }

  lemma {:induction false} StrLeqTrans(a: string, b: string, c: string)
    requires StrLeq(a, b) && StrLeq(b, c)
    ensures StrLeq(a, c)
    decreases |a|
  {
    if a != [] && b != [] && c != [] && a[0] == b[0] && b[0] == c[0] {
      StrLeqTrans(a[1..], b[1..], c[1..]);
    }
  }
}
