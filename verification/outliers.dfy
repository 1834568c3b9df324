/** `remove_outliers_with_allowlist` (identical in the products and the
    sales script): linear-interpolation quartiles of the current column,
    the bounds q1 - m*IQR and q3 + m*IQR, and a mask that keeps a row when
    its value lies within the bounds or is one of the allowed values. */
module Outliers {
  import opened Wrappers
  import opened Cells
  import opened Tables

  predicate SortedReals(xs: seq<real>) {
    forall i, j :: 0 <= i < j < |xs| ==> xs[i] <= xs[j]
  }

  function InsertReal(x: real, s: seq<real>): (r: seq<real>)
    ensures multiset(r) == multiset(s) + multiset{x}
  {
    if s == [] || x <= s[0] then [x] + s
    else
      assert s == [s[0]] + s[1..];
      [s[0]] + InsertReal(x, s[1..])
  }

  /** Putting in front a value no greater than any element keeps a
      sequence sorted. */
  lemma ConsSorted(y: real, r: seq<real>)
    requires SortedReals(r) && forall z :: z in r ==> y <= z
    ensures SortedReals([y] + r)
  {
    var yr := [y] + r;
    forall i, j | 0 <= i < j < |yr| ensures yr[i] <= yr[j] {
      if i == 0 { assert yr[j] == r[j - 1]; assert yr[j] in r; }
      else { assert yr[i] == r[i - 1] && yr[j] == r[j - 1]; }
    }
  }

  lemma {:induction false} InsertRealSorted(x: real, s: seq<real>)
    requires SortedReals(s)
    ensures SortedReals(InsertReal(x, s))
  {
    if s == [] {
    } else if x <= s[0] {
      forall z | z in s ensures x <= z {
        var j :| 0 <= j < |s| && s[j] == z;
        assert s[0] <= s[j];
      }
      ConsSorted(x, s);
    } else {
      var tail := s[1..];
      assert SortedReals(tail) by {
        forall i, j | 0 <= i < j < |tail| ensures tail[i] <= tail[j] {
          assert tail[i] == s[i + 1] && tail[j] == s[j + 1];
        }
      }
      InsertRealSorted(x, tail);
      var rest := InsertReal(x, tail);
      forall z | z in rest ensures s[0] <= z {
        assert z in multiset(rest);
        if z != x {
          assert z in multiset(tail);
          var j :| 0 <= j < |tail| && tail[j] == z;
          assert s[j + 1] == z;
        }
      }
      ConsSorted(s[0], rest);
    }
  }

  /** The column in ascending order, as `quantile` sorts it. */
  function SortReals(xs: seq<real>): (r: seq<real>)
    ensures SortedReals(r) && multiset(r) == multiset(xs)
  {
    if xs == [] then []
    else
      assert xs == [xs[0]] + xs[1..];
      InsertRealSorted(xs[0], SortReals(xs[1..]));
      InsertReal(xs[0], SortReals(xs[1..]))
  }

  /** The non-NaN values of column `k`, which `quantile` works on. */
  function ColumnValues(t: Table, k: nat): (vs: seq<real>)
    ensures forall v :: v in vs <==> exists x :: x in t && At(x, k) == Num(v)
  {
    if t == [] then []
    else
      var head := if At(t[0], k).Num? then [At(t[0], k).x] else [];
      var vs := head + ColumnValues(t[1..], k);
      assert forall x :: x in t <==> x == t[0] || x in t[1..];
      vs
  }

  lemma MulNonneg(a: real, b: real)
    requires 0.0 <= a && 0.0 <= b
    ensures 0.0 <= a * b
  {
  }

  /** `a + g * (b - a)`, the interpolation numpy's "linear" method uses. */
  function Lerp(a: real, b: real, g: real): (r: real)
    requires a <= b && 0.0 <= g <= 1.0
    ensures a <= r <= b
  {
    MulNonneg(g, b - a);
    MulNonneg(1.0 - g, b - a);
    a + g * (b - a)
  }

  lemma LerpMonotone(a: real, b: real, g1: real, g2: real)
    requires a <= b && 0.0 <= g1 <= g2 <= 1.0
    ensures Lerp(a, b, g1) <= Lerp(a, b, g2)
  {
    MulNonneg(g2 - g1, b - a);
  }

  /** The fractional position `(n - 1) * p` of the p-quantile. */
  function QuantilePos(n: nat, p: real): (h: real)
    requires n >= 1 && 0.0 <= p <= 1.0
    ensures 0.0 <= h <= (n - 1) as real
    ensures 0 <= h.Floor <= n - 1
  {
    MulNonneg((n - 1) as real, p);
    MulNonneg((n - 1) as real, 1.0 - p);
    (n - 1) as real * p
  }

  /** `Series.quantile(p)` with pandas' default linear interpolation, on the
      sorted values: with h = (n - 1) * p the result lies between
      xs[floor h] and xs[floor h + 1]. NaN (None) for an empty column. */
  function Quantile(xs: seq<real>, p: real): (q: Option<real>)
    requires SortedReals(xs) && 0.0 <= p <= 1.0
    ensures q.None? <==> xs == []
    ensures q.Some? ==> xs[0] <= q.value <= xs[|xs| - 1]
    ensures xs != [] ==>
              var lo := QuantilePos(|xs|, p).Floor;
              if lo + 1 < |xs| then xs[lo] <= q.value <= xs[lo + 1] else q.value == xs[lo]
  {
    if xs == [] then None
    else
      var h := QuantilePos(|xs|, p);
      var lo := h.Floor;
      if lo + 1 < |xs| then
        var r := Lerp(xs[lo], xs[lo + 1], h - lo as real);
        assert xs[0] <= xs[lo] && xs[lo + 1] <= xs[|xs| - 1];
        Some(r)
      else Some(xs[lo])
  }

  /** A larger p never gives a smaller quantile. */
  lemma QuantileMonotone(xs: seq<real>, p1: real, p2: real)
    requires SortedReals(xs) && 0.0 <= p1 <= p2 <= 1.0 && xs != []
    ensures Quantile(xs, p1).value <= Quantile(xs, p2).value
  {
    var n := |xs|;
    var h1, h2 := QuantilePos(n, p1), QuantilePos(n, p2);
    MulNonneg((n - 1) as real, p2 - p1);
    assert h1 <= h2;
    var lo1, lo2 := h1.Floor, h2.Floor;
    assert lo1 <= lo2;
    if lo1 == lo2 {
      if lo1 + 1 < n {
        LerpMonotone(xs[lo1], xs[lo1 + 1], h1 - lo1 as real, h2 - lo2 as real);
      }
    } else {
      assert lo1 + 1 <= lo2;
      var q1 := Lerp(xs[lo1], xs[lo1 + 1], h1 - lo1 as real);
      assert Quantile(xs, p1).value == q1;
      assert xs[lo1 + 1] <= xs[lo2];
      if lo2 + 1 < n {
        assert xs[lo2] <= Lerp(xs[lo2], xs[lo2 + 1], h2 - lo2 as real);
      }
    }
  }

  /** `df[column].quantile(p)`: the quantile of the column's non-NaN values. */
  function ColumnQuantile(t: Table, k: nat, p: real): (q: Option<real>)
    requires 0.0 <= p <= 1.0
    ensures q.None? <==> ColumnValues(t, k) == []
  {
    Quantile(SortReals(ColumnValues(t, k)), p)
  }

  function Min(vs: seq<real>): (m: real)
    requires vs != []
    ensures m in vs && forall v :: v in vs ==> m <= v
  {
    if |vs| == 1 then vs[0]
    else
      var m := Min(vs[1..]);
      assert forall v :: v in vs ==> v == vs[0] || v in vs[1..];
      if vs[0] <= m then vs[0] else m
  }

  function Max(vs: seq<real>): (m: real)
    requires vs != []
    ensures m in vs && forall v :: v in vs ==> v <= m
  {
    if |vs| == 1 then vs[0]
    else
      var m := Max(vs[1..]);
      assert forall v :: v in vs ==> v == vs[0] || v in vs[1..];
      if m <= vs[0] then vs[0] else m
  }

  /** The quartiles of a non-empty column lie between its smallest and its
      largest value, first quartile first. */
  lemma {:induction false} QuartilesOrdered(t: Table, k: nat)
    requires ColumnValues(t, k) != []
    ensures var vs := ColumnValues(t, k);
            var q1, q3 := ColumnQuantile(t, k, 0.25).value, ColumnQuantile(t, k, 0.75).value;
            Min(vs) <= q1 <= q3 <= Max(vs)
  {
    var vs := ColumnValues(t, k);
    var xs := SortReals(vs);
    assert xs != [] by { assert |multiset(xs)| == |multiset(vs)|; }
    assert xs[0] in vs by { assert xs[0] in multiset(vs); }
    assert xs[|xs| - 1] in vs by { assert xs[|xs| - 1] in multiset(vs); }
    var lo, hi := Min(vs), Max(vs);
    assert lo in xs by { assert lo in multiset(xs); }
    assert hi in xs by { assert hi in multiset(xs); }
    QuantileMonotone(xs, 0.25, 0.75);
  }

  /** The allowed values; `allowed_values=None` means none. */
  function AllowList(allowedValues: Option<seq<real>>): (r: seq<real>)
    ensures allowedValues.None? ==> r == []
    ensures allowedValues.Some? ==> r == allowedValues.value
  {
    if allowedValues.None? then [] else allowedValues.value
  }

  /** [q1 - m * IQR, q3 + m * IQR]; None when the column has no values and
      the bounds are NaN. With a non-negative multiplier the bounds enclose
      the interquartile range. */
  function IqrBounds(t: Table, k: nat, multiplier: real): (b: Option<(real, real)>)
    ensures b.None? <==> ColumnValues(t, k) == []
    ensures b.Some? && multiplier >= 0.0 ==>
              b.value.0 <= ColumnQuantile(t, k, 0.25).value <= ColumnQuantile(t, k, 0.75).value <= b.value.1
  {
    match (ColumnQuantile(t, k, 0.25), ColumnQuantile(t, k, 0.75))
    case (Some(q1), Some(q3)) =>
      QuartilesOrdered(t, k);
      var iqr := q3 - q1;
      assert multiplier >= 0.0 ==> multiplier * iqr >= 0.0 by {
        if multiplier >= 0.0 { MulNonneg(multiplier, iqr); }
      }
      Some((q1 - multiplier * iqr, q3 + multiplier * iqr))
    case _ => None
  }

  /** The row-keeping condition of the final mask: the value is within the
      bounds or is allowed. NaN is neither. */
  predicate Retained(c: Cell, bounds: Option<(real, real)>, allowed: seq<real>)
    ensures Retained(c, bounds, allowed) ==> c.Num?
    ensures c.Num? && c.x in allowed ==> Retained(c, bounds, allowed)
    ensures c.Num? && bounds.Some? && bounds.value.0 <= c.x <= bounds.value.1 ==> Retained(c, bounds, allowed)
  {
    c.Num? && ((bounds.Some? && bounds.value.0 <= c.x <= bounds.value.1) || c.x in allowed)
  }

  /** A column that holds numbers and NaN only, as after `pd.to_numeric`;
      comparing strings with the bounds would raise. */
  predicate NumericColumn(t: Table, k: nat) {
    forall x :: x in t ==> At(x, k).Num? || At(x, k).Missing?
  }

  /** How many entries of a mask are true (`final_mask.sum()`). */
  function CountTrue(mask: seq<bool>): (n: nat)
    ensures n <= |mask|
  {
    if mask == [] then 0 else CountTrue(mask[..|mask| - 1]) + (if mask[|mask| - 1] then 1 else 0)
  }

  /** `final_mask`: within the bounds or allowed, row by row. */
  function FinalMask(t: Table, k: nat, bounds: Option<(real, real)>, allowed: seq<real>): (mask: seq<bool>)
    ensures |mask| == |t|
    ensures forall i :: 0 <= i < |t| ==> (mask[i] <==> Retained(At(t[i], k), bounds, allowed))
  {
    seq(|t|, i requires 0 <= i < |t| => Retained(At(t[i], k), bounds, allowed))
  }

  /** The positions `df[final_mask]` selects. */
  function KeptPositions(t: Table, k: nat, bounds: Option<(real, real)>, allowed: seq<real>): set<int> {
    set i | 0 <= i < |t| && Retained(At(t[i], k), bounds, allowed)
  }

  lemma {:induction false} PositionsCount(mask: seq<bool>, n: nat, K: set<int>)
    requires n <= |mask|
    requires forall i :: 0 <= i < |mask| ==> (i in K <==> mask[i])
    ensures |Positions(n, K)| == CountTrue(mask[..n])
  {
    if n > 0 {
      PositionsCount(mask, n - 1, K);
      assert mask[..n][..n - 1] == mask[..n - 1];
    }
  }

  /** The mask selects as many rows as it has true entries. */
  lemma KeptCount(t: Table, k: nat, bounds: Option<(real, real)>, allowed: seq<real>)
    ensures |Select(t, KeptPositions(t, k, bounds, allowed))| == CountTrue(FinalMask(t, k, bounds, allowed))
  {
    var mask := FinalMask(t, k, bounds, allowed);
    PositionsCount(mask, |t|, KeptPositions(t, k, bounds, allowed));
    assert mask[..|t|] == mask;
  }

  /** A row is selected exactly when it is a row of the frame that the
      mask keeps. */
  lemma KeptMembers(t: Table, k: nat, bounds: Option<(real, real)>, allowed: seq<real>)
    ensures forall x :: x in Select(t, KeptPositions(t, k, bounds, allowed)) <==>
              x in t && Retained(At(x, k), bounds, allowed)
  {
    var K := KeptPositions(t, k, bounds, allowed);
    forall x ensures x in Select(t, K) <==> x in t && Retained(At(x, k), bounds, allowed) {
      SelectMember(t, K, x);
      if x in t && Retained(At(x, k), bounds, allowed) {
        var i :| 0 <= i < |t| && t[i] == x;
        assert i in K;
      }
    }
  }

  datatype Outcome = Outcome(kept: Table, removed: int)

  /** `remove_outliers_with_allowlist(df, column, multiplier, allowed_values)`:
      keeps exactly the rows whose value is within the IQR bounds of the
      current column or allowed, in their original order, and reports how
      many rows it removed. */
  function RemoveOutliersWithAllowlist(t: Table, k: nat, multiplier: real,
                                       allowedValues: Option<seq<real>>): (r: Outcome)
    requires NumericColumn(t, k)
    ensures forall x :: x in r.kept <==>
              x in t && Retained(At(x, k), IqrBounds(t, k, multiplier), AllowList(allowedValues))
    ensures r.kept == Select(t, KeptPositions(t, k, IqrBounds(t, k, multiplier), AllowList(allowedValues)))
    ensures r.removed == |t| - |r.kept| && r.removed >= 0
  {
    var bounds := IqrBounds(t, k, multiplier);
    var allowed := AllowList(allowedValues);
    var finalMask := FinalMask(t, k, bounds, allowed);
    var kept := Select(t, KeptPositions(t, k, bounds, allowed));
    KeptCount(t, k, bounds, allowed);
    KeptMembers(t, k, bounds, allowed);
    Outcome(kept, |t| - CountTrue(finalMask))
  }

  /** The filter keeps the rows in their original order. */
  lemma OutliersKeepOrder(t: Table, k: nat, multiplier: real, allowedValues: Option<seq<real>>)
    requires NumericColumn(t, k)
    ensures LabelsIncrease(t) ==> LabelsIncrease(RemoveOutliersWithAllowlist(t, k, multiplier, allowedValues).kept)
    ensures LabelsDistinct(t) ==> LabelsDistinct(RemoveOutliersWithAllowlist(t, k, multiplier, allowedValues).kept)
  {
    var K := KeptPositions(t, k, IqrBounds(t, k, multiplier), AllowList(allowedValues));
    if LabelsIncrease(t) {
      SelectPairwise(t, K, (a: Record, b: Record) => a.index < b.index);
    }
    if LabelsDistinct(t) {
      SelectPairwise(t, K, (a: Record, b: Record) => a.index != b.index);
    }
  }

  /** `allowed_values=None` behaves as the empty list. */
  lemma NoneMeansEmpty(t: Table, k: nat, multiplier: real)
    requires NumericColumn(t, k)
    ensures RemoveOutliersWithAllowlist(t, k, multiplier, None)
         == RemoveOutliersWithAllowlist(t, k, multiplier, Some([]))
  {
  }

  /** An allowed value is never removed, however far outside the bounds. */
  lemma AllowedNeverRemoved(t: Table, k: nat, multiplier: real, allowed: seq<real>, x: Record)
    requires NumericColumn(t, k)
    requires x in t && At(x, k).Num? && At(x, k).x in allowed
    ensures x in RemoveOutliersWithAllowlist(t, k, multiplier, Some(allowed)).kept
  {
  }

  /** With a non-negative multiplier every value between the quartiles
      survives. */
  lemma InterquartileSurvives(t: Table, k: nat, multiplier: real, allowedValues: Option<seq<real>>, x: Record)
    requires NumericColumn(t, k) && multiplier >= 0.0
    requires x in t && At(x, k).Num?
    requires ColumnQuantile(t, k, 0.25).Some?
    requires ColumnQuantile(t, k, 0.25).value <= At(x, k).x <= ColumnQuantile(t, k, 0.75).value
    ensures x in RemoveOutliersWithAllowlist(t, k, multiplier, allowedValues).kept
  {
  }

  /** A value that is neither allowed nor within the bounds is removed. */
  lemma OutsideRemoved(t: Table, k: nat, multiplier: real, allowedValues: Option<seq<real>>, x: Record)
    requires NumericColumn(t, k)
    requires x in t && At(x, k).Num? && At(x, k).x !in AllowList(allowedValues)
    requires IqrBounds(t, k, multiplier).Some?
    requires var b := IqrBounds(t, k, multiplier).value; At(x, k).x < b.0 || At(x, k).x > b.1
    ensures x !in RemoveOutliersWithAllowlist(t, k, multiplier, allowedValues).kept
  {
  }
}
