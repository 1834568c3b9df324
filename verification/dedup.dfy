/** `remove_fuzzy_duplicates`: sort by JoinDate, then walk the sorted rows
    and, for every row not yet marked, mark each later unmarked row whose
    join date is the same instant and whose name scores above 90 against
    it; finally drop the marked rows by label. Which of the sorted orders
    the sort returns is left open (a `Sorter`), and every guarantee below
    holds for each of them. */
module FuzzyDedup {
  import opened Wrappers
  import opened Cells
  import opened Tables

  /** Names must score strictly above this to count as the same customer. */
  const Threshold: int := 90

  /** `pd.to_datetime(date1) == pd.to_datetime(date2)` and
      `fuzz.ratio(name1, name2) > 90` for `a` before `b`. NaT equals nothing. */
  predicate Dup(lib: Library, a: Record, b: Record, nameCol: nat, dateCol: nat)
    ensures Dup(lib, a, b, nameCol, dateCol) ==>
              ScalarDatetime(lib, At(a, dateCol)).Valid?
              && ScalarDatetime(lib, At(a, dateCol)) == ScalarDatetime(lib, At(b, dateCol))
              && lib.ratio(AsStr(lib, At(a, nameCol)), AsStr(lib, At(b, nameCol))) > Threshold
    ensures At(a, dateCol).Missing? || At(b, dateCol).Missing? ==> !Dup(lib, a, b, nameCol, dateCol)
  {
    SameInstant(ScalarDatetime(lib, At(a, dateCol)), ScalarDatetime(lib, At(b, dateCol)))
    && lib.ratio(AsStr(lib, At(a, nameCol)), AsStr(lib, At(b, nameCol))) > Threshold
  }

  /** Row `k` of the sorted frame is kept: no earlier kept row is its
      duplicate. (An earlier row that was itself dropped marks nothing.) */
  predicate Survives(lib: Library, s: Table, nameCol: nat, dateCol: nat, k: nat)
    requires k < |s|
    ensures k == 0 ==> Survives(lib, s, nameCol, dateCol, k)
    ensures !ScalarDatetime(lib, At(s[k], dateCol)).Valid? ==> Survives(lib, s, nameCol, dateCol, k)
    decreases k
  {
    forall i :: 0 <= i < k ==>
      !(Survives(lib, s, nameCol, dateCol, i) && Dup(lib, s[i], s[k], nameCol, dateCol))
  }

  /** Row `k` is marked by one of the kept rows before position `m`. */
  predicate DroppedBefore(lib: Library, s: Table, nameCol: nat, dateCol: nat, k: nat, m: int)
    requires k < |s|
  {
    exists i :: 0 <= i < m && i < k &&
      Survives(lib, s, nameCol, dateCol, i) && Dup(lib, s[i], s[k], nameCol, dateCol)
  }

  /** The positions the loop marks in the sorted frame `s`. */
  function Marked(lib: Library, s: Table, nameCol: nat, dateCol: nat): set<int> {
    set k | 0 <= k < |s| && !Survives(lib, s, nameCol, dateCol, k)
  }

  /** The labels found at positions `P` (`df.index[list(to_drop)]`). */
  function LabelsAt(s: Table, P: set<int>): set<int> {
    set j | j in P && 0 <= j < |s| :: s[j].index
  }

  /** `df.drop(df.index[list(P)])`: every row whose label is one of the
      labels at positions `P` goes, in order otherwise. */
  function DropPositions(s: Table, P: set<int>): (r: Table)
    ensures forall x :: x in r <==> x in s && x.index !in LabelsAt(s, P)
  {
    var K := set k | 0 <= k < |s| && s[k].index !in LabelsAt(s, P);
    assert forall x :: x in Select(s, K) <==> x in s && x.index !in LabelsAt(s, P) by {
      forall x ensures x in Select(s, K) <==> x in s && x.index !in LabelsAt(s, P) {
        SelectMember(s, K, x);
      }
    }
    Select(s, K)
  }

  /** What the function returns, when no join date is unparseable, for the
      frame `s` that `sort_values` returned: the rows of `s` that no
      earlier kept row duplicates, in the order of `s`. */
  function Deduplicated(lib: Library, s: Table, nameCol: nat, dateCol: nat): (r: Table)
    ensures forall x :: x in r ==> x in s
    ensures s != [] && LabelsDistinct(s) ==> s[0] in r
  {
    var M := Marked(lib, s, nameCol, dateCol);
    var r := DropPositions(s, M);
    assert s != [] && LabelsDistinct(s) ==> s[0] in r by {
      if s != [] && LabelsDistinct(s) {
        assert Survives(lib, s, nameCol, dateCol, 0);
      }
    }
    r
  }

  /** Before row `i` is visited its mark is final: marked exactly when it
      does not survive. */
  lemma MarkedAtVisit(lib: Library, s: Table, nameCol: nat, dateCol: nat, i: nat)
    requires i < |s|
    ensures DroppedBefore(lib, s, nameCol, dateCol, i, i) <==> !Survives(lib, s, nameCol, dateCol, i)
  {
  }

  /** Visiting a kept row `i` adds the later rows it marks. */
  lemma VisitKept(lib: Library, s: Table, nameCol: nat, dateCol: nat, i: nat, k: nat)
    requires i < |s| && k < |s| && Survives(lib, s, nameCol, dateCol, i)
    ensures DroppedBefore(lib, s, nameCol, dateCol, k, i + 1) <==>
            DroppedBefore(lib, s, nameCol, dateCol, k, i) || (i < k && Dup(lib, s[i], s[k], nameCol, dateCol))
  {
    if DroppedBefore(lib, s, nameCol, dateCol, k, i + 1) && !DroppedBefore(lib, s, nameCol, dateCol, k, i) {
      var w :| 0 <= w < i + 1 && w < k &&
        Survives(lib, s, nameCol, dateCol, w) && Dup(lib, s[w], s[k], nameCol, dateCol);
      assert w == i;
    }
    if DroppedBefore(lib, s, nameCol, dateCol, k, i) {
      var w :| 0 <= w < i && w < k &&
        Survives(lib, s, nameCol, dateCol, w) && Dup(lib, s[w], s[k], nameCol, dateCol);
      assert 0 <= w < i + 1;
    }
  }

  /** Visiting a dropped row `i` marks nothing. */
  lemma VisitDropped(lib: Library, s: Table, nameCol: nat, dateCol: nat, i: nat, k: nat)
    requires i < |s| && k < |s| && !Survives(lib, s, nameCol, dateCol, i)
    ensures DroppedBefore(lib, s, nameCol, dateCol, k, i + 1) <==> DroppedBefore(lib, s, nameCol, dateCol, k, i)
  {
    if DroppedBefore(lib, s, nameCol, dateCol, k, i + 1) {
      var w :| 0 <= w < i + 1 && w < k &&
        Survives(lib, s, nameCol, dateCol, w) && Dup(lib, s[w], s[k], nameCol, dateCol);
      assert w != i;
    }
  }

  /** After the last visit the marks are exactly the rows that do not survive. */
  lemma MarksComplete(lib: Library, s: Table, nameCol: nat, dateCol: nat, k: nat)
    requires k < |s|
    ensures DroppedBefore(lib, s, nameCol, dateCol, k, |s|) <==> !Survives(lib, s, nameCol, dateCol, k)
  {
  }

  /** The marks after the inner loop has looked at rows up to `j` while
      visiting row `i`. */
  ghost predicate InnerMarks(lib: Library, s: Table, nameCol: nat, dateCol: nat, toDrop: set<int>, i: nat, j: nat)
  {
    forall k :: k in toDrop <==>
      (0 <= k < |s| && (DroppedBefore(lib, s, nameCol, dateCol, k, i) || (i < k < j && Dup(lib, s[i], s[k], nameCol, dateCol))))
  }

  /** One step of the inner loop keeps `InnerMarks`. */
  lemma InnerStep(lib: Library, s: Table, nameCol: nat, dateCol: nat, toDrop: set<int>, i: nat, j: nat, add: bool)
    requires i < j < |s| && InnerMarks(lib, s, nameCol, dateCol, toDrop, i, j)
    requires add <==> j !in toDrop && Dup(lib, s[i], s[j], nameCol, dateCol)
    ensures InnerMarks(lib, s, nameCol, dateCol, if add then toDrop + {j} else toDrop, i, j + 1)
  {
    var marks := if add then toDrop + {j} else toDrop;
    forall k ensures k in marks <==>
      (0 <= k < |s| && (DroppedBefore(lib, s, nameCol, dateCol, k, i) || (i < k < j + 1 && Dup(lib, s[i], s[k], nameCol, dateCol))))
    {
      if k != j {
        assert k in marks <==> k in toDrop;
      }
    }
  }

  /** The marks when row `i` is about to be visited. */
  ghost predicate OuterMarks(lib: Library, s: Table, nameCol: nat, dateCol: nat, toDrop: set<int>, i: nat)
  {
    forall k :: k in toDrop <==> 0 <= k < |s| && DroppedBefore(lib, s, nameCol, dateCol, k, i)
  }

  /** `pd.to_datetime` on this row's join date would raise. */
  predicate BadDate(lib: Library, x: Record, dateCol: nat) {
    ScalarDatetime(lib, At(x, dateCol)).Invalid?
  }

  /** The inner loop of the function: row `i`, which survives, marks every
      later unmarked row that duplicates it, parsing both join dates first.
      The first visit compares row 0 with every other row, so when it
      completes every join date has been parsed. */
  method MarkDuplicatesOf(lib: Library, s: Table, nameCol: nat, dateCol: nat, i: nat, toDrop0: set<int>)
    returns (r: Result<set<int>, Error>)
    requires i < |s| && i !in toDrop0
    requires OuterMarks(lib, s, nameCol, dateCol, toDrop0, i)
    ensures r.Failure? ==> r.error == UnparseableDate && |s| >= 2 && exists k :: 0 <= k < |s| && BadDate(lib, s[k], dateCol)
    ensures r.Success? ==> OuterMarks(lib, s, nameCol, dateCol, r.value, i + 1)
    ensures r.Success? && i == 0 && |s| >= 2 ==> forall k :: 0 <= k < |s| ==> !BadDate(lib, s[k], dateCol)
  {
    var n := |s|;
    var toDrop := toDrop0;
    MarkedAtVisit(lib, s, nameCol, dateCol, i);
    var j := i + 1;
    while j < n
      invariant i + 1 <= j <= n
      invariant InnerMarks(lib, s, nameCol, dateCol, toDrop, i, j)
      invariant i == 0 && j >= 2 ==> forall k :: 0 <= k < j ==> !BadDate(lib, s[k], dateCol)
    {
      var add := false;
      if j !in toDrop {
        var date1 := ScalarDatetime(lib, At(s[i], dateCol));
        var date2 := ScalarDatetime(lib, At(s[j], dateCol));
        if date1.Invalid? || date2.Invalid? {
          assert BadDate(lib, s[i], dateCol) || BadDate(lib, s[j], dateCol);
          return Failure(UnparseableDate);
        }
        add := SameInstant(date1, date2)
               && lib.ratio(AsStr(lib, At(s[i], nameCol)), AsStr(lib, At(s[j], nameCol))) > Threshold;
      } else {
        assert i != 0;
      }
      InnerStep(lib, s, nameCol, dateCol, toDrop, i, j, add);
      if add {
        toDrop := toDrop + {j};
      }
      j := j + 1;
    }
    forall k | 0 <= k < n { VisitKept(lib, s, nameCol, dateCol, i, k); }
    return Success(toDrop);
  }

  /** The function proper, for the sort order `sort`. With fewer than two
      rows no date is ever parsed; otherwise every row's date is parsed
      while the first row is compared with the others, so the call fails
      exactly when some join date is unparseable. */
  method RemoveFuzzyDuplicates(lib: Library, sort: Sorter, t: Table, nameCol: nat, dateCol: nat)
    returns (r: Result<Table, Error>)
    ensures r.Failure? <==> |t| >= 2 && exists x :: x in t && BadDate(lib, x, dateCol)
    ensures r.Failure? ==> r.error == UnparseableDate
    ensures r.Success? ==> r.value == Deduplicated(lib, sort(t, dateCol), nameCol, dateCol)
  {
    var s := sort(t, dateCol);
    assert IsSortOf(s, t, dateCol);
    var n := |s|;
    assert n == |t| by { assert |multiset(s)| == |multiset(t)|; }
    assert forall x :: x in s <==> x in t by {
      forall x ensures x in s <==> x in t { assert x in s <==> x in multiset(s); }
    }
    var toDrop: set<int> := {};
    var i := 0;
    while i < n
      invariant 0 <= i <= n
      invariant OuterMarks(lib, s, nameCol, dateCol, toDrop, i)
      invariant i >= 1 && n >= 2 ==> forall k :: 0 <= k < n ==> !BadDate(lib, s[k], dateCol)
    {
      MarkedAtVisit(lib, s, nameCol, dateCol, i);
      if i !in toDrop {
        var marks := MarkDuplicatesOf(lib, s, nameCol, dateCol, i, toDrop);
        if marks.Failure? {
          assert exists x :: x in t && BadDate(lib, x, dateCol) by {
            var k :| 0 <= k < n && BadDate(lib, s[k], dateCol);
            assert s[k] in s;
          }
          return Failure(marks.error);
        }
        toDrop := marks.value;
      } else {
        assert i != 0;
        forall k | 0 <= k < n { VisitDropped(lib, s, nameCol, dateCol, i, k); }
      }
      i := i + 1;
    }
    forall k | 0 <= k < n { MarksComplete(lib, s, nameCol, dateCol, k); }
    assert n >= 2 ==> forall x :: x in t ==> !BadDate(lib, x, dateCol) by {
      if n >= 2 {
        forall x | x in t ensures !BadDate(lib, x, dateCol) {
          assert x in s;
          var k :| 0 <= k < n && s[k] == x;
        }
      }
    }
    assert toDrop == Marked(lib, s, nameCol, dateCol);
    return Success(DropPositions(s, toDrop));
  }

  /** The positions of the sorted frame whose rows survive. */
  function SurvivorPositions(lib: Library, s: Table, nameCol: nat, dateCol: nat): set<int> {
    set k | 0 <= k < |s| && Survives(lib, s, nameCol, dateCol, k)
  }

  /** With distinct labels, dropping the labels found at some positions
      drops exactly those positions. */
  lemma DropByPosition(s: Table, P: set<int>)
    requires LabelsDistinct(s)
    ensures DropPositions(s, P) == Select(s, set k | 0 <= k < |s| && k !in P)
  {
    var K1 := set k | 0 <= k < |s| && s[k].index !in LabelsAt(s, P);
    var K2 := set k | 0 <= k < |s| && k !in P;
    forall k | 0 <= k < |s| ensures k in K1 <==> k in K2 {
      if s[k].index in LabelsAt(s, P) {
        var j :| j in P && 0 <= j < |s| && s[j].index == s[k].index;
        assert j == k;
      }
    }
    assert K1 == K2;
  }

  /** With distinct labels (as `read_csv` gives them) the result is the
      sorted frame restricted to its surviving positions. */
  lemma DedupIsSelection(lib: Library, t: Table, s: Table, nameCol: nat, dateCol: nat)
    requires LabelsDistinct(t) && IsSortOf(s, t, dateCol)
    ensures LabelsDistinct(s)
    ensures Deduplicated(lib, s, nameCol, dateCol) == Select(s, SurvivorPositions(lib, s, nameCol, dateCol))
  {
    PermutationKeepsLabelsDistinct(s, t);
    DropByPosition(s, Marked(lib, s, nameCol, dateCol));
    assert (set k | 0 <= k < |s| && k !in Marked(lib, s, nameCol, dateCol))
        == SurvivorPositions(lib, s, nameCol, dateCol);
  }

  /** Whichever sorted order the sort returned, the result is a subsequence
      of it: still sorted by JoinDate, and every row of it is a row of the
      input. */
  lemma DedupSortedSubset(lib: Library, t: Table, s: Table, nameCol: nat, dateCol: nat)
    requires IsSortOf(s, t, dateCol)
    ensures SortedBy(Deduplicated(lib, s, nameCol, dateCol), dateCol)
    ensures forall x :: x in Deduplicated(lib, s, nameCol, dateCol) ==> x in t
  {
    var P := Marked(lib, s, nameCol, dateCol);
    var K := set k | 0 <= k < |s| && s[k].index !in LabelsAt(s, P);
    SelectPairwise(s, K, (a: Record, b: Record) => KeyLeq(At(a, dateCol), At(b, dateCol)));
    forall x | x in Deduplicated(lib, s, nameCol, dateCol) ensures x in t {
      assert x in multiset(s);
    }
  }

  /** A row at a surviving sorted position is kept. */
  lemma SurvivorKept(lib: Library, t: Table, s: Table, nameCol: nat, dateCol: nat, k: nat)
    requires LabelsDistinct(t) && IsSortOf(s, t, dateCol)
    requires k < |s| && Survives(lib, s, nameCol, dateCol, k)
    ensures s[k] in Deduplicated(lib, s, nameCol, dateCol)
  {
    var S := SurvivorPositions(lib, s, nameCol, dateCol);
    DedupIsSelection(lib, t, s, nameCol, dateCol);
    assert k in S;
    SelectMember(s, S, s[k]);
  }

  /** A kept row sits at a surviving sorted position. */
  lemma KeptSurvivor(lib: Library, t: Table, s: Table, nameCol: nat, dateCol: nat, k: nat)
    requires LabelsDistinct(t) && IsSortOf(s, t, dateCol)
    requires k < |s| && s[k] in Deduplicated(lib, s, nameCol, dateCol)
    ensures Survives(lib, s, nameCol, dateCol, k)
  {
    var S := SurvivorPositions(lib, s, nameCol, dateCol);
    DedupIsSelection(lib, t, s, nameCol, dateCol);
    SelectMember(s, S, s[k]);
    var i :| 0 <= i < |s| && i in S && s[i] == s[k];
    assert i == k;
  }

  /** A row is kept exactly when it survives at its sorted position. */
  lemma DedupMembers(lib: Library, t: Table, s: Table, nameCol: nat, dateCol: nat, x: Record)
    requires LabelsDistinct(t) && IsSortOf(s, t, dateCol)
    ensures x in Deduplicated(lib, s, nameCol, dateCol) <==>
              exists k :: 0 <= k < |s| && s[k] == x && Survives(lib, s, nameCol, dateCol, k)
  {
    var S := SurvivorPositions(lib, s, nameCol, dateCol);
    DedupIsSelection(lib, t, s, nameCol, dateCol);
    SelectMember(s, S, x);
    assert forall k :: 0 <= k < |s| ==> (k in S <==> Survives(lib, s, nameCol, dateCol, k));
  }

  /** The first row in the sorted order is always kept. */
  lemma FirstRowKept(lib: Library, t: Table, s: Table, nameCol: nat, dateCol: nat)
    requires LabelsDistinct(t) && IsSortOf(s, t, dateCol) && t != []
    ensures s != [] && s[0] in Deduplicated(lib, s, nameCol, dateCol)
  {
    assert |s| > 0 by { assert |multiset(s)| == |multiset(t)|; }
    assert Survives(lib, s, nameCol, dateCol, 0);
    SurvivorKept(lib, t, s, nameCol, dateCol, 0);
  }

  /** No two rows of the result are fuzzy duplicates of each other. */
  lemma NoDuplicatesRemain(lib: Library, t: Table, s: Table, nameCol: nat, dateCol: nat)
    requires LabelsDistinct(t) && IsSortOf(s, t, dateCol)
    ensures var r := Deduplicated(lib, s, nameCol, dateCol);
            forall i, j :: 0 <= i < j < |r| ==> !Dup(lib, r[i], r[j], nameCol, dateCol)
  {
    var S := SurvivorPositions(lib, s, nameCol, dateCol);
    DedupIsSelection(lib, t, s, nameCol, dateCol);
    forall i, j | 0 <= i < j < |s| && i in S && j in S ensures !Dup(lib, s[i], s[j], nameCol, dateCol) {
      assert Survives(lib, s, nameCol, dateCol, j);
    }
    SelectWithin(s, S, (a: Record, b: Record) => !Dup(lib, a, b, nameCol, dateCol));
  }

  /** A position that does not survive was marked by an earlier one that does. */
  lemma MarkedByKept(lib: Library, s: Table, nameCol: nat, dateCol: nat, k: nat)
    requires k < |s| && !Survives(lib, s, nameCol, dateCol, k)
    ensures exists i :: 0 <= i < k && Survives(lib, s, nameCol, dateCol, i) && Dup(lib, s[i], s[k], nameCol, dateCol)
  {
  }

  /** Every row that was removed has a kept row, earlier in the sorted
      order, with the same join date and a name scoring above 90 against
      it. */
  lemma DroppedHasKeptTwin(lib: Library, t: Table, s: Table, nameCol: nat, dateCol: nat, x: Record)
    requires LabelsDistinct(t) && IsSortOf(s, t, dateCol)
    requires x in t && x !in Deduplicated(lib, s, nameCol, dateCol)
    ensures exists y :: y in Deduplicated(lib, s, nameCol, dateCol) && Dup(lib, y, x, nameCol, dateCol)
  {
    var k := IndexOf(s, t, x);
    if Survives(lib, s, nameCol, dateCol, k) {
      SurvivorKept(lib, t, s, nameCol, dateCol, k);
    }
    MarkedByKept(lib, s, nameCol, dateCol, k);
    var i :| 0 <= i < k && Survives(lib, s, nameCol, dateCol, i) && Dup(lib, s[i], s[k], nameCol, dateCol);
    SurvivorKept(lib, t, s, nameCol, dateCol, i);
  }

  /** A row of a permutation's source sits at some position of the permutation. */
  ghost function IndexOf(s: Table, t: Table, x: Record): (k: nat)
    requires multiset(s) == multiset(t) && x in t
    ensures k < |s| && s[k] == x
  {
    assert x in multiset(s);
    var k :| 0 <= k < |s| && s[k] == x;
    k
  }

  /** A row whose join date does not parse to a timestamp (NaN, NaT) is
      never removed: NaT equals no date. */
  lemma UndatedRowsKept(lib: Library, t: Table, s: Table, nameCol: nat, dateCol: nat, x: Record)
    requires LabelsDistinct(t) && IsSortOf(s, t, dateCol)
    requires x in t && !ScalarDatetime(lib, At(x, dateCol)).Valid?
    ensures x in Deduplicated(lib, s, nameCol, dateCol)
  {
    var k := IndexOf(s, t, x);
    SurvivorKept(lib, t, s, nameCol, dateCol, k);
  }

  /** The result keeps the labels distinct. */
  lemma DedupLabelsDistinct(lib: Library, t: Table, s: Table, nameCol: nat, dateCol: nat)
    requires LabelsDistinct(t) && IsSortOf(s, t, dateCol)
    ensures LabelsDistinct(Deduplicated(lib, s, nameCol, dateCol))
  {
    DedupIsSelection(lib, t, s, nameCol, dateCol);
    SelectPairwise(s, SurvivorPositions(lib, s, nameCol, dateCol), (a: Record, b: Record) => a.index != b.index);
  }

  /** A frame in which no two rows are fuzzy duplicates, in either order,
      loses nothing: the result is the sorted frame itself, whichever
      sorted order the sort returned. */
  lemma NothingToRemove(lib: Library, t: Table, s: Table, nameCol: nat, dateCol: nat)
    requires LabelsDistinct(t) && IsSortOf(s, t, dateCol)
    requires forall i, j :: 0 <= i < |t| && 0 <= j < |t| && i != j ==> !Dup(lib, t[i], t[j], nameCol, dateCol)
    ensures Deduplicated(lib, s, nameCol, dateCol) == s
  {
    PermutationKeepsLabelsDistinct(s, t);
    var M := Marked(lib, s, nameCol, dateCol);
    forall k | 0 <= k < |s| ensures k !in M {
      forall i | 0 <= i < k ensures !Dup(lib, s[i], s[k], nameCol, dateCol) {
        var p := IndexOf(t, s, s[i]);
        var q := IndexOf(t, s, s[k]);
        assert s[i] != s[k];
      }
      assert Survives(lib, s, nameCol, dateCol, k);
    }
    DropByPosition(s, M);
    SelectAll(s, set k | 0 <= k < |s| && k !in M);
  }

  /** fuzz.ratio does not depend on the order of its arguments. */
  ghost predicate SymmetricRatio(lib: Library) {
    forall a, b :: lib.ratio(a, b) == lib.ratio(b, a)
  }

  /** Running the deduplication on its own result removes nothing more,
      whichever sorted orders the two sorts return. */
  lemma DedupIdempotent(lib: Library, t: Table, s: Table, s2: Table, nameCol: nat, dateCol: nat)
    requires SymmetricRatio(lib)
    requires LabelsDistinct(t) && IsSortOf(s, t, dateCol)
    requires IsSortOf(s2, Deduplicated(lib, s, nameCol, dateCol), dateCol)
    ensures Deduplicated(lib, s2, nameCol, dateCol) == s2
  {
    var r := Deduplicated(lib, s, nameCol, dateCol);
    NoDuplicatesRemain(lib, t, s, nameCol, dateCol);
    DedupLabelsDistinct(lib, t, s, nameCol, dateCol);
    forall i, j | 0 <= i < |r| && 0 <= j < |r| && i != j ensures !Dup(lib, r[i], r[j], nameCol, dateCol) {
      if j < i {
        assert !Dup(lib, r[j], r[i], nameCol, dateCol);
        assert lib.ratio(AsStr(lib, At(r[i], nameCol)), AsStr(lib, At(r[j], nameCol)))
            == lib.ratio(AsStr(lib, At(r[j], nameCol)), AsStr(lib, At(r[i], nameCol)));
      }
    }
    NothingToRemove(lib, r, s2, nameCol, dateCol);
  }
}
