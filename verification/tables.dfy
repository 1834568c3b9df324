/** DataFrames as sequences of labelled rows, and the pandas operations the
    scripts apply to whole frames: reading (RangeIndex labels), column
    lookup, column rewrites, boolean-mask selection, `dropna`,
    `sort_values` and `reset_index(drop=True)`. */
module Tables {
  import opened Wrappers
  import opened Text
  import opened Cells

  /** A row together with its index label. */
  datatype Record = Record(index: int, cells: seq<Cell>)

  type Table = seq<Record>

  /** The cell of column `k`; a column the row does not have reads as NaN. */
  function At(x: Record, k: nat): Cell {
    if k < |x.cells| then x.cells[k] else Missing
  }

  /** Raw row `i` of the file with its `read_csv` label (no cells when
      there is no such row). */
  function RowOf(rows: seq<seq<Cell>>, i: int): (x: Record)
    ensures x.index == i
  {
    Record(i, if 0 <= i < |rows| then rows[i] else [])
  }

  /** `pd.read_csv` gives the rows the labels 0..n-1. */
  function Load(rows: seq<seq<Cell>>): (t: Table)
    ensures |t| == |rows|
    ensures forall i :: 0 <= i < |t| ==> t[i] == Record(i, rows[i])
    ensures LabelsIncrease(t)
    ensures forall y :: y in t <==> 0 <= y.index < |rows| && y == RowOf(rows, y.index)
  {
    seq(|rows|, i requires 0 <= i < |rows| => Record(i, rows[i]))
  }

  /** A data row as `pd.read_csv` stores it: a row with fewer fields than
      the header is padded with NaN to the header's width. */
  function PadRow(cells: seq<Cell>, width: nat): (r: seq<Cell>)
    ensures |r| == if |cells| < width then width else |cells|
    ensures forall j :: 0 <= j < |r| ==> r[j] == if j < |cells| then cells[j] else Missing
  {
    if |cells| < width then cells + seq(width - |cells|, _ => Missing) else cells
  }

  /** The data rows of a file with header `header`, as `pd.read_csv` reads
      them: every row holds a cell for every column of the header. */
  function ReadCsv(header: seq<string>, rows: seq<seq<Cell>>): (r: seq<seq<Cell>>)
    ensures |r| == |rows|
    ensures forall i :: 0 <= i < |r| ==> |r[i]| >= |header| && r[i] == PadRow(rows[i], |header|)
  {
    seq(|rows|, i requires 0 <= i < |rows| => PadRow(rows[i], |header|))
  }

  /** Padding adds cells only where a row had none: every cell reads as
      before, and a column of the header reads NaN in a short row. */
  lemma PadKeepsCells(i: int, cells: seq<Cell>, width: nat, k: nat)
    ensures At(Record(i, PadRow(cells, width)), k) == At(Record(i, cells), k)
    ensures k < width ==> k < |PadRow(cells, width)|
  {
  }

  /** Why a cleaning run stops: a column the code indexes is absent
      (pandas' KeyError), or `pd.to_datetime` meets a join date it cannot
      parse outside a coercing call (a ValueError). */
  datatype Error = MissingColumn(name: string) | UnparseableDate

  /** The first position of `name` among the column headers; None is the
      KeyError pandas raises for a missing column. */
  function Find(columns: seq<string>, name: string): (r: Option<nat>)
    ensures r.Some? ==> r.value < |columns| && columns[r.value] == name
                        && forall j :: 0 <= j < r.value ==> columns[j] != name
    ensures r.None? <==> name !in columns
  {
    if columns == [] then None
    else if columns[0] == name then Some(0)
    else match Find(columns[1..], name)
      case None => None
      case Some(i) => Some(i + 1)
  }

  /** `df[name]` as a lookup that either finds the column or raises. */
  function Column(columns: seq<string>, name: string): (r: Result<nat, Error>)
    ensures r.Success? <==> name in columns
    ensures r.Success? ==> r.value < |columns| && columns[r.value] == name
    ensures r.Failure? ==> r.error == MissingColumn(name)
  {
    match Find(columns, name)
    case Some(k) => Success(k)
    case None => Failure(MissingColumn(name))
  }

  /** Where in `required` (the headers a script reads, in the order it
      first reads them) the first header absent from `columns` is; the
      script stops with a KeyError for that one. */
  function FirstAbsent(columns: seq<string>, required: seq<string>): (r: Option<nat>)
    ensures r.None? <==> forall j :: 0 <= j < |required| ==> required[j] in columns
    ensures r.Some? ==> r.value < |required| && required[r.value] !in columns
                        && forall j :: 0 <= j < r.value ==> required[j] in columns
  {
    if required == [] then None
    else if required[0] !in columns then Some(0)
    else match FirstAbsent(columns, required[1..])
      case None => None
      case Some(j) => Some(j + 1)
  }

  /** One header more at the front of `required`: it is reported if it is
      absent, and otherwise the report for the rest moves one place on. */
  lemma FirstAbsentCons(columns: seq<string>, h: string, rest: seq<string>)
    ensures FirstAbsent(columns, [h] + rest) ==
              if h !in columns then Some(0)
              else if FirstAbsent(columns, rest).None? then None
              else Some(FirstAbsent(columns, rest).value + 1)
  {
    assert ([h] + rest)[0] == h && ([h] + rest)[1..] == rest;
  }

  /** `df.columns.str.strip()`. */
  function StripColumns(header: seq<string>): (r: seq<string>)
    ensures |r| == |header| && forall i :: 0 <= i < |r| ==> r[i] == Strip(header[i])
  {
    seq(|header|, i requires 0 <= i < |header| => Strip(header[i]))
  }

  /** The positions in [0, n) that belong to K, in increasing order. */
  function Positions(n: nat, K: set<int>): (ps: seq<int>)
    ensures |ps| <= n
    ensures forall t :: 0 <= t < |ps| ==> 0 <= ps[t] < n && ps[t] in K
    ensures forall t, u :: 0 <= t < u < |ps| ==> ps[t] < ps[u]
    ensures forall i :: 0 <= i < n && i in K ==> i in ps
  {
    if n == 0 then [] else Positions(n - 1, K) + (if n - 1 in K then [n - 1] else [])
  }

  /** `df[mask]` and `df.drop(positions)`: the elements at the positions in
      K, in their original order. */
  function Select<T>(s: seq<T>, K: set<int>): (r: seq<T>)
    ensures |r| <= |s|
    ensures forall x :: x in r ==> x in s
  {
    var ps := Positions(|s|, K);
    seq(|ps|, t requires 0 <= t < |ps| => s[ps[t]])
  }

  /** An element is selected exactly when it sits at a selected position. */
  lemma SelectMember<T>(s: seq<T>, K: set<int>, x: T)
    ensures x in Select(s, K) <==> exists i :: 0 <= i < |s| && i in K && s[i] == x
  {
    var ps := Positions(|s|, K);
    var r := Select(s, K);
    if exists i :: 0 <= i < |s| && i in K && s[i] == x {
      var i :| 0 <= i < |s| && i in K && s[i] == x;
      var t :| 0 <= t < |ps| && ps[t] == i;
      assert r[t] == x;
    }
  }

  /** Every element of a selection is an element of the original. */
  lemma SelectSubset<T>(s: seq<T>, K: set<int>)
    ensures forall x :: x in Select(s, K) ==> x in s
  {
    forall x | x in Select(s, K) ensures x in s {
      SelectMember(s, K, x);
    }
  }

  /** Selection keeps relative order: a relation that holds between every
      earlier and later element of `s` holds in the selection too. */
  lemma SelectPairwise<T>(s: seq<T>, K: set<int>, R: (T, T) -> bool)
    requires forall i, j :: 0 <= i < j < |s| ==> R(s[i], s[j])
    ensures var r := Select(s, K);
            forall i, j :: 0 <= i < j < |r| ==> R(r[i], r[j])
  {
    var ps := Positions(|s|, K);
    var r := Select(s, K);
    forall i, j | 0 <= i < j < |r| ensures R(r[i], r[j]) {
      assert r[i] == s[ps[i]] && r[j] == s[ps[j]] && ps[i] < ps[j];
    }
  }

  /** A relation that holds between every earlier and later selected
      element of `s` holds between every earlier and later element of the
      selection. */
  lemma SelectWithin<T>(s: seq<T>, K: set<int>, R: (T, T) -> bool)
    requires forall i, j :: 0 <= i < j < |s| && i in K && j in K ==> R(s[i], s[j])
    ensures var r := Select(s, K);
            forall i, j :: 0 <= i < j < |r| ==> R(r[i], r[j])
  {
    var ps := Positions(|s|, K);
    var r := Select(s, K);
    forall i, j | 0 <= i < j < |r| ensures R(r[i], r[j]) {
      assert r[i] == s[ps[i]] && r[j] == s[ps[j]] && ps[i] < ps[j] && ps[i] in K && ps[j] in K;
    }
  }

  /** Selecting every position gives back the sequence. */
  lemma SelectAll<T>(s: seq<T>, K: set<int>)
    requires forall i :: 0 <= i < |s| ==> i in K
    ensures Select(s, K) == s
  {
    PositionsAll(|s|, K);
  }

  /** The positions 0..n-1 in order. */
  function Upto(n: nat): (r: seq<int>)
    ensures |r| == n && forall t :: 0 <= t < n ==> r[t] == t
  {
    if n == 0 then [] else Upto(n - 1) + [n - 1]
  }

  /** When every position is selected, the selected positions are 0..n-1. */
  lemma {:induction false} PositionsAll(n: nat, K: set<int>)
    requires forall i :: 0 <= i < n ==> i in K
    ensures Positions(n, K) == Upto(n)
  {
    if n > 0 {
      PositionsAll(n - 1, K);
      assert n - 1 in K;
    }
  }

  /** The rows whose cell in column `k` satisfies `p`: the shape of
      `df[df[col].isin(...)]` and of `df.dropna(subset=[col])`. */
  function Keep(t: Table, k: nat, p: Cell -> bool): (r: Table)
    ensures |r| <= |t|
    ensures forall x :: x in r <==> x in t && p(At(x, k))
  {
    var K := set i | 0 <= i < |t| && p(At(t[i], k));
    var r := Select(t, K);
    assert forall x :: x in r <==> x in t && p(At(x, k)) by {
      forall x ensures x in r <==> x in t && p(At(x, k)) {
        SelectMember(t, K, x);
      }
    }
    r
  }


  /** The labels strictly increase: the frame is in its original order. */
  predicate LabelsIncrease(t: Table) {
    forall i, j :: 0 <= i < j < |t| ==> t[i].index < t[j].index
  }

  /** No label occurs twice. */
  predicate LabelsDistinct(t: Table) {
    forall i, j :: 0 <= i < j < |t| ==> t[i].index != t[j].index
  }

  lemma KeepOrder(t: Table, k: nat, p: Cell -> bool)
    ensures LabelsIncrease(t) ==> LabelsIncrease(Keep(t, k, p))
    ensures LabelsDistinct(t) ==> LabelsDistinct(Keep(t, k, p))
  {
    var K := set i | 0 <= i < |t| && p(At(t[i], k));
    if LabelsIncrease(t) {
      SelectPairwise(t, K, (a: Record, b: Record) => a.index < b.index);
    }
    if LabelsDistinct(t) {
      SelectPairwise(t, K, (a: Record, b: Record) => a.index != b.index);
    }
  }

  /** With distinct labels no row occurs twice. */
  lemma {:induction false} DistinctLabelsOnce(t: Table)
    requires LabelsDistinct(t)
    ensures forall x :: multiset(t)[x] <= 1
  {
    if t != [] {
      assert LabelsDistinct(t[1..]) by {
        forall i, j | 0 <= i < j < |t[1..]| ensures t[1..][i].index != t[1..][j].index {
          assert t[1..][i] == t[i + 1] && t[1..][j] == t[j + 1];
        }
      }
      DistinctLabelsOnce(t[1..]);
      assert t == [t[0]] + t[1..];
      assert t[0] !in t[1..] by {
        forall j | 0 <= j < |t[1..]| ensures t[1..][j] != t[0] {
          assert t[1..][j] == t[j + 1];
        }
      }
      assert multiset(t) == multiset{t[0]} + multiset(t[1..]);
    }
  }

  /** An element found at two positions occurs at least twice. */
  lemma RepeatCounted<T>(s: seq<T>, i: int, j: int)
    ensures 0 <= i < j < |s| && s[i] == s[j] ==> multiset(s)[s[i]] >= 2
  {
    if 0 <= i < j < |s| && s[i] == s[j] {
      assert s == s[..j] + s[j..];
      assert s[i] in s[..j] && s[j] in s[j..];
      assert multiset(s) == multiset(s[..j]) + multiset(s[j..]);
    }
  }

  /** Reordering a frame keeps its labels distinct. */
  lemma PermutationKeepsLabelsDistinct(s: Table, t: Table)
    requires multiset(s) == multiset(t) && LabelsDistinct(t)
    ensures LabelsDistinct(s)
  {
    DistinctLabelsOnce(t);
    forall i, j | 0 <= i < j < |s| ensures s[i].index != s[j].index {
      if s[i] == s[j] {
        RepeatCounted(s, i, j);
      } else {
        assert s[i] in multiset(t) && s[j] in multiset(t);
        var p :| 0 <= p < |t| && t[p] == s[i];
        var q :| 0 <= q < |t| && t[q] == s[j];
        assert p != q;
      }
    }
  }

  /** Row `x` with the cell of column `k` rewritten by `f`; every other
      cell and the label stay. */
  function SetCell(x: Record, k: nat, f: Cell -> Cell): (y: Record)
    ensures y.index == x.index && |y.cells| == |x.cells|
    ensures k < |x.cells| ==> At(y, k) == f(At(x, k))
    ensures forall j :: j != k ==> At(y, j) == At(x, j)
  {
    if k < |x.cells| then Record(x.index, x.cells[k := f(x.cells[k])]) else x
  }

  /** `df[col] = df[col].apply(f)` and its vectorised relatives: column `k`
      of every row is rewritten, nothing else changes. */
  function SetColumn(t: Table, k: nat, f: Cell -> Cell): (r: Table)
    ensures |r| == |t|
    ensures forall i :: 0 <= i < |t| ==> r[i] == SetCell(t[i], k, f)
  {
    seq(|t|, i requires 0 <= i < |t| => SetCell(t[i], k, f))
  }

  /** A row of a rewritten frame is the rewrite of a row of the frame. */
  lemma SetColumnMember(t: Table, k: nat, f: Cell -> Cell, y: Record)
    ensures y in SetColumn(t, k, f) <==> exists x :: x in t && y == SetCell(x, k, f)
  {
    var r := SetColumn(t, k, f);
    if exists x :: x in t && y == SetCell(x, k, f) {
      var x :| x in t && y == SetCell(x, k, f);
      var i :| 0 <= i < |t| && t[i] == x;
      assert r[i] == y;
    }
  }

  /** In a frame in increasing label order the first row has the least
      label, and no other row shares it. */
  lemma FirstLabelLeast(a: Table, x: Record)
    requires LabelsIncrease(a) && x in a
    ensures x.index >= a[0].index && (x.index == a[0].index ==> x == a[0])
  {
    var p :| 0 <= p < |a| && a[p] == x;
    if p > 0 { assert a[0].index < a[p].index; }
  }

  /** Dropping the first row of such a frame drops exactly the rows with
      its label. */
  lemma TailRows(a: Table, x: Record)
    requires LabelsIncrease(a) && a != []
    ensures LabelsIncrease(a[1..])
    ensures x in a[1..] <==> x in a && x.index > a[0].index
  {
    var a' := a[1..];
    forall p, q | 0 <= p < q < |a'| ensures a'[p].index < a'[q].index {
      assert a'[p] == a[p + 1] && a'[q] == a[q + 1];
    }
    if x in a' {
      var p :| 0 <= p < |a'| && a'[p] == x;
      assert a[p + 1] == x;
    }
    if x in a && x.index > a[0].index {
      var p :| 0 <= p < |a| && a[p] == x;
      assert p != 0;
      assert a'[p - 1] == x;
    }
  }

  lemma HasFirst(a: Table)
    ensures a != [] ==> a[0] in a
  {
  }

  /** A frame whose rows are, label by label, `G(label)` filtered by `F`,
      stays so described after a column rewrite that `F` does not read. */
  lemma SetColumnTracked(t: Table, n: nat, k: nat, f: Cell -> Cell, G: int -> Record, F: Record -> bool)
    requires forall i :: G(i).index == i
    requires forall y :: y in t <==> 0 <= y.index < n && y == G(y.index) && F(y)
    requires forall x :: F(SetCell(x, k, f)) == F(x)
    ensures forall y :: y in SetColumn(t, k, f) <==> 0 <= y.index < n && y == SetCell(G(y.index), k, f) && F(y)
  {
    forall y ensures y in SetColumn(t, k, f) <==> 0 <= y.index < n && y == SetCell(G(y.index), k, f) && F(y) {
      SetColumnMember(t, k, f, y);
      if 0 <= y.index < n && y == SetCell(G(y.index), k, f) && F(y) {
        assert F(G(y.index));
        assert G(y.index) in t;
      }
    }
  }

  /** The rows `G(0), ..., G(n-1)` that pass `F`, in label order. */
  function Tabulate(n: nat, G: int -> Record, F: Record -> bool): (t: Table)
    requires forall i :: G(i).index == i
    ensures |t| <= n
    ensures LabelsIncrease(t)
    ensures forall y :: y in t <==> 0 <= y.index < n && y == G(y.index) && F(y)
  {
    var all := seq(n, i => G(i));
    var K := set i | 0 <= i < n && F(all[i]);
    SelectPairwise(all, K, (a: Record, b: Record) => a.index < b.index);
    assert forall y :: y in Select(all, K) <==> 0 <= y.index < n && y == G(y.index) && F(y) by {
      forall y ensures y in Select(all, K) <==> 0 <= y.index < n && y == G(y.index) && F(y) {
        SelectMember(all, K, y);
        if 0 <= y.index < n && y == G(y.index) && F(y) {
          assert all[y.index] == y;
        }
      }
    }
    Select(all, K)
  }

  /** The same for a filter on column `k`. */
  lemma KeepTracked(t: Table, n: nat, k: nat, p: Cell -> bool, G: int -> Record, F: Record -> bool)
    requires forall y :: y in t <==> 0 <= y.index < n && y == G(y.index) && F(y)
    ensures forall y :: y in Keep(t, k, p) <==> 0 <= y.index < n && y == G(y.index) && F(y) && p(At(y, k))
  {
  }

  /** Two frames in increasing label order with the same rows are equal. */
  lemma {:induction false} SameRowsSameFrame(a: Table, b: Table)
    requires LabelsIncrease(a) && LabelsIncrease(b)
    requires forall x :: x in a <==> x in b
    ensures a == b
  {
    HasFirst(a);
    HasFirst(b);
    if a != [] && b != [] {
      FirstLabelLeast(b, a[0]);
      FirstLabelLeast(a, b[0]);
      assert a[0] == b[0];
      forall x ensures x in a[1..] <==> x in b[1..] {
        TailRows(a, x);
        TailRows(b, x);
      }
      TailRows(a, a[0]);
      TailRows(b, b[0]);
      SameRowsSameFrame(a[1..], b[1..]);
      assert a == [a[0]] + a[1..] && b == [b[0]] + b[1..];
    }
  }

  /** A column rewrite keeps the labels in order. */
  lemma SetColumnOrder(t: Table, k: nat, f: Cell -> Cell)
    requires LabelsIncrease(t)
    ensures LabelsIncrease(SetColumn(t, k, f))
  {
    var r := SetColumn(t, k, f);
    forall i, j | 0 <= i < j < |r| ensures r[i].index < r[j].index {
      assert r[i].index == t[i].index && r[j].index == t[j].index;
    }
  }

  /** A column rewrite followed by a filter on the rewritten column, on a
      frame described label by label: the rows `G(label)` rewritten, those
      passing `F` and the filter, still in label order. */
  lemma RewriteKeepTracked(t: Table, n: nat, k: nat, f: Cell -> Cell, p: Cell -> bool, G: int -> Record, F: Record -> bool)
    requires forall i :: G(i).index == i
    requires LabelsIncrease(t)
    requires forall y :: y in t <==> 0 <= y.index < n && y == G(y.index) && F(y)
    requires forall x :: F(SetCell(x, k, f)) == F(x)
    ensures LabelsIncrease(Keep(SetColumn(t, k, f), k, p))
    ensures forall y :: y in Keep(SetColumn(t, k, f), k, p) <==>
              0 <= y.index < n && y == SetCell(G(y.index), k, f) && F(y) && p(At(y, k))
  {
    SetColumnOrder(t, k, f);
    SetColumnTracked(t, n, k, f, G, F);
    KeepTracked(SetColumn(t, k, f), n, k, p, i => SetCell(G(i), k, f), F);
    KeepOrder(SetColumn(t, k, f), k, p);
  }

  /** Two rounds of rewriting a column and filtering on it, on different
      columns: the rows are the tracked ones with both rewrites applied
      that pass both filters, in order. */
  lemma RewriteKeepTwice(t: Table, n: nat, k1: nat, f1: Cell -> Cell, p1: Cell -> bool,
                         k2: nat, f2: Cell -> Cell, p2: Cell -> bool, G: int -> Record)
    requires k1 != k2
    requires forall i :: G(i).index == i
    requires LabelsIncrease(t)
    requires forall y :: y in t <==> 0 <= y.index < n && y == G(y.index)
    ensures LabelsIncrease(Keep(SetColumn(Keep(SetColumn(t, k1, f1), k1, p1), k2, f2), k2, p2))
    ensures forall y :: y in Keep(SetColumn(Keep(SetColumn(t, k1, f1), k1, p1), k2, f2), k2, p2) <==>
              0 <= y.index < n && y == SetCell(SetCell(G(y.index), k1, f1), k2, f2)
              && p1(At(y, k1)) && p2(At(y, k2))
  {
    var T := (y: Record) => true;
    RewriteKeepTracked(t, n, k1, f1, p1, G, T);
    var F1 := (y: Record) => p1(At(y, k1));
    forall x ensures F1(SetCell(x, k2, f2)) == F1(x) {
      assert At(SetCell(x, k2, f2), k1) == At(x, k1);
    }
    RewriteKeepTracked(Keep(SetColumn(t, k1, f1), k1, p1), n, k2, f2, p2, i => SetCell(G(i), k1, f1), F1);
  }

  /** A frame: its column headers and its labelled rows. */
  datatype Frame = Frame(columns: seq<string>, rows: Table)

  /** Not NaN / NaT. */
  predicate Present(c: Cell) { !c.Missing? }

  /** `df.dropna(subset=[a, b])`: rows where neither cell is NaN. */
  function DropMissing2(t: Table, a: nat, b: nat): (r: Table)
    ensures |r| <= |t|
    ensures forall x :: x in r <==> x in t && !At(x, a).Missing? && !At(x, b).Missing?
    ensures LabelsIncrease(t) ==> LabelsIncrease(r)
    ensures LabelsDistinct(t) ==> LabelsDistinct(r)
  {
    var r1 := Keep(t, a, Present);
    KeepOrder(t, a, Present);
    KeepOrder(r1, b, Present);
    var r := Keep(r1, b, Present);
    assert forall x :: x in r <==> x in t && !At(x, a).Missing? && !At(x, b).Missing? by {
      forall x ensures x in r <==> x in t && !At(x, a).Missing? && !At(x, b).Missing? {
        assert x in r <==> x in r1 && Present(At(x, b));
        assert x in r1 <==> x in t && Present(At(x, a));
      }
    }
    r
  }

  /** `reset_index(drop=True)`: same rows in the same order, labelled 0..n-1. */
  function ResetIndex(t: Table): (r: Table)
    ensures |r| == |t|
    ensures forall i :: 0 <= i < |r| ==> r[i].index == i && r[i].cells == t[i].cells
  {
    seq(|t|, i requires 0 <= i < |t| => Record(i, t[i].cells))
  }

  /** Ascending in column `k` under the order `sort_values` uses. */
  predicate SortedBy(t: Table, k: nat) {
    forall i, j :: 0 <= i < j < |t| ==> KeyLeq(At(t[i], k), At(t[j], k))
  }

  /** `s` is one of the orders `sort_values(by=col)` may return: a
      permutation of `t` sorted by column `k`. Stability is not required. */
  predicate IsSortOf(s: Table, t: Table, k: nat) {
    multiset(s) == multiset(t) && SortedBy(s, k)
  }

  function Insert(x: Record, s: Table, k: nat): (r: Table)
    ensures multiset(r) == multiset(s) + multiset{x}
  {
    if s == [] || KeyLeq(At(x, k), At(s[0], k)) then [x] + s
    else
      assert s == [s[0]] + s[1..];
      [s[0]] + Insert(x, s[1..], k)
  }

  /** Putting in front an element that is below every element keeps a
      sequence sorted. */
  lemma SortedCons(y: Record, r: Table, k: nat)
    requires SortedBy(r, k)
    requires forall z :: z in r ==> KeyLeq(At(y, k), At(z, k))
    ensures SortedBy([y] + r, k)
  {
    var yr := [y] + r;
    forall i, j | 0 <= i < j < |yr| ensures KeyLeq(At(yr[i], k), At(yr[j], k)) {
      if i == 0 { assert yr[j] == r[j - 1]; assert yr[j] in r; }
      else { assert yr[i] == r[i - 1] && yr[j] == r[j - 1]; }
    }
  }

  /** Inserting into a sorted sequence keeps it sorted. */
  lemma {:induction false} InsertSorted(x: Record, s: Table, k: nat)
    requires SortedBy(s, k)
    ensures SortedBy(Insert(x, s, k), k)
  {
    if s == [] {
    } else if KeyLeq(At(x, k), At(s[0], k)) {
      forall z | z in s ensures KeyLeq(At(x, k), At(z, k)) {
        var j :| 0 <= j < |s| && s[j] == z;
        if j > 0 { KeyLeqTrans(At(x, k), At(s[0], k), At(s[j], k)); }
      }
      SortedCons(x, s, k);
    } else {
      var tail := s[1..];
      assert SortedBy(tail, k) by {
        forall i, j | 0 <= i < j < |tail| ensures KeyLeq(At(tail[i], k), At(tail[j], k)) {
          assert tail[i] == s[i + 1] && tail[j] == s[j + 1];
        }
      }
      InsertSorted(x, tail, k);
      var rest := Insert(x, tail, k);
      forall z | z in rest ensures KeyLeq(At(s[0], k), At(z, k)) {
        assert z in multiset(rest);
        if z == x {
          KeyLeqTotal(At(x, k), At(s[0], k));
        } else {
          assert z in multiset(tail);
          var j :| 0 <= j < |tail| && tail[j] == z;
          assert s[j + 1] == z;
        }
      }
      SortedCons(s[0], rest, k);
    }
  }

  /** Sorting a frame that is already sorted leaves it as it is. */
  lemma {:induction false} SortSorted(t: Table, k: nat)
    requires SortedBy(t, k)
    ensures SortBy(t, k) == t
  {
    if t != [] {
      var tail := t[1..];
      assert SortedBy(tail, k) by {
        forall i, j | 0 <= i < j < |tail| ensures KeyLeq(At(tail[i], k), At(tail[j], k)) {
          assert tail[i] == t[i + 1] && tail[j] == t[j + 1];
        }
      }
      SortSorted(tail, k);
      if tail != [] {
        assert KeyLeq(At(t[0], k), At(tail[0], k)) by { assert tail[0] == t[1]; }
      }
      assert [t[0]] + tail == t;
    }
  }

  /** A stable insertion sort: one of the sorted permutations of the frame,
      the one that keeps rows with equal keys in their order. */
  function SortBy(t: Table, k: nat): (r: Table)
    ensures IsSortOf(r, t, k)
  {
    if t == [] then []
    else
      assert t == [t[0]] + t[1..];
      InsertSorted(t[0], SortBy(t[1..], k), k);
      Insert(t[0], SortBy(t[1..], k), k)
  }

  /** `df.sort_values(by=col)` for every frame and column: the default
      quicksort is not stable, so which sorted permutation comes back is
      the library's choice, and any choice is allowed. `SortBy` is one. */
  type Sorter = f: (Table, nat) -> Table | forall t, k :: IsSortOf(f(t, k), t, k)
    witness (t: Table, k: nat) => SortBy(t, k)

  /** Positions depends only on which of the first `n` positions are in K. */
  lemma {:induction false} PositionsAgree(n: nat, K1: set<int>, K2: set<int>)
    requires forall i :: 0 <= i < n ==> (i in K1 <==> i in K2)
    ensures Positions(n, K1) == Positions(n, K2)
  {
    if n > 0 {
      PositionsAgree(n - 1, K1, K2);
    }
  }

  /** Selecting from a sequence with one more element at the end. */
  lemma SelectSnoc<T>(s: seq<T>, x: T, K: set<int>)
    ensures Select(s + [x], K) == Select(s, K) + (if |s| in K then [x] else [])
  {
    var ps := Positions(|s|, K);
    assert Positions(|s| + 1, K) == ps + (if |s| in K then [|s|] else []);
    SelectSnocAt(s, x, K, ps);
  }

  lemma SelectSnocAt<T>(s: seq<T>, x: T, K: set<int>, ps: seq<int>)
    requires ps == Positions(|s|, K)
    requires Positions(|s| + 1, K) == ps + (if |s| in K then [|s|] else [])
    ensures |Select(s + [x], K)| == |Select(s, K) + (if |s| in K then [x] else [])|
    ensures forall t :: 0 <= t < |Select(s + [x], K)| ==>
              Select(s + [x], K)[t] == (Select(s, K) + (if |s| in K then [x] else []))[t]
  {
    var r := Select(s + [x], K);
    var q := Select(s, K) + (if |s| in K then [x] else []);
    forall t | 0 <= t < |r| ensures r[t] == q[t] {
      if t < |ps| {
        assert (s + [x])[ps[t]] == s[ps[t]];
      }
    }
  }

  /** A row filter on a frame with one more row at the end. */
  lemma KeepSnoc(t: Table, x: Record, k: nat, p: Cell -> bool)
    ensures Keep(t + [x], k, p) == Keep(t, k, p) + (if p(At(x, k)) then [x] else [])
  {
    var t' := t + [x];
    var K' := set i | 0 <= i < |t'| && p(At(t'[i], k));
    var K := set i | 0 <= i < |t| && p(At(t[i], k));
    SelectSnoc(t, x, K');
    PositionsAgree(|t|, K', K);
  }

  /** A column rewrite of a frame with one more row at the end. */
  lemma SetColumnSnoc(t: Table, x: Record, k: nat, f: Cell -> Cell)
    ensures SetColumn(t + [x], k, f) == SetColumn(t, k, f) + [SetCell(x, k, f)]
  {
  }

  /** The rows of `t` whose rewrite by `f` passes `p`, in their order. */
  function Passing(t: Table, f: Record -> Record, p: Record -> bool): (r: Table)
    ensures |r| <= |t|
  {
    if t == [] then []
    else Passing(t[..|t| - 1], f, p) + (if p(f(t[|t| - 1])) then [t[|t| - 1]] else [])
  }

  /** A row passes exactly when it is a row of `t` whose rewrite passes. */
  lemma {:induction false} PassingMember(t: Table, f: Record -> Record, p: Record -> bool, x: Record)
    ensures x in Passing(t, f, p) <==> x in t && p(f(x))
  {
    if t != [] {
      var u := t[..|t| - 1];
      PassingMember(u, f, p, x);
      assert t == u + [t[|t| - 1]];
    }
  }

  /** The passing rows keep their relative order: a relation between every
      earlier and later row of `t` holds between those of the result. */
  lemma {:induction false} PassingPairwise(t: Table, f: Record -> Record, p: Record -> bool, R: (Record, Record) -> bool)
    requires forall i, j :: 0 <= i < j < |t| ==> R(t[i], t[j])
    ensures forall i, j :: 0 <= i < j < |Passing(t, f, p)| ==> R(Passing(t, f, p)[i], Passing(t, f, p)[j])
  {
    if t != [] {
      var u := t[..|t| - 1];
      var x := t[|t| - 1];
      PassingPairwise(u, f, p, R);
      var r0 := Passing(u, f, p);
      var r := Passing(t, f, p);
      assert r == r0 + (if p(f(x)) then [x] else []);
      forall i, j | 0 <= i < j < |r| ensures R(r[i], r[j]) {
        if j >= |r0| {
          assert p(f(x)) && j == |r0|;
          assert r[i] == r0[i] && r[j] == x;
          assert r0[i] in r0;
          PassingMember(u, f, p, r0[i]);
          var m :| 0 <= m < |u| && u[m] == r0[i];
          assert t[m] == r0[i] && m < |t| - 1;
          assert R(t[m], t[|t| - 1]);
        } else {
          assert r[i] == r0[i] && r[j] == r0[j];
          assert R(r0[i], r0[j]);
        }
      }
    }
  }

  /** A row filter is the row-by-row filter that leaves rows unchanged and
      keeps those whose cell in column `k` passes: the same rows, in the
      same order. */
  lemma {:induction false} KeepIsPassing(t: Table, k: nat, p: Cell -> bool)
    ensures Keep(t, k, p) == Passing(t, x => x, x => p(At(x, k)))
  {
    if t != [] {
      var u := t[..|t| - 1];
      var x := t[|t| - 1];
      assert t == u + [x];
      KeepIsPassing(u, k, p);
      KeepSnoc(u, x, k, p);
    }
  }

  /** The rewrites of the passing rows: the outcome of any run of row
      filters and column rewrites, stated as one filter and one rewrite. */
  function MapKeep(t: Table, f: Record -> Record, p: Record -> bool): (r: Table)
    ensures |r| == |Passing(t, f, p)|
    ensures forall i :: 0 <= i < |r| ==> r[i] == f(Passing(t, f, p)[i])
    ensures forall i :: 0 <= i < |r| ==> p(r[i])
  {
    var s := Passing(t, f, p);
    assert forall i :: 0 <= i < |s| ==> p(f(s[i])) by {
      forall i | 0 <= i < |s| ensures p(f(s[i])) {
        assert s[i] in s;
        PassingMember(t, f, p, s[i]);
      }
    }
    seq(|s|, i requires 0 <= i < |s| => f(s[i]))
  }

  /** The result holds exactly the passing rewrites of rows of `t`. */
  lemma MapKeepMember(t: Table, f: Record -> Record, p: Record -> bool, y: Record)
    ensures y in MapKeep(t, f, p) <==> p(y) && exists x :: x in t && y == f(x)
  {
    var s := Passing(t, f, p);
    var r := MapKeep(t, f, p);
    if p(y) && exists x :: x in t && y == f(x) {
      var x :| x in t && y == f(x);
      PassingMember(t, f, p, x);
      var i :| 0 <= i < |s| && s[i] == x;
      assert r[i] == y;
    }
    if y in r {
      var i :| 0 <= i < |r| && r[i] == y;
      assert s[i] in s;
      PassingMember(t, f, p, s[i]);
    }
  }

  /** MapKeep on a frame with one more row at the end. */
  lemma MapKeepSnoc(t: Table, x: Record, f: Record -> Record, p: Record -> bool)
    ensures MapKeep(t + [x], f, p) == MapKeep(t, f, p) + (if p(f(x)) then [f(x)] else [])
  {
    assert (t + [x])[..|t|] == t;
    assert Passing(t + [x], f, p) == Passing(t, f, p) + (if p(f(x)) then [x] else []);
  }
}
