/** `clean_data` of the customers script: headers stripped, names
    standardised, fuzzy duplicates removed, regions checked, loyalty points
    repaired, coerced and capped, contact methods canonicalised and
    checked, join dates parsed (unparseable ones dropped), then relabelled
    0..n-1. */
module CustomersPrep {
  import opened Wrappers
  import opened Text
  import opened Cells
  import opened Tables
  import opened Names
  import opened LoyaltyRepair
  import opened FuzzyDedup

  const ValidRegions: set<string> := {"North", "South", "East", "West"}
  const ValidContactMethods: set<string> := {"phone", "email"}
  /** The loyalty points ceiling of `.clip(upper=100)`. */
  const PointsCap: real := 100.0
  /** The headers `clean_data` reads, in the order it first reads them. */
  const Required: seq<string> := ["Name", "JoinDate", "Region", "LoyaltyPoints", "PreferredContactMethod"]

  /** Where the five columns are. */
  datatype Columns = Columns(name: nat, date: nat, region: nat, points: nat, contact: nat)

  predicate Distinct(c: Columns) {
    c.name != c.date && c.name != c.region && c.name != c.points && c.name != c.contact
    && c.date != c.region && c.date != c.points && c.date != c.contact
    && c.region != c.points && c.region != c.contact && c.points != c.contact
  }

  /** The columns of a header that has all five. */
  function ColumnsIn(columns: seq<string>): (c: Columns)
    requires FirstAbsent(columns, Required).None?
    ensures c.name < |columns| && c.date < |columns| && c.region < |columns|
            && c.points < |columns| && c.contact < |columns|
    ensures columns[c.name] == "Name" && columns[c.date] == "JoinDate" && columns[c.region] == "Region"
            && columns[c.points] == "LoyaltyPoints" && columns[c.contact] == "PreferredContactMethod"
    ensures Distinct(c)
  {
    assert forall j :: 0 <= j < |Required| ==> Required[j] in columns;
    assert Required[0] in columns && Required[1] in columns && Required[2] in columns
           && Required[3] in columns && Required[4] in columns;
    Columns(Column(columns, "Name").value, Column(columns, "JoinDate").value, Column(columns, "Region").value,
            Column(columns, "LoyaltyPoints").value, Column(columns, "PreferredContactMethod").value)
  }

  /** Which header the KeyError names when one is absent, in the order the
      code reads them. */
  lemma FirstAbsentCustomers(columns: seq<string>)
    ensures FirstAbsent(columns, Required) ==
      if "Name" !in columns then Some(0)
      else if "JoinDate" !in columns then Some(1)
      else if "Region" !in columns then Some(2)
      else if "LoyaltyPoints" !in columns then Some(3)
      else if "PreferredContactMethod" !in columns then Some(4)
      else None
  {
    var r4: seq<string> := ["PreferredContactMethod"];
    var r3: seq<string> := ["LoyaltyPoints"] + r4;
    var r2: seq<string> := ["Region"] + r3;
    var r1: seq<string> := ["JoinDate"] + r2;
    var r0: seq<string> := ["Name"] + r1;
    assert Required == r0;
    assert ["PreferredContactMethod"] + [] == r4;
    FirstAbsentCons(columns, "PreferredContactMethod", []);
    FirstAbsentCons(columns, "LoyaltyPoints", r4);
    FirstAbsentCons(columns, "Region", r3);
    FirstAbsentCons(columns, "JoinDate", r2);
    FirstAbsentCons(columns, "Name", r1);
  }

  /** `astype(str).apply(standardize_name)` on one name: always a string,
      trimmed, with no double space, and a string name keeps its
      non-space characters up to case. */
  function NameCell(lib: Library, x: Cell): (r: Cell)
    ensures r.Str? && NoDoubleSpace(r.s)
    ensures r.s == [] || (!IsSpace(r.s[0]) && !IsSpace(r.s[|r.s| - 1]))
    ensures x.Str? ==> NonSpace(Lower(r.s)) == NonSpace(Lower(x.s))
  {
    Str(StandardizeName(AsStr(lib, x)))
  }

  /** The name rewrite as a column rewrite. */
  function NameFix(lib: Library): Cell -> Cell {
    c => NameCell(lib, c)
  }

  /** `.apply(correct_repeated_pattern)` as a column rewrite. */
  function Repair(): Cell -> Cell {
    c => CorrectRepeatedPattern(c)
  }

  /** `.clip(upper=100)` as a column rewrite. */
  function Cap(): Cell -> Cell {
    c => ClipUpper(c, PointsCap)
  }

  /** `.str.lower().str.strip()` as a column rewrite. */
  function ContactFix(): Cell -> Cell {
    c => LowerStrip(c)
  }

  /** `pd.to_datetime(errors='coerce')` as a column rewrite. */
  function DateFix(lib: Library): Cell -> Cell {
    c => CoerceDatetime(lib, c)
  }

  predicate KnownRegion(c: Cell) { IsOneOf(c, ValidRegions) }

  predicate KnownContact(c: Cell) { IsOneOf(c, ValidContactMethods) }

  /** The raw rows with the Name column standardised: the frame the
      duplicate search is given. */
  function Named(lib: Library, name: nat, rows: seq<seq<Cell>>): (t: Table)
    ensures |t| == |rows| && LabelsIncrease(t) && LabelsDistinct(t)
    ensures forall i :: 0 <= i < |t| ==> t[i] == SetCell(RowOf(rows, i), name, NameFix(lib))
  {
    SetColumnOrder(Load(rows), name, NameFix(lib));
    SetColumn(Load(rows), name, NameFix(lib))
  }

  /** A row shorter than the header still has its Name cell standardised:
      `read_csv` gives it NaN there, which `astype(str)` writes "nan". */
  lemma ShortRowNamed(lib: Library, header: seq<string>, rows: seq<seq<Cell>>, name: nat, j: nat)
    requires name < |header| && j < |rows|
    ensures At(Named(lib, name, ReadCsv(header, rows))[j], name) == NameCell(lib, At(RowOf(rows, j), name))
  {
    var cells := ReadCsv(header, rows);
    PadKeepsCells(j, rows[j], |header|, name);
    assert NameFix(lib)(At(RowOf(cells, j), name)) == NameCell(lib, At(RowOf(rows, j), name));
  }

  /** Every rewrite after the duplicate search, applied to one row. */
  function Finished(lib: Library, c: Columns, x: Record): (y: Record)
    ensures y.index == x.index
  {
    SetCell(SetCell(SetCell(SetCell(SetCell(x, c.points, Repair()), c.points, Numeric(lib)), c.points, Cap()),
                    c.contact, ContactFix()), c.date, DateFix(lib))
  }

  /** The checks a finished row must pass: a listed region, a listed
      contact method and a parsed join date. */
  predicate RowOk(c: Columns, y: Record) {
    KnownRegion(At(y, c.region)) && KnownContact(At(y, c.contact)) && Present(At(y, c.date))
  }

  function Final(lib: Library, c: Columns): Record -> Record {
    x => Finished(lib, c, x)
  }

  function Accept(c: Columns): Record -> bool {
    y => RowOk(c, y)
  }

  /** What the duplicate search returns on the named frame when the sort
      inside it returns the order `sort` chooses: named raw rows. */
  function Searched(lib: Library, sort: Sorter, c: Columns, rows: seq<seq<Cell>>): (d: Table)
    ensures forall x :: x in d ==> x in Named(lib, c.name, rows)
  {
    var N := Named(lib, c.name, rows);
    DedupSortedSubset(lib, N, sort(N, c.date), c.name, c.date);
    Deduplicated(lib, sort(N, c.date), c.name, c.date)
  }

  /** What `clean_data` writes out, stated declaratively: the survivors of
      the duplicate search, each finished, those passing the checks, in the
      order the search left them, relabelled. */
  function Cleaned(lib: Library, sort: Sorter, c: Columns, rows: seq<seq<Cell>>): (r: Table)
    ensures forall i :: 0 <= i < |r| ==> r[i].index == i && RowOk(c, r[i])
  {
    var pre := MapKeep(Searched(lib, sort, c, rows), Final(lib, c), Accept(c));
    var r := ResetIndex(pre);
    assert forall i :: 0 <= i < |r| ==> RowOk(c, r[i]) by {
      forall i | 0 <= i < |r| ensures RowOk(c, r[i]) {
        assert Accept(c)(pre[i]);
        RowOkCells(c, pre[i], r[i]);
      }
    }
    r
  }

  /** The checks read the cells only, not the label. */
  lemma RowOkCells(c: Columns, y: Record, z: Record)
    requires y.cells == z.cells
    ensures RowOk(c, y) == RowOk(c, z)
  {
  }

  /** Why `clean_data` stops, if it does: the first absent column among
      Name and JoinDate; else, with two or more rows, a join date
      `pd.to_datetime` cannot parse (raised inside the duplicate search);
      else the first absent column among the other three. */
  function Stop(lib: Library, header: seq<string>, rows: seq<seq<Cell>>): (e: Option<Error>)
    ensures e.Some? && e.value.MissingColumn? ==> e.value.name in Required && e.value.name !in StripColumns(header)
    ensures e.None? ==> FirstAbsent(StripColumns(header), Required).None?
  {
    var columns := StripColumns(header);
    var miss := FirstAbsent(columns, Required);
    var date := Column(columns, "JoinDate");
    if miss.Some? && miss.value < 2 then Some(MissingColumn(Required[miss.value]))
    else if date.Success? && |rows| >= 2 && exists i :: 0 <= i < |rows| && BadDate(lib, RowOf(rows, i), date.value)
    then Some(UnparseableDate)
    else if miss.Some? then Some(MissingColumn(Required[miss.value]))
    else None
  }

  /** Stop read step by step, in the order the code meets each cause. */
  lemma StopSteps(lib: Library, header: seq<string>, rows: seq<seq<Cell>>)
    ensures var columns := StripColumns(header);
            "Name" !in columns ==> Stop(lib, header, rows) == Some(MissingColumn("Name"))
    ensures var columns := StripColumns(header);
            "Name" in columns && "JoinDate" !in columns ==> Stop(lib, header, rows) == Some(MissingColumn("JoinDate"))
    ensures var columns := StripColumns(header);
            "Name" in columns && "JoinDate" in columns ==>
              (Stop(lib, header, rows) == Some(UnparseableDate) <==>
                 |rows| >= 2 && exists i :: 0 <= i < |rows| && BadDate(lib, RowOf(rows, i), Column(columns, "JoinDate").value))
    ensures var columns := StripColumns(header);
            "Name" in columns && "JoinDate" in columns && Stop(lib, header, rows) != Some(UnparseableDate) ==>
              Stop(lib, header, rows) ==
                if "Region" !in columns then Some(MissingColumn("Region"))
                else if "LoyaltyPoints" !in columns then Some(MissingColumn("LoyaltyPoints"))
                else if "PreferredContactMethod" !in columns then Some(MissingColumn("PreferredContactMethod"))
                else None
  {
    FirstAbsentCustomers(StripColumns(header));
  }

  /** Standardising names leaves the join dates alone, so the search fails
      on the named frame exactly when a raw join date is unparseable. */
  lemma NamedDates(lib: Library, name: nat, date: nat, rows: seq<seq<Cell>>)
    requires name != date
    ensures (exists x :: x in Named(lib, name, rows) && BadDate(lib, x, date))
            <==> exists i :: 0 <= i < |rows| && BadDate(lib, RowOf(rows, i), date)
  {
    forall i | 0 <= i < |rows| ensures At(Named(lib, name, rows)[i], date) == At(RowOf(rows, i), date) {
      NamedRowDate(lib, name, date, rows, i);
    }
    SameDatesSameFailures(lib, Named(lib, name, rows), rows, date);
  }

  /** A frame whose rows carry the raw join dates, row for row, has an
      unparseable join date exactly when the file has one. */
  lemma SameDatesSameFailures(lib: Library, t: Table, rows: seq<seq<Cell>>, date: nat)
    requires |t| == |rows|
    requires forall i :: 0 <= i < |t| ==> At(t[i], date) == At(RowOf(rows, i), date)
    ensures (exists x :: x in t && BadDate(lib, x, date))
            <==> exists i :: 0 <= i < |rows| && BadDate(lib, RowOf(rows, i), date)
  {
    if exists x :: x in t && BadDate(lib, x, date) {
      var x :| x in t && BadDate(lib, x, date);
      var i :| 0 <= i < |t| && t[i] == x;
      assert BadDate(lib, RowOf(rows, i), date);
    }
    if exists i :: 0 <= i < |rows| && BadDate(lib, RowOf(rows, i), date) {
      var i :| 0 <= i < |rows| && BadDate(lib, RowOf(rows, i), date);
      assert t[i] in t && BadDate(lib, t[i], date);
    }
  }

  lemma NamedRowDate(lib: Library, name: nat, date: nat, rows: seq<seq<Cell>>, i: nat)
    requires name != date && i < |rows|
    ensures At(Named(lib, name, rows)[i], date) == At(RowOf(rows, i), date)
  {
  }

  // The statements of `clean_data` after the duplicate search, one
  // function per step, on the frame the search returned.

  function RegionsChecked(c: Columns, d: Table): Table {
    Keep(d, c.region, KnownRegion)
  }

  function PointsFixed(lib: Library, c: Columns, d: Table): Table {
    SetColumn(SetColumn(SetColumn(RegionsChecked(c, d), c.points, Repair()), c.points, Numeric(lib)), c.points, Cap())
  }

  function ContactsChecked(lib: Library, c: Columns, d: Table): Table {
    Keep(SetColumn(PointsFixed(lib, c, d), c.contact, ContactFix()), c.contact, KnownContact)
  }

  function DatesChecked(lib: Library, c: Columns, d: Table): Table {
    Keep(SetColumn(ContactsChecked(lib, c, d), c.date, DateFix(lib)), c.date, Present)
  }

  /** The steps on a frame with one more row at the end add that row,
      finished, exactly when it passes every check. */
  lemma DatesCheckedSnoc(lib: Library, c: Columns, u: Table, x: Record)
    requires Distinct(c)
    ensures DatesChecked(lib, c, u + [x]) ==
              DatesChecked(lib, c, u) + (if RowOk(c, Finished(lib, c, x)) then [Finished(lib, c, x)] else [])
  {
    var y := Finished(lib, c, x);
    var a1 := RegionsChecked(c, u);
    KeepSnoc(u, x, c.region, KnownRegion);
    assert At(y, c.region) == At(x, c.region);
    if KnownRegion(At(x, c.region)) {
      var x1 := SetCell(x, c.points, Repair());
      var x2 := SetCell(x1, c.points, Numeric(lib));
      var x3 := SetCell(x2, c.points, Cap());
      SetColumnSnoc(a1, x, c.points, Repair());
      SetColumnSnoc(SetColumn(a1, c.points, Repair()), x1, c.points, Numeric(lib));
      SetColumnSnoc(SetColumn(SetColumn(a1, c.points, Repair()), c.points, Numeric(lib)), x2, c.points, Cap());
      var a2 := PointsFixed(lib, c, u);
      assert PointsFixed(lib, c, u + [x]) == a2 + [x3];
      var x4 := SetCell(x3, c.contact, ContactFix());
      SetColumnSnoc(a2, x3, c.contact, ContactFix());
      KeepSnoc(SetColumn(a2, c.contact, ContactFix()), x4, c.contact, KnownContact);
      assert At(y, c.contact) == At(x4, c.contact);
      if KnownContact(At(x4, c.contact)) {
        var a3 := ContactsChecked(lib, c, u);
        assert ContactsChecked(lib, c, u + [x]) == a3 + [x4];
        var x5 := SetCell(x4, c.date, DateFix(lib));
        assert x5 == y;
        SetColumnSnoc(a3, x4, c.date, DateFix(lib));
        KeepSnoc(SetColumn(a3, c.date, DateFix(lib)), x5, c.date, Present);
      } else {
        assert ContactsChecked(lib, c, u + [x]) == ContactsChecked(lib, c, u);
      }
    } else {
      assert RegionsChecked(c, u + [x]) == a1;
    }
  }

  /** The steps after the duplicate search are one filter-and-rewrite:
      every row finished, those passing the checks kept, in order. */
  lemma {:induction false} DatesCheckedIsMapKeep(lib: Library, c: Columns, d: Table)
    requires Distinct(c)
    ensures DatesChecked(lib, c, d) == MapKeep(d, Final(lib, c), Accept(c))
  {
    if d == [] {
      assert RegionsChecked(c, d) == [];
    } else {
      var u := d[..|d| - 1];
      var x := d[|d| - 1];
      assert d == u + [x];
      DatesCheckedIsMapKeep(lib, c, u);
      DatesCheckedSnoc(lib, c, u, x);
      MapKeepSnoc(u, x, Final(lib, c), Accept(c));
    }
  }

  /** `clean_data`, up to the export. A missing column stops it with the
      KeyError of the first one the code reads; an unparseable join date
      among two or more rows stops it inside the duplicate search, after
      Name and JoinDate are read and before Region is; otherwise it yields
      the stripped header and the cleaned rows. */
  method CleanCustomers(lib: Library, sort: Sorter, header: seq<string>, rows: seq<seq<Cell>>)
    returns (r: Result<Frame, Error>)
    ensures r.Failure? <==> Stop(lib, header, ReadCsv(header, rows)).Some?
    ensures r.Failure? ==> r.error == Stop(lib, header, ReadCsv(header, rows)).value
    ensures r.Success? ==>
              r.value == Frame(StripColumns(header),
                               Cleaned(lib, sort, ColumnsIn(StripColumns(header)), ReadCsv(header, rows)))
  {
    var columns := StripColumns(header);
    FirstAbsentCustomers(columns);
    var cells := ReadCsv(header, rows);
    StopSteps(lib, header, cells);
    var df := Load(cells);

    var name :- Column(columns, "Name");
    df := SetColumn(df, name, NameFix(lib));
    assert df == Named(lib, name, cells);

    var date :- Column(columns, "JoinDate");
    NamedDates(lib, name, date, cells);
    df :- RemoveFuzzyDuplicates(lib, sort, df, name, date);
    ghost var d := df;

    var region :- Column(columns, "Region");
    df := Keep(df, region, KnownRegion);

    var points :- Column(columns, "LoyaltyPoints");
    df := SetColumn(df, points, Repair());
    df := SetColumn(df, points, Numeric(lib));
    df := SetColumn(df, points, Cap());

    var contact :- Column(columns, "PreferredContactMethod");
    df := SetColumn(df, contact, ContactFix());
    df := Keep(df, contact, KnownContact);

    df := SetColumn(df, date, DateFix(lib));
    df := Keep(df, date, Present);

    ghost var c := Columns(name, date, region, points, contact);
    assert c == ColumnsIn(columns);
    assert df == DatesChecked(lib, c, d);
    DatesCheckedIsMapKeep(lib, c, d);

    df := ResetIndex(df);
    return Success(Frame(columns, df));
  }

  // What the written frame holds.

  /** Every raw row has a cell for each of the five columns, as `read_csv`
      pads every row to the header's width. */
  predicate Fits(c: Columns, rows: seq<seq<Cell>>) {
    forall j :: 0 <= j < |rows| ==>
      c.name < |rows[j]| && c.date < |rows[j]| && c.region < |rows[j]|
      && c.points < |rows[j]| && c.contact < |rows[j]|
  }

  /** The rows `read_csv` reads fit the five columns of their header. */
  lemma ReadCsvFits(header: seq<string>, rows: seq<seq<Cell>>)
    requires FirstAbsent(StripColumns(header), Required).None?
    ensures Fits(ColumnsIn(StripColumns(header)), ReadCsv(header, rows))
  {
  }

  /** The rows of the searched frame that pass the checks, before the
      rewrites: the sources of the rows written out. */
  function Sources(lib: Library, sort: Sorter, c: Columns, rows: seq<seq<Cell>>): Table {
    Passing(Searched(lib, sort, c, rows), Final(lib, c), Accept(c))
  }

  /** For each row written out, the position in the file of the raw row it
      comes from. */
  function Origins(lib: Library, sort: Sorter, c: Columns, rows: seq<seq<Cell>>): (o: seq<int>)
    ensures |o| == |Cleaned(lib, sort, c, rows)|
  {
    var src := Sources(lib, sort, c, rows);
    seq(|src|, i requires 0 <= i < |src| => src[i].index)
  }

  /** A source is a named raw row that survived the search and passes the
      checks once finished; its label is its position in the file. */
  lemma SourceRow(lib: Library, sort: Sorter, c: Columns, rows: seq<seq<Cell>>, i: nat)
    requires i < |Sources(lib, sort, c, rows)|
    ensures var x := Sources(lib, sort, c, rows)[i];
            0 <= x.index < |rows| && x == Named(lib, c.name, rows)[x.index]
            && x in Searched(lib, sort, c, rows)
            && RowOk(c, Finished(lib, c, x))
  {
    var N := Named(lib, c.name, rows);
    var D := Searched(lib, sort, c, rows);
    var x := Sources(lib, sort, c, rows)[i];
    assert x in Sources(lib, sort, c, rows);
    PassingMember(D, Final(lib, c), Accept(c), x);
    DedupSortedSubset(lib, N, sort(N, c.date), c.name, c.date);
    var j :| 0 <= j < |N| && N[j] == x;
  }

  /** The row written at position `i` is the source row, finished and
      relabelled `i`. */
  lemma CleanedIsFinishedSource(lib: Library, sort: Sorter, c: Columns, rows: seq<seq<Cell>>, i: nat)
    requires i < |Cleaned(lib, sort, c, rows)|
    ensures Cleaned(lib, sort, c, rows)[i] == Record(i, Finished(lib, c, Sources(lib, sort, c, rows)[i]).cells)
  {
  }

  /** One raw row after every rewrite of the script: the standardised
      name, the region as read, the repaired, coerced and capped points,
      the canonical contact method and the parsed join date; every other
      column as read. */
  lemma RawRowFinished(lib: Library, c: Columns, x: Record)
    requires Distinct(c)
    requires c.name < |x.cells| && c.date < |x.cells| && c.region < |x.cells|
             && c.points < |x.cells| && c.contact < |x.cells|
    ensures var y := Finished(lib, c, SetCell(x, c.name, NameFix(lib)));
            At(y, c.name) == Str(StandardizeName(AsStr(lib, At(x, c.name))))
            && At(y, c.region) == At(x, c.region)
            && At(y, c.points) == PointsCell(lib, At(x, c.points))
            && At(y, c.contact) == LowerStrip(At(x, c.contact))
            && At(y, c.date) == CoerceDatetime(lib, At(x, c.date))
            && forall k :: k != c.name && k != c.points && k != c.contact && k != c.date ==> At(y, k) == At(x, k)
  {
    var x0 := SetCell(x, c.name, NameFix(lib));
    var x1 := SetCell(x0, c.points, Repair());
    var x2 := SetCell(x1, c.points, Numeric(lib));
    var x3 := SetCell(x2, c.points, Cap());
    var x4 := SetCell(x3, c.contact, ContactFix());
    assert At(x3, c.points) == PointsCell(lib, At(x, c.points));
    assert At(x4, c.contact) == LowerStrip(At(x, c.contact));
  }

  /** The row written at position `i` is a raw row of the file, named and
      finished, that passes the checks. */
  lemma CleanedFromRaw(lib: Library, sort: Sorter, c: Columns, rows: seq<seq<Cell>>, i: nat)
    requires i < |Cleaned(lib, sort, c, rows)|
    ensures 0 <= Origins(lib, sort, c, rows)[i] < |rows|
    ensures var x := RowOf(rows, Origins(lib, sort, c, rows)[i]);
            var y := Finished(lib, c, SetCell(x, c.name, NameFix(lib)));
            Cleaned(lib, sort, c, rows)[i] == Record(i, y.cells) && RowOk(c, y)
  {
    SourceRow(lib, sort, c, rows, i);
    CleanedIsFinishedSource(lib, sort, c, rows, i);
  }

  /** What the rewrites and checks leave of one raw row that passes them. */
  lemma PassedRow(lib: Library, c: Columns, x: Record, y: Record)
    requires Distinct(c)
    requires c.name < |x.cells| && c.date < |x.cells| && c.region < |x.cells|
             && c.points < |x.cells| && c.contact < |x.cells|
    requires y.cells == Finished(lib, c, SetCell(x, c.name, NameFix(lib))).cells && RowOk(c, y)
    ensures At(y, c.name) == Str(StandardizeName(AsStr(lib, At(x, c.name))))
    ensures At(y, c.region) == At(x, c.region) && At(x, c.region).Str? && At(x, c.region).s in ValidRegions
    ensures At(y, c.points) == PointsCell(lib, At(x, c.points))
    ensures At(y, c.points).Missing? || (At(y, c.points).Num? && At(y, c.points).x <= 100.0)
    ensures At(x, c.contact).Str? && At(y, c.contact) == Str(Strip(Lower(At(x, c.contact).s)))
    ensures At(y, c.contact).s in ValidContactMethods
    ensures ScalarDatetime(lib, At(x, c.date)).Valid?
    ensures At(y, c.date) == Stamp(ScalarDatetime(lib, At(x, c.date)).d)
    ensures forall k :: k != c.name && k != c.points && k != c.contact && k != c.date ==> At(y, k) == At(x, k)
  {
    RawRowFinished(lib, c, x);
    SameCells(y, Finished(lib, c, SetCell(x, c.name, NameFix(lib))));
    PassedCells(lib, c, x, y);
  }

  /** Rows with the same cells read the same in every column. */
  lemma SameCells(y: Record, f: Record)
    requires y.cells == f.cells
    ensures forall k :: At(y, k) == At(f, k)
  {
  }

  /** What the checks add to the cell-by-cell description of a finished row. */
  lemma PassedCells(lib: Library, c: Columns, x: Record, y: Record)
    requires Distinct(c)
    requires At(y, c.name) == Str(StandardizeName(AsStr(lib, At(x, c.name))))
    requires At(y, c.region) == At(x, c.region)
    requires At(y, c.points) == PointsCell(lib, At(x, c.points))
    requires At(y, c.contact) == LowerStrip(At(x, c.contact))
    requires At(y, c.date) == CoerceDatetime(lib, At(x, c.date))
    requires forall k :: k != c.name && k != c.points && k != c.contact && k != c.date ==> At(y, k) == At(x, k)
    requires RowOk(c, y)
    ensures At(x, c.region).Str? && At(x, c.region).s in ValidRegions
    ensures At(y, c.points).Missing? || (At(y, c.points).Num? && At(y, c.points).x <= 100.0)
    ensures At(x, c.contact).Str? && At(y, c.contact) == Str(Strip(Lower(At(x, c.contact).s)))
    ensures At(y, c.contact).s in ValidContactMethods
    ensures ScalarDatetime(lib, At(x, c.date)).Valid?
    ensures At(y, c.date) == Stamp(ScalarDatetime(lib, At(x, c.date)).d)
  {
  }

  /** Every row written out comes from a raw row of the file and carries
      that row's standardised name, its region (one of the four listed),
      its loyalty points repaired, coerced and capped (NaN or at most 100),
      its contact method lower-cased and stripped (one of the two listed),
      and its join date parsed (a raw date that does not parse never
      reaches the output); the rest of the row is as read, and the label
      is the row's position in the output. */
  lemma CleanedRow(lib: Library, sort: Sorter, c: Columns, rows: seq<seq<Cell>>, i: nat)
    requires Distinct(c) && Fits(c, rows) && i < |Cleaned(lib, sort, c, rows)|
    ensures 0 <= Origins(lib, sort, c, rows)[i] < |rows|
    ensures var y := Cleaned(lib, sort, c, rows)[i];
            var x := RowOf(rows, Origins(lib, sort, c, rows)[i]);
            y.index == i
            && At(y, c.name) == Str(StandardizeName(AsStr(lib, At(x, c.name))))
            && At(y, c.region) == At(x, c.region) && At(x, c.region).Str? && At(x, c.region).s in ValidRegions
            && At(y, c.points) == PointsCell(lib, At(x, c.points))
            && (At(y, c.points).Missing? || (At(y, c.points).Num? && At(y, c.points).x <= 100.0))
            && At(x, c.contact).Str? && At(y, c.contact) == Str(Strip(Lower(At(x, c.contact).s)))
            && At(y, c.contact).s in ValidContactMethods
            && ScalarDatetime(lib, At(x, c.date)).Valid?
            && At(y, c.date) == Stamp(ScalarDatetime(lib, At(x, c.date)).d)
            && forall k :: k != c.name && k != c.points && k != c.contact && k != c.date ==> At(y, k) == At(x, k)
  {
    CleanedFromRaw(lib, sort, c, rows, i);
    var j := Origins(lib, sort, c, rows)[i];
    PassedRow(lib, c, RowOf(rows, j), Cleaned(lib, sort, c, rows)[i]);
  }

  /** Finishing a row changes neither its name nor, when it parses, its
      join date, so two finished rows are fuzzy duplicates only when the
      rows were. */
  lemma FinishedDup(lib: Library, c: Columns, a: Record, b: Record)
    requires Distinct(c)
    ensures Dup(lib, Finished(lib, c, a), Finished(lib, c, b), c.name, c.date) ==> Dup(lib, a, b, c.name, c.date)
  {
    var fa := Finished(lib, c, a);
    var fb := Finished(lib, c, b);
    assert At(fa, c.name) == At(a, c.name) && At(fb, c.name) == At(b, c.name);
    assert c.date < |a.cells| ==> At(fa, c.date) == CoerceDatetime(lib, At(a, c.date));
    assert c.date < |b.cells| ==> At(fb, c.date) == CoerceDatetime(lib, At(b, c.date));
  }

  /** The sources keep the search's guarantee: no two are fuzzy duplicates. */
  lemma SourcesNoDup(lib: Library, sort: Sorter, c: Columns, rows: seq<seq<Cell>>)
    ensures forall i, j :: 0 <= i < j < |Sources(lib, sort, c, rows)| ==>
              !Dup(lib, Sources(lib, sort, c, rows)[i], Sources(lib, sort, c, rows)[j], c.name, c.date)
  {
    var N := Named(lib, c.name, rows);
    var D := Searched(lib, sort, c, rows);
    NoDuplicatesRemain(lib, N, sort(N, c.date), c.name, c.date);
    PassingPairwise(D, Final(lib, c), Accept(c), (a: Record, b: Record) => !Dup(lib, a, b, c.name, c.date));
  }

  /** No two rows written out share a join date with names that score above
      90 against each other, in either order of the file. */
  lemma CleanedNoFuzzyDuplicates(lib: Library, sort: Sorter, c: Columns, rows: seq<seq<Cell>>)
    requires Distinct(c)
    ensures forall i, j :: 0 <= i < j < |Cleaned(lib, sort, c, rows)| ==>
              !Dup(lib, Cleaned(lib, sort, c, rows)[i], Cleaned(lib, sort, c, rows)[j], c.name, c.date)
  {
    var out := Cleaned(lib, sort, c, rows);
    forall i, j | 0 <= i < j < |out| ensures !Dup(lib, out[i], out[j], c.name, c.date) {
      CleanedPairNoDup(lib, sort, c, rows, i, j);
    }
  }

  /** Two rows written out are not fuzzy duplicates. */
  lemma CleanedPairNoDup(lib: Library, sort: Sorter, c: Columns, rows: seq<seq<Cell>>, i: nat, j: nat)
    requires Distinct(c) && i < j < |Cleaned(lib, sort, c, rows)|
    ensures !Dup(lib, Cleaned(lib, sort, c, rows)[i], Cleaned(lib, sort, c, rows)[j], c.name, c.date)
  {
    var src := Sources(lib, sort, c, rows);
    SourcesNoDup(lib, sort, c, rows);
    assert !Dup(lib, src[i], src[j], c.name, c.date);
    CleanedIsFinishedSource(lib, sort, c, rows, i);
    CleanedIsFinishedSource(lib, sort, c, rows, j);
    FinishedDup(lib, c, src[i], src[j]);
    DupByCells(lib, Cleaned(lib, sort, c, rows)[i], Cleaned(lib, sort, c, rows)[j],
               Finished(lib, c, src[i]), Finished(lib, c, src[j]), c.name, c.date);
  }

  /** Whether two rows are duplicates depends on their cells only. */
  lemma DupByCells(lib: Library, a: Record, b: Record, a2: Record, b2: Record, nameCol: nat, dateCol: nat)
    requires a.cells == a2.cells && b.cells == b2.cells
    ensures Dup(lib, a, b, nameCol, dateCol) == Dup(lib, a2, b2, nameCol, dateCol)
  {
  }

  /** The sources keep the search's order and distinct labels. */
  lemma SourcesOrdered(lib: Library, sort: Sorter, c: Columns, rows: seq<seq<Cell>>)
    ensures forall i, j :: 0 <= i < j < |Sources(lib, sort, c, rows)| ==>
              Sources(lib, sort, c, rows)[i].index != Sources(lib, sort, c, rows)[j].index
              && KeyLeq(At(Sources(lib, sort, c, rows)[i], c.date), At(Sources(lib, sort, c, rows)[j], c.date))
  {
    var N := Named(lib, c.name, rows);
    var D := Searched(lib, sort, c, rows);
    DedupSortedSubset(lib, N, sort(N, c.date), c.name, c.date);
    DedupLabelsDistinct(lib, N, sort(N, c.date), c.name, c.date);
    PassingPairwise(D, Final(lib, c), Accept(c),
      (a: Record, b: Record) => a.index != b.index && KeyLeq(At(a, c.date), At(b, c.date)));
  }

  /** The rows written out come from distinct raw rows, in the order
      `sort_values` put the raw join dates in. */
  lemma CleanedInJoinDateOrder(lib: Library, sort: Sorter, c: Columns, rows: seq<seq<Cell>>)
    requires Distinct(c)
    ensures forall i, j :: 0 <= i < j < |Origins(lib, sort, c, rows)| ==>
              Origins(lib, sort, c, rows)[i] != Origins(lib, sort, c, rows)[j]
              && KeyLeq(At(RowOf(rows, Origins(lib, sort, c, rows)[i]), c.date), At(RowOf(rows, Origins(lib, sort, c, rows)[j]), c.date))
  {
    var src := Sources(lib, sort, c, rows);
    var o := Origins(lib, sort, c, rows);
    SourcesOrdered(lib, sort, c, rows);
    forall i, j | 0 <= i < j < |o|
      ensures o[i] != o[j] && KeyLeq(At(RowOf(rows, o[i]), c.date), At(RowOf(rows, o[j]), c.date))
    {
      SourceRow(lib, sort, c, rows, i);
      SourceRow(lib, sort, c, rows, j);
      NamedRowDate(lib, c.name, c.date, rows, o[i]);
      NamedRowDate(lib, c.name, c.date, rows, o[j]);
    }
  }

  /** A position occurs among the labels of rows drawn from a frame
      labelled by position exactly when its row was drawn. */
  lemma LabelDrawn(src: Table, o: seq<int>, N: Table, j: nat)
    requires |o| == |src| && forall i :: 0 <= i < |src| ==> o[i] == src[i].index
    requires j < |N| && N[j].index == j
    requires forall i :: 0 <= i < |src| ==> 0 <= src[i].index < |N| && src[i] == N[src[i].index]
    ensures j in o <==> N[j] in src
  {
    if j in o {
      var i :| 0 <= i < |o| && o[i] == j;
      assert src[i] == N[j];
    }
    if N[j] in src {
      var i :| 0 <= i < |src| && src[i] == N[j];
      assert o[i] == j;
    }
  }

  /** Every source is the named raw row at its own label. */
  lemma SourcesNamed(lib: Library, sort: Sorter, c: Columns, rows: seq<seq<Cell>>)
    ensures var src := Sources(lib, sort, c, rows);
            forall i :: 0 <= i < |src| ==>
              0 <= src[i].index < |Named(lib, c.name, rows)|
              && src[i] == Named(lib, c.name, rows)[src[i].index]
  {
    forall i | 0 <= i < |Sources(lib, sort, c, rows)|
      ensures 0 <= Sources(lib, sort, c, rows)[i].index < |Named(lib, c.name, rows)|
              && Sources(lib, sort, c, rows)[i] == Named(lib, c.name, rows)[Sources(lib, sort, c, rows)[i].index]
    {
      SourceRow(lib, sort, c, rows, i);
    }
  }

  /** The origins are the labels of the sources, in order. */
  lemma OriginsIndices(lib: Library, sort: Sorter, c: Columns, rows: seq<seq<Cell>>)
    ensures |Origins(lib, sort, c, rows)| == |Sources(lib, sort, c, rows)|
    ensures forall i :: 0 <= i < |Sources(lib, sort, c, rows)| ==> Origins(lib, sort, c, rows)[i] == Sources(lib, sort, c, rows)[i].index
  {
  }

  /** A raw row reaches the output exactly when its named form survives the
      duplicate search and, finished, passes the three checks. */
  lemma CleanedKeeps(lib: Library, sort: Sorter, c: Columns, rows: seq<seq<Cell>>, j: nat)
    requires j < |rows|
    ensures j in Origins(lib, sort, c, rows) <==>
              Named(lib, c.name, rows)[j] in Searched(lib, sort, c, rows)
              && RowOk(c, Finished(lib, c, Named(lib, c.name, rows)[j]))
  {
    var N := Named(lib, c.name, rows);
    var D := Searched(lib, sort, c, rows);
    var src := Sources(lib, sort, c, rows);
    SourcesNamed(lib, sort, c, rows);
    OriginsIndices(lib, sort, c, rows);
    assert N[j].index == j by { assert N[j] == SetCell(RowOf(rows, j), c.name, NameFix(lib)); }
    LabelDrawn(src, Origins(lib, sort, c, rows), N, j);
    PassingMember(D, Final(lib, c), Accept(c), N[j]);
    assert Accept(c)(Final(lib, c)(N[j])) == RowOk(c, Finished(lib, c, N[j]));
  }

  /** The duplicate search runs before any check: a raw row it drops never
      reaches the output, whatever its region, contact method or join date,
      and the kept twin that dropped it is judged by the checks only later,
      so both may be missing from the output. */
  lemma SearchBeforeChecks(lib: Library, sort: Sorter, c: Columns, rows: seq<seq<Cell>>, j: nat)
    requires j < |rows|
    requires Named(lib, c.name, rows)[j] !in Searched(lib, sort, c, rows)
    ensures j !in Origins(lib, sort, c, rows)
    ensures exists y :: y in Searched(lib, sort, c, rows)
                        && Dup(lib, y, Named(lib, c.name, rows)[j], c.name, c.date)
  {
    var N := Named(lib, c.name, rows);
    CleanedKeeps(lib, sort, c, rows, j);
    assert N[j] in N;
    DroppedHasKeptTwin(lib, N, sort(N, c.date), c.name, c.date, N[j]);
  }
}
