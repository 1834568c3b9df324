/** `clean_data` of the products script: canonical product names and
    categories checked against fixed lists, price and stock coerced to
    numbers (rows where either fails dropped), IQR outliers removed from
    both (the price 793.12 always kept), then relabelled 0..n-1. */
module ProductsPrep {
  import opened Wrappers
  import opened Text
  import opened Cells
  import opened Tables
  import opened Outliers

  const ValidProductNames: set<string> :=
    {"laptop", "hoodie", "cable", "hat", "football", "controller", "jacket", "protector"}
  const ValidCategories: set<string> := {"Electronics", "Clothing", "Sports"}
  /** The IQR multiplier of both outlier passes. */
  const Multiplier: real := 4.0
  /** The one unit price kept whatever the bounds say. */
  const PriceAllowed: seq<real> := [793.12]
  /** The headers `clean_data` reads, in the order it first reads them. */
  const Required: seq<string> := ["ProductName", "Category", "UnitPrice", "StockQuantity"]

  /** Where the four columns are. */
  datatype Columns = Columns(name: nat, category: nat, price: nat, stock: nat)

  /** The columns of a header that has all four. */
  function ColumnsIn(columns: seq<string>): (c: Columns)
    requires FirstAbsent(columns, Required).None?
    ensures c.name < |columns| && c.category < |columns| && c.price < |columns| && c.stock < |columns|
    ensures columns[c.name] == "ProductName" && columns[c.category] == "Category"
    ensures columns[c.price] == "UnitPrice" && columns[c.stock] == "StockQuantity"
  {
    assert forall j :: 0 <= j < |Required| ==> Required[j] in columns;
    assert Required[0] in columns && Required[1] in columns && Required[2] in columns && Required[3] in columns;
    Columns(Column(columns, "ProductName").value, Column(columns, "Category").value,
            Column(columns, "UnitPrice").value, Column(columns, "StockQuantity").value)
  }

  /** `astype(str).str.lower().str.strip()` on one product name: always a
      string, trimmed, with no upper-case letter left. */
  function NameCell(lib: Library, x: Cell): (r: Cell)
    ensures r.Str?
    ensures r.s == [] || (!IsSpace(r.s[0]) && !IsSpace(r.s[|r.s| - 1]))
    ensures forall i :: 0 <= i < |r.s| ==> !IsUpper(r.s[i])
    ensures x.Str? ==> r.s == Strip(Lower(x.s))
  {
    StripLowerNoUpper(AsStr(lib, x));
    Str(Strip(Lower(AsStr(lib, x))))
  }

  /** `astype(str).str.strip()` on one category: always a string; a string
      category is stripped and otherwise kept as it was, case included
      (`Strip` only removes whitespace at the ends). */
  function CategoryCell(lib: Library, x: Cell): (r: Cell)
    ensures r.Str?
    ensures x.Str? ==> r.s == Strip(x.s)
  {
    Str(Strip(AsStr(lib, x)))
  }

  /** The product name rewrite of `clean_data` as a column rewrite. */
  function NameFix(lib: Library): Cell -> Cell {
    c => NameCell(lib, c)
  }

  /** The category rewrite as a column rewrite. */
  function CategoryFix(lib: Library): Cell -> Cell {
    c => CategoryCell(lib, c)
  }

  predicate KnownProductName(c: Cell) { IsOneOf(c, ValidProductNames) }
  predicate KnownCategory(c: Cell) { IsOneOf(c, ValidCategories) }

  /** The two text rewrites applied to one raw row. */
  function TextFixed(lib: Library, c: Columns, x: Record): Record {
    SetCell(SetCell(x, c.name, NameFix(lib)), c.category, CategoryFix(lib))
  }

  /** Every cell rewrite of `clean_data` applied to one raw row. */
  function Rewritten(lib: Library, c: Columns, x: Record): (y: Record)
    ensures y.index == x.index
  {
    SetCell(SetCell(TextFixed(lib, c, x), c.price, Numeric(lib)), c.stock, Numeric(lib))
  }

  /** The two text checks. */
  predicate TextOk(c: Columns, y: Record) {
    KnownProductName(At(y, c.name)) && KnownCategory(At(y, c.category))
  }

  /** Rewriting another column does not change the text checks. */
  lemma TextOkKept(c: Columns, k: nat, f: Cell -> Cell)
    requires k != c.name && k != c.category
    ensures forall x :: TextOk(c, SetCell(x, k, f)) == TextOk(c, x)
  {
  }

  /** The checks a rewritten row must pass before the outlier passes: a
      listed product name, a listed category, a numeric price and stock. */
  predicate RowOk(c: Columns, y: Record) {
    TextOk(c, y) && At(y, c.price).Num? && At(y, c.stock).Num?
  }

  /** The frame the outlier passes start from, stated declaratively: every
      raw row rewritten, those passing the checks, in file order. */
  function Screened(lib: Library, c: Columns, rows: seq<seq<Cell>>): (t: Table)
    ensures LabelsIncrease(t)
    ensures forall y :: y in t <==>
              0 <= y.index < |rows| && y == Rewritten(lib, c, RowOf(rows, y.index)) && RowOk(c, y)
  {
    Tabulate(|rows|, i => Rewritten(lib, c, RowOf(rows, i)), y => RowOk(c, y))
  }

  /** The rows left after the price pass. */
  function PricePass(lib: Library, c: Columns, rows: seq<seq<Cell>>): (t: Table)
    ensures forall y :: y in t ==> y in Screened(lib, c, rows)
  {
    RemoveOutliersWithAllowlist(Screened(lib, c, rows), c.price, Multiplier, Some(PriceAllowed)).kept
  }

  /** The rows left after the stock pass, before relabelling. */
  function StockPass(lib: Library, c: Columns, rows: seq<seq<Cell>>): (t: Table)
    ensures forall y :: y in t ==> y in PricePass(lib, c, rows)
  {
    RemoveOutliersWithAllowlist(PricePass(lib, c, rows), c.stock, Multiplier, None).kept
  }

  /** What `clean_data` writes out. */
  function Cleaned(lib: Library, c: Columns, rows: seq<seq<Cell>>): (r: Table)
    ensures |r| <= |rows|
    ensures forall i :: 0 <= i < |r| ==> r[i].index == i && RowOk(c, r[i])
  {
    var pre := StockPass(lib, c, rows);
    PassOk(lib, c, rows);
    var r := ResetIndex(pre);
    assert forall i :: 0 <= i < |r| ==> RowOk(c, r[i]) by {
      forall i | 0 <= i < |r| ensures RowOk(c, r[i]) {
        assert pre[i] in pre;
        RowOkCells(c, pre[i], r[i]);
      }
    }
    r
  }

  /** The checks read the cells only, not the label. */
  lemma RowOkCells(c: Columns, y: Record, z: Record)
    requires y.cells == z.cells
    ensures RowOk(c, y) == RowOk(c, z)
  {
  }

  /** The frame before relabelling: no longer than the file, every row
      passed the checks. */
  lemma PassOk(lib: Library, c: Columns, rows: seq<seq<Cell>>)
    ensures |StockPass(lib, c, rows)| <= |rows|
    ensures forall y :: y in StockPass(lib, c, rows) ==> RowOk(c, y)
  {
  }

  /** The four columns are four different columns. */
  predicate Distinct(c: Columns) {
    c.name != c.category && c.name != c.price && c.name != c.stock
    && c.category != c.price && c.category != c.stock && c.price != c.stock
  }

  /** Which header the KeyError names, in the order the code reads them. */
  lemma FirstAbsentProducts(columns: seq<string>)
    ensures FirstAbsent(columns, Required) ==
      if "ProductName" !in columns then Some(0)
      else if "Category" !in columns then Some(1)
      else if "UnitPrice" !in columns then Some(2)
      else if "StockQuantity" !in columns then Some(3)
      else None
  {
    var r3: seq<string> := ["StockQuantity"];
    var r2: seq<string> := ["UnitPrice"] + r3;
    var r1: seq<string> := ["Category"] + r2;
    var r0: seq<string> := ["ProductName"] + r1;
    assert Required == r0;
    assert ["StockQuantity"] + [] == r3;
    FirstAbsentCons(columns, "StockQuantity", []);
    FirstAbsentCons(columns, "UnitPrice", r3);
    FirstAbsentCons(columns, "Category", r2);
    FirstAbsentCons(columns, "ProductName", r1);
  }

  /** The statements of `clean_data` up to the category filter. */
  function Labelled(lib: Library, c: Columns, rows: seq<seq<Cell>>): Table {
    Keep(SetColumn(
      Keep(SetColumn(Load(rows), c.name, NameFix(lib)), c.name, KnownProductName),
      c.category, CategoryFix(lib)), c.category, KnownCategory)
  }

  /** The statements of `clean_data` up to the price coercion. */
  function PriceCoerced(lib: Library, c: Columns, rows: seq<seq<Cell>>): Table {
    SetColumn(Labelled(lib, c, rows), c.price, Numeric(lib))
  }

  /** The statements of `clean_data` up to the stock coercion. */
  function Coerced(lib: Library, c: Columns, rows: seq<seq<Cell>>): Table {
    SetColumn(PriceCoerced(lib, c, rows), c.stock, Numeric(lib))
  }

  /** The statements of `clean_data` up to `dropna`. */
  function Filtered(lib: Library, c: Columns, rows: seq<seq<Cell>>): Table {
    DropMissing2(Coerced(lib, c, rows), c.price, c.stock)
  }

  /** After the two text checks: the rows with both text columns rewritten
      and accepted, in file order. */
  lemma LabelledRows(lib: Library, c: Columns, rows: seq<seq<Cell>>)
    requires Distinct(c)
    ensures LabelsIncrease(Labelled(lib, c, rows))
    ensures forall y :: y in Labelled(lib, c, rows) <==>
              0 <= y.index < |rows| && y == TextFixed(lib, c, RowOf(rows, y.index)) && TextOk(c, y)
  {
    RewriteKeepTwice(Load(rows), |rows|, c.name, NameFix(lib), KnownProductName,
      c.category, CategoryFix(lib), KnownCategory, i => RowOf(rows, i));
  }

  /** After the price coercion. */
  lemma PriceCoercedRows(lib: Library, c: Columns, rows: seq<seq<Cell>>)
    requires Distinct(c)
    ensures LabelsIncrease(PriceCoerced(lib, c, rows))
    ensures forall y :: y in PriceCoerced(lib, c, rows) <==>
              0 <= y.index < |rows|
              && y == SetCell(TextFixed(lib, c, RowOf(rows, y.index)), c.price, Numeric(lib)) && TextOk(c, y)
  {
    LabelledRows(lib, c, rows);
    var t4 := Labelled(lib, c, rows);
    SetColumnOrder(t4, c.price, Numeric(lib));
    TextOkKept(c, c.price, Numeric(lib));
    SetColumnTracked(t4, |rows|, c.price, Numeric(lib), i => TextFixed(lib, c, RowOf(rows, i)), (y: Record) => TextOk(c, y));
  }

  /** After the coercions: every rewritten row that passes the text checks. */
  lemma CoercedRows(lib: Library, c: Columns, rows: seq<seq<Cell>>)
    requires Distinct(c)
    ensures LabelsIncrease(Coerced(lib, c, rows))
    ensures forall y :: y in Coerced(lib, c, rows) <==>
              0 <= y.index < |rows| && y == Rewritten(lib, c, RowOf(rows, y.index)) && TextOk(c, y)
  {
    PriceCoercedRows(lib, c, rows);
    var t5 := PriceCoerced(lib, c, rows);
    SetColumnOrder(t5, c.stock, Numeric(lib));
    TextOkKept(c, c.stock, Numeric(lib));
    SetColumnTracked(t5, |rows|, c.stock, Numeric(lib),
      i => SetCell(TextFixed(lib, c, RowOf(rows, i)), c.price, Numeric(lib)), (y: Record) => TextOk(c, y));
  }

  /** After `dropna`: every rewritten row that passes all four checks. */
  lemma FilteredRows(lib: Library, c: Columns, rows: seq<seq<Cell>>)
    requires Distinct(c)
    ensures LabelsIncrease(Filtered(lib, c, rows))
    ensures forall y :: y in Filtered(lib, c, rows) <==>
              0 <= y.index < |rows| && y == Rewritten(lib, c, RowOf(rows, y.index)) && RowOk(c, y)
  {
    CoercedRows(lib, c, rows);
  }

  /** The statements up to `dropna` (rewrite the name, filter it, rewrite
      the category, filter it, coerce price and stock, drop NaN) produce
      exactly `Screened`: each filter reads a column no later rewrite
      touches. */
  lemma ScreeningMatches(lib: Library, c: Columns, rows: seq<seq<Cell>>)
    requires Distinct(c)
    ensures Filtered(lib, c, rows) == Screened(lib, c, rows)
  {
    FilteredRows(lib, c, rows);
    SameRowsSameFrame(Filtered(lib, c, rows), Screened(lib, c, rows));
  }

  /** `clean_data`, up to the export. A missing column stops it with the
      KeyError of the first one the code reads; otherwise it yields the
      stripped header and the cleaned rows. */
  method CleanProducts(lib: Library, header: seq<string>, rows: seq<seq<Cell>>)
    returns (r: Result<Frame, Error>)
    ensures r.Failure? <==> FirstAbsent(StripColumns(header), Required).Some?
    ensures r.Failure? ==> r.error == MissingColumn(Required[FirstAbsent(StripColumns(header), Required).value])
    ensures r.Success? ==>
              r.value == Frame(StripColumns(header), Cleaned(lib, ColumnsIn(StripColumns(header)), ReadCsv(header, rows)))
  {
    var columns := StripColumns(header);
    FirstAbsentProducts(columns);
    var cells := ReadCsv(header, rows);
    var df := Load(cells);

    var name :- Column(columns, "ProductName");
    df := SetColumn(df, name, NameFix(lib));
    df := Keep(df, name, KnownProductName);

    var category :- Column(columns, "Category");
    df := SetColumn(df, category, CategoryFix(lib));
    df := Keep(df, category, KnownCategory);

    var price :- Column(columns, "UnitPrice");
    df := SetColumn(df, price, Numeric(lib));
    var stock :- Column(columns, "StockQuantity");
    df := SetColumn(df, stock, Numeric(lib));
    df := DropMissing2(df, price, stock);

    ghost var c := Columns(name, category, price, stock);
    assert c == ColumnsIn(columns);
    ScreeningMatches(lib, c, cells);

    df := RemoveOutliersWithAllowlist(df, price, Multiplier, Some(PriceAllowed)).kept;
    df := RemoveOutliersWithAllowlist(df, stock, Multiplier, None).kept;
    df := ResetIndex(df);
    return Success(Frame(columns, df));
  }

  /** Every row written out is a raw row with all rewrites applied that
      passed every check, in file order; the output is relabelled 0..n-1. */
  lemma CleanedRowsTraced(lib: Library, c: Columns, rows: seq<seq<Cell>>)
    ensures var pre := StockPass(lib, c, rows);
            LabelsIncrease(pre) &&
            forall y :: y in pre ==>
              0 <= y.index < |rows| && y == Rewritten(lib, c, RowOf(rows, y.index)) && RowOk(c, y)
    ensures var out := Cleaned(lib, c, rows);
            var pre := StockPass(lib, c, rows);
            |out| == |pre| && forall i :: 0 <= i < |out| ==> out[i] == Record(i, pre[i].cells)
  {
    var screened := Screened(lib, c, rows);
    OutliersKeepOrder(screened, c.price, Multiplier, Some(PriceAllowed));
    OutliersKeepOrder(PricePass(lib, c, rows), c.stock, Multiplier, None);
  }

  /** Every row that reaches the price pass has a numeric price. */
  lemma ScreenedNumeric(lib: Library, c: Columns, rows: seq<seq<Cell>>)
    ensures NumericColumn(Screened(lib, c, rows), c.price)
  {
    forall y | y in Screened(lib, c, rows) ensures At(y, c.price).Num? {
      assert RowOk(c, y);
    }
  }

  /** A row priced 793.12 that reaches the price pass survives it. */
  lemma AllowedPriceKept(lib: Library, c: Columns, rows: seq<seq<Cell>>, y: Record)
    requires y in Screened(lib, c, rows) && At(y, c.price) == Num(793.12)
    ensures y in PricePass(lib, c, rows)
  {
  }

  /** Every price written out is 793.12 or lies within four interquartile
      ranges of the quartiles of the prices that reached the price pass. */
  lemma PricesInRange(lib: Library, c: Columns, rows: seq<seq<Cell>>, y: Record)
    requires y in StockPass(lib, c, rows)
    ensures At(y, c.price).Num?
    ensures At(y, c.price).x == 793.12
            || (IqrBounds(Screened(lib, c, rows), c.price, Multiplier).Some?
                && IqrBounds(Screened(lib, c, rows), c.price, Multiplier).value.0 <= At(y, c.price).x
                && At(y, c.price).x <= IqrBounds(Screened(lib, c, rows), c.price, Multiplier).value.1)
  {
    var screened := Screened(lib, c, rows);
    ScreenedNumeric(lib, c, rows);
    var kept := RemoveOutliersWithAllowlist(screened, c.price, Multiplier, Some(PriceAllowed)).kept;
    assert y in kept;
    RetainedPrice(At(y, c.price), IqrBounds(screened, c.price, Multiplier));
  }

  /** What passing the price pass means for one price. */
  lemma RetainedPrice(v: Cell, b: Option<(real, real)>)
    requires Retained(v, b, PriceAllowed)
    ensures v.Num? && (v.x == 793.12 || (b.Some? && b.value.0 <= v.x <= b.value.1))
  {
  }

  /** Every stock level written out lies within four interquartile ranges
      of the quartiles of the stock levels that survived the price pass. */
  lemma StocksInRange(lib: Library, c: Columns, rows: seq<seq<Cell>>, y: Record)
    requires y in StockPass(lib, c, rows)
    ensures At(y, c.stock).Num?
    ensures var b := IqrBounds(PricePass(lib, c, rows), c.stock, Multiplier);
            b.Some? && b.value.0 <= At(y, c.stock).x <= b.value.1
  {
  }

  /** A written row names a listed product in lower case and a listed
      category; a raw name in another case or with padding is accepted
      when it canonicalises to a listed one, a category only when it
      matches exactly once stripped. */
  lemma NamesAndCategories(lib: Library, c: Columns, x: Record)
    requires RowOk(c, Rewritten(lib, c, x)) && Distinct(c) && c.name < |x.cells| && c.category < |x.cells|
    ensures Strip(Lower(AsStr(lib, At(x, c.name)))) in ValidProductNames
    ensures Strip(AsStr(lib, At(x, c.category))) in ValidCategories
  {
  }

  /** Padding around a category is stripped before the check. */
  lemma CategoryPaddingStripped(lib: Library)
    ensures CategoryFix(lib)(Str(" Sports ")) == Str("Sports") && KnownCategory(CategoryFix(lib)(Str(" Sports ")))
  {
    var raw := Str(" Sports ");
    assert AsStr(lib, raw) == " Sports ";
    assert " Sports " == " " + "Sports" + " ";
    StripPadded(" ", "Sports", " ");
    assert CategoryFix(lib)(raw) == Str(Strip(" Sports "));
  }

  /** A category without surrounding whitespace is taken as it is. */
  lemma CategoryFixKeepsTrimmed(lib: Library, s: string)
    requires s == [] || (!IsSpace(s[0]) && !IsSpace(s[|s| - 1]))
    ensures CategoryFix(lib)(Str(s)) == Str(s)
  {
    var r := CategoryCell(lib, Str(s));
    assert r == Str(Strip(s));
    StripTrimmed(s);
    assert CategoryFix(lib)(Str(s)) == r;
  }

  /** The category check is case-sensitive: case is not folded. */
  lemma CategoryCaseKept(lib: Library)
    ensures CategoryFix(lib)(Str("sports")) == Str("sports")
    ensures !KnownCategory(CategoryFix(lib)(Str("sports")))
  {
    CategoryFixKeepsTrimmed(lib, "sports");
    LowerCategoryUnlisted();
  }

  lemma LowerCategoryUnlisted()
    ensures !KnownCategory(Str("sports"))
  {
    assert "sports" != "Sports" by { assert "sports"[0] != "Sports"[0]; }
  }
}
