/** `clean_data` of the sales script: lower-cased headers, sale dates
    parsed (unparseable ones dropped) and rewritten as YYYY-MM-DD, payment
    types canonicalised and checked, amount and discount coerced to numbers
    (rows where either fails dropped), IQR outliers removed from the
    discount (100 always kept), then relabelled 0..n-1. */
module SalesPrep {
  import opened Wrappers
  import opened Text
  import opened Cells
  import opened Tables
  import opened Outliers

  const ValidPaymentTypes: set<string> := {"cash", "debit", "credit"}
  /** The IQR multiplier of the discount pass. */
  const Multiplier: real := 4.0
  /** The one discount kept whatever the bounds say. */
  const DiscountAllowed: seq<real> := [100.0]
  /** The headers `clean_data` reads, in the order it first reads them. */
  const Required: seq<string> := ["saledate", "paymenttype", "saleamount", "discountpercent"]

  /** `df.columns.str.strip().str.lower()`. */
  function LowerColumns(header: seq<string>): (r: seq<string>)
    ensures |r| == |header| && forall i :: 0 <= i < |r| ==> r[i] == Lower(Strip(header[i]))
  {
    seq(|header|, i requires 0 <= i < |header| => Lower(Strip(header[i])))
  }

  /** Where the four columns are. */
  datatype Columns = Columns(date: nat, payment: nat, amount: nat, discount: nat)

  predicate Distinct(c: Columns) {
    c.date != c.payment && c.date != c.amount && c.date != c.discount
    && c.payment != c.amount && c.payment != c.discount && c.amount != c.discount
  }

  /** The columns of a header that has all four. */
  function ColumnsIn(columns: seq<string>): (c: Columns)
    requires FirstAbsent(columns, Required).None?
    ensures c.date < |columns| && c.payment < |columns| && c.amount < |columns| && c.discount < |columns|
    ensures columns[c.date] == "saledate" && columns[c.payment] == "paymenttype"
    ensures columns[c.amount] == "saleamount" && columns[c.discount] == "discountpercent"
  {
    assert forall j :: 0 <= j < |Required| ==> Required[j] in columns;
    assert Required[0] in columns && Required[1] in columns && Required[2] in columns && Required[3] in columns;
    Columns(Column(columns, "saledate").value, Column(columns, "paymenttype").value,
            Column(columns, "saleamount").value, Column(columns, "discountpercent").value)
  }

  /** Which header the KeyError names, in the order the code reads them. */
  lemma FirstAbsentSales(columns: seq<string>)
    ensures FirstAbsent(columns, Required) ==
      if "saledate" !in columns then Some(0)
      else if "paymenttype" !in columns then Some(1)
      else if "saleamount" !in columns then Some(2)
      else if "discountpercent" !in columns then Some(3)
      else None
  {
    var r3: seq<string> := ["discountpercent"];
    var r2: seq<string> := ["saleamount"] + r3;
    var r1: seq<string> := ["paymenttype"] + r2;
    var r0: seq<string> := ["saledate"] + r1;
    assert Required == r0;
    assert ["discountpercent"] + [] == r3;
    FirstAbsentCons(columns, "discountpercent", []);
    FirstAbsentCons(columns, "saleamount", r3);
    FirstAbsentCons(columns, "paymenttype", r2);
    FirstAbsentCons(columns, "saledate", r1);
  }

  /** `pd.to_datetime(errors='coerce')` as a column rewrite. */
  function DateFix(lib: Library): Cell -> Cell {
    c => CoerceDatetime(lib, c)
  }

  /** `.dt.strftime('%Y-%m-%d')` on one cell; NaT stays NaN. */
  function DateText(c: Cell): (r: Cell)
    ensures r.Missing? <==> c.Missing?
    ensures c.Stamp? ==> r == Str(FormatDate(c.d))
  {
    if c.Stamp? then Str(FormatDate(c.d)) else c
  }

  /** `.str.lower().str.strip()` as a column rewrite. */
  function PaymentFix(): Cell -> Cell {
    c => LowerStrip(c)
  }

  predicate KnownPayment(c: Cell) { IsOneOf(c, ValidPaymentTypes) }

  /** Every cell rewrite of `clean_data` applied to one raw row. */
  function Rewritten(lib: Library, c: Columns, x: Record): (y: Record)
    ensures y.index == x.index
  {
    SetCell(SetCell(SetCell(SetCell(SetCell(x, c.date, DateFix(lib)), c.date, DateText),
                                    c.payment, PaymentFix()), c.amount, Numeric(lib)), c.discount, Numeric(lib))
  }

  /** The checks a rewritten row must pass before the outlier pass: a
      parsed sale date, a listed payment type, a numeric amount and
      discount. */
  predicate RowOk(c: Columns, y: Record) {
    Present(At(y, c.date)) && KnownPayment(At(y, c.payment))
    && At(y, c.amount).Num? && At(y, c.discount).Num?
  }

  /** The frame the outlier pass starts from, stated declaratively: every
      raw row rewritten, those passing the checks, in file order. */
  function Screened(lib: Library, c: Columns, rows: seq<seq<Cell>>): (t: Table)
    ensures LabelsIncrease(t)
    ensures forall y :: y in t <==>
              0 <= y.index < |rows| && y == Rewritten(lib, c, RowOf(rows, y.index)) && RowOk(c, y)
  {
    Tabulate(|rows|, i => Rewritten(lib, c, RowOf(rows, i)), y => RowOk(c, y))
  }

  /** The rows left after the discount pass, before relabelling. */
  function DiscountPass(lib: Library, c: Columns, rows: seq<seq<Cell>>): (t: Table)
    ensures forall y :: y in t ==> y in Screened(lib, c, rows)
  {
    RemoveOutliersWithAllowlist(Screened(lib, c, rows), c.discount, Multiplier, Some(DiscountAllowed)).kept
  }

  /** What `clean_data` writes out. */
  function Cleaned(lib: Library, c: Columns, rows: seq<seq<Cell>>): (r: Table)
    ensures |r| <= |rows|
    ensures forall i :: 0 <= i < |r| ==> r[i].index == i && RowOk(c, r[i])
  {
    var pre := DiscountPass(lib, c, rows);
    PassOk(lib, c, rows);
    var r := ResetIndex(pre);
    assert forall i :: 0 <= i < |r| ==> RowOk(c, r[i]) by {
      forall i | 0 <= i < |r| ensures RowOk(c, r[i]) {
        assert pre[i] in pre;
        RowOkCells(c, pre[i], r[i]);
      }
    }
    r
  }

  /** The checks read the cells only, not the label. */
  lemma RowOkCells(c: Columns, y: Record, z: Record)
    requires y.cells == z.cells
    ensures RowOk(c, y) == RowOk(c, z)
  {
  }

  /** The frame before relabelling: no longer than the file, every row
      passed the checks. */
  lemma PassOk(lib: Library, c: Columns, rows: seq<seq<Cell>>)
    ensures |DiscountPass(lib, c, rows)| <= |rows|
    ensures forall y :: y in DiscountPass(lib, c, rows) ==> RowOk(c, y)
  {
  }

  /** The statements of `clean_data` up to `dropna` on the sale date. */
  function Dated(lib: Library, c: Columns, rows: seq<seq<Cell>>): Table {
    Keep(SetColumn(Load(rows), c.date, DateFix(lib)), c.date, Present)
  }

  /** ... up to the payment type check. */
  function Paid(lib: Library, c: Columns, rows: seq<seq<Cell>>): Table {
    Keep(SetColumn(SetColumn(Dated(lib, c, rows), c.date, DateText), c.payment, PaymentFix()),
         c.payment, KnownPayment)
  }

  /** ... up to the amount coercion. */
  function AmountCoerced(lib: Library, c: Columns, rows: seq<seq<Cell>>): Table {
    SetColumn(Paid(lib, c, rows), c.amount, Numeric(lib))
  }

  /** ... up to the discount coercion. */
  function Coerced(lib: Library, c: Columns, rows: seq<seq<Cell>>): Table {
    SetColumn(AmountCoerced(lib, c, rows), c.discount, Numeric(lib))
  }

  /** ... up to `dropna` on amount and discount. */
  function Filtered(lib: Library, c: Columns, rows: seq<seq<Cell>>): Table {
    DropMissing2(Coerced(lib, c, rows), c.amount, c.discount)
  }

  lemma DatedRows(lib: Library, c: Columns, rows: seq<seq<Cell>>)
    ensures LabelsIncrease(Dated(lib, c, rows))
    ensures forall y :: y in Dated(lib, c, rows) <==>
              0 <= y.index < |rows| && y == SetCell(RowOf(rows, y.index), c.date, DateFix(lib))
              && Present(At(y, c.date))
  {
    var t0 := Load(rows);
    var t1 := SetColumn(t0, c.date, DateFix(lib));
    SetColumnOrder(t0, c.date, DateFix(lib));
    SetColumnTracked(t0, |rows|, c.date, DateFix(lib), i => RowOf(rows, i), (y: Record) => true);
    KeepTracked(t1, |rows|, c.date, Present, i => SetCell(RowOf(rows, i), c.date, DateFix(lib)), (y: Record) => true);
    KeepOrder(t1, c.date, Present);
  }

  /** Formatting a parsed date keeps it present. */
  lemma DateTextKeepsPresence(x: Record, k: nat)
    ensures Present(At(SetCell(x, k, DateText), k)) == Present(At(x, k))
  {
  }

  lemma PaidRows(lib: Library, c: Columns, rows: seq<seq<Cell>>)
    requires Distinct(c)
    ensures LabelsIncrease(Paid(lib, c, rows))
    ensures forall y :: y in Paid(lib, c, rows) <==>
              0 <= y.index < |rows|
              && y == SetCell(SetCell(SetCell(RowOf(rows, y.index), c.date, DateFix(lib)), c.date, DateText),
                              c.payment, PaymentFix())
              && Present(At(y, c.date)) && KnownPayment(At(y, c.payment))
  {
    DatedRows(lib, c, rows);
    var G1 := i => SetCell(RowOf(rows, i), c.date, DateFix(lib));
    var G2 := i => SetCell(G1(i), c.date, DateText);
    var F1 := (y: Record) => Present(At(y, c.date));
    var t2 := Dated(lib, c, rows);
    var t3 := SetColumn(t2, c.date, DateText);
    forall x ensures F1(SetCell(x, c.date, DateText)) == F1(x) { DateTextKeepsPresence(x, c.date); }
    SetColumnOrder(t2, c.date, DateText);
    SetColumnTracked(t2, |rows|, c.date, DateText, G1, F1);
    forall x ensures F1(SetCell(x, c.payment, PaymentFix())) == F1(x) {
      assert At(SetCell(x, c.payment, PaymentFix()), c.date) == At(x, c.date);
    }
    RewriteKeepTracked(t3, |rows|, c.payment, PaymentFix(), KnownPayment, G2, F1);
  }

  lemma AmountCoercedRows(lib: Library, c: Columns, rows: seq<seq<Cell>>)
    requires Distinct(c)
    ensures LabelsIncrease(AmountCoerced(lib, c, rows))
    ensures forall y :: y in AmountCoerced(lib, c, rows) <==>
              0 <= y.index < |rows|
              && y == SetCell(SetCell(SetCell(SetCell(RowOf(rows, y.index), c.date, DateFix(lib)), c.date, DateText),
                                      c.payment, PaymentFix()), c.amount, Numeric(lib))
              && Present(At(y, c.date)) && KnownPayment(At(y, c.payment))
  {
    PaidRows(lib, c, rows);
    var t := Paid(lib, c, rows);
    SetColumnOrder(t, c.amount, Numeric(lib));
    SetColumnTracked(t, |rows|, c.amount, Numeric(lib),
      i => SetCell(SetCell(SetCell(RowOf(rows, i), c.date, DateFix(lib)), c.date, DateText), c.payment, PaymentFix()),
      (y: Record) => Present(At(y, c.date)) && KnownPayment(At(y, c.payment)));
  }

  lemma CoercedRows(lib: Library, c: Columns, rows: seq<seq<Cell>>)
    requires Distinct(c)
    ensures LabelsIncrease(Coerced(lib, c, rows))
    ensures forall y :: y in Coerced(lib, c, rows) <==>
              0 <= y.index < |rows| && y == Rewritten(lib, c, RowOf(rows, y.index))
              && Present(At(y, c.date)) && KnownPayment(At(y, c.payment))
  {
    AmountCoercedRows(lib, c, rows);
    var t := AmountCoerced(lib, c, rows);
    SetColumnOrder(t, c.discount, Numeric(lib));
    SetColumnTracked(t, |rows|, c.discount, Numeric(lib),
      i => SetCell(SetCell(SetCell(SetCell(RowOf(rows, i), c.date, DateFix(lib)), c.date, DateText),
                           c.payment, PaymentFix()), c.amount, Numeric(lib)),
      (y: Record) => Present(At(y, c.date)) && KnownPayment(At(y, c.payment)));
  }

  lemma FilteredRows(lib: Library, c: Columns, rows: seq<seq<Cell>>)
    requires Distinct(c)
    ensures LabelsIncrease(Filtered(lib, c, rows))
    ensures forall y :: y in Filtered(lib, c, rows) <==>
              0 <= y.index < |rows| && y == Rewritten(lib, c, RowOf(rows, y.index)) && RowOk(c, y)
  {
    CoercedRows(lib, c, rows);
  }

  /** The statements up to the last `dropna` produce exactly `Screened`:
      each filter reads a column no later rewrite changes, except that
      formatting a parsed date keeps it present. */
  lemma ScreeningMatches(lib: Library, c: Columns, rows: seq<seq<Cell>>)
    requires Distinct(c)
    ensures Filtered(lib, c, rows) == Screened(lib, c, rows)
  {
    FilteredRows(lib, c, rows);
    SameRowsSameFrame(Filtered(lib, c, rows), Screened(lib, c, rows));
  }

  /** `clean_data`, up to the export. A missing column stops it with the
      KeyError of the first one the code reads; otherwise it yields the
      normalised header and the cleaned rows. */
  method CleanSales(lib: Library, header: seq<string>, rows: seq<seq<Cell>>)
    returns (r: Result<Frame, Error>)
    ensures r.Failure? <==> FirstAbsent(LowerColumns(header), Required).Some?
    ensures r.Failure? ==> r.error == MissingColumn(Required[FirstAbsent(LowerColumns(header), Required).value])
    ensures r.Success? ==>
              r.value == Frame(LowerColumns(header), Cleaned(lib, ColumnsIn(LowerColumns(header)), ReadCsv(header, rows)))
  {
    var columns := LowerColumns(header);
    FirstAbsentSales(columns);
    var cells := ReadCsv(header, rows);
    var df := Load(cells);

    var date :- Column(columns, "saledate");
    df := SetColumn(df, date, DateFix(lib));
    df := Keep(df, date, Present);
    df := SetColumn(df, date, DateText);

    var payment :- Column(columns, "paymenttype");
    df := SetColumn(df, payment, PaymentFix());
    df := Keep(df, payment, KnownPayment);

    var amount :- Column(columns, "saleamount");
    df := SetColumn(df, amount, Numeric(lib));
    var discount :- Column(columns, "discountpercent");
    df := SetColumn(df, discount, Numeric(lib));
    df := DropMissing2(df, amount, discount);

    ghost var c := Columns(date, payment, amount, discount);
    assert c == ColumnsIn(columns);
    ScreeningMatches(lib, c, cells);

    df := RemoveOutliersWithAllowlist(df, discount, Multiplier, Some(DiscountAllowed)).kept;
    df := ResetIndex(df);
    return Success(Frame(columns, df));
  }

  /** Every row written out is a raw row with all rewrites applied that
      passed every check, in file order; the output is relabelled 0..n-1. */
  lemma CleanedRowsTraced(lib: Library, c: Columns, rows: seq<seq<Cell>>)
    ensures var pre := DiscountPass(lib, c, rows);
            LabelsIncrease(pre) &&
            forall y :: y in pre ==>
              0 <= y.index < |rows| && y == Rewritten(lib, c, RowOf(rows, y.index)) && RowOk(c, y)
    ensures var out := Cleaned(lib, c, rows);
            var pre := DiscountPass(lib, c, rows);
            |out| == |pre| && forall i :: 0 <= i < |out| ==> out[i] == Record(i, pre[i].cells)
  {
    OutliersKeepOrder(Screened(lib, c, rows), c.discount, Multiplier, Some(DiscountAllowed));
  }

  /** A full discount that reaches the outlier pass always survives it. */
  lemma FullDiscountKept(lib: Library, c: Columns, rows: seq<seq<Cell>>, y: Record)
    requires y in Screened(lib, c, rows) && At(y, c.discount) == Num(100.0)
    ensures y in DiscountPass(lib, c, rows)
  {
  }

  /** Every discount written out is 100 or lies within four interquartile
      ranges of the quartiles of the discounts that reached the pass. */
  lemma DiscountsInRange(lib: Library, c: Columns, rows: seq<seq<Cell>>, y: Record)
    requires y in DiscountPass(lib, c, rows)
    ensures At(y, c.discount).Num?
    ensures At(y, c.discount).x == 100.0
            || (IqrBounds(Screened(lib, c, rows), c.discount, Multiplier).Some?
                && IqrBounds(Screened(lib, c, rows), c.discount, Multiplier).value.0 <= At(y, c.discount).x
                && At(y, c.discount).x <= IqrBounds(Screened(lib, c, rows), c.discount, Multiplier).value.1)
  {
    var screened := Screened(lib, c, rows);
    ScreenedNumeric(lib, c, rows);
    var kept := RemoveOutliersWithAllowlist(screened, c.discount, Multiplier, Some(DiscountAllowed)).kept;
    assert y in kept;
    RetainedDiscount(At(y, c.discount), IqrBounds(screened, c.discount, Multiplier));
  }

  /** Every row that reaches the discount pass has a numeric discount. */
  lemma ScreenedNumeric(lib: Library, c: Columns, rows: seq<seq<Cell>>)
    ensures NumericColumn(Screened(lib, c, rows), c.discount)
  {
    forall y | y in Screened(lib, c, rows) ensures At(y, c.discount).Num? {
      assert RowOk(c, y);
    }
  }

  /** What passing the discount pass means for one discount. */
  lemma RetainedDiscount(v: Cell, b: Option<(real, real)>)
    requires Retained(v, b, DiscountAllowed)
    ensures v.Num? && (v.x == 100.0 || (b.Some? && b.value.0 <= v.x <= b.value.1))
  {
  }

  /** The sale date written out is the parsed date of the raw cell in
      YYYY-MM-DD form, and a row whose date does not parse is not written. */
  lemma SaleDateWritten(lib: Library, c: Columns, x: Record)
    requires Distinct(c) && c.date < |x.cells|
    ensures var y := Rewritten(lib, c, x);
            Present(At(y, c.date)) <==> ScalarDatetime(lib, At(x, c.date)).Valid?
    ensures var y := Rewritten(lib, c, x);
            ScalarDatetime(lib, At(x, c.date)).Valid? ==>
              At(y, c.date) == Str(FormatDate(ScalarDatetime(lib, At(x, c.date)).d))
  {
    var x1 := SetCell(x, c.date, DateFix(lib));
    assert At(x1, c.date) == CoerceDatetime(lib, At(x, c.date));
    var x2 := SetCell(x1, c.date, DateText);
    assert At(x2, c.date) == DateText(CoerceDatetime(lib, At(x, c.date)));
  }

  /** The payment type written out is a listed one; a raw value in another
      case or with padding is accepted when it canonicalises to a listed one. */
  lemma PaymentWritten(lib: Library, c: Columns, x: Record)
    requires Distinct(c) && c.payment < |x.cells| && RowOk(c, Rewritten(lib, c, x))
    ensures At(x, c.payment).Str? && Strip(Lower(At(x, c.payment).s)) in ValidPaymentTypes
  {
  }

  /** The discount pass removes every discount other than 100 that lies
      outside four interquartile ranges of the quartiles. */
  lemma DiscountOutsideRemoved(t: Table, k: nat, y: Record)
    requires NumericColumn(t, k) && y in t && At(y, k).Num? && At(y, k).x != 100.0
    requires IqrBounds(t, k, Multiplier).Some?
    requires At(y, k).x < IqrBounds(t, k, Multiplier).value.0 || At(y, k).x > IqrBounds(t, k, Multiplier).value.1
    ensures y !in RemoveOutliersWithAllowlist(t, k, Multiplier, Some(DiscountAllowed)).kept
  {
    OutsideRemoved(t, k, Multiplier, Some(DiscountAllowed), y);
  }

  /** Payment types are compared after lower-casing and stripping:
      "CASH " is kept as "cash". */
  lemma PaymentCaseFolded()
    ensures PaymentFix()(Str("CASH ")) == Str("cash") && KnownPayment(PaymentFix()(Str("CASH ")))
  {
    var low := Lower("CASH ");
    assert low[0] == 'c' && low[1] == 'a' && low[2] == 's' && low[3] == 'h' && low[4] == ' ';
    assert low == "cash ";
    assert StripLeft(low) == low;
    assert low[..4] == "cash";
    assert StripRight(low) == StripRight("cash");
    assert StripRight("cash") == "cash";
    assert Strip(low) == "cash";
  }

  /** A payment type outside the list is dropped: "crypto". */
  lemma PaymentUnknownRejected()
    ensures !KnownPayment(PaymentFix()(Str("crypto")))
  {
    var low := Lower("crypto");
    assert low[0] == 'c' && low[1] == 'r' && low[2] == 'y';
    assert StripLeft(low) == low;
    assert StripRight(low) == low;
    assert Strip(low) == low;
  }
}
