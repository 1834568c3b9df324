/** DataFrame cells and the pandas/fuzzywuzzy calls the scripts make on
    single values. Library behaviour that belongs to pandas or fuzzywuzzy
    (date parsing, number parsing, similarity, float rendering) is a
    parameter: everything proved holds for every such library. */
module Cells {
  import opened Wrappers
  import opened Text
  import opened Numerals

  /** A pandas timestamp: a calendar day and the time of day, in
      nanoseconds since midnight. Calendar validity is the parsing
      library's business. */
  datatype Timestamp = Timestamp(year: nat, month: nat, day: nat, time: nat)

  /** One DataFrame cell: NaN/NaT/None, a number, a string or a timestamp. */
  datatype Cell = Missing | Num(x: real) | Str(s: string) | Stamp(d: Timestamp)

  /** What `pd.to_datetime` makes of one value: a timestamp, NaT, or an
      error (raised for a single value, NaT under `errors='coerce'`). */
  datatype Parsed = Valid(d: Timestamp) | NaT | Invalid

  /** fuzz.ratio scores lie in 0..100. */
  type Score = r: int | 0 <= r <= 100

  datatype Library = Library(
    toDatetime: Cell -> Parsed,        // pd.to_datetime on one string or number
    toNumber: string -> Option<real>,  // pd.to_numeric on one string
    ratio: (string, string) -> Score,  // fuzz.ratio
    showReal: real -> string)          // str() of a float

  /** `pd.to_datetime(v)` on a single value: NaN becomes NaT, a timestamp
      stays, anything else goes to the parser. */
  function ScalarDatetime(lib: Library, c: Cell): (p: Parsed)
    ensures c.Missing? ==> p == NaT
    ensures c.Stamp? ==> p == Valid(c.d)
  {
    match c
    case Missing => NaT
    case Stamp(d) => Valid(d)
    case _ => lib.toDatetime(c)
  }

  /** Timestamp `==`: the same day and the same time of day; NaT is equal
      to nothing, itself included. */
  predicate SameInstant(a: Parsed, b: Parsed) {
    a.Valid? && b.Valid? && a.d == b.d
  }

  /** `pd.to_datetime(column, errors='coerce')` on one cell. */
  function CoerceDatetime(lib: Library, c: Cell): (r: Cell)
    ensures r.Stamp? || r.Missing?
    ensures r.Stamp? <==> ScalarDatetime(lib, c).Valid?
    ensures r.Stamp? ==> ScalarDatetime(lib, c) == Valid(r.d)
  {
    match ScalarDatetime(lib, c)
    case Valid(d) => Stamp(d)
    case _ => Missing
  }

  /** `pd.to_numeric(column, errors='coerce')` on one cell: numbers stay,
      strings are parsed, anything else becomes NaN. */
  function ToNumeric(lib: Library, c: Cell): (r: Cell)
    ensures r.Num? || r.Missing?
    ensures c.Num? ==> r == c
    ensures c.Str? ==> (r.Num? <==> lib.toNumber(c.s).Some?)
    ensures c.Missing? || c.Stamp? ==> r.Missing?
  {
    match c
    case Num(_) => c
    case Str(s) => (match lib.toNumber(s) case Some(x) => Num(x) case None => Missing)
    case _ => Missing
  }

  /** `pd.to_numeric(column, errors='coerce')` as a column rewrite. */
  function Numeric(lib: Library): (f: Cell -> Cell)
    ensures forall c: Cell :: f(c).Num? || f(c).Missing?
    ensures forall c: Cell :: c.Num? ==> f(c) == c
  {
    c => ToNumeric(lib, c)
  }

  /** `astype(str)` on one cell; NaN is written "nan". */
  function AsStr(lib: Library, c: Cell): (s: string)
    ensures c.Str? ==> s == c.s
    ensures c.Missing? ==> s == "nan"
  {
    match c
    case Missing => "nan"
    case Num(x) => lib.showReal(x)
    case Str(s) => s
    case Stamp(d) => FormatDate(d) + " " + FormatClock(d.time)
  }

  /** `.str.lower().str.strip()` on one cell; non-strings become NaN. */
  function LowerStrip(c: Cell): (r: Cell)
    ensures r.Str? <==> c.Str?
    ensures c.Str? ==> r.s == Strip(Lower(c.s))
  {
    if c.Str? then Str(Strip(Lower(c.s))) else Missing
  }

  /** `.isin(values)` on one cell of a string column. */
  predicate IsOneOf(c: Cell, values: set<string>)
    ensures IsOneOf(c, values) ==> c.Str?
    ensures c.Str? && c.s in values ==> IsOneOf(c, values)
  {
    c.Str? && c.s in values
  }

  /** `.clip(upper=hi)`: numbers above `hi` become `hi`; NaN stays NaN. */
  function ClipUpper(c: Cell, hi: real): (r: Cell)
    ensures r.Num? <==> c.Num?
    ensures r.Num? ==> r.x <= hi && (c.x <= hi ==> r.x == c.x)
    ensures !c.Num? ==> r == c
  {
    if c.Num? && c.x > hi then Num(hi) else c
  }

  /** `HH:MM:SS` for a time of day given in nanoseconds. */
  function FormatClock(time: nat): string {
    var secs := time / 1_000_000_000;
    Show(Padded(secs / 3600, 2)) + ":" + Show(Padded(secs % 3600 / 60, 2)) + ":" + Show(Padded(secs % 60, 2))
  }

  /** `strftime('%Y-%m-%d')`: the day only; the time of day is dropped. */
  function FormatDate(d: Timestamp): (s: string)
    ensures d.year < 10000 && 1 <= d.month < 100 && 1 <= d.day < 100 ==>
              |s| == 10 && s[4] == '-' && s[7] == '-'
  {
    Show(Padded(d.year, 4)) + "-" + Show(Padded(d.month, 2)) + "-" + Show(Padded(d.day, 2))
  }

  /** Reading the three numerals of a formatted date back gives the date. */
  lemma FormatDateRoundTrip(d: Timestamp)
    requires d.year < 10000 && d.month < 100 && d.day < 100
    ensures var s := FormatDate(d);
            |s| == 10 && s[4] == '-' && s[7] == '-'
            && ReadNumeral(s[..4]) == Some(d.year)
            && ReadNumeral(s[5..7]) == Some(d.month)
            && ReadNumeral(s[8..]) == Some(d.day)
  {
    var y, m, dd := Padded(d.year, 4), Padded(d.month, 2), Padded(d.day, 2);
    DashedParts(Show(y), Show(m), Show(dd));
    ReadShown(y);
    ReadShown(m);
    ReadShown(dd);
  }

  /** The parts of `a-b-c` with a of width 4 and b, c of width 2. */
  lemma DashedParts(a: string, b: string, c: string)
    requires |a| == 4 && |b| == 2 && |c| == 2
    ensures var s := a + "-" + b + "-" + c;
            |s| == 10 && s[4] == '-' && s[7] == '-' && s[..4] == a && s[5..7] == b && s[8..] == c
  {
  }

  /** The value of an all-digit string. */
  function ReadNumeral(s: string): (r: Option<nat>)
  {
    if s != [] && forall i :: 0 <= i < |s| ==> IsDigitChar(s[i])
    then Some(Value(seq(|s|, i requires 0 <= i < |s| => CharDigit(s[i]))))
    else None
  }

  lemma ReadShown(ds: seq<int>)
    requires IsDigitSeq(ds) && ds != []
    ensures ReadNumeral(Show(ds)) == Some(Value(ds))
  {
    var s := Show(ds);
    assert seq(|s|, i requires 0 <= i < |s| => CharDigit(s[i])) == ds;
  }

  /** The order `sort_values` puts a column in: numbers by value, strings
      by code points, timestamps in time order, NaN last. */
  function KindRank(c: Cell): int {
    match c
    case Num(_) => 0
    case Str(_) => 1
    case Stamp(_) => 2
    case Missing => 3
  }

  /** Timestamps in time order: by day, then by time of day. */
  predicate StampLeq(a: Timestamp, b: Timestamp) {
    a.year < b.year || (a.year == b.year && (a.month < b.month || (a.month == b.month &&
      (a.day < b.day || (a.day == b.day && a.time <= b.time)))))
  }

  predicate KeyLeq(a: Cell, b: Cell) {
    if KindRank(a) != KindRank(b) then KindRank(a) < KindRank(b)
    else match a
      case Num(x) => x <= b.x
      case Str(s) => StrLeq(s, b.s)
      case Stamp(d) => StampLeq(d, b.d)
      case Missing => true
  }

  lemma KeyLeqTotal(a: Cell, b: Cell)
    ensures KeyLeq(a, b) || KeyLeq(b, a)
  {
    if a.Str? && b.Str? {
      StrLeqTotal(a.s, b.s);
    }
  }

  lemma KeyLeqTrans(a: Cell, b: Cell, c: Cell)
    requires KeyLeq(a, b) && KeyLeq(b, c)
    ensures KeyLeq(a, c)
  {
    if a.Str? && b.Str? && c.Str? {
      StrLeqTrans(a.s, b.s, c.s);
    }
  }
}
