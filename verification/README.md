# Data preparation scripts: a verified model

This project models the three data-preparation scripts of a small retail
analytics repository. Each script reads a raw CSV file with pandas, cleans
it, and writes a prepared CSV file:

- **customers** (`data_prep_customers_data.py`). It strips the header names
  and standardises every `Name`. It drops fuzzy duplicates: rows with the
  same `JoinDate` whose names score above 90 under `fuzz.ratio`. It keeps
  the known regions, repairs loyalty points with a repeated-digit pattern
  (`505050` becomes `50`), coerces them to numbers and caps them at 100. It
  keeps the known contact methods and the rows whose `JoinDate` parses, then
  renumbers the rows.
- **products** (`prepare_products_data.py`). It strips the header names,
  lower-cases and strips product names and strips categories, and keeps
  known values of both. It coerces price and stock to numbers and drops rows
  where either is missing. It removes IQR outliers from price (keeping
  793.12) and then from stock, and renumbers the rows.
- **sales** (`prepare_sales_data.py`). It strips and lower-cases the header
  names and keeps the rows whose sale date parses, rewritten as
  `YYYY-MM-DD`. It keeps the known payment types after lower-casing and
  stripping, and coerces amount and discount to numbers, dropping rows where
  either is missing. It removes IQR outliers from the discount (keeping 100)
  and renumbers the rows.

A DataFrame is a sequence of `Record`s: an index label plus a row of
`Cell`s (`Missing` for NaN/NaT, `Num`, `Str`, `Stamp`). `read_csv` gives
labels `0..n-1`, filters keep them and `reset_index(drop=True)` renumbers.
Library behaviour that belongs to pandas or fuzzywuzzy is a parameter of
type `Cells.Library`: parsing one value as a date, parsing a string as a
number, `fuzz.ratio`, and `str()` of a float. Every result holds for every
such library.

Each `clean_data` is a method that returns either the cleaned frame or the
error that ends the script. The scripts log that error and write nothing,
so `Failure` stands for "no output file". Its `ensures` ties the result to
a declarative description of the output: for products and sales, the raw
rows rewritten and screened, then passed through the outlier stages, then
renumbered. Lemmas then state, row by row, what every output row holds and
where it came from. `remove_fuzzy_duplicates` is modelled as the loop it
is: `FuzzyDedup.RemoveFuzzyDuplicates` with the inner loop
`FuzzyDedup.MarkDuplicatesOf`. It is proved equal to a declarative
definition (`Survives`: no earlier surviving row is a duplicate).

Points where the code's behaviour is easy to misread, and what the model
proves about them:
- Duplicate detection compares a row only with the earlier rows that are
  still kept, so it is not transitive. If row `a` drops row `b`, and `b` is
  similar to a later row `c` with the same date while `a` is not, then `c`
  stays. The model proves what the loop gives: no two output rows are
  duplicates (`CustomersPrep.CleanedNoFuzzyDuplicates`), and every dropped
  row has a kept duplicate before it (`FuzzyDedup.DroppedHasKeptTwin`).
- The category check only strips, so `"sports"` is rejected
  (`ProductsPrep.CategoryCaseKept`). Product names and payment types are
  lower-cased before their checks.
- Each `clean_data` catches every exception, logs it and returns. The model
  returns that exception as a `Failure` value.
- `sort_values` on the join date fixes no order among equal dates. The sort
  is therefore a parameter of type `Tables.Sorter`: any function that
  returns a sorted permutation of its input. Every result about the
  duplicate search and the customers output holds for every such sort.
  `Tables.SortBy`, a stable insertion sort, is one of them.

## Model

| member | source | states |
|---|---|---|
| Text.Strip | scripts/data_prep/data_prep_customers_data.py:28 | `str.strip()`: the result is the input with whitespace removed at both ends only; it neither starts nor ends with whitespace, and everything removed was whitespace |
| Text.Lower | scripts/data_prep/prepare_products_data.py:56 | `str.lower()` keeps the length and lower-cases each ASCII letter, leaving all other characters |
| Text.StripLowerNoUpper | scripts/data_prep/prepare_products_data.py:56 | after lower-casing and stripping no upper-case letter is left |
| Text.StripIsSlice | scripts/data_prep/prepare_products_data.py:63 | the stripped text is the slice of the input that starts after its leading whitespace: characters and their case are kept |
| Text.StripTrimmed | scripts/data_prep/data_prep_customers_data.py:28 | stripping a string with no surrounding whitespace leaves it unchanged |
| Text.StripPadded | scripts/data_prep/data_prep_customers_data.py:28 | whitespace padding on either side of a string that neither starts nor ends with whitespace is exactly what `strip()` removes |
| Text.StrLeqTotal | scripts/data_prep/data_prep_customers_data.py:31 | the code-point order `sort_values` uses on strings is total |
| Text.StrLeqTrans | scripts/data_prep/data_prep_customers_data.py:31 | the code-point order on strings is transitive |
| Names.Title | scripts/data_prep/data_prep_customers_data.py:28 | `str.title()`, character by character: position `i` holds the upper case of the input character when it starts the string or follows a non-letter, and its lower case otherwise; the length, non-letters and whitespace are unchanged |
| Names.CollapseSpaces | scripts/data_prep/data_prep_customers_data.py:28 | `re.sub(' +', ' ', s)`: the result is `s` with exactly its doubled spaces (a space followed by a space) left out; every other character of `s` appears in order, at the position given by the number of kept characters before it; no two adjacent spaces remain; the first and last characters are kept |
| Names.StandardizeName | scripts/data_prep/data_prep_customers_data.py:27-28 | a standardised name has no surrounding whitespace and no double space, is never longer than the input, and its non-space characters are those of the input up to case: only whitespace goes and only case changes |
| Names.NonSpaceStrip | scripts/data_prep/data_prep_customers_data.py:28 | stripping removes whitespace only: the non-space characters are unchanged |
| Names.NonSpaceCollapse | scripts/data_prep/data_prep_customers_data.py:28 | collapsing space runs removes spaces only |
| Names.LowerTitle | scripts/data_prep/data_prep_customers_data.py:28 | title-casing changes case only: the lower-cased text is unchanged |
| Names.StandardizeKeepsText | scripts/data_prep/data_prep_customers_data.py:27-28 | the three steps of `standardize_name` keep the name's non-space characters, in order, up to case |
| Names.CollapseNoDouble | scripts/data_prep/data_prep_customers_data.py:28 | collapsing a string that has no double space changes nothing |
| Names.TitleTwice | scripts/data_prep/data_prep_customers_data.py:28 | title-casing is idempotent |
| Names.CollapseTitleCommute | scripts/data_prep/data_prep_customers_data.py:28 | collapsing spaces and title-casing commute |
| Names.StandardizedIsTitled | scripts/data_prep/data_prep_customers_data.py:27-28 | a standardised name is already in title case |
| Names.StandardizeIdempotent | scripts/data_prep/data_prep_customers_data.py:27-28 | standardising a standardised name changes nothing |
| Names.StandardizedWordCase | scripts/data_prep/data_prep_customers_data.py:27-28 | in a standardised name a letter is upper case exactly when it begins a word |
| Numerals.Digits | scripts/data_prep/data_prep_customers_data.py:54 | `str(n)` for `n >= 0`: at least one decimal digit, with no leading zero unless the number is 0 |
| Numerals.ValueOfDigits | scripts/data_prep/data_prep_customers_data.py:54-57 | reading back the digits of `str(n)` gives `n` |
| Numerals.DigitsOfValue | scripts/data_prep/data_prep_customers_data.py:54-57 | a digit sequence without a leading zero is `str` of its own value |
| Numerals.Padded | scripts/data_prep/prepare_sales_data.py:57 | zero-padded digits have value `n` and are exactly `w` digits when `n < 10^w` |
| Numerals.ParseShownDigits | scripts/data_prep/data_prep_customers_data.py:54 | `int(str(n)) == n` on text |
| Numerals.NumeralDigits | scripts/data_prep/data_prep_customers_data.py:54 | a result exactly for a numeral (a digit, then digits each optionally preceded by one underscore); the result is `DigitsIn(s)`, the numeral's digits in order with the underscores dropped |
| Numerals.NumeralShape | scripts/data_prep/data_prep_customers_data.py:54 | a numeral holds only digits and underscores and ends with a digit |
| Numerals.ParseSigned | scripts/data_prep/data_prep_customers_data.py:54 | `int()` on unpadded text: a result exactly when an optional sign is followed by a numeral; a negative result only after a `-` |
| Numerals.ParseInt | scripts/data_prep/data_prep_customers_data.py:54 | `int(s)` on text: a result exactly when the stripped text is an optional sign followed by a numeral; then it starts with a digit or a sign and ends with a digit; a negative result only after a `-` |
| Numerals.ParseSignedForm | scripts/data_prep/data_prep_customers_data.py:54 | a sign and a numeral with digits `ds` read as the signed value of `ds` |
| Numerals.ParseIntForm | scripts/data_prep/data_prep_customers_data.py:54 | for any whitespace padding, sign in `""`, `"+"`, `"-"` and numeral `n` with `ds == DigitsIn(n)`, `int()` gives the signed value of `ds`; leading zeros and underscores are allowed |
| Numerals.PaddedNumeral | scripts/data_prep/data_prep_customers_data.py:54 | stripping whitespace padding around a signed numeral leaves exactly the sign and the numeral |
| Numerals.ParseStripped | scripts/data_prep/data_prep_customers_data.py:54 | any text that strips to a signed numeral is read as the signed value of its digits |
| Numerals.ParseIntPadded | scripts/data_prep/data_prep_customers_data.py:54 | `int(pre + sign + digits + post)` is the signed value of any non-empty digit sequence, padding, sign and leading zeros included |
| LoyaltyRepair.Truncate | scripts/data_prep/data_prep_customers_data.py:54 | `int()` of a float truncates toward zero |
| LoyaltyRepair.RepeatedGroup | scripts/data_prep/data_prep_customers_data.py:55 | the group `re.fullmatch(r'(\d{2,3})\1{1,}')` captures: the leading 3 or 2 digits repeated at least twice to fill the string, three tried first; None exactly when neither length repeats |
| LoyaltyRepair.CorrectRepeatedPattern | scripts/data_prep/data_prep_customers_data.py:49-63 | a changed value is the number the captured group spells, in 10..100, taken from the digits of `int(val)`; a value `int()` rejects is returned unchanged |
| LoyaltyRepair.GroupAtLeastTen | scripts/data_prep/data_prep_customers_data.py:55-58 | a captured group of 2 or 3 digits with no leading zero is at least 10 |
| LoyaltyRepair.PointsCell | scripts/data_prep/data_prep_customers_data.py:86-90 | after repair, coercion and the cap, points are NaN or at most 100; NaN exactly when coercion of the repaired value fails |
| LoyaltyRepair.RepairOf | scripts/data_prep/data_prep_customers_data.py:54-60 | an integer whose digits repeat a group worth at most 100 is replaced by the group's value |
| LoyaltyRepair.NoRepairOf | scripts/data_prep/data_prep_customers_data.py:55-61 | an integer whose digits repeat no group of two or three digits is returned unchanged |
| LoyaltyRepair.LargeGroupKept | scripts/data_prep/data_prep_customers_data.py:57-61 | an integer whose repeated group is worth more than 100 is returned unchanged |
| LoyaltyRepair.SameIntSameRepair | scripts/data_prep/data_prep_customers_data.py:54 | the repair reads a value only through `int(val)`: two values with the same `int()` that get repaired get the same number |
| LoyaltyRepair.Repairs505050 | scripts/data_prep/data_prep_customers_data.py:49-60 | `505050` becomes `50` |
| LoyaltyRepair.Repairs100100 | scripts/data_prep/data_prep_customers_data.py:49-60 | `100100` becomes `100`, the largest allowed group |
| LoyaltyRepair.Keeps101101 | scripts/data_prep/data_prep_customers_data.py:56-61 | `101101` is kept: its group is above 100 |
| LoyaltyRepair.Keeps123123 | scripts/data_prep/data_prep_customers_data.py:56-61 | `123123` is kept: its group is above 100 |
| LoyaltyRepair.Keeps111111 | scripts/data_prep/data_prep_customers_data.py:55-61 | `111111` is kept: the three-digit group `111` is tried before `11` |
| LoyaltyRepair.KeepsShortValues | scripts/data_prep/data_prep_customers_data.py:55-61 | `999` and `50` are kept: one copy is not a repetition |
| LoyaltyRepair.KeepsNegativeAndNonIntegers | scripts/data_prep/data_prep_customers_data.py:53-63 | a negative number, text that is not an integer and NaN are returned unchanged |
| LoyaltyRepair.RepairsText505050 | scripts/data_prep/data_prep_customers_data.py:49-60 | the text `"505050"` becomes the number `50` |
| LoyaltyRepair.ParsePadded505050 | scripts/data_prep/data_prep_customers_data.py:54 | `int(" 505050 ") == 505050` |
| LoyaltyRepair.ParsePlus505050 | scripts/data_prep/data_prep_customers_data.py:54 | `int("+505050") == 505050` |
| LoyaltyRepair.ParseZeroLed505050 | scripts/data_prep/data_prep_customers_data.py:54 | `int("0505050") == 505050` |
| LoyaltyRepair.ParseUnderscored505050 | scripts/data_prep/data_prep_customers_data.py:54 | `int("505_050") == 505050` |
| LoyaltyRepair.RepairsTextForms505050 | scripts/data_prep/data_prep_customers_data.py:49-60 | the texts `" 505050 "`, `"+505050"`, `"0505050"` and `"505_050"` all become the number `50` |
| Cells.ScalarDatetime | scripts/data_prep/data_prep_customers_data.py:43 | `pd.to_datetime` on one value: NaN is NaT and a timestamp stays itself |
| Cells.CoerceDatetime | scripts/data_prep/data_prep_customers_data.py:100 | `to_datetime(errors='coerce')`: a timestamp exactly when the value parses, with that date; NaT otherwise |
| Cells.ToNumeric | scripts/data_prep/prepare_products_data.py:68-69 | `to_numeric(errors='coerce')`: numbers stay, strings become numbers exactly when they parse, everything else NaN |
| Cells.Numeric | scripts/data_prep/prepare_products_data.py:68-69 | `to_numeric` as a column rewrite: every cell becomes a number or NaN, and numbers are kept |
| Cells.AsStr | scripts/data_prep/prepare_products_data.py:56 | `astype(str)`: strings unchanged, NaN written `nan` |
| Cells.LowerStrip | scripts/data_prep/prepare_sales_data.py:62 | `.str.lower().str.strip()`: strings lower-cased and stripped; non-strings become NaN |
| Cells.ClipUpper | scripts/data_prep/data_prep_customers_data.py:90 | `clip(upper=hi)`: numbers never above `hi`, unchanged when already at most `hi`; NaN stays NaN |
| Cells.IsOneOf | scripts/data_prep/data_prep_customers_data.py:82 | `isin` on one cell: a string in the list passes; anything that passes is a string, so NaN and numbers never do |
| Cells.FormatDate | scripts/data_prep/prepare_sales_data.py:57 | `strftime('%Y-%m-%d')` is ten characters with dashes at positions 4 and 7 |
| Cells.FormatDateRoundTrip | scripts/data_prep/prepare_sales_data.py:57 | reading the three numerals of a formatted date gives back the year, month and day |
| Cells.KeyLeqTotal | scripts/data_prep/data_prep_customers_data.py:31 | the `sort_values` key order is total |
| Cells.KeyLeqTrans | scripts/data_prep/data_prep_customers_data.py:31 | the `sort_values` key order is transitive |
| Tables.Load | scripts/data_prep/data_prep_customers_data.py:68 | `read_csv` labels rows `0..n-1`: row `i` is raw row `i` with label `i` |
| Tables.PadRow | scripts/data_prep/data_prep_customers_data.py:68 | a row shorter than the header is padded with NaN to the header's width; every existing cell is kept |
| Tables.ReadCsv | scripts/data_prep/data_prep_customers_data.py:68 | every data row read has at least the header's width, each padded as `PadRow` says |
| Tables.PadKeepsCells | scripts/data_prep/data_prep_customers_data.py:68 | padding changes no cell read, and every column of the header lies inside the padded row |
| CustomersPrep.ReadCsvFits | scripts/data_prep/data_prep_customers_data.py:68 | the rows `read_csv` gives have a cell in each of the five columns, which `CleanedRow` requires |
| CustomersPrep.ShortRowNamed | scripts/data_prep/data_prep_customers_data.py:68-75 | a row shorter than the header still has its Name cell standardised (NaN read as `"nan"`) |
| Tables.Find | scripts/data_prep/data_prep_customers_data.py:75 | the first column with a given header; None exactly when it is absent |
| Tables.Column | scripts/data_prep/data_prep_customers_data.py:75 | `df[name]`: succeeds exactly when the header exists, else fails with a KeyError naming it |
| Tables.FirstAbsent | scripts/data_prep/data_prep_customers_data.py:72-96 | None exactly when every required header is present; otherwise names one that is absent |
| Tables.FirstAbsentCons | scripts/data_prep/data_prep_customers_data.py:72-96 | one more header at the front of the list is reported when it is absent; otherwise the report for the rest moves one place on |
| Tables.StripColumns | scripts/data_prep/data_prep_customers_data.py:72 | `df.columns.str.strip()`: each header stripped, count unchanged |
| Tables.Keep | scripts/data_prep/data_prep_customers_data.py:82 | `df[df[col].isin(...)]`: a row is kept exactly when it was there and passes the test |
| Tables.KeepOrder | scripts/data_prep/data_prep_customers_data.py:82 | filtering keeps labels increasing and distinct |
| Tables.KeepIsPassing | scripts/data_prep/data_prep_customers_data.py:82 | a one-column filter is the general rewrite-and-filter `Passing` with no rewrite and the column test, so the filter lemmas of `Passing` apply to it |
| Tables.SetCell | scripts/data_prep/data_prep_customers_data.py:75 | assigning a column rewrites that cell of a row, keeps the label, width and all other cells |
| Tables.SetColumn | scripts/data_prep/data_prep_customers_data.py:75 | assigning a column rewrites that cell in every row, keeping the row count and order |
| Tables.SetColumnMember | scripts/data_prep/data_prep_customers_data.py:75 | a row is in the rewritten frame exactly when it is the rewrite of an old row |
| Tables.SetColumnOrder | scripts/data_prep/data_prep_customers_data.py:75 | assigning a column keeps the labels increasing |
| Tables.DropMissing2 | scripts/data_prep/prepare_products_data.py:72 | `dropna(subset=[a, b])`: exactly the rows where neither cell is NaN, labels in order |
| Tables.ResetIndex | scripts/data_prep/data_prep_customers_data.py:105 | `reset_index(drop=True)`: the same rows in the same order, labelled `0..n-1` |
| Tables.Insert | scripts/data_prep/data_prep_customers_data.py:31 | inserting one row adds exactly that row |
| Tables.InsertSorted | scripts/data_prep/data_prep_customers_data.py:31 | inserting into a sorted frame keeps it sorted |
| Tables.SortBy | scripts/data_prep/data_prep_customers_data.py:31 | `sort_values(by=col)`: a permutation of the rows, sorted by the column |
| Tables.SortSorted | scripts/data_prep/data_prep_customers_data.py:31 | sorting a frame that is already sorted leaves it in place |
| Tables.SelectMember | scripts/data_prep/data_prep_customers_data.py:47 | `df[mask]` keeps exactly the rows at the selected positions |
| Tables.Select | scripts/data_prep/data_prep_customers_data.py:47 | `df[mask]`: never longer than the frame, and every row comes from it |
| Tables.PermutationKeepsLabelsDistinct | scripts/data_prep/data_prep_customers_data.py:31 | reordering rows keeps labels distinct |
| Tables.SameRowsSameFrame | scripts/data_prep/data_prep_customers_data.py:105 | two frames with increasing labels and the same rows are the same frame |
| Tables.MapKeep | scripts/data_prep/data_prep_customers_data.py:81-101 | a series of column rewrites and row filters: each output row is the rewrite of a passing input row, in input order, and passes |
| Tables.MapKeepMember | scripts/data_prep/data_prep_customers_data.py:81-101 | a row is in the output exactly when it passes and rewrites some input row |
| Tables.PassingMember | scripts/data_prep/data_prep_customers_data.py:81-101 | an input row reaches the output exactly when its rewrite passes |
| Tables.PassingPairwise | scripts/data_prep/data_prep_customers_data.py:81-101 | filtering keeps the relative order of the rows |
| Outliers.SortReals | scripts/data_prep/prepare_products_data.py:27-28 | the values in ascending order: a sorted permutation |
| Outliers.ColumnValues | scripts/data_prep/prepare_products_data.py:27-28 | the non-NaN numbers of the column, which is all `quantile` looks at |
| Outliers.Lerp | scripts/data_prep/prepare_products_data.py:27-28 | linear interpolation lies between its two endpoints |
| Outliers.LerpMonotone | scripts/data_prep/prepare_products_data.py:27-28 | interpolation grows with its weight |
| Outliers.Quantile | scripts/data_prep/prepare_products_data.py:27-28 | `quantile(p)` (linear): undefined exactly for no values; otherwise between the least and the greatest value, and, with `h = (n - 1) * p`, between the values at positions `floor(h)` and `floor(h) + 1` (equal to the value at `floor(h)` at the last position) |
| Outliers.QuantileMonotone | scripts/data_prep/prepare_products_data.py:27-28 | a higher `p` never gives a lower quantile |
| Outliers.ColumnQuantile | scripts/data_prep/prepare_products_data.py:27-28 | a column quantile is NaN exactly when the column has no numbers |
| Outliers.Min | scripts/data_prep/prepare_products_data.py:27-29 | the least value, one of the values: the lower end of the range `QuartilesOrdered` places Q1 and Q3 in |
| Outliers.Max | scripts/data_prep/prepare_products_data.py:27-29 | the greatest value, one of the values: the upper end of the range `QuartilesOrdered` places Q1 and Q3 in |
| Outliers.QuartilesOrdered | scripts/data_prep/prepare_products_data.py:27-29 | minimum <= Q1 <= Q3 <= maximum, so the IQR is not negative |
| Outliers.IqrBounds | scripts/data_prep/prepare_products_data.py:29-31 | NaN bounds exactly when the column has no numbers; with a non-negative multiplier `lower <= Q1 <= Q3 <= upper` |
| Outliers.AllowList | scripts/data_prep/prepare_products_data.py:33-34 | `allowed_values=None` becomes the empty list; a given list is used as it is |
| Outliers.Retained | scripts/data_prep/prepare_products_data.py:37-39 | the row-keeping test: only a number can pass; an allowed number passes; a number within the bounds passes |
| Outliers.FinalMask | scripts/data_prep/prepare_products_data.py:36-39 | `final_mask` is true at a row exactly when its value is within the bounds or allowed |
| Outliers.KeptCount | scripts/data_prep/prepare_products_data.py:41 | `final_mask.sum()` is the number of rows kept |
| Outliers.KeptMembers | scripts/data_prep/prepare_products_data.py:44 | `df[final_mask]` holds exactly the rows whose value is within the bounds or allowed |
| Outliers.RemoveOutliersWithAllowlist | scripts/data_prep/prepare_products_data.py:23-44 | a row is kept exactly when its value is a number within `[q1 - m*IQR, q3 + m*IQR]` or in the allow list; rows keep their order; `removed` is the count dropped |
| Outliers.OutliersKeepOrder | scripts/data_prep/prepare_products_data.py:44 | the outlier pass keeps labels increasing and distinct |
| Outliers.NoneMeansEmpty | scripts/data_prep/prepare_products_data.py:33-34 | `allowed_values=None` behaves as the empty list |
| Outliers.AllowedNeverRemoved | scripts/data_prep/prepare_products_data.py:38-39 | a value in the allow list is never removed, however far out it lies |
| Outliers.InterquartileSurvives | scripts/data_prep/prepare_products_data.py:27-37 | with a non-negative multiplier a value between Q1 and Q3 always survives |
| Outliers.OutsideRemoved | scripts/data_prep/prepare_products_data.py:36-39 | a value outside the bounds and not allowed is removed |
| FuzzyDedup.DropPositions | scripts/data_prep/data_prep_customers_data.py:47 | `df.drop(df.index[list(to_drop)])`: every row whose label is found at a marked position goes |
| FuzzyDedup.Dup | scripts/data_prep/data_prep_customers_data.py:43-44 | two rows are duplicates only when both join dates parse to the same timestamp and the names score above 90; a row with a NaN join date is nobody's duplicate |
| FuzzyDedup.Survives | scripts/data_prep/data_prep_customers_data.py:33-45 | the first sorted row survives, and so does every row whose join date is NaT |
| FuzzyDedup.Deduplicated | scripts/data_prep/data_prep_customers_data.py:47 | the surviving rows of a sorted frame: all taken from it, the first row always among them |
| FuzzyDedup.MarkedAtVisit | scripts/data_prep/data_prep_customers_data.py:33-35 | when the outer loop reaches row `i`, its mark is final: marked exactly when it does not survive |
| FuzzyDedup.VisitKept | scripts/data_prep/data_prep_customers_data.py:38-45 | visiting a surviving row marks exactly its later duplicates that are still unmarked |
| FuzzyDedup.VisitDropped | scripts/data_prep/data_prep_customers_data.py:34-35 | skipping a marked row leaves the marks as they should be |
| FuzzyDedup.MarksComplete | scripts/data_prep/data_prep_customers_data.py:33-45 | after the loop, row `k` is marked exactly when it does not survive |
| FuzzyDedup.InnerStep | scripts/data_prep/data_prep_customers_data.py:38-45 | one step of the inner loop keeps its invariant |
| FuzzyDedup.MarkDuplicatesOf | scripts/data_prep/data_prep_customers_data.py:38-45 | the inner loop marks exactly the later unmarked rows duplicating row `i`; it fails exactly when it must parse a join date that does not parse |
| FuzzyDedup.RemoveFuzzyDuplicates | scripts/data_prep/data_prep_customers_data.py:30-47 | for any sort: fails exactly when there are two or more rows and some join date does not parse; otherwise returns the rows of the sorted frame that survive, in sorted order |
| FuzzyDedup.DropByPosition | scripts/data_prep/data_prep_customers_data.py:47 | with distinct labels, dropping by label removes exactly the marked positions |
| FuzzyDedup.DedupIsSelection | scripts/data_prep/data_prep_customers_data.py:47 | with distinct labels and for every sorted order of the frame, the result is that order's surviving positions, in order |
| FuzzyDedup.DedupSortedSubset | scripts/data_prep/data_prep_customers_data.py:31-47 | the result is sorted by join date and every row in it comes from the input |
| FuzzyDedup.SurvivorKept | scripts/data_prep/data_prep_customers_data.py:33-47 | for every sorted order, a surviving row is in the result |
| FuzzyDedup.KeptSurvivor | scripts/data_prep/data_prep_customers_data.py:33-47 | for every sorted order, every row in the result survives at its sorted position |
| FuzzyDedup.DedupMembers | scripts/data_prep/data_prep_customers_data.py:33-47 | for every sorted order, a row is in the result exactly when it survives |
| FuzzyDedup.FirstRowKept | scripts/data_prep/data_prep_customers_data.py:33-47 | the first row of any sorted order is always kept |
| FuzzyDedup.NoDuplicatesRemain | scripts/data_prep/data_prep_customers_data.py:43-47 | whatever the order among equal dates, no two rows in the result are duplicates (same instant, names above 90) |
| FuzzyDedup.MarkedByKept | scripts/data_prep/data_prep_customers_data.py:38-45 | a dropped row is a duplicate of an earlier surviving row |
| FuzzyDedup.DroppedHasKeptTwin | scripts/data_prep/data_prep_customers_data.py:43-47 | whatever the order among equal dates, every row dropped has a duplicate that is kept |
| FuzzyDedup.UndatedRowsKept | scripts/data_prep/data_prep_customers_data.py:43-47 | whatever the order, rows with a missing join date all survive the search |
| FuzzyDedup.DedupLabelsDistinct | scripts/data_prep/data_prep_customers_data.py:47 | for every sorted order, the result keeps labels distinct |
| FuzzyDedup.NothingToRemove | scripts/data_prep/data_prep_customers_data.py:30-47 | a frame in which no two rows are duplicates comes back as its sorted order, whichever sorted order is taken |
| FuzzyDedup.DedupIdempotent | scripts/data_prep/data_prep_customers_data.py:30-47 | when `fuzz.ratio` is symmetric, sorting the result again in any sorted order and searching again changes nothing |
| ProductsPrep.ColumnsIn | scripts/data_prep/prepare_products_data.py:56-69 | the positions of the four columns the script reads, in a header that has them all |
| ProductsPrep.FirstAbsentProducts | scripts/data_prep/prepare_products_data.py:56-69 | the KeyError names the first absent column in the order the script reads them |
| ProductsPrep.NameCell | scripts/data_prep/prepare_products_data.py:56 | the product-name rewrite of one cell: always a string, trimmed, with no upper-case letter; a string name becomes its lower-cased, stripped text |
| ProductsPrep.CategoryCell | scripts/data_prep/prepare_products_data.py:63 | the category rewrite of one cell: always a string; a string category is its `strip()`, so only surrounding whitespace goes and case is kept |
| ProductsPrep.Screened | scripts/data_prep/prepare_products_data.py:56-72 | the rows before the outlier passes: each raw row rewritten, kept exactly when name and category are known and price and stock are numbers, in file order |
| ProductsPrep.PricePass | scripts/data_prep/prepare_products_data.py:75 | the price pass keeps only screened rows |
| ProductsPrep.StockPass | scripts/data_prep/prepare_products_data.py:76 | the stock pass keeps only rows that passed the price pass |
| ProductsPrep.Cleaned | scripts/data_prep/prepare_products_data.py:56-79 | the output has at most one row per raw row; row `i` is labelled `i` and has a known name and category and a numeric price and stock |
| ProductsPrep.LabelledRows | scripts/data_prep/prepare_products_data.py:56-64 | after the name and category checks: the raw rows with both fixed, those with known values, in file order |
| ProductsPrep.PriceCoercedRows | scripts/data_prep/prepare_products_data.py:68 | price coercion rewrites every remaining row |
| ProductsPrep.CoercedRows | scripts/data_prep/prepare_products_data.py:69 | stock coercion completes the rewrite of every remaining row |
| ProductsPrep.FilteredRows | scripts/data_prep/prepare_products_data.py:72 | after `dropna`: exactly the rewritten rows that pass every check |
| ProductsPrep.ScreeningMatches | scripts/data_prep/prepare_products_data.py:56-72 | the statements up to `dropna` produce exactly the screened frame |
| ProductsPrep.CleanProducts | scripts/data_prep/prepare_products_data.py:46-87 | fails exactly when a column is missing, naming the first one read; otherwise returns the stripped header and the cleaned rows of the NaN-padded data |
| ProductsPrep.CleanedRowsTraced | scripts/data_prep/prepare_products_data.py:56-79 | every output row `i` is labelled `i` and holds a screened, rewritten raw row; output rows follow file order |
| ProductsPrep.AllowedPriceKept | scripts/data_prep/prepare_products_data.py:75 | a screened row priced 793.12 survives the price pass |
| ProductsPrep.PricesInRange | scripts/data_prep/prepare_products_data.py:75 | every output price is 793.12 or within the IQR bounds of the screened prices |
| ProductsPrep.StocksInRange | scripts/data_prep/prepare_products_data.py:76 | every output stock is within the IQR bounds of the stocks after the price pass |
| ProductsPrep.NamesAndCategories | scripts/data_prep/prepare_products_data.py:56-64 | a row that passes had a raw name that is a known name after lower-casing and stripping, and a raw category that is known after stripping |
| ProductsPrep.CategoryPaddingStripped | scripts/data_prep/prepare_products_data.py:63-64 | `" Sports "` becomes `"Sports"` and is accepted |
| ProductsPrep.CategoryCaseKept | scripts/data_prep/prepare_products_data.py:63-64 | `"sports"` is not re-cased and is rejected |
| ProductsPrep.CategoryFixKeepsTrimmed | scripts/data_prep/prepare_products_data.py:63 | a category with no surrounding whitespace passes through the category fix unchanged |
| SalesPrep.LowerColumns | scripts/data_prep/prepare_sales_data.py:52 | each header stripped and then lower-cased, count unchanged |
| SalesPrep.ColumnsIn | scripts/data_prep/prepare_sales_data.py:55-68 | the positions of the four columns the script reads, in a header that has them all |
| SalesPrep.FirstAbsentSales | scripts/data_prep/prepare_sales_data.py:55-68 | the KeyError names the first absent column in the order the script reads them |
| SalesPrep.DateText | scripts/data_prep/prepare_sales_data.py:57 | `dt.strftime`: NaN exactly when the input is NaN; a timestamp becomes its `YYYY-MM-DD` text |
| SalesPrep.Screened | scripts/data_prep/prepare_sales_data.py:55-69 | the rows before the outlier pass: each raw row rewritten, kept exactly when the date parsed, the payment type is known and amount and discount are numbers, in file order |
| SalesPrep.DiscountPass | scripts/data_prep/prepare_sales_data.py:72 | the outlier pass keeps only screened rows |
| SalesPrep.Cleaned | scripts/data_prep/prepare_sales_data.py:55-75 | the output has at most one row per raw row; row `i` is labelled `i` and has a parsed sale date, a known payment type and a numeric amount and discount |
| SalesPrep.DatedRows | scripts/data_prep/prepare_sales_data.py:55-56 | after the date check: the raw rows with the date coerced, those where it parsed |
| SalesPrep.DateTextKeepsPresence | scripts/data_prep/prepare_sales_data.py:57 | formatting a date keeps a missing date missing and a present one present |
| SalesPrep.PaidRows | scripts/data_prep/prepare_sales_data.py:57-63 | after the payment check: dates formatted, payment fixed, known types only |
| SalesPrep.AmountCoercedRows | scripts/data_prep/prepare_sales_data.py:67 | amount coercion rewrites every remaining row |
| SalesPrep.CoercedRows | scripts/data_prep/prepare_sales_data.py:68 | discount coercion completes the rewrite of every remaining row |
| SalesPrep.FilteredRows | scripts/data_prep/prepare_sales_data.py:69 | after `dropna`: exactly the rewritten rows that pass every check |
| SalesPrep.ScreeningMatches | scripts/data_prep/prepare_sales_data.py:55-69 | the statements up to `dropna` produce exactly the screened frame |
| SalesPrep.CleanSales | scripts/data_prep/prepare_sales_data.py:45-83 | fails exactly when a column is missing from the lower-cased header, naming the first one read; otherwise returns that header and the cleaned rows of the NaN-padded data |
| SalesPrep.CleanedRowsTraced | scripts/data_prep/prepare_sales_data.py:55-75 | every output row `i` is labelled `i` and holds a screened, rewritten raw row; output rows follow file order |
| SalesPrep.FullDiscountKept | scripts/data_prep/prepare_sales_data.py:72 | a screened sale with a 100 discount survives |
| SalesPrep.DiscountsInRange | scripts/data_prep/prepare_sales_data.py:72 | every output discount is 100 or within the IQR bounds of the screened discounts |
| SalesPrep.DiscountOutsideRemoved | scripts/data_prep/prepare_sales_data.py:72 | a discount outside the bounds and not 100 is removed |
| SalesPrep.SaleDateWritten | scripts/data_prep/prepare_sales_data.py:55-57 | a screened row's date is the formatted date its raw value parses to |
| SalesPrep.PaymentWritten | scripts/data_prep/prepare_sales_data.py:62-63 | a screened row's payment type was a string whose lower-cased, stripped form is a known type, and it is written that way |
| SalesPrep.PaymentCaseFolded | scripts/data_prep/prepare_sales_data.py:62-63 | `"CASH "` becomes `"cash"` and is accepted |
| SalesPrep.PaymentUnknownRejected | scripts/data_prep/prepare_sales_data.py:62-63 | `"crypto"` is rejected |
| CustomersPrep.ColumnsIn | scripts/data_prep/data_prep_customers_data.py:75-96 | the positions of the five columns the script reads, all different, in a header that has them all |
| CustomersPrep.FirstAbsentCustomers | scripts/data_prep/data_prep_customers_data.py:72-96 | the first absent column in the order the script reads them |
| CustomersPrep.Named | scripts/data_prep/data_prep_customers_data.py:75 | the frame after name standardisation: each raw row with its name standardised, labels `0..n-1` |
| CustomersPrep.NameCell | scripts/data_prep/data_prep_customers_data.py:75 | the name rewrite of one cell: always a string, trimmed, with no double space; a string name keeps its non-space characters up to case |
| CustomersPrep.Searched | scripts/data_prep/data_prep_customers_data.py:78 | the duplicate search on the named frame under a given sort: every row it keeps is a name-standardised raw row |
| CustomersPrep.Cleaned | scripts/data_prep/data_prep_customers_data.py:78-105 | for any sort, row `i` of the output is labelled `i` and has a known region, a known contact method and a parsed join date |
| CustomersPrep.Stop | scripts/data_prep/data_prep_customers_data.py:65-113 | why the script stops: a missing column, named, that the stripped header does not have; no stop only when all five exist |
| CustomersPrep.StopSteps | scripts/data_prep/data_prep_customers_data.py:75-96 | a missing `Name` stops it first, then a missing `JoinDate`; then, with two rows or more, an unparseable join date; then a missing `Region`, `LoyaltyPoints` or `PreferredContactMethod`, in that order |
| CustomersPrep.NamedDates | scripts/data_prep/data_prep_customers_data.py:75-78 | standardising names does not change which join dates fail to parse |
| CustomersPrep.NamedRowDate | scripts/data_prep/data_prep_customers_data.py:75 | standardising names leaves each join date as it was |
| CustomersPrep.DatesCheckedSnoc | scripts/data_prep/data_prep_customers_data.py:81-101 | one more row at the input end adds that row, finished, exactly when it passes every check |
| CustomersPrep.DatesCheckedIsMapKeep | scripts/data_prep/data_prep_customers_data.py:81-101 | the statements after the duplicate search are one rewrite of each row followed by one filter, in order |
| CustomersPrep.CleanCustomers | scripts/data_prep/data_prep_customers_data.py:65-113 | for any sort: fails exactly when the script stops, with that error; otherwise returns the stripped header and the cleaned rows of the NaN-padded data for that sort |
| CustomersPrep.Origins | scripts/data_prep/data_prep_customers_data.py:105 | one source row in the file for each output row |
| CustomersPrep.SourceRow | scripts/data_prep/data_prep_customers_data.py:78-101 | each source row is a name-standardised raw row that survived the search and whose finished form passes the checks |
| CustomersPrep.CleanedIsFinishedSource | scripts/data_prep/data_prep_customers_data.py:81-105 | output row `i` is source row `i` finished, labelled `i` |
| CustomersPrep.RawRowFinished | scripts/data_prep/data_prep_customers_data.py:75-101 | a finished row has the standardised name, the same region, repaired and capped points, the fixed contact, the coerced date and every other cell unchanged |
| CustomersPrep.CleanedFromRaw | scripts/data_prep/data_prep_customers_data.py:75-105 | every output row comes from a raw row in the file, finished, and passes the checks |
| CustomersPrep.PassedRow | scripts/data_prep/data_prep_customers_data.py:81-101 | what a passing row holds, cell by cell, in terms of its raw row |
| CustomersPrep.CleanedRow | scripts/data_prep/data_prep_customers_data.py:72-105 | output row `i` is labelled `i`. Its name is the raw name standardised; its region is the raw one and is known; its points are the repaired and capped raw points, NaN or at most 100; its contact method is the raw string lower-cased and stripped, and is known; its raw join date parses to the date it holds; every other cell is the raw one |
| CustomersPrep.FinishedDup | scripts/data_prep/data_prep_customers_data.py:86-101 | if two finished rows are duplicates, so were the rows they came from |
| CustomersPrep.SourcesNoDup | scripts/data_prep/data_prep_customers_data.py:43-47 | no two source rows are duplicates |
| CustomersPrep.CleanedNoFuzzyDuplicates | scripts/data_prep/data_prep_customers_data.py:78-105 | no two output rows share a join date with names scoring above 90 |
| CustomersPrep.SourcesOrdered | scripts/data_prep/data_prep_customers_data.py:31-47 | source rows are distinct rows of the file in join-date order |
| CustomersPrep.CleanedInJoinDateOrder | scripts/data_prep/data_prep_customers_data.py:31-105 | output rows come from distinct rows of the file, in ascending order of raw join date |
| CustomersPrep.LabelDrawn | scripts/data_prep/data_prep_customers_data.py:105 | a file row is among the origins exactly when it is among the source rows |
| CustomersPrep.CleanedKeeps | scripts/data_prep/data_prep_customers_data.py:78-105 | a file row reaches the output exactly when it survives the search and its finished form passes every check |
| CustomersPrep.SearchBeforeChecks | scripts/data_prep/data_prep_customers_data.py:78-96 | a row dropped by the search never reaches the output, even if the row that dropped it later fails a check; it has a surviving duplicate |

## Left out

- Reading and writing the CSV files, creating the output directory, the file paths and logging are not modelled. A table is given as a header and a sequence of raw rows; success returns the frame that would be written. The removal counts the scripts log are not returned, except `removed` in the outlier pass.
- `read_csv` type inference is a parameter: raw cells arrive already typed as numbers, strings, timestamps or NaN.
- Date parsing, string-to-number parsing, `fuzz.ratio` and `str()` of a float belong to pandas, fuzzywuzzy and Python. They are fields of `Cells.Library`, and nothing is assumed about them except that ratios lie in 0..100.
- `to_datetime` on a whole column (inferring one format) and on a single value are taken to agree: both use `Library.toDatetime`.
- Floats are exact reals: rounding, infinities and float comparison quirks are not modelled. 793.12 and 100 are compared exactly.
- Case mapping, title-casing and the letter test cover ASCII letters only. Python's Unicode case rules are not modelled. Whitespace, for `strip()`, is the full set Python's `str.isspace` accepts.
- Cells.Timestamp: a timestamp is a calendar date and a time of day in nanoseconds. Time zones are not modelled. `astype(str)` of a timestamp is written to whole seconds; fractional seconds are not shown.
- Which order pandas' quicksort leaves rows with equal join dates in is not modelled. The sort is a parameter (`Tables.Sorter`), and the results hold for every sorted order; which duplicates are dropped can depend on it.
- Cells.KeyLeq: a join-date column mixing numbers, strings and timestamps makes pandas raise a TypeError. The model instead orders such values by kind: numbers, then strings, then timestamps, then NaN.
- Cells.LowerStrip: `.str` on a column holding no strings raises an AttributeError in pandas. The model treats every non-string cell as NaN, which is what pandas does in a column that has strings.
- Outliers.RemoveOutliersWithAllowlist requires a column of numbers and NaN. On text, pandas raises in `quantile`; the scripts only call it after `to_numeric` and `dropna`.
- Duplicate header names: `df[name]` would return several columns. The model uses the first column with that name.
- Tables.ReadCsv: a data row with more fields than the header falls under `read_csv`'s own rules: a ParserError, or an inferred index column. The model keeps such a row as it is and never reads the extra cells.
- Numerals.ParseInt: only the ASCII digits `0`-`9` are read. Python's `int()` also accepts other Unicode decimal digits, such as full-width `５`; the model rejects such text, so the repair keeps it and hands it to the library's number parser.
- Exceptions other than a missing column and an unparseable join date in the duplicate search are not modelled, for example a failing `astype(str)`.
- The `__main__` entry points only call `clean_data` and are not modelled.
