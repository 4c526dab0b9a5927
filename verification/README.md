# Financial data normalization — a Dafny model

This project models the small, pure core of the `FinancialDataProcessing`
package: the column reducer `drop_all_except`, the decision logic of the three
source adapters around it, and the utility layer used by reporting code.

- **Column reducer** (`data.py`): keep only the columns named `keep_column`,
  in place, then return `df.ffill().bfill()`. A frame is an index (not a
  column), a list of column names, and one `seq<Option<V>>` per column. A
  missing cell (NaN) is `None`.
- **Adapters** (`data.py`), with every vendor call turned into an input:
  - `get_yfinance_data` takes the frame the vendor's history request returned.
  - `get_csv_data` takes the table the CSV reader produced.
  - `get_mt5_data` takes the terminal as a function from history request to
    an optional structured array.
  Each adapter is modelled with the steps it actually has:
  - Yahoo: the in-place drop (its filled result is discarded) and the
    `Close` to `Price` rename;
  - CSV: the schema chosen by bar type and the timestamp index; it keeps
    the filled frame the reducer returns, and it has no rename;
  - MT5: the authorization and timeframe guards, the request selection,
    the in-place drop (its filled result is discarded) and the `close` to
    `Price` rename.
- **Utilities** (`utils.py`):
  - the NaN guard of the three formatters;
  - the 25-entry frequency table behind a case-insensitive lookup;
  - `scale`, clamped linear interpolation over `real`.

Modules, one per component: `Wrappers` (Option, Result), `Collections`
(distinct sequences), `Fill`, `Frames`, `YFinance`, `Csv`, `Mt5`, `Format`,
`Frequency`, `Scaling`.

The model follows what the code does, also where its own comments and
docstrings read otherwise:

- **Fill order.** The comment at `data.py:176` says backward fill comes first,
  but line 177 runs `ffill()` first. So a gap inside the column, or at its
  end, takes the nearest *earlier* value. Only a leading gap takes the first
  later value (`Fill.FillOrderMatters` shows one column where the two orders
  differ).
- **Absent `keep_column`.** The docstring at `data.py:171` promises a frame
  with "only the specified column kept". When no column has that name, the
  drop at lines 173-174 removes every column, and the model does the same.
- **Discarded fill.** The Yahoo and MT5 adapters throw away the filled frame,
  so their output keeps its gaps. This is logged under Findings.
- **Empty MT5 answer.** The docstring at `data.py:92-93` says the adapter
  returns `None` if data fetching fails. The code at lines 147-149 only tests the
  terminal's answer for `None`, so an empty array becomes an empty frame.

## Model

| member | source | states |
|---|---|---|
| Fill.FFill | FinancialDataProcessing/data.py:177 | forward fill keeps the length; each row gets the value of the last present cell at or before it (`LastSeen`), or stays missing if there is none |
| Fill.BFill | FinancialDataProcessing/data.py:177 | backward fill keeps the length; each row gets the value of the first present cell at or after it (`NextSeen`), or stays missing if there is none |
| Fill.LastSeenIsNearest | FinancialDataProcessing/data.py:177 | the forward-fill reference picks the nearest earlier present cell |
| Fill.NextSeenIsNearest | FinancialDataProcessing/data.py:177 | the backward-fill reference picks the nearest later present cell |
| Fill.LastSeenPresent | FinancialDataProcessing/data.py:177 | forward fill finds a value at row i exactly when some cell at or before i is present |
| Fill.NextSeenPresent | FinancialDataProcessing/data.py:177 | backward fill finds a value at row i exactly when some cell at or after i is present |
| Fill.FillGaps | FinancialDataProcessing/data.py:177 | `ffill().bfill()` keeps the length and gives each row the nearest earlier present value (`LastSeen`), else the nearest later one (`NextSeen`), else leaves it missing |
| Fill.FillKeepsValues | FinancialDataProcessing/data.py:177 | the fill never changes a present cell |
| Fill.FillTakesEarlier | FinancialDataProcessing/data.py:177 | a gap with a present cell before it takes the nearest earlier value, inside the column as well as at its end |
| Fill.FillTakesFirstLater | FinancialDataProcessing/data.py:177 | a leading gap takes the first present value of the column |
| Fill.FillLeavesNoGap | FinancialDataProcessing/data.py:177 | one present cell anywhere leaves no missing cell after the fill |
| Fill.FillKeepsAllMissing | FinancialDataProcessing/data.py:177 | an all-missing column, including the zero-row one, is returned unchanged |
| Fill.FillGapsFills | FinancialDataProcessing/data.py:177 | the fill keeps length and values, leaves no gap when the column has a value, and returns an all-missing column unchanged |
| Fill.FillIdempotent | FinancialDataProcessing/data.py:177 | filling an already filled column changes nothing |
| Fill.FillOrderMatters | FinancialDataProcessing/data.py:176-177 | on `[1, _, 3]` the code's order gives `[1, 1, 3]`, while the commented order would give `[1, 3, 3]` |
| Frames.Positions | FinancialDataProcessing/data.py:173 | lists, in increasing order, exactly the positions whose column name equals `keep_column` |
| Frames.PositionsEmpty | FinancialDataProcessing/data.py:173 | there is no position exactly when `keep_column` is not a column name |
| Frames.PositionsUnique | FinancialDataProcessing/data.py:173 | with unique names, a present `keep_column` has exactly its own position |
| Frames.DropOthers | FinancialDataProcessing/data.py:173-174 | the in-place drop keeps exactly the columns named `keep_column`, with their cells and order, and the same index |
| Frames.FillAll | FinancialDataProcessing/data.py:177 | `df.ffill().bfill()` fills every column and keeps names and index |
| Frames.DropAllExcept | FinancialDataProcessing/data.py:162-181 | the frame left in place holds exactly the original columns at the positions named `keep_column`, in order and with their cells, none if the name is absent; the returned frame has the same names and index and each of its columns is `FillGaps` of the kept one |
| Frames.DropAllExceptUnique | FinancialDataProcessing/data.py:173-177 | with unique names, the in-place frame is the one kept column and the returned frame is that column filled |
| Frames.DropAllExceptAbsent | FinancialDataProcessing/data.py:173-174 | an absent `keep_column` leaves no columns, in place and in the result |
| Frames.DropAllExceptIdempotent | FinancialDataProcessing/data.py:173-177 | reducing an already reduced frame returns it unchanged |
| Frames.Rename | FinancialDataProcessing/data.py:37 | renaming relabels the matching columns and touches no cell and no other name |
| Frames.RenameBack | FinancialDataProcessing/data.py:37 | renaming to a name the frame does not use and back again restores the frame exactly |
| YFinance.YFinanceData | FinancialDataProcessing/data.py:30-39 | keeps index and rows; with `drop_other_column`, exactly the original columns at the `Close` positions are left, in order, named `Price`, with their original cells; without it, only the relabelling happens |
| YFinance.YFinanceUnfilled | FinancialDataProcessing/data.py:34-37 | with unique names, the result is the raw `Close` column renamed `Price`, gaps included |
| YFinance.YFinanceGapSurvives | FinancialDataProcessing/data.py:35 | a `Close` column `[1, _]` comes back as `[1, _]`, although the reducer returns `[1, 1]` |
| YFinance.YFinanceDataFilled | FinancialDataProcessing/data.py:35 | corrected adapter: the same as written without the drop; with it, only `Price` columns remain, none if `Close` was absent, each the `FillGaps` of the as-written column |
| YFinance.YFinanceFilledHasNoGap | FinancialDataProcessing/data.py:35 | corrected adapter: a `Close` column with a value comes back gap-free, with its values unchanged |
| Csv.Schema | FinancialDataProcessing/data.py:59-63 | daily bars use 8 names and intraday bars 9; `Date` comes first, `Time` second for intraday, `Price` at position 4 or 5, and no name repeats |
| Csv.StampText | FinancialDataProcessing/data.py:61-64 | the text handed to the date parser is `Date` for daily bars and `Date + " " + Time` for intraday bars |
| Csv.CsvData | FinancialDataProcessing/data.py:57-71 | a width mismatch fails with the schema and file widths; otherwise rows are indexed by their stamp text in file order; reduced, the only column is `Price`, equal to `FillGaps` of the file's price field, so its values are kept and no gap remains if it had any value |
| Csv.CsvWidthMismatch | FinancialDataProcessing/data.py:59-63 | a nine-column file fails as daily bars and is accepted as intraday bars |
| Mt5.TimeframeRoundTrip | FinancialDataProcessing/data.py:100-122 | every timeframe is found under its own code |
| Mt5.TimeframeCodeOfKey | FinancialDataProcessing/data.py:100-122 | every key maps to the timeframe it names |
| Mt5.TimeframeCount | FinancialDataProcessing/data.py:100-122 | the keys are exactly the 21 codes `M1` to `MN1` |
| Mt5.Requests | FinancialDataProcessing/data.py:131-145 | one terminal request per complete pair, the date-range request first |
| Mt5.Chosen | FinancialDataProcessing/data.py:131-149 | a position pair wins even when dates are given; otherwise a date pair is used; with neither there is no request |
| Mt5.RatesFrame | FinancialDataProcessing/data.py:152-154 | the frame is indexed by the epoch seconds and keeps `time` as its first column, holding those seconds in every row, followed by the other fields unchanged |
| Mt5.Fetch | FinancialDataProcessing/data.py:95-149 | no request without authorization or for an unknown timeframe code; otherwise the chosen request for the mapped timeframe |
| Mt5.Mt5Frame | FinancialDataProcessing/data.py:152-157 | keeps the index; without the drop, every column and its cells stay and only `close` is relabelled `Price`; with it, exactly the columns at the `close` positions are left, in order, named `Price`, none if `close` was absent |
| Mt5.Mt5FrameFilled | FinancialDataProcessing/data.py:156 | corrected frame: as written without the drop; with it, as many columns as written, each the `FillGaps` of the as-written column |
| Mt5.Mt5Data | FinancialDataProcessing/data.py:74-159 | `None` when unauthorized, for an unknown timeframe, with no complete pair, or when the chosen request returns nothing; otherwise the frame built from that answer |
| Mt5.Mt5DataFilled | FinancialDataProcessing/data.py:156 | corrected adapter: present exactly when the as-written one is, holding the filled frame |
| Mt5.Mt5Unauthorized | FinancialDataProcessing/data.py:95-97 | without authorization the result is `None`, whatever the other arguments and the terminal |
| Mt5.Mt5Unfilled | FinancialDataProcessing/data.py:155-157 | with a unique `close` field, the result is that field renamed `Price`, gaps included |
| Mt5.Mt5GapSurvives | FinancialDataProcessing/data.py:156 | a `close` field `[1, _]` comes back as `[1, _]` |
| Format.ToPercent | FinancialDataProcessing/utils.py:5-17 | NaN gives "-"; a number gives the `to_percent_num` digits followed by "%" |
| Format.ToPercentNum | FinancialDataProcessing/utils.py:20-32 | NaN gives "-"; a number gives what `to_float` gives for 100 times it with two decimals |
| Format.ToFloat | FinancialDataProcessing/utils.py:35-49 | NaN gives "-" whatever the precision; a number fails exactly when the precision is negative or above 2147483647 (CPython's "precision too big"), and is otherwise rendered with that precision |
| Format.DashOnlyForNaN | FinancialDataProcessing/utils.py:15-49 | each formatter returns "-" exactly for NaN |
| Frequency.PeriodCount | FinancialDataProcessing/utils.py:63-89 | the table has 25 entries, one per listed code |
| Frequency.Upper | FinancialDataProcessing/utils.py:62 | upper-casing raises exactly the lower-case ASCII letters and keeps every other character, hence the length |
| Frequency.UpperIdempotent | FinancialDataProcessing/utils.py:62 | upper-casing twice is upper-casing once |
| Frequency.GetFreq | FinancialDataProcessing/utils.py:52-91 | a description is found exactly when the upper-cased code is a key, and it is a description from the table |
| Frequency.GetFreqCaseInsensitive | FinancialDataProcessing/utils.py:62 | codes with the same upper-case form get the same answer; `get_freq(p) == get_freq(p.upper())` |
| Frequency.KeysAreCapitals | FinancialDataProcessing/utils.py:63-89 | every key is written in capital ASCII letters |
| Frequency.GetFreqLowerCase | FinancialDataProcessing/utils.py:62-91 | every key is also found when written in lower case |
| Frequency.GetFreqLongCode | FinancialDataProcessing/utils.py:63-91 | a code longer than four characters is never found |
| Frequency.GetFreqValues | FinancialDataProcessing/utils.py:62-91 | `d`/`D` give "daily", `A`/`Y` give "yearly", `YE`/`ye` give "Yearly", and `ZZ` gives `None` |
| Scaling.Scale | FinancialDataProcessing/utils.py:94-121 | below `src[0]` gives `dst[0]`; above `src[1]` (and not below `src[0]`) gives `dst[1]`; it fails only when `val == src[0] == src[1]` |
| Scaling.ScaleInterpolates | FinancialDataProcessing/utils.py:121 | inside a proper source range, the result splits `dst` in the same ratio that `val` splits `src` |
| Scaling.ScaleEndpoints | FinancialDataProcessing/utils.py:116-121 | `src[0]` maps to `dst[0]` and `src[1]` maps to `dst[1]` |
| Scaling.ScaleBounded | FinancialDataProcessing/utils.py:116-121 | on an increasing source and a non-decreasing destination, every result lies in `[dst[0], dst[1]]` |
| Scaling.ScaleMonotone | FinancialDataProcessing/utils.py:116-121 | under the same conditions, the result is non-decreasing in `val` |
| Scaling.ScaleRoundTrip | FinancialDataProcessing/utils.py:121 | scaling back with the ranges swapped returns the original value |
| Scaling.ScaleExamples | FinancialDataProcessing/utils.py:109-114 | the three documented examples: -1.0, -1.0 and 0.5 |
| Scaling.ScaleInvertedSource | FinancialDataProcessing/utils.py:116-119 | with `src[1] < src[0]` every value is clamped and none is interpolated |

## Left out

- Vendor, terminal and file I/O. `Ticker(...).history`, `copy_rates_range`, `copy_rates_from_pos` and `pd.read_csv` become inputs: a frame, a function from request to optional array, and a read table. The `symbol` argument only reaches those calls, so it is folded into them.
- The values of the terminal's `TIMEFRAME_*` constants: they form an enumeration here.
- Date parsing: `pd.to_datetime` of date text and of epoch seconds is a library feature. The CSV index holds the text handed to the parser, and the MT5 index holds the epoch seconds. A malformed date is therefore not an error in the model.
- Csv.StampText: a `Date` or `Time` field that the reader typed as a number, or left empty, gives no stamp text (`None`). pandas would convert the number, produce NaT, or fail on the string concatenation.
- The unused `pytz` timezone and the commented-out conversions in `get_mt5_data`, and all `print` diagnostics.
- Float rendering: the digits of `".2%"`, `".2f"` and `".{decimals}f"` come from a renderer passed as a parameter. The model keeps only how the three formatters relate: `".2%"` multiplies by 100, renders fixed-point with two decimals, and appends "%". Infinities are not a separate case of `Num`.
- Format.ToFloat: a precision within range but too large for the rendered text to fit in memory would raise `MemoryError` in Python; the model renders it.
- Scaling.Scale: computes over `real`, not IEEE floats. It has no NaN input and no rounding. The ranges are pairs, so `src` or `dst` of another length is not modelled.
- Frequency.Upper: raises ASCII letters only and keeps the length. Python's `str.upper` also maps other characters and can lengthen the text (`'ß'.upper()` is `'SS'`).
- Frequency.GetFreq: upper-cases ASCII letters only. Python's `str.upper` also maps other characters (for instance 'ſ' to 'S', so `get_freq("ſ")` is "secondly" in Python).
- Mt5.Mt5Data: `authorized` is a boolean, not an arbitrary truthy value.
- Pandas internals: aliasing, copies and in-place semantics beyond the in-place drop and the returned fill.

## Findings

| source | as written | input that shows it | evidently intended | confidence | as-written member | corrected member |
|---|---|---|---|---|---|---|
| FinancialDataProcessing/data.py:35 | `drop_all_except(rates, 'Close')` is called for its in-place drop and its filled result is discarded, so `Price` keeps its gaps | a `Close` column `[1.0, NaN]` comes back as `Price` `[1.0, NaN]` | keep the returned frame, as `get_csv_data` does at line 69, giving `[1.0, 1.0]` | medium, not executed | YFinance.YFinanceGapSurvives | YFinance.YFinanceFilledHasNoGap |
| FinancialDataProcessing/data.py:156 | `drop_all_except(df, 'close')` discards its filled result the same way | a `close` field `[1.0, NaN]` comes back as `Price` `[1.0, NaN]` | keep the returned frame, giving `[1.0, 1.0]` | medium, not executed | Mt5.Mt5GapSurvives | Mt5.Mt5DataFilled |
