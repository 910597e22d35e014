# rhisto core in Dafny

rhisto reads delimited rows of numbers and prints a histogram of one column,
or of an arithmetic expression over several columns. This project models the
logic in the middle of that pipeline and proves properties of it:

- **Bins** (`bins.dfy`): `get_bin_index` gives the bin a value falls into.
  It divides by `max.next_up() - min`, so in exact arithmetic the maximum
  stays inside the histogram (an index below `bins`), and in the last bin when a bin is wider
  than the widening allows (see `Bins.BinIndexAtMax`); a range of one value
  does not divide by zero. `get_bin_label` gives
  the midpoint of a bin.
- **Fields** (`fields.dfy`): `get_data_at_column` splits a row on a delimiter
  and reads the number in a column counted from 1. This file also holds the
  library's `Error` type.
- **Strings** (`strings.dfy`): Rust's `str::split` for a non-empty pattern
  (leftmost, non-overlapping matches), the matching join, and `str::replace`.
- **Decimal** (`decimal.dfy`): `str::parse::<u32>` on a run of digits, and
  `format!("{}", n)`.
- **Placeholders** (`placeholders.dfy`): the expression set-up. A `?`
  followed by digits names a column. The program scans the expression with
  the pattern `\?([0-9]*)` and collects the column numbers. It rewrites every
  `?` to `_` and names one variable `_<n>` per column.
- **Wrappers** (`wrappers.dfy`): `Option` and `Result`.

All of the modelled code is pure, so it is written as datatypes, functions and
lemmas.

Modelling choices:

- Arithmetic is exact, over `real`.
- `max.next_up()` is `max + eps` for an abstract `eps > 0`. A lemma that needs
  `eps` to be as small as the next float says how small.
- `trunc()` rounds toward zero. The cast `as usize` turns a negative result
  into 0.
- The float parse `str::parse::<f32>` is a parameter
  `parse: string -> Option<real>`: `None` means the text is not a float.

In these points the model follows the code, which a reader might expect to
behave otherwise:

- Columns are counted from 1. Column 0 is the `InvalidColumn` error of
  `src/lib.rs:20-23`, not the first column, although the `--column` option is
  documented as "zero indexed" at `src/main.rs:87` (that option is read by
  `ColumnParser`, which is not modelled).
- The column list keeps one entry per `?`, duplicates included, in order of
  appearance. It is not a set of distinct columns.
- The bin index uses truncation and a saturating cast, not `floor`.
- The maximum lands in the last bin only when `eps` is small enough
  (`Bins.BinIndexAtMax` states exactly when). It is not guaranteed for every
  widening.

## Model

| member | source | states |
|---|---|---|
| Bins.Trunc | src/lib.rs:9 | `trunc()` rounds toward zero: for `t >= 0` the result `i` satisfies `i <= t < i + 1`; for `t < 0` it is non-positive with `i - 1 < t <= i` |
| Bins.WidenedSpan | src/lib.rs:9 | the divisor `next_up(max) - min` is positive and larger than `max - min`, including when `max == min` |
| Bins.BinIndex | src/lib.rs:7-10 | with at least one bin, every `x` in `[min, max]` gets an index below `bins`; any `x <= min` gets index 0 |
| Bins.BinIndexIsSlice | src/lib.rs:9 | reference definition: for `x >= min`, the index is `k` exactly when `k * span <= (x - min) * bins < (k + 1) * span` (`span` the widened divisor) |
| Bins.BinIndexAtMin | src/lib.rs:43-47 | the minimum goes to bin 0 |
| Bins.DegenerateRange | src/lib.rs:9 | when `max == min`, the divisor is `eps`, not 0, and the value goes to bin 0 |
| Bins.BinIndexMonotone | src/lib.rs:9 | `x <= y` implies `index(x) <= index(y)` |
| Bins.BinIndexOnEdge | src/lib.rs:9 | the right edge `min + k * width` of bin `k - 1` goes to bin `k - 1`, not `k`, when `(k - 1) * eps <= max - min` |
| Bins.BinIndexAtMax | src/lib.rs:7-9 | the maximum goes to the last bin `bins - 1` exactly when `(bins - 1) * eps <= max - min` |
| Bins.BinIndexExamples | src/lib.rs:42-47 | the cases of `test_get_bin_index` that exact arithmetic reproduces: 0.0 → 0, 9.9 → 9 and 5.0 → 4 in `[0, 10]` with 10 bins; -1.0 → 0 in `[-1, 1]` with 20 bins |
| Bins.BinWidth | src/lib.rs:14 | `bins` bins of width `(max - min) / bins` cover the range exactly |
| Bins.BinLabel | src/lib.rs:12-16 | the label is the midpoint of the bin's interval; for a bin of the histogram it lies in `[min, max]` |
| Bins.BinLabelStep | src/lib.rs:14-15 | consecutive labels differ by one bin width |
| Bins.BinLabelsSymmetric | src/lib.rs:13-16 | labels `i` and `bins - 1 - i` add up to `min + max` |
| Bins.BinLabelExamples | src/lib.rs:52-58 | the cases of `test_get_bin_label`: 0.5, 9.5 and 5.5 in `[0, 10]` with 10 bins; -0.95 and 0.95 in `[-1, 1]` with 20 bins |
| Bins.BinLabelInOwnBin | src/lib.rs:9-15 | the label of bin `i` goes to bin `i` when `2 * i * eps <= max - min` |
| Strings.FindFrom | src/lib.rs:26 | returns the first occurrence of the pattern at or after a position, and `None` exactly when there is none |
| Strings.Split | src/lib.rs:25-26 | a split always yields at least one field |
| Strings.JoinSplit | src/lib.rs:25-26 | joining the fields of `split(p)` with `p` gives back the row |
| Strings.SplitFieldsAvoidPattern | src/lib.rs:25-26 | no field of a split contains the pattern |
| Strings.SplitJoin | src/lib.rs:25-27 | with a one-character delimiter, splitting a join of delimiter-free fields gives back those fields |
| Strings.Replace | src/main.rs:43 | `s.replace(from, to)` is the join with `to` of the split on `from` (Rust's `replace` and `split` use the same left-to-right matches); a text without a match is unchanged, and replacing a pattern by itself changes nothing |
| Strings.ReplaceCharPointwise | src/main.rs:43 | replacing one character by another keeps the length, and changes exactly the positions that hold the replaced character |
| Fields.Error | src/lib.rs:1-5 | the two error kinds: `InvalidRow` keeps the field that did not parse, `InvalidColumn` keeps the column and why it was refused |
| Fields.GetDataAtColumn | src/lib.rs:18-35 | column 0 is `InvalidColumn` (not one-based); a column past the last field is `InvalidColumn` (out of bounds); a field that does not parse is `InvalidRow` carrying the field; each holds exactly in its case; the result is `Ok` exactly when column `column` exists and its field parses, and then holds that parse |
| Fields.GetDataAtColumnReadsField | src/lib.rs:25-33 | on success, the fields rejoin into the row, none contains the delimiter, and the value is the parse of field `column - 1` |
| Fields.GetDataAtColumnOfJoin | src/lib.rs:19-34 | for a row built with a one-character delimiter from fields free of it, columns 1 to `n` read exactly those fields, and every other column is refused |
| Fields.SingleFieldRow | src/lib.rs:25-31 | a row without the delimiter is one field: column 1 is the whole row and column 2 is out of bounds |
| Fields.SecondOfThree | src/lib.rs:25-34 | column 2 of `1.0,2.0,3.0` reads `2.0` |
| Fields.NoSecondColumn | src/lib.rs:25-31 | `4.0` has no column 2 |
| Fields.UnparsableField | src/lib.rs:33-34 | column 2 of `4.0,not_a_float,6.0` is `InvalidRow("not_a_float")` |
| Decimal.ParseU32 | src/main.rs:40 | a digit string parses to `u32` unless it is empty (`Empty`) or its value is above `u32::MAX` (`PosOverflow`); each error holds exactly in its case; leading zeros are accepted |
| Decimal.ToDecimal | src/main.rs:44 | `format!("{}", n)` is a digit string without leading zeros whose value is `n` |
| Decimal.ToDecimalOfValue | src/main.rs:44 | rendering the value of a digit string without leading zeros gives that string back |
| Decimal.ParseToDecimal | src/main.rs:40-44 | parsing the rendering of any `u32` gives it back |
| Placeholders.DigitRun | src/main.rs:36 | `[0-9]*` is greedy: the run is all digits and is followed by a non-digit or the end |
| Placeholders.RunAfter | src/main.rs:36 | the text captured after a `?` is a digit string |
| Placeholders.CapturesFrom | src/main.rs:36-39 | every group captured by `captures_iter` is a digit string |
| Placeholders.MarksFrom | src/main.rs:36-38 | reference list of placeholder positions: every entry is the index of a `?` |
| Placeholders.MarksIncrease | src/main.rs:38 | the positions are strictly increasing, so the order is the order of appearance |
| Placeholders.MarksComplete | src/main.rs:38 | every `?` of the text is listed |
| Placeholders.MarksCount | src/main.rs:38 | there are as many positions as `?` characters |
| Placeholders.CapturesAreRunsAfterMarks | src/main.rs:36-39 | the captures are exactly the maximal digit runs after the `?` characters, one per `?`, in order |
| Placeholders.CapturesAtMarks | src/main.rs:36-39 | the `k`-th capture is the digit run after the `k`-th `?` |
| Placeholders.ParseAll | src/main.rs:40-41 | collecting the parses succeeds exactly when every capture parses, and then holds every value in order; otherwise it reports the error of the first capture that fails |
| Placeholders.Columns | src/main.rs:36-41 | the columns are defined exactly when every run after a `?` parses; then there is one column per `?`, each the parse of its run |
| Placeholders.VarName | src/main.rs:44 | `format!("_{}", col)` is `_` followed by digits without leading zeros whose value is `col` |
| Placeholders.VarNames | src/main.rs:44 | one name per column, in the same order |
| Placeholders.Prepare | src/main.rs:36-44 | set-up succeeds exactly when the columns do and otherwise reports their error; it keeps the columns, one name per column, and an expression of the input's length |
| Placeholders.PrepareSucceeds | src/main.rs:40 | set-up succeeds exactly when every `?` is followed by at least one digit and the digits denote at most `u32::MAX` |
| Placeholders.PrepareColumns | src/main.rs:37-44 | on success, the number of columns is the number of `?` characters, the `k`-th column is the value of the run after the `k`-th `?`, and the `k`-th variable is that column's name |
| Placeholders.PrepareFailure | src/main.rs:40 | a failure reports the parse error of the first `?` whose run does not parse; all earlier runs parse |
| Placeholders.RewriteMarks | src/main.rs:43 | the rewritten expression contains no `?`, has `_` wherever the input had `?`, and is unchanged elsewhere |
| Placeholders.VariableAtPlaceholder | src/main.rs:43-44 | when the run after the `k`-th `?` has no leading zero, the `k`-th variable name sits in the rewritten expression where that placeholder was |
| Placeholders.PlainPlaceholder | src/main.rs:43-44 | without a leading zero they agree: `?3` gives the column 3, the expression `_3` and the variable `_3`, found where the placeholder was |
| Placeholders.LeadingZeroMismatch | src/main.rs:43-44 | with a leading zero they disagree: `?03` is rewritten to `_03`, but its variable is `_3`, which does not occur in `_03` |
| Placeholders.DuplicatesKept | src/main.rs:37-41 | `?1+?2*?1` gives the columns `[1, 2, 1]`: duplicates are kept, in order |
| Placeholders.MissingDigitsFail | src/main.rs:40 | a `?` without digits (`?+1`) fails with `Empty` |
| Placeholders.OverflowFails | src/main.rs:40 | `?4294967296` fails with `PosOverflow` |

## Left out

- `f32` rounding: the arithmetic is exact, and the in-range result of
  `Bins.BinIndex` holds for the exact model only. In `f32`,
  `next_up(max) - min` can round back to `max - min` when `min < 0` (for
  `[-1, 1]` it is `2.0`), and the maximum then gets index `bins`. The test at
  `src/lib.rs:48` (0.9 in `[-1, 1]` with 20 bins gives bin 19) holds because
  of that rounding; in exact arithmetic it gives 18, so it is not stated.
- Bins.BinIndex: requires `min <= max`, as the doc comment at `src/lib.rs:7`
  describes `x` as lying between `min` and `max` inclusive. Infinities and NaN are not modelled, and
  neither is the upper saturation of the `as usize` cast.
- Bins.BinLabel: requires `bins >= 1`. In the source, zero bins is a float
  division by zero.
- Fields.GetDataAtColumn: the float parse is a parameter. The text grammar of
  `str::parse::<f32>` is a standard-library routine, not part of this core.
- Fields.GetDataAtColumn: requires a non-empty delimiter; Rust's `split("")`,
  which cuts between characters, is not modelled.
- Fields.Error: keeps the field or the column and its fault, not the message
  text made by `format!`; the parse error `e` that the `InvalidRow` message
  also shows is not modelled.
- Decimal.ParseU32: only accepts digit strings, the only input the capture
  group `([0-9]*)` can produce. `+` signs and other text are not modelled.
- The regular-expression engine: only the one pattern `\?([0-9]*)` is
  modelled, as a direct scan. Evaluating the expression with `meval` is
  not modelled.
- `ColumnParser` and `Histogram::from_values`, imported at `src/main.rs:4`,
  are not modelled.
- CLI argument parsing, file and standard-input selection, header skipping,
  line reading and output formatting (`src/main.rs`) are left out as I/O.
- The `unwrap` panics at `src/main.rs:40` are an `Err` result in the model.
