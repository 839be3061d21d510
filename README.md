# Loan-record cleaning pipeline, in Dafny

This project models the `ETL` class of `src/etl/ETL.py`. `clean_and_validate` runs four
stages over a pandas DataFrame of loan records, in a fixed order:

- `check_if_numeric` coerces 28 listed columns to numbers. Unparseable and null cells become 0, and an absent column is logged.
- `convert_to_positive` takes the absolute value of every non-`object` column.
- `convert_to_date` converts five `Mon-YYYY` columns to dates, all or nothing per column. A column that fails is logged and left as it was.
- `miscellaneous` does the following, in order:
  - turns `"n/a"` into null;
  - drops exact duplicate rows;
  - re-encodes `emp_length`;
  - parses `term` to an integer;
  - fills defaults into `annual_inc` and `verification_status`;
  - drops the rows without `member_id`;
  - fills defaults into `delinq_2yrs` and `inq_last_6mths`.

The class also has the helper `loan_condition`, which the pipeline never calls.

The model is organised as follows:

- `Frames`: a table is a map from column name to a column. A column is a dtype flag (`Object` or `Numeric`, the distinction `select_dtypes` draws) plus one cell per row. The table also carries the index labels that name its rows. Row selection, masks and subsequences are defined here.
- `Text`: the string operations the source relies on.
  - Python's `strip`, `split()[0]` and `int`.
  - The decimal text `pd.to_numeric` reads.
  - `re.sub('[^0-9]+', '', s)`.
  - The `%b-%Y` date format.
- `Stages`: each stage, and each step of `miscellaneous`, as a function on table content. Exceptions become `Result` errors: `KeyError` for a missing column, and a `term` failure.
- `Properties`: lemmas about single stages and steps.
  - Idempotence of the first three stages.
  - Which columns get logged.
  - Duplicate removal: keeps the first occurrence, keeps order, leaves no two equal rows, misses no row.
  - The `emp_length` and `term` encodings.
  - The `member_id` drop.
- `Pipeline`: the composed pipeline.
  - Every listed numeric column that is present comes out holding only non-negative numbers.
  - The output rows are a subsequence of the input rows, by label.
  - No null `member_id` remains, and the four defaults are filled.
  - A missing column aborts the run.
  - A second run over the output aborts.
- `Etl`: `class DataFrame`, whose fields the stages update in place, and `class ETL`, whose ghost `log` records the logger's error lines. Each stage method is a loop or a sequence of in-place updates, and is proved to compute the `Stages` function. `ETL.CleanAndValidate` also carries the `Pipeline` guarantees in its own contract.

The model reproduces two quirks of the code:

- **`emp_length` is coerced first.** `emp_length` is one of the listed numeric columns (src/etl/ETL.py:49). Text such as `"3 years"`, `"10+ years"` or `"< 1 year"` is therefore already 0 when `miscellaneous` re-encodes it. In the pipeline the column ends as non-negative numbers, never as digit strings. See `Properties.EmpLengthTextCoercedFirst`, `Properties.EmpLengthYearsBecomeZero` and `Pipeline.PipelineNumeric`.
- **Duplicates are removed before re-encoding.** Two rows that differ only in how `term` is written (`" 36 months"` and `"36 months"`) both survive, and they are equal rows once `term` is parsed (`Pipeline.DuplicatesSurviveReencoding`, with the concrete two-row frame of `Pipeline.DuplicatesSurviveExample`).

The code does less than its comments and a reader would expect in the following places. The model follows the code:

- The comment at src/etl/ETL.py:126-130 says `emp_length` is replaced "with integer number", `"10+"` by 10 and `"< 1"` by 0, so `"3 years"` would become 3. The code yields 0 for all such text (the first quirk above). When `miscellaneous` runs on its own, the result is digit strings, not integers.
- A cleaning pass would be expected to leave its own output alone when run again. The code raises on the second run: `term` then holds numbers, and `strip` fails on them (`Pipeline.PipelineRerunFails`).
- `term` can come out negative, because the absolute values are taken before `term` is parsed (`Properties.TermKeepsSign`).
- A date column holding `"n/a"` is not converted, because `"n/a"` only becomes null later, in `miscellaneous`.

## Model

| member | source | states |
|---|---|---|
| Text.FirstToken | src/etl/ETL.py:138 | `split()[0]` fails exactly on an all-whitespace text; otherwise the token is non-empty and has no whitespace |
| Text.FirstTokenOfPadded | src/etl/ETL.py:137-138 | after `strip()`, the first token of `blanks + t + blank-led tail` is `t` |
| Text.Strip | src/etl/ETL.py:30 | `strip()` never lengthens the text, and what it returns neither begins nor ends with whitespace |
| Text.StripEmpty | src/etl/ETL.py:137 | `strip()` gives the empty string exactly when the text is all whitespace |
| Text.StripPadded | src/etl/ETL.py:30-33 | `strip()` removes exactly the surrounding whitespace and gives back the text inside |
| Text.ParseInt | src/etl/ETL.py:138 | `int(t)` accepts only an optional sign followed by ASCII digits. Plain digits and `+` digits yield their decimal value; `-` digits yield its negation |
| Text.ParseIntNatText | src/etl/ETL.py:138 | `int` reads back the decimal text of `n` and of `-n` |
| Text.ParseDecimal | src/etl/ETL.py:58 | text that `to_numeric` accepts consists of digits, signs and a point only |
| Text.ParseDecimalNatText | src/etl/ETL.py:58 | the decimal text of `n` is read as `n` |
| Text.KeepDigits | src/etl/ETL.py:134 | removing `[^0-9]+` leaves only digits, keeps a digit string unchanged and empties a digit-free string |
| Text.KeepDigitsAppend | src/etl/ETL.py:134 | removing non-digits distributes over concatenation |
| Text.MonthNumber | src/etl/ETL.py:82 | `%b` gives month `m` exactly when the text equals the `m`-th abbreviation up to letter case, and fails when it matches none |
| Text.FindMonth | src/etl/ETL.py:82 | the search from month `m` on returns a month from `m` on whose lowered abbreviation equals the text, and fails only when none from `m` on does |
| Text.ParseMonthYear | src/etl/ETL.py:82 | `%b-%Y` accepts the text if and only if it is 8 characters: a month abbreviation, `-`, four ASCII digits of a year of at least 1. The result is that year and that month, with the year at most 9999 and the month in 1..12 |
| Text.ParseMonthYearText | src/etl/ETL.py:82 | parsing what `%b-%Y` prints gives back the year and month |
| Frames.Select | src/etl/ETL.py:124 | selecting rows by position keeps every column and its dtype, and each column and the index become the picked entries in the given order |
| Frames.Positions | src/etl/ETL.py:124 | a boolean mask selects exactly the positions where it holds, in increasing order |
| Frames.PositionsAll | src/etl/ETL.py:124 | a mask that holds everywhere selects every position in order |
| Frames.SelectSubsequence | src/etl/ETL.py:124 | selecting at increasing positions gives a subsequence of the labels |
| Frames.SubsequenceTrans | src/etl/ETL.py:183-192 | a subsequence of a subsequence is a subsequence, so row selections compose |
| Frames.SelectDistinctLabels | src/etl/ETL.py:124 | selecting at increasing positions keeps labels pairwise distinct |
| Stages.SetColumn | src/etl/ETL.py:58 | `df[name] = col` replaces that one column and leaves the other columns and the index as they were |
| Stages.ToNumeric | src/etl/ETL.py:58 | every cell becomes a number: numbers stay, parsable text gives its value, and null or unparsable text gives 0 |
| Stages.NumericColumn | src/etl/ETL.py:58 | a coerced column is numeric, holds only numbers and keeps its length |
| Stages.NumericLog | src/etl/ETL.py:56-60 | `check_if_numeric` logs at most one error line per listed column, each a numeric-conversion failure naming a listed column that is absent |
| Stages.CoerceNumeric | src/etl/ETL.py:56-60 | every listed column that is present is numeric, holds only numbers and is the cell-wise coercion; other columns, the column set and the rows are unchanged |
| Stages.AbsCell | src/etl/ETL.py:103 | `abs` makes a number non-negative with the same magnitude and leaves null alone |
| Stages.AbsColumn | src/etl/ETL.py:103 | a column under `abs` holds no negative number and is `abs` cell by cell |
| Stages.AbsNumeric | src/etl/ETL.py:101-103 | every non-`object` column is `abs` cell by cell and non-negative; `object` columns, the column set and the rows are unchanged |
| Stages.DateCell | src/etl/ETL.py:82 | null stays null, a date stays, a number fails, the texts the `strptime` loop reads as `NaT` (`""`, `"NaT"`, `"nat"`, `"NAT"`, `"nan"`, `"NaN"`, `"NAN"`) become null, and any other text converts if and only if it is `Mon-YYYY` text, to day 1 of the month and year it names |
| Stages.ParseDateColumn | src/etl/ETL.py:80-84 | a column converts if and only if every cell does, and the converted cells are the cell-wise dates |
| Stages.DateLog | src/etl/ETL.py:80-84 | `convert_to_date` logs at most one error line per listed column; `Properties.DateLogFailed` says for which |
| Stages.ParseDates | src/etl/ETL.py:80-84 | each listed column converts completely or stays exactly as it was; unlisted columns and the rows are unchanged |
| Stages.NaToNull | src/etl/ETL.py:121 | the string `"n/a"` becomes null and nothing else changes |
| Stages.ReplaceNa | src/etl/ETL.py:121 | every `"n/a"` cell becomes null, every other cell and every dtype is unchanged, and the rows are unchanged |
| Stages.IsRepeat | src/etl/ETL.py:124 | `duplicated()` marks a row that equals an earlier row, so never the first row |
| Stages.KeepMask | src/etl/ETL.py:124 | `~duplicated()` holds exactly at rows that no earlier row equals |
| Stages.FirstOccurrences | src/etl/ETL.py:124 | the kept positions are increasing and are exactly the rows that repeat no earlier row |
| Stages.DropDuplicates | src/etl/ETL.py:124 | `drop_duplicates` keeps the columns and never adds rows |
| Stages.EmpLengthCell | src/etl/ETL.py:131-134 | null becomes 0, numbers stay, `"10+ years"` becomes `"10"`, `"< 1 year"` becomes `"0"`, and any other text keeps only its digits |
| Stages.EmpLength | src/etl/ETL.py:131-134 | the re-encoding keeps the dtype and the length of the column, and each cell is the `EmpLengthCell` re-encoding of the cell it replaces |
| Stages.TermCell | src/etl/ETL.py:137-138 | a `term` cell converts only if it is text, and then to a number |
| Stages.ParseTermColumn | src/etl/ETL.py:137-138 | the column fails if and only if some cell fails; otherwise it is numeric with the cell-wise integers, and an empty column stays as it is |
| Stages.FillNull | src/etl/ETL.py:141 | `fillna(v)` replaces exactly the nulls by `v` (`Default` of each cell) and leaves no null |
| Stages.FillColumn | src/etl/ETL.py:141 | `df[name].fillna(v, inplace=True)` changes only that column; the rows and the other columns are unchanged |
| Stages.LabelMask | src/etl/ETL.py:158 | `~index.isin(labels)` holds exactly at rows whose label is not in the set |
| Stages.Kept | src/etl/ETL.py:158 | `drop(labels)` keeps, in order, exactly the positions whose label is not in the set |
| Stages.DropLabels | src/etl/ETL.py:158 | no row carrying a dropped label remains, and the columns are kept |
| Stages.NullMemberLabels | src/etl/ETL.py:155 | the labels of exactly the rows whose `member_id` is null |
| Stages.DropNullMember | src/etl/ETL.py:155-158 | no null `member_id` remains after dropping the null-member labels |
| Stages.ReencodeColumns | src/etl/ETL.py:131-138 | succeeds if and only if `emp_length` and `term` exist and `term` parses; then only those two columns change, to their re-encodings |
| Stages.Reencode | src/etl/ETL.py:121-138 | on success the rows are those of `drop_duplicates` after the `"n/a"` replacement, and the column set is unchanged |
| Stages.FillAndDrop | src/etl/ETL.py:141-164 | on success the column set is unchanged and the frame is well formed; `Pipeline.FillAndDropDefaults` states the rows and values it leaves |
| Stages.Miscellaneous | src/etl/ETL.py:121-166 | on success the column set is unchanged and the frame is well formed |
| Stages.Prepare | src/etl/ETL.py:183-189 | the first three stages keep the rows and the column set |
| Stages.CleanAndValidate | src/etl/ETL.py:169-194 | the four stages in their fixed order; on success the frame is well formed with the input's column set (`Pipeline.PipelineNumeric`, `PipelineRows` and `PipelineDefaults` state the rest) |
| Properties.NumericColumnIdempotent | src/etl/ETL.py:58 | coercing a column twice is the same as once |
| Properties.CoerceNumericIdempotent | src/etl/ETL.py:56-60 | a second `check_if_numeric` changes nothing |
| Properties.NumericLogAbsent | src/etl/ETL.py:56-60 | an error is logged for a column if and only if the column is listed and absent |
| Properties.AbsNumericIdempotent | src/etl/ETL.py:101-103 | a second `convert_to_positive` changes nothing |
| Properties.DateCellRoundTrip | src/etl/ETL.py:82 | `"Mon-YYYY"` converts to the first day of that month |
| Properties.ParseDateColumnIdempotent | src/etl/ETL.py:80-84 | a converted date column converts again to itself |
| Properties.ParseDatesIdempotent | src/etl/ETL.py:80-84 | a second `convert_to_date` changes nothing |
| Properties.DateLogFailed | src/etl/ETL.py:80-84 | an error is logged for a column if and only if it is listed and is absent or fails to convert |
| Properties.FirstOccurrence | src/etl/ETL.py:124 | every row has an equal row at or before it that repeats no earlier row |
| Properties.DropDuplicatesDistinct | src/etl/ETL.py:124 | after `drop_duplicates` no two rows are equal |
| Properties.DropDuplicatesComplete | src/etl/ETL.py:124 | every input row is still represented by an equal row |
| Properties.DropDuplicatesKeepsOrder | src/etl/ETL.py:124 | the kept rows keep their labels and their relative order |
| Properties.DuplicatePairCollapses | src/etl/ETL.py:124 | of two equal rows, the later one is dropped |
| Properties.DropDuplicatesNoop | src/etl/ETL.py:124 | a frame without equal rows passes through unchanged |
| Properties.DropDuplicatesIdempotent | src/etl/ETL.py:124 | a second `drop_duplicates` changes nothing |
| Properties.EmpLengthYears | src/etl/ETL.py:131-134 | `"<n> years"` is re-encoded to the digits of `n` |
| Properties.EmpLengthCellIdempotent | src/etl/ETL.py:131-134 | re-encoding twice is the same as once |
| Properties.EmpLengthTextCoercedFirst | src/etl/ETL.py:49 | text `to_numeric` cannot read reaches the re-encoding as 0 and stays 0 |
| Properties.EmpLengthYearsBecomeZero | src/etl/ETL.py:131-134 | in the pipeline, `"<n> years"`, `"10+ years"` and `"< 1 year"` all end as 0 |
| Properties.TermOfPaddedToken | src/etl/ETL.py:137-138 | a token between leading blanks and a blank-led tail is what `term` parses |
| Properties.TermRoundTrip | src/etl/ETL.py:137-138 | `"<ws><n> months"` becomes the integer `n` |
| Properties.TermKeepsSign | src/etl/ETL.py:137-138 | `"-<n> months"` becomes the negative integer `-n` |
| Properties.TermNonInteger | src/etl/ETL.py:138 | a `term` cell whose first token `int` does not read (`"abc months"`, `"3.5 years"`) makes the stage fail |
| Properties.TermRejects | src/etl/ETL.py:137-138 | a null, a number or a blank `term` cell makes the stage fail |
| Properties.MemberMask | src/etl/ETL.py:155 | `~isna(member_id)` holds exactly at rows whose `member_id` is not null |
| Properties.DropNullMemberExact | src/etl/ETL.py:155-158 | with distinct labels, exactly the null-member rows go and all the others are kept in order |
| Pipeline.PrepareNumeric | src/etl/ETL.py:183-189 | after the first three stages every listed column that is present holds only non-negative numbers |
| Pipeline.DropDuplicatesNonEmpty | src/etl/ETL.py:124 | `drop_duplicates` always keeps the first row |
| Pipeline.ReencodeFacts | src/etl/ETL.py:121-138 | the first part of `miscellaneous` needs `emp_length` and `term`; it keeps the rows as a subsequence, keeps labels distinct, never empties the frame, and keeps every clean numeric column other than `term` clean |
| Pipeline.FillAndDropDefaults | src/etl/ETL.py:141-164 | with distinct labels, the rows kept are exactly those with a `member_id`, in order. In those rows `annual_inc`, `delinq_2yrs` and `inq_last_6mths` hold 0 and `verification_status` holds `"Not Verified"` where the input was null, and the input's cell elsewhere. Every other column is the input's, row for row |
| Pipeline.FillAndDropFacts | src/etl/ETL.py:141-164 | the second part needs its five columns and leaves them without nulls; rows stay a subsequence, and all-number columns keep their dtype and stay all numbers and non-negative |
| Pipeline.ReencodedRowsCollide | src/etl/ETL.py:131-138 | rows equal except for `term` texts that parse alike are equal after the re-encoding |
| Pipeline.TwoRowsCollide | src/etl/ETL.py:121-138 | two rows with different `term` texts that parse alike and equal `emp_length` both survive `drop_duplicates` and are equal after the re-encoding |
| Pipeline.DuplicatesSurviveExample | src/etl/ETL.py:121-138 | the frame with `term` `" 36 months"` and `"36 months"` is such a pair: both labels survive and the two rows are equal afterwards |
| Pipeline.DuplicatesSurviveReencoding | src/etl/ETL.py:124-138 | two rows kept by `drop_duplicates` can become equal once `term` is parsed |
| Pipeline.Steps | src/etl/ETL.py:183-192 | the pipeline succeeds exactly when both parts of `miscellaneous` do, and then gives their result |
| Pipeline.PipelineNumeric | src/etl/ETL.py:169-194 | after a successful run every listed numeric column that is present is numeric, holds only numbers, and holds no negative number |
| Pipeline.PipelineRows | src/etl/ETL.py:169-194 | output labels are a subsequence of input labels, distinct labels stay distinct, and the column set is unchanged |
| Pipeline.PipelineDefaults | src/etl/ETL.py:141-164 | a successful run had all seven columns `miscellaneous` indexes, and leaves no null `member_id`, `annual_inc`, `verification_status`, `delinq_2yrs` or `inq_last_6mths` |
| Pipeline.PipelineMissingColumn | src/etl/ETL.py:131-137 | without `emp_length`, or without `term`, the run raises `KeyError` for that column |
| Pipeline.TermColumnNumeric | src/etl/ETL.py:137-138 | after a successful re-encoding of a non-empty frame, `term` holds only numbers |
| Pipeline.RerunTerm | src/etl/ETL.py:137 | a non-empty frame whose `term` holds numbers makes the run fail on `term` |
| Pipeline.PipelineRerunFails | src/etl/ETL.py:169-194 | running the pipeline on its own non-empty output fails on `term` |
| Etl.LoanCondition | src/etl/ETL.py:19-34 | gives a value exactly for stripped `"10+"` or `"< 1 year"`: 10 for the first and 0 for the second |
| Etl.LoanConditionTenPlusPadded | src/etl/ETL.py:30-31 | `"10+"` with whitespace around it gives 10 |
| Etl.LoanConditionUnderOnePadded | src/etl/ETL.py:33-34 | `"< 1 year"` with whitespace around it gives 0 |
| Etl.LoanConditionTenPlusYears | src/etl/ETL.py:30-31 | `"10+ years"` gives no value |
| Etl.DataFrame.Set | src/etl/ETL.py:58 | `df[name] = col` in place |
| Etl.DataFrame.FillNa | src/etl/ETL.py:141 | `fillna(inplace=True)` on one column, in place |
| Etl.DataFrame.ReplaceNaInPlace | src/etl/ETL.py:121 | `replace('n/a', nan, inplace=True)` in place |
| Etl.DataFrame.DropDuplicateRows | src/etl/ETL.py:124 | `drop_duplicates()` returns a new frame and leaves this one alone |
| Etl.DataFrame.Drop | src/etl/ETL.py:158 | `drop(labels, inplace=True)` in place |
| Etl.ETL.constructor | src/etl/ETL.py:15-16 | a new `ETL` has logged nothing |
| Etl.ETL.CheckIfNumeric | src/etl/ETL.py:36-62 | changes the frame in place into `CoerceNumeric` of it, and logs one error per absent listed column, in list order |
| Etl.ETL.CoerceColumns | src/etl/ETL.py:56-60 | the loop: each named column that is present ends coerced and the others unchanged, whatever the order or repetition of the names |
| Etl.ETL.ConvertToPositive | src/etl/ETL.py:88-105 | changes the frame in place into `AbsNumeric` of it |
| Etl.ETL.ConvertToDate | src/etl/ETL.py:65-86 | changes the frame in place into `ParseDates` of it, and logs one error per listed column that is absent or fails |
| Etl.ETL.ParseColumns | src/etl/ETL.py:80-84 | the loop: each named column converts completely or stays, and each failure is logged in order |
| Etl.ETL.Miscellaneous | src/etl/ETL.py:108-166 | replaces `"n/a"` in the caller's frame; returns a new frame equal to `Stages.Miscellaneous` of the input, or the same error |
| Etl.ETL.FillDefaults | src/etl/ETL.py:141-164 | the defaults and the `member_id` drop in place, or the `KeyError` `FillAndDrop` gives |
| Etl.ETL.CleanAndValidate | src/etl/ETL.py:169-194 | returns `Stages.CleanAndValidate` of the input or its error. The caller's frame ends as the first three stages plus the `"n/a"` replacement, and the log holds both stages' errors. On success the output is as `PipelineNumeric`, `PipelineRows` and `PipelineDefaults` state |

## Left out

- `app.py`, the database service, the logger set-up and the configuration are file, network and process I/O, and are not part of this model. The logger is modelled only by the kind and column of each error line, not by the message text.
- Text.ParseDecimal: `pd.to_numeric` also reads exponents, `inf`/`nan`, surrounding whitespace and other spellings. The model reads only an optional sign, digits and an optional fraction, and treats everything else as unparsable (0 after `fillna`).
- Text.ParseInt: Python's `int` also accepts underscores between digits and non-ASCII decimal digits. These are not modelled.
- Text.ParseMonthYear: matches month names case-insensitively over ASCII only. Python's case folding of other letters is not modelled, nor is the nanosecond range of pandas timestamps (years before 1677 or after 2262 raise in pandas, but are accepted here). `%Y` also accepts non-ASCII decimal digits; the model reads ASCII digits only.
- Stages.DateCell: a number in a date column is treated as unparsable. pandas's handling of numeric input under an explicit format is not modelled.
- Stages.DateLog: its own contract bounds the log's length only; which columns are logged is stated by `Properties.DateLogFailed`.
- Numbers are mathematical reals. IEEE rounding, NaN arithmetic and the int/float dtype distinction are not modelled, so `term` holds the integer as a real. Only two dtypes exist, `object` and numeric; `bool` and datetime dtypes are not modelled.
- Stages.DropDuplicates: pandas returns a frame without columns unchanged, whatever its rows, while the model keeps only its first row, so `Properties.DropDuplicatesDistinct` holds here but not in pandas for that frame. `miscellaneous` cannot reach the difference: a frame without columns raises `KeyError('emp_length')` right after the drop in both.
- Stages.ReplaceNa: keeps every dtype. pandas' `replace(..., inplace=True)` may soft-convert an `object` column that holds only numbers and `"n/a"` to a numeric one; that conversion is not modelled.
- Stages.FillNull: the dtype change after `fillna` is modelled only as "a numeric column filled with text becomes `object`". The downcast pandas may apply to an `object` column filled with a number is not modelled.
- Chained `df[col].fillna(..., inplace=True)` is assumed to write through to the frame, as it does before pandas' copy-on-write mode.
- Column order is not modelled: a frame is a map from names to columns, so `convert_to_positive` visits the numeric columns in an arbitrary order. The result does not depend on that order.
- Etl.ETL.Miscellaneous: the four `emp_length` steps, and the two `apply` calls on `term`, are each one column update. Nothing can observe the intermediate columns: the `emp_length` steps cannot fail once the column exists, and a failing `term` step discards the frame.
- Exceptions other than a missing column and a failing `term` cell are not modelled. One example is a duplicated column name making `df[col]` a DataFrame.
