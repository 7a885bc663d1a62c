# ClaimsReconciler reconciliation engine, in Dafny

This project models the pure core of ClaimsReconciler, a tool that reconciles a
Claims department workbook against a Finance department workbook. Reconciliation
works by schedule number.

The modelled core has four parts.

1. **Claims ⇄ Finance reconciliation** (`utils.py`)
   - Each table is projected onto (schedule, amount) pairs.
   - Amounts are summed per schedule.
   - The schedules present on one side only are found.
   - The two sides are joined into a report, sorted by schedule text, with a
     signed difference.
2. **Claim-number sequencer** (`utils.py`, `generate_enhanced_claims_excel`)
   - The model gives the values that the four spreadsheet formulas evaluate to:
     ClaimBatch, ClaimNoFnx, ClaimNo and Correct_ClaimNo.
   - The columns are located by alias, and a formula column stays empty when a
     source column is missing.
3. **Appeals compilation and Finance comparison** (`appeals_page.py`)
   - A row filter removes totals and blank lines.
   - Each appeals file is standardised to an 18-column template, and the run
     keeps a status record per file.
   - A schedule number is extracted from each file name.
   - The appeals are grouped per schedule and matched to Finance batches by
     substring.
   - The result is split into schedules missing in Finance and schedules whose
     amounts differ.
4. **Report metrics** (the pure logic inside `streamlit_app.py`)
   - Columns are detected from alias lists.
   - Each report row is classified against the 0.01 tolerance and highlighted.
   - The page computes the matching and discrepancy counts, the financial
     variance, the date-order check and the clamped pie-chart values.

**Modules**

| module | contents |
|---|---|
| `Outcomes` | `Option` and `Result` |
| `Text` | strip, ASCII case, substring search, digit strings |
| `Ordering` | string order, plus sorting into a strictly ascending, duplicate-free list |
| `Cells` | cells, tables, library conversions, alias detection |
| `Schedules` | the functions of `utils.py:18-117` |
| `Sequencer` | the formula values of `utils.py:119-266` |
| `Appeals` | `compile_appeals_files`, `extract_schedule_from_filename` |
| `AppealsFinance` | `compare_with_finance`, the missing/mismatch split |
| `Metrics` | the reconciliation page's metrics |

**Modelling conventions**

- Amounts are `real`.
- A cell is `Blank` (pandas NaN), `Num` or `Str`.
- The library conversions are parameters of the model, bundled in the
  `Conversions` record:
  - Python's `str()` of a number;
  - `pd.to_numeric(errors="coerce")` of a text;
  - `float()` of a text.
- In the sequencer, dates are (day, month, year) triples, and a cell that is
  not a date makes the formula evaluate to an error value.
- Name equality in the sequencer is a parameter. `ExcelSame`, which ignores
  ASCII case, is the instance that Excel applies.
- Where the written code and its documentation differ, the model follows the
  code. `extract_schedule_data` turns the schedule cell into text before
  `dropna`, so a missing schedule becomes the text "nan" and the row is kept.
  Only the amount decides whether a row is dropped (`utils.py:37-43`).
- A NaN amount is read as 0. `float()` accepts "nan", which is what
  `astype(str)` makes of a blank amount cell, and the only use of the line
  amounts is the per-schedule sum, which skips NaN (`appeals_page.py:247`,
  `appeals_page.py:261`).
- The one place where the model does not follow the code is the third
  finding below. The program copies the mapped columns by index label, and
  `Appeals.CompileFileAsWritten` models that pass. The compile pipeline
  (`Appeals.CompileFile`, `Appeals.Compile`) uses the corrected positional
  copy. The two agree whenever no line before the last data line of a sheet
  was dropped (`Appeals.CompileFileAsWrittenWhenContiguous`).

## Model

| member | source | states |
|---|---|---|
| Text.Strip | utils.py:46 | `str.strip()`: the result has no leading or trailing whitespace and is the input with exactly its outer whitespace runs removed |
| Text.StripIdempotent | utils.py:46 | stripping an already-stripped schedule text changes nothing |
| Text.Upper | appeals_page.py:51 | `str.upper()` keeps the length and upper-cases each ASCII letter, leaving every other character alone |
| Text.ContainsIff | appeals_page.py:51 | Python's `w in s` holds exactly when `w` occurs in `s` at some position |
| Text.Year2IsPaddedCentury | utils.py:241 | `RIGHT(YEAR(d),2)` for a year of at least 10 equals the two-digit padding of `year % 100`, and reads back as `year % 100` |
| Text.Pad2Value | utils.py:241 | the `IF(LEN(MONTH())=1,"0"&…)` padding reads back as the number it pads |
| Text.NatToStringValue | utils.py:255 | the decimal text of the counter reads back as the counter and has no leading zero |
| Text.RemoveChar | appeals_page.py:124 | `replace('.', '')` removes every occurrence of the character and keeps every other character |
| Text.RemoveCharAppend | appeals_page.py:124 | `replace` works piecewise on concatenated text, so the kept characters stay in their original order |
| Text.RemoveCharOne | appeals_page.py:124 | a single character is dropped exactly when it is the removed character |
| Ordering.SortUnique | utils.py:84 | the group-by keys come out strictly ascending in string order, with no duplicates, and exactly the input's keys |
| Ordering.SortedUnique | utils.py:112 | two strictly sorted lists with the same elements are equal, so the sorted key order is unique |
| Ordering.LessTotal | utils.py:112 | string order is total on distinct texts, so any two schedules can be sorted |
| Cells.ColumnIndex | utils.py:187 | `columns.get_loc(name)` is the first position holding `name`, and is absent exactly when `name` is not a column |
| Cells.DetectColumn | streamlit_app.py:305-324 | the detected column is the first candidate present in the header, and none exactly when no candidate is present |
| Cells.FindColumnIndex | utils.py:184-188 | `find_column_index` is the 1-based position of the first alias present, and is absent exactly when no alias is a column |
| Cells.DetectionExample | streamlit_app.py:300-313 | on a header `S/N, Schedule No, AMOUNT` the Claims schedule and amount columns are "Schedule No" and "AMOUNT", and without a schedule column none is detected |
| Schedules.ExtractRow | utils.py:31-46 | a row is kept iff its amount cell coerces to a number, and then carries that number and the stripped text of the schedule cell |
| Schedules.ExtractScheduleData | utils.py:18-48 | absent (a `KeyError`) iff a named column is missing; otherwise at most one pair per input row, every schedule already stripped |
| Schedules.ExtractedFromRows | utils.py:31-46 | every extracted pair comes from some input row |
| Schedules.ExtractedAll | utils.py:40-43 | every row whose amount coerces contributes its pair |
| Schedules.ExtractedCount | utils.py:40-43 | when every amount coerces, nothing is dropped |
| Schedules.ExtractRowsAppend | utils.py:31-46 | extraction works row by row: extracting two blocks of rows together is extracting each and concatenating, so input order is kept |
| Schedules.FindMissingSchedules | utils.py:50-71 | the result holds exactly the source rows whose schedule is not among the target's schedules, and is no longer than the source |
| Schedules.MissingCounts | utils.py:66-69 | each source row occurs in the result as often as in the source when its schedule is absent from the target, and not at all otherwise (duplicates kept) |
| Schedules.MissingAppend | utils.py:68-69 | the boolean mask keeps source order: the missing rows of two concatenated tables are the missing rows of the first followed by those of the second |
| Schedules.MissingOne | utils.py:66-69 | a single source row is kept exactly when its schedule is absent from the target |
| Schedules.MissingKeys | utils.py:62-66 | the schedules of the result are exactly the source schedules minus the target schedules |
| Schedules.MissingSelf | utils.py:62-69 | a table has no schedules missing from itself |
| Schedules.MissingFromEmpty | utils.py:62-69 | against an empty target, every source row is missing, in order |
| Schedules.SchedulePartition | utils.py:62-66 | the schedules of both sides split into Claims-only, Finance-only and common, pairwise disjoint |
| Schedules.CalculateScheduleAmounts | utils.py:73-86 | `groupby(...).sum()`: one row per distinct schedule, keys strictly ascending, each total the sum of that schedule's amounts |
| Schedules.AggregateUnique | utils.py:84 | the grouped table has no repeated schedule |
| Schedules.AggregatePreservesTotal | utils.py:84 | the grand total of the grouped amounts equals the grand total of the input |
| Schedules.AggregatePermutation | utils.py:84 | reordering the input rows does not change the grouped table |
| Schedules.SumForPermutation | utils.py:84 | a schedule's sum does not depend on row order |
| Schedules.Lookup | utils.py:100-106 | the merge finds a schedule's amount iff the schedule occurs on that side, and the amount found is one of that side's rows |
| Schedules.LookupUnique | utils.py:100-106 | on a grouped side, the amount found is that schedule's only amount |
| Schedules.Difference | utils.py:115 | the difference is present iff both amounts are, and then it is Claims minus Finance |
| Schedules.JoinKeys | utils.py:100-112 | the outer join's keys are the union of both sides' schedules, strictly ascending |
| Schedules.GenerateReconciliationReport | utils.py:88-117 | the report's schedules are the union of both sides, strictly ascending, each amount present iff its side has the schedule and then equal to that side's total, and the difference is Claims − Finance when both are present |
| Schedules.ReportSwap | utils.py:100-115 | swapping the two inputs swaps the two amount columns of every row and negates every difference |
| Schedules.MissingExample | utils.py:50-71 | schedules 100 and 101 against Finance's 100 leave row 101 missing |
| Schedules.ReportExample | utils.py:88-117 | the two-schedule example reports 100 with difference 0 and 101 with no Finance amount and no difference |
| Sequencer.Parts | utils.py:241 | `MONTH`/`YEAR`/`DAY` of a date cell are its parts, an empty cell reads as Excel's day zero (0/1/1900), and a non-date is an error |
| Sequencer.Append | utils.py:154-155 | assigning columns keeps the original columns in place and in order, adds only the names not already present, and never adds a name twice |
| Sequencer.AppendDistinct | utils.py:154-155 | for a list of distinct names, the header becomes the original columns followed by exactly the names it lacked, in list order |
| Sequencer.EnhancedColumnsAppendAbsent | utils.py:148-155 | the enhanced header is the original columns followed by those of the ten added columns the table lacked, in their fixed order |
| Sequencer.FindColumnIndexAppend | utils.py:154-195 | locating an alias after columns that do not include it are appended gives the position found before |
| Sequencer.EnhancedFind | utils.py:154-195 | the enhanced header locates each source column at the same position as the original header |
| Sequencer.AliasesAvoidAddedColumns | utils.py:148-152 | no alias of the five source columns is one of the ten added column names |
| Sequencer.LocateOnClaimsHeader | utils.py:191-195 | which source columns are located depends only on the original Claims header |
| Sequencer.ClaimNoFnx | utils.py:245-250 | the row-carried counter is at least 1 and at most the row's 1-based position |
| Sequencer.ClaimNoFnxCountsRun | utils.py:246-249 | the counter is the length of the run of consecutive equal names ending at the row |
| Sequencer.RunStartUnique | utils.py:246-249 | that run's start is unique, so the counter is determined by the names alone |
| Sequencer.ClaimNoFnxExample | utils.py:246-249 | names A, A, B, A get counters 1, 2, 1, 1 |
| Sequencer.ClaimNoFnxIgnoresCase | utils.py:249 | under Excel's comparison "Ada" followed by "ADA" continues the run |
| Sequencer.ProviderPrefix | utils.py:241 | a NIL provider is replaced by 9999999 and any other provider kept |
| Sequencer.ClaimBatch | utils.py:239-242 | ClaimBatch is an error iff either date is not a date, and otherwise starts with the provider prefix |
| Sequencer.ClaimNo | utils.py:252-258 | ClaimNo is an error iff either date is not a date, and otherwise starts with the member number |
| Sequencer.CorrectClaimNo | utils.py:260-266 | Correct_ClaimNo is an error iff the encounter date is not a date, and otherwise starts with the member number |
| Sequencer.FormulaColumns | utils.py:233-266 | one formula row per data row; each formula column is written iff all its source columns were located, and the counter column holds numbers in 1..position |
| Sequencer.ClaimNoEndsWithCounter | utils.py:252-266 | ClaimNo and Correct_ClaimNo are written only with the counter column, and both end with that row's counter |
| Sequencer.ClaimNoDecodes | utils.py:255-257 | a ClaimNo splits back into member number, two-digit received month, two-digit encounter year and the row's counter |
| Sequencer.BatchAndClaimNoShareMonthYear | utils.py:241-257 | ClaimBatch and ClaimNo carry the same four month-and-year digits after their prefixes |
| Sequencer.CorrectClaimNoDecodes | utils.py:260-266 | a Correct_ClaimNo splits back into member number, two-digit encounter day, two-digit encounter month, two-digit encounter year and the row's counter |
| Sequencer.CorrectClaimNoInsertsDay | utils.py:255-265 | when both dates share a month, Correct_ClaimNo is ClaimNo with the two-digit encounter day inserted after the member number |
| Sequencer.NilProviderBatch | utils.py:241 | provider "nil", received in May, encounter in 2024 gives batch 99999990524 |
| Appeals.DropAllBlank | appeals_page.py:41 | `dropna(how='all')` keeps exactly the rows with a non-missing cell |
| Appeals.TotalWordsReduce | appeals_page.py:51 | the five total words reduce to TOTAL, SUM and GRAND, because SUBTOTAL and SUMMARY contain them |
| Appeals.FilledCount | appeals_page.py:64 | the count of non-NaN, non-blank cells is at most the row length, is zero exactly when no cell is filled, and is zero on an all-NaN row |
| Appeals.EmptyRowTestRedundant | appeals_page.py:48-67 | the empty-row skip never changes the outcome: a row is kept iff its first cell is not a total text and either parses as a number or there are three filled cells |
| Appeals.CleanRows | appeals_page.py:45-73 | survivors are exactly the data rows, in order; with no data row every row is kept (totals included) |
| Appeals.FilterKeepsOrder | appeals_page.py:69-71 | the kept rows stay in their original order |
| Appeals.SheetRows | appeals_page.py:39-73 | the cleaned sheet keeps row order and holds no all-missing row |
| Appeals.TotalLinesDropped | appeals_page.py:50-52 | when some row is data, no kept row starts with a total word |
| Appeals.MappedFromLast | appeals_page.py:98-127 | a template column takes the last mapped source column present (later assignments win), and stays "" when none is present |
| Appeals.MappingAvoidsReserved | appeals_page.py:84-120 | no mapping targets a blank column or Source_File, and every target is a template column |
| Appeals.HospitalFromLastAlias | appeals_page.py:101-103 | with both ENROLLEE NAME and HOSPITAL NAME present, HOSPITAL is copied from HOSPITAL NAME |
| Appeals.Trunc | appeals_page.py:124 | `int()` truncates toward zero |
| Appeals.ConvertSerial | appeals_page.py:122-125 | a missing S/N gives ""; a number never fails; a text whose dot-free form is not all digits is kept as-is; it fails exactly when a text passes the digit test and `float()` rejects it |
| Appeals.SerialOfNumber | appeals_page.py:124 | a value that passes the digit test and that `float()` accepts becomes `str(int(float(x)))`, the text of its integer part, which reads back as the truncated value |
| Appeals.SerialExamples | appeals_page.py:124 | a numeric S/N shown as "1.0" becomes "1", and the text "12.5" becomes "12" |
| Appeals.SerialOfDigits | appeals_page.py:124 | a digit string S/N is rewritten without leading zeros and keeps its value |
| Appeals.SerialRejects | appeals_page.py:124 | "1.2.3" passes the digit test but `float()` raises, so the file fails with that message |
| Appeals.Field | appeals_page.py:88-130 | Source_File is the file name, the blank columns are "", unmapped columns are "", and only S_N can fail |
| Appeals.Fields | appeals_page.py:88-130 | the row's fields succeed iff each succeeds, and then hold each field's value |
| Appeals.StandardRow | appeals_page.py:76-130 | a standardised row has the 18 template cells, the file name in Source_File and "" in the blank columns; it fails only with the S_N error |
| Appeals.StandardRows | appeals_page.py:119-130 | positional standardisation: one template row per kept row, in order, or the first row's error |
| Appeals.StandardRowsAsWritten | appeals_page.py:119-127 | the label-aligned copy fails exactly when the positional one does, and otherwise yields template rows, one per kept row |
| Appeals.AlignmentFaithfulWhenContiguous | appeals_page.py:119-127 | when the kept rows are labelled 0, 1, 2, … the label-aligned and positional copies agree |
| Appeals.AlignedGap | appeals_page.py:119-127 | a position whose label is not among the kept rows gets a row of missing mapped values |
| Appeals.GapKeptAligned | appeals_page.py:119-127 | a sheet whose first line is blank keeps one row labelled 1, and the copy as written puts NaN in its S_N and amount |
| Appeals.GapKeptPositional | appeals_page.py:119-127 | the same kept row standardised positionally carries its S_N "1" and amount "500" |
| Appeals.GapSheetRows | appeals_page.py:41-73 | the example sheet's blank first line is dropped and its data row kept with label 1 |
| Appeals.SheetNamed | appeals_page.py:34-36 | the PAYMENT SUMMARY sheet is found iff some sheet has that name |
| Appeals.CompileFile | appeals_page.py:28-150 | per file: no record iff the sheet is empty; on a non-empty sheet, Success exactly when standardising its rows succeeds, with the kept-row count and the standard frame, and otherwise a Failed record with 0 rows carrying the standardising error's text; an unreadable workbook gets a Failed record with its reason and a workbook without the sheet a No-sheet record |
| Appeals.CompileFileAsWritten | appeals_page.py:71-127 | the pass as the program writes it, with the label-aligned copy: the same summary line as the corrected pass, and a standard frame of the same length exactly when that pass has one |
| Appeals.CompileFileAsWrittenWhenContiguous | appeals_page.py:71-127 | when the kept lines carry the labels 0, 1, ..., the pass as written and the corrected pass give the same outcome |
| Appeals.GapUploadCompiled | appeals_page.py:88-127 | for an upload whose PAYMENT SUMMARY has a blank first line, the program's frame holds NaN under S_N and the amount, and the corrected frame holds "1" and "500" |
| Appeals.Compile | appeals_page.py:14-152 | at most one record per upload, and the i-th frame carries the name and row count of the i-th Success record |
| Appeals.FramesMatchSummary | appeals_page.py:132-137 | frames and Success records correspond one to one, in upload order |
| Appeals.CompileAppend | appeals_page.py:28-150 | files are processed independently: compiling two batches is compiling each and concatenating |
| Appeals.CompileOne | appeals_page.py:133-150 | a file contributes at most one record, under its own name |
| Appeals.SkipSpace | appeals_page.py:200 | `\s*` consumes exactly the maximal whitespace run |
| Appeals.DigitRunMaximal | appeals_page.py:200 | `(\d+)` captures the maximal run of digits |
| Appeals.MatchAt | appeals_page.py:200-201 | a match at a position yields a non-empty digit string occurring in the name |
| Appeals.MatchWordIff | appeals_page.py:200 | one alternative `w\s*(\d+)` yields `d` at a position iff `w` occurs there in any case, whitespace follows up to some point, and `d` is the non-empty run of digits there that no further digit extends |
| Appeals.MatchAtIff | appeals_page.py:200-201 | the pattern yields `d` at a position iff "Schedule" or "SCH" followed by whitespace and digits `d` matches there, whichever alternative is tried first |
| Appeals.AlternativesExclusive | appeals_page.py:200 | the two alternatives never both match at one position, since "sch" of "schedule" is followed by an "e" |
| Appeals.ExtractScheduleFromFilename | appeals_page.py:193-202 | the result is the capture of the leftmost match, and None iff no position matches |
| Appeals.LeftmostMatch | appeals_page.py:201 | the first matching position determines the result |
| Appeals.NoMatchWithoutS | appeals_page.py:200 | no match starts at a character other than s/S |
| Appeals.FilenameExample | appeals_page.py:196 | "Payment Schedule 9497_APPEAL (BUPA).xlsx" gives "9497" |
| AppealsFinance.TemplatePositions | appeals_page.py:241-243 | Source_File and the recommended amount sit at template positions 12 and 8, counted from 0 |
| AppealsFinance.ReadLine | appeals_page.py:240-254 | a row yields a line iff its file name has a schedule and its comma-free amount parses; a non-text file name raises |
| AppealsFinance.BlankAmountKept | appeals_page.py:240-261 | a blank amount, which `astype(str)` turns into "nan" and `float()` reads as NaN, keeps its line, schedule and file, and adds 0 to the schedule's sum |
| AppealsFinance.ReadLines | appeals_page.py:240-254 | the usable lines are exactly those read from some row, and reading fails iff some row raises |
| AppealsFinance.Unique | appeals_page.py:263 | `x.unique()` has no duplicates and the same elements |
| AppealsFinance.UniquePrefix | appeals_page.py:263 | unique keeps first-appearance order: more input only appends |
| AppealsFinance.UniqueExample | appeals_page.py:263 | a.xlsx, b.xlsx, a.xlsx gives a.xlsx, b.xlsx |
| AppealsFinance.FilesOfMembers | appeals_page.py:261-264 | a schedule's file list holds exactly the files of its lines |
| AppealsFinance.FinanceSheet | appeals_page.py:224-230 | the Finance sheet is the first whose upper-cased name contains CLAIMS RECEIVED or WEEKLY REPORT, and none iff no sheet does |
| AppealsFinance.MatchingRows | appeals_page.py:274-276 | the matched Finance rows are those whose batch text contains the schedule number |
| AppealsFinance.SumCells | appeals_page.py:280 | the sum of the advised amounts is defined iff no matched cell holds text |
| AppealsFinance.CompareGroup | appeals_page.py:269-297 | a comparison exists exactly when the Finance sheet has a batch column and either no row matches the schedule or the amount column exists and the matched amounts sum; with no matching batch the Finance amount is 0 and the variance equals the appeals amount; otherwise the Finance amount is the matched sum; the variance is always appeals − Finance |
| AppealsFinance.CompareGroups | appeals_page.py:269-297 | one comparison per group, in order, or none if one fails |
| AppealsFinance.CompareGroupsRows | appeals_page.py:269-297 | each comparison carries its group's schedule, amount and file list, with variance appeals − Finance |
| AppealsFinance.CompareLines | appeals_page.py:256-297 | no usable line gives None; otherwise a result exists exactly when every schedule's Finance lookup succeeds, and it holds one comparison per distinct schedule, sorted, each with the summed appeals amount and its files |
| AppealsFinance.CompareGroupsIff | appeals_page.py:268-297 | the loop over schedules yields comparisons exactly when the lookup succeeds for every group |
| AppealsFinance.CompareLinesRows | appeals_page.py:269-297 | every row of the comparison is the comparison of its own group |
| AppealsFinance.CompareWithFinance | appeals_page.py:204-305 | None without frames, without a Finance sheet or when reading raises; otherwise the comparison of the combined lines |
| AppealsFinance.AppealsTotalPreserved | appeals_page.py:261-262 | the appeals column of the comparison sums to the total of the usable lines |
| AppealsFinance.TotalVarianceIsDifference | appeals_page.py:539 | the Total Variance metric is the appeals total minus the Finance total |
| AppealsFinance.MissingSchedules | appeals_page.py:580 | the missing table holds exactly the rows with a Finance amount of 0 |
| AppealsFinance.AmountMismatches | appeals_page.py:581 | the mismatch table holds exactly the rows with a non-zero Finance amount and a non-zero variance |
| AppealsFinance.ClassificationPartition | appeals_page.py:580-581 | no row is both missing and mismatched, and missing, mismatched and agreeing rows add up to all rows |
| AppealsFinance.VarianceSplit | appeals_page.py:540-542 | rows with a non-zero variance plus zero-amount missing rows equal mismatches plus missing rows |
| AppealsFinance.AmountVariancesAsWritten | appeals_page.py:541-547 | the metric as written is the mismatch count minus the missing rows whose variance is 0 |
| AppealsFinance.AmountVariances | appeals_page.py:629-630 | the corrected metric is the size of the mismatch table |
| AppealsFinance.EmailOfferedEitherWay | appeals_page.py:561 | whether the e-mail section is offered is the same under either metric |
| AppealsFinance.ZeroScheduleArises | appeals_page.py:290-297 | a zero-sum schedule unknown to Finance yields Finance amount 0 and variance 0 |
| AppealsFinance.AmountVariancesSlip | appeals_page.py:547 | on that row the metric as written reads −1 while the mismatch table is empty |
| Metrics.Report | streamlit_app.py:424-453 | the report over the grouped extracts has the union of both sides' schedules, strictly ascending |
| Metrics.ReportClaims | streamlit_app.py:424-453 | a report row's Claims amount is that schedule's Claims sum iff Claims has the schedule, else missing |
| Metrics.ReportFinance | streamlit_app.py:424-453 | likewise for the Finance amount |
| Metrics.HighlightOf | streamlit_app.py:574-580 | yellow iff an amount is missing, coral iff both present and more than 0.01 apart, plain iff both present and within 0.01 |
| Metrics.ToleranceExamples | streamlit_app.py:444 | a gap of 0.005 matches, a gap of 0.02 mismatches, a missing amount is yellow |
| Metrics.ClassificationCounts | streamlit_app.py:593-604 | matching plus mismatching rows equal the rows present on both sides, and those plus rows with a missing amount equal all rows |
| Metrics.AmountMismatchRows | streamlit_app.py:601-604 | the mismatch table holds exactly the both-present rows more than 0.01 apart |
| Metrics.MatchingCount | streamlit_app.py:593-594 | matching count plus mismatch count equals the number of both-present rows |
| Metrics.BothPresentKeys | streamlit_app.py:588-590 | the both-present rows are exactly the schedules common to Claims and Finance |
| Metrics.TotalClaimsSchedules | streamlit_app.py:585 | the total is the number of distinct Claims schedules |
| Metrics.ClaimsSchedulesSplit | streamlit_app.py:585-597 | Claims schedules split into matching, missing in Finance, and mismatching |
| Metrics.Discrepancies | streamlit_app.py:596-597 | discrepancies are the Claims schedules missing in Finance plus the mismatches, so never negative |
| Metrics.Clamp | streamlit_app.py:796 | `max(0, v)` is non-negative, at least `v`, and is `v` or 0 |
| Metrics.PieAsWritten | streamlit_app.py:790-796 | the pie as written: matching count, at least as many "missing" as missing schedules, at most as many "mismatches" as mismatching schedules |
| Metrics.PieIntended | streamlit_app.py:790-796 | the corrected pie counts missing schedules and mismatches, and its three slices add up to the Claims schedules |
| Metrics.PieSlip | streamlit_app.py:793 | one schedule on two Claims rows and no Finance rows: the pie as written shows 2 missing against 1 schedule |
| Metrics.ClaimsColumnTotal | streamlit_app.py:613 | the report's Claims column sums to the Claims total |
| Metrics.TotalClaimsAmount | streamlit_app.py:613 | the Total Claims Amount metric is the sum of all Claims amounts |
| Metrics.ClaimsColumnSplit | streamlit_app.py:613-620 | the Claims total is the matched Finance total plus the matched differences plus the Claims-only amounts |
| Metrics.TotalVariance | streamlit_app.py:612-620 | the total variance is the sum of the differences on common schedules plus the Claims-only amounts |
| Metrics.AfterOrder | streamlit_app.py:500 | `>` on timestamps (date first, then time of day) is a strict total order |
| Metrics.DateErrorOf | streamlit_app.py:494-506 | a row is flagged iff both timestamps parse and the encounter is later, time of day included, and then the record carries both calendar dates |
| Metrics.SameDayLaterTime | streamlit_app.py:494-503 | an encounter at 15:00 on the day the claim was received at 09:00 is flagged, with the same date shown twice |
| Metrics.DateErrors | streamlit_app.py:472-506 | without both date columns nothing is flagged, and at most one error per row |
| Metrics.DateErrorsExact | streamlit_app.py:482-506 | with both columns detected, the errors are exactly the records of the rows whose encounter timestamp is later than the receipt timestamp |

## Left out

- The Streamlit UI is left out as presentation only: widgets, session state, charts, download links and the compiled-workbook writer.
- Excel reading and writing (`pd.ExcelFile`, `read_excel`, openpyxl) is left out as I/O. The formula texts are left out as well: the model gives the values they evaluate to.
- The SMTP e-mail senders and `session_manager.py` are left out as network and disk I/O.
- `DB_Upload.py` and `AppealsUpload.py` are left out as database plumbing.
- Floating point is not modelled. Amounts are exact `real`s, and `str()` of a number, `pd.to_numeric` on text and `float()` on text are abstract parameters. The rendering of a number depends on its column's dtype ("9497" in an integer column, "9497.0" in a float column). Conversions are passed per call, so the Claims and Finance schedule columns may render differently.
- A `Num` cell always holds a real number, so NaN produced by arithmetic, and infinities, are not modelled.
- Summing a text cell in a column is modelled as failing (`AppealsFinance.SumCells`). pandas may instead concatenate texts in an object column; that case is not modelled.
- Whitespace (`\s`) and digits (`\d`) are ASCII only. Unicode whitespace and digits are not modelled, and neither is case folding beyond ASCII.
- The exception text of a failing `float()` is Python's message with the quoted input, built as `'` + input + `'`. Python's `repr` quoting of inputs that contain quotes is not modelled.
- Tables have distinct column names; duplicate column names are not modelled.
- The compiled frames share the template header, so `pd.concat` of frames with differing columns is not modelled.
- The date-validation records keep the dates as triples, not `strftime('%d/%m/%Y')` text.
- The schedule text of a date-error row is kept, but `str()` of its cell is abstract for numbers.
- The formatted reconciliation sheet of the reconciliation page (its styling) is left out as presentation.
- Appeals.Field: renders every copied cell of a PAYMENT SUMMARY sheet with one conversion, so within one sheet a number cannot show as "3" in an integer column and as "3.0" in a float column. The per-column dtype rendering of `astype(str)` is not modelled there.
- Appeals.CompileFile: builds each frame with the corrected positional copy (`Appeals.StandardRows`), not the label-aligned copy the program makes. On a sheet with a dropped line before its last data line, the program's frame holds NaN or shifted values where this one holds the sheet's values. `Appeals.CompileFileAsWritten` models the program's pass. `Appeals.Compile` and everything downstream use the corrected pass.
- Appeals.StandardRowsAsWritten: states the row count and template shape, and pins down positions only through `AlignedGap`, `AlignmentFaithfulWhenContiguous` and the worked example. The full label alignment is stated in its body and not as a contract.
- AppealsFinance.SumCells: states when the sum is defined, not its value. NaN is skipped and numbers are added, which the body states.
- Metrics.PieAsWritten: the as-written pie is stated only by bounds against the schedule counts, because its "missing" slice counts rows.
- Sequencer.GenerateEnhancedClaims has no contract of its own. It is `Sequencer.FormulaColumns` applied to the located columns, and `Sequencer.LocateOnClaimsHeader` states the location.

## Findings

| source | as written | input that shows it | evidently intended | confidence | as-written member | corrected member |
|---|---|---|---|---|---|---|
| streamlit_app.py:790-796 | the "Missing in Finance" slice is `len(missing_in_finance)`, which counts extracted Claims rows, and "Amount Mismatches" is `discrepancies` minus that count | one schedule "5" on two Claims rows, no Finance rows: 1 schedule, but the slice shows 2 missing and the mismatch slice −1, clamped to 0 | count distinct missing schedules, so that the three slices add up to the Claims schedules | not executed | Metrics.PieAsWritten (shown by Metrics.PieSlip) | Metrics.PieIntended |
| appeals_page.py:539-548 | "Amount Variances" is the count of non-zero variances minus the count of zero Finance amounts | a schedule whose appeals sum to 0 and that Finance does not list: variance 0, Finance 0, so the metric reads −1 | the number of rows in the amount-mismatch table (`Finance_Amount != 0` and `Variance != 0`, lines 629-630) | not executed | AppealsFinance.AmountVariancesAsWritten (shown by AppealsFinance.AmountVariancesSlip and AppealsFinance.ZeroScheduleArises) | AppealsFinance.AmountVariances |
| appeals_page.py:119-127 | mapped columns are copied as Series carrying the kept rows' original labels onto a frame with a fresh 0..n-1 index, so pandas aligns by label | a PAYMENT SUMMARY whose first line is blank: the one data row keeps label 1, so position 0 receives NaN for S_N and the amount | copy the kept rows' values by position | not executed | Appeals.StandardRowsAsWritten and Appeals.CompileFileAsWritten (shown by Appeals.GapKeptAligned and Appeals.GapUploadCompiled) | Appeals.StandardRows (shown by Appeals.GapKeptPositional; agreement by Appeals.AlignmentFaithfulWhenContiguous) |
