/** `compare_with_finance`: the compiled appeals lines are grouped by the
    schedule number found in their file names and summed, and each schedule
    is looked up in the Finance "claims received" sheet by substring match on
    its batch column. Also the split of the result into schedules missing in
    Finance and schedules whose amounts differ, and the on-screen count of
    amount variances. */
module AppealsFinance {
  import opened Outcomes
  import opened Text
  import opened Ordering
  import opened Cells
  import opened Schedules
  import opened Appeals

  // ---------------------------------------------------------------------
  // Reading the combined appeals frame

  /** Template positions of the provenance and amount columns. */
  const SourceFileIndex: nat := 12
  const AmountIndex: nat := 8

  lemma TemplatePositions()
    ensures TemplateColumns[SourceFileIndex] == SourceFileColumn
    ensures TemplateColumns[AmountIndex] == AmountColumn
  {
  }

  /** One usable appeals line: its schedule, amount and source file. */
  datatype AppealLine = AppealLine(schedule: string, amount: real, file: string)

  /** A text `float()` reads as NaN: "nan" in any case, with an optional sign
      and surrounding whitespace. */
  predicate NanText(t: string) {
    var u := Upper(Strip(t));
    u == "NAN" || u == "+NAN" || u == "-NAN"
  }

  /** `float(str(cell).replace(",", ""))`, `None` where it raises. A NaN
      amount, which is what a blank amount cell reads as, is 0: the
      per-schedule sum skips NaN, so the line stays and adds nothing. */
  function ParseAmount(c: Cell, conv: Conversions): Option<real> {
    var t := RemoveChar(Render(c, conv), ',');
    if NanText(t) then Some(0.0) else conv.floatText(t)
  }

  /** A blank amount cell, whether NaN or the text "nan" that `astype(str)`
      made of it, never makes `float()` raise: the line is read with its
      schedule and file, and its amount adds 0 to the schedule's sum. */
  lemma BlankAmountKept(row: seq<Cell>, conv: Conversions)
    requires CellAt(row, SourceFileIndex).Str?
    requires ExtractScheduleFromFilename(CellAt(row, SourceFileIndex).text).Some?
    requires CellAt(row, AmountIndex) == Blank || CellAt(row, AmountIndex) == Str("nan")
    ensures ReadLine(row, conv)
            == Ok(Some(AppealLine(ExtractScheduleFromFilename(CellAt(row, SourceFileIndex).text).value,
                                  0.0, CellAt(row, SourceFileIndex).text)))
  {
    NanRendered();
    assert Render(CellAt(row, AmountIndex), conv) == "nan";
  }

  /** The text "nan" has no comma and reads as NaN. */
  lemma NanRendered()
    ensures RemoveChar("nan", ',') == "nan"
    ensures NanText("nan")
  {
    NanNoComma();
    StripClean("nan");
    NanUpper();
  }

  lemma NanNoComma()
    ensures RemoveChar("nan", ',') == "nan"
  {
    RemoveAbsentChar("nan", ',');
  }

  lemma NanUpper()
    ensures Upper("nan") == "NAN"
  {
    var u := Upper("nan");
    assert u[0] == UpperChar('n') == 'N';
    assert u[1] == UpperChar('a') == 'A';
    assert u[2] == UpperChar('n') == 'N';
  }

  /** The text `re.search` raises on a file name that is not a string. */
  const NotAString: string := "expected string or bytes-like object"

  /** One row of the combined frame: a usable line, a skipped row (no
      schedule in the file name, or an amount that does not parse), or the
      exception a non-text file name raises. */
  function ReadLine(row: seq<Cell>, conv: Conversions): (r: Result<Option<AppealLine>, string>)
    ensures r.Ok? && r.value.Some? ==>
              CellAt(row, SourceFileIndex) == Str(r.value.value.file)
              && ExtractScheduleFromFilename(r.value.value.file) == Some(r.value.value.schedule)
              && ParseAmount(CellAt(row, AmountIndex), conv) == Some(r.value.value.amount)
    ensures r.Err? <==> !CellAt(row, SourceFileIndex).Str?
    ensures r == Ok(None) <==>
              CellAt(row, SourceFileIndex).Str?
              && (ExtractScheduleFromFilename(CellAt(row, SourceFileIndex).text).None?
                  || ParseAmount(CellAt(row, AmountIndex), conv).None?)
  {
    match CellAt(row, SourceFileIndex)
    case Str(name) =>
      (match ExtractScheduleFromFilename(name)
       case None => Ok(None)
       case Some(schedule) =>
         match ParseAmount(CellAt(row, AmountIndex), conv)
         case None => Ok(None)
         case Some(a) => Ok(Some(AppealLine(schedule, a, name))))
    case _ => Err(NotAString)
  }

  /** `f` applied to every element in order, keeping the values it yields
      and skipping the elements it passes over, stopping at the first error:
      a row loop whose body may `continue` or raise. */
  function TryCollect<A, B(!new)>(xs: seq<A>, f: A -> Result<Option<B>, string>): (r: Result<seq<B>, string>)
    ensures r.Ok? <==> forall i :: 0 <= i < |xs| ==> f(xs[i]).Ok?
    ensures r.Ok? ==> |r.value| <= |xs|
    ensures r.Ok? ==> forall y :: y in r.value <==> exists i :: 0 <= i < |xs| && f(xs[i]) == Ok(Some(y))
  {
    if |xs| == 0 then Ok([])
    else
      assert forall i :: 0 < i < |xs| ==> xs[i] == xs[1..][i - 1];
      match f(xs[0])
      case Err(e) => Err(e)
      case Ok(o) =>
        match TryCollect(xs[1..], f)
        case Err(e) => Err(e)
        case Ok(ys) =>
          assert forall y :: (exists i :: 0 < i < |xs| && f(xs[i]) == Ok(Some(y))) ==>
                               exists i :: 0 <= i < |xs[1..]| && f(xs[1..][i]) == Ok(Some(y));
          Ok(OptionSeq(o) + ys)
  }

  /** The usable lines of the rows in order, or the first exception. */
  function ReadLines(rows: seq<seq<Cell>>, conv: Conversions): (r: Result<seq<AppealLine>, string>)
    ensures r.Ok? <==> forall i :: 0 <= i < |rows| ==> ReadLine(rows[i], conv).Ok?
    ensures r.Ok? ==> |r.value| <= |rows|
    ensures r.Ok? ==> forall x :: x in r.value <==>
                        exists i :: 0 <= i < |rows| && ReadLine(rows[i], conv) == Ok(Some(x))
  {
    TryCollect(rows, (row: seq<Cell>) => ReadLine(row, conv))
  }

  /** `pd.concat(compiled_data, ignore_index=True)`: the rows of every
      frame, in order. */
  function AllRows(frames: seq<Table>): (r: seq<seq<Cell>>)
    ensures |frames| == 0 ==> r == []
  {
    if |frames| == 0 then [] else AllRows(frames[..|frames| - 1]) + frames[|frames| - 1].rows
  }

  // ---------------------------------------------------------------------
  // Grouping by schedule

  function Amounts(lines: seq<AppealLine>): (r: seq<ScheduleAmount>)
    ensures |r| == |lines|
    ensures forall i :: 0 <= i < |lines| ==> r[i] == ScheduleAmount(lines[i].schedule, lines[i].amount)
  {
    seq(|lines|, i requires 0 <= i < |lines| => ScheduleAmount(lines[i].schedule, lines[i].amount))
  }

  /** `Series.unique()`: the distinct values in order of first appearance. */
  function Unique(xs: seq<string>): (r: seq<string>)
    ensures Distinct(r)
    ensures Elems(r) == Elems(xs)
    ensures |r| <= |xs|
  {
    if |xs| == 0 then []
    else
      var front := Unique(xs[..|xs| - 1]);
      var x := xs[|xs| - 1];
      assert xs == xs[..|xs| - 1] + [x];
      assert Elems(xs) == Elems(xs[..|xs| - 1]) + {x};
      if x in front then front
      else
        assert Elems(front + [x]) == Elems(front) + {x};
        front + [x]
  }

  /** Later values never reorder earlier ones: the unique values of a prefix
      are a prefix of the unique values of the whole. */
  lemma {:induction false} UniquePrefix(xs: seq<string>, ys: seq<string>)
    ensures Unique(xs) <= Unique(xs + ys)
    decreases |ys|
  {
    if |ys| == 0 {
      assert xs + ys == xs;
    } else {
      var ys' := ys[..|ys| - 1];
      UniquePrefix(xs, ys');
      assert (xs + ys)[..|xs + ys| - 1] == xs + ys';
    }
  }

  lemma UniqueExample()
    ensures Unique(["a.xlsx", "b.xlsx", "a.xlsx"]) == ["a.xlsx", "b.xlsx"]
  {
    var xs := ["a.xlsx", "b.xlsx", "a.xlsx"];
    assert xs[..2] == ["a.xlsx", "b.xlsx"];
    assert xs[..2][..1] == ["a.xlsx"];
    assert xs[..2][..1][..0] == [];
    assert Unique(xs[..2][..1]) == ["a.xlsx"];
    assert "b.xlsx" != "a.xlsx";
    assert Unique(xs[..2]) == ["a.xlsx", "b.xlsx"];
  }

  /** The source files of the lines of one schedule, in order. */
  function FilesOf(lines: seq<AppealLine>, schedule: string): (r: seq<string>)
    ensures |r| <= |lines|
  {
    if |lines| == 0 then []
    else
      FilesOf(lines[..|lines| - 1], schedule)
      + (if lines[|lines| - 1].schedule == schedule then [lines[|lines| - 1].file] else [])
  }

  /** A file is listed for a schedule exactly when one of its lines has it. */
  lemma {:induction false} FilesOfMembers(lines: seq<AppealLine>, schedule: string)
    ensures forall f :: f in FilesOf(lines, schedule) <==>
                          exists x :: x in lines && x.schedule == schedule && x.file == f
  {
    if |lines| > 0 {
      var front := lines[..|lines| - 1];
      var x := lines[|lines| - 1];
      assert lines == front + [x];
      FilesOfMembers(front, schedule);
    }
  }

  /** The Source_Files cell of a schedule: its distinct files joined by ", ". */
  function FilesCell(lines: seq<AppealLine>, schedule: string): string {
    Join(", ", Unique(FilesOf(lines, schedule)))
  }

  // ---------------------------------------------------------------------
  // Matching against Finance

  /** One row of the comparison. */
  datatype Comparison = Comparison(
    schedule: string, appeals: real, finance: real, variance: real, files: string)

  /** The variance column is appeals minus Finance. */
  predicate Balanced(c: Comparison) {
    c.variance == c.appeals - c.finance
  }

  /** The first sheet whose upper-cased name contains "CLAIMS RECEIVED" or
      "WEEKLY REPORT". */
  function FinanceSheet(sheets: seq<Sheet>): (r: Option<Table>)
    ensures r.None? <==> forall i :: 0 <= i < |sheets| ==> !IsFinanceSheetName(sheets[i].name)
    ensures r.Some? ==> exists i :: 0 <= i < |sheets| && sheets[i].table == r.value
                                    && IsFinanceSheetName(sheets[i].name)
                                    && forall j :: 0 <= j < i ==> !IsFinanceSheetName(sheets[j].name)
  {
    if |sheets| == 0 then None
    else if IsFinanceSheetName(sheets[0].name) then Some(sheets[0].table)
    else
      var r := FinanceSheet(sheets[1..]);
      assert forall i :: 0 < i < |sheets| ==> sheets[i] == sheets[1..][i - 1];
      if r.Some? then
        var i :| 0 <= i < |sheets[1..]| && sheets[1..][i].table == r.value
                 && IsFinanceSheetName(sheets[1..][i].name)
                 && forall j :: 0 <= j < i ==> !IsFinanceSheetName(sheets[1..][j].name);
        assert sheets[i + 1] == sheets[1..][i];
        r
      else r
  }

  predicate IsFinanceSheetName(name: string) {
    Contains(Upper(name), "CLAIMS RECEIVED") || Contains(Upper(name), "WEEKLY REPORT")
  }

  const BatchColumn: string := "Claim Batch No/Sch No"
  const AdvisedColumn: string := "Claims_Advised_Amount"

  /** `astype(str).str.contains(schedule)`: the batch cell's text contains
      the schedule number (a digit string, so the pattern is literal). */
  predicate BatchMatches(row: seq<Cell>, bi: nat, schedule: string, conv: Conversions) {
    Contains(Render(CellAt(row, bi), conv), schedule)
  }

  function MatchingRows(rows: seq<seq<Cell>>, bi: nat, schedule: string, conv: Conversions)
    : (r: seq<seq<Cell>>)
    ensures forall row :: row in r <==> row in rows && BatchMatches(row, bi, schedule, conv)
  {
    Filter(rows, (row: seq<Cell>) => BatchMatches(row, bi, schedule, conv))
  }

  /** A column's `sum()` where the column holds numbers and NaN: NaN is
      skipped; a text makes the sum, or the subtraction after it, raise. */
  function SumCells(rows: seq<seq<Cell>>, ai: nat): (r: Option<real>)
    ensures r.Some? <==> forall i :: 0 <= i < |rows| ==> !CellAt(rows[i], ai).Str?
  {
    if |rows| == 0 then Some(0.0)
    else
      var front := SumCells(rows[..|rows| - 1], ai);
      match CellAt(rows[|rows| - 1], ai)
      case Str(_) => None
      case Blank => front
      case Num(v) => if front.Some? then Some(front.value + v) else None
  }

  /** The comparison row of one schedule, or `None` where a Finance column
      the lookup needs is missing or its sum raises. */
  function CompareGroup(g: ScheduleAmount, files: string, fin: Table, conv: Conversions)
    : (r: Option<Comparison>)
    ensures r.Some? ==> r.value.schedule == g.schedule && r.value.appeals == g.amount
                        && r.value.files == files
                        && Balanced(r.value)
    ensures ColumnIndex(fin.columns, BatchColumn).None? ==> r.None?
    ensures r.Some? <==>
              ColumnIndex(fin.columns, BatchColumn).Some?
              && var matched := MatchingRows(fin.rows, ColumnIndex(fin.columns, BatchColumn).value, g.schedule, conv);
                 (|matched| == 0
                  || (ColumnIndex(fin.columns, AdvisedColumn).Some?
                      && SumCells(matched, ColumnIndex(fin.columns, AdvisedColumn).value).Some?))
    ensures r.Some? && |MatchingRows(fin.rows, ColumnIndex(fin.columns, BatchColumn).value, g.schedule, conv)| == 0
            ==> r.value.finance == 0.0 && r.value.variance == g.amount
    ensures r.Some? && |MatchingRows(fin.rows, ColumnIndex(fin.columns, BatchColumn).value, g.schedule, conv)| > 0
            ==> ColumnIndex(fin.columns, AdvisedColumn).Some?
                && SumCells(MatchingRows(fin.rows, ColumnIndex(fin.columns, BatchColumn).value, g.schedule, conv),
                            ColumnIndex(fin.columns, AdvisedColumn).value) == Some(r.value.finance)
  {
    match ColumnIndex(fin.columns, BatchColumn)
    case None => None
    case Some(bi) =>
      var matched := MatchingRows(fin.rows, bi, g.schedule, conv);
      if |matched| == 0 then Some(Comparison(g.schedule, g.amount, 0.0, g.amount, files))
      else
        match ColumnIndex(fin.columns, AdvisedColumn)
        case None => None
        case Some(ai) =>
          match SumCells(matched, ai)
          case None => None
          case Some(f) => Some(Comparison(g.schedule, g.amount, f, g.amount - f, files))
  }

  /** `f` applied to every element in order, or `None` if it fails on one. */
  function MapAll<A, B>(xs: seq<A>, f: A -> Option<B>): (r: Option<seq<B>>)
    ensures r.Some? <==> forall i :: 0 <= i < |xs| ==> f(xs[i]).Some?
    ensures r.Some? ==> |r.value| == |xs| && forall i :: 0 <= i < |xs| ==> f(xs[i]) == Some(r.value[i])
  {
    if |xs| == 0 then Some([])
    else
      var front := xs[..|xs| - 1];
      assert forall i :: 0 <= i < |front| ==> xs[i] == front[i];
      match MapAll(front, f)
      case None => None
      case Some(ys) =>
        match f(xs[|xs| - 1])
        case None => None
        case Some(y) => Some(ys + [y])
  }

  /** The comparison rows of the groups in order, or `None` if any fails. */
  function CompareGroups(groups: seq<ScheduleAmount>, lines: seq<AppealLine>, fin: Table, conv: Conversions)
    : (r: Option<seq<Comparison>>)
    ensures r.Some? <==> forall i :: 0 <= i < |groups| ==>
                           CompareGroup(groups[i], FilesCell(lines, groups[i].schedule), fin, conv).Some?
    ensures r.Some? ==> |r.value| == |groups|
                        && forall i :: 0 <= i < |groups| ==>
                             CompareGroup(groups[i], FilesCell(lines, groups[i].schedule), fin, conv)
                             == Some(r.value[i])
  {
    MapAll(groups, (g: ScheduleAmount) => CompareGroup(g, FilesCell(lines, g.schedule), fin, conv))
  }

  /** The rows of a successful comparison follow the groups one for one. */
  lemma CompareGroupsRows(groups: seq<ScheduleAmount>, lines: seq<AppealLine>, fin: Table, conv: Conversions)
    requires CompareGroups(groups, lines, fin, conv).Some?
    ensures var r := CompareGroups(groups, lines, fin, conv).value;
            ComparisonSchedules(r) == ScheduleColumn(groups)
            && forall i :: 0 <= i < |r| ==>
                 r[i].appeals == groups[i].amount
                 && r[i].files == FilesCell(lines, r[i].schedule)
                 && Balanced(r[i])
  {
    var r := CompareGroups(groups, lines, fin, conv).value;
    forall i | 0 <= i < |r|
      ensures r[i].schedule == groups[i].schedule && r[i].appeals == groups[i].amount
      ensures r[i].files == FilesCell(lines, r[i].schedule)
      ensures Balanced(r[i])
    {
      assert CompareGroup(groups[i], FilesCell(lines, groups[i].schedule), fin, conv) == Some(r[i]);
    }
  }

  /** Every group's Finance lookup succeeds. */
  predicate AllCompare(groups: seq<ScheduleAmount>, lines: seq<AppealLine>, fin: Table, conv: Conversions) {
    forall g :: g in groups ==> CompareGroup(g, FilesCell(lines, g.schedule), fin, conv).Some?
  }

  /** The comparison of the groups exists exactly when every lookup succeeds. */
  lemma CompareGroupsIff(groups: seq<ScheduleAmount>, lines: seq<AppealLine>, fin: Table, conv: Conversions)
    ensures CompareGroups(groups, lines, fin, conv).Some? <==> AllCompare(groups, lines, fin, conv)
  {
  }

  /** The usable lines of the compiled frames, or the exception. */
  function AppealLines(compiled: seq<Table>, conv: Conversions): Result<seq<AppealLine>, string> {
    ReadLines(AllRows(compiled), conv)
  }

  /** The Finance sheet the comparison reads, when the file is given, opens
      and has one. */
  function FinanceTable(finance: Option<Book>): Option<Table> {
    if finance.Some? && finance.value.Workbook? then FinanceSheet(finance.value.sheets) else None
  }

  function ComparisonSchedules(rows: seq<Comparison>): (r: seq<string>)
    ensures |r| == |rows|
    ensures forall i :: 0 <= i < |rows| ==> r[i] == rows[i].schedule
  {
    Keys(rows, (x: Comparison) => x.schedule)
  }

  /** The comparison of usable lines against a Finance sheet: one row per
      schedule in ascending order, with the schedule's appeals total, its
      files and its variance; absent when there is no line or a lookup
      raises. */
  function CompareLines(lines: seq<AppealLine>, fin: Table, conv: Conversions)
    : (r: Option<seq<Comparison>>)
    ensures |lines| == 0 ==> r.None?
    ensures |lines| > 0 ==> (r.Some? <==> AllCompare(CalculateScheduleAmounts(Amounts(lines)), lines, fin, conv))
    ensures r.Some? ==>
              |r.value| > 0
              && StrictlySorted(ComparisonSchedules(r.value))
              && Elems(ComparisonSchedules(r.value)) == KeySet(Amounts(lines))
    ensures r.Some? ==>
              forall i :: 0 <= i < |r.value| ==>
                r.value[i].appeals == SumFor(Amounts(lines), r.value[i].schedule)
                && r.value[i].files == FilesCell(lines, r.value[i].schedule)
                && Balanced(r.value[i])
  {
    if |lines| == 0 then None
    else
      var groups := CalculateScheduleAmounts(Amounts(lines));
      var r := CompareGroups(groups, lines, fin, conv);
      CompareGroupsIff(groups, lines, fin, conv);
      if r.Some? then
        CompareGroupsRows(groups, lines, fin, conv);
        var rows := r.value;
        assert Amounts(lines)[0].schedule == lines[0].schedule;
        KeySetMember(Amounts(lines), lines[0].schedule);
        assert lines[0].schedule in Elems(ScheduleColumn(groups));
        assert |rows| == |groups| > 0;
        forall i | 0 <= i < |rows|
          ensures rows[i].appeals == SumFor(Amounts(lines), rows[i].schedule)
        {
          assert ComparisonSchedules(rows)[i] == ScheduleColumn(groups)[i];
        }
        r
      else r
  }

  /** Every row of the comparison is the Finance lookup of its own schedule
      and appeals total, so `CompareGroup`'s contract describes its Finance
      column: 0 where no batch cell contains the schedule, the sum of the
      advised amounts of the matching rows otherwise. */
  lemma CompareLinesRows(lines: seq<AppealLine>, fin: Table, conv: Conversions)
    requires CompareLines(lines, fin, conv).Some?
    ensures var r := CompareLines(lines, fin, conv).value;
            forall i :: 0 <= i < |r| ==>
              CompareGroup(ScheduleAmount(r[i].schedule, r[i].appeals), r[i].files, fin, conv) == Some(r[i])
  {
    var groups := CalculateScheduleAmounts(Amounts(lines));
    var r := CompareLines(lines, fin, conv).value;
    CompareGroupsRows(groups, lines, fin, conv);
    forall i | 0 <= i < |r|
      ensures CompareGroup(ScheduleAmount(r[i].schedule, r[i].appeals), r[i].files, fin, conv) == Some(r[i])
    {
      assert groups[i] == ScheduleAmount(r[i].schedule, r[i].appeals);
    }
  }

  /** `compare_with_finance`. The result is absent when there is nothing to
      compare or no readable Finance sheet, or when reading the appeals
      lines raises; otherwise it is the comparison of the usable lines. The
      frames are the compiled ones, with the template header, which places
      Source_File and the amount at `SourceFileIndex` and `AmountIndex`. */
  function CompareWithFinance(compiled: seq<Table>, finance: Option<Book>, conv: Conversions)
    : (r: Option<seq<Comparison>>)
    requires forall i :: 0 <= i < |compiled| ==> compiled[i].columns == TemplateColumns
    ensures |compiled| == 0 || FinanceTable(finance).None? ==> r.None?
    ensures AppealLines(compiled, conv).Err? ==> r.None?
    ensures |compiled| > 0 && FinanceTable(finance).Some? && AppealLines(compiled, conv).Ok? ==>
              r == CompareLines(AppealLines(compiled, conv).value, FinanceTable(finance).value, conv)
  {
    if |compiled| == 0 || FinanceTable(finance).None? then None
    else
      match AppealLines(compiled, conv)
      case Err(_) => None
      case Ok(lines) => CompareLines(lines, FinanceTable(finance).value, conv)
  }

  /** The Appeals_Amount column of a comparison keeps the total of the usable
      lines: grouping only redistributes the amounts. */
  lemma AppealsTotalPreserved(lines: seq<AppealLine>, fin: Table, conv: Conversions)
    requires CompareLines(lines, fin, conv).Some?
    ensures AppealsTotal(CompareLines(lines, fin, conv).value) == Total(Amounts(lines))
  {
    var groups := CalculateScheduleAmounts(Amounts(lines));
    var r := CompareLines(lines, fin, conv).value;
    CompareGroupsRows(groups, lines, fin, conv);
    AppealsTotalOfGroups(r, groups);
    AggregatePreservesTotal(Amounts(lines));
  }

  lemma {:induction false} AppealsTotalOfGroups(r: seq<Comparison>, groups: seq<ScheduleAmount>)
    requires |r| == |groups|
    requires forall i :: 0 <= i < |r| ==> r[i].appeals == groups[i].amount
    ensures AppealsTotal(r) == Total(groups)
  {
    if |r| > 0 {
      AppealsTotalOfGroups(r[..|r| - 1], groups[..|groups| - 1]);
    }
  }

  // ---------------------------------------------------------------------
  // Reading the comparison: the metrics and the e-mail selection

  /** `Finance_Amount == 0`: the schedule was not found in Finance (or its
      advised amounts sum to zero). */
  predicate MissingInFinance(c: Comparison) {
    c.finance == 0.0
  }

  /** `(Finance_Amount != 0) & (Variance != 0)`: found, with another amount. */
  predicate AmountMismatch(c: Comparison) {
    c.finance != 0.0 && c.variance != 0.0
  }

  /** Found in Finance with the same amount. */
  predicate Agreeing(c: Comparison) {
    c.finance != 0.0 && c.variance == 0.0
  }

  predicate VarianceNonzero(c: Comparison) {
    c.variance != 0.0
  }

  /** Missing in Finance with a zero appeals total: counted as missing but
      not as a variance. */
  predicate ZeroMissing(c: Comparison) {
    c.finance == 0.0 && c.variance == 0.0
  }

  /** The two e-mail tables: schedules missing in Finance, and schedules
      whose amounts differ. */
  function MissingSchedules(rows: seq<Comparison>): (r: seq<Comparison>)
    ensures forall c :: c in r <==> c in rows && MissingInFinance(c)
  {
    Filter(rows, MissingInFinance)
  }

  function AmountMismatches(rows: seq<Comparison>): (r: seq<Comparison>)
    ensures forall c :: c in r <==> c in rows && AmountMismatch(c)
  {
    Filter(rows, AmountMismatch)
  }

  /** No schedule is in both e-mail tables, and every schedule is in one of
      them or agrees with Finance. */
  lemma {:induction false} ClassificationPartition(rows: seq<Comparison>)
    ensures forall c :: !(c in MissingSchedules(rows) && c in AmountMismatches(rows))
    ensures Count(rows, MissingInFinance) + Count(rows, AmountMismatch) + Count(rows, Agreeing) == |rows|
    decreases |rows|
  {
    if |rows| > 0 {
      ClassificationPartition(rows[1..]);
    }
  }

  /** Every non-zero variance is a mismatch or a missing schedule, and every
      missing schedule has a non-zero variance unless its total is zero. */
  lemma {:induction false} VarianceSplit(rows: seq<Comparison>)
    ensures Count(rows, VarianceNonzero) + Count(rows, ZeroMissing)
            == Count(rows, AmountMismatch) + Count(rows, MissingInFinance)
    decreases |rows|
  {
    if |rows| > 0 {
      VarianceSplit(rows[1..]);
    }
  }

  lemma {:induction false} ZeroMissingAreMissing(rows: seq<Comparison>)
    ensures Count(rows, ZeroMissing) <= Count(rows, MissingInFinance)
    decreases |rows|
  {
    if |rows| > 0 {
      ZeroMissingAreMissing(rows[1..]);
    }
  }

  /** The "Amount Variances" metric as written: the rows with a non-zero
      variance less the rows missing in Finance. */
  function AmountVariancesAsWritten(rows: seq<Comparison>): (m: int)
    ensures m == Count(rows, AmountMismatch) - Count(rows, ZeroMissing)
  {
    VarianceSplit(rows);
    Count(rows, VarianceNonzero) - Count(rows, MissingInFinance)
  }

  /** The metric as intended: the number of schedules in the mismatch
      e-mail table. */
  function AmountVariances(rows: seq<Comparison>): (m: nat)
    ensures m == |AmountMismatches(rows)|
    ensures m == AmountVariancesAsWritten(rows) + Count(rows, ZeroMissing)
  {
    Count(rows, AmountMismatch)
  }

  /** Whether the e-mail section is offered does not depend on the slip:
      with no schedule missing the two counts agree, and with one missing the
      section is offered either way. */
  lemma EmailOfferedEitherWay(rows: seq<Comparison>)
    ensures (Count(rows, MissingInFinance) > 0 || AmountVariancesAsWritten(rows) > 0)
            <==> (Count(rows, MissingInFinance) > 0 || AmountVariances(rows) > 0)
  {
    ZeroMissingAreMissing(rows);
  }

  /** A schedule whose appeals lines sum to zero and that Finance does not
      list. */
  const ZeroSchedule: Comparison := Comparison("7", 0.0, 0.0, 0.0, "Schedule 7.xlsx")

  /** The comparison produces that row against a Finance sheet that has the
      batch column but no row for the schedule. */
  lemma ZeroScheduleArises(fin: Table, conv: Conversions)
    requires BatchColumn in fin.columns
    requires fin.rows == []
    ensures CompareGroup(ScheduleAmount("7", 0.0), "Schedule 7.xlsx", fin, conv) == Some(ZeroSchedule)
  {
  }

  /** On that row the metric as written shows -1 amount variances, while the
      mismatch table is empty. */
  lemma AmountVariancesSlip()
    ensures AmountVariancesAsWritten([ZeroSchedule]) == -1
    ensures AmountVariances([ZeroSchedule]) == 0
    ensures Count([ZeroSchedule], MissingInFinance) == 1
  {
    assert [ZeroSchedule][1..] == [];
  }

  /** `Variance.sum()`: the "Total Variance" metric. */
  function TotalVariance(rows: seq<Comparison>): real {
    if |rows| == 0 then 0.0 else TotalVariance(rows[..|rows| - 1]) + rows[|rows| - 1].variance
  }

  function AppealsTotal(rows: seq<Comparison>): real {
    if |rows| == 0 then 0.0 else AppealsTotal(rows[..|rows| - 1]) + rows[|rows| - 1].appeals
  }

  function FinanceTotal(rows: seq<Comparison>): real {
    if |rows| == 0 then 0.0 else FinanceTotal(rows[..|rows| - 1]) + rows[|rows| - 1].finance
  }

  /** The total variance is the appeals total less the Finance total. */
  lemma {:induction false} TotalVarianceIsDifference(rows: seq<Comparison>)
    requires forall i :: 0 <= i < |rows| ==> Balanced(rows[i])
    ensures TotalVariance(rows) == AppealsTotal(rows) - FinanceTotal(rows)
  {
    if |rows| > 0 {
      TotalVarianceIsDifference(rows[..|rows| - 1]);
    }
  }
}
