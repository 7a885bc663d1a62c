/** The Claims-against-Finance dashboard: the tolerance classification of the
    reconciliation report, the counts and totals shown above it, the pie
    chart of the summary, and the check that no encounter is dated after its
    claim was received. */
module Metrics {
  import opened Outcomes
  import opened Ordering
  import opened Cells
  import opened Schedules
  import opened Sequencer
  import opened Appeals

  // ---------------------------------------------------------------------
  // The report the dashboard reads

  /** The report the reconciliation manager sees: both extracts grouped by
      schedule number, then joined. */
  function Report(claimsData: seq<ScheduleAmount>, financeData: seq<ScheduleAmount>): (r: seq<ReportRow>)
    ensures StrictlySorted(RowSchedules(r))
    ensures Elems(RowSchedules(r)) == KeySet(claimsData) + KeySet(financeData)
  {
    AggregateUnique(claimsData);
    AggregateUnique(financeData);
    GenerateReconciliationReport(CalculateScheduleAmounts(claimsData), CalculateScheduleAmounts(financeData))
  }

  /** The Claims side of a report row is the Claims total of the schedule,
      absent exactly when Claims never mentions it. */
  lemma ReportClaims(claimsData: seq<ScheduleAmount>, financeData: seq<ScheduleAmount>)
    ensures var r := Report(claimsData, financeData);
            forall i :: 0 <= i < |r| ==>
              r[i].claims == if r[i].schedule in KeySet(claimsData)
                             then Some(SumFor(claimsData, r[i].schedule)) else None
  {
    var ca := CalculateScheduleAmounts(claimsData);
    var fa := CalculateScheduleAmounts(financeData);
    AggregateUnique(claimsData);
    AggregateUnique(financeData);
    var r := Report(claimsData, financeData);
    assert r == GenerateReconciliationReport(ca, fa);
    forall i | 0 <= i < |r|
      ensures r[i].claims == if r[i].schedule in KeySet(claimsData)
                             then Some(SumFor(claimsData, r[i].schedule)) else None
    {
      TotalOfSide(ca, claimsData, r[i].schedule, r[i].claims);
    }
  }

  /** Likewise the Finance side. */
  lemma ReportFinance(claimsData: seq<ScheduleAmount>, financeData: seq<ScheduleAmount>)
    ensures var r := Report(claimsData, financeData);
            forall i :: 0 <= i < |r| ==>
              r[i].finance == if r[i].schedule in KeySet(financeData)
                              then Some(SumFor(financeData, r[i].schedule)) else None
  {
    var ca := CalculateScheduleAmounts(claimsData);
    var fa := CalculateScheduleAmounts(financeData);
    AggregateUnique(claimsData);
    AggregateUnique(financeData);
    var r := Report(claimsData, financeData);
    assert r == GenerateReconciliationReport(ca, fa);
    forall i | 0 <= i < |r|
      ensures r[i].finance == if r[i].schedule in KeySet(financeData)
                              then Some(SumFor(financeData, r[i].schedule)) else None
    {
      TotalOfSide(fa, financeData, r[i].schedule, r[i].finance);
    }
  }

  /** The amount stored for a schedule in a grouped side is its total. */
  lemma TotalOfSide(grouped: seq<ScheduleAmount>, data: seq<ScheduleAmount>, k: string, v: Option<real>)
    requires grouped == CalculateScheduleAmounts(data)
    requires v.Some? <==> k in KeySet(grouped)
    requires v.Some? ==> ScheduleAmount(k, v.value) in grouped
    ensures v == if k in KeySet(data) then Some(SumFor(data, k)) else None
  {
    if v.Some? {
      var j :| 0 <= j < |grouped| && grouped[j] == ScheduleAmount(k, v.value);
    }
  }

  // ---------------------------------------------------------------------
  // Tolerance classification

  /** Amounts closer than this count as equal. */
  const Tolerance: real := 0.01

  function Abs(x: real): (r: real)
    ensures r >= 0.0
    ensures r == x || r == -x
  {
    if x < 0.0 then -x else x
  }

  /** Neither amount is NaN: the row survives `dropna` and
      `~isna().any(axis=1)` (the difference is NaN exactly when an amount is). */
  predicate BothPresent(row: ReportRow) {
    row.claims.Some? && row.finance.Some?
  }

  predicate HasMissing(row: ReportRow) {
    !BothPresent(row)
  }

  /** Both amounts present and further apart than the tolerance. */
  predicate IsAmountMismatch(row: ReportRow) {
    BothPresent(row) && Abs(row.claims.value - row.finance.value) > Tolerance
  }

  /** Both amounts present and within the tolerance. */
  predicate IsMatching(row: ReportRow) {
    BothPresent(row) && Abs(row.claims.value - row.finance.value) <= Tolerance
  }

  /** The colour `highlight_diff` gives a report row. */
  datatype Highlight = Yellow | Coral | Plain

  function HighlightOf(row: ReportRow): (h: Highlight)
    ensures h == Yellow <==> HasMissing(row)
    ensures h == Coral <==> IsAmountMismatch(row)
    ensures h == Plain <==> IsMatching(row)
  {
    if !BothPresent(row) then Yellow
    else if Abs(row.claims.value - row.finance.value) > Tolerance then Coral
    else Plain
  }

  /** A gap of 0.005 is within the tolerance; one of 0.02 is not; a row
      missing a side is never a mismatch. */
  lemma ToleranceExamples()
    ensures IsMatching(ReportRow("1", Some(100.0), Some(100.005), Some(-0.005)))
    ensures IsAmountMismatch(ReportRow("2", Some(100.0), Some(100.02), Some(-0.02)))
    ensures HighlightOf(ReportRow("3", Some(100.0), None, None)) == Yellow
  {
  }

  /** Every row is exactly one of matching, mismatching or missing a side,
      so the matching and mismatching rows are the rows with both sides. */
  lemma {:induction false} ClassificationCounts(rows: seq<ReportRow>)
    ensures Count(rows, IsMatching) + Count(rows, IsAmountMismatch) == Count(rows, BothPresent)
    ensures Count(rows, BothPresent) + Count(rows, HasMissing) == |rows|
    decreases |rows|
  {
    if |rows| > 0 {
      ClassificationCounts(rows[1..]);
    }
  }

  /** The "Amount Discrepancies" rows: the mismatches, in report order. */
  function AmountMismatchRows(report: seq<ReportRow>): (r: seq<ReportRow>)
    ensures forall row :: row in r <==> row in report && IsAmountMismatch(row)
    ensures |r| == Count(report, IsAmountMismatch)
  {
    Filter(report, IsAmountMismatch)
  }

  /** The "Matching Amounts" metric. */
  function MatchingCount(report: seq<ReportRow>): (n: nat)
    ensures n + Count(report, IsAmountMismatch) == Count(report, BothPresent)
  {
    ClassificationCounts(report);
    Count(report, IsMatching)
  }

  // ---------------------------------------------------------------------
  // Counting schedules

  /** The schedules of the rows with both sides. */
  function BothKeys(rows: seq<ReportRow>): set<string> {
    if |rows| == 0 then {}
    else (if BothPresent(rows[0]) then {rows[0].schedule} else {}) + BothKeys(rows[1..])
  }

  lemma {:induction false} BothKeysMember(rows: seq<ReportRow>, k: string)
    ensures k in BothKeys(rows) <==> exists i :: 0 <= i < |rows| && BothPresent(rows[i]) && rows[i].schedule == k
    decreases |rows|
  {
    if |rows| > 0 {
      var t := rows[1..];
      BothKeysMember(t, k);
      if k in BothKeys(t) {
        var i :| 0 <= i < |t| && BothPresent(t[i]) && t[i].schedule == k;
        assert rows[i + 1] == t[i];
      }
      if exists i :: 0 <= i < |rows| && BothPresent(rows[i]) && rows[i].schedule == k {
        var i :| 0 <= i < |rows| && BothPresent(rows[i]) && rows[i].schedule == k;
        if i > 0 {
          assert t[i - 1] == rows[i];
        }
      }
    }
  }

  /** Rows with distinct schedules count as many as their schedules. */
  lemma {:induction false} CountIsCard(rows: seq<ReportRow>)
    requires Distinct(RowSchedules(rows))
    ensures Count(rows, BothPresent) == |BothKeys(rows)|
    decreases |rows|
  {
    if |rows| > 0 {
      var t := rows[1..];
      assert Distinct(RowSchedules(t)) by {
        forall i, j | 0 <= i < j < |t| ensures t[i].schedule != t[j].schedule {
          assert RowSchedules(rows)[i + 1] == t[i].schedule;
          assert RowSchedules(rows)[j + 1] == t[j].schedule;
        }
      }
      CountIsCard(t);
      BothKeysMember(t, rows[0].schedule);
      assert rows[0].schedule !in BothKeys(t) by {
        forall i | 0 <= i < |t| ensures t[i].schedule != rows[0].schedule {
          assert RowSchedules(rows)[i + 1] == t[i].schedule;
          assert RowSchedules(rows)[0] == rows[0].schedule;
        }
      }
    }
  }

  /** On a report whose sides are present exactly for the keys of `a` and
      of `b`, and which has a row for every key of `a * b`, the rows with both
      sides are those of `a * b`. */
  lemma BothPresentKeysOf(r: seq<ReportRow>, a: set<string>, b: set<string>)
    requires forall k :: k in a * b ==> exists i :: 0 <= i < |r| && r[i].schedule == k
    requires forall i :: 0 <= i < |r| ==> (r[i].claims.Some? <==> r[i].schedule in a)
    requires forall i :: 0 <= i < |r| ==> (r[i].finance.Some? <==> r[i].schedule in b)
    ensures BothKeys(r) == a * b
  {
    forall k | k in a * b
      ensures k in BothKeys(r)
    {
      var i :| 0 <= i < |r| && r[i].schedule == k;
      BothKeysMember(r, k);
    }
    forall k | k in BothKeys(r)
      ensures k in a * b
    {
      BothKeysMember(r, k);
    }
  }

  /** The rows with both sides are those of the schedules both sides have. */
  lemma BothPresentKeys(claimsData: seq<ScheduleAmount>, financeData: seq<ScheduleAmount>)
    ensures BothKeys(Report(claimsData, financeData)) == KeySet(claimsData) * KeySet(financeData)
  {
    var r := Report(claimsData, financeData);
    ReportClaims(claimsData, financeData);
    ReportFinance(claimsData, financeData);
    forall k | k in KeySet(claimsData) * KeySet(financeData)
      ensures exists i :: 0 <= i < |r| && r[i].schedule == k
    {
      assert k in Elems(RowSchedules(r));
      var i :| 0 <= i < |r| && RowSchedules(r)[i] == k;
    }
    BothPresentKeysOf(r, KeySet(claimsData), KeySet(financeData));
  }

  /** `len(claims_amounts)`: one grouped row per Claims schedule. */
  function TotalClaimsSchedules(claimsData: seq<ScheduleAmount>): (n: nat)
    ensures n == |KeySet(claimsData)|
  {
    var ca := CalculateScheduleAmounts(claimsData);
    AggregateUnique(claimsData);
    DistinctCard(ScheduleColumn(ca));
    |ca|
  }

  /** Every Claims schedule is missing in Finance, matching, or mismatching. */
  lemma ClaimsSchedulesSplit(claimsData: seq<ScheduleAmount>, financeData: seq<ScheduleAmount>)
    ensures var report := Report(claimsData, financeData);
            TotalClaimsSchedules(claimsData)
            == MatchingCount(report) + |KeySet(claimsData) - KeySet(financeData)| + Count(report, IsAmountMismatch)
  {
    var report := Report(claimsData, financeData);
    var a, b := KeySet(claimsData), KeySet(financeData);
    StrictlySortedIsDistinct(RowSchedules(report));
    CountIsCard(report);
    BothPresentKeys(claimsData, financeData);
    SplitCard(a, b);
  }

  /** The "Discrepancies" metric: Claims schedules less matching ones. It is
      never negative, being the Claims schedules missing in Finance plus the
      mismatching ones. */
  function Discrepancies(claimsData: seq<ScheduleAmount>, financeData: seq<ScheduleAmount>): (d: nat)
    ensures d == |KeySet(claimsData) - KeySet(financeData)|
                 + Count(Report(claimsData, financeData), IsAmountMismatch)
  {
    ClaimsSchedulesSplit(claimsData, financeData);
    TotalClaimsSchedules(claimsData) - MatchingCount(Report(claimsData, financeData))
  }

  // ---------------------------------------------------------------------
  // The pie chart of the summary

  /** The three slices: matching amounts, missing in Finance, amount
      mismatches. */
  datatype Pie = Pie(matching: nat, missing: nat, mismatches: nat)

  /** `max(0, v)`. */
  function Clamp(v: int): (r: nat)
    ensures r >= v
    ensures r == v || r == 0
  {
    if v < 0 then 0 else v
  }

  /** The slices as written: the missing slice counts the Claims rows of the
      missing schedules, not the schedules, so it never undercounts them and
      the mismatch slice never overcounts. */
  function PieAsWritten(claimsData: seq<ScheduleAmount>, financeData: seq<ScheduleAmount>): (p: Pie)
    ensures p.matching == MatchingCount(Report(claimsData, financeData))
    ensures p.missing >= |KeySet(claimsData) - KeySet(financeData)|
    ensures p.mismatches <= Count(Report(claimsData, financeData), IsAmountMismatch)
  {
    var missing := FindMissingSchedules(claimsData, financeData);
    MissingKeys(claimsData, financeData);
    ElemsCard(ScheduleColumn(missing));
    Pie(Clamp(MatchingCount(Report(claimsData, financeData))),
        Clamp(|missing|),
        Clamp(Discrepancies(claimsData, financeData) - |missing|))
  }

  /** The slices as intended: missing schedules counted once each, so the
      mismatch slice is the number of "Amount Discrepancies" rows and the
      three slices partition the Claims schedules. */
  function PieIntended(claimsData: seq<ScheduleAmount>, financeData: seq<ScheduleAmount>): (p: Pie)
    ensures p.missing == |KeySet(claimsData) - KeySet(financeData)|
    ensures p.mismatches == |AmountMismatchRows(Report(claimsData, financeData))|
    ensures p.matching + p.missing + p.mismatches == TotalClaimsSchedules(claimsData)
  {
    var report := Report(claimsData, financeData);
    var missingKeys := KeySet(FindMissingSchedules(claimsData, financeData));
    MissingKeys(claimsData, financeData);
    var d := Discrepancies(claimsData, financeData);
    ClaimsSchedulesSplit(claimsData, financeData);
    Pie(MatchingCount(report), |missingKeys|, d - |missingKeys|)
  }

  /** A Claims extract listing schedule 5 on two rows, against a Finance
      extract without it: the missing slice shows two where one schedule is
      missing, and the slices add up to more than the Claims schedules. */
  lemma PieSlip()
    ensures var cd := [ScheduleAmount("5", 100.0), ScheduleAmount("5", 50.0)];
            && TotalClaimsSchedules(cd) == 1
            && PieAsWritten(cd, []).missing == 2
            && PieIntended(cd, []).missing == 1
  {
    SlipSchedules();
    SlipAsWritten();
    SlipIntended();
  }

  lemma SlipSchedules()
    ensures TotalClaimsSchedules([ScheduleAmount("5", 100.0), ScheduleAmount("5", 50.0)]) == 1
  {
    SlipKeys();
  }

  lemma SlipAsWritten()
    ensures PieAsWritten([ScheduleAmount("5", 100.0), ScheduleAmount("5", 50.0)], []).missing == 2
  {
    MissingFromEmpty([ScheduleAmount("5", 100.0), ScheduleAmount("5", 50.0)]);
  }

  lemma SlipIntended()
    ensures PieIntended([ScheduleAmount("5", 100.0), ScheduleAmount("5", 50.0)], []).missing == 1
  {
    SlipKeys();
    assert KeySet([ScheduleAmount("5", 100.0), ScheduleAmount("5", 50.0)]) - KeySet([]) == {"5"};
  }

  lemma SlipKeys()
    ensures KeySet([ScheduleAmount("5", 100.0), ScheduleAmount("5", 50.0)]) == {"5"}
    ensures KeySet([]) == {}
  {
    var cd := [ScheduleAmount("5", 100.0), ScheduleAmount("5", 50.0)];
    assert ScheduleColumn(cd) == ["5", "5"] by {
      assert cd[..1] == [ScheduleAmount("5", 100.0)];
      assert cd[..1][..0] == [];
    }
  }

  // ---------------------------------------------------------------------
  // The financial summary

  /** Claims amount where present, 0 otherwise. */
  function ClaimsColumn(report: seq<ReportRow>): (r: seq<ScheduleAmount>)
    ensures |r| == |report|
    ensures forall i :: 0 <= i < |report| ==>
              r[i] == ScheduleAmount(report[i].schedule,
                                     if report[i].claims.Some? then report[i].claims.value else 0.0)
  {
    seq(|report|, i requires 0 <= i < |report| =>
      ScheduleAmount(report[i].schedule, if report[i].claims.Some? then report[i].claims.value else 0.0))
  }

  /** Finance amount on the rows with both sides, 0 otherwise. */
  function MatchedFinanceColumn(report: seq<ReportRow>): (r: seq<ScheduleAmount>)
    ensures |r| == |report|
    ensures forall i :: 0 <= i < |report| ==>
              r[i] == ScheduleAmount(report[i].schedule,
                                     if BothPresent(report[i]) then report[i].finance.value else 0.0)
  {
    seq(|report|, i requires 0 <= i < |report| =>
      ScheduleAmount(report[i].schedule, if BothPresent(report[i]) then report[i].finance.value else 0.0))
  }

  /** The difference on the rows with both sides, 0 otherwise. */
  function MatchedDifferenceColumn(report: seq<ReportRow>): (r: seq<ScheduleAmount>)
    ensures |r| == |report|
    ensures forall i :: 0 <= i < |report| ==>
              r[i] == ScheduleAmount(report[i].schedule,
                                     if BothPresent(report[i])
                                     then report[i].claims.value - report[i].finance.value else 0.0)
  {
    seq(|report|, i requires 0 <= i < |report| =>
      ScheduleAmount(report[i].schedule,
                     if BothPresent(report[i]) then report[i].claims.value - report[i].finance.value else 0.0))
  }

  /** The Claims amount of the schedules Finance lacks, 0 otherwise. */
  function ClaimsOnlyColumn(report: seq<ReportRow>): (r: seq<ScheduleAmount>)
    ensures |r| == |report|
    ensures forall i :: 0 <= i < |report| ==>
              r[i] == ScheduleAmount(report[i].schedule,
                                     if report[i].claims.Some? && report[i].finance.None?
                                     then report[i].claims.value else 0.0)
  {
    seq(|report|, i requires 0 <= i < |report| =>
      ScheduleAmount(report[i].schedule,
                     if report[i].claims.Some? && report[i].finance.None? then report[i].claims.value else 0.0))
  }

  /** The report's Claims column adds up to the Claims extract. */
  lemma ClaimsColumnTotal(claimsData: seq<ScheduleAmount>, financeData: seq<ScheduleAmount>)
    ensures Total(ClaimsColumn(Report(claimsData, financeData))) == Total(claimsData)
  {
    var r := Report(claimsData, financeData);
    var ks := RowSchedules(r);
    ReportClaims(claimsData, financeData);
    forall i | 0 <= i < |r| && r[i].schedule !in KeySet(claimsData)
      ensures SumFor(claimsData, r[i].schedule) == 0.0
    {
      SumForAbsent(claimsData, r[i].schedule);
    }
    assert ClaimsColumn(r) == Totals(claimsData, ks);
    StrictlySortedIsDistinct(ks);
    TotalsCover(claimsData, ks);
  }

  /** Sums are additive over columns that add up entry by entry. */
  lemma {:induction false} TotalOfSum(a: seq<ScheduleAmount>, b: seq<ScheduleAmount>, c: seq<ScheduleAmount>)
    requires |a| == |b| == |c|
    requires forall i :: 0 <= i < |a| ==> a[i].amount == b[i].amount + c[i].amount
    ensures Total(a) == Total(b) + Total(c)
  {
    if |a| > 0 {
      TotalOfSum(a[..|a| - 1], b[..|b| - 1], c[..|c| - 1]);
    }
  }

  /** "Total Claims Amount". */
  function TotalClaimsAmount(claimsData: seq<ScheduleAmount>): (t: real)
    ensures t == Total(claimsData)
  {
    AggregatePreservesTotal(claimsData);
    Total(CalculateScheduleAmounts(claimsData))
  }

  /** "Matching Finance Amount": Finance over the schedules both sides have. */
  function MatchingFinanceAmount(claimsData: seq<ScheduleAmount>, financeData: seq<ScheduleAmount>): real {
    Total(MatchedFinanceColumn(Report(claimsData, financeData)))
  }

  /** On any report, the Claims column splits into the matching Finance
      amounts, the differences on the rows with both sides, and the Claims
      amounts Finance lacks. */
  lemma ClaimsColumnSplit(r: seq<ReportRow>)
    ensures Total(ClaimsColumn(r))
            == Total(MatchedFinanceColumn(r)) + Total(MatchedDifferenceColumn(r)) + Total(ClaimsOnlyColumn(r))
  {
    var sides := seq(|r|, i requires 0 <= i < |r| =>
      ScheduleAmount(r[i].schedule, MatchedDifferenceColumn(r)[i].amount + ClaimsOnlyColumn(r)[i].amount));
    TotalOfSum(ClaimsColumn(r), MatchedFinanceColumn(r), sides);
    TotalOfSum(sides, MatchedDifferenceColumn(r), ClaimsOnlyColumn(r));
  }

  /** "Total Variance": the Claims total less the matching Finance amount,
      which is the sum of the differences on the schedules both sides have
      plus the Claims amounts Finance lacks. */
  function TotalVariance(claimsData: seq<ScheduleAmount>, financeData: seq<ScheduleAmount>): (v: real)
    ensures var r := Report(claimsData, financeData);
            v == Total(MatchedDifferenceColumn(r)) + Total(ClaimsOnlyColumn(r))
  {
    ClaimsColumnTotal(claimsData, financeData);
    ClaimsColumnSplit(Report(claimsData, financeData));
    TotalClaimsAmount(claimsData) - MatchingFinanceAmount(claimsData, financeData)
  }

  // ---------------------------------------------------------------------
  // Encounter dates after the claim was received

  /** A `Timestamp`: a calendar date and the time of day, as a count of a
      fixed unit (seconds in the example below) since midnight. */
  datatype Moment = Moment(date: Date, time: nat)

  /** `a > b` on calendar dates: later year, or same year and later month,
      or same month and later day. */
  predicate DayAfter(a: Date, b: Date) {
    a.year > b.year
    || (a.year == b.year && a.month > b.month)
    || (a.year == b.year && a.month == b.month && a.day > b.day)
  }

  /** `a > b` on timestamps: a later date, or the same date and a later
      time of day. */
  predicate After(a: Moment, b: Moment) {
    DayAfter(a.date, b.date) || (a.date == b.date && a.time > b.time)
  }

  /** `After` is a strict total order. */
  lemma AfterOrder(a: Moment, b: Moment, c: Moment)
    ensures !After(a, a)
    ensures After(a, b) && After(b, c) ==> After(a, c)
    ensures a != b ==> After(a, b) || After(b, a)
    ensures !(After(a, b) && After(b, a))
  {
  }

  /** One row of the date-error e-mail. */
  datatype DateError = DateError(schedule: string, encounter: Date, received: Date)

  /** The schedule text of a row: `str(cell)` of the schedule column, or
      "Unknown" when the table has no such column. */
  function ScheduleText(row: seq<Cell>, columns: seq<string>, scheduleCol: string, conv: Conversions): string {
    match ColumnIndex(columns, scheduleCol)
    case None => "Unknown"
    case Some(si) => Render(CellAt(row, si), conv)
  }

  /** The error a row raises: both timestamps parse and the encounter is
      later. The record keeps only the dates, as `strftime('%d/%m/%Y')`
      drops the time of day. */
  function DateErrorOf(row: seq<Cell>, columns: seq<string>, ei: nat, ri: nat, scheduleCol: string,
                       toDate: Cell -> Option<Moment>, conv: Conversions): (r: Option<DateError>)
    ensures r.Some? <==> toDate(CellAt(row, ei)).Some? && toDate(CellAt(row, ri)).Some?
                         && After(toDate(CellAt(row, ei)).value, toDate(CellAt(row, ri)).value)
    ensures r.Some? ==> r.value.encounter == toDate(CellAt(row, ei)).value.date
                        && r.value.received == toDate(CellAt(row, ri)).value.date
  {
    var enc := toDate(CellAt(row, ei));
    var rec := toDate(CellAt(row, ri));
    if enc.Some? && rec.Some? && After(enc.value, rec.value)
    then Some(DateError(ScheduleText(row, columns, scheduleCol, conv), enc.value.date, rec.value.date))
    else None
  }

  /** An encounter later on the day the claim was received is flagged, and
      its record shows the same date twice. */
  lemma SameDayLaterTime(scheduleCol: string, conv: Conversions, toDate: Cell -> Option<Moment>)
    requires toDate(Str("2024-05-01 15:00")) == Some(Moment(Date(1, 5, 2024), 54000))
    requires toDate(Str("2024-05-01 09:00")) == Some(Moment(Date(1, 5, 2024), 32400))
    ensures var row := [Str("2024-05-01 15:00"), Str("2024-05-01 09:00")];
            var r := DateErrorOf(row, [], 0, 1, scheduleCol, toDate, conv);
            r.Some? && r.value.encounter == r.value.received == Date(1, 5, 2024)
  {
    var row := [Str("2024-05-01 15:00"), Str("2024-05-01 09:00")];
    assert CellAt(row, 0) == Str("2024-05-01 15:00");
    assert CellAt(row, 1) == Str("2024-05-01 09:00");
  }

  /** The date check over the Claims table. `toDate` is
      `pd.to_datetime(errors="coerce")`, `None` for NaT. */
  function DateErrors(t: Table, scheduleCol: string, toDate: Cell -> Option<Moment>, conv: Conversions)
    : (r: seq<DateError>)
    ensures (DetectColumn(t.columns, EncounterDateAliases).None?
             || DetectColumn(t.columns, ClaimReceivedAliases).None?) ==> r == []
    ensures |r| <= |t.rows|
  {
    match (DetectColumn(t.columns, EncounterDateAliases), DetectColumn(t.columns, ClaimReceivedAliases))
    case (Some(e), Some(c)) =>
      var ei := ColumnIndex(t.columns, e).value;
      var ri := ColumnIndex(t.columns, c).value;
      Collect(t.rows, (row: seq<Cell>) => DateErrorOf(row, t.columns, ei, ri, scheduleCol, toDate, conv))
    case _ => []
  }

  /** Both timestamps of `row` parse, the encounter is later, and `x`
      carries their dates. */
  predicate FlaggedAs(row: seq<Cell>, ei: nat, ri: nat, toDate: Cell -> Option<Moment>, x: DateError) {
    && toDate(CellAt(row, ei)).Some? && toDate(CellAt(row, ri)).Some?
    && After(toDate(CellAt(row, ei)).value, toDate(CellAt(row, ri)).value)
    && x.encounter == toDate(CellAt(row, ei)).value.date
    && x.received == toDate(CellAt(row, ri)).value.date
  }

  /** With both date columns present, a date error is reported exactly for
      each row whose two dates parse and are in the wrong order. */
  lemma DateErrorsExact(t: Table, scheduleCol: string, toDate: Cell -> Option<Moment>, conv: Conversions,
                        e: string, c: string)
    requires DetectColumn(t.columns, EncounterDateAliases) == Some(e)
    requires DetectColumn(t.columns, ClaimReceivedAliases) == Some(c)
    ensures var ei, ri := ColumnIndex(t.columns, e).value, ColumnIndex(t.columns, c).value;
            forall x :: x in DateErrors(t, scheduleCol, toDate, conv) <==>
              exists i :: 0 <= i < |t.rows| && FlaggedAs(t.rows[i], ei, ri, toDate, x)
                          && x.schedule == ScheduleText(t.rows[i], t.columns, scheduleCol, conv)
  {
    var ei := ColumnIndex(t.columns, e).value;
    var ri := ColumnIndex(t.columns, c).value;
    CollectMembers(t.rows, (row: seq<Cell>) => DateErrorOf(row, t.columns, ei, ri, scheduleCol, toDate, conv));
  }
}
