/** Spreadsheet cells and tables as the engine receives them from pandas, the
    conversions between text and numbers that the engine borrows from Python
    and pandas, and the detection of a column from a list of known aliases. */
module Cells {
  import opened Outcomes
  import opened Text

  /** One cell of a parsed sheet: pandas' missing value (NaN), a number, or
      text. Dates are not cells of this model; see the sequencer. */
  datatype Cell = Blank | Num(value: real) | Str(text: string)

  /** The library conversions the engine relies on, kept abstract:
      - `showNumber`: `str()` / `astype(str)` of a numeric cell, which depends
        on the column's dtype: an integer column shows 9497 as "9497", a float
        column (one with any blank) as "9497.0". A conversion is passed per
        call, so the Claims and Finance schedule columns may render
        differently, but the columns of one sheet share one rendering;
      - `numericText`: `pd.to_numeric(errors="coerce")` of a text cell, `None`
        where it coerces to NaN (it does not strip thousands separators);
      - `floatText`: Python's `float()` of a text, `None` where it raises. */
  datatype Conversions = Conversions(
    showNumber: real -> string,
    numericText: string -> Option<real>,
    floatText: string -> Option<real>)

  /** Python's `str(cell)` and pandas' `astype(str)`: NaN renders as "nan". */
  function Render(c: Cell, conv: Conversions): (r: string)
    ensures c.Str? ==> r == c.text
    ensures c.Blank? ==> r == "nan"
  {
    match c
    case Blank => "nan"
    case Num(v) => conv.showNumber(v)
    case Str(s) => s
  }

  /** `pd.to_numeric(cell, errors="coerce")`, with `None` for NaN. */
  function ToNumeric(c: Cell, conv: Conversions): (r: Option<real>)
    ensures c.Blank? ==> r.None?
    ensures c.Num? ==> r == Some(c.value)
  {
    match c
    case Blank => None
    case Num(v) => Some(v)
    case Str(s) => conv.numericText(s)
  }

  /** A parsed sheet: a header of column names and rows of cells. */
  datatype Table = Table(columns: seq<string>, rows: seq<seq<Cell>>)

  /** Every row has one cell per column, as in a pandas DataFrame. */
  predicate WellFormed(t: Table) {
    forall i :: 0 <= i < |t.rows| ==> |t.rows[i]| == |t.columns|
  }

  /** The position of the first column called `name`, as `df.columns.get_loc`
      finds it; `None` where `df[name]` raises `KeyError`. */
  function ColumnIndex(columns: seq<string>, name: string): (r: Option<nat>)
    ensures r.Some? <==> name in columns
    ensures r.Some? ==> r.value < |columns| && columns[r.value] == name
                        && name !in columns[..r.value]
  {
    if |columns| == 0 then None
    else if columns[0] == name then Some(0)
    else
      match ColumnIndex(columns[1..], name)
      case None => None
      case Some(i) =>
        assert columns[..i + 1] == [columns[0]] + columns[1..][..i];
        Some(i + 1)
  }

  /** Candidate `candidates[i]` is the first one present among `columns`. */
  predicate FirstPresentAt(columns: seq<string>, candidates: seq<string>, i: int) {
    0 <= i < |candidates| && candidates[i] in columns
    && forall j :: 0 <= j < i ==> candidates[j] !in columns
  }

  /** Alias-based column detection: the first candidate name that is a column
      of the table, or `None` when no candidate is. */
  function DetectColumn(columns: seq<string>, candidates: seq<string>): (r: Option<string>)
    ensures r.None? <==> forall j :: 0 <= j < |candidates| ==> candidates[j] !in columns
    ensures r.Some? ==> exists i :: FirstPresentAt(columns, candidates, i) && r.value == candidates[i]
    ensures r.Some? ==> r.value in columns
  {
    if |candidates| == 0 then None
    else if candidates[0] in columns then
      assert FirstPresentAt(columns, candidates, 0);
      Some(candidates[0])
    else
      var r := DetectColumn(columns, candidates[1..]);
      if r.Some? then
        var i :| FirstPresentAt(columns, candidates[1..], i) && r.value == candidates[1..][i];
        assert FirstPresentAt(columns, candidates, i + 1);
        r
      else r
  }

  /** `find_column_index`: the 1-based (Excel) position of the first column
      that matches one of the aliases, or `None` when none matches. */
  function FindColumnIndex(columns: seq<string>, aliases: seq<string>): (r: Option<nat>)
    ensures r.None? <==> forall j :: 0 <= j < |aliases| ==> aliases[j] !in columns
    ensures r.Some? ==> 1 <= r.value <= |columns|
                        && DetectColumn(columns, aliases) == Some(columns[r.value - 1])
  {
    match DetectColumn(columns, aliases)
    case None => None
    case Some(name) => Some(ColumnIndex(columns, name).value + 1)
  }

  // Column aliases written into the source, in the order they are tried.

  /** Schedule-number columns tried on both reports. */
  const ScheduleAliases: seq<string> :=
    ["SCH NO", "Claim Batch No/Sch No", "Schedule No", "Schedule Number", "SCH_NO"]

  /** Amount columns tried on the Claims report. */
  const ClaimsAmountAliases: seq<string> :=
    ["HOD RECOMMD. AMOUNT", "HOD AMOUNT", "RECOMMENDED AMOUNT", "AMOUNT"]

  /** Amount columns tried on the Finance report. */
  const FinanceAmountAliases: seq<string> :=
    ["Claims_Advised_Amount", "Advised_Amount", "Claim Amount", "AMOUNT"]

  /** Encounter-date columns (the claim-number formulas and the date check). */
  const EncounterDateAliases: seq<string> :=
    ["ENCOUNTER DATE (DD/MM/YYYY)", "ENCOUNTER_DATE_DD_MM_YYYY", "ENCOUNTER_DATE",
     "Encounter Date", "Encounter_Date", "ENC_DATE"]

  /** Claim-received-date columns; the first alias has a trailing space. */
  const ClaimReceivedAliases: seq<string> :=
    ["DATE CLAIM RECEIVED ", "DATE_CLAIM_RECEIVED", "Date Claim Received",
     "Date_Claim_Received", "CLAIM_RECEIVED_DATE"]

  const ProviderCodeAliases: seq<string> :=
    ["PROVIDER CODE", "PROVIDER_CODE", "Provider Code", "Provider_Code", "ProviderCode"]

  const EnrolleeNameAliases: seq<string> :=
    ["ENROLLEE NAME", "ENROLLEE_NAME", "Enrollee Name", "Enrollee_Name", "EnrolleeName"]

  const MemberNoAliases: seq<string> :=
    ["MEMBER NO", "MEMBER_NO", "Member No", "Member_No", "MemberNo", "Member Number"]

  /** A sheet headed "Schedule No" and "AMOUNT" (and not "SCH NO") has its
      schedule column detected as "Schedule No" and its Claims amount column
      as "AMOUNT", the last alias. */
  lemma DetectionExample()
    ensures DetectColumn(["S/N", "Schedule No", "AMOUNT"], ScheduleAliases) == Some("Schedule No")
    ensures DetectColumn(["S/N", "Schedule No", "AMOUNT"], ClaimsAmountAliases) == Some("AMOUNT")
    ensures DetectColumn(["S/N", "AMOUNT"], ScheduleAliases) == None
  {
    var cols := ["S/N", "Schedule No", "AMOUNT"];
    assert "SCH NO" !in cols && "Claim Batch No/Sch No" !in cols && "Schedule No" in cols;
    assert "HOD RECOMMD. AMOUNT" !in cols && "HOD AMOUNT" !in cols
        && "RECOMMENDED AMOUNT" !in cols && "AMOUNT" in cols;
    var cols2 := ["S/N", "AMOUNT"];
    assert forall j :: 0 <= j < |ScheduleAliases| ==> ScheduleAliases[j] !in cols2;
  }
}
