/** The values of the four formula columns that `generate_enhanced_claims_excel`
    (utils.py) writes into the enhanced Claims workbook: ClaimBatch, the
    per-enrollee counter ClaimNoFnx, ClaimNo and Correct_ClaimNo. The model
    computes what the formulas evaluate to in Excel, not the formula text. */
module Sequencer {
  import opened Outcomes
  import opened Text
  import opened Cells
  import Ordering

  /** A calendar date as Excel's DAY, MONTH and YEAR report it. */
  datatype Date = Date(day: nat, month: nat, year: nat)

  predicate ValidDate(d: Date) {
    1 <= d.day <= 31 && 1 <= d.month <= 12 && 1900 <= d.year <= 9999
  }

  /** A date cell of the written sheet: empty, a date, or text that Excel
      cannot read as a date. */
  datatype DateCell = EmptyDate | DateValue(date: Date) | NotADate(text: string)

  /** Excel's DAY/MONTH/YEAR of a cell. An empty cell is the serial number 0,
      which Excel shows as day 0 of January 1900; text is a `#VALUE!` error. */
  function Parts(c: DateCell): (r: Option<Date>)
    ensures r.None? <==> c.NotADate?
    ensures c.DateValue? ==> r == Some(c.date)
    ensures c.EmptyDate? ==> r == Some(Date(0, 1, 1900))
  {
    match c
    case EmptyDate => Some(Date(0, 1, 1900))
    case DateValue(d) => Some(d)
    case NotADate(_) => None
  }

  /** A cell Excel reads as a date of the calendar (or the empty date). */
  predicate Readable(c: DateCell) {
    c.EmptyDate? || (c.DateValue? && ValidDate(c.date))
  }

  /** The values one Claims row holds in the five located columns (text as the
      workbook shows it). */
  datatype ClaimRow = ClaimRow(
    provider: string,
    encounter: DateCell,
    received: DateCell,
    enrollee: string,
    member: string)

  /** What a formula cell evaluates to. */
  datatype Value = TextValue(text: string) | NumberValue(number: nat) | ValueError

  /** Excel's `=` on two texts, which ignores ASCII case. The sequencer takes
      text equality as a parameter; this is the instance Excel applies. */
  predicate ExcelSame(a: string, b: string) {
    Upper(a) == Upper(b)
  }

  // ---------------------------------------------------------------------
  // Column location

  /** The ten columns appended to the Claims table, in order. */
  const AddedColumns: seq<string> :=
    ["ReviewedDate", "PostedDate", "PaidDate", "ClaimBatch", "ClaimNoFnx", "ClaimNo",
     "Correct_ClaimNo", "Benefits", "ProviderClass", "OpdIpd"]

  /** The columns that `extra` appends to `columns`: assigning a column that
      already exists overwrites it in place. */
  function Append(columns: seq<string>, extra: seq<string>): (r: seq<string>)
    ensures |columns| <= |r| <= |columns| + |extra|
    ensures r[..|columns|] == columns
    ensures forall c :: c in r <==> c in columns || c in extra
    ensures forall i :: |columns| <= i < |r| ==> r[i] !in r[..i]
    decreases |extra|
  {
    if |extra| == 0 then columns
    else
      var next := if extra[0] in columns then columns else columns + [extra[0]];
      var r := Append(next, extra[1..]);
      assert r[..|columns|] == r[..|next|][..|columns|];
      assert forall c :: c in extra <==> c == extra[0] || c in extra[1..];
      assert forall i :: |columns| <= i < |r| ==> r[i] !in r[..i] by {
        if next != columns {
          assert r[..|next|] == next;
          assert r[|columns|] == next[|columns|] == extra[0];
          assert r[..|columns|] == columns;
        }
      }
      r
  }

  /** The names of `extra` that `columns` lacks, in the order of `extra`. */
  function Absent(columns: seq<string>, extra: seq<string>): (r: seq<string>)
    ensures forall c :: c in r <==> c in extra && c !in columns
  {
    if |extra| == 0 then []
    else (if extra[0] in columns then [] else [extra[0]]) + Absent(columns, extra[1..])
  }

  /** When `extra` repeats no name, appending it adds exactly the names the
      header lacks, in the order given, after the original columns. */
  lemma {:induction false} AppendDistinct(columns: seq<string>, extra: seq<string>)
    requires Ordering.Distinct(extra)
    ensures Append(columns, extra) == columns + Absent(columns, extra)
    decreases |extra|
  {
    if |extra| > 0 {
      var x := extra[0];
      var rest := extra[1..];
      DistinctTail(extra);
      AppendStep(columns, extra);
      if x in columns {
        AppendDistinct(columns, rest);
      } else {
        var next := columns + [x];
        AppendDistinct(next, rest);
        AbsentAfter(columns, x, rest);
        Associate(columns, [x], Absent(columns, rest));
      }
    }
  }

  lemma Associate(a: seq<string>, x: seq<string>, b: seq<string>)
    ensures (a + x) + b == a + (x + b)
  {
  }

  lemma DistinctTail(names: seq<string>)
    requires Ordering.Distinct(names) && |names| > 0
    ensures Ordering.Distinct(names[1..]) && names[0] !in names[1..]
  {
    var rest := names[1..];
    forall i, j | 0 <= i < j < |rest| ensures rest[i] != rest[j] {
      assert rest[i] == names[i + 1] && rest[j] == names[j + 1];
    }
    forall j | 0 <= j < |rest| ensures rest[j] != names[0] {
      assert rest[j] == names[j + 1];
    }
  }

  /** One step of Append and of Absent. */
  lemma AppendStep(columns: seq<string>, extra: seq<string>)
    requires |extra| > 0
    ensures Append(columns, extra)
            == Append(if extra[0] in columns then columns else columns + [extra[0]], extra[1..])
    ensures Absent(columns, extra)
            == (if extra[0] in columns then [] else [extra[0]]) + Absent(columns, extra[1..])
  {
  }

  /** Adding a name that `rest` does not hold changes nothing `rest` lacks. */
  lemma {:induction false} AbsentAfter(columns: seq<string>, x: string, rest: seq<string>)
    requires x !in rest
    ensures Absent(columns + [x], rest) == Absent(columns, rest)
    decreases |rest|
  {
    if |rest| > 0 {
      assert rest[0] in columns + [x] <==> rest[0] in columns;
      assert x !in rest[1..] by {
        forall j | 0 <= j < |rest[1..]| ensures rest[1..][j] != x {
          assert rest[1..][j] == rest[j + 1];
        }
      }
      AbsentAfter(columns, x, rest[1..]);
    }
  }

  /** The enhanced header: the original columns, then the added columns the
      table lacked, in their fixed order. */
  lemma EnhancedColumnsAppendAbsent(columns: seq<string>)
    ensures EnhancedColumns(columns) == columns + Absent(columns, AddedColumns)
  {
    AddedColumnsDistinct();
    AppendDistinct(columns, AddedColumns);
  }

  /** The ten added names are pairwise different. */
  lemma AddedColumnsDistinct()
    ensures Ordering.Distinct(AddedColumns)
  {
    var a := AddedColumns;
    forall i, j | 0 <= i < j < |a| ensures a[i] != a[j] {
      if |a[i]| == |a[j]| {
        assert a[i][0] != a[j][0] || a[i][1] != a[j][1] || a[i][5] != a[j][5];
      }
    }
  }

  /** The header of the enhanced table. */
  function EnhancedColumns(columns: seq<string>): seq<string> {
    Append(columns, AddedColumns)
  }

  /** Which of the five source columns the sequencer located. */
  datatype Located = Located(provider: bool, encounter: bool, received: bool, enrollee: bool, member: bool)

  /** `find_column_index` over the enhanced header for the five alias lists. */
  function Locate(columns: seq<string>): Located {
    var e := EnhancedColumns(columns);
    Located(
      FindColumnIndex(e, ProviderCodeAliases).Some?,
      FindColumnIndex(e, EncounterDateAliases).Some?,
      FindColumnIndex(e, ClaimReceivedAliases).Some?,
      FindColumnIndex(e, EnrolleeNameAliases).Some?,
      FindColumnIndex(e, MemberNoAliases).Some?)
  }

  /** Appending columns keeps the position of every column already present. */
  lemma ColumnIndexAppend(columns: seq<string>, extra: seq<string>, name: string)
    requires name in columns
    ensures ColumnIndex(Append(columns, extra), name) == ColumnIndex(columns, name)
  {
    var r := Append(columns, extra);
    var i := ColumnIndex(columns, name).value;
    var j := ColumnIndex(r, name).value;
    assert r[i] == columns[i] by { assert r[..|columns|][i] == r[i]; }
    if j < |columns| {
      assert columns[j] == r[j] by { assert r[..|columns|][j] == r[j]; }
    }
  }

  /** Detection after appending columns that no alias names finds the same
      column at the same 1-based position as before. */
  lemma FindColumnIndexAppend(columns: seq<string>, extra: seq<string>, aliases: seq<string>)
    requires forall j :: 0 <= j < |aliases| ==> aliases[j] !in extra
    ensures FindColumnIndex(Append(columns, extra), aliases) == FindColumnIndex(columns, aliases)
  {
    var r := Append(columns, extra);
    DetectSameAfterAppend(columns, extra, aliases);
    var d := DetectColumn(columns, aliases);
    if d.Some? {
      ColumnIndexAppend(columns, extra, d.value);
    }
    FindSame(r, columns, aliases);
  }

  /** Two headers on which detection picks the same name at the same position
      give the same 1-based index. */
  lemma FindSame(a: seq<string>, b: seq<string>, aliases: seq<string>)
    requires DetectColumn(a, aliases) == DetectColumn(b, aliases)
    requires DetectColumn(a, aliases).Some? ==>
               ColumnIndex(a, DetectColumn(a, aliases).value) == ColumnIndex(b, DetectColumn(a, aliases).value)
    ensures FindColumnIndex(a, aliases) == FindColumnIndex(b, aliases)
  {
    FindColumnIndexOf(a, aliases);
    FindColumnIndexOf(b, aliases);
  }

  lemma FindColumnIndexOf(columns: seq<string>, aliases: seq<string>)
    ensures var d := DetectColumn(columns, aliases);
            FindColumnIndex(columns, aliases)
            == if d.Some? then Some(ColumnIndex(columns, d.value).value + 1) else None
  {
  }

  lemma {:induction false} DetectSameAfterAppend(columns: seq<string>, extra: seq<string>, aliases: seq<string>)
    requires forall j :: 0 <= j < |aliases| ==> aliases[j] !in extra
    ensures DetectColumn(Append(columns, extra), aliases) == DetectColumn(columns, aliases)
    decreases |aliases|
  {
    if |aliases| > 0 {
      DetectSameAfterAppend(columns, extra, aliases[1..]);
    }
  }

  /** No alias in `aliases` names one of the added columns. */
  predicate AvoidsAdded(aliases: seq<string>) {
    forall j :: 0 <= j < |aliases| ==> aliases[j] !in AddedColumns
  }

  lemma AliasesAvoidAddedColumns()
    ensures AvoidsAdded(ProviderCodeAliases)
    ensures AvoidsAdded(EncounterDateAliases)
    ensures AvoidsAdded(ClaimReceivedAliases)
    ensures AvoidsAdded(EnrolleeNameAliases)
    ensures AvoidsAdded(MemberNoAliases)
  {
  }

  /** Searching the enhanced header for aliases that avoid the added columns
      finds what searching the Claims header finds. */
  lemma EnhancedFind(columns: seq<string>, aliases: seq<string>)
    requires AvoidsAdded(aliases)
    ensures FindColumnIndex(EnhancedColumns(columns), aliases) == FindColumnIndex(columns, aliases)
  {
    FindColumnIndexAppend(columns, AddedColumns, aliases);
  }

  /** No alias names one of the ten added columns, so the sequencer, which
      searches the enhanced header, locates the columns of the Claims header
      itself. */
  lemma LocateOnClaimsHeader(columns: seq<string>)
    ensures Locate(columns) == Located(
      FindColumnIndex(columns, ProviderCodeAliases).Some?,
      FindColumnIndex(columns, EncounterDateAliases).Some?,
      FindColumnIndex(columns, ClaimReceivedAliases).Some?,
      FindColumnIndex(columns, EnrolleeNameAliases).Some?,
      FindColumnIndex(columns, MemberNoAliases).Some?)
  {
    AliasesAvoidAddedColumns();
    EnhancedFind(columns, ProviderCodeAliases);
    EnhancedFind(columns, EncounterDateAliases);
    EnhancedFind(columns, ClaimReceivedAliases);
    EnhancedFind(columns, EnrolleeNameAliases);
    EnhancedFind(columns, MemberNoAliases);
  }

  // ---------------------------------------------------------------------
  // ClaimNoFnx: the row-carried counter

  /** The value of ClaimNoFnx on data row `i` (0-based): 1 on the first row,
      because COUNTIF-COUNTIF+1 is 1; afterwards the previous row's value plus
      one when the enrollee equals the previous row's, and 1 otherwise. */
  function ClaimNoFnx(names: seq<string>, i: nat, same: (string, string) -> bool): (n: nat)
    requires i < |names|
    ensures 1 <= n <= i + 1
  {
    if i == 0 then 1
    else if same(names[i], names[i - 1]) then ClaimNoFnx(names, i - 1, same) + 1
    else 1
  }

  /** Row `s` starts the run of consecutive equal enrollees that ends at row `i`:
      every row from `s + 1` to `i` equals its predecessor and row `s` does not. */
  predicate RunStart(names: seq<string>, i: nat, s: nat, same: (string, string) -> bool)
    requires i < |names|
  {
    s <= i
    && (s == 0 || !same(names[s], names[s - 1]))
    && forall j :: s < j <= i ==> same(names[j], names[j - 1])
  }

  /** ClaimNoFnx is the position of the row within its run of consecutive
      equal enrollees, counted from 1; it does not count earlier,
      non-adjacent claims of the same enrollee. */
  lemma {:induction false} ClaimNoFnxCountsRun(names: seq<string>, i: nat, same: (string, string) -> bool)
    requires i < |names|
    ensures RunStart(names, i, i + 1 - ClaimNoFnx(names, i, same), same)
  {
    if i > 0 && same(names[i], names[i - 1]) {
      ClaimNoFnxCountsRun(names, i - 1, same);
    }
  }

  /** A run has one start, so the run characterisation determines ClaimNoFnx. */
  lemma RunStartUnique(names: seq<string>, i: nat, s: nat, t: nat, same: (string, string) -> bool)
    requires i < |names|
    requires RunStart(names, i, s, same) && RunStart(names, i, t, same)
    ensures s == t
  {
  }

  /** Names A, A, B, A number 1, 2, 1, 1. */
  lemma ClaimNoFnxExample(same: (string, string) -> bool)
    requires same("A", "A") && !same("B", "A") && !same("A", "B")
    ensures var names := ["A", "A", "B", "A"];
            ClaimNoFnx(names, 0, same) == 1 && ClaimNoFnx(names, 1, same) == 2
            && ClaimNoFnx(names, 2, same) == 1 && ClaimNoFnx(names, 3, same) == 1
  {
  }

  /** With Excel's case-insensitive `=`, "Ada" followed by "ADA" continues the run. */
  lemma ClaimNoFnxIgnoresCase()
    ensures ClaimNoFnx(["Ada", "ADA"], 1, ExcelSame) == 2
  {
    assert Upper("Ada") == "ADA" by {
      assert UpperChar('d') == 'D' && UpperChar('a') == 'A';
    }
    assert Upper("ADA") == "ADA";
  }

  // ---------------------------------------------------------------------
  // The concatenated formulas

  /** `IF(provider="NIL","9999999",provider)`. */
  function ProviderPrefix(provider: string, same: (string, string) -> bool): (p: string)
    ensures same(provider, "NIL") ==> p == "9999999"
    ensures !same(provider, "NIL") ==> p == provider
  {
    if same(provider, "NIL") then "9999999" else provider
  }

  /** The padded month of the received date followed by the last two digits
      of the encounter year (`MMYY`); `None` for a `#VALUE!` error. */
  function MonthYear(received: DateCell, encounter: DateCell): (r: Option<string>)
    ensures r.None? <==> received.NotADate? || encounter.NotADate?
  {
    match (Parts(received), Parts(encounter))
    case (Some(rd), Some(ed)) => Some(Pad2(rd.month) + Year2(ed.year))
    case _ => None
  }

  /** The padded day, padded month and two-digit year of one date (`DDMMYY`). */
  function DayMonthYear(d: Date): string {
    Pad2(d.day) + (Pad2(d.month) + Year2(d.year))
  }

  /** ClaimBatch: provider prefix and `MMYY`. */
  function ClaimBatch(row: ClaimRow, same: (string, string) -> bool): (v: Value)
    ensures v.ValueError? <==> row.received.NotADate? || row.encounter.NotADate?
    ensures v.TextValue? ==> IsPrefix(ProviderPrefix(row.provider, same), v.text)
  {
    match MonthYear(row.received, row.encounter)
    case None => ValueError
    case Some(my) => TextValue(ProviderPrefix(row.provider, same) + my)
  }

  /** The text of row `i`'s ClaimNoFnx, as `&` appends it. */
  function Counter(rows: seq<ClaimRow>, i: nat, same: (string, string) -> bool): string
    requires i < |rows|
  {
    NatToString(ClaimNoFnx(Enrollees(rows), i, same))
  }

  /** ClaimNo: member number, `MMYY`, and the row's counter. */
  function ClaimNo(rows: seq<ClaimRow>, i: nat, same: (string, string) -> bool): (v: Value)
    requires i < |rows|
    ensures v.ValueError? <==> rows[i].received.NotADate? || rows[i].encounter.NotADate?
    ensures v.TextValue? ==> IsPrefix(rows[i].member, v.text)
  {
    match MonthYear(rows[i].received, rows[i].encounter)
    case None => ValueError
    case Some(my) =>
      Pieces(rows[i].member, my, Counter(rows, i, same));
      TextValue(rows[i].member + (my + Counter(rows, i, same)))
  }

  /** Correct_ClaimNo: member number, then the encounter date's padded day,
      padded month and two-digit year, then the row's counter. */
  function CorrectClaimNo(rows: seq<ClaimRow>, i: nat, same: (string, string) -> bool): (v: Value)
    requires i < |rows|
    ensures v.ValueError? <==> rows[i].encounter.NotADate?
    ensures v.TextValue? ==> IsPrefix(rows[i].member, v.text)
  {
    match Parts(rows[i].encounter)
    case None => ValueError
    case Some(d) =>
      Pieces(rows[i].member, DayMonthYear(d), Counter(rows, i, same));
      TextValue(rows[i].member + (DayMonthYear(d) + Counter(rows, i, same)))
  }

  /** Where the three pieces of `a + (b + c)` sit. */
  lemma Pieces(a: string, b: string, c: string)
    ensures var t := a + (b + c);
            && |t| == |a| + |b| + |c|
            && t[..|a|] == a && t[|a|..] == b + c
            && t[|a|..|a| + |b|] == b && t[|a| + |b|..] == c
            && IsPrefix(a, t)
  {
  }

  function Enrollees(rows: seq<ClaimRow>): (names: seq<string>)
    ensures |names| == |rows|
    ensures forall i :: 0 <= i < |rows| ==> names[i] == rows[i].enrollee
  {
    seq(|rows|, i requires 0 <= i < |rows| => rows[i].enrollee)
  }

  /** The four formula cells of one data row; `None` is a cell left "". */
  datatype FormulaRow = FormulaRow(
    claimBatch: Option<Value>,
    claimNoFnx: Option<Value>,
    claimNo: Option<Value>,
    correctClaimNo: Option<Value>)

  /** The formula cells of row `i` given the located columns. */
  function FormulaCells(rows: seq<ClaimRow>, i: nat, l: Located, same: (string, string) -> bool): FormulaRow
    requires i < |rows|
  {
    FormulaRow(
      if l.provider && l.encounter && l.received then Some(ClaimBatch(rows[i], same)) else None,
      if l.enrollee then Some(NumberValue(ClaimNoFnx(Enrollees(rows), i, same))) else None,
      if l.member && l.encounter && l.received && l.enrollee then Some(ClaimNo(rows, i, same)) else None,
      if l.member && l.encounter && l.enrollee then Some(CorrectClaimNo(rows, i, same)) else None)
  }

  /** The formula columns of the enhanced workbook, one row per data row,
      given the located source columns. A derived column is left "" on every
      row when one of its source columns was not located. */
  function FormulaColumns(l: Located, rows: seq<ClaimRow>, same: (string, string) -> bool)
    : (r: seq<FormulaRow>)
    ensures |r| == |rows|
    ensures forall i :: 0 <= i < |r| ==>
              && (r[i].claimBatch.Some? <==> l.provider && l.encounter && l.received)
              && (r[i].claimNoFnx.Some? <==> l.enrollee)
              && (r[i].claimNo.Some? <==> l.member && l.encounter && l.received && l.enrollee)
              && (r[i].correctClaimNo.Some? <==> l.member && l.encounter && l.enrollee)
    ensures forall i :: 0 <= i < |r| && r[i].claimNoFnx.Some? ==>
              r[i].claimNoFnx.value.NumberValue? && 1 <= r[i].claimNoFnx.value.number <= i + 1
  {
    seq(|rows|, i requires 0 <= i < |rows| => FormulaCells(rows, i, l, same))
  }

  /** `generate_enhanced_claims_excel`, as far as values go: locate the source
      columns on the enhanced header, then fill the four formula columns. */
  function GenerateEnhancedClaims(columns: seq<string>, rows: seq<ClaimRow>, same: (string, string) -> bool)
    : seq<FormulaRow>
  {
    FormulaColumns(Locate(columns), rows, same)
  }

  predicate Suffix(w: string, s: string) {
    |w| <= |s| && s[|s| - |w|..] == w
  }

  /** Whenever ClaimNo is written, ClaimNoFnx is written too, and ClaimNo ends
      with that row's ClaimNoFnx; likewise Correct_ClaimNo. */
  lemma ClaimNoEndsWithCounter(l: Located, rows: seq<ClaimRow>, same: (string, string) -> bool, i: nat)
    requires i < |rows|
    ensures var r := FormulaColumns(l, rows, same);
            && (r[i].claimNo.Some? ==> r[i].claimNoFnx.Some?)
            && (r[i].correctClaimNo.Some? ==> r[i].claimNoFnx.Some?)
            && (r[i].claimNo.Some? && r[i].claimNo.value.TextValue? ==>
                  Suffix(NatToString(r[i].claimNoFnx.value.number), r[i].claimNo.value.text))
            && (r[i].correctClaimNo.Some? && r[i].correctClaimNo.value.TextValue? ==>
                  Suffix(NatToString(r[i].claimNoFnx.value.number), r[i].correctClaimNo.value.text))
  {
    var r := FormulaColumns(l, rows, same);
    assert r[i] == FormulaCells(rows, i, l, same);
    ClaimNoSuffix(rows, i, same);
    CorrectClaimNoSuffix(rows, i, same);
  }

  lemma ClaimNoSuffix(rows: seq<ClaimRow>, i: nat, same: (string, string) -> bool)
    requires i < |rows|
    ensures ClaimNo(rows, i, same).TextValue? ==> Suffix(Counter(rows, i, same), ClaimNo(rows, i, same).text)
  {
    var c := ClaimNo(rows, i, same);
    if c.TextValue? {
      var my := MonthYear(rows[i].received, rows[i].encounter).value;
      SuffixOfPieces(rows[i].member, my, Counter(rows, i, same));
    }
  }

  lemma CorrectClaimNoSuffix(rows: seq<ClaimRow>, i: nat, same: (string, string) -> bool)
    requires i < |rows|
    ensures CorrectClaimNo(rows, i, same).TextValue? ==>
              Suffix(Counter(rows, i, same), CorrectClaimNo(rows, i, same).text)
  {
    var c := CorrectClaimNo(rows, i, same);
    if c.TextValue? {
      var d := Parts(rows[i].encounter).value;
      SuffixOfPieces(rows[i].member, DayMonthYear(d), Counter(rows, i, same));
    }
  }

  lemma SuffixOfPieces(a: string, b: string, c: string)
    ensures Suffix(c, a + (b + c))
  {
    var t := a + (b + c);
    assert t[|t| - |c|..] == c;
  }

  /** ClaimNo decodes back into its parts: after the member number come two
      digits holding the received month, two holding the encounter year
      modulo 100, and then the counter. */
  lemma ClaimNoDecodes(rows: seq<ClaimRow>, i: nat, same: (string, string) -> bool)
    requires i < |rows|
    requires Readable(rows[i].received) && Readable(rows[i].encounter)
    ensures ClaimNo(rows, i, same).TextValue?
    ensures DecodesTo(ClaimNo(rows, i, same).text, rows[i].member, Parts(rows[i].received).value.month,
                      Parts(rows[i].encounter).value.year % 100, ClaimNoFnx(Enrollees(rows), i, same))
  {
    var rd := Parts(rows[i].received).value;
    var ed := Parts(rows[i].encounter).value;
    ClaimNoText(rows, i, same);
    DecodeDigits(rows[i].member, rd.month, ed.year, ClaimNoFnx(Enrollees(rows), i, same));
  }

  /** `t` is the member number followed by a digit string whose first two
      digits hold `month`, next two `yy`, and the rest the counter `n`. */
  predicate DecodesTo(t: string, member: string, month: nat, yy: nat, n: nat) {
    var m := |member|;
    && |t| >= m + 5
    && t[..m] == member
    && AllDigits(t[m..])
    && DigitsValue(t[m..m + 2]) == month
    && DigitsValue(t[m + 2..m + 4]) == yy
    && DigitsValue(t[m + 4..]) == n
  }

  /** The text of ClaimNo on a row whose two dates are readable. */
  lemma ClaimNoText(rows: seq<ClaimRow>, i: nat, same: (string, string) -> bool)
    requires i < |rows|
    requires Readable(rows[i].received) && Readable(rows[i].encounter)
    ensures Parts(rows[i].received).Some? && Parts(rows[i].encounter).Some?
    ensures MonthYear(rows[i].received, rows[i].encounter)
            == Some(Pad2(Parts(rows[i].received).value.month) + Year2(Parts(rows[i].encounter).value.year))
    ensures ClaimNo(rows, i, same)
            == TextValue(rows[i].member + ((Pad2(Parts(rows[i].received).value.month)
                                             + Year2(Parts(rows[i].encounter).value.year))
                                            + NatToString(ClaimNoFnx(Enrollees(rows), i, same))))
  {
  }

  /** Member number, padded month, two-digit year and counter read back. */
  lemma DecodeDigits(member: string, month: nat, year: nat, counter: nat)
    requires 1 <= month <= 12 && year >= 1900
    ensures DecodesTo(member + ((Pad2(month) + Year2(year)) + NatToString(counter)), member, month, year % 100, counter)
  {
    Year2IsPaddedCentury(year);
    Pad2Value(month);
    NatToStringValue(counter);
    DecodeShape(member, Pad2(month), Year2(year), NatToString(counter));
  }

  /** Where the four pieces of `a + ((b + c) + d)` sit when `b` and `c` are
      two characters long. */
  lemma DecodeShape(a: string, b: string, c: string, d: string)
    requires |b| == 2 && |c| == 2
    requires AllDigits(b) && AllDigits(c) && AllDigits(d)
    ensures var t := a + ((b + c) + d);
            var m := |a|;
            && |t| == m + 4 + |d|
            && t[..m] == a && t[m..m + 2] == b && t[m + 2..m + 4] == c && t[m + 4..] == d
            && AllDigits(t[m..])
  {
    var t := a + ((b + c) + d);
    var m := |a|;
    assert t[m..] == (b + c) + d;
  }

  /** Correct_ClaimNo decodes back into its parts: after the member number come
      two digits holding the encounter day, and the rest reads as a ClaimNo
      built from the encounter month, the encounter year modulo 100 and the
      row's counter. */
  lemma CorrectClaimNoDecodes(rows: seq<ClaimRow>, i: nat, same: (string, string) -> bool)
    requires i < |rows|
    requires Readable(rows[i].encounter)
    ensures CorrectClaimNo(rows, i, same).TextValue?
    ensures var d := Parts(rows[i].encounter).value;
            DecodesWithDayTo(CorrectClaimNo(rows, i, same).text, rows[i].member, d.day, d.month,
                             d.year % 100, ClaimNoFnx(Enrollees(rows), i, same))
  {
    var d := Parts(rows[i].encounter).value;
    CorrectClaimNoText(rows, i, same);
    DecodeDayDigits(rows[i].member, d.day, d.month, d.year, ClaimNoFnx(Enrollees(rows), i, same));
  }

  /** The text of Correct_ClaimNo on a row whose encounter date is readable. */
  lemma CorrectClaimNoText(rows: seq<ClaimRow>, i: nat, same: (string, string) -> bool)
    requires i < |rows|
    requires Readable(rows[i].encounter)
    ensures Parts(rows[i].encounter).Some?
    ensures CorrectClaimNo(rows, i, same)
            == TextValue(rows[i].member + (DayMonthYear(Parts(rows[i].encounter).value)
                                            + NatToString(ClaimNoFnx(Enrollees(rows), i, same))))
  {
  }

  /** Member number, padded day, padded month, two-digit year and counter
      read back. */
  lemma DecodeDayDigits(member: string, day: nat, month: nat, year: nat, counter: nat)
    requires day <= 31 && 1 <= month <= 12 && year >= 1900
    ensures DecodesWithDayTo(member + (DayMonthYear(Date(day, month, year)) + NatToString(counter)),
                             member, day, month, year % 100, counter)
  {
    var x := Pad2(day);
    var my := Pad2(month) + Year2(year);
    var rest := my + NatToString(counter);
    assert DayMonthYear(Date(day, month, year)) == x + my;
    Regroup(member, x, my, NatToString(counter));
    DecodeDigits(member + x, month, year, counter);
    Pad2Value(day);
    WithDay(member, x, rest, day, month, year % 100, counter);
  }

  lemma Regroup(a: string, x: string, b: string, c: string)
    ensures a + ((x + b) + c) == (a + x) + (b + c)
  {
  }

  /** A text that decodes with `member + x` as its member number, where `x`
      is two digits holding `day`, decodes with the day after `member`. */
  lemma WithDay(member: string, x: string, rest: string, day: nat, month: nat, yy: nat, n: nat)
    requires |x| == 2 && AllDigits(x) && DigitsValue(x) == day
    requires DecodesTo((member + x) + rest, member + x, month, yy, n)
    ensures DecodesWithDayTo((member + x) + rest, member, day, month, yy, n)
  {
    DayAfterMember(member, x, rest);
  }

  /** `t` is the member number, two digits holding `day`, and then digits that
      decode as in ClaimNo to `month`, `yy` and the counter `n`. */
  predicate DecodesWithDayTo(t: string, member: string, day: nat, month: nat, yy: nat, n: nat) {
    var m := |member|;
    && |t| >= m + 2
    && t[..m] == member
    && AllDigits(t[m..m + 2])
    && DigitsValue(t[m..m + 2]) == day
    && DecodesTo(t, t[..m + 2], month, yy, n)
  }

  /** Where a two-character piece `x` sits in `(a + x) + b`. */
  lemma DayAfterMember(a: string, x: string, b: string)
    requires |x| == 2
    ensures var t := (a + x) + b;
            t[..|a|] == a && t[|a|..|a| + 2] == x && t[..|a| + 2] == a + x
  {
  }

  /** ClaimBatch and ClaimNo carry the same `MMYY`: after the provider prefix
      in the one and after the member number in the other. */
  lemma BatchAndClaimNoShareMonthYear(rows: seq<ClaimRow>, i: nat, same: (string, string) -> bool)
    requires i < |rows|
    requires Readable(rows[i].received) && Readable(rows[i].encounter)
    ensures ClaimBatch(rows[i], same).TextValue? && ClaimNo(rows, i, same).TextValue?
    ensures var b := ClaimBatch(rows[i], same).text;
            var c := ClaimNo(rows, i, same).text;
            var p := |ProviderPrefix(rows[i].provider, same)|;
            var m := |rows[i].member|;
            |b| == p + 4 && |c| >= m + 4 && b[p..] == c[m..m + 4]
  {
    var rd := Parts(rows[i].received).value;
    var ed := Parts(rows[i].encounter).value;
    var my := Pad2(rd.month) + Year2(ed.year);
    Year2IsPaddedCentury(ed.year);
    ClaimNoText(rows, i, same);
    Pieces(rows[i].member, my, NatToString(ClaimNoFnx(Enrollees(rows), i, same)));
    SuffixAfter(ProviderPrefix(rows[i].provider, same), my);
  }

  lemma SuffixAfter(a: string, b: string)
    ensures (a + b)[|a|..] == b
  {
  }

  /** When the claim was received in its encounter month, Correct_ClaimNo is
      ClaimNo with the encounter day inserted after the member number. */
  lemma CorrectClaimNoInsertsDay(rows: seq<ClaimRow>, i: nat, same: (string, string) -> bool)
    requires i < |rows|
    requires rows[i].received.DateValue? && rows[i].encounter.DateValue?
    requires rows[i].received.date.month == rows[i].encounter.date.month
    ensures ClaimNo(rows, i, same).TextValue? && CorrectClaimNo(rows, i, same).TextValue?
    ensures var c := ClaimNo(rows, i, same).text;
            var m := |rows[i].member|;
            |c| >= m
            && CorrectClaimNo(rows, i, same).text == c[..m] + Pad2(rows[i].encounter.date.day) + c[m..]
  {
    var ed := rows[i].encounter.date;
    var member := rows[i].member;
    var n := Counter(rows, i, same);
    var my := Pad2(ed.month) + Year2(ed.year);
    assert MonthYear(rows[i].received, rows[i].encounter) == Some(my);
    assert ClaimNo(rows, i, same).text == member + (my + n);
    assert CorrectClaimNo(rows, i, same).text == member + ((Pad2(ed.day) + my) + n);
    InsertAfter(member, Pad2(ed.day), my, n);
  }

  lemma InsertAfter(a: string, x: string, b: string, c: string)
    ensures a + ((x + b) + c) == (a + (b + c))[..|a|] + x + (a + (b + c))[|a|..]
  {
    var t := a + (b + c);
    assert t[..|a|] == a && t[|a|..] == b + c;
  }

  /** A "NIL" provider (in any case, under Excel's `=`) batches under 9999999. */
  lemma NilProviderBatch()
    ensures ClaimBatch(ClaimRow("nil", DateValue(Date(3, 4, 2024)), DateValue(Date(9, 5, 2024)), "A", "M1"),
                       ExcelSame)
            == TextValue("99999990524")
  {
    NilIsNil();
    MayTwentyFour();
    assert "9999999" + ("05" + "24") == "99999990524";
  }

  lemma NilIsNil()
    ensures ExcelSame("nil", "NIL")
  {
    assert Upper("nil") == "NIL" by {
      assert UpperChar('n') == 'N' && UpperChar('i') == 'I' && UpperChar('l') == 'L';
    }
  }

  lemma MayTwentyFour()
    ensures Pad2(5) == "05" && Year2(2024) == "24"
  {
    assert NatToString(5) == "5";
    Year2IsPaddedCentury(2024);
    Pad2Digits(24);
    assert DigitChar(2) == '2' && DigitChar(4) == '4';
  }
}
