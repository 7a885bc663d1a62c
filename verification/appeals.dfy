/** `compile_appeals_files` and `extract_schedule_from_filename`: each uploaded
    appeals workbook's PAYMENT SUMMARY sheet is cleaned of blank and total
    rows, recast onto a fixed 18-column template that records the file name,
    and summarised by one status record per file; the schedule number an
    appeals file belongs to is read from its file name. */
module Appeals {
  import opened Outcomes
  import opened Text
  import opened Cells

  // ---------------------------------------------------------------------
  // Order-keeping selection of rows

  /** The elements of `xs` that satisfy `p`, in their order: a boolean mask
      applied to a frame, or a list built by a loop that appends in order. */
  function Filter<T(!new)>(xs: seq<T>, p: T -> bool): (r: seq<T>)
    ensures |r| <= |xs|
    ensures forall x :: x in r <==> x in xs && p(x)
  {
    if |xs| == 0 then []
    else (if p(xs[0]) then [xs[0]] else []) + Filter(xs[1..], p)
  }

  lemma {:induction false} FilterAppend<T(!new)>(xs: seq<T>, ys: seq<T>, p: T -> bool)
    ensures Filter(xs + ys, p) == Filter(xs, p) + Filter(ys, p)
    decreases |xs|
  {
    if |xs| == 0 {
      assert xs + ys == ys;
    } else {
      var x, rest := xs[0], xs[1..];
      assert xs == [x] + rest;
      assert xs + ys == [x] + (rest + ys);
      var head := if p(x) then [x] else [];
      FilterCons(x, rest + ys, p);
      FilterCons(x, rest, p);
      FilterAppend(rest, ys, p);
      Reassociate(head, Filter(rest, p), Filter(ys, p));
    }
  }

  lemma Reassociate<T>(a: seq<T>, b: seq<T>, c: seq<T>)
    ensures a + (b + c) == (a + b) + c
  {
  }

  lemma FilterCons<T(!new)>(x: T, xs: seq<T>, p: T -> bool)
    ensures Filter([x] + xs, p) == (if p(x) then [x] else []) + Filter(xs, p)
  {
    assert ([x] + xs)[0] == x;
    assert ([x] + xs)[1..] == xs;
  }

  /** The number of elements satisfying `p`: `len(df[mask])`, since a
      filtered frame has as many rows as the mask holds. */
  function Count<T(!new)>(xs: seq<T>, p: T -> bool): (n: nat)
    ensures n == |Filter(xs, p)|
  {
    if |xs| == 0 then 0 else (if p(xs[0]) then 1 else 0) + Count(xs[1..], p)
  }

  /** A row of the sheet with its pandas index label: its position among the
      rows `read_excel` returned, which `dropna` and `iloc` keep. */
  datatype LabeledRow = LabeledRow(index: nat, cells: seq<Cell>)

  function Labeled(rows: seq<seq<Cell>>): (r: seq<LabeledRow>)
    ensures |r| == |rows|
    ensures forall i :: 0 <= i < |r| ==> r[i] == LabeledRow(i, rows[i])
  {
    seq(|rows|, i requires 0 <= i < |rows| => LabeledRow(i, rows[i]))
  }

  /** Labels strictly increase: the rows appear in their order in the sheet. */
  predicate Ascending(rows: seq<LabeledRow>) {
    forall i, j :: 0 <= i < j < |rows| ==> rows[i].index < rows[j].index
  }

  /** Selection keeps the surviving rows in the order of the sheet. */
  lemma {:induction false} FilterKeepsOrder(rows: seq<LabeledRow>, p: LabeledRow -> bool)
    requires Ascending(rows)
    ensures Ascending(Filter(rows, p))
    decreases |rows|
  {
    if |rows| > 0 {
      var rest := Filter(rows[1..], p);
      FilterKeepsOrder(rows[1..], p);
      forall x | x in rest
        ensures rows[0].index < x.index
      {
        var j :| 0 <= j < |rows[1..]| && rows[1..][j] == x;
        assert rows[j + 1] == x;
      }
      var r := Filter(rows, p);
      assert r == (if p(rows[0]) then [rows[0]] else []) + rest;
      forall i, j | 0 <= i < j < |r|
        ensures r[i].index < r[j].index
      {
        if p(rows[0]) && i == 0 {
          assert r[j] == rest[j - 1];
          assert rest[j - 1] in rest;
        }
      }
    }
  }

  // ---------------------------------------------------------------------
  // The row filter

  predicate AllBlank(cells: seq<Cell>) {
    forall i :: 0 <= i < |cells| ==> cells[i].Blank?
  }

  /** `dropna(how="all")`: rows with at least one non-missing cell. */
  function DropAllBlank(rows: seq<LabeledRow>): (r: seq<LabeledRow>)
    ensures forall x :: x in r <==> x in rows && !AllBlank(x.cells)
    ensures |r| <= |rows|
  {
    Filter(rows, (x: LabeledRow) => !AllBlank(x.cells))
  }

  /** The words whose presence in the upper-cased first cell marks a total or
      summary line. */
  const TotalWords: seq<string> := ["TOTAL", "SUM", "GRAND", "SUBTOTAL", "SUMMARY"]

  predicate IsTotalText(s: string) {
    exists k :: 0 <= k < |TotalWords| && Contains(Upper(s), TotalWords[k])
  }

  /** SUBTOTAL and SUMMARY are redundant in the list: every text containing
      them also contains TOTAL or SUM. */
  lemma TotalWordsReduce(s: string)
    ensures IsTotalText(s) <==>
            Contains(Upper(s), "TOTAL") || Contains(Upper(s), "SUM") || Contains(Upper(s), "GRAND")
  {
    var u := Upper(s);
    assert InfixAt("SUBTOTAL", "TOTAL", 3);
    ContainsIff("SUBTOTAL", "TOTAL");
    assert InfixAt("SUMMARY", "SUM", 0);
    ContainsIff("SUMMARY", "SUM");
    if Contains(u, "SUBTOTAL") {
      ContainsTransitive(u, "SUBTOTAL", "TOTAL");
    }
    if Contains(u, "SUMMARY") {
      ContainsTransitive(u, "SUMMARY", "SUM");
    }
    if Contains(u, "TOTAL") || Contains(u, "SUM") || Contains(u, "GRAND") {
      assert Contains(u, TotalWords[0]) || Contains(u, TotalWords[1]) || Contains(u, TotalWords[2]);
    }
  }

  /** The first cell as the filter reads it: stripped text, "" for NaN. */
  function FirstText(cells: seq<Cell>, conv: Conversions): string {
    if |cells| == 0 || cells[0].Blank? then "" else Strip(Render(cells[0], conv))
  }

  /** A cell that is neither NaN nor blank once stripped. */
  predicate Filled(c: Cell, conv: Conversions) {
    !c.Blank? && Strip(Render(c, conv)) != ""
  }

  /** How many cells of the row are filled. */
  function FilledCount(cells: seq<Cell>, conv: Conversions): (n: nat)
    ensures n <= |cells|
    ensures n == 0 <==> forall i :: 0 <= i < |cells| ==> !Filled(cells[i], conv)
    ensures AllBlank(cells) ==> n == 0
  {
    if |cells| == 0 then 0
    else
      assert forall i :: 1 <= i < |cells| ==> cells[1..][i - 1] == cells[i];
      (if Filled(cells[0], conv) then 1 else 0) + FilledCount(cells[1..], conv)
  }

  /** The per-row test of the filter: not a total line, not empty, and either
      a first cell that `float()` accepts or at least three filled cells. */
  predicate IsDataRow(cells: seq<Cell>, conv: Conversions) {
    var first := FirstText(cells, conv);
    !IsTotalText(first)
    && !(first == "" && AllBlank(cells))
    && (conv.floatText(first).Some? || FilledCount(cells, conv) >= 3)
  }

  /** Since `float("")` raises, the explicit empty-row test never decides
      anything: the filter is "no total word, and numeric or three filled". */
  lemma EmptyRowTestRedundant(cells: seq<Cell>, conv: Conversions)
    requires conv.floatText("") == None
    ensures IsDataRow(cells, conv) <==>
            !IsTotalText(FirstText(cells, conv))
            && (conv.floatText(FirstText(cells, conv)).Some? || FilledCount(cells, conv) >= 3)
  {
  }

  /** The elements satisfying `p` if there is any, else all of `xs`: a
      selection with a fallback to the whole input. */
  function SelectOrAll<T(!new)>(xs: seq<T>, p: T -> bool): (r: seq<T>)
    ensures |r| <= |xs|
    ensures forall x :: x in r ==> x in xs
    ensures (forall x :: x in xs ==> !p(x)) ==> r == xs
    ensures (exists x :: x in xs && p(x)) ==> forall x :: x in r <==> x in xs && p(x)
  {
    var kept := Filter(xs, p);
    if |kept| > 0 then
      assert kept[0] in kept;
      kept
    else
      xs
  }

  /** The rows the file contributes: the data rows, or every row when the
      filter keeps none. */
  function CleanRows(rows: seq<LabeledRow>, conv: Conversions): (r: seq<LabeledRow>)
    ensures |r| <= |rows|
    ensures forall x :: x in r ==> x in rows
    ensures (forall x :: x in rows ==> !IsDataRow(x.cells, conv)) ==> r == rows
    ensures (exists x :: x in rows && IsDataRow(x.cells, conv)) ==>
              forall x :: x in r <==> x in rows && IsDataRow(x.cells, conv)
  {
    SelectOrAll(rows, (x: LabeledRow) => IsDataRow(x.cells, conv))
  }

  /** The rows a non-empty sheet keeps, labelled by their position in it. */
  function SheetRows(t: Table, conv: Conversions): (r: seq<LabeledRow>)
    ensures Ascending(r)
    ensures forall x :: x in r ==> !AllBlank(x.cells)
  {
    var labeled := Labeled(t.rows);
    var filled := DropAllBlank(labeled);
    FilterKeepsOrder(labeled, (x: LabeledRow) => !AllBlank(x.cells));
    FilterKeepsOrder(filled, (x: LabeledRow) => IsDataRow(x.cells, conv));
    CleanRows(filled, conv)
  }

  /** A total line is never kept while some data row exists; when none
      exists the fallback keeps total lines too. */
  lemma TotalLinesDropped(rows: seq<LabeledRow>, conv: Conversions, x: LabeledRow)
    requires exists y :: y in rows && IsDataRow(y.cells, conv)
    requires x in CleanRows(rows, conv)
    ensures !IsTotalText(FirstText(x.cells, conv))
  {
  }

  // ---------------------------------------------------------------------
  // The 18-column template

  const TemplateColumns: seq<string> :=
    ["S_N", "CLAIM_TYPE", "BATCH_NUMBER", "HOSPITAL", "NUMBER_OF_CLAIMS",
     "ENCOUNTER_MONTH", "DATE_OF_RECEIPT", "APPROVED_PA_VALUE_N",
     "AMOUNT_RECOMMENDED_FOR_PAYMENT_N", "VARIANCE", "VARIANCE1",
     "NARRATION", "Source_File", "PROVIDER_CODE", "Paiddate",
     "SCH_NO", "APPEAL_NO", "SCH_NUM"]

  /** Template columns left empty for manual completion. */
  const BlankColumns: seq<string> := ["PROVIDER_CODE", "Paiddate", "SCH_NO", "APPEAL_NO", "SCH_NUM"]

  const SerialColumn: string := "S_N"
  const SourceFileColumn: string := "Source_File"
  const AmountColumn: string := "AMOUNT_RECOMMENDED_FOR_PAYMENT_N"

  /** Where each template column is copied from, in the order the copies are
      made; a later source of the same template column overwrites an earlier
      one. */
  const ColumnMapping: seq<(string, string)> :=
    [("S/N", "S_N"),
     ("AMOUNT RECOMMENDED FOR PAYMENT (N)", "AMOUNT_RECOMMENDED_FOR_PAYMENT_N"),
     ("ENROLLEE NAME", "HOSPITAL"),
     ("PROVIDER NAME", "HOSPITAL"),
     ("HOSPITAL NAME", "HOSPITAL"),
     ("CLAIM TYPE", "CLAIM_TYPE"),
     ("BATCH NUMBER", "BATCH_NUMBER"),
     ("BATCH NO", "BATCH_NUMBER"),
     ("NUMBER OF CLAIMS", "NUMBER_OF_CLAIMS"),
     ("NO OF CLAIMS", "NUMBER_OF_CLAIMS"),
     ("ENCOUNTER MONTH", "ENCOUNTER_MONTH"),
     ("DATE OF RECEIPT", "DATE_OF_RECEIPT"),
     ("APPROVED PA VALUE (N)", "APPROVED_PA_VALUE_N"),
     ("VARIANCE", "VARIANCE"),
     ("VARIANCE1", "VARIANCE1"),
     ("NARRATION", "NARRATION"),
     ("NARRATIVE", "NARRATION")]

  /** Entry `k` of `mapping` is the last one that fills `target` from a
      column the sheet has. */
  predicate LastMappedAt(columns: seq<string>, mapping: seq<(string, string)>, target: string, k: int) {
    0 <= k < |mapping| && mapping[k].1 == target && mapping[k].0 in columns
    && forall k' :: k < k' < |mapping| && mapping[k'].1 == target ==> mapping[k'].0 !in columns
  }

  /** The sheet column whose values end up in template column `target`:
      the last mapping entry for `target` whose source column is present. */
  function MappedFrom(columns: seq<string>, mapping: seq<(string, string)>, target: string): (r: Option<string>)
    ensures r.Some? ==> r.value in columns
  {
    if |mapping| == 0 then None
    else
      var last := mapping[|mapping| - 1];
      if last.1 == target && last.0 in columns then Some(last.0)
      else MappedFrom(columns, mapping[..|mapping| - 1], target)
  }

  /** The copy loop leaves in `target` the values of the last mapped column
      present in the sheet, and "" when none is present. */
  lemma {:induction false} MappedFromLast(columns: seq<string>, mapping: seq<(string, string)>, target: string)
    ensures MappedFrom(columns, mapping, target).None? <==>
            forall k :: 0 <= k < |mapping| && mapping[k].1 == target ==> mapping[k].0 !in columns
    ensures MappedFrom(columns, mapping, target).Some? ==>
            exists k :: LastMappedAt(columns, mapping, target, k)
                        && MappedFrom(columns, mapping, target).value == mapping[k].0
    decreases |mapping|
  {
    if |mapping| > 0 {
      var last := mapping[|mapping| - 1];
      var front := mapping[..|mapping| - 1];
      if last.1 == target && last.0 in columns {
        assert LastMappedAt(columns, mapping, target, |mapping| - 1);
      } else {
        MappedFromLast(columns, front, target);
        var r := MappedFrom(columns, front, target);
        if r.Some? {
          var k :| LastMappedAt(columns, front, target, k) && r.value == front[k].0;
          assert LastMappedAt(columns, mapping, target, k);
        }
      }
    }
  }

  /** No mapping entry writes a blank column or the provenance column. */
  lemma MappingAvoidsReserved()
    ensures forall k :: 0 <= k < |ColumnMapping| ==>
              ColumnMapping[k].1 !in BlankColumns && ColumnMapping[k].1 != SourceFileColumn
              && ColumnMapping[k].1 in TemplateColumns
  {
  }

  /** At most one mapping entry is the last present one for a target. */
  lemma LastMappedUnique(columns: seq<string>, mapping: seq<(string, string)>, target: string, k1: int, k2: int)
    requires LastMappedAt(columns, mapping, target, k1) && LastMappedAt(columns, mapping, target, k2)
    ensures k1 == k2
  {
  }

  /** The mapping entry that is the last present one for `target` is where
      `target` is copied from. */
  lemma MappedFromAt(columns: seq<string>, mapping: seq<(string, string)>, target: string, k: int)
    requires LastMappedAt(columns, mapping, target, k)
    ensures MappedFrom(columns, mapping, target) == Some(mapping[k].0)
  {
    MappedFromLast(columns, mapping, target);
    var r := MappedFrom(columns, mapping, target);
    var k' :| LastMappedAt(columns, mapping, target, k') && r.value == mapping[k'].0;
    LastMappedUnique(columns, mapping, target, k', k);
  }

  /** A sheet with several name columns fills HOSPITAL from the one that
      comes last in the mapping, "HOSPITAL NAME", whatever their order in the
      sheet. */
  lemma HospitalFromLastAlias()
    ensures MappedFrom(["S/N", "HOSPITAL NAME", "ENROLLEE NAME"], ColumnMapping, "HOSPITAL")
            == Some("HOSPITAL NAME")
  {
    var cols := ["S/N", "HOSPITAL NAME", "ENROLLEE NAME"];
    assert ColumnMapping[4] == ("HOSPITAL NAME", "HOSPITAL");
    assert forall k :: 4 < k < |ColumnMapping| ==> ColumnMapping[k].1 != "HOSPITAL";
    assert LastMappedAt(cols, ColumnMapping, "HOSPITAL", 4);
    MappedFromAt(cols, ColumnMapping, "HOSPITAL", 4);
  }

  // ---------------------------------------------------------------------
  // The S/N conversion

  /** Python's `float()` of a cell: a number is itself, a text is parsed. */
  function AsFloat(c: Cell, conv: Conversions): (r: Option<real>)
    ensures c.Num? ==> r == Some(c.value)
    ensures c.Blank? ==> r.None?
  {
    match c
    case Blank => None
    case Num(v) => Some(v)
    case Str(s) => conv.floatText(s)
  }

  /** Python's `int()` of a float: truncation toward zero. */
  function Trunc(v: real): (r: int)
    ensures v >= 0.0 ==> r as real <= v < r as real + 1.0
    ensures v < 0.0 ==> r as real - 1.0 < v <= r as real
  {
    if v >= 0.0 then v.Floor else -((-v).Floor)
  }

  /** The text of the `ValueError` that `float()` raises on a text. */
  function FloatError(s: string): string {
    "could not convert string to float: '" + s + "'"
  }

  /** The S/N conversion. NaN becomes "". A value whose text is digits once
      its dots are removed becomes the text of its integer part. Any other
      value keeps its text. A text that passes the digit test but that
      `float()` rejects, such as "1.2.3", raises. */
  function ConvertSerial(c: Cell, conv: Conversions): (r: Result<string, string>)
    ensures c.Blank? ==> r == Ok("")
    ensures r.Err? ==> c.Str? && conv.floatText(c.text).None? && r.error == FloatError(c.text)
    ensures c.Num? ==> r.Ok?
    ensures !c.Blank? && !AllDigits(RemoveChar(Render(c, conv), '.')) ==> r == Ok(Render(c, conv))
    ensures r.Err? <==> c.Str? && |RemoveChar(c.text, '.')| > 0 && AllDigits(RemoveChar(c.text, '.'))
                        && conv.floatText(c.text).None?
  {
    if c.Blank? then Ok("")
    else
      var text := Render(c, conv);
      var digits := RemoveChar(text, '.');
      if |digits| > 0 && AllDigits(digits) then
        match AsFloat(c, conv)
        case None => Err(FloatError(text))
        case Some(v) => Ok(IntToString(Trunc(v)))
      else Ok(text)
  }

  lemma {:induction false} RemoveAbsentChar(s: string, x: char)
    requires x !in s
    ensures RemoveChar(s, x) == s
    decreases |s|
  {
    if |s| > 0 {
      RemoveAbsentChar(s[1..], x);
      assert s == [s[0]] + s[1..];
    }
  }

  /** A value that passes the digit test and that `float()` accepts becomes
      the decimal text of its integer part, `str(int(float(x)))`; for a
      non-negative value that text reads back as the truncated value. */
  lemma SerialOfNumber(c: Cell, conv: Conversions)
    requires !c.Blank?
    requires |RemoveChar(Render(c, conv), '.')| > 0 && AllDigits(RemoveChar(Render(c, conv), '.'))
    requires AsFloat(c, conv).Some?
    ensures ConvertSerial(c, conv) == Ok(IntToString(Trunc(AsFloat(c, conv).value)))
    ensures AsFloat(c, conv).value >= 0.0 ==>
              AllDigits(ConvertSerial(c, conv).value)
              && DigitsValue(ConvertSerial(c, conv).value) == Trunc(AsFloat(c, conv).value)
  {
    var v := AsFloat(c, conv).value;
    if v >= 0.0 {
      NatToStringValue(Trunc(v));
    }
  }

  /** A numeric S/N cell that `str()` shows as "1.0" becomes "1", and the
      text "12.5" becomes "12". */
  lemma SerialExamples(conv: Conversions)
    requires conv.showNumber(1.0) == "1.0"
    requires conv.floatText("12.5") == Some(12.5)
    ensures ConvertSerial(Num(1.0), conv) == Ok("1")
    ensures ConvertSerial(Str("12.5"), conv) == Ok("12")
  {
    SerialOfOne(conv);
    SerialOfTwelve(conv);
  }

  lemma SerialOfOne(conv: Conversions)
    requires conv.showNumber(1.0) == "1.0"
    ensures ConvertSerial(Num(1.0), conv) == Ok("1")
  {
    DotsOfOne();
    SerialOfNumber(Num(1.0), conv);
    assert Trunc(1.0) == 1;
  }

  lemma SerialOfTwelve(conv: Conversions)
    requires conv.floatText("12.5") == Some(12.5)
    ensures ConvertSerial(Str("12.5"), conv) == Ok("12")
  {
    DotsOfTwelve();
    SerialOfNumber(Str("12.5"), conv);
    assert Trunc(12.5) == 12;
    assert NatToString(12) == "12" by {
      assert NatToString(12) == NatToString(1) + [DigitChar(2)];
    }
  }

  lemma DotsOfOne()
    ensures RemoveChar("1.0", '.') == "10" && AllDigits("10")
  {
    var s := "1.0";
    assert s[1..] == ".0" && s[1..][1..] == "0" && s[1..][1..][1..] == [];
  }

  lemma DotsOfTwelve()
    ensures RemoveChar("12.5", '.') == "125" && AllDigits("125")
  {
    var s := "12.5";
    assert s[1..] == "2.5" && s[1..][1..] == ".5" && s[1..][1..][1..] == "5" && s[1..][1..][1..][1..] == [];
  }

  /** A serial number written as digits keeps its value and loses its
      leading zeros: "007" becomes "7". */
  lemma SerialOfDigits(s: string, conv: Conversions)
    requires |s| > 0 && AllDigits(s)
    requires conv.floatText(s) == Some(DigitsValue(s) as real)
    ensures ConvertSerial(Str(s), conv) == Ok(NatToString(DigitsValue(s)))
    ensures DigitsValue(ConvertSerial(Str(s), conv).value) == DigitsValue(s)
  {
    assert forall i :: 0 <= i < |s| ==> s[i] != '.';
    RemoveAbsentChar(s, '.');
    NatToStringValue(DigitsValue(s));
  }

  /** A text that passes the digit test but that `float()` rejects raises the
      conversion error. */
  lemma SerialRejects(conv: Conversions)
    requires conv.floatText("1.2.3") == None
    ensures ConvertSerial(Str("1.2.3"), conv) == Err("could not convert string to float: '1.2.3'")
  {
    DotsRemoved();
    SerialRaises("1.2.3", conv);
    assert FloatError("1.2.3") == "could not convert string to float: '1.2.3'";
  }

  /** A text that is digits once its dots are removed, but that `float()`
      rejects, raises. */
  lemma SerialRaises(s: string, conv: Conversions)
    requires |RemoveChar(s, '.')| > 0 && AllDigits(RemoveChar(s, '.'))
    requires conv.floatText(s).None?
    ensures ConvertSerial(Str(s), conv) == Err(FloatError(s))
  {
  }

  lemma DotsRemoved()
    ensures |RemoveChar("1.2.3", '.')| > 0 && AllDigits(RemoveChar("1.2.3", '.'))
  {
    var r := RemoveChar("1.2.3", '.');
    assert '1' in "1.2.3";
    forall i | 0 <= i < |r| ensures IsDigit(r[i]) {
      assert r[i] in r;
    }
  }

  // ---------------------------------------------------------------------
  // Standardising one file

  /** Python's positional access into a row; pandas rows always have one
      cell per column, and a missing one reads as NaN. */
  function CellAt(cells: seq<Cell>, j: nat): Cell {
    if j < |cells| then cells[j] else Blank
  }

  /** The value template column `target` receives from a kept row, or the
      exception the S/N conversion raises. */
  function Field(cells: seq<Cell>, columns: seq<string>, name: string, target: string, conv: Conversions)
    : (r: Result<Cell, string>)
    ensures target == SourceFileColumn ==> r == Ok(Str(name))
    ensures target in BlankColumns ==> r == Ok(Str(""))
    ensures target != SerialColumn ==> r.Ok?
    ensures target != SourceFileColumn && MappedFrom(columns, ColumnMapping, target).None? ==> r == Ok(Str(""))
  {
    if target == SourceFileColumn then Ok(Str(name))
    else if target in BlankColumns then Ok(Str(""))
    else
      match MappedFrom(columns, ColumnMapping, target)
      case None => Ok(Str(""))
      case Some(src) =>
        var c := CellAt(cells, ColumnIndex(columns, src).value);
        if target == SerialColumn then
          match ConvertSerial(c, conv)
          case Ok(s) => Ok(Str(s))
          case Err(e) => Err(e)
        else Ok(Str(Render(c, conv)))
  }

  /** The fields of one row for the given template columns, or the first
      exception. */
  function Fields(cells: seq<Cell>, columns: seq<string>, name: string, targets: seq<string>, conv: Conversions)
    : (r: Result<seq<Cell>, string>)
    ensures r.Ok? <==> forall k :: 0 <= k < |targets| ==> Field(cells, columns, name, targets[k], conv).Ok?
    ensures r.Ok? ==> |r.value| == |targets|
                      && forall k :: 0 <= k < |targets| ==>
                           r.value[k] == Field(cells, columns, name, targets[k], conv).value
    ensures r.Err? ==> exists k :: 0 <= k < |targets|
                                   && Field(cells, columns, name, targets[k], conv) == Err(r.error)
  {
    if |targets| == 0 then Ok([])
    else
      match Field(cells, columns, name, targets[0], conv)
      case Err(e) => Err(e)
      case Ok(c) =>
        match Fields(cells, columns, name, targets[1..], conv)
        case Err(e) =>
          var k :| 0 <= k < |targets[1..]| && Field(cells, columns, name, targets[1..][k], conv) == Err(e);
          assert targets[k + 1] == targets[1..][k];
          Err(e)
        case Ok(cs) =>
          assert forall k :: 0 < k < |targets| ==> targets[k] == targets[1..][k - 1];
          Ok([c] + cs)
  }

  /** One kept row recast onto the template. */
  function StandardRow(cells: seq<Cell>, columns: seq<string>, name: string, conv: Conversions)
    : (r: Result<seq<Cell>, string>)
    ensures r.Ok? ==> TemplateRow(r.value, name)
    ensures r.Err? ==> Field(cells, columns, name, SerialColumn, conv) == Err(r.error)
  {
    Fields(cells, columns, name, TemplateColumns, conv)
  }

  /** A row of the template: 18 cells, the file name under Source_File and ""
      under every blank column. */
  predicate TemplateRow(row: seq<Cell>, name: string) {
    |row| == |TemplateColumns|
    && forall k :: 0 <= k < |TemplateColumns| ==>
         (TemplateColumns[k] == SourceFileColumn ==> row[k] == Str(name))
         && (TemplateColumns[k] in BlankColumns ==> row[k] == Str(""))
  }

  /** `f` applied to every element in order, stopping at the first error:
      a column `apply` whose function may raise. */
  function TryMap<A, B>(xs: seq<A>, f: A -> Result<B, string>): (r: Result<seq<B>, string>)
    ensures r.Ok? ==> |r.value| == |xs| && forall i :: 0 <= i < |xs| ==> f(xs[i]) == Ok(r.value[i])
    ensures r.Err? ==> exists i :: 0 <= i < |xs| && f(xs[i]) == Err(r.error)
                                   && forall j :: 0 <= j < i ==> f(xs[j]).Ok?
  {
    if |xs| == 0 then Ok([])
    else
      match f(xs[0])
      case Err(e) => Err(e)
      case Ok(y) =>
        match TryMap(xs[1..], f)
        case Err(e) =>
          var i :| 0 <= i < |xs[1..]| && f(xs[1..][i]) == Err(e)
                   && forall j :: 0 <= j < i ==> f(xs[1..][j]).Ok?;
          assert forall j :: 0 < j <= i ==> xs[j] == xs[1..][j - 1];
          Err(e)
        case Ok(ys) =>
          assert forall i :: 0 < i < |xs| ==> xs[i] == xs[1..][i - 1];
          Ok([y] + ys)
  }

  /** The kept rows recast onto the template, positionally: output row `i`
      holds the fields of kept row `i`. The first failing row raises. */
  function StandardRows(rows: seq<LabeledRow>, columns: seq<string>, name: string, conv: Conversions)
    : (r: Result<seq<seq<Cell>>, string>)
    ensures r.Ok? ==> |r.value| == |rows|
                      && forall i :: 0 <= i < |rows| ==>
                           StandardRow(rows[i].cells, columns, name, conv) == Ok(r.value[i])
    ensures r.Err? ==> exists i :: 0 <= i < |rows|
                                   && StandardRow(rows[i].cells, columns, name, conv) == Err(r.error)
                                   && forall j :: 0 <= j < i ==> StandardRow(rows[j].cells, columns, name, conv).Ok?
  {
    TryMap(rows, (x: LabeledRow) => StandardRow(x.cells, columns, name, conv))
  }

  // ---------------------------------------------------------------------
  // Index alignment of the copied columns, as written

  /** The position of the kept row carrying index label `j`, if any. */
  function LabelPosition(rows: seq<LabeledRow>, j: nat): (r: Option<nat>)
    ensures r.Some? ==> r.value < |rows| && rows[r.value].index == j
    ensures r.None? ==> forall i :: 0 <= i < |rows| ==> rows[i].index != j
  {
    if |rows| == 0 then None
    else if rows[0].index == j then Some(0)
    else
      match LabelPosition(rows[1..], j)
      case None => None
      case Some(i) => Some(i + 1)
  }

  /** What a template row holds where no kept row supplies it: NaN under
      the copied columns, "" under the others, the file name as provenance. */
  function GapField(columns: seq<string>, name: string, target: string): Cell {
    if target == SourceFileColumn then Str(name)
    else if target in BlankColumns then Str("")
    else if MappedFrom(columns, ColumnMapping, target).Some? then Blank
    else Str("")
  }

  function GapRow(columns: seq<string>, name: string): (r: seq<Cell>)
    ensures TemplateRow(r, name)
  {
    seq(|TemplateColumns|, k requires 0 <= k < |TemplateColumns| => GapField(columns, name, TemplateColumns[k]))
  }

  /** The standardisation as written: each copied column is a series indexed
      by the kept rows' labels, assigned onto a frame indexed 0, 1, ...; pandas
      aligns on the labels, so output row `j` receives the kept row labelled
      `j`, and NaN where no kept row carries that label. */
  function StandardRowsAsWritten(rows: seq<LabeledRow>, columns: seq<string>, name: string, conv: Conversions)
    : (r: Result<seq<seq<Cell>>, string>)
    ensures r.Err? <==> StandardRows(rows, columns, name, conv).Err?
    ensures r.Ok? ==> |r.value| == |rows| && forall j :: 0 <= j < |rows| ==> TemplateRow(r.value[j], name)
  {
    match StandardRows(rows, columns, name, conv)
    case Err(e) => Err(e)
    case Ok(std) =>
      Ok(seq(|rows|, j requires 0 <= j < |rows| =>
        match LabelPosition(rows, j)
        case Some(i) => std[i]
        case None => GapRow(columns, name)))
  }

  /** When no row before the last kept one was dropped, the labels are
      0, 1, ... and the alignment is the positional copy. */
  lemma AlignmentFaithfulWhenContiguous(rows: seq<LabeledRow>, columns: seq<string>, name: string, conv: Conversions)
    requires forall i :: 0 <= i < |rows| ==> rows[i].index == i
    ensures StandardRowsAsWritten(rows, columns, name, conv) == StandardRows(rows, columns, name, conv)
  {
    match StandardRows(rows, columns, name, conv)
    case Err(e) =>
    case Ok(std) =>
      var aligned := StandardRowsAsWritten(rows, columns, name, conv).value;
      forall j | 0 <= j < |rows|
        ensures aligned[j] == std[j]
      {
        var p := LabelPosition(rows, j);
        assert rows[j].index == j;
        assert p.Some? && p.value == j;
      }
      assert |aligned| == |std|;
      assert aligned == std;
  }

  /** A PAYMENT SUMMARY sheet whose header is followed by an empty line. */
  const GapSheet: Table := Table(
    ["S/N", "AMOUNT RECOMMENDED FOR PAYMENT (N)"],
    [[Blank, Blank], [Str("1"), Str("500")]])

  /** What the filter keeps of it: the data row, with its label 1. */
  const GapKept: seq<LabeledRow> := [LabeledRow(1, [Str("1"), Str("500")])]

  const GapFile: string := "Schedule 12.xlsx"

  lemma GapSheetRows(conv: Conversions)
    requires conv.floatText("1") == Some(1.0)
    ensures SheetRows(GapSheet, conv) == GapKept
  {
    GapFilled();
    GapDataRow(conv);
    CleanRowsOneData(GapKept[0], conv);
  }

  /** Dropping the all-NaN rows leaves the labelled data row. */
  lemma GapFilled()
    ensures DropAllBlank(Labeled(GapSheet.rows)) == GapKept
  {
    var row := [Str("1"), Str("500")];
    var labeled := Labeled(GapSheet.rows);
    assert labeled == [LabeledRow(0, [Blank, Blank]), LabeledRow(1, row)];
    assert AllBlank([Blank, Blank]);
    assert !AllBlank(row) by {
      assert !row[0].Blank?;
    }
    assert labeled[1..][1..] == [];
  }

  lemma GapDataRow(conv: Conversions)
    requires conv.floatText("1") == Some(1.0)
    ensures IsDataRow(GapKept[0].cells, conv)
  {
    StripClean("1");
    ShortNotTotal("1");
  }

  /** A text of at most two characters holds none of the total words. */
  lemma ShortNotTotal(s: string)
    requires |s| <= 2
    ensures !IsTotalText(s)
  {
    forall k | 0 <= k < |TotalWords|
      ensures !Contains(Upper(s), TotalWords[k])
    {
      ContainsShorter(Upper(s), TotalWords[k]);
    }
  }

  /** A single data row is kept by the row filter. */
  lemma CleanRowsOneData(x: LabeledRow, conv: Conversions)
    requires IsDataRow(x.cells, conv)
    ensures CleanRows([x], conv) == [x]
  {
    var r := CleanRows([x], conv);
    assert x in [x];
    assert x in r;
    assert |r| == 1;
    assert r[0] in r;
  }

  /** The template columns S_N and AMOUNT_RECOMMENDED_FOR_PAYMENT_N of the
      sheet come from its two columns. */
  lemma GapSheetMapping()
    ensures MappedFrom(GapSheet.columns, ColumnMapping, SerialColumn) == Some("S/N")
    ensures MappedFrom(GapSheet.columns, ColumnMapping, AmountColumn) == Some("AMOUNT RECOMMENDED FOR PAYMENT (N)")
  {
    GapSerialFrom();
    GapAmountFrom();
  }

  lemma GapSerialFrom()
    ensures MappedFrom(GapSheet.columns, ColumnMapping, SerialColumn) == Some("S/N")
  {
    assert ColumnMapping[0] == ("S/N", SerialColumn);
    assert LastMappedAt(GapSheet.columns, ColumnMapping, SerialColumn, 0);
    MappedFromAt(GapSheet.columns, ColumnMapping, SerialColumn, 0);
  }

  lemma GapAmountFrom()
    ensures MappedFrom(GapSheet.columns, ColumnMapping, AmountColumn) == Some("AMOUNT RECOMMENDED FOR PAYMENT (N)")
  {
    assert ColumnMapping[1] == ("AMOUNT RECOMMENDED FOR PAYMENT (N)", AmountColumn);
    assert LastMappedAt(GapSheet.columns, ColumnMapping, AmountColumn, 1);
    MappedFromAt(GapSheet.columns, ColumnMapping, AmountColumn, 1);
  }

  /** The kept row's S/N and amount fields. */
  lemma GapKeptFields(conv: Conversions)
    requires conv.floatText("1") == Some(1.0)
    ensures Field(GapKept[0].cells, GapSheet.columns, GapFile, SerialColumn, conv) == Ok(Str("1"))
    ensures Field(GapKept[0].cells, GapSheet.columns, GapFile, AmountColumn, conv) == Ok(Str("500"))
  {
    var columns := GapSheet.columns;
    GapSheetMapping();
    assert ColumnIndex(columns, "S/N") == Some(0);
    assert ColumnIndex(columns, "AMOUNT RECOMMENDED FOR PAYMENT (N)") == Some(1);
    assert ConvertSerial(Str("1"), conv) == Ok("1") by {
      assert RemoveChar("1", '.') == "1";
      assert Trunc(1.0) == 1;
    }
  }

  /** The positional copy of the kept row: S/N "1" and amount "500". */
  lemma GapKeptPositional(conv: Conversions)
    requires conv.floatText("1") == Some(1.0)
    ensures var r := StandardRows(GapKept, GapSheet.columns, GapFile, conv);
            r.Ok? && |r.value| == 1 && |r.value[0]| == |TemplateColumns|
            && r.value[0][0] == Str("1") && r.value[0][8] == Str("500")
  {
    GapStandardRow(conv);
    StandardRowsOne(GapKept[0], GapSheet.columns, GapFile, conv);
  }

  lemma GapStandardRow(conv: Conversions)
    requires conv.floatText("1") == Some(1.0)
    ensures var std := StandardRow(GapKept[0].cells, GapSheet.columns, GapFile, conv);
            std.Ok? && |std.value| == |TemplateColumns|
            && std.value[0] == Str("1") && std.value[8] == Str("500")
  {
    var columns := GapSheet.columns;
    var cells := GapKept[0].cells;
    GapKeptFields(conv);
    StandardRowCells(cells, columns, GapFile, conv, Str("1"), Str("500"));
  }

  /** Only the S/N conversion can fail, and a standardised row holds the S/N
      and amount fields at the template's positions 0 and 8. */
  lemma StandardRowCells(cells: seq<Cell>, columns: seq<string>, name: string, conv: Conversions,
                         serial: Cell, amount: Cell)
    requires Field(cells, columns, name, SerialColumn, conv) == Ok(serial)
    requires Field(cells, columns, name, AmountColumn, conv) == Ok(amount)
    ensures StandardRow(cells, columns, name, conv).Ok?
    ensures StandardRow(cells, columns, name, conv).value[0] == serial
    ensures StandardRow(cells, columns, name, conv).value[8] == amount
  {
    assert TemplateColumns[0] == SerialColumn && TemplateColumns[8] == AmountColumn;
  }

  /** A single kept row standardises to the one-row frame of its template row. */
  lemma StandardRowsOne(row: LabeledRow, columns: seq<string>, name: string, conv: Conversions)
    requires StandardRow(row.cells, columns, name, conv).Ok?
    ensures StandardRows([row], columns, name, conv) == Ok([StandardRow(row.cells, columns, name, conv).value])
  {
    var r := StandardRows([row], columns, name, conv);
    assert r.Ok?;
    assert StandardRow([row][0].cells, columns, name, conv) == Ok(r.value[0]);
    assert r.value == [r.value[0]];
  }

  /** The aligned copy: output row 0 looks for label 0, the dropped empty
      line, so it holds NaN under S_N and the amount. */
  lemma GapKeptAligned(conv: Conversions)
    requires conv.floatText("1") == Some(1.0)
    ensures var r := StandardRowsAsWritten(GapKept, GapSheet.columns, GapFile, conv);
            r.Ok? && |r.value| == 1 && |r.value[0]| == |TemplateColumns|
            && r.value[0][0] == Blank && r.value[0][8] == Blank
  {
    GapKeptPositional(conv);
    GapRowCells();
    assert LabelPosition(GapKept, 0).None?;
    AlignedGap(GapKept, GapSheet.columns, GapFile, conv, 0);
  }

  /** Where the sheet maps both S_N and the amount, the gap row holds NaN
      under them. */
  lemma GapRowCells()
    ensures GapRow(GapSheet.columns, GapFile)[0] == Blank
    ensures GapRow(GapSheet.columns, GapFile)[8] == Blank
  {
    GapSheetMapping();
    var gap := GapRow(GapSheet.columns, GapFile);
    assert TemplateColumns[0] == SerialColumn && TemplateColumns[8] == AmountColumn;
    assert gap[0] == GapField(GapSheet.columns, GapFile, SerialColumn);
    assert gap[8] == GapField(GapSheet.columns, GapFile, AmountColumn);
  }

  /** Output row `j` of the aligned copy is the gap row when no kept row
      carries label `j`. */
  lemma AlignedGap(rows: seq<LabeledRow>, columns: seq<string>, name: string, conv: Conversions, j: nat)
    requires StandardRows(rows, columns, name, conv).Ok? && j < |rows| && LabelPosition(rows, j).None?
    ensures StandardRowsAsWritten(rows, columns, name, conv).Ok?
    ensures StandardRowsAsWritten(rows, columns, name, conv).value[j] == GapRow(columns, name)
  {
  }

  // ---------------------------------------------------------------------
  // Compiling the uploaded files

  datatype Sheet = Sheet(name: string, table: Table)

  /** An uploaded workbook: one `pd.ExcelFile` can open, with its sheets as
      `read_excel` returns them (for PAYMENT SUMMARY, with the header taken
      from the sheet's second row), or one whose opening raises. */
  datatype Book = Unreadable(reason: string) | Workbook(sheets: seq<Sheet>)

  datatype Upload = Upload(name: string, book: Book)

  datatype Status = Success | NoPaymentSummary | Failed(reason: string)

  /** One line of the processing summary. */
  datatype FileRecord = FileRecord(file: string, rows: nat, status: Status)

  /** The Status column of the processing summary. */
  function StatusText(s: Status): string {
    match s
    case Success => "Success"
    case NoPaymentSummary => "No PAYMENT SUMMARY sheet found"
    case Failed(reason) => "Error: " + reason
  }

  const PaymentSummary: string := "PAYMENT SUMMARY"

  /** The first sheet with exactly this name. */
  function SheetNamed(sheets: seq<Sheet>, name: string): (r: Option<Table>)
    ensures r.None? <==> forall i :: 0 <= i < |sheets| ==> sheets[i].name != name
    ensures r.Some? ==> exists i :: 0 <= i < |sheets| && sheets[i] == Sheet(name, r.value)
  {
    if |sheets| == 0 then None
    else if sheets[0].name == name then Some(sheets[0].table)
    else
      var r := SheetNamed(sheets[1..], name);
      assert forall i :: 0 < i < |sheets| ==> sheets[i] == sheets[1..][i - 1];
      r
  }

  /** pandas' `df.empty`: no rows or no columns. */
  predicate EmptyFrame(t: Table) {
    |t.rows| == 0 || |t.columns| == 0
  }

  /** A standardised frame: the template header and template rows carrying
      the file name. */
  predicate StandardFrame(t: Table, name: string) {
    t.columns == TemplateColumns
    && forall i :: 0 <= i < |t.rows| ==> TemplateRow(t.rows[i], name)
  }

  /** What one file contributes: a frame and a summary line, either of which
      may be absent. */
  datatype FileOutcome = FileOutcome(frame: Option<Table>, record: Option<FileRecord>)

  /** The PAYMENT SUMMARY sheet of an upload, when it opens and has one. */
  function PaymentSheet(u: Upload): Option<Table> {
    if u.book.Workbook? then SheetNamed(u.book.sheets, PaymentSummary) else None
  }

  /** One pass of the loop over the uploads. */
  function CompileFile(u: Upload, conv: Conversions): (r: FileOutcome)
    ensures r.record.None? <==> PaymentSheet(u).Some? && EmptyFrame(PaymentSheet(u).value)
    ensures r.record.Some? ==> r.record.value.file == u.name
    ensures r.frame.Some? <==> r.record.Some? && r.record.value.status == Success
    ensures r.frame.Some? ==> StandardFrame(r.frame.value, u.name)
                              && r.record.value.rows == |r.frame.value.rows|
                              && PaymentSheet(u).Some?
                              && |r.frame.value.rows| == |SheetRows(PaymentSheet(u).value, conv)|
    ensures r.record.Some? && r.record.value.status != Success ==> r.record.value.rows == 0
    ensures u.book.Unreadable? ==> r.record == Some(FileRecord(u.name, 0, Failed(u.book.reason)))
    ensures u.book.Workbook? && PaymentSheet(u).None? ==>
              r.record == Some(FileRecord(u.name, 0, NoPaymentSummary))
    ensures PaymentSheet(u).Some? && !EmptyFrame(PaymentSheet(u).value) ==>
              StandardizedAs(u, r, StandardRows(SheetRows(PaymentSheet(u).value, conv), PaymentSheet(u).value.columns, u.name, conv))
  {
    match u.book
    case Unreadable(reason) => FileOutcome(None, Some(FileRecord(u.name, 0, Failed(reason))))
    case Workbook(sheets) =>
      match SheetNamed(sheets, PaymentSummary)
      case None => FileOutcome(None, Some(FileRecord(u.name, 0, NoPaymentSummary)))
      case Some(t) =>
        if EmptyFrame(t) then FileOutcome(None, None)
        else
          var rows := SheetRows(t, conv);
          match StandardRows(rows, t.columns, u.name, conv)
          case Err(e) => FileOutcome(None, Some(FileRecord(u.name, 0, Failed(e))))
          case Ok(std) =>
            StandardRowsFrame(rows, t.columns, u.name, conv);
            FileOutcome(Some(Table(TemplateColumns, std)), Some(FileRecord(u.name, |std|, Success)))
  }

  /** The file's summary line follows the standardisation: Success with the
      standardised frame when it succeeds, and the exception's text when it
      raises. */
  predicate StandardizedAs(u: Upload, r: FileOutcome, std: Result<seq<seq<Cell>>, string>) {
    && r.record.Some?
    && (r.record.value.status == Success <==> std.Ok?)
    && (std.Ok? ==> r.frame == Some(Table(TemplateColumns, std.value)))
    && (std.Err? ==> r.record.value == FileRecord(u.name, 0, Failed(std.error)))
  }

  /** One pass of the loop as the program writes it: the frame is built from
      the label-aligned copy, so a sheet with a dropped line before its last
      data line gets NaN rows. The summary line is that of CompileFile. */
  function CompileFileAsWritten(u: Upload, conv: Conversions): (r: FileOutcome)
    ensures r.record == CompileFile(u, conv).record
    ensures r.frame.Some? <==> CompileFile(u, conv).frame.Some?
    ensures r.frame.Some? ==> StandardFrame(r.frame.value, u.name)
                              && |r.frame.value.rows| == |CompileFile(u, conv).frame.value.rows|
    ensures PaymentSheet(u).Some? && !EmptyFrame(PaymentSheet(u).value) ==>
              StandardizedAs(u, r, StandardRowsAsWritten(SheetRows(PaymentSheet(u).value, conv),
                                                         PaymentSheet(u).value.columns, u.name, conv))
  {
    match u.book
    case Unreadable(reason) => FileOutcome(None, Some(FileRecord(u.name, 0, Failed(reason))))
    case Workbook(sheets) =>
      match SheetNamed(sheets, PaymentSummary)
      case None => FileOutcome(None, Some(FileRecord(u.name, 0, NoPaymentSummary)))
      case Some(t) =>
        if EmptyFrame(t) then FileOutcome(None, None)
        else
          var rows := SheetRows(t, conv);
          match StandardRowsAsWritten(rows, t.columns, u.name, conv)
          case Err(e) => FileOutcome(None, Some(FileRecord(u.name, 0, Failed(e))))
          case Ok(std) =>
            FileOutcome(Some(Table(TemplateColumns, std)), Some(FileRecord(u.name, |std|, Success)))
  }

  /** When the kept lines carry the labels 0, 1, ..., the pass as written
      and the corrected pass give the same frame. */
  lemma CompileFileAsWrittenWhenContiguous(u: Upload, conv: Conversions)
    requires PaymentSheet(u).Some?
    requires var rows := SheetRows(PaymentSheet(u).value, conv);
             forall i :: 0 <= i < |rows| ==> rows[i].index == i
    ensures CompileFileAsWritten(u, conv) == CompileFile(u, conv)
  {
    var t := PaymentSheet(u).value;
    AlignmentFaithfulWhenContiguous(SheetRows(t, conv), t.columns, u.name, conv);
  }

  /** An upload whose PAYMENT SUMMARY sheet is the sheet with a blank first
      line: as written, the file's frame holds one row, and NaN sits under
      S_N and the amount; the corrected pass keeps "1" and "500". */
  lemma GapUploadCompiled(conv: Conversions)
    requires conv.floatText("1") == Some(1.0)
    ensures var u := Upload(GapFile, Workbook([Sheet(PaymentSummary, GapSheet)]));
            var w := CompileFileAsWritten(u, conv);
            var c := CompileFile(u, conv);
            && w.frame.Some? && |w.frame.value.rows| == 1
            && w.frame.value.rows[0][0] == Blank && w.frame.value.rows[0][8] == Blank
            && c.frame.Some? && |c.frame.value.rows| == 1
            && c.frame.value.rows[0][0] == Str("1") && c.frame.value.rows[0][8] == Str("500")
  {
    var u := Upload(GapFile, Workbook([Sheet(PaymentSummary, GapSheet)]));
    assert SheetNamed(u.book.sheets, PaymentSummary) == Some(GapSheet);
    GapSheetRows(conv);
    GapKeptAligned(conv);
    GapKeptPositional(conv);
  }

  /** Standardised rows form a frame with the template's header. */
  lemma StandardRowsFrame(rows: seq<LabeledRow>, columns: seq<string>, name: string, conv: Conversions)
    requires StandardRows(rows, columns, name, conv).Ok?
    ensures StandardFrame(Table(TemplateColumns, StandardRows(rows, columns, name, conv).value), name)
  {
    var std := StandardRows(rows, columns, name, conv).value;
    forall i | 0 <= i < |std| ensures TemplateRow(std[i], name) {
      assert StandardRow(rows[i].cells, columns, name, conv) == Ok(std[i]);
    }
  }

  function OptionSeq<T>(o: Option<T>): (r: seq<T>)
    ensures o.None? ==> r == []
    ensures o.Some? ==> r == [o.value]
  {
    if o.Some? then [o.value] else []
  }

  /** The present results of `f` on `xs`, in order: a loop that appends
      at most one item per element. */
  function Collect<A, B>(xs: seq<A>, f: A -> Option<B>): (r: seq<B>)
    ensures |r| <= |xs|
  {
    if |xs| == 0 then []
    else Collect(xs[..|xs| - 1], f) + OptionSeq(f(xs[|xs| - 1]))
  }

  lemma {:induction false} CollectAppend<A, B>(a: seq<A>, b: seq<A>, f: A -> Option<B>)
    ensures Collect(a + b, f) == Collect(a, f) + Collect(b, f)
    decreases |b|
  {
    if |b| == 0 {
      assert a + b == a;
    } else {
      var b' := b[..|b| - 1];
      assert (a + b)[..|a + b| - 1] == a + b';
      assert (a + b)[|a + b| - 1] == b[|b| - 1];
      CollectAppend(a, b', f);
      var ca, cb, last := Collect(a, f), Collect(b', f), OptionSeq(f(b[|b| - 1]));
      assert Collect(a + b, f) == ca + cb + last;
      assert ca + cb + last == ca + (cb + last);
    }
  }

  /** What `Collect` keeps is exactly what `f` yields on some element. */
  lemma {:induction false} CollectMembers<A, B(!new)>(xs: seq<A>, f: A -> Option<B>)
    ensures forall y :: y in Collect(xs, f) <==> exists i :: 0 <= i < |xs| && f(xs[i]) == Some(y)
  {
    if |xs| > 0 {
      var init := xs[..|xs| - 1];
      CollectMembers(init, f);
      assert forall i :: 0 <= i < |init| ==> init[i] == xs[i];
    }
  }

  /** The processing summary: one line per file, in upload order, except
      for files whose PAYMENT SUMMARY sheet is empty. */
  function Summary(uploads: seq<Upload>, conv: Conversions): (r: seq<FileRecord>)
    ensures |r| <= |uploads|
  {
    Collect(uploads, (u: Upload) => CompileFile(u, conv).record)
  }

  /** The standardised frames, in upload order. */
  function Frames(uploads: seq<Upload>, conv: Conversions): seq<Table> {
    Collect(uploads, (u: Upload) => CompileFile(u, conv).frame)
  }

  /** The summary lines of the files that compiled. */
  function Successes(summary: seq<FileRecord>): seq<FileRecord> {
    Filter(summary, (x: FileRecord) => x.status == Success)
  }

  /** Each frame carries the name of, and as many rows as, the summary line
      at the same position. */
  predicate FramesMatch(frames: seq<Table>, successes: seq<FileRecord>) {
    |frames| == |successes|
    && forall i :: 0 <= i < |frames| ==>
         StandardFrame(frames[i], successes[i].file) && |frames[i].rows| == successes[i].rows
  }

  lemma FramesMatchAppend(f: seq<Table>, s: seq<FileRecord>, g: seq<Table>, t: seq<FileRecord>)
    requires FramesMatch(f, s) && FramesMatch(g, t)
    ensures FramesMatch(f + g, s + t)
  {
    forall i | 0 <= i < |f + g|
      ensures StandardFrame((f + g)[i], (s + t)[i].file) && |(f + g)[i].rows| == (s + t)[i].rows
    {
      if i >= |f| {
        assert (f + g)[i] == g[i - |f|] && (s + t)[i] == t[i - |s|];
      }
    }
  }

  /** The i-th frame belongs to the i-th file that compiled: it carries that
      file's name and as many rows as the summary reports. */
  lemma {:induction false} FramesMatchSummary(uploads: seq<Upload>, conv: Conversions)
    ensures |Frames(uploads, conv)| == |Successes(Summary(uploads, conv))|
    ensures forall i :: 0 <= i < |Frames(uploads, conv)| ==>
              StandardFrame(Frames(uploads, conv)[i], Successes(Summary(uploads, conv))[i].file)
              && |Frames(uploads, conv)[i].rows| == Successes(Summary(uploads, conv))[i].rows
    decreases |uploads|
  {
    FramesMatchSummaryP(uploads, conv);
  }

  lemma {:induction false} FramesMatchSummaryP(uploads: seq<Upload>, conv: Conversions)
    ensures FramesMatch(Frames(uploads, conv), Successes(Summary(uploads, conv)))
    decreases |uploads|
  {
    if |uploads| > 0 {
      var front := uploads[..|uploads| - 1];
      FramesMatchSummaryP(front, conv);
      var o := CompileFile(uploads[|uploads| - 1], conv);
      CompileSnoc(uploads, conv);
      OutcomeMatch(o);
      FilterAppend(Summary(front, conv), OptionSeq(o.record), (x: FileRecord) => x.status == Success);
      FramesMatchAppend(Frames(front, conv), Successes(Summary(front, conv)),
                        OptionSeq(o.frame), Successes(OptionSeq(o.record)));
    }
  }

  lemma CompileSnoc(uploads: seq<Upload>, conv: Conversions)
    requires |uploads| > 0
    ensures Frames(uploads, conv) == Frames(uploads[..|uploads| - 1], conv)
                                     + OptionSeq(CompileFile(uploads[|uploads| - 1], conv).frame)
    ensures Summary(uploads, conv) == Summary(uploads[..|uploads| - 1], conv)
                                      + OptionSeq(CompileFile(uploads[|uploads| - 1], conv).record)
  {
  }

  /** A single outcome's frame matches its summary line when it succeeded. */
  lemma OutcomeMatch(o: FileOutcome)
    requires o.frame.Some? <==> o.record.Some? && o.record.value.status == Success
    requires o.frame.Some? ==> StandardFrame(o.frame.value, o.record.value.file)
                               && o.record.value.rows == |o.frame.value.rows|
    ensures FramesMatch(OptionSeq(o.frame), Successes(OptionSeq(o.record)))
  {
  }

  /** The compiled frames and the processing summary. */
  datatype Compiled = Compiled(frames: seq<Table>, summary: seq<FileRecord>)

  /** `compile_appeals_files`: the files are processed one after the other,
      and a file's failure does not affect the others. */
  function Compile(uploads: seq<Upload>, conv: Conversions): (r: Compiled)
    ensures |r.summary| <= |uploads|
    ensures |r.frames| == |Successes(r.summary)|
    ensures forall i :: 0 <= i < |r.frames| ==>
              StandardFrame(r.frames[i], Successes(r.summary)[i].file)
              && |r.frames[i].rows| == Successes(r.summary)[i].rows
  {
    FramesMatchSummary(uploads, conv);
    Compiled(Frames(uploads, conv), Summary(uploads, conv))
  }

  /** Files are compiled independently: compiling two batches of uploads in
      one go is compiling each and concatenating. */
  lemma CompileAppend(a: seq<Upload>, b: seq<Upload>, conv: Conversions)
    ensures Summary(a + b, conv) == Summary(a, conv) + Summary(b, conv)
    ensures Frames(a + b, conv) == Frames(a, conv) + Frames(b, conv)
  {
    CollectAppend(a, b, (u: Upload) => CompileFile(u, conv).record);
    CollectAppend(a, b, (u: Upload) => CompileFile(u, conv).frame);
  }

  /** Each file contributes at most one summary line, naming that file. */
  lemma CompileOne(u: Upload, conv: Conversions)
    ensures Summary([u], conv) == OptionSeq(CompileFile(u, conv).record)
    ensures forall x :: x in Summary([u], conv) ==> x.file == u.name
  {
    assert [u][..0] == [];
  }

  // ---------------------------------------------------------------------
  // The schedule number in a file name

  /** `w` (lower case) occurs at `i` in `s`, ignoring ASCII case. */
  predicate CaseInsensitiveAt(s: string, i: nat, w: string) {
    i + |w| <= |s| && forall k :: 0 <= k < |w| ==> LowerChar(s[i + k]) == w[k]
  }

  /** The end of the run of whitespace starting at `j` (`\s*`). */
  function SkipSpace(s: string, j: nat): (r: nat)
    requires j <= |s|
    ensures j <= r <= |s|
    ensures forall k :: j <= k < r ==> IsSpace(s[k])
    ensures r == |s| || !IsSpace(s[r])
    decreases |s| - j
  {
    if j < |s| && IsSpace(s[j]) then SkipSpace(s, j + 1) else j
  }

  /** The longest run of digits starting at `j` (greedy `\d+`, possibly
      empty). */
  function DigitRun(s: string, j: nat): (r: string)
    requires j <= |s|
    ensures j + |r| <= |s|
    decreases |s| - j
  {
    if j < |s| && IsDigit(s[j]) then [s[j]] + DigitRun(s, j + 1) else []
  }

  /** The run is the digits of `s` from `j` on, up to the first non-digit. */
  lemma {:induction false} DigitRunMaximal(s: string, j: nat)
    requires j <= |s|
    ensures var r := DigitRun(s, j);
            AllDigits(r) && s[j..j + |r|] == r && (j + |r| == |s| || !IsDigit(s[j + |r|]))
    decreases |s| - j
  {
    if j < |s| && IsDigit(s[j]) {
      DigitRunMaximal(s, j + 1);
    }
  }

  /** The alternative `w\s*(\d+)` tried at `i`. */
  function MatchWord(s: string, i: nat, w: string): (r: Option<string>)
    requires i <= |s|
    ensures r.Some? ==> |r.value| > 0 && AllDigits(r.value) && Contains(s, r.value)
  {
    if CaseInsensitiveAt(s, i, w) then
      var j := SkipSpace(s, i + |w|);
      var d := DigitRun(s, j);
      if |d| > 0 then
        DigitRunMaximal(s, j);
        assert InfixAt(s, d, j);
        ContainsIff(s, d);
        Some(d)
      else None
    else None
  }

  /** The alternatives tried in order at `i`: the first that matches. */
  function MatchFirst(s: string, i: nat, words: seq<string>): (r: Option<string>)
    requires i <= |s|
    ensures r.Some? ==> |r.value| > 0 && AllDigits(r.value) && Contains(s, r.value)
  {
    if |words| == 0 then None
    else
      var m := MatchWord(s, i, words[0]);
      if m.Some? then m else MatchFirst(s, i, words[1..])
  }

  /** The alternatives of the pattern, lower-cased. */
  const ScheduleWords: seq<string> := ["schedule", "sch"]

  /** `(?:Schedule|SCH)\s*(\d+)` under IGNORECASE, tried at `i`: the first
      alternative first. The group is the maximal digit run after the word
      and any whitespace. */
  function MatchAt(s: string, i: nat): (r: Option<string>)
    requires i <= |s|
    ensures r.Some? ==> |r.value| > 0 && AllDigits(r.value) && Contains(s, r.value)
  {
    MatchFirst(s, i, ScheduleWords)
  }

  /** `re.search` from position `i` on: the leftmost match. */
  function SearchFrom(s: string, i: nat): (r: Option<string>)
    requires i <= |s|
    ensures r.None? <==> forall j :: i <= j <= |s| ==> MatchAt(s, j).None?
    ensures r.Some? ==> exists j :: i <= j <= |s| && MatchAt(s, j) == r
                                    && forall k :: i <= k < j ==> MatchAt(s, k).None?
    decreases |s| - i
  {
    var m := MatchAt(s, i);
    if m.Some? then m
    else if i == |s| then None
    else SearchFrom(s, i + 1)
  }

  /** `extract_schedule_from_filename`: the digits after the leftmost
      "Schedule" or "SCH" (any case) and optional whitespace, or `None`. */
  function ExtractScheduleFromFilename(name: string): (r: Option<string>)
    ensures r.Some? ==> |r.value| > 0 && AllDigits(r.value) && Contains(name, r.value)
    ensures r.None? <==> forall j :: 0 <= j <= |name| ==> MatchAt(name, j).None?
    ensures r.Some? ==> exists j :: 0 <= j <= |name| && MatchAt(name, j) == r
                                    && forall k :: 0 <= k < j ==> MatchAt(name, k).None?
  {
    SearchFrom(name, 0)
  }

  /** Where a match is known at `j` and none before it, the search returns
      it. */
  lemma LeftmostMatch(s: string, j: nat)
    requires j <= |s| && MatchAt(s, j).Some?
    requires forall k :: 0 <= k < j ==> MatchAt(s, k).None?
    ensures ExtractScheduleFromFilename(s) == MatchAt(s, j)
  {
    var r := ExtractScheduleFromFilename(s);
    var i :| 0 <= i <= |s| && MatchAt(s, i) == r && forall k :: 0 <= k < i ==> MatchAt(s, k).None?;
    if i < j {
    } else if j < i {
    }
  }

  /** Every alternative starts with "s": no match where the name has none. */
  lemma NoMatchWithoutS(s: string, k: nat)
    requires k < |s| && LowerChar(s[k]) != 's'
    ensures MatchAt(s, k).None?
  {
    assert ScheduleWords[0][0] == 's' && ScheduleWords[1][0] == 's';
    assert !CaseInsensitiveAt(s, k, ScheduleWords[0]);
    assert !CaseInsensitiveAt(s, k, ScheduleWords[1]);
    assert MatchWord(s, k, ScheduleWords[1]).None?;
    assert MatchFirst(s, k, ScheduleWords[1..]).None? by {
      assert ScheduleWords[1..][1..] == [];
    }
  }

  /** What `w\s*(\d+)` means at `i`, independently of how it is searched
      for: `w` in any case at `i`, whitespace from there up to some `j`, and
      at `j` a non-empty run of digits `d` that no further digit extends. */
  predicate WordMatch(s: string, i: nat, w: string, d: string) {
    CaseInsensitiveAt(s, i, w) && exists j :: i + |w| <= j <= |s| && DigitsAfter(s, i, w, j, d)
  }

  predicate DigitsAfter(s: string, i: nat, w: string, j: nat, d: string) {
    SpacesThenDigits(s, i + |w|, j, d)
  }

  predicate SpacesThenDigits(s: string, k: nat, j: nat, d: string) {
    k <= j && j + |d| <= |s| && 0 < |d|
    && (forall m :: k <= m < j ==> IsSpace(s[m]))
    && s[j..j + |d|] == d && AllDigits(d)
    && (j + |d| == |s| || !IsDigit(s[j + |d|]))
  }

  /** Whitespace up to a non-space at `j` is what `\s*` consumes. */
  lemma {:induction false} SkipSpaceTo(s: string, k: nat, j: nat)
    requires k <= j < |s| && !IsSpace(s[j])
    requires forall m :: k <= m < j ==> IsSpace(s[m])
    ensures SkipSpace(s, k) == j
    decreases j - k
  {
    if k < j {
      SkipSpaceTo(s, k + 1, j);
    }
  }

  /** A maximal run of digits at `j` is what `\d+` captures there. */
  lemma {:induction false} DigitRunIs(s: string, j: nat, d: string)
    requires j + |d| <= |s| && s[j..j + |d|] == d && AllDigits(d)
    requires j + |d| == |s| || !IsDigit(s[j + |d|])
    ensures DigitRun(s, j) == d
    decreases |d|
  {
    if |d| > 0 {
      assert s[j] == d[0];
      assert s[j + 1..j + 1 + |d[1..]|] == d[1..];
      DigitRunIs(s, j + 1, d[1..]);
    }
  }

  /** One alternative matches exactly as its meaning says. */
  lemma MatchWordIff(s: string, i: nat, w: string, d: string)
    requires i <= |s|
    ensures MatchWord(s, i, w) == Some(d) <==> WordMatch(s, i, w, d)
  {
    if MatchWord(s, i, w) == Some(d) {
      MatchWordMeans(s, i, w);
    }
    if WordMatch(s, i, w, d) {
      var j :| i + |w| <= j <= |s| && DigitsAfter(s, i, w, j, d);
      MeansMatchWord(s, i, w, j, d);
    }
  }

  lemma MatchWordMeans(s: string, i: nat, w: string)
    requires i <= |s| && MatchWord(s, i, w).Some?
    ensures WordMatch(s, i, w, MatchWord(s, i, w).value)
  {
    var j := SkipSpace(s, i + |w|);
    DigitRunMaximal(s, j);
    assert DigitsAfter(s, i, w, j, MatchWord(s, i, w).value);
  }

  lemma MeansMatchWord(s: string, i: nat, w: string, j: nat, d: string)
    requires i + |w| <= j <= |s| && CaseInsensitiveAt(s, i, w) && DigitsAfter(s, i, w, j, d)
    ensures MatchWord(s, i, w) == Some(d)
  {
    assert s[j] == d[0];
    SkipSpaceTo(s, i + |w|, j);
    DigitRunIs(s, j, d);
  }

  /** "Schedule" and "SCH" never both match at one position: after "sch" of
      "schedule" comes an "e", neither whitespace nor a digit. */
  lemma AlternativesExclusive(s: string, i: nat, d: string, e: string)
    requires WordMatch(s, i, "schedule", d)
    ensures !WordMatch(s, i, "sch", e)
  {
    var w := "schedule";
    assert LowerChar(s[i + 3]) == w[3];
    assert s[i + 3] == 'e' || s[i + 3] == 'E';
  }

  /** The pattern tries "schedule" first, then "sch". */
  lemma MatchAtUnfold(s: string, i: nat)
    requires i <= |s|
    ensures MatchAt(s, i) == if MatchWord(s, i, "schedule").Some? then MatchWord(s, i, "schedule")
                             else MatchWord(s, i, "sch")
  {
    assert ScheduleWords[0] == "schedule" && ScheduleWords[1..] == ["sch"];
    assert MatchFirst(s, i, ["sch"]) == MatchWord(s, i, "sch") by {
      assert ["sch"][1..] == [];
      assert MatchFirst(s, i, []) == None;
    }
  }

  /** The pattern matches at `i` with group `d` exactly when one of its two
      alternatives does: the order in which they are tried never matters. */
  lemma MatchAtIff(s: string, i: nat, d: string)
    requires i <= |s|
    ensures MatchAt(s, i) == Some(d) <==> WordMatch(s, i, "schedule", d) || WordMatch(s, i, "sch", d)
  {
    MatchAtUnfold(s, i);
    MatchWordIff(s, i, "schedule", d);
    MatchWordIff(s, i, "sch", d);
    var m := MatchWord(s, i, "schedule");
    if m.Some? {
      MatchWordIff(s, i, "schedule", m.value);
      if WordMatch(s, i, "sch", d) {
        AlternativesExclusive(s, i, m.value, d);
      }
    }
  }

  const ExampleFileName: string := "Payment Schedule 9497_APPEAL (BUPA).xlsx"

  /** "Schedule" at offset 8, one space, then the digits 9497 and "_". */
  lemma ExampleParts()
    ensures CaseInsensitiveAt(ExampleFileName, 8, "schedule")
    ensures SkipSpace(ExampleFileName, 16) == 17
  {
    ExampleWord();
    ExampleSpace();
  }

  lemma ExampleWord()
    ensures CaseInsensitiveAt(ExampleFileName, 8, "schedule")
  {
  }

  lemma ExampleSpace()
    ensures SkipSpace(ExampleFileName, 16) == 17
  {
    assert IsSpace(ExampleFileName[16]) && !IsSpace(ExampleFileName[17]);
  }

  lemma ExampleDigits()
    ensures DigitRun(ExampleFileName, 17) == "9497"
  {
    assert DigitRun(ExampleFileName, 21) == [];
  }

  lemma ExampleMatch()
    ensures MatchAt(ExampleFileName, 8) == Some("9497")
  {
    ExampleParts();
    ExampleDigits();
    assert MatchWord(ExampleFileName, 8, ScheduleWords[0]) == Some("9497");
  }

  /** The file name of the source's own documentation yields "9497". */
  lemma FilenameExample()
    ensures ExtractScheduleFromFilename(ExampleFileName) == Some("9497")
  {
    NoMatchBeforeSchedule();
    ExampleMatch();
    LeftmostMatch(ExampleFileName, 8);
  }

  lemma NoMatchBeforeSchedule()
    ensures forall k :: 0 <= k < 8 ==> MatchAt(ExampleFileName, k).None?
  {
    forall k | 0 <= k < 8
      ensures MatchAt(ExampleFileName, k).None?
    {
      assert LowerChar(ExampleFileName[k]) != 's';
      NoMatchWithoutS(ExampleFileName, k);
    }
  }
}
