/** The schedule pipeline of utils.py: projecting a report onto
    (schedule number, amount), the one-directional comparison of two reports,
    the per-schedule totals, and the reconciliation report that outer-joins
    the Claims and Finance totals. */
module Schedules {
  import opened Outcomes
  import opened Text
  import opened Ordering
  import opened Cells

  /** One row of the canonical relation with columns "Schedule Number" and
      "Amount". Extracted rows and per-schedule totals share this shape. */
  datatype ScheduleAmount = ScheduleAmount(schedule: string, amount: real)

  /** The "Schedule Number" column. */
  function ScheduleColumn(xs: seq<ScheduleAmount>): (r: seq<string>)
    ensures |r| == |xs|
    ensures forall i :: 0 <= i < |xs| ==> r[i] == xs[i].schedule
  {
    Keys(xs, (x: ScheduleAmount) => x.schedule)
  }

  /** The set of schedule numbers occurring in `xs`. */
  function KeySet(xs: seq<ScheduleAmount>): set<string> {
    Elems(ScheduleColumn(xs))
  }

  lemma KeySetMember(xs: seq<ScheduleAmount>, k: string)
    ensures k in KeySet(xs) <==> exists i :: 0 <= i < |xs| && xs[i].schedule == k
  {
    if k in KeySet(xs) {
      var i :| 0 <= i < |xs| && ScheduleColumn(xs)[i] == k;
    }
  }

  /** No schedule number occurs twice: the shape of a table of totals. */
  predicate UniqueSchedules(xs: seq<ScheduleAmount>) {
    Distinct(ScheduleColumn(xs))
  }

  /** The sum of the "Amount" column. */
  function Total(xs: seq<ScheduleAmount>): real {
    if |xs| == 0 then 0.0 else Total(xs[..|xs| - 1]) + xs[|xs| - 1].amount
  }

  /** The sum of the amounts of the rows whose schedule number is `k`. */
  function SumFor(xs: seq<ScheduleAmount>, k: string): real {
    if |xs| == 0 then 0.0
    else SumFor(xs[..|xs| - 1], k) + (if xs[|xs| - 1].schedule == k then xs[|xs| - 1].amount else 0.0)
  }

  lemma {:induction false} TotalAppend(a: seq<ScheduleAmount>, b: seq<ScheduleAmount>)
    ensures Total(a + b) == Total(a) + Total(b)
    decreases |b|
  {
    if |b| > 0 {
      assert (a + b)[..|a + b| - 1] == a + b[..|b| - 1];
      TotalAppend(a, b[..|b| - 1]);
    } else {
      assert a + b == a;
    }
  }

  /** A schedule number that does not occur sums to zero. */
  lemma {:induction false} SumForAbsent(xs: seq<ScheduleAmount>, k: string)
    requires k !in KeySet(xs)
    ensures SumFor(xs, k) == 0.0
  {
    if |xs| > 0 {
      var init := xs[..|xs| - 1];
      assert ScheduleColumn(xs)[|xs| - 1] == xs[|xs| - 1].schedule;
      assert KeySet(init) <= KeySet(xs) by {
        forall j | j in KeySet(init) ensures j in KeySet(xs) {
          KeySetMember(init, j);
          KeySetMember(xs, j);
        }
      }
      SumForAbsent(init, k);
    }
  }

  lemma {:induction false} SumForAppend(a: seq<ScheduleAmount>, b: seq<ScheduleAmount>, k: string)
    ensures SumFor(a + b, k) == SumFor(a, k) + SumFor(b, k)
    decreases |b|
  {
    if |b| > 0 {
      assert (a + b)[..|a + b| - 1] == a + b[..|b| - 1];
      SumForAppend(a, b[..|b| - 1], k);
    } else {
      assert a + b == a;
    }
  }

  /** Per-schedule sums do not depend on the order of the rows. */
  lemma {:induction false} SumForPermutation(a: seq<ScheduleAmount>, b: seq<ScheduleAmount>, k: string)
    requires multiset(a) == multiset(b)
    ensures SumFor(a, k) == SumFor(b, k)
    decreases |a|
  {
    if |a| == 0 {
      assert |b| == |multiset(b)| == 0;
    } else {
      var i := MatchLast(a, b);
      SumForPermutation(a[..|a| - 1], b[..i] + b[i + 1..], k);
      SumForRemove(b, i, k);
      SumForRemove(a, |a| - 1, k);
    }
  }

  /** The position in `b` of the last row of its permutation `a`; the rest of
      `b` is a permutation of the rest of `a`. */
  lemma MatchLast(a: seq<ScheduleAmount>, b: seq<ScheduleAmount>) returns (i: nat)
    requires multiset(a) == multiset(b) && |a| > 0
    ensures i < |b| && b[i] == a[|a| - 1]
    ensures multiset(a[..|a| - 1]) == multiset(b[..i] + b[i + 1..])
  {
    var x := a[|a| - 1];
    assert a == a[..|a| - 1] + [x];
    assert x in multiset(b);
    i :| 0 <= i < |b| && b[i] == x;
    var p, q := b[..i], b[i + 1..];
    assert b == p + [x] + q;
    assert multiset(b) == multiset(p) + multiset{x} + multiset(q);
    assert multiset(a) == multiset(a[..|a| - 1]) + multiset{x};
    assert multiset(p + q) == multiset(p) + multiset(q);
    MultisetCancel(multiset(a[..|a| - 1]), multiset(p + q), x);
  }

  lemma MultisetCancel<T>(m: multiset<T>, n: multiset<T>, x: T)
    requires m + multiset{x} == n + multiset{x}
    ensures m == n
  {
    forall y ensures m[y] == n[y] {
      assert (m + multiset{x})[y] == (n + multiset{x})[y];
    }
  }

  /** Removing one row takes its amount out of its schedule's sum. */
  lemma SumForRemove(b: seq<ScheduleAmount>, i: nat, k: string)
    requires i < |b|
    ensures SumFor(b, k) == SumFor(b[..i] + b[i + 1..], k)
                            + (if b[i].schedule == k then b[i].amount else 0.0)
  {
    var x := b[i];
    assert b == b[..i] + [x] + b[i + 1..];
    SumForAppend(b[..i] + [x], b[i + 1..], k);
    SumForAppend(b[..i], [x], k);
    SumForAppend(b[..i], b[i + 1..], k);
    assert SumFor([x], k) == (if x.schedule == k then x.amount else 0.0) by {
      assert [x][..0] == [];
    }
  }

  // ---------------------------------------------------------------------
  // extract_schedule_data

  /** The canonical row read from one table row, or `None` when the amount
      cell does not coerce to a number: the schedule cell is stringified and
      stripped, and never causes a drop. */
  function ExtractRow(row: seq<Cell>, si: nat, ai: nat, conv: Conversions): (r: Option<ScheduleAmount>)
    requires si < |row| && ai < |row|
    ensures r.Some? <==> ToNumeric(row[ai], conv).Some?
    ensures r.Some? ==> r.value.amount == ToNumeric(row[ai], conv).value
                        && r.value.schedule == Strip(Render(row[si], conv))
  {
    match ToNumeric(row[ai], conv)
    case None => None
    case Some(a) => Some(ScheduleAmount(Strip(Render(row[si], conv)), a))
  }

  predicate HasColumns(rows: seq<seq<Cell>>, si: nat, ai: nat) {
    forall i :: 0 <= i < |rows| ==> si < |rows[i]| && ai < |rows[i]|
  }

  /** The rows that survive `dropna()`, projected, in input order. */
  function ExtractRows(rows: seq<seq<Cell>>, si: nat, ai: nat, conv: Conversions): (r: seq<ScheduleAmount>)
    requires HasColumns(rows, si, ai)
    ensures |r| <= |rows|
  {
    if |rows| == 0 then []
    else
      var front := ExtractRows(rows[..|rows| - 1], si, ai, conv);
      match ExtractRow(rows[|rows| - 1], si, ai, conv)
      case None => front
      case Some(e) => front + [e]
  }

  /** The kept part of one row: empty or the row's projection. */
  function Kept(row: seq<Cell>, si: nat, ai: nat, conv: Conversions): seq<ScheduleAmount>
    requires si < |row| && ai < |row|
  {
    match ExtractRow(row, si, ai, conv)
    case None => []
    case Some(e) => [e]
  }

  lemma ExtractRowsSnoc(rows: seq<seq<Cell>>, si: nat, ai: nat, conv: Conversions)
    requires HasColumns(rows, si, ai) && |rows| > 0
    ensures HasColumns(rows[..|rows| - 1], si, ai)
    ensures ExtractRows(rows, si, ai, conv) ==
            ExtractRows(rows[..|rows| - 1], si, ai, conv) + Kept(rows[|rows| - 1], si, ai, conv)
  {
  }

  /** Every extracted row is the projection of an input row whose amount
      coerces. */
  lemma {:induction false} ExtractedFromRows(rows: seq<seq<Cell>>, si: nat, ai: nat, conv: Conversions)
    requires HasColumns(rows, si, ai)
    ensures forall e :: e in ExtractRows(rows, si, ai, conv) ==>
              exists i :: 0 <= i < |rows| && ExtractRow(rows[i], si, ai, conv) == Some(e)
  {
    if |rows| > 0 {
      var init := rows[..|rows| - 1];
      ExtractRowsSnoc(rows, si, ai, conv);
      ExtractedFromRows(init, si, ai, conv);
      forall e | e in ExtractRows(rows, si, ai, conv)
        ensures exists i :: 0 <= i < |rows| && ExtractRow(rows[i], si, ai, conv) == Some(e)
      {
        if e in ExtractRows(init, si, ai, conv) {
          var i :| 0 <= i < |init| && ExtractRow(init[i], si, ai, conv) == Some(e);
          assert init[i] == rows[i];
        } else {
          assert ExtractRow(rows[|rows| - 1], si, ai, conv) == Some(e);
        }
      }
    }
  }

  /** Every input row whose amount coerces is extracted. */
  lemma {:induction false} ExtractedAll(rows: seq<seq<Cell>>, si: nat, ai: nat, conv: Conversions)
    requires HasColumns(rows, si, ai)
    ensures forall i :: 0 <= i < |rows| && ExtractRow(rows[i], si, ai, conv).Some? ==>
              ExtractRow(rows[i], si, ai, conv).value in ExtractRows(rows, si, ai, conv)
  {
    if |rows| > 0 {
      var init := rows[..|rows| - 1];
      ExtractRowsSnoc(rows, si, ai, conv);
      ExtractedAll(init, si, ai, conv);
      forall i | 0 <= i < |rows| - 1 ensures rows[i] == init[i] { }
    }
  }

  /** No row is lost when every amount coerces. */
  lemma {:induction false} ExtractedCount(rows: seq<seq<Cell>>, si: nat, ai: nat, conv: Conversions)
    requires HasColumns(rows, si, ai)
    requires forall i :: 0 <= i < |rows| ==> ToNumeric(rows[i][ai], conv).Some?
    ensures |ExtractRows(rows, si, ai, conv)| == |rows|
  {
    if |rows| > 0 {
      var init := rows[..|rows| - 1];
      ExtractRowsSnoc(rows, si, ai, conv);
      assert forall i :: 0 <= i < |init| ==> init[i] == rows[i];
      ExtractedCount(init, si, ai, conv);
    }
  }

  /** Extraction distributes over concatenation of tables: together with the
      one-row case it says the kept rows stay in input order, each once. */
  lemma {:induction false} ExtractRowsAppend(a: seq<seq<Cell>>, b: seq<seq<Cell>>, si: nat, ai: nat, conv: Conversions)
    requires HasColumns(a, si, ai) && HasColumns(b, si, ai)
    ensures HasColumns(a + b, si, ai)
    ensures ExtractRows(a + b, si, ai, conv) == ExtractRows(a, si, ai, conv) + ExtractRows(b, si, ai, conv)
    decreases |b|
  {
    HasColumnsAppend(a, b, si, ai);
    if |b| == 0 {
      assert a + b == a;
    } else {
      var b' := b[..|b| - 1];
      var last := b[|b| - 1];
      var ab := a + b;
      assert ab[..|ab| - 1] == a + b';
      ExtractRowsSnoc(ab, si, ai, conv);
      ExtractRowsSnoc(b, si, ai, conv);
      ExtractRowsAppend(a, b', si, ai, conv);
      var xa, xb', k := ExtractRows(a, si, ai, conv), ExtractRows(b', si, ai, conv), Kept(last, si, ai, conv);
      assert ExtractRows(ab, si, ai, conv) == xa + xb' + k;
      assert xa + xb' + k == xa + (xb' + k);
    }
  }

  lemma HasColumnsAppend(a: seq<seq<Cell>>, b: seq<seq<Cell>>, si: nat, ai: nat)
    requires HasColumns(a, si, ai) && HasColumns(b, si, ai)
    ensures HasColumns(a + b, si, ai)
  {
    forall i | 0 <= i < |a + b| ensures si < |(a + b)[i]| && ai < |(a + b)[i]| {
      if i >= |a| {
        assert (a + b)[i] == b[i - |a|];
      }
    }
  }

  lemma ExtractRowsOne(row: seq<Cell>, si: nat, ai: nat, conv: Conversions)
    requires si < |row| && ai < |row|
    ensures HasColumns([row], si, ai)
    ensures ExtractRows([row], si, ai, conv) ==
              if ToNumeric(row[ai], conv).Some?
              then [ScheduleAmount(Strip(Render(row[si], conv)), ToNumeric(row[ai], conv).value)]
              else []
  {
    assert [row][..0] == [];
  }

  /** `extract_schedule_data`: `None` stands for the `KeyError` raised when a
      named column is absent. */
  function ExtractScheduleData(t: Table, scheduleCol: string, amountCol: string, conv: Conversions)
    : (r: Option<seq<ScheduleAmount>>)
    requires WellFormed(t)
    ensures r.None? <==> scheduleCol !in t.columns || amountCol !in t.columns
    ensures r.Some? ==> |r.value| <= |t.rows|
    ensures r.Some? ==> forall k :: 0 <= k < |r.value| ==>
              r.value[k].schedule == Strip(r.value[k].schedule)
    ensures r.Some? ==> r.value == ExtractRows(t.rows, ColumnIndex(t.columns, scheduleCol).value,
                                                ColumnIndex(t.columns, amountCol).value, conv)
  {
    match (ColumnIndex(t.columns, scheduleCol), ColumnIndex(t.columns, amountCol))
    case (Some(si), Some(ai)) =>
      var r := ExtractRows(t.rows, si, ai, conv);
      ExtractedFromRows(t.rows, si, ai, conv);
      assert forall k :: 0 <= k < |r| ==> r[k].schedule == Strip(r[k].schedule) by {
        forall k | 0 <= k < |r| ensures r[k].schedule == Strip(r[k].schedule) {
          assert r[k] in r;
          var i :| 0 <= i < |t.rows| && ExtractRow(t.rows[i], si, ai, conv) == Some(r[k]);
          StripIdempotent(Render(t.rows[i][si], conv));
        }
      }
      Some(r)
    case _ => None
  }

  // ---------------------------------------------------------------------
  // find_missing_schedules

  /** The rows of `source` whose schedule number is not among `target`'s,
      kept in order and with their duplicates. */
  function FindMissingSchedules(source: seq<ScheduleAmount>, target: seq<ScheduleAmount>)
    : (r: seq<ScheduleAmount>)
    ensures |r| <= |source|
    ensures forall x :: x in r <==> x in source && x.schedule !in KeySet(target)
  {
    if |source| == 0 then []
    else
      var init := source[..|source| - 1];
      var x := source[|source| - 1];
      assert source == init + [x];
      var front := FindMissingSchedules(init, target);
      if x.schedule in KeySet(target) then front else front + [x]
  }

  /** Each row of `source` whose schedule the target lacks is kept as often as
      it occurs, and no other row is. */
  lemma {:induction false} MissingCounts(source: seq<ScheduleAmount>, target: seq<ScheduleAmount>)
    ensures forall e :: multiset(FindMissingSchedules(source, target))[e]
                        == if e.schedule in KeySet(target) then 0 else multiset(source)[e]
  {
    if |source| > 0 {
      var init := source[..|source| - 1];
      var x := source[|source| - 1];
      assert source == init + [x];
      MissingCounts(init, target);
    }
  }

  /** The mask keeps order: the missing rows of `a + b` are those of `a`
      followed by those of `b`. */
  lemma {:induction false} MissingAppend(a: seq<ScheduleAmount>, b: seq<ScheduleAmount>, target: seq<ScheduleAmount>)
    ensures FindMissingSchedules(a + b, target)
            == FindMissingSchedules(a, target) + FindMissingSchedules(b, target)
    decreases |b|
  {
    if |b| == 0 {
      assert a + b == a;
    } else {
      var init := b[..|b| - 1];
      assert (a + b)[..|a + b| - 1] == a + init;
      assert (a + b)[|a + b| - 1] == b[|b| - 1];
      MissingAppend(a, init, target);
    }
  }

  /** A single row is kept exactly when the target lacks its schedule. */
  lemma MissingOne(x: ScheduleAmount, target: seq<ScheduleAmount>)
    ensures FindMissingSchedules([x], target) == if x.schedule in KeySet(target) then [] else [x]
  {
    assert [x][..0] == [];
  }

  /** The schedule numbers of the missing rows are exactly those of the source
      that the target lacks. */
  lemma MissingKeys(source: seq<ScheduleAmount>, target: seq<ScheduleAmount>)
    ensures KeySet(FindMissingSchedules(source, target)) == KeySet(source) - KeySet(target)
  {
    var r := FindMissingSchedules(source, target);
    forall k | k in KeySet(r)
      ensures k in KeySet(source) && k !in KeySet(target)
    {
      MissingKeyFromSource(source, target, k);
    }
    forall k | k in KeySet(source) && k !in KeySet(target)
      ensures k in KeySet(r)
    {
      MissingKeyKept(source, target, k);
    }
  }

  lemma MissingKeyFromSource(source: seq<ScheduleAmount>, target: seq<ScheduleAmount>, k: string)
    requires k in KeySet(FindMissingSchedules(source, target))
    ensures k in KeySet(source) && k !in KeySet(target)
  {
    var r := FindMissingSchedules(source, target);
    KeySetMember(r, k);
    var i :| 0 <= i < |r| && r[i].schedule == k;
    assert r[i] in r;
    KeySetMember(source, k);
  }

  lemma MissingKeyKept(source: seq<ScheduleAmount>, target: seq<ScheduleAmount>, k: string)
    requires k in KeySet(source) && k !in KeySet(target)
    ensures k in KeySet(FindMissingSchedules(source, target))
  {
    var r := FindMissingSchedules(source, target);
    KeySetMember(source, k);
    var j :| 0 <= j < |source| && source[j].schedule == k;
    assert source[j] in source;
    KeySetMember(r, k);
  }

  /** A report compared with itself misses nothing. */
  lemma MissingSelf(a: seq<ScheduleAmount>)
    ensures FindMissingSchedules(a, a) == []
  {
    var r := FindMissingSchedules(a, a);
    if r != [] {
      assert r[0] in r;
      KeySetMember(a, r[0].schedule);
    }
  }

  /** Against an empty report every row is missing, in its original order. */
  lemma {:induction false} MissingFromEmpty(a: seq<ScheduleAmount>)
    ensures FindMissingSchedules(a, []) == a
  {
    if |a| > 0 {
      MissingFromEmpty(a[..|a| - 1]);
      assert a == a[..|a| - 1] + [a[|a| - 1]];
    }
  }

  /** The two one-directional comparisons and the common schedules partition
      the schedule numbers of both reports. */
  lemma SchedulePartition(a: seq<ScheduleAmount>, b: seq<ScheduleAmount>)
    ensures KeySet(a) + KeySet(b) ==
            KeySet(FindMissingSchedules(a, b)) + KeySet(FindMissingSchedules(b, a)) + (KeySet(a) * KeySet(b))
    ensures KeySet(FindMissingSchedules(a, b)) !! KeySet(FindMissingSchedules(b, a))
    ensures KeySet(FindMissingSchedules(a, b)) !! (KeySet(a) * KeySet(b))
    ensures KeySet(FindMissingSchedules(b, a)) !! (KeySet(a) * KeySet(b))
  {
    MissingKeys(a, b);
    MissingKeys(b, a);
    SetPartition(KeySet(a), KeySet(b));
  }

  lemma SetPartition<T>(a: set<T>, b: set<T>)
    ensures a + b == (a - b) + (b - a) + (a * b)
    ensures (a - b) !! (b - a) && (a - b) !! (a * b) && (b - a) !! (a * b)
  {
  }

  // ---------------------------------------------------------------------
  // calculate_schedule_amounts

  /** One total row per key of `ks`, in the order of `ks`. */
  function Totals(recs: seq<ScheduleAmount>, ks: seq<string>): (r: seq<ScheduleAmount>)
    ensures |r| == |ks|
    ensures forall i :: 0 <= i < |ks| ==> r[i] == ScheduleAmount(ks[i], SumFor(recs, ks[i]))
  {
    if |ks| == 0 then [] else Totals(recs, ks[..|ks| - 1]) + [ScheduleAmount(ks[|ks| - 1], SumFor(recs, ks[|ks| - 1]))]
  }

  /** `calculate_schedule_amounts`: group by schedule number and sum. The
      keys come out ascending, as `groupby` sorts them. */
  function CalculateScheduleAmounts(recs: seq<ScheduleAmount>): (r: seq<ScheduleAmount>)
    ensures StrictlySorted(ScheduleColumn(r))
    ensures KeySet(r) == KeySet(recs)
    ensures forall i :: 0 <= i < |r| ==> r[i].amount == SumFor(recs, r[i].schedule)
  {
    var ks := SortUnique(ScheduleColumn(recs));
    var r := Totals(recs, ks);
    assert ScheduleColumn(r) == ks;
    r
  }

  lemma AggregateUnique(recs: seq<ScheduleAmount>)
    ensures UniqueSchedules(CalculateScheduleAmounts(recs))
  {
    StrictlySortedIsDistinct(ScheduleColumn(CalculateScheduleAmounts(recs)));
  }

  /** `x`'s amount once for every occurrence of its schedule number in `ks`. */
  function Counted(ks: seq<string>, x: ScheduleAmount): real {
    if |ks| == 0 then 0.0
    else Counted(ks[..|ks| - 1], x) + (if ks[|ks| - 1] == x.schedule then x.amount else 0.0)
  }

  lemma {:induction false} CountedDistinct(ks: seq<string>, x: ScheduleAmount)
    requires Distinct(ks)
    ensures Counted(ks, x) == if x.schedule in ks then x.amount else 0.0
  {
    if |ks| > 0 {
      var init := ks[..|ks| - 1];
      assert Distinct(init);
      CountedDistinct(init, x);
      assert ks == init + [ks[|ks| - 1]];
      if ks[|ks| - 1] == x.schedule {
        assert x.schedule !in init;
      }
    }
  }

  /** Adding one row to the input adds its amount to the totals once per
      occurrence of its key. */
  lemma {:induction false} TotalsSnoc(recs: seq<ScheduleAmount>, x: ScheduleAmount, ks: seq<string>)
    ensures Total(Totals(recs + [x], ks)) == Total(Totals(recs, ks)) + Counted(ks, x)
  {
    if |ks| > 0 {
      var init := ks[..|ks| - 1];
      var k := ks[|ks| - 1];
      TotalsSnoc(recs, x, init);
      assert (recs + [x])[..|recs + [x]| - 1] == recs;
      var y := ScheduleAmount(k, SumFor(recs + [x], k));
      var z := ScheduleAmount(k, SumFor(recs, k));
      assert y.amount == z.amount + (if x.schedule == k then x.amount else 0.0);
      assert Totals(recs + [x], ks) == Totals(recs + [x], init) + [y];
      assert Totals(recs, ks) == Totals(recs, init) + [z];
      assert (Totals(recs + [x], init) + [y])[..|ks| - 1] == Totals(recs + [x], init);
      assert (Totals(recs, init) + [z])[..|ks| - 1] == Totals(recs, init);
    }
  }

  /** Summing the per-key totals over any duplicate-free list of keys that
      covers the input gives the sum of the input. */
  lemma {:induction false} TotalsCover(recs: seq<ScheduleAmount>, ks: seq<string>)
    requires Distinct(ks)
    requires KeySet(recs) <= Elems(ks)
    ensures Total(Totals(recs, ks)) == Total(recs)
    decreases |recs|
  {
    if |recs| == 0 {
      TotalsOfEmpty(ks);
    } else {
      var init := recs[..|recs| - 1];
      var x := recs[|recs| - 1];
      assert recs == init + [x];
      assert KeySet(init) <= KeySet(recs) by {
        forall k | k in KeySet(init) ensures k in KeySet(recs) {
          KeySetMember(init, k);
          KeySetMember(recs, k);
        }
      }
      TotalsCover(init, ks);
      TotalsSnoc(init, x, ks);
      KeySetMember(recs, x.schedule);
      CountedDistinct(ks, x);
    }
  }

  lemma {:induction false} TotalsOfEmpty(ks: seq<string>)
    ensures Total(Totals([], ks)) == 0.0
  {
    if |ks| > 0 {
      TotalsOfEmpty(ks[..|ks| - 1]);
    }
  }

  /** Grouping preserves the grand total. */
  lemma AggregatePreservesTotal(recs: seq<ScheduleAmount>)
    ensures Total(CalculateScheduleAmounts(recs)) == Total(recs)
  {
    var ks := SortUnique(ScheduleColumn(recs));
    StrictlySortedIsDistinct(ks);
    TotalsCover(recs, ks);
  }

  lemma KeySetOfPermutation(a: seq<ScheduleAmount>, b: seq<ScheduleAmount>)
    requires multiset(a) == multiset(b)
    ensures KeySet(a) == KeySet(b)
  {
    forall k | k in KeySet(a) ensures k in KeySet(b) {
      KeySetMember(a, k);
      var i :| 0 <= i < |a| && a[i].schedule == k;
      assert a[i] in multiset(b);
      KeySetMember(b, k);
    }
    forall k | k in KeySet(b) ensures k in KeySet(a) {
      KeySetMember(b, k);
      var i :| 0 <= i < |b| && b[i].schedule == k;
      assert b[i] in multiset(a);
      KeySetMember(a, k);
    }
  }

  /** The per-schedule totals do not depend on the order of the input rows. */
  lemma AggregatePermutation(a: seq<ScheduleAmount>, b: seq<ScheduleAmount>)
    requires multiset(a) == multiset(b)
    ensures CalculateScheduleAmounts(a) == CalculateScheduleAmounts(b)
  {
    KeySetOfPermutation(a, b);
    SortUniqueOfSameSet(ScheduleColumn(a), ScheduleColumn(b));
    var ks := SortUnique(ScheduleColumn(a));
    forall k | k in ks ensures SumFor(a, k) == SumFor(b, k) {
      SumForPermutation(a, b, k);
    }
  }

  // ---------------------------------------------------------------------
  // generate_reconciliation_report

  /** The amount recorded for schedule `k`, `None` when `k` is absent. */
  function Lookup(xs: seq<ScheduleAmount>, k: string): (r: Option<real>)
    ensures r.Some? <==> k in KeySet(xs)
    ensures r.Some? ==> ScheduleAmount(k, r.value) in xs
  {
    KeySetMember(xs, k);
    if |xs| == 0 then None
    else if xs[0].schedule == k then Some(xs[0].amount)
    else
      KeySetMember(xs[1..], k);
      if k in KeySet(xs[1..]) then
        assert forall i :: 0 <= i < |xs| - 1 ==> xs[1..][i] == xs[i + 1];
        Lookup(xs[1..], k)
      else
        assert forall i :: 1 <= i < |xs| ==> xs[i] == xs[1..][i - 1];
        None
  }

  /** In a table of totals the amount found for a key is the one stored with it. */
  lemma LookupUnique(xs: seq<ScheduleAmount>, k: string, a: real)
    requires UniqueSchedules(xs)
    requires ScheduleAmount(k, a) in xs
    ensures Lookup(xs, k) == Some(a)
  {
    var i :| 0 <= i < |xs| && xs[i] == ScheduleAmount(k, a);
    KeySetMember(xs, k);
    var b := Lookup(xs, k).value;
    var j :| 0 <= j < |xs| && xs[j] == ScheduleAmount(k, b);
    SameScheduleSameRow(xs, i, j);
  }

  lemma SameScheduleSameRow(xs: seq<ScheduleAmount>, i: nat, j: nat)
    requires UniqueSchedules(xs) && i < |xs| && j < |xs| && xs[i].schedule == xs[j].schedule
    ensures i == j
  {
    assert ScheduleColumn(xs)[i] == ScheduleColumn(xs)[j];
  }

  /** One row of the reconciliation report; absence is `None` (NaN), never zero. */
  datatype ReportRow = ReportRow(
    schedule: string,
    claims: Option<real>,
    finance: Option<real>,
    difference: Option<real>)

  function RowSchedules(rows: seq<ReportRow>): (r: seq<string>)
    ensures |r| == |rows|
    ensures forall i :: 0 <= i < |rows| ==> r[i] == rows[i].schedule
  {
    Keys(rows, (x: ReportRow) => x.schedule)
  }

  /** `Claims Amount - Finance Amount`, NaN when either side is NaN. */
  function Difference(claims: Option<real>, finance: Option<real>): (d: Option<real>)
    ensures d.Some? <==> claims.Some? && finance.Some?
    ensures d.Some? ==> d.value + finance.value == claims.value
  {
    if claims.Some? && finance.Some? then Some(claims.value - finance.value) else None
  }

  /** The report rows for the keys `ks`, in the order of `ks`. */
  function ReportOver(claims: seq<ScheduleAmount>, finance: seq<ScheduleAmount>, ks: seq<string>)
    : (r: seq<ReportRow>)
    ensures |r| == |ks|
    ensures forall i :: 0 <= i < |ks| ==>
              r[i] == ReportRow(ks[i], Lookup(claims, ks[i]), Lookup(finance, ks[i]),
                                Difference(Lookup(claims, ks[i]), Lookup(finance, ks[i])))
  {
    seq(|ks|, i requires 0 <= i < |ks| =>
      var c := Lookup(claims, ks[i]);
      var f := Lookup(finance, ks[i]);
      ReportRow(ks[i], c, f, Difference(c, f)))
  }

  /** The key column of the outer join: every schedule of either side, once,
      ascending. */
  function JoinKeys(claims: seq<ScheduleAmount>, finance: seq<ScheduleAmount>): (ks: seq<string>)
    ensures StrictlySorted(ks)
    ensures Elems(ks) == KeySet(claims) + KeySet(finance)
  {
    var ks := SortUnique(ScheduleColumn(claims) + ScheduleColumn(finance));
    assert Elems(ScheduleColumn(claims) + ScheduleColumn(finance)) == KeySet(claims) + KeySet(finance);
    ks
  }

  /** `generate_reconciliation_report`: the full outer join of two tables of
      totals on the schedule number, sorted by schedule number as a string,
      with the signed difference. The callers pass the output of
      `CalculateScheduleAmounts`, whose schedule numbers are unique. */
  function GenerateReconciliationReport(claims: seq<ScheduleAmount>, finance: seq<ScheduleAmount>)
    : (r: seq<ReportRow>)
    requires UniqueSchedules(claims) && UniqueSchedules(finance)
    ensures StrictlySorted(RowSchedules(r))
    ensures Elems(RowSchedules(r)) == KeySet(claims) + KeySet(finance)
    ensures forall i :: 0 <= i < |r| ==>
              && (r[i].claims.Some? <==> r[i].schedule in KeySet(claims))
              && (r[i].finance.Some? <==> r[i].schedule in KeySet(finance))
              && (r[i].claims.Some? ==> ScheduleAmount(r[i].schedule, r[i].claims.value) in claims)
              && (r[i].finance.Some? ==> ScheduleAmount(r[i].schedule, r[i].finance.value) in finance)
              && r[i].difference == Difference(r[i].claims, r[i].finance)
  {
    var ks := JoinKeys(claims, finance);
    var r := ReportOver(claims, finance, ks);
    assert RowSchedules(r) == ks;
    r
  }

  /** The report row of schedule `k` read from the other side. */
  function SwapSides(row: ReportRow): ReportRow {
    ReportRow(row.schedule, row.finance, row.claims,
              if row.difference.Some? then Some(-row.difference.value) else None)
  }

  /** Swapping the two inputs swaps the two amount columns and negates every
      difference; which rows exist and their order stay the same. */
  lemma ReportSwap(claims: seq<ScheduleAmount>, finance: seq<ScheduleAmount>)
    requires UniqueSchedules(claims) && UniqueSchedules(finance)
    ensures var a := GenerateReconciliationReport(claims, finance);
            var b := GenerateReconciliationReport(finance, claims);
            |a| == |b| && forall i :: 0 <= i < |a| ==> b[i] == SwapSides(a[i])
  {
    var ks := JoinKeys(claims, finance);
    assert JoinKeys(finance, claims) == ks by {
      SortedUnique(ks, JoinKeys(finance, claims));
    }
    assert GenerateReconciliationReport(claims, finance) == ReportOver(claims, finance, ks);
    assert GenerateReconciliationReport(finance, claims) == ReportOver(finance, claims, ks);
    ReportOverSwap(claims, finance, ks);
  }

  lemma ReportOverSwap(claims: seq<ScheduleAmount>, finance: seq<ScheduleAmount>, ks: seq<string>)
    ensures var a := ReportOver(claims, finance, ks);
            var b := ReportOver(finance, claims, ks);
            |a| == |b| && forall i :: 0 <= i < |a| ==> b[i] == SwapSides(a[i])
  {
  }

  /** The worked example: Claims {100: 500, 101: 300} against Finance
      {100: 500} misses 101 in Finance. */
  lemma MissingExample()
    ensures FindMissingSchedules([ScheduleAmount("100", 500.0), ScheduleAmount("101", 300.0)],
                                 [ScheduleAmount("100", 500.0)])
            == [ScheduleAmount("101", 300.0)]
  {
    var claims := [ScheduleAmount("100", 500.0), ScheduleAmount("101", 300.0)];
    var finance := [ScheduleAmount("100", 500.0)];
    assert ScheduleColumn(finance) == ["100"];
    assert "101" !in KeySet(finance);
    assert claims[..1] == [ScheduleAmount("100", 500.0)];
    assert claims[..1][..0] == [];
  }

  /** The same example's report: a zero difference for 100 and no Finance
      amount (and no difference) for 101. */
  lemma ReportExample()
    ensures var claims := [ScheduleAmount("100", 500.0), ScheduleAmount("101", 300.0)];
            var finance := [ScheduleAmount("100", 500.0)];
            && UniqueSchedules(claims) && UniqueSchedules(finance)
            && GenerateReconciliationReport(claims, finance) ==
               [ReportRow("100", Some(500.0), Some(500.0), Some(0.0)),
                ReportRow("101", Some(300.0), None, None)]
  {
    var claims := [ScheduleAmount("100", 500.0), ScheduleAmount("101", 300.0)];
    var finance := [ScheduleAmount("100", 500.0)];
    ExampleKeys(claims, finance);
    ExampleLookups(claims, finance);
    var r := GenerateReconciliationReport(claims, finance);
    assert r == ReportOver(claims, finance, ["100", "101"]);
  }

  lemma ExampleKeys(claims: seq<ScheduleAmount>, finance: seq<ScheduleAmount>)
    requires claims == [ScheduleAmount("100", 500.0), ScheduleAmount("101", 300.0)]
    requires finance == [ScheduleAmount("100", 500.0)]
    ensures UniqueSchedules(claims) && UniqueSchedules(finance)
    ensures JoinKeys(claims, finance) == ["100", "101"]
  {
    ExampleColumns(claims, finance);
    ExampleSorted();
    SortedUnique(JoinKeys(claims, finance), ["100", "101"]);
  }

  lemma ExampleColumns(claims: seq<ScheduleAmount>, finance: seq<ScheduleAmount>)
    requires claims == [ScheduleAmount("100", 500.0), ScheduleAmount("101", 300.0)]
    requires finance == [ScheduleAmount("100", 500.0)]
    ensures ScheduleColumn(claims) == ["100", "101"] && ScheduleColumn(finance) == ["100"]
  {
    assert claims[..1] == [ScheduleAmount("100", 500.0)];
  }

  lemma ExampleSorted()
    ensures StrictlySorted(["100", "101"]) && Distinct(["100", "101"]) && Distinct(["100"])
    ensures Elems(["100", "101"]) == Elems(["100", "101"]) + Elems(["100"])
  {
    assert Less("100", "101");
    assert Elems(["100", "101"]) == {"100", "101"};
    assert Elems(["100"]) == {"100"};
  }

  lemma ExampleLookups(claims: seq<ScheduleAmount>, finance: seq<ScheduleAmount>)
    requires claims == [ScheduleAmount("100", 500.0), ScheduleAmount("101", 300.0)]
    requires finance == [ScheduleAmount("100", 500.0)]
    ensures Lookup(claims, "100") == Some(500.0) && Lookup(claims, "101") == Some(300.0)
    ensures Lookup(finance, "100") == Some(500.0) && Lookup(finance, "101") == None
  {
    assert claims[1..] == [ScheduleAmount("101", 300.0)];
    assert ScheduleColumn(finance) == ["100"];
    assert "101" !in Elems(["100"]);
  }
}
