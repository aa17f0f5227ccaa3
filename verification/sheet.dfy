/**
 The spreadsheet reconciliation, as the plan of writes it performs: whether the header
 row is rewritten, the row the appended block is anchored at, the in-place updates
 of rows whose column A already holds a date, and the block of rows for the other
 dates, appended in date order.

 The remote calls are left out; `Store.ApplyPlan` is a model of the store that applies a
 plan to the tab's rows.
 */
module Sheet {
  import opened Events
  import opened Statistics
  import opened StringOrder

  /** A cell value as the sheet API hands it over or is given it. */
  datatype Cell = Str(text: string) | Int(value: int) | Other

  type Row = seq<Cell>

  const HeaderTitles: seq<string> := ["Date", "Installs", "Closed", "Reopened", "Uninstalls"]

  const Header: Row := [Str("Date"), Str("Installs"), Str("Closed"), Str("Reopened"), Str("Uninstalls")]

  /** The first row is exactly the expected header, cell for cell. */
  function HeaderRowMatches(row: Row): (b: bool)
    ensures b <==> row == Header
  {
    |row| == |HeaderTitles| && forall i :: 0 <= i < |row| ==> row[i] == Str(HeaderTitles[i])
  }

  /** The kinds written to the sheet, in column order after the date. */
  const WrittenKinds: seq<Kind> := [Installed, Deactivated, Reactivated, Uninstalled]

  /** The row written for `date`: the date, then the count of each written kind (zero when absent). */
  function StatRow(date: string, stats: Statistic): (row: Row)
    ensures |row| == |Header| && row[0] == Str(date)
  {
    [Str(date)] + seq(4, j requires 0 <= j < 4 => Int(Count(stats, date, WrittenKinds[j])))
  }

  /** Each count of a written row sits under the column headed by its kind's title. */
  lemma StatRowColumns(date: string, stats: Statistic)
    ensures forall j, kind ::
              1 <= j < |Header| && kind in HumanReadableEventType && HumanReadableEventType[kind] == HeaderTitles[j]
              ==> StatRow(date, stats)[j] == Int(Count(stats, date, kind))
  {
  }

  /** Every count column of a written row is headed by the title of a documented kind. */
  lemma EveryColumnHasKind(j: int)
    requires 1 <= j < |Header|
    ensures exists kind :: kind in HumanReadableEventType && HumanReadableEventType[kind] == HeaderTitles[j]
  {
    assert HumanReadableEventType[WrittenKinds[j - 1]] == HeaderTitles[j];
  }

  /** Counts of any kind other than the four documented ones are tallied but never written. */
  lemma StatRowIgnoresOtherKinds(date: string, stats: Statistic, kind: Kind, n: nat)
    requires kind !in HumanReadableEventType
    requires date in stats
    ensures var day: DayCounts := stats[date][kind := n]; StatRow(date, stats[date := day]) == StatRow(date, stats)
  {
    var day: DayCounts := stats[date][kind := n];
    var stats' := stats[date := day];
    forall k | k in WrittenKinds
      ensures Count(stats', date, k) == Count(stats, date, k)
    {
      assert k in HumanReadableEventType;
    }
  }

  /** Column A of `row` holds the string `date`. */
  predicate FirstCellIs(row: Row, date: string) {
    |row| > 0 && row[0] == Str(date)
  }

  /** Row `r` (1-based) is the last of `rows` whose column A holds `date`. */
  predicate LastRowOf(rows: seq<Row>, date: string, r: int) {
    1 <= r <= |rows| && FirstCellIs(rows[r - 1], date)
    && forall j :: r <= j < |rows| ==> !FirstCellIs(rows[j], date)
  }

  /** Each string found in column A, mapped to its 1-based row; when it occurs on several
      rows the last one wins. */
  function DateRowMap(rows: seq<Row>): (m: map<string, nat>)
    ensures forall date :: date in m <==> exists i :: 0 <= i < |rows| && FirstCellIs(rows[i], date)
    ensures forall date :: date in m ==> LastRowOf(rows, date, m[date])
  {
    if |rows| == 0 then map[]
    else
      var init, row := rows[..|rows| - 1], rows[|rows| - 1];
      var m := DateRowMap(init);
      var r := if |row| > 0 && row[0].Str? then m[row[0].text := |rows|] else m;
      DateRowMapStep(init, row, m, r);
      assert rows == init + [row];
      r
  }

  /** One step of the row map: the map of the rows so far, updated with the next row. */
  lemma DateRowMapStep(init: seq<Row>, row: Row, m: map<string, nat>, r: map<string, nat>)
    requires forall date :: date in m <==> exists i :: 0 <= i < |init| && FirstCellIs(init[i], date)
    requires forall date :: date in m ==> LastRowOf(init, date, m[date])
    requires r == if |row| > 0 && row[0].Str? then m[row[0].text := |init| + 1] else m
    ensures forall date :: date in r <==> exists i :: 0 <= i < |init| + 1 && FirstCellIs((init + [row])[i], date)
    ensures forall date :: date in r ==> LastRowOf(init + [row], date, r[date])
  {
    var rows := init + [row];
    var n := |init|;
    assert forall i :: 0 <= i < n ==> rows[i] == init[i];
    assert rows[n] == row;
    forall date
      ensures date in r <==> exists i :: 0 <= i < n + 1 && FirstCellIs(rows[i], date)
      ensures date in r ==> LastRowOf(rows, date, r[date])
    {
      if FirstCellIs(row, date) {
        assert r[date] == n + 1;
      } else {
        assert date in r <==> date in m;
        if exists i :: 0 <= i < n + 1 && FirstCellIs(rows[i], date) {
          var i :| 0 <= i < n + 1 && FirstCellIs(rows[i], date);
          assert FirstCellIs(init[i], date);
        }
        if date in m {
          assert r[date] == m[date];
          assert LastRowOf(init, date, m[date]);
        }
      }
    }
  }

  /** The row map without row 1, which holds the header once the plan has run. */
  function DataRowMap(rows: seq<Row>): (m: map<string, nat>)
    ensures forall date :: date in m <==> exists i :: 1 <= i < |rows| && FirstCellIs(rows[i], date)
    ensures forall date :: date in m ==> 2 <= m[date] && LastRowOf(rows, date, m[date])
  {
    var all := DateRowMap(rows);
    var m := map date | date in all && all[date] >= 2 :: all[date];
    assert forall date :: (exists i :: 1 <= i < |rows| && FirstCellIs(rows[i], date)) ==> date in m by {
      forall date | exists i :: 1 <= i < |rows| && FirstCellIs(rows[i], date)
        ensures date in m
      {
        var i :| 1 <= i < |rows| && FirstCellIs(rows[i], date);
        assert date in all;
      }
    }
    m
  }

  /** The write of one row, at a 1-based row number. */
  datatype Update = Update(row: nat, values: Row)

  /** Everything the reconciliation writes: the header (when `writeHeader`), the in-place updates in
      order, and the rows appended as one block anchored at `nextRow`. */
  datatype Plan = Plan(writeHeader: bool, nextRow: nat, updates: seq<Update>, appended: seq<Row>)

  /** `u` is the in-place update of the row `rowOf` gives for `date`. */
  predicate UpdateFor(u: Update, date: string, rowOf: map<string, nat>, rowFor: string -> Row) {
    date in rowOf && u == Update(rowOf[date], rowFor(date))
  }

  /** The row built for each date carries that date in column A. */
  ghost predicate Labelled(rowFor: string -> Row) {
    forall date :: FirstCellIs(rowFor(date), date)
  }

  /** The row builder of the program: the statistic row of each date. */
  function StatRows(stats: Statistic): (rowFor: string -> Row)
    ensures Labelled(rowFor)
  {
    date => StatRow(date, stats)
  }

  /** `u` is the update of one of the mapped dates. */
  predicate UpdatesSome(u: Update, dates: seq<string>, rowOf: map<string, nat>, rowFor: string -> Row) {
    exists i :: 0 <= i < |dates| && UpdateFor(u, dates[i], rowOf, rowFor)
  }

  /** `row` is the row built for one of the unmapped dates. */
  predicate AppendsSome(row: Row, dates: seq<string>, rowOf: map<string, nat>, rowFor: string -> Row) {
    exists i :: 0 <= i < |dates| && dates[i] !in rowOf && row == rowFor(dates[i])
  }

  /** The loop over the sorted dates: a date with a row in `rowOf` is updated in place, any other
      date's row is queued for the append block. */
  function Upsert(dates: seq<string>, rowOf: map<string, nat>, rowFor: string -> Row): (r: (seq<Update>, seq<Row>))
    ensures |r.0| + |r.1| == |dates|
    ensures forall k :: 0 <= k < |r.0| ==> UpdatesSome(r.0[k], dates, rowOf, rowFor)
    ensures forall k :: 0 <= k < |r.1| ==> AppendsSome(r.1[k], dates, rowOf, rowFor)
  {
    if |dates| == 0 then ([], [])
    else
      var init := dates[..|dates| - 1];
      var date := dates[|dates| - 1];
      var rest := Upsert(init, rowOf, rowFor);
      var ups := rest.0;
      var app := rest.1;
      assert forall i :: 0 <= i < |init| ==> init[i] == dates[i];
      assert forall k :: 0 <= k < |ups| ==> UpdatesSome(ups[k], dates, rowOf, rowFor) by {
        forall k | 0 <= k < |ups|
          ensures UpdatesSome(ups[k], dates, rowOf, rowFor)
        {
          assert UpdatesSome(ups[k], init, rowOf, rowFor);
          var i :| 0 <= i < |init| && UpdateFor(ups[k], init[i], rowOf, rowFor);
          assert dates[i] == init[i];
        }
      }
      assert forall k :: 0 <= k < |app| ==> AppendsSome(app[k], dates, rowOf, rowFor) by {
        forall k | 0 <= k < |app|
          ensures AppendsSome(app[k], dates, rowOf, rowFor)
        {
          assert AppendsSome(app[k], init, rowOf, rowFor);
          var i :| 0 <= i < |init| && init[i] !in rowOf && app[k] == rowFor(init[i]);
          assert dates[i] == init[i];
        }
      }
      if date in rowOf then (ups + [Update(rowOf[date], rowFor(date))], app)
      else (ups, app + [rowFor(date)])
  }

  /** Every date is handled: updated in place when it has a row, queued for appending otherwise. */
  lemma {:induction false} UpsertCovers(dates: seq<string>, rowOf: map<string, nat>, rowFor: string -> Row)
    ensures forall i :: 0 <= i < |dates| && dates[i] in rowOf ==> Update(rowOf[dates[i]], rowFor(dates[i])) in Upsert(dates, rowOf, rowFor).0
    ensures forall i :: 0 <= i < |dates| && dates[i] !in rowOf ==> rowFor(dates[i]) in Upsert(dates, rowOf, rowFor).1
  {
    if |dates| > 0 {
      var init := dates[..|dates| - 1];
      UpsertCovers(init, rowOf, rowFor);
      assert forall i :: 0 <= i < |init| ==> init[i] == dates[i];
    }
  }

  /** Nothing is queued for appending exactly when every date already has a row. */
  lemma UpsertAppendsNothing(dates: seq<string>, rowOf: map<string, nat>, rowFor: string -> Row)
    ensures Upsert(dates, rowOf, rowFor).1 == [] <==> forall i :: 0 <= i < |dates| ==> dates[i] in rowOf
  {
    var app := Upsert(dates, rowOf, rowFor).1;
    UpsertCovers(dates, rowOf, rowFor);
    if |app| > 0 {
      assert AppendsSome(app[0], dates, rowOf, rowFor);
      var i :| 0 <= i < |dates| && dates[i] !in rowOf && app[0] == rowFor(dates[i]);
    }
  }

  /** The string in column A of a row ("" when there is none). */
  function DateOf(row: Row): string {
    if |row| > 0 && row[0].Str? then row[0].text else ""
  }

  /** Column A strictly increases down `rows`. */
  predicate SortedByDate(rows: seq<Row>) {
    forall k1, k2 :: 0 <= k1 < k2 < |rows| ==> Less(DateOf(rows[k1]), DateOf(rows[k2]))
  }

  /** No two updates write the same row. */
  predicate DistinctRows(ups: seq<Update>) {
    forall k1, k2 :: 0 <= k1 < k2 < |ups| ==> ups[k1].row != ups[k2].row
  }

  /** The rows queued for appending carry the unmatched dates in the order the dates came: with
      sorted dates, the appended block is sorted by its column A. */
  lemma {:induction false} UpsertAppendsInOrder(dates: seq<string>, rowOf: map<string, nat>, rowFor: string -> Row)
    requires StrictlySorted(dates) && Labelled(rowFor)
    ensures SortedByDate(Upsert(dates, rowOf, rowFor).1)
  {
    if |dates| > 0 {
      var init := dates[..|dates| - 1];
      var date := dates[|dates| - 1];
      assert StrictlySorted(init);
      UpsertAppendsInOrder(init, rowOf, rowFor);
      var app := Upsert(init, rowOf, rowFor).1;
      if date !in rowOf {
        forall k | 0 <= k < |app|
          ensures Less(DateOf(app[k]), date)
        {
          assert AppendsSome(app[k], init, rowOf, rowFor);
          var i :| 0 <= i < |init| && init[i] !in rowOf && app[k] == rowFor(init[i]);
          assert init[i] == dates[i];
        }
        var app' := Upsert(dates, rowOf, rowFor).1;
        assert app' == app + [rowFor(date)];
        forall k1, k2 | 0 <= k1 < k2 < |app'|
          ensures Less(DateOf(app'[k1]), DateOf(app'[k2]))
        {
          if k2 < |app| {
            assert app'[k1] == app[k1] && app'[k2] == app[k2];
            assert Less(DateOf(app[k1]), DateOf(app[k2]));
          } else {
            assert app'[k1] == app[k1] && app'[k2] == rowFor(date);
            assert DateOf(app'[k2]) == date;
            assert Less(DateOf(app[k1]), date);
          }
        }
      }
    }
  }

  /** `rowOf` never sends two dates to the same row. */
  predicate Injective(rowOf: map<string, nat>) {
    forall d1, d2 :: d1 in rowOf && d2 in rowOf && rowOf[d1] == rowOf[d2] ==> d1 == d2
  }

  /** No two strings of column A share a row in the program's row map. */
  lemma DateRowMapInjective(rows: seq<Row>)
    ensures Injective(DateRowMap(rows))
  {
    var m := DateRowMap(rows);
    forall d1, d2 | d1 in m && d2 in m && m[d1] == m[d2]
      ensures d1 == d2
    {
      LastRowOfUnique(rows, d1, d2, m[d1]);
    }
  }

  /** No two strings of column A share a row in the corrected row map. */
  lemma DataRowMapInjective(rows: seq<Row>)
    ensures Injective(DataRowMap(rows))
  {
    var m := DataRowMap(rows);
    forall d1, d2 | d1 in m && d2 in m && m[d1] == m[d2]
      ensures d1 == d2
    {
      LastRowOfUnique(rows, d1, d2, m[d1]);
    }
  }

  lemma LastRowOfUnique(rows: seq<Row>, d1: string, d2: string, r: int)
    requires LastRowOf(rows, d1, r) && LastRowOf(rows, d2, r)
    ensures d1 == d2
  {
    assert rows[r - 1][0] == Str(d1) && rows[r - 1][0] == Str(d2);
  }

  /** A date has one last row. */
  lemma LastRowOfSame(rows: seq<Row>, d: string, r1: int, r2: int)
    requires LastRowOf(rows, d, r1) && LastRowOf(rows, d, r2)
    ensures r1 == r2
  {
  }

  /** With distinct dates and an injective row map, no two updates write the same row. */
  lemma {:induction false} UpsertDistinctRows(dates: seq<string>, rowOf: map<string, nat>, rowFor: string -> Row)
    requires StrictlySorted(dates) && Injective(rowOf)
    ensures DistinctRows(Upsert(dates, rowOf, rowFor).0)
  {
    if |dates| > 0 {
      var init := dates[..|dates| - 1];
      var date := dates[|dates| - 1];
      assert StrictlySorted(init);
      UpsertDistinctRows(init, rowOf, rowFor);
      var ups := Upsert(init, rowOf, rowFor).0;
      if date in rowOf {
        forall k | 0 <= k < |ups|
          ensures ups[k].row != rowOf[date]
        {
          assert UpdatesSome(ups[k], init, rowOf, rowFor);
          var i :| 0 <= i < |init| && UpdateFor(ups[k], init[i], rowOf, rowFor);
          assert init[i] == dates[i];
          StrictlySortedDistinct(dates, i, |dates| - 1);
        }
        var ups' := Upsert(dates, rowOf, rowFor).0;
        assert ups' == ups + [Update(rowOf[date], rowFor(date))];
        forall k1, k2 | 0 <= k1 < k2 < |ups'|
          ensures ups'[k1].row != ups'[k2].row
        {
          assert ups'[k1] == ups[k1];
          if k2 < |ups| {
            assert ups'[k2] == ups[k2];
            assert ups[k1].row != ups[k2].row;
          } else {
            assert ups'[k2].row == rowOf[date];
            assert ups[k1].row != rowOf[date];
          }
        }
      }
    }
  }

  /** Exactly one update, the in-place write of `d`'s row at its mapped row, carries `d`. */
  predicate UpdatedOnce(ups: seq<Update>, d: string, rowOf: map<string, nat>, rowFor: string -> Row) {
    d in rowOf
    && exists k :: 0 <= k < |ups| && ups[k] == Update(rowOf[d], rowFor(d))
                   && forall k' :: 0 <= k' < |ups| && k' != k ==> !FirstCellIs(ups[k'].values, d)
  }

  /** Exactly one appended row, `d`'s own row, carries `d`. */
  predicate AppendedOnce(app: seq<Row>, d: string, rowFor: string -> Row) {
    exists q :: 0 <= q < |app| && app[q] == rowFor(d)
                && forall q' :: 0 <= q' < |app| && q' != q ==> !FirstCellIs(app[q'], d)
  }

  predicate NoUpdateCarries(ups: seq<Update>, d: string) {
    forall k :: 0 <= k < |ups| ==> !FirstCellIs(ups[k].values, d)
  }

  predicate NoRowCarries(rows: seq<Row>, d: string) {
    forall q :: 0 <= q < |rows| ==> !FirstCellIs(rows[q], d)
  }

  /** Each date lands in exactly one place: a mapped date in exactly one in-place update and not in
      the append block, any other date in exactly one appended row and in no update. */
  lemma UpsertPartition(dates: seq<string>, rowOf: map<string, nat>, rowFor: string -> Row, i: int)
    requires StrictlySorted(dates) && Injective(rowOf) && Labelled(rowFor) && 0 <= i < |dates|
    ensures dates[i] in rowOf ==> UpdatedOnce(Upsert(dates, rowOf, rowFor).0, dates[i], rowOf, rowFor)
                                  && NoRowCarries(Upsert(dates, rowOf, rowFor).1, dates[i])
    ensures dates[i] !in rowOf ==> AppendedOnce(Upsert(dates, rowOf, rowFor).1, dates[i], rowFor)
                                   && NoUpdateCarries(Upsert(dates, rowOf, rowFor).0, dates[i])
  {
    var d := dates[i];
    var ups := Upsert(dates, rowOf, rowFor).0;
    var app := Upsert(dates, rowOf, rowFor).1;
    UpsertCovers(dates, rowOf, rowFor);
    if d in rowOf {
      UpsertDistinctRows(dates, rowOf, rowFor);
      var k :| 0 <= k < |ups| && ups[k] == Update(rowOf[d], rowFor(d));
      forall k' | 0 <= k' < |ups| && k' != k
        ensures !FirstCellIs(ups[k'].values, d)
      {
        assert UpdatesSome(ups[k'], dates, rowOf, rowFor);
        var j :| 0 <= j < |dates| && UpdateFor(ups[k'], dates[j], rowOf, rowFor);
        assert ups[k'].row != ups[k].row;
        assert FirstCellIs(rowFor(dates[j]), dates[j]);
      }
      forall q | 0 <= q < |app|
        ensures !FirstCellIs(app[q], d)
      {
        assert AppendsSome(app[q], dates, rowOf, rowFor);
        var j :| 0 <= j < |dates| && dates[j] !in rowOf && app[q] == rowFor(dates[j]);
        assert FirstCellIs(rowFor(dates[j]), dates[j]);
      }
    } else {
      UpsertAppendsInOrder(dates, rowOf, rowFor);
      var q :| 0 <= q < |app| && app[q] == rowFor(d);
      assert FirstCellIs(rowFor(d), d);
      forall q' | 0 <= q' < |app| && q' != q
        ensures !FirstCellIs(app[q'], d)
      {
        LessIrreflexive(d);
        if q' < q {
          assert Less(DateOf(app[q']), DateOf(app[q]));
        } else {
          assert Less(DateOf(app[q]), DateOf(app[q']));
        }
      }
      forall k | 0 <= k < |ups|
        ensures !FirstCellIs(ups[k].values, d)
      {
        assert UpdatesSome(ups[k], dates, rowOf, rowFor);
        var j :| 0 <= j < |dates| && UpdateFor(ups[k], dates[j], rowOf, rowFor);
        assert FirstCellIs(rowFor(dates[j]), dates[j]);
      }
    }
  }

  /** The header step: the header is rewritten unless the first row read back is exactly the header,
      and the append anchor is row 2 after a rewrite, else the row after the existing data. */
  function HeaderStep(headerValues: seq<Row>, existing: seq<Row>): (r: (bool, nat))
    ensures r.0 <==> !(|headerValues| > 0 && headerValues[0] == Header)
    ensures r.1 == if r.0 then 2 else |existing| + 1
  {
    var writeHeader := |headerValues| == 0 || !HeaderRowMatches(headerValues[0]);
    (writeHeader, if writeHeader then 2 else |existing| + 1)
  }

  /** The plan as the program computes it, for any row builder: dates are matched against every row
      read, row 1 included, so an update may land on row 1. */
  function AsWrittenPlan(headerValues: seq<Row>, existing: seq<Row>, dates: seq<string>, rowFor: string -> Row): (p: Plan)
    ensures forall k :: 0 <= k < |p.updates| ==> 1 <= p.updates[k].row <= |existing|
  {
    var (writeHeader, nextRow) := HeaderStep(headerValues, existing);
    var rowOf := DateRowMap(existing);
    var r := Upsert(dates, rowOf, rowFor);
    var ups := r.0;
    assert forall k :: 0 <= k < |ups| ==> 1 <= ups[k].row <= |existing| by {
      forall k | 0 <= k < |ups|
        ensures 1 <= ups[k].row <= |existing|
      {
        assert UpdatesSome(ups[k], dates, rowOf, rowFor);
        var i :| 0 <= i < |dates| && UpdateFor(ups[k], dates[i], rowOf, rowFor);
      }
    }
    Plan(writeHeader, nextRow, ups, r.1)
  }

  /** The plan of the program as written: statistic rows, matched against every row read. */
  function PlanSheetAsWritten(headerValues: seq<Row>, existing: seq<Row>, dates: seq<string>, stats: Statistic): Plan {
    AsWrittenPlan(headerValues, existing, dates, StatRows(stats))
  }

  /** In the program's own plan, each date lands in exactly one place: a date found in column A in
      exactly one in-place update of its last row and in no appended row, any other date in exactly
      one appended row and in no update. */
  lemma PlanSheetAsWrittenPartition(headerValues: seq<Row>, existing: seq<Row>, dates: seq<string>, stats: Statistic, i: int)
    requires StrictlySorted(dates) && 0 <= i < |dates|
    ensures var p := PlanSheetAsWritten(headerValues, existing, dates, stats);
            var rowOf := DateRowMap(existing);
            (dates[i] in rowOf ==> UpdatedOnce(p.updates, dates[i], rowOf, StatRows(stats)) && NoRowCarries(p.appended, dates[i]))
            && (dates[i] !in rowOf ==> AppendedOnce(p.appended, dates[i], StatRows(stats)) && NoUpdateCarries(p.updates, dates[i]))
  {
    DateRowMapInjective(existing);
    UpsertPartition(dates, DateRowMap(existing), StatRows(stats), i);
  }

  /** The plan with row 1 kept for the header, for any row builder: dates are matched against
      rows 2 onwards only, so no update lands on the header row. */
  function ReservedPlan(headerValues: seq<Row>, existing: seq<Row>, dates: seq<string>, rowFor: string -> Row): (p: Plan)
    ensures forall k :: 0 <= k < |p.updates| ==> 2 <= p.updates[k].row <= |existing|
  {
    var (writeHeader, nextRow) := HeaderStep(headerValues, existing);
    var rowOf := DataRowMap(existing);
    var r := Upsert(dates, rowOf, rowFor);
    var ups := r.0;
    assert forall k :: 0 <= k < |ups| ==> 2 <= ups[k].row <= |existing| by {
      forall k | 0 <= k < |ups|
        ensures 2 <= ups[k].row <= |existing|
      {
        assert UpdatesSome(ups[k], dates, rowOf, rowFor);
        var i :| 0 <= i < |dates| && UpdateFor(ups[k], dates[i], rowOf, rowFor);
      }
    }
    Plan(writeHeader, nextRow, ups, r.1)
  }

  /** The corrected plan of the program: the reserved-header plan writing statistic rows. */
  function PlanSheet(headerValues: seq<Row>, existing: seq<Row>, dates: seq<string>, stats: Statistic): Plan {
    ReservedPlan(headerValues, existing, dates, StatRows(stats))
  }

  /** In the corrected plan, each date lands in exactly one place, matched against rows 2 onwards. */
  lemma PlanSheetPartition(headerValues: seq<Row>, existing: seq<Row>, dates: seq<string>, stats: Statistic, i: int)
    requires StrictlySorted(dates) && 0 <= i < |dates|
    ensures var p := PlanSheet(headerValues, existing, dates, stats);
            var rowOf := DataRowMap(existing);
            (dates[i] in rowOf ==> UpdatedOnce(p.updates, dates[i], rowOf, StatRows(stats)) && NoRowCarries(p.appended, dates[i]))
            && (dates[i] !in rowOf ==> AppendedOnce(p.appended, dates[i], StatRows(stats)) && NoUpdateCarries(p.updates, dates[i]))
  {
    DataRowMapInjective(existing);
    UpsertPartition(dates, DataRowMap(existing), StatRows(stats), i);
  }
}
