/**
 A model of the tab the plan is applied to, as a sequence of rows (row 1 first),
 and what running the reconciliation twice does to it.

 The reads see the rows as they are; the header write replaces row 1 (creating it on an
 empty tab); each update replaces the row it names; the append block goes after the
 last row of the tab.
 */
module Store {
  import opened Statistics
  import opened StringOrder
  import opened Sheet

  /** What reading A1:E1 returns: nothing when the tab or its first row is empty. */
  function ReadHeader(rows: seq<Row>): seq<Row> {
    if |rows| == 0 || rows[0] == [] then [] else [rows[0]]
  }

  /** The tab after the header write of the plan, if it has one. */
  function WithHeader(rows: seq<Row>, writeHeader: bool): (r: seq<Row>)
    ensures writeHeader ==> |r| >= 1 && r[0] == Header
    ensures !writeHeader ==> r == rows
    ensures |r| == if writeHeader && |rows| == 0 then 1 else |rows|
    ensures forall j :: 1 <= j < |rows| ==> r[j] == rows[j]
  {
    if !writeHeader then rows else if |rows| == 0 then [Header] else rows[0 := Header]
  }

  /** One update: replaces the row it names and leaves every other row alone. */
  function SetRow(rows: seq<Row>, u: Update): (r: seq<Row>)
    ensures |r| == |rows|
    ensures forall j :: 0 <= j < |rows| ==> r[j] == if j == u.row - 1 then u.values else rows[j]
  {
    if 1 <= u.row <= |rows| then rows[u.row - 1 := u.values] else rows
  }

  /** The updates, applied in order. */
  function ApplyUpdates(rows: seq<Row>, us: seq<Update>): (r: seq<Row>)
    ensures |r| == |rows|
    decreases |us|
  {
    if |us| == 0 then rows else ApplyUpdates(SetRow(rows, us[0]), us[1..])
  }

  /** A row no update names keeps its contents. */
  lemma {:induction false} ApplyUpdatesElsewhere(rows: seq<Row>, us: seq<Update>, j: int)
    requires 0 <= j < |rows|
    requires forall k :: 0 <= k < |us| ==> us[k].row != j + 1
    ensures ApplyUpdates(rows, us)[j] == rows[j]
    decreases |us|
  {
    if |us| > 0 {
      assert forall k :: 0 <= k < |us[1..]| ==> us[1..][k] == us[k + 1];
      ApplyUpdatesElsewhere(SetRow(rows, us[0]), us[1..], j);
    }
  }

  /** A row named by exactly one update holds that update's values afterwards. */
  lemma {:induction false} ApplyUpdatesAt(rows: seq<Row>, us: seq<Update>, k: int)
    requires 0 <= k < |us| && 1 <= us[k].row <= |rows|
    requires forall k' :: 0 <= k' < |us| && k' != k ==> us[k'].row != us[k].row
    ensures ApplyUpdates(rows, us)[us[k].row - 1] == us[k].values
    decreases |us|
  {
    var rows' := SetRow(rows, us[0]);
    assert forall k' :: 0 <= k' < |us[1..]| ==> us[1..][k'] == us[k' + 1];
    if k > 0 {
      ApplyUpdatesAt(rows', us[1..], k - 1);
    } else {
      ApplyUpdatesElsewhere(rows', us[1..], us[0].row - 1);
    }
  }

  /** Every update names an existing row and writes what it already holds. */
  predicate AlreadyHeld(rows: seq<Row>, us: seq<Update>) {
    forall k :: 0 <= k < |us| ==> 1 <= us[k].row <= |rows| && rows[us[k].row - 1] == us[k].values
  }

  /** Updates that write what the rows already hold change nothing. */
  lemma {:induction false} ApplyUpdatesUnchanged(rows: seq<Row>, us: seq<Update>)
    requires AlreadyHeld(rows, us)
    ensures ApplyUpdates(rows, us) == rows
    decreases |us|
  {
    if |us| > 0 {
      assert SetRow(rows, us[0]) == rows;
      assert forall k :: 0 <= k < |us[1..]| ==> us[1..][k] == us[k + 1];
      ApplyUpdatesUnchanged(rows, us[1..]);
    }
  }

  /** The tab after a plan has run: header, then updates, then the appended block. */
  function ApplyPlan(rows: seq<Row>, p: Plan): (r: seq<Row>)
    ensures |r| == |WithHeader(rows, p.writeHeader)| + |p.appended|
    ensures r[|r| - |p.appended|..] == p.appended
  {
    ApplyUpdates(WithHeader(rows, p.writeHeader), p.updates) + p.appended
  }

  /** One run of the reconciliation as the program performs it, for any row builder. */
  function RunAsWrittenWith(rows: seq<Row>, dates: seq<string>, rowFor: string -> Row): seq<Row> {
    ApplyPlan(rows, AsWrittenPlan(ReadHeader(rows), rows, dates, rowFor))
  }

  /** One run of the reconciliation as the program performs it. */
  function RunAsWritten(rows: seq<Row>, dates: seq<string>, stats: Statistic): seq<Row> {
    RunAsWrittenWith(rows, dates, StatRows(stats))
  }

  /** One run of the reconciliation with row 1 reserved for the header, for any row builder. */
  function RunWith(rows: seq<Row>, dates: seq<string>, rowFor: string -> Row): seq<Row> {
    ApplyPlan(rows, ReservedPlan(ReadHeader(rows), rows, dates, rowFor))
  }

  /** One run of the corrected reconciliation. */
  function Run(rows: seq<Row>, dates: seq<string>, stats: Statistic): seq<Row> {
    RunWith(rows, dates, StatRows(stats))
  }

  /** A one-row tab holding a date instead of the header: the program writes the header and then
      writes that date's counts over it, so the tab ends without a header and the next run
      writes the header again. */
  lemma HeaderOverwrittenExample()
    ensures var rows: seq<Row> := [[Str("2024-05-01"), Int(1), Int(0), Int(0), Int(0)]];
            var stats: Statistic := map["2024-05-01" := map[Events.Installed := 2]];
            var p := PlanSheetAsWritten(ReadHeader(rows), rows, ["2024-05-01"], stats);
            var after := RunAsWritten(rows, ["2024-05-01"], stats);
            p.writeHeader && p.updates == [Update(1, StatRow("2024-05-01", stats))]
            && after == [StatRow("2024-05-01", stats)]
            && after[0] != Header
            && PlanSheetAsWritten(ReadHeader(after), after, ["2024-05-01"], stats).writeHeader
  {
    var rows: seq<Row> := [[Str("2024-05-01"), Int(1), Int(0), Int(0), Int(0)]];
    var stats: Statistic := map["2024-05-01" := map[Events.Installed := 2]];
    var dates := ["2024-05-01"];
    assert rows[0][0] != Header[0];
    assert LastRowOf(rows, dates[0], 1);
    HeaderOverwrittenAsWritten(rows, dates, stats, 0);
    var p := PlanSheetAsWritten(ReadHeader(rows), rows, dates, stats);
    var m := DateRowMap(rows);
    assert dates[0] in m;
    UpsertAppendsNothing(dates, m, StatRows(stats));
    assert |p.updates| == 1;
  }

  /** The header is in row 1 after a run, whatever the tab held before. */
  lemma RunWithKeepsHeader(rows: seq<Row>, dates: seq<string>, rowFor: string -> Row)
    ensures |RunWith(rows, dates, rowFor)| >= 1 && RunWith(rows, dates, rowFor)[0] == Header
  {
    var p := ReservedPlan(ReadHeader(rows), rows, dates, rowFor);
    var s1 := WithHeader(rows, p.writeHeader);
    assert |s1| >= 1 && s1[0] == Header;
    ApplyUpdatesElsewhere(s1, p.updates, 0);
  }

  /** The appended block starts at the row the plan anchors it at whenever that anchor is past the
      tab's last row: when the header was already in place, or the tab held at most one row. */
  lemma RunWithAppendsAtNextRow(rows: seq<Row>, dates: seq<string>, rowFor: string -> Row)
    ensures var p := ReservedPlan(ReadHeader(rows), rows, dates, rowFor);
            !p.writeHeader || |rows| <= 1 ==>
            |RunWith(rows, dates, rowFor)| - |p.appended| + 1 == p.nextRow
  {
  }

  /** `m` sends each of its dates to the last row whose column A holds it. */
  ghost predicate LastRows(rows: seq<Row>, m: map<string, nat>) {
    Injective(m) && forall d :: d in m ==> LastRowOf(rows, d, m[d])
  }

  /** `s` is `rows` with at most row 1 replaced or created. */
  predicate SameBelowHeader(rows: seq<Row>, s: seq<Row>) {
    |s| >= 1 && |s| >= |rows| && forall j :: 1 <= j < |s| ==> j < |rows| && s[j] == rows[j]
  }

  /** What the proofs below know about one run: `s` is the tab after the header step, `m` the row map
      of the tab before it, `ups` and `app` the updates and appended rows planned for `dates`. */
  ghost predicate PlanFacts(rows: seq<Row>, s: seq<Row>, ups: seq<Update>, app: seq<Row>, dates: seq<string>,
                            m: map<string, nat>, rowFor: string -> Row) {
    SameBelowHeader(rows, s) && LastRows(rows, m) && Labelled(rowFor)
    && DistinctRows(ups) && SortedByDate(app)
    && (forall k :: 0 <= k < |ups| ==> UpdatesSome(ups[k], dates, m, rowFor))
    && (forall k :: 0 <= k < |app| ==> AppendsSome(app[k], dates, m, rowFor))
  }

  /** The last row whose column A holds `d` is row `lo` or a later one, and it holds `row`. */
  ghost predicate Settled(rows: seq<Row>, d: string, row: Row, lo: int) {
    exists r :: lo <= r && LastRowOf(rows, d, r) && rows[r - 1] == row
  }

  /** Below a date's mapped row, a row rewritten by an update carries another date. */
  lemma UpdatedRowBelow(rows: seq<Row>, s: seq<Row>, ups: seq<Update>, app: seq<Row>, dates: seq<string>,
                        m: map<string, nat>, rowFor: string -> Row, d: string, j: int, k: int)
    requires PlanFacts(rows, s, ups, app, dates, m, rowFor)
    requires d in m && m[d] <= j < |s|
    requires 0 <= k < |ups| && ups[k].row == j + 1
    ensures !FirstCellIs(ApplyUpdates(s, ups)[j], d)
  {
    assert UpdatesSome(ups[k], dates, m, rowFor);
    var i :| 0 <= i < |dates| && UpdateFor(ups[k], dates[i], m, rowFor);
    ApplyUpdatesAt(s, ups, k);
    assert FirstCellIs(rowFor(dates[i]), dates[i]);
  }

  /** Below a date's mapped row, a row no update names is still the old row, which does not carry
      the date. */
  lemma UntouchedRowBelow(rows: seq<Row>, s: seq<Row>, ups: seq<Update>, m: map<string, nat>, d: string, j: int)
    requires SameBelowHeader(rows, s) && LastRows(rows, m)
    requires d in m && m[d] <= j < |s|
    requires forall k :: 0 <= k < |ups| ==> ups[k].row != j + 1
    ensures !FirstCellIs(ApplyUpdates(s, ups)[j], d)
  {
    ApplyUpdatesElsewhere(s, ups, j);
  }

  /** An appended row never carries a date that already had a row. */
  lemma AppendedRowOther(rows: seq<Row>, s: seq<Row>, ups: seq<Update>, app: seq<Row>, dates: seq<string>,
                         m: map<string, nat>, rowFor: string -> Row, d: string, q: int)
    requires PlanFacts(rows, s, ups, app, dates, m, rowFor)
    requires d in m && 0 <= q < |app|
    ensures !FirstCellIs(app[q], d)
  {
    assert AppendsSome(app[q], dates, m, rowFor);
    var i :| 0 <= i < |dates| && dates[i] !in m && app[q] == rowFor(dates[i]);
    assert FirstCellIs(rowFor(dates[i]), dates[i]);
  }

  /** Below a date's mapped row, no row of the tab after the plan carries that date. */
  lemma RowBelowUpdated(rows: seq<Row>, s: seq<Row>, ups: seq<Update>, app: seq<Row>, dates: seq<string>,
                        m: map<string, nat>, rowFor: string -> Row, d: string, j: int)
    requires PlanFacts(rows, s, ups, app, dates, m, rowFor)
    requires d in m && m[d] <= j < |s| + |app|
    ensures !FirstCellIs((ApplyUpdates(s, ups) + app)[j], d)
  {
    var s2 := ApplyUpdates(s, ups);
    if j < |s2| {
      assert (s2 + app)[j] == s2[j];
      if k :| 0 <= k < |ups| && ups[k].row == j + 1 {
        UpdatedRowBelow(rows, s, ups, app, dates, m, rowFor, d, j, k);
      } else {
        UntouchedRowBelow(rows, s, ups, m, d, j);
      }
    } else {
      assert (s2 + app)[j] == app[j - |s2|];
      AppendedRowOther(rows, s, ups, app, dates, m, rowFor, d, j - |s2|);
    }
  }

  /** Below a date's mapped row, no row of the tab after the plan carries that date. */
  lemma RowsBelowUpdated(rows: seq<Row>, s: seq<Row>, ups: seq<Update>, app: seq<Row>, dates: seq<string>,
                         m: map<string, nat>, rowFor: string -> Row, d: string)
    requires PlanFacts(rows, s, ups, app, dates, m, rowFor)
    requires d in m
    ensures forall j :: m[d] <= j < |s| + |app| ==> !FirstCellIs((ApplyUpdates(s, ups) + app)[j], d)
  {
    forall j | m[d] <= j < |s| + |app|
      ensures !FirstCellIs((ApplyUpdates(s, ups) + app)[j], d)
    {
      RowBelowUpdated(rows, s, ups, app, dates, m, rowFor, d, j);
    }
  }

  /** A date that already had a row: its update leaves the date's new row at its mapped row. */
  lemma UpdatedRowHolds(rows: seq<Row>, s: seq<Row>, ups: seq<Update>, m: map<string, nat>, d: string, row: Row)
    requires SameBelowHeader(rows, s) && LastRows(rows, m) && DistinctRows(ups)
    requires d in m && Update(m[d], row) in ups
    ensures 1 <= m[d] <= |s| && ApplyUpdates(s, ups)[m[d] - 1] == row
  {
    var k :| 0 <= k < |ups| && ups[k] == Update(m[d], row);
    forall k' | 0 <= k' < |ups| && k' != k
      ensures ups[k'].row != ups[k].row
    {
      if k' < k {
        assert ups[k'].row != ups[k].row;
      } else {
        assert ups[k].row != ups[k'].row;
      }
    }
    ApplyUpdatesAt(s, ups, k);
  }

  /** A date that already had a row: after the plan, its last row is still that row, now holding the
      date's new values. */
  lemma LastRowOfUpdated(rows: seq<Row>, s: seq<Row>, ups: seq<Update>, app: seq<Row>, dates: seq<string>,
                         m: map<string, nat>, rowFor: string -> Row, d: string)
    requires PlanFacts(rows, s, ups, app, dates, m, rowFor)
    requires d in m && Update(m[d], rowFor(d)) in ups
    ensures LastRowOf(ApplyUpdates(s, ups) + app, d, m[d]) && (ApplyUpdates(s, ups) + app)[m[d] - 1] == rowFor(d)
  {
    var s2 := ApplyUpdates(s, ups);
    var r := m[d];
    UpdatedRowHolds(rows, s, ups, m, d, rowFor(d));
    RowsBelowUpdated(rows, s, ups, app, dates, m, rowFor, d);
    assert (s2 + app)[r - 1] == rowFor(d);
  }

  /** A date that had no row: after the plan, its last row is its row in the appended block. */
  lemma LastRowOfAppended(s2: seq<Row>, app: seq<Row>, rowFor: string -> Row, d: string)
    requires |s2| >= 1 && Labelled(rowFor) && SortedByDate(app) && rowFor(d) in app
    ensures Settled(s2 + app, d, rowFor(d), 2)
  {
    var after := s2 + app;
    var q :| 0 <= q < |app| && app[q] == rowFor(d);
    var row := |s2| + q + 1;
    assert FirstCellIs(rowFor(d), d);
    assert DateOf(app[q]) == d;
    forall j | row <= j < |after|
      ensures !FirstCellIs(after[j], d)
    {
      assert after[j] == app[j - |s2|];
      assert Less(d, DateOf(app[j - |s2|]));
      LessIrreflexive(d);
    }
    assert after[row - 1] == app[q];
    assert LastRowOf(after, d, row);
  }

  /** Whether or not a date had a row, after the plan its last row holds the date's row, and that row
      is no higher than row `lo` when the row map only holds rows from `lo` on. */
  lemma SettledAfterPlan(rows: seq<Row>, s: seq<Row>, ups: seq<Update>, app: seq<Row>, dates: seq<string>,
                         m: map<string, nat>, rowFor: string -> Row, d: string, lo: int)
    requires PlanFacts(rows, s, ups, app, dates, m, rowFor)
    requires lo <= 2 && (d in m ==> lo <= m[d])
    requires d in m ==> Update(m[d], rowFor(d)) in ups
    requires d !in m ==> rowFor(d) in app
    ensures Settled(ApplyUpdates(s, ups) + app, d, rowFor(d), lo)
  {
    if d in m {
      LastRowOfUpdated(rows, s, ups, app, dates, m, rowFor, d);
    } else {
      LastRowOfAppended(ApplyUpdates(s, ups), app, rowFor, d);
    }
  }

  /** After a run, the last row (from row 2 on) whose column A holds one of the dates holds that
      date's row. */
  lemma RunWithLeavesLastRow(rows: seq<Row>, dates: seq<string>, rowFor: string -> Row, i: int)
    requires StrictlySorted(dates) && Labelled(rowFor) && 0 <= i < |dates|
    ensures Settled(RunWith(rows, dates, rowFor), dates[i], rowFor(dates[i]), 2)
  {
    var p := ReservedPlan(ReadHeader(rows), rows, dates, rowFor);
    var m := DataRowMap(rows);
    DataRowMapInjective(rows);
    assert LastRows(rows, m);
    var s := WithHeader(rows, p.writeHeader);
    assert SameBelowHeader(rows, s);
    var ups := Upsert(dates, m, rowFor).0;
    var app := Upsert(dates, m, rowFor).1;
    assert RunWith(rows, dates, rowFor) == ApplyUpdates(s, ups) + app;
    UpsertCovers(dates, m, rowFor);
    UpsertDistinctRows(dates, m, rowFor);
    UpsertAppendsInOrder(dates, m, rowFor);
    assert PlanFacts(rows, s, ups, app, dates, m, rowFor);
    SettledAfterPlan(rows, s, ups, app, dates, m, rowFor, dates[i], 2);
  }

  /** `m` is a row map of the rows from row `lo` on: every string found in column A there is mapped,
      and each is mapped to the last row holding it, which is row `lo` or a later one. */
  ghost predicate RowMapOf(rows: seq<Row>, m: map<string, nat>, lo: int) {
    (forall d, i :: 0 <= i < |rows| && lo - 1 <= i && FirstCellIs(rows[i], d) ==> d in m)
    && forall d :: d in m ==> lo <= m[d] && LastRowOf(rows, d, m[d])
  }

  /** A date whose last row holds `row`: the row map finds exactly that row. */
  lemma RowMapFindsSettled(rows: seq<Row>, m: map<string, nat>, lo: int, d: string, row: Row)
    requires RowMapOf(rows, m, lo) && Settled(rows, d, row, lo)
    ensures d in m && 1 <= m[d] <= |rows| && rows[m[d] - 1] == row
  {
    var r :| lo <= r && LastRowOf(rows, d, r) && rows[r - 1] == row;
    assert FirstCellIs(rows[r - 1], d);
    LastRowOfSame(rows, d, r, m[d]);
  }

  /** Updates of mapped dates each write the date's row where the row map places it. */
  lemma UpsertRewritesInPlace(rows: seq<Row>, dates: seq<string>, m: map<string, nat>, rowFor: string -> Row)
    requires forall i :: 0 <= i < |dates| ==> dates[i] in m && 1 <= m[dates[i]] <= |rows| && rows[m[dates[i]] - 1] == rowFor(dates[i])
    ensures AlreadyHeld(rows, Upsert(dates, m, rowFor).0)
  {
    var ups := Upsert(dates, m, rowFor).0;
    forall k | 0 <= k < |ups|
      ensures 1 <= ups[k].row <= |rows| && rows[ups[k].row - 1] == ups[k].values
    {
      assert UpdatesSome(ups[k], dates, m, rowFor);
      var i :| 0 <= i < |dates| && UpdateFor(ups[k], dates[i], m, rowFor);
    }
  }

  /** Each date's last row already holds the date's row: the row map places every date at that row. */
  lemma SettledRowMap(rows: seq<Row>, m: map<string, nat>, lo: int, dates: seq<string>, rowFor: string -> Row)
    requires RowMapOf(rows, m, lo)
    requires forall i :: 0 <= i < |dates| ==> Settled(rows, dates[i], rowFor(dates[i]), lo)
    ensures forall i :: 0 <= i < |dates| ==> dates[i] in m && 1 <= m[dates[i]] <= |rows| && rows[m[dates[i]] - 1] == rowFor(dates[i])
  {
    forall i | 0 <= i < |dates|
      ensures dates[i] in m && 1 <= m[dates[i]] <= |rows| && rows[m[dates[i]] - 1] == rowFor(dates[i])
    {
      RowMapFindsSettled(rows, m, lo, dates[i], rowFor(dates[i]));
    }
  }

  /** When each date's last row already holds the date's row, planning the dates again appends
      nothing and updates only with what the rows hold. */
  lemma SecondPassChangesNothing(rows: seq<Row>, dates: seq<string>, rowFor: string -> Row)
    requires forall i :: 0 <= i < |dates| ==> Settled(rows, dates[i], rowFor(dates[i]), 2)
    ensures var r := Upsert(dates, DataRowMap(rows), rowFor);
            r.1 == [] && ApplyUpdates(rows, r.0) == rows
  {
    var m := DataRowMap(rows);
    assert RowMapOf(rows, m, 2);
    SettledRowMap(rows, m, 2, dates, rowFor);
    UpsertAppendsNothing(dates, m, rowFor);
    UpsertRewritesInPlace(rows, dates, m, rowFor);
    ApplyUpdatesUnchanged(rows, Upsert(dates, m, rowFor).0);
  }

  /** Idempotence for any row builder that labels its rows with their date. */
  lemma RunWithTwiceUnchanged(rows: seq<Row>, dates: seq<string>, rowFor: string -> Row)
    requires StrictlySorted(dates) && Labelled(rowFor)
    ensures var after := RunWith(rows, dates, rowFor);
            var p := ReservedPlan(ReadHeader(after), after, dates, rowFor);
            !p.writeHeader && p.appended == [] && RunWith(after, dates, rowFor) == after
  {
    var after := RunWith(rows, dates, rowFor);
    RunWithKeepsHeader(rows, dates, rowFor);
    assert after[0] != [];
    assert ReadHeader(after) == [Header];
    forall i | 0 <= i < |dates|
      ensures Settled(after, dates[i], rowFor(dates[i]), 2)
    {
      RunWithLeavesLastRow(rows, dates, rowFor, i);
    }
    SecondPassChangesNothing(after, dates, rowFor);
  }

  /** The corrected program keeps the header in row 1, whatever the tab held before. */
  lemma RunKeepsHeader(rows: seq<Row>, dates: seq<string>, stats: Statistic)
    ensures |Run(rows, dates, stats)| >= 1 && Run(rows, dates, stats)[0] == Header
  {
    RunWithKeepsHeader(rows, dates, StatRows(stats));
  }

  /** Idempotence of the corrected program: over the sorted keys of a statistic, a second run
      rewrites no header, appends nothing and leaves the tab exactly as the first run left it. */
  lemma RunTwiceUnchanged(rows: seq<Row>, dates: seq<string>, stats: Statistic)
    requires StrictlySorted(dates)
    ensures var after := Run(rows, dates, stats);
            var p := PlanSheet(ReadHeader(after), after, dates, stats);
            !p.writeHeader && p.appended == [] && Run(after, dates, stats) == after
  {
    RunWithTwiceUnchanged(rows, dates, StatRows(stats));
  }

  /** Updates that each write what `rows` holds, one of them naming row 1, turn `s` into `rows` when
      `s` differs from `rows` at most in row 1. */
  lemma {:induction false} ApplyUpdatesRestoreRowOne(s: seq<Row>, rows: seq<Row>, us: seq<Update>)
    requires |s| == |rows| >= 1 && AlreadyHeld(rows, us)
    requires forall j :: 1 <= j < |rows| ==> s[j] == rows[j]
    requires exists k :: 0 <= k < |us| && us[k].row == 1
    ensures ApplyUpdates(s, us) == rows
    decreases |us|
  {
    var s1 := SetRow(s, us[0]);
    assert forall k :: 0 <= k < |us[1..]| ==> us[1..][k] == us[k + 1];
    assert AlreadyHeld(rows, us[1..]);
    if us[0].row == 1 {
      assert s1 == rows;
      ApplyUpdatesUnchanged(rows, us[1..]);
    } else {
      var k :| 0 <= k < |us| && us[k].row == 1;
      assert us[1..][k - 1].row == 1;
      ApplyUpdatesRestoreRowOne(s1, rows, us[1..]);
    }
  }

  /** What the proofs know about one run of the program as written: the plan's facts over the row map
      of every row read, and the tab it leaves. */
  lemma AsWrittenPlanFacts(rows: seq<Row>, dates: seq<string>, rowFor: string -> Row)
    requires StrictlySorted(dates) && Labelled(rowFor)
    ensures var p := AsWrittenPlan(ReadHeader(rows), rows, dates, rowFor);
            var s := WithHeader(rows, p.writeHeader);
            PlanFacts(rows, s, p.updates, p.appended, dates, DateRowMap(rows), rowFor)
            && p.updates == Upsert(dates, DateRowMap(rows), rowFor).0
            && p.appended == Upsert(dates, DateRowMap(rows), rowFor).1
            && RunAsWrittenWith(rows, dates, rowFor) == ApplyUpdates(s, p.updates) + p.appended
  {
    var m := DateRowMap(rows);
    DateRowMapInjective(rows);
    assert LastRows(rows, m);
    UpsertDistinctRows(dates, m, rowFor);
    UpsertAppendsInOrder(dates, m, rowFor);
  }

  /** After a run of the program as written, the last row whose column A holds one of the dates holds
      that date's row. */
  lemma RunAsWrittenLeavesLastRow(rows: seq<Row>, dates: seq<string>, rowFor: string -> Row, i: int)
    requires StrictlySorted(dates) && Labelled(rowFor) && 0 <= i < |dates|
    ensures Settled(RunAsWrittenWith(rows, dates, rowFor), dates[i], rowFor(dates[i]), 1)
  {
    var p := AsWrittenPlan(ReadHeader(rows), rows, dates, rowFor);
    var m := DateRowMap(rows);
    AsWrittenPlanFacts(rows, dates, rowFor);
    UpsertCovers(dates, m, rowFor);
    SettledAfterPlan(rows, WithHeader(rows, p.writeHeader), p.updates, p.appended, dates, m, rowFor, dates[i], 1);
  }

  /** An update naming row 1 is the update of a date whose only row after the plan is row 1. */
  lemma RowOneUpdated(rows: seq<Row>, s: seq<Row>, ups: seq<Update>, app: seq<Row>, dates: seq<string>,
                      m: map<string, nat>, rowFor: string -> Row, k: int)
    requires PlanFacts(rows, s, ups, app, dates, m, rowFor)
    requires 0 <= k < |ups| && ups[k].row == 1
    ensures exists i :: 0 <= i < |dates| && LastRowOf(ApplyUpdates(s, ups) + app, dates[i], 1)
                        && (ApplyUpdates(s, ups) + app)[0] == rowFor(dates[i])
  {
    assert UpdatesSome(ups[k], dates, m, rowFor);
    var i :| 0 <= i < |dates| && UpdateFor(ups[k], dates[i], m, rowFor);
    LastRowOfUpdated(rows, s, ups, app, dates, m, rowFor, dates[i]);
  }

  /** Without an update naming row 1, row 1 after the plan is row 1 after the header step. */
  lemma RowOneUntouched(s: seq<Row>, ups: seq<Update>, app: seq<Row>)
    requires |s| >= 1 && forall k :: 0 <= k < |ups| ==> ups[k].row != 1
    ensures (ApplyUpdates(s, ups) + app)[0] == s[0]
  {
    ApplyUpdatesElsewhere(s, ups, 0);
  }

  /** After the header step of the program as written, row 1 is the header. */
  lemma HeaderStepLeavesHeader(rows: seq<Row>, dates: seq<string>, rowFor: string -> Row)
    ensures var s := WithHeader(rows, AsWrittenPlan(ReadHeader(rows), rows, dates, rowFor).writeHeader);
            |s| >= 1 && s[0] == Header
  {
    if |rows| > 0 && rows[0] != [] {
      assert ReadHeader(rows) == [rows[0]];
    }
  }

  /** After a run of the program as written, row 1 holds the header, or else the row of a date whose
      only row it is. */
  lemma RunAsWrittenRowOne(rows: seq<Row>, dates: seq<string>, rowFor: string -> Row)
    requires StrictlySorted(dates) && Labelled(rowFor)
    ensures var after := RunAsWrittenWith(rows, dates, rowFor);
            |after| >= 1
            && (after[0] == Header
                || exists i :: 0 <= i < |dates| && LastRowOf(after, dates[i], 1) && after[0] == rowFor(dates[i]))
  {
    var p := AsWrittenPlan(ReadHeader(rows), rows, dates, rowFor);
    var s := WithHeader(rows, p.writeHeader);
    AsWrittenPlanFacts(rows, dates, rowFor);
    HeaderStepLeavesHeader(rows, dates, rowFor);
    if k :| 0 <= k < |p.updates| && p.updates[k].row == 1 {
      RowOneUpdated(rows, s, p.updates, p.appended, dates, DateRowMap(rows), rowFor, k);
    } else {
      RowOneUntouched(s, p.updates, p.appended);
    }
  }

  /** A date of the list sent to row 1 has its update there. */
  lemma RowOneNamed(dates: seq<string>, m: map<string, nat>, rowFor: string -> Row, i: int)
    requires 0 <= i < |dates| && dates[i] in m && m[dates[i]] == 1
    ensures exists k :: 0 <= k < |Upsert(dates, m, rowFor).0| && Upsert(dates, m, rowFor).0[k].row == 1
  {
    UpsertCovers(dates, m, rowFor);
    var ups := Upsert(dates, m, rowFor).0;
    assert Update(1, rowFor(dates[i])) in ups;
  }

  /** The header is written only when row 1 is not already the header. */
  lemma HeaderWrittenOnlyIfMissing(rows: seq<Row>, dates: seq<string>, rowFor: string -> Row)
    requires |rows| >= 1 && AsWrittenPlan(ReadHeader(rows), rows, dates, rowFor).writeHeader
    ensures rows[0] != Header
  {
  }

  /** A second run of the program as written over a tab the first run left: each date's last row
      already holds its row, and row 1 is the header or the row of a date whose only row it is. The
      plan appends nothing, and its writes, the header write included, leave the tab as it was. */
  lemma SecondPassAsWritten(rows: seq<Row>, dates: seq<string>, rowFor: string -> Row)
    requires forall i :: 0 <= i < |dates| ==> Settled(rows, dates[i], rowFor(dates[i]), 1)
    requires |rows| >= 1
    requires rows[0] == Header || exists i :: 0 <= i < |dates| && LastRowOf(rows, dates[i], 1) && rows[0] == rowFor(dates[i])
    ensures var p := AsWrittenPlan(ReadHeader(rows), rows, dates, rowFor);
            p.appended == [] && ApplyPlan(rows, p) == rows
  {
    var p := AsWrittenPlan(ReadHeader(rows), rows, dates, rowFor);
    var m := DateRowMap(rows);
    var ups := Upsert(dates, m, rowFor).0;
    assert p.updates == ups && p.appended == Upsert(dates, m, rowFor).1;
    assert RowMapOf(rows, m, 1);
    SettledRowMap(rows, m, 1, dates, rowFor);
    UpsertAppendsNothing(dates, m, rowFor);
    UpsertRewritesInPlace(rows, dates, m, rowFor);
    if p.writeHeader {
      HeaderWrittenOnlyIfMissing(rows, dates, rowFor);
      var i :| 0 <= i < |dates| && LastRowOf(rows, dates[i], 1) && rows[0] == rowFor(dates[i]);
      LastRowOfSame(rows, dates[i], 1, m[dates[i]]);
      RowOneNamed(dates, m, rowFor, i);
      ApplyUpdatesRestoreRowOne(WithHeader(rows, true), rows, ups);
    } else {
      ApplyUpdatesUnchanged(rows, ups);
    }
  }

  /** Idempotence of the program as written, for any row builder that labels its rows with their
      date: a second run appends nothing and leaves the tab exactly as the first run left it. */
  lemma RunAsWrittenWithTwiceUnchanged(rows: seq<Row>, dates: seq<string>, rowFor: string -> Row)
    requires StrictlySorted(dates) && Labelled(rowFor)
    ensures var after := RunAsWrittenWith(rows, dates, rowFor);
            var p := AsWrittenPlan(ReadHeader(after), after, dates, rowFor);
            p.appended == [] && RunAsWrittenWith(after, dates, rowFor) == after
  {
    var after := RunAsWrittenWith(rows, dates, rowFor);
    forall i | 0 <= i < |dates|
      ensures Settled(after, dates[i], rowFor(dates[i]), 1)
    {
      RunAsWrittenLeavesLastRow(rows, dates, rowFor, i);
    }
    RunAsWrittenRowOne(rows, dates, rowFor);
    SecondPassAsWritten(after, dates, rowFor);
  }

  /** Idempotence of the program as written: over the sorted keys of a statistic, a second run appends
      nothing and leaves the tab's contents exactly as the first run left them. */
  lemma RunAsWrittenTwiceUnchanged(rows: seq<Row>, dates: seq<string>, stats: Statistic)
    requires StrictlySorted(dates)
    ensures var after := RunAsWritten(rows, dates, stats);
            PlanSheetAsWritten(ReadHeader(after), after, dates, stats).appended == []
            && RunAsWritten(after, dates, stats) == after
  {
    RunAsWrittenWithTwiceUnchanged(rows, dates, StatRows(stats));
  }

  /** When row 1 is the only row holding one of the dates, the program as written writes the header
      exactly when row 1 is not already the header, and that date's row ends in row 1 either way. */
  lemma RowOneRewritten(rows: seq<Row>, dates: seq<string>, rowFor: string -> Row, i: int)
    requires StrictlySorted(dates) && Labelled(rowFor) && 0 <= i < |dates|
    requires LastRowOf(rows, dates[i], 1)
    ensures var p := AsWrittenPlan(ReadHeader(rows), rows, dates, rowFor);
            var after := RunAsWrittenWith(rows, dates, rowFor);
            (p.writeHeader <==> rows[0] != Header)
            && Update(1, rowFor(dates[i])) in p.updates
            && |after| >= 1 && after[0] == rowFor(dates[i])
  {
    var d := dates[i];
    var p := AsWrittenPlan(ReadHeader(rows), rows, dates, rowFor);
    var m := DateRowMap(rows);
    assert FirstCellIs(rows[0], d);
    assert ReadHeader(rows) == [rows[0]];
    assert LastRowOf(rows, d, m[d]);
    LastRowOfSame(rows, d, 1, m[d]);
    AsWrittenPlanFacts(rows, dates, rowFor);
    UpsertCovers(dates, m, rowFor);
    LastRowOfUpdated(rows, WithHeader(rows, p.writeHeader), p.updates, p.appended, dates, m, rowFor, d);
  }

  /** A statistic row is never the header: its count columns hold numbers, not titles. */
  lemma StatRowNotHeader(date: string, stats: Statistic)
    ensures StatRow(date, stats) != Header
  {
    assert StatRow(date, stats)[1] != Header[1];
  }

  /** A tab whose row 1 is neither empty nor the header gets the header written. */
  lemma HeaderRewritten(rows: seq<Row>, dates: seq<string>, rowFor: string -> Row)
    requires |rows| >= 1 && rows[0] != [] && rows[0] != Header
    ensures AsWrittenPlan(ReadHeader(rows), rows, dates, rowFor).writeHeader
  {
    assert ReadHeader(rows) == [rows[0]];
  }

  /** The header lost, in general: when row 1 is the only row holding one of the dates, the program
      writes the header there exactly when row 1 is not already the header, and then writes that
      date's counts over row 1 in either case. The tab ends without a header, and the next run
      writes it again. */
  lemma HeaderOverwrittenAsWritten(rows: seq<Row>, dates: seq<string>, stats: Statistic, i: int)
    requires StrictlySorted(dates) && 0 <= i < |dates|
    requires LastRowOf(rows, dates[i], 1)
    ensures var p := PlanSheetAsWritten(ReadHeader(rows), rows, dates, stats);
            var after := RunAsWritten(rows, dates, stats);
            (p.writeHeader <==> rows[0] != Header)
            && Update(1, StatRow(dates[i], stats)) in p.updates
            && |after| >= 1 && after[0] == StatRow(dates[i], stats) && after[0] != Header
            && PlanSheetAsWritten(ReadHeader(after), after, dates, stats).writeHeader
  {
    RowOneRewritten(rows, dates, StatRows(stats), i);
    var after := RunAsWritten(rows, dates, stats);
    StatRowNotHeader(dates[i], stats);
    HeaderRewritten(after, dates, StatRows(stats));
  }

  /** The next day's run over a tab the header loss left: its dates miss the date held in row 1, so
      the header write replaces that date's row and its counts are gone from the tab. */
  lemma HeaderOverwriteLosesRow(s1: Statistic, s2: Statistic)
    ensures RunAsWritten([StatRow("2024-05-01", s1)], ["2024-05-02"], s2) == [Header, StatRow("2024-05-02", s2)]
  {
    var rows := [StatRow("2024-05-01", s1)];
    var dates := ["2024-05-02"];
    var rowFor := StatRows(s2);
    StatRowNotHeader("2024-05-01", s1);
    HeaderRewritten(rows, dates, rowFor);
    var m := DateRowMap(rows);
    assert "2024-05-02" !in m by {
      assert !FirstCellIs(rows[0], "2024-05-02");
    }
    var r := Upsert(dates, m, rowFor);
    assert dates[..|dates| - 1] == [] && dates[|dates| - 1] == "2024-05-02";
    assert Upsert([], m, rowFor) == ([], []);
    assert r.1 == [] + [rowFor("2024-05-02")];
    assert rowFor("2024-05-02") == StatRow("2024-05-02", s2);
    assert r.0 == [] && r.1 == [StatRow("2024-05-02", s2)];
    assert WithHeader(rows, true) == [Header];
  }
}
