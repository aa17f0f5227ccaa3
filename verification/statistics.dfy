/**
 The daily tally: every fetched edge adds one to the count of its (local date, kind)
 cell in a nested date -> kind -> count map.
 */
module Statistics {
  import opened Events
  import opened DateFormat
  import opened Civil
  import opened StringOrder

  type DayCounts = map<Kind, nat>

  /** Date key -> kind -> number of events. */
  type Statistic = map<string, DayCounts>

  /** The date key an edge is tallied under. */
  function Bucket(e: Edge): string {
    DateKey(e.node.occurredAt)
  }

  /** The count of a cell, reading a missing date or kind as zero as Go's map lookup does. */
  function Count(s: Statistic, date: string, kind: Kind): nat {
    if date in s && kind in s[date] then s[date][kind] else 0
  }

  /** Every date present holds at least one kind, and every kind present was counted at least once. */
  predicate WellFormed(s: Statistic) {
    forall date :: date in s ==> s[date] != map[] && forall kind :: kind in s[date] ==> s[date][kind] > 0
  }

  /** One pass of the tally loop for an event of `kind` on `date`: creates the date's inner map on first
      sight and increments the cell, leaving every other cell as it was. */
  function Record(s: Statistic, date: string, kind: Kind): (r: Statistic)
    requires WellFormed(s)
    ensures WellFormed(r)
    ensures r.Keys == s.Keys + {date}
    ensures forall d, k :: Count(r, d, k) == Count(s, d, k) + (if d == date && k == kind then 1 else 0)
  {
    var day := if date in s then s[date] else map[];
    var day' := day[kind := Count(s, date, kind) + 1];
    assert kind in day';
    s[date := day']
  }

  /** Reference count: how many of the edges `bucket` puts in the cell (date, kind). */
  function Occurrences(bucket: Edge -> string, edges: seq<Edge>, date: string, kind: Kind): nat {
    if |edges| == 0 then 0
    else
      var e := edges[|edges| - 1];
      Occurrences(bucket, edges[..|edges| - 1], date, kind) + (if bucket(e) == date && e.node.kind == kind then 1 else 0)
  }

  /** Some edge is put on `date` by `bucket`. */
  predicate FallsOn(bucket: Edge -> string, edges: seq<Edge>, date: string) {
    exists i :: 0 <= i < |edges| && bucket(edges[i]) == date
  }

  /** The tally loop over `edges`, in the order they were fetched, each edge counted under the date
      `bucket` assigns it: each cell counts exactly the edges that fall in it. */
  function TallyBy(bucket: Edge -> string, edges: seq<Edge>): (s: Statistic)
    ensures WellFormed(s)
    ensures forall date, kind :: Count(s, date, kind) == Occurrences(bucket, edges, date, kind)
  {
    if |edges| == 0 then map[]
    else
      var e := edges[|edges| - 1];
      Record(TallyBy(bucket, edges[..|edges| - 1]), bucket(e), e.node.kind)
  }

  /** The daily statistic of the program: the tally under the UTC+7 date key. */
  function Tally(edges: seq<Edge>): (s: Statistic)
    ensures WellFormed(s)
    ensures forall date, kind :: Count(s, date, kind) == Occurrences(Bucket, edges, date, kind)
  {
    TallyBy(Bucket, edges)
  }

  /** A date is a key of the tally exactly when some edge falls on it. */
  lemma {:induction false} TallyKeys(bucket: Edge -> string, edges: seq<Edge>, date: string)
    ensures date in TallyBy(bucket, edges) <==> FallsOn(bucket, edges, date)
  {
    if |edges| > 0 {
      var init := edges[..|edges| - 1];
      var last := edges[|edges| - 1];
      TallyKeys(bucket, init, date);
      if date == bucket(last) {
        assert bucket(edges[|edges| - 1]) == date;
      } else {
        if FallsOn(bucket, init, date) {
          var i :| 0 <= i < |init| && bucket(init[i]) == date;
          assert edges[i] == init[i];
        }
        if FallsOn(bucket, edges, date) {
          var i :| 0 <= i < |edges| && bucket(edges[i]) == date;
          assert i < |init|;
          assert init[i] == edges[i];
        }
      }
    }
  }

  /** An event at 2024-05-01T17:30:00Z is already 2024-05-02 in UTC+7 and is tallied under that date. */
  lemma BucketExample(kind: Kind, cursor: string)
    ensures Bucket(Edge(Node(kind, 1714584600), cursor)) == "2024-05-02"
  {
    ExampleLocalDate();
    ExampleKey();
  }

  lemma ExampleLocalDate()
    ensures LocalDate(1714584600) == Date(2024, 5, 2)
  {
    ExampleDayNumber();
    CivilFromDaysOfCivil(Date(2024, 5, 2));
  }

  lemma ExampleDayNumber()
    ensures DaysFromCivil(Date(2024, 5, 2)) == 19845 && LocalDayNumber(1714584600) == 19845
  {
  }

  lemma ExampleKey()
    ensures FormatDate(Date(2024, 5, 2)) == "2024-05-02"
  {
    FormatDateFixed(Date(2024, 5, 2));
    ExampleYear();
    ExampleMonth();
    ExampleDay();
  }

  lemma ExampleYear()
    ensures Fixed(2024, 4) == "2024"
  {
  }

  lemma ExampleMonth()
    ensures Fixed(5, 2) == "05"
  {
  }

  lemma ExampleDay()
    ensures Fixed(2, 2) == "02"
  {
  }

  /** Sorted, the tally's keys are exactly the dates some edge falls on, each once. */
  lemma TallyDates(edges: seq<Edge>, dates: seq<string>)
    requires StrictlySorted(dates) && Elems(dates) == Tally(edges).Keys
    ensures forall date :: date in dates <==> FallsOn(Bucket, edges, date)
    ensures forall i, j :: 0 <= i < |dates| && 0 <= j < |dates| && i != j ==> dates[i] != dates[j]
  {
    forall date
      ensures date in dates <==> FallsOn(Bucket, edges, date)
    {
      TallyKeys(Bucket, edges, date);
      assert date in dates <==> date in Elems(dates);
    }
    forall i, j | 0 <= i < |dates| && 0 <= j < |dates| && i != j
      ensures dates[i] != dates[j]
    {
      StrictlySortedDistinct(dates, i, j);
    }
  }

  /** In the sorted date list, the date of an earlier local day comes first: positions follow the
      local days of the events behind them (for local dates with four-digit years). */
  lemma DatesInDayOrder(dates: seq<string>, i: int, j: int, e1: Edge, e2: Edge)
    requires StrictlySorted(dates)
    requires 0 <= i < |dates| && 0 <= j < |dates|
    requires dates[i] == Bucket(e1) && dates[j] == Bucket(e2)
    requires 0 <= LocalDate(e1.node.occurredAt).year <= 9999 && 0 <= LocalDate(e2.node.occurredAt).year <= 9999
    ensures i < j <==> LocalDayNumber(e1.node.occurredAt) < LocalDayNumber(e2.node.occurredAt)
  {
    DateKeyOrder(e1.node.occurredAt, e2.node.occurredAt);
    LessIrreflexive(dates[i]);
    if j < i {
      LessAsymmetric(dates[j], dates[i]);
    }
  }

  ghost function Pick<K>(ks: set<K>): K
    requires ks != {}
  {
    var k :| k in ks; k
  }

  /** Sum of the values of a map. */
  ghost function SumCounts<K>(m: map<K, nat>): nat
    decreases |m|
  {
    if |m| == 0 then 0
    else
      var k := Pick(m.Keys);
      m[k] + SumCounts(m - {k})
  }

  /** The sum does not depend on which key is taken out first. */
  lemma {:induction false} SumCountsRemove<K>(m: map<K, nat>, k: K)
    requires k in m
    ensures SumCounts(m) == m[k] + SumCounts(m - {k})
    decreases |m|
  {
    var j := Pick(m.Keys);
    if j != k {
      SumCountsRemove(m - {j}, k);
      SumCountsRemove(m - {k}, j);
      assert m - {j} - {k} == m - {k} - {j};
    }
  }

  lemma SumCountsUpdate<K>(m: map<K, nat>, k: K, v: nat)
    ensures SumCounts(m[k := v]) == SumCounts(m) - (if k in m then m[k] else 0) + v
  {
    SumCountsRemove(m[k := v], k);
    assert m[k := v] - {k} == m - {k};
    if k in m {
      SumCountsRemove(m, k);
    } else {
      assert m - {k} == m;
    }
  }

  /** Total number of events of each date. */
  ghost function DayTotals(s: Statistic): map<string, nat> {
    map date | date in s :: SumCounts(s[date])
  }

  /** Total number of events in the statistic. */
  ghost function GrandTotal(s: Statistic): nat {
    SumCounts(DayTotals(s))
  }

  /** Recording an event adds exactly one to the grand total. */
  lemma RecordAddsOne(s: Statistic, date: string, kind: Kind)
    requires WellFormed(s)
    ensures GrandTotal(Record(s, date, kind)) == GrandTotal(s) + 1
  {
    var day: DayCounts := if date in s then s[date] else map[];
    var day': DayCounts := day[kind := Count(s, date, kind) + 1];
    SumCountsUpdate(day, kind, Count(s, date, kind) + 1);
    DayTotalsUpdate(s, date, day');
    var totals: map<string, nat> := DayTotals(s);
    assert date in totals ==> totals[date] == SumCounts(day);
    assert date !in totals ==> SumCounts(day) == 0;
    SumCountsUpdate(totals, date, SumCounts(day'));
  }

  lemma DayTotalsUpdate(s: Statistic, date: string, day: DayCounts)
    ensures DayTotals(s[date := day]) == DayTotals(s)[date := SumCounts(day)]
  {
    var l := DayTotals(s[date := day]);
    var r := DayTotals(s)[date := SumCounts(day)];
    assert l.Keys == r.Keys;
    forall d | d in l
      ensures l[d] == r[d]
    {
    }
  }

  /** Conservation: the counts of all cells add up to the number of edges tallied. */
  lemma {:induction false} TallyTotal(bucket: Edge -> string, edges: seq<Edge>)
    ensures GrandTotal(TallyBy(bucket, edges)) == |edges|
  {
    if |edges| > 0 {
      TallyTotal(bucket, edges[..|edges| - 1]);
      var e := edges[|edges| - 1];
      RecordAddsOne(TallyBy(bucket, edges[..|edges| - 1]), bucket(e), e.node.kind);
    }
  }

  /** Every date of the tally has a positive total. */
  lemma DayTotalPositive(s: Statistic, date: string)
    requires WellFormed(s) && date in s
    ensures DayTotals(s)[date] > 0
  {
    var k := Pick(s[date].Keys);
    SumCountsRemove(s[date], k);
  }
}
