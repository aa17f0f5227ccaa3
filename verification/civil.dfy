/**
 Proleptic Gregorian calendar arithmetic: the conversion between calendar dates and
 day numbers counted from 1970-01-01, and the fixed UTC+7 local day of a Unix
 timestamp that the statistics are keyed by.

 Day numbers are computed with the usual 400-year era decomposition on years that
 start on 1 March, so that the leap day is the last day of its year.
 */
module Civil {

  datatype Date = Date(year: int, month: int, day: int)

  predicate IsLeapYear(y: int) {
    y % 4 == 0 && (y % 100 != 0 || y % 400 == 0)
  }

  function DaysInMonth(y: int, m: int): (n: int)
    requires 1 <= m <= 12
    ensures 28 <= n <= 31
  {
    if m == 2 then (if IsLeapYear(y) then 29 else 28)
    else if m == 4 || m == 6 || m == 9 || m == 11 then 30
    else 31
  }

  predicate ValidDate(d: Date) {
    1 <= d.month <= 12 && 1 <= d.day <= DaysInMonth(d.year, d.month)
  }

  /** The calendar day after `d`: the independent description of what consecutive day numbers mean. */
  function NextDay(d: Date): (e: Date)
    requires ValidDate(d)
    ensures ValidDate(e)
  {
    if d.day < DaysInMonth(d.year, d.month) then Date(d.year, d.month, d.day + 1)
    else if d.month < 12 then Date(d.year, d.month + 1, 1)
    else Date(d.year + 1, 1, 1)
  }

  const Epoch := Date(1970, 1, 1)

  /** Days from 0000-03-01 to 1970-01-01. */
  const EpochShift := 719468

  /** Days in a 400-year era. */
  const DaysPerEra := 146097

  /** Position of a month in a year that starts on 1 March (March = 0, February = 11). */
  function MarchMonth(m: int): (mp: int)
    requires 1 <= m <= 12
    ensures 0 <= mp < 12
  {
    if m > 2 then m - 3 else m + 9
  }

  /** Days from 1 March to the first day of the month at March-based position `mp`. */
  function DaysBeforeMarchMonth(mp: int): int
    requires 0 <= mp < 12
  {
    [0, 31, 61, 92, 122, 153, 184, 214, 245, 275, 306, 337][mp]
  }

  /** The March-based year a date belongs to: January and February count with the year before. */
  function MarchYear(d: Date): int {
    if d.month <= 2 then d.year - 1 else d.year
  }

  /** Whether the March-based year `yoe` of an era ends with 29 February. */
  predicate LeapOfEra(yoe: int) {
    (yoe + 1) % 4 == 0 && ((yoe + 1) % 100 != 0 || yoe == 399)
  }

  function YearLengthOfEra(yoe: int): int {
    if LeapOfEra(yoe) then 366 else 365
  }

  /** Days from the start of an era to 1 March of its March-based year `yoe`. */
  function DaysBeforeYearOfEra(yoe: int): int
    requires 0 <= yoe <= 399
  {
    365 * yoe + yoe / 4 - yoe / 100
  }

  /** Day number of a valid date, counted from 1970-01-01 (negative before it). */
  function DaysFromCivil(d: Date): int
    requires ValidDate(d)
  {
    var y := MarchYear(d);
    var era := y / 400;
    var yoe := y % 400;
    var doy := DaysBeforeMarchMonth(MarchMonth(d.month)) + d.day - 1;
    era * DaysPerEra + DaysBeforeYearOfEra(yoe) + doy - EpochShift
  }

  lemma EraYearStep(yoe: int)
    requires 0 <= yoe < 399
    ensures DaysBeforeYearOfEra(yoe + 1) == DaysBeforeYearOfEra(yoe) + YearLengthOfEra(yoe)
  {
    var q4, r4 := yoe / 4, yoe % 4;
    var q100, r100 := yoe / 100, yoe % 100;
    if r4 == 3 {
      DivModUnique(yoe + 1, 4, q4 + 1, 0);
    } else {
      DivModUnique(yoe + 1, 4, q4, r4 + 1);
    }
    if r100 == 99 {
      DivModUnique(yoe + 1, 100, q100 + 1, 0);
    } else {
      DivModUnique(yoe + 1, 100, q100, r100 + 1);
    }
  }

  /** March-based years of an era are laid end to end: a later year starts after an earlier one ends. */
  lemma {:induction false} EraYearsOrdered(j: int, k: int)
    requires 0 <= j < k <= 399
    ensures DaysBeforeYearOfEra(j) + YearLengthOfEra(j) <= DaysBeforeYearOfEra(k)
  {
    EraYearStep(k - 1);
    if j < k - 1 {
      EraYearsOrdered(j, k - 1);
    }
  }

  /** The leap rule of the calendar and of the era's March-based years agree. */
  lemma LeapYearOfEra(era: int, yoe: int)
    requires 0 <= yoe <= 399
    ensures IsLeapYear(era * 400 + yoe + 1) <==> LeapOfEra(yoe)
  {
    var r := yoe + 1;
    var y := era * 400 + r;
    DivModUnique(y, 4, 100 * era + r / 4, r % 4);
    DivModUnique(y, 100, 4 * era + r / 100, r % 100);
    DivModUnique(y, 400, era + r / 400, r % 400);
  }

  /** Euclidean division is unique: a quotient and remainder that rebuild `n` are `n / d` and `n % d`. */
  lemma DivModUnique(n: int, d: int, q: int, r: int)
    requires d > 0 && 0 <= r < d && n == d * q + r
    ensures n / d == q && n % d == r
  {
    var q', r' := n / d, n % d;
    assert n == d * q' + r' && 0 <= r' < d;
    if q' < q {
      assert d * q - d * q' == d * (q - q');
      MulAtLeast(d, q - q');
    } else if q < q' {
      assert d * q' - d * q == d * (q' - q);
      MulAtLeast(d, q' - q);
    }
  }

  lemma MulAtLeast(d: int, k: int)
    requires d > 0 && k >= 1
    ensures d * k >= d
  {
  }

  /** The March-based year of an era that holds day `doe` of the era, and nothing else does. */
  function YearOfEra(doe: int): (yoe: int)
    requires 0 <= doe < DaysPerEra
    ensures 0 <= yoe <= 399
    ensures DaysBeforeYearOfEra(yoe) <= doe < DaysBeforeYearOfEra(yoe) + YearLengthOfEra(yoe)
  {
    var c := if doe / 36524 == 4 then 3 else doe / 36524;
    var doc := doe - 36524 * c;
    var q := doc / 1461;
    var doq := doc - 1461 * q;
    var yq := if doq / 365 == 4 then 3 else doq / 365;
    assert 0 <= c <= 3 && 0 <= q <= 24 && 0 <= yq <= 3;
    DivModUnique(100 * c + 4 * q + yq, 4, 25 * c + q, yq);
    DivModUnique(100 * c + 4 * q + yq, 100, c, 4 * q + yq);
    100 * c + 4 * q + yq
  }

  lemma YearOfEraUnique(doe: int, k: int)
    requires 0 <= doe < DaysPerEra
    requires 0 <= k <= 399
    requires DaysBeforeYearOfEra(k) <= doe < DaysBeforeYearOfEra(k) + YearLengthOfEra(k)
    ensures YearOfEra(doe) == k
  {
    var yoe := YearOfEra(doe);
    if yoe < k {
      EraYearsOrdered(yoe, k);
    } else if k < yoe {
      EraYearsOrdered(k, yoe);
    }
  }

  /** The month (March-based position) that holds day `doy` of a March-based year. */
  function MarchMonthOfDay(doy: int): (mp: int)
    requires 0 <= doy <= 365
    ensures 0 <= mp < 12
    ensures DaysBeforeMarchMonth(mp) <= doy
    ensures mp < 11 ==> doy < DaysBeforeMarchMonth(mp + 1)
  {
    if doy < 31 then 0
    else if doy < 61 then 1
    else if doy < 92 then 2
    else if doy < 122 then 3
    else if doy < 153 then 4
    else if doy < 184 then 5
    else if doy < 214 then 6
    else if doy < 245 then 7
    else if doy < 275 then 8
    else if doy < 306 then 9
    else if doy < 337 then 10
    else 11
  }

  /** The date with day number `z`: it is a valid date and `DaysFromCivil` numbers it `z`. */
  function CivilFromDays(z: int): (d: Date)
    ensures ValidDate(d)
    ensures DaysFromCivil(d) == z
  {
    var n := z + EpochShift;
    var era := n / DaysPerEra;
    var doe := n % DaysPerEra;
    var yoe := YearOfEra(doe);
    var doy := doe - DaysBeforeYearOfEra(yoe);
    var mp := MarchMonthOfDay(doy);
    var m := if mp < 10 then mp + 3 else mp - 9;
    var y := era * 400 + yoe + (if m <= 2 then 1 else 0);
    LeapYearOfEra(era, yoe);
    assert MarchMonth(m) == mp;
    var d := Date(y, m, doy - DaysBeforeMarchMonth(mp) + 1);
    assert MarchYear(d) == era * 400 + yoe;
    assert MarchYear(d) / 400 == era && MarchYear(d) % 400 == yoe;
    d
  }

  /** Day numbers name dates uniquely: converting a valid date to its day number and back gives it again. */
  lemma CivilFromDaysOfCivil(d: Date)
    requires ValidDate(d)
    ensures CivilFromDays(DaysFromCivil(d)) == d
  {
    var y := MarchYear(d);
    var mp := MarchMonth(d.month);
    var doy := DaysBeforeMarchMonth(mp) + d.day - 1;
    DayOfMarchYearBound(d);
    CivilFromDaysFields(DaysFromCivil(d), y / 400, y % 400, doy, mp);
  }

  /** The fields `CivilFromDays` finds for a day number laid out as era, year of era, day of year and
      March-based month. */
  lemma CivilFromDaysFields(z: int, era: int, yoe: int, doy: int, mp: int)
    requires 0 <= yoe <= 399 && 0 <= doy < YearLengthOfEra(yoe) && 0 <= mp < 12
    requires DaysBeforeMarchMonth(mp) <= doy && (mp < 11 ==> doy < DaysBeforeMarchMonth(mp + 1))
    requires z + EpochShift == era * DaysPerEra + DaysBeforeYearOfEra(yoe) + doy
    ensures CivilFromDays(z) == Date(era * 400 + yoe + (if mp >= 10 then 1 else 0),
                                     if mp < 10 then mp + 3 else mp - 9,
                                     doy - DaysBeforeMarchMonth(mp) + 1)
  {
    var doe := DaysBeforeYearOfEra(yoe) + doy;
    DayOfEraBound(yoe, doy);
    DivModUnique(z + EpochShift, DaysPerEra, era, doe);
    YearOfEraUnique(doe, yoe);
    MarchMonthOfDayUnique(doy, mp);
    assert (z + EpochShift) / DaysPerEra == era && (z + EpochShift) % DaysPerEra == doe;
    assert YearOfEra(doe) == yoe && MarchMonthOfDay(doy) == mp;
  }

  lemma DayOfMarchYearBound(d: Date)
    requires ValidDate(d)
    ensures 0 <= DaysBeforeMarchMonth(MarchMonth(d.month)) + d.day - 1 < YearLengthOfEra(MarchYear(d) % 400)
  {
    var y := MarchYear(d);
    LeapYearOfEra(y / 400, y % 400);
    if d.month <= 2 {
      assert d.year == (y / 400) * 400 + y % 400 + 1;
    } else {
      assert d.year == (y / 400) * 400 + y % 400;
    }
  }

  lemma DayOfEraBound(yoe: int, doy: int)
    requires 0 <= yoe <= 399
    requires 0 <= doy < YearLengthOfEra(yoe)
    ensures 0 <= DaysBeforeYearOfEra(yoe) + doy < DaysPerEra
  {
    if yoe < 399 {
      EraYearsOrdered(yoe, 399);
    }
  }

  lemma MarchMonthOfDayUnique(doy: int, mp: int)
    requires 0 <= mp < 12
    requires DaysBeforeMarchMonth(mp) <= doy <= 365
    requires mp < 11 ==> doy < DaysBeforeMarchMonth(mp + 1)
    ensures MarchMonthOfDay(doy) == mp
  {
  }

  /** Consecutive days get consecutive numbers. */
  lemma DaysFromCivilNextDay(d: Date)
    requires ValidDate(d)
    ensures DaysFromCivil(NextDay(d)) == DaysFromCivil(d) + 1
  {
    if d.day == DaysInMonth(d.year, d.month) {
      if d.month == 2 {
        NextDayAfterFebruary(d);
      } else {
        NextDayAfterMonthEnd(d);
      }
    }
  }

  /** Every month but February is followed, in the March-based year, by the next month. */
  lemma NextDayAfterMonthEnd(d: Date)
    requires ValidDate(d) && d.month != 2 && d.day == DaysInMonth(d.year, d.month)
    ensures DaysFromCivil(NextDay(d)) == DaysFromCivil(d) + 1
  {
    var e := NextDay(d);
    assert MarchYear(e) == MarchYear(d);
    assert MarchMonth(e.month) == MarchMonth(d.month) + 1;
    assert DaysBeforeMarchMonth(MarchMonth(d.month) + 1) == DaysBeforeMarchMonth(MarchMonth(d.month)) + d.day;
  }

  /** The last day of February ends a March-based year; the next one starts on 1 March. */
  lemma NextDayAfterFebruary(d: Date)
    requires ValidDate(d) && d.month == 2 && d.day == DaysInMonth(d.year, d.month)
    ensures DaysFromCivil(NextDay(d)) == DaysFromCivil(d) + 1
  {
    var y := d.year - 1;
    var era := y / 400;
    var yoe := y % 400;
    LeapYearOfEra(era, yoe);
    var e := NextDay(d);
    assert MarchYear(e) == y + 1;
    if yoe < 399 {
      EraYearStep(yoe);
      assert (y + 1) / 400 == era && (y + 1) % 400 == yoe + 1;
    } else {
      assert (y + 1) / 400 == era + 1 && (y + 1) % 400 == 0;
    }
  }

  /** Calendar order: by year, then month, then day. */
  predicate Before(a: Date, b: Date) {
    a.year < b.year || (a.year == b.year && (a.month < b.month || (a.month == b.month && a.day < b.day)))
  }

  /** Months counted from January of year 0. */
  function MonthIndex(d: Date): int {
    d.year * 12 + d.month - 1
  }

  /** The first day of the month with index `k`. */
  function FirstOfMonth(k: int): (d: Date)
    ensures ValidDate(d) && d.day == 1 && MonthIndex(d) == k
  {
    Date(k / 12, k % 12 + 1, 1)
  }

  lemma MonthIndexOfDate(d: Date)
    requires ValidDate(d)
    ensures FirstOfMonth(MonthIndex(d)) == Date(d.year, d.month, 1)
  {
    var k := MonthIndex(d);
    assert k == 12 * d.year + (d.month - 1);
    assert k / 12 == d.year && k % 12 == d.month - 1;
  }

  /** Within a month, the day number grows one per day. */
  lemma {:induction false} DaysWithinMonth(d: Date)
    requires ValidDate(d)
    ensures DaysFromCivil(d) == DaysFromCivil(Date(d.year, d.month, 1)) + d.day - 1
    decreases d.day
  {
    if d.day > 1 {
      var p := Date(d.year, d.month, d.day - 1);
      DaysWithinMonth(p);
      DaysFromCivilNextDay(p);
    }
  }

  /** The first day of the month after month `m` of year `y`. */
  function NextMonthStart(y: int, m: int): (d: Date)
    requires 1 <= m <= 12
    ensures ValidDate(d) && d.day == 1 && MonthIndex(d) == MonthIndex(Date(y, m, 1)) + 1
  {
    if m < 12 then Date(y, m + 1, 1) else Date(y + 1, 1, 1)
  }

  /** A month spans as many day numbers as it has days. */
  lemma MonthLength(y: int, m: int)
    requires 1 <= m <= 12
    ensures DaysFromCivil(NextMonthStart(y, m)) == DaysFromCivil(Date(y, m, 1)) + DaysInMonth(y, m)
  {
    var last := Date(y, m, DaysInMonth(y, m));
    DaysWithinMonth(last);
    DaysFromCivilNextDay(last);
    assert NextDay(last) == NextMonthStart(y, m);
  }

  lemma FirstOfMonthNext(k: int)
    ensures FirstOfMonth(k + 1) == NextMonthStart(FirstOfMonth(k).year, FirstOfMonth(k).month)
  {
    var f := FirstOfMonth(k);
    var g := NextMonthStart(f.year, f.month);
    MonthIndexOfDate(g);
  }

  /** Values laid end to end by non-negative lengths: a later one starts after an earlier one ends. */
  lemma {:induction false} StepsOrdered(start: int -> int, len: int -> int, j: int, k: int)
    requires j < k
    requires forall i :: j <= i < k ==> 0 <= len(i) && start(i + 1) == start(i) + len(i)
    ensures start(j) + len(j) <= start(k)
    decreases k - j
  {
    assert start(k - 1 + 1) == start(k - 1) + len(k - 1);
    if j < k - 1 {
      StepsOrdered(start, len, j, k - 1);
    }
  }

  /** Day numbers follow the calendar order, in both directions. */
  lemma DaysFromCivilOrdered(a: Date, b: Date)
    requires ValidDate(a) && ValidDate(b)
    ensures Before(a, b) <==> DaysFromCivil(a) < DaysFromCivil(b)
  {
    MonthIndexOfDate(a);
    MonthIndexOfDate(b);
    DaysWithinMonth(a);
    DaysWithinMonth(b);
    var start := k => DaysFromCivil(FirstOfMonth(k));
    var len := k => DaysInMonth(FirstOfMonth(k).year, FirstOfMonth(k).month);
    forall k
      ensures 0 <= len(k) && start(k + 1) == start(k) + len(k)
    {
      FirstOfMonthNext(k);
      MonthLength(FirstOfMonth(k).year, FirstOfMonth(k).month);
    }
    var i, j := MonthIndex(a), MonthIndex(b);
    if i < j {
      StepsOrdered(start, len, i, j);
    } else if j < i {
      StepsOrdered(start, len, j, i);
    }
  }

  lemma DaysFromCivilEpoch()
    ensures DaysFromCivil(Epoch) == 0
  {
  }

  /** Offset of the fixed UTC+7 zone the statistics use, in seconds. */
  const LocalOffset := 7 * 60 * 60

  const SecondsPerDay := 86400

  /** Day number of the local (UTC+7) calendar day holding Unix time `t`; `/` rounds down. */
  function LocalDayNumber(t: int): int {
    (t + LocalOffset) / SecondsPerDay
  }

  /** Local (UTC+7) calendar date of Unix time `t`. */
  function LocalDate(t: int): Date {
    CivilFromDays(LocalDayNumber(t))
  }

  /** Unix time of local midnight (UTC+7) opening date `d`: the lower bound the event query filters with. */
  function StartOfLocalDay(d: Date): int
    requires ValidDate(d)
  {
    DaysFromCivil(d) * SecondsPerDay - LocalOffset
  }

  /** An instant falls on local date `d` exactly when it lies in the window from `d`'s local midnight
      up to (not including) the next day's. */
  lemma LocalDateWindow(t: int, d: Date)
    requires ValidDate(d)
    ensures LocalDate(t) == d <==> StartOfLocalDay(d) <= t < StartOfLocalDay(NextDay(d))
  {
    DaysFromCivilNextDay(d);
    CivilFromDaysOfCivil(d);
    var z := LocalDayNumber(t);
    assert z * SecondsPerDay <= t + LocalOffset < z * SecondsPerDay + SecondsPerDay;
    if LocalDate(t) == d {
      assert z == DaysFromCivil(d);
    }
    if StartOfLocalDay(d) <= t < StartOfLocalDay(NextDay(d)) {
      DayNumberFromBounds(t + LocalOffset, z, DaysFromCivil(d));
    }
  }

  lemma DayNumberFromBounds(s: int, z: int, w: int)
    requires z * SecondsPerDay <= s < z * SecondsPerDay + SecondsPerDay
    requires w * SecondsPerDay <= s < w * SecondsPerDay + SecondsPerDay
    ensures z == w
  {
    assert (z - w) * SecondsPerDay < SecondsPerDay;
    assert (w - z) * SecondsPerDay < SecondsPerDay;
  }
}
