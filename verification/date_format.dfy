/**
 The `YYYY-MM-DD` key of a local date, as Go renders the layout "2006-01-02":
 the year zero-padded to four digits (with a leading '-' when negative, and
 wider when it needs more digits), month and day zero-padded to two.

 For years 0 through 9999 every key is exactly ten characters, a parser recovers
 the date from it, and the string order of keys is the order of the days.
 */
module DateFormat {
  import opened Civil
  import opened Wrappers
  import opened StringOrder

  function DigitChar(n: int): char
    requires 0 <= n <= 9
  {
    "0123456789"[n]
  }

  predicate IsDigit(c: char) {
    '0' <= c <= '9'
  }

  function DigitValue(c: char): int {
    c as int - '0' as int
  }

  /** Decimal digits of `n` without leading zeros ("0" for zero). */
  function Digits(n: nat): string
    decreases n
  {
    if n < 10 then [DigitChar(n)] else Digits(n / 10) + [DigitChar(n % 10)]
  }

  function Zeros(k: nat): string {
    seq(k, _ => '0')
  }

  /** `n` in decimal, padded on the left with '0' to at least `width` characters. */
  function PadDigits(n: nat, width: nat): string {
    var ds := Digits(n);
    if |ds| >= width then ds else Zeros(width - |ds|) + ds
  }

  function FormatYear(y: int): string {
    if y < 0 then "-" + PadDigits(-y, 4) else PadDigits(y, 4)
  }

  /** The "2006-01-02" rendering of a date. */
  function FormatDate(d: Date): string
    requires ValidDate(d)
  {
    FormatYear(d.year) + "-" + PadDigits(d.month, 2) + "-" + PadDigits(d.day, 2)
  }

  /** The statistic key of an event that occurred at Unix time `t`: its UTC+7 calendar date. */
  function DateKey(t: int): string {
    FormatDate(LocalDate(t))
  }

  function Pow10(w: nat): nat {
    if w == 0 then 1 else 10 * Pow10(w - 1)
  }

  /** The low `w` decimal digits of `n`, exactly `w` characters. */
  function Fixed(n: nat, w: nat): (s: string)
    ensures |s| == w
    ensures forall i :: 0 <= i < w ==> IsDigit(s[i])
  {
    if w == 0 then [] else Fixed(n / 10, w - 1) + [DigitChar(n % 10)]
  }

  /** The number a string of decimal digits denotes. */
  function Value(s: string): int
  {
    if |s| == 0 then 0 else 10 * Value(s[..|s| - 1]) + DigitValue(s[|s| - 1])
  }

  predicate AllDigits(s: string) {
    forall i :: 0 <= i < |s| ==> IsDigit(s[i])
  }

  lemma {:induction false} ValueFixed(n: nat, w: nat)
    requires n < Pow10(w)
    ensures Value(Fixed(n, w)) == n
  {
    if w > 0 {
      ValueFixed(n / 10, w - 1);
      var s := Fixed(n, w);
      assert s[..w - 1] == Fixed(n / 10, w - 1);
    }
  }

  lemma {:induction false} FixedValue(s: string)
    requires AllDigits(s)
    ensures 0 <= Value(s) < Pow10(|s|)
    ensures Fixed(Value(s), |s|) == s
  {
    if |s| > 0 {
      var p := s[..|s| - 1];
      FixedValue(p);
      var v := Value(s);
      assert v / 10 == Value(p) && v % 10 == DigitValue(s[|s| - 1]);
      assert s == p + [s[|s| - 1]];
    }
  }

  lemma {:induction false} DigitsFixed(n: nat)
    ensures Digits(n) == Fixed(n, |Digits(n)|)
    ensures n < Pow10(|Digits(n)|)
    ensures |Digits(n)| > 1 ==> Pow10(|Digits(n)| - 1) <= n
    decreases n
  {
    if n >= 10 {
      DigitsFixed(n / 10);
    }
  }

  lemma {:induction false} FixedLeadingZero(n: nat, w: nat)
    requires n < Pow10(w)
    ensures Fixed(n, w + 1) == ['0'] + Fixed(n, w)
  {
    if w > 0 {
      FixedLeadingZero(n / 10, w - 1);
    }
  }

  lemma {:induction false} FixedPadded(n: nat, k: nat, w: nat)
    requires n < Pow10(k) && k <= w
    ensures Fixed(n, w) == Zeros(w - k) + Fixed(n, k)
    decreases w - k
  {
    if k < w {
      FixedPadded(n, k, w - 1);
      Pow10Monotone(k, w - 1);
      FixedLeadingZero(n, w - 1);
      assert Zeros(w - k) == ['0'] + Zeros(w - 1 - k);
    }
  }

  lemma {:induction false} Pow10Monotone(j: nat, k: nat)
    requires j <= k
    ensures Pow10(j) <= Pow10(k)
    decreases k - j
  {
    if j < k {
      Pow10Monotone(j, k - 1);
    }
  }

  /** Padding a number that fits in `w` digits gives exactly its `w` low digits. */
  lemma PadDigitsFixed(n: nat, w: nat)
    requires 1 <= w && n < Pow10(w)
    ensures PadDigits(n, w) == Fixed(n, w)
  {
    var k := |Digits(n)|;
    DigitsFixed(n);
    if k > w {
      Pow10Monotone(w, k - 1);
      assert false;
    } else {
      FixedPadded(n, k, w);
    }
  }

  lemma DigitCharValue(n: int)
    requires 0 <= n <= 9
    ensures IsDigit(DigitChar(n)) && DigitValue(DigitChar(n)) == n
  {
  }

  /** Distinct numbers below `10^w` have distinct `w`-digit renderings. */
  lemma FixedInjective(n: nat, m: nat, w: nat)
    requires n < Pow10(w) && m < Pow10(w)
    ensures Fixed(n, w) == Fixed(m, w) <==> n == m
  {
    ValueFixed(n, w);
    ValueFixed(m, w);
  }

  /** Zero-padded renderings of the same width sort as the numbers do. */
  lemma {:induction false} FixedOrder(n: nat, m: nat, w: nat)
    requires n < Pow10(w) && m < Pow10(w)
    ensures Less(Fixed(n, w), Fixed(m, w)) <==> n < m
  {
    if w > 0 {
      FixedOrder(n / 10, m / 10, w - 1);
      FixedInjective(n / 10, m / 10, w - 1);
      LessConcat(Fixed(n / 10, w - 1), [DigitChar(n % 10)], Fixed(m / 10, w - 1), [DigitChar(m % 10)]);
      DigitCharValue(n % 10);
      DigitCharValue(m % 10);
      assert n == 10 * (n / 10) + n % 10 && m == 10 * (m / 10) + m % 10;
    }
  }

  /** Keys made of fixed-width fields sort by year, then month, then day. */
  lemma FixedFieldsOrder(ya: nat, ma: nat, da: nat, yb: nat, mb: nat, db: nat)
    requires ya < 10000 && ma < 100 && da < 100
    requires yb < 10000 && mb < 100 && db < 100
    ensures Less(Fixed(ya, 4) + "-" + Fixed(ma, 2) + "-" + Fixed(da, 2), Fixed(yb, 4) + "-" + Fixed(mb, 2) + "-" + Fixed(db, 2))
            <==> ya < yb || (ya == yb && (ma < mb || (ma == mb && da < db)))
  {
    FieldsOrder(Fixed(ya, 4), Fixed(ma, 2), Fixed(da, 2), Fixed(yb, 4), Fixed(mb, 2), Fixed(db, 2), "-");
    FixedOrder(ya, yb, 4);
    FixedOrder(ma, mb, 2);
    FixedOrder(da, db, 2);
    FixedInjective(ya, yb, 4);
    FixedInjective(ma, mb, 2);
  }

  /** For years 0 through 9999 the string order of keys is the calendar order of the dates. */
  lemma FormatDateOrder(a: Date, b: Date)
    requires ValidDate(a) && 0 <= a.year <= 9999
    requires ValidDate(b) && 0 <= b.year <= 9999
    ensures Less(FormatDate(a), FormatDate(b)) <==> Before(a, b)
  {
    FormatDateFixed(a);
    FormatDateFixed(b);
    FixedFieldsOrder(a.year, a.month, a.day, b.year, b.month, b.day);
  }

  /** The keys of two instants whose local dates have four-digit years sort as their local days do. */
  lemma DateKeyOrder(t1: int, t2: int)
    requires 0 <= LocalDate(t1).year <= 9999 && 0 <= LocalDate(t2).year <= 9999
    ensures Less(DateKey(t1), DateKey(t2)) <==> LocalDayNumber(t1) < LocalDayNumber(t2)
  {
    FormatDateOrder(LocalDate(t1), LocalDate(t2));
    DaysFromCivilOrdered(LocalDate(t1), LocalDate(t2));
  }

  /** Reads a ten-character "YYYY-MM-DD" key back into the date it names. */
  function ParseDate(s: string): (r: Option<Date>)
    ensures r.Some? ==> ValidDate(r.value)
  {
    if |s| == 10 && s[4] == '-' && s[7] == '-'
       && AllDigits(s[..4]) && AllDigits(s[5..7]) && AllDigits(s[8..])
    then
      var d := Date(Value(s[..4]), Value(s[5..7]), Value(s[8..]));
      if ValidDate(d) then Some(d) else None
    else None
  }

  /** A date with a four-digit year renders as the exactly ten-character key of its three fields. */
  lemma FormatDateFixed(d: Date)
    requires ValidDate(d) && 0 <= d.year <= 9999
    ensures FormatDate(d) == Fixed(d.year, 4) + "-" + Fixed(d.month, 2) + "-" + Fixed(d.day, 2)
  {
    PadDigitsFixed(d.year, 4);
    PadDigitsFixed(d.month, 2);
    PadDigitsFixed(d.day, 2);
  }

  /** Parsing undoes formatting, for every date with a four-digit year. */
  lemma ParseFormatDate(d: Date)
    requires ValidDate(d) && 0 <= d.year <= 9999
    ensures ParseDate(FormatDate(d)) == Some(d)
  {
    FormatDateFixed(d);
    JoinFields(Fixed(d.year, 4), Fixed(d.month, 2), Fixed(d.day, 2));
    ValueFixed(d.year, 4);
    ValueFixed(d.month, 2);
    ValueFixed(d.day, 2);
  }

  /** Formatting undoes parsing: a string the parser accepts is the key of the date it yields. */
  lemma FormatParseDate(s: string)
    requires ParseDate(s).Some?
    ensures 0 <= ParseDate(s).value.year <= 9999
    ensures FormatDate(ParseDate(s).value) == s
  {
    var d := ParseDate(s).value;
    FixedValue(s[..4]);
    FixedValue(s[5..7]);
    FixedValue(s[8..]);
    FormatDateFixed(d);
    SplitFields(s);
  }

  /** The fields of a joined key sit at fixed positions. */
  lemma JoinFields(y: string, m: string, d: string)
    requires |y| == 4 && |m| == 2 && |d| == 2
    ensures var s := y + "-" + m + "-" + d;
            |s| == 10 && s[4] == '-' && s[7] == '-' && s[..4] == y && s[5..7] == m && s[8..] == d
  {
  }

  /** A ten-character string with '-' at positions 4 and 7 is its three fields joined by '-'. */
  lemma SplitFields(s: string)
    requires |s| == 10 && s[4] == '-' && s[7] == '-'
    ensures s == s[..4] + "-" + s[5..7] + "-" + s[8..]
  {
  }
}
