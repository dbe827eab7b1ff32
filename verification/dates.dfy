/** Calendar dates as the publisher writes them (`date.isoformat()`), and
    `today_iso`: the date in India (UTC+05:30) at a given UTC instant. The
    instant is an input, counted in whole minutes since 1970-01-01 00:00 UTC;
    the source reads the clock. */
module Dates {
  import opened Options
  import opened Text

  datatype Date = Date(year: nat, month: nat, day: nat)

  /** The offset of India Standard Time from UTC, in minutes. */
  const IstOffsetMinutes: nat := 5 * 60 + 30
  const MinutesPerDay: nat := 24 * 60
  const EpochYear: nat := 1970

  predicate IsLeap(y: nat) {
    y % 4 == 0 && (y % 100 != 0 || y % 400 == 0)
  }

  function DaysInYear(y: nat): nat {
    if IsLeap(y) then 366 else 365
  }

  function DaysInMonth(y: nat, m: nat): nat
    requires 1 <= m <= 12
  {
    if m == 2 then (if IsLeap(y) then 29 else 28)
    else if m == 4 || m == 6 || m == 9 || m == 11 then 30
    else 31
  }

  /** A real Gregorian date. */
  predicate Valid(d: Date) {
    d.year >= 1 && 1 <= d.month <= 12 && 1 <= d.day <= DaysInMonth(d.year, d.month)
  }

  // ---------------------------------------------------------------------
  // Day numbers
  // ---------------------------------------------------------------------

  /** Days from 1970-01-01 to January 1st of `y`. */
  function YearStart(y: nat): nat
    requires y >= EpochYear
  {
    if y == EpochYear then 0 else YearStart(y - 1) + DaysInYear(y - 1)
  }

  /** Days of year `y` before the first of month `m` (`m == 13` is the
      year's end). */
  function MonthStart(y: nat, m: nat): nat
    requires 1 <= m <= 13
  {
    if m == 1 then 0 else MonthStart(y, m - 1) + DaysInMonth(y, m - 1)
  }

  /** The months add up to the year. */
  lemma MonthsMakeYear(y: nat)
    ensures MonthStart(y, 13) == DaysInYear(y)
  {
    assert MonthStart(y, 2) == 31;
    assert MonthStart(y, 3) == 31 + DaysInMonth(y, 2);
    assert MonthStart(y, 4) == 62 + DaysInMonth(y, 2);
    assert MonthStart(y, 5) == 92 + DaysInMonth(y, 2);
    assert MonthStart(y, 6) == 123 + DaysInMonth(y, 2);
    assert MonthStart(y, 7) == 153 + DaysInMonth(y, 2);
    assert MonthStart(y, 8) == 184 + DaysInMonth(y, 2);
    assert MonthStart(y, 9) == 215 + DaysInMonth(y, 2);
    assert MonthStart(y, 10) == 245 + DaysInMonth(y, 2);
    assert MonthStart(y, 11) == 276 + DaysInMonth(y, 2);
    assert MonthStart(y, 12) == 306 + DaysInMonth(y, 2);
    assert MonthStart(y, 13) == 337 + DaysInMonth(y, 2);
  }

  /** The number of days from 1970-01-01 to `d`. */
  function DayNumber(d: Date): nat
    requires Valid(d) && d.year >= EpochYear
  {
    YearStart(d.year) + MonthStart(d.year, d.month) + d.day - 1
  }

  /** The year holding day `n` of the years from `y` on, and the day's index
      within that year. */
  function YearOf(y: nat, n: nat): (r: (nat, nat))
    requires y >= EpochYear
    ensures r.0 >= y && r.1 < DaysInYear(r.0)
    ensures YearStart(r.0) + r.1 == YearStart(y) + n
    decreases n
  {
    if n < DaysInYear(y) then (y, n) else YearOf(y + 1, n - DaysInYear(y))
  }

  /** The month holding day `n` of year `y` counted from the first of month
      `m`, and the day of that month. */
  function MonthOf(y: nat, m: nat, n: nat): (r: (nat, nat))
    requires 1 <= m <= 12 && MonthStart(y, m) + n < MonthStart(y, 13)
    ensures m <= r.0 <= 12 && 1 <= r.1 <= DaysInMonth(y, r.0)
    ensures MonthStart(y, r.0) + r.1 - 1 == MonthStart(y, m) + n
    decreases 12 - m
  {
    if n < DaysInMonth(y, m) then (m, n + 1)
    else
      assert m < 12;
      MonthOf(y, m + 1, n - DaysInMonth(y, m))
  }

  /** The date `n` days after 1970-01-01. */
  function DateOfDay(n: nat): (d: Date)
    ensures Valid(d) && d.year >= EpochYear
    ensures DayNumber(d) == n
  {
    var (y, r) := YearOf(EpochYear, n);
    MonthsMakeYear(y);
    var (m, dd) := MonthOf(y, 1, r);
    Date(y, m, dd)
  }

  /** Every real date since 1970 is the date of its day number: the two
      numberings agree both ways. */
  lemma DateOfDayNumber(d: Date)
    requires Valid(d) && d.year >= EpochYear
    ensures DateOfDay(DayNumber(d)) == d
  {
    var k := MonthStart(d.year, d.month) + d.day - 1;
    MonthsMakeYear(d.year);
    MonthStartBound(d.year, d.month);
    YearOfAt(EpochYear, d.year, k);
    assert YearOf(EpochYear, DayNumber(d)) == (d.year, k);
    MonthOfAt(d.year, 1, d.month, d.day, k);
    assert MonthOf(d.year, 1, k) == (d.month, d.day);
  }

  /** A month's days end by the start of the next month, and so by the year's
      end. */
  lemma {:induction false} MonthStartBound(y: nat, m: nat)
    requires 1 <= m <= 12
    ensures MonthStart(y, m) + DaysInMonth(y, m) <= MonthStart(y, 13)
    decreases 12 - m
  {
    if m < 12 {
      MonthStartBound(y, m + 1);
    }
  }

  lemma {:induction false} YearOfAt(y0: nat, y: nat, k: nat)
    requires EpochYear <= y0 <= y && k < DaysInYear(y)
    ensures YearStart(y) >= YearStart(y0)
    ensures YearOf(y0, YearStart(y) - YearStart(y0) + k) == (y, k)
    decreases y - y0
  {
    if y0 < y {
      YearOfAt(y0 + 1, y, k);
    }
  }

  lemma {:induction false} MonthOfAt(y: nat, m0: nat, m: nat, dd: nat, x: nat)
    requires 1 <= m0 <= m <= 12 && 1 <= dd <= DaysInMonth(y, m)
    requires MonthStart(y, m0) + x == MonthStart(y, m) + dd - 1
    ensures MonthStart(y, m0) + x < MonthStart(y, 13)
    ensures MonthOf(y, m0, x) == (m, dd)
    decreases m - m0
  {
    MonthStartBound(y, m);
    if m0 < m {
      MonthStartGrows(y, m0 + 1, m);
      MonthOfStep(y, m0, x);
      MonthOfAt(y, m0 + 1, m, dd, x - DaysInMonth(y, m0));
    }
  }

  /** Later months start later. */
  lemma {:induction false} MonthStartGrows(y: nat, a: nat, b: nat)
    requires 1 <= a <= b <= 13
    ensures MonthStart(y, a) <= MonthStart(y, b)
    decreases b - a
  {
    if a < b {
      MonthStartGrows(y, a, b - 1);
    }
  }

  /** A day past month `m`'s end is found counting from the next month. */
  lemma MonthOfStep(y: nat, m: nat, x: nat)
    requires 1 <= m < 12 && MonthStart(y, m) + x < MonthStart(y, 13)
    requires x >= DaysInMonth(y, m)
    ensures MonthStart(y, m + 1) + (x - DaysInMonth(y, m)) < MonthStart(y, 13)
    ensures MonthOf(y, m, x) == MonthOf(y, m + 1, x - DaysInMonth(y, m))
  {
  }

  // ---------------------------------------------------------------------
  // Today in India
  // ---------------------------------------------------------------------

  /** The day number of the UTC date at `utcMinutes`. */
  function UtcDay(utcMinutes: nat): nat {
    utcMinutes / MinutesPerDay
  }

  /** `(datetime.utcnow() + timedelta(hours=5, minutes=30)).date()`. */
  function IstDate(utcMinutes: nat): Date {
    DateOfDay((utcMinutes + IstOffsetMinutes) / MinutesPerDay)
  }

  /** India's date is the UTC date until 18:30 UTC and the next day from
      then on. */
  lemma IstDateFollowsUtc(utcMinutes: nat)
    ensures DayNumber(IstDate(utcMinutes)) ==
      UtcDay(utcMinutes) + (if utcMinutes % MinutesPerDay >= 18 * 60 + 30 then 1 else 0)
  {
    var n := (utcMinutes + IstOffsetMinutes) / MinutesPerDay;
    assert DayNumber(IstDate(utcMinutes)) == n;
    IstDayShift(utcMinutes);
  }

  /** Adding India's offset moves past a day boundary exactly from 18:30 UTC. */
  lemma IstDayShift(u: nat)
    ensures (u + 330) / 1440 == u / 1440 + (if u % 1440 >= 1110 then 1 else 0)
  {
    var q, r := u / 1440, u % 1440;
    assert u == q * 1440 + r;
    if r >= 1110 {
      assert u + 330 == (q + 1) * 1440 + (r - 1110);
    } else {
      assert u + 330 == q * 1440 + (r + 330);
    }
  }

  // ---------------------------------------------------------------------
  // ISO 8601 text
  // ---------------------------------------------------------------------

  function Zeros(k: nat): (r: string)
    ensures |r| == k && forall i :: 0 <= i < k ==> r[i] == '0'
  {
    if k == 0 then "" else "0" + Zeros(k - 1)
  }

  /** `n` in decimal, zero-padded on the left to at least `w` digits. */
  function Padded(n: nat, w: nat): (r: string)
    ensures |r| >= w && |r| >= 1
    ensures forall i :: 0 <= i < |r| ==> IsDigit(r[i])
  {
    var digits := Decimal(n);
    var z := if |digits| < w then Zeros(w - |digits|) else "";
    z + digits
  }

  /** `date.isoformat()`: `YYYY-MM-DD`. */
  function IsoFormat(d: Date): (s: string)
    ensures |s| >= 10
    ensures forall i :: 0 <= i < |s| ==> IsDigit(s[i]) || s[i] == '-'
  {
    var s := Padded(d.year, 4) + "-" + Padded(d.month, 2) + "-" + Padded(d.day, 2);
    assert forall i :: 0 <= i < |s| ==> IsDigit(s[i]) || s[i] == '-' by {
      DashedDigits(Padded(d.year, 4), Padded(d.month, 2), Padded(d.day, 2));
    }
    s
  }

  lemma DashedDigits(y: string, m: string, dd: string)
    requires AllDigits(y) && AllDigits(m) && AllDigits(dd)
    ensures var s := y + "-" + m + "-" + dd;
      forall i :: 0 <= i < |s| ==> IsDigit(s[i]) || s[i] == '-'
  {
    var s := y + "-" + m + "-" + dd;
    forall i | 0 <= i < |s| ensures IsDigit(s[i]) || s[i] == '-' {
      if i < |y| {
        assert s[i] == y[i];
      } else if |y| + 1 <= i < |y| + 1 + |m| {
        assert s[i] == m[i - |y| - 1];
      } else if |y| + |m| + 2 <= i {
        assert s[i] == dd[i - |y| - |m| - 2];
      }
    }
  }

  function AllDigits(s: string): bool {
    forall i :: 0 <= i < |s| ==> IsDigit(s[i])
  }

  /** Reads `YYYY-MM-DD` (a year of four or more digits, then two-digit month
      and day) back into a date. */
  function ParseIso(s: string): Option<Date> {
    if |s| >= 10 && s[|s| - 6] == '-' && s[|s| - 3] == '-'
       && AllDigits(s[..|s| - 6]) && AllDigits(s[|s| - 5..|s| - 3]) && AllDigits(s[|s| - 2..])
    then Some(Date(DecimalValue(s[..|s| - 6]), DecimalValue(s[|s| - 5..|s| - 3]), DecimalValue(s[|s| - 2..])))
    else None
  }

  /** Leading zeros do not change a value. */
  lemma {:induction false} LeadingZeros(k: nat, s: string)
    requires AllDigits(s)
    ensures AllDigits(Zeros(k) + s) && DecimalValue(Zeros(k) + s) == DecimalValue(s)
    decreases |s|
  {
    var z := Zeros(k);
    if s == [] {
      assert z + s == z;
      ZerosValue(k);
    } else {
      var n := |s| - 1;
      assert (z + s)[..|z| + n] == z + s[..n];
      LeadingZeros(k, s[..n]);
    }
  }

  lemma {:induction false} ZerosValue(k: nat)
    ensures AllDigits(Zeros(k)) && DecimalValue(Zeros(k)) == 0
    decreases k
  {
    if k > 0 {
      var z := Zeros(k);
      assert z == "0" + Zeros(k - 1);
      assert z == Zeros(k - 1) + "0" by {
        ZerosSymmetric(k);
      }
      assert z[..k - 1] == Zeros(k - 1);
      ZerosValue(k - 1);
    }
  }

  lemma ZerosSymmetric(k: nat)
    requires k > 0
    ensures Zeros(k) == Zeros(k - 1) + "0"
  {
    var a, b := Zeros(k), Zeros(k - 1) + "0";
    assert |a| == |b|;
    forall i | 0 <= i < k ensures a[i] == b[i] {
      if i < k - 1 {
        assert b[i] == Zeros(k - 1)[i];
      }
    }
  }

  /** A padded number reads back as itself. */
  lemma PaddedValue(n: nat, w: nat)
    ensures DecimalValue(Padded(n, w)) == n
  {
    var digits := Decimal(n);
    DecimalRoundTrip(n);
    if |digits| < w {
      LeadingZeros(w - |digits|, digits);
    } else {
      assert Padded(n, w) == digits;
    }
  }

  /** Reading the text back gives the date, for any month and day of at most
      two digits, so distinct dates are written differently. */
  lemma ParseIsoFormat(d: Date)
    requires d.month < 100 && d.day < 100
    ensures ParseIso(IsoFormat(d)) == Some(d)
  {
    var y, m, dd := Padded(d.year, 4), Padded(d.month, 2), Padded(d.day, 2);
    PaddedWidth(d.month);
    PaddedWidth(d.day);
    Fields(y, m, dd);
    PaddedValue(d.year, 4);
    PaddedValue(d.month, 2);
    PaddedValue(d.day, 2);
  }

  lemma Fields(y: string, m: string, dd: string)
    requires |y| >= 4 && |m| == 2 && |dd| == 2
    ensures var s := y + "-" + m + "-" + dd;
      && |s| >= 10 && s[|s| - 6] == '-' && s[|s| - 3] == '-'
      && s[..|s| - 6] == y && s[|s| - 5..|s| - 3] == m && s[|s| - 2..] == dd
  {
  }

  /** Numbers below 100 pad to exactly two digits. */
  lemma PaddedWidth(n: nat)
    requires n < 100
    ensures |Padded(n, 2)| == 2
  {
    if n >= 10 {
      assert Decimal(n) == Decimal(n / 10) + [DigitChar(n % 10)];
    }
  }

  lemma IsoFormatInjective(a: Date, b: Date)
    requires a.month < 100 && a.day < 100 && b.month < 100 && b.day < 100
    requires IsoFormat(a) == IsoFormat(b)
    ensures a == b
  {
    ParseIsoFormat(a);
    ParseIsoFormat(b);
  }

  /** `today_iso()`: India's date at the instant, as text. */
  function TodayIso(utcMinutes: nat): (s: string)
    ensures ParseIso(s) == Some(IstDate(utcMinutes))
  {
    ParseIsoFormat(IstDate(utcMinutes));
    IsoFormat(IstDate(utcMinutes))
  }
}
