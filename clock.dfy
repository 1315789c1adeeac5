/** Calendar arithmetic as Python's `datetime.date` does it (proleptic Gregorian
    calendar, day ordinals counted from 0001-01-01 = 1), and the fixed UTC+9
    "regional day" the backend buckets and compares timestamps by.
    Timestamps are whole seconds since 1970-01-01T00:00:00Z. */
module Clock {

  const SecondsPerDay := 86400
  /** The regional offset: nine hours, added to a UTC instant with no daylight saving. */
  const RegionalOffset := 9 * 3600
  /** Ordinal of 1970-01-01, the day timestamp 0 falls on. */
  const EpochOrdinal := 719163
  /** Python's `date` covers the years 1 to 9999. */
  const MinYear := 1
  const MaxYear := 9999

  datatype Date = Date(year: int, month: int, day: int)

  predicate IsLeapYear(y: int) {
    y % 4 == 0 && (y % 100 != 0 || y % 400 == 0)
  }

  /** Python `calendar.monthrange(y, m)[1]`. */
  function DaysInMonth(y: int, m: int): (n: int)
    requires 1 <= m <= 12
    ensures 28 <= n <= 31
    ensures m == 2 ==> (n == 29 <==> IsLeapYear(y))
    ensures m != 2 ==> (n == 30 <==> m in {4, 6, 9, 11})
    ensures m in {1, 3, 5, 7, 8, 10, 12} ==> n == 31
  {
    if m == 2 then (if IsLeapYear(y) then 29 else 28)
    else if m == 4 || m == 6 || m == 9 || m == 11 then 30
    else 31
  }

  function DaysInYear(y: int): int {
    if IsLeapYear(y) then 366 else 365
  }

  /** Days in the years before `y`, counted from year 1. */
  function DaysBeforeYear(y: int): int {
    var p := y - 1;
    p * 365 + p / 4 - p / 100 + p / 400
  }

  /** Days in the months of year `y` before month `m`; `m == 13` gives the whole year. */
  function DaysBeforeMonth(y: int, m: int): int
    requires 1 <= m <= 13
  {
    var leap := if m > 2 && IsLeapYear(y) then 1 else 0;
    (if m == 1 then 0 else if m == 2 then 31 else if m == 3 then 59
     else if m == 4 then 90 else if m == 5 then 120 else if m == 6 then 151
     else if m == 7 then 181 else if m == 8 then 212 else if m == 9 then 243
     else if m == 10 then 273 else if m == 11 then 304 else if m == 12 then 334
     else 365) + leap
  }

  /** Each month starts where the previous one ended; December ends with the year. */
  lemma DaysBeforeNextMonth(y: int, m: int)
    requires 1 <= m <= 12
    ensures DaysBeforeMonth(y, m + 1) == DaysBeforeMonth(y, m) + DaysInMonth(y, m)
    ensures DaysBeforeMonth(y, 13) == DaysInYear(y)
  {
  }

  predicate ValidYearMonth(y: int, m: int) {
    MinYear <= y <= MaxYear && 1 <= m <= 12
  }

  predicate ValidDate(d: Date) {
    ValidYearMonth(d.year, d.month) && 1 <= d.day <= DaysInMonth(d.year, d.month)
  }

  /** Python `date.toordinal()`. */
  function Ordinal(d: Date): int
    requires 1 <= d.month <= 12
  {
    DaysBeforeYear(d.year) + DaysBeforeMonth(d.year, d.month) + d.day
  }

  /** The ordinal of the last day Python's `date` can represent, 9999-12-31. */
  const MaxOrdinal := 3652059

  lemma MaxOrdinalIsLastDate()
    ensures Ordinal(Date(MaxYear, 12, 31)) == MaxOrdinal
    ensures ValidDate(Date(MaxYear, 12, 31))
  {
  }

  lemma EpochOrdinalIsNewYear1970()
    ensures Ordinal(Date(1970, 1, 1)) == EpochOrdinal
  {
  }

  /** The year-length step hidden in the closed form of `DaysBeforeYear`. */
  lemma {:induction false} DaysBeforeNextYear(y: int)
    ensures DaysBeforeYear(y + 1) == DaysBeforeYear(y) + DaysInYear(y)
  {
    StepOver4(y);
    StepOver100(y);
    StepOver400(y);
  }

  /** Counting multiples of 4, 100 and 400 up to `y` rather than `y - 1` adds one exactly
      when `y` is such a multiple. */
  lemma StepOver4(y: int)
    ensures y / 4 - (y - 1) / 4 == (if y % 4 == 0 then 1 else 0)
  {
    DivisionStep(y, 4);
  }

  lemma StepOver100(y: int)
    ensures y / 100 - (y - 1) / 100 == (if y % 100 == 0 then 1 else 0)
    ensures y % 100 == 0 ==> y % 4 == 0
  {
    DivisionStep(y, 100);
    if y % 100 == 0 {
      MultipleOfFactor(y, 4, 25);
    }
  }

  lemma StepOver400(y: int)
    ensures y / 400 - (y - 1) / 400 == (if y % 400 == 0 then 1 else 0)
    ensures y % 400 == 0 ==> y % 100 == 0
  {
    DivisionStep(y, 400);
    if y % 400 == 0 {
      MultipleOfFactor(y, 100, 4);
    }
  }

  /** The quotient by `k` grows by one from `y - 1` to `y` exactly when `k` divides `y`. */
  lemma DivisionStep(y: int, k: int)
    requires k > 0
    ensures y / k - (y - 1) / k == (if y % k == 0 then 1 else 0)
  {
    var q, r := (y - 1) / k, (y - 1) % k;
    if r == k - 1 {
      QuotientOf(y, k, q + 1, 0);
    } else {
      QuotientOf(y, k, q, r + 1);
    }
  }

  /** Division is determined by any quotient and remainder in range. */
  lemma QuotientOf(a: int, k: int, q: int, r: int)
    requires k > 0 && 0 <= r < k && a == k * q + r
    ensures a / k == q && a % k == r
  {
    var q', r' := a / k, a % k;
    assert a == k * q' + r';
    var d := q - q';
    assert k * d == k * q - k * q';
    if d >= 1 {
      ProductAtLeastFactor(k, d);
    } else if d <= -1 {
      ProductAtLeastFactor(k, -d);
    }
  }

  lemma {:induction false} ProductAtLeastFactor(k: int, d: int)
    requires k > 0 && d >= 1
    ensures k * d >= k
    decreases d
  {
    if d > 1 {
      ProductAtLeastFactor(k, d - 1);
      assert k * d == k * (d - 1) + k;
    }
  }

  /** A multiple of `f * g` is a multiple of `f`. */
  lemma MultipleOfFactor(y: int, f: int, g: int)
    requires f > 0 && g > 0 && y % (f * g) == 0
    ensures y % f == 0
  {
    var n := y / (f * g);
    assert y == (f * g) * n;
    assert y == f * (g * n);
    QuotientOf(y, f, g * n, 0);
  }

  /** Each year adds at least 365 days. */
  lemma {:induction false} DaysBeforeYearGrows(a: int, b: int)
    requires a <= b
    ensures DaysBeforeYear(a) + 365 * (b - a) <= DaysBeforeYear(b)
    decreases b - a
  {
    if a < b {
      DaysBeforeYearGrows(a, b - 1);
      DaysBeforeNextYear(b - 1);
    }
  }

  /** The last day of every representable month is at or before 9999-12-31, and only
      December 9999 ends on it. */
  lemma LastDayOfMonthBound(y: int, m: int)
    requires ValidYearMonth(y, m)
    ensures Ordinal(Date(y, m, DaysInMonth(y, m))) <= MaxOrdinal
    ensures Ordinal(Date(y, m, DaysInMonth(y, m))) == MaxOrdinal <==> (y, m) == (MaxYear, 12)
  {
    DaysBeforeNextMonth(y, m);
    DaysBeforeNextYear(y);
    DaysBeforeYearGrows(y + 1, MaxYear + 1);
    MaxOrdinalIsLastDate();
    DaysBeforeNextYear(MaxYear);
  }

  /** The day after `d` in the calendar. */
  function NextDay(d: Date): (n: Date)
    requires ValidDate(d)
    ensures 1 <= n.month <= 12 && 1 <= n.day <= DaysInMonth(n.year, n.month)
    ensures d != Date(MaxYear, 12, 31) ==> ValidDate(n)
  {
    if d.day < DaysInMonth(d.year, d.month) then Date(d.year, d.month, d.day + 1)
    else if d.month < 12 then Date(d.year, d.month + 1, 1)
    else Date(d.year + 1, 1, 1)
  }

  /** Consecutive calendar days have consecutive ordinals, across month and year ends
      (what `current += timedelta(days=1)` relies on). */
  lemma NextDayOrdinal(d: Date)
    requires ValidDate(d)
    ensures Ordinal(NextDay(d)) == Ordinal(d) + 1
  {
    if d.day == DaysInMonth(d.year, d.month) {
      DaysBeforeNextMonth(d.year, d.month);
      if d.month == 12 {
        DaysBeforeNextYear(d.year);
      }
    }
  }

  /** Day `k` (1-based) of a month has ordinal `k - 1` past the month's first day. */
  lemma OrdinalInMonth(y: int, m: int, k: int)
    requires 1 <= m <= 12
    ensures Ordinal(Date(y, m, k)) == Ordinal(Date(y, m, 1)) + k - 1
  {
  }

  /** The regional calendar day of an instant, as an ordinal: the date part of
      `t + 9 hours` (Python `(dt + timedelta(hours=9)).date()` and SQLite
      `date(t, '+9 hours')`). Division rounds down, for instants before 1970 too. */
  function RegionalOrdinal(t: int): int {
    EpochOrdinal + (t + RegionalOffset) / SecondsPerDay
  }

  /** The instant `h:mi:s` UTC on date `d`. */
  function UtcInstant(d: Date, h: int, mi: int, s: int): int
    requires 1 <= d.month <= 12
  {
    (Ordinal(d) - EpochOrdinal) * SecondsPerDay + h * 3600 + mi * 60 + s
  }

  /** An instant belongs to the same regional day as its UTC date until 15:00 UTC and
      to the next one from 15:00 UTC on; so 18:30 UTC on day D is regional day D + 1. */
  lemma RegionalDayOfUtcTime(d: Date, h: int, mi: int, s: int)
    requires 1 <= d.month <= 12
    requires 0 <= h < 24 && 0 <= mi < 60 && 0 <= s < 60
    ensures RegionalOrdinal(UtcInstant(d, h, mi, s)) == Ordinal(d) + (if h >= 15 then 1 else 0)
  {
    var k := Ordinal(d) - EpochOrdinal;
    var x := h * 3600 + mi * 60 + s + RegionalOffset;
    assert 0 <= x < 2 * SecondsPerDay;
    DivShift(k, x);
    assert (x / SecondsPerDay == 1) <==> h >= 15;
  }

  lemma DivShift(k: int, x: int)
    requires 0 <= x < 2 * SecondsPerDay
    ensures (k * SecondsPerDay + x) / SecondsPerDay == k + x / SecondsPerDay
  {
  }

  /** Regional days advance with time: a later instant never has an earlier regional day. */
  lemma RegionalOrdinalMonotonic(t1: int, t2: int)
    requires t1 <= t2
    ensures RegionalOrdinal(t1) <= RegionalOrdinal(t2)
  {
  }

  /** Instants less than a day apart fall on the same or on adjacent regional days. */
  lemma RegionalOrdinalWithinADay(t: int, dt: int)
    requires 0 <= dt < SecondsPerDay
    ensures RegionalOrdinal(t + dt) - RegionalOrdinal(t) in {0, 1}
  {
  }
}
