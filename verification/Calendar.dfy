// Dates and Unix timestamps: the two conversions of the kernel and the one of the time client.
module Calendar {
  const WORD_MOD: nat := 0x1_0000_0000

  datatype Date = Date(year: nat, month: nat, day: nat, hour: nat, min: nat, sec: nat)

  predicate IsLeap(y: nat) { (y % 4 == 0 && y % 100 != 0) || y % 400 == 0 }

  function YearDays(y: nat): nat { if IsLeap(y) then 366 else 365 }

  const DAYS_IN_MONTH: seq<nat> := [31, 28, 31, 30, 31, 30, 31, 31, 30, 31, 30, 31]

  function MonthDays(y: nat, m: nat): (d: nat)
    requires 1 <= m <= 12
    ensures 28 <= d <= 31
  {
    if m == 2 && IsLeap(y) then 29 else DAYS_IN_MONTH[m - 1]
  }

  /** The days from the start of 1970 to the start of a year. */
  function DaysBeforeYear(y: nat): nat {
    if y <= 1970 then 0 else DaysBeforeYear(y - 1) + YearDays(y - 1)
  }

  /** The days from the start of a year to the start of one of its months; 13 stands for the end of the year. */
  function DaysBeforeMonth(y: nat, m: nat): nat
    requires 1 <= m <= 13
  {
    if m == 1 then 0 else DaysBeforeMonth(y, m - 1) + MonthDays(y, m - 1)
  }

  predicate Valid(d: Date) {
    1970 <= d.year && 1 <= d.month <= 12 && 1 <= d.day <= MonthDays(d.year, d.month) && d.hour < 24 && d.min < 60 && d.sec < 60
  }

  /** The number of seconds from the start of 1970 to a date. */
  function Timestamp(d: Date): nat
    requires Valid(d)
  {
    (DaysBeforeYear(d.year) + DaysBeforeMonth(d.year, d.month) + (d.day - 1)) * 86400 + d.hour * 3600 + d.min * 60 + d.sec
  }

  // ---- Years and months tell days apart

  lemma WholeYear(y: nat)
    ensures DaysBeforeMonth(y, 13) == YearDays(y)
  {
    assert DaysBeforeMonth(y, 5) == DaysBeforeMonth(y, 4) + 30 == DaysBeforeMonth(y, 3) + 61;
    assert DaysBeforeMonth(y, 9) == DaysBeforeMonth(y, 8) + 31 == DaysBeforeMonth(y, 7) + 62 == DaysBeforeMonth(y, 6) + 92 == DaysBeforeMonth(y, 5) + 123;
    assert DaysBeforeMonth(y, 13) == DaysBeforeMonth(y, 12) + 31 == DaysBeforeMonth(y, 11) + 61 == DaysBeforeMonth(y, 10) + 92 == DaysBeforeMonth(y, 9) + 122;
    assert DaysBeforeMonth(y, 3) == DaysBeforeMonth(y, 2) + MonthDays(y, 2) == 31 + MonthDays(y, 2);
  }

  lemma {:induction false} YearsInOrder(a: nat, b: nat)
    requires 1970 <= a < b
    ensures DaysBeforeYear(a) + YearDays(a) <= DaysBeforeYear(b)
  {
    if a + 1 < b {
      YearsInOrder(a, b - 1);
    }
  }

  lemma {:induction false} MonthsInOrder(y: nat, a: nat, b: nat)
    requires 1 <= a < b <= 13
    ensures DaysBeforeMonth(y, a) + MonthDays(y, a) <= DaysBeforeMonth(y, b)
  {
    if a + 1 < b {
      MonthsInOrder(y, a, b - 1);
    }
  }

  function DayOfYear(d: Date): nat
    requires Valid(d)
  {
    DaysBeforeMonth(d.year, d.month) + (d.day - 1)
  }

  lemma DayInYear(d: Date)
    requires Valid(d)
    ensures DayOfYear(d) < YearDays(d.year)
  {
    WholeYear(d.year);
    MonthsInOrder(d.year, d.month, 13);
  }

  /** No two dates have the same timestamp. */
  lemma TimestampsDiffer(d: Date, e: Date)
    requires Valid(d) && Valid(e) && Timestamp(d) == Timestamp(e)
    ensures d == e
  {
    hide DaysBeforeYear, DaysBeforeMonth, MonthDays, YearDays, IsLeap;
    DayInYear(d);
    DayInYear(e);
    SecondsDiffer(DaysBeforeYear(d.year) + DayOfYear(d), d.hour, d.min, d.sec, DaysBeforeYear(e.year) + DayOfYear(e), e.hour, e.min, e.sec);
    if d.year < e.year {
      YearsInOrder(d.year, e.year);
    } else if e.year < d.year {
      YearsInOrder(e.year, d.year);
    } else if d.month < e.month {
      MonthsInOrder(d.year, d.month, e.month);
    } else if e.month < d.month {
      MonthsInOrder(d.year, e.month, d.month);
    }
  }

  /** Days, hours, minutes and seconds are the digits of a number of seconds. */
  lemma SecondsDiffer(a: nat, h: nat, m: nat, s: nat, b: nat, i: nat, n: nat, t: nat)
    requires h < 24 && m < 60 && s < 60 && i < 24 && n < 60 && t < 60
    requires a * 86400 + h * 3600 + m * 60 + s == b * 86400 + i * 3600 + n * 60 + t
    ensures a == b && h == i && m == n && s == t
  {
    var x, y := a * 1440 + h * 60 + m, b * 1440 + i * 60 + n;
    assert 60 * x + s == 60 * y + t;
    assert x == y && s == t;
    assert 60 * (a * 24 + h) + m == 60 * (b * 24 + i) + n;
    assert a * 24 + h == b * 24 + i && m == n;
  }

  // ---- Dates to timestamps

  lemma WrapAdd(a: nat, b: nat)
    ensures (a % WORD_MOD + b) % WORD_MOD == (a + b) % WORD_MOD
  {
  }

  lemma WrapDays(days: nat, rest: nat)
    ensures (days % WORD_MOD * 86400 + rest) % WORD_MOD == (days * 86400 + rest) % WORD_MOD
  {
    var q := days / WORD_MOD;
    assert days == q * WORD_MOD + days % WORD_MOD;
    assert days * 86400 + rest == days % WORD_MOD * 86400 + rest + q * 86400 * WORD_MOD;
    WrapMany(days % WORD_MOD * 86400 + rest, q * 86400);
  }

  lemma {:induction false} WrapMany(x: nat, k: nat)
    ensures (x + k * WORD_MOD) % WORD_MOD == x % WORD_MOD
    decreases k
  {
    if k > 0 {
      WrapMany(x + WORD_MOD, k - 1);
      assert x + WORD_MOD + (k - 1) * WORD_MOD == x + k * WORD_MOD;
    }
  }

  /** date_to_unix, in 32-bit arithmetic. */
  method DateToUnix(d: Date) returns (ts: nat)
    requires Valid(d)
    ensures ts == Timestamp(d) % WORD_MOD
  {
    hide YearDays, MonthDays;
    var days: nat := 0;
    for y := 1970 to d.year
      invariant days == DaysBeforeYear(y) % WORD_MOD
    {
      WrapAdd(DaysBeforeYear(y), YearDays(y));
      days := (days + YearDays(y)) % WORD_MOD;
    }
    for m := 1 to d.month
      invariant days == (DaysBeforeYear(d.year) + DaysBeforeMonth(d.year, m)) % WORD_MOD
    {
      WrapAdd(DaysBeforeYear(d.year) + DaysBeforeMonth(d.year, m), MonthDays(d.year, m));
      days := (days + MonthDays(d.year, m)) % WORD_MOD;
    }
    ghost var all := DaysBeforeYear(d.year) + DaysBeforeMonth(d.year, d.month);
    WrapAdd(all, d.day - 1);
    days := (days + (d.day - 1)) % WORD_MOD;
    WrapDays(all + (d.day - 1), d.hour * 3600 + d.min * 60 + d.sec);
    ts := (days * 86400 + d.hour * 3600 + d.min * 60 + d.sec) % WORD_MOD;
  }

  // ---- Timestamps to dates

  lemma SplitSeconds(ts: nat)
    ensures ts == ts / 60 / 60 / 24 * 86400 + ts / 60 / 60 % 24 * 3600 + ts / 60 % 60 * 60 + ts % 60
  {
  }

  /** unix_to_date: the month is found before the loop over the months ends, so its fallback is never reached. */
  method UnixToDate(ts: nat) returns (d: Date)
    ensures Valid(d) && Timestamp(d) == ts
  {
    hide YearDays, MonthDays;
    var sec, min, hour := ts % 60, ts / 60 % 60, ts / 60 / 60 % 24;
    var days: nat := ts / 60 / 60 / 24;
    SplitSeconds(ts);
    var y: nat := 1970;
    ghost var all := days;
    while days >= YearDays(y)
      invariant 1970 <= y && all == DaysBeforeYear(y) + days
      decreases days
    {
      YearIsLong(y);
      days := days - YearDays(y);
      y := y + 1;
    }
    var m: nat := 1;
    ghost var inYear := days;
    WholeYear(y);
    while m <= 12
      invariant 1 <= m <= 13 && inYear == DaysBeforeMonth(y, m) + days && inYear < YearDays(y)
    {
      if days < MonthDays(y, m) {
        return Date(y, m, days + 1, hour, min, sec);
      }
      days := days - MonthDays(y, m);
      m := m + 1;
    }
    assert false;
  }

  lemma YearIsLong(y: nat)
    ensures YearDays(y) > 0
  {
  }

  /** unix_to_utc of the time client: its month counts from 0 while it looks for it. */
  method UnixToUtc(ts: nat) returns (d: Date)
    ensures Valid(d) && Timestamp(d) == ts
  {
    hide YearDays, MonthDays;
    var sec, min, hour := ts % 60, ts / 60 % 60, ts / 60 / 60 % 24;
    var days: nat := ts / 60 / 60 / 24;
    SplitSeconds(ts);
    var y: nat := 1970;
    ghost var all := days;
    while days >= YearDays(y)
      invariant 1970 <= y && all == DaysBeforeYear(y) + days
      decreases days
    {
      YearIsLong(y);
      days := days - YearDays(y);
      y := y + 1;
    }
    var m: nat := 0;
    ghost var inYear := days;
    WholeYear(y);
    while m < 12
      invariant m <= 12 && inYear == DaysBeforeMonth(y, m + 1) + days && inYear < YearDays(y)
    {
      if days < MonthDays(y, m + 1) {
        return Date(y, m + 1, days + 1, hour, min, sec);
      }
      days := days - MonthDays(y, m + 1);
      m := m + 1;
    }
    assert false;
  }

  // ---- Inverses

  /** A timestamp taken apart and put together again, and by either of the two routines alike. */
  method ThereAndBack(ts: nat) returns (back: nat)
    requires ts < WORD_MOD
    ensures back == ts
  {
    hide Timestamp;
    var d := UnixToDate(ts);
    var e := UnixToUtc(ts);
    TimestampsDiffer(d, e);
    assert d == e;
    back := DateToUnix(d);
  }

  /** A date put together and taken apart again: the same just when its timestamp fits in 32 bits. */
  method BackAndThere(d: Date) returns (e: Date)
    requires Valid(d)
    ensures Valid(e) && (e == d <==> Timestamp(d) < WORD_MOD)
  {
    hide Timestamp;
    var ts := DateToUnix(d);
    e := UnixToDate(ts);
    if Timestamp(d) < WORD_MOD {
      TimestampsDiffer(d, e);
    }
  }

  /** The last second that fits, and the first that does not. */
  lemma EndOfTime()
    ensures Timestamp(Date(2106, 2, 7, 6, 28, 15)) == WORD_MOD - 1
    ensures Timestamp(Date(2106, 2, 7, 6, 28, 16)) == WORD_MOD
  {
    hide DaysBeforeYear, DaysBeforeMonth, MonthDays;
    YearsUpTo(2106);
    FirstMonth(2106);
  }

  lemma FirstMonth(y: nat)
    ensures DaysBeforeMonth(y, 2) == 31 && MonthDays(y, 2) >= 28
  {
  }

  /** The leap years up to y, counted by the rule for centuries. */
  function LeapsUpTo(y: nat): nat { y / 4 - y / 100 + y / 400 }

  /** The days before a year in closed form. */
  lemma {:induction false} YearsUpTo(y: nat)
    requires 1970 <= y
    ensures DaysBeforeYear(y) == 365 * (y - 1970) + LeapsUpTo(y - 1) - LeapsUpTo(1969)
  {
    if y > 1970 {
      YearsUpTo(y - 1);
      LeapStep(y - 1);
    }
  }

  lemma LeapStep(y: nat)
    requires 0 < y
    ensures LeapsUpTo(y) == LeapsUpTo(y - 1) + if IsLeap(y) then 1 else 0
  {
    CountStep(y, 4);
    CountStep(y, 100);
    CountStep(y, 400);
    assert y % 100 == 0 ==> y % 4 == 0;
    assert y % 400 == 0 ==> y % 100 == 0;
  }

  lemma CountStep(y: nat, k: nat)
    requires 0 < y && (k == 4 || k == 100 || k == 400)
    ensures y / k == (y - 1) / k + if y % k == 0 then 1 else 0
  {
    if k == 4 {
    } else if k == 100 {
    } else {
    }
  }
}
