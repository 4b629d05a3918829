/**
 Calendar arithmetic of bson/time64.c: `cbson_gmtime64_r` and `cbson_timegm64`.  Integers are
 mathematical; where the C code relies on a 64-bit or 32-bit result the bound is asserted.
 */
module Calendar {

  import opened Bytes

  const DAYS_IN_CYCLE := 146097
  const SECONDS_PER_DAY := 86400
  const CHEAT_DAYS := 13879
  const CHEAT_YEARS := 108

  /** C division, which truncates toward zero. */
  function TDiv(a: int, b: int): (q: int)
    requires b > 0
  {
    if a >= 0 then a / b else -((-a) / b)
  }

  function TMod(a: int, b: int): (r: int)
    requires b > 0
  {
    a - b * TDiv(a, b)
  }

  /** The quotient is the one toward zero, and the remainder has the sign of the dividend. */
  lemma {:induction false} TruncatesTowardZero(a: int, b: int)
    requires b > 0
    ensures a == b * TDiv(a, b) + TMod(a, b) && -b < TMod(a, b) < b
    ensures (a >= 0 ==> TMod(a, b) >= 0) && (a <= 0 ==> TMod(a, b) <= 0)
  {
    if a < 0 {
      assert TMod(a, b) == -((-a) % b);
    } else {
      assert TMod(a, b) == a % b;
    }
  }

  // ---- the Gregorian calendar -----------------------------------------------------------

  /** Years count from 1900, as in `struct tm`. */
  predicate IsLeap(y: int)
  {
    (y + 1900) % 400 == 0 || ((y + 1900) % 4 == 0 && (y + 1900) % 100 != 0)
  }

  function YearLength(y: int): (n: int) { if IsLeap(y) then 366 else 365 }

  /** The day number of January 1st, in closed form: 1970 starts at day 0. */
  function YearStart(y: int): (d: int)
  {
    var past := y + 1899;
    365 * (y - 70) + past / 4 - past / 100 + past / 400 - 477
  }

  function DaysInMonth(leap: bool, mon: int): (n: int)
    requires 0 <= mon < 12
    ensures 28 <= n <= 31
  {
    if mon == 1 then (if leap then 29 else 28)
    else if mon == 3 || mon == 5 || mon == 8 || mon == 10 then 30 else 31
  }

  /** `julian_days_by_month`: the days before a month. */
  function JulianDays(leap: bool, mon: int): (n: int)
    requires 0 <= mon < 12
  {
    if leap then [0, 31, 60, 91, 121, 152, 182, 213, 244, 274, 305, 335][mon]
    else [0, 31, 59, 90, 120, 151, 181, 212, 243, 273, 304, 334][mon]
  }

  /** The two month tables describe the same calendar. */
  lemma {:induction false} JulianDaysAdvance(leap: bool, mon: int)
    requires 0 <= mon < 12
    ensures JulianDays(leap, 0) == 0
    ensures mon < 11 ==> JulianDays(leap, mon + 1) == JulianDays(leap, mon) + DaysInMonth(leap, mon)
    ensures mon == 11 ==> JulianDays(leap, mon) + DaysInMonth(leap, mon) == if leap then 366 else 365
  {
  }

  lemma {:induction false} JulianDaysAscend(leap: bool, a: int, b: int)
    requires 0 <= a < b < 12
    ensures JulianDays(leap, a) + DaysInMonth(leap, a) <= JulianDays(leap, b)
    decreases b - a
  {
    hide JulianDays, DaysInMonth;
    JulianDaysAdvance(leap, a);
    if a + 1 < b {
      JulianDaysAscend(leap, a + 1, b);
    }
  }

  /** A quotient grows by one exactly at the multiples of the divisor. */
  lemma {:induction false} QuotientSteps(n: int)
    ensures n / 4 == (n - 1) / 4 + if n % 4 == 0 then 1 else 0
    ensures n / 100 == (n - 1) / 100 + if n % 100 == 0 then 1 else 0
    ensures n / 400 == (n - 1) / 400 + if n % 400 == 0 then 1 else 0
  {
  }

  lemma {:induction false} LeapByDivisors(n: int)
    ensures n % 400 == 0 ==> n % 100 == 0
    ensures n % 100 == 0 ==> n % 4 == 0
  {
  }

  lemma {:induction false} YearStartAdvances(y: int)
    ensures YearStart(y + 1) == YearStart(y) + YearLength(y)
    ensures YearStart(70) == 0 && YearStart(CHEAT_YEARS) == CHEAT_DAYS
  {
    var n := y + 1900;
    assert YearStart(y + 1) == 365 * (y - 69) + n / 4 - n / 100 + n / 400 - 477;
    assert YearStart(y) == 365 * (y - 70) + (n - 1) / 4 - (n - 1) / 100 + (n - 1) / 400 - 477;
    QuotientSteps(n);
    LeapByDivisors(n);
  }

  lemma {:induction false} QuotientShifts(n: int, k: int)
    ensures (n + 4 * k) / 4 == n / 4 + k && (n + 4 * k) % 4 == n % 4
  {
  }

  lemma {:induction false} CenturyShifts(n: int, k: int)
    ensures (n + 100 * k) / 100 == n / 100 + k && (n + 100 * k) % 100 == n % 100
  {
  }

  lemma {:induction false} CycleShifts(n: int, k: int)
    ensures (n + 400 * k) / 400 == n / 400 + k && (n + 400 * k) % 400 == n % 400
  {
  }

  lemma {:induction false} YearStartRepeats(y: int, cycles: int)
    ensures YearStart(y + cycles * 400) == YearStart(y) + cycles * DAYS_IN_CYCLE
    ensures IsLeap(y + cycles * 400) == IsLeap(y)
  {
    var past, later := y + 1899, y + 1899 + 400 * cycles;
    assert YearStart(y + cycles * 400) == 365 * (y - 70) + 146000 * cycles + later / 4 - later / 100
        + later / 400 - 477;
    QuotientShifts(past, 100 * cycles);
    CenturyShifts(past, 4 * cycles);
    CycleShifts(past, cycles);
    LeapRepeats(y, cycles);
  }

  lemma {:induction false} LeapRepeats(y: int, cycles: int)
    ensures IsLeap(y + cycles * 400) == IsLeap(y)
  {
    var n := y + 1900;
    assert y + cycles * 400 + 1900 == n + 400 * cycles;
    QuotientShifts(n, 100 * cycles);
    CenturyShifts(n, 4 * cycles);
    CycleShifts(n, cycles);
  }

  lemma {:induction false} YearStartAscends(a: int, b: int)
    requires a < b
    ensures YearStart(a) + YearLength(a) <= YearStart(b)
  {
    YearStartAdvances(a);
    var k := b - (a + 1);
    var past := a + 1900;
    assert (past + k) / 4 >= past / 4;
    assert (past + k) / 400 >= past / 400;
    assert (past + k) / 100 <= past / 100 + k;
  }

  // ---- dates ----------------------------------------------------------------------------

  datatype Tm = Tm(year: int, mon: int, mday: int, hour: int, min: int, sec: int, wday: int, yday: int)

  predicate ValidDate(t: Tm)
  {
    && 0 <= t.mon < 12 && 1 <= t.mday <= DaysInMonth(IsLeap(t.year), t.mon)
    && 0 <= t.hour < 24 && 0 <= t.min < 60 && 0 <= t.sec < 60
  }

  function DayNumber(t: Tm): (d: int)
    requires 0 <= t.mon < 12
  {
    YearStart(t.year) + JulianDays(IsLeap(t.year), t.mon) + t.mday - 1
  }

  function SecondsOf(t: Tm): (s: int)
    requires 0 <= t.mon < 12
  {
    DayNumber(t) * SECONDS_PER_DAY + t.hour * 3600 + t.min * 60 + t.sec
  }

  /** The day of the week, counted from Sunday, and the day of the year are right: January 1st 1970
      was a Thursday. */
  predicate ValidTm(t: Tm)
  {
    && ValidDate(t)
    && t.wday == (DayNumber(t) + 4) % 7
    && t.yday == DayNumber(t) - YearStart(t.year)
  }

  /** A date lies within its year. */
  lemma {:induction false} DateInYear(t: Tm)
    requires ValidDate(t)
    ensures YearStart(t.year) <= DayNumber(t) < YearStart(t.year) + YearLength(t.year)
    ensures DayNumber(t) * SECONDS_PER_DAY <= SecondsOf(t) < (DayNumber(t) + 1) * SECONDS_PER_DAY
  {
    var leap := IsLeap(t.year);
    JulianDaysAdvance(leap, 11);
    if t.mon < 11 {
      JulianDaysAscend(leap, t.mon, 11);
    }
    if 0 < t.mon {
      JulianDaysAscend(leap, 0, t.mon);
    }
  }

  /** Dates in the order of the calendar have day numbers in the same order. */
  lemma {:induction false} DayNumberOrdered(a: Tm, b: Tm)
    requires ValidDate(a) && ValidDate(b)
    ensures DayNumber(a) == DayNumber(b) ==> a.year == b.year && a.mon == b.mon && a.mday == b.mday
  {
    hide YearStart, IsLeap, DaysInMonth, JulianDays;
    DateInYear(a);
    DateInYear(b);
    if a.year < b.year {
      YearStartAscends(a.year, b.year);
    } else if b.year < a.year {
      YearStartAscends(b.year, a.year);
    } else if a.mon < b.mon {
      JulianDaysAscend(IsLeap(a.year), a.mon, b.mon);
    } else if b.mon < a.mon {
      JulianDaysAscend(IsLeap(a.year), b.mon, a.mon);
    }
  }

  /** Every second names at most one date. */
  lemma {:induction false} DateIsUnique(a: Tm, b: Tm)
    requires ValidTm(a) && ValidTm(b) && SecondsOf(a) == SecondsOf(b)
    ensures a == b
  {
    hide YearStart, IsLeap, DaysInMonth, DayNumber;
    DateInYear(a);
    DateInYear(b);
    DayNumberOrdered(a, b);
  }

  // ---- cbson_timegm64 -------------------------------------------------------------------

  lemma {:induction false} TruncatedCycles(y: int)
    requires IsInt32(y) && (y > 100 || y < -300)
    ensures var c := TDiv(y - 100, 400);
            IsInt32(c) && IsInt32(c * 400) && -300 < y - c * 400 < 500
  {
  }

  /** `cbson_timegm64`. */
  method TimeGm(date: Tm) returns (seconds: int)
    requires ValidDate(date) && IsInt32(date.year)
    ensures seconds == SecondsOf(date) && IsInt64(seconds)
  {
    hide YearStart, IsLeap, JulianDays, DaysInMonth;
    var days := 0;
    var origYear := date.year;
    var cycles := 0;
    if origYear > 100 || origYear < -300 {
      TruncatedCycles(origYear);
      cycles := TDiv(origYear - 100, 400);
      origYear := origYear - cycles * 400;
      days := days + cycles * DAYS_IN_CYCLE;
    }
    YearStartRepeats(origYear, cycles);
    YearStartAdvances(70);
    if origYear > 70 {
      var year := 70;
      while year < origYear
        invariant 70 <= year <= origYear
        invariant days == YearStart(year) + cycles * DAYS_IN_CYCLE
      {
        YearStartAdvances(year);
        days := days + YearLength(year);
        year := year + 1;
      }
    } else if origYear < 70 {
      var year := 69;
      while year >= origYear                      // a do-while in C: the first test holds
        invariant origYear - 1 <= year <= 69
        invariant days == YearStart(year + 1) + cycles * DAYS_IN_CYCLE
      {
        YearStartAdvances(year);
        days := days - YearLength(year);
        year := year - 1;
      }
    }
    assert days == YearStart(date.year);
    days := days + JulianDays(IsLeap(origYear), date.mon);
    days := days + date.mday - 1;
    DayNumberIsSmall(date);
    seconds := days * 60 * 60 * 24;
    assert IsInt64(seconds);
    seconds := seconds + date.hour * 60 * 60;
    seconds := seconds + date.min * 60;
    seconds := seconds + date.sec;
  }

  lemma {:induction false} DayNumberIsSmall(t: Tm)
    requires ValidDate(t) && IsInt32(t.year)
    ensures -800_000_000_000 <= DayNumber(t) <= 800_000_000_000
  {
    DateInYear(t);
  }

  // ---- cbson_gmtime64_r -----------------------------------------------------------------

  /** The clock part: seconds, minutes, hours and the day, after the wraps for negative times. */
  method SplitTime(time: int) returns (sec: int, min: int, hour: int, day: int)
    ensures time == day * SECONDS_PER_DAY + hour * 3600 + min * 60 + sec
    ensures 0 <= sec < 60 && 0 <= min < 60 && 0 <= hour < 24
  {
    var t := time;
    sec := TMod(t, 60);
    t := TDiv(t, 60);
    min := TMod(t, 60);
    t := TDiv(t, 60);
    hour := TMod(t, 24);
    t := TDiv(t, 24);
    day := t;
    if sec < 0 {
      min, sec := min - 1, sec + 60;
    }
    if min < 0 {
      hour, min := hour - 1, min + 60;
    }
    if hour < 0 {
      day, hour := day - 1, hour + 24;
    }
  }

  /** A day at or after the starting year: forward by cycles, years and months. */
  method Forward(day: int, start: int) returns (year: int, mon: int, m: int)
    requires day >= YearStart(start) && -200_000_000_000_000 <= day <= 200_000_000_000_000
    requires start == 70 || start == CHEAT_YEARS
    ensures 0 <= mon < 12 && 0 <= m < DaysInMonth(IsLeap(year), mon)
    ensures day == YearStart(year) + JulianDays(IsLeap(year), mon) + m
  {
    hide YearStart, IsLeap, JulianDays, DaysInMonth;
    year := start;
    m := day - YearStart(start);
    YearStartAdvances(start);
    var cycles := TDiv(m, DAYS_IN_CYCLE);
    assert IsInt32(cycles);
    YearStartRepeats(year, cycles);
    if cycles != 0 {
      m := m - cycles * DAYS_IN_CYCLE;
      year := year + cycles * 400;
    }
    while m >= YearLength(year)
      invariant m >= 0 && day == YearStart(year) + m
      decreases m
    {
      YearStartAdvances(year);
      m := m - YearLength(year);
      year := year + 1;
    }
    var leap := IsLeap(year);
    mon := 0;
    JulianDaysAdvance(leap, 0);
    JulianDaysAdvance(leap, 11);
    while m >= DaysInMonth(leap, mon)
      invariant 0 <= mon < 12 && 0 <= m
      invariant JulianDays(leap, mon) + m == day - YearStart(year) < YearLength(year)
      decreases m
    {
      JulianDaysAdvance(leap, mon);
      m := m - DaysInMonth(leap, mon);
      mon := mon + 1;
    }
  }

  /** A day before 1970: backward by cycles, years and months. */
  method Backward(day: int) returns (year: int, mon: int, m: int)
    requires -200_000_000_000_000 <= day < 0
    ensures 0 <= mon < 12 && 0 <= m < DaysInMonth(IsLeap(year), mon)
    ensures day == YearStart(year) + JulianDays(IsLeap(year), mon) + m
  {
    hide YearStart, IsLeap, JulianDays, DaysInMonth;
    year := 69;
    m := day;
    YearStartAdvances(70);
    var cycles := TDiv(m, DAYS_IN_CYCLE) + 1;
    assert IsInt32(cycles);
    YearStartRepeats(70, cycles);
    if cycles != 0 {
      m := m - cycles * DAYS_IN_CYCLE;
      year := year + cycles * 400;
    }
    assert m < 0;
    while m < -YearLength(year)
      invariant m < 0 && day == YearStart(year + 1) + m
      decreases -m
    {
      YearStartAdvances(year);
      m := m + YearLength(year);
      year := year - 1;
    }
    YearStartAdvances(year);
    var leap := IsLeap(year);
    mon := 11;
    JulianDaysAdvance(leap, 11);
    while m < -DaysInMonth(leap, mon)
      invariant 0 <= mon < 12 && m < 0
      invariant JulianDays(leap, mon) + DaysInMonth(leap, mon) + m == day - YearStart(year) >= 0
      decreases mon
    {
      JulianDaysAdvance(leap, 0);
      if mon > 0 {
        JulianDaysAdvance(leap, mon - 1);
      }
      m := m + DaysInMonth(leap, mon);
      mon := mon - 1;
    }
    m := m + DaysInMonth(leap, mon);
  }

  /** The years that fit a C int. */
  predicate YearFits(time: int)
  {
    YearStart(MIN_INT32) * SECONDS_PER_DAY <= time < YearStart(MAX_INT32 + 1) * SECONDS_PER_DAY
  }

  lemma {:induction false} FitsByYear(t: Tm)
    requires ValidDate(t)
    ensures YearFits(SecondsOf(t)) <==> IsInt32(t.year)
  {
    hide YearStart, IsLeap, JulianDays, DaysInMonth, DayNumber;
    DateInYear(t);
    if t.year < MIN_INT32 {
      YearStartAscends(t.year, MIN_INT32);
    } else if t.year > MIN_INT32 {
      YearStartAscends(MIN_INT32, t.year);
    }
    YearStartAdvances(t.year);
    if t.year > MAX_INT32 + 1 {
      YearStartAscends(MAX_INT32 + 1, t.year);
    } else if t.year + 1 <= MAX_INT32 {
      YearStartAscends(t.year + 1, MAX_INT32 + 1);
    }
  }

  /** `cbson_gmtime64_r`; None stands for the NULL it returns when the year does not fit. */
  method GmTime(time: int) returns (r: Option<Tm>)
    requires IsInt64(time)
    ensures r.Some? <==> YearFits(time)
    ensures r.Some? ==> ValidTm(r.value) && SecondsOf(r.value) == time && IsInt32(r.value.year)
  {
    hide YearStart, IsLeap, JulianDays, DaysInMonth;
    var sec, min, hour, tday := SplitTime(time);
    var wday := TMod(tday + 4, 7);
    if wday < 0 {
      wday := wday + 7;
    }
    YearStartAdvances(70);
    var year, mon, m;
    if tday >= CHEAT_DAYS {
      year, mon, m := Forward(tday, CHEAT_YEARS);
    } else if tday >= 0 {
      year, mon, m := Forward(tday, 70);
    } else {
      year, mon, m := Backward(tday);
    }
    var t := Tm(year, mon, m + 1, hour, min, sec, wday, JulianDays(IsLeap(year), mon) + m);
    WeekdayIsEuclidean(tday);
    assert DayNumber(t) == tday;
    FitsByYear(t);
    r := if IsInt32(year) then Some(t) else None;
  }

  lemma {:induction false} WeekdayIsEuclidean(day: int)
    ensures var w := TMod(day + 4, 7); (if w < 0 then w + 7 else w) == (day + 4) % 7
  {
  }

  /** Both directions of the inverse: every 64-bit second count whose year fits comes back, and so
      does every date. */
  method SecondsRoundTrip(time: int) returns (back: Option<int>)
    requires IsInt64(time)
    ensures back == if YearFits(time) then Some(time) else None
  {
    var date := GmTime(time);
    if date.None? {
      return None;
    }
    var seconds := TimeGm(date.value);
    return Some(seconds);
  }

  method DateRoundTrip(date: Tm) returns (back: Option<Tm>)
    requires ValidTm(date) && IsInt32(date.year)
    ensures back == Some(date)
  {
    var seconds := TimeGm(date);
    FitsByYear(date);
    back := GmTime(seconds);
    DateIsUnique(back.value, date);
  }
}
