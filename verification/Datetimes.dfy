/**
 Milliseconds and datetimes: `datetime_from_millis` and `millis_from_datetime` of
 bson/_cbsonmodule.c over the calendar, and the conversion modes of bson/datetime_ms.py.
 */
module Datetimes {

  import opened Bytes
  import opened Calendar

  const MIN_UTC_MS := -62135596800000
  const MAX_UTC_MS := 253402300799999

  /** A naive Python datetime. */
  datatype Datetime = Datetime(year: int, month: int, day: int, hour: int, minute: int, second: int, micro: int)
  {
    function ToTm(): (t: Tm) { Tm(year - 1900, month - 1, day, hour, minute, second, 0, 0) }

    predicate Valid() { 1 <= year <= 9999 && ValidDate(ToTm()) && 0 <= micro < 1_000_000 }
  }

  function MillisOf(d: Datetime): (ms: int)
    requires d.Valid()
  {
    SecondsOf(d.ToTm()) * 1000 + d.micro / 1000
  }

  /** A signed 64-bit result that wraps around. */
  function Wrap64(v: int): (r: int)
    ensures IsInt64(r) && (r - v) % TWO_64 == 0
    ensures IsInt64(v) ==> r == v
  {
    (v - MIN_INT64) % TWO_64 + MIN_INT64
  }

  lemma {:induction false} DatetimeYears(t: Tm)
    requires ValidDate(t)
    ensures 1 <= t.year + 1900 <= 9999 <==> MIN_UTC_MS / 1000 <= SecondsOf(t) <= MAX_UTC_MS / 1000
  {
    hide YearStart, IsLeap, JulianDays, DaysInMonth, DayNumber;
    DateInYear(t);
    assert YearStart(-1899) * SECONDS_PER_DAY == -62135596800 && YearStart(8100) * SECONDS_PER_DAY == 253402300800 by {
      YearBounds();
    }
    if t.year < -1899 {
      YearStartAscends(t.year, -1899);
    } else if t.year > -1899 {
      YearStartAscends(-1899, t.year);
    }
    YearStartAdvances(t.year);
    if t.year > 8100 {
      YearStartAscends(8100, t.year);
    } else if t.year + 1 < 8100 {
      YearStartAscends(t.year + 1, 8100);
    }
  }

  lemma {:induction false} YearBounds()
    ensures YearStart(-1899) * SECONDS_PER_DAY == -62135596800
    ensures YearStart(8100) * SECONDS_PER_DAY == 253402300800
    ensures YearStart(MIN_INT32) * SECONDS_PER_DAY < -20_000_000_000_000_000
    ensures YearStart(MAX_INT32 + 1) * SECONDS_PER_DAY > 20_000_000_000_000_000
  {
  }

  /** `datetime_from_millis`; None stands for the ValueError of a year outside 1 to 9999.  The
      subtraction can wrap for counts within a second of the smallest 64-bit integer; the year is
      then out of range all the same. */
  method DatetimeFromMillis(millis: int) returns (r: Option<Datetime>)
    requires IsInt64(millis)
    ensures r.Some? <==> MIN_UTC_MS <= millis <= MAX_UTC_MS
    ensures r.Some? ==> r.value.Valid() && MillisOf(r.value) == millis && r.value.micro % 1000 == 0
  {
    hide YearStart, IsLeap, JulianDays, DaysInMonth, DayNumber;
    var diff := TMod(TMod(millis, 1000) + 1000, 1000);
    MillisSplit(millis);
    var seconds := TDiv(Wrap64(millis - diff), 1000);
    YearBounds();
    var timeinfo := GmTime(seconds);
    var t := timeinfo.value;
    DatetimeYears(t);
    if 1 <= t.year + 1900 <= 9999 {
      var d := Datetime(t.year + 1900, t.mon + 1, t.mday, t.hour, t.min, t.sec, diff * 1000);
      assert SecondsOf(d.ToTm()) == SecondsOf(t) by {
        assert DayNumber(d.ToTm()) == DayNumber(t) by {
          SameDay(d.ToTm(), t);
        }
      }
      return Some(d);
    }
    return None;
  }

  lemma {:induction false} SameDay(a: Tm, b: Tm)
    requires a.year == b.year && a.mon == b.mon && a.mday == b.mday && 0 <= a.mon < 12
    ensures DayNumber(a) == DayNumber(b)
  {
  }

  /** The C expressions take the floor of a millisecond count, except where they wrap. */
  lemma {:induction false} MillisSplit(millis: int)
    requires IsInt64(millis)
    ensures var diff := TMod(TMod(millis, 1000) + 1000, 1000);
            && diff == millis % 1000
            && (millis - diff >= MIN_INT64 ==> TDiv(Wrap64(millis - diff), 1000) == millis / 1000)
            && (millis - diff < MIN_INT64 ==> TDiv(Wrap64(millis - diff), 1000) > 9_000_000_000_000_000)
            && -9_300_000_000_000_000 <= TDiv(Wrap64(millis - diff), 1000) <= 9_300_000_000_000_000
  {
    var diff := TMod(TMod(millis, 1000) + 1000, 1000);
    assert diff == millis % 1000;
    if millis - diff < MIN_INT64 {
      assert Wrap64(millis - diff) == millis - diff + TWO_64;
    } else {
      assert (millis - diff) % 1000 == 0;
    }
  }

  /** `millis_from_datetime`. */
  method MillisFromDatetime(d: Datetime) returns (millis: int)
    requires d.Valid()
    ensures millis == MillisOf(d) && MIN_UTC_MS <= millis <= MAX_UTC_MS
  {
    var seconds := TimeGm(d.ToTm());
    DatetimeYears(d.ToTm());
    millis := seconds * 1000;
    millis := millis + d.micro / 1000;
  }

  /** Milliseconds survive a datetime over the whole range, before 1970 too. */
  method MillisRoundTrip(millis: int) returns (back: Option<int>)
    requires IsInt64(millis)
    ensures back == if MIN_UTC_MS <= millis <= MAX_UTC_MS then Some(millis) else None
  {
    var d := DatetimeFromMillis(millis);
    if d.None? {
      return None;
    }
    var ms := MillisFromDatetime(d.value);
    return Some(ms);
  }

  /** A datetime survives up to its microseconds below the millisecond. */
  method DatetimeRoundTrip(d: Datetime) returns (back: Option<Datetime>)
    requires d.Valid()
    ensures back == Some(d.(micro := d.micro / 1000 * 1000))
  {
    hide YearStart, IsLeap, JulianDays, DaysInMonth;
    var ms := MillisFromDatetime(d);
    back := DatetimeFromMillis(ms);
    SameMillisSameDatetime(back.value, d.(micro := d.micro / 1000 * 1000));
  }

  lemma {:induction false} SameMillisSameDatetime(a: Datetime, b: Datetime)
    requires a.Valid() && b.Valid() && MillisOf(a) == MillisOf(b)
    requires a.micro % 1000 == 0 && b.micro % 1000 == 0
    ensures a == b
  {
    hide YearStart, IsLeap, JulianDays, DaysInMonth, DayNumber;
    var s, t := a.ToTm(), b.ToTm();
    DateInYear(s);
    DateInYear(t);
    DayNumberOrdered(s, t);
  }

  // ---- bson/datetime_ms.py --------------------------------------------------------------

  datatype Conversion = DATETIME | DATETIME_CLAMP | DATETIME_AUTO | DATETIME_MS

  /** A datetime as microseconds since the epoch, a plain count, or InvalidBSON. */
  datatype Converted = Instant(micros: int) | Count(millis: int) | Invalid

  const MIN_MICROS := MIN_UTC_MS * 1000
  const MAX_MICROS := MAX_UTC_MS * 1000 + 999

  predicate InDatetimeRange(micros: int) { MIN_MICROS <= micros <= MAX_MICROS }

  function Max(a: int, b: int): (r: int) { if a >= b then a else b }

  function Min(a: int, b: int): (r: int) { if a <= b then a else b }

  /** A time zone's offsets in microseconds: at the first and at the last datetime, and at an instant. */
  datatype Zone = Zone(atMin: int, atMax: int, at: int -> int)

  /** `_min_datetime_ms` and `_max_datetime_ms`. */
  function MinDatetimeMs(zone: Zone): (r: int) { Max(MIN_UTC_MS, MIN_UTC_MS - zone.atMin / 1000) }

  function MaxDatetimeMs(zone: Zone): (r: int) { Min(MAX_UTC_MS, MAX_UTC_MS - zone.atMax / 1000) }

  const DAY := 86_400_000_000

  /** Offsets are less than a day, as Python demands. */
  ghost predicate IsZone(zone: Zone)
  {
    && -DAY < zone.atMin < DAY && -DAY < zone.atMax < DAY
    && forall micros :: -DAY < zone.at(micros) < DAY
  }

  /** Local time at this instant is a datetime too. */
  predicate LocalExists(micros: int, zone: Zone) { InDatetimeRange(micros + zone.at(micros)) }

  /** `_millis_to_datetime` for an aware datetime in a zone. */
  function MillisToDatetime(millis: int, mode: Conversion, zone: Zone): (r: Converted)
  {
    if mode.DATETIME_MS? then Count(millis)
    else
      var lo, hi := MinDatetimeMs(zone), MaxDatetimeMs(zone);
      if mode.DATETIME_AUTO? && !(lo <= millis <= hi) then Count(millis)
      else
        var ms := if mode.DATETIME_CLAMP? then Max(lo, Min(millis, hi)) else millis;
        var diff := (ms % 1000 + 1000) % 1000;
        var seconds := (ms - diff) / 1000;
        var micros := seconds * 1_000_000 + diff * 1000;
        if InDatetimeRange(micros) && LocalExists(micros, zone) then Instant(micros) else Invalid
  }

  /** `_datetime_to_millis` of the result, or the count itself. */
  function ToMillis(c: Converted): (r: int)
    requires !c.Invalid?
  {
    match c
    case Instant(micros) => micros / 1000
    case Count(millis) => millis
  }

  lemma {:induction false} InstantOfMillis(ms: int)
    ensures var diff := (ms % 1000 + 1000) % 1000; (ms - diff) / 1000 * 1_000_000 + diff * 1000 == ms * 1000
  {
  }

  /** For an offset that never changes the limits are exact: a count is within them if and only if its
      datetime exists, in UTC and in the zone. */
  lemma {:induction false} FixedZoneLimits(millis: int, offset: int, zone: Zone)
    requires zone.atMin == offset && zone.atMax == offset
    ensures MinDatetimeMs(zone) <= millis <= MaxDatetimeMs(zone)
            <==> InDatetimeRange(millis * 1000) && InDatetimeRange(millis * 1000 + offset)
  {
    assert offset == offset / 1000 * 1000 + offset % 1000;
  }

  /** Near the ends of the range the zone's offset is on the safe side of the one the limits assume. */
  predicate Steady(millis: int, zone: Zone)
  {
    && (millis * 1000 < MIN_MICROS + DAY ==> zone.at(millis * 1000) >= zone.atMin)
    && (millis * 1000 > MAX_MICROS - DAY ==> zone.at(millis * 1000) <= zone.atMax)
  }

  /** With DATETIME_AUTO a count within the limits fails exactly if its local time does not exist;
      every other one converts and comes back, within the limits as a datetime. */
  lemma {:induction false} AutoFailsIff(millis: int, zone: Zone)
    requires IsZone(zone)
    ensures var r := MillisToDatetime(millis, DATETIME_AUTO, zone);
            var within := MinDatetimeMs(zone) <= millis <= MaxDatetimeMs(zone);
            && (r.Invalid? <==> within && !LocalExists(millis * 1000, zone))
            && (!r.Invalid? ==> ToMillis(r) == millis && (r.Instant? <==> within))
            && (r.Instant? ==> InDatetimeRange(r.micros) && LocalExists(r.micros, zone))
  {
    InstantOfMillis(millis);
  }

  /** So DATETIME_AUTO never fails where the offsets are steady, as a fixed one is. */
  lemma {:induction false} AutoIsTotal(millis: int, zone: Zone)
    requires IsZone(zone) && Steady(millis, zone)
    ensures var r := MillisToDatetime(millis, DATETIME_AUTO, zone);
            !r.Invalid? && ToMillis(r) == millis
  {
    AutoFailsIff(millis, zone);
  }

  /** Elsewhere it can: an offset that was an hour behind what the limit assumes. */
  lemma {:induction false} UnsteadyZoneFails()
    ensures var zone := Zone(0, 0, micros => -3_600_000_000);
            && IsZone(zone) && MinDatetimeMs(zone) == MIN_UTC_MS
            && MillisToDatetime(MIN_UTC_MS, DATETIME_AUTO, zone).Invalid?
  {
    AutoFailsIff(MIN_UTC_MS, Zone(0, 0, micros => -3_600_000_000));
  }

  /** With DATETIME_CLAMP the count is moved to the nearest one that the limits allow, and fails
      exactly if the local time of that one does not exist. */
  lemma {:induction false} ClampIsNearest(millis: int, zone: Zone, other: int)
    requires IsZone(zone) && MinDatetimeMs(zone) <= other <= MaxDatetimeMs(zone)
    ensures var r := MillisToDatetime(millis, DATETIME_CLAMP, zone);
            var ms := Max(MinDatetimeMs(zone), Min(millis, MaxDatetimeMs(zone)));
            && MinDatetimeMs(zone) <= ms <= MaxDatetimeMs(zone)
            && Max(millis - ms, ms - millis) <= Max(millis - other, other - millis)
            && (r.Invalid? <==> !LocalExists(ms * 1000, zone))
            && (!r.Invalid? ==> r.Instant? && ToMillis(r) == ms)
            && (Steady(ms, zone) ==> !r.Invalid?)
  {
    InstantOfMillis(Max(MinDatetimeMs(zone), Min(millis, MaxDatetimeMs(zone))));
  }

  /** With DATETIME a count converts exactly if its datetime exists in UTC and in the zone. */
  lemma {:induction false} DatetimeIfRepresentable(millis: int, zone: Zone)
    ensures var r := MillisToDatetime(millis, DATETIME, zone);
            && (r.Instant? <==> InDatetimeRange(millis * 1000) && LocalExists(millis * 1000, zone))
            && (r.Instant? ==> ToMillis(r) == millis)
  {
    InstantOfMillis(millis);
  }
}
