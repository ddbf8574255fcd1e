/**
 * The calendar year of an instant, as `date.toInstant().atZone(zone).toLocalDate().getYear()`
 * computes it in the ISO (proleptic Gregorian) chronology, for a zone with a fixed UTC offset.
 */
module Calendar {

  const MillisPerSecond := 1000
  const SecondsPerDay := 86400
  /** java.time.ZoneOffset admits offsets of at most 18 hours either way. */
  const MaxOffsetSeconds := 18 * 3600

  predicate IsZoneOffset(offsetSeconds: int) {
    -MaxOffsetSeconds <= offsetSeconds <= MaxOffsetSeconds
  }

  predicate IsLeapYear(y: int) {
    y % 4 == 0 && (y % 100 != 0 || y % 400 == 0)
  }

  /** The number of leap years among the years before `y`, counted from a fixed origin. */
  function LeapYearsBefore(y: int): int {
    (y - 1) / 4 - (y - 1) / 100 + (y - 1) / 400
  }

  /** The epoch day (1970-01-01 is day 0) of 1 January of year `y`. */
  function YearStart(y: int): int {
    365 * (y - 1970) + LeapYearsBefore(y) - LeapYearsBefore(1970)
  }

  lemma DivisorStep(y: int)
    ensures y / 4 - (y - 1) / 4 == (if y % 4 == 0 then 1 else 0)
    ensures y / 100 - (y - 1) / 100 == (if y % 100 == 0 then 1 else 0)
    ensures y / 400 - (y - 1) / 400 == (if y % 400 == 0 then 1 else 0)
  {
  }

  /** A year has 366 days exactly when it is a leap year, and 365 otherwise. */
  lemma YearLength(y: int)
    ensures YearStart(y + 1) - YearStart(y) == if IsLeapYear(y) then 366 else 365
  {
    DivisorStep(y);
  }

  /** Later years start later, by at least 365 days a year. */
  lemma {:induction false} YearStartGrows(a: int, b: int)
    requires a <= b
    ensures YearStart(a) + 365 * (b - a) <= YearStart(b)
    decreases b - a
  {
    if a < b {
      YearLength(a);
      YearStartGrows(a + 1, b);
    }
  }

  /** The year holding epoch day `d`, searched for by bisection between `lo` and `hi`. */
  function YearBetween(d: int, lo: int, hi: int): (y: int)
    requires lo < hi && YearStart(lo) <= d < YearStart(hi)
    ensures lo <= y < hi
    ensures YearStart(y) <= d < YearStart(y + 1)
    decreases hi - lo
  {
    if lo + 1 == hi then lo
    else
      var mid := lo + (hi - lo) / 2;
      if YearStart(mid) <= d then YearBetween(d, mid, hi) else YearBetween(d, lo, mid)
  }

  /** LocalDate.getYear() of the epoch day `d`; the model needs only days from 1969 on. */
  function YearOfDay(d: int): (y: int)
    requires d >= YearStart(1969)
    ensures YearStart(y) <= d < YearStart(y + 1)
  {
    var hi := if d < 0 then 1970 else 1971 + d / 365;
    YearStartGrows(1970, hi);
    YearBetween(d, 1969, hi)
  }

  /** Every epoch day lies in exactly one year. */
  lemma YearUnique(d: int, y1: int, y2: int)
    requires YearStart(y1) <= d < YearStart(y1 + 1)
    requires YearStart(y2) <= d < YearStart(y2 + 1)
    ensures y1 == y2
  {
    if y1 < y2 {
      YearStartGrows(y1 + 1, y2);
    } else if y2 < y1 {
      YearStartGrows(y2 + 1, y1);
    }
  }

  /** The local epoch day of an instant: floorDiv(floorDiv(millis, 1000) + offset, 86400). */
  function LocalEpochDay(millis: int, offsetSeconds: int): int {
    (millis / MillisPerSecond + offsetSeconds) / SecondsPerDay
  }

  /** The calendar year of a non-negative instant in a zone with the given offset. */
  function YearOf(millis: int, offsetSeconds: int): (y: int)
    requires millis >= 0 && IsZoneOffset(offsetSeconds)
    ensures YearStart(y) <= LocalEpochDay(millis, offsetSeconds) < YearStart(y + 1)
  {
    YearOfDay(LocalEpochDay(millis, offsetSeconds))
  }

  /** The year holding day `d` lies in [first, last] exactly when `d` lies between the starts of `first` and `last + 1`. */
  lemma YearBand(d: int, y: int, first: int, last: int)
    requires YearStart(y) <= d < YearStart(y + 1) && first <= last
    ensures first <= y <= last <==> YearStart(first) <= d < YearStart(last + 1)
  {
    if first <= y <= last {
      YearStartGrows(first, y);
      YearStartGrows(y + 1, last + 1);
    } else if y < first {
      YearStartGrows(y + 1, first);
    } else {
      YearStartGrows(last + 1, y);
    }
  }

  /** A year lies in [first, last] exactly when its day lies between the starts of `first` and `last + 1`. */
  lemma YearWindow(d: int, first: int, last: int)
    requires d >= YearStart(1969) && first <= last
    ensures first <= YearOfDay(d) <= last <==> YearStart(first) <= d < YearStart(last + 1)
  {
    YearBand(d, YearOfDay(d), first, last);
  }
}
