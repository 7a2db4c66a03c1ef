/**
 * Calendar values and their normalisation to UTC instants
 * (`_to_utc` in calendar-checker/checker.py).
 *
 * The DATE and DATE-TIME value types of RFC 5545 (sections 3.3.4 and 3.3.5)
 * reach the program as Python `date` and `datetime` objects. A date is
 * modelled by its day number (days since 1970-01-01 in the proleptic
 * Gregorian calendar), a time of day by its second, and a zoned date-time
 * by its wall-clock reading plus the zone's UTC offset in seconds.
 */
module CalendarTime {
  import opened Wrappers

  /** Whole seconds since 1970-01-01T00:00:00Z. */
  type Instant = int

  const SecondsPerDay: int := 86400

  /** A wall-clock reading: a day number and the second within that day. */
  datatype WallClock = WallClock(day: int, second: int)

  predicate ValidWallClock(w: WallClock) {
    0 <= w.second < SecondsPerDay
  }

  /** What the calendar library hands over as the `.dt` of DTSTART or DTEND. */
  datatype CalValue =
    | DateValue(date: int)                         // a DATE: all-day value
    | NaiveDateTime(wall: WallClock)               // a floating DATE-TIME: no zone attached
    | AwareDateTime(wall: WallClock, offset: int)  // a DATE-TIME in a zone with this UTC offset
    | OtherValue                                   // a TIME, DURATION or PERIOD value

  /** The seconds a wall-clock reading stands for when read on the UTC clock. */
  function WallSeconds(w: WallClock): int {
    w.day * SecondsPerDay + w.second
  }

  /**
   * `_to_utc`: a date gives midnight UTC of that date, a naive date-time is
   * read as UTC, an aware one is converted to the same instant in UTC, and
   * anything else gives no instant.
   */
  function ToUtc(v: CalValue): (r: Option<Instant>)
    ensures r.None? <==> v.OtherValue?
    ensures v.DateValue? ==> r.value % SecondsPerDay == 0 && r.value / SecondsPerDay == v.date
    ensures v.NaiveDateTime? && ValidWallClock(v.wall) ==>
              r.value / SecondsPerDay == v.wall.day && r.value % SecondsPerDay == v.wall.second
    ensures v.AwareDateTime? ==> r.value + v.offset == WallSeconds(v.wall)
  {
    match v
    case DateValue(d) => Some(d * SecondsPerDay)
    case NaiveDateTime(w) => Some(WallSeconds(w))
    case AwareDateTime(w, offset) => Some(WallSeconds(w) - offset)
    case OtherValue => None
  }

  /** The wall-clock reading of instant `t` in a zone with UTC offset `offset`. */
  function WallClockAt(t: Instant, offset: int): (w: WallClock)
    ensures ValidWallClock(w)
    ensures WallSeconds(w) == t + offset
  {
    WallClock((t + offset) / SecondsPerDay, (t + offset) % SecondsPerDay)
  }

  /** Converting a zoned reading to UTC and reading it back in the same zone gives the reading again. */
  lemma WallClockRoundTrip(w: WallClock, offset: int)
    requires ValidWallClock(w)
    ensures ToUtc(AwareDateTime(w, offset)).Some?
    ensures WallClockAt(ToUtc(AwareDateTime(w, offset)).value, offset) == w
  {
    var t := ToUtc(AwareDateTime(w, offset)).value;
    DivModUnique(t + offset, w.day, w.second);
  }

  /** Reading an instant in any zone and converting back to UTC gives the instant again. */
  lemma InstantRoundTrip(t: Instant, offset: int)
    ensures ToUtc(AwareDateTime(WallClockAt(t, offset), offset)) == Some(t)
  {
  }

  /** Two zoned readings of one instant normalise to the same UTC instant, whatever their zones. */
  lemma ZoneIndependent(t: Instant, offset1: int, offset2: int)
    ensures ToUtc(AwareDateTime(WallClockAt(t, offset1), offset1))
         == ToUtc(AwareDateTime(WallClockAt(t, offset2), offset2))
  {
    InstantRoundTrip(t, offset1);
    InstantRoundTrip(t, offset2);
  }

  /** A naive date-time is read as if its zone were UTC, and a date as its midnight. */
  lemma NaiveAndDateAsUtc(w: WallClock, d: int)
    ensures ToUtc(NaiveDateTime(w)) == ToUtc(AwareDateTime(w, 0))
    ensures ToUtc(DateValue(d)) == ToUtc(NaiveDateTime(WallClock(d, 0)))
  {
  }

  /** Distinct valid naive readings denote distinct instants. */
  lemma NaiveInjective(w1: WallClock, w2: WallClock)
    requires ValidWallClock(w1) && ValidWallClock(w2)
    requires ToUtc(NaiveDateTime(w1)) == ToUtc(NaiveDateTime(w2))
    ensures w1 == w2
  {
    WallClockRoundTrip(w1, 0);
    WallClockRoundTrip(w2, 0);
  }

  /** Euclidean division by a day is unique. */
  lemma DivModUnique(n: int, q: int, r: int)
    requires 0 <= r < SecondsPerDay && n == q * SecondsPerDay + r
    ensures n / SecondsPerDay == q && n % SecondsPerDay == r
  {
  }
}
