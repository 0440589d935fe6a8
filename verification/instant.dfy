/**
 * Instants and Go's `Time.AddDate`, in UTC.
 *
 * An instant is a day number and a time of day in seconds; its Unix time is
 * `day * 86400 + clock`. Every day is 86400 seconds long: the model has no
 * zones, no daylight saving time, no leap seconds and no sub-second part.
 */
module Instant {
  import opened Civil

  const SecondsPerDay: int := 86400

  type Clock = c: int | 0 <= c < SecondsPerDay

  datatype Time = Time(day: int, clock: Clock)

  /** Seconds since 1970-01-01T00:00:00Z. */
  function Unix(t: Time): int {
    t.day * SecondsPerDay + t.clock
  }

  /** The instant at which a civil day begins (midnight UTC). */
  function Midnight(d: Date): Time
    requires 1 <= d.month <= 12
  {
    Time(DayNumber(d), 0)
  }

  /** `Time.Before`: strictly earlier, compared day first, then time of day. */
  predicate Before(t: Time, u: Time) {
    t.day < u.day || (t.day == u.day && t.clock < u.clock)
  }

  /** `Before` is the order of Unix seconds. */
  lemma BeforeIsUnixOrder(t: Time, u: Time)
    ensures Before(t, u) <==> Unix(t) < Unix(u)
  {
    if t.day < u.day {
      assert (u.day - t.day) * SecondsPerDay >= SecondsPerDay;
    } else if u.day < t.day {
      assert (t.day - u.day) * SecondsPerDay >= SecondsPerDay;
    }
  }

  /** The civil date on which an instant falls. */
  function DateOf(t: Time): (d: Date)
    ensures Valid(d)
    ensures DayNumber(d) == t.day
  {
    CivilFromDays(t.day)
  }

  /**
   * Month `m` of year `y` moved by `months` months, one month at a time, so
   * that whole years carry out of (or borrow into) the month field.
   */
  function CarryMonths(y: int, m: int, months: int): (r: (int, int))
    requires 1 <= m <= 12
    ensures 1 <= r.1 <= 12
    ensures 12 * r.0 + r.1 == 12 * y + m + months
    decreases if months < 0 then -months else months
  {
    if months == 0 then (y, m)
    else if months > 0 then
      var (ny, nm) := NextMonth(y, m);
      CarryMonths(ny, nm, months - 1)
    else
      var (py, pm) := PrevMonth(y, m);
      CarryMonths(py, pm, months + 1)
  }

  /**
   * The month carry is Go's normalisation of the zero-based month by floor
   * division by 12.
   */
  lemma CarryMonthsIsFloorDivision(y: int, m: int, months: int)
    requires 1 <= m <= 12
    ensures CarryMonths(y, m, months) == (y + (m - 1 + months) / 12, (m - 1 + months) % 12 + 1)
  {
    var r := CarryMonths(y, m, months);
    var m0 := m - 1 + months;
    assert m0 == 12 * (m0 / 12) + m0 % 12;
    SameMonthIndex(r.0, r.1, y + m0 / 12, m0 % 12 + 1);
  }

  /** A year and a month in 1..12 are determined by the month index 12 * year + month. */
  lemma SameMonthIndex(y1: int, m1: int, y2: int, m2: int)
    requires 1 <= m1 <= 12 && 1 <= m2 <= 12
    requires 12 * y1 + m1 == 12 * y2 + m2
    ensures y1 == y2 && m1 == m2
  {
  }

  /**
   * `t.AddDate(years, months, days)`: add to the fields of t's civil date,
   * carry whole years out of the month field, then let the day field count
   * on from the first of the resulting month; the time of day is kept.
   */
  function AddDate(t: Time, years: int, months: int, days: int): (r: Time)
    ensures r.clock == t.clock
  {
    var c := DateOf(t);
    var ym := CarryMonths(c.year + years, c.month, months);
    Time(MonthStart(ym.0, ym.1) + c.day - 1 + days, t.clock)
  }

  /**
   * `t.AddDate(years, 0, days)`, the only shape in which the program calls
   * `AddDate`: with no months to carry, the year moves and the day field
   * counts on from the first of the same month.
   */
  function AddYearsDays(t: Time, years: int, days: int): (r: Time)
    ensures r.clock == t.clock
  {
    var c := DateOf(t);
    Time(MonthStart(c.year + years, c.month) + c.day - 1 + days, t.clock)
  }

  /** `AddYearsDays` is `AddDate` with a zero month argument. */
  lemma AddYearsDaysIsAddDate(t: Time, years: int, days: int)
    ensures AddYearsDays(t, years, days) == AddDate(t, years, 0, days)
  {
    var c := DateOf(t);
    assert CarryMonths(c.year + years, c.month, 0) == (c.year + years, c.month);
  }

  /**
   * Day overflow is not normalised against the month: whatever the years and
   * months, the days argument only shifts the result by whole days.
   */
  lemma DaysAreOffset(t: Time, years: int, months: int, days: int)
    ensures AddDate(t, years, months, days).day == AddDate(t, years, months, 0).day + days
  {
  }

  /** Twelve months carry into one year. */
  lemma MonthsCarry(t: Time, years: int, months: int, days: int)
    ensures AddDate(t, years, months + 12, days) == AddDate(t, years + 1, months, days)
  {
    var c := DateOf(t);
    var a := CarryMonths(c.year + years, c.month, months + 12);
    var b := CarryMonths(c.year + years + 1, c.month, months);
    SameMonthIndex(a.0, a.1, b.0, b.1);
  }

  /** Adding days alone is a plain offset of whole days. */
  lemma AddDaysIsOffset(t: Time, days: int)
    ensures AddYearsDays(t, 0, days) == Time(t.day + days, t.clock)
    ensures Unix(AddYearsDays(t, 0, days)) == Unix(t) + days * SecondsPerDay
  {
  }

  /** One year step moves an instant forward by 365 or 366 whole days. */
  lemma YearStepLength(t: Time)
    ensures AddYearsDays(t, 1, 0).day - t.day == 365 || AddYearsDays(t, 1, 0).day - t.day == 366
  {
    var c := DateOf(t);
    YearStartStep(c.year);
    YearStartStep(c.year + 1);
  }

  /** Adding whole years to a midnight keeps month and day and re-counts from the new year. */
  lemma AddYearsMidnight(d: Date, years: int)
    requires Valid(d)
    ensures AddYearsDays(Midnight(d), years, 0) == Time(MonthStart(d.year + years, d.month) + d.day - 1, 0)
  {
    CivilRoundTrip(d);
  }

  /**
   * The civil date after adding whole years: the same month and day, except
   * that February 29 landing in a common year is normalised to March 1.
   */
  lemma DateAfterYears(t: Time, years: int)
    ensures
      var c := DateOf(t);
      DateOf(AddYearsDays(t, years, 0))
        == if c.month == 2 && c.day == 29 && !IsLeap(c.year + years) then Date(c.year + years, 3, 1)
           else Date(c.year + years, c.month, c.day)
  {
    var c := DateOf(t);
    if c.month == 2 && c.day == 29 && !IsLeap(c.year + years) {
      CivilRoundTrip(Date(c.year + years, 3, 1));
    } else {
      CivilRoundTrip(Date(c.year + years, c.month, c.day));
    }
  }

  /** February 29 plus one year is March 1 of the following, common, year. */
  lemma LeapDayPlusYear(y: int)
    requires IsLeap(y)
    ensures AddYearsDays(Midnight(Date(y, 2, 29)), 1, 0) == Midnight(Date(y + 1, 3, 1))
  {
    assert (y + 1) % 4 == 1;
    AddYearsMidnight(Date(y, 2, 29), 1);
  }
}
