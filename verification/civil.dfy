/**
 * Proleptic Gregorian civil dates and their day numbers.
 *
 * A day number counts days from the Unix epoch, 1970-01-01 (day 0). Days
 * outside the month's range are normalised by carrying into the neighbouring
 * months, which is how Go's `time.Date` treats day overflow.
 */
module Civil {

  datatype Date = Date(year: int, month: int, day: int)

  predicate IsLeap(y: int) {
    y % 4 == 0 && (y % 100 != 0 || y % 400 == 0)
  }

  function DaysInYear(y: int): int {
    if IsLeap(y) then 366 else 365
  }

  function DaysIn(y: int, m: int): (n: int)
    requires 1 <= m <= 12
    ensures 28 <= n <= 31
  {
    if m == 2 then (if IsLeap(y) then 29 else 28)
    else if m == 4 || m == 6 || m == 9 || m == 11 then 30
    else 31
  }

  predicate Valid(d: Date) {
    1 <= d.month <= 12 && 1 <= d.day <= DaysIn(d.year, d.month)
  }

  /** Day number of January 1 of year `y`, counted year by year from 1970. */
  function YearStart(y: int): int
    decreases if y < 1970 then 1970 - y else y - 1970
  {
    if y == 1970 then 0
    else if y > 1970 then YearStart(y - 1) + DaysInYear(y - 1)
    else YearStart(y + 1) - DaysInYear(y)
  }

  /** Days of year `y` that precede the first of month `m`. */
  function DaysBeforeMonth(y: int, m: int): int
    requires 1 <= m <= 12
  {
    var table := [0, 31, 59, 90, 120, 151, 181, 212, 243, 273, 304, 334];
    table[m - 1] + (if m > 2 && IsLeap(y) then 1 else 0)
  }

  /** Day number of the first of month `m` of year `y`. */
  function MonthStart(y: int, m: int): int
    requires 1 <= m <= 12
  {
    YearStart(y) + DaysBeforeMonth(y, m)
  }

  /**
   * Day number of a (year, month, day) triple; the day may lie outside the
   * month, in which case it counts on from (or back before) the month's first.
   */
  function DayNumber(d: Date): int
    requires 1 <= d.month <= 12
  {
    MonthStart(d.year, d.month) + d.day - 1
  }

  function NextMonth(y: int, m: int): (r: (int, int))
    requires 1 <= m <= 12
    ensures 1 <= r.1 <= 12
  {
    if m == 12 then (y + 1, 1) else (y, m + 1)
  }

  function PrevMonth(y: int, m: int): (r: (int, int))
    requires 1 <= m <= 12
    ensures 1 <= r.1 <= 12
  {
    if m == 1 then (y - 1, 12) else (y, m - 1)
  }

  /** Consecutive years start 365 or 366 days apart, according to the leap rule. */
  lemma YearStartStep(y: int)
    ensures YearStart(y + 1) == YearStart(y) + DaysInYear(y)
  {
  }

  /** The first of the next month lies exactly one month length later. */
  lemma MonthStartStep(y: int, m: int)
    requires 1 <= m <= 12
    ensures MonthStart(NextMonth(y, m).0, NextMonth(y, m).1) == MonthStart(y, m) + DaysIn(y, m)
  {
    if m == 12 {
      YearStartStep(y);
    }
  }

  /**
   * Go's normalisation of a day outside its month: the result is a valid date
   * with the same day number.
   */
  function Normalize(y: int, m: int, d: int): (r: Date)
    requires 1 <= m <= 12
    ensures Valid(r)
    ensures DayNumber(r) == MonthStart(y, m) + d - 1
    decreases if d < 1 then 1 - d else 0, if d > 0 then d else 0
  {
    if d < 1 then
      var (py, pm) := PrevMonth(y, m);
      MonthStartStep(py, pm);
      Normalize(py, pm, d + DaysIn(py, pm))
    else if d > DaysIn(y, m) then
      var (ny, nm) := NextMonth(y, m);
      MonthStartStep(y, m);
      Normalize(ny, nm, d - DaysIn(y, m))
    else
      Date(y, m, d)
  }

  lemma {:induction false} YearStartMonotone(a: int, b: int)
    requires a < b
    ensures YearStart(a + 1) <= YearStart(b)
    decreases b - a
  {
    if a + 1 < b {
      YearStartMonotone(a + 1, b);
      YearStartStep(a + 1);
    }
  }

  /** A valid date's day number falls inside its own year. */
  lemma WithinYear(d: Date)
    requires Valid(d)
    ensures YearStart(d.year) <= DayNumber(d) < YearStart(d.year + 1)
  {
    YearStartStep(d.year);
  }

  /** Distinct months of one year cover disjoint ranges of day numbers. */
  lemma MonthsOrdered(y: int, m1: int, m2: int)
    requires 1 <= m1 < m2 <= 12
    ensures MonthStart(y, m1) + DaysIn(y, m1) <= MonthStart(y, m2)
  {
  }

  /** Day numbers identify valid dates: no two valid dates share one. */
  lemma {:induction false} DayNumberInjective(a: Date, b: Date)
    requires Valid(a) && Valid(b)
    requires DayNumber(a) == DayNumber(b)
    ensures a == b
  {
    WithinYear(a);
    WithinYear(b);
    if a.year < b.year {
      YearStartMonotone(a.year, b.year);
      assert false;
    } else if b.year < a.year {
      YearStartMonotone(b.year, a.year);
      assert false;
    }
    if a.month < b.month {
      MonthsOrdered(a.year, a.month, b.month);
      assert false;
    } else if b.month < a.month {
      MonthsOrdered(a.year, b.month, a.month);
      assert false;
    }
  }

  /** Injectivity of day numbers on valid dates, for every pair at once. */
  lemma DayNumbersIdentifyDates()
    ensures forall a: Date, b: Date :: Valid(a) && Valid(b) && DayNumber(a) == DayNumber(b) ==> a == b
  {
    forall a: Date, b: Date | Valid(a) && Valid(b) && DayNumber(a) == DayNumber(b)
      ensures a == b
    {
      DayNumberInjective(a, b);
    }
  }

  /**
   * The civil date of a day number: the one valid date with that day number.
   * `Normalize` shows that it exists, injectivity that it is unique.
   */
  function CivilFromDays(n: int): (r: Date)
    ensures Valid(r)
    ensures DayNumber(r) == n
  {
    var w := Normalize(1970, 1, n + 1);
    assert Valid(w) && DayNumber(w) == n;
    DayNumbersIdentifyDates();
    var r :| Valid(r) && DayNumber(r) == n;
    r
  }

  /** Converting a valid date to its day number and back gives the date again. */
  lemma CivilRoundTrip(d: Date)
    requires Valid(d)
    ensures CivilFromDays(DayNumber(d)) == d
  {
    DayNumberInjective(CivilFromDays(DayNumber(d)), d);
  }
}
