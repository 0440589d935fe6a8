/**
 * The stepping counters and the death-date projection.
 *
 * Each counter walks a cursor forward one calendar unit at a time while it
 * is strictly before a target instant and returns the number of steps. The
 * reading of the clock is the parameter `now`.
 */
module Counters {
  import opened Civil
  import opened Instant

  /** The cursor after `n` single-day steps `AddDate(0, 0, 1)`. */
  function DaySteps(t: Time, n: nat): Time {
    if n == 0 then t else AddYearsDays(DaySteps(t, n - 1), 0, 1)
  }

  /** The cursor after `n` single-year steps `AddDate(1, 0, 0)`. */
  function YearSteps(t: Time, n: nat): Time {
    if n == 0 then t else AddYearsDays(YearSteps(t, n - 1), 1, 0)
  }

  /**
   * Whole days from `start` to `target`, a started day counting as a full one;
   * zero when `target` is not after `start`.
   */
  function CeilDays(start: Time, target: Time): nat {
    if !Before(start, target) then 0
    else target.day - start.day + (if start.clock < target.clock then 1 else 0)
  }

  /** Day steps are whole-day offsets that keep the time of day. */
  lemma {:induction false} DayStepsOffset(t: Time, n: nat)
    ensures DaySteps(t, n) == Time(t.day + n, t.clock)
  {
    if n > 0 {
      DayStepsOffset(t, n - 1);
      AddDaysIsOffset(DaySteps(t, n - 1), 1);
    }
  }

  /** After `n` year steps the cursor has moved between 365n and 366n days. */
  lemma {:induction false} YearStepsBounds(t: Time, n: nat)
    ensures t.day + 365 * n <= YearSteps(t, n).day <= t.day + 366 * n
    ensures YearSteps(t, n).clock == t.clock
  {
    if n > 0 {
      YearStepsBounds(t, n - 1);
      YearStepLength(YearSteps(t, n - 1));
    }
  }

  /** `CeilDays` is, in Unix seconds, the rounded-up quotient of the gap by a day. */
  lemma CeilDaysInSeconds(start: Time, target: Time)
    ensures Unix(start) + CeilDays(start, target) * SecondsPerDay >= Unix(target)
    ensures CeilDays(start, target) > 0 ==> Unix(start) + (CeilDays(start, target) - 1) * SecondsPerDay < Unix(target)
  {
    BeforeIsUnixOrder(start, target);
  }

  /**
   * Steps a cursor one day at a time from `start` while it is strictly before
   * `target`: the loop shared by `calculateAgeInDays` and
   * `countProjectedDaysRemaining`. The count is the least number of steps
   * after which the cursor is no longer before `target`.
   */
  method CountDays(start: Time, target: Time) returns (count: nat)
    ensures !Before(DaySteps(start, count), target)
    ensures forall k :: 0 <= k < count ==> Before(DaySteps(start, k), target)
    ensures count == CeilDays(start, target)
  {
    var cursor := start;
    count := 0;
    while Before(cursor, target)
      invariant cursor == Time(start.day + count, start.clock)
      invariant count > 0 ==> Before(Time(start.day + count - 1, start.clock), target)
      decreases target.day - cursor.day
    {
      AddDaysIsOffset(cursor, 1);
      cursor := AddYearsDays(cursor, 0, 1);
      count := count + 1;
    }
    DayStepsOffset(start, count);
    forall k | 0 <= k < count
      ensures Before(DaySteps(start, k), target)
    {
      DayStepsOffset(start, k);
    }
  }

  /** `calculateAgeInDays`: day steps from the birth instant until it is no longer before `now`. */
  method AgeInDays(birth: Time, now: Time) returns (days: nat)
    ensures days == 0 <==> !Before(birth, now)
    ensures !Before(DaySteps(birth, days), now)
    ensures days > 0 ==> Before(DaySteps(birth, days - 1), now)
    ensures days == CeilDays(birth, now)
  {
    days := CountDays(birth, now);
  }

  /** `countProjectedDaysRemaining`: day steps from `now` until it is no longer before the death date. */
  method DaysRemaining(death: Time, now: Time) returns (days: nat)
    ensures days == 0 <==> !Before(now, death)
    ensures !Before(DaySteps(now, days), death)
    ensures days > 0 ==> Before(DaySteps(now, days - 1), death)
    ensures days == CeilDays(now, death)
  {
    days := CountDays(now, death);
  }

  /**
   * `calculateAgeInYears`: single-year steps from the birth instant until it
   * is no longer before `now`. Each step re-normalises the cursor, so a
   * February 29 birth is on March 1 from the first step on.
   */
  method AgeInYears(birth: Time, now: Time) returns (years: nat)
    ensures years == 0 <==> !Before(birth, now)
    ensures !Before(YearSteps(birth, years), now)
    ensures forall k :: 0 <= k < years ==> Before(YearSteps(birth, k), now)
  {
    var cursor := birth;
    years := 0;
    while Before(cursor, now)
      invariant cursor == YearSteps(birth, years)
      invariant cursor.day >= birth.day + 365 * years
      invariant years > 0 ==> Before(YearSteps(birth, years - 1), now)
      invariant years > 0 ==> Before(birth, now)
      decreases now.day - cursor.day + 1
    {
      YearStepLength(cursor);
      YearStepAfter(birth, years + 1, cursor);
      cursor := AddYearsDays(cursor, 1, 0);
      years := years + 1;
    }
    EarlierYearStepsBefore(birth, now, years);
  }

  /** If the (n-1)-th year step is before `now`, so are all earlier ones. */
  lemma EarlierYearStepsBefore(birth: Time, now: Time, n: nat)
    requires n > 0 ==> Before(YearSteps(birth, n - 1), now)
    ensures forall k :: 0 <= k < n ==> Before(YearSteps(birth, k), now)
  {
    forall k | 0 <= k < n - 1
      ensures Before(YearSteps(birth, k), now)
    {
      YearStepsIncrease(birth, k, n - 1);
    }
  }

  /** Year steps move strictly forward. */
  lemma {:induction false} YearStepsIncrease(t: Time, j: nat, k: nat)
    requires j < k
    ensures Before(YearSteps(t, j), YearSteps(t, k))
    decreases k - j
  {
    YearStepLength(YearSteps(t, k - 1));
    YearStepAfter(t, k, YearSteps(t, k - 1));
    if j < k - 1 {
      YearStepsIncrease(t, j, k - 1);
    }
  }

  /**
   * Completed years of age: the number of whole single-year steps from the
   * birth instant that do not pass `now`; zero when birth is after `now`.
   */
  method CompletedYears(birth: Time, now: Time) returns (years: nat)
    ensures Before(now, birth) ==> years == 0
    ensures !Before(now, birth) ==> !Before(now, YearSteps(birth, years))
    ensures Before(now, YearSteps(birth, years + 1)) || Before(now, birth)
  {
    if Before(now, birth) {
      return 0;
    }
    var cursor := birth;
    years := 0;
    YearStepLength(cursor);
    var next := AddYearsDays(cursor, 1, 0);
    while !Before(now, next)
      invariant cursor == YearSteps(birth, years)
      invariant next == YearSteps(birth, years + 1)
      invariant next.day > cursor.day
      invariant !Before(now, cursor)
      decreases now.day - cursor.day
    {
      cursor := next;
      years := years + 1;
      YearStepLength(cursor);
      YearStepAfter(birth, years + 1, cursor);
      next := AddYearsDays(cursor, 1, 0);
    }
  }

  /**
   * The year count of `calculateAgeInYears` against completed years: one
   * more, unless `now` falls exactly on a step from the birth instant.
   */
  lemma CeilingAgainstCompletedYears(birth: Time, now: Time, completed: nat, counted: nat)
    requires Before(birth, now)
    requires !Before(now, YearSteps(birth, completed)) && Before(now, YearSteps(birth, completed + 1))
    requires !Before(YearSteps(birth, counted), now)
    requires forall k :: 0 <= k < counted ==> Before(YearSteps(birth, k), now)
    ensures YearSteps(birth, completed) == now ==> counted == completed
    ensures YearSteps(birth, completed) != now ==> counted == completed + 1
  {
    if counted < completed {
      YearStepsIncrease(birth, counted, completed);
    }
  }

  /**
   * Within the first year of life, strictly after birth, the year count of
   * `calculateAgeInYears` is already 1 while no year is completed.
   */
  lemma AgeInYearsWithinFirstYear(birth: Time, now: Time, counted: nat)
    requires Before(birth, now) && Before(now, YearSteps(birth, 1))
    requires !Before(YearSteps(birth, counted), now)
    requires forall k :: 0 <= k < counted ==> Before(YearSteps(birth, k), now)
    ensures counted == 1
  {
  }

  /**
   * Born at the Unix epoch and observed one day later: the year count of
   * `calculateAgeInYears` is 1, while zero years are completed.
   */
  lemma AgeInYearsOneDayOld(counted: nat)
    requires !Before(YearSteps(Time(0, 0), counted), Time(1, 0))
    requires forall k :: 0 <= k < counted ==> Before(YearSteps(Time(0, 0), k), Time(1, 0))
    ensures counted == 1
    ensures !Before(Time(1, 0), YearSteps(Time(0, 0), 0)) && Before(Time(1, 0), YearSteps(Time(0, 0), 1))
  {
    EpochYearStep();
    AgeInYearsWithinFirstYear(Time(0, 0), Time(1, 0), counted);
  }

  /** One year after the Unix epoch is day 365. */
  lemma EpochYearStep()
    ensures YearSteps(Time(0, 0), 1) == Time(365, 0)
  {
    CivilRoundTrip(Date(1970, 1, 1));
    assert YearStart(1971) == 365;
  }

  /**
   * The day and year counts agree up to the leap days: with `years` the
   * least year count reaching `now`, the day count lies in
   * (365 * (years - 1), 366 * years].
   */
  lemma DaysAgainstYears(birth: Time, now: Time, years: nat)
    requires !Before(YearSteps(birth, years), now)
    requires years > 0 ==> Before(YearSteps(birth, years - 1), now)
    requires years == 0 ==> !Before(birth, now)
    ensures years > 0 ==> 365 * (years - 1) < CeilDays(birth, now)
    ensures CeilDays(birth, now) <= 366 * years
  {
    YearStepsBounds(birth, years);
    if years > 0 {
      YearStepsBounds(birth, years - 1);
    }
  }

  /**
   * The bound `|ageInDays - 365 * ageInYears| <= 366` holds for every year
   * count up to 366.
   */
  lemma DaysAgainstYearsWithinALeapYear(birth: Time, now: Time, years: nat)
    requires !Before(YearSteps(birth, years), now)
    requires years > 0 ==> Before(YearSteps(birth, years - 1), now)
    requires years == 0 ==> !Before(birth, now)
    requires years <= 366
    ensures 365 * years - 366 <= CeilDays(birth, now) <= 365 * years + 366
  {
    DaysAgainstYears(birth, now, years);
  }

  /**
   * `calculateProjectedDeathDate` with the expectancy already split into
   * whole years and remainder days: the birthday is advanced by `age` years,
   * then by `yearsToAdd` years and `daysToAdd` days in one normalisation.
   */
  function ProjectedDeathDate(birthday: Time, age: int, yearsToAdd: int, daysToAdd: int): (r: Time)
    ensures r.day == AddYearsDays(AddYearsDays(birthday, age, 0), yearsToAdd, 0).day + daysToAdd
    ensures r.clock == birthday.clock
  {
    AddYearsDays(AddYearsDays(birthday, age, 0), yearsToAdd, daysToAdd)
  }

  /** The day offset may equally be applied after the year step, as a separate `AddDate(0, 0, days)`. */
  lemma DeathDateDaysLast(birthday: Time, age: int, yearsToAdd: int, daysToAdd: int)
    ensures ProjectedDeathDate(birthday, age, yearsToAdd, daysToAdd)
         == AddYearsDays(AddYearsDays(AddYearsDays(birthday, age, 0), yearsToAdd, 0), 0, daysToAdd)
  {
    AddDaysIsOffset(AddYearsDays(AddYearsDays(birthday, age, 0), yearsToAdd, 0), daysToAdd);
  }

  /**
   * The two normalisations against one: advancing by `age` years and then
   * by `yearsToAdd` years and `daysToAdd` days is advancing by
   * `age + yearsToAdd` years and `daysToAdd` days at once, except for a
   * February 29 birthday whose `age`-th anniversary falls in a common year
   * (and so moves to March 1) while the final year is a leap year; then the
   * projection is exactly one day later.
   */
  lemma DeathDateAgainstOneNormalisation(birthday: Time, age: int, yearsToAdd: int, daysToAdd: int)
    ensures
      var c := DateOf(birthday);
      var single := AddYearsDays(birthday, age + yearsToAdd, daysToAdd);
      ProjectedDeathDate(birthday, age, yearsToAdd, daysToAdd)
        == if c.month == 2 && c.day == 29 && !IsLeap(c.year + age) && IsLeap(c.year + age + yearsToAdd)
           then Time(single.day + 1, single.clock)
           else single
  {
    DateAfterYears(birthday, age);
  }

  /** Year steps from February 29 land on March 1 every year from the first step on. */
  lemma {:induction false} YearStepsFromLeapDay(y: int, n: nat)
    requires IsLeap(y) && n >= 1
    ensures YearSteps(Midnight(Date(y, 2, 29)), n) == Midnight(Date(y + n, 3, 1))
  {
    var b := Midnight(Date(y, 2, 29));
    if n == 1 {
      YearStepAfter(b, 1, b);
      LeapDayPlusYear(y);
    } else {
      var z := y + n - 1;
      var prev := Midnight(Date(z, 3, 1));
      YearStepsFromLeapDay(y, n - 1);
      YearStepAfter(b, n, prev);
      MarchFirstPlusYear(z);
      assert z + 1 == y + n;
    }
  }

  /** The n-th year step is one `AddDate(1, 0, 0)` from the (n-1)-th. */
  lemma YearStepAfter(t: Time, n: nat, previous: Time)
    requires n >= 1 && YearSteps(t, n - 1) == previous
    ensures YearSteps(t, n) == AddYearsDays(previous, 1, 0)
  {
  }

  /** March 1 plus one year is March 1 of the next year. */
  lemma MarchFirstPlusYear(y: int)
    ensures AddYearsDays(Midnight(Date(y, 3, 1)), 1, 0) == Midnight(Date(y + 1, 3, 1))
  {
    AddYearsMidnight(Date(y, 3, 1), 1);
  }

  /** Four years from February 29 of a leap year is February 29 again when that year is leap. */
  lemma LeapDayPlusFourYears(y: int)
    requires IsLeap(y) && IsLeap(y + 4)
    ensures AddYearsDays(Midnight(Date(y, 2, 29)), 4, 0) == Midnight(Date(y + 4, 2, 29))
  {
    AddYearsMidnight(Date(y, 2, 29), 4);
  }

  /** In a leap year March 1 is the day after February 29. */
  lemma MarchFirstAfterLeapDay(y: int)
    requires IsLeap(y)
    ensures Midnight(Date(y, 3, 1)).day == Midnight(Date(y, 2, 29)).day + 1
  {
  }

  /**
   * Repeated single-year stepping is not one multi-year `AddDate`: four steps
   * from February 29 reach March 1, four years at once reach February 29.
   */
  lemma StepsDifferFromOneAddDate(y: int)
    requires IsLeap(y) && IsLeap(y + 4)
    ensures YearSteps(Midnight(Date(y, 2, 29)), 4).day == AddYearsDays(Midnight(Date(y, 2, 29)), 4, 0).day + 1
  {
    YearStepsFromLeapDay(y, 4);
    LeapDayPlusFourYears(y);
    MarchFirstAfterLeapDay(y + 4);
  }

  /** One day after February 29 of a leap year, then one year, is March 1 of the next year. */
  lemma DayThenYearFromLeapDay(y: int)
    requires IsLeap(y)
    ensures AddYearsDays(AddYearsDays(Midnight(Date(y, 2, 29)), 0, 1), 1, 0) == Midnight(Date(y + 1, 3, 1))
  {
    LeapDayPlusOneDay(y);
    MarchFirstPlusYear(y);
  }

  /** One day after February 29 of a leap year is March 1. */
  lemma LeapDayPlusOneDay(y: int)
    requires IsLeap(y)
    ensures AddYearsDays(Midnight(Date(y, 2, 29)), 0, 1) == Midnight(Date(y, 3, 1))
  {
    AddDaysIsOffset(Midnight(Date(y, 2, 29)), 1);
    MarchFirstAfterLeapDay(y);
  }

  /** One year after February 29 of a leap year, then one day, is March 2 of the next year. */
  lemma YearThenDayFromLeapDay(y: int)
    requires IsLeap(y)
    ensures ProjectedDeathDate(Midnight(Date(y, 2, 29)), 0, 1, 1).day == Midnight(Date(y + 1, 3, 1)).day + 1
  {
    var b := Midnight(Date(y, 2, 29));
    AddDaysIsOffset(b, 0);
    LeapDayPlusYear(y);
  }

  /**
   * The projection adds the years before the days, which matters across a
   * leap day: from February 29, one year then one day is one day later than
   * one day then one year.
   */
  lemma DeathDateYearsBeforeDays(y: int)
    requires IsLeap(y)
    ensures ProjectedDeathDate(Midnight(Date(y, 2, 29)), 0, 1, 1).day
         == AddYearsDays(AddYearsDays(Midnight(Date(y, 2, 29)), 0, 1), 1, 0).day + 1
  {
    YearThenDayFromLeapDay(y);
    DayThenYearFromLeapDay(y);
  }

  /**
   * The birthday is advanced by the age and then by the expectancy's whole
   * years, two normalisations: for a February 29 birth this is one day later
   * than the birthday advanced by their sum in one step.
   */
  lemma DeathDateTwoYearSteps(y: int)
    requires IsLeap(y) && IsLeap(y + 4)
    ensures ProjectedDeathDate(Midnight(Date(y, 2, 29)), 1, 3, 0).day
         == AddYearsDays(Midnight(Date(y, 2, 29)), 4, 0).day + 1
  {
    var b := Midnight(Date(y, 2, 29));
    assert ProjectedDeathDate(b, 1, 3, 0).day == AddYearsDays(AddYearsDays(b, 1, 0), 3, 0).day;
    LeapDayPlusYear(y);
    AddYearsMidnight(Date(y + 1, 3, 1), 3);
    LeapDayPlusFourYears(y);
    MarchFirstAfterLeapDay(y + 4);
  }
}
