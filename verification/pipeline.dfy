/**
 * The calculation `main` performs once its inputs are parsed: age in days
 * and in years, the expectancy looked up for that age, the projected death
 * date and the days remaining until it.
 */
module Pipeline {
  import opened Instant
  import opened Counters
  import opened Table

  /** The figures the report prints, before formatting. */
  datatype Projection<V> = Projection(
    ageInDays: nat,
    ageInYears: nat,
    expectancy: V,
    death: Time,
    daysRemaining: nat)

  /**
   * `main`'s chain of calculations. `split` stands for the float arithmetic
   * that turns an expectancy into whole years and remaining days; `zero` is
   * the value a read of an absent age yields.
   */
  method Project<V>(data: Data<V>, sex: string, birthday: Time, now: Time, zero: V, split: V -> (int, int))
    returns (p: Projection<V>)
    ensures p.ageInDays == CeilDays(birthday, now)
    ensures !Before(YearSteps(birthday, p.ageInYears), now)
    ensures forall k :: 0 <= k < p.ageInYears ==> Before(YearSteps(birthday, k), now)
    ensures p.expectancy == Lookup(data, sex, p.ageInYears, zero)
    ensures p.death == ProjectedDeathDate(birthday, p.ageInYears, split(p.expectancy).0, split(p.expectancy).1)
    ensures p.daysRemaining == CeilDays(now, p.death)
    ensures p.daysRemaining == 0 <==> !Before(now, p.death)
  {
    var ageInDays := AgeInDays(birthday, now);
    var ageInYears := AgeInYears(birthday, now);
    var expectancy := Lookup(data, sex, ageInYears, zero);
    var (yearsToAdd, daysToAdd) := split(expectancy);
    var death := ProjectedDeathDate(birthday, ageInYears, yearsToAdd, daysToAdd);
    var daysRemaining := DaysRemaining(death, now);
    p := Projection(ageInDays, ageInYears, expectancy, death, daysRemaining);
  }
}
