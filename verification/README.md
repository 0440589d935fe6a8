# how-many-days-left, modelled in Dafny

`how-many-days-left` estimates how many days a person has left to live. It takes a birth date, a sex and a data year. It counts the person's age in days and in whole-year steps, and looks up the remaining life expectancy for that age in an actuarial table. It then projects a death date with Go's calendar arithmetic, counts the days from now until that date, and prints the counts with a thousands separator.

This project models that calculation in `main.go` and proves its properties:

- `civil.dfy` (module `Civil`): proleptic Gregorian dates and day numbers counted from 1970-01-01. `Normalize` moves an out-of-range day into the neighbouring months, as Go's `time.Date` does. `CivilFromDays` is the inverse of `DayNumber`.
- `instant.dfy` (module `Instant`): UTC instants, made of a day number and a time of day in seconds.
  - `Time.Before` is strict order.
  - `AddDate` models Go's `Time.AddDate`: add to the civil fields, carry months into years, then count the day field on from the first of the month.
  - `AddYearsDays` is the `(years, 0, days)` form that every call in the program uses. It is proved equal to `AddDate` with a zero month.
- `counters.dfy` (module `Counters`):
  - the three stepping loops `calculateAgeInDays`, `calculateAgeInYears` and `countProjectedDaysRemaining`, with the clock reading `now` as a parameter;
  - `calculateProjectedDeathDate`, taking the expectancy already split into whole years and days;
  - a completed-years reference count to compare against.
- `decimal.dfy` (module `Decimal`): `fmt.Sprint` of an `int` (`Itoa`) and `strconv.Atoi` (`Atoi`).
- `format.dfy` (module `Format`): `formatDays`, and conventional thousands grouping as a reference.
- `table.dfy` (module `Table`): `parseLifeExpectancyTable` over lines already split into fields, and the lookup `data[sex][age]`.
  - Expectancies have an opaque type `V`. The float parser is a parameter.
  - A Go map read of an absent key yields the zero value; here that value is a parameter.
- `pipeline.dfy` (module `Pipeline`): the chain of calculations in `main` (age, lookup, projection, days remaining).
- `wrappers.dfy` (module `Wrappers`): `Option` and `Result`.

Three behaviours of the code differ from what a reader might expect; the model follows the code:

- **Counting.** A reader might expect whole elapsed days and years. The loops count a started day or year as a full one.
  - `AgeInDays` returns `CeilDays`, the rounded-up quotient of the gap by a day.
  - When `now` is after the birth instant, `AgeInYears` returns one more than the completed years, unless `now` falls exactly on a yearly step from birth. When `now` is not after birth, both counts are 0. `CeilingAgainstCompletedYears` and `AgeInYearsOneDayOld` state this.
- **Death date.** One might read the death date as the birth date advanced by `age + yearsToAdd` years plus `daysToAdd` days. The code normalises twice: the birthday plus `age` years, then plus `yearsToAdd` years and `daysToAdd` days. `DeathDateAgainstOneNormalisation` proves the two agree for every input but one case. That case is a February 29 birthday whose `age`-th anniversary falls in a common year while year `birth year + age + yearsToAdd` is a leap year. There the code's date is exactly one day later.
- **Day bound.** The bound `|ageInDays - 365 * ageInYears| <= 366` is proved for year counts up to 366 (`DaysAgainstYearsWithinALeapYear`). The general statement proved is `365 * (years - 1) < days <= 366 * years` (`DaysAgainstYears`).

## Model

| member | source | states |
|---|---|---|
| Civil.Normalize | main.go:150 | A day outside its month carries into the neighbouring months: the result is a valid date whose day number is the month's first plus the day offset. |
| Civil.CivilRoundTrip | main.go:143 | A valid date turned into its day number and back is the same date, so the civil fields `AddDate` works on are the instant's own. |
| Civil.DayNumberInjective | main.go:143 | Two valid dates with the same day number are the same date. |
| Instant.BeforeIsUnixOrder | main.go:136 | `Before` is exactly the strict order of Unix seconds. |
| Instant.CarryMonthsIsFloorDivision | main.go:150 | Moving month by month is Go's normalisation of the zero-based month by floor division by 12. |
| Instant.MonthsCarry | main.go:150 | Twelve months in `AddDate` are one year. |
| Instant.DaysAreOffset | main.go:150 | The days argument of `AddDate` shifts the result by exactly that many whole days, whatever the years and months. |
| Instant.AddYearsDaysIsAddDate | main.go:150 | `AddDate(years, 0, days)` as the program calls it equals the general `AddDate` with a zero month. |
| Instant.AddDaysIsOffset | main.go:137 | `AddDate(0, 0, n)` moves an instant by n whole days, that is n * 86400 Unix seconds, and keeps the time of day. |
| Instant.YearStepLength | main.go:143 | One `AddDate(1, 0, 0)` moves an instant forward by 365 or 366 days. |
| Instant.DateAfterYears | main.go:150 | Adding whole years keeps the month and day, except that February 29 landing in a common year becomes March 1. |
| Instant.LeapDayPlusYear | main.go:143 | February 29 plus one year is March 1 of the following year. |
| Counters.CountDays | main.go:135-140 | The single-day stepping loop returns the least n such that start plus n days is not before the target; every smaller count is still before it. |
| Counters.AgeInDays | main.go:135-140 | `calculateAgeInDays` is 0 exactly when birth is not before `now`; otherwise it is the least n with birth plus n days not before `now`, i.e. the rounded-up day count. |
| Counters.CeilDaysInSeconds | main.go:135-140 | The day count is the ceiling of the gap in seconds divided by 86400. |
| Counters.AgeInYears | main.go:141-146 | `calculateAgeInYears` is 0 exactly when birth is not before `now`; otherwise after that many repeated one-year steps the cursor is not before `now`, and after each fewer it still was. |
| Counters.YearStepsIncrease | main.go:141-146 | Repeated year steps move strictly forward, so the loop's count is the least one reaching `now`. |
| Counters.DaysAgainstYears | main.go:135-146 | With the same birth and `now`, the day count lies in (365 * (years - 1), 366 * years]. |
| Counters.DaysAgainstYearsWithinALeapYear | main.go:135-146 | For year counts up to 366, the day count is within 366 of 365 times the year count. |
| Counters.CompletedYears | main.go:141-146 | Reference count of completed years: the greatest n whose n-th year step does not pass `now`, or 0 before birth. |
| Counters.CeilingAgainstCompletedYears | main.go:141-146 | The program's year count equals the completed years when `now` is exactly on a year step, and is one more otherwise. |
| Counters.AgeInYearsOneDayOld | main.go:141-146 | Born at the epoch and observed a day later, the program's year count is 1 while no year is completed. |
| Counters.YearStepsFromLeapDay | main.go:141-146 | From February 29 of a leap year, every repeated year step lands on March 1. |
| Counters.StepsDifferFromOneAddDate | main.go:141-146 | When year y and year y + 4 are both leap years, four single-year steps from February 29 of y end one day later than one four-year `AddDate`. |
| Counters.DaysRemaining | main.go:152-157 | `countProjectedDaysRemaining` is 0 exactly when the death date is not after `now`; otherwise it is the least n with `now` plus n days not before the death date. |
| Counters.ProjectedDeathDate | main.go:147-151 | The death date's day number is that of the birthday advanced by `age` years, then by `yearsToAdd` years, plus `daysToAdd`; the time of day is the birthday's. |
| Counters.DeathDateDaysLast | main.go:150 | Adding the days inside the second `AddDate` equals adding them afterwards with a separate `AddDate(0, 0, days)`. |
| Counters.DeathDateYearsBeforeDays | main.go:150 | From February 29 of a leap year, one year then one day ends one day later than one day then one year, so the order of the addition matters. |
| Counters.DeathDateAgainstOneNormalisation | main.go:147-151 | For every input the projection equals one advance by `age + yearsToAdd` years and `daysToAdd` days, except for a February 29 birthday with year `birth year + age` common and year `birth year + age + yearsToAdd` leap; there it is exactly one day later. |
| Counters.DeathDateTwoYearSteps | main.go:150 | When year y and year y + 4 are both leap years, a February 29 birth of y projected with age 1 and 3 more years ends one day later than one four-year advance. |
| Decimal.NatToStringMeaning | main.go:165 | The decimal text of a natural number denotes it and has no leading zero. |
| Decimal.ItoaLength | main.go:165-170 | `fmt.Sprint(n)` has at most 3 characters below 1000, exactly 4 below 10000, 5 below 100000, and at least 6 from there on. |
| Decimal.Atoi | main.go:89 | `strconv.Atoi` yields only 64-bit values, rejects the empty string, and reads a plain digit string in range as its value. |
| Decimal.AtoiItoa | main.go:89 | `strconv.Atoi` reads back `fmt.Sprint(n)` for every 64-bit n. |
| Decimal.AtoiRejectsNonDigit | main.go:89-92 | Any character other than a digit or a leading sign makes the age field an error. |
| Format.FormatDays | main.go:164-173 | Deleting the comma gives back `fmt.Sprint(days)`; there is at most one comma, exactly one from 1000 on, after the first digit below 10000 and after the first two from 10000. |
| Format.FormatDaysSmall | main.go:169-172 | Counts below 1000 are printed as plain `fmt.Sprint` text with no comma. |
| Format.FormatDaysExample999 | main.go:164-173 | 999 is printed "999". |
| Format.FormatDaysExample1000 | main.go:164-173 | 1000 is printed "1,000". |
| Format.FormatDaysExample12345 | main.go:164-173 | 12345 is printed "12,345". |
| Format.FormatDaysGroupsBelowHundredThousand | main.go:164-173 | Below 100000 the output is conventional thousands grouping. |
| Format.FormatDaysUngroupedFromHundredThousand | main.go:166-167 | From 100000 on the output is never conventionally grouped. |
| Format.FormatDaysSixDigitExample | main.go:166-167 | 123456 is printed "12,3456". |
| Format.Group3Meaning | main.go:164-173 | Grouping digits in threes from the right yields conventionally grouped text whose commas delete back to the digits. |
| Format.GroupDays | main.go:164-173 | Corrected `formatDays`: non-negative counts are conventionally grouped, and deleting the commas gives back `fmt.Sprint(days)`. |
| Format.GroupDaysSixDigitExample | main.go:166-167 | Grouped conventionally, 123456 is "123,456". |
| Table.ParseLine | main.go:88-104 | A line is accepted exactly when it has at least three fields, an integer age and two readable expectancies; the row holds those three values. |
| Table.ParseLineErrors | main.go:88-103 | A rejected line reports the first failing check in the program's order: missing field 0, bad age, missing field 1, bad male value, missing field 2, bad female value. |
| Table.LoadTable | main.go:76-107 | A year without a data file is an error; otherwise the table is built exactly when every line of that year's file parses, and then has the "m" and "f" maps with identical key sets. |
| Table.ParseRowsMeaning | main.go:86-105 | Parsing succeeds exactly when every line parses, with one row per line; otherwise it reports the first rejected line. |
| Table.BuildTableSucceeds | main.go:86-105 | The table is built exactly when every line parses. |
| Table.ParseTable | main.go:76-107 | The parsing loop returns the table the line-by-line definition gives; a built table has the "m" and "f" maps with identical key sets. |
| Table.BuildTableKeys | main.go:98-104 | Both maps of a built table are keyed by exactly the ages on its lines. |
| Table.BuildTableLastLineWins | main.go:98-104 | For each age, the last line with it sets both the male and the female entry. |
| Table.FoldLastWins | main.go:98-104 | The last row for an age decides both entries whatever earlier rows said. |
| Table.StoreOverwrites | main.go:98-104 | Storing a second row for the same age replaces the first in both maps. |
| Table.LookupBuilt | main.go:31 | In a built table an age is absent exactly when no line mentions it, and then `data[sex][age]` yields the zero value. |
| Table.LookupLastLine | main.go:31 | In a built table, `data[sex][age]` for the age of the last line naming it yields that line's male value for "m" and its female value for "f". |
| Pipeline.Project | main.go:27-33 | The age counts are the counters' results, and the expectancy is the lookup at the year count. The death date is the projection from the birthday. The days remaining are 0 exactly when the death date is not after `now`. |

## Left out

- Command-line parsing, usage text, `log.Fatal` exits and the `sex` check (main.go:109-133). The sex string is a parameter of the lookup.
- `time.Parse` of the birth date (main.go:121): the model takes a parsed instant. A birth date is its UTC midnight, `Instant.Midnight`.
- The embedded file system and `bufio.Scanner` (main.go:80-87). The data files are a map from year to lines already split into fields by `strings.Fields`. Scanner read errors, which the program ignores, are not modelled.
- Floating point:
  - `strconv.ParseFloat` is the `parseValue` parameter.
  - The split of the expectancy into `int(expectancy)` and `int(365 * fraction)` (main.go:148-149) is the `split` parameter of `Pipeline.Project`. The projection takes integer `yearsToAdd` and `daysToAdd`.
  - `yearsSinceBirth` (main.go:34) and the `%.2f` figures are not modelled.
- The report's formatting and printing (main.go:36-73) and `formatSex` (main.go:159-162), a constant map.
- Time zones, daylight saving time, leap seconds and nanoseconds. Every day has 86400 seconds and instants are UTC, so a local `now` on a 23- or 25-hour day is not modelled.
- Go's 64-bit range for instants and for the counters' `int` results: days and counts are unbounded integers.
- The clock: `now` is one parameter. The program reads `time.Now()` separately in each counter.
- Counters.DaysAgainstYearsWithinALeapYear: proved only for year counts up to 366. Beyond about 1500 years the bound fails, since the day count grows by about 365.2425 days a year.

## Findings

| source | as written | input that shows it | evidently intended | confidence | as-written member | corrected member |
|---|---|---|---|---|---|---|
| main.go:166-167 | From 10000 on, one comma goes after the first two digits whatever the length. | 123456 is printed "12,3456". | Commas between every three digits from the right, "123,456". This matches the output below 100000. | high; not executed | Format.FormatDaysUngroupedFromHundredThousand | Format.GroupDays |
