/**
 * The proleptic Gregorian calendar that `chrono::NaiveDate` implements, and the
 * count of days since 1970-01-01 that turns a calendar date into the timestamp
 * of its midnight, UTC.
 */
module Calendar {

  predicate IsLeapYear(y: int) {
    y % 4 == 0 && (y % 100 != 0 || y % 400 == 0)
  }

  function DaysInMonth(y: int, m: int): (n: int)
    requires 1 <= m <= 12
    ensures 28 <= n <= 31
    ensures n == 29 <==> m == 2 && IsLeapYear(y)
  {
    if m == 2 then (if IsLeapYear(y) then 29 else 28)
    else if m == 4 || m == 6 || m == 9 || m == 11 then 30
    else 31
  }

  /** What `NaiveDate::from_ymd_opt` accepts, for the years this model produces. */
  predicate IsValidDate(y: int, m: int, d: int) {
    1 <= m <= 12 && 1 <= d <= DaysInMonth(y, m)
  }

  /** Days from 1 March of year 0 to 1 March of year `yr`. */
  function DaysBeforeMarch(yr: int): int {
    365 * yr + yr / 4 - yr / 100 + yr / 400
  }

  /**
   * Days from 1970-01-01 to the given date, negative before it. The year is
   * counted from March, so that the leap day closes it.
   */
  function DaysFromCivil(y: int, m: int, d: int): int
    requires 1 <= m <= 12
  {
    var yr := if m <= 2 then y - 1 else y;
    var mp := if m > 2 then m - 3 else m + 9;
    DaysBeforeMarch(yr) + (153 * mp + 2) / 5 + d - 1 - 719468
  }

  /** The calendar's successor of a valid date. */
  function NextDay(y: int, m: int, d: int): (r: (int, int, int))
    requires IsValidDate(y, m, d)
    ensures IsValidDate(r.0, r.1, r.2)
  {
    if d < DaysInMonth(y, m) then (y, m, d + 1)
    else if m < 12 then (y, m + 1, 1)
    else (y + 1, 1, 1)
  }

  /** The count starts at the Unix epoch. */
  lemma DaysFromCivilEpoch()
    ensures DaysFromCivil(1970, 1, 1) == 0
  {
  }

  lemma DivStep(a: int)
    ensures (a + 1) / 4 - a / 4 == (if (a + 1) % 4 == 0 then 1 else 0)
    ensures (a + 1) / 100 - a / 100 == (if (a + 1) % 100 == 0 then 1 else 0)
    ensures (a + 1) / 400 - a / 400 == (if (a + 1) % 400 == 0 then 1 else 0)
    ensures (a + 1) % 400 == 0 ==> (a + 1) % 100 == 0
    ensures (a + 1) % 100 == 0 ==> (a + 1) % 4 == 0
  {
  }

  /** A March-to-February year has 366 days exactly when it ends in a leap February. */
  lemma {:induction false} DaysBeforeMarchStep(yr: int)
    ensures DaysBeforeMarch(yr + 1) - DaysBeforeMarch(yr) == (if IsLeapYear(yr + 1) then 366 else 365)
  {
    DivStep(yr);
  }

  /** Outside February, the March-based month offsets step by the month's length. */
  lemma MonthOffsetStep(y: int, m: int)
    requires 1 <= m <= 12 && m != 2
    ensures var mp := if m > 2 then m - 3 else m + 9;
            (153 * (mp + 1) + 2) / 5 - (153 * mp + 2) / 5 == DaysInMonth(y, m)
  {
  }

  /** Consecutive calendar days are consecutive day numbers. */
  lemma {:induction false} DaysFromCivilNextDay(y: int, m: int, d: int)
    requires IsValidDate(y, m, d)
    ensures var n := NextDay(y, m, d); DaysFromCivil(n.0, n.1, n.2) == DaysFromCivil(y, m, d) + 1
  {
    if d < DaysInMonth(y, m) {
    } else if m == 2 {
      DaysBeforeMarchStep(y - 1);
    } else {
      MonthOffsetStep(y, m);
    }
  }
}
