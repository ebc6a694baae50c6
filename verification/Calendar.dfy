/** The Gregorian calendar, as far as the epochs of Java and of RFC 4122 need it. */
module Calendar {
  predicate IsLeap(year: int) { year % 4 == 0 && (year % 100 != 0 || year % 400 == 0) }

  function DaysOfYear(year: int): int { if IsLeap(year) then 366 else 365 }

  /** The days of n years from `first` on. */
  function DaysOfYears(first: int, n: nat): int {
    if n == 0 then 0 else DaysOfYears(first, n - 1) + DaysOfYear(first + n - 1)
  }

  /** Days before a year, by the rule of the leap years. */
  function DaysBefore(year: int): int { 365 * year + (year - 1) / 4 - (year - 1) / 100 + (year - 1) / 400 }

  lemma NextYear(year: int)
    ensures DaysBefore(year + 1) == DaysBefore(year) + DaysOfYear(year)
  {
    assert year / 4 == (year - 1) / 4 + if year % 4 == 0 then 1 else 0;
    assert year / 100 == (year - 1) / 100 + if year % 100 == 0 then 1 else 0;
    assert year / 400 == (year - 1) / 400 + if year % 400 == 0 then 1 else 0;
    assert year % 400 == 0 ==> year % 100 == 0;
    assert year % 100 == 0 ==> year % 4 == 0;
  }

  lemma {:induction false} YearsCounted(first: int, n: nat)
    ensures DaysOfYears(first, n) == DaysBefore(first + n) - DaysBefore(first)
  {
    hide DaysOfYear, DaysBefore;
    if n > 0 {
      YearsCounted(first, n - 1);
      NextYear(first + n - 1);
    }
  }

  /** From 15 October 1582, the first day of the calendar, to 1 January 1970: the rest of October, November, December and
      the years 1583 to 1969. */
  lemma DaysToEpoch()
    ensures 17 + 30 + 31 + DaysOfYears(1583, 1970 - 1583) == 141427
  {
    YearsCounted(1583, 1970 - 1583);
  }
}
