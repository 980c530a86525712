/** Calendar dates of the proleptic Gregorian calendar, as Python's `datetime.date` holds them:
    a year in 1..9999, a month in 1..12 and a day within the month's length
    (the day-of-month limits of section 5.7 of RFC 3339). */
module Calendar {

  datatype Date = Date(year: int, month: int, day: int)

  /** Leap years: divisible by 4, except centuries not divisible by 400. */
  predicate IsLeapYear(year: int) {
    year % 4 == 0 && (year % 100 != 0 || year % 400 == 0)
  }

  /** The number of days in `month` of `year`. */
  function DaysInMonth(year: int, month: int): (n: int)
    requires 1 <= month <= 12
    ensures 28 <= n <= 31
    ensures n == 29 <==> month == 2 && IsLeapYear(year)
  {
    if month == 2 then (if IsLeapYear(year) then 29 else 28)
    else if month == 4 || month == 6 || month == 9 || month == 11 then 30
    else 31
  }

  /** A date that exists in the calendar and that `datetime.date` can represent. */
  predicate ValidDate(d: Date) {
    1 <= d.year <= 9999 && 1 <= d.month <= 12 && 1 <= d.day <= DaysInMonth(d.year, d.month)
  }

  /** Chronological order: by year, then month, then day. */
  predicate DateLe(a: Date, b: Date) {
    a.year < b.year ||
    (a.year == b.year && (a.month < b.month || (a.month == b.month && a.day <= b.day)))
  }

  predicate DateLt(a: Date, b: Date) {
    DateLe(a, b) && a != b
  }

  /** `d` lies in the closed interval from `first` to `last`. */
  predicate Within(d: Date, first: Date, last: Date) {
    DateLe(first, d) && DateLe(d, last)
  }

  /** The later of two dates. */
  function Later(a: Date, b: Date): (r: Date)
    ensures DateLe(a, r) && DateLe(b, r)
    ensures r == a || r == b
  {
    if DateLe(a, b) then b else a
  }
}
