/** The day count of a log line's time stamp (xtask/src/durations.rs), against
    counting days in the proleptic Gregorian calendar. */
module Calendar {

  datatype Date = Date(year: int, month: int, day: int)

  /** Division that rounds toward zero. */
  function Quotient(a: int, b: int): int
    requires b > 0
  {
    if a >= 0 then a / b else -(-a / b)
  }

  /** Whole days since 1970-01-01, in closed form. */
  function Days(date: Date): int {
    var year := if date.month <= 2 then date.year - 1 else date.year;
    var era := year / 400;
    var yearOfEra := year - era * 400;
    var dayOfYear := Quotient(153 * (date.month + if date.month > 2 then -3 else 9) + 2, 5) + date.day - 1;
    var dayOfEra := yearOfEra * 365 + yearOfEra / 4 - yearOfEra / 100 + dayOfYear;
    era * 146_097 + dayOfEra - 719_468
  }

  // ---- The calendar ----

  predicate Leap(year: int) {
    year % 4 == 0 && (year % 100 != 0 || year % 400 == 0)
  }

  function MonthLength(year: int, month: int): (n: int)
    requires 1 <= month <= 12
    ensures 28 <= n <= 31
  {
    if month == 2 then (if Leap(year) then 29 else 28)
    else if month == 4 || month == 6 || month == 9 || month == 11 then 30
    else 31
  }

  predicate Valid(date: Date) {
    1 <= date.month <= 12 && 1 <= date.day <= MonthLength(date.year, date.month)
  }

  function Next(date: Date): (next: Date)
    requires Valid(date)
    ensures Valid(next)
  {
    if date.day < MonthLength(date.year, date.month) then Date(date.year, date.month, date.day + 1)
    else if date.month < 12 then Date(date.year, date.month + 1, 1)
    else Date(date.year + 1, 1, 1)
  }

  predicate Earlier(a: Date, b: Date) {
    || a.year < b.year
    || (a.year == b.year && a.month < b.month)
    || (a.year == b.year && a.month == b.month && a.day < b.day)
  }

  // ---- Counting ----

  /** The days of the months before. */
  function MonthStart(year: int, month: int): int
    requires 1 <= month <= 13
    decreases month
  {
    if month == 1 then 0 else MonthStart(year, month - 1) + MonthLength(year, month - 1)
  }

  function YearLength(year: int): int {
    MonthStart(year, 13)
  }

  /** The days of the years from 1970 on, or back to it. */
  function YearStart(year: int): int
    decreases if year >= 1970 then year - 1970 else 1970 - year
  {
    if year == 1970 then 0
    else if year > 1970 then YearStart(year - 1) + YearLength(year - 1)
    else YearStart(year + 1) - YearLength(year)
  }

  /** Whole days since 1970-01-01, year by year and month by month. */
  function Counted(date: Date): int
    requires Valid(date)
  {
    YearStart(date.year) + MonthStart(date.year, date.month) + date.day - 1
  }

  lemma YearLengthIs(year: int)
    ensures YearLength(year) == if Leap(year) then 366 else 365
  {
    MonthStarts(year);
  }

  /** March is the first month of the formula's year. */
  lemma MonthStarts(year: int)
    ensures var leap := if Leap(year) then 1 else 0;
            && MonthStart(year, 1) == 0 && MonthStart(year, 2) == 31 && MonthStart(year, 3) == 59 + leap
            && MonthStart(year, 4) == 90 + leap && MonthStart(year, 5) == 120 + leap && MonthStart(year, 6) == 151 + leap
            && MonthStart(year, 7) == 181 + leap && MonthStart(year, 8) == 212 + leap && MonthStart(year, 9) == 243 + leap
            && MonthStart(year, 10) == 273 + leap && MonthStart(year, 11) == 304 + leap
            && MonthStart(year, 12) == 334 + leap && MonthStart(year, 13) == 365 + leap
  {
  }

  lemma YearStartStep(year: int)
    ensures YearStart(year + 1) == YearStart(year) + YearLength(year)
  {
  }

  /** The days the formula counts up to the start of a year from March. */
  function MarchYears(year: int): int {
    var era := year / 400;
    var yearOfEra := year - era * 400;
    era * 146_097 + yearOfEra * 365 + yearOfEra / 4 - yearOfEra / 100
  }

  lemma MarchYearsStep(year: int)
    ensures MarchYears(year + 1) == MarchYears(year) + if Leap(year + 1) then 366 else 365
  {
    var era := year / 400;
    var n := year - era * 400;
    LeapOfEra(year + 1, n + 1, era);
    if n == 399 {
      assert (year + 1) / 400 == era + 1;
    } else {
      assert (year + 1) / 400 == era;
      QuotientStep(n, 4);
      QuotientStep(n, 100);
    }
  }

  lemma QuotientStep(n: int, d: int)
    requires n >= 0 && (d == 4 || d == 100)
    ensures (n + 1) / d == n / d + if (n + 1) % d == 0 then 1 else 0
  {
  }

  lemma ShiftedBy4(place: int, times: int)
    ensures (place + 4 * times) % 4 == place % 4
  {
  }

  lemma ShiftedBy100(place: int, times: int)
    ensures (place + 100 * times) % 100 == place % 100
  {
  }

  lemma ShiftedBy400(place: int, times: int)
    ensures (place + 400 * times) % 400 == place % 400
  {
  }

  /** A year is leap as its place in the era of 400 years says. */
  lemma LeapOfEra(year: int, place: int, era: int)
    requires year == era * 400 + place
    ensures year % 4 == place % 4 && year % 100 == place % 100 && year % 400 == place % 400
  {
    ShiftedBy4(place, era * 100);
    ShiftedBy100(place, era * 4);
    ShiftedBy400(place, era);
  }

  lemma DaysOf(date: Date)
    requires Valid(date)
    ensures Days(date) == (if date.month <= 2 then MarchYears(date.year - 1) + 306 + MonthStart(date.year, date.month)
                           else MarchYears(date.year) + MonthStart(date.year, date.month) - MonthStart(date.year, 3))
                          + date.day - 1 - 719_468
  {
    MonthStarts(date.year);
  }

  /** The years of the formula and the years of the count go in step. */
  lemma {:induction false} YearsAgree(year: int)
    ensures MarchYears(year - 1) + 306 - 719_468 == YearStart(year)
    decreases if year >= 1970 then year - 1970 else 1970 - year
  {
    if year > 1970 {
      YearsAgree(year - 1);
      MarchYearsStep(year - 2);
      YearLengthIs(year - 1);
    } else if year < 1970 {
      YearsAgree(year + 1);
      MarchYearsStep(year - 1);
      YearLengthIs(year);
    }
  }

  /** The closed form counts days, for every date of every year. */
  lemma DaysCounts(date: Date)
    requires Valid(date)
    ensures Days(date) == Counted(date)
  {
    DaysOf(date);
    YearsAgree(date.year);
    if date.month > 2 {
      MarchYearsStep(date.year - 1);
      MonthStarts(date.year);
    }
  }

  lemma CountedNext(date: Date)
    requires Valid(date)
    ensures Counted(Next(date)) == Counted(date) + 1
  {
    YearStartStep(date.year);
  }

  /** The day after is one more. */
  lemma NextIsOneMore(date: Date)
    requires Valid(date)
    ensures Days(Next(date)) == Days(date) + 1
  {
    DaysCounts(date);
    DaysCounts(Next(date));
    CountedNext(date);
  }

  lemma Epoch()
    ensures Days(Date(1970, 1, 1)) == 0
  {
  }

  // ---- Counting one day at a time ----

  /** `n` days after 1970-01-01. */
  function After(n: nat): (date: Date)
    ensures Valid(date)
  {
    if n == 0 then Date(1970, 1, 1) else Next(After(n - 1))
  }

  lemma {:induction false} DaysAfter(n: nat)
    ensures Days(After(n)) == n
  {
    if n == 0 {
      Epoch();
    } else {
      DaysAfter(n - 1);
      NextIsOneMore(After(n - 1));
    }
  }

  lemma {:induction false} MonthStartsGrow(year: int, a: int, b: int)
    requires 1 <= a < b <= 13
    ensures MonthStart(year, a) + MonthLength(year, a) <= MonthStart(year, b)
    decreases b
  {
    if a < b - 1 { MonthStartsGrow(year, a, b - 1); }
  }

  lemma {:induction false} YearStartsGrow(a: int, b: int)
    requires a < b
    ensures YearStart(a) + YearLength(a) <= YearStart(b)
    decreases b - a
  {
    YearStartStep(b - 1);
    if a < b - 1 {
      YearStartsGrow(a, b - 1);
      YearLengthIs(b - 1);
    }
  }

  lemma CountedWithin(date: Date)
    requires Valid(date)
    ensures YearStart(date.year) <= Counted(date) < YearStart(date.year) + YearLength(date.year)
  {
    MonthStartsGrow(date.year, date.month, 13);
    if date.month > 1 { MonthStartsGrow(date.year, 1, date.month); }
  }

  lemma EarlierCountsLess(a: Date, b: Date)
    requires Valid(a) && Valid(b) && Earlier(a, b)
    ensures Counted(a) < Counted(b)
  {
    if a.year < b.year {
      CountedWithin(a);
      CountedWithin(b);
      YearStartsGrow(a.year, b.year);
    } else if a.month < b.month {
      MonthStartsGrow(a.year, a.month, b.month);
    }
  }

  /** The numbers order dates as the calendar does, so no two share one. */
  lemma DaysOrder(a: Date, b: Date)
    requires Valid(a) && Valid(b)
    ensures Days(a) < Days(b) <==> Earlier(a, b)
    ensures Days(a) == Days(b) <==> a == b
  {
    DaysCounts(a);
    DaysCounts(b);
    if Earlier(a, b) { EarlierCountsLess(a, b); }
    if Earlier(b, a) { EarlierCountsLess(b, a); }
  }

  /** A date not before 1970 is the one so many days after it. */
  lemma AfterDays(date: Date)
    requires Valid(date) && Days(date) >= 0
    ensures After(Days(date)) == date
  {
    DaysAfter(Days(date));
    DaysOrder(After(Days(date)), date);
  }

  /** A date before 1970 reaches it in as many steps as its number says. */
  lemma {:induction false} BeforeDays(date: Date)
    requires Valid(date) && Days(date) <= 0
    ensures Forward(date, -Days(date)) == Date(1970, 1, 1)
    decreases -Days(date)
  {
    if Days(date) == 0 {
      Epoch();
      DaysOrder(date, Date(1970, 1, 1));
    } else {
      NextIsOneMore(date);
      BeforeDays(Next(date));
    }
  }

  function Forward(date: Date, n: nat): (later: Date)
    requires Valid(date)
    ensures Valid(later)
    decreases n
  {
    if n == 0 then date else Forward(Next(date), n - 1)
  }
}
