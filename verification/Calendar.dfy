/**
 The proleptic Gregorian calendar, counted in days and seconds from 0001-01-01T00:00:00Z, the
 zero time of the services' time library.
 */
module Calendar {

  predicate IsLeap(y: int) {
    y % 4 == 0 && (y % 100 != 0 || y % 400 == 0)
  }

  function DaysInMonth(y: int, m: int): int {
    if m == 2 then (if IsLeap(y) then 29 else 28)
    else if m == 4 || m == 6 || m == 9 || m == 11 then 30
    else 31
  }

  predicate ValidDate(y: int, m: int, d: int) {
    0 <= y <= 9999 && 1 <= m <= 12 && 1 <= d <= DaysInMonth(y, m)
  }

  predicate ValidClock(h: int, min: int, s: int) {
    0 <= h < 24 && 0 <= min < 60 && 0 <= s < 60
  }

  function DaysBeforeYear(y: int): int {
    365 * (y - 1) + (y - 1) / 4 - (y - 1) / 100 + (y - 1) / 400
  }

  function DaysBeforeMonth(y: int, m: int): int
    requires 1 <= m <= 12
    decreases m
  {
    if m == 1 then 0 else DaysBeforeMonth(y, m - 1) + DaysInMonth(y, m - 1)
  }

  function DayNumber(y: int, m: int, d: int): int
    requires 1 <= m <= 12
  {
    DaysBeforeYear(y) + DaysBeforeMonth(y, m) + d - 1
  }

  function Instant(y: int, m: int, d: int, h: int, min: int, s: int): int
    requires 1 <= m <= 12
  {
    DayNumber(y, m, d) * 86400 + h * 3600 + min * 60 + s
  }

  lemma MultiplesOfFour(y: int)
    ensures y / 4 == (y - 1) / 4 + if y % 4 == 0 then 1 else 0
  {
  }

  lemma MultiplesOfHundred(y: int)
    ensures y / 100 == (y - 1) / 100 + if y % 100 == 0 then 1 else 0
    ensures y % 100 == 0 ==> y % 4 == 0
  {
  }

  lemma MultiplesOfFourHundred(y: int)
    ensures y / 400 == (y - 1) / 400 + if y % 400 == 0 then 1 else 0
    ensures y % 400 == 0 ==> y % 100 == 0
  {
  }

  lemma NextYear(y: int)
    ensures DaysBeforeYear(y + 1) == DaysBeforeYear(y) + if IsLeap(y) then 366 else 365
  {
    MultiplesOfFour(y);
    MultiplesOfHundred(y);
    MultiplesOfFourHundred(y);
  }

  lemma {:induction false} YearsAreOrdered(y: int, y': int)
    requires y < y'
    ensures DaysBeforeYear(y) + (if IsLeap(y) then 366 else 365) <= DaysBeforeYear(y')
    decreases y' - y
  {
    NextYear(y);
    if y + 1 < y' {
      YearsAreOrdered(y + 1, y');
    }
  }

  lemma {:induction false} MonthsAreOrdered(y: int, m: int, m': int)
    requires 1 <= m < m' <= 12
    ensures DaysBeforeMonth(y, m) + DaysInMonth(y, m) <= DaysBeforeMonth(y, m')
    decreases m' - m
  {
    if m + 1 < m' {
      MonthsAreOrdered(y, m, m' - 1);
    }
  }

  lemma MonthsFillTheYear(y: int)
    ensures DaysBeforeMonth(y, 12) + 31 == if IsLeap(y) then 366 else 365
  {
    assert DaysBeforeMonth(y, 3) == 31 + DaysInMonth(y, 2);
    assert DaysBeforeMonth(y, 6) == DaysBeforeMonth(y, 3) + 92;
    assert DaysBeforeMonth(y, 9) == DaysBeforeMonth(y, 6) + 92;
    assert DaysBeforeMonth(y, 12) == DaysBeforeMonth(y, 9) + 91;
  }

  lemma WithinYear(y: int, m: int, d: int)
    requires ValidDate(y, m, d)
    ensures 0 <= DaysBeforeMonth(y, m) + d - 1 < if IsLeap(y) then 366 else 365
  {
    MonthsFillTheYear(y);
    if m < 12 {
      MonthsAreOrdered(y, m, 12);
    }
    if 1 < m {
      MonthsAreOrdered(y, 1, m);
    }
  }

  predicate DateBefore(y: int, m: int, d: int, y': int, m': int, d': int) {
    y < y' || (y == y' && (m < m' || (m == m' && d < d')))
  }

  /** Day numbers order dates as year, month and day do. */
  lemma DateOrder(y: int, m: int, d: int, y': int, m': int, d': int)
    requires ValidDate(y, m, d) && ValidDate(y', m', d') && DateBefore(y, m, d, y', m', d')
    ensures DayNumber(y, m, d) < DayNumber(y', m', d')
  {
    WithinYear(y, m, d);
    WithinYear(y', m', d');
    if y < y' {
      YearsAreOrdered(y, y');
    } else if m < m' {
      MonthsAreOrdered(y, m, m');
    }
  }

  // ---------- the calendar, one second at a time ----------

  datatype Moment = Moment(y: int, m: int, d: int, h: int, min: int, s: int)

  predicate IsMoment(t: Moment) {
    ValidDate(t.y, t.m, t.d) && ValidClock(t.h, t.min, t.s)
  }

  function InstantAt(t: Moment): int
    requires IsMoment(t)
  {
    Instant(t.y, t.m, t.d, t.h, t.min, t.s)
  }

  /** What a clock and a calendar show one second later. */
  function OneSecondLater(t: Moment): Moment {
    if t.s < 59 then t.(s := t.s + 1)
    else if t.min < 59 then t.(min := t.min + 1, s := 0)
    else if t.h < 23 then t.(h := t.h + 1, min := 0, s := 0)
    else if t.d < DaysInMonth(t.y, t.m) then t.(d := t.d + 1, h := 0, min := 0, s := 0)
    else if t.m < 12 then t.(m := t.m + 1, d := 1, h := 0, min := 0, s := 0)
    else Moment(t.y + 1, 1, 1, 0, 0, 0)
  }

  lemma MonthTable(y: int, m: int)
    requires 1 <= m <= 12
    ensures var february := if y % 400 == 0 || (y % 4 == 0 && y % 100 != 0) then 29 else 28;
      DaysInMonth(y, m) == [31, february, 31, 30, 31, 30, 31, 31, 30, 31, 30, 31][m - 1]
  {
  }

  lemma NewYearFollows(y: int)
    ensures DayNumber(y + 1, 1, 1) == DayNumber(y, 12, 31) + 1
  {
    NextYear(y);
    MonthsFillTheYear(y);
  }

  /** Instants count the seconds of the calendar, from the first of January of the year 1 on. */
  lemma InstantsCountSeconds(t: Moment)
    requires IsMoment(t) && IsMoment(OneSecondLater(t))
    ensures InstantAt(OneSecondLater(t)) == InstantAt(t) + 1
    ensures Instant(1, 1, 1, 0, 0, 0) == 0
  {
    if t.s == 59 && t.min == 59 && t.h == 23 {
      var u := OneSecondLater(t);
      NextDayFollows(t.y, t.m, t.d, u.y, u.m, u.d);
    }
    FirstDay();
  }

  lemma FirstDay()
    ensures DayNumber(1, 1, 1) == 0
  {
  }

  /** The day after the last of a month or a year is the first of the next. */
  lemma NextDayFollows(y: int, m: int, d: int, y': int, m': int, d': int)
    requires ValidDate(y, m, d) && 1 <= m' <= 12
    requires
      || (d < DaysInMonth(y, m) && y' == y && m' == m && d' == d + 1)
      || (d == DaysInMonth(y, m) && m < 12 && y' == y && m' == m + 1 && d' == 1)
      || (d == DaysInMonth(y, m) && m == 12 && y' == y + 1 && m' == 1 && d' == 1)
    ensures DayNumber(y', m', d') == DayNumber(y, m, d) + 1
  {
    if m == 12 && d == 31 {
      NewYearFollows(y);
    }
  }
}
