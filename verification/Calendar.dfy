/** The proleptic Gregorian calendar, with days counted from 1 for January 1 of year 1. */
module Calendar {

  predicate IsLeap(y: int) {
    y % 4 == 0 && (y % 100 != 0 || y % 400 == 0)
  }

  function DaysBeforeYear(y: int): int {
    var n := y - 1;
    365 * n + n / 4 - n / 100 + n / 400
  }

  function DaysInMonth(y: int, m: int): int
    requires 1 <= m <= 12
  {
    if m == 2 then (if IsLeap(y) then 29 else 28) else if m == 4 || m == 6 || m == 9 || m == 11 then 30 else 31
  }

  function DaysBeforeMonth(y: int, m: int): int
    requires 1 <= m <= 12
  {
    [0, 31, 59, 90, 120, 151, 181, 212, 243, 273, 304, 334][m - 1] + if m > 2 && IsLeap(y) then 1 else 0
  }

  /** Months are counted from 0 for January of year 1. */
  function YearOf(month: nat): int {
    month / 12 + 1
  }

  function MonthInYear(month: nat): int {
    month % 12 + 1
  }

  function Length(month: nat): int {
    DaysInMonth(YearOf(month), MonthInYear(month))
  }

  /** The day on which a month begins: where the one before it ends. */
  function FirstDay(month: nat): int {
    if month == 0 then 1 else FirstDay(month - 1) + Length(month - 1)
  }

  lemma YearLength(y: int)
    ensures DaysBeforeYear(y + 1) == DaysBeforeYear(y) + (if IsLeap(y) then 366 else 365)
  {
    Quotient(y, 4);
    Quotient(y, 100);
    Quotient(y, 400);
  }

  lemma Quotient(y: int, k: int)
    requires k > 1
    ensures y / k == (y - 1) / k + (if y % k == 0 then 1 else 0)
  {
    var q, r := (y - 1) / k, (y - 1) % k;
    assert y == q * k + (r + 1);
    if r + 1 == k {
      assert y == (q + 1) * k;
      DivisionIs(y, k, q + 1, 0);
    } else {
      DivisionIs(y, k, q, r + 1);
    }
  }

  lemma MultiplesAreApart(d: int, k: int)
    requires k > 0
    ensures d == 0 || d * k >= k || d * k <= -k
  {
    if d >= 1 {
      assert (d - 1) * k >= 0;
    } else if d <= -1 {
      assert (-d - 1) * k >= 0;
    }
  }

  lemma DivisionIs(y: int, k: int, q: int, r: int)
    requires k > 0 && y == q * k + r && 0 <= r < k
    ensures y / k == q && y % k == r
  {
    assert (q - y / k) * k == y % k - r;
    MultiplesAreApart(q - y / k, k);
  }

  /** The usual formula for the day on which a month begins. */
  function FirstDayByFormula(y: int, m: int): int
    requires 1 <= m <= 12
  {
    DaysBeforeYear(y) + DaysBeforeMonth(y, m) + 1
  }

  lemma FormulaStep(y: int, m: int)
    requires 1 <= m <= 12
    ensures (if m < 12 then FirstDayByFormula(y, m + 1) else FirstDayByFormula(y + 1, 1))
            == FirstDayByFormula(y, m) + DaysInMonth(y, m)
  {
    YearLength(y);
  }

  function MonthIndex(year: int, month: int): nat
    requires year >= 1 && 1 <= month <= 12
  {
    12 * (year - 1) + (month - 1)
  }

  lemma MonthIndexIs(year: int, month: int)
    requires year >= 1 && 1 <= month <= 12
    ensures YearOf(MonthIndex(year, month)) == year && MonthInYear(MonthIndex(year, month)) == month
  {
    DivisionIs(MonthIndex(year, month), 12, year - 1, month - 1);
  }

  /** The formula is right for every month, across years and leap days. */
  lemma {:induction false} FirstDayFormula(y: int, m: int)
    requires y >= 1 && 1 <= m <= 12
    ensures FirstDay(MonthIndex(y, m)) == FirstDayByFormula(y, m)
    decreases y, m
  {
    if m > 1 {
      FirstDayFormula(y, m - 1);
      MonthIndexIs(y, m - 1);
      FormulaStep(y, m - 1);
      assert MonthIndex(y, m) == MonthIndex(y, m - 1) + 1;
    } else if y > 1 {
      FirstDayFormula(y - 1, 12);
      MonthIndexIs(y - 1, 12);
      FormulaStep(y - 1, 12);
      assert MonthIndex(y, 1) == MonthIndex(y - 1, 12) + 1;
    }
  }

  lemma NextMonthBegins(month: nat)
    ensures FirstDay(month + 1) == FirstDay(month) + Length(month) && 28 <= Length(month) <= 31
  {
  }

  lemma {:induction false} MonthsBeginInOrder(a: nat, b: nat)
    requires a <= b
    ensures FirstDay(a) <= FirstDay(b)
    decreases b - a
  {
    if a < b {
      NextMonthBegins(a);
      MonthsBeginInOrder(a + 1, b);
    }
  }

  predicate InMonth(day: int, month: nat) {
    FirstDay(month) <= day < FirstDay(month) + Length(month)
  }

  /** The month that a day lies in, looked for from a given month on. */
  function MonthFrom(day: int, month: nat): (found: nat)
    requires FirstDay(month) <= day
    ensures InMonth(day, found)
    decreases day - FirstDay(month)
  {
    if InMonth(day, month) then month else
      NextMonthBegins(month);
      MonthFrom(day, month + 1)
  }

  function MonthOf(day: int): (month: nat)
    requires day >= 1
    ensures InMonth(day, month)
  {
    assert FirstDay(0) == 1;
    MonthFrom(day, 0)
  }

  lemma MonthIsUnique(day: int, a: nat, b: nat)
    requires InMonth(day, a) && InMonth(day, b)
    ensures a == b
  {
    if a < b {
      MonthsBeginInOrder(a + 1, b);
      NextMonthBegins(a);
    } else if b < a {
      MonthsBeginInOrder(b + 1, a);
      NextMonthBegins(b);
    }
  }

  /** 31 days after a month begins is always in the next month. */
  lemma ThirtyOneDaysLater(month: nat)
    ensures InMonth(FirstDay(month) + 31, month + 1)
  {
    NextMonthBegins(month);
    NextMonthBegins(month + 1);
  }

  // ----- dates -----

  datatype Date = Date(year: int, month: int, day: int)

  predicate IsDate(d: Date) {
    d.year >= 1 && 1 <= d.month <= 12 && 1 <= d.day <= DaysInMonth(d.year, d.month)
  }

  function ToOrdinal(d: Date): int
    requires IsDate(d)
  {
    FirstDayByFormula(d.year, d.month) + d.day - 1
  }

  lemma IndexOfMonth(month: nat)
    ensures YearOf(month) >= 1 && 1 <= MonthInYear(month) <= 12
    ensures MonthIndex(YearOf(month), MonthInYear(month)) == month
  {
  }

  /** The date of a day that lies in a given month. */
  function DateIn(day: int, month: nat): (d: Date) {
    Date(YearOf(month), MonthInYear(month), day - FirstDay(month) + 1)
  }

  lemma DateInIs(day: int, month: nat)
    requires InMonth(day, month)
    ensures IsDate(DateIn(day, month)) && ToOrdinal(DateIn(day, month)) == day
  {
    IndexOfMonth(month);
    FirstDayFormula(YearOf(month), MonthInYear(month));
  }

  function FromOrdinal(day: int): (d: Date)
    requires day >= 1
    ensures IsDate(d) && ToOrdinal(d) == day
  {
    DateInIs(day, MonthOf(day));
    DateIn(day, MonthOf(day))
  }

  lemma DayIsInMonth(d: Date)
    requires IsDate(d)
    ensures ToOrdinal(d) == FirstDay(MonthIndex(d.year, d.month)) + d.day - 1
    ensures ToOrdinal(d) >= 1 && InMonth(ToOrdinal(d), MonthIndex(d.year, d.month))
  {
    MonthIndexIs(d.year, d.month);
    FirstDayFormula(d.year, d.month);
    MonthsBeginInOrder(0, MonthIndex(d.year, d.month));
  }

  lemma DateOfDay(n: int, d: Date)
    requires n >= 1 && IsDate(d) && InMonth(n, MonthIndex(d.year, d.month))
    requires n == FirstDay(MonthIndex(d.year, d.month)) + d.day - 1
    ensures FromOrdinal(n) == d
  {
    MonthIsUnique(n, MonthIndex(d.year, d.month), MonthOf(n));
    MonthIndexIs(d.year, d.month);
  }

  /** Dates and day counts correspond one to one. */
  lemma DateRoundTrip(d: Date)
    requires IsDate(d)
    ensures ToOrdinal(d) >= 1 && FromOrdinal(ToOrdinal(d)) == d
  {
    DayIsInMonth(d);
    DateOfDay(ToOrdinal(d), d);
  }

  /** Monday is 0. */
  function Weekday(day: int): int {
    (day + 6) % 7
  }

  /** Days whose number and weekday are well known: January 1 of 1970, a Thursday. */
  lemma Epoch()
    ensures FirstDayByFormula(1970, 1) == 719163 && Weekday(FirstDayByFormula(1970, 1)) == 3
  {
    assert DaysBeforeYear(1970) == 719162;
  }

  /** The leap day of 2000, a Tuesday. */
  lemma LeapDay()
    ensures FirstDayByFormula(2000, 2) + 28 == 730179 && Weekday(730179) == 1
  {
    assert DaysBeforeYear(2000) == 730119;
  }

  /** The last day of year 9999, a Friday. */
  lemma LastDay()
    ensures FirstDayByFormula(9999, 12) + 30 == 3652059 && Weekday(3652059) == 4
  {
    assert DaysBeforeYear(9999) == 3651694;
  }
}
