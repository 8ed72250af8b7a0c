/** Dividing a range of time into buckets of a fixed frequency. */
module DateRange {
  import opened Wrappers
  import opened Calendar

  datatype Frequency = Minute | Hour | Day | Week | Month

  /** The starts of the buckets; OutOfRange: a date before year 1 or after year 9999 was computed. */
  datatype Buckets = Buckets(starts: seq<int>) | OutOfRange

  /** Microseconds. A moment is counted from midnight of the (fictitious) day 0. */
  const MINUTE := 60_000_000
  const HOUR := 3_600_000_000
  const DAY := 86_400_000_000

  /** December 31 of year 9999. */
  const MAX_DAY := 3652059

  predicate InRange(t: int) {
    DAY <= t < (MAX_DAY + 1) * DAY
  }

  function DayOf(t: int): int {
    t / DAY
  }

  function Midnight(t: int): int {
    DayOf(t) * DAY
  }

  function Delta(f: Frequency): int {
    match f
    case Minute => MINUTE
    case Hour => HOUR
    case Day => DAY
    case Week => 7 * DAY
    case Month => 31 * DAY
  }

  // ----- specification -----

  function Floor(f: Frequency, t: int): int {
    if f.Minute? || f.Hour? then t else Midnight(t)
  }

  function MonthStart(t: int): int
    requires t >= DAY
  {
    FirstDay(MonthOf(DayOf(t))) * DAY
  }

  function DaysSinceSunday(t: int): int {
    (Weekday(DayOf(t)) + 1) % 7
  }

  /** The start of the first bucket. */
  function First(f: Frequency, start: int): int
    requires start >= DAY
  {
    match f
    case Week => Midnight(start) - DaysSinceSunday(start) * DAY
    case Month => MonthStart(start)
    case _ => Floor(f, start)
  }

  /** The start of the bucket after the one that starts at b. */
  function Next(f: Frequency, b: int): int
    requires b >= DAY
  {
    if f.Month? then FirstDay(MonthOf(DayOf(b)) + 1) * DAY else b + Delta(f)
  }

  /** The start of the bucket that the end of the range lies in. */
  function LastStart(f: Frequency, first: int, end: int): int
    requires end >= DAY
  {
    if f.Month? then MonthStart(end) else first + (end - first) / Delta(f) * Delta(f)
  }

  /** The buckets follow one another without a gap, from the first one to the one with the end in it. */
  ghost predicate Tiles(f: Frequency, starts: seq<int>, first: int, end: int) {
    && |starts| > 0 && Consecutive(f, starts, first)
    && starts[|starts| - 1] <= end < Next(f, starts[|starts| - 1])
  }

  ghost predicate Consecutive(f: Frequency, starts: seq<int>, first: int) {
    && (forall i :: 0 <= i < |starts| ==> starts[i] >= DAY)
    && (|starts| > 0 ==> starts[0] == first)
    && (forall i, j :: 0 <= i && j == i + 1 && j < |starts| ==> starts[j] == Next(f, starts[i]))
  }

  lemma NextIsLater(f: Frequency, b: int)
    requires b >= DAY
    ensures Next(f, b) > b
  {
  }

  /** Every moment of the range lies in some bucket. */
  lemma TilesCover(f: Frequency, starts: seq<int>, first: int, end: int, t: int) returns (i: nat)
    requires Tiles(f, starts, first, end) && first <= t <= end
    ensures i < |starts| && starts[i] <= t < Next(f, starts[i])
  {
    i := 0;
    while t >= Next(f, starts[i])
      invariant i < |starts| && starts[i] <= t
      decreases |starts| - i
    {
      assert starts[i + 1] == Next(f, starts[i]);
      i := i + 1;
    }
  }

  lemma {:induction false} StartsAscend(f: Frequency, starts: seq<int>, first: int, i: nat, j: nat)
    requires Consecutive(f, starts, first) && i < j < |starts|
    ensures Next(f, starts[i]) <= starts[j]
    decreases j
  {
    assert starts[j] == Next(f, starts[j - 1]);
    if i < j - 1 {
      StartsAscend(f, starts, first, i, j - 1);
      NextIsLater(f, starts[j - 1]);
    }
  }

  /** And in no other. */
  lemma TilesDisjoint(f: Frequency, starts: seq<int>, first: int, t: int, i: nat, j: nat)
    requires Consecutive(f, starts, first) && i < |starts| && j < |starts|
    requires starts[i] <= t < Next(f, starts[i]) && starts[j] <= t < Next(f, starts[j])
    ensures i == j
  {
    if i < j {
      StartsAscend(f, starts, first, i, j);
    } else if j < i {
      StartsAscend(f, starts, first, j, i);
    }
  }

  // ----- months -----

  lemma DayOfMidnight(day: int)
    ensures DayOf(day * DAY) == day
  {
  }

  lemma StartOfMonth(month: nat)
    ensures FirstDay(month) >= 1 && MonthOf(FirstDay(month)) == month
  {
    MonthsBeginInOrder(0, month);
    NextMonthBegins(month);
    MonthIsUnique(FirstDay(month), month, MonthOf(FirstDay(month)));
  }

  /** The buckets are the months from the first one on, none skipped and none repeated. */
  lemma {:induction false} MonthBuckets(starts: seq<int>, month0: nat, i: nat)
    requires Consecutive(Month, starts, FirstDay(month0) * DAY) && i < |starts|
    ensures starts[i] == FirstDay(month0 + i) * DAY
  {
    if i == 0 {
    } else {
      MonthBuckets(starts, month0, i - 1);
      assert starts[i] == Next(Month, starts[i - 1]);
      NextMonthStart(month0 + (i - 1));
    }
  }

  lemma DayBetween(t: int, a: int, b: int)
    requires a * DAY <= t < b * DAY
    ensures a <= DayOf(t) < b
  {
  }

  lemma MonthOfMoment(t: int, month: nat)
    requires t >= DAY && FirstDay(month) * DAY <= t < FirstDay(month + 1) * DAY
    ensures MonthOf(DayOf(t)) == month && MonthStart(t) == FirstDay(month) * DAY
  {
    DayBetween(t, FirstDay(month), FirstDay(month + 1));
    NextMonthBegins(month);
    MonthIsUnique(DayOf(t), month, MonthOf(DayOf(t)));
  }

  lemma NextMonthStart(month: nat)
    ensures FirstDay(month) * DAY >= DAY && Next(Month, FirstDay(month) * DAY) == FirstDay(month + 1) * DAY
  {
    StartOfMonth(month);
    DayOfMidnight(FirstDay(month));
  }

  /** By month: one bucket for each month from the start's to the end's. */
  lemma MonthsTile(starts: seq<int>, start: int, end: int)
    requires start >= DAY && end >= DAY && Tiles(Month, starts, MonthStart(start), end)
    ensures |starts| == MonthOf(DayOf(end)) - MonthOf(DayOf(start)) + 1
    ensures forall i :: 0 <= i < |starts| ==> starts[i] == FirstDay(MonthOf(DayOf(start)) + i) * DAY
  {
    forall i | 0 <= i < |starts|
      ensures starts[i] == FirstDay(MonthOf(DayOf(start)) + i) * DAY
    {
      MonthBuckets(starts, MonthOf(DayOf(start)), i);
    }
    var month := MonthOf(DayOf(start)) + (|starts| - 1);
    NextMonthStart(month);
    MonthOfMoment(end, month);
  }

  // ----- weeks and shorter -----

  lemma {:induction false} EvenBuckets(f: Frequency, starts: seq<int>, first: int, i: nat)
    requires !f.Month? && Consecutive(f, starts, first) && i < |starts|
    ensures starts[i] == first + i * Delta(f)
  {
    if i == 0 {
    } else {
      EvenBuckets(f, starts, first, i - 1);
      assert starts[i] == Next(f, starts[i - 1]);
    }
  }

  /** By week: every Sunday from the one on or before the start. */
  lemma WeeksTile(starts: seq<int>, start: int, end: int)
    requires start >= DAY && Tiles(Week, starts, First(Week, start), end)
    ensures forall i :: 0 <= i < |starts| ==>
              starts[i] == starts[0] + 7 * i * DAY && Weekday(DayOf(starts[i])) == 6
    ensures starts[0] <= start < starts[0] + 7 * DAY
  {
    var sunday := DayOf(start) - DaysSinceSunday(start);
    assert First(Week, start) == sunday * DAY && Weekday(sunday) == 6;
    forall i | 0 <= i < |starts|
      ensures starts[i] == starts[0] + 7 * i * DAY && Weekday(DayOf(starts[i])) == 6
    {
      EvenBuckets(Week, starts, First(Week, start), i);
      DayOfMidnight(sunday + 7 * i);
    }
  }

  /** By day: midnight of every day from the start's to the end's. */
  lemma DaysTile(starts: seq<int>, start: int, end: int)
    requires start >= DAY && end >= DAY && Tiles(Day, starts, First(Day, start), Floor(Day, end))
    ensures |starts| == DayOf(end) - DayOf(start) + 1
    ensures forall i :: 0 <= i < |starts| ==> starts[i] == (DayOf(start) + i) * 86_400_000_000
  {
    forall i | 0 <= i < |starts|
      ensures starts[i] == (DayOf(start) + i) * 86_400_000_000
    {
      EvenBuckets(Day, starts, First(Day, start), i);
    }
    assert Next(Day, starts[|starts| - 1]) == (DayOf(start) + |starts|) * DAY;
  }

  /** By hour and by minute: from the start itself, one every hour or minute, up to the end. */
  lemma HoursTile(starts: seq<int>, start: int, end: int)
    requires start >= DAY && end >= DAY && Tiles(Hour, starts, First(Hour, start), Floor(Hour, end))
    ensures |starts| == (end - start) / 3_600_000_000 + 1
    ensures forall i :: 0 <= i < |starts| ==> starts[i] == start + i * 3_600_000_000
  {
    forall i | 0 <= i < |starts|
      ensures starts[i] == start + i * 3_600_000_000
    {
      EvenBuckets(Hour, starts, start, i);
    }
    DivisionIs(end - start, 3_600_000_000, |starts| - 1, end - starts[|starts| - 1]);
  }

  lemma MinutesTile(starts: seq<int>, start: int, end: int)
    requires start >= DAY && end >= DAY && Tiles(Minute, starts, First(Minute, start), Floor(Minute, end))
    ensures |starts| == (end - start) / 60_000_000 + 1
    ensures forall i :: 0 <= i < |starts| ==> starts[i] == start + i * 60_000_000
  {
    forall i | 0 <= i < |starts|
      ensures starts[i] == start + i * 60_000_000
    {
      EvenBuckets(Minute, starts, start, i);
    }
    DivisionIs(end - start, 60_000_000, |starts| - 1, end - starts[|starts| - 1]);
  }

  lemma LastEven(f: Frequency, starts: seq<int>, first: int, end: int)
    requires !f.Month? && Tiles(f, starts, first, end)
    ensures starts[|starts| - 1] == first + (end - first) / Delta(f) * Delta(f)
  {
    EvenBuckets(f, starts, first, |starts| - 1);
    DivisionIs(end - first, Delta(f), |starts| - 1, end - starts[|starts| - 1]);
  }

  // ----- the loop -----

  /** The step past the last bucket leaves the range of dates. */
  predicate Overflows(f: Frequency, first: int, end: int)
    requires end >= DAY
  {
    !InRange(LastStart(f, first, end) + Delta(f))
  }

  /** The range that is the last day, by day: its only bucket is within the calendar, and computing it
      raises. So does a range by week that begins on the first day, a Monday. */
  lemma EdgesRaise()
    ensures First(Day, MAX_DAY * DAY) == MAX_DAY * DAY && InRange(MAX_DAY * DAY)
    ensures Tiles(Day, [MAX_DAY * DAY], MAX_DAY * DAY, MAX_DAY * DAY) && Overflows(Day, MAX_DAY * DAY, MAX_DAY * DAY)
    ensures InRange(DAY) && First(Week, DAY) < DAY
  {
    DayOfMidnight(MAX_DAY);
    DayOfMidnight(1);
    LastEven(Day, [MAX_DAY * DAY], MAX_DAY * DAY, MAX_DAY * DAY);
  }

  /** By day, it does exactly if the range ends on the last day of year 9999. */
  lemma DaysOverflowExactly(start: int, end: int)
    requires InRange(start) && InRange(end) && DayOf(start) <= DayOf(end)
    ensures Overflows(Day, First(Day, start), Floor(Day, end)) <==> DayOf(end) == 3652059
  {
    DivisionIs(Floor(Day, end) - First(Day, start), DAY, DayOf(end) - DayOf(start), 0);
  }

  /** Year 10000 begins right after the last day. */
  lemma CalendarEnds()
    ensures FirstDay(MonthIndex(10000, 1)) == MAX_DAY + 1
  {
    FirstDayFormula(10000, 1);
  }

  lemma StepToNextMonth(month: nat)
    ensures (FirstDay(month) + 31) * DAY >= DAY
    ensures MonthStart((FirstDay(month) + 31) * DAY) == FirstDay(month + 1) * DAY
  {
    StartOfMonth(month);
    ThirtyOneDaysLater(month);
    DayOfMidnight(FirstDay(month) + 31);
    MonthIsUnique(FirstDay(month) + 31, month + 1, MonthOf(FirstDay(month) + 31));
  }

  /** 31 days after a month begins is a date in the next month, unless no later month has dates. */
  lemma MonthStep(month: nat, end: int)
    requires FirstDay(month) * DAY <= end && InRange(end)
    ensures var t := FirstDay(month) * DAY + 31 * DAY;
            if InRange(t) then MonthStart(t) == FirstDay(month + 1) * DAY else end < FirstDay(month + 1) * DAY
  {
    StartOfMonth(month);
    StepToNextMonth(month);
    assert FirstDay(month) * DAY + 31 * DAY == (FirstDay(month) + 31) * DAY;
    if FirstDay(month) + 31 > MAX_DAY {
      MonthsEnd(month);
    }
  }

  /** The last month ends with the last day. */
  lemma MonthsEnd(month: nat)
    requires FirstDay(month) + 31 > MAX_DAY
    ensures FirstDay(month + 1) > MAX_DAY
  {
    var end := MonthIndex(10000, 1);
    CalendarEnds();
    ThirtyOneDaysLater(month);
    NextMonthBegins(month + 1);
    if month + 2 <= end {
      MonthsBeginInOrder(month + 2, end);
    } else {
      MonthsBeginInOrder(end, month + 1);
    }
  }

  lemma MidnightOf(t: int)
    requires InRange(t)
    ensures var m := Midnight(t);
            && InRange(m) && DayOf(m) == DayOf(t)
            && MonthStart(m) == MonthStart(t) && DaysSinceSunday(m) == DaysSinceSunday(t)
  {
    DayOfMidnight(DayOf(t));
  }

  lemma FirstOfMonth(t: int)
    requires InRange(t)
    ensures InRange(MonthStart(t)) && (FromOrdinal(DayOf(t)).day == 1 ==> Midnight(t) == MonthStart(t))
  {
    StartOfMonth(MonthOf(DayOf(t)));
  }

  method GetDaterange(start: Option<int>, end: Option<int>, f: Frequency) returns (r: Buckets)
    requires start.Some? ==> InRange(start.value)
    requires end.Some? ==> InRange(end.value)
    ensures start.None? || end.None? ==> r == Buckets([])
    ensures start.Some? && end.Some? ==>
              if First(f, start.value) < DAY then r.OutOfRange?
              else Divided(f, First(f, start.value), Floor(f, end.value), r)
  {
    if start.None? || end.None? {
      return Buckets([]);
    }
    var s, e := start.value, end.value;
    if !f.Minute? && !f.Hour? {
      MidnightOf(s);
      MidnightOf(e);
      s, e := Midnight(s), Midnight(e);
    }
    if f.Week? {
      s := s - DaysSinceSunday(s) * DAY;
      if s < DAY {
        return OutOfRange;
      }
    }
    if !f.Month? {
      r := EvenRange(f, s, e);
    } else {
      FirstOfMonth(s);
      if FromOrdinal(DayOf(s)).day != 1 {
        s := MonthStart(s);
      }
      r := MonthRange(MonthOf(DayOf(start.value)), s, e);
    }
  }

  /** What dividing the time from the start of the first bucket to the end must give. */
  ghost predicate Divided(f: Frequency, first: int, end: int, r: Buckets)
    requires end >= DAY
  {
    if first > end then r == Buckets([])
    else if Overflows(f, first, end) then r.OutOfRange?
    else r.Buckets? && Tiles(f, r.starts, first, end)
  }

  lemma OneMoreBucket(f: Frequency, starts: seq<int>, first: int, s: int)
    requires Consecutive(f, starts, first) && s >= DAY
    requires if starts == [] then s == first else s == Next(f, starts[|starts| - 1])
    ensures Consecutive(f, starts + [s], first)
  {
  }

  /** The loop for all frequencies but the month. */
  method EvenRange(f: Frequency, first: int, end: int) returns (r: Buckets)
    requires !f.Month? && InRange(first) && InRange(end)
    ensures Divided(f, first, end, r)
  {
    var s, starts := first, [];
    while s <= end
      invariant InRange(s) && Consecutive(f, starts, first)
      invariant if starts == [] then s == first
                else first <= end && starts[|starts| - 1] <= end && s == Next(f, starts[|starts| - 1])
      invariant starts != [] ==> InRange(starts[|starts| - 1] + Delta(f))
      decreases end - s
    {
      OneMoreBucket(f, starts, first, s);
      starts := starts + [s];
      if !InRange(s + Delta(f)) {
        LastEven(f, starts, first, end);
        return OutOfRange;
      }
      s := s + Delta(f);
    }
    if starts != [] {
      LastEven(f, starts, first, end);
    }
    return Buckets(starts);
  }

  /** The buckets are the months from the first one up to, and not including, the given one. */
  ghost predicate MonthsBefore(starts: seq<int>, month0: nat, month: nat) {
    && |starts| == month - month0
    && (|starts| > 0 ==> starts[|starts| - 1] == FirstDay(month - 1) * DAY)
    && Consecutive(Month, starts, FirstDay(month0) * DAY)
  }

  lemma {:induction false} OneMoreMonth(starts: seq<int>, month0: nat, month: nat)
    requires MonthsBefore(starts, month0, month)
    ensures MonthsBefore(starts + [FirstDay(month) * DAY], month0, month + 1)
  {
    NextMonthStart(month);
    if month > month0 {
      NextMonthStart(month - 1);
    }
    OneMoreBucket(Month, starts, FirstDay(month0) * DAY, FirstDay(month) * DAY);
  }

  /** Once the end is reached, those buckets divide the range. */
  lemma {:induction false} MonthsDivide(starts: seq<int>, month0: nat, month: nat, end: int)
    requires MonthsBefore(starts, month0, month) && end >= DAY
    requires end < FirstDay(month) * DAY
    requires starts != [] ==> starts[|starts| - 1] <= end && InRange(starts[|starts| - 1] + Delta(Month))
    ensures Divided(Month, FirstDay(month0) * DAY, end, Buckets(starts))
  {
    if starts != [] {
      NextMonthStart(month - 1);
      MonthOfMoment(end, month - 1);
      MonthsBeginInOrder(month0, month - 1);
    }
  }

  /** The loop for the month; s is the start of the given month. */
  method MonthRange(ghost month0: nat, first: int, end: int) returns (r: Buckets)
    requires first == FirstDay(month0) * DAY && InRange(first) && InRange(end)
    ensures Divided(Month, first, end, r)
  {
    var s, starts := first, [];
    ghost var month := month0;
    while s <= end
      invariant s == FirstDay(month) * DAY && InRange(s)
      invariant MonthsBefore(starts, month0, month)
      invariant starts != [] ==>
                  first <= end && starts[|starts| - 1] <= end && InRange(starts[|starts| - 1] + Delta(Month))
      decreases end - s
    {
      NextMonthBegins(month);
      OneMoreMonth(starts, month0, month);
      MonthStep(month, end);
      starts := starts + [s];
      if !InRange(s + Delta(Month)) {
        MonthOfMoment(end, month);
        return OutOfRange;
      }
      s := MonthStart(s + Delta(Month));
      month := month + 1;
    }
    MonthsDivide(starts, month0, month, end);
    return Buckets(starts);
  }
}
