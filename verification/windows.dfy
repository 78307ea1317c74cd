/** Calendar arithmetic for the analysis windows: Monday 00:00:00 to Sunday
    23:59:59 weeks counted back from a reference moment.

    Moments are whole seconds since 0001-01-01 00:00:00 in naive local time
    (the proleptic Gregorian calendar Python's `datetime` uses). Day number 0
    is 0001-01-01, a Monday, so the weekday of a day is its number modulo 7
    with Monday = 0, as `datetime.weekday()` reports it. */
module Windows {

  type Instant = int

  const SecondsPerDay: int := 86400
  const DaysPerWeek: int := 7
  const SecondsPerWeek: int := DaysPerWeek * SecondsPerDay
  /** `timedelta(days=6, hours=23, minutes=59, seconds=59)` */
  const WeekSpan: int := 6 * SecondsPerDay + 23 * 3600 + 59 * 60 + 59

  /** The calendar date of a moment, as a day number (`dt.date()`). */
  function DayOf(t: Instant): int
  {
    t / SecondsPerDay
  }

  /** `date.weekday()`: Monday = 0 ... Sunday = 6. */
  function Weekday(day: int): int
  {
    day % DaysPerWeek
  }

  predicate IsMondayMidnight(t: Instant)
  {
    t % SecondsPerDay == 0 && Weekday(DayOf(t)) == 0
  }

  datatype Window = Window(start: Instant, end: Instant)
  {
    function StartDay(): int { DayOf(start) }
    function EndDay(): int { DayOf(end) }

    /** `start.date() <= date <= end.date()`: both ends inclusive. */
    predicate ContainsDay(day: int)
    {
      StartDay() <= day <= EndDay()
    }
  }

  /** How a window is named: "Неделя {number}: {first day} - {last day}",
      with `number` counting from 1 for the most recent week. */
  datatype WeekLabel = WeekLabel(number: nat, firstDay: int, lastDay: int)

  function LabelOf(index: nat, w: Window): WeekLabel
  {
    WeekLabel(index + 1, w.StartDay(), w.EndDay())
  }

  /** Window `i`: go back `weekday + 7 i` days from `current`, then reset the
      time of day to midnight; the end is 6 days 23:59:59 later. */
  function WeekWindow(current: Instant, i: nat): (w: Window)
    ensures IsMondayMidnight(w.start)
    ensures w.end == w.start + WeekSpan
    ensures w.StartDay() == DayOf(current) - Weekday(DayOf(current)) - DaysPerWeek * i
    ensures w.EndDay() == w.StartDay() + 6
  {
    var day := DayOf(current) - Weekday(DayOf(current)) - DaysPerWeek * i;
    var start := day * SecondsPerDay;
    assert DayOf(start) == day;
    assert DayOf(start + WeekSpan) == day + 6;
    Window(start, start + WeekSpan)
  }

  /** `calculate_working_weeks`: the last `numWeeks` Monday-to-Sunday weeks,
      most recent first. Every window starts on a Monday at midnight and ends
      6 days 23:59:59 later, each window starts exactly one week before the
      previous one, and the first contains `current`. A non-positive count
      gives no windows, as `range` does. */
  function CalculateWorkingWeeks(current: Instant, numWeeks: int): (weeks: seq<Window>)
    ensures |weeks| == if numWeeks > 0 then numWeeks else 0
    ensures forall i | 0 <= i < |weeks| ::
      IsMondayMidnight(weeks[i].start) && weeks[i].end == weeks[i].start + WeekSpan
    ensures forall i | 0 < i < |weeks| :: weeks[i].start == weeks[i - 1].start - SecondsPerWeek
    ensures |weeks| > 0 ==> weeks[0].start <= current <= weeks[0].end
  {
    var n := if numWeeks > 0 then numWeeks else 0;
    var weeks := seq(n, i requires 0 <= i < n => WeekWindow(current, i));
    assert forall i | 0 < i < |weeks| :: weeks[i].start == weeks[i - 1].start - SecondsPerWeek by {
      forall i | 0 < i < |weeks| ensures weeks[i].start == weeks[i - 1].start - SecondsPerWeek {
        var a, b := weeks[i - 1], weeks[i];
        assert b.StartDay() == a.StartDay() - DaysPerWeek;
        assert a.start == a.StartDay() * SecondsPerDay;
        assert b.start == b.StartDay() * SecondsPerDay;
      }
    }
    assert n > 0 ==> weeks[0].start <= current <= weeks[0].end by {
      if n > 0 {
        var w := weeks[0];
        var d := DayOf(current);
        assert w.StartDay() == d - Weekday(d);
        assert w.start == (d - Weekday(d)) * SecondsPerDay;
        assert d * SecondsPerDay <= current < d * SecondsPerDay + SecondsPerDay;
      }
    }
    weeks
  }

  /** The windows tile a contiguous stretch of days: consecutive windows
      meet with no gap (one ends the second before the next-more-recent one
      starts), and every day from the first day of the oldest window to the
      last day of the newest lies in exactly one window. */
  lemma WindowsTileDays(current: Instant, numWeeks: int, day: int)
    requires numWeeks > 0
    ensures var weeks := CalculateWorkingWeeks(current, numWeeks);
      forall i | 0 < i < |weeks| :: weeks[i].end + 1 == weeks[i - 1].start
    ensures var weeks := CalculateWorkingWeeks(current, numWeeks);
      weeks[|weeks| - 1].StartDay() <= day <= weeks[0].EndDay() ==>
        exists i | 0 <= i < |weeks| :: weeks[i].ContainsDay(day)
    ensures var weeks := CalculateWorkingWeeks(current, numWeeks);
      forall i, j | 0 <= i < |weeks| && 0 <= j < |weeks| ::
        weeks[i].ContainsDay(day) && weeks[j].ContainsDay(day) ==> i == j
  {
    var weeks := CalculateWorkingWeeks(current, numWeeks);
    var d0 := DayOf(current) - Weekday(DayOf(current));
    assert WeekSpan + 1 == SecondsPerWeek;
    forall i | 0 <= i < |weeks| ensures weeks[i].StartDay() == d0 - 7 * i && weeks[i].EndDay() == d0 - 7 * i + 6 {
      WindowDays(current, numWeeks, i);
    }
    TileDays(weeks, d0, day);
  }

  /** Windows `i` weeks before the Monday `d0` cover every day of their
      stretch exactly once. */
  lemma TileDays(weeks: seq<Window>, d0: int, day: int)
    requires |weeks| > 0
    requires forall i | 0 <= i < |weeks| :: weeks[i].StartDay() == d0 - 7 * i && weeks[i].EndDay() == d0 - 7 * i + 6
    ensures weeks[|weeks| - 1].StartDay() <= day <= weeks[0].EndDay() ==>
      exists i | 0 <= i < |weeks| :: weeks[i].ContainsDay(day)
    ensures forall i, j | 0 <= i < |weeks| && 0 <= j < |weeks| ::
      weeks[i].ContainsDay(day) && weeks[j].ContainsDay(day) ==> i == j
  {
    if weeks[|weeks| - 1].StartDay() <= day <= weeks[0].EndDay() {
      WeekOfDay(d0, |weeks|, day);
      assert weeks[(d0 + 6 - day) / 7].ContainsDay(day);
    }
    forall i, j | 0 <= i < |weeks| && 0 <= j < |weeks| && weeks[i].ContainsDay(day) && weeks[j].ContainsDay(day)
      ensures i == j
    {
      SameWeek(d0, i, j, day);
    }
  }

  /** The days window `i` covers, counted back from the current Monday. */
  lemma WindowDays(current: Instant, numWeeks: int, i: nat)
    requires i < |CalculateWorkingWeeks(current, numWeeks)|
    ensures var w := CalculateWorkingWeeks(current, numWeeks)[i];
      var d0 := DayOf(current) - Weekday(DayOf(current));
      w.StartDay() == d0 - 7 * i && w.EndDay() == d0 - 7 * i + 6
  {
    assert CalculateWorkingWeeks(current, numWeeks)[i] == WeekWindow(current, i);
  }

  lemma SameWeek(d0: int, i: int, j: int, day: int)
    requires d0 - 7 * i <= day <= d0 - 7 * i + 6
    requires d0 - 7 * j <= day <= d0 - 7 * j + 6
    ensures i == j
  {
  }

  lemma WeekOfDay(d0: int, n: nat, day: int)
    requires n > 0 && d0 - 7 * (n - 1) <= day <= d0 + 6
    ensures var i := (d0 + 6 - day) / 7;
      0 <= i < n && d0 - 7 * i <= day <= d0 - 7 * i + 6
  {
  }
}
