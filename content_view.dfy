/**
 * The three computations inside the calendar and history views
 * (ContentView.swift): the month grid, the duration read-out and the week
 * strip. The calendar library's answers (the weekday of the first of the
 * month, the number of days in it, the first day of the week) are parameters.
 */
module ContentView {
  import opened Wrappers

  /** A grid cell: a day of the month, or a blank (a nil date). */
  type Cell = Option<nat>

  function Min(a: int, b: int): int {
    if a <= b then a else b
  }

  /** `n` blank cells. */
  function Blanks(n: nat): (r: seq<Cell>)
    ensures |r| == n && forall i | 0 <= i < n :: r[i] == None
  {
    seq(n, _ => None)
  }

  /** The cells for days first, first + 1, ..., first + count - 1. */
  function DayCells(first: nat, count: nat): (r: seq<Cell>)
    ensures |r| == count && forall i | 0 <= i < count :: r[i] == Some(first + i)
  {
    seq(count, i => Some(first + i))
  }

  /** A cell count that fills whole weeks. */
  predicate WholeWeeks(n: nat) {
    n % 7 == 0
  }

  /** How many blanks the padding loop adds to `n` cells: the fewest that reach a multiple of 7. */
  function TrailingPad(n: nat): (p: nat)
    ensures p < 7 && WholeWeeks(n + p)
    ensures forall m | n <= m < n + p :: !WholeWeeks(m)
  {
    (7 - n % 7) % 7
  }

  /**
   * The flat cell list of a month: a blank for each weekday before the first
   * (weekdays are numbered 1 to 7), the days in order, then blanks up to a
   * whole number of weeks.
   */
  function MonthCells(firstWeekday: int, daysInMonth: nat): seq<Cell>
    requires 1 <= firstWeekday <= 7
  {
    var filled := Blanks(firstWeekday - 1) + DayCells(1, daysInMonth);
    filled + Blanks(TrailingPad(|filled|))
  }

  /**
   * The rows of seven taken by striding over `cells` in steps of 7; the last
   * row is shorter when |cells| is not a multiple of 7.
   */
  function Rows<T>(cells: seq<T>): seq<seq<T>> {
    seq((|cells| + 6) / 7, i requires 0 <= i < (|cells| + 6) / 7 => cells[7 * i .. Min(7 * i + 7, |cells|)])
  }

  function Flatten<T>(rows: seq<seq<T>>): seq<T>
    decreases |rows|
  {
    if rows == [] then [] else rows[0] + Flatten(rows[1..])
  }

  /** The day numbers of the non-blank cells, in order. */
  function DaysOf(cells: seq<Cell>): seq<nat>
    decreases |cells|
  {
    if cells == [] then []
    else (match cells[0] case None => [] case Some(d) => [d]) + DaysOf(cells[1..])
  }

  /** The numbers lo, lo + 1, ..., hi - 1. */
  function Range(lo: nat, hi: nat): (r: seq<nat>)
    ensures |r| == if lo <= hi then hi - lo else 0
    ensures forall i | 0 <= i < |r| :: r[i] == lo + i
    decreases hi - lo
  {
    if lo < hi then [lo] + Range(lo + 1, hi) else []
  }

  /** Ceiling of n / 7. */
  function WeeksFor(n: nat): nat {
    (n + 6) / 7
  }

  /**
   * monthWeeks: fill the leading blanks, append the days one by one, pad with
   * blanks while the count is not a multiple of 7, then cut into rows of 7.
   */
  method MonthWeeks(firstWeekday: int, daysInMonth: int) returns (weeks: seq<seq<Cell>>)
    requires 1 <= firstWeekday <= 7
    requires daysInMonth >= 1
    ensures weeks == Rows(MonthCells(firstWeekday, daysInMonth))
    ensures Flatten(weeks) == MonthCells(firstWeekday, daysInMonth)
    ensures |weeks| == WeeksFor(firstWeekday - 1 + daysInMonth)
    ensures forall i | 0 <= i < |weeks| :: |weeks[i]| == 7
  {
    var dates := Blanks(firstWeekday - 1);
    for day := 1 to daysInMonth + 1
      invariant dates == Blanks(firstWeekday - 1) + DayCells(1, day - 1)
    {
      assert DayCells(1, day) == DayCells(1, day - 1) + [Some(day)];
      dates := dates + [Some(day)];
    }
    ghost var filled := dates;
    while |dates| % 7 != 0
      invariant |filled| <= |dates| <= |filled| + TrailingPad(|filled|)
      invariant dates == filled + Blanks(|dates| - |filled|)
      decreases |filled| + TrailingPad(|filled|) - |dates|
    {
      assert Blanks(|dates| + 1 - |filled|) == Blanks(|dates| - |filled|) + [None];
      dates := dates + [None];
    }
    assert |dates| - |filled| == TrailingPad(|filled|);
    weeks := Rows(dates);
    MonthCellsShape(firstWeekday, daysInMonth);
    FullRows(dates);
    FlattenRows(dates);
  }

  /**
   * The cell at every position of the month: blank before the first weekday,
   * then day i - (firstWeekday - 1) + 1, then blank; the list is a whole number
   * of weeks, and fewer than seven trailing blanks were added.
   */
  lemma MonthCellsShape(firstWeekday: int, daysInMonth: nat)
    requires 1 <= firstWeekday <= 7
    ensures var cells := MonthCells(firstWeekday, daysInMonth);
      var lead := firstWeekday - 1;
      |cells| % 7 == 0 &&
      lead + daysInMonth <= |cells| < lead + daysInMonth + 7 &&
      |cells| == 7 * WeeksFor(lead + daysInMonth) &&
      (forall i | 0 <= i < |cells| ::
         cells[i] == if i < lead then None else if i < lead + daysInMonth then Some(i - lead + 1) else None)
  {
  }

  /** When the cell count is a multiple of 7, every row has exactly 7 cells. */
  lemma FullRows<T>(cells: seq<T>)
    requires |cells| % 7 == 0
    ensures |Rows(cells)| == |cells| / 7
    ensures forall i | 0 <= i < |Rows(cells)| :: |Rows(cells)[i]| == 7
  {
  }

  /** Stride chunking peels off its first row and continues with the rest. */
  lemma RowsCons<T>(cells: seq<T>)
    requires cells != []
    ensures Rows(cells) == [cells[..Min(7, |cells|)]] + Rows(cells[Min(7, |cells|)..])
  {
    var k := Min(7, |cells|);
    var rest := cells[k..];
    var a := Rows(cells);
    var b := [cells[..k]] + Rows(rest);
    assert |a| == |b|;
    forall i | 0 <= i < |a| ensures a[i] == b[i] {
      if i > 0 {
        assert Rows(rest)[i - 1] == rest[7 * (i - 1) .. Min(7 * (i - 1) + 7, |rest|)];
        assert rest[7 * (i - 1) .. Min(7 * (i - 1) + 7, |rest|)] == cells[7 * i .. Min(7 * i + 7, |cells|)];
      }
    }
  }

  /** Joining the rows gives back the cell list, whatever its length. */
  lemma {:induction false} FlattenRows<T>(cells: seq<T>)
    ensures Flatten(Rows(cells)) == cells
    decreases |cells|
  {
    if cells != [] {
      var k := Min(7, |cells|);
      RowsCons(cells);
      assert Rows(cells)[1..] == Rows(cells[k..]);
      FlattenRows(cells[k..]);
      assert cells == cells[..k] + cells[k..];
    }
  }

  /** DaysOf distributes over concatenation. */
  lemma {:induction false} DaysOfAppend(a: seq<Cell>, b: seq<Cell>)
    ensures DaysOf(a + b) == DaysOf(a) + DaysOf(b)
    decreases |a|
  {
    if a != [] {
      assert (a + b)[0] == a[0];
      assert (a + b)[1..] == a[1..] + b;
      DaysOfAppend(a[1..], b);
    } else {
      assert a + b == b;
    }
  }

  lemma {:induction false} DaysOfBlanks(n: nat)
    ensures DaysOf(Blanks(n)) == []
    decreases n
  {
    if n > 0 {
      assert Blanks(n)[1..] == Blanks(n - 1);
      DaysOfBlanks(n - 1);
    }
  }

  lemma {:induction false} DaysOfDayCells(first: nat, count: nat)
    ensures DaysOf(DayCells(first, count)) == Range(first, first + count)
    decreases count
  {
    if count > 0 {
      assert DayCells(first, count)[1..] == DayCells(first + 1, count - 1);
      DaysOfDayCells(first + 1, count - 1);
    }
  }

  /** The non-blank cells of the month are the days 1 to daysInMonth, once each, in order. */
  lemma MonthDays(firstWeekday: int, daysInMonth: nat)
    requires 1 <= firstWeekday <= 7
    ensures DaysOf(MonthCells(firstWeekday, daysInMonth)) == Range(1, daysInMonth + 1)
  {
    var filled := Blanks(firstWeekday - 1) + DayCells(1, daysInMonth);
    DaysOfAppend(filled, Blanks(TrailingPad(|filled|)));
    DaysOfAppend(Blanks(firstWeekday - 1), DayCells(1, daysInMonth));
    DaysOfBlanks(firstWeekday - 1);
    DaysOfBlanks(TrailingPad(|filled|));
    DaysOfDayCells(1, daysInMonth);
  }

  /** Swift's integer division, which rounds toward zero. */
  function TruncDiv(a: int, d: nat): int
    requires d > 0
  {
    if a >= 0 then a / d else -((-a) / d)
  }

  /** Swift's remainder, whose sign follows the dividend. */
  function TruncRem(a: int, d: nat): int
    requires d > 0
  {
    a - d * TruncDiv(a, d)
  }

  /** The two numbers the history view prints for a duration. */
  datatype HoursMinutes = HoursMinutes(hours: int, minutes: int)

  /**
   * formatDuration: whole hours, and the minutes left over, of a duration in
   * whole seconds.
   */
  function FormatDuration(seconds: int): (hm: HoursMinutes)
    ensures seconds >= 0 ==>
      0 <= hm.minutes < 60 && hm.hours >= 0 &&
      hm.hours * 3600 + hm.minutes * 60 <= seconds < hm.hours * 3600 + hm.minutes * 60 + 60
  {
    HoursMinutes(TruncDiv(seconds, 3600), TruncRem(TruncDiv(seconds, 60), 60))
  }

  /** For a non-negative duration, the hours and minutes are the only ones that fit. */
  lemma FormatDurationUnique(seconds: nat, hours: int, minutes: int)
    requires 0 <= minutes < 60
    requires hours * 3600 + minutes * 60 <= seconds < hours * 3600 + minutes * 60 + 60
    ensures FormatDuration(seconds) == HoursMinutes(hours, minutes)
  {
  }

  /** For a non-negative duration, the hours and minutes are Swift's quotients. */
  lemma FormatDurationClosedForm(seconds: nat)
    ensures FormatDuration(seconds) == HoursMinutes(seconds / 3600, (seconds / 60) % 60)
  {
  }

  /** A negative duration, as Swift's arithmetic truncates, reads as the negated positive one. */
  lemma FormatDurationNegated(seconds: nat)
    ensures FormatDuration(-(seconds as int)) ==
      HoursMinutes(-FormatDuration(seconds).hours, -FormatDuration(seconds).minutes)
  {
  }

  /**
   * weekDates: the seven days starting at startOfWeek, given as day numbers,
   * each one day after the previous.
   */
  function WeekDates(startOfWeek: int): (days: seq<int>)
    ensures |days| == 7 && days[0] == startOfWeek
    ensures forall i | 0 <= i < 6 :: days[i + 1] == days[i] + 1
  {
    seq(7, i => startOfWeek + i)
  }

  /** The week strip shows exactly the seven days from startOfWeek on. */
  lemma WeekDatesCoverWeek(startOfWeek: int, d: int)
    ensures d in WeekDates(startOfWeek) <==> startOfWeek <= d < startOfWeek + 7
  {
    var days := WeekDates(startOfWeek);
    if startOfWeek <= d < startOfWeek + 7 {
      assert days[d - startOfWeek] == d;
    }
  }
}
