/**
 * The calendar view: the fixed six-week grid `renderCalendar` draws for the
 * shown month, and the month stepping of `changeMonth`. Months here are
 * 0-based (0 is January), as `getMonth` returns them.
 */
module Calendar {

  import opened Seqs
  import opened Dates
  import opened DateFormat
  import opened Todos

  /** The grid always has six rows of seven days. */
  const GridCells := 42

  /**
   * One day of the grid: its date, whether it belongs to the shown month
   * (cells that do not are drawn as `other-month`), whether it is today,
   * and the todos listed on it.
   */
  datatype Cell = Cell(date: Date, inMonth: bool, isToday: bool, tasks: seq<Todo>)

  /** The first day of month `month0` of `year`, as `new Date(year, month0, 1)` builds it. */
  function FirstOfMonth(year: int, month0: int): (d: Date)
    requires 0 <= month0 <= 11
    ensures ValidDate(d) && d.day == 1
  {
    Date(year, month0 + 1, 1)
  }

  /** The first cell: the first of the month moved back by its weekday. */
  function GridStart(year: int, month0: int): (d: Date)
    requires 0 <= month0 <= 11
    ensures ValidDate(d)
  {
    var first := FirstOfMonth(year, month0);
    AddDays(first, -Weekday(first))
  }

  /** Cell `i` of the grid of `month0` of `year`, given today's date and the todos. */
  function CellAt(year: int, month0: int, today: Date, todos: seq<Todo>, i: int): (c: Cell)
    requires 0 <= month0 <= 11
    ensures ValidDate(c.date) && DayNumber(c.date) == DayNumber(GridStart(year, month0)) + i
    ensures forall t :: t in c.tasks ==> t in todos && t.date == KoreanDateString(c.date)
  {
    AddDaysNumber(GridStart(year, month0), i);
    var d := AddDays(GridStart(year, month0), i);
    Cell(d, d.month - 1 == month0, d == today, OnDate(todos, KoreanDateString(d)))
  }

  /** The whole grid. */
  function Grid(year: int, month0: int, today: Date, todos: seq<Todo>): (g: seq<Cell>)
    requires 0 <= month0 <= 11
    ensures |g| == GridCells
  {
    seq(GridCells, i => CellAt(year, month0, today, todos, i))
  }

  /** How many cells belong to the shown month. */
  function InMonthCount(cells: seq<Cell>): (n: nat)
    ensures n <= |cells|
    decreases |cells|
  {
    if cells == [] then 0
    else (if cells[0].inMonth then 1 else 0) + InMonthCount(cells[1..])
  }

  /**
   * The grid starts on a Sunday, no more than six days before the first
   * of the month: exactly as many days before it as the first's weekday.
   */
  lemma GridStartIsSunday(year: int, month0: int)
    requires 0 <= month0 <= 11
    ensures var first := FirstOfMonth(year, month0);
      var start := GridStart(year, month0);
      && Weekday(start) == 0
      && DayNumber(start) == DayNumber(first) - Weekday(first)
      && DayNumber(first) - 6 <= DayNumber(start) <= DayNumber(first)
  {
    WeekStart(FirstOfMonth(year, month0));
  }

  /** Each cell is the day after the one before it. */
  lemma GridConsecutive(year: int, month0: int, today: Date, todos: seq<Todo>)
    requires 0 <= month0 <= 11
    ensures var g := Grid(year, month0, today, todos);
      && g[0].date == GridStart(year, month0)
      && forall i :: 0 <= i < GridCells - 1 ==> g[i + 1].date == NextDay(g[i].date)
  {
    var start := GridStart(year, month0);
    forall i | 0 <= i < GridCells - 1
      ensures AddDays(start, i + 1) == NextDay(AddDays(start, i))
    {
      AddDaysSucc(start, i);
    }
  }

  /**
   * Which date each cell shows: the last days of the previous month, then
   * the shown month from its first day to its last, then the first days
   * of the following month.
   */
  lemma CellShape(year: int, month0: int, i: int)
    requires 0 <= month0 <= 11 && 0 <= i < GridCells
    ensures var first := FirstOfMonth(year, month0);
      var w := Weekday(first);
      var dim := DaysInMonth(year, month0 + 1);
      var d := AddDays(GridStart(year, month0), i);
      && (w <= i < w + dim ==> d == Date(year, month0 + 1, i - w + 1))
      && (i < w ==> d == PrevDay(first).(day := PrevDay(first).day - (w - 1 - i)))
      && (w + dim <= i ==> d == NextDay(Date(year, month0 + 1, dim)).(day := 1 + i - w - dim))
      && (d.month == month0 + 1 <==> w <= i < w + dim)
  {
    var first := FirstOfMonth(year, month0);
    var w := Weekday(first);
    var dim := DaysInMonth(year, month0 + 1);
    var start := GridStart(year, month0);
    var d := AddDays(start, i);
    AddDaysNumber(first, -w);
    AddDaysNumber(start, i);
    assert DayNumber(d) == DayNumber(first) - w + i;
    if i < w {
      var prev := PrevDay(first);
      PrevDayNumber(first);
      var e := prev.(day := prev.day - (w - 1 - i));
      assert ValidDate(e) && DayNumber(e) == DayNumber(prev) - (w - 1 - i);
      DayNumberOrder(d, e);
    } else if i < w + dim {
      var e := Date(year, month0 + 1, i - w + 1);
      DayNumberOrder(d, e);
    } else {
      var last := Date(year, month0 + 1, dim);
      var next := NextDay(last);
      NextDayNumber(last);
      var e := next.(day := 1 + i - w - dim);
      assert ValidDate(e) && DayNumber(e) == DayNumber(next) + (i - w - dim);
      DayNumberOrder(d, e);
    }
  }

  /** Counting cells flagged exactly on an index range gives the range's length. */
  lemma {:induction false} CountRange(cells: seq<Cell>, lo: int, hi: int)
    requires 0 <= lo <= hi <= |cells|
    requires forall i :: 0 <= i < |cells| ==> (cells[i].inMonth <==> lo <= i < hi)
    ensures InMonthCount(cells) == hi - lo
    decreases |cells|
  {
    if cells != [] {
      var lo', hi' := if lo > 0 then lo - 1 else 0, if hi > 0 then hi - 1 else 0;
      assert forall i :: 0 <= i < |cells| - 1 ==> cells[1..][i] == cells[i + 1];
      CountRange(cells[1..], lo', hi');
    }
  }

  /**
   * A cell is in the shown month exactly on the month's days, so the grid
   * has as many in-month cells as the month has days.
   */
  lemma InMonthCells(year: int, month0: int, today: Date, todos: seq<Todo>)
    requires 0 <= month0 <= 11
    ensures var g := Grid(year, month0, today, todos);
      var w := Weekday(FirstOfMonth(year, month0));
      && (forall i :: 0 <= i < GridCells ==>
            (g[i].inMonth <==> w <= i < w + DaysInMonth(year, month0 + 1)))
      && InMonthCount(g) == DaysInMonth(year, month0 + 1)
  {
    var g := Grid(year, month0, today, todos);
    var w := Weekday(FirstOfMonth(year, month0));
    var dim := DaysInMonth(year, month0 + 1);
    forall i | 0 <= i < GridCells ensures g[i].inMonth <==> w <= i < w + dim {
      CellShape(year, month0, i);
    }
    CountRange(g, w, w + dim);
  }

  /**
   * Each cell lists exactly the todos whose date string is the cell's
   * `YYYY-MM-DD` string, each as often as it occurs, in collection order.
   */
  lemma CellTasks(year: int, month0: int, today: Date, todos: seq<Todo>, i: int)
    requires 0 <= month0 <= 11 && 0 <= i < GridCells
    ensures var c := Grid(year, month0, today, todos)[i];
      && (forall t :: t in c.tasks <==> t in todos && t.date == KoreanDateString(c.date))
      && (forall t: Todo :: t.date == KoreanDateString(c.date) ==>
            multiset(c.tasks)[t] == multiset(todos)[t])
      && IsSubsequence(c.tasks, todos)
  {
    var c := Grid(year, month0, today, todos)[i];
    KeepIsSubsequence(todos, (t: Todo) => t.date == KoreanDateString(c.date));
  }

  /** February 2024 starts on a Thursday, so its grid starts on Sunday 28 January. */
  lemma February2024Start()
    ensures GridStart(2024, 1) == Date(2024, 1, 28)
  {
    var first := FirstOfMonth(2024, 1);
    assert DaysBeforeYear(2024) == 738885;
    assert Weekday(first) == 4;
    AddDaysNumber(first, -4);
    DayNumberOrder(AddDays(first, -4), Date(2024, 1, 28));
  }

  /** February 2024 is a leap-year February: 29 of the 42 cells are in the month. */
  lemma February2024Count(today: Date, todos: seq<Todo>)
    ensures InMonthCount(Grid(2024, 1, today, todos)) == 29
  {
    InMonthCells(2024, 1, today, todos);
  }

  /**
   * `changeMonth(delta)`: add `delta` to the month; above 11 the month
   * becomes 0 and the year goes up by one, below 0 it becomes 11 and the
   * year goes down by one. The month always ends up in 0..11.
   */
  function NavigateMonth(year: int, month0: int, delta: int): (r: (int, int))
    ensures 0 <= r.1 <= 11
  {
    var m := month0 + delta;
    if m > 11 then (year + 1, 0)
    else if m < 0 then (year - 1, 11)
    else (year, m)
  }

  /**
   * A step of one month moves one month along the calendar: the year
   * rises exactly on December to January and falls exactly on January to
   * December.
   */
  lemma NavigateStep(year: int, month0: int, delta: int)
    requires 0 <= month0 <= 11 && (delta == 1 || delta == -1)
    ensures var (y, m) := NavigateMonth(year, month0, delta);
      && y * 12 + m == year * 12 + month0 + delta
      && (y == year + 1 <==> month0 == 11 && delta == 1)
      && (y == year - 1 <==> month0 == 0 && delta == -1)
      && (y == year <==> !(month0 == 11 && delta == 1) && !(month0 == 0 && delta == -1))
  {
  }

  /** Next month then previous month, or the other way round, comes back. */
  lemma NavigateRoundTrip(year: int, month0: int)
    requires 0 <= month0 <= 11
    ensures var (y, m) := NavigateMonth(year, month0, 1); NavigateMonth(y, m, -1) == (year, month0)
    ensures var (y, m) := NavigateMonth(year, month0, -1); NavigateMonth(y, m, 1) == (year, month0)
  {
  }

}
