/**
 * The application object: the todo collection, the month the calendar
 * shows and the todo open in the edit dialog, changed in place by the
 * handlers the page wires to its buttons.
 */
module App {

  import opened Wrappers
  import opened Strings
  import opened Dates
  import opened DateFormat
  import opened Todos
  import opened Calendar
  import opened Seqs

  class TodoApp {
    var todos: seq<Todo>
    /** The month the calendar shows, 0-based as `getMonth` returns it. */
    var currentMonth: int
    var currentYear: int
    /** The id of the todo open in the edit dialog, `null` when none is. */
    var editingTodoId: Option<int>
    /** The collection a reload from storage would give back. */
    ghost var saved: seq<Todo>

    ghost predicate Valid()
      reads this
    {
      0 <= currentMonth <= 11 && saved == todos
    }

    /**
     * Loads the stored collection (an absent entry reads as empty) and shows
     * the month of `now`, the host's local date.
     */
    constructor (stored: Option<seq<Todo>>, now: Date)
      requires ValidDate(now)
      ensures Valid()
      ensures todos == (if stored.Some? then stored.value else [])
      ensures currentYear == now.year && currentMonth == now.month - 1
      ensures editingTodoId == None
    {
      todos := if stored.Some? then stored.value else [];
      currentMonth := now.month - 1;
      currentYear := now.year;
      editingTodoId := None;
      saved := if stored.Some? then stored.value else [];
    }

    /**
     * `addTodo`: with the typed text trimmed, refuses an empty text or date
     * and otherwise appends a new, not completed todo and saves.
     */
    method AddTodo(input: string, date: string, id: int, createdAt: string) returns (added: bool)
      requires Valid()
      modifies this
      ensures Valid()
      ensures added <==> Trim(input) != [] && date != []
      ensures todos == if added then old(todos) + [Todo(id, Trim(input), date, false, createdAt)]
                       else old(todos)
      ensures currentMonth == old(currentMonth) && currentYear == old(currentYear)
      ensures editingTodoId == old(editingTodoId)
    {
      var text := Trim(input);
      if text == [] || date == [] {
        return false;
      }
      var todo := Todo(id, text, date, false, createdAt);
      todos := todos + [todo];
      saved := todos;
      added := true;
    }

    /** `deleteTodo`, once the user has confirmed: drops every todo with the id and saves. */
    method DeleteTodo(id: int)
      requires Valid()
      modifies this
      ensures Valid()
      ensures todos == WithoutId(old(todos), id)
      ensures currentMonth == old(currentMonth) && currentYear == old(currentYear)
      ensures editingTodoId == old(editingTodoId)
    {
      todos := WithoutId(todos, id);
      saved := todos;
    }

    /** `toggleComplete`: flips `completed` on the first todo with the id, if any, and saves. */
    method ToggleComplete(id: int)
      requires Valid()
      modifies this
      ensures Valid()
      ensures todos == Toggled(old(todos), id)
      ensures currentMonth == old(currentMonth) && currentYear == old(currentYear)
      ensures editingTodoId == old(editingTodoId)
    {
      var found := FindIndex(todos, id);
      if found.Some? {
        var i := found.value;
        todos := todos[i := todos[i].(completed := !todos[i].completed)];
        saved := todos;
      }
    }

    /** `editTodo`: opens the edit dialog on the id, only if some todo has it. */
    method EditTodo(id: int)
      requires Valid()
      modifies this
      ensures Valid()
      ensures editingTodoId == if FindIndex(todos, id).Some? then Some(id) else old(editingTodoId)
      ensures todos == old(todos)
      ensures currentMonth == old(currentMonth) && currentYear == old(currentYear)
    {
      var found := FindIndex(todos, id);
      if found.Some? {
        editingTodoId := Some(id);
      }
    }

    /**
     * `saveEdit`: refuses an empty text or date and leaves the dialog open;
     * otherwise overwrites text and date of the todo being edited, if it is
     * still there, and closes the dialog.
     */
    method SaveEdit(input: string, date: string) returns (accepted: bool)
      requires Valid()
      modifies this
      ensures Valid()
      ensures accepted <==> Trim(input) != [] && date != []
      ensures accepted ==> todos == Edited(old(todos), old(editingTodoId), Trim(input), date)
                           && editingTodoId == None
      ensures !accepted ==> todos == old(todos) && editingTodoId == old(editingTodoId)
      ensures currentMonth == old(currentMonth) && currentYear == old(currentYear)
    {
      var text := Trim(input);
      if text == [] || date == [] {
        return false;
      }
      if editingTodoId.Some? {
        var found := FindIndex(todos, editingTodoId.value);
        if found.Some? {
          var i := found.value;
          todos := todos[i := todos[i].(text := text, date := date)];
          saved := todos;
        }
      }
      CloseModal();
      accepted := true;
    }

    /** `closeModal`: no todo is being edited any more. */
    method CloseModal()
      requires Valid()
      modifies this
      ensures Valid()
      ensures editingTodoId == None
      ensures todos == old(todos)
      ensures currentMonth == old(currentMonth) && currentYear == old(currentYear)
    {
      editingTodoId := None;
    }

    /** `changeMonth`: moves the shown month by `delta`, wrapping the year. */
    method ChangeMonth(delta: int)
      requires Valid()
      modifies this
      ensures Valid()
      ensures (currentYear, currentMonth) == NavigateMonth(old(currentYear), old(currentMonth), delta)
      ensures todos == old(todos) && editingTodoId == old(editingTodoId)
    {
      currentMonth := currentMonth + delta;
      if currentMonth > 11 {
        currentMonth := 0;
        currentYear := currentYear + 1;
      } else if currentMonth < 0 {
        currentMonth := 11;
        currentYear := currentYear - 1;
      }
    }

    /**
     * The filter and sort of `renderTodoList`: starting from all todos, a
     * recognised filter name narrows them against today's date string, and
     * the result is sorted by date.
     */
    method RenderTodoList(filterName: string, today: Date) returns (shown: seq<Todo>)
      requires Valid() && ValidDate(today)
      ensures shown == ListView(todos, filterName, today)
      ensures multiset(shown) == multiset(Select(todos, FilterNamed(filterName), KoreanDateString(today)))
      ensures SortedByDate(shown)
    {
      var key := KoreanDateString(today);
      var filtered := todos;
      if filterName == "today" {
        filtered := Select(todos, DueToday, key);
      } else if filterName == "upcoming" {
        filtered := Select(todos, Upcoming, key);
      } else if filterName == "completed" {
        filtered := Select(todos, Completed, key);
      } else {
        SelectSpec(todos, filterName, key);
      }
      shown := SortByDate(filtered);
      ListViewSpec(todos, filterName, today);
    }

    /**
     * `renderCalendar`: the 42 cells of the shown month, built one day at a
     * time from the Sunday on or before the first of the month.
     */
    method RenderCalendar(today: Date) returns (cells: seq<Cell>)
      requires Valid()
      ensures cells == Grid(currentYear, currentMonth, today, todos)
      ensures |cells| == GridCells && Weekday(cells[0].date) == 0
      ensures InMonthCount(cells) == DaysInMonth(currentYear, currentMonth + 1)
    {
      var year, month0, all := currentYear, currentMonth, todos;
      var firstDay := Date(year, month0 + 1, 1);
      var startDate := AddDays(firstDay, -Weekday(firstDay));
      assert startDate == GridStart(year, month0);
      cells := [];
      var i := 0;
      while i < GridCells
        invariant 0 <= i <= GridCells
        invariant cells == Grid(year, month0, today, all)[..i]
      {
        var date := AddDays(startDate, i);
        var otherMonth := date.month - 1 != month0;
        var isToday := date == today;
        var dayTodos := OnDate(all, KoreanDateString(date));
        ghost var grid := Grid(year, month0, today, all);
        assert grid[i] == Cell(date, !otherMonth, isToday, dayTodos);
        PrefixStep(grid, i);
        cells := cells + [Cell(date, !otherMonth, isToday, dayTodos)];
        i := i + 1;
      }
      assert cells == Grid(year, month0, today, all);
      GridStartIsSunday(currentYear, currentMonth);
      InMonthCells(currentYear, currentMonth, today, todos);
    }
  }

}
