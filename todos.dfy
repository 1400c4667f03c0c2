/**
 * The todo collection as values: the record kept for each task, the
 * lookups and updates the application performs on the collection, the
 * four named list filters and the stable sort by date that
 * `renderTodoList` applies before showing the list.
 */
module Todos {

  import opened Wrappers
  import opened Seqs
  import opened Strings
  import opened Dates
  import opened DateFormat

  /**
   * A task: `id` is the creation time in milliseconds, `date` the
   * `YYYY-MM-DD` text of the date input, `createdAt` an ISO timestamp.
   */
  datatype Todo = Todo(id: int, text: string, date: string, completed: bool, createdAt: string)

  /** Position `j` holds the first todo whose id is `id`. */
  predicate FirstWithId(todos: seq<Todo>, id: int, j: int)
  {
    0 <= j < |todos| && todos[j].id == id && forall k :: 0 <= k < j ==> todos[k].id != id
  }

  /** Where `todos.find(todo => todo.id === id)` finds its todo, if anywhere. */
  function FindIndex(todos: seq<Todo>, id: int): (r: Option<nat>)
    ensures r.Some? ==> FirstWithId(todos, id, r.value)
    ensures r.None? ==> forall j :: 0 <= j < |todos| ==> todos[j].id != id
    decreases |todos|
  {
    if todos == [] then None
    else if todos[0].id == id then Some(0)
    else match FindIndex(todos[1..], id)
      case None => None
      case Some(i) => Some(i + 1)
  }

  /** The todos whose id differs from `id`, in collection order (the filter of `deleteTodo`). */
  function WithoutId(todos: seq<Todo>, id: int): (r: seq<Todo>)
    ensures |r| <= |todos|
    ensures forall t :: t in r ==> t in todos && t.id != id
  {
    Keep(todos, (t: Todo) => t.id != id)
  }

  /**
   * Deleting removes every todo with the id and nothing else, keeps the
   * order of the rest, and changes nothing when no todo has the id.
   */
  lemma DeleteSpec(todos: seq<Todo>, id: int)
    ensures forall t :: t in WithoutId(todos, id) <==> t in todos && t.id != id
    ensures forall t: Todo :: t.id != id ==> multiset(WithoutId(todos, id))[t] == multiset(todos)[t]
    ensures IsSubsequence(WithoutId(todos, id), todos)
    ensures FindIndex(todos, id).None? ==> WithoutId(todos, id) == todos
  {
    KeepIsSubsequence(todos, (t: Todo) => t.id != id);
    if FindIndex(todos, id).None? {
      KeepEverything(todos, (t: Todo) => t.id != id);
    }
  }

  /** `todo.completed = !todo.completed` on the todo `find` returns, if any. */
  function Toggled(todos: seq<Todo>, id: int): (r: seq<Todo>)
    ensures |r| == |todos|
    ensures forall j :: 0 <= j < |todos| ==>
      r[j] == if FirstWithId(todos, id, j) then todos[j].(completed := !todos[j].completed) else todos[j]
  {
    match FindIndex(todos, id)
    case None => todos
    case Some(i) => todos[i := todos[i].(completed := !todos[i].completed)]
  }

  /** Lookups by id see the same positions in two collections with the same ids. */
  lemma {:induction false} FindIndexSameIds(a: seq<Todo>, b: seq<Todo>, id: int)
    requires |a| == |b| && forall j :: 0 <= j < |a| ==> a[j].id == b[j].id
    ensures FindIndex(a, id) == FindIndex(b, id)
    decreases |a|
  {
    if a != [] && a[0].id != id {
      FindIndexSameIds(a[1..], b[1..], id);
    }
  }

  /** Toggling the same id twice restores the collection. */
  lemma ToggleTwice(todos: seq<Todo>, id: int)
    ensures Toggled(Toggled(todos, id), id) == todos
  {
    var once := Toggled(todos, id);
    FindIndexSameIds(todos, once, id);
  }

  /**
   * `todo.text = text; todo.date = date` on the first todo whose id is the
   * one being edited; nothing happens when no edit is open or no todo has it.
   */
  function Edited(todos: seq<Todo>, editing: Option<int>, text: string, date: string): (r: seq<Todo>)
    ensures |r| == |todos|
    ensures forall j :: 0 <= j < |todos| ==>
      r[j] == if editing.Some? && FirstWithId(todos, editing.value, j)
              then todos[j].(text := text, date := date) else todos[j]
  {
    if editing.None? then todos
    else match FindIndex(todos, editing.value)
      case None => todos
      case Some(i) => todos[i := todos[i].(text := text, date := date)]
  }

  /** The list filters; a filter name other than the three below shows all todos. */
  datatype Filter = All | DueToday | Upcoming | Completed

  function FilterNamed(name: string): (f: Filter)
    ensures f == All <==> name != "today" && name != "upcoming" && name != "completed"
  {
    if name == "today" then DueToday
    else if name == "upcoming" then Upcoming
    else if name == "completed" then Completed
    else All
  }

  /** Whether the filter shows the todo, `today` being today's date string. */
  predicate Matches(f: Filter, today: string, t: Todo)
    ensures f == Upcoming && Matches(f, today, t) ==> t.date != today
    ensures f == All ==> Matches(f, today, t)
  {
    match f
    case All => true
    case DueToday => t.date == today
    case Upcoming => StrLess(today, t.date) && !t.completed
    case Completed => t.completed
  }

  /** The todos the filter shows, in collection order. */
  function Select(todos: seq<Todo>, f: Filter, today: string): (r: seq<Todo>)
    ensures |r| <= |todos|
    ensures forall t :: t in r ==> t in todos && Matches(f, today, t)
  {
    Keep(todos, (t: Todo) => Matches(f, today, t))
  }

  /**
   * What each filter name selects: every todo shown is in the collection
   * and passes the name's test, every todo that passes is shown as often
   * as it occurs, and the order of the collection is kept.
   */
  lemma SelectSpec(todos: seq<Todo>, name: string, today: string)
    ensures var r := Select(todos, FilterNamed(name), today);
      && (name == "today" ==> forall t :: t in r <==> t in todos && t.date == today)
      && (name == "upcoming" ==>
            forall t :: t in r <==> t in todos && StrLess(today, t.date) && !t.completed)
      && (name == "completed" ==> forall t :: t in r <==> t in todos && t.completed)
      && (name != "today" && name != "upcoming" && name != "completed" ==> r == todos)
      && (forall t :: Matches(FilterNamed(name), today, t) ==> multiset(r)[t] == multiset(todos)[t])
      && IsSubsequence(r, todos)
  {
    var p := (t: Todo) => Matches(FilterNamed(name), today, t);
    KeepIsSubsequence(todos, p);
    if FilterNamed(name) == All {
      KeepEverything(todos, p);
    }
  }

  /** The todos whose date string is `date`, in collection order. */
  function OnDate(todos: seq<Todo>, date: string): (r: seq<Todo>)
    ensures |r| <= |todos|
    ensures forall t :: t in r ==> t in todos && t.date == date
  {
    Keep(todos, (t: Todo) => t.date == date)
  }

  /** Non-decreasing by date string. */
  predicate SortedByDate(s: seq<Todo>)
  {
    forall i, j :: 0 <= i < j < |s| ==> !StrLess(s[j].date, s[i].date)
  }

  /** `x` placed before the first element whose date is not earlier than its own. */
  function Insert(x: Todo, s: seq<Todo>): (r: seq<Todo>)
    ensures multiset(r) == multiset(s) + multiset{x}
    decreases |s|
  {
    if s == [] || !StrLess(s[0].date, x.date) then [x] + s
    else
      assert s == [s[0]] + s[1..];
      [s[0]] + Insert(x, s[1..])
  }

  /** The stable sort by date that `filteredTodos.sort(...)` performs. */
  function SortByDate(s: seq<Todo>): (r: seq<Todo>)
    ensures multiset(r) == multiset(s)
    decreases |s|
  {
    if s == [] then []
    else
      assert s == [s[0]] + s[1..];
      Insert(s[0], SortByDate(s[1..]))
  }

  /** Not-later-than is transitive on date strings. */
  lemma NotLaterTransitive(a: string, b: string, c: string)
    requires !StrLess(b, a) && !StrLess(c, b)
    ensures !StrLess(c, a)
  {
    StrLessTotal(a, b);
    StrLessTotal(b, c);
    if a != b && b != c {
      StrLessTransitive(a, b, c);
    }
    if StrLess(a, c) {
      StrLessAsymmetric(a, c);
    } else {
      StrLessIrreflexive(a);
    }
  }

  /** Putting a todo no later than all of a sorted list in front keeps it sorted. */
  lemma SortedCons(h: Todo, rest: seq<Todo>)
    requires SortedByDate(rest)
    requires forall t :: t in rest ==> !StrLess(t.date, h.date)
    ensures SortedByDate([h] + rest)
  {
    var r := [h] + rest;
    forall i, j | 0 <= i < j < |r| ensures !StrLess(r[j].date, r[i].date) {
      assert r[j] == rest[j - 1];
      if i > 0 {
        assert r[i] == rest[i - 1];
      }
    }
  }

  /** Insertion only adds `x`, so a lower bound on all dates survives it. */
  lemma InsertLowerBound(x: Todo, s: seq<Todo>, lo: string)
    requires !StrLess(x.date, lo)
    requires forall t :: t in s ==> !StrLess(t.date, lo)
    ensures forall t :: t in Insert(x, s) ==> !StrLess(t.date, lo)
  {
    forall t | t in Insert(x, s) ensures !StrLess(t.date, lo) {
      assert t in multiset(Insert(x, s));
      assert t in multiset(s) || t == x;
    }
  }

  lemma {:induction false} InsertSorted(x: Todo, s: seq<Todo>)
    requires SortedByDate(s)
    ensures SortedByDate(Insert(x, s))
    decreases |s|
  {
    if s == [] {
    } else if !StrLess(s[0].date, x.date) {
      forall t | t in s ensures !StrLess(t.date, x.date) {
        var k :| 0 <= k < |s| && s[k] == t;
        if k > 0 {
          NotLaterTransitive(x.date, s[0].date, t.date);
        }
      }
      SortedCons(x, s);
    } else {
      var tail := s[1..];
      assert SortedByDate(tail);
      InsertSorted(x, tail);
      forall t | t in tail ensures !StrLess(t.date, s[0].date) {
        var k :| 0 <= k < |tail| && tail[k] == t;
        assert s[k + 1] == t;
      }
      StrLessAsymmetric(s[0].date, x.date);
      InsertLowerBound(x, tail, s[0].date);
      SortedCons(s[0], Insert(x, tail));
    }
  }

  /** The sorted list is non-decreasing by date string. */
  lemma {:induction false} SortByDateSorted(s: seq<Todo>)
    ensures SortedByDate(SortByDate(s))
    decreases |s|
  {
    if s != [] {
      SortByDateSorted(s[1..]);
      InsertSorted(s[0], SortByDate(s[1..]));
    }
  }

  /** Inserting `x` puts it ahead of every todo of the same date already there. */
  lemma {:induction false} InsertOnDate(x: Todo, s: seq<Todo>, date: string)
    ensures OnDate(Insert(x, s), date) == if x.date == date then [x] + OnDate(s, date) else OnDate(s, date)
    decreases |s|
  {
    if s == [] || !StrLess(s[0].date, x.date) {
      assert ([x] + s)[1..] == s;
    } else {
      InsertOnDate(x, s[1..], date);
      StrLessIrreflexive(x.date);
      assert ([s[0]] + Insert(x, s[1..]))[1..] == Insert(x, s[1..]);
    }
  }

  /**
   * Stability: for every date, the todos of that date come out of the
   * sort in the order they went in.
   */
  lemma {:induction false} SortByDateStable(s: seq<Todo>, date: string)
    ensures OnDate(SortByDate(s), date) == OnDate(s, date)
    decreases |s|
  {
    if s != [] {
      SortByDateStable(s[1..], date);
      InsertOnDate(s[0], SortByDate(s[1..]), date);
    }
  }

  /**
   * When every date parses, the sorted list is non-decreasing in the parsed
   * dates, which is the order `new Date(a.date) - new Date(b.date)` asks for.
   */
  lemma SortByDateChronological(s: seq<Todo>)
    requires forall t :: t in s ==> Parse(t.date).Some?
    ensures var r := SortByDate(s);
      && (forall t :: t in r ==> Parse(t.date).Some?)
      && forall i, j :: 0 <= i < j < |r| ==>
           DayNumber(Parse(r[i].date).value) <= DayNumber(Parse(r[j].date).value)
  {
    var r := SortByDate(s);
    SortByDateSorted(s);
    forall t | t in r ensures Parse(t.date).Some? {
      assert t in multiset(r);
    }
    forall i, j | 0 <= i < j < |r|
      ensures DayNumber(Parse(r[i].date).value) <= DayNumber(Parse(r[j].date).value)
    {
      assert r[i] in multiset(s) && r[j] in multiset(s);
      ParsedStringOrder(r[j].date, r[i].date);
    }
  }

  /**
   * The list `renderTodoList(filter)` shows: the todos the filter selects
   * against today's date string, sorted by date.
   */
  function ListView(todos: seq<Todo>, filterName: string, today: Date): (r: seq<Todo>)
    requires ValidDate(today)
    ensures multiset(r) == multiset(Select(todos, FilterNamed(filterName), KoreanDateString(today)))
  {
    SortByDate(Select(todos, FilterNamed(filterName), KoreanDateString(today)))
  }

  /**
   * The list shows exactly the selected todos, each as often as it was
   * selected, sorted by date, with todos of equal date in collection order.
   */
  lemma ListViewSpec(todos: seq<Todo>, filterName: string, today: Date)
    requires ValidDate(today)
    ensures var r := ListView(todos, filterName, today);
      var selected := Select(todos, FilterNamed(filterName), KoreanDateString(today));
      && multiset(r) == multiset(selected)
      && SortedByDate(r)
      && forall date :: OnDate(r, date) == OnDate(selected, date)
  {
    var selected := Select(todos, FilterNamed(filterName), KoreanDateString(today));
    SortByDateSorted(selected);
    forall date ensures OnDate(ListView(todos, filterName, today), date) == OnDate(selected, date) {
      SortByDateStable(selected, date);
    }
  }

  /**
   * For a four-digit year and a todo whose date parses, the `upcoming`
   * test is "strictly after today and not completed".
   */
  lemma UpcomingIsAfterToday(t: Todo, today: Date)
    requires ValidDate(today) && 1000 <= today.year <= 9999 && Parse(t.date).Some?
    ensures Matches(Upcoming, KoreanDateString(today), t)
      <==> DayNumber(today) < DayNumber(Parse(t.date).value) && !t.completed
  {
    ParseKoreanDateString(today);
    ParsedStringOrder(KoreanDateString(today), t.date);
  }

}
