# Todo list and calendar — a Dafny model

`script.js` is a single-page to-do application. Its `TodoApp` object keeps a
list of todos, each with an id, a text, a `YYYY-MM-DD` due date, a completion
flag and a creation timestamp. It also keeps the year and month the calendar
shows, and the id of the todo open in the edit dialog. Button handlers change
this state. Two views render it:

- a list, narrowed by one of the filters `all`, `today`, `upcoming` and
  `completed` and sorted by date;
- a six-week calendar grid that starts on a Sunday and lists each day's todos.

The model is organised as follows:

- `wrappers.dfy` (`Wrappers`): the `Option` type used for absent values
  (`null`, a failed `find`).
- `seqs.dfy` (`Seqs`): `Array.prototype.filter` as the generic `Keep`, and
  the subsequence relation it produces.
- `strings.dfy` (`Strings`): JavaScript's `<` on strings as `StrLess`, and
  `String.prototype.trim` as `Trim`.
- `dates.dfy` (`Dates`): proleptic Gregorian dates. It stands in for the
  `Date` operations the application uses: `getDay` as `Weekday`,
  `setDate` past the month's end as `AddDays`, and month lengths as
  `DaysInMonth`.
- `date_format.dfy` (`DateFormat`): `getKoreanDateString` as
  `KoreanDateString`, and the reading of a `YYYY-MM-DD` string by
  `new Date(...)` as `Parse`. It also proves that string order agrees with
  calendar order on these strings.
- `todos.dfy` (`Todos`): the todo record, and the collection operations as
  functions on sequences: find by id, delete, toggle, edit. It also holds the
  list filters and the stable sort by date.
- `calendar.dfy` (`Calendar`): the 42-cell grid of `renderCalendar` as a
  specification, and the month stepping of `changeMonth`.
- `app.dfy` (`App`): the class `TodoApp` with the source's fields and its
  handlers as methods. Each method is proved against the functions above.
  A ghost field `saved` stands for what `localStorage` holds. `Valid()`
  requires it to equal `todos` after every handler that saves.

Three points where the code is looser than one might expect, modelled as written:

- Month navigation adds `delta` to the month and, when the sum leaves
  0..11, resets the month to exactly 0 or 11 and moves the year by one
  (`script.js:326-331`). This is not modular arithmetic. `NavigateMonth`
  and `TodoApp.ChangeMonth` compute exactly that for every `delta`. The
  one-month-step properties are proved for `delta` of 1 or -1, the only
  steps the page's buttons make.
- Ids are not checked for uniqueness, so the model allows repeated ids.
  Delete removes every todo with the id; toggle and edit affect the first one.
- A todo's `date` is only checked for being non-empty, so the model keeps any
  string. The calendar-order results are stated for the strings `Parse` accepts.

## Model

| member | source | states |
|---|---|---|
| App.TodoApp.constructor | script.js:3-8 | the todos are the stored list, or empty when nothing is stored; the calendar shows the month and year of the given current date; no edit is open |
| App.TodoApp.AddTodo | script.js:120-147 | a todo is added exactly when the trimmed text and the date are both non-empty; it is appended at the end, after all earlier todos, with the trimmed text, the given date, `completed` false and the given id and timestamp; otherwise nothing changes; the saved copy equals the list; calendar and edit state are untouched |
| App.TodoApp.DeleteTodo | script.js:149-156 | the list becomes the old list without the todos carrying the id, and is saved; nothing else changes |
| App.TodoApp.ToggleComplete | script.js:158-166 | the list becomes `Toggled` of the old list: only the first todo with the id has its flag flipped, and it is saved; nothing else changes |
| App.TodoApp.EditTodo | script.js:168-176 | the edit dialog opens on the id exactly when some todo has it; otherwise the edited id is unchanged; the todos and the month are unchanged |
| App.TodoApp.SaveEdit | script.js:178-197 | accepted exactly when the trimmed text and the date are non-empty; then the first todo with the edited id gets the new text and date (nothing changes when no todo has it) and the dialog closes; when not accepted, todos and edited id are unchanged |
| App.TodoApp.CloseModal | script.js:199-202 | no todo is being edited; everything else is unchanged |
| App.TodoApp.ChangeMonth | script.js:323-335 | the new (year, month) is `NavigateMonth` of the old one, so the month stays in 0..11; todos and edit state are unchanged |
| App.TodoApp.RenderTodoList | script.js:214-233 | the shown list is `ListView`: a permutation of what the filter selects, sorted by date |
| App.TodoApp.RenderCalendar | script.js:269-321 | the loop builds exactly `Grid` for the shown month: 42 cells, the first a Sunday, and as many in-month cells as the month has days |
| Todos.WithoutId | script.js:151 | deleting by id never lengthens the list, and every todo left came from the list and has a different id |
| Todos.FindIndex | script.js:159 | `find` by id gives the first position holding the id, and `None` only when no position holds it |
| Todos.DeleteSpec | script.js:151 | after deleting, a todo is present iff it was present and has another id; each such todo occurs as often as before; the order of the rest is kept (subsequence); when no todo has the id the list is unchanged |
| Todos.Toggled | script.js:159-161 | same length; the first todo with the id has `completed` negated and every other position is unchanged |
| Todos.ToggleTwice | script.js:158-166 | toggling the same id twice gives back the original list |
| Todos.Edited | script.js:187-190 | same length; only the first todo with the edited id changes, and only in text and date (id, completed, createdAt kept); no open edit or a missing id leaves the list unchanged |
| Todos.FilterNamed | script.js:220-230 | a filter name selects the "all" behaviour exactly when it is none of `today`, `upcoming` and `completed` |
| Todos.Matches | script.js:221-229 | the filter test; `upcoming` never shows a todo dated today, and `all` shows every todo |
| Todos.Select | script.js:216-230 | the filtered list is no longer than the list, and every todo in it is from the list and passes the filter test |
| Todos.OnDate | script.js:306 | the todos listed for a date are no more than the list, each from the list and carrying that date string |
| Todos.ListView | script.js:214-233 | the shown list has exactly the todos the filter selects against today's date string, each as often (a permutation) |
| Todos.SelectSpec | script.js:216-230 | `today` shows exactly the todos dated today, `upcoming` those dated after today and not completed, `completed` the completed ones; any other name shows the whole list; every selected todo occurs as often as in the list, in the list's order |
| Todos.Insert | script.js:233 | inserting adds exactly the one todo (multiset) |
| Todos.SortByDate | script.js:233 | the sort is a permutation of its input (multiset) |
| Todos.InsertSorted | script.js:233 | inserting into a sorted list keeps it sorted by date |
| Todos.SortByDateSorted | script.js:233 | the sorted list is non-decreasing by date string |
| Todos.InsertOnDate | script.js:233 | an inserted todo goes ahead of the todos with its date already in the list and leaves other dates alone |
| Todos.SortByDateStable | script.js:233 | the sort is stable: the todos of any one date keep their input order |
| Todos.SortByDateChronological | script.js:233 | when every date parses, the sorted list is non-decreasing in calendar order, which is the order of the comparator `new Date(a.date) - new Date(b.date)` |
| Todos.ListViewSpec | script.js:214-233 | the list view is a permutation of the selection, sorted by date, with equal dates in collection order |
| Todos.UpcomingIsAfterToday | script.js:219-225 | for a four-digit current year and a parseable todo date, `upcoming` means strictly after today in calendar order and not completed |
| Calendar.FirstOfMonth | script.js:280 | `new Date(year, month, 1)` is a valid date on day 1 |
| Calendar.GridStart | script.js:282-283 | the grid start is a valid date |
| Calendar.CellAt | script.js:288-306 | cell i shows the valid date exactly i days after the grid start, and lists only todos from the list whose date string is that date's `getKoreanDateString` text (`String(year)-MM-DD`) |
| Calendar.Grid | script.js:287 | the grid has exactly 42 cells |
| Calendar.InMonthCount | script.js:295 | the in-month count is at most the number of cells |
| Calendar.GridStartIsSunday | script.js:280-283 | the first cell is a Sunday, exactly weekday-of-the-first days before the first of the month, so at most six days before it |
| Calendar.GridConsecutive | script.js:287-289 | cell 0 is the grid start and each cell is the day after the one before |
| Calendar.CellShape | script.js:287-297 | cell i shows the trailing days of the previous month, then the month's day i-w+1, then the leading days of the next month; its month is the shown month exactly on the month's cells |
| Calendar.InMonthCells | script.js:294-297 | a cell is flagged in-month exactly on the month's days, and the number of in-month cells equals the month's length |
| Calendar.CellTasks | script.js:305-306 | each cell lists exactly the todos whose date is the cell's `getKoreanDateString` text (`String(year)-MM-DD`), each as often as in the list, in list order |
| Calendar.February2024Start | script.js:280-283 | February 2024 starts its grid on Sunday 28 January 2024 |
| Calendar.February2024Count | script.js:287-297 | the February 2024 grid has 29 in-month cells |
| Calendar.NavigateMonth | script.js:323-332 | the month after navigation is always in 0..11 |
| Calendar.NavigateStep | script.js:323-332 | a step of one month moves one month along the calendar; the year rises exactly on December to January and falls exactly on January to December, and is otherwise unchanged |
| Calendar.NavigateRoundTrip | script.js:323-332 | next then previous month, or previous then next, gives back the original year and month |
| DateFormat.KoreanDateString | script.js:22-28 | the formatted date is `String(year)`, a `-`, the month as two zero-filled digits, a `-` and the day as two zero-filled digits |
| DateFormat.IntString | script.js:25 | `String` of an integer is non-empty and starts with `-` exactly for negative numbers |
| DateFormat.DecimalString | script.js:26-27 | `String` of a natural number is a non-empty digit string, of length 1 exactly below 10 |
| DateFormat.PadStart | script.js:26-27 | `padStart` gives the target width, or the string itself when it is already that long |
| DateFormat.PadStartSpec | script.js:26-27 | the original string ends the padded result and every character before it is the fill character |
| DateFormat.PadTwo | script.js:26-27 | a month or day number padded to two characters is its two fixed digits |
| DateFormat.KoreanDateStringIsIso | script.js:25-28 | for four-digit years the formatted string is the fixed-width `YYYY-MM-DD` form |
| DateFormat.ParseKoreanDateString | script.js:25-28 | for four-digit years, reading a formatted date back gives the same date (round trip) |
| DateFormat.KoreanDateStringOrder | script.js:25-28 | for four-digit years, formatted strings compare with `<` as their dates compare, and are equal exactly for equal dates |
| DateFormat.Parse | script.js:233 | a date read from a string is valid and has a year of at most four digits |
| DateFormat.ParseIsIso | script.js:233 | a string that parses is the fixed-width form of its date |
| DateFormat.ParseIso | script.js:233 | the fixed-width form of a date parses back to that date |
| DateFormat.IsoDateStringOrder | script.js:225 | fixed-width date strings compare with `<` exactly as their dates compare, and are equal exactly for equal dates |
| DateFormat.ParsedStringOrder | script.js:225 | for parseable date strings, string `<` agrees with calendar order, and string equality with date equality |
| DateFormat.FixedOrder | script.js:225 | zero-filled numbers of one width compare as strings exactly as the numbers compare |
| Dates.DaysInMonth | script.js:281 | a month has 28 to 31 days |
| Dates.Weekday | script.js:283 | `getDay` is in 0..6 |
| Dates.PrevDay | script.js:283 | the previous day is a valid date |
| Dates.NextDay | script.js:289 | the next day is a valid date |
| Dates.NextDayNumber | script.js:289 | the next day is one day number later |
| Dates.PrevDayNumber | script.js:283 | the previous day is one day number earlier |
| Dates.AddDays | script.js:283-289 | moving a valid date by any number of days gives a valid date |
| Dates.AddDaysNumber | script.js:283-289 | moving by n days adds n to the day number |
| Dates.AddDaysWithinMonth | script.js:289 | a move that stays inside the month just adds to the day |
| Dates.AddDaysSucc | script.js:288-289 | moving by n+1 days is the day after moving by n |
| Dates.AddDaysAdd | script.js:288-289 | moving by m days then by n days is moving by m+n |
| Dates.WeekStart | script.js:283 | moving a date back by its weekday lands on a Sunday, exactly that many days earlier |
| Dates.DayNumberOrder | script.js:301 | day numbers are ordered as the dates are, and equal exactly for equal dates |
| Strings.StrLess | script.js:225 | string `<`: a string is never less than an equal one, and a prefix is less than a string exactly when it is strictly shorter |
| Strings.StrLessIrreflexive | script.js:225 | no string is less than itself |
| Strings.StrLessTransitive | script.js:225 | string `<` is transitive |
| Strings.StrLessTotal | script.js:225 | any two strings are equal or one is less than the other |
| Strings.StrLessAsymmetric | script.js:225 | string `<` never holds both ways |
| Strings.StrLessConcat | script.js:225 | on a common-length prefix, `<` on concatenations compares the prefixes first and then the rest |
| Strings.IsWhiteSpace | script.js:124 | the characters `trim` removes; no printable ASCII character is among them |
| Strings.TrimStart | script.js:124 | the result is a suffix of the input, only whitespace was dropped, and it does not start with whitespace |
| Strings.TrimEnd | script.js:124 | the result is a prefix of the input, only whitespace was dropped, and it does not end with whitespace |
| Strings.Trim | script.js:124 | the trimmed text is no longer than the input and neither starts nor ends with whitespace |
| Strings.TrimEmpty | script.js:127 | the trimmed text is empty exactly when the input is all whitespace |
| Strings.TrimCore | script.js:124 | trimming whitespace padding on both sides of a core gives back exactly the core |
| Strings.TrimIdempotent | script.js:124 | trimming twice is trimming once |
| Seqs.Keep | script.js:222-228 | `filter` keeps exactly the elements that pass, each as often as it occurs, and never lengthens |
| Seqs.KeepIsSubsequence | script.js:216-230 | a filtered list is a subsequence of its input: order is kept |
| Seqs.KeepEverything | script.js:216 | filtering with a test every element passes gives back the list |

## Left out

- All page work: event wiring, `toggleView`, filter button styling, `setDefaultDate`, showing and hiding the edit dialog, the month header text and the HTML built for list items and calendar cells (including the `년 월 일` date text). None of it affects the state.
- `alert` and `confirm`: `TodoApp.DeleteTodo` is the branch taken after the user confirms. Declining changes nothing.
- `localStorage` and JSON: the stored list is the constructor's `Option` parameter, where an absent entry gives an empty list. Saving is the ghost `saved` field. Malformed stored JSON is not modelled.
- `getKoreanDate`: the host time-zone conversion is not modelled. Today's date is a parameter of `ListView`, `RenderTodoList` and `RenderCalendar`, and the current date is a parameter of the constructor.
- App.TodoApp.RenderCalendar: reads today's date once per render. The source reads it again for each cell, which differs only if the clock passes midnight mid-render. `toDateString` equality is modelled as date equality.
- App.TodoApp.AddTodo: `Date.now()` and the `createdAt` timestamp are parameters. The source reads the Seoul wall-clock text back in the host's time zone and `toISOString` then subtracts the host's offset, so the stamp is the true UTC instant only on a host set to Seoul time; that is not modelled.
- Todos.SortByDate: always sorts by string order on `date`. The source sorts by the instant `new Date(date)`. For strings `Parse` accepts, the two orders agree (`Todos.SortByDateChronological`, `DateFormat.ParsedStringOrder`).
- Todos.SortByDateChronological: covers only lists whose dates all parse. For a date `Parse` rejects, `new Date(date)` is `NaN` for most strings, and the source's order is then left to the engine. For other date-time forms, such as `2024-01`, `2024`, `2024-01-05T09:00` or `+002024-01-05`, it is a real instant, and there the two orders can differ. For example, `2024-01` and `2024-01-01` are the same instant, so the source keeps them in input order, while the model puts `2024-01` first.
- DateFormat.Parse: rejects a `YYYY-MM-DD` string whose day does not exist in its month. Some engines roll such a day into the next month instead.
- DateFormat.KoreanDateStringOrder: stated only for years 1000 to 9999. Other years print with fewer digits, a sign or more digits, so string order and date order can differ.
- Calendar.FirstOfMonth: `new Date(y, m, 1)` maps years 0 to 99 to 1900 to 1999. The model keeps the year as given.
- DateFormat.IntString: gives plain decimal digits for every integer. `String(n)` switches to exponent notation for magnitudes of 10^21 and above, far outside any date the page can show.
- Strings.StrLess: compares characters by their code point. JavaScript compares UTF-16 code units. The two orders agree on the ASCII digit strings used for dates.
- Calendar.NavigateStep: its one-month properties hold only for steps of 1 and -1. For any other `delta` the model, like the source, adds `delta` to the month when the sum stays in 0..11, and otherwise resets the month to 0 or 11 with the year moved by one, whatever the size of `delta`.
- Ids are JavaScript numbers produced by `Date.now()`. They are modelled as unbounded integers; their floating-point representation is not modelled.
- `toggleComplete` and `saveEdit` change, in place, the record object `find` returns. The array is the only holder of that object, so the model replaces the element of the sequence instead.
