# ReactToDo task-state core in Dafny

This project models the state logic of the `App` component of ReactToDo, a
single-page to-do list. The component keeps four pieces of state:

- `tasks`, the task store;
- `sortType` and `sortOrder`, the sort key and direction;
- `openSection`, the visibility flags of the form and the two lists.

Its handlers replace that state:

- `addTask` appends a task;
- `makeComplete` marks tasks with an id as completed;
- `deleteTask` removes tasks with an id;
- `toggleSortOrder` switches the sort key or flips its direction;
- `toggleTaskTable` shows or hides one section.

On every render the component derives two lists from the store:

- `activeTasks`: the tasks not completed, passed through `sortTask`, a stable sort with a comparator over priority rank or deadline;
- `completedTasks`: the completed tasks, in insertion order.

The form's submit handler adds a task only when the trimmed title is not
empty and a deadline is chosen.

Layout:

- `seqs.dfy` (module `Seqs`): order-preserving selection, which models `Array.prototype.filter`, and sequence reversal.
- `tasks.dfy` (module `Tasks`): the task record and the three store updates as functions over `seq<Task>`.
- `sorting.dfy` (module `Sorting`) holds the sort engine and the toggle:
  - the comparator, and `sortTask` as a stable insertion sort;
  - its characterisation (ordered by the comparator and stable, and nothing else);
  - the grouping of a priority sort, the reversal lemmas;
  - the `toggleSortOrder` state machine.
- `views.dfy` (module `Views`): the two rendered lists, and how each store update moves tasks between them.
- `sections.dfy` (module `Sections`): the `openSection` map and its toggle.
- `form.dfy` (module `Form`): `String.prototype.trim` and the submit guard.
- `app.dfy` (module `Component`): `class App`. Its four fields are the state, and each handler is a method that replaces them in one step.
- `walkthrough.dfy` (module `Walkthrough`): tasks A (High, day 10), B (Low, day 5) and C (Medium, day 20) go through the component from its initial state:
  - the lists under each sort;
  - the lists after B is completed.

`sortType` and `sortOrder` are strings, as in the source. The initial
`sortOrder` is `"asd"` (src/App.jsx:12). The `// desc` comment on that line
names the other value, in the same way that the `// Priority` comment on
line 11 does, so `"asd"` reads as a misspelling of `"asc"`. Every test in
the source is against `"asc"`, so `"asd"` behaves exactly like `"desc"`:
at first the list shows the latest deadline first, and the first click on
"By Date" turns it ascending. The model follows the code, and
`Sorting.InitialOrderActsAsDesc` states the consequence.

## Model

| member | source | states |
|---|---|---|
| Tasks.Rank | src/App.jsx:45 | the `priorityOrder` rank of every priority lies between 1 and 3 |
| Tasks.NewTask | src/App.jsx:22 | the appended task is not completed and carries the given id |
| Tasks.AppendKeepsPrefix | src/App.jsx:21-23 | `addTask` adds exactly one task at the end (the form's title, priority, deadline and the id, not completed); every earlier task keeps its position |
| Tasks.AppendFreshKeepsIdsDistinct | src/App.jsx:22 | appending a task whose id is not yet in the store keeps all ids distinct |
| Tasks.MarkComplete | src/App.jsx:25-27 | `makeComplete` keeps length and order; each entry differs from the old one at most in its flag; the flag is set exactly where it was set or the id matches |
| Tasks.MarkCompleteIdempotent | src/App.jsx:26 | completing the same id twice is completing it once |
| Tasks.MarkCompleteAbsent | src/App.jsx:26 | completing an id no task has changes nothing |
| Tasks.MarkCompleteMonotone | src/App.jsx:26 | a completed task stays completed; a task with another id is left exactly as it was |
| Tasks.MarkCompleteKeepsIdsDistinct | src/App.jsx:26 | completing keeps the ids distinct |
| Tasks.WithoutId | src/App.jsx:29-31 | `deleteTask` leaves no task with the id; a task remains exactly when it was there and has another id; with no task of that id nothing changes |
| Tasks.WithoutIdLeavesNone | src/App.jsx:30 | no task with the id is left after `deleteTask` |
| Tasks.WithoutIdShrinks | src/App.jsx:30 | the store gets strictly shorter exactly when some task has the id |
| Tasks.WithoutIdMultiset | src/App.jsx:30 | every task with another id keeps its number of occurrences, every task with the id has none |
| Tasks.WithoutIdKeepsIdsDistinct | src/App.jsx:30 | deleting keeps the ids distinct |
| Tasks.ActiveOfSelects | src/App.jsx:57 | `ActiveOf`, the `filter` inside `activeTasks`, selects exactly the tasks not completed and never lengthens the store |
| Tasks.CompletedOf | src/App.jsx:58 | `completedTasks` holds exactly the completed tasks of the store and is never longer than it |
| Seqs.Filter | src/App.jsx:57-58 | `filter` never lengthens; a value is selected exactly when it is in the input and passes; if everything passes the result is the input |
| Seqs.FilterMultiset | src/App.jsx:57-58 | `filter` keeps every passing value as often as the input has it and drops every failing one |
| Sorting.KeyOrder | src/App.jsx:44-52 | `Key`, the number the comparator compares: for "priority" the task with the smaller `priorityOrder` rank has the smaller key under "asc" and the larger one otherwise; for any other type the earlier deadline has the smaller key under "asc" and the larger one otherwise |
| Sorting.Compare | src/App.jsx:44-53 | the comparator is the difference of the two tasks' keys (the rank for "priority", the deadline otherwise, negated unless the order is "asc"), so it is at most 0 exactly when the first key is not larger |
| Sorting.SortTasks | src/App.jsx:42-55 | `sortTask` returns a permutation of its input, ordered by the comparator |
| Sorting.SortStable | src/App.jsx:43 | the sort is stable: for every key, the tasks with that key appear in the result in their input order |
| Sorting.SortCharacterization | src/App.jsx:42-55 | a sequence is the result of `sortTask` if and only if it is ordered by the comparator and stable with respect to the input |
| Sorting.FilterSorted | src/App.jsx:57 | selecting from a sorted sequence keeps it sorted |
| Sorting.SortFilterCommute | src/App.jsx:57 | selecting tasks and then sorting gives the same sequence as sorting and then selecting |
| Sorting.SortWithoutId | src/App.jsx:29-31 | deleting an id and then sorting gives the sorted sequence without that id |
| Sorting.SortByPriorityGroups | src/App.jsx:44-48 | a priority sort lists all High, then all Medium, then all Low tasks for "asc", and Low, Medium, High for any other order, each group in input order |
| Sorting.DescIsReversedAsc | src/App.jsx:46-52 | for any order other than "asc", when no two tasks share a key, the result is the "asc" result read backwards |
| Sorting.SortAgainReverses | src/App.jsx:46-52 | re-sorting the "asc" result in the other direction reverses it when no two tasks tie |
| Sorting.NonAscOrdersAgree | src/App.jsx:46-52 | every order value other than "asc" sorts the same way |
| Sorting.InitialOrderActsAsDesc | src/App.jsx:12 | the initial order "asd" sorts exactly like "desc" and toggles exactly like it |
| Sorting.FlipOrder | src/App.jsx:35 | a click on the active key yields "asc" exactly when the order was not "asc", and "desc" otherwise |
| Sorting.ToggleSort | src/App.jsx:33-40 | `toggleSortOrder(type)` always ends on key `type`; the order becomes "asc" exactly when the key changes or the old order was not "asc"; the new order is "asc" or "desc" |
| Sorting.ToggleTwice | src/App.jsx:33-40 | two clicks on the active key restore a state whose order is "asc" or "desc"; from any other state they end on that key descending |
| Sorting.ToggleFromInitial | src/App.jsx:11-12 | from the initial state, "By Date" gives date ascending, again gives date descending, then "By Priority" gives priority ascending |
| Views.ActiveView | src/App.jsx:57 | `activeTasks` is a rearrangement of the not-completed tasks, ordered by the comparator |
| Views.ViewsPartition | src/App.jsx:57-58 | every task is in exactly one of the two lists, as often as in the store; the lengths add up to the store's; each list holds exactly the tasks with its completion flag |
| Views.ActiveViewCharacterization | src/App.jsx:57 | a sequence is `activeTasks` if and only if it is ordered by the comparator and stable with respect to the not-completed tasks |
| Views.AppendGoesToActive | src/App.jsx:57-58 | a new task is appended to the not-completed tasks and leaves `completedTasks` unchanged |
| Views.CompleteLeavesActive | src/App.jsx:25-27 | after `makeComplete(id)` the not-completed tasks are the old ones without that id, in the same order |
| Views.CompleteLeavesActiveView | src/App.jsx:25-27 | after `makeComplete(id)` the rendered `activeTasks` is the old one without the tasks of that id, the rest in the same displayed order; none of its tasks has the id |
| Views.CompleteMovesTask | src/App.jsx:25-27 | after `makeComplete(id)` no task of `activeTasks` has the id, and every task that had it is in `completedTasks` as a completed copy |
| Views.DeleteLeavesViews | src/App.jsx:29-31 | deleting an id removes it from the not-completed tasks (before sorting) and from `completedTasks`, keeping each one's order |
| Views.DeleteLeavesActiveView | src/App.jsx:29-31 | after `deleteTask(id)` the rendered `activeTasks` is the old one without the tasks of that id, the rest in the same displayed order |
| Sections.VisibleInitial | src/App.jsx:4-8 | `Visible`, the truthiness of `openSection[section]`: at first the form is hidden and both lists are shown; a key the object lacks reads as hidden |
| Sections.ToggleSection | src/App.jsx:14-19 | `toggleTaskTable(section)` flips the visibility of that section (a missing key counts as hidden) and leaves every other key as it was |
| Sections.ToggleSectionTwice | src/App.jsx:14-19 | toggling a present section twice gives back the same map |
| Sections.ToggleKeepsSections | src/App.jsx:4-8 | the three initial sections stay present after any toggle |
| Sections.ToggleSectionsCommute | src/App.jsx:14-19 | toggles of two different sections commute |
| Form.TrimStart | src/App.jsx:101 | the result is a suffix; what was removed is white space; the result does not start with white space |
| Form.TrimEnd | src/App.jsx:101 | the result is a prefix; what was removed is white space; the result does not end with white space |
| Form.Trim | src/App.jsx:101 | `trim()` is empty exactly when every character is white space; otherwise it neither starts nor ends with white space |
| Form.SubmittableIff | src/App.jsx:101 | `Submittable`, the submit guard, holds exactly when a deadline is chosen and some character of the title is not white space |
| Component.App.constructor | src/App.jsx:4-12 | the initial state: no tasks, key "date", order "asd", form hidden, both lists shown; the three sections are present |
| Component.App.ActiveTasks | src/App.jsx:57 | `activeTasks` holds exactly the tasks of the store that are not completed (their order is stated by `Views.ActiveView`) |
| Component.App.CompletedTasks | src/App.jsx:58 | `completedTasks` holds exactly the completed tasks of the store |
| Component.App.ToggleTaskTable | src/App.jsx:14-19 | `openSection` becomes its toggled form, the section's visibility flips, the three sections stay present, and no other field changes |
| Component.App.AddTask | src/App.jsx:21-23 | the new task is appended to `tasks` and to the not-completed tasks; `completedTasks` and the other fields are unchanged |
| Component.App.MakeComplete | src/App.jsx:25-27 | `tasks` is marked by id; the not-completed tasks lose that id and keep their order; the rendered `activeTasks` is the old one without that id; the other fields are unchanged |
| Component.App.DeleteTask | src/App.jsx:29-31 | `tasks` loses the id; the not-completed tasks, the rendered `activeTasks` and `completedTasks` each lose it and keep their order; the other fields are unchanged |
| Component.App.ToggleSortOrder | src/App.jsx:33-40 | the new key and order are those `ToggleSort` gives for the old ones; `tasks` and `openSection` are unchanged |
| Component.App.HandleSubmit | src/App.jsx:99-107 | a task is added exactly when the guard holds, with the title as typed; otherwise nothing changes |
| Walkthrough.InitialOrderIsLatestFirst | src/App.jsx:12 | with A, B and C added, the initial order "asd" shows C, A, B (latest deadline first) |
| Walkthrough.ByDateAscending | src/App.jsx:50-52 | sorting A, B, C by date ascending gives B, A, C |
| Walkthrough.ByPriorityAscending | src/App.jsx:44-48 | sorting A, B, C by priority ascending gives A, C, B |
| Walkthrough.ByPriorityAfterCompletion | src/App.jsx:44-48 | sorting A, C by priority ascending gives A, C |
| Walkthrough.AllActive | src/App.jsx:57 | none of A, B, C starts completed |
| Walkthrough.CompletingMarksB | src/App.jsx:26 | completing id 2 marks only B |
| Walkthrough.CompletedBMoves | src/App.jsx:57-58 | once B is completed, A and C are the not-completed tasks and B alone is completed |
| Walkthrough.AddThree | src/App.jsx:21-23 | adding A, B, C to a fresh component gives a store of exactly those three, sorted by "date" with order "asd" |
| Walkthrough.CompleteB | src/App.jsx:25-27 | completing B under an ascending priority sort leaves A, C active and B alone completed |

## Left out

- JSX rendering is not modelled: `TaskForm` markup, `TaskList`, `CompletedTaskList`, `TaskItem`, `Footer`, class names and arrow glyphs. It is presentation only.
- React's `useState` machinery is not modelled: setter batching, stale closures in `addTask` and `makeComplete`, the functional updater of `toggleTaskTable`. Each handler is one atomic state update.
- `Date.now()` ids are not modelled. The id is a parameter of `AddTask` and `HandleSubmit`. Nothing in the source makes ids unique, so the distinct-ids lemmas take a fresh id as a precondition.
- `new Date(...)` parsing and subtraction are not modelled. A deadline is an integer day number, and the comparator subtracts day numbers; only the sign of the difference matters to the sort.
- The form's date input is `DateInput`: either `Blank` or a chosen day. Invalid dates (NaN) cannot reach the store, because the guard requires a chosen day.
- `toLocaleDateString` display and `console.log` are not modelled. They are output only.
- `onChange` plumbing is not modelled, and neither is clearing the form fields after a submit. Both are local form state outside the component's store.
- Priorities are the three values of the form's `<select>`. Any other string, whose `priorityOrder` entry would be `undefined`, cannot occur.
- Sorting.SortTasks: the engine's own algorithm is not modelled. The sort is an insertion sort over values, and `SortCharacterization` shows that it returns the one stable, comparator-ordered permutation. Any stable sort returns the same sequence.
