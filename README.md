# Todo list component, modelled in Dafny

This project models the `App` component of a small Angular todo-list
application (`src/main.ts`). The component holds four pieces of state:

- the task list;
- the compose buffer `newTask`;
- the selected priority, defaulting to medium;
- the filter label, one of "Todas", "Ativas" and "Concluídas", defaulting
  to "Todas".

It offers these operations:

- `addTask` adds the trimmed compose text as a new pending task, unless that
  text is blank.
- `toggleTask` flips a task's completion flag.
- `deleteTask` removes every task with a given id.
- The getters `filteredTasks` and `completedTasks` give the filtered view and
  the completion count. The view also shows `tasks.length` and
  `tasks.length - completedTasks`.

The project has three files:

- `trim.dfy` (module `JsTrim`) defines JavaScript's `String.prototype.trim`
  over the WhiteSpace and LineTerminator code points of ECMA-262.
  - The trimming is written once for any set of characters to drop.
  - It is proved to keep exactly the window between leading and trailing
    whitespace.
  - It is proved idempotent and to give the empty string exactly when the
    input is all whitespace.
- `tasks.dfy` (module `Tasks`) holds the task record and the pure list
  functions: the filtered views, the counts, deletion by id, the toggle of
  one task and the result of an add. It also holds the lemmas about them.
- `app.dfy` (module `TodoApp`) holds the class `App`, whose fields are the
  component's fields.
  - Its methods change the list in place, and each is proved to leave it
    equal to the matching function of `Tasks` applied to the old list.
  - The class invariant `Valid` says every stored description is non-empty
    and trimmed; every method keeps it.
  - A few client methods drive the component the way the template does:
    add, toggle, filter, a blank add, and two adds within one clock tick.

Ids: `addTask` uses `Date.now()` as the id, so the model takes the clock
reading as a parameter `now`. Nothing in the code makes ids unique:
`Date.now()` repeats within one millisecond, so two adds within one
millisecond share an id, and `deleteTask` then removes both
(`Tasks.SharedClockDeletesBoth`, `TodoApp.SameTick`). The model follows the
code. Distinct ids are proved to be kept only when the caller's clock value
is fresh (`Tasks.AddKeepsDistinct`).

Toggle: `toggleTask` receives the task object itself, not an id, and flips
that object's flag. `filteredTasks` either returns the list itself or
filters it, so that object is always one stored in the list.

- The model therefore toggles by the index of that object in the list.
  `Tasks.ShownIndex` maps the k-th displayed task to its index.
- An index past the end stands for an object no longer in the list. Flipping
  such an object leaves the list unchanged.

Filter: `currentFilter` is a plain string, not a closed set of values, and any label other than
"Ativas" and "Concluídas" shows the whole list. The model keeps the string
and that default branch.

## Model

| member | source | states |
|---|---|---|
| JsTrim.Trim | src/main.ts:480 | the trimmed text is no longer than the input and neither starts nor ends with whitespace |
| JsTrim.TrimWindow | src/main.ts:480 | the trimmed text is the contiguous window of the input after its leading whitespace, and every character outside that window is whitespace |
| JsTrim.TrimEmptyIff | src/main.ts:480 | the guard `newTask.trim()` is falsy (empty) exactly when every character of the text is whitespace |
| JsTrim.TrimOfTrimmed | src/main.ts:483 | a text with no whitespace at either end is its own trim |
| JsTrim.TrimIdempotent | src/main.ts:480-483 | trimming twice gives the same text as trimming once |
| JsTrim.TrimmedIff | src/main.ts:483 | a text is trimmed (no whitespace at either end) exactly when it equals its own trim |
| Tasks.WithStatus | src/main.ts:471-473 | the tasks kept by `filter(task => task.completed == done)` all have that status, and there are no more of them than tasks |
| Tasks.WithStatusMembers | src/main.ts:471-473 | a task is in the filtered list exactly when it is in the list and has the given status |
| Tasks.WithStatusSubsequence | src/main.ts:471-473 | the filtered list is an order-preserving subsequence of the list |
| Tasks.Partition | src/main.ts:468-477 | the "Ativas" and "Concluídas" views together hold every task exactly once (as multisets), and their lengths add up to the list's length |
| Tasks.Filtered | src/main.ts:468-477 | the `filteredTasks` switch with its default branch; FilteredView proves it is an order-preserving subsequence that holds exactly the pending tasks under "Ativas", exactly the completed ones under "Concluídas" and the whole list under any other label, and Partition proves the two status views split the list |
| Tasks.FilteredView | src/main.ts:468-477 | the `filteredTasks` switch: an order-preserving subsequence of the list in every case; "Ativas" holds exactly the pending tasks, "Concluídas" exactly the completed ones, and any other label gives the whole list |
| Tasks.StatusIndex | src/main.ts:61-72 | the k-th task of a status view is stored at this index of the list |
| Tasks.StatusIndexPrefix | src/main.ts:61-72 | exactly k tasks of that status come before that index |
| Tasks.ShownIndex | src/main.ts:61-72 | the k-th task displayed under the current filter is the object stored at this index of the list: under "Ativas" or "Concluídas" exactly k tasks of that status come before it, and under any other label the index is k itself |
| Tasks.CompletedCount | src/main.ts:500-502 | `completedTasks` is at most the total, and the total minus it is the number of pending tasks |
| Tasks.PendingCount | src/main.ts:100-108 | the "Pendentes" figure `tasks.length - completedTasks` is never negative, adds up with the completed count to the total, and is the size of the "Ativas" view |
| Tasks.WithoutId | src/main.ts:496-498 | after deletion a task remains exactly when it was there and its id differs; the list shrinks by the number of tasks carrying the id |
| Tasks.WithoutIdSubsequence | src/main.ts:496-498 | deletion keeps the remaining tasks in their order (an order-preserving subsequence) |
| Tasks.OccurrencesZeroIff | src/main.ts:496-498 | the count of tasks carrying an id is zero exactly when no task carries it |
| Tasks.WithoutAbsentId | src/main.ts:496-498 | deleting an id no task carries leaves the list unchanged |
| Tasks.DeleteDistinct | src/main.ts:496-498 | when ids are distinct, deleting a task of the list removes exactly one task |
| Tasks.OccursOnce | src/main.ts:496-498 | when ids are distinct, the id of a stored task occurs exactly once |
| Tasks.ToggleAt | src/main.ts:492-494 | the length and order are kept, every other task is unchanged, and the target has its flag flipped and its id, description and priority kept |
| Tasks.ToggleTwice | src/main.ts:492-494 | toggling the same task twice restores the list |
| Tasks.ToggleCount | src/main.ts:492-502 | a toggle moves the completed count by exactly one, down if the task was completed and up otherwise |
| Tasks.AfterAdd | src/main.ts:479-490 | the list after `addTask`; AddSpec proves it is unchanged for a blank text and otherwise the old list plus exactly one pending task with the trimmed text, the given priority and the clock reading as id, and AddKeepsWellFormed and AddKeepsDistinct prove it keeps the description invariant and, for a fresh clock reading, distinct ids |
| Tasks.AddSpec | src/main.ts:479-490 | an empty or all-whitespace text adds nothing; any other text appends exactly one task with the trimmed, non-empty text, not completed, with the given priority and id, and keeps the earlier tasks in place |
| Tasks.WellFormedIsOwnTrim | src/main.ts:483 | a stored description is non-empty and equal to its own trim |
| Tasks.AddKeepsWellFormed | src/main.ts:479-490 | an add keeps every stored description non-empty and trimmed |
| Tasks.ToggleKeepsWellFormed | src/main.ts:492-494 | a toggle keeps every stored description non-empty and trimmed |
| Tasks.DeleteKeepsWellFormed | src/main.ts:496-498 | a delete keeps every stored description non-empty and trimmed |
| Tasks.AddKeepsDistinct | src/main.ts:481-482 | an add keeps the ids distinct when the clock reading is not already an id |
| Tasks.ToggleKeepsDistinct | src/main.ts:492-494 | a toggle keeps the ids distinct |
| Tasks.DeleteKeepsDistinct | src/main.ts:496-498 | a delete keeps the ids distinct |
| Tasks.SharedClockDeletesBoth | src/main.ts:496-498 | two tasks that share a clock-reading id are both removed by deleting either |
| TodoApp.App.constructor | src/main.ts:461-466 | the component starts with no tasks, an empty buffer, medium priority and the filter "Todas" |
| TodoApp.App.FilteredTasks | src/main.ts:468-477 | the `filteredTasks` getter: no longer than the list, every shown task is in the list, "Ativas" shows only pending tasks and "Concluídas" only completed ones |
| TodoApp.App.CompletedTasks | src/main.ts:500-502 | the `completedTasks` getter is at most the number of tasks |
| TodoApp.App.AddTask | src/main.ts:479-490 | `addTask` leaves the list equal to the result of an add on the old list, keeps the invariant, and clears the buffer exactly when the trimmed text was non-empty |
| TodoApp.App.ToggleTask | src/main.ts:492-494 | `toggleTask` leaves the list equal to the old list with the target's flag flipped, and keeps the invariant |
| TodoApp.App.DeleteTask | src/main.ts:496-498 | `deleteTask` leaves the list equal to the old list without the tasks carrying the id, and keeps the invariant |
| TodoApp.App.SetFilter | src/main.ts:51 | the filter button's `currentFilter = filter` stores the label and does not change the completed count |
| TodoApp.OneOfTwoCompleted | src/main.ts:468-477 | in a two-task list whose first task only is completed, each view holds one task, and each count is one |

## Left out

- The template markup, the CSS and `bootstrapApplication` are left out: they
  are presentation and start-up only.
- The two-way `ngModel` bindings are modelled as direct field assignment by
  the client of the class. Angular's change detection is not modelled.
- `createdAt` (src/main.ts:486) and its `date:'short'` display
  (src/main.ts:78) are left out. No operation of the class reads the field;
  only the template displays it.
- `Date.now()` is a clock read, so its value is the parameter `now` of
  `AddTask`. The model does not assume the clock is monotonic.
- TodoApp.App.ToggleTask: flips the task at an index rather than through a
  shared object reference, so the aliasing between the `filteredTasks` view
  and the list is captured only by `Tasks.ShownIndex`.
- Priorities are the datatype `Priority` rather than the strings 'low',
  'medium' and 'high'. The select element can only produce those three
  values, so nothing is lost.
- JavaScript strings are sequences of UTF-16 code units. The model's
  characters are Unicode scalar values, and the whitespace set is that of
  ECMA-262 for characters in the Basic Multilingual Plane.
- Integer ids are unbounded. JavaScript numbers are doubles, but
  millisecond timestamps stay well within their exact integer range.
