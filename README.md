# TaskFlow task manager — a Dafny model

TaskFlow is a browser task list: tasks are created, edited, deleted, completed,
filtered, sorted and dragged between days on a calendar. An overdue check and a
due-soon check run periodically. This project models the `TaskManager`
controller of `manager.js` without its DOM, calendar, notification and storage
plumbing. It consists of the controller's state, the handlers that change it, the
rendering pipeline (filter, then sort), the two due-date sweeps and the
priority lookup tables.

Files and modules:

- `tasks.dfy` (`Tasks`) covers:
  - the task record, with priorities as an enumeration and dates as millisecond timestamps;
  - the order-preserving selection that every `filter` call in the controller performs (`Select`);
  - the lookup by id that every `find` call performs (`FindIndex`);
  - the priority colour and label tables.
- `store.dfy` (`Store`) defines add, edit, delete, toggle and move-due-date as functions from the old collection to the new one. Lemmas beside them say what changes, what stays, and that ids stay unique.
- `view.dfy` (`View`) covers:
  - the filter step;
  - the two-key comparator, proved to be a total preorder;
  - the sorted copy (`SortBy`), proved sorted, a permutation of its input, and stable;
  - the rendered list.
- `sweeps.dfy` (`Sweeps`) defines the tasks the overdue check alerts about and the tasks the due-soon check notifies about.
- `manager.dfy` (`Manager`) holds the class `TaskManager`, which has the fields `tasks`, `currentFilter`, `currentSort` and `editingTaskId`:
  - Each handler is a method whose `ensures` gives the new state in terms of the `Store` functions.
  - Rendering sorts the filtered copy in place in an array, with an insertion sort. It is proved equal to `SortBy`.
  - The two sweeps are loops over the collection, each proved equal to its `Sweeps` function.

Array.prototype.sort is stable, and a stable sort with a consistent comparator
has one possible result. So `SortBy`, which is a stable insertion sort, fixes the
order the list shows, and the in-place loop is proved to produce exactly it.

Where the controller's code behaves differently from what its handlers suggest, the model follows the code:

- The past-date check runs before the add/edit branch, so it also rejects edits: `SubmitTask` returns `PastDueDate` and changes nothing.
- Toggle and edit dereference the task `find` returns without checking it. On an absent id they are not no-ops: the source throws (manager.js:242, 319). So both carry the precondition that the id names a task.
- Delete filters the collection, so it removes every task with the id, not only the first (manager.js:275). With unique ids, `DeleteRemovesAtMostOne` shows that it removes at most one.
- Deleting the task being edited leaves `editingTaskId` set (manager.js:275), and `DeleteTask` ensures the edit then names no task. From then on every submit with a valid date, adds included, throws at manager.js:242 before the edit id is cleared at line 248. So no task can be added until Edit is clicked on an existing task or the page is reloaded. In the model, that state lies outside `SubmitTask`'s precondition.
- The edit button sets `editingTaskId` before the form is filled, even when no task has the id (`BeginEdit`). Clicking a calendar event only fills the form and does not set `editingTaskId`, so it does not start an edit.
- The sort criterion is whatever string the selector supplies. An unknown criterion compares every pair equal at first, then breaks ties by priority.

## Model

| member | source | states |
|---|---|---|
| Tasks.Rank | manager.js:110-111 | The priority rank lies between 1 and 3. High is exactly rank 3 and low exactly rank 1. |
| Tasks.PriorityColor | manager.js:209-212 | low, medium and high map to green, amber and red. Exactly the names outside those three get the gray fallback. |
| Tasks.PriorityLabel | manager.js:303-310 | medium and high map to their labels. The label is `Low` exactly for `low` and for every unknown name. |
| Tasks.StoredPriorityLookups | manager.js:209-212 | A stored priority never gets the gray fallback. Its label is `Low` only for low. The three colours are distinct. |
| Tasks.Select | manager.js:275 | The result of `filter` is never longer than its input. Its meaning is stated by `SelectMember`, `SelectCount` and `SelectConcat`. |
| Tasks.SelectConcat | manager.js:275 | `filter` distributes over concatenation, so it keeps relative order. |
| Tasks.SelectCount | manager.js:275 | `filter` keeps every occurrence of a kept task and drops every other one. |
| Tasks.SelectMember | manager.js:333-340 | A task is in the filtered result iff it is in the input and passes the predicate. |
| Tasks.SelectKeepsAll | manager.js:339 | A predicate that accepts every element returns the input unchanged. |
| Tasks.FindIndex | manager.js:125 | `find` by id returns the first task with that id. It finds nothing exactly when no task has the id. |
| Tasks.FindIndexSameIds | manager.js:125 | Lookup by id depends only on the ids, position by position. |
| Store.NewTask | manager.js:250-257 | The pushed record has the submitted fields and the fresh id, and it is not completed. |
| Store.FindIndexAppend | manager.js:258 | A push leaves the lookup of every other id unchanged. |
| Store.AddKeepsUniqueIds | manager.js:250-258 | Pushing a task with an unused id keeps ids unique. The new task is found at the end, and every other lookup is unchanged. |
| Store.Edited | manager.js:239-245 | An edit keeps the length. The found task takes the new title, description, due date and priority. Every other task is unchanged. |
| Store.EditKeepsIdsAndCompletion | manager.js:239-245 | An edit keeps every id and every completion flag in place, and it keeps ids unique. |
| Store.Deleted | manager.js:275 | The delete step, `filter` on a differing id. It is specified by `DeleteRemovesExactly`, `DeleteKeepsOrder`, `DeleteAbsentIsNoOp`, `DeleteIdempotent` and `DeleteRemovesAtMostOne`. |
| Store.DeleteRemovesExactly | manager.js:275 | After a delete no task has the id. A task remains iff it was present and has another id, with its multiplicity preserved. |
| Store.DeleteKeepsOrder | manager.js:275 | Delete distributes over concatenation, so the remaining tasks keep their order. |
| Store.DeleteAbsentIsNoOp | manager.js:275 | Deleting an id no task has changes nothing. |
| Store.DeleteIdempotent | manager.js:275 | Deleting twice is the same as deleting once. |
| Store.DeleteRemovesAtMostOne | manager.js:275 | With unique ids, a delete removes at most one task and keeps ids unique. |
| Store.Toggled | manager.js:317-319 | A toggle keeps the length, flips the completion flag of the found task, and leaves every other task unchanged. |
| Store.ToggleTwiceRestores | manager.js:317-319 | A toggle keeps every id, so the task is still found. Toggling twice restores the collection. A toggle keeps ids unique. |
| Store.Moved | manager.js:122-132 | A drop changes at most the due date of each task. Only the found task takes the new date. An unknown id changes nothing. |
| Store.MoveKeepsUniqueIds | manager.js:181-191 | A drop keeps ids unique. Repeating it with the same date changes nothing more. |
| View.Shown | manager.js:333-340 | The filter callback: `completed` passes completed tasks, `pending` passes open ones, anything else passes all. Its consequences for the list are stated by `FilterExact`. |
| View.FilterTasks | manager.js:333-340 | The filter step of rendering. It is specified by `FilterExact`, `FilterKeepsOrder` and `FilterPartition`. |
| View.FilterExact | manager.js:333-340 | `completed` keeps exactly the completed tasks and `pending` exactly the open ones. Any other filter keeps the collection as it is. |
| View.FilterKeepsOrder | manager.js:333-340 | Filtering distributes over concatenation, so it keeps collection order. |
| View.FilterPartition | manager.js:333-340 | Between them, the `completed` and `pending` views hold every task of the collection once. |
| View.CriterionOf | manager.js:108-120 | The comparator's criterion is priority exactly for `priority` and due date exactly for `dueDate`. Any other string is unknown. |
| View.CompareBy | manager.js:108-120 | `_compareByCriteria`: rank difference for priority, date difference for due date, 0 otherwise. Its sign is stated by `CompareByMeaning`. |
| View.Secondary | manager.js:99-100 | The tie-break criterion: due date under a priority sort and priority under any other. It is used by `CompareMeaning`. |
| View.Compare | manager.js:93-105 | The sort comparator: the primary criterion, then on a zero the secondary one. It is specified by `CompareMeaning` and `CompareIsTotalPreorder`. |
| View.CompareByMeaning | manager.js:108-120 | By priority, the higher rank comes first and equal priorities compare equal. By due date, the earlier date comes first. An unknown criterion compares equal. |
| View.CompareMeaning | manager.js:92-106 | Under a priority sort, higher priority comes first, then the earlier date. Under a due-date sort, the earlier date comes first, then higher priority. Under an unknown criterion, only priority orders. Two tasks compare equal exactly when both keys agree (only priority for an unknown criterion). |
| View.CompareIsTotalPreorder | manager.js:92-120 | The comparator is antisymmetric and transitive, and ties are transitive. |
| View.InsertPos | manager.js:93 | Where a stable sort places the next task: never past the end of the sorted prefix. It is characterised by `InsertPosBounds` and `InsertPosUnique`. |
| View.Insert | manager.js:93 | One insertion step: one task longer. It is specified by `InsertPermutes`, `InsertSorted` and `InsertTies`. |
| View.SortBy | manager.js:93-105 | The order `sort` produces with the comparator: same length as the input. It is specified by `SortBySorted` and `SortByStable`. |
| View.InsertPosBounds | manager.js:93 | Every task after the insertion point compares greater than the inserted task. The task before the point does not. |
| View.InsertPosUnique | manager.js:93 | Those two facts determine the insertion point. |
| View.InsertPermutes | manager.js:93 | An insertion adds exactly the inserted task. |
| View.SortByStep | manager.js:93 | Sorting one more input task inserts it into the sorted prefix. |
| View.InsertSorted | manager.js:93-105 | Inserting into a comparator-sorted sequence keeps it sorted. |
| View.SortBySorted | manager.js:92-106 | The sorted copy is in comparator order for every pair, and it is a permutation of the input. |
| View.InsertTies | manager.js:93 | An insertion places the inserted task after every task already there that compares equal to it. |
| View.SortByStable | manager.js:92-106 | Stability: tasks that compare equal keep their collection order in the sorted copy. |
| View.VisibleTasks | manager.js:331-343 | The list rendering shows: the filtered tasks, sorted under the current criterion. It is specified by `VisibleTasksSpec`. |
| View.VisibleTasksSpec | manager.js:331-343 | The rendered list is in comparator order. It holds each task that passes the filter as often as the collection does, and no other task. |
| View.PrioritySortExample | manager.js:92-111 | Two high-priority tasks come first, earlier due date first, then the low one. |
| Sweeps.IsOverdue | manager.js:140 | The overdue condition: due before today's midnight and not completed. |
| Sweeps.Overdue | manager.js:138-143 | The tasks the overdue check alerts about. It is specified by `OverdueExact`. |
| Sweeps.IsDueSoon | manager.js:153 | The due-soon condition: due after now, no later than one day after now, and not completed. |
| Sweeps.DueSoon | manager.js:151-158 | The tasks the due-soon check notifies about. It is specified by `DueSoonExact`. |
| Sweeps.OverdueExact | manager.js:134-144 | The overdue check alerts exactly the open tasks due before today's midnight, each as often as it occurs, in collection order. |
| Sweeps.DueSoonExact | manager.js:146-159 | The due-soon check notifies exactly the open tasks due after now and at most one day later, each as often as it occurs, in collection order. |
| Sweeps.OverdueAndDueSoonDisjoint | manager.js:134-159 | No task is both overdue and due soon when today's midnight is not after now. |
| Sweeps.OverdueExample | manager.js:134-144 | A task due two days ago raises one alert, and none once it is completed. |
| Manager.TaskManager.constructor | manager.js:12-30 | The controller starts from the stored collection with filter `all`, sort `priority`, and no task being edited. |
| Manager.TaskManager.Editing | manager.js:237 | The truth test on `editingTaskId`: set and not the empty string. It decides the edit branch of `SubmitTask`. |
| Manager.TaskManager.SetFilter | manager.js:77 | A filter button changes only the filter. |
| Manager.TaskManager.SetSort | manager.js:85-87 | The sort selector changes only the sort criterion. |
| Manager.TaskManager.SubmitTask | manager.js:220-265 | A due date before today's midnight changes nothing, whether adding or editing. Otherwise, while editing, the edited task takes the four fields and editing ends. Otherwise exactly one new open task is appended. Ids stay unique when the fresh id is unused. |
| Manager.TaskManager.DeleteTask | manager.js:268-280 | The delete button drops every task with the id and changes nothing else. Deleting the task being edited leaves an edit id that names no task. |
| Manager.TaskManager.BeginEdit | manager.js:282-290 | The edit button sets the edited id, whether or not a task has it. It returns the first task with the id, or none. |
| Manager.TaskManager.ToggleComplete | manager.js:313-322 | The checkbox flips the completion of the task with the id and changes nothing else. The id must name a task. |
| Manager.TaskManager.MoveDueDate | manager.js:122-132 | A calendar drop, from either drop callback, gives the task with the id the new due date. It changes nothing else, and nothing at all for an unknown id. |
| Manager.TaskManager.InsertAt | manager.js:93 | One insertion step of the in-place sort leaves the array as the sorted prefix with the next task inserted, followed by the untouched rest. |
| Manager.TaskManager.SortTasks | manager.js:92-106 | The in-place sort leaves the array as `SortBy` of its old contents under the current criterion. |
| Manager.TaskManager.RenderTasks | manager.js:331-343 | The rendered list is the sorted filtered copy. The collection is not modified. |
| Manager.TaskManager.CheckOverdueTasks | manager.js:134-144 | The sweep's alerts are exactly `Overdue` of the collection, in order. |
| Manager.TaskManager.CheckDueSoonTasks | manager.js:146-159 | The sweep's notifications are exactly `DueSoon` of the collection, in order. |

## Left out

- The HTML built by rendering, the status classes of each row, and the drag-start handlers (manager.js:345-392) are DOM output and are not modelled. The status classes read `task.duedate` (manager.js:347), a field no task record has. That gives an invalid date, so as written no row is ever marked overdue or due soon.
- The rendered row has no `data-id` attribute (manager.js:356-360), so the drag-start handler stores an undefined id (manager.js:390). A list row dropped on the calendar (manager.js:182-184) therefore looks up an id no task has, and by `Moved` nothing changes. Only moving an event already on the calendar changes a due date. Whether the widget's drop argument carries `dataTransfer` at all is third-party behaviour, not part of this model.
- The bindings of form, list, filter-button, sort-selector and calendar-toggle events (manager.js:54-89, 201-206) are not modelled. Each handler is a method of its own.
- Filling the form for an edit (manager.js:294-301) is not modelled; `BeginEdit` returns the task that would fill it. With an absent id the source then throws. At that point `editingTaskId` is already set, and that is the state `BeginEdit` leaves.
- Clicking a calendar event (manager.js:192-196) only fills the form, so it changes no modelled state. The FullCalendar widget, its event list and `refetchEvents`/`render` calls are third-party code and are not part of this model.
- The `alert` and `Notification` calls and the permission request (manager.js:43-45, 141, 154-165) are not modelled. Nor is the message text. Each sweep returns the tasks it would alert or notify about.
- The hourly `setInterval` (manager.js:48-51) is a timer and is not modelled.
- The constructor's overdue sweep at load (manager.js:40) is not part of `TaskManager.constructor`; it is the separate method `CheckOverdueTasks`. The due-soon sweep does not run at load; it first runs on the first hourly tick (manager.js:48-51).
- `localStorage` and the JSON round-trip (manager.js:14, 326-328) are I/O. The constructor takes the stored collection as a parameter, and saves are not modelled.
- The source stores a `Date` object on add and edit but a `YYYY-MM-DD` string on drop (manager.js:128, 186, 244, 254). The model keeps one timestamp per task.
- `crypto.randomUUID().slice(0, 8)` (manager.js:216) is random. The caller supplies the fresh id. Because the 8-character id is truncated, uniqueness is stated only when that id is unused.
- Date parsing, time zones and the clock are not modelled. Dates are millisecond timestamps, and today's midnight and the current time are parameters.
- Sweeps.DueSoonExact: "tomorrow" is taken as now plus 86 400 000 ms. The source's `setDate(getDate() + 1)` is a calendar day, which differs across a daylight-saving change.
- Priorities are an enumeration, so stored priorities outside low, medium and high are not modelled. With those, the comparator returns NaN (manager.js:111). The lookup tables take any string. Names that are inherited object keys, such as `toString`, are not modelled.
- Manager.TaskManager.SortTasks: the specification is a stable insertion sort. The engine's sort algorithm is not modelled. For a consistent comparator, any stable sort yields the same sequence.
