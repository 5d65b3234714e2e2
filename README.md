# To-do list task store

A model of the task-manager widget of a small jQuery to-do application. The widget
keeps two pieces of state: `tasks`, an ordered list of `{id, text, completed,
timestamp}` records with the newest first, and `currentFilter`, the name of the
selected view (`all`, `active` or `completed`). Its event handlers do five things:
add a task from the text field, toggle a task's completion, delete a task, clear
every completed task, and select a filter. After each one the task counter shows the
number of active tasks and the "clear completed" button is disabled when nothing is
completed. Selecting a filter also hides every task item that does not pass it, and an
empty-state panel with a filter-specific message appears in place of the list when no
item is visible. Adding and toggling do not re-apply the filter, and the empty-state
decision reads the page rather than the store, so the page can drift from the state
(see "## Left out" and "## Findings").

The model has six modules:

- `SeqFilter` (seqfilter.dfy): `Array.prototype.filter` as the function `Filter`, with
  lemmas for order, idempotence, congruence and splitting a list in two.
- `Text` (text.dfy): `String.prototype.trim`, using ECMAScript's white-space and
  line-terminator characters.
- `Tasks` (tasks.dfy): the `Task` record and what each store operation means as a
  function on `seq<Task>`: the counts, the sample tasks loaded at start-up, toggling
  the first match (`ToggleFirst`), deletion (`WithoutId`) and clearing completed
  tasks (`WithoutCompleted`). It also has the lemmas that relate these.
- `View` (view.dfy): the per-filter visibility switch, the visible tasks, the
  empty-state panel and its three messages. `Render` collects everything the page
  shows for a given state.
- `Store` (store.dfy): the class `TaskStore`. Its fields `tasks` and `filter` are the
  widget's two variables, and each handler is a method that reassigns them. Each
  method's `ensures` ties the new state to a `Tasks` function of the old state.
  `Find` is the linear search that `tasks.find` performs, proved with a loop
  invariant. `Session` walks through a whole session (add two tasks, complete one,
  change views, clear completed) using only the methods' contracts. It states the
  display after each add, after the toggle, under `completed`, under `active`, and at
  the end under `all`; it states nothing about the display right after the clear,
  before `all` is selected again.
- `Page` (page.dfy): the page's visibility pass as the source writes it
  (`filterTasks` followed by `updateUI`, counting `:visible` items), the corrected
  pass, and the lemmas that separate the two.

Identifiers and timestamps come from `Date.now()` in the source. Here they are
parameters: `Add`, `Submit` and `KeyPress` take the id and the timestamp, and
`LoadSampleTasks` takes one clock reading per sample item. The source does not
guarantee that ids are unique, so uniqueness (`DistinctIds`) is only assumed by the
lemmas that need it, and those lemmas show which operations preserve it.

## Model

| member | source | states |
|---|---|---|
| `SeqFilter.Filter` | assets/JS/app.js:171 | the result of `filter` holds exactly the elements that pass the predicate and is never longer than the input |
| `SeqFilter.FilterAppend` | assets/JS/app.js:171 | filtering keeps relative order: filtering `a + b` gives the filtered `a` followed by the filtered `b` |
| `SeqFilter.FilterAround` | assets/JS/app.js:244 | the count of passing elements of `a + [x] + b` is the count in `a`, plus one if `x` passes, plus the count in `b` |
| `SeqFilter.FilterAllPass` | assets/JS/app.js:171 | when every element passes, filtering returns the input unchanged |
| `SeqFilter.FilterEmpty` | assets/JS/app.js:248-249 | filtering returns the empty list exactly when no element passes |
| `SeqFilter.FilterIdempotent` | assets/JS/app.js:171 | filtering twice with the same predicate gives the same result as filtering once |
| `SeqFilter.FilterCongruent` | assets/JS/app.js:205 | two predicates that agree on every element filter the list the same way |
| `SeqFilter.FilterSplit` | assets/JS/app.js:244-248 | a predicate and its complement together account for every element: their result lengths add up to the input length |
| `Text.IsWhiteSpace` | assets/JS/app.js:47 | the characters `trim` removes include space, tab and newline, and all lie in the Basic Multilingual Plane (at most U+FEFF) |
| `Text.TrimStart` | assets/JS/app.js:54 | the result is a suffix of the input, only white space was removed, and it does not start with white space |
| `Text.TrimEnd` | assets/JS/app.js:54 | the result is a prefix of the input, only white space was removed, and it does not end with white space |
| `Text.Trim` | assets/JS/app.js:54 | the trimmed text is no longer than the input and neither starts nor ends with white space |
| `Text.TrimIsSlice` | assets/JS/app.js:54 | the trimmed text is a contiguous slice of the input, and everything before and after the slice is white space |
| `Text.TrimEmpty` | assets/JS/app.js:55 | the trimmed text is empty exactly when the input is all white space, which is when the add handler does nothing |
| `Text.TrimmedUnchanged` | assets/JS/app.js:47-48 | text that starts and ends with a non-space character is its own trimmed form |
| `Text.TrimIdempotent` | assets/JS/app.js:47-48 | trimming a trimmed text changes nothing, so a task's text is already trimmed when it is added |
| `Tasks.DistinctIdsCons` | assets/JS/app.js:101 | a task placed in front of a list gives distinct ids exactly when the list has distinct ids and does not already carry that task's id |
| `Tasks.CountsAddUp` | assets/JS/app.js:244-248 | the active count plus the completed count equals the number of tasks |
| `Tasks.ActiveCount` | assets/JS/app.js:244 | the active count is at most the number of tasks, and is zero exactly when every task is completed |
| `Tasks.CompletedCount` | assets/JS/app.js:248 | the completed count is at most the number of tasks, and is zero exactly when no task is completed |
| `Tasks.ClearDisabled` | assets/JS/app.js:247-249 | the clear-completed button is disabled exactly when no task is completed |
| `Tasks.SampleTasks` | assets/JS/app.js:27-41 | one task per sample item, in document order, each carrying that item's text and starting active |
| `Tasks.SampleTasksFresh` | assets/JS/app.js:29-33 | if the clock never runs backwards, the sample ids `clock + index` strictly increase and so are distinct, and none of the sample tasks starts completed |
| `Tasks.AddKeepsDistinct` | assets/JS/app.js:94-101 | prepending a task whose id is fresh keeps ids distinct |
| `Tasks.AddCounts` | assets/JS/app.js:97-101 | a new task starts active: the active count grows by one and the completed count stays the same |
| `Tasks.ToggleFirst` | assets/JS/app.js:142-145 | toggling keeps the length of the list, and keeps every task's id, text and timestamp at its position |
| `Tasks.ToggleFirstAt` | assets/JS/app.js:143-145 | if the first match for the id is at position `i`, toggling flips `completed` at `i` and leaves every other task unchanged |
| `Tasks.ToggleFirstAbsent` | assets/JS/app.js:143-144 | toggling an id that no task carries changes nothing |
| `Tasks.ToggleTwice` | assets/JS/app.js:145 | toggling the same id twice gives back the original list |
| `Tasks.ToggleKeepsDistinct` | assets/JS/app.js:145 | toggling keeps ids distinct |
| `Tasks.ToggleCounts` | assets/JS/app.js:145 | toggling moves exactly one task between the active count and the completed count, in the direction given by its old flag |
| `Tasks.OtherThan` | assets/JS/app.js:171 | the deletion callback keeps a task exactly when its id differs from the deleted id |
| `Tasks.WithoutId` | assets/JS/app.js:171 | after deletion, a task remains exactly when it was there before and its id differs from the deleted id, and no task with that id is left |
| `Tasks.DeleteAbsent` | assets/JS/app.js:171 | deleting an id that no task carries changes nothing |
| `Tasks.DeleteTwice` | assets/JS/app.js:171 | deleting the same id twice gives the same result as deleting it once |
| `Tasks.DeleteKeepsOrder` | assets/JS/app.js:171 | deletion keeps the relative order of the remaining tasks |
| `Tasks.DeleteRemovesAtMostOne` | assets/JS/app.js:171 | with distinct ids, deletion removes exactly one task when the id is present and none otherwise |
| `Tasks.FilterKeepsDistinct` | assets/JS/app.js:235 | deleting and clearing keep ids distinct |
| `Tasks.ToggleThenDelete` | assets/JS/app.js:165-176 | a toggle that happens before a pending delete of the same id runs does not change what the delete leaves |
| `Tasks.DeleteThenToggle` | assets/JS/app.js:143-145 | once an id is deleted, toggling it does nothing |
| `Tasks.WithoutCompleted` | assets/JS/app.js:235 | clearing leaves exactly the tasks that are not completed |
| `Tasks.ClearCounts` | assets/JS/app.js:235-237 | clearing keeps the active count, brings the completed count to zero, and removes as many tasks as the completed count was |
| `Tasks.ClearNothing` | assets/JS/app.js:225-228 | with nothing completed, clearing would leave the list unchanged, so the early return loses nothing |
| `View.Visible` | assets/JS/app.js:198-210 | a task can be shown only under one of the three known filter names; under `all` every task is shown, under `active` exactly the active ones, under `completed` exactly the completed ones |
| `View.VisibleTasks` | assets/JS/app.js:190-217 | a task is shown exactly when it is in the store and passes the filter |
| `View.EmptyStateShown` | assets/JS/app.js:253-255 | the empty state is due exactly when no stored task passes the filter |
| `View.EmptyMessage` | assets/JS/app.js:267-279 | the title is "No active tasks!" exactly under `active`, "No completed tasks!" exactly under `completed`, and "All caught up!" under every other filter name |
| `View.Render` | assets/JS/app.js:243-279 | the visible tasks are those that pass the filter; the counter plus the completed count equals the number of tasks; clear-completed is disabled exactly when nothing is completed; the empty state shows exactly when no task passes the filter; and the message is the one for that filter |
| `View.ViewsPartition` | assets/JS/app.js:200-210 | the `all` view is the whole list; the `active` and `completed` views have the active and completed counts as their sizes; every task is in exactly one of those two views; and the `active` and `completed` views are the lists the clear and count filters compute |
| `View.EmptyStateByFilter` | assets/JS/app.js:253-261 | the empty state shows under `all` exactly when there are no tasks, under `active` exactly when none are active, and under `completed` exactly when none are completed |
| `View.UnknownFilter` | assets/JS/app.js:198-210 | under a filter name the switch does not know, no task is shown, the empty state shows, and the default message is used |
| `Store.TaskStore.constructor` | assets/JS/app.js:3-4 | the widget starts with no tasks and the `all` filter |
| `Store.TaskStore.LoadSampleTasks` | assets/JS/app.js:25-42 | the sample tasks are appended to the tasks in document order; the filter is not changed |
| `Store.TaskStore.Add` | assets/JS/app.js:93-101 | the new task, active and with the given text, id and timestamp, goes at index 0, followed by the old tasks unchanged; the filter is not changed |
| `Store.TaskStore.Submit` | assets/JS/app.js:53-58 | blank input changes nothing and stays in the field; otherwise the trimmed text becomes the new front task and the field is emptied |
| `Store.TaskStore.KeyPress` | assets/JS/app.js:46-51 | only Enter with non-blank input adds the trimmed text and empties the field; every other key press changes nothing |
| `Store.TaskStore.Find` | assets/JS/app.js:143 | returns the position of the first task with the id; no position is returned exactly when no task carries the id |
| `Store.TaskStore.Toggle` | assets/JS/app.js:142-145 | the new tasks are `ToggleFirst` of the old ones; the filter is not changed |
| `Store.TaskStore.Delete` | assets/JS/app.js:165-176 | the new tasks are those of the old tasks whose id differs, in their original order |
| `Store.TaskStore.ClearCompleted` | assets/JS/app.js:222-241 | returns the old completed count; when that is zero the tasks are unchanged, and otherwise only the active tasks remain |
| `Store.TaskStore.SetFilter` | assets/JS/app.js:179-180 | the filter becomes the selected name and the tasks are unchanged |
| `Store.MixedPairViews` | assets/JS/app.js:198-210 | for an active task followed by a completed one, the `completed` view is the completed task alone, the `active` view the active task alone, and each count is 1; the rendered displays show counter 1 with clear-completed enabled, the completed task alone with no empty state under `completed`, and the active task alone under `active` |
| `Store.AllActiveView` | assets/JS/app.js:198-202 | under `all`, a list of active tasks is shown whole, the counter counts every task, and a non-empty list shows no empty state |
| `Store.AddTwo` | assets/JS/app.js:53-58 | from an empty list, submitting two texts leaves them newest first with the `all` filter; after the first add one task shows with counter 1 and no empty state, after the second both show with counter 2 and no empty state |
| `Store.Session` | assets/JS/app.js:44-91 | after the first add one task shows, the counter is 1 and there is no empty state; after the second add both show, newest first, and the counter is 2; after completing the older one the counter is 1 and clear-completed is enabled; the `completed` view shows only the completed task with no empty state, and the `active` view only the newer one; after clearing and returning to `all`, the newer task is the only one shown, the counter is 1, clear-completed is disabled and there is no empty state |
| `Page.ShownCount` | assets/JS/app.js:253 | the number of items with their own display flag set is at most the number of items, and zero exactly when no flag is set |
| `Page.VisibleItemCount` | assets/JS/app.js:253 | `:visible` counts the shown items while the list container is shown, and nothing while it is hidden |
| `Page.FirstIndexOf` | assets/JS/app.js:194 | the lookup `tasks.find(t => t.id == taskId)` stops at a position carrying the id, and no earlier position carries it |
| `Page.OwnFlags` | assets/JS/app.js:198-216 | one flag per task, set exactly when that task passes the filter, so as many flags are set as there are visible tasks |
| `Page.ItemFlags` | assets/JS/app.js:190-216 | `filterTasks` gives each item the flag of the first stored task carrying the item's id |
| `Page.ItemFlagsDistinct` | assets/JS/app.js:194 | with distinct ids every item finds its own task, so the lookup flags are the task-by-task flags |
| `Page.ItemFlagsCollision` | assets/JS/app.js:194 | two tasks sharing an id, a completed one first and an active one second: under `active` the lookup hides both items, though the second task passes |
| `Page.UpdateUIAsWritten` | assets/JS/app.js:252-261 | with no `:visible` item the empty state is shown and the list hidden, otherwise the reverse; item flags are untouched |
| `Page.FilterTasksAsWritten` | assets/JS/app.js:190-218 | the pass sets every item flag from the store, and once the list container is hidden it stays hidden with the empty state shown |
| `Page.AddItemAsWritten` | assets/JS/app.js:103-113 | `addTask` puts the new, displayed item in front of the others and runs `updateUI`; a hidden list stays hidden with the empty state shown |
| `Page.EmptyStartStuck` | assets/JS/app.js:18-23 | a page with no items: the `updateUI` at start-up hides the list and shows the empty state, and after an add the new item is displayed and its task passes `all`, yet the list stays hidden |
| `Page.StuckEmptyState` | assets/JS/app.js:253-260 | with one active task, selecting `completed` and then `all` leaves the task's item flagged as shown and the store showing something, yet the list hidden and the empty state on screen |
| `Page.UpdateUI` | assets/JS/app.js:252-261 | the corrected decision: the empty state shows exactly when no item's own flag is set, and the list exactly otherwise |
| `Page.FilterTasks` | assets/JS/app.js:190-218 | the corrected pass sets every item flag from the store |
| `Page.FilterTasksMatchesRender` | assets/JS/app.js:252-261 | with the corrected decision and distinct ids, from any previous page state the empty state shows exactly when `Render` says so, and the list exactly when some task passes the filter |

## Left out

- Most page work done through jQuery is left out: building elements (assets/JS/app.js:103-110, 119-140), adding and removing classes, the fade animations, and binding events (44-91). The handlers in `Store` are modelled by their effect on the two state variables. Showing and hiding is modelled only in `Page`: for the pass `filterTasks` followed by `updateUI` (212-216, 255-261), for the `updateUI` at start-up (22) and for the one after an add (106-113). The other `updateUI` calls outside `filterTasks`, after a toggle (161), a delete (174) and a clear (238), are not modelled on the page. `Render` is the display the state calls for, not the page the source produces; `Page.StuckEmptyState` shows one way the two part.
- `escapeHtml` (308-312) is left out, because it delegates to the browser's own HTML serialiser.
- The notification presenter (282-306) and all timers are left out: the 300 ms delay before a delete or a clear takes effect (170, 234), the notification timers, and the input focus (87-90, 370-372). Delete and clear-completed are modelled by their effect once the delay has passed. `ToggleThenDelete` and `DeleteThenToggle` cover a toggle that lands before or after that moment.
- The injected notification styles (315-367) and the highlighting of the active filter button (183-184) are presentation only and are left out.
- `Date.now()` is a clock read, so the model takes ids and timestamps as parameters.
- Store.TaskStore.LoadSampleTasks: one clock reading per item serves as both the timestamp and the base of the id. The source reads the clock twice per item (29 and 34), so the id and the timestamp may come from different readings.
- Store.TaskStore.ClearCompleted: the source decides whether to return early, and what count to report, from the completed elements on the page (223), and removes those same elements (236). The model uses the store's completed count and filters the store. The page and the store can disagree in two ways the model does not capture. First, ids can collide: a sample id is `Date.now() + index` (29), so a task added later with `Date.now()` (95) can carry the same id. `toggleTask` then flips only the first matching record (143-145) but changes the class of every element with that id (147-156). Second, the elements are captured at 223 but the store is filtered 300 ms later (235). A toggle in that window either keeps a task in the store whose element 236 removes, or drops a task from the store whose element stays on the page.
- View.EmptyStateShown, View.Render: the source decides whether to show the empty state by counting page elements that are currently visible (253). But `addTask` prepends the new element without re-applying the filter, and `toggleTask` does not re-filter either. So under `completed` a freshly added active task stays on screen until the filter is chosen again. Both members derive visibility and the empty state from the store and the filter on every pass, and do not capture that stale on-screen state. The larger divergence, an empty state that sticks once it has appeared, is modelled in `Page` and recorded under "## Findings".
- Page.ItemFlags, Page.FilterTasksMatchesRender: `filterTasks` finds each item's task by id (194), so when ids collide every item with a shared id takes the flag of the first task carrying it (`Page.ItemFlagsCollision`). The corrected pass agrees with `Render` only for distinct ids, which is what `FilterTasksMatchesRender` requires; the model does not describe the page for colliding ids beyond that lemma.
- Ids are JavaScript numbers compared with loose equality (143, 171). The model uses mathematical integers, which is faithful as long as the ids are integral and exactly representable, as `Date.now()` values are.
- Dafny's `char` is a Unicode scalar value, while a JavaScript string is a sequence of UTF-16 code units. `trim` behaves the same on both, because every white-space and line-terminator character lies in the Basic Multilingual Plane (`Text.IsWhiteSpace`). A lone surrogate code unit in the text field has no Dafny counterpart and is not modelled.
- `addTask` returns nothing in the source, so `Add` does not return the new task.

## Findings

| source | as written | input that shows it | evidently intended | confidence | as-written member | corrected member |
|---|---|---|---|---|---|---|
| assets/JS/app.js:252-261 | `updateUI` counts `$('.task-item:visible')`, which is zero while `$taskList` is hidden; it hides the list when the count is zero and shows it again only when the count is non-zero, so once hidden the list is never shown again (adding at 106-113 and refiltering at 187-219 both end in the same count) | a page with no sample items: the `updateUI` at start-up (22) hides the list, and no task added later is ever shown (`Page.EmptyStartStuck`); or one active task, select `completed` (list hidden, empty state shown), then select `all`: the item is flagged as shown and the task passes the filter, but the list stays hidden and the empty state stays (`Page.StuckEmptyState`) | decide from the items' own display flags, so the list reappears as soon as a task passes the filter | not executed | `Page.StuckEmptyState` | `Page.FilterTasksMatchesRender` |
