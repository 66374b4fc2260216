# Interactive to-do list: a verified model of its core

This project models the core of a single-page to-do application written in
TypeScript and React. It covers six things:

- **The task record.** A task has nine fields. The caller supplies six of them as a
  "draft"; the other three are the id and the creation and update times.
- **The page's state handlers.** These add a task in front, edit the task being
  edited, delete by id, toggle completion by id, and start or cancel an edit.
- **The derived view.** The page shows a search, then a status filter, then a sort by
  one of five keys.
- **The sidebar figures.** The Quick Stats panel shows totals, completed, pending and
  open high-priority counts. The Recent Activity panel shows the five most recently
  updated tasks.
- **The create/edit form.** It has six state fields, a load from the task being
  edited, submit, cancel, and the priority colour.
- **The wiring.** It connects the form to the page state and keeps one invariant
  across every user action.

Modules, in dependency order:

| module | file | models |
|---|---|---|
| `Sequences` | Sequences.dfy | `Array.prototype.filter`, `slice(0, n)`, and the order-preserving deletion relation `IsSubsequence` |
| `Text` | Text.dfy | `trim` with ECMAScript's whitespace set, `toLowerCase` on ASCII letters, `includes`, and a code-point ordering that stands in for `localeCompare` |
| `TaskModel` | TaskModel.dfy | `Task`, the draft type `Omit<Task, 'id' \| 'createdAt' \| 'updatedAt'>`, `SortOption`, `FilterOption`, and the documented validity of a task and of a draft |
| `TaskView` | TaskView.dfy | the search, the status filter, the comparator, the stable sort (`Array.prototype.sort`), the displayed list, the Quick Stats figures and Recent Activity |
| `TaskStore` | TaskStore.dfy | the handlers as functions on lists; the class `Store` with `tasks` and `editingTask`; the render step, as written and corrected |
| `TaskForm` | TaskForm.dfy | the class `Form` with its six fields, `categories`, `getPriorityColor`, and the draft a submit produces |
| `TodoApp` | TodoApp.dfy | the class `App`, which wires the form to the store and keeps the page invariant `Valid()` |

The id generator and the clock are parameters of the handlers. `crypto.randomUUID`
is modelled as a fresh `id` that no current task has. Each handler is given one
integer `now` for `new Date()`; the add handler reads the clock twice, and "## Left
out" says what that single value does not capture.

Dates are integers: milliseconds since the epoch, the value `getTime` gives. The
form's date string is opaque text. Turning a date into the text of a date input is
the parameter `formatDate`. Parsing it back is the parameter `parseDate`.

No handler raises an error. The cases that could have been errors are handled
silently, and so does the model:
- a blank title submits nothing and leaves the form as it is;
- editing with nothing being edited changes nothing;
- editing, toggling or deleting an id that no task has changes nothing.

Each of these cases is stated in a contract.

`Array.prototype.sort` is stable: ECMA-262 has required that since its 2019 edition. It
is modelled by the stable insertion sort `TaskView.SortBy`. `TaskView.SortUnique`
proves that every sorted, tie-preserving permutation equals `SortBy`, so the model
does not depend on which stable algorithm an engine uses.

## Types and constants

These declarations carry no contract. The "## Model" rows below state what is proved
about them.

| declaration | source | models |
|---|---|---|
| `TaskModel.Task` | src/types/Task.ts:1-11 | the task record: nine fields, only `dueDate` optional (`Option<int>`), dates as integers |
| `TaskModel.Draft` | src/App.tsx:28 | `Omit<Task, 'id' \| 'createdAt' \| 'updatedAt'>`: the six caller-supplied fields |
| `TaskModel.SortOption` | src/types/Task.ts:13 | the five sort keys |
| `TaskModel.FilterOption` | src/types/Task.ts:14 | the four status filters |
| `TaskForm.Categories` | src/components/TaskForm.tsx:11 | the six category options, in order |
| `TaskForm.DefaultCategory` | src/components/TaskForm.tsx:18 | the category a cleared form selects |

## Model

| member | source | states |
|---|---|---|
| Sequences.Filter | src/App.tsx:54 | the filtered array is no longer than its input and every element it keeps satisfies the predicate |
| Sequences.FilterMultiset | src/App.tsx:54 | filter keeps each element that satisfies the predicate as often as it occurs, and no other element |
| Sequences.FilterIsSubsequence | src/App.tsx:54 | filter keeps the original relative order |
| Sequences.FilterKeepsAll | src/App.tsx:83-87 | a predicate that every element satisfies makes the filter return its input |
| Sequences.FilterCommutes | src/App.tsx:81-101 | two filters applied one after the other commute |
| Sequences.FilterIdempotent | src/App.tsx:83-87 | filtering twice with one predicate is filtering once |
| Sequences.FilterCountPermutation | src/App.tsx:126 | how many elements a filter keeps depends only on the multiset of the input |
| Sequences.SubsequenceTransitive | src/App.tsx:81-101 | deletions compose: a subsequence of a subsequence is a subsequence |
| Sequences.Take | src/App.tsx:237 | `slice(0, n)` returns the first min(n, length) elements |
| Text.IsWhitespace | src/components/TaskForm.tsx:34 | definition, with no contract of its own: the characters `trim()` removes, ECMAScript's WhiteSpace and LineTerminator code points |
| Text.Trim | src/components/TaskForm.tsx:34 | `trim()` is never longer than its input and neither starts nor ends with whitespace; `TrimSpec` says what it cuts |
| Text.TrimStart | src/components/TaskForm.tsx:34 | the result is the suffix after a whitespace-only prefix, and it does not start with whitespace |
| Text.TrimEnd | src/components/TaskForm.tsx:34 | the result is the prefix before a whitespace-only suffix, and it does not end with whitespace |
| Text.TrimSpec | src/components/TaskForm.tsx:37-38 | `trim` returns a middle slice of its input with only whitespace cut off either side and no whitespace at either end |
| Text.TrimEmptyIffBlank | src/components/TaskForm.tsx:34 | `trim()` is empty exactly when the input is all whitespace, both directions |
| Text.TrimIdempotent | src/components/TaskForm.tsx:37 | a trimmed string trims to itself |
| Text.Lower | src/App.tsx:84-86 | lower-casing keeps the length and maps each character by the ASCII case map |
| Text.LowerIdempotent | src/App.tsx:84-86 | lower-casing twice is lower-casing once, and no ASCII capital survives it |
| Text.Contains | src/App.tsx:84-86 | `includes` only finds a needle no longer than the string searched; `ContainsSpec` characterises it by occurrence |
| Text.ContainsSpec | src/App.tsx:84-86 | `includes` holds exactly when the needle occurs at some index, both directions |
| Text.ContainsEmpty | src/App.tsx:82 | every string includes the empty string |
| Text.CompareStrings | src/App.tsx:107 | the comparison returns -1, 0 or 1 |
| Text.CompareStringsAntisymmetric | src/App.tsx:107 | swapping the arguments negates the result |
| Text.CompareStringsTransitive | src/App.tsx:107 | "not after" is transitive |
| Text.CompareStringsIsLex | src/App.tsx:116 | "not after" is lexicographic order stated independently, through a common prefix and a first difference; both directions |
| TaskModel.OnPriorityScale | src/types/Task.ts:5 | definition, with no contract of its own: the documented 1-5 priority scale |
| TaskModel.ValidTask | src/types/Task.ts:1-11 | definition, with no contract of its own: a stored task has a title that is not blank, a priority on the scale, and an update time no earlier than its creation time; `TaskStore.WellFormed` lists it for every task |
| TaskModel.ValidDraft | src/components/TaskForm.tsx:34-43 | definition, with no contract of its own: a submitted draft has a title that is not blank and a priority on the scale |
| TaskView.Matches | src/App.tsx:83-87 | the search test: the empty term matches every task, and a task can only match a term no longer than its title, description or category |
| TaskView.Search | src/App.tsx:81-88 | the search keeps the list's order, and keeps exactly the tasks whose lower-cased title, description or category includes the lower-cased term, with their multiplicity; for the empty term it keeps all |
| TaskView.SearchEmptyTermIsFilter | src/App.tsx:82 | skipping the search for the empty term gives the same list as filtering by it |
| TaskView.SearchIdempotent | src/App.tsx:83-87 | searching the result again with the same term changes nothing |
| TaskView.Shows | src/App.tsx:91-101 | definition of the status test, with no contract of its own: completed, not completed, priority at least 4, or always for All; `StatusFilter` states what filtering by it keeps |
| TaskView.StatusFilter | src/App.tsx:90-101 | completed, pending and high-priority (priority at least 4) keep exactly the matching tasks in order; All keeps the list as it is |
| TaskView.SearchAndStatusCommute | src/App.tsx:81-101 | the search and the status filter can run in either order |
| TaskView.Compare | src/App.tsx:104-121 | definition of the comparator, with no contract of its own: the five keys as the source writes them; its meaning, antisymmetry and transitivity are the next three lemmas |
| TaskView.CompareIsInOrder | src/App.tsx:104-121 | the comparator says "not after" exactly when the key's direct meaning holds: titles and categories ascending, priority descending, dated tasks ascending and before undated ones, creation newest first |
| TaskView.CompareAntisymmetric | src/App.tsx:104-121 | swapping the tasks negates the comparator |
| TaskView.CompareTransitive | src/App.tsx:104-121 | the comparator's "not after" is transitive for every key |
| TaskView.TieTransitive | src/App.tsx:104-121 | comparator ties are transitive |
| TaskView.SortedAllPairs | src/App.tsx:104 | in a list sorted on adjacent pairs, every pair is in order |
| TaskView.SortedMeaning | src/App.tsx:104-121 | in a sorted list every pair satisfies the key's direct meaning |
| TaskView.Insert | src/App.tsx:104 | insertion adds exactly one element |
| TaskView.SortBy | src/App.tsx:104 | the sort is a permutation of its input |
| TaskView.InsertSorted | src/App.tsx:104 | inserting into a sorted list keeps it sorted |
| TaskView.SortBySorted | src/App.tsx:104 | the sort's result is sorted |
| TaskView.SortStable | src/App.tsx:104 | tasks that tie keep their relative order |
| TaskView.SortUnique | src/App.tsx:104 | any sorted permutation that keeps ties in input order is the sort's result |
| TaskView.View | src/App.tsx:78-124 | definition of the displayed list, with no contract of its own: search, then status filter, then the stable sort by the chosen key; `ViewSpec` states what it holds |
| TaskView.ViewSpec | src/App.tsx:78-124 | the view holds exactly the tasks that pass the search and the filter, with their multiplicity, sorted by the chosen key, never more than the store holds |
| TaskView.ViewTiesInStoreOrder | src/App.tsx:104-121 | displayed tasks that tie under the chosen key keep the order they have in the store's list |
| TaskView.HighPriorityExample | src/App.tsx:98-99 | of a priority-2 and a priority-5 task, only the second passes the high-priority filter |
| TaskView.DueDateExample | src/App.tsx:110-114 | due dates 10, none and 5 sort as 5, 10, none |
| TaskView.CompletedAndPendingPartition | src/App.tsx:219 | completed and not-completed tasks together are all tasks |
| TaskView.StatsOf | src/App.tsx:210-225 | definition of the four Quick Stats figures, with no contract of its own; `StatsSpec` and `StatsPermutation` state their relations |
| TaskView.StatsSpec | src/App.tsx:210-225 | pending counts the tasks not completed, completed plus pending is the total, and high-priority counts the pending tasks of priority at least 4 (at most the pending count) |
| TaskView.OpenHighPriorityIsPendingHighPriority | src/App.tsx:224 | the sidebar's high-priority filter is the high-priority filter followed by the pending filter |
| TaskView.OpenHighPriorityAtMostPending | src/App.tsx:224 | there are never more open high-priority tasks than pending ones |
| TaskView.StatsPermutation | src/App.tsx:210-225 | the figures do not depend on the order of the list |
| TaskView.RecentActivity | src/App.tsx:235-237 | definition of the Recent Activity entries, with no contract of its own: the first five of the list sorted newest update first; `RecentActivitySpec` states what they are |
| TaskView.RecentActivitySpec | src/App.tsx:235-237 | Recent Activity shows min(5, n) of the list's tasks, newest update first, and no task left out was updated later than a task shown |
| TaskStore.NewTask | src/App.tsx:29-34 | the new task carries the draft, the given id, and creation and update times both equal to now |
| TaskStore.Edited | src/App.tsx:41-45 | the edited task carries the draft, the snapshot's id and creation time, and update time now |
| TaskStore.Toggled | src/App.tsx:60 | the toggled task has the opposite completion flag, update time now, and every other field unchanged |
| TaskStore.ReplaceById | src/App.tsx:47-49 | same length; each task with the id is replaced, each other task is unchanged |
| TaskStore.ToggleById | src/App.tsx:58-62 | same length; each task with the id is toggled, each other task is unchanged |
| TaskStore.RemoveById | src/App.tsx:54 | delete keeps, in order, exactly the tasks with another id, with their multiplicity |
| TaskStore.AddKeepsIdsUnique | src/App.tsx:28-35 | adding under a fresh id keeps ids unique and adds exactly that id |
| TaskStore.DeleteUndoesAdd | src/App.tsx:53-55 | deleting the task just added restores the list |
| TaskStore.DeleteMissingIsNoOp | src/App.tsx:53-55 | deleting an id no task has leaves the list unchanged |
| TaskStore.DeleteSpec | src/App.tsx:53-55 | after deleting, the id set is the old one without that id, and ids stay unique |
| TaskStore.SubsequenceKeepsIdsUnique | src/App.tsx:54 | deleting tasks keeps ids unique |
| TaskStore.EditSpec | src/App.tsx:47-49 | editing keeps the id set and their uniqueness; with no task of the snapshot's id it changes nothing |
| TaskStore.ToggleSpec | src/App.tsx:57-63 | toggling keeps the id set and their uniqueness; with no task of the id it changes nothing |
| TaskStore.ToggleTwice | src/App.tsx:57-63 | toggling twice restores every task except the update time of the matching ones |
| TaskStore.AddKeepsWellFormed | src/App.tsx:28-36 | adding a valid draft under a fresh id keeps unique ids, non-blank titles, priorities on the scale and creation no later than update |
| TaskStore.EditKeepsWellFormed | src/App.tsx:38-51 | editing with a valid draft no earlier than the snapshot's creation keeps the record invariants |
| TaskStore.ToggleKeepsWellFormed | src/App.tsx:57-63 | toggling at a time no earlier than any creation keeps the record invariants |
| TaskStore.DeleteKeepsWellFormed | src/App.tsx:53-55 | deleting keeps the record invariants |
| TaskStore.PermutationKeepsWellFormed | src/App.tsx:236 | reordering the list in place keeps the record invariants |
| TaskStore.OrderAfterRender | src/App.tsx:235-237 | the list a render leaves behind is a permutation of the list before it |
| TaskStore.RenderReordersList | src/App.tsx:235-237 | a render swaps two tasks whose later-added one was updated first |
| TaskStore.Store.constructor | src/App.tsx:11-12 | the store starts with no tasks and no task being edited |
| TaskStore.Store.AddTask | src/App.tsx:28-36 | the new task goes in front of the unchanged list; ids stay unique and the record invariants are kept |
| TaskStore.Store.EditTask | src/App.tsx:38-51 | no task being edited changes nothing; otherwise the snapshot's task is overlaid with the draft and the edit ends |
| TaskStore.Store.DeleteTask | src/App.tsx:53-55 | the list becomes the delete of the id and loses exactly that id |
| TaskStore.Store.ToggleComplete | src/App.tsx:57-63 | the list becomes the toggle of the id; ids and invariants are kept |
| TaskStore.Store.EditClick | src/App.tsx:65-67 | the task becomes the one being edited and the list is unchanged |
| TaskStore.Store.CancelEdit | src/App.tsx:69-71 | no task is being edited and the list is unchanged |
| TaskStore.Store.Submit | src/App.tsx:151-152 | a submit edits while a task is being edited and adds otherwise, and the edit ends in both cases |
| TaskStore.Store.Render | src/App.tsx:78-124 | the render as written returns the view, the figures and Recent Activity, and leaves the list reordered as `OrderAfterRender` says |
| TaskStore.Store.RenderCopy | src/App.tsx:235-237 | the corrected render returns the same three results computed from the list as it is, and changes nothing |
| TaskForm.PriorityColor | src/components/TaskForm.tsx:64-73 | the colour is grey exactly when the priority is off the 1-5 scale |
| TaskForm.PriorityColorsDistinct | src/components/TaskForm.tsx:64-73 | different points of the scale get different colours |
| TaskForm.FormDraft | src/components/TaskForm.tsx:36-43 | the submitted draft has the trimmed title (not empty) and description, priority and category as they are, completed only when the edited task was, and a due date exactly when the date input is not empty |
| TaskForm.Form.constructor | src/components/TaskForm.tsx:14-19 | the form starts empty, priority 1, category Personal, closed |
| TaskForm.Form.Open | src/components/TaskForm.tsx:78 | the button opens the form and changes no field |
| TaskForm.Form.SetTitle | src/components/TaskForm.tsx:110 | typing sets the title only |
| TaskForm.Form.SetDescription | src/components/TaskForm.tsx:123 | typing sets the description only |
| TaskForm.Form.SelectPriority | src/components/TaskForm.tsx:137-145 | selecting one of the five options sets the priority only |
| TaskForm.Form.SelectCategory | src/components/TaskForm.tsx:157-163 | selecting a listed category sets the category only |
| TaskForm.Form.SetDueDate | src/components/TaskForm.tsx:176-177 | the date input sets the due-date text only |
| TaskForm.Form.Load | src/components/TaskForm.tsx:21-30 | with a task, its fields are copied, the due date becomes its date text or empty, and the form opens; without one nothing changes |
| TaskForm.Form.Clear | src/components/TaskForm.tsx:45-51 | every field returns to its initial value and the form closes |
| TaskForm.Form.Submission | src/components/TaskForm.tsx:34-43 | what the form as it stands submits: nothing exactly when the title trims to nothing, otherwise the `FormDraft` of its fields, which has the trimmed title and, when the selects hold their options, is valid with a listed category |
| TaskForm.Form.Submit | src/components/TaskForm.tsx:32-52 | the draft handed over is the form's `Submission` before the call; with no draft nothing changes; with a draft the form is cleared and closed; the selects keep holding their options |
| TaskForm.Form.Expanded | src/components/TaskForm.tsx:75 | definition, with no contract of its own: the fields show when the form is open or a task is being edited; the page's methods state when it holds |
| TaskForm.Form.Cancel | src/components/TaskForm.tsx:54-62 | the form is cleared and closed, and the parent is notified exactly when it passed `onCancel` |
| TodoApp.SettledAdd | src/App.tsx:28-35 | an added task has a listed category and was created now |
| TodoApp.SettledEdit | src/App.tsx:41-49 | an edit keeps listed categories and creation times no later than now |
| TodoApp.SettledToggle | src/App.tsx:57-63 | a toggle keeps categories and creation times |
| TodoApp.SettledSubmultiset | src/App.tsx:54 | tasks taken from a settled list form a settled list |
| TodoApp.App.constructor | src/App.tsx:151-155 | the page starts empty and valid, with a closed form that has an `onCancel`, and its clock at the given start time |
| TodoApp.FirstAddExample | src/components/TaskForm.tsx:32-43 | on a new page, opening the form, typing a title that is not blank and submitting stores exactly one task: not completed, with the trimmed title, priority 1, the default category, the given id and time |
| TodoApp.App.SubmitForm | src/App.tsx:151-152 | a form submit keeps the page valid; the draft is the form's `Submission` given the task being edited; no draft leaves the form and the store unchanged; a draft is valid, clears, closes and collapses the form, ends the edit, and edits the task being edited or adds a new one |
| TodoApp.App.Dispatch | src/App.tsx:152 | a draft goes to the edit or the add handler and ends the edit; no draft changes no store field; the form is untouched and the page stays valid |
| TodoApp.App.SubmitDraft | src/App.tsx:152 | the store's half of a submit keeps the page valid and ends the edit |
| TodoApp.App.Advance | src/App.tsx:151-152 | the page's clock moves to the given time, the store and the form are untouched and the page stays valid |
| TodoApp.App.BeginEdit | src/App.tsx:65-67 | an edit click keeps the page valid and makes the task the one being edited; when that changes, the form gets the task's title, description, priority, category and date text and opens; otherwise the form is untouched; the form's fields show afterwards |
| TodoApp.App.CancelForm | src/App.tsx:154 | a form cancel clears, closes and collapses the form, ends the edit and keeps the list |
| TodoApp.App.ToggleTask | src/App.tsx:57-63 | a toggle keeps the page valid, gives the toggled list and keeps the task being edited |
| TodoApp.App.DeleteTask | src/App.tsx:53-55 | a delete keeps the page valid, gives the filtered list and keeps the task being edited, even when it is the deleted one |
| TodoApp.App.RenderInPlace | src/App.tsx:235-237 | a render as written returns the view, the figures and Recent Activity, leaves the list reordered as `OrderAfterRender` says, keeps the task being edited and keeps the page valid |
| TodoApp.App.Render | src/App.tsx:78-124 | the corrected render returns the view, the figures and Recent Activity of the store's list and changes nothing |

## Findings

| source | as written | input that shows it | evidently intended | confidence | as-written member | corrected member |
|---|---|---|---|---|---|---|
| src/App.tsx:235-237 | Recent Activity calls `tasks.sort(...)` on the state array itself. When the search term is empty and the filter is All, the display sort at :104 does the same, because `filtered` is `tasks` (:79). Every render therefore reorders the store's list in place, without `setTasks`. | two tasks `[a, b]` as added, with `a.updatedAt < b.updatedAt`; any render with a non-empty search term leaves the state list `[b, a]` | sort a copy for display (`[...tasks].sort`) and leave the state list in insertion order, newest first | medium, not executed | TaskStore.Store.Render, TodoApp.App.RenderInPlace, TaskStore.RenderReordersList | TaskStore.Store.RenderCopy, TodoApp.App.Render |

The as-written render keeps the record invariants
(`TaskStore.PermutationKeepsWellFormed`): it changes only order. At page level,
`TodoApp.App.RenderInPlace` is the render as written and keeps the page invariant;
`TodoApp.App.Render` is the corrected render.

## Left out

- Persistence is left out: loadTasks, saveTasks, exportTasks, handleExport, and the two effects that load and save the list. The storage module is not part of this model, and it only does I/O.
- The `useMemo` cache is left out. Every render recomputes the view. With the in-place sorts of the finding above, the source can hand back a cached array that has since been reordered; the model does not capture that.
- React's scheduling is not modelled: state updaters queued in one event, batching, and re-rendering. Each handler takes effect at once.
- Text.Lower: lower-cases ASCII letters only, because `toLowerCase` follows the full Unicode case mapping, which is not modelled. Matching of non-ASCII capitals may differ.
- Text.CompareStrings: orders by code point, standing in for `localeCompare`, whose ordering depends on the locale's collation and is not modelled.
- Strings are sequences of Unicode scalar values, not of UTF-16 code units. This affects only strings with characters outside the Basic Multilingual Plane or with unpaired surrogates, which a JavaScript string, and an input's value, can hold and a sequence of scalar values cannot.
- TaskView.Compare: dates and times are integers, so an invalid `Date` (NaN time) is not modelled. Neither is a non-integer priority.
- TaskStore.NewTask: gives a new task one time for both `createdAt` and `updatedAt`. The add handler calls `new Date()` twice, so in the source the two can differ by a clock tick; the model does not capture that.
- Time never goes backwards in the model: every handler's `now` is required to be no earlier than the latest time seen (`clock <= now` in `TodoApp.App`, `NotAfter` in `TaskStore`). The record invariant `createdAt <= updatedAt` relies on that. `new Date()` reads the wall clock, which can be set back, and the model does not capture a clock that moves backwards.
- TaskStore.Store.AddTask: requires the new id to be unused. This models `crypto.randomUUID` as always fresh; a collision is not modelled.
- TaskForm.Form.Load: the date text comes from the parameter `formatDate`, standing in for taking the date part of `toISOString`. Time zones and date formatting are not modelled.
- TaskForm.Form.Submit: the due date comes from the parameter `parseDate`, standing in for `new Date(text)`.
- TodoApp.App.BeginEdit: its editing task is compared by value. The form's effect runs when the `editingTask` reference changes. The two differ only if an equal copy of the task being edited is clicked again.
- The browser's `required` check on the title input is left out. Only the handler's own blank check is modelled, and it covers the empty title as well.
- JSX rendering, TaskItem, TaskFilters and ProgressBar are left out: they present data and hold no core logic.
- Priority is documented as a 1-5 scale; the task type does not enforce it. The model keeps `priority` an integer and states the scale as `TaskModel.ValidTask`, which the page invariant maintains.
