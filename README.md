# task-calendar, modelled in Dafny

A model of task-calendar: a MongoDB collection `tasks` whose documents
carry a name, a description, a due date (`fecha_hora`), an assignee, a status
(`estado`: `pendiente`, `completada`, `imposible`, `extension_solicitada`),
creation and last-update stamps, an append-only list of comments, an optional
extension request and an optional impossibility reason. `utils.py` creates,
updates, deletes and queries those documents; `pages/dashboard.py` shows them
on a month calendar.

Files:

- `wrappers.dfy` — `Option`.
- `calendar.dfy` — Python's naive `date`/`time`/`datetime`: validity,
  lexicographic order, the proleptic Gregorian day ordinal, `+ timedelta(days=1)`,
  the month / day / whole-day windows the queries build, and `timedelta`
  differences in microseconds.
- `stamp.dfy` — `strftime('%Y-%m-%d %H:%M')` and its inverse.
- `tasks.dfy` — a task document, its status values, the status coupling.
- `lifecycle.dfy` — every `update_one`/`delete_one` as a pure function `Apply`
  on the table of documents, `Run` for any sequence of them, and the
  invariants every sequence keeps.
- `store.dfy` — class `TaskStore`: the collection held in place (documents by
  id plus the natural order), one method per mutation of `utils.py`. Each
  update and delete is proved equal to `Lifecycle.Apply` of the old table;
  the insert is specified on its own, with the id counter.
- `queries.dfy` — the four `find` queries over the documents in natural order,
  sorted by `fecha_hora` where the source sorts.
- `dashboard.dfy` — the status symbol, the grouping of the month's assignees
  by day, the three-hour alert, the administrator gate and the default day.

Each `datetime.now()` call is a separate parameter. Ids are natural numbers
from a counter that only grows, so a deleted id is never handed out again. A `datetime` the source cannot construct
(`ValueError`, `OverflowError`) makes a query return `None`. A `Date` or `Time`
argument is required to be valid, as every Python `date`/`time` object is.

The code keeps the coupling between `estado` and the side fields one way
only: a task in `extension_solicitada` carries a request and a task in
`imposible` carries a reason, but not conversely. `mark_as_completed` keeps a
pending extension request, and denying an impossibility report keeps one too.
`Tasks.Coupled` states the one-way coupling, and
`Lifecycle.CompletingKeepsExtensionRequest` and
`Lifecycle.ImpossibilityDenialKeepsExtensionRequest` show the converse failing.

## Model

| member | source | states |
|---|---|---|
| `Tasks.NewTask` | utils.py:30-40 | the inserted document is pending and due at `combine(date, time)`, with no comments, no extension request and no reason, so it is coupled, and its due date is valid whenever the date and time are |
| `Store.TaskStore.constructor` | utils.py:24-43 | an empty collection satisfies the store invariant |
| `Store.TaskStore.Documents` | utils.py:56-62 | an unsorted `find` yields each stored document exactly once, in natural order, with its `_id` |
| `Store.TaskStore.AddTask` | utils.py:24-43 | inserts under the counter's next id, advancing the counter, a pending task due at `combine(date, time)`, with no comments, no extension request and no impossibility reason; every other document unchanged; the coupling kept |
| `Store.TaskStore.AddComment` | utils.py:81-97 | appends exactly one comment and re-stamps `ultima_actualizacion`; nothing else changes; an unknown id changes nothing |
| `Store.TaskStore.MarkAsCompleted` | utils.py:99-112 | sets `completada` whatever the status was, leaving the extension request and reason in place; coupling kept |
| `Store.TaskStore.RequestExtension` | utils.py:114-134 | sets `extension_solicitada` with a pending request carrying the reason; coupling kept |
| `Store.TaskStore.MarkAsImpossible` | utils.py:136-150 | sets `imposible` and records the reason; coupling kept |
| `Store.TaskStore.ApproveExtension` | utils.py:168-200 | answers whether the id exists; if so reschedules, returns to pending, drops the request and logs one approval comment citing the new date |
| `Store.TaskStore.DenyExtension` | utils.py:202-224 | answers whether the id exists; if so returns to pending, drops the request and logs the reason |
| `Store.TaskStore.HandleImpossibleTask` | utils.py:226-275 | always answers true; accept with both texts non-empty edits and clears the reason; accept otherwise deletes; deny clears the reason and logs it; any other action, and any unknown id, changes nothing; the natural order changes only on deletion; the id counter never changes |
| `Store.TaskStore.UpdateTask` | utils.py:303-332 | answers whether the id exists; overwrites the five fields and logs one comment; keeps the coupling only for `pendiente`/`completada` |
| `Store.TaskStore.DeleteTask` | utils.py:334-342 | answers whether the id existed; afterwards it is in no document list and the natural order of the rest is kept as a subsequence; an unknown id changes nothing |
| `Store.DeleteTwice` | utils.py:334-342 | deleting the same task twice answers true then false |
| `Store.DeleteThenAdd` | utils.py:24-43 | after `delete_task`, `add_task` hands out an id different from the deleted one |
| `Store.Without` | utils.py:341 | removing an id from the natural order keeps exactly the other ids, in their order and distinct; an id not listed leaves the order as it was |
| `Lifecycle.Apply` | utils.py:91-97 | an `update_one`/`delete_one` with filter `{"_id": id}` touches only that document, never adds one, and removes an existing one exactly when the call is a delete |
| `Lifecycle.Transition` | utils.py:99-332 | a call's `$set`/`$push` keeps the creation stamp, appends at most one comment, keeps the due date valid, and keeps the coupling for every call except `update_task` to a status other than `pendiente`/`completada` |
| `Lifecycle.ApplyAppendsComments` | utils.py:191-197 | a surviving document keeps its comments as a prefix, gains at most one, and keeps its creation stamp |
| `Lifecycle.ApplyKeepsCoupling` | utils.py:125-134 | every mutation, with `update_task` limited to `pendiente`/`completada`, keeps "extension status implies a request, impossible implies a reason" |
| `Lifecycle.ApplyKeepsWellFormed` | utils.py:179-186 | every stored due date stays a valid datetime |
| `Lifecycle.RunKeepsCoupling` | utils.py:99-342 | any sequence of such mutations keeps the coupling |
| `Lifecycle.RunAppendsComments` | utils.py:81-97 | over any sequence, comments are append-only, at most one per call |
| `Lifecycle.RunNeverAddsIds` | utils.py:254 | no sequence of update and delete calls brings a deleted id back |
| `Lifecycle.CompletingKeepsExtensionRequest` | utils.py:99-112 | requesting an extension then completing leaves a completed task that still carries the pending request |
| `Lifecycle.AdminEditCanBreakCoupling` | utils.py:303-332 | `update_task` to `imposible` on a task without a reason breaks the coupling |
| `Lifecycle.ImpossibilityDenialKeepsExtensionRequest` | utils.py:256-273 | denying an impossibility report returns to pending but keeps any extension request |
| `Lifecycle.RequestThenDeny` | utils.py:202-224 | request then deny: pending, no request, exactly one more comment, ending with the denial reason |
| `Lifecycle.ImpossibleThenAcceptDeletes` | utils.py:252-254 | mark impossible then accept without new texts: the document is gone |
| `Lifecycle.ApprovalCitesNewDate` | utils.py:193 | the approval comment is the fixed prefix followed by the new due date, readable back to the minute |
| `Stamp.Format` | utils.py:193 | `%Y-%m-%d %H:%M` is 16 characters: digits, with `-`, `-`, a space and `:` at positions 4, 7, 10 and 13 |
| `Stamp.FormatRoundTrip` | utils.py:193 | `%Y-%m-%d %H:%M` parses back to the date, hour and minute |
| `Stamp.PadRoundTrip` | utils.py:193 | a zero-padded field parses back to its number |
| `Stamp.ParseNat` | utils.py:193 | a string parses iff all its characters are digits |
| `Calendar.MonthBounds` | utils.py:50-54 | the month window exists iff Python can construct both bounds (December of 9999 is out of range) |
| `Calendar.MonthWindow` | utils.py:56-61 | `[first of month, first of next month)` holds exactly the datetimes of that month |
| `Calendar.NextDay` | utils.py:70 | `+ timedelta(days=1)` is a calendar date strictly later than the given one |
| `Calendar.NextDayOrdinal` | utils.py:70 | `+ timedelta(days=1)` is the next day ordinal |
| `Calendar.NextDayIsSuccessor` | utils.py:70 | the next day is later, with no date strictly between |
| `Calendar.DayWindow` | utils.py:69-77 | `[day 00:00, next day 00:00)` holds exactly the datetimes of that day |
| `Calendar.WholeDayWindow` | utils.py:293-297 | `[combine(start, min time), combine(end, max time)]` holds exactly the datetimes dated from start to end |
| `Calendar.OrdinalMonotone` | utils.py:70 | the day ordinal follows the calendar order and is one-to-one |
| `Calendar.Micros` | pages/dashboard.py:150 | a datetime's microsecond count lies within its own day's span of `86 400 000 000` microseconds |
| `Calendar.MicrosOrder` | pages/dashboard.py:150 | comparing datetimes is comparing their microsecond counts, so the `timedelta` sign is the order |
| `Queries.Select` | utils.py:56-62 | a `find` filter keeps each matching document as often as it occurs and nothing else, as a subsequence of the natural order |
| `Queries.Insert` | utils.py:164 | inserting into a sorted list keeps it sorted and adds exactly one element |
| `Queries.SortByFechaHora` | utils.py:164 | `.sort("fecha_hora", 1)` yields an ascending permutation |
| `Queries.MonthTasks` | utils.py:45-62 | the month query is defined iff the year and month are constructible |
| `Queries.MonthTasksExact` | utils.py:45-62 | the month query returns exactly those tasks due in that calendar month |
| `Queries.DayTasks` | utils.py:64-79 | the day query is defined iff the date and its successor are constructible, and is sorted |
| `Queries.DayTasksExact` | utils.py:64-79 | the day query returns exactly those tasks due on that date |
| `Queries.PendingAdminTasks` | utils.py:153-166 | sorted, and exactly those tasks in `extension_solicitada` or `imposible` |
| `Queries.FilteredTasks` | utils.py:277-301 | sorted, and exactly those tasks passing each non-empty filter, the range applying only when both bounds are given |
| `Queries.FilteredTasksExact` | utils.py:277-301 | the range keeps exactly those tasks whose due date lies between the two dates, both included |
| `Dashboard.StatusSymbol` | pages/dashboard.py:7-18 | the result is one of the four status symbols, or white exactly for a non-string or a string whose lowercase form is no status |
| `Dashboard.StatusSymbolMeaning` | pages/dashboard.py:7-18 | each coloured symbol stands for exactly one status compared case-insensitively |
| `Dashboard.UpperCaseStatus` | pages/dashboard.py:18 | `COMPLETADA` and `Extension_Solicitada` get the green and orange symbols |
| `Dashboard.NoNamesOffDay` | pages/dashboard.py:63-71 | a day no task is dated on has no assignees |
| `Dashboard.GroupByDay` | pages/dashboard.py:63-71 | a key for every day some task is dated on, holding that day's assignees in query order; items without a date skipped |
| `Dashboard.LowTimeAlert` | pages/dashboard.py:150-152 | the alert fires iff the task is not yet due and due within three hours, so never for a task due now or overdue |
| `Dashboard.AlertMeansDueSoon` | pages/dashboard.py:150-152 | the alert fires only for a task due today or tomorrow |
| `Dashboard.PressAdminButton` | pages/dashboard.py:126-136 | without a login (the check at lines 22-26) the page shows the login prompt; they switch page, to the page asked for, iff the session is logged in as `rossy` |
| `Dashboard.DefaultDay` | pages/dashboard.py:113 | the default day is a valid date of the chosen month: today's day where it exists, else the month's last day |

## Left out

- Lifecycle.RunNeverAddsIds: covers update and delete calls only, since `Lifecycle.Op` has no insert; for `add_task` the same fact is `Store.TaskStore.AddTask`'s counter clause and `Store.DeleteThenAdd`.
- `connect_to_mongo`, `login` and the TOML secrets: I/O and credentials outside the scheduling logic.
- The Streamlit widgets, reruns and `st.stop()`: the model keeps only the values the page computes.
- `ObjectId(task_id)` parsing and its `InvalidId` error: ids are opaque numbers in the model.
- Concurrency: each call is atomic, and the read-then-write in `approve_extension` cannot interleave with another call.
- BSON stores datetimes to the millisecond; the model keeps microseconds.
- Queries.SortByFechaHora: MongoDB does not fix the order of documents with equal `fecha_hora`; the model's stable insertion sort is one admissible order.
- The order of assignees inside a calendar cell (the page joins a `set`) and `strftime('%A')` are display details.
- Stamp.Format: `%Y` is not zero-padded for years below 1000 on every platform; the model pads to four digits.
- Dashboard.Lower: only A–Z are lowered. No other character lowers into one of the four status keys, so the symbol is the same.
- `ultima_actualizacion` being no earlier than `fecha_creacion` is not modelled: the stamps come from independent clock reads.
- A missing `razon_imposible` field and a `None` one are both `None`.
- Dashboard.GroupByDay: a document lacking `fecha_hora` or `asignado_a` is an item with `None` there; a present key whose value is `None` is not distinguished.
- The year selector's 2000–2100 range is not imposed; the model accepts any year Python accepts.
