# TaskManager of nightly-build, modelled in Dafny

nightly-build is a small single-user task tracker with a heartbeat-driven
"anti-slacking" monitor. Its core is the `TaskManager` class in
`src/TaskManager.js`. The class keeps a list of tasks and an append-only
activity log, and offers:

- three operations that change state: `addTask`, `completeTask` and
  `recordHeartbeat`. Each of them appends to the log through `logActivity`.
- five queries: `getPendingTasks`, `getCompletedTasks`,
  `getNextTaskForHeartbeat`, `checkAntiSlacking` and
  `generateMorningReport`.

The model follows the class's own shape:

- `Manager.TaskManager` (manager.dfy) is a Dafny class. Its fields are
  `tasks: seq<Task>`, `log: seq<LogEntry>` and the anti-slacking
  configuration. The three mutators are methods with `modifies this`. Each
  states the whole new state and what it keeps: the repository invariant
  `WellFormed` and how the pending list changes. The queries are `reads this`
  functions that delegate to the pure functions below.
- A task is a value (`Tasks.Task`). The in-place field assignments of
  `completeTask` and `recordHeartbeat` become a sequence update
  `tasks[i := ...]` of the first task carrying the id.
- The file-backed task list and log are the two sequences. `saveTasks`
  therefore has no separate effect, `logActivity` appends, and `loadLogs`
  reads `log`.
- Pure queries:
  - tasks.dfy: the task record, the log entries, lookup and the pending and
    completed filters.
  - selector.dfy: the comparator and the stable sort of
    `getNextTaskForHeartbeat`.
  - monitor.dfy: `checkAntiSlacking`.
  - report.dfy: `generateMorningReport`.
- util.dfy holds the parts of JavaScript the core relies on:
  - `Array.prototype.filter` as `Filter`;
  - the index-set count `Matching` that counts are proved against;
  - `||` on strings as `OrElse` and `NonEmpty`;
  - decimal rendering of the idle count in the warning message.
- usage.dfy holds client methods. They replay the repository's test scenarios
  against the class's contracts.

Inputs and outputs:

- The clock is a parameter `now` (integer milliseconds since the epoch). Every
  timestamp is such an integer.
- The generated id is a parameter of `AddTask`.
- The anti-slacking configuration is a constructor argument.

Where the code differs from its stated intent, the model follows the code:

- **Idle count.** The monitor counts every idle heartbeat in the last 24
  hours, not consecutive ones. An intervening active heartbeat does not reset
  the count.
- **Re-completion.** Completing an already completed task is not an error. It
  overwrites `completedAt` and the notes, so the status is never reopened.
  `CompleteTask` states both cases.
- **Not-found error.** An unknown id raises a plain error whose message is
  `Task <id> not found`. This is `Failure("Task " + taskId + " not found")`,
  and the state is unchanged.
- **Heartbeat truthiness.** `recordHeartbeat` keeps the task id and the
  description only when they are truthy. An empty id is logged as null, and an
  empty description as `no_activity`.
- **`heartbeat_check_completed`.** This is not a log action. It is the
  activity text of an ordinary heartbeat, recorded by heartbeat-check.js.
- **`since` in `getCompletedTasks`.** A falsy `since` applies no time filter.
  `CompletedTasks` takes `Option<int>`: `Some(s)` stands for a truthy `since`,
  which every caller passes as a Date, and `None` for an absent or falsy one.
  A falsy number such as `0` is not modelled as a `since`: `Some(0)` filters.
  A stored `completedAt` of null compares as the epoch, because
  `new Date(null)` is time 0.
- **Invariants.** Unique ids, and `completedAt` set exactly when completed,
  are not enforced on the loaded task file. The model proves that each
  operation preserves `WellFormed`. Addition preserves it only when the new
  id is fresh.
- **Window edges.** The monitor's 24-hour window is open at its start
  (`now - timestamp < 24h`). The report's window is closed (`timestamp >=
  now - 24h`). `Report.WindowBoundary` exhibits the difference.

## Model

| member | source | states |
|---|---|---|
| Util.Filter | src/TaskManager.js:73 | the filtered list is no longer than the input and holds exactly the input's elements that satisfy the predicate |
| Util.FilterCount | src/TaskManager.js:164 | the length of a filtered list is the number of positions whose element satisfies the predicate |
| Util.FilterConcat | src/TaskManager.js:73 | filtering distributes over concatenation, so list order is kept |
| Util.FilterFilter | src/TaskManager.js:77-80 | filtering twice is filtering once by the conjunction |
| Util.OrElse | src/TaskManager.js:54 | `s \|\| fallback` on strings: a non-empty given string wins, otherwise the fallback |
| Util.NonEmpty | src/TaskManager.js:116 | `s \|\| null`: present exactly when the string is given and non-empty, and then unchanged |
| Util.NatToString | src/TaskManager.js:146 | the decimal text of a count is non-empty, all digits, and without a leading zero |
| Util.NatToStringRoundTrip | src/TaskManager.js:146 | reading the decimal text back gives the count |
| Tasks.Rank | src/TaskManager.js:102 | the priority map gives high 3, medium 2, low 1 |
| Tasks.HeartbeatEntry | src/TaskManager.js:113-118 | the heartbeat entry is stamped `now`; its activity is `no_activity` exactly when the description, with a missing or empty one replaced by `no_activity`, is `no_activity`; it names a task exactly when a non-empty task id was given, and then that id; a non-empty description is recorded as the activity |
| Tasks.NewTask | src/TaskManager.js:51-61 | the record carries the given id, title and creation time, is pending with no completion and no heartbeats, is consistent, and takes the given priority, non-empty description and tags or the defaults medium, `''` and `[]` |
| Tasks.MarkCompleted | src/TaskManager.js:89-91 | the record becomes completed at `now` with the notes, is consistent, and every other field is unchanged |
| Tasks.CountHeartbeat | src/TaskManager.js:124 | the heartbeat counter rises by one and every other field is unchanged |
| Tasks.FindTask | src/TaskManager.js:85 | `find` by id: absent exactly when no task carries the id; otherwise the first position that carries it |
| Tasks.FindTaskUnique | src/TaskManager.js:85 | with unique ids, the lookup finds the one task carrying the id |
| Tasks.PendingTasks | src/TaskManager.js:72-74 | getPendingTasks holds exactly the pending tasks, one per pending position |
| Tasks.CompletedTasks | src/TaskManager.js:76-82 | getCompletedTasks holds exactly the completed tasks, and with a `since` only those completed at or after it |
| Tasks.CompletedTasksCount | src/TaskManager.js:76-82 | with a `since`, the result has one element per position completed at or after it |
| Tasks.AddPreservesWellFormed | src/TaskManager.js:50-66 | the new task is pending, never completed and unvisited, with the defaults medium, `''` and `[]`; appending it with a fresh id keeps ids unique and records consistent |
| Tasks.CompletePreservesWellFormed | src/TaskManager.js:84-95 | completing keeps ids unique and records consistent, and no completed task becomes pending |
| Tasks.HeartbeatPreservesWellFormed | src/TaskManager.js:121-127 | counting a heartbeat keeps ids unique and records consistent |
| Tasks.PendingAfterAdd | src/TaskManager.js:62 | a new pending task appears at the end of the pending list |
| Tasks.PendingAfterComplete | src/TaskManager.js:84-95 | completing a pending task shortens the pending list by one; re-completing a completed one leaves it as it is |
| Tasks.PendingAfterHeartbeat | src/TaskManager.js:121-127 | counting a heartbeat leaves the number of pending tasks unchanged |
| Selector.Compare | src/TaskManager.js:103-107 | negative exactly when the first task has the higher rank, or the same rank and an earlier creation; zero exactly when priority and creation time agree |
| Selector.CompareAntisymmetric | src/TaskManager.js:103-107 | the comparator is antisymmetric |
| Selector.NoLaterTransitive | src/TaskManager.js:103-107 | the order the comparator defines is transitive |
| Selector.Insert | src/TaskManager.js:103-107 | inserting adds exactly the one element and puts it or the old head first |
| Selector.SortByPriorityAge | src/TaskManager.js:103-107 | the sort returns a permutation of its input |
| Selector.InsertSorted | src/TaskManager.js:103-107 | inserting into a sorted list keeps it sorted |
| Selector.SortSorted | src/TaskManager.js:103-107 | the sort's result is sorted by the comparator and is a permutation of its input |
| Selector.ChoiceUnique | src/TaskManager.js:103-109 | at most one position is the one a stable sort puts first |
| Selector.SortHeadIsChoice | src/TaskManager.js:103-109 | the head of the sort is the element at that position: strictly ahead of every earlier element and no later than every later one |
| Selector.NextTaskForHeartbeat | src/TaskManager.js:97-110 | getNextTaskForHeartbeat is null exactly when no task is pending, and otherwise a pending task of the list |
| Selector.NextTaskIsHighestOldest | src/TaskManager.js:97-110 | the selected task has the highest rank among pending tasks, the oldest creation among that rank, and the first list position among full ties |
| Monitor.IdleHeartbeats | src/TaskManager.js:136-141 | the idle heartbeats are exactly the log's heartbeats younger than a day whose activity is `no_activity` |
| Monitor.SlackingMessage | src/TaskManager.js:146 | the warning is the fixed prefix, then the canonical decimal text of the idle count (`Util.NatToString`, which reads back as the count), then the fixed suffix |
| Monitor.IdleHeartbeatsCount | src/TaskManager.js:136-143 | the two filters count the positions holding heartbeats younger than a day with activity `no_activity` |
| Monitor.CheckAntiSlacking | src/TaskManager.js:132-152 | disabled: `{ slacking: false }` alone; enabled: the idle count is the number of recent idle heartbeats, slacking holds exactly when it reaches the maximum, and the warning message is present exactly when slacking and names the count |
| Monitor.IdleAfterAppend | src/TaskManager.js:136-143 | appending one entry raises the idle count by one exactly when it is a recent idle heartbeat |
| Monitor.IdleHeartbeatCounts | src/TaskManager.js:112-152 | a heartbeat recorded with no activity at `now` raises the idle count seen at `now` by one |
| Monitor.IdleBeatsCount | src/TaskManager.js:136-143 | `n` idle heartbeats at `now` raise the idle count by `n` |
| Monitor.SlackingThreshold | src/TaskManager.js:145 | from a log without recent idle heartbeats, `n` idle heartbeats raise the alarm exactly when `n` reaches the maximum |
| Report.HeartbeatsInWindowCount | src/TaskManager.js:162-164 | the report's two filters count heartbeats stamped at or after the window start |
| Report.AgeHours | src/TaskManager.js:182 | the age is the whole number of hours elapsed, rounded down |
| Report.PendingItemOf | src/TaskManager.js:179-183 | the entry carries the task's title and priority and its age in whole hours as `Report.AgeHours` gives it |
| Report.RecommendedTitle | src/TaskManager.js:185 | `next?.title \|\| null`: a title exactly when a task is given and its title is non-empty, and then that title |
| Report.GenerateMorningReport | src/TaskManager.js:154-186 | the counts of completed-in-window tasks, pending tasks and heartbeats in the window; at most five listed pending tasks; slackingDetected from the monitor; a warning exactly when slacking, holding its message; the recommended title exactly when the selector returns a task with a non-empty title |
| Report.ReportLists | src/TaskManager.js:174-183 | the completed list mirrors the completed tasks in the window (title, `completedAt` and notes, built by `Report.CompletedItemOf`), and the pending list holds the first pending tasks in list order, not in priority order |
| Report.ReportHeartbeatsCoverIdle | src/TaskManager.js:136-143 | the report never counts fewer heartbeats than the enabled monitor counts idle ones |
| Report.WindowBoundary | src/TaskManager.js:138 | an idle heartbeat and a completion exactly 24 hours old are counted by the report, whose tests at lines 79 and 163 are closed, but the heartbeat is not counted by the monitor, whose test at line 138 is strict |
| Manager.TaskManager.constructor | src/TaskManager.js:13-18 | the manager starts from the loaded tasks and log |
| Manager.TaskManager.LogActivity | src/TaskManager.js:41-48 | one entry is appended to the log and the tasks are unchanged |
| Manager.TaskManager.AddTask | src/TaskManager.js:50-66 | the built task is appended, one `task_created` entry with its id and title is logged, the pending list gains it at the end, and with a fresh id the invariant is kept |
| Manager.TaskManager.CompleteTask | src/TaskManager.js:84-95 | unknown id: the not-found error and no change; known id: the first task with it is marked completed at `now` with the notes, the others are unchanged, one `task_completed` entry is logged, the pending count drops by one or stays for a re-completion, and the invariant is kept |
| Manager.TaskManager.RecordHeartbeat | src/TaskManager.js:112-130 | one heartbeat entry is logged and returned; a non-empty id naming a task raises that task's counter and changes nothing else; otherwise the tasks are unchanged; the pending count and the invariant are kept |
| Manager.TaskManager.GetPendingTasks | src/TaskManager.js:72-74 | the current pending tasks, exactly, one per pending position |
| Manager.TaskManager.GetCompletedTasks | src/TaskManager.js:76-82 | exactly the current completed tasks, and with a `since` only those completed at or after it |
| Manager.TaskManager.GetNextTaskForHeartbeat | src/TaskManager.js:97-110 | null exactly when no current task is pending; otherwise a pending task of the list of highest rank, the oldest among that rank, and the position a stable sort puts first |
| Manager.TaskManager.CheckAntiSlacking | src/TaskManager.js:132-152 | disabled: not slacking and no count; enabled: the count of recent idle heartbeats in the log, and slacking exactly when it reaches the maximum |
| Manager.TaskManager.GenerateMorningReport | src/TaskManager.js:154-186 | the report's pending and completed counts are the lengths of the class's own queries, its slacking flag is the monitor's, and its recommendation is the selector's title |
| Usage.PendingAfterFirstCompleted | test-manual.js:131-134 | after the first of two tasks is completed, only the second is pending |
| Usage.IdleEntry | src/TaskManager.test.js:75 | the heartbeat for `{ taskId: null, description: 'no_activity' }` is an idle heartbeat naming no task |
| Usage.ReportOfOneEach | src/TaskManager.test.js:82-91 | a pending task and a task completed at `now` give a report with one completed and one pending task |
| Usage.NamedHeartbeat | test-manual.js:162 | a heartbeat with a non-empty task id names that task |

## Left out

- File I/O and JSON are not modelled: reading and writing the task file, appending to the log file, `JSON.parse`/`stringify`, and the module-level directory creation. The two files are the two sequences of the class.
- `saveTasks` and `loadTasks` are not modelled, so there is no serialisation round trip. `loadLogs` is reading `log`.
- Configuration loading (`require('../config.json')`) and the storage paths are not modelled. The anti-slacking section is a constructor argument.
- The wall clock and ISO-8601 strings are replaced by integer milliseconds passed as `now`.
- Every clock read within one operation is treated as the single instant `now`: `addTask` and `completeTask` read the clock for the record and again in `logActivity` (src/TaskManager.js:43, 57, 90), `checkAntiSlacking` reads it once per log entry (line 137), and the report reads it several times.
- The report's `date` field is left out.
- The `'h'` suffix of a pending task's age is left out, and the age is kept as an integer number of hours.
- `generateId` (a timestamp plus a random suffix) is not modelled; the id is a parameter of `AddTask`. The code does not guarantee a fresh id, so freshness is a hypothesis of `Tasks.AddPreservesWellFormed`, not a requirement of `AddTask`.
- Manager.TaskManager.AddTask: the invariant-keeping clause holds only under the fresh-id hypothesis, for the reason above.
- Priority strings outside high, medium and low are not modelled. The code does not reject them, and they make the comparator return `NaN`. `Priority` has exactly three values.
- Non-string task ids, invalid dates, and log lines with other fields are not modelled. `LogEntry` holds exactly the three kinds this class writes.
- Loaded data is not validated. `WellFormed` is therefore a hypothesis on the stored tasks, not a property of the constructor.
- Aliasing is not captured. `addTask` returns the object it pushed (src/TaskManager.js:62-65) and `completeTask` returns the stored object it changed (src/TaskManager.js:85-94), so a caller holding either sees later in-place changes. test-manual.js:160-163 relies on this: the task `addTask` returned shows the counter raised by a later `recordHeartbeat`. In the model tasks are values, and a returned task equals the stored one only at the moment of return. `Usage.HeartbeatCycles` therefore checks the counter on `m.tasks`, not on the task `AddTask` returned.
- The `this.logs` field filled by the constructor is never read, and is left out.
- The sort used by `getNextTaskForHeartbeat` sorts a fresh copy returned by `filter`. The model's query is a function, so the stored list cannot change.
- Selector.SortByPriorityAge is modelled as a stable insertion sort. The array sort of the JavaScript engine is not modelled, only its stability and its comparator.
- Tasks.PendingTasks: list order is stated through `Util.FilterConcat`, `Tasks.PendingAfterAdd` and `Report.ReportLists`, not as a subsequence property of its own.
- cli.js, heartbeat-check.js and test-manual.js are not part of this model. test-manual.js has its own divergent `TestTaskManager`; usage.dfy uses only its asserts that agree with `src/TaskManager.js`.
