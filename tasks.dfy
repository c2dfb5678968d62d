/** The task record, the activity log entry, and the repository's pure queries
    and record updates (src/TaskManager.js). */
module Tasks {
  import opened Util

  datatype Priority = High | Medium | Low

  /** The rank the selector compares: `{ high: 3, medium: 2, low: 1 }`. */
  function Rank(p: Priority): (r: int)
    ensures 1 <= r <= 3
    ensures r == 3 <==> p == High
    ensures r == 1 <==> p == Low
  {
    match p
    case High => 3
    case Medium => 2
    case Low => 1
  }

  datatype Status = Pending | Completed

  /** One stored task. Timestamps are milliseconds since the epoch; an absent
      `completedAt` is JSON null, an absent `completionNotes` a field that was
      never set. */
  datatype Task = Task(
    id: string,
    title: string,
    description: string,
    priority: Priority,
    status: Status,
    createdAt: int,
    completedAt: Option<int>,
    completionNotes: Option<string>,
    heartbeatCycles: nat,
    tags: seq<string>)

  /** The option bag of `addTask`; an absent field takes its default. */
  datatype TaskOptions = TaskOptions(
    priority: Option<Priority>,
    description: Option<string>,
    tags: Option<seq<string>>)

  /** The option bag of `recordHeartbeat`. */
  datatype Activity = Activity(taskId: Option<string>, description: Option<string>)

  /** One line of the activity log. */
  datatype LogEntry =
    | TaskCreated(timestamp: int, taskId: string, title: string)
    | TaskCompleted(timestamp: int, taskId: string, title: string, notes: string)
    | Heartbeat(timestamp: int, taskWorkedOn: Option<string>, activity: string)

  /** The activity recorded by a heartbeat that reports none. */
  const NoActivity: string := "no_activity"

  // Record construction and the in-place updates of completeTask and recordHeartbeat.

  /** The record `addTask` stores: pending, never completed, no heartbeats yet,
      and the defaults `medium`, `''` and `[]` for absent options. */
  function NewTask(id: string, title: string, options: TaskOptions, now: int): (t: Task)
    ensures t.id == id && t.title == title && t.createdAt == now
    ensures t.status == Pending && t.completedAt.None? && t.completionNotes.None? && t.heartbeatCycles == 0
    ensures Consistent(t)
    ensures t.priority == if options.priority.Some? then options.priority.value else Medium
    ensures t.description == if options.description.Some? && options.description.value != "" then options.description.value else ""
    ensures t.tags == if options.tags.Some? then options.tags.value else []
  {
    Task(id, title, OrElse(options.description, ""), options.priority.GetOr(Medium),
         Pending, now, None, None, 0, options.tags.GetOr([]))
  }

  /** The fields `completeTask` overwrites on the record it finds. */
  function MarkCompleted(t: Task, now: int, notes: string): (r: Task)
    ensures r.status == Completed && r.completedAt == Some(now) && r.completionNotes == Some(notes)
    ensures Consistent(r)
    ensures r.(status := t.status, completedAt := t.completedAt, completionNotes := t.completionNotes) == t
  {
    t.(status := Completed, completedAt := Some(now), completionNotes := Some(notes))
  }

  /** The field `recordHeartbeat` increments on the record it finds. */
  function CountHeartbeat(t: Task): (r: Task)
    ensures r.heartbeatCycles == t.heartbeatCycles + 1
    ensures r.(heartbeatCycles := t.heartbeatCycles) == t
  {
    t.(heartbeatCycles := t.heartbeatCycles + 1)
  }

  /** The heartbeat entry for an optional activity bag: the task id and the
      description are kept only when non-empty. */
  function HeartbeatEntry(activity: Option<Activity>, now: int): (e: LogEntry)
    ensures e.Heartbeat? && e.timestamp == now
    ensures e.activity == NoActivity <==>
            activity.None? || OrElse(activity.value.description, NoActivity) == NoActivity
    ensures e.taskWorkedOn.Some? <==>
            activity.Some? && activity.value.taskId.Some? && activity.value.taskId.value != ""
    ensures e.taskWorkedOn.Some? ==> e.taskWorkedOn == activity.value.taskId
    ensures activity.Some? && activity.value.description.Some? && activity.value.description.value != "" ==>
              e.activity == activity.value.description.value
  {
    match activity
    case None => Heartbeat(now, None, NoActivity)
    case Some(a) => Heartbeat(now, NonEmpty(a.taskId), OrElse(a.description, NoActivity))
  }

  /** The position of the first task whose id is `id` (Array.prototype.find). */
  function FindTask(tasks: seq<Task>, id: string): (r: Option<nat>)
    ensures r.None? <==> forall k :: 0 <= k < |tasks| ==> tasks[k].id != id
    ensures r.Some? ==> r.value < |tasks| && tasks[r.value].id == id
    ensures r.Some? ==> forall k :: 0 <= k < r.value ==> tasks[k].id != id
  {
    if tasks == [] then None
    else if tasks[0].id == id then Some(0)
    else match FindTask(tasks[1..], id)
      case None => None
      case Some(i) => Some(i + 1)
  }

  // Queries.

  predicate IsPending(t: Task) {
    t.status == Pending
  }

  predicate IsCompleted(t: Task) {
    t.status == Completed
  }

  /** `new Date(t.completedAt)` as a number: JSON null reads as the epoch. */
  function CompletedAtMs(t: Task): int {
    t.completedAt.GetOr(0)
  }

  /** getPendingTasks: the pending tasks in list order. */
  function PendingTasks(tasks: seq<Task>): (r: seq<Task>)
    ensures forall t :: t in r <==> t in tasks && t.status == Pending
    ensures |r| == |Matching(tasks, IsPending)|
  {
    FilterCount(tasks, IsPending);
    Filter(tasks, IsPending)
  }

  /** The test `new Date(t.completedAt) >= new Date(since)`. */
  function CompletedAtOrAfter(since: int): Task -> bool {
    (t: Task) => CompletedAtMs(t) >= since
  }

  /** A completed task that was completed at or after `since`. */
  function CompletedSince(since: int): Task -> bool {
    (t: Task) => t.status == Completed && CompletedAtMs(t) >= since
  }

  /** getCompletedTasks: the completed tasks in list order; a given `since`
      (a Date, which is always truthy) keeps those completed at or after it,
      an absent one filters nothing further. */
  function CompletedTasks(tasks: seq<Task>, since: Option<int>): (r: seq<Task>)
    ensures forall t :: t in r <==>
              t in tasks && t.status == Completed && (since.Some? ==> CompletedAtMs(t) >= since.value)
  {
    var completed := Filter(tasks, IsCompleted);
    match since
    case None => completed
    case Some(s) => Filter(completed, CompletedAtOrAfter(s))
  }

  /** The completed tasks counted by CompletedTasks are exactly the positions
      holding a task completed at or after `since`. */
  lemma CompletedTasksCount(tasks: seq<Task>, since: int)
    ensures |CompletedTasks(tasks, Some(since))| == |Matching(tasks, CompletedSince(since))|
  {
    FilterFilter(tasks, IsCompleted, CompletedAtOrAfter(since));
    var both := Both(IsCompleted, CompletedAtOrAfter(since));
    FilterCount(tasks, both);
    MatchingAgree(tasks, both, CompletedSince(since));
  }

  // The repository invariants of the data model.

  /** No two stored tasks share an id. */
  predicate UniqueIds(tasks: seq<Task>) {
    forall i, j :: 0 <= i < j < |tasks| ==> tasks[i].id != tasks[j].id
  }

  /** A task has a completion time exactly when it is completed. */
  predicate Consistent(t: Task) {
    t.completedAt.Some? <==> t.status == Completed
  }

  predicate WellFormed(tasks: seq<Task>) {
    UniqueIds(tasks) && forall k :: 0 <= k < |tasks| ==> Consistent(tasks[k])
  }

  /** A new task is pending, unfinished and unvisited, with the documented
      defaults, and appending it keeps the repository well formed when its id
      is fresh (the id generator is not proved to produce fresh ids). */
  lemma AddPreservesWellFormed(tasks: seq<Task>, id: string, title: string, options: TaskOptions, now: int)
    requires WellFormed(tasks)
    requires forall k :: 0 <= k < |tasks| ==> tasks[k].id != id
    ensures var t := NewTask(id, title, options, now);
      && t.id == id && t.title == title && t.createdAt == now
      && t.status == Pending && t.completedAt.None? && t.heartbeatCycles == 0
      && (options.priority.None? ==> t.priority == Medium)
      && (options.description.None? ==> t.description == "")
      && (options.tags.None? ==> t.tags == [])
      && WellFormed(tasks + [t])
  {
    var t := NewTask(id, title, options, now);
    var after := tasks + [t];
    forall i, j | 0 <= i < j < |after| ensures after[i].id != after[j].id {
      if j < |tasks| {
        assert after[i] == tasks[i] && after[j] == tasks[j];
      }
    }
  }

  /** Completing a task keeps its id and leaves it consistent; status only
      moves from pending to completed, never back. */
  lemma CompletePreservesWellFormed(tasks: seq<Task>, i: nat, now: int, notes: string)
    requires WellFormed(tasks) && i < |tasks|
    ensures WellFormed(tasks[i := MarkCompleted(tasks[i], now, notes)])
    ensures forall k :: 0 <= k < |tasks| && tasks[k].status == Completed ==>
              tasks[i := MarkCompleted(tasks[i], now, notes)][k].status == Completed
  {
    var after := tasks[i := MarkCompleted(tasks[i], now, notes)];
    assert forall k :: 0 <= k < |tasks| ==> after[k].id == tasks[k].id;
  }

  /** Counting a heartbeat keeps every id, status and completion time. */
  lemma HeartbeatPreservesWellFormed(tasks: seq<Task>, i: nat)
    requires WellFormed(tasks) && i < |tasks|
    ensures WellFormed(tasks[i := CountHeartbeat(tasks[i])])
  {
    var after := tasks[i := CountHeartbeat(tasks[i])];
    assert forall k :: 0 <= k < |tasks| ==> after[k].id == tasks[k].id;
  }

  /** With unique ids, FindTask finds the one task carrying the id. */
  lemma FindTaskUnique(tasks: seq<Task>, id: string, k: nat)
    requires UniqueIds(tasks) && k < |tasks| && tasks[k].id == id
    ensures FindTask(tasks, id) == Some(k)
  {
  }

  // How the mutations change the pending list.

  /** A new task appears at the end of the pending list. */
  lemma PendingAfterAdd(tasks: seq<Task>, t: Task)
    requires t.status == Pending
    ensures PendingTasks(tasks + [t]) == PendingTasks(tasks) + [t]
  {
    FilterConcat(tasks, [t], IsPending);
    assert Filter([t], IsPending) == Filter([], IsPending) + [t];
  }

  /** Completing a pending task shortens the pending list by exactly one;
      completing an already completed task leaves the pending list as it is. */
  lemma PendingAfterComplete(tasks: seq<Task>, i: nat, now: int, notes: string)
    requires i < |tasks|
    ensures tasks[i].status == Pending ==>
              |PendingTasks(tasks[i := MarkCompleted(tasks[i], now, notes)])| == |PendingTasks(tasks)| - 1
    ensures tasks[i].status == Completed ==>
              PendingTasks(tasks[i := MarkCompleted(tasks[i], now, notes)]) == PendingTasks(tasks)
  {
    var done := MarkCompleted(tasks[i], now, notes);
    if tasks[i].status == Pending {
      FilterUpdateCount(tasks, IsPending, i, done);
    } else {
      FilterUpdateUnmatched(tasks, IsPending, i, done);
    }
  }

  /** Counting a heartbeat never changes how many tasks are pending. */
  lemma PendingAfterHeartbeat(tasks: seq<Task>, i: nat)
    requires i < |tasks|
    ensures |PendingTasks(tasks[i := CountHeartbeat(tasks[i])])| == |PendingTasks(tasks)|
  {
    FilterUpdateSameMatch(tasks, IsPending, i, CountHeartbeat(tasks[i]));
  }
}
