/** The TaskManager class (src/TaskManager.js:12-188): the task list and the
    activity log it owns, the three operations that change them and the
    queries over them. The task file and the log file are represented by the
    two sequences, so saving is implicit and logging is appending. */
module Manager {
  import opened Util
  import opened Tasks
  import opened Selector
  import opened Monitor
  import opened Report

  class TaskManager {
    /** The tasks, in the order of the task file. */
    var tasks: seq<Task>
    /** The lines of the activity log, oldest first. */
    var log: seq<LogEntry>
    /** The `antiSlacking` section of the configuration. */
    const config: AntiSlackingConfig

    /** A manager over the tasks and log entries read at start-up. */
    constructor (storedTasks: seq<Task>, storedLog: seq<LogEntry>, config: AntiSlackingConfig)
      ensures tasks == storedTasks && log == storedLog && this.config == config
    {
      tasks := storedTasks;
      log := storedLog;
      this.config := config;
    }

    /** logActivity: append one line to the log. */
    method LogActivity(entry: LogEntry)
      modifies this
      ensures log == old(log) + [entry]
      ensures tasks == old(tasks)
    {
      log := log + [entry];
    }

    /** addTask with the generated id `id`, at time `now`. */
    method AddTask(title: string, options: TaskOptions, id: string, now: int) returns (task: Task)
      modifies this
      ensures task == NewTask(id, title, options, now)
      ensures tasks == old(tasks) + [task]
      ensures log == old(log) + [TaskCreated(now, id, title)]
      ensures PendingTasks(tasks) == PendingTasks(old(tasks)) + [task]
      ensures old(WellFormed(tasks)) && (forall t :: t in old(tasks) ==> t.id != id) ==> WellFormed(tasks)
    {
      task := NewTask(id, title, options, now);
      tasks := tasks + [task];
      LogActivity(TaskCreated(now, task.id, title));
      PendingAfterAdd(old(tasks), task);
      if WellFormed(old(tasks)) && forall t :: t in old(tasks) ==> t.id != id {
        AddPreservesWellFormed(old(tasks), id, title, options, now);
      }
    }

    /** completeTask at time `now`: the first task with the id is marked
        completed, whether or not it was pending; an unknown id throws and
        changes nothing. */
    method CompleteTask(taskId: string, notes: string, now: int) returns (r: Result<Task, string>)
      modifies this
      ensures r.Failure? <==> forall t :: t in old(tasks) ==> t.id != taskId
      ensures r.Failure? ==>
                r.error == "Task " + taskId + " not found" && tasks == old(tasks) && log == old(log)
      ensures r.Success? ==>
                var i := FindTask(old(tasks), taskId).value;
                && tasks == old(tasks)[i := MarkCompleted(old(tasks)[i], now, notes)]
                && r.value == tasks[i]
                && r.value.status == Completed && r.value.completedAt == Some(now)
                && r.value.completionNotes == Some(notes)
                && log == old(log) + [TaskCompleted(now, taskId, old(tasks)[i].title, notes)]
                && (old(tasks)[i].status == Pending ==> |PendingTasks(tasks)| == |PendingTasks(old(tasks))| - 1)
                && (old(tasks)[i].status == Completed ==> PendingTasks(tasks) == PendingTasks(old(tasks)))
      ensures old(WellFormed(tasks)) ==> WellFormed(tasks)
    {
      var found := FindTask(tasks, taskId);
      if found.None? {
        return Failure("Task " + taskId + " not found");
      }
      var i := found.value;
      var task := tasks[i];
      tasks := tasks[i := MarkCompleted(task, now, notes)];
      LogActivity(TaskCompleted(now, taskId, task.title, notes));
      r := Success(tasks[i]);
      PendingAfterComplete(old(tasks), i, now, notes);
      if WellFormed(old(tasks)) {
        CompletePreservesWellFormed(old(tasks), i, now, notes);
      }
    }

    /** recordHeartbeat at time `now`: one heartbeat line is logged, and a
        non-empty task id that names a task raises that task's counter. */
    method RecordHeartbeat(activity: Option<Activity>, now: int) returns (entry: LogEntry)
      modifies this
      ensures entry == HeartbeatEntry(activity, now)
      ensures log == old(log) + [entry]
      ensures entry.taskWorkedOn.Some? && FindTask(old(tasks), entry.taskWorkedOn.value).Some? ==>
                var i := FindTask(old(tasks), entry.taskWorkedOn.value).value;
                tasks == old(tasks)[i := CountHeartbeat(old(tasks)[i])]
      ensures entry.taskWorkedOn.None? || FindTask(old(tasks), entry.taskWorkedOn.value).None? ==>
                tasks == old(tasks)
      ensures |PendingTasks(tasks)| == |PendingTasks(old(tasks))|
      ensures old(WellFormed(tasks)) ==> WellFormed(tasks)
    {
      entry := HeartbeatEntry(activity, now);
      LogActivity(entry);
      if entry.taskWorkedOn.Some? {
        var found := FindTask(tasks, entry.taskWorkedOn.value);
        if found.Some? {
          var i := found.value;
          tasks := tasks[i := CountHeartbeat(tasks[i])];
          PendingAfterHeartbeat(old(tasks), i);
          if WellFormed(old(tasks)) {
            HeartbeatPreservesWellFormed(old(tasks), i);
          }
        }
      }
    }

    // The queries read the current state and change nothing.

    /** getPendingTasks over the current tasks. */
    function GetPendingTasks(): (r: seq<Task>)
      reads this
      ensures forall t :: t in r <==> t in tasks && t.status == Pending
      ensures |r| == |Matching(tasks, IsPending)|
    {
      PendingTasks(tasks)
    }

    /** getCompletedTasks over the current tasks. */
    function GetCompletedTasks(since: Option<int>): (r: seq<Task>)
      reads this
      ensures forall t :: t in r <==>
                t in tasks && t.status == Completed && (since.Some? ==> CompletedAtMs(t) >= since.value)
    {
      CompletedTasks(tasks, since)
    }

    /** getNextTaskForHeartbeat over the current tasks: null exactly when none
        is pending, otherwise a pending task of highest rank, the oldest of
        that rank, and the first in list order among full ties. */
    function GetNextTaskForHeartbeat(): (r: Option<Task>)
      reads this
      ensures r.None? <==> forall t :: t in tasks ==> t.status != Pending
      ensures r.Some? ==> r.value in tasks && r.value.status == Pending
      ensures r.Some? ==> forall t :: t in tasks && t.status == Pending ==> Rank(t.priority) <= Rank(r.value.priority)
      ensures r.Some? ==> forall t :: t in tasks && t.status == Pending && Rank(t.priority) == Rank(r.value.priority) ==>
                            r.value.createdAt <= t.createdAt
      ensures r.Some? ==> exists k :: IsChoice(PendingTasks(tasks), k) && r.value == PendingTasks(tasks)[k]
    {
      NextTaskIsHighestOldest(tasks);
      NextTaskForHeartbeat(tasks)
    }

    /** checkAntiSlacking re-reads the log file, which holds every entry
        logged so far. */
    function CheckAntiSlacking(now: int): (r: SlackingCheck)
      reads this
      ensures !config.enabled ==> !r.slacking && r.idleCount.None?
      ensures config.enabled ==> r.idleCount == Some(|Matching(log, IsRecentIdle(now))|)
      ensures config.enabled ==> (r.slacking <==> |Matching(log, IsRecentIdle(now))| >= config.maxIdleHeartbeats)
    {
      Monitor.CheckAntiSlacking(log, config, now)
    }

    /** generateMorningReport: its summary agrees with the other queries asked
        at the same instant. */
    function GenerateMorningReport(now: int): (r: MorningReport)
      reads this
      ensures r.summary.tasksPending == |GetPendingTasks()|
      ensures r.summary.tasksCompleted == |GetCompletedTasks(Some(now - DayMs))|
      ensures r.summary.slackingDetected == CheckAntiSlacking(now).slacking
      ensures r.nextRecommendedTask == RecommendedTitle(GetNextTaskForHeartbeat())
    {
      CompletedTasksCount(tasks, now - DayMs);
      Report.GenerateMorningReport(tasks, log, config, now)
    }
  }
}
