/** Clients of the TaskManager class that follow the scenarios the
    repository's tests describe (src/TaskManager.test.js, test-manual.js),
    proved from the class's contracts and the lemmas about the queries. */
module Usage {
  import opened Util
  import opened Tasks
  import opened Selector
  import opened Monitor
  import opened Report
  import opened Manager

  function Opts(p: Priority): TaskOptions {
    TaskOptions(Some(p), None, None)
  }

  /** Adding a task returns it pending, with the given title and priority. */
  method AddOneTask(config: AntiSlackingConfig, id: string, now: int)
  {
    var m := new TaskManager([], [], config);
    var task := m.AddTask("Test task", Opts(High), id, now);
    assert task.title == "Test task" && task.priority == High && task.status == Pending;
  }

  /** Two added tasks are both pending. */
  method TwoPending(config: AntiSlackingConfig, id1: string, id2: string, now: int)
  {
    var m := new TaskManager([], [], config);
    assert m.GetPendingTasks() == [];
    var task1 := m.AddTask("Task 1", TaskOptions(None, None, None), id1, now);
    var task2 := m.AddTask("Task 2", TaskOptions(None, None, None), id2, now);
    assert |m.GetPendingTasks()| == 2;
  }

  /** Completing an added task returns it completed, with the notes given. */
  method CompleteOne(config: AntiSlackingConfig, id: string, t0: int, t1: int)
  {
    var m := new TaskManager([], [], config);
    var task := m.AddTask("Complete me", TaskOptions(None, None, None), id, t0);
    assert m.tasks == [task];
    var r := m.CompleteTask(id, "Done!", t1);
    assert r.Success? && r.value.status == Completed && r.value.completionNotes == Some("Done!");
  }

  /** Once the first of two tasks is completed, only the second is pending. */
  lemma PendingAfterFirstCompleted(a: Task, b: Task, now: int, notes: string)
    requires b.status == Pending
    ensures PendingTasks([MarkCompleted(a, now, notes), b]) == [b]
  {
    var done := MarkCompleted(a, now, notes);
    FilterConcat([done], [b], IsPending);
    assert Filter([done], IsPending) == Filter([], IsPending) + [];
    assert Filter([b], IsPending) == Filter([], IsPending) + [b];
    assert [done, b] == [done] + [b];
  }

  /** On a manager started from two stored tasks with distinct ids, the
      second pending, completing the first leaves only the second pending. */
  method CompleteFirstOfTwo(config: AntiSlackingConfig, first: Task, second: Task, now: int)
    requires first.id != second.id && second.status == Pending
  {
    var m := new TaskManager([first, second], [], config);
    assert FindTask(m.tasks, first.id) == Some(0);
    var r := m.CompleteTask(first.id, "done", now);
    assert r.Success? && r.value.title == first.title;
    assert m.tasks == [MarkCompleted(first, now, "done"), second];
    PendingAfterFirstCompleted(first, second, now, "done");
    assert m.GetPendingTasks() == [second];
  }

  /** A manager holding a pending high-priority task recommends a
      high-priority task. */
  method RecommendHigh(m: TaskManager, high: Task)
    requires high in m.tasks && high.status == Pending && high.priority == High
  {
    var next := m.GetNextTaskForHeartbeat();
    assert next.Some? && Rank(next.value.priority) >= Rank(high.priority);
    assert next.value.priority == High;
  }

  /** Low, high and medium tasks: the high one is recommended. */
  method NextByPriority(config: AntiSlackingConfig, ids: seq<string>, now: int)
    requires |ids| == 3
  {
    var m := new TaskManager([], [], config);
    var low := m.AddTask("Low priority", Opts(Low), ids[0], now);
    assert m.tasks == [low];
    var high := m.AddTask("High priority", Opts(High), ids[1], now);
    assert m.tasks == [low, high];
    var medium := m.AddTask("Medium priority", Opts(Medium), ids[2], now);
    assert m.tasks[1] == high;
    RecommendHigh(m, high);
  }

  /** The heartbeat logged for `{ taskId: null, description: 'no_activity' }`. */
  lemma IdleEntry(now: int)
    ensures HeartbeatEntry(Some(Activity(None, Some(NoActivity))), now) == Heartbeat(now, None, NoActivity)
  {
  }

  /** Five heartbeats without activity on an empty log raise the alarm when
      the configured maximum is at most five. */
  method SlackingAfterIdleHeartbeats(config: AntiSlackingConfig, now: int)
    requires config.enabled && config.maxIdleHeartbeats <= 5
  {
    var m := new TaskManager([], [], config);
    var idle := Some(Activity(None, Some(NoActivity)));
    IdleEntry(now);
    var i := 0;
    while i < 5
      invariant 0 <= i <= 5 && m.config == config
      invariant m.log == IdleBeats(i, now)
    {
      var e := m.RecordHeartbeat(idle, now);
      i := i + 1;
    }
    assert CheckAntiSlacking([], config, now).idleCount == Some(0);
    assert m.log == [] + IdleBeats(5, now);
    SlackingThreshold([], 5, config, now);
    assert m.CheckAntiSlacking(now).slacking;
  }

  /** A pending task followed by one completed at `now`: the report at `now`
      counts one of each. */
  lemma ReportOfOneEach(ts: seq<Task>, log: seq<LogEntry>, config: AntiSlackingConfig, now: int)
    requires |ts| == 2 && ts[0].status == Pending
    requires ts[1].status == Completed && ts[1].completedAt == Some(now)
    ensures GenerateMorningReport(ts, log, config, now).summary.tasksCompleted == 1
    ensures GenerateMorningReport(ts, log, config, now).summary.tasksPending == 1
  {
    var pending, done := ts[0], ts[1];
    assert ts == [pending] + [done];
    FilterConcat([pending], [done], IsCompleted);
    FilterConcat([pending], [done], IsPending);
    assert Filter([pending], IsCompleted) == Filter([], IsCompleted) + [];
    assert Filter([done], IsCompleted) == Filter([], IsCompleted) + [done];
    assert Filter([pending], IsPending) == Filter([], IsPending) + [pending];
    assert Filter([done], IsPending) == Filter([], IsPending) + [];
    assert Filter([done], CompletedAtOrAfter(now - DayMs)) == Filter([], CompletedAtOrAfter(now - DayMs)) + [done];
  }

  /** The report of a manager holding a pending task and then a task
      completed at `now`. */
  method ReportOneEach(m: TaskManager, now: int)
    requires |m.tasks| == 2 && m.tasks[0].status == Pending
    requires m.tasks[1].status == Completed && m.tasks[1].completedAt == Some(now)
  {
    ReportOfOneEach(m.tasks, m.log, m.config, now);
    var report := m.GenerateMorningReport(now);
    assert report.summary.tasksCompleted == 1 && report.summary.tasksPending == 1;
  }

  /** Add two tasks and complete the second: the report counts one completed
      and one pending task. */
  method ReportAfterCompletion(config: AntiSlackingConfig, id1: string, id2: string, now: int)
    requires id1 != id2
  {
    var m := new TaskManager([], [], config);
    var task1 := m.AddTask("Task 1", TaskOptions(None, None, None), id1, now);
    var task2 := m.AddTask("Task 2", TaskOptions(None, None, None), id2, now);
    assert m.tasks == [task1, task2];
    assert FindTask([task1, task2], id2) == Some(1);
    var r := m.CompleteTask(id2, "", now);
    assert m.tasks == [task1, MarkCompleted(task2, now, "")];
    ReportOneEach(m, now);
  }

  /** The heartbeat entry of an activity naming a task carries that id. */
  lemma NamedHeartbeat(id: string, description: string, now: int)
    requires id != ""
    ensures HeartbeatEntry(Some(Activity(Some(id), Some(description))), now).taskWorkedOn == Some(id)
  {
  }

  /** A heartbeat naming a task raises that task's counter by one. */
  method HeartbeatCycles(config: AntiSlackingConfig, id: string, now: int)
    requires id != ""
  {
    var m := new TaskManager([], [], config);
    var task := m.AddTask("Work task", Opts(Medium), id, now);
    assert m.tasks == [task];
    assert FindTask([task], id) == Some(0);
    NamedHeartbeat(id, "working", now);
    var e := m.RecordHeartbeat(Some(Activity(Some(id), Some("working"))), now);
    assert m.tasks == [CountHeartbeat(task)];
  }
}
