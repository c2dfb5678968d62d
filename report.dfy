/** generateMorningReport (src/TaskManager.js:154-186): a summary of the
    trailing 24 hours that ends at `now`. */
module Report {
  import opened Util
  import opened Tasks
  import opened Selector
  import opened Monitor

  /** 1000 * 60 * 60 milliseconds. */
  const HourMs: int := 3_600_000

  datatype Summary = Summary(tasksCompleted: nat, tasksPending: nat, heartbeats: nat, slackingDetected: bool)

  datatype CompletedItem = CompletedItem(title: string, completedAt: Option<int>, notes: Option<string>)

  /** A pending task as listed in the report; `ageHours` is the whole number
      of hours since creation (the report appends `'h'` to it). */
  datatype PendingItem = PendingItem(title: string, priority: Priority, ageHours: int)

  datatype MorningReport = MorningReport(
    summary: Summary,
    completedTasks: seq<CompletedItem>,
    pendingTasks: seq<PendingItem>,
    warnings: seq<string>,
    nextRecommendedTask: Option<string>)

  /** A log entry stamped at or after `start`. */
  function AtOrAfter(start: int): LogEntry -> bool {
    (e: LogEntry) => e.timestamp >= start
  }

  predicate IsHeartbeat(e: LogEntry) {
    e.Heartbeat?
  }

  /** What the report counts: a heartbeat stamped at or after `start`. */
  function HeartbeatSince(start: int): LogEntry -> bool {
    (e: LogEntry) => e.Heartbeat? && e.timestamp >= start
  }

  /** The number of heartbeats in the report's window. */
  lemma HeartbeatsInWindowCount(log: seq<LogEntry>, start: int)
    ensures |Filter(Filter(log, AtOrAfter(start)), IsHeartbeat)| == |Matching(log, HeartbeatSince(start))|
  {
    FilterFilter(log, AtOrAfter(start), IsHeartbeat);
    var both := Both(AtOrAfter(start), IsHeartbeat);
    FilterCount(log, both);
    MatchingAgree(log, both, HeartbeatSince(start));
  }

  /** The age `Math.floor((now - createdAt) / 3600000)`; the divisor is
      positive, so Dafny's division rounds down like Math.floor. */
  function AgeHours(createdAt: int, now: int): (h: int)
    ensures h * HourMs <= now - createdAt < (h + 1) * HourMs
  {
    (now - createdAt) / HourMs
  }

  /** The entry for a pending task: its title, its priority and its age in
      whole hours. */
  function PendingItemOf(t: Task, now: int): (p: PendingItem)
    ensures p.title == t.title && p.priority == t.priority
    ensures p.ageHours == AgeHours(t.createdAt, now)
  {
    PendingItem(t.title, t.priority, AgeHours(t.createdAt, now))
  }

  function CompletedItemOf(t: Task): CompletedItem {
    CompletedItem(t.title, t.completedAt, t.completionNotes)
  }

  /** The report's list of completed tasks, one entry per task, in order. */
  function CompletedItems(ts: seq<Task>): (r: seq<CompletedItem>)
    ensures |r| == |ts|
    ensures forall k :: 0 <= k < |ts| ==> r[k] == CompletedItemOf(ts[k])
  {
    seq(|ts|, k requires 0 <= k < |ts| => CompletedItemOf(ts[k]))
  }

  /** The report's list of pending tasks, one entry per task, in order. */
  function PendingItems(ts: seq<Task>, now: int): (r: seq<PendingItem>)
    ensures |r| == |ts|
    ensures forall k :: 0 <= k < |ts| ==> r[k] == PendingItemOf(ts[k], now)
  {
    seq(|ts|, k requires 0 <= k < |ts| => PendingItemOf(ts[k], now))
  }

  /** `getNextTaskForHeartbeat()?.title || null`. */
  function RecommendedTitle(next: Option<Task>): (r: Option<string>)
    ensures r.Some? <==> next.Some? && next.value.title != ""
    ensures r.Some? ==> r.value == next.value.title
  {
    if next.Some? then NonEmpty(Some(next.value.title)) else None
  }

  /** generateMorningReport at time `now`. */
  function GenerateMorningReport(tasks: seq<Task>, log: seq<LogEntry>, config: AntiSlackingConfig, now: int): (r: MorningReport)
    ensures r.summary.tasksCompleted == |r.completedTasks| == |Matching(tasks, CompletedSince(now - DayMs))|
    ensures r.summary.tasksPending == |Matching(tasks, IsPending)|
    ensures |r.pendingTasks| == Min(5, r.summary.tasksPending)
    ensures r.summary.heartbeats == |Matching(log, HeartbeatSince(now - DayMs))|
    ensures r.summary.slackingDetected == CheckAntiSlacking(log, config, now).slacking
    ensures |r.warnings| > 0 <==> r.summary.slackingDetected
    ensures r.summary.slackingDetected ==> r.warnings == [CheckAntiSlacking(log, config, now).message.value]
    ensures r.nextRecommendedTask.Some? <==>
              NextTaskForHeartbeat(tasks).Some? && NextTaskForHeartbeat(tasks).value.title != ""
    ensures r.nextRecommendedTask.Some? ==> r.nextRecommendedTask.value == NextTaskForHeartbeat(tasks).value.title
  {
    var yesterday := now - DayMs;
    var completedToday := CompletedTasks(tasks, Some(yesterday));
    var pending := PendingTasks(tasks);
    var slackingCheck := CheckAntiSlacking(log, config, now);
    var todayLogs := Filter(log, AtOrAfter(yesterday));
    var heartbeatCount := |Filter(todayLogs, IsHeartbeat)|;
    CompletedTasksCount(tasks, yesterday);
    HeartbeatsInWindowCount(log, yesterday);
    var top := pending[..Min(5, |pending|)];
    MorningReport(
      Summary(|completedToday|, |pending|, heartbeatCount, slackingCheck.slacking),
      CompletedItems(completedToday),
      PendingItems(top, now),
      if slackingCheck.slacking then [slackingCheck.message.value] else [],
      RecommendedTitle(NextTaskForHeartbeat(tasks)))
  }

  /** The report lists the tasks completed in the window, in list order, and
      the first five pending tasks in list order (not in selector order). */
  lemma ReportLists(tasks: seq<Task>, log: seq<LogEntry>, config: AntiSlackingConfig, now: int)
    ensures var r := GenerateMorningReport(tasks, log, config, now);
      && (forall k :: 0 <= k < |r.completedTasks| ==>
            r.completedTasks[k] == CompletedItemOf(CompletedTasks(tasks, Some(now - DayMs))[k]))
      && (forall k :: 0 <= k < |r.pendingTasks| ==>
            r.pendingTasks[k] == PendingItemOf(PendingTasks(tasks)[k], now))
  {
  }

  /** The report's heartbeat window contains the monitor's: with the monitor
      enabled, the report never counts fewer heartbeats than the monitor counts
      idle ones. */
  lemma ReportHeartbeatsCoverIdle(tasks: seq<Task>, log: seq<LogEntry>, config: AntiSlackingConfig, now: int)
    requires config.enabled
    ensures CheckAntiSlacking(log, config, now).idleCount.value <=
            GenerateMorningReport(tasks, log, config, now).summary.heartbeats
  {
    var idle := Matching(log, IsRecentIdle(now));
    var window := Matching(log, HeartbeatSince(now - DayMs));
    assert idle <= window;
    assert window == idle + (window - idle);
  }

  /** The two windows differ at their start: a heartbeat without activity
      stamped exactly 24 hours before `now` is counted by the report but not
      by the monitor, and so is a task completed at that instant. */
  lemma WindowBoundary(t: Task, config: AntiSlackingConfig, now: int)
    requires config.enabled
    requires t.status == Completed && t.completedAt == Some(now - DayMs)
    ensures var log := [Heartbeat(now - DayMs, None, NoActivity)];
      && CheckAntiSlacking(log, config, now).idleCount == Some(0)
      && GenerateMorningReport([t], log, config, now).summary.heartbeats == 1
      && GenerateMorningReport([t], log, config, now).summary.tasksCompleted == 1
  {
    var log := [Heartbeat(now - DayMs, None, NoActivity)];
    assert Matching(log, IsRecentIdle(now)) == {};
    assert Matching(log, HeartbeatSince(now - DayMs)) == {0};
    assert Matching([t], CompletedSince(now - DayMs)) == {0};
  }
}
