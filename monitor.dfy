/** checkAntiSlacking (src/TaskManager.js:132-152): counts the idle heartbeats
    of the last 24 hours and compares the count with the configured maximum. */
module Monitor {
  import opened Util
  import opened Tasks

  /** 24 * 60 * 60 * 1000 milliseconds. */
  const DayMs: int := 86_400_000

  /** The `antiSlacking` section of the configuration. */
  datatype AntiSlackingConfig = AntiSlackingConfig(enabled: bool, maxIdleHeartbeats: int)

  /** `{ slacking, message?, idleCount? }`; a disabled monitor sets neither
      optional field. */
  datatype SlackingCheck = SlackingCheck(slacking: bool, message: Option<string>, idleCount: Option<nat>)

  /** A heartbeat strictly younger than a day at `now` (entries stamped after
      `now` have a negative age and count as well). */
  function IsRecentHeartbeat(now: int): LogEntry -> bool {
    (e: LogEntry) => e.Heartbeat? && now - e.timestamp < DayMs
  }

  /** A heartbeat whose activity is `no_activity`. */
  predicate IsIdle(e: LogEntry) {
    e.Heartbeat? && e.activity == NoActivity
  }

  /** What is counted: a recent heartbeat with no activity. */
  function IsRecentIdle(now: int): LogEntry -> bool {
    (e: LogEntry) => e.Heartbeat? && now - e.timestamp < DayMs && e.activity == NoActivity
  }

  /** `recentHeartbeats.filter(h => h.activity === 'no_activity')`. */
  function IdleHeartbeats(log: seq<LogEntry>, now: int): (r: seq<LogEntry>)
    ensures |r| <= |log|
    ensures forall e :: e in r <==> e in log && e.Heartbeat? && now - e.timestamp < DayMs && e.activity == NoActivity
  {
    Filter(Filter(log, IsRecentHeartbeat(now)), IsIdle)
  }

  /** The two filters together count the positions holding a recent idle
      heartbeat. */
  lemma IdleHeartbeatsCount(log: seq<LogEntry>, now: int)
    ensures |IdleHeartbeats(log, now)| == |Matching(log, IsRecentIdle(now))|
  {
    FilterFilter(log, IsRecentHeartbeat(now), IsIdle);
    var both := Both(IsRecentHeartbeat(now), IsIdle);
    FilterCount(log, both);
    MatchingAgree(log, both, IsRecentIdle(now));
  }

  const WarningPrefix: string := "WARNING: "
  const WarningSuffix: string := " idle heartbeats detected. Get to work!"

  /** The warning text of a slacking result: the count, in decimal, between a
      fixed prefix and suffix. */
  function SlackingMessage(idleCount: nat): (m: string)
    ensures |m| > |WarningPrefix| + |WarningSuffix|
    ensures m[..|WarningPrefix|] == WarningPrefix
    ensures m[|m| - |WarningSuffix|..] == WarningSuffix
    ensures m[|WarningPrefix|..|m| - |WarningSuffix|] == NatToString(idleCount)
    ensures DecimalValue(m[|WarningPrefix|..|m| - |WarningSuffix|]) == idleCount
  {
    var digits := NatToString(idleCount);
    NatToStringRoundTrip(idleCount);
    var m := WarningPrefix + digits + WarningSuffix;
    assert m[|WarningPrefix|..|m| - |WarningSuffix|] == digits;
    m
  }

  /** checkAntiSlacking at time `now` over the logged entries. */
  function CheckAntiSlacking(log: seq<LogEntry>, config: AntiSlackingConfig, now: int): (r: SlackingCheck)
    ensures !config.enabled ==> r == SlackingCheck(false, None, None)
    ensures config.enabled ==> r.idleCount == Some(|Matching(log, IsRecentIdle(now))|)
    ensures config.enabled ==> (r.slacking <==> |Matching(log, IsRecentIdle(now))| >= config.maxIdleHeartbeats)
    ensures r.message.Some? <==> r.slacking
    ensures r.slacking ==> r.idleCount.Some? && r.message == Some(SlackingMessage(r.idleCount.value))
  {
    if !config.enabled then SlackingCheck(false, None, None)
    else
      var idle := IdleHeartbeats(log, now);
      IdleHeartbeatsCount(log, now);
      if |idle| >= config.maxIdleHeartbeats then
        SlackingCheck(true, Some(SlackingMessage(|idle|)), Some(|idle|))
      else
        SlackingCheck(false, None, Some(|idle|))
  }

  /** Appending one entry raises the idle count by one exactly when the entry
      is a recent idle heartbeat. */
  lemma IdleAfterAppend(log: seq<LogEntry>, e: LogEntry, now: int)
    ensures |IdleHeartbeats(log + [e], now)| ==
            |IdleHeartbeats(log, now)| + (if IsRecentIdle(now)(e) then 1 else 0)
  {
    FilterConcat(log, [e], IsRecentHeartbeat(now));
    var recentE := Filter([e], IsRecentHeartbeat(now));
    assert recentE == Filter([], IsRecentHeartbeat(now)) + (if IsRecentHeartbeat(now)(e) then [e] else []);
    FilterConcat(Filter(log, IsRecentHeartbeat(now)), recentE, IsIdle);
    if recentE == [e] {
      assert Filter([e], IsIdle) == Filter([], IsIdle) + (if IsIdle(e) then [e] else []);
    }
  }

  /** A heartbeat recorded at `now` without an activity makes the monitor,
      asked at the same instant, count one more idle heartbeat. */
  lemma IdleHeartbeatCounts(log: seq<LogEntry>, activity: Option<Activity>, config: AntiSlackingConfig, now: int)
    requires config.enabled
    requires activity.None? || OrElse(activity.value.description, NoActivity) == NoActivity
    ensures CheckAntiSlacking(log + [HeartbeatEntry(activity, now)], config, now).idleCount.value ==
            CheckAntiSlacking(log, config, now).idleCount.value + 1
  {
    IdleAfterAppend(log, HeartbeatEntry(activity, now), now);
    IdleHeartbeatsCount(log, now);
    IdleHeartbeatsCount(log + [HeartbeatEntry(activity, now)], now);
  }

  /** `n` heartbeats without activity, all stamped `now`. */
  function IdleBeats(n: nat, now: int): (r: seq<LogEntry>)
    ensures |r| == n
  {
    if n == 0 then [] else IdleBeats(n - 1, now) + [Heartbeat(now, None, NoActivity)]
  }

  /** One more idle heartbeat is one more entry at the end of the log. */
  lemma IdleBeatsSnoc(log: seq<LogEntry>, n: nat, now: int)
    ensures log + IdleBeats(n + 1, now) == (log + IdleBeats(n, now)) + [Heartbeat(now, None, NoActivity)]
  {
  }

  /** `n` idle heartbeats at `now` raise the idle count at `now` by `n`. */
  lemma {:induction false} IdleBeatsCount(log: seq<LogEntry>, n: nat, now: int)
    ensures |IdleHeartbeats(log + IdleBeats(n, now), now)| == |IdleHeartbeats(log, now)| + n
  {
    if n == 0 {
      assert log + IdleBeats(n, now) == log;
    } else {
      IdleBeatsCount(log, n - 1, now);
      IdleBeatsSnoc(log, n - 1, now);
      IdleAfterAppend(log + IdleBeats(n - 1, now), Heartbeat(now, None, NoActivity), now);
    }
  }

  /** Starting from a log without recent idle heartbeats, `n` idle heartbeats
      raise the alarm exactly when `n` reaches the configured maximum: with
      the maximum it is raised, with one fewer it is not. */
  lemma SlackingThreshold(log: seq<LogEntry>, n: nat, config: AntiSlackingConfig, now: int)
    requires config.enabled
    requires CheckAntiSlacking(log, config, now).idleCount == Some(0)
    ensures CheckAntiSlacking(log + IdleBeats(n, now), config, now).slacking <==> n >= config.maxIdleHeartbeats
  {
    IdleHeartbeatsCount(log, now);
    IdleBeatsCount(log, n, now);
    IdleHeartbeatsCount(log + IdleBeats(n, now), now);
  }
}
