/** The dashboard summary of `getDashboardStats` in
    src/mockData/testcases.ts, computed from a log list given as a
    parameter. */
module DashboardStats {
  import opened Seqs
  import opened Sorting
  import opened LogTypes

  /** `TestcaseStatus` of src/types/index.ts. */
  datatype TestcaseStatus = PASSED | FAILED | RUNNING | PENDING | SKIPPED

  /** `DashboardStats` of src/types/index.ts. */
  datatype Stats = Stats(
    totalLogs: nat,
    errorCount: nat,
    warnCount: nat,
    infoCount: nat,
    debugCount: nat,
    executionDuration: int,
    testcaseStatus: TestcaseStatus)

  /** More errors than this fail the test case. */
  const FailureThreshold := 5

  function AtLevel(level: LogLevel): LogRecord -> bool {
    (l: LogRecord) => l.logLevel == level
  }

  /** `logs.filter(l => l.logLevel === level).length`. */
  function LevelCount(logs: seq<LogRecord>, level: LogLevel): nat {
    CountWith(logs, AtLevel(level))
  }

  /** The levels of the logs, in list order. */
  function Levels(logs: seq<LogRecord>): (r: seq<LogLevel>)
    ensures |r| == |logs|
    ensures forall i :: 0 <= i < |logs| ==> r[i] == logs[i].logLevel
  {
    seq(|logs|, i requires 0 <= i < |logs| => logs[i].logLevel)
  }

  /** Status by error count; the source's "passed with warnings" branch
      assigns `PASSED` again, so one to five errors still pass. */
  function StatusOf(errorCount: nat): (r: TestcaseStatus)
    ensures r == FAILED <==> errorCount > FailureThreshold
    ensures r == PASSED <==> errorCount <= FailureThreshold
  {
    if errorCount > FailureThreshold then FAILED
    else if errorCount > 0 then PASSED
    else PASSED
  }

  /** Last timestamp minus first, in list order; 0 for an empty list. */
  function Duration(logs: seq<LogRecord>, timeOf: TimeOf): int {
    if |logs| > 0 then timeOf(logs[|logs| - 1].timeStamp) - timeOf(logs[0].timeStamp) else 0
  }

  /** `getDashboardStats` on the logs of one test case. */
  function GetDashboardStats(logs: seq<LogRecord>, timeOf: TimeOf): (r: Stats)
    ensures r.totalLogs == |logs|
    ensures r.errorCount + r.warnCount + r.infoCount + r.debugCount <= r.totalLogs
    ensures r.testcaseStatus == FAILED <==> r.errorCount > FailureThreshold
    ensures r.testcaseStatus == PASSED || r.testcaseStatus == FAILED
    ensures logs == [] ==> r == Stats(0, 0, 0, 0, 0, 0, PASSED)
  {
    LevelCountsPartition(logs);
    var errors := LevelCount(logs, ERROR);
    Stats(|logs|, errors, LevelCount(logs, WARN), LevelCount(logs, INFO), LevelCount(logs, DEBUG),
          Duration(logs, timeOf), StatusOf(errors))
  }

  /** Each count is how often its level occurs among the logs' levels. */
  lemma {:induction false} LevelCountIsMultiplicity(logs: seq<LogRecord>, level: LogLevel)
    ensures LevelCount(logs, level) == multiset(Levels(logs))[level]
    decreases |logs|
  {
    if logs != [] {
      LevelCountIsMultiplicity(logs[1..], level);
      assert Levels(logs) == [logs[0].logLevel] + Levels(logs[1..]);
    }
  }

  /** Every log has exactly one of the five levels, so the five counts add
      up to the number of logs. */
  lemma {:induction false} LevelCountsPartition(logs: seq<LogRecord>)
    ensures LevelCount(logs, ERROR) + LevelCount(logs, WARN) + LevelCount(logs, INFO)
            + LevelCount(logs, DEBUG) + LevelCount(logs, TRACE) == |logs|
    decreases |logs|
  {
    if logs != [] {
      LevelCountsPartition(logs[1..]);
    }
  }

  /** The reported counts are the multiplicities of ERROR, WARN, INFO and
      DEBUG; TRACE logs are counted only in the total, which they make up
      to the sum. */
  lemma StatsCounts(logs: seq<LogRecord>, timeOf: TimeOf)
    ensures var r := GetDashboardStats(logs, timeOf);
      var m := multiset(Levels(logs));
      r.errorCount == m[ERROR] && r.warnCount == m[WARN] && r.infoCount == m[INFO]
      && r.debugCount == m[DEBUG]
      && r.totalLogs == r.errorCount + r.warnCount + r.infoCount + r.debugCount + m[TRACE]
  {
    LevelCountIsMultiplicity(logs, ERROR);
    LevelCountIsMultiplicity(logs, WARN);
    LevelCountIsMultiplicity(logs, INFO);
    LevelCountIsMultiplicity(logs, DEBUG);
    LevelCountIsMultiplicity(logs, TRACE);
    LevelCountsPartition(logs);
  }

  /** The test case fails exactly when more than five of its logs are
      errors; the other three statuses never arise. */
  lemma StatusByErrors(logs: seq<LogRecord>, timeOf: TimeOf)
    ensures GetDashboardStats(logs, timeOf).testcaseStatus == FAILED <==> multiset(Levels(logs))[ERROR] > 5
    ensures GetDashboardStats(logs, timeOf).testcaseStatus == PASSED <==> multiset(Levels(logs))[ERROR] <= 5
  {
    LevelCountIsMultiplicity(logs, ERROR);
  }

  /** Counts, total and status do not depend on the order of the logs. */
  lemma StatsOrderFree(a: seq<LogRecord>, b: seq<LogRecord>, timeOf: TimeOf)
    requires multiset(a) == multiset(b)
    ensures var ra, rb := GetDashboardStats(a, timeOf), GetDashboardStats(b, timeOf);
      ra.totalLogs == rb.totalLogs && ra.errorCount == rb.errorCount && ra.warnCount == rb.warnCount
      && ra.infoCount == rb.infoCount && ra.debugCount == rb.debugCount
      && ra.testcaseStatus == rb.testcaseStatus
  {
    assert |a| == |multiset(a)| == |multiset(b)| == |b|;
    CountPermutation(a, b, AtLevel(ERROR));
    CountPermutation(a, b, AtLevel(WARN));
    CountPermutation(a, b, AtLevel(INFO));
    CountPermutation(a, b, AtLevel(DEBUG));
  }

  /** On logs in time order the duration is the span from the earliest to
      the latest timestamp, and so never negative. */
  lemma DurationOfOrderedLogs(logs: seq<LogRecord>, timeOf: TimeOf)
    requires SortedBy(logs, LogTime(timeOf))
    ensures GetDashboardStats(logs, timeOf).executionDuration >= 0
    ensures forall i :: 0 <= i < |logs| ==>
      timeOf(logs[0].timeStamp) <= timeOf(logs[i].timeStamp)
      <= timeOf(logs[0].timeStamp) + GetDashboardStats(logs, timeOf).executionDuration
  {
    forall i | 0 <= i < |logs|
      ensures LogTime(timeOf)(logs[0]) <= LogTime(timeOf)(logs[i]) <= LogTime(timeOf)(logs[|logs| - 1])
    {
    }
  }

  /** The duration follows list order, not time order: two logs listed
      latest first give a negative duration. */
  lemma DurationFollowsListOrder(a: LogRecord, b: LogRecord, timeOf: TimeOf)
    requires timeOf(a.timeStamp) < timeOf(b.timeStamp)
    ensures GetDashboardStats([b, a], timeOf).executionDuration < 0
    ensures GetDashboardStats([a, b], timeOf).executionDuration == -GetDashboardStats([b, a], timeOf).executionDuration
  {
  }
}
