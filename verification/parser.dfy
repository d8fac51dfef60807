/** `LogParser.parse` and `parseLogs` (src/services/logParser.ts): sort the
    records by time, read the entity context, run the correlator, emit the
    leftovers, sort the emitted records by start time and derive the entity
    details and the dashboard counters. */
module Parser {
  import opened Optional
  import opened Text
  import opened Seqs
  import opened Sorting
  import opened LogTypes
  import opened Context
  import opened Correlator

  /** `EntityDetails` of src/types/index.ts. */
  datatype EntityDetails = EntityDetails(
    sourceEntityId: string,
    sourceSystem: string,
    sourceEntityType: string,
    sourceProject: string,
    targetSystem: string,
    targetEntityType: string,
    targetProject: string,
    targetEntityId: string,
    entityCreationTime: string,
    syncStatusList: seq<SyncStatus>)

  datatype WidgetMetrics = WidgetMetrics(
    totalSyncs: nat,
    successfulSyncs: nat,
    failedSyncs: int,
    errorLevelLogsCount: nat,
    executionTimeMs: int)

  datatype ParsedResult = ParsedResult(
    entityContext: EntityContext,
    entityDetails: EntityDetails,
    syncStatusList: seq<SyncStatus>,
    widgetMetrics: WidgetMetrics)

  /** The sort key of an emitted sync: its start time in milliseconds. */
  function StartTime(timeOf: TimeOf): SyncStatus -> int {
    (s: SyncStatus) => timeOf(s.startSyncTime)
  }

  /** The records in the order the constructor sorts them. */
  function SortLogs(logs: seq<LogRecord>, timeOf: TimeOf): seq<LogRecord> {
    SortBy(logs, LogTime(timeOf))
  }

  /** The emitted syncs: the fold, the leftovers, the sort by start time. */
  function Syncs(sorted: seq<LogRecord>, timeOf: TimeOf): seq<SyncStatus> {
    SortBy(Finalize(Run(Initial, sorted)).completed, StartTime(timeOf))
  }

  function FirstSync(syncs: seq<SyncStatus>): Option<SyncStatus> {
    if syncs == [] then None else Some(syncs[0])
  }

  /** `buildEntityDetails`. */
  function BuildEntityDetails(ctx: EntityContext, syncs: seq<SyncStatus>): EntityDetails {
    var first := FirstSync(syncs);
    EntityDetails(
      OrDefault(if first.Some? then Some(first.value.sourceEntityId) else None, Unknown),
      ctx.sourceSystem, ctx.sourceEntity, ctx.sourceProject,
      ctx.targetSystem, ctx.targetEntity, ctx.targetProject,
      OrDefault(if first.Some? then Some(first.value.targetEntityId) else None, Unknown),
      OrDefault(if first.Some? then Some(first.value.startSyncTime) else None, ""),
      syncs)
  }

  /** A sync counts as successful when it finished at another timestamp
      string than the one it started at. */
  predicate Succeeded(s: SyncStatus) {
    s.finishedSyncTime != s.startSyncTime
  }

  const ErrorWord := "ERROR"

  predicate IsErrorLine(l: LogRecord) {
    Contains(l.message, ErrorWord)
  }

  /** `calculateWidgetMetrics` over the sorted records. */
  function CalculateWidgetMetrics(syncs: seq<SyncStatus>, sorted: seq<LogRecord>, timeOf: TimeOf): WidgetMetrics {
    var total := |syncs|;
    var successful := CountWith(syncs, Succeeded);
    WidgetMetrics(
      total, successful, total - successful,
      CountWith(sorted, IsErrorLine),
      ExecutionTime(sorted, timeOf))
  }

  /** The last record's time minus the first's, for more than one record. */
  function ExecutionTime(sorted: seq<LogRecord>, timeOf: TimeOf): int {
    if |sorted| > 1 then timeOf(sorted[|sorted| - 1].timeStamp) - timeOf(sorted[0].timeStamp) else 0
  }

  /** `parseLogs(logs)`: `None` is the source's `null`. */
  function ParseLogs(logs: seq<LogRecord>, timeOf: TimeOf): Option<ParsedResult> {
    var sorted := SortLogs(logs, timeOf);
    match ExtractEntityContext(sorted)
    case None => None
    case Some(ctx) =>
      var syncs := Syncs(sorted, timeOf);
      Some(ParsedResult(ctx, BuildEntityDetails(ctx, syncs), syncs, CalculateWidgetMetrics(syncs, sorted, timeOf)))
  }

  /* ---------------- properties ---------------- */

  lemma FirstContextOfSorted(logs: seq<LogRecord>, timeOf: TimeOf)
    ensures ExtractEntityContext(SortLogs(logs, timeOf)).None? <==> FirstWith(SortLogs(logs, timeOf), IsContextLine).None?
    ensures FirstWith(SortLogs(logs, timeOf), IsContextLine).Some? ==>
              ExtractEntityContext(SortLogs(logs, timeOf))
                == Some(ParseEntityContext(FirstWith(SortLogs(logs, timeOf), IsContextLine).value.message))
  {
  }

  /** The parser gives up exactly when no record carries the context
      marker. */
  lemma ParseNullIff(logs: seq<LogRecord>, timeOf: TimeOf)
    ensures ParseLogs(logs, timeOf).None? <==> forall i :: 0 <= i < |logs| ==> !IsContextLine(logs[i])
  {
    FirstContextOfSorted(logs, timeOf);
    FirstAfterSort(logs, LogTime(timeOf), IsContextLine);
  }

  /** The context is read from the earliest marker record; among marker
      records with the same time, the one that came first in the input. */
  lemma ContextFromEarliest(logs: seq<LogRecord>, timeOf: TimeOf)
    requires ParseLogs(logs, timeOf).Some?
    ensures exists i :: IsEarliest(logs, LogTime(timeOf), IsContextLine, i)
                        && ParseLogs(logs, timeOf).value.entityContext == ParseEntityContext(logs[i].message)
  {
    FirstContextOfSorted(logs, timeOf);
    FirstAfterSort(logs, LogTime(timeOf), IsContextLine);
  }

  lemma SyncCount(sorted: seq<LogRecord>, timeOf: TimeOf)
    ensures |Syncs(sorted, timeOf)| <= CountWith(sorted, IsKeyedStart)
    ensures SortedBy(Syncs(sorted, timeOf), StartTime(timeOf))
  {
    InitialWellFormed();
    RunSize(Initial, sorted);
    RunWellFormed(Initial, sorted);
    FinalizeEmitsLeftovers(Run(Initial, sorted));
  }

  /** The emitted syncs are ordered by start time, and there are no more of
      them than keyed start lines. */
  lemma SyncListShape(logs: seq<LogRecord>, timeOf: TimeOf)
    requires ParseLogs(logs, timeOf).Some?
    ensures SortedBy(ParseLogs(logs, timeOf).value.syncStatusList, StartTime(timeOf))
    ensures |ParseLogs(logs, timeOf).value.syncStatusList| <= CountWith(logs, IsKeyedStart)
    ensures ParseLogs(logs, timeOf).value.entityDetails.syncStatusList == ParseLogs(logs, timeOf).value.syncStatusList
  {
    var sorted := SortLogs(logs, timeOf);
    SyncCount(sorted, timeOf);
    CountPermutation(sorted, logs, IsKeyedStart);
  }

  lemma CountBound<T>(s: seq<T>, p: T -> bool)
    ensures CountWith(s, p) <= |s|
  {
  }

  /** The counters: successes and failures split the total, the error count
      counts the messages that contain `ERROR` (in any order), and the
      execution time is 0 for at most one record and otherwise the latest
      time minus the earliest, so never negative. */
  lemma MetricsShape(logs: seq<LogRecord>, timeOf: TimeOf)
    requires ParseLogs(logs, timeOf).Some?
    ensures var m := ParseLogs(logs, timeOf).value.widgetMetrics;
            && m.totalSyncs == |ParseLogs(logs, timeOf).value.syncStatusList|
            && m.successfulSyncs + m.failedSyncs == m.totalSyncs
            && 0 <= m.failedSyncs && m.successfulSyncs <= m.totalSyncs
            && m.successfulSyncs == CountWith(ParseLogs(logs, timeOf).value.syncStatusList, Succeeded)
            && m.errorLevelLogsCount == CountWith(logs, IsErrorLine)
            && m.executionTimeMs >= 0
            && (|logs| <= 1 ==> m.executionTimeMs == 0)
  {
    var sorted := SortLogs(logs, timeOf);
    CountPermutation(sorted, logs, IsErrorLine);
    CountBound(Syncs(sorted, timeOf), Succeeded);
    if |sorted| > 1 {
      assert LogTime(timeOf)(sorted[0]) <= LogTime(timeOf)(sorted[|sorted| - 1]);
    }
  }

  /** The parts of a result, each as its own function of the sorted
      records. */
  lemma ResultParts(logs: seq<LogRecord>, timeOf: TimeOf)
    requires ParseLogs(logs, timeOf).Some?
    ensures var sorted := SortLogs(logs, timeOf);
            var r := ParseLogs(logs, timeOf).value;
            && r.syncStatusList == Syncs(sorted, timeOf)
            && r.widgetMetrics == CalculateWidgetMetrics(Syncs(sorted, timeOf), sorted, timeOf)
            && r.entityDetails == BuildEntityDetails(r.entityContext, Syncs(sorted, timeOf))
  {
  }

  /** With more than one record the execution time is the span from the
      earliest to the latest timestamp of the input. */
  lemma ExecutionTimeIsSpan(logs: seq<LogRecord>, timeOf: TimeOf)
    requires ParseLogs(logs, timeOf).Some? && |logs| > 1
    ensures exists i, j :: 0 <= i < |logs| && 0 <= j < |logs|
              && ParseLogs(logs, timeOf).value.widgetMetrics.executionTimeMs == timeOf(logs[i].timeStamp) - timeOf(logs[j].timeStamp)
              && (forall k :: 0 <= k < |logs| ==> timeOf(logs[j].timeStamp) <= timeOf(logs[k].timeStamp) <= timeOf(logs[i].timeStamp))
  {
    ResultParts(logs, timeOf);
    SpanOfSorted(logs, timeOf, ParseLogs(logs, timeOf).value.syncStatusList);
  }

  lemma SpanOfSorted(logs: seq<LogRecord>, timeOf: TimeOf, syncs: seq<SyncStatus>)
    requires |logs| > 1
    ensures exists i, j :: 0 <= i < |logs| && 0 <= j < |logs|
              && CalculateWidgetMetrics(syncs, SortLogs(logs, timeOf), timeOf).executionTimeMs
                   == timeOf(logs[i].timeStamp) - timeOf(logs[j].timeStamp)
              && (forall k :: 0 <= k < |logs| ==> timeOf(logs[j].timeStamp) <= timeOf(logs[k].timeStamp) <= timeOf(logs[i].timeStamp))
  {
    var i, j := Span(logs, timeOf);
    assert CalculateWidgetMetrics(syncs, SortLogs(logs, timeOf), timeOf).executionTimeMs == ExecutionTime(SortLogs(logs, timeOf), timeOf);
  }

  lemma Span(logs: seq<LogRecord>, timeOf: TimeOf) returns (i: nat, j: nat)
    requires |logs| > 1
    ensures i < |logs| && j < |logs|
    ensures ExecutionTime(SortLogs(logs, timeOf), timeOf) == timeOf(logs[i].timeStamp) - timeOf(logs[j].timeStamp)
    ensures forall k :: 0 <= k < |logs| ==> timeOf(logs[j].timeStamp) <= timeOf(logs[k].timeStamp) <= timeOf(logs[i].timeStamp)
  {
    var key := LogTime(timeOf);
    i, j := SortByEnds(logs, key);
    assert forall k :: 0 <= k < |logs| ==> key(logs[k]) == timeOf(logs[k].timeStamp);
  }

  /** The entity details take the ids and the creation time from the sync
      that started first, and fall back to `UNKNOWN` and `''` when no sync
      was seen; the six context fields are copied. */
  lemma EntityDetailsShape(logs: seq<LogRecord>, timeOf: TimeOf)
    requires ParseLogs(logs, timeOf).Some?
    ensures var r := ParseLogs(logs, timeOf).value;
            var d := r.entityDetails;
            && d.sourceSystem == r.entityContext.sourceSystem && d.sourceEntityType == r.entityContext.sourceEntity
            && d.sourceProject == r.entityContext.sourceProject && d.targetSystem == r.entityContext.targetSystem
            && d.targetEntityType == r.entityContext.targetEntity && d.targetProject == r.entityContext.targetProject
            && (r.syncStatusList == [] ==> d.sourceEntityId == Unknown && d.targetEntityId == Unknown && d.entityCreationTime == "")
            && (r.syncStatusList != [] ==>
                  && d.entityCreationTime == r.syncStatusList[0].startSyncTime
                  && d.sourceEntityId == OrDefault(Some(r.syncStatusList[0].sourceEntityId), Unknown)
                  && d.targetEntityId == OrDefault(Some(r.syncStatusList[0].targetEntityId), Unknown)
                  && forall k :: 0 <= k < |r.syncStatusList| ==>
                       timeOf(d.entityCreationTime) <= timeOf(r.syncStatusList[k].startSyncTime))
  {
    ResultParts(logs, timeOf);
    SyncListShape(logs, timeOf);
    var r := ParseLogs(logs, timeOf).value;
    DetailsOf(r.entityContext, r.syncStatusList, timeOf);
  }

  lemma DetailsOf(ctx: EntityContext, syncs: seq<SyncStatus>, timeOf: TimeOf)
    requires SortedBy(syncs, StartTime(timeOf))
    ensures var d := BuildEntityDetails(ctx, syncs);
            && d.sourceSystem == ctx.sourceSystem && d.sourceEntityType == ctx.sourceEntity
            && d.sourceProject == ctx.sourceProject && d.targetSystem == ctx.targetSystem
            && d.targetEntityType == ctx.targetEntity && d.targetProject == ctx.targetProject
            && (syncs == [] ==> d.sourceEntityId == Unknown && d.targetEntityId == Unknown && d.entityCreationTime == "")
            && (syncs != [] ==>
                  && d.entityCreationTime == syncs[0].startSyncTime
                  && d.sourceEntityId == OrDefault(Some(syncs[0].sourceEntityId), Unknown)
                  && d.targetEntityId == OrDefault(Some(syncs[0].targetEntityId), Unknown)
                  && forall k :: 0 <= k < |syncs| ==> timeOf(d.entityCreationTime) <= timeOf(syncs[k].startSyncTime))
  {
    if syncs != [] {
      forall k | 0 <= k < |syncs|
        ensures timeOf(syncs[0].startSyncTime) <= timeOf(syncs[k].startSyncTime)
      {
        assert StartTime(timeOf)(syncs[0]) <= StartTime(timeOf)(syncs[k]);
      }
    }
  }

  /** When no two records share a timestamp, the result does not depend on
      the order of the input. */
  lemma OrderInvariant(p: seq<LogRecord>, q: seq<LogRecord>, timeOf: TimeOf)
    requires multiset(p) == multiset(q)
    requires DistinctKeys(p, LogTime(timeOf)) && DistinctKeys(q, LogTime(timeOf))
    ensures ParseLogs(p, timeOf) == ParseLogs(q, timeOf)
  {
    SortByPermutation(p, q, LogTime(timeOf));
  }
}
