/** The sync correlator of src/services/logParser.ts: a fold over the sorted
    records in which every line is dispatched to exactly one handler and
    linked, through its `[EI:<digits>]` key, to at most one in-flight sync.
    The object mutations of the source become functional updates of an
    insertion-ordered table (a JavaScript `Map`). */
module Correlator {
  import opened Optional
  import opened Text
  import opened Seqs
  import opened OrderedMap
  import opened LogTypes
  import opened Patterns
  import opened Sanitizer
  import opened Context

  /** The XML sub-state of a sync. The source's `NONE` is `Idle`; its
      `AWAIT_*` states are never entered. */
  datatype XmlState = Idle | CollectingSource | CollectingTransformed

  datatype ActiveSync = ActiveSync(
    ei: string,
    sourceEntityId: string,
    revisionId: nat,
    startSyncTime: string,
    finishedSyncTime: Option<string>,
    internalId: Option<string>,
    displayId: Option<string>,
    sourceEventXml: Option<string>,
    transformedEventXml: Option<string>,
    xmlState: XmlState)

  /** An emitted sync record (`SyncStatus` in src/types/index.ts). */
  datatype SyncStatus = SyncStatus(
    sourceEntityId: string,
    targetEntityId: string,
    revisionId: nat,
    startSyncTime: string,
    finishedSyncTime: string,
    sourceEventXml: string,
    transformedEventXml: string)

  datatype State = State(active: Table<string, ActiveSync>, completed: seq<SyncStatus>)

  const Initial := State([], [])

  /* ---------------- dispatch ---------------- */

  datatype Marker =
    | StartSync | AboutToTransform
    | SourceStart | SourceEnd | TransformedStart | TransformedEnd
    | EntityCreated | FinishSync

  function MarkerText(m: Marker): string {
    match m
    case StartSync => "Start synchronizing"
    case AboutToTransform => "About to tranform New Values"
    case SourceStart => "Source XML START"
    case SourceEnd => "Source XML END"
    case TransformedStart => "Transformed XML START"
    case TransformedEnd => "Transformed XML END"
    case EntityCreated => "Created entity information:"
    case FinishSync => "Finished synchronizing"
  }

  /** The position of a marker's test in the dispatch chain. */
  function Rank(m: Marker): nat {
    match m
    case StartSync => 0
    case AboutToTransform => 1
    case SourceStart => 2
    case SourceEnd => 3
    case TransformedStart => 4
    case TransformedEnd => 5
    case EntityCreated => 6
    case FinishSync => 7
  }

  predicate Has(msg: string, m: Marker) {
    Contains(msg, MarkerText(m))
  }

  /** The first marker in dispatch order for which `has` holds: the
      `if`/`else if` chain of `processLog`, for any test of the message. */
  function FirstMarker(has: Marker -> bool): (r: Option<Marker>)
    ensures r.Some? ==> has(r.value)
    ensures r.Some? ==> forall m: Marker :: Rank(m) < Rank(r.value) ==> !has(m)
    ensures r.None? <==> forall m: Marker :: !has(m)
  {
    if has(StartSync) then Some(StartSync)
    else if has(AboutToTransform) then Some(AboutToTransform)
    else if has(SourceStart) then Some(SourceStart)
    else if has(SourceEnd) then Some(SourceEnd)
    else if has(TransformedStart) then Some(TransformedStart)
    else if has(TransformedEnd) then Some(TransformedEnd)
    else if has(EntityCreated) then Some(EntityCreated)
    else if has(FinishSync) then Some(FinishSync)
    else
      assert forall m: Marker :: !has(m) by {
        forall m: Marker
          ensures !has(m)
        {
          assert m.StartSync? || m.AboutToTransform? || m.SourceStart? || m.SourceEnd?
                 || m.TransformedStart? || m.TransformedEnd? || m.EntityCreated? || m.FinishSync?;
        }
      }
      None
  }

  /** The handler `processLog` picks: the first marker in dispatch order
      that the message contains, or `None` for the XML-body fallback. */
  function Classify(msg: string): (r: Option<Marker>)
    ensures r.Some? ==> Has(msg, r.value)
    ensures r.Some? ==> forall m: Marker :: Rank(m) < Rank(r.value) ==> !Has(msg, m)
    ensures r.None? <==> forall m: Marker :: !Has(msg, m)
  {
    FirstMarker((m: Marker) => Has(msg, m))
  }

  /* ---------------- the handlers ---------------- */

  /** `getActiveSync`: the key of the message and the sync it names. */
  function ActiveFor(st: State, msg: string): (r: Option<(string, ActiveSync)>)
    ensures r.Some? ==> CorrelationKey(msg) == Some(r.value.0) && Get(st.active, r.value.0) == Some(r.value.1)
    ensures r.None? ==> CorrelationKey(msg).None? || Get(st.active, CorrelationKey(msg).value).None?
  {
    match CorrelationKey(msg)
    case None => None
    case Some(k) =>
      match Get(st.active, k)
      case None => None
      case Some(s) => Some((k, s))
  }

  /** Writing a mutated sync back under its key. */
  function Put(st: State, k: string, s: ActiveSync): State {
    st.(active := Set(st.active, k, s))
  }

  const EntityIdName := "Entity Id"

  /** The sync a keyed start line opens. */
  function NewSync(log: LogRecord, k: string): ActiveSync {
    ActiveSync(k, FieldOr(log.message, EntityIdName, Colon, Unknown), Revision(log.message),
               log.timeStamp, None, None, None, None, None, Idle)
  }

  function HandleStartSync(st: State, log: LogRecord): State {
    match CorrelationKey(log.message)
    case None => st
    case Some(k) => Put(st, k, NewSync(log, k))
  }

  function StartSourceXml(st: State, log: LogRecord): State {
    match ActiveFor(st, log.message)
    case None => st
    case Some((k, s)) => Put(st, k, s.(xmlState := CollectingSource, sourceEventXml := Some("")))
  }

  function EndSourceXml(st: State, log: LogRecord): State {
    match ActiveFor(st, log.message)
    case None => st
    case Some((k, s)) =>
      var xml := SanitizeXml(OrDefault(s.sourceEventXml, ""), SourceClosingTag);
      Put(st, k, s.(sourceEventXml := Some(xml), xmlState := Idle))
  }

  function StartTransformedXml(st: State, log: LogRecord): State {
    match ActiveFor(st, log.message)
    case None => st
    case Some((k, s)) => Put(st, k, s.(xmlState := CollectingTransformed, transformedEventXml := Some("")))
  }

  function EndTransformedXml(st: State, log: LogRecord): State {
    match ActiveFor(st, log.message)
    case None => st
    case Some((k, s)) =>
      var xml := SanitizeXml(OrDefault(s.transformedEventXml, ""), TransformedClosingTag);
      Put(st, k, s.(transformedEventXml := Some(xml), xmlState := Idle))
  }

  /** JavaScript's `buf += t` on a possibly undefined buffer. */
  function JsAppend(buf: Option<string>, t: string): string {
    match buf
    case None => "undefined" + t
    case Some(b) => b + t
  }

  predicate IsXmlMarkerLine(msg: string) {
    Has(msg, SourceStart) || Has(msg, SourceEnd) || Has(msg, TransformedStart) || Has(msg, TransformedEnd)
  }

  /** `collectXML`: a body line is appended, with a newline, to the buffer
      its sync is collecting. */
  function CollectXml(st: State, log: LogRecord): State {
    match ActiveFor(st, log.message)
    case None => st
    case Some((k, s)) =>
      if IsXmlMarkerLine(log.message) then st
      else if s.xmlState == CollectingSource then
        Put(st, k, s.(sourceEventXml := Some(JsAppend(s.sourceEventXml, log.message + "\n"))))
      else if s.xmlState == CollectingTransformed then
        Put(st, k, s.(transformedEventXml := Some(JsAppend(s.transformedEventXml, log.message + "\n"))))
      else st
  }

  const InternalIdName := "internal id:"
  const DisplayIdName := "display id:"

  function HandleEntityCreated(st: State, log: LogRecord): State {
    match ActiveFor(st, log.message)
    case None => st
    case Some((k, s)) =>
      Put(st, k, s.(internalId := Field(log.message, InternalIdName, Direct),
                    displayId := Field(log.message, DisplayIdName, Direct)))
  }

  /** The record a sync is emitted as, finished at `finished`. */
  function Report(s: ActiveSync, finished: string): SyncStatus {
    SyncStatus(s.sourceEntityId, OrDefault(s.displayId, Unknown), s.revisionId, s.startSyncTime,
               finished, OrDefault(s.sourceEventXml, ""), OrDefault(s.transformedEventXml, ""))
  }

  /** `handleFinishSync`: the sync is stamped, emitted and deleted under its
      own `ei`. */
  function HandleFinishSync(st: State, log: LogRecord): State {
    match ActiveFor(st, log.message)
    case None => st
    case Some((k, s)) =>
      var done := s.(finishedSyncTime := Some(log.timeStamp));
      State(Delete(Set(st.active, k, done), done.ei), st.completed + [Report(done, log.timeStamp)])
  }

  /** `processLog`. */
  function Step(st: State, log: LogRecord): State {
    Dispatch(st, log, Classify(log.message))
  }

  /** The handler for each outcome of the marker tests. */
  function Dispatch(st: State, log: LogRecord, kind: Option<Marker>): State {
    match kind
    case None => CollectXml(st, log)
    case Some(StartSync) => HandleStartSync(st, log)
    case Some(AboutToTransform) => st
    case Some(SourceStart) => StartSourceXml(st, log)
    case Some(SourceEnd) => EndSourceXml(st, log)
    case Some(TransformedStart) => StartTransformedXml(st, log)
    case Some(TransformedEnd) => EndTransformedXml(st, log)
    case Some(EntityCreated) => HandleEntityCreated(st, log)
    case Some(FinishSync) => HandleFinishSync(st, log)
  }

  /** The `for (const log of this.logs)` loop of `parse`. */
  function Run(st: State, logs: seq<LogRecord>): State
    decreases |logs|
  {
    if logs == [] then st else Run(Step(st, logs[0]), logs[1..])
  }

  /** The records of the syncs still active, in table order. */
  function Leftovers(t: Table<string, ActiveSync>): (r: seq<SyncStatus>)
    ensures |r| == |t|
    ensures forall i :: 0 <= i < |t| ==>
              r[i] == Report(t[i].1, OrDefault(t[i].1.finishedSyncTime, t[i].1.startSyncTime))
    decreases |t|
  {
    if t == [] then [] else [Report(t[0].1, OrDefault(t[0].1.finishedSyncTime, t[0].1.startSyncTime))] + Leftovers(t[1..])
  }

  /** `finalizeIncompleteSyncs`. */
  function Finalize(st: State): State {
    State([], st.completed + Leftovers(st.active))
  }
  /* ---------------- the invariant of the table ---------------- */

  /** What every active entry keeps: it sits under its own `ei`, it is not
      finished, and the buffer it collects into exists. */
  ghost predicate GoodEntry(k: string, s: ActiveSync) {
    s.ei == k && s.finishedSyncTime.None?
    && (s.xmlState == CollectingSource ==> s.sourceEventXml.Some?)
    && (s.xmlState == CollectingTransformed ==> s.transformedEventXml.Some?)
  }

  ghost predicate WellFormed(st: State) {
    KeysUnique(st.active)
    && forall i :: 0 <= i < |st.active| ==> GoodEntry(st.active[i].0, st.active[i].1)
  }

  lemma GetGood(st: State, k: string, s: ActiveSync)
    requires WellFormed(st) && Get(st.active, k) == Some(s)
    ensures GoodEntry(k, s)
  {
  }

  lemma PutGood(st: State, k: string, s: ActiveSync)
    requires WellFormed(st) && GoodEntry(k, s)
    ensures WellFormed(Put(st, k, s))
  {
    SetKeepsUnique(st.active, k, s);
    SetEntries(st.active, k, s);
  }

  /** Rewriting an active sync keeps the table well formed as long as the
      new value keeps its `ei`, stays unfinished and has the buffer it
      collects into. */
  lemma UpdateGood(st: State, k: string, s: ActiveSync, s': ActiveSync)
    requires WellFormed(st) && Get(st.active, k) == Some(s)
    requires s'.ei == s.ei && s'.finishedSyncTime == s.finishedSyncTime
    requires s'.xmlState == CollectingSource ==> s'.sourceEventXml.Some?
    requires s'.xmlState == CollectingTransformed ==> s'.transformedEventXml.Some?
    ensures WellFormed(Put(st, k, s'))
  {
    GetGood(st, k, s);
    PutGood(st, k, s');
  }

  lemma StartGood(st: State, log: LogRecord)
    requires WellFormed(st)
    ensures WellFormed(HandleStartSync(st, log))
  {
    match CorrelationKey(log.message)
    case None =>
    case Some(k) => PutGood(st, k, NewSync(log, k));
  }

  lemma XmlBoundaryGood(st: State, log: LogRecord)
    requires WellFormed(st)
    ensures WellFormed(StartSourceXml(st, log)) && WellFormed(EndSourceXml(st, log))
    ensures WellFormed(StartTransformedXml(st, log)) && WellFormed(EndTransformedXml(st, log))
  {
    match ActiveFor(st, log.message)
    case None =>
    case Some((k, s)) =>
      UpdateGood(st, k, s, s.(xmlState := CollectingSource, sourceEventXml := Some("")));
      UpdateGood(st, k, s, s.(sourceEventXml := Some(SanitizeXml(OrDefault(s.sourceEventXml, ""), SourceClosingTag)),
                              xmlState := Idle));
      UpdateGood(st, k, s, s.(xmlState := CollectingTransformed, transformedEventXml := Some("")));
      UpdateGood(st, k, s, s.(transformedEventXml := Some(SanitizeXml(OrDefault(s.transformedEventXml, ""), TransformedClosingTag)),
                              xmlState := Idle));
  }

  lemma CollectGood(st: State, log: LogRecord)
    requires WellFormed(st)
    ensures WellFormed(CollectXml(st, log))
  {
    match ActiveFor(st, log.message)
    case None =>
    case Some((k, s)) =>
      if !IsXmlMarkerLine(log.message) {
        if s.xmlState == CollectingSource {
          UpdateGood(st, k, s, s.(sourceEventXml := Some(JsAppend(s.sourceEventXml, log.message + "\n"))));
        } else if s.xmlState == CollectingTransformed {
          UpdateGood(st, k, s, s.(transformedEventXml := Some(JsAppend(s.transformedEventXml, log.message + "\n"))));
        }
      }
  }

  lemma CreatedGood(st: State, log: LogRecord)
    requires WellFormed(st)
    ensures WellFormed(HandleEntityCreated(st, log))
  {
    match ActiveFor(st, log.message)
    case None =>
    case Some((k, s)) =>
      UpdateGood(st, k, s, s.(internalId := Field(log.message, InternalIdName, Direct),
                              displayId := Field(log.message, DisplayIdName, Direct)));
  }

  lemma FinishGood(st: State, log: LogRecord)
    requires WellFormed(st)
    ensures WellFormed(HandleFinishSync(st, log))
  {
    match ActiveFor(st, log.message)
    case None =>
    case Some((k, s)) =>
      GetGood(st, k, s);
      var done := s.(finishedSyncTime := Some(log.timeStamp));
      DeleteAfterSet(st.active, k, done);
      DeleteKeepsUnique(st.active, k);
      DeleteSubset(st.active, k);
  }

  lemma DispatchWellFormed(st: State, log: LogRecord, kind: Option<Marker>)
    requires WellFormed(st)
    ensures WellFormed(Dispatch(st, log, kind))
  {
    match kind
    case None => CollectGood(st, log);
    case Some(StartSync) => StartGood(st, log);
    case Some(AboutToTransform) =>
    case Some(SourceStart) => XmlBoundaryGood(st, log);
    case Some(SourceEnd) => XmlBoundaryGood(st, log);
    case Some(TransformedStart) => XmlBoundaryGood(st, log);
    case Some(TransformedEnd) => XmlBoundaryGood(st, log);
    case Some(EntityCreated) => CreatedGood(st, log);
    case Some(FinishSync) => FinishGood(st, log);
  }

  /** Every line keeps the table well formed. */
  lemma StepWellFormed(st: State, log: LogRecord)
    requires WellFormed(st)
    ensures WellFormed(Step(st, log))
  {
    DispatchWellFormed(st, log, Classify(log.message));
  }

  lemma {:induction false} RunWellFormed(st: State, logs: seq<LogRecord>)
    requires WellFormed(st)
    ensures WellFormed(Run(st, logs))
    decreases |logs|
  {
    if logs != [] {
      StepWellFormed(st, logs[0]);
      RunWellFormed(Step(st, logs[0]), logs[1..]);
    }
  }

  lemma InitialWellFormed()
    ensures WellFormed(Initial)
  {
  }

  /* ---------------- what a single line does ---------------- */

  lemma DispatchUnkeyed(st: State, log: LogRecord, kind: Option<Marker>)
    requires CorrelationKey(log.message).None?
    ensures Dispatch(st, log, kind) == st
  {
  }

  lemma DispatchInactive(st: State, log: LogRecord, kind: Option<Marker>)
    requires CorrelationKey(log.message).Some? && CorrelationKey(log.message).value !in Keys(st.active)
    requires kind != Some(StartSync)
    ensures Dispatch(st, log, kind) == st
  {
  }

  /** A line without a key, a line whose key names no active sync (unless it
      opens one), and an `About to tranform New Values` line leave the whole
      state as it is, whatever XML is being collected. */
  lemma StepLeavesStateAlone(st: State, log: LogRecord)
    ensures CorrelationKey(log.message).None? ==> Step(st, log) == st
    ensures (CorrelationKey(log.message).Some? && CorrelationKey(log.message).value !in Keys(st.active)
             && !Has(log.message, StartSync)) ==> Step(st, log) == st
    ensures (Has(log.message, AboutToTransform) && !Has(log.message, StartSync)) ==> Step(st, log) == st
  {
    var kind := Classify(log.message);
    if CorrelationKey(log.message).None? {
      DispatchUnkeyed(st, log, kind);
    } else if CorrelationKey(log.message).value !in Keys(st.active) && !Has(log.message, StartSync) {
      DispatchInactive(st, log, kind);
    }
  }

  /** A keyed start line writes a fresh sync under its key. */
  lemma StartStep(st: State, log: LogRecord, k: string)
    requires Has(log.message, StartSync) && CorrelationKey(log.message) == Some(k)
    ensures Step(st, log) == State(Set(st.active, k, NewSync(log, k)), st.completed)
  {
    StepDispatches(st, log);
  }

  /** A keyed start line opens a fresh sync under its key, replacing one
      already there, and touches no other key and no emitted record. */
  lemma StartOpens(st: State, log: LogRecord, k: string)
    requires Has(log.message, StartSync) && CorrelationKey(log.message) == Some(k)
    ensures Get(Step(st, log).active, k) == Some(NewSync(log, k))
    ensures forall k' :: k' != k ==> Get(Step(st, log).active, k') == Get(st.active, k')
    ensures Step(st, log).completed == st.completed
  {
    StartStep(st, log, k);
    var t := Set(st.active, k, NewSync(log, k));
    forall k' ensures Get(t, k') == if k' == k then Some(NewSync(log, k)) else Get(st.active, k') {
      GetSet(st.active, k, NewSync(log, k), k');
    }
  }

  /** The key of a start line stays where it was, or goes last when new. */
  lemma StartKeyOrder(st: State, log: LogRecord, k: string)
    requires Has(log.message, StartSync) && CorrelationKey(log.message) == Some(k)
    ensures Keys(Step(st, log).active) == if k in Keys(st.active) then Keys(st.active) else Keys(st.active) + [k]
  {
    StartStep(st, log, k);
  }

  /** On a table with unique keys, the fresh sync takes the place of the
      one already under its key and every other entry stays put. */
  lemma StartReplacesInPlace(st: State, log: LogRecord, k: string)
    requires Has(log.message, StartSync) && CorrelationKey(log.message) == Some(k)
    requires KeysUnique(st.active) && k in Keys(st.active)
    ensures |Step(st, log).active| == |st.active|
    ensures forall i :: 0 <= i < |st.active| ==>
              Step(st, log).active[i] == if st.active[i].0 == k then (k, NewSync(log, k)) else st.active[i]
  {
    StartStep(st, log, k);
    SetInPlace(st.active, k, NewSync(log, k));
  }

  /** The sync a start line opens: the entity id defaults to `UNKNOWN`, the
      revision to 0, and it starts at the line's timestamp with no XML. */
  lemma NewSyncFields(log: LogRecord, k: string)
    ensures NewSync(log, k).ei == k && NewSync(log, k).startSyncTime == log.timeStamp
    ensures NewSync(log, k).sourceEntityId != ""
    ensures !Contains(log.message, EntityIdName) ==> NewSync(log, k).sourceEntityId == Unknown
    ensures !Contains(log.message, RevisionName) ==> NewSync(log, k).revisionId == 0
    ensures NewSync(log, k).sourceEventXml.None? && NewSync(log, k).transformedEventXml.None?
    ensures NewSync(log, k).xmlState == Idle && NewSync(log, k).finishedSyncTime.None?
  {
  }

  lemma ActiveForOf(st: State, log: LogRecord, k: string, s: ActiveSync)
    requires CorrelationKey(log.message) == Some(k) && Get(st.active, k) == Some(s)
    ensures ActiveFor(st, log.message) == Some((k, s))
  {
  }

  lemma CollectXmlAppends(st: State, log: LogRecord, k: string, s: ActiveSync)
    requires ActiveFor(st, log.message) == Some((k, s)) && !IsXmlMarkerLine(log.message)
    requires s.xmlState == CollectingSource ==> s.sourceEventXml.Some?
    requires s.xmlState == CollectingTransformed ==> s.transformedEventXml.Some?
    ensures s.xmlState == CollectingSource ==>
              CollectXml(st, log) == Put(st, k, s.(sourceEventXml := Some(s.sourceEventXml.value + (log.message + "\n"))))
    ensures s.xmlState == CollectingTransformed ==>
              CollectXml(st, log) == Put(st, k, s.(transformedEventXml := Some(s.transformedEventXml.value + (log.message + "\n"))))
    ensures s.xmlState == Idle ==> CollectXml(st, log) == st
  {
  }

  /** Reading a table after `Put`. */
  lemma GetPut(st: State, k: string, v: ActiveSync)
    ensures Get(Put(st, k, v).active, k) == Some(v)
    ensures forall k' :: k' != k ==> Get(Put(st, k, v).active, k') == Get(st.active, k')
  {
    forall k' ensures Get(Put(st, k, v).active, k') == if k' == k then Some(v) else Get(st.active, k') {
      GetSet(st.active, k, v, k');
    }
  }

  /** A body line appends exactly the message and a newline to the buffer
      its sync is collecting, and nothing else changes. */
  lemma CollectAppends(st: State, log: LogRecord, k: string, s: ActiveSync)
    requires WellFormed(st)
    requires forall m: Marker :: !Has(log.message, m)
    requires CorrelationKey(log.message) == Some(k) && Get(st.active, k) == Some(s)
    ensures s.xmlState == CollectingSource ==>
              Get(Step(st, log).active, k) == Some(s.(sourceEventXml := Some(s.sourceEventXml.value + (log.message + "\n"))))
    ensures s.xmlState == CollectingTransformed ==>
              Get(Step(st, log).active, k) == Some(s.(transformedEventXml := Some(s.transformedEventXml.value + (log.message + "\n"))))
    ensures s.xmlState == Idle ==> Step(st, log) == st
    ensures forall k' :: k' != k ==> Get(Step(st, log).active, k') == Get(st.active, k')
    ensures Step(st, log).completed == st.completed
  {
    assert Classify(log.message).None?;
    assert !IsXmlMarkerLine(log.message);
    assert Step(st, log) == CollectXml(st, log);
    GetGood(st, k, s);
    ActiveForOf(st, log, k, s);
    CollectXmlAppends(st, log, k, s);
    if s.xmlState == CollectingSource {
      GetPut(st, k, s.(sourceEventXml := Some(s.sourceEventXml.value + (log.message + "\n"))));
    } else if s.xmlState == CollectingTransformed {
      GetPut(st, k, s.(transformedEventXml := Some(s.transformedEventXml.value + (log.message + "\n"))));
    }
  }

  /* ---------------- what the XML markers and the created line do ---------------- */

  /** `Step` on the XML marker lines and the created line is the handler the
      marker names. */
  lemma StepMarkerHandlers(st: State, log: LogRecord)
    ensures Classify(log.message) == Some(SourceStart) ==> Step(st, log) == StartSourceXml(st, log)
    ensures Classify(log.message) == Some(SourceEnd) ==> Step(st, log) == EndSourceXml(st, log)
    ensures Classify(log.message) == Some(TransformedStart) ==> Step(st, log) == StartTransformedXml(st, log)
    ensures Classify(log.message) == Some(TransformedEnd) ==> Step(st, log) == EndTransformedXml(st, log)
    ensures Classify(log.message) == Some(EntityCreated) ==> Step(st, log) == HandleEntityCreated(st, log)
  {
    var kind := Classify(log.message);
    assert Step(st, log) == Dispatch(st, log, kind);
    match kind
    case None =>
    case Some(m) =>
  }

  /** An opening marker puts its sync into collection with an empty buffer,
      dropping whatever that buffer held; the other buffer, the other syncs
      and the emitted records stay. */
  lemma XmlStartOpensBuffer(st: State, log: LogRecord, k: string, s: ActiveSync)
    requires Classify(log.message) == Some(SourceStart) || Classify(log.message) == Some(TransformedStart)
    requires CorrelationKey(log.message) == Some(k) && Get(st.active, k) == Some(s)
    ensures Get(Step(st, log).active, k).Some?
    ensures Classify(log.message) == Some(SourceStart) ==>
              var s' := Get(Step(st, log).active, k).value;
              s'.xmlState == CollectingSource && s'.sourceEventXml == Some("")
              && s' == s.(xmlState := s'.xmlState, sourceEventXml := s'.sourceEventXml)
    ensures Classify(log.message) == Some(TransformedStart) ==>
              var s' := Get(Step(st, log).active, k).value;
              s'.xmlState == CollectingTransformed && s'.transformedEventXml == Some("")
              && s' == s.(xmlState := s'.xmlState, transformedEventXml := s'.transformedEventXml)
    ensures forall k' :: k' != k ==> Get(Step(st, log).active, k') == Get(st.active, k')
    ensures Step(st, log).completed == st.completed
  {
    StepMarkerHandlers(st, log);
    ActiveForOf(st, log, k, s);
    if Classify(log.message) == Some(SourceStart) {
      GetPut(st, k, s.(xmlState := CollectingSource, sourceEventXml := Some("")));
    } else {
      GetPut(st, k, s.(xmlState := CollectingTransformed, transformedEventXml := Some("")));
    }
  }

  /** The document a closing marker stores: it opens with `<?xml` and ends
      with the closing tag when the buffer holds the declaration before the
      last closing tag, and it is empty when either is missing. */
  predicate StoresDocument(buffer: string, tag: string, doc: string) {
    (Contains(buffer, XmlDeclaration) && LastIndexOf(buffer, tag) != -1
     && IndexOf(buffer, XmlDeclaration) < LastIndexOf(buffer, tag)
     ==> StartsWith(doc, XmlDeclaration) && EndsWith(doc, tag))
    && (!Contains(buffer, XmlDeclaration) || LastIndexOf(buffer, tag) == -1 ==> doc == "")
  }

  lemma SanitizedIsDocument(buffer: string, tag: string)
    requires tag == SourceClosingTag || tag == TransformedClosingTag
    ensures StoresDocument(buffer, tag, SanitizeXml(buffer, tag))
  {
    LiteralTagsWellFormed();
    if Contains(buffer, XmlDeclaration) && LastIndexOf(buffer, tag) != -1
       && IndexOf(buffer, XmlDeclaration) < LastIndexOf(buffer, tag) {
      SanitizeExtracts(buffer, tag);
    }
    if !Contains(buffer, XmlDeclaration) || LastIndexOf(buffer, tag) == -1 {
      SanitizeMissing(buffer, tag);
    }
  }

  /** A closing marker ends collection and replaces the buffer with what
      `sanitizeXML` cuts out of it: a document from `<?xml` through the last
      closing tag when the declaration comes first, the empty string when
      either is missing, and otherwise the swapped `substring` range (see
      `SanitizeSwapsBounds`). The other buffer, the other syncs and the
      emitted records stay. */
  lemma XmlEndStoresDocument(st: State, log: LogRecord, k: string, s: ActiveSync)
    requires Classify(log.message) == Some(SourceEnd) || Classify(log.message) == Some(TransformedEnd)
    requires CorrelationKey(log.message) == Some(k) && Get(st.active, k) == Some(s)
    ensures Get(Step(st, log).active, k).Some?
    ensures Classify(log.message) == Some(SourceEnd) ==>
              var s' := Get(Step(st, log).active, k).value;
              s'.xmlState == Idle
              && s'.sourceEventXml == Some(SanitizeXml(OrDefault(s.sourceEventXml, ""), SourceClosingTag))
              && StoresDocument(OrDefault(s.sourceEventXml, ""), SourceClosingTag, s'.sourceEventXml.value)
              && s' == s.(xmlState := Idle, sourceEventXml := s'.sourceEventXml)
    ensures Classify(log.message) == Some(TransformedEnd) ==>
              var s' := Get(Step(st, log).active, k).value;
              s'.xmlState == Idle
              && s'.transformedEventXml == Some(SanitizeXml(OrDefault(s.transformedEventXml, ""), TransformedClosingTag))
              && StoresDocument(OrDefault(s.transformedEventXml, ""), TransformedClosingTag, s'.transformedEventXml.value)
              && s' == s.(xmlState := Idle, transformedEventXml := s'.transformedEventXml)
    ensures forall k' :: k' != k ==> Get(Step(st, log).active, k') == Get(st.active, k')
    ensures Step(st, log).completed == st.completed
  {
    StepMarkerHandlers(st, log);
    ActiveForOf(st, log, k, s);
    if Classify(log.message) == Some(SourceEnd) {
      var b := OrDefault(s.sourceEventXml, "");
      SanitizedIsDocument(b, SourceClosingTag);
      GetPut(st, k, s.(sourceEventXml := Some(SanitizeXml(b, SourceClosingTag)), xmlState := Idle));
    } else {
      var b := OrDefault(s.transformedEventXml, "");
      SanitizedIsDocument(b, TransformedClosingTag);
      GetPut(st, k, s.(transformedEventXml := Some(SanitizeXml(b, TransformedClosingTag)), xmlState := Idle));
    }
  }

  /** A created line records the line's `internal id:` and `display id:`
      values on its sync, and the display id becomes the target the sync is
      reported with, `UNKNOWN` when the line has none; the other syncs and
      the emitted records stay. */
  lemma CreatedRecordsIds(st: State, log: LogRecord, k: string, s: ActiveSync)
    requires Classify(log.message) == Some(EntityCreated)
    requires CorrelationKey(log.message) == Some(k) && Get(st.active, k) == Some(s)
    ensures Get(Step(st, log).active, k).Some?
    ensures var s' := Get(Step(st, log).active, k).value;
            s'.internalId == Field(log.message, InternalIdName, Direct)
            && s'.displayId == Field(log.message, DisplayIdName, Direct)
            && s' == s.(internalId := s'.internalId, displayId := s'.displayId)
    ensures forall t :: Report(Get(Step(st, log).active, k).value, t).targetEntityId
                        == FieldOr(log.message, DisplayIdName, Direct, Unknown)
    ensures !Contains(log.message, DisplayIdName) ==>
              forall t :: Report(Get(Step(st, log).active, k).value, t).targetEntityId == Unknown
    ensures forall k' :: k' != k ==> Get(Step(st, log).active, k') == Get(st.active, k')
    ensures Step(st, log).completed == st.completed
  {
    StepMarkerHandlers(st, log);
    ActiveForOf(st, log, k, s);
    GetPut(st, k, s.(internalId := Field(log.message, InternalIdName, Direct),
                     displayId := Field(log.message, DisplayIdName, Direct)));
  }

  lemma FinishEffect(st: State, log: LogRecord, k: string, s: ActiveSync)
    requires CorrelationKey(log.message) == Some(k) && Get(st.active, k) == Some(s) && s.ei == k
    ensures HandleFinishSync(st, log) == State(Delete(st.active, k), st.completed + [Report(s, log.timeStamp)])
  {
    DeleteAfterSet(st.active, k, s.(finishedSyncTime := Some(log.timeStamp)));
  }

  /** A finish line emits its sync, finished at the line's timestamp and
      with `displayId` (or `UNKNOWN`) as target, and removes it from the
      table; the other syncs stay. */
  lemma FinishEmits(st: State, log: LogRecord, k: string, s: ActiveSync)
    requires WellFormed(st)
    requires Classify(log.message) == Some(FinishSync)
    requires CorrelationKey(log.message) == Some(k) && Get(st.active, k) == Some(s)
    ensures Step(st, log).completed == st.completed + [Report(s, log.timeStamp)]
    ensures Report(s, log.timeStamp).finishedSyncTime == log.timeStamp
    ensures Report(s, log.timeStamp).targetEntityId == OrDefault(s.displayId, Unknown)
    ensures Get(Step(st, log).active, k).None?
    ensures forall k' :: k' != k ==> Get(Step(st, log).active, k') == Get(st.active, k')
    ensures ToMap(Step(st, log).active) == ToMap(st.active) - {k}
  {
    GetGood(st, k, s);
    FinishStep(st, log, k, s);
    DeleteIsRemove(st.active, k);
    GetDeleteAll(st.active, k);
  }

  lemma FinishStep(st: State, log: LogRecord, k: string, s: ActiveSync)
    requires Classify(log.message) == Some(FinishSync)
    requires CorrelationKey(log.message) == Some(k) && Get(st.active, k) == Some(s) && s.ei == k
    ensures Step(st, log) == State(Delete(st.active, k), st.completed + [Report(s, log.timeStamp)])
  {
    StepDispatches(st, log);
    FinishEffect(st, log, k, s);
  }

  /** `Step` is the handler its classification names. */
  lemma StepDispatches(st: State, log: LogRecord)
    ensures Classify(log.message) == Some(FinishSync) ==> Step(st, log) == HandleFinishSync(st, log)
    ensures Classify(log.message) == Some(StartSync) ==> Step(st, log) == HandleStartSync(st, log)
    ensures Classify(log.message).None? ==> Step(st, log) == CollectXml(st, log)
  {
    var kind := Classify(log.message);
    assert Step(st, log) == Dispatch(st, log, kind);
    match kind
    case None =>
    case Some(m) =>
  }

  lemma GetDeleteAll(t: Table<string, ActiveSync>, k: string)
    ensures Get(Delete(t, k), k).None?
    ensures forall k' :: k' != k ==> Get(Delete(t, k), k') == Get(t, k')
  {
    forall k' ensures Get(Delete(t, k), k') == if k' == k then None else Get(t, k') {
      GetDelete(t, k, k');
    }
  }

  lemma StartOther(st: State, log: LogRecord, k': string)
    requires CorrelationKey(log.message) != Some(k')
    ensures Get(HandleStartSync(st, log).active, k') == Get(st.active, k')
  {
    match CorrelationKey(log.message)
    case None =>
    case Some(k) => GetPut(st, k, NewSync(log, k));
  }

  lemma XmlBoundaryOther(st: State, log: LogRecord, k': string)
    requires CorrelationKey(log.message) != Some(k')
    ensures Get(StartSourceXml(st, log).active, k') == Get(st.active, k')
    ensures Get(EndSourceXml(st, log).active, k') == Get(st.active, k')
    ensures Get(StartTransformedXml(st, log).active, k') == Get(st.active, k')
    ensures Get(EndTransformedXml(st, log).active, k') == Get(st.active, k')
  {
    match ActiveFor(st, log.message)
    case None =>
    case Some((k, s)) =>
      GetPut(st, k, s.(xmlState := CollectingSource, sourceEventXml := Some("")));
      GetPut(st, k, s.(sourceEventXml := Some(SanitizeXml(OrDefault(s.sourceEventXml, ""), SourceClosingTag)),
                       xmlState := Idle));
      GetPut(st, k, s.(xmlState := CollectingTransformed, transformedEventXml := Some("")));
      GetPut(st, k, s.(transformedEventXml := Some(SanitizeXml(OrDefault(s.transformedEventXml, ""), TransformedClosingTag)),
                       xmlState := Idle));
  }

  lemma CollectOther(st: State, log: LogRecord, k': string)
    requires CorrelationKey(log.message) != Some(k')
    ensures Get(CollectXml(st, log).active, k') == Get(st.active, k')
  {
    match ActiveFor(st, log.message)
    case None =>
    case Some((k, s)) =>
      if IsXmlMarkerLine(log.message) {
      } else if s.xmlState == CollectingSource {
        GetPut(st, k, s.(sourceEventXml := Some(JsAppend(s.sourceEventXml, log.message + "\n"))));
      } else if s.xmlState == CollectingTransformed {
        GetPut(st, k, s.(transformedEventXml := Some(JsAppend(s.transformedEventXml, log.message + "\n"))));
      }
  }

  lemma CreatedOther(st: State, log: LogRecord, k': string)
    requires CorrelationKey(log.message) != Some(k')
    ensures Get(HandleEntityCreated(st, log).active, k') == Get(st.active, k')
  {
    match ActiveFor(st, log.message)
    case None =>
    case Some((k, s)) =>
      GetPut(st, k, s.(internalId := Field(log.message, InternalIdName, Direct),
                       displayId := Field(log.message, DisplayIdName, Direct)));
  }

  lemma FinishOther(st: State, log: LogRecord, k': string)
    requires WellFormed(st) && CorrelationKey(log.message) != Some(k')
    ensures Get(HandleFinishSync(st, log).active, k') == Get(st.active, k')
  {
    match ActiveFor(st, log.message)
    case None =>
    case Some((k, s)) =>
      GetGood(st, k, s);
      FinishEffect(st, log, k, s);
      GetDelete(st.active, k, k');
  }

  lemma DispatchOtherKeys(st: State, log: LogRecord, kind: Option<Marker>, k': string)
    requires WellFormed(st) && CorrelationKey(log.message) != Some(k')
    ensures Get(Dispatch(st, log, kind).active, k') == Get(st.active, k')
  {
    match kind
    case None => CollectOther(st, log, k');
    case Some(StartSync) => StartOther(st, log, k');
    case Some(AboutToTransform) =>
    case Some(SourceStart) => XmlBoundaryOther(st, log, k');
    case Some(SourceEnd) => XmlBoundaryOther(st, log, k');
    case Some(TransformedStart) => XmlBoundaryOther(st, log, k');
    case Some(TransformedEnd) => XmlBoundaryOther(st, log, k');
    case Some(EntityCreated) => CreatedOther(st, log, k');
    case Some(FinishSync) => FinishOther(st, log, k');
  }

  /** A line only ever changes the sync its own key names. */
  lemma OtherKeysUntouched(st: State, log: LogRecord, k': string)
    requires WellFormed(st) && CorrelationKey(log.message) != Some(k')
    ensures Get(Step(st, log).active, k') == Get(st.active, k')
  {
    DispatchOtherKeys(st, log, Classify(log.message), k');
  }
  /* ---------------- counting and the emitted records ---------------- */

  /** A start line that carries a key: the only kind of line that can add
      a sync. */
  predicate IsKeyedStart(l: LogRecord) {
    Classify(l.message) == Some(StartSync) && CorrelationKey(l.message).Some?
  }

  /** The syncs the state holds: active and emitted. */
  function Size(st: State): nat {
    |st.active| + |st.completed|
  }

  lemma PutPresent(st: State, k: string, v: ActiveSync)
    requires k in Keys(st.active)
    ensures Size(Put(st, k, v)) == Size(st) && Put(st, k, v).completed == st.completed
  {
    assert |Keys(Set(st.active, k, v))| == |Keys(st.active)|;
  }

  lemma GetPresent(st: State, k: string, s: ActiveSync)
    requires Get(st.active, k) == Some(s)
    ensures k in Keys(st.active)
  {
  }

  lemma XmlBoundarySize(st: State, log: LogRecord)
    ensures Size(StartSourceXml(st, log)) == Size(st) && StartSourceXml(st, log).completed == st.completed
    ensures Size(EndSourceXml(st, log)) == Size(st) && EndSourceXml(st, log).completed == st.completed
    ensures Size(StartTransformedXml(st, log)) == Size(st) && StartTransformedXml(st, log).completed == st.completed
    ensures Size(EndTransformedXml(st, log)) == Size(st) && EndTransformedXml(st, log).completed == st.completed
  {
    match ActiveFor(st, log.message)
    case None =>
    case Some((k, s)) =>
      GetPresent(st, k, s);
      PutPresent(st, k, s.(xmlState := CollectingSource, sourceEventXml := Some("")));
      PutPresent(st, k, s.(sourceEventXml := Some(SanitizeXml(OrDefault(s.sourceEventXml, ""), SourceClosingTag)),
                           xmlState := Idle));
      PutPresent(st, k, s.(xmlState := CollectingTransformed, transformedEventXml := Some("")));
      PutPresent(st, k, s.(transformedEventXml := Some(SanitizeXml(OrDefault(s.transformedEventXml, ""), TransformedClosingTag)),
                           xmlState := Idle));
  }

  lemma CollectSize(st: State, log: LogRecord)
    ensures Size(CollectXml(st, log)) == Size(st) && CollectXml(st, log).completed == st.completed
  {
    match ActiveFor(st, log.message)
    case None =>
    case Some((k, s)) =>
      GetPresent(st, k, s);
      if IsXmlMarkerLine(log.message) {
      } else if s.xmlState == CollectingSource {
        PutPresent(st, k, s.(sourceEventXml := Some(JsAppend(s.sourceEventXml, log.message + "\n"))));
      } else if s.xmlState == CollectingTransformed {
        PutPresent(st, k, s.(transformedEventXml := Some(JsAppend(s.transformedEventXml, log.message + "\n"))));
      }
  }

  lemma CreatedSize(st: State, log: LogRecord)
    ensures Size(HandleEntityCreated(st, log)) == Size(st) && HandleEntityCreated(st, log).completed == st.completed
  {
    match ActiveFor(st, log.message)
    case None =>
    case Some((k, s)) =>
      GetPresent(st, k, s);
      PutPresent(st, k, s.(internalId := Field(log.message, InternalIdName, Direct),
                           displayId := Field(log.message, DisplayIdName, Direct)));
  }

  lemma StartSize(st: State, log: LogRecord)
    ensures Size(HandleStartSync(st, log)) <= Size(st) + (if CorrelationKey(log.message).Some? then 1 else 0)
    ensures HandleStartSync(st, log).completed == st.completed
  {
    match CorrelationKey(log.message)
    case None =>
    case Some(k) =>
      assert |Keys(Set(st.active, k, NewSync(log, k)))| <= |Keys(st.active)| + 1;
  }

  lemma FinishSize(st: State, log: LogRecord)
    requires WellFormed(st)
    ensures Size(HandleFinishSync(st, log)) <= Size(st)
    ensures st.completed <= HandleFinishSync(st, log).completed
  {
    match ActiveFor(st, log.message)
    case None =>
    case Some((k, s)) =>
      GetGood(st, k, s);
      GetPresent(st, k, s);
      FinishEffect(st, log, k, s);
      var c := st.completed + [Report(s, log.timeStamp)];
      assert c[..|st.completed|] == st.completed;
  }

  lemma DispatchSize(st: State, log: LogRecord, kind: Option<Marker>)
    requires WellFormed(st)
    ensures Size(Dispatch(st, log, kind)) <= Size(st) + (if kind == Some(StartSync) && CorrelationKey(log.message).Some? then 1 else 0)
    ensures st.completed <= Dispatch(st, log, kind).completed
  {
    match kind
    case None => CollectSize(st, log);
    case Some(StartSync) => StartSize(st, log);
    case Some(AboutToTransform) =>
    case Some(SourceStart) => XmlBoundarySize(st, log);
    case Some(SourceEnd) => XmlBoundarySize(st, log);
    case Some(TransformedStart) => XmlBoundarySize(st, log);
    case Some(TransformedEnd) => XmlBoundarySize(st, log);
    case Some(EntityCreated) => CreatedSize(st, log);
    case Some(FinishSync) => FinishSize(st, log);
  }

  /** Over a run, the syncs held grow by at most one per keyed start line,
      and records once emitted are never changed or dropped. */
  lemma {:induction false} RunSize(st: State, logs: seq<LogRecord>)
    requires WellFormed(st)
    ensures Size(Run(st, logs)) <= Size(st) + CountWith(logs, IsKeyedStart)
    ensures st.completed <= Run(st, logs).completed
    decreases |logs|
  {
    if logs != [] {
      var st' := Step(st, logs[0]);
      DispatchSize(st, logs[0], Classify(logs[0].message));
      StepWellFormed(st, logs[0]);
      RunSize(st', logs[1..]);
      assert CountWith(logs, IsKeyedStart) == (if IsKeyedStart(logs[0]) then 1 else 0) + CountWith(logs[1..], IsKeyedStart);
    }
  }

  /** At the end of the stream every sync still active is emitted, in table
      order, as finished when it started and with whatever XML it holds;
      the table is left empty. */
  lemma FinalizeEmitsLeftovers(st: State)
    requires WellFormed(st)
    ensures Finalize(st).active == []
    ensures |Finalize(st).completed| == Size(st)
    ensures st.completed <= Finalize(st).completed
    ensures forall i :: 0 <= i < |st.active| ==>
              Finalize(st).completed[|st.completed| + i] == Report(st.active[i].1, st.active[i].1.startSyncTime)
    ensures forall i :: |st.completed| <= i < Size(st) ==>
              Finalize(st).completed[i].finishedSyncTime == Finalize(st).completed[i].startSyncTime
  {
    var c := Finalize(st).completed;
    assert c[..|st.completed|] == st.completed;
    forall i | |st.completed| <= i < Size(st)
      ensures c[i] == Report(st.active[i - |st.completed|].1, st.active[i - |st.completed|].1.startSyncTime)
    {
      var e := st.active[i - |st.completed|];
      assert GoodEntry(e.0, e.1);
    }
  }
}
