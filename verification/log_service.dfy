/** The log search of src/services/logService.ts: `filterLogs`, a chain of
    filters each applied only when its parameter is given, and
    `getLogsWithContext`, which widens every matched record into a window of
    its neighbours. */
module LogService {
  import opened Optional
  import opened Text
  import opened Seqs
  import opened Sorting
  import opened LogTypes

  /** `LogSearchParams` as `filterLogs` reads it; an absent `fuzzySearch`
      is `false`. */
  datatype SearchParams = SearchParams(
    keyword: Option<string>,
    logLevels: Option<seq<LogLevel>>,
    startTime: Option<string>,
    endTime: Option<string>,
    logClasses: Option<seq<string>>,
    jenkinsServers: Option<seq<string>>,
    fuzzySearch: bool)

  /** The fuzzy matcher (Fuse.js) is a library the model does not contain;
      it is passed in. */
  type FuzzySearch = (seq<LogRecord>, string) -> seq<LogRecord>

  /** A list parameter takes part only when it is given and non-empty. */
  predicate ListGiven<T>(x: Option<seq<T>>) {
    x.Some? && |x.value| > 0
  }

  /** A string parameter takes part only when it is given and not `''`. */
  predicate TextGiven(x: Option<string>) {
    x.Some? && x.value != ""
  }

  /** The keyword takes part when it has a non-blank character. */
  predicate KeywordGiven(p: SearchParams) {
    p.keyword.Some? && Trim(p.keyword.value) != ""
  }

  predicate LevelOk(p: SearchParams, l: LogRecord) {
    ListGiven(p.logLevels) ==> l.logLevel in p.logLevels.value
  }

  predicate StartOk(p: SearchParams, timeOf: TimeOf, l: LogRecord) {
    TextGiven(p.startTime) ==> timeOf(l.timeStamp) >= timeOf(p.startTime.value)
  }

  predicate EndOk(p: SearchParams, timeOf: TimeOf, l: LogRecord) {
    TextGiven(p.endTime) ==> timeOf(l.timeStamp) <= timeOf(p.endTime.value)
  }

  predicate ClassOk(p: SearchParams, l: LogRecord) {
    ListGiven(p.logClasses) ==> l.logClass in p.logClasses.value
  }

  predicate ServerOk(p: SearchParams, l: LogRecord) {
    ListGiven(p.jenkinsServers) ==> l.jenkinsServer in p.jenkinsServers.value
  }

  /** The exact keyword test: the lower-cased keyword (untrimmed) occurs in
      the lower-cased message or class. */
  predicate KeywordOk(p: SearchParams, l: LogRecord) {
    KeywordGiven(p) ==>
      Contains(ToLower(l.message), ToLower(p.keyword.value)) || Contains(ToLower(l.logClass), ToLower(p.keyword.value))
  }

  /** Everything exact mode asks of a record. */
  predicate Survives(p: SearchParams, timeOf: TimeOf, l: LogRecord) {
    LevelOk(p, l) && StartOk(p, timeOf, l) && EndOk(p, timeOf, l)
    && ClassOk(p, l) && ServerOk(p, l) && KeywordOk(p, l)
  }

  /** One stage of `filterLogs`: it filters only when its parameter is given. */
  function Narrow(s: seq<LogRecord>, active: bool, test: LogRecord -> bool): seq<LogRecord> {
    if active then Filter(s, test) else s
  }

  function LevelIn(p: SearchParams): LogRecord -> bool {
    (l: LogRecord) => l.logLevel in p.logLevels.GetOr([])
  }

  function NotBefore(p: SearchParams, timeOf: TimeOf): LogRecord -> bool {
    (l: LogRecord) => timeOf(l.timeStamp) >= timeOf(p.startTime.GetOr(""))
  }

  function NotAfter(p: SearchParams, timeOf: TimeOf): LogRecord -> bool {
    (l: LogRecord) => timeOf(l.timeStamp) <= timeOf(p.endTime.GetOr(""))
  }

  function ClassIn(p: SearchParams): LogRecord -> bool {
    (l: LogRecord) => l.logClass in p.logClasses.GetOr([])
  }

  function ServerIn(p: SearchParams): LogRecord -> bool {
    (l: LogRecord) => l.jenkinsServer in p.jenkinsServers.GetOr([])
  }

  function Mentions(p: SearchParams): LogRecord -> bool {
    var k := ToLower(p.keyword.GetOr(""));
    (l: LogRecord) => Contains(ToLower(l.message), k) || Contains(ToLower(l.logClass), k)
  }

  /** Every filter but the keyword, in the source's order. */
  function StructuredFilters(logs: seq<LogRecord>, p: SearchParams, timeOf: TimeOf): seq<LogRecord> {
    var a := Narrow(logs, ListGiven(p.logLevels), LevelIn(p));
    var b := Narrow(a, TextGiven(p.startTime), NotBefore(p, timeOf));
    var c := Narrow(b, TextGiven(p.endTime), NotAfter(p, timeOf));
    var d := Narrow(c, ListGiven(p.logClasses), ClassIn(p));
    Narrow(d, ListGiven(p.jenkinsServers), ServerIn(p))
  }

  /** `filterLogs`. */
  function FilterLogs(logs: seq<LogRecord>, p: SearchParams, timeOf: TimeOf, fuzzy: FuzzySearch): seq<LogRecord> {
    var e := StructuredFilters(logs, p, timeOf);
    if !KeywordGiven(p) then e
    else if p.fuzzySearch then fuzzy(e, p.keyword.value)
    else Filter(e, Mentions(p))
  }

  /* ---------------- exact mode is one filter ---------------- */

  /** A stage, given or not, filters by its "ok" predicate. */
  lemma NarrowIsFilter(s: seq<LogRecord>, active: bool, test: LogRecord -> bool, ok: LogRecord -> bool)
    requires forall l :: ok(l) == (active ==> test(l))
    ensures Narrow(s, active, test) == Filter(s, ok)
  {
    if active {
      FilterSame(s, test, ok);
    } else {
      FilterAll(s, ok);
    }
  }

  lemma {:induction false} FilterSame<T>(s: seq<T>, p: T -> bool, q: T -> bool)
    requires forall x :: p(x) == q(x)
    ensures Filter(s, p) == Filter(s, q)
    decreases |s|
  {
    if s != [] {
      FilterSame(s[1..], p, q);
    }
  }

  /** A stage applied after a filter narrows that filter by the stage's
      "ok" predicate. */
  lemma NarrowAfter(s: seq<LogRecord>, before: LogRecord -> bool, active: bool, test: LogRecord -> bool,
                    ok: LogRecord -> bool, both: LogRecord -> bool)
    requires forall l :: ok(l) == (active ==> test(l))
    requires forall l :: both(l) == (before(l) && ok(l))
    ensures Narrow(Filter(s, before), active, test) == Filter(s, both)
  {
    NarrowIsFilter(Filter(s, before), active, test, ok);
    FilterFilter(s, before, ok, both);
  }

  /** The structured stages keep exactly the records that pass each of them. */
  lemma StructuredIsOneFilter(logs: seq<LogRecord>, p: SearchParams, timeOf: TimeOf)
    ensures StructuredFilters(logs, p, timeOf)
         == Filter(logs, (l: LogRecord) => LevelOk(p, l) && StartOk(p, timeOf, l) && EndOk(p, timeOf, l)
                                          && ClassOk(p, l) && ServerOk(p, l))
  {
    var ok1 := (l: LogRecord) => LevelOk(p, l);
    var ok12 := (l: LogRecord) => LevelOk(p, l) && StartOk(p, timeOf, l);
    var ok123 := (l: LogRecord) => LevelOk(p, l) && StartOk(p, timeOf, l) && EndOk(p, timeOf, l);
    var ok1234 := (l: LogRecord) => LevelOk(p, l) && StartOk(p, timeOf, l) && EndOk(p, timeOf, l) && ClassOk(p, l);
    var ok12345 := (l: LogRecord) => LevelOk(p, l) && StartOk(p, timeOf, l) && EndOk(p, timeOf, l)
                                     && ClassOk(p, l) && ServerOk(p, l);
    NarrowIsFilter(logs, ListGiven(p.logLevels), LevelIn(p), ok1);
    NarrowAfter(logs, ok1, TextGiven(p.startTime), NotBefore(p, timeOf), (l: LogRecord) => StartOk(p, timeOf, l), ok12);
    NarrowAfter(logs, ok12, TextGiven(p.endTime), NotAfter(p, timeOf), (l: LogRecord) => EndOk(p, timeOf, l), ok123);
    NarrowAfter(logs, ok123, ListGiven(p.logClasses), ClassIn(p), (l: LogRecord) => ClassOk(p, l), ok1234);
    NarrowAfter(logs, ok1234, ListGiven(p.jenkinsServers), ServerIn(p), (l: LogRecord) => ServerOk(p, l), ok12345);
  }

  /** In exact mode, or with no keyword, `filterLogs` keeps exactly the
      records that pass every given filter, in their input order. */
  lemma ExactIsOneFilter(logs: seq<LogRecord>, p: SearchParams, timeOf: TimeOf, fuzzy: FuzzySearch)
    requires !p.fuzzySearch || !KeywordGiven(p)
    ensures FilterLogs(logs, p, timeOf, fuzzy) == Filter(logs, (l: LogRecord) => Survives(p, timeOf, l))
  {
    var ok5 := (l: LogRecord) => LevelOk(p, l) && StartOk(p, timeOf, l) && EndOk(p, timeOf, l)
                                 && ClassOk(p, l) && ServerOk(p, l);
    StructuredIsOneFilter(logs, p, timeOf);
    assert FilterLogs(logs, p, timeOf, fuzzy) == Narrow(StructuredFilters(logs, p, timeOf), KeywordGiven(p), Mentions(p));
    NarrowAfter(logs, ok5, KeywordGiven(p), Mentions(p), (l: LogRecord) => KeywordOk(p, l), (l: LogRecord) => Survives(p, timeOf, l));
  }

  /** Exact mode keeps an order-preserving selection of its input, each
      survivor passes every given filter, and every record that passes them
      all survives. */
  lemma FilterLogsSound(logs: seq<LogRecord>, p: SearchParams, timeOf: TimeOf, fuzzy: FuzzySearch)
    requires !p.fuzzySearch || !KeywordGiven(p)
    ensures IsSubsequence(FilterLogs(logs, p, timeOf, fuzzy), logs)
    ensures forall l :: l in FilterLogs(logs, p, timeOf, fuzzy) ==> Survives(p, timeOf, l)
    ensures forall i :: 0 <= i < |logs| && Survives(p, timeOf, logs[i]) ==> logs[i] in FilterLogs(logs, p, timeOf, fuzzy)
  {
    ExactIsOneFilter(logs, p, timeOf, fuzzy);
    FilterIsSubsequence(logs, (l: LogRecord) => Survives(p, timeOf, l));
  }

  /** A blank keyword filters nothing: only the structured filters apply,
      whatever the fuzzy flag says. */
  lemma BlankKeywordIgnored(logs: seq<LogRecord>, p: SearchParams, timeOf: TimeOf, fuzzy: FuzzySearch)
    requires p.keyword.Some? ==> AllSpace(p.keyword.value)
    ensures FilterLogs(logs, p, timeOf, fuzzy) == StructuredFilters(logs, p, timeOf)
  {
    if p.keyword.Some? {
      TrimAllSpace(p.keyword.value);
    }
  }

  /* ---------------- records with their context ---------------- */

  /** One row of `getLogsWithContext`. */
  datatype ContextEntry = ContextEntry(log: LogRecord, isMatched: bool, isContext: bool)

  function EntryId(e: ContextEntry): int {
    e.log.id
  }

  function EntryTime(timeOf: TimeOf): ContextEntry -> int {
    (e: ContextEntry) => timeOf(e.log.timeStamp)
  }

  /** The ids the rows carry. */
  ghost function EntryIds(r: seq<ContextEntry>): set<int> {
    set e | e in r :: e.log.id
  }

  function MatchedIds(matched: seq<LogRecord>): set<int> {
    set m | m in matched :: m.id
  }

  function Max(a: int, b: int): int {
    if a >= b then a else b
  }

  function Min(a: int, b: int): int {
    if a <= b then a else b
  }

  /** `findIndex` by id: the first position holding `id`, or -1. */
  function FindIndex(all: seq<LogRecord>, id: int): (r: int)
    ensures -1 <= r < |all|
    decreases |all|
  {
    if all == [] then -1
    else if all[0].id == id then 0
    else
      var r := FindIndex(all[1..], id);
      if r == -1 then -1 else r + 1
  }

  /** `FindIndex` finds the first position holding `id`, and gives -1
      exactly when no position does. */
  lemma {:induction false} FindIndexSpec(all: seq<LogRecord>, id: int)
    ensures var r := FindIndex(all, id);
      (r >= 0 ==> all[r].id == id && forall j :: 0 <= j < r ==> all[j].id != id)
      && (r == -1 <==> forall j :: 0 <= j < |all| ==> all[j].id != id)
    decreases |all|
  {
    if all != [] && all[0].id != id {
      FindIndexSpec(all[1..], id);
      assert forall j :: 1 <= j < |all| ==> all[j] == all[1..][j - 1];
    }
  }

  /** The ids already emitted and the rows so far. */
  datatype Acc = Acc(included: set<int>, result: seq<ContextEntry>)

  /** The row for `log`: matched exactly when its id was matched. */
  function Row(log: LogRecord, matchedIds: set<int>): ContextEntry {
    ContextEntry(log, log.id in matchedIds, log.id !in matchedIds)
  }

  /** The inner loop: positions `i` to `hi` inclusive, each emitted unless its
      id already was. */
  function AddRange(all: seq<LogRecord>, matchedIds: set<int>, i: int, hi: int, acc: Acc): Acc
    requires 0 <= i && hi < |all|
    decreases if i <= hi then hi - i + 1 else 0
  {
    if i > hi then acc
    else
      var log := all[i];
      var next := if log.id in acc.included then acc
                  else Acc(acc.included + {log.id}, acc.result + [Row(log, matchedIds)]);
      AddRange(all, matchedIds, i + 1, hi, next)
  }

  /** One matched record: nothing when its id is not in `all`, else the
      positions from `before` ahead of its first position to `after`
      behind it, clipped to `all`. */
  function AddWindow(all: seq<LogRecord>, m: LogRecord, matchedIds: set<int>, before: int, after: int, acc: Acc): Acc {
    var idx := FindIndex(all, m.id);
    if idx == -1 then acc
    else AddRange(all, matchedIds, Max(0, idx - before), Min(|all| - 1, idx + after), acc)
  }

  /** The `forEach` over the matched records. */
  function AddMatches(all: seq<LogRecord>, matched: seq<LogRecord>, matchedIds: set<int>,
                      before: int, after: int, acc: Acc): Acc
    decreases |matched|
  {
    if matched == [] then acc
    else
      AddMatches(all, matched[1..], matchedIds, before, after, AddWindow(all, matched[0], matchedIds, before, after, acc))
  }

  /** `getLogsWithContext`: the rows in timestamp order. */
  function GetLogsWithContext(all: seq<LogRecord>, matched: seq<LogRecord>, before: int, after: int,
                              timeOf: TimeOf): seq<ContextEntry>
  {
    var acc := AddMatches(all, matched, MatchedIds(matched), before, after, Acc({}, []));
    SortBy(acc.result, EntryTime(timeOf))
  }

  /* ---------------- what the rows are ---------------- */

  /** Position `j` of `all` lies in the window of the matched record `m`. */
  ghost predicate InWindow(all: seq<LogRecord>, m: LogRecord, before: int, after: int, j: int) {
    var idx := FindIndex(all, m.id);
    idx >= 0 && Max(0, idx - before) <= j <= Min(|all| - 1, idx + after)
  }

  /** Row `e` shows a record from the window of one of `ms`. */
  ghost predicate FromWindow(all: seq<LogRecord>, ms: seq<LogRecord>, before: int, after: int, e: ContextEntry) {
    exists m, j :: m in ms && InWindow(all, m, before, after, j) && all[j] == e.log
  }

  /** The bookkeeping of the loop: `included` holds the emitted ids, no id
      is emitted twice, and each row is flagged by the matched ids. */
  ghost predicate Tidy(acc: Acc, matchedIds: set<int>) {
    acc.included == EntryIds(acc.result)
    && DistinctBy(acc.result, EntryId)
    && forall k :: 0 <= k < |acc.result| ==> acc.result[k] == Row(acc.result[k].log, matchedIds)
  }

  lemma EntryIdsAppend(r: seq<ContextEntry>, e: ContextEntry)
    ensures EntryIds(r + [e]) == EntryIds(r) + {e.log.id}
  {
    forall x | x in EntryIds(r)
      ensures x in EntryIds(r + [e])
    {
      var y :| y in r && y.log.id == x;
      assert y in r + [e];
    }
    assert e in r + [e];
  }

  /** Row `e` shows the record at one of the positions `lo` to `hi`. */
  ghost predicate FromRange(all: seq<LogRecord>, lo: int, hi: int, e: ContextEntry) {
    exists j :: lo <= j <= hi && 0 <= j < |all| && all[j] == e.log
  }

  /** The inner loop only appends, and each row it appends shows a record
      from positions `i` to `hi`. */
  lemma {:induction false} AddRangeGrows(all: seq<LogRecord>, matchedIds: set<int>, i: int, hi: int, acc: Acc)
    requires 0 <= i && hi < |all|
    ensures var r := AddRange(all, matchedIds, i, hi, acc);
      acc.result <= r.result
      && acc.included <= r.included
      && (forall k :: |acc.result| <= k < |r.result| ==> FromRange(all, i, hi, r.result[k]))
    decreases if i <= hi then hi - i + 1 else 0
  {
    if i <= hi {
      var log := all[i];
      var next := if log.id in acc.included then acc
                  else Acc(acc.included + {log.id}, acc.result + [Row(log, matchedIds)]);
      AddRangeGrows(all, matchedIds, i + 1, hi, next);
      var r := AddRange(all, matchedIds, i + 1, hi, next);
      assert r == AddRange(all, matchedIds, i, hi, acc);
      forall k | |acc.result| <= k < |r.result|
        ensures FromRange(all, i, hi, r.result[k])
      {
        if k < |next.result| {
          assert k == |acc.result| && r.result[k] == next.result[k];
          assert all[i] == r.result[k].log;
        } else {
          var j :| i + 1 <= j <= hi && 0 <= j < |all| && all[j] == r.result[k].log;
        }
      }
    }
  }

  /** The inner loop keeps the bookkeeping and emits every id of positions
      `i` to `hi`. */
  lemma {:induction false} AddRangeTidy(all: seq<LogRecord>, matchedIds: set<int>, i: int, hi: int, acc: Acc)
    requires 0 <= i && hi < |all|
    requires Tidy(acc, matchedIds)
    ensures var r := AddRange(all, matchedIds, i, hi, acc);
      Tidy(r, matchedIds) && forall j :: i <= j <= hi ==> all[j].id in r.included
    decreases if i <= hi then hi - i + 1 else 0
  {
    if i <= hi {
      var log := all[i];
      var next := if log.id in acc.included then acc
                  else Acc(acc.included + {log.id}, acc.result + [Row(log, matchedIds)]);
      if log.id !in acc.included {
        EntryIdsAppend(acc.result, Row(log, matchedIds));
        assert DistinctBy(next.result, EntryId) by {
          forall k | 0 <= k < |acc.result|
            ensures acc.result[k].log.id != log.id
          {
            assert acc.result[k] in acc.result;
          }
        }
      }
      AddRangeTidy(all, matchedIds, i + 1, hi, next);
      AddRangeGrows(all, matchedIds, i + 1, hi, next);
    }
  }

  /** Every row comes from the window of a record of `done`. */
  ghost predicate Sound(all: seq<LogRecord>, done: seq<LogRecord>, before: int, after: int, acc: Acc) {
    forall k :: 0 <= k < |acc.result| ==> FromWindow(all, done, before, after, acc.result[k])
  }

  /** Every id in the windows of `done` has been emitted. */
  ghost predicate Complete(all: seq<LogRecord>, done: seq<LogRecord>, before: int, after: int, acc: Acc) {
    forall m, j :: m in done && InWindow(all, m, before, after, j) ==> all[j].id in acc.included
  }

  ghost predicate Covers(all: seq<LogRecord>, done: seq<LogRecord>, before: int, after: int, acc: Acc) {
    Sound(all, done, before, after, acc) && Complete(all, done, before, after, acc)
  }

  lemma FromWindowGrow(all: seq<LogRecord>, done: seq<LogRecord>, m: LogRecord, before: int, after: int,
                       e: ContextEntry)
    requires FromWindow(all, done, before, after, e)
    ensures FromWindow(all, done + [m], before, after, e)
  {
    var m0, j :| m0 in done && InWindow(all, m0, before, after, j) && all[j] == e.log;
    assert m0 in done + [m];
  }

  /** A matched record found in `all`: the rows its window adds come from
      that window. */
  lemma AddWindowSound(all: seq<LogRecord>, m: LogRecord, done: seq<LogRecord>, matchedIds: set<int>,
                       before: int, after: int, acc: Acc)
    requires Sound(all, done, before, after, acc)
    requires FindIndex(all, m.id) >= 0
    ensures Sound(all, done + [m], before, after, AddWindow(all, m, matchedIds, before, after, acc))
  {
    var idx := FindIndex(all, m.id);
    var lo, hi := Max(0, idx - before), Min(|all| - 1, idx + after);
    AddRangeGrows(all, matchedIds, lo, hi, acc);
    var next := AddRange(all, matchedIds, lo, hi, acc);
    SoundGrow(all, done, m, before, after, acc);
    forall k | |acc.result| <= k < |next.result|
      ensures FromWindow(all, done + [m], before, after, next.result[k])
    {
      WindowRow(all, m, done, before, after, next.result[k]);
    }
    SoundExtend(all, done + [m], before, after, acc, next);
  }

  /** Appending rows from the windows keeps every row from the windows. */
  lemma SoundExtend(all: seq<LogRecord>, ms: seq<LogRecord>, before: int, after: int, acc: Acc, next: Acc)
    requires Sound(all, ms, before, after, acc) && acc.result <= next.result
    requires forall k :: |acc.result| <= k < |next.result| ==> FromWindow(all, ms, before, after, next.result[k])
    ensures Sound(all, ms, before, after, next)
  {
    forall k | 0 <= k < |acc.result|
      ensures FromWindow(all, ms, before, after, next.result[k])
    {
      assert next.result[k] == acc.result[k];
    }
  }

  /** Rows from the windows of `done` come from the windows of `done + [m]`. */
  lemma SoundGrow(all: seq<LogRecord>, done: seq<LogRecord>, m: LogRecord, before: int, after: int, acc: Acc)
    requires Sound(all, done, before, after, acc)
    ensures Sound(all, done + [m], before, after, acc)
  {
    forall k | 0 <= k < |acc.result|
      ensures FromWindow(all, done + [m], before, after, acc.result[k])
    {
      FromWindowGrow(all, done, m, before, after, acc.result[k]);
    }
  }

  /** A row from the window of `m` comes from the windows of `done + [m]`. */
  lemma WindowRow(all: seq<LogRecord>, m: LogRecord, done: seq<LogRecord>, before: int, after: int, e: ContextEntry)
    requires FindIndex(all, m.id) >= 0
    requires FromRange(all, Max(0, FindIndex(all, m.id) - before), Min(|all| - 1, FindIndex(all, m.id) + after), e)
    ensures FromWindow(all, done + [m], before, after, e)
  {
    var j :| Max(0, FindIndex(all, m.id) - before) <= j <= Min(|all| - 1, FindIndex(all, m.id) + after)
             && 0 <= j < |all| && all[j] == e.log;
    assert m in done + [m] && InWindow(all, m, before, after, j) && all[j] == e.log;
  }

  /** A matched record found in `all`: its whole window is emitted. */
  lemma AddWindowComplete(all: seq<LogRecord>, m: LogRecord, done: seq<LogRecord>, matchedIds: set<int>,
                          before: int, after: int, acc: Acc)
    requires Tidy(acc, matchedIds) && Complete(all, done, before, after, acc)
    requires FindIndex(all, m.id) >= 0
    ensures var next := AddWindow(all, m, matchedIds, before, after, acc);
      Tidy(next, matchedIds) && Complete(all, done + [m], before, after, next)
  {
    var idx := FindIndex(all, m.id);
    var lo, hi := Max(0, idx - before), Min(|all| - 1, idx + after);
    AddRangeTidy(all, matchedIds, lo, hi, acc);
    AddRangeGrows(all, matchedIds, lo, hi, acc);
    var next := AddRange(all, matchedIds, lo, hi, acc);
    assert forall j :: InWindow(all, m, before, after, j) ==> all[j].id in next.included;
    CompleteExtend(all, done, m, before, after, acc, next);
  }

  /** Growing the emitted ids to cover the window of `m` extends the
      coverage from `done` to `done + [m]`. */
  lemma CompleteExtend(all: seq<LogRecord>, done: seq<LogRecord>, m: LogRecord, before: int, after: int,
                       acc: Acc, next: Acc)
    requires Complete(all, done, before, after, acc) && acc.included <= next.included
    requires forall j :: InWindow(all, m, before, after, j) ==> all[j].id in next.included
    ensures Complete(all, done + [m], before, after, next)
  {
    forall m0, j | m0 in done + [m] && InWindow(all, m0, before, after, j)
      ensures all[j].id in next.included
    {
      if m0 != m {
        assert m0 in done;
      }
    }
  }

  /** One matched record keeps the bookkeeping and the coverage. */
  lemma AddOneSpec(all: seq<LogRecord>, m: LogRecord, done: seq<LogRecord>, matchedIds: set<int>,
                   before: int, after: int, acc: Acc)
    requires Tidy(acc, matchedIds) && Covers(all, done, before, after, acc)
    ensures var next := AddWindow(all, m, matchedIds, before, after, acc);
      Tidy(next, matchedIds) && Covers(all, done + [m], before, after, next)
  {
    if FindIndex(all, m.id) == -1 {
      SoundGrow(all, done, m, before, after, acc);
    } else {
      AddWindowSound(all, m, done, matchedIds, before, after, acc);
      AddWindowComplete(all, m, done, matchedIds, before, after, acc);
    }
  }

  lemma {:induction false} AddMatchesSpec(all: seq<LogRecord>, rest: seq<LogRecord>, done: seq<LogRecord>,
                                          matchedIds: set<int>, before: int, after: int, acc: Acc)
    requires Tidy(acc, matchedIds) && Covers(all, done, before, after, acc)
    ensures var r := AddMatches(all, rest, matchedIds, before, after, acc);
      Tidy(r, matchedIds) && Covers(all, done + rest, before, after, r)
    decreases |rest|
  {
    if rest == [] {
      assert done + rest == done;
    } else {
      var m := rest[0];
      var next := AddWindow(all, m, matchedIds, before, after, acc);
      AddOneSpec(all, m, done, matchedIds, before, after, acc);
      AddMatchesSpec(all, rest[1..], done + [m], matchedIds, before, after, next);
      assert done + [m] + rest[1..] == done + rest;
    }
  }

  /** The whole loop keeps the bookkeeping and covers the windows of all
      matched records. */
  lemma AllMatchesSpec(all: seq<LogRecord>, matched: seq<LogRecord>, before: int, after: int)
    ensures var acc := AddMatches(all, matched, MatchedIds(matched), before, after, Acc({}, []));
      Tidy(acc, MatchedIds(matched)) && Covers(all, matched, before, after, acc)
  {
    var start := Acc({}, []);
    assert Covers(all, [], before, after, start);
    AddMatchesSpec(all, matched, [], MatchedIds(matched), before, after, start);
    assert [] + matched == matched;
  }

  /** `getLogsWithContext` lists each id at most once, in timestamp order;
      a row is matched exactly when its id was matched and is context
      otherwise; every row lies within `before` positions before or `after`
      positions after the first position of a matched id in `all`; and every
      id in such a window is listed. */
  lemma ContextRows(all: seq<LogRecord>, matched: seq<LogRecord>, before: int, after: int, timeOf: TimeOf)
    ensures var r := GetLogsWithContext(all, matched, before, after, timeOf);
      DistinctBy(r, EntryId)
      && SortedBy(r, EntryTime(timeOf))
      && (forall k :: 0 <= k < |r| ==>
            r[k].isMatched == (r[k].log.id in MatchedIds(matched)) && r[k].isContext == !r[k].isMatched)
      && (forall k :: 0 <= k < |r| ==> FromWindow(all, matched, before, after, r[k]))
      && (forall m, j :: m in matched && InWindow(all, m, before, after, j) ==> all[j].id in EntryIds(r))
  {
    var mids := MatchedIds(matched);
    var acc := AddMatches(all, matched, mids, before, after, Acc({}, []));
    AllMatchesSpec(all, matched, before, after);
    var r := GetLogsWithContext(all, matched, before, after, timeOf);
    SortByDistinct(acc.result, EntryTime(timeOf), EntryId);
    SortByMembers(acc.result, EntryTime(timeOf));
    forall k | 0 <= k < |r|
      ensures r[k] == Row(r[k].log, mids) && FromWindow(all, matched, before, after, r[k])
    {
      assert r[k] in acc.result;
      var k' :| 0 <= k' < |acc.result| && acc.result[k'] == r[k];
    }
    assert EntryIds(r) == EntryIds(acc.result);
  }

  /** With non-negative widths every matched record found in `all` is
      listed, flagged as matched. */
  lemma MatchesListed(all: seq<LogRecord>, matched: seq<LogRecord>, before: int, after: int, timeOf: TimeOf,
                      m: LogRecord)
    requires before >= 0 && after >= 0
    requires m in matched && exists j :: 0 <= j < |all| && all[j].id == m.id
    ensures exists k :: 0 <= k < |GetLogsWithContext(all, matched, before, after, timeOf)|
                     && GetLogsWithContext(all, matched, before, after, timeOf)[k].log.id == m.id
                     && GetLogsWithContext(all, matched, before, after, timeOf)[k].isMatched
  {
    var r := GetLogsWithContext(all, matched, before, after, timeOf);
    ContextRows(all, matched, before, after, timeOf);
    var idx := FindIndex(all, m.id);
    FindIndexSpec(all, m.id);
    assert InWindow(all, m, before, after, idx);
    assert m.id in EntryIds(r);
    var e :| e in r && e.log.id == m.id;
    var k :| 0 <= k < |r| && r[k] == e;
    assert m.id in MatchedIds(matched);
  }
}
