/** The filter-option lists of src/mockData/logs.ts: the distinct Jenkins
    servers and the distinct log classes of a log list, each in string
    order. */
module MockLogs {
  import opened Text
  import opened Seqs
  import opened Sorting
  import opened LogTypes

  /** The values `field` takes on `logs` that `keep` accepts and that are
      not in `seen`, each once, in order of first appearance: what adding
      them to a JavaScript `Set` and reading it back gives. */
  function Collect(logs: seq<LogRecord>, field: LogRecord -> string, keep: string -> bool,
                   seen: set<string>): seq<string>
    decreases |logs|
  {
    if logs == [] then []
    else
      var v := field(logs[0]);
      if keep(v) && v !in seen then [v] + Collect(logs[1..], field, keep, seen + {v})
      else Collect(logs[1..], field, keep, seen)
  }

  /** A value occurs in the log list with `field` and is accepted. */
  ghost predicate Occurs(logs: seq<LogRecord>, field: LogRecord -> string, keep: string -> bool, x: string) {
    keep(x) && exists l :: l in logs && field(l) == x
  }

  /** The collected values are distinct, and they are exactly the accepted
      values of the list that were not already seen. */
  lemma {:induction false} CollectSpec(logs: seq<LogRecord>, field: LogRecord -> string,
                                       keep: string -> bool, seen: set<string>)
    ensures Distinct(Collect(logs, field, keep, seen))
    ensures forall x :: x in Collect(logs, field, keep, seen) <==> Occurs(logs, field, keep, x) && x !in seen
    decreases |logs|
  {
    if logs != [] {
      var v := field(logs[0]);
      var tail := logs[1..];
      assert forall l :: l in logs <==> l == logs[0] || l in tail;
      if keep(v) && v !in seen {
        CollectSpec(tail, field, keep, seen + {v});
      } else {
        CollectSpec(tail, field, keep, seen);
      }
    }
  }

  /** `log.jenkinsServer && log.jenkinsServer !== "UNKNOWN"`. */
  predicate KnownServer(server: string) {
    server != "" && server != "UNKNOWN"
  }

  /** `if (log.logClass)`: a string is truthy when it is not empty. */
  predicate NamedClass(logClass: string) {
    logClass != ""
  }

  function ServerOf(l: LogRecord): string { l.jenkinsServer }

  function ClassOf(l: LogRecord): string { l.logClass }

  /** `extractUniqueJenkinsServers`. */
  function ExtractUniqueJenkinsServers(logs: seq<LogRecord>): seq<string> {
    SortStrings(Collect(logs, ServerOf, KnownServer, {}))
  }

  /** `extractUniqueLogClasses`. */
  function ExtractUniqueLogClasses(logs: seq<LogRecord>): seq<string> {
    SortStrings(Collect(logs, ClassOf, NamedClass, {}))
  }

  /** Sorting the collected values gives a strictly increasing list of
      exactly the accepted values. */
  lemma SortedCollect(logs: seq<LogRecord>, field: LogRecord -> string, keep: string -> bool)
    ensures StrictlyLexSorted(SortStrings(Collect(logs, field, keep, {})))
    ensures forall x :: x in SortStrings(Collect(logs, field, keep, {})) <==> Occurs(logs, field, keep, x)
  {
    var c := Collect(logs, field, keep, {});
    CollectSpec(logs, field, keep, {});
    SortStringsStrict(c);
    assert forall x :: x in SortStrings(c) <==> x in multiset(SortStrings(c));
    assert forall x :: x in c <==> x in multiset(c);
  }

  /** The server list is strictly increasing (so without duplicates) and
      holds exactly the servers, other than empty and `UNKNOWN`, that some
      log names. */
  lemma JenkinsServersSpec(logs: seq<LogRecord>)
    ensures StrictlyLexSorted(ExtractUniqueJenkinsServers(logs))
    ensures forall x :: x in ExtractUniqueJenkinsServers(logs) <==>
      x != "" && x != "UNKNOWN" && exists l :: l in logs && l.jenkinsServer == x
  {
    SortedCollect(logs, ServerOf, KnownServer);
  }

  /** The class list is strictly increasing and holds exactly the non-empty
      classes that some log names. */
  lemma LogClassesSpec(logs: seq<LogRecord>)
    ensures StrictlyLexSorted(ExtractUniqueLogClasses(logs))
    ensures forall x :: x in ExtractUniqueLogClasses(logs) <==>
      x != "" && exists l :: l in logs && l.logClass == x
  {
    SortedCollect(logs, ClassOf, NamedClass);
  }

  /** Two strictly increasing lists with the same members are the same
      list. */
  lemma {:induction false} StrictlySortedUnique(a: seq<string>, b: seq<string>)
    requires StrictlyLexSorted(a) && StrictlyLexSorted(b)
    requires forall x :: x in a <==> x in b
    ensures a == b
    decreases |a|
  {
    if a == [] {
      assert forall i :: 0 <= i < |b| ==> b[i] in a;
    } else {
      assert b != [] by {
        assert a[0] in b;
      }
      assert a[0] == b[0] by {
        assert a[0] in b && b[0] in a;
        if a[0] != b[0] {
          var i :| 0 <= i < |a| && a[i] == b[0];
          var j :| 0 <= j < |b| && b[j] == a[0];
          assert LexLess(a[0], b[0]);
          assert LexLess(b[0], a[0]);
          LexLessAsymmetric(a[0], b[0]);
        }
      }
      forall x
        ensures x in a[1..] <==> x in b[1..]
      {
        if x in a[1..] {
          var i :| 0 <= i < |a[1..]| && a[1..][i] == x;
          assert LexLess(a[0], a[i + 1]);
          LexLessIrreflexive(x);
          assert x in b;
        }
        if x in b[1..] {
          var j :| 0 <= j < |b[1..]| && b[1..][j] == x;
          assert LexLess(b[0], b[j + 1]);
          LexLessIrreflexive(x);
          assert x in a;
        }
      }
      StrictlySortedUnique(a[1..], b[1..]);
      assert a == [a[0]] + a[1..] && b == [b[0]] + b[1..];
    }
  }

  /** Any strictly increasing list of exactly the known servers of the logs
      is the server list; so the list depends only on which servers occur,
      not on the order or repetition of the logs. */
  lemma JenkinsServersCharacterized(logs: seq<LogRecord>, r: seq<string>)
    requires StrictlyLexSorted(r)
    requires forall x :: x in r <==> x != "" && x != "UNKNOWN" && exists l :: l in logs && l.jenkinsServer == x
    ensures r == ExtractUniqueJenkinsServers(logs)
  {
    JenkinsServersSpec(logs);
    StrictlySortedUnique(r, ExtractUniqueJenkinsServers(logs));
  }

  /** Any strictly increasing list of exactly the non-empty classes of the
      logs is the class list. */
  lemma LogClassesCharacterized(logs: seq<LogRecord>, r: seq<string>)
    requires StrictlyLexSorted(r)
    requires forall x :: x in r <==> x != "" && exists l :: l in logs && l.logClass == x
    ensures r == ExtractUniqueLogClasses(logs)
  {
    LogClassesSpec(logs);
    StrictlySortedUnique(r, ExtractUniqueLogClasses(logs));
  }

  /** Reordering or repeating logs leaves both lists unchanged. */
  lemma OptionListsOrderFree(a: seq<LogRecord>, b: seq<LogRecord>)
    requires forall l :: l in a <==> l in b
    ensures ExtractUniqueJenkinsServers(a) == ExtractUniqueJenkinsServers(b)
    ensures ExtractUniqueLogClasses(a) == ExtractUniqueLogClasses(b)
  {
    JenkinsServersSpec(a);
    JenkinsServersCharacterized(b, ExtractUniqueJenkinsServers(a));
    LogClassesSpec(a);
    LogClassesCharacterized(b, ExtractUniqueLogClasses(a));
  }
}
