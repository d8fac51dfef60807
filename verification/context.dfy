/** The entity context of a test run: the six labelled fields of the first
    `Started testcase --->>` line (src/services/logParser.ts, lines 109-130). */
module Context {
  import opened Optional
  import opened Text
  import opened Seqs
  import opened Patterns
  import opened LogTypes

  datatype EntityContext = EntityContext(
    sourceSystem: string,
    sourceEntity: string,
    sourceProject: string,
    targetSystem: string,
    targetEntity: string,
    targetProject: string)

  const ContextMarker := "Started testcase --->>"

  const SourceSystemName := "Source System:"
  const SourceEntityName := "Source Entity:"
  const SourceProjectName := "Source Project:"
  const TargetSystemName := "Target System:"
  const TargetEntityName := "Target Entity:"
  const TargetProjectName := "Target Project:"

  const Unknown := "UNKNOWN"
  const DefaultProject := "DEFAULT"

  /** A field value as the context can hold it: present, trimmed, one
      comma-separated item. */
  predicate GoodValue(v: string) {
    v != "" && Trimmed(v) && ',' !in v
  }

  predicate GoodContext(c: EntityContext) {
    GoodValue(c.sourceSystem) && GoodValue(c.sourceEntity) && GoodValue(c.sourceProject)
    && GoodValue(c.targetSystem) && GoodValue(c.targetEntity) && GoodValue(c.targetProject)
  }

  /** One labelled field, `name\s*([^,]+)` trimmed, or `d`. */
  function ContextField(msg: string, name: string, d: string): (r: string)
    requires GoodValue(d)
    ensures GoodValue(r)
    ensures r == d || Field(msg, name, Direct) == Some(r)
    ensures Field(msg, name, Direct).None? ==> r == d
    ensures Field(msg, name, Direct) == Some("") ==> r == d
  {
    FieldOr(msg, name, Direct, d)
  }

  lemma DefaultsAreGood()
    ensures GoodValue(Unknown) && GoodValue(DefaultProject)
  {
    assert Unknown[0] == 'U' && Unknown[|Unknown| - 1] == 'N';
    assert DefaultProject[0] == 'D' && DefaultProject[|DefaultProject| - 1] == 'T';
  }

  /** `parseEntityContext`. */
  function ParseEntityContext(msg: string): EntityContext
  {
    EntityContext(
      FieldOr(msg, SourceSystemName, Direct, Unknown),
      FieldOr(msg, SourceEntityName, Direct, Unknown),
      FieldOr(msg, SourceProjectName, Direct, DefaultProject),
      FieldOr(msg, TargetSystemName, Direct, Unknown),
      FieldOr(msg, TargetEntityName, Direct, Unknown),
      FieldOr(msg, TargetProjectName, Direct, DefaultProject))
  }

  /** Every field of a parsed context is a good value; systems and entities
      whose label is absent, or whose value is blank, are `UNKNOWN`, and such
      projects are `DEFAULT`. */
  lemma ContextDefaults(msg: string)
    ensures GoodContext(ParseEntityContext(msg))
    ensures Field(msg, SourceSystemName, Direct).None? ==> ParseEntityContext(msg).sourceSystem == Unknown
    ensures Field(msg, SourceEntityName, Direct).None? ==> ParseEntityContext(msg).sourceEntity == Unknown
    ensures Field(msg, SourceProjectName, Direct).None? ==> ParseEntityContext(msg).sourceProject == DefaultProject
    ensures Field(msg, TargetSystemName, Direct).None? ==> ParseEntityContext(msg).targetSystem == Unknown
    ensures Field(msg, TargetEntityName, Direct).None? ==> ParseEntityContext(msg).targetEntity == Unknown
    ensures Field(msg, TargetProjectName, Direct).None? ==> ParseEntityContext(msg).targetProject == DefaultProject
    ensures !Contains(msg, SourceSystemName) ==> ParseEntityContext(msg).sourceSystem == Unknown
    ensures !Contains(msg, SourceProjectName) ==> ParseEntityContext(msg).sourceProject == DefaultProject
    ensures Field(msg, SourceSystemName, Direct) == Some("") ==> ParseEntityContext(msg).sourceSystem == Unknown
    ensures Field(msg, SourceProjectName, Direct) == Some("") ==> ParseEntityContext(msg).sourceProject == DefaultProject
  {
    DefaultsAreGood();
    var _ := ContextField(msg, SourceSystemName, Unknown);
    var _ := ContextField(msg, SourceEntityName, Unknown);
    var _ := ContextField(msg, SourceProjectName, DefaultProject);
    var _ := ContextField(msg, TargetSystemName, Unknown);
    var _ := ContextField(msg, TargetEntityName, Unknown);
    var _ := ContextField(msg, TargetProjectName, DefaultProject);
  }

  /** The field `name` is written in `msg` at its first occurrence as
      `name value` followed by a comma or the end of the message. */
  ghost predicate WrittenAt(msg: string, name: string, value: string) {
    var j := IndexOf(msg, name);
    var e := j + |name| + 1 + |value|;
    GoodValue(value) && 0 <= j && e <= |msg|
    && msg[j + |name|..] == " " + value + msg[e..]
    && (e == |msg| || msg[e] == ',')
  }

  lemma WrittenField(msg: string, name: string, value: string, d: string)
    requires WrittenAt(msg, name, value) && GoodValue(d)
    ensures ContextField(msg, name, d) == value
  {
    var j := IndexOf(msg, name);
    var e := j + |name| + 1 + |value|;
    FieldRoundTrip(msg, j, name, Direct, value, msg[e..], d);
  }

  /** A context line that writes every field reads back as those fields. */
  lemma ContextRoundTrip(msg: string, c: EntityContext)
    requires WrittenAt(msg, SourceSystemName, c.sourceSystem)
    requires WrittenAt(msg, SourceEntityName, c.sourceEntity)
    requires WrittenAt(msg, SourceProjectName, c.sourceProject)
    requires WrittenAt(msg, TargetSystemName, c.targetSystem)
    requires WrittenAt(msg, TargetEntityName, c.targetEntity)
    requires WrittenAt(msg, TargetProjectName, c.targetProject)
    ensures ParseEntityContext(msg) == c
  {
    DefaultsAreGood();
    WrittenField(msg, SourceSystemName, c.sourceSystem, Unknown);
    WrittenField(msg, SourceEntityName, c.sourceEntity, Unknown);
    WrittenField(msg, SourceProjectName, c.sourceProject, DefaultProject);
    WrittenField(msg, TargetSystemName, c.targetSystem, Unknown);
    WrittenField(msg, TargetEntityName, c.targetEntity, Unknown);
    WrittenField(msg, TargetProjectName, c.targetProject, DefaultProject);
  }

  predicate IsContextLine(l: LogRecord) {
    Contains(l.message, ContextMarker)
  }

  /** `logs[i]` is the first record that carries the marker. */
  ghost predicate IsFirstContextLine(logs: seq<LogRecord>, i: int) {
    0 <= i < |logs| && IsContextLine(logs[i])
    && forall j :: 0 <= j < i ==> !IsContextLine(logs[j])
  }

  /** `extractEntityContext` over the already sorted records: the context of
      the first record that carries the marker. */
  function ExtractEntityContext(logs: seq<LogRecord>): (r: Option<EntityContext>)
    ensures r.None? <==> forall i :: 0 <= i < |logs| ==> !IsContextLine(logs[i])
    ensures r.Some? ==> exists i :: IsFirstContextLine(logs, i)
                                  && r.value == ParseEntityContext(logs[i].message)
  {
    var f := FirstWith(logs, IsContextLine);
    if f.None? then None
    else
      FirstContextLine(logs, f.value);
      Some(ParseEntityContext(f.value.message))
  }

  lemma FirstContextLine(logs: seq<LogRecord>, l: LogRecord)
    requires FirstWith(logs, IsContextLine) == Some(l)
    ensures exists i :: IsFirstContextLine(logs, i)
                      && ParseEntityContext(l.message) == ParseEntityContext(logs[i].message)
  {
    var i := FirstContextIndex(logs, l);
    assert IsFirstContextLine(logs, i);
  }

  lemma FirstContextIndex(logs: seq<LogRecord>, l: LogRecord) returns (i: nat)
    requires FirstWith(logs, IsContextLine) == Some(l)
    ensures i < |logs| && logs[i] == l && IsFirstContextLine(logs, i)
  {
    i :| 0 <= i < |logs| && logs[i] == l && IsContextLine(logs[i])
         && forall j :: 0 <= j < i ==> !IsContextLine(logs[j]);
  }
}
