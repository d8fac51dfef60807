/** The regular expressions the parser applies to a message. Each is written
    as "does it match at index j, and what does its group capture there";
    `FirstIndex` is the search `String.prototype.match` performs: the first
    index at which a match exists. The backtracking of each expression is
    worked out by hand and stated in the comment of its matcher. */
module Patterns {
  import opened Optional
  import opened Text

  /** The first index in `[i, n]` satisfying `found`, if any. */
  function FirstIndex(n: nat, found: nat -> bool, i: nat): (r: Option<nat>)
    requires i <= n
    ensures r.None? <==> forall j :: i <= j <= n ==> !found(j)
    ensures r.Some? ==> i <= r.value <= n && found(r.value)
    ensures r.Some? ==> forall k :: i <= k < r.value ==> !found(k)
    decreases n - i
  {
    if found(i) then Some(i)
    else if i == n then None
    else FirstIndex(n, found, i + 1)
  }

  /** The search stops at the first index that qualifies. */
  lemma FirstIndexAt(n: nat, found: nat -> bool, i: nat, j: nat)
    requires i <= j <= n && found(j)
    requires forall k :: i <= k < j ==> !found(k)
    ensures FirstIndex(n, found, i) == Some(j)
  {
  }

  /* ---------------- the correlation key ---------------- */

  const KeyOpen := "[EI:"

  /** `/\[EI:(\d+)\]/` at `j`: the digit run is maximal, since a `]` cannot
      match a digit, so no shorter run is tried with success. */
  function KeyAt(s: string, j: nat): (r: Option<string>)
    ensures r.Some? ==> |r.value| >= 1 && AllDigits(r.value)
    ensures r.Some? ==> StartsWithAt(s, j, KeyOpen + r.value + "]")
  {
    if StartsWithAt(s, j, KeyOpen) then
      var w := RunFrom(s, j + 4, IsDigit);
      if w >= 1 && j + 4 + w < |s| && s[j + 4 + w] == ']' then
        assert s[j..j + 4 + w + 1] == s[j..j + 4] + s[j + 4..j + 4 + w] + [s[j + 4 + w]];
        Some(s[j + 4..j + 4 + w])
      else None
    else None
  }

  /** `msg.match(/\[EI:(\d+)\]/)?.[1]`: the correlation key of a message. */
  function CorrelationKey(msg: string): (r: Option<string>)
    ensures r.None? <==> forall j :: 0 <= j <= |msg| ==> KeyAt(msg, j).None?
    ensures r.Some? ==> |r.value| >= 1 && AllDigits(r.value) && Contains(msg, KeyOpen + r.value + "]")
  {
    var found := (j: nat) => KeyAt(msg, j).Some?;
    assert forall j: nat :: found(j) == KeyAt(msg, j).Some?;
    match FirstIndex(|msg|, found, 0)
    case None => None
    case Some(j) =>
      ContainsAt(msg, KeyOpen + KeyAt(msg, j).value + "]", j);
      KeyAt(msg, j)
  }

  /** A message that carries `[EI:k]`, with no `[` before it, has key `k`. */
  lemma KeyOfTaggedMessage(p: string, k: string, rest: string)
    requires '[' !in p && |k| >= 1 && AllDigits(k)
    ensures CorrelationKey(p + KeyOpen + k + "]" + rest) == Some(k)
  {
    var s := p + KeyOpen + k + "]" + rest;
    var j := |p|;
    KeyAtTagged(p, k, rest);
    forall i | 0 <= i < j
      ensures KeyAt(s, i).None?
    {
      assert s[i] == p[i];
      MismatchAt(s, i, KeyOpen, 0);
    }
    FirstIndexAt(|s|, (i: nat) => KeyAt(s, i).Some?, 0, j);
  }

  lemma KeyAtTagged(p: string, k: string, rest: string)
    requires |k| >= 1 && AllDigits(k)
    ensures KeyAt(p + KeyOpen + k + "]" + rest, |p|) == Some(k)
  {
    var s := p + KeyOpen + k + "]" + rest;
    var j := |p|;
    assert s[j..j + 4] == KeyOpen;
    assert s[j + 4..j + 4 + |k|] == k;
    assert s[j + 4 + |k|] == ']';
    RunFromExact(s, j + 4, IsDigit, |k|);
  }

  /* ---------------- labelled fields ---------------- */

  /** The index of the next comma at or after `v`, or the end of `s`. */
  function CommaFrom(s: string, v: nat): (c: nat)
    requires v <= |s|
    ensures v <= c <= |s|
    ensures forall i :: v <= i < c ==> s[i] != ','
    ensures c == |s| || s[c] == ','
  {
    var c := IndexOfFrom(s, ",", v);
    IndexOfComma(s, v);
    if c < 0 then |s| else c
  }

  lemma IndexOfComma(s: string, v: nat)
    requires v <= |s|
    ensures var c := IndexOfFrom(s, ",", v);
      && (forall i :: v <= i < (if c < 0 then |s| else c) ==> s[i] != ',')
      && (c >= 0 ==> c < |s| && s[c] == ',')
  {
    var c := IndexOfFrom(s, ",", v);
    var e := if c < 0 then |s| else c;
    forall i | v <= i < e
      ensures s[i] != ','
    {
      assert !StartsWithAt(s, i, ",");
      assert s[i..i + 1] == [s[i]];
    }
    if c >= 0 {
      assert s[c..c + 1] == ",";
    }
  }

  /** Trimming keeps a slice of the text, so it adds no comma. */
  lemma TrimNoComma(t: string)
    requires ',' !in t
    ensures Trimmed(Trim(t)) && ',' !in Trim(t)
  {
    TrimTrimmed(t);
    var a, b := TrimCut(t);
    forall i | 0 <= i < |Trim(t)|
      ensures Trim(t)[i] != ','
    {
      assert Trim(t)[i] == t[a + i];
    }
  }

  /** `\s*([^,]+)` at `v`, trimmed. The group may take white space, so a
      match exists exactly when some character other than a comma follows;
      the trimmed group is the trimmed text up to the next comma either way. */
  function ValueAt(s: string, v: nat): (r: Option<string>)
    requires v <= |s|
    ensures r.Some? <==> v < |s| && s[v] != ','
    ensures r.Some? ==> Trimmed(r.value) && ',' !in r.value
  {
    if v < |s| && s[v] != ',' then
      var t := s[v..CommaFrom(s, v)];
      TrimNoComma(t);
      Some(Trim(t))
    else None
  }

  /** Text up to a comma or the end is read back trimmed. */
  lemma ValueAtWritten(s: string, v: nat, t: string)
    requires v + |t| <= |s| && s[v..v + |t|] == t
    requires t != [] && t[0] != ',' && ',' !in t
    requires v + |t| == |s| || s[v + |t|] == ','
    ensures ValueAt(s, v) == Some(Trim(t))
  {
    var e := v + |t|;
    var c := CommaFrom(s, v);
    assert forall i :: v <= i < e ==> s[i] == t[i - v] && t[i - v] in t;
    assert c == e;
    assert s[v..c] == t;
  }

  /** How a field's name is followed by its value. */
  datatype Separator =
    | Direct   // `name\s*([^,]+)`, the name ending in its own colon
    | Colon    // `name\s*:\s*([^,]+)`

  /** The trimmed group of the field `name` matched at `j`. */
  function FieldAt(s: string, j: nat, name: string, sep: Separator): (r: Option<string>)
    ensures r.Some? ==> StartsWithAt(s, j, name)
    ensures r.Some? ==> Trimmed(r.value) && ',' !in r.value
  {
    if !StartsWithAt(s, j, name) then None
    else if sep == Direct then ValueAt(s, j + |name|)
    else
      var c := j + |name| + RunFrom(s, j + |name|, IsSpace);
      if c < |s| && s[c] == ':' then ValueAt(s, c + 1) else None
  }

  /** `msg.match(new RegExp(name + ...))?.[1]?.trim()`. */
  function Field(msg: string, name: string, sep: Separator): (r: Option<string>)
    ensures r.None? <==> forall j :: 0 <= j <= |msg| ==> FieldAt(msg, j, name, sep).None?
    ensures r.Some? ==> Trimmed(r.value) && ',' !in r.value
    ensures !Contains(msg, name) ==> r.None?
  {
    var found := (j: nat) => FieldAt(msg, j, name, sep).Some?;
    assert forall j: nat :: found(j) == FieldAt(msg, j, name, sep).Some?;
    match FirstIndex(|msg|, found, 0)
    case None => None
    case Some(j) =>
      ContainsAt(msg, name, j);
      FieldAt(msg, j, name, sep)
  }

  /** `field || d`: a missing or blank field falls back to `d`. */
  function FieldOr(msg: string, name: string, sep: Separator, d: string): (r: string)
    ensures r == d || (r != "" && Field(msg, name, sep) == Some(r))
    ensures !Contains(msg, name) ==> r == d
  {
    OrDefault(Field(msg, name, sep), d)
  }

  /** Trimming drops the one space written before a value. */
  lemma TrimAfterSpace(value: string)
    requires value != "" && Trimmed(value)
    ensures Trim(" " + value) == value
  {
    assert (" " + value)[1..] == value;
    assert TrimStart(" " + value) == value;
    TrimOfTrimmed(value);
  }

  /** The text at `v`: a space and the value, then a comma or the end. */
  lemma ValueAfterName(s: string, v: nat, value: string, rest: string)
    requires value != "" && Trimmed(value) && ',' !in value
    requires rest == "" || rest[0] == ','
    requires v <= |s| && s[v..] == " " + value + rest
    ensures ValueAt(s, v) == Some(value)
  {
    var t := " " + value;
    assert s[v..v + |t|] == t;
    if rest != "" {
      assert s[v + |t|] == s[v..][|t|] == rest[0];
    }
    assert ',' !in t by {
      assert forall i :: 1 <= i < |t| ==> t[i] == value[i - 1];
    }
    ValueAtWritten(s, v, t);
    TrimAfterSpace(value);
  }

  /** What the source system writes between a field's name and its value. */
  function Gap(sep: Separator): string {
    if sep == Direct then " " else " : "
  }

  lemma FieldAtDirect(s: string, j: nat, name: string, value: string)
    requires StartsWithAt(s, j, name) && ValueAt(s, j + |name|) == Some(value)
    ensures FieldAt(s, j, name, Direct) == Some(value)
  {
  }

  lemma FieldAtColon(s: string, j: nat, name: string, value: string)
    requires StartsWithAt(s, j, name) && j + |name| + 2 <= |s|
    requires s[j + |name|] == ' ' && s[j + |name| + 1] == ':'
    requires ValueAt(s, j + |name| + 2) == Some(value)
    ensures FieldAt(s, j, name, Colon) == Some(value)
  {
    RunFromExact(s, j + |name|, IsSpace, 1);
  }

  /** The value of a field written at `j`, as matched there. */
  lemma FieldAtWritten(s: string, j: nat, name: string, sep: Separator, value: string, rest: string)
    requires value != "" && Trimmed(value) && ',' !in value
    requires rest == "" || rest[0] == ','
    requires StartsWithAt(s, j, name) && s[j + |name|..] == Gap(sep) + value + rest
    ensures FieldAt(s, j, name, sep) == Some(value)
  {
    var u := j + |name|;
    if sep == Direct {
      ValueAfterName(s, u, value, rest);
      FieldAtDirect(s, j, name, value);
    } else {
      assert s[u] == s[u..][0] == ' ';
      assert s[u + 1] == s[u..][1] == ':';
      assert s[u + 2..] == s[u..][2..] == " " + value + rest;
      ValueAfterName(s, u + 2, value, rest);
      FieldAtColon(s, j, name, value);
    }
  }

  /** A written field is read back: where the name first occurs, followed by
      the separator and a trimmed, non-empty, comma-free value, then a comma
      or the end, the field reads as that value. */
  lemma FieldRoundTrip(s: string, j: nat, name: string, sep: Separator, value: string, rest: string, d: string)
    requires value != "" && Trimmed(value) && ',' !in value
    requires rest == "" || rest[0] == ','
    requires IndexOf(s, name) == j && j + |name| <= |s|
    requires s[j + |name|..] == Gap(sep) + value + rest
    ensures FieldOr(s, name, sep, d) == value
  {
    FieldAtWritten(s, j, name, sep, value, rest);
    var found := (i: nat) => FieldAt(s, i, name, sep).Some?;
    forall k | 0 <= k < j
      ensures !found(k)
    {
      assert !StartsWithAt(s, k, name);
    }
    FirstIndexAt(|s|, found, 0, j);
    assert Field(s, name, sep) == Some(value);
  }

  /* ---------------- the revision number ---------------- */

  const RevisionName := "Revision Id"

  /** `/Revision Id\s*:\s*(\d+)/` at `j`: both white-space runs and the digit
      run are maximal, since `:` and a digit cannot match white space. */
  function RevisionAt(s: string, j: nat): (r: Option<string>)
    ensures r.Some? ==> |r.value| >= 1 && AllDigits(r.value)
    ensures r.Some? ==> StartsWithAt(s, j, RevisionName)
  {
    if !StartsWithAt(s, j, RevisionName) then None
    else
      var c := j + 11 + RunFrom(s, j + 11, IsSpace);
      if c < |s| && s[c] == ':' then
        var v := c + 1 + RunFrom(s, c + 1, IsSpace);
        var w := RunFrom(s, v, IsDigit);
        if w >= 1 then Some(s[v..v + w]) else None
      else None
  }

  /** `Number(msg.match(/Revision Id\s*:\s*(\d+)/)?.[1] || 0)`. */
  function Revision(msg: string): (r: nat)
    ensures (forall j :: 0 <= j <= |msg| ==> RevisionAt(msg, j).None?) ==> r == 0
    ensures !Contains(msg, RevisionName) ==> r == 0
  {
    var found := (j: nat) => RevisionAt(msg, j).Some?;
    assert forall j: nat :: found(j) == RevisionAt(msg, j).Some?;
    match FirstIndex(|msg|, found, 0)
    case None => 0
    case Some(j) =>
      ContainsAt(msg, RevisionName, j);
      DecimalValue(RevisionAt(msg, j).value)
  }

  lemma RevisionAtRuns(s: string, j: nat, w: nat)
    requires StartsWithAt(s, j, RevisionName) && j + 13 <= |s|
    requires s[j + 11] == ':' && RunFrom(s, j + 11, IsSpace) == 0 && RunFrom(s, j + 12, IsSpace) == 1
    requires RunFrom(s, j + 13, IsDigit) == w && w >= 1
    ensures RevisionAt(s, j) == Some(s[j + 13..j + 13 + w])
  {
  }

  /** After the name: `: `, the digits, then no further digit. */
  lemma RevisionText(s: string, u: nat, digits: string, rest: string)
    requires |digits| >= 1 && AllDigits(digits)
    requires rest == "" || !IsDigit(rest[0])
    requires u <= |s| && s[u..] == ": " + digits + rest
    ensures u + 2 + |digits| <= |s| && s[u] == ':'
    ensures RunFrom(s, u, IsSpace) == 0 && RunFrom(s, u + 1, IsSpace) == 1
    ensures RunFrom(s, u + 2, IsDigit) == |digits| && s[u + 2..u + 2 + |digits|] == digits
  {
    var t := s[u..];
    assert t[0] == ':' && t[1] == ' ' && t[2..2 + |digits|] == digits;
    assert 2 + |digits| == |t| || !IsDigit(t[2 + |digits|]);
    RevisionRuns(s, u, digits);
  }

  lemma RevisionRuns(s: string, u: nat, digits: string)
    requires |digits| >= 1 && AllDigits(digits)
    requires u + 2 + |digits| <= |s|
    requires s[u..][0] == ':' && s[u..][1] == ' ' && s[u..][2..2 + |digits|] == digits
    requires 2 + |digits| == |s[u..]| || !IsDigit(s[u..][2 + |digits|])
    ensures s[u] == ':'
    ensures RunFrom(s, u, IsSpace) == 0 && RunFrom(s, u + 1, IsSpace) == 1
    ensures RunFrom(s, u + 2, IsDigit) == |digits| && s[u + 2..u + 2 + |digits|] == digits
  {
    var v := u + 2;
    assert s[u] == ':' && s[u + 1] == ' ';
    assert s[v..v + |digits|] == digits;
    assert s[v] == digits[0];
    RunFromExact(s, u, IsSpace, 0);
    RunFromExact(s, u + 1, IsSpace, 1);
    assert forall i :: v <= i < v + |digits| ==> s[i] == digits[i - v];
    RunFromExact(s, v, IsDigit, |digits|);
  }

  /** The digits of a written revision number, as matched where written. */
  lemma RevisionAtWritten(s: string, j: nat, n: nat, rest: string)
    requires rest == "" || !IsDigit(rest[0])
    requires StartsWithAt(s, j, RevisionName) && s[j + 11..] == ": " + NatToString(n) + rest
    ensures RevisionAt(s, j) == Some(NatToString(n))
  {
    RevisionText(s, j + 11, NatToString(n), rest);
    RevisionAtRuns(s, j, |NatToString(n)|);
  }

  /** A written revision number is read back. */
  lemma RevisionRoundTrip(s: string, j: nat, n: nat, rest: string)
    requires rest == "" || !IsDigit(rest[0])
    requires IndexOf(s, RevisionName) == j && j + 11 <= |s|
    requires s[j + 11..] == ": " + NatToString(n) + rest
    ensures Revision(s) == n
  {
    RevisionAtWritten(s, j, n, rest);
    FirstIndexAt(|s|, (i: nat) => RevisionAt(s, i).Some?, 0, j);
    DecimalRoundTrip(n);
  }
}
