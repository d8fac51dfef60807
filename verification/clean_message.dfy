/** `cleanLogMessage` of src/utils/formatters.ts: strip the Log4j2 layout
    prefix (timestamp, level, thread, logger, dash, bracketed metadata) from
    a message and trim what is left.

    The prefix pattern is matched piece by piece, each piece taking its
    longest run. For this pattern that is exactly what the backtracking
    regular-expression engine finds: every run is followed by a piece whose
    first character lies outside the run's class (a digit after spaces, a
    space after letters, `]` after non-`]` characters, ...), so no shorter
    run could lead to a match the longest one misses, and the trailing
    repetition of metadata items is taken as often as it matches. */
module CleanMessage {
  import opened Optional
  import opened Text

  /** One piece of the pattern. A `Shape` matches a fixed number of
      characters: `9` in the form stands for a digit (`\d`), `S` for a sign
      (`[+-]`), any other character for itself. */
  datatype Piece =
    | Shape(form: string)
    | OneOrMore(cls: char -> bool)
    | ZeroOrMore(cls: char -> bool)

  predicate ShapeChar(f: char, c: char) {
    if f == '9' then IsDigit(c) else if f == 'S' then c == '+' || c == '-' else c == f
  }

  predicate FitsShape(w: string, form: string) {
    |w| == |form| && forall k :: 0 <= k < |w| ==> ShapeChar(form[k], w[k])
  }

  /** `[A-Z]` under the `i` flag. */
  predicate IsLevelChar(c: char) {
    IsAsciiLetter(c)
  }

  /** `[a-z0-9._]` under the `i` flag. */
  predicate IsLoggerChar(c: char) {
    IsAsciiLetter(c) || IsDigit(c) || c == '.' || c == '_'
  }

  predicate NotCloseBracket(c: char) {
    c != ']'
  }

  const DateShape := "9999-99-99"
  const TimeShape := "99:99:99.999S99:99"

  /** `\d{4}-\d{2}-\d{2}\s+\d{2}:\d{2}:\d{2}\.\d{3}[+-]\d{2}:\d{2}` */
  const StampPieces: seq<Piece> := [Shape(DateShape), OneOrMore(IsSpace), Shape(TimeShape)]

  /** `\s+[A-Z]+` */
  const LevelPieces: seq<Piece> := [OneOrMore(IsSpace), OneOrMore(IsLevelChar)]

  /** `\s+\[[^\]]*\]` */
  const ThreadPieces: seq<Piece> := [OneOrMore(IsSpace), Shape("["), ZeroOrMore(NotCloseBracket), Shape("]")]

  /** `\s+[a-z0-9._]+` */
  const LoggerPieces: seq<Piece> := [OneOrMore(IsSpace), OneOrMore(IsLoggerChar)]

  /** `\s+-\s*` */
  const DashPieces: seq<Piece> := [OneOrMore(IsSpace), Shape("-"), ZeroOrMore(IsSpace)]

  /** The pattern up to its repeated metadata items. */
  const Header: seq<Piece> := StampPieces + LevelPieces + ThreadPieces + LoggerPieces + DashPieces

  /** `\[[^\]]+\]\s*`, the item the pattern repeats at its end. */
  const MetaItem: seq<Piece> := [Shape("["), OneOrMore(NotCloseBracket), Shape("]"), ZeroOrMore(IsSpace)]

  /** Matches one piece at the front of `s`; the text after it. */
  function MatchPiece(p: Piece, s: string): (r: Option<string>)
    ensures r.Some? ==> |r.value| <= |s|
  {
    match p
    case Shape(form) => if |form| <= |s| && FitsShape(s[..|form|], form) then Some(s[|form|..]) else None
    case OneOrMore(cls) =>
      var k := RunFrom(s, 0, cls);
      if k >= 1 then Some(s[k..]) else None
    case ZeroOrMore(cls) => Some(s[RunFrom(s, 0, cls)..])
  }

  /** Matches the pieces one after another; the text after the last. */
  function MatchPieces(ps: seq<Piece>, s: string): (r: Option<string>)
    ensures r.Some? ==> |r.value| <= |s|
    decreases |ps|
  {
    if ps == [] then Some(s)
    else match MatchPiece(ps[0], s)
      case None => None
      case Some(rest) => MatchPieces(ps[1..], rest)
  }

  /** `(?:\[[^\]]+\]\s*)*`: as many metadata items as follow. */
  function SkipMetadata(s: string): (r: string)
    ensures |r| <= |s|
    decreases |s|
  {
    var m := MatchPieces(MetaItem, s);
    if m.Some? && |m.value| < |s| then SkipMetadata(m.value) else s
  }

  /** `cleanLogMessage`. */
  function CleanLogMessage(message: string): string {
    if message == "" then message
    else
      match MatchPieces(Header, message)
      case None => Trim(message)
      case Some(rest) => Trim(SkipMetadata(rest))
  }

  /* ---------------- what cleaning does ---------------- */

  /** What a piece leaves is a tail of its input. */
  lemma MatchPieceSuffix(p: Piece, s: string)
    ensures MatchPiece(p, s).Some? ==> MatchPiece(p, s).value == s[|s| - |MatchPiece(p, s).value|..]
  {
  }

  lemma {:induction false} MatchPiecesSuffix(ps: seq<Piece>, s: string)
    ensures MatchPieces(ps, s).Some? ==> MatchPieces(ps, s).value == s[|s| - |MatchPieces(ps, s).value|..]
    decreases |ps|
  {
    if ps != [] {
      MatchPieceSuffix(ps[0], s);
      var m := MatchPiece(ps[0], s);
      if m.Some? {
        MatchPiecesSuffix(ps[1..], m.value);
      }
    }
  }

  lemma {:induction false} SkipMetadataSuffix(s: string)
    ensures SkipMetadata(s) == s[|s| - |SkipMetadata(s)|..]
    decreases |s|
  {
    var m := MatchPieces(MetaItem, s);
    MatchPiecesSuffix(MetaItem, s);
    if m.Some? && |m.value| < |s| {
      SkipMetadataSuffix(m.value);
    }
  }

  /** The empty message comes back as is; otherwise the result is a trimmed
      tail of the message, the whole message trimmed when the prefix is
      absent. */
  lemma CleanSpec(message: string)
    ensures message == "" ==> CleanLogMessage(message) == ""
    ensures Trimmed(CleanLogMessage(message))
    ensures exists k :: 0 <= k <= |message| && CleanLogMessage(message) == Trim(message[k..])
    ensures MatchPieces(Header, message).None? ==> CleanLogMessage(message) == Trim(message)
  {
    if message == "" {
      assert message[0..] == message;
    } else {
      match MatchPieces(Header, message)
      case None =>
        TrimSpec(message);
        assert message[0..] == message;
      case Some(rest) =>
        var t := SkipMetadata(rest);
        MatchPiecesSuffix(Header, message);
        SkipMetadataSuffix(rest);
        TrimSpec(t);
        assert t == message[|message| - |t|..];
    }
  }

  /** A message that does not open with a `YYYY-MM-DD` date is only trimmed. */
  lemma NoDateOnlyTrimmed(message: string)
    requires !(|message| >= |DateShape| && FitsShape(message[..|DateShape|], DateShape))
    ensures CleanLogMessage(message) == Trim(message)
  {
    MatchConcat(StampPieces, LevelPieces + ThreadPieces + LoggerPieces + DashPieces, message);
    assert Header == StampPieces + (LevelPieces + ThreadPieces + LoggerPieces + DashPieces);
    assert StampPieces[0] == Shape(DateShape);
    assert MatchPiece(StampPieces[0], message).None?;
  }

  /* ---------------- round trip through a Log4j2 line ---------------- */

  /** The parts of one line of the layout
      `%d %level [%thread] %logger - [meta] ... text`. */
  datatype Log4jLine = Log4jLine(
    date: string, time: string, level: string, thread: string, logger: string,
    metadata: seq<string>, text: string)

  /** Each metadata item as `[item] `, then the text. */
  function RenderMetadata(metadata: seq<string>, text: string): string
    decreases |metadata|
  {
    if metadata == [] then text else "[" + (metadata[0] + ("]" + (" " + RenderMetadata(metadata[1..], text))))
  }

  /** The metadata and the text. */
  function Body(l: Log4jLine): string {
    RenderMetadata(l.metadata, l.text)
  }

  /** The line as log4j prints it: date, time, level, `[thread]`, logger,
      `-`, then the body, separated by single spaces. */
  function Render(l: Log4jLine): string {
    l.date + (" " + (l.time + AfterTime(l)))
  }

  /** What follows the time stamp. */
  function AfterTime(l: Log4jLine): string {
    " " + (l.level + AfterLevel(l))
  }

  /** What follows the level. */
  function AfterLevel(l: Log4jLine): string {
    " " + ("[" + (l.thread + ("]" + AfterThread(l))))
  }

  /** What follows the thread. */
  function AfterThread(l: Log4jLine): string {
    " " + (l.logger + AfterLogger(l))
  }

  /** What follows the logger. */
  function AfterLogger(l: Log4jLine): string {
    " " + ("-" + (" " + Body(l)))
  }

  predicate AllIn(w: string, cls: char -> bool) {
    forall k :: 0 <= k < |w| ==> cls(w[k])
  }

  /** The parts are what the layout writes: a date and a time with zone
      offset in their fixed shapes, a level of letters, a thread without
      `]`, a dotted logger name, non-empty metadata without `]`, and a text
      with no surrounding white space that does not open with `[`. */
  predicate WellFormedLine(l: Log4jLine) {
    FitsShape(l.date, DateShape) && FitsShape(l.time, TimeShape)
    && |l.level| >= 1 && AllIn(l.level, IsLevelChar)
    && AllIn(l.thread, NotCloseBracket)
    && |l.logger| >= 1 && AllIn(l.logger, IsLoggerChar)
    && (forall i :: 0 <= i < |l.metadata| ==> |l.metadata[i]| >= 1 && AllIn(l.metadata[i], NotCloseBracket))
    && Trimmed(l.text) && (l.text == "" || l.text[0] != '[')
  }

  /** `w` is what piece `p` takes from the front of `w + rest`. */
  predicate PieceFits(p: Piece, w: string, rest: string) {
    match p
    case Shape(form) => FitsShape(w, form)
    case OneOrMore(cls) => |w| >= 1 && AllIn(w, cls) && (rest == "" || !cls(rest[0]))
    case ZeroOrMore(cls) => AllIn(w, cls) && (rest == "" || !cls(rest[0]))
  }

  lemma MatchFit(p: Piece, w: string, rest: string)
    requires PieceFits(p, w, rest)
    ensures MatchPiece(p, w + rest) == Some(rest)
  {
    var s := w + rest;
    assert s[|w|..] == rest;
    match p
    case Shape(form) =>
      assert s[..|form|] == w;
    case OneOrMore(cls) =>
      RunFromExact(s, 0, cls, |w|);
    case ZeroOrMore(cls) =>
      RunFromExact(s, 0, cls, |w|);
  }

  /** Matching piece `i` against `w + rest` leaves `rest` for the pieces after it. */
  lemma MatchStep(ps: seq<Piece>, i: nat, w: string, rest: string)
    requires i < |ps| && PieceFits(ps[i], w, rest)
    ensures MatchPieces(ps[i..], w + rest) == MatchPieces(ps[i + 1..], rest)
  {
    MatchFit(ps[i], w, rest);
    assert ps[i..][0] == ps[i] && ps[i..][1..] == ps[i + 1..];
  }

  /** The metadata text opens with `[` unless there is none. */
  lemma BodyStart(metadata: seq<string>, text: string)
    ensures metadata == [] ==> RenderMetadata(metadata, text) == text
    ensures metadata != [] ==> RenderMetadata(metadata, text)[0] == '['
  {
  }

  /** One rendered metadata item is one match of the repeated item. */
  lemma MetaItemMatches(m: string, tail: string)
    requires |m| >= 1 && AllIn(m, NotCloseBracket)
    requires tail == "" || !IsSpace(tail[0])
    ensures MatchPieces(MetaItem, "[" + (m + ("]" + (" " + tail)))) == Some(tail)
  {
    assert MetaItem[0..] == MetaItem;
    MatchStep(MetaItem, 0, "[", m + ("]" + (" " + tail)));
    MatchStep(MetaItem, 1, m, "]" + (" " + tail));
    MatchStep(MetaItem, 2, "]", " " + tail);
    MatchStep(MetaItem, 3, " ", tail);
    assert MetaItem[4..] == [];
  }

  /** Text that does not open with `[` holds no metadata item. */
  lemma NoMetadata(text: string)
    requires text == "" || text[0] != '['
    ensures SkipMetadata(text) == text
  {
    if text != "" {
      assert MetaItem[0] == Shape("[");
      assert MatchPiece(MetaItem[0], text).None?;
    }
  }

  /** A rendered item is skipped as a whole. */
  lemma SkipOneItem(m: string, tail: string)
    requires |m| >= 1 && AllIn(m, NotCloseBracket)
    requires tail == "" || !IsSpace(tail[0])
    ensures SkipMetadata("[" + (m + ("]" + (" " + tail)))) == SkipMetadata(tail)
  {
    MetaItemMatches(m, tail);
  }

  lemma {:induction false} MetadataSkipped(metadata: seq<string>, text: string)
    requires forall i :: 0 <= i < |metadata| ==> |metadata[i]| >= 1 && AllIn(metadata[i], NotCloseBracket)
    requires text == "" || (text[0] != '[' && !IsSpace(text[0]))
    ensures SkipMetadata(RenderMetadata(metadata, text)) == text
    decreases |metadata|
  {
    BodyStart(metadata, text);
    if metadata == [] {
      NoMetadata(text);
    } else {
      var tail := RenderMetadata(metadata[1..], text);
      BodyStart(metadata[1..], text);
      SkipOneItem(metadata[0], tail);
      MetadataSkipped(metadata[1..], text);
    }
  }

  /** Matching `a + b` is matching `a`, then `b` on what is left. */
  lemma {:induction false} MatchConcat(a: seq<Piece>, b: seq<Piece>, s: string)
    ensures MatchPieces(a + b, s)
         == match MatchPieces(a, s) case None => None case Some(rest) => MatchPieces(b, rest)
    decreases |a|
  {
    if a != [] {
      assert (a + b)[0] == a[0] && (a + b)[1..] == a[1..] + b;
      match MatchPiece(a[0], s)
      case None =>
      case Some(rest) => MatchConcat(a[1..], b, rest);
    } else {
      assert a + b == b;
    }
  }

  lemma StampMatches(date: string, time: string, rest: string)
    requires FitsShape(date, DateShape) && FitsShape(time, TimeShape)
    ensures MatchPieces(StampPieces, date + (" " + (time + rest))) == Some(rest)
  {
    assert StampPieces[0..] == StampPieces;
    MatchStep(StampPieces, 0, date, " " + (time + rest));
    MatchStep(StampPieces, 1, " ", time + rest);
    MatchStep(StampPieces, 2, time, rest);
    assert StampPieces[3..] == [];
  }

  lemma LevelMatches(level: string, rest: string)
    requires |level| >= 1 && AllIn(level, IsLevelChar)
    requires rest == "" || !IsLevelChar(rest[0])
    ensures MatchPieces(LevelPieces, " " + (level + rest)) == Some(rest)
  {
    assert LevelPieces[0..] == LevelPieces;
    MatchStep(LevelPieces, 0, " ", level + rest);
    MatchStep(LevelPieces, 1, level, rest);
    assert LevelPieces[2..] == [];
  }

  lemma ThreadMatches(thread: string, rest: string)
    requires AllIn(thread, NotCloseBracket)
    ensures MatchPieces(ThreadPieces, " " + ("[" + (thread + ("]" + rest)))) == Some(rest)
  {
    calc {
      MatchPieces(ThreadPieces, " " + ("[" + (thread + ("]" + rest))));
      { assert ThreadPieces[0..] == ThreadPieces; }
      MatchPieces(ThreadPieces[0..], " " + ("[" + (thread + ("]" + rest))));
      { MatchStep(ThreadPieces, 0, " ", "[" + (thread + ("]" + rest))); }
      MatchPieces(ThreadPieces[1..], "[" + (thread + ("]" + rest)));
      { MatchStep(ThreadPieces, 1, "[", thread + ("]" + rest)); }
      MatchPieces(ThreadPieces[2..], thread + ("]" + rest));
      { MatchStep(ThreadPieces, 2, thread, "]" + rest); }
      MatchPieces(ThreadPieces[3..], "]" + rest);
      { MatchStep(ThreadPieces, 3, "]", rest); }
      MatchPieces(ThreadPieces[4..], rest);
      { assert ThreadPieces[4..] == []; }
      Some(rest);
    }
  }

  lemma LoggerMatches(logger: string, rest: string)
    requires |logger| >= 1 && AllIn(logger, IsLoggerChar)
    requires rest == "" || !IsLoggerChar(rest[0])
    ensures MatchPieces(LoggerPieces, " " + (logger + rest)) == Some(rest)
  {
    assert LoggerPieces[0..] == LoggerPieces;
    MatchStep(LoggerPieces, 0, " ", logger + rest);
    MatchStep(LoggerPieces, 1, logger, rest);
    assert LoggerPieces[2..] == [];
  }

  lemma DashMatches(rest: string)
    requires rest == "" || !IsSpace(rest[0])
    ensures MatchPieces(DashPieces, " " + ("-" + (" " + rest))) == Some(rest)
  {
    assert DashPieces[0..] == DashPieces;
    MatchStep(DashPieces, 0, " ", "-" + (" " + rest));
    MatchStep(DashPieces, 1, "-", " " + rest);
    MatchStep(DashPieces, 2, " ", rest);
    assert DashPieces[3..] == [];
  }

  lemma UpToLevel(l: Log4jLine)
    requires WellFormedLine(l)
    ensures MatchPieces(StampPieces + LevelPieces, Render(l)) == Some(AfterLevel(l))
  {
    StampMatches(l.date, l.time, AfterTime(l));
    LevelMatches(l.level, AfterLevel(l));
    MatchThen(StampPieces, LevelPieces, Render(l), AfterTime(l));
  }

  lemma UpToThread(l: Log4jLine)
    requires WellFormedLine(l)
    ensures MatchPieces(StampPieces + LevelPieces + ThreadPieces, Render(l)) == Some(AfterThread(l))
  {
    UpToLevel(l);
    ThreadMatches(l.thread, AfterThread(l));
    MatchThen(StampPieces + LevelPieces, ThreadPieces, Render(l), AfterLevel(l));
  }

  lemma UpToLogger(l: Log4jLine)
    requires WellFormedLine(l)
    ensures MatchPieces(StampPieces + LevelPieces + ThreadPieces + LoggerPieces, Render(l)) == Some(AfterLogger(l))
  {
    UpToThread(l);
    LoggerMatches(l.logger, AfterLogger(l));
    MatchThen(StampPieces + LevelPieces + ThreadPieces, LoggerPieces, Render(l), AfterThread(l));
  }

  /** The header of a well-formed line is matched up to its metadata. */
  lemma HeaderMatches(l: Log4jLine)
    requires WellFormedLine(l)
    ensures MatchPieces(Header, Render(l)) == Some(Body(l))
  {
    UpToLogger(l);
    DashMatches(Body(l));
    MatchThen(StampPieces + LevelPieces + ThreadPieces + LoggerPieces, DashPieces, Render(l), AfterLogger(l));
  }

  /** Once `a` has matched up to `mid`, `a + b` matches as `b` does on `mid`. */
  lemma MatchThen(a: seq<Piece>, b: seq<Piece>, s: string, mid: string)
    requires MatchPieces(a, s) == Some(mid)
    ensures MatchPieces(a + b, s) == MatchPieces(b, mid)
  {
    MatchConcat(a, b, s);
  }

  /** Cleaning a well-formed line gives back exactly its text. */
  lemma CleanRoundTrip(l: Log4jLine)
    requires WellFormedLine(l)
    ensures CleanLogMessage(Render(l)) == l.text
  {
    HeaderMatches(l);
    MetadataSkipped(l.metadata, l.text);
    TrimOfTrimmed(l.text);
  }
}
