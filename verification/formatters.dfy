/** The display formatters of src/utils/formatters.ts that need no date
    library: `formatDuration` (its integer branches), `truncateText`,
    `formatLogClass` and `formatXML`. `cleanLogMessage` lives in module
    CleanMessage. */
module Formatters {
  import opened Text

  /* ---------------- formatDuration ---------------- */

  const MsPerSecond := 1000
  const MsPerMinute := 60000
  const MsPerHour := 3600000

  /** `formatDuration(ms)` for an integral `ms`. The 1 s to 60 s branch prints
      `(ms / 1000).toFixed(1)`, a floating-point rendering the model takes
      as the parameter `oneDecimal`. */
  function FormatDuration(ms: int, oneDecimal: int -> string): string {
    if ms < MsPerSecond then IntToString(ms) + "ms"
    else if ms < MsPerMinute then oneDecimal(ms) + "s"
    else if ms < MsPerHour then
      NatToString(ms / MsPerMinute) + "m " + NatToString((ms % MsPerMinute) / MsPerSecond) + "s"
    else NatToString(ms / MsPerHour) + "h " + NatToString((ms % MsPerHour) / MsPerMinute) + "m"
  }

  /** Below a second the text is the number of milliseconds, read back as
      written, then `ms`; a negative count carries a minus sign. */
  lemma DurationMillis(ms: int, oneDecimal: int -> string)
    requires ms < MsPerSecond
    ensures var r := FormatDuration(ms, oneDecimal);
      |r| >= 3 && r[|r| - 2..] == "ms"
      && (ms >= 0 ==> AllDigits(r[..|r| - 2]) && DecimalValue(r[..|r| - 2]) == ms)
      && (ms < 0 ==> r[0] == '-' && AllDigits(r[1..|r| - 2]) && DecimalValue(r[1..|r| - 2]) == -ms)
  {
    var r := FormatDuration(ms, oneDecimal);
    if ms >= 0 {
      assert r[..|r| - 2] == NatToString(ms);
      DecimalRoundTrip(ms);
    } else {
      assert r[1..|r| - 2] == NatToString(-ms);
      DecimalRoundTrip(-ms);
    }
  }

  /** From a minute to an hour: `m` whole minutes and `s` whole seconds,
      for the unique `m` and `s < 60` that leave less than a second over. */
  lemma DurationMinutes(ms: int, oneDecimal: int -> string, m: nat, s: nat)
    requires MsPerMinute <= ms < MsPerHour
    requires s < 60 && m * MsPerMinute + s * MsPerSecond <= ms < m * MsPerMinute + s * MsPerSecond + MsPerSecond
    ensures FormatDuration(ms, oneDecimal) == NatToString(m) + "m " + NatToString(s) + "s"
    ensures 1 <= m < 60
  {
    var rest := ms - m * MsPerMinute - s * MsPerSecond;
    assert ms == m * MsPerMinute + (s * MsPerSecond + rest);
    DivModUnique(ms, MsPerMinute, m, s * MsPerSecond + rest);
    DivModUnique(s * MsPerSecond + rest, MsPerSecond, s, rest);
  }

  /** From an hour on: `h` whole hours and `m` whole minutes, for the unique
      `h` and `m < 60` that leave less than a minute over. */
  lemma DurationHours(ms: int, oneDecimal: int -> string, h: nat, m: nat)
    requires ms >= MsPerHour
    requires m < 60 && h * MsPerHour + m * MsPerMinute <= ms < h * MsPerHour + m * MsPerMinute + MsPerMinute
    ensures FormatDuration(ms, oneDecimal) == NatToString(h) + "h " + NatToString(m) + "m"
    ensures h >= 1
  {
    var rest := ms - h * MsPerHour - m * MsPerMinute;
    assert ms == h * MsPerHour + (m * MsPerMinute + rest);
    DivModUnique(ms, MsPerHour, h, m * MsPerMinute + rest);
    DivModUnique(m * MsPerMinute + rest, MsPerMinute, m, rest);
  }

  /** Quotient and remainder are the only such pair. */
  lemma DivModUnique(a: int, d: int, q: int, r: int)
    requires d > 0 && 0 <= r < d && a == q * d + r
    ensures a / d == q && a % d == r
  {
    var q', r' := a / d, a % d;
    assert a == q' * d + r';
    if q > q' {
      MulAtLeast(q - q', d);
    } else if q < q' {
      MulAtLeast(q' - q, d);
    }
  }

  lemma MulAtLeast(x: int, d: int)
    requires x >= 1 && d > 0
    ensures x * d >= d
  {
    assert x * d == (x - 1) * d + d;
  }

  /* ---------------- truncateText ---------------- */

  /** `s.slice(0, end)`: a negative end counts back from the length, and the
      end is clipped to `0 .. |s|`. */
  function SliceTo(s: string, end: int): (r: string)
    ensures end >= 0 ==> r == s[..if end <= |s| then end else |s|]
    ensures end < 0 ==> r == s[..if |s| + end >= 0 then |s| + end else 0]
  {
    var e := if end < 0 then |s| + end else end;
    s[..if e < 0 then 0 else if e > |s| then |s| else e]
  }

  const Ellipsis := "..."

  /** `truncateText`: short text unchanged, otherwise all but the last
      three places of `maxLength` from the text, then `...`. */
  function TruncateText(text: string, maxLength: int): (r: string)
    ensures |text| <= maxLength ==> r == text
    ensures |text| > maxLength ==> |r| >= 3 && r[|r| - 3..] == Ellipsis && r[..|r| - 3] <= text
    ensures |text| > maxLength >= 3 ==> |r| == maxLength
  {
    if |text| <= maxLength then text else SliceTo(text, maxLength - 3) + Ellipsis
  }

  /** The result is never longer than `maxLength` when `maxLength` leaves
      room for the ellipsis; below that it always is, because `slice` counts
      a negative end back from the end of the text. */
  lemma TruncateLength(text: string, maxLength: int)
    ensures maxLength >= 3 ==> |TruncateText(text, maxLength)| <= maxLength
    ensures maxLength < 3 && |text| > maxLength ==> |TruncateText(text, maxLength)| > maxLength
    ensures maxLength < 3 && |text| > maxLength
            ==> |TruncateText(text, maxLength)| == 3 + (if |text| + maxLength >= 3 then |text| + maxLength - 3 else 0)
  {
  }

  /* ---------------- formatLogClass ---------------- */

  /** `formatLogClass`: the segment after the last `.`, or the whole name
      when that segment is empty (`||` treats `''` as false). */
  function FormatLogClass(fullClass: string): string {
    var parts := Split(fullClass, '.');
    if parts[|parts| - 1] != "" then parts[|parts| - 1] else fullClass
  }

  /** A name without `.` is kept; a name ending in `.` is kept; any other
      name gives its non-empty, dot-free text after the last `.`. */
  lemma LogClassLastSegment(c: string)
    ensures '.' !in c ==> FormatLogClass(c) == c
    ensures |c| > 0 && c[|c| - 1] == '.' ==> FormatLogClass(c) == c
    ensures '.' in c && c[|c| - 1] != '.' ==>
      var r := FormatLogClass(c);
      r != "" && '.' !in r && exists k :: 0 <= k < |c| && c[k] == '.' && c[k + 1..] == r
  {
    SplitLast(c, '.');
    if |c| > 0 && c[|c| - 1] == '.' {
      SplitEndsWithSeparator(c, '.');
    }
  }

  /** Formatting a formatted name changes nothing. */
  lemma LogClassIdempotent(c: string)
    ensures FormatLogClass(FormatLogClass(c)) == FormatLogClass(c)
  {
    LogClassLastSegment(c);
    var r := FormatLogClass(c);
    if r != c {
      LogClassLastSegment(r);
    }
  }

  /* ---------------- formatXML ---------------- */

  /** `formatXML`: the text with surrounding white space removed. */
  function FormatXml(xml: string): string {
    Trim(xml)
  }

  /** The result has no white space at either end, is the input with only
      white space cut from each end, and formatting it again changes
      nothing. */
  lemma FormatXmlSpec(xml: string)
    ensures Trimmed(FormatXml(xml))
    ensures exists a, b :: 0 <= a <= b <= |xml| && FormatXml(xml) == xml[a..b]
                           && AllSpace(xml[..a]) && AllSpace(xml[b..])
    ensures FormatXml(FormatXml(xml)) == FormatXml(xml)
  {
    TrimSpec(xml);
    TrimIdempotent(xml);
  }
}
