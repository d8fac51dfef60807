/** `sanitizeXML` (src/services/logParser.ts): cut the XML document out of a
    buffer of collected log lines, from the first `<?xml` through the last
    closing tag, strip log-viewer markup and blank space between tags. */
module Sanitizer {
  import opened Optional
  import opened Text

  const XmlDeclaration := "<?xml"
  const SourceClosingTag := "</SourceXML>"
  const TransformedClosingTag := "</rootelement>"

  predicate StartsWith(s: string, p: string) {
    |p| <= |s| && s[..|p|] == p
  }

  predicate EndsWith(s: string, p: string) {
    |p| <= |s| && s[|s| - |p|..] == p
  }

  /* ---------------- global replacement ---------------- */

  /** `s.replace(/re/g, repl)` where `m(x)` is the length of the match of
      `re` at the start of `x`, if any: matches are found left to right and
      the search resumes after each one. */
  function ReplaceAll(s: string, m: string -> Option<nat>, repl: string): string
    decreases |s|
  {
    if s == [] then []
    else
      var n := m(s);
      if n.Some? && 0 < n.value <= |s| then repl + ReplaceAll(s[n.value..], m, repl)
      else [s[0]] + ReplaceAll(s[1..], m, repl)
  }

  /** `/class="[^"]*"/i`: the literal (any case), then up to the next quote. */
  function ClassAttr(x: string): (r: Option<nat>)
    ensures r.Some? ==> 8 <= r.value <= |x| && x[r.value - 1] == '"'
    ensures r.Some? ==> |x| > 0 && (x[0] == 'c' || x[0] == 'C')
  {
    if |x| >= 7 && ToLower(x[..7]) == "class=\"" then
      assert x[0] == x[..7][0];
      var q := IndexOfFrom(x, "\"", 7);
      if q >= 0 then (assert x[q..q + 1] == "\""; Some(q + 1)) else None
    else None
  }

  /** `/"text-log-\w+">/i`: the literal (any case), word characters, `">`. */
  function TextLogClass(x: string): (r: Option<nat>)
    ensures r.Some? ==> 12 <= r.value <= |x| && x[r.value - 2] == '"' && x[r.value - 1] == '>'
    ensures r.Some? ==> |x| > 0 && x[0] == '"'
  {
    if |x| >= 10 && ToLower(x[..10]) == "\"text-log-" then
      assert x[0] == x[..10][0];
      var w := RunFrom(x, 10, IsWordChar);
      if w >= 1 && 12 + w <= |x| && x[10 + w] == '"' && x[11 + w] == '>' then Some(12 + w) else None
    else None
  }

  /** `/>\s+</`: a `>`, white space, a `<`. */
  function TagGap(x: string): (r: Option<nat>)
    ensures r.Some? ==> 3 <= r.value <= |x| && x[0] == '>' && x[r.value - 1] == '<'
    ensures r.Some? ==> forall j :: 1 <= j < r.value - 1 ==> IsSpace(x[j])
  {
    if |x| >= 1 && x[0] == '>' then
      var w := RunFrom(x, 1, IsSpace);
      if w >= 1 && 1 + w < |x| && x[1 + w] == '<' then Some(2 + w) else None
    else None
  }

  /** The three rewrites and the final `trim`. */
  function Clean(xml: string): string {
    Trim(ReplaceAll(ReplaceAll(ReplaceAll(xml, ClassAttr, ""), TextLogClass, ""), TagGap, "><"))
  }

  /** Clamp into `[0, n]`, as `substring` does with its arguments. */
  function Clamp(a: int, n: nat): (r: nat)
    ensures r <= n
  {
    if a < 0 then 0 else if a > n then n else a
  }

  /** `raw.substring(a, b)`: both arguments clamped, and swapped when the
      first is the larger. */
  function JsSubstring(raw: string, a: int, b: int): string {
    var lo, hi := Clamp(a, |raw|), Clamp(b, |raw|);
    if lo <= hi then raw[lo..hi] else raw[hi..lo]
  }

  /** `sanitizeXML(raw, closingTag)`. */
  function SanitizeXml(raw: string, closingTag: string): string {
    if raw == "" then ""
    else
      var startIdx := IndexOf(raw, XmlDeclaration);
      var endIdx := LastIndexOf(raw, closingTag);
      if startIdx == -1 || endIdx == -1 then ""
      else Clean(JsSubstring(raw, startIdx, endIdx + |closingTag|))
  }

  /* ---------------- what survives the rewrites ---------------- */

  /** Characters at which the matcher `m` cannot start a match are copied. */
  lemma {:induction false} ReplaceAllPrefix(p: string, r: string, m: string -> Option<nat>, repl: string)
    requires forall x: string {:trigger m(x)} :: |x| > 0 && x[0] in p ==> m(x).None?
    ensures ReplaceAll(p + r, m, repl) == p + ReplaceAll(r, m, repl)
    decreases |p|
  {
    if p != [] {
      var x := p + r;
      assert x[0] == p[0] && x[0] in p;
      ReplaceAllUnmatched(x, m, repl);
      assert x[1..] == p[1..] + r;
      forall y: string | |y| > 0 && y[0] in p[1..]
        ensures m(y).None?
      {
        assert y[0] in p;
      }
      ReplaceAllPrefix(p[1..], r, m, repl);
      calc {
        ReplaceAll(x, m, repl);
        [p[0]] + ReplaceAll(p[1..] + r, m, repl);
        [p[0]] + (p[1..] + ReplaceAll(r, m, repl));
        { assert p == [p[0]] + p[1..]; }
        p + ReplaceAll(r, m, repl);
      }
    } else {
      assert p + r == r;
    }
  }

  /** Where no match starts, the first character is copied. */
  lemma ReplaceAllUnmatched(x: string, m: string -> Option<nat>, repl: string)
    requires x != [] && m(x).None?
    ensures ReplaceAll(x, m, repl) == [x[0]] + ReplaceAll(x[1..], m, repl)
  {
  }

  /** No match of `m` starts anywhere in `t`. */
  ghost predicate NoMatchIn(t: string, m: string -> Option<nat>) {
    forall i :: 0 <= i < |t| ==> m(t[i..]).None?
  }

  /** A match that reaches into a trailing `tag` takes at most its first
      character, and the replacement ends with that character. */
  ghost predicate SparesTag(tag: string, m: string -> Option<nat>, repl: string)
    requires |tag| >= 1
  {
    forall y: string :: EndsWith(y, tag) && |y| > |tag| && m(y).Some? ==>
      m(y).value <= |y| - |tag|
      || (m(y).value == |y| - |tag| + 1 && |repl| > 0 && repl[|repl| - 1] == tag[0])
  }

  /** A string in which no match can start is left as it is. */
  lemma {:induction false} ReplaceAllNoMatch(t: string, m: string -> Option<nat>, repl: string)
    requires NoMatchIn(t, m)
    ensures ReplaceAll(t, m, repl) == t
    decreases |t|
  {
    if t != [] {
      assert t[0..] == t;
      NoMatchInTail(t, m);
      ReplaceAllNoMatch(t[1..], m, repl);
    }
  }

  lemma NoMatchInTail(t: string, m: string -> Option<nat>)
    requires NoMatchIn(t, m) && t != []
    ensures NoMatchIn(t[1..], m)
  {
    forall i | 0 <= i < |t[1..]|
      ensures m(t[1..][i..]).None?
    {
      assert t[1..][i..] == t[i + 1..];
    }
  }

  /** A match that swallows the first character of the tag puts it back. */
  lemma ReplaceAllTagTail(tag: string, m: string -> Option<nat>, repl: string)
    requires |tag| >= 1 && NoMatchIn(tag, m)
    requires |repl| > 0 && repl[|repl| - 1] == tag[0]
    ensures EndsWith(repl + ReplaceAll(tag[1..], m, repl), tag)
  {
    NoMatchInTail(tag, m);
    ReplaceAllNoMatch(tag[1..], m, repl);
    EndsWithLastThen(repl, tag);
  }

  lemma EndsWithLastThen(a: string, tag: string)
    requires |tag| >= 1 && |a| > 0 && a[|a| - 1] == tag[0]
    ensures EndsWith(a + tag[1..], tag)
  {
    var out := a + tag[1..];
    assert out[|out| - |tag|..] == [a[|a| - 1]] + tag[1..];
    assert tag == [tag[0]] + tag[1..];
  }

  lemma EndsWithPrepend(a: string, rest: string, tag: string)
    requires EndsWith(rest, tag)
    ensures EndsWith(a + rest, tag)
  {
    assert (a + rest)[|a + rest| - |tag|..] == rest[|rest| - |tag|..];
  }

  lemma EndsWithDrop(x: string, k: nat, tag: string)
    requires EndsWith(x, tag) && k <= |x| - |tag|
    ensures EndsWith(x[k..], tag)
  {
    assert x[k..][|x[k..]| - |tag|..] == x[|x| - |tag|..];
  }

  /** A closing tag at the end survives the replacement when no match starts
      inside it and the matcher spares it. */
  lemma {:induction false} ReplaceAllSuffix(x: string, tag: string, m: string -> Option<nat>, repl: string)
    requires |tag| >= 1 && EndsWith(x, tag)
    requires NoMatchIn(tag, m) && SparesTag(tag, m, repl)
    ensures EndsWith(ReplaceAll(x, m, repl), tag)
    decreases |x|
  {
    if |x| == |tag| {
      assert x == tag;
      ReplaceAllNoMatch(tag, m, repl);
    } else {
      var n := m(x);
      if n.Some? && 0 < n.value <= |x| {
        var k := n.value;
        if k <= |x| - |tag| {
          EndsWithDrop(x, k, tag);
          ReplaceAllSuffix(x[k..], tag, m, repl);
          EndsWithPrepend(repl, ReplaceAll(x[k..], m, repl), tag);
        } else {
          assert x[k..] == tag[1..];
          ReplaceAllTagTail(tag, m, repl);
        }
      } else {
        EndsWithDrop(x, 1, tag);
        ReplaceAllSuffix(x[1..], tag, m, repl);
        EndsWithPrepend([x[0]], ReplaceAll(x[1..], m, repl), tag);
      }
    }
  }

  /** The closing tags this module is used with: `</`, no quote, no white
      space, and a final `>`. */
  predicate WellFormedTag(tag: string) {
    && |tag| >= 3 && tag[0] == '<' && tag[1] == '/' && tag[|tag| - 1] == '>'
    && '"' !in tag && NoSpace(tag)
  }

  lemma LiteralTagsWellFormed()
    ensures WellFormedTag(SourceClosingTag)
    ensures WellFormedTag(TransformedClosingTag)
  {
  }

  lemma ClassAttrSparesTag(tag: string)
    requires WellFormedTag(tag)
    ensures NoMatchIn(tag, ClassAttr) && SparesTag(tag, ClassAttr, "")
  {
  }

  lemma TextLogClassSparesTag(tag: string)
    requires WellFormedTag(tag)
    ensures NoMatchIn(tag, TextLogClass) && SparesTag(tag, TextLogClass, "")
  {
  }

  lemma TagGapSparesTag(tag: string)
    requires WellFormedTag(tag)
    ensures NoMatchIn(tag, TagGap) && SparesTag(tag, TagGap, "><")
  {
  }

  /** No matcher can start a match on a character of the declaration. */
  ghost predicate SkipsDeclaration(m: string -> Option<nat>) {
    forall x: string :: |x| > 0 && x[0] in XmlDeclaration ==> m(x).None?
  }

  lemma DeclarationChars(c: char)
    requires c in XmlDeclaration
    ensures c == '<' || c == '?' || c == 'x' || c == 'm' || c == 'l'
  {
  }

  lemma MatchersSkipDeclaration()
    ensures SkipsDeclaration(ClassAttr)
    ensures SkipsDeclaration(TextLogClass)
    ensures SkipsDeclaration(TagGap)
  {
    forall x: string | |x| > 0 && x[0] in XmlDeclaration
      ensures ClassAttr(x).None? && TextLogClass(x).None? && TagGap(x).None?
    {
      DeclarationChars(x[0]);
    }
  }

  /** One rewrite keeps a leading declaration and a trailing tag. */
  lemma StageKeepsEnds(mid: string, tag: string, m: string -> Option<nat>, repl: string)
    requires |tag| >= 1 && EndsWith(XmlDeclaration + mid, tag)
    requires SkipsDeclaration(m) && NoMatchIn(tag, m) && SparesTag(tag, m, repl)
    ensures ReplaceAll(XmlDeclaration + mid, m, repl) == XmlDeclaration + ReplaceAll(mid, m, repl)
    ensures EndsWith(XmlDeclaration + ReplaceAll(mid, m, repl), tag)
  {
    ReplaceAllPrefix(XmlDeclaration, mid, m, repl);
    ReplaceAllSuffix(XmlDeclaration + mid, tag, m, repl);
  }

  lemma TrimKeepsEnds(s: string, tag: string)
    requires WellFormedTag(tag) && StartsWith(s, XmlDeclaration) && EndsWith(s, tag)
    ensures Trim(s) == s
  {
    assert s[0] == s[..5][0] == '<';
    assert s[|s| - 1] == s[|s| - |tag|..][|tag| - 1] == '>';
    TrimOfTrimmed(s);
  }

  lemma CleanKeepsEnds(mid: string, tag: string)
    requires WellFormedTag(tag)
    requires EndsWith(XmlDeclaration + mid, tag)
    ensures StartsWith(Clean(XmlDeclaration + mid), XmlDeclaration)
    ensures EndsWith(Clean(XmlDeclaration + mid), tag)
  {
    MatchersSkipDeclaration();
    ClassAttrSparesTag(tag);
    TextLogClassSparesTag(tag);
    TagGapSparesTag(tag);
    var d := XmlDeclaration;
    StageKeepsEnds(mid, tag, ClassAttr, "");
    var m1 := ReplaceAll(mid, ClassAttr, "");
    StageKeepsEnds(m1, tag, TextLogClass, "");
    var m2 := ReplaceAll(m1, TextLogClass, "");
    StageKeepsEnds(m2, tag, TagGap, "><");
    var s3 := d + ReplaceAll(m2, TagGap, "><");
    assert s3[..|d|] == d;
    TrimKeepsEnds(s3, tag);
  }

  /* ---------------- sanitizeXML ---------------- */

  /** No input, no declaration, or no closing tag: nothing is extracted. */
  lemma SanitizeMissing(raw: string, closingTag: string)
    requires raw == "" || !Contains(raw, XmlDeclaration) || LastIndexOf(raw, closingTag) == -1
    ensures SanitizeXml(raw, closingTag) == ""
  {
  }

  /** A declaration and a later well-formed tag cannot overlap. */
  lemma DeclarationBeforeTag(raw: string, a: int, e: int, tag: string)
    requires WellFormedTag(tag)
    requires StartsWithAt(raw, a, XmlDeclaration) && StartsWithAt(raw, e, tag) && a < e
    ensures a + |XmlDeclaration| <= e
  {
    assert raw[e] == tag[0] == '<';
    if e < a + 5 {
      CharOfOccurrence(raw, a, XmlDeclaration, e - a);
      assert false;
    }
  }

  /** The extracted slice: the declaration, then text ending in the tag. */
  lemma SliceShape(raw: string, a: nat, e: nat, tag: string)
    requires StartsWithAt(raw, a, XmlDeclaration) && StartsWithAt(raw, e, tag)
    requires a + |XmlDeclaration| <= e
    ensures raw[a..e + |tag|] == XmlDeclaration + raw[a + |XmlDeclaration|..e + |tag|]
    ensures EndsWith(raw[a..e + |tag|], tag)
  {
    var b := e + |tag|;
    assert raw[a..b] == raw[a..a + 5] + raw[a + 5..b];
    assert raw[a..b][|raw[a..b]| - |tag|..] == raw[e..b];
  }

  /** When the declaration comes before the last closing tag, the result runs
      from the declaration through that closing tag. */
  lemma SanitizeExtracts(raw: string, closingTag: string)
    requires WellFormedTag(closingTag)
    requires Contains(raw, XmlDeclaration) && LastIndexOf(raw, closingTag) != -1
    requires IndexOf(raw, XmlDeclaration) < LastIndexOf(raw, closingTag)
    ensures StartsWith(SanitizeXml(raw, closingTag), XmlDeclaration)
    ensures EndsWith(SanitizeXml(raw, closingTag), closingTag)
  {
    var a := IndexOf(raw, XmlDeclaration);
    var e := LastIndexOf(raw, closingTag);
    var b := e + |closingTag|;
    DeclarationBeforeTag(raw, a, e, closingTag);
    SliceShape(raw, a, e, closingTag);
    assert JsSubstring(raw, a, b) == raw[a..b];
    assert SanitizeXml(raw, closingTag) == Clean(raw[a..b]);
    CleanKeepsEnds(raw[a + 5..b], closingTag);
  }

  const SwappedSample := "</SourceXML> x <?xml"

  lemma SwappedSampleIndices()
    ensures IndexOf(SwappedSample, XmlDeclaration) == 15
    ensures LastIndexOf(SwappedSample, SourceClosingTag) == 0
  {
    var raw := SwappedSample;
    assert StartsWithAt(raw, 15, XmlDeclaration);
    forall j | 0 <= j < 15
      ensures !StartsWithAt(raw, j, XmlDeclaration)
    {
      MismatchAt(raw, j, XmlDeclaration, 1);
    }
    assert StartsWithAt(raw, 0, SourceClosingTag);
    forall j | 0 < j <= 8
      ensures !StartsWithAt(raw, j, SourceClosingTag)
    {
      MismatchAt(raw, j, SourceClosingTag, 0);
    }
  }

  lemma CleanPlainText()
    ensures Clean(" x ") == "x"
  {
    var s := " x ";
    assert NoMatchIn(s, ClassAttr);
    assert NoMatchIn(s, TextLogClass);
    assert NoMatchIn(s, TagGap);
    ReplaceAllNoMatch(s, ClassAttr, "");
    ReplaceAllNoMatch(s, TextLogClass, "");
    ReplaceAllNoMatch(s, TagGap, "><");
    assert TrimStart(s) == "x ";
  }

  /** `substring` swaps its arguments: a declaration that only appears after
      the last closing tag yields the text between the two, not the empty
      string. */
  lemma SanitizeSwapsBounds()
    ensures SanitizeXml(SwappedSample, SourceClosingTag) == "x"
  {
    SwappedSampleIndices();
    assert JsSubstring(SwappedSample, 15, 12) == SwappedSample[12..15] == " x ";
    CleanPlainText();
  }
}
