/** String primitives the TypeScript sources lean on: `includes`, `indexOf`,
    `lastIndexOf`, `trim`, ASCII `toLowerCase`, decimal rendering of
    integers, `split`/`join` on one character, and the character order that stands
    in for `Array.prototype.sort`'s code-unit order (equal on the Basic
    Multilingual Plane). Strings are `seq<char>`. */
module Text {

  /* ---------------- character classes ---------------- */

  /** The characters of JavaScript's `\s` class, which are also the
      characters `String.prototype.trim` strips. */
  predicate IsSpace(c: char) {
    || c == ' ' || c == '\t' || c == '\n' || c == '\r'
    || c == '\U{B}' || c == '\U{C}' || c == '\U{A0}' || c == '\U{1680}'
    || ('\U{2000}' <= c <= '\U{200A}')
    || c == '\U{2028}' || c == '\U{2029}' || c == '\U{202F}' || c == '\U{205F}'
    || c == '\U{3000}' || c == '\U{FEFF}'
  }

  /** JavaScript's `\d`: ASCII digits only. */
  predicate IsDigit(c: char) {
    '0' <= c <= '9'
  }

  predicate IsAsciiLetter(c: char) {
    ('a' <= c <= 'z') || ('A' <= c <= 'Z')
  }

  /** JavaScript's `\w` outside Unicode mode. */
  predicate IsWordChar(c: char) {
    IsAsciiLetter(c) || IsDigit(c) || c == '_'
  }

  predicate AllDigits(s: string) {
    forall i :: 0 <= i < |s| ==> IsDigit(s[i])
  }

  predicate NoSpace(s: string) {
    forall i :: 0 <= i < |s| ==> !IsSpace(s[i])
  }

  predicate AllSpace(s: string) {
    forall i :: 0 <= i < |s| ==> IsSpace(s[i])
  }

  /** `toLowerCase` restricted to ASCII letters. */
  function LowerChar(c: char): char {
    if 'A' <= c <= 'Z' then (c as int + 32) as char else c
  }

  function ToLower(s: string): (r: string)
    ensures |r| == |s|
    ensures forall i :: 0 <= i < |s| ==> r[i] == LowerChar(s[i])
  {
    if s == [] then [] else [LowerChar(s[0])] + ToLower(s[1..])
  }

  /* ---------------- searching ---------------- */

  /** Length of the run of characters satisfying `c` from index `i`. */
  function RunFrom(s: string, i: nat, c: char -> bool): (n: nat)
    requires i <= |s|
    ensures i + n <= |s|
    ensures forall j :: i <= j < i + n ==> c(s[j])
    ensures i + n == |s| || !c(s[i + n])
    decreases |s| - i
  {
    if i < |s| && c(s[i]) then 1 + RunFrom(s, i + 1, c) else 0
  }

  /** A run of members followed by a non-member (or the end) is the run. */
  lemma RunFromExact(s: string, i: nat, c: char -> bool, n: nat)
    requires i + n <= |s|
    requires forall j :: i <= j < i + n ==> c(s[j])
    requires i + n == |s| || !c(s[i + n])
    ensures RunFrom(s, i, c) == n
  {
  }

  /** `p` occurs in `s` at index `i`. */
  predicate StartsWithAt(s: string, i: int, p: string) {
    0 <= i && i + |p| <= |s| && forall k :: 0 <= k < |p| ==> s[i + k] == p[k]
  }

  lemma CharOfOccurrence(s: string, i: int, p: string, k: nat)
    requires StartsWithAt(s, i, p) && k < |p|
    ensures s[i + k] == p[k]
  {
  }

  /** One mismatching character rules an occurrence out. */
  lemma MismatchAt(s: string, i: int, p: string, k: nat)
    requires k < |p| && 0 <= i + k < |s| && s[i + k] != p[k]
    ensures !StartsWithAt(s, i, p)
  {
  }

  /** `s.indexOf(p, i)` for `i <= |s|`: the least occurrence at or after `i`, or -1. */
  function IndexOfFrom(s: string, p: string, i: nat): (r: int)
    ensures r == -1 || (i <= r && StartsWithAt(s, r, p))
    ensures forall j :: i <= j && (r == -1 || j < r) ==> !StartsWithAt(s, j, p)
    decreases |s| - i
  {
    if i + |p| > |s| then -1
    else if s[i..i + |p|] == p then i
    else IndexOfFrom(s, p, i + 1)
  }

  function IndexOf(s: string, p: string): (r: int)
    ensures r == -1 || StartsWithAt(s, r, p)
    ensures forall j :: 0 <= j && (r == -1 || j < r) ==> !StartsWithAt(s, j, p)
  {
    IndexOfFrom(s, p, 0)
  }

  /** `s.includes(p)`. */
  predicate Contains(s: string, p: string) {
    IndexOf(s, p) >= 0
  }

  lemma ContainsIff(s: string, p: string)
    ensures Contains(s, p) <==> exists j :: StartsWithAt(s, j, p)
  {
  }

  lemma ContainsAt(s: string, p: string, j: int)
    requires StartsWithAt(s, j, p)
    ensures Contains(s, p)
  {
  }

  /** The greatest occurrence at or before `i`, or -1. */
  function LastIndexOfFrom(s: string, p: string, i: int): (r: int)
    ensures r == -1 || (r <= i && StartsWithAt(s, r, p))
    ensures forall j :: j <= i && r < j ==> !StartsWithAt(s, j, p)
    decreases i + 1
  {
    if i < 0 then -1
    else if i + |p| <= |s| && s[i..i + |p|] == p then i
    else LastIndexOfFrom(s, p, i - 1)
  }

  /** `s.lastIndexOf(p)`. */
  function LastIndexOf(s: string, p: string): (r: int)
    ensures r == -1 || StartsWithAt(s, r, p)
    ensures forall j :: r < j ==> !StartsWithAt(s, j, p)
  {
    LastIndexOfFrom(s, p, |s| - |p|)
  }

  /* ---------------- trimming ---------------- */

  predicate Trimmed(s: string) {
    s == [] || (!IsSpace(s[0]) && !IsSpace(s[|s| - 1]))
  }

  function TrimStart(s: string): (r: string)
    ensures r == [] || !IsSpace(r[0])
    ensures |r| <= |s|
    decreases |s|
  {
    if s != [] && IsSpace(s[0]) then TrimStart(s[1..]) else s
  }

  function TrimEnd(s: string): (r: string)
    ensures r == [] || !IsSpace(r[|r| - 1])
    ensures |r| <= |s|
    decreases |s|
  {
    if s != [] && IsSpace(s[|s| - 1]) then TrimEnd(s[..|s| - 1]) else s
  }

  /** `String.prototype.trim`. */
  function Trim(s: string): (r: string)
  {
    TrimEnd(TrimStart(s))
  }

  /** `r` is `s` with the white space `s[..a]` and `s[b..]` cut off. */
  ghost predicate CutAt(s: string, r: string, a: int, b: int) {
    0 <= a <= b <= |s| && r == s[a..b] && AllSpace(s[..a]) && AllSpace(s[b..])
  }

  /** `trim` removes exactly the leading and trailing white space: the result
      has none at either end, and what was cut off on each side is white space. */
  lemma TrimSpec(s: string)
    ensures Trimmed(Trim(s))
    ensures exists a, b :: CutAt(s, Trim(s), a, b)
  {
    var a, b := TrimCut(s);
    TrimTrimmed(s);
  }

  /** The cut `trim` makes, as positions. */
  lemma TrimCut(s: string) returns (a: nat, b: nat)
    ensures CutAt(s, Trim(s), a, b)
  {
    a := TrimStartCut(s);
    var k := TrimEndCut(s[a..]);
    b := a + k;
    CutCompose(s, s[a..], s[a..][..k], a, k);
  }

  /** Cutting white space off the front and then off the back is one cut. */
  lemma CutCompose(s: string, t: string, r: string, a: nat, k: nat)
    requires a <= |s| && t == s[a..] && AllSpace(s[..a])
    requires k <= |t| && r == t[..k] && AllSpace(t[k..])
    ensures CutAt(s, r, a, a + k)
  {
    assert s[a..a + k] == t[..k];
    assert s[a + k..] == t[k..];
  }

  lemma TrimTrimmed(s: string)
    ensures Trimmed(Trim(s))
  {
    var t := TrimStart(s);
    var k := TrimEndCut(t);
    TrimmedPrefix(t, TrimEnd(t), k);
  }

  /** A prefix of a string without leading white space, itself without
      trailing white space, has none at either end. */
  lemma TrimmedPrefix(t: string, r: string, k: nat)
    requires t == [] || !IsSpace(t[0])
    requires r == [] || !IsSpace(r[|r| - 1])
    requires k <= |t| && r == t[..k]
    ensures Trimmed(r)
  {
    if r != [] {
      assert r[0] == t[0];
    }
  }

  /** `TrimStart` cuts white space off the front: the result is `s[a..]`. */
  lemma {:induction false} TrimStartCut(s: string) returns (a: nat)
    ensures a <= |s| && TrimStart(s) == s[a..] && AllSpace(s[..a])
    decreases |s|
  {
    if s != [] && IsSpace(s[0]) {
      var a' := TrimStartCut(s[1..]);
      a := a' + 1;
      assert s[1..][a'..] == s[a..];
      forall i | 0 <= i < a
        ensures IsSpace(s[..a][i])
      {
        if i > 0 {
          assert s[..a][i] == s[1..][..a'][i - 1];
        }
      }
    } else {
      a := 0;
    }
  }

  /** `TrimEnd` cuts white space off the back: the result is `t[..k]`. */
  lemma {:induction false} TrimEndCut(t: string) returns (k: nat)
    ensures k <= |t| && TrimEnd(t) == t[..k] && AllSpace(t[k..])
    decreases |t|
  {
    if t != [] && IsSpace(t[|t| - 1]) {
      var u := t[..|t| - 1];
      k := TrimEndCut(u);
      assert u[..k] == t[..k];
      forall i | 0 <= i < |t| - k
        ensures IsSpace(t[k..][i])
      {
        if i < |u| - k {
          assert t[k..][i] == u[k..][i];
        }
      }
    } else {
      k := |t|;
    }
  }

  lemma TrimOfTrimmed(s: string)
    requires Trimmed(s)
    ensures Trim(s) == s
  {
  }

  lemma TrimIdempotent(s: string)
    ensures Trim(Trim(s)) == Trim(s)
  {
    TrimSpec(s);
    TrimOfTrimmed(Trim(s));
  }

  lemma TrimAllSpace(s: string)
    requires AllSpace(s)
    ensures Trim(s) == []
  {
    TrimSpec(s);
  }

  /* ---------------- decimal numbers ---------------- */

  function DigitChar(d: nat): (c: char)
    requires d < 10
    ensures IsDigit(c)
  {
    ('0' as int + d) as char
  }

  function DigitValue(c: char): nat
    requires IsDigit(c)
  {
    c as int - '0' as int
  }

  /** The decimal digits of `n`, without leading zeros (`String(n)`). */
  function NatToString(n: nat): (r: string)
    ensures |r| >= 1 && AllDigits(r)
    ensures |r| == 1 || r[0] != '0'
    decreases n
  {
    if n < 10 then [DigitChar(n)] else NatToString(n / 10) + [DigitChar(n % 10)]
  }

  /** `String(i)` for an integer `i` (below 10^21 in magnitude, where
      JavaScript switches to exponent notation). */
  function IntToString(i: int): string
  {
    if i < 0 then "-" + NatToString(-i) else NatToString(i)
  }

  /** `Number(s)` for a non-empty string of ASCII digits. */
  function DecimalValue(s: string): nat
    requires AllDigits(s)
    decreases |s|
  {
    if s == [] then 0 else 10 * DecimalValue(s[..|s| - 1]) + DigitValue(s[|s| - 1])
  }

  /** Reading back the decimal rendering of `n` gives `n`. */
  lemma {:induction false} DecimalRoundTrip(n: nat)
    ensures DecimalValue(NatToString(n)) == n
    decreases n
  {
    if n >= 10 {
      var r := NatToString(n);
      DecimalRoundTrip(n / 10);
      assert r[..|r| - 1] == NatToString(n / 10);
      assert DigitValue(r[|r| - 1]) == n % 10;
    } else {
      assert DigitValue(DigitChar(n)) == n;
    }
  }

  /** Rendering is injective, since it can be read back. */
  lemma NatToStringInjective(m: nat, n: nat)
    requires NatToString(m) == NatToString(n)
    ensures m == n
  {
    DecimalRoundTrip(m);
    DecimalRoundTrip(n);
  }

  /* ---------------- split and join on one character ---------------- */

  /** `s.split(sep)` for a one-character separator: never empty. */
  function Split(s: string, sep: char): (parts: seq<string>)
    ensures |parts| >= 1
    ensures forall i :: 0 <= i < |parts| ==> sep !in parts[i]
    decreases |s|
  {
    if s == [] then [[]]
    else
      var rest := Split(s[1..], sep);
      if s[0] == sep then [[]] + rest else [[s[0]] + rest[0]] + rest[1..]
  }

  function Join(parts: seq<string>, sep: char): string
    requires |parts| >= 1
    decreases |parts|
  {
    if |parts| == 1 then parts[0] else parts[0] + [sep] + Join(parts[1..], sep)
  }

  /** Joining the pieces of a split with the same separator restores the string. */
  lemma {:induction false} SplitJoin(s: string, sep: char)
    ensures Join(Split(s, sep), sep) == s
    decreases |s|
  {
    if s != [] {
      var rest := Split(s[1..], sep);
      SplitJoin(s[1..], sep);
      if s[0] == sep {
        assert Split(s, sep)[1..] == rest;
      } else {
        var parts := Split(s, sep);
        if |rest| == 1 {
          assert parts == [[s[0]] + rest[0]];
        } else {
          assert parts[1..] == rest[1..];
          assert Join(rest, sep) == rest[0] + [sep] + Join(rest[1..], sep);
        }
      }
    }
  }

  /** A string splits into a single piece exactly when it has no separator. */
  lemma {:induction false} SplitSingle(s: string, sep: char)
    ensures |Split(s, sep)| == 1 <==> sep !in s
    decreases |s|
  {
    if s != [] {
      SplitSingle(s[1..], sep);
      assert sep in s <==> s[0] == sep || sep in s[1..];
    }
  }

  /** The last piece of a split is the text after the last separator, or the
      whole string when there is no separator. */
  lemma {:induction false} SplitLast(s: string, sep: char)
    ensures var parts := Split(s, sep);
            sep !in s ==> parts[|parts| - 1] == s
    ensures var parts := Split(s, sep);
            sep in s ==> exists k :: 0 <= k < |s| && s[k] == sep && parts[|parts| - 1] == s[k + 1..]
    decreases |s|
  {
    if s != [] {
      var rest := Split(s[1..], sep);
      var parts := Split(s, sep);
      SplitLast(s[1..], sep);
      SplitSingle(s[1..], sep);
      if s[0] == sep {
        assert parts[|parts| - 1] == rest[|rest| - 1];
        if sep !in s[1..] {
          assert parts[|parts| - 1] == s[1..];
        } else {
          var k :| 0 <= k < |s[1..]| && s[1..][k] == sep && rest[|rest| - 1] == s[1..][k + 1..];
          assert s[k + 1] == sep && s[k + 2..] == s[1..][k + 1..];
        }
      } else if |rest| == 1 {
        assert parts == [[s[0]] + rest[0]];
        assert sep !in s[1..];
        assert s == [s[0]] + s[1..];
      } else {
        assert parts[|parts| - 1] == rest[|rest| - 1];
        var k :| 0 <= k < |s[1..]| && s[1..][k] == sep && rest[|rest| - 1] == s[1..][k + 1..];
        assert s[k + 1] == sep && s[k + 2..] == s[1..][k + 1..];
      }
    }
  }

  /** A string ending in the separator splits with an empty last piece. */
  lemma {:induction false} SplitEndsWithSeparator(s: string, sep: char)
    requires |s| > 0 && s[|s| - 1] == sep
    ensures var parts := Split(s, sep); parts[|parts| - 1] == []
    decreases |s|
  {
    if |s| > 1 {
      var rest := Split(s[1..], sep);
      SplitEndsWithSeparator(s[1..], sep);
      SplitSingle(s[1..], sep);
      assert s[1..][|s| - 2] == sep;
    }
  }

  /* ---------------- string order ---------------- */

  /** The order `Array.prototype.sort` uses on strings: lexicographic by
      character code, a proper prefix first. */
  predicate LexLess(a: string, b: string)
    decreases |a|
  {
    if |a| == 0 then |b| > 0
    else if |b| == 0 then false
    else if a[0] != b[0] then a[0] < b[0]
    else LexLess(a[1..], b[1..])
  }

  lemma {:induction false} LexLessIrreflexive(a: string)
    ensures !LexLess(a, a)
    decreases |a|
  {
    if |a| > 0 {
      LexLessIrreflexive(a[1..]);
    }
  }

  lemma {:induction false} LexLessAsymmetric(a: string, b: string)
    requires LexLess(a, b)
    ensures !LexLess(b, a)
    decreases |a|
  {
    if |a| > 0 && |b| > 0 && a[0] == b[0] {
      LexLessAsymmetric(a[1..], b[1..]);
    }
  }

  lemma {:induction false} LexLessTransitive(a: string, b: string, c: string)
    requires LexLess(a, b) && LexLess(b, c)
    ensures LexLess(a, c)
    decreases |a|
  {
    if |a| > 0 && a[0] == b[0] && b[0] == c[0] {
      LexLessTransitive(a[1..], b[1..], c[1..]);
    }
  }

  lemma {:induction false} LexLessTotal(a: string, b: string)
    requires a != b
    ensures LexLess(a, b) || LexLess(b, a)
    decreases |a|
  {
    if |a| > 0 && |b| > 0 && a[0] == b[0] {
      assert a == [a[0]] + a[1..] && b == [b[0]] + b[1..];
      LexLessTotal(a[1..], b[1..]);
    }
  }
}
