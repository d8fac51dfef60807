/** The stable sort JavaScript's `Array.prototype.sort` performs with a
    numeric comparator `(a, b) => key(a) - key(b)`, as an insertion sort on
    sequences, and the default string sort used on sets of names. */
module Sorting {
  import opened Optional
  import opened Seqs
  import opened Text

  ghost predicate SortedBy<T>(s: seq<T>, key: T -> int) {
    forall i, j :: 0 <= i < j < |s| ==> key(s[i]) <= key(s[j])
  }

  /** Inserts `x` in front of the first element whose key is not smaller. */
  function InsertBy<T>(x: T, s: seq<T>, key: T -> int): (r: seq<T>)
    requires SortedBy(s, key)
    ensures SortedBy(r, key)
    ensures |r| == |s| + 1
    ensures r[0] == x || (|s| > 0 && r[0] == s[0])
    ensures multiset(r) == multiset(s) + multiset{x}
    decreases |s|
  {
    if s == [] || key(x) <= key(s[0]) then
      ConsSorted(x, s, key);
      [x] + s
    else
      var rest := InsertBy(x, s[1..], key);
      assert s == [s[0]] + s[1..];
      assert key(s[0]) <= key(rest[0]);
      ConsSorted(s[0], rest, key);
      [s[0]] + rest
  }

  /** A sorted sequence stays sorted under a head no larger than its own. */
  lemma ConsSorted<T>(a: T, t: seq<T>, key: T -> int)
    requires SortedBy(t, key) && (|t| > 0 ==> key(a) <= key(t[0]))
    ensures SortedBy([a] + t, key)
  {
    forall i, j | 0 <= i < j < |[a] + t|
      ensures key(([a] + t)[i]) <= key(([a] + t)[j])
    {
      assert ([a] + t)[j] == t[j - 1];
      if i > 0 {
        assert ([a] + t)[i] == t[i - 1];
      }
    }
  }

  /** Stable sort by an integer key. */
  function SortBy<T>(s: seq<T>, key: T -> int): (r: seq<T>)
    ensures SortedBy(r, key)
    ensures multiset(r) == multiset(s)
    ensures |r| == |s|
    decreases |s|
  {
    if s == [] then []
    else
      assert s == [s[0]] + s[1..];
      InsertBy(s[0], SortBy(s[1..], key), key)
  }

  lemma SortByMembers<T>(s: seq<T>, key: T -> int)
    ensures forall x :: x in SortBy(s, key) <==> x in s
  {
    var r := SortBy(s, key);
    assert forall x :: x in r <==> x in multiset(r);
  }

  /* ---------------- stability ---------------- */

  /** The elements with key `k`, in their order. */
  function KeyFilter<T>(s: seq<T>, key: T -> int, k: int): (r: seq<T>)
    ensures forall i :: 0 <= i < |r| ==> r[i] in s && key(r[i]) == k
    ensures forall i :: 0 <= i < |s| && key(s[i]) == k ==> s[i] in r
    decreases |s|
  {
    if s == [] then []
    else if key(s[0]) == k then [s[0]] + KeyFilter(s[1..], key, k)
    else KeyFilter(s[1..], key, k)
  }

  lemma {:induction false} KeyFilterInsert<T>(x: T, s: seq<T>, key: T -> int, k: int)
    requires SortedBy(s, key)
    ensures KeyFilter(InsertBy(x, s, key), key, k)
            == (if key(x) == k then [x] else []) + KeyFilter(s, key, k)
    decreases |s|
  {
    if s == [] || key(x) <= key(s[0]) {
      assert ([x] + s)[1..] == s;
    } else {
      var rest := InsertBy(x, s[1..], key);
      assert ([s[0]] + rest)[1..] == rest;
      KeyFilterInsert(x, s[1..], key, k);
    }
  }

  /** Stability: among the elements with any one key, the sort keeps the
      input order. */
  lemma {:induction false} SortByStable<T>(s: seq<T>, key: T -> int, k: int)
    ensures KeyFilter(SortBy(s, key), key, k) == KeyFilter(s, key, k)
    decreases |s|
  {
    if s != [] {
      SortByStable(s[1..], key, k);
      KeyFilterInsert(s[0], SortBy(s[1..], key), key, k);
    }
  }

  lemma SortedHeadLeast<T>(s: seq<T>, key: T -> int, y: T)
    requires SortedBy(s, key) && y in s
    ensures key(s[0]) <= key(y)
  {
    var j :| 0 <= j < |s| && s[j] == y;
  }

  lemma KeyFilterTail<T>(s: seq<T>, key: T -> int, k: int)
    requires s != []
    ensures KeyFilter(s[1..], key, k)
            == if key(s[0]) == k then KeyFilter(s, key, k)[1..] else KeyFilter(s, key, k)
  {
  }

  lemma SortedHeads<T>(a: seq<T>, b: seq<T>, key: T -> int)
    requires SortedBy(a, key) && SortedBy(b, key) && a != [] && b != []
    requires forall k :: KeyFilter(a, key, k) == KeyFilter(b, key, k)
    ensures a[0] == b[0]
  {
    var ka, kb := key(a[0]), key(b[0]);
    assert a[0] in KeyFilter(a, key, ka);
    assert a[0] in KeyFilter(b, key, ka);
    SortedHeadLeast(b, key, a[0]);
    assert b[0] in KeyFilter(b, key, kb);
    assert b[0] in KeyFilter(a, key, kb);
    SortedHeadLeast(a, key, b[0]);
    assert KeyFilter(a, key, ka)[0] == a[0];
    assert KeyFilter(b, key, ka)[0] == b[0];
  }

  lemma KeyFilterHas<T>(s: seq<T>, key: T -> int)
    requires s != []
    ensures KeyFilter(s, key, key(s[0])) != []
  {
  }

  /** Two sorted sequences that agree on the order within every key are equal. */
  lemma {:induction false} SortedUnique<T>(a: seq<T>, b: seq<T>, key: T -> int)
    requires SortedBy(a, key) && SortedBy(b, key)
    requires forall k :: KeyFilter(a, key, k) == KeyFilter(b, key, k)
    ensures a == b
    decreases |a| + |b|
  {
    if a == [] && b == [] {
    } else if a == [] {
      KeyFilterHas(b, key);
      assert false;
    } else if b == [] {
      KeyFilterHas(a, key);
      assert false;
    } else {
      SortedHeads(a, b, key);
      forall k
        ensures KeyFilter(a[1..], key, k) == KeyFilter(b[1..], key, k)
      {
        assert KeyFilter(a, key, k) == KeyFilter(b, key, k);
        KeyFilterTail(a, key, k);
        KeyFilterTail(b, key, k);
      }
      SortedUnique(a[1..], b[1..], key);
      assert a == [a[0]] + a[1..] && b == [b[0]] + b[1..];
    }
  }

  /** `SortBy` is THE stable sort: any sorted sequence that keeps, within
      every key, the input order, is its result. */
  lemma SortByCharacterized<T>(s: seq<T>, r: seq<T>, key: T -> int)
    requires SortedBy(r, key)
    requires forall k :: KeyFilter(r, key, k) == KeyFilter(s, key, k)
    ensures r == SortBy(s, key)
  {
    forall k
      ensures KeyFilter(r, key, k) == KeyFilter(SortBy(s, key), key, k)
    {
      SortByStable(s, key, k);
    }
    SortedUnique(r, SortBy(s, key), key);
  }

  /* ---------------- order of the input ---------------- */

  ghost predicate DistinctKeys<T>(s: seq<T>, key: T -> int) {
    forall i, j :: 0 <= i < j < |s| ==> key(s[i]) != key(s[j])
  }

  lemma {:induction false} KeyFilterAtMostOne<T>(s: seq<T>, key: T -> int, k: int)
    requires DistinctKeys(s, key)
    ensures |KeyFilter(s, key, k)| <= 1
    decreases |s|
  {
    if s != [] {
      KeyFilterAtMostOne(s[1..], key, k);
      if key(s[0]) == k {
        forall j | 0 <= j < |s[1..]|
          ensures key(s[1..][j]) != k
        {
          assert s[1..][j] == s[j + 1];
        }
        KeyFilterNone(s[1..], key, k);
      }
    }
  }

  lemma {:induction false} KeyFilterNone<T>(s: seq<T>, key: T -> int, k: int)
    requires forall j :: 0 <= j < |s| ==> key(s[j]) != k
    ensures KeyFilter(s, key, k) == []
    decreases |s|
  {
    if s != [] {
      KeyFilterNone(s[1..], key, k);
    }
  }

  lemma NonEmptyKeyFilterOfPermutation<T>(p: seq<T>, q: seq<T>, key: T -> int, k: int)
    requires multiset(p) == multiset(q)
    requires KeyFilter(p, key, k) != []
    ensures KeyFilter(q, key, k) != []
  {
    var x := KeyFilter(p, key, k)[0];
    assert x in multiset(p);
    assert x in q;
  }

  lemma SameKeyFilterOfPermutation<T>(p: seq<T>, q: seq<T>, key: T -> int, k: int)
    requires multiset(p) == multiset(q)
    requires DistinctKeys(p, key) && DistinctKeys(q, key)
    ensures KeyFilter(p, key, k) == KeyFilter(q, key, k)
  {
    KeyFilterAtMostOne(p, key, k);
    KeyFilterAtMostOne(q, key, k);
    var fp, fq := KeyFilter(p, key, k), KeyFilter(q, key, k);
    if fp != [] {
      assert fp[0] in multiset(p);
      assert fp[0] in q;
      assert fp[0] in fq;
    } else if fq != [] {
      NonEmptyKeyFilterOfPermutation(q, p, key, k);
      assert false;
    }
  }

  /** When no two records share a key, the sort does not depend on the order
      of its input. */
  lemma SortByPermutation<T>(p: seq<T>, q: seq<T>, key: T -> int)
    requires multiset(p) == multiset(q)
    requires DistinctKeys(p, key) && DistinctKeys(q, key)
    ensures SortBy(p, key) == SortBy(q, key)
  {
    forall k
      ensures KeyFilter(SortBy(p, key), key, k) == KeyFilter(SortBy(q, key), key, k)
    {
      SortByStable(p, key, k);
      SortByStable(q, key, k);
      SameKeyFilterOfPermutation(p, q, key, k);
    }
    SortedUnique(SortBy(p, key), SortBy(q, key), key);
  }

  /** The first and last elements after sorting carry the least and the
      greatest key of the input. */
  lemma SortByEnds<T>(s: seq<T>, key: T -> int) returns (hi: nat, lo: nat)
    requires |s| > 0
    ensures hi < |s| && lo < |s|
    ensures key(s[hi]) == key(SortBy(s, key)[|s| - 1]) && key(s[lo]) == key(SortBy(s, key)[0])
    ensures forall k :: 0 <= k < |s| ==> key(s[lo]) <= key(s[k]) <= key(s[hi])
  {
    var r := SortBy(s, key);
    hi := PositionOf(r, s, |r| - 1);
    lo := PositionOf(r, s, 0);
    forall k | 0 <= k < |s|
      ensures key(s[lo]) <= key(s[k]) <= key(s[hi])
    {
      var m := PositionOf(s, r, k);
      assert key(r[0]) <= key(r[m]) <= key(r[|r| - 1]);
    }
  }

  /** Where the element at position `j` of `a` occurs in a permutation `b`
      of `a`. */
  lemma PositionOf<T>(a: seq<T>, b: seq<T>, j: nat) returns (i: nat)
    requires multiset(a) == multiset(b) && j < |a|
    ensures i < |b| && b[i] == a[j]
  {
    assert a[j] in multiset(a);
    assert a[j] in b;
    i :| 0 <= i < |b| && b[i] == a[j];
  }

  /** Without distinct keys the input order shows through: two records with
      equal keys come out in whichever order they went in. */
  lemma TiesKeepInputOrder<T>(a: T, b: T, key: T -> int)
    requires key(a) == key(b)
    ensures SortBy([a, b], key) == [a, b]
    ensures SortBy([b, a], key) == [b, a]
  {
    assert [a, b][1..] == [b];
    assert [b, a][1..] == [a];
  }

  /* ---------------- first match after sorting ---------------- */

  /** Index `i` holds the earliest element satisfying `p`: no such element
      has a smaller key, and every one before `i` has a larger key. */
  ghost predicate IsEarliest<T>(s: seq<T>, key: T -> int, p: T -> bool, i: int) {
    && 0 <= i < |s| && p(s[i])
    && (forall j :: 0 <= j < |s| && p(s[j]) ==> key(s[i]) <= key(s[j]))
    && (forall j :: 0 <= j < i && p(s[j]) ==> key(s[i]) < key(s[j]))
  }

  lemma {:induction false} FirstWithInsert<T>(x: T, t: seq<T>, key: T -> int, p: T -> bool)
    requires SortedBy(t, key)
    ensures FirstWith(InsertBy(x, t, key), p)
            == if p(x) && (FirstWith(t, p).None? || key(x) <= key(FirstWith(t, p).value))
               then Some(x) else FirstWith(t, p)
    decreases |t|
  {
    if t == [] {
      assert [x][1..] == [];
    } else if key(x) <= key(t[0]) {
      assert ([x] + t)[1..] == t;
      var f := FirstWith(t, p);
      if f.Some? {
        SortedHeadLeast(t, key, f.value);
      }
    } else {
      var rest := InsertBy(x, t[1..], key);
      assert ([t[0]] + rest)[1..] == rest;
      FirstWithInsert(x, t[1..], key, p);
      if !p(t[0]) {
        assert FirstWith(t, p) == FirstWith(t[1..], p);
      }
    }
  }

  lemma EarliestHead<T>(s: seq<T>, key: T -> int, p: T -> bool)
    requires s != [] && p(s[0])
    requires forall j :: 1 <= j < |s| && p(s[j]) ==> key(s[0]) <= key(s[j])
    ensures IsEarliest(s, key, p, 0)
  {
  }

  lemma EarliestShift<T>(s: seq<T>, key: T -> int, p: T -> bool, i: int)
    requires s != [] && IsEarliest(s[1..], key, p, i)
    requires p(s[0]) ==> key(s[i + 1]) < key(s[0])
    ensures IsEarliest(s, key, p, i + 1)
  {
    forall j | 1 <= j < |s|
      ensures s[j] == s[1..][j - 1]
    {
    }
  }

  /** The induction step of `FirstAfterSort`, stated without the sort:
      `f` is the first match of the sorted tail, `g` that of the whole. */
  lemma FirstAfterSortStep<T>(s: seq<T>, key: T -> int, p: T -> bool, f: Option<T>, g: Option<T>)
    requires s != []
    requires f.None? <==> forall j :: 0 <= j < |s[1..]| ==> !p(s[1..][j])
    requires f.Some? ==> exists i :: IsEarliest(s[1..], key, p, i) && s[1..][i] == f.value
    requires g == if p(s[0]) && (f.None? || key(s[0]) <= key(f.value)) then Some(s[0]) else f
    ensures g.None? <==> forall j :: 0 <= j < |s| ==> !p(s[j])
    ensures g.Some? ==> exists i :: IsEarliest(s, key, p, i) && s[i] == g.value
  {
    var rest := s[1..];
    assert forall j :: 1 <= j < |s| ==> s[j] == rest[j - 1];
    if p(s[0]) && (f.None? || key(s[0]) <= key(f.value)) {
      if f.Some? {
        var i' :| IsEarliest(s[1..], key, p, i') && s[1..][i'] == f.value;
      }
      EarliestHead(s, key, p);
    } else if f.Some? {
      var i' :| IsEarliest(s[1..], key, p, i') && s[1..][i'] == f.value;
      EarliestShift(s, key, p, i');
    }
  }

  /** The first element satisfying `p` after the stable sort is the earliest
      one of the input; there is one exactly when the input has one. */
  lemma {:induction false} FirstAfterSort<T>(s: seq<T>, key: T -> int, p: T -> bool)
    ensures FirstWith(SortBy(s, key), p).None? <==> forall j :: 0 <= j < |s| ==> !p(s[j])
    ensures FirstWith(SortBy(s, key), p).Some? ==>
              exists i :: IsEarliest(s, key, p, i) && s[i] == FirstWith(SortBy(s, key), p).value
    decreases |s|
  {
    if s != [] {
      var rest := s[1..];
      FirstAfterSort(rest, key, p);
      FirstWithInsert(s[0], SortBy(rest, key), key, p);
      FirstAfterSortStep(s, key, p, FirstWith(SortBy(rest, key), p), FirstWith(SortBy(s, key), p));
    }
  }

  /** The earliest index is unique. */
  lemma EarliestUnique<T>(s: seq<T>, key: T -> int, p: T -> bool, i: int, i': int)
    requires IsEarliest(s, key, p, i) && IsEarliest(s, key, p, i')
    ensures i == i'
  {
  }

  /* ---------------- distinctness ---------------- */

  lemma InsertByMembers<T>(x: T, t: seq<T>, key: T -> int)
    requires SortedBy(t, key)
    ensures forall i :: 0 <= i < |InsertBy(x, t, key)| ==> InsertBy(x, t, key)[i] == x || InsertBy(x, t, key)[i] in t
  {
    var r := InsertBy(x, t, key);
    forall i | 0 <= i < |r|
      ensures r[i] == x || r[i] in t
    {
      assert r[i] in multiset(r);
    }
  }

  lemma {:induction false} InsertByDistinct<T, K>(x: T, t: seq<T>, key: T -> int, f: T -> K)
    requires SortedBy(t, key) && DistinctBy(t, f)
    requires forall y :: y in t ==> f(y) != f(x)
    ensures DistinctBy(InsertBy(x, t, key), f)
    decreases |t|
  {
    if t != [] && key(x) > key(t[0]) {
      var rest := InsertBy(x, t[1..], key);
      assert DistinctBy(t[1..], f);
      InsertByDistinct(x, t[1..], key, f);
      InsertByMembers(x, t[1..], key);
      forall j | 0 <= j < |rest|
        ensures f(t[0]) != f(rest[j])
      {
        if rest[j] != x {
          var m :| 0 <= m < |t[1..]| && t[1..][m] == rest[j];
          assert t[m + 1] == rest[j];
        }
      }
      var r := [t[0]] + rest;
      forall i, j | 0 <= i < j < |r|
        ensures f(r[i]) != f(r[j])
      {
        if i > 0 {
          assert r[i] == rest[i - 1] && r[j] == rest[j - 1];
        } else {
          assert r[j] == rest[j - 1];
        }
      }
      assert InsertBy(x, t, key) == r;
    }
  }

  /** Sorting keeps elements with distinct `f`-values distinct. */
  lemma {:induction false} SortByDistinct<T, K>(s: seq<T>, key: T -> int, f: T -> K)
    requires DistinctBy(s, f)
    ensures DistinctBy(SortBy(s, key), f)
    decreases |s|
  {
    if s != [] {
      assert DistinctBy(s[1..], f);
      SortByDistinct(s[1..], key, f);
      var t := SortBy(s[1..], key);
      forall y | y in t
        ensures f(y) != f(s[0])
      {
        assert y in multiset(t);
        assert y in s[1..];
        var j :| 0 <= j < |s[1..]| && s[1..][j] == y;
        assert s[j + 1] == y;
      }
      InsertByDistinct(s[0], t, key, f);
    }
  }

  /* ---------------- sorting strings ---------------- */

  /** Non-decreasing in the string order. */
  ghost predicate LexSorted(s: seq<string>) {
    forall i, j :: 0 <= i < j < |s| ==> !LexLess(s[j], s[i])
  }

  /** Strictly increasing in the string order (hence free of duplicates). */
  ghost predicate StrictlyLexSorted(s: seq<string>) {
    forall i, j :: 0 <= i < j < |s| ==> LexLess(s[i], s[j])
  }

  function InsertString(x: string, s: seq<string>): (r: seq<string>)
    ensures multiset(r) == multiset(s) + multiset{x}
    ensures |r| == |s| + 1
    decreases |s|
  {
    if s == [] || !LexLess(s[0], x) then [x] + s
    else
      assert s == [s[0]] + s[1..];
      [s[0]] + InsertString(x, s[1..])
  }

  /** `Array.prototype.sort()` without a comparator, on strings. */
  function SortStrings(s: seq<string>): (r: seq<string>)
    ensures multiset(r) == multiset(s)
    decreases |s|
  {
    if s == [] then []
    else
      assert s == [s[0]] + s[1..];
      InsertString(s[0], SortStrings(s[1..]))
  }

  lemma NotLessTrans(a: string, b: string, c: string)
    requires !LexLess(b, a) && !LexLess(c, b)
    ensures !LexLess(c, a)
  {
    if LexLess(c, a) {
      if a == b {
      } else {
        LexLessTotal(a, b);
        LexLessTransitive(c, a, b);
        LexLessAsymmetric(c, b);
      }
    }
  }

  lemma {:induction false} InsertStringSorted(x: string, s: seq<string>)
    requires LexSorted(s)
    ensures LexSorted(InsertString(x, s))
    decreases |s|
  {
    var r := InsertString(x, s);
    if s == [] {
    } else if !LexLess(s[0], x) {
      forall j | 0 <= j < |s|
        ensures !LexLess(s[j], x)
      {
        if j > 0 {
          NotLessTrans(x, s[0], s[j]);
        }
      }
    } else {
      InsertStringSorted(x, s[1..]);
      var rest := InsertString(x, s[1..]);
      assert forall y :: y in rest ==> y == x || y in s[1..] by {
        assert forall y :: y in rest <==> y in multiset(rest);
      }
      forall y | y in rest
        ensures !LexLess(y, s[0])
      {
        if y == x {
          LexLessAsymmetric(s[0], x);
        } else {
          var j :| 0 <= j < |s[1..]| && s[1..][j] == y;
          assert s[j + 1] == y;
        }
      }
      forall i, j | 0 <= i < j < |r|
        ensures !LexLess(r[j], r[i])
      {
        if i > 0 {
          assert r[i] == rest[i - 1] && r[j] == rest[j - 1];
        } else {
          assert r[j] in rest;
        }
      }
    }
  }

  lemma {:induction false} SortStringsSorted(s: seq<string>)
    ensures LexSorted(SortStrings(s))
    decreases |s|
  {
    if s != [] {
      SortStringsSorted(s[1..]);
      InsertStringSorted(s[0], SortStrings(s[1..]));
    }
  }

  lemma {:induction false} InsertStringDistinct(x: string, t: seq<string>)
    requires Distinct(t) && x !in t
    ensures Distinct(InsertString(x, t))
    decreases |t|
  {
    if t != [] && LexLess(t[0], x) {
      var rest := InsertString(x, t[1..]);
      assert x !in t[1..];
      InsertStringDistinct(x, t[1..]);
      assert t[0] !in rest by {
        assert t[0] != x && t[0] !in t[1..];
        assert t[0] !in multiset(t[1..]) + multiset{x};
      }
      ConsDistinct(t[0], rest);
    } else {
      ConsDistinct(x, t);
    }
  }

  lemma ConsDistinct<T>(a: T, s: seq<T>)
    requires Distinct(s) && a !in s
    ensures Distinct([a] + s)
  {
    forall i, j | 0 <= i < j < |[a] + s|
      ensures ([a] + s)[i] != ([a] + s)[j]
    {
      if i > 0 {
        assert ([a] + s)[i] == s[i - 1];
      }
      assert ([a] + s)[j] == s[j - 1];
    }
  }

  lemma {:induction false} SortStringsDistinct(s: seq<string>)
    requires Distinct(s)
    ensures Distinct(SortStrings(s))
    decreases |s|
  {
    if s != [] {
      SortStringsDistinct(s[1..]);
      var t := SortStrings(s[1..]);
      assert s[0] !in t by {
        assert forall y :: y in t <==> y in multiset(t);
      }
      InsertStringDistinct(s[0], t);
    }
  }

  /** Sorting distinct strings gives a strictly increasing sequence. */
  lemma SortStringsStrict(s: seq<string>)
    requires Distinct(s)
    ensures StrictlyLexSorted(SortStrings(s))
  {
    var r := SortStrings(s);
    SortStringsSorted(s);
    SortStringsDistinct(s);
    forall i, j | 0 <= i < j < |r|
      ensures LexLess(r[i], r[j])
    {
      LexLessTotal(r[i], r[j]);
    }
  }
}
