/** JavaScript's `Map` as an insertion-ordered list of entries: `set` on a
    present key replaces the value where the key already stands, `set` on a
    new key appends, `delete` removes the entry, and iteration follows the
    list. The abstract view is a Dafny `map`. */
module OrderedMap {
  import opened Optional
  import opened Seqs

  type Table<K, V> = seq<(K, V)>

  ghost predicate KeysUnique<K, V>(t: Table<K, V>) {
    forall i, j :: 0 <= i < j < |t| ==> t[i].0 != t[j].0
  }

  /** The keys in iteration order. */
  function Keys<K, V>(t: Table<K, V>): (r: seq<K>)
    ensures |r| == |t|
    ensures forall i :: 0 <= i < |t| ==> r[i] == t[i].0
    decreases |t|
  {
    if t == [] then [] else [t[0].0] + Keys(t[1..])
  }

  /** `m.get(k)`. */
  function Get<K(==), V>(t: Table<K, V>, k: K): (r: Option<V>)
    ensures r.None? <==> k !in Keys(t)
    ensures r.Some? ==> exists i :: 0 <= i < |t| && t[i] == (k, r.value)
    decreases |t|
  {
    if t == [] then None
    else if t[0].0 == k then Some(t[0].1)
    else
      var r := Get(t[1..], k);
      assert Keys(t) == [t[0].0] + Keys(t[1..]);
      assert r.Some? ==> exists i :: 0 <= i < |t[1..]| && t[1..][i] == (k, r.value);
      r
  }

  /** `m.set(k, v)`. */
  function Set<K(==), V>(t: Table<K, V>, k: K, v: V): (r: Table<K, V>)
    ensures Keys(r) == if k in Keys(t) then Keys(t) else Keys(t) + [k]
    decreases |t|
  {
    if t == [] then [(k, v)]
    else if t[0].0 == k then [(k, v)] + t[1..]
    else
      assert Keys(t) == [t[0].0] + Keys(t[1..]);
      [t[0]] + Set(t[1..], k, v)
  }

  /** `m.delete(k)`. */
  function Delete<K(==), V>(t: Table<K, V>, k: K): (r: Table<K, V>)
    ensures |r| <= |t|
    ensures k in Keys(t) ==> |r| < |t|
    ensures k !in Keys(r)
    decreases |t|
  {
    if t == [] then []
    else if t[0].0 == k then Delete(t[1..], k)
    else [t[0]] + Delete(t[1..], k)
  }

  /** The `map` this table stands for. */
  function ToMap<K(==), V>(t: Table<K, V>): map<K, V>
    decreases |t|
  {
    if t == [] then map[] else ToMap(t[1..])[t[0].0 := t[0].1]
  }

  /** Reading the table is reading the map it stands for. */
  lemma {:induction false} GetIsLookup<K, V>(t: Table<K, V>, k: K)
    ensures Get(t, k) == if k in ToMap(t) then Some(ToMap(t)[k]) else None
    decreases |t|
  {
    if t != [] {
      GetIsLookup(t[1..], k);
    }
  }

  /** `set` updates the map it stands for at `k` and nowhere else. */
  lemma {:induction false} SetIsUpdate<K, V>(t: Table<K, V>, k: K, v: V)
    requires KeysUnique(t)
    ensures ToMap(Set(t, k, v)) == ToMap(t)[k := v]
    decreases |t|
  {
    if t != [] {
      if t[0].0 == k {
        assert ([(k, v)] + t[1..])[1..] == t[1..];
        assert k !in Keys(t[1..]);
        ToMapDomain(t[1..]);
      } else {
        assert KeysUnique(t[1..]);
        SetIsUpdate(t[1..], k, v);
        assert ([t[0]] + Set(t[1..], k, v))[1..] == Set(t[1..], k, v);
      }
    }
  }

  /** `delete` removes `k` from the map it stands for and nothing else. */
  lemma {:induction false} DeleteIsRemove<K, V>(t: Table<K, V>, k: K)
    requires KeysUnique(t)
    ensures ToMap(Delete(t, k)) == ToMap(t) - {k}
    decreases |t|
  {
    if t != [] {
      assert KeysUnique(t[1..]);
      DeleteIsRemove(t[1..], k);
      if t[0].0 == k {
        assert k !in Keys(t[1..]);
        ToMapDomain(t[1..]);
      } else {
        assert ([t[0]] + Delete(t[1..], k))[1..] == Delete(t[1..], k);
      }
    }
  }

  lemma {:induction false} ToMapDomain<K, V>(t: Table<K, V>)
    ensures forall x :: x in ToMap(t) <==> x in Keys(t)
    decreases |t|
  {
    if t != [] {
      ToMapDomain(t[1..]);
      assert Keys(t) == [t[0].0] + Keys(t[1..]);
    }
  }

  /** On a present key, `set` keeps every entry where it stands and replaces
      only the value of `k`. */
  lemma {:induction false} SetInPlace<K, V>(t: Table<K, V>, k: K, v: V)
    requires KeysUnique(t) && k in Keys(t)
    ensures |Set(t, k, v)| == |t|
    ensures forall i :: 0 <= i < |t| ==> Set(t, k, v)[i] == if t[i].0 == k then (k, v) else t[i]
    decreases |t|
  {
    if t[0].0 == k {
      forall i | 1 <= i < |t|
        ensures t[i].0 != k
      {
      }
    } else {
      assert KeysUnique(t[1..]);
      assert Keys(t) == [t[0].0] + Keys(t[1..]);
      SetInPlace(t[1..], k, v);
    }
  }

  /** On a new key, `set` appends. */
  lemma {:induction false} SetAppends<K, V>(t: Table<K, V>, k: K, v: V)
    requires k !in Keys(t)
    ensures Set(t, k, v) == t + [(k, v)]
    decreases |t|
  {
    if t != [] {
      assert Keys(t) == [t[0].0] + Keys(t[1..]);
      SetAppends(t[1..], k, v);
      assert t == [t[0]] + t[1..];
    }
  }

  /** `delete` keeps the other entries in their order. */
  lemma {:induction false} DeleteKeepsOthers<K, V>(t: Table<K, V>, k: K, keep: ((K, V)) -> bool)
    requires forall e :: keep(e) == (e.0 != k)
    ensures Delete(t, k) == Filter(t, keep)
    decreases |t|
  {
    if t != [] {
      DeleteKeepsOthers(t[1..], k, keep);
    }
  }

  lemma {:induction false} SetKeepsUnique<K, V>(t: Table<K, V>, k: K, v: V)
    requires KeysUnique(t)
    ensures KeysUnique(Set(t, k, v))
  {
    var r := Set(t, k, v);
    assert forall i :: 0 <= i < |r| ==> r[i].0 == Keys(r)[i];
    assert forall i :: 0 <= i < |t| ==> t[i].0 == Keys(t)[i];
  }

  lemma {:induction false} DeleteKeepsUnique<K, V>(t: Table<K, V>, k: K)
    requires KeysUnique(t)
    ensures KeysUnique(Delete(t, k))
    decreases |t|
  {
    if t != [] {
      assert KeysUnique(t[1..]);
      DeleteKeepsUnique(t[1..], k);
      if t[0].0 != k {
        DeleteSubset(t[1..], k);
      }
    }
  }

  lemma {:induction false} DeleteSubset<K, V>(t: Table<K, V>, k: K)
    ensures forall i :: 0 <= i < |Delete(t, k)| ==> Delete(t, k)[i] in t && Delete(t, k)[i].0 != k
    decreases |t|
  {
    if t != [] {
      DeleteSubset(t[1..], k);
    }
  }
  /** Reading after `set`: the new value at `k`, the old one elsewhere. */
  lemma {:induction false} GetSet<K, V>(t: Table<K, V>, k: K, v: V, k': K)
    ensures Get(Set(t, k, v), k') == if k' == k then Some(v) else Get(t, k')
    decreases |t|
  {
    if t != [] && t[0].0 != k {
      GetSet(t[1..], k, v, k');
      assert ([t[0]] + Set(t[1..], k, v))[1..] == Set(t[1..], k, v);
    }
  }

  /** Reading after `delete`: nothing at `k`, the old value elsewhere. */
  lemma {:induction false} GetDelete<K, V>(t: Table<K, V>, k: K, k': K)
    ensures Get(Delete(t, k), k') == if k' == k then None else Get(t, k')
    decreases |t|
  {
    if t != [] {
      GetDelete(t[1..], k, k');
      if t[0].0 != k {
        assert ([t[0]] + Delete(t[1..], k))[1..] == Delete(t[1..], k);
      }
    }
  }

  /** Every entry after `set` is the new one or an old one. */
  lemma {:induction false} SetEntries<K, V>(t: Table<K, V>, k: K, v: V)
    ensures forall i :: 0 <= i < |Set(t, k, v)| ==> Set(t, k, v)[i] == (k, v) || Set(t, k, v)[i] in t
    decreases |t|
  {
    if t != [] && t[0].0 != k {
      SetEntries(t[1..], k, v);
    }
  }

  /** `set` then `delete` of the same key is `delete` alone. */
  lemma {:induction false} DeleteAfterSet<K, V>(t: Table<K, V>, k: K, v: V)
    ensures Delete(Set(t, k, v), k) == Delete(t, k)
    decreases |t|
  {
    if t != [] {
      if t[0].0 == k {
        assert ([(k, v)] + t[1..])[1..] == t[1..];
      } else {
        DeleteAfterSet(t[1..], k, v);
        assert ([t[0]] + Set(t[1..], k, v))[1..] == Set(t[1..], k, v);
      }
    }
  }
}
