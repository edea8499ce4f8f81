/**
 * JavaScript's `Map`: a dictionary that remembers insertion order. It is
 * an entry sequence; `set` on a present key replaces the value in place,
 * on an absent key appends, and `delete` drops the entry.
 */
module JsMap {
  import opened Wrappers

  /** `map.has(k)`. */
  predicate HasKey<K(==), V>(m: seq<(K, V)>, k: K) {
    m != [] && (m[0].0 == k || HasKey(m[1..], k))
  }

  /** No key occurs twice, as in every Map. */
  ghost predicate UniqueKeys<K, V>(m: seq<(K, V)>) {
    m == [] || (!HasKey(m[1..], m[0].0) && UniqueKeys(m[1..]))
  }

  /** `map.get(k)`: the value of the entry with key `k`, `undefined` when there is none. */
  function Get<K(==), V>(m: seq<(K, V)>, k: K): (r: Option<V>)
    ensures r.None? <==> !HasKey(m, k)
  {
    if m == [] then None
    else if m[0].0 == k then Some(m[0].1)
    else Get(m[1..], k)
  }

  /** `map.set(k, v)`. */
  function Set<K(==), V>(m: seq<(K, V)>, k: K, v: V): (r: seq<(K, V)>)
    ensures |r| == if HasKey(m, k) then |m| else |m| + 1
  {
    if m == [] then [(k, v)]
    else if m[0].0 == k then [(k, v)] + m[1..]
    else [m[0]] + Set(m[1..], k, v)
  }

  /** `map.delete(k)`. */
  function Delete<K(==), V>(m: seq<(K, V)>, k: K): (r: seq<(K, V)>)
    ensures |r| <= |m|
  {
    if m == [] then []
    else if m[0].0 == k then m[1..]
    else [m[0]] + Delete(m[1..], k)
  }

  /** `get` finds the value of an entry, and with unique keys the entry it finds is the only one. */
  lemma {:induction false} GetEntry<K, V>(m: seq<(K, V)>, i: nat)
    requires UniqueKeys(m) && i < |m|
    ensures Get(m, m[i].0) == Some(m[i].1)
  {
    if i > 0 {
      GetEntry(m[1..], i - 1);
      assert m[1..][i - 1] == m[i];
      HasKeyAt(m[1..], i - 1);
    }
  }

  lemma {:induction false} HasKeyAt<K, V>(m: seq<(K, V)>, i: nat)
    requires i < |m|
    ensures HasKey(m, m[i].0)
  {
    if i > 0 {
      HasKeyAt(m[1..], i - 1);
      assert m[1..][i - 1] == m[i];
    }
  }

  /** `set` on a new key appends the entry. */
  lemma {:induction false} SetAbsent<K, V>(m: seq<(K, V)>, k: K, v: V)
    requires !HasKey(m, k)
    ensures Set(m, k, v) == m + [(k, v)]
  {
    if m != [] {
      SetAbsent(m[1..], k, v);
      assert m == [m[0]] + m[1..];
    }
  }

  /** After `set`, the keys are the old ones and `k`. */
  lemma {:induction false} SetKeys<K, V>(m: seq<(K, V)>, k: K, v: V, x: K)
    ensures HasKey(Set(m, k, v), x) <==> HasKey(m, x) || x == k
  {
    if m != [] && m[0].0 != k {
      SetKeys(m[1..], k, v, x);
      assert Set(m, k, v)[1..] == Set(m[1..], k, v);
    } else if m != [] {
      assert Set(m, k, v)[1..] == m[1..];
    }
  }

  /** `set` keeps the keys unique. */
  lemma {:induction false} SetUnique<K, V>(m: seq<(K, V)>, k: K, v: V)
    requires UniqueKeys(m)
    ensures UniqueKeys(Set(m, k, v))
  {
    if m != [] && m[0].0 != k {
      SetUnique(m[1..], k, v);
      SetKeys(m[1..], k, v, m[0].0);
      assert Set(m, k, v)[1..] == Set(m[1..], k, v);
    } else if m != [] {
      assert Set(m, k, v)[1..] == m[1..];
    }
  }

  /** What `get` returns after `set`. */
  lemma {:induction false} GetSet<K, V>(m: seq<(K, V)>, k: K, v: V, k': K)
    ensures Get(Set(m, k, v), k') == if k' == k then Some(v) else Get(m, k')
  {
    if m != [] && m[0].0 != k {
      GetSet(m[1..], k, v, k');
      assert Set(m, k, v)[1..] == Set(m[1..], k, v);
    } else if m != [] {
      assert Set(m, k, v)[1..] == m[1..];
    }
  }

  /** `delete` of an absent key changes nothing. */
  lemma {:induction false} DeleteAbsent<K, V>(m: seq<(K, V)>, k: K)
    requires !HasKey(m, k)
    ensures Delete(m, k) == m
  {
    if m != [] {
      DeleteAbsent(m[1..], k);
      assert m == [m[0]] + m[1..];
    }
  }

  /** After `delete` on unique keys, the keys are the old ones except `k`. */
  lemma {:induction false} DeleteKeys<K, V>(m: seq<(K, V)>, k: K, x: K)
    requires UniqueKeys(m)
    ensures HasKey(Delete(m, k), x) <==> HasKey(m, x) && x != k
  {
    if m != [] {
      if m[0].0 != k {
        DeleteKeys(m[1..], k, x);
        assert Delete(m, k)[1..] == Delete(m[1..], k);
      }
    }
  }

  /** `delete` keeps the keys unique. */
  lemma {:induction false} DeleteUnique<K, V>(m: seq<(K, V)>, k: K)
    requires UniqueKeys(m)
    ensures UniqueKeys(Delete(m, k))
  {
    if m != [] && m[0].0 != k {
      DeleteUnique(m[1..], k);
      DeleteKeys(m[1..], k, m[0].0);
      assert Delete(m, k)[1..] == Delete(m[1..], k);
    }
  }

  /** What `get` returns after `delete`, on unique keys. */
  lemma {:induction false} GetDelete<K, V>(m: seq<(K, V)>, k: K, k': K)
    requires UniqueKeys(m)
    ensures Get(Delete(m, k), k') == if k' == k then None else Get(m, k')
  {
    if m != [] {
      if m[0].0 != k {
        GetDelete(m[1..], k, k');
        assert Delete(m, k)[1..] == Delete(m[1..], k);
      } else if k' == k {
        assert !HasKey(m[1..], k);
      }
    }
  }

  /** With unique keys, deleting the key at position `i` is `splice(i, 1)` on the entries. */
  lemma {:induction false} DeleteAt<K, V>(m: seq<(K, V)>, i: nat)
    requires UniqueKeys(m) && i < |m|
    ensures Delete(m, m[i].0) == m[..i] + m[i + 1..]
  {
    if i == 0 {
      assert m[1..] == m[..0] + m[1..];
    } else {
      var t := m[1..];
      assert t[i - 1] == m[i];
      HasKeyAt(t, i - 1);
      assert m[0].0 != m[i].0;
      DeleteAt(t, i - 1);
      assert Delete(m, m[i].0) == [m[0]] + (t[..i - 1] + t[i..]);
      assert t[..i - 1] == m[1..i];
      assert t[i..] == m[i + 1..];
      assert m[..i] == [m[0]] + m[1..i];
    }
  }

  /** `has` finds exactly the keys that occur in the entries. */
  lemma {:induction false} HasKeyIndex<K, V>(m: seq<(K, V)>, k: K)
    ensures HasKey(m, k) <==> exists i :: 0 <= i < |m| && m[i].0 == k
  {
    if m != [] {
      HasKeyIndex(m[1..], k);
      if HasKey(m[1..], k) {
        var i :| 0 <= i < |m[1..]| && m[1..][i].0 == k;
        assert m[i + 1].0 == k;
      }
      if exists i :: 0 <= i < |m| && m[i].0 == k {
        var i :| 0 <= i < |m| && m[i].0 == k;
        if i > 0 { assert m[1..][i - 1].0 == k; }
      }
    }
  }

  /** What `get` returns is the value of an entry with that key. */
  lemma {:induction false} GetIndex<K, V>(m: seq<(K, V)>, k: K)
    requires HasKey(m, k)
    ensures exists i :: 0 <= i < |m| && m[i] == (k, Get(m, k).value)
  {
    if m[0].0 != k {
      GetIndex(m[1..], k);
      var i :| 0 <= i < |m[1..]| && m[1..][i] == (k, Get(m[1..], k).value);
      assert m[i + 1] == m[1..][i];
    }
  }

  /** Entries whose keys are pairwise different form a Map. */
  lemma {:induction false} DistinctKeysUnique<K, V>(m: seq<(K, V)>)
    requires forall i, j :: 0 <= i < j < |m| ==> m[i].0 != m[j].0
    ensures UniqueKeys(m)
  {
    if m != [] {
      var t := m[1..];
      forall i, j | 0 <= i < j < |t| ensures t[i].0 != t[j].0 {
        assert t[i] == m[i + 1] && t[j] == m[j + 1];
      }
      DistinctKeysUnique(t);
      HasKeyIndex(t, m[0].0);
    }
  }
}
