/**
  A Python dict as the sequence of its (key, value) items in insertion order,
  and `subdict` (chromadol/util.py), which keeps the items whose key is in a
  given container.
*/
module OrderedDicts {
  import opened Wrappers

  type Dict<K, V> = seq<(K, V)>

  function Keys<K, V>(d: Dict<K, V>): (ks: seq<K>)
    ensures |ks| == |d|
    ensures forall i :: 0 <= i < |d| ==> ks[i] == d[i].0
  {
    if d == [] then [] else [d[0].0] + Keys(d[1..])
  }

  predicate HasKey<K(==), V>(d: Dict<K, V>, k: K) {
    k in Keys(d)
  }

  /** `d.get(k)`: the value stored under `k`, if any. */
  function Get<K(==), V>(d: Dict<K, V>, k: K): (r: Option<V>)
    ensures r.Some? <==> HasKey(d, k)
    ensures r.Some? ==> (k, r.value) in d
  {
    if d == [] then None
    else if d[0].0 == k then Some(d[0].1)
    else Get(d[1..], k)
  }

  /** What a Python dict guarantees: no key occurs twice. */
  ghost predicate DistinctKeys<K, V>(d: Dict<K, V>) {
    forall i, j :: 0 <= i < j < |d| ==> d[i].0 != d[j].0
  }

  /** `r` is `s` with some elements dropped and the rest in their original order. */
  ghost predicate IsSubsequence<T>(r: seq<T>, s: seq<T>)
    decreases |s|
  {
    if r == [] then true
    else if s == [] then false
    else (r[0] == s[0] && IsSubsequence(r[1..], s[1..])) || IsSubsequence(r, s[1..])
  }

  lemma {:induction false} SubsequenceMembers<T>(r: seq<T>, s: seq<T>, x: T)
    requires IsSubsequence(r, s) && x in r
    ensures x in s
    decreases |s|
  {
    if r[0] == s[0] && IsSubsequence(r[1..], s[1..]) {
      if x != r[0] {
        SubsequenceMembers(r[1..], s[1..], x);
      }
    } else {
      SubsequenceMembers(r, s[1..], x);
    }
  }

  /** In a dict with distinct keys, the item stored under `k` is the only one with that key. */
  lemma DistinctKeysGet<K, V>(d: Dict<K, V>, k: K, v: V)
    requires DistinctKeys(d) && (k, v) in d
    ensures Get(d, k) == Some(v)
  {
    if d[0] != (k, v) {
      assert d[0].0 != k;
      assert (k, v) in d[1..];
      DistinctKeysGet(d[1..], k, v);
    }
  }

  /** Two dicts with the same keys in the same order and the same values are equal. */
  lemma SameItems<K, V>(a: Dict<K, V>, b: Dict<K, V>)
    requires Keys(a) == Keys(b)
    requires forall i :: 0 <= i < |a| ==> a[i].1 == b[i].1
    ensures a == b
  {
    assert |a| == |b|;
    forall i | 0 <= i < |a| ensures a[i] == b[i] {
      assert a[i].0 == Keys(a)[i];
    }
  }

  /** `subdict(d, keys)`: `{k: v for k, v in d.items() if k in keys}`. */
  function SubDict<K(==), V>(d: Dict<K, V>, keys: seq<K>): Dict<K, V> {
    if d == [] then []
    else if d[0].0 in keys then [d[0]] + SubDict(d[1..], keys)
    else SubDict(d[1..], keys)
  }

  /** `subdict` keeps exactly the items of `d` whose key is in `keys`, values unchanged. */
  lemma {:induction false} SubDictMembers<K, V>(d: Dict<K, V>, keys: seq<K>)
    ensures forall e :: e in SubDict(d, keys) ==> e in d && e.0 in keys
    ensures forall e :: e in d && e.0 in keys ==> e in SubDict(d, keys)
  {
    if d != [] {
      SubDictMembers(d[1..], keys);
      assert d == [d[0]] + d[1..];
    }
  }

  /** The result of `subdict` is a dict: its keys are distinct when those of `d` are. */
  lemma {:induction false} SubDictKeepsDistinctKeys<K, V>(d: Dict<K, V>, keys: seq<K>)
    requires DistinctKeys(d)
    ensures DistinctKeys(SubDict(d, keys))
  {
    if d != [] {
      var rest := SubDict(d[1..], keys);
      assert DistinctKeys(d[1..]);
      SubDictKeepsDistinctKeys(d[1..], keys);
      if d[0].0 in keys {
        SubDictMembers(d[1..], keys);
        forall j | 0 <= j < |rest| ensures rest[j].0 != d[0].0 {
          var e := rest[j];
          assert e in rest;
          assert e in d[1..];
          var i :| 0 <= i < |d[1..]| && d[1..][i] == e;
          assert d[i + 1] == e;
        }
        var r := [d[0]] + rest;
        forall i, j | 0 <= i < j < |r| ensures r[i].0 != r[j].0 {
          if i > 0 {
            assert r[i] == rest[i - 1] && r[j] == rest[j - 1];
          } else {
            assert r[j] == rest[j - 1];
          }
        }
      }
    }
  }

  /** `subdict` keeps the items in the order they have in `d`. */
  lemma {:induction false} SubDictKeepsOrder<K(!new), V(!new)>(d: Dict<K, V>, keys: seq<K>)
    ensures IsSubsequence(SubDict(d, keys), d)
  {
    if d != [] {
      SubDictKeepsOrder(d[1..], keys);
      var r := SubDict(d, keys);
      if d[0].0 in keys {
        assert r[1..] == SubDict(d[1..], keys);
      } else if r != [] {
        assert IsSubsequence(r, d[1..]);
      }
    }
  }

  /**
    The three properties in the contract of `SubDict` determine its result:
    any dict that keeps exactly the items of `d` whose key is in `keys`, in
    `d`'s order, is `SubDict(d, keys)`.
  */
  lemma {:induction false} SubDictUnique<K(!new), V(!new)>(d: Dict<K, V>, keys: seq<K>, r: Dict<K, V>)
    requires DistinctKeys(d)
    requires IsSubsequence(r, d)
    requires forall e :: e in r <==> e in d && e.0 in keys
    ensures r == SubDict(d, keys)
  {
    if d != [] {
      var e, d' := d[0], d[1..];
      assert DistinctKeys(d');
      assert forall x :: x in d' ==> x.0 != e.0 by {
        forall x | x in d' ensures x.0 != e.0 {
          var j :| 0 <= j < |d'| && d'[j] == x;
          assert d[j + 1] == x;
        }
      }
      if e.0 in keys {
        assert e in r;
        if !(r[0] == e && IsSubsequence(r[1..], d')) {
          SubsequenceMembers(r, d', e);
          assert false;
        }
        var r' := r[1..];
        assert r == [e] + r';
        forall x ensures x in r' <==> x in d' && x.0 in keys {
          if x in r' {
            SubsequenceMembers(r', d', x);
            assert x in r;
          }
          if x in d' && x.0 in keys {
            assert x in d;
            assert x in r;
            assert x != e;
          }
        }
        SubDictUnique(d', keys, r');
      } else {
        assert e !in r;
        assert IsSubsequence(r, d') by {
          if r != [] {
            assert r[0] in r;
          }
        }
        forall x ensures x in r <==> x in d' && x.0 in keys {
          if x in r {
            assert x in d && x != e;
          }
          if x in d' {
            assert x in d;
          }
        }
        SubDictUnique(d', keys, r);
      }
    }
  }

  /** The example in the documentation of `subdict`. */
  lemma SubDictExample()
    ensures SubDict([("a", 1), ("b", 2), ("c", 3)], ["a", "c"]) == [("a", 1), ("c", 3)]
  {
  }
}
