/** JavaScript's `Map`, as the server's `clients` registry uses it: a list of
    entries in insertion order, `set` replacing the value of a key in place
    and appending a new key at the end, `delete` removing a key, and
    `keys()` iterating in insertion order. */
module OrderedMap {
  import opened Lists

  datatype Entry<K, V> = Entry(key: K, value: V)

  /** The keys of `m`, in iteration order (`m.keys()`). */
  function Keys<K, V>(m: seq<Entry<K, V>>): (r: seq<K>)
    ensures |r| == |m|
    ensures forall i {:trigger r[i]} :: 0 <= i < |m| ==> r[i] == m[i].key
  {
    if m == [] then [] else [m[0].key] + Keys(m[1..])
  }

  /** No key occurs twice: the shape every `Map` has. */
  ghost predicate Distinct<K>(ks: seq<K>)
  {
    forall i, j :: 0 <= i < j < |ks| ==> ks[i] != ks[j]
  }

  /** `m.get(k)`: the value stored under `k`, or absent. */
  function Get<K(==,!new), V>(m: seq<Entry<K, V>>, k: K): (r: Option<V>)
    ensures r.Some? <==> k in Keys(m)
    ensures r.Some? ==> Entry(k, r.value) in m
  {
    if m == [] then None
    else if m[0].key == k then Some(m[0].value)
    else Get(m[1..], k)
  }

  /** `m.set(k, v)`: afterwards `k` maps to `v`, every other key keeps its value,
      an existing key keeps its place and a new key goes last. */
  function Set<K(==,!new), V>(m: seq<Entry<K, V>>, k: K, v: V): (r: seq<Entry<K, V>>)
    ensures Get(r, k) == Some(v)
    ensures forall k' :: k' != k ==> Get(r, k') == Get(m, k')
    ensures Keys(r) == if k in Keys(m) then Keys(m) else Keys(m) + [k]
  {
    if m == [] then [Entry(k, v)]
    else if m[0].key == k then
      var r := [Entry(k, v)] + m[1..];
      assert r[1..] == m[1..];
      r
    else
      var rest := Set(m[1..], k, v);
      var r := [m[0]] + rest;
      assert r[1..] == rest && r[0] == m[0];
      assert Keys(r) == [m[0].key] + Keys(rest);
      assert Keys(m) == [m[0].key] + Keys(m[1..]);
      assert k in Keys(m) <==> k in Keys(m[1..]);
      r
  }

  /** `m.delete(k)`: afterwards `k` is absent and every other key keeps its value
      and its relative order. */
  function Delete<K(==,!new), V>(m: seq<Entry<K, V>>, k: K): (r: seq<Entry<K, V>>)
    ensures Get(r, k) == None
    ensures forall k' :: k' != k ==> Get(r, k') == Get(m, k')
    ensures Keys(r) == Filter(Keys(m), x => x != k)
  {
    if m == [] then []
    else if m[0].key == k then Delete(m[1..], k)
    else [m[0]] + Delete(m[1..], k)
  }

  /** After `set`, the registry holds the key it was given and every key it held. */
  lemma SetHasKey<K(!new), V>(m: seq<Entry<K, V>>, k: K, v: V, x: K)
    requires x in Keys(m) || x == k
    ensures x in Keys(Set(m, k, v))
  {
  }

  /** `set` keeps the keys distinct, so the registry never holds two entries
      for one user. */
  lemma SetKeepsDistinct<K(!new), V>(m: seq<Entry<K, V>>, k: K, v: V)
    requires Distinct(Keys(m))
    ensures Distinct(Keys(Set(m, k, v)))
  {
  }

  lemma DistinctCons<K>(x: K, s: seq<K>)
    ensures Distinct([x] + s) <==> x !in s && Distinct(s)
  {
    var t := [x] + s;
    if Distinct(t) {
      forall i, j | 0 <= i < j < |s| ensures s[i] != s[j] {
        assert t[i + 1] != t[j + 1];
      }
      forall j | 0 <= j < |s| ensures s[j] != x {
        assert t[0] != t[j + 1];
      }
    }
    if x !in s && Distinct(s) {
      forall i, j | 0 <= i < j < |t| ensures t[i] != t[j] {
        if i > 0 {
          assert s[i - 1] != s[j - 1];
        } else {
          assert t[j] == s[j - 1];
        }
      }
    }
  }

  /** `delete` keeps the keys distinct. */
  lemma {:induction false} DeleteKeepsDistinct<K(!new), V>(m: seq<Entry<K, V>>, k: K)
    requires Distinct(Keys(m))
    ensures Distinct(Keys(Delete(m, k)))
  {
    if m != [] {
      DistinctCons(m[0].key, Keys(m[1..]));
      DeleteKeepsDistinct(m[1..], k);
      if m[0].key != k {
        var rest := Delete(m[1..], k);
        assert Keys([m[0]] + rest) == [m[0].key] + Keys(rest) by {
          assert ([m[0]] + rest)[1..] == rest;
        }
        DistinctCons(m[0].key, Keys(rest));
      }
    }
  }
}
