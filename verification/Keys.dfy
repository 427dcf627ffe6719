/** The key equivalence and the hash a table is built over. The tables of vm/builtin/HashTable.c use
    op_equal2 and op_hash; those of clib/dict.c take both as callbacks. */
module Keys {
  import opened Options
  import opened Probing

  datatype Keying<!K> = Keying(hash: K -> nat, eq: (K, K) -> bool)

  /** `eq` is an equivalence, equal keys hash equally, and a hash fits 64 bits. */
  ghost predicate Lawful<K(!new)>(k: Keying<K>) {
    && (forall a: K :: k.eq(a, a))
    && (forall a: K, b: K :: k.eq(a, b) ==> k.eq(b, a))
    && (forall a: K, b: K, c: K :: k.eq(a, b) && k.eq(b, c) ==> k.eq(a, c))
    && (forall a: K, b: K :: k.eq(a, b) ==> k.hash(a) == k.hash(b))
    && (forall a: K :: k.hash(a) < WORD)
  }

  /** Finite maps whose keys count as equal up to `eq`: what a Map or a Set is for its user. */
  ghost predicate Bound<K, V>(k: Keying<K>, m: map<K, V>, key: K) {
    exists x :: x in m && k.eq(key, x)
  }

  ghost function Representative<K, V>(k: Keying<K>, m: map<K, V>, key: K): K
    requires Bound(k, m, key)
  {
    var x :| x in m && k.eq(key, x);
    x
  }

  ghost function Get<K, V>(k: Keying<K>, m: map<K, V>, key: K): Option<V> {
    if Bound(k, m, key) then Some(m[Representative(k, m, key)]) else None
  }

  ghost function Put<K, V>(k: Keying<K>, m: map<K, V>, key: K, value: V): map<K, V> {
    if Bound(k, m, key) then m[Representative(k, m, key) := value] else m[key := value]
  }

  ghost function Delete<K, V>(k: Keying<K>, m: map<K, V>, key: K): map<K, V> {
    if Bound(k, m, key) then m - {Representative(k, m, key)} else m
  }

  /** No two keys of the map are equal up to `eq`. */
  ghost predicate OnePerClass<K, V>(k: Keying<K>, m: map<K, V>) {
    forall x, y :: x in m && y in m && k.eq(x, y) ==> x == y
  }

  lemma RepresentativeIs<K(!new), V>(k: Keying<K>, m: map<K, V>, key: K, x: K)
    requires Lawful(k) && OnePerClass(k, m)
    requires x in m && k.eq(key, x)
    ensures Bound(k, m, key) && Representative(k, m, key) == x
  {
    var r := Representative(k, m, key);
    assert k.eq(r, key) && k.eq(key, x);
    assert k.eq(r, x);
  }

  /** Reading back a write: the written class changes, every other class is untouched. */
  lemma GetAfterPut<K(!new), V>(k: Keying<K>, m: map<K, V>, key: K, value: V, q: K)
    requires Lawful(k) && OnePerClass(k, m)
    ensures OnePerClass(k, Put(k, m, key, value))
    ensures Get(k, Put(k, m, key, value), q) == if k.eq(key, q) then Some(value) else Get(k, m, q)
    ensures |Put(k, m, key, value)| == if Bound(k, m, key) then |m| else |m| + 1
  {
    var w := if Bound(k, m, key) then Representative(k, m, key) else key;
    var n := Put(k, m, key, value);
    assert k.eq(key, w) && k.eq(w, key);
    forall x, y | x in n && y in n && k.eq(x, y)
      ensures x == y
    {
      assert k.eq(key, x) <==> k.eq(key, y);
    }
    if k.eq(key, q) {
      assert k.eq(q, key) && k.eq(q, w);
      RepresentativeIs(k, n, q, w);
    } else if Bound(k, m, q) {
      var r := Representative(k, m, q);
      RepresentativeIs(k, n, q, r);
    } else {
      assert !k.eq(q, w);
    }
    assert n == m[w := value];
  }

  /** Reading after a removal. */
  lemma GetAfterDelete<K(!new), V>(k: Keying<K>, m: map<K, V>, key: K, q: K)
    requires Lawful(k) && OnePerClass(k, m)
    ensures OnePerClass(k, Delete(k, m, key))
    ensures Get(k, Delete(k, m, key), q) == if k.eq(key, q) then None else Get(k, m, q)
    ensures |Delete(k, m, key)| == if Bound(k, m, key) then |m| - 1 else |m|
  {
    var n := Delete(k, m, key);
    if k.eq(key, q) && Bound(k, n, q) {
      var r := Representative(k, n, q);
      assert k.eq(key, r);
      RepresentativeIs(k, m, key, r);
    }
    if !k.eq(key, q) && Bound(k, m, q) {
      var r := Representative(k, m, q);
      RepresentativeIs(k, n, q, r);
    }
    if Bound(k, m, key) {
      assert m.Keys == n.Keys + {Representative(k, m, key)};
    }
  }
}
