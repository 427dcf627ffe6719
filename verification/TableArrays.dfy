/** The arrays that the tables of vm/builtin/HashTable.c and clib/dict.c are kept in. */
module TableArrays {
  import opened Options
  import opened TableSpec

  /** Three arrays, as the table they hold. */
  ghost function TableOf<K>(size: int, buckets: array<Bucket>, keys: array<K>, values: array?<K>): Table<K>
    reads buckets, keys, values
  {
    Table(size, buckets[..], keys[..], if values == null then [] else values[..])
  }

  ghost predicate Separate<K>(buckets: array<Bucket>, keys: array<K>, values: array?<K>) {
    var b: object, ks: object, vs: object? := buckets, keys, values;
    b != ks && b != vs && ks != vs
  }

  /** Puts a key, and its value in a map, into a slot. */
  method Fill<K>(buckets: array<Bucket>, keys: array<K>, values: array?<K>, place: nat, key: K, value: Option<K>)
    requires Separate(buckets, keys, values) && place < buckets.Length == keys.Length
    requires values != null ==> values.Length == buckets.Length
    requires value.Some? <==> values != null
    modifies buckets, keys, values
    ensures TableOf(0, buckets, keys, values) == Store(old(TableOf(0, buckets, keys, values)), place, key, value)
  {
    ghost var was := TableOf(0, buckets, keys, values);
    buckets[place] := Full;
    keys[place] := key;
    if value.Some? {
      values[place] := value.value;
    }
    ghost var u := Store(was, place, key, value);
    assert buckets[..] == u.buckets && keys[..] == u.keys;
    assert value.Some? ==> values[..] == u.values;
  }

  /** Zeroed arrays, as mem_calloc hands them out. */
  method Allocate<K>(n: nat, nil: K, withValues: bool) returns (buckets: array<Bucket>, keys: array<K>, values: array?<K>)
    ensures fresh(buckets) && fresh(keys) && (values != null ==> fresh(values))
    ensures Separate(buckets, keys, values) && (values != null) == withValues
    ensures buckets.Length == keys.Length == n && (withValues ==> values.Length == n)
    ensures TableOf(0, buckets, keys, values) == Blank(n, nil, withValues)
  {
    buckets := new Bucket[n](_ => Empty);
    keys := new K[n](_ => nil);
    values := null;
    if withValues {
      values := new K[n](_ => nil);
    }
    ghost var blank := Blank(n, nil, withValues);
    assert buckets[..] == blank.buckets && keys[..] == blank.keys;
    assert withValues ==> values[..] == blank.values;
  }
}
