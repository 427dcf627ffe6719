/** The hash table of vm/builtin/HashTable.c, updated in place.

    Every method is tied to its function in TableSpec; what those functions do to the finite map the
    table stands for is proved in TableProofs. A false `ok` stands for reaching assert_never(). */
module HashTables {
  import opened Options
  import opened Probing
  import opened Keys
  import opened TableSpec
  import opened TableArrays
  import opened TableProofs

  /** The probe loop shared by every operation. */
  method Locate<K(!new)>(k: Keying<K>, buckets: array<Bucket>, keys: array<K>, key: K) returns (r: Option<nat>)
    requires 0 < buckets.Length == keys.Length
    ensures r == Probe(k, buckets[..], keys[..], key, 0, None)
  {
    var h := k.hash(key);
    var size := buckets.Length;
    var firstEmpty, firstEmptyPlace := false, 100000000;
    ghost var b, ks := buckets[..], keys[..];
    var idx := 0;
    while idx < size
      invariant idx <= size
      invariant firstEmpty ==> 0 <= firstEmptyPlace < size
      invariant Probe(k, b, ks, key, 0, None)
        == Probe(k, b, ks, key, idx, if firstEmpty then Some(firstEmptyPlace) else None)
    {
      var place := Place(h, idx, size);
      match buckets[place] {
        case Empty =>
          return Some(if firstEmpty then firstEmptyPlace else place);
        case WasFull =>
          if !firstEmpty {
            firstEmpty, firstEmptyPlace := true, place;
          }
        case Full =>
          if k.eq(key, keys[place]) {
            return Some(place);
          }
      }
      idx := idx + 1;
    }
    return if firstEmpty then Some(firstEmptyPlace) else None;
  }

  /** The body of the rehash loop: finds a slot for an entry and fills it. */
  method Move<K(!new)>(k: Keying<K>, buckets: array<Bucket>, keys: array<K>, values: array?<K>, key: K, value: Option<K>)
    returns (ok: bool)
    requires Separate(buckets, keys, values) && 0 < buckets.Length == keys.Length
    requires values != null ==> values.Length == buckets.Length
    requires value.Some? <==> values != null
    modifies buckets, keys, values
    ensures var t := old(TableOf(0, buckets, keys, values));
      var place := Find(k, t, key);
      && ok == place.Some?
      && (ok ==> TableOf(0, buckets, keys, values) == Store(t, place.value, key, value))
  {
    hide Probe, Store;
    var place := Locate(k, buckets, keys, key);
    if place.None? {
      return false;
    }
    Fill(buckets, keys, values, place.value, key, value);
    return true;
  }

  lemma RehashCases<K>(k: Keying<K>, nil: K, t: Table<K>)
    requires Shaped(t)
    ensures var n := MapPrime(|t.buckets|);
      Rehash(k, nil, t) == if n.None? then None else Refill(k, t, 0, Blank(n.value, nil, IsMap(t)))
  {
    hide MapPrime, Refill;
  }

  class HashTable<K(!new)> {
    const k: Keying<K>
    const nil: K
    /** Whether the table belongs to a Map or to a Set. The table of a Set may have values, which stay unused. */
    const isMap: bool
    var size: int
    var buckets: array<Bucket>
    var keys: array<K>
    var values: array?<K>

    /** The table's fields, as a value. */
    ghost function State(): Table<K>
      reads this, buckets, keys, values
    {
      TableOf(size, buckets, keys, Values())
    }

    /** The values the operations look at. */
    function Values(): array?<K>
      reads this
    {
      if isMap then values else null
    }

    ghost predicate Unaliased()
      reads this
    {
      Separate(buckets, keys, values)
    }

    ghost predicate Valid()
      reads this, buckets, keys, values
    {
      && Lawful(k) && SizesArePrime()
      && Unaliased()
      && Inv(k, State())
      && (isMap <==> IsMap(State()))
      && (isMap ==> values != null)
    }

    /** The finite map, up to key equality, that the table stands for. */
    ghost function Map(): map<K, Option<K>>
      requires Valid()
      reads this, buckets, keys, values
    {
      Contents(State())
    }

    /** ht_init, without values, and ht_init2, with them, as ht_new_map and ht_new_set both use it. map_prime must have
        a size for the items asked for. */
    constructor (k: Keying<K>, nil: K, items: int, isMap: bool, withValues: bool)
      requires Lawful(k) && SizesArePrime()
      requires MapPrime(items).Some? && (isMap ==> withValues)
      ensures this.k == k && this.nil == nil && this.isMap == isMap
      ensures Valid() && Map() == map[] && size == 0
      ensures (values != null) == withValues && fresh(buckets) && fresh(keys) && (values != null ==> fresh(values))
    {
      hide Inv, Contents;
      this.k, this.nil, this.isMap := k, nil, isMap;
      var n := MapPrime(items).value;
      size := 0;
      var b, ks, vs := Allocate(n, nil, withValues);
      buckets, keys, values := b, ks, vs;
      new;
      BlankTable(k, n, nil, isMap);
    }

    /** ht_query and ht_query2: nothing, or the value stored with the key. */
    method Query(key: K) returns (ok: bool, result: Option<Option<K>>)
      requires Valid()
      ensures ok <==> !Stuck(k, State(), key)
      ensures ok ==> result == Get(k, Map(), key)
    {
      hide Stuck, Get, Contents;
      QueryCorrect(k, State(), key);
      var place := Locate(k, buckets, keys, key);
      if place.None? {
        return false, None;
      }
      if buckets[place.value] != Full {
        return true, None;
      }
      return true, Some(if isMap then Some(values[place.value]) else None);
    }

    /** ht_remove. */
    method Remove(key: K) returns (ok: bool, removed: bool)
      requires Valid()
      modifies this`size, buckets, keys
      ensures ok <==> !old(Stuck(k, State(), key))
      ensures ok ==> Valid() && removed == Bound(k, old(Map()), key) && Map() == Delete(k, old(Map()), key)
    {
      hide Stuck, Bound, Delete, Contents, Inv, Probe;
      InvShaped();
      RemoveCorrect(k, nil, State(), key);
      ghost var was := State();
      var place := Locate(k, buckets, keys, key);
      if place.None? {
        return false, false;
      }
      if buckets[place.value] == Full {
        size := size - 1;
        buckets[place.value] := WasFull;
        keys[place.value] := nil;
        assert buckets[..] == was.buckets[place.value := WasFull];
        assert keys[..] == was.keys[place.value := nil];
        assert State() == TableSpec.Remove(k, nil, was, key).value.1;
        return true, true;
      }
      return true, false;
    }

    /** ht_clear, which only sets use: the fresh table has no values. */
    method Clear()
      requires Valid() && !isMap
      modifies this
      ensures Valid() && Map() == map[] && size == 0
      ensures fresh(buckets) && fresh(keys)
    {
      hide Inv, Contents;
      var n := 13;
      size := 0;
      values := null;
      var unused;
      buckets, keys, unused := Allocate(n, nil, false);
      BlankTable(k, n, nil, false);
    }

    lemma InvShaped()
      requires Valid()
      ensures Shaped(State())
    {
    }

    /** The rehash loop: moves every entry into the new arrays. */
    method MoveAll(newBuckets: array<Bucket>, newKeys: array<K>, newValues: array?<K>) returns (ok: bool)
      requires Shaped(State()) && (isMap ==> values != null)
      requires isMap <==> IsMap(State())
      requires isMap <==> newValues != null
      requires Separate(newBuckets, newKeys, newValues) && 0 < newBuckets.Length == newKeys.Length
      requires newValues != null ==> newValues.Length == newBuckets.Length
      requires {newBuckets as object?, newKeys, newValues} !! {buckets as object?, keys, if values == null then keys else values}
      modifies newBuckets, newKeys, newValues
      ensures var r := Refill(k, State(), 0, old(TableOf(0, newBuckets, newKeys, newValues)));
        && ok == r.Some?
        && (ok ==> TableOf(0, newBuckets, newKeys, newValues) == r.value)
    {
      hide Find, Refill, Store;
      ghost var was := State();
      ghost var goal := Refill(k, was, 0, TableOf(0, newBuckets, newKeys, newValues));
      var allocSize := buckets.Length;
      var i := 0;
      while i < allocSize
        invariant i <= allocSize && State() == was
        invariant goal == Refill(k, was, i, TableOf(0, newBuckets, newKeys, newValues))
      {
        RefillStep(k, was, i, TableOf(0, newBuckets, newKeys, newValues));
        if buckets[i] == Full {
          var value := if isMap then Some(values[i]) else None;
          var placed := Move(k, newBuckets, newKeys, newValues, keys[i], value);
          if !placed {
            return false;
          }
        }
        i := i + 1;
      }
      RefillEnd(k, was, TableOf(0, newBuckets, newKeys, newValues));
      return true;
    }

    /** rehash: the table's entries in fresh arrays of the next size. */
    method Rehash(doValues: bool) returns (ok: bool)
      requires Shaped(State()) && Unaliased() && (isMap ==> values != null)
      requires isMap == doValues == IsMap(State())
      modifies this
      ensures ok <==> TableSpec.Rehash(k, nil, old(State())).Some?
      ensures ok ==> State() == TableSpec.Rehash(k, nil, old(State())).value.(size := size)
      ensures ok ==> Unaliased() && (isMap ==> values != null) && size == old(size)
      ensures ok && !doValues ==> values == old(values)
      ensures ok ==> fresh(buckets) && fresh(keys) && (doValues ==> fresh(values))
    {
      hide Find, MapPrime, Refill, Store, Blank, TableSpec.Rehash;
      RehashCases(k, nil, State());
      var newAllocSize := MapPrime(buckets.Length);
      if newAllocSize.None? {
        return false;
      }
      var newBuckets, newKeys, newValues := Allocate(newAllocSize.value, nil, doValues);
      var moved := MoveAll(newBuckets, newKeys, newValues);
      if !moved {
        return false;
      }
      buckets := newBuckets;
      keys := newKeys;
      if doValues {
        values := newValues;
      }
      return true;
    }

    /** ht_set, for a set, and ht_set2, for a map; the two differ only in the value written. */
    method Put(key: K, value: Option<K>) returns (ok: bool)
      requires Valid()
      requires value.Some? <==> isMap
      modifies this, buckets, keys, values
      ensures ok <==> !old(Stuck(k, State(), key)
        || (!Held(k, State(), key) && (size + 1) * 2 >= buckets.Length == LARGEST))
      ensures ok ==> Valid() && Map() == Keys.Put(k, old(Map()), key, value)
      ensures ok ==> fresh({buckets as object, keys, values} - old({buckets as object, keys, values}))
    {
      hide Stuck, Held, Contents, Inv, Probe, TableSpec.Rehash, Keys.Put;
      InvShaped();
      InsertCorrect(k, nil, State(), key, value);
      ghost var was := State();
      var place := Locate(k, buckets, keys, key);
      if place.None? {
        return false;
      }
      if buckets[place.value] == Full {
        if value.Some? {
          values[place.value] := value.value;
          assert values[..] == was.values[place.value := value.value];
        }
        return true;
      }
      size := size + 1;
      if size * 2 < buckets.Length {
        Fill(buckets, keys, Values(), place.value, key, value);
        return true;
      }
      var grown := Rehash(value.Some?);
      if !grown {
        return false;
      }
      ghost var g := State();
      place := Locate(k, buckets, keys, key);
      if place.None? {
        return false;
      }
      Fill(buckets, keys, Values(), place.value, key, value);
      assert State() == Store(g, place.value, key, value);
      return true;
    }
  }
}
