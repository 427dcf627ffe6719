/** The dictionary of clib/dict.c, updated in place, and its iterator. A false `ok` stands for reaching assert_never(). */
module Dicts {
  import opened Options
  import opened Probing
  import opened Keys
  import opened TableSpec
  import opened TableProofs
  import opened TableArrays
  import opened DictSpec

  // ----- the entries an iteration visits -----

  datatype Pair<K> = Pair(key: K, value: K)

  function EntriesFrom<K>(t: Table<K>, i: nat): seq<Pair<K>>
    requires Shaped(t) && IsMap(t) && i <= |t.buckets|
    decreases |t.buckets| - i
  {
    if i == |t.buckets| then []
    else (if t.buckets[i] == Full then [Pair(t.keys[i], t.values[i])] else []) + EntriesFrom(t, i + 1)
  }

  lemma EntriesStep<K>(t: Table<K>, i: nat)
    requires Shaped(t) && IsMap(t) && i < |t.buckets|
    ensures EntriesFrom(t, i) ==
      if t.buckets[i] == Full then [Pair(t.keys[i], t.values[i])] + EntriesFrom(t, i + 1) else EntriesFrom(t, i + 1)
    ensures t.buckets[i] == Full ==> EntriesFrom(t, i) != []
  {
    assert [] + EntriesFrom(t, i + 1) == EntriesFrom(t, i + 1);
  }

  lemma EntriesEnd<K>(t: Table<K>)
    requires Shaped(t) && IsMap(t)
    ensures EntriesFrom(t, |t.buckets|) == []
  {
  }

  ghost predicate FullFrom<K>(t: Table<K>, i: nat, key: K, value: K)
    requires Shaped(t) && IsMap(t)
  {
    exists j: nat :: i <= j < |t.buckets| && t.buckets[j] == Full && t.keys[j] == key && t.values[j] == value
  }

  ghost function FullSlotsFrom(b: seq<Bucket>, i: nat): set<nat> {
    set j: nat | i <= j < |b| && b[j] == Full
  }

  /** The rest of an iteration: every full bucket from `i` on, once. */
  lemma {:induction false} EntriesMeaning<K>(t: Table<K>, i: nat, key: K, value: K)
    requires Shaped(t) && IsMap(t) && i <= |t.buckets|
    ensures Pair(key, value) in EntriesFrom(t, i) <==> FullFrom(t, i, key, value)
    ensures |EntriesFrom(t, i)| == |FullSlotsFrom(t.buckets, i)|
    decreases |t.buckets| - i
  {
    if i < |t.buckets| {
      EntriesMeaning(t, i + 1, key, value);
      var rest := FullSlotsFrom(t.buckets, i + 1);
      assert FullSlotsFrom(t.buckets, i) == if t.buckets[i] == Full then rest + {i} else rest;
      var first := if t.buckets[i] == Full then [Pair(t.keys[i], t.values[i])] else [];
      assert EntriesFrom(t, i) == first + EntriesFrom(t, i + 1);
    } else {
      assert FullSlotsFrom(t.buckets, i) == {};
    }
  }

  /** The pairs are the entries of the map, each key once. */
  ghost predicate ExactlyOnce<K(!new)>(pairs: seq<Pair<K>>, m: map<K, Option<K>>) {
    && DistinctKeys(pairs)
    && forall key: K, value: K :: Pair(key, value) in pairs <==> key in m && m[key] == Some(value)
  }

  /** An iteration over a dictionary that is a finite map visits every entry of the map, and has as many entries as
      the map has keys, so it visits each once. */
  lemma IterationIsContents<K(!new)>(k: Keying<K>, t: Table<K>)
    requires Lawful(k) && Inv(k, t) && IsMap(t)
    ensures ExactlyOnce(EntriesFrom(t, 0), Contents(t)) && |EntriesFrom(t, 0)| == t.size
  {
    ContentsRepresents(k, t, Contents(t));
    hide Contents, Chained;
    forall key: K, value: K
      ensures Pair(key, value) in EntriesFrom(t, 0) <==> key in Contents(t) && Contents(t)[key] == Some(value)
    {
      EntriesMeaning(t, 0, key, value);
      hide EntriesFrom;
      if key in Contents(t) {
        var j: nat :| HeldAt(t, key, j);
      }
    }
    EntriesMeaning(t, 0, t.keys[0], t.values[0]);
    assert FullSlotsFrom(t.buckets, 0) == FullSlots(t.buckets);
    DistinctFrom(k, t, 0);
  }

  ghost predicate DistinctKeys<K>(e: seq<Pair<K>>) {
    forall i, j :: 0 <= i < j < |e| ==> e[i].key != e[j].key
  }

  lemma DistinctFirst<K>(first: Pair<K>, rest: seq<Pair<K>>)
    requires DistinctKeys(rest) && forall b :: 0 <= b < |rest| ==> rest[b].key != first.key
    ensures DistinctKeys([first] + rest)
  {
    assert forall b :: 0 < b < |[first] + rest| ==> ([first] + rest)[b] == rest[b - 1];
  }

  lemma {:induction false} DistinctFrom<K(!new)>(k: Keying<K>, t: Table<K>, i: nat)
    requires Lawful(k) && Shaped(t) && IsMap(t) && OnePerSlot(k, t.buckets, t.keys) && i <= |t.buckets|
    ensures DistinctKeys(EntriesFrom(t, i))
    decreases |t.buckets| - i
  {
    if i < |t.buckets| {
      DistinctFrom(k, t, i + 1);
      var rest := EntriesFrom(t, i + 1);
      if t.buckets[i] == Full {
        forall b | 0 <= b < |rest|
          ensures rest[b].key != t.keys[i]
        {
          EntriesMeaning(t, i + 1, rest[b].key, rest[b].value);
          assert Pair(rest[b].key, rest[b].value) in rest;
          var j: nat :| i + 1 <= j < |t.buckets| && t.buckets[j] == Full && t.keys[j] == rest[b].key;
          assert !k.eq(t.keys[i], t.keys[j]);
        }
        DistinctFirst(Pair(t.keys[i], t.values[i]), rest);
      } else {
        assert [] + rest == rest;
      }
    }
  }

  // ----- the dictionary -----

  ghost predicate Apart<K>(buckets: array<Bucket>, keys: array<K>, values: array<K>) {
    Separate(buckets, keys, values) && 0 < buckets.Length == keys.Length == values.Length
  }

  /** `set`. */
  method Set<K(!new)>(k: Keying<K>, key: K, value: K, buckets: array<Bucket>, keys: array<K>, values: array<K>)
    returns (ok: bool)
    requires Apart(buckets, keys, values)
    modifies buckets, keys, values
    ensures var r := SetFrom(k, old(TableOf(0, buckets, keys, values)), key, value, 0);
      ok == r.Some? && (ok ==> TableOf(0, buckets, keys, values) == r.value)
  {
    hide Store, Place;
    var h, n := k.hash(key), buckets.Length;
    var idx := 0;
    ghost var goal := SetFrom(k, TableOf(0, buckets, keys, values), key, value, 0);
    while idx < n
      invariant 0 <= idx <= n
      invariant goal == SetFrom(k, TableOf(0, buckets, keys, values), key, value, idx)
    {
      ghost var t := TableOf(0, buckets, keys, values);
      var place := Place(h, idx, n);
      if buckets[place] == Empty {
        Fill(buckets, keys, values, place, key, Some(value));
        return true;
      }
      if k.eq(key, keys[place]) {
        values[place] := value;
        assert values[..] == t.values[place := value];
      }
      idx := idx + 1;
    }
    return false;
  }

  class Dict<K(!new)> {
    const k: Keying<K>
    const nil: K
    var size: int
    var buckets: array<Bucket>
    var keys: array<K>
    var values: array<K>

    ghost function State(): Table<K>
      reads this, buckets, keys, values
    {
      TableOf(size, buckets, keys, values)
    }

    ghost predicate Valid()
      reads this, buckets
    {
      Apart(buckets, keys, values) && NoTombstones(buckets[..])
    }

    /** dict_init. */
    constructor (k: Keying<K>, nil: K)
      ensures Valid() && this.k == k && this.nil == nil
      ensures State() == Blank(13, nil, true) && fresh(buckets) && fresh(keys) && fresh(values)
    {
      this.k, this.nil := k, nil;
      size := 0;
      var b, ks, vs := Allocate(13, nil, true);
      buckets, keys, values := b, ks, vs;
      new;
      BlankHasNoTombstones(13, nil);
    }

    /** dict_query. */
    method Query(key: K) returns (ok: bool, r: Option<K>)
      requires Valid()
      ensures var q := TableSpec.Query(k, State(), key);
        ok == q.Some? && (ok ==> q.value == if r.None? then None else Some(r))
    {
      hide Place;
      var h := k.hash(key);
      var idx := 0;
      ghost var b, ks := buckets[..], keys[..];
      assert IsMap(State());
      while idx < buckets.Length
        invariant 0 <= idx <= buckets.Length
        invariant Probe(k, b, ks, key, 0, None) == Probe(k, b, ks, key, idx, None)
      {
        var place := Place(h, idx, buckets.Length);
        if buckets[place] == Empty {
          return true, None;
        }
        if k.eq(key, keys[place]) {
          return true, Some(values[place]);
        }
        idx := idx + 1;
      }
      return false, None;
    }

    /** The rehash loop. */
    method ResetAll(newBuckets: array<Bucket>, newKeys: array<K>, newValues: array<K>) returns (ok: bool)
      requires Valid() && Apart(newBuckets, newKeys, newValues)
      requires {newBuckets as object, newKeys, newValues} !! {buckets as object, keys, values}
      modifies newBuckets, newKeys, newValues
      ensures var r := Reset(k, State(), 0, old(TableOf(0, newBuckets, newKeys, newValues)));
        ok == r.Some? && (ok ==> TableOf(0, newBuckets, newKeys, newValues) == r.value)
    {
      hide SetFrom;
      ghost var was := State();
      ghost var goal := Reset(k, was, 0, TableOf(0, newBuckets, newKeys, newValues));
      var i := 0;
      while i < buckets.Length
        invariant 0 <= i <= buckets.Length && State() == was
        invariant goal == Reset(k, was, i, TableOf(0, newBuckets, newKeys, newValues))
      {
        if buckets[i] == Full {
          var placed := Set(k, keys[i], values[i], newBuckets, newKeys, newValues);
          if !placed {
            return false;
          }
        }
        i := i + 1;
      }
      return true;
    }

    /** The growing step of dict_set: what the buckets hold, with the entry to come counted. */
    method Grow() returns (ok: bool)
      requires Valid()
      modifies this`buckets, this`keys, this`values
      ensures var e := Expand(k, nil, old(Counted()));
        ok == e.Some? && (ok ==> Valid() && Counted() == e.value.(size := size + 1))
      ensures ok ==> fresh({buckets as object, keys, values} - old({buckets as object, keys, values}))
    {
      hide Expand, Reset, MapPrime, Blank;
      ghost var was := Counted();
      ExpandCases(k, nil, was);
      if (size + 1) * 2 < buckets.Length {
        return true;
      }
      var n := MapPrime(2 * (size + 1));
      if n.None? {
        return false;
      }
      ok := Replace(n.value);
    }

    ghost function Counted(): Table<K>
      reads this, buckets, keys, values
    {
      TableOf(size + 1, buckets, keys, values)
    }

    /** Moves the entries into `n` new buckets. */
    method Replace(n: nat) returns (ok: bool)
      requires Valid() && n > 0
      modifies this`buckets, this`keys, this`values
      ensures var r := Reset(k, old(Counted()), 0, Blank(n, nil, true));
        ok == r.Some? && (ok ==> Valid() && Counted() == r.value.(size := size + 1))
      ensures ok ==> fresh({buckets as object, keys, values} - old({buckets as object, keys, values}))
    {
      hide Reset, Blank;
      var newBuckets, newKeys, newValues := Allocate(n, nil, true);
      ghost var was := Counted();
      BlankHasNoTombstones(n, nil);
      ResetIgnoresSize(k, State(), size + 1, 0, Blank(n, nil, true));
      ResetNoTombstones(k, was, 0, Blank(n, nil, true));
      ok := ResetAll(newBuckets, newKeys, newValues);
      if ok {
        buckets, keys, values := newBuckets, newKeys, newValues;
      }
    }

    /** dict_set, fall-through and all. */
    method DictSet(key: K, value: K) returns (ok: bool)
      requires Valid()
      modifies this, buckets, keys, values
      ensures var r := DictSpec.DictSet(k, nil, old(State()), key, value);
        ok == r.Some? && (ok ==> Valid() && State() == r.value)
      ensures ok ==> fresh({buckets as object, keys, values} - old({buckets as object, keys, values}))
    {
      hide SetFrom, Expand, TableSpec.Query;
      ghost var was := State();
      var r;
      ok, r := Query(key);
      if !ok {
        return;
      }
      if r.Some? {
        SetIgnoresSize(k, was, 0, key, value, 0);
        SetNoTombstones(k, was, key, value);
        ok := Set(k, key, value, buckets, keys, values);
        if !ok {
          return;
        }
      }
      assert Counted() == State().(size := size + 1);
      ok := Grow();
      if !ok {
        return;
      }
      size := size + 1;
      SetIgnoresSize(k, State(), 0, key, value, 0);
      SetNoTombstones(k, State(), key, value);
      ok := Set(k, key, value, buckets, keys, values);
    }
  }

  lemma SetNoTombstones<K>(k: Keying<K>, t: Table<K>, key: K, value: K)
    requires Shaped(t) && IsMap(t) && NoTombstones(t.buckets)
    ensures var r := SetFrom(k, t, key, value, 0); r.Some? ==> NoTombstones(r.value.buckets)
  {
    if SetFrom(k, t, key, value, 0).Some? {
      var place := SetKeepsKeys(k, t, key, value, 0);
    }
  }

  lemma {:induction false} ResetNoTombstones<K>(k: Keying<K>, old_: Table<K>, i: nat, t: Table<K>)
    requires Shaped(old_) && IsMap(old_) && Shaped(t) && IsMap(t) && i <= |old_.buckets| && NoTombstones(t.buckets)
    ensures var r := Reset(k, old_, i, t); r.Some? ==> NoTombstones(r.value.buckets)
    decreases |old_.buckets| - i
  {
    hide NoTombstones, SetFrom;
    if i < |old_.buckets| {
      if old_.buckets[i] == Full {
        SetNoTombstones(k, t, old_.keys[i], old_.values[i]);
        var next := SetFrom(k, t, old_.keys[i], old_.values[i], 0);
        if next.Some? {
          ResetNoTombstones(k, old_, i + 1, next.value);
        }
      } else {
        ResetNoTombstones(k, old_, i + 1, t);
      }
    }
  }

  lemma ExpandCases<K>(k: Keying<K>, nil: K, t: Table<K>)
    requires Shaped(t) && IsMap(t)
    ensures t.size * 2 < |t.buckets| ==> Expand(k, nil, t) == Some(t)
    ensures t.size * 2 >= |t.buckets| ==>
      var n := MapPrime(2 * t.size);
      Expand(k, nil, t) == if n.None? then None else Reset(k, t, 0, Blank(n.value, nil, true))
  {
    hide MapPrime, Reset;
  }

  lemma {:induction false} SetIgnoresSize<K>(k: Keying<K>, t: Table<K>, size: int, key: K, value: K, idx: nat)
    requires Shaped(t) && IsMap(t) && idx <= |t.buckets|
    ensures var r, s := SetFrom(k, t, key, value, idx), SetFrom(k, t.(size := size), key, value, idx);
      r.Some? == s.Some? && (r.Some? ==> s.value == r.value.(size := size))
    decreases |t.buckets| - idx
  {
    if idx < |t.buckets| {
      var place := Place(k.hash(key), idx, |t.buckets|);
      if t.buckets[place] != Empty {
        SetIgnoresSize(k, if k.eq(key, t.keys[place]) then t.(values := t.values[place := value]) else t, size, key, value, idx + 1);
      }
    }
  }

  lemma {:induction false} ResetIgnoresSize<K>(k: Keying<K>, old_: Table<K>, size: int, i: nat, t: Table<K>)
    requires Shaped(old_) && IsMap(old_) && Shaped(t) && IsMap(t) && i <= |old_.buckets|
    ensures Reset(k, old_.(size := size), i, t) == Reset(k, old_, i, t)
    decreases |old_.buckets| - i
  {
    if i < |old_.buckets| {
      if old_.buckets[i] == Full {
        var next := SetFrom(k, t, old_.keys[i], old_.values[i], 0);
        if next.Some? {
          ResetIgnoresSize(k, old_, size, i + 1, next.value);
        }
      } else {
        ResetIgnoresSize(k, old_, size, i + 1, t);
      }
    }
  }

  // ----- the iterator -----

  class DictIter<K(!new)> {
    const d: Dict<K>
    var i: nat

    /** The entries still to come. */
    ghost function Rest(): seq<Pair<K>>
      requires d.Valid()
      reads this, d, d.buckets, d.keys, d.values
    {
      if i <= d.buckets.Length then EntriesFrom(d.State(), i) else []
    }

    constructor (d: Dict<K>)
      requires d.Valid()
      ensures this.d == d && i == 0 && Rest() == EntriesFrom(d.State(), 0)
    {
      this.d, i := d, 0;
    }

    /** dict_iter_has: goes on to the next full bucket, if there is one. */
    method Has() returns (r: bool)
      requires d.Valid() && i <= d.buckets.Length
      modifies `i
      ensures i <= d.buckets.Length && Rest() == old(Rest()) && (r <==> Rest() != [])
      ensures r ==> i < d.buckets.Length && d.buckets[i] == Full
    {
      hide EntriesFrom, NoTombstones;
      ghost var t := d.State();
      while i < d.buckets.Length
        invariant i <= d.buckets.Length && EntriesFrom(t, i) == EntriesFrom(t, old(i))
      {
        EntriesStep(t, i);
        if d.buckets[i] == Full {
          return true;
        }
        i := i + 1;
      }
      EntriesEnd(t);
      return false;
    }

    /** dict_iter_get_ptrs. */
    method GetPtrs() returns (p: Pair<K>)
      requires d.Valid() && i < d.buckets.Length && d.buckets[i] == Full
      modifies `i
      ensures i <= d.buckets.Length && old(Rest()) == [p] + Rest()
    {
      hide EntriesFrom, NoTombstones;
      EntriesStep(d.State(), i);
      p := Pair(d.keys[i], d.values[i]);
      i := i + 1;
    }
  }

  /** The loop that every user of an iterator writes. Over a dictionary that is a finite map it collects exactly the map's
      entries, each key once. */
  method Collect<K(!new)>(d: Dict<K>) returns (pairs: seq<Pair<K>>)
    requires d.Valid()
    ensures Lawful(d.k) && Inv(d.k, d.State()) ==> |pairs| == d.size && ExactlyOnce(pairs, Contents(d.State()))
  {
    ghost var t := d.State();
    pairs := Drain(d);
    assert IsMap(t);
    hide EntriesFrom, Contents, Inv, ExactlyOnce, Lawful;
    if Lawful(d.k) && Inv(d.k, t) {
      IterationIsContents(d.k, t);
    }
  }

  method Drain<K(!new)>(d: Dict<K>) returns (pairs: seq<Pair<K>>)
    requires d.Valid()
    ensures pairs == EntriesFrom(d.State(), 0)
  {
    hide EntriesFrom, NoTombstones;
    ghost var all := EntriesFrom(d.State(), 0);
    var iter := new DictIter(d);
    pairs := [];
    ghost var rest := iter.Rest();
    var more := iter.Has();
    while more
      invariant iter.d == d && iter.i <= d.buckets.Length && fresh(iter)
      invariant rest == iter.Rest() && pairs + rest == all
      invariant more <==> rest != []
      invariant more ==> iter.i < d.buckets.Length && d.buckets[iter.i] == Full
      decreases |rest|
    {
      var p := iter.GetPtrs();
      assert pairs + rest == (pairs + [p]) + iter.Rest();
      pairs, rest := pairs + [p], iter.Rest();
      more := iter.Has();
    }
  }
}
