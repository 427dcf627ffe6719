/** clib/dict.c: the insert-only probing table, as functions of its buckets, and when it is a finite map.

    A dictionary is a table without tombstones. `None` stands for reaching assert_never(), which ends the program. */
module DictSpec {
  import opened Options
  import opened NumberTheory
  import opened Probing
  import opened Keys
  import opened TableSpec
  import opened TableProofs

  predicate NoTombstones(b: seq<Bucket>) {
    forall j :: 0 <= j < |b| ==> b[j] != WasFull
  }

  /** The probe loop of `set`. It does not stop at an equal key: it overwrites the value and goes on. */
  function SetFrom<K>(k: Keying<K>, t: Table<K>, key: K, value: K, idx: nat): (r: Option<Table<K>>)
    requires Shaped(t) && IsMap(t) && idx <= |t.buckets|
    ensures r.Some? ==> Shaped(r.value) && IsMap(r.value) && |r.value.buckets| == |t.buckets| && r.value.size == t.size
    decreases |t.buckets| - idx
  {
    if idx == |t.buckets| then None
    else
      var place := Place(k.hash(key), idx, |t.buckets|);
      if t.buckets[place] == Empty then Some(Store(t, place, key, Some(value)))
      else if k.eq(key, t.keys[place]) then SetFrom(k, t.(values := t.values[place := value]), key, value, idx + 1)
      else SetFrom(k, t, key, value, idx + 1)
  }

  /** The rehash loop from slot `i` of the old buckets on. */
  function Reset<K>(k: Keying<K>, old_: Table<K>, i: nat, t: Table<K>): (r: Option<Table<K>>)
    requires Shaped(old_) && IsMap(old_) && Shaped(t) && IsMap(t) && i <= |old_.buckets|
    ensures r.Some? ==> Shaped(r.value) && IsMap(r.value) && |r.value.buckets| == |t.buckets| && r.value.size == t.size
    decreases |old_.buckets| - i
  {
    if i == |old_.buckets| then Some(t)
    else if old_.buckets[i] != Full then Reset(k, old_, i + 1, t)
    else
      match SetFrom(k, t, old_.keys[i], old_.values[i], 0)
      case None => None
      case Some(next) => Reset(k, old_, i + 1, next)
  }

  /** Doubles the buckets when the entry now counted would fill half of them. */
  function Expand<K>(k: Keying<K>, nil: K, t: Table<K>): (r: Option<Table<K>>)
    requires Shaped(t) && IsMap(t)
    ensures r.Some? ==> Shaped(r.value) && IsMap(r.value)
  {
    if t.size * 2 < |t.buckets| then Some(t)
    else
      match MapPrime(2 * t.size)
      case None => None
      case Some(n) => Reset(k, t, 0, Blank(n, nil, true))
  }

  /** dict_set. A key that is there is overwritten first, and then added all the same. */
  function DictSet<K>(k: Keying<K>, nil: K, t: Table<K>, key: K, value: K): (r: Option<Table<K>>)
    requires Shaped(t) && IsMap(t)
    ensures r.Some? ==> Shaped(r.value) && IsMap(r.value) && r.value.size == t.size + 1
  {
    match Query(k, t, key)
    case None => None
    case Some(found) =>
      var overwritten := if found.Some? then SetFrom(k, t, key, value, 0) else Some(t);
      match overwritten
      case None => None
      case Some(u) =>
        match Expand(k, nil, u.(size := u.size + 1))
        case None => None
        case Some(g) => SetFrom(k, g.(size := u.size + 1), key, value, 0)
  }

  // ----- a fresh key: dict_set does what the hash table does -----

  /** Where the key is not met, `set` stores it where the hash table's search would put it. */
  lemma {:induction false} SetIsStore<K>(k: Keying<K>, t: Table<K>, key: K, value: K, idx: nat)
    requires Shaped(t) && IsMap(t) && idx <= |t.buckets| && NoTombstones(t.buckets)
    requires var p := Probe(k, t.buckets, t.keys, key, idx, None); p.Some? ==> t.buckets[p.value] != Full
    ensures var p := Probe(k, t.buckets, t.keys, key, idx, None);
      SetFrom(k, t, key, value, idx) == if p.None? then None else Some(Store(t, p.value, key, Some(value)))
    decreases |t.buckets| - idx
  {
    if idx < |t.buckets| {
      var place := Place(k.hash(key), idx, |t.buckets|);
      if t.buckets[place] == Full {
        SetIsStore(k, t, key, value, idx + 1);
      }
    }
  }

  lemma StoreKeepsNoTombstones<K>(t: Table<K>, place: nat, key: K, value: Option<K>)
    requires Shaped(t) && place < |t.buckets| && NoTombstones(t.buckets)
    requires value.Some? <==> IsMap(t)
    ensures NoTombstones(Store(t, place, key, value).buckets)
  {
  }

  /** The rehash loop of the dictionary is the hash table's. */
  lemma {:induction false} ResetIsRefill<K(!new)>(k: Keying<K>, old_: Table<K>, i: nat, t: Table<K>)
    requires Lawful(k) && Moved(k, old_, i, t) && IsMap(t) && NoTombstones(t.buckets)
    ensures Reset(k, old_, i, t) == Refill(k, old_, i, t)
    ensures Reset(k, old_, i, t).Some? ==> NoTombstones(Reset(k, old_, i, t).value.buckets)
    decreases |old_.buckets| - i
  {
    hide OnPath, Contents, Find, Store, Chained, OnePerSlot, FullSlots, TableSize, SetFrom, Probe;
    if i < |old_.buckets| {
      if old_.buckets[i] == Full {
        var key, value := old_.keys[i], old_.values[i];
        MoveNext(k, old_, i, t);
        var place := Find(k, t, key).value;
        assert Find(k, t, key) == Probe(k, t.buckets, t.keys, key, 0, None) by { FindIsProbe(k, t, key); }
        SetIsStore(k, t, key, value, 0);
        StoreKeepsNoTombstones(t, place, key, Some(value));
        ResetIsRefill(k, old_, i + 1, Store(t, place, key, Some(value)));
      } else {
        FullPrefix(old_.buckets, i);
        assert forall x, j: nat :: j < i + 1 && HeldAt(old_, x, j) ==> j < i;
        ResetIsRefill(k, old_, i + 1, t);
      }
    }
  }

  lemma FindIsProbe<K>(k: Keying<K>, t: Table<K>, key: K)
    requires Shaped(t)
    ensures Find(k, t, key) == Probe(k, t.buckets, t.keys, key, 0, None)
  {
  }

  /** All sizes are odd, so the next size above n + 1 is the next size above an odd n. */
  lemma {:induction false} NoEvenSizes(n: nat, i: nat)
    requires SizesArePrime() && n % 2 == 1 && i <= |SIZES|
    ensures FirstAbove(n + 1, i) == FirstAbove(n, i)
    decreases |SIZES| - i
  {
    hide IsPrime, FirstAbove;
    if i < |SIZES| {
      var size := SIZES[i];
      assert size in SIZES && TableSize(size);
      OddGap(n, size);
      FirstAboveStep(n, i);
      FirstAboveStep(n + 1, i);
      NoEvenSizes(n, i + 1);
    } else {
      NoneAbove(n);
      NoneAbove(n + 1);
    }
  }

  lemma OddGap(n: int, m: int)
    requires n % 2 == 1 && m % 2 == 1
    ensures n < m <==> n + 1 < m
    ensures forall k: int :: k * 2 < n <= k * 2 + 2 ==> n + 1 == 2 * (k + 1)
  {
  }

  lemma FirstAboveStep(n: int, i: nat)
    requires i < |SIZES|
    ensures FirstAbove(n, i) == if n < SIZES[i] then Some(SIZES[i]) else FirstAbove(n, i + 1)
  {
  }

  lemma NoneAbove(n: int)
    ensures FirstAbove(n, |SIZES|) == None
  {
  }

  lemma SetFresh<K(!new)>(k: Keying<K>, t: Table<K>, key: K, value: K)
    requires Lawful(k) && Shaped(t) && IsMap(t) && Chained(k, t.buckets, t.keys) && NoTombstones(t.buckets)
    requires !Held(k, t, key)
    ensures var p := Find(k, t, key);
      SetFrom(k, t, key, value, 0) == if p.None? then None else Some(Store(t, p.value, key, Some(value)))
    ensures var r := SetFrom(k, t, key, value, 0); r.Some? ==> NoTombstones(r.value.buckets)
  {
    FindMeaning(k, t, key);
    var place := Find(k, t, key);
    if place.Some? {
      SoughtHeld(k, t, key, place.value);
      StoreKeepsNoTombstones(t, place.value, key, Some(value));
    }
    SetIsStore(k, t, key, value, 0);
  }

  lemma ExpandIsRehash<K(!new)>(k: Keying<K>, nil: K, t: Table<K>)
    requires Lawful(k) && SizesArePrime() && Inv(k, t) && IsMap(t) && (t.size + 1) * 2 >= |t.buckets|
    ensures var up := t.(size := t.size + 1); Expand(k, nil, up) == Rehash(k, nil, up)
    ensures var r := Rehash(k, nil, t.(size := t.size + 1)); r.Some? ==> NoTombstones(r.value.buckets)
  {
    hide IsPrime, Chained, OnePerSlot, Contents, FullSlots, Refill, Reset, Blank;
    var up := t.(size := t.size + 1);
    var n := |t.buckets|;
    assert TableSize(n);
    NextIsNext(t.size, n);
    if MapPrime(n).Some? {
      var m := MapPrime(n).value;
      assert TableSize(m);
      SizeIsNotContents(k, t, t.size + 1);
      BlankMoved(k, up, m, nil);
      BlankHasNoTombstones(m, nil);
      ResetIsRefill(k, up, 0, Blank(m, nil, true));
    }
  }

  lemma NextIsNext(size: int, n: nat)
    requires SizesArePrime() && n % 2 == 1 && size * 2 < n <= size * 2 + 2
    ensures MapPrime(2 * (size + 1)) == MapPrime(n)
  {
    OddGap(n, n);
    NoEvenSizes(n, 0);
    hide SizesArePrime, FirstAbove;
  }

  lemma BlankHasNoTombstones<K>(n: nat, nil: K)
    ensures var t := Blank(n, nil, true); NoTombstones(t.buckets) && (n > 0 ==> Shaped(t) && IsMap(t))
  {
  }

  lemma FreshAfterRehash<K(!new)>(k: Keying<K>, nil: K, t: Table<K>, key: K)
    requires Lawful(k) && SizesArePrime() && Inv(k, t) && IsMap(t) && !Held(k, t, key)
    requires Rehash(k, nil, t.(size := t.size + 1)).Some?
    ensures var g := Rehash(k, nil, t.(size := t.size + 1)).value;
      Sound(k, g.(size := t.size + 1)) && IsMap(g) && !Held(k, g.(size := t.size + 1), key)
  {
    hide Place, OnPath, Contents, Rehash, OnePerSlot, Chained, Bound;
    var up := t.(size := t.size + 1);
    SizeIsNotContents(k, t, t.size + 1);
    RehashCorrect(k, nil, up);
    var g := Rehash(k, nil, up).value;
    SizeIsNotContents(k, g, t.size + 1);
    ContentsOnePerClass(k, t);
    ContentsOnePerClass(k, g.(size := t.size + 1));
  }

  /** dict_set of a key that is not there, case by case. */
  lemma DictSetFresh<K>(k: Keying<K>, nil: K, t: Table<K>, key: K, value: K)
    requires Shaped(t) && IsMap(t)
    ensures Find(k, t, key).None? ==> DictSet(k, nil, t, key, value) == None
    ensures Find(k, t, key).Some? && t.buckets[Find(k, t, key).value] != Full ==>
      var e := Expand(k, nil, t.(size := t.size + 1));
      DictSet(k, nil, t, key, value) == if e.None? then None else SetFrom(k, e.value.(size := t.size + 1), key, value, 0)
  {
    hide Find, SetFrom, Expand;
  }

  /** ht_set2 of a key that is not there, case by case. */
  lemma InsertFresh<K>(k: Keying<K>, nil: K, t: Table<K>, key: K, value: K)
    requires Shaped(t) && IsMap(t)
    requires Find(k, t, key).Some? ==> t.buckets[Find(k, t, key).value] != Full
    ensures var place, up := Find(k, t, key), t.(size := t.size + 1);
      && (place.None? ==> Insert(k, nil, t, key, Some(value)) == None)
      && (place.Some? && up.size * 2 < |t.buckets| ==>
        Insert(k, nil, t, key, Some(value)) == Some(Store(up, place.value, key, Some(value))))
      && (place.Some? && up.size * 2 >= |t.buckets| ==>
        var g := Rehash(k, nil, up);
        && (g.None? ==> Insert(k, nil, t, key, Some(value)) == None)
        && (g.Some? ==>
          var free := Find(k, g.value, key);
          Insert(k, nil, t, key, Some(value))
            == if free.None? then None else Some(Store(g.value.(size := up.size), free.value, key, Some(value)))))
  {
    hide Find, Store, Rehash;
  }

  /** Setting a fresh key does to a dictionary what ht_set2 does to a map. */
  lemma FreshIsInsert<K(!new)>(k: Keying<K>, nil: K, t: Table<K>, key: K, value: K)
    requires Lawful(k) && SizesArePrime() && Inv(k, t) && IsMap(t) && NoTombstones(t.buckets)
    requires !Held(k, t, key)
    ensures var r := DictSet(k, nil, t, key, value);
      r == Insert(k, nil, t, key, Some(value)) && (r.Some? ==> NoTombstones(r.value.buckets))
  {
    hide DictSet, Insert, Find, SetFrom, Rehash, Chained, OnePerSlot, Contents, Store, Reset;
    FindMeaning(k, t, key);
    var place := Find(k, t, key);
    if place.Some? {
      SoughtHeld(k, t, key, place.value);
    }
    DictSetFresh(k, nil, t, key, value);
    InsertFresh(k, nil, t, key, value);
    if place.Some? {
      var up := t.(size := t.size + 1);
      SizeIsNotContents(k, t, up.size);
      if up.size * 2 < |t.buckets| {
        FindIgnoresSize(k, t, up.size, key);
        SetFresh(k, up, key, value);
      } else {
        ExpandIsRehash(k, nil, t);
        hide Expand;
        var g := Rehash(k, nil, up);
        if g.Some? {
          FreshAfterRehash(k, nil, t, key);
          FindIgnoresSize(k, g.value, up.size, key);
          SetFresh(k, g.value.(size := up.size), key, value);
        }
      }
    }
  }

  lemma FindIgnoresSize<K>(k: Keying<K>, t: Table<K>, size: int, key: K)
    requires Shaped(t)
    ensures Find(k, t.(size := size), key) == Find(k, t, key)
  {
  }

  /** Setting a fresh key adds it to the map the dictionary stands for; it ends the program only when the probe walk
      is stuck or the largest size is reached. */
  lemma FreshSetCorrect<K(!new)>(k: Keying<K>, nil: K, t: Table<K>, key: K, value: K)
    requires Lawful(k) && SizesArePrime() && Inv(k, t) && IsMap(t) && NoTombstones(t.buckets)
    requires !Held(k, t, key)
    ensures var r := DictSet(k, nil, t, key, value);
      && (r.None? <==> Stuck(k, t, key) || ((t.size + 1) * 2 >= |t.buckets| && |t.buckets| == LARGEST))
      && (r.Some? ==>
        && Inv(k, r.value) && IsMap(r.value) && NoTombstones(r.value.buckets)
        && Contents(r.value) == Put(k, Contents(t), key, Some(value)))
  {
    FreshIsInsert(k, nil, t, key, value);
    InsertCorrect(k, nil, t, key, Some(value));
  }

  // ----- a key that is there already -----

  ghost predicate Twice<K>(k: Keying<K>, t: Table<K>, key: K) {
    exists i: nat, j: nat :: i < j < |t.buckets| == |t.keys| && t.buckets[i] == Full && t.buckets[j] == Full
      && k.eq(key, t.keys[i]) && k.eq(key, t.keys[j])
  }

  /** `set` puts the key into an empty bucket, and changes no key that is there. */
  lemma {:induction false} SetKeepsKeys<K>(k: Keying<K>, t: Table<K>, key: K, value: K, idx: nat)
    returns (place: nat)
    requires Shaped(t) && IsMap(t) && idx <= |t.buckets| && SetFrom(k, t, key, value, idx).Some?
    ensures var r := SetFrom(k, t, key, value, idx).value;
      && place < |t.buckets| && t.buckets[place] == Empty
      && r.buckets == t.buckets[place := Full] && r.keys == t.keys[place := key]
    decreases |t.buckets| - idx
  {
    place := Place(k.hash(key), idx, |t.buckets|);
    if t.buckets[place] != Empty {
      if k.eq(key, t.keys[place]) {
        place := SetKeepsKeys(k, t.(values := t.values[place := value]), key, value, idx + 1);
      } else {
        place := SetKeepsKeys(k, t, key, value, idx + 1);
      }
    }
  }

  /** Every key that is moved is in the new buckets. */
  lemma {:induction false} ResetKeepsKey<K>(k: Keying<K>, old_: Table<K>, i: nat, t: Table<K>, key: K)
    requires Shaped(old_) && IsMap(old_) && Shaped(t) && IsMap(t) && i <= |old_.buckets|
    requires Held(k, t, key) || exists j: nat :: i <= j < |old_.buckets| && old_.buckets[j] == Full && k.eq(key, old_.keys[j])
    requires Reset(k, old_, i, t).Some?
    ensures Held(k, Reset(k, old_, i, t).value, key)
    decreases |old_.buckets| - i
  {
    if i < |old_.buckets| {
      if old_.buckets[i] == Full {
        var next := SetFrom(k, t, old_.keys[i], old_.values[i], 0).value;
        var place := SetKeepsKeys(k, t, old_.keys[i], old_.values[i], 0);
        hide SetFrom;
        if Held(k, t, key) {
          var j: nat :| j < |t.buckets| && t.buckets[j] == Full && k.eq(key, t.keys[j]);
          assert next.buckets[j] == Full && next.keys[j] == t.keys[j];
        } else if k.eq(key, old_.keys[i]) {
          assert next.buckets[place] == Full && next.keys[place] == old_.keys[i];
        }
        ResetKeepsKey(k, old_, i + 1, next, key);
      } else {
        ResetKeepsKey(k, old_, i + 1, t, key);
      }
    }
  }

  lemma SetTwice<K>(k: Keying<K>, t: Table<K>, key: K, value: K)
    requires Shaped(t) && IsMap(t) && Held(k, t, key) && k.eq(key, key) && SetFrom(k, t, key, value, 0).Some?
    ensures Twice(k, SetFrom(k, t, key, value, 0).value, key)
  {
    var place := SetKeepsKeys(k, t, key, value, 0);
    var r := SetFrom(k, t, key, value, 0).value;
    hide SetFrom;
    var j: nat :| j < |t.buckets| && t.buckets[j] == Full && k.eq(key, t.keys[j]);
    assert r.buckets[j] == Full && r.keys[j] == t.keys[j] && r.buckets[place] == Full && r.keys[place] == key;
    assert j != place;
  }

  /** Setting a key that is there puts it into a second bucket. */
  lemma OverwriteDuplicates<K(!new)>(k: Keying<K>, nil: K, t: Table<K>, key: K, value: K)
    requires Lawful(k) && Shaped(t) && IsMap(t) && Held(k, t, key) && DictSet(k, nil, t, key, value).Some?
    ensures Twice(k, DictSet(k, nil, t, key, value).value, key)
  {
    var u, g := DictSetParts(k, nil, t, key, value);
    if Query(k, t, key).value.Some? {
      SetKeepsHeld(k, t, key, value);
    }
    var up := u.(size := u.size + 1);
    hide SetFrom, Query, DictSet, MapPrime;
    assert Held(k, up, key);
    if up.size * 2 >= |up.buckets| {
      ResetKeepsKey(k, up, 0, Blank(MapPrime(2 * up.size).value, nil, true), key);
    }
    assert Held(k, g.(size := up.size), key);
    SetTwice(k, g.(size := up.size), key, value);
  }

  /** The stages of dict_set. */
  lemma DictSetParts<K>(k: Keying<K>, nil: K, t: Table<K>, key: K, value: K) returns (u: Table<K>, g: Table<K>)
    requires Shaped(t) && IsMap(t) && DictSet(k, nil, t, key, value).Some?
    ensures Query(k, t, key).Some? && Shaped(u) && IsMap(u) && Shaped(g) && IsMap(g)
    ensures Query(k, t, key).value.None? ==> u == t
    ensures Query(k, t, key).value.Some? ==> SetFrom(k, t, key, value, 0) == Some(u)
    ensures Expand(k, nil, u.(size := u.size + 1)) == Some(g)
    ensures DictSet(k, nil, t, key, value) == SetFrom(k, g.(size := u.size + 1), key, value, 0)
  {
    hide SetFrom, Query, Expand;
    u := if Query(k, t, key).value.Some? then SetFrom(k, t, key, value, 0).value else t;
    g := Expand(k, nil, u.(size := u.size + 1)).value;
  }

  lemma SetKeepsHeld<K>(k: Keying<K>, t: Table<K>, key: K, value: K)
    requires Shaped(t) && IsMap(t) && Held(k, t, key) && SetFrom(k, t, key, value, 0).Some?
    ensures Held(k, SetFrom(k, t, key, value, 0).value, key)
  {
    var place := SetKeepsKeys(k, t, key, value, 0);
    var r := SetFrom(k, t, key, value, 0).value;
    hide SetFrom;
    var j: nat :| j < |t.buckets| && t.buckets[j] == Full && k.eq(key, t.keys[j]);
    assert r.buckets[j] == Full && r.keys[j] == t.keys[j];
  }

  /** A dictionary stays a finite map with one bucket a key exactly when only keys are set that are not there. */
  lemma SetKeepsMapExactly<K(!new)>(k: Keying<K>, nil: K, t: Table<K>, key: K, value: K)
    requires Lawful(k) && SizesArePrime() && Inv(k, t) && IsMap(t) && NoTombstones(t.buckets)
    requires DictSet(k, nil, t, key, value).Some?
    ensures Inv(k, DictSet(k, nil, t, key, value).value) <==> !Held(k, t, key)
  {
    if Held(k, t, key) {
      OverwriteDuplicates(k, nil, t, key, value);
      hide DictSet, Chained;
    } else {
      FreshSetCorrect(k, nil, t, key, value);
    }
  }
}
