/** The probe finds what it should, the operations keep the table's invariant, and each of them
    does to the finite map the table stands for what its name says. */
module TableProofs {
  import opened Options
  import opened NumberTheory
  import opened Probing
  import opened Keys
  import opened TableSpec

  /** Every slot the walk for `key` visits holds some other key. */
  ghost predicate Stuck<K>(k: Keying<K>, t: Table<K>, key: K)
    requires Shaped(t)
  {
    forall i: nat :: i < |t.buckets| ==>
      var place := Place(k.hash(key), i, |t.buckets|);
      t.buckets[place] == Full && !k.eq(key, t.keys[place])
  }

  ghost predicate Held<K>(k: Keying<K>, t: Table<K>, key: K)
    requires Shaped(t)
  {
    exists j: nat :: j < |t.buckets| && t.buckets[j] == Full && k.eq(key, t.keys[j])
  }

  /** A slot that answers a search: the key's own, or one where it may be put when it is absent. */
  ghost predicate Sought<K>(k: Keying<K>, t: Table<K>, key: K, place: nat)
    requires Shaped(t)
  {
    && place < |t.buckets|
    && (t.buckets[place] == Full ==> k.eq(key, t.keys[place]))
    && (t.buckets[place] != Full ==> OnPath(t.buckets, k.hash(key), place) && !Held(k, t, key))
  }

  /** The steps before `idx` met no empty slot and no slot holding the key. */
  ghost predicate Passed<K>(k: Keying<K>, t: Table<K>, key: K, idx: nat)
    requires Shaped(t)
  {
    forall i: nat :: i < idx ==>
      var place := Place(k.hash(key), i, |t.buckets|);
      t.buckets[place] != Empty && (t.buckets[place] == Full ==> !k.eq(key, t.keys[place]))
  }

  ghost predicate FirstFree<K>(k: Keying<K>, t: Table<K>, key: K, idx: nat, first: Option<nat>)
    requires Shaped(t)
  {
    match first
    case None =>
      forall i: nat :: i < idx ==> t.buckets[Place(k.hash(key), i, |t.buckets|)] == Full
    case Some(f) =>
      f < |t.buckets| && t.buckets[f] == WasFull && OnPath(t.buckets, k.hash(key), f)
  }

  /** A walk that met an empty slot, or ended, without meeting the key: the key is not in the table. */
  lemma NotHeld<K(!new)>(k: Keying<K>, t: Table<K>, key: K, idx: nat)
    requires Lawful(k) && Shaped(t) && Chained(k, t.buckets, t.keys)
    requires Passed(k, t, key, idx) && idx <= |t.buckets|
    requires idx < |t.buckets| ==> t.buckets[Place(k.hash(key), idx, |t.buckets|)] == Empty
    ensures !Held(k, t, key)
  {
    hide Place;
    forall j: nat | j < |t.buckets| && t.buckets[j] == Full
      ensures !k.eq(key, t.keys[j])
    {
      var h := k.hash(t.keys[j]);
      assert OnPath(t.buckets, h, j);
      var i: nat :| i < |t.buckets| && Place(h, i, |t.buckets|) == j && Clear(t.buckets, h, i);
      if h == k.hash(key) {
        assert i < idx;
      }
    }
  }

  lemma {:induction false} ProbeMeaning<K(!new)>(k: Keying<K>, t: Table<K>, key: K, idx: nat, first: Option<nat>)
    requires Lawful(k) && Shaped(t) && Chained(k, t.buckets, t.keys)
    requires idx <= |t.buckets| && Passed(k, t, key, idx) && FirstFree(k, t, key, idx, first)
    ensures var r := Probe(k, t.buckets, t.keys, key, idx, first);
      match r case None => Stuck(k, t, key) case Some(place) => Sought(k, t, key, place)
    decreases |t.buckets| - idx
  {
    hide Place;
    if idx == |t.buckets| {
      NotHeld(k, t, key, idx);
    } else {
      var place := Place(k.hash(key), idx, |t.buckets|);
      assert Clear(t.buckets, k.hash(key), idx);
      assert OnPath(t.buckets, k.hash(key), place);
      match t.buckets[place]
      case Empty =>
        NotHeld(k, t, key, idx);
      case WasFull =>
        ProbeMeaning(k, t, key, idx + 1, if first.Some? then first else Some(place));
      case Full =>
        if !k.eq(key, t.keys[place]) {
          ProbeMeaning(k, t, key, idx + 1, first);
        }
    }
  }

  /** What `query` returns: a slot that answers the search, unless the walk is stuck. */
  lemma FindMeaning<K(!new)>(k: Keying<K>, t: Table<K>, key: K)
    requires Lawful(k) && Shaped(t) && Chained(k, t.buckets, t.keys)
    ensures Find(k, t, key).None? <==> Stuck(k, t, key)
    ensures Find(k, t, key).Some? ==> Sought(k, t, key, Find(k, t, key).value)
  {
    hide Place;
    ProbeMeaning(k, t, key, 0, None);
    if Stuck(k, t, key) {
      StuckFindsNothing(k, t, key, 0);
    }
  }

  lemma {:induction false} StuckFindsNothing<K>(k: Keying<K>, t: Table<K>, key: K, idx: nat)
    requires Shaped(t) && Stuck(k, t, key) && idx <= |t.buckets|
    ensures Probe(k, t.buckets, t.keys, key, idx, None).None?
    decreases |t.buckets| - idx
  {
    hide Place;
    if idx < |t.buckets| {
      StuckFindsNothing(k, t, key, idx + 1);
    }
  }

  /** Every size a table can have is an odd prime. */
  ghost predicate SizesArePrime() {
    forall p :: p in SIZES ==> TableSize(p)
  }

  /** A stuck walk needs at least (p-1)/2 full slots, and more unless it wraps early. */
  lemma StuckNeedsFullSlots<K(!new)>(k: Keying<K>, t: Table<K>, key: K)
    requires Lawful(k) && Shaped(t) && TableSize(|t.buckets|)
    requires Stuck(k, t, key)
    ensures |FullSlots(t.buckets)| >= Half(|t.buckets|)
    ensures |FullSlots(t.buckets)| == Half(|t.buckets|) ==> !CoversMajority(k.hash(key), |t.buckets|)
  {
    hide Place;
    var p, h := |t.buckets|, k.hash(key);
    Coverage(h, p);
    assert ProbeSlots(h, p) <= FullSlots(t.buckets);
    SubsetSize(ProbeSlots(h, p), FullSlots(t.buckets));
  }

  /** Probe totality for a table within its load bound: a search can only be stuck in a table filled
      to the last slot the bound allows, and only for a hash whose walk wraps early. */
  lemma StuckOnlyAtFullLoad<K(!new)>(k: Keying<K>, t: Table<K>, key: K)
    requires Lawful(k) && Inv(k, t) && SizesArePrime()
    requires Stuck(k, t, key)
    ensures t.size == Half(|t.buckets|)
    ensures !CoversMajority(k.hash(key), |t.buckets|)
  {
    assert TableSize(|t.buckets|);
    StuckNeedsFullSlots(k, t, key);
  }

  // ----- what a single write does -----

  /** Buckets that only gained non-empty slots keep every path. */
  lemma PathKept(b: seq<Bucket>, c: seq<Bucket>, h: nat, slot: nat)
    requires 0 < |b| == |c| && OnPath(b, h, slot)
    requires forall j: nat :: j < |b| && b[j] != Empty ==> c[j] != Empty
    ensures OnPath(c, h, slot)
  {
    hide Place;
    var i: nat :| i < |b| && Place(h, i, |b|) == slot && Clear(b, h, i);
    assert Clear(c, h, i);
  }

  /** The invariant without the load bound, for a table that is being filled. */
  ghost predicate Sound<K>(k: Keying<K>, t: Table<K>) {
    && Shaped(t)
    && Chained(k, t.buckets, t.keys)
    && OnePerSlot(k, t.buckets, t.keys)
  }

  lemma FullSlotsAfter(b: seq<Bucket>, place: nat, v: Bucket)
    requires place < |b|
    ensures FullSlots(b[place := v]) == if v == Full then FullSlots(b) + {place} else FullSlots(b) - {place}
    ensures b[place] != Full && v == Full ==> |FullSlots(b[place := v])| == |FullSlots(b)| + 1
    ensures b[place] == Full && v != Full ==> |FullSlots(b[place := v])| == |FullSlots(b)| - 1
  {
    var c := b[place := v];
    if b[place] == Full {
      assert FullSlots(b) == (FullSlots(b) - {place}) + {place};
    }
  }

  /** `m` is the map read off the full slots. */
  ghost predicate Represents<K(!new)>(t: Table<K>, m: map<K, Option<K>>)
    requires Shaped(t)
  {
    && (forall j: nat :: j < |t.buckets| && t.buckets[j] == Full ==> t.keys[j] in m && m[t.keys[j]] == ValueAt(t, j))
    && (forall x :: x in m ==> exists j: nat :: HeldAt(t, x, j))
  }

  lemma ContentsRepresents<K(!new)>(k: Keying<K>, t: Table<K>, m: map<K, Option<K>>)
    requires Lawful(k) && Sound(k, t)
    ensures Represents(t, m) <==> m == Contents(t)
  {
    var n := Contents(t);
    forall j: nat | j < |t.buckets| && t.buckets[j] == Full
      ensures t.keys[j] in n && n[t.keys[j]] == ValueAt(t, j)
    {
      assert HeldAt(t, t.keys[j], j);
      assert HeldAt(t, t.keys[j], SlotOf(t, t.keys[j]));
    }
    assert Represents(t, n);
    if Represents(t, m) {
      forall x | x in m || x in n
        ensures x in m && x in n && m[x] == n[x]
      {
        var j: nat :| HeldAt(t, x, j);
      }
    }
  }

  lemma ContentsOnePerClass<K(!new)>(k: Keying<K>, t: Table<K>)
    requires Lawful(k) && Sound(k, t)
    ensures OnePerClass(k, Contents(t))
    ensures forall key: K :: Held(k, t, key) <==> Bound(k, Contents(t), key)
  {
    var m := Contents(t);
    ContentsRepresents(k, t, m);
    forall x, y | x in m && y in m && k.eq(x, y)
      ensures x == y
    {
      var i: nat :| HeldAt(t, x, i);
      var j: nat :| HeldAt(t, y, j);
    }
    forall key: K
      ensures Held(k, t, key) <==> Bound(k, m, key)
    {
      if Held(k, t, key) {
        var j: nat :| j < |t.buckets| && t.buckets[j] == Full && k.eq(key, t.keys[j]);
        assert t.keys[j] in m;
      }
      if Bound(k, m, key) {
        var x :| x in m && k.eq(key, x);
        var j: nat :| HeldAt(t, x, j);
      }
    }
  }

  /** Filling a free slot on its path adds the key. */
  lemma StoreSound<K(!new)>(k: Keying<K>, t: Table<K>, place: nat, key: K, value: Option<K>)
    requires Lawful(k) && Sound(k, t) && Sought(k, t, key, place) && t.buckets[place] != Full
    requires value.Some? <==> IsMap(t)
    ensures var r := Store(t, place, key, value);
      Sound(k, r) && |FullSlots(r.buckets)| == |FullSlots(t.buckets)| + 1
  {
    hide Place;
    var r := Store(t, place, key, value);
    FullSlotsAfter(t.buckets, place, Full);
    forall j: nat | j < |r.buckets| && r.buckets[j] == Full
      ensures OnPath(r.buckets, k.hash(r.keys[j]), j)
    {
      PathKept(t.buckets, r.buckets, k.hash(r.keys[j]), j);
    }
  }

  lemma StoreAdds<K(!new)>(k: Keying<K>, t: Table<K>, place: nat, key: K, value: Option<K>)
    requires Lawful(k) && Sound(k, t) && Sought(k, t, key, place) && t.buckets[place] != Full
    requires value.Some? <==> IsMap(t)
    ensures var r := Store(t, place, key, value);
      Sound(k, r) && Contents(r) == Put(k, Contents(t), key, value)
  {
    hide Place, OnPath, Contents;
    var r := Store(t, place, key, value);
    StoreSound(k, t, place, key, value);
    ContentsOnePerClass(k, t);
    var m := Contents(t);
    ContentsRepresents(k, t, m);
    var n := m[key := value];
    forall x | x in n
      ensures exists j: nat :: HeldAt(r, x, j)
    {
      if x == key {
        assert HeldAt(r, x, place);
      } else {
        var j: nat :| HeldAt(t, x, j);
        assert HeldAt(r, x, j);
      }
    }
    assert Represents(r, n);
    ContentsRepresents(k, r, n);
  }

  /** Overwriting the value of a held key. */
  lemma StoreOverwrites<K(!new)>(k: Keying<K>, t: Table<K>, place: nat, key: K, value: Option<K>)
    requires Lawful(k) && Sound(k, t) && Sought(k, t, key, place) && t.buckets[place] == Full
    requires value.Some? <==> IsMap(t)
    ensures var r := if value.Some? then t.(values := t.values[place := value.value]) else t;
      && Sound(k, r)
      && Contents(r) == Put(k, Contents(t), key, value)
  {
    hide Place, OnPath, Contents;
    var r := if value.Some? then t.(values := t.values[place := value.value]) else t;
    var m := Contents(t);
    ContentsOnePerClass(k, t);
    ContentsRepresents(k, t, m);
    RepresentativeIs(k, m, key, t.keys[place]);
    var n := m[t.keys[place] := value];
    forall x | x in n
      ensures exists j: nat :: HeldAt(r, x, j)
    {
      var j: nat :| HeldAt(t, x, j);
      assert HeldAt(r, x, j);
    }
    assert Represents(r, n);
    ContentsRepresents(k, r, n);
  }

  /** Turning the key's slot into a tombstone takes the key out and breaks no path. */
  lemma EraseSound<K(!new)>(k: Keying<K>, nil: K, t: Table<K>, place: nat)
    requires Lawful(k) && Sound(k, t) && place < |t.buckets| && t.buckets[place] == Full
    ensures var r := t.(buckets := t.buckets[place := WasFull], keys := t.keys[place := nil]);
      Sound(k, r) && |FullSlots(r.buckets)| == |FullSlots(t.buckets)| - 1
  {
    hide Place;
    var r := t.(buckets := t.buckets[place := WasFull], keys := t.keys[place := nil]);
    FullSlotsAfter(t.buckets, place, WasFull);
    forall j: nat | j < |r.buckets| && r.buckets[j] == Full
      ensures OnPath(r.buckets, k.hash(r.keys[j]), j)
    {
      PathKept(t.buckets, r.buckets, k.hash(r.keys[j]), j);
    }
  }

  lemma EraseRemoves<K(!new)>(k: Keying<K>, nil: K, t: Table<K>, place: nat, key: K)
    requires Lawful(k) && Sound(k, t) && Sought(k, t, key, place) && t.buckets[place] == Full
    ensures var r := t.(buckets := t.buckets[place := WasFull], keys := t.keys[place := nil]);
      Sound(k, r) && Contents(r) == Delete(k, Contents(t), key)
  {
    hide Place, OnPath, Contents;
    var r := t.(buckets := t.buckets[place := WasFull], keys := t.keys[place := nil]);
    EraseSound(k, nil, t, place);
    var m := Contents(t);
    ContentsOnePerClass(k, t);
    ContentsRepresents(k, t, m);
    RepresentativeIs(k, m, key, t.keys[place]);
    var n := m - {t.keys[place]};
    forall x | x in n
      ensures exists j: nat :: HeldAt(r, x, j)
    {
      var j: nat :| HeldAt(t, x, j);
      assert HeldAt(r, x, j);
    }
    assert Represents(r, n);
    ContentsRepresents(k, r, n);
  }

  // ----- growing -----

  ghost predicate RepresentsPrefix<K(!new)>(t: Table<K>, n: nat, m: map<K, Option<K>>)
    requires Shaped(t) && n <= |t.buckets|
  {
    && (forall j: nat :: j < n && t.buckets[j] == Full ==> t.keys[j] in m && m[t.keys[j]] == ValueAt(t, j))
    && (forall x :: x in m ==> exists j: nat :: j < n && HeldAt(t, x, j))
  }

  /** What the rehash loop keeps: the new table holds exactly the entries of the slots already moved. */
  ghost predicate Moved<K(!new)>(k: Keying<K>, old_: Table<K>, i: nat, t: Table<K>)
  {
    && Sound(k, old_) && Sound(k, t)
    && (IsMap(old_) <==> IsMap(t))
    && i <= |old_.buckets|
    && TableSize(|t.buckets|)
    && |FullSlots(old_.buckets)| * 2 + 1 < |t.buckets|
    && |FullSlots(t.buckets)| == |FullSlots(old_.buckets[..i])|
    && RepresentsPrefix(old_, i, Contents(t))
  }

  /** The keys of the full slots before `n`. */
  ghost function KeysBefore<K>(t: Table<K>, n: nat): set<K>
    requires Shaped(t) && n <= |t.buckets|
  {
    set j: nat | j < n && t.buckets[j] == Full :: t.keys[j]
  }

  lemma {:induction false} KeysBeforeSize<K(!new)>(k: Keying<K>, t: Table<K>, n: nat)
    requires Lawful(k) && Shaped(t) && OnePerSlot(k, t.buckets, t.keys) && n <= |t.buckets|
    ensures |KeysBefore(t, n)| == |FullSlots(t.buckets[..n])|
  {
    if n == 0 {
      assert KeysBefore(t, 0) == {} && FullSlots(t.buckets[..0]) == {};
    } else {
      var i := n - 1;
      KeysBeforeSize(k, t, i);
      FullPrefix(t.buckets, i);
      if t.buckets[i] == Full {
        assert KeysBefore(t, n) == KeysBefore(t, i) + {t.keys[i]};
        assert t.keys[i] !in KeysBefore(t, i);
      } else {
        assert KeysBefore(t, n) == KeysBefore(t, i);
      }
    }
  }

  /** The table's size counts the keys of the map it stands for. */
  lemma SizeIsKeys<K(!new)>(k: Keying<K>, t: Table<K>)
    requires Lawful(k) && Inv(k, t)
    ensures |Contents(t)| == t.size
  {
    hide OnPath, Chained;
    var m, n := Contents(t), |t.buckets|;
    ContentsRepresents(k, t, m);
    KeysBeforeSize(k, t, n);
    assert t.buckets[..n] == t.buckets;
    hide Contents, FullSlots, Lawful, OnePerSlot;
    forall x
      ensures x in m.Keys <==> x in KeysBefore(t, n)
    {
      if x in m {
        var j: nat :| HeldAt(t, x, j);
      }
    }
    assert m.Keys == KeysBefore(t, n);
  }

  lemma FullPrefix(b: seq<Bucket>, i: nat)
    requires i < |b|
    ensures |FullSlots(b[..i + 1])| == |FullSlots(b[..i])| + if b[i] == Full then 1 else 0
    ensures |FullSlots(b[..i + 1])| <= |FullSlots(b)|
  {
    var before := FullSlots(b[..i]);
    assert FullSlots(b[..i + 1]) == if b[i] == Full then before + {i} else before;
    SubsetSize(FullSlots(b[..i + 1]), FullSlots(b));
  }

  lemma MoveNext<K(!new)>(k: Keying<K>, old_: Table<K>, i: nat, t: Table<K>)
    requires Lawful(k) && Moved(k, old_, i, t)
    requires i < |old_.buckets| && old_.buckets[i] == Full
    ensures Find(k, t, old_.keys[i]).Some? && t.buckets[Find(k, t, old_.keys[i]).value] != Full
    ensures Moved(k, old_, i + 1, Store(t, Find(k, t, old_.keys[i]).value, old_.keys[i], ValueAt(old_, i)))
  {
    hide Place, OnPath, Contents, Chained, OnePerSlot, Find, FullSlots, IsPrime, RepresentsPrefix, Put, Sought;
    var key, value := old_.keys[i], ValueAt(old_, i);
    FullPrefix(old_.buckets, i);
    FindMeaning(k, t, key);
    if Stuck(k, t, key) {
      StuckNeedsFullSlots(k, t, key);
    }
    var place := Find(k, t, key).value;
    ContentsOnePerClass(k, t);
    NotYetMoved(k, old_, i, Contents(t));
    SoughtHeld(k, t, key, place);
    StoreSound(k, t, place, key, value);
    StoreAdds(k, t, place, key, value);
    PrefixGrows(k, old_, i, Contents(t));
  }

  lemma NotYetMoved<K(!new)>(k: Keying<K>, old_: Table<K>, i: nat, m: map<K, Option<K>>)
    requires Sound(k, old_) && i < |old_.buckets| && old_.buckets[i] == Full && RepresentsPrefix(old_, i, m)
    ensures !Bound(k, m, old_.keys[i])
  {
    hide OnPath;
    forall x | x in m
      ensures !k.eq(old_.keys[i], x)
    {
      var j: nat :| j < i && HeldAt(old_, x, j);
    }
  }

  lemma PrefixGrows<K(!new)>(k: Keying<K>, old_: Table<K>, i: nat, m: map<K, Option<K>>)
    requires Lawful(k) && Sound(k, old_) && i < |old_.buckets| && old_.buckets[i] == Full
    requires RepresentsPrefix(old_, i, m)
    ensures RepresentsPrefix(old_, i + 1, Put(k, m, old_.keys[i], ValueAt(old_, i)))
  {
    hide OnPath;
    NotYetMoved(k, old_, i, m);
    var n := m[old_.keys[i] := ValueAt(old_, i)];
    forall x | x in n
      ensures exists j: nat :: j < i + 1 && HeldAt(old_, x, j)
    {
      if x == old_.keys[i] {
        assert HeldAt(old_, x, i);
      } else {
        var j: nat :| j < i && HeldAt(old_, x, j);
      }
    }
  }

  lemma {:induction false} RefillMovesAll<K(!new)>(k: Keying<K>, old_: Table<K>, i: nat, t: Table<K>)
    requires Lawful(k) && Moved(k, old_, i, t)
    ensures var r := Refill(k, old_, i, t);
      r.Some? && |r.value.buckets| == |t.buckets| && Moved(k, old_, |old_.buckets|, r.value)
    decreases |old_.buckets| - i
  {
    hide OnPath, Contents, Find, Refill, Store, Chained, OnePerSlot, FullSlots, TableSize;
    if i < |old_.buckets| {
      RefillStep(k, old_, i, t);
      if old_.buckets[i] == Full {
        MoveNext(k, old_, i, t);
        RefillMovesAll(k, old_, i + 1, Store(t, Find(k, t, old_.keys[i]).value, old_.keys[i], ValueAt(old_, i)));
      } else {
        FullPrefix(old_.buckets, i);
        assert forall x, j: nat :: j < i + 1 && HeldAt(old_, x, j) ==> j < i;
        RefillMovesAll(k, old_, i + 1, t);
      }
    } else {
      RefillEnd(k, old_, t);
    }
  }

  lemma {:induction false} FirstAboveMeaning(n: int, i: nat)
    requires i <= |SIZES|
    ensures FirstAbove(n, i).None? <==> forall j :: i <= j < |SIZES| ==> SIZES[j] <= n
    decreases |SIZES| - i
  {
    if i < |SIZES| {
      FirstAboveMeaning(n, i + 1);
    }
  }

  const LARGEST: nat := 536870909

  /** map_prime gives out only at the last size it can return. */
  lemma OnlyLargestCannotGrow(n: nat)
    requires n in SIZES
    ensures MapPrime(n).None? <==> n == LARGEST
  {
    FirstAboveMeaning(n, 0);
    assert SIZES[|SIZES| - 1] == LARGEST;
  }

  lemma RefillBlank<K(!new)>(k: Keying<K>, t: Table<K>, n: nat, nil: K)
    requires Lawful(k) && Sound(k, t) && TableSize(n) && |FullSlots(t.buckets)| * 2 + 1 < n
    ensures var r := Refill(k, t, 0, Blank(n, nil, IsMap(t)));
      r.Some?
        && Sound(k, r.value) && (IsMap(r.value) <==> IsMap(t))
        && |r.value.buckets| == n
        && |FullSlots(r.value.buckets)| == |FullSlots(t.buckets)|
        && Contents(r.value) == Contents(t)
  {
    hide Place, OnPath, Contents, OnePerSlot, Chained, Refill, IsPrime;
    BlankMoved(k, t, n, nil);
    RefillMovesAll(k, t, 0, Blank(n, nil, IsMap(t)));
    var r := Refill(k, t, 0, Blank(n, nil, IsMap(t))).value;
    assert t.buckets[..|t.buckets|] == t.buckets;
    assert Represents(t, Contents(r));
    ContentsRepresents(k, t, Contents(r));
  }

  /** Rehashing never fails for want of a slot and keeps the contents. */
  lemma RehashCorrect<K(!new)>(k: Keying<K>, nil: K, t: Table<K>)
    requires Lawful(k) && Sound(k, t) && SizesArePrime()
    requires |t.buckets| in SIZES && |FullSlots(t.buckets)| * 2 < |t.buckets|
    ensures Rehash(k, nil, t).None? <==> |t.buckets| == LARGEST
    ensures var r := Rehash(k, nil, t);
      r.Some? ==>
        && Sound(k, r.value) && (IsMap(r.value) <==> IsMap(t))
        && |r.value.buckets| in SIZES && |r.value.buckets| >= |t.buckets| + 2
        && |FullSlots(r.value.buckets)| == |FullSlots(t.buckets)|
        && Contents(r.value) == Contents(t)
  {
    hide Sound, Contents, Refill, MapPrime, Blank, FullSlots, Lawful, TableSize, SizesArePrime, SIZES;
    assert Shaped(t) by { SoundShaped(k, t); }
    NextSize(|t.buckets|);
    if MapPrime(|t.buckets|).Some? {
      RefillBlank(k, t, MapPrime(|t.buckets|).value, nil);
    }
  }

  lemma SoundShaped<K>(k: Keying<K>, t: Table<K>)
    requires Sound(k, t)
    ensures Shaped(t)
  {
  }

  /** Sizes are odd, so that the next one is larger by two at least. */
  lemma NextSize(n: nat)
    requires SizesArePrime() && n in SIZES
    ensures MapPrime(n).None? <==> n == LARGEST
    ensures MapPrime(n).Some? ==> var m := MapPrime(n).value; m in SIZES && m >= n + 2 && TableSize(m)
  {
    hide IsPrime, SIZES, MapPrime;
    OnlyLargestCannotGrow(n);
    assert TableSize(n) && (MapPrime(n).Some? ==> TableSize(MapPrime(n).value));
  }

  lemma BlankMoved<K(!new)>(k: Keying<K>, t: Table<K>, n: nat, nil: K)
    requires Sound(k, t) && TableSize(n) && |FullSlots(t.buckets)| * 2 + 1 < n
    ensures Moved(k, t, 0, Blank(n, nil, IsMap(t)))
  {
    var blank := Blank(n, nil, IsMap(t));
    assert FullSlots(blank.buckets) == {} && FullSlots(t.buckets[..0]) == {};
    assert HeldKeys(blank) == {};
  }

  lemma RefillStep<K>(k: Keying<K>, old_: Table<K>, i: nat, t: Table<K>)
    requires Shaped(old_) && Shaped(t) && (IsMap(old_) <==> IsMap(t)) && i < |old_.buckets|
    ensures old_.buckets[i] != Full ==> Refill(k, old_, i, t) == Refill(k, old_, i + 1, t)
    ensures old_.buckets[i] == Full ==>
      var place := Find(k, t, old_.keys[i]);
      && (place.None? ==> Refill(k, old_, i, t) == None)
      && (place.Some? ==>
            Refill(k, old_, i, t) == Refill(k, old_, i + 1, Store(t, place.value, old_.keys[i], ValueAt(old_, i))))
  {
    hide Find, Store;
  }

  lemma RefillEnd<K>(k: Keying<K>, old_: Table<K>, t: Table<K>)
    requires Shaped(old_) && Shaped(t) && (IsMap(old_) <==> IsMap(t))
    ensures Refill(k, old_, |old_.buckets|, t) == Some(t)
  {
  }

  lemma InvShaped<K>(k: Keying<K>, t: Table<K>)
    requires Inv(k, t)
    ensures Shaped(t)
  {
  }

  /** A new table is empty. */
  lemma BlankTable<K>(k: Keying<K>, n: nat, nil: K, withValues: bool)
    requires n in SIZES
    ensures var t := Blank(n, nil, withValues);
      Inv(k, t) && Contents(t) == map[]
  {
    var t := Blank(n, nil, withValues);
    assert FullSlots(t.buckets) == {};
    assert HeldKeys(t) == {};
  }

  // ----- the operations on the map the table stands for -----

  /** ht_set and ht_set2 end the program exactly when the walk is stuck or the largest table is full;
      otherwise they put the key into the map. */
  lemma InsertCorrect<K(!new)>(k: Keying<K>, nil: K, t: Table<K>, key: K, value: Option<K>)
    requires Lawful(k) && Inv(k, t) && SizesArePrime()
    requires value.Some? <==> IsMap(t)
    ensures Insert(k, nil, t, key, value).None? <==>
      || Stuck(k, t, key)
      || (!Held(k, t, key) && (t.size + 1) * 2 >= |t.buckets| && |t.buckets| == LARGEST)
    ensures var r := Insert(k, nil, t, key, value);
      r.Some? ==>
        && Inv(k, r.value) && (IsMap(r.value) <==> IsMap(t))
        && Contents(r.value) == Put(k, Contents(t), key, value)
  {
    hide Place, OnPath, Contents, Find, Rehash, OnePerSlot, Chained, Put, Sought;
    FindMeaning(k, t, key);
    if Find(k, t, key).Some? {
      var place := Find(k, t, key).value;
      SoughtHeld(k, t, key, place);
      if t.buckets[place] == Full {
        StoreOverwrites(k, t, place, key, value);
      } else if (t.size + 1) * 2 < |t.buckets| {
        SizeIsNotContents(k, t, t.size + 1);
        var u := t.(size := t.size + 1);
        StoreSound(k, u, place, key, value);
        StoreAdds(k, u, place, key, value);
      } else {
        InsertGrown(k, nil, t, key, value);
      }
    }
  }

  lemma SoughtHeld<K>(k: Keying<K>, t: Table<K>, key: K, place: nat)
    requires Shaped(t) && Sought(k, t, key, place)
    ensures Held(k, t, key) <==> t.buckets[place] == Full
  {
    hide OnPath;
  }

  /** The case in which the table grows. */
  lemma InsertGrown<K(!new)>(k: Keying<K>, nil: K, t: Table<K>, key: K, value: Option<K>)
    requires Lawful(k) && Inv(k, t) && SizesArePrime()
    requires (value.Some? <==> IsMap(t)) && !Held(k, t, key)
    ensures var full := t.(size := t.size + 1);
      && (Rehash(k, nil, full).None? <==> |t.buckets| == LARGEST)
      && (Rehash(k, nil, full).Some? ==>
        var g := Rehash(k, nil, full).value;
        && Find(k, g, key).Some?
        && var r := Store(g.(size := t.size + 1), Find(k, g, key).value, key, value);
        && Inv(k, r) && Contents(r) == Put(k, Contents(t), key, value))
  {
    hide Place, OnPath, Contents, Find, Rehash, OnePerSlot, Chained, Put, Sought, IsPrime;
    var full := t.(size := t.size + 1);
    SizeIsNotContents(k, t, t.size + 1);
    RehashCorrect(k, nil, full);
    if |t.buckets| != LARGEST {
      var g := Rehash(k, nil, full).value;
      SizeIsNotContents(k, g, t.size + 1);
      ContentsOnePerClass(k, t);
      ContentsOnePerClass(k, g);
      assert TableSize(|g.buckets|);
      FindMeaning(k, g, key);
      if Stuck(k, g, key) {
        StuckNeedsFullSlots(k, g, key);
      }
      var free := Find(k, g, key).value;
      SoughtHeld(k, g, key, free);
      var u := g.(size := t.size + 1);
      StoreSound(k, u, free, key, value);
      StoreAdds(k, u, free, key, value);
    }
  }

  /** The size field plays no part in what the slots hold. */
  lemma SizeIsNotContents<K(!new)>(k: Keying<K>, t: Table<K>, size: int)
    requires Lawful(k) && Sound(k, t)
    ensures var u := t.(size := size);
      && Sound(k, u) && Contents(u) == Contents(t)
      && (forall key: K, place: nat :: Sought(k, t, key, place) <==> Sought(k, u, key, place))
  {
    hide Place;
    var u := t.(size := size);
    ContentsRepresents(k, t, Contents(t));
    forall x | x in Contents(t)
      ensures exists j: nat :: HeldAt(u, x, j)
    {
      var j: nat :| HeldAt(t, x, j);
      assert HeldAt(u, x, j);
    }
    assert Represents(u, Contents(t));
    ContentsRepresents(k, u, Contents(t));
  }

  lemma RemoveCorrect<K(!new)>(k: Keying<K>, nil: K, t: Table<K>, key: K)
    requires Lawful(k) && Inv(k, t)
    ensures Remove(k, nil, t, key).None? <==> Stuck(k, t, key)
    ensures var r := Remove(k, nil, t, key);
      r.Some? ==>
        && Inv(k, r.value.1) && (IsMap(r.value.1) <==> IsMap(t))
        && r.value.0 == Bound(k, Contents(t), key)
        && Contents(r.value.1) == Delete(k, Contents(t), key)
  {
    hide Place, OnPath, Contents, Find, OnePerSlot, Chained;
    FindMeaning(k, t, key);
    ContentsOnePerClass(k, t);
    if Find(k, t, key).Some? {
      var place := Find(k, t, key).value;
      if t.buckets[place] == Full {
        assert Held(k, t, key);
        var u := t.(size := t.size - 1);
        SizeIsNotContents(k, t, t.size - 1);
        EraseSound(k, nil, u, place);
        EraseRemoves(k, nil, u, place, key);
      }
    }
  }

  lemma QueryCorrect<K(!new)>(k: Keying<K>, t: Table<K>, key: K)
    requires Lawful(k) && Inv(k, t)
    ensures Query(k, t, key).None? <==> Stuck(k, t, key)
    ensures Query(k, t, key).Some? ==> Query(k, t, key).value == Get(k, Contents(t), key)
  {
    hide Place, OnPath, Contents, Find;
    FindMeaning(k, t, key);
    ContentsOnePerClass(k, t);
    if Find(k, t, key).Some? {
      var place := Find(k, t, key).value;
      if t.buckets[place] == Full {
        ContentsRepresents(k, t, Contents(t));
        RepresentativeIs(k, Contents(t), key, t.keys[place]);
      }
    }
  }

  // ----- when a table grows, and to what -----

  /** The search through the sizes stops at the first that is large enough. */
  lemma {:induction false} FirstAboveIs(n: int, i: nat)
    requires i <= |SIZES|
    ensures var r := FirstAbove(n, i);
      r.Some? ==> exists j :: i <= j < |SIZES| && SIZES[j] == r.value && forall m :: i <= m < j ==> SIZES[m] <= n
    decreases |SIZES| - i
  {
    hide SIZES;
    if i < |SIZES| {
      FirstAboveIs(n, i + 1);
    }
  }

  /** map_prime gives the least of its sizes above `n`. */
  lemma MapPrimeExactly(n: int, p: nat)
    ensures MapPrime(n) == Some(p) <==> p in SIZES && p > n && forall q :: q in SIZES && q > n ==> p <= q
  {
    FirstAboveIs(n, 0);
    FirstAboveMeaning(n, 0);
    SizesIncrease();
    hide SIZES, FirstAbove;
    if MapPrime(n).Some? {
      var r := MapPrime(n).value;
      var j :| 0 <= j < |SIZES| && SIZES[j] == r && forall m :: 0 <= m < j ==> SIZES[m] <= n;
      forall q | q in SIZES && q > n
        ensures r <= q
      {
        var m :| 0 <= m < |SIZES| && SIZES[m] == q;
        assert m >= j;
      }
    }
  }

  lemma SizesIncrease()
    ensures forall i, j :: 0 <= i < j < |SIZES| ==> SIZES[i] < SIZES[j]
  {
    assert forall i :: 0 <= i < |SIZES| - 1 ==> SIZES[i] < SIZES[i + 1];
    hide SIZES;
    forall i, j | 0 <= i < j < |SIZES|
      ensures SIZES[i] < SIZES[j]
    {
      IncreaseTo(i, j);
    }
  }

  lemma {:induction false} IncreaseTo(i: nat, j: nat)
    requires i < j < |SIZES| && forall m :: 0 <= m < |SIZES| - 1 ==> SIZES[m] < SIZES[m + 1]
    ensures SIZES[i] < SIZES[j]
    decreases j
  {
    hide SIZES;
    assert SIZES[j - 1] < SIZES[j - 1 + 1];
    if i < j - 1 {
      IncreaseTo(i, j - 1);
    }
  }

  lemma {:induction false} RefillSize<K>(k: Keying<K>, old_: Table<K>, i: nat, t: Table<K>)
    requires Shaped(old_) && Shaped(t) && (IsMap(old_) <==> IsMap(t)) && i <= |old_.buckets|
    ensures var r := Refill(k, old_, i, t); r.Some? ==> |r.value.buckets| == |t.buckets|
    decreases |old_.buckets| - i
  {
    hide Find, Store;
    if i < |old_.buckets| {
      RefillStep(k, old_, i, t);
      hide Refill;
      if old_.buckets[i] != Full {
        RefillSize(k, old_, i + 1, t);
      } else if Find(k, t, old_.keys[i]).Some? {
        RefillSize(k, old_, i + 1, Store(t, Find(k, t, old_.keys[i]).value, old_.keys[i], ValueAt(old_, i)));
      }
    }
  }

  /** A set counts a new key and no other. The buckets stay as many as they are as long as they are less than half full with
      it, and are then as many as map_prime says. */
  lemma InsertSize<K(!new)>(k: Keying<K>, nil: K, t: Table<K>, key: K, value: Option<K>)
    requires Lawful(k) && Inv(k, t) && (value.Some? <==> IsMap(t)) && Insert(k, nil, t, key, value).Some?
    ensures var r := Insert(k, nil, t, key, value).value;
      && r.size == t.size + (if Held(k, t, key) then 0 else 1)
      && (Held(k, t, key) || (t.size + 1) * 2 < |t.buckets| ==> |r.buckets| == |t.buckets|)
      && (!Held(k, t, key) && (t.size + 1) * 2 >= |t.buckets| ==> Some(|r.buckets|) == MapPrime(|t.buckets|))
  {
    hide Find, Refill, MapPrime, OnPath, Chained, OnePerSlot, Sought, Blank;
    FindMeaning(k, t, key);
    var place := Find(k, t, key).value;
    SoughtHeld(k, t, key, place);
    if t.buckets[place] != Full && (t.size + 1) * 2 >= |t.buckets| {
      var up := t.(size := t.size + 1);
      var n := MapPrime(|t.buckets|).value;
      BlankShape(n, nil, IsMap(t));
      RefillSize(k, up, 0, Blank(n, nil, IsMap(t)));
    }
  }

  lemma BlankShape<K>(n: nat, nil: K, withValues: bool)
    requires n > 0
    ensures var t := Blank(n, nil, withValues); Shaped(t) && (IsMap(t) <==> withValues) && |t.buckets| == n
  {
  }
}
