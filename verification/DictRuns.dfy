/** Whole runs of dict_set: a finite map as long as keys are fresh; and a run that ends the program. */
module DictRuns {
  import opened Options
  import opened Probing
  import opened Keys
  import opened TableSpec
  import opened TableProofs
  import opened DictSpec
  import opened Dicts
  import TableRuns

  function SetAll<K>(k: Keying<K>, nil: K, t: Table<K>, sets: seq<Pair<K>>): (r: Option<Table<K>>)
    requires Shaped(t) && IsMap(t)
    ensures r.Some? ==> Shaped(r.value) && IsMap(r.value)
    decreases |sets|
  {
    if sets == [] then Some(t)
    else
      match DictSet(k, nil, t, sets[0].key, sets[0].value)
      case None => None
      case Some(u) => SetAll(k, nil, u, sets[1..])
  }

  ghost function PutAll<K>(k: Keying<K>, m: map<K, Option<K>>, sets: seq<Pair<K>>): map<K, Option<K>>
    decreases |sets|
  {
    if sets == [] then m else PutAll(k, Put(k, m, sets[0].key, Some(sets[0].value)), sets[1..])
  }

  ghost predicate FreshKeys<K>(k: Keying<K>, m: map<K, Option<K>>, sets: seq<Pair<K>>) {
    && (forall i :: 0 <= i < |sets| ==> !Bound(k, m, sets[i].key))
    && forall i, j :: 0 <= i < j < |sets| ==> !k.eq(sets[j].key, sets[i].key)
  }

  lemma FreshNext<K(!new)>(k: Keying<K>, m: map<K, Option<K>>, sets: seq<Pair<K>>)
    requires Lawful(k) && sets != [] && FreshKeys(k, m, sets)
    ensures !Bound(k, m, sets[0].key) && FreshKeys(k, Put(k, m, sets[0].key, Some(sets[0].value)), sets[1..])
  {
    var n := Put(k, m, sets[0].key, Some(sets[0].value));
    var rest := sets[1..];
    forall i | 0 <= i < |rest|
      ensures !Bound(k, n, rest[i].key)
    {
      assert rest[i] == sets[i + 1];
      assert !Bound(k, m, sets[i + 1].key);
    }
  }

  /** Over any run that sets fresh keys, the dictionary stays a finite map and holds what was set. */
  lemma {:induction false} FreshRunIsMap<K(!new)>(k: Keying<K>, nil: K, t: Table<K>, sets: seq<Pair<K>>)
    requires Lawful(k) && SizesArePrime() && Inv(k, t) && IsMap(t) && NoTombstones(t.buckets)
    requires FreshKeys(k, Contents(t), sets)
    ensures var r := SetAll(k, nil, t, sets);
      r.Some? ==>
        && Inv(k, r.value) && IsMap(r.value) && NoTombstones(r.value.buckets)
        && Contents(r.value) == PutAll(k, Contents(t), sets)
        && r.value.size == t.size + |sets|
    decreases |sets|
  {
    InvShaped(k, t);
    hide Inv, Contents, DictSet, Put, FreshKeys, Lawful, SizesArePrime, Bound;
    if sets != [] {
      FreshNext(k, Contents(t), sets);
      NotHeldWhenFree(k, t, sets[0].key);
      FreshSetCorrect(k, nil, t, sets[0].key, sets[0].value);
      var u := DictSet(k, nil, t, sets[0].key, sets[0].value);
      if u.Some? {
        InvShaped(k, u.value);
        FreshRunIsMap(k, nil, u.value, sets[1..]);
      }
    }
  }

  /** A fresh-key run whose hashes never wrap early ends the program exactly if it asks for more keys than the largest
      size can hold. */
  lemma {:induction false} FreshRunTotal<K(!new)>(k: Keying<K>, nil: K, t: Table<K>, sets: seq<Pair<K>>)
    requires Lawful(k) && SizesArePrime() && Inv(k, t) && IsMap(t) && NoTombstones(t.buckets)
    requires FreshKeys(k, Contents(t), sets)
    requires forall i :: 0 <= i < |sets| ==> TableRuns.NeverWraps(k.hash(sets[i].key))
    ensures SetAll(k, nil, t, sets).Some? <==> t.size + |sets| <= TableRuns.WIDEST
    decreases |sets|
  {
    InvShaped(k, t);
    TableRuns.FullestTable(k, t);
    hide Inv, Contents, DictSet, Put, FreshKeys, Lawful, SizesArePrime, Bound, TableRuns.NeverWraps;
    if sets != [] {
      var first := sets[0];
      FreshNext(k, Contents(t), sets);
      NotHeldWhenFree(k, t, first.key);
      FreshSetCorrect(k, nil, t, first.key, first.value);
      NeverStuck(k, t, first.key);
      var u := DictSet(k, nil, t, first.key, first.value);
      if u.Some? {
        InvShaped(k, u.value);
        FreshRunTotal(k, nil, u.value, sets[1..]);
      }
    }
  }

  lemma NeverStuck<K(!new)>(k: Keying<K>, t: Table<K>, key: K)
    requires Lawful(k) && SizesArePrime() && Inv(k, t) && TableRuns.NeverWraps(k.hash(key))
    ensures Shaped(t) && !Stuck(k, t, key)
  {
    hide Chained, OnePerSlot, Stuck, TableRuns.NeverWraps, CoversMajority;
    assert TableSize(|t.buckets|);
    TableRuns.NeverWrapsCovers(k.hash(key), |t.buckets|);
    if Stuck(k, t, key) {
      StuckOnlyAtFullLoad(k, t, key);
    }
  }

  lemma NotHeldWhenFree<K(!new)>(k: Keying<K>, t: Table<K>, key: K)
    requires Lawful(k) && Inv(k, t)
    ensures Held(k, t, key) <==> Bound(k, Contents(t), key)
  {
    ContentsOnePerClass(k, t);
  }

  // ----- setting one key five times -----

  /** The squares of 0..12 modulo 13. */
  const SQUARES: seq<nat> := [0, 1, 4, 9, 3, 12, 10, 10, 12, 3, 9, 4, 1]

  function Turned(a: nat, b: nat): nat {
    if a + b < 13 then a + b else a + b - 13
  }

  lemma SquareOf(i: nat)
    requires i < 13
    ensures i * i % 13 == SQUARES[i] < 13
  {
    match i
    case 0 => case 1 => case 2 => case 3 => case 4 => case 5 => case 6 =>
    case 7 => case 8 => case 9 => case 10 => case 11 => case 12 =>
    case _ =>
  }

  lemma TurnedBy(h: nat, s: nat)
    ensures (h + s) % 13 == Turned(h % 13, s % 13)
  {
    var q := h / 13 + s / 13;
    assert h + s == 13 * q + (h % 13 + s % 13);
  }

  lemma PlaceOf(h: nat, i: nat)
    requires Unwrapped(h, 12) && i < 13
    ensures Place(h, i, 13) == Turned(h % 13, SQUARES[i]) < 13
  {
    UnwrappedBelow(h, i, 12);
    SquareOf(i);
    TurnedBy(h, i * i);
  }

  /** The first `m` slots of the walk hold the key and the value, and the next ones are empty. */
  ghost predicate Landed<K>(k: Keying<K>, t: Table<K>, key: K, value: K, m: nat) {
    && Shaped(t) && IsMap(t) && |t.buckets| == 13 && m <= 7
    && (forall i: nat :: i < m ==>
      var s := Place(k.hash(key), i, 13); t.buckets[s] == Full && t.keys[s] == key && t.values[s] == value)
    && forall i: nat :: m <= i < 7 ==> t.buckets[Place(k.hash(key), i, 13)] == Empty
  }

  lemma FirstSeven(h: nat, i: nat, j: nat)
    requires Unwrapped(h, 12) && i < j < 7
    ensures Place(h, i, 13) != Place(h, j, 13)
  {
    PlaceOf(h, i);
    PlaceOf(h, j);
    assert SQUARES[i] != SQUARES[j];
  }

  lemma ThenMirrored(h: nat, i: nat)
    requires Unwrapped(h, 12) && 7 <= i < 13
    ensures Place(h, i, 13) == Place(h, 13 - i, 13)
  {
    PlaceOf(h, i);
    PlaceOf(h, 13 - i);
    assert SQUARES[i] == SQUARES[13 - i];
  }

  /** `set` overwrites what has landed and takes the next slot of the walk. */
  lemma {:induction false} LandNext<K>(k: Keying<K>, t: Table<K>, key: K, value: K, m: nat, idx: nat)
    requires Landed(k, t, key, value, m) && k.eq(key, key) && idx <= m < 7
    ensures SetFrom(k, t, key, value, idx) == Some(Store(t, Place(k.hash(key), m, 13), key, Some(value)))
    decreases m - idx
  {
    hide Store, Place;
    var place := Place(k.hash(key), idx, 13);
    if idx < m {
      assert t.values[place := value] == t.values;
      LandNext(k, t, key, value, m, idx + 1);
    }
  }

  lemma StoreLands<K>(k: Keying<K>, t: Table<K>, key: K, value: K, m: nat)
    requires Landed(k, t, key, value, m) && Unwrapped(k.hash(key), 12) && m < 7
    ensures Landed(k, Store(t, Place(k.hash(key), m, 13), key, Some(value)), key, value, m + 1)
  {
    var h := k.hash(key);
    hide Place;
    forall i: nat | i < 7 && i != m
      ensures Place(h, i, 13) != Place(h, m, 13)
    {
      if i < m { FirstSeven(h, i, m); } else { FirstSeven(h, m, i); }
    }
  }

  /** Once seven have landed there is no slot left on the walk. */
  lemma {:induction false} LandFails<K>(k: Keying<K>, t: Table<K>, key: K, value: K, idx: nat)
    requires Landed(k, t, key, value, 7) && k.eq(key, key) && Unwrapped(k.hash(key), 12) && idx <= 13
    ensures SetFrom(k, t, key, value, idx) == None
    decreases 13 - idx
  {
    hide Place;
    if idx < 13 {
      var place := Place(k.hash(key), idx, 13);
      if idx >= 7 {
        ThenMirrored(k.hash(key), idx);
      }
      assert t.values[place := value] == t.values;
      LandFails(k, t, key, value, idx + 1);
    }
  }

  /** Setting the key again with the same value. */
  lemma SetAgain<K>(k: Keying<K>, nil: K, t: Table<K>, key: K, value: K, m: nat)
    requires Landed(k, t, key, value, m) && k.eq(key, key) && Unwrapped(k.hash(key), 12)
    requires (1 <= m <= 5 && (t.size + 1) * 2 < 13) || m == 7
    ensures var r := DictSet(k, nil, t, key, value);
      if m == 7 then r == None else r.Some? && Landed(k, r.value, key, value, m + 2) && r.value.size == t.size + 1
  {
    var h := k.hash(key);
    FoundAgain(k, t, key, value, m);
    hide Place, SetFrom, Store, Query, DictSet;
    if m == 7 {
      LandFails(k, t, key, value, 0);
      OverwriteFails(k, nil, t, key, value);
    } else {
      LandNext(k, t, key, value, m, 0);
      StoreLands(k, t, key, value, m);
      var u := Store(t, Place(h, m, 13), key, Some(value));
      OverwriteThenAdd(k, nil, t, key, value, u);
      var v := u.(size := t.size + 1);
      assert Landed(k, v, key, value, m + 1);
      LandNext(k, v, key, value, m + 1, 0);
      StoreLands(k, v, key, value, m + 1);
      StoreKeepsSize(v, Place(h, m + 1, 13), key, value);
    }
  }

  lemma StoreKeepsSize<K>(t: Table<K>, place: nat, key: K, value: K)
    requires Shaped(t) && IsMap(t) && place < |t.buckets|
    ensures Store(t, place, key, Some(value)).size == t.size
  {
  }

  lemma FoundAgain<K>(k: Keying<K>, t: Table<K>, key: K, value: K, m: nat)
    requires Landed(k, t, key, value, m) && k.eq(key, key) && m >= 1
    ensures Query(k, t, key) == Some(Some(Some(value)))
  {
    hide Place;
    assert t.buckets[Place(k.hash(key), 0, 13)] == Full;
  }

  lemma OverwriteFails<K>(k: Keying<K>, nil: K, t: Table<K>, key: K, value: K)
    requires Shaped(t) && IsMap(t) && Query(k, t, key) == Some(Some(Some(value)))
    requires SetFrom(k, t, key, value, 0) == None
    ensures DictSet(k, nil, t, key, value) == None
  {
    hide SetFrom, Query;
  }

  lemma OverwriteThenAdd<K>(k: Keying<K>, nil: K, t: Table<K>, key: K, value: K, u: Table<K>)
    requires Shaped(t) && IsMap(t) && Query(k, t, key) == Some(Some(Some(value)))
    requires SetFrom(k, t, key, value, 0) == Some(u) && (t.size + 1) * 2 < |t.buckets|
    ensures Shaped(u) && IsMap(u) && u.size == t.size
    ensures DictSet(k, nil, t, key, value) == SetFrom(k, u.(size := t.size + 1), key, value, 0)
  {
    hide SetFrom, Query;
  }

  lemma FirstSet<K>(k: Keying<K>, nil: K, key: K, value: K) returns (t: Table<K>)
    requires k.eq(key, key) && Unwrapped(k.hash(key), 12)
    ensures DictSet(k, nil, Blank(13, nil, true), key, value) == Some(t)
    ensures Landed(k, t, key, value, 1) && t.size == 1
  {
    hide Place, SetFrom, Store;
    var blank := Blank(13, nil, true);
    assert blank.buckets[Place(k.hash(key), 0, 13)] == Empty;
    assert Query(k, blank, key) == Some(None);
    var up := blank.(size := 1);
    assert Landed(k, up, key, value, 0);
    LandNext(k, up, key, value, 0, 0);
    StoreLands(k, up, key, value, 0);
    hide Query;
    t := DictSet(k, nil, blank, key, value).value;
  }

  lemma AllButFirst<K>(k: Keying<K>, nil: K, t: Table<K>, first: Pair<K>, rest: seq<Pair<K>>)
    requires Shaped(t) && IsMap(t)
    ensures var u := DictSet(k, nil, t, first.key, first.value);
      SetAll(k, nil, t, [first] + rest) == if u.None? then None else SetAll(k, nil, u.value, rest)
    ensures SetAll(k, nil, t, []) == Some(t)
  {
    assert ([first] + rest)[1..] == rest;
    hide DictSet;
  }

  /** Setting one key for the fifth time ends the program, for every key whose walk does not wrap: it is put into two
      more buckets each time, until there is none left on its walk. A finite map would just keep the key. */
  lemma FiveSetsEndTheProgram<K>(k: Keying<K>, nil: K, key: K, value: K)
    requires k.eq(key, key) && Unwrapped(k.hash(key), 12)
    ensures var p := Pair(key, value); var t := Blank(13, nil, true);
      SetAll(k, nil, t, [p, p, p, p]).Some? && SetAll(k, nil, t, [p, p, p, p, p]) == None
  {
    var t0 := Blank(13, nil, true);
    var t1 := FirstSet(k, nil, key, value);
    hide Landed, DictSet, SetAll;
    SetAgain(k, nil, t1, key, value, 1);
    var t2 := DictSet(k, nil, t1, key, value).value;
    SetAgain(k, nil, t2, key, value, 3);
    var t3 := DictSet(k, nil, t2, key, value).value;
    SetAgain(k, nil, t3, key, value, 5);
    var t4 := DictSet(k, nil, t3, key, value).value;
    SetAgain(k, nil, t4, key, value, 7);
    FourThenFive(k, nil, t0, t1, t2, t3, t4, Pair(key, value));
  }

  lemma FourThenFive<K>(k: Keying<K>, nil: K, t0: Table<K>, t1: Table<K>, t2: Table<K>, t3: Table<K>, t4: Table<K>, p: Pair<K>)
    requires Shaped(t0) && IsMap(t0) && DictSet(k, nil, t0, p.key, p.value) == Some(t1)
    requires DictSet(k, nil, t1, p.key, p.value) == Some(t2)
    requires DictSet(k, nil, t2, p.key, p.value) == Some(t3)
    requires DictSet(k, nil, t3, p.key, p.value) == Some(t4)
    requires DictSet(k, nil, t4, p.key, p.value) == None
    ensures SetAll(k, nil, t0, [p, p, p, p]) == Some(t4)
    ensures SetAll(k, nil, t0, [p, p, p, p, p]) == None
  {
    hide *;
    var none: seq<Pair<K>> := [];
    var one := [p] + none;
    var two := [p] + one;
    var three := [p] + two;
    var four := [p] + three;
    AllButFirst(k, nil, t4, p, none);
    AllButFirst(k, nil, t3, p, none);
    AllButFirst(k, nil, t3, p, one);
    AllButFirst(k, nil, t2, p, one);
    AllButFirst(k, nil, t2, p, two);
    AllButFirst(k, nil, t1, p, two);
    AllButFirst(k, nil, t1, p, three);
    AllButFirst(k, nil, t0, p, three);
    AllButFirst(k, nil, t0, p, four);
    assert four == [p, p, p, p] && [p] + four == [p, p, p, p, p];
  }
}
