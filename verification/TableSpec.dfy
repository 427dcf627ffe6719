/** What the functions of vm/builtin/HashTable.c compute, as functions of the table's arrays,
    and the invariant that makes the table a finite map up to key equality.

    `None` stands for reaching assert_never(), which ends the program. */
module TableSpec {
  import opened Options
  import opened Probing
  import opened Keys

  datatype Bucket = Empty | WasFull | Full

  /** `values` is empty for a set, whose operations do not look at the values of the C struct. */
  datatype Table<K> = Table(size: int, buckets: seq<Bucket>, keys: seq<K>, values: seq<K>)

  predicate IsSet<K>(t: Table<K>) {
    t.values == []
  }

  predicate IsMap<K>(t: Table<K>) {
    |t.values| == |t.buckets|
  }

  predicate Shaped<K>(t: Table<K>) {
    && 0 < |t.buckets|
    && |t.keys| == |t.buckets|
    && (IsSet(t) || IsMap(t))
  }

  // ----- the operations -----

  /** The probe loop from step `idx` on; `first` is the first reusable slot passed so far. */
  function Probe<K>(k: Keying<K>, b: seq<Bucket>, ks: seq<K>, key: K, idx: nat, first: Option<nat>): (r: Option<nat>)
    requires 0 < |b| == |ks|
    requires idx <= |b| && (first.Some? ==> first.value < |b|)
    ensures r.Some? ==> r.value < |b|
    decreases |b| - idx
  {
    if idx == |b| then
      first
    else
      var place := Place(k.hash(key), idx, |b|);
      match b[place]
      case Empty =>
        if first.Some? then first else Some(place)
      case WasFull =>
        Probe(k, b, ks, key, idx + 1, if first.Some? then first else Some(place))
      case Full =>
        if k.eq(key, ks[place]) then Some(place) else Probe(k, b, ks, key, idx + 1, first)
  }

  function Find<K>(k: Keying<K>, t: Table<K>, key: K): (r: Option<nat>)
    requires Shaped(t)
    ensures r.Some? ==> r.value < |t.buckets|
  {
    Probe(k, t.buckets, t.keys, key, 0, None)
  }

  function Store<K>(t: Table<K>, place: nat, key: K, value: Option<K>): (r: Table<K>)
    requires Shaped(t) && place < |t.buckets|
    requires value.Some? <==> IsMap(t)
    ensures Shaped(r) && (IsMap(r) <==> IsMap(t)) && |r.buckets| == |t.buckets|
  {
    t.(buckets := t.buckets[place := Full],
       keys := t.keys[place := key],
       values := if value.Some? then t.values[place := value.value] else t.values)
  }

  function ValueAt<K>(t: Table<K>, slot: nat): Option<K>
    requires Shaped(t) && slot < |t.buckets|
  {
    if IsMap(t) then Some(t.values[slot]) else None
  }

  function Blank<K>(n: nat, nil: K, withValues: bool): Table<K> {
    Table(0, seq(n, _ => Empty), seq(n, _ => nil), if withValues then seq(n, _ => nil) else [])
  }

  /** The rehash loop from slot `i` of the old table on, into the table built so far. */
  function Refill<K>(k: Keying<K>, old_: Table<K>, i: nat, t: Table<K>): (r: Option<Table<K>>)
    requires Shaped(old_) && Shaped(t) && (IsMap(old_) <==> IsMap(t))
    requires i <= |old_.buckets|
    ensures r.Some? ==> Shaped(r.value) && (IsMap(r.value) <==> IsMap(t))
    decreases |old_.buckets| - i
  {
    if i == |old_.buckets| then
      Some(t)
    else if old_.buckets[i] != Full then
      Refill(k, old_, i + 1, t)
    else
      match Find(k, t, old_.keys[i])
      case None => None
      case Some(place) => Refill(k, old_, i + 1, Store(t, place, old_.keys[i], ValueAt(old_, i)))
  }

  /** Table sizes, in the order map_prime tries them; its last entry, 1073741789, is never returned. */
  const SIZES: seq<nat> := [
    13, 31, 61, 127, 251, 509, 1021, 2039, 4093, 8191,
    16381, 32749, 65521, 131071, 262139, 524287,
    1048573, 2097143, 4194301, 8388593, 16777213,
    33554393, 67108859, 134217689, 268435399, 536870909]

  function FirstAbove(n: int, i: nat): (r: Option<nat>)
    requires i <= |SIZES|
    ensures r.Some? ==> r.value in SIZES && 0 < r.value && n < r.value
    decreases |SIZES| - i
  {
    if i == |SIZES| then None
    else if n < SIZES[i] then Some(SIZES[i])
    else FirstAbove(n, i + 1)
  }

  function MapPrime(n: int): (r: Option<nat>)
    ensures r.Some? ==> r.value in SIZES && 0 < r.value && n < r.value
  {
    FirstAbove(n, 0)
  }

  function Rehash<K>(k: Keying<K>, nil: K, t: Table<K>): (r: Option<Table<K>>)
    requires Shaped(t)
    ensures r.Some? ==> Shaped(r.value) && (IsMap(r.value) <==> IsMap(t))
  {
    match MapPrime(|t.buckets|)
    case None => None
    case Some(n) => Refill(k, t, 0, Blank(n, nil, IsMap(t)))
  }

  /** ht_set (no value) and ht_set2 (with one). */
  function Insert<K>(k: Keying<K>, nil: K, t: Table<K>, key: K, value: Option<K>): (r: Option<Table<K>>)
    requires Shaped(t)
    requires value.Some? <==> IsMap(t)
    ensures r.Some? ==> Shaped(r.value) && (IsMap(r.value) <==> IsMap(t))
  {
    match Find(k, t, key)
    case None => None
    case Some(place) =>
      if t.buckets[place] == Full then
        Some(if value.Some? then t.(values := t.values[place := value.value]) else t)
      else if (t.size + 1) * 2 < |t.buckets| then
        Some(Store(t.(size := t.size + 1), place, key, value))
      else
        match Rehash(k, nil, t.(size := t.size + 1))
        case None => None
        case Some(g) =>
          match Find(k, g, key)
          case None => None
          case Some(free) => Some(Store(g.(size := t.size + 1), free, key, value))
  }

  /** ht_remove: whether a key was removed, and the table left. */
  function Remove<K>(k: Keying<K>, nil: K, t: Table<K>, key: K): (r: Option<(bool, Table<K>)>)
    requires Shaped(t)
    ensures r.Some? ==> Shaped(r.value.1) && (IsMap(r.value.1) <==> IsMap(t))
  {
    match Find(k, t, key)
    case None => None
    case Some(place) =>
      if t.buckets[place] == Full then
        Some((true, t.(size := t.size - 1,
                       buckets := t.buckets[place := WasFull],
                       keys := t.keys[place := nil])))
      else
        Some((false, t))
  }

  /** ht_query and ht_query2: nothing, or what is stored with the key. */
  function Query<K>(k: Keying<K>, t: Table<K>, key: K): Option<Option<Option<K>>>
    requires Shaped(t)
  {
    match Find(k, t, key)
    case None => None
    case Some(place) =>
      Some(if t.buckets[place] == Full then Some(ValueAt(t, place)) else None)
  }

  // ----- the invariant -----

  /** No empty slot among the first `n` steps of the walk for `h`. */
  ghost predicate Clear(b: seq<Bucket>, h: nat, n: nat)
    requires 0 < |b|
  {
    forall i: nat :: i < n ==> b[Place(h, i, |b|)] != Empty
  }

  /** The walk for `h` reaches `slot` before any empty slot. */
  ghost predicate OnPath(b: seq<Bucket>, h: nat, slot: nat)
    requires 0 < |b|
  {
    exists i: nat :: i < |b| && Place(h, i, |b|) == slot && Clear(b, h, i)
  }

  ghost predicate Chained<K>(k: Keying<K>, b: seq<Bucket>, ks: seq<K>)
    requires 0 < |b| == |ks|
  {
    forall j: nat :: j < |b| && b[j] == Full ==> OnPath(b, k.hash(ks[j]), j)
  }

  ghost predicate OnePerSlot<K>(k: Keying<K>, b: seq<Bucket>, ks: seq<K>)
    requires |b| == |ks|
  {
    forall i: nat, j: nat :: i < |b| && j < |b| && b[i] == Full && b[j] == Full && k.eq(ks[i], ks[j]) ==> i == j
  }

  ghost function FullSlots(b: seq<Bucket>): set<nat> {
    set j: nat | j < |b| && b[j] == Full
  }

  ghost predicate Inv<K>(k: Keying<K>, t: Table<K>) {
    && Shaped(t)
    && |t.buckets| in SIZES
    && Chained(k, t.buckets, t.keys)
    && OnePerSlot(k, t.buckets, t.keys)
    && t.size == |FullSlots(t.buckets)|
    && t.size * 2 < |t.buckets|
  }

  ghost predicate HeldAt<K>(t: Table<K>, x: K, j: nat)
    requires Shaped(t)
  {
    j < |t.buckets| && t.buckets[j] == Full && t.keys[j] == x
  }

  ghost function HeldKeys<K>(t: Table<K>): set<K>
    requires Shaped(t)
  {
    set j: nat | j < |t.buckets| && HeldAt(t, t.keys[j], j) :: t.keys[j]
  }

  ghost function SlotOf<K>(t: Table<K>, x: K): nat
    requires Shaped(t) && x in HeldKeys(t)
  {
    var j: nat :| HeldAt(t, x, j);
    j
  }

  /** The finite map a table stands for; a set maps its keys to None. */
  ghost function Contents<K>(t: Table<K>): map<K, Option<K>>
    requires Shaped(t)
  {
    map x | x in HeldKeys(t) :: ValueAt(t, SlotOf(t, x))
  }
}
