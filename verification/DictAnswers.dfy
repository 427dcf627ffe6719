/** What a dictionary answers over any run of dict_set, overwrites included. A key that is set again is stored in several
    buckets, but they all lie on one walk and hold one value: look-ups still answer as a finite map does. */
module DictAnswers {
  import opened Options
  import opened Probing
  import opened Keys
  import opened TableSpec
  import opened TableProofs
  import opened DictSpec
  import opened Dicts
  import opened DictRuns

  /** Every full bucket holds what the map has for its key. */
  ghost predicate ValuesOf<K>(k: Keying<K>, t: Table<K>, m: map<K, Option<K>>)
    requires Shaped(t) && IsMap(t)
  {
    forall j: nat :: j < |t.buckets| && t.buckets[j] == Full ==> Get(k, m, t.keys[j]) == Some(Some(t.values[j]))
  }

  /** The buckets are in order, and hold what the map has. */
  ghost predicate Agrees<K(!new)>(k: Keying<K>, t: Table<K>, m: map<K, Option<K>>) {
    && Shaped(t) && IsMap(t) && NoTombstones(t.buckets) && Chained(k, t.buckets, t.keys)
    && OnePerClass(k, m) && ValuesOf(k, t, m)
  }

  /** They hold all that the map has. */
  ghost predicate Answers<K(!new)>(k: Keying<K>, t: Table<K>, m: map<K, Option<K>>) {
    Agrees(k, t, m) && forall key: K :: Bound(k, m, key) ==> Held(k, t, key)
  }

  lemma GetOfClass<K(!new)>(k: Keying<K>, m: map<K, Option<K>>, a: K, b: K)
    requires Lawful(k) && OnePerClass(k, m) && k.eq(a, b)
    ensures Get(k, m, a) == Get(k, m, b)
  {
    assert k.eq(b, a);
    assert forall x :: k.eq(a, x) <==> k.eq(b, x);
    if Bound(k, m, a) {
      RepresentativeIs(k, m, b, Representative(k, m, a));
    }
  }

  /** Such a dictionary answers as the map does. */
  lemma QueryAnswers<K(!new)>(k: Keying<K>, t: Table<K>, m: map<K, Option<K>>, key: K)
    requires Lawful(k) && Answers(k, t, m)
    ensures Query(k, t, key).Some? ==> Query(k, t, key).value == Get(k, m, key)
  {
    hide Place, OnPath, Chained, Find, Get, OnePerClass, Bound;
    FindMeaning(k, t, key);
    var place := Find(k, t, key);
    if place.Some? {
      SoughtHeld(k, t, key, place.value);
      if t.buckets[place.value] == Full {
        GetOfClass(k, m, key, t.keys[place.value]);
      } else {
        UnboundGet(k, m, key);
      }
    }
  }

  lemma UnboundGet<K>(k: Keying<K>, m: map<K, Option<K>>, key: K)
    requires !Bound(k, m, key)
    ensures Get(k, m, key) == None
  {
  }

  // ----- one walk of `set` -----

  /** The walk ends at step `n`, at an empty bucket; on its way it overwrites every bucket with an equal key. */
  lemma {:induction false} SetWalk<K>(k: Keying<K>, t: Table<K>, key: K, value: K, idx: nat) returns (n: nat)
    requires Shaped(t) && IsMap(t) && idx <= |t.buckets| && SetFrom(k, t, key, value, idx).Some?
    ensures idx <= n < |t.buckets|
    ensures var r, h, p := SetFrom(k, t, key, value, idx).value, k.hash(key), |t.buckets|;
      var place := Place(h, n, p);
      && t.buckets[place] == Empty && r.values[place] == value
      && r.buckets == t.buckets[place := Full] && r.keys == t.keys[place := key]
      && (forall i: nat :: idx <= i < n ==> t.buckets[Place(h, i, p)] != Empty)
      && (forall i: nat :: idx <= i < n && k.eq(key, t.keys[Place(h, i, p)]) ==> r.values[Place(h, i, p)] == value)
      && (forall j: nat :: j < p && j != place ==>
        r.values[j] == t.values[j] || (r.values[j] == value && k.eq(key, t.keys[j])))
    decreases |t.buckets| - idx
  {
    hide Place;
    var place := Place(k.hash(key), idx, |t.buckets|);
    if t.buckets[place] == Empty {
      n := idx;
    } else if k.eq(key, t.keys[place]) {
      n := SetWalk(k, t.(values := t.values[place := value]), key, value, idx + 1);
    } else {
      n := SetWalk(k, t, key, value, idx + 1);
    }
  }

  /** An empty bucket at step `i` of the key's walk. */
  predicate FreeAt<K>(k: Keying<K>, t: Table<K>, key: K, i: nat) {
    |t.buckets| > 0 && t.buckets[Place(k.hash(key), i, |t.buckets|)] == Empty
  }

  lemma {:induction false} SetFromExactly<K>(k: Keying<K>, t: Table<K>, key: K, value: K, idx: nat)
    requires Shaped(t) && IsMap(t) && idx <= |t.buckets|
    ensures SetFrom(k, t, key, value, idx).Some? <==> exists i: nat :: idx <= i < |t.buckets| && FreeAt(k, t, key, i)
    decreases |t.buckets| - idx
  {
    hide Place;
    if idx < |t.buckets| {
      var place := Place(k.hash(key), idx, |t.buckets|);
      var over := t.(values := t.values[place := value]);
      SetFromExactly(k, t, key, value, idx + 1);
      SetFromExactly(k, over, key, value, idx + 1);
      assert forall i: nat :: FreeAt(k, over, key, i) == FreeAt(k, t, key, i);
      assert FreeAt(k, t, key, idx) <==> t.buckets[place] == Empty;
    }
  }

  /** Setting a key that is there, where the dictionary need not grow, ends the program if and only if there are not two empty
      buckets left on the key's walk. */
  lemma SetAgainExactly<K>(k: Keying<K>, nil: K, t: Table<K>, key: K, value: K)
    requires Shaped(t) && IsMap(t) && (t.size + 1) * 2 < |t.buckets|
    requires Query(k, t, key).Some? && Query(k, t, key).value.Some?
    ensures DictSet(k, nil, t, key, value).Some? <==>
      exists i: nat, j: nat ::
        && i < j < |t.buckets| && FreeAt(k, t, key, i) && FreeAt(k, t, key, j)
        && Place(k.hash(key), i, |t.buckets|) != Place(k.hash(key), j, |t.buckets|)
  {
    hide Place, SetFrom, Query;
    var h, p := k.hash(key), |t.buckets|;
    SetFromExactly(k, t, key, value, 0);
    if SetFrom(k, t, key, value, 0).Some? {
      var n := SetWalk(k, t, key, value, 0);
      var u := SetFrom(k, t, key, value, 0).value;
      var up := u.(size := u.size + 1);
      SetFromExactly(k, up, key, value, 0);
      assert forall i: nat :: FreeAt(k, up, key, i) <==> FreeAt(k, t, key, i) && Place(h, i, p) != Place(h, n, p);
      assert FreeAt(k, t, key, n);
      assert DictSet(k, nil, t, key, value) == SetFrom(k, up, key, value, 0);
      if i: nat :| i < p && FreeAt(k, up, key, i) {
        assert n < i || i < n;
      }
    }
  }

  /** All buckets of a key are on the way. */
  lemma OnTheWay<K(!new)>(k: Keying<K>, t: Table<K>, key: K, n: nat, j: nat) returns (i: nat)
    requires Lawful(k) && Shaped(t) && Chained(k, t.buckets, t.keys) && n < |t.buckets|
    requires t.buckets[Place(k.hash(key), n, |t.buckets|)] == Empty
    requires j < |t.buckets| && t.buckets[j] == Full && k.eq(key, t.keys[j])
    ensures i < n && Place(k.hash(key), i, |t.buckets|) == j
  {
    hide Place;
    var h, p := k.hash(key), |t.buckets|;
    assert h == k.hash(t.keys[j]) && OnPath(t.buckets, h, j);
    i :| i < p && Place(h, i, p) == j && Clear(t.buckets, h, i);
    assert i != n;
    assert !(n < i);
  }

  lemma SetChained<K(!new)>(k: Keying<K>, t: Table<K>, key: K, value: K)
    requires Shaped(t) && IsMap(t) && Chained(k, t.buckets, t.keys) && SetFrom(k, t, key, value, 0).Some?
    ensures var r := SetFrom(k, t, key, value, 0).value; Chained(k, r.buckets, r.keys)
  {
    var n := SetWalk(k, t, key, value, 0);
    var r, h, p := SetFrom(k, t, key, value, 0).value, k.hash(key), |t.buckets|;
    var place := Place(h, n, p);
    hide Place, SetFrom;
    assert Clear(t.buckets, h, n);
    assert OnPath(t.buckets, h, place);
    forall j: nat | j < p && r.buckets[j] == Full
      ensures OnPath(r.buckets, k.hash(r.keys[j]), j)
    {
      PathKept(t.buckets, r.buckets, k.hash(r.keys[j]), j);
    }
  }

  /** Setting a key puts it into the map, whether or not it was there. */
  lemma SetAnswers<K(!new)>(k: Keying<K>, t: Table<K>, m: map<K, Option<K>>, key: K, value: K)
    requires Lawful(k) && Answers(k, t, m) && SetFrom(k, t, key, value, 0).Some?
    ensures Answers(k, SetFrom(k, t, key, value, 0).value, Put(k, m, key, Some(value)))
  {
    var n := SetWalk(k, t, key, value, 0);
    SetChained(k, t, key, value);
    SetNoTombstones(k, t, key, value);
    var r, place := SetFrom(k, t, key, value, 0).value, Place(k.hash(key), n, |t.buckets|);
    var next := Put(k, m, key, Some(value));
    hide Place, SetFrom, OnPath, Put, Get, Chained, OnePerClass, Bound;
    forall j: nat | j < |r.buckets| && r.buckets[j] == Full
      ensures Get(k, next, r.keys[j]) == Some(Some(r.values[j]))
    {
      GetAfterPut(k, m, key, Some(value), r.keys[j]);
      if j != place && k.eq(key, t.keys[j]) {
        var i := OnTheWay(k, t, key, n, j);
      }
    }
    GetAfterPut(k, m, key, Some(value), key);
    forall q: K | Bound(k, next, q)
      ensures Held(k, r, q)
    {
      GetAfterPut(k, m, key, Some(value), q);
      HeldAfterSet(k, t, m, r, place, key, q);
    }
  }

  lemma HeldAfterSet<K(!new)>(k: Keying<K>, t: Table<K>, m: map<K, Option<K>>, r: Table<K>, place: nat, key: K, q: K)
    requires Lawful(k) && Answers(k, t, m) && Shaped(r) && place < |t.buckets| && t.buckets[place] == Empty
    requires r.buckets == t.buckets[place := Full] && r.keys == t.keys[place := key]
    requires k.eq(key, q) || Get(k, m, q).Some?
    ensures Held(k, r, q)
  {
    hide OnPath, Chained, OnePerClass;
    if k.eq(key, q) {
      assert r.buckets[place] == Full && k.eq(q, r.keys[place]);
    } else {
      var j: nat :| j < |t.buckets| && t.buckets[j] == Full && k.eq(q, t.keys[j]);
      assert r.buckets[j] == Full && r.keys[j] == t.keys[j];
    }
  }

  // ----- growing -----

  /** Setting what the map has anyway keeps the agreement. */
  lemma SetKeepsAgreement<K(!new)>(k: Keying<K>, t: Table<K>, m: map<K, Option<K>>, key: K, value: K)
    requires Lawful(k) && Agrees(k, t, m) && Get(k, m, key) == Some(Some(value)) && SetFrom(k, t, key, value, 0).Some?
    ensures var r := SetFrom(k, t, key, value, 0).value;
      Agrees(k, r, m) && Held(k, r, key) && forall q: K :: Held(k, t, q) ==> Held(k, r, q)
  {
    var n := SetWalk(k, t, key, value, 0);
    SetChained(k, t, key, value);
    SetNoTombstones(k, t, key, value);
    var r, place := SetFrom(k, t, key, value, 0).value, Place(k.hash(key), n, |t.buckets|);
    hide Place, SetFrom, OnPath, Get, Chained, OnePerClass;
    forall j: nat | j < |r.buckets| && r.buckets[j] == Full
      ensures Get(k, m, r.keys[j]) == Some(Some(r.values[j]))
    {
      if j != place && k.eq(key, t.keys[j]) {
        GetOfClass(k, m, key, t.keys[j]);
      }
    }
    assert r.buckets[place] == Full && r.keys[place] == key;
    forall q: K | Held(k, t, q)
      ensures Held(k, r, q)
    {
      var j: nat :| j < |t.buckets| && t.buckets[j] == Full && k.eq(q, t.keys[j]);
      assert r.buckets[j] == Full && r.keys[j] == t.keys[j];
    }
  }

  ghost predicate HeldBefore<K>(k: Keying<K>, old_: Table<K>, i: nat, t: Table<K>)
    requires Shaped(old_) && Shaped(t)
  {
    forall j: nat :: j < i && j < |old_.buckets| && old_.buckets[j] == Full ==> Held(k, t, old_.keys[j])
  }

  lemma {:induction false} ResetKeepsAgreement<K(!new)>(k: Keying<K>, old_: Table<K>, i: nat, t: Table<K>, m: map<K, Option<K>>)
    requires Lawful(k) && Agrees(k, old_, m) && Agrees(k, t, m) && i <= |old_.buckets| && HeldBefore(k, old_, i, t)
    requires Reset(k, old_, i, t).Some?
    ensures var r := Reset(k, old_, i, t).value; Agrees(k, r, m) && HeldBefore(k, old_, |old_.buckets|, r)
    decreases |old_.buckets| - i
  {
    hide SetFrom, OnPath, Get, Chained, OnePerClass, Held;
    if i < |old_.buckets| {
      if old_.buckets[i] == Full {
        SetKeepsAgreement(k, t, m, old_.keys[i], old_.values[i]);
        ResetKeepsAgreement(k, old_, i + 1, SetFrom(k, t, old_.keys[i], old_.values[i], 0).value, m);
      } else {
        ResetKeepsAgreement(k, old_, i + 1, t, m);
      }
    }
  }

  lemma BlankAgrees<K(!new)>(k: Keying<K>, n: nat, nil: K, m: map<K, Option<K>>)
    requires n > 0 && OnePerClass(k, m)
    ensures Agrees(k, Blank(n, nil, true), m)
  {
  }

  lemma ExpandAnswers<K(!new)>(k: Keying<K>, nil: K, t: Table<K>, m: map<K, Option<K>>)
    requires Lawful(k) && Answers(k, t, m) && Expand(k, nil, t).Some?
    ensures Answers(k, Expand(k, nil, t).value, m)
  {
    hide OnPath, Get, Chained, OnePerClass, Reset, MapPrime, Blank, Bound;
    if t.size * 2 >= |t.buckets| {
      var n := MapPrime(2 * t.size).value;
      BlankAgrees(k, n, nil, m);
      ResetKeepsAgreement(k, t, 0, Blank(n, nil, true), m);
      var r := Expand(k, nil, t).value;
      forall key: K | Bound(k, m, key)
        ensures Held(k, r, key)
      {
        var j: nat :| j < |t.buckets| && t.buckets[j] == Full && k.eq(key, t.keys[j]);
        assert Held(k, r, t.keys[j]);
      }
    }
  }

  lemma SizeIsNotAnswers<K(!new)>(k: Keying<K>, t: Table<K>, size: int, m: map<K, Option<K>>)
    requires Answers(k, t, m)
    ensures Answers(k, t.(size := size), m)
  {
    hide OnPath, Get, OnePerClass, Bound;
    assert forall key: K :: Held(k, t, key) ==> Held(k, t.(size := size), key);
  }

  lemma PutTwice<K(!new)>(k: Keying<K>, m: map<K, Option<K>>, key: K, value: Option<K>)
    requires Lawful(k) && OnePerClass(k, m)
    ensures Put(k, Put(k, m, key, value), key, value) == Put(k, m, key, value)
  {
    var w := if Bound(k, m, key) then Representative(k, m, key) else key;
    var n := Put(k, m, key, value);
    GetAfterPut(k, m, key, value, key);
    assert w in n && n[w] == value && k.eq(key, w);
    RepresentativeIs(k, n, key, w);
  }

  // ----- dict_set and runs of it -----

  /** dict_set puts the key into the map that the dictionary answers as. */
  lemma DictSetAnswers<K(!new)>(k: Keying<K>, nil: K, t: Table<K>, m: map<K, Option<K>>, key: K, value: K)
    requires Lawful(k) && Answers(k, t, m) && DictSet(k, nil, t, key, value).Some?
    ensures Answers(k, DictSet(k, nil, t, key, value).value, Put(k, m, key, Some(value)))
  {
    var u, g := DictSetParts(k, nil, t, key, value);
    assert OnePerClass(k, m);
    hide *;
    if Query(k, t, key).value.Some? {
      SetAnswers(k, t, m, key, value);
      PutTwice(k, m, key, Some(value));
      FallThroughAnswers(k, nil, u, Put(k, m, key, Some(value)), g, key, value);
    } else {
      FallThroughAnswers(k, nil, u, m, g, key, value);
    }
  }

  /** What dict_set does after the look-up, found or not. */
  lemma FallThroughAnswers<K(!new)>(k: Keying<K>, nil: K, u: Table<K>, m: map<K, Option<K>>, g: Table<K>, key: K, value: K)
    requires Lawful(k) && Answers(k, u, m) && Expand(k, nil, u.(size := u.size + 1)) == Some(g)
    requires SetFrom(k, g.(size := u.size + 1), key, value, 0).Some?
    ensures Answers(k, SetFrom(k, g.(size := u.size + 1), key, value, 0).value, Put(k, m, key, Some(value)))
  {
    hide *;
    SizeIsNotAnswers(k, u, u.size + 1, m);
    ExpandAnswers(k, nil, u.(size := u.size + 1), m);
    SizeIsNotAnswers(k, g, u.size + 1, m);
    SetAnswers(k, g.(size := u.size + 1), m, key, value);
  }

  lemma {:induction false} RunAnswers<K(!new)>(k: Keying<K>, nil: K, t: Table<K>, m: map<K, Option<K>>, sets: seq<Pair<K>>)
    requires Lawful(k) && Answers(k, t, m) && SetAll(k, nil, t, sets).Some?
    ensures Answers(k, SetAll(k, nil, t, sets).value, PutAll(k, m, sets))
    decreases |sets|
  {
    assert Shaped(t) && IsMap(t);
    hide Answers, DictSet, Put, Lawful;
    if sets != [] {
      var first := sets[0];
      DictSetAnswers(k, nil, t, m, first.key, first.value);
      RunAnswers(k, nil, DictSet(k, nil, t, first.key, first.value).value, Put(k, m, first.key, Some(first.value)), sets[1..]);
    }
  }

  /** Over every run of dict_set from an empty dictionary that does not end the program, with keys set as often as you
      like, a look-up that does not end the program answers as the finite map of what was set. */
  lemma EveryRunAnswers<K(!new)>(k: Keying<K>, nil: K, sets: seq<Pair<K>>, key: K)
    requires Lawful(k) && SetAll(k, nil, Blank(13, nil, true), sets).Some?
    ensures var q := Query(k, SetAll(k, nil, Blank(13, nil, true), sets).value, key);
      q.Some? ==> q.value == Get(k, PutAll(k, map[], sets), key)
  {
    var m: map<K, Option<K>> := map[];
    BlankAgrees(k, 13, nil, m);
    assert Answers(k, Blank(13, nil, true), m);
    hide Answers, SetAll, PutAll, Query, Get, Lawful, Blank;
    RunAnswers(k, nil, Blank(13, nil, true), m, sets);
    QueryAnswers(k, SetAll(k, nil, Blank(13, nil, true), sets).value, PutAll(k, m, sets), key);
  }

  // ----- one bucket a key, over runs -----

  lemma SetKeepsTwice<K>(k: Keying<K>, t: Table<K>, q: K, key: K, value: K)
    requires Shaped(t) && IsMap(t) && Twice(k, t, q) && SetFrom(k, t, key, value, 0).Some?
    ensures Twice(k, SetFrom(k, t, key, value, 0).value, q)
  {
    var place := SetKeepsKeys(k, t, key, value, 0);
    var r := SetFrom(k, t, key, value, 0).value;
    hide SetFrom;
    var i: nat, j: nat :| i < j < |t.buckets| == |t.keys| && t.buckets[i] == Full && t.buckets[j] == Full
      && k.eq(q, t.keys[i]) && k.eq(q, t.keys[j]);
    assert r.buckets[i] == Full && r.buckets[j] == Full && r.keys[i] == t.keys[i] && r.keys[j] == t.keys[j];
  }

  ghost predicate TwiceFrom<K>(k: Keying<K>, t: Table<K>, i: nat, q: K)
    requires Shaped(t)
  {
    exists a: nat, b: nat ::
      i <= a < b < |t.buckets| && t.buckets[a] == Full && t.buckets[b] == Full && k.eq(q, t.keys[a]) && k.eq(q, t.keys[b])
  }

  /** How many buckets with the key are still to be moved does not matter, as long as it will be two in all. */
  ghost predicate TwiceInAll<K>(k: Keying<K>, old_: Table<K>, i: nat, t: Table<K>, q: K)
    requires Shaped(old_) && Shaped(t)
  {
    || Twice(k, t, q)
    || (Held(k, t, q) && exists j: nat :: i <= j < |old_.buckets| && old_.buckets[j] == Full && k.eq(q, old_.keys[j]))
    || TwiceFrom(k, old_, i, q)
  }

  lemma TwiceOfClass<K(!new)>(k: Keying<K>, t: Table<K>, a: K, b: K)
    requires Lawful(k) && k.eq(a, b) && Twice(k, t, a)
    ensures Twice(k, t, b)
  {
    var i: nat, j: nat :| i < j < |t.buckets| == |t.keys| && t.buckets[i] == Full && t.buckets[j] == Full
      && k.eq(a, t.keys[i]) && k.eq(a, t.keys[j]);
    assert k.eq(b, a);
    assert k.eq(b, t.keys[i]) && k.eq(b, t.keys[j]);
  }

  /** One step of the moving loop. */
  lemma MoveTwice<K(!new)>(k: Keying<K>, old_: Table<K>, i: nat, t: Table<K>, q: K)
    requires Lawful(k) && Shaped(old_) && IsMap(old_) && Shaped(t) && IsMap(t)
    requires i < |old_.buckets| && old_.buckets[i] == Full && TwiceInAll(k, old_, i, t, q)
    requires SetFrom(k, t, old_.keys[i], old_.values[i], 0).Some?
    ensures TwiceInAll(k, old_, i + 1, SetFrom(k, t, old_.keys[i], old_.values[i], 0).value, q)
  {
    var key, value := old_.keys[i], old_.values[i];
    var r := SetFrom(k, t, key, value, 0).value;
    var place := SetKeepsKeys(k, t, key, value, 0);
    if Twice(k, t, q) {
      SetKeepsTwice(k, t, q, key, value);
    } else if Held(k, t, q) {
      if k.eq(q, key) {
        var j: nat :| j < |t.buckets| && t.buckets[j] == Full && k.eq(q, t.keys[j]);
        assert k.eq(key, q) && k.eq(key, t.keys[j]);
        SetTwice(k, t, key, value);
        TwiceOfClass(k, r, key, q);
      } else {
        var j: nat :| j < |t.buckets| && t.buckets[j] == Full && k.eq(q, t.keys[j]);
        hide SetFrom;
        assert r.buckets[j] == Full && r.keys[j] == t.keys[j];
      }
    } else if k.eq(q, key) {
      hide SetFrom;
      assert r.buckets[place] == Full && r.keys[place] == key;
    }
  }

  lemma {:induction false} ResetKeepsTwice<K(!new)>(k: Keying<K>, old_: Table<K>, i: nat, t: Table<K>, q: K)
    requires Lawful(k) && Shaped(old_) && IsMap(old_) && Shaped(t) && IsMap(t) && i <= |old_.buckets|
    requires TwiceInAll(k, old_, i, t, q) && Reset(k, old_, i, t).Some?
    ensures Twice(k, Reset(k, old_, i, t).value, q)
    decreases |old_.buckets| - i
  {
    if i < |old_.buckets| {
      if old_.buckets[i] == Full {
        MoveTwice(k, old_, i, t, q);
        hide TwiceInAll, SetFrom, Twice;
        ResetKeepsTwice(k, old_, i + 1, SetFrom(k, t, old_.keys[i], old_.values[i], 0).value, q);
      } else {
        assert TwiceInAll(k, old_, i + 1, t, q);
        hide TwiceInAll, Twice;
        ResetKeepsTwice(k, old_, i + 1, t, q);
      }
    }
  }

  lemma DictSetKeepsTwice<K(!new)>(k: Keying<K>, nil: K, t: Table<K>, q: K, key: K, value: K)
    requires Lawful(k) && Shaped(t) && IsMap(t) && Twice(k, t, q) && DictSet(k, nil, t, key, value).Some?
    ensures Twice(k, DictSet(k, nil, t, key, value).value, q)
  {
    var u, g := DictSetParts(k, nil, t, key, value);
    hide SetFrom, DictSet, Query, MapPrime, Reset;
    if Query(k, t, key).value.Some? {
      SetKeepsTwice(k, t, q, key, value);
    }
    var up := u.(size := u.size + 1);
    assert Twice(k, up, q);
    if up.size * 2 >= |up.buckets| {
      var blank := Blank(MapPrime(2 * up.size).value, nil, true);
      assert TwiceInAll(k, up, 0, blank, q);
      ResetKeepsTwice(k, up, 0, blank, q);
    }
    assert Twice(k, g.(size := up.size), q);
    SetKeepsTwice(k, g.(size := up.size), q, key, value);
  }

  lemma {:induction false} RunKeepsTwice<K(!new)>(k: Keying<K>, nil: K, t: Table<K>, q: K, sets: seq<Pair<K>>)
    requires Lawful(k) && Shaped(t) && IsMap(t) && Twice(k, t, q) && SetAll(k, nil, t, sets).Some?
    ensures Twice(k, SetAll(k, nil, t, sets).value, q)
    decreases |sets|
  {
    hide Twice, DictSet, Lawful;
    if sets != [] {
      DictSetKeepsTwice(k, nil, t, q, sets[0].key, sets[0].value);
      RunKeepsTwice(k, nil, DictSet(k, nil, t, sets[0].key, sets[0].value).value, q, sets[1..]);
    }
  }

  lemma TwiceIsNotInv<K(!new)>(k: Keying<K>, t: Table<K>, q: K)
    requires Lawful(k) && Twice(k, t, q)
    ensures !Inv(k, t)
  {
    hide Chained;
    var i: nat, j: nat :| i < j < |t.buckets| == |t.keys| && t.buckets[i] == Full && t.buckets[j] == Full
      && k.eq(q, t.keys[i]) && k.eq(q, t.keys[j]);
    assert k.eq(t.keys[i], q) && k.eq(t.keys[i], t.keys[j]);
  }

  /** A run leaves the dictionary with one bucket a key, and a size that counts them, if and only if all its keys are new
      and distinct: one key set again is never made good. */
  lemma {:induction false} RunKeepsMapExactly<K(!new)>(k: Keying<K>, nil: K, t: Table<K>, sets: seq<Pair<K>>)
    requires Lawful(k) && SizesArePrime() && Inv(k, t) && IsMap(t) && NoTombstones(t.buckets)
    requires SetAll(k, nil, t, sets).Some?
    ensures Inv(k, SetAll(k, nil, t, sets).value) <==> FreshKeys(k, Contents(t), sets)
    decreases |sets|
  {
    InvShaped(k, t);
    hide Inv, Contents, DictSet, Put, FreshKeys, Lawful, SizesArePrime, Twice, Bound;
    if sets == [] {
      assert FreshKeys(k, Contents(t), sets) by { NoKeysAreFresh(k, Contents(t)); }
    } else {
      var first := sets[0];
      var u := DictSet(k, nil, t, first.key, first.value).value;
      NotHeldWhenFree(k, t, first.key);
      if Held(k, t, first.key) {
        OverwriteDuplicates(k, nil, t, first.key, first.value);
        RunKeepsTwice(k, nil, u, first.key, sets[1..]);
        TwiceIsNotInv(k, SetAll(k, nil, u, sets[1..]).value, first.key);
        FirstIsFresh(k, Contents(t), sets);
      } else {
        FreshSetCorrect(k, nil, t, first.key, first.value);
        FreshExactly(k, Contents(t), sets);
        InvShaped(k, u);
        RunKeepsMapExactly(k, nil, u, sets[1..]);
      }
    }
  }

  lemma NoKeysAreFresh<K>(k: Keying<K>, m: map<K, Option<K>>)
    ensures FreshKeys(k, m, [])
  {
  }

  lemma FirstIsFresh<K>(k: Keying<K>, m: map<K, Option<K>>, sets: seq<Pair<K>>)
    requires sets != []
    ensures FreshKeys(k, m, sets) ==> !Bound(k, m, sets[0].key)
  {
  }

  lemma FreshExactly<K(!new)>(k: Keying<K>, m: map<K, Option<K>>, sets: seq<Pair<K>>)
    requires Lawful(k) && sets != [] && !Bound(k, m, sets[0].key)
    ensures FreshKeys(k, m, sets) <==> FreshKeys(k, Put(k, m, sets[0].key, Some(sets[0].value)), sets[1..])
  {
    var n, rest := Put(k, m, sets[0].key, Some(sets[0].value)), sets[1..];
    if FreshKeys(k, m, sets) {
      FreshNext(k, m, sets);
    }
    if FreshKeys(k, n, rest) {
      assert sets[0].key in n;
      forall i | 0 <= i < |sets|
        ensures !Bound(k, m, sets[i].key) && (i > 0 ==> !k.eq(sets[i].key, sets[0].key))
      {
        if i > 0 {
          assert sets[i] == rest[i - 1];
          assert !Bound(k, n, rest[i - 1].key);
          assert forall x :: x in m ==> x in n;
        }
      }
      assert forall i, j :: 0 < i < j < |sets| ==> sets[i] == rest[i - 1] && sets[j] == rest[j - 1];
    }
  }

  // ----- when a dictionary grows, and to what -----

  lemma {:induction false} ResetSize<K>(k: Keying<K>, old_: Table<K>, i: nat, t: Table<K>)
    requires Shaped(old_) && IsMap(old_) && Shaped(t) && IsMap(t) && i <= |old_.buckets| && Reset(k, old_, i, t).Some?
    ensures |Reset(k, old_, i, t).value.buckets| == |t.buckets|
  {
  }

  /** The buckets stay as many as they are as long as they are less than half full with one more, and are then more than twice
      the new count, as map_prime says. */
  lemma DictSetSize<K>(k: Keying<K>, nil: K, t: Table<K>, key: K, value: K)
    requires Shaped(t) && IsMap(t) && DictSet(k, nil, t, key, value).Some?
    ensures var r := DictSet(k, nil, t, key, value).value;
      && r.size == t.size + 1
      && ((t.size + 1) * 2 < |t.buckets| ==> |r.buckets| == |t.buckets|)
      && ((t.size + 1) * 2 >= |t.buckets| ==> Some(|r.buckets|) == MapPrime(2 * (t.size + 1)))
  {
    var u, g := DictSetParts(k, nil, t, key, value);
    hide SetFrom, Query, DictSet, MapPrime, Reset, Blank;
    var up := u.(size := u.size + 1);
    if up.size * 2 >= |up.buckets| {
      var n := MapPrime(2 * up.size).value;
      BlankShape(n, nil, true);
      ResetSize(k, up, 0, Blank(n, nil, true));
    }
  }
}
