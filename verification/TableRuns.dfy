/** Whole runs of table operations, and exactly which hashes a full table can fail on. */
module TableRuns {
  import opened Options
  import opened NumberTheory
  import opened Probing
  import opened Keys
  import opened Values
  import opened TableSpec
  import opened TableProofs

  datatype Op<K> = Set(key: K, value: Option<K>) | Lookup(key: K) | Unset(key: K)

  datatype Answer<K> = Done | Found(result: Option<Option<K>>) | Removed(was: bool)

  /** A map is written with values, a set without. */
  ghost predicate Fitting<K>(t: Table<K>, ops: seq<Op<K>>) {
    forall i :: 0 <= i < |ops| && ops[i].Set? ==> (ops[i].value.Some? <==> IsMap(t))
  }

  function Step<K>(k: Keying<K>, nil: K, t: Table<K>, op: Op<K>): (r: Option<(Answer<K>, Table<K>)>)
    requires Shaped(t)
    requires op.Set? ==> (op.value.Some? <==> IsMap(t))
    ensures r.Some? ==> Shaped(r.value.1) && (IsMap(r.value.1) <==> IsMap(t))
  {
    match op
    case Set(key, value) =>
      var r := Insert(k, nil, t, key, value);
      if r.None? then None else Some((Done, r.value))
    case Lookup(key) =>
      var r := Query(k, t, key);
      if r.None? then None else Some((Found(r.value), t))
    case Unset(key) =>
      var r := Remove(k, nil, t, key);
      if r.None? then None else Some((Removed(r.value.0), r.value.1))
  }

  ghost function SpecStep<K>(k: Keying<K>, m: map<K, Option<K>>, op: Op<K>): (Answer<K>, map<K, Option<K>>) {
    match op
    case Set(key, value) => (Done, Put(k, m, key, value))
    case Lookup(key) => (Found(Get(k, m, key)), m)
    case Unset(key) => (Removed(Bound(k, m, key)), Delete(k, m, key))
  }

  /** One operation, when it does not end the program, does what it does to a finite map. */
  lemma StepRefines<K(!new)>(k: Keying<K>, nil: K, t: Table<K>, op: Op<K>)
    requires Lawful(k) && Inv(k, t) && SizesArePrime()
    requires op.Set? ==> (op.value.Some? <==> IsMap(t))
    ensures var r := Step(k, nil, t, op);
      r.Some? ==>
        && Inv(k, r.value.1) && (IsMap(r.value.1) <==> IsMap(t))
        && (r.value.0, Contents(r.value.1)) == SpecStep(k, Contents(t), op)
    ensures Step(k, nil, t, op).None? ==> Stuck(k, t, op.key) || |t.buckets| == LARGEST
  {
    hide Insert, Query, Remove, Contents, Inv, Put, Get, Delete, Bound, Stuck, Held;
    match op
    case Set(key, value) => InsertCorrect(k, nil, t, key, value);
    case Lookup(key) => QueryCorrect(k, t, key);
    case Unset(key) => RemoveCorrect(k, nil, t, key);
  }

  function Run<K>(k: Keying<K>, nil: K, t: Table<K>, ops: seq<Op<K>>): Option<(seq<Answer<K>>, Table<K>)>
    requires Shaped(t) && Fitting(t, ops)
    decreases |ops|
  {
    if ops == [] then
      Some(([], t))
    else
      match Step(k, nil, t, ops[0])
      case None => None
      case Some((answer, u)) =>
        match Run(k, nil, u, ops[1..])
        case None => None
        case Some((answers, v)) => Some(([answer] + answers, v))
  }

  ghost function SpecRun<K>(k: Keying<K>, m: map<K, Option<K>>, ops: seq<Op<K>>): (seq<Answer<K>>, map<K, Option<K>>)
    decreases |ops|
  {
    if ops == [] then
      ([], m)
    else
      var (answer, n) := SpecStep(k, m, ops[0]);
      var (answers, o) := SpecRun(k, n, ops[1..]);
      ([answer] + answers, o)
  }

  /** Every run that does not end the program answers as a finite map up to key equality would,
      with rehashes and tombstones in between. */
  lemma {:induction false} RunRefines<K(!new)>(k: Keying<K>, nil: K, t: Table<K>, ops: seq<Op<K>>)
    requires Lawful(k) && Inv(k, t) && SizesArePrime() && Fitting(t, ops)
    ensures var r := Run(k, nil, t, ops);
      r.Some? ==>
        && Inv(k, r.value.1)
        && (r.value.0, Contents(r.value.1)) == SpecRun(k, Contents(t), ops)
    decreases |ops|
  {
    hide Step, SpecStep, Contents, Inv;
    if ops != [] {
      InvShaped(k, t);
      StepRefines(k, nil, t, ops[0]);
      var s := Step(k, nil, t, ops[0]);
      if s.Some? {
        RunRefines(k, nil, s.value.1, ops[1..]);
      }
    }
  }

  // ----- when a run cannot end the program -----

  /** The step every walk covers a majority by, in every table size. */
  const WIDEST: nat := 268435454

  /** A hash that no table size makes wrap in the first half of its walk. */
  predicate NeverWraps(h: nat) {
    Unwrapped(h, WIDEST)
  }

  lemma NeverWrapsCovers(h: nat, p: nat)
    requires NeverWraps(h) && p in SIZES && TableSize(p)
    ensures CoversMajority(h, p)
  {
    hide IsPrime;
    UnwrappedBelow(h, Half(p), WIDEST);
  }

  /** No table can take another key once it has this many. */
  lemma FullestTable<K(!new)>(k: Keying<K>, t: Table<K>)
    requires Lawful(k) && Inv(k, t) && SizesArePrime()
    ensures t.size <= WIDEST
    ensures t.size == WIDEST <==> (t.size + 1) * 2 >= |t.buckets| && |t.buckets| == LARGEST
  {
    hide Chained, OnePerSlot;
  }

  /** There is room for the operation: a new key comes to a map that has fewer than the most. */
  ghost predicate Room<K>(k: Keying<K>, m: map<K, Option<K>>, op: Op<K>) {
    op.Set? && !Bound(k, m, op.key) ==> |m| < WIDEST
  }

  lemma StepTotal<K(!new)>(k: Keying<K>, nil: K, t: Table<K>, op: Op<K>)
    requires Lawful(k) && Inv(k, t) && SizesArePrime()
    requires op.Set? ==> (op.value.Some? <==> IsMap(t))
    requires NeverWraps(k.hash(op.key))
    ensures Step(k, nil, t, op).Some? <==> Room(k, Contents(t), op)
  {
    FullestTable(k, t);
    SizeIsKeys(k, t);
    ContentsOnePerClass(k, t);
    hide Stuck, Held, Contents, Find, Rehash, CoversMajority, Put, Get, Delete, Bound, NeverWraps, Chained, OnePerSlot;
    assert TableSize(|t.buckets|);
    NeverWrapsCovers(k.hash(op.key), |t.buckets|);
    assert !Stuck(k, t, op.key) by {
      if Stuck(k, t, op.key) {
        StuckOnlyAtFullLoad(k, t, op.key);
      }
    }
    match op
    case Set(key, value) => InsertCorrect(k, nil, t, key, value);
    case Lookup(key) => QueryCorrect(k, t, key);
    case Unset(key) => RemoveCorrect(k, nil, t, key);
  }

  /** Every map the run passes through has room for the operation that comes. */
  ghost predicate AlwaysRoom<K>(k: Keying<K>, m: map<K, Option<K>>, ops: seq<Op<K>>)
    decreases |ops|
  {
    ops == [] || (Room(k, m, ops[0]) && AlwaysRoom(k, SpecStep(k, m, ops[0]).1, ops[1..]))
  }

  /** Runs whose hashes never wrap early end the program exactly where a new key comes to a map of WIDEST keys:
      however long they are, and however many tombstones they leave. */
  lemma {:induction false} RunTotal<K(!new)>(k: Keying<K>, nil: K, t: Table<K>, ops: seq<Op<K>>)
    requires Lawful(k) && Inv(k, t) && SizesArePrime() && Fitting(t, ops)
    requires forall i :: 0 <= i < |ops| ==> NeverWraps(k.hash(ops[i].key))
    ensures Run(k, nil, t, ops).Some? <==> AlwaysRoom(k, Contents(t), ops)
    decreases |ops|
  {
    hide Step, SpecStep, Contents, Inv, NeverWraps, Room, Lawful, SizesArePrime;
    if ops != [] {
      InvShaped(k, t);
      StepRefines(k, nil, t, ops[0]);
      StepTotal(k, nil, t, ops[0]);
      var s := Step(k, nil, t, ops[0]);
      if s.Some? {
        InvShaped(k, s.value.1);
        RunTotal(k, nil, s.value.1, ops[1..]);
      }
    }
  }

  // ----- exactly which hashes a run can fail on -----

  /** The run of `ops` leads from one table to the other. */
  ghost predicate Reaches<K>(k: Keying<K>, nil: K, t: Table<K>, ops: seq<Op<K>>, u: Table<K>) {
    && Shaped(t) && Fitting(t, ops)
    && var r := Run(k, nil, t, ops); r.Some? && r.value.1 == u
  }

  lemma ReachesFirst<K>(k: Keying<K>, nil: K, t: Table<K>, op: Op<K>, ops: seq<Op<K>>, u: Table<K>, v: Table<K>)
    requires Shaped(t) && (op.Set? ==> (op.value.Some? <==> IsMap(t)))
    requires var s := Step(k, nil, t, op); s.Some? && s.value.1 == u
    requires Reaches(k, nil, u, ops, v)
    ensures Reaches(k, nil, t, [op] + ops, v)
  {
    hide Step;
    var all := [op] + ops;
    assert all[1..] == ops;
    assert forall i :: 1 <= i < |all| ==> all[i] == ops[i - 1];
  }

  /** A set of `p` slots that holds the given keys, each in the slot of its own hash. */
  ghost function Home<K>(p: nat, nil: K, keyAt: nat -> K, homes: set<nat>): (t: Table<K>)
    ensures IsSet(t) && |t.buckets| == |t.keys| == p && t.size == |homes|
    ensures forall s: nat :: s < p ==> t.buckets[s] == if s in homes then Full else Empty
    ensures forall s: nat :: s < p ==> t.keys[s] == if s in homes then keyAt(s) else nil
  {
    Table(|homes|,
          seq(p, (s: nat) => if s in homes then Full else Empty),
          seq(p, (s: nat) => if s in homes then keyAt(s) else nil),
          [])
  }

  /** There is a key for every slot: one whose hash is the slot's number. */
  ghost predicate KeyForEach<K>(k: Keying<K>, p: nat, keyAt: nat -> K) {
    0 < p < WORD && forall s: nat :: s < p ==> k.hash(keyAt(s)) == s
  }

  lemma EmptyIsHome<K>(p: nat, nil: K, keyAt: nat -> K)
    requires 0 < p
    ensures Blank(p, nil, false) == Home(p, nil, keyAt, {}) && Shaped(Blank(p, nil, false))
  {
  }

  lemma AddHome<K>(k: Keying<K>, p: nat, nil: K, keyAt: nat -> K, homes: set<nat>, s: nat)
    requires KeyForEach(k, p, keyAt) && (|homes| + 1) * 2 < p && s < p && s !in homes
    ensures Insert(k, nil, Home(p, nil, keyAt, homes), keyAt(s), None) == Some(Home(p, nil, keyAt, homes + {s}))
  {
    hide Rehash, Place;
    HomePlace(s, p);
    var t, u := Home(p, nil, keyAt, homes), Home(p, nil, keyAt, homes + {s});
    assert Find(k, t, keyAt(s)) == Some(s);
    assert u.buckets == t.buckets[s := Full];
    assert u.keys == t.keys[s := keyAt(s)];
  }

  function Adds<K>(keyAt: nat -> K, todo: seq<nat>): seq<Op<K>> {
    if todo == [] then [] else [Set(keyAt(todo[0]), None)] + Adds(keyAt, todo[1..])
  }

  /** The slots still to be filled are distinct and free, and leave the table below half full. */
  ghost predicate Fresh(p: nat, done: set<nat>, todo: seq<nat>) {
    && (|done| + |todo|) * 2 < p
    && (forall i :: 0 <= i < |todo| ==> todo[i] < p && todo[i] !in done)
    && forall i, j :: 0 <= i < j < |todo| ==> todo[i] != todo[j]
  }

  function Elements(todo: seq<nat>): set<nat> {
    set s | s in todo
  }

  lemma FreshNext(p: nat, done: set<nat>, todo: seq<nat>)
    requires Fresh(p, done, todo) && todo != []
    ensures todo[0] < p && todo[0] !in done && (|done| + 1) * 2 < p && Fresh(p, done + {todo[0]}, todo[1..])
    ensures (done + {todo[0]}) + Elements(todo[1..]) == done + Elements(todo)
  {
    assert todo == [todo[0]] + todo[1..];
  }

  /** Adding keys with hashes of their own fills just those slots. */
  lemma {:induction false} RunAdds<K>(k: Keying<K>, p: nat, nil: K, keyAt: nat -> K, done: set<nat>, todo: seq<nat>)
    requires KeyForEach(k, p, keyAt) && Fresh(p, done, todo)
    ensures Reaches(k, nil, Home(p, nil, keyAt, done), Adds(keyAt, todo), Home(p, nil, keyAt, done + Elements(todo)))
    decreases |todo|
  {
    var t := Home(p, nil, keyAt, done);
    if todo == [] {
      assert done + Elements(todo) == done;
      hide Home;
    } else {
      FreshNext(p, done, todo);
      AddHome(k, p, nil, keyAt, done, todo[0]);
      hide Home, Insert, Fresh, KeyForEach, Elements, Reaches;
      var u := Home(p, nil, keyAt, done + {todo[0]});
      RunAdds(k, p, nil, keyAt, done + {todo[0]}, todo[1..]);
      var op := Set(keyAt(todo[0]), None);
      assert Step(k, nil, t, op) == Some((Done, u));
      hide Step;
      ReachesFirst(k, nil, t, op, Adds(keyAt, todo[1..]), u, Home(p, nil, keyAt, done + Elements(todo)));
    }
  }

  lemma {:induction false} Enumerate(slots: set<nat>) returns (todo: seq<nat>)
    ensures |todo| == |slots| && Elements(todo) == slots
    ensures forall i, j :: 0 <= i < j < |todo| ==> todo[i] != todo[j]
    decreases |slots|
  {
    todo := [];
    if slots != {} {
      var s :| s in slots;
      var rest := Enumerate(slots - {s});
      todo := [s] + rest;
      assert forall i :: 0 <= i < |rest| ==> rest[i] in Elements(rest);
      assert Elements(todo) == {s} + Elements(rest);
    }
  }

  lemma WrappingHashIsLarge(h: nat, p: nat)
    requires p in SIZES && TableSize(p) && !CoversMajority(h, p)
    ensures h >= p
  {
    hide IsPrime, NonzeroSquare;
    SquareMonotone(Half(p), WIDEST);
  }

  lemma ProbeSlotsBelow(h: nat, p: nat)
    requires 0 < p
    ensures forall s :: s in ProbeSlots(h, p) ==> s < p
  {
  }

  /** With every slot of its walk taken by a key of that slot's own hash, a key with a larger hash is stuck. */
  lemma HomeIsStuck<K(!new)>(k: Keying<K>, p: nat, nil: K, keyAt: nat -> K, homes: set<nat>, key: K)
    requires Lawful(k) && KeyForEach(k, p, keyAt) && k.hash(key) >= p && ProbeSlots(k.hash(key), p) <= homes
    ensures Shaped(Home(p, nil, keyAt, homes)) && Stuck(k, Home(p, nil, keyAt, homes), key)
    ensures Step(k, nil, Home(p, nil, keyAt, homes), Lookup(key)) == None
  {
    var h := k.hash(key);
    var t := Home(p, nil, keyAt, homes);
    hide Place, Home;
    forall i: nat | i < p
      ensures var place := Place(h, i, p); t.buckets[place] == Full && !k.eq(key, t.keys[place])
    {
      var place := Place(h, i, p);
      assert place in ProbeSlots(h, p);
      assert t.keys[place] == keyAt(place) && k.hash(keyAt(place)) == place;
    }
    hide Probe, Stuck, ProbeSlots, KeyForEach;
    StuckFindsNothing(k, t, key, 0);
  }

  /** From an empty set of any size there is a run of adds, none of which fails, after which the look-up of a key
      whose hash does not cover a majority ends the program. */
  lemma RunThatFails<K(!new)>(k: Keying<K>, p: nat, nil: K, keyAt: nat -> K, key: K) returns (ops: seq<Op<K>>, t: Table<K>)
    requires Lawful(k) && SizesArePrime() && p in SIZES && KeyForEach(k, p, keyAt)
    requires !CoversMajority(k.hash(key), p)
    ensures Reaches(k, nil, Blank(p, nil, false), ops, t) && Shaped(t) && |t.buckets| == p
    ensures Stuck(k, t, key) && Step(k, nil, t, Lookup(key)) == None
  {
    var h := k.hash(key);
    assert TableSize(p);
    Coverage(h, p);
    WrappingHashIsLarge(h, p);
    ProbeSlotsBelow(h, p);
    var slots := ProbeSlots(h, p);
    var todo := Enumerate(slots);
    assert |slots| * 2 < p;
    hide IsPrime, CoversMajority, ProbeSlots, Home, Blank, Lawful, SizesArePrime, Step, Stuck;
    assert Fresh(p, {}, todo) by {
      assert forall i :: 0 <= i < |todo| ==> todo[i] in Elements(todo);
    }
    assert {} + Elements(todo) == slots;
    EmptyIsHome(p, nil, keyAt);
    RunAdds(k, p, nil, keyAt, {}, todo);
    HomeIsStuck(k, p, nil, keyAt, slots, key);
    ops, t := Adds(keyAt, todo), Home(p, nil, keyAt, slots);
  }

  /** Every table of `p` slots that a run from an empty set builds answers for the key. */
  ghost predicate EveryRunAnswers<K(!new)>(k: Keying<K>, p: nat, nil: K, key: K)
    requires 0 < p
  {
    forall ops: seq<Op<K>>, t: Table<K> ::
      Reaches(k, nil, Blank(p, nil, false), ops, t) && Shaped(t) && |t.buckets| == p ==> Find(k, t, key).Some?
  }

  /** In the tables of a given size that runs build, a search for a key always succeeds if and only if the walk for its
      hash covers a majority of the slots: a condition on the hash and the size alone. */
  lemma EveryRunAnswersIff<K(!new)>(k: Keying<K>, p: nat, nil: K, keyAt: nat -> K, key: K)
    requires Lawful(k) && SizesArePrime() && p in SIZES && KeyForEach(k, p, keyAt)
    ensures EveryRunAnswers(k, p, nil, key) <==> CoversMajority(k.hash(key), p)
  {
    hide Place, Find, CoversMajority, Home, KeyForEach, Reaches, IsPrime, Chained, OnePerSlot;
    assert TableSize(p);
    if CoversMajority(k.hash(key), p) {
      forall ops: seq<Op<K>>, t: Table<K> |
        Reaches(k, nil, Blank(p, nil, false), ops, t) && Shaped(t) && |t.buckets| == p
        ensures Find(k, t, key).Some?
      {
        ReachedTableAnswers(k, p, nil, ops, t, key);
      }
    } else {
      var ops, t := RunThatFails(k, p, nil, keyAt, key);
      StuckFinds(k, t, key);
      assert Shaped(t);
    }
  }

  lemma StuckFinds<K>(k: Keying<K>, t: Table<K>, key: K)
    requires Shaped(t) && Stuck(k, t, key)
    ensures Find(k, t, key) == None
  {
    hide Stuck, Probe;
    StuckFindsNothing(k, t, key, 0);
  }

  lemma ReachedTableAnswers<K(!new)>(k: Keying<K>, p: nat, nil: K, ops: seq<Op<K>>, t: Table<K>, key: K)
    requires Lawful(k) && SizesArePrime() && p in SIZES && CoversMajority(k.hash(key), p)
    requires Reaches(k, nil, Blank(p, nil, false), ops, t) && Shaped(t) && |t.buckets| == p
    ensures Find(k, t, key).Some?
  {
    BlankTable(k, p, nil, false);
    hide CoversMajority, Run, Blank, Place, Find, Chained, OnePerSlot, Contents, Lawful, SizesArePrime;
    RunRefines(k, nil, Blank(p, nil, false), ops);
    FindMeaning(k, t, key);
    if Stuck(k, t, key) {
      StuckOnlyAtFullLoad(k, t, key);
    }
  }

  // ----- the integer -1 -----

  /** The integers 0, 1, 2 and so on, which hash to themselves. */
  function Ints(): (f: nat -> Value)
    ensures forall s: nat :: f(s) == Int(s)
  {
    (s: nat) => Int(s)
  }

  lemma IntForEach(hb: ByteHash, p: nat)
    requires Fits(hb) && 0 < p <= 0x1_0000_0000
    ensures KeyForEach(ValueKeying(hb), p, Ints())
  {
    hide Int, Hash, Ints;
    forall s: nat | s < p
      ensures Hash(hb, Int(s)) == s
    {
      IntHash(hb, s);
    }
  }

  lemma MinusOneHash(hb: ByteHash)
    requires Fits(hb)
    ensures ValueKeying(hb).hash(Int(-1)) == WORD - 1
  {
    IntHash(hb, -1);
    hide Int, Hash;
  }

  /** In every size, some run of adds from an empty set is followed by a look-up of -1 that ends the program. */
  lemma MinusOneFailsInEverySize(hb: ByteHash, nil: Value, p: nat) returns (ops: seq<Op<Value>>, t: Table<Value>)
    requires Fits(hb) && p in SIZES && SizesArePrime()
    ensures var k := ValueKeying(hb);
      && Reaches(k, nil, Blank(p, nil, false), ops, t) && Shaped(t) && |t.buckets| == p
      && Stuck(k, t, Int(-1)) && Step(k, nil, t, Lookup(Int(-1))) == None
  {
    assert TableSize(p);
    ValuesLawful(hb);
    IntForEach(hb, p);
    MinusOneHash(hb);
    hide *;
    MinusOneNeverCovers(p);
    ops, t := RunThatFails(ValueKeying(hb), p, nil, Ints(), Int(-1));
  }

  /** Every size has integers for all its slots, so that for values the condition is exact without more ado. */
  lemma ValueRunsAnswerIff(hb: ByteHash, p: nat, nil: Value, key: Value)
    requires Fits(hb) && p in SIZES && SizesArePrime()
    ensures EveryRunAnswers(ValueKeying(hb), p, nil, key) <==> CoversMajority(ValueKeying(hb).hash(key), p)
  {
    assert TableSize(p);
    ValuesLawful(hb);
    IntForEach(hb, p);
    hide *;
    EveryRunAnswersIff(ValueKeying(hb), p, nil, Ints(), key);
  }

  /** After the first step the sum has wrapped around. */
  lemma MinusOnePlace(i: nat)
    requires i < 13
    ensures Place(WORD - 1, i, 13) == if i == 0 then 2 else (i * i - 1) % 13
  {
    assert i * i <= 12 * 12;
    if i > 0 {
      assert WORD - 1 + i * i == WORD + (i * i - 1);
      assert (WORD + (i * i - 1)) % WORD == i * i - 1;
    }
  }

  lemma MinusOneWalk(i: nat)
    requires i < 13
    ensures Place(WORD - 1, i, 13) in {0, 2, 3, 8, 9, 11}
  {
    hide Place;
    MinusOnePlace(i);
    match i
    case 0 => case 1 => case 2 => case 3 => case 4 => case 5 => case 6 =>
    case 7 => case 8 => case 9 => case 10 => case 11 => case 12 =>
    case _ =>
  }

  lemma MinusOneSlots()
    ensures ProbeSlots(WORD - 1, 13) <= {0, 2, 3, 8, 9, 11}
  {
    hide Place;
    forall i: nat {:trigger Place(WORD - 1, i, 13)} | i < 13
      ensures Place(WORD - 1, i, 13) in {0, 2, 3, 8, 9, 11}
    {
      MinusOneWalk(i);
    }
  }

  lemma SixFresh(homes: seq<nat>)
    requires homes == [0, 2, 3, 8, 9, 11]
    ensures Fresh(13, {}, homes) && {} + Elements(homes) == {0, 2, 3, 8, 9, 11}
  {
    assert homes[0] == 0 && homes[1] == 2 && homes[2] == 3 && homes[3] == 8 && homes[4] == 9 && homes[5] == 11;
  }

  /** One such run, with its input: the integers 0, 2, 3, 8, 9 and 11 are added to a new set and then -1 is looked up. A
      finite set would answer that -1 is absent. */
  lemma MinusOneEndsTheProgram(hb: ByteHash, nil: Value) returns (t: Table<Value>)
    requires Fits(hb)
    ensures var k := ValueKeying(hb);
      && Reaches(k, nil, Blank(13, nil, false), Adds(Ints(), [0, 2, 3, 8, 9, 11]), t)
      && Shaped(t)
      && Step(k, nil, t, Lookup(Int(-1))) == None
  {
    var k, keyAt := ValueKeying(hb), Ints();
    ValuesLawful(hb);
    IntForEach(hb, 13);
    MinusOneHash(hb);
    MinusOneSlots();
    var homes: seq<nat> := [0, 2, 3, 8, 9, 11];
    SixFresh(homes);
    EmptyIsHome(13, nil, keyAt);
    hide *;
    RunAdds(k, 13, nil, keyAt, {}, homes);
    HomeIsStuck(k, 13, nil, keyAt, {0, 2, 3, 8, 9, 11}, Int(-1));
    t := Home(13, nil, keyAt, {0, 2, 3, 8, 9, 11});
  }
}
