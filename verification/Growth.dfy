/** The growable array of vm/builtin/Arrays.c: push and pop, and what their reallocations cost over a run. */
module Growth {
  import opened Options
  import opened NumberTheory

  // ----- sizes and costs -----

  /** What is allocated after a push onto `size` elements with `alloc` slots. */
  function PushAlloc(size: nat, alloc: nat): nat {
    if size + 1 <= alloc then alloc else if alloc == 0 then 2 else 2 * alloc
  }

  /** What is allocated after a pop that leaves `size` elements. */
  function PopAlloc(size: nat, alloc: nat): nat {
    if size * 4 < alloc then if alloc / 2 < 2 then 2 else alloc / 2 else alloc
  }

  /** The slots a reallocation copies; allocating for the first time copies none. */
  function Copied(alloc: nat, next: nat, reallocates: bool): nat {
    if reallocates then if alloc < next then alloc else next else 0
  }

  datatype Op<V> = Push(val: V) | Pop

  /** Sizes only: the elements, the slots, and the slots copied so far. */
  datatype Sizes = Sizes(size: nat, alloc: nat, copied: nat)

  /** One operation; a pop from an empty array raises an exception and changes nothing. */
  function Step<V>(s: Sizes, op: Op<V>): Sizes {
    match op
    case Push(_) =>
      var next := PushAlloc(s.size, s.alloc);
      Sizes(s.size + 1, next, s.copied + Copied(s.alloc, next, s.size + 1 > s.alloc))
    case Pop =>
      if s.size == 0 then s
      else
        var next := PopAlloc(s.size - 1, s.alloc);
        Sizes(s.size - 1, next, s.copied + Copied(s.alloc, next, (s.size - 1) * 4 < s.alloc))
  }

  function Run<V>(s: Sizes, ops: seq<Op<V>>): Sizes
    decreases |ops|
  {
    if ops == [] then s else Run(Step(s, ops[0]), ops[1..])
  }

  /** How far the array is from half full, in slots: what is saved up for the next reallocation. The two slots of an array that
      was emptied need no savings: the next push finds room. */
  function Potential(s: Sizes): nat {
    if s.size == 0 && s.alloc == 2 then 0
    else if 2 * s.size < s.alloc then s.alloc - 2 * s.size
    else 2 * s.size - s.alloc
  }

  /** Each operation costs at most two copied slots, once savings are counted. */
  lemma StepCost<V>(s: Sizes, op: Op<V>)
    requires s.size <= s.alloc
    ensures var r := Step(s, op);
      r.size <= r.alloc && r.copied + Potential(r) <= s.copied + Potential(s) + 2
  {
  }

  /** Over any run the elements always fit, and fewer slots are copied than two for each operation and what was saved up. */
  lemma {:induction false} RunCost<V>(s: Sizes, ops: seq<Op<V>>)
    requires s.size <= s.alloc
    ensures var r := Run(s, ops);
      r.size <= r.alloc && r.copied + Potential(r) <= s.copied + Potential(s) + 2 * |ops|
    decreases |ops|
  {
    if ops != [] {
      StepCost(s, ops[0]);
      RunCost(Step(s, ops[0]), ops[1..]);
    }
  }

  lemma LiteralRunCost<V>(n: nat, ops: seq<Op<V>>)
    ensures Run(Sizes(n, n, 0), ops).copied <= n + 2 * |ops|
  {
    RunCost(Sizes(n, n, 0), ops);
  }

  // ----- what is kept allocated -----

  /** Over any run from a literal no more than four slots are allocated for each element there is, two at the least. */
  lemma {:induction false} FewSlotsKept<V>(s: Sizes, ops: seq<Op<V>>)
    requires s.size <= s.alloc && (s.alloc <= 2 || s.alloc <= 4 * s.size)
    ensures var r := Run(s, ops); r.alloc <= 2 || r.alloc <= 4 * r.size
    decreases |ops|
  {
    if ops != [] {
      FewSlotsKept(Step(s, ops[0]), ops[1..]);
    }
  }

  // ----- two slots an operation are needed -----

  function Pushes<V>(n: nat, val: V): (ops: seq<Op<V>>)
    ensures |ops| == n
  {
    seq(n, _ => Push(val))
  }

  lemma {:induction false} RunAppend<V>(s: Sizes, a: seq<Op<V>>, b: seq<Op<V>>)
    ensures Run(s, a + b) == Run(Run(s, a), b)
    decreases |a|
  {
    if a == [] {
      assert a + b == b;
    } else {
      assert (a + b)[1..] == a[1..] + b;
      RunAppend(Step(s, a[0]), a[1..], b);
    }
  }

  lemma {:induction false} PushesThatFit<V>(s: Sizes, n: nat, val: V)
    requires s.size + n <= s.alloc
    ensures Run(s, Pushes(n, val)) == Sizes(s.size + n, s.alloc, s.copied)
    decreases n
  {
    if n > 0 {
      assert Pushes(n, val)[1..] == Pushes(n - 1, val);
      PushesThatFit(Step(s, Push(val)), n - 1, val);
    }
  }

  /** From an empty array up to a full one of 2^k elements. */
  lemma {:induction false} PushesUpTo<V>(k: nat, val: V)
    requires k >= 1
    ensures Run(Sizes(0, 0, 0), Pushes(Pow2(k), val)) == Sizes(Pow2(k), Pow2(k), Pow2(k) - 2)
  {
    var start := Sizes(0, 0, 0);
    if k == 1 {
      PushesThatFit(Sizes(1, 2, 0), 1, val);
      assert Pushes(2, val)[1..] == Pushes(1, val);
      assert Step(start, Push(val)) == Sizes(1, 2, 0);
    } else {
      var n := Pow2(k - 1);
      PushesUpTo(k - 1, val);
      assert Pushes(2 * n, val) == Pushes(n, val) + Pushes(n, val);
      RunAppend(start, Pushes(n, val), Pushes(n, val));
      assert Pushes(n, val)[1..] == Pushes(n - 1, val);
      PushesThatFit(Sizes(n + 1, 2 * n, 2 * n - 2), n - 1, val);
    }
  }

  /** No smaller constant will do: there are runs of any length, of m pushes onto an empty array, that copy 2m - 4 slots. */
  lemma TwoIsNeeded<V>(k: nat, val: V) returns (ops: seq<Op<V>>)
    requires k >= 1
    ensures |ops| == Pow2(k) + 1 && Run(Sizes(0, 0, 0), ops).copied == 2 * |ops| - 4
  {
    var n := Pow2(k);
    ops := Pushes(n, val) + [Push(val)];
    PushesUpTo(k, val);
    RunAppend(Sizes(0, 0, 0), Pushes(n, val), [Push(val)]);
    var full := Sizes(n, n, n - 2);
    assert [Push(val)][1..] == [];
  }

  // ----- the array itself -----

  class Array1<V(0)> {
    var size: nat
    var allocSize: nat
    var data: array<V>
    ghost var copied: nat

    ghost predicate Valid()
      reads this
    {
      size <= allocSize == data.Length
    }

    ghost function Contents(): seq<V>
      requires Valid()
      reads this, data
    {
      data[..size]
    }

    ghost function Measure(): Sizes
      reads this
    {
      Sizes(size, allocSize, copied)
    }

    /** array1_to_val2: an array literal. */
    constructor (elements: seq<V>)
      ensures Valid() && fresh(data) && Contents() == elements && Measure() == Sizes(|elements|, |elements|, 0)
    {
      size, allocSize, copied := |elements|, |elements|, 0;
      data := new V[|elements|](i requires 0 <= i < |elements| => elements[i]);
    }

    /** mem_realloc. */
    method Realloc(n: nat)
      requires data.Length == allocSize
      modifies `data, `copied
      ensures fresh(data) && data.Length == n && copied == old(copied) + Copied(old(data).Length, n, true)
      ensures forall i :: 0 <= i < n && i < old(data).Length ==> data[i] == old(data[i])
    {
      var was, moved := data, new V[n];
      var keep := if was.Length < n then was.Length else n;
      for i := 0 to keep
        invariant data == was && copied == old(copied) && forall j :: 0 <= j < was.Length ==> was[j] == old(was[j])
        invariant forall j :: 0 <= j < i ==> moved[j] == was[j]
      {
        moved[i] := was[i];
      }
      data := moved;
      copied := copied + keep;
    }

    method Push(val: V)
      requires Valid()
      modifies this, data
      ensures Valid() && (data == old(data) || fresh(data))
      ensures Contents() == old(Contents()) + [val]
      ensures Measure() == Step(old(Measure()), Op.Push(val))
    {
      ghost var was := Contents();
      var newSize := size + 1;
      if newSize > allocSize {
        if allocSize * 2 == 0 {
          allocSize := 2;
          data := new V[allocSize];
        } else {
          Realloc(allocSize * 2);
          allocSize := allocSize * 2;
        }
      }
      assert data[..size] == was;
      size := newSize;
      data[size - 1] := val;
      assert data[..size - 1] == was && data[..size] == data[..size - 1] + [val];
    }

    /** array1_pop; None where it raises "pop() from an empty array". */
    method Pop() returns (r: Option<V>)
      requires Valid()
      modifies this
      ensures Valid() && (data == old(data) || fresh(data))
      ensures Measure() == Step<V>(old(Measure()), Op.Pop)
      ensures old(Contents()) == [] ==> r == None && Contents() == []
      ensures old(Contents()) != [] ==>
        var last := |old(Contents())| - 1; r == Some(old(Contents())[last]) && Contents() == old(Contents())[..last]
    {
      if size == 0 {
        return None;
      }
      ghost var was := Contents();
      var newSize := size - 1;
      r := Some(data[newSize]);
      if newSize * 4 < allocSize {
        var n := allocSize / 2;
        if n < 2 {
          n := 2;
        }
        Realloc(n);
        allocSize := n;
      }
      size := newSize;
      assert data[..size] == was[..size];
    }
  }
}
