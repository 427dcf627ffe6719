/** Sci.Sampler of modules/Sci/Sci.rip: outcomes drawn with given weights, by a layered array of partial sums.
    Weights are reals here, doubles there. Ripe arrays count from 1, Dafny's from 0. */
module Sampling {
  import opened NumberTheory

  /** The sum of the first `n` weights. */
  function Prefix(w: seq<real>, n: nat): real
    requires n <= |w|
  {
    if n == 0 then 0.0 else Prefix(w, n - 1) + w[n - 1]
  }

  lemma PrefixNext(w: seq<real>, n: nat)
    requires n < |w|
    ensures Prefix(w, 0) == 0.0 && Prefix(w, n + 1) == Prefix(w, n) + w[n]
  {
  }

  /** Each cell of the upper level is the sum of its one or two children. */
  ghost predicate SumsTo(upper: seq<real>, lower: seq<real>) {
    && |upper| == (|lower| + 1) / 2
    && forall k :: 0 <= k < |upper| ==> upper[k] == lower[2 * k] + Second(lower, k)
  }

  function Second(lower: seq<real>, k: nat): real {
    if 2 * k + 1 < |lower| then lower[2 * k + 1] else 0.0
  }

  /** A prefix of the upper level weighs what the children of its cells weigh. */
  lemma {:induction false} PrefixOfLevels(upper: seq<real>, lower: seq<real>, k: nat)
    requires SumsTo(upper, lower) && k <= |upper|
    ensures Prefix(upper, k) == Prefix(lower, if 2 * k <= |lower| then 2 * k else |lower|)
  {
    if k > 0 {
      PrefixOfLevels(upper, lower, k - 1);
      assert 2 * k - 1 <= |lower|;
      assert Prefix(lower, 2 * k - 1) == Prefix(lower, 2 * k - 2) + lower[2 * k - 2];
    }
  }

  lemma NodeSum(upper: seq<real>, lower: seq<real>, k: nat)
    requires SumsTo(upper, lower) && k < |upper|
    ensures 2 * k < |lower| && upper[k] == lower[2 * k] + Second(lower, k)
  {
  }

  lemma SumsAfterUpdate(upper: seq<real>, lower: seq<real>, k: nat, delta: real)
    requires SumsTo(upper, lower) && k < |lower|
    ensures SumsTo(upper[k / 2 := upper[k / 2] + delta], lower[k := lower[k] + delta])
  {
  }

  /** Changing a cell of the upper level that is not the parent breaks the sums. */
  lemma SumsAfterWrongUpdate(upper: seq<real>, lower: seq<real>, k: nat, p: nat, delta: real)
    requires SumsTo(upper, lower) && k < |lower| && p < |upper| && p != k / 2 && delta != 0.0
    ensures !SumsTo(upper[p := upper[p] + delta], lower[k := lower[k] + delta])
  {
    var u, l := upper[p := upper[p] + delta], lower[k := lower[k] + delta];
    assert u[p] != l[2 * p] + Second(l, p);
  }

  /** So does changing none. */
  lemma SumsAfterNoUpdate(upper: seq<real>, lower: seq<real>, k: nat, delta: real)
    requires SumsTo(upper, lower) && k < |lower| && delta != 0.0
    ensures !SumsTo(upper, lower[k := lower[k] + delta])
  {
    var l := lower[k := lower[k] + delta];
    assert upper[k / 2] != l[2 * (k / 2)] + Second(l, k / 2);
  }

  /** Draws by linear search: the first outcome whose prefix exceeds `x`. */
  method LinearSearch(w: seq<real>, x: real) returns (j: nat)
    requires 0.0 <= x < Prefix(w, |w|)
    ensures 1 <= j <= |w| && x < Prefix(w, j) && forall i :: 0 <= i < j ==> Prefix(w, i) <= x
  {
    j := 1;
    while x >= Prefix(w, j)
      invariant 1 <= j <= |w|
      invariant forall i :: 0 <= i < j ==> Prefix(w, i) <= x
      decreases |w| - j
    {
      j := j + 1;
    }
  }

  /** A draw `x` from the unit interval, scaled to the total weight. */
  function Scale(total: real, x: real): real {
    total * x
  }

  /** A random number from 0 to 1 is scaled to one that some outcome's share holds. */
  lemma ScaleInRange(total: real, x: real)
    requires 0.0 < total && 0.0 <= x < 1.0
    ensures 0.0 <= Scale(total, x) == total * x < total
  {
    assert total - total * x == total * (1.0 - x);
  }

  ghost predicate NonNegative(w: seq<real>) {
    forall i :: 0 <= i < |w| ==> w[i] >= 0.0
  }

  lemma {:induction false} PrefixMonotone(w: seq<real>, i: nat, j: nat)
    requires NonNegative(w) && i <= j <= |w|
    ensures Prefix(w, i) <= Prefix(w, j)
  {
    if i < j {
      PrefixMonotone(w, i, j - 1);
    }
  }

  /** With weights that are not negative, only one outcome's share holds `x`. */
  lemma OneShare(w: seq<real>, x: real, i: nat, j: nat)
    requires NonNegative(w) && 1 <= i <= |w| && 1 <= j <= |w|
    requires Prefix(w, i - 1) <= x < Prefix(w, i) && Prefix(w, j - 1) <= x < Prefix(w, j)
    ensures i == j
  {
    if i < j {
      PrefixMonotone(w, i, j - 1);
    } else if j < i {
      PrefixMonotone(w, j, i - 1);
    }
  }

  /** Array1's index: 1 for the first cell, -1 for the last; -1 stands for raising. */
  function Index(size: nat, j: int): (r: int)
    ensures -1 <= r < size
  {
    if 0 < j <= size then j - 1 else if j < 0 && 0 <= size + j then size + j else -1
  }

  /** Cell `k` has two positions, k + 1 and k less the size; no other position has a cell. */
  lemma IndexExactly(size: nat, j: int, k: nat)
    ensures Index(size, j) == k <==> k < size && (j == k + 1 || j == k - size)
  {
  }

  /** Integer division of Ripe, which truncates. */
  function Halve(j: int): int {
    if j >= 0 then j / 2 else -(-j / 2)
  }

  ghost predicate Zero(w: seq<real>) {
    forall i :: 0 <= i < |w| ==> w[i] == 0.0
  }

  lemma ZeroSums(upper: seq<real>, lower: seq<real>)
    requires Zero(upper) && Zero(lower) && |upper| == (|lower| + 1) / 2
    ensures SumsTo(upper, lower)
  {
  }

  lemma NewIsZero(a: array<real>)
    requires forall k :: 0 <= k < a.Length ==> a[k] == 0.0
    ensures Zero(a[..])
  {
  }

  ghost predicate LevelChanged(was: seq<real>, now: seq<real>, k: nat, delta: real) {
    k < |was| && now == was[k := was[k] + delta]
  }

  /** Array1 also takes negative positions. Halved, they no longer name the parent cell, as soon as there are two levels:
      no negative `j` leads from a level of `n` cells to the cell above position `j`. */
  lemma NegativeMissesParent(n: nat, j: int)
    requires n >= 3 && j < 0 && 0 <= n + j
    ensures Index((n + 1) / 2, Halve(j + 1)) != Index(n, j) / 2
  {
  }

  lemma {:induction false} Pow2Monotone(m: nat, n: nat)
    requires m <= n
    ensures Pow2(m) <= Pow2(n)
    decreases n - m
  {
    if m < n {
      Pow2Monotone(m + 1, n);
    }
  }

  lemma HalfOfQuotient(x: nat, p: nat)
    requires p > 0
    ensures x / p / 2 == x / (2 * p)
  {
    var q := x / p;
    var h, r := q / 2, x % p + q % 2 * p;
    assert x == q * p + x % p;
    assert q * p == 2 * h * p + q % 2 * p;
    assert x == h * (2 * p) + r && 0 <= r < 2 * p;
    DivIs(x, 2 * p, h);
  }

  lemma TwoOrMore(x: int, p: int)
    requires p > 0
    ensures x / p >= 2 <==> 2 * p <= x
  {
    var q := x / p;
    assert x == p * q + x % p;
    if q >= 2 {
      assert p * (q - 2) >= 0;
    } else {
      assert p * (1 - q) >= 0;
    }
  }

  // ----- a change on its way up the levels -----

  ghost predicate AllSum(levels: seq<seq<real>>) {
    forall i :: 1 <= i < |levels| ==> SumsTo(levels[i - 1], levels[i])
  }

  /** Each level has half as many cells as the one below it, rounded up, down to two. */
  ghost predicate HalvedSizes(levels: seq<seq<real>>) {
    && (forall i :: 0 <= i < |levels| ==> |levels[i]| >= if i == 0 then 2 else 3)
    && (forall i :: 1 <= i < |levels| ==> |levels[i - 1]| == (|levels[i]| + 1) / 2)
  }

  lemma {:induction false} SizesAreHalved(levels: seq<seq<real>>, n: nat)
    requires AllSum(levels) && n <= |levels| && (levels != [] ==> |levels[0]| == 2)
    ensures HalvedSizes(levels[..n])
  {
    if n > 0 {
      SizesAreHalved(levels, n - 1);
      if n > 1 {
        assert SumsTo(levels[n - 2], levels[n - 1]);
        assert levels[..n - 1][n - 2] == levels[n - 2];
      }
      hide SumsTo;
      assert forall i :: 0 <= i < n - 1 ==> levels[..n][i] == levels[..n - 1][i];
    }
  }

  /** The levels summed, and one cell of the last has changed. */
  ghost predicate Changed(was: seq<seq<real>>, now: seq<seq<real>>, cell: nat, delta: real) {
    && was != [] && AllSum(was) && |now| == |was|
    && var last := |was| - 1;
       LevelChanged(was[last], now[last], cell, delta) && now == was[last := now[last]]
  }

  /** A positive position: below level `i` the sums hold again, at level `i` cell `jj` has changed, and above it nothing has. */
  ghost predicate Rising(was: seq<seq<real>>, now: seq<seq<real>>, i: nat, jj: int, delta: real) {
    && i < |was| == |now| && AllSum(was)
    && (forall t :: 0 <= t < i ==> now[t] == was[t])
    && 1 <= jj && LevelChanged(was[i], now[i], jj - 1, delta)
    && (forall t :: i < t < |now| ==> SumsTo(now[t - 1], now[t]))
  }

  /** A negative position: the last level's sums are wrong from the first round on. */
  ghost predicate Astray(was: seq<seq<real>>, now: seq<seq<real>>, i: nat, j: int, jj: int, delta: real) {
    && |was| == |now| > i
    && var last := |now| - 1;
       if i < last then !SumsTo(now[last - 1], now[last])
       else
         var cell := Index(|now[last]|, j);
         jj == j && cell != -1 && Changed(was, now, cell, delta)
  }

  /** Where the loop of `set` stands before level `i`. The position it has got to, if negative, is its share of powers of
      two. A change by nothing changes nothing. */
  ghost predicate Underway(was: seq<seq<real>>, now: seq<seq<real>>, i: nat, j: int, jj: int, delta: real) {
    && i < |was| == |now| && AllSum(was)
    && (j > 0 ==> Rising(was, now, i, jj, delta))
    && (j <= 0 ==> jj < 0 && -jj <= |now[i]| && 1 - jj == (1 - j) / Pow2(|now| - 1 - i))
    && (delta == 0.0 ==> now == was)
    && (j <= 0 && delta != 0.0 ==> Astray(was, now, i, j, jj, delta))
  }

  lemma StartsUnderway(was: seq<seq<real>>, now: seq<seq<real>>, j: int, delta: real)
    requires now != []
    requires var cell := Index(|now[|now| - 1]|, j); cell != -1 && Changed(was, now, cell, delta)
    ensures Underway(was, now, |now| - 1, j, j, delta)
  {
    assert Pow2(0) == 1;
    hide SumsTo;
    var last := |was| - 1;
    assert delta == 0.0 ==> now[last] == was[last];
  }

  /** The next position is none exactly if it is 0, for a negative position that is too close to the end. */
  lemma NextPosition(n: nat, jj: int)
    requires n >= 3 && jj < 0 && -jj <= n
    ensures var up := Halve(jj + 1);
      && 1 - up == (1 - jj) / 2 && up <= 0 && -up <= (n + 1) / 2
      && (Index((n + 1) / 2, up) == -1 <==> up == 0)
  {
  }

  /** The position computed for the next level up names the parent of the changed cell. */
  lemma RisingParent(n: nat, jj: int)
    requires 1 <= jj <= n
    ensures Index((n + 1) / 2, Halve(jj + 1)) == (jj - 1) / 2 == Halve(jj + 1) - 1 >= 0
  {
  }

  /** Halving once more. */
  lemma Closer(j: int, jj: int, n: nat)
    requires j <= 0 && 1 - jj == (1 - j) / Pow2(n)
    ensures (1 - jj) / 2 == (1 - j) / Pow2(n + 1)
    ensures (1 - jj) / 2 == 1 ==> 1 - j < 2 * Pow2(n + 1)
  {
    HalfOfQuotient(1 - j, Pow2(n));
    TwoOrMore(1 - j, 2 * Pow2(n));
  }

  /** The levels with one cell written. */
  function Written(levels: seq<seq<real>>, i: nat, cell: nat, value: real): (r: seq<seq<real>>)
    requires i < |levels| && cell < |levels[i]|
    ensures |r| == |levels| && (i < |levels| - 1 ==> r[|r| - 1] == levels[|r| - 1])
  {
    levels[i := levels[i][cell := value]]
  }

  /** One round of the loop. */
  lemma RoundUp(was: seq<seq<real>>, now: seq<seq<real>>, i: nat, cell: nat, j: int, jj: int, delta: real)
    requires i + 1 < |now| && HalvedSizes(now) && Underway(was, now, i + 1, j, jj, delta)
    requires cell == Index(|now[i]|, Halve(jj + 1))
    ensures var next := Written(now, i, cell, now[i][cell] + delta);
      HalvedSizes(next) && Underway(was, next, i, j, Halve(jj + 1), delta)
  {
    var next := Written(now, i, cell, now[i][cell] + delta);
    assert HalvedSizes(next);
    hide SumsTo, Pow2, HalvedSizes;
    assert delta == 0.0 ==> next[i] == now[i];
    if j > 0 {
      RoundRises(was, now, i, cell, jj, delta);
    } else {
      hide Rising;
      assert |now[i]| == (|now[i + 1]| + 1) / 2 && |now[i + 1]| >= 3 by { SizesAt(now, i); }
      NextPosition(|now[i + 1]|, jj);
      Closer(j, jj, |now| - 2 - i);
      if delta != 0.0 {
        RoundAstray(was, now, i, cell, j, jj, delta);
      }
    }
  }

  lemma SizesAt(levels: seq<seq<real>>, i: nat)
    requires HalvedSizes(levels) && i + 1 < |levels|
    ensures |levels[i]| == (|levels[i + 1]| + 1) / 2 && |levels[i + 1]| >= 3
  {
    assert |levels[i + 1 - 1]| == (|levels[i + 1]| + 1) / 2;
  }

  lemma RoundRises(was: seq<seq<real>>, now: seq<seq<real>>, i: nat, cell: nat, jj: int, delta: real)
    requires i + 1 < |now| && HalvedSizes(now) && Rising(was, now, i + 1, jj, delta)
    requires cell == Index(|now[i]|, Halve(jj + 1))
    ensures Rising(was, Written(now, i, cell, now[i][cell] + delta), i, Halve(jj + 1), delta)
  {
    SizesAt(now, i);
    RisingParent(|now[i + 1]|, jj);
    hide Index, Halve, SumsTo, HalvedSizes;
    assert SumsTo(was[i + 1 - 1], was[i + 1]);
    SumsAfterUpdate(was[i], was[i + 1], jj - 1, delta);
  }

  lemma RoundAstray(was: seq<seq<real>>, now: seq<seq<real>>, i: nat, cell: nat, j: int, jj: int, delta: real)
    requires i + 1 < |now| && HalvedSizes(now) && Astray(was, now, i + 1, j, jj, delta) && j <= 0 && delta != 0.0
    requires cell == Index(|now[i]|, Halve(jj + 1))
    ensures Astray(was, Written(now, i, cell, now[i][cell] + delta), i, j, Halve(jj + 1), delta)
  {
    var last := |now| - 1;
    if i + 1 == last {
      var k := Index(|now[last]|, j);
      NegativeMissesParent(|now[last]|, j);
      SumsAfterWrongUpdate(was[i], was[last], k, cell, delta);
    }
  }

  /** The loop's index error. */
  lemma StopsHere(was: seq<seq<real>>, now: seq<seq<real>>, i: nat, j: int, jj: int, delta: real)
    requires i + 1 < |now| && HalvedSizes(now) && Underway(was, now, i + 1, j, jj, delta)
    requires Index(|now[i]|, Halve(jj + 1)) == -1
    ensures j <= 0 && !(Pow2(|now|) <= 1 - j) && (AllSum(now) <==> delta == 0.0)
  {
    var last := |now| - 1;
    hide SumsTo, Pow2;
    if j > 0 {
      RisingParent(|now[i + 1]|, jj);
      assert false;
    }
    NextPosition(|now[i + 1]|, jj);
    Closer(j, jj, last - 1 - i);
    Pow2Monotone(last - i, last);
    assert Pow2(|now|) == 2 * Pow2(last) by { Pow2Next(last); }
    if delta != 0.0 && i + 1 == last {
      SumsAfterNoUpdate(was[last - 1], was[last], Index(|now[last]|, j), delta);
    }
    assert delta != 0.0 ==> !SumsTo(now[last - 1], now[last]);
  }

  lemma Pow2Next(n: nat)
    ensures Pow2(n + 1) == 2 * Pow2(n)
  {
  }

  lemma ReachesTop(was: seq<seq<real>>, now: seq<seq<real>>, j: int, jj: int, delta: real)
    requires now != [] && Underway(was, now, 0, j, jj, delta)
    ensures j > 0 || Pow2(|now|) <= 1 - j
    ensures AllSum(now) <==> j > 0 || |now| == 1 || delta == 0.0
  {
    hide SumsTo;
    var last := |now| - 1;
    if j <= 0 {
      TwoOrMore(1 - j, Pow2(last));
      if delta != 0.0 && last > 0 {
        assert !SumsTo(now[last - 1], now[last]);
      }
    }
  }

  class Sampler {
    var arrays: seq<array<real>>

    ghost function Weights(): seq<real>
      requires arrays != []
      reads this, arrays
    {
      arrays[|arrays| - 1][..]
    }

    ghost function Levels(): seq<seq<real>>
      reads this, arrays
    {
      seq(|arrays|, i requires 0 <= i < |arrays| reads this, arrays => arrays[i][..])
    }

    ghost predicate Separate()
      reads this
    {
      forall i, k :: 0 <= i < k < |arrays| ==> arrays[i] != arrays[k]
    }

    /** The levels have the right sizes, the topmost two cells, and every cell sums its children. */
    ghost predicate Valid()
      reads this, arrays
    {
      && Separate()
      && (arrays != [] ==> arrays[0].Length == 2)
      && Summed()
    }

    ghost predicate Summed()
      reads this, arrays
    {
      forall i :: 0 <= i < |arrays| - 1 ==> SumsTo(arrays[i][..], arrays[i + 1][..])
    }

    /** With one outcome there is no level at all, and every use raises an index error. */
    constructor (n: int)
      requires n >= 1
      ensures Valid()
      ensures forall i :: 0 <= i < |arrays| ==> fresh(arrays[i])
      ensures n == 1 ==> arrays == []
      ensures n > 1 ==> arrays != [] && |Weights()| == n && Zero(Weights())
    {
      hide SumsTo, Zero, Summed;
      var levels: seq<array<real>> := [];
      var m := n;
      while m != 1
        invariant 1 <= m <= n && (n > 1 && m == 1 ==> levels != [])
        invariant forall i, k :: 0 <= i < k < |levels| ==> levels[i] != levels[k]
        invariant forall i :: 0 <= i < |levels| ==> fresh(levels[i]) && levels[i].Length >= 2
        invariant forall i :: 0 <= i < |levels| ==> Zero(levels[i][..])
        invariant forall i :: 0 <= i < |levels| - 1 ==> levels[i + 1].Length == (levels[i].Length + 1) / 2
        invariant levels == [] ==> m == n
        invariant levels != [] ==> levels[0].Length == n && m == (levels[|levels| - 1].Length + 1) / 2
        decreases m
      {
        var arr := new real[m](_ => 0.0);
        NewIsZero(arr);
        levels := levels + [arr];
        m := (m + 1) / 2;
      }
      arrays := seq(|levels|, i requires 0 <= i < |levels| => levels[|levels| - 1 - i]);
      new;
      assert forall i :: 0 <= i < |arrays| ==> arrays[i] == levels[|levels| - 1 - i];
      ZerosSum();
    }

    /** Levels of zeros are sums. */
    lemma ZerosSum()
      requires forall i :: 0 <= i < |arrays| ==> Zero(arrays[i][..])
      requires forall i :: 0 <= i < |arrays| - 1 ==> arrays[i].Length == (arrays[i + 1].Length + 1) / 2
      ensures Summed()
    {
      hide SumsTo, Zero;
      forall i | 0 <= i < |arrays| - 1
        ensures SumsTo(arrays[i][..], arrays[i + 1][..])
      {
        ZeroSums(arrays[i][..], arrays[i + 1][..]);
      }
    }
  
    /** Gives outcome `j` the weight `p`. False stands for the index error raised on the way. A negative position is taken, and
        gives the weight; but with three outcomes or more the levels above then only go on summing if the weight is the one
        that was there, and with a position close to -1 the error is raised halfway up. */
    method Set(j: int, p: real) returns (ok: bool)
      requires Valid()
      modifies arrays
      ensures arrays == [] ==> !ok
      ensures arrays != [] ==>
        var w, cell := old(Weights()), Index(|old(Weights())|, j);
        if cell == -1 then !ok && Valid() && Weights() == w
        else
          && (ok <==> j > 0 || Pow2(|arrays|) <= 1 - j)
          && Weights() == w[cell := p]
          && (Valid() <==> j > 0 || |w| == 2 || p == w[cell])
    {
      if arrays == [] {
        return false;
      }
      Sizes();
      hide SumsTo, Index, Pow2, HalvedSizes, AllSum;
      var last := |arrays| - 1;
      var arrn := arrays[last];
      var idx := Index(arrn.Length, j);
      if idx == -1 {
        return false;
      }
      ghost var was := Levels();
      var delta := p - arrn[idx];
      Write(last, idx, p);
      assert LevelChanged(was[last], Levels()[last], idx, delta);
      ok := Propagate(j, delta, was);
      LevelsSum();
    }

    lemma LevelsSum()
      ensures Summed() <==> AllSum(Levels())
    {
      hide SumsTo;
      var levels := Levels();
      assert forall i :: 0 <= i < |arrays| ==> levels[i] == arrays[i][..];
      forall i | 0 <= i < |arrays| - 1 && AllSum(levels)
        ensures SumsTo(arrays[i][..], arrays[i + 1][..])
      {
        assert levels[i + 1] == arrays[i + 1][..] && levels[i + 1 - 1] == arrays[i][..];
      }
    }

    lemma Sizes()
      requires Valid()
      ensures HalvedSizes(Levels()) && AllSum(Levels())
    {
      LevelsSum();
      SizesAreHalved(Levels(), |arrays|);
      assert Levels()[..|arrays|] == Levels();
    }

    /** The loop of `set` over the levels above the last. */
    method Propagate(j: int, delta: real, ghost was: seq<seq<real>>) returns (ok: bool)
      requires arrays != [] && Separate() && HalvedSizes(Levels())
      requires var last := |arrays| - 1;
        var cell := Index(arrays[last].Length, j);
        cell != -1 && Changed(was, Levels(), cell, delta)
      modifies arrays
      ensures Levels()[|arrays| - 1] == old(Levels()[|arrays| - 1])
      ensures ok <==> j > 0 || Pow2(|arrays|) <= 1 - j
      ensures AllSum(Levels()) <==> j > 0 || |arrays| == 1 || delta == 0.0
    {
      var jj, i := j, |arrays| - 1;
      hide *;
      LevelsAt(i);
      StartsUnderway(was, Levels(), j, delta);
      ghost var now := Levels();
      while i > 0
        invariant 0 <= i < |arrays|
        invariant |now| == |arrays| && now == Levels() && now[|now| - 1] == old(Levels()[|arrays| - 1])
        invariant HalvedSizes(now) && Underway(was, now, i, j, jj, delta)
      {
        ghost var below := jj;
        i := i - 1;
        LevelsAt(i);
        jj := Halve(jj + 1);
        var next := Index(arrays[i].Length, jj);
        if next == -1 {
          StopsHere(was, now, i, j, below, delta);
          return false;
        }
        RoundUp(was, now, i, next, j, below, delta);
        Write(i, next, arrays[i][next] + delta);
        now := Written(now, i, next, now[i][next] + delta);
      }
      ReachesTop(was, now, j, jj, delta);
      return true;
    }

    lemma LevelsAt(i: nat)
      requires i < |arrays|
      ensures |Levels()| == |arrays| && Levels()[i] == arrays[i][..]
    {
    }

    method Write(i: nat, cell: nat, value: real)
      requires i < |arrays| && cell < arrays[i].Length && Separate()
      modifies arrays[i]
      ensures |old(Levels())| == |arrays| && old(Levels())[i] == old(arrays[i][..])
      ensures Levels() == Written(old(Levels()), i, cell, value)
    {
      ghost var was := arrays[i][..];
      arrays[i][cell] := value;
      assert arrays[i][..] == was[cell := value];
      assert forall t :: 0 <= t < |arrays| && t != i ==> arrays[t][..] == old(arrays[t][..]);
    }

    /** Draws an outcome: the share of the interval [0, total) that `x` times the total falls in.
        0 stands for the index error raised when there is no level. */
    method Sample(x: real) returns (b: int)
      requires Valid()
      ensures arrays == [] ==> b == 0
      ensures arrays != [] ==> 1 <= b <= |Weights()|
      ensures arrays != [] ==>
        var w := Weights();
        var total := Prefix(w, |w|);
        0.0 <= Scale(total, x) < total ==> Prefix(w, b - 1) <= Scale(total, x) < Prefix(w, b)
      ensures arrays != [] ==>
        var w := Weights();
        var total := Prefix(w, |w|);
        0.0 < total && 0.0 <= x < 1.0 ==> Prefix(w, b - 1) <= total * x < Prefix(w, b)
    {
      hide SumsTo, Summed, Separate, Scale, Prefix;
      if arrays == [] {
        return 0;
      }
      var a1, a2 := 1, 2;
      b := 1;
      var arr1 := arrays[0];
      PrefixNext(arr1[..], 0);
      var y := Scale(arr1[0] + arr1[1], x);
      ghost var goal := y;
      TotalOfLevels();
      ghost var total := Prefix(Weights(), |Weights()|);
      if 0.0 < total && 0.0 <= x < 1.0 {
        ScaleInRange(total, x);
      }
      var i := 0;
      while i < |arrays|
        invariant 0 <= i <= |arrays| && a1 == 2 * b - 1 && a2 == 2 * b
        invariant i == 0 ==> b == 1 && y == goal
        invariant i > 0 ==> 1 <= b <= arrays[i - 1].Length
        invariant i > 0 && 0.0 <= goal < total ==>
          var level := arrays[i - 1][..];
          Prefix(level, b - 1) + y == goal && 0.0 <= y < level[b - 1]
      {
        var arr := arrays[i];
        ghost var level := arr[..];
        if i > 0 {
          LevelSize(i - 1);
          PrefixOfLevels(arrays[i - 1][..], level, b - 1);
          NodeSum(arrays[i - 1][..], level, b - 1);
        }
        if a2 > arr.Length {
          b := a1;
        } else if y < arr[a1 - 1] {
          b := a1;
        } else {
          y := y - arr[a1 - 1];
          b := a2;
          PrefixNext(level, a1 - 1);
        }
        a1 := 2 * b - 1;
        a2 := 2 * b;
        i := i + 1;
      }
      assert arrays[i - 1][..] == Weights();
      assert 0.0 <= goal < total ==> Prefix(Weights(), b - 1) + y == goal && 0.0 <= y < Weights()[b - 1];
      PrefixNext(Weights(), b - 1);
    }

    lemma LevelSize(i: nat)
      requires Valid() && i < |arrays| - 1
      ensures SumsTo(arrays[i][..], arrays[i + 1][..]) && arrays[i].Length == (arrays[i + 1].Length + 1) / 2
    {
    }

    /** The two topmost cells weigh what all outcomes weigh. */
    lemma TotalOfLevels()
      requires Valid() && arrays != []
      ensures Prefix(Weights(), |Weights()|) == arrays[0][0] + arrays[0][1]
    {
      var i := 0;
      assert Prefix(arrays[0][..], 1) == arrays[0][0];
      while i < |arrays| - 1
        invariant 0 <= i < |arrays|
        invariant Prefix(arrays[i][..], arrays[i].Length) == arrays[0][0] + arrays[0][1]
      {
        PrefixOfLevels(arrays[i][..], arrays[i + 1][..], arrays[i].Length);
        i := i + 1;
      }
    }
  }

  /** An input: three outcomes, and a weight for the first by its negative position. Nothing is raised, and the sums are wrong. */
  method NegativePositionBreaks() returns (s: Sampler, ok: bool)
    ensures ok && !s.Valid() && s.arrays != [] && s.Weights() == [1.0, 0.0, 0.0]
  {
    s := new Sampler(3);
    hide SumsTo;
    assert s.Weights() == [0.0, 0.0, 0.0];
    s.Sizes();
    TwoLevels(s.Levels());
    ok := s.Set(-3, 1.0);
  }

  lemma TwoLevels(levels: seq<seq<real>>)
    requires HalvedSizes(levels) && levels != [] && |levels[0]| == 2 && |levels[|levels| - 1]| == 3
    ensures |levels| == 2 && Pow2(2) == 4
  {
    var last := |levels| - 1;
    if last > 0 {
      assert |levels[last - 1]| == (|levels[last]| + 1) / 2;
    }
  }
}
