/** The in-place merge sort of modules/Array1/Array1.rip, for any comparison function. */
module MergeSort {
  import opened NumberTheory

  // ----- what the sort computes -----

  function Merge<T>(cmp: (T, T) -> bool, l: seq<T>, r: seq<T>): seq<T>
    decreases |l| + |r|
  {
    if l == [] then r
    else if r == [] then l
    else if cmp(l[0], r[0]) then [l[0]] + Merge(cmp, l[1..], r)
    else [r[0]] + Merge(cmp, l, r[1..])
  }

  /** The length of the left part, (a+b)/2 - a + 1 for any start `a`. */
  function LeftPart(n: nat): nat {
    (n + 1) / 2
  }

  function Sort<T>(cmp: (T, T) -> bool, s: seq<T>): seq<T>
    decreases |s|
  {
    if |s| <= 1 then s
    else if |s| == 2 then if cmp(s[0], s[1]) then s else [s[1], s[0]]
    else Merge(cmp, Sort(cmp, s[..LeftPart(|s|)]), Sort(cmp, s[LeftPart(|s|)..]))
  }

  function CeilLog2(n: nat): nat {
    if n <= 1 then 0 else 1 + CeilLog2(LeftPart(n))
  }

  /** The middle of positions `a` to `b` leaves the larger half, if there is one, on the left. */
  lemma MiddleSplits(a: nat, b: nat)
    requires a <= b
    ensures (a + b) / 2 - a + 1 == LeftPart(b - a + 1)
    ensures 0 <= LeftPart(b - a + 1) - (b - a + 1 - LeftPart(b - a + 1)) <= 1
  {
    assert (a + b) / 2 == a + (b - a) / 2;
  }

  /** The least power of two that is large enough. */
  lemma {:induction false} CeilLog2Exactly(n: nat)
    requires n >= 1
    ensures n <= Pow2(CeilLog2(n))
    ensures n >= 2 ==> CeilLog2(n) >= 1 && Pow2(CeilLog2(n) - 1) < n
  {
    if n >= 2 {
      CeilLog2Exactly(LeftPart(n));
      assert LeftPart(n) == 1 ==> CeilLog2(LeftPart(n)) == 0;
    }
  }

  lemma {:induction false} CeilLog2Monotone(m: nat, n: nat)
    requires m <= n
    ensures CeilLog2(m) <= CeilLog2(n)
  {
    if n > 1 && m > 1 {
      CeilLog2Monotone(LeftPart(m), LeftPart(n));
    }
  }

  /** The comparisons allowed for `n` elements. */
  function Bound(n: nat): nat {
    Times(n, CeilLog2(n))
  }

  function Times(k: nat, c: nat): nat {
    k * c
  }

  lemma BoundOfTwo()
    ensures Bound(2) == 2
  {
    assert CeilLog2(2) == 1;
  }

  lemma TimesMonotone(k: nat, c: nat, d: nat)
    requires c <= d
    ensures Times(k, c) <= Times(k, d)
  {
  }

  lemma TimesSplit(n: nat, h: nat, d: nat)
    requires h <= n
    ensures Times(h, d) + Times(n - h, d) + n == Times(n, 1 + d)
  {
    assert h * d + (n - h) * d == n * d;
  }

  lemma BoundsAddUp(n: nat)
    requires n >= 3
    ensures Bound(LeftPart(n)) + Bound(n - LeftPart(n)) + n <= Bound(n)
  {
    var h := LeftPart(n);
    var d, e := CeilLog2(h), CeilLog2(n - h);
    CeilLog2Monotone(n - h, h);
    assert h <= n && Bound(n) == Times(n, 1 + d) && Bound(h) == Times(h, d) && Bound(n - h) == Times(n - h, e);
    hide *;
    TimesMonotone(n - h, e, d);
    TimesSplit(n, h, d);
  }

  /** The comparisons of the two halves and of one merge, against n times the depth. */
  lemma ComparisonsAddUp(n: nat, left: nat, right: nat, merging: nat)
    requires n >= 3
    requires left <= Bound(LeftPart(n)) && right <= Bound(n - LeftPart(n)) && merging < n
    ensures left + right + merging <= Bound(n)
  {
    BoundsAddUp(n);
    hide *;
  }

  lemma {:induction false} MergeSize<T>(cmp: (T, T) -> bool, l: seq<T>, r: seq<T>)
    ensures |Merge(cmp, l, r)| == |l| + |r|
    decreases |l| + |r|
  {
    if l != [] && r != [] {
      if cmp(l[0], r[0]) { MergeSize(cmp, l[1..], r); } else { MergeSize(cmp, l, r[1..]); }
    }
  }

  lemma {:induction false} SortSize<T>(cmp: (T, T) -> bool, s: seq<T>)
    ensures |Sort(cmp, s)| == |s|
    decreases |s|
  {
    if |s| > 2 {
      var h := LeftPart(|s|);
      SortSize(cmp, s[..h]);
      SortSize(cmp, s[h..]);
      MergeSize(cmp, Sort(cmp, s[..h]), Sort(cmp, s[h..]));
    }
  }

  // ----- the sort in place -----

  lemma MergeTakesLeft<T>(cmp: (T, T) -> bool, done: seq<T>, l: seq<T>, r: seq<T>)
    requires l != [] && r != [] && cmp(l[0], r[0])
    ensures done + Merge(cmp, l, r) == (done + [l[0]]) + Merge(cmp, l[1..], r)
  {
  }

  lemma MergeTakesRight<T>(cmp: (T, T) -> bool, done: seq<T>, l: seq<T>, r: seq<T>)
    requires l != [] && r != [] && !cmp(l[0], r[0])
    ensures done + Merge(cmp, l, r) == (done + [r[0]]) + Merge(cmp, l, r[1..])
  {
  }

  lemma MergeEnd<T>(cmp: (T, T) -> bool, l: seq<T>, r: seq<T>)
    ensures l == [] ==> Merge(cmp, l, r) == r
    ensures r == [] ==> Merge(cmp, l, r) == l
  {
  }

  lemma SortHalves<T>(cmp: (T, T) -> bool, s: seq<T>)
    requires |s| > 2
    ensures var l, r := s[..LeftPart(|s|)], s[LeftPart(|s|)..];
      && Sort(cmp, s) == Merge(cmp, Sort(cmp, l), Sort(cmp, r))
      && |Sort(cmp, l)| == |l| && |Sort(cmp, r)| == |r|
  {
    SortSize(cmp, s[..LeftPart(|s|)]);
    SortSize(cmp, s[LeftPart(|s|)..]);
  }

  /** Nothing outside positions a..b differs. */
  ghost predicate Outside<T>(now: seq<T>, was: seq<T>, a: nat, b: nat) {
    && |now| == |was| && a <= b < |was|
    && forall i :: 0 <= i < |was| && (i < a || b < i) ==> now[i] == was[i]
  }

  /** Appends arr[from..to] to what tmp holds in its first `t` cells. */
  method Drain<T>(arr: array<T>, from: nat, to: nat, tmp: array<T>, t: nat)
    requires from <= to <= arr.Length && t + (to - from) <= tmp.Length && arr != tmp
    modifies tmp
    ensures tmp[..t + (to - from)] == old(tmp[..t]) + arr[from..to]
    ensures forall i :: t + (to - from) <= i < tmp.Length ==> tmp[i] == old(tmp[i])
  {
    var i := from;
    while i < to
      invariant from <= i <= to
      invariant tmp[..t + (i - from)] == old(tmp[..t]) + arr[from..i]
      invariant forall i :: t + (to - from) <= i < tmp.Length ==> tmp[i] == old(tmp[i])
    {
      ghost var done := tmp[..t + (i - from)];
      tmp[t + (i - from)] := arr[i];
      i := i + 1;
      assert tmp[..t + (i - from)] == done + [arr[i - 1]];
    }
  }

  /** One run is used up: appends what is left of the other. */
  method DrainRest<T>(arr: array<T>, left: nat, middle: nat, right: nat, b: nat, tmp: array<T>, t: nat)
    requires left <= middle + 1 <= right <= b + 1 <= arr.Length && arr != tmp
    requires left == middle + 1 || right == b + 1
    requires t + (middle + 1 - left) + (b + 1 - right) <= tmp.Length
    modifies tmp
    ensures tmp[..t + (middle + 1 - left) + (b + 1 - right)]
      == old(tmp[..t]) + (if left > middle then arr[right..b + 1] else arr[left..middle + 1])
    ensures forall i :: t + (middle + 1 - left) + (b + 1 - right) <= i < tmp.Length ==> tmp[i] == old(tmp[i])
  {
    if left > middle {
      // Finished with left.
      Drain(arr, right, b + 1, tmp, t);
    } else {
      // Finished with right.
      Drain(arr, left, middle + 1, tmp, t);
    }
  }

  /** The loop of the merging step: merges the runs arr[a..middle] and arr[middle+1..b] into tmp. */
  method MergeInto<T>(arr: array<T>, a: nat, middle: nat, b: nat, tmp: array<T>, cmp: (T, T) -> bool)
    returns (ghost comparisons: nat)
    requires a <= middle < b < arr.Length && b - a < tmp.Length && arr != tmp
    modifies tmp
    ensures tmp[..b - a + 1] == Merge(cmp, arr[a..middle + 1], arr[middle + 1..b + 1])
    ensures Outside(tmp[..], old(tmp[..]), 0, b - a)
    ensures comparisons <= b - a
  {
    hide Merge;
    var left, right, t := a, middle + 1, 0;
    ghost var l, r, done := arr[a..middle + 1], arr[middle + 1..b + 1], [];
    ghost var goal := Merge(cmp, l, r);
    comparisons := 0;
    while left <= middle && right <= b
      invariant a <= left <= middle + 1 <= right <= b + 1
      invariant t == left - a + (right - middle - 1)
      invariant comparisons == t && (left <= middle || right <= b)
      invariant Outside(tmp[..], old(tmp[..]), 0, b - a)
      invariant tmp[..t] == done
      invariant l == arr[left..middle + 1] && r == arr[right..b + 1]
      invariant done + Merge(cmp, l, r) == goal
      decreases b - a + 1 - t
    {
      if cmp(arr[left], arr[right]) {
        MergeTakesLeft(cmp, done, l, r);
        tmp[t] := arr[left];
        left, done, l := left + 1, done + [l[0]], l[1..];
      } else {
        MergeTakesRight(cmp, done, l, r);
        tmp[t] := arr[right];
        right, done, r := right + 1, done + [r[0]], r[1..];
      }
      t := t + 1;
      comparisons := comparisons + 1;
    }
    MergeEnd(cmp, l, r);
    DrainRest(arr, left, middle, right, b, tmp, t);
  }

  /** Copies the first b-a+1 elements of tmp over arr[a..b]. */
  method CopyBack<T>(arr: array<T>, a: nat, b: nat, tmp: array<T>)
    requires a <= b < arr.Length && b - a < tmp.Length && arr != tmp
    modifies arr
    ensures Outside(arr[..], old(arr[..]), a, b)
    ensures arr[a..b + 1] == tmp[..b - a + 1]
  {
    var sz := b - a + 1;
    for t := 0 to sz
      invariant forall i :: 0 <= i < arr.Length && (i < a || b < i) ==> arr[i] == old(arr[i])
      invariant arr[a..a + t] == tmp[..t]
    {
      arr[a + t] := tmp[t];
      assert tmp[..t + 1] == tmp[..t] + [tmp[t]];
      assert arr[a..a + t + 1] == arr[a..a + t] + [arr[a + t]];
    }
  }

  /** merge_sort2: sorts arr[a..b] in place, touches nothing else of arr and only the first b-a+1 cells of tmp, and calls
      the comparison function at most n*ceil(log2 n) times. */
  method MergeSort2<T>(arr: array<T>, a: nat, b: nat, tmp: array<T>, cmp: (T, T) -> bool) returns (ghost comparisons: nat)
    requires a <= b < arr.Length && b - a < tmp.Length && arr != tmp
    modifies arr, tmp
    ensures Outside(arr[..], old(arr[..]), a, b)
    ensures arr[a..b + 1] == Sort(cmp, old(arr[a..b + 1]))
    ensures Outside(tmp[..], old(tmp[..]), 0, b - a)
    ensures comparisons <= Bound(b - a + 1)
    decreases b - a, 2
  {
    hide Bound;
    BoundOfTwo();
    if a == b {
      return 0;
    }
    if b == a + 1 {
      SwapUnless(arr, a, cmp);
      return 1;
    }
    hide Sort;
    comparisons := SortByHalves(arr, a, b, tmp, cmp);
  }

  /** The case of three elements or more. */
  method SortByHalves<T>(arr: array<T>, a: nat, b: nat, tmp: array<T>, cmp: (T, T) -> bool) returns (ghost comparisons: nat)
    requires a + 1 < b < arr.Length && b - a < tmp.Length && arr != tmp
    modifies arr, tmp
    ensures Outside(arr[..], old(arr[..]), a, b)
    ensures arr[a..b + 1] == Sort(cmp, old(arr[a..b + 1]))
    ensures Outside(tmp[..], old(tmp[..]), 0, b - a)
    ensures comparisons <= Bound(b - a + 1)
    decreases b - a, 0
  {
    var middle := (a + b) / 2;
    ghost var s := arr[a..b + 1];
    ghost var l, r := s[..LeftPart(|s|)], s[LeftPart(|s|)..];
    SortHalves(cmp, s);
    ghost var c := SortRuns(arr, a, middle, b, tmp, cmp, l, r);
    hide Sort, Merge, LeftPart, Bound;
    ghost var d := MergeRuns(arr, a, middle, b, tmp, cmp, Sort(cmp, l), Sort(cmp, r));
    return c + d;
  }

  /** The merging step: the two sorted runs merged into tmp and copied back. */
  method MergeRuns<T>(arr: array<T>, a: nat, middle: nat, b: nat, tmp: array<T>, cmp: (T, T) -> bool, ghost l: seq<T>, ghost r: seq<T>)
    returns (ghost comparisons: nat)
    requires a <= middle < b < arr.Length && b - a < tmp.Length && arr != tmp
    requires l == arr[a..middle + 1] && r == arr[middle + 1..b + 1]
    modifies arr, tmp
    ensures Outside(arr[..], old(arr[..]), a, b)
    ensures arr[a..b + 1] == Merge(cmp, l, r)
    ensures Outside(tmp[..], old(tmp[..]), 0, b - a)
    ensures comparisons <= b - a
  {
    hide Merge;
    comparisons := MergeInto(arr, a, middle, b, tmp, cmp);
    CopyBack(arr, a, b, tmp);
  }

  /** The two recursive calls. */
  method SortRuns<T>(arr: array<T>, a: nat, middle: nat, b: nat, tmp: array<T>, cmp: (T, T) -> bool, ghost l: seq<T>, ghost r: seq<T>)
    returns (ghost comparisons: nat)
    requires a + 1 < b < arr.Length && b - a < tmp.Length && arr != tmp && middle == (a + b) / 2
    requires l == arr[a..b + 1][..LeftPart(b - a + 1)] && r == arr[a..b + 1][LeftPart(b - a + 1)..]
    modifies arr, tmp
    ensures Outside(arr[..], old(arr[..]), a, b)
    ensures arr[a..middle + 1] == Sort(cmp, l) && arr[middle + 1..b + 1] == Sort(cmp, r)
    ensures Outside(tmp[..], old(tmp[..]), 0, b - a)
    ensures comparisons + (b - a) <= Bound(b - a + 1)
    decreases b - a, -1
  {
    hide Sort, Bound;
    ghost var u := arr[..];
    assert arr[a..middle + 1] == l && arr[middle + 1..b + 1] == r;
    ghost var c0 := MergeSort2(arr, a, middle, tmp, cmp);
    ghost var v := arr[..];
    assert v[middle + 1..b + 1] == u[middle + 1..b + 1];
    ghost var c1 := MergeSort2(arr, middle + 1, b, tmp, cmp);
    assert arr[..][a..middle + 1] == v[a..middle + 1];
    ComparisonsAddUp(b - a + 1, c0, c1, b - a);
    comparisons := c0 + c1;
  }

  /** Two elements are put in order by one comparison. */
  method SwapUnless<T>(arr: array<T>, a: nat, cmp: (T, T) -> bool)
    requires a + 1 < arr.Length
    modifies arr
    ensures Outside(arr[..], old(arr[..]), a, a + 1)
    ensures arr[a..a + 2] == Sort(cmp, old(arr[a..a + 2]))
  {
    var b := a + 1;
    if cmp(arr[a], arr[b]) {
      return;
    }
    var t := arr[b];
    arr[b] := arr[a];
    arr[a] := t;
  }

  /** sort! and sort_via!. */
  method SortInPlace<T(0)>(data: array<T>, cmp: (T, T) -> bool) returns (ghost comparisons: nat)
    modifies data
    ensures data[..] == Sort(cmp, old(data[..]))
    ensures comparisons <= Bound(data.Length)
  {
    hide Bound;
    var sz := data.Length;
    if sz < 2 {
      return 0;
    }
    var tmp := new T[sz];
    assert data[0..sz] == data[..];
    comparisons := MergeSort2(data, 0, sz - 1, tmp, cmp);
    assert data[0..sz] == data[..];
  }
}
