/** Views of arrays in modules/Array1/Array1.rip, one upon another, against slices of slices. */
module Views {
  import opened Options

  /** A range of indexes, open where a bound is missing. */
  datatype Range = Range(start: Option<int>, finish: Option<int>)

  // ----- indexes and slices -----

  /** util_index: the position of an index counted from 1, or from the end if negative; None for an exception. */
  function UtilIndex(idx: int, size: nat): (r: Option<nat>)
    ensures r.Some? ==> r.value < size
  {
    if idx > 0 then if idx > size then None else Some(idx - 1)
    else if idx == 0 || idx + size < 0 then None
    else Some(size + idx)
  }

  /** Position `p` has two indexes, p + 1 and p less the size; no other index has a position. */
  lemma UtilIndexExactly(idx: int, size: nat, p: nat)
    ensures UtilIndex(idx, size) == Some(p) <==> p < size && (idx == p + 1 || idx == p - size)
  {
  }

  predicate GoodIndex(idx: int, size: nat) {
    UtilIndex(idx, size).Some?
  }

  /** Both bounds, where given, are indexes of the array, and the array has elements. */
  predicate GoodRange(r: Range, size: nat) {
    && size > 0
    && (r.start.Some? ==> GoodIndex(r.start.value, size))
    && (r.finish.Some? ==> GoodIndex(r.finish.value, size))
  }

  function First(r: Range, size: nat): (p: nat)
    requires GoodRange(r, size)
    ensures p < size
  {
    if r.start.Some? then UtilIndex(r.start.value, size).value else 0
  }

  function Last(r: Range, size: nat): (p: nat)
    requires GoodRange(r, size)
    ensures p < size
  {
    if r.finish.Some? then UtilIndex(r.finish.value, size).value else size - 1
  }

  /** Array1.slice: ascending, or descending where the range is. */
  function Slice<V>(s: seq<V>, r: Range): (t: seq<V>)
    requires GoodRange(r, |s|)
    ensures |t| > 0
  {
    var a, b := First(r, |s|), Last(r, |s|);
    if a <= b then s[a..b + 1] else seq(a - b + 1, i requires 0 <= i < a - b + 1 => s[a - i])
  }

  /** Position by position: from the first bound on, up or down to the last. */
  lemma SliceExactly<V>(s: seq<V>, a: int, b: int)
    requires 1 <= a <= |s| && 1 <= b <= |s|
    ensures var up, down := Slice(s, Range(Some(a), Some(b))), Slice(s, Range(Some(a - |s| - 1), Some(b - |s| - 1)));
      && up == down && |up| == 1 + (if a <= b then b - a else a - b)
      && forall i :: 0 <= i < |up| ==> up[i] == s[if a <= b then a - 1 + i else a - 1 - i]
    ensures Slice(s, Range(None, Some(b))) == Slice(s, Range(Some(1), Some(b)))
    ensures Slice(s, Range(Some(a), None)) == Slice(s, Range(Some(a), Some(|s|)))
  {
  }

  // ----- views -----

  /** A whole array of `n` elements, or an Array1View over an array or a view. */
  datatype View = Whole(n: nat) | Over(below: View, start: int, size: int, ascending: bool)

  function Size(v: View): int {
    if v.Whole? then v.n else v.size
  }

  /** ArrayUtil.index, which does not check. */
  function ArrayUtilIndex(size: int, idx: int): int {
    if idx > 0 then idx else size + idx + 1
  }

  /** Array1View.new. */
  function NewView(below: View, r: Range): View {
    var start := if r.start.None? then 1 else ArrayUtilIndex(Size(below), r.start.value);
    var finish := if r.finish.None? then Size(below) else ArrayUtilIndex(Size(below), r.finish.value);
    if start > finish then Over(below, start, start - finish + 1, false) else Over(below, start, finish - start + 1, true)
  }

  function MapIndex(v: View, idx: int): int
    requires v.Over?
  {
    var i := ArrayUtilIndex(v.size, idx);
    if v.ascending then v.start + i - 1 else v.start - i + 1
  }

  /** The index that reaches the array at the bottom. */
  function Resolve(v: View, idx: int): int {
    if v.Whole? then idx else Resolve(v.below, MapIndex(v, idx))
  }

  function Bottom(v: View): nat {
    if v.Whole? then v.n else Bottom(v.below)
  }

  /** Array1View.index on an Integer, down to array1_index. */
  function Read<V>(v: View, base: seq<V>, idx: int): Option<V> {
    var p := UtilIndex(Resolve(v, idx), |base|);
    if p.None? then None else Some(base[p.value])
  }

  /** Array1View.index_set; false where array1_index_set raises an exception. */
  method IndexSet<V>(v: View, base: array<V>, idx: int, value: V) returns (ok: bool)
    modifies base
    ensures var p := UtilIndex(Resolve(v, idx), base.Length);
      && ok == p.Some?
      && base[..] == if ok then old(base[..])[p.value := value] else old(base[..])
  {
    var at, w := idx, v;
    while w.Over?
      invariant Resolve(v, idx) == Resolve(w, at)
      decreases w
    {
      at, w := MapIndex(w, at), w.below;
    }
    var p := UtilIndex(at, base.Length);
    if p.Some? {
      base[p.value] := value;
    }
    ok := p.Some?;
  }

  // ----- towers -----

  ghost predicate GoodTower(size: nat, ranges: seq<Range>)
    decreases |ranges|
  {
    ranges == [] || (GoodRange(ranges[0], size) && GoodTower(SliceSize(ranges[0], size), ranges[1..]))
  }

  function SliceSize(r: Range, size: nat): nat
    requires GoodRange(r, size)
  {
    var a, b := First(r, size), Last(r, size);
    if a <= b then b - a + 1 else a - b + 1
  }

  /** Slices of slices. */
  function SliceTower<V>(s: seq<V>, ranges: seq<Range>): seq<V>
    requires GoodTower(|s|, ranges)
    decreases |ranges|
  {
    if ranges == [] then s else SliceTower(Slice(s, ranges[0]), ranges[1..])
  }

  /** Views of views. */
  function ViewTower(v: View, ranges: seq<Range>): View
    decreases |ranges|
  {
    if ranges == [] then v else ViewTower(NewView(v, ranges[0]), ranges[1..])
  }

  /** Position `i` of the slice shows position `Source(...)` of the array. */
  function Source(r: Range, size: nat, i: nat): (p: nat)
    requires GoodRange(r, size) && i < SliceSize(r, size)
    ensures p < size
  {
    if First(r, size) <= Last(r, size) then First(r, size) + i else First(r, size) - i
  }

  /** A view's index and a slice's position meet in the same element below. */
  lemma MapIndexIsSource(below: View, r: Range, size: nat, idx: int)
    requires Size(below) == size && GoodRange(r, size)
    ensures Size(NewView(below, r)) == SliceSize(r, size)
    ensures GoodIndex(idx, SliceSize(r, size)) ==>
      var at := UtilIndex(MapIndex(NewView(below, r), idx), size);
      at == Some(Source(r, size, UtilIndex(idx, SliceSize(r, size)).value))
  {
    var v := NewView(below, r);
    assert v.start == First(r, size) + 1 && v.ascending == (First(r, size) <= Last(r, size));
    assert v.size == SliceSize(r, size);
    hide NewView, First, Last;
  }

  lemma SliceAt<V>(s: seq<V>, r: Range, i: nat)
    requires GoodRange(r, |s|)
    ensures |Slice(s, r)| == SliceSize(r, |s|)
    ensures i < SliceSize(r, |s|) ==> Slice(s, r)[i] == s[Source(r, |s|, i)]
  {
    hide First, Last;
  }

  /** The position in the bottom array that position `i` of the tower shows. */
  function TowerSource(size: nat, ranges: seq<Range>, i: nat): (p: nat)
    requires GoodTower(size, ranges) && i < TowerSize(size, ranges)
    ensures p < size
    decreases |ranges|
  {
    if ranges == [] then i
    else Source(ranges[0], size, TowerSource(SliceSize(ranges[0], size), ranges[1..], i))
  }

  function TowerSize(size: nat, ranges: seq<Range>): nat
    requires GoodTower(size, ranges)
    decreases |ranges|
  {
    if ranges == [] then size else TowerSize(SliceSize(ranges[0], size), ranges[1..])
  }

  lemma {:induction false} SliceTowerAt<V>(s: seq<V>, ranges: seq<Range>, i: nat)
    requires GoodTower(|s|, ranges)
    ensures |SliceTower(s, ranges)| == TowerSize(|s|, ranges)
    ensures i < TowerSize(|s|, ranges) ==> SliceTower(s, ranges)[i] == s[TowerSource(|s|, ranges, i)]
    decreases |ranges|
  {
    if ranges != [] {
      var t := Slice(s, ranges[0]);
      SliceAt(s, ranges[0], 0);
      SliceTowerAt(t, ranges[1..], i);
      if i < TowerSize(|s|, ranges) {
        SliceAt(s, ranges[0], TowerSource(|t|, ranges[1..], i));
      }
    }
  }

  /** Distinct positions show distinct elements. */
  lemma {:induction false} TowerSourceInjective(size: nat, ranges: seq<Range>, i: nat, j: nat)
    requires GoodTower(size, ranges) && i < TowerSize(size, ranges) && j < TowerSize(size, ranges)
    requires TowerSource(size, ranges, i) == TowerSource(size, ranges, j)
    ensures i == j
    decreases |ranges|
  {
    if ranges != [] {
      TowerSourceInjective(SliceSize(ranges[0], size), ranges[1..], i, j);
    }
  }

  /** The view resolves a good index to the element the slice shows. */
  lemma {:induction false} ViewResolves(v: View, ranges: seq<Range>, idx: int)
    requires Size(v) >= 0 && GoodTower(Size(v), ranges) && GoodIndex(idx, TowerSize(Size(v), ranges))
    ensures Size(ViewTower(v, ranges)) == TowerSize(Size(v), ranges)
    ensures exists at: int ::
      && Resolve(ViewTower(v, ranges), idx) == Resolve(v, at)
      && GoodIndex(at, Size(v))
      && UtilIndex(at, Size(v)).value
        == TowerSource(Size(v), ranges, UtilIndex(idx, TowerSize(Size(v), ranges)).value)
    decreases |ranges|
  {
    if ranges == [] {
      assert Resolve(ViewTower(v, ranges), idx) == Resolve(v, idx);
    } else {
      var r := ranges[0];
      var w := NewView(v, r);
      MapIndexIsSource(v, r, Size(v), 1);
      ViewResolves(w, ranges[1..], idx);
      var i := UtilIndex(idx, TowerSize(Size(v), ranges)).value;
      var at: int :| Resolve(ViewTower(w, ranges[1..]), idx) == Resolve(w, at) && GoodIndex(at, Size(w))
        && UtilIndex(at, Size(w)).value == TowerSource(Size(w), ranges[1..], i);
      MapIndexIsSource(v, r, Size(v), at);
      assert Resolve(w, at) == Resolve(v, MapIndex(w, at));
    }
  }

  /** A tower of views reads what the same tower of slices holds, at every index, from either end. */
  lemma ViewsReadSlices<V>(base: seq<V>, ranges: seq<Range>, idx: int)
    requires GoodTower(|base|, ranges) && GoodIndex(idx, |SliceTower(base, ranges)|)
    ensures var t := SliceTower(base, ranges);
      Read(ViewTower(Whole(|base|), ranges), base, idx) == Some(t[UtilIndex(idx, |t|).value])
  {
    SliceTowerAt(base, ranges, 0);
    SliceTowerAt(base, ranges, UtilIndex(idx, |SliceTower(base, ranges)|).value);
    ViewResolves(Whole(|base|), ranges, idx);
  }

  /** Setting an element through the tower sets that element of the slices and no other. */
  lemma ViewsWriteSlices<V>(base: seq<V>, ranges: seq<Range>, idx: int, value: V)
    requires GoodTower(|base|, ranges) && GoodIndex(idx, |SliceTower(base, ranges)|)
    ensures var t := SliceTower(base, ranges);
      var p := UtilIndex(Resolve(ViewTower(Whole(|base|), ranges), idx), |base|);
      && p.Some?
      && SliceTower(base[p.value := value], ranges) == t[UtilIndex(idx, |t|).value := value]
  {
    var t := SliceTower(base, ranges);
    SliceTowerAt(base, ranges, 0);
    var i := UtilIndex(idx, |t|).value;
    ViewResolves(Whole(|base|), ranges, idx);
    var p := UtilIndex(Resolve(ViewTower(Whole(|base|), ranges), idx), |base|);
    assert p == Some(TowerSource(|base|, ranges, i));
    var after := base[p.value := value];
    SliceTowerAt(after, ranges, 0);
    forall j | 0 <= j < |t|
      ensures SliceTower(after, ranges)[j] == t[i := value][j]
    {
      SliceTowerAt(base, ranges, j);
      SliceTowerAt(after, ranges, j);
      if TowerSource(|base|, ranges, i) == TowerSource(|base|, ranges, j) {
        TowerSourceInjective(|base|, ranges, i, j);
      }
    }
  }

  // ----- where views and slices part -----

  /** Array1.index on a slice; None for the exception. */
  function ReadSlice<V>(t: seq<V>, idx: int): Option<V> {
    var p := UtilIndex(idx, |t|);
    if p.None? then None else Some(t[p.value])
  }

  /** A tower of views answers an index as the slices do, exceptions included, if and only if the index is one of theirs or
      leads out of the array at the bottom. */
  lemma ViewsAnswerExactly<V>(base: seq<V>, ranges: seq<Range>, idx: int)
    requires GoodTower(|base|, ranges)
    ensures var t, v := SliceTower(base, ranges), ViewTower(Whole(|base|), ranges);
      Read(v, base, idx) == ReadSlice(t, idx) <==> (GoodIndex(idx, |t|) || !GoodIndex(Resolve(v, idx), |base|))
  {
    if GoodIndex(idx, |SliceTower(base, ranges)|) {
      ViewsReadSlices(base, ranges, idx);
    }
  }

  /** The bad indexes that a view of positions a to b of n elements lets through: those past its end that meet an element; 0,
      which is taken for one past the end; and those before its start, down through the array's own negative indexes. */
  predicate LetThrough(a: int, b: int, n: int, idx: int) {
    var size := if a <= b then b - a + 1 else a - b + 1;
    if a <= b then
      || size < idx <= n - a + 1
      || (idx == 0 && b < n)
      || -b <= idx < -size
      || -b - 1 - n <= idx < -b - 1
    else
      || size < idx <= a
      || a + 2 <= idx <= a + 1 + n
      || (idx == 0 && b > 1)
      || b - 1 - n <= idx < -size
  }

  lemma LetThroughExactly(n: nat, r: Range, idx: int)
    requires GoodRange(r, n)
    ensures var v := NewView(Whole(n), r);
      (!GoodIndex(idx, SliceSize(r, n)) && GoodIndex(Resolve(v, idx), n))
        <==> LetThrough(First(r, n) + 1, Last(r, n) + 1, n, idx)
  {
    var v := NewView(Whole(n), r);
    assert Resolve(v, idx) == MapIndex(v, idx);
    assert v.start == First(r, n) + 1 && v.ascending == (First(r, n) <= Last(r, n)) && v.size == SliceSize(r, n);
    hide NewView, First, Last;
  }

  /** One view answers as the slice, exceptions included, if and only if the index is not one of those. */
  lemma ViewAnswersExactly<V>(base: seq<V>, r: Range, idx: int)
    requires GoodRange(r, |base|)
    ensures Read(NewView(Whole(|base|), r), base, idx) == ReadSlice(Slice(base, r), idx)
      <==> !LetThrough(First(r, |base|) + 1, Last(r, |base|) + 1, |base|, idx)
  {
    var ranges := [r];
    assert ranges[1..] == [] && GoodTower(|base|, ranges);
    assert SliceTower(base, ranges) == Slice(base, r) && ViewTower(Whole(|base|), ranges) == NewView(Whole(|base|), r);
    SliceAt(base, r, 0);
    hide NewView, Slice, SliceTower, ViewTower, First, Last, LetThrough, GoodRange;
    LetThroughExactly(|base|, r, idx);
    ViewsAnswerExactly(base, ranges, idx);
  }

  /** Even a view of the whole array lets indexes through: those that go below it twice. */
  lemma WholeViewExactly<V>(base: seq<V>, idx: int)
    requires base != []
    ensures var n := |base|;
      Read(NewView(Whole(n), Range(None, None)), base, idx) == ReadSlice(base, idx) <==> !(-2 * n - 1 <= idx <= -n - 2)
  {
    var r := Range(None, None);
    assert Slice(base, r) == base;
    ViewAnswersExactly(base, r, idx);
    hide NewView, ReadSlice, Read;
  }

  /** A view of the whole array has the array's size if and only if the array has elements; of an empty array it counts two. */
  lemma WholeViewSize(n: nat)
    ensures var size := Size(NewView(Whole(n), Range(None, None)));
      (size == n <==> n > 0) && (n == 0 ==> size == 2)
  {
  }

  /** A view of the first two elements of five reads the third, where the slice would raise. */
  lemma ViewDoesNotCheck<V>(base: seq<V>)
    requires |base| == 5
    ensures var r := Range(Some(1), Some(2));
      Read(NewView(Whole(5), r), base, 3) == Some(base[2]) && ReadSlice(Slice(base, r), 3) == None
  {
  }
}
