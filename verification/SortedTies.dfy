/** What the merge sort promises: order, the same elements, and the exact order of elements that tie. */
module SortedTies {
  import opened MergeSort

  /** A total preorder. */
  ghost predicate TotalPreorder<T(!new)>(leq: (T, T) -> bool) {
    && (forall x, y :: leq(x, y) || leq(y, x))
    && (forall x, y, z :: leq(x, y) && leq(y, z) ==> leq(x, z))
  }

  /** The comparison function answers in keeping with `leq`, whatever it says of elements that tie. */
  ghost predicate Respects<T(!new)>(cmp: (T, T) -> bool, leq: (T, T) -> bool) {
    && TotalPreorder(leq)
    && forall x, y :: if cmp(x, y) then leq(x, y) else leq(y, x)
  }

  /** "Is x smaller than y?", as sort_via! asks: false when they tie. */
  ghost predicate Strict<T(!new)>(cmp: (T, T) -> bool, leq: (T, T) -> bool) {
    TotalPreorder(leq) && forall x, y :: cmp(x, y) <==> !leq(y, x)
  }

  predicate Tie<T>(leq: (T, T) -> bool, x: T, y: T) {
    leq(x, y) && leq(y, x)
  }

  ghost predicate Sorted<T>(leq: (T, T) -> bool, s: seq<T>) {
    forall i, j :: 0 <= i < j < |s| ==> leq(s[i], s[j])
  }

  /** The elements that tie with `x`, in order. */
  function Ties<T>(leq: (T, T) -> bool, s: seq<T>, x: T): seq<T> {
    if s == [] then [] else (if Tie(leq, s[0], x) then [s[0]] else []) + Ties(leq, s[1..], x)
  }

  function Reverse<T>(s: seq<T>): (r: seq<T>) {
    if s == [] then [] else Reverse(s[1..]) + [s[0]]
  }

  // ----- order and elements -----

  lemma {:induction false} MergeElements<T>(cmp: (T, T) -> bool, l: seq<T>, r: seq<T>)
    ensures multiset(Merge(cmp, l, r)) == multiset(l) + multiset(r)
    decreases |l| + |r|
  {
    hide *;
    MergeOnce(cmp, l, r);
    if l != [] && r != [] {
      if cmp(l[0], r[0]) {
        MergeElements(cmp, l[1..], r);
        assert l == [l[0]] + l[1..];
      } else {
        MergeElements(cmp, l, r[1..]);
        assert r == [r[0]] + r[1..];
      }
    }
  }

  lemma MergeOnce<T>(cmp: (T, T) -> bool, l: seq<T>, r: seq<T>)
    ensures Merge(cmp, l, r) ==
      if l == [] then r
      else if r == [] then l
      else if cmp(l[0], r[0]) then [l[0]] + Merge(cmp, l[1..], r)
      else [r[0]] + Merge(cmp, l, r[1..])
  {
  }

  /** How a longer input is sorted, by its two parts. */
  lemma InTwoParts<T>(cmp: (T, T) -> bool, s: seq<T>) returns (l: seq<T>, r: seq<T>)
    requires |s| > 2
    ensures s == l + r && |l| < |s| && |r| < |s|
    ensures Sort(cmp, s) == Merge(cmp, Sort(cmp, l), Sort(cmp, r))
  {
    l, r := s[..LeftPart(|s|)], s[LeftPart(|s|)..];
  }

  lemma {:induction false} SortElements<T>(cmp: (T, T) -> bool, s: seq<T>)
    ensures multiset(Sort(cmp, s)) == multiset(s)
    decreases |s|
  {
    if |s| == 2 {
      assert s == [s[0], s[1]];
    } else if |s| > 2 {
      var l, r := InTwoParts(cmp, s);
      hide *;
      SortElements(cmp, l);
      SortElements(cmp, r);
      MergeElements(cmp, Sort(cmp, l), Sort(cmp, r));
    }
  }

  ghost predicate AllAbove<T>(leq: (T, T) -> bool, x: T, s: seq<T>) {
    forall i :: 0 <= i < |s| ==> leq(x, s[i])
  }

  lemma {:induction false} MergeSorted<T(!new)>(cmp: (T, T) -> bool, leq: (T, T) -> bool, l: seq<T>, r: seq<T>)
    requires Respects(cmp, leq) && Sorted(leq, l) && Sorted(leq, r)
    ensures Sorted(leq, Merge(cmp, l, r))
    ensures forall x :: AllAbove(leq, x, l) && AllAbove(leq, x, r) ==> AllAbove(leq, x, Merge(cmp, l, r))
    decreases |l| + |r|
  {
    if l != [] && r != [] {
      if cmp(l[0], r[0]) {
        MergeSorted(cmp, leq, l[1..], r);
        assert AllAbove(leq, l[0], l[1..]) && AllAbove(leq, l[0], r);
      } else {
        MergeSorted(cmp, leq, l, r[1..]);
        assert AllAbove(leq, r[0], r[1..]) && AllAbove(leq, r[0], l);
      }
    }
  }

  /** The result is in order. */
  lemma {:induction false} SortSorted<T(!new)>(cmp: (T, T) -> bool, leq: (T, T) -> bool, s: seq<T>)
    requires Respects(cmp, leq)
    ensures Sorted(leq, Sort(cmp, s))
    decreases |s|
  {
    if |s| > 2 {
      var l, r := InTwoParts(cmp, s);
      hide *;
      SortSorted(cmp, leq, l);
      SortSorted(cmp, leq, r);
      MergeSorted(cmp, leq, Sort(cmp, l), Sort(cmp, r));
    }
  }

  // ----- ties -----

  /** What one element adds to the elements that tie. */
  function TieOf<T>(leq: (T, T) -> bool, a: T, x: T): seq<T> {
    if Tie(leq, a, x) then [a] else []
  }

  lemma TiesFirst<T>(leq: (T, T) -> bool, a: T, s: seq<T>, x: T)
    ensures Ties(leq, [a] + s, x) == TieOf(leq, a, x) + Ties(leq, s, x)
  {
    assert ([a] + s)[1..] == s;
  }

  lemma NoneTie<T>(leq: (T, T) -> bool, x: T)
    ensures Ties(leq, [], x) == []
  {
  }

  lemma {:induction false} TiesAppend<T>(leq: (T, T) -> bool, s: seq<T>, t: seq<T>, x: T)
    ensures Ties(leq, s + t, x) == Ties(leq, s, x) + Ties(leq, t, x)
  {
    hide *;
    if s == [] {
      NoneTie(leq, x);
      assert s + t == t && [] + Ties(leq, t, x) == Ties(leq, t, x);
    } else {
      var a, rest := s[0], s[1..];
      TiesAppend(leq, rest, t, x);
      TiesFirst(leq, a, rest, x);
      TiesFirst(leq, a, rest + t, x);
      assert s == [a] + rest && s + t == [a] + (rest + t);
    }
  }

  lemma {:induction false} NoTies<T(!new)>(leq: (T, T) -> bool, s: seq<T>, x: T)
    requires forall i :: 0 <= i < |s| ==> !leq(s[i], x)
    ensures Ties(leq, s, x) == []
  {
    if s != [] {
      NoTies(leq, s[1..], x);
    }
  }

  lemma {:induction false} ReverseAppend<T>(s: seq<T>, t: seq<T>)
    ensures Reverse(s + t) == Reverse(t) + Reverse(s)
  {
    if s == [] {
      assert s + t == t;
    } else {
      assert (s + t)[1..] == s[1..] + t;
      ReverseAppend(s[1..], t);
    }
  }

  /** A run taken first contributes its tying elements first. */
  lemma FirstStaysFirst<T>(a: seq<T>, b: seq<T>, c: seq<T>)
    ensures a + (b + c) == (a + b) + c
  {
  }

  /** Elements of the run that is taken later may be taken now, if none of the other run tie. */
  lemma LaterMayGoNow<T>(a: seq<T>, b: seq<T>, c: seq<T>)
    requires a == [] || b == []
    ensures a + (b + c) == b + (a + c)
  {
    assert [] + (b + c) == b + ([] + c);
    assert a + ([] + c) == [] + (a + c);
  }

  lemma StrictlyBefore<T(!new)>(cmp: (T, T) -> bool, leq: (T, T) -> bool, l: seq<T>, r: seq<T>, x: T)
    requires Strict(cmp, leq) && Sorted(leq, r) && l != [] && r != [] && cmp(l[0], r[0])
    ensures TieOf(leq, l[0], x) == [] || Ties(leq, r, x) == []
  {
    if Tie(leq, l[0], x) {
      NoTies(leq, r, x);
    }
  }

  /** A strict comparison takes the right run's tying elements first. */
  lemma {:induction false} MergeTiesStrict<T(!new)>(cmp: (T, T) -> bool, leq: (T, T) -> bool, l: seq<T>, r: seq<T>, x: T)
    requires Strict(cmp, leq) && Sorted(leq, l) && Sorted(leq, r)
    ensures Ties(leq, Merge(cmp, l, r), x) == Ties(leq, r, x) + Ties(leq, l, x)
    decreases |l| + |r|
  {
    if l != [] && r != [] {
      if cmp(l[0], r[0]) {
        var rest := Merge(cmp, l[1..], r);
        assert Merge(cmp, l, r) == [l[0]] + rest;
        StrictlyBefore(cmp, leq, l, r, x);
        hide Merge, Ties, TieOf, Strict;
        MergeTiesStrict(cmp, leq, l[1..], r, x);
        hide *;
        TiesFirst(leq, l[0], rest, x);
        TiesFirst(leq, l[0], l[1..], x);
        assert l == [l[0]] + l[1..];
        LaterMayGoNow(TieOf(leq, l[0], x), Ties(leq, r, x), Ties(leq, l[1..], x));
      } else {
        var rest := Merge(cmp, l, r[1..]);
        assert Merge(cmp, l, r) == [r[0]] + rest;
        hide Merge, Ties, TieOf, Strict;
        MergeTiesStrict(cmp, leq, l, r[1..], x);
        hide *;
        TiesFirst(leq, r[0], rest, x);
        TiesFirst(leq, r[0], r[1..], x);
        assert r == [r[0]] + r[1..];
        FirstStaysFirst(TieOf(leq, r[0], x), Ties(leq, r[1..], x), Ties(leq, l, x));
      }
    }
  }

  lemma StrictlyAfter<T(!new)>(leq: (T, T) -> bool, l: seq<T>, r: seq<T>, x: T)
    requires TotalPreorder(leq) && Sorted(leq, l) && l != [] && r != [] && !leq(l[0], r[0])
    ensures TieOf(leq, r[0], x) == [] || Ties(leq, l, x) == []
  {
    if Tie(leq, r[0], x) {
      NoTies(leq, l, x);
    }
  }

  /** A comparison that says yes to ties takes the left run's first. */
  lemma {:induction false} MergeTiesStable<T(!new)>(leq: (T, T) -> bool, l: seq<T>, r: seq<T>, x: T)
    requires TotalPreorder(leq) && Sorted(leq, l) && Sorted(leq, r)
    ensures Ties(leq, Merge(leq, l, r), x) == Ties(leq, l, x) + Ties(leq, r, x)
    decreases |l| + |r|
  {
    if l != [] && r != [] {
      if leq(l[0], r[0]) {
        var rest := Merge(leq, l[1..], r);
        assert Merge(leq, l, r) == [l[0]] + rest;
        hide Merge, Ties, TieOf, TotalPreorder;
        MergeTiesStable(leq, l[1..], r, x);
        hide *;
        TiesFirst(leq, l[0], rest, x);
        TiesFirst(leq, l[0], l[1..], x);
        assert l == [l[0]] + l[1..];
        FirstStaysFirst(TieOf(leq, l[0], x), Ties(leq, l[1..], x), Ties(leq, r, x));
      } else {
        var rest := Merge(leq, l, r[1..]);
        assert Merge(leq, l, r) == [r[0]] + rest;
        StrictlyAfter(leq, l, r, x);
        hide Merge, Ties, TieOf, TotalPreorder;
        MergeTiesStable(leq, l, r[1..], x);
        hide *;
        TiesFirst(leq, r[0], rest, x);
        TiesFirst(leq, r[0], r[1..], x);
        assert r == [r[0]] + r[1..];
        LaterMayGoNow(TieOf(leq, r[0], x), Ties(leq, l, x), Ties(leq, r[1..], x));
      }
    }
  }

  /** The tying elements of a pair. */
  lemma TiesOfPair<T>(leq: (T, T) -> bool, a: T, b: T, x: T)
    ensures Ties(leq, [a, b], x) == (if Tie(leq, a, x) then [a] else []) + (if Tie(leq, b, x) then [b] else [])
  {
    TiesAppend(leq, [a], [b], x);
    assert [a, b] == [a] + [b];
    assert [a][1..] == [] && [b][1..] == [];
  }

  lemma FewReversed<T>(leq: (T, T) -> bool, s: seq<T>, x: T)
    requires |s| <= 1
    ensures Ties(leq, s, x) == Reverse(Ties(leq, s, x))
  {
    if s != [] {
      assert s[1..] == [];
      assert Reverse([s[0]]) == [s[0]];
    }
  }

  lemma StrictRespects<T(!new)>(cmp: (T, T) -> bool, leq: (T, T) -> bool)
    requires Strict(cmp, leq)
    ensures Respects(cmp, leq)
  {
  }

  lemma PairReversed<T(!new)>(cmp: (T, T) -> bool, leq: (T, T) -> bool, s: seq<T>, x: T)
    requires |s| == 2 && Strict(cmp, leq)
    ensures Ties(leq, Sort(cmp, s), x) == Reverse(Ties(leq, s, x))
  {
    var a, b := s[0], s[1];
    assert s == [a, b];
    TiesOfPair(leq, a, b, x);
    TiesOfPair(leq, b, a, x);
    hide Ties;
    assert Reverse([a]) == [a] && Reverse([b]) == [b];
    assert Reverse([a, b]) == [b, a] by { ReverseAppend([a], [b]); assert [a, b] == [a] + [b]; }
  }

  lemma PairKept<T(!new)>(leq: (T, T) -> bool, s: seq<T>, x: T)
    requires |s| == 2 && TotalPreorder(leq)
    ensures Ties(leq, Sort(leq, s), x) == Ties(leq, s, x)
  {
    var a, b := s[0], s[1];
    assert s == [a, b];
    TiesOfPair(leq, a, b, x);
    TiesOfPair(leq, b, a, x);
    hide Ties;
  }

  /** With the strict comparison the documentation asks for, elements that tie come out in exactly reversed order. */
  lemma {:induction false} TiesReversed<T(!new)>(cmp: (T, T) -> bool, leq: (T, T) -> bool, s: seq<T>, x: T)
    requires Strict(cmp, leq)
    ensures Ties(leq, Sort(cmp, s), x) == Reverse(Ties(leq, s, x))
    decreases |s|
  {
    if |s| <= 1 {
      FewReversed(leq, s, x);
    } else if |s| == 2 {
      PairReversed(cmp, leq, s, x);
    } else {
      var l, r := InTwoParts(cmp, s);
      StrictRespects(cmp, leq);
      hide *;
      TiesReversed(cmp, leq, l, x);
      TiesReversed(cmp, leq, r, x);
      SortSorted(cmp, leq, l);
      SortSorted(cmp, leq, r);
      MergeTiesStrict(cmp, leq, Sort(cmp, l), Sort(cmp, r), x);
      TiesAppend(leq, l, r, x);
      ReverseAppend(Ties(leq, l, x), Ties(leq, r, x));
    }
  }

  /** With "smaller or equal" they keep their order. */
  lemma {:induction false} TiesKept<T(!new)>(leq: (T, T) -> bool, s: seq<T>, x: T)
    requires TotalPreorder(leq)
    ensures Ties(leq, Sort(leq, s), x) == Ties(leq, s, x)
    decreases |s|
  {
    if |s| == 2 {
      PairKept(leq, s, x);
    } else if |s| > 2 {
      var l, r := InTwoParts(leq, s);
      hide Sort, Merge, Ties;
      TiesKept(leq, l, x);
      TiesKept(leq, r, x);
      SortSorted(leq, leq, l);
      SortSorted(leq, leq, r);
      hide *;
      MergeTiesStable(leq, Sort(leq, l), Sort(leq, r), x);
      TiesAppend(leq, l, r, x);
    }
  }
}
