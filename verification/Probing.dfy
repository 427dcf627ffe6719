/** Quadratic probing: the slots `(h + i*i) % p`, computed in 64-bit unsigned arithmetic,
    that the hash tables of vm/builtin/HashTable.c and clib/dict.c visit for a hash `h`. */
module Probing {
  import opened NumberTheory

  const WORD: nat := 0x1_0000_0000_0000_0000

  /** The slot visited at step `i`. The sum wraps at 64 bits before it is reduced. */
  function Place(h: nat, i: nat, p: nat): (slot: nat)
    requires 0 < p
    ensures slot < p
  {
    (h + i * i) % WORD % p
  }

  /** Every slot the probe for `h` can visit in a table of `p` slots. */
  ghost function ProbeSlots(h: nat, p: nat): set<nat>
    requires 0 < p
  {
    set i: nat | i < p :: Place(h, i, p)
  }

  lemma SubsetSize<T>(a: set<T>, b: set<T>)
    requires a <= b
    ensures |a| <= |b|
    ensures |a| == |b| ==> a == b
  {
    assert b == a + (b - a);
    assert |b| == |a| + |b - a|;
  }

  lemma SquareMonotone(i: nat, j: nat)
    requires i <= j
    ensures i * i <= j * j
  {
    assert j * j - i * i == (j - i) * (j + i);
  }

  lemma MirrorSquare(p: nat, i: nat)
    requires i <= p
    ensures Divides(p, (p - i) * (p - i) - i * i)
  {
    assert (p - i) * (p - i) - i * i == p * (p - 2 * i);
  }

  lemma HomePlace(h: nat, p: nat)
    requires h < p <= WORD
    ensures Place(h, 0, p) == h
  {
    assert 0 * 0 == 0;
    assert h % WORD % p == h by {
      assert h % WORD == h;
    }
  }

  /** The slot `c + i*i` falls in when the sum is a plain integer. */
  function Slot(c: int, i: nat, p: nat): (slot: nat)
    requires 0 < p
  {
    (c + i * i) % p
  }

  /** Half of an odd number, rounded down. */
  function Half(p: nat): nat
    requires p % 2 == 1
  {
    (p - 1) / 2
  }

  /** The walk does not wrap at step `i`. */
  predicate Unwrapped(h: nat, i: nat) {
    h + i * i < WORD
  }

  lemma UnwrappedBelow(h: nat, i: nat, j: nat)
    requires i <= j && Unwrapped(h, j)
    ensures Unwrapped(h, i)
  {
    SquareMonotone(i, j);
  }

  /** A table's size fits 32 bits, so no square of a step exceeds a word and the sum wraps at most once. */
  lemma PlaceIsSlot(h: nat, i: nat, p: nat)
    requires 0 < p && i < p <= 0x1_0000_0000 && h < WORD
    ensures Place(h, i, p) == if Unwrapped(h, i) then Slot(h, i, p) else Slot(h - WORD, i, p)
  {
    SquareMonotone(i, 0x1_0000_0000);
  }

  lemma SameSlot(c: int, d: int, p: nat, i: nat, j: nat)
    requires 0 < p
    ensures Slot(c, i, p) == Slot(d, j, p) <==> Divides(p, c - d + (i * i - j * j))
  {
    SameResidue(c + i * i, d + j * j, p);
    assert c + i * i - (d + j * j) == c - d + (i * i - j * j);
  }

  lemma NegatedDivides(d: int, n: int)
    requires Divides(d, n)
    ensures Divides(d, -n)
  {
    var k :| n == d * k;
    assert -n == d * (-k);
  }

  /** Distinct roots up to (p-1)/2 reach distinct slots. */
  lemma SlotsDistinct(c: int, p: nat, i: nat, j: nat)
    requires IsPrime(p) && 2 * i < p && 2 * j < p
    requires Slot(c, i, p) == Slot(c, j, p)
    ensures i == j
  {
    SameSlot(c, c, p, i, j);
    if j < i {
      SquaresDistinct(p, i, j);
    } else if i < j {
      NegatedDivides(p, i * i - j * j);
      SquaresDistinct(p, j, i);
    }
  }

  /** A root and its mirror image reach the same slot. */
  lemma SlotMirror(c: int, p: nat, i: nat)
    requires 0 < p && i <= p
    ensures Slot(c, p - i, p) == Slot(c, i, p)
  {
    SameSlot(c, c, p, p - i, i);
    MirrorSquare(p, i);
  }

  /** The slots reached by `n` consecutive roots. */
  ghost function RootSlots(c: int, p: nat, from: nat, n: nat): set<nat>
    requires 0 < p
  {
    set r: nat | from <= r < from + n :: Slot(c, r, p)
  }

  lemma {:induction false} RootSlotsSize(c: int, p: nat, from: nat, n: nat)
    requires IsPrime(p) && 2 * (from + n) < p + 2
    ensures |RootSlots(c, p, from, n)| == n
  {
    hide Slot;
    if n > 0 {
      RootSlotsSize(c, p, from, n - 1);
      var last := from + n - 1;
      if r: nat :| from <= r < last && Slot(c, r, p) == Slot(c, last, p) {
        SlotsDistinct(c, p, r, last);
      }
      assert RootSlots(c, p, from, n) == RootSlots(c, p, from, n - 1) + {Slot(c, last, p)};
    }
  }

  /** A size the tables use: an odd prime below 2^32. */
  ghost predicate TableSize(p: nat) {
    IsPrime(p) && p % 2 == 1 && p <= 0x1_0000_0000
  }

  /** Probe totality: when the sum does not wrap in the first half of the walk, the walk
      reaches at least (p+1)/2 slots. */
  lemma UnwrappedCoverage(h: nat, p: nat)
    requires TableSize(p) && h < WORD && Unwrapped(h, Half(p))
    ensures |ProbeSlots(h, p)| >= Half(p) + 1
  {
    var first := RootSlots(h, p, 0, Half(p) + 1);
    RootSlotsSize(h, p, 0, Half(p) + 1);
    forall i: nat | 0 <= i < 0 + (Half(p) + 1)
      ensures Slot(h, i, p) in ProbeSlots(h, p)
    {
      UnwrappedBelow(h, i, Half(p));
      PlaceIsSlot(h, i, p);
      assert Place(h, i, p) in ProbeSlots(h, p);
    }
    SubsetSize(first, ProbeSlots(h, p));
  }

  /** ... and exactly (p+1)/2 when it never wraps: the squares modulo an odd prime. */
  lemma UnwrappedExactCoverage(h: nat, p: nat)
    requires TableSize(p) && h < WORD && Unwrapped(h, p - 1)
    ensures |ProbeSlots(h, p)| == Half(p) + 1
  {
    hide Slot, Place, Unwrapped;
    UnwrappedBelow(h, Half(p), p - 1);
    UnwrappedCoverage(h, p);
    var first := RootSlots(h, p, 0, Half(p) + 1);
    RootSlotsSize(h, p, 0, Half(p) + 1);
    forall i: nat | i < p
      ensures Place(h, i, p) in first
    {
      UnwrappedBelow(h, i, p - 1);
      PlaceIsSlot(h, i, p);
      var r := if i <= Half(p) then i else p - i;
      SlotMirror(h, p, r);
      assert Slot(h, r, p) in first;
    }
    SubsetSize(ProbeSlots(h, p), first);
  }

  /** The second half of a walk that wraps in the first half: the nonzero squares, shifted. */
  ghost function WrappedSlots(h: nat, p: nat): set<nat>
    requires p % 2 == 1
  {
    RootSlots(h - WORD, p, 1, Half(p))
  }

  lemma WrappedStep(h: nat, p: nat, i: nat)
    requires TableSize(p) && h < WORD && i < p && !Unwrapped(h, i)
    ensures Place(h, i, p) in WrappedSlots(h, p)
  {
    PlaceIsSlot(h, i, p);
    var r := if i <= Half(p) then i else p - i;
    SlotMirror(h - WORD, p, r);
    assert Slot(h - WORD, r, p) in WrappedSlots(h, p);
  }

  lemma WrappedSlotsVisited(h: nat, p: nat)
    requires TableSize(p) && h < WORD && !Unwrapped(h, Half(p))
    ensures WrappedSlots(h, p) <= ProbeSlots(h, p)
  {
    forall r: nat {:trigger Slot(h - WORD, r, p)} | 1 <= r < 1 + Half(p)
      ensures Slot(h - WORD, r, p) in ProbeSlots(h, p)
    {
      var i := p - r;
      if Unwrapped(h, i) {
        UnwrappedBelow(h, Half(p), i);
      }
      PlaceIsSlot(h, i, p);
      SlotMirror(h - WORD, p, r);
      assert Place(h, i, p) in ProbeSlots(h, p);
    }
  }

  /** An early step, before the wrap, lands on a slot of the second half of the walk
      exactly when `i*i + 2^64` is a nonzero square modulo `p`. */
  lemma EarlyStep(h: nat, p: nat, i: nat)
    requires TableSize(p) && h < WORD && i < p && Unwrapped(h, i)
    ensures Place(h, i, p) in WrappedSlots(h, p) <==> NonzeroSquare(i * i + WORD, p)
  {
    hide Slot, Place, Unwrapped;
    PlaceIsSlot(h, i, p);
    if Place(h, i, p) in WrappedSlots(h, p) {
      var r: nat :| 1 <= r < 1 + Half(p) && Slot(h - WORD, r, p) == Slot(h, i, p);
      SameSlot(h, h - WORD, p, i, r);
      assert Divides(p, i * i + WORD - r * r);
    }
    if NonzeroSquare(i * i + WORD, p) {
      var r: nat :| 1 <= r < p && Divides(p, i * i + WORD - r * r);
      SameSlot(h, h - WORD, p, i, r);
      SlotMirror(h - WORD, p, r);
      var k := if r <= Half(p) then r else p - r;
      assert Slot(h - WORD, k, p) in WrappedSlots(h, p);
    }
  }

  /** The hashes whose probe covers more than half of the table: the sum does not wrap in the
      first half of the walk, or some step before the wrap lands off the shifted squares. */
  ghost predicate CoversMajority(h: nat, p: nat)
    requires p % 2 == 1
  {
    || Unwrapped(h, Half(p))
    || exists i: nat :: i < p && Unwrapped(h, i) && !NonzeroSquare(i * i + WORD, p)
  }

  /** What any probe reaches: at least (p-1)/2 slots, and one more exactly when `CoversMajority`. */
  lemma Coverage(h: nat, p: nat)
    requires TableSize(p) && h < WORD
    ensures |ProbeSlots(h, p)| >= Half(p)
    ensures |ProbeSlots(h, p)| > Half(p) <==> CoversMajority(h, p)
  {
    hide Slot, Place, Unwrapped;
    if Unwrapped(h, Half(p)) {
      UnwrappedCoverage(h, p);
    } else {
      var late := WrappedSlots(h, p);
      RootSlotsSize(h - WORD, p, 1, Half(p));
      WrappedSlotsVisited(h, p);
      SubsetSize(late, ProbeSlots(h, p));
      if CoversMajority(h, p) {
        var i: nat :| i < p && Unwrapped(h, i) && !NonzeroSquare(i * i + WORD, p);
        EarlyStep(h, p, i);
        assert Place(h, i, p) in ProbeSlots(h, p) && Place(h, i, p) !in late;
      } else {
        forall i: nat | i < p
          ensures Place(h, i, p) in late
        {
          if Unwrapped(h, i) {
            EarlyStep(h, p, i);
          } else {
            WrappedStep(h, p, i);
          }
        }
        assert ProbeSlots(h, p) == late;
      }
    }
  }

  lemma {:induction false} Pow2Add(m: nat, n: nat)
    ensures Pow2(m + n) == Pow2(m) * Pow2(n)
  {
    if m > 0 {
      Pow2Add(m - 1, n);
    }
  }

  lemma Pow2Of32()
    ensures Pow2(32) == 0x1_0000_0000
  {
    assert Pow2(8) == 256;
    Pow2Add(8, 8);
    Pow2Add(16, 16);
  }

  lemma {:induction false} OddPrimeNotInPowerOfTwo(p: nat, n: nat)
    requires IsPrime(p) && p % 2 == 1
    ensures !Divides(p, Pow2(n))
  {
    if n == 0 {
      PositiveBelowNotDivisible(p, 1);
    } else if Divides(p, 2 * Pow2(n - 1)) {
      EuclidBelow(p, 2, Pow2(n - 1));
      OddPrimeNotInPowerOfTwo(p, n - 1);
    }
  }

  /** 2^64 is the square of 2^32, so it is a nonzero square modulo every odd prime. */
  lemma WordIsSquare(p: nat)
    requires IsPrime(p) && p % 2 == 1
    ensures NonzeroSquare(WORD, p)
  {
    hide Pow2;
    var root := 0x1_0000_0000;
    Pow2Of32();
    OddPrimeNotInPowerOfTwo(p, 32);
    var q, s := root / p, root % p;
    ModIsDivides(root, p);
    DifferenceOfSquares(p, root, s, q);
  }

  lemma DifferenceOfSquares(p: nat, a: int, s: int, q: int)
    requires a - s == p * q
    ensures Divides(p, a * a - s * s)
  {
    assert a * a - s * s == (p * q) * (a + s);
    assert (p * q) * (a + s) == p * (q * (a + s));
  }

  /** The largest hash, that of the integer key -1, never covers a majority: its only step before
      the wrap is the first, and 2^64 is itself a square. */
  lemma MinusOneNeverCovers(p: nat)
    requires TableSize(p)
    ensures !CoversMajority(WORD - 1, p)
  {
    WordIsSquare(p);
    PrimeAtLeastThree(p);
    SquareMonotone(1, Half(p));
    forall i: nat | i < p && Unwrapped(WORD - 1, i)
      ensures NonzeroSquare(i * i + WORD, p)
    {
      if i >= 1 {
        SquareMonotone(1, i);
      }
    }
  }

  lemma PrimeAtLeastThree(p: nat)
    requires TableSize(p)
    ensures p >= 3 && Half(p) >= 1
  {
  }
}
