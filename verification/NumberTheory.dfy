/** Primes, and the two facts about them that quadratic probing rests on:
    a prime dividing a product divides a factor, and a non-negative number
    below the prime is determined by its residue. */
module NumberTheory {

  ghost predicate IsPrime(p: int) {
    && 2 <= p
    && forall d :: 2 <= d < p ==> p % d != 0
  }

  ghost predicate Divides(d: int, n: int) {
    exists k :: n == d * k
  }

  lemma ModIsDivides(n: int, d: int)
    requires d > 0
    ensures n % d == 0 <==> Divides(d, n)
  {
    if n % d == 0 {
      assert n == d * (n / d);
    } else if Divides(d, n) {
      var k :| n == d * k;
      var r := n % d;
      assert r == d * (k - n / d);
      SmallMultiple(d, k - n / d);
    }
  }

  /** No multiple of `d` lies strictly between 0 and `d`. */
  lemma SmallMultiple(d: int, k: int)
    requires d > 0
    ensures d * k <= 0 || d <= d * k
    ensures d * k == 0 ==> k == 0
  {
    if k >= 1 {
      assert d * k == d * (k - 1) + d;
      assert d * (k - 1) >= 0;
    } else if k <= -1 {
      assert d * k == d * (k + 1) - d;
      assert d * (k + 1) <= 0;
    }
  }

  /** What division by a positive number gives. */
  lemma DivIs(a: int, m: int, q: int)
    requires m > 0 && q * m <= a < q * m + m
    ensures a / m == q
  {
    var d := a / m;
    assert m * (d - q) == (a - q * m) - a % m;
    SmallMultiple(m, d - q);
    SmallMultiple(m, q - d);
  }

  /** Two numbers with the same residue differ by a multiple. */
  lemma SameResidue(a: int, b: int, m: int)
    requires m > 0
    ensures a % m == b % m <==> Divides(m, a - b)
  {
    if a % m == b % m {
      assert a - b == m * (a / m - b / m);
    } else if Divides(m, a - b) {
      var k :| a - b == m * k;
      var t := a / m - b / m;
      assert a % m - b % m == m * (k - t);
      if a % m >= b % m {
        SmallMultiple(m, k - t);
      } else {
        assert b % m - a % m == m * (t - k);
        SmallMultiple(m, t - k);
      }
    }
  }

  lemma DividesSum(d: int, a: int, b: int)
    requires Divides(d, a) && Divides(d, b)
    ensures Divides(d, a + b) && Divides(d, a - b)
  {
    var j :| a == d * j;
    var k :| b == d * k;
    assert a + b == d * (j + k);
    assert a - b == d * (j - k);
  }

  lemma DividesMultiple(d: int, a: int, b: int)
    requires Divides(d, a)
    ensures Divides(d, a * b)
  {
    var j :| a == d * j;
    assert a * b == d * (j * b);
  }

  /** Euclid's lemma for a factor already below the prime: replace `a` by the
      remainder of `p` modulo `a`, which is smaller and still satisfies the premise. */
  lemma {:induction false} EuclidBelow(p: int, a: int, b: int)
    requires IsPrime(p) && 1 <= a < p
    requires Divides(p, a * b)
    ensures Divides(p, b)
    decreases a
  {
    if a == 1 {
      assert a * b == b;
    } else {
      var q, r := p / a, p % a;
      assert r != 0;
      assert Divides(p, p * b) by { assert p * b == p * b; }
      DividesMultiple(p, a * b, q);
      assert p * b - a * b * q == r * b;
      DividesSum(p, p * b, a * b * q);
      EuclidBelow(p, r, b);
    }
  }

  lemma PositiveBelowNotDivisible(p: int, a: int)
    requires p > 0 && 1 <= a < p
    ensures !Divides(p, a)
  {
    if Divides(p, a) {
      var k :| a == p * k;
      SmallMultiple(p, k);
    }
  }

  /** Distinct roots up to half of an odd prime have squares with distinct residues. */
  lemma SquaresDistinct(p: int, i: int, j: int)
    requires IsPrime(p)
    requires 0 <= j < i && 2 * i < p
    ensures !Divides(p, i * i - j * j)
  {
    if Divides(p, i * i - j * j) {
      assert i * i - j * j == (i - j) * (i + j);
      EuclidBelow(p, i - j, i + j);
      PositiveBelowNotDivisible(p, i + j);
    }
  }

  /** `x` is the square of a unit modulo `p`. */
  ghost predicate NonzeroSquare(x: int, p: int) {
    exists r :: 1 <= r < p && Divides(p, x - r * r)
  }

  function Pow2(n: nat): (r: nat)
    ensures r >= 1
  {
    if n == 0 then 1 else 2 * Pow2(n - 1)
  }
}
