/** Greatest common divisors, by their two defining halves: a common divisor that is a
    combination of the operands. */
module GcdLaws {
  import opened Arith
  import opened Bitwise

  ghost predicate DividesBy(d: int, x: int, q: int) {
    x == q * d
  }

  ghost predicate Divides(d: int, x: int) {
    exists q: int :: DividesBy(d, x, q)
  }

  ghost predicate Combines(g: int, u: int, v: int, x: int, y: int) {
    g == x * u + y * v
  }

  ghost predicate IsGcd(g: int, u: int, v: int) {
    Divides(g, u) && Divides(g, v) && exists x: int, y: int :: Combines(g, u, v, x, y)
  }

  /** Every common divisor divides the greatest one. */
  lemma GcdGreatest(g: int, u: int, v: int, d: int)
    requires IsGcd(g, u, v) && Divides(d, u) && Divides(d, v)
    ensures Divides(d, g)
  {
    var x: int, y: int :| Combines(g, u, v, x, y);
    var p: int :| DividesBy(d, u, p);
    var q: int :| DividesBy(d, v, q);
    assert x * (p * d) == (x * p) * d && y * (q * d) == (y * q) * d;
    assert DividesBy(d, g, x * p + y * q);
  }

  lemma DivisorBound(d: int, x: int)
    requires Divides(d, x) && x >= 1
    ensures d <= x
  {
    var q: int :| DividesBy(d, x, q);
    if d > x {
      if q >= 1 {
        MulMono(1, q, d);
      } else {
        MulMono(q, 0, d);
      }
    }
  }

  /** There is only one non-negative greatest common divisor. */
  lemma GcdUnique(g: nat, h: nat, u: int, v: int)
    requires IsGcd(g, u, v) && IsGcd(h, u, v)
    ensures g == h
  {
    GcdGreatest(g, u, v, h);
    GcdGreatest(h, u, v, g);
    if g >= 1 {
      DivisorBound(h, g);
    }
    if h >= 1 {
      DivisorBound(g, h);
    }
    if g == 0 {
      var q: int :| DividesBy(0, h, q);
    }
    if h == 0 {
      var q: int :| DividesBy(0, g, q);
    }
  }

  lemma GcdZero(v: int)
    ensures IsGcd(v, 0, v) && IsGcd(v, v, 0)
  {
    assert DividesBy(v, 0, 0) && DividesBy(v, v, 1);
    assert Combines(v, 0, v, 0, 1) && Combines(v, v, 0, 1, 0);
  }

  lemma GcdSame(a: int)
    ensures IsGcd(a, a, a)
  {
    assert DividesBy(a, a, 1) && Combines(a, a, a, 1, 0);
  }

  lemma GcdSymmetric(g: int, u: int, v: int)
    requires IsGcd(g, u, v)
    ensures IsGcd(g, v, u)
  {
    var x: int, y: int :| Combines(g, u, v, x, y);
    assert Combines(g, v, u, y, x);
  }

  lemma GcdSubtract(g: int, a: int, b: int)
    requires IsGcd(g, a - b, b)
    ensures IsGcd(g, a, b)
  {
    var p: int :| DividesBy(g, a - b, p);
    var q: int :| DividesBy(g, b, q);
    assert (p + q) * g == p * g + q * g;
    assert DividesBy(g, a, p + q);
    var x: int, y: int :| Combines(g, a - b, b, x, y);
    assert x * (a - b) + y * b == x * a + (y - x) * b;
    assert Combines(g, a, b, x, y - x);
  }

  /** A factor of two on one side of an odd number is no common factor. */
  lemma GcdDouble(g: int, a: int, b: int)
    requires IsGcd(g, a, b) && b % 2 == 1
    ensures IsGcd(g, 2 * a, b)
  {
    var p: int :| DividesBy(g, a, p);
    assert DividesBy(g, 2 * a, 2 * p);
    var x: int, y: int :| Combines(g, a, b, x, y);
    EvenCombination(g, a, b, x, y);
  }

  /** A combination with an odd `b` can be chosen with an even first factor. */
  lemma EvenCombination(g: int, a: int, b: int, x: int, y: int)
    requires Combines(g, a, b, x, y) && b % 2 == 1
    ensures exists x': int, y': int :: Combines(g, 2 * a, b, x', y')
  {
    if x % 2 == 0 {
      HalfFactor(x / 2, x, a);
      assert Combines(g, 2 * a, b, x / 2, y);
    } else {
      var z := (x + b) / 2;
      HalfFactor(z, x + b, a);
      assert (x + b) * a == x * a + b * a;
      assert (y - a) * b == y * b - a * b;
      assert Combines(g, 2 * a, b, z, y - a);
    }
  }

  lemma HalfFactor(h: int, x: int, a: int)
    requires x == 2 * h
    ensures h * (2 * a) == x * a
  {
  }

  lemma {:induction false} GcdTimesPower(g: int, a: int, b: int, e: nat)
    requires IsGcd(g, a, b) && b % 2 == 1
    ensures IsGcd(g, Pow(2, e) * a, b)
  {
    if e > 0 {
      GcdTimesPower(g, a, b, e - 1);
      GcdDouble(g, Pow(2, e - 1) * a, b);
      assert 2 * (Pow(2, e - 1) * a) == Pow(2, e) * a;
    }
  }

  lemma GcdScale(g: int, a: int, b: int, p: int)
    requires IsGcd(g, a, b)
    ensures IsGcd(p * g, p * a, p * b)
  {
    var q: int :| DividesBy(g, a, q);
    assert p * (q * g) == q * (p * g);
    assert DividesBy(p * g, p * a, q);
    var r: int :| DividesBy(g, b, r);
    assert p * (r * g) == r * (p * g);
    assert DividesBy(p * g, p * b, r);
    var x: int, y: int :| Combines(g, a, b, x, y);
    assert p * (x * a + y * b) == x * (p * a) + y * (p * b) by {
      assert p * (x * a) == x * (p * a) && p * (y * b) == y * (p * b);
    }
    assert Combines(p * g, p * a, p * b, x, y);
  }

  // ------------------------------------------------------------------ what the loop keeps

  /** The greatest common divisor of `u` and `v` is that of `a` and `b`, times 2^k. */
  ghost predicate Reduces(a: int, b: int, k: nat, u: int, v: int) {
    forall g: int :: IsGcd(g, a, b) ==> IsGcd(Pow(2, k) * g, u, v)
  }

  /** Taking out the factors of two leaves the common ones to put back. */
  lemma ReducesStart(u: nat, v: nat)
    requires u >= 1 && v >= 1
    ensures Reduces(OddPart(u), OddPart(v), Min(Ctz(u), Ctz(v)), u, v)
  {
    var i, j := Ctz(u), Ctz(v);
    var k := Min(i, j);
    OddPartSplit(u);
    OddPartSplit(v);
    SplitPower(u, OddPart(u), i, k);
    SplitPower(v, OddPart(v), j, k);
    forall g: int | IsGcd(g, OddPart(u), OddPart(v))
      ensures IsGcd(Pow(2, k) * g, u, v)
    {
      StartOne(g, OddPart(u), OddPart(v), i - k, j - k);
      GcdScale(g, Pow(2, i - k) * OddPart(u), Pow(2, j - k) * OddPart(v), Pow(2, k));
    }
  }

  lemma SplitPower(u: int, a: int, i: nat, k: nat)
    requires k <= i && u == Pow(2, i) * a
    ensures u == Pow(2, k) * (Pow(2, i - k) * a)
  {
    PowAdd(2, k, i - k);
    MulAssoc(Pow(2, k), Pow(2, i - k), a);
  }

  lemma StartOne(g: int, a: nat, b: nat, i: nat, j: nat)
    requires IsGcd(g, a, b) && a % 2 == 1 && b % 2 == 1 && (i == 0 || j == 0)
    ensures IsGcd(g, Pow(2, i) * a, Pow(2, j) * b)
  {
    if j == 0 {
      GcdTimesPower(g, a, b, i);
    } else {
      GcdSymmetric(g, a, b);
      GcdTimesPower(g, b, a, j);
      GcdSymmetric(g, Pow(2, j) * b, a);
    }
  }

  lemma ReducesSwap(a: int, b: int, k: nat, u: int, v: int)
    requires Reduces(a, b, k, u, v)
    ensures Reduces(b, a, k, u, v)
  {
    forall g: int | IsGcd(g, b, a)
      ensures IsGcd(Pow(2, k) * g, u, v)
    {
      GcdSymmetric(g, b, a);
    }
  }

  /** One subtract-and-strip step. */
  lemma ReducesStep(a: nat, b: nat, k: nat, u: int, v: int)
    requires a > b && b % 2 == 1 && Reduces(a, b, k, u, v)
    ensures Reduces(OddPart(a - b), b, k, u, v)
  {
    OddPartSplit(a - b);
    forall g: int | IsGcd(g, OddPart(a - b), b)
      ensures IsGcd(Pow(2, k) * g, u, v)
    {
      GcdTimesPower(g, OddPart(a - b), b, Ctz(a - b));
      GcdSubtract(g, a, b);
    }
  }

  lemma ReducesDone(a: int, k: nat, u: int, v: int)
    requires Reduces(a, a, k, u, v)
    ensures IsGcd(Pow(2, k) * a, u, v)
  {
    GcdSame(a);
  }
}
