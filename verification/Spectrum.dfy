/** What the network computes: the discrete Fourier sums at powers of a root of unity that is a
    power of two, and the inverse transform, in a ring that is not a field. */
module Spectrum {
  import opened Arith
  import opened FermatRing
  import opened Polynomials
  import opened BitReversal
  import opened Network

  // ------------------------------------------------------------------ the roots of unity

  /** The transform lengths in play: 2^k divides n. */
  ghost predicate Sized(n: nat, m: nat, k: nat) {
    m >= 1 && n == m * Pow(2, k) && n >= 1
  }

  lemma StepIs(n: nat, m: nat, k: nat, s: nat)
    requires Sized(n, m, k) && s <= k
    ensures Step(n, s) * Pow(2, s) == 2 * n && Step(n, s) <= 2 * n
    ensures Step(n, s) == 2 * (m * Pow(2, k - s))
  {
    var p, q := Pow(2, s), Pow(2, k - s);
    PowPos(2, s);
    PowPos(2, k - s);
    PowAdd(2, k - s, s);
    MulAssoc(m, q, p);
    assert 2 * n == (2 * (m * q)) * p by {
      MulAssoc(2, m * q, p);
    }
    DivModUnique(2 * n, p, 2 * (m * q), 0);
    MulNat(m, q);
    MulMono(1, p, 2 * (m * q));
  }

  lemma StepHalf(n: nat, m: nat, k: nat, s: nat)
    requires Sized(n, m, k) && 1 <= s <= k
    ensures Step(n, s - 1) == 2 * Step(n, s) <= 2 * n && Step(n, s) * Pow(2, s - 1) == n
  {
    StepIs(n, m, k, s);
    StepIs(n, m, k, s - 1);
    DoubledFactor(m, Pow(2, k - s));
    HalvedFactor(Step(n, s), Pow(2, s - 1), n);
  }

  lemma DoubledFactor(m: int, q: int)
    ensures m * (2 * q) == 2 * (m * q)
  {
  }

  lemma HalvedFactor(step: int, h: int, n: int)
    requires step * (2 * h) == 2 * n
    ensures step * h == n
  {
    DoubledFactor(step, h);
  }

  lemma StepAtMost(n: nat, s: nat)
    ensures 0 <= Step(n, s) <= 2 * n
  {
    var p, q := Pow(2, s), Step(n, s);
    PowPos(2, s);
    assert 2 * n == p * q + (2 * n) % p;
    MulMono(1, p, q);
  }

  function RootBits(n: nat, s: nat, inverse: bool): nat {
    StepAtMost(n, s);
    if inverse then 2 * n - Step(n, s) else Step(n, s)
  }

  /** The root of unity of order 2^s that a stage works with, or its inverse. */
  function Root(n: nat, s: nat, inverse: bool): int {
    Pow(2, RootBits(n, s, inverse))
  }

  lemma PowProduct(a: int, b: int, e: nat)
    ensures Pow(a, e) * Pow(b, e) == Pow(a * b, e)
  {
    if e > 0 {
      PowProduct(a, b, e - 1);
      Shuffle4(a, Pow(a, e - 1), b, Pow(b, e - 1));
    }
  }

  lemma Shuffle4(a: int, p: int, b: int, q: int)
    ensures (a * p) * (b * q) == (a * b) * (p * q)
  {
    MulAssoc(a, p, b * q);
    MulAssoc(p, b, q);
    MulAssoc(b, p, q);
    MulAssoc(a, b, p * q);
  }

  /** The square of a root is the root of half the order. */
  lemma RootSquare(n: nat, m: nat, k: nat, s: nat, inverse: bool)
    requires Sized(n, m, k) && 1 <= s <= k
    ensures Cong(Root(n, s, inverse) * Root(n, s, inverse), Root(n, s - 1, inverse), Modulus(n))
  {
    var e := RootBits(n, s, inverse);
    StepHalf(n, m, k, s);
    PowAdd(2, e, e);
    var t := RootBits(n, s - 1, inverse);
    if inverse {
      Period(t, 1, n);
      assert 2 * n * 1 + t == e + e;
    } else {
      CongRefl(Pow(2, t), Modulus(n));
    }
  }

  /** Half-way around the circle a root is -1. */
  lemma RootHalf(n: nat, m: nat, k: nat, s: nat, inverse: bool)
    requires Sized(n, m, k) && 1 <= s <= k
    ensures Pow(2, s - 1) >= 1 && Cong(Pow(Root(n, s, inverse), Pow(2, s - 1)), -1, Modulus(n))
  {
    var e, h := RootBits(n, s, inverse), Pow(2, s - 1);
    PowPos(2, s - 1);
    StepHalf(n, m, k, s);
    PowMul(2, e, h);
    HalfPeriod(n);
    if inverse {
      Around(n, e, Step(n, s), h);
      Period(n, h - 1, n);
      CongTrans(Pow(2, e * h), Pow(2, n), -1, Modulus(n));
    }
  }

  lemma Around(n: nat, e: nat, step: nat, h: nat)
    requires h >= 1 && e == 2 * n - step && step * h == n
    ensures 0 <= 2 * n * (h - 1) && e * h == 2 * n * (h - 1) + n
  {
    MulNat(2 * n, h - 1);
    assert (2 * n - step) * h == 2 * n * h - step * h;
    assert 2 * n * (h - 1) == 2 * n * h - 2 * n;
  }

  lemma RootInverse(n: nat, s: nat)
    ensures Cong(Root(n, s, false) * Root(n, s, true), 1, Modulus(n))
  {
    StepAtMost(n, s);
    PowAdd(2, RootBits(n, s, false), RootBits(n, s, true));
    HalfPeriod(n);
  }

  /** The accumulated exponent of a butterfly shifts by a power of the stage's root. */
  lemma TwiddleIsRootPower(n: nat, m: nat, k: nat, s: nat, inverse: bool, j: nat, t: nat)
    requires Sized(n, m, k) && 1 <= s <= k && j <= Pow(2, s - 1) && t == j * Step(n, s) && t <= n
    ensures Cong(Pow(2, Exponent(t, n, inverse)), Pow(Root(n, s, inverse), j), Modulus(n))
  {
    var e := RootBits(n, s, inverse);
    PowMul(2, e, j);
    assert e * j == j * e;
    if !inverse {
      CongRefl(Pow(2, t), Modulus(n));
    } else if t == 0 {
      ExponentZero(n);
      Backwards(n, e, Step(n, s), j, t);
      Period(0, j, n);
      CongSym(Pow(2, 2 * n * j + 0), Pow(2, 0), Modulus(n));
    } else {
      ExponentBack(n, t);
      MulZero(j, Step(n, s), t);
      Backwards(n, e, Step(n, s), j, t);
      assert 2 * n * j == 2 * n * (j - 1) + 2 * n;
      Period(2 * n - t, j - 1, n);
      CongSym(Pow(2, 2 * n * (j - 1) + (2 * n - t)), Pow(2, 2 * n - t), Modulus(n));
    }
  }

  lemma ExponentZero(n: nat)
    requires n >= 1
    ensures Exponent(0, n, true) == 0
  {
    DivModUnique(2 * n, 2 * n, 1, 0);
  }

  lemma ExponentBack(n: nat, t: nat)
    requires n >= 1 && 1 <= t <= 2 * n
    ensures Exponent(t, n, true) == 2 * n - t
  {
    DivModUnique(2 * n - t, 2 * n, 0, 2 * n - t);
  }

  lemma MulZero(j: nat, step: nat, t: nat)
    requires t == j * step && t > 0
    ensures j >= 1
  {
  }

  lemma Backwards(n: nat, e: nat, step: nat, j: nat, t: nat)
    requires e == 2 * n - step && t == j * step
    ensures j * e == 2 * n * j - t
  {
    assert j * (2 * n - step) == j * (2 * n) - j * step;
    assert j * (2 * n) == 2 * n * j;
  }

  /** Powers of a root at a frequency in the lower half and at its partner in the upper half. */
  lemma RootPowers(n: nat, m: nat, k: nat, s: nat, inverse: bool, j: nat)
    requires Sized(n, m, k) && 1 <= s <= k
    ensures var r, q, h := Root(n, s, inverse), Root(n, s - 1, inverse), Pow(2, s - 1);
            && h >= 1
            && Cong(Pow(r, j) * Pow(r, j), Pow(q, j), Modulus(n))
            && Cong(Pow(r, h + j), -Pow(r, j), Modulus(n))
            && Cong(Pow(r, h + j) * Pow(r, h + j), Pow(q, j), Modulus(n))
  {
    var r, q, h, md := Root(n, s, inverse), Root(n, s - 1, inverse), Pow(2, s - 1), Modulus(n);
    RootSquare(n, m, k, s, inverse);
    RootHalf(n, m, k, s, inverse);
    PowProduct(r, r, j);
    CongPow(r * r, q, j, md);
    PowAdd(r, h, j);
    OppositePowers(Pow(r, j), Pow(r, h), Pow(r, h + j), Pow(q, j), md);
  }

  lemma OppositePowers(x: int, p: int, y: int, q: int, m: int)
    requires Cong(x * x, q, m) && Cong(p, -1, m) && y == p * x
    ensures Cong(y, -x, m) && Cong(y * y, q, m)
  {
    CongScale(x, p, -1, m);
    assert x * p == y && x * -1 == -x;
    CongMul(y, -x, y, -x, m);
    assert (-x) * (-x) == x * x;
    CongTrans(y * y, x * x, q, m);
  }

  // ------------------------------------------------------------------ the network computes the transform

  /** Evaluating through the even and odd parts, up to congruence. */
  lemma EvalThrough(x: seq<int>, z: int, y: int, p: int, m: int)
    requires |x| % 2 == 0 && Cong(z * z, p, m) && Cong(z, y, m)
    ensures Cong(Eval(x, z), Eval(Evens(x), p) + y * Eval(Odds(x), p), m)
  {
    EvalHalves(x, z);
    EvalCongPoint(Evens(x), z * z, p, m);
    EvalCongPoint(Odds(x), z * z, p, m);
    CongMul(z, y, Eval(Odds(x), z * z), Eval(Odds(x), p), m);
    CongAdd(Eval(Evens(x), z * z), Eval(Evens(x), p), z * Eval(Odds(x), z * z), y * Eval(Odds(x), p), m);
  }

  lemma AllInShuffle(x: seq<int>, n: nat)
    requires AllIn(x, n)
    ensures AllIn(Shuffle(x), n)
    decreases |x|
  {
    if |x| > 1 {
      AllInShuffle(Evens(x), n);
      AllInShuffle(Odds(x), n);
    }
  }

  /** Both outputs of a butterfly, from what its inputs and its shift stand for. */
  lemma ButterflyCong(u: int, v: int, t: int, a: int, b: int, tw: int, x: int, m: int)
    requires Cong(u, a, m) && Cong(v, b, m) && Cong(t, v * tw, m) && Cong(tw, x, m)
    ensures Cong(u + t, a + x * b, m) && Cong(u - t, a + (-x) * b, m)
  {
    CongMul(v, b, tw, x, m);
    CongTrans(t, v * tw, b * x, m);
    assert b * x == x * b && (-x) * b == -(x * b);
    CongAdd(u, a, t, x * b, m);
    CongSub(u, a, t, x * b, m);
  }

  /** `r` is, place by place, the transform of `x` at the powers of `w`. */
  ghost predicate Transforms(r: seq<int>, x: seq<int>, w: int, m: int) {
    |r| == |x| && forall i: nat :: i < |r| ==> Cong(r[i], Eval(x, Pow(w, i)), m)
  }

  /** Bit reversal followed by the butterflies is the discrete Fourier transform at the powers of
      the root, for every input and either direction. */
  lemma {:induction false} NetTransforms(x: seq<int>, s: nat, n: nat, m: nat, k: nat, inverse: bool)
    requires Sized(n, m, k) && s <= k && |x| == Pow(2, s) && AllIn(x, n)
    ensures |Shuffle(x)| == |x| && AllIn(Shuffle(x), n)
    ensures Transforms(Net(s, Shuffle(x), n, inverse), x, Root(n, s, inverse), Modulus(n))
    decreases s
  {
    ShuffleLength(x, s);
    AllInShuffle(x, n);
    if s == 0 {
      CongRefl(x[0], Modulus(n));
      assert Eval(x, Pow(Root(n, s, inverse), 0)) == x[0];
    } else {
      var h := Pow(2, s - 1);
      PowPos(2, s - 1);
      var ev, od := Evens(x), Odds(x);
      NetTransforms(ev, s - 1, n, m, k, inverse);
      NetTransforms(od, s - 1, n, m, k, inverse);
      var e, o := Net(s - 1, Shuffle(ev), n, inverse), Net(s - 1, Shuffle(od), n, inverse);
      assert Shuffle(x)[..h] == Shuffle(ev) && Shuffle(x)[h..] == Shuffle(od);
      StepBound(n, s);
      CombineTransforms(x, e, o, s, n, m, k, inverse);
    }
  }

  lemma CombineTransforms(x: seq<int>, e: seq<int>, o: seq<int>, s: nat, n: nat, m: nat, k: nat, inverse: bool)
    requires Sized(n, m, k) && 1 <= s <= k && |x| == Pow(2, s) == 2 * Pow(2, s - 1)
    requires AllIn(e, n) && AllIn(o, n) && |e| == |o| == Pow(2, s - 1) && Pow(2, s - 1) * Step(n, s) <= n
    requires Transforms(e, Evens(x), Root(n, s - 1, inverse), Modulus(n))
    requires Transforms(o, Odds(x), Root(n, s - 1, inverse), Modulus(n))
    ensures Transforms(Combine(e, o, Step(n, s), n, inverse), x, Root(n, s, inverse), Modulus(n))
  {
    var c, h := Combine(e, o, Step(n, s), n, inverse), Pow(2, s - 1);
    forall i: nat | i < |c|
      ensures Cong(c[i], Eval(x, Pow(Root(n, s, inverse), i)), Modulus(n))
    {
      var j := if i < h then i else i - h;
      PlaceTransforms(x, e, o, c, s, n, m, k, inverse, j);
    }
  }

  /** The polynomial at a frequency and at its partner, through the even and odd parts. */
  lemma EvalPair(x: seq<int>, s: nat, n: nat, m: nat, k: nat, inverse: bool, a: int, b: int, r: int, h: nat, j: nat)
    requires Sized(n, m, k) && 1 <= s <= k && |x| == 2 * h && h == Pow(2, s - 1) && r == Root(n, s, inverse)
    requires a == Eval(Evens(x), Pow(Root(n, s - 1, inverse), j)) && b == Eval(Odds(x), Pow(Root(n, s - 1, inverse), j))
    ensures Cong(Eval(x, Pow(r, j)), a + Pow(r, j) * b, Modulus(n))
    ensures Cong(Eval(x, Pow(r, h + j)), a + (-Pow(r, j)) * b, Modulus(n))
  {
    var p, q := Pow(r, j), Pow(Root(n, s - 1, inverse), j);
    RootPowers(n, m, k, s, inverse, j);
    CongRefl(p, Modulus(n));
    EvalThrough(x, p, p, q, Modulus(n));
    EvalThrough(x, Pow(r, h + j), -p, q, Modulus(n));
  }

  /** The two outputs of butterfly `j`, and what its shift multiplies by. */
  lemma Outputs(e: seq<int>, o: seq<int>, c: seq<int>, s: nat, n: nat, m: nat, k: nat, inverse: bool, j: nat)
    returns (t: int, tw: int)
    requires Sized(n, m, k) && 1 <= s <= k && AllIn(e, n) && AllIn(o, n) && |e| == |o| == Pow(2, s - 1)
    requires Pow(2, s - 1) * Step(n, s) <= n && c == Combine(e, o, Step(n, s), n, inverse) && j < |e|
    ensures Cong(c[j], e[j] + t, Modulus(n)) && Cong(c[|e| + j], e[j] - t, Modulus(n))
    ensures Cong(t, o[j] * tw, Modulus(n)) && Cong(tw, Pow(Root(n, s, inverse), j), Modulus(n))
  {
    var exp := j * Step(n, s);
    TwiddleRange(j, |e|, Step(n, s), n);
    CombineEntries(e, o, Step(n, s), n, inverse, j, exp);
    TwiddleIsRootPower(n, m, k, s, inverse, j, exp);
    t, tw := Turn(o[j], exp, n, inverse), Pow(2, Exponent(exp, n, inverse));
  }

  lemma PlaceTransforms(x: seq<int>, e: seq<int>, o: seq<int>, c: seq<int>, s: nat, n: nat, m: nat, k: nat,
                        inverse: bool, j: nat)
    requires Sized(n, m, k) && 1 <= s <= k && |x| == Pow(2, s) == 2 * Pow(2, s - 1)
    requires AllIn(e, n) && AllIn(o, n) && |e| == |o| == Pow(2, s - 1) && Pow(2, s - 1) * Step(n, s) <= n
    requires Transforms(e, Evens(x), Root(n, s - 1, inverse), Modulus(n))
    requires Transforms(o, Odds(x), Root(n, s - 1, inverse), Modulus(n))
    requires c == Combine(e, o, Step(n, s), n, inverse) && j < |e|
    ensures Cong(c[j], Eval(x, Pow(Root(n, s, inverse), j)), Modulus(n))
    ensures Cong(c[|e| + j], Eval(x, Pow(Root(n, s, inverse), |e| + j)), Modulus(n))
  {
    var r, q := Root(n, s, inverse), Root(n, s - 1, inverse);
    var a, b, p := Eval(Evens(x), Pow(q, j)), Eval(Odds(x), Pow(q, j)), Pow(r, j);
    var t, tw := Outputs(e, o, c, s, n, m, k, inverse, j);
    EvalPair(x, s, n, m, k, inverse, a, b, r, |e|, j);
    Settle(c[j], c[|e| + j], e[j], o[j], t, a, b, tw, p, Eval(x, p), Eval(x, Pow(r, |e| + j)), Modulus(n));
  }

  lemma Settle(hi: int, lo: int, u: int, v: int, t: int, a: int, b: int, tw: int, p: int, x: int, y: int, m: int)
    requires Cong(hi, u + t, m) && Cong(lo, u - t, m) && Cong(t, v * tw, m) && Cong(tw, p, m)
    requires Cong(u, a, m) && Cong(v, b, m) && Cong(x, a + p * b, m) && Cong(y, a + (-p) * b, m)
    ensures Cong(hi, x, m) && Cong(lo, y, m)
  {
    ButterflyCong(u, v, t, a, b, tw, p, m);
    Linked(hi, u + t, a + p * b, x, m);
    Linked(lo, u - t, a + (-p) * b, y, m);
  }

  lemma Linked(a: int, b: int, c: int, d: int, m: int)
    requires Cong(a, b, m) && Cong(b, c, m) && Cong(d, c, m)
    ensures Cong(a, d, m)
  {
    CongSym(d, c, m);
    CongTrans(a, b, c, m);
    CongTrans(a, c, d, m);
  }

  // ------------------------------------------------------------------ the inverse

  /** The transform of `x`, unreduced. */
  ghost function Image(x: seq<int>, w: int): (r: seq<int>)
    ensures |r| == |x|
  {
    seq(|x|, j requires 0 <= j < |x| => Eval(x, Pow(w, j)))
  }

  /** The two halves of a transform, from those of the even and odd parts. */
  lemma ImageHalves(x: seq<int>, y: seq<int>, s: nat, n: nat, m: nat, k: nat, a: seq<int>, b: seq<int>, r: int, h: nat)
    requires Sized(n, m, k) && 1 <= s <= k && |x| == 2 * h && h == Pow(2, s - 1) && r == Root(n, s, false)
    requires Transforms(y, x, r, Modulus(n))
    requires a == Image(Evens(x), Root(n, s - 1, false)) && b == Image(Odds(x), Root(n, s - 1, false))
    ensures Agree(y[..h], Plus(a, Times(1, Weighted(b, r))), Modulus(n))
    ensures Agree(y[h..], Plus(a, Times(-1, Weighted(b, r))), Modulus(n))
  {
    var md := Modulus(n);
    forall j: nat | j < h
      ensures Cong(y[..h][j], Plus(a, Times(1, Weighted(b, r)))[j], md)
      ensures Cong(y[h..][j], Plus(a, Times(-1, Weighted(b, r)))[j], md)
    {
      EvalPair(x, s, n, m, k, false, a[j], b[j], r, h, j);
      var p := Pow(r, j);
      CongTrans(y[j], Eval(x, p), a[j] + p * b[j], md);
      CongTrans(y[h + j], Eval(x, Pow(r, h + j)), a[j] + (-p) * b[j], md);
      Negated(p, b[j]);
    }
  }

  lemma Negated(p: int, b: int)
    ensures (-p) * b == -1 * (p * b) && p * b == 1 * (p * b)
  {
  }

  /** A sum over a transform, from the sums over its halves. */
  lemma SumOverHalves(y: seq<int>, a: seq<int>, b: seq<int>, r: int, z: int, h: nat, m: int,
                      sum: int, av: int, bv: int, p: int)
    requires |y| == 2 * h && |a| == |b| == h
    requires Agree(y[..h], Plus(a, Times(1, Weighted(b, r))), m) && Agree(y[h..], Plus(a, Times(-1, Weighted(b, r))), m)
    requires IsValue(sum, y, z) && IsValue(av, a, z) && IsValue(bv, b, r * z) && IsPower(p, z, h)
    ensures Cong(sum, (av + bv) + p * (av - bv), m)
  {
    var lo := HalfSum(y[..h], a, b, r, 1, z, m, av, bv);
    var hi := HalfSum(y[h..], a, b, r, -1, z, m, av, bv);
    CutValues(y, h, z, sum, lo, hi, p);
    Joined(sum, lo, hi, p, av, bv, m);
  }

  lemma CutValues(y: seq<int>, h: nat, z: int, sum: int, lo: int, hi: int, p: int)
    requires h <= |y| && IsValue(sum, y, z) && IsValue(lo, y[..h], z) && IsValue(hi, y[h..], z) && IsPower(p, z, h)
    ensures sum == lo + p * hi
  {
    assert sum == Eval(y, z) && lo == Eval(y[..h], z) && hi == Eval(y[h..], z) && p == Pow(z, h);
    EvalCut(y, h, z);
  }

  lemma Joined(sum: int, lo: int, hi: int, p: int, a: int, b: int, m: int)
    requires sum == lo + p * hi && Cong(lo, a + 1 * b, m) && Cong(hi, a + -1 * b, m)
    ensures Cong(sum, (a + b) + p * (a - b), m)
  {
    CongScale(p, hi, a - b, m);
    CongAdd(lo, a + b, p * hi, p * (a - b), m);
  }

  lemma HalfSum(part: seq<int>, a: seq<int>, b: seq<int>, r: int, g: int, z: int, m: int, av: int, bv: int)
    returns (v: int)
    requires |a| == |b| && Agree(part, Plus(a, Times(g, Weighted(b, r))), m)
    requires IsValue(av, a, z) && IsValue(bv, b, r * z)
    ensures IsValue(v, part, z) && Cong(v, av + g * bv, m)
  {
    v := Eval(part, z);
    assert av == Eval(a, z) && bv == Eval(b, r * z);
    EvalCongCoeffs(part, Plus(a, Times(g, Weighted(b, r))), z, m);
    WeightedSum(a, b, r, g, z);
  }

  lemma WeightedSum(a: seq<int>, b: seq<int>, r: int, g: int, z: int)
    requires |a| == |b|
    ensures Eval(Plus(a, Times(g, Weighted(b, r))), z) == Eval(a, z) + g * Eval(b, r * z)
  {
    EvalPlus(a, Times(g, Weighted(b, r)), z);
    EvalTimes(g, Weighted(b, r), z);
    EvalWeighted(b, r, z);
  }

  /** At an even frequency the odd part cancels, at an odd one the even part. */
  lemma Parity(sum: int, a: int, b: int, z: int, m: int)
    requires Cong(sum, (a + b) + z * (a - b), m)
    ensures Cong(z, 1, m) ==> Cong(sum, 2 * a, m)
    ensures Cong(z, -1, m) ==> Cong(sum, 2 * b, m)
  {
    CongRefl(a + b, m);
    if Cong(z, 1, m) {
      CongScale(a - b, z, 1, m);
      assert (a - b) * z == z * (a - b);
      CongAdd(a + b, a + b, z * (a - b), (a - b) * 1, m);
      CongTrans(sum, (a + b) + z * (a - b), 2 * a, m);
    }
    if Cong(z, -1, m) {
      CongScale(a - b, z, -1, m);
      assert (a - b) * z == z * (a - b) && (a - b) * -1 == b - a;
      CongAdd(a + b, a + b, z * (a - b), b - a, m);
      CongTrans(sum, (a + b) + z * (a - b), 2 * b, m);
    }
  }

  /** The point of frequency `i` of the inverse transform, half-way around and folded in two. */
  lemma Phase(n: nat, m: nat, k: nat, s: nat, i: nat)
    requires Sized(n, m, k) && 1 <= s <= k
    ensures var u, q, h := Root(n, s, true), Root(n, s - 1, true), Pow(2, s - 1);
            && h >= 1
            && Cong(Pow(Pow(u, i), h), if i % 2 == 0 then 1 else -1, Modulus(n))
            && Cong(if i % 2 == 0 then Pow(u, i) else Root(n, s, false) * Pow(u, i), Pow(q, i / 2), Modulus(n))
  {
    var u, q, h, md := Root(n, s, true), Root(n, s - 1, true), Pow(2, s - 1), Modulus(n);
    var t := i / 2;
    RootSquare(n, m, k, s, true);
    RootHalf(n, m, k, s, true);
    RootInverse(n, s);
    PowProduct(u, u, t);
    CongPow(u * u, q, t, md);
    PowAdd(u, t, t);
    PowMul(u, i, h);
    PowMul(u, h, i);
    assert i * h == h * i;
    CongPow(Pow(u, h), -1, i, md);
    MinusOnePower(i);
    if i % 2 == 1 {
      assert Pow(u, i) == u * Pow(u, 2 * t);
      FoldOdd(Root(n, s, false), u, Pow(u, 2 * t), Pow(q, t), md);
    }
  }

  lemma FoldOdd(f: int, u: int, p: int, q: int, m: int)
    requires Cong(f * u, 1, m) && Cong(p, q, m)
    ensures Cong(f * (u * p), q, m)
  {
    CongMul(f * u, 1, p, q, m);
    MulAssoc(f, u, p);
  }

  lemma {:induction false} MinusOnePower(i: nat)
    ensures Pow(-1, i) == if i % 2 == 0 then 1 else -1
  {
    if i > 0 {
      MinusOnePower(i - 1);
    }
  }

  /** The inverse sums over a transform give back every input, 2^s times: the orthogonality of
      the powers of two modulo 2^n + 1. */
  lemma {:induction false} InverseSums(x: seq<int>, y: seq<int>, s: nat, n: nat, m: nat, k: nat, i: nat)
    requires Sized(n, m, k) && s <= k && |x| == Pow(2, s) && i < |x|
    requires Transforms(y, x, Root(n, s, false), Modulus(n))
    ensures Cong(Eval(y, Pow(Root(n, s, true), i)), Pow(2, s) * x[i], Modulus(n))
    decreases s
  {
    var md := Modulus(n);
    if s == 0 {
      assert Eval(x, Pow(Root(n, s, false), 0)) == x[0];
      assert Eval(y, Pow(Root(n, s, true), 0)) == y[0];
    } else {
      var h, r, t := Pow(2, s - 1), Root(n, s, false), i / 2;
      var part := if i % 2 == 0 then Evens(x) else Odds(x);
      var z := Pow(Root(n, s, true), i);
      var a, b := Image(Evens(x), Root(n, s - 1, false)), Image(Odds(x), Root(n, s - 1, false));
      ImageTransforms(Evens(x), Root(n, s - 1, false), md);
      ImageTransforms(Odds(x), Root(n, s - 1, false), md);
      ImageHalves(x, y, s, n, m, k, a, b, r, h);
      SumOverHalves(y, a, b, r, z, h, md, Eval(y, z), Eval(a, z), Eval(b, r * z), Pow(z, h));
      Phase(n, m, k, s, i);
      Parity(Eval(y, z), Eval(a, z), Eval(b, r * z), Pow(z, h), md);
      var half := if i % 2 == 0 then a else b;
      var point := if i % 2 == 0 then z else r * z;
      InverseSums(part, half, s - 1, n, m, k, t);
      EvalCongPoint(half, point, Pow(Root(n, s - 1, true), t), md);
      Doubled(Eval(y, z), Eval(half, point), Eval(half, Pow(Root(n, s - 1, true), t)), Pow(2, s - 1), x[i], md);
    }
  }

  lemma ImageTransforms(x: seq<int>, w: int, m: int)
    ensures Transforms(Image(x, w), x, w, m)
  {
    forall i: nat | i < |x|
      ensures Cong(Image(x, w)[i], Eval(x, Pow(w, i)), m)
    {
      CongRefl(Eval(x, Pow(w, i)), m);
    }
  }

  lemma Doubled(sum: int, e: int, f: int, p: int, x: int, m: int)
    requires Cong(sum, 2 * e, m) && Cong(e, f, m) && Cong(f, p * x, m)
    ensures Cong(sum, (2 * p) * x, m)
  {
    CongTrans(e, f, p * x, m);
    CongScale(2, e, p * x, m);
    MulAssoc(2, p, x);
    CongTrans(sum, 2 * e, 2 * (p * x), m);
  }
}
