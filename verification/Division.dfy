/** The arithmetic of Burnikel-Ziegler division: the bounds on the estimate of the three-by-two
    step, the halves of a normalised divisor, the normalising shift, and what the places the
    source writes to do to the result. */
module Division {
  import opened Arith
  import opened Bitwise
  import opened Limbs

  // ------------------------------------------------------------------ the three-by-two step

  /** What dividing by the top half of the divisor can be off by. */
  lemma EstimateBounds(a: nat, a3: nat, b1: nat, b2: nat, b: nat, w: nat, est: nat, q: nat, r: nat)
    requires w >= 1 && b1 >= 1 && a3 < w && b2 < w && b == b1 * w + b2 && w <= 2 * b1
    requires est == a / b1 && a * w + a3 == q * b + r && r < b
    ensures q <= est
    ensures a <= b ==> est <= q + 2
    ensures a < w * w ==> est <= q + 4
  {
    var c := a % b1;
    assert a == est * b1 + c;
    QuotientBelow(a, a3, b1, b, w, est, q);
    assert est * b == (est * b1) * w + est * b2 by {
      Distribute(est, b1, w, b2);
    }
    assert a * w == (est * b1) * w + c * w;
    var excess := est * b2 - c * w - a3;
    assert (est - q) * b == excess + r;
    MulNat(c, w);
    if a <= b {
      EstimateCap(a, b1, b2, w, est, c);
      ExcessCap(est, b1, b2, b, w);
      MulCancel(est - q, 3, b);
    }
    if a < w * w {
      WideExcess(est, b1, b2, b, w, a, c);
      MulCancel(est - q, 5, b);
    }
  }

  lemma Distribute(e: int, x: int, w: int, y: int)
    ensures e * (x * w + y) == (e * x) * w + e * y
  {
  }

  lemma QuotientBelow(a: nat, a3: nat, b1: nat, b: nat, w: nat, est: nat, q: nat)
    requires w >= 1 && b1 >= 1 && a3 < w && b1 * w <= b && est == a / b1 && q * b <= a * w + a3
    ensures q <= est
  {
    assert a < (est + 1) * b1 by {
      assert a == est * b1 + a % b1;
    }
    MulMono(b1 * w, b, q);
    assert q * (b1 * w) == (q * b1) * w;
    assert a * w + a3 < (a + 1) * w;
    MulCancel(q * b1, a + 1, w);
    MulCancel(q, est + 1, b1);
  }

  /** Dividing no more than the divisor itself, the estimate is at most w + 1. */
  lemma EstimateCap(a: nat, b1: nat, b2: nat, w: nat, est: nat, c: nat)
    requires b2 < w && w <= 2 * b1 && a == est * b1 + c && a <= b1 * w + b2
    ensures est <= w + 1
  {
    assert (w + 2) * b1 == b1 * w + 2 * b1;
    MulCancel(est, w + 2, b1);
  }

  lemma ExcessCap(est: nat, b1: nat, b2: nat, b: nat, w: nat)
    requires b2 < w && w <= 2 * b1 && b == b1 * w + b2 && est <= w + 1
    ensures est * b2 <= 2 * b
  {
    MulMono(est, w + 1, b2);
    MulMono(w, 2 * b1, w);
    MulMono(b2, w, w);
    assert (w + 1) * b2 == b2 * w + b2;
    assert (2 * b1) * w == 2 * (b1 * w);
  }

  lemma WideExcess(est: nat, b1: nat, b2: nat, b: nat, w: nat, a: nat, c: nat)
    requires b1 >= 1 && b2 < w && w <= 2 * b1 && b == b1 * w + b2 && a == est * b1 + c && a < w * w
    ensures est * b2 <= 4 * b
  {
    MulMono(w, 2 * b1, w);
    assert (2 * w) * b1 == (2 * b1) * w;
    MulCancel(est, 2 * w, b1);
    MulMono(est, 2 * w, b2);
    MulMono(b2, w, 2 * w);
    assert b2 * (2 * w) == (2 * w) * b2 && w * (2 * w) == 2 * (w * w) && (2 * b1) * w == 2 * (b1 * w);
  }

  lemma FirstRemainder(a: nat, a3: nat, b1: nat, b2: nat, b: nat, w: nat, iq: nat, c: nat)
    requires w >= 1 && a3 < w && c < b1 && b == b1 * w + b2 && a == iq * b1 + c
    ensures a * w + a3 == iq * b + (c * w + a3 - iq * b2)
    ensures 0 <= iq * b2 && c * w + a3 - iq * b2 < b && 1 <= b && 0 <= a * w
  {
    Distribute(iq, b1, w, b2);
    assert a * w == (iq * b1) * w + c * w;
    MulNat(iq, b2);
    MulNat(a, w);
    MulMono(c, b1 - 1, w);
    assert (b1 - 1) * w == b1 * w - w;
    MulMono(1, b1, w);
  }

  // ------------------------------------------------------------------ halves

  function High(x: nat, w: nat): nat
    requires w >= 1
  {
    x / w
  }

  function Low(x: nat, w: nat): nat
    requires w >= 1
  {
    x % w
  }

  lemma HighLow(x: nat, w: nat)
    requires w >= 1
    ensures x == High(x, w) * w + Low(x, w) && Low(x, w) < w && x < (High(x, w) + 1) * w
  {
  }

  /** A divisor with its top bit set has a top half with its top bit set. */
  lemma TopHalfNormal(hi: nat, lo: nat, b: nat, k: nat)
    requires k >= 1 && Pow(B, 2 * k) <= 2 * b && b == hi * Pow(B, k) + lo && lo < Pow(B, k)
    ensures Pow(B, k) <= 2 * hi
  {
    var w := Pow(B, k);
    PowPos(B, k);
    PowAdd(B, k, k);
    LimbIsEven(w, Pow(B, k - 1));
    TopHalf(hi, lo, b, w);
  }

  lemma TopHalf(hi: nat, lo: nat, b: nat, w: nat)
    requires w % 2 == 0 && w * w <= 2 * b && b == hi * w + lo && lo < w
    ensures w <= 2 * hi
  {
    assert (2 * hi + 2) * w == 2 * (hi * w) + 2 * w;
    MulCancel(w, 2 * hi + 2, w);
  }

  lemma LimbIsEven(w: int, p: int)
    requires w == B * p
    ensures w % 2 == 0
  {
    assert w == 2 * (0x8000_0000_0000_0000 * p);
  }

  // ------------------------------------------------------------------ normalisation

  /** The shift that sets the top bit of a divisor of `n` limbs. */
  function NormalShift(b: nat, n: nat): (s: nat)
    requires n >= 1 && Pow(B, n - 1) <= b < Pow(B, n)
    ensures s <= 63 && Pow(B, n) <= 2 * (b * Pow(2, s)) && b * Pow(2, s) < Pow(B, n)
  {
    PowPos(B, n - 1);
    var top := High(b, Pow(B, n - 1));
    TopLimb(b, Pow(B, n - 1));
    ShiftNormalises(b, Pow(B, n - 1), top);
    64 - Bits(top)
  }

  lemma TopLimb(b: nat, w: nat)
    requires 1 <= w <= b < B * w
    ensures 1 <= High(b, w) < B
  {
    HighLow(b, w);
    MulCancel(High(b, w), B, w);
    MulCancel(1, High(b, w) + 1, w);
  }

  lemma ShiftNormalises(b: nat, w: nat, top: nat)
    requires w >= 1 && top == High(b, w) && 1 <= top < B
    ensures 1 <= Bits(top) <= 64
    ensures B * w <= 2 * (b * Pow(2, 64 - Bits(top))) && b * Pow(2, 64 - Bits(top)) < B * w
  {
    var m := Bits(top);
    BitsBound(top);
    LimbIsPower(64);
    PowStrict(2, m - 1, 64);
    PowSplit(m, 64 - m);
    HighLow(b, w);
    Normalised(b, w, top, Pow(2, m), Pow(2, m - 1), Pow(2, 64 - m));
  }

  lemma Normalised(b: nat, w: nat, top: nat, up: nat, down: nat, p: nat)
    requires p >= 1 && top * w <= b < (top + 1) * w && down <= top < up && up * p == B && 2 * (down * p) == B
    ensures B * w <= 2 * (b * p) && b * p < B * w
  {
    ScaledBelow(b, top, w, up, p);
    ScaledAbove(b, top, w, down, p);
  }

  lemma PowSplit(m: nat, s: nat)
    requires m >= 1 && m + s == 64
    ensures Pow(2, s) >= 1 && Pow(2, m) * Pow(2, s) == B && 2 * (Pow(2, m - 1) * Pow(2, s)) == B
  {
    PowPos(2, s);
    LimbIsPower(m + s);
    PowAdd(2, m, s);
    assert (2 * Pow(2, m - 1)) * Pow(2, s) == 2 * (Pow(2, m - 1) * Pow(2, s));
  }

  lemma ScaledBelow(b: nat, top: nat, w: nat, up: nat, p: nat)
    requires p >= 1 && b < (top + 1) * w && top + 1 <= up
    ensures b * p < (up * p) * w
  {
    MulMono(top + 1, up, w);
    MulStrictMono(b, up * w, p);
    assert (up * w) * p == (up * p) * w;
  }

  lemma ScaledAbove(b: nat, top: nat, w: nat, down: nat, p: nat)
    requires top * w <= b && down <= top
    ensures (down * p) * w <= b * p
  {
    MulMono(down, top, w);
    MulMono(down * w, b, p);
    assert (down * w) * p == (down * p) * w;
  }

  /** Scaling both operands leaves the quotient alone. */
  lemma ScaledQuotient(a: nat, b: nat, p: nat, q: nat, r: nat)
    requires p >= 1 && b >= 1 && a * p == q * (b * p) + r && r < b * p
    ensures q == a / b && r == (a % b) * p
  {
    assert q * (b * p) == (q * b) * p;
    var rest := a - q * b;
    assert rest * p == r;
    MulCancel(-1, rest, p);
    MulCancel(rest, b, p);
    DivModUnique(a, b, q, rest);
  }

  // ------------------------------------------------------------------ as written

  /** The source hands the low half of the first remainder to the second step as the high one.
      What that step then divides is the right number if and only if the halves are equal. */
  lemma SwappedHalves(low: nat, high: nat, a4: nat, w: nat, b: nat, q: nat, r: nat)
    requires low < w && high < w && (low * w + high) * w + a4 == q * b + r
    ensures (high * w + low) * w + a4 == q * b + r <==> low == high
  {
    if low != high {
      assert (low * w + high) - (high * w + low) == (low - high) * (w - 1);
      NonZeroProduct(low - high, w - 1);
      NonZeroProduct((low - high) * (w - 1), w);
      assert (low * w + high) * w - (high * w + low) * w == ((low - high) * (w - 1)) * w;
    }
  }

  lemma NonZeroProduct(x: int, y: int)
    requires x != 0 && y != 0
    ensures x * y != 0
  {
  }

  /** The source places an upper digit right above the limbs of the lower one: the quotient digits,
      and the partial remainder above the third part. That is its place if and only if the lower one
      has no leading zero limb, or the upper one is zero. */
  lemma UpperDigitPlace(q1: nat, q2: seq<Limb>, k: nat)
    requires |q2| <= k
    ensures q1 * Pow(B, |q2|) + Val(q2) == q1 * Pow(B, k) + Val(q2) <==> q1 == 0 || |q2| == k
  {
    if q1 > 0 && |q2| < k {
      PowStrictMono(B, |q2|, k);
      MulStrictMono(Pow(B, |q2|), Pow(B, k), q1);
    }
  }
}
