/** The division as the source writes it: the second three-by-two step receives the halves of the
    remainder in the wrong order, the upper quotient digit goes above the limbs the lower one
    happens to have, and limbs the recursion does not reach are dropped. Here is exactly when the
    quotient is right all the same, for two-limb divisors, at which every recursion arrives. */
module WrittenDivision {
  import opened Arith
  import opened Limbs
  import opened Division

  // ------------------------------------------------------------------ one level

  /** The remainder as the second step puts it together: its low limb above the high one. A remainder
      of one limb has no high one to go below it. */
  function Swapped(r: nat): nat {
    if r < B then r else (r % B) * B + r / B
  }

  /** The lower quotient digit as written: the three-by-two step is exact on what it is given
      (Correction.Finish). */
  function WrittenLower(a: nat, b: nat): nat
    requires b >= 1
  {
    (Swapped((a / B) % b) * B + a % B) / b
  }

  /** The upper digit goes above the limbs of the lower one. */
  function Join(q1: nat, q2: nat): nat {
    PowPos(B, LimbCount(q2));
    MulNat(q1, Pow(B, LimbCount(q2)));
    q1 * Pow(B, LimbCount(q2)) + q2
  }

  /** Division by a normalised two-limb divisor as written: two steps, and the digits joined. */
  function WrittenQuotient(a: nat, b: nat): nat
    requires b >= 1
  {
    Join((a / B) / b, WrittenLower(a, b))
  }

  /** The lower digit is not zero, or there is no upper one to misplace. */
  predicate PlacedRight(a: nat, b: nat)
    requires b >= 1
  {
    a / b < B || (a / b) % B != 0
  }

  /** The halves of the first remainder may be swapped: there is only one, they are equal, or they
      differ by one and the final remainder absorbs the difference. */
  predicate SwapHarmless(a: nat, b: nat)
    requires b >= 1
  {
    var r := (a / B) % b;
    var hi, lo := r / B, r % B;
    || hi == 0
    || hi == lo
    || (hi == lo + 1 && (B - 1) * B <= a % b)
    || (lo == hi + 1 && a % b + (B - 1) * B < b)
  }

  /** The written quotient is right if and only if both hold. */
  lemma WrittenQuotientExact(a: nat, b: nat)
    requires B * B <= 2 * b && b < B * B && a < B * B * B * B
    ensures WrittenQuotient(a, b) == a / b <==> PlacedRight(a, b) && SwapHarmless(a, b)
  {
    var top, r := a / B, (a / B) % b;
    DivisionLaw(a, B);
    DivisionLaw(top, b);
    DivisionLaw(r, B);
    DivisionLaw(Swapped(r) * B + a % B, b);
    OneLevel(a, b, top, a % B, top / b, r, r / B, r % B, Swapped(r), WrittenLower(a, b),
             (Swapped(r) * B + a % B) % b);
  }

  lemma OneLevel(a: nat, b: nat, top: nat, a4: nat, q1: nat, r: nat, hi: nat, lo: nat, s: nat, q2: nat, rho2: nat)
    requires B * B <= 2 * b && b < B * B && a == top * B + a4 && a4 < B && top == q1 * b + r && r < b
    requires r == hi * B + lo && lo < B && s == if hi == 0 then lo else lo * B + hi
    requires s * B + a4 == q2 * b + rho2 && rho2 < b
    ensures Join(q1, q2) == a / b
       <==> (a / b < B || (a / b) % B != 0)
            && (hi == 0 || hi == lo || (hi == lo + 1 && (B - 1) * B <= a % b)
                || (lo == hi + 1 && a % b + (B - 1) * B < b))
  {
    var t, rho := Digits(a, b, top, a4, q1, r);
    if hi >= 1 {
      UpperHalf(r, a4, b, t, rho);
      SwappedDigits(lo, hi, a4, b, t, rho, q2, rho2);
    } else {
      DivModUnique(s * B + a4, b, t, rho);
      DivModUnique(s * B + a4, b, q2, rho2);
    }
    Placed(q1, t, q2);
  }

  lemma DivisionLaw(x: nat, b: nat)
    requires b >= 1
    ensures x == (x / b) * b + x % b && 0 <= x % b < b
  {
    MulComm(b, x / b);
  }

  /** The true quotient in two digits. */
  lemma Digits(a: nat, b: nat, top: nat, a4: nat, q1: nat, r: nat) returns (t: nat, rho: nat)
    requires b >= 1 && a == top * B + a4 && a4 < B && top == q1 * b + r && r < b
    ensures r * B + a4 == t * b + rho && rho < b && t < B && a / b == q1 * B + t && a % b == rho
    ensures (a / b) % B == t && (q1 == 0 <==> a / b < B)
  {
    t, rho := (r * B + a4) / b, (r * B + a4) % b;
    DivisionLaw(r * B + a4, b);
    MulCancel(t, B, b);
    assert a == (q1 * B + t) * b + rho by {
      MulSum(q1 * B, t, b);
      MulAssoc(q1, B, b);
      MulAssoc(q1, b, B);
      MulComm(B, b);
      assert top * B == (q1 * b) * B + r * B;
    }
    DivModUnique(a, b, q1 * B + t, rho);
    DivModUnique(q1 * B + t, B, q1, t);
  }

  lemma MulSum(x: int, y: int, p: int)
    ensures (x + y) * p == x * p + y * p
  {
  }

  /** A remainder of two limbs makes the lower digit at least one. */
  lemma UpperHalf(r: nat, a4: nat, b: nat, t: nat, rho: nat)
    requires B <= r && b < B * B && r * B + a4 == t * b + rho && rho < b
    ensures t >= 1
  {
    assert 0 * b == 0;
    MulCancel(0, t, b);
  }

  /** The lower digits from the remainder and from its swapped halves agree if and only if the
      difference of the halves stays within the final remainder. */
  lemma SwappedDigits(lo: nat, hi: nat, a4: nat, b: nat, t: nat, rho: nat, q2: nat, rho2: nat)
    requires B * B <= 2 * b && b < B * B && rho < b && rho2 < b
    requires (hi * B + lo) * B + a4 == t * b + rho && (lo * B + hi) * B + a4 == q2 * b + rho2
    ensures q2 == t <==> lo == hi || (hi == lo + 1 && (B - 1) * B <= rho) || (lo == hi + 1 && rho + (B - 1) * B < b)
  {
    assert q2 * b + rho2 == t * b + rho + (lo - hi) * ((B - 1) * B);
    var gap := if lo == hi then 0 else if lo > hi then (B - 1) * B else -(B - 1) * B;
    if lo == hi || (hi == lo + 1 && (B - 1) * B <= rho) || (lo == hi + 1 && rho + (B - 1) * B < b) {
      DivModUnique(q2 * b + rho2, b, q2, rho2);
      DivModUnique(q2 * b + rho2, b, t, rho + gap);
    }
  }

  /** Where the upper digit lands. */
  lemma Placed(q1: nat, t: nat, q2: nat)
    requires t < B
    ensures q2 == t ==> (q1 * Pow(B, LimbCount(q2)) + q2 == q1 * B + t <==> q1 == 0 || t != 0)
    ensures q2 != t && t >= 1 ==> q1 * Pow(B, LimbCount(q2)) + q2 != q1 * B + t
  {
    assert Pow(B, 0) == 1 && Pow(B, 1) == B;
    assert q1 * Pow(B, 0) == q1 && q1 * Pow(B, 1) == q1 * B;
    LimbCountOf(q2);
    if q2 >= B {
      PowMono(B, 1, LimbCount(q2));
      MulMono(Pow(B, 1), Pow(B, LimbCount(q2)), q1);
      MulComm(q1, Pow(B, 1));
      MulComm(q1, Pow(B, LimbCount(q2)));
    }
  }

  lemma LimbCountOf(x: nat)
    ensures LimbCount(x) == 0 <==> x == 0
    ensures 1 <= x < B ==> LimbCount(x) == 1
  {
    if 1 <= x < B {
      assert x / B == 0 && LimbCount(0) == 0;
    }
  }

  // ------------------------------------------------------------------ any two-limb divisor

  /** The factor that normalises a two-limb divisor. */
  function Scale(b: nat): (p: nat)
    requires B <= b < B * B
    ensures p >= 1 && B * B <= 2 * (b * p) && b * p < B * B
  {
    assert Pow(B, 1) == B && Pow(B, 2) == B * B;
    PowPos(2, NormalShift(b, 2));
    Pow(2, NormalShift(b, 2))
  }

  /** The whole routine as written: normalise, then divide. */
  function WrittenBurnikel(a: nat, b: nat): nat
    requires B <= b < B * B
  {
    MulNat(a, Scale(b));
    WrittenQuotient(a * Scale(b), b * Scale(b))
  }

  /** For every two-limb divisor and every dividend that, scaled with it, has at most four limbs: the
      quotient comes out right if and only if it has no zero lower limb below an upper one, and the
      halves of the first remainder may be swapped. */
  lemma WrittenBurnikelExact(a: nat, b: nat)
    requires B <= b < B * B && 0 <= a * Scale(b) < B * B * B * B
    ensures WrittenBurnikel(a, b) == a / b <==> PlacedRight(a, b) && SwapHarmless(a * Scale(b), b * Scale(b))
  {
    MulNat(a, Scale(b));
    ScaledExact(a, b, a * Scale(b), b * Scale(b), Scale(b));
  }

  lemma ScaledExact(a: nat, b: nat, x: nat, y: nat, p: nat)
    requires 1 <= b && 1 <= p && x == a * p && y == b * p && B * B <= 2 * y && y < B * B && x < B * B * B * B
    ensures WrittenQuotient(x, y) == a / b <==> PlacedRight(a, b) && SwapHarmless(x, y)
  {
    SameQuotient(a, b, x, y, p);
    WrittenQuotientExact(x, y);
  }

  lemma SameQuotient(a: nat, b: nat, x: nat, y: nat, p: nat)
    requires 1 <= b && 1 <= p && 1 <= y && x == a * p && y == b * p
    ensures x / y == a / b
  {
    DivisionLaw(x, y);
    ScaledQuotient(a, b, p, x / y, x % y);
  }

  /** A quotient that comes out wrong: 2^128 by 2^127, a normalised divisor. The first step leaves the
      remainder 2^64, whose halves are 1 and 0; swapped they are the number 1, and the quotient is 0
      instead of 2. */
  lemma TwoComesOutZero(a: nat, b: nat)
    requires b == 0x8000_0000_0000_0000 * B && a == 2 * b
    ensures WrittenQuotient(a, b) == 0 && a / b == 2
  {
    DivModUnique(a / B, b, 0, B);
    DivModUnique(B, b, 0, B);
    assert Swapped(B) == 1 && a % B == 0;
    assert LimbCount(0) == 0 && 0 * Pow(B, 0) == 0;
    DivModUnique(a, b, 2, 0);
  }

  /** One that fails by the place alone: the cube of 2^64 by 2^127 has a zero lower limb, and its
      upper one ends up there. */
  lemma UpperDigitSlips(a: nat, b: nat)
    requires b == 0x8000_0000_0000_0000 * B && a == b * B
    ensures WrittenQuotient(a, b) == 1 && a / b == B
  {
    assert a / B == b;
    DivModUnique(b, b, 1, 0);
    DivModUnique(0, b, 0, 0);
    assert LimbCount(0) == 0 && 1 * Pow(B, 0) == 1;
    DivModUnique(a, b, B, 0) by {
      MulComm(b, B);
    }
  }

  // ------------------------------------------------------------------ limbs that are not read

  /** With a divisor of n >= 2 limbs, a dividend of more than 2n loses the limbs beyond, p = B^(2n).
      What is left has the same quotient if and only if nothing was lost. A single limb divides the
      whole dividend (Burnikel.DivideLong). */
  lemma DroppedLimbs(a: nat, b: nat, p: nat)
    requires B <= b <= p
    ensures (a % p) / b == a / b <==> a < p
  {
    var u, v := a / p, a % p;
    DivisionLaw(a, p);
    if a < p {
      DivModUnique(a, p, 0, a);
    } else {
      assert u >= 1 by {
        assert 0 * p == 0;
      }
      MulMono(1, u, p);
      MoreByOne(v, a, b);
    }
  }

  lemma MoreByOne(x: nat, y: nat, b: nat)
    requires b >= 1 && x + b <= y
    ensures x / b < y / b
  {
    DivisionLaw(x, b);
    DivisionLaw(y, b);
    assert (x / b + 1) * b == (x / b) * b + b;
    MulCancel(x / b, y / b, b) by {
      MulCancel(x / b + 1, y / b + 1, b) by {
        assert (y / b + 1) * b == (y / b) * b + b;
      }
    }
  }

  /** A divisor of an odd number 2k + 1 of limbs is halved to k, and of either half of the dividend,
      cut at w, only 2k limbs are read, p = B^(2k). */
  function Read(a: nat, w: nat, p: nat): nat
    requires w >= 1 && p >= 1
  {
    MulNat((a / w) % p, p);
    (a / w) % p * p + (a % w) % p
  }

  /** What is read is the dividend if and only if the dividend has at most 2k limbs, which is less than
      the divisor has; and it has the quotient of the dividend if and only if that is zero. */
  lemma OddLimbCount(a: nat, b: nat, w: nat, p: nat)
    requires p >= 1 && p <= b < B * p <= w
    ensures Read(a, w, p) == a <==> a < p
    ensures Read(a, w, p) / b == a / b <==> a < b
  {
    DivisionLaw(a, w);
    Residue(a / w, p);
    Residue(a % w, p);
    OddParts(a, b, a / w, a % w, w, p, (a / w) % p, (a % w) % p, Read(a, w, p));
  }

  lemma OddParts(a: nat, b: nat, h: nat, l: nat, w: nat, p: nat, hr: nat, lr: nat, e: nat)
    requires p >= 1 && p <= b < B * p <= w && a == h * w + l && l < w && e == hr * p + lr
    requires hr == h % p && lr == l % p && hr <= h && lr <= l && lr < p
    ensures e == a <==> a < p
    ensures e / b == a / b <==> a < b
  {
    if h == 0 {
      assert h * w == 0 && hr * p == 0;
      ReadLow(a, b, p);
    } else {
      ReadHigh(a, b, h, l, w, p, hr, lr);
      QuotientsDiffer(e, a, b);
    }
  }

  lemma Residue(x: nat, p: nat)
    requires p >= 1
    ensures 0 <= x % p <= x && x % p < p
  {
    DivisionLaw(x, p);
    MulNat(x / p, p);
  }

  lemma ReadLow(a: nat, b: nat, p: nat)
    requires p >= 1 && p <= b
    ensures a % p == a <==> a < p
    ensures (a % p) / b == a / b <==> a < b
  {
    Residue(a, p);
    DivModUnique(a % p, b, 0, a % p);
    if a < p {
      DivModUnique(a, p, 0, a);
    }
    if a < b {
      DivModUnique(a, b, 0, a);
    } else {
      MoreByOne(0, a, b);
    }
  }

  /** With anything in the upper half, what is read is below the divisor or loses a whole divisor. */
  lemma ReadHigh(a: nat, b: nat, h: nat, l: nat, w: nat, p: nat, hr: nat, lr: nat)
    requires p >= 1 && p <= b < B * p <= w && h >= 1 && a == h * w + l && hr <= h && lr <= l && lr < p
    ensures 0 <= hr * p + lr < a && b <= a
    ensures hr * p + lr < b || hr * p + lr + b <= a
  {
    MulNat(hr, p);
    MulMono(hr, h, p);
    assert h * w == h * p + h * (w - p) by {
      MulSum(p, w - p, h);
      MulComm(h, w);
      MulComm(h, p);
      MulComm(h, w - p);
    }
    MulMono(1, h, w - p);
    if h >= 2 {
      MulMono(2, h, w - p);
    } else {
      assert h * p == p;
    }
  }

  lemma QuotientsDiffer(e: nat, a: nat, b: nat)
    requires 1 <= b <= a && (e < b || e + b <= a)
    ensures e / b < a / b
  {
    if e < b {
      DivModUnique(e, b, 0, e);
      MoreByOne(0, a, b);
    } else {
      MoreByOne(e, a, b);
    }
  }
}
