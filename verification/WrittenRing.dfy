/** The ring helpers of the transform as their limb loops are written, for a modulus of whole limbs,
    n = 64 q: what each of them computes, exactly when that is what its comment promises, and the
    smallest transform that comes out wrong. */
module WrittenRing {
  import opened Arith
  import opened Limbs
  import opened FermatRing
  import opened Network

  /** The limbs of a modulus of n = 64 q bits. */
  lemma ModulusLimbs(q: nat)
    ensures Pow(B, q) == Pow(2, 64 * q) >= 1
  {
    LimbIsPower(64);
    PowMul(2, 64, q);
    PowPos(B, q);
  }

  // ------------------------------------------------------------------ addition

  /** The limbs the addition loop covers: those of the longer operand. */
  function Covered(a: nat, b: nat): nat {
    Max(LimbCount(a), LimbCount(b))
  }

  /** The sum in those limbs, the last carry lost. */
  function CoveredSum(a: nat, b: nat): (r: nat)
    ensures r < Pow(B, Covered(a, b))
  {
    PowPos(B, Covered(a, b));
    (a + b) % Pow(B, Covered(a, b))
  }

  /** Addition: the loop, and, if bit n is set, the bit cleared and one taken away, borrowing through
      all q + 1 limbs. The flag meant to spare 2^n itself is never down then: with whole limbs bit n
      is the lowest bit of its limb, and counts towards it. */
  function WrittenAdd(a: nat, b: nat, q: nat): nat {
    var s := CoveredSum(a, b);
    if TopDigit(s, q) % 2 == 0 then s
    else if s == Pow(2, 64 * q) then
      PowPos(B, q + 1);
      Pow(B, q + 1) - 1
    else
      TopDigitBound(s, q);
      s - Pow(2, 64 * q) - 1
  }

  function TopDigit(s: nat, q: nat): nat {
    PowPos(2, 64 * q);
    s / Pow(2, 64 * q)
  }

  lemma TopDigitBound(s: nat, q: nat)
    ensures TopDigit(s, q) == 0 <==> s < Pow(2, 64 * q)
    ensures TopDigit(s, q) == 2 <== s == 2 * Pow(2, 64 * q)
    ensures Pow(2, 64 * q) <= s < 2 * Pow(2, 64 * q) ==> TopDigit(s, q) == 1
  {
    var p := Pow(2, 64 * q);
    PowPos(2, 64 * q);
    if s < p {
      DivModUnique(s, p, 0, s);
    } else if s < 2 * p {
      DivModUnique(s, p, 1, s - p);
    } else {
      QuotientRemainder(s, p, s / p, s % p);
      MulCancel(0, s / p, p) by {
        MulComm(p, s / p);
      }
      if s == 2 * p {
        DivModUnique(s, p, 2, 0);
      }
    }
  }

  lemma {:induction false} LimbCountOfPower(i: nat)
    ensures Pow(B, i) >= 1 && LimbCount(Pow(B, i)) == i + 1
  {
    PowPos(B, i);
    if i > 0 {
      LimbCountOfPower(i - 1);
      assert Pow(B, i) / B == Pow(B, i - 1);
    } else {
      assert LimbCount(1) == 1 + LimbCount(0);
    }
  }

  /** When the written sum is the one promised: below 2^n no carry leaves the limbs of the longer
      operand; with 2^n itself on one side, there is something on the other, but not 2^n again. */
  predicate AddsRight(a: nat, b: nat, q: nat) {
    if Max(a, b) < Pow(2, 64 * q) then a + b < Pow(B, Covered(a, b))
    else 1 <= Min(a, b) < Pow(2, 64 * q)
  }

  lemma WrittenAddExact(a: nat, b: nat, q: nat)
    requires InRing(a, 64 * q) && InRing(b, 64 * q)
    ensures WrittenAdd(a, b, q) == AddMod(a, b, 64 * q) <==> AddsRight(a, b, q)
  {
    var p := Pow(2, 64 * q);
    ModulusLimbs(q);
    TopDigitBound(CoveredSum(a, b), q);
    if Max(a, b) < p {
      ShortSum(a, b, q);
    } else {
      LongSum(a, b, q);
    }
  }

  /** Both operands below 2^n: the sum in their limbs is the sum or one power of B short of it. */
  lemma ShortSum(a: nat, b: nat, q: nat)
    requires Max(a, b) < Pow(B, q)
    ensures Pow(B, Covered(a, b)) <= Pow(B, q)
    ensures CoveredSum(a, b) == if a + b < Pow(B, Covered(a, b)) then a + b else a + b - Pow(B, Covered(a, b))
  {
    CoveredBounds(a, b, q);
    LostCarry(a, b, Pow(B, Covered(a, b)));
  }

  lemma CoveredBounds(a: nat, b: nat, q: nat)
    requires Max(a, b) < Pow(B, q)
    ensures Max(a, b) < Pow(B, Covered(a, b)) <= Pow(B, q)
  {
    LimbCountAtMost(a, q);
    LimbCountAtMost(b, q);
    LimbCountFits(a);
    LimbCountFits(b);
    PowMono(B, Covered(a, b), q);
    PowMono(B, Min(LimbCount(a), LimbCount(b)), Covered(a, b));
  }

  lemma LostCarry(a: nat, b: nat, w: int)
    requires Max(a, b) < w
    ensures (a + b) % w == if a + b < w then a + b else a + b - w
  {
    DivModUnique(a + b, w, if a + b < w then 0 else 1, if a + b < w then a + b else a + b - w);
  }

  /** One operand is 2^n: all q + 1 limbs are covered, and no carry leaves them. */
  lemma LongSum(a: nat, b: nat, q: nat)
    requires Max(a, b) == Pow(B, q)
    ensures CoveredSum(a, b) == a + b && Pow(B, q + 1) == B * Pow(B, q)
  {
    LimbCountOfPower(q);
    PowMono(B, q, q + 1);
    PowStrictMono(B, q, q + 1);
    LimbCountAtMost(a, q + 1);
    LimbCountAtMost(b, q + 1);
    DivModUnique(a + b, Pow(B, q + 1), 0, a + b);
  }

  // ------------------------------------------------------------------ subtraction and negation

  /** Subtraction: a negative difference is taken from 2^n, where the comment says 2^n + 1; the lowest
      limb of the simulated modulus is zero. */
  function WrittenSub(a: nat, b: nat, n: nat): nat
    requires b - a <= Pow(2, n)
  {
    if a < b then Pow(2, n) - (b - a) else a - b
  }

  lemma WrittenSubExact(a: nat, b: nat, n: nat)
    requires InRing(a, n) && InRing(b, n)
    ensures WrittenSub(a, b, n) == SubMod(a, b, n) <==> b <= a
    ensures a < b ==> WrittenSub(a, b, n) == SubMod(a, b, n) - 1
  {
  }

  /** Negation, with the same modulus. */
  function WrittenNegate(a: nat, n: nat): int {
    Pow(2, n) - a
  }

  /** It is never right. */
  lemma WrittenNegateWrong(a: nat, n: nat)
    requires InRing(a, n)
    ensures WrittenNegate(a, n) != NegateMod(a, n)
  {
    PowPos(2, n);
  }

  /** An input: of zero and one it leaves 2^n - 1, which stands for -2, instead of 2^n, which stands
      for -1. */
  lemma ZeroAndOne(u: nat, t: nat, n: nat)
    requires u == 0 && t == 1 && n >= 1
    ensures InRing(u, n) && InRing(t, n) && SubMod(u, t, n) == Pow(2, n) && WrittenSub(u, t, n) == Pow(2, n) - 1
  {
    PowPos(2, n);
  }

  /** What is left of the difference where it is read by its length. The length field of a negative
      one, taken from 2^n, is set to the place of its highest limb, one short, and that limb is lost. */
  function ReadDifference(a: nat, b: nat, n: nat): nat
    requires b - a <= Pow(2, n)
  {
    if b <= a then a - b else WithoutTop(WrittenSub(a, b, n))
  }

  function WithoutTop(v: nat): (r: nat)
    ensures r <= v
  {
    if v == 0 then 0
    else
      PowPos(B, LimbCount(v) - 1);
      Lower(v, Pow(B, LimbCount(v) - 1));
      v % Pow(B, LimbCount(v) - 1)
  }

  lemma Lower(v: nat, p: int)
    requires p > 0
    ensures 0 <= v % p <= v && v % p < p
  {
    QuotientRemainder(v, p, v / p, v % p);
    MulNat(p, v / p);
  }

  lemma ReadDifferenceExact(a: nat, b: nat, n: nat)
    requires InRing(a, n) && InRing(b, n)
    ensures ReadDifference(a, b, n) == SubMod(a, b, n) <==> b <= a
  {
  }

  // ------------------------------------------------------------------ shifts

  /** The value the next routine reads from the shared buffer after a shift by s < 2n bits. By
      zero bits the limbs are copied and the length is left at what it was. Otherwise the lower part,
      moved up, less the upper part, with the written subtraction. In the upper half of the period
      only an empty result is negated, which sets bit n and leaves nothing below it to read. By just n
      bits the lower part is not trimmed, so that an upper part of one wraps it around. */
  function ShiftRead(x: nat, s: nat, q: nat, len: nat): nat
    requires q >= 1 && (s == 0 || InRing(x, 64 * q)) && s < 128 * q
  {
    var n := 64 * q;
    PowPos(B, len);
    PowPos(2, n);
    Lower(x, Pow(B, len));
    if s == 0 then x % Pow(B, len)
    else if s == n then (if x == Pow(2, n) then Pow(2, n) - 1 else x)
    else PartsRead(x, if s < n then s else s - n, n)
  }

  function PartsRead(x: nat, r: nat, n: nat): nat
    requires 0 < r < n && InRing(x, n)
  {
    PowPos(2, n - r);
    ShiftParts(x, r, n, Pow(2, n - r), x % Pow(2, n - r), x / Pow(2, n - r));
    ReadDifference(x % Pow(2, n - r) * Pow(2, r), x / Pow(2, n - r), n)
  }

  /** By zero bits it is right if and only if the element fits the length left over. */
  lemma CopiedShift(x: nat, q: nat, len: nat)
    requires q >= 1 && InRing(x, 64 * q)
    ensures ShiftRead(x, 0, q, len) == CyclicShift(x, 0, 64 * q) <==> x < Pow(B, len)
  {
    PowPos(B, len);
    Lower(x, Pow(B, len));
    DivModUnique(0, 2 * (64 * q), 0, 0);
    if x < Pow(B, len) {
      DivModUnique(x, Pow(B, len), 0, x);
    }
  }

  /** By 0 < s < n bits it is right if and only if the upper part is not larger than the lower part
      moved up. */
  lemma LowerHalfShift(x: nat, s: nat, q: nat, len: nat)
    requires q >= 1 && InRing(x, 64 * q) && 0 < s < 64 * q
    ensures Pow(2, 64 * q - s) > 0
    ensures ShiftRead(x, s, q, len) == CyclicShift(x, s, 64 * q)
       <==> x / Pow(2, 64 * q - s) <= x % Pow(2, 64 * q - s) * Pow(2, s)
  {
    var n := 64 * q;
    var p := Pow(2, n - s);
    PowPos(2, n - s);
    DivModUnique(s, 2 * n, 0, s);
    ShiftParts(x, s, n, p, x % p, x / p);
    ReadDifferenceExact(x % p * Pow(2, s), x / p, n);
  }

  /** The parts of an element, and of its lower part moved up: the upper part is larger only if the
      lower one is zero, and equal only in zero. */
  lemma Parts(x: nat, r: nat, n: nat) returns (p: nat, t: nat, lo: nat, hi: nat, a: nat)
    requires 0 < r < n && InRing(x, n)
    ensures p == Pow(2, n - r) > 0 && t == Pow(2, r) && lo == x % p && hi == x / p && a == lo * t && x == hi * p + lo
    ensures hi <= t && (a < hi <==> lo == 0 && hi > 0) && (a == hi <==> x == 0) && (x == 0 ==> lo == 0 && hi == 0)
    ensures (lo == 0 ==> a == 0) && (lo > 0 ==> t <= a)
  {
    PowPos(2, n - r);
    PowPos(2, r);
    PowAdd(2, n - r, r);
    p, t, lo, hi := Pow(2, n - r), Pow(2, r), x % Pow(2, n - r), x / Pow(2, n - r);
    QuotientRemainder(x, p, hi, lo);
    MulComm(p, hi);
    MulComm(p, t);
    MulNat(lo, t);
    a := lo * t;
    PartsCompared(x, p, t, lo, hi);
  }

  lemma PartsCompared(x: nat, p: int, t: int, lo: nat, hi: nat)
    requires p > 0 && t > 0 && x == hi * p + lo && x <= t * p
    ensures hi <= t && (lo * t < hi <==> lo == 0 && hi > 0) && (lo * t == hi <==> x == 0)
    ensures x == 0 ==> lo == 0 && hi == 0
    ensures (lo == 0 ==> lo * t == 0) && (lo > 0 ==> t <= lo * t)
  {
    assert (t + 1) * p == t * p + p;
    MulCancel(hi, t + 1, p);
    ZeroParts(x, p, lo, hi);
    if lo > 0 {
      MulMono(1, lo, t);
      if hi == lo * t {
        OnePastTop(x, p, t, lo, hi);
      }
    }
  }

  lemma OnePastTop(x: nat, p: int, t: int, lo: nat, hi: nat)
    requires lo >= 1 && t >= 1 && hi <= t && hi == lo * t && x == hi * p + lo
    ensures x > t * p
  {
    MulMono(1, lo, t);
  }

  /** So by 0 < s < n bits every element comes out right but the multiples of 2^(n - s), other than
      zero. */
  lemma LowerHalfElements(x: nat, s: nat, q: nat, len: nat)
    requires q >= 1 && InRing(x, 64 * q) && 0 < s < 64 * q
    ensures Pow(2, 64 * q - s) > 0
    ensures ShiftRead(x, s, q, len) == CyclicShift(x, s, 64 * q) <==> x == 0 || x % Pow(2, 64 * q - s) != 0
  {
    var p, t, lo, hi, a := Parts(x, s, 64 * q);
    LowerHalfShift(x, s, q, len);
  }

  lemma ZeroParts(x: nat, p: int, lo: nat, hi: nat)
    requires p > 0 && x == hi * p + lo
    ensures x == 0 <==> lo == 0 && hi == 0
  {
    if hi > 0 {
      MulMono(1, hi, p);
    }
  }

  /** By n < s < 2n bits, that is r = s - n short of the period's half, nothing is negated: right if
      and only if the difference of the parts is zero, or what is read of it is its own negative. */
  lemma UpperHalfShift(x: nat, s: nat, q: nat, len: nat, a: nat, hi: nat)
    requires q >= 1 && InRing(x, 64 * q) && 64 * q < s < 128 * q && Pow(2, 128 * q - s) > 0
    requires hi == x / Pow(2, 128 * q - s) && a == x % Pow(2, 128 * q - s) * Pow(2, s - 64 * q)
    ensures InRing(a, 64 * q) && InRing(hi, 64 * q)
    ensures ShiftRead(x, s, q, len) == CyclicShift(x, s, 64 * q)
       <==> a == hi || (a < hi && WithoutTop(Pow(2, 64 * q) - (hi - a)) == hi - a)
  {
    UpperHalfIs(x, s, 64 * q, a, hi);
    NegativeOrZero(a, hi, 64 * q);
  }

  lemma UpperHalfIs(x: nat, s: nat, n: nat, a: nat, hi: nat)
    requires InRing(x, n) && n < s < 2 * n && Pow(2, 2 * n - s) > 0
    requires hi == x / Pow(2, 2 * n - s) && a == x % Pow(2, 2 * n - s) * Pow(2, s - n)
    ensures InRing(a, n) && InRing(hi, n) && CyclicShift(x, s, n) == NegateMod(SubMod(a, hi, n), n)
    ensures PartsRead(x, s - n, n) == ReadDifference(a, hi, n)
  {
    DivModUnique(s, 2 * n, 0, s);
    ShiftParts(x, s - n, n, Pow(2, 2 * n - s), x % Pow(2, 2 * n - s), hi);
  }

  lemma NegativeOrZero(a: nat, hi: nat, n: nat)
    requires n >= 1 && InRing(a, n) && InRing(hi, n)
    ensures ReadDifference(a, hi, n) == NegateMod(SubMod(a, hi, n), n)
       <==> a == hi || (a < hi && WithoutTop(Pow(2, n) - (hi - a)) == hi - a)
  {
    assert Pow(2, n) == 2 * Pow(2, n - 1);
  }

  /** By whole limbs: right only for zero and, by 2n - 64 bits, for 2^(n - 1). */
  lemma UpperHalfElements(x: nat, s: nat, q: nat, len: nat)
    requires q >= 2 && InRing(x, 64 * q) && 64 * q < s < 128 * q && s % 64 == 0
    ensures ShiftRead(x, s, q, len) == CyclicShift(x, s, 64 * q)
       <==> x == 0 || (s == 128 * q - 64 && x == Pow(2, 64 * q - 1))
  {
    var p, t, lo, hi, a := Parts(x, s - 64 * q, 64 * q);
    UpperHalfShift(x, s, q, len, a, hi);
    UpperHalfCases(x, s, q, p, lo, hi, a);
  }

  lemma UpperHalfCases(x: nat, s: nat, q: nat, p: nat, lo: nat, hi: nat, a: nat)
    requires q >= 2 && 64 * q < s < 128 * q && s % 64 == 0 && p == Pow(2, 128 * q - s) > 0
    requires lo == x % p && x == hi * p + lo && hi <= Pow(2, s - 64 * q) && (a < hi <==> lo == 0 && hi > 0)
    requires (a == hi <==> x == 0) && (lo == 0 ==> a == 0)
    ensures a < hi ==> hi - a <= Pow(2, 64 * q)
    ensures a == hi || (a < hi && WithoutTop(Pow(2, 64 * q) - (hi - a)) == hi - a)
       <==> x == 0 || (s == 128 * q - 64 && x == Pow(2, 64 * q - 1))
  {
    if a < hi {
      WholeLimbs(s - 64 * q, q);
      NegativeRead(hi, s - 64 * q, q);
      OwnNegative(x, hi, s - 64 * q, q, p);
    } else if x == Pow(2, 64 * q - 1) && s == 128 * q - 64 {
      TopIsMultiple(x, p, 64 * q, s);
    }
  }

  /** What is read of a negative difference `hi` of parts, r bits high: B^(q-1) - hi. */
  lemma NegativeRead(hi: nat, r: nat, q: nat)
    requires q >= 2 && r <= 64 * (q - 1) && 0 < hi <= Pow(2, r)
    ensures hi <= Pow(B, q - 1) && Pow(2, 64 * q) - hi > 0
    ensures WithoutTop(Pow(2, 64 * q) - hi) == if hi == Pow(B, q - 1) then 0 else Pow(B, q - 1) - hi
  {
    ModulusLimbs(q);
    ModulusLimbs(q - 1);
    PowMono(2, r, 64 * (q - 1));
    TopLost(B * Pow(B, q - 1) - hi, Pow(B, q - 1), hi, q);
  }

  lemma TopLost(v: nat, w: nat, hi: nat, q: nat)
    requires q >= 2 && w == Pow(B, q - 1) && v == B * w - hi && 0 < hi <= w
    ensures WithoutTop(v) == if hi == w then 0 else w - hi
  {
    assert Pow(B, q) == B * w;
    LimbCountIs(v, q);
    if hi == w {
      DivModUnique(v, w, B - 1, 0);
    } else {
      DivModUnique(v, w, B - 1, w - hi);
    }
  }

  lemma WholeLimbs(r: nat, q: nat)
    requires r % 64 == 0 && r < 64 * q
    ensures r <= 64 * (q - 1) && (r < 64 * (q - 1) ==> r <= 64 * (q - 1) - 64)
  {
  }

  /** B^(q-1) - hi is hi only at 2^(n-1), moved up by all but one limb. */
  lemma OwnNegative(x: nat, hi: nat, r: nat, q: nat, p: int)
    requires q >= 2 && r <= 64 * (q - 1) && (r < 64 * (q - 1) ==> r <= 64 * (q - 1) - 64)
    requires p == Pow(2, 64 * q - r) && x == hi * p && 0 < hi <= Pow(2, r)
    ensures Pow(B, q - 1) == 2 * hi <==> r == 64 * (q - 1) && x == Pow(2, 64 * q - 1)
  {
    var m := 64 * (q - 1);
    ModulusLimbs(q - 1);
    assert Pow(2, m) == 2 * Pow(2, m - 1);
    if r < m {
      PowMono(2, r, m - 64);
      PowStrictMono(2, m - 64, m - 1);
    } else {
      PowAdd(2, m - 1, 64);
      LimbIsPower(64);
      assert m - 1 + 64 == 64 * q - 1;
    }
  }

  lemma TopIsMultiple(x: nat, p: int, n: nat, s: nat)
    requires n >= 128 && s == 2 * n - 64 && x == Pow(2, n - 1) && p == Pow(2, 2 * n - s)
    ensures p > 0 && x % p == 0 && x / p > 0
  {
    PowPos(2, 64);
    PowAdd(2, n - 65, 64);
    PowPos(2, n - 65);
    DivModUnique(x, p, Pow(2, n - 65), 0);
  }

  /** By just n bits: right only for zero. */
  lemma HalfPeriodShift(x: nat, q: nat, len: nat)
    requires q >= 1 && InRing(x, 64 * q)
    ensures ShiftRead(x, 64 * q, q, len) == CyclicShift(x, 64 * q, 64 * q) <==> x == 0
  {
    var n := 64 * q;
    DivModUnique(n, 2 * n, 0, n);
    PowPos(2, n);
    assert Pow(2, n) == 2 * Pow(2, n - 1);
    PowMono(2, 2, n);
    assert Pow(2, 2) == 4;
    if x == Pow(2, n) {
      DivModUnique(x, Pow(2, n), 1, 0);
    } else {
      DivModUnique(x, Pow(2, n), 0, x);
    }
    assert Pow(2, 0) == 1;
    assert CyclicShift(x, n, n) == NegateMod(ShiftBelow(x, 0, n), n);
  }

  // ------------------------------------------------------------------ butterflies

  lemma ShiftReadInRing(x: nat, s: nat, q: nat, len: nat)
    requires q >= 1 && InRing(x, 64 * q) && s < 128 * q
    ensures InRing(ShiftRead(x, s, q, len), 64 * q)
  {
    PowPos(2, 64 * q);
    PowPos(B, len);
    Lower(x, Pow(B, len));
    if s != 0 && s != 64 * q {
      var r := if s < 64 * q then s else s - 64 * q;
      var p, t, lo, hi, a := Parts(x, r, 64 * q);
      ShiftParts(x, r, 64 * q, p, lo, hi);
    }
  }

  /** A forward butterfly on the written helpers, t being what it reads of its shifted input. At a
      later twiddle t is right if and only if the input is zero or no multiple of 2^(n - exp); at the
      first one if and only if the input fits the length the shared buffer was left with. On what it
      read, both outputs are right if and only if the sum loses no carry and t is not above u. */
  lemma ForwardButterfly(u: nat, v: nat, exp: nat, q: nat, len: nat, t: nat)
    requires q >= 1 && exp < 64 * q && InRing(u, 64 * q) && InRing(v, 64 * q) && t == ShiftRead(v, exp, q, len)
    ensures Pow(2, 64 * q - exp) > 0 && InRing(t, 64 * q)
    ensures t == CyclicShift(v, exp, 64 * q)
       <==> if exp == 0 then v < Pow(B, len) else v == 0 || v % Pow(2, 64 * q - exp) != 0
    ensures WrittenAdd(u, t, q) == AddMod(u, t, 64 * q) && ReadDifference(u, t, 64 * q) == SubMod(u, t, 64 * q)
       <==> AddsRight(u, t, q) && t <= u
  {
    ShiftReadInRing(v, exp, q, len);
    PowPos(2, 64 * q - exp);
    if exp == 0 {
      CopiedShift(v, q, len);
    } else {
      LowerHalfElements(v, exp, q, len);
    }
    WrittenAddExact(u, t, q);
    ReadDifferenceExact(u, t, 64 * q);
  }

  /** The shifted input of an inverse butterfly with whole-limb twiddles: at the first one as in the
      forward direction; at a later one right only for zero and, by one limb, for 2^(n - 1). */
  lemma InverseButterfly(v: nat, exp: nat, q: nat, len: nat, s: nat)
    requires q >= 2 && exp <= 64 * q && exp % 64 == 0 && InRing(v, 64 * q) && s == Exponent(exp, 64 * q, true)
    ensures s < 128 * q
    ensures ShiftRead(v, s, q, len) == Turn(v, exp, 64 * q, true)
       <==> if exp == 0 then v < Pow(B, len) else v == 0 || (exp == 64 && v == Pow(2, 64 * q - 1))
  {
    InverseExponent(exp, q, s);
    if exp == 0 {
      CopiedShift(v, q, len);
    } else if exp == 64 * q {
      HalfPeriodShift(v, q, len);
    } else {
      UpperHalfElements(v, s, q, len);
    }
  }

  lemma InverseExponent(exp: nat, q: nat, s: nat)
    requires q >= 2 && exp <= 64 * q && exp % 64 == 0 && s == Exponent(exp, 64 * q, true)
    ensures s == (if exp == 0 then 0 else 128 * q - exp) && s % 64 == 0 && s < 128 * q
  {
    Complement(exp, 64 * q, s);
    if exp == 0 {
      DivModUnique(s, 64, 0, 0);
    } else {
      DivModUnique(s, 64, 2 * q - exp / 64, 0);
    }
  }

  lemma Complement(exp: nat, n: nat, s: nat)
    requires n >= 1 && exp <= n && s == Exponent(exp, n, true)
    ensures s == if exp == 0 then 0 else 2 * n - exp
  {
    if exp == 0 {
      DivModUnique(2 * n, 2 * n, 1, 0);
    } else {
      DivModUnique(2 * n - exp, 2 * n, 0, 2 * n - exp);
    }
  }

  // ------------------------------------------------------------------ the first pass, and small transforms

  /** Throughout the first pass the shared buffer has no length: the lower input is read as zero, and
      both outputs are the upper one. */
  lemma FirstPassReads(u: nat, v: nat, q: nat)
    requires q >= 1 && InRing(u, 64 * q) && InRing(v, 64 * q)
    ensures ShiftRead(v, 0, q, 0) == 0 && ReadDifference(u, 0, 64 * q) == u
    ensures u < Pow(2, 64 * q) ==> WrittenAdd(u, 0, q) == u
    ensures WrittenAdd(u, 0, q) == u <==> u < Pow(2, 64 * q)
  {
    PowPos(2, 64 * q);
    assert Pow(B, 0) == 1 && v % 1 == 0;
    WrittenAddExact(u, 0, q);
    LimbCountFits(u);
    assert LimbCount(0) == 0;
    if u == Pow(2, 64 * q) {
      TopComesOutWrong(u, q);
    }
  }

  lemma TopComesOutWrong(u: nat, q: nat)
    requires q >= 1 && u == Pow(2, 64 * q)
    ensures WrittenAdd(u, 0, q) == Pow(B, q + 1) - 1 > u
  {
    ModulusLimbs(q);
    LongSum(u, 0, q);
    TopDigitBound(u, q);
  }

  /** So a transform of two elements, which is one butterfly, is right if and only if the second
      element is zero and the first is not 2^n. */
  lemma TwoPoints(u: nat, v: nat, q: nat)
    requires q >= 1 && InRing(u, 64 * q) && InRing(v, 64 * q)
    ensures WrittenAdd(u, 0, q) == AddMod(u, v, 64 * q) && ReadDifference(u, 0, 64 * q) == SubMod(u, v, 64 * q)
       <==> v == 0 && u < Pow(2, 64 * q)
  {
    FirstPassReads(u, v, q);
    if u == Pow(2, 64 * q) {
      TopComesOutWrong(u, q);
      assert InRing(AddMod(u, v, 64 * q), 64 * q);
    }
  }

  /** An input: five and one come out as five and five. */
  lemma FiveAndOne(u: nat, v: nat, q: nat)
    requires q >= 1 && u == 5 && v == 1
    ensures InRing(u, 64 * q) && InRing(v, 64 * q)
    ensures WrittenAdd(u, 0, q) == 5 == ReadDifference(u, 0, 64 * q)
    ensures AddMod(u, v, 64 * q) == 6 && SubMod(u, v, 64 * q) == 4
  {
    PowMono(2, 3, 64 * q);
    assert Pow(2, 2) == 4 && Pow(2, 3) == 8;
    FirstPassReads(u, v, q);
  }

  /** An input for every size and every shift by 0 < s < n bits: 2^(n - s), where 2^n is right. */
  lemma PowerShiftsWrong(x: nat, s: nat, q: nat, len: nat)
    requires q >= 1 && 0 < s < 64 * q && x == Pow(2, 64 * q - s)
    ensures InRing(x, 64 * q) && ShiftRead(x, s, q, len) != CyclicShift(x, s, 64 * q) == Pow(2, 64 * q)
  {
    PowMono(2, 64 * q - s, 64 * q);
    DivModUnique(x, x, 1, 0);
    LowerHalfElements(x, s, q, len);
    PowPos(2, s);
    PowAdd(2, 64 * q - s, s);
    CongCanonical(CyclicShift(x, s, 64 * q), Pow(2, 64 * q), Modulus(64 * q));
  }

  /** Of a transform of four elements, in shuffled order, slots 0 and 2 hold the first element. They
      are right if and only if that is not 2^n, the second is zero, and the others add up to zero in
      the ring. */
  lemma FourPoints(y0: nat, y1: nat, y2: nat, y3: nat, q: nat, first: nat, even: int, odd: int)
    requires q >= 1 && InRing(y0, 64 * q) && InRing(y1, 64 * q) && InRing(y2, 64 * q) && InRing(y3, 64 * q)
    requires first == WrittenAdd(y0, 0, q) && even == AddMod(y0, y1, 64 * q) && odd == AddMod(y2, y3, 64 * q)
    ensures WrittenAdd(first, 0, q) == AddMod(even, odd, 64 * q) && first == SubMod(even, odd, 64 * q)
       <==> y0 < Pow(2, 64 * q) && y1 == 0 && (y2 + y3 == 0 || y2 + y3 == Modulus(64 * q))
  {
    FirstPassReads(y0, y1, q);
    EvenSlots(y0, y1, y2, y3, even, odd, 64 * q);
    if y0 == Pow(2, 64 * q) {
      TopComesOutWrong(y0, q);
    } else {
      FirstPassReads(first, 0, q);
    }
  }

  lemma EvenSlots(y0: nat, y1: nat, y2: nat, y3: nat, even: int, odd: int, n: nat)
    requires n >= 1 && InRing(y0, n) && InRing(y1, n) && InRing(y2, n) && InRing(y3, n)
    requires even == AddMod(y0, y1, n) && odd == AddMod(y2, y3, n)
    ensures InRing(SubMod(even, odd, n), n)
    ensures y0 == AddMod(even, odd, n) && y0 == SubMod(even, odd, n)
       <==> y1 == 0 && (y2 + y3 == 0 || y2 + y3 == Modulus(n))
  {
    assert Pow(2, n) == 2 * Pow(2, n - 1);
  }
}
