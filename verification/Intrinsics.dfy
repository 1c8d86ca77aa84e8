/** The single-limb primitives (128-bit compiler path), each stated as exact integer arithmetic. */
module Intrinsics {
  import opened Arith
  import opened Limbs

  /** Wrap-around 64-bit sum and its overflow flag. */
  function WrapAdd(a: Limb, b: Limb): Limb {
    (a + b) % B
  }

  /** A comparison result as a carry. */
  function Flag(b: bool): (f: Limb)
    ensures f <= 1
  {
    if b then 1 else 0
  }

  /** Add with carry: two overflowing additions whose flags are or-ed. */
  method AddLimb(a: Limb, b: Limb, carry: nat) returns (sum: Limb, carryOut: nat)
    requires carry <= 1
    ensures carryOut <= 1
    ensures sum + carryOut * B == a + b + carry
  {
    var s1 := WrapAdd(a, b);
    var c1 := Flag(s1 < a);
    sum := WrapAdd(s1, carry);
    var c2 := Flag(sum < s1);
    carryOut := Flag(c1 == 1 || c2 == 1);
  }

  /** Subtract with borrow. */
  method SubLimb(a: Limb, b: Limb, borrow: nat) returns (diff: Limb, borrowOut: nat)
    requires borrow <= 1
    ensures borrowOut <= 1
    ensures diff - borrowOut * B == a - b - borrow
  {
    var d1 := (a - b) % B;
    var b1 := Flag(a < b);
    diff := (d1 - borrow) % B;
    var b2 := Flag(d1 < borrow);
    borrowOut := Flag(b1 == 1 || b2 == 1);
  }

  lemma LimbProduct(a: Limb, b: Limb)
    ensures 0 <= a * b <= (B - 1) * (B - 1)
  {
    MulNat(a, b);
    MulMono(a, B - 1, b);
    MulMono(b, B - 1, B - 1);
  }

  /** Full product in two limbs. */
  method MulLimb(a: Limb, b: Limb) returns (low: Limb, high: Limb)
    ensures low + high * B == a * b
  {
    LimbProduct(a, b);
    var p := a * b;
    low, high := p % B, p / B;
  }

  /** Two limbs by one, with every early return: the quotient saturates on overflow. */
  method DivLimb(lo: Limb, hi: Limb, div: Limb) returns (quot: Limb, rem: Limb, overflowed: bool)
    ensures overflowed <==> hi >= div
    ensures !overflowed ==> lo + hi * B == quot * div + rem && rem < div
    ensures overflowed ==> quot == B - 1 && rem == if div == 0 then 0 else hi % div
  {
    if div == 0 {
      return B - 1, 0, true;
    }
    if lo == 0 && hi == 0 {
      return 0, 0, false;
    }
    if hi == 0 {
      QuotientFits(lo, div);
      return lo / div, lo % div, false;
    }
    if hi >= div {
      return B - 1, hi % div, true;
    }
    var dividend := hi * B + lo;
    MulMono(hi, div - 1, B);
    QuotientFits(dividend, div);
    quot, rem, overflowed := dividend / div, dividend % div, false;
  }

  lemma QuotientFits(x: int, d: int)
    requires 0 < d && (0 <= x < B || 0 <= x < d * B)
    ensures 0 <= x / d < B && 0 <= x % d < d && x == x / d * d + x % d
  {
    MulMono(1, d, B);
    var q := x / d;
    if q >= B {
      MulMono(B, q, d);
    }
    if q < 0 {
      MulMono(q, -1, d);
    }
  }
}
