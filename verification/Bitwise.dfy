/** Bit counts of unbounded numbers: what the count-zero instructions and the digit counter
    return, tied to powers of two. */
module Bitwise {
  import opened Arith

  /** Trailing zero bits of a positive number. */
  function Ctz(x: nat): nat
    requires x >= 1
  {
    if x % 2 == 1 then 0 else 1 + Ctz(x / 2)
  }

  predicate IsPowerOfTwo(x: nat) {
    x >= 1 && (x == 1 || (x % 2 == 0 && IsPowerOfTwo(x / 2)))
  }

  lemma {:induction false} ShiftIsPower(x: nat)
    requires IsPowerOfTwo(x)
    ensures Pow(2, Ctz(x)) == x
  {
    if x > 1 {
      ShiftIsPower(x / 2);
    }
  }

  /** The number of binary digits. */
  function Bits(a: nat): nat {
    if a == 0 then 0 else 1 + Bits(a / 2)
  }

  lemma {:induction false} BitsBound(a: nat)
    ensures a < Pow(2, Bits(a)) && (a >= 1 ==> Pow(2, Bits(a) - 1) <= a)
  {
    if a > 1 {
      BitsBound(a / 2);
    }
  }

  lemma {:induction false} BitsOfPower(e: nat)
    ensures Pow(2, e) >= 1 && Bits(Pow(2, e)) == e + 1
  {
    if e > 0 {
      BitsOfPower(e - 1);
      assert Pow(2, e) / 2 == Pow(2, e - 1);
    }
  }

  /** A number without its factors of two. */
  function OddPart(x: nat): (r: nat)
    requires x >= 1
    ensures r % 2 == 1 && r <= x
  {
    if x % 2 == 1 then x else OddPart(x / 2)
  }

  lemma {:induction false} OddPartSplit(x: nat)
    requires x >= 1
    ensures x == Pow(2, Ctz(x)) * OddPart(x)
  {
    if x % 2 == 0 {
      OddPartSplit(x / 2);
      DoubleProduct(Pow(2, Ctz(x / 2)), OddPart(x / 2));
    }
  }

  lemma {:induction false} CtzScaled(x: nat, e: nat)
    requires x >= 1
    ensures Pow(2, e) * x >= 1 && Ctz(Pow(2, e) * x) == e + Ctz(x)
  {
    if e > 0 {
      CtzScaled(x, e - 1);
      DoubleProduct(Pow(2, e - 1), x);
      CtzDouble(Pow(2, e - 1) * x);
    }
  }

  lemma DoubleProduct(p: int, x: int)
    ensures (2 * p) * x == 2 * (p * x)
  {
  }

  lemma CtzDouble(y: nat)
    requires y >= 1
    ensures Ctz(2 * y) == 1 + Ctz(y)
  {
  }

  lemma {:induction false} CtzBelow(x: nat, m: nat)
    requires 1 <= x < Pow(2, m)
    ensures Ctz(x) < m
  {
    if x % 2 == 0 {
      CtzBelow(x / 2, m - 1);
    }
  }

  /** Higher digits do not change the trailing zeros of a number that is not zero. */
  lemma {:induction false} CtzLow(l: nat, h: nat, m: nat)
    requires 1 <= l < Pow(2, m)
    ensures l + Pow(2, m) * h >= 1 && Ctz(l + Pow(2, m) * h) == Ctz(l)
  {
    PowPos(2, m);
    MulNat(Pow(2, m), h);
    if m > 0 {
      DoubleProduct(Pow(2, m - 1), h);
      if l % 2 == 0 {
        CtzLow(l / 2, h, m - 1);
      }
    }
  }
}
