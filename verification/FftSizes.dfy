/** The transform sizes: the search for a split that leaves room for the coefficients, and what
    the sizes it finds mean for the product. */
module FftSizes {
  import opened Arith
  import opened Bitwise
  import opened Limbs
  import opened Polynomials
  import opened Spectrum
  import opened FftMultiply

  function Ceiling(x: nat, d: nat): nat
    requires d >= 1
  {
    (x + d - 1) / d
  }

  /** Tries k = 2, 3, ... until d = 2^k windows of m bits leave room for the coefficients. */
  method BestMetadata(maxBits: nat) returns (k: nat, d: nat, m: nat, n: nat)
    requires maxBits >= 1
    ensures Sized(n, m, k) && d == Pow(2, k) && m == Ceiling(maxBits, d) && maxBits <= n
    ensures k + 2 * m + 2 <= n
    ensures k == if maxBits > 4 then 2 else 3
  {
    k := 2;
    while true
      invariant k == 2 || (k == 3 && maxBits <= 4)
      decreases 4 - k
    {
      assert Pow(2, 2) == 4 && Pow(2, 3) == 8;
      d := Pow(2, k);
      m := Ceiling(maxBits, d);
      n := d * m;
      if k + 2 * m + 2 <= n {
        break;
      }
      k := k + 1;
    }
  }

  /** For operands of up to `size` limbs the search stops at once: four windows, and a modulus
      with just as many bits as the longer operand. */
  lemma LimbOperands(size: nat, k: nat, d: nat, m: nat, n: nat)
    requires size >= 1 && k == (if 64 * size > 4 then 2 else 3) && d == Pow(2, k)
    requires m == Ceiling(64 * size, d) && Sized(n, m, k)
    ensures k == 2 && d == 4 && m == 16 * size && n == 64 * size
  {
    assert Pow(2, 2) == 4;
  }

  /** The search of the arena version, which covers both operands with the least power of two. Its bound
      on the room only gets easier to meet as k grows, so it never stops before its limit: k is 32, and
      below 2^32 bits a window has no bits at all; from there on 2^32 windows cover the modulus exactly. */
  method ArenaMetadata(total: nat) returns (k: nat, d: nat, m: nat, n: nat)
    requires total >= 33
    ensures total <= n < 2 * total && IsPowerOfTwo(n) && k == 32 && d == Pow(2, k) >= 4
    ensures (n < d ==> m == 0) && (n >= d ==> n == d * m)
  {
    n := CoveringPower(total);
    k, d := 2, 4;
    m := n / d;
    assert Pow(2, 2) == 4;
    assert IsPower(d, 2, k);
    while k < 32
      invariant 2 <= k <= 32 && IsPower(d, 2, k) && d >= 4 && m == n / d
    {
      var nextM := NextWindow(n, k, d);
      if (k + 1) + 2 * nextM + 2 > n {
        break;
      }
      k, d, m := k + 1, 2 * d, nextM;
    }
    NoBits(n, d);
    WindowsCover(n, k, d);
  }

  /** A power of two is a multiple of every smaller one. */
  lemma WindowsCover(n: nat, k: nat, d: nat)
    requires IsPowerOfTwo(n) && d == Pow(2, k) >= 1
    ensures n >= d ==> n == d * (n / d)
  {
    if n >= d {
      var j := Ctz(n);
      ShiftIsPower(n);
      if j < k {
        PowStrictMono(2, j, k);
      }
      PowAdd(2, k, j - k);
      MulComm(d, Pow(2, j - k));
      DivModUnique(n, d, Pow(2, j - k), 0);
    }
  }

  /** There is one power of two to find. */
  lemma {:induction false} OneCoveringPower(n: nat, p: nat, total: nat)
    requires IsPowerOfTwo(n) && IsPowerOfTwo(p) && total <= n < 2 * total && total <= p < 2 * total
    ensures n == p
  {
    if n > 1 && p > 1 {
      OneCoveringPower(n / 2, p / 2, (total + 1) / 2);
    }
  }

  method NextWindow(n: nat, k: nat, d: nat) returns (m: nat)
    requires n >= 64 && k < 32 && d >= 4 && IsPower(d, 2, k)
    ensures m == n / (2 * d) && (k + 1) + 2 * m + 2 <= n && IsPower(2 * d, 2, k + 1)
  {
    m := n / (2 * d);
    SmallerWindows(n, 2 * d, m);
    assert d == Pow(2, k);
    assert Pow(2, k + 1) == 2 * Pow(2, k);
  }

  lemma NoBits(n: nat, d: nat)
    requires d >= 1
    ensures n < d ==> n / d == 0
  {
    if n < d {
      DivModUnique(n, d, 0, n);
    }
  }

  /** Doubles one until it covers the bits; from 33 bits on that is 64 or more. */
  method CoveringPower(total: nat) returns (n: nat)
    requires total >= 33
    ensures total <= n < 2 * total && n >= 64 && IsPowerOfTwo(n)
  {
    n := 1;
    while n < total
      invariant 1 <= n < 2 * total && IsPowerOfTwo(n) && (n <= 32 ==> 32 % n == 0) && (n > 32 ==> n >= 64)
      decreases total - n
    {
      n := 2 * n;
    }
  }

  lemma SmallerWindows(n: nat, d: nat, m: nat)
    requires n >= 64 && d >= 8 && m == n / d
    ensures 32 + 2 * m + 2 <= n
  {
    assert n >= d * m;
    MulMono(8, d, m);
  }

  // ------------------------------------------------------------------ what the sizes mean

  lemma {:induction false} EvalGrows(c: seq<int>, x: int, y: int)
    requires 1 <= x <= y && forall i :: 0 <= i < |c| ==> 0 <= c[i]
    ensures 0 <= Eval(c, x) <= Eval(c, y)
  {
    if c != [] {
      EvalGrows(c[1..], x, y);
      MulNat(x, Eval(c[1..], x));
      MulMono(x, y, Eval(c[1..], x));
      MulMono(Eval(c[1..], x), Eval(c[1..], y), y);
    }
  }

  /** Windows are cut at whole limbs but recombined at m-bit distances. They recombine to the
      operand if and only if m is a whole number of limbs, or one window holds everything. */
  lemma WholeLimbWindows(s: seq<Limb>, size: nat, d: nat, m: nat)
    requires size >= 1 && d >= 1 && m <= 64 * size && |s| <= d * size
    ensures Eval(Windows(s, size, d), Pow(2, m)) == Val(s) <==> m == 64 * size || Val(s) < Pow(B, size)
  {
    var w, x, y := Windows(s, size, d), Pow(2, m), Pow(B, size);
    WindowsValue(s, size, d);
    WindowsWithin(s, size, d);
    WindowPower(size, 64 * size);
    PowMono(2, m, 64 * size);
    var low, high := Eval(w[1..], x), Eval(w[1..], y);
    EvalGrows(w[1..], x, y);
    if m < 64 * size {
      PowMono(2, m, 64 * size - 1);
      assert Pow(2, 64 * size) == 2 * Pow(2, 64 * size - 1);
    }
    Separate(w[0], low, high, x, y);
  }

  lemma Separate(w0: int, low: int, high: int, x: int, y: int)
    requires 1 <= x <= y && 0 <= w0 < y && 0 <= low <= high
    ensures x < y ==> (w0 + x * low == w0 + y * high <==> w0 + y * high < y)
  {
    MulMono(low, high, x);
    if high >= 1 {
      MulMono(1, high, y);
      if x < y {
        MulStrictMono(x, y, high);
      }
    } else {
      assert x * low == 0 && y * high == 0;
    }
  }

  /** The modulus found for two operands of the same length does not hold their product: on two
      operands of n one bits the recombined number, bounded as it is, is not the product. */
  lemma FullOperandsWrap(n: nat, m: nat, total: int)
    requires 2 <= m && m <= n && 0 <= total * (Pow(2, m) - 1) <= Pow(2, n) * (Pow(2, n) - 1)
    ensures total != (Pow(2, n) - 1) * (Pow(2, n) - 1)
  {
    PowMono(2, 2, m);
    PowMono(2, m, n);
    assert Pow(2, 2) == 4;
    TooLarge(Pow(2, n), Pow(2, m) - 1, total);
  }

  lemma TooLarge(p: int, q: int, total: int)
    requires p >= 4 && q >= 3 && total * q <= p * (p - 1)
    ensures total != (p - 1) * (p - 1)
  {
    var square := (p - 1) * (p - 1);
    MulNat(p - 1, p - 1);
    MulMono(3, q, square);
    MulMono(2, p - 1, p - 1);
    assert p * (p - 1) == square + (p - 1);
    assert total * q < square * q;
  }
}
