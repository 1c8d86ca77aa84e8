/** Integer powers, congruence, and the few product laws every other module rests on. */
module Arith {

  function Max(a: int, b: int): int {
    if a >= b then a else b
  }

  function Min(a: int, b: int): int {
    if a <= b then a else b
  }

  function Sgn(x: int): int {
    if x > 0 then 1 else if x < 0 then -1 else 0
  }

  function Pow(b: int, e: nat): int {
    if e == 0 then 1 else b * Pow(b, e - 1)
  }

  lemma MulMono(a: int, b: int, c: int)
    requires a <= b && 0 <= c
    ensures a * c <= b * c
  {
  }

  lemma MulStrictMono(a: int, b: int, c: int)
    requires a < b && 0 < c
    ensures a * c < b * c
  {
  }

  lemma MulCancel(a: int, b: int, c: int)
    requires 0 < c && a * c < b * c
    ensures a < b
  {
    if b <= a {
      MulMono(b, a, c);
    }
  }

  lemma MulNat(a: int, b: int)
    requires 0 <= a && 0 <= b
    ensures 0 <= a * b
  {
  }

  lemma MulBelow(a: int, b: int, p: int, q: int)
    requires 0 <= a < p && 0 <= b < q
    ensures 0 <= a * b < p * q
  {
    MulNat(a, b);
    MulMono(a, p - 1, b);
    MulMono(b, q - 1, p - 1);
    assert (p - 1) * (q - 1) == p * q - p - q + 1;
  }

  lemma MulComm(x: int, y: int)
    ensures x * y == y * x
  {
  }

  lemma MulAssoc(x: int, y: int, z: int)
    ensures (x * y) * z == x * (y * z)
  {
  }

  lemma {:induction false} PowPos(b: int, e: nat)
    requires 0 < b
    ensures 0 < Pow(b, e)
  {
    if e > 0 {
      PowPos(b, e - 1);
      MulStrictMono(0, Pow(b, e - 1), b);
    }
  }

  lemma {:induction false} PowAdd(b: int, e: nat, f: nat)
    ensures Pow(b, e + f) == Pow(b, e) * Pow(b, f)
  {
    if e > 0 {
      PowAdd(b, e - 1, f);
      calc {
        Pow(b, e + f);
        b * (Pow(b, e - 1) * Pow(b, f));
        (b * Pow(b, e - 1)) * Pow(b, f);
      }
    }
  }

  lemma {:induction false} PowMul(b: int, e: nat, f: nat)
    ensures 0 <= e * f && Pow(b, e * f) == Pow(Pow(b, e), f)
  {
    MulNat(e, f);
    if f > 0 {
      assert e * f == e + e * (f - 1);
      PowMul(b, e, f - 1);
      PowAdd(b, e, e * (f - 1));
    }
  }

  lemma {:induction false} PowMono(b: int, e: nat, f: nat)
    requires 1 <= b && e <= f
    ensures 0 < Pow(b, e) <= Pow(b, f)
  {
    PowPos(b, e);
    if e < f {
      PowMono(b, e, f - 1);
      MulMono(1, b, Pow(b, f - 1));
    }
  }

  lemma PowStrict(b: int, e: nat, f: nat)
    requires 2 <= b && Pow(b, e) < Pow(b, f)
    ensures e < f
  {
    if f <= e {
      PowMono(b, f, e);
    }
  }

  lemma PowStrictMono(b: int, e: nat, f: nat)
    requires 2 <= b && e < f
    ensures Pow(b, e) < Pow(b, f)
  {
    PowMono(b, e, f - 1);
    MulStrictMono(1, b, Pow(b, f - 1));
  }

  lemma {:induction false} PowOne(r: nat)
    ensures Pow(1, r) == 1
  {
    if r > 0 {
      PowOne(r - 1);
    }
  }

  lemma {:induction false} PowBaseMono(a: int, b: int, e: nat)
    requires 0 <= a <= b
    ensures 0 <= Pow(a, e) <= Pow(b, e)
  {
    if e > 0 {
      PowBaseMono(a, b, e - 1);
      MulMono(a, b, Pow(a, e - 1));
      MulMono(Pow(a, e - 1), Pow(b, e - 1), b);
      MulNat(a, Pow(a, e - 1));
    }
  }

  lemma {:induction false} PowBaseStrict(a: int, b: int, e: nat)
    requires 0 <= a < b && 1 <= e
    ensures Pow(a, e) < Pow(b, e)
  {
    PowBaseMono(a, b, e - 1);
    PowPos(b, e - 1);
    MulMono(Pow(a, e - 1), Pow(b, e - 1), a);
    MulStrictMono(a, b, Pow(b, e - 1));
  }

  /** `q` and `r` are the quotient and remainder of `x` by `d` as soon as they look like it. */
  lemma DivModUnique(x: int, d: int, q: int, r: int)
    requires 0 < d && 0 <= r < d && x == q * d + r
    ensures x / d == q && x % d == r
  {
    var q', r' := x / d, x % d;
    assert x == q' * d + r';
    assert (q - q') * d == r' - r;
    if q - q' >= 1 {
      MulMono(1, q - q', d);
    } else if q - q' <= -1 {
      MulMono(q - q', -1, d);
    }
  }

  /** Congruence modulo `m`, with the quotient as a witness. */
  ghost predicate Cong(a: int, b: int, m: int) {
    exists q: int :: CongBy(a, b, m, q)
  }

  ghost predicate CongBy(a: int, b: int, m: int, q: int) {
    a == b + q * m
  }

  lemma CongRefl(a: int, m: int)
    ensures Cong(a, a, m)
  {
    assert CongBy(a, a, m, 0);
  }

  lemma CongSym(a: int, b: int, m: int)
    requires Cong(a, b, m)
    ensures Cong(b, a, m)
  {
    var q :| CongBy(a, b, m, q);
    assert CongBy(b, a, m, -q);
  }

  lemma CongTrans(a: int, b: int, c: int, m: int)
    requires Cong(a, b, m) && Cong(b, c, m)
    ensures Cong(a, c, m)
  {
    var p :| CongBy(a, b, m, p);
    var q :| CongBy(b, c, m, q);
    assert (p + q) * m == p * m + q * m;
    assert CongBy(a, c, m, p + q);
  }

  lemma CongAdd(a: int, b: int, c: int, d: int, m: int)
    requires Cong(a, b, m) && Cong(c, d, m)
    ensures Cong(a + c, b + d, m)
  {
    var p :| CongBy(a, b, m, p);
    var q :| CongBy(c, d, m, q);
    assert (p + q) * m == p * m + q * m;
    assert CongBy(a + c, b + d, m, p + q);
  }

  lemma CongSub(a: int, b: int, c: int, d: int, m: int)
    requires Cong(a, b, m) && Cong(c, d, m)
    ensures Cong(a - c, b - d, m)
  {
    var p :| CongBy(a, b, m, p);
    var q :| CongBy(c, d, m, q);
    assert (p - q) * m == p * m - q * m;
    assert CongBy(a - c, b - d, m, p - q);
  }

  lemma CongMul(a: int, b: int, c: int, d: int, m: int)
    requires Cong(a, b, m) && Cong(c, d, m)
    ensures Cong(a * c, b * d, m)
  {
    var p :| CongBy(a, b, m, p);
    var q :| CongBy(c, d, m, q);
    calc {
      a * c;
      (b + p * m) * (d + q * m);
      b * d + b * (q * m) + (p * m) * d + (p * m) * (q * m);
      { assert b * (q * m) == (b * q) * m; assert (p * m) * d == (p * d) * m;
        assert (p * m) * (q * m) == (p * q * m) * m; }
      b * d + (b * q) * m + (p * d) * m + (p * q * m) * m;
      b * d + (b * q + p * d + p * q * m) * m;
    }
    assert CongBy(a * c, b * d, m, b * q + p * d + p * q * m);
  }

  lemma CongScale(x: int, a: int, b: int, m: int)
    requires Cong(a, b, m)
    ensures Cong(x * a, x * b, m)
  {
    CongRefl(x, m);
    CongMul(x, x, a, b, m);
  }

  /** The canonical representative is congruent to what it represents. */
  lemma CongMod(a: int, m: int)
    requires 0 < m
    ensures Cong(a % m, a, m) && Cong(a, a % m, m)
  {
    assert CongBy(a, a % m, m, a / m);
    CongSym(a, a % m, m);
  }

  /** Congruent numbers have the same canonical representative. */
  lemma CongSameMod(a: int, b: int, m: int)
    requires 0 < m && Cong(a, b, m)
    ensures a % m == b % m
  {
    var q :| CongBy(a, b, m, q);
    assert a == (b / m + q) * m + b % m;
    DivModUnique(a, m, b / m + q, b % m);
  }

  lemma CongCanonical(a: int, b: int, m: int)
    requires Cong(a, b, m) && 0 <= a < m && 0 <= b < m
    ensures a == b
  {
    CongSameMod(a, b, m);
    DivModUnique(a, m, 0, a);
    DivModUnique(b, m, 0, b);
  }

  lemma {:induction false} CongPow(a: int, b: int, e: nat, m: int)
    requires Cong(a, b, m)
    ensures Cong(Pow(a, e), Pow(b, e), m)
  {
    if e == 0 {
      CongRefl(1, m);
    } else {
      CongPow(a, b, e - 1, m);
      CongMul(a, b, Pow(a, e - 1), Pow(b, e - 1), m);
    }
  }
}
