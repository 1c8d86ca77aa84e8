/** The ring of integers modulo 2^n + 1, by representatives from 0 to 2^n: addition, subtraction,
    negation, multiplication by powers of two, and exact halving. */
module FermatRing {
  import opened Arith

  function Modulus(n: nat): (m: int)
    ensures m >= 2
  {
    PowPos(2, n);
    Pow(2, n) + 1
  }

  predicate InRing(x: int, n: nat) {
    0 <= x <= Pow(2, n)
  }

  /** One conditional subtraction of the modulus. */
  function AddMod(a: int, b: int, n: nat): (r: int)
    requires InRing(a, n) && InRing(b, n)
    ensures InRing(r, n) && Cong(r, a + b, Modulus(n))
  {
    var r := if a + b > Pow(2, n) then a + b - Modulus(n) else a + b;
    assert CongBy(r, a + b, Modulus(n), 0) || CongBy(r, a + b, Modulus(n), -1);
    r
  }

  /** One conditional addition of the modulus. */
  function SubMod(a: int, b: int, n: nat): (r: int)
    requires InRing(a, n) && InRing(b, n)
    ensures InRing(r, n) && Cong(r, a - b, Modulus(n))
  {
    var r := if a < b then a - b + Modulus(n) else a - b;
    assert CongBy(r, a - b, Modulus(n), 0) || CongBy(r, a - b, Modulus(n), 1);
    r
  }

  function NegateMod(a: int, n: nat): (r: int)
    requires InRing(a, n)
    ensures InRing(r, n) && Cong(r, -a, Modulus(n))
  {
    var r := if a == 0 then 0 else Modulus(n) - a;
    assert CongBy(r, -a, Modulus(n), 0) || CongBy(r, -a, Modulus(n), 1);
    r
  }

  function ReduceMod(a: nat, n: nat): (r: int)
    ensures InRing(r, n) && Cong(r, a, Modulus(n))
  {
    CongMod(a, Modulus(n));
    a % Modulus(n)
  }

  // ------------------------------------------------------------------ powers of two

  /** 2^n is -1, so 2^(2n) is 1. */
  lemma HalfPeriod(n: nat)
    ensures Cong(Pow(2, n), -1, Modulus(n)) && Cong(Pow(2, 2 * n), 1, Modulus(n))
  {
    var m := Modulus(n);
    assert CongBy(Pow(2, n), -1, m, 1);
    PowAdd(2, n, n);
    CongMul(Pow(2, n), -1, Pow(2, n), -1, m);
  }

  /** Exponents count modulo 2n. */
  lemma Period(t: nat, q: nat, n: nat)
    ensures 0 <= 2 * n * q && Cong(Pow(2, 2 * n * q + t), Pow(2, t), Modulus(n))
  {
    var m := Modulus(n);
    HalfPeriod(n);
    CongPow(Pow(2, 2 * n), 1, q, m);
    PowOne(q);
    PowMul(2, 2 * n, q);
    PowAdd(2, 2 * n * q, t);
    CongRefl(Pow(2, t), m);
    CongMul(Pow(2, 2 * n * q), 1, Pow(2, t), Pow(2, t), m);
  }

  /** Shifting by s < n bits: the part pushed past 2^n comes back negated. */
  function ShiftBelow(x: int, s: nat, n: nat): (r: int)
    requires InRing(x, n) && s < n
    ensures InRing(r, n) && Cong(r, x * Pow(2, s), Modulus(n))
  {
    PowPos(2, n - s);
    var p := Pow(2, n - s);
    var lo, hi := x % p, x / p;
    ShiftParts(x, s, n, p, lo, hi);
    var r := SubMod(lo * Pow(2, s), hi, n);
    CongTrans(r, lo * Pow(2, s) - hi, x * Pow(2, s), Modulus(n));
    r
  }

  lemma ShiftParts(x: int, s: nat, n: nat, p: int, lo: int, hi: int)
    requires InRing(x, n) && s < n && p == Pow(2, n - s) && p > 0 && lo == x % p && hi == x / p
    ensures InRing(lo * Pow(2, s), n) && InRing(hi, n)
    ensures Cong(lo * Pow(2, s) - hi, x * Pow(2, s), Modulus(n))
  {
    PowPos(2, s);
    PowAdd(2, n - s, s);
    assert x == hi * p + lo;
    ShiftedParts(x, p, Pow(2, s), lo, hi, Pow(2, n));
    assert CongBy(lo * Pow(2, s) - hi, x * Pow(2, s), Modulus(n), -hi);
  }

  lemma ShiftedParts(x: int, p: int, t: int, lo: int, hi: int, top: int)
    requires p > 0 && t > 0 && top == p * t && 0 <= x <= top && x == hi * p + lo && 0 <= lo < p
    ensures 0 <= lo * t <= top && 0 <= hi <= top
    ensures lo * t - hi == x * t + (-hi) * (top + 1)
  {
    Spread(hi, p, lo, t);
    MulNat(lo, t);
    MulMono(lo, p, t);
    assert (-hi) * (top + 1) == -(hi * top) - hi;
    assert (t + 1) * p == p * t + p && (hi + 1) * p == hi * p + p;
    MulCancel(hi, t + 1, p);
    MulCancel(0, hi + 1, p);
    MulMono(1, p, t);
  }

  lemma Spread(h: int, p: int, l: int, t: int)
    ensures (h * p + l) * t == h * (p * t) + l * t
  {
  }

  /** Multiplication by 2^s for any s. */
  function CyclicShift(x: int, s: nat, n: nat): (r: int)
    requires n >= 1 && InRing(x, n)
    ensures InRing(r, n) && Cong(r, x * Pow(2, s), Modulus(n))
  {
    var t := s % (2 * n);
    ShiftPeriod(x, s, t, n);
    if t == 0 then
      CongTrans(x, x * Pow(2, t), x * Pow(2, s), Modulus(n));
      x
    else if t < n then
      var r := ShiftBelow(x, t, n);
      CongTrans(r, x * Pow(2, t), x * Pow(2, s), Modulus(n));
      r
    else
      var y := ShiftBelow(x, t - n, n);
      var r := NegateMod(y, n);
      ShiftPastHalf(x, y, r, t, n);
      CongTrans(r, x * Pow(2, t), x * Pow(2, s), Modulus(n));
      r
  }

  lemma PeriodMod(s: nat, t: nat, n: nat)
    requires n >= 1 && t == s % (2 * n)
    ensures Cong(Pow(2, t), Pow(2, s), Modulus(n))
  {
    var q := s / (2 * n);
    QuotientRemainder(s, 2 * n, q, t);
    Period(t, q, n);
    CongSym(Pow(2, s), Pow(2, t), Modulus(n));
  }

  lemma QuotientRemainder(s: nat, d: int, q: int, t: int)
    requires d > 0 && q == s / d && t == s % d
    ensures s == d * q + t && q >= 0
  {
  }

  lemma ShiftPeriod(x: int, s: nat, t: nat, n: nat)
    requires n >= 1 && t == s % (2 * n)
    ensures Cong(x * Pow(2, t), x * Pow(2, s), Modulus(n))
    ensures t == 0 ==> Cong(x, x * Pow(2, t), Modulus(n))
  {
    PeriodMod(s, t, n);
    CongScale(x, Pow(2, t), Pow(2, s), Modulus(n));
    if t == 0 {
      TimesOne(x, Pow(2, t));
      CongRefl(x, Modulus(n));
    }
  }

  lemma TimesOne(x: int, p: int)
    requires p == 1
    ensures x * p == x
  {
  }

  lemma ShiftPastHalf(x: int, y: int, r: int, t: nat, n: nat)
    requires n <= t && Cong(y, x * Pow(2, t - n), Modulus(n)) && Cong(r, -y, Modulus(n))
    ensures Cong(r, x * Pow(2, t), Modulus(n))
  {
    HalfPeriod(n);
    PowAdd(2, t - n, n);
    NegatedTwice(x, y, r, Pow(2, t - n), Pow(2, n), Modulus(n));
  }

  lemma NegatedTwice(x: int, y: int, r: int, p: int, h: int, m: int)
    requires Cong(h, -1, m) && Cong(y, x * p, m) && Cong(r, -y, m)
    ensures Cong(r, x * (p * h), m)
  {
    CongSym(h, -1, m);
    CongMul(y, x * p, -1, h, m);
    MulAssoc(x, p, h);
    assert y * -1 == -y;
    CongTrans(r, -y, x * (p * h), m);
  }

  // ------------------------------------------------------------------ halving

  /** Half of a ring element: an odd representative becomes even by adding the modulus. */
  function Halve(x: int, n: nat): (r: int)
    requires n >= 1 && InRing(x, n)
    ensures InRing(r, n) && Cong(2 * r, x, Modulus(n))
  {
    assert Pow(2, n) == 2 * Pow(2, n - 1);
    var r := if x % 2 == 1 then (x + Modulus(n)) / 2 else x / 2;
    assert CongBy(2 * r, x, Modulus(n), 0) || CongBy(2 * r, x, Modulus(n), 1);
    r
  }

  /** Two is a unit: the modulus is odd. */
  lemma CancelTwo(x: int, y: int, n: nat)
    requires n >= 1 && Cong(2 * x, 2 * y, Modulus(n))
    ensures Cong(x, y, Modulus(n))
  {
    var m := Modulus(n);
    var q: int :| CongBy(2 * x, 2 * y, m, q);
    assert m == 2 * Pow(2, n - 1) + 1;
    EvenFactor(x - y, q, Pow(2, n - 1));
    assert CongBy(x, y, m, q / 2);
  }

  lemma EvenFactor(z: int, q: int, h: int)
    requires 2 * z == q * (2 * h + 1)
    ensures z == (q / 2) * (2 * h + 1)
  {
    assert q * (2 * h + 1) == 2 * (q * h) + q;
    assert q == 2 * (q / 2);
    assert (2 * (q / 2)) * (2 * h + 1) == 2 * ((q / 2) * (2 * h + 1));
  }

  lemma {:induction false} CancelPower(x: int, y: int, k: nat, n: nat)
    requires n >= 1 && Cong(Pow(2, k) * x, Pow(2, k) * y, Modulus(n))
    ensures Cong(x, y, Modulus(n))
  {
    if k > 0 {
      assert Pow(2, k) * x == 2 * (Pow(2, k - 1) * x) && Pow(2, k) * y == 2 * (Pow(2, k - 1) * y);
      CancelTwo(Pow(2, k - 1) * x, Pow(2, k - 1) * y, n);
      CancelPower(x, y, k - 1, n);
    } else {
      assert Pow(2, k) * x == x && Pow(2, k) * y == y;
    }
  }
}
