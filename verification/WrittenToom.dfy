/** Toom-3 as written, on operands whose parts have leading zero limbs: the interpolation on any five
    point products, and a product that comes out wrong. */
module WrittenToom {
  import opened Arith
  import opened Limbs
  import opened CarryChain
  import opened BigInts
  import opened SignMagnitude
  import opened LimbDivision
  import opened ToomArithmetic
  import opened Toom3

  // ------------------------------------------------------------------ the interpolation on any products

  /** The divisions of the interpolation work on magnitudes. */
  function TowardZero(x: int, d: nat): int
    requires d >= 1
  {
    if x < 0 then -(-x / d) else x / d
  }

  /** The steps of the interpolation, exact or not. */
  function Interpolated(e: Values): Coeffs {
    var t2 := TowardZero(e.vNeg2 - e.v1, 3);
    var odd := TowardZero(e.v1 - e.vNeg1, 2);
    var even := e.vNeg1 - e.v0;
    var c3 := TowardZero(even - t2, 2) + 2 * e.vInf;
    Coeffs(e.v0, odd - c3, even + odd - e.vInf, c3, e.vInf)
  }

  /** What the shifted additions add up: they read magnitudes. */
  ghost function Assembled(c: Coeffs, k: nat): int {
    Abs(c.c0) + Shl(Abs(c.c1), k) + Shl(Abs(c.c2), 2 * k) + Shl(Abs(c.c3), 3 * k) + Shl(Abs(c.c4), 4 * k)
  }

  /** On the values of a product polynomial the steps give its coefficients, and the additions the product. */
  lemma InterpolatedExact(c: Coeffs, e: Values, k: nat)
    requires Evaluates(c, e) && 0 <= c.c0 && 0 <= c.c1 && 0 <= c.c2 && 0 <= c.c3 && 0 <= c.c4
    ensures Interpolated(e) == c && Assembled(c, k) == Recomposed(c, k)
  {
    EvaluatesAll(c, e);
    Exactly(e.vNeg2 - e.v1, 3, -c.c1 + c.c2 - 3 * c.c3 + 5 * c.c4);
    Exactly(e.v1 - e.vNeg1, 2, c.c1 + c.c3);
    Exactly(e.vNeg1 - e.v0 - TowardZero(e.vNeg2 - e.v1, 3), 2, c.c3 - 2 * c.c4);
  }

  lemma Exactly(x: int, d: nat, q: int)
    requires d >= 1 && x == d * q
    ensures TowardZero(x, d) == q
  {
    if x < 0 {
      MulCancel(q, 0, d);
      assert -x == (-q) * d;
      DivModUnique(-x, d, -q, 0);
    } else {
      MulCancel(-1, q, d);
      DivModUnique(x, d, q, 0);
    }
  }

  lemma TowardZeroSmaller(x: int, d: nat, w: int)
    requires d >= 1 && -w <= x <= w
    ensures -w <= TowardZero(x, d) <= w
  {
    if x < 0 {
      QuotientSmaller(-x, d);
    } else {
      QuotientSmaller(x, d);
    }
  }

  lemma QuotientSmaller(x: nat, d: nat)
    requires d >= 1
    ensures 0 <= x / d <= x
  {
    assert x == d * (x / d) + x % d;
    MulMono(1, d, x / d);
  }

  /** `q` is `v` divided by `d` toward zero. */
  ghost predicate Rounded(q: int, v: int, d: nat)
    requires d >= 1
  {
    forall z: int :: z == v ==> q == TowardZero(z, d)
  }

  method ThirdWritten(x: BigInt, ghost v: int, ghost q: int)
    requires Is(x, v) && Rounded(q, v, 3)
    modifies x, x.buf
    ensures Is(x, q)
  {
    ValBound(x.Limbs());
    assert q == TowardZero(v, 3);
    Div3(x);
  }

  method HalfWritten(x: BigInt, ghost v: int, ghost q: int)
    requires Is(x, v) && Rounded(q, v, 2)
    modifies x, x.buf
    ensures Is(x, q)
  {
    ValBound(x.Limbs());
    assert Pow(2, 0) == 1 && Pow(2, 1) == 2;
    assert q == TowardZero(v, 2);
    Rshift(x, 1);
  }

  ghost predicate Small(e: Values, w: int) {
    && -w <= e.v0 <= w && -w <= e.v1 <= w && -w <= e.vNeg1 <= w && -w <= e.vNeg2 <= w && -w <= e.vInf <= w
  }

  /** The intermediate values, and how large they get. */
  lemma Steps(e: Values, w: int) returns (third: int, odd: int, half: int)
    requires Small(e, w)
    ensures Rounded(third, e.vNeg2 - e.v1, 3) && Rounded(odd, e.v1 - e.vNeg1, 2)
    ensures Rounded(half, e.vNeg1 - e.v0 - third, 2)
    ensures -2 * w <= third <= 2 * w && -2 * w <= odd <= 2 * w && -4 * w <= half <= 4 * w
    ensures Interpolated(e) == Coeffs(e.v0, odd - (half + 2 * e.vInf), e.vNeg1 - e.v0 + odd - e.vInf,
                                      half + 2 * e.vInf, e.vInf)
  {
    third, odd := TowardZero(e.vNeg2 - e.v1, 3), TowardZero(e.v1 - e.vNeg1, 2);
    half := TowardZero(e.vNeg1 - e.v0 - third, 2);
    TowardZeroSmaller(e.vNeg2 - e.v1, 3, 2 * w);
    TowardZeroSmaller(e.v1 - e.vNeg1, 2, 2 * w);
    TowardZeroSmaller(e.vNeg1 - e.v0 - third, 2, 4 * w);
  }

  /** The first three differences, on any values of magnitude up to w. */
  method DifferencesWritten(r0: BigInt, r1: BigInt, rm1: BigInt, rm2: BigInt, ghost e: Values, ghost w: int,
                            ghost third: int, ghost odd: int)
    requires Small(e, w) && Is(r0, e.v0) && Is(r1, e.v1) && Is(rm1, e.vNeg1) && Is(rm2, e.vNeg2)
    requires Rounded(third, e.vNeg2 - e.v1, 3) && Rounded(odd, e.v1 - e.vNeg1, 2)
    requires Roomy(r1, w) && Roomy(rm1, w) && Roomy(rm2, w)
    requires r0.buf != r1.buf && r0.buf != rm1.buf && r0.buf != rm2.buf && r1.buf != rm1.buf && r1.buf != rm2.buf
    requires rm1.buf != rm2.buf
    modifies r1, r1.buf, rm1, rm1.buf, rm2, rm2.buf
    ensures Is(rm2, third) && Is(r1, odd) && Is(rm1, e.vNeg1 - e.v0)
  {
    Sub(rm2, rm2, r1, e.vNeg2, e.v1, w);
    ThirdWritten(rm2, e.vNeg2 - e.v1, third);
    Sub(r1, r1, rm1, e.v1, e.vNeg1, w);
    HalfWritten(r1, e.v1 - e.vNeg1, odd);
    Sub(rm1, rm1, r0, e.vNeg1, e.v0, w);
  }

  /** The coefficient of degree three; rinf is doubled on the way. */
  method CubicWritten(rm1: BigInt, rm2: BigInt, rinf: BigInt, ghost even: int, ghost third: int, ghost half: int,
                      ghost top: int, ghost w: int)
    requires Is(rm1, even) && Is(rm2, third) && Is(rinf, top) && Rounded(half, even - third, 2)
    requires -2 * w <= even <= 2 * w && -2 * w <= third <= 2 * w && -4 * w <= half <= 4 * w && -w <= top <= w
    requires Roomy(rm2, w) && 2 * w < Pow(B, rinf.cap)
    requires rm1.buf != rm2.buf && rinf.buf != rm1.buf && rinf.buf != rm2.buf
    modifies rm2, rm2.buf, rinf, rinf.buf
    ensures Is(rm2, half + 2 * top) && Is(rinf, 2 * top)
  {
    Sub(rm2, rm1, rm2, even, third, 2 * w);
    HalfWritten(rm2, even - third, half);
    Twice(rinf, top);
    Add(rm2, rm2, rinf, half, 2 * top, 4 * w);
  }

  /** The coefficients of degree two and one. */
  method LowWritten(r1: BigInt, rm1: BigInt, rm2: BigInt, rinf: BigInt, ghost odd: int, ghost even: int, ghost c3: int,
                    ghost top: int, ghost w: int)
    requires Is(r1, odd) && Is(rm1, even) && Is(rm2, c3) && Is(rinf, 2 * top)
    requires -2 * w <= odd <= 2 * w && -2 * w <= even <= 2 * w && -6 * w <= c3 <= 6 * w && -w <= top <= w
    requires Roomy(r1, w) && Roomy(rm1, w)
    requires r1.buf != rm1.buf && r1.buf != rm2.buf && rm1.buf != rm2.buf
    requires rinf.buf != r1.buf && rinf.buf != rm1.buf && rinf.buf != rm2.buf
    modifies r1, r1.buf, rm1, rm1.buf, rinf, rinf.buf
    ensures Is(rm1, even + odd - top) && Is(r1, odd - c3) && Is(rinf, top)
  {
    Add(rm1, rm1, r1, even, odd, 2 * w);
    HalveExact(rinf, top);
    Sub(rm1, rm1, rinf, even + odd, top, 4 * w);
    Sub(r1, r1, rm2, odd, c3, 6 * w);
  }

  method StepsWritten(r: Points, ghost e: Values, ghost w: int, ghost third: int, ghost odd: int, ghost half: int,
                      ghost even: int)
    requires Apart(r) && Small(e, w) && Holding(r, e) && even == e.vNeg1 - e.v0
    requires Rounded(third, e.vNeg2 - e.v1, 3) && Rounded(odd, e.v1 - e.vNeg1, 2) && Rounded(half, even - third, 2)
    requires -2 * w <= third <= 2 * w && -2 * w <= odd <= 2 * w && -4 * w <= half <= 4 * w
    requires Roomy(r.at1, w) && Roomy(r.atNeg1, w) && Roomy(r.atNeg2, w) && 2 * w < Pow(B, r.atInf.cap)
    modifies r.at1, r.at1.buf, r.atNeg1, r.atNeg1.buf, r.atNeg2, r.atNeg2.buf, r.atInf, r.atInf.buf
    ensures Recovered(r, Coeffs(e.v0, odd - (half + 2 * e.vInf), even + odd - e.vInf, half + 2 * e.vInf, e.vInf))
  {
    DifferencesWritten(r.at0, r.at1, r.atNeg1, r.atNeg2, e, w, third, odd);
    CubicWritten(r.atNeg1, r.atNeg2, r.atInf, even, third, half, e.vInf, w);
    LowWritten(r.at1, r.atNeg1, r.atNeg2, r.atInf, odd, even, half + 2 * e.vInf, e.vInf, w);
  }

  /** The whole interpolation on limb buffers, on any five trimmed values with room to spare: it leaves
      what Interpolated says. */
  method InterpolateWritten(r: Points, ghost e: Values, ghost w: int)
    requires Apart(r) && Small(e, w) && Holding(r, e)
    requires Roomy(r.at1, w) && Roomy(r.atNeg1, w) && Roomy(r.atNeg2, w) && 2 * w < Pow(B, r.atInf.cap)
    modifies r.at1, r.at1.buf, r.atNeg1, r.atNeg1.buf, r.atNeg2, r.atNeg2.buf, r.atInf, r.atInf.buf
    ensures Recovered(r, Interpolated(e))
  {
    ghost var third, odd, half := Steps(e, w);
    StepsWritten(r, e, w, third, odd, half, e.vNeg1 - e.v0);
  }

  // ------------------------------------------------------------------ the evaluations of one product

  /** p(-2) as written, when the lowest part is a row of zero limbs: p(-1) and the highest part, doubled,
      keep their value through the subtraction as long as they are no shorter than that row. */
  method NegTwoWritten(m0: BigInt, m2: BigInt, pm1: BigInt, pm2: BigInt, ghost v: nat, ghost w: nat)
    requires m0.Valid() && m2.Valid() && pm1.Valid() && pm2.Valid() && m0.sign == m2.sign == pm1.sign == 1
    requires m0.Mag() == 0 && m2.Mag() == w && pm1.Mag() == v && Pow(B, m0.n) <= B * (v + w) && v >= 1
    requires pm2.cap >= m0.n && pm2.cap >= m2.n && pm2.cap >= pm1.n && 2 * (v + w) < Pow(B, pm2.cap)
    requires pm2.buf != m0.buf && pm2.buf != m2.buf && pm2.buf != pm1.buf
    modifies pm2, pm2.buf
    ensures pm2.Valid() && pm2.Int() == 2 * (v + w)
  {
    AddSaw(pm2, pm1, m2);
    ValBound(pm2.Limbs());
    assert Pow(2, 1) == 2 * Pow(2, 0);
    Lshift(pm2, 1);
    NoShorter(pm2.Limbs(), m0.n, v + w);
    SubSaw(pm2, pm2, m0);
  }

  lemma NoShorter(s: seq<Limb>, n: nat, u: nat)
    requires Val(s) == 2 * u && u >= 1 && Pow(B, n) <= B * u
    ensures |s| >= n
  {
    ValBound(s);
    assert Pow(B, |s| + 1) == B * Pow(B, |s|);
    PowStrict(B, n, |s| + 1);
  }

  /** The limbs of B^i. */
  ghost predicate UnitLimbs(s: seq<Limb>, i: nat) {
    |s| == i + 1 && s[i] == 1 && forall j :: 0 <= j < i ==> s[j] == 0
  }

  /** p(1) and p(-1) of B^16, cut every ten limbs, where `u` is B^6. The lowest part is ten zero limbs, which
      compare above the middle part's seven: the subtraction borrows, and p(-1) comes out as B^10 - B^6. */
  method SixteenAtOnes(m0: BigInt, m1: BigInt, m2: BigInt, outer: BigInt, p1: BigInt, pm1: BigInt,
                       ghost u: nat, ghost v: nat)
    requires m0.Valid() && m1.Valid() && m2.Valid() && m0.sign == m1.sign == 1
    requires m0.n == 10 && m0.Mag() == 0 && m1.n == 7 && m1.Mag() == u && m2.n == 0
    requires 1 <= u && v == Pow(B, 10) - u && v >= 1
    requires outer.Valid() && p1.Valid() && pm1.Valid() && outer.cap == pm1.cap == 11 && p1.cap == 12
    requires m0.buf == m1.buf == m2.buf && outer.buf != m0.buf && p1.buf != m0.buf && pm1.buf != m0.buf
    requires outer.buf != p1.buf && outer.buf != pm1.buf && p1.buf != pm1.buf
    modifies outer, outer.buf, p1, p1.buf, pm1, pm1.buf
    ensures p1.Valid() && p1.Mag() == u
    ensures pm1.Valid() && pm1.sign == 1 && pm1.Mag() == v && pm1.n <= 10
  {
    SixTen();
    ValBound(m2.Limbs());
    SumOfOne(m0.Limbs(), m2.Limbs());
    outer.AddWc(m0, m2);
    p1.AddWc(outer, m1);
    SubSaw(pm1, outer, m1);
  }

  method SixteenAtAll(m0: BigInt, m1: BigInt, m2: BigInt, outer: BigInt, p1: BigInt, pm1: BigInt, pm2: BigInt,
                      ghost u: nat, ghost v: nat)
    requires m0.Valid() && m1.Valid() && m2.Valid() && m0.sign == m1.sign == m2.sign == 1
    requires m0.n == 10 && m0.Mag() == 0 && m1.n == 7 && m1.Mag() == u && m2.n == 0 && m2.Mag() == 0
    requires 1 <= u && v == Pow(B, 10) - u && v >= 1 && Pow(B, 10) <= B * v && 2 * v < Pow(B, 12)
    requires outer.Valid() && p1.Valid() && pm1.Valid() && pm2.Valid()
    requires outer.cap == pm1.cap == 11 && p1.cap == pm2.cap == 12
    requires m0.buf == m1.buf == m2.buf && outer.buf != m0.buf && p1.buf != m0.buf && pm1.buf != m0.buf
    requires outer.buf != p1.buf && outer.buf != pm1.buf && outer.buf != pm2.buf && p1.buf != pm1.buf
    requires pm2.buf != m0.buf && p1.buf != pm2.buf && pm1.buf != pm2.buf
    modifies outer, outer.buf, p1, p1.buf, pm1, pm1.buf, pm2, pm2.buf
    ensures p1.Valid() && p1.Mag() == u && pm1.Valid() && pm1.Int() == v && pm2.Valid() && pm2.Int() == 2 * v
  {
    SixteenAtOnes(m0, m1, m2, outer, p1, pm1, u, v);
    NegTwoWritten(m0, m2, pm1, pm2, v, 0);
  }

  /** p(1), p(-1) and p(-2) of B^16, cut every ten limbs, as they come out. */
  method EvaluateSixteen(x: BigInt, outer: BigInt, p1: BigInt, pm1: BigInt, pm2: BigInt)
    requires x.Valid() && UnitLimbs(x.Limbs(), 16)
    requires outer.Valid() && p1.Valid() && pm1.Valid() && pm2.Valid()
    requires outer.cap == pm1.cap == 11 && p1.cap == pm2.cap == 12
    requires outer.buf != x.buf && p1.buf != x.buf && pm1.buf != x.buf && pm2.buf != x.buf
    requires outer.buf != p1.buf && outer.buf != pm1.buf && outer.buf != pm2.buf
    requires p1.buf != pm1.buf && p1.buf != pm2.buf && pm1.buf != pm2.buf
    modifies outer, outer.buf, p1, p1.buf, pm1, pm1.buf, pm2, pm2.buf
    ensures p1.Valid() && p1.Mag() == Pow(B, 6)
    ensures pm1.Valid() && pm1.Int() == Pow(B, 10) - Pow(B, 6)
    ensures pm2.Valid() && pm2.Int() == 2 * (Pow(B, 10) - Pow(B, 6))
  {
    var m0 := new BigInt.View(x, 0, 10);
    var m1 := new BigInt.View(x, 10, 7);
    var m2 := new BigInt.View(x, 20, 0);
    ghost var u, v := SixteenParts(x.Limbs(), m0.Limbs(), m1.Limbs(), m2.Limbs());
    SixteenAtAll(m0, m1, m2, outer, p1, pm1, pm2, u, v);
  }

  lemma SixteenParts(s: seq<Limb>, lowest: seq<Limb>, middle: seq<Limb>, top: seq<Limb>) returns (u: nat, v: nat)
    requires UnitLimbs(s, 16) && lowest == s[0..10] && middle == s[10..17] && top == []
    ensures Val(lowest) == 0 && Val(middle) == u && Val(top) == 0
    ensures 1 <= u == Pow(B, 6) && 1 <= v == Pow(B, 10) - u && Pow(B, 10) <= B * v && 2 * v < Pow(B, 12)
  {
    UntrimmedParts(s, lowest, middle);
    SixTen();
    u, v := Pow(B, 6), Pow(B, 10) - Pow(B, 6);
  }

  /** q(1) and q(-1) of B^29, cut every ten limbs: nothing goes wrong. */
  method ThirtyAtOnes(n0: BigInt, n1: BigInt, n2: BigInt, outer: BigInt, q1: BigInt, qm1: BigInt, ghost w: nat)
    requires n0.Valid() && n1.Valid() && n2.Valid() && n0.sign == n1.sign == n2.sign == 1
    requires n0.n == n1.n == n2.n == 10 && n0.Mag() == n1.Mag() == 0 && n2.Mag() == w && 1 <= w < Pow(B, 10)
    requires outer.Valid() && q1.Valid() && qm1.Valid() && outer.cap == qm1.cap == 11 && q1.cap == 12
    requires n0.buf == n1.buf == n2.buf && outer.buf != n0.buf && q1.buf != n0.buf && qm1.buf != n0.buf
    requires outer.buf != q1.buf && outer.buf != qm1.buf && q1.buf != qm1.buf
    modifies outer, outer.buf, q1, q1.buf, qm1, qm1.buf
    ensures q1.Valid() && q1.Mag() == w
    ensures qm1.Valid() && qm1.sign == 1 && qm1.Mag() == w && qm1.n <= 10
  {
    SixTen();
    outer.AddWc(n0, n2);
    q1.AddWc(outer, n1);
    SubSaw(qm1, outer, n1);
    PositiveSign(qm1, w);
  }

  method ThirtyAtAll(n0: BigInt, n1: BigInt, n2: BigInt, outer: BigInt, q1: BigInt, qm1: BigInt, qm2: BigInt,
                     ghost w: nat)
    requires n0.Valid() && n1.Valid() && n2.Valid() && n0.sign == n1.sign == n2.sign == 1
    requires n0.n == n1.n == n2.n == 10 && n0.Mag() == n1.Mag() == 0 && n2.Mag() == w && 1 <= w < Pow(B, 10)
    requires Pow(B, 10) <= B * (w + w) && 2 * (w + w) < Pow(B, 47)
    requires outer.Valid() && q1.Valid() && qm1.Valid() && qm2.Valid()
    requires outer.cap == qm1.cap == 11 && q1.cap == 12 && qm2.cap == 47
    requires n0.buf == n1.buf == n2.buf && outer.buf != n0.buf && q1.buf != n0.buf && qm1.buf != n0.buf
    requires outer.buf != q1.buf && outer.buf != qm1.buf && outer.buf != qm2.buf && q1.buf != qm1.buf
    requires qm2.buf != n0.buf && q1.buf != qm2.buf && qm1.buf != qm2.buf
    modifies outer, outer.buf, q1, q1.buf, qm1, qm1.buf, qm2, qm2.buf
    ensures q1.Valid() && q1.Mag() == w && qm1.Valid() && qm1.Int() == w && qm2.Valid() && qm2.Int() == 4 * w
  {
    ThirtyAtOnes(n0, n1, n2, outer, q1, qm1, w);
    NegTwoWritten(n0, n2, qm1, qm2, w, w);
  }

  /** q(1), q(-1) and q(-2) of B^29, cut every ten limbs. */
  method EvaluateThirty(y: BigInt, outer: BigInt, q1: BigInt, qm1: BigInt, qm2: BigInt)
    requires y.Valid() && UnitLimbs(y.Limbs(), 29)
    requires outer.Valid() && q1.Valid() && qm1.Valid() && qm2.Valid()
    requires outer.cap == qm1.cap == 11 && q1.cap == 12 && qm2.cap == 47
    requires outer.buf != y.buf && q1.buf != y.buf && qm1.buf != y.buf && qm2.buf != y.buf
    requires outer.buf != q1.buf && outer.buf != qm1.buf && outer.buf != qm2.buf
    requires q1.buf != qm1.buf && q1.buf != qm2.buf && qm1.buf != qm2.buf
    modifies outer, outer.buf, q1, q1.buf, qm1, qm1.buf, qm2, qm2.buf
    ensures q1.Valid() && q1.Mag() == Pow(B, 9)
    ensures qm1.Valid() && qm1.Int() == Pow(B, 9)
    ensures qm2.Valid() && qm2.Int() == 4 * Pow(B, 9)
  {
    var n0 := new BigInt.View(y, 0, 10);
    var n1 := new BigInt.View(y, 10, 10);
    var n2 := new BigInt.View(y, 20, 10);
    ghost var w := ThirtyParts(y.Limbs(), n0.Limbs(), n1.Limbs(), n2.Limbs());
    ThirtyAtAll(n0, n1, n2, outer, q1, qm1, qm2, w);
  }

  lemma PositiveSign(x: BigInt, v: nat)
    requires x.Valid() && x.Int() == v && v >= 1
    ensures x.sign == 1 && x.Mag() == v
  {
  }

  lemma ThirtyParts(s: seq<Limb>, lowest: seq<Limb>, middle: seq<Limb>, top: seq<Limb>) returns (w: nat)
    requires UnitLimbs(s, 29) && lowest == s[0..10] && middle == s[10..20] && top == s[20..30]
    ensures Val(lowest) == 0 && Val(middle) == 0 && 1 <= Val(top) == w == Pow(B, 9) && w < Pow(B, 10)
    ensures Pow(B, 10) <= B * (w + w) && 2 * (w + w) < Pow(B, 47)
  {
    assert forall j :: 0 <= j < 10 ==> lowest[j] == s[j] && middle[j] == s[10 + j] && top[j] == s[20 + j];
    ValNZeros(lowest, 0, 10);
    ValNZeros(middle, 0, 10);
    UnitValue(top, 9);
    SixTen();
    PowMono(B, 10, 47);
    w := Pow(B, 9);
  }

  /** The powers that the evaluations compare. */
  lemma SixTen()
    ensures 1 <= Pow(B, 6) && B * Pow(B, 6) <= Pow(B, 9) && Pow(B, 10) == B * Pow(B, 9)
    ensures Pow(B, 11) == B * Pow(B, 10) && Pow(B, 12) == B * Pow(B, 11) && Pow(B, 0) == 1
  {
    PowPos(B, 6);
    PowMono(B, 7, 9);
  }

  // ------------------------------------------------------------------ their product

  /** The point products of these values leave, for the coefficient of degree three, a number of more
      than 18 limbs. Thirty limbs up it does not fit the 47 limbs of the result, and what is to be added
      up is not the product. */
  lemma SixteenTimesThirtyLost(p: Values, q: Values, e: Values)
    requires p == Values(0, Pow(B, 6), Pow(B, 10) - Pow(B, 6), 2 * (Pow(B, 10) - Pow(B, 6)), 0)
    requires q == Values(0, Pow(B, 9), Pow(B, 9), 4 * Pow(B, 9), Pow(B, 9))
    requires Times(p, q, e)
    ensures Abs(Interpolated(e).c3) >= Pow(B, 18)
    ensures Assembled(Interpolated(e), 10) >= Pow(B, 48) > Pow(B, 47) > Pow(B, 16) * Pow(B, 29)
  {
    var t := Pow(B, 15);
    PointsOfSixteen(p, q, e, t);
    PowPos(B, 15);
    assert Pow(B, 18) == B * Pow(B, 17) && Pow(B, 17) == B * Pow(B, 16) && Pow(B, 16) == B * t;
    LargeCubic(t, e);
    var c := Interpolated(e);
    ShiftedAbs(c.c1, 10);
    ShiftedAbs(c.c2, 20);
    ShiftedAbs(c.c4, 40);
    ShlMono(Pow(B, 18), Abs(c.c3), 30);
    ShlPow(Pow(B, 18), 30);
    PowAdd(B, 18, 30);
    PowAdd(B, 16, 29);
    PowStrictMono(B, 45, 47);
    PowStrictMono(B, 47, 48);
  }

  lemma ShiftedAbs(x: int, i: nat)
    ensures 0 <= Shl(Abs(x), i)
  {
    ShlZero(i);
    ShlMono(0, Abs(x), i);
  }

  lemma PointsOfSixteen(p: Values, q: Values, e: Values, t: int)
    requires p == Values(0, Pow(B, 6), Pow(B, 10) - Pow(B, 6), 2 * (Pow(B, 10) - Pow(B, 6)), 0)
    requires q == Values(0, Pow(B, 9), Pow(B, 9), 4 * Pow(B, 9), Pow(B, 9))
    requires Times(p, q, e) && t == Pow(B, 15)
    ensures e.v0 == 0 && e.v1 == t && e.vNeg1 == (B * B * B * B - 1) * t && e.vNeg2 == 8 * e.vNeg1 && e.vInf == 0
  {
    TimesAt(p, q, e, 0);
    TimesAt(p, q, e, 1);
    TimesAt(p, q, e, 2);
    TimesAt(p, q, e, 3);
    TimesAt(p, q, e, 4);
    PowAdd(B, 6, 9);
    PowAdd(B, 4, 6);
    assert Pow(B, 4) == B * B * B * B;
    var x, y := Pow(B, 6), Pow(B, 9);
    assert Pow(B, 10) - x == (B * B * B * B - 1) * x;
    MulAssoc(B * B * B * B - 1, x, y);
    MulAssoc(8, (B * B * B * B - 1) * x, y);
    Doubles((B * B * B * B - 1) * x, y);
  }

  lemma Doubles(x: int, y: int)
    ensures (2 * x) * (4 * y) == 8 * (x * y)
  {
  }

  lemma LargeCubic(t: int, e: Values)
    requires t >= 1 && e.v0 == 0 && e.v1 == t && e.vNeg1 == (B * B * B * B - 1) * t && e.vNeg2 == 8 * e.vNeg1
    requires e.vInf == 0
    ensures Abs(Interpolated(e).c3) >= B * B * B * t
  {
    CubicBound(t, e.vNeg1, B * B * B * t);
  }

  lemma CubicBound(t: int, x: int, y: int)
    requires 1 <= t <= y && x >= 12 * y
    ensures Abs(TowardZero(x - TowardZero(8 * x - t, 3), 2)) >= y
  {
    var q := TowardZero(8 * x - t, 3);
    assert 3 * q >= 8 * x - t - 2;
    assert x - q < 0;
  }
}
