/** Toom-3 multiplication on limb buffers. The six views of the operands are trimmed before use:
    the comparison inside the sign-aware routines goes by length first. */
module Toom3 {
  import opened Arith
  import opened Limbs
  import opened BigInts
  import opened SignMagnitude
  import opened LimbDivision
  import opened Workspace
  import opened ToomArithmetic
  import opened ToomParts
  import opened CarryChain
  import opened Products
  import Schoolbook

  /** res = x + y on positive numbers. */
  method AddPositive(res: BigInt, x: BigInt, y: BigInt, ghost u: int, ghost v: int, ghost w: int)
    requires res.Valid() && res.buf != x.buf && res.buf != y.buf && Is(x, u) && Is(y, v) && x.sign == y.sign == 1
    requires -w <= u <= w && -w <= v <= w && 2 * w < Pow(B, res.cap)
    modifies res, res.buf
    ensures Is(res, u + v) && res.sign == 1
  {
    IsFits(x, u, res.cap);
    IsFits(y, v, res.cap);
    res.AddWc(x, y);
  }

  method Twice(x: BigInt, ghost v: int)
    requires Is(x, v) && -Pow(B, x.cap) < 2 * v < Pow(B, x.cap)
    modifies x, x.buf
    ensures Is(x, 2 * v)
  {
    ValBound(x.Limbs());
    assert Pow(2, 1) == 2;
    Lshift(x, 1);
    ValBound(x.Limbs());
  }

  /** An exact halving: the value is even. */
  method HalveExact(x: BigInt, ghost v: int)
    requires Is(x, 2 * v)
    modifies x, x.buf
    ensures Is(x, v)
  {
    ValBound(x.Limbs());
    assert Pow(2, 1) == 2;
    Rshift(x, 1);
  }

  /** An exact division by three: the value is a multiple of three. */
  method ThirdExact(x: BigInt, ghost v: int)
    requires Is(x, 3 * v)
    modifies x, x.buf
    ensures Is(x, v)
  {
    ValBound(x.Limbs());
    Div3(x);
  }

  // ------------------------------------------------------------------ splitting and evaluation

  /** One trimmed view, of at most `k` limbs from `from` on. It is the source's view, limb for limb, if and
      only if that one has no leading zero limb. */
  method Part(x: BigInt, from: nat, k: nat, ghost s: seq<Limb>) returns (a: BigInt, ghost full: bool)
    requires x.Valid() && s == x.Limbs()
    ensures fresh(a) && a.buf == x.buf && a.n <= PartSize(x.n, from, k) && a.sign == 1
    ensures Is(a, Val(Piece(s, from, k)))
    ensures (full ==> a.Limbs() == Piece(s, from, k)) && (full <==> Trim(Piece(s, from, k)))
  {
    a := new BigInt.View(x, from, PartSize(x.n, from, k));
    assert a.Limbs() == Piece(s, from, k);
    a.TrimLz();
    full := a.n == PartSize(x.n, from, k);
  }

  /** Three trimmed views of an operand, at limbs 0, k and 2k; `full` tells whether they are the source's. */
  method SplitThree(x: BigInt, k: nat)
    returns (a0: BigInt, a1: BigInt, a2: BigInt, ghost p: Poly, ghost full: bool)
    requires x.Valid() && x.n <= 3 * k
    ensures fresh(a0) && fresh(a1) && fresh(a2) && a0.buf == a1.buf == a2.buf == x.buf
    ensures a0.sign == a1.sign == a2.sign == 1
    ensures Is(a0, p.a0) && Is(a1, p.a1) && Is(a2, p.a2)
    ensures a0.n <= k && a1.n <= k && a2.n <= Min(k, HighSize(x.n, 2 * k))
    ensures p.Below(Pow(B, k)) && p.Whole(k) == x.Mag() && Cut(p, x.Limbs(), k, full)
  {
    ghost var s := x.Limbs();
    p := ThreeParts(s, k);
    ghost var f0, f1, f2;
    a0, f0 := Part(x, 0, k, s);
    a1, f1 := Part(x, k, k, s);
    a2, f2 := Part(x, 2 * k, k, s);
    full := f0 && f1 && f2;
    assert Cut(p, s, k, full);
  }

  /** p(1), p(-1) and p(-2) from the parts; `outer` holds a0 + a2 on the way. Every value stays
      below `w`, which leaves room in k + 1 limbs. */
  method EvaluateInto(a0: BigInt, a1: BigInt, a2: BigInt, outer: BigInt, p1: BigInt, pm1: BigInt, pm2: BigInt,
                      k: nat, ghost x0: int, ghost x1: int, ghost x2: int)
    requires Is(a0, x0) && Is(a1, x1) && Is(a2, x2) && a0.sign == a1.sign == a2.sign == 1
    requires a0.buf == a1.buf == a2.buf && 0 <= x0 < Pow(B, k) && 0 <= x1 < Pow(B, k) && 0 <= x2 < Pow(B, k)
    requires outer.Valid() && p1.Valid() && pm1.Valid() && pm2.Valid()
    requires outer.cap >= k + 1 && p1.cap >= k + 1 && pm1.cap >= k + 1 && pm2.cap >= k + 1
    requires outer.buf != a0.buf && p1.buf != a0.buf && pm1.buf != a0.buf && pm2.buf != a0.buf
    requires outer.buf != p1.buf && outer.buf != pm1.buf && outer.buf != pm2.buf && pm1.buf != p1.buf
    requires pm2.buf != pm1.buf && pm2.buf != p1.buf
    modifies outer, outer.buf, p1, p1.buf, pm1, pm1.buf, pm2, pm2.buf
    ensures Is(p1, x0 + x1 + x2) && Is(pm1, x0 - x1 + x2) && Is(pm2, x0 - 2 * x1 + 4 * x2)
    ensures p1.n <= k + 1 && pm1.n <= k + 1 && pm2.n <= k + 1
  {
    EvaluateOnes(a0, a1, a2, outer, p1, pm1, k, x0, x1, x2, Pow(B, k));
    EvaluateNeg2(a0, a2, pm1, pm2, k, x0, x1, x2, Pow(B, k));
  }

  method EvaluateOnes(a0: BigInt, a1: BigInt, a2: BigInt, outer: BigInt, p1: BigInt, pm1: BigInt,
                      k: nat, ghost x0: int, ghost x1: int, ghost x2: int, ghost w: int)
    requires Is(a0, x0) && Is(a1, x1) && Is(a2, x2) && a0.sign == a1.sign == a2.sign == 1
    requires a0.buf == a1.buf == a2.buf && w == Pow(B, k) && 0 <= x0 < w && 0 <= x1 < w && 0 <= x2 < w
    requires outer.Valid() && p1.Valid() && pm1.Valid()
    requires outer.cap >= k + 1 && p1.cap >= k + 1 && pm1.cap >= k + 1
    requires outer.buf != a0.buf && p1.buf != a0.buf && pm1.buf != a0.buf
    requires outer.buf != p1.buf && outer.buf != pm1.buf && pm1.buf != p1.buf
    modifies outer, outer.buf, p1, p1.buf, pm1, pm1.buf
    ensures Is(p1, x0 + x1 + x2) && Is(pm1, x0 - x1 + x2) && p1.n <= k + 1 && pm1.n <= k + 1
  {
    EvaluationRoom(k, outer.cap);
    AddPositive(outer, a0, a2, x0, x2, w);
    AddMiddle(p1, outer, a1, k, x0 + x2, x1, w);
    SubMiddle(pm1, outer, a1, k, x0 + x2, x1, w);
  }

  /** p(1), from the sum of the outer parts. */
  method AddMiddle(p1: BigInt, outer: BigInt, a1: BigInt, k: nat, ghost u: int, ghost x1: int, ghost w: int)
    requires Is(outer, u) && Is(a1, x1) && outer.sign == a1.sign == 1 && p1.Valid() && p1.cap >= k + 1
    requires w == Pow(B, k) && 0 <= u < 2 * w && 0 <= x1 < w && p1.buf != outer.buf && p1.buf != a1.buf
    modifies p1, p1.buf
    ensures Is(p1, u + x1) && p1.n <= k + 1
  {
    EvaluationRoom(k, p1.cap);
    EvaluationRoom(k, k + 1);
    AddPositive(p1, outer, a1, u, x1, 2 * w);
    IsFits(p1, u + x1, k + 1);
  }

  /** p(-1), from the sum of the outer parts. */
  method SubMiddle(pm1: BigInt, outer: BigInt, a1: BigInt, k: nat, ghost u: int, ghost x1: int, ghost w: int)
    requires Is(outer, u) && Is(a1, x1) && pm1.Valid() && pm1.cap >= k + 1
    requires w == Pow(B, k) && 0 <= u < 2 * w && 0 <= x1 < w && pm1.buf != outer.buf && pm1.buf != a1.buf
    modifies pm1, pm1.buf
    ensures Is(pm1, u - x1) && pm1.n <= k + 1
  {
    EvaluationRoom(k, pm1.cap);
    EvaluationRoom(k, k + 1);
    Sub(pm1, outer, a1, u, x1, 2 * w);
    IsFits(pm1, u - x1, k + 1);
  }

  /** p(-1) as written, from views that are not trimmed: right if and only if, of the sum of the outer
      parts and the middle part, the longer one is not the smaller one. */
  method MinusOneWritten(m0: BigInt, m1: BigInt, m2: BigInt, outer: BigInt, pm1: BigInt, k: nat)
    requires m0.Valid() && m1.Valid() && m2.Valid() && m0.sign == m1.sign == m2.sign == 1
    requires m0.n <= k && m1.n <= k && m2.n <= k && outer.Valid() && pm1.Valid() && outer.cap == k + 1 <= pm1.cap
    requires outer.buf != m0.buf && outer.buf != m1.buf && outer.buf != m2.buf && pm1.buf != outer.buf
    requires pm1.buf != m0.buf && pm1.buf != m1.buf && pm1.buf != m2.buf
    modifies outer, outer.buf, pm1, pm1.buf
    ensures outer.Valid() && outer.Mag() == m0.Mag() + m2.Mag() && pm1.Valid()
    ensures pm1.Int() == m0.Mag() + m2.Mag() - m1.Mag() <==> SameOrder(outer.Limbs(), m1.Limbs())
  {
    ghost var u, v := m0.Mag(), m2.Mag();
    UntrimmedRoom(m0, m2, k);
    outer.AddWc(m0, m2);
    ghost var s, t := outer.Limbs(), m1.Limbs();
    SubSaw(pm1, outer, m1);
    assert outer.Limbs() == s && m1.Limbs() == t;
  }

  lemma UntrimmedRoom(x: BigInt, y: BigInt, k: nat)
    requires x.Valid() && y.Valid() && x.n <= k && y.n <= k
    ensures x.Mag() + y.Mag() < Pow(B, k + 1)
  {
    ValBound(x.Limbs());
    ValBound(y.Limbs());
    PowMono(B, x.n, k);
    PowMono(B, y.n, k);
    PowPos(B, k);
  }

  /** p(-2) = 2 (p(-1) + a2) - a0. */
  method EvaluateNeg2(a0: BigInt, a2: BigInt, pm1: BigInt, pm2: BigInt,
                      k: nat, ghost x0: int, ghost x1: int, ghost x2: int, ghost w: int)
    requires Is(a0, x0) && Is(a2, x2) && Is(pm1, x0 - x1 + x2)
    requires w == Pow(B, k) && 0 <= x0 < w && 0 <= x1 < w && 0 <= x2 < w
    requires pm2.Valid() && pm2.cap >= k + 1 && pm2.buf != a0.buf && pm2.buf != a2.buf && pm2.buf != pm1.buf
    modifies pm2, pm2.buf
    ensures Is(pm2, x0 - 2 * x1 + 4 * x2) && pm2.n <= k + 1
  {
    EvaluationRoom(k, pm2.cap);
    EvaluationRoom(k, k + 1);
    Add(pm2, pm1, a2, x0 - x1 + x2, x2, 2 * w);
    Twice(pm2, x0 - x1 + 2 * x2);
    Sub(pm2, pm2, a0, 2 * (x0 - x1 + 2 * x2), x0, 7 * w);
    IsFits(pm2, x0 - 2 * x1 + 4 * x2, k + 1);
  }

  /** k + 1 limbs leave room for every evaluated value. */
  lemma EvaluationRoom(k: nat, cap: nat)
    requires cap >= k + 1
    ensures 0 < Pow(B, k) && 14 * Pow(B, k) < Pow(B, cap)
  {
    PowPos(B, k);
    ShlOne(k);
    ShlOne(k + 1);
    PowMono(B, k + 1, cap);
  }

  // ------------------------------------------------------------------ interpolation

  /** Room for every intermediate value of the interpolation: all stay below 128 B^(2k). */
  ghost predicate Roomy(x: BigInt, w: int)
    reads x
  {
    x.Valid() && 512 * w < Pow(B, x.cap)
  }

  /** The values at 1, -1, -2, in place of which the sum and difference steps leave
      (-c1 + c2 - 3c3 + 5c4), (c1 + c3) and (-c1 + c2 - c3 + c4). */
  method Differences(r0: BigInt, r1: BigInt, rm1: BigInt, rm2: BigInt,
                     ghost c0: int, ghost c1: int, ghost c2: int, ghost c3: int, ghost c4: int, ghost w: int)
    requires 0 <= c0 < 3 * w && 0 <= c1 < 3 * w && 0 <= c2 < 3 * w && 0 <= c3 < 3 * w && 0 <= c4 < 3 * w
    requires Is(r0, c0) && Is(r1, c0 + c1 + c2 + c3 + c4) && Is(rm1, c0 - c1 + c2 - c3 + c4)
    requires Is(rm2, c0 - 2 * c1 + 4 * c2 - 8 * c3 + 16 * c4)
    requires Roomy(r1, w) && Roomy(rm1, w) && Roomy(rm2, w)
    requires r0.buf != r1.buf && r0.buf != rm1.buf && r0.buf != rm2.buf && r1.buf != rm1.buf && r1.buf != rm2.buf
    requires rm1.buf != rm2.buf
    modifies r1, r1.buf, rm1, rm1.buf, rm2, rm2.buf
    ensures Is(rm2, -c1 + c2 - 3 * c3 + 5 * c4) && Is(r1, c1 + c3) && Is(rm1, -c1 + c2 - c3 + c4)
  {
    Sub(rm2, rm2, r1, c0 - 2 * c1 + 4 * c2 - 8 * c3 + 16 * c4, c0 + c1 + c2 + c3 + c4, 128 * w);
    ThirdExact(rm2, -c1 + c2 - 3 * c3 + 5 * c4);
    Sub(r1, r1, rm1, c0 + c1 + c2 + c3 + c4, c0 - c1 + c2 - c3 + c4, 128 * w);
    HalveExact(r1, c1 + c3);
    Sub(rm1, rm1, r0, c0 - c1 + c2 - c3 + c4, c0, 128 * w);
  }

  /** The coefficient of degree 3, which ends up in rm2; rinf is doubled on the way. */
  method CubicCoefficient(rm1: BigInt, rm2: BigInt, rinf: BigInt,
                          ghost c1: int, ghost c2: int, ghost c3: int, ghost c4: int, ghost w: int)
    requires 0 <= c1 < 3 * w && 0 <= c2 < 3 * w && 0 <= c3 < 3 * w && 0 <= c4 < 3 * w
    requires Is(rm2, -c1 + c2 - 3 * c3 + 5 * c4) && Is(rm1, -c1 + c2 - c3 + c4) && Is(rinf, c4)
    requires Roomy(rm2, w) && 2 * c4 < Pow(B, rinf.cap)
    requires rm1.buf != rm2.buf && rinf.buf != rm1.buf && rinf.buf != rm2.buf
    modifies rm2, rm2.buf, rinf, rinf.buf
    ensures Is(rm2, c3) && Is(rinf, 2 * c4)
  {
    Sub(rm2, rm1, rm2, -c1 + c2 - c3 + c4, -c1 + c2 - 3 * c3 + 5 * c4, 128 * w);
    HalveExact(rm2, c3 - 2 * c4);
    Twice(rinf, c4);
    Add(rm2, rm2, rinf, c3 - 2 * c4, 2 * c4, 128 * w);
  }

  /** The coefficients of degree 2 (in rm1) and 1 (in r1). */
  method LowCoefficients(r1: BigInt, rm1: BigInt, rm2: BigInt, rinf: BigInt,
                         ghost c1: int, ghost c2: int, ghost c3: int, ghost c4: int, ghost w: int)
    requires 0 <= c1 < 3 * w && 0 <= c2 < 3 * w && 0 <= c3 < 3 * w && 0 <= c4 < 3 * w
    requires Is(r1, c1 + c3) && Is(rm1, -c1 + c2 - c3 + c4) && Is(rm2, c3) && Is(rinf, 2 * c4)
    requires Roomy(r1, w) && Roomy(rm1, w)
    requires r1.buf != rm1.buf && r1.buf != rm2.buf && rm1.buf != rm2.buf
    requires rinf.buf != r1.buf && rinf.buf != rm1.buf && rinf.buf != rm2.buf
    modifies r1, r1.buf, rm1, rm1.buf, rinf, rinf.buf
    ensures Is(r1, c1) && Is(rm1, c2) && Is(rinf, c4)
  {
    Add(rm1, rm1, r1, -c1 + c2 - c3 + c4, c1 + c3, 128 * w);
    HalveExact(rinf, c4);
    Sub(rm1, rm1, rinf, c2 + c4, c4, 128 * w);
    Sub(r1, r1, rm2, c1 + c3, c3, 128 * w);
  }

  // ------------------------------------------------------------------ recomposition

  /** The five shifted additions into the result buffer. */
  method Recompose(dst: BigInt, r0: BigInt, r1: BigInt, r2: BigInt, r3: BigInt, r4: BigInt, k: nat,
                   ghost c0: int, ghost c1: int, ghost c2: int, ghost c3: int, ghost c4: int, ghost total: int)
    requires dst.Valid() && k > 0 && r0.sign == 1
    requires Is(r0, c0) && Is(r1, c1) && Is(r2, c2) && Is(r3, c3) && Is(r4, c4)
    requires 0 <= c0 && 0 <= c1 && 0 <= c2 && 0 <= c3 && 0 <= c4
    requires total == c0 + Shl(c1, k) + Shl(c2, 2 * k) + Shl(c3, 3 * k) + Shl(c4, 4 * k) < Pow(B, dst.cap)
    requires dst.buf != r0.buf && dst.buf != r1.buf && dst.buf != r2.buf && dst.buf != r3.buf && dst.buf != r4.buf
    modifies dst, dst.buf
    ensures Is(dst, total) && dst.sign == 1
  {
    dst.n, dst.sign := 0, 1;
    ShiftsNonNegative(c1, c2, c3, c4, k);
    assert Shl(c0, 0) == c0;
    Accumulate(dst, r0, 0, 0, c0, total);
    Accumulate(dst, r1, k, c0, c1, total);
    Accumulate(dst, r2, 2 * k, c0 + Shl(c1, k), c2, total);
    Accumulate(dst, r3, 3 * k, c0 + Shl(c1, k) + Shl(c2, 2 * k), c3, total);
    Accumulate(dst, r4, 4 * k, c0 + Shl(c1, k) + Shl(c2, 2 * k) + Shl(c3, 3 * k), c4, total);
  }

  lemma ShiftsNonNegative(c1: int, c2: int, c3: int, c4: int, k: nat)
    requires 0 <= c1 && 0 <= c2 && 0 <= c3 && 0 <= c4
    ensures 0 <= Shl(c1, k) && 0 <= Shl(c2, 2 * k) && 0 <= Shl(c3, 3 * k) && 0 <= Shl(c4, 4 * k)
  {
    ShlZero(k);
    ShlZero(2 * k);
    ShlZero(3 * k);
    ShlZero(4 * k);
    ShlMono(0, c1, k);
    ShlMono(0, c2, 2 * k);
    ShlMono(0, c3, 3 * k);
    ShlMono(0, c4, 4 * k);
  }

  /** One shifted addition; the partial sum stays below the whole product, which fits. */
  method Accumulate(dst: BigInt, r: BigInt, shift: nat, ghost sum: int, ghost c: int, ghost total: int)
    requires Is(dst, sum) && dst.sign == 1 && Is(r, c) && 0 <= c && dst.buf != r.buf && (shift == 0 ==> r.sign == 1)
    requires 0 <= sum && sum + Shl(c, shift) <= total < Pow(B, dst.cap)
    modifies dst, dst.buf
    ensures Is(dst, sum + Shl(c, shift)) && dst.sign == 1
  {
    ValBound(r.Limbs());
    ShiftFits(r.Limbs(), shift, dst.cap, total);
    dst.AddShift(r, shift);
  }

  // ------------------------------------------------------------------ the recursion

  /** Numbers standing for the values of a polynomial at the five points. */
  datatype Points = Points(at0: BigInt, at1: BigInt, atNeg1: BigInt, atNeg2: BigInt, atInf: BigInt)

  /** The two ends of an evaluated operand: its lowest and highest parts. */
  ghost predicate Ends(p: Points, a: Values, k: nat)
    reads p.at0, p.at0.buf, p.atInf, p.atInf.buf
  {
    Is(p.at0, a.v0) && Is(p.atInf, a.vInf) && p.at0.sign == p.atInf.sign == 1 && p.at0.n <= k && p.atInf.n <= k
  }

  /** The values of an evaluated operand at 1, -1 and -2. */
  ghost predicate Middles(p: Points, a: Values, k: nat)
    reads p.at1, p.at1.buf, p.atNeg1, p.atNeg1.buf, p.atNeg2, p.atNeg2.buf
  {
    && Is(p.at1, a.v1) && Is(p.atNeg1, a.vNeg1) && Is(p.atNeg2, a.vNeg2)
    && p.at1.n <= k + 1 && p.atNeg1.n <= k + 1 && p.atNeg2.n <= k + 1
  }

  /** Splits and evaluates one operand, in four temporaries of which the last has `cap2` limbs. */
  method EvaluateOperand(x: BigInt, k: nat, cap2: nat, arena: Arena)
    returns (ok: bool, pts: Points, ghost p: Poly, ghost full: bool)
    requires x.Valid() && x.n <= 3 * k && cap2 >= k + 1
    modifies arena
    ensures ok <==> old(arena.offset) + (3 * k + 4) + cap2 <= arena.cap
    ensures arena.offset >= old(arena.offset) && (ok ==> arena.offset == old(arena.offset) + (3 * k + 4) + cap2)
    ensures fresh({pts.at0, pts.at1, pts.atNeg1, pts.atNeg2, pts.atInf})
    ensures pts.at0.buf == pts.atInf.buf == x.buf
    ensures fresh(pts.at1.buf) && fresh(pts.atNeg1.buf) && fresh(pts.atNeg2.buf)
    ensures pts.atNeg2.buf != pts.at1.buf && pts.atNeg2.buf != pts.atNeg1.buf
    ensures ok ==> Ends(pts, p.Evaluate(), k) && Middles(pts, p.Evaluate(), k)
    ensures ok ==> pts.atInf.n <= HighSize(x.n, 2 * k) && pts.atNeg2.cap == cap2
    ensures p.Below(Pow(B, k)) && p.Whole(k) == x.Mag() && Cut(p, x.Limbs(), k, full)
  {
    var a0, a1, a2, p1, pm1, pm2;
    a0, a1, a2, p, full := SplitThree(x, k);
    ok, p1, pm1, pm2 := EvaluateParts(a0, a1, a2, k, cap2, arena, p.a0, p.a1, p.a2,
                                         p.At1(), p.AtNeg1(), p.AtNeg2());
    pts := Points(a0, p1, pm1, pm2, a2);
  }

  /** Numbers of the three given values, each in k + 1 limbs. */
  ghost predicate AtThree(p1: BigInt, pm1: BigInt, pm2: BigInt, v1: int, v2: int, v3: int, k: nat)
    reads p1, p1.buf, pm1, pm1.buf, pm2, pm2.buf
  {
    Is(p1, v1) && Is(pm1, v2) && Is(pm2, v3) && p1.n <= k + 1 && pm1.n <= k + 1 && pm2.n <= k + 1
  }

  method EvaluateParts(a0: BigInt, a1: BigInt, a2: BigInt, k: nat, cap2: nat, arena: Arena,
                       ghost x0: int, ghost x1: int, ghost x2: int, ghost v1: int, ghost v2: int, ghost v3: int)
    returns (ok: bool, p1: BigInt, pm1: BigInt, pm2: BigInt)
    requires Is(a0, x0) && Is(a1, x1) && Is(a2, x2) && a0.sign == a1.sign == a2.sign == 1
    requires a0.buf == a1.buf == a2.buf && 0 <= x0 < Pow(B, k) && 0 <= x1 < Pow(B, k) && 0 <= x2 < Pow(B, k)
    requires v1 == x0 + x1 + x2 && v2 == x0 - x1 + x2 && v3 == x0 - 2 * x1 + 4 * x2 && cap2 >= k + 1
    modifies arena
    ensures ok <==> old(arena.offset) + (3 * k + 4) + cap2 <= arena.cap
    ensures arena.offset >= old(arena.offset) && (ok ==> arena.offset == old(arena.offset) + (3 * k + 4) + cap2)
    ensures fresh({p1, pm1, pm2}) && fresh(p1.buf) && fresh(pm1.buf) && fresh(pm2.buf)
    ensures pm2.buf != p1.buf && pm2.buf != pm1.buf && (ok ==> pm2.cap == cap2)
    ensures ok ==> AtThree(p1, pm1, pm2, v1, v2, v3, k)
  {
    var outer;
    ok, outer, p1, pm1, pm2 := FourTemps(k, cap2, arena);
    if ok {
      EvaluateInto(a0, a1, a2, outer, p1, pm1, pm2, k, x0, x1, x2);
    }
  }

  method FourTemps(k: nat, cap2: nat, arena: Arena) returns (ok: bool, outer: BigInt, p1: BigInt, pm1: BigInt,
                   pm2: BigInt)
    modifies arena
    ensures ok <==> old(arena.offset) + (3 * k + 4) + cap2 <= arena.cap
    ensures arena.offset >= old(arena.offset) && (ok ==> arena.offset == old(arena.offset) + (3 * k + 4) + cap2)
    ensures fresh({outer, p1, pm1, pm2})
    ensures fresh(outer.buf) && fresh(p1.buf) && fresh(pm1.buf) && fresh(pm2.buf)
    ensures outer.buf != p1.buf && outer.buf != pm1.buf && outer.buf != pm2.buf
    ensures p1.buf != pm1.buf && p1.buf != pm2.buf && pm1.buf != pm2.buf
    ensures outer.Valid() && p1.Valid() && pm1.Valid() && pm2.Valid()
    ensures ok ==> outer.cap == k + 1 && p1.cap == k + 2 && pm1.cap == k + 1 && pm2.cap == cap2
  {
    var ok1, ok2, ok3, ok4;
    ok1, outer := arena.Temp(k + 1);
    ok2, p1 := arena.Temp(k + 2);
    ok3, pm1 := arena.Temp(k + 1);
    ok4, pm2 := arena.Temp(cap2);
    ok := ok1 && ok2 && ok3 && ok4;
  }

  /** The five product buffers: they take 8k + 22 limbs plus the room for the product at infinity. */
  method FiveTemps(k: nat, capInf: nat, arena: Arena) returns (ok: bool, r: Points)
    modifies arena
    ensures ok <==> old(arena.offset) + (8 * k + 22) + capInf <= arena.cap
    ensures arena.offset >= old(arena.offset) && (ok ==> arena.offset == old(arena.offset) + (8 * k + 22) + capInf)
    ensures fresh({r.at0, r.at1, r.atNeg1, r.atNeg2, r.atInf})
    ensures fresh(r.at0.buf) && fresh(r.at1.buf) && fresh(r.atNeg1.buf) && fresh(r.atNeg2.buf) && fresh(r.atInf.buf)
    ensures Apart(r)
    ensures ok ==> Empty(r.at0, 2 * k) && Empty(r.at1, 2 * k + 8) && Empty(r.atNeg1, 2 * k + 7)
    ensures ok ==> Empty(r.atNeg2, 2 * k + 7) && Empty(r.atInf, capInf)
  {
    var ok1, ok2, ok3, ok4, ok5, r0, r1, rm1, rm2, rinf;
    ok1, rm1 := arena.Temp(2 * k + 7);
    ok2, r1 := arena.Temp(2 * k + 8);
    ok3, r0 := arena.Temp(2 * k);
    ok4, rm2 := arena.Temp(2 * k + 7);
    ok5, rinf := arena.Temp(capInf);
    ok := ok1 && ok2 && ok3 && ok4 && ok5;
    r := Points(r0, r1, rm1, rm2, rinf);
  }

  /** A fresh scratch number. */
  ghost predicate Empty(x: BigInt, cap: nat)
    reads x
  {
    x.Valid() && x.sign == 1 && x.cap == cap
  }

  ghost predicate Apart(r: Points) {
    && r.at0.buf != r.at1.buf && r.at0.buf != r.atNeg1.buf && r.at0.buf != r.atNeg2.buf && r.at0.buf != r.atInf.buf
    && r.at1.buf != r.atNeg1.buf && r.at1.buf != r.atNeg2.buf && r.at1.buf != r.atInf.buf
    && r.atNeg1.buf != r.atNeg2.buf && r.atNeg1.buf != r.atInf.buf && r.atNeg2.buf != r.atInf.buf
  }

  /** r = a * b with the sign of the product; the recursion itself multiplies magnitudes. */
  method PointProduct(a: BigInt, b: BigInt, r: BigInt, t: nat, arena: Arena, ghost u: int, ghost v: int,
                      ghost uv: int) returns (ok: bool, ghost plain: bool)
    requires uv == u * v
    requires Is(a, u) && Is(b, v) && r.Valid() && r.sign == 1 && r.buf != a.buf && r.buf != b.buf
    requires a.n + b.n <= r.cap && a.n <= t && b.n <= t
    modifies r, r.buf, arena
    ensures arena.offset == old(arena.offset)
    ensures ok ==> Is(r, uv) && (a.sign == b.sign == 1 ==> r.sign == 1)
    ensures ok ==> Tells(LimbsOf(Abs(u)), LimbsOf(Abs(v)), plain)
    ensures arena.offset + ToomWs(t, t) <= arena.cap ==> ok
    decreases t, 2
  {
    ToomWsMono(a.n, b.n, t, t);
    ghost var m := SignProduct(a.Limbs(), b.Limbs(), a.sign, b.sign, u, v, uv);
    ok, plain := PointMagnitude(a, b, r, arena, a.Limbs(), b.Limbs(), m);
    r.sign := if a.sign == b.sign then 1 else -1;
  }

  /** The product of the magnitudes. */
  method PointMagnitude(a: BigInt, b: BigInt, r: BigInt, arena: Arena, ghost s: seq<Limb>, ghost t: seq<Limb>,
                        ghost m: int) returns (ok: bool, ghost plain: bool)
    requires a.Valid() && b.Valid() && s == a.Limbs() && t == b.Limbs() && IsProduct(s, t, m)
    requires r.Valid() && r.sign == 1 && r.buf != a.buf && r.buf != b.buf && a.n + b.n <= r.cap
    modifies r, r.buf, arena
    ensures arena.offset == old(arena.offset)
    ensures ok ==> r.Valid() && r.Trimmed() && r.Mag() == m && Tells(s, t, plain)
    ensures arena.offset + ToomWs(a.n, b.n) <= arena.cap ==> ok
    decreases Max(a.n, b.n), 1, 1
  {
    assert m == Val(s) * Val(t);
    ok, plain := Multiply(a, b, r, arena);
  }

  lemma SignProduct(s: seq<Limb>, t: seq<Limb>, x: int, y: int, u: int, v: int, uv: int) returns (m: int)
    requires Trim(s) && Trim(t) && Signed(x, Val(s)) == u && Signed(y, Val(t)) == v && uv == u * v
    requires (x == 1 || x == -1) && (y == 1 || y == -1)
    ensures IsProduct(s, t, m) && Signed(if x == y then 1 else -1, m) == uv
    ensures s == LimbsOf(Abs(u)) && t == LimbsOf(Abs(v))
  {
    TrimmedLimbs(s);
    TrimmedLimbs(t);
    m := Val(s) * Val(t);
    MulSigns(Val(s), Val(t), u, v);
  }

  lemma MulSigns(p: int, q: int, u: int, v: int)
    requires (u == p || u == -p) && (v == q || v == -q)
    ensures u * v == if (u == p) == (v == q) || p == 0 || q == 0 then p * q else -(p * q)
  {
  }

  /** The five point products. */
  ghost predicate Holding(r: Points, c: Values)
    reads r.at0, r.at0.buf, r.at1, r.at1.buf, r.atNeg1, r.atNeg1.buf, r.atNeg2, r.atNeg2.buf, r.atInf, r.atInf.buf
  {
    && Is(r.at0, c.v0) && r.at0.sign == 1 && Is(r.atInf, c.vInf)
    && Is(r.at1, c.v1) && Is(r.atNeg1, c.vNeg1) && Is(r.atNeg2, c.vNeg2)
  }

  /** The five product buffers, and the products at 0 and infinity. */
  method AllocateProducts(p: Points, q: Points, k: nat, capInf: nat, arena: Arena, ghost a: Values, ghost b: Values,
                          ghost c: Values)
    returns (ok: bool, r: Points, ghost f0: bool, ghost f4: bool)
    requires Times(a, b, c) && Ends(p, a, k) && Ends(q, b, k) && p.atInf.n + q.atInf.n <= capInf
    modifies arena
    ensures fresh({r.at0, r.at1, r.atNeg1, r.atNeg2, r.atInf}) && arena.offset >= old(arena.offset)
    ensures fresh(r.at0.buf) && fresh(r.at1.buf) && fresh(r.atNeg1.buf) && fresh(r.atNeg2.buf) && fresh(r.atInf.buf)
    ensures Apart(r)
    ensures ok ==> arena.offset == old(arena.offset) + (8 * k + 22) + capInf
    ensures ok ==> TellsAt(a, b, 0, f0) && TellsAt(a, b, 4, f4)
    ensures ok ==> Is(r.at0, c.v0) && r.at0.sign == 1 && Is(r.atInf, c.vInf) && r.atInf.cap == capInf
    ensures ok ==> Empty(r.at1, 2 * k + 8) && Empty(r.atNeg1, 2 * k + 7) && Empty(r.atNeg2, 2 * k + 7)
    ensures old(arena.offset) + (8 * k + 22) + capInf + ToomWs(k + 2, k + 2) <= arena.cap ==> ok
    decreases k + 2, 4
  {
    f0, f4 := true, true;
    ok, r := FiveTemps(k, capInf, arena);
    if ok {
      ok, f0, f4 := OuterPoints(p, q, r, k, arena, a, b, c);
    }
  }

  /** The five point products, in five fresh temporaries. */
  method MultiplyPoints(p: Points, q: Points, k: nat, capInf: nat, arena: Arena, ghost a: Values, ghost b: Values,
                        ghost c: Values)
    returns (ok: bool, r: Points, ghost plain: bool)
    requires Times(a, b, c) && Ends(p, a, k) && Ends(q, b, k) && Middles(p, a, k) && Middles(q, b, k)
    requires p.atInf.n + q.atInf.n <= capInf
    modifies arena
    ensures fresh({r.at0, r.at1, r.atNeg1, r.atNeg2, r.atInf}) && arena.offset >= old(arena.offset)
    ensures fresh(r.at0.buf) && fresh(r.at1.buf) && fresh(r.atNeg1.buf) && fresh(r.atNeg2.buf) && fresh(r.atInf.buf)
    ensures Apart(r)
    ensures ok ==> Holding(r, c) && r.atInf.cap == capInf && TellsPoints(a, b, plain)
    ensures ok ==> r.at1.cap >= 2 * k + 7 && r.atNeg1.cap >= 2 * k + 7 && r.atNeg2.cap >= 2 * k + 7
    ensures old(arena.offset) + (8 * k + 22) + capInf + ToomWs(k + 2, k + 2) <= arena.cap ==> ok
    decreases k + 2, 5
  {
    plain := true;
    ghost var f0, f4;
    ok, r, f0, f4 := AllocateProducts(p, q, k, capInf, arena, a, b, c);
    if ok {
      ok, plain := InnerPoints(p, q, r, k, arena, a, b, c, f0, f4);
    }
  }

  /** The products at 0 and infinity. */
  method OuterPoints(p: Points, q: Points, r: Points, k: nat, arena: Arena, ghost a: Values, ghost b: Values,
                     ghost c: Values) returns (ok: bool, ghost f0: bool, ghost f4: bool)
    requires Times(a, b, c) && Ends(p, a, k) && Ends(q, b, k)
    requires Empty(r.at0, 2 * k) && r.atInf.Valid() && r.atInf.sign == 1 && p.atInf.n + q.atInf.n <= r.atInf.cap
    requires Apart(r)
    requires r.at0.buf != p.at0.buf && r.at0.buf != q.at0.buf && r.at0.buf != p.atInf.buf && r.at0.buf != q.atInf.buf
    requires r.atInf.buf != p.atInf.buf && r.atInf.buf != q.atInf.buf
    modifies r.at0, r.at0.buf, r.atInf, r.atInf.buf, arena
    ensures arena.offset == old(arena.offset)
    ensures ok ==> Is(r.at0, c.v0) && r.at0.sign == 1 && Is(r.atInf, c.vInf)
    ensures ok ==> TellsAt(a, b, 0, f0) && TellsAt(a, b, 4, f4)
    ensures arena.offset + ToomWs(k + 2, k + 2) <= arena.cap ==> ok
    decreases k + 2, 3
  {
    f4 := true;
    TimesAt(a, b, c, 0);
    ok, f0 := PointProduct(p.at0, q.at0, r.at0, k + 2, arena, a.v0, b.v0, c.v0);
    if ok {
      TimesAt(a, b, c, 4);
      ok, f4 := PointProduct(p.atInf, q.atInf, r.atInf, k + 2, arena, a.vInf, b.vInf, c.vInf);
    }
  }

  /** The products at 1, -1 and -2. */
  method InnerPoints(p: Points, q: Points, r: Points, k: nat, arena: Arena, ghost a: Values, ghost b: Values,
                     ghost c: Values, ghost f0: bool, ghost f4: bool) returns (ok: bool, ghost plain: bool)
    requires TellsAt(a, b, 0, f0) && TellsAt(a, b, 4, f4)
    requires Times(a, b, c) && Middles(p, a, k) && Middles(q, b, k)
    requires Empty(r.at1, 2 * k + 8) && Empty(r.atNeg1, 2 * k + 7) && Empty(r.atNeg2, 2 * k + 7) && Apart(r)
    requires r.at1.buf != p.at1.buf && r.at1.buf != p.atNeg1.buf && r.at1.buf != p.atNeg2.buf
    requires r.at1.buf != q.at1.buf && r.at1.buf != q.atNeg1.buf && r.at1.buf != q.atNeg2.buf
    requires r.atNeg1.buf != p.atNeg1.buf && r.atNeg1.buf != p.atNeg2.buf && r.atNeg2.buf != p.atNeg2.buf
    requires r.atNeg1.buf != q.atNeg1.buf && r.atNeg1.buf != q.atNeg2.buf && r.atNeg2.buf != q.atNeg2.buf
    modifies r.at1, r.at1.buf, r.atNeg1, r.atNeg1.buf, r.atNeg2, r.atNeg2.buf, arena
    ensures arena.offset == old(arena.offset)
    ensures ok ==> Is(r.at1, c.v1) && Is(r.atNeg1, c.vNeg1) && Is(r.atNeg2, c.vNeg2)
    ensures ok ==> TellsPoints(a, b, plain)
    ensures arena.offset + ToomWs(k + 2, k + 2) <= arena.cap ==> ok
    decreases k + 2, 4
  {
    ghost var f1, f2, f3 := true, true, true;
    TimesAt(a, b, c, 1);
    ok, f1 := PointProduct(p.at1, q.at1, r.at1, k + 2, arena, a.v1, b.v1, c.v1);
    if ok {
      ok, f2, f3 := NegativePoints(p, q, r, k, arena, a, b, c);
    }
    TellsAll(ok, a, b, f0, f1, f2, f3, f4);
    plain := f0 && f1 && f2 && f3 && f4;
  }

  /** The products at -1 and -2. */
  method NegativePoints(p: Points, q: Points, r: Points, k: nat, arena: Arena, ghost a: Values, ghost b: Values,
                        ghost c: Values)
    returns (ok: bool, ghost f2: bool, ghost f3: bool)
    requires Times(a, b, c) && Is(p.atNeg1, a.vNeg1) && Is(p.atNeg2, a.vNeg2) && Is(q.atNeg1, b.vNeg1)
    requires Is(q.atNeg2, b.vNeg2)
    requires p.atNeg1.n <= k + 1 && p.atNeg2.n <= k + 1 && q.atNeg1.n <= k + 1 && q.atNeg2.n <= k + 1
    requires Empty(r.atNeg1, 2 * k + 7) && Empty(r.atNeg2, 2 * k + 7) && r.atNeg1.buf != r.atNeg2.buf
    requires r.atNeg1.buf != p.atNeg1.buf && r.atNeg1.buf != p.atNeg2.buf && r.atNeg2.buf != p.atNeg2.buf
    requires r.atNeg1.buf != q.atNeg1.buf && r.atNeg1.buf != q.atNeg2.buf && r.atNeg2.buf != q.atNeg2.buf
    modifies r.atNeg1, r.atNeg1.buf, r.atNeg2, r.atNeg2.buf, arena
    ensures arena.offset == old(arena.offset)
    ensures ok ==> Is(r.atNeg1, c.vNeg1) && Is(r.atNeg2, c.vNeg2)
    ensures ok ==> TellsAt(a, b, 2, f2) && TellsAt(a, b, 3, f3)
    ensures arena.offset + ToomWs(k + 2, k + 2) <= arena.cap ==> ok
    decreases k + 2, 3
  {
    f3 := true;
    TimesAt(a, b, c, 2);
    ok, f2 := PointProduct(p.atNeg1, q.atNeg1, r.atNeg1, k + 2, arena, a.vNeg1, b.vNeg1, c.vNeg1);
    if ok {
      TimesAt(a, b, c, 3);
      ok, f3 := PointProduct(p.atNeg2, q.atNeg2, r.atNeg2, k + 2, arena, a.vNeg2, b.vNeg2, c.vNeg2);
    }
  }

  // ------------------------------------------------------------------ the result

  /** The coefficients stand where the point products were. */
  ghost predicate Recovered(r: Points, c: Coeffs)
    reads r.at0, r.at0.buf, r.at1, r.at1.buf, r.atNeg1, r.atNeg1.buf, r.atNeg2, r.atNeg2.buf, r.atInf, r.atInf.buf
  {
    && Is(r.at0, c.c0) && r.at0.sign == 1 && Is(r.atInf, c.c4)
    && Is(r.at1, c.c1) && Is(r.atNeg1, c.c2) && Is(r.atNeg2, c.c3)
  }

  /** Interpolation, in place of the point products. */
  method Interpolate(r: Points, ghost c: Coeffs, ghost e: Values, ghost w: int)
    requires Apart(r) && Bounded(c, w)
    requires Evaluates(c, e) && Holding(r, e)
    requires Roomy(r.at1, w) && Roomy(r.atNeg1, w) && Roomy(r.atNeg2, w) && 2 * c.c4 < Pow(B, r.atInf.cap)
    modifies r.at1, r.at1.buf, r.atNeg1, r.atNeg1.buf, r.atNeg2, r.atNeg2.buf, r.atInf, r.atInf.buf
    ensures Recovered(r, c)
  {
    EvaluatesAll(c, e);
    Differences(r.at0, r.at1, r.atNeg1, r.atNeg2, c.c0, c.c1, c.c2, c.c3, c.c4, w);
    CubicCoefficient(r.atNeg1, r.atNeg2, r.atInf, c.c1, c.c2, c.c3, c.c4, w);
    LowCoefficients(r.at1, r.atNeg1, r.atNeg2, r.atInf, c.c1, c.c2, c.c3, c.c4, w);
  }

  /** The declared capacities leave room for the interpolation. */
  lemma InterpolationRoom(k: nat, w: int)
    requires w == Pow(B, k)
    ensures 512 * (w * w) < Pow(B, 2 * k + 7)
  {
    PowAdd(B, k, k);
    PowPos(B, 2 * k);
    ShlOne(2 * k);
    ShlOne(2 * k + 1);
    PowMono(B, 2 * k + 1, 2 * k + 7);
  }

  lemma RoomyProducts(r: Points, k: nat, w: int)
    requires r.at1.Valid() && r.atNeg1.Valid() && r.atNeg2.Valid() && 512 * w < Pow(B, 2 * k + 7)
    requires r.at1.cap >= 2 * k + 7 && r.atNeg1.cap >= 2 * k + 7 && r.atNeg2.cap >= 2 * k + 7
    ensures Roomy(r.at1, w) && Roomy(r.atNeg1, w) && Roomy(r.atNeg2, w)
  {
    PowMono(B, 2 * k + 7, r.at1.cap);
    PowMono(B, 2 * k + 7, r.atNeg1.cap);
    PowMono(B, 2 * k + 7, r.atNeg2.cap);
  }

  method RecomposeAll(dst: BigInt, r: Points, k: nat, ghost c: Coeffs, ghost total: int)
    requires dst.Valid() && k > 0 && Recovered(r, c)
    requires 0 <= c.c0 && 0 <= c.c1 && 0 <= c.c2 && 0 <= c.c3 && 0 <= c.c4
    requires total == Recomposed(c, k) < Pow(B, dst.cap)
    requires dst.buf != r.at0.buf && dst.buf != r.at1.buf && dst.buf != r.atNeg1.buf && dst.buf != r.atNeg2.buf
    requires dst.buf != r.atInf.buf
    modifies dst, dst.buf
    ensures Is(dst, total) && dst.sign == 1
  {
    Recompose(dst, r.at0, r.at1, r.atNeg1, r.atNeg2, r.atInf, k, c.c0, c.c1, c.c2, c.c3, c.c4, total);
  }

  /** The product at infinity leaves room for its own double in one more limb. */
  lemma TopRoom(x: BigInt, y: BigInt, a: Values, b: Values, c: Coeffs, e: Values, cap: nat)
    requires Is(x, a.vInf) && Is(y, b.vInf) && x.sign == y.sign == 1 && x.n + y.n < cap
    requires Times(a, b, e) && Evaluates(c, e)
    ensures 2 * c.c4 < Pow(B, cap)
  {
    TimesAt(a, b, e, 4);
    EvaluatesAll(c, e);
    ValBound(x.Limbs());
    ValBound(y.Limbs());
    PowersFit(x.Mag(), y.Mag(), B, x.n, y.n);
    ShlOne(x.n + y.n);
    ShlOne(x.n + y.n + 1);
    PowMono(B, x.n + y.n + 1, cap);
  }

  /** The five coefficients of the product of two evaluated operands, in fresh temporaries. */
  method Coefficients(p: Points, q: Points, k: nat, capInf: nat, arena: Arena, ghost a: Values, ghost b: Values,
                      ghost c: Coeffs, ghost e: Values, ghost w: int)
    returns (ok: bool, r: Points, ghost plain: bool)
    requires Times(a, b, e) && Evaluates(c, e) && Bounded(c, w)
    requires Ends(p, a, k) && Ends(q, b, k) && Middles(p, a, k) && Middles(q, b, k) && p.atInf.n + q.atInf.n <= capInf
    requires 2 * c.c4 < Pow(B, capInf)
    requires 512 * w < Pow(B, 2 * k + 7)
    modifies arena
    ensures arena.offset >= old(arena.offset)
    ensures fresh(r.at0.buf) && fresh(r.at1.buf) && fresh(r.atNeg1.buf) && fresh(r.atNeg2.buf) && fresh(r.atInf.buf)
    ensures ok ==> Recovered(r, c) && TellsPoints(a, b, plain)
    ensures old(arena.offset) + (8 * k + 22) + capInf + ToomWs(k + 2, k + 2) <= arena.cap ==> ok
    decreases k + 2, 6
  {
    ok, r, plain := MultiplyPoints(p, q, k, capInf, arena, a, b, e);
    if ok {
      RoomyProducts(r, k, w);
      Interpolate(r, c, e, w);
    }
  }

  /** Multiplies two evaluated operands; the product is assembled in the buffer of q(-2). */
  method MultiplyEvaluated(p: Points, q: Points, k: nat, capInf: nat, arena: Arena, ghost a: Values, ghost b: Values,
                           ghost c: Coeffs, ghost e: Values, ghost w: int, ghost total: int)
    returns (ok: bool, ghost plain: bool)
    requires Times(a, b, e) && Evaluates(c, e) && Bounded(c, w) && total == Recomposed(c, k) < Pow(B, q.atNeg2.cap)
    requires Ends(p, a, k) && Ends(q, b, k) && Middles(p, a, k) && Middles(q, b, k) && p.atInf.n + q.atInf.n <= capInf
    requires k > 0 && 2 * c.c4 < Pow(B, capInf)
    requires 512 * w < Pow(B, 2 * k + 7)
    modifies q.atNeg2, q.atNeg2.buf, arena
    ensures arena.offset >= old(arena.offset)
    ensures ok ==> Is(q.atNeg2, total) && q.atNeg2.sign == 1 && TellsPoints(a, b, plain)
    ensures old(arena.offset) + (8 * k + 22) + capInf + ToomWs(k + 2, k + 2) <= arena.cap ==> ok
    decreases k + 2, 7
  {
    var r;
    ok, r, plain := Coefficients(p, q, k, capInf, arena, a, b, c, e, w);
    if ok {
      RecomposeAll(q.atNeg2, r, k, c, total);
    }
  }

  /** What two split operands of `i` and `j` limbs promise the multiplication. */
  lemma Plan(a: Poly, b: Poly, u: nat, v: nat, k: nat, i: nat, j: nat, cap: nat, total: int)
    returns (c: Coeffs, e: Values, w: int)
    requires total == u * v && cap == i + j
    requires a.Below(Pow(B, k)) && b.Below(Pow(B, k))
    requires u == a.Whole(k) && v == b.Whole(k) && u < Pow(B, i) && v < Pow(B, j)
    ensures Times(a.Evaluate(), b.Evaluate(), e) && Evaluates(c, e) && Bounded(c, w) && 512 * w < Pow(B, 2 * k + 7)
    ensures total == Recomposed(c, k) && total < Pow(B, cap)
  {
    c, w := Product(a, b), Pow(B, k) * Pow(B, k);
    ProductBounded(a, b, Pow(B, k));
    e := Evaluations(a, b);
    Recomposition(a, b, u, v, k);
    InterpolationRoom(k, Pow(B, k));
    PowersFit(u, v, B, i, j);
  }

  /** Multiplies two split operands, of the limbs `s` and `t`. */
  method MultiplySplit(p: Points, q: Points, k: nat, capInf: nat, arena: Arena, ghost a: Poly, ghost b: Poly,
                       ghost s: seq<Limb>, ghost t: seq<Limb>, ghost fullS: bool, ghost fullT: bool, ghost total: int)
    returns (ok: bool, ghost plain: bool)
    requires Ends(p, a.Evaluate(), k) && Ends(q, b.Evaluate(), k) && Middles(p, a.Evaluate(), k)
    requires Middles(q, b.Evaluate(), k)
    requires k > 0 && p.atInf.n + q.atInf.n < capInf
    requires |s| > SCHOOLBOOK && |t| > SCHOOLBOOK && k == Third(|s|, |t|) && q.atNeg2.cap == |s| + |t|
    requires Cut(a, s, k, fullS) && Cut(b, t, k, fullT) && IsProduct(s, t, total)
    modifies q.atNeg2, q.atNeg2.buf, arena
    ensures arena.offset >= old(arena.offset)
    ensures ok ==> Is(q.atNeg2, total) && q.atNeg2.sign == 1 && Tells(s, t, plain)
    ensures old(arena.offset) + (8 * k + 22) + capInf + ToomWs(k + 2, k + 2) <= arena.cap ==> ok
    decreases k + 2, 8
  {
    CutFacts(a, s, k, fullS);
    CutFacts(b, t, k, fullT);
    ghost var c, e, w := Plan(a, b, Val(s), Val(t), k, |s|, |t|, q.atNeg2.cap, total);
    ghost var va, vb := a.Evaluate(), b.Evaluate();
    TopRoom(p.atInf, q.atInf, va, vb, c, e, capInf);
    ghost var points;
    ok, points := MultiplyEvaluated(p, q, k, capInf, arena, va, vb, c, e, w, total);
    TellsSplit(ok, s, t, k, a, b, fullS, fullT, points);
    plain := fullS && fullT && points;
  }

  /** Both operands, evaluated; the last temporary of the second one has room for the product. */
  method EvaluateBoth(x: BigInt, y: BigInt, k: nat, arena: Arena)
    returns (ok: bool, p: Points, q: Points, ghost a: Poly, ghost b: Poly, ghost fullX: bool, ghost fullY: bool)
    requires x.Valid() && y.Valid() && 0 < k && k + 1 <= x.n + y.n && x.n <= 3 * k && y.n <= 3 * k
    modifies arena
    ensures ok <==> old(arena.offset) + (7 * k + 10) + x.n + y.n <= arena.cap
    ensures arena.offset >= old(arena.offset) && (ok ==> arena.offset == old(arena.offset) + (7 * k + 10) + x.n + y.n)
    ensures fresh(q.atNeg2) && fresh(q.atNeg2.buf)
    ensures Cut(a, x.Limbs(), k, fullX) && Cut(b, y.Limbs(), k, fullY)
    ensures ok ==> Ends(p, a.Evaluate(), k) && Middles(p, a.Evaluate(), k) && p.atInf.n <= HighSize(x.n, 2 * k)
    ensures ok ==> Ends(q, b.Evaluate(), k) && Middles(q, b.Evaluate(), k) && q.atInf.n <= HighSize(y.n, 2 * k)
    ensures ok ==> q.atNeg2.cap == x.n + y.n
  {
    var okp, okq;
    okp, p, a, fullX := EvaluateOperand(x, k, k + 2, arena);
    okq, q, b, fullY := EvaluateOperand(y, k, x.n + y.n, arena);
    ok := okp && okq;
  }

  /** Evaluates both operands and multiplies, given the size of the parts and of the product at infinity. */
  method SplitProduct(x: BigInt, y: BigInt, k: nat, capInf: nat, arena: Arena, ghost s: seq<Limb>, ghost t: seq<Limb>,
                      ghost total: int) returns (ok: bool, z: BigInt, ghost plain: bool)
    requires x.Valid() && y.Valid() && x.n > SCHOOLBOOK && y.n > SCHOOLBOOK && k == Third(x.n, y.n)
    requires 0 < k && x.n <= 3 * k && y.n <= 3 * k && k + 1 <= x.n + y.n
    requires HighSize(x.n, 2 * k) + HighSize(y.n, 2 * k) < capInf
    requires s == x.Limbs() && t == y.Limbs() && IsProduct(s, t, total)
    modifies arena
    ensures fresh(z) && fresh(z.buf) && arena.offset >= old(arena.offset)
    ensures ok ==> Is(z, total) && z.sign == 1 && Tells(s, t, plain)
    ensures old(arena.offset) + (7 * k + 10) + x.n + y.n + (8 * k + 22) + capInf + ToomWs(k + 2, k + 2) <= arena.cap
        ==> ok
    decreases k + 2, 9
  {
    var p, q;
    ghost var a, b, fullX, fullY;
    plain := true;
    ok, p, q, a, b, fullX, fullY := EvaluateBoth(x, y, k, arena);
    z := q.atNeg2;
    if ok {
      ok, plain := MultiplySplit(p, q, k, capInf, arena, a, b, s, t, fullX, fullY, total);
    }
  }

  /** Splits both operands into thirds of the longer one, and multiplies. */
  method Recurse(x: BigInt, y: BigInt, arena: Arena, ghost s: seq<Limb>, ghost t: seq<Limb>, ghost total: int)
    returns (ok: bool, z: BigInt, ghost plain: bool)
    requires x.Valid() && y.Valid() && x.n > SCHOOLBOOK && y.n > SCHOOLBOOK
    requires s == x.Limbs() && t == y.Limbs() && IsProduct(s, t, total)
    modifies arena
    ensures fresh(z) && fresh(z.buf) && arena.offset >= old(arena.offset)
    ensures ok ==> Is(z, total) && z.sign == 1 && Tells(s, t, plain)
    ensures old(arena.offset) + ToomWs(x.n, y.n) <= arena.cap ==> ok
    decreases Max(x.n, y.n), 0
  {
    var k := Third(x.n, y.n);
    var capInf := HighSize(x.n, 2 * k) + HighSize(y.n, 2 * k) + 1;
    ToomWsCovers(x.n, y.n, k, capInf);
    ok, z, plain := SplitProduct(x, y, k, capInf, arena, s, t, total);
  }

  /** res = x * y with no leading zero limb. The arena ends where it was, and the call succeeds
      whenever the workspace function's amount of scratch is free. No trimming of a part changes
      anything, so that the run is that of the source, exactly when the operands are plain. */
  method Multiply(x: BigInt, y: BigInt, res: BigInt, arena: Arena) returns (ok: bool, ghost plain: bool)
    requires x.Valid() && y.Valid() && res.Valid() && res.buf != x.buf && res.buf != y.buf
    requires x.n + y.n <= res.cap
    modifies res, res.buf, arena
    ensures arena.offset == old(arena.offset) && res.Valid()
    ensures ok ==> res.Trimmed() && res.Mag() == x.Mag() * y.Mag()
    ensures ok ==> Tells(old(x.Limbs()), old(y.Limbs()), plain)
    ensures ok && x.n > SCHOOLBOOK && y.n > SCHOOLBOOK ==> res.sign == 1
    ensures old(res.sign) == 1 ==> res.sign == 1
    ensures old(arena.offset) + ToomWs(x.n, y.n) <= arena.cap ==> ok
    decreases Max(x.n, y.n), 1, 0
  {
    if x.n <= SCHOOLBOOK || y.n <= SCHOOLBOOK {
      TellsSmall(x.Limbs(), y.Limbs());
      Schoolbook.Multiply(x, y, res);
      return true, true;
    }
    var mark := arena.Mark();
    var z;
    ok, z, plain := Recurse(x, y, arena, x.Limbs(), y.Limbs(), x.Mag() * y.Mag());
    if ok {
      CopyProduct(x, y, z, res);
    }
    arena.Rewind(mark);
  }
}
