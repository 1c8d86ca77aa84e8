/** The integer identities behind Toom-3: evaluation at 0, 1, -1, -2 and infinity, exact
    interpolation, and recomposition. */
module ToomArithmetic {
  import opened Arith
  import opened Limbs

  /** The values of a polynomial at 0, 1, -1, -2 and infinity. */
  datatype Values = Values(v0: int, v1: int, vNeg1: int, vNeg2: int, vInf: int) {
    ghost function At(i: nat): int {
      if i == 0 then v0 else if i == 1 then v1 else if i == 2 then vNeg1 else if i == 3 then vNeg2 else vInf
    }
  }

  /** A three-part operand. */
  datatype Poly = Poly(a0: nat, a1: nat, a2: nat) {
    ghost function At1(): int {
      a0 + a1 + a2
    }

    ghost function AtNeg1(): int {
      a0 - a1 + a2
    }

    ghost function AtNeg2(): int {
      a0 - 2 * a1 + 4 * a2
    }

    ghost function Evaluate(): Values {
      Values(a0, At1(), AtNeg1(), AtNeg2(), a2)
    }

    /** The operand itself: the value at B^k. */
    ghost function Whole(k: nat): int {
      a0 + Shl(a1, k) + Shl(a2, 2 * k)
    }

    ghost predicate Below(w: int) {
      a0 < w && a1 < w && a2 < w
    }
  }

  /** The five coefficients of a product. */
  datatype Coeffs = Coeffs(c0: int, c1: int, c2: int, c3: int, c4: int) {
    /** The values at 0, 1, -1, -2 and infinity, in this order. */
    ghost function ValueAt(i: nat): int {
      if i == 0 then c0
      else if i == 1 then c0 + c1 + c2 + c3 + c4
      else if i == 2 then c0 - c1 + c2 - c3 + c4
      else if i == 3 then c0 - 2 * c1 + 4 * c2 - 8 * c3 + 16 * c4
      else c4
    }
  }

  ghost function Product(p: Poly, q: Poly): Coeffs {
    Coeffs(p.a0 * q.a0,
           p.a0 * q.a1 + p.a1 * q.a0,
           p.a0 * q.a2 + p.a1 * q.a1 + p.a2 * q.a0,
           p.a1 * q.a2 + p.a2 * q.a1,
           p.a2 * q.a2)
  }

  /** Coefficients are non-negative and at most three products of two parts. */
  ghost predicate Bounded(c: Coeffs, v: int) {
    0 <= c.c0 < v && 0 <= c.c1 < 2 * v && 0 <= c.c2 < 3 * v && 0 <= c.c3 < 2 * v && 0 <= c.c4 < v
  }

  lemma ProductBounded(p: Poly, q: Poly, w: int)
    requires p.Below(w) && q.Below(w)
    ensures Bounded(Product(p, q), w * w)
  {
    MulBelow(p.a0, q.a0, w, w);
    MulBelow(p.a0, q.a1, w, w);
    MulBelow(p.a0, q.a2, w, w);
    MulBelow(p.a1, q.a0, w, w);
    MulBelow(p.a1, q.a1, w, w);
    MulBelow(p.a1, q.a2, w, w);
    MulBelow(p.a2, q.a0, w, w);
    MulBelow(p.a2, q.a1, w, w);
    MulBelow(p.a2, q.a2, w, w);
  }

  lemma Expand(x0: int, x1: int, x2: int, y0: int, y1: int, y2: int)
    ensures (x0 + x1 + x2) * (y0 + y1 + y2)
         == x0 * y0 + x0 * y1 + x0 * y2 + x1 * y0 + x1 * y1 + x1 * y2 + x2 * y0 + x2 * y1 + x2 * y2
  {
  }

  /** `e` holds the values of a polynomial of degree four at the evaluation points. */
  ghost predicate Evaluates(c: Coeffs, e: Values) {
    forall i: nat :: e.At(i) == c.ValueAt(i)
  }

  lemma EvaluatesAll(c: Coeffs, e: Values)
    requires Evaluates(c, e)
    ensures e.v0 == c.c0 && e.vInf == c.c4
    ensures e.v1 == c.c0 + c.c1 + c.c2 + c.c3 + c.c4 && e.vNeg1 == c.c0 - c.c1 + c.c2 - c.c3 + c.c4
    ensures e.vNeg2 == c.c0 - 2 * c.c1 + 4 * c.c2 - 8 * c.c3 + 16 * c.c4
  {
    assert e.At(0) == c.ValueAt(0) && e.At(1) == c.ValueAt(1) && e.At(2) == c.ValueAt(2);
    assert e.At(3) == c.ValueAt(3) && e.At(4) == c.ValueAt(4);
  }

  /** `r` holds the point products. */
  ghost predicate Times(a: Values, b: Values, r: Values) {
    forall i: nat :: r.At(i) == a.At(i) * b.At(i)
  }

  lemma TimesAt(a: Values, b: Values, r: Values, i: nat)
    requires Times(a, b, r)
    ensures r.At(i) == a.At(i) * b.At(i)
  {
  }

  lemma EvaluationProducts(x0: int, x1: int, x2: int, y0: int, y1: int, y2: int,
                           z1: int, z2: int, z3: int)
    requires z1 == x0 * y1 + x1 * y0 && z2 == x0 * y2 + x1 * y1 + x2 * y0 && z3 == x1 * y2 + x2 * y1
    ensures (x0 + x1 + x2) * (y0 + y1 + y2) == x0 * y0 + z1 + z2 + z3 + x2 * y2
    ensures (x0 - x1 + x2) * (y0 - y1 + y2) == x0 * y0 - z1 + z2 - z3 + x2 * y2
    ensures (x0 - 2 * x1 + 4 * x2) * (y0 - 2 * y1 + 4 * y2) == x0 * y0 - 2 * z1 + 4 * z2 - 8 * z3 + 16 * (x2 * y2)
  {
    Expand(x0, x1, x2, y0, y1, y2);
    Expand(x0, -x1, x2, y0, -y1, y2);
    Expand(x0, -2 * x1, 4 * x2, y0, -2 * y1, 4 * y2);
  }

  /** The values of the product polynomial are the products of the values. */
  lemma Evaluations(p: Poly, q: Poly) returns (e: Values)
    ensures Times(p.Evaluate(), q.Evaluate(), e) && Evaluates(Product(p, q), e)
  {
    var a, b, c := p.Evaluate(), q.Evaluate(), Product(p, q);
    e := Values(a.v0 * b.v0, a.v1 * b.v1, a.vNeg1 * b.vNeg1, a.vNeg2 * b.vNeg2, a.vInf * b.vInf);
    EvaluationProducts(p.a0, p.a1, p.a2, q.a0, q.a1, q.a2, c.c1, c.c2, c.c3);
  }

  /** The shifted coefficients, added up. */
  ghost function Recomposed(c: Coeffs, k: nat): int {
    c.c0 + Shl(c.c1, k) + Shl(c.c2, 2 * k) + Shl(c.c3, 3 * k) + Shl(c.c4, 4 * k)
  }

  /** The product of two split operands is the sum of the shifted coefficients. */
  lemma Recomposition(p: Poly, q: Poly, u: int, v: int, k: nat)
    requires u == p.Whole(k) && v == q.Whole(k)
    ensures u * v == Recomposed(Product(p, q), k)
  {
    var c := Product(p, q);
    Expand(p.a0, Shl(p.a1, k), Shl(p.a2, 2 * k), q.a0, Shl(q.a1, k), Shl(q.a2, 2 * k));
    ShlProduct(p.a0, q.a1, 0, k);
    ShlProduct(p.a1, q.a0, k, 0);
    ShlProduct(p.a0, q.a2, 0, 2 * k);
    ShlProduct(p.a1, q.a1, k, k);
    ShlProduct(p.a2, q.a0, 2 * k, 0);
    ShlProduct(p.a1, q.a2, k, 2 * k);
    ShlProduct(p.a2, q.a1, 2 * k, k);
    ShlProduct(p.a2, q.a2, 2 * k, 2 * k);
    ShlAdd(p.a0 * q.a1, p.a1 * q.a0, k);
    ShlAdd(p.a0 * q.a2 + p.a1 * q.a1, p.a2 * q.a0, 2 * k);
    ShlAdd(p.a0 * q.a2, p.a1 * q.a1, 2 * k);
    ShlAdd(p.a1 * q.a2, p.a2 * q.a1, 3 * k);
  }

  lemma ShlProduct(x: int, y: int, i: nat, j: nat)
    ensures Shl(x, i) * Shl(y, j) == Shl(x * y, i + j)
  {
    ShlScale(x, y, i);
    ShlScale(Shl(y, j), x, i);
    ShlScale(y, x, j);
    ShlShl(x * y, j, i);
    assert y * x == x * y;
    ShlPow(x, i);
    ShlPow(Shl(y, j), i);
    Swap(x, Pow(B, i), Shl(y, j));
    assert Shl(y * x, j) == x * Shl(y, j);
    assert Shl(Shl(y, j) * x, i) == x * Shl(Shl(y, j), i);
    assert j + i == i + j;
    assert Shl(y, j) * x == x * Shl(y, j);
  }

  lemma Swap(x: int, p: int, z: int)
    ensures (x * p) * z == x * (z * p)
  {
  }
}
