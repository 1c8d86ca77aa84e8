/** Sequences of integers as polynomials: evaluation, its splits, weighting, and the negacyclic
    product that the transform multiplier computes. */
module Polynomials {
  import opened Arith

  ghost function Eval(c: seq<int>, x: int): int {
    if c == [] then 0 else c[0] + x * Eval(c[1..], x)
  }

  // The quantifiers over one value below, t == z and t == e, keep the recursive functions out of the
  // reach of the solver; a proof that needs the definition asserts the equation at z or e.

  /** `v` is the value of `c` at `z`. */
  ghost predicate IsValue(v: int, c: seq<int>, z: int) {
    forall t: int :: t == z ==> v == Eval(c, t)
  }

  ghost predicate IsPower(p: int, z: int, e: nat) {
    forall t: nat :: t == e ==> p == Pow(z, t)
  }

  /** The discrete Fourier sum of `x` at frequency `i` with base `w`, over the first `j` terms. */
  ghost function DftSum(x: seq<int>, w: int, i: nat, j: nat): int
    requires j <= |x|
  {
    if j == 0 then 0
    else
      MulNat(i, j - 1);
      DftSum(x, w, i, j - 1) + x[j - 1] * Pow(w, i * (j - 1))
  }

  ghost function Dft(x: seq<int>, w: int, i: nat): int {
    DftSum(x, w, i, |x|)
  }

  // ------------------------------------------------------------------ splits

  lemma {:induction false} EvalCut(c: seq<int>, l: nat, x: int)
    requires l <= |c|
    ensures Eval(c, x) == Eval(c[..l], x) + Pow(x, l) * Eval(c[l..], x)
  {
    if l == 0 {
      assert c[..0] == [] && c[0..] == c;
    } else {
      EvalCut(c[1..], l - 1, x);
      assert c[1..][..l - 1] == c[..l][1..];
      assert c[1..][l - 1..] == c[l..];
      Unfold(x, Eval(c[..l][1..], x), Pow(x, l - 1), Eval(c[l..], x));
    }
  }

  lemma Unfold(x: int, a: int, p: int, b: int)
    ensures x * (a + p * b) == x * a + (x * p) * b
  {
  }

  /** The transform sum is an evaluation at a power of the base. */
  lemma {:induction false} EvalIsDft(x: seq<int>, w: int, i: nat)
    ensures Eval(x, Pow(w, i)) == Dft(x, w, i)
  {
    EvalIsDftSum(x, w, i, |x|);
    assert x[..|x|] == x;
  }

  lemma {:induction false} EvalIsDftSum(x: seq<int>, w: int, i: nat, j: nat)
    requires j <= |x|
    ensures Eval(x[..j], Pow(w, i)) == DftSum(x, w, i, j)
  {
    if j > 0 {
      EvalIsDftSum(x, w, i, j - 1);
      EvalCut(x[..j], j - 1, Pow(w, i));
      assert x[..j][..j - 1] == x[..j - 1];
      assert x[..j][j - 1..] == [x[j - 1]];
      assert Eval([x[j - 1]], Pow(w, i)) == x[j - 1];
      PowMul(w, i, j - 1);
    }
  }

  ghost function Evens(c: seq<int>): (r: seq<int>)
    ensures |r| == |c| / 2
  {
    seq(|c| / 2, i requires 0 <= i < |c| / 2 => c[2 * i])
  }

  ghost function Odds(c: seq<int>): (r: seq<int>)
    ensures |r| == |c| / 2
  {
    seq(|c| / 2, i requires 0 <= i < |c| / 2 => c[2 * i + 1])
  }

  lemma {:induction false} EvalHalves(c: seq<int>, x: int)
    requires |c| % 2 == 0
    ensures Eval(c, x) == Eval(Evens(c), x * x) + x * Eval(Odds(c), x * x)
  {
    if |c| > 0 {
      var t := c[2..];
      EvalHalves(t, x);
      assert Evens(c)[1..] == Evens(t) && Odds(c)[1..] == Odds(t);
      assert c[1..][1..] == t;
      TwoTerms(c[0], c[1], x, Eval(t, x), Eval(Evens(t), x * x), Eval(Odds(t), x * x));
    }
  }

  lemma TwoTerms(c0: int, c1: int, x: int, t: int, e: int, o: int)
    requires t == e + x * o
    ensures c0 + x * (c1 + x * t) == (c0 + (x * x) * e) + x * (c1 + (x * x) * o)
  {
    Unfold(x, c1, x, t);
    Unfold(x, c1, x * x, o);
    Unfold(x * x, e, x, o);
    MulAssoc(x, x, x);
  }

  // ------------------------------------------------------------------ congruence

  lemma {:induction false} EvalCongPoint(c: seq<int>, x: int, y: int, m: int)
    requires Cong(x, y, m)
    ensures Cong(Eval(c, x), Eval(c, y), m)
  {
    if c == [] {
      CongRefl(0, m);
    } else {
      EvalCongPoint(c[1..], x, y, m);
      CongMul(x, y, Eval(c[1..], x), Eval(c[1..], y), m);
      CongRefl(c[0], m);
      CongAdd(c[0], c[0], x * Eval(c[1..], x), y * Eval(c[1..], y), m);
    }
  }

  ghost predicate Agree(c: seq<int>, e: seq<int>, m: int) {
    |c| == |e| && forall i :: 0 <= i < |c| ==> Cong(c[i], e[i], m)
  }

  lemma {:induction false} EvalCongCoeffs(c: seq<int>, e: seq<int>, x: int, m: int)
    requires Agree(c, e, m)
    ensures Cong(Eval(c, x), Eval(e, x), m)
  {
    if c == [] {
      CongRefl(0, m);
    } else {
      EvalCongCoeffs(c[1..], e[1..], x, m);
      CongScale(x, Eval(c[1..], x), Eval(e[1..], x), m);
      CongAdd(c[0], e[0], x * Eval(c[1..], x), x * Eval(e[1..], x), m);
    }
  }

  // ------------------------------------------------------------------ termwise operations

  ghost function Plus(a: seq<int>, b: seq<int>): (c: seq<int>)
    requires |a| == |b|
    ensures |c| == |a|
  {
    seq(|a|, i requires 0 <= i < |a| => a[i] + b[i])
  }

  ghost function Times(p: int, c: seq<int>): (r: seq<int>)
    ensures |r| == |c|
  {
    seq(|c|, i requires 0 <= i < |c| => p * c[i])
  }

  lemma {:induction false} EvalPlus(a: seq<int>, b: seq<int>, x: int)
    requires |a| == |b|
    ensures Eval(Plus(a, b), x) == Eval(a, x) + Eval(b, x)
  {
    if a != [] {
      EvalPlus(a[1..], b[1..], x);
      assert Plus(a, b)[1..] == Plus(a[1..], b[1..]);
      assert x * (Eval(a[1..], x) + Eval(b[1..], x)) == x * Eval(a[1..], x) + x * Eval(b[1..], x);
    }
  }

  lemma {:induction false} EvalTimes(p: int, c: seq<int>, x: int)
    ensures Eval(Times(p, c), x) == p * Eval(c, x)
  {
    if c != [] {
      EvalTimes(p, c[1..], x);
      assert Times(p, c)[1..] == Times(p, c[1..]);
      Unfold(p, c[0], x, Eval(c[1..], x));
      assert x * (p * Eval(c[1..], x)) == (p * x) * Eval(c[1..], x) by {
        MulAssoc(x, p, Eval(c[1..], x));
      }
    }
  }

  /** Coefficient i times v^i: the polynomial at v times the point. */
  ghost function Weighted(c: seq<int>, v: int): (r: seq<int>)
    ensures |r| == |c|
  {
    seq(|c|, i requires 0 <= i < |c| => Pow(v, i) * c[i])
  }

  lemma {:induction false} EvalWeighted(c: seq<int>, v: int, x: int)
    ensures Eval(Weighted(c, v), x) == Eval(c, v * x)
  {
    if c != [] {
      var t := c[1..];
      EvalWeighted(t, v, x);
      forall i | 0 <= i < |t|
        ensures Weighted(c, v)[1..][i] == Times(v, Weighted(t, v))[i]
      {
        MulAssoc(v, Pow(v, i), t[i]);
      }
      assert Weighted(c, v)[1..] == Times(v, Weighted(t, v));
      EvalTimes(v, Weighted(t, v), x);
      assert x * (v * Eval(t, v * x)) == (v * x) * Eval(t, v * x) by {
        MulAssoc(x, v, Eval(t, v * x));
      }
      assert Weighted(c, v)[0] == c[0];
    }
  }

  // ------------------------------------------------------------------ the negacyclic product

  ghost function Zeros(d: nat): (z: seq<int>)
    ensures |z| == d
  {
    seq(d, i => 0)
  }

  /** Multiplication by the variable, with the top coefficient wrapping around negated. */
  ghost function Rotate(c: seq<int>): (r: seq<int>)
    requires |c| >= 1
    ensures |r| == |c|
  {
    [-c[|c| - 1]] + c[..|c| - 1]
  }

  /** The product of two polynomials with x^d replaced by -1, where d is the length of `b`. */
  ghost function NegaConv(a: seq<int>, b: seq<int>): (c: seq<int>)
    requires |b| >= 1
    ensures |c| == |b|
  {
    if a == [] then Zeros(|b|)
    else Plus(Times(a[0], b), Rotate(NegaConv(a[1..], b)))
  }

  lemma {:induction false} EvalZeros(d: nat, x: int)
    ensures Eval(Zeros(d), x) == 0
  {
    if d > 0 {
      EvalZeros(d - 1, x);
      assert Zeros(d)[1..] == Zeros(d - 1);
    }
  }

  /** The value of a rotation, from the value before and the power that wraps around. */
  lemma RotatedValue(c: seq<int>, x: int, er: int, ec: int, q: int)
    requires |c| >= 1 && IsValue(er, Rotate(c), x) && IsValue(ec, c, x) && IsPower(q, x, |c|)
    ensures er == x * ec - c[|c| - 1] * (q + 1)
  {
    var e, p := CutLast(c, x, er, ec, q);
    WrapTerm(x, e, p, q, c[|c| - 1], ec);
  }

  lemma CutLast(c: seq<int>, x: int, er: int, ec: int, q: int) returns (e: int, p: int)
    requires |c| >= 1 && IsValue(er, Rotate(c), x) && IsValue(ec, c, x) && IsPower(q, x, |c|)
    ensures ec == e + p * c[|c| - 1] && q == x * p && er == -c[|c| - 1] + x * e
  {
    var l := |c| - 1;
    assert er == Eval(Rotate(c), x) && ec == Eval(c, x) && q == Pow(x, |c|);
    e, p := Eval(c[..l], x), Pow(x, l);
    EvalCut(c, l, x);
    SingleTerm(c[l..], c[l], x);
    assert Rotate(c)[1..] == c[..l];
  }

  lemma SingleTerm(c: seq<int>, last: int, x: int)
    requires c == [last]
    ensures Eval(c, x) == last
  {
  }

  lemma WrapTerm(x: int, e: int, p: int, q: int, last: int, ec: int)
    requires q == x * p && ec == e + p * last
    ensures -last + x * e == x * ec - last * (q + 1)
  {
    Unfold(x, e, p, last);
    assert last * (q + 1) == q * last + last;
  }

  /** At every point whose d-th power is -1 the negacyclic product is the product. */
  lemma {:induction false} NegaConvCong(a: seq<int>, b: seq<int>, x: int, m: int)
    requires |b| >= 1 && Cong(Pow(x, |b|), -1, m)
    ensures Cong(Eval(NegaConv(a, b), x), Eval(a, x) * Eval(b, x), m)
  {
    if a == [] {
      EvalZeros(|b|, x);
      CongRefl(0, m);
    } else {
      var c := NegaConv(a[1..], b);
      var ea, eb := Eval(a[1..], x), Eval(b, x);
      NegaConvCong(a[1..], b, x, m);
      EvalPlus(Times(a[0], b), Rotate(c), x);
      EvalTimes(a[0], b, x);
      RotatedValue(c, x, Eval(Rotate(c), x), Eval(c, x), Pow(x, |b|));
      RotateCong(Eval(c, x), ea, eb, a[0], c[|b| - 1], Pow(x, |b|), x, m);
    }
  }

  lemma RotateCong(ec: int, ea: int, eb: int, a0: int, last: int, p: int, x: int, m: int)
    requires Cong(p, -1, m) && Cong(ec, ea * eb, m)
    ensures Cong(a0 * eb + (x * ec - last * (p + 1)), (a0 + x * ea) * eb, m)
  {
    CongRefl(1, m);
    CongAdd(p, -1, 1, 1, m);
    CongScale(last, p + 1, 0, m);
    CongScale(x, ec, ea * eb, m);
    CongSub(x * ec, x * (ea * eb), last * (p + 1), last * 0, m);
    CongRefl(a0 * eb, m);
    CongAdd(a0 * eb, a0 * eb, x * ec - last * (p + 1), x * (ea * eb) - last * 0, m);
    MulAssoc(x, ea, eb);
    assert (a0 + x * ea) * eb == a0 * eb + (x * ea) * eb;
  }

  ghost predicate ZeroFrom(c: seq<int>, u: nat) {
    forall i :: u <= i < |c| ==> c[i] == 0
  }

  /** The coefficients a product of `ua` by `ub` coefficients can have. */
  function Support(ua: nat, ub: nat): nat {
    if ua == 0 || ub == 0 then 0 else ua + ub - 1
  }

  lemma {:induction false} NegaConvSupport(a: seq<int>, b: seq<int>, ua: nat, ub: nat)
    requires |b| >= 1 && ZeroFrom(a, ua) && ZeroFrom(b, ub) && Support(ua, ub) <= |b|
    ensures ZeroFrom(NegaConv(a, b), Support(ua, ub))
  {
    if a != [] {
      var c := NegaConv(a[1..], b);
      var u := if ua == 0 then 0 else ua - 1;
      NegaConvSupport(a[1..], b, u, ub);
      assert ua == 0 ==> a[0] == 0;
      assert c[|b| - 1] == 0;
      forall i | Support(ua, ub) <= i < |b|
        ensures NegaConv(a, b)[i] == 0
      {
        ZeroTerm(a[0], b[i], ua, ub, i);
      }
    }
  }

  lemma ZeroTerm(x: int, y: int, ua: nat, ub: nat, i: nat)
    requires (ua == 0 ==> x == 0) && (ub <= i ==> y == 0) && Support(ua, ub) <= i
    ensures x * y == 0
  {
  }

  /** Without wrapping, the negacyclic product is the product at every point. */
  lemma {:induction false} NegaConvExact(a: seq<int>, b: seq<int>, ua: nat, ub: nat, x: int)
    requires |b| >= 1 && ZeroFrom(a, ua) && ZeroFrom(b, ub) && Support(ua, ub) <= |b|
    ensures Eval(NegaConv(a, b), x) == Eval(a, x) * Eval(b, x)
  {
    if a == [] {
      EvalZeros(|b|, x);
    } else {
      var c := NegaConv(a[1..], b);
      var u := if ua == 0 then 0 else ua - 1;
      NegaConvExact(a[1..], b, u, ub, x);
      NegaConvSupport(a[1..], b, u, ub);
      assert c[|b| - 1] == 0;
      EvalPlus(Times(a[0], b), Rotate(c), x);
      EvalTimes(a[0], b, x);
      RotatedValue(c, x, Eval(Rotate(c), x), Eval(c, x), Pow(x, |b|));
      ExactStep(a[0], x, Eval(a[1..], x), Eval(b, x), Eval(c, x), Pow(x, |b|));
    }
  }

  lemma ExactStep(a0: int, x: int, ea: int, eb: int, ec: int, q: int)
    requires ec == ea * eb
    ensures (a0 + x * ea) * eb == a0 * eb + (x * ec - 0 * (q + 1))
  {
    MulAssoc(x, ea, eb);
  }

  ghost predicate Within(c: seq<int>, w: int) {
    forall i :: 0 <= i < |c| ==> 0 <= c[i] < w
  }

  /** Without wrapping, no coefficient is negative, and none exceeds one product per term. */
  lemma {:induction false} NegaConvBound(a: seq<int>, b: seq<int>, ua: nat, ub: nat, w: int)
    requires |b| >= 1 && w >= 1 && ZeroFrom(a, ua) && ZeroFrom(b, ub) && Support(ua, ub) <= |b|
    requires Within(a, w) && Within(b, w)
    ensures forall i :: 0 <= i < |b| ==> 0 <= NegaConv(a, b)[i] <= |a| * ((w - 1) * (w - 1))
  {
    var p := (w - 1) * (w - 1);
    MulNat(w - 1, w - 1);
    MulNat(|a|, p);
    if a != [] {
      var c := NegaConv(a[1..], b);
      var u := if ua == 0 then 0 else ua - 1;
      NegaConvBound(a[1..], b, u, ub, w);
      NegaConvSupport(a[1..], b, u, ub);
      assert c[|b| - 1] == 0;
      assert |a| * p == (|a| - 1) * p + p;
      forall i | 0 <= i < |b|
        ensures 0 <= NegaConv(a, b)[i] <= |a| * p
      {
        TermBound(a[0], b[i], w);
        assert 0 <= Rotate(c)[i] <= (|a| - 1) * p;
      }
    }
  }

  lemma TermBound(x: int, y: int, w: int)
    requires 0 <= x < w && 0 <= y < w
    ensures 0 <= x * y <= (w - 1) * (w - 1)
  {
    MulNat(x, y);
    MulMono(x, w - 1, y);
    MulMono(y, w - 1, w - 1);
  }

  // ------------------------------------------------------------------ what wraps around

  /** The coefficients of the full product below x^d. */
  ghost function FullLow(a: seq<int>, b: seq<int>): (c: seq<int>)
    requires |b| >= 1
    ensures |c| == |b|
  {
    if a == [] then Zeros(|b|)
    else Plus(Times(a[0], b), [0] + FullLow(a[1..], b)[..|b| - 1])
  }

  /** The coefficients from x^d on, which the negacyclic product subtracts. */
  ghost function FullHigh(a: seq<int>, b: seq<int>): (c: seq<int>)
    requires |b| >= 1
    ensures |c| == |b|
  {
    if a == [] then Zeros(|b|)
    else [FullLow(a[1..], b)[|b| - 1]] + FullHigh(a[1..], b)[..|b| - 1]
  }

  lemma {:induction false} FullHighSupport(a: seq<int>, b: seq<int>)
    requires |b| >= 1
    ensures ZeroFrom(FullHigh(a, b), |a|)
  {
    if a != [] {
      FullHighSupport(a[1..], b);
    }
  }

  /** The negacyclic product is the low half of the product less the high one. */
  lemma {:induction false} NegaConvParts(a: seq<int>, b: seq<int>)
    requires |a| <= |b| && |b| >= 1
    ensures forall i :: 0 <= i < |b| ==> NegaConv(a, b)[i] == FullLow(a, b)[i] - FullHigh(a, b)[i]
  {
    if a != [] {
      NegaConvParts(a[1..], b);
      FullHighSupport(a[1..], b);
      forall i | 0 <= i < |b|
        ensures NegaConv(a, b)[i] == FullLow(a, b)[i] - FullHigh(a, b)[i]
      {
        NegaConvPart(a, b, NegaConv(a[1..], b), FullLow(a[1..], b), FullHigh(a[1..], b), i);
      }
    }
  }

  lemma NegaConvPart(a: seq<int>, b: seq<int>, c: seq<int>, lo: seq<int>, hi: seq<int>, i: nat)
    requires a != [] && i < |b| == |c| == |lo| == |hi| && hi[|b| - 1] == 0
    requires c == NegaConv(a[1..], b) && lo == FullLow(a[1..], b) && hi == FullHigh(a[1..], b)
    requires forall j :: 0 <= j < |b| ==> c[j] == lo[j] - hi[j]
    ensures NegaConv(a, b)[i] == FullLow(a, b)[i] - FullHigh(a, b)[i]
  {
    assert NegaConv(a, b) == Plus(Times(a[0], b), Rotate(c));
    assert FullLow(a, b) == Plus(Times(a[0], b), [0] + lo[..|b| - 1]);
    assert FullHigh(a, b) == [lo[|b| - 1]] + hi[..|b| - 1];
  }

  lemma DifferenceValue(c: seq<int>, lo: seq<int>, hi: seq<int>, x: int)
    requires |c| == |lo| == |hi| && forall i :: 0 <= i < |c| ==> c[i] == lo[i] - hi[i]
    ensures Eval(c, x) == Eval(lo, x) - Eval(hi, x)
  {
    EvalPlus(c, hi, x);
    assert Plus(c, hi) == lo;
  }

  /** Multiplication by the variable, for a sequence whose top coefficient is `last`. */
  lemma RaisedValue(first: int, c: seq<int>, x: int, last: int, r: int, e: int, q: int)
    requires |c| >= 1 && last == c[|c| - 1]
    requires IsValue(r, [first] + c[..|c| - 1], x) && IsValue(e, c, x) && IsPower(q, x, |c|)
    ensures r == first + x * e - last * q
  {
    var l := |c| - 1;
    assert r == Eval([first] + c[..l], x) && e == Eval(c, x) && q == Pow(x, |c|);
    EvalCut(c, l, x);
    SingleTerm(c[l..], c[l], x);
    assert ([first] + c[..l])[1..] == c[..l];
    Unfold(x, Eval(c[..l], x), Pow(x, l), last);
    MulComm(last, q);
  }

  /** Together the halves are the product, at every point. */
  lemma {:induction false} FullProduct(a: seq<int>, b: seq<int>, x: int)
    requires |a| <= |b| && |b| >= 1
    ensures Eval(a, x) * Eval(b, x) == Eval(FullLow(a, b), x) + Pow(x, |b|) * Eval(FullHigh(a, b), x)
  {
    var q := Pow(x, |b|);
    if a == [] {
      EvalZeros(|b|, x);
      assert q * 0 == 0;
    } else {
      var lo, hi := FullLow(a[1..], b), FullHigh(a[1..], b);
      FullProduct(a[1..], b, x);
      FullHighSupport(a[1..], b);
      var l := FullLowValue(a, b, lo, x, Eval(lo, x), q);
      var h := FullHighValue(a, b, lo, hi, x, Eval(hi, x), q);
      FullStep(a[0], x, Eval(a[1..], x), Eval(b, x), Eval(lo, x), Eval(hi, x), q, lo[|b| - 1]);
    }
  }

  lemma FullLowValue(a: seq<int>, b: seq<int>, lo: seq<int>, x: int, e: int, q: int) returns (v: int)
    requires |b| >= 1 && a != [] && lo == FullLow(a[1..], b) && IsValue(e, lo, x) && IsPower(q, x, |b|)
    ensures v == Eval(FullLow(a, b), x) == a[0] * Eval(b, x) + (0 + x * e - lo[|b| - 1] * q)
  {
    var low := [0] + lo[..|b| - 1];
    RaisedValue(0, lo, x, lo[|b| - 1], Eval(low, x), e, q);
    EvalPlus(Times(a[0], b), low, x);
    EvalTimes(a[0], b, x);
    v := Eval(FullLow(a, b), x);
  }

  lemma FullHighValue(a: seq<int>, b: seq<int>, lo: seq<int>, hi: seq<int>, x: int, e: int, q: int) returns (v: int)
    requires |b| >= 1 && a != [] && lo == FullLow(a[1..], b) && hi == FullHigh(a[1..], b) && hi[|b| - 1] == 0
    requires IsValue(e, hi, x) && IsPower(q, x, |b|)
    ensures v == Eval(FullHigh(a, b), x) == lo[|b| - 1] + x * e - 0 * q
  {
    v := Eval(FullHigh(a, b), x);
    RaisedValue(lo[|b| - 1], hi, x, 0, v, e, q);
  }

  lemma FullStep(a0: int, x: int, ea: int, eb: int, lo: int, hi: int, q: int, last: int)
    requires ea * eb == lo + q * hi
    ensures (a0 + x * ea) * eb == a0 * eb + (0 + x * lo - last * q) + q * (last + x * hi - 0 * q)
  {
    MulAssoc(x, ea, eb);
    assert (a0 + x * ea) * eb == a0 * eb + x * (ea * eb);
    assert x * (lo + q * hi) == x * lo + x * (q * hi);
    assert q * (last + x * hi) == q * last + q * (x * hi);
    MulAssoc(x, q, hi);
    MulAssoc(q, x, hi);
    MulComm(x, q);
    MulComm(q, last);
  }

  /** Neither half is negative, and no coefficient exceeds one product per term. */
  lemma {:induction false} FullBounds(a: seq<int>, b: seq<int>, w: int)
    requires |b| >= 1 && w >= 1 && Within(a, w) && Within(b, w)
    ensures forall i :: 0 <= i < |b| ==> 0 <= FullLow(a, b)[i] <= |a| * ((w - 1) * (w - 1))
    ensures forall i :: 0 <= i < |b| ==> 0 <= FullHigh(a, b)[i] <= |a| * ((w - 1) * (w - 1))
  {
    var p := (w - 1) * (w - 1);
    MulNat(w - 1, w - 1);
    MulNat(|a|, p);
    if a != [] {
      FullBounds(a[1..], b, w);
      assert |a| * p == (|a| - 1) * p + p;
      MulNat(|a| - 1, p);
      forall i | 0 <= i < |b|
        ensures 0 <= FullLow(a, b)[i] <= |a| * p
      {
        TermBound(a[0], b[i], w);
      }
    }
  }

  /** One where a coefficient is negative: where the ring adds the modulus. */
  ghost function Borrows(c: seq<int>): (r: seq<int>)
    ensures |r| == |c|
  {
    seq(|c|, i requires 0 <= i < |c| => if c[i] < 0 then 1 else 0)
  }
}
