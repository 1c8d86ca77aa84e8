/** Multiplication through the transform: split into windows, weight, transform, multiply point
    by point, transform back, unweight, and recombine. */
module FftMultiply {
  import opened Arith
  import opened Limbs
  import opened CarryChain
  import opened BigInts
  import opened Products
  import opened FermatRing
  import opened Polynomials
  import opened Network
  import opened Spectrum
  import opened Fft

  // ------------------------------------------------------------------ windows

  /** The window values of an operand: `d` windows of `size` limbs each. */
  ghost function Windows(s: seq<Limb>, size: nat, d: nat): (w: seq<int>)
    ensures |w| == d
  {
    seq(d, i requires 0 <= i < d => MulNat(i, size); Val(Piece(s, i * size, size)))
  }

  /** How many windows an operand of `n` limbs fills. */
  function Used(n: nat, size: nat): nat
    requires size >= 1
  {
    (n + size - 1) / size
  }

  ghost function DropWindow(s: seq<Limb>, size: nat): seq<Limb> {
    if |s| <= size then [] else s[size..]
  }

  lemma PieceShift(s: seq<Limb>, i: nat, size: nat)
    ensures 0 <= i * size && 0 <= (i + 1) * size
    ensures Piece(s, (i + 1) * size, size) == Piece(DropWindow(s, size), i * size, size)
  {
    MulNat(i, size);
    assert (i + 1) * size == i * size + size;
  }

  lemma WindowsTail(s: seq<Limb>, size: nat, d: nat)
    requires d >= 1
    ensures Windows(s, size, d)[1..] == Windows(DropWindow(s, size), size, d - 1)
    ensures Windows(s, size, d)[0] == Val(Piece(s, 0, size))
  {
    forall i | 0 <= i < d - 1
      ensures Windows(s, size, d)[1..][i] == Windows(DropWindow(s, size), size, d - 1)[i]
    {
      PieceShift(s, i, size);
    }
    assert 0 * size == 0;
  }

  /** The windows are the digits of the operand in base B^size. */
  lemma {:induction false} WindowsValue(s: seq<Limb>, size: nat, d: nat)
    requires size >= 1 && |s| <= d * size
    ensures Eval(Windows(s, size, d), Pow(B, size)) == Val(s)
    decreases d
  {
    if d == 0 {
      assert |s| == 0;
    } else {
      var rest := DropWindow(s, size);
      WindowsTail(s, size, d);
      assert d * size == (d - 1) * size + size;
      MulNat(d - 1, size);
      WindowsValue(rest, size, d - 1);
      FirstWindow(s, size);
    }
  }

  lemma FirstWindow(s: seq<Limb>, size: nat)
    requires size >= 1
    ensures Val(s) == Val(Piece(s, 0, size)) + Pow(B, size) * Val(DropWindow(s, size))
  {
    if |s| <= size {
      assert Piece(s, 0, size) == s;
      assert Pow(B, size) * Val([]) == 0;
    } else {
      assert Piece(s, 0, size) == s[..size];
      ValCut(s, size);
      ShlPow(Val(s[size..]), size);
    }
  }

  lemma WindowsWithin(s: seq<Limb>, size: nat, d: nat)
    requires size >= 1
    ensures Within(Windows(s, size, d), Pow(B, size))
    ensures ZeroFrom(Windows(s, size, d), Used(|s|, size))
  {
    forall i | 0 <= i < d
      ensures 0 <= Windows(s, size, d)[i] < Pow(B, size)
      ensures Used(|s|, size) <= i ==> Windows(s, size, d)[i] == 0
    {
      MulNat(i, size);
      PieceBound(s, i * size, size);
      if Used(|s|, size) <= i {
        UnusedWindow(|s|, size, i);
      }
    }
  }

  lemma UnusedWindow(n: nat, size: nat, i: nat)
    requires size >= 1 && Used(n, size) <= i
    ensures n <= i * size
  {
    assert n + size - 1 == Used(n, size) * size + (n + size - 1) % size;
    MulMono(Used(n, size), i, size);
  }

  /** Reads the limbs of one window, most significant first. */
  method WindowValue(x: BigInt, from: nat, size: nat) returns (v: nat)
    requires x.Valid()
    ensures v == Val(Piece(x.Limbs(), from, size))
  {
    var len := PartSize(x.n, from, size);
    ghost var p := Piece(x.Limbs(), from, size);
    var i: nat := len;
    v := 0;
    assert p[len..] == [] && Val([]) == 0;
    while i > 0
      invariant i <= len && v == Val(p[i..])
    {
      i := i - 1;
      var limb := x.buf[x.off + from + i];
      assert p[i] == x.Limbs()[from + i] == limb;
      PushLimb(p, i);
      v := limb + B * v;
    }
    assert p[0..] == p;
  }

  lemma PushLimb(p: seq<Limb>, i: nat)
    requires i < |p|
    ensures Val(p[i..]) == p[i] + B * Val(p[i + 1..])
    ensures 0 <= Val(p[i + 1..])
  {
    var q := p[i..];
    ValCut(q, 1);
    assert q[..1] == [p[i]] && q[1..] == p[i + 1..];
    SingleLimb(p[i]);
    assert Shl(Val(q[1..]), 1) == B * Val(q[1..]);
    ValBound(p[i + 1..]);
  }

  // ------------------------------------------------------------------ weights

  /** The weighted windows of an operand: window i times 2^(i n / d). The step n >> k is m. */
  method Weigh(x: BigInt, size: nat, k: nat, n: nat, m: nat) returns (a: array<int>)
    requires x.Valid() && Sized(n, m, k) && size >= 1 && m == 64 * size
    ensures fresh(a) && a.Length == Pow(2, k) && AllIn(a[..], n)
    ensures Agree(a[..], Weighted(Windows(x.Limbs(), size, Pow(2, k)), Pow(2, m)), Modulus(n))
  {
    PowPos(2, k);
    var d := Pow(2, k);
    a := new int[d];
    ghost var s := x.Limbs();
    ghost var w := Weighted(Windows(s, size, d), Pow(2, m));
    WindowsFit(s, size, k, n, m);
    for i := 0 to d
      invariant forall p :: 0 <= p < i ==> InRing(a[p], n) && Cong(a[p], w[p], Modulus(n))
      invariant x.Valid() && x.Limbs() == s
    {
      MulNat(i, size);
      MulNat(i, m);
      var v := WindowValue(x, i * size, size);
      assert v == Windows(s, size, d)[i];
      a[i] := CyclicShift(v, i * m, n);
      WeightIs(v, m, i);
    }
  }

  lemma WeightIs(v: int, m: nat, i: nat)
    ensures 0 <= i * m && v * Pow(2, i * m) == Pow(Pow(2, m), i) * v
  {
    PowMul(2, m, i);
    assert m * i == i * m;
  }

  /** Whole-limb windows are ring elements. */
  lemma WindowsFit(s: seq<Limb>, size: nat, k: nat, n: nat, m: nat)
    requires Sized(n, m, k) && size >= 1 && m == 64 * size
    ensures Pow(B, size) == Pow(2, m) <= Pow(2, n)
    ensures AllIn(Windows(s, size, Pow(2, k)), n)
  {
    WindowPower(size, m);
    WindowBits(k, n, m);
    WindowsWithin(s, size, Pow(2, k));
    PowMono(2, m, n);
    WithinRing(Windows(s, size, Pow(2, k)), Pow(B, size), n);
  }

  lemma WithinRing(w: seq<int>, p: int, n: nat)
    requires Within(w, p) && p <= Pow(2, n)
    ensures AllIn(w, n)
  {
  }

  lemma WindowPower(size: nat, m: nat)
    requires m == 64 * size
    ensures Pow(B, size) == Pow(2, m)
  {
    LimbIsPower(64);
    PowMul(2, 64, size);
  }

  lemma WindowBits(k: nat, n: nat, m: nat)
    requires Sized(n, m, k)
    ensures Pow(2, k) >= 1 && m <= n
  {
    PowPos(2, k);
    MulMono(1, Pow(2, k), m);
  }

  /** Undoes the weights: shifts by the complementary exponent. */
  method Unweigh(a: array<int>, k: nat, n: nat, m: nat, ghost c: seq<int>)
    requires Sized(n, m, k) && a.Length == Pow(2, k) == |c| && AllIn(a[..], n)
    requires Agree(a[..], Weighted(c, Pow(2, m)), Modulus(n))
    modifies a
    ensures AllIn(a[..], n) && Agree(a[..], c, Modulus(n))
  {
    ghost var r := a[..];
    for i := 0 to a.Length
      invariant forall p :: 0 <= p < i ==> InRing(a[p], n) && Cong(a[p], c[p], Modulus(n))
      invariant forall p :: i <= p < a.Length ==> a[p] == r[p]
    {
      WeightRange(i, k, n, m);
      var exp := Exponent(i * m, n, true);
      assert Cong(a[i], Pow(Pow(2, m), i) * c[i], Modulus(n));
      Unweighted(a[i], c[i], i, m, n);
      a[i] := CyclicShift(a[i], exp, n);
    }
  }

  lemma WeightRange(i: nat, k: nat, n: nat, m: nat)
    requires Sized(n, m, k) && i < Pow(2, k)
    ensures 0 <= i * m < n
  {
    MulNat(i, m);
    MulStrictMono(i, Pow(2, k), m);
    assert Pow(2, k) * m == m * Pow(2, k);
  }

  lemma Unweighted(v: int, c: int, i: nat, m: nat, n: nat)
    requires n >= 1 && 0 <= i * m < n && InRing(v, n) && Cong(v, Pow(Pow(2, m), i) * c, Modulus(n))
    ensures Cong(CyclicShift(v, Exponent(i * m, n, true), n), c, Modulus(n))
  {
    var md, e := Modulus(n), Exponent(i * m, n, true);
    ComplementPower(i * m, n);
    WeightIs(c, m, i);
    var p, q := Pow(2, i * m), Pow(2, e);
    assert Pow(Pow(2, m), i) * c == c * p;
    Cancelled(v, c, p, q, md);
    CongTrans(CyclicShift(v, e, n), v * q, c, md);
  }

  lemma ComplementPower(t: nat, n: nat)
    requires n >= 1 && t < n
    ensures Cong(Pow(2, t) * Pow(2, Exponent(t, n, true)), 1, Modulus(n))
  {
    if t == 0 {
      ExponentZero(n);
      CongRefl(1, Modulus(n));
    } else {
      ExponentBack(n, t);
      PowAdd(2, t, 2 * n - t);
      HalfPeriod(n);
    }
  }

  lemma Cancelled(v: int, c: int, p: int, q: int, m: int)
    requires Cong(v, c * p, m) && Cong(p * q, 1, m)
    ensures Cong(v * q, c, m)
  {
    CongRefl(q, m);
    CongMul(v, c * p, q, q, m);
    MulAssoc(c, p, q);
    CongScale(c, p * q, 1, m);
    CongTrans(v * q, c * (p * q), c, m);
  }

  // ------------------------------------------------------------------ pointwise products

  /** a[i] becomes a[i] * b[i], reduced. */
  method Pointwise(a: array<int>, b: array<int>, n: nat)
    requires n >= 1 && a != b && a.Length == b.Length && AllIn(a[..], n) && AllIn(b[..], n)
    modifies a
    ensures AllIn(a[..], n)
    ensures forall p :: 0 <= p < a.Length ==> Cong(a[p], old(a[p]) * b[p], Modulus(n))
  {
    for i := 0 to a.Length
      invariant forall p :: 0 <= p < i ==> InRing(a[p], n) && Cong(a[p], old(a[p]) * b[p], Modulus(n))
      invariant forall p :: i <= p < a.Length ==> a[p] == old(a[p])
    {
      assert a[i] == a[..][i] && InRing(old(a[..])[i], n) && InRing(b[..][i], n);
      MulNat(a[i], b[i]);
      a[i] := ReduceMod(a[i] * b[i], n);
    }
  }

  // ------------------------------------------------------------------ the convolution theorem

  /** The weighted points: 2^m times a power of the root has d-th power -1. */
  lemma WeightedPoint(n: nat, m: nat, k: nat, i: nat)
    requires Sized(n, m, k)
    ensures Pow(2, k) >= 1 && Cong(Pow(Pow(2, m) * Pow(Root(n, k, false), i), Pow(2, k)), -1, Modulus(n))
  {
    var psi, r, d, md := Pow(2, m), Root(n, k, false), Pow(2, k), Modulus(n);
    PowPos(2, k);
    FullRoot(n, m, k);
    PowMul(2, m, d);
    HalfPeriod(n);
    PowMul(2, 2 * m, d);
    assert 2 * m * d == 2 * n by {
      MulAssoc(2, m, d);
    }
    PowProduct(psi, Pow(r, i), d);
    PowMul(r, i, d);
    PowMul(r, d, i);
    assert i * d == d * i;
    CongPow(Pow(r, d), 1, i, md);
    PowOne(i);
    CongMul(Pow(psi, d), -1, Pow(Pow(r, d), i), 1, md);
  }

  /** The point products are the transform of the weighted negacyclic product. */
  lemma PointProducts(p: seq<int>, fa: seq<int>, fb: seq<int>, wa: seq<int>, wb: seq<int>,
                      xa: seq<int>, xb: seq<int>, k: nat, n: nat, m: nat)
    requires Sized(n, m, k) && |wa| == |wb| == Pow(2, k) >= 1
    requires Agree(xa, Weighted(wa, Pow(2, m)), Modulus(n)) && Agree(xb, Weighted(wb, Pow(2, m)), Modulus(n))
    requires Transforms(fa, xa, Root(n, k, false), Modulus(n)) && Transforms(fb, xb, Root(n, k, false), Modulus(n))
    requires |p| == |fa| && forall i :: 0 <= i < |p| ==> Cong(p[i], fa[i] * fb[i], Modulus(n))
    ensures Transforms(p, Weighted(NegaConv(wa, wb), Pow(2, m)), Root(n, k, false), Modulus(n))
  {
    var c := NegaConv(wa, wb);
    forall i: nat | i < |p|
      ensures Cong(p[i], Eval(Weighted(c, Pow(2, m)), Pow(Root(n, k, false), i)), Modulus(n))
    {
      PointProduct(p[i], fa[i], fb[i], wa, wb, xa, xb, k, n, m, i);
    }
  }

  lemma PointProduct(p: int, fa: int, fb: int, wa: seq<int>, wb: seq<int>, xa: seq<int>, xb: seq<int>,
                     k: nat, n: nat, m: nat, i: nat)
    requires Sized(n, m, k) && |wa| == |wb| == Pow(2, k) >= 1
    requires Agree(xa, Weighted(wa, Pow(2, m)), Modulus(n)) && Agree(xb, Weighted(wb, Pow(2, m)), Modulus(n))
    requires Cong(fa, Eval(xa, Pow(Root(n, k, false), i)), Modulus(n))
    requires Cong(fb, Eval(xb, Pow(Root(n, k, false), i)), Modulus(n))
    requires Cong(p, fa * fb, Modulus(n))
    ensures Cong(p, Eval(Weighted(NegaConv(wa, wb), Pow(2, m)), Pow(Root(n, k, false), i)), Modulus(n))
  {
    var md, psi, z := Modulus(n), Pow(2, m), Pow(Root(n, k, false), i);
    WeightedValue(fa, wa, xa, psi, z, md);
    WeightedValue(fb, wb, xb, psi, z, md);
    WeightedPoint(n, m, k, i);
    NegaConvCong(wa, wb, psi * z, md);
    EvalWeighted(NegaConv(wa, wb), psi, z);
    ProductChain(p, fa, fb, Eval(wa, psi * z), Eval(wb, psi * z), Eval(NegaConv(wa, wb), psi * z), md);
  }

  lemma WeightedValue(f: int, w: seq<int>, x: seq<int>, psi: int, z: int, m: int)
    requires Agree(x, Weighted(w, psi), m) && Cong(f, Eval(x, z), m)
    ensures Cong(f, Eval(w, psi * z), m)
  {
    EvalCongCoeffs(x, Weighted(w, psi), z, m);
    EvalWeighted(w, psi, z);
    CongTrans(f, Eval(x, z), Eval(w, psi * z), m);
  }

  lemma ProductChain(p: int, fa: int, fb: int, ea: int, eb: int, ec: int, m: int)
    requires Cong(p, fa * fb, m) && Cong(fa, ea, m) && Cong(fb, eb, m) && Cong(ec, ea * eb, m)
    ensures Cong(p, ec, m)
  {
    CongMul(fa, ea, fb, eb, m);
    CongTrans(p, fa * fb, ea * eb, m);
    CongSym(ec, ea * eb, m);
    CongTrans(p, ea * eb, ec, m);
  }

  // ------------------------------------------------------------------ recombination

  /** Adds the elements up at m-bit distances. */
  method Recombine(a: array<int>, m: nat) returns (total: int)
    ensures total == Eval(a[..], Pow(2, m))
  {
    total := 0;
    for i := 0 to a.Length
      invariant total == Eval(a[..i], Pow(2, m))
    {
      MulNat(i, m);
      NextElement(a[..], i, m);
      total := total + a[i] * Pow(2, i * m);
    }
    assert a[..a.Length] == a[..];
  }

  lemma NextElement(a: seq<int>, i: nat, m: nat)
    requires i < |a|
    ensures 0 <= i * m && Eval(a[..i + 1], Pow(2, m)) == Eval(a[..i], Pow(2, m)) + a[i] * Pow(2, i * m)
  {
    var t := a[..i + 1];
    EvalCut(t, i, Pow(2, m));
    assert t[..i] == a[..i];
    SingleTerm(t[i..], a[i], Pow(2, m));
    WeightIs(a[i], m, i);
  }

  /** The recombined number is the product modulo 2^n + 1. */
  lemma RecombinedCong(u: seq<int>, wa: seq<int>, wb: seq<int>, k: nat, n: nat, m: nat)
    requires Sized(n, m, k) && |wa| == |wb| == Pow(2, k) >= 1
    requires Agree(u, NegaConv(wa, wb), Modulus(n))
    ensures Cong(Eval(u, Pow(2, m)), Eval(wa, Pow(2, m)) * Eval(wb, Pow(2, m)), Modulus(n))
  {
    var x, md := Pow(2, m), Modulus(n);
    PowMul(2, m, Pow(2, k));
    HalfPeriod(n);
    NegaConvCong(wa, wb, x, md);
    EvalCongCoeffs(u, NegaConv(wa, wb), x, md);
    CongTrans(Eval(u, x), Eval(NegaConv(wa, wb), x), Eval(wa, x) * Eval(wb, x), md);
  }

  /** Without wrapping and with room for every coefficient, it is the product. */
  lemma RecombinedExact(u: seq<int>, wa: seq<int>, wb: seq<int>, ua: nat, ub: nat, k: nat, n: nat, m: nat)
    requires Sized(n, m, k) && |wa| == |wb| == Pow(2, k) >= 1 && AllIn(u, n)
    requires Agree(u, NegaConv(wa, wb), Modulus(n))
    requires Within(wa, Pow(2, m)) && Within(wb, Pow(2, m)) && ZeroFrom(wa, ua) && ZeroFrom(wb, ub)
    requires ua + ub <= Pow(2, k) + 1 && k + 2 * m <= n
    ensures Eval(u, Pow(2, m)) == Eval(wa, Pow(2, m)) * Eval(wb, Pow(2, m))
  {
    CoefficientsInRing(wa, wb, ua, ub, k, n, m);
    SameElements(u, NegaConv(wa, wb), n);
    NegaConvExact(wa, wb, ua, ub, Pow(2, m));
  }

  ghost predicate Count(z: int, more: int) {
    z == more
  }

  /** `total` is the product and that many moduli. */
  ghost predicate OffBy(total: int, product: int, md: int, more: int) {
    forall z: int :: Count(z, more) ==> total == product + md * z
  }

  /** With room for every coefficient, whatever wraps around: what the recombined number has more than
      the product is the modulus, as often as the ring had to add it, less what the high half of the
      product comes to. */
  lemma RecombinedSurplus(u: seq<int>, wa: seq<int>, wb: seq<int>, k: nat, n: nat, m: nat, product: int)
    requires Sized(n, m, k) && |wa| == |wb| == Pow(2, k) >= 1 && AllIn(u, n) && k + 2 * m <= n
    requires Agree(u, NegaConv(wa, wb), Modulus(n)) && Within(wa, Pow(2, m)) && Within(wb, Pow(2, m))
    requires product == Eval(wa, Pow(2, m)) * Eval(wb, Pow(2, m))
    ensures Eval(u, Pow(2, m)) == product
       <==> Eval(FullHigh(wa, wb), Pow(2, m)) == Eval(Borrows(NegaConv(wa, wb)), Pow(2, m))
    ensures OffBy(Eval(u, Pow(2, m)), product, Modulus(n),
                  Eval(Borrows(NegaConv(wa, wb)), Pow(2, m)) - Eval(FullHigh(wa, wb), Pow(2, m)))
  {
    var x := Pow(2, m);
    HalvesInRing(wa, wb, k, n, m);
    NegaConvParts(wa, wb);
    FullProduct(wa, wb, x);
    PowMul(2, m, Pow(2, k));
    var c, lo, hi := NegaConv(wa, wb), FullLow(wa, wb), FullHigh(wa, wb);
    var v := ReturnedWhen(u, c, lo, hi, x, n, Eval(Borrows(c), x), Eval(lo, x), Eval(hi, x), Pow(2, n), product);
    assert v == Eval(u, x);
  }

  /** So it is the product if and only if the high half of the product evaluates like the ones where the
      ring had to add its modulus. Without wrapping both are zero. */
  lemma RecombinedWhen(u: seq<int>, wa: seq<int>, wb: seq<int>, k: nat, n: nat, m: nat)
    requires Sized(n, m, k) && |wa| == |wb| == Pow(2, k) >= 1 && AllIn(u, n) && k + 2 * m <= n
    requires Agree(u, NegaConv(wa, wb), Modulus(n)) && Within(wa, Pow(2, m)) && Within(wb, Pow(2, m))
    ensures Eval(u, Pow(2, m)) == Eval(wa, Pow(2, m)) * Eval(wb, Pow(2, m))
       <==> Eval(FullHigh(wa, wb), Pow(2, m)) == Eval(Borrows(NegaConv(wa, wb)), Pow(2, m))
  {
    RecombinedSurplus(u, wa, wb, k, n, m, Eval(wa, Pow(2, m)) * Eval(wb, Pow(2, m)));
  }

  lemma HalvesInRing(wa: seq<int>, wb: seq<int>, k: nat, n: nat, m: nat)
    requires |wa| == |wb| == Pow(2, k) >= 1 && k + 2 * m <= n && Within(wa, Pow(2, m)) && Within(wb, Pow(2, m))
    ensures AllIn(FullLow(wa, wb), n) && AllIn(FullHigh(wa, wb), n)
  {
    PowPos(2, m);
    CoefficientRoom(k, m, n);
    FullBounds(wa, wb, Pow(2, m));
    BoundedInRing(FullLow(wa, wb), Pow(2, k) * ((Pow(2, m) - 1) * (Pow(2, m) - 1)), n);
    BoundedInRing(FullHigh(wa, wb), Pow(2, k) * ((Pow(2, m) - 1) * (Pow(2, m) - 1)), n);
  }

  lemma ReturnedWhen(u: seq<int>, c: seq<int>, lo: seq<int>, hi: seq<int>, x: int, n: nat, ones: int, l: int, h: int,
                     p: int, product: int) returns (v: int)
    requires |u| == |c| == |lo| == |hi| && forall i :: 0 <= i < |c| ==> c[i] == lo[i] - hi[i]
    requires AllIn(u, n) && AllIn(lo, n) && AllIn(hi, n) && Agree(u, c, Modulus(n)) && p == Pow(2, n)
    requires IsValue(ones, Borrows(c), x) && IsValue(l, lo, x) && IsValue(h, hi, x) && product == l + p * h
    ensures IsValue(v, u, x) && (v == product <==> h == ones) && OffBy(v, product, Modulus(n), ones - h)
  {
    v := ElementsValue(u, c, lo, hi, x, n, ones, l, h, p + 1);
    PowPos(2, n);
    Returned(v, ones, l, h, p, product);
  }

  lemma ElementsValue(u: seq<int>, c: seq<int>, lo: seq<int>, hi: seq<int>, x: int, n: nat, ones: int, l: int, h: int,
                      md: int) returns (v: int)
    requires |u| == |c| == |lo| == |hi| && forall i :: 0 <= i < |c| ==> c[i] == lo[i] - hi[i]
    requires AllIn(u, n) && AllIn(lo, n) && AllIn(hi, n) && Agree(u, c, Modulus(n)) && md == Modulus(n)
    requires IsValue(ones, Borrows(c), x) && IsValue(l, lo, x) && IsValue(h, hi, x)
    ensures IsValue(v, u, x) && v == l - h + md * ones
  {
    assert ones == Eval(Borrows(c), x) && l == Eval(lo, x) && h == Eval(hi, x);
    DifferencesBounded(c, lo, hi, n);
    BorrowedElements(u, c, x, n);
    DifferenceValue(c, lo, hi, x);
    v := Eval(u, x);
  }

  lemma DifferencesBounded(c: seq<int>, lo: seq<int>, hi: seq<int>, n: nat)
    requires |c| == |lo| == |hi| && forall i :: 0 <= i < |c| ==> c[i] == lo[i] - hi[i]
    requires AllIn(lo, n) && AllIn(hi, n)
    ensures forall i :: 0 <= i < |c| ==> -Pow(2, n) <= c[i] <= Pow(2, n)
  {
    forall i | 0 <= i < |c|
      ensures -Pow(2, n) <= c[i] <= Pow(2, n)
    {
      assert InRing(lo[i], n) && InRing(hi[i], n);
    }
  }

  /** A ring element stands for a coefficient of either sign: the modulus is added to negative ones. */
  lemma BorrowedElements(u: seq<int>, c: seq<int>, x: int, n: nat)
    requires AllIn(u, n) && Agree(u, c, Modulus(n)) && forall i :: 0 <= i < |c| ==> -Pow(2, n) <= c[i] <= Pow(2, n)
    ensures Eval(u, x) == Eval(c, x) + Modulus(n) * Eval(Borrows(c), x)
  {
    var back := Times(Modulus(n), Borrows(c));
    forall i | 0 <= i < |c|
      ensures u[i] == Plus(c, back)[i]
    {
      assert InRing(u[i], n);
      BorrowedElement(u[i], c[i], n);
    }
    assert u == Plus(c, back);
    EvalPlus(c, back, x);
    EvalTimes(Modulus(n), Borrows(c), x);
  }

  lemma BorrowedElement(u: int, c: int, n: nat)
    requires InRing(u, n) && Cong(u, c, Modulus(n)) && -Pow(2, n) <= c <= Pow(2, n)
    ensures u == c + Modulus(n) * (if c < 0 then 1 else 0)
  {
    if c >= 0 {
      CongCanonical(u, c, Modulus(n));
    } else {
      assert CongBy(c, c + Modulus(n), Modulus(n), -1);
      CongTrans(u, c, c + Modulus(n), Modulus(n));
      CongCanonical(u, c + Modulus(n), Modulus(n));
    }
  }

  lemma Returned(u: int, ones: int, lo: int, hi: int, p: int, product: int)
    requires p >= 0 && u == lo - hi + (p + 1) * ones && product == lo + p * hi
    ensures u == product <==> hi == ones
    ensures OffBy(u, product, p + 1, ones - hi)
  {
    assert u - product == (p + 1) * ones - (p + 1) * hi;
    if ones < hi {
      MulStrictMono(ones, hi, p + 1);
    } else if hi < ones {
      MulStrictMono(hi, ones, p + 1);
    }
  }

  lemma CoefficientsInRing(wa: seq<int>, wb: seq<int>, ua: nat, ub: nat, k: nat, n: nat, m: nat)
    requires |wa| == |wb| == Pow(2, k) >= 1 && k + 2 * m <= n && ua + ub <= Pow(2, k) + 1
    requires Within(wa, Pow(2, m)) && Within(wb, Pow(2, m)) && ZeroFrom(wa, ua) && ZeroFrom(wb, ub)
    ensures AllIn(NegaConv(wa, wb), n)
  {
    PowPos(2, m);
    NegaConvBound(wa, wb, ua, ub, Pow(2, m));
    CoefficientRoom(k, m, n);
    BoundedInRing(NegaConv(wa, wb), Pow(2, k) * ((Pow(2, m) - 1) * (Pow(2, m) - 1)), n);
  }

  lemma BoundedInRing(c: seq<int>, top: int, n: nat)
    requires top <= Pow(2, n) && forall i :: 0 <= i < |c| ==> 0 <= c[i] <= top
    ensures AllIn(c, n)
  {
  }

  /** d products of two m-bit windows fit below 2^n. */
  lemma CoefficientRoom(k: nat, m: nat, n: nat)
    requires k + 2 * m <= n
    ensures Pow(2, k) * ((Pow(2, m) - 1) * (Pow(2, m) - 1)) <= Pow(2, n)
  {
    PowPos(2, m);
    PowPos(2, k);
    PowAdd(2, m, m);
    PowAdd(2, k, m + m);
    PowMono(2, k + (m + m), n);
    SquaresFit(Pow(2, k), Pow(2, m), Pow(2, m + m), Pow(2, k + (m + m)), Pow(2, n));
  }

  lemma SquaresFit(d: int, w: int, square: int, product: int, top: int)
    requires w >= 1 && d >= 1 && square == w * w && product == d * square && product <= top
    ensures d * ((w - 1) * (w - 1)) <= top
  {
    assert (w - 1) * (w - 1) == w * w - 2 * w + 1;
    MulMono((w - 1) * (w - 1), w * w, d);
  }

  /** Elements from 0 to w, recombined, stay below a geometric sum. */
  lemma {:induction false} EvalCeiling(c: seq<int>, x: int, w: int)
    requires x >= 1 && forall i :: 0 <= i < |c| ==> 0 <= c[i] <= w
    ensures 0 <= Eval(c, x) && Eval(c, x) * (x - 1) <= w * (Pow(x, |c|) - 1)
  {
    if c != [] {
      var e, p := Eval(c[1..], x), Pow(x, |c| - 1);
      EvalCeiling(c[1..], x, w);
      MulNat(x, e);
      CeilingStep(c[0], e, p, x, w);
    }
  }

  lemma CeilingStep(c0: int, e: int, p: int, x: int, w: int)
    requires x >= 1 && 0 <= c0 <= w && e * (x - 1) <= w * (p - 1)
    ensures (c0 + x * e) * (x - 1) <= w * (x * p - 1)
  {
    MulMono(c0, w, x - 1);
    MulMono(e * (x - 1), w * (p - 1), x);
    assert (c0 + x * e) * (x - 1) == c0 * (x - 1) + (e * (x - 1)) * x by {
      MulAssoc(x, e, x - 1);
    }
    assert (w * (p - 1)) * x == w * (x * p) - w * x by {
      MulAssoc(w, p - 1, x);
    }
    assert w * (x * p - 1) == w * (x * p) - w;
    assert w * (x - 1) == w * x - w;
  }

  lemma RecombinedBound(u: seq<int>, k: nat, n: nat, m: nat)
    requires Sized(n, m, k) && |u| == Pow(2, k) && AllIn(u, n)
    ensures 0 <= Eval(u, Pow(2, m)) * (Pow(2, m) - 1) <= Pow(2, n) * (Pow(2, n) - 1)
  {
    PowPos(2, m);
    EvalCeiling(u, Pow(2, m), Pow(2, n));
    MulNat(Eval(u, Pow(2, m)), Pow(2, m) - 1);
    PowMul(2, m, Pow(2, k));
  }

  // ------------------------------------------------------------------ the whole pipeline

  /** `f` is the transform of the weighted windows `w`. */
  ghost predicate Weighed(f: seq<int>, w: seq<int>, k: nat, n: nat, m: nat) {
    exists t: seq<int> ::
      Agree(t, Weighted(w, Pow(2, m)), Modulus(n)) && Transforms(f, t, Root(n, k, false), Modulus(n))
  }

  /** Weighted windows, transformed. */
  method Transformed(x: BigInt, size: nat, k: nat, n: nat, m: nat) returns (a: array<int>)
    requires x.Valid() && Sized(n, m, k) && size >= 1 && m == 64 * size
    ensures fresh(a) && a.Length == Pow(2, k) && AllIn(a[..], n)
    ensures Weighed(a[..], Windows(x.Limbs(), size, Pow(2, k)), k, n, m)
  {
    a := Weigh(x, size, k, n, m);
    ghost var t := a[..];
    Forward(a, k, n, m);
    assert Transforms(a[..], t, Root(n, k, false), Modulus(n));
  }

  lemma Spectral(p: seq<int>, fa: seq<int>, fb: seq<int>, wa: seq<int>, wb: seq<int>, k: nat, n: nat, m: nat)
    requires Sized(n, m, k) && |wa| == |wb| == Pow(2, k) >= 1 && Weighed(fa, wa, k, n, m) && Weighed(fb, wb, k, n, m)
    requires |p| == |fa| == |fb| && forall i :: 0 <= i < |p| ==> Cong(p[i], fa[i] * fb[i], Modulus(n))
    ensures Transforms(p, Weighted(NegaConv(wa, wb), Pow(2, m)), Root(n, k, false), Modulus(n))
  {
    var xa: seq<int> :| Agree(xa, Weighted(wa, Pow(2, m)), Modulus(n))
                        && Transforms(fa, xa, Root(n, k, false), Modulus(n));
    var xb: seq<int> :| Agree(xb, Weighted(wb, Pow(2, m)), Modulus(n))
                        && Transforms(fb, xb, Root(n, k, false), Modulus(n));
    PointProducts(p, fa, fb, wa, wb, xa, xb, k, n, m);
  }

  /** Back from the point products to the coefficients. */
  method Restore(a: array<int>, k: nat, n: nat, m: nat, ghost c: seq<int>)
    requires Sized(n, m, k) && a.Length == Pow(2, k) == |c| && AllIn(a[..], n)
    requires Transforms(a[..], Weighted(c, Pow(2, m)), Root(n, k, false), Modulus(n))
    modifies a
    ensures AllIn(a[..], n) && Agree(a[..], c, Modulus(n))
  {
    ghost var p := a[..];
    Inverse(a, k, n);
    InverseOfTransform(Weighted(c, Pow(2, m)), p, k, n, m);
    Unweigh(a, k, n, m, c);
  }

  /** No coefficient wraps around, and each has room below 2^n. */
  predicate NoWrap(xn: nat, yn: nat, size: nat, k: nat, n: nat, m: nat)
    requires size >= 1
  {
    Used(xn, size) + Used(yn, size) <= Pow(2, k) + 1 && k + 2 * m <= n
  }

  /** What wraps around evaluates like the ones where the ring adds its modulus back. */
  ghost predicate WrapsBack(s: seq<Limb>, t: seq<Limb>, size: nat, k: nat, m: nat) {
    PowPos(2, k);
    var wa, wb := Windows(s, size, Pow(2, k)), Windows(t, size, Pow(2, k));
    Eval(FullHigh(wa, wb), Pow(2, m)) == Eval(Borrows(NegaConv(wa, wb)), Pow(2, m))
  }

  /** How many moduli too much the elements recombine to: those the ring added to negative coefficients,
      less those that the wrapped half of the product lost. */
  ghost function Surplus(s: seq<Limb>, t: seq<Limb>, size: nat, k: nat, m: nat): int {
    PowPos(2, k);
    var wa, wb := Windows(s, size, Pow(2, k)), Windows(t, size, Pow(2, k));
    Eval(Borrows(NegaConv(wa, wb)), Pow(2, m)) - Eval(FullHigh(wa, wb), Pow(2, m))
  }

  /** The elements that recombine to the product: modulo 2^n + 1 always; exactly when the windows in
      use leave no wrap-around and k + 2m <= n; and with that room alone, exactly when what wraps
      around wraps back. */
  method Coefficients(x: BigInt, y: BigInt, size: nat, k: nat, n: nat, m: nat) returns (a: array<int>)
    requires x.Valid() && y.Valid() && Sized(n, m, k) && size >= 1 && m == 64 * size
    requires x.n <= Pow(2, k) * size && y.n <= Pow(2, k) * size
    ensures fresh(a) && a.Length == Pow(2, k) && AllIn(a[..], n)
    ensures Cong(Eval(a[..], Pow(2, m)), x.Mag() * y.Mag(), Modulus(n))
    ensures NoWrap(x.n, y.n, size, k, n, m) ==> Eval(a[..], Pow(2, m)) == x.Mag() * y.Mag()
    ensures k + 2 * m <= n ==>
              (Eval(a[..], Pow(2, m)) == x.Mag() * y.Mag() <==> WrapsBack(x.Limbs(), y.Limbs(), size, k, m))
    ensures k + 2 * m <= n ==>
              OffBy(Eval(a[..], Pow(2, m)), x.Mag() * y.Mag(), Modulus(n), Surplus(x.Limbs(), y.Limbs(), size, k, m))
  {
    ghost var wa, wb := Windows(x.Limbs(), size, Pow(2, k)), Windows(y.Limbs(), size, Pow(2, k));
    PowPos(2, k);
    a := Transformed(x, size, k, n, m);
    ghost var fa := a[..];
    var b := Transformed(y, size, k, n, m);
    ghost var fb := b[..];
    Pointwise(a, b, n);
    Spectral(a[..], fa, fb, wa, wb, k, n, m);
    Restore(a, k, n, m, NegaConv(wa, wb));
    RecombinedProduct(a[..], x.Limbs(), y.Limbs(), size, k, n, m);
    if k + 2 * m <= n {
      RecombinedOff(a[..], x.Limbs(), y.Limbs(), size, k, n, m);
    }
  }

  /** What elements that agree with the negacyclic product of the windows recombine to. */
  lemma RecombinedProduct(u: seq<int>, s: seq<Limb>, t: seq<Limb>, size: nat, k: nat, n: nat, m: nat)
    requires Sized(n, m, k) && size >= 1 && m == 64 * size && 1 <= Pow(2, k)
    requires |s| <= Pow(2, k) * size && |t| <= Pow(2, k) * size && AllIn(u, n)
    requires Agree(u, NegaConv(Windows(s, size, Pow(2, k)), Windows(t, size, Pow(2, k))), Modulus(n))
    ensures Cong(Eval(u, Pow(2, m)), Val(s) * Val(t), Modulus(n))
    ensures NoWrap(|s|, |t|, size, k, n, m) ==> Eval(u, Pow(2, m)) == Val(s) * Val(t)
    ensures k + 2 * m <= n ==> (Eval(u, Pow(2, m)) == Val(s) * Val(t) <==> WrapsBack(s, t, size, k, m))
  {
    var wa, wb := Windows(s, size, Pow(2, k)), Windows(t, size, Pow(2, k));
    WindowsFit(s, size, k, n, m);
    WindowsValue(s, size, Pow(2, k));
    WindowsValue(t, size, Pow(2, k));
    RecombinedCong(u, wa, wb, k, n, m);
    WindowsWithin(s, size, Pow(2, k));
    WindowsWithin(t, size, Pow(2, k));
    if NoWrap(|s|, |t|, size, k, n, m) {
      RecombinedExact(u, wa, wb, Used(|s|, size), Used(|t|, size), k, n, m);
    }
    if k + 2 * m <= n {
      RecombinedWhen(u, wa, wb, k, n, m);
    }
  }

  lemma RecombinedOff(u: seq<int>, s: seq<Limb>, t: seq<Limb>, size: nat, k: nat, n: nat, m: nat)
    requires Sized(n, m, k) && size >= 1 && m == 64 * size && 1 <= Pow(2, k) && k + 2 * m <= n
    requires |s| <= Pow(2, k) * size && |t| <= Pow(2, k) * size && AllIn(u, n)
    requires Agree(u, NegaConv(Windows(s, size, Pow(2, k)), Windows(t, size, Pow(2, k))), Modulus(n))
    ensures OffBy(Eval(u, Pow(2, m)), Val(s) * Val(t), Modulus(n), Surplus(s, t, size, k, m))
  {
    var wa, wb := Windows(s, size, Pow(2, k)), Windows(t, size, Pow(2, k));
    WindowsFit(s, size, k, n, m);
    WindowsValue(s, size, Pow(2, k));
    WindowsValue(t, size, Pow(2, k));
    WindowsWithin(s, size, Pow(2, k));
    WindowsWithin(t, size, Pow(2, k));
    RecombinedSurplus(u, wa, wb, k, n, m, Val(s) * Val(t));
  }

  /** Multiplies through the transform, recombining on numbers. The result is the product modulo
      2^n + 1, the product itself under the condition on the windows, and with room for the
      coefficients exactly when what wraps around wraps back. */
  method Multiply(x: BigInt, y: BigInt, size: nat, k: nat, n: nat, m: nat) returns (total: int)
    requires x.Valid() && y.Valid() && Sized(n, m, k) && size >= 1 && m == 64 * size
    requires x.n <= Pow(2, k) * size && y.n <= Pow(2, k) * size
    ensures Cong(total, x.Mag() * y.Mag(), Modulus(n))
    ensures NoWrap(x.n, y.n, size, k, n, m) ==> total == x.Mag() * y.Mag()
    ensures k + 2 * m <= n ==> (total == x.Mag() * y.Mag() <==> WrapsBack(x.Limbs(), y.Limbs(), size, k, m))
    ensures k + 2 * m <= n ==> OffBy(total, x.Mag() * y.Mag(), Modulus(n), Surplus(x.Limbs(), y.Limbs(), size, k, m))
    ensures 0 <= total * (Pow(2, m) - 1) <= Pow(2, n) * (Pow(2, n) - 1)
  {
    var a := Coefficients(x, y, size, k, n, m);
    total := Recombine(a, m);
    RecombinedBound(a[..], k, n, m);
  }

  // ------------------------------------------------------------------ recombination on limbs

  /** The element as limbs: low limb first, until nothing is left. */
  method Store(x: BigInt, v: nat)
    requires x.Valid() && v < Pow(B, x.cap)
    modifies x, x.buf
    ensures Holds(x, v)
  {
    x.ZeroSet();
    var rest: nat := v;
    while rest > 0
      modifies x, x.buf
      invariant x.Valid() && x.sign == 1 && v == x.Mag() + Shl(rest, x.n)
      invariant rest == 0 ==> x.Trimmed()
      decreases rest
    {
      RoomForDigit(x, rest, v);
      NextDigit(x.Limbs(), rest, v);
      x.Push(rest % B);
      rest := rest / B;
    }
    ShlZero(x.n);
  }

  lemma RoomForDigit(x: BigInt, rest: nat, v: nat)
    requires x.Valid() && rest > 0 && v == x.Mag() + Shl(rest, x.n) && v < Pow(B, x.cap)
    ensures x.n < x.cap
  {
    ShlOne(x.n);
    ShlMono(1, rest, x.n);
    ValBound(x.Limbs());
    if x.cap <= x.n {
      PowMono(B, x.cap, x.n);
    }
  }

  /** Pushing the lowest digit of what is left. */
  lemma NextDigit(s: seq<Limb>, rest: nat, v: int)
    requires rest > 0 && v == Val(s) + Shl(rest, |s|)
    ensures v == Val(s + [rest % B]) + Shl(rest / B, |s| + 1)
    ensures rest / B == 0 ==> Trim(s + [rest % B])
  {
    var t := s + [rest % B];
    ValCut(t, |s|);
    assert t[..|s|] == s && t[|s|..] == [rest % B];
    SingleLimb(rest % B);
    assert rest == rest / B * B + rest % B;
    ShlAdd(rest / B * B, rest % B, |s|);
    ShlUp(rest / B, |s|);
  }

  /** Adds every element that is not zero at its limb distance. */
  method RecombineLimbs(res: BigInt, elem: BigInt, a: array<int>, size: nat, n: nat, ghost total: nat)
    requires res.Valid() && elem.Valid() && res.buf != elem.buf && size >= 1
    requires AllIn(a[..], n) && Pow(2, n) < Pow(B, elem.cap)
    requires total == Eval(a[..], Pow(B, size)) && total < Pow(B, res.cap)
    modifies res, res.buf, elem, elem.buf
    ensures Holds(res, total)
  {
    res.ZeroSet();
    ghost var sum: nat := 0;
    ghost var s := a[..];
    assert s[..0] == [] && Eval([], Pow(B, size)) == 0;
    for i := 0 to a.Length
      modifies res, res.buf, elem, elem.buf
      invariant a[..] == s && elem.Valid() && Holds(res, sum) && sum == Eval(s[..i], Pow(B, size))
    {
      MulNat(i, size);
      assert InRing(s[i], n) && s[i] == a[i];
      ElementAdds(s, i, size, n);
      Store(elem, a[i]);
      AddElement(res, elem, i * size, sum, a[i], total);
      sum := sum + Shl(s[i], i * size);
    }
    assert s[..a.Length] == s;
  }

  method AddElement(res: BigInt, elem: BigInt, shift: nat, ghost sum: nat, ghost v: nat, ghost total: nat)
    requires Holds(res, sum) && Holds(elem, v) && res.buf != elem.buf
    requires 0 <= Shl(v, shift) && sum + Shl(v, shift) <= total < Pow(B, res.cap)
    modifies res, res.buf
    ensures Holds(res, sum + Shl(v, shift))
  {
    if elem.n == 0 {
      ShlZero(shift);
      return;
    }
    ValBound(elem.Limbs());
    ShiftFits(elem.Limbs(), shift, res.cap, total);
    res.AddShift(elem, shift);
  }

  /** One more element, below the whole sum. */
  lemma ElementAdds(s: seq<int>, i: nat, size: nat, n: nat)
    requires i < |s| && size >= 1 && AllIn(s, n)
    ensures 0 <= i * size && 0 <= Shl(s[i], i * size) && 0 <= Eval(s[..i], Pow(B, size))
    ensures Eval(s[..i + 1], Pow(B, size)) == Eval(s[..i], Pow(B, size)) + Shl(s[i], i * size)
    ensures Eval(s[..i + 1], Pow(B, size)) <= Eval(s, Pow(B, size))
  {
    var y, t := Pow(B, size), s[..i + 1];
    MulNat(i, size);
    PowPos(B, size);
    EvalCut(t, i, y);
    assert t[..i] == s[..i];
    SingleTerm(t[i..], s[i], y);
    PowMul(B, size, i);
    MulComm(size, i);
    ShlPow(s[i], i * size);
    MulComm(s[i], Pow(B, i * size));
    ShlZero(i * size);
    ShlMono(0, s[i], i * size);
    EvalCut(s, i + 1, y);
    EvalNonNegative(s[..i], y);
    EvalNonNegative(s[i + 1..], y);
    PowPos(y, i + 1);
    MulNat(Pow(y, i + 1), Eval(s[i + 1..], y));
  }

  lemma {:induction false} EvalNonNegative(c: seq<int>, x: int)
    requires x >= 0 && forall i :: 0 <= i < |c| ==> 0 <= c[i]
    ensures 0 <= Eval(c, x)
  {
    if c != [] {
      EvalNonNegative(c[1..], x);
      MulNat(x, Eval(c[1..], x));
    }
  }

  /** The whole multiplication into a result buffer, where it is exact. */
  method MultiplyInto(x: BigInt, y: BigInt, res: BigInt, size: nat, k: nat, n: nat, m: nat)
    requires x.Valid() && y.Valid() && res.Valid() && Sized(n, m, k) && size >= 1 && m == 64 * size
    requires x.n <= Pow(2, k) * size && y.n <= Pow(2, k) * size && x.n + y.n <= res.cap
    requires NoWrap(x.n, y.n, size, k, n, m)
    requires res.buf != x.buf && res.buf != y.buf
    modifies res, res.buf
    ensures Holds(res, x.Mag() * y.Mag())
  {
    var a := Coefficients(x, y, size, k, n, m);
    ghost var total := x.Mag() * y.Mag();
    var tmp := new BigInt.Fresh(x.n + y.n);
    var elem := new BigInt.Fresh(n / 64 + 1);
    ElementRoom(n, elem.cap);
    WindowPower(size, m);
    ProductRoom(x, y);
    RecombineLimbs(tmp, elem, a, size, n, total);
    CopyProduct(x, y, tmp, res);
  }

  lemma ElementRoom(n: nat, cap: nat)
    requires cap == n / 64 + 1
    ensures Pow(2, n) < Pow(B, cap)
  {
    WindowPower(cap, 64 * cap);
    PowMono(2, n + 1, 64 * cap);
    PowPos(2, n);
    assert Pow(2, n + 1) == 2 * Pow(2, n);
  }

  lemma ProductRoom(x: BigInt, y: BigInt)
    requires x.Valid() && y.Valid()
    ensures 0 <= x.Mag() * y.Mag() < Pow(B, x.n + y.n)
  {
    ValBound(x.Limbs());
    ValBound(y.Limbs());
    PowersFit(x.Mag(), y.Mag(), B, x.n, y.n);
  }
}
