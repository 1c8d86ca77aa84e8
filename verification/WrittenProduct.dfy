/** The transform multiplier with the inverse transform as the source writes it, and exactly when
    what it recombines is the product. */
module WrittenProduct {
  import opened Arith
  import opened Limbs
  import opened BigInts
  import opened FermatRing
  import opened Polynomials
  import opened Network
  import opened Spectrum
  import opened Fft
  import opened FftMultiply
  import opened WrittenTransform

  // ------------------------------------------------------------------ what the division loses, in all

  /** The sum of the elements. */
  ghost function Sum(x: seq<int>): int {
    Eval(x, 1)
  }

  lemma {:induction false} SumBound(x: seq<int>, top: nat)
    requires forall i :: 0 <= i < |x| ==> 0 <= x[i] <= top
    ensures 0 <= Sum(x) <= |x| * top
    ensures forall i :: 0 <= i < |x| ==> x[i] <= Sum(x)
  {
    if x != [] {
      SumBound(x[1..], top);
      assert Sum(x) == x[0] + Sum(x[1..]);
      assert |x| * top == (|x| - 1) * top + top;
      forall i | 0 <= i < |x|
        ensures x[i] <= Sum(x)
      {
        assert i > 0 ==> x[i] == x[1..][i - 1];
      }
    }
  }

  lemma {:induction false} SumMultiple(x: seq<int>, h: seq<int>, p: int)
    requires |x| == |h| && forall i :: 0 <= i < |x| ==> x[i] == h[i] * p
    ensures Sum(x) == Sum(h) * p
  {
    if x != [] {
      SumMultiple(x[1..], h[1..], p);
      MulSum(h[0], Sum(h[1..]), p);
    }
  }

  lemma SumDifference(x: seq<int>, r: seq<int>, gap: seq<int>)
    requires |x| == |r| == |gap| && forall i :: 0 <= i < |x| ==> gap[i] == x[i] - r[i]
    ensures Sum(gap) == Sum(x) - Sum(r)
  {
    EvalPlus(r, gap, 1);
    assert Plus(r, gap) == x;
  }

  /** d gaps of at most 2^n, all multiples of d, add up to a multiple of 2^n + 1 only if there are
      none: a smaller multiple of 2^n + 1 than d times is not a multiple of d. */
  lemma NoGapSum(sum: int, h: int, q: int, d: int, p: int)
    requires d >= 1 && p >= 1 && 0 <= sum <= d * (d * p) && sum == h * d && sum == q * (d * p + 1)
    ensures sum == 0
  {
    var top := d * p;
    MulStrictMono(0, d, p) by {
      MulComm(0, p);
    }
    assert (d) * (top + 1) == d * top + d;
    MulCancel(q, d, top + 1);
    MulCancel(-1, q, top + 1);
    assert q * (top + 1) == q * top + q;
    assert q * top == (q * p) * d by {
      MulComm(d, p);
      MulAssoc(q, p, d);
    }
    assert (h - q * p) * d == h * d - (q * p) * d;
    MulCancel(h - q * p, 1, d);
    MulCancel(-1, h - q * p, d);
  }

  /** Elements that are multiples of d behind, summed, are congruent to the true ones only if none
      of them is behind. */
  lemma LostSum(x: seq<int>, r: seq<int>, h: seq<int>, k: nat, n: nat)
    requires k <= n && |x| == |r| == |h| == Pow(2, k) && AllIn(x, n) && AllIn(r, n)
    requires forall i :: 0 <= i < |x| ==> 0 <= h[i] && x[i] == r[i] + h[i] * Pow(2, k)
    ensures Cong(Sum(r), Sum(x), Modulus(n)) <==> r == x
  {
    var gap := seq(|x|, i requires 0 <= i < |x| => x[i] - r[i]);
    GapsIn(x, r, gap, h, k, n);
    SumDifference(x, r, gap);
    SumBound(gap, Pow(2, n));
    SumMultiple(gap, h, Pow(2, k));
    PowAdd(2, k, n - k);
    PowPos(2, k);
    PowPos(2, n - k);
    if Cong(Sum(r), Sum(x), Modulus(n)) {
      CongSym(Sum(r), Sum(x), Modulus(n));
      var q: int :| CongBy(Sum(x), Sum(r), Modulus(n), q);
      NoGapSum(Sum(gap), Sum(h), q, Pow(2, k), Pow(2, n - k));
      assert forall i :: 0 <= i < |x| ==> gap[i] <= 0;
      assert forall i :: 0 <= i < |x| ==> x[i] == r[i];
    } else if r == x {
      CongRefl(Sum(x), Modulus(n));
    }
  }

  lemma GapsIn(x: seq<int>, r: seq<int>, gap: seq<int>, h: seq<int>, k: nat, n: nat)
    requires |x| == |r| == |h| == |gap| && AllIn(x, n) && AllIn(r, n)
    requires forall i :: 0 <= i < |x| ==> 0 <= h[i] && x[i] == r[i] + h[i] * Pow(2, k) && gap[i] == x[i] - r[i]
    ensures forall i :: 0 <= i < |x| ==> 0 <= gap[i] <= Pow(2, n) && gap[i] == h[i] * Pow(2, k)
  {
    forall i | 0 <= i < |x|
      ensures 0 <= gap[i] <= Pow(2, n)
    {
      PowPos(2, k);
      MulNat(h[i], Pow(2, k));
      assert InRing(x[i], n) && InRing(r[i], n);
    }
  }

  // ------------------------------------------------------------------ the elements of a product

  /** What element i stands for before the weights are taken off: 2^(i m) c_i. */
  ghost function Scaled(c: seq<int>, m: nat): (s: seq<int>)
    ensures |s| == |c|
  {
    Weighted(c, Pow(2, m))
  }

  /** Every weighted coefficient, reduced, is at most 2^(n - k). */
  ghost predicate AllSurvive(c: seq<int>, k: nat, n: nat, m: nat)
    requires k <= n
  {
    forall i :: 0 <= i < |c| ==> Survives(Scaled(c, m)[i], k, n)
  }

  ghost function Residues(v: seq<int>, n: nat): (r: seq<int>)
    ensures |r| == |v| && AllIn(r, n) && Agree(r, v, Modulus(n))
  {
    var r := seq(|v|, i requires 0 <= i < |v| => v[i] % Modulus(n));
    assert forall i :: 0 <= i < |v| ==> Cong(r[i], v[i], Modulus(n)) by {
      forall i | 0 <= i < |v|
        ensures Cong(r[i], v[i], Modulus(n))
      {
        CongMod(v[i], Modulus(n));
      }
    }
    r
  }

  lemma RoomForGaps(n: nat, m: nat, k: nat)
    requires Sized(n, m, k)
    ensures 2 * k <= n
  {
    RoundsFit(n, m, k);
    TwicePower(k);
    MulMono(1, m, Pow(2, k));
  }

  lemma {:induction false} TwicePower(k: nat)
    ensures 2 * k <= Pow(2, k)
  {
    assert Pow(2, 0) == 1 && Pow(2, 1) == 2 && Pow(2, 2) == 4;
    if k > 2 {
      TwicePower(k - 1);
    }
  }

  /** What the written division leaves of a slot that stands for `v`: h times d less than it. */
  ghost predicate Slot(v: int, r: int, h: int, k: nat, n: nat)
    requires k <= n
  {
    && InRing(r, n) && 0 <= h && v % Modulus(n) == r + h * Pow(2, k)
    && (Cong(r, v, Modulus(n)) <==> Survives(v, k, n))
    && (r == v % Modulus(n) <==> Survives(v, k, n))
  }

  ghost predicate Slots(v: seq<int>, r: seq<int>, h: seq<int>, k: nat, n: nat)
    requires k <= n
  {
    |r| == |v| == |h| && forall i :: 0 <= i < |v| ==> Slot(v[i], r[i], h[i], k, n)
  }

  /** What the written inverse leaves of the transform of `v`. */
  lemma WrittenInverseOf(v: seq<int>, y: seq<int>, r: seq<int>, k: nat, n: nat, m: nat, lens: seq<nat>)
    returns (h: seq<int>)
    requires Sized(n, m, k) && 2 * k <= n && k <= 32 && |v| == Pow(2, k) && AllIn(y, n)
    requires Transforms(y, v, Root(n, k, false), Modulus(n))
    requires Kept(Transform(y, k, n, true), lens) && r == WrittenInverse(y, k, n, lens)
    ensures Slots(v, r, h, k, n)
  {
    h := [];
    for i := 0 to |v|
      invariant |h| == i
      invariant forall j :: 0 <= j < i ==> Slot(v[j], r[j], h[j], k, n)
    {
      var g := WrittenSlot(v, y, r, k, n, m, lens, i);
      h := h + [g];
    }
  }

  lemma WrittenSlot(v: seq<int>, y: seq<int>, r: seq<int>, k: nat, n: nat, m: nat, lens: seq<nat>, i: nat)
    returns (h: int)
    requires Sized(n, m, k) && 2 * k <= n && k <= 32 && |v| == Pow(2, k) && i < |v| && AllIn(y, n)
    requires Transforms(y, v, Root(n, k, false), Modulus(n))
    requires Kept(Transform(y, k, n, true), lens) && r == WrittenInverse(y, k, n, lens)
    ensures Slot(v[i], r[i], h, k, n)
  {
    ScaledElement(v, y, k, n, m, i);
    h := DividedSlot(Transform(y, k, n, true)[i], v[i], k, lens[i], n);
  }

  lemma DividedSlot(z: nat, v: int, k: nat, len: nat, n: nat) returns (h: nat)
    requires n >= 1 && 2 * k <= n && k <= 32 && InRing(z, n) && Cong(z, Pow(2, k) * v, Modulus(n)) && z < Pow(B, len)
    ensures Slot(v, WrittenTimes(z, k, len), h, k, n)
  {
    WrittenElement(z, v, k, len, n);
    assert GapIs(z, z, 0, 2 * k);
    h := GapTimes(z, z, k, len, n, 2 * k, 0);
  }

  /** The elements sum up right if and only if each of them survives. */
  lemma SlotsSum(v: seq<int>, r: seq<int>, h: seq<int>, k: nat, n: nat)
    requires k <= n && |v| == Pow(2, k) && Slots(v, r, h, k, n)
    ensures AllIn(r, n)
    ensures Cong(Sum(r), Sum(v), Modulus(n)) <==> forall i :: 0 <= i < |v| ==> Survives(v[i], k, n)
  {
    var x, md := Residues(v, n), Modulus(n);
    forall i | 0 <= i < |v|
      ensures InRing(r[i], n) && 0 <= h[i] && x[i] == r[i] + h[i] * Pow(2, k)
      ensures r[i] == x[i] <==> Survives(v[i], k, n)
    {
      assert Slot(v[i], r[i], h[i], k, n);
    }
    LostSum(x, r, h, k, n);
    EvalCongCoeffs(x, v, 1, md);
    SameClass(Sum(r), Sum(x), Sum(v), md);
    assert r == x <==> forall i :: 0 <= i < |v| ==> r[i] == x[i];
  }

  lemma SameClass(a: int, b: int, c: int, m: int)
    requires Cong(b, c, m)
    ensures Cong(a, b, m) <==> Cong(a, c, m)
  {
    if Cong(a, b, m) {
      CongTrans(a, b, c, m);
    }
    if Cong(a, c, m) {
      CongSym(b, c, m);
      CongTrans(a, c, b, m);
    }
  }

  // ------------------------------------------------------------------ taking the weights off

  /** The numbers that, weighted, give `r`. */
  lemma Unscaled(r: seq<int>, k: nat, n: nat, m: nat) returns (u: seq<int>)
    requires Sized(n, m, k) && |r| == Pow(2, k) && AllIn(r, n)
    ensures |u| == |r| && Agree(r, Weighted(u, Pow(2, m)), Modulus(n))
  {
    u := [];
    for i := 0 to |r|
      invariant |u| == i
      invariant forall j :: 0 <= j < i ==> Cong(r[j], Pow(Pow(2, m), j) * u[j], Modulus(n))
    {
      WeightRange(i, k, n, m);
      var x := UnscaledAt(r[i], i, m, n);
      u := u + [x];
    }
  }

  lemma UnscaledAt(r: int, i: nat, m: nat, n: nat) returns (x: int)
    requires n >= 1 && 0 <= i * m < n
    ensures Cong(r, Pow(Pow(2, m), i) * x, Modulus(n))
  {
    var p, q := Pow(2, i * m), Pow(2, Exponent(i * m, n, true));
    ComplementPower(i * m, n);
    x := q * r;
    CongScale(r, p * q, 1, Modulus(n));
    MulAssoc(p, q, r);
    MulComm(p * q, r);
    MulComm(p, q * r);
    WeightIs(q * r, m, i);
    CongSym(p * (q * r), r, Modulus(n));
  }

  /** Weights do not change which elements are right. */
  lemma ScaledElementRight(a: int, u: int, c: int, r: int, i: nat, m: nat, n: nat)
    requires n >= 1 && Cong(a, u, Modulus(n)) && Cong(r, Pow(Pow(2, m), i) * u, Modulus(n))
    ensures Cong(r, Pow(Pow(2, m), i) * a, Modulus(n))
    ensures Cong(a, c, Modulus(n)) <==> Cong(r, Pow(Pow(2, m), i) * c, Modulus(n))
  {
    var w, md := Pow(Pow(2, m), i), Modulus(n);
    CongSym(a, u, md);
    CongScale(w, u, a, md);
    CongTrans(r, w * u, w * a, md);
    if Cong(a, c, md) {
      CongScale(w, a, c, md);
      CongTrans(r, w * a, w * c, md);
    }
    if Cong(r, w * c, md) {
      CongSym(r, w * a, md);
      CongTrans(w * a, r, w * c, md);
      PowMul(2, m, i);
      CancelPower(a, c, m * i, n);
    }
  }

  /** The evaluation at 2^m is the sum of the weighted elements. */
  lemma ScaledSum(a: seq<int>, r: seq<int>, m: nat, n: nat)
    requires Agree(r, Scaled(a, m), Modulus(n))
    ensures Cong(Sum(r), Eval(a, Pow(2, m)), Modulus(n))
  {
    EvalCongCoeffs(r, Scaled(a, m), 1, Modulus(n));
    EvalWeighted(a, Pow(2, m), 1);
  }

  /** An element is right if and only if it survives, and the whole if and only if all of them do. */
  ghost predicate RightIfSurviving(a: seq<int>, c: seq<int>, k: nat, n: nat, m: nat)
    requires k <= n
  {
    && |a| == |c|
    && (forall i :: 0 <= i < |c| ==> (Cong(a[i], c[i], Modulus(n)) <==> Survives(Scaled(c, m)[i], k, n)))
    && (Cong(Eval(a, Pow(2, m)), Eval(c, Pow(2, m)), Modulus(n)) <==> AllSurvive(c, k, n, m))
  }

  /** What recombines, from the elements the written inverse leaves. */
  lemma WrittenElements(a: seq<int>, u: seq<int>, c: seq<int>, r: seq<int>, h: seq<int>, k: nat, n: nat, m: nat)
    requires n >= 1 && k <= n && |c| == Pow(2, k) && Slots(Scaled(c, m), r, h, k, n)
    requires Agree(a, u, Modulus(n)) && Agree(r, Weighted(u, Pow(2, m)), Modulus(n))
    ensures RightIfSurviving(a, c, k, n, m) && Agree(r, Scaled(a, m), Modulus(n))
  {
    var md, x := Modulus(n), Pow(2, m);
    forall i | 0 <= i < |c|
      ensures Cong(r[i], Scaled(a, m)[i], md)
      ensures Cong(a[i], c[i], md) <==> Survives(Scaled(c, m)[i], k, n)
    {
      assert Slot(Scaled(c, m)[i], r[i], h[i], k, n);
      ScaledElementRight(a[i], u[i], c[i], r[i], i, m, n);
    }
    SlotsSum(Scaled(c, m), r, h, k, n);
    ScaledSum(a, r, m, n);
    EvalWeighted(c, x, 1);
    SameClassBoth(Sum(r), Eval(a, x), Eval(c, x), md);
  }

  lemma SameClassBoth(s: int, a: int, c: int, m: int)
    requires Cong(s, a, m)
    ensures Cong(a, c, m) <==> Cong(s, c, m)
  {
    if Cong(a, c, m) {
      CongTrans(s, a, c, m);
    }
    if Cong(s, c, m) {
      CongSym(s, a, m);
      CongTrans(a, s, c, m);
    }
  }

  /** Back from the point products, with the inverse as written: weighted again, the elements are what
      it leaves, and they are right where it is. The source stops its search for k at 32. */
  method RestoreWritten(a: array<int>, k: nat, n: nat, m: nat, ghost c: seq<int>) returns (ghost lens: seq<nat>)
    requires Sized(n, m, k) && k <= 32 && a.Length == Pow(2, k) == |c| && AllIn(a[..], n)
    requires Transforms(a[..], Weighted(c, Pow(2, m)), Root(n, k, false), Modulus(n))
    modifies a
    ensures k <= n && AllIn(a[..], n) && RightIfSurviving(a[..], c, k, n, m)
    ensures |lens| == Pow(2, k) && Agree(WrittenInverse(old(a[..]), k, n, lens), Scaled(a[..], m), Modulus(n))
  {
    RoundsFit(n, m, k);
    RoomForGaps(n, m, k);
    ghost var y := a[..];
    lens := InverseWritten(a, k, n);
    ghost var r := a[..];
    ghost var h := WrittenInverseOf(Scaled(c, m), y, r, k, n, m, lens);
    SlotsSum(Scaled(c, m), r, h, k, n);
    ghost var u := Unscaled(r, k, n, m);
    Unweigh(a, k, n, m, u);
    WrittenElements(a[..], u, c, r, h, k, n, m);
  }

  // ------------------------------------------------------------------ the product

  /** The negacyclic product of the windows. */
  ghost function WindowProduct(s: seq<Limb>, t: seq<Limb>, size: nat, k: nat): (c: seq<int>)
    ensures |c| == Pow(2, k)
  {
    PowPos(2, k);
    NegaConv(Windows(s, size, Pow(2, k)), Windows(t, size, Pow(2, k)))
  }

  /** Every weighted coefficient of the product of two operands survives. */
  ghost predicate ProductSurvives(s: seq<Limb>, t: seq<Limb>, size: nat, k: nat, n: nat, m: nat) {
    k <= n && AllSurvive(WindowProduct(s, t, size, k), k, n, m)
  }

  /** The written multiplier is right, modulo 2^n + 1, if and only if every weighted coefficient of
      the negacyclic product is at most 2^(n - k); and so for the product itself where nothing wraps
      around. Windows that leave a window and 2k bits free are a guard under which it is. */
  method MultiplyWritten(x: BigInt, y: BigInt, size: nat, k: nat, n: nat, m: nat) returns (total: int)
    requires x.Valid() && y.Valid() && Sized(n, m, k) && k <= 32 && size >= 1 && m == 64 * size
    requires x.n <= Pow(2, k) * size && y.n <= Pow(2, k) * size
    ensures Cong(total, x.Mag() * y.Mag(), Modulus(n)) <==> ProductSurvives(x.Limbs(), y.Limbs(), size, k, n, m)
    ensures NoWrap(x.n, y.n, size, k, n, m) ==>
              (total == x.Mag() * y.Mag() <==> ProductSurvives(x.Limbs(), y.Limbs(), size, k, n, m))
    ensures NoWrap(x.n, y.n, size, k, n, m) && m * (Used(x.n, size) + Used(y.n, size)) + 2 * k <= n ==>
              total == x.Mag() * y.Mag()
  {
    var a := CoefficientsWritten(x, y, size, k, n, m);
    ghost var s, t, u := x.Limbs(), y.Limbs(), a[..];
    total := Recombine(a, m);
    WrittenTotal(u, s, t, total, size, k, n, m);
  }

  lemma WrittenTotal(a: seq<int>, s: seq<Limb>, t: seq<Limb>, total: int, size: nat, k: nat, n: nat, m: nat)
    requires Sized(n, m, k) && k <= n && size >= 1 && m == 64 * size && AllIn(a, n) && total == Eval(a, Pow(2, m))
    requires |s| <= Pow(2, k) * size && |t| <= Pow(2, k) * size
    requires RightIfSurviving(a, WindowProduct(s, t, size, k), k, n, m)
    ensures Cong(total, Val(s) * Val(t), Modulus(n)) <==> ProductSurvives(s, t, size, k, n, m)
    ensures NoWrap(|s|, |t|, size, k, n, m) ==> (total == Val(s) * Val(t) <==> ProductSurvives(s, t, size, k, n, m))
    ensures NoWrap(|s|, |t|, size, k, n, m) && m * (Used(|s|, size) + Used(|t|, size)) + 2 * k <= n ==>
              total == Val(s) * Val(t)
  {
    WrittenCong(a, s, t, size, k, n, m);
    if NoWrap(|s|, |t|, size, k, n, m) {
      WrittenExact(a, s, t, size, k, n, m);
      ShortProductSurvives(s, t, size, k, n, m);
    }
  }

  method CoefficientsWritten(x: BigInt, y: BigInt, size: nat, k: nat, n: nat, m: nat) returns (a: array<int>)
    requires x.Valid() && y.Valid() && Sized(n, m, k) && k <= 32 && size >= 1 && m == 64 * size
    requires x.n <= Pow(2, k) * size && y.n <= Pow(2, k) * size
    ensures fresh(a) && a.Length == Pow(2, k) && AllIn(a[..], n)
    ensures k <= n && RightIfSurviving(a[..], WindowProduct(x.Limbs(), y.Limbs(), size, k), k, n, m)
  {
    ghost var s, t := x.Limbs(), y.Limbs();
    ghost var wa, wb := Windows(s, size, Pow(2, k)), Windows(t, size, Pow(2, k));
    PowPos(2, k);
    a := Transformed(x, size, k, n, m);
    ghost var fa := a[..];
    var b := Transformed(y, size, k, n, m);
    ghost var fb := b[..];
    Pointwise(a, b, n);
    Spectral(a[..], fa, fb, wa, wb, k, n, m);
    ghost var lens := RestoreWritten(a, k, n, m, NegaConv(wa, wb));
  }

  lemma WrittenCong(a: seq<int>, s: seq<Limb>, t: seq<Limb>, size: nat, k: nat, n: nat, m: nat)
    requires Sized(n, m, k) && k <= n && size >= 1 && m == 64 * size
    requires |s| <= Pow(2, k) * size && |t| <= Pow(2, k) * size
    requires RightIfSurviving(a, WindowProduct(s, t, size, k), k, n, m)
    ensures Cong(Eval(a, Pow(2, m)), Val(s) * Val(t), Modulus(n)) <==> ProductSurvives(s, t, size, k, n, m)
  {
    var md, c := Modulus(n), WindowProduct(s, t, size, k);
    PowPos(2, k);
    WindowsFit(s, size, k, n, m);
    WindowsValue(s, size, Pow(2, k));
    WindowsValue(t, size, Pow(2, k));
    AgreesItself(c, md);
    RecombinedCong(c, Windows(s, size, Pow(2, k)), Windows(t, size, Pow(2, k)), k, n, m);
    SameClass(Eval(a, Pow(2, m)), Eval(c, Pow(2, m)), Val(s) * Val(t), md);
  }

  lemma AgreesItself(c: seq<int>, m: int)
    ensures Agree(c, c, m)
  {
    forall i | 0 <= i < |c|
      ensures Cong(c[i], c[i], m)
    {
      CongRefl(c[i], m);
    }
  }

  lemma WrittenExact(a: seq<int>, s: seq<Limb>, t: seq<Limb>, size: nat, k: nat, n: nat, m: nat)
    requires Sized(n, m, k) && k <= n && size >= 1 && m == 64 * size && AllIn(a, n)
    requires |s| <= Pow(2, k) * size && |t| <= Pow(2, k) * size && NoWrap(|s|, |t|, size, k, n, m)
    requires RightIfSurviving(a, WindowProduct(s, t, size, k), k, n, m)
    ensures Eval(a, Pow(2, m)) == Val(s) * Val(t) <==> ProductSurvives(s, t, size, k, n, m)
  {
    WrittenCong(a, s, t, size, k, n, m);
    CongRefl(Val(s) * Val(t), Modulus(n));
    if ProductSurvives(s, t, size, k, n, m) {
      AllRight(a, WindowProduct(s, t, size, k), k, n, m);
      ExactProduct(a, s, t, size, k, n, m);
    }
  }

  lemma AllRight(a: seq<int>, c: seq<int>, k: nat, n: nat, m: nat)
    requires k <= n && RightIfSurviving(a, c, k, n, m) && AllSurvive(c, k, n, m)
    ensures Agree(a, c, Modulus(n))
  {
  }

  lemma ExactProduct(a: seq<int>, s: seq<Limb>, t: seq<Limb>, size: nat, k: nat, n: nat, m: nat)
    requires Sized(n, m, k) && size >= 1 && m == 64 * size && AllIn(a, n)
    requires |s| <= Pow(2, k) * size && |t| <= Pow(2, k) * size && NoWrap(|s|, |t|, size, k, n, m)
    requires Agree(a, WindowProduct(s, t, size, k), Modulus(n))
    ensures Eval(a, Pow(2, m)) == Val(s) * Val(t)
  {
    PowPos(2, k);
    WindowsFit(s, size, k, n, m);
    WindowsValue(s, size, Pow(2, k));
    WindowsValue(t, size, Pow(2, k));
    WindowsWithin(s, size, Pow(2, k));
    WindowsWithin(t, size, Pow(2, k));
    RecombinedExact(a, Windows(s, size, Pow(2, k)), Windows(t, size, Pow(2, k)), Used(|s|, size), Used(|t|, size),
                    k, n, m);
  }

  lemma ShortProductSurvives(s: seq<Limb>, t: seq<Limb>, size: nat, k: nat, n: nat, m: nat)
    requires Sized(n, m, k) && size >= 1 && m == 64 * size && NoWrap(|s|, |t|, size, k, n, m)
    ensures m * (Used(|s|, size) + Used(|t|, size)) + 2 * k <= n ==> ProductSurvives(s, t, size, k, n, m)
  {
    PowPos(2, k);
    WindowsFit(s, size, k, n, m);
    WindowsWithin(s, size, Pow(2, k));
    WindowsWithin(t, size, Pow(2, k));
    RoundsFit(n, m, k);
    if m * (Used(|s|, size) + Used(|t|, size)) + 2 * k <= n {
      ShortOperandsSurvive(Windows(s, size, Pow(2, k)), Windows(t, size, Pow(2, k)), Used(|s|, size), Used(|t|, size),
                           k, n, m);
    }
  }

  /** Coefficients that reach no further than a window and 2k bits below the top survive. */
  lemma ShortOperandsSurvive(wa: seq<int>, wb: seq<int>, ua: nat, ub: nat, k: nat, n: nat, m: nat)
    requires Sized(n, m, k) && k <= n && |wa| == |wb| == Pow(2, k) >= 1 && ua + ub <= Pow(2, k) + 1
    requires ZeroFrom(wa, ua) && ZeroFrom(wb, ub) && Within(wa, Pow(2, m)) && Within(wb, Pow(2, m))
    requires m * (ua + ub) + 2 * k <= n
    ensures AllSurvive(NegaConv(wa, wb), k, n, m)
  {
    var c := NegaConv(wa, wb);
    PowPos(2, m);
    NegaConvBound(wa, wb, ua, ub, Pow(2, m));
    NegaConvSupport(wa, wb, ua, ub);
    forall i: nat | i < |c|
      ensures Survives(Scaled(c, m)[i], k, n)
    {
      ShortCoefficient(c[i], i, ua, ub, k, n, m);
    }
  }

  lemma ShortCoefficient(c: int, i: nat, ua: nat, ub: nat, k: nat, n: nat, m: nat)
    requires k <= n && 0 <= c <= Pow(2, k) * ((Pow(2, m) - 1) * (Pow(2, m) - 1)) && m * (ua + ub) + 2 * k <= n
    requires Support(ua, ub) <= i ==> c == 0
    ensures Survives(Pow(Pow(2, m), i) * c, k, n)
  {
    var p, w := Pow(2, m), Pow(Pow(2, m), i);
    PowPos(2, n - k);
    if c == 0 {
      Unwrapped(0, Modulus(n));
    } else {
      ExponentFits(i, ua, ub, k, n, m);
      PowMul(2, m, i);
      PowPos(2, m);
      PowPos(2, m * i);
      PowPos(2, k);
      SquareBelow(c, Pow(2, k), p, w);
      PowAdd(2, m, m);
      PowAdd(2, k, m + m);
      PowAdd(2, m * i, k + (m + m));
      PowMono(2, m * i + (k + (m + m)), n - k);
      PowMono(2, n - k, n);
      Unwrapped(w * c, Modulus(n));
    }
  }

  lemma ExponentFits(i: nat, ua: nat, ub: nat, k: nat, n: nat, m: nat)
    requires i < Support(ua, ub) && m * (ua + ub) + 2 * k <= n
    ensures 0 <= m * i && m * i + (k + (m + m)) <= n - k
  {
    MulNat(m, i);
    MulMono(i + 2, ua + ub, m);
    assert (i + 2) * m == m * i + m + m;
    MulComm(ua + ub, m);
  }

  lemma SquareBelow(c: int, d: int, p: int, w: int)
    requires 0 <= c <= d * ((p - 1) * (p - 1)) && d >= 1 && p >= 1 && w >= 1
    ensures 0 <= w * c <= w * (d * (p * p))
  {
    MulMono(p - 1, p, p - 1);
    MulMono(p - 1, p, p);
    MulMono((p - 1) * (p - 1), p * p, d);
    MulNat(w, c);
    MulMono(c, d * (p * p), w);
    MulComm(c, w);
    MulComm(d * (p * p), w);
    MulComm(d, p * p);
    MulComm(d, (p - 1) * (p - 1));
    MulComm(p - 1, p);
  }

  // ------------------------------------------------------------------ a product that comes out wrong

  /** The limbs of 2^(64 l - 1): a top bit over zeros. */
  ghost predicate TopBit(t: seq<Limb>, l: nat) {
    |t| == l >= 1 && t[l - 1] == 0x8000_0000_0000_0000 && forall i :: 0 <= i < l - 1 ==> t[i] == 0
  }

  lemma TopBitValue(t: seq<Limb>, l: nat)
    requires TopBit(t, l)
    ensures Val(t) == Pow(2, 64 * l - 1)
  {
    ValCut(t, l - 1);
    ValNZeros(t[..l - 1], 0, l - 1);
    assert t[l - 1..] == [0x8000_0000_0000_0000];
    SingleLimb(0x8000_0000_0000_0000);
    ShlPow(0x8000_0000_0000_0000, l - 1);
    LimbIsPower(64);
    assert Pow(2, 64) == 2 * Pow(2, 63);
    WindowPower(l - 1, 64 * (l - 1));
    PowAdd(2, 63, 64 * (l - 1));
  }

  /** The top window of a top bit is a top bit. */
  lemma TopWindow(t: seq<Limb>, size: nat, d: nat)
    requires size >= 1 && d >= 1 && TopBit(t, d * size)
    ensures Windows(t, size, d)[d - 1] == Pow(2, 64 * size - 1)
  {
    MulNat(d - 1, size);
    assert d * size == (d - 1) * size + size;
    var p := Piece(t, (d - 1) * size, size);
    assert p == t[(d - 1) * size..(d - 1) * size + size];
    TopBitValue(p, size);
  }

  /** Multiplied by one, the windows stay what they are. */
  lemma OneTimesWindows(wa: seq<int>, wb: seq<int>, i: nat)
    requires |wa| == |wb| >= 1 && wa[0] == 1 && ZeroFrom(wa, 1) && 1 <= i < |wb|
    ensures NegaConv(wa, wb)[i] == wb[i]
  {
    var rest := NegaConv(wa[1..], wb);
    NegaConvSupport(wa[1..], wb, 0, |wb|);
    assert Rotate(rest)[i] == rest[i - 1] == 0;
  }

  /** For every size of at least four windows, one times 2^(n - 1) comes out wrong, although it does
      not wrap around: its only coefficient sits in the top window. */
  lemma OneTimesTopBitFails(s: seq<Limb>, t: seq<Limb>, size: nat, k: nat, n: nat, m: nat)
    requires Sized(n, m, k) && 2 <= k <= 32 && size >= 1 && m == 64 * size && s == [1] && TopBit(t, Pow(2, k) * size)
    ensures Val(s) * Val(t) == Pow(2, n - 1) && NoWrap(|s|, |t|, size, k, n, m)
    ensures !ProductSurvives(s, t, size, k, n, m)
  {
    var d := Pow(2, k);
    OneTimesTopBit(s, t, size, k, n, m);
    OneWindow(s, size, d);
    TopWindow(t, size, d);
    OneTimesWindows(Windows(s, size, d), Windows(t, size, d), d - 1);
    TopCoefficient(m, d, n);
    TooLargeToSurvive(k, n);
    assert !Survives(Scaled(WindowProduct(s, t, size, k), m)[d - 1], k, n);
  }

  lemma OneTimesTopBit(s: seq<Limb>, t: seq<Limb>, size: nat, k: nat, n: nat, m: nat)
    requires Sized(n, m, k) && 2 <= k <= 32 && size >= 1 && m == 64 * size && s == [1] && TopBit(t, Pow(2, k) * size)
    ensures Val(s) * Val(t) == Pow(2, n - 1) && NoWrap(|s|, |t|, size, k, n, m) && Pow(2, k) >= 4 && k <= n
  {
    SingleLimb(1);
    BitsOfWindows(size, Pow(2, k), m, n);
    TopBitValue(t, Pow(2, k) * size);
    FilledWindows(size, Pow(2, k));
    FourWindows(k, Pow(2, k), m, n);
  }

  lemma TooLargeToSurvive(k: nat, n: nat)
    requires 2 <= k <= n
    ensures !Survives(Pow(2, n - 1), k, n)
  {
    PowPos(2, n - 1);
    PowStrictMono(2, n - k, n - 1);
    assert Pow(2, n) == 2 * Pow(2, n - 1);
    Unwrapped(Pow(2, n - 1), Modulus(n));
  }

  lemma BitsOfWindows(size: nat, d: nat, m: nat, n: nat)
    requires m == 64 * size && n == m * d
    ensures 64 * (d * size) == n
  {
    MulAssoc(64, size, d);
    MulComm(size, d);
  }

  lemma FilledWindows(size: nat, d: nat)
    requires size >= 1
    ensures Used(d * size, size) == d && Used(1, size) == 1
  {
    MulNat(d, size);
    DivModUnique(d * size + size - 1, size, d, size - 1);
    DivModUnique(size, size, 1, 0);
  }

  lemma FourWindows(k: nat, d: nat, m: nat, n: nat)
    requires 2 <= k <= 32 && d == Pow(2, k) && m >= 64 && n == m * d
    ensures d >= 4 && k + 2 * m <= n
  {
    PowMono(2, 2, k);
    assert Pow(2, 2) == 4;
    MulMono(4, d, m);
    MulComm(d, m);
  }

  lemma OneWindow(s: seq<Limb>, size: nat, d: nat)
    requires s == [1] && size >= 1 && d >= 1
    ensures Windows(s, size, d)[0] == 1 && ZeroFrom(Windows(s, size, d), 1)
  {
    FilledWindows(size, d);
    WindowsWithin(s, size, d);
    assert Piece(s, 0, size) == [1];
    SingleLimb(1);
  }

  lemma TopCoefficient(m: nat, d: nat, n: nat)
    requires m >= 1 && d >= 1 && n == m * d
    ensures n >= 1 && Pow(Pow(2, m), d - 1) * Pow(2, m - 1) == Pow(2, n - 1)
  {
    MulNat(m, d - 1);
    assert m * d == m * (d - 1) + m;
    PowMul(2, m, d - 1);
    PowAdd(2, m * (d - 1), m - 1);
  }
}
