/** The forward and inverse transforms, in place. */
module Fft {
  import opened Arith
  import opened FermatRing
  import opened Polynomials
  import opened BitReversal
  import opened Network
  import opened Spectrum

  /** `k` rounds of exact halving. */
  function HalveTimes(x: int, k: nat, n: nat): (r: int)
    requires n >= 1 && InRing(x, n)
    ensures InRing(r, n) && Cong(Pow(2, k) * r, x, Modulus(n))
    decreases k
  {
    if k == 0 then
      CongRefl(x, Modulus(n));
      x
    else
      var r := HalveTimes(Halve(x, n), k - 1, n);
      HalvedOnce(x, Halve(x, n), Pow(2, k - 1), r, Modulus(n));
      r
  }

  lemma HalvedOnce(x: int, h: int, p: int, r: int, m: int)
    requires Cong(2 * h, x, m) && Cong(p * r, h, m)
    ensures Cong((2 * p) * r, x, m)
  {
    MulAssoc(2, p, r);
    CongScale(2, p * r, h, m);
    CongTrans((2 * p) * r, 2 * h, x, m);
  }

  /** Bit reversal and butterflies, as a value. */
  ghost function Transform(x: seq<int>, k: nat, n: nat, inverse: bool): (r: seq<int>)
    requires n >= 1 && |x| == Pow(2, k) && AllIn(x, n)
    ensures |r| == |x| && AllIn(r, n)
  {
    ShuffleLength(x, k);
    AllInShuffle(x, n);
    Net(k, Shuffle(x), n, inverse)
  }

  /** The inverse transform, with its division by the length. */
  ghost function InverseTransform(y: seq<int>, k: nat, n: nat): (r: seq<int>)
    requires n >= 1 && |y| == Pow(2, k) && AllIn(y, n)
    ensures |r| == |y|
  {
    var z := Transform(y, k, n, true);
    seq(|z|, i requires 0 <= i < |z| => HalveTimes(z[i], k, n))
  }

  /** The root of a full-length transform: 2 to the power 2n / d. */
  lemma FullRoot(n: nat, m: nat, k: nat)
    requires Sized(n, m, k)
    ensures RootBits(n, k, false) == 2 * m && Root(n, k, false) == Pow(2, 2 * m)
  {
    StepIs(n, m, k, k);
    assert Pow(2, 0) == 1;
  }

  // ------------------------------------------------------------------ forward

  /** Slot i ends up holding, modulo 2^n + 1, the sum over j of x_j * 2^((2n/d) i j), for every
      input and every d = 2^k dividing n. */
  method Forward(a: array<int>, k: nat, n: nat, ghost m: nat)
    requires Sized(n, m, k) && a.Length == Pow(2, k) && AllIn(a[..], n)
    modifies a
    ensures a[..] == Transform(old(a[..]), k, n, false) && AllIn(a[..], n)
    ensures Transforms(a[..], old(a[..]), Root(n, k, false), Modulus(n))
    ensures forall i: nat :: i < a.Length ==> Cong(a[i], Dft(old(a[..]), Pow(2, 2 * m), i), Modulus(n))
  {
    ghost var x := a[..];
    AllInShuffle(x, n);
    BitReverseInPlace(a, k);
    Butterfly(a, k, n, false);
    NetTransforms(x, k, n, m, k, false);
    TransformSums(a[..], x, k, n, m);
  }

  lemma TransformSums(r: seq<int>, x: seq<int>, k: nat, n: nat, m: nat)
    requires Sized(n, m, k) && Transforms(r, x, Root(n, k, false), Modulus(n))
    ensures forall i: nat :: i < |r| ==> Cong(r[i], Dft(x, Pow(2, 2 * m), i), Modulus(n))
  {
    FullRoot(n, m, k);
    forall i: nat | i < |r|
      ensures Cong(r[i], Dft(x, Pow(2, 2 * m), i), Modulus(n))
    {
      EvalIsDft(x, Pow(2, 2 * m), i);
    }
  }

  // ------------------------------------------------------------------ inverse

  /** Divides one element by 2^k; zero is left alone. */
  method Divide(v: int, k: nat, n: nat) returns (r: int)
    requires n >= 1 && InRing(v, n)
    ensures r == HalveTimes(v, k, n)
  {
    r := v;
    for round := 0 to k
      invariant InRing(r, n) && HalveTimes(r, k - round, n) == HalveTimes(v, k, n)
    {
      if r == 0 {
        HalveZero(k - round, n);
        return;
      }
      r := Halve(r, n);
    }
  }

  lemma {:induction false} HalveZero(k: nat, n: nat)
    requires n >= 1
    ensures InRing(0, n) && HalveTimes(0, k, n) == 0
  {
    PowPos(2, n);
    if k > 0 {
      HalveZero(k - 1, n);
      assert Halve(0, n) == 0;
    }
  }

  method DivideAll(a: array<int>, k: nat, n: nat)
    requires n >= 1 && a.Length == Pow(2, k) && AllIn(a[..], n)
    modifies a
    ensures forall p: nat :: p < a.Length ==> InRing(old(a[p]), n) && a[p] == HalveTimes(old(a[p]), k, n)
  {
    ghost var y := a[..];
    for i := 0 to a.Length
      invariant forall p: nat :: p < i ==> a[p] == HalveTimes(y[p], k, n)
      invariant forall p: nat :: i <= p < a.Length ==> a[p] == y[p]
    {
      a[i] := Divide(a[i], k, n);
    }
    assert forall p: nat :: p < a.Length ==> y[p] == old(a[p]);
  }

  /** Inverse butterflies, then the division by d. */
  method Inverse(a: array<int>, k: nat, n: nat)
    requires n >= 1 && a.Length == Pow(2, k) && AllIn(a[..], n)
    modifies a
    ensures a[..] == InverseTransform(old(a[..]), k, n)
  {
    ghost var y := a[..];
    ShuffleLength(y, k);
    AllInShuffle(y, n);
    BitReverseInPlace(a, k);
    Butterfly(a, k, n, true);
    ghost var z := a[..];
    DivideAll(a, k, n);
    assert forall p: nat :: p < a.Length ==> a[p] == HalveTimes(z[p], k, n);
  }

  /** If `y` is the transform of some `x`, the inverse transform of `y` is `x`, modulo 2^n + 1. */
  lemma InverseOfTransform(x: seq<int>, y: seq<int>, k: nat, n: nat, m: nat)
    requires Sized(n, m, k) && |x| == Pow(2, k) && AllIn(y, n) && Transforms(y, x, Root(n, k, false), Modulus(n))
    ensures AllIn(InverseTransform(y, k, n), n) && Agree(InverseTransform(y, k, n), x, Modulus(n))
  {
    NetTransforms(y, k, n, m, k, true);
    var z, r := Transform(y, k, n, true), InverseTransform(y, k, n);
    forall i: nat | i < |r|
      ensures InRing(r[i], n) && Cong(r[i], x[i], Modulus(n))
    {
      InverseSums(x, y, k, n, m, k, i);
      HalvedBack(z[i], Eval(y, Pow(Root(n, k, true), i)), x[i], k, n);
    }
  }

  lemma HalvedBack(z: int, e: int, x: int, k: nat, n: nat)
    requires n >= 1 && InRing(z, n) && Cong(z, e, Modulus(n)) && Cong(e, Pow(2, k) * x, Modulus(n))
    ensures Cong(HalveTimes(z, k, n), x, Modulus(n))
  {
    var md, h := Modulus(n), HalveTimes(z, k, n);
    CongTrans(Pow(2, k) * h, z, e, md);
    CongTrans(Pow(2, k) * h, e, Pow(2, k) * x, md);
    CancelPower(h, x, k, n);
  }

  // ------------------------------------------------------------------ round trip

  lemma SameElements(u: seq<int>, c: seq<int>, n: nat)
    requires AllIn(u, n) && AllIn(c, n) && Agree(u, c, Modulus(n))
    ensures u == c
  {
    forall i | 0 <= i < |u|
      ensures u[i] == c[i]
    {
      CongCanonical(u[i], c[i], Modulus(n));
    }
  }

  /** Transforming forward and back is the identity on every vector of ring elements. */
  lemma RoundTrip(x: seq<int>, k: nat, n: nat, m: nat)
    requires Sized(n, m, k) && |x| == Pow(2, k) && AllIn(x, n)
    ensures InverseTransform(Transform(x, k, n, false), k, n) == x
  {
    var y := Transform(x, k, n, false);
    NetTransforms(x, k, n, m, k, false);
    InverseOfTransform(x, y, k, n, m);
    SameElements(InverseTransform(y, k, n), x, n);
  }
}
