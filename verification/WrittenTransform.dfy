/** The inverse transform as the source writes it. Where its comment adds 2^n + 1 to an odd
    element, the code adds one and sets a bit one limb above bit n, in a limb the following shift
    does not read, so that only the one is added. Here is exactly when that is right: for one
    step, for k rounds, for the inverse transform, and for every element of a product. */
module WrittenTransform {
  import opened Arith
  import opened Limbs
  import opened FermatRing
  import opened Polynomials
  import opened BitReversal
  import opened Network
  import opened Spectrum
  import opened Fft
  import opened FftMultiply

  // ------------------------------------------------------------------ one element

  /** One round on a number kept in `len` limbs: the carry out of them is lost as well. */
  function WrittenHalve(x: nat, len: nat): (r: nat)
    ensures r <= (x + 1) / 2
  {
    PowPos(B, len);
    if x % 2 == 1 then WrappedUp(x, len) / 2 else x / 2
  }

  /** x + 1, in `len` limbs. */
  function WrappedUp(x: nat, len: nat): (r: nat)
    ensures r <= x + 1
  {
    PowPos(B, len);
    Reduced(x + 1, Pow(B, len));
    (x + 1) % Pow(B, len)
  }

  lemma Reduced(x: nat, p: int)
    requires p > 0
    ensures 0 <= x % p <= x
  {
    QuotientRemainder(x, p, x / p, x % p);
    MulNat(p, x / p);
  }

  /** The written step is right if and only if the element is even. */
  lemma WrittenHalveExact(x: nat, len: nat, n: nat)
    requires n >= 1 && InRing(x, n)
    ensures WrittenHalve(x, len) == Halve(x, n) <==> x % 2 == 0
    ensures x % 2 == 1 ==> WrittenHalve(x, len) + Pow(2, n - 1) <= Halve(x, n)
  {
    assert Pow(2, n) == 2 * Pow(2, n - 1);
    PowPos(2, n - 1);
  }

  /** What it leaves of an odd element: half of the next one or, when that one does not fit the limbs,
      nothing. */
  lemma WrittenHalveOdd(x: nat, len: nat)
    requires x % 2 == 1 && x < Pow(B, len)
    ensures WrittenHalve(x, len) == if x + 1 < Pow(B, len) then (x + 1) / 2 else 0
    ensures x + 1 < Pow(B, len) ==> 2 * WrittenHalve(x, len) == x + 1
    ensures x % 2 == 1 && x + 1 == Pow(B, len) ==> WrittenHalve(x, len) == 0
  {
    if x + 1 < Pow(B, len) {
      DivModUnique(x + 1, Pow(B, len), 0, x + 1);
    } else {
      DivModUnique(x + 1, Pow(B, len), 1, 0);
    }
  }

  /** The rounds: the shift trims what it leaves. */
  function WrittenTimes(x: nat, k: nat, len: nat): nat
    decreases k
  {
    if k == 0 then x
    else WrittenTimes(WrittenHalve(x, len), k - 1, LimbCount(WrittenHalve(x, len)))
  }

  lemma {:induction false} WrittenInRing(x: nat, k: nat, len: nat, n: nat)
    requires n >= 1 && InRing(x, n)
    ensures InRing(WrittenTimes(x, k, len), n)
    decreases k
  {
    if k > 0 {
      PowPos(2, n);
      WrittenInRing(WrittenHalve(x, len), k - 1, LimbCount(WrittenHalve(x, len)), n);
    }
  }

  /** An element that has fallen behind stays behind: the gap can only halve. */
  lemma {:induction false} StaysBehind(w: nat, t: nat, k: nat, len: nat, n: nat)
    requires n >= 1 && InRing(t, n) && w + Pow(2, k) <= t
    ensures WrittenTimes(w, k, len) < HalveTimes(t, k, n)
    decreases k
  {
    if k > 0 {
      assert Pow(2, k) == 2 * Pow(2, k - 1);
      HalveAtLeast(t, n);
      StaysBehind(WrittenHalve(w, len), Halve(t, n), k - 1, LimbCount(WrittenHalve(w, len)), n);
    } else {
      assert Pow(2, 0) == 1;
    }
  }

  lemma HalveAtLeast(t: nat, n: nat)
    requires n >= 1 && InRing(t, n)
    ensures 2 * Halve(t, n) >= t
  {
    assert Pow(2, n) == 2 * Pow(2, n - 1);
    PowPos(2, n - 1);
  }

  predicate Multiple(x: nat, k: nat) {
    PowPos(2, k);
    x % Pow(2, k) == 0
  }

  /** k rounds are right if and only if 2^k divides the element. */
  lemma {:induction false} WrittenTimesExact(x: nat, k: nat, len: nat, n: nat)
    requires n >= 1 && k <= n && InRing(x, n)
    ensures WrittenTimes(x, k, len) == HalveTimes(x, k, n) <==> Multiple(x, k)
    decreases k
  {
    if k == 0 {
      assert x % Pow(2, 0) == 0;
    } else {
      var h := WrittenHalve(x, len);
      WrittenHalveExact(x, len, n);
      PowPos(2, k - 1);
      HalfMultiple(x, Pow(2, k - 1));
      if x % 2 == 0 {
        WrittenTimesExact(h, k - 1, LimbCount(h), n);
      } else {
        PowMono(2, k - 1, n - 1);
        StaysBehind(h, Halve(x, n), k - 1, LimbCount(h), n);
      }
    }
  }

  lemma HalfMultiple(x: nat, p: int)
    requires p > 0
    ensures x % 2 == 0 ==> (x % (2 * p) == 0 <==> (x / 2) % p == 0)
    ensures x % (2 * p) == 0 ==> x % 2 == 0
  {
    if x % 2 == 0 {
      var y := x / 2;
      QuotientRemainder(y, p, y / p, y % p);
      assert x == (2 * p) * (y / p) + 2 * (y % p) by {
        MulAssoc(2, p, y / p);
      }
      MulComm(2 * p, y / p);
      DivModUnique(x, 2 * p, y / p, 2 * (y % p));
    }
    if x % (2 * p) == 0 {
      QuotientRemainder(x, 2 * p, x / (2 * p), 0);
      MulAssoc(2, p, x / (2 * p));
    }
  }

  lemma {:induction false} WrittenZero(k: nat, len: nat)
    ensures WrittenTimes(0, k, len) == 0
    decreases k
  {
    if k > 0 {
      assert WrittenHalve(0, len) == 0;
      WrittenZero(k - 1, LimbCount(0));
    }
  }

  /** The loop over the rounds; zero is left alone. */
  method DivideWritten(v: nat, k: nat, len: nat) returns (r: nat)
    ensures r == WrittenTimes(v, k, len)
  {
    r := v;
    var kept := len;
    for round := 0 to k
      invariant WrittenTimes(r, k - round, kept) == WrittenTimes(v, k, len)
    {
      if r == 0 {
        WrittenZero(k - round, kept);
        return;
      }
      r := WrittenHalve(r, kept);
      kept := LimbCount(r);
    }
  }

  // ------------------------------------------------------------------ how far an element falls behind

  /** A gap that is a multiple of a power of two stays one, of half that power. */
  lemma HalfGap(t: nat, w: nat, len: nat, n: nat, e: nat, g: nat) returns (h: nat)
    requires 1 <= e <= n && e <= 64 && InRing(t, n) && w < Pow(B, len) && GapIs(t, w, g, e)
    ensures GapIs(Halve(t, n), WrittenHalve(w, len), h, e - 1)
  {
    var p := Pow(2, e - 1);
    DoubledTerm(g, p);
    if t % 2 == 0 {
      h := g;
    } else {
      var b := Pow(2, n - e);
      PowPos(2, n - e);
      PowAdd(2, n - e, e);
      DoubledTerm(b, p);
      HalvesApart(t, w, p, g, b, Pow(2, n));
      h := g + b;
      if w + 1 < Pow(B, len) {
        Unwrapped(w + 1, Pow(B, len));
      } else {
        WrappedToZero(Pow(B, len));
        HalfOfLimbs(w, len, e);
        MulSum(h, Pow(2, 64 * len - e), p);
        h := h + Pow(2, 64 * len - e);
      }
    }
  }

  lemma DoubledTerm(g: int, p: int)
    ensures g * (2 * p) == 2 * (g * p)
  {
  }

  lemma HalvesApart(t: nat, w: nat, p: int, g: int, b: int, top: int)
    requires t % 2 == 1 && t == w + 2 * (g * p) && top == 2 * (b * p)
    ensures w % 2 == 1 && (t + (top + 1)) / 2 == (w + 1) / 2 + (g + b) * p
  {
    MulSum(g, b, p);
  }

  lemma Unwrapped(x: nat, p: int)
    requires x < p
    ensures x % p == x
  {
    DivModUnique(x, p, 0, x);
  }

  lemma WrappedToZero(p: int)
    requires p > 0
    ensures p % p == 0
  {
    DivModUnique(p, p, 1, 0);
  }

  lemma MulSum(x: int, y: int, p: int)
    ensures (x + y) * p == x * p + y * p
  {
  }

  lemma HalfOfLimbs(w: nat, len: nat, e: nat)
    requires w % 2 == 1 && w + 1 == Pow(B, len) && 1 <= e <= 64
    ensures len >= 1 && (w + 1) / 2 == Pow(2, 64 * len - e) * Pow(2, e - 1) && Pow(2, 64 * len - e) >= 1
  {
    assert len == 0 ==> Pow(B, len) == 1;
    WindowPower(len, 64 * len);
    PowAdd(2, 64 * len - e, e - 1);
    PowPos(2, 64 * len - e);
  }

  ghost predicate GapIs(t: int, w: int, g: nat, e: nat) {
    t == w + g * Pow(2, e)
  }

  /** The true quotient less the written one is a multiple of 2^(e - k) if the elements start a
      multiple of 2^e apart. */
  lemma {:induction false} GapTimes(t: nat, w: nat, k: nat, len: nat, n: nat, e: nat, g: nat) returns (h: nat)
    requires n >= 1 && k <= e <= n && e <= 64 && InRing(t, n) && w < Pow(B, len) && GapIs(t, w, g, e)
    ensures GapIs(HalveTimes(t, k, n), WrittenTimes(w, k, len), h, e - k)
    decreases k
  {
    h := g;
    if k > 0 {
      h := HalfGap(t, w, len, n, e, g);
      LimbCountFits(WrittenHalve(w, len));
      h := GapTimes(Halve(t, n), WrittenHalve(w, len), k - 1, LimbCount(WrittenHalve(w, len)), n, e - 1, h);
    }
  }

  // ------------------------------------------------------------------ the inverse transform

  /** The lengths the elements are kept in have room for them. */
  ghost predicate Kept(z: seq<int>, lens: seq<nat>) {
    |lens| == |z| && forall i :: 0 <= i < |z| ==> 0 <= z[i] < Pow(B, lens[i])
  }

  /** The inverse transform with the written division, elements kept in `lens` limbs. */
  ghost function WrittenInverse(y: seq<int>, k: nat, n: nat, lens: seq<nat>): (r: seq<int>)
    requires n >= 1 && |y| == Pow(2, k) && AllIn(y, n) && |lens| == |y|
    ensures |r| == |y|
  {
    var z := Transform(y, k, n, true);
    seq(|z|, i requires 0 <= i < |z| => WrittenTimes(z[i], k, lens[i]))
  }

  lemma RoundsFit(n: nat, m: nat, k: nat)
    requires Sized(n, m, k)
    ensures k <= n
  {
    PowAbove(k);
    PowPos(2, k);
    MulMono(1, m, Pow(2, k));
  }

  lemma {:induction false} PowAbove(k: nat)
    ensures k < Pow(2, k)
  {
    if k > 0 {
      PowAbove(k - 1);
    }
  }

  /** 2^k times x, reduced, is a multiple of 2^k if and only if it needed no reduction. */
  lemma MultipleKept(z: nat, x: nat, k: nat, n: nat)
    requires n >= 1 && k <= n && InRing(z, n) && InRing(x, n) && Cong(z, Pow(2, k) * x, Modulus(n))
    ensures Multiple(z, k) <==> x <= Pow(2, n - k)
  {
    var p, q := Pow(2, k), Pow(2, n - k);
    PowPos(2, k);
    PowAdd(2, k, n - k);
    if x <= q {
      NoReduction(z, x, p, q, Modulus(n));
    }
    if Multiple(z, k) {
      var y := z / p;
      QuotientRemainder(z, p, y, 0);
      Reduced(z, p);
      MulCancel(-1, y, p) by {
        MulComm(p, y);
      }
      QuotientInRing(z, y, p, n);
      CancelPower(y, x, k, n);
      CongCanonical(y, x, Modulus(n));
      QuotientBelow(z, y, p, q);
    }
  }

  lemma NoReduction(z: nat, x: nat, p: int, q: int, md: int)
    requires p >= 1 && md == p * q + 1 && z < md && Cong(z, p * x, md) && x <= q
    ensures z % p == 0
  {
    MulMono(x, q, p);
    MulComm(x, p);
    MulComm(q, p);
    MulNat(p, x);
    CongCanonical(z, p * x, md);
    DivModUnique(z, p, x, 0);
  }

  lemma QuotientInRing(z: nat, y: nat, p: int, n: nat)
    requires p >= 1 && InRing(z, n) && z == p * y
    ensures InRing(y, n)
  {
    MulMono(1, p, y);
  }

  lemma QuotientBelow(z: nat, y: nat, p: int, q: int)
    requires p >= 1 && z == p * y && z <= p * q
    ensures y <= q
  {
    assert (q + 1) * p == p * q + p;
    MulComm(p, y);
    MulCancel(y, q + 1, p);
  }

  /** The value comes through the written division: reduced, it is at most 2^(n - k). */
  predicate Survives(v: int, k: nat, n: nat)
    requires k <= n
  {
    v % Modulus(n) <= Pow(2, n - k)
  }

  /** The written division of an element that stands for 2^k v stands for v if and only if v, reduced,
      is at most 2^(n - k). It is never too large. */
  lemma WrittenElement(z: nat, v: int, k: nat, len: nat, n: nat)
    requires n >= 1 && k <= n && InRing(z, n) && Cong(z, Pow(2, k) * v, Modulus(n))
    ensures InRing(WrittenTimes(z, k, len), n) && HalveTimes(z, k, n) == v % Modulus(n)
    ensures WrittenTimes(z, k, len) == v % Modulus(n) <==> Survives(v, k, n)
    ensures Cong(WrittenTimes(z, k, len), v, Modulus(n)) <==> Survives(v, k, n)
  {
    var x, w, md := v % Modulus(n), WrittenTimes(z, k, len), Modulus(n);
    CongMod(v, md);
    CongScale(Pow(2, k), v, x, md);
    CongTrans(z, Pow(2, k) * v, Pow(2, k) * x, md);
    WrittenInRing(z, k, len, n);
    WrittenTimesExact(z, k, len, n);
    MultipleKept(z, x, k, n);
    CongRefl(Pow(2, k) * x, md);
    HalvedBack(z, Pow(2, k) * x, x, k, n);
    CongCanonical(HalveTimes(z, k, n), x, md);
    if Cong(w, v, md) {
      CongTrans(w, v, x, md);
      CongCanonical(w, x, md);
    }
  }

  /** The written inverse undoes the forward transform if and only if no element exceeds
      2^(n - k), in whatever lengths the elements are kept. */
  lemma WrittenRoundTrip(x: seq<int>, k: nat, n: nat, m: nat, lens: seq<nat>)
    requires Sized(n, m, k) && |x| == Pow(2, k) == |lens| && AllIn(x, n)
    ensures k <= n
    ensures WrittenInverse(Transform(x, k, n, false), k, n, lens) == x
       <==> forall i :: 0 <= i < |x| ==> x[i] <= Pow(2, n - k)
  {
    RoundsFit(n, m, k);
    var y := Transform(x, k, n, false);
    var z, r := Transform(y, k, n, true), WrittenInverse(y, k, n, lens);
    NetTransforms(x, k, n, m, k, false);
    forall i: nat | i < |x|
      ensures r[i] == x[i] <==> x[i] <= Pow(2, n - k)
    {
      ScaledElement(x, y, k, n, m, i);
      WrittenElement(z[i], x[i], k, lens[i], n);
      Unwrapped(x[i], Modulus(n));
    }
  }

  /** After the inverse butterflies an element stands for 2^k times the original one. */
  lemma ScaledElement(x: seq<int>, y: seq<int>, k: nat, n: nat, m: nat, i: nat)
    requires Sized(n, m, k) && |x| == Pow(2, k) && i < |x| && AllIn(y, n)
    requires Transforms(y, x, Root(n, k, false), Modulus(n))
    ensures Cong(Transform(y, k, n, true)[i], Pow(2, k) * x[i], Modulus(n))
  {
    NetTransforms(y, k, n, m, k, true);
    InverseSums(x, y, k, n, m, k, i);
    CongTrans(Transform(y, k, n, true)[i], Eval(y, Pow(Root(n, k, true), i)), Pow(2, k) * x[i], Modulus(n));
  }

  /** A vector it does not undo, for every size: one element is 2^n. */
  lemma WrittenInverseFails(x: seq<int>, k: nat, n: nat, m: nat, lens: seq<nat>)
    requires Sized(n, m, k) && k >= 1 && |x| == Pow(2, k) == |lens| && AllIn(x, n) && x[0] == Pow(2, n)
    ensures WrittenInverse(Transform(x, k, n, false), k, n, lens) != x
  {
    RoundsFit(n, m, k);
    PowStrictMono(2, n - k, n);
    assert x[0] > Pow(2, n - k);
    WrittenRoundTrip(x, k, n, m, lens);
  }

  // ------------------------------------------------------------------ in place

  /** Every element divided, kept in whatever number of limbs holds it. */
  method DivideAllWritten(a: array<int>, k: nat, n: nat) returns (ghost lens: seq<nat>)
    requires AllIn(a[..], n)
    modifies a
    ensures Kept(old(a[..]), lens)
    ensures forall p: nat :: p < a.Length ==> a[p] == WrittenTimes(old(a[..])[p], k, lens[p])
  {
    ghost var y := a[..];
    lens := [];
    for i := 0 to a.Length
      invariant |lens| == i && forall p: nat :: p < i ==> 0 <= y[p] < Pow(B, lens[p])
      invariant forall p: nat :: p < i ==> a[p] == WrittenTimes(y[p], k, lens[p])
      invariant forall p: nat :: i <= p < a.Length ==> a[p] == y[p]
    {
      assert InRing(y[i], n);
      LimbCountFits(a[i]);
      var len: nat :| a[i] < Pow(B, len);
      a[i] := DivideWritten(a[i], k, len);
      lens := lens + [len];
    }
  }

  /** Inverse butterflies, then the written division. */
  method InverseWritten(a: array<int>, k: nat, n: nat) returns (ghost lens: seq<nat>)
    requires n >= 1 && a.Length == Pow(2, k) && AllIn(a[..], n)
    modifies a
    ensures Kept(Transform(old(a[..]), k, n, true), lens)
    ensures a[..] == WrittenInverse(old(a[..]), k, n, lens)
  {
    ghost var y := a[..];
    ShuffleLength(y, k);
    AllInShuffle(y, n);
    BitReverseInPlace(a, k);
    Butterfly(a, k, n, true);
    lens := DivideAllWritten(a, k, n);
  }
}
