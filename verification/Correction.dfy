/** The end of the Burnikel-Ziegler three-by-two step on limb buffers: the partial remainder is
    moved up and fused with the lowest part of the dividend, the product of the estimate and the
    lower divisor half is subtracted, and the correction loop runs while the result is negative. */
module Correction {
  import opened Arith
  import opened Limbs
  import opened BigInts
  import opened SignMagnitude
  import opened Products
  import opened Division

  // ------------------------------------------------------------------ fusing

  /** The limbs from `i` on are moved up by `k`, the ones below are still in place. */
  ghost predicate Moving(p: seq<Limb>, s: seq<Limb>, i: nat, k: nat) {
    && i <= |s| && |s| + k <= |p|
    && (forall j :: 0 <= j < i ==> p[j] == s[j])
    && (forall j :: i + k <= j < |s| + k ==> p[j] == s[j - k])
  }

  lemma MovingStep(p: seq<Limb>, s: seq<Limb>, i: nat, k: nat)
    requires Moving(p, s, i + 1, k)
    ensures p[i] == s[i] && Moving(p[i + k := s[i]], s, i, k)
  {
  }

  lemma Moved(p: seq<Limb>, q: seq<Limb>, s: seq<Limb>, k: nat)
    requires Moving(p, s, 0, k) && |q| == |p| && forall j :: k <= j < |p| ==> q[j] == p[j]
    ensures q[k..k + |s|] == s
  {
    forall j | 0 <= j < |s|
      ensures q[k..k + |s|][j] == s[j]
    {
      assert q[k + j] == p[k + j];
    }
  }

  /** Moves the limbs up by `k`, from the top down, over zeros. */
  method MoveUp(c: BigInt, k: nat, ghost s: seq<Limb>)
    requires c.Valid() && c.Limbs() == s && c.n + k <= c.cap
    modifies c.buf
    ensures c.Phys()[k..k + c.n] == s
    ensures c.n > 0 ==> forall j :: 0 <= j < k ==> c.Phys()[j] == 0
  {
    if c.n == 0 || k == 0 {
      return;
    }
    var i: nat := c.n;
    while i > 0
      modifies c.buf
      invariant Moving(c.Phys(), s, i, k)
    {
      i := i - 1;
      MovingStep(c.Phys(), s, i, k);
      c.Put(i + k, c.buf[c.off + i]);
    }
    ghost var p := c.Phys();
    c.ZeroFill(0, k);
    Moved(p, c.Phys(), s, k);
  }

  method FillLow(c: BigInt, o: BigInt)
    requires c.Valid() && o.Valid() && c.buf != o.buf && o.n <= c.cap
    modifies c.buf
    ensures c.Phys()[..o.n] == o.Limbs() && c.Phys()[o.n..] == old(c.Phys()[o.n..])
  {
    ghost var s, high := o.Limbs(), c.Phys()[o.n..];
    for i := 0 to o.n
      modifies c.buf
      invariant o.Limbs() == s && c.Phys()[o.n..] == high
      invariant forall j :: 0 <= j < i ==> c.Phys()[j] == s[j]
    {
      var x := o.Get(i, s);
      ghost var p := c.Phys();
      c.Put(i, x);
      assert c.Phys()[o.n..] == p[o.n..];
    }
    assert c.Phys()[..o.n] == s;
  }

  lemma SameWindow(p: seq<Limb>, q: seq<Limb>, k: nat, l: nat)
    requires k + l <= |p| == |q| && p[k..] == q[k..]
    ensures p[k..k + l] == q[k..k + l]
  {
    assert p[k..][..l] == p[k..k + l] && q[k..][..l] == q[k..k + l];
  }

  /** The limbs of a fused number. */
  lemma Stacked(p: seq<Limb>, low: seq<Limb>, high: seq<Limb>)
    requires |p| >= |low| + |high| && p[..|low|] == low && p[|low|..|low| + |high|] == high
    ensures Val(p[..|low| + |high|]) == Val(high) * Pow(B, |low|) + Val(low)
  {
    var t := p[..|low| + |high|];
    ValCut(t, |low|);
    assert t[..|low|] == low && t[|low|..] == high;
    ShlPow(Val(high), |low|);
  }

  /** c becomes [c, a3]: moved up by the limbs of a3, with a3 below it. */
  method Fuse(c: BigInt, a3: BigInt)
    requires c.Valid() && a3.Valid() && c.buf != a3.buf && c.n + a3.n <= c.cap && c.sign == 1
    modifies c`n, c`sign, c.buf
    ensures Holds(c, old(c.Mag()) * Pow(B, a3.n) + a3.Mag())
  {
    ghost var s := c.Limbs();
    MoveUp(c, a3.n, s);
    ghost var p := c.Phys();
    FillLow(c, a3);
    SameWindow(c.Phys(), p, a3.n, |s|);
    Stacked(c.Phys(), a3.Limbs(), s);
    c.SetLen(c.n + a3.n);
    c.TrimLz();
  }

  // ------------------------------------------------------------------ correcting

  /** Room for every value the correction goes through. */
  ghost predicate Roomy(c: BigInt, w: int)
    reads c
  {
    c.Valid() && 0 <= w && 2 * w < Pow(B, c.cap)
  }

  /** One correction: the estimate loses one, the remainder gains the divisor. */
  method CorrectOnce(iq: BigInt, c: BigInt, b: BigInt, one: BigInt, ghost q: nat, ghost rest: int, ghost div: nat,
                     ghost w: int)
    requires Holds(iq, q) && 1 <= q && Is(c, rest) && Holds(b, div) && Holds(one, 1) && Roomy(c, w)
    requires -w <= rest <= w && div <= w && c.buf != b.buf && iq.buf != one.buf
    requires iq.buf != c.buf && iq.buf != b.buf && c.buf != one.buf
    modifies iq, iq.buf, c, c.buf
    ensures Holds(iq, q - 1) && Is(c, rest + div) && (c.sign < 0 <==> rest + div < 0)
  {
    OneLimbLong(one, iq, q);
    iq.SubWb(iq, one);
    Add(c, c, b, rest, div, w);
  }

  lemma OneLimbLong(one: BigInt, x: BigInt, v: nat)
    requires Holds(one, 1) && Holds(x, v) && v >= 1
    ensures 1 == one.n <= x.n
  {
    assert Pow(B, 1) == B;
    TrimFits(one.Limbs(), 1);
    ValBound(x.Limbs());
    ValBound(one.Limbs());
  }

  /** Subtracts the product and corrects while the remainder is negative. */
  method Correct(iq: BigInt, c: BigInt, d: BigInt, b: BigInt, one: BigInt,
                 ghost est: nat, ghost cv: nat, ghost dv: nat, ghost div: nat, ghost w: int) returns (steps: nat)
    requires Holds(iq, est) && Holds(c, cv) && Holds(d, dv) && Holds(b, div) && Holds(one, 1) && Roomy(c, w)
    requires cv <= w && dv <= w && 1 <= div && (cv < dv ==> div <= w) && est * div + cv - dv >= 0
    requires c.buf != b.buf && c.buf != d.buf && iq.buf != one.buf && iq.buf != c.buf && iq.buf != b.buf
    requires c.buf != one.buf
    modifies iq, iq.buf, c, c.buf
    ensures steps <= est && Holds(iq, est - steps) && Holds(c, cv - dv + steps * div)
    ensures steps > 0 ==> cv - dv + steps * div < div
  {
    Sub(c, c, d, cv, dv, w);
    steps := 0;
    ghost var rest := cv - dv;
    assert 0 * div == 0;
    while c.sign < 0
      modifies iq, iq.buf, c, c.buf
      invariant steps <= est && Holds(iq, est - steps) && Is(c, rest) && (c.sign < 0 <==> rest < 0)
      invariant rest == cv - dv + steps * div && -w <= rest <= w && (steps > 0 ==> rest < div)
      decreases w - rest
    {
      Remaining(est, steps, div, rest, cv - dv);
      CorrectOnce(iq, c, b, one, est - steps, rest, div, w);
      steps, rest := steps + 1, rest + div;
    }
  }

  /** While the remainder is negative the estimate has not reached zero. */
  lemma Remaining(est: nat, steps: nat, div: nat, rest: int, first: int)
    requires est * div + first >= 0 && rest == first + steps * div && rest < 0 && steps <= est
    ensures est - steps >= 1 && (steps + 1) * div == steps * div + div
  {
  }

  /** Fuses, subtracts and corrects. */
  method FuseAndCorrect(iq: BigInt, c: BigInt, a3: BigInt, d: BigInt, b: BigInt, one: BigInt,
                        ghost est: nat, ghost cv: nat, ghost dv: nat, ghost div: nat, ghost w: int) returns (steps: nat)
    requires Holds(iq, est) && Holds(d, dv) && Holds(b, div) && Holds(one, 1) && Roomy(c, w) && a3.Valid()
    requires c.sign == 1 && c.n + a3.n <= c.cap && cv == c.Mag() * Pow(B, a3.n) + a3.Mag()
    requires cv <= w && dv <= w && 1 <= div && (cv < dv ==> div <= w) && est * div + cv - dv >= 0
    requires c.buf != b.buf && c.buf != d.buf && c.buf != a3.buf && c.buf != one.buf
    requires iq.buf != one.buf && iq.buf != c.buf && iq.buf != b.buf
    modifies iq, iq.buf, c, c.buf
    ensures steps <= est && Holds(iq, est - steps) && Holds(c, cv - dv + steps * div)
    ensures steps > 0 ==> cv - dv + steps * div < div
  {
    Fuse(c, a3);
    steps := Correct(iq, c, d, b, one, est, cv, dv, div, w);
  }

  /** The numbers of the step: [a1, a2] = a, the third part, the divisor [hi, lo] in parts of width
      p, the estimate est = a / hi, its remainder v, and the fused value less the product. */
  ghost predicate StepNumbers(a: nat, third: nat, hi: nat, lo: nat, p: int, est: nat, v: nat, cv: int, dv: int,
                              div: nat) {
    && third < p && lo < p <= 2 * hi && a < p * p && a == est * hi + v && v < hi
    && cv == v * p + third && dv == est * lo && div == hi * p + lo
  }

  lemma StepBegins(a: nat, third: nat, hi: nat, lo: nat, p: int, est: nat, v: nat, cv: nat, dv: nat, div: nat)
    requires StepNumbers(a, third, hi, lo, p, est, v, cv, dv, div)
    ensures est * div + cv - dv >= 0 && cv - dv < div && div >= 1
  {
    FirstRemainder(a, third, hi, lo, div, p, est, v);
  }

  /** What the corrections leave is the quotient and the remainder, after at most two of them when
      [a1, a2] does not exceed the divisor, and never more than four. */
  lemma StepEnds(a: nat, third: nat, hi: nat, lo: nat, p: int, est: nat, v: nat, cv: nat, dv: nat, div: nat, steps: nat)
    requires StepNumbers(a, third, hi, lo, p, est, v, cv, dv, div) && steps <= est
    requires 0 <= cv - dv + steps * div && (steps > 0 ==> cv - dv + steps * div < div)
    ensures a * p + third == (est - steps) * div + (cv - dv + steps * div) && cv - dv + steps * div < div
    ensures steps <= 4 && (a <= div ==> steps <= 2)
  {
    FirstRemainder(a, third, hi, lo, div, p, est, v);
    Remainders(est, steps, div);
    DivModUnique(a, hi, est, v);
    EstimateBounds(a, third, hi, lo, div, p, est, est - steps, cv - dv + steps * div);
  }

  lemma Remainders(est: nat, steps: nat, b: nat)
    requires steps <= est
    ensures (est - steps) * b == est * b - steps * b
    ensures steps == 0 ==> steps * b == 0
  {
  }

  /** From the estimate and its remainder to the quotient (in iq) and the remainder (in c) of
      [a1, a2, a3] by [b1, b2]. The third part is full, or there is nothing above it. */
  method Finish(iq: BigInt, c: BigInt, a3: BigInt, d: BigInt, b: BigInt, one: BigInt, ghost k: nat, ghost a: nat,
                ghost hi: nat, ghost lo: nat, ghost est: nat, ghost v: nat, ghost cv: nat, ghost dv: nat,
                ghost div: nat, ghost w: int)
    returns (steps: nat)
    requires Holds(iq, est) && Holds(c, v) && Holds(d, dv) && Holds(b, div) && Holds(one, 1) && a3.Valid()
    requires StepNumbers(a, a3.Mag(), hi, lo, Pow(B, k), est, v, cv, dv, div) && a3.n <= k && (v == 0 || a3.n == k)
    requires Roomy(c, w) && cv <= w && dv <= w && (cv < dv ==> div <= w) && c.n + a3.n <= c.cap
    requires c.buf != b.buf && c.buf != d.buf && c.buf != a3.buf && c.buf != one.buf
    requires iq.buf != one.buf && iq.buf != c.buf && iq.buf != b.buf && iq.buf != a3.buf
    modifies iq, iq.buf, c, c.buf
    ensures steps <= est && Holds(iq, est - steps) && Holds(c, cv - dv + steps * div) && cv - dv + steps * div < div
    ensures a * Pow(B, k) + old(a3.Mag()) == (est - steps) * div + (cv - dv + steps * div)
    ensures steps <= 4 && (a <= div ==> steps <= 2)
  {
    ghost var third := a3.Mag();
    UpperDigitPlace(v, a3.Limbs(), k);
    StepBegins(a, third, hi, lo, Pow(B, k), est, v, cv, dv, div);
    steps := FuseAndCorrect(iq, c, a3, d, b, one, est, cv, dv, div, w);
    StepEnds(a, third, hi, lo, Pow(B, k), est, v, cv, dv, div, steps);
  }
}
