/** The Burnikel-Ziegler recursion on limb buffers: views of the operands, temporaries from the
    arena, and the quotient digits placed in one buffer. */
module Burnikel {
  import opened Arith
  import opened Bitwise
  import opened Limbs
  import opened BigInts
  import opened LimbDivision
  import opened Workspace
  import opened Products
  import opened Division
  import opened Correction
  import Karatsuba
  import Schoolbook
  import Toom3

  // ------------------------------------------------------------------ operands

  /** A dividend in two halves of up to `n` limbs; the low half is full unless the high one is empty. */
  ghost predicate Dividend(ah: BigInt, al: BigInt, n: nat, a: int)
    reads ah, ah.buf, al, al.buf
  {
    && ah.Valid() && al.Valid() && ah.sign == al.sign == 1 && ah.n <= n && al.n <= n && (ah.n == 0 || al.n == n)
    && a == ah.Mag() * Pow(B, n) + al.Mag()
  }

  /** A divisor of exactly `n` limbs whose top bit is set. */
  ghost predicate Normal(b: BigInt, n: nat, div: nat)
    reads b, b.buf
  {
    b.Valid() && b.sign == 1 && b.n == n && b.Mag() == div && Pow(B, n) <= 2 * div
  }

  lemma NormalHolds(b: BigInt, n: nat, div: nat)
    requires Normal(b, n, div) && n >= 1
    ensures Holds(b, div) && 1 <= div < Pow(B, n)
  {
    PowPos(B, n - 1);
    ValBound(b.Limbs());
    BigIsTrim(b.Limbs());
  }

  /** A number of up to 2k limbs, cut at k. */
  lemma TwoPieces(s: seq<Limb>, k: nat)
    requires |s| <= 2 * k
    ensures Val(s) == Val(Piece(s, k, k)) * Pow(B, k) + Val(Piece(s, 0, k))
    ensures 0 <= Val(Piece(s, k, k)) < Pow(B, k) && 0 <= Val(Piece(s, 0, k)) < Pow(B, k)
  {
    PieceBound(s, 0, k);
    PieceBound(s, k, k);
    if |s| <= k {
      assert Piece(s, 0, k) == s && Piece(s, k, k) == [];
    } else {
      assert Piece(s, 0, k) == s[..k] && Piece(s, k, k) == s[k..];
      ValCut(s, k);
      ShlPow(Val(s[k..]), k);
    }
  }

  /** The two views of a number of up to 2k limbs. */
  method Cut(x: BigInt, k: nat) returns (high: BigInt, low: BigInt)
    requires x.Valid() && x.n <= 2 * k
    ensures fresh(high) && fresh(low) && high.buf == low.buf == x.buf
    ensures Dividend(high, low, k, x.Mag())
    ensures high.n == PartSize(x.n, k, k) && low.n == PartSize(x.n, 0, k)
    ensures high.Mag() < Pow(B, k) && low.Mag() < Pow(B, k)
  {
    TwoPieces(x.Limbs(), k);
    low := new BigInt.View(x, 0, PartSize(x.n, 0, k));
    high := new BigInt.View(x, k, PartSize(x.n, k, k));
    assert low.Limbs() == Piece(x.Limbs(), 0, k);
    assert high.Limbs() == Piece(x.Limbs(), k, k);
  }

  /** The dividend fits the limbs of its halves together, and so does any quotient. */
  lemma DividendFits(ah: BigInt, al: BigInt, n: nat, a: nat, q: nat, div: nat, r: nat)
    requires Dividend(ah, al, n, a) && div >= 1 && a == q * div + r
    ensures q <= a < Pow(B, ah.n + al.n)
  {
    ValBound(ah.Limbs());
    ValBound(al.Limbs());
    MulMono(1, div, q);
    if ah.n > 0 {
      PowAdd(B, ah.n, n);
      MulMono(ah.Mag() + 1, Pow(B, ah.n), Pow(B, n));
      PowPos(B, n);
      assert (ah.Mag() + 1) * Pow(B, n) == ah.Mag() * Pow(B, n) + Pow(B, n);
    } else {
      assert ah.Mag() * Pow(B, n) == 0;
    }
  }

  // ------------------------------------------------------------------ scratch

  /** Enough for the product of an estimate of up to k + 1 limbs and a divisor half, by the routine the
      dispatcher takes. */
  function ProductNeed(k: nat): nat {
    if k <= 96 then KaratsubaWs(k + 1, k) else Max(KaratsubaWs(k + 1, k), ToomWs(k + 1, k))
  }

  /** What a three-by-two step takes: estimate and remainder; then the recursive division, or the
      product and, one after the other, its scratch and copies of remainder and estimate. */
  function StepNeed(k: nat): nat
    decreases k, 1
  {
    4 * k + 2 + Max(DivisionNeed(k), 2 * k + 1 + Max(ProductNeed(k), 4 * k + 2))
  }

  /** What a two-by-one division takes: two quotient digits, a remainder, and one step at a time. */
  function DivisionNeed(n: nat): nat
    decreases n, 0
  {
    if n <= 1 then 2 else 8 * (n / 2) + StepNeed(n / 2)
  }

  /** The amount the source sets aside for a dividend of x and a divisor of y limbs: one and a half
      times the temporaries of one level, and the dividend. */
  function SourceWs(x: nat, y: nat): nat {
    var k := y / 2;
    3 * ((2 * k + 4 * k) + 2 * k + (k + y) + 2 * k + (2 * k + k)) / 2 + x
  }

  /** With the normalised copies of both. */
  function SourceTotal(x: nat, y: nat): nat {
    (x + 1) + y + SourceWs(x + 1, y)
  }

  /** For an even divisor length: twelve limbs for every limb of the divisor, and the dividend. */
  lemma SourceWsAmount(x: nat, y: nat)
    requires y % 2 == 0
    ensures SourceWs(x, y) == 12 * y + x && SourceTotal(x, y) == 2 * (x + 1) + 13 * y
  {
  }

  /** Although it follows neither the recursion nor the products, it covers them for every power of two
      of divisor limbs the dispatcher sends here, and every dividend no shorter than the divisor. */
  lemma SourceWsCovers(x: nat, n: nat)
    requires IsPowerOfTwo(n) && 2 <= n <= 64 && x >= n
    ensures DivisionNeed(n) < SourceWs(x, n)
  {
    SmallPowers(n);
    SmallNeeds();
  }

  lemma SmallPowers(n: nat)
    requires IsPowerOfTwo(n) && 2 <= n <= 64
    ensures n == 2 || n == 4 || n == 8 || n == 16 || n == 32 || n == 64
  {
    if n > 2 {
      SmallPowers(n / 2);
    }
  }

  lemma SmallNeeds()
    ensures DivisionNeed(2) <= 23 && DivisionNeed(4) <= 49 && DivisionNeed(8) <= 99
    ensures DivisionNeed(16) <= 197 && DivisionNeed(32) <= 391 && DivisionNeed(64) <= 777
  {
    ThirtyTwoProduct();
    assert DivisionNeed(1) == 2;
    NeedDoubles(1, 2, 0);
    NeedDoubles(2, 23, 0);
    NeedDoubles(4, 49, 0);
    NeedDoubles(8, 99, 0);
    NeedDoubles(16, 197, 0);
    NeedDoubles(32, 391, 260);
  }

  lemma NeedDoubles(k: nat, d: nat, p: nat)
    requires k >= 1 && DivisionNeed(k) <= d && ProductNeed(k) <= p
    ensures DivisionNeed(2 * k) <= 12 * k + 2 + Max(d, 2 * k + 1 + Max(p, 4 * k + 2))
  {
    assert (2 * k) / 2 == k;
    assert DivisionNeed(2 * k) == 8 * k + StepNeed(k);
  }

  lemma ThirtyTwoProduct()
    ensures ProductNeed(32) <= 260
  {
    KaratsubaWsUnfold(33, 32, 16, 18, 17);
    assert KaratsubaWs(16, 16) == 0 && KaratsubaWs(17, 16) == 0;
    KaratsubaWsUnfold(18, 17, 9, 10, 10);
    assert KaratsubaWs(9, 9) == 0 && KaratsubaWs(9, 8) == 0 && KaratsubaWs(10, 10) == 0;
  }

  // ------------------------------------------------------------------ the base case

  /** Both halves of a dividend in one buffer. */
  method Gather(ah: BigInt, al: BigInt, t: BigInt, n: nat, ghost a: nat)
    requires Dividend(ah, al, n, a) && t.Valid() && t.cap >= ah.n + al.n && t.buf != ah.buf && t.buf != al.buf
    modifies t, t.buf
    ensures Holds(t, a) && t.n <= ah.n + al.n
  {
    t.Copy(ah);
    Fuse(t, al);
    GatheredValue(ah, al, n, a);
    DividendFits(ah, al, n, a, 0, 1, a);
    TrimFits(t.Limbs(), ah.n + al.n);
  }

  lemma GatheredValue(ah: BigInt, al: BigInt, n: nat, a: nat)
    requires Dividend(ah, al, n, a)
    ensures a == ah.Mag() * Pow(B, al.n) + al.Mag()
  {
    if ah.n == 0 {
      assert ah.Mag() == 0;
      NoProduct(Pow(B, al.n));
      NoProduct(Pow(B, n));
    }
  }

  lemma NoProduct(p: int)
    ensures 0 * p == 0
  {
  }

  /** One limb: short division of the gathered dividend. */
  method DivideByLimb(t: BigInt, b: BigInt, quot: BigInt, rem: BigInt, ghost a: nat, ghost div: nat)
    returns (ghost q: nat, ghost r: nat)
    requires Holds(t, a) && Normal(b, 1, div) && t.buf != quot.buf && t.buf != rem.buf
    requires quot.Valid() && rem.Valid() && quot.sign == 1 && t.n <= quot.cap && rem.cap >= 1 && quot.buf != rem.buf
    requires quot.buf != b.buf && rem.buf != b.buf
    modifies quot, quot.buf, rem, rem.buf
    ensures Holds(quot, q) && Holds(rem, r) && a == q * div + r && r < div
  {
    NormalHolds(b, 1, div);
    var limb := b.buf[b.off];
    OneLimbValue(b, limb);
    var last := ShortDivision(t, limb, quot);
    StoreLimb(rem, last);
    q, r := quot.Mag(), last;
  }

  method StoreLimb(rem: BigInt, x: Limb)
    requires rem.Valid() && rem.cap >= 1
    modifies rem, rem.buf
    ensures Holds(rem, x)
  {
    rem.ZeroSet();
    assert rem.Limbs() == [] && Val([]) == 0;
    if x != 0 {
      rem.Push(x);
      assert rem.Limbs() == [x];
      SingleLimb(x);
    }
  }

  /** The base case of the recursion. */
  method OneLimbBase(ah: BigInt, al: BigInt, b: BigInt, quot: BigInt, rem: BigInt, arena: Arena, ghost a: nat,
                     ghost div: nat)
    returns (ok: bool, ghost q: nat, ghost r: nat)
    requires Dividend(ah, al, 1, a) && Normal(b, 1, div)
    requires quot.Valid() && rem.Valid() && quot.sign == 1 && quot.cap >= ah.n + al.n && rem.cap >= 1
    requires quot.buf != rem.buf
    requires quot.buf != b.buf && rem.buf != b.buf
    modifies quot, quot.buf, rem, rem.buf, arena
    ensures arena.offset == old(arena.offset) && quot.Valid() && rem.Valid()
    ensures ok ==> Holds(quot, q) && Holds(rem, r) && a == q * div + r && r < div
    ensures old(arena.offset) + 2 <= arena.cap ==> ok
  {
    var mark := arena.Mark();
    var t;
    ok, t := arena.Temp(ah.n + al.n);
    q, r := 0, 0;
    if ok {
      Gather(ah, al, t, 1, a);
      q, r := DivideByLimb(t, b, quot, rem, a, div);
    }
    arena.Rewind(mark);
  }

  lemma OneLimbValue(b: BigInt, limb: Limb)
    requires b.Valid() && b.n == 1 && limb == b.buf[b.off]
    ensures b.Mag() == limb
  {
    assert b.Limbs() == [limb];
    SingleLimb(limb);
  }

  // ------------------------------------------------------------------ the three-by-two step

  /** The multiplication dispatcher, by the smaller operand. */
  method Product(x: BigInt, y: BigInt, res: BigInt, arena: Arena, ghost u: nat, ghost v: nat,
                 ghost k: nat) returns (ok: bool)
    requires x.Valid() && y.Valid() && x.Mag() == u && y.Mag() == v && res.Valid() && res.sign == 1
    requires res.buf != x.buf && res.buf != y.buf && x.n + y.n <= res.cap
    requires x.n <= k + 1 && y.n <= k
    modifies res, res.buf, arena
    ensures arena.offset == old(arena.offset) && res.Valid()
    ensures ok ==> Holds(res, u * v)
    ensures old(arena.offset) + ProductNeed(k) <= arena.cap ==> ok
  {
    KaratsubaWsMono(x.n, y.n, k + 1, k);
    ToomWsMono(x.n, y.n, k + 1, k);
    if x.n <= SCHOOLBOOK || y.n <= SCHOOLBOOK {
      Schoolbook.Multiply(x, y, res);
      ok := true;
    } else if x.n <= 96 || y.n <= 96 {
      ok := Karatsuba.Multiply(x, y, res, arena);
    } else {
      ghost var plain;
      ok, plain := Toom3.Multiply(x, y, res, arena);
    }
  }

  /** The product of the estimate and the lower divisor half, in a fresh temporary. */
  method LowerProduct(iq: BigInt, b2: BigInt, arena: Arena, ghost est: nat, ghost lo: nat,
                      ghost k: nat) returns (ok: bool, d: BigInt)
    requires Holds(iq, est) && b2.Valid() && b2.Mag() == lo
    requires iq.n <= k + 1 && b2.n <= k
    modifies arena
    ensures fresh(d) && fresh(d.buf) && old(arena.offset) <= arena.offset <= old(arena.offset) + 2 * k + 1
    ensures ok ==> Holds(d, est * lo)
    ensures old(arena.offset) + 2 * k + 1 + ProductNeed(k) <= arena.cap ==> ok
  {
    ok, d := arena.Temp(iq.n + b2.n);
    if ok {
      ok := Product(iq, b2, d, arena, est, lo, k);
    }
  }

  /** The product, and the temporaries for copies of the remainder and the estimate, which only
      printing reads. */
  method ProductAndCopies(iq: BigInt, c: BigInt, b2: BigInt, arena: Arena, ghost est: nat, ghost lo: nat, ghost k: nat)
    returns (ok: bool, d: BigInt)
    requires Holds(iq, est) && b2.Valid() && b2.Mag() == lo
    requires iq.n <= k + 1 && iq.cap <= 2 * k && c.cap <= 2 * k + 2 && b2.n <= k
    modifies arena
    ensures fresh(d) && fresh(d.buf) && arena.offset >= old(arena.offset)
    ensures ok ==> Holds(d, est * lo)
    ensures old(arena.offset) + 2 * k + 1 + Max(ProductNeed(k), 4 * k + 2) <= arena.cap ==> ok
  {
    ok, d := LowerProduct(iq, b2, arena, est, lo, k);
    if ok {
      var prevC, prevIq, ok1, ok2;
      ok1, prevC := arena.Temp(c.cap);
      ok2, prevIq := arena.Temp(iq.cap);
      ok := ok1 && ok2;
    }
  }

  /** A bound on everything the correction goes through, and the room it needs. */
  lemma StepRoom(a: nat, third: nat, hi: nat, lo: nat, k: nat, thirdN: nat, est: nat, v: nat, cv: nat, dv: nat,
                 div: nat, cap: nat) returns (w: int)
    requires StepNumbers(a, third, hi, lo, Pow(B, k), est, v, cv, dv, div) && (a == 0 || thirdN == k)
    requires hi < Pow(B, k) && third < Pow(B, thirdN) && cap == k + thirdN + 2
    ensures 0 <= w && 2 * w < Pow(B, cap) && cv <= w && dv <= w && (cv < dv ==> div <= w)
  {
    var p := Pow(B, k);
    PowPos(B, k);
    if a == 0 {
      w := third;
      ZeroEstimate(est, hi, v, lo, p);
      PowPos(B, thirdN);
      ShlOne(thirdN);
      ShlOne(thirdN + 1);
      PowMono(B, thirdN + 1, cap);
    } else {
      w := 2 * (p * p);
      StepBounds(a, third, hi, lo, p, est, v, cv, dv, div);
      PowAdd(B, k, k);
      PowPos(B, 2 * k);
      ShlOne(2 * k);
      ShlOne(2 * k + 1);
      PowMono(B, 2 * k + 1, cap);
    }
  }

  lemma ZeroEstimate(est: nat, hi: nat, v: nat, lo: nat, p: int)
    requires est * hi + v == 0 && hi >= 1
    ensures est == 0 && v == 0 && est * lo == 0 && v * p == 0
  {
    if est > 0 {
      MulMono(1, est, hi);
    }
  }

  lemma StepBounds(a: nat, third: nat, hi: nat, lo: nat, p: int, est: nat, v: nat, cv: nat, dv: nat, div: nat)
    requires StepNumbers(a, third, hi, lo, p, est, v, cv, dv, div) && hi < p
    ensures cv <= 2 * (p * p) && dv <= 2 * (p * p) && div <= 2 * (p * p)
  {
    PairBelow(v, p, third);
    PairBelow(hi, p, lo);
    ProductBelow(est, hi, lo, p, a, v);
  }

  lemma PairBelow(x: nat, p: int, y: nat)
    requires x < p && y < p
    ensures x * p + y < p * p
  {
    MulMono(x, p - 1, p);
    assert (p - 1) * p == p * p - p;
  }

  lemma ProductBelow(est: nat, hi: nat, lo: nat, p: int, a: nat, v: nat)
    requires lo < p <= 2 * hi && a == est * hi + v && a < p * p
    ensures est * lo <= 2 * (p * p)
  {
    BelowTwice(a, hi, est, v, p);
    MulMono(est, 2 * p, lo);
    MulMono(lo, p, 2 * p);
    assert lo * (2 * p) == (2 * p) * lo && p * (2 * p) == 2 * (p * p);
  }

  /** The divisor of a three-by-two step: its two halves, and the whole. */
  ghost predicate Divisor(b1: BigInt, b2: BigInt, b: BigInt, k: nat, hi: nat, lo: nat, div: nat)
    reads b1, b1.buf, b2, b2.buf, b, b.buf
  {
    && Normal(b1, k, hi) && b2.Valid() && b2.n <= k && b2.Mag() == lo && Holds(b, div)
    && div == hi * Pow(B, k) + lo
  }

  /** Estimate and remainder from the upper half of the divisor, in fresh temporaries. */
  method EstimateStep(a1: BigInt, a2: BigInt, thirdN: nat, b1: BigInt, k: nat, arena: Arena, ghost a: nat,
                      ghost hi: nat)
    returns (ok: bool, iq: BigInt, c: BigInt, ghost est: nat, ghost v: nat)
    requires IsPowerOfTwo(k) && Dividend(a1, a2, k, a) && Normal(b1, k, hi) && thirdN <= k
    modifies arena
    ensures fresh(iq) && fresh(iq.buf) && fresh(c) && fresh(c.buf) && iq.buf != c.buf
    ensures arena.offset >= old(arena.offset)
    ensures ok ==> Holds(iq, est) && Holds(c, v) && a == est * hi + v && v < hi && c.cap == k + thirdN + 2
    ensures ok ==> arena.offset <= old(arena.offset) + 4 * k + 2 && iq.cap <= 2 * k && iq.n <= k + 1
    ensures old(arena.offset) + 4 * k + 2 + DivisionNeed(k) <= arena.cap ==> ok
    decreases k, 1
  {
    var ok1, ok2;
    ok1, iq := arena.Temp(a1.n + a2.n);
    ok2, c := arena.Temp(b1.n + thirdN + 2);
    ok := ok1 && ok2;
    est, v := 0, 0;
    if ok {
      PairValue(a1, a2, k, a);
      NormalHolds(b1, k, hi);
      ok, est, v := TwoByOne(a1, a2, b1, iq, c, k, arena, a, hi);
      EstimateLength(iq, a, hi, est, v, k, ok);
    }
  }

  /** The estimate has at most one limb more than a part. */
  lemma EstimateLength(iq: BigInt, a: nat, hi: nat, est: nat, v: nat, k: nat, ok: bool)
    requires hi >= 1 && Pow(B, k) <= 2 * hi && a < Pow(B, k) * Pow(B, k)
    requires ok ==> Holds(iq, est) && a == est * hi + v
    ensures ok ==> iq.n <= k + 1
  {
    if ok {
      PowPos(B, k);
      BelowTwice(a, hi, est, v, Pow(B, k));
      TrimFits(iq.Limbs(), k + 1);
    }
  }

  lemma BelowTwice(a: nat, hi: nat, est: nat, v: nat, p: int)
    requires 1 <= p <= 2 * hi && a < p * p && a == est * hi + v
    ensures est < 2 * p
  {
    MulMono(p, 2 * hi, p);
    assert (2 * hi) * p == (2 * p) * hi;
    MulCancel(est, 2 * p, hi);
  }

  method One() returns (one: BigInt)
    ensures fresh(one) && fresh(one.buf) && Holds(one, 1)
  {
    one := new BigInt.Fresh(1);
    StoreLimb(one, 1);
  }

  /** The correction of the estimate, with its product in a temporary. */
  method FinishStep(iq: BigInt, c: BigInt, a3: BigInt, b2: BigInt, b: BigInt, k: nat, arena: Arena, ghost a: nat,
                    ghost hi: nat, ghost lo: nat, ghost est: nat, ghost v: nat, ghost div: nat, ghost third: nat)
    returns (ok: bool, ghost q: nat, ghost r: nat)
    requires Holds(iq, est) && Holds(c, v) && c.cap == k + a3.n + 2 && iq.buf != c.buf
    requires a3.Valid() && a3.n <= k && a3.Mag() == third && (a == 0 || a3.n == k)
    requires b2.Valid() && b2.Mag() == lo && Holds(b, div)
    requires StepNumbers(a, third, hi, lo, Pow(B, k), est, v, v * Pow(B, k) + third, est * lo, div) && hi < Pow(B, k)
    requires c.buf != b.buf && c.buf != a3.buf && c.buf != b2.buf && iq.buf != b.buf && iq.buf != a3.buf
    requires iq.buf != b2.buf
    requires iq.n <= k + 1 && iq.cap <= 2 * k && b2.n <= k
    modifies iq, iq.buf, c, c.buf, arena
    ensures arena.offset >= old(arena.offset)
    ensures ok ==> Holds(iq, q) && Holds(c, r) && a * Pow(B, k) + third == q * div + r && r < div && q <= a
    ensures old(arena.offset) + 2 * k + 1 + Max(ProductNeed(k), 4 * k + 2) <= arena.cap ==> ok
  {
    var d;
    ok, d := ProductAndCopies(iq, c, b2, arena, est, lo, k);
    q, r := 0, 0;
    if ok {
      PowPos(B, k);
      MulNat(v, Pow(B, k));
      MulNat(est, lo);
      q, r := CorrectWith(iq, c, a3, d, b, k, a, hi, lo, est, v, v * Pow(B, k) + third, est * lo, div, third);
    }
  }

  method CorrectWith(iq: BigInt, c: BigInt, a3: BigInt, d: BigInt, b: BigInt, k: nat, ghost a: nat, ghost hi: nat,
                     ghost lo: nat,
                     ghost est: nat, ghost v: nat, ghost cv: nat, ghost dv: nat, ghost div: nat, ghost third: nat)
    returns (ghost q: nat, ghost r: nat)
    requires Holds(iq, est) && Holds(c, v) && c.cap == k + a3.n + 2 && iq.buf != c.buf && Holds(d, dv) && Holds(b, div)
    requires a3.Valid() && a3.n <= k && a3.Mag() == third && (a == 0 || a3.n == k)
    requires StepNumbers(a, third, hi, lo, Pow(B, k), est, v, cv, dv, div) && hi < Pow(B, k)
    requires c.buf != b.buf && c.buf != a3.buf && c.buf != d.buf && iq.buf != b.buf && iq.buf != a3.buf
    modifies iq, iq.buf, c, c.buf
    ensures Holds(iq, q) && Holds(c, r) && a * Pow(B, k) + third == q * div + r && r < div && q <= a
  {
    var one := One();
    ValBound(a3.Limbs());
    ghost var w := StepRoom(a, third, hi, lo, k, a3.n, est, v, cv, dv, div, c.cap);
    EstimateLimits(a, hi, est, v, k);
    TrimFits(c.Limbs(), k);
    var steps := Finish(iq, c, a3, d, b, one, k, a, hi, lo, est, v, cv, dv, div, w);
    q, r := est - steps, cv - dv + steps * div;
  }

  lemma EstimateLimits(a: nat, hi: nat, est: nat, v: nat, k: nat)
    requires a == est * hi + v && v < hi < Pow(B, k)
    ensures est <= a && v < Pow(B, k) && (a == 0 ==> v == 0)
  {
    MulMono(1, hi, est);
    MulNat(est, hi);
  }

  lemma PairValue(a1: BigInt, a2: BigInt, k: nat, a: nat)
    requires Dividend(a1, a2, k, a)
    ensures a < Pow(B, k) * Pow(B, k)
  {
    ValBound(a1.Limbs());
    ValBound(a2.Limbs());
    PowMono(B, a1.n, k);
    PowMono(B, a2.n, k);
    PairBelow(a1.Mag(), Pow(B, k), a2.Mag());
  }

  /** Divides [a1, a2, a3] by [b1, b2]; `r` may share its buffer with the dividend's upper parts. */
  method ThreeByTwo(a1: BigInt, a2: BigInt, a3: BigInt, b1: BigInt, b2: BigInt, b: BigInt, q: BigInt, r: BigInt, k: nat,
                    arena: Arena, ghost a: nat, ghost third: nat, ghost hi: nat, ghost lo: nat, ghost div: nat)
    returns (ok: bool, ghost qv: nat, ghost rv: nat)
    requires IsPowerOfTwo(k) && Dividend(a1, a2, k, a) && Divisor(b1, b2, b, k, hi, lo, div)
    requires a3.Valid() && a3.n <= k && a3.Mag() == third && (a == 0 || a3.n == k)
    requires q.Valid() && r.Valid() && q.cap >= 2 * k && r.cap >= 2 * k && q.buf != r.buf
    modifies q, q.buf, r, r.buf, arena
    ensures arena.offset == old(arena.offset) && q.Valid() && r.Valid()
    ensures ok ==> Holds(q, qv) && Holds(r, rv) && a * Pow(B, k) + third == qv * div + rv && rv < div
    ensures old(arena.offset) + StepNeed(k) <= arena.cap ==> ok
    decreases k, 3
  {
    var mark := arena.Mark();
    var iq, c;
    ok, iq, c, qv, rv := StepInTemps(a1, a2, a3, b1, b2, b, k, arena, a, third, hi, lo, div);
    if ok {
      CopyBoth(q, r, iq, c, k, qv, rv, a, div);
    }
    arena.Rewind(mark);
  }

  method CopyBoth(q: BigInt, r: BigInt, iq: BigInt, c: BigInt, k: nat, ghost qv: nat, ghost rv: nat, ghost a: nat,
                  ghost div: nat)
    requires q.Valid() && r.Valid() && q.cap >= 2 * k && r.cap >= 2 * k && q.buf != r.buf
    requires Holds(iq, qv) && Holds(c, rv) && qv < Pow(B, 2 * k) && rv < Pow(B, 2 * k)
    requires q.buf != iq.buf && q.buf != c.buf && r.buf != iq.buf && r.buf != c.buf
    modifies q, q.buf, r, r.buf
    ensures Holds(q, qv) && Holds(r, rv)
  {
    TrimFits(iq.Limbs(), 2 * k);
    TrimFits(c.Limbs(), 2 * k);
    q.Copy(iq);
    r.Copy(c);
  }

  method StepInTemps(a1: BigInt, a2: BigInt, a3: BigInt, b1: BigInt, b2: BigInt, b: BigInt, k: nat, arena: Arena,
                     ghost a: nat, ghost third: nat, ghost hi: nat, ghost lo: nat, ghost div: nat)
    returns (ok: bool, iq: BigInt, c: BigInt, ghost qv: nat, ghost rv: nat)
    requires IsPowerOfTwo(k) && Dividend(a1, a2, k, a) && Divisor(b1, b2, b, k, hi, lo, div)
    requires a3.Valid() && a3.n <= k && a3.Mag() == third && (a == 0 || a3.n == k)
    modifies arena
    ensures arena.offset >= old(arena.offset)
    ensures fresh(iq) && fresh(iq.buf) && fresh(c) && fresh(c.buf) && iq.buf != c.buf
    ensures ok ==> Holds(iq, qv) && Holds(c, rv) && a * Pow(B, k) + third == qv * div + rv && rv < div
    ensures ok ==> qv < Pow(B, 2 * k) && rv < Pow(B, 2 * k)
    ensures old(arena.offset) + StepNeed(k) <= arena.cap ==> ok
    decreases k, 2
  {
    ghost var est, v;
    ok, iq, c, est, v := EstimateStep(a1, a2, a3.n, b1, k, arena, a, hi);
    qv, rv := 0, 0;
    if ok {
      StepFacts(a1, a2, a3, b1, b2, b, k, a, third, hi, lo, div, est, v);
      ok, qv, rv := FinishStep(iq, c, a3, b2, b, k, arena, a, hi, lo, est, v, div, third);
    }
  }

  lemma PartBelow(x: BigInt, k: nat)
    requires x.Valid() && x.n <= k
    ensures 0 <= x.Mag() < Pow(B, k)
  {
    ValBound(x.Limbs());
    PowMono(B, x.n, k);
  }

  lemma StepFacts(a1: BigInt, a2: BigInt, a3: BigInt, b1: BigInt, b2: BigInt, b: BigInt, k: nat,
                  a: nat, third: nat, hi: nat, lo: nat, div: nat, est: nat, v: nat)
    requires k >= 1 && Dividend(a1, a2, k, a) && Divisor(b1, b2, b, k, hi, lo, div) && a3.Valid() && a3.n <= k
    requires a3.Mag() == third
    requires a == est * hi + v && v < hi
    ensures StepNumbers(a, third, hi, lo, Pow(B, k), est, v, v * Pow(B, k) + third, est * lo, div)
    ensures hi < Pow(B, k) && 0 <= v * Pow(B, k) + third && 0 <= est * lo
    ensures a < Pow(B, 2 * k) && div <= Pow(B, 2 * k)
  {
    PowAdd(B, k, k);
    PairValue(a1, a2, k, a);
    PartBelow(a3, k);
    PartBelow(b2, k);
    NormalHolds(b1, k, hi);
    PairBelow(hi, Pow(B, k), lo);
    MulNat(v, Pow(B, k));
    MulNat(est, lo);
  }

  // ------------------------------------------------------------------ the two-by-one step

  /** Places the upper quotient digit at limb `k` of the buffer that holds the lower one. */
  method PlaceUpper(q2: BigInt, q1: BigInt, k: nat, ghost u: nat, ghost l: nat)
    requires Holds(q1, u) && Holds(q2, l) && q2.n <= k && k + q1.n <= q2.cap && q1.buf != q2.buf
    modifies q2, q2.buf
    ensures Holds(q2, u * Pow(B, k) + l)
  {
    ghost var s := q2.Limbs();
    q2.ZeroFill(q2.n, k);
    PaddedLow(q2.Phys(), s, k);
    ghost var low := q2.Phys()[..k];
    FillAt(q2, q1, k);
    Stacked(q2.Phys(), low, q1.Limbs());
    q2.SetLen(k + q1.n);
    q2.TrimLz();
  }

  lemma PaddedLow(p: seq<Limb>, s: seq<Limb>, k: nat)
    requires |s| <= k <= |p| && p[..|s|] == s && forall j :: |s| <= j < k ==> p[j] == 0
    ensures Val(p[..k]) == Val(s)
  {
    var t := p[..k];
    ValNZeros(t, |s|, k);
    ValNFrame(t, s, |s|);
  }

  method FillAt(x: BigInt, o: BigInt, k: nat)
    requires x.Valid() && o.Valid() && x.buf != o.buf && k + o.n <= x.cap
    modifies x.buf
    ensures x.Phys()[k..k + o.n] == o.Limbs() && x.Phys()[..k] == old(x.Phys()[..k])
  {
    ghost var s, low := o.Limbs(), x.Phys()[..k];
    for i := 0 to o.n
      modifies x.buf
      invariant o.Limbs() == s && x.Phys()[..k] == low
      invariant forall j :: k <= j < k + i ==> x.Phys()[j] == s[j - k]
    {
      var l := o.Get(i, s);
      ghost var p := x.Phys();
      x.Put(k + i, l);
      assert x.Phys()[..k] == p[..k];
    }
    ghost var t := x.Phys()[k..k + o.n];
    assert forall j :: 0 <= j < o.n ==> t[j] == x.Phys()[k + j] == s[j];
    assert t == s;
  }

  /** The numbers of a two-by-one division: the dividend [a, third, fourth], where a is its upper
      half, the divisor `div` with its halves, and the whole dividend. */
  datatype Numbers = Numbers(a: nat, third: nat, fourth: nat, hi: nat, lo: nat, div: nat, total: nat)

  ghost predicate Composed(g: Numbers, k: nat) {
    g.total == (g.a * Pow(B, k) + g.third) * Pow(B, k) + g.fourth
  }

  ghost predicate Lowest(a4: BigInt, k: nat, g: Numbers)
    reads a4, a4.buf
  {
    a4.Valid() && a4.n <= k && a4.Mag() == g.fourth && ((g.a == 0 && g.third == 0) || a4.n == k)
  }

  /** Both steps, and the quotient put together. */
  method TwoSteps(a1: BigInt, a2: BigInt, a3: BigInt, a4: BigInt, b1: BigInt, b2: BigInt, b: BigInt, k: nat,
                  arena: Arena, ghost g: Numbers)
    returns (ok: bool, q: BigInt, r: BigInt, ghost qv: nat, ghost rv: nat)
    requires IsPowerOfTwo(k) && Dividend(a1, a2, k, g.a) && Divisor(b1, b2, b, k, g.hi, g.lo, g.div)
    requires a3.Valid() && a3.n <= k && a3.Mag() == g.third && (g.a == 0 || a3.n == k)
    requires Lowest(a4, k, g) && Composed(g, k)
    modifies arena
    ensures arena.offset >= old(arena.offset) && fresh(q) && fresh(q.buf) && fresh(r) && fresh(r.buf) && q.buf != r.buf
    ensures ok ==> Holds(q, qv) && Holds(r, rv) && rv < g.div && g.total == qv * g.div + rv
    ensures old(arena.offset) + 8 * k + StepNeed(k) <= arena.cap ==> ok
    decreases k, 7
  {
    var ok1, ok2, ok3, q1;
    ok1, q1 := arena.Temp(2 * k);
    ok2, q := arena.Temp(4 * k);
    ok3, r := arena.Temp(2 * k);
    ok := ok1 && ok2 && ok3;
    qv, rv := 0, 0;
    if ok {
      ok, qv, rv := RunSteps(a1, a2, a3, a4, b1, b2, b, q1, q, r, k, arena, g);
    }
  }

  method RunSteps(a1: BigInt, a2: BigInt, a3: BigInt, a4: BigInt, b1: BigInt, b2: BigInt, b: BigInt,
                  q1: BigInt, q2: BigInt, r: BigInt, k: nat, arena: Arena, ghost g: Numbers)
    returns (ok: bool, ghost qv: nat, ghost rv: nat)
    requires IsPowerOfTwo(k) && Dividend(a1, a2, k, g.a) && Divisor(b1, b2, b, k, g.hi, g.lo, g.div)
    requires a3.Valid() && a3.n <= k && a3.Mag() == g.third && (g.a == 0 || a3.n == k)
    requires Lowest(a4, k, g) && Composed(g, k)
    requires q1.Valid() && q2.Valid() && r.Valid() && q1.cap == r.cap == 2 * k && q2.cap == 4 * k
    requires q1.buf != q2.buf && q1.buf != r.buf && q2.buf != r.buf
    requires q1.buf != a4.buf && q1.buf != b1.buf && q1.buf != b2.buf && q1.buf != b.buf
    requires q2.buf != a4.buf && q2.buf != b1.buf && q2.buf != b2.buf && q2.buf != b.buf
    requires r.buf != a4.buf && r.buf != b1.buf && r.buf != b2.buf && r.buf != b.buf
    modifies q1, q1.buf, q2, q2.buf, r, r.buf, arena
    ensures arena.offset == old(arena.offset)
    ensures ok ==> Holds(q2, qv) && Holds(r, rv) && rv < g.div && g.total == qv * g.div + rv
    ensures old(arena.offset) + StepNeed(k) <= arena.cap ==> ok
    decreases k, 6
  {
    ghost var u, v;
    ok, u, v := ThreeByTwo(a1, a2, a3, b1, b2, b, q1, r, k, arena, g.a, g.third, g.hi, g.lo, g.div);
    qv, rv := 0, 0;
    if ok {
      ok, qv, rv := SecondStep(a4, b1, b2, b, q1, q2, r, k, arena, g, u, v);
    }
  }

  /** The step on the remainder `v` of the first, whose quotient digit is `u`. */
  method SecondStep(a4: BigInt, b1: BigInt, b2: BigInt, b: BigInt, q1: BigInt, q2: BigInt, r: BigInt, k: nat,
                    arena: Arena, ghost g: Numbers, ghost u: nat, ghost v: nat)
    returns (ok: bool, ghost qv: nat, ghost rv: nat)
    requires IsPowerOfTwo(k) && Divisor(b1, b2, b, k, g.hi, g.lo, g.div) && Lowest(a4, k, g) && Composed(g, k)
    requires Holds(q1, u) && Holds(r, v) && g.a * Pow(B, k) + g.third == u * g.div + v && v < g.div
    requires q2.Valid() && q1.cap == r.cap == 2 * k && q2.cap == 4 * k
    requires q1.buf != q2.buf && q1.buf != r.buf && q2.buf != r.buf
    requires q2.buf != a4.buf && q2.buf != b1.buf && q2.buf != b2.buf && q2.buf != b.buf
    requires r.buf != a4.buf && r.buf != b1.buf && r.buf != b2.buf && r.buf != b.buf
    modifies q2, q2.buf, r, r.buf, arena
    ensures arena.offset == old(arena.offset)
    ensures ok ==> Holds(q2, qv) && Holds(r, rv) && rv < g.div && g.total == qv * g.div + rv
    ensures old(arena.offset) + StepNeed(k) <= arena.cap ==> ok
    decreases k, 5
  {
    FourthPart(a4, k, g.a, g.third, g.fourth, u, g.div, v);
    ghost var l;
    ok, l, rv := DivideRemainder(a4, b1, b2, b, q2, r, k, arena, g, v);
    qv := 0;
    if ok {
      qv := QuotientDigits(g.a, g.third, g.fourth, g.div, Pow(B, k), u, l, v, rv, g.total);
      JoinBuffers(q2, q1, k, u, l, qv);
    }
  }

  /** The three-by-two step on the views of the remainder, which it overwrites. */
  method DivideRemainder(a4: BigInt, b1: BigInt, b2: BigInt, b: BigInt, q2: BigInt, r: BigInt, k: nat,
                         arena: Arena, ghost g: Numbers, ghost v: nat)
    returns (ok: bool, ghost l: nat, ghost rv: nat)
    requires IsPowerOfTwo(k) && Divisor(b1, b2, b, k, g.hi, g.lo, g.div) && Holds(r, v) && r.cap == 2 * k
    requires a4.Valid() && a4.n <= k && a4.Mag() == g.fourth && (v == 0 || a4.n == k)
    requires q2.Valid() && q2.cap == 4 * k && q2.buf != r.buf
    modifies q2, q2.buf, r, r.buf, arena
    ensures arena.offset == old(arena.offset)
    ensures ok ==> Holds(q2, l) && Holds(r, rv) && v * Pow(B, k) + g.fourth == l * g.div + rv && rv < g.div
    ensures old(arena.offset) + StepNeed(k) <= arena.cap ==> ok
    decreases k, 4
  {
    var high, low := Cut(r, k);
    ok, l, rv := ThreeByTwo(high, low, a4, b1, b2, b, q2, r, k, arena, v, g.fourth, g.hi, g.lo, g.div);
  }

  method JoinBuffers(q2: BigInt, q1: BigInt, k: nat, ghost u: nat, ghost l: nat, ghost qv: nat)
    requires Holds(q1, u) && Holds(q2, l) && q1.cap == 2 * k && q2.cap == 4 * k && q1.buf != q2.buf
    requires l < Pow(B, k) && qv == u * Pow(B, k) + l
    modifies q2, q2.buf
    ensures Holds(q2, qv)
  {
    TrimFits(q2.Limbs(), k);
    PlaceUpper(q2, q1, k, u, l);
  }

  /** The last part is full, or there is nothing above it. */
  lemma FourthPart(a4: BigInt, k: nat, a: nat, third: nat, fourth: nat, u: nat, div: nat, v: nat)
    requires a4.Valid() && a4.n <= k && a4.Mag() == fourth && ((a == 0 && third == 0) || a4.n == k)
    requires a * Pow(B, k) + third == u * div + v && v < div
    ensures fourth < Pow(B, k) && (v == 0 || a4.n == k)
  {
    PartBelow(a4, k);
    MulNat(u, div);
  }

  /** A remainder below the divisor leaves a quotient digit of one part. */
  lemma LowerDigitSmall(v: nat, fourth: nat, p: int, l: nat, div: nat, rv: nat)
    requires v < div && fourth < p && v * p + fourth == l * div + rv
    ensures l < p
  {
    MulMono(v, div - 1, p);
    assert (div - 1) * p == div * p - p;
    MulComm(div, p);
    MulCancel(l, p, div);
  }

  lemma QuotientDigits(a: nat, third: nat, fourth: nat, div: nat, p: int, u: nat, l: nat, v: nat, rv: nat, total: nat)
    returns (q: nat)
    requires p >= 1 && a * p + third == u * div + v && v < div && v * p + fourth == l * div + rv && fourth < p
    requires total == (a * p + third) * p + fourth
    ensures q == u * p + l && l < p && total == q * div + rv
  {
    MulNat(u, p);
    q := u * p + l;
    LowerDigitSmall(v, fourth, p, l, div, rv);
    assert (u * div + v) * p == (u * p) * div + v * p;
    assert (u * p + l) * div == (u * p) * div + l * div;
  }

  /** Divides [ah, al] by a normalised divisor of 2^j limbs. */
  method TwoByOne(ah: BigInt, al: BigInt, b: BigInt, quot: BigInt, rem: BigInt, n: nat, arena: Arena, ghost a: nat,
                  ghost div: nat)
    returns (ok: bool, ghost q: nat, ghost r: nat)
    requires IsPowerOfTwo(n) && Dividend(ah, al, n, a) && Normal(b, n, div)
    requires quot.Valid() && rem.Valid() && quot.sign == 1 && quot.cap >= ah.n + al.n && rem.cap >= n
    requires quot.buf != rem.buf
    requires quot.buf != b.buf && rem.buf != b.buf
    modifies quot, quot.buf, rem, rem.buf, arena
    ensures arena.offset == old(arena.offset) && quot.Valid() && rem.Valid()
    ensures ok ==> Holds(quot, q) && Holds(rem, r) && a == q * div + r && r < div
    ensures old(arena.offset) + DivisionNeed(n) <= arena.cap ==> ok
    decreases n, 0
  {
    if n <= 1 {
      ok, q, r := OneLimbBase(ah, al, b, quot, rem, arena, a, div);
      return;
    }
    var mark := arena.Mark();
    var q2, r2;
    ok, q2, r2, q, r := SplitAndDivide(ah, al, b, n, arena, a, div);
    if ok {
      NormalHolds(b, n, div);
      DividendFits(ah, al, n, a, q, div, r);
      PowMono(B, ah.n + al.n, quot.cap);
      CopyResults(quot, rem, q2, r2, n, q, r);
    }
    arena.Rewind(mark);
  }

  method CopyResults(quot: BigInt, rem: BigInt, q2: BigInt, r2: BigInt, n: nat, ghost q: nat, ghost r: nat)
    requires quot.Valid() && rem.Valid() && rem.cap >= n && quot.buf != rem.buf && Holds(q2, q) && Holds(r2, r)
    requires quot.buf != q2.buf && quot.buf != r2.buf && rem.buf != q2.buf && rem.buf != r2.buf
    requires q < Pow(B, quot.cap) && r < Pow(B, n)
    modifies quot, quot.buf, rem, rem.buf
    ensures Holds(quot, q) && Holds(rem, r)
  {
    TrimFits(q2.Limbs(), quot.cap);
    TrimFits(r2.Limbs(), n);
    rem.Copy(r2);
    quot.Copy(q2);
  }

  method SplitAndDivide(ah: BigInt, al: BigInt, b: BigInt, n: nat, arena: Arena, ghost a: nat, ghost div: nat)
    returns (ok: bool, q: BigInt, r: BigInt, ghost qv: nat, ghost rv: nat)
    requires IsPowerOfTwo(n) && n >= 2 && Dividend(ah, al, n, a) && Normal(b, n, div)
    modifies arena
    ensures arena.offset >= old(arena.offset) && fresh(q) && fresh(q.buf) && fresh(r) && fresh(r.buf) && q.buf != r.buf
    ensures ok ==> Holds(q, qv) && Holds(r, rv) && a == qv * div + rv && rv < div
    ensures old(arena.offset) + DivisionNeed(n) <= arena.cap ==> ok
    decreases n / 2, 9
  {
    var k := n / 2;
    ghost var third, fourth;
    var a1, a2 := Cut(ah, k);
    var a3, a4;
    a3, a4, third, fourth := CutLow(ah, al, k, a);
    ok, q, r, qv, rv := DivideParts(a1, a2, a3, a4, b, k, arena, ah.Mag(), third, fourth, div, a);
  }

  method DivideParts(a1: BigInt, a2: BigInt, a3: BigInt, a4: BigInt, b: BigInt, k: nat, arena: Arena,
                     ghost a: nat, ghost third: nat, ghost fourth: nat, ghost div: nat, ghost total: nat)
    returns (ok: bool, q: BigInt, r: BigInt, ghost qv: nat, ghost rv: nat)
    requires IsPowerOfTwo(k) && Dividend(a1, a2, k, a) && Normal(b, 2 * k, div)
    requires a3.Valid() && a3.n <= k && a3.Mag() == third && (a == 0 || a3.n == k)
    requires a4.Valid() && a4.n <= k && a4.Mag() == fourth && ((a == 0 && third == 0) || a4.n == k)
    requires total == (a * Pow(B, k) + third) * Pow(B, k) + fourth
    modifies arena
    ensures arena.offset >= old(arena.offset) && fresh(q) && fresh(q.buf) && fresh(r) && fresh(r.buf) && q.buf != r.buf
    ensures ok ==> Holds(q, qv) && Holds(r, rv) && rv < div && total == qv * div + rv
    ensures old(arena.offset) + 8 * k + StepNeed(k) <= arena.cap ==> ok
    decreases k, 8
  {
    ghost var hi, lo;
    var b1, b2;
    b1, b2, hi, lo := CutDivisor(b, k, div);
    ok, q, r, qv, rv := TwoSteps(a1, a2, a3, a4, b1, b2, b, k, arena, Numbers(a, third, fourth, hi, lo, div, total));
  }

  method CutDivisor(b: BigInt, k: nat, ghost div: nat) returns (b1: BigInt, b2: BigInt, ghost hi: nat, ghost lo: nat)
    requires k >= 1 && Normal(b, 2 * k, div)
    ensures fresh(b1) && fresh(b2) && b1.buf == b2.buf == b.buf && Divisor(b1, b2, b, k, hi, lo, div)
  {
    b1, b2 := Cut(b, k);
    hi, lo := b1.Mag(), b2.Mag();
    DivisorHalves(b1, b2, b, k, hi, lo, div);
  }

  method CutLow(ah: BigInt, al: BigInt, k: nat, ghost a: nat)
    returns (a3: BigInt, a4: BigInt, ghost third: nat, ghost fourth: nat)
    requires Dividend(ah, al, 2 * k, a)
    ensures fresh(a3) && fresh(a4) && a3.buf == a4.buf == al.buf
    ensures a3.Valid() && a3.n <= k && a3.Mag() == third && (ah.Mag() == 0 || a3.n == k)
    ensures a4.Valid() && a4.n <= k && a4.Mag() == fourth && ((ah.Mag() == 0 && third == 0) || a4.n == k)
    ensures a == (ah.Mag() * Pow(B, k) + third) * Pow(B, k) + fourth
  {
    a3, a4 := Cut(al, k);
    third, fourth := a3.Mag(), a4.Mag();
    FullParts(ah, al, k);
    WholeDividend(ah, al, k, a, third, fourth);
  }

  lemma DivisorHalves(b1: BigInt, b2: BigInt, b: BigInt, k: nat, hi: nat, lo: nat, div: nat)
    requires k >= 1 && Normal(b, 2 * k, div) && Dividend(b1, b2, k, div) && b1.n == k
    requires b1.Mag() == hi && b2.Mag() == lo && lo < Pow(B, k)
    ensures Divisor(b1, b2, b, k, hi, lo, div)
  {
    NormalHolds(b, 2 * k, div);
    TopHalfNormal(hi, lo, div, k);
  }

  /** The lower parts of a dividend are full as long as anything stands above them. */
  lemma FullParts(ah: BigInt, al: BigInt, k: nat)
    requires ah.Valid() && al.Valid() && al.n <= 2 * k && (ah.n == 0 || al.n == 2 * k)
    ensures ah.Mag() == 0 || PartSize(al.n, k, k) == k
    ensures (ah.Mag() == 0 && PartSize(al.n, k, k) == 0) || PartSize(al.n, 0, k) == k
  {
  }

  lemma WholeDividend(ah: BigInt, al: BigInt, k: nat, a: nat, third: nat, fourth: nat)
    requires Dividend(ah, al, 2 * k, a) && al.Mag() == third * Pow(B, k) + fourth
    ensures a == (ah.Mag() * Pow(B, k) + third) * Pow(B, k) + fourth
  {
    PowAdd(B, k, k);
    MulAssoc(ah.Mag(), Pow(B, k), Pow(B, k));
    assert (ah.Mag() * Pow(B, k) + third) * Pow(B, k) == (ah.Mag() * Pow(B, k)) * Pow(B, k) + third * Pow(B, k);
  }

  // ------------------------------------------------------------------ normalisation

  /** The number itself, or a shifted copy of it in a temporary. */
  method Normalise(x: BigInt, cap: nat, shift: nat, arena: Arena, ghost v: nat) returns (ok: bool, t: BigInt)
    requires Holds(x, v) && shift < 64 && x.n <= cap && Pow(2, shift) * v < Pow(B, cap)
    modifies arena
    ensures old(arena.offset) <= arena.offset <= old(arena.offset) + cap
    ensures old(arena.offset) + cap <= arena.cap ==> ok
    ensures ok ==> Holds(t, Pow(2, shift) * v) && t.n <= cap && (t == x || fresh(t.buf))
  {
    if shift == 0 {
      assert Pow(2, 0) * v == v;
      return true, x;
    }
    ok, t := arena.Temp(cap);
    if ok {
      t.Copy(x);
      t.sign := 1;
      Lshift(t, shift);
    }
  }

  /** The leading zeros of the top limb are the normalising shift. */
  lemma LeadingZeros(b: BigInt, n: nat, div: nat, top: Limb)
    requires Holds(b, div) && b.n == n >= 1 && top == b.buf[b.off + n - 1]
    ensures Pow(B, n - 1) <= div < Pow(B, n) && Bits(top) <= 64 && NormalShift(div, n) == 64 - Bits(top)
  {
    var s, w := b.Limbs(), Pow(B, n - 1);
    TrimBound(s);
    PowPos(B, n - 1);
    ValCut(s, n - 1);
    assert s[n - 1..] == [top];
    SingleLimb(top);
    ShlPow(top, n - 1);
    ValBound(s[..n - 1]);
    DivModUnique(div, w, top, Val(s[..n - 1]));
    TopLimb(div, w);
    ShiftNormalises(div, w, top);
  }

  /** Shifted by up to 63 bits, a number of n limbs fits n + 1. */
  lemma ShiftedFits(x: BigInt, v: nat, shift: nat)
    requires Holds(x, v) && shift < 64
    ensures 0 <= Pow(2, shift) * v < Pow(B, x.n + 1)
  {
    ValBound(x.Limbs());
    PowPos(2, shift);
    PowMono(2, shift, 64);
    LimbIsPower(64);
    PowStrictMono(2, shift, 64);
    MulBelow(Pow(2, shift), v, B, Pow(B, x.n));
    assert B * Pow(B, x.n) == Pow(B, x.n + 1);
  }

  method ClzShift(b: BigInt, n: nat, top: Limb, ghost div: nat) returns (shift: nat)
    requires Holds(b, div) && b.n == n >= 1 && top == b.buf[b.off + n - 1]
    requires Pow(B, n - 1) <= div < Pow(B, n)
    ensures shift == NormalShift(div, n) < 64 && Pow(2, shift) >= 1
    ensures Pow(2, shift) * div < Pow(B, n) <= 2 * (Pow(2, shift) * div)
  {
    LeadingZeros(b, n, div, top);
    shift := 64 - Bits(top);
    PowPos(2, shift);
    MulComm(div, Pow(2, shift));
  }

  /** quot = a / b for a divisor of 2^j limbs and a dividend that, shifted, has at most twice as many,
      or any number of limbs over a single one. The arena ends where it was. The source's own amount of
      scratch is enough for every such divisor below 128 limbs and a dividend no shorter. */
  method Divide(a: BigInt, b: BigInt, quot: BigInt, n: nat, arena: Arena, ghost v: nat,
                ghost div: nat) returns (ok: bool)
    requires IsPowerOfTwo(n) && Holds(a, v) && Holds(b, div) && b.n == n
    requires Pow(B, n - 1) <= div < Pow(B, n) && (n == 1 || Pow(2, NormalShift(div, n)) * v < Pow(B, 2 * n))
    requires quot.Valid() && quot.sign == 1 && quot.cap >= a.n + 1 && quot.buf != a.buf && quot.buf != b.buf
    modifies quot, quot.buf, arena
    ensures arena.offset == old(arena.offset) && quot.Valid()
    ensures ok ==> Holds(quot, v / div)
    ensures old(arena.offset) + a.n + 1 + n + WholeNeed(a.n + 1, n) <= arena.cap ==> ok
    ensures n <= 64 && n <= a.n && old(arena.offset) + SourceTotal(a.n, n) <= arena.cap ==> ok
  {
    WholeNeedCovered(a.n, n);
    var mark := arena.Mark();
    var top := b.buf[b.off + n - 1];
    var shift := ClzShift(b, n, top, div);
    ShiftedFits(a, v, shift);
    var ok1, ok2, x, y;
    ok1, x := Normalise(a, a.n + 1, shift, arena, v);
    ok2, y := Normalise(b, n, shift, arena, div);
    ok := ok1 && ok2;
    if ok {
      ok := DivideNormal(x, y, quot, n, arena, v, div, Pow(2, shift));
    }
    arena.Rewind(mark);
  }

  /** What a division takes on top of the normalised copies. */
  function WholeNeed(x: nat, n: nat): nat {
    if n <= 1 then x else DivisionNeed(n)
  }

  lemma WholeNeedCovered(x: nat, n: nat)
    requires IsPowerOfTwo(n)
    ensures n <= 64 && n <= x ==> x + 1 + n + WholeNeed(x + 1, n) <= SourceTotal(x, n)
  {
    if 2 <= n <= 64 && n <= x {
      SourceWsCovers(x + 1, n);
    }
  }

  /** The division of normalised operands, whose quotient is that of the original ones. */
  method DivideNormal(x: BigInt, y: BigInt, quot: BigInt, n: nat, arena: Arena, ghost v: nat, ghost div: nat,
                      ghost p: nat)
    returns (ok: bool)
    requires IsPowerOfTwo(n) && p >= 1 && div >= 1 && Holds(x, p * v) && Holds(y, p * div)
    requires (n == 1 || p * v < Pow(B, 2 * n)) && p * div < Pow(B, n) <= 2 * (p * div)
    requires quot.Valid() && quot.sign == 1 && quot.cap >= x.n && quot.buf != x.buf && quot.buf != y.buf
    modifies quot, quot.buf, arena
    ensures arena.offset >= old(arena.offset) && quot.Valid()
    ensures ok ==> Holds(quot, v / div)
    ensures old(arena.offset) + WholeNeed(x.n, n) <= arena.cap ==> ok
  {
    FullLength(y, n, p * div);
    ghost var q, r;
    if n == 1 {
      ok, q, r := DivideLong(x, y, quot, arena, p * v, p * div);
    } else {
      ok, q, r := DivideHalves(x, y, quot, n, arena, p * v, p * div);
    }
    UnscaledQuotient(v, div, p, q, r, ok);
  }

  /** A dividend of any length by one limb: its views, cut at two limbs, gathered and divided. */
  method DivideLong(x: BigInt, y: BigInt, quot: BigInt, arena: Arena, ghost a: nat, ghost div: nat)
    returns (ok: bool, ghost q: nat, ghost r: nat)
    requires Holds(x, a) && Normal(y, 1, div) && quot.Valid() && quot.sign == 1 && quot.cap >= x.n
    requires quot.buf != x.buf && quot.buf != y.buf
    modifies quot, quot.buf, arena
    ensures arena.offset >= old(arena.offset) && quot.Valid()
    ensures ok ==> Holds(quot, q) && a == q * div + r && r < div
    ensures old(arena.offset) + x.n <= arena.cap ==> ok
  {
    NormalHolds(y, 1, div);
    var t;
    ok, t := arena.Temp(x.n);
    q, r := 0, 0;
    if ok {
      GatherLong(x, t, a);
      var limb := y.buf[y.off];
      OneLimbValue(y, limb);
      var last := ShortDivision(t, limb, quot);
      q, r := quot.Mag(), last;
    }
  }

  method GatherLong(x: BigInt, t: BigInt, ghost a: nat)
    requires Holds(x, a) && t.Valid() && t.cap == x.n && t.buf != x.buf
    modifies t, t.buf
    ensures Holds(t, a) && t.n <= x.n
  {
    var low := new BigInt.View(x, 0, PartSize(x.n, 0, 2));
    var high := new BigInt.View(x, 2, if x.n > 2 then x.n - 2 else 0);
    TwoViews(x.Limbs(), low.Limbs(), high.Limbs());
    t.Copy(high);
    Fuse(t, low);
  }

  lemma TwoViews(s: seq<Limb>, low: seq<Limb>, high: seq<Limb>)
    requires low == Piece(s, 0, 2) && high == if |s| > 2 then s[2..] else []
    ensures Val(s) == Val(high) * Pow(B, |low|) + Val(low)
  {
    if |s| > 2 {
      assert low == s[..2];
      ValCut(s, 2);
      ShlPow(Val(high), 2);
    } else {
      assert low == s;
      NoProduct(Pow(B, |low|));
    }
  }

  /** Two limbs or more: both views of the dividend, and the recursion. */
  method DivideHalves(x: BigInt, y: BigInt, quot: BigInt, n: nat, arena: Arena, ghost a: nat, ghost div: nat)
    returns (ok: bool, ghost q: nat, ghost r: nat)
    requires IsPowerOfTwo(n) && n >= 2 && Holds(x, a) && Normal(y, n, div) && a < Pow(B, 2 * n)
    requires quot.Valid() && quot.sign == 1 && quot.cap >= x.n && quot.buf != x.buf && quot.buf != y.buf
    modifies quot, quot.buf, arena
    ensures arena.offset >= old(arena.offset) && quot.Valid()
    ensures ok ==> Holds(quot, q) && a == q * div + r && r < div
    ensures old(arena.offset) + DivisionNeed(n) <= arena.cap ==> ok
  {
    TrimFits(x.Limbs(), 2 * n);
    var ah, al := Cut(x, n);
    var q2, r2;
    ok, q2, r2, q, r := SplitAndDivide(ah, al, y, n, arena, a, div);
    if ok {
      NormalHolds(y, n, div);
      ValBound(x.Limbs());
      MulMono(1, div, q);
      PowMono(B, x.n, quot.cap);
      TrimFits(q2.Limbs(), quot.cap);
      quot.Copy(q2);
    }
  }

  lemma FullLength(y: BigInt, n: nat, div: nat)
    requires Holds(y, div) && div < Pow(B, n) <= 2 * div && n >= 1
    ensures Normal(y, n, div)
  {
    TrimFits(y.Limbs(), n);
    ValBound(y.Limbs());
    PowPos(B, n - 1);
    PowStrict(B, n - 1, y.n);
  }

  lemma UnscaledQuotient(v: nat, div: nat, p: nat, q: nat, r: nat, ok: bool)
    requires p >= 1 && div >= 1 && (ok ==> p * v == q * (p * div) + r && r < p * div)
    ensures ok ==> q == v / div
  {
    if ok {
      MulComm(p, v);
      MulComm(p, div);
      ScaledQuotient(v, div, p, q, r);
    }
  }
}
