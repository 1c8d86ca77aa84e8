/** Stein's binary algorithm on limb buffers: strip the factors of two, subtract the smaller from
    the larger, strip again, and shift the common factors of two back in at the end. */
module Gcd {
  import opened Arith
  import opened Bitwise
  import opened Limbs
  import opened BigInts
  import opened LimbDivision
  import opened Workspace
  import opened Products
  import opened GcdLaws

  // ------------------------------------------------------------------ shifts by any amount

  lemma HalvedTwice(v: nat, i: nat, j: nat)
    ensures Halved(Halved(v, i), j) == Halved(v, i + j)
  {
    var p, q := Pow(2, i), Pow(2, j);
    PowPos(2, i);
    PowPos(2, j);
    PowAdd(2, i, j);
    MulStrictMono(0, p, q);
    var x := v / p;
    NestedQuotient(v, p, q, x, x / q);
  }

  lemma NestedQuotient(v: nat, p: nat, q: nat, x: nat, y: nat)
    requires p >= 1 && q >= 1 && p * q >= 1 && x == v / p && y == x / q
    ensures v / (p * q) == y
  {
    var r, s := v % p, x % q;
    assert v == x * p + r && x == y * q + s;
    assert (y * q + s) * p == y * (p * q) + s * p;
    MulMono(s, q - 1, p);
    MulNat(s, p);
    assert (q - 1) * p == p * q - p;
    DivModUnique(v, p * q, y, s * p + r);
  }

  /** Right shift by any number of bits: in one call for fewer than 64, as the source makes it for any
      number, and else in steps the shift allows. */
  method ShiftDown(x: BigInt, k: nat) returns (ghost once: bool)
    requires x.Valid() && x.Trimmed() && x.sign == 1
    modifies x`n, x`sign, x.buf
    ensures Holds(x, Halved(old(x.Mag()), k)) && (once <==> k < 64)
  {
    once := k < 64;
    if k < 64 {
      Rshift(x, k);
      return;
    }
    var left: nat := k;
    ghost var v := x.Mag();
    assert Pow(2, 0) == 1;
    while left > 0
      modifies x`n, x`sign, x.buf
      invariant left <= k && Holds(x, Halved(v, k - left))
    {
      var step := Min(left, 63);
      HalvedTwice(v, k - left, step);
      Rshift(x, step);
      left := left - step;
    }
  }

  /** Left shift by any number of bits, likewise, into a buffer with room for the result. */
  method ShiftUp(x: BigInt, k: nat, ghost v: nat)
    requires Holds(x, v) && Pow(2, k) * v < Pow(B, x.cap)
    modifies x`n, x`sign, x.buf
    ensures Holds(x, Pow(2, k) * v)
  {
    if k < 64 {
      Lshift(x, k);
      return;
    }
    var left: nat := k;
    assert Pow(2, 0) * v == v;
    while left > 0
      modifies x`n, x`sign, x.buf
      invariant left <= k && Holds(x, Pow(2, k - left) * v)
    {
      var step := Min(left, 63);
      ShiftedFurther(v, k - left, step, k);
      Lshift(x, step);
      left := left - step;
    }
  }

  lemma ShiftedFurther(v: nat, done: nat, step: nat, k: nat)
    requires done + step <= k
    ensures 0 <= Pow(2, done) * v
    ensures Pow(2, step) * (Pow(2, done) * v) == Pow(2, done + step) * v <= Pow(2, k) * v
  {
    PowAdd(2, done, step);
    PowMono(2, done + step, k);
    MulMono(Pow(2, done + step), Pow(2, k), v);
    PowPos(2, done);
    MulNat(Pow(2, done), v);
    MulAssoc(Pow(2, step), Pow(2, done), v);
    assert Pow(2, step) * Pow(2, done) == Pow(2, done) * Pow(2, step);
  }

  // ------------------------------------------------------------------ trailing zeros

  /** The lowest limb that is not zero decides. */
  lemma LowestLimb(s: seq<Limb>, i: nat)
    requires i < |s| && ValN(s, i) == 0 && s[i] != 0
    ensures Val(s) >= 1 && Ctz(Val(s)) == 64 * i + Ctz(s[i])
  {
    var h := s[i..];
    ValCut(s, i);
    ValPrefix(s, i);
    ValCut(h, 1);
    ValBound(h[1..]);
    assert h[..1] == [s[i]];
    assert Val([s[i]]) == s[i];
    LimbIsPower(64);
    CtzLow(s[i], Val(h[1..]), 64);
    assert Shl(Val(h[1..]), 1) == B * Val(h[1..]);
    ShlPow(Val(h), i);
    PowMul(2, 64, i);
    CtzScaled(Val(h), 64 * i);
  }

  /** The source passes the whole count to one shift, whose body is for fewer than 64 bits. It is fewer
      if and only if the lowest limb is not zero. */
  lemma OneShiftEnough(s: seq<Limb>)
    requires Trim(s) && |s| > 0
    ensures Val(s) >= 1 && (Ctz(Val(s)) < 64 <==> s[0] != 0)
  {
    var i := LowestNonZero(s, 0);
    LowestLimb(s, i);
    LimbIsPower(64);
    CtzBelow(s[i], 64);
  }

  lemma {:induction false} LowestNonZero(s: seq<Limb>, from: nat) returns (i: nat)
    requires from < |s| && s[|s| - 1] != 0 && ValN(s, from) == 0 && forall j :: 0 <= j < from ==> s[j] == 0
    ensures from <= i < |s| && s[i] != 0 && ValN(s, i) == 0 && forall j :: 0 <= j < i ==> s[j] == 0
    decreases |s| - from
  {
    if s[from] != 0 {
      i := from;
    } else {
      ShlZero(from);
      i := LowestNonZero(s, from + 1);
    }
  }

  /** The smallest number that needs more: 2^64, whose count is 64. */
  lemma SixtyFourZeros(u: seq<Limb>)
    requires u == [0, 1]
    ensures Val(u) == Pow(2, 64) >= 1 && Ctz(Val(u)) == 64
  {
    LimbIsPower(64);
    ShlZero(0);
    assert ValN(u, 1) == ValN(u, 0) + Shl(0, 0);
    LowestLimb(u, 1);
    assert ValN(u, 2) == ValN(u, 1) + Shl(1, 1);
    ShlOne(1);
    assert Ctz(1) == 0;
  }

  /** The number of trailing zero bits; for zero, every bit of the length. */
  method TrailingZeros(x: BigInt) returns (k: nat)
    requires x.Valid()
    ensures k == if x.Mag() == 0 then 64 * x.n else Ctz(x.Mag())
  {
    ghost var s := x.Limbs();
    k := 0;
    for i := 0 to x.n
      invariant k == 64 * i && ValN(s, i) == 0
    {
      var limb := x.buf[x.off + i];
      assert limb == s[i];
      if limb != 0 {
        LowestLimb(s, i);
        return k + Ctz(limb);
      }
      ShlZero(i);
      k := k + 64;
    }
  }

  /** Takes out the factors of two. */
  method StripTwos(x: BigInt, ghost v: nat) returns (k: nat, ghost once: bool)
    requires Holds(x, v) && v >= 1
    modifies x`n, x`sign, x.buf
    ensures Holds(x, OddPart(v)) && k == Ctz(v) && (once <==> Ctz(v) < 64)
  {
    k := TrailingZeros(x);
    OddPartSplit(v);
    PowPos(2, k);
    HalvedExact(v, OddPart(v), k);
    once := ShiftDown(x, k);
  }

  lemma HalvedExact(v: nat, r: nat, k: nat)
    requires v == Pow(2, k) * r
    ensures Halved(v, k) == r
  {
    PowPos(2, k);
    DivModUnique(v, Pow(2, k), r, 0);
  }

  // ------------------------------------------------------------------ the loop

  lemma LargerIsNotShorter(x: seq<Limb>, y: seq<Limb>)
    requires Trim(x) && Trim(y) && Val(x) >= Val(y)
    ensures |x| >= |y|
  {
    if |y| > |x| {
      LongerIsLarger(y, x);
    }
  }

  /** Subtracts the smaller number and strips the factors of two off the difference. */
  method SubtractAndStrip(x: BigInt, y: BigInt, ghost a: nat, ghost b: nat) returns (ghost once: bool)
    requires Holds(x, a) && Holds(y, b) && a > b >= 1 && x.buf != y.buf
    modifies x`n, x`sign, x.buf
    ensures Holds(x, OddPart(a - b)) && (once <==> Ctz(a - b) < 64)
  {
    LargerIsNotShorter(x.Limbs(), y.Limbs());
    Subtract(x, y, a, b);
    var k;
    k, once := StripTwos(x, a - b);
  }

  method Subtract(x: BigInt, y: BigInt, ghost a: nat, ghost b: nat)
    requires Holds(x, a) && Holds(y, b) && a > b >= 1 && x.buf != y.buf && y.n <= x.n
    modifies x`n, x`sign, x.buf
    ensures Holds(x, a - b)
  {
    ValBound(y.Limbs());
    x.SubWb(x, y);
  }

  /** Compares two trimmed numbers. */
  method Compare(x: BigInt, y: BigInt, ghost a: nat, ghost b: nat) returns (c: int)
    requires Holds(x, a) && Holds(y, b)
    ensures (c == 0 <==> a == b) && (c == -1 <==> a < b)
  {
    c := x.Comp(y);
    CompTrimmed(x.Limbs(), y.Limbs());
  }

  /** Every difference of the run on two odd numbers loses fewer than 64 factors of two. */
  ghost predicate ShortRun(a: nat, b: nat)
    requires a >= 1 && b >= 1
    decreases a + b
  {
    a == b || (Ctz(Gap(a, b)) < 64 && ShortRun(OddPart(Gap(a, b)), Min(a, b)))
  }

  function Gap(a: nat, b: nat): nat {
    Max(a, b) - Min(a, b)
  }

  /** All the counts of the algorithm are below 64: as written, with one shift for each, it is defined
      and does what is proved here. */
  ghost predicate ShortCounts(u: nat, v: nat) {
    u == 0 || v == 0 || (Ctz(u) < 64 && Ctz(v) < 64 && ShortRun(OddPart(u), OddPart(v)))
  }

  /** The rounds so far were short or not; with those still to come, `all` says it of the whole run. */
  ghost predicate SoFar(once: bool, a: nat, b: nat, all: bool) {
    forall t: nat :: t == b && a >= 1 && t >= 1 ==> (once && ShortRun(a, t) <==> all)
  }

  lemma SoFarStep(once: bool, a: nat, b: nat, all: bool)
    requires a > b >= 1 && SoFar(once, a, b, all)
    ensures SoFar(once && Ctz(a - b) < 64, OddPart(a - b), b, all)
  {
    assert ShortRun(a, b) <==> Ctz(a - b) < 64 && ShortRun(OddPart(a - b), b);
  }

  lemma SoFarSwap(once: bool, a: nat, b: nat, all: bool)
    requires a >= 1 && b >= 1 && SoFar(once, a, b, all)
    ensures SoFar(once, b, a, all)
  {
    assert ShortRun(a, b) == ShortRun(b, a);
  }

  lemma SoFarDone(once: bool, a: nat, all: bool)
    requires a >= 1 && SoFar(once, a, a, all)
    ensures once <==> all
  {
    assert ShortRun(a, a);
  }

  /** What every round keeps: both numbers odd, their divisors those meant, and the run accounted for. */
  ghost predicate Kept(a: nat, b: nat, k: nat, gu: int, gv: int, once: bool, all: bool) {
    a % 2 == 1 && b % 2 == 1 && Reduces(a, b, k, gu, gv) && SoFar(once, a, b, all)
  }

  lemma KeptStart(u: nat, v: nat) returns (all: bool)
    requires u >= 1 && v >= 1
    ensures Kept(OddPart(u), OddPart(v), Min(Ctz(u), Ctz(v)), u, v, true, all)
    ensures ShortCounts(u, v) <==> Ctz(u) < 64 && Ctz(v) < 64 && all
  {
    ReducesStart(u, v);
    all := ShortRun(OddPart(u), OddPart(v));
  }

  lemma KeptSwap(a: nat, b: nat, k: nat, gu: int, gv: int, once: bool, all: bool)
    requires Kept(a, b, k, gu, gv, once, all)
    ensures Kept(b, a, k, gu, gv, once, all)
  {
    ReducesSwap(a, b, k, gu, gv);
    SoFarSwap(once, a, b, all);
  }

  lemma KeptDone(a: nat, k: nat, gu: int, gv: int, once: bool, all: bool)
    requires Kept(a, a, k, gu, gv, once, all)
    ensures a >= 1 && IsGcd(Pow(2, k) * a, gu, gv) && (once <==> all)
  {
    ReducesDone(a, k, gu, gv);
    SoFarDone(once, a, all);
  }

  /** One round on x > y. */
  method ReduceStep(x: BigInt, y: BigInt, ghost a: nat, ghost b: nat, ghost k: nat, ghost gu: int, ghost gv: int,
                    ghost once: bool, ghost all: bool)
    returns (ghost next: nat, ghost still: bool)
    requires Holds(x, a) && Holds(y, b) && a > b && x.buf != y.buf && Kept(a, b, k, gu, gv, once, all)
    modifies x`n, x`sign, x.buf
    ensures Holds(x, next) && next < a && Kept(next, b, k, gu, gv, still, all)
  {
    var short := SubtractAndStrip(x, y, a, b);
    SoFarStep(once, a, b, all);
    ReducesStep(a, b, k, gu, gv);
    next, still := OddPart(a - b), once && short;
  }

  /** Compares, swaps, subtracts and strips until the two odd numbers are equal. */
  method Reduce(u: BigInt, v: BigInt, ghost a0: nat, ghost b0: nat, ghost k: nat, ghost gu: int, ghost gv: int,
                ghost all: bool)
    returns (w: BigInt, ghost g: nat, ghost once: bool)
    requires Holds(u, a0) && Holds(v, b0) && u.buf != v.buf && Kept(a0, b0, k, gu, gv, true, all)
    modifies u`n, u`sign, u.buf, v`n, v`sign, v.buf
    ensures (w == u || w == v) && Holds(w, g) && g >= 1 && IsGcd(Pow(2, k) * g, gu, gv)
    ensures once <==> all
  {
    once := true;
    var x, y := u, v;
    ghost var a, b := a0, b0;
    var c := Compare(x, y, a, b);
    while c != 0
      modifies u`n, u`sign, u.buf, v`n, v`sign, v.buf
      invariant (x == u && y == v) || (x == v && y == u)
      invariant Holds(x, a) && Holds(y, b) && Kept(a, b, k, gu, gv, once, all)
      invariant (c == 0 <==> a == b) && (c == -1 <==> a < b)
      decreases a + b
    {
      if c == -1 {
        x, y := y, x;
        KeptSwap(a, b, k, gu, gv, once, all);
        a, b := b, a;
      }
      a, once := ReduceStep(x, y, a, b, k, gu, gv, once, all);
      c := Compare(x, y, a, b);
    }
    KeptDone(a, k, gu, gv, once, all);
    w, g := x, a;
  }

  // ------------------------------------------------------------------ the whole algorithm

  /** Scratch copies of both operands' magnitudes, without their factors of two. */
  method OddCopy(x: BigInt, c: BigInt, ghost v: nat) returns (k: nat, ghost once: bool)
    requires x.Valid() && x.Trimmed() && x.Mag() == v >= 1 && c.Valid() && x.n <= c.cap && c.buf != x.buf
    modifies c, c.buf
    ensures Holds(c, OddPart(v)) && k == Ctz(v) && (once <==> Ctz(v) < 64)
  {
    c.Copy(x);
    c.sign := 1;
    k, once := StripTwos(c, v);
  }

  /** The result fits wherever the larger operand does: it divides both. */
  lemma GcdFits(g: int, u: nat, v: nat, n: nat)
    requires IsGcd(g, u, v) && 1 <= u < Pow(B, n)
    ensures g < Pow(B, n) && g != 0
  {
    DivisorBound(g, u);
    NoZeroDivisor(u);
  }

  lemma NoZeroDivisor(u: nat)
    ensures Divides(0, u) ==> u == 0
  {
    if Divides(0, u) {
      var q: int :| DividesBy(0, u, q);
    }
  }

  /** res becomes the greatest common divisor of the two magnitudes, with a positive sign whatever those
      of the operands; beside a zero it is the other operand, sign and all. The arena ends where it was,
      and the call succeeds whenever two copies of the longer operand fit. Every shift is a single
      call, as in the source, exactly when all the counts are below 64. */
  method Stein(res: BigInt, u: BigInt, v: BigInt, arena: Arena) returns (ok: bool, ghost once: bool)
    requires res.Valid() && u.Valid() && v.Valid() && u.Trimmed() && v.Trimmed()
    requires res.Apart(u) && res.Apart(v) && Max(u.n, v.n) <= res.cap
    modifies res, res.buf, arena
    ensures arena.offset == old(arena.offset) && res.Valid()
    ensures ok ==> res.Trimmed() && IsGcd(res.Mag(), old(u.Mag()), old(v.Mag()))
    ensures ok && old(u.n) > 0 && old(v.n) > 0 ==> res.Int() == res.Mag() >= 1 && res.sign == 1
    ensures old(u.n) == 0 ==> ok && res.Int() == old(v.Int()) && res.n == old(v.n)
    ensures old(v.n) == 0 ==> ok && res.Int() == old(u.Int()) && res.n == old(u.n)
    ensures ok && res.n == 0 ==> res.sign == 1
    ensures ok ==> (once <==> ShortCounts(old(u.Mag()), old(v.Mag())))
    ensures old(arena.offset) + 2 * Max(old(u.n), old(v.n)) <= arena.cap ==> ok
  {
    if u.n == 0 {
      GcdZero(v.Mag());
      res.Copy(v);
      return true, true;
    } else if v.n == 0 {
      GcdZero(u.Mag());
      res.Copy(u);
      return true, true;
    }
    var mark := arena.Mark();
    ok, once := CopyAndReduce(res, u, v, arena);
    arena.Rewind(mark);
  }

  method CopyAndReduce(res: BigInt, u: BigInt, v: BigInt, arena: Arena) returns (ok: bool, ghost once: bool)
    requires res.Valid() && u.Valid() && v.Valid() && u.Trimmed() && v.Trimmed() && u.n > 0 && v.n > 0
    requires Max(u.n, v.n) <= res.cap
    modifies res, res.buf, arena
    ensures arena.offset >= old(arena.offset) && res.Valid()
    ensures ok ==> res.Trimmed() && res.sign == 1 && res.Mag() >= 1 && IsGcd(res.Mag(), old(u.Mag()), old(v.Mag()))
    ensures ok ==> (once <==> ShortCounts(old(u.Mag()), old(v.Mag())))
    ensures old(arena.offset) + 2 * Max(old(u.n), old(v.n)) <= arena.cap ==> ok
  {
    var size := Max(u.n, v.n);
    var ok1, ok2, x, y;
    ok1, x := arena.Temp(size);
    ok2, y := arena.Temp(size);
    ok := ok1 && ok2;
    once := true;
    if ok {
      once := Odds(res, x, y, u, v);
    }
  }

  method Odds(res: BigInt, x: BigInt, y: BigInt, u: BigInt, v: BigInt) returns (ghost once: bool)
    requires res.Valid() && u.Valid() && v.Valid() && u.Trimmed() && v.Trimmed() && u.n > 0 && v.n > 0
    requires x.Valid() && y.Valid() && x.cap == y.cap == Max(u.n, v.n) <= res.cap
    requires x.buf != y.buf && x.buf != u.buf && x.buf != v.buf && y.buf != u.buf && y.buf != v.buf
    requires x.buf != res.buf && y.buf != res.buf
    modifies res, res.buf, x, x.buf, y, y.buf
    ensures res.Valid() && res.Trimmed() && res.sign == 1 && res.Mag() >= 1
    ensures IsGcd(res.Mag(), old(u.Mag()), old(v.Mag()))
    ensures once <==> ShortCounts(old(u.Mag()), old(v.Mag()))
  {
    ghost var a, b := u.Mag(), v.Mag();
    TrimBound(u.Limbs());
    TrimBound(v.Limbs());
    PowPos(B, u.n - 1);
    PowPos(B, v.n - 1);
    PowMono(B, u.n, x.cap);
    var i, j;
    ghost var once1, once2;
    i, once1 := OddCopy(u, x, a);
    j, once2 := OddCopy(v, y, b);
    var k := Min(i, j);
    ghost var all := KeptStart(a, b);
    var w;
    ghost var g;
    w, g, once := Reduce(x, y, OddPart(a), OddPart(b), k, a, b, all);
    once := once1 && once2 && once;
    GcdFits(Pow(2, k) * g, a, b, x.cap);
    ShiftUp(w, k, g);
    ValBound(w.Limbs());
    TrimFits(w.Limbs(), w.cap);
    res.Copy(w);
  }
}
