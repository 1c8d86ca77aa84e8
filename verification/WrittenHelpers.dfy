/** The limb loops of the ring helpers, and a butterfly of them, against what WrittenRing says they
    compute. The modulus has whole limbs, n = 64 q, and so do the twiddles; an element has q + 1 limbs
    beside a length field, which the routines do not always keep. */
module WrittenHelpers {
  import opened Arith
  import opened Limbs
  import opened Intrinsics
  import opened CarryChain
  import opened BigInts
  import opened SignMagnitude
  import opened Products
  import opened Correction
  import opened FermatRing
  import opened Polynomials
  import opened BitReversal
  import opened Network
  import opened Fft
  import opened WrittenRing

  /** The number in all q + 1 limbs of an element, whatever its length. */
  ghost predicate Raw(x: BigInt, q: nat, v: int)
    reads x, x.buf
  {
    x.Valid() && x.cap >= q + 1 && v == ValN(x.Phys(), q + 1)
  }

  // ------------------------------------------------------------------ addition

  /** The limbs from `i` on are untouched, and the flag has seen the ones below. */
  ghost predicate Flagged(p: seq<Limb>, r: seq<Limb>, i: nat, flag: bool) {
    && |p| == |r|
    && (forall j :: i <= j < |r| ==> p[j] == r[j])
    && (!flag ==> forall j :: 0 <= j < i && j < |p| ==> p[j] % 256 == 0)
  }

  /** One limb of the addition, and the flag that gathers the low bytes written. */
  method AddStepFlag(out: BigInt, a: BigInt, b: BigInt, i: nat, carry: nat, flag: bool, ghost x: seq<Limb>,
                     ghost y: seq<Limb>, ghost r: seq<Limb>)
    returns (carryOut: nat, flagOut: bool)
    requires out.Valid() && a.Valid() && b.Valid() && out.buf != a.buf && out.buf != b.buf && i < out.cap
    requires a.Limbs() == x && b.Limbs() == y && Added(out.Phys(), x, y, i, carry) && Flagged(out.Phys(), r, i, flag)
    modifies out.buf
    ensures Added(out.Phys(), x, y, i + 1, carryOut) && Flagged(out.Phys(), r, i + 1, flagOut)
  {
    var u := a.Get(i, x);
    var v := b.Get(i, y);
    ghost var p := out.Phys();
    var s;
    s, carryOut := AddLimb(u, v, carry);
    out.Put(i, s);
    AddStep(p, x, y, i, carry, s, carryOut);
    flagOut := flag || s % 256 != 0;
  }

  /** The loop over the limbs of the longer operand. */
  method AddCovered(out: BigInt, a: BigInt, b: BigInt, q: nat) returns (flag: bool)
    requires out.Valid() && a.Valid() && b.Valid() && out.buf != a.buf && out.buf != b.buf
    requires a.Trimmed() && b.Trimmed() && Max(a.n, b.n) <= q + 1 <= out.cap
    requires forall j :: Max(a.n, b.n) <= j < q + 1 ==> out.Phys()[j] == 0
    modifies out.buf
    ensures ValN(out.Phys(), q + 1) == CoveredSum(a.Mag(), b.Mag())
    ensures out.Phys()[q] % 2 == 1 ==> flag
  {
    ghost var x, y, r := a.Limbs(), b.Limbs(), out.Phys();
    var max := Max(a.n, b.n);
    var carry: nat := 0;
    flag := false;
    for i := 0 to max
      modifies out.buf
      invariant Added(out.Phys(), x, y, i, carry) && Flagged(out.Phys(), r, i, flag)
    {
      carry, flag := AddStepFlag(out, a, b, i, carry, flag, x, y, r);
    }
    CoveredLimbs(out.Phys(), x, y, max, carry, q, r);
    FlagSawTop(out.Phys(), r, max, flag, q);
  }

  lemma FlagSawTop(p: seq<Limb>, r: seq<Limb>, max: nat, flag: bool, q: nat)
    requires Flagged(p, r, max, flag) && max <= q + 1 <= |r| && forall j :: max <= j < q + 1 ==> r[j] == 0
    ensures p[q] % 2 == 1 ==> flag
  {
    LowByte(p[q]);
    if max <= q {
      assert p[q] == r[q];
    }
  }

  lemma LowByte(x: nat)
    ensures x % 256 == 0 ==> x % 2 == 0
  {
    assert x % 256 == 0 ==> x == 2 * (128 * (x / 256));
  }

  lemma CoveredLimbs(r: seq<Limb>, x: seq<Limb>, y: seq<Limb>, max: nat, c: nat, q: nat,
                     r0: seq<Limb>)
    requires Added(r, x, y, max, c) && Trim(x) && Trim(y) && max == Max(|x|, |y|) && max <= q + 1 <= |r| == |r0|
    requires forall j :: max <= j < q + 1 ==> r[j] == r0[j] == 0
    ensures 0 <= Val(x) && 0 <= Val(y) && ValN(r, q + 1) == CoveredSum(Val(x), Val(y))
  {
    ValBound(x);
    ValBound(y);
    ValExtend(x, max);
    ValExtend(y, max);
    ValNZeros(r, max, q + 1);
    ValNBound(r, max);
    TrimmedCount(x);
    TrimmedCount(y);
    ShlPow(c, max);
    DivModUnique(Val(x) + Val(y), Pow(B, max), c, ValN(r, max));
  }

  /** Takes one away, borrowing limb by limb. */
  method Decrement(out: BigInt, q: nat, ghost v: int)
    requires Raw(out, q, v)
    modifies out.buf
    ensures Raw(out, q, if v == 0 then Pow(B, q + 1) - 1 else v - 1)
  {
    ghost var r := out.Phys();
    var i: nat, borrow: nat := 0, 1;
    assert Lowered(out.Phys(), r, 0, 1) by {
      assert Shl(1, 0) == 1;
    }
    while i < q + 1 && borrow != 0
      modifies out.buf
      invariant i <= q + 1 && Lowered(out.Phys(), r, i, borrow)
      invariant forall j :: i <= j < out.cap ==> out.Phys()[j] == r[j]
    {
      ghost var p := out.Phys();
      var prev := out.buf[out.off + i];
      assert prev == p[i] == r[i];
      var limb := (prev - borrow) % B;
      out.Put(i, limb);
      var next: nat := Flag(limb > prev);
      LowerStep(p, r, i, limb, next);
      borrow := next;
      i := i + 1;
    }
    LowerDone(out.Phys(), r, i, borrow, q);
  }

  /** One taken away from the `i` low limbs, with borrow `c` out of them. */
  ghost predicate Lowered(r: seq<Limb>, r0: seq<Limb>, i: nat, c: nat) {
    |r| == |r0| && c <= 1 && ValN(r, i) - Shl(c, i) == ValN(r0, i) - 1
  }

  lemma LowerStep(r: seq<Limb>, r0: seq<Limb>, i: nat, s: Limb, c: nat)
    requires Lowered(r, r0, i, 1) && i < |r| && c <= 1 && s + 1 == r0[i] + c * B
    ensures Lowered(r[i := s], r0, i + 1, c)
  {
    ValNUpdate(r, i, s);
    ShlAdd(s, 1, i);
    ShlAdd(r0[i], c * B, i);
    ShlUp(c, i);
  }

  lemma LowerDone(r: seq<Limb>, r0: seq<Limb>, i: nat, c: nat, q: nat)
    requires Lowered(r, r0, i, c) && i <= q + 1 <= |r| && (i == q + 1 || c == 0)
    requires forall j :: i <= j < |r| ==> r[j] == r0[j]
    ensures ValN(r, q + 1) == if ValN(r0, q + 1) == 0 then Pow(B, q + 1) - 1 else ValN(r0, q + 1) - 1
  {
    ValNTail(r, r0, i, q + 1);
    ShlZero(i);
    ShlOne(i);
    ValNBound(r, q + 1);
    ValNBound(r0, q + 1);
  }

  /** Addition in the ring, as written. */
  method AddRing(out: BigInt, a: BigInt, b: BigInt, q: nat)
    requires out.Valid() && a.Valid() && b.Valid() && out.buf != a.buf && out.buf != b.buf
    requires a.Trimmed() && b.Trimmed() && Max(a.n, b.n) <= q + 1 <= out.cap
    requires forall j :: Max(a.n, b.n) <= j < q + 1 ==> out.Phys()[j] == 0
    modifies out.buf
    ensures Raw(out, q, WrittenAdd(a.Mag(), b.Mag(), q))
  {
    var flag := AddCovered(out, a, b, q);
    ghost var s := CoveredSum(a.Mag(), b.Mag());
    var top := out.buf[out.off + q];
    assert top == out.Phys()[q];
    TopLimbDigit(out.Phys(), q, s);
    if top % 2 == 1 && flag {
      ghost var r := out.Phys();
      out.Put(q, top - 1);
      BitCleared(r, q, top);
      Decrement(out, q, s - Pow(B, q));
    }
    ModulusLimbs(q);
  }

  lemma TopLimbDigit(r: seq<Limb>, q: nat, s: nat)
    requires q < |r| && s == ValN(r, q + 1)
    ensures TopDigit(s, q) == r[q] && (r[q] > 0 ==> s >= Pow(B, q))
  {
    ModulusLimbs(q);
    ValNBound(r, q);
    ShlPow(r[q], q);
    DivModUnique(s, Pow(B, q), r[q], ValN(r, q));
    LimbWeight(r[q], q);
  }

  lemma BitCleared(r: seq<Limb>, q: nat, top: Limb)
    requires q < |r| && r[q] == top && top > 0
    ensures ValN(r[q := top - 1], q + 1) == ValN(r, q + 1) - Pow(B, q)
  {
    ValNUpdate(r, q, top - 1);
    ShlAdd(top - 1, 1, q);
    ShlOne(q);
  }

  // ------------------------------------------------------------------ subtraction and negation

  /** The limbs the loop subtracts from: zero but for a one at place q. */
  ghost function TopOne(q: nat): (s: seq<Limb>)
    ensures |s| == q + 1
  {
    seq(q, _ => 0) + [1]
  }

  lemma TopOneValue(q: nat)
    ensures ValN(TopOne(q), q + 1) == Pow(B, q)
  {
    ValNZeros(TopOne(q), 0, q);
    ShlOne(q);
  }

  /** One limb of the complement: read before it is overwritten. */
  method ComplementStep(out: BigInt, q: nat, i: nat, borrow: nat, top: nat, ghost y: seq<Limb>)
    returns (borrowOut: nat, topOut: nat)
    requires out.Valid() && 1 <= q && i <= q < out.cap && out.Unread(y, i)
    requires Subtracted(out.Phys(), TopOne(q), y, i, borrow, top)
    modifies out.buf
    ensures out.Unread(y, i + 1) && Subtracted(out.Phys(), TopOne(q), y, i + 1, borrowOut, topOut)
  {
    ghost var p := out.Phys();
    var v := out.Get(i, y);
    var curr: Limb := if i == 0 then 0 else if i == q then 1 else 0;
    assert curr == At(TopOne(q), i);
    var limb;
    limb, borrowOut := SubLimb(curr, v, borrow);
    out.Put(i, limb);
    SubStep(p, TopOne(q), y, i, borrow, top, limb, borrowOut);
    topOut := if limb != 0 then i + 1 else top;
  }

  /** 2^n less the magnitude, into all q + 1 limbs; the length becomes the place of the highest limb. */
  method Complement(out: BigInt, q: nat, ghost m: nat)
    requires out.Valid() && 1 <= q < out.cap && out.n <= q + 1 && out.Mag() == m <= Pow(B, q)
    modifies out, out.buf
    ensures Raw(out, q, Pow(B, q) - m) && out.sign == 1 && out.n <= q + 1
    ensures Raw(out, q, WrittenNegate(m, 64 * q))
    ensures out.Mag() == WithoutTop(Pow(B, q) - m)
  {
    ghost var y := out.Limbs();
    var borrow: nat, top: nat := 0, 0;
    for i := 0 to q + 1
      modifies out.buf
      invariant out.Unread(y, i) && Subtracted(out.Phys(), TopOne(q), y, i, borrow, top)
    {
      borrow, top := ComplementStep(out, q, i, borrow, top, y);
    }
    Complemented(out.Phys(), y, q, borrow, top, m);
    ModulusLimbs(q);
    out.SetLen(if top == 0 then 0 else top - 1);
    ValPrefix(out.Phys(), out.n);
    out.sign := 1;
  }

  lemma Complemented(r: seq<Limb>, y: seq<Limb>, q: nat, c: nat, top: nat, m: nat)
    requires Subtracted(r, TopOne(q), y, q + 1, c, top) && |y| <= q + 1 && Val(y) == m <= Pow(B, q)
    ensures ValN(r, q + 1) == Pow(B, q) - m
    ensures ValN(r, if top == 0 then 0 else top - 1) == WithoutTop(Pow(B, q) - m)
  {
    TopOneValue(q);
    ValExtend(y, q + 1);
    ValNBound(r, q + 1);
    ShlZero(q + 1);
    ShlOne(q + 1);
    if top > 0 {
      BelowTop(r, top);
    }
  }

  lemma BelowTop(r: seq<Limb>, top: nat)
    requires 0 < top <= |r| && r[top - 1] != 0
    ensures 0 <= ValN(r, top) && WithoutTop(ValN(r, top)) == ValN(r, top - 1)
  {
    var p := Pow(B, top - 1);
    ValPrefix(r, top);
    TrimmedCount(r[..top]);
    ValNBound(r, top - 1);
    ShlPow(r[top - 1], top - 1);
    LimbWeight(r[top - 1], top - 1);
    PowPos(B, top - 1);
    DivModUnique(ValN(r, top), p, r[top - 1], ValN(r, top - 1));
  }

  /** Subtraction in the ring, as written. The second operand may be longer than it needs to be, as
      the upper part of a shifted element is. */
  method SubRing(out: BigInt, a: BigInt, b: BigInt, q: nat, ghost x: nat, ghost y: nat)
    requires out.Valid() && a.Valid() && b.Valid() && out.Apart(a) && out.Apart(b) && a.sign == b.sign == 1
    requires 1 <= q < out.cap && Max(a.n, b.n) <= q + 1 && a.Mag() == x && b.Mag() == y && y - x <= Pow(B, q)
    requires SameOrder(a.Limbs(), b.Limbs()) || a.n > b.n > 0
    modifies out, out.buf
    ensures out.Valid() && out.sign == 1 && out.n <= q + 1
    ensures y - x <= Pow(2, 64 * q)
    ensures old(SameOrder(a.Limbs(), b.Limbs())) ==> out.Mag() == ReadDifference(x, y, 64 * q)
    ensures old(SameOrder(a.Limbs(), b.Limbs())) && x < y ==> Raw(out, q, WrittenSub(x, y, 64 * q))
    ensures !old(SameOrder(a.Limbs(), b.Limbs())) ==> out.Mag() == Wrapped(x - y, old(a.n))
  {
    ModulusLimbs(q);
    NothingBelow(q);
    SubSaw(out, a, b);
    if out.sign < 0 {
      ghost var m := out.Mag();
      Complement(out, q, m);
    }
  }

  /** A zero with a negative sign becomes 2^n, of which nothing is read. */
  lemma NothingBelow(q: nat)
    ensures Pow(B, q) >= 1 && WithoutTop(Pow(B, q)) == 0
  {
    LimbCountOfPower(q);
    DivModUnique(Pow(B, q), Pow(B, q), 1, 0);
  }

  // ------------------------------------------------------------------ shifts

  /** Copies limbs from one buffer to another, whatever the lengths. */
  method CopyLimbs(dst: BigInt, src: BigInt, from: nat, count: nat)
    requires dst.Valid() && src.Valid() && dst.buf != src.buf && count <= dst.cap && from + count <= src.cap
    modifies dst.buf
    ensures dst.Phys()[..count] == src.Phys()[from..from + count]
  {
    ghost var p := src.Phys();
    for i := 0 to count
      modifies dst.buf
      invariant src.Phys() == p && forall j :: 0 <= j < i ==> dst.Phys()[j] == p[from + j]
    {
      var x := src.buf[src.off + from + i];
      assert x == p[from + i];
      dst.Put(i, x);
    }
    assert dst.Phys()[..count] == p[from..from + count];
  }

  /** Moves a number up by whole limbs, and trims it. Nothing happens to an empty one, or by zero
      limbs. */
  method LimbShift(c: BigInt, r: nat)
    requires c.Valid() && c.sign == 1 && c.n + r <= c.cap
    modifies c`n, c`sign, c.buf
    ensures c.Valid() && c.sign == 1 && c.Mag() == old(c.Mag()) * Pow(B, r) && c.n <= old(c.n) + r
    ensures old(c.n) > 0 && r > 0 ==> c.Trimmed()
    ensures r == 0 ==> c.Limbs() == old(c.Limbs())
  {
    ghost var s := c.Limbs();
    if c.n == 0 || r == 0 {
      assert Pow(B, 0) == 1 && 0 * Pow(B, r) == 0;
      return;
    }
    MoveUp(c, r, s);
    MovedValue(c.Phys(), s, r);
    c.SetLen(c.n + r);
    c.TrimLz();
  }

  lemma MovedValue(p: seq<Limb>, s: seq<Limb>, r: nat)
    requires |s| + r <= |p| && p[r..r + |s|] == s && forall j :: 0 <= j < r ==> p[j] == 0
    ensures Val(p[..|s| + r]) == Val(s) * Pow(B, r)
  {
    var t := p[..|s| + r];
    ValCut(t, r);
    ValNZeros(t[..r], 0, r);
    assert t[r..] == s;
    ShlPow(Val(s), r);
  }

  /** The two parts of an element, cut at limb k. */
  lemma CutElement(p: seq<Limb>, k: nat, q: nat, lo: seq<Limb>, hi: seq<Limb>, x: nat)
    requires k <= q < |p| && lo == p[..k] && hi == p[k..q + 1] && x == ValN(p, q + 1)
    ensures Pow(B, k) > 0 && Val(lo) == x % Pow(B, k) && Val(hi) == x / Pow(B, k) && |hi| == q + 1 - k
  {
    var t := p[..q + 1];
    ValPrefix(p, q + 1);
    ValCut(t, k);
    assert t[..k] == lo && t[k..] == hi;
    ValBound(lo);
    ValBound(hi);
    ShlPow(Val(hi), k);
    PowPos(B, k);
    DivModUnique(x, Pow(B, k), Val(hi), Val(lo));
  }

  /** Shifting by zero bits copies the limbs and leaves the length alone. */
  method CopyShift(out: BigInt, x: BigInt, q: nat, ghost v: nat)
    requires out.Valid() && out.n <= q + 1 <= out.cap && out.buf != x.buf && Raw(x, q, v) && q >= 1
    modifies out.buf
    ensures out.Mag() == ShiftRead(v, 0, q, out.n)
  {
    CopyLimbs(out, x, 0, q + 1);
    PrefixRemainder(x.Phys(), out.n, q + 1, v);
    SamePrefix(out.Phys(), x.Phys(), out.n, q + 1);
  }

  lemma SamePrefix(p: seq<Limb>, r: seq<Limb>, i: nat, k: nat)
    requires i <= k <= |p| && k <= |r| && p[..k] == r[0..k]
    ensures Val(p[..i]) == ValN(r, i)
  {
    assert p[..i] == p[..k][..i] == r[..i];
    ValPrefix(r, i);
  }

  lemma PrefixRemainder(p: seq<Limb>, i: nat, k: nat, v: nat)
    requires i <= k <= |p| && v == ValN(p, k)
    ensures Pow(B, i) > 0 && v % Pow(B, i) == ValN(p, i)
  {
    PowPos(B, i);
    ValSplit(p, i, k - i);
    ValNBound(p, i);
    ValNBound(p[i..], k - i);
    ShlPow(ValN(p[i..], k - i), i);
    DivModUnique(v, Pow(B, i), ValN(p[i..], k - i), ValN(p, i));
  }

  /** Cuts the element at limb k: the lower part into `out`, the upper one into `hi`, both as long as
      their places. */
  method CutLimbs(out: BigInt, hi: BigInt, x: BigInt, k: nat, q: nat, ghost v: nat)
    requires out.Valid() && hi.Valid() && out.sign == hi.sign == 1 && k <= q < Min(out.cap, hi.cap) && Raw(x, q, v)
    requires out.buf != x.buf && hi.buf != x.buf && out.buf != hi.buf
    modifies out`n, out.buf, hi`n, hi.buf
    ensures out.Valid() && hi.Valid() && out.n == k && hi.n == q + 1 - k
    ensures Pow(B, k) > 0 && out.Mag() == v % Pow(B, k) && hi.Mag() == v / Pow(B, k)
  {
    CopyLimbs(out, x, 0, k);
    CopyLimbs(hi, x, k, q + 1 - k);
    out.SetLen(k);
    hi.SetLen(q + 1 - k);
    CutElement(x.Phys(), k, q, out.Limbs(), hi.Limbs(), v);
  }

  /** The parts as the subtraction gets them, by r > 0 limbs: if the upper one is longer, the lower one
      is empty. */
  lemma PartsInOrder(low: seq<Limb>, high: seq<Limb>, v: nat, r: nat, q: nat, p: nat, a: nat, hi: nat)
    requires 1 <= r < q && InRing(v, 64 * q) && p == Pow(2, 64 * q - 64 * r) > 0 && hi == v / p
    requires a == v % p * Pow(2, 64 * r) && Val(low) == a && Val(high) == hi && Trim(low) && |high| == r + 1
    ensures SameOrder(low, high) && hi - a <= Pow(B, q)
  {
    var p', t, lo, hi', a' := Parts(v, 64 * r, 64 * q);
    ModulusLimbs(r);
    ModulusLimbs(q);
    PowMono(B, r, q);
    PartLengths(low, high, r, lo, hi, a, t);
  }

  lemma PartLengths(low: seq<Limb>, high: seq<Limb>, r: nat, lo: nat, hi: nat, a: nat, t: nat)
    requires Val(low) == a && Val(high) == hi <= t && t == Pow(B, r) && Trim(low) && |high| == r + 1
    requires (a < hi <==> lo == 0 && hi > 0) && (lo == 0 ==> a == 0) && (lo > 0 ==> t <= a)
    ensures SameOrder(low, high)
  {
    TrimmedCount(low);
    assert LimbCount(0) == 0;
    if |high| > |low| {
      ValBound(low);
      PowMono(B, |low|, r);
    }
  }

  /** The shift by s whole limbs below the period: what the next routine reads of `out`. */
  method ShiftRing(out: BigInt, x: BigInt, hi: BigInt, s: nat, q: nat, ghost v: nat)
    requires out.Valid() && hi.Valid() && out.sign == hi.sign == 1 && 2 <= q < Min(out.cap, hi.cap) && Raw(x, q, v)
    requires out.n <= q + 1 && s % 64 == 0 && s < 128 * q && (s == 0 || InRing(v, 64 * q))
    requires out.buf != x.buf && hi.buf != x.buf && out.buf != hi.buf
    modifies out, out.buf, hi, hi.buf
    ensures out.Valid() && out.sign == 1 && out.n <= q + 1 && hi.Valid() && hi.sign == 1
    ensures out.Mag() == ShiftRead(v, s, q, old(out.n))
  {
    if s == 0 {
      CopyShift(out, x, q, v);
      return;
    }
    var negate := s >= 64 * q;
    var r := LimbsOf(s, q);
    if r == 0 {
      ShiftByHalf(out, x, hi, q, v);
    } else {
      ShiftByLimbs(out, x, hi, r, q, v);
    }
    NegateEmpty(out, negate, q);
  }

  /** The limbs of a shift, reduced below the half period. */
  function LimbsOf(s: nat, q: nat): (r: nat)
    requires s < 128 * q
    ensures s % 64 == 0 ==> r < q && s == 64 * r + if s >= 64 * q then 64 * q else 0
  {
    var w := s / 64;
    if w >= q then w - q else w
  }

  /** The end of a shift: only an empty result is negated, and nothing of that is read. */
  method NegateEmpty(out: BigInt, negate: bool, q: nat)
    requires out.Valid() && out.sign == 1 && 1 <= q < out.cap && out.n <= q + 1
    modifies out, out.buf
    ensures out.Valid() && out.sign == 1 && out.n <= q + 1 && out.Mag() == old(out.Mag())
  {
    out.TrimLz();
    if negate && out.n == 0 {
      NothingBelow(q);
      Complement(out, q, 0);
    }
  }

  /** By r limbs, 0 < r < q. */
  method ShiftByLimbs(out: BigInt, x: BigInt, hi: BigInt, r: nat, q: nat, ghost v: nat)
    requires out.Valid() && hi.Valid() && out.sign == hi.sign == 1 && 1 <= r < q < Min(out.cap, hi.cap) && Raw(x, q, v)
    requires InRing(v, 64 * q) && out.buf != x.buf && hi.buf != x.buf && out.buf != hi.buf
    modifies out, out.buf, hi, hi.buf
    ensures out.Valid() && out.sign == 1 && out.n <= q + 1 && hi.Valid() && hi.sign == 1
    ensures out.Mag() == PartsRead(v, 64 * r, 64 * q)
  {
    CutLimbs(out, hi, x, q - r, q, v);
    LimbShift(out, r);
    ghost var a, h := out.Mag(), hi.Mag();
    PartsOf(v, r, q, a, h);
    PartsInOrder(out.Limbs(), hi.Limbs(), v, r, q, Pow(2, 64 * q - 64 * r), a, h);
    SubRing(out, out, hi, q, a, h);
  }

  lemma PartsOf(v: nat, r: nat, q: nat, a: nat, h: nat)
    requires 1 <= r < q && InRing(v, 64 * q) && Pow(B, q - r) > 0
    requires a == v % Pow(B, q - r) * Pow(B, r) && h == v / Pow(B, q - r)
    ensures Pow(2, 64 * q - 64 * r) > 0 && h == v / Pow(2, 64 * q - 64 * r)
    ensures a == v % Pow(2, 64 * q - 64 * r) * Pow(2, 64 * r) && h - a <= Pow(2, 64 * q)
    ensures PartsRead(v, 64 * r, 64 * q) == ReadDifference(a, h, 64 * q)
  {
    ModulusLimbs(r);
    ModulusLimbs(q - r);
    assert 64 * q - 64 * r == 64 * (q - r);
    var p, t, lo, hi, a' := Parts(v, 64 * r, 64 * q);
    PowMono(2, 64 * r, 64 * q);
  }

  /** By half the period: the lower part stays where it is, untrimmed. */
  method ShiftByHalf(out: BigInt, x: BigInt, hi: BigInt, q: nat, ghost v: nat)
    requires out.Valid() && hi.Valid() && out.sign == hi.sign == 1 && 2 <= q < Min(out.cap, hi.cap) && Raw(x, q, v)
    requires InRing(v, 64 * q) && out.buf != x.buf && hi.buf != x.buf && out.buf != hi.buf
    modifies out, out.buf, hi, hi.buf
    ensures out.Valid() && out.sign == 1 && out.n <= q + 1 && hi.Valid() && hi.sign == 1
    ensures out.Mag() == ShiftRead(v, 64 * q, q, 0)
  {
    CutLimbs(out, hi, x, q, q, v);
    ModulusLimbs(q);
    if v == Pow(B, q) {
      DivModUnique(v, Pow(B, q), 1, 0);
    } else {
      DivModUnique(v, Pow(B, q), 0, v);
    }
    SubRing(out, out, hi, q, out.Mag(), hi.Mag());
  }

  // ------------------------------------------------------------------ butterflies

  /** The limbs at and above the trimmed length are zero. */
  lemma {:induction false} ZerosAbove(p: seq<Limb>, i: nat, k: nat)
    requires i <= k <= |p| && ValN(p, i) == ValN(p, k)
    ensures forall j :: i <= j < k ==> p[j] == 0
  {
    if i < k {
      ValNMono(p, i, k - 1);
      LimbWeight(p[k - 1], k - 1);
      PowPos(B, k - 1);
      ZerosAbove(p, i, k - 1);
    }
  }

  /** The upper input, saved and trimmed. */
  method Save(usave: BigInt, u: BigInt, q: nat, ghost x: nat)
    requires usave.Valid() && usave.sign == 1 && q + 1 <= usave.cap && usave.buf != u.buf && Raw(u, q, x)
    modifies usave, usave.buf
    ensures Holds(usave, x) && usave.n <= q + 1
    ensures forall j :: usave.n <= j < q + 1 ==> u.Phys()[j] == 0
  {
    CopyLimbs(usave, u, 0, q + 1);
    usave.SetLen(q + 1);
    SamePrefix(usave.Phys(), u.Phys(), q + 1, q + 1);
    usave.TrimLz();
    SamePrefix(usave.Phys(), u.Phys(), usave.n, q + 1);
    ZerosAbove(u.Phys(), usave.n, q + 1);
  }

  /** One butterfly as written, in either direction: `shared` is the buffer for the shifted input. What
      the upper output holds in all its limbs, and what is read of the lower one by its length. */
  method ButterflyWritten(u: BigInt, v: BigInt, shared: BigInt, usave: BigInt, hi: BigInt, s: nat, q: nat,
                          ghost x: nat, ghost y: nat)
    returns (ghost t: nat)
    requires Raw(u, q, x) && Raw(v, q, y) && shared.Valid() && usave.Valid() && hi.Valid() && q >= 2
    requires shared.sign == usave.sign == hi.sign == 1 && q < Min(Min(shared.cap, usave.cap), hi.cap)
    requires shared.n <= q + 1 && s % 64 == 0 && s < 128 * q
    requires InRing(y, 64 * q) || (s == 0 && shared.n == 0)
    requires Distinct(u, v, shared, usave, hi)
    modifies u, u.buf, v, v.buf, shared, shared.buf, usave, usave.buf, hi, hi.buf
    ensures t == ShiftRead(y, s, q, old(shared.n)) && t - x <= Pow(2, 64 * q)
    ensures Raw(u, q, WrittenAdd(x, t, q)) && u.n == old(u.n)
    ensures v.Valid() && v.Mag() == ReadDifference(x, t, 64 * q)
    ensures Holds(shared, t) && shared.n <= q + 1
    ensures usave.Valid() && usave.sign == 1 && hi.Valid() && hi.sign == 1
  {
    ShiftRing(shared, v, hi, s, q, y);
    shared.TrimLz();
    t := shared.Mag();
    ReadBelow(y, s, q, old(shared.n));
    ModulusLimbs(q);
    Save(usave, u, q, x);
    AddRing(u, usave, shared, q);
    TrimmedSameOrder(usave.Limbs(), shared.Limbs());
    SubRing(v, usave, shared, q, x, t);
  }

  ghost predicate Distinct(u: BigInt, v: BigInt, shared: BigInt, usave: BigInt, hi: BigInt) {
    && u.buf != v.buf && u.buf != shared.buf && u.buf != usave.buf && u.buf != hi.buf
    && v.buf != shared.buf && v.buf != usave.buf && v.buf != hi.buf
    && shared.buf != usave.buf && shared.buf != hi.buf && usave.buf != hi.buf
  }

  lemma ReadBelow(y: nat, s: nat, q: nat, len: nat)
    requires q >= 1 && s < 128 * q && (InRing(y, 64 * q) || (s == 0 && len == 0))
    ensures ShiftRead(y, s, q, len) <= Pow(2, 64 * q)
  {
    if InRing(y, 64 * q) {
      ShiftReadInRing(y, s, q, len);
    } else {
      PowPos(2, 64 * q);
      assert Pow(B, 0) == 1 && y % 1 == 0;
    }
  }

  // ------------------------------------------------------------------ the first pass, and small transforms

  /** A butterfly of the first pass, where the shared buffer has no length yet: both outputs are the
      upper input, and the buffer is left without a length. */
  method FirstPassButterfly(u: BigInt, v: BigInt, shared: BigInt, usave: BigInt, hi: BigInt, q: nat, ghost x: nat,
                            ghost y: nat)
    requires Raw(u, q, x) && Raw(v, q, y) && shared.Valid() && usave.Valid() && hi.Valid() && q >= 2
    requires shared.sign == usave.sign == hi.sign == 1 && q < Min(Min(shared.cap, usave.cap), hi.cap)
    requires shared.n == 0 && Distinct(u, v, shared, usave, hi)
    modifies u, u.buf, v, v.buf, shared, shared.buf, usave, usave.buf, hi, hi.buf
    ensures Raw(u, q, WrittenAdd(x, 0, q)) && u.n == old(u.n) && v.Valid() && v.Mag() == x
    ensures shared.Valid() && shared.n == 0 && shared.sign == 1
    ensures usave.Valid() && usave.sign == 1 && hi.Valid() && hi.sign == 1
  {
    ghost var t := ButterflyWritten(u, v, shared, usave, hi, 0, q, x, y);
    assert Pow(B, 0) == 1 && y % 1 == 0;
    TrimmedCount(shared.Limbs());
    assert LimbCount(0) == 0;
  }

  /** A transform of two elements: right if and only if the second is zero and the first is not 2^n. */
  method TwoPointsWritten(u: BigInt, v: BigInt, shared: BigInt, usave: BigInt, hi: BigInt, q: nat, ghost x: nat,
                          ghost y: nat)
    returns (ghost r0: nat, ghost r1: nat)
    requires Raw(u, q, x) && Raw(v, q, y) && shared.Valid() && usave.Valid() && hi.Valid() && q >= 2
    requires shared.sign == usave.sign == hi.sign == 1 && q < Min(Min(shared.cap, usave.cap), hi.cap)
    requires shared.n == 0 && Distinct(u, v, shared, usave, hi) && InRing(x, 64 * q) && InRing(y, 64 * q)
    modifies u, u.buf, v, v.buf, shared, shared.buf, usave, usave.buf, hi, hi.buf
    ensures Raw(u, q, r0) && v.Valid() && v.Mag() == r1 && Pow(2, 1) == 2
    ensures [r0, r1] == Transform([x, y], 1, 64 * q, false) <==> y == 0 && x < Pow(2, 64 * q)
  {
    FirstPassButterfly(u, v, shared, usave, hi, q, x, y);
    r0, r1 := WrittenAdd(x, 0, q), x;
    TwoPoints(x, y, q);
    TransformOfTwo(x, y, 64 * q);
  }

  lemma TransformOfTwo(x: int, y: int, n: nat)
    requires n >= 1 && InRing(x, n) && InRing(y, n)
    ensures Pow(2, 1) == 2 && Transform([x, y], 1, n, false) == [AddMod(x, y, n), SubMod(x, y, n)]
  {
    ShuffleTwo(x, y);
    NetOfTwo(x, y, n);
  }

  lemma ShuffleTwo(x: int, y: int)
    ensures Shuffle([x, y]) == [x, y]
  {
    assert Evens([x, y]) == [x] && Odds([x, y]) == [y];
    assert Shuffle([x]) == [x] && Shuffle([y]) == [y];
  }

  lemma NetOfTwo(x: int, y: int, n: nat)
    requires n >= 1 && InRing(x, n) && InRing(y, n)
    ensures Pow(2, 1) == 2 && Net(1, [x, y], n, false) == [AddMod(x, y, n), SubMod(x, y, n)]
  {
    assert Pow(2, 0) == 1 && Pow(2, 1) == 2;
    StepBound(n, 1);
    assert [x, y][..1] == [x] && [x, y][1..] == [y];
    assert Net(0, [x], n, false) == [x] && Net(0, [y], n, false) == [y];
    assert CyclicShift(y, 0, n) == y;
  }

  /** The even slots of a transform of four elements, whose places bit reversal has swapped: the
      butterfly of the odd slots, which touches neither, comes after. They are right if and only if the
      first element is not 2^n, the third is zero, and the other two add up to zero in the ring. */
  method EvenSlotsWritten(a: BigInt, b: BigInt, c: BigInt, d: BigInt, shared: BigInt, usave: BigInt, hi: BigInt, q: nat,
                          ghost x: seq<nat>)
    returns (ghost r0: nat, ghost r2: nat)
    requires |x| == 4 && Raw(a, q, x[0]) && Raw(b, q, x[2]) && Raw(c, q, x[1]) && Raw(d, q, x[3]) && AllIn(x, 64 * q)
    requires shared.Valid() && usave.Valid() && hi.Valid() && q >= 2 && q < Min(Min(shared.cap, usave.cap), hi.cap)
    requires shared.sign == usave.sign == hi.sign == 1 && shared.n == 0
    requires Distinct(a, b, shared, usave, hi) && Distinct(c, d, shared, usave, hi) && Distinct(a, c, shared, usave, hi)
    requires a.buf != d.buf && b.buf != c.buf && b.buf != d.buf
    modifies a, a.buf, b, b.buf, c, c.buf, d, d.buf, shared, shared.buf, usave, usave.buf, hi, hi.buf
    ensures Raw(a, q, r0) && c.Valid() && c.Mag() == r2 && Pow(2, 2) == 4
    ensures r0 == Transform(x, 2, 64 * q, false)[0] && r2 == Transform(x, 2, 64 * q, false)[2]
       <==> x[0] < Pow(2, 64 * q) && x[2] == 0 && (x[1] + x[3] == 0 || x[1] + x[3] == Modulus(64 * q))
  {
    FirstPassButterfly(a, b, shared, usave, hi, q, x[0], x[2]);
    FirstPassButterfly(c, d, shared, usave, hi, q, x[1], x[3]);
    ghost var first, second := WrittenAdd(x[0], 0, q), WrittenAdd(x[1], 0, q);
    FirstPassButterfly(a, c, shared, usave, hi, q, first, second);
    r0, r2 := WrittenAdd(first, 0, q), first;
    TransformOfFour(x, 64 * q);
    FourPoints(x[0], x[2], x[1], x[3], q, first, AddMod(x[0], x[2], 64 * q), AddMod(x[1], x[3], 64 * q));
  }

  lemma TransformOfFour(x: seq<int>, n: nat)
    requires n >= 1 && |x| == 4 && AllIn(x, n)
    ensures Pow(2, 2) == 4 && |Transform(x, 2, n, false)| == 4
    ensures Transform(x, 2, n, false)[0] == AddMod(AddMod(x[0], x[2], n), AddMod(x[1], x[3], n), n)
    ensures Transform(x, 2, n, false)[2] == SubMod(AddMod(x[0], x[2], n), AddMod(x[1], x[3], n), n)
  {
    var y := [x[0], x[2], x[1], x[3]];
    assert Pow(2, 1) == 2 && Pow(2, 2) == 4;
    assert Evens(x) == [x[0], x[2]] && Odds(x) == [x[1], x[3]];
    ShuffleTwo(x[0], x[2]);
    ShuffleTwo(x[1], x[3]);
    assert Shuffle(x) == y;
    NetOfTwo(x[0], x[2], n);
    NetOfTwo(x[1], x[3], n);
    assert y[..2] == [x[0], x[2]] && y[2..] == [x[1], x[3]];
    StepBound(n, 2);
    FirstPlaces([AddMod(x[0], x[2], n), SubMod(x[0], x[2], n)], [AddMod(x[1], x[3], n), SubMod(x[1], x[3], n)],
                Step(n, 2), n);
  }

  lemma FirstPlaces(e: seq<int>, o: seq<int>, step: nat, n: nat)
    requires n >= 1 && |e| == |o| >= 1 && |e| * step <= n && AllIn(e, n) && AllIn(o, n)
    ensures CombineAt(e, o, step, n, false, 0) == AddMod(e[0], o[0], n)
    ensures CombineAt(e, o, step, n, false, |e|) == SubMod(e[0], o[0], n)
  {
    assert 0 * step == 0;
    assert CyclicShift(o[0], 0, n) == o[0];
  }
}
