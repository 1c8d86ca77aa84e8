/** The two-limb division as the source writes it, on limb buffers: the recursion of Burnikel with the
    remainder's views in the order the second step receives them, and the upper quotient digit copied
    above whatever limbs the lower one has. What it leaves is what WrittenDivision is about. */
module WrittenBurnikel {
  import opened Arith
  import opened Limbs
  import opened BigInts
  import opened Workspace
  import opened Products
  import opened Burnikel
  import opened WrittenDivision

  // ------------------------------------------------------------------ the second step

  /** The three-by-two step on the remainder's views as written: the low limb for the upper part of the
      dividend, the high limb, if there is one, for the lower part. The base case puts both parts in one
      buffer, so that beside an empty view either order makes the same number. */
  method DivideSwapped(a4: BigInt, b1: BigInt, b2: BigInt, b: BigInt, q2: BigInt, r: BigInt, arena: Arena,
                       ghost g: Numbers, ghost v: nat)
    returns (ok: bool, ghost l: nat, ghost rv: nat)
    requires Divisor(b1, b2, b, 1, g.hi, g.lo, g.div) && Holds(r, v) && r.cap == 2
    requires a4.Valid() && a4.n <= 1 && a4.Mag() == g.fourth && (v == 0 || a4.n == 1)
    requires q2.Valid() && q2.cap == 4 && q2.buf != r.buf
    modifies q2, q2.buf, r, r.buf, arena
    ensures arena.offset == old(arena.offset)
    ensures ok ==> Holds(q2, l) && Holds(r, rv) && Swapped(v) * B + g.fourth == l * g.div + rv && rv < g.div
    ensures ok && v < g.div ==> l < 2 * B && l < B * B
    ensures old(arena.offset) + StepNeed(1) <= arena.cap ==> ok
  {
    var r2, r1 := Cut(r, 1);
    assert Pow(B, 0) == 1 && Pow(B, 1) == B;
    TopLimbOf(r, v);
    assert r2.n == 0 ==> r2.Limbs() == [];
    SwappedHalves(v, r2.Mag(), r1.Mag());
    DivisorRange(b1, b2, b, g.hi, g.lo, g.div);
    ValBound(a4.Limbs());
    PowMono(B, a4.n, 1);
    if r2.n == 0 {
      ok, l, rv := ThreeByTwo(r2, r1, a4, b1, b2, b, q2, r, 1, arena, Swapped(v), g.fourth, g.hi, g.lo, g.div);
    } else {
      ok, l, rv := ThreeByTwo(r1, r2, a4, b1, b2, b, q2, r, 1, arena, Swapped(v), g.fourth, g.hi, g.lo, g.div);
    }
    if ok && v < g.div {
      DigitBound(v, g.fourth, l, rv, g.div);
    }
  }

  lemma DivisorRange(b1: BigInt, b2: BigInt, b: BigInt, hi: nat, lo: nat, div: nat)
    requires Divisor(b1, b2, b, 1, hi, lo, div)
    ensures div < B * B <= 2 * div
  {
    assert Pow(B, 0) == 1 && Pow(B, 1) == B;
    NormalHolds(b1, 1, hi);
    PartBelow(b2, 1);
  }

  /** A remainder has a second limb exactly when it reaches one. */
  lemma TopLimbOf(r: BigInt, v: nat)
    requires Holds(r, v) && r.cap == 2
    ensures r.n <= 1 <==> v < B
  {
    assert Pow(B, 0) == 1 && Pow(B, 1) == B;
    if r.n == 2 {
      TrimBound(r.Limbs());
    } else {
      ValBound(r.Limbs());
      PowMono(B, r.n, 1);
    }
  }

  /** The number its views make in that order. */
  lemma SwappedHalves(v: nat, high: nat, low: nat)
    requires v == high * B + low && low < B
    ensures Swapped(v) == if v < B then low else low * B + high
    ensures v == 0 ==> Swapped(v) == 0
  {
  }

  // ------------------------------------------------------------------ both steps

  /** Both steps, and the digits joined where the code joins them: q1 copied above the limbs of q2. */
  method RunWritten(a1: BigInt, a2: BigInt, a3: BigInt, a4: BigInt, b1: BigInt, b2: BigInt, b: BigInt,
                    q1: BigInt, q2: BigInt, r: BigInt, arena: Arena, ghost g: Numbers, ghost n: nat)
    returns (ok: bool)
    requires Dividend(a1, a2, 1, g.a) && Divisor(b1, b2, b, 1, g.hi, g.lo, g.div)
    requires a3.Valid() && a3.n <= 1 && a3.Mag() == g.third && (g.a == 0 || a3.n == 1)
    requires Lowest(a4, 1, g) && Composed(g, 1) && g.div >= 1 && g.total < Pow(B, n) && n <= 4
    requires q1.Valid() && q2.Valid() && r.Valid() && q1.cap == r.cap == 2 && q2.cap == 4
    requires q1.buf != q2.buf && q1.buf != r.buf && q2.buf != r.buf
    requires q1.buf != a4.buf && q1.buf != b1.buf && q1.buf != b2.buf && q1.buf != b.buf
    requires q2.buf != a4.buf && q2.buf != b1.buf && q2.buf != b2.buf && q2.buf != b.buf
    requires r.buf != a4.buf && r.buf != b1.buf && r.buf != b2.buf && r.buf != b.buf
    modifies q1, q1.buf, q2, q2.buf, r, r.buf, arena
    ensures arena.offset == old(arena.offset)
    ensures ok ==> Holds(q2, WrittenQuotient(g.total, g.div)) && WrittenQuotient(g.total, g.div) < Pow(B, n)
    ensures old(arena.offset) + StepNeed(1) <= arena.cap ==> ok
  {
    ghost var u, v;
    ok, u, v := ThreeByTwo(a1, a2, a3, b1, b2, b, q1, r, 1, arena, g.a, g.third, g.hi, g.lo, g.div);
    if ok {
      ok := SecondWritten(a4, b1, b2, b, q1, q2, r, arena, g, u, v, n);
    }
  }

  method SecondWritten(a4: BigInt, b1: BigInt, b2: BigInt, b: BigInt, q1: BigInt, q2: BigInt, r: BigInt, arena: Arena,
                       ghost g: Numbers, ghost u: nat, ghost v: nat, ghost n: nat)
    returns (ok: bool)
    requires Divisor(b1, b2, b, 1, g.hi, g.lo, g.div) && Lowest(a4, 1, g) && Composed(g, 1) && g.div >= 1
    requires g.total < Pow(B, n) && n <= 4
    requires Holds(q1, u) && Holds(r, v) && g.a * Pow(B, 1) + g.third == u * g.div + v && v < g.div
    requires q2.Valid() && q1.cap == r.cap == 2 && q2.cap == 4 && q1.buf != q2.buf && q1.buf != r.buf && q2.buf != r.buf
    modifies q2, q2.buf, r, r.buf, arena
    ensures arena.offset == old(arena.offset)
    ensures ok ==> Holds(q2, WrittenQuotient(g.total, g.div)) && WrittenQuotient(g.total, g.div) < Pow(B, n)
    ensures old(arena.offset) + StepNeed(1) <= arena.cap ==> ok
  {
    DivisorRange(b1, b2, b, g.hi, g.lo, g.div);
    FourthPart(a4, 1, g.a, g.third, g.fourth, u, g.div, v);
    ghost var l, rv;
    ok, l, rv := DivideSwapped(a4, b1, b2, b, q2, r, arena, g, v);
    if ok {
      WrittenNumbers(g, u, v, l, rv, n);
      JoinWritten(q2, q1, u, l, WrittenQuotient(g.total, g.div));
    }
  }

  /** Copies the upper digit above the limbs of the lower one. */
  method JoinWritten(q2: BigInt, q1: BigInt, ghost u: nat, ghost l: nat, ghost joined: nat)
    requires Holds(q1, u) && Holds(q2, l) && q1.cap == 2 && q2.cap == 4 && q1.buf != q2.buf
    requires joined == Join(u, l) && l < B * B
    modifies q2, q2.buf
    ensures Holds(q2, joined)
  {
    TrimmedCount(q2.Limbs());
    assert Pow(B, 0) == 1 && Pow(B, 1) == B && Pow(B, 2) == B * B;
    TrimFits(q2.Limbs(), 2);
    PlaceUpper(q2, q1, q2.n, u, l);
  }

  /** A lower digit has at most two limbs, even from swapped halves. */
  lemma DigitBound(v: nat, low: nat, l: nat, rv: nat, div: nat)
    requires v < div && div < B * B <= 2 * div && low < B && Swapped(v) * B + low == l * div + rv
    ensures l < 2 * B
  {
    assert v / B < B && v % B < B;
    assert Swapped(v) < B * B;
    assert (2 * B) * div == B * (2 * div);
    MulMono(B * B, 2 * div, B);
    MulComm(B, B * B);
    MulComm(B, 2 * div);
    MulCancel(l, 2 * B, div);
  }

  /** The digits of the two steps are those of the written quotient. */
  lemma WrittenNumbers(g: Numbers, u: nat, v: nat, l: nat, rv: nat, n: nat)
    requires Composed(g, 1) && g.fourth < Pow(B, 1) && g.div < B * B <= 2 * g.div && g.total < Pow(B, n) && n <= 4
    requires g.a * Pow(B, 1) + g.third == u * g.div + v && v < g.div
    requires Swapped(v) * B + g.fourth == l * g.div + rv && rv < g.div
    requires l < 2 * B
    ensures 0 <= WrittenQuotient(g.total, g.div) == Join(u, l) < Pow(B, n)
  {
    assert Pow(B, 0) == 1 && Pow(B, 1) == B;
    JoinFits(g.total, g.div, n, g.a * B + g.third, g.fourth, u, v, l, rv);
    WrittenDigits(g.total, g.div, g.a * B + g.third, g.fourth, u, v, l, rv);
  }

  lemma WrittenDigits(total: nat, div: nat, top: nat, low: nat, u: nat, v: nat, l: nat, rv: nat)
    requires div >= 1 && total == top * B + low && low < B && top == u * div + v && v < div
    requires Swapped(v) * B + low == l * div + rv && rv < div
    ensures WrittenQuotient(total, div) == Join(u, l)
  {
    DivModUnique(total, B, top, low);
    DivModUnique(top, div, u, v);
    DivModUnique(Swapped(v) * B + low, div, l, rv);
  }

  // ------------------------------------------------------------------ the whole division

  /** The temporaries, and both steps. */
  method TempsWritten(a1: BigInt, a2: BigInt, a3: BigInt, a4: BigInt, b1: BigInt, b2: BigInt, b: BigInt, arena: Arena,
                      ghost g: Numbers, ghost n: nat)
    returns (ok: bool, q2: BigInt)
    requires Dividend(a1, a2, 1, g.a) && Divisor(b1, b2, b, 1, g.hi, g.lo, g.div)
    requires a3.Valid() && a3.n <= 1 && a3.Mag() == g.third && (g.a == 0 || a3.n == 1)
    requires Lowest(a4, 1, g) && Composed(g, 1) && g.div >= 1 && g.total < Pow(B, n) && n <= 4
    modifies arena
    ensures arena.offset >= old(arena.offset) && fresh(q2) && fresh(q2.buf)
    ensures ok ==> Holds(q2, WrittenQuotient(g.total, g.div)) && WrittenQuotient(g.total, g.div) < Pow(B, n)
    ensures old(arena.offset) + 8 + StepNeed(1) <= arena.cap ==> ok
  {
    var ok1, ok2, ok3, q1, r;
    ok1, q1 := arena.Temp(2);
    ok2, q2 := arena.Temp(4);
    ok3, r := arena.Temp(2);
    ok := ok1 && ok2 && ok3;
    if ok {
      ok := RunWritten(a1, a2, a3, a4, b1, b2, b, q1, q2, r, arena, g, n);
    }
  }

  /** The halves of the divisor. */
  method PartsWritten(a1: BigInt, a2: BigInt, a3: BigInt, a4: BigInt, y: BigInt, arena: Arena, ghost a: nat,
                      ghost third: nat, ghost fourth: nat, ghost div: nat, ghost total: nat, ghost n: nat)
    returns (ok: bool, q2: BigInt)
    requires Dividend(a1, a2, 1, a) && Normal(y, 2, div)
    requires a3.Valid() && a3.n <= 1 && a3.Mag() == third && (a == 0 || a3.n == 1)
    requires a4.Valid() && a4.n <= 1 && a4.Mag() == fourth && ((a == 0 && third == 0) || a4.n == 1)
    requires total == (a * Pow(B, 1) + third) * Pow(B, 1) + fourth && total < Pow(B, n) && n <= 4
    modifies arena
    ensures arena.offset >= old(arena.offset) && fresh(q2) && fresh(q2.buf)
    ensures ok ==> div >= 1 && Holds(q2, WrittenQuotient(total, div)) && WrittenQuotient(total, div) < Pow(B, n)
    ensures old(arena.offset) + DivisionNeed(2) <= arena.cap ==> ok
  {
    ghost var hi, lo;
    var b1, b2;
    b1, b2, hi, lo := CutDivisor(y, 1, div);
    NormalHolds(y, 2, div);
    ghost var g := Numbers(a, third, fourth, hi, lo, div, total);
    ok, q2 := TempsWritten(a1, a2, a3, a4, b1, b2, y, arena, g, n);
  }

  /** The quarters of the dividend. */
  method QuartersWritten(x: BigInt, y: BigInt, arena: Arena, ghost a: nat, ghost div: nat, ghost n: nat)
    returns (ok: bool, q2: BigInt)
    requires Holds(x, a) && x.n <= 4 && Normal(y, 2, div) && a < Pow(B, n) && n <= 4
    modifies arena
    ensures arena.offset >= old(arena.offset) && fresh(q2) && fresh(q2.buf)
    ensures ok ==> div >= 1 && Holds(q2, WrittenQuotient(a, div)) && WrittenQuotient(a, div) < Pow(B, n)
    ensures old(arena.offset) + DivisionNeed(2) <= arena.cap ==> ok
  {
    var ah, al := Cut(x, 2);
    var a1, a2 := Cut(ah, 1);
    ghost var third, fourth;
    var a3, a4;
    a3, a4, third, fourth := CutLow(ah, al, 1, a);
    ok, q2 := PartsWritten(a1, a2, a3, a4, y, arena, ah.Mag(), third, fourth, div, a, n);
  }

  /** The division of normalised operands. */
  method NormalWritten(x: BigInt, y: BigInt, quot: BigInt, arena: Arena, ghost a: nat, ghost div: nat)
    returns (ok: bool)
    requires Holds(x, a) && x.n <= 4 && Normal(y, 2, div)
    requires quot.Valid() && quot.cap >= x.n && quot.buf != x.buf && quot.buf != y.buf
    modifies quot, quot.buf, arena
    ensures arena.offset >= old(arena.offset) && quot.Valid()
    ensures ok ==> div >= 1 && Holds(quot, WrittenQuotient(a, div))
    ensures old(arena.offset) + DivisionNeed(2) <= arena.cap ==> ok
  {
    var q2;
    ValBound(x.Limbs());
    ok, q2 := QuartersWritten(x, y, arena, a, div, x.n);
    if ok {
      NormalHolds(y, 2, div);
      PowMono(B, x.n, quot.cap);
      TrimFits(q2.Limbs(), quot.cap);
      quot.Copy(q2);
    }
  }

  /** The whole routine as written, for a divisor of two limbs and a dividend that, shifted with it, has at
      most four: what it leaves is the written quotient. */
  method DivideWritten(a: BigInt, b: BigInt, quot: BigInt, arena: Arena, ghost v: nat, ghost div: nat)
    returns (ok: bool)
    requires Holds(a, v) && Holds(b, div) && b.n == 2 && B <= div < B * B && v * Scale(div) < B * B * B * B
    requires quot.Valid() && quot.cap >= a.n + 1 && quot.buf != a.buf && quot.buf != b.buf
    modifies quot, quot.buf, arena
    ensures arena.offset == old(arena.offset) && quot.Valid()
    ensures ok ==> Holds(quot, WrittenBurnikel(v, div))
    ensures old(arena.offset) + a.n + 1 + 2 + DivisionNeed(2) <= arena.cap ==> ok
  {
    var mark := arena.Mark();
    BasePowers();
    var top := b.buf[b.off + 1];
    var shift := ClzShift(b, 2, top, div);
    ShiftedFits(a, v, shift);
    var ok1, ok2, x, y;
    ok1, x := Normalise(a, a.n + 1, shift, arena, v);
    ok2, y := Normalise(b, 2, shift, arena, div);
    ok := ok1 && ok2;
    if ok {
      ok := ShiftedWritten(x, y, quot, arena, v, div, Pow(2, shift));
    }
    arena.Rewind(mark);
  }

  method ShiftedWritten(x: BigInt, y: BigInt, quot: BigInt, arena: Arena, ghost v: nat, ghost div: nat, ghost p: nat)
    returns (ok: bool)
    requires B <= div < B * B && p == Scale(div) && Holds(x, p * v) && Holds(y, p * div)
    requires v * p < B * B * B * B
    requires quot.Valid() && quot.cap >= x.n && quot.buf != x.buf && quot.buf != y.buf
    modifies quot, quot.buf, arena
    ensures arena.offset >= old(arena.offset) && quot.Valid()
    ensures ok ==> Holds(quot, WrittenBurnikel(v, div))
    ensures old(arena.offset) + DivisionNeed(2) <= arena.cap ==> ok
  {
    BasePowers();
    MulComm(p, v);
    MulComm(p, div);
    TrimFits(x.Limbs(), 4);
    FullLength(y, 2, p * div);
    ok := NormalWritten(x, y, quot, arena, p * v, p * div);
  }

  lemma BasePowers()
    ensures Pow(B, 1) == B && Pow(B, 2) == B * B && Pow(B, 4) == B * B * B * B
  {
    assert Pow(B, 0) == 1 && Pow(B, 3) == B * Pow(B, 2);
  }

  /** Right or wrong, what comes out takes no more limbs than the dividend. */
  lemma JoinFits(a: nat, div: nat, n: nat, top: nat, low: nat, u: nat, v: nat, l: nat, rv: nat)
    requires n <= 4 && a < Pow(B, n) && B * B <= 2 * div && div < B * B && a == top * B + low && low < B
    requires top == u * div + v && v < div && Swapped(v) * B + low == l * div + rv && l < 2 * B
    ensures 0 <= Join(u, l) < Pow(B, n)
  {
    assert Pow(B, 0) == 1 && Pow(B, 1) == B && Pow(B, 2) == B * B && Pow(B, 3) == B * (B * B);
    assert Pow(B, 4) == B * (B * (B * B));
    LimbCountFits(l);
    LimbCountAtMost(l, 2);
    PowMono(B, LimbCount(l), 2);
    if n == 4 {
      DigitSmall(u, div, v, top, B * B, 2 * B);
      JoinBelow(u, l, 2, n);
    } else if n == 3 {
      DigitSmall(u, div, v, top, B, 2);
      JoinBelow(u, l, 1, n);
    } else {
      ShortDividend(a, div, n, top, low, u, v, l, rv);
      LimbCountAtMost(l, if n == 2 then 1 else 0);
      JoinBelow(u, l, 0, n);
    }
  }

  /** A digit of a dividend below w B over a normalised divisor. */
  lemma DigitSmall(u: nat, div: nat, v: nat, top: nat, w: nat, bound: nat)
    requires top == u * div + v && top < w * B && B * B <= 2 * div && bound * B == 2 * w
    ensures u < bound
  {
    assert bound * (2 * div) == 2 * (bound * div);
    MulMono(B * B, 2 * div, bound);
    MulAssoc(bound, B, B);
    MulComm(bound, B * B);
    MulComm(bound, 2 * div);
    assert (2 * w) * B == 2 * (w * B);
    MulCancel(u, bound, div);
  }

  lemma ShortDividend(a: nat, div: nat, n: nat, top: nat, low: nat, u: nat, v: nat, l: nat, rv: nat)
    requires n <= 2 && a < Pow(B, n) && B * B <= 2 * div && a == top * B + low && low < B
    requires top == u * div + v && v < div && Swapped(v) * B + low == l * div + rv
    ensures u == 0 && l < 2 && (n < 2 ==> l == 0)
  {
    assert Pow(B, 0) == 1 && Pow(B, 1) == B && Pow(B, 2) == B * B;
    MulCancel(u, 1, div);
    assert 0 * div == 0;
    MulCancel(l, if n == 2 then 2 else 1, div);
  }

  lemma JoinBelow(u: nat, l: nat, i: nat, n: nat)
    requires u < Pow(B, i) && i + LimbCount(l) <= n
    ensures 0 <= Join(u, l) < Pow(B, n)
  {
    var p := Pow(B, LimbCount(l));
    LimbCountFits(l);
    PowPos(B, LimbCount(l));
    MulMono(u + 1, Pow(B, i), p);
    assert (u + 1) * p == u * p + p;
    MulNat(u, p);
    PowAdd(B, i, LimbCount(l));
    PowMono(B, i + LimbCount(l), n);
  }

  // ------------------------------------------------------------------ an odd number of divisor limbs

  /** What is read of the halves for a divisor of 2k + 1 limbs: the four quarters, of k limbs each,
      although the lower half was cut at 2k + 2. */
  lemma ReadOnLimbs(al: seq<Limb>, ah: seq<Limb>, k: nat, a: nat, w: int, p: int)
    requires |al| <= 2 * k + 2 && w == Pow(B, 2 * k + 2) >= 1 && p == Pow(B, 2 * k) >= 1 && a == Val(ah) * w + Val(al)
    ensures Read(a, w, p) == (Val(Piece(ah, k, k)) * Pow(B, k) + Val(Piece(ah, 0, k))) * p
                           + Val(Piece(al, k, k)) * Pow(B, k) + Val(Piece(al, 0, k))
  {
    ValBound(al);
    ValBound(ah);
    PowMono(B, |al|, 2 * k + 2);
    DivModUnique(a, w, Val(ah), Val(al));
    LowQuarters(al, k);
    LowQuarters(ah, k);
  }

  lemma LowQuarters(s: seq<Limb>, k: nat)
    ensures Pow(B, 2 * k) >= 1
    ensures Val(s) % Pow(B, 2 * k) == Val(Piece(s, k, k)) * Pow(B, k) + Val(Piece(s, 0, k))
  {
    var t := if |s| <= 2 * k then s else s[..2 * k];
    PowPos(B, 2 * k);
    ValBound(t);
    PowMono(B, |t|, 2 * k);
    TwoPieces(t, k);
    assert Piece(t, k, k) == Piece(s, k, k) && Piece(t, 0, k) == Piece(s, 0, k);
    if |s| <= 2 * k {
      DivModUnique(Val(s), Pow(B, 2 * k), 0, Val(t));
    } else {
      ValCut(s, 2 * k);
      ShlPow(Val(s[2 * k..]), 2 * k);
      ValBound(s[2 * k..]);
      DivModUnique(Val(s), Pow(B, 2 * k), Val(s[2 * k..]), Val(t));
    }
  }
}
