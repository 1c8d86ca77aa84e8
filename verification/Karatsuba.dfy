/** Karatsuba multiplication: three recursive products on views of the operands, in arena scratch. */
module Karatsuba {
  import opened Arith
  import opened Limbs
  import opened CarryChain
  import opened BigInts
  import opened Workspace
  import opened Products
  import Schoolbook

  // ------------------------------------------------------------------ arithmetic

  lemma MiddleTerm(a0: nat, a1: nat, b0: nat, b1: nat)
    ensures (a0 + a1) * (b0 + b1) == a0 * b0 + a1 * b1 + (a0 * b1 + a1 * b0)
    ensures 0 <= a0 * b0 && 0 <= a1 * b1 && 0 <= a0 * b1 && 0 <= a1 * b0
  {
    MulNat(a0, b0);
    MulNat(a1, b1);
    MulNat(a0, b1);
    MulNat(a1, b0);
  }

  /** The product of two split numbers, in three shifted terms. */
  lemma SplitProduct(a: int, b: int, a0: int, a1: int, b0: int, b1: int, m: nat)
    requires a == a0 + Shl(a1, m) && b == b0 + Shl(b1, m)
    ensures a * b == a0 * b0 + Shl(a0 * b1 + a1 * b0, m) + Shl(a1 * b1, 2 * m)
  {
    ShlScale(b1, a0, m);
    ShlScale(a1, b0, m);
    ShlAdd(a0 * b1, a1 * b0, m);
    ShlScale(b1, a1, m);
    ShlScale(a1, Shl(b1, m), m);
    ShlShl(a1 * b1, m, m);
    var p, q := Shl(a1, m), Shl(b1, m);
    assert (a0 + p) * (b0 + q) == a0 * b0 + a0 * q + p * b0 + p * q;
    assert a1 * b1 == b1 * a1;
    assert Shl(a1 * q, m) == q * p;
  }

  /** A sum of two numbers of at most `k` limbs fits `k + 1` limbs. */
  lemma SumFits(x: seq<Limb>, y: seq<Limb>, k: nat)
    requires Max(|x|, |y|) <= k
    ensures Val(x) + Val(y) < Pow(B, k + 1)
  {
    ValBound(x);
    ValBound(y);
    PowMono(B, |x|, k);
    PowMono(B, |y|, k);
    ShlOne(k);
    ShlOne(k + 1);
  }

  // ------------------------------------------------------------------ splitting

  /** Views of the `m` low limbs and of the rest. */
  method Split(x: BigInt, m: nat) returns (lo: BigInt, hi: BigInt)
    requires x.Valid()
    ensures fresh(lo) && fresh(hi) && lo.Valid() && hi.Valid()
    ensures lo.buf == hi.buf == x.buf && lo.n == LowSize(x.n, m) && hi.n == HighSize(x.n, m)
    ensures x.Mag() == lo.Mag() + Shl(hi.Mag(), m)
  {
    lo := new BigInt.View(x, 0, LowSize(x.n, m));
    hi := new BigInt.View(x, if x.n > m then m else 0, HighSize(x.n, m));
    ghost var s := x.Limbs();
    ShlZero(m);
    if x.n > m {
      ValCut(s, m);
      assert lo.Limbs() == s[..m] && hi.Limbs() == s[m..];
    } else {
      assert lo.Limbs() == s;
    }
  }

  // ------------------------------------------------------------------ the three products

  /** `z` is a scratch number with room for `room` limbs. */
  ghost predicate Room(z: BigInt, room: nat)
    reads z
  {
    z.Valid() && z.sign == 1 && z.cap >= room
  }

  /** A split operand: two views of one buffer, of values `lo` and `hi`. */
  ghost predicate Parts(x0: BigInt, x1: BigInt, lo: int, hi: int)
    reads x0, x1, x0.buf, x1.buf
  {
    x0.Valid() && x1.Valid() && x0.buf == x1.buf && x0.Mag() == lo && x1.Mag() == hi
  }

  /** z0 = x0 * y0 and z2 = x1 * y1. */
  method OuterProducts(x0: BigInt, x1: BigInt, y0: BigInt, y1: BigInt, z0: BigInt, z2: BigInt, arena: Arena,
                       t: nat, u: nat, ghost a0: nat, ghost a1: nat, ghost b0: nat, ghost b1: nat) returns (ok: bool)
    requires Parts(x0, x1, a0, a1) && Parts(y0, y1, b0, b1)
    requires Room(z0, x0.n + y0.n) && Room(z2, x1.n + y1.n)
    requires z0.buf != x0.buf && z0.buf != y0.buf && z2.buf != x0.buf && z2.buf != y0.buf && z0.buf != z2.buf
    requires x0.n <= t && x1.n <= t && y0.n <= u && y1.n <= u
    modifies z0, z0.buf, z2, z2.buf, arena
    ensures arena.offset == old(arena.offset)
    ensures ok ==> Holds(z0, a0 * b0) && Holds(z2, a1 * b1)
    ensures arena.offset + KaratsubaWs(t, u) <= arena.cap ==> ok
    decreases Max(t, u), 3
  {
    KaratsubaWsMono(x0.n, y0.n, t, u);
    ok := Multiply(x0, y0, z0, arena);
    if ok {
      KaratsubaWsMono(x1.n, y1.n, t, u);
      ok := Multiply(x1, y1, z2, arena);
    }
  }

  /** z1 = (x1 + x0) * (y1 + y0), the sums going through `t` and `u`. */
  method SumProduct(x0: BigInt, x1: BigInt, y0: BigInt, y1: BigInt, t: BigInt, u: BigInt, z1: BigInt, arena: Arena,
                    ghost a0: nat, ghost a1: nat, ghost b0: nat, ghost b1: nat) returns (ok: bool)
    requires Parts(x0, x1, a0, a1) && Parts(y0, y1, b0, b1)
    requires Room(t, Max(x0.n, x1.n) + 1) && Room(u, Max(y0.n, y1.n) + 1) && Room(z1, t.cap + u.cap)
    requires t.buf != x0.buf && u.buf != y0.buf && u.buf != t.buf && z1.buf != t.buf && z1.buf != u.buf
    requires t.buf != y0.buf
    modifies t, t.buf, u, u.buf, z1, z1.buf, arena
    ensures arena.offset == old(arena.offset)
    ensures ok ==> Holds(z1, (a0 + a1) * (b0 + b1))
    ensures arena.offset + KaratsubaWs(t.cap, u.cap) <= arena.cap ==> ok
    decreases Max(t.cap, u.cap), 3
  {
    AddParts(t, x0, x1, a0, a1);
    AddParts(u, y0, y1, b0, b1);
    ok := MultiplySums(t, u, z1, arena, a0 + a1, b0 + b1, (a0 + a1) * (b0 + b1));
  }

  method MultiplySums(t: BigInt, u: BigInt, z1: BigInt, arena: Arena, ghost a: nat, ghost b: nat, ghost total: nat)
    returns (ok: bool)
    requires t.Valid() && u.Valid() && t.Mag() == a && u.Mag() == b && total == a * b
    requires Room(z1, t.cap + u.cap) && z1.buf != t.buf && z1.buf != u.buf
    modifies z1, z1.buf, arena
    ensures arena.offset == old(arena.offset)
    ensures ok ==> Holds(z1, total)
    ensures arena.offset + KaratsubaWs(t.cap, u.cap) <= arena.cap ==> ok
    decreases Max(t.cap, u.cap), 2, 1
  {
    KaratsubaWsMono(t.n, u.n, t.cap, u.cap);
    ok := Multiply(t, u, z1, arena);
  }

  method AddParts(t: BigInt, x0: BigInt, x1: BigInt, ghost a0: nat, ghost a1: nat)
    requires Parts(x0, x1, a0, a1) && Room(t, Max(x0.n, x1.n) + 1) && t.buf != x0.buf
    modifies t, t.buf
    ensures t.Valid() && t.Mag() == a0 + a1
  {
    SumFits(x1.Limbs(), x0.Limbs(), Max(x0.n, x1.n));
    PowMono(B, Max(x0.n, x1.n) + 1, t.cap);
    t.AddWc(x1, x0);
  }

  // ------------------------------------------------------------------ recomposition

  /** z1 becomes the middle coefficient; neither subtraction goes below zero. */
  method Middle(z0: BigInt, z1: BigInt, z2: BigInt, ghost a0: nat, ghost a1: nat, ghost b0: nat, ghost b1: nat)
    requires Holds(z0, a0 * b0) && Holds(z2, a1 * b1) && Holds(z1, (a0 + a1) * (b0 + b1))
    requires z1.buf != z0.buf && z1.buf != z2.buf
    modifies z1, z1.buf
    ensures z1.Valid() && z1.Trimmed() && z1.Mag() == a0 * b1 + a1 * b0
  {
    MiddleTerm(a0, a1, b0, b1);
    ValBound(z1.Limbs());
    TrimFits(z2.Limbs(), z1.n);
    z1.SubWb(z1, z2);
    ValBound(z1.Limbs());
    TrimFits(z0.Limbs(), z1.n);
    z1.SubWb(z1, z0);
  }

  /** z0 becomes the product. Every shifted addition stays inside the capacity. */
  method Assemble(z0: BigInt, z1: BigInt, z2: BigInt, m: nat, ghost p: nat)
    requires z0.Valid() && z1.Valid() && z2.Valid() && z0.buf != z1.buf && z0.buf != z2.buf && m > 0
    requires z0.Trimmed() && z1.Trimmed() && z2.Trimmed() && z0.sign == 1
    requires p == z0.Mag() + Shl(z1.Mag(), m) + Shl(z2.Mag(), 2 * m) < Pow(B, z0.cap)
    modifies z0, z0.buf
    ensures Holds(z0, p)
  {
    ShiftFits(z1.Limbs(), m, z0.cap, p);
    ShiftFits(z2.Limbs(), 2 * m, z0.cap, p);
    z0.AddShift(z1, m);
    z0.AddShift(z2, 2 * m);
  }

  /** The subtractions and the shifted additions: z0 becomes the product of the split operands. */
  method Recompose(z0: BigInt, z1: BigInt, z2: BigInt, m: nat,
                   ghost a0: nat, ghost a1: nat, ghost b0: nat, ghost b1: nat,
              ghost a: nat, ghost b: nat, ghost i: nat, ghost j: nat)
    requires Holds(z0, a0 * b0) && Holds(z2, a1 * b1) && Holds(z1, (a0 + a1) * (b0 + b1)) && m > 0
    requires z0.buf != z1.buf && z0.buf != z2.buf && z1.buf != z2.buf
    requires a == a0 + Shl(a1, m) && b == b0 + Shl(b1, m) && a < Pow(B, i) && b < Pow(B, j)
    requires z0.cap == i + j
    modifies z0, z0.buf, z1, z1.buf
    ensures Holds(z0, a * b)
  {
    Middle(z0, z1, z2, a0, a1, b0, b1);
    SplitProduct(a, b, a0, a1, b0, b1, m);
    PowersFit(a, b, B, i, j);
    Assemble(z0, z1, z2, m, a * b);
  }

  // ------------------------------------------------------------------ the recursion

  /** The five temporaries; they take exactly `KaratsubaTemps` limbs of scratch. */
  method Temporaries(arena: Arena, t: nat, u: nat, z2: nat, z0: nat, z1: nat)
    returns (ok: bool, tmp1: BigInt, tmp2: BigInt, r2: BigInt, r0: BigInt, r1: BigInt)
    modifies arena
    ensures fresh({tmp1, tmp2, r2, r0, r1})
    ensures fresh(tmp1.buf) && fresh(tmp2.buf) && fresh(r2.buf) && fresh(r0.buf) && fresh(r1.buf)
    ensures tmp1.buf != tmp2.buf && tmp1.buf != r1.buf && tmp2.buf != r1.buf
    ensures r0.buf != r1.buf && r0.buf != r2.buf && r1.buf != r2.buf
    ensures r0.buf != tmp1.buf && r0.buf != tmp2.buf && r2.buf != tmp1.buf && r2.buf != tmp2.buf
    ensures ok ==> arena.offset == old(arena.offset) + t + u + z2 + z0 + z1
    ensures ok ==> tmp1.Valid() && tmp2.Valid() && Room(r2, z2) && Room(r0, z0) && Room(r1, z1)
    ensures ok ==> Room(tmp1, t) && Room(tmp2, u) && tmp1.cap == t && tmp2.cap == u && r0.cap == z0
    ensures arena.offset >= old(arena.offset)
    ensures ok <==> old(arena.offset) + t + u + z2 + z0 + z1 <= arena.cap
  {
    var ok1, ok2, ok3, ok4, ok5;
    ok1, tmp1 := arena.Temp(t);
    ok2, tmp2 := arena.Temp(u);
    ok3, r2 := arena.Temp(z2);
    ok4, r0 := arena.Temp(z0);
    ok5, r1 := arena.Temp(z1);
    ok := ok1 && ok2 && ok3 && ok4 && ok5;
  }

  /** The three products and their recomposition, on split operands: z0 becomes the product. */
  method Core(x0: BigInt, x1: BigInt, y0: BigInt, y1: BigInt, t: BigInt, u: BigInt, z0: BigInt, z1: BigInt, z2: BigInt,
              m: nat, arena: Arena, ghost a0: nat, ghost a1: nat, ghost b0: nat, ghost b1: nat,
              ghost a: nat, ghost b: nat, ghost i: nat, ghost j: nat) returns (ok: bool)
    requires Parts(x0, x1, a0, a1) && Parts(y0, y1, b0, b1) && m > 0
    requires Room(t, Max(x0.n, x1.n) + 1) && Room(u, Max(y0.n, y1.n) + 1) && Room(z1, t.cap + u.cap)
    requires Room(z0, x0.n + y0.n) && Room(z2, x1.n + y1.n)
    requires t.buf != x0.buf && t.buf != y0.buf && u.buf != x0.buf && u.buf != y0.buf
    requires z0.buf != x0.buf && z0.buf != y0.buf && z2.buf != x0.buf && z2.buf != y0.buf
    requires t.buf != u.buf && t.buf != z1.buf && u.buf != z1.buf
    requires z0.buf != z1.buf && z0.buf != z2.buf && z1.buf != z2.buf
    requires z0.buf != t.buf && z0.buf != u.buf && z2.buf != t.buf && z2.buf != u.buf
    requires a == a0 + Shl(a1, m) && b == b0 + Shl(b1, m) && a < Pow(B, i) && b < Pow(B, j)
    requires z0.cap == i + j
    modifies t, t.buf, u, u.buf, z0, z0.buf, z1, z1.buf, z2, z2.buf, arena
    ensures arena.offset == old(arena.offset)
    ensures ok ==> Holds(z0, a * b)
    ensures arena.offset + KaratsubaWs(t.cap, u.cap) <= arena.cap ==> ok
    decreases Max(t.cap, u.cap), 4
  {
    ok := OuterProducts(x0, x1, y0, y1, z0, z2, arena, t.cap, u.cap, a0, a1, b0, b1);
    if ok {
      ok := SumProduct(x0, x1, y0, y1, t, u, z1, arena, a0, a1, b0, b1);
    }
    if ok {
      Recompose(z0, z1, z2, m, a0, a1, b0, b1, a, b, i, j);
    }
  }

  /** Allocates and multiplies the parts of operands of `i` and `j` limbs; the product ends up in
      the fresh temporary `z0`. */
  method AllocateAndMultiply(x0: BigInt, x1: BigInt, y0: BigInt, y1: BigInt, i: nat, j: nat, arena: Arena,
                             ghost a: nat, ghost b: nat) returns (ok: bool, z0: BigInt)
    requires x0.Valid() && x1.Valid() && x0.buf == x1.buf && y0.Valid() && y1.Valid() && y0.buf == y1.buf
    requires i > SCHOOLBOOK && j > SCHOOLBOOK
    requires x0.n == LowSize(i, Half(i, j)) && x1.n == HighSize(i, Half(i, j))
    requires y0.n == LowSize(j, Half(i, j)) && y1.n == HighSize(j, Half(i, j))
    requires a == x0.Mag() + Shl(x1.Mag(), Half(i, j)) && b == y0.Mag() + Shl(y1.Mag(), Half(i, j))
    requires a < Pow(B, i) && b < Pow(B, j)
    modifies arena
    ensures fresh(z0) && fresh(z0.buf) && arena.offset >= old(arena.offset)
    ensures ok ==> Holds(z0, a * b)
    ensures old(arena.offset) + KaratsubaWs(i, j) <= arena.cap ==> ok
    decreases Max(i, j), 0
  {
    var m := Half(i, j);
    var t, u := SumSize(i, m), SumSize(j, m);
    KaratsubaWsCovers(i, j, m, t, u);
    ghost var a0, a1, b0, b1 := x0.Mag(), x1.Mag(), y0.Mag(), y1.Mag();
    var tmp1, tmp2, z1, z2;
    ok, tmp1, tmp2, z2, z0, z1 := Temporaries(arena, t, u, x1.n + y1.n, i + j, t + u);
    if ok {
      ok := Core(x0, x1, y0, y1, tmp1, tmp2, z0, z1, z2, m, arena, a0, a1, b0, b1, a, b, i, j);
    }
  }

  /** Splits both operands at half the longer one. */
  method Recurse(x: BigInt, y: BigInt, arena: Arena) returns (ok: bool, z0: BigInt)
    requires x.Valid() && y.Valid() && x.n > SCHOOLBOOK && y.n > SCHOOLBOOK
    modifies arena
    ensures fresh(z0) && fresh(z0.buf) && arena.offset >= old(arena.offset)
    ensures ok ==> Holds(z0, x.Mag() * y.Mag())
    ensures old(arena.offset) + KaratsubaWs(x.n, y.n) <= arena.cap ==> ok
    decreases Max(x.n, y.n), 1
  {
    ValBound(x.Limbs());
    ValBound(y.Limbs());
    var x0, x1 := Split(x, Half(x.n, y.n));
    var y0, y1 := Split(y, Half(x.n, y.n));
    ok, z0 := AllocateAndMultiply(x0, x1, y0, y1, x.n, y.n, arena, x.Mag(), y.Mag());
  }

  /** res = x * y with no leading zero limb. On success the arena is back where it was; it always
      succeeds when the workspace function's amount of scratch is free. */
  method Multiply(x: BigInt, y: BigInt, res: BigInt, arena: Arena) returns (ok: bool)
    requires x.Valid() && y.Valid() && res.Valid() && res.buf != x.buf && res.buf != y.buf
    requires x.n + y.n <= res.cap
    modifies res, res.buf, arena
    ensures arena.offset == old(arena.offset) && res.Valid()
    ensures ok ==> res.Trimmed() && res.Mag() == x.Mag() * y.Mag()
    ensures ok && x.n > SCHOOLBOOK && y.n > SCHOOLBOOK ==> res.sign == 1
    ensures old(res.sign) == 1 ==> res.sign == 1
    ensures old(arena.offset) + KaratsubaWs(x.n, y.n) <= arena.cap ==> ok
    decreases Max(x.n, y.n), 2, 0
  {
    if x.n <= SCHOOLBOOK || y.n <= SCHOOLBOOK {
      Schoolbook.Multiply(x, y, res);
      return true;
    }
    var mark := arena.Mark();
    var z0;
    ok, z0 := Recurse(x, y, arena);
    if ok {
      CopyProduct(x, y, z0, res);
    }
    arena.Rewind(mark);
  }
}
