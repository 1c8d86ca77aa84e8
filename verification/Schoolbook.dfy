/** Quadratic multiplication on limb buffers. */
module Schoolbook {
  import opened Arith
  import opened Limbs
  import opened Intrinsics
  import opened BigInts

  /** `i` rows are accumulated and everything above them is still zero. */
  ghost predicate Rows(r: seq<Limb>, x: seq<Limb>, y: seq<Limb>, i: nat) {
    && |x| + |y| <= |r|
    && ValN(r, i + |y|) == ValN(x, i) * Val(y)
    && forall k :: i + |y| <= k < |x| + |y| ==> r[k] == 0
  }

  /** Within row `i`, the products with the `j` low limbs of `y` are added to the earlier rows `r0`. */
  ghost predicate InRow(r: seq<Limb>, r0: seq<Limb>, u: Limb, y: seq<Limb>, i: nat, j: nat, carry: Limb) {
    && |r| == |r0|
    && ValN(r, i + j) + Shl(carry, i + j) == ValN(r0, i + j) + Shl(u * ValN(y, j), i)
    && forall k :: i + j <= k < |r| ==> r[k] == r0[k]
  }

  lemma RowStart(r: seq<Limb>, u: Limb, y: seq<Limb>, i: nat)
    ensures InRow(r, r, u, y, i, 0, 0)
  {
    ShlZero(i);
  }

  lemma RowStep(r: seq<Limb>, r0: seq<Limb>, u: Limb, y: seq<Limb>, i: nat, j: nat, carry: Limb, s: Limb, carry': Limb)
    requires InRow(r, r0, u, y, i, j, carry) && i + j < |r| && j < |y|
    requires s + carry' * B == r0[i + j] + u * y[j] + carry
    ensures InRow(r[i + j := s], r0, u, y, i, j + 1, carry')
  {
    var p := i + j;
    ValNUpdate(r, p, s);
    ShlAdd(s, carry' * B, p);
    ShlUp(carry', p);
    ShlAdd(r0[p] + u * y[j], carry, p);
    ShlAdd(r0[p], u * y[j], p);
    ProductTerm(u, y, i, j);
  }

  lemma ProductTerm(u: int, y: seq<Limb>, i: nat, j: nat)
    requires j < |y|
    ensures Shl(u * ValN(y, j + 1), i) == Shl(u * ValN(y, j), i) + Shl(u * y[j], i + j)
  {
    var t := Shl(y[j], j);
    assert u * (ValN(y, j) + t) == u * ValN(y, j) + u * t;
    ShlAdd(u * ValN(y, j), u * t, i);
    ShlScale(y[j], u, j);
    assert y[j] * u == u * y[j];
    ShlShl(u * y[j], j, i);
    assert j + i == i + j;
  }

  /** The carry of a finished row goes into the zero limb above it, and goes no further. */
  lemma RowEnd(r: seq<Limb>, r0: seq<Limb>, x: seq<Limb>, y: seq<Limb>, i: nat, carry: Limb)
    requires i < |x| && Rows(r0, x, y, i) && InRow(r, r0, x[i], y, i, |y|, carry)
    ensures r[i + |y|] == 0
    ensures Rows(r[i + |y| := carry], x, y, i + 1)
  {
    var k := i + |y|;
    ValNUpdate(r, k, carry);
    ShlScale(x[i], Val(y), i);
    assert x[i] * Val(y) == Val(y) * x[i];
    RowSum(ValN(x, i), Shl(x[i], i), Val(y));
  }

  lemma RowSum(a: int, b: int, v: int)
    ensures (a + b) * v == a * v + v * b
  {
  }

  /** One step of a row. */
  method MulAddLimb(base: Limb, u: Limb, v: Limb, carry: Limb) returns (sum2: Limb, carryOut: Limb)
    ensures sum2 + carryOut * B == base + u * v + carry
  {
    var low, high := MulLimb(u, v);
    LimbProduct(u, v);
    sum2, carryOut := AddProduct(base, low, high, carry, u * v);
  }

  /** Adds a two-limb product and a carry to a limb: the new carry high + c1 + c2 fits a limb. */
  method AddProduct(base: Limb, low: Limb, high: Limb, carry: Limb, ghost p: int) returns (sum2: Limb, carryOut: Limb)
    requires low + high * B == p <= (B - 1) * (B - 1)
    ensures sum2 + carryOut * B == base + p + carry
  {
    var sum := WrapAdd(base, low);
    var c1 := Flag(sum < low);
    sum2 := WrapAdd(sum, carry);
    var c2 := Flag(sum2 < carry);
    carryOut := high + (c1 + c2);
  }

  method RowOne(res: BigInt, u: Limb, b: BigInt, i: nat, j: nat, carry: Limb, ghost r0: seq<Limb>)
    returns (carryOut: Limb)
    requires res.Valid() && b.Valid() && res.buf != b.buf && j < b.n && i + j < res.cap
    requires InRow(res.Phys(), r0, u, b.Limbs(), i, j, carry)
    modifies res.buf
    ensures InRow(res.Phys(), r0, u, b.Limbs(), i, j + 1, carryOut)
  {
    ghost var r := res.Phys();
    var v := b.Get(j, b.Limbs());
    var base := res.buf[res.off + i + j];
    assert base == r[i + j];
    var s;
    s, carryOut := MulAddLimb(base, u, v, carry);
    RowStep(r, r0, u, b.Limbs(), i, j, carry, s, carryOut);
    res.Put(i + j, s);
  }

  /** The inner loop of row `i`, and the ripple of its carry. */
  method Row(res: BigInt, a: BigInt, b: BigInt, i: nat)
    requires res.Valid() && a.Valid() && b.Valid() && res.buf != a.buf && res.buf != b.buf
    requires i < a.n && a.n + b.n <= res.cap && Rows(res.Phys(), a.Limbs(), b.Limbs(), i)
    modifies res.buf
    ensures Rows(res.Phys(), a.Limbs(), b.Limbs(), i + 1)
  {
    ghost var r0 := res.Phys();
    var u := a.Get(i, a.Limbs());
    var carry: Limb := 0;
    RowStart(r0, u, b.Limbs(), i);
    for j := 0 to b.n
      invariant InRow(res.Phys(), r0, u, b.Limbs(), i, j, carry)
    {
      carry := RowOne(res, u, b, i, j, carry, r0);
    }
    RowEnd(res.Phys(), r0, a.Limbs(), b.Limbs(), i, carry);
    Ripple(res, i + b.n, carry);
  }

  /** Adds a carry from limb `from` up, to the end of the capacity if need be. Into a zero limb it
      takes a single step. */
  method Ripple(res: BigInt, from: nat, carryIn: Limb)
    requires res.Valid() && from < res.cap && res.Phys()[from] == 0
    modifies res.buf
    ensures res.Phys() == old(res.Phys())[from := carryIn]
  {
    var k, carry := from, carryIn;
    while carry != 0 && k < res.cap
      invariant k == from || (k == from + 1 && carry == 0)
      invariant k == from ==> carry == carryIn && res.Phys() == old(res.Phys())
      invariant k == from + 1 ==> res.Phys() == old(res.Phys())[from := carryIn]
    {
      assert res.Phys()[from] == res.buf[res.off + from];
      var sum := WrapAdd(res.buf[res.off + k], carry);
      carry := Flag(sum < carry);
      res.Put(k, sum);
      k := k + 1;
    }
    assert res.Phys() == old(res.Phys())[from := carryIn];
  }

  /** res = a * b, trimmed. */
  method Multiply(a: BigInt, b: BigInt, res: BigInt)
    requires res.Valid() && a.Valid() && b.Valid() && res.buf != a.buf && res.buf != b.buf
    requires a.n + b.n <= res.cap
    modifies res`n, res`sign, res.buf
    ensures res.Valid() && res.Trimmed() && res.Mag() == a.Mag() * b.Mag()
    ensures res.sign == if res.n == 0 then 1 else old(res.sign)
  {
    MultiplyRows(a, b, res);
    ValPrefix(res.Phys(), a.n + b.n);
    res.SetLen(a.n + b.n);
    res.TrimLz();
  }

  method MultiplyRows(a: BigInt, b: BigInt, res: BigInt)
    requires res.Valid() && a.Valid() && b.Valid() && res.buf != a.buf && res.buf != b.buf
    requires a.n + b.n <= res.cap
    modifies res.buf
    ensures ValN(res.Phys(), a.n + b.n) == a.Mag() * b.Mag()
  {
    res.ZeroFill(0, a.n + b.n);
    ValNZeros(res.Phys(), 0, b.n);
    for i := 0 to a.n
      invariant Rows(res.Phys(), a.Limbs(), b.Limbs(), i)
    {
      Row(res, a, b, i);
    }
  }

  // ------------------------------------------------------------------ the result as an operand

  ghost predicate Cleared(r: seq<Limb>, k: nat) {
    k <= |r| && forall j :: 0 <= j < k ==> r[j] == 0
  }

  /** One limb of a row over cleared limbs: nothing is added and nothing carried. */
  method ClearedLimb(res: BigInt, b: BigInt, i: nat, j: nat, carry: Limb, ghost k: nat) returns (carryOut: Limb)
    requires res.Valid() && b.Valid() && (b == res || b.buf != res.buf) && j < b.n && i + j < k && carry == 0
    requires Cleared(res.Phys(), k)
    modifies res.buf
    ensures Cleared(res.Phys(), k) && carryOut == 0
  {
    assert res.Phys()[i] == res.buf[res.off + i] && res.Phys()[i + j] == res.buf[res.off + i + j];
    var u, v, base := res.buf[res.off + i], b.buf[b.off + j], res.buf[res.off + i + j];
    var s;
    s, carryOut := MulAddLimb(base, u, v, carry);
    NothingAdded(u, v, s, carryOut);
    res.Put(i + j, s);
  }

  lemma NothingAdded(u: Limb, v: Limb, s: Limb, carry: Limb)
    requires u == 0 && s + carry * B == u * v
    ensures s == 0 && carry == 0
  {
    assert u * v == 0;
  }

  /** res = res * b, as written when the result is also the first operand. The routine clears the
      result first, so the rows add nothing and the product is zero. */
  method MultiplyInPlace(res: BigInt, b: BigInt)
    requires res.Valid() && b.Valid() && (b == res || b.buf != res.buf) && res.n + b.n <= res.cap
    modifies res`n, res`sign, res.buf
    ensures res.Valid() && res.n == 0 && res.sign == 1 && res.Mag() == 0
  {
    var rows, columns := res.n, b.n;
    res.ZeroFill(0, rows + columns);
    for i := 0 to rows
      modifies res.buf
      invariant Cleared(res.Phys(), rows + columns)
    {
      var carry: Limb := 0;
      for j := 0 to columns
        modifies res.buf
        invariant Cleared(res.Phys(), rows + columns) && carry == 0
      {
        carry := ClearedLimb(res, b, i, j, carry, rows + columns);
      }
      Ripple(res, i + columns, carry);
    }
    res.SetLen(rows + columns);
    ValNZeros(res.Limbs(), 0, rows + columns);
    res.TrimLz();
    NoLimbsLeft(res);
  }

  lemma NoLimbsLeft(x: BigInt)
    requires x.Valid() && x.Trimmed() && x.Mag() == 0
    ensures x.n == 0
  {
    if x.n > 0 {
      TrimBound(x.Limbs());
      PowPos(B, x.n - 1);
    }
  }
}
