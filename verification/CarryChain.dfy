/** The inductive step of each limb loop, as statements about sequences. */
module CarryChain {
  import opened Arith
  import opened Limbs

  // ------------------------------------------------------------------ addition

  /** The `i` low limbs are added, with carry `c` into position `i`. */
  ghost predicate Added(r: seq<Limb>, x: seq<Limb>, y: seq<Limb>, i: nat, c: nat) {
    c <= 1 && ValN(r, i) + Shl(c, i) == ValN(x, i) + ValN(y, i)
  }

  lemma AddStep(r: seq<Limb>, x: seq<Limb>, y: seq<Limb>, i: nat, c: nat, s: Limb, c': nat)
    requires Added(r, x, y, i, c) && i < |r| && c' <= 1
    requires s + c' * B == At(x, i) + At(y, i) + c
    ensures Added(r[i := s], x, y, i + 1, c')
  {
    ValNUpdate(r, i, s);
    ShlBalance(s, c', At(x, i), At(y, i), c, i);
  }

  /** A balance of single limbs, moved up to position `i`. */
  lemma ShlBalance(s: int, c': int, x: int, y: int, c: int, i: nat)
    requires s + c' * B == x + y + c
    ensures Shl(s, i) + Shl(c', i + 1) == Shl(x, i) + Shl(y, i) + Shl(c, i)
  {
    ShlAdd(s, c' * B, i);
    ShlUp(c', i);
    ShlAdd(x + y, c, i);
    ShlAdd(x, y, i);
  }

  /** A carry out of the top position means that the sum does not fit. */
  lemma NoCarryOut(r: seq<Limb>, c: nat, k: nat, total: int)
    requires ValN(r, k) + Shl(c, k) == total < Pow(B, k)
    ensures c == 0
  {
    ValNBound(r, k);
    ShlOne(k);
    if c > 0 {
      ShlMono(1, c, k);
    }
  }

  /** How many limbs a sum takes: those of the longer operand, and one more for a carry out of them. */
  ghost function SumLength(x: seq<Limb>, y: seq<Limb>): nat {
    Max(|x|, |y|) + if Val(x) + Val(y) < Pow(B, Max(|x|, |y|)) then 0 else 1
  }

  lemma SumOfOne(x: seq<Limb>, y: seq<Limb>)
    ensures |x| == 0 || |y| == 0 ==> SumLength(x, y) == Max(|x|, |y|)
  {
    ValBound(x);
    ValBound(y);
  }

  /** After the loop of an addition: appending the carry completes the sum, and the sum is as
      trimmed as its operands. */
  lemma CarryLimb(r: seq<Limb>, c: nat, k: nat, cap: nat, x: seq<Limb>, y: seq<Limb>)
    requires k == Max(|x|, |y|) && k <= cap == |r|
    requires Added(r, x, y, k, c)
    requires Val(x) + Val(y) < Pow(B, cap)
    ensures (c == 1 ==> k < cap) && SumLength(x, y) == k + c
    ensures var t := if c == 1 then r[..k] + [1] else r[..k];
            Val(t) == Val(x) + Val(y) && (Trim(x) && Trim(y) ==> Trim(t))
  {
    ValExtend(x, k);
    ValExtend(y, k);
    ValNBound(r, k);
    ShlOne(k);
    if k == cap {
      NoCarryOut(r, c, k, Val(x) + Val(y));
    }
    var t := if c == 1 then r[..k] + [1] else r[..k];
    ValNFrame(r, t, k);
    ShlZero(k);
    AddTrim(t, x, y);
  }

  /** A sum as long as its longer operand, or with a carry limb on top, keeps no leading zero. */
  lemma AddTrim(r: seq<Limb>, x: seq<Limb>, y: seq<Limb>)
    requires Val(r) == Val(x) + Val(y)
    requires |r| == Max(|x|, |y|) || (|r| > 0 && r[|r| - 1] != 0)
    ensures Trim(x) && Trim(y) ==> Trim(r)
  {
    ValBound(x);
    ValBound(y);
    if Trim(x) && Trim(y) && |r| == Max(|x|, |y|) && |r| > 0 {
      TrimBound(if |x| >= |y| then x else y);
      BigIsTrim(r);
    }
  }

  // --------------------------------------------------------------- subtraction

  /** The `i` low limbs are subtracted, with borrow `c` out of position `i`; `top` is one above
      the highest non-zero limb written so far. */
  ghost predicate Subtracted(r: seq<Limb>, x: seq<Limb>, y: seq<Limb>, i: nat, c: nat, top: nat) {
    && c <= 1 && ValN(r, i) - Shl(c, i) == ValN(x, i) - ValN(y, i)
    && top <= i <= |r| && (top > 0 ==> r[top - 1] != 0) && ValN(r, top) == ValN(r, i)
  }

  lemma SubStep(r: seq<Limb>, x: seq<Limb>, y: seq<Limb>, i: nat, c: nat, top: nat, s: Limb, c': nat)
    requires Subtracted(r, x, y, i, c, top) && i < |r| && c' <= 1
    requires s - c' * B == At(x, i) - At(y, i) - c
    ensures Subtracted(r[i := s], x, y, i + 1, c', if s != 0 then i + 1 else top)
  {
    ValNUpdate(r, i, s);
    ValNFrame(r, r[i := s], top);
    ShlBalance(At(x, i), c', s, At(y, i), c, i);
    ShlZero(i);
  }

  /** What a subtraction of `k`-limb magnitudes leaves behind: the difference modulo B^k. */
  ghost function Wrapped(d: int, k: nat): int {
    if d >= 0 then d else d + Pow(B, k)
  }

  /** After the loop of a subtraction: the limbs below the highest non-zero one are the result. */
  lemma BorrowLimb(r: seq<Limb>, c: nat, k: nat, top: nat, x: seq<Limb>, y: seq<Limb>)
    requires |y| <= k == |x| && Subtracted(r, x, y, k, c, top)
    ensures Val(r[..top]) == Wrapped(Val(x) - Val(y), k)
    ensures Trim(r[..top])
  {
    ValPrefix(r, top);
    ValExtend(y, k);
    ValNBound(r, k);
    ValNBound(x, k);
    ValNBound(y, k);
    ShlZero(k);
    ShlOne(k);
  }

  // -------------------------------------------------------------- shifted addition

  /** `s` moved up by `k` limbs. */
  ghost function Raised(s: seq<Limb>, k: nat): seq<Limb> {
    seq(k, _ => 0) + s
  }

  lemma RaisedValue(s: seq<Limb>, k: nat)
    ensures Val(Raised(s, k)) == Shl(Val(s), k)
    ensures ValN(Raised(s, k), k) == 0
    ensures |s| > 0 && Trim(s) ==> Trim(Raised(s, k))
  {
    var t := Raised(s, k);
    ValNZeros(t, 0, k);
    assert t[k..] == s;
    ValCut(t, k);
    ValPrefix(t, k);
  }

  /** Nothing has touched the limbs of `d` from position `i` on. */
  ghost predicate Rest(r: seq<Limb>, d: seq<Limb>, i: nat) {
    |d| <= |r| && forall j :: i <= j < |d| ==> r[j] == d[j]
  }

  /** After the gap is filled, the limbs below the shift are those of the old number. */
  lemma GapFilled(r: seq<Limb>, d: seq<Limb>, t: seq<Limb>, shift: nat)
    requires shift <= |r| && Rest(r, d, 0) && ValN(t, shift) == 0
    requires forall j :: |d| <= j < shift ==> r[j] == 0
    ensures Added(r, d, t, shift, 0)
  {
    ValNFrame(r, d, shift);
    ShlZero(shift);
  }

  /** A carry that survives to position `i` shows that the sum reaches B^i. */
  lemma CarryReaches(r: seq<Limb>, d: seq<Limb>, t: seq<Limb>, i: nat)
    requires Added(r, d, t, i, 1)
    ensures Val(d) + Val(t) >= Pow(B, i)
  {
    ValNBound(r, i);
    ShlOne(i);
    ValNAtMost(d, i);
    ValNAtMost(t, i);
  }

  lemma ValNAtMost(d: seq<Limb>, i: nat)
    ensures ValN(d, i) <= Val(d)
  {
    if i <= |d| {
      ValNMono(d, i, |d|);
    } else {
      ValExtend(d, i);
    }
  }

  /** The end of a shifted addition at position `di`, with the old number `d` and the raised
      operand `t`: value and length. */
  lemma RaiseDone(r: seq<Limb>, d: seq<Limb>, t: seq<Limb>, di: nat, cap: nat, c: nat)
    requires Added(r, d, t, di, c) && Rest(r, d, di) && |t| <= di <= cap == |r|
    requires c == 1 ==> di == cap
    requires Val(d) + Val(t) < Pow(B, cap)
    requires di == |t| || Val(d) + Val(t) >= Pow(B, di - 1)
    ensures Val(r[..Max(di, |d|)]) == Val(d) + Val(t)
    ensures Trim(d) && Trim(t) ==> Trim(r[..Max(di, |d|)])
  {
    ValExtend(t, di);
    if c == 1 {
      ValNBound(r, cap);
      ShlOne(cap);
      ValExtend(d, cap);
    }
    ShlZero(di);
    var n := Max(di, |d|);
    ValNTail(r, d, di, n);
    ValExtend(d, n);
    ValPrefix(r, n);
    RaiseTrim(r[..n], d, t, di);
  }

  lemma RaiseTrim(s: seq<Limb>, d: seq<Limb>, t: seq<Limb>, di: nat)
    requires |s| == Max(di, |d|) && |t| <= di && Val(s) == Val(d) + Val(t)
    requires di == |t| || Val(d) + Val(t) >= Pow(B, di - 1)
    ensures Trim(d) && Trim(t) ==> Trim(s)
  {
    ValBound(d);
    ValBound(t);
    if Trim(d) && Trim(t) && |s| > 0 {
      if |d| > di {
        TrimBound(d);
      } else if di == |t| {
        TrimBound(t);
      }
      BigIsTrim(s);
    }
  }

  /** A trimmed number whose shifted value fits the capacity also fits it limb by limb. */
  lemma ShiftFits(s: seq<Limb>, m: nat, cap: nat, p: int)
    requires Trim(s)
    ensures 0 <= Shl(Val(s), m)
    ensures Shl(Val(s), m) <= p < Pow(B, cap) && |s| > 0 ==> m + |s| <= cap
  {
    ValBound(s);
    ShlZero(m);
    ShlMono(0, Val(s), m);
    if Shl(Val(s), m) <= p < Pow(B, cap) && |s| > 0 {
      TrimBound(s);
      ShlMono(Pow(B, |s| - 1), Val(s), m);
      ShlOne(|s| - 1);
      ShlShl(1, |s| - 1, m);
      ShlOne(|s| - 1 + m);
      PowStrict(B, |s| - 1 + m, cap);
    }
  }
}
