/** 64-bit limbs, and the number a little-endian sequence of limbs stands for. */
module Limbs {
  import opened Arith

  const B: int := 0x1_0000_0000_0000_0000

  type Limb = x: int | 0 <= x < 0x1_0000_0000_0000_0000

  /** `x` moved up by `i` limbs, that is x * B^i; written so that it stays linear in `x`. */
  ghost function Shl(x: int, i: nat): int {
    if i == 0 then x else 0x1_0000_0000_0000_0000 * Shl(x, i - 1)
  }

  /** The limb at position `i`, reading zero above the length as the C loops do. */
  function At(s: seq<Limb>, i: nat): Limb {
    if i < |s| then s[i] else 0
  }

  /** The value of the `i` low limbs of `s`, zero-extended. */
  ghost function ValN(s: seq<Limb>, i: nat): int {
    if i == 0 then 0 else ValN(s, i - 1) + Shl(At(s, i - 1), i - 1)
  }

  ghost function Val(s: seq<Limb>): int {
    ValN(s, |s|)
  }

  /** No leading zero limb: the top limb of a non-empty number is non-zero. */
  ghost predicate Trim(s: seq<Limb>) {
    |s| > 0 ==> s[|s| - 1] != 0
  }

  /** A limb has 64 bits. */
  lemma LimbIsPower(e: nat)
    requires e == 64
    ensures Pow(2, e) == B
  {
    assert Pow(2, 4) == 16;
    PowAdd(2, 4, 4);
    PowAdd(2, 8, 8);
    PowAdd(2, 16, 16);
    PowAdd(2, 32, 32);
  }

  lemma {:induction false} ShlAdd(x: int, y: int, i: nat)
    ensures Shl(x + y, i) == Shl(x, i) + Shl(y, i)
  {
    if i > 0 {
      ShlAdd(x, y, i - 1);
    }
  }

  lemma {:induction false} ShlUp(x: int, i: nat)
    ensures Shl(x * B, i) == Shl(x, i + 1)
  {
    if i > 0 {
      ShlUp(x, i - 1);
    }
  }

  lemma {:induction false} ShlMono(x: int, y: int, i: nat)
    requires x <= y
    ensures Shl(x, i) <= Shl(y, i)
    ensures x < y ==> Shl(x, i) < Shl(y, i)
  {
    if i > 0 {
      ShlMono(x, y, i - 1);
    }
  }

  lemma {:induction false} ShlPow(x: int, i: nat)
    ensures Shl(x, i) == x * Pow(B, i)
  {
    if i > 0 {
      ShlPow(x, i - 1);
      assert B * (x * Pow(B, i - 1)) == x * (B * Pow(B, i - 1));
    }
  }

  lemma {:induction false} ShlShl(x: int, i: nat, k: nat)
    ensures Shl(Shl(x, i), k) == Shl(x, i + k)
  {
    if k > 0 {
      ShlShl(x, i, k - 1);
    }
  }

  lemma {:induction false} ShlScale(x: int, K: int, i: nat)
    ensures Shl(x * K, i) == K * Shl(x, i)
  {
    if i > 0 {
      ShlScale(x, K, i - 1);
    }
  }

  lemma ShlZero(i: nat)
    ensures Shl(0, i) == 0
  {
    ShlAdd(0, 0, i);
  }

  lemma ShlOne(i: nat)
    ensures Shl(1, i) == Pow(B, i) > 0
  {
    ShlPow(1, i);
    PowPos(B, i);
  }

  /** A limb at position `i` weighs between 0 and B^(i+1) - B^i, and at least B^i if non-zero. */
  lemma LimbWeight(x: Limb, i: nat)
    ensures 0 <= Shl(x, i) <= Pow(B, i + 1) - Pow(B, i)
    ensures x > 0 ==> Shl(x, i) >= Pow(B, i)
  {
    ShlZero(i);
    ShlOne(i);
    ShlOne(i + 1);
    ShlMono(0, x, i);
    ShlAdd(B - 1, 1, i);
    ShlUp(1, i);
    ShlMono(x, B - 1, i);
    if x > 0 {
      ShlMono(1, x, i);
    }
  }

  lemma {:induction false} ValNBound(s: seq<Limb>, i: nat)
    ensures 0 <= ValN(s, i) < Pow(B, i)
  {
    if i > 0 {
      ValNBound(s, i - 1);
      LimbWeight(At(s, i - 1), i - 1);
    }
  }

  lemma ValBound(s: seq<Limb>)
    ensures 0 <= Val(s) < Pow(B, |s|)
  {
    ValNBound(s, |s|);
  }

  /** Only the low `i` limbs matter. */
  lemma {:induction false} ValNFrame(s: seq<Limb>, t: seq<Limb>, i: nat)
    requires forall j :: 0 <= j < i ==> At(s, j) == At(t, j)
    ensures ValN(s, i) == ValN(t, i)
  {
    if i > 0 {
      ValNFrame(s, t, i - 1);
    }
  }

  /** Limbs from `i` to `k` on which two numbers agree add the same amount to both. */
  lemma {:induction false} ValNTail(s: seq<Limb>, t: seq<Limb>, i: nat, k: nat)
    requires i <= k
    requires forall j :: i <= j < k ==> At(s, j) == At(t, j)
    ensures ValN(s, k) - ValN(s, i) == ValN(t, k) - ValN(t, i)
  {
    if i < k {
      ValNTail(s, t, i, k - 1);
    }
  }

  /** Limbs from `i` to `k` that are all zero add nothing. */
  lemma {:induction false} ValNZeros(s: seq<Limb>, i: nat, k: nat)
    requires i <= k
    requires forall j :: i <= j < k ==> At(s, j) == 0
    ensures ValN(s, k) == ValN(s, i)
  {
    if i < k {
      ValNZeros(s, i, k - 1);
      ShlZero(k - 1);
    }
  }

  lemma ValExtend(s: seq<Limb>, k: nat)
    requires |s| <= k
    ensures ValN(s, k) == Val(s)
  {
    ValNZeros(s, |s|, k);
  }

  lemma SingleLimb(x: Limb)
    ensures Val([x]) == x
  {
    var s := [x];
    assert ValN(s, 1) == ValN(s, 0) + Shl(At(s, 0), 0);
  }

  lemma ValPrefix(s: seq<Limb>, i: nat)
    requires i <= |s|
    ensures Val(s[..i]) == ValN(s, i)
  {
    ValNFrame(s, s[..i], i);
  }

  lemma {:induction false} ValNMono(s: seq<Limb>, i: nat, k: nat)
    requires i <= k
    ensures ValN(s, i) <= ValN(s, k)
  {
    if i < k {
      ValNMono(s, i, k - 1);
      LimbWeight(At(s, k - 1), k - 1);
    }
  }

  /** A trimmed number of `n` limbs lies in [B^(n-1), B^n). */
  lemma TrimBound(s: seq<Limb>)
    requires Trim(s) && |s| > 0
    ensures Pow(B, |s| - 1) <= Val(s) < Pow(B, |s|)
  {
    ValBound(s);
    ValNBound(s, |s| - 1);
    LimbWeight(s[|s| - 1], |s| - 1);
  }

  lemma TrimFits(s: seq<Limb>, k: nat)
    requires Trim(s) && Val(s) < Pow(B, k)
    ensures |s| <= k
  {
    if |s| > 0 {
      TrimBound(s);
      PowStrict(B, |s| - 1, k);
    }
  }

  /** A number of `n` limbs that reaches B^(n-1) has no leading zero limb. */
  lemma BigIsTrim(s: seq<Limb>)
    requires |s| > 0 ==> Val(s) >= Pow(B, |s| - 1)
    ensures Trim(s)
  {
    if |s| > 0 && s[|s| - 1] == 0 {
      ShlZero(|s| - 1);
      ValNBound(s, |s| - 1);
    }
  }

  lemma {:induction false} ValSplit(s: seq<Limb>, i: nat, k: nat)
    requires i <= |s|
    ensures ValN(s, i + k) == ValN(s, i) + Shl(ValN(s[i..], k), i)
  {
    if k == 0 {
      ShlZero(i);
    } else {
      ValSplit(s, i, k - 1);
      assert At(s, i + k - 1) == At(s[i..], k - 1);
      ShlAdd(ValN(s[i..], k - 1), Shl(At(s, i + k - 1), k - 1), i);
      ShlShl(At(s, i + k - 1), k - 1, i);
    }
  }

  /** Low part plus high part times the weight of the cut. */
  lemma ValCut(s: seq<Limb>, i: nat)
    requires i <= |s|
    ensures Val(s) == Val(s[..i]) + Shl(Val(s[i..]), i)
  {
    var hi, k := s[i..], |s| - i;
    assert |hi| == k;
    ValSplit(s, i, k);
    ValPrefix(s, i);
  }

  /** Writing position `i` leaves the limbs below it alone. */
  lemma ValNUpdate(s: seq<Limb>, i: nat, x: Limb)
    requires i < |s|
    ensures ValN(s[i := x], i) == ValN(s, i)
    ensures ValN(s[i := x], i + 1) == ValN(s, i) + Shl(x, i)
  {
    ValNFrame(s, s[i := x], i);
  }

  // ---------------------------------------------------------------- comparison

  /** Longer means larger; equal lengths are compared from the top limb down. */
  function CompLimbs(x: seq<Limb>, y: seq<Limb>): int {
    if |x| != |y| then (if |x| > |y| then 1 else -1)
    else CompTop(x, y, |x|)
  }

  function CompTop(x: seq<Limb>, y: seq<Limb>, i: nat): int
    requires i <= |x| == |y|
  {
    if i == 0 then 0
    else if x[i - 1] != y[i - 1] then (if x[i - 1] > y[i - 1] then 1 else -1)
    else CompTop(x, y, i - 1)
  }

  lemma TopDecides(x: seq<Limb>, y: seq<Limb>, i: nat)
    requires i < |x| && i < |y| && x[i] < y[i]
    ensures ValN(x, i + 1) < ValN(y, i + 1)
  {
    ValNBound(x, i);
    ValNBound(y, i);
    ShlAdd(x[i], 1, i);
    ShlOne(i);
    ShlMono(x[i] + 1, y[i], i);
  }

  lemma {:induction false} CompTopValue(x: seq<Limb>, y: seq<Limb>, i: nat)
    requires i <= |x| == |y|
    ensures CompTop(x, y, i) == Sgn(ValN(x, i) - ValN(y, i))
  {
    if i > 0 {
      if x[i - 1] > y[i - 1] {
        TopDecides(y, x, i - 1);
      } else if x[i - 1] < y[i - 1] {
        TopDecides(x, y, i - 1);
      } else {
        CompTopValue(x, y, i - 1);
      }
    }
  }

  /** The comparison by length is the comparison by value exactly when an operand that is
      longer is also larger. Equal lengths are always compared correctly. */
  lemma CompExact(x: seq<Limb>, y: seq<Limb>)
    ensures CompLimbs(x, y) == Sgn(Val(x) - Val(y))
       <==> (|x| > |y| ==> Val(x) > Val(y)) && (|y| > |x| ==> Val(y) > Val(x))
  {
    if |x| == |y| {
      CompTopValue(x, y, |x|);
    }
  }

  lemma LongerIsLarger(x: seq<Limb>, y: seq<Limb>)
    requires Trim(x) && |x| > |y|
    ensures Val(x) > Val(y)
  {
    TrimBound(x);
    ValBound(y);
    PowMono(B, |y|, |x| - 1);
  }

  lemma CompTrimmed(x: seq<Limb>, y: seq<Limb>)
    requires Trim(x) && Trim(y)
    ensures CompLimbs(x, y) == Sgn(Val(x) - Val(y))
  {
    if |x| > |y| {
      LongerIsLarger(x, y);
    } else if |y| > |x| {
      LongerIsLarger(y, x);
    }
    CompExact(x, y);
  }

  /** The limbs of an operand between two cuts. */
  function PartSize(n: nat, from: nat, k: nat): nat {
    if n > from then Min(k, n - from) else 0
  }

  /** Up to `k` limbs from limb `from` on. */
  ghost function Piece(s: seq<Limb>, from: nat, k: nat): (t: seq<Limb>)
    ensures |t| <= k
  {
    var len := PartSize(|s|, from, k);
    if len == 0 then [] else s[from..from + len]
  }

  lemma PieceBound(s: seq<Limb>, from: nat, k: nat)
    ensures 0 <= Val(Piece(s, from, k)) < Pow(B, k)
  {
    ValBound(Piece(s, from, k));
    PowMono(B, |Piece(s, from, k)|, k);
  }

  /** How many limbs a number takes, trimmed. */
  function LimbCount(x: nat): nat {
    if x == 0 then 0 else 1 + LimbCount(x / B)
  }

  lemma {:induction false} LimbCountFits(x: nat)
    ensures x < Pow(B, LimbCount(x))
  {
    if x > 0 {
      LimbCountFits(x / B);
      MulMono(x / B + 1, Pow(B, LimbCount(x / B)), B);
      MulComm(Pow(B, LimbCount(x / B)), B);
    }
  }

  lemma {:induction false} LimbCountAtMost(x: nat, i: nat)
    requires x < Pow(B, i)
    ensures LimbCount(x) <= i
  {
    if x > 0 {
      MulCancel(x / B, Pow(B, i - 1), B);
      LimbCountAtMost(x / B, i - 1);
    }
  }

  lemma {:induction false} LimbCountIs(v: nat, k: nat)
    requires k >= 1 && Pow(B, k - 1) <= v < Pow(B, k)
    ensures LimbCount(v) == k
  {
    PowPos(B, k - 1);
    if k > 1 {
      MulCancel(v / B, Pow(B, k - 1), B);
      MulCancel(Pow(B, k - 2), v / B + 1, B);
      LimbCountIs(v / B, k - 1);
    } else {
      assert Pow(B, 1) == B && v / B == 0 && LimbCount(0) == 0;
    }
  }

  /** A trimmed number has as many limbs as its value takes. */
  lemma TrimmedCount(s: seq<Limb>)
    requires Trim(s)
    ensures 0 <= Val(s) && LimbCount(Val(s)) == |s|
  {
    ValBound(s);
    if |s| > 0 {
      TrimBound(s);
      LimbCountIs(Val(s), |s|);
    }
  }
}
