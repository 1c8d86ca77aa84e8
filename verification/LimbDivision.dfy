/** Limb-wise multiplication and division by a small factor: bit shifts, division by three and
    division by one limb. The divisions run from the top limb down with a running remainder. */
module LimbDivision {
  import opened Arith
  import opened Limbs
  import opened Intrinsics
  import opened BigInts

  // ------------------------------------------------------------------ Horner form

  /** The value of the limbs from position `i` up. */
  ghost function ValFrom(s: seq<Limb>, i: nat): int
    decreases |s| - i
  {
    if i >= |s| then 0 else s[i] + 0x1_0000_0000_0000_0000 * ValFrom(s, i + 1)
  }

  lemma {:induction false} HornerCut(s: seq<Limb>, i: nat)
    requires i <= |s|
    ensures Val(s) == ValN(s, i) + Shl(ValFrom(s, i), i)
    decreases |s| - i
  {
    if i == |s| {
      ShlZero(i);
    } else {
      HornerCut(s, i + 1);
      ShlAdd(s[i], B * ValFrom(s, i + 1), i);
      ShlUp(ValFrom(s, i + 1), i);
    }
  }

  lemma {:induction false} HornerFrame(s: seq<Limb>, t: seq<Limb>, i: nat)
    requires |s| == |t| && forall j :: i <= j < |s| ==> s[j] == t[j]
    ensures ValFrom(s, i) == ValFrom(t, i)
    decreases |s| - i
  {
    if i < |s| {
      HornerFrame(s, t, i + 1);
    }
  }

  /** The limbs of `x` from `i` up are divided by `d`, leaving `rem`. */
  ghost predicate Divided(r: seq<Limb>, x: seq<Limb>, i: nat, d: int, rem: int) {
    |r| == |x| && 0 <= rem < d && ValFrom(r, i) * d + rem == ValFrom(x, i)
  }

  lemma DivStep(r: seq<Limb>, x: seq<Limb>, i: nat, d: int, rem: int, q: Limb, rem': int)
    requires Divided(r, x, i + 1, d, rem) && i < |r|
    requires x[i] + rem * B == q * d + rem' && 0 <= rem' < d
    ensures Divided(r[i := q], x, i, d, rem')
  {
    HornerFrame(r, r[i := q], i + 1);
    var f := ValFrom(r, i + 1);
    calc {
      (q + B * f) * d + rem';
      q * d + rem' + B * (f * d);
      x[i] + rem * B + B * (f * d);
      x[i] + B * (f * d + rem);
    }
  }

  lemma DivDone(r: seq<Limb>, x: seq<Limb>, d: int, rem: int)
    requires Divided(r, x, 0, d, rem)
    ensures Val(x) == Val(r) * d + rem && 0 <= rem < d
    ensures Val(r) == Val(x) / d && rem == Val(x) % d
  {
    HornerCut(r, 0);
    HornerCut(x, 0);
    DivModUnique(Val(x), d, Val(r), rem);
  }

  // ------------------------------------------------------------------ one limb at a time

  /** Splitting a shift of a limb by `k` bits, with K = 2^k and L = 2^(64-k). */
  lemma BitWeights(k: nat)
    requires k <= 64
    ensures Pow(2, k) * Pow(2, 64 - k) == B && Pow(2, k) >= 1 && Pow(2, 64 - k) >= 1
  {
    PowAdd(2, k, 64 - k);
    PowPos(2, k);
    PowPos(2, 64 - k);
    PowMul(2, 16, 4);
    assert Pow(2, 16) == 0x1_0000 by {
      PowMul(2, 4, 4);
      assert Pow(2, 4) == 16;
      assert Pow(16, 4) == 16 * (16 * (16 * (16 * 1)));
    }
    assert Pow(0x1_0000, 4) == 0x1_0000 * (0x1_0000 * (0x1_0000 * (0x1_0000 * 1)));
  }

  /** `limb << k` with the bits shifted in, and the bits shifted out. */
  method ShiftLimbUp(x: Limb, k: nat, bitsIn: nat) returns (r: Limb, bitsOut: nat)
    requires 0 < k < 64 && bitsIn < Pow(2, k)
    ensures r + bitsOut * B == x * Pow(2, k) + bitsIn && bitsOut < Pow(2, k)
  {
    BitWeights(k);
    var K, L := Pow(2, k), Pow(2, 64 - k);
    UpSplit(x, K, L);
    r, bitsOut := (x * K) % B + bitsIn, x / L;
  }

  lemma UpSplit(x: Limb, K: int, L: int)
    requires K * L == B && K >= 1 && L >= 1
    ensures (x * K) % B + x / L * B == x * K
    ensures 0 <= (x * K) % B <= B - K && 0 <= x / L < K
  {
    var q, m := x / L, x % L;
    assert x == q * L + m;
    calc {
      x * K;
      (q * L + m) * K;
      q * (K * L) + m * K;
    }
    MulMono(m + 1, L, K);
    MulNat(m, K);
    assert (m + 1) * K == m * K + K;
    DivModUnique(x * K, B, q, m * K);
    if q >= K {
      MulMono(K, q, L);
    }
    if q < 0 {
      MulMono(q, -1, L);
    }
  }

  /** `limb >> k` with the bits carried down from the limb above, and the bits carried on. */
  method ShiftLimbDown(x: Limb, k: nat, carry: nat) returns (q: Limb, carryOut: nat)
    requires 0 < k < 64 && carry < Pow(2, k)
    ensures x + carry * B == q * Pow(2, k) + carryOut && carryOut < Pow(2, k)
  {
    BitWeights(k);
    var K, L := Pow(2, k), Pow(2, 64 - k);
    DownSplit(x, carry, K, L);
    q, carryOut := x / K + carry * L, x % K;
  }

  lemma DownSplit(x: Limb, carry: int, K: int, L: int)
    requires K * L == B && K >= 1 && L >= 1 && 0 <= carry < K
    ensures 0 <= x / K + carry * L < B
    ensures x + carry * B == (x / K + carry * L) * K + x % K && 0 <= x % K < K
  {
    var q, m := x / K, x % K;
    assert x == q * K + m;
    assert (q + carry * L) * K == q * K + carry * (K * L);
    if q >= L {
      MulMono(L, q, K);
    }
    if q < 0 {
      MulMono(q, -1, K);
    }
    MulMono(carry, K - 1, L);
    MulNat(carry, L);
  }

  /** Division of a limb by three through the reciprocal (2 * 2^64 + 1) / 3. */
  method ThirdOfLimb(x: Limb, rem: nat) returns (q: Limb, remOut: nat)
    requires rem < 3
    ensures x + rem * B == q * 3 + remOut && remOut < 3
  {
    var low, high := MulLimb(x, 0xAAAA_AAAA_AAAA_AAAB);
    var qa := high / 2;
    assert qa == x / 3;
    var sum := rem + (x - qa * 3);
    var flag := if sum >= 3 then 1 else 0;
    q, remOut := qa + rem * 0x5555_5555_5555_5555 + flag, sum - 3 * flag;
  }

  // ------------------------------------------------------------------ the loops

  ghost function Halved(x: int, k: nat): int {
    PowPos(2, k);
    x / Pow(2, k)
  }

  /** The loop state of a division of `x` into `quot`: limbs from `i` up are divided, and the
      dividend `a`, which may be `quot` itself, is untouched below `i`. */
  ghost predicate Dividing(quot: BigInt, a: BigInt, x: seq<Limb>, i: nat, d: int, rem: int)
    requires quot.Valid() && a.Valid()
    reads quot, quot.buf, a, a.buf
  {
    && a.n == |x| <= quot.cap
    && (forall j :: 0 <= j < i && j < |x| ==> x[j] == a.Phys()[j])
    && Divided(quot.Phys()[..|x|], x, i, d, rem)
  }

  /** Stores one quotient limb, possibly over the dividend limb it came from. */
  method StoreQuotient(quot: BigInt, a: BigInt, i: nat, q: Limb, ghost x: seq<Limb>, ghost d: int,
                       ghost rem: nat, ghost remOut: nat)
    requires quot.Valid() && a.Valid() && quot.Apart(a) && i < a.n
    requires Dividing(quot, a, x, i + 1, d, rem)
    requires a.buf[a.off + i] + rem * B == q * d + remOut && remOut < d
    modifies quot.buf
    ensures Dividing(quot, a, x, i, d, remOut)
  {
    ghost var r := quot.Phys()[..|x|];
    assert x[i] == a.Phys()[i];
    DivStep(r, x, i, d, rem, q, remOut);
    quot.Put(i, q);
    assert quot.Phys()[..|x|] == r[i := q];
  }

  /** Right shift by fewer than 64 bits: the magnitude is halved `k` times, rounding down. */
  method Rshift(x: BigInt, k: nat)
    requires x.Valid() && k < 64
    modifies x`n, x`sign, x.buf
    ensures x.Valid() && x.n <= old(x.n) && x.Mag() == Halved(old(x.Mag()), k)
    ensures k > 0 || old(x.Trimmed()) ==> x.Trimmed()
    ensures x.sign == if k > 0 && x.n == 0 then 1 else old(x.sign)
  {
    if k == 0 {
      return;
    }
    RshiftLimbs(x, k);
    x.TrimLz();
  }

  method RshiftLimbs(x: BigInt, k: nat)
    requires x.Valid() && 0 < k < 64
    modifies x.buf
    ensures x.Mag() == Halved(old(x.Mag()), k)
  {
    ghost var s := x.Limbs();
    PowPos(2, k);
    var i, carry := x.n, 0;
    while i > 0
      invariant 0 <= i <= x.n && Dividing(x, x, s, i, Pow(2, k), carry)
    {
      i := i - 1;
      carry := RshiftOne(x, k, i, carry, s);
    }
    DivDone(x.Phys()[..x.n], s, Pow(2, k), carry);
  }

  method RshiftOne(x: BigInt, k: nat, i: nat, carry: nat, ghost s: seq<Limb>) returns (carryOut: nat)
    requires x.Valid() && 0 < k < 64 && i < x.n && Dividing(x, x, s, i + 1, Pow(2, k), carry)
    modifies x.buf
    ensures Dividing(x, x, s, i, Pow(2, k), carryOut)
  {
    var q;
    q, carryOut := ShiftLimbDown(x.buf[x.off + i], k, carry);
    StoreQuotient(x, x, i, q, s, Pow(2, k), carry, carryOut);
  }

  /** Division by three, in place. */
  method Div3(x: BigInt)
    requires x.Valid()
    modifies x`n, x`sign, x.buf
    ensures x.Valid() && x.n <= old(x.n) && x.Mag() == old(x.Mag()) / 3 && x.Trimmed()
    ensures x.sign == if old(x.n) > 0 && x.n == 0 then 1 else old(x.sign)
  {
    if x.n == 0 {
      return;
    }
    Div3Limbs(x);
    x.TrimLz();
  }

  method Div3Limbs(x: BigInt)
    requires x.Valid()
    modifies x.buf
    ensures x.Mag() == old(x.Mag()) / 3
  {
    ghost var s := x.Limbs();
    var i, rem := x.n, 0;
    while i > 0
      invariant 0 <= i <= x.n && Dividing(x, x, s, i, 3, rem)
    {
      i := i - 1;
      rem := Div3One(x, i, rem, s);
    }
    DivDone(x.Phys()[..x.n], s, 3, rem);
  }

  method Div3One(x: BigInt, i: nat, rem: nat, ghost s: seq<Limb>) returns (remOut: nat)
    requires x.Valid() && i < x.n && Dividing(x, x, s, i + 1, 3, rem)
    modifies x.buf
    ensures Dividing(x, x, s, i, 3, remOut)
  {
    var q;
    q, remOut := ThirdOfLimb(x.buf[x.off + i], rem);
    StoreQuotient(x, x, i, q, s, 3, rem, remOut);
  }

  /** Division by one limb. The running remainder stays below the divisor, so no two-limb division
      ever overflows; the quotient may overwrite the dividend. */
  method ShortDivision(a: BigInt, b: Limb, quot: BigInt) returns (rem: Limb)
    requires a.Valid() && quot.Valid() && quot.Apart(a) && a.n <= quot.cap && b > 0
    modifies quot`n, quot`sign, quot.buf
    ensures quot.Valid() && quot.Trimmed() && rem < b
    ensures old(a.Mag()) == b * quot.Mag() + rem
    ensures old(quot.sign) == 1 ==> quot.sign == 1
  {
    rem := ShortDivisionLimbs(a, b, quot);
    quot.SetLen(a.n);
    quot.TrimLz();
  }

  method ShortDivisionLimbs(a: BigInt, b: Limb, quot: BigInt) returns (rem: Limb)
    requires a.Valid() && quot.Valid() && quot.Apart(a) && a.n <= quot.cap && b > 0
    modifies quot.buf
    ensures rem < b && old(a.Mag()) == b * Val(quot.Phys()[..a.n]) + rem
  {
    ghost var x := a.Limbs();
    var i := a.n;
    rem := 0;
    while i > 0
      invariant 0 <= i <= a.n && Dividing(quot, a, x, i, b, rem)
    {
      i := i - 1;
      rem := ShortDivisionOne(a, b, quot, i, rem, x);
    }
    DivDone(quot.Phys()[..a.n], x, b, rem);
  }

  method ShortDivisionOne(a: BigInt, b: Limb, quot: BigInt, i: nat, rem: Limb, ghost x: seq<Limb>)
    returns (remOut: Limb)
    requires a.Valid() && quot.Valid() && quot.Apart(a) && i < a.n && b > 0
    requires Dividing(quot, a, x, i + 1, b, rem)
    modifies quot.buf
    ensures Dividing(quot, a, x, i, b, remOut)
  {
    var q, overflowed;
    q, remOut, overflowed := DivLimb(a.buf[a.off + i], rem, b);
    StoreQuotient(quot, a, i, q, x, b, rem, remOut);
  }

  // ------------------------------------------------------------------ left shift

  /** The `i` low limbs are shifted up by a factor `K`, with `bits` shifted out of them. */
  ghost predicate ShiftedUp(r: seq<Limb>, x: seq<Limb>, i: nat, K: int, bits: int) {
    0 <= bits < K && ValN(r, i) + Shl(bits, i) == K * ValN(x, i)
  }

  lemma ShiftStep(r: seq<Limb>, x: seq<Limb>, i: nat, K: int, bits: int, s: Limb, bits': int)
    requires ShiftedUp(r, x, i, K, bits) && i < |r| && 0 <= bits' < K
    requires s + bits' * B == At(x, i) * K + bits
    ensures ShiftedUp(r[i := s], x, i + 1, K, bits')
  {
    ValNUpdate(r, i, s);
    ShlAdd(s, bits' * B, i);
    ShlUp(bits', i);
    ShlAdd(At(x, i) * K, bits, i);
    ShlScale(At(x, i), K, i);
    Distribute(K, ValN(x, i), Shl(At(x, i), i));
  }

  lemma Distribute(a: int, b: int, c: int)
    ensures a * (b + c) == a * b + a * c
  {
  }

  /** The bits shifted out of the top become one more limb, for which there is room. */
  lemma ShiftDone(r: seq<Limb>, x: seq<Limb>, K: int, bits: int, cap: nat)
    requires |x| <= cap == |r| && ShiftedUp(r, x, |x|, K, bits) && K <= B
    requires K * Val(x) < Pow(B, cap)
    ensures bits > 0 ==> |x| < cap
    ensures Val(if bits > 0 then r[..|x|] + [bits] else r[..|x|]) == K * Val(x)
  {
    var n := |x|;
    ValNBound(r, n);
    ShlOne(n);
    ShlZero(n);
    if bits > 0 {
      ShlMono(1, bits, n);
      ValNFrame(r, r[..n] + [bits], n);
    } else {
      ValPrefix(r, n);
    }
  }

  /** Left shift by fewer than 64 bits, growing by at most one limb. */
  method Lshift(x: BigInt, k: nat)
    requires x.Valid() && k < 64 && Pow(2, k) * x.Mag() < Pow(B, x.cap)
    modifies x`n, x`sign, x.buf
    ensures x.Valid() && x.Mag() == Pow(2, k) * old(x.Mag())
    ensures k > 0 || old(x.Trimmed()) ==> x.Trimmed()
    ensures x.sign == if k > 0 && x.n == 0 then 1 else old(x.sign)
  {
    if k == 0 {
      return;
    }
    ghost var s := x.Limbs();
    var bits := LshiftLimbs(x, k);
    BitWeights(k);
    MulMono(1, Pow(2, 64 - k), Pow(2, k));
    ShiftDone(x.Phys(), s, Pow(2, k), bits, x.cap);
    if bits > 0 {
      x.Push(bits);
    }
    x.TrimLz();
  }

  method LshiftLimbs(x: BigInt, k: nat) returns (bits: nat)
    requires x.Valid() && 0 < k < 64
    modifies x.buf
    ensures ShiftedUp(x.Phys(), old(x.Limbs()), x.n, Pow(2, k), bits)
  {
    ghost var s := x.Limbs();
    PowPos(2, k);
    bits := 0;
    for i := 0 to x.n
      invariant x.Unread(s, i) && ShiftedUp(x.Phys(), s, i, Pow(2, k), bits)
    {
      bits := LshiftOne(x, k, i, bits, s);
    }
  }

  method LshiftOne(x: BigInt, k: nat, i: nat, bits: nat, ghost s: seq<Limb>) returns (bitsOut: nat)
    requires x.Valid() && 0 < k < 64 && i < x.n && x.Unread(s, i)
    requires ShiftedUp(x.Phys(), s, i, Pow(2, k), bits)
    modifies x.buf
    ensures x.Unread(s, i + 1) && ShiftedUp(x.Phys(), s, i + 1, Pow(2, k), bitsOut)
  {
    var u := x.Get(i, s);
    ghost var r := x.Phys();
    var t;
    t, bitsOut := ShiftLimbUp(u, k, bits);
    x.Put(i, t);
    ShiftStep(r, s, i, Pow(2, k), bits, t, bitsOut);
  }
}
