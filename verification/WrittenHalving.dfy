/** The limb loops of the division that ends an inverse transform, for a modulus of whole limbs,
    n = 64 q: the increment of an odd element, the bit set above it, the shift, and the rounds. What
    they leave is what WrittenTransform is about. */
module WrittenHalving {
  import opened Arith
  import opened Limbs
  import opened BigInts
  import opened LimbDivision
  import opened WrittenTransform

  /** One is added to the `i` low limbs, with carry `c` out of them. */
  ghost predicate Raised(r: seq<Limb>, r0: seq<Limb>, i: nat, c: nat) {
    |r| == |r0| && c <= 1 && ValN(r, i) + Shl(c, i) == ValN(r0, i) + 1
  }

  lemma RaiseStep(r: seq<Limb>, r0: seq<Limb>, i: nat, s: Limb, c: nat)
    requires i < |r| == |r0| && Raised(r, r0, i, 1) && c <= 1 && c * B + s - r0[i] == 1
    ensures Raised(r[i := s], r0, i + 1, c)
  {
    ValNUpdate(r, i, s);
    ShlAdd(s, c * B, i);
    ShlAdd(r0[i], 1, i);
    ShlUp(c, i);
  }

  /** The carry either stops among the `n` limbs that count, or leaves all of them zero. */
  lemma RaiseDone(r: seq<Limb>, r0: seq<Limb>, i: nat, c: nat, n: nat)
    requires i <= n <= |r| && Raised(r, r0, i, c) && (i == n || c == 0)
    requires forall j :: i <= j < n ==> r[j] == r0[j]
    ensures 0 <= ValN(r0, n) && ValN(r, n) == WrappedUp(ValN(r0, n), n)
  {
    ValNTail(r, r0, i, n);
    ShlZero(i);
    ShlOne(i);
    ValNBound(r, n);
    ValNBound(r0, n);
    if i == n && c == 1 {
      DivModUnique(ValN(r0, n) + 1, Pow(B, n), 1, ValN(r, n));
    } else {
      DivModUnique(ValN(r0, n) + 1, Pow(B, n), 0, ValN(r, n));
    }
  }

  /** Limbs from `n` on do not count. */
  lemma OnlyBelow(r: seq<Limb>, p: seq<Limb>, n: nat)
    requires n <= |r| == |p| && forall j :: 0 <= j < n ==> r[j] == p[j]
    ensures ValN(r, n) == ValN(p, n)
  {
    ValNFrame(r, p, n);
  }

  /** Adds one, the carry running up to limb q + 1 whatever the length. */
  method Increment(x: BigInt, q: nat)
    requires x.Valid() && 1 <= x.n <= q + 1 < x.cap
    modifies x.buf
    ensures x.Mag() == WrappedUp(old(x.Mag()), x.n)
  {
    ghost var r, n := x.Phys(), x.n;
    x.MagPhys();
    var i: nat, carry: nat := 0, 1;
    assert Raised(r, r, 0, 1) by {
      assert Shl(1, 0) == 1;
    }
    while i <= q + 1 && carry == 1
      modifies x.buf
      invariant i <= q + 2 && Raised(x.Phys(), r, i, carry)
      invariant forall j :: i <= j < x.cap ==> x.Phys()[j] == r[j]
      invariant i > n ==> Raised(x.Phys(), r, n, 1)
    {
      ghost var p := x.Phys();
      var limb := x.buf[x.off + i];
      assert limb == p[i] == r[i];
      var next := (limb + 1) % B;
      x.Put(i, next);
      var out: nat := if next < limb then 1 else 0;
      RaiseStep(p, r, i, next, out);
      if i >= n {
        OnlyBelow(x.Phys(), p, n);
      }
      carry := out;
      i := i + 1;
    }
    if i > n {
      RaiseDone(x.Phys(), r, n, 1, n);
    } else {
      RaiseDone(x.Phys(), r, i, carry, n);
    }
    x.MagPhys();
  }

  /** One round: an odd element gets its one, and a bit in limb q + 1; the shift reads the limbs of its
      length. */
  method HalveRing(x: BigInt, q: nat)
    requires x.Valid() && x.sign == 1 && 1 <= x.n <= q + 1 < x.cap
    modifies x`n, x`sign, x.buf
    ensures x.Valid() && x.sign == 1 && x.Trimmed() && x.n <= old(x.n)
    ensures x.Mag() == WrittenHalve(old(x.Mag()), old(x.n))
  {
    ghost var v, n := x.Mag(), x.n;
    var lowest := x.buf[x.off];
    LowestBit(x.Limbs(), lowest);
    assert Pow(2, 0) == 1 && Pow(2, 1) == 2;
    if lowest % 2 == 1 {
      Increment(x, q);
      SetBit(x, q);
    }
    Rshift(x, 1);
  }

  lemma LowestBit(s: seq<Limb>, lowest: Limb)
    requires |s| >= 1 && lowest == s[0]
    ensures 0 <= Val(s) && Val(s) % 2 == lowest % 2
  {
    ValCut(s, 1);
    ValBound(s);
    assert s[..1] == [lowest];
    SingleLimb(lowest);
    assert Shl(Val(s[1..]), 1) == B * Shl(Val(s[1..]), 0);
    EvenShift(Val(s), lowest, Val(s[1..]));
  }

  lemma EvenShift(v: nat, low: nat, rest: int)
    requires v == low + B * rest
    ensures v % 2 == low % 2
  {
  }

  /** The lowest bit of limb q + 1, above everything that is read. */
  method SetBit(x: BigInt, q: nat)
    requires x.Valid() && x.n <= q + 1 < x.cap
    modifies x.buf
    ensures x.Mag() == old(x.Mag())
  {
    ghost var p := x.Phys();
    x.MagPhys();
    var limb := x.buf[x.off + q + 1];
    x.Put(q + 1, if limb % 2 == 1 then limb else limb + 1);
    OnlyBelow(x.Phys(), p, x.n);
    x.MagPhys();
  }

  /** All the rounds: what they leave is the written division by 2^k, from the length the element was
      kept in. */
  method DivideRing(x: BigInt, k: nat, q: nat)
    requires x.Valid() && x.sign == 1 && x.n <= q + 1 < x.cap
    modifies x`n, x`sign, x.buf
    ensures x.Valid() && x.sign == 1 && x.Trimmed()
    ensures x.Mag() == WrittenTimes(old(x.Mag()), k, old(x.n))
  {
    ghost var v, len := x.Mag(), x.n;
    for round := 0 to k
      modifies x`n, x`sign, x.buf
      invariant x.Valid() && x.sign == 1 && x.n <= q + 1
      invariant WrittenTimes(x.Mag(), k - round, x.n) == WrittenTimes(v, k, len)
    {
      if x.n == 0 {
        assert x.Limbs() == [];
        WrittenZero(k - round, 0);
        break;
      }
      HalveRing(x, q);
      TrimmedCount(x.Limbs());
    }
    x.TrimLz();
  }
}
