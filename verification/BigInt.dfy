/** The `bigInt` structure: a limb buffer with a length, a capacity and a sign. Views share the
    buffer of another number at an offset, as the split operands of the fast algorithms do. */
module BigInts {
  import opened Arith
  import opened Limbs
  import opened Intrinsics
  import opened CarryChain

  /** A magnitude with a sign. */
  ghost function Signed(sign: int, mag: int): int {
    if sign < 0 then -mag else mag
  }

  class BigInt {
    const buf: array<Limb>
    const off: nat
    const cap: nat
    var n: nat
    var sign: int

    ghost predicate Valid()
      reads this
    {
      n <= cap && off + cap <= buf.Length && (sign == 1 || sign == -1)
    }

    /** Every limb of the capacity, stale ones included. */
    ghost function Phys(): seq<Limb>
      requires off + cap <= buf.Length
      reads buf
    {
      buf[off..off + cap]
    }

    ghost function Limbs(): seq<Limb>
      requires Valid()
      reads this, buf
    {
      Phys()[..n]
    }

    ghost function Mag(): nat
      requires Valid()
      reads this, buf
    {
      ValBound(Limbs());
      Val(Limbs())
    }

    ghost function Int(): int
      requires Valid()
      reads this, buf
    {
      Signed(sign, Mag())
    }

    ghost predicate Trimmed()
      requires Valid()
      reads this, buf
    {
      Trim(Limbs())
    }

    /** An operand is either the result itself or lives in another buffer. */
    ghost predicate Apart(o: BigInt) {
      o == this || o.buf != buf
    }

    lemma MagPhys()
      requires Valid()
      ensures Mag() == ValN(Phys(), n)
    {
      ValNFrame(Limbs(), Phys(), n);
    }

    constructor Fresh(capacity: nat)
      ensures Valid() && n == 0 && sign == 1 && cap == capacity && off == 0
      ensures fresh(buf)
    {
      var b := new Limb[capacity];
      buf, off, cap, n, sign := b, 0, capacity, 0, 1;
    }

    /** A view of `len` limbs of `o` from limb `start` on; an empty one when `o` is shorter. */
    constructor View(o: BigInt, start: nat, len: nat)
      requires o.Valid() && (start + len <= o.n || len == 0)
      ensures Valid() && buf == o.buf && n == cap == len && sign == 1
      ensures Limbs() == if len == 0 then [] else o.Limbs()[start..start + len]
    {
      buf, off, cap, n, sign := o.buf, if len == 0 then o.off else o.off + start, len, len, 1;
      new;
      if len > 0 {
        ghost var t := o.Limbs()[start..start + len];
        assert forall j :: 0 <= j < len ==> t[j] == o.buf[o.off + start + j];
        assert forall j :: 0 <= j < len ==> t[j] == Limbs()[j];
        assert Limbs() == t;
      }
    }

    method ZeroSet()
      requires Valid()
      modifies this`n, this`sign
      ensures Valid() && n == 0 && sign == 1
    {
      n, sign := 0, 1;
    }

    /** Drops leading zero limbs. */
    method TrimLz()
      requires Valid()
      modifies this`n, this`sign
      ensures Valid() && n <= old(n) && Trimmed()
      ensures Mag() == old(Mag()) && (n == old(n) <==> old(Trimmed()))
      ensures sign == if n == 0 then 1 else old(sign)
    {
      ghost var s := Phys();
      MagPhys();
      while n > 0 && buf[off + n - 1] == 0
        invariant n <= old(n) && sign == old(sign)
        invariant ValN(s, n) == ValN(s, old(n)) && (n < old(n) ==> s[old(n) - 1] == 0)
      {
        n := n - 1;
        ShlZero(n);
      }
      if n == 0 {
        sign := 1;
      }
      MagPhys();
    }

    method Copy(o: BigInt)
      requires Valid() && o.Valid() && Apart(o) && o.n <= cap
      modifies this`n, this`sign, buf
      ensures Valid() && Limbs() == old(o.Limbs())
      ensures sign == if old(o.n) == 0 then 1 else old(o.sign)
    {
      if o.n == 0 {
        ZeroSet();
        return;
      }
      ghost var s := o.Limbs();
      for i := 0 to o.n
        modifies buf
        invariant o.Unread(s, i)
        invariant Phys()[..i] == s[..i]
      {
        var x := o.Get(i, s);
        Put(i, x);
      }
      n, sign := o.n, o.sign;
    }

    method Comp(o: BigInt) returns (c: int)
      requires Valid() && o.Valid()
      ensures c == CompLimbs(Limbs(), o.Limbs())
    {
      if n != o.n {
        return if n > o.n then 1 else -1;
      }
      var i := n;
      while i > 0
        invariant 0 <= i <= n == o.n
        invariant CompTop(Limbs(), o.Limbs(), n) == CompTop(Limbs(), o.Limbs(), i)
      {
        if buf[off + i - 1] != o.buf[o.off + i - 1] {
          return if buf[off + i - 1] > o.buf[o.off + i - 1] then 1 else -1;
        }
        i := i - 1;
      }
      return 0;
    }

    method SetLen(k: nat)
      requires Valid() && k <= cap
      modifies this`n
      ensures Valid() && n == k && Limbs() == Phys()[..k]
    {
      n := k;
    }

    /** Writes one more limb above the current length. */
    method Push(x: Limb)
      requires Valid() && n < cap
      modifies this`n, buf
      ensures Valid() && Limbs() == old(Limbs()) + [x] && n == old(n) + 1
    {
      buf[off + n] := x;
      n := n + 1;
    }

    /** The limbs from position `i` on are still those of `s`. */
    ghost predicate Unread(s: seq<Limb>, i: nat)
      requires Valid()
      reads this, buf
    {
      |s| == n && forall j :: i <= j < n ==> s[j] == Phys()[j]
    }

    method Get(i: nat, ghost s: seq<Limb>) returns (x: Limb)
      requires Valid() && Unread(s, i)
      ensures x == At(s, i)
    {
      x := if i < n then buf[off + i] else 0;
    }

    /** Writes one limb; an operand that shares nothing, or is this number, keeps its later limbs. */
    method Put(i: nat, x: Limb)
      requires Valid() && i < cap
      modifies buf
      ensures Phys() == old(Phys())[i := x]
    {
      buf[off + i] := x;
    }

    method AddOne(a: BigInt, b: BigInt, i: nat, carry: nat, ghost x: seq<Limb>, ghost y: seq<Limb>)
      returns (carryOut: nat)
      requires Valid() && a.Valid() && b.Valid() && Apart(a) && Apart(b)
      requires i < cap && a.Unread(x, i) && b.Unread(y, i) && Added(Phys(), x, y, i, carry)
      modifies buf
      ensures a.Unread(x, i + 1) && b.Unread(y, i + 1) && Added(Phys(), x, y, i + 1, carryOut)
    {
      var u := a.Get(i, x);
      var v := b.Get(i, y);
      ghost var r := Phys();
      var s;
      s, carryOut := AddLimb(u, v, carry);
      Put(i, s);
      AddStep(r, x, y, i, carry, s, carryOut);
    }

    /** The limb loop of an addition: reads each operand limb before it can be overwritten. */
    method AddLimbs(a: BigInt, b: BigInt, max: nat) returns (carry: nat)
      requires Valid() && a.Valid() && b.Valid() && Apart(a) && Apart(b)
      requires max <= cap
      modifies buf
      ensures Added(Phys(), old(a.Limbs()), old(b.Limbs()), max, carry)
    {
      ghost var x, y := a.Limbs(), b.Limbs();
      carry := 0;
      for i := 0 to max
        invariant a.Unread(x, i) && b.Unread(y, i)
        invariant Added(Phys(), x, y, i, carry)
      {
        carry := AddOne(a, b, i, carry, x, y);
      }
    }

    /** The loop of an addition, followed by its carry limb. */
    method AddMain(a: BigInt, b: BigInt)
      requires Valid() && a.Valid() && b.Valid() && Apart(a) && Apart(b)
      requires Max(a.n, b.n) <= cap && a.Mag() + b.Mag() < Pow(B, cap)
      modifies this`n, buf
      ensures Valid() && Mag() == old(a.Mag()) + old(b.Mag())
      ensures n == SumLength(old(a.Limbs()), old(b.Limbs()))
      ensures old(a.Trimmed()) && old(b.Trimmed()) ==> Trimmed()
    {
      ghost var x, y := a.Limbs(), b.Limbs();
      var max := Max(a.n, b.n);
      var carry := AddLimbs(a, b, max);
      ghost var r := Phys();
      CarryLimb(r, carry, max, cap, x, y);
      SetLen(max);
      if carry == 1 {
        Push(carry);
      }
    }

    /** The early exits of an addition: an operand has no limbs. */
    method AddNothing(a: BigInt, b: BigInt)
      requires Valid() && a.Valid() && b.Valid() && Apart(a) && Apart(b)
      requires Max(a.n, b.n) <= cap && (a.n == 0 || b.n == 0)
      modifies this`n, this`sign, buf
      ensures Valid() && Limbs() == if old(b.n) == 0 then old(a.Limbs()) else old(b.Limbs())
      ensures sign == if old(b.n) == 0 then (if old(a.n) == 0 then 1 else old(a.sign)) else old(b.sign)
    {
      if a.n == 0 && b.n == 0 {
        ZeroSet();
      }
      if b.n == 0 {
        Copy(a);
      } else {
        Copy(b);
      }
    }

    /** Adds magnitudes. The sum must fit the capacity; the result may be either operand. */
    method AddWc(a: BigInt, b: BigInt)
      requires Valid() && a.Valid() && b.Valid() && Apart(a) && Apart(b)
      requires Max(a.n, b.n) <= cap && a.Mag() + b.Mag() < Pow(B, cap)
      modifies this`n, this`sign, buf
      ensures Valid() && Mag() == old(a.Mag()) + old(b.Mag())
      ensures n == SumLength(old(a.Limbs()), old(b.Limbs()))
      ensures old(a.Trimmed()) && old(b.Trimmed()) ==> Trimmed()
      ensures sign == if old(b.n) == 0 then (if old(a.n) == 0 then 1 else old(a.sign))
                      else if old(a.n) == 0 then old(b.sign)
                      else if this == a || this == b then old(sign) else 1
    {
      if this != a && this != b {
        n, sign := 0, 1;
      }
      SumOfOne(a.Limbs(), b.Limbs());
      if a.n == 0 || b.n == 0 {
        AddNothing(a, b);
      } else {
        AddMain(a, b);
      }
    }

    method SubOne(a: BigInt, b: BigInt, i: nat, borrow: nat, top: nat, ghost x: seq<Limb>, ghost y: seq<Limb>)
      returns (borrowOut: nat, topOut: nat)
      requires Valid() && a.Valid() && b.Valid() && Apart(a) && Apart(b)
      requires i < a.n <= cap && a.Unread(x, i) && b.Unread(y, i)
      requires Subtracted(Phys(), x, y, i, borrow, top)
      modifies buf
      ensures a.Unread(x, i + 1) && b.Unread(y, i + 1)
      ensures Subtracted(Phys(), x, y, i + 1, borrowOut, topOut)
    {
      var u := a.Get(i, x);
      var v := b.Get(i, y);
      ghost var r := Phys();
      var s;
      s, borrowOut := SubLimb(u, v, borrow);
      Put(i, s);
      SubStep(r, x, y, i, borrow, top, s, borrowOut);
      topOut := if s != 0 then i + 1 else top;
    }

    /** The limb loop of a subtraction, which also finds the highest non-zero limb it wrote. */
    method SubLimbs(a: BigInt, b: BigInt) returns (borrow: nat, top: nat)
      requires Valid() && a.Valid() && b.Valid() && Apart(a) && Apart(b)
      requires a.n <= cap
      modifies buf
      ensures Subtracted(Phys(), old(a.Limbs()), old(b.Limbs()), a.n, borrow, top)
    {
      ghost var x, y := a.Limbs(), b.Limbs();
      borrow, top := 0, 0;
      assert Subtracted(Phys(), x, y, 0, 0, 0);
      for i := 0 to a.n
        invariant a.Unread(x, i) && b.Unread(y, i)
        invariant Subtracted(Phys(), x, y, i, borrow, top)
      {
        borrow, top := SubOne(a, b, i, borrow, top, x, y);
      }
    }

    method SubMain(a: BigInt, b: BigInt)
      requires Valid() && a.Valid() && b.Valid() && Apart(a) && Apart(b)
      requires b.n <= a.n <= cap
      modifies this`n, buf
      ensures Valid() && n <= old(a.n) && Trimmed()
      ensures Mag() == Wrapped(old(a.Mag()) - old(b.Mag()), old(a.n))
    {
      ghost var x, y := a.Limbs(), b.Limbs();
      var borrow, top := SubLimbs(a, b);
      BorrowLimb(Phys(), borrow, |x|, top, x, y);
      SetLen(top);
    }

    /** Subtracts magnitudes modulo B^(a.n): exact when `a` is at least `b`, wrapped otherwise. */
    method SubWb(a: BigInt, b: BigInt)
      requires Valid() && a.Valid() && b.Valid() && Apart(a) && Apart(b)
      requires b.n <= a.n <= cap
      modifies this`n, this`sign, buf
      ensures Valid() && n <= old(a.n)
      ensures Mag() == Wrapped(old(a.Mag()) - old(b.Mag()), old(a.n))
      ensures old(a.Trimmed()) || old(b.n) > 0 ==> Trimmed()
      ensures sign == if old(b.n) == 0 then (if old(a.n) == 0 then 1 else old(a.sign))
                      else if this == a || this == b then old(sign) else 1
    {
      if this != a && this != b {
        n, sign := 0, 1;
      }
      if a.n == 0 && b.n == 0 {
        ZeroSet();
      }
      if b.n == 0 {
        Copy(a);
        return;
      }
      SubMain(a, b);
    }

    /** Fills the gap between the length and the shift with zero limbs. */
    method ZeroFill(lo: nat, hi: nat)
      requires Valid() && lo <= hi <= cap
      modifies buf
      ensures forall j :: lo <= j < hi ==> Phys()[j] == 0
      ensures forall j :: (0 <= j < lo || hi <= j < cap) ==> Phys()[j] == old(Phys())[j]
    {
      for i := lo to hi
        invariant forall j :: lo <= j < i ==> Phys()[j] == 0
        invariant forall j :: (0 <= j < lo || i <= j < cap) ==> Phys()[j] == old(Phys())[j]
      {
        Put(i, 0);
      }
    }

    /** One limb of a shifted addition; limbs at or above the old length read as zero. */
    method AddOneAt(di: nat, y: Limb, carry: nat, ghost d: seq<Limb>, ghost t: seq<Limb>, oldN: nat)
      returns (carryOut: nat)
      requires Valid() && di < cap && |d| == oldN && y == At(t, di)
      requires Added(Phys(), d, t, di, carry) && Rest(Phys(), d, di)
      modifies buf
      ensures Added(Phys(), d, t, di + 1, carryOut) && Rest(Phys(), d, di + 1)
    {
      var base := if di < oldN then buf[off + di] else 0;
      assert base == At(d, di) by {
        assert di < oldN ==> Phys()[di] == buf[off + di];
      }
      ghost var r := Phys();
      var s;
      s, carryOut := AddLimb(base, y, carry);
      Put(di, s);
      AddStep(r, d, t, di, carry, s, carryOut);
    }

    /** The loop of a shifted addition over the limbs of `src`. */
    method AddShiftLimbs(src: BigInt, shift: nat, oldN: nat, ghost d: seq<Limb>, ghost t: seq<Limb>)
      returns (carry: nat)
      requires Valid() && src.Valid() && src.buf != buf
      requires shift + src.n <= cap && |d| == oldN && t == Raised(src.Limbs(), shift)
      requires Added(Phys(), d, t, shift, 0) && Rest(Phys(), d, shift)
      modifies buf
      ensures Added(Phys(), d, t, shift + src.n, carry) && Rest(Phys(), d, shift + src.n)
    {
      carry := 0;
      for i := 0 to src.n
        invariant Added(Phys(), d, t, shift + i, carry) && Rest(Phys(), d, shift + i)
      {
        var y := src.Get(i, src.Limbs());
        carry := AddOneAt(shift + i, y, carry, d, t, oldN);
      }
    }

    /** The loop along the carry, which stops at the capacity. */
    method RippleCarry(from: nat, carryIn: nat, oldN: nat, ghost d: seq<Limb>, ghost t: seq<Limb>)
      returns (di: nat, carry: nat)
      requires Valid() && |d| == oldN && |t| <= from <= cap
      requires Added(Phys(), d, t, from, carryIn) && Rest(Phys(), d, from)
      modifies buf
      ensures from <= di <= cap && (carry == 1 ==> di == cap)
      ensures Added(Phys(), d, t, di, carry) && Rest(Phys(), d, di)
      ensures di == from || Val(d) + Val(t) >= Pow(B, di - 1)
    {
      di, carry := from, carryIn;
      while carry == 1 && di < cap
        invariant from <= di <= cap
        invariant Added(Phys(), d, t, di, carry) && Rest(Phys(), d, di)
        invariant di == from || Val(d) + Val(t) >= Pow(B, di - 1)
      {
        CarryReaches(Phys(), d, t, di);
        carry := AddOneAt(di, 0, carry, d, t, oldN);
        di := di + 1;
      }
    }

    /** Adds `src` moved up by `shift` limbs. Stale limbs above the length count as zero, the gap
        is filled, and no carry is lost while the sum fits the capacity. */
    method AddShift(src: BigInt, shift: nat)
      requires Valid() && src.Valid() && src.buf != buf
      requires src.n > 0 ==> shift + src.n <= cap && Mag() + Shl(src.Mag(), shift) < Pow(B, cap)
      modifies this`n, this`sign, buf
      ensures Valid() && Mag() == old(Mag()) + Shl(src.Mag(), shift)
      ensures old(Trimmed()) && src.Trimmed() ==> Trimmed()
      ensures sign == if src.n > 0 && shift == 0 && old(n) == 0 then src.sign else old(sign)
    {
      ShlZero(shift);
      if src.n == 0 {
        return;
      }
      if shift == 0 {
        AddWc(this, src);
        return;
      }
      AddRaised(src, shift);
    }

    method FillGap(shift: nat, ghost d: seq<Limb>, ghost t: seq<Limb>)
      requires Valid() && shift <= cap && d == Limbs() && ValN(t, shift) == 0
      modifies this`n, buf
      ensures Valid() && n == Max(|d|, shift)
      ensures Added(Phys(), d, t, shift, 0) && Rest(Phys(), d, shift)
    {
      if n < shift {
        ZeroFill(n, shift);
        n := shift;
      }
      GapFilled(Phys(), d, t, shift);
    }

    method AddRaised(src: BigInt, shift: nat)
      requires Valid() && src.Valid() && src.buf != buf && src.n > 0
      requires shift + src.n <= cap && Mag() + Shl(src.Mag(), shift) < Pow(B, cap)
      modifies this`n, buf
      ensures Valid() && Mag() == old(Mag()) + Shl(src.Mag(), shift)
      ensures old(Trimmed()) && src.Trimmed() ==> Trimmed()
    {
      ghost var d, t := Limbs(), Raised(src.Limbs(), shift);
      RaisedValue(src.Limbs(), shift);
      var oldN := n;
      FillGap(shift, d, t);
      var carry := AddShiftLimbs(src, shift, oldN, d, t);
      var di;
      di, carry := RippleCarry(shift + src.n, carry, oldN, d, t);
      RaiseDone(Phys(), d, t, di, cap, carry);
      SetLen(Max(di, n));
    }
  }
}
