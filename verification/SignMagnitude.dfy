/** Sign-aware addition and subtraction over the carry and borrow loops. */
module SignMagnitude {
  import opened Arith
  import opened Limbs
  import opened CarryChain
  import opened BigInts

  /** An operand that is longer is not smaller: what the comparison by length relies on. */
  ghost predicate SameOrder(x: seq<Limb>, y: seq<Limb>) {
    && (|x| > |y| ==> Val(x) >= Val(y))
    && (|y| > |x| ==> Val(y) >= Val(x))
  }

  lemma TrimmedSameOrder(x: seq<Limb>, y: seq<Limb>)
    requires Trim(x) && Trim(y)
    ensures SameOrder(x, y)
  {
    if |x| > |y| {
      LongerIsLarger(x, y);
    } else if |y| > |x| {
      LongerIsLarger(y, x);
    }
  }

  lemma EmptySameOrder(x: seq<Limb>, y: seq<Limb>)
    requires |x| == 0 || |y| == 0
    ensures SameOrder(x, y)
  {
    ValBound(x);
    ValBound(y);
  }

  /** A padded zero outranks every shorter number: why a comparison by length needs trimmed
      operands. */
  lemma PaddedZeroOutranks(zeros: seq<Limb>, x: seq<Limb>)
    requires |zeros| > |x| && Val(x) > 0 && forall i :: 0 <= i < |zeros| ==> zeros[i] == 0
    ensures CompLimbs(zeros, x) == 1 && Val(zeros) == 0 && !SameOrder(zeros, x)
  {
    ValNZeros(zeros, 0, |zeros|);
  }

  /** Operands that Toom-3 makes of B^16 beside a number of 30 limbs, which it cuts every ten: the sum
      of the outer parts is ten zero limbs, the middle part is B^6 in seven. */
  lemma UntrimmedParts(s: seq<Limb>, outer: seq<Limb>, middle: seq<Limb>)
    requires |s| == 17 && s[16] == 1 && forall i :: 0 <= i < 16 ==> s[i] == 0
    requires outer == Piece(s, 0, 10) && middle == Piece(s, 10, 10)
    ensures Val(s) == Pow(B, 16) && Piece(s, 20, 10) == []
    ensures |outer| == 10 && Val(outer) == 0 && |middle| == 7 && Val(middle) == Pow(B, 6)
    ensures CompLimbs(outer, middle) == 1 && !SameOrder(outer, middle)
  {
    UnitValue(s, 16);
    UnitValue(middle, 6);
    PowPos(B, 6);
    PaddedZeroOutranks(outer, middle);
  }

  lemma UnitValue(s: seq<Limb>, i: nat)
    requires |s| == i + 1 && s[i] == 1 && forall j :: 0 <= j < i ==> s[j] == 0
    ensures Val(s) == Pow(B, i)
  {
    ValNZeros(s, 0, i);
    ShlOne(i);
  }

  /** Subtracting the operand that compares as smaller is exact if and only if the comparison
      respected the order; otherwise the borrow wraps and the magnitude comes out wrong. */
  lemma CompareSubtract(x: seq<Limb>, y: seq<Limb>)
    ensures CompLimbs(x, y) == 0 ==> Val(x) == Val(y) && SameOrder(x, y)
    ensures CompLimbs(x, y) > 0 ==> |x| >= |y|
    ensures CompLimbs(x, y) > 0 ==> (Wrapped(Val(x) - Val(y), |x|) == Val(x) - Val(y) <==> SameOrder(x, y))
    ensures CompLimbs(x, y) < 0 ==> |y| >= |x|
    ensures CompLimbs(x, y) < 0 ==> (Wrapped(Val(y) - Val(x), |y|) == Val(y) - Val(x) <==> SameOrder(x, y))
  {
    PowPos(B, |x|);
    PowPos(B, |y|);
    if |x| == |y| {
      CompTopValue(x, y, |x|);
    }
  }

  /** Trimmed numbers that compare differently are different. */
  lemma CompareApart(x: seq<Limb>, y: seq<Limb>)
    ensures Trim(x) && Trim(y) && CompLimbs(x, y) > 0 ==> Val(x) > Val(y)
    ensures Trim(x) && Trim(y) && CompLimbs(x, y) < 0 ==> Val(x) < Val(y)
  {
    if Trim(x) && Trim(y) {
      CompTrimmed(x, y);
    }
  }

  /** What the compared subtraction leaves, whether or not the comparison respects the order: zero for
      operands that compare equal, else the wrapped difference, taken from the operand that compares
      larger, with the sign `s` of the first one or its opposite. */
  ghost predicate Compared(sign: int, mag: int, x: seq<Limb>, y: seq<Limb>, s: int) {
    var c := CompLimbs(x, y);
    if c == 0 then sign == 1 && mag == 0
    else if c > 0 then sign == s && mag == Wrapped(Val(x) - Val(y), |x|)
    else sign == -s && mag == Wrapped(Val(y) - Val(x), |y|)
  }

  /** res becomes the sum of the magnitudes, with sign `s`. */
  method AddSigned(res: BigInt, x: BigInt, y: BigInt, s: int)
    requires res.Valid() && x.Valid() && y.Valid() && res.Apart(x) && res.Apart(y)
    requires Max(x.n, y.n) <= res.cap && x.Mag() + y.Mag() < Pow(B, res.cap) && (s == 1 || s == -1)
    modifies res`n, res`sign, res.buf
    ensures res.Valid() && res.Int() == Signed(s, old(x.Mag()) + old(y.Mag()))
    ensures old(x.Trimmed()) && old(y.Trimmed()) ==> res.Trimmed() && (res.n == 0 ==> old(x.n) == 0)
  {
    ValBound(x.Limbs());
    ValBound(y.Limbs());
    if x.Trimmed() && x.n > 0 {
      TrimBound(x.Limbs());
      PowPos(B, x.n - 1);
    }
    res.AddWc(x, y);
    res.sign := s;
  }

  /** res becomes the wrapped difference of the magnitudes, with sign `s`. */
  method SubtractSigned(res: BigInt, x: BigInt, y: BigInt, s: int)
    requires res.Valid() && x.Valid() && y.Valid() && res.Apart(x) && res.Apart(y)
    requires 0 < y.n <= x.n <= res.cap && (s == 1 || s == -1)
    modifies res`n, res`sign, res.buf
    ensures res.Valid() && res.Trimmed() && res.sign == s && res.n <= old(x.n)
    ensures res.Mag() == Wrapped(old(x.Mag()) - old(y.Mag()), old(x.n))
  {
    res.SubWb(x, y);
    res.sign := s;
  }

  /** The branch of the sign-aware routines in which magnitudes are compared and subtracted:
      res becomes the difference of the magnitudes, with the sign `s` of the first operand. */
  method SubtractCompared(res: BigInt, x: BigInt, y: BigInt, s: int)
    requires res.Valid() && x.Valid() && y.Valid() && res.Apart(x) && res.Apart(y)
    requires Max(x.n, y.n) <= res.cap && x.n > 0 && y.n > 0 && (s == 1 || s == -1)
    modifies res`n, res`sign, res.buf
    ensures res.Valid() && res.Trimmed() && res.n <= Max(old(x.n), old(y.n))
    ensures res.Int() == Signed(s, old(x.Mag()) - old(y.Mag())) <==> SameOrder(old(x.Limbs()), old(y.Limbs()))
    ensures old(x.Trimmed()) && old(y.Trimmed()) && res.n == 0 ==> res.sign == 1
    ensures Compared(res.sign, res.Mag(), old(x.Limbs()), old(y.Limbs()), s)
  {
    CompareSubtract(x.Limbs(), y.Limbs());
    CompareApart(x.Limbs(), y.Limbs());
    var c := x.Comp(y);
    if c == 0 {
      res.ZeroSet();
    } else if c > 0 {
      SubtractSigned(res, x, y, s);
    } else {
      SubtractSigned(res, y, x, -s);
    }
  }

  /** res = x + y. Exact for every sign combination and every aliasing, if and only if operands
      of opposite sign compare in the order of their values. */
  method AddSaw(res: BigInt, x: BigInt, y: BigInt)
    requires res.Valid() && x.Valid() && y.Valid() && res.Apart(x) && res.Apart(y)
    requires Max(x.n, y.n) <= res.cap
    requires x.sign == y.sign ==> x.Mag() + y.Mag() < Pow(B, res.cap)
    modifies res`n, res`sign, res.buf
    ensures res.Valid()
    ensures res.Int() == old(x.Int()) + old(y.Int())
       <==> (old(x.sign != y.sign) ==> SameOrder(old(x.Limbs()), old(y.Limbs())))
    ensures old(x.Trimmed()) && old(y.Trimmed()) ==> res.Trimmed() && (res.n == 0 ==> res.sign == 1)
    ensures old(x.sign != y.sign && x.n > 0 && y.n > 0) ==>
              Compared(res.sign, res.Mag(), old(x.Limbs()), old(y.Limbs()), old(x.sign))
  {
    if res != x && res != y {
      res.n, res.sign := 0, 1;
    }
    if x.n == 0 || y.n == 0 {
      AddEmpty(res, x, y, y.sign);
    } else if x.sign == y.sign {
      AddSigned(res, x, y, x.sign);
    } else {
      SubtractCompared(res, x, y, x.sign);
    }
  }

  method CopySigned(res: BigInt, o: BigInt, s: int)
    requires res.Valid() && o.Valid() && res.Apart(o) && o.n <= res.cap && (s == 1 || s == -1)
    modifies res`n, res`sign, res.buf
    ensures res.Valid() && res.Limbs() == old(o.Limbs()) && res.sign == s
  {
    res.Copy(o);
    res.sign := s;
  }

  /** The early exits: one operand has no limbs. The second one enters with sign `s`. */
  method AddEmpty(res: BigInt, x: BigInt, y: BigInt, s: int)
    requires res.Valid() && x.Valid() && y.Valid() && res.Apart(x) && res.Apart(y)
    requires Max(x.n, y.n) <= res.cap && (x.n == 0 || y.n == 0) && (s == 1 || s == -1)
    modifies res`n, res`sign, res.buf
    ensures res.Valid() && SameOrder(old(x.Limbs()), old(y.Limbs())) && res.n <= Max(old(x.n), old(y.n))
    ensures res.Int() == old(x.Int()) + Signed(s, old(y.Mag()))
    ensures old(x.Trimmed()) && old(y.Trimmed()) ==> res.Trimmed()
    ensures res.n == 0 ==> res.sign == 1
  {
    EmptySameOrder(x.Limbs(), y.Limbs());
    if x.n == 0 && y.n == 0 {
      res.ZeroSet();
    }
    if y.n == 0 {
      res.Copy(x);
    } else {
      CopySigned(res, y, s);
    }
  }

  /** res = x - y, exact under the same condition for operands of equal sign. */
  method SubSaw(res: BigInt, x: BigInt, y: BigInt)
    requires res.Valid() && x.Valid() && y.Valid() && res.Apart(x) && res.Apart(y)
    requires Max(x.n, y.n) <= res.cap
    requires x.sign != y.sign ==> x.Mag() + y.Mag() < Pow(B, res.cap)
    modifies res`n, res`sign, res.buf
    ensures res.Valid()
    ensures res.Int() == old(x.Int()) - old(y.Int())
       <==> (old(x.sign == y.sign) ==> SameOrder(old(x.Limbs()), old(y.Limbs())))
    ensures old(x.Trimmed()) && old(y.Trimmed()) ==> res.Trimmed() && (res.n == 0 ==> res.sign == 1)
    ensures old(x.sign == y.sign) ==> res.n <= Max(old(x.n), old(y.n))
    ensures old(x.sign == y.sign && x.n > 0 && y.n > 0) ==>
              Compared(res.sign, res.Mag(), old(x.Limbs()), old(y.Limbs()), old(x.sign))
  {
    if res != x && res != y {
      res.n, res.sign := 0, 1;
    }
    if x.n == 0 || y.n == 0 {
      AddEmpty(res, x, y, -y.sign);
    } else if x.sign == y.sign {
      SubtractCompared(res, x, y, x.sign);
    } else {
      AddSigned(res, x, y, x.sign);
    }
  }

  // ------------------------------------------------------------------ exact signed steps

  /** A trimmed number of signed value `v`. */
  ghost predicate Is(x: BigInt, v: int)
    reads x, x.buf
  {
    x.Valid() && x.Trimmed() && x.Int() == v
  }

  function Abs(x: int): nat {
    if x < 0 then -x else x
  }

  lemma IsFits(x: BigInt, v: int, cap: nat)
    requires Is(x, v) && -Pow(B, cap) < v < Pow(B, cap)
    ensures x.n <= cap && x.Mag() == Abs(v)
  {
    ValBound(x.Limbs());
    TrimFits(x.Limbs(), cap);
  }

  /** A zero carries no negative sign after an exact step, so the sign is that of the value. */
  lemma SignOf(x: BigInt, v: int)
    requires Is(x, v) && (x.n == 0 ==> x.sign == 1)
    ensures x.sign < 0 <==> v < 0
  {
    ValBound(x.Limbs());
    if x.n > 0 {
      TrimBound(x.Limbs());
      PowPos(B, x.n - 1);
    }
  }

  /** res = x - y on trimmed numbers of magnitude at most `w`. */
  method Sub(res: BigInt, x: BigInt, y: BigInt, ghost u: int, ghost v: int, ghost w: int)
    requires res.Valid() && res.Apart(x) && res.Apart(y) && Is(x, u) && Is(y, v)
    requires -w <= u <= w && -w <= v <= w && 2 * w < Pow(B, res.cap)
    modifies res, res.buf
    ensures Is(res, u - v) && (res.sign < 0 <==> u - v < 0)
  {
    IsFits(x, u, res.cap);
    IsFits(y, v, res.cap);
    TrimmedSameOrder(x.Limbs(), y.Limbs());
    SubSaw(res, x, y);
    SignOf(res, u - v);
  }

  method Add(res: BigInt, x: BigInt, y: BigInt, ghost u: int, ghost v: int, ghost w: int)
    requires res.Valid() && res.Apart(x) && res.Apart(y) && Is(x, u) && Is(y, v)
    requires -w <= u <= w && -w <= v <= w && 2 * w < Pow(B, res.cap)
    modifies res, res.buf
    ensures Is(res, u + v) && (res.sign < 0 <==> u + v < 0)
  {
    IsFits(x, u, res.cap);
    IsFits(y, v, res.cap);
    TrimmedSameOrder(x.Limbs(), y.Limbs());
    AddSaw(res, x, y);
    SignOf(res, u + v);
  }
}
