/** The integer Newton iterations for square, cube and general roots, on values. Every loop ends
    at the smaller of its starting guess and the integer root, so each is exact if and only if
    the starting guess is not below the root. */
module Roots {
  import opened Arith
  import opened Bitwise
  import opened Limbs
  import opened BigInts
  import Workspace

  // ------------------------------------------------------------------ the integer root

  /** `s` is the integer `r`-th root of `a`. */
  predicate IsRoot(s: nat, a: nat, r: nat) {
    Pow(s, r) <= a < Pow(s + 1, r)
  }

  /** The largest number not above `g` whose `r`-th power is not above `a`. */
  ghost function RootBelow(a: nat, r: nat, g: nat): (s: nat)
    requires r >= 1
    ensures s <= g && Pow(s, r) <= a
    ensures s == g || a < Pow(s + 1, r)
  {
    if Pow(g, r) <= a then g else RootBelow(a, r, g - 1)
  }

  ghost function Root(a: nat, r: nat): (s: nat)
    requires r >= 1
    ensures IsRoot(s, a, r)
  {
    PowGrows(a + 1, r);
    RootBelow(a, r, a + 1)
  }

  lemma {:induction false} PowGrows(b: nat, r: nat)
    requires r >= 1 && b >= 1
    ensures b <= Pow(b, r)
  {
    if r > 1 {
      PowGrows(b, r - 1);
      MulMono(1, Pow(b, r - 1), b);
    }
  }

  /** A number is at most the root exactly when its power is at most the radicand. */
  lemma RootOrder(a: nat, r: nat, g: nat)
    requires r >= 1
    ensures Pow(g, r) <= a <==> g <= Root(a, r)
  {
    var s := Root(a, r);
    if g <= s {
      PowBaseMono(g, s, r);
    } else {
      PowBaseMono(s + 1, g, r);
    }
  }

  lemma RootUnique(a: nat, r: nat, s: nat)
    requires r >= 1 && IsRoot(s, a, r)
    ensures s == Root(a, r)
  {
    RootOrder(a, r, s);
    RootOrder(a, r, s + 1);
  }

  lemma RootPositive(a: nat, r: nat)
    requires r >= 1 && a >= 1
    ensures 1 <= Root(a, r)
  {
    PowOne(r);
    RootOrder(a, r, 1);
  }

  // ------------------------------------------------------------------ the inequality behind Newton's step

  /** The inequality of arithmetic and geometric means of r - 1 copies of g and one of s,
      cleared of fractions. */
  lemma {:induction false} PowerMeans(g: nat, s: nat, r: nat)
    requires r >= 1
    ensures (r - 1) * Pow(g, r) + Pow(s, r) >= r * s * Pow(g, r - 1)
  {
    if r > 1 {
      var q := r - 1;
      PowerMeans(g, s, q);
      var p, t := Pow(g, q - 1), Pow(s, q);
      PowBaseMono(0, g, q - 1);
      assert Pow(g, q) == g * p && Pow(g, r) == g * (g * p) && Pow(s, r) == s * t;
      PowerMeansStep(g, s, q, p, t);
    } else {
      assert r * s * Pow(g, r - 1) == s;
      assert Pow(s, r) == s * Pow(s, 0);
    }
  }

  lemma PowerMeansStep(g: nat, s: nat, q: nat, p: int, t: int)
    requires p >= 0 && (q - 1) * (g * p) + t >= q * s * p
    ensures q * (g * (g * p)) + s * t >= (q + 1) * s * (g * p)
  {
    var x, y, z := g * (g * p), s * (g * p), s * (s * p);
    SquareGap(g, s, p);
    MulNat(q, x - 2 * y + z);
    Spread(q, x, y, z);
    MulMono(q * s * p, (q - 1) * (g * p) + t, s);
    Regroup(q, s, p);
    RegroupSum(q - 1, g * p, t, s);
    assert (q + 1) * s * (g * p) == (q + 1) * y by {
      MulAssoc(q + 1, s, g * p);
    }
  }

  lemma SquareGap(g: int, s: int, p: int)
    requires p >= 0
    ensures g * (g * p) - 2 * (s * (g * p)) + s * (s * p) >= 0
  {
    var d := g - s;
    MulSquare(d);
    MulNat(d * d, p);
    MulAssoc(d, d, p);
    assert d * p == g * p - s * p;
    assert d * (g * p - s * p) == g * (g * p - s * p) - s * (g * p - s * p);
    assert g * (g * p - s * p) == g * (g * p) - g * (s * p);
    assert s * (g * p - s * p) == s * (g * p) - s * (s * p);
    MulAssoc(g, s, p);
    MulAssoc(s, g, p);
  }

  lemma MulSquare(d: int)
    ensures 0 <= d * d
  {
  }

  lemma Regroup(q: int, s: int, p: int)
    ensures (q * s * p) * s == q * (s * (s * p))
  {
    MulAssoc(q, s, p);
    MulAssoc(q, s * p, s);
  }

  lemma RegroupSum(q: int, x: int, t: int, s: int)
    ensures (q * x + t) * s == q * (s * x) + s * t
  {
    MulAssoc(q, x, s);
  }

  lemma Spread(q: int, x: int, y: int, z: int)
    ensures q * (x - 2 * y + z) == q * x - 2 * (q * y) + q * z
    ensures (q + 1) * y == q * y + y && (q - 1) * y == q * y - y
  {
  }

  // ------------------------------------------------------------------ one Newton step

  function Quotient(x: nat, d: nat): nat
    requires d >= 1
  {
    x / d
  }

  /** The next guess: the mean of r - 1 copies of the guess and the ratio. */
  function Next(a: nat, r: nat, g: nat): nat
    requires r >= 1 && g >= 1
  {
    PowPos(g, r - 1);
    MulNat(r - 1, g);
    Quotient((r - 1) * g + Quotient(a, Pow(g, r - 1)), r)
  }

  /** A step never falls below the root, from any guess on either side of it. */
  lemma NextAboveRoot(a: nat, r: nat, g: nat)
    requires r >= 1 && g >= 1
    ensures Next(a, r, g) >= Root(a, r)
  {
    var s, p := Root(a, r), Pow(g, r - 1);
    PowPos(g, r - 1);
    var ratio := Quotient(a, p);
    PowerMeans(g, s, r);
    assert Pow(g, r) == g * p;
    QuotientBounds(a, p);
    MulAssoc(r - 1, g, p);
    RatioAbove(a, p, ratio, r * s, (r - 1) * g, r * s * p, (r - 1) * g * p);
    MulNat(r - 1, g);
    DivideAtLeast((r - 1) * g + ratio, r, s);
  }

  lemma QuotientBounds(a: nat, p: nat)
    requires p >= 1
    ensures Quotient(a, p) * p <= a < (Quotient(a, p) + 1) * p
  {
    assert a == (a / p) * p + a % p;
  }

  lemma RatioAbove(a: nat, p: nat, ratio: nat, target: int, used: int, tp: int, up: int)
    requires p >= 1 && a < (ratio + 1) * p && tp == target * p && up == used * p && tp - up <= a
    ensures used + ratio >= target
  {
    assert (target - used) * p == tp - up;
    MulCancel(target - used, ratio + 1, p);
  }

  lemma DivideAtLeast(x: int, d: int, q: int)
    requires d > 0 && x >= d * q
    ensures x / d >= q
  {
    if x / d < q {
      MulMono(x / d, q - 1, d);
    }
  }

  /** A step goes strictly down exactly when the guess is above the root. */
  lemma NextDescends(a: nat, r: nat, g: nat)
    requires r >= 1 && g >= 1
    ensures Next(a, r, g) < g <==> g > Root(a, r)
  {
    var p := Pow(g, r - 1);
    PowPos(g, r - 1);
    var ratio := Quotient(a, p);
    RootOrder(a, r, g);
    assert Pow(g, r) == g * p;
    QuotientBounds(a, p);
    MulNat(r - 1, g);
    var sum := (r - 1) * g + ratio;
    assert (r - 1) * g == r * g - g;
    if g * p <= a {
      MulCancel(g, ratio + 1, p);
      DivideAtLeast(sum, r, g);
    } else {
      MulCancel(ratio, g, p);
      QuotientBounds(sum, r);
      assert g * r == r * g;
      MulCancel(Quotient(sum, r), g, r);
    }
  }

  // ------------------------------------------------------------------ the loops

  /** Powers by repeated squaring, with the products as they are meant. */
  method BinaryExp(base: nat, exp: nat) returns (res: nat)
    ensures res == Pow(base, exp)
  {
    var b: nat, e: nat := base, exp;
    res := 1;
    while e > 0
      invariant res * Pow(b, e) == Pow(base, exp)
    {
      MulNat(b, b);
      ghost var half := Pow(b * b, e / 2);
      SquareStep(b, e);
      assert e % 2 == 1 ==> res * (b * half) == (res * b) * half;
      if e % 2 == 1 {
        res := res * b;
      }
      b, e := b * b, e / 2;
    }
  }

  lemma SquareStep(b: nat, e: nat)
    ensures Pow(b, e) == if e % 2 == 1 then b * Pow(b * b, e / 2) else Pow(b * b, e / 2)
  {
    assert Pow(b, 2) == b * Pow(b, 1) == b * b;
    PowMul(b, 2, e / 2);
    PowAdd(b, e % 2, 2 * (e / 2));
  }

  /** The dispatched product when its result is also its first operand. Up to the schoolbook size the
      routine clears the result, and with it the operand, before it reads it
      (Schoolbook.MultiplyInPlace); above, the routines write their result last. */
  function InPlaceProduct(u: nat, v: nat): nat {
    if LimbCount(u) <= Workspace.SCHOOLBOOK || LimbCount(v) <= Workspace.SCHOOLBOOK then 0
    else
      MulNat(u, v);
      u * v
  }

  lemma SmallInPlace(u: nat, v: nat)
    requires u <= 1
    ensures InPlaceProduct(u, v) == 0
  {
    assert LimbCount(0) == 0 && LimbCount(1) == 1 + LimbCount(0);
  }

  /** What repeated squaring makes of an accumulator, every product on top of its first operand. */
  function WrittenPower(acc: nat, base: nat, exp: nat): nat
    decreases exp
  {
    if exp == 0 then acc
    else WrittenPower(if exp % 2 == 1 then InPlaceProduct(acc, base) else acc, InPlaceProduct(base, base), exp / 2)
  }

  /** Repeated squaring as written. */
  method BinaryExpWritten(base: nat, exp: nat) returns (res: nat)
    ensures res == WrittenPower(1, base, exp)
  {
    var b: nat, e: nat := base, exp;
    res := 1;
    while e > 0
      invariant WrittenPower(res, b, e) == WrittenPower(1, base, exp)
    {
      if e % 2 == 1 {
        res := InPlaceProduct(res, b);
      }
      b, e := InPlaceProduct(b, b), e / 2;
    }
  }

  lemma {:induction false} SmallAccumulator(acc: nat, base: nat, exp: nat)
    requires acc <= 1
    ensures WrittenPower(acc, base, exp) == if exp == 0 then acc else 0
    decreases exp
  {
    SmallInPlace(acc, base);
    if exp > 0 {
      SmallAccumulator(if exp % 2 == 1 then 0 else acc, InPlaceProduct(base, base), exp / 2);
    }
  }

  /** The accumulator starts at one, a single limb, so the first factor makes it zero and it stays
      zero: the result is the power if and only if no factor is due or the base is zero. */
  lemma WrittenPowerExact(base: nat, exp: nat)
    ensures WrittenPower(1, base, exp) == Pow(base, exp) <==> exp == 0 || base == 0
    ensures exp > 0 ==> WrittenPower(1, base, exp) == 0
  {
    SmallAccumulator(1, base, exp);
    PowerIsZero(base, exp);
  }

  /** The cube of two, which a fourth root starts with, comes out as zero. */
  lemma CubeOfTwoLost(base: nat, exp: nat)
    requires base == 2 && exp == 3
    ensures WrittenPower(1, base, exp) == 0 && Pow(base, exp) == 8
  {
    SmallAccumulator(1, base, exp);
    assert Pow(base, 0) == 1 && Pow(base, 1) == 2 && Pow(base, 2) == 4;
  }

  lemma PowerIsZero(base: nat, exp: nat)
    ensures Pow(base, exp) == 0 <==> exp > 0 && base == 0
  {
    if base > 0 {
      PowPos(base, exp);
    } else if exp > 0 {
      assert Pow(base, exp) == 0 * Pow(base, exp - 1);
    }
  }

  lemma PositiveProduct(x: nat, y: nat)
    requires x >= 1 && y >= 1
    ensures x * y >= 1
  {
    MulMono(1, x, y);
  }

  /** Heron's iteration for the square root. */
  method HeronLoop(a: nat, start: nat) returns (res: nat)
    requires a >= 1 && start >= 1
    ensures res == Min(start, Root(a, 2))
  {
    var guess := start;
    RootPositive(a, 2);
    while true
      invariant 1 <= guess <= start && Min(guess, Root(a, 2)) == Min(start, Root(a, 2))
      decreases guess
    {
      var ratio := a / guess;
      var next := (guess + ratio) / 2;
      assert Pow(guess, 1) == guess;
      NextAboveRoot(a, 2, guess);
      NextDescends(a, 2, guess);
      if next >= guess {
        break;
      }
      guess := next;
    }
    res := guess;
  }

  /** Newton's iteration for the cube root. */
  method CubeRootLoop(a: nat, start: nat) returns (res: nat)
    requires a >= 1 && start >= 1
    ensures res == Min(start, Root(a, 3))
  {
    var guess := start;
    RootPositive(a, 3);
    while true
      invariant 1 <= guess <= start && Min(guess, Root(a, 3)) == Min(start, Root(a, 3))
      decreases guess
    {
      PositiveProduct(guess, guess);
      var next := guess * guess;
      var ratio := a / next;
      next := (2 * guess + ratio) / 3;
      assert Pow(guess, 2) == guess * Pow(guess, 1) == guess * guess;
      NextAboveRoot(a, 3, guess);
      NextDescends(a, 3, guess);
      if next >= guess {
        break;
      }
      guess := next;
    }
    res := guess;
  }

  /** Newton's iteration for any root; multiplying by a power of two is a shift. */
  method NthRootLoop(a: nat, root: nat, start: nat) returns (res: nat)
    requires a >= 1 && root >= 2 && start >= 1
    ensures res == Min(start, Root(a, root))
  {
    var guess := start;
    RootPositive(a, root);
    var xpow := BinaryExp(guess, root - 1);
    while true
      invariant 1 <= guess <= start && Min(guess, Root(a, root)) == Min(start, Root(a, root))
      invariant xpow == Pow(guess, root - 1)
      decreases guess
    {
      PowPos(guess, root - 1);
      var ratio := a / xpow;
      var next := ScaleByRoot(guess, root - 1);
      next := (next + ratio) / root;
      NextAboveRoot(a, root, guess);
      NextDescends(a, root, guess);
      if next >= guess {
        break;
      }
      guess := next;
      xpow := BinaryExp(guess, root - 1);
    }
    res := guess;
  }

  method ScaleByRoot(guess: nat, factor: nat) returns (next: nat)
    requires factor >= 1
    ensures next == factor * guess
  {
    MulNat(factor, guess);
    if IsPowerOfTwo(factor) {
      ShiftIsPower(factor);
      next := guess * Pow(2, Ctz(factor));
    } else {
      next := guess * factor;
    }
  }

  /** The variant for a power-of-two root, which divides by a shift. */
  method PowerOfTwoRootLoop(a: nat, root: nat, start: nat) returns (res: nat)
    requires a >= 1 && root >= 2 && IsPowerOfTwo(root) && start >= 1
    ensures res == Min(start, Root(a, root))
  {
    var shift := Ctz(root);
    ShiftIsPower(root);
    var guess := start;
    RootPositive(a, root);
    var xpow := BinaryExp(guess, root - 1);
    while true
      invariant 1 <= guess <= start && Min(guess, Root(a, root)) == Min(start, Root(a, root))
      invariant xpow == Pow(guess, root - 1)
      decreases guess
    {
      PowPos(guess, root - 1);
      MulNat(root - 1, guess);
      var ratio := a / xpow;
      var next := (guess * (root - 1) + ratio) / Pow(2, shift);
      NextAboveRoot(a, root, guess);
      NextDescends(a, root, guess);
      if next >= guess {
        break;
      }
      guess := next;
      xpow := BinaryExp(guess, root - 1);
    }
    res := guess;
  }

  // ------------------------------------------------------------------ the starting guess

  /** The exponent meant for the starting guess: the digits of the radicand divided by the root,
      rounded up. */
  function GuessBits(a: nat, r: nat): nat
    requires r >= 1
  {
    (Bits(a) + r - 1) / r
  }

  /** The exponent the loops start from: whole limbs, and the rest reduced by 63 rather than 64. */
  function StartBits(a: nat, r: nat): nat
    requires r >= 1
  {
    64 * (GuessBits(a, r) / 64) + GuessBits(a, r) % 63
  }

  /** The bit the code sets in the top limb of the guess, as a number. */
  function Start(a: nat, r: nat): (g: nat)
    requires r >= 1
    ensures g >= 1
  {
    PowPos(2, StartBits(a, r));
    Pow(2, StartBits(a, r))
  }

  /** What the limbs below the top one of the guess can hold: they come from the arena, and nothing
      clears them. */
  predicate Stale(a: nat, r: nat, stale: nat)
    requires r >= 1
  {
    stale < Pow(B, GuessBits(a, r) / 64)
  }

  /** They stay below the bit that is set. */
  lemma StaleBelowStart(a: nat, r: nat, stale: nat)
    requires r >= 1 && Stale(a, r, stale)
    ensures stale < Start(a, r)
  {
    LimbIsPower(64);
    PowMul(2, 64, GuessBits(a, r) / 64);
    PowMono(2, 64 * (GuessBits(a, r) / 64), StartBits(a, r));
  }

  /** On limbs: the lower ones as they are, and in the top one the bit that the code shifts by the
      exponent modulo 63. */
  lemma StartOnLimbs(s: seq<Limb>, a: nat, r: nat)
    requires r >= 1 && |s| == GuessBits(a, r) / 64 + 1 && s[|s| - 1] == Pow(2, GuessBits(a, r) % 63)
    ensures Val(s) == Start(a, r) + Val(s[..|s| - 1]) && Val(s[..|s| - 1]) >= 0
    ensures Stale(a, r, Val(s[..|s| - 1])) && Trim(s)
  {
    var top := |s| - 1;
    ValCut(s, top);
    assert s[top..] == [s[top]];
    SingleLimb(s[top]);
    ShlPow(s[top], top);
    LimbIsPower(64);
    PowMul(2, 64, top);
    PowAdd(2, GuessBits(a, r) % 63, 64 * top);
    ValBound(s[..top]);
    PowPos(2, GuessBits(a, r) % 63);
  }

  /** Sets up the guess in its buffer: one limb, and the length. What the loops start from is the bit
      and whatever the limbs below it hold. */
  method PlaceGuess(guess: BigInt, a: nat, root: nat) returns (ghost stale: nat)
    requires guess.Valid() && root >= 1 && GuessBits(a, root) / 64 < guess.cap
    modifies guess`n, guess.buf
    ensures guess.Valid() && guess.Trimmed() && guess.n == GuessBits(a, root) / 64 + 1
    ensures stale == old(ValN(guess.Phys(), GuessBits(a, root) / 64)) && Stale(a, root, stale)
    ensures guess.Mag() == Start(a, root) + stale
  {
    var top := GuessBits(a, root) / 64;
    ghost var p := guess.Phys();
    ValNBound(p, top);
    stale := ValN(p, top);
    BitFits(GuessBits(a, root) % 63);
    guess.Put(top, Pow(2, GuessBits(a, root) % 63));
    guess.SetLen(top + 1);
    StartOnLimbs(guess.Limbs(), a, root);
    ValNFrame(guess.Limbs()[..top], p, top);
  }

  lemma BitFits(e: nat)
    requires e < 63
    ensures 0 < Pow(2, e) < B
  {
    PowPos(2, e);
    PowStrictMono(2, e, 64);
    LimbIsPower(64);
  }

  /** A buffer as long as the radicand has room for it. */
  lemma GuessFits(a: nat, r: nat, n: nat)
    requires r >= 2 && n >= 1 && Bits(a) <= 64 * n
    ensures GuessBits(a, r) / 64 < n
  {
    CeilingBelow(Bits(a), r, 64 * n, GuessBits(a, r));
  }

  lemma CeilingBelow(bits: nat, r: nat, w: nat, m: nat)
    requires r >= 2 && w >= 2 && bits <= w && m == (bits + r - 1) / r
    ensures m < w
  {
    QuotientBounds(bits + r - 1, r);
    MulMono(1, r - 1, w - 1);
    assert (r - 1) * (w - 1) == w * r - r - w + 1;
    MulCancel(m, w, r);
  }

  /** The root lies between consecutive powers of two around the exponent meant. */
  lemma GuessBitsBracket(a: nat, r: nat)
    requires a >= 1 && r >= 1
    ensures GuessBits(a, r) >= 1 && Pow(2, GuessBits(a, r) - 1) <= Root(a, r) < Pow(2, GuessBits(a, r))
  {
    var n, e := Bits(a), GuessBits(a, r);
    BitsBound(a);
    CeilingBounds(n, r, e);
    PowMul(2, e, r);
    PowMul(2, e - 1, r);
    PowMono(2, n, e * r);
    PowMono(2, (e - 1) * r, n - 1);
    PowPos(2, e);
    PowPos(2, e - 1);
    RootOrder(a, r, Pow(2, e));
    RootOrder(a, r, Pow(2, e - 1));
  }

  lemma CeilingBounds(n: nat, r: nat, e: nat)
    requires n >= 1 && r >= 1 && e == (n + r - 1) / r
    ensures e >= 1 && e * r >= n && (e - 1) * r <= n - 1
  {
    assert n + r - 1 == e * r + (n + r - 1) % r;
    if e <= 0 {
      MulMono(e, 0, r);
    }
    assert (e - 1) * r == e * r - r;
  }

  /** The exact condition for the starting guess to be good enough. Either the reduction kept the
      exponent, or it lost one: the root can then be any number from 2^(e - 1) up to 2^e, and the guess
      sits in that range with the limbs it found in the arena, so all the digits of the radicand
      decide. The second case needs a root of at least 62 limbs. */
  lemma StartGoodEnough(a: nat, r: nat, stale: nat)
    requires a >= 1 && r >= 1 && Stale(a, r, stale)
    ensures Start(a, r) + stale >= Root(a, r) <==>
              (GuessBits(a, r) % 63 >= GuessBits(a, r) % 64
               || (GuessBits(a, r) % 63 == GuessBits(a, r) % 64 - 1 && a < Pow(Start(a, r) + stale + 1, r)))
    ensures GuessBits(a, r) % 63 == GuessBits(a, r) % 64 - 1 ==> GuessBits(a, r) > 64 * 62
  {
    var e, m, s := StartBits(a, r), GuessBits(a, r), Root(a, r);
    GuessBitsBracket(a, r);
    Reduced(m, e);
    RootOrder(a, r, Start(a, r) + stale + 1);
    StaleBelowStart(a, r, stale);
    if e >= m {
      PowMono(2, m, e);
    } else if e < m - 1 {
      PowMono(2, e + 1, m - 1);
      PowPos(2, e);
      assert Pow(2, e + 1) == 2 * Pow(2, e);
    }
  }

  /** What the reduction modulo 63 does to the exponent. */
  lemma Reduced(m: nat, e: nat)
    requires e == 64 * (m / 64) + m % 63
    ensures e >= m <==> m % 63 >= m % 64
    ensures e == m - 1 <==> m % 63 == m % 64 - 1
    ensures m % 63 == m % 64 - 1 ==> m > 64 * 62
  {
  }

  /** Up to 62 digits of root the reduction changes nothing. */
  lemma SmallRootsStartRight(a: nat, r: nat)
    requires r >= 1 && GuessBits(a, r) <= 62
    ensures StartBits(a, r) == GuessBits(a, r)
  {
  }

  /** Which branch of the square-root, cube-root, power-of-two or general loop runs, with quotients
      and powers as they are meant, from a guess whose lower limbs the arena left. */
  method NthRoot(a: nat, root: nat, stale: nat) returns (res: nat)
    requires a >= 1 && root >= 2 && Stale(a, root, stale)
    ensures res == Min(Start(a, root) + stale, Root(a, root))
    ensures IsRoot(res, a, root) <==> Start(a, root) + stale >= Root(a, root)
  {
    var start := Start(a, root) + stale;
    if root == 2 {
      res := HeronLoop(a, start);
    } else if root == 3 {
      res := CubeRootLoop(a, start);
    } else if IsPowerOfTwo(root) {
      res := PowerOfTwoRootLoop(a, root, start);
    } else {
      res := NthRootLoop(a, root, start);
    }
    if IsRoot(res, a, root) {
      RootUnique(a, root, res);
    }
  }

  /** What a call leaves: a number, or a division by a number of no limbs. The dispatcher sends the
      latter to the short division, by the lowest limb of a power that nothing has written. */
  datatype Outcome = Found(root: nat) | ZeroDivisor

  /** The same with the powers as written, for roots whose exponent takes the repeated squaring.
      Square and cube roots take no powers; from the fourth root on the first power comes out zero,
      and the loop would divide by it. */
  method NthRootWritten(a: nat, root: nat, stale: nat) returns (res: Outcome)
    requires a >= 1 && 2 <= root <= 256 && Stale(a, root, stale)
    ensures res == if root <= 3 then Found(Min(Start(a, root) + stale, Root(a, root))) else ZeroDivisor
  {
    var start := Start(a, root) + stale;
    if root == 2 {
      var s := HeronLoop(a, start);
      return Found(s);
    } else if root == 3 {
      var s := CubeRootLoop(a, start);
      return Found(s);
    }
    var xpow := BinaryExpWritten(start, root - 1);
    WrittenPowerExact(start, root - 1);
    assert xpow == 0;
    return ZeroDivisor;
  }

  /** A root of exactly 63 digits starts from 1, in a single limb, whatever the radicand. */
  lemma SixtyThreeDigitsStartAtOne(a: nat, r: nat)
    requires a >= 1 && r >= 1 && GuessBits(a, r) == 63
    ensures Start(a, r) == 1 < Root(a, r) && forall stale: nat :: Stale(a, r, stale) <==> stale == 0
  {
    GuessBitsBracket(a, r);
    PowMono(2, 1, 62);
  }

  /** The smallest failure of the square root: 2^124, whose root is 2^62. */
  lemma SquareRootStartsTooLow(e: nat, a: nat)
    requires e == 62 && a == Pow(2, 2 * e)
    ensures GuessBits(a, 2) == 63 && Root(a, 2) == Pow(2, e) && Min(Start(a, 2), Root(a, 2)) == 1
  {
    BitsOfPower(2 * e);
    PowPos(2, e);
    PowMul(2, e, 2);
    PowBaseStrict(Pow(2, e), Pow(2, e) + 1, 2);
    RootUnique(a, 2, Pow(2, e));
    SixtyThreeDigitsStartAtOne(a, 2);
  }
}
