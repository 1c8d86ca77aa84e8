/** The scratch arena, and the functions that size it ahead of the recursive multiplications. */
module Workspace {
  import opened Arith
  import opened BigInts

  /** Operands of at most this many limbs are multiplied by the schoolbook method. */
  const SCHOOLBOOK: nat := 16

  /** The arena is a bump counter over a fixed capacity. A temporary is a chunk of it: it overlaps
      nothing else that is live, and its limbs are arbitrary. */
  class Arena {
    const cap: nat
    var offset: nat

    method Mark() returns (mark: nat)
      ensures mark == offset
    {
      mark := offset;
    }

    method Rewind(mark: nat)
      modifies this
      ensures offset == if mark <= old(offset) then mark else old(offset)
    {
      if mark <= offset {
        offset := mark;
      }
    }

    /** Succeeds exactly when the space is there; on overflow the counter stays put. */
    method Temp(limbCount: nat) returns (ok: bool, t: BigInt)
      modifies this
      ensures ok <==> old(offset) + limbCount <= cap
      ensures offset == if ok then old(offset) + limbCount else old(offset)
      ensures fresh(t) && fresh(t.buf) && t.Valid() && t.n == 0 && t.sign == 1
      ensures ok ==> t.cap == limbCount
    {
      ok := offset + limbCount <= cap;
      if ok {
        offset := offset + limbCount;
        t := new BigInt.Fresh(limbCount);
      } else {
        t := new BigInt.Fresh(0);
      }
    }
  }

  // ------------------------------------------------------------------ Karatsuba

  /** Where both operands are cut: half the longer one. */
  function Half(x: nat, y: nat): nat {
    Max(x, y) / 2
  }

  function LowSize(x: nat, m: nat): nat {
    Min(x, m)
  }

  function HighSize(x: nat, m: nat): nat {
    if x > m then x - m else 0
  }

  /** Room for the sum of the two parts of an operand. */
  function SumSize(x: nat, m: nat): nat {
    Max(LowSize(x, m), HighSize(x, m)) + 1
  }

  /** The five temporaries of one call. */
  function KaratsubaTemps(x: nat, y: nat): nat {
    var m := Half(x, y);
    SumSize(x, m) + SumSize(y, m) + (HighSize(x, m) + HighSize(y, m)) + (x + y) + (SumSize(x, m) + SumSize(y, m))
  }

  function KaratsubaWs(x: nat, y: nat): nat
    decreases Max(x, y), 1
  {
    if x <= SCHOOLBOOK || y <= SCHOOLBOOK then 0
    else KaratsubaTemps(x, y) + KaratsubaCalls(x, y, Half(x, y))
  }

  /** The largest need of the three recursive calls of a split at `m`. */
  function KaratsubaCalls(x: nat, y: nat, m: nat): nat
    requires x > SCHOOLBOOK && y > SCHOOLBOOK && m == Half(x, y)
    decreases Max(x, y), 0
  {
    var z0Call := KaratsubaWs(LowSize(x, m), LowSize(y, m));
    var z2Call := KaratsubaWs(HighSize(x, m), HighSize(y, m));
    var z1Call := KaratsubaWs(SumSize(x, m), SumSize(y, m));
    Max(Max(z0Call, z2Call), z1Call)
  }

  /** Both parts of an operand are shorter than their sum's room, which is shorter than the longer
      operand: the recursion descends. */
  lemma KaratsubaShrinks(x: nat, y: nat)
    requires x > SCHOOLBOOK && y > SCHOOLBOOK
    ensures Max(SumSize(x, Half(x, y)), SumSize(y, Half(x, y))) < Max(x, y)
  {
  }

  /** The parts of a split shrink, and their sums have room for the parts. */
  lemma KaratsubaParts(x: nat, y: nat, m: nat, t: nat, u: nat)
    requires x > SCHOOLBOOK && y > SCHOOLBOOK && m == Half(x, y) && t == SumSize(x, m) && u == SumSize(y, m)
    ensures m > 0 && LowSize(x, m) < t && HighSize(x, m) < t && LowSize(y, m) < u && HighSize(y, m) < u
    ensures Max(t, u) < Max(x, y) && LowSize(x, m) + LowSize(y, m) <= x + y
  {
    KaratsubaShrinks(x, y);
  }

  /** What one call needs: its temporaries and, on top of them, its largest recursive call. */
  lemma KaratsubaWsCovers(x: nat, y: nat, m: nat, t: nat, u: nat)
    requires x > SCHOOLBOOK && y > SCHOOLBOOK && m == Half(x, y) && t == SumSize(x, m) && u == SumSize(y, m)
    ensures KaratsubaWs(x, y) >= t + u + (HighSize(x, m) + HighSize(y, m)) + (x + y) + (t + u) + KaratsubaWs(t, u)
    ensures m > 0 && LowSize(x, m) < t && HighSize(x, m) < t && LowSize(y, m) < u && HighSize(y, m) < u
    ensures Max(t, u) < Max(x, y) && LowSize(x, m) + LowSize(y, m) <= x + y
  {
    KaratsubaParts(x, y, m, t, u);
    KaratsubaWsUnfold(x, y, m, t, u);
  }

  lemma KaratsubaWsUnfold(x: nat, y: nat, m: nat, t: nat, u: nat)
    requires x > SCHOOLBOOK && y > SCHOOLBOOK && m == Half(x, y) && t == SumSize(x, m) && u == SumSize(y, m)
    ensures KaratsubaWs(x, y) == KaratsubaTemps(x, y) + KaratsubaCalls(x, y, m)
    ensures KaratsubaCalls(x, y, m) >= KaratsubaWs(t, u)
    ensures KaratsubaTemps(x, y) == t + u + (HighSize(x, m) + HighSize(y, m)) + (x + y) + (t + u)
  {
  }

  lemma KaratsubaSizesMono(x: nat, y: nat, x': nat, y': nat)
    requires x <= x' && y <= y'
    ensures SumSize(x, Half(x, y)) <= SumSize(x', Half(x', y'))
    ensures SumSize(y, Half(x, y)) <= SumSize(y', Half(x', y'))
    ensures KaratsubaTemps(x, y) <= KaratsubaTemps(x', y')
  {
  }

  /** The size function is monotone in each argument. It has to be: the operands of the third
      recursive call are sums, whose lengths depend on carries. */
  lemma {:induction false} KaratsubaWsMono(x: nat, y: nat, x': nat, y': nat)
    requires x <= x' && y <= y'
    ensures KaratsubaWs(x, y) <= KaratsubaWs(x', y')
    decreases Max(x', y'), 1
  {
    if x > SCHOOLBOOK && y > SCHOOLBOOK {
      KaratsubaSizesMono(x, y, x', y');
      KaratsubaShrinks(x', y');
      KaratsubaCallsMono(x, y, Half(x, y), x', y', Half(x', y'));
    }
  }

  lemma {:induction false} KaratsubaCallsMono(x: nat, y: nat, m: nat, x': nat, y': nat, m': nat)
    requires SCHOOLBOOK < x <= x' && SCHOOLBOOK < y <= y' && m == Half(x, y) && m' == Half(x', y')
    requires SumSize(x, m) <= SumSize(x', m') < Max(x', y') && SumSize(y, m) <= SumSize(y', m') < Max(x', y')
    ensures KaratsubaCalls(x, y, m) <= KaratsubaCalls(x', y', m')
    decreases Max(x', y'), 0
  {
    KaratsubaWsMono(LowSize(x, m), LowSize(y, m), SumSize(x', m'), SumSize(y', m'));
    KaratsubaWsMono(HighSize(x, m), HighSize(y, m), SumSize(x', m'), SumSize(y', m'));
    KaratsubaWsMono(SumSize(x, m), SumSize(y, m), SumSize(x', m'), SumSize(y', m'));
  }

  /** And no more than that: of the three recursive calls only the product of the sums counts. */
  lemma KaratsubaWsExact(x: nat, y: nat, m: nat, t: nat, u: nat)
    requires x > SCHOOLBOOK && y > SCHOOLBOOK && m == Half(x, y) && t == SumSize(x, m) && u == SumSize(y, m)
    ensures KaratsubaWs(x, y) == t + u + (HighSize(x, m) + HighSize(y, m)) + (x + y) + (t + u) + KaratsubaWs(t, u)
  {
    KaratsubaParts(x, y, m, t, u);
    KaratsubaWsUnfold(x, y, m, t, u);
    KaratsubaWsMono(LowSize(x, m), LowSize(y, m), t, u);
    KaratsubaWsMono(HighSize(x, m), HighSize(y, m), t, u);
  }

  /** The whole recursion takes at most twelve times the longer operand. */
  lemma {:induction false} KaratsubaWsBound(x: nat, y: nat)
    ensures KaratsubaWs(x, y) <= 12 * Max(x, y)
    decreases Max(x, y)
  {
    if x > SCHOOLBOOK && y > SCHOOLBOOK {
      var m := Half(x, y);
      var t, u := SumSize(x, m), SumSize(y, m);
      KaratsubaParts(x, y, m, t, u);
      KaratsubaWsExact(x, y, m, t, u);
      KaratsubaWsBound(t, u);
    }
  }

  // ------------------------------------------------------------------ Toom-3

  /** A third of the longer operand, rounded up. */
  function Third(x: nat, y: nat): nat {
    (Max(x, y) + 2) / 3
  }

  /** The thirteen temporaries of one call. */
  function ToomTemps(x: nat, y: nat): nat {
    var k := Third(x, y);
    (4 * k + 6) + ((2 * k + 3) + (k + 1)) + (8 * k + (HighSize(x, 2 * k) + HighSize(y, 2 * k)) + 23) + (x + y)
  }

  function ToomWs(x: nat, y: nat): nat
    decreases Max(x, y), 1
  {
    if x <= SCHOOLBOOK || y <= SCHOOLBOOK then 0
    else
      ToomShrinks(x, y);
      ToomTemps(x, y) + ToomCalls(Third(x, y), HighSize(x, 2 * Third(x, y)), HighSize(y, 2 * Third(x, y)))
  }

  /** The larger need of an evaluated product and of the product of the top parts. */
  function ToomCalls(k: nat, highX: nat, highY: nat): nat
    requires highX <= k && highY <= k
    decreases k + 2, 2
  {
    Max(ToomWs(k + 2, k + 2), ToomWs(highX, highY))
  }

  /** Every part of a split, and every evaluated sum, is shorter than the longer operand. */
  lemma ToomShrinks(x: nat, y: nat)
    requires x > SCHOOLBOOK && y > SCHOOLBOOK
    ensures Third(x, y) + 2 < Max(x, y)
    ensures HighSize(x, 2 * Third(x, y)) <= Third(x, y) && HighSize(y, 2 * Third(x, y)) <= Third(x, y)
  {
  }

  /** What one call needs: its temporaries and, on top of them, its largest recursive call. */
  lemma ToomWsCovers(x: nat, y: nat, k: nat, capInf: nat)
    requires x > SCHOOLBOOK && y > SCHOOLBOOK && k == Third(x, y)
    requires capInf == HighSize(x, 2 * k) + HighSize(y, 2 * k) + 1
    ensures ToomWs(x, y) >= (4 * k + 6) + ((3 * k + 4) + (x + y)) + ((8 * k + 22) + capInf) + ToomWs(k + 2, k + 2)
    ensures k > 0 && x <= 3 * k && y <= 3 * k && k + 1 <= x + y && k + 2 < Max(x, y)
  {
    ToomShrinks(x, y);
    assert ToomWs(x, y) == ToomTemps(x, y) + ToomCalls(k, HighSize(x, 2 * k), HighSize(y, 2 * k));
  }

  lemma ToomTempsMono(x: nat, y: nat, x': nat, y': nat)
    requires x <= x' && y <= y'
    ensures Third(x, y) <= Third(x', y') && ToomTemps(x, y) <= ToomTemps(x', y')
  {
  }

  lemma {:induction false} ToomWsMono(x: nat, y: nat, x': nat, y': nat)
    requires x <= x' && y <= y'
    ensures ToomWs(x, y) <= ToomWs(x', y')
    decreases Max(x', y'), 1
  {
    if x > SCHOOLBOOK && y > SCHOOLBOOK {
      ToomTempsMono(x, y, x', y');
      ToomShrinks(x, y);
      ToomShrinks(x', y');
      ToomCallsMono(Third(x, y), HighSize(x, 2 * Third(x, y)), HighSize(y, 2 * Third(x, y)),
                    Third(x', y'), HighSize(x', 2 * Third(x', y')), HighSize(y', 2 * Third(x', y')));
    }
  }

  lemma {:induction false} ToomCallsMono(k: nat, hx: nat, hy: nat, k': nat, hx': nat, hy': nat)
    requires hx <= k && hy <= k && k <= k' && hx' <= k' && hy' <= k'
    ensures ToomCalls(k, hx, hy) <= ToomCalls(k', hx', hy')
    decreases k' + 2, 2
  {
    ToomWsMono(k + 2, k + 2, k' + 2, k' + 2);
    ToomWsMono(hx, hy, k' + 2, k' + 2);
  }

  /** And no more than that: the call for the parts at infinity is never the larger one. */
  lemma ToomWsExact(x: nat, y: nat, k: nat)
    requires x > SCHOOLBOOK && y > SCHOOLBOOK && k == Third(x, y)
    ensures ToomWs(x, y) == 15 * k + 33 + (HighSize(x, 2 * k) + HighSize(y, 2 * k)) + (x + y) + ToomWs(k + 2, k + 2)
  {
    ToomShrinks(x, y);
    assert ToomWs(x, y) == ToomTemps(x, y) + ToomCalls(k, HighSize(x, 2 * k), HighSize(y, 2 * k));
    ToomWsMono(HighSize(x, 2 * k), HighSize(y, 2 * k), k + 2, k + 2);
  }

  /** The whole recursion takes at most sixteen times the longer operand. */
  lemma {:induction false} ToomWsBound(x: nat, y: nat)
    ensures ToomWs(x, y) <= 16 * Max(x, y)
    decreases Max(x, y)
  {
    if x > SCHOOLBOOK && y > SCHOOLBOOK {
      var k := Third(x, y);
      ToomShrinks(x, y);
      ToomWsExact(x, y, k);
      ToomWsBound(k + 2, k + 2);
    }
  }
}
