/** Bit reversal of an index, and of the places of an array, against the recursive even-odd
    shuffle that the butterfly network expects. */
module BitReversal {
  import opened Arith
  import opened Polynomials

  /** The lowest `k` bits of `i`, in reverse order. */
  ghost function Rev(i: nat, k: nat): (r: nat)
    ensures r < Pow(2, k)
  {
    if k == 0 then 0
    else
      var rest := Rev(i / 2, k - 1);
      if i % 2 == 1 then Pow(2, k - 1) + rest else rest
  }

  /** The same from the top bit down. */
  lemma {:induction false} RevTop(b: nat, l: nat, k: nat)
    requires k >= 1 && b <= 1 && l < Pow(2, k - 1)
    ensures Rev(b * Pow(2, k - 1) + l, k) == 2 * Rev(l, k - 1) + b
  {
    var i := b * Pow(2, k - 1) + l;
    if k > 1 {
      var h := Pow(2, k - 2);
      assert Pow(2, k - 1) == 2 * h;
      RevTop(b, l / 2, k - 1);
      assert i == 2 * (b * h) + l;
      assert i / 2 == b * h + l / 2 && i % 2 == l % 2;
    } else {
      assert l == 0 && i == b;
      assert Rev(i / 2, 0) == 0;
    }
  }

  lemma RevLow(l: nat, k: nat)
    requires k >= 1 && l < Pow(2, k - 1)
    ensures Rev(l, k) == 2 * Rev(l, k - 1)
  {
    RevTop(0, l, k);
  }

  lemma RevHigh(l: nat, k: nat)
    requires k >= 1 && l < Pow(2, k - 1)
    ensures Rev(Pow(2, k - 1) + l, k) == 2 * Rev(l, k - 1) + 1
  {
    RevTop(1, l, k);
  }

  /** Reversing twice restores the index. */
  lemma {:induction false} RevInvolution(i: nat, k: nat)
    requires i < Pow(2, k)
    ensures Rev(Rev(i, k), k) == i
  {
    if k > 0 {
      var rest := Rev(i / 2, k - 1);
      RevInvolution(i / 2, k - 1);
      if i % 2 == 1 {
        RevHigh(rest, k);
      } else {
        RevLow(rest, k);
      }
    }
  }

  /** The loop that peels bits off the bottom and pushes them on the result. */
  method BitReverse(input: nat, k: nat) returns (r: nat)
    ensures r == Rev(input, k)
  {
    var rest: nat := input;
    r := 0;
    for i := 0 to k
      invariant r * Pow(2, k - i) + Rev(rest, k - i) == Rev(input, k)
    {
      PushBit(r, rest % 2, Pow(2, k - i - 1));
      r := 2 * r + rest % 2;
      rest := rest / 2;
    }
    assert r * Pow(2, 0) == r;
  }

  lemma PushBit(r: nat, b: nat, p: int)
    ensures (2 * r + b) * p == r * (2 * p) + b * p
    ensures b == 0 ==> b * p == 0
    ensures b == 1 ==> b * p == p
  {
  }

  // ------------------------------------------------------------------ the shuffle

  /** Even places before odd places, recursively: the order the network works in. */
  ghost function Shuffle(x: seq<int>): (y: seq<int>)
    ensures |y| <= |x|
    decreases |x|
  {
    if |x| <= 1 then x else Shuffle(Evens(x)) + Shuffle(Odds(x))
  }

  lemma {:induction false} ShuffleLength(x: seq<int>, k: nat)
    requires |x| == Pow(2, k)
    ensures |Shuffle(x)| == |x| >= 1
    decreases k
  {
    PowPos(2, k);
    if k > 0 {
      PowPos(2, k - 1);
      ShuffleLength(Evens(x), k - 1);
      ShuffleLength(Odds(x), k - 1);
    }
  }

  lemma ShuffleHalves(x: seq<int>, k: nat)
    requires k >= 1 && |x| == Pow(2, k)
    ensures var h := Pow(2, k - 1);
            h >= 1 && |x| == 2 * h && |Shuffle(Evens(x))| == |Evens(x)| == h && |Shuffle(Odds(x))| == |Odds(x)| == h
    ensures Shuffle(x) == Shuffle(Evens(x)) + Shuffle(Odds(x))
  {
    PowPos(2, k - 1);
    ShuffleLength(Evens(x), k - 1);
    ShuffleLength(Odds(x), k - 1);
  }

  /** Shuffling is bit reversal of the places. */
  lemma {:induction false} ShuffleAt(x: seq<int>, k: nat, p: nat)
    requires |x| == Pow(2, k) == |Shuffle(x)| && p < |x|
    ensures Rev(p, k) < |x| && Shuffle(x)[p] == x[Rev(p, k)]
    decreases k
  {
    if k == 0 {
      assert Rev(p, 0) == 0;
    } else {
      var h := Pow(2, k - 1);
      ShuffleHalves(x, k);
      if p < h {
        ShuffleAt(Evens(x), k - 1, p);
        RevLow(p, k);
        EvenPlace(x, Rev(p, k - 1));
      } else {
        ShuffleAt(Odds(x), k - 1, p - h);
        RevHigh(p - h, k);
        EvenPlace(x, Rev(p - h, k - 1));
      }
    }
  }

  lemma EvenPlace(x: seq<int>, q: nat)
    requires q < |x| / 2
    ensures Evens(x)[q] == x[2 * q] && Odds(x)[q] == x[2 * q + 1]
  {
  }

  ghost predicate Permutes(a: seq<int>, x: seq<int>, k: nat, i: int)
    requires |a| == |x| == Pow(2, k)
  {
    forall p: nat :: p < |a| ==> a[p] == if p < i || Rev(p, k) < i then x[Rev(p, k)] else x[p]
  }

  /** Swaps every pair of places once. */
  method BitReverseInPlace(a: array<int>, k: nat)
    requires a.Length == Pow(2, k)
    modifies a
    ensures a[..] == Shuffle(old(a[..]))
  {
    ghost var x := a[..];
    for i := 0 to a.Length
      invariant Permutes(a[..], x, k, i)
    {
      var j := BitReverse(i, k);
      AllInvolutions(k);
      if i < j {
        a[i], a[j] := a[j], a[i];
      }
    }
    ShuffleLength(x, k);
    forall p: nat | p < a.Length
      ensures a[..][p] == Shuffle(x)[p]
    {
      ShuffleAt(x, k, p);
    }
  }

  lemma AllInvolutions(k: nat)
    ensures forall p: nat :: p < Pow(2, k) ==> Rev(Rev(p, k), k) == p
  {
    forall p: nat | p < Pow(2, k)
      ensures Rev(Rev(p, k), k) == p
    {
      RevInvolution(p, k);
    }
  }
}
