/** The in-place butterfly network, forward and inverse, against the recursive transform it
    unrolls: every stage turns all blocks of one size into blocks of twice that size. */
module Network {
  import opened Arith
  import opened FermatRing

  ghost predicate AllIn(x: seq<int>, n: nat) {
    forall i :: 0 <= i < |x| ==> InRing(x[i], n)
  }

  /** The exponent step between neighbouring twiddle factors of blocks of 2^s. */
  function Step(n: nat, s: nat): nat {
    PowPos(2, s);
    (2 * n) / Pow(2, s)
  }

  /** The exponent a butterfly shifts by: as accumulated, or its complement in the period. */
  function Exponent(t: nat, n: nat, inverse: bool): nat
    requires n >= 1 && t <= 2 * n
  {
    if inverse then (2 * n - t) % (2 * n) else t
  }

  /** The shifted lower input of a butterfly. */
  function Turn(v: int, t: nat, n: nat, inverse: bool): (r: int)
    requires n >= 1 && t <= 2 * n && InRing(v, n)
    ensures InRing(r, n)
  {
    CyclicShift(v, Exponent(t, n, inverse), n)
  }

  /** All butterflies of one block, on its transformed halves. */
  ghost function Combine(e: seq<int>, o: seq<int>, step: nat, n: nat, inverse: bool): (r: seq<int>)
    requires n >= 1 && |e| == |o| && |e| * step <= n && AllIn(e, n) && AllIn(o, n)
    ensures |r| == 2 * |e| && AllIn(r, n)
  {
    seq(2 * |e|, i requires 0 <= i < 2 * |e| => CombineAt(e, o, step, n, inverse, i))
  }

  ghost function CombineAt(e: seq<int>, o: seq<int>, step: nat, n: nat, inverse: bool, i: nat): (r: int)
    requires n >= 1 && |e| == |o| && |e| * step <= n && AllIn(e, n) && AllIn(o, n) && i < 2 * |e|
    ensures InRing(r, n)
  {
    var j := if i < |e| then i else i - |e|;
    TwiddleRange(j, |e|, step, n);
    var t := Turn(o[j], j * step, n, inverse);
    if i < |e| then AddMod(e[j], t, n) else SubMod(e[j], t, n)
  }

  lemma TwiddleRange(j: nat, half: nat, step: nat, n: nat)
    requires half * step <= n && j <= half
    ensures 0 <= j * step <= n
  {
    MulNat(j, step);
    MulMono(j, half, step);
  }

  lemma StepBound(n: nat, s: nat)
    requires s >= 1
    ensures Pow(2, s - 1) * Step(n, s) <= n
  {
    var h, q := Pow(2, s - 1), Step(n, s);
    PowPos(2, s - 1);
    StepRemainder(n, h, q);
  }

  lemma StepRemainder(n: nat, h: int, q: int)
    requires h >= 1 && q == (2 * n) / (2 * h)
    ensures h * q <= n
  {
    assert 2 * n == (2 * h) * q + (2 * n) % (2 * h);
    assert (2 * h) * q == 2 * (h * q);
  }

  /** The recursive transform of 2^s shuffled inputs. */
  ghost function Net(s: nat, y: seq<int>, n: nat, inverse: bool): (r: seq<int>)
    requires n >= 1 && |y| == Pow(2, s) && AllIn(y, n)
    ensures |r| == |y| && AllIn(r, n)
    decreases s
  {
    if s == 0 then y
    else
      var h := Pow(2, s - 1);
      StepBound(n, s);
      Combine(Net(s - 1, y[..h], n, inverse), Net(s - 1, y[h..], n, inverse), Step(n, s), n, inverse)
  }

  /** Every block of 2^s transformed on its own. */
  ghost function Stages(y: seq<int>, s: nat, n: nat, inverse: bool): (r: seq<int>)
    requires n >= 1 && AllIn(y, n)
    ensures |r| == |y| && AllIn(r, n)
    decreases |y|
  {
    PowPos(2, s);
    var l := Pow(2, s);
    if |y| < l then y
    else Net(s, y[..l], n, inverse) + Stages(y[l..], s, n, inverse)
  }

  // ------------------------------------------------------------------ blocks

  /** `len` is a whole number of blocks of `l`. */
  ghost predicate WholeBlocks(len: nat, l: nat)
    decreases len
  {
    len == 0 || (1 <= l <= len && WholeBlocks(len - l, l))
  }

  /** Before the end there is room for one more block. */
  lemma {:induction false} RoomForBlock(start: nat, total: nat, l: nat)
    requires WholeBlocks(start, l) && WholeBlocks(total, l) && start < total
    ensures 1 <= l && start + l <= total && WholeBlocks(start + l, l)
    decreases start
  {
    if start > 0 {
      RoomForBlock(start - l, total - l, l);
    }
  }

  lemma {:induction false} BlocksAdd(x: nat, y: nat, l: nat)
    requires WholeBlocks(x, l) && WholeBlocks(y, l)
    ensures WholeBlocks(x + y, l)
    decreases x
  {
    if x > 0 {
      BlocksAdd(x - l, y, l);
    }
  }

  lemma {:induction false} PowerBlocks(s: nat, k: nat)
    requires s <= k
    ensures Pow(2, s) >= 1 && Pow(2, k) >= 1 && WholeBlocks(Pow(2, k), Pow(2, s))
    decreases k
  {
    PowPos(2, s);
    PowPos(2, k);
    if s < k {
      PowerBlocks(s, k - 1);
      BlocksAdd(Pow(2, k - 1), Pow(2, k - 1), Pow(2, s));
    } else {
      assert WholeBlocks(0, Pow(2, s));
    }
  }

  /** Blocks of one value are the values. */
  lemma {:induction false} StagesZero(y: seq<int>, n: nat, inverse: bool)
    requires n >= 1 && AllIn(y, n)
    ensures Stages(y, 0, n, inverse) == y && AtStage(y, y, 0, n, inverse)
    decreases |y|
  {
    assert Pow(2, 0) == 1;
    if |y| > 0 {
      StagesZero(y[1..], n, inverse);
      assert y[..1] + y[1..] == y;
    }
  }

  // The quantifiers over one value below, t == s, keep the recursive function out of the reach of
  // the solver, which would unfold it in every loop; a proof that needs the definition asserts the
  // equation at s.

  /** `r` is `y` with every block of 2^s transformed. */
  ghost predicate AtStage(r: seq<int>, y: seq<int>, s: nat, n: nat, inverse: bool)
    requires n >= 1 && AllIn(y, n)
  {
    forall t: nat :: t == s ==> r == Stages(y, t, n, inverse)
  }

  /** `r` is the transform of the one block `y`. */
  ghost predicate AtNet(r: seq<int>, y: seq<int>, s: nat, n: nat, inverse: bool)
    requires n >= 1 && AllIn(y, n) && |y| == Pow(2, s)
  {
    forall t: nat :: t == s ==> r == Net(t, y, n, inverse)
  }

  /** Two transformed halves make a transformed whole. */
  lemma Merge(w: seq<int>, e: seq<int>, o: seq<int>, half: nat, s: nat, n: nat, inverse: bool)
    requires n >= 1 && s >= 1 && half == Pow(2, s - 1) && |w| == 2 * half == Pow(2, s) && AllIn(w, n)
    requires AtNet(e, w[..half], s - 1, n, inverse) && AtNet(o, w[half..], s - 1, n, inverse)
    ensures |e| == |o| == half && AllIn(e, n) && AllIn(o, n) && half * Step(n, s) <= n
    ensures AtNet(Combine(e, o, Step(n, s), n, inverse), w, s, n, inverse)
  {
    StepBound(n, s);
    assert e == Net(s - 1, w[..half], n, inverse) && o == Net(s - 1, w[half..], n, inverse);
    assert Net(s, w, n, inverse) == Combine(e, o, Step(n, s), n, inverse);
  }

  /** The first block, and the rest. */
  lemma Peel(r: seq<int>, z: seq<int>, half: nat, s: nat, n: nat, inverse: bool)
    requires n >= 1 && half == Pow(2, s) >= 1 && |z| >= half && AllIn(z, n) && AtStage(r, z, s, n, inverse)
    ensures |r| == |z| && AtNet(r[..half], z[..half], s, n, inverse) && AtStage(r[half..], z[half..], s, n, inverse)
  {
    assert r == Stages(z, s, n, inverse);
    assert r[..half] == Net(s, z[..half], n, inverse);
    assert r[half..] == Stages(z[half..], s, n, inverse);
  }

  lemma Unpeel(q: seq<int>, head: seq<int>, tail: seq<int>, l: nat, s: nat, n: nat, inverse: bool)
    requires n >= 1 && l == Pow(2, s) >= 1 && |q| >= l && AllIn(q, n)
    requires AtNet(head, q[..l], s, n, inverse) && AtStage(tail, q[l..], s, n, inverse)
    ensures AtStage(head + tail, q, s, n, inverse)
  {
    assert head == Net(s, q[..l], n, inverse) && tail == Stages(q[l..], s, n, inverse);
    assert head + tail == Stages(q, s, n, inverse);
  }

  lemma SingleBlock(z: seq<int>, c: seq<int>, s: nat, n: nat, inverse: bool)
    requires n >= 1 && |z| == Pow(2, s) >= 1 && AllIn(z, n) && AtNet(c, z, s, n, inverse)
    ensures AtStage(c, z, s, n, inverse)
  {
    assert z[..|z|] == z && z[|z|..] == [];
    EmptyStage(s, n, inverse);
    Unpeel(z, c, [], |z|, s, n, inverse);
    assert c + [] == c;
  }

  lemma EmptyStage(s: nat, n: nat, inverse: bool)
    requires n >= 1
    ensures AtStage([], [], s, n, inverse)
  {
    PowPos(2, s);
    assert Stages([], s, n, inverse) == [];
  }

  lemma StageLength(a: seq<int>, y: seq<int>, s: nat, n: nat, inverse: bool)
    requires n >= 1 && AllIn(y, n) && AtStage(a, y, s, n, inverse)
    ensures |a| == |y| && AllIn(a, n)
  {
    assert a == Stages(y, s, n, inverse);
  }

  /** One more block at the end. */
  lemma {:induction false} Extend(y: seq<int>, z: seq<int>, q: seq<int>, f: seq<int>, c: seq<int>,
                                  s: nat, n: nat, inverse: bool)
    requires n >= 1 && AllIn(y, n) && AllIn(z, n) && AllIn(q, n)
    requires |z| == Pow(2, s) >= 1 && WholeBlocks(|y|, Pow(2, s))
    requires q == y + z && AtStage(f, y, s, n, inverse) && AtNet(c, z, s, n, inverse)
    ensures AtStage(f + c, q, s, n, inverse)
    decreases |y|
  {
    var l := Pow(2, s);
    StageLength(f, y, s, n, inverse);
    if |y| == 0 {
      assert q == z && f + c == c;
      SingleBlock(z, c, s, n, inverse);
    } else {
      Peel(f, y, l, s, n, inverse);
      assert q[..l] == y[..l] && q[l..] == y[l..] + z;
      Extend(y[l..], z, q[l..], f[l..], c, s, n, inverse);
      Unpeel(q, f[..l], f[l..] + c, l, s, n, inverse);
      assert f[..l] + (f[l..] + c) == f + c;
    }
  }

  // ------------------------------------------------------------------ the loops

  /** The first `j` butterflies of the block at `start` are done: `c` is what the block becomes. */
  ghost predicate Mixed(a: seq<int>, x: seq<int>, start: nat, half: nat, c: seq<int>, j: nat)
    requires start + 2 * half <= |x| && |c| == 2 * half
  {
    && |a| == |x|
    && forall p: nat :: p < |x| ==>
          a[p] == if start <= p < start + j || start + half <= p < start + half + j then
                    if p < start + 2 * half then c[p - start] else 0
                  else x[p]
  }

  /** The butterflies of one block, with a running twiddle exponent. */
  method Butterflies(a: array<int>, start: nat, half: nat, step: nat, n: nat, inverse: bool,
                     ghost e: seq<int>, ghost o: seq<int>)
    requires n >= 1 && start + 2 * half <= a.Length && |e| == |o| == half && half * step <= n && AllIn(e, n)
    requires AllIn(o, n)
    requires a[start..start + half] == e && a[start + half..start + 2 * half] == o
    modifies a
    ensures Mixed(a[..], old(a[..]), start, half, Combine(e, o, step, n, inverse), half)
  {
    ghost var x, c := a[..], Combine(e, o, step, n, inverse);
    var exp: nat := 0;
    for j := 0 to half
      invariant exp == j * step && Mixed(a[..], x, start, half, c, j)
    {
      ExponentRange(j, half, step, n);
      assert x[start + j] == x[start..start + half][j] == e[j];
      assert x[start + half + j] == x[start + half..start + 2 * half][j] == o[j];
      CombineEntries(e, o, step, n, inverse, j, exp);
      OneButterfly(a, j, start, half, exp, n, inverse, x, c);
      exp := WrapOnce(exp + step, 2 * n);
    }
  }

  lemma CombineEntries(e: seq<int>, o: seq<int>, step: nat, n: nat, inverse: bool, j: nat, exp: nat)
    requires n >= 1 && |e| == |o| && |e| * step <= n && AllIn(e, n) && AllIn(o, n) && j < |e| && exp == j * step
    requires exp <= n
    ensures Combine(e, o, step, n, inverse)[j] == AddMod(e[j], Turn(o[j], exp, n, inverse), n)
    ensures Combine(e, o, step, n, inverse)[|e| + j] == SubMod(e[j], Turn(o[j], exp, n, inverse), n)
  {
    assert Combine(e, o, step, n, inverse)[j] == CombineAt(e, o, step, n, inverse, j);
    assert Combine(e, o, step, n, inverse)[|e| + j] == CombineAt(e, o, step, n, inverse, |e| + j);
  }

  /** The exponent, brought back into its period by one conditional subtraction. */
  function WrapOnce(exp: nat, period: nat): nat {
    if exp >= period then exp - period else exp
  }

  lemma ExponentRange(j: nat, half: nat, step: nat, n: nat)
    requires n >= 1 && half * step <= n && j < half
    ensures 0 <= j * step <= n && (j + 1) * step == j * step + step < 2 * n
  {
    TwiddleRange(j, half, step, n);
    TwiddleRange(j + 1, half, step, n);
  }

  method OneButterfly(a: array<int>, j: nat, start: nat, half: nat, exp: nat, n: nat, inverse: bool,
                      ghost x: seq<int>, ghost c: seq<int>)
    requires n >= 1 && exp <= n && j < half && start + 2 * half <= |x| && |x| == a.Length && |c| == 2 * half
    requires Mixed(a[..], x, start, half, c, j)
    requires InRing(x[start + j], n) && InRing(x[start + half + j], n)
    requires c[j] == AddMod(x[start + j], Turn(x[start + half + j], exp, n, inverse), n)
    requires c[half + j] == SubMod(x[start + j], Turn(x[start + half + j], exp, n, inverse), n)
    modifies a
    ensures Mixed(a[..], x, start, half, c, j + 1)
  {
    var u, v := a[start + j], a[start + j + half];
    assert u == x[start + j] && v == x[start + half + j];
    var t := Turn(v, exp, n, inverse);
    a[start + j] := AddMod(u, t, n);
    a[start + j + half] := SubMod(u, t, n);
  }

  /** A whole block, as a value. */
  lemma BlockCombined(a: seq<int>, x: seq<int>, start: nat, half: nat, c: seq<int>)
    requires start + 2 * half <= |x| && |c| == 2 * half && Mixed(a, x, start, half, c, half)
    ensures a[..start + 2 * half] == x[..start] + c && a[start + 2 * half..] == x[start + 2 * half..]
  {
  }

  /** The state between blocks: finished ones before `start`, smaller ones from there on. */
  ghost predicate AtBlock(a: seq<int>, y: seq<int>, start: nat, s: nat, n: nat, inverse: bool)
    requires n >= 1 && s >= 1 && start <= |y| && AllIn(y, n)
  {
    && |a| == |y|
    && AtStage(a[..start], y[..start], s, n, inverse)
    && AtStage(a[start..], y[start..], s - 1, n, inverse)
  }

  lemma StageBegins(a: seq<int>, y: seq<int>, s: nat, n: nat, inverse: bool)
    requires n >= 1 && s >= 1 && AllIn(y, n) && AtStage(a, y, s - 1, n, inverse)
    ensures AtBlock(a, y, 0, s, n, inverse)
  {
    StageLength(a, y, s - 1, n, inverse);
    EmptyStage(s, n, inverse);
    assert y[..0] == [] == a[..0] && y[0..] == y && a[0..] == a;
  }

  lemma StageEnds(a: seq<int>, y: seq<int>, s: nat, n: nat, inverse: bool)
    requires n >= 1 && s >= 1 && AllIn(y, n) && AtBlock(a, y, |y|, s, n, inverse)
    ensures AtStage(a, y, s, n, inverse)
  {
    assert y[..|y|] == y && a[..|y|] == a;
  }

  lemma WholeStage(a: seq<int>, y: seq<int>, s: nat, n: nat, inverse: bool)
    requires n >= 1 && AllIn(y, n) && |y| == Pow(2, s) && AtStage(a, y, s, n, inverse)
    ensures a == Net(s, y, n, inverse)
  {
    PowPos(2, s);
    assert a == Stages(y, s, n, inverse);
    assert y[..|y|] == y && y[|y|..] == [];
    assert Stages([], s, n, inverse) == [];
  }

  /** The next two blocks, and the state once they are merged into `c`. */
  lemma NextPair(x: seq<int>, y: seq<int>, start: nat, half: nat, s: nat, n: nat, inverse: bool)
    returns (e: seq<int>, o: seq<int>)
    requires n >= 1 && s >= 1 && half == Pow(2, s - 1) && 2 * half == Pow(2, s) && half >= 1
    requires WholeBlocks(start, 2 * half)
    requires start + 2 * half <= |y| && AllIn(y, n) && AtBlock(x, y, start, s, n, inverse)
    ensures |x| == |y| && e == x[start..start + half] && o == x[start + half..start + 2 * half]
    ensures AllIn(e, n) && AllIn(o, n) && half * Step(n, s) <= n
    ensures AtStage(x[..start] + Combine(e, o, Step(n, s), n, inverse), y[..start + 2 * half], s, n, inverse)
    ensures AtStage(x[start + 2 * half..], y[start + 2 * half..], s - 1, n, inverse)
  {
    var z, r := y[start..], x[start..];
    var w := z[..2 * half];
    Peel(r, z, half, s - 1, n, inverse);
    Peel(r[half..], z[half..], half, s - 1, n, inverse);
    e, o := r[..half], r[half..][..half];
    Offsets(y, start, half);
    Offsets(x, start, half);
    Merge(w, e, o, half, s, n, inverse);
    Extend(y[..start], w, y[..start + 2 * half], x[..start], Combine(e, o, Step(n, s), n, inverse), s, n, inverse);
  }

  lemma Offsets(y: seq<int>, start: nat, half: nat)
    requires start + 2 * half <= |y|
    ensures var z := y[start..]; z[half..][..half] == z[..2 * half][half..] == y[start + half..start + 2 * half]
    ensures y[start..][..2 * half][..half] == y[start..][..half] == y[start..start + half]
    ensures y[start..][half..][half..] == y[start + 2 * half..]
    ensures y[..start] + y[start..][..2 * half] == y[..start + 2 * half]
  {
  }

  /** One block: two transformed halves become one transformed block. */
  method Block(a: array<int>, start: nat, half: nat, step: nat, n: nat, inverse: bool, ghost y: seq<int>, ghost s: nat)
    requires n >= 1 && s >= 1 && half == Pow(2, s - 1) && 2 * half == Pow(2, s) && half >= 1
    requires WholeBlocks(start, 2 * half)
    requires |y| == a.Length && start + 2 * half <= a.Length && AllIn(y, n) && step == Step(n, s)
    requires AtBlock(a[..], y, start, s, n, inverse)
    modifies a
    ensures AtBlock(a[..], y, start + 2 * half, s, n, inverse)
  {
    ghost var x := a[..];
    ghost var e, o := NextPair(x, y, start, half, s, n, inverse);
    Butterflies(a, start, half, step, n, inverse, e, o);
    ghost var c := Combine(e, o, step, n, inverse);
    BlockCombined(a[..], x, start, half, c);
  }

  /** One stage: from blocks of 2^(s-1) to blocks of 2^s. */
  method Stage(a: array<int>, len: nat, n: nat, inverse: bool, ghost y: seq<int>, ghost s: nat)
    requires n >= 1 && s >= 1 && len == Pow(2, s) && |y| == a.Length && WholeBlocks(a.Length, len) && AllIn(y, n)
    requires AtStage(a[..], y, s - 1, n, inverse)
    modifies a
    ensures AtStage(a[..], y, s, n, inverse)
  {
    StageShape(len, s);
    var half, step := len / 2, (2 * n) / len;
    assert step == Step(n, s);
    StageBlocks(a, len, half, step, n, inverse, y, s);
  }

  lemma StageShape(len: nat, s: nat)
    requires s >= 1 && len == Pow(2, s)
    ensures len >= 2 && len == 2 * (len / 2) && len / 2 == Pow(2, s - 1)
  {
    PowPos(2, s - 1);
  }

  method StageBlocks(a: array<int>, len: nat, half: nat, step: nat, n: nat, inverse: bool, ghost y: seq<int>,
                     ghost s: nat)
    requires n >= 1 && s >= 1 && len == Pow(2, s) && half == Pow(2, s - 1) && len == 2 * half && len >= 2
    requires step == Step(n, s)
    requires |y| == a.Length && WholeBlocks(a.Length, len) && AllIn(y, n) && AtStage(a[..], y, s - 1, n, inverse)
    modifies a
    ensures AtStage(a[..], y, s, n, inverse)
  {
    var start: nat := 0;
    StageBegins(a[..], y, s, n, inverse);
    while start < a.Length
      invariant start <= a.Length && WholeBlocks(start, len)
      invariant AtBlock(a[..], y, start, s, n, inverse)
    {
      RoomForBlock(start, a.Length, len);
      Block(a, start, half, step, n, inverse, y, s);
      start := start + len;
    }
    StageEnds(a[..], y, s, n, inverse);
  }

  /** All stages: the loops over block lengths compute the recursive transform. */
  method Butterfly(a: array<int>, k: nat, n: nat, inverse: bool)
    requires n >= 1 && a.Length == Pow(2, k) && AllIn(a[..], n)
    modifies a
    ensures a[..] == Net(k, old(a[..]), n, inverse)
  {
    ghost var y := a[..];
    AllStages(a, k, n, inverse);
    WholeStage(a[..], y, k, n, inverse);
  }

  method AllStages(a: array<int>, ghost k: nat, n: nat, inverse: bool)
    requires n >= 1 && a.Length == Pow(2, k) && AllIn(a[..], n)
    modifies a
    ensures AtStage(a[..], old(a[..]), k, n, inverse)
  {
    ghost var y := a[..];
    var len: nat := 2;
    ghost var s: nat := 0;
    assert Pow(2, 1) == 2;
    StagesZero(y, n, inverse);
    while len <= a.Length
      invariant s <= k && len == Pow(2, s + 1) && AtStage(a[..], y, s, n, inverse)
      decreases k - s
    {
      PowerOrder(s + 1, k);
      PowerBlocks(s + 1, k);
      Stage(a, len, n, inverse, y, s + 1);
      len, s := 2 * len, s + 1;
    }
    PowerOrder(s + 1, k);
  }

  lemma PowerOrder(i: nat, k: nat)
    ensures Pow(2, i) <= Pow(2, k) <==> i <= k
    ensures Pow(2, i + 1) == 2 * Pow(2, i)
  {
    if i <= k {
      PowMono(2, i, k);
    } else {
      PowPos(2, k);
      PowMono(2, k + 1, i);
    }
  }
}
