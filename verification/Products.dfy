/** What both recursive multiplications share: the room a product takes, and its copy into the
    caller's buffer. */
module Products {
  import opened Arith
  import opened Limbs
  import opened BigInts

  lemma PowersFit(a: nat, b: nat, base: int, i: nat, j: nat)
    requires a < Pow(base, i) && b < Pow(base, j)
    ensures 0 <= a * b < Pow(base, i + j)
  {
    PowAdd(base, i, j);
    MulBelow(a, b, Pow(base, i), Pow(base, j));
  }

  /** `z` is a trimmed, positive number of value `v`. */
  ghost predicate Holds(z: BigInt, v: int)
    reads z, z.buf
  {
    z.Valid() && z.Trimmed() && z.sign == 1 && z.Mag() == v
  }

  /** A trimmed product of `x` and `y` fits wherever their limb counts together do. */
  method CopyProduct(x: BigInt, y: BigInt, z: BigInt, res: BigInt)
    requires x.Valid() && y.Valid() && Holds(z, x.Mag() * y.Mag()) && res.Valid() && x.n + y.n <= res.cap
    requires res.buf != z.buf && res.buf != x.buf && res.buf != y.buf
    modifies res, res.buf
    ensures Holds(res, x.Mag() * y.Mag())
  {
    ValBound(x.Limbs());
    ValBound(y.Limbs());
    PowersFit(x.Mag(), y.Mag(), B, x.n, y.n);
    PowMono(B, x.n + y.n, res.cap);
    TrimFits(z.Limbs(), res.cap);
    res.Copy(z);
  }
}
