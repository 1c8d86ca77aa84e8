/** The three parts of a Toom-3 operand, and the operands that the source's untrimmed parts suit. */
module ToomParts {
  import opened Arith
  import opened Limbs
  import opened Workspace
  import opened SignMagnitude
  import opened ToomArithmetic

  ghost function ThreeParts(s: seq<Limb>, k: nat): (p: Poly)
    requires |s| <= 3 * k
    ensures p.Below(Pow(B, k)) && p.Whole(k) == Val(s)
    ensures p.a0 == Val(Piece(s, 0, k)) && p.a1 == Val(Piece(s, k, k)) && p.a2 == Val(Piece(s, 2 * k, k))
  {
    PieceBound(s, 0, k);
    PieceBound(s, k, k);
    PieceBound(s, 2 * k, k);
    ThreePieces(s, k);
    Poly(Val(Piece(s, 0, k)), Val(Piece(s, k, k)), Val(Piece(s, 2 * k, k)))
  }

  lemma ThreePieces(s: seq<Limb>, k: nat)
    requires |s| <= 3 * k
    ensures Val(s) == Val(Piece(s, 0, k)) + Shl(Val(Piece(s, k, k)), k) + Shl(Val(Piece(s, 2 * k, k)), 2 * k)
  {
    ShlZero(k);
    ShlZero(2 * k);
    if |s| <= k {
      assert Piece(s, 0, k) == s;
    } else {
      ValCut(s, k);
      assert Piece(s, 0, k) == s[..k];
      var hi := s[k..];
      if |hi| <= k {
        assert Piece(s, k, k) == hi;
      } else {
        ValCut(hi, k);
        assert Piece(s, k, k) == hi[..k];
        assert Piece(s, 2 * k, k) == hi[k..];
        ShlAdd(Val(hi[..k]), Shl(Val(hi[k..]), k), k);
        ShlShl(Val(hi[k..]), k, k);
      }
    }
  }

  // ------------------------------------------------------------------ operands whose parts need no trimming

  /** The limbs of a number, without leading zeros. */
  ghost function LimbsOf(x: nat): (s: seq<Limb>)
    ensures Trim(s) && Val(s) == x
  {
    if x == 0 then []
    else
      var rest := LimbsOf(x / B);
      LowestLimbFirst(x % B, rest);
      [x % B] + rest
  }

  lemma LowestLimbFirst(d: Limb, rest: seq<Limb>)
    ensures Val([d] + rest) == d + B * Val(rest)
  {
    var s := [d] + rest;
    ValCut(s, 1);
    SingleLimb(d);
    assert s[..1] == [d] && s[1..] == rest;
    assert Shl(Val(rest), 1) == B * Shl(Val(rest), 0);
  }

  /** They are the only ones. */
  lemma TrimmedLimbs(s: seq<Limb>)
    requires Trim(s)
    ensures 0 <= Val(s) && s == LimbsOf(Val(s))
  {
    ValBound(s);
    var t := LimbsOf(Val(s));
    CompTrimmed(s, t);
    TopsEqual(s, t, |s|);
  }

  lemma {:induction false} TopsEqual(s: seq<Limb>, t: seq<Limb>, i: nat)
    requires i <= |s| == |t| && CompTop(s, t, i) == 0
    ensures s[..i] == t[..i]
  {
    if i > 0 {
      TopsEqual(s, t, i - 1);
      assert s[..i] == s[..i - 1] + [s[i - 1]] && t[..i] == t[..i - 1] + [t[i - 1]];
    }
  }

  /** No part has a leading zero limb. */
  ghost predicate FullParts(s: seq<Limb>, k: nat) {
    Trim(Piece(s, 0, k)) && Trim(Piece(s, k, k)) && Trim(Piece(s, 2 * k, k))
  }

  /** `p` has the parts of `s`, and `full` tells whether any has a leading zero limb. */
  ghost predicate Cut(p: Poly, s: seq<Limb>, k: nat, full: bool) {
    forall z: seq<Limb> :: z == s && |z| <= 3 * k ==> p == ThreeParts(z, k) && (full <==> FullParts(z, k))
  }

  ghost predicate IsProduct(s: seq<Limb>, t: seq<Limb>, total: int) {
    forall z :: z == t ==> total == Val(s) * Val(z)
  }

  lemma CutFacts(p: Poly, s: seq<Limb>, k: nat, full: bool)
    requires Cut(p, s, k, full) && |s| <= 3 * k
    ensures p.Below(Pow(B, k)) && p.Whole(k) == Val(s) && 0 <= Val(s) < Pow(B, |s|)
  {
    ValBound(s);
    assert p == ThreeParts(s, k);
  }

  /** The values at the five points take at most one limb more than the parts. */
  lemma PointsFit(p: Poly, k: nat)
    requires p.Below(Pow(B, k))
    ensures forall i: nat :: |LimbsOf(Abs(p.Evaluate().At(i)))| <= k + 1
  {
    PowPos(B, k);
    assert Pow(B, k + 1) == B * Pow(B, k);
    forall i: nat
      ensures |LimbsOf(Abs(p.Evaluate().At(i)))| <= k + 1
    {
      PointBelow(p, i, Pow(B, k));
      TrimFits(LimbsOf(Abs(p.Evaluate().At(i))), k + 1);
    }
  }

  lemma PointBelow(p: Poly, i: nat, w: int)
    requires p.Below(w)
    ensures Abs(p.Evaluate().At(i)) < 8 * w
  {
  }

  /** No part of the operands has a leading zero limb, nor has any part of the operands of the five
      point products, and so on down: what a caller would have to see to for the parts to need no
      trimming. */
  ghost predicate Plain(s: seq<Limb>, t: seq<Limb>)
    decreases Max(|s|, |t|), 1
  {
    |s| <= SCHOOLBOOK || |t| <= SCHOOLBOOK
    || (ToomShrinks(|s|, |t|);
        PlainSplit(s, t, Third(|s|, |t|)))
  }

  ghost predicate PlainSplit(s: seq<Limb>, t: seq<Limb>, k: nat)
    requires |s| <= 3 * k && |t| <= 3 * k && k + 1 < Max(|s|, |t|)
    decreases Max(|s|, |t|), 0
  {
    var p, q := ThreeParts(s, k), ThreeParts(t, k);
    PointsFit(p, k);
    PointsFit(q, k);
    && FullParts(s, k) && FullParts(t, k)
    && forall i: nat :: i < 5 ==> Plain(LimbsOf(Abs(p.Evaluate().At(i))), LimbsOf(Abs(q.Evaluate().At(i))))
  }

  /** What a run on `s` and `t` tells by `plain`. */
  ghost predicate Tells(s: seq<Limb>, t: seq<Limb>, plain: bool) {
    forall z :: z == t ==> (plain <==> Plain(s, z))
  }

  /** The same of the point product at the i-th point. */
  ghost predicate TellsAt(a: Values, b: Values, i: nat, plain: bool) {
    forall z: Values :: z == b ==> Tells(LimbsOf(Abs(a.At(i))), LimbsOf(Abs(z.At(i))), plain)
  }

  ghost predicate PlainPoints(a: Values, b: Values) {
    forall i: nat :: i < 5 ==> Plain(LimbsOf(Abs(a.At(i))), LimbsOf(Abs(b.At(i))))
  }

  /** And of all five. */
  ghost predicate TellsPoints(a: Values, b: Values, plain: bool) {
    forall z :: z == b ==> (plain <==> PlainPoints(a, z))
  }

  lemma TellsSmall(s: seq<Limb>, t: seq<Limb>)
    requires |s| <= SCHOOLBOOK || |t| <= SCHOOLBOOK
    ensures Tells(s, t, true)
  {
  }

  lemma PlainUnfolds(s: seq<Limb>, t: seq<Limb>, k: nat, a: Values, b: Values, all: bool)
    requires |s| > SCHOOLBOOK && |t| > SCHOOLBOOK && k == Third(|s|, |t|)
    requires a == ThreeParts(s, k).Evaluate() && b == ThreeParts(t, k).Evaluate()
    requires all <==> PlainPoints(a, b)
    ensures Plain(s, t) <==> FullParts(s, k) && FullParts(t, k) && all
  {
    ToomShrinks(|s|, |t|);
    assert Plain(s, t) == PlainSplit(s, t, k);
  }

  lemma TellsAll(ok: bool, a: Values, b: Values, f0: bool, f1: bool, f2: bool, f3: bool, f4: bool)
    requires ok ==> TellsAt(a, b, 0, f0) && TellsAt(a, b, 1, f1) && TellsAt(a, b, 2, f2) && TellsAt(a, b, 3, f3)
    requires ok ==> TellsAt(a, b, 4, f4)
    ensures ok ==> TellsPoints(a, b, f0 && f1 && f2 && f3 && f4)
  {
    forall i: nat, f: bool | TellsAt(a, b, i, f)
      ensures f <==> Plain(LimbsOf(Abs(a.At(i))), LimbsOf(Abs(b.At(i))))
    {
      TellsOne(LimbsOf(Abs(a.At(i))), LimbsOf(Abs(b.At(i))), f);
    }
  }

  lemma TellsOne(s: seq<Limb>, t: seq<Limb>, plain: bool)
    requires Tells(s, t, plain)
    ensures plain <==> Plain(s, t)
  {
  }

  lemma TellsSplit(ok: bool, s: seq<Limb>, t: seq<Limb>, k: nat, p: Poly, q: Poly, fullS: bool, fullT: bool,
                   points: bool)
    requires |s| > SCHOOLBOOK && |t| > SCHOOLBOOK && k == Third(|s|, |t|)
    requires Cut(p, s, k, fullS) && Cut(q, t, k, fullT)
    requires ok ==> TellsPoints(p.Evaluate(), q.Evaluate(), points)
    ensures ok ==> Tells(s, t, fullS && fullT && points)
  {
    if ok {
      assert p == ThreeParts(s, k) && q == ThreeParts(t, k);
      PlainUnfolds(s, t, k, p.Evaluate(), q.Evaluate(), points);
    }
  }

  /** Up to 45 limbs the point products are schoolbook products, and only the six parts matter. */
  lemma PlainAtOneLevel(s: seq<Limb>, t: seq<Limb>)
    requires |s| > SCHOOLBOOK && |t| > SCHOOLBOOK && Max(|s|, |t|) <= 45
    ensures Plain(s, t) <==> FullParts(s, Third(|s|, |t|)) && FullParts(t, Third(|s|, |t|))
  {
    var k := Third(|s|, |t|);
    var p, q := ThreeParts(s, k), ThreeParts(t, k);
    PointsPlain(p, q, k);
    PlainUnfolds(s, t, k, p.Evaluate(), q.Evaluate(), true);
  }

  lemma PointsPlain(p: Poly, q: Poly, k: nat)
    requires p.Below(Pow(B, k)) && q.Below(Pow(B, k)) && k + 1 <= SCHOOLBOOK
    ensures PlainPoints(p.Evaluate(), q.Evaluate())
  {
    PointsFit(p, k);
    forall i: nat | i < 5
      ensures Plain(LimbsOf(Abs(p.Evaluate().At(i))), LimbsOf(Abs(q.Evaluate().At(i))))
    {
      SmallIsPlain(LimbsOf(Abs(p.Evaluate().At(i))), LimbsOf(Abs(q.Evaluate().At(i))));
    }
  }

  lemma SmallIsPlain(s: seq<Limb>, t: seq<Limb>)
    requires |s| <= SCHOOLBOOK
    ensures Plain(s, t)
  {
  }
}
