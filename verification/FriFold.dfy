/**
 * What the folds of the FRI prover compute (circle_fold, line_fold and the combinations
 * of stark_stwo/src/vfri2_bridge.rs), by the laws of the extension field: a fold takes
 * the even and the odd part of two opposite values, and halves the number of
 * coefficients of a layer.
 */
module FriFold {
  import opened Prelude
  import opened Mersenne31
  import opened M31
  import opened CircleDomain
  import opened FriTree
  import opened Fri

  // ------------------------------------------------------------ the laws

  ghost predicate SumsCommutative<F(!new)>(ops: Ops<F>) {
    forall a: F, b: F :: ops.add(a, b) == ops.add(b, a)
  }

  ghost predicate SumsAssociative<F(!new)>(ops: Ops<F>) {
    forall a: F, b: F, c: F :: ops.add(ops.add(a, b), c) == ops.add(a, ops.add(b, c))
  }

  ghost predicate Negates<F(!new)>(ops: Ops<F>) {
    && (forall a: F :: ops.add(a, ops.zero) == a)
    && (forall a: F :: ops.add(a, ops.neg(a)) == ops.zero)
    && (forall a: F, b: F :: ops.sub(a, b) == ops.add(a, ops.neg(b)))
  }

  ghost predicate AddLaws<F(!new)>(ops: Ops<F>) {
    SumsCommutative(ops) && SumsAssociative(ops) && Negates(ops)
  }

  /** Scaling by elements of the base field. */
  ghost predicate ScaleLaws<F(!new)>(ops: Ops<F>) {
    && (forall a: F, b: F, x: Felt :: ops.scale(ops.add(a, b), x) == ops.add(ops.scale(a, x), ops.scale(b, x)))
    && (forall a: F, x: Felt | x != 0 :: ops.scale(ops.scale(a, x), InverseOf(x)) == a)
    && (forall a: F, x: Felt | x != 0 :: ops.scale(a, M31_P - x) == ops.neg(ops.scale(a, x)))
    && (forall a: F, b: F, x: Felt :: ops.mul(a, ops.scale(b, x)) == ops.scale(ops.mul(a, b), x))
  }

  ghost predicate Distributes<F(!new)>(ops: Ops<F>) {
    forall a: F, b: F, c: F :: ops.mul(a, ops.add(b, c)) == ops.add(ops.mul(a, b), ops.mul(a, c))
  }

  ghost predicate FoldLaws<F(!new)>(ops: Ops<F>) {
    AddLaws(ops) && ScaleLaws(ops) && Distributes(ops)
  }

  /** A product can be divided by a factor that is not zero. */
  ghost predicate Divides<F(!new)>(ops: Ops<F>) {
    forall a: F, d: F | d != ops.zero :: ops.mul(ops.mul(d, a), ops.inv(d)) == a
  }

  function Twice<F>(ops: Ops<F>, a: F): F {
    ops.add(a, a)
  }

  // ------------------------------------------------------------ sums

  lemma Regrouped<F(!new)>(ops: Ops<F>, a: F, b: F, c: F, d: F)
    requires AddLaws(ops)
    ensures ops.add(ops.add(a, b), ops.add(c, d)) == ops.add(ops.add(a, c), ops.add(b, d))
  {
    calc {
      ops.add(ops.add(a, b), ops.add(c, d));
      ops.add(a, ops.add(b, ops.add(c, d)));
      ops.add(a, ops.add(ops.add(b, c), d));
      ops.add(a, ops.add(ops.add(c, b), d));
      ops.add(a, ops.add(c, ops.add(b, d)));
      ops.add(ops.add(a, c), ops.add(b, d));
    }
  }

  lemma Cancels<F(!new)>(ops: Ops<F>, a: F, b: F)
    requires AddLaws(ops)
    ensures ops.add(ops.add(a, b), ops.neg(b)) == a
    ensures ops.sub(ops.add(a, b), a) == b
  {
    assert ops.add(ops.add(a, b), ops.neg(b)) == ops.add(a, ops.add(b, ops.neg(b)));
    assert ops.add(ops.add(b, a), ops.neg(a)) == ops.add(b, ops.add(a, ops.neg(a)));
  }

  lemma NegUnique<F(!new)>(ops: Ops<F>, a: F, b: F)
    requires AddLaws(ops) && ops.add(a, b) == ops.zero
    ensures b == ops.neg(a)
  {
    Cancels(ops, b, a);
    assert ops.add(ops.zero, ops.neg(a)) == ops.neg(a);
  }

  lemma NegTwice<F(!new)>(ops: Ops<F>, a: F)
    requires AddLaws(ops)
    ensures ops.neg(ops.neg(a)) == a
  {
    NegUnique(ops, ops.neg(a), a);
  }

  lemma NegSum<F(!new)>(ops: Ops<F>, a: F, b: F)
    requires AddLaws(ops)
    ensures ops.neg(ops.add(a, b)) == ops.add(ops.neg(a), ops.neg(b))
  {
    Regrouped(ops, a, b, ops.neg(a), ops.neg(b));
    NegUnique(ops, ops.add(a, b), ops.add(ops.neg(a), ops.neg(b)));
  }

  /** Sum and difference of e + t and e - t. */
  lemma EvenAndOdd<F(!new)>(ops: Ops<F>, e: F, t: F)
    requires AddLaws(ops)
    ensures ops.add(ops.add(e, t), ops.sub(e, t)) == Twice(ops, e)
    ensures ops.sub(ops.add(e, t), ops.sub(e, t)) == Twice(ops, t)
  {
    var n := ops.neg(t);
    Regrouped(ops, e, t, e, n);
    NegSum(ops, e, n);
    NegTwice(ops, t);
    Regrouped(ops, e, t, ops.neg(e), t);
    assert ops.add(ops.zero, Twice(ops, t)) == Twice(ops, t);
  }

  lemma TwiceSum<F(!new)>(ops: Ops<F>, a: F, b: F)
    requires AddLaws(ops)
    ensures ops.add(Twice(ops, a), Twice(ops, b)) == Twice(ops, ops.add(a, b))
  {
    Regrouped(ops, a, a, b, b);
  }

  // ------------------------------------------------------------ one fold

  /** The law of a fold.  Of e + x o and e - x o it makes 2 (e + alpha o). */
  lemma FoldLaw<F(!new)>(ops: Ops<F>, e: F, o: F, x: Felt, alpha: F)
    requires FoldLaws(ops) && x != 0
    ensures FoldOf(ops, ops.add(e, ops.scale(o, x)), ops.sub(e, ops.scale(o, x)), alpha, InverseOf(x))
         == Twice(ops, ops.add(e, ops.mul(alpha, o)))
  {
    hide AddLaws;
    var t := ops.scale(o, x);
    EvenAndOdd(ops, e, t);
    assert ops.scale(Twice(ops, t), InverseOf(x)) == Twice(ops, o);
    assert ops.mul(alpha, Twice(ops, o)) == Twice(ops, ops.mul(alpha, o));
    TwiceSum(ops, e, ops.mul(alpha, o));
  }

  /** A line fold of round k at position j, x being the twiddle. */
  lemma LineFoldLaw<F(!new)>(ops: Ops<F>, d: nat, k: nat, j: nat, e: F, o: F, alpha: F)
    requires FoldLaws(ops) && k + 2 <= d <= 30 && j < Pow2(d)
    ensures var x := Chebyshev(Coset(d, j).x, k);
            LineFold(ops, d, k, j, ops.add(e, ops.scale(o, x)), ops.sub(e, ops.scale(o, x)), alpha) ==
            Twice(ops, ops.add(e, ops.mul(alpha, o)))
  {
    hide FoldLaws, FoldOf, Chebyshev, Coset, Pow2;
    TwiddleIsNonzero(d, k, j);
    FoldLaw(ops, e, o, Chebyshev(Coset(d, j).x, k), alpha);
  }

  /** The circle fold at point q, of the quotients: where the composition values exceed
      their claimed evaluations by (z - p) (e + y o) and (z - p') (e - y o), z the abscissa
      or its negation, the first layer's value is 2 (e + alpha o). */
  lemma QuotientFoldLaw<F(!new)>(ops: Ops<F>, d: nat, q: nat, e: F, o: F, pos: F, neg: F, zx: F, alpha: F)
    requires FoldLaws(ops) && Divides(ops) && 1 <= d <= 30 && q < Pow2(d) && !Degenerate(ops, d, q, zx)
    ensures var p := Coset(d, q);
            var px := ops.fromM31(p.x);
            var plus := ops.add(e, ops.scale(o, p.y));
            var minus := ops.sub(e, ops.scale(o, p.y));
            QuotientFold(ops, d, q, ops.add(pos, ops.mul(ops.sub(px, zx), plus)),
                         ops.add(neg, ops.mul(ops.sub(ops.neg(px), zx), minus)), pos, neg, zx, alpha) ==
            Twice(ops, ops.add(e, ops.mul(alpha, o)))
  {
    hide FoldLaws, FoldOf, Coset, Pow2, Quotient, Divides;
    var p := Coset(d, q);
    var px := ops.fromM31(p.x);
    OrdinateIsNonzero(d, q);
    QuotientLaw(ops, ops.add(e, ops.scale(o, p.y)), pos, ops.sub(px, zx));
    QuotientLaw(ops, ops.sub(e, ops.scale(o, p.y)), neg, ops.sub(ops.neg(px), zx));
    FoldLaw(ops, e, o, p.y, alpha);
  }

  /** The quotient undoes a product above the claimed value. */
  lemma QuotientLaw<F(!new)>(ops: Ops<F>, v: F, claimed: F, denominator: F)
    requires FoldLaws(ops) && Divides(ops) && denominator != ops.zero
    ensures Quotient(ops, ops.add(claimed, ops.mul(denominator, v)), claimed, denominator) == v
  {
    hide AddLaws, ScaleLaws, Distributes;
    Cancels(ops, claimed, ops.mul(denominator, v));
  }

  /** Where composition value and antipodal value at point q exceed the claims by multiples
      of e + y o and of e - y o. */
  ghost predicate Splits<F>(ops: Ops<F>, d: nat, q: nat, comp: F, compNeg: F, pos: F, neg: F, zx: F, e: F, o: F)
    requires d <= 30
  {
    var p := Coset(d, q);
    var px, t := ops.fromM31(p.x), ops.scale(o, p.y);
    && comp == ops.add(pos, ops.mul(ops.sub(px, zx), ops.add(e, t)))
    && compNeg == ops.add(neg, ops.mul(ops.sub(ops.neg(px), zx), ops.sub(e, t)))
  }

  /** The first layer holds 2 (e + alpha o) at every point. */
  lemma FirstLayerLaw<F(!new)>(ops: Ops<F>, d: nat, comp: seq<F>, pos: F, neg: F, zx: F, alpha: F, values: seq<F>, es: seq<F>, os: seq<F>)
    requires FoldLaws(ops) && Divides(ops) && IsFirstLayer(ops, d, comp, pos, neg, zx, alpha, values)
    requires |es| == |os| == |values|
    requires forall q | 0 <= q < |values| :: Splits(ops, d, q, comp[q], comp[AntipodalOf(d, q)], pos, neg, zx, es[q], os[q])
    ensures forall q | 0 <= q < |values| :: values[q] == Twice(ops, ops.add(es[q], ops.mul(alpha, os[q])))
  {
    hide FoldLaws, Divides, QuotientFold, Degenerate, Coset, AntipodalOf, Pow2;
    forall q | 0 <= q < |values| ensures values[q] == Twice(ops, ops.add(es[q], ops.mul(alpha, os[q]))) {
      assert Splits(ops, d, q, comp[q], comp[AntipodalOf(d, q)], pos, neg, zx, es[q], os[q]);
      QuotientFoldLaw(ops, d, q, es[q], os[q], pos, neg, zx, alpha);
    }
  }

  /** A layer of values e_j + x_j o_j and e_j - x_j o_j folds to 2 (e_j + alpha o_j). */
  lemma LayerFoldLaw<F(!new)>(ops: Ops<F>, d: nat, k: nat, prev: seq<F>, next: seq<F>, alpha: F, es: seq<F>, os: seq<F>)
    requires FoldLaws(ops) && k + 2 <= d && IsFoldOf(ops, d, k, prev, next, alpha)
    requires |es| == |os| == |next| <= Pow2(d)
    requires forall j | 0 <= j < |next| :: var t := ops.scale(os[j], Chebyshev(Coset(d, j).x, k));
               prev[j] == ops.add(es[j], t) && prev[j + |next|] == ops.sub(es[j], t)
    ensures forall j | 0 <= j < |next| :: next[j] == Twice(ops, ops.add(es[j], ops.mul(alpha, os[j])))
  {
    hide FoldLaws, LineFold, Chebyshev, Coset, Pow2;
    forall j | 0 <= j < |next| ensures next[j] == Twice(ops, ops.add(es[j], ops.mul(alpha, os[j]))) {
      var t := ops.scale(os[j], Chebyshev(Coset(d, j).x, k));
      assert prev[j] == ops.add(es[j], t) && prev[j + |next|] == ops.sub(es[j], t);
      assert next[j] == LineFold(ops, d, k, j, prev[j], prev[j + |next|], alpha);
      LineFoldLaw(ops, d, k, j, es[j], os[j], alpha);
    }
  }

  // ------------------------------------------------------------ whole layers

  /** The polynomial with the 2^m coefficients at x: the first half of them gives the even
      part, the second the odd part, both at 2 x^2 - 1. */
  function LineEval<F>(ops: Ops<F>, m: nat, coeffs: seq<F>, x: Felt): F
    requires |coeffs| == Pow2(m)
  {
    if m == 0 then coeffs[0]
    else
      var h := Pow2(m - 1);
      ops.add(LineEval(ops, m - 1, coeffs[..h], DoubleX(x)), ops.scale(LineEval(ops, m - 1, coeffs[h..], DoubleX(x)), x))
  }

  function Mixed<F>(ops: Ops<F>, a: seq<F>, b: seq<F>, alpha: F): (r: seq<F>)
    requires |a| == |b|
    ensures |r| == |a|
  {
    seq(|a|, i requires 0 <= i < |a| => Twice(ops, ops.add(a[i], ops.mul(alpha, b[i]))))
  }

  lemma MixedParts<F(!new)>(ops: Ops<F>, e1: F, o1: F, e2: F, o2: F, x: Felt, alpha: F)
    requires FoldLaws(ops)
    ensures ops.add(Twice(ops, ops.add(e1, ops.mul(alpha, e2))), ops.scale(Twice(ops, ops.add(o1, ops.mul(alpha, o2))), x))
         == Twice(ops, ops.add(ops.add(e1, ops.scale(o1, x)), ops.mul(alpha, ops.add(e2, ops.scale(o2, x)))))
  {
    hide AddLaws;
    var ae, ao := ops.mul(alpha, e2), ops.mul(alpha, o2);
    var s := ops.scale(ops.add(o1, ao), x);
    assert ops.scale(Twice(ops, ops.add(o1, ao)), x) == Twice(ops, s);
    TwiceSum(ops, ops.add(e1, ae), s);
    assert s == ops.add(ops.scale(o1, x), ops.scale(ao, x));
    assert ops.scale(ao, x) == ops.mul(alpha, ops.scale(o2, x));
    Regrouped(ops, e1, ae, ops.scale(o1, x), ops.scale(ao, x));
  }

  lemma MixedConstants<F>(ops: Ops<F>, a: seq<F>, b: seq<F>, alpha: F, x: Felt)
    requires |a| == |b| == Pow2(0)
    ensures LineEval(ops, 0, Mixed(ops, a, b, alpha), x)
         == Twice(ops, ops.add(LineEval(ops, 0, a, x), ops.mul(alpha, LineEval(ops, 0, b, x))))
  {
  }

  lemma MixedSlices<F>(ops: Ops<F>, a: seq<F>, b: seq<F>, alpha: F, h: nat)
    requires |a| == |b| && h <= |a|
    ensures Mixed(ops, a, b, alpha)[..h] == Mixed(ops, a[..h], b[..h], alpha)
    ensures Mixed(ops, a, b, alpha)[h..] == Mixed(ops, a[h..], b[h..], alpha)
  {
  }

  lemma LineEvalStep<F>(ops: Ops<F>, m: nat, coeffs: seq<F>, x: Felt)
    requires m > 0 && |coeffs| == Pow2(m) && Pow2(m) == 2 * Pow2(m - 1)
    ensures var h := Pow2(m - 1);
            LineEval(ops, m, coeffs, x) == ops.add(LineEval(ops, m - 1, coeffs[..h], DoubleX(x)),
                                                   ops.scale(LineEval(ops, m - 1, coeffs[h..], DoubleX(x)), x))
  {
    hide DoubleX;
  }

  /** Evaluation is linear. */
  lemma {:induction false} MixedEvaluates<F(!new)>(ops: Ops<F>, m: nat, a: seq<F>, b: seq<F>, alpha: F, x: Felt)
    requires FoldLaws(ops) && |a| == |b| == Pow2(m)
    ensures LineEval(ops, m, Mixed(ops, a, b, alpha), x)
         == Twice(ops, ops.add(LineEval(ops, m, a, x), ops.mul(alpha, LineEval(ops, m, b, x))))
    decreases m
  {
    hide FoldLaws, DoubleX, LineEval, Mixed, Pow2;
    var c := Mixed(ops, a, b, alpha);
    if m == 0 {
      MixedConstants(ops, a, b, alpha, x);
    } else {
      var h, y := Pow2(m - 1), DoubleX(x);
      Pow2Next(m - 1);
      MixedEvaluates(ops, m - 1, a[..h], b[..h], alpha, y);
      MixedEvaluates(ops, m - 1, a[h..], b[h..], alpha, y);
      MixedSlices(ops, a, b, alpha, h);
      LineEvalStep(ops, m, a, x);
      LineEvalStep(ops, m, b, x);
      LineEvalStep(ops, m, c, x);
      MixedParts(ops, LineEval(ops, m - 1, a[..h], y), LineEval(ops, m - 1, a[h..], y),
                 LineEval(ops, m - 1, b[..h], y), LineEval(ops, m - 1, b[h..], y), x, alpha);
    }
  }

  /** Layer k of the domain of size 2^d holds the values of a polynomial with 2^m
      coefficients. */
  ghost predicate IsEvaluation<F>(ops: Ops<F>, d: nat, k: nat, m: nat, coeffs: seq<F>, values: seq<F>) {
    && k <= d <= 30 && |coeffs| == Pow2(m) && |values| == Pow2(d - k)
    && forall j | 0 <= j < |values| :: values[j] == LineEval(ops, m, coeffs, Chebyshev(Coset(d, j).x, k))
  }

  function FoldedCoeffs<F>(ops: Ops<F>, m: nat, coeffs: seq<F>, alpha: F): (r: seq<F>)
    requires |coeffs| == Pow2(m + 1)
    ensures |r| == Pow2(m)
  {
    Mixed(ops, coeffs[..Pow2(m)], coeffs[Pow2(m)..], alpha)
  }

  lemma OppositeDouble(x: Felt)
    requires x != 0
    ensures DoubleX(M31_P - x) == DoubleX(x)
  {
    hide DoubleX;
    DoubleXMod(x);
    DoubleXMod(M31_P - x);
    SquareOfOpposite(x, M31_P - x);
  }

  lemma SquareOfOpposite(x: int, y: int)
    requires x + y == M31_P
    ensures (y * y + y * y - 1) % M31_P == (x * x + x * x - 1) % M31_P
  {
    Difference(x, y);
    CongruentBy(y * y + y * y - 1, x * x + x * x - 1, 2 * (y - x));
  }

  lemma Difference(x: int, y: int)
    ensures y * y - x * x == (x + y) * (y - x)
  {
  }

  lemma CongruentBy(a: int, b: int, k: int)
    requires a == b + M31_P * k
    ensures a % M31_P == b % M31_P
  {
  }

  /** One fold halves the coefficients: of those of the even and the odd part it makes
      2 (even + alpha odd). */
  lemma FoldHalvesCoefficients<F(!new)>(ops: Ops<F>, d: nat, k: nat, m: nat, prev: seq<F>, next: seq<F>, alpha: F, coeffs: seq<F>)
    requires FoldLaws(ops) && k + 2 <= d && IsFoldOf(ops, d, k, prev, next, alpha)
    requires IsEvaluation(ops, d, k, m + 1, coeffs, prev)
    ensures IsEvaluation(ops, d, k + 1, m, FoldedCoeffs(ops, m, coeffs, alpha), next)
  {
    hide FoldLaws, LineFold, Chebyshev, Coset, Pow2, LineEval, IsFoldOf;
    Pow2Next(d - k - 1);
    FoldSizes(ops, d, k, prev, next, alpha);
    forall j | 0 <= j < |next|
      ensures next[j] == LineEval(ops, m, FoldedCoeffs(ops, m, coeffs, alpha), Chebyshev(Coset(d, j).x, k + 1))
    {
      FoldOfEvaluation(ops, d, k, m, prev, next, alpha, coeffs, j);
    }
  }

  lemma FoldSizes<F>(ops: Ops<F>, d: nat, k: nat, prev: seq<F>, next: seq<F>, alpha: F)
    requires IsFoldOf(ops, d, k, prev, next, alpha)
    ensures k < d <= 30 && |prev| == 2 * |next|
  {
  }

  lemma FoldOfEvaluation<F(!new)>(ops: Ops<F>, d: nat, k: nat, m: nat, prev: seq<F>, next: seq<F>, alpha: F, coeffs: seq<F>, j: nat)
    requires FoldLaws(ops) && k + 2 <= d && IsFoldOf(ops, d, k, prev, next, alpha)
    requires IsEvaluation(ops, d, k, m + 1, coeffs, prev) && |next| == Pow2(d - k - 1) && j < |next|
    ensures next[j] == LineEval(ops, m, FoldedCoeffs(ops, m, coeffs, alpha), Chebyshev(Coset(d, j).x, k + 1))
  {
    hide FoldLaws, LineFold, LineEval, Chebyshev, Coset, Pow2, DoubleX;
    Pow2Next(m);
    var x, h := Chebyshev(Coset(d, j).x, k), Pow2(m);
    var a, b := coeffs[..h], coeffs[h..];
    LineEvalStep(ops, m + 1, coeffs, x);
    LineEvalStep(ops, m + 1, coeffs, if x == 0 then 0 else M31_P - x);
    Pow2Monotone(d - k - 1, d);
    FoldPairsAreOpposite(d, k, j);
    TwiddleIsNonzero(d, k, j);
    NextTwiddle(Coset(d, j).x, k);
    var y := DoubleX(x);
    var e, o := LineEval(ops, m, a, y), LineEval(ops, m, b, y);
    OppositeDouble(x);
    OppositeScale(ops, e, o, x);
    LineFoldLaw(ops, d, k, j, e, o, alpha);
    MixedEvaluates(ops, m, a, b, alpha, y);
  }

  lemma NextTwiddle(x: Felt, k: nat)
    ensures Chebyshev(x, k + 1) == DoubleX(Chebyshev(x, k))
  {
  }

  lemma OppositeScale<F(!new)>(ops: Ops<F>, e: F, o: F, x: Felt)
    requires FoldLaws(ops) && x != 0
    ensures ops.add(e, ops.scale(o, M31_P - x)) == ops.sub(e, ops.scale(o, x))
  {
  }

  function CoeffsAfter<F>(ops: Ops<F>, m: nat, coeffs: seq<F>, alphas: seq<F>): (r: seq<F>)
    requires |coeffs| == Pow2(m) && |alphas| <= m
    ensures |r| == Pow2(m - |alphas|)
  {
    if alphas == [] then coeffs
    else
      var n := |alphas| - 1;
      FoldedCoeffs(ops, m - n - 1, CoeffsAfter(ops, m, coeffs, alphas[..n]), alphas[n])
  }

  lemma {:induction false} LayersHalve<F(!new), C>(be: Backend<F, C>, ops: Ops<F>, d: nat, folds: nat, alphas: seq<F>,
                                                  values: seq<seq<F>>, levels: seq<Levels>, roots: seq<Node>, m: nat, coeffs: seq<F>, n: nat)
    requires FoldLaws(ops) && IsLayers(be, ops, d, folds, alphas, values, levels, roots)
    requires IsEvaluation(ops, d, 0, m, coeffs, values[0]) && n <= folds && n <= m
    ensures IsEvaluation(ops, d, n, m - n, CoeffsAfter(ops, m, coeffs, alphas[..n]), values[n])
    decreases n
  {
    hide FoldLaws, IsFoldOf, Committed, IsEvaluation, FoldedCoeffs, Pow2;
    assert alphas[..0] == [];
    if n > 0 {
      EvaluationSizes(ops, d, 0, m, coeffs, values[0]);
      LayersHalve(be, ops, d, folds, alphas, values, levels, roots, m, coeffs, n - 1);
      assert IsFoldOf(ops, d, n - 1, values[n - 1], values[n], alphas[n - 1]);
      assert alphas[..n][..n - 1] == alphas[..n - 1];
      FoldHalvesCoefficients(ops, d, n - 1, m - n, values[n - 1], values[n], alphas[n - 1],
                             CoeffsAfter(ops, m, coeffs, alphas[..n - 1]));
    } else {
      EvaluationSizes(ops, d, 0, m, coeffs, values[0]);
    }
  }

  lemma EvaluationSizes<F>(ops: Ops<F>, d: nat, k: nat, m: nat, coeffs: seq<F>, values: seq<F>)
    requires IsEvaluation(ops, d, k, m, coeffs, values)
    ensures |coeffs| == Pow2(m)
  {
  }

  /** All folds.  If the first layer holds the values of a polynomial with 2^m
      coefficients, the last holds those of one with 2^(m - folds); with m = folds it is
      constant. */
  lemma FoldsHalveCoefficients<F(!new), C>(be: Backend<F, C>, ops: Ops<F>, d: nat, folds: nat, alphas: seq<F>,
                                           values: seq<seq<F>>, levels: seq<Levels>, roots: seq<Node>, m: nat, coeffs: seq<F>)
    requires FoldLaws(ops) && IsLayers(be, ops, d, folds, alphas, values, levels, roots)
    requires IsEvaluation(ops, d, 0, m, coeffs, values[0]) && folds <= m
    ensures |coeffs| == Pow2(m) && |alphas| == folds
    ensures IsEvaluation(ops, d, folds, m - folds, CoeffsAfter(ops, m, coeffs, alphas), values[folds])
    ensures m == folds ==> forall j | 0 <= j < |values[folds]| :: values[folds][j] == CoeffsAfter(ops, m, coeffs, alphas)[0]
  {
    hide FoldLaws, IsFoldOf, Committed, CoeffsAfter, Chebyshev, Coset;
    LayersHalve(be, ops, d, folds, alphas, values, levels, roots, m, coeffs, folds);
    assert alphas[..folds] == alphas;
  }

  // ------------------------------------------------------------ combinations

  ghost predicate ProductsCommutative<F(!new)>(ops: Ops<F>) {
    forall a: F, b: F :: ops.mul(a, b) == ops.mul(b, a)
  }

  ghost predicate ProductsAssociative<F(!new)>(ops: Ops<F>) {
    forall a: F, b: F, c: F :: ops.mul(ops.mul(a, b), c) == ops.mul(a, ops.mul(b, c))
  }

  ghost predicate HasOneAndZero<F(!new)>(ops: Ops<F>) {
    && (forall a: F :: ops.mul(ops.one, a) == a)
    && (forall a: F :: ops.mul(a, ops.zero) == ops.zero)
  }

  ghost predicate ProductLaws<F(!new)>(ops: Ops<F>) {
    ProductsCommutative(ops) && ProductsAssociative(ops) && HasOneAndZero(ops)
  }

  /** Horner's rule: the combination is the value at alpha of the polynomial whose
      coefficients are the evaluations, the first one constant. */
  lemma {:induction false} CombinedIsHorner<F(!new)>(ops: Ops<F>, evals: seq<F>, alpha: F, n: nat)
    requires AddLaws(ops) && Distributes(ops) && ProductLaws(ops) && 1 <= n <= |evals|
    ensures Fri.Combined(ops, evals, alpha, n) == ops.add(evals[0], ops.mul(alpha, Fri.Combined(ops, evals[1..], alpha, n - 1)))
    decreases n
  {
    hide AddLaws;
    if n == 1 {
      OnlyOne(ops, evals, alpha);
    } else {
      CombinedIsHorner(ops, evals, alpha, n - 1);
      var inner := Fri.Combined(ops, evals[1..], alpha, n - 2);
      var term := ops.mul(PowerOf(ops, alpha, n - 2), evals[n - 1]);
      assert evals[1..][n - 2] == evals[n - 1];
      PowerTerm(ops, alpha, n - 1, evals[n - 1]);
      AddsLast(ops, evals[0], ops.mul(alpha, inner), ops.mul(alpha, term));
    }
  }

  lemma OnlyOne<F(!new)>(ops: Ops<F>, evals: seq<F>, alpha: F)
    requires AddLaws(ops) && ProductLaws(ops) && evals != []
    ensures Fri.Combined(ops, evals, alpha, 1) == ops.add(evals[0], ops.mul(alpha, Fri.Combined(ops, evals[1..], alpha, 0)))
  {
    assert Fri.Combined(ops, evals, alpha, 1) == ops.add(ops.zero, ops.mul(ops.one, evals[0]));
  }

  lemma PowerTerm<F(!new)>(ops: Ops<F>, alpha: F, n: nat, v: F)
    requires ProductLaws(ops) && n >= 1
    ensures ops.mul(PowerOf(ops, alpha, n), v) == ops.mul(alpha, ops.mul(PowerOf(ops, alpha, n - 1), v))
  {
    var p := PowerOf(ops, alpha, n - 1);
    assert ops.mul(ops.mul(p, alpha), v) == ops.mul(ops.mul(alpha, p), v) == ops.mul(alpha, ops.mul(p, v));
  }

  lemma AddsLast<F(!new)>(ops: Ops<F>, a: F, b: F, c: F)
    requires AddLaws(ops)
    ensures ops.add(ops.add(a, b), c) == ops.add(a, ops.add(b, c))
  {
  }

  /** Row i in the extension field. */
  function Lifted<F>(ops: Ops<F>, cols: seq<seq<nat>>, i: nat): (row: seq<F>)
    requires forall j | 0 <= j < |cols| :: i < |cols[j]|
    ensures |row| == |cols|
  {
    seq(|cols|, j requires 0 <= j < |cols| => ops.fromM31(cols[j][i]))
  }

  /** A composition value is the same combination of its row. */
  lemma {:induction false} ComposedIsCombined<F(!new)>(ops: Ops<F>, cols: seq<seq<nat>>, alpha: F, i: nat, n: nat)
    requires forall a: F, x: nat :: ops.mulM31(a, x) == ops.mul(a, ops.fromM31(x))
    requires n <= |cols| && forall j | 0 <= j < |cols| :: i < |cols[j]|
    ensures Composed(ops, cols, alpha, i, n) == Fri.Combined(ops, Lifted(ops, cols, i), alpha, n)
    decreases n
  {
    if n > 0 {
      assert Lifted(ops, cols, i)[n - 1] == ops.fromM31(cols[n - 1][i]);
      ComposedIsCombined(ops, cols, alpha, i, n - 1);
    }
  }

  /** A point is degenerate iff the challenge is its abscissa or the negation of it. */
  lemma DegenerateIff<F(!new)>(ops: Ops<F>, d: nat, q: nat, zx: F)
    requires AddLaws(ops) && d <= 30
    ensures Degenerate(ops, d, q, zx) <==>
            zx == ops.fromM31(Coset(d, q).x) || zx == ops.neg(ops.fromM31(Coset(d, q).x))
  {
    hide Coset, AddLaws;
    var px := ops.fromM31(Coset(d, q).x);
    ZeroDifference(ops, px, zx);
    ZeroDifference(ops, ops.neg(px), zx);
  }

  lemma ZeroDifference<F(!new)>(ops: Ops<F>, a: F, b: F)
    requires AddLaws(ops)
    ensures ops.sub(a, b) == ops.zero <==> a == b
  {
    if ops.sub(a, b) == ops.zero {
      NegUnique(ops, a, ops.neg(b));
      NegTwice(ops, a);
      NegTwice(ops, b);
    }
  }
}
