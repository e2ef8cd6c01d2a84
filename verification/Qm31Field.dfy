/**
 * The contract's extension field is a field (contracts/src/verifier/QM31.sol over CM31.sol
 * and M31.sol): on reduced elements its operations obey the laws the folds rest on, and
 * its inverse inverts.
 */
module Qm31Field {
  import opened Prelude
  import opened NumberTheory
  import opened Mersenne31
  import opened M31
  import opened CircleDomain
  import opened Qm31
  import opened Fri
  import opened FriFold

  // ------------------------------------------------ the ring over the integers

  function Plus(a: Gauss, b: Gauss): Gauss {
    Gauss(a.re + b.re, a.im + b.im)
  }

  function Opposite(a: Gauss): Gauss {
    Gauss(-a.re, -a.im)
  }

  lemma TimesCommutes(a: Gauss, b: Gauss)
    ensures Times2(a, b) == Times2(b, a)
  {
  }

  lemma TimesDistributes(a: Gauss, b: Gauss, c: Gauss)
    ensures Times2(a, Plus(b, c)) == Plus(Times2(a, b), Times2(a, c))
  {
    Distribute(a.re, b.re, c.re);
    Distribute(a.im, b.im, c.im);
    Distribute(a.re, b.im, c.im);
    Distribute(a.im, b.re, c.re);
  }

  lemma PlusRespects(a: Gauss, b: Gauss, c: Gauss, d: Gauss)
    requires SameMod(a, b) && SameMod(c, d)
    ensures SameMod(Plus(a, c), Plus(b, d))
  {
    CongruentAdd(a.re, b.re, c.re, d.re, M31_P);
    CongruentAdd(a.im, b.im, c.im, d.im, M31_P);
  }

  /** c0 + c1 * u with u^2 = 2 + i. */
  datatype Quartic = Quartic(c0: Gauss, c1: Gauss)

  const ROOT: Gauss := Gauss(2, 1)

  function QAdd(x: Quartic, y: Quartic): Quartic {
    Quartic(Plus(x.c0, y.c0), Plus(x.c1, y.c1))
  }

  function QMul(x: Quartic, y: Quartic): Quartic {
    Quartic(Plus(Times2(x.c0, y.c0), Times2(ROOT, Times2(x.c1, y.c1))),
            Plus(Times2(x.c0, y.c1), Times2(x.c1, y.c0)))
  }

  ghost predicate Same(x: Quartic, y: Quartic) {
    SameMod(x.c0, y.c0) && SameMod(x.c1, y.c1)
  }

  lemma QMulCommutes(x: Quartic, y: Quartic)
    ensures QMul(x, y) == QMul(y, x)
  {
    hide Times2;
    TimesCommutes(x.c0, y.c0);
    TimesCommutes(x.c1, y.c1);
    TimesCommutes(x.c0, y.c1);
    TimesCommutes(x.c1, y.c0);
  }

  lemma QMulDistributes(x: Quartic, y: Quartic, z: Quartic)
    ensures QMul(x, QAdd(y, z)) == QAdd(QMul(x, y), QMul(x, z))
  {
    hide Times2;
    TimesDistributes(x.c0, y.c0, z.c0);
    TimesDistributes(x.c1, y.c1, z.c1);
    TimesDistributes(ROOT, Times2(x.c1, y.c1), Times2(x.c1, z.c1));
    TimesDistributes(x.c0, y.c1, z.c1);
    TimesDistributes(x.c1, y.c0, z.c0);
  }

  /** (a b) c for the products of which QMul is made. */
  lemma QMulAssociates(x: Quartic, y: Quartic, z: Quartic)
    ensures QMul(QMul(x, y), z) == QMul(x, QMul(y, z))
  {
    hide Times2;
    var a, b, c, d, e, f := x.c0, x.c1, y.c0, y.c1, z.c0, z.c1;
    LeftExpanded(a, b, c, d, e);
    LeftExpanded(a, b, c, d, f);
    RightExpanded(a, c, d, e, f);
    RightExpanded(b, c, d, e, f);
    var rbd := Times2(ROOT, Times2(b, d));
    // first parts
    ProductAssociates(a, c, e);
    RootMoves(b, d, e);
    RootMoves(a, d, f);
    ProductAssociates(b, c, f);
    TimesDistributes(ROOT, Times2(Times2(a, d), f), Times2(Times2(b, c), f));
    TimesDistributes(ROOT, Times2(b, Times2(c, f)), Times2(b, Times2(d, e)));
    ProductAssociates(b, d, e);
    ProductAssociates(a, d, f);
    // second parts
    ProductAssociates(a, c, f);
    RootMoves(b, d, f);
    ProductAssociates(a, d, e);
    ProductAssociates(b, c, e);
    ProductAssociates(b, d, f);
    RootInside(b, Times2(d, f));
    RootInside(a, Times2(d, f));
  }

  /** (a c + r b d) e and (a d + b c) e. */
  lemma LeftExpanded(a: Gauss, b: Gauss, c: Gauss, d: Gauss, e: Gauss)
    ensures Times2(Plus(Times2(a, c), Times2(ROOT, Times2(b, d))), e)
         == Plus(Times2(Times2(a, c), e), Times2(Times2(ROOT, Times2(b, d)), e))
    ensures Times2(Plus(Times2(a, d), Times2(b, c)), e) == Plus(Times2(Times2(a, d), e), Times2(Times2(b, c), e))
  {
    hide Times2;
    FromRight(Times2(a, c), Times2(ROOT, Times2(b, d)), e);
    FromRight(Times2(a, d), Times2(b, c), e);
  }

  lemma FromRight(a: Gauss, b: Gauss, e: Gauss)
    ensures Times2(Plus(a, b), e) == Plus(Times2(a, e), Times2(b, e))
  {
    hide Times2;
    TimesCommutes(Plus(a, b), e);
    TimesCommutes(a, e);
    TimesCommutes(b, e);
    TimesDistributes(e, a, b);
  }

  /** a (c e + r d f) and a (c f + d e). */
  lemma RightExpanded(a: Gauss, c: Gauss, d: Gauss, e: Gauss, f: Gauss)
    ensures Times2(a, Plus(Times2(c, e), Times2(ROOT, Times2(d, f))))
         == Plus(Times2(a, Times2(c, e)), Times2(a, Times2(ROOT, Times2(d, f))))
    ensures Times2(a, Plus(Times2(c, f), Times2(d, e))) == Plus(Times2(a, Times2(c, f)), Times2(a, Times2(d, e)))
  {
    hide Times2;
    TimesDistributes(a, Times2(c, e), Times2(ROOT, Times2(d, f)));
    TimesDistributes(a, Times2(c, f), Times2(d, e));
  }

  lemma RootMoves(b: Gauss, d: Gauss, e: Gauss)
    ensures Times2(Times2(ROOT, Times2(b, d)), e) == Times2(ROOT, Times2(Times2(b, d), e))
  {
    ProductAssociates(ROOT, Times2(b, d), e);
  }

  lemma RootInside(a: Gauss, b: Gauss)
    ensures Times2(a, Times2(ROOT, b)) == Times2(ROOT, Times2(a, b))
  {
    hide Times2;
    ProductAssociates(a, ROOT, b);
    TimesCommutes(a, ROOT);
    ProductAssociates(ROOT, a, b);
  }

  lemma QAddRespects(x: Quartic, y: Quartic, z: Quartic, w: Quartic)
    requires Same(x, y) && Same(z, w)
    ensures Same(QAdd(x, z), QAdd(y, w))
  {
    hide SameMod;
    PlusRespects(x.c0, y.c0, z.c0, w.c0);
    PlusRespects(x.c1, y.c1, z.c1, w.c1);
  }

  lemma QMulRespects(x: Quartic, y: Quartic, z: Quartic, w: Quartic)
    requires Same(x, y) && Same(z, w)
    ensures Same(QMul(x, z), QMul(y, w))
  {
    hide SameMod, Times2;
    ProductRespects(x.c0, y.c0, z.c0, w.c0);
    ProductRespects(x.c1, y.c1, z.c1, w.c1);
    RootRespects(Times2(x.c1, z.c1), Times2(y.c1, w.c1));
    PlusRespects(Times2(x.c0, z.c0), Times2(y.c0, w.c0), Times2(ROOT, Times2(x.c1, z.c1)), Times2(ROOT, Times2(y.c1, w.c1)));
    ProductRespects(x.c0, y.c0, z.c1, w.c1);
    ProductRespects(x.c1, y.c1, z.c0, w.c0);
    PlusRespects(Times2(x.c0, z.c1), Times2(y.c0, w.c1), Times2(x.c1, z.c0), Times2(y.c1, w.c0));
  }

  lemma RootRespects(a: Gauss, b: Gauss)
    requires SameMod(a, b)
    ensures SameMod(Times2(ROOT, a), Times2(ROOT, b))
  {
    hide Times2;
    assert SameMod(ROOT, ROOT);
    ProductRespects(ROOT, ROOT, a, b);
  }

  // ------------------------------------------------ the contract's operations

  function ComplexOf(x: Complex): Gauss {
    Gauss(x.re, x.im)
  }

  function QuarticOf(v: Element): Quartic {
    Quartic(ComplexOf(v.c0), ComplexOf(v.c1))
  }

  lemma ComplexSumSame(x: Complex, y: Complex)
    requires ComplexReduced(x) && ComplexReduced(y)
    ensures SameMod(ComplexOf(ComplexSum(x, y)), Plus(ComplexOf(x), ComplexOf(y)))
  {
    hide Pack;
    SumOfIsSum(x.re, y.re);
    SumOfIsSum(x.im, y.im);
    PackReduced(SumOf(x.re, y.re), SumOf(x.im, y.im));
    CongruentMod(x.re + y.re, M31_P);
    CongruentMod(x.im + y.im, M31_P);
  }

  lemma SumOfIsSum(a: Felt, b: Felt)
    ensures SumOf(a, b) == (a + b) % M31_P < M31_P
  {
  }

  lemma DifferenceOfIsDifference(a: Felt, b: Felt)
    ensures DifferenceOf(a, b) == (a - b) % M31_P
  {
  }

  lemma ComplexProductSame(x: Complex, y: Complex)
    ensures SameMod(ComplexOf(ComplexProduct(x, y)), Times2(ComplexOf(x), ComplexOf(y)))
  {
    hide Pack, DifferenceOf, SumOf;
    ProductParts(x.re * y.re, x.im * y.im, x.re * y.im, x.im * y.re);
    PackReduced(DifferenceOf((x.re * y.re) % M31_P, (x.im * y.im) % M31_P), SumOf((x.re * y.im) % M31_P, (x.im * y.re) % M31_P));
    assert x.im * y.re == y.re * x.im;
  }

  lemma ProductParts(a: nat, b: nat, c: nat, d: nat)
    ensures Congruent(DifferenceOf(a % M31_P, b % M31_P), a - b, M31_P)
    ensures SumOf(c % M31_P, d % M31_P) < M31_P && Congruent(SumOf(c % M31_P, d % M31_P), c + d, M31_P)
  {
    hide DifferenceOf, SumOf, Add, Sub;
    DifferenceOfIsDifference(a % M31_P, b % M31_P);
    SumOfIsSum(c % M31_P, d % M31_P);
    DifferenceMod(a, b);
    SumMod(c, d);
    SubIsDifference(a % M31_P, b % M31_P);
    AddIsSum(c % M31_P, d % M31_P);
    CongruentMod(a - b, M31_P);
    CongruentMod(c + d, M31_P);
  }

  lemma SumSame(x: Element, y: Element)
    requires IsReduced(x) && IsReduced(y)
    ensures Same(QuarticOf(Sum(x, y)), QAdd(QuarticOf(x), QuarticOf(y)))
  {
    hide IsReduced, ComplexReduced, ComplexSum, SameMod;
    ReducedParts(x);
    ReducedParts(y);
    ComplexSumSame(x.c0, y.c0);
    ComplexSumSame(x.c1, y.c1);
  }

  /** The contract's product is the product modulo p, limb by limb, of any four-word
      values: (a + b u) (c + d u) with u^2 = 2 + i and i^2 = -1. */
  lemma ProductSame(x: Element, y: Element)
    ensures Same(QuarticOf(Product(x, y)), QMul(QuarticOf(x), QuarticOf(y)))
  {
    hide ComplexProduct, ComplexSum, ComplexReduced, SameMod, Times2;
    var a, b, c, d := x.c0, x.c1, y.c0, y.c1;
    PairSame(a, c, b, d);
    PairSame2(a, d, b, c);
  }

  lemma PairSame(a: Complex, c: Complex, b: Complex, d: Complex)
    ensures SameMod(ComplexOf(ComplexSum(ComplexProduct(a, c), ComplexProduct(R, ComplexProduct(b, d)))),
                    Plus(Times2(ComplexOf(a), ComplexOf(c)), Times2(ROOT, Times2(ComplexOf(b), ComplexOf(d)))))
  {
    hide ComplexProduct, ComplexSum, ComplexReduced, Times2, Plus;
    ComplexProductReduced(a, c);
    ComplexProductReduced(R, ComplexProduct(b, d));
    ComplexProductSame(a, c);
    ComplexProductSame(b, d);
    ComplexProductSame(R, ComplexProduct(b, d));
    assert ComplexOf(R) == ROOT;
    RootRespects(ComplexOf(ComplexProduct(b, d)), Times2(ComplexOf(b), ComplexOf(d)));
    ComplexSumSame(ComplexProduct(a, c), ComplexProduct(R, ComplexProduct(b, d)));
    PlusRespects(ComplexOf(ComplexProduct(a, c)), Times2(ComplexOf(a), ComplexOf(c)),
                 ComplexOf(ComplexProduct(R, ComplexProduct(b, d))), Times2(ROOT, Times2(ComplexOf(b), ComplexOf(d))));
  }

  lemma PairSame2(a: Complex, d: Complex, b: Complex, c: Complex)
    ensures SameMod(ComplexOf(ComplexSum(ComplexProduct(a, d), ComplexProduct(b, c))),
                    Plus(Times2(ComplexOf(a), ComplexOf(d)), Times2(ComplexOf(b), ComplexOf(c))))
  {
    hide ComplexProduct, ComplexSum, ComplexReduced, Times2, Plus;
    ComplexProductReduced(a, d);
    ComplexProductReduced(b, c);
    ComplexProductSame(a, d);
    ComplexProductSame(b, c);
    ComplexSumSame(ComplexProduct(a, d), ComplexProduct(b, c));
    PlusRespects(ComplexOf(ComplexProduct(a, d)), Times2(ComplexOf(a), ComplexOf(d)),
                 ComplexOf(ComplexProduct(b, c)), Times2(ComplexOf(b), ComplexOf(c)));
  }

  // ------------------------------------------------ squares modulo p

  const HALF: nat := 1073741823

  /** The square of a unit has the power (p - 1) / 2 one. */
  lemma SquareHasPowerOne(t: int, s: int)
    requires t % M31_P != 0 && Congruent(t * t, s, M31_P)
    ensures Congruent(Pow(s, HALF), 1, M31_P)
  {
    hide Pow;
    M31IsPrime();
    var r: Felt := t % M31_P;
    CongruentMod(t, M31_P);
    CongruentMul(r, t, r, t, M31_P);
    FermatUnit(r, M31_P);
    PowMuls(r, 2, HALF);
    PowOfTwo(r);
    CongruentPow(r * r, s, HALF, M31_P);
    CongruentTrans(Pow(s, HALF), Pow(r * r, HALF), 1, M31_P);
  }

  lemma PowOfTwo(t: int)
    ensures Pow(t, 2) == t * t
  {
    assert Pow(t, 1) == t * Pow(t, 0) == t;
  }

  lemma {:induction false} MinusOneToOdd(k: nat)
    ensures Pow(-1, 2 * k + 1) == -1
  {
    if k > 0 {
      MinusOneToOdd(k - 1);
      assert Pow(-1, 2 * k + 1) == -1 * (-1 * Pow(-1, 2 * (k - 1) + 1));
    }
  }

  /** A unit divides: b * (a / b) is a. */
  lemma Divided(a: int, b: int) returns (t: int)
    requires b % M31_P != 0
    ensures Congruent(b * t, a, M31_P)
  {
    var r: Felt := b % M31_P;
    InverseByPower(r, M31_P - 2, InverseOf(r));
    t := InverseOf(r) * a;
    CongruentMod(b, M31_P);
    CongruentMul(b, r, InverseOf(r), InverseOf(r), M31_P);
    CongruentMul(b * InverseOf(r), 1, a, a, M31_P);
    assert (b * InverseOf(r)) * a == b * t;
  }

  /** If n = s * m holds of squares x^2 = s * y^2 with a unit y, s is a square. */
  lemma RatioOfSquares(x: int, y: int, s: int)
    requires y % M31_P != 0 && s % M31_P != 0 && Congruent(x * x, s * (y * y), M31_P)
    ensures Congruent(Pow(s, HALF), 1, M31_P)
  {
    hide Pow;
    var t := Divided(x, y);
    M31IsPrime();
    CongruentMul(y * t, x, y * t, x, M31_P);
    assert (y * t) * (y * t) == (y * y) * (t * t);
    assert s * (y * y) == (y * y) * s;
    UnitSquare(y);
    UnitCancels(y * y, t * t, s);
    if t % M31_P == 0 {
      CongruentMul(t, 0, t, 0, M31_P);
    }
    SquareHasPowerOne(t, s);
  }

  lemma UnitSquare(y: int)
    requires y % M31_P != 0
    ensures (y * y) % M31_P != 0
  {
    M31IsPrime();
    if (y * y) % M31_P == 0 {
      EuclidsLemma(y, y, M31_P);
    }
  }

  lemma UnitCancels(u: int, a: int, b: int)
    requires u % M31_P != 0 && Congruent(u * a, u * b, M31_P)
    ensures Congruent(a, b, M31_P)
  {
    M31IsPrime();
    var k := MultipleOfCongruent(u * a, u * b, M31_P);
    assert u * (a - b) == M31_P * k;
    CongruentByMultiple(u * (a - b), 0, M31_P, k);
    EuclidsLemma(u, a - b, M31_P);
    var l := MultipleOfCongruent(a - b, 0, M31_P);
    CongruentByMultiple(a, b, M31_P, l);
  }

  // ------------------------------------------------ -1 and 5 are no squares

  lemma MinusOneIsNoSquare()
    ensures !Congruent(Pow(-1, HALF), 1, M31_P)
  {
    hide Pow;
    MinusOneToOdd(536870911);
  }

  /** 5^(2^k - 1) modulo p. */
  function Fives(k: nat): nat {
    if k == 0 then 1 else Fives(k - 1) * Fives(k - 1) * 5 % M31_P
  }

  lemma FiveStep(k: nat, a: nat, b: nat)
    requires Fives(k) == a && a * a * 5 % M31_P == b
    ensures Fives(k + 1) == b
  {
  }

  lemma TenFives()
    ensures Fives(10) == 1974757579
  {
    assert Fives(0) == 1;
    hide Fives;
    FiveStep(0, 1, 5); FiveStep(1, 5, 125); FiveStep(2, 125, 78125); FiveStep(3, 78125, 452807067);
    FiveStep(4, 452807067, 1612389065); FiveStep(5, 1612389065, 1993121453); FiveStep(6, 1993121453, 1906753248); FiveStep(7, 1906753248, 883203886);
    FiveStep(8, 883203886, 164873883); FiveStep(9, 164873883, 1974757579);
  }

  lemma TwentyFives()
    ensures Fives(20) == 2075257523
  {
    TenFives();
    hide Fives;
    FiveStep(10, 1974757579, 218356260); FiveStep(11, 218356260, 3969905); FiveStep(12, 3969905, 963602107); FiveStep(13, 963602107, 466467133);
    FiveStep(14, 466467133, 1826259615); FiveStep(15, 1826259615, 907301121); FiveStep(16, 907301121, 1462628321); FiveStep(17, 1462628321, 1547829154);
    FiveStep(18, 1547829154, 170112025); FiveStep(19, 170112025, 2075257523);
  }

  lemma ThirtyFives()
    ensures Fives(30) == M31_P - 1
  {
    TwentyFives();
    hide Fives;
    FiveStep(20, 2075257523, 1294278049); FiveStep(21, 1294278049, 240179283); FiveStep(22, 240179283, 22954615); FiveStep(23, 22954615, 156145879);
    FiveStep(24, 156145879, 280382363); FiveStep(25, 280382363, 1552015322); FiveStep(26, 1552015322, 293578759); FiveStep(27, 293578759, 1813903535);
    FiveStep(28, 1813903535, 2126293891); FiveStep(29, 2126293891, M31_P - 1);
  }

  lemma {:induction false} FivesArePowers(k: nat)
    ensures Congruent(Pow(5, Pow2(k) - 1), Fives(k), M31_P)
  {
    hide Pow, Fives;
    if k == 0 {
      NoFives();
    } else {
      var n, c := Pow2(k - 1) - 1, Fives(k - 1);
      FivesArePowers(k - 1);
      PowAdds(5, n, n);
      PowAdds(5, n + n, 1);
      PowFirst(5);
      CongruentMul(Pow(5, n), c, Pow(5, n), c, M31_P);
      CongruentMul(Pow(5, n) * Pow(5, n), c * c, 5, 5, M31_P);
      CongruentMod(c * c * 5, M31_P);
      NextFives(k);
    }
  }

  lemma NoFives()
    ensures Pow(5, 0) == 1 && Fives(0) == 1
  {
  }

  lemma NextFives(k: nat)
    requires k > 0
    ensures Fives(k) == Fives(k - 1) * Fives(k - 1) * 5 % M31_P
  {
  }

  lemma FiveIsNoSquare()
    ensures !Congruent(Pow(5, HALF), 1, M31_P)
  {
    hide Pow, Fives, Pow2;
    FivesArePowers(30);
    ThirtyFives();
    Pow2Of31();
    Pow2Next(30);
  }

  // ------------------------------------------------ norms

  function Norm(a: Gauss): int {
    a.re * a.re + a.im * a.im
  }

  /** A sum of two squares vanishes only if both do. */
  lemma NormVanishes(a: Gauss)
    requires Norm(a) % M31_P == 0
    ensures a.re % M31_P == 0 && a.im % M31_P == 0
  {
    var re, im := a.re * a.re, a.im * a.im;
    var k := MultipleOfCongruent(re + im, 0, M31_P);
    CongruentByMultiple(re, -1 * im, M31_P, k);
    CongruentByMultiple(im, -1 * re, M31_P, k);
    MinusOneIsNoSquare();
    if a.im % M31_P != 0 {
      RatioOfSquares(a.re, a.im, -1);
    }
    if a.re % M31_P != 0 {
      RatioOfSquares(a.im, a.re, -1);
    }
  }

  lemma NormMultiplies(a: Gauss, b: Gauss)
    ensures Norm(Times2(a, b)) == Norm(a) * Norm(b)
  {
    var x, y, z, w := a.re, a.im, b.re, b.im;
    SquareOfDifference(x * z, y * w);
    SquareOfSum(x * w, z * y);
    SquaresPair(x, z);
    SquaresPair(y, w);
    SquaresPair(x, w);
    SquaresPair(z, y);
    assert (x * z) * (y * w) == (x * w) * (z * y) by { Swapped(x, z, y, w); }
    SumsOfFour(x * x, y * y, z * z, w * w);
  }

  lemma SquareOfDifference(a: int, b: int)
    ensures (a - b) * (a - b) == a * a - 2 * (a * b) + b * b
  {
  }

  lemma SquareOfSum(a: int, b: int)
    ensures (a + b) * (a + b) == a * a + 2 * (a * b) + b * b
  {
  }

  lemma SquaresPair(a: int, b: int)
    ensures (a * b) * (a * b) == (a * a) * (b * b)
  {
    MulAssociates(a * b, a, b);
    MulAssociates(a * a, b, b);
    assert (a * b) * a == (a * a) * b;
  }

  lemma Swapped(x: int, z: int, y: int, w: int)
    ensures (x * z) * (y * w) == (x * w) * (z * y)
  {
    MulAssociates(x, z, y * w);
    MulAssociates(x, w, z * y);
    MulAssociates(z, y, w);
    assert w * (z * y) == (z * y) * w;
  }

  lemma SumsOfFour(a: int, b: int, c: int, d: int)
    ensures (a + b) * (c + d) == a * c + b * d + a * d + c * b
  {
    Distribute(c + d, a, b);
    Distribute(a, c, d);
    Distribute(b, c, d);
  }

  lemma NormRespects(a: Gauss, b: Gauss)
    requires SameMod(a, b)
    ensures Congruent(Norm(a), Norm(b), M31_P)
  {
    CongruentMul(a.re, b.re, a.re, b.re, M31_P);
    CongruentMul(a.im, b.im, a.im, b.im, M31_P);
    CongruentAdd(a.re * a.re, b.re * b.re, a.im * a.im, b.im * b.im, M31_P);
  }

  /** No zero divisors: 2 + i is no square, since its norm 5 is none. */
  lemma QuadraticNormVanishes(a: Gauss, b: Gauss)
    requires SameMod(Times2(a, a), Times2(ROOT, Times2(b, b)))
    ensures SameMod(a, Gauss(0, 0)) && SameMod(b, Gauss(0, 0))
  {
    hide Times2, Norm;
    NormRespects(Times2(a, a), Times2(ROOT, Times2(b, b)));
    NormMultiplies(a, a);
    NormMultiplies(b, b);
    NormMultiplies(ROOT, Times2(b, b));
    assert Norm(ROOT) == 5 by { NormOfRoot(); }
    if Norm(b) % M31_P != 0 {
      RatioOfSquares(Norm(a), Norm(b), 5);
      FiveIsNoSquare();
    } else {
      CongruentMul(Norm(b), 0, Norm(b), 0, M31_P);
      CongruentMul(5, 5, Norm(b) * Norm(b), 0, M31_P);
      if Norm(a) % M31_P != 0 {
        UnitSquare(Norm(a));
      }
      NormVanishes(a);
      NormVanishes(b);
    }
  }

  lemma NormOfRoot()
    ensures Norm(ROOT) == 5
  {
  }

  // ------------------------------------------------ reduced elements

  type FieldElement = v: Element | IsReduced(v) witness Element(Complex(0, 0), Complex(0, 0))

  /** Reduced elements that are equal modulo p are equal. */
  lemma SameIsEqual(x: FieldElement, y: FieldElement)
    requires Same(QuarticOf(x), QuarticOf(y))
    ensures x == y
  {
    hide IsReduced;
    ReducedParts(x);
    ReducedParts(y);
    SmallResidue(x.c0.re, y.c0.re);
    SmallResidue(x.c0.im, y.c0.im);
    SmallResidue(x.c1.re, y.c1.re);
    SmallResidue(x.c1.im, y.c1.im);
  }

  lemma SmallResidue(a: Felt, b: Felt)
    requires Congruent(a, b, M31_P)
    ensures a == b
  {
  }

  function Embedded(n: Felt): (v: FieldElement)
  {
    ReducedParts(Element(Complex(n, 0), Complex(0, 0)));
    Element(Complex(n, 0), Complex(0, 0))
  }

  function SumIn(x: FieldElement, y: FieldElement): FieldElement {
    SumReduced(x, y);
    Sum(x, y)
  }

  function ProductIn(x: FieldElement, y: FieldElement): FieldElement {
    ProductReduced(x, y);
    Product(x, y)
  }

  function NegatedLimb(a: Felt): Felt {
    if a == 0 then 0 else M31_P - a
  }

  function ComplexNegated(x: Complex): (r: Complex)
    requires ComplexReduced(x)
    ensures ComplexReduced(r)
  {
    Complex(NegatedLimb(x.re), NegatedLimb(x.im))
  }

  /** QM31.neg. */
  function NegatedIn(x: FieldElement): FieldElement {
    ReducedParts(x);
    var r := Element(ComplexNegated(x.c0), ComplexNegated(x.c1));
    ReducedParts(r);
    r
  }

  function ComplexDifference(x: Complex, y: Complex): (r: Complex)
    requires ComplexReduced(x) && ComplexReduced(y)
    ensures ComplexReduced(r)
  {
    Complex(DifferenceOf(x.re, y.re), DifferenceOf(x.im, y.im))
  }

  /** QM31.sub. */
  function DifferenceIn(x: FieldElement, y: FieldElement): FieldElement {
    ReducedParts(x);
    ReducedParts(y);
    var r := Element(ComplexDifference(x.c0, y.c0), ComplexDifference(x.c1, y.c1));
    ReducedParts(r);
    r
  }

  function ComplexScaled(x: Complex, n: Felt): (r: Complex)
    ensures ComplexReduced(r)
  {
    Complex((x.re * n) % M31_P, (x.im * n) % M31_P)
  }

  /** QM31.scaleM31. */
  function ScaledIn(x: FieldElement, n: Felt): FieldElement {
    var r := Element(ComplexScaled(x.c0, n), ComplexScaled(x.c1, n));
    ReducedParts(r);
    r
  }

  /** CM31.inv, where the source does not revert. */
  function ComplexInverse(x: Complex): (r: Complex)
    ensures ComplexReduced(r)
  {
    var norm := SumOf((x.re * x.re) % M31_P, (x.im * x.im) % M31_P);
    SumOfBelow((x.re * x.re) % M31_P, (x.im * x.im) % M31_P);
    var inv := InverseOf(norm);
    Complex((x.re * inv) % M31_P, (NegatedLimb(x.im % M31_P) * inv) % M31_P)
  }

  function QuadraticNorm(x: FieldElement): (r: Complex)
    ensures ComplexReduced(r)
  {
    ComplexProductReduced(x.c0, x.c0);
    ComplexProductReduced(R, ComplexProduct(x.c1, x.c1));
    ComplexDifference(ComplexProduct(x.c0, x.c0), ComplexProduct(R, ComplexProduct(x.c1, x.c1)))
  }

  /** QM31.inv, where the source does not revert. */
  function InverseIn(x: FieldElement): FieldElement {
    ReducedParts(x);
    var inv := ComplexInverse(QuadraticNorm(x));
    ComplexProductReduced(x.c0, inv);
    ComplexProductReduced(ComplexNegated(x.c1), inv);
    var r := Element(ComplexProduct(x.c0, inv), ComplexProduct(ComplexNegated(x.c1), inv));
    ReducedParts(r);
    r
  }

  const NOTHING: FieldElement := Element(Complex(0, 0), Complex(0, 0))

  /** The operations of the contract on reduced elements; how a column is evaluated off the
      domain is left open. */
  function ContractOps(evalEven: (seq<nat>, nat, FieldElement) -> FieldElement): Ops<FieldElement> {
    Ops(NOTHING, Embedded(1),
        (x: FieldElement, y: FieldElement) => SumIn(x, y),
        (x: FieldElement, y: FieldElement) => DifferenceIn(x, y),
        (x: FieldElement, y: FieldElement) => ProductIn(x, y),
        (x: FieldElement) => InverseIn(x),
        (x: FieldElement) => NegatedIn(x),
        (n: nat) => Embedded(n % M31_P),
        (x: FieldElement, n: Felt) => ScaledIn(x, n),
        (x: FieldElement, n: nat) => ScaledIn(x, n % M31_P),
        (x: FieldElement) => Limbs(x),
        evalEven)
  }

  // ------------------------------------------------ sums

  lemma SumLimbs(x: FieldElement, y: FieldElement)
    ensures var r := SumIn(x, y);
            && r.c0.re == SumOf(x.c0.re, y.c0.re) && r.c0.im == SumOf(x.c0.im, y.c0.im)
            && r.c1.re == SumOf(x.c1.re, y.c1.re) && r.c1.im == SumOf(x.c1.im, y.c1.im)
    ensures x.c0.re < M31_P && x.c0.im < M31_P && x.c1.re < M31_P && x.c1.im < M31_P
  {
    hide Pack, SumOf, IsReduced;
    ReducedParts(x);
    ReducedParts(y);
    SumOfBelow(x.c0.re, y.c0.re);
    SumOfBelow(x.c0.im, y.c0.im);
    SumOfBelow(x.c1.re, y.c1.re);
    SumOfBelow(x.c1.im, y.c1.im);
    PackReduced(SumOf(x.c0.re, y.c0.re), SumOf(x.c0.im, y.c0.im));
    PackReduced(SumOf(x.c1.re, y.c1.re), SumOf(x.c1.im, y.c1.im));
  }

  lemma LimbLaws(a: Felt, b: Felt, c: Felt)
    ensures SumOf(a, b) == SumOf(b, a) < M31_P && SumOf(a, 0) == a
    ensures SumOf(SumOf(a, b), c) == SumOf(a, SumOf(b, c))
    ensures SumOf(a, NegatedLimb(a)) == 0 && DifferenceOf(a, b) == SumOf(a, NegatedLimb(b))
  {
  }

  lemma SumsCommute(x: FieldElement, y: FieldElement)
    ensures SumIn(x, y) == SumIn(y, x) && SumIn(x, NOTHING) == x
  {
    hide SumOf, SumIn, IsReduced;
    SumLimbs(x, y);
    SumLimbs(y, x);
    SumLimbs(x, NOTHING);
    LimbLaws(x.c0.re, y.c0.re, 0);
    LimbLaws(x.c0.im, y.c0.im, 0);
    LimbLaws(x.c1.re, y.c1.re, 0);
    LimbLaws(x.c1.im, y.c1.im, 0);
  }

  lemma SumsAssociate(x: FieldElement, y: FieldElement, z: FieldElement)
    ensures SumIn(SumIn(x, y), z) == SumIn(x, SumIn(y, z))
  {
    hide SumOf, SumIn, IsReduced;
    SumLimbs(x, y);
    SumLimbs(y, z);
    SumLimbs(z, z);
    SumLimbs(SumIn(x, y), z);
    SumLimbs(x, SumIn(y, z));
    LimbLaws(x.c0.re, y.c0.re, z.c0.re);
    LimbLaws(x.c0.im, y.c0.im, z.c0.im);
    LimbLaws(x.c1.re, y.c1.re, z.c1.re);
    LimbLaws(x.c1.im, y.c1.im, z.c1.im);
  }

  lemma Differences(x: FieldElement, y: FieldElement)
    ensures DifferenceIn(x, y) == SumIn(x, NegatedIn(y)) && SumIn(x, NegatedIn(x)) == NOTHING
  {
    hide SumOf, SumIn, NegatedLimb, DifferenceOf, IsReduced;
    SumLimbs(x, NegatedIn(y));
    SumLimbs(x, NegatedIn(x));
    SumLimbs(y, y);
    LimbLaws(x.c0.re, y.c0.re, 0);
    LimbLaws(x.c0.im, y.c0.im, 0);
    LimbLaws(x.c1.re, y.c1.re, 0);
    LimbLaws(x.c1.im, y.c1.im, 0);
  }

  // ------------------------------------------------ products

  lemma SameTrans(x: Quartic, y: Quartic, z: Quartic)
    requires Same(x, y) && Same(z, y)
    ensures Same(x, z)
  {
  }

  lemma ProductsCommute(x: FieldElement, y: FieldElement)
    ensures ProductIn(x, y) == ProductIn(y, x)
  {
    hide IsReduced, Product, QMul, SameMod;
    ProductSame(x, y);
    ProductSame(y, x);
    QMulCommutes(QuarticOf(x), QuarticOf(y));
    SameTrans(QuarticOf(ProductIn(x, y)), QMul(QuarticOf(x), QuarticOf(y)), QuarticOf(ProductIn(y, x)));
    SameIsEqual(ProductIn(x, y), ProductIn(y, x));
  }

  lemma SameSelf(x: Quartic)
    ensures Same(x, x)
  {
  }

  lemma SameChain(x: Quartic, y: Quartic, z: Quartic)
    requires Same(x, y) && Same(y, z)
    ensures Same(x, z)
  {
  }

  lemma ProductsAssociate(x: FieldElement, y: FieldElement, z: FieldElement)
    ensures ProductIn(ProductIn(x, y), z) == ProductIn(x, ProductIn(y, z))
  {
    hide IsReduced, Product, QMul, Same;
    var a, b, c := QuarticOf(x), QuarticOf(y), QuarticOf(z);
    SameSelf(a);
    SameSelf(c);
    ProductSame(x, y);
    ProductSame(y, z);
    ProductSame(ProductIn(x, y), z);
    ProductSame(x, ProductIn(y, z));
    QMulRespects(QuarticOf(ProductIn(x, y)), QMul(a, b), c, c);
    QMulRespects(a, a, QuarticOf(ProductIn(y, z)), QMul(b, c));
    SameChain(QuarticOf(ProductIn(ProductIn(x, y), z)), QMul(QuarticOf(ProductIn(x, y)), c), QMul(QMul(a, b), c));
    SameChain(QuarticOf(ProductIn(x, ProductIn(y, z))), QMul(a, QuarticOf(ProductIn(y, z))), QMul(a, QMul(b, c)));
    QMulAssociates(a, b, c);
    SameTrans(QuarticOf(ProductIn(ProductIn(x, y), z)), QMul(QMul(a, b), c), QuarticOf(ProductIn(x, ProductIn(y, z))));
    SameIsEqual(ProductIn(ProductIn(x, y), z), ProductIn(x, ProductIn(y, z)));
  }

  lemma ProductsDistribute(x: FieldElement, y: FieldElement, z: FieldElement)
    ensures ProductIn(x, SumIn(y, z)) == SumIn(ProductIn(x, y), ProductIn(x, z))
  {
    hide IsReduced, Product, Sum, QMul, QAdd, Same;
    var a, b, c := QuarticOf(x), QuarticOf(y), QuarticOf(z);
    SameSelf(a);
    SumSame(y, z);
    ProductSame(x, SumIn(y, z));
    QMulRespects(a, a, QuarticOf(SumIn(y, z)), QAdd(b, c));
    SameChain(QuarticOf(ProductIn(x, SumIn(y, z))), QMul(a, QuarticOf(SumIn(y, z))), QMul(a, QAdd(b, c)));
    ProductSame(x, y);
    ProductSame(x, z);
    SumSame(ProductIn(x, y), ProductIn(x, z));
    QAddRespects(QuarticOf(ProductIn(x, y)), QMul(a, b), QuarticOf(ProductIn(x, z)), QMul(a, c));
    SameChain(QuarticOf(SumIn(ProductIn(x, y), ProductIn(x, z))), QAdd(QuarticOf(ProductIn(x, y)), QuarticOf(ProductIn(x, z))),
              QAdd(QMul(a, b), QMul(a, c)));
    QMulDistributes(a, b, c);
    SameTrans(QuarticOf(ProductIn(x, SumIn(y, z))), QMul(a, QAdd(b, c)), QuarticOf(SumIn(ProductIn(x, y), ProductIn(x, z))));
    SameIsEqual(ProductIn(x, SumIn(y, z)), SumIn(ProductIn(x, y), ProductIn(x, z)));
  }

  lemma TimesOfReal(a: Gauss, n: int)
    ensures Times2(a, Gauss(n, 0)) == Gauss(a.re * n, a.im * n) && Times2(a, Gauss(0, 0)) == Gauss(0, 0)
  {
  }

  /** Scaling is the product with an embedded element. */
  lemma ScaledIsProduct(x: FieldElement, n: Felt)
    ensures ScaledIn(x, n) == ProductIn(x, Embedded(n))
  {
    hide IsReduced, Product, Times2;
    ProductSame(x, Embedded(n));
    TimesOfReal(ComplexOf(x.c0), n);
    TimesOfReal(ComplexOf(x.c1), n);
    TimesOfReal(ROOT, 0);
    CongruentMod(x.c0.re * n, M31_P);
    CongruentMod(x.c0.im * n, M31_P);
    CongruentMod(x.c1.re * n, M31_P);
    CongruentMod(x.c1.im * n, M31_P);
    SameTrans(QuarticOf(ScaledIn(x, n)), QMul(QuarticOf(x), QuarticOf(Embedded(n))), QuarticOf(ProductIn(x, Embedded(n))));
    SameIsEqual(ScaledIn(x, n), ProductIn(x, Embedded(n)));
  }

  lemma ScaledByOne(x: FieldElement)
    ensures ScaledIn(x, 1) == x && ScaledIn(x, 0) == NOTHING
  {
    hide IsReduced;
    ReducedParts(x);
    SmallMod(x.c0.re);
    SmallMod(x.c0.im);
    SmallMod(x.c1.re);
    SmallMod(x.c1.im);
  }

  lemma SmallMod(a: Felt)
    ensures (a * 1) % M31_P == a && (a * 0) % M31_P == 0
  {
  }

  lemma EmbeddedProduct(a: Felt, b: Felt)
    ensures ProductIn(Embedded(a), Embedded(b)) == Embedded((a * b) % M31_P)
  {
    hide IsReduced, ProductIn;
    ScaledIsProduct(Embedded(a), b);
    assert (0 * b) % M31_P == 0;
  }

  lemma EmbeddedSum(a: Felt, b: Felt)
    ensures SumIn(Embedded(a), Embedded(b)) == Embedded((a + b) % M31_P)
  {
    hide IsReduced, SumIn;
    SumLimbs(Embedded(a), Embedded(b));
    SumOfIsSum(a, b);
  }

  // ------------------------------------------------ the inverse

  lemma ComplexInverseInverts(x: Complex)
    requires ComplexReduced(x) && (x.re != 0 || x.im != 0)
    ensures SameMod(Times2(ComplexOf(x), ComplexOf(ComplexInverse(x))), Gauss(1, 0))
  {
    hide InverseOf, SumOf, NegatedLimb, Times2, SameMod, ComplexInverse;
    var a: Felt, b: Felt := x.re, x.im;
    var n := UnitNorm(a, b);
    var inv := InverseOf(n);
    InverseOfUnit(n);
    InverseParts(a, b, n, inv);
    InverseLimbs(x);
    IsOne(a, b, (a * inv) % M31_P, (NegatedLimb(b) * inv) % M31_P);
  }

  lemma InverseLimbs(x: Complex)
    requires ComplexReduced(x)
    ensures var n := SumOf((x.re * x.re) % M31_P, (x.im * x.im) % M31_P);
            && n < M31_P && ComplexInverse(x).re == (x.re * InverseOf(n)) % M31_P
            && ComplexInverse(x).im == (NegatedLimb(x.im) * InverseOf(n)) % M31_P
  {
    hide InverseOf, SumOf, NegatedLimb;
    SumOfBelow((x.re * x.re) % M31_P, (x.im * x.im) % M31_P);
    assert x.im % M31_P == x.im;
  }

  lemma UnitNorm(a: Felt, b: Felt) returns (n: Felt)
    requires a != 0 || b != 0
    ensures n == SumOf((a * a) % M31_P, (b * b) % M31_P) && n != 0 && Congruent(n, a * a + b * b, M31_P)
  {
    hide SumOf;
    NormReduced(a * a, b * b);
    n := SumOf((a * a) % M31_P, (b * b) % M31_P);
    if n == 0 {
      hide Norm;
      NormOf(a, b);
      NormVanishes(Gauss(a, b));
      SmallZero(a);
      SmallZero(b);
    }
  }

  lemma NormOf(a: Felt, b: Felt)
    requires Congruent(0, a * a + b * b, M31_P)
    ensures Norm(Gauss(a, b)) % M31_P == 0
  {
  }

  lemma SmallZero(a: Felt)
    requires a % M31_P == 0
    ensures a == 0
  {
  }

  lemma IsOne(a: int, b: int, c: int, d: int)
    requires Congruent(a * c - b * d, 1, M31_P) && Congruent(a * d + c * b, 0, M31_P)
    ensures SameMod(Times2(Gauss(a, b), Gauss(c, d)), Gauss(1, 0))
  {
  }

  lemma NormReduced(a: nat, b: nat)
    ensures SumOf(a % M31_P, b % M31_P) < M31_P && Congruent(SumOf(a % M31_P, b % M31_P), a + b, M31_P)
  {
    hide SumOf;
    ProductParts(0, 0, a, b);
  }

  /** (a + b i) (a m - b m i) is (a^2 + b^2) m. */
  lemma InverseParts(a: Felt, b: Felt, n: Felt, m: Felt)
    requires Congruent(n, a * a + b * b, M31_P) && (n * m) % M31_P == 1
    ensures var c, d := (a * m) % M31_P, (NegatedLimb(b) * m) % M31_P;
            Congruent(a * c - b * d, 1, M31_P) && Congruent(a * d + c * b, 0, M31_P)
  {
    hide NegatedLimb;
    var c, d := (a * m) % M31_P, (NegatedLimb(b) * m) % M31_P;
    var y: int := -(b as int);
    NegatedCongruent(b);
    CongruentMod(a * m, M31_P);
    CongruentMod(NegatedLimb(b) * m, M31_P);
    CongruentMul(NegatedLimb(b), y, m, m, M31_P);
    CongruentTrans(d, NegatedLimb(b) * m, y * m, M31_P);
    CongruentMul(n, a * a + b * b, m, m, M31_P);
    NormTimes(a, b, m, c, d);
  }

  lemma NormTimes(a: int, b: int, m: int, c: int, d: int)
    requires Congruent(c, a * m, M31_P) && Congruent(d, -b * m, M31_P) && Congruent((a * a + b * b) * m, 1, M31_P)
    ensures Congruent(a * c - b * d, 1, M31_P) && Congruent(a * d + c * b, 0, M31_P)
  {
    CongruentMul(a, a, c, a * m, M31_P);
    CongruentMul(-b, -b, d, -b * m, M31_P);
    CongruentAdd(a * c, a * (a * m), -b * d, -b * (-b * m), M31_P);
    RealPart(a, b, m);
    CongruentMul(a, a, d, -b * m, M31_P);
    CongruentMul(b, b, c, a * m, M31_P);
    CongruentAdd(a * d, a * (-b * m), b * c, b * (a * m), M31_P);
    ImaginaryPart(a, b, m);
    assert a * c - b * d == a * c + -b * d && a * d + c * b == a * d + b * c;
  }

  lemma RealPart(a: int, b: int, m: int)
    ensures a * (a * m) + -b * (-b * m) == (a * a + b * b) * m
  {
    MulAssociates(a, a, m);
    MulAssociates(-b, -b, m);
    Distribute(m, a * a, b * b);
  }

  lemma ImaginaryPart(a: int, b: int, m: int)
    ensures a * (-b * m) + b * (a * m) == 0
  {
    MulAssociates(a, -b, m);
    MulAssociates(b, a, m);
  }

  lemma NegatedCongruent(b: Felt)
    ensures Congruent(NegatedLimb(b), -(b as int), M31_P)
  {
    if b != 0 {
      CongruentByMultiple(NegatedLimb(b), -(b as int), M31_P, 1);
    }
  }

  /** a a - r b b and the other part of (a + b u) (a - b u), times m. */
  lemma ConjugateProduct(a: Gauss, b: Gauss, m: Gauss)
    ensures QMul(Quartic(a, b), Quartic(Times2(a, m), Times2(Opposite(b), m)))
         == Quartic(Times2(Plus(Times2(a, a), Opposite(Times2(ROOT, Times2(b, b)))), m), Gauss(0, 0))
  {
    hide Times2;
    var bb, n := Times2(b, b), Opposite(b);
    ProductAssociates(a, a, m);
    ProductAssociates(b, n, m);
    RootMoves(b, n, m);
    OppositeMoves(b, b);
    OppositeMoves(ROOT, bb);
    FromRight(Times2(a, a), Opposite(Times2(ROOT, bb)), m);
    ProductAssociates(a, n, m);
    ProductAssociates(b, a, m);
    OppositeMoves(a, b);
    TimesCommutes(a, b);
    FromRight(Opposite(Times2(a, b)), Times2(b, a), m);
    ZeroTimes(m);
  }

  lemma OppositeMoves(a: Gauss, b: Gauss)
    ensures Times2(a, Opposite(b)) == Opposite(Times2(a, b))
  {
  }

  lemma ZeroTimes(a: Gauss)
    ensures Times2(Gauss(0, 0), a) == Gauss(0, 0)
  {
  }

  lemma ComplexDifferenceSame(x: Complex, y: Complex, a: Gauss, b: Gauss)
    requires ComplexReduced(x) && ComplexReduced(y) && SameMod(ComplexOf(x), a) && SameMod(ComplexOf(y), b)
    ensures SameMod(ComplexOf(ComplexDifference(x, y)), Plus(a, Opposite(b)))
  {
    DifferenceCongruent(x.re, y.re, a.re, b.re);
    DifferenceCongruent(x.im, y.im, a.im, b.im);
  }

  lemma DifferenceCongruent(x: Felt, y: Felt, a: int, b: int)
    requires Congruent(x, a, M31_P) && Congruent(y, b, M31_P)
    ensures Congruent(DifferenceOf(x, y), a + -b, M31_P)
  {
    hide DifferenceOf;
    DifferenceOfIsDifference(x, y);
    CongruentMul(-1, -1, y, b, M31_P);
    CongruentAdd(x, a, -1 * y, -1 * b, M31_P);
    CongruentMod(x - y, M31_P);
  }

  /** The norm of an element is c0^2 - (2 + i) c1^2. */
  lemma QuadraticNormSame(x: FieldElement)
    ensures var a, b := ComplexOf(x.c0), ComplexOf(x.c1);
            SameMod(ComplexOf(QuadraticNorm(x)), Plus(Times2(a, a), Opposite(Times2(ROOT, Times2(b, b)))))
  {
    hide IsReduced, ComplexProduct, SameMod, Times2, ComplexDifference;
    ComplexProductReduced(x.c0, x.c0);
    ComplexProductReduced(R, ComplexProduct(x.c1, x.c1));
    ComplexProductSame(x.c0, x.c0);
    ComplexProductSame(x.c1, x.c1);
    ComplexProductSame(R, ComplexProduct(x.c1, x.c1));
    var a, b := ComplexOf(x.c0), ComplexOf(x.c1);
    assert ComplexOf(R) == ROOT;
    RootRespects(ComplexOf(ComplexProduct(x.c1, x.c1)), Times2(b, b));
    SameModChain(ComplexOf(ComplexProduct(R, ComplexProduct(x.c1, x.c1))), Times2(ROOT, ComplexOf(ComplexProduct(x.c1, x.c1))),
                 Times2(ROOT, Times2(b, b)));
    ComplexDifferenceSame(ComplexProduct(x.c0, x.c0), ComplexProduct(R, ComplexProduct(x.c1, x.c1)),
                          Times2(a, a), Times2(ROOT, Times2(b, b)));
  }

  lemma SameModChain(a: Gauss, b: Gauss, c: Gauss)
    requires SameMod(a, b) && SameMod(b, c)
    ensures SameMod(a, c)
  {
  }

  /** It vanishes for zero alone, so that the contract's inverse reverts nowhere else. */
  lemma QuadraticNormIsZeroIff(x: FieldElement)
    ensures QuadraticNorm(x) == Complex(0, 0) <==> x == NOTHING
  {
    hide IsReduced, QuadraticNorm, Times2, QMul;
    var a, b := ComplexOf(x.c0), ComplexOf(x.c1);
    QuadraticNormSame(x);
    if QuadraticNorm(x) == Complex(0, 0) {
      DifferenceVanishes(Times2(a, a), Times2(ROOT, Times2(b, b)));
      QuadraticNormVanishes(a, b);
      SameIsEqual(x, NOTHING);
    }
    if x == NOTHING {
      ZeroTimes(a);
      OppositeMoves(ROOT, Gauss(0, 0));
      TimesCommutes(ROOT, Gauss(0, 0));
      ZeroTimes(ROOT);
      ReducedZero(QuadraticNorm(x));
    }
  }

  lemma ReducedZero(x: Complex)
    requires ComplexReduced(x) && SameMod(ComplexOf(x), Gauss(0, 0))
    ensures x == Complex(0, 0)
  {
  }

  lemma DifferenceVanishes(a: Gauss, b: Gauss)
    requires SameMod(Gauss(0, 0), Plus(a, Opposite(b)))
    ensures SameMod(a, b)
  {
    Vanishes(a.re, b.re);
    Vanishes(a.im, b.im);
  }

  lemma Vanishes(a: int, b: int)
    requires Congruent(0, a + -b, M31_P)
    ensures Congruent(a, b, M31_P)
  {
    CongruentAdd(a + -b, 0, b, b, M31_P);
  }

  /** The contract's inverse inverts every reduced element but zero. */
  lemma InverseInverts(x: FieldElement)
    requires x != NOTHING
    ensures ProductIn(x, InverseIn(x)) == Embedded(1)
  {
    hide IsReduced, QuadraticNorm, ComplexInverse, ComplexProduct, Times2, QMul, SameMod, Product;
    ReducedParts(x);
    var a, b := ComplexOf(x.c0), ComplexOf(x.c1);
    var n := QuadraticNorm(x);
    var inv := ComplexInverse(n);
    var m := ComplexOf(inv);
    QuadraticNormIsZeroIff(x);
    ComplexInverseInverts(n);
    QuadraticNormSame(x);
    var norm := Plus(Times2(a, a), Opposite(Times2(ROOT, Times2(b, b))));
    SameModSelf(m);
    SameModBack(ComplexOf(n), norm);
    ProductRespects(norm, ComplexOf(n), m, m);
    SameModChain(Times2(norm, m), Times2(ComplexOf(n), m), Gauss(1, 0));
    InverseSame(x, inv);
    var q := Quartic(Times2(a, m), Times2(Opposite(b), m));
    ProductSame(x, InverseIn(x));
    SameSelf(QuarticOf(x));
    QMulRespects(QuarticOf(x), QuarticOf(x), QuarticOf(InverseIn(x)), q);
    ConjugateProduct(a, b, m);
    SameChain(QuarticOf(ProductIn(x, InverseIn(x))), QMul(QuarticOf(x), QuarticOf(InverseIn(x))), QMul(QuarticOf(x), q));
    SameModSelf(Gauss(0, 0));
    SameChain(QuarticOf(ProductIn(x, InverseIn(x))), QMul(QuarticOf(x), q), QuarticOf(Embedded(1)));
    SameIsEqual(ProductIn(x, InverseIn(x)), Embedded(1));
  }

  lemma SameModSelf(a: Gauss)
    ensures SameMod(a, a)
  {
  }

  lemma SameModBack(a: Gauss, b: Gauss)
    requires SameMod(a, b)
    ensures SameMod(b, a)
  {
  }

  lemma InverseSame(x: FieldElement, inv: Complex)
    requires inv == ComplexInverse(QuadraticNorm(x))
    ensures var m := ComplexOf(inv);
            Same(QuarticOf(InverseIn(x)), Quartic(Times2(ComplexOf(x.c0), m), Times2(Opposite(ComplexOf(x.c1)), m)))
  {
    hide IsReduced, QuadraticNorm, ComplexInverse, ComplexProduct, Times2, ComplexNegated;
    ReducedParts(x);
    var m, n := ComplexOf(inv), ComplexNegated(x.c1);
    ComplexProductSame(x.c0, inv);
    ComplexProductSame(n, inv);
    NegatedSame(x.c1);
    SameModSelf(m);
    ProductRespects(ComplexOf(n), Opposite(ComplexOf(x.c1)), m, m);
    SameModChain(ComplexOf(ComplexProduct(n, inv)), Times2(ComplexOf(n), m), Times2(Opposite(ComplexOf(x.c1)), m));
  }

  lemma NegatedSame(x: Complex)
    requires ComplexReduced(x)
    ensures SameMod(ComplexOf(ComplexNegated(x)), Opposite(ComplexOf(x)))
  {
    NegatedCongruent(x.re);
    NegatedCongruent(x.im);
  }

  // ------------------------------------------------ the laws

  lemma SumsObey(evalEven: (seq<nat>, nat, FieldElement) -> FieldElement)
    ensures SumsCommutative(ContractOps(evalEven)) && SumsAssociative(ContractOps(evalEven))
  {
    hide SumIn, IsReduced;
    var ops := ContractOps(evalEven);
    forall a: FieldElement, b: FieldElement ensures ops.add(a, b) == ops.add(b, a) {
      SumsCommute(a, b);
    }
    forall a: FieldElement, b: FieldElement, c: FieldElement
      ensures ops.add(ops.add(a, b), c) == ops.add(a, ops.add(b, c))
    {
      SumsAssociate(a, b, c);
    }
  }

  lemma NegativesObey(evalEven: (seq<nat>, nat, FieldElement) -> FieldElement)
    ensures Negates(ContractOps(evalEven))
  {
    hide SumIn, DifferenceIn, NegatedIn, IsReduced;
    var ops := ContractOps(evalEven);
    forall a: FieldElement ensures ops.add(a, ops.zero) == a {
      SumsCommute(a, a);
    }
    forall a: FieldElement ensures ops.add(a, ops.neg(a)) == ops.zero {
      Differences(a, a);
    }
    forall a: FieldElement, b: FieldElement ensures ops.sub(a, b) == ops.add(a, ops.neg(b)) {
      Differences(a, b);
    }
  }

  lemma DistributionObeys(evalEven: (seq<nat>, nat, FieldElement) -> FieldElement)
    ensures Distributes(ContractOps(evalEven))
  {
    hide SumIn, ProductIn, IsReduced;
    var ops := ContractOps(evalEven);
    forall a: FieldElement, b: FieldElement, c: FieldElement
      ensures ops.mul(a, ops.add(b, c)) == ops.add(ops.mul(a, b), ops.mul(a, c))
    {
      ProductsDistribute(a, b, c);
    }
  }

  lemma ProductsObey(evalEven: (seq<nat>, nat, FieldElement) -> FieldElement)
    ensures ProductsCommutative(ContractOps(evalEven)) && ProductsAssociative(ContractOps(evalEven))
  {
    hide ProductIn, IsReduced;
    var ops := ContractOps(evalEven);
    forall a: FieldElement, b: FieldElement, c: FieldElement
      ensures ops.mul(ops.mul(a, b), c) == ops.mul(a, ops.mul(b, c))
    {
      ProductsAssociate(a, b, c);
    }
    forall a: FieldElement, b: FieldElement ensures ops.mul(a, b) == ops.mul(b, a) {
      ProductsCommute(a, b);
    }
  }

  lemma UnitsObey(evalEven: (seq<nat>, nat, FieldElement) -> FieldElement)
    ensures HasOneAndZero(ContractOps(evalEven)) && Divides(ContractOps(evalEven))
  {
    hide ProductIn, InverseIn, Embedded, IsReduced;
    var ops := ContractOps(evalEven);
    forall a: FieldElement ensures ops.mul(ops.one, a) == a {
      OneAndZero(a);
    }
    forall a: FieldElement ensures ops.mul(a, ops.zero) == ops.zero {
      OneAndZero(a);
    }
    forall a: FieldElement, d: FieldElement | d != ops.zero ensures ops.mul(ops.mul(d, a), ops.inv(d)) == a {
      DividedOut(a, d);
    }
  }

  lemma OneAndZero(a: FieldElement)
    ensures ProductIn(Embedded(1), a) == a && ProductIn(a, Embedded(1)) == a && ProductIn(a, NOTHING) == NOTHING
  {
    hide ProductIn, ScaledIn, IsReduced;
    ProductsCommute(Embedded(1), a);
    ScaledIsProduct(a, 1);
    ScaledIsProduct(a, 0);
    ScaledByOne(a);
  }

  lemma DividedOut(a: FieldElement, d: FieldElement)
    requires d != NOTHING
    ensures ProductIn(ProductIn(d, a), InverseIn(d)) == a
  {
    hide ProductIn, InverseIn, IsReduced;
    ProductsCommute(d, a);
    ProductsAssociate(a, d, InverseIn(d));
    InverseInverts(d);
    OneAndZero(a);
  }

  lemma ScalesObey(evalEven: (seq<nat>, nat, FieldElement) -> FieldElement)
    ensures ScaleLaws(ContractOps(evalEven))
  {
    hide SumIn, ProductIn, ScaledIn, NegatedIn, InverseOf, IsReduced;
    var ops := ContractOps(evalEven);
    forall a: FieldElement, b: FieldElement, n: Felt
      ensures ops.scale(ops.add(a, b), n) == ops.add(ops.scale(a, n), ops.scale(b, n))
    {
      ScaledSum(a, b, n);
    }
    forall a: FieldElement, b: FieldElement, n: Felt
      ensures ops.mul(a, ops.scale(b, n)) == ops.scale(ops.mul(a, b), n)
    {
      ScaledFactor(a, b, n);
    }
    forall a: FieldElement, n: Felt | n != 0 ensures ops.scale(ops.scale(a, n), InverseOf(n)) == a {
      ScaledBack(a, n);
    }
    forall a: FieldElement, n: Felt | n != 0 ensures ops.scale(a, M31_P - n) == ops.neg(ops.scale(a, n)) {
      ScaledOpposite(a, n);
    }
  }

  lemma ScaledFactor(a: FieldElement, b: FieldElement, n: Felt)
    ensures ProductIn(a, ScaledIn(b, n)) == ScaledIn(ProductIn(a, b), n)
  {
    hide ProductIn, ScaledIn, IsReduced;
    ScaledIsProduct(b, n);
    ScaledIsProduct(ProductIn(a, b), n);
    ProductsAssociate(a, b, Embedded(n));
  }

  lemma ScaledSum(a: FieldElement, b: FieldElement, n: Felt)
    ensures ScaledIn(SumIn(a, b), n) == SumIn(ScaledIn(a, n), ScaledIn(b, n))
  {
    hide SumIn, ProductIn, ScaledIn, IsReduced;
    var e := Embedded(n);
    ScaledIsProduct(SumIn(a, b), n);
    ScaledIsProduct(a, n);
    ScaledIsProduct(b, n);
    ProductsCommute(SumIn(a, b), e);
    ProductsCommute(a, e);
    ProductsCommute(b, e);
    ProductsDistribute(e, a, b);
  }

  lemma ScaledBack(a: FieldElement, n: Felt)
    requires n != 0
    ensures ScaledIn(ScaledIn(a, n), InverseOf(n)) == a
  {
    hide ProductIn, ScaledIn, InverseOf, IsReduced;
    ScaledIsProduct(a, n);
    ScaledIsProduct(ScaledIn(a, n), InverseOf(n));
    ProductsAssociate(a, Embedded(n), Embedded(InverseOf(n)));
    EmbeddedProduct(n, InverseOf(n));
    InverseOfUnit(n);
    OneAndZero(a);
  }

  lemma InverseOfUnit(n: Felt)
    requires n != 0
    ensures (n * InverseOf(n)) % M31_P == 1
  {
    hide Pow;
    InverseByPower(n, M31_P - 2, InverseOf(n));
  }

  lemma ScaledOpposite(a: FieldElement, n: Felt)
    requires n != 0
    ensures ScaledIn(a, M31_P - n) == NegatedIn(ScaledIn(a, n))
  {
    hide SumIn, ProductIn, ScaledIn, NegatedIn, IsReduced;
    var x, y := ScaledIn(a, n), ScaledIn(a, M31_P - n);
    ScaledIsProduct(a, n);
    ScaledIsProduct(a, M31_P - n);
    ProductsDistribute(a, Embedded(M31_P - n), Embedded(n));
    EmbeddedSum(M31_P - n, n);
    OneAndZero(a);
    assert SumIn(y, x) == NOTHING;
    Differences(x, x);
    SumsAssociate(y, x, NegatedIn(x));
    SumsCommute(y, NOTHING);
    SumsCommute(NOTHING, NegatedIn(x));
    SumsCommute(NegatedIn(x), NOTHING);
  }

  /** The contract's arithmetic on reduced elements is that of a field, as the laws of the
      folds want it. */
  lemma ContractIsField(evalEven: (seq<nat>, nat, FieldElement) -> FieldElement)
    ensures FoldLaws(ContractOps(evalEven)) && ProductLaws(ContractOps(evalEven)) && Divides(ContractOps(evalEven))
  {
    hide SumsCommutative, SumsAssociative, Negates, ScaleLaws, Distributes, ProductsCommutative, ProductsAssociative, HasOneAndZero, Divides;
    SumsObey(evalEven);
    NegativesObey(evalEven);
    DistributionObeys(evalEven);
    ProductsObey(evalEven);
    UnitsObey(evalEven);
    ScalesObey(evalEven);
  }
}
