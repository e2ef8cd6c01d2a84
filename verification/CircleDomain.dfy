/**
 * The circle group over M31 and the evaluation domain of the FRI prover
 * (stark_stwo/src/vfri2_bridge.rs): double-and-add, cosets, antipodes, twiddles.
 */
module CircleDomain {
  import opened Prelude
  import opened NumberTheory
  import opened Mersenne31
  import opened M31

  datatype Point = Point(x: Felt, y: Felt)

  const GENERATOR: Point := Point(2, 1268011823)

  const IDENTITY: Point := Point(1, 0)

  const ORDER: nat := 0x8000_0000

  lemma Closed(a: Felt, b: Felt)
    ensures Add(a, b) < M31_P && 0 <= Sub(a, b) < M31_P && Mul(a, b) < M31_P
  {
    MulIsProduct(a, b);
  }

  function CircleAdd(p: Point, q: Point): Point {
    Closed(p.x, q.x); Closed(p.y, q.y); Closed(p.x, q.y); Closed(q.x, p.y);
    Closed(Mul(p.x, q.x), Mul(p.y, q.y));
    Closed(Mul(p.x, q.y), Mul(q.x, p.y));
    Point(Sub(Mul(p.x, q.x), Mul(p.y, q.y)), Add(Mul(p.x, q.y), Mul(q.x, p.y)))
  }

  /** 2 x^2 - 1: the x-coordinate of the doubled point. */
  function DoubleX(x: Felt): Felt {
    Closed(x, x);
    Closed(Mul(x, x), Mul(x, x));
    Closed(Add(Mul(x, x), Mul(x, x)), 1);
    Sub(Add(Mul(x, x), Mul(x, x)), 1)
  }

  function CircleDouble(p: Point): Point {
    Closed(p.x, p.y);
    Closed(Mul(p.x, p.y), Mul(p.x, p.y));
    Point(DoubleX(p.x), Add(Mul(p.x, p.y), Mul(p.x, p.y)))
  }

  /** p added to the identity n times. */
  function Times(p: Point, n: nat): Point {
    if n == 0 then IDENTITY else CircleAdd(Times(p, n - 1), p)
  }

  // ---------------------------------- points as Gaussian integers modulo p

  datatype Gauss = Gauss(re: int, im: int)

  function Times2(a: Gauss, b: Gauss): Gauss {
    Gauss(a.re * b.re - a.im * b.im, a.re * b.im + b.re * a.im)
  }

  function Reduced(a: Gauss): Point {
    Point(a.re % M31_P, a.im % M31_P)
  }

  function Lift(p: Point): Gauss {
    Gauss(p.x, p.y)
  }

  lemma CircleAddIsProduct(p: Point, q: Point)
    ensures CircleAdd(p, q) == Reduced(Times2(Lift(p), Lift(q)))
  {
    hide Mul;
    MulIsProduct(p.x, q.x);
    MulIsProduct(p.y, q.y);
    MulIsProduct(p.x, q.y);
    MulIsProduct(q.x, p.y);
    DifferenceMod(p.x * q.x, p.y * q.y);
    SumMod(p.x * q.y, q.x * p.y);
  }

  lemma SumMod(a: int, b: int)
    ensures Add(a % M31_P, b % M31_P) == (a + b) % M31_P
  {
    AddIsSum(a % M31_P, b % M31_P);
    CongruentMod(a, M31_P);
    CongruentMod(b, M31_P);
    CongruentAdd(a, a % M31_P, b, b % M31_P, M31_P);
  }

  lemma DifferenceMod(a: int, b: int)
    ensures Sub(a % M31_P, b % M31_P) == (a - b) % M31_P
  {
    SubIsDifference(a % M31_P, b % M31_P);
    CongruentMod(a, M31_P);
    CongruentMod(b, M31_P);
    CongruentByMultiple(-(b % M31_P), -b, M31_P, b / M31_P);
    CongruentAdd(a, a % M31_P, -b, -(b % M31_P), M31_P);
  }

  ghost predicate SameMod(a: Gauss, b: Gauss) {
    Congruent(a.re, b.re, M31_P) && Congruent(a.im, b.im, M31_P)
  }

  lemma ProductRespects(a: Gauss, b: Gauss, c: Gauss, d: Gauss)
    requires SameMod(a, b) && SameMod(c, d)
    ensures SameMod(Times2(a, c), Times2(b, d))
  {
    CongruentMul(a.re, b.re, c.re, d.re, M31_P);
    CongruentMul(a.im, b.im, c.im, d.im, M31_P);
    CongruentMul(a.re, b.re, c.im, d.im, M31_P);
    CongruentMul(c.re, d.re, a.im, b.im, M31_P);
    CongruentMul(-1, -1, a.im * c.im, b.im * d.im, M31_P);
    CongruentAdd(a.re * c.re, b.re * d.re, -1 * (a.im * c.im), -1 * (b.im * d.im), M31_P);
    CongruentAdd(a.re * c.im, b.re * d.im, c.re * a.im, d.re * b.im, M31_P);
  }

  lemma ReducedSame(a: Gauss)
    ensures SameMod(Lift(Reduced(a)), a)
  {
    CongruentMod(a.re, M31_P);
    CongruentMod(a.im, M31_P);
  }

  lemma ProductAssociates(a: Gauss, b: Gauss, c: Gauss)
    ensures Times2(Times2(a, b), c) == Times2(a, Times2(b, c))
  {
    RealAssociates(a.re, a.im, b.re, b.im, c.re, c.im);
    ImaginaryAssociates(a.re, a.im, b.re, b.im, c.re, c.im);
  }

  lemma RealAssociates(a: int, b: int, c: int, d: int, e: int, f: int)
    ensures (a * c - b * d) * e - (a * d + c * b) * f == a * (c * e - d * f) - b * (c * f + e * d)
  {
    LinearIn(a * c, b * d, e);
    LinearIn(a * d, -(c * b), f);
    LinearIn(c * e, d * f, a);
    LinearIn(c * f, -(e * d), b);
    Permuted(a, c, e);
    Permuted(b, d, e);
    Permuted(a, d, f);
    Permuted(b, c, f);
  }

  lemma ImaginaryAssociates(a: int, b: int, c: int, d: int, e: int, f: int)
    ensures (a * c - b * d) * f + e * (a * d + c * b) == a * (c * f + e * d) + (c * e - d * f) * b
  {
    LinearIn(a * c, b * d, f);
    LinearIn(a * d, -(c * b), e);
    LinearIn(c * f, -(e * d), a);
    LinearIn(c * e, d * f, b);
    Permuted(a, c, f);
    Permuted(b, d, f);
    Permuted(a, d, e);
    Permuted(b, c, e);
  }

  lemma LinearIn(x: int, y: int, z: int)
    ensures (x - y) * z == x * z - y * z == z * (x - y)
  {
  }

  /** The orders of three factors the two sides use. */
  lemma Permuted(x: int, y: int, z: int)
    ensures (x * y) * z == x * (y * z) == x * (z * y) == (y * x) * z == (y * z) * x == (z * y) * x
    ensures (-(y * x)) * z == -((x * y) * z) && (-(z * y)) * x == -(x * (y * z))
  {
  }

  // ------------------------------------------------------------ the group

  lemma AddAssociates(p: Point, q: Point, r: Point)
    ensures CircleAdd(CircleAdd(p, q), r) == CircleAdd(p, CircleAdd(q, r))
  {
    hide CircleAdd, Times2;
    var a, b, c := Lift(p), Lift(q), Lift(r);
    CircleAddIsProduct(p, q);
    CircleAddIsProduct(q, r);
    CircleAddIsProduct(CircleAdd(p, q), r);
    CircleAddIsProduct(p, CircleAdd(q, r));
    ReducedSame(Times2(a, b));
    ReducedSame(Times2(b, c));
    ProductRespects(Lift(CircleAdd(p, q)), Times2(a, b), c, c);
    ProductRespects(a, a, Lift(CircleAdd(q, r)), Times2(b, c));
    ProductAssociates(a, b, c);
  }

  lemma AddCommutes(p: Point, q: Point)
    ensures CircleAdd(p, q) == CircleAdd(q, p)
  {
    CircleAddIsProduct(p, q);
    CircleAddIsProduct(q, p);
  }

  lemma AddIdentity(p: Point)
    ensures CircleAdd(IDENTITY, p) == p == CircleAdd(p, IDENTITY)
  {
    hide CircleAdd;
    CircleAddIsProduct(IDENTITY, p);
    AddCommutes(p, IDENTITY);
    assert Times2(Lift(IDENTITY), Lift(p)) == Lift(p);
  }

  lemma {:induction false} TimesAdds(p: Point, m: nat, n: nat)
    ensures Times(p, m + n) == CircleAdd(Times(p, m), Times(p, n))
  {
    hide CircleAdd;
    if n == 0 {
      AddIdentity(Times(p, m));
    } else {
      TimesAdds(p, m, n - 1);
      AddAssociates(Times(p, m), Times(p, n - 1), p);
    }
  }

  lemma {:induction false} TimesMuls(p: Point, m: nat, n: nat)
    ensures Times(p, m * n) == Times(Times(p, m), n)
  {
    hide CircleAdd;
    if n == 0 {
      assert m * n == 0;
    } else {
      TimesMuls(p, m, n - 1);
      assert m * n == m * (n - 1) + m;
      TimesAdds(p, m * (n - 1), m);
    }
  }

  // ------------------------------------------------------------ the circle

  ghost predicate OnCircle(p: Point) {
    Congruent(p.x * p.x + p.y * p.y, 1, M31_P)
  }

  /** The norm is multiplicative, so sums of circle points are circle points. */
  lemma AddOnCircle(p: Point, q: Point)
    requires OnCircle(p) && OnCircle(q)
    ensures OnCircle(CircleAdd(p, q))
  {
    hide CircleAdd;
    var g := Times2(Lift(p), Lift(q));
    CircleAddIsProduct(p, q);
    NormOfReduced(g);
    NormOfProduct(Lift(p), Lift(q));
    CongruentMul(p.x * p.x + p.y * p.y, 1, q.x * q.x + q.y * q.y, 1, M31_P);
  }

  lemma NormOfReduced(g: Gauss)
    ensures Congruent(Reduced(g).x * Reduced(g).x + Reduced(g).y * Reduced(g).y, g.re * g.re + g.im * g.im, M31_P)
  {
    var p := Reduced(g);
    ReducedSame(g);
    CongruentMul(p.x, g.re, p.x, g.re, M31_P);
    CongruentMul(p.y, g.im, p.y, g.im, M31_P);
    CongruentAdd(p.x * p.x, g.re * g.re, p.y * p.y, g.im * g.im, M31_P);
  }

  lemma NormOfProduct(a: Gauss, b: Gauss)
    ensures var g := Times2(a, b);
            g.re * g.re + g.im * g.im == (a.re * a.re + a.im * a.im) * (b.re * b.re + b.im * b.im)
  {
    BrahmaguptaIdentity(a.re, a.im, b.re, b.im);
  }

  lemma BrahmaguptaIdentity(a: int, b: int, c: int, d: int)
    ensures (a * c - b * d) * (a * c - b * d) + (a * d + c * b) * (a * d + c * b) == (a * a + b * b) * (c * c + d * d)
  {
    var u, v, w, z := a * c, b * d, a * d, c * b;
    assert (u - v) * (u - v) == u * u - 2 * (u * v) + v * v;
    assert (w + z) * (w + z) == w * w + 2 * (w * z) + z * z;
    assert u * v == w * z by { FourFactors(a, c, b, d); }
    assert (a * a + b * b) * (c * c + d * d) == (a * a) * (c * c) + (a * a) * (d * d) + (b * b) * (c * c) + (b * b) * (d * d);
    SquareOfProduct(a, c);
    SquareOfProduct(a, d);
    SquareOfProduct(c, b);
    SquareOfProduct(b, d);
  }

  lemma FourFactors(a: int, c: int, b: int, d: int)
    ensures (a * c) * (b * d) == (a * d) * (c * b)
  {
    MulAssociates(a * c, b, d);
    MulAssociates(a * d, c, b);
    assert (a * c) * b == a * (c * b);
    assert (a * d) * c == a * (d * c);
    assert ((a * c) * b) * d == (a * (c * b)) * d == (a * d) * (c * b);
  }

  lemma SquareOfProduct(a: int, b: int)
    ensures (a * b) * (a * b) == (a * a) * (b * b)
  {
    MulAssociates(a * b, a, b);
    assert (a * b) * a == (a * a) * b;
    MulAssociates(a * a, b, b);
  }

  lemma {:induction false} TimesOnCircle(p: Point, n: nat)
    requires OnCircle(p)
    ensures OnCircle(Times(p, n))
  {
    if n > 0 {
      hide CircleAdd, OnCircle;
      TimesOnCircle(p, n - 1);
      AddOnCircle(Times(p, n - 1), p);
    }
  }

  lemma GeneratorOnCircle()
    ensures OnCircle(GENERATOR)
  {
  }

  lemma DoubleMod(p: Point)
    ensures CircleDouble(p) == Point((p.x * p.x + p.x * p.x - 1) % M31_P, (p.x * p.y + p.x * p.y) % M31_P)
  {
    hide Mul, Add, Sub;
    MulIsProduct(p.x, p.x);
    MulIsProduct(p.x, p.y);
    SumMod(p.x * p.x, p.x * p.x);
    SumMod(p.x * p.y, p.x * p.y);
    DifferenceMod(p.x * p.x + p.x * p.x, 1);
  }

  /** On the circle, circle_double is adding a point to itself. */
  lemma DoubleIsSum(p: Point)
    requires OnCircle(p)
    ensures CircleDouble(p) == CircleAdd(p, p)
  {
    hide CircleAdd, CircleDouble;
    CircleAddIsProduct(p, p);
    DoubleMod(p);
    var k := MultipleOfCongruent(p.x * p.x + p.y * p.y, 1, M31_P);
    CongruentByMultiple(p.x * p.x + p.x * p.x - 1, p.x * p.x - p.y * p.y, M31_P, k);
  }

  lemma TimesTwice(p: Point, n: nat)
    requires OnCircle(p)
    ensures Times(p, 2 * n) == CircleDouble(Times(p, n))
  {
    hide CircleAdd, CircleDouble;
    assert 2 * n == n + n;
    TimesAdds(p, n, n);
    TimesOnCircle(p, n);
    DoubleIsSum(Times(p, n));
  }

  /** Double-and-add computes multiples of the generator. */
  method GenMul(scalar: nat) returns (r: Point)
    ensures r == Times(GENERATOR, scalar % ORDER)
  {
    hide CircleAdd, CircleDouble, OnCircle;
    var s: nat := scalar % ORDER;
    r := IDENTITY;
    var c := GENERATOR;
    GeneratorOnCircle();
    AddIdentity(Times(c, s));
    while s > 0
      invariant OnCircle(c)
      invariant CircleAdd(r, Times(c, s)) == Times(GENERATOR, scalar % ORDER)
    {
      DoubleAndAdd(r, c, s / 2, s % 2 == 1);
      if s % 2 == 1 {
        r := CircleAdd(r, c);
      }
      c := CircleDouble(c);
      s := s / 2;
    }
    AddIdentity(r);
  }

  lemma DoubleAndAdd(r: Point, c: Point, n: nat, odd: bool)
    requires OnCircle(c)
    ensures OnCircle(CircleDouble(c))
    ensures CircleAdd(if odd then CircleAdd(r, c) else r, Times(CircleDouble(c), n))
         == CircleAdd(r, Times(c, if odd then 2 * n + 1 else 2 * n))
  {
    hide CircleAdd, CircleDouble, OnCircle, Times;
    DoubleIsSum(c);
    AddOnCircle(c, c);
    TimesTwo(c);
    TimesMuls(c, 2, n);
    if odd {
      OddMultiple(r, c, n);
    }
  }

  lemma OddMultiple(r: Point, c: Point, n: nat)
    ensures CircleAdd(CircleAdd(r, c), Times(c, 2 * n)) == CircleAdd(r, Times(c, 2 * n + 1))
  {
    hide CircleAdd;
    TimesAdds(c, 1, 2 * n);
    TimesOnce(c);
    AddAssociates(r, c, Times(c, 2 * n));
  }

  lemma TimesOnce(p: Point)
    ensures Times(p, 1) == p
  {
    assert Times(p, 1) == CircleAdd(Times(p, 0), p);
    AddIdentity(p);
  }

  lemma TimesTwo(p: Point)
    ensures Times(p, 2) == CircleAdd(p, p)
  {
    TimesOnce(p);
    assert Times(p, 2) == CircleAdd(Times(p, 1), p);
  }

  // ------------------------------------------------- the half turn

  function Negated(p: Point): Point {
    Point(if p.x == 0 then 0 else M31_P - p.x, if p.y == 0 then 0 else M31_P - p.y)
  }

  const HALF_TURN: Point := Point(M31_P - 1, 0)

  /** The x-coordinate after k doublings. */
  function Chebyshev(x: Felt, k: nat): Felt {
    if k == 0 then x else DoubleX(Chebyshev(x, k - 1))
  }

  method ChebyshevTwiddle(x: Felt, k: nat) returns (t: Felt)
    ensures t == Chebyshev(x, k)
  {
    t := x;
    for i := 0 to k
      invariant t == Chebyshev(x, i)
    {
      Closed(t, t);
      Closed(Mul(t, t), Mul(t, t));
      Closed(Add(Mul(t, t), Mul(t, t)), 1);
      var t2 := Mul(t, t);
      t := Sub(Add(t2, t2), 1);
    }
  }

  lemma {:induction false} ChebyshevAdds(x: Felt, j: nat, k: nat)
    ensures Chebyshev(x, j + k) == Chebyshev(Chebyshev(x, j), k)
  {
    hide DoubleX;
    if k > 0 {
      ChebyshevAdds(x, j, k - 1);
    }
  }

  /** The twiddle of round k is the x-coordinate of the 2^k-fold point. */
  lemma {:induction false} ChebyshevIsMultiple(p: Point, n: nat, k: nat)
    requires OnCircle(p)
    ensures Chebyshev(Times(p, n).x, k) == Times(p, Pow2(k) * n).x
  {
    hide DoubleX, OnCircle, Times;
    if k > 0 {
      ChebyshevIsMultiple(p, n, k - 1);
      MulAssociates(2, Pow2(k - 1), n);
      TimesTwice(p, Pow2(k - 1) * n);
    }
  }

  lemma DoubledLessOne(s: int)
    ensures Sub(Add(s % M31_P, s % M31_P), 1) == (s + s - 1) % M31_P
  {
    hide Add, Sub;
    SumMod(s, s);
    DifferenceMod(s + s, 1);
  }

  lemma DoubleXMod(x: Felt)
    ensures DoubleX(x) == (x * x + x * x - 1) % M31_P
  {
    hide Mul, Add, Sub;
    MulIsProduct(x, x);
    DoubledLessOne(x * x);
  }

  lemma DoubleXStep(x: Felt, y: Felt)
    requires Congruent(x * x + x * x - 1, y, M31_P)
    ensures DoubleX(x) == y
  {
    hide DoubleX;
    DoubleXMod(x);
  }

  /** One more doubling, with its value. */
  lemma ChainStep(k: nat, x: Felt, y: Felt)
    requires Chebyshev(2, k) == x && Congruent(x * x + x * x - 1, y, M31_P)
    ensures Chebyshev(2, k + 1) == y
  {
    hide DoubleX;
    DoubleXStep(x, y);
  }

  lemma FirstTenDoublings()
    ensures Chebyshev(2, 10) == 1022251061
  {
    assert Chebyshev(2, 0) == 2;
    hide Chebyshev, DoubleX;
    ChainStep(0, 2, 7); ChainStep(1, 7, 97); ChainStep(2, 97, 18817);
    ChainStep(3, 18817, 708158977); ChainStep(4, 708158977, 334835419); ChainStep(5, 334835419, 2042371533);
    ChainStep(6, 2042371533, 212706801); ChainStep(7, 212706801, 421007138); ChainStep(8, 421007138, 6346213);
    ChainStep(9, 6346213, 1022251061);
  }

  lemma NextTenDoublings()
    ensures Chebyshev(2, 20) == 996212859
  {
    FirstTenDoublings();
    hide Chebyshev, DoubleX;
    ChainStep(10, 1022251061, 1633461177); ChainStep(11, 1633461177, 595037635);
    ChainStep(12, 595037635, 1799120754); ChainStep(13, 1799120754, 438833264); ChainStep(14, 438833264, 1389168750);
    ChainStep(15, 1389168750, 1543902459); ChainStep(16, 1543902459, 1330239767); ChainStep(17, 1330239767, 1420207432);
    ChainStep(18, 1420207432, 2015554631); ChainStep(19, 2015554631, 996212859);
  }

  /** Thirty doublings take the generator half way round the group. */
  lemma ThirtyDoublings()
    ensures Chebyshev(2, 30) == M31_P - 1
  {
    NextTenDoublings();
    hide Chebyshev, DoubleX;
    ChainStep(20, 996212859, 1434706457);
    ChainStep(21, 1434706457, 13610297); ChainStep(22, 13610297, 785043271); ChainStep(23, 785043271, 838195206);
    ChainStep(24, 838195206, 579625837); ChainStep(25, 579625837, 1179735656); ChainStep(26, 1179735656, 590768354);
    ChainStep(27, 590768354, 32768); ChainStep(28, 32768, 0); ChainStep(29, 0, M31_P - 1);
  }

  /** 2^30 times the generator is the half turn (-1, 0). */
  lemma HalfTurn()
    ensures Times(GENERATOR, Pow2(30)) == HALF_TURN
  {
    hide Times, Chebyshev, Pow2;
    GeneratorOnCircle();
    TimesOnce(GENERATOR);
    ChebyshevIsMultiple(GENERATOR, 1, 30);
    ThirtyDoublings();
    assert Pow2(30) * 1 == Pow2(30);
    TimesOnCircle(GENERATOR, Pow2(30));
    YOfHalfTurn(Times(GENERATOR, Pow2(30)));
  }

  lemma YOfHalfTurn(p: Point)
    requires OnCircle(p) && p.x == M31_P - 1
    ensures p.y == 0
  {
    M31IsPrime();
    var k := MultipleOfCongruent(p.x * p.x + p.y * p.y, 1, M31_P);
    assert p.x * p.x == M31_P * (M31_P - 2) + 1;
    CongruentByMultiple(p.y * p.y, 0, M31_P, k - (M31_P - 2));
    EuclidsLemma(p.y, p.y, M31_P);
  }

  lemma AddHalfTurn(p: Point)
    ensures CircleAdd(p, HALF_TURN) == Negated(p)
  {
    hide CircleAdd, Times2;
    CircleAddIsProduct(p, HALF_TURN);
    TimesReal(Lift(p), M31_P - 1);
    NegatedMod(p.x);
    NegatedMod(p.y);
  }

  lemma TimesReal(a: Gauss, r: int)
    ensures Times2(a, Gauss(r, 0)) == Gauss(a.re * r, a.im * r)
  {
  }

  lemma NegatedMod(a: Felt)
    ensures (a * (M31_P - 1)) % M31_P == if a == 0 then 0 else M31_P - a
  {
    CongruentByMultiple(a * (M31_P - 1), 0 - a, M31_P, a);
    if a != 0 {
      CongruentByMultiple(0 - a, M31_P - a, M31_P, -1);
    }
  }

  /** Half the group order more is the opposite point. */
  lemma OppositeMultiple(n: nat)
    ensures Times(GENERATOR, n + Pow2(30)) == Negated(Times(GENERATOR, n))
  {
    hide Times, Pow2, CircleAdd;
    TimesAdds(GENERATOR, n, Pow2(30));
    HalfTurn();
    AddHalfTurn(Times(GENERATOR, n));
  }

  lemma NegatedTwice(p: Point)
    ensures Negated(Negated(p)) == p
  {
  }

  /** The generator's order divides 2^31. */
  lemma FullTurn(n: nat)
    ensures Times(GENERATOR, n + Pow2(31)) == Times(GENERATOR, n)
  {
    hide Times, Negated;
    hide Pow2;
    OppositeMultiple(n);
    OppositeMultiple(n + Pow2(30));
    NegatedTwice(Times(GENERATOR, n));
    Pow2Next(30);
  }

  // ------------------------------------------------------------ the domain

  /** Position of point idx of the domain of size 2^d among the generator's multiples. */
  function CosetIndex(d: nat, idx: nat): (r: nat)
    requires d <= 30
    ensures r < ORDER
  {
    (Pow2(30 - d) + idx * Pow2(31 - d)) % ORDER
  }

  ghost function Coset(d: nat, idx: nat): Point
    requires d <= 30
  {
    Times(GENERATOR, CosetIndex(d, idx))
  }

  method CosetAt(d: nat, idx: nat) returns (p: Point)
    requires d <= 30
    ensures p == Coset(d, idx)
  {
    hide CosetIndex, Times;
    p := GenMul(CosetIndex(d, idx));
  }

  function AntipodalOf(d: nat, idx: nat): (r: nat)
    requires d >= 1
    ensures r < Pow2(d)
  {
    (idx + Pow2(d - 1)) % Pow2(d)
  }

  lemma OddMultipleOf(h: int, idx: int)
    ensures h + idx * (2 * h) == h * (1 + 2 * idx)
  {
    MulAssociates(h, 2, idx);
  }

  lemma RowBelow(idx: nat, rows: nat, t: nat)
    requires idx < rows
    ensures idx * t + t <= rows * t
  {
    ProductMonotone(t, idx + 1, rows);
    assert t * (idx + 1) == idx * t + t;
    assert t * rows == rows * t;
  }

  lemma Pow2Of31()
    ensures Pow2(31) == ORDER
  {
    assert Pow2(4) == 16 && Pow2(3) == 8;
    Pow2Adds(4, 4);
    Pow2Adds(8, 8);
    Pow2Adds(4, 3);
    Pow2Adds(8, 7);
    Pow2Adds(16, 15);
  }

  /** Inside the domain the index never wraps. */
  lemma IndexInRange(d: nat, idx: nat)
    requires d <= 30 && idx < Pow2(d)
    ensures CosetIndex(d, idx) == Pow2(30 - d) * (1 + 2 * idx)
  {
    hide Pow2;
    var h, t := Pow2(30 - d), Pow2(31 - d);
    Pow2Next(30 - d);
    Pow2Of31();
    Pow2Adds(d, 31 - d);
    RowBelow(idx, Pow2(d), t);
    OddMultipleOf(h, idx);
    QuotientUnique(h + idx * t, ORDER, 0, h + idx * t);
  }

  lemma MovedMultiple(h: int, t: int, idx: int, m: int)
    requires t == 2 * h
    ensures h * (1 + 2 * (idx + m)) == h * (1 + 2 * idx) + t * m
  {
    Distribute(h, 1 + 2 * idx, 2 * m);
    MulAssociates(h, 2, m);
  }

  /** The domain of size 2^d: the odd multiples of the 2^(30-d)-fold generator, in order. */
  lemma CosetIsOddMultiple(d: nat, idx: nat)
    requires d <= 30 && idx < Pow2(d)
    ensures Coset(d, idx) == Times(Times(GENERATOR, Pow2(30 - d)), 2 * idx + 1)
  {
    hide Times, CosetIndex, Pow2;
    IndexInRange(d, idx);
    TimesMuls(GENERATOR, Pow2(30 - d), 2 * idx + 1);
  }

  /** Moving on by m domain points moves on by m * 2^(31-d) multiples. */
  lemma IndexMoves(d: nat, idx: nat, m: nat)
    requires d <= 30 && idx + m < Pow2(d)
    ensures CosetIndex(d, idx + m) == CosetIndex(d, idx) + Pow2(31 - d) * m
  {
    hide CosetIndex, Pow2;
    Pow2Next(30 - d);
    IndexInRange(d, idx);
    IndexInRange(d, idx + m);
    MovedMultiple(Pow2(30 - d), Pow2(31 - d), idx, m);
  }

  lemma WrapAround(q: nat, half: nat)
    requires q < 2 * half
    ensures (q + half) % (2 * half) == if q < half then q + half else q - half
  {
    if q < half {
      QuotientUnique(q + half, 2 * half, 0, q + half);
    } else {
      QuotientUnique(q + half, 2 * half, 1, q - half);
    }
  }

  lemma AntipodeByHalves(d: nat, q: nat)
    requires d >= 1 && q < Pow2(d)
    ensures var half := Pow2(d - 1);
            AntipodalOf(d, q) == if q < half then q + half else q - half
  {
    WrapAround(q, Pow2(d - 1));
  }

  /** antipodal_of is the opposite point. */
  lemma AntipodeIsOpposite(d: nat, q: nat)
    requires 1 <= d <= 30 && q < Pow2(d)
    ensures Coset(d, AntipodalOf(d, q)) == Negated(Coset(d, q))
    ensures AntipodalOf(d, q) != q && AntipodalOf(d, AntipodalOf(d, q)) == q
  {
    hide Times, CosetIndex, Negated, AntipodalOf, Pow2;
    var half := Pow2(d - 1);
    Pow2Next(d - 1);
    HalfDomain(d);
    AntipodeByHalves(d, q);
    AntipodeByHalves(d, AntipodalOf(d, q));
    if q < half {
      IndexMoves(d, q, half);
      OppositeMultiple(CosetIndex(d, q));
    } else {
      IndexMoves(d, q - half, half);
      OppositeMultiple(CosetIndex(d, q - half));
      NegatedTwice(Coset(d, q - half));
    }
  }

  lemma HalfDomain(d: nat)
    requires 1 <= d <= 30
    ensures Pow2(31 - d) * Pow2(d - 1) == Pow2(30)
  {
    hide Pow2;
    Pow2Adds(31 - d, d - 1);
  }

  /** The two values a fold of round k combines belong to opposite abscissas. */
  lemma FoldPairsAreOpposite(d: nat, k: nat, j: nat)
    requires 1 <= d <= 30 && k < d && j < Pow2(d - k - 1)
    ensures j + Pow2(d - k - 1) < Pow2(d)
    ensures var x := Chebyshev(Coset(d, j).x, k);
            Chebyshev(Coset(d, j + Pow2(d - k - 1)).x, k) == if x == 0 then 0 else M31_P - x
  {
    hide Times, CosetIndex, Chebyshev, Pow2;
    var m, n := Pow2(d - k - 1), CosetIndex(d, j);
    Pow2Monotone(d - k, d);
    Pow2Next(d - k - 1);
    IndexMoves(d, j, m);
    GeneratorOnCircle();
    ChebyshevIsMultiple(GENERATOR, n, k);
    ChebyshevIsMultiple(GENERATOR, n + Pow2(31 - d) * m, k);
    FoldDistance(d, k, n);
    OppositeMultiple(Pow2(k) * n);
  }

  lemma FoldDistance(d: nat, k: nat, n: nat)
    requires 1 <= d <= 30 && k < d
    ensures Pow2(k) * (n + Pow2(31 - d) * Pow2(d - k - 1)) == Pow2(k) * n + Pow2(30)
  {
    hide Pow2;
    Pow2Adds(31 - d, d - k - 1);
    Pow2Adds(k, 30 - k);
    Distribute(Pow2(k), n, Pow2(30 - k));
  }

  // ---------------------------------------------- no degenerate coordinate

  lemma {:induction false} OddHalfTurns(n: nat)
    ensures Times(HALF_TURN, 2 * n + 1) == HALF_TURN
  {
    hide Times, Negated;
    if n == 0 {
      TimesOnce(HALF_TURN);
    } else {
      OddHalfTurns(n - 1);
      TimesAdds(HALF_TURN, 2 * n - 1, 2);
      TimesTwo(HALF_TURN);
      AddHalfTurn(HALF_TURN);
      assert Negated(HALF_TURN) == IDENTITY by { NegatedHalfTurn(); }
      AddIdentity(HALF_TURN);
      assert 2 * n - 1 + 2 == 2 * n + 1;
    }
  }

  lemma NegatedHalfTurn()
    ensures Negated(HALF_TURN) == IDENTITY
  {
  }

  /** d doublings take every point of the domain of size 2^d to the half turn. */
  lemma DomainDoublesToHalfTurn(d: nat, j: nat)
    requires d <= 30 && j < Pow2(d)
    ensures Chebyshev(Coset(d, j).x, d) == M31_P - 1
  {
    hide Times, CosetIndex, Chebyshev;
    GeneratorOnCircle();
    ChebyshevIsMultiple(GENERATOR, CosetIndex(d, j), d);
    IndexInRange(d, j);
    Pow2Adds(d, 30 - d);
    MulAssociates(Pow2(d), Pow2(30 - d), 1 + 2 * j);
    TimesMuls(GENERATOR, Pow2(30), 1 + 2 * j);
    HalfTurn();
    OddHalfTurns(j);
  }

  lemma {:induction false} ChebyshevOfOne(k: nat)
    ensures Chebyshev(1, k) == 1
  {
    if k > 0 {
      ChebyshevOfOne(k - 1);
      DoubleXStep(1, 1);
    }
  }

  lemma ChebyshevOfZero(k: nat)
    requires k >= 2
    ensures Chebyshev(0, k) == 1
  {
    hide DoubleX;
    DoubleXStep(0, M31_P - 1);
    CongruentByMultiple((M31_P - 1) * (M31_P - 1) + (M31_P - 1) * (M31_P - 1) - 1, 1, M31_P, 2 * (M31_P - 2));
    DoubleXStep(M31_P - 1, 1);
    assert Chebyshev(0, 1) == DoubleX(Chebyshev(0, 0)) == M31_P - 1;
    assert Chebyshev(0, 2) == DoubleX(Chebyshev(0, 1)) == 1;
    ChebyshevAdds(0, 2, k - 2);
    ChebyshevOfOne(k - 2);
  }

  /** A twiddle is never zero: the prover's "zero twiddle" error cannot occur. */
  lemma TwiddleIsNonzero(d: nat, k: nat, j: nat)
    requires d <= 30 && j < Pow2(d) && k + 2 <= d
    ensures Chebyshev(Coset(d, j).x, k) != 0
  {
    hide Coset, DoubleX;
    DomainDoublesToHalfTurn(d, j);
    ChebyshevAdds(Coset(d, j).x, k, d - k);
    ChebyshevOfZero(d - k);
  }

  /** No domain point has a zero ordinate, so every inverse the circle fold takes is one. */
  lemma OrdinateIsNonzero(d: nat, j: nat)
    requires 1 <= d <= 30 && j < Pow2(d)
    ensures Coset(d, j).y != 0
  {
    hide DoubleX, Times, CosetIndex, Chebyshev;
    var p := Coset(d, j);
    GeneratorOnCircle();
    TimesOnCircle(GENERATOR, CosetIndex(d, j));
    DomainDoublesToHalfTurn(d, j);
    if p.y == 0 {
      var k := MultipleOfCongruent(p.x * p.x + p.y * p.y, 1, M31_P);
      assert p.y * p.y == 0;
      CongruentByMultiple(p.x * p.x + p.x * p.x - 1, 1, M31_P, 2 * k);
      DoubleXStep(p.x, 1);
      FirstDoubling(p.x, d);
      ChebyshevOfOne(d - 1);
    }
  }

  lemma FirstDoubling(x: Felt, k: nat)
    requires k >= 1
    ensures Chebyshev(x, k) == Chebyshev(DoubleX(x), k - 1)
  {
    hide DoubleX;
    assert Chebyshev(x, 1) == DoubleX(Chebyshev(x, 0));
    ChebyshevAdds(x, 1, k - 1);
  }
}
