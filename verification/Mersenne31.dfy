/**
 * 2^31 - 1 is prime.  Every prime factor q is 1 modulo 2, 31 and 331, because 2 has
 * order 31 and 1090433 has order 331 modulo q; only two numbers below the square
 * root are, and neither divides.
 */
module Mersenne31 {
  import opened Prelude
  import opened NumberTheory

  const M31_P: nat := 2147483647

  // --------------------------------------------------- trial division

  /** A composite number has a prime factor not above its square root. */
  lemma SmallPrimeFactor(n: nat) returns (q: nat)
    requires n >= 2 && !IsPrime(n)
    ensures IsPrime(q) && n % q == 0 && q * q <= n
  {
    var d :| 2 <= d < n && n % d == 0;
    var e := n / d;
    var least := SmallerFactor(n, d, e);
    q := PrimeFactorOf(n, least);
    SquareMonotone(q, least);
  }

  lemma SmallerFactor(n: nat, d: nat, e: nat) returns (least: nat)
    requires 2 <= d < n && n == d * e
    ensures least >= 2 && n % least == 0 && least * least <= n
  {
    assert d * (e - 1) == n - d;
    least := Min(d, e);
    ProductMonotone(least, least, Max(d, e));
    assert least * Max(d, e) == d * e;
    CongruentByMultiple(n, 0, least, Max(d, e));
  }

  lemma ProductMonotone(a: nat, b: nat, c: nat)
    requires b <= c
    ensures a * b <= a * c
  {
  }

  lemma SquareMonotone(a: nat, b: nat)
    requires a <= b
    ensures a * a <= b * b
  {
    ProductMonotone(a, a, b);
    ProductMonotone(b, a, b);
  }

  lemma {:induction false} PrimeFactorOf(n: nat, d: nat) returns (q: nat)
    requires d >= 2 && n % d == 0
    ensures IsPrime(q) && n % q == 0 && q <= d
    decreases d
  {
    if IsPrime(d) {
      q := d;
    } else {
      var e :| 2 <= e < d && d % e == 0;
      DivisorOfDivisor(n, d, e);
      q := PrimeFactorOf(n, e);
    }
  }

  lemma DivisorOfDivisor(n: nat, d: nat, e: nat)
    requires d >= 1 && e >= 1 && n % d == 0 && d % e == 0
    ensures n % e == 0
  {
    var f, g := n / d, d / e;
    assert n == d * f && d == e * g;
    MulAssociates(e, g, f);
    CongruentByMultiple(n, 0, e, g * f);
  }

  /** Trial division up to b suffices when (b + 1)^2 exceeds n. */
  lemma TrialDivision(n: nat, b: nat)
    requires 2 <= n < (b + 1) * (b + 1)
    requires forall d | 2 <= d <= b :: n % d != 0
    ensures IsPrime(n)
  {
    if !IsPrime(n) {
      var q := SmallPrimeFactor(n);
      RootBound(q, b, n);
    }
  }

  lemma RootBound(q: nat, b: nat, n: nat)
    requires q * q <= n < (b + 1) * (b + 1)
    ensures q <= b
  {
    if q > b {
      SquareMonotone(b + 1, q);
    }
  }

  lemma ThirtyOneIsPrime()
    ensures IsPrime(31)
  {
    forall d | 2 <= d <= 5
      ensures 31 % d != 0
    {
      assert d == 2 || d == 3 || d == 4 || d == 5;
    }
    TrialDivision(31, 5);
  }

  lemma ThreeThirtyOneIsPrime()
    ensures IsPrime(331)
  {
    forall d | 2 <= d <= 18
      ensures 331 % d != 0
    {
      assert d == 2 || d == 3 || d == 4 || d == 5 || d == 6 || d == 7 || d == 8 || d == 9 || d == 10
          || d == 11 || d == 12 || d == 13 || d == 14 || d == 15 || d == 16 || d == 17 || d == 18;
    }
    TrialDivision(331, 18);
  }

  // --------------------------------------------------- orders

  /** Two powers equal to one with coprime exponents: the base is one. */
  lemma PowersMeet(b: nat, r: nat, s: nat, q: nat)
    requires IsPrime(r) && 0 < s < r && q >= 2
    requires Congruent(Pow(b, r), 1, q) && Congruent(Pow(b, s), 1, q)
    ensures Congruent(b, 1, q)
  {
    hide Pow, IsPrime;
    var v := PositiveInverse(s, r);
    var k := (s * v) / r;
    ResidueOne(s * v, r);
    PowerOfOneIsOne(b, s, v, q);
    PowerOfOneIsOne(b, r, k, q);
    PowAdds(b, r * k, 1);
    PowFirst(b);
    CongruentMul(Pow(b, r * k), 1, b, b, q);
  }

  lemma PositiveInverse(s: nat, r: nat) returns (v: nat)
    requires IsPrime(r) && 0 < s < r
    ensures r >= 2 && Congruent(s * v, 1, r)
  {
    var u := Inverse(s, r);
    v := u % r;
    CongruentMod(u, r);
    CongruentMul(s, s, u, v, r);
  }

  /** An element b with b^r = 1 and b != 1 modulo a prime q, r prime: r divides q - 1. */
  lemma OrderDivides(b: nat, r: nat, q: nat)
    requires IsPrime(r) && IsPrime(q)
    requires Congruent(Pow(b, r), 1, q) && !Congruent(b, 1, q)
    ensures (q - 1) % r == 0
  {
    var s, t := (q - 1) % r, (q - 1) / r;
    FermatRemainder(b, r, q, s, t);
    if s != 0 {
      PowersMeet(b, r, s, q);
    }
  }

  lemma FermatRemainder(b: nat, r: nat, q: nat, s: nat, t: nat)
    requires IsPrime(q) && r >= 1 && q - 1 == r * t + s
    requires Congruent(Pow(b, r), 1, q)
    ensures Congruent(Pow(b, s), 1, q)
  {
    hide Pow;
    UnitFromPower(b, r, q);
    FermatUnit(b, q);
    PowAdds(b, r * t, s);
    PowerOfOneIsOne(b, r, t, q);
    CongruentMul(Pow(b, r * t), 1, Pow(b, s), Pow(b, s), q);
  }

  lemma ResidueOne(n: nat, r: nat)
    requires r >= 2 && Congruent(n, 1, r)
    ensures n == r * (n / r) + 1
  {
  }

  lemma PowerOfOneIsOne(b: nat, m: nat, n: nat, q: nat)
    requires q >= 1 && Congruent(Pow(b, m), 1, q)
    ensures Congruent(Pow(b, m * n), 1, q)
  {
    PowMuls(b, m, n);
    CongruentPow(Pow(b, m), 1, n, q);
    PowOfOne(n);
  }

  lemma UnitFromPower(b: nat, r: nat, q: nat)
    requires r >= 1 && q >= 2 && Congruent(Pow(b, r), 1, q)
    ensures b % q != 0
  {
    if b % q == 0 {
      CongruentMul(b, 0, Pow(b, r - 1), Pow(b, r - 1), q);
      assert false;
    }
  }

  /** A congruence modulo n holds modulo each divisor of n. */
  lemma CongruentModDivisor(a: int, b: int, n: nat, q: nat)
    requires q >= 1 && n >= 1 && n % q == 0 && Congruent(a, b, n)
    ensures Congruent(a, b, q)
  {
    var k := MultipleOfCongruent(a, b, n);
    var f := n / q;
    assert n == q * f;
    assert (q * f) * k == q * (f * k);
    CongruentByMultiple(a, b, q, f * k);
  }

  // --------------------------------------------------- the two orders

  /** One square-and-multiply step with its reduced value. */
  lemma SquareStep(b: int, n: nat, x: int, y: int)
    requires Congruent(Pow(b, n), x, M31_P) && Congruent(x * x, y, M31_P)
    ensures Congruent(Pow(b, 2 * n), y, M31_P)
  {
    PowAdds(b, n, n);
    CongruentMul(Pow(b, n), x, Pow(b, n), x, M31_P);
  }

  lemma MultiplyStep(b: int, n: nat, x: int, y: int)
    requires Congruent(Pow(b, n), x, M31_P) && Congruent(b * x, y, M31_P)
    ensures Congruent(Pow(b, n + 1), y, M31_P)
  {
    CongruentMul(b, b, Pow(b, n), x, M31_P);
  }

  lemma TwoTo31()
    ensures Congruent(Pow(2, 31), 1, M31_P)
  {
    assert Pow(2, 1) == 2 * Pow(2, 0) == 2;
    SquareStep(2, 1, 2, 4);
    MultiplyStep(2, 2, 4, 8);
    SquareStep(2, 3, 8, 64);
    MultiplyStep(2, 6, 64, 128);
    SquareStep(2, 7, 128, 16384);
    MultiplyStep(2, 14, 16384, 32768);
    SquareStep(2, 15, 32768, 1073741824);
    MultiplyStep(2, 30, 1073741824, 1);
  }

  const ROOT331: nat := 1090433

  lemma RootTo331()
    ensures Congruent(Pow(ROOT331, 331), 1, M31_P)
  {
    hide Pow;
    PowFirst(ROOT331);
    SquareStep(ROOT331, 1, 1090433, 1485670698);
    SquareStep(ROOT331, 2, 1485670698, 2131047422);
    MultiplyStep(ROOT331, 4, 2131047422, 296382437);
    SquareStep(ROOT331, 5, 296382437, 964463491);
    SquareStep(ROOT331, 10, 964463491, 1656810104);
    SquareStep(ROOT331, 20, 1656810104, 921707017);
    MultiplyStep(ROOT331, 40, 921707017, 893650362);
    SquareStep(ROOT331, 41, 893650362, 622543880);
    SquareStep(ROOT331, 82, 622543880, 1183189347);
    MultiplyStep(ROOT331, 164, 1183189347, 2008936121);
    SquareStep(ROOT331, 165, 2008936121, 1238025062);
    MultiplyStep(ROOT331, 330, 1238025062, 1);
  }

  lemma PowFirst(b: int)
    ensures Pow(b, 1) == b
  {
    assert Pow(b, 1) == b * Pow(b, 0);
  }

  /** 1090433 - 1 is a unit modulo 2^31 - 1, hence modulo each of its factors. */
  lemma RootIsNotOne(q: nat)
    requires q >= 2 && M31_P % q == 0
    ensures !Congruent(ROOT331, 1, q)
  {
    if Congruent(ROOT331, 1, q) {
      var k := MultipleOfCongruent(ROOT331, 1, q);
      var u := 1286122590;
      assert Congruent((ROOT331 - 1) * u, 1, M31_P);
      CongruentModDivisor((ROOT331 - 1) * u, 1, M31_P, q);
      assert (q * k) * u == q * (k * u);
      CongruentByMultiple((ROOT331 - 1) * u, 0, q, k * u);
      assert false;
    }
  }

  lemma TwoIsNotOne(q: nat)
    requires q >= 2
    ensures !Congruent(2, 1, q)
  {
  }

  /** 2^31 - 1 is prime. */
  lemma M31IsPrime()
    ensures IsPrime(M31_P)
  {
    if !IsPrime(M31_P) {
      var q := SmallPrimeFactor(M31_P);
      RootBound(q, 46340, M31_P);
      FactorForm(q);
      NoSmallFactor(q);
    }
  }

  /** The two candidates below the square root do not divide. */
  lemma NoSmallFactor(q: nat)
    requires 2 <= q <= 46340 && (q - 1) % 20522 == 0
    ensures M31_P % q != 0
  {
    assert q == 20523 || q == 41045;
  }

  lemma DivisibleBy31(q: nat)
    requires IsPrime(q) && M31_P % q == 0
    ensures (q - 1) % 31 == 0
  {
    ThirtyOneIsPrime();
    TwoTo31();
    hide Pow, Congruent, IsPrime;
    assert q >= 2 by { OddFactor(q); }
    CongruentModDivisor(Pow(2, 31), 1, M31_P, q);
    TwoIsNotOne(q);
    OrderDivides(2, 31, q);
  }

  lemma DivisibleBy331(q: nat)
    requires IsPrime(q) && M31_P % q == 0
    ensures (q - 1) % 331 == 0
  {
    hide Pow, Congruent, IsPrime;
    ThreeThirtyOneIsPrime();
    RootTo331();
    assert q >= 2 by { OddFactor(q); }
    CongruentModDivisor(Pow(ROOT331, 331), 1, M31_P, q);
    RootIsNotOne(q);
    OrderDivides(ROOT331, 331, q);
  }

  lemma FactorForm(q: nat)
    requires IsPrime(q) && M31_P % q == 0
    ensures (q - 1) % 20522 == 0
  {
    ThreeThirtyOneIsPrime();
    TwoIsPrime();
    hide IsPrime;
    OddFactor(q);
    DivisibleBy31(q);
    DivisibleBy331(q);
    CombinedThree(q - 1, 31, 331, 2);
  }

  lemma CombinedThree(n: nat, a: nat, b: nat, c: nat)
    requires a >= 1 && IsPrime(b) && IsPrime(c) && a % b != 0 && (a * b) % c != 0
    requires n % a == 0 && n % b == 0 && n % c == 0
    ensures n % (a * b * c) == 0
  {
    Combined(n, a, b);
    Combined(n, a * b, c);
  }

  lemma TwoIsPrime()
    ensures IsPrime(2)
  {
  }

  lemma Combined(n: nat, a: nat, p: nat)
    requires a >= 1 && IsPrime(p) && a % p != 0 && n % a == 0 && n % p == 0
    ensures n % (a * p) == 0
  {
    var b := n / a;
    assert a * b == n;
    EuclidsLemma(a, b, p);
    var c := b / p;
    assert a * (p * c) == (a * p) * c;
    CongruentByMultiple(n, 0, a * p, c);
  }

  lemma OddFactor(q: nat)
    requires IsPrime(q) && M31_P % q == 0
    ensures q >= 2 && (q - 1) % 2 == 0
  {
    if q > 2 {
      assert q % 2 != 0;
    }
  }
}
