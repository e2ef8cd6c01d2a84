/** Primes, modular inverses, the binomial theorem and Fermat's little theorem. */
module NumberTheory {
  import opened Prelude

  ghost predicate IsPrime(p: nat) {
    p >= 2 && forall d | 2 <= d < p :: p % d != 0
  }

  function Pow(a: int, n: nat): int {
    if n == 0 then 1 else a * Pow(a, n - 1)
  }

  lemma PowNext(a: int, n: nat)
    requires n > 0
    ensures Pow(a, n) == a * Pow(a, n - 1)
  {
  }

  /** a and b leave the same remainder. */
  ghost predicate Congruent(a: int, b: int, m: int)
    requires m > 0
  {
    a % m == b % m
  }

  // ------------------------------------------------------------ congruences

  /** The definition by multiples. */
  lemma CongruentByMultiple(a: int, b: int, m: int, k: int)
    requires m > 0 && a == b + m * k
    ensures Congruent(a, b, m)
  {
    var q, r := b / m, b % m;
    assert m * (q + k) == m * q + m * k;
    QuotientUnique(a, m, q + k, r);
  }

  lemma MultipleOfCongruent(a: int, b: int, m: int) returns (k: int)
    requires m > 0 && Congruent(a, b, m)
    ensures a == b + m * k
  {
    k := a / m - b / m;
    assert m * k == m * (a / m) - m * (b / m);
  }

  lemma CongruentTrans(a: int, b: int, c: int, m: int)
    requires m > 0 && Congruent(a, b, m) && Congruent(b, c, m)
    ensures Congruent(a, c, m) && Congruent(c, a, m)
  {
  }

  lemma CongruentAdd(a: int, b: int, c: int, d: int, m: int)
    requires m > 0 && Congruent(a, b, m) && Congruent(c, d, m)
    ensures Congruent(a + c, b + d, m)
  {
    var k := MultipleOfCongruent(a, b, m);
    var l := MultipleOfCongruent(c, d, m);
    assert m * (k + l) == m * k + m * l;
    CongruentByMultiple(a + c, b + d, m, k + l);
  }

  lemma CongruentMul(a: int, b: int, c: int, d: int, m: int)
    requires m > 0 && Congruent(a, b, m) && Congruent(c, d, m)
    ensures Congruent(a * c, b * d, m)
  {
    var k := MultipleOfCongruent(a, b, m);
    var l := MultipleOfCongruent(c, d, m);
    ExpandProduct(b, d, m, k, l);
    CongruentByMultiple(a * c, b * d, m, b * l + d * k + m * (k * l));
  }

  lemma ExpandProduct(b: int, d: int, m: int, k: int, l: int)
    ensures (b + m * k) * (d + m * l) == b * d + m * (b * l + d * k + m * (k * l))
  {
    assert (b + m * k) * (d + m * l) == b * d + b * (m * l) + (m * k) * d + (m * k) * (m * l);
    assert b * (m * l) == m * (b * l);
    assert (m * k) * d == m * (d * k);
    assert (m * k) * (m * l) == m * (m * (k * l));
  }

  lemma {:induction false} CongruentPow(a: int, b: int, n: nat, m: int)
    requires m > 0 && Congruent(a, b, m)
    ensures Congruent(Pow(a, n), Pow(b, n), m)
  {
    if n > 0 {
      CongruentPow(a, b, n - 1, m);
      CongruentMul(a, b, Pow(a, n - 1), Pow(b, n - 1), m);
    }
  }

  lemma {:induction false} PowAdds(a: int, m: nat, n: nat)
    ensures Pow(a, m + n) == Pow(a, m) * Pow(a, n)
  {
    if m > 0 {
      PowAdds(a, m - 1, n);
      MulAssociates(a, Pow(a, m - 1), Pow(a, n));
    }
  }

  lemma {:induction false} PowMuls(a: int, m: nat, n: nat)
    ensures Pow(a, m * n) == Pow(Pow(a, m), n)
  {
    if n == 0 {
      assert m * n == 0;
    } else {
      PowMuls(a, m, n - 1);
      assert m * n == m + m * (n - 1);
      PowAdds(a, m, m * (n - 1));
    }
  }

  lemma {:induction false} PowOfOne(n: nat)
    ensures Pow(1, n) == 1
  {
    if n > 0 {
      PowOfOne(n - 1);
    }
  }

  // ------------------------------------------------------------ inverses

  /** Every nonzero residue of a prime has an inverse. */
  lemma {:induction false} Inverse(a: int, p: nat) returns (u: int)
    requires IsPrime(p) && 0 < a < p
    ensures Congruent(a * u, 1, p)
    decreases a
  {
    if a == 1 {
      u := 1;
    } else {
      var q, r := p / a, p % a;
      var v := Inverse(r, p);
      u := -q * v;
      assert a * u == r * v - p * v by {
        assert p == a * q + r;
        InverseStep(a, q, r, v);
      }
      CongruentByMultiple(a * u, r * v, p, -v);
    }
  }

  lemma InverseStep(a: int, q: int, r: int, v: int)
    ensures a * (-q * v) == r * v - (a * q + r) * v
  {
    assert (a * q + r) * v == (a * q) * v + r * v;
    assert a * (-q * v) == -((a * q) * v);
  }

  lemma Rotate(u: int, a: int, b: int)
    ensures u * (a * b) == (a * u) * b
  {
  }

  /** Euclid's lemma, as cancellation. */
  lemma CancelFactor(a: int, b: int, c: int, p: nat)
    requires IsPrime(p) && a % p != 0 && Congruent(a * b, a * c, p)
    ensures Congruent(b, c, p)
  {
    var u := UnitInverse(a, p);
    CongruentMul(a * u, 1, b, b, p);
    CongruentMul(a * u, 1, c, c, p);
    CongruentMul(u, u, a * b, a * c, p);
    Rotate(u, a, b);
    Rotate(u, a, c);
  }

  lemma UnitInverse(a: int, p: nat) returns (u: int)
    requires IsPrime(p) && a % p != 0
    ensures Congruent(a * u, 1, p)
  {
    u := Inverse(a % p, p);
    CongruentMod(a, p);
    CongruentMul(a, a % p, u, u, p);
  }

  lemma CongruentMod(a: int, m: int)
    requires m > 0
    ensures Congruent(a, a % m, m)
  {
    CongruentByMultiple(a, a % m, m, a / m);
  }

  lemma EuclidsLemma(a: int, b: int, p: nat)
    requires IsPrime(p) && (a * b) % p == 0
    ensures a % p == 0 || b % p == 0
  {
    if a % p != 0 {
      assert a * 0 == 0;
      CancelFactor(a, b, 0, p);
    }
  }

  // ------------------------------------------------------------ binomials

  function Choose(n: nat, k: nat): nat {
    if k == 0 then 1 else if n == 0 then 0 else Choose(n - 1, k) + Choose(n - 1, k - 1)
  }

  lemma {:induction false} ChooseBeyond(n: nat, k: nat)
    requires k > n
    ensures Choose(n, k) == 0
  {
    if n > 0 {
      ChooseBeyond(n - 1, k);
      ChooseBeyond(n - 1, k - 1);
    }
  }

  lemma Pascal(n: nat, k: nat)
    requires n >= 1 && k >= 1
    ensures Choose(n, k) == Choose(n - 1, k) + Choose(n - 1, k - 1)
  {
  }

  /** k * C(n, k) == n * C(n - 1, k - 1). */
  lemma {:induction false} ChooseAbsorbs(n: nat, k: nat)
    requires n >= 1 && k >= 1
    ensures k * Choose(n, k) == n * Choose(n - 1, k - 1)
  {
    if n == 1 {
      ChooseSmall(k);
    } else if k == 1 {
      ChooseAbsorbs(n - 1, 1);
    } else {
      hide Choose;
      ChooseAbsorbs(n - 1, k);
      ChooseAbsorbs(n - 1, k - 1);
      Pascal(n, k);
      Pascal(n - 1, k - 1);
      AbsorbStep(n, k, Choose(n - 1, k), Choose(n - 1, k - 1), Choose(n - 2, k - 1), Choose(n - 2, k - 2));
    }
  }

  lemma ChooseSmall(k: nat)
    requires k >= 1
    ensures k * Choose(1, k) == Choose(0, k - 1)
  {
    if k == 1 {
      assert Choose(1, 1) == Choose(0, 1) + Choose(0, 0) == 1;
    } else {
      ChooseBeyond(1, k);
      ChooseBeyond(0, k - 1);
    }
  }

  lemma AbsorbStep(n: int, k: int, x: int, y: int, s: int, t: int)
    requires k * x == (n - 1) * s && (k - 1) * y == (n - 1) * t && y == s + t
    ensures k * (x + y) == n * y
  {
    Distribute(k, x, y);
    Distribute(y, k - 1, 1);
    Distribute(n - 1, s, t);
    Distribute(y, n - 1, 1);
  }

  lemma Distribute(a: int, b: int, c: int)
    ensures a * (b + c) == a * b + a * c == (b + c) * a
  {
  }

  /** The first k + 1 terms of the expansion of (a + 1)^n. */
  function Expansion(a: int, n: nat, k: nat): int {
    Choose(n, k) * Pow(a, k) + if k == 0 then 0 else Expansion(a, n, k - 1)
  }

  lemma {:induction false} ExpansionRow(a: int, n: nat, k: nat)
    ensures Expansion(a, n + 1, k) == Expansion(a, n, k) + if k == 0 then 0 else a * Expansion(a, n, k - 1)
  {
    if k > 0 {
      ExpansionRow(a, n, k - 1);
      Pascal(n + 1, k);
      var rest := if k == 1 then 0 else Expansion(a, n, k - 2);
      RowStep(a, Choose(n, k), Choose(n, k - 1), Pow(a, k - 1), rest);
    }
  }

  lemma RowStep(a: int, x: int, y: int, z: int, rest: int)
    ensures (x + y) * (a * z) + a * rest == x * (a * z) + a * (y * z + rest)
  {
    Distribute(a * z, x, y);
    Distribute(a, y * z, rest);
    MulAssociates(y, a, z);
    MulAssociates(a, y, z);
  }

  /** The binomial theorem. */
  lemma {:induction false} Binomial(a: int, n: nat)
    ensures Expansion(a, n, n) == Pow(a + 1, n)
  {
    hide Choose, Expansion, Pow;
    if n == 0 {
      BinomialOfNone(a);
    } else {
      PowNext(a + 1, n);
      Binomial(a, n - 1);
      ExpansionRow(a, n - 1, n);
      ExpansionEnds(a, n - 1);
      var last := Expansion(a, n - 1, n - 1);
      Distribute(last, a, 1);
    }
  }

  lemma BinomialOfNone(a: int)
    ensures Expansion(a, 0, 0) == Pow(a + 1, 0)
  {
  }

  lemma ExpansionEnds(a: int, n: nat)
    ensures Expansion(a, n, n + 1) == Expansion(a, n, n)
  {
    ChooseBeyond(n, n + 1);
    assert 0 * Pow(a, n + 1) == 0;
  }

  lemma MiddleCoefficient(p: nat, k: nat)
    requires IsPrime(p) && 0 < k < p
    ensures Choose(p, k) % p == 0
  {
    ChooseAbsorbs(p, k);
    FactorOfPrimeMultiple(p, k, Choose(p, k), Choose(p - 1, k - 1));
  }

  lemma FactorOfPrimeMultiple(p: nat, k: nat, x: int, c: int)
    requires IsPrime(p) && 0 < k < p && k * x == p * c
    ensures x % p == 0
  {
    CongruentByMultiple(p * c, 0, p, c);
    EuclidsLemma(k, x, p);
  }

  lemma {:induction false} ExpansionModPrime(a: int, p: nat, k: nat)
    requires IsPrime(p) && k < p
    ensures Congruent(Expansion(a, p, k), 1, p)
  {
    if k > 0 {
      ExpansionModPrime(a, p, k - 1);
      MiddleCoefficient(p, k);
      CongruentMul(Choose(p, k), 0, Pow(a, k), Pow(a, k), p);
      CongruentAdd(Choose(p, k) * Pow(a, k), 0, Expansion(a, p, k - 1), 1, p);
    }
  }

  lemma {:induction false} ChooseAll(n: nat)
    ensures Choose(n, n) == 1
  {
    if n > 0 {
      ChooseAll(n - 1);
      ChooseBeyond(n - 1, n);
    }
  }

  /** Fermat's little theorem: a^p leaves the remainder of a. */
  lemma {:induction false} Fermat(a: nat, p: nat)
    requires IsPrime(p)
    ensures Congruent(Pow(a, p), a, p)
  {
    if a > 0 {
      var b := a - 1;
      Fermat(b, p);
      Binomial(b, p);
      ChooseAll(p);
      ExpansionModPrime(b, p, p - 1);
      CongruentAdd(Pow(b, p), b, Expansion(b, p, p - 1), 1, p);
    }
  }

  /** For a not divisible by p: a^(p-1) leaves remainder one. */
  lemma FermatUnit(a: nat, p: nat)
    requires IsPrime(p) && a % p != 0
    ensures Congruent(Pow(a, p - 1), 1, p)
  {
    Fermat(a, p);
    CancelFactor(a, Pow(a, p - 1), 1, p);
  }
}
