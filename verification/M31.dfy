/**
 * The Mersenne field M31 and the Poseidon2 permutation of width two
 * (stark_stwo/src/poseidon2.rs, field helpers of stark_stwo/src/vfri2_bridge.rs).
 * A u64 is a nat; masks and shifts by 31 bits are remainders and quotients by 2^31.
 */
module M31 {
  import opened Prelude
  import opened NumberTheory
  import opened Mersenne31

  const TWO31: nat := 0x8000_0000
  const TWO64: nat := 0x1_0000_0000_0000_0000

  type Felt = x: nat | x < M31_P

  // ------------------------------------------------------------ arithmetic

  function Add(a: nat, b: nat): nat {
    var s := a + b;
    if s >= M31_P then s - M31_P else s
  }

  /** m31_mul on u64 values: a product that overflows wraps. */
  function Mul(a: nat, b: nat): nat {
    var r := a * b % TWO64;
    var s := r % TWO31 + r / TWO31;
    if s >= M31_P then s - M31_P else s
  }

  function Sub(a: nat, b: nat): int {
    if a >= b then a - b else a + M31_P - b
  }

  lemma SubIsDifference(a: Felt, b: Felt)
    ensures Sub(a, b) == (a - b) % M31_P
  {
  }

  /** The single conditional subtraction reduces fully. */
  lemma AddIsSum(a: Felt, b: Felt)
    ensures Add(a, b) == (a + b) % M31_P
  {
  }

  /** Folding the high half onto the low half reduces a product modulo 2^31 - 1,
      with no overflow of 64 bits. */
  lemma MulIsProduct(a: Felt, b: Felt)
    ensures Mul(a, b) == (a * b) % M31_P && Mul(a, b) < M31_P
    ensures a * b < TWO64
  {
    ProductBelow(a, b, M31_P - 1);
    var r := a * b;
    QuotientUnique(r, TWO64, 0, r);
    var lo, hi := r % TWO31, r / TWO31;
    assert r == M31_P * hi + (lo + hi);
    if lo + hi >= M31_P {
      QuotientUnique(r, M31_P, hi + 1, lo + hi - M31_P);
    } else {
      QuotientUnique(r, M31_P, hi, lo + hi);
    }
  }

  lemma ProductBelow(a: nat, b: nat, m: nat)
    requires a <= m && b <= m
    ensures a * b <= m * m
  {
    assert a * b <= a * m <= m * m;
  }

  function Sbox(x: nat): nat {
    var x2 := Mul(x, x);
    Mul(Mul(x2, x2), x)
  }

  lemma SboxIsFifthPower(x: Felt)
    ensures Sbox(x) == Pow(x, 5) % M31_P
  {
    var x2 := Mul(x, x);
    MulIsProduct(x, x);
    MulIsProduct(x2, x2);
    var x4 := Mul(x2, x2);
    MulIsProduct(x4, x);
    CongruentMod(x * x, M31_P);
    CongruentMul(x2, x * x, x2, x * x, M31_P);
    CongruentMod(x2 * x2, M31_P);
    CongruentMul(x4, (x * x) * (x * x), x, x, M31_P);
    FifthPower(x);
  }

  lemma FifthPower(x: int)
    ensures Pow(x, 5) == ((x * x) * (x * x)) * x
  {
    assert Pow(x, 1) == x * Pow(x, 0) == x;
    PowAdds(x, 1, 1);
    PowAdds(x, 2, 2);
    PowAdds(x, 4, 1);
  }

  // ------------------------------------------------------- Poseidon2, t = 2

  datatype Pair = Pair(s0: nat, s1: nat)

  predicate Reduced(s: Pair) {
    s.s0 < M31_P && s.s1 < M31_P
  }

  const ROUNDS: nat := 8

  /** The constants of full round r. */
  function RC(r: nat): Pair
    requires r < ROUNDS
  {
    [Pair(1779033703, 996650630), Pair(1013904242, 625997115),
     Pair(1359893119, 453339277), Pair(528734635, 1541459225),
     Pair(1116352408, 1899447441), Pair(901839824, 1773525926),
     Pair(961987163, 1508970993), Pair(306152101, 723279574)][r]
  }

  function Mds(s: Pair): Pair {
    var threeA := Add(Add(s.s0, s.s0), s.s0);
    var threeB := Add(Add(s.s1, s.s1), s.s1);
    Pair(Add(threeA, s.s1), Add(s.s0, threeB))
  }

  function Round(s: Pair, rc: Pair): Pair {
    Mds(Pair(Sbox(Add(s.s0, rc.s0)), Sbox(Add(s.s1, rc.s1))))
  }

  /** The first n rounds. */
  function Rounds(s: Pair, n: nat): Pair
    requires n <= ROUNDS
  {
    if n == 0 then s else Round(Rounds(s, n - 1), RC(n - 1))
  }

  function Permute(s: Pair): Pair {
    Rounds(s, ROUNDS)
  }

  method PermuteInPlace(s: array<nat>)
    requires s.Length == 2
    modifies s
    ensures Pair(s[0], s[1]) == Permute(Pair(old(s[0]), old(s[1])))
  {
    for r := 0 to ROUNDS
      invariant Pair(s[0], s[1]) == Rounds(Pair(old(s[0]), old(s[1])), r)
    {
      s[0] := Add(s[0], RC(r).s0);
      s[1] := Add(s[1], RC(r).s1);
      s[0] := Sbox(s[0]);
      s[1] := Sbox(s[1]);
      var threeA := Add(Add(s[0], s[0]), s[0]);
      var threeB := Add(Add(s[1], s[1]), s[1]);
      s[0], s[1] := Add(threeA, s[1]), Add(s[0], threeB);
    }
  }

  lemma ConstantReduced(r: nat)
    requires r < ROUNDS
    ensures Reduced(RC(r))
  {
  }

  lemma SboxReduced(x: Felt)
    ensures Sbox(x) < M31_P
  {
    SboxIsFifthPower(x);
  }

  /** A round over the integers: add the constants, raise to the fifth power, multiply by
      [[3, 1], [1, 3]]. */
  lemma RoundIsFormula(s: Pair, rc: Pair)
    requires Reduced(s) && Reduced(rc)
    ensures var a, b := Pow(s.s0 + rc.s0, 5), Pow(s.s1 + rc.s1, 5);
            Round(s, rc) == Pair((3 * a + b) % M31_P, (a + 3 * b) % M31_P)
  {
    hide Pow, Sbox, Mds, Add;
    FifthOfSum(s.s0, rc.s0);
    FifthOfSum(s.s1, rc.s1);
    var x, y := Sbox(Add(s.s0, rc.s0)), Sbox(Add(s.s1, rc.s1));
    MdsIsLinear(Pair(x, y));
    var a, b := Pow(s.s0 + rc.s0, 5), Pow(s.s1 + rc.s1, 5);
    ThreeAndOne(a, b);
    ThreeAndOne(b, a);
  }

  lemma FifthOfSum(a: Felt, b: Felt)
    ensures Sbox(Add(a, b)) == Pow(a + b, 5) % M31_P < M31_P
  {
    hide Sbox, Pow;
    AddIsSum(a, b);
    SboxIsFifthPower(Add(a, b));
    CongruentMod(a + b, M31_P);
    CongruentPow(Add(a, b), a + b, 5, M31_P);
  }

  lemma ThreeAndOne(a: int, b: int)
    ensures (3 * (a % M31_P) + b % M31_P) % M31_P == (3 * a + b) % M31_P
  {
    var k, l := a / M31_P, b / M31_P;
    CongruentByMultiple(3 * a + b, 3 * (a % M31_P) + b % M31_P, M31_P, 3 * k + l);
  }

  /** The permutation: eight such rounds with the constants in their order. */
  lemma RoundsAreFormulas(s: Pair, n: nat)
    requires Reduced(s) && n < ROUNDS
    ensures Reduced(Rounds(s, n)) && Rounds(s, 0) == s
    ensures var t, c := Rounds(s, n), RC(n);
            var a, b := Pow(t.s0 + c.s0, 5), Pow(t.s1 + c.s1, 5);
            Rounds(s, n + 1) == Pair((3 * a + b) % M31_P, (a + 3 * b) % M31_P)
  {
    hide Round, RC, Pow;
    RoundsReduced(s, n);
    ConstantReduced(n);
    RoundIsFormula(Rounds(s, n), RC(n));
  }

  /** The initial words of SHA-256 (section 5.3.3 of FIPS 180-4), then the first eight of
      its round constants (section 4.2.2). */
  const SHA256_WORDS: seq<nat> :=
    [0x6a09e667, 0xbb67ae85, 0x3c6ef372, 0xa54ff53a, 0x510e527f, 0x9b05688c, 0x1f83d9ab, 0x5be0cd19,
     0x428a2f98, 0x71374491, 0xb5c0fbcf, 0xe9b5dba5, 0x3956c25b, 0x59f111f1, 0x923f82a4, 0xab1c5ed5]

  /** The round constants are the residues of these sixteen words, two to a round. */
  lemma ConstantsAreShaWords(r: nat)
    requires r < ROUNDS
    ensures RC(r) == Pair(SHA256_WORDS[2 * r] % M31_P, SHA256_WORDS[2 * r + 1] % M31_P)
  {
  }

  lemma RoundReduced(s: Pair, rc: Pair)
    requires Reduced(s) && Reduced(rc)
    ensures Reduced(Round(s, rc))
  {
    SboxReduced(Add(s.s0, rc.s0));
    SboxReduced(Add(s.s1, rc.s1));
  }

  /** Field elements stay field elements. */
  lemma {:induction false} RoundsReduced(s: Pair, n: nat)
    requires Reduced(s) && n <= ROUNDS
    ensures Reduced(Rounds(s, n))
  {
    if n > 0 {
      hide Round, RC;
      RoundsReduced(s, n - 1);
      ConstantReduced(n - 1);
      RoundReduced(Rounds(s, n - 1), RC(n - 1));
    }
  }

  // ------------------------------------------------- it is a permutation

  /** 5 * FIFTH_ROOT == 4 * (p - 1) + 1: raising to it undoes the S-box. */
  const FIFTH_ROOT: nat := 1717986917

  lemma RootUndoesFifthPower(x: nat, d: nat)
    requires 5 * d == (M31_P - 1) * 4 + 1
    ensures Congruent(Pow(Pow(x, 5), d), x, M31_P)
  {
    hide Pow;
    M31IsPrime();
    PowMuls(x, 5, d);
    PowAdds(x, (M31_P - 1) * 4, 1);
    PowFirst(x);
    if x % M31_P == 0 {
      CongruentMul(Pow(x, (M31_P - 1) * 4), Pow(x, (M31_P - 1) * 4), x, 0, M31_P);
    } else {
      FermatUnit(x, M31_P);
      PowerOfOneIsOne(x, M31_P - 1, 4, M31_P);
      CongruentMul(Pow(x, (M31_P - 1) * 4), 1, x, x, M31_P);
    }
  }

  /** The S-box is injective on the field: 5 is coprime to p - 1. */
  lemma SboxInjective(x: Felt, y: Felt)
    requires Sbox(x) == Sbox(y)
    ensures x == y
  {
    hide Pow, Sbox;
    SboxIsFifthPower(x);
    SboxIsFifthPower(y);
    RootUndoesFifthPower(x, FIFTH_ROOT);
    RootUndoesFifthPower(y, FIFTH_ROOT);
    CongruentPow(Pow(x, 5), Pow(y, 5), FIFTH_ROOT, M31_P);
    CongruentTrans(Pow(Pow(x, 5), FIFTH_ROOT), Pow(Pow(y, 5), FIFTH_ROOT), y, M31_P);
  }

  /** The matrix [[3, 1], [1, 3]] has the unit 8 as determinant. */
  lemma MdsInjective(s: Pair, t: Pair)
    requires Reduced(s) && Reduced(t) && Mds(s) == Mds(t)
    ensures s == t
  {
    hide Mds;
    MdsIsLinear(s);
    MdsIsLinear(t);
    var k := MultipleOfCongruent(3 * s.s0 + s.s1, 3 * t.s0 + t.s1, M31_P);
    var l := MultipleOfCongruent(s.s0 + 3 * s.s1, t.s0 + 3 * t.s1, M31_P);
    EightIsUnit(s.s0 - t.s0, 3 * k - l);
    EightIsUnit(s.s1 - t.s1, 3 * l - k);
  }

  lemma MdsIsLinear(s: Pair)
    requires Reduced(s)
    ensures Mds(s).s0 == (3 * s.s0 + s.s1) % M31_P && Mds(s).s1 == (s.s0 + 3 * s.s1) % M31_P
  {
    ThreeTimes(s.s0, s.s1);
    ThreeTimes(s.s1, s.s0);
  }

  lemma ThreeTimes(a: Felt, b: Felt)
    ensures Add(Add(Add(a, a), a), b) == Add(b, Add(Add(a, a), a)) == (3 * a + b) % M31_P
  {
  }

  lemma EightIsUnit(a: int, k: int)
    requires 8 * a == M31_P * k && 0 - M31_P < a < M31_P
    ensures a == 0
  {
    // 2^31 - 1 leaves 7 modulo 8, so k is a multiple of 8 and a one of 2^31 - 1.
    assert k == 8 * (M31_P / 8 * k + k - a);
  }

  lemma AddCancels(a: Felt, b: Felt, c: Felt)
    ensures Add(a, c) == Add(b, c) <==> a == b
    ensures Add(c, a) == Add(c, b) <==> a == b
  {
  }

  lemma RoundInjective(s: Pair, t: Pair, rc: Pair)
    requires Reduced(s) && Reduced(t) && Reduced(rc) && Round(s, rc) == Round(t, rc)
    ensures s == t
  {
    hide Sbox, Mds;
    SboxReduced(Add(s.s0, rc.s0));
    SboxReduced(Add(s.s1, rc.s1));
    SboxReduced(Add(t.s0, rc.s0));
    SboxReduced(Add(t.s1, rc.s1));
    MdsInjective(Pair(Sbox(Add(s.s0, rc.s0)), Sbox(Add(s.s1, rc.s1))),
                 Pair(Sbox(Add(t.s0, rc.s0)), Sbox(Add(t.s1, rc.s1))));
    SboxInjective(Add(s.s0, rc.s0), Add(t.s0, rc.s0));
    SboxInjective(Add(s.s1, rc.s1), Add(t.s1, rc.s1));
  }

  lemma {:induction false} RoundsInjective(s: Pair, t: Pair, n: nat)
    requires Reduced(s) && Reduced(t) && n <= ROUNDS && Rounds(s, n) == Rounds(t, n)
    ensures s == t
  {
    if n > 0 {
      hide Round, RC;
      RoundsReduced(s, n - 1);
      RoundsReduced(t, n - 1);
      ConstantReduced(n - 1);
      RoundInjective(Rounds(s, n - 1), Rounds(t, n - 1), RC(n - 1));
      RoundsInjective(s, t, n - 1);
    }
  }

  /** Poseidon2 maps pairs of field elements to pairs of field elements, one to one,
      hence permutes them. */
  lemma PermuteIsPermutation(s: Pair, t: Pair)
    requires Reduced(s) && Reduced(t)
    ensures Reduced(Permute(s))
    ensures Permute(s) == Permute(t) <==> s == t
  {
    RoundsReduced(s, ROUNDS);
    if Permute(s) == Permute(t) {
      RoundsInjective(s, t, ROUNDS);
    }
  }

  // ------------------------------------------------------------ inverses

  /** Square and multiply. */
  method M31Pow(base: Felt, exponent: nat) returns (r: Felt)
    ensures r == Pow(base, exponent) % M31_P
  {
    r := 1;
    var a: Felt, e: nat := base, exponent;
    while e > 0
      invariant Congruent(r * Pow(a, e), Pow(base, exponent), M31_P)
    {
      PowerStep(r, a, e);
      MulIsProduct(r, a);
      MulIsProduct(a, a);
      ghost var b := if e % 2 == 1 then (r * a) % M31_P else r;
      SquaringKeeps(r, a, e, b);
      if e % 2 == 1 {
        r := Mul(r, a);
      }
      a := Mul(a, a);
      e := e / 2;
    }
    assert r * Pow(a, 0) == r;
  }

  lemma PowerStep(r: int, a: int, e: nat)
    requires e > 0
    ensures Pow(a, e) == Pow(a * a, e / 2) * if e % 2 == 1 then a else 1
  {
    PowMuls(a, 2, e / 2);
    PowFirst(a);
    PowAdds(a, 1, 1);
    if e % 2 == 1 {
      assert e == 2 * (e / 2) + 1;
      PowAdds(a, 2 * (e / 2), 1);
    }
  }

  lemma SquaringKeeps(r: Felt, a: Felt, e: nat, b: nat)
    requires e > 0 && b == if e % 2 == 1 then (r * a) % M31_P else r
    ensures Congruent(b * Pow((a * a) % M31_P, e / 2), r * Pow(a, e), M31_P)
  {
    hide Pow;
    PowerStep(r, a, e);
    var factor := if e % 2 == 1 then a else 1;
    CongruentMod(a * a, M31_P);
    CongruentPow((a * a) % M31_P, a * a, e / 2, M31_P);
    CongruentMod(r * a, M31_P);
    CongruentMul(b, r * factor, Pow((a * a) % M31_P, e / 2), Pow(a * a, e / 2), M31_P);
    Regroup(r, factor, Pow(a * a, e / 2));
  }

  lemma Regroup(r: int, f: int, p: int)
    ensures (r * f) * p == r * (p * f)
  {
  }

  function InverseOf(a: Felt): Felt {
    Pow(a, M31_P - 2) % M31_P
  }

  /** Raising to p - 2 inverts every nonzero element. */
  method M31Inv(a: Felt) returns (inv: Felt)
    ensures inv == InverseOf(a)
    ensures a != 0 ==> (a * inv) % M31_P == 1
    ensures a == 0 ==> inv == 0
  {
    inv := M31Pow(a, M31_P - 2);
    InverseByPower(a, M31_P - 2, inv);
  }

  lemma InverseByPower(a: Felt, e: nat, inv: Felt)
    requires e == M31_P - 2 && inv == Pow(a, e) % M31_P
    ensures a != 0 ==> (a * inv) % M31_P == 1
    ensures a == 0 ==> inv == 0
  {
    M31IsPrime();
    CongruentMod(Pow(a, e), M31_P);
    CongruentMul(a, a, inv, Pow(a, e), M31_P);
    assert Pow(a, e + 1) == a * Pow(a, e);
    if a != 0 {
      FermatUnit(a, M31_P);
    } else {
      assert Pow(0, e) == 0 * Pow(0, e - 1);
    }
  }
}
