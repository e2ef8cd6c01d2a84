/**
 * The ML-DSA addition AIR (stark_stwo/src/mldsa_poly_add_air.rs): two constraints over
 * the field of order 2^31 - 1 for addition modulo q (FIPS 204, section 4).
 */
module PolyAdd {
  import opened Prelude
  import opened NumberTheory
  import opened Mersenne31
  import opened M31

  const Q: nat := 8380417

  const N: nat := 256

  datatype Row = Row(a: Felt, b: Felt, c: Felt, carry: Felt)

  lemma SubClosed(a: Felt, b: Felt)
    ensures 0 <= Sub(a, b) < M31_P
  {
  }

  /** a + b - c - carry * q in the field. */
  function FirstConstraint(r: Row): Felt {
    AddIsSum(r.a, r.b);
    MulIsProduct(r.carry, Q);
    SubClosed(Add(r.a, r.b), r.c);
    SubClosed(Sub(Add(r.a, r.b), r.c), Mul(r.carry, Q));
    Sub(Sub(Add(r.a, r.b), r.c), Mul(r.carry, Q))
  }

  /** carry^2 - carry. */
  function SecondConstraint(r: Row): Felt {
    MulIsProduct(r.carry, r.carry);
    SubClosed(Mul(r.carry, r.carry), r.carry);
    Sub(Mul(r.carry, r.carry), r.carry)
  }

  predicate Satisfied(r: Row) {
    FirstConstraint(r) == 0 && SecondConstraint(r) == 0
  }

  lemma SubIsZero(a: Felt, b: Felt)
    ensures Sub(a, b) == 0 <==> a == b
  {
  }

  /** The second constraint says the carry is a bit, because 2^31 - 1 is prime. */
  lemma CarryIsBit(r: Row)
    ensures SecondConstraint(r) == 0 <==> r.carry <= 1
  {
    hide Mul, Sub;
    var c := r.carry;
    MulIsProduct(c, c);
    SubIsZero(Mul(c, c), c);
    if SecondConstraint(r) == 0 {
      FixedBySquaring(c);
    }
  }

  lemma FixedBySquaring(c: Felt)
    requires (c * c) % M31_P == c
    ensures c <= 1
  {
    M31IsPrime();
    var k := MultipleOfCongruent(c * c, c, M31_P);
    assert c * (c - 1) == c * c - c;
    CongruentByMultiple(c * (c - 1), 0, M31_P, k);
    EuclidsLemma(c, c - 1, M31_P);
  }

  /** The first constraint, for operands in range and a carry bit, over the integers. */
  lemma SumConstraint(r: Row)
    requires r.a < Q && r.b < Q && r.carry <= 1
    ensures FirstConstraint(r) == 0 <==>
            r.a + r.b - r.carry * Q == if r.a + r.b >= r.c then r.c else r.c - M31_P
  {
    MulIsProduct(r.carry, Q);
    SubClosed(Add(r.a, r.b), r.c);
    SubIsZero(Sub(Add(r.a, r.b), r.c), Mul(r.carry, Q));
    hide Mul;
    assert Mul(r.carry, Q) == r.carry * Q;
  }

  predicate InRange(v: nat) {
    v < Q
  }

  predicate Adds(r: Row) {
    r.c == (r.a + r.b) % Q && r.carry == if r.a + r.b >= Q then 1 else 0
  }

  lemma Residue(s: nat)
    requires s < 2 * Q
    ensures s % Q == if s >= Q then s - Q else s
  {
    QuotientUnique(s, Q, if s >= Q then 1 else 0, if s >= Q then s - Q else s);
  }

  /** Sound and complete: rows in range satisfy both constraints iff they add modulo q
      and the carry says whether the sum reaches q. */
  lemma ExactInRange(r: Row)
    requires InRange(r.a) && InRange(r.b) && InRange(r.c)
    ensures Satisfied(r) <==> Adds(r)
  {
    hide FirstConstraint, SecondConstraint;
    CarryIsBit(r);
    Residue(r.a + r.b);
    if r.carry <= 1 {
      SumConstraint(r);
    }
  }

  /** The other row the constraints admit: the wrong carry, with a sum outside the range. */
  predicate WrapsAround(r: Row) {
    if r.a + r.b >= Q then r.carry == 0 && r.c == r.a + r.b
    else r.carry == 1 && r.c == r.a + r.b - Q + M31_P
  }

  /** The range of c, which no constraint of this AIR enforces, is what the soundness rests
      on: for operands in range exactly two rows satisfy the constraints, the sum modulo q
      and one whose c lies outside [0, q). */
  lemma ExactlyTwoRows(r: Row)
    requires InRange(r.a) && InRange(r.b)
    ensures Satisfied(r) <==> Adds(r) || WrapsAround(r)
    ensures Adds(r) ==> InRange(r.c)
    ensures WrapsAround(r) ==> !InRange(r.c)
  {
    hide FirstConstraint, SecondConstraint;
    CarryIsBit(r);
    Residue(r.a + r.b);
    if r.carry <= 1 {
      SumConstraint(r);
    }
  }

  // ------------------------------------------------------------ the trace

  const TWO63: int := 0x8000_0000_0000_0000

  type I64 = x: int | -TWO63 <= x < TWO63 witness 0

  type Word = w: nat | w < 0x1_0000_0000

  /** The sum of two i64 values, wrapping. */
  function Wrapped(x: int): I64 {
    (x + TWO63) % (2 * TWO63) - TWO63
  }

  /** An i64 cast to u32. */
  function ToWord(x: int): Word {
    x % 0x1_0000_0000
  }

  datatype Columns = Columns(a: seq<Word>, b: seq<Word>, c: seq<Word>, carry: seq<Word>)

  function Carried(a: I64, b: I64): int {
    if Wrapped(a as int + b as int) >= Q then 1 else 0
  }

  function SumOf(a: I64, b: I64): int {
    Wrapped(a as int + b as int) - Carried(a, b) * Q
  }

  /** Row i of the columns is a row of field elements that satisfies both constraints. */
  ghost predicate SatisfiedAt(t: Columns, i: nat)
    requires i < |t.a| && i < |t.b| && i < |t.c| && i < |t.carry|
  {
    && t.a[i] < M31_P && t.b[i] < M31_P && t.c[i] < M31_P && t.carry[i] < M31_P
    && Satisfied(Row(t.a[i], t.b[i], t.c[i], t.carry[i]))
  }

  lemma InRangeRow(a: I64, b: I64)
    requires 0 <= a < Q && 0 <= b < Q
    ensures SumOf(a, b) == (a + b) % Q && ToWord(a) == a && ToWord(b) == b && ToWord(SumOf(a, b)) == SumOf(a, b)
    ensures Satisfied(Row(a, b, SumOf(a, b), Carried(a, b)))
  {
    hide Satisfied;
    Residue(a + b);
    ExactInRange(Row(a, b, SumOf(a, b), Carried(a, b)));
  }

  /** The trace loop, for any i64 coefficients.  Where both are in [0, q) the sum is that
      modulo q and the row satisfies every constraint. */
  method BuildTrace(a: seq<I64>, b: seq<I64>) returns (t: Columns, sum: seq<int>)
    requires |a| == |b| == N
    ensures |t.a| == |t.b| == |t.c| == |t.carry| == |sum| == N
    ensures forall i | 0 <= i < N ::
      && sum[i] == SumOf(a[i], b[i]) && t.a[i] == ToWord(a[i]) && t.b[i] == ToWord(b[i])
      && t.c[i] == ToWord(sum[i]) && t.carry[i] == Carried(a[i], b[i])
    ensures forall i | 0 <= i < N && 0 <= a[i] < Q && 0 <= b[i] < Q ::
      sum[i] == (a[i] + b[i]) % Q && SatisfiedAt(t, i)
  {
    hide Satisfied, Wrapped, ToWord;
    var aCol: seq<Word>, bCol: seq<Word> := seq(N, _ => 0), seq(N, _ => 0);
    var cCol: seq<Word>, carryCol: seq<Word> := seq(N, _ => 0), seq(N, _ => 0);
    sum := seq(N, _ => 0);
    for i := 0 to N
      invariant |aCol| == |bCol| == |cCol| == |carryCol| == |sum| == N
      invariant forall k | 0 <= k < i ::
        && sum[k] == SumOf(a[k], b[k]) && aCol[k] == ToWord(a[k]) && bCol[k] == ToWord(b[k])
        && cCol[k] == ToWord(sum[k]) && carryCol[k] == Carried(a[k], b[k])
    {
      var raw: int := Wrapped(a[i] as int + b[i] as int);
      var carry := if raw >= Q then 1 else 0;
      var value := raw - carry * Q;
      sum := sum[i := value];
      aCol, bCol := aCol[i := ToWord(a[i])], bCol[i := ToWord(b[i])];
      cCol, carryCol := cCol[i := ToWord(value)], carryCol[i := carry];
    }
    t := Columns(aCol, bCol, cCol, carryCol);
    forall i | 0 <= i < N && 0 <= a[i] < Q && 0 <= b[i] < Q ensures sum[i] == (a[i] + b[i]) % Q && SatisfiedAt(t, i) {
      InRangeRow(a[i], b[i]);
    }
  }
}
