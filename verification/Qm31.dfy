/**
 * The contract's extension field (contracts/src/verifier/QM31.sol over CM31.sol and
 * M31.sol), as far as a fold adds and multiplies: four words of 32 bits, which nothing
 * keeps below the modulus when they come from the hints.
 */
module Qm31 {
  import opened Mersenne31
  import opened M31
  import opened Poseidon2Channel

  /** a + b * i. */
  datatype Complex = Complex(re: Word, im: Word)

  /** c0 + c1 * u. */
  datatype Element = Element(c0: Complex, c1: Complex)

  /** The words a value is hashed as. */
  function Limbs(v: Element): (ws: seq<Word>)
    ensures |ws| == 4
  {
    [v.c0.re, v.c0.im, v.c1.re, v.c1.im]
  }

  function FromLimbs(ws: seq<Word>): (v: Element)
    requires |ws| == 4
    ensures Limbs(v) == ws
  {
    Element(Complex(ws[0], ws[1]), Complex(ws[2], ws[3]))
  }

  predicate IsReduced(v: Element) {
    forall j | 0 <= j < 4 :: Limbs(v)[j] < M31_P
  }

  /** M31.add: at most one subtraction. */
  function SumOf(a: nat, b: nat): nat {
    if a + b >= M31_P then a + b - M31_P else a + b
  }

  /** M31.sub. */
  function DifferenceOf(a: Felt, b: Felt): Felt {
    if a >= b then a - b else a + M31_P - b
  }

  /** CM31.pack, for parts below 2^33: the imaginary part is not masked, so its 33rd bit
      is or-ed into the real part. */
  function Pack(a: nat, b: nat): Complex {
    var high := b / 0x1_0000_0000;
    Complex((if high % 2 == 1 && a % 2 == 0 then a + 1 else a) % 0x1_0000_0000, b % 0x1_0000_0000)
  }

  function ComplexSum(x: Complex, y: Complex): Complex {
    Pack(SumOf(x.re, y.re), SumOf(x.im, y.im))
  }

  function ComplexProduct(x: Complex, y: Complex): Complex {
    Pack(DifferenceOf((x.re * y.re) % M31_P, (x.im * y.im) % M31_P),
         SumOf((x.re * y.im) % M31_P, (x.im * y.re) % M31_P))
  }

  /** u^2. */
  const R: Complex := Complex(2, 1)

  function Sum(x: Element, y: Element): Element {
    Element(ComplexSum(x.c0, y.c0), ComplexSum(x.c1, y.c1))
  }

  function Product(x: Element, y: Element): Element {
    Element(ComplexSum(ComplexProduct(x.c0, y.c0), ComplexProduct(R, ComplexProduct(x.c1, y.c1))),
            ComplexSum(ComplexProduct(x.c0, y.c1), ComplexProduct(x.c1, y.c0)))
  }

  predicate ComplexReduced(x: Complex) {
    x.re < M31_P && x.im < M31_P
  }

  lemma ReducedParts(v: Element)
    ensures IsReduced(v) <==> ComplexReduced(v.c0) && ComplexReduced(v.c1)
  {
    var ws := Limbs(v);
    assert v.c0.re == ws[0] && v.c0.im == ws[1] && v.c1.re == ws[2] && v.c1.im == ws[3];
  }

  /** Packing reduced parts loses nothing. */
  lemma PackReduced(a: Felt, b: Felt)
    ensures Pack(a, b) == Complex(a, b)
  {
  }

  lemma ComplexSumReduced(x: Complex, y: Complex)
    requires ComplexReduced(x) && ComplexReduced(y)
    ensures ComplexReduced(ComplexSum(x, y))
  {
    hide Pack;
    PackReduced(SumOf(x.re, y.re), SumOf(x.im, y.im));
  }

  lemma ComplexProductReduced(x: Complex, y: Complex)
    ensures ComplexReduced(ComplexProduct(x, y))
  {
    hide Pack, DifferenceOf, SumOf;
    var re, im := DifferenceOf((x.re * y.re) % M31_P, (x.im * y.im) % M31_P), SumOf((x.re * y.im) % M31_P, (x.im * y.re) % M31_P);
    SumOfBelow((x.re * y.im) % M31_P, (x.im * y.re) % M31_P);
    PackReduced(re, im);
  }

  lemma SumOfBelow(a: Felt, b: Felt)
    ensures SumOf(a, b) < M31_P
  {
  }

  /** Sums of reduced elements are reduced. */
  lemma SumReduced(x: Element, y: Element)
    requires IsReduced(x) && IsReduced(y)
    ensures IsReduced(Sum(x, y))
  {
    hide IsReduced, ComplexReduced, ComplexSum;
    ReducedParts(x);
    ReducedParts(y);
    ReducedParts(Sum(x, y));
    ComplexSumReduced(x.c0, y.c0);
    ComplexSumReduced(x.c1, y.c1);
  }

  /** Products are reduced whatever the factors. */
  lemma ProductReduced(x: Element, y: Element)
    ensures IsReduced(Product(x, y))
  {
    hide IsReduced, ComplexReduced, ComplexSum, ComplexProduct;
    ComplexProductReduced(x.c0, y.c0);
    ComplexProductReduced(x.c1, y.c1);
    ComplexProductReduced(R, ComplexProduct(x.c1, y.c1));
    ComplexProductReduced(x.c0, y.c1);
    ComplexProductReduced(x.c1, y.c0);
    ComplexSumReduced(ComplexProduct(x.c0, y.c0), ComplexProduct(R, ComplexProduct(x.c1, y.c1)));
    ComplexSumReduced(ComplexProduct(x.c0, y.c1), ComplexProduct(x.c1, y.c0));
    ReducedParts(Product(x, y));
  }

  /** A sum of two unreduced elements need not be reduced. */
  lemma SumUnreduced()
    ensures exists x, y :: IsReduced(x) && !IsReduced(y) && !IsReduced(Sum(x, y))
  {
    var zero, p := Complex(0, 0), Complex(2 * M31_P, 0);
    var x, y := Element(zero, zero), Element(p, zero);
    ReducedParts(x);
    ReducedParts(y);
    ReducedParts(Sum(x, y));
    assert Sum(x, y).c0.re == M31_P;
  }
}
