/**
 * The hash-chain trace and its AIR (stark/src/trace.rs, stark/src/air.rs) over the
 * 64-bit field of winterfell: h[i+1] = h[i]^3 + leaf[i+1].
 */
module HashChain {
  import opened Prelude
  import opened NumberTheory

  const P: nat := 0xFFFF_FFFF_0000_0001

  const MIN_TRACE_LEN: nat := 8

  type Felt = x: nat | x < P

  type Word64 = w: nat | w < 0x1_0000_0000_0000_0000

  function Add(a: Felt, b: Felt): Felt {
    (a + b) % P
  }

  function Sub(a: Felt, b: Felt): Felt {
    (a - b) % P
  }

  function Mul(a: Felt, b: Felt): Felt {
    (a * b) % P
  }

  /** BaseElement::new: the residue of a 64-bit word. */
  function ToFelt(w: Word64): Felt {
    w % P
  }

  function Cubed(h: Felt, leaf: Felt): Felt {
    Add(Mul(Mul(h, h), h), leaf)
  }

  /** A step of the chain, over the integers. */
  lemma CubedIsFormula(h: Felt, leaf: Felt)
    ensures Cubed(h, leaf) == (h * h * h + leaf) % P
  {
    var square := h * h;
    ResidueOfProduct(square, h);
    ResidueOfSum(square * h, leaf);
  }

  lemma ResidueOfProduct(a: int, b: int)
    ensures ((a % P) * b) % P == (a * b) % P
  {
    CongruentByMultiple(a, a % P, P, a / P);
    CongruentMul(a, a % P, b, b, P);
  }

  lemma ResidueOfSum(a: int, b: int)
    ensures (a % P + b) % P == (a + b) % P
  {
    CongruentByMultiple(a + b, a % P + b, P, a / P);
  }

  // ------------------------------------------------------------ the trace

  /** usize::next_power_of_two, from a power to start with. */
  function NextPower(n: nat, p: nat): nat
    requires p > 0
    decreases if p < n then n - p else 0
  {
    if p < n then NextPower(n, 2 * p) else p
  }

  function TraceLen(n: nat): nat {
    Max(NextPower(n, 1), MIN_TRACE_LEN)
  }

  lemma {:induction false} NextPowerIsLeast(n: nat, k: nat)
    requires k > 0 ==> Pow2(k - 1) < n
    ensures exists d: nat :: NextPower(n, Pow2(k)) == Pow2(d) && d >= k && n <= Pow2(d) && (d > 0 ==> Pow2(d - 1) < n)
    decreases if Pow2(k) < n then n - Pow2(k) else 0
  {
    if Pow2(k) < n {
      NextPowerIsLeast(n, k + 1);
    } else {
      assert NextPower(n, Pow2(k)) == Pow2(k);
    }
  }

  /** The trace length is the least power of two from 8 on that holds all leaves. */
  lemma TraceLenIsLeast(n: nat)
    ensures exists d: nat :: TraceLen(n) == Pow2(d) && d >= 3 && n <= Pow2(d) && (d > 3 ==> Pow2(d - 1) < n)
  {
    NextPowerIsLeast(n, 0);
    var d: nat :| NextPower(n, Pow2(0)) == Pow2(d) && n <= Pow2(d) && (d > 0 ==> Pow2(d - 1) < n);
    assert Pow2(3) == 8;
    if d <= 3 {
      Pow2Monotone(d, 3);
    } else {
      Pow2Monotone(3, d);
    }
  }

  /** The leaves as field elements, padded with zero. */
  function LeafColumn(leaves: seq<Word64>, n: nat): (column: seq<Felt>)
    ensures |column| == n
  {
    seq(n, i requires 0 <= i < n => if i < |leaves| then ToFelt(leaves[i]) else 0)
  }

  /** The chain that starts at h and absorbs the leaves. */
  function Chain(h: Felt, leaves: seq<Felt>): Felt {
    if leaves == [] then h else Cubed(Chain(h, leaves[..|leaves| - 1]), leaves[|leaves| - 1])
  }

  datatype Trace = Trace(h: seq<Felt>, leaf: seq<Felt>)

  ghost predicate WellSized(t: Trace) {
    |t.h| == |t.leaf| > 0
  }

  /** The trace over a leaf column: row i holds the chain over the first i + 1 leaves. */
  ghost predicate Honest(t: Trace) {
    && WellSized(t)
    && forall i | 0 <= i < |t.h| :: t.h[i] == Chain(t.leaf[0], t.leaf[1..i + 1])
  }

  function Commitment(leaves: seq<Word64>): Felt
    requires leaves != []
  {
    var column := LeafColumn(leaves, TraceLen(|leaves|));
    Chain(column[0], column[1..])
  }

  lemma ChainStep(leaf: seq<Felt>, i: nat)
    requires i + 1 < |leaf|
    ensures Chain(leaf[0], leaf[1..i + 2]) == Cubed(Chain(leaf[0], leaf[1..i + 1]), leaf[i + 1])
  {
    hide Cubed;
    assert leaf[1..i + 2][..i] == leaf[1..i + 1];
  }

  lemma ChainStart(leaf: seq<Felt>)
    requires leaf != []
    ensures Chain(leaf[0], leaf[1..1]) == leaf[0]
  {
  }

  method ComputeCommitment(leaves: seq<Word64>) returns (h: Felt)
    requires leaves != []
    ensures h == Commitment(leaves)
  {
    hide Mul, Add, ToFelt, NextPower;
    var n := TraceLen(|leaves|);
    var leaf := LeafColumn(leaves, n);
    h := leaf[0];
    for i := 1 to n
      invariant h == Chain(leaf[0], leaf[1..i])
    {
      assert leaf[1..i + 1][..i - 1] == leaf[1..i];
      h := Add(Mul(Mul(h, h), h), leaf[i]);
    }
    assert leaf[1..n] == leaf[1..];
  }

  method BuildTrace(leaves: seq<Word64>) returns (t: Trace)
    requires leaves != []
    ensures |t.h| == TraceLen(|leaves|) && t.leaf == LeafColumn(leaves, TraceLen(|leaves|)) && Honest(t)
    ensures t.h[|t.h| - 1] == Commitment(leaves)
  {
    hide Mul, Add, ToFelt, NextPower, Chain;
    var n := TraceLen(|leaves|);
    var leaf := LeafColumn(leaves, n);
    ChainStart(leaf);
    var hs: seq<Felt>, ls: seq<Felt> := seq(n, _ => 0), seq(n, _ => 0);
    var s0, s1 := leaf[0], leaf[0];
    hs, ls := hs[0 := s0], ls[0 := s1];
    for step := 0 to n - 1
      invariant |hs| == |ls| == n
      invariant s0 == Chain(leaf[0], leaf[1..step + 1])
      invariant forall i | 0 <= i <= step :: ls[i] == leaf[i] && hs[i] == Chain(leaf[0], leaf[1..i + 1])
    {
      ChainStep(leaf, step);
      s0 := Add(Mul(Mul(s0, s0), s0), leaf[step + 1]);
      s1 := leaf[step + 1];
      hs, ls := hs[step + 1 := s0], ls[step + 1 := s1];
    }
    assert ls == leaf;
    assert leaf[1..n] == leaf[1..];
    t := Trace(hs, ls);
  }

  // ------------------------------------------------------------ the AIR

  method EvaluateTransition(currH: Felt, nextH: Felt, nextLeaf: Felt, result: array<Felt>)
    requires result.Length >= 1
    modifies result
    ensures result[0] == 0 <==> nextH == Cubed(currH, nextLeaf)
    ensures forall i | 1 <= i < result.Length :: result[i] == old(result[i])
  {
    hide Mul, Add;
    var expected := Add(Mul(Mul(currH, currH), currH), nextLeaf);
    SubIsZero(nextH, expected);
    result[0] := Sub(nextH, expected);
  }

  lemma SubIsZero(a: Felt, b: Felt)
    ensures Sub(a, b) == 0 <==> a == b
  {
  }

  /** The single assertion: column 0 of the last row. */
  function Assertions(n: nat, commitment: Felt): seq<(nat, nat, Felt)>
    requires n > 0
  {
    [(0, n - 1, commitment)]
  }

  /** Every transition constraint vanishes and the boundary assertion holds. */
  ghost predicate Accepted(t: Trace, commitment: Felt) {
    && WellSized(t)
    && (forall i | 0 <= i < |t.h| - 1 :: Sub(t.h[i + 1], Cubed(t.h[i], t.leaf[i + 1])) == 0)
    && (forall a | a in Assertions(|t.h|, commitment) :: (if a.0 == 0 then t.h else t.leaf)[a.1] == a.2)
  }

  lemma AcceptedMeans(t: Trace, commitment: Felt)
    requires WellSized(t)
    ensures Accepted(t, commitment) <==>
      && (forall i | 0 <= i < |t.h| - 1 :: t.h[i + 1] == Cubed(t.h[i], t.leaf[i + 1]))
      && t.h[|t.h| - 1] == commitment
  {
    hide Cubed, Sub;
    forall i | 0 <= i < |t.h| - 1
      ensures Sub(t.h[i + 1], Cubed(t.h[i], t.leaf[i + 1])) == 0 <==> t.h[i + 1] == Cubed(t.h[i], t.leaf[i + 1])
    {
      SubIsZero(t.h[i + 1], Cubed(t.h[i], t.leaf[i + 1]));
    }
    assert (0, |t.h| - 1, commitment) in Assertions(|t.h|, commitment);
  }

  /** The same trace with its first leaf set to its first hash. */
  function Anchored(t: Trace): Trace
    requires t.h != [] && t.leaf != []
  {
    t.(leaf := t.leaf[0 := t.h[0]])
  }

  lemma {:induction false} RowsAreChain(t: Trace, i: nat)
    requires WellSized(t) && i < |t.h| && t.leaf[0] == t.h[0]
    requires forall k | 0 <= k < |t.h| - 1 :: t.h[k + 1] == Cubed(t.h[k], t.leaf[k + 1])
    ensures t.h[i] == Chain(t.leaf[0], t.leaf[1..i + 1])
  {
    hide Cubed;
    if i > 0 {
      RowsAreChain(t, i - 1);
      ChainStep(t.leaf, i - 1);
    } else {
      assert t.leaf[1..1] == [];
    }
  }

  /** The AIR accepts exactly the honest traces, up to the first leaf, which no
      constraint mentions. */
  lemma AcceptsExactly(t: Trace, commitment: Felt)
    requires WellSized(t)
    ensures Accepted(t, commitment) <==> Honest(Anchored(t)) && t.h[|t.h| - 1] == commitment
  {
    hide Cubed, Sub;
    AcceptedMeans(t, commitment);
    var a := Anchored(t);
    if Accepted(t, commitment) {
      forall i | 0 <= i < |t.h| ensures a.h[i] == Chain(a.leaf[0], a.leaf[1..i + 1]) {
        RowsAreChain(a, i);
      }
    }
    if Honest(a) && t.h[|t.h| - 1] == commitment {
      forall i | 0 <= i < |t.h| - 1 ensures t.h[i + 1] == Cubed(t.h[i], t.leaf[i + 1]) {
        ChainStep(a.leaf, i);
      }
    }
  }

  /** The commitment of an accepted trace is the chain from its own first hash. */
  lemma CommitmentIsChain(t: Trace, commitment: Felt)
    requires Accepted(t, commitment)
    ensures commitment == Chain(t.h[0], t.leaf[1..])
  {
    hide Cubed, Sub, Accepted;
    AcceptedSized(t, commitment);
    AcceptsExactly(t, commitment);
    var a := Anchored(t);
    assert a.h[|a.h| - 1] == Chain(a.leaf[0], a.leaf[1..|a.h| - 1 + 1]);
    assert a.leaf[1..|a.h|] == t.leaf[1..];
  }

  /** Where the comments of the AIR promise h[0] = leaf[0], the code asks nothing: the
      first leaf of an accepted trace may be replaced by any value. */
  lemma FirstLeafIsFree(t: Trace, commitment: Felt, v: Felt)
    requires Accepted(t, commitment)
    ensures Accepted(t.(leaf := t.leaf[0 := v]), commitment)
  {
    hide Cubed, Sub, Accepted, Honest;
    AcceptedSized(t, commitment);
    var u := t.(leaf := t.leaf[0 := v]);
    AcceptsExactly(t, commitment);
    AcceptsExactly(u, commitment);
    assert Anchored(u).leaf == Anchored(t).leaf;
  }

  lemma AcceptedSized(t: Trace, commitment: Felt)
    requires Accepted(t, commitment)
    ensures WellSized(t)
  {
  }

  /** Completeness: the trace the prover builds is accepted for the commitment it claims. */
  lemma HonestIsAccepted(t: Trace, leaves: seq<Word64>)
    requires leaves != [] && Honest(t) && t.leaf == LeafColumn(leaves, TraceLen(|leaves|))
    ensures Accepted(t, Commitment(leaves))
  {
    hide Cubed, Sub, Accepted, NextPower, LeafColumn;
    assert t.leaf[1..1] == [];
    assert t.h[0] == Chain(t.leaf[0], t.leaf[1..0 + 1]) == t.leaf[0];
    assert Anchored(t) == t;
    var n := |t.h|;
    assert t.h[n - 1] == Chain(t.leaf[0], t.leaf[1..n - 1 + 1]);
    assert t.leaf[1..n] == t.leaf[1..];
    AcceptsExactly(t, Commitment(leaves));
  }

  // ------------------------------------------------------------ padding

  /** Zero leaves that fit into the padding change nothing: the commitment does not
      bind the number of leaves. */
  lemma ZeroLeavesAreInvisible(leaves: seq<Word64>, k: nat)
    requires leaves != [] && TraceLen(|leaves| + k) == TraceLen(|leaves|)
    ensures Commitment(leaves + seq(k, _ => 0)) == Commitment(leaves)
  {
    hide NextPower, Chain;
    var n := TraceLen(|leaves|);
    var more := leaves + seq(k, _ => 0);
    forall i | 0 <= i < n ensures LeafColumn(more, n)[i] == LeafColumn(leaves, n)[i] {
      if |leaves| <= i < |more| {
        assert more[i] == 0;
      }
    }
    assert LeafColumn(more, n) == LeafColumn(leaves, n);
  }

  /** Leaf lists of one length with equal residues have equal commitments. */
  lemma OnlyResiduesCount(a: seq<Word64>, b: seq<Word64>)
    requires a != [] && |a| == |b| && forall i | 0 <= i < |a| :: a[i] % P == b[i] % P
    ensures Commitment(a) == Commitment(b)
  {
    hide NextPower, Chain;
    var n := TraceLen(|a|);
    assert LeafColumn(a, n) == LeafColumn(b, n);
  }

  lemma SumCancels(c: Felt, x: Felt, y: Felt)
    ensures Add(c, x) == Add(c, y) <==> x == y
  {
  }

  /** When the leaves fill the trace, the last one is bound up to its residue. */
  lemma LastLeafIsBound(init: seq<Word64>, x: Word64, y: Word64)
    requires init != [] && TraceLen(|init| + 1) == |init| + 1
    ensures Commitment(init + [x]) == Commitment(init + [y]) <==> x % P == y % P
  {
    hide NextPower, Mul, Add;
    var n := |init| + 1;
    var cx, cy := LeafColumn(init + [x], n), LeafColumn(init + [y], n);
    assert cx[..n - 1] == cy[..n - 1] && cx[0] == cy[0];
    assert cx[1..][..n - 2] == cx[..n - 1][1..] && cy[1..][..n - 2] == cy[..n - 1][1..];
    var h := Chain(cx[0], cx[1..][..n - 2]);
    SumCancels(Mul(Mul(h, h), h), cx[n - 1], cy[n - 1]);
  }
}
