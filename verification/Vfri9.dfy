/**
 * gen_vfri9_hints_from_cols_nfolds (archive/rust/vfri3-10_bridges.rs): the generic
 * generator on the width-two hashes and channel.
 */
module Vfri9 {
  import opened Bytes
  import opened Prelude
  import opened Poseidon2Channel
  import opened Poseidon2Hash
  import opened FriTree
  import opened Fri
  import opened FriContract
  import opened FriHints

  method GenVfri9Hints<F(==)>(leaf: seq<nat> -> seq<Word>, words: F -> seq<Word>, felt: (nat, nat, nat, nat) -> F,
                              ops: Ops<F>, blake: Bytes -> Digest32, inp: Input) returns (r: Result<Output<F>, Error>)
    ensures var be := WideBackend(leaf, words, felt);
            && (r.Success? <==> Proceeds(be, ops, inp))
            && (r.Failure? ==> Refused(be, ops, inp, r.error))
            && (r.Success? ==> Shaped(inp) && Made(be, ops, blake, inp, r.value))
            && (r.Success? ==>
                  (Accepts(be, ops, blake, r.value.proof, r.value.commitment, inp.batchRoot, r.value.hints)
                   <==> Acceptable(ops, inp, r.value)))
  {
    hide Proceeds, Refused, Made, Accepts, Acceptable;
    WideBackendInRange(leaf, words, felt);
    r := GenHints(WideBackend(leaf, words, felt), ops, blake, inp);
  }

  /** An inner node of the width-two tree is zero but for its last eight bytes. */
  lemma TraceRootIsPadded<F>(leaf: seq<nat> -> seq<Word>, words: F -> seq<Word>, felt: (nat, nat, nat, nat) -> F, inp: Input)
    requires Shaped(inp)
    ensures TraceRoot(WideBackend(leaf, words, felt), inp)[..24] == Padding()
  {
    hide TraceLeaves, WideNode, Compressed, Content;
    var be, d := WideBackend(leaf, words, felt), inp.depth;
    var leaves := TraceLeaves(be, inp);
    assert TraceRoot(be, inp) == be.hashPair(NodeOf(be.hashPair, leaves, d, d - 1, 0), NodeOf(be.hashPair, leaves, d, d - 1, 1));
  }

  /** The commitment says nothing of the trace: the 24 bytes it hashes of a width-two root
      are the padding.  Any two runs with one batch root have one commitment. */
  lemma CommitmentIgnoresTrace<F>(leaf: seq<nat> -> seq<Word>, words: F -> seq<Word>, felt: (nat, nat, nat, nat) -> F, ops: Ops<F>,
                                  blake: Bytes -> Digest32, inp: Input, out: Output<F>, other: Input, otherOut: Output<F>)
    requires Shaped(inp) && Made(WideBackend(leaf, words, felt), ops, blake, inp, out)
    requires Shaped(other) && Made(WideBackend(leaf, words, felt), ops, blake, other, otherOut)
    requires inp.batchRoot == other.batchRoot
    ensures out.commitment == otherOut.commitment
  {
    hide TraceRoot, Proves, EndsInLastLayer, ProofBytes;
    TraceRootIsPadded(leaf, words, felt, inp);
    TraceRootIsPadded(leaf, words, felt, other);
    var be := WideBackend(leaf, words, felt);
    VersionFits();
    CommitmentInput(be.version, be.version, TraceRoot(be, inp), TraceRoot(be, other), inp.batchRoot, other.batchRoot);
  }

  lemma VersionFits()
    ensures 3 < Pow2(64)
  {
    assert Pow2(2) == 4;
    Pow2Monotone(2, 64);
  }
}
