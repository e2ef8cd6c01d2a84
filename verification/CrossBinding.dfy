/**
 * Cross-binding of the two column groups of a batch
 * (gen_mldsa_v23_vfri10_cross_bound_hints, archive/rust/vfri3-10_bridges.rs): a first
 * pass yields the trace roots, a second proves each group under a root that hashes the
 * other group's.  How the columns are computed from a signature is a parameter.
 */
module CrossBinding {
  import opened Bytes
  import opened Prelude
  import opened FriTree
  import opened Fri
  import opened FriContract
  import opened FriHints

  /** The columns of one group. */
  datatype Group = Group(cols: seq<seq<nat>>, depth: nat)

  /** What a wrapper builds its group from: the expanded matrix, and a trace that exists
      unless its range check fails; the wrapper of depth 8 also counts the rows. */
  datatype Source<!A> = Source(matrix: seq<A>, trace: seq<A> -> Option<seq<seq<nat>>>, depth: nat, countsRows: bool)

  /** K * L. */
  const MATRIX_SIZE: nat := 30

  datatype GroupError = BadMatrix | BadRoot | BadQueries | OutOfRange | BadRows(j: nat) | Generator(e: Error)

  datatype CrossError = RootLength | Log10(e: GroupError) | Log8(e: GroupError) | ShortProof

  function InputOf(g: Group, root: Bytes, nQueries: nat, numFolds: Option<nat>): Input {
    Input(g.cols, g.depth, root, nQueries, numFolds)
  }

  predicate Built<A>(src: Source<A>) {
    |src.matrix| == MATRIX_SIZE && src.trace(src.matrix).Some?
  }

  function GroupOf<A>(src: Source<A>): Group
    requires Built(src)
  {
    Group(src.trace(src.matrix).value, src.depth)
  }

  /** A group can be proved: its columns are well formed and its challenge avoids the domain. */
  ghost predicate Provable<F, C>(be: Backend<F, C>, ops: Ops<F>, g: Group, numFolds: Option<nat>) {
    Proceeds(be, ops, InputOf(g, Blank(), 1, numFolds))
  }

  /** The first check of a wrapper that fails. */
  ghost predicate GroupRefused<A, F, C>(be: Backend<F, C>, ops: Ops<F>, src: Source<A>, root: Bytes, nQueries: nat,
                                        numFolds: Option<nat>, e: GroupError) {
    match e
    case BadMatrix => |src.matrix| != MATRIX_SIZE
    case BadRoot => |src.matrix| == MATRIX_SIZE && |root| != 32
    case BadQueries => |src.matrix| == MATRIX_SIZE && |root| == 32 && !(1 <= nQueries <= 64)
    case OutOfRange => |src.matrix| == MATRIX_SIZE && |root| == 32 && 1 <= nQueries <= 64 && src.trace(src.matrix).None?
    case BadRows(j) =>
      && Built(src) && |root| == 32 && 1 <= nQueries <= 64 && src.countsRows
      && j < |GroupOf(src).cols| && |GroupOf(src).cols[j]| != Pow2(src.depth)
      && forall i | 0 <= i < j :: |GroupOf(src).cols[i]| == Pow2(src.depth)
    case Generator(g) =>
      && Built(src) && |root| == 32 && 1 <= nQueries <= 64
      && (src.countsRows ==> forall i | 0 <= i < |GroupOf(src).cols| :: |GroupOf(src).cols[i]| == Pow2(src.depth))
      && Refused(be, ops, InputOf(GroupOf(src), root, nQueries, numFolds), g)
  }

  function Blank(): (b: Bytes)
    ensures |b| == 32
  {
    seq(32, _ => 0)
  }

  /** The trace root depends on the columns alone. */
  lemma TraceRootOfColumns<F, C>(be: Backend<F, C>, inp: Input, other: Input)
    requires Shaped(inp) && Shaped(other) && inp.cols == other.cols && inp.depth == other.depth
    ensures TraceRoot(be, inp) == TraceRoot(be, other)
  {
    hide Root, Row, Pow2;
    assert TraceLeaves(be, inp) == TraceLeaves(be, other);
  }

  /** So does success, within the argument checks. */
  lemma SuccessOfColumns<F, C>(be: Backend<F, C>, ops: Ops<F>, g: Group, root: Bytes, nQueries: nat, numFolds: Option<nat>)
    requires |root| == 32 && 1 <= nQueries <= 64
    ensures Proceeds(be, ops, InputOf(g, root, nQueries, numFolds)) <==> Provable(be, ops, g, numFolds)
  {
    hide TraceRoot, Degenerate, Pow2;
    var a, b := InputOf(g, root, nQueries, numFolds), InputOf(g, Blank(), 1, numFolds);
    assert Shaped(a) <==> Shaped(b);
    if Shaped(a) {
      TraceRootOfColumns(be, a, b);
    }
  }

  /** The wrapper of one group. */
  method GenGroup<A, F, C(!new)>(be: Backend<F, C>, ops: Ops<F>, blake: Bytes -> Digest32, src: Source<A>,
                                 root: Bytes, nQueries: nat, numFolds: Option<nat>) returns (r: Result<Output<F>, GroupError>)
    requires DrawsInRange(be)
    ensures r.Success? <==> |root| == 32 && 1 <= nQueries <= 64 && Built(src) && Provable(be, ops, GroupOf(src), numFolds)
    ensures r.Success? ==> Proved(be, ops, blake, GroupOf(src), numFolds, root, nQueries, r.value)
    ensures r.Success? ==> r.value.proof[8..40] == GroupRoot(be, GroupOf(src))
    ensures r.Failure? ==> GroupRefused(be, ops, src, root, nQueries, numFolds, r.error)
  {
    hide Accepts, Acceptable, Proves, EndsInLastLayer, CommitmentOf, TraceRoot, Proceeds, Refused;
    if |src.matrix| != MATRIX_SIZE {
      return Failure(BadMatrix);
    }
    if |root| != 32 {
      return Failure(BadRoot);
    }
    if nQueries == 0 || nQueries > 64 {
      return Failure(BadQueries);
    }
    var trace := src.trace(src.matrix);
    if trace.None? {
      return Failure(OutOfRange);
    }
    var g := GroupOf(src);
    var inp := InputOf(g, root, nQueries, numFolds);
    SuccessOfColumns(be, ops, g, root, nQueries, numFolds);
    if src.countsRows {
      for j := 0 to |g.cols|
        invariant forall i | 0 <= i < j :: |g.cols[i]| == Pow2(g.depth)
      {
        if |g.cols[j]| != Pow2(g.depth) {
          BadRowsFail(be, ops, inp, j);
          return Failure(BadRows(j));
        }
      }
    }
    var made := GenHints(be, ops, blake, inp);
    if made.Failure? {
      return Failure(Generator(made.error));
    }
    ProceedsShaped(be, ops, inp);
    TraceRootOfColumns(be, inp, InputOf(g, Blank(), 1, None));
    r := Success(made.value);
  }

  lemma BadRowsFail<F, C>(be: Backend<F, C>, ops: Ops<F>, inp: Input, j: nat)
    requires j < |inp.cols| && |inp.cols[j]| != Pow2(inp.depth)
    ensures !Proceeds(be, ops, inp)
  {
  }

  lemma ProceedsShaped<F, C>(be: Backend<F, C>, ops: Ops<F>, inp: Input)
    requires Proceeds(be, ops, inp)
    ensures Shaped(inp)
  {
  }

  ghost predicate GroupShaped(g: Group) {
    Shaped(InputOf(g, Blank(), 1, None))
  }

  ghost function GroupRoot<F, C>(be: Backend<F, C>, g: Group): Node
  {
    if GroupShaped(g) then TraceRoot(be, InputOf(g, Blank(), 1, None)) else Blank()
  }

  /** A proof with hints that show what they should under the given batch root, and that
      the contract accepts exactly within its limits. */
  ghost predicate Proved<F, C>(be: Backend<F, C>, ops: Ops<F>, blake: Bytes -> Digest32, g: Group, numFolds: Option<nat>,
                               root: Node, nQueries: nat, out: Output<F>) {
    && |out.proof| == PROOF_SIZE && |out.hints.queries| == nQueries
    && out.commitment == CommitmentOf(blake, out.proof, root)
    && Proves(be, ops, g.depth, out.proof[8..40], root, out.hints)
    && (Accepts(be, ops, blake, out.proof, out.commitment, root, out.hints)
        <==> Acceptable(ops, InputOf(g, root, nQueries, numFolds), out))
  }

  /** What two cross-bound proofs show: each was made under the hash of the batch root
      followed by the trace root that stands in the other proof. */
  ghost predicate CrossProved<A, F, C>(be: Backend<F, C>, ops: Ops<F>, blake: Bytes -> Digest32, keccak: Bytes -> Digest32,
                                       src10: Source<A>, src8: Source<A>, batchRoot: Bytes, nQueries: nat, numFolds: Option<nat>,
                                       out10: Output<F>, out8: Output<F>) {
    && |batchRoot| == 32 && Built(src10) && Built(src8)
    && |out10.proof| == |out8.proof| == PROOF_SIZE
    && Proved(be, ops, blake, GroupOf(src10), numFolds, keccak(batchRoot + out8.proof[8..40]), nQueries, out10)
    && Proved(be, ops, blake, GroupOf(src8), numFolds, keccak(batchRoot + out10.proof[8..40]), nQueries, out8)
    && out10.proof[8..40] == GroupRoot(be, GroupOf(src10)) && out8.proof[8..40] == GroupRoot(be, GroupOf(src8))
  }

  lemma BoundStringSplits(batch1: Digest32, trace1: Digest32, batch2: Digest32, trace2: Digest32)
    ensures batch1 + trace1 == batch2 + trace2 <==> batch1 == batch2 && trace1 == trace2
  {
    if batch1 + trace1 == batch2 + trace2 {
      SplitsOnce(batch1, trace1, batch2, trace2);
    }
  }

  /** What cross-binding binds.  The LOG=10 proofs of two runs were made under one root iff the
      batch roots agree and the trace roots of the LOG=8 groups, which are those in the LOG=8
      proofs; and the other way round; unless Keccak collides on the two strings hashed. */
  lemma CrossBinds<A, F, C>(be: Backend<F, C>, ops: Ops<F>, blake: Bytes -> Digest32, keccak: Bytes -> Digest32,
                            src10: Source<A>, src8: Source<A>, batch1: Bytes, n1: nat, folds1: Option<nat>, a10: Output<F>, a8: Output<F>,
                            other10: Source<A>, other8: Source<A>, batch2: Bytes, n2: nat, folds2: Option<nat>, b10: Output<F>, b8: Output<F>)
    requires CrossProved(be, ops, blake, keccak, src10, src8, batch1, n1, folds1, a10, a8)
    requires CrossProved(be, ops, blake, keccak, other10, other8, batch2, n2, folds2, b10, b8)
    requires keccak(batch1 + a8.proof[8..40]) == keccak(batch2 + b8.proof[8..40]) ==>
             batch1 + a8.proof[8..40] == batch2 + b8.proof[8..40]
    requires keccak(batch1 + a10.proof[8..40]) == keccak(batch2 + b10.proof[8..40]) ==>
             batch1 + a10.proof[8..40] == batch2 + b10.proof[8..40]
    ensures keccak(batch1 + a8.proof[8..40]) == keccak(batch2 + b8.proof[8..40]) <==>
            batch1 == batch2 && GroupRoot(be, GroupOf(src8)) == GroupRoot(be, GroupOf(other8))
    ensures keccak(batch1 + a10.proof[8..40]) == keccak(batch2 + b10.proof[8..40]) <==>
            batch1 == batch2 && GroupRoot(be, GroupOf(src10)) == GroupRoot(be, GroupOf(other10))
  {
    hide Proved, GroupRoot;
    BoundStringSplits(batch1, a8.proof[8..40], batch2, b8.proof[8..40]);
    BoundStringSplits(batch1, a10.proof[8..40], batch2, b10.proof[8..40]);
  }

  /**
   * Two passes reach the fixed point.  Each final proof shows what it should under the hash of
   * the batch root and of the trace root found in the other final proof, although that root
   * was read from a first-pass proof made under another batch root and with one query.
   */
  method CrossBound<A, F, C(!new)>(be: Backend<F, C>, ops: Ops<F>, blake: Bytes -> Digest32, keccak: Bytes -> Digest32,
                                   src10: Source<A>, src8: Source<A>, batchRoot: Bytes, nQueries: nat, numFolds: Option<nat>)
    returns (r: Result<(Output<F>, Output<F>), CrossError>)
    requires DrawsInRange(be)
    ensures r.Success? <==>
      && |batchRoot| == 32 && 1 <= nQueries <= 64
      && Built(src10) && Provable(be, ops, GroupOf(src10), numFolds)
      && Built(src8) && Provable(be, ops, GroupOf(src8), numFolds)
    ensures r.Success? ==>
      && var (out10, out8) := r.value;
         && |out10.proof| == |out8.proof| == PROOF_SIZE
         && Proved(be, ops, blake, GroupOf(src10), numFolds, keccak(batchRoot + out8.proof[8..40]), nQueries, out10)
         && Proved(be, ops, blake, GroupOf(src8), numFolds, keccak(batchRoot + out10.proof[8..40]), nQueries, out8)
         && CrossProved(be, ops, blake, keccak, src10, src8, batchRoot, nQueries, numFolds, out10, out8)
    ensures r.Failure? ==> r.error != ShortProof
  {
    hide Proceeds, GroupRefused, Proves, Accepts, Acceptable, CommitmentOf, GroupRoot;
    if |batchRoot| != 32 {
      return Failure(RootLength);
    }
    var first10 := GenGroup(be, ops, blake, src10, batchRoot, 1, numFolds);
    if first10.Failure? {
      return Failure(Log10(first10.error));
    }
    var first8 := GenGroup(be, ops, blake, src8, batchRoot, 1, numFolds);
    if first8.Failure? {
      return Failure(Log8(first8.error));
    }
    if |first10.value.proof| < 40 || |first8.value.proof| < 40 {
      return Failure(ShortProof);
    }
    var bound10 := keccak(batchRoot + first8.value.proof[8..40]);
    var bound8 := keccak(batchRoot + first10.value.proof[8..40]);
    var final10 := GenGroup(be, ops, blake, src10, bound10, nQueries, numFolds);
    if final10.Failure? {
      return Failure(Log10(final10.error));
    }
    var final8 := GenGroup(be, ops, blake, src8, bound8, nQueries, numFolds);
    match final8
    case Success(out8) =>
      r := Success((final10.value, out8));
    case Failure(e) =>
      r := Failure(Log8(e));
  }
}
