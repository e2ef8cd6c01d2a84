/**
 * Replaying the channel from public data (vfri11_replay_channel of
 * stark_stwo/src/vfri2_bridge.rs), alone and after a run of the generator.
 */
module FriVerifier {
  import opened Bytes
  import opened Prelude
  import opened Fri
  import opened FriContract
  import opened FriHints

  // ------------------------------------------------------------ the replay

  datatype ReplayError = BadReplayDepth | BadReplayQueries | NoLayerRoots | TooManyRoots

  const MAX_ROOTS: nat := MAX_FOLD_ROUNDS + 1

  predicate Replayable<F>(pub: Public<F>) {
    2 <= pub.depth <= 30 && 1 <= pub.nQueries <= 64 && 1 <= |pub.layerRoots| <= MAX_ROOTS
  }

  /** The first check that fails. */
  predicate ReplayRefused<F>(pub: Public<F>, e: ReplayError) {
    match e
    case BadReplayDepth => !(2 <= pub.depth <= 30)
    case BadReplayQueries => 2 <= pub.depth <= 30 && !(1 <= pub.nQueries <= 64)
    case NoLayerRoots => 2 <= pub.depth <= 30 && 1 <= pub.nQueries <= 64 && pub.layerRoots == []
    case TooManyRoots => 2 <= pub.depth <= 30 && 1 <= pub.nQueries <= 64 && |pub.layerRoots| > MAX_ROOTS
  }

  method ReplayChannel<F, C>(be: Backend<F, C>, ops: Ops<F>, pub: Public<F>) returns (r: Result<Challenges<F>, ReplayError>)
    ensures r.Success? <==> Replayable(pub)
    ensures r.Success? ==> r.value == Replayed(be, ops, pub)
    ensures r.Failure? ==> ReplayRefused(pub, r.error)
  {
    if !(2 <= pub.depth <= 30) {
      return Failure(BadReplayDepth);
    }
    if pub.nQueries == 0 || pub.nQueries > 64 {
      return Failure(BadReplayQueries);
    }
    if pub.layerRoots == [] {
      return Failure(NoLayerRoots);
    }
    if |pub.layerRoots| > MAX_ROOTS {
      return Failure(TooManyRoots);
    }
    var x := Replay(be, ops, pub);
    r := Success(x);
  }

  /** Generating and replaying.  The replay is possible iff the run folded at most 28
      times; it asks for the run's own queries, in order, and the hints pass the checks
      under the replayed challenges. */
  method GenerateAndReplay<F, C(!new)>(be: Backend<F, C>, ops: Ops<F>, blake: Bytes -> Digest32, inp: Input)
    returns (r: Result<(Output<F>, Result<Challenges<F>, ReplayError>), Error>)
    requires DrawsInRange(be)
    ensures r.Success? <==> Proceeds(be, ops, inp)
    ensures r.Success? ==>
      && FoldCount(inp).Some?
      && (r.value.1.Success? <==> FoldCount(inp).value <= MAX_FOLD_ROUNDS)
      && (r.value.1.Failure? ==> r.value.1.error == TooManyRoots)
    ensures r.Success? && r.value.1.Success? ==>
      var (out, replayed) := r.value;
      && |out.hints.queries| == |replayed.value.indices| == inp.nQueries
      && forall i | 0 <= i < inp.nQueries ::
           && out.hints.queries[i].index == replayed.value.indices[i]
           && QueryChecks(be, ops, inp.depth, out.hints, replayed.value, out.hints.queries[i])
  {
    hide Proceeds, Accepts, Acceptable, QueryChecks, LayerMatches, Replayed, Refused, TraceRoot, ProofBytes, CommitmentOf, Pow2;
    var made := GenHints(be, ops, blake, inp);
    match made
    case Failure(e) =>
      r := Failure(e);
    case Success(out) =>
      var pub := Claimed(inp.depth, inp.nQueries, out.proof[8..40], inp.batchRoot, out.hints);
      var replayed := ReplayChannel(be, ops, pub);
      r := Success((out, replayed));
  }
}
