/**
 * What a query the contract accepts (contracts/src/QLSAVerifierVFRI11.sol) proves about
 * the layers behind the roots.  A hash need not read all of what it is given: the pair
 * hash ignores part of a node, and the leaf hash reduces every word of a value.  So
 * everything here is up to what is read, and so are the collisions.
 */
module FriBinding {
  import opened Bytes
  import opened Prelude
  import opened M31
  import opened CircleDomain
  import opened FriTree
  import opened Fri
  import opened FriContract
  import opened FriHints

  /** What the hashes of a backend read of a node and of a value. */
  datatype Reading<!F, N, V> = Reading(node: Node -> N, value: F -> V)

  /** The hashes read no more than that. */
  ghost predicate HashesRead<F(!new), C, N, V>(be: Backend<F, C>, rd: Reading<F, N, V>) {
    && PairReads(be.hashPair, rd.node)
    && forall v: F, w: F :: rd.value(v) == rd.value(w) ==> be.hashFelt(v) == be.hashFelt(w)
  }

  // ------------------------------------------------------------ one opening

  /** An opening that collides with the committed layer neither in a leaf nor in a pair. */
  ghost predicate Clean<F, C, N, V>(be: Backend<F, C>, rd: Reading<F, N, V>, values: seq<F>, m: nat, v: F, i: nat, path: seq<Node>)
    requires |values| == Pow2(m)
  {
    && (i < |values| && rd.node(be.hashFelt(v)) == rd.node(be.hashFelt(values[i])) ==> rd.value(v) == rd.value(values[i]))
    && !PairsCollide(be.hashPair, rd.node, TreePairs(be.hashPair, HashAll(be, values), m),
                     PathPairs(be.hashPair, be.hashFelt(v), i, path))
  }

  /** What reads like the value at a position of a layer, with what reads like the path of
      its tree. */
  ghost predicate Opens<F, C, N, V>(be: Backend<F, C>, rd: Reading<F, N, V>, values: seq<F>, m: nat, v: F, i: nat, path: seq<Node>) {
    && |values| == Pow2(m) && i < |values|
    && rd.value(v) == rd.value(values[i])
    && SamePath(rd.node, path, PathFrom(be.hashPair, HashAll(be, values), m, 0, i))
  }

  /** What an authenticated value proves about the layer behind the root. */
  lemma AuthenticOpens<F, C, N, V>(be: Backend<F, C>, rd: Reading<F, N, V>, values: seq<F>, m: nat, root: Node, v: F, i: nat, path: seq<Node>)
    requires LayerMatches(be, values, m, root) && i < |values|
    requires Authentic(be, v, i, path, m, root) && Clean(be, rd, values, m, v, i, path)
    ensures Opens(be, rd, values, m, v, i, path)
  {
    hide PairsCollide, PathPairs, TreePairs, SamePath, Pow2;
    PathBinds(be.hashPair, rd.node, HashAll(be, values), m, 0, i, be.hashFelt(v), path);
    assert NodeOf(be.hashPair, HashAll(be, values), m, 0, i) == be.hashFelt(values[i]);
  }

  /** What reads like a committed value, by what reads like its path, is authentic. */
  lemma OpensAuthentic<F(!new), C, N, V>(be: Backend<F, C>, rd: Reading<F, N, V>, values: seq<F>, m: nat, root: Node, v: F, i: nat, path: seq<Node>)
    requires HashesRead(be, rd) && LayerMatches(be, values, m, root) && m <= 32
    requires Opens(be, rd, values, m, v, i, path)
    ensures Authentic(be, v, i, path, m, root)
  {
    hide PairReads, SamePath, Pow2, Root;
    var leaves := HashAll(be, values);
    PathAuthenticates(be.hashPair, leaves, m, i);
    SamePathLength(rd.node, path, PathFrom(be.hashPair, leaves, m, 0, i));
    SamePathSameRoot(be.hashPair, rd.node, be.hashFelt(v), i, path, PathFrom(be.hashPair, leaves, m, 0, i));
    assert leaves[i] == be.hashFelt(v);
  }

  lemma SamePathLength<N>(view: Node -> N, xs: seq<Node>, ys: seq<Node>)
    requires SamePath(view, xs, ys)
    ensures |xs| == |ys|
  {
  }

  /** Up to a collision, exactly the openings that read like the committed one are
      authentic. */
  lemma OpeningBinds<F(!new), C, N, V>(be: Backend<F, C>, rd: Reading<F, N, V>, values: seq<F>, m: nat, root: Node, v: F, i: nat, path: seq<Node>)
    requires HashesRead(be, rd) && LayerMatches(be, values, m, root) && m <= 32 && i < |values|
    requires Clean(be, rd, values, m, v, i, path)
    ensures Authentic(be, v, i, path, m, root) <==> Opens(be, rd, values, m, v, i, path)
  {
    hide HashesRead, LayerMatches, Clean, Authentic, Opens;
    if Authentic(be, v, i, path, m, root) {
      AuthenticOpens(be, rd, values, m, root, v, i, path);
    }
    if Opens(be, rd, values, m, v, i, path) {
      OpensAuthentic(be, rd, values, m, root, v, i, path);
    }
  }

  lemma CommittedMatches<F, C>(be: Backend<F, C>, values: seq<F>, m: nat, levels: Levels, root: Node)
    requires Committed(be, values, m, levels, root)
    ensures LayerMatches(be, values, m, root) && |values| == Pow2(m)
  {
  }

  // ------------------------------------------------------------ one round

  ghost predicate CleanRound<F, C, N, V>(be: Backend<F, C>, rd: Reading<F, N, V>, d: nat, k: nat, prev: seq<F>, next: seq<F>, i: nat, h: FoldHint<F>)
    requires k < d && |prev| == Pow2(d - k) && |next| == Pow2(d - k - 1)
  {
    && i < 2 * |next|
    && Clean(be, rd, prev, d - k, h.siblingValue, SiblingIndex(i, |next|), h.siblingProof)
    && Clean(be, rd, next, d - k - 1, h.foldedValue, i % |next|, h.merkleProof)
  }

  ghost predicate RoundOpens<F, C, N, V>(be: Backend<F, C>, rd: Reading<F, N, V>, d: nat, k: nat, prev: seq<F>, next: seq<F>, i: nat, h: FoldHint<F>)
    requires k < d
  {
    && next != [] && i < 2 * |next|
    && Opens(be, rd, prev, d - k, h.siblingValue, SiblingIndex(i, |next|), h.siblingProof)
    && Opens(be, rd, next, d - k - 1, h.foldedValue, i % |next|, h.merkleProof)
  }

  /** A round whose checks pass opens two committed values. */
  lemma RoundBinds<F, C, N, V>(be: Backend<F, C>, rd: Reading<F, N, V>, ops: Ops<F>, d: nat, k: nat, alpha: F, prev: seq<F>, root: Node,
                               next: seq<F>, nextRoot: Node, i: nat, entering: F, h: FoldHint<F>)
    requires k < d <= 30 && LayerMatches(be, prev, d - k, root) && LayerMatches(be, next, d - k - 1, nextRoot)
    requires |prev| == Pow2(d - k) && |next| == Pow2(d - k - 1)
    requires RoundChecks(be, ops, d, k, alpha, root, nextRoot, i, entering, h)
    requires CleanRound(be, rd, d, k, prev, next, i, h)
    ensures RoundOpens(be, rd, d, k, prev, next, i, h)
  {
    hide LayerMatches, Authentic, Clean, Opens, LineFold, Coset, Chebyshev, Pow2;
    Pow2Next(d - k - 1);
    HalfOf(i, |next|);
    AuthenticOpens(be, rd, prev, d - k, root, h.siblingValue, SiblingIndex(i, |next|), h.siblingProof);
    AuthenticOpens(be, rd, next, d - k - 1, nextRoot, h.foldedValue, i % |next|, h.merkleProof);
  }

  lemma RoundAt<F, C>(be: Backend<F, C>, ops: Ops<F>, d: nat, alphas: seq<F>, roots: seq<Node>,
                      index: nat, first: F, folds: seq<FoldHint<F>>, k: nat)
    requires |folds| < d <= 30 && |folds| <= |alphas| && |folds| < |roots| && k < |folds|
    requires WalkChecks(be, ops, d, alphas, roots, index, first, folds)
    ensures RoundChecks(be, ops, d, k, alphas[k], roots[k], roots[k + 1], index % Pow2(d - k), Entering(first, folds, k), folds[k])
  {
    hide RoundChecks, Entering, Pow2;
    assert RoundOfWalk(be, ops, d, alphas, roots, index, first, folds, k);
  }

  // ------------------------------------------------------------ one query

  /** Every layer has the size of its round. */
  ghost predicate Sized<F>(d: nat, values: seq<seq<F>>) {
    0 < |values| <= d + 1 && forall k | 0 <= k < |values| :: |values[k]| == Pow2(d - k)
  }

  /** No opening of the query collides with the committed layers. */
  ghost predicate CleanQuery<F, C, N, V>(be: Backend<F, C>, rd: Reading<F, N, V>, d: nat, comp: seq<F>, values: seq<seq<F>>, q: QueryHint<F>)
    requires d >= 1 && |comp| == Pow2(d) && Sized(d, values) && |values| == |q.folds| + 1
  {
    && Clean(be, rd, comp, d, q.compValue, q.index, q.compProof)
    && Clean(be, rd, comp, d, q.compValueNeg, AntipodalOf(d, q.index), q.compProofNeg)
    && Clean(be, rd, values[0], d, q.foldedValue, q.index, q.l1Siblings)
    && forall k | 0 <= k < |q.folds| ::
         CleanRound(be, rd, d, k, values[k], values[k + 1], q.index % Pow2(d - k), q.folds[k])
  }

  /** Every opening of the query reads like a committed value by the committed path. */
  ghost predicate QueryOpens<F, C, N, V>(be: Backend<F, C>, rd: Reading<F, N, V>, d: nat, comp: seq<F>, values: seq<seq<F>>, q: QueryHint<F>)
    requires d >= 1 && |values| == |q.folds| + 1 <= d + 1
  {
    && Opens(be, rd, comp, d, q.compValue, q.index, q.compProof)
    && Opens(be, rd, comp, d, q.compValueNeg, AntipodalOf(d, q.index), q.compProofNeg)
    && Opens(be, rd, values[0], d, q.foldedValue, q.index, q.l1Siblings)
    && forall k | 0 <= k < |q.folds| ::
         RoundOpens(be, rd, d, k, values[k], values[k + 1], q.index % Pow2(d - k), q.folds[k])
  }

  lemma LayersSized<F, C>(be: Backend<F, C>, ops: Ops<F>, inp: Input, folds: nat, ch: Chain<F>)
    requires IsChain(be, ops, inp, folds, ch)
    ensures 1 <= folds < inp.depth <= 30 && |ch.compValues| == Pow2(inp.depth)
    ensures Sized(inp.depth, ch.layerValues) && |ch.layerValues| == |ch.layerRoots| == folds + 1
  {
    hide IsFirstLayer, IsComposition, TraceRoot, Fri.Combined, Replayed, IsFoldOf, IsTree, Root;
    ChainLayers(be, ops, inp, folds, ch);
    LayersOf(be, ops, inp.depth, folds, ch.challenges.friAlphas, ch.layerValues, ch.layerLevels, ch.layerRoots);
    forall k | 0 <= k <= folds ensures |ch.layerValues[k]| == Pow2(inp.depth - k) {
      assert Committed(be, ch.layerValues[k], inp.depth - k, ch.layerLevels[k], ch.layerRoots[k]);
    }
  }

  /** The binding theorem of the query phase.  Whoever prepared it, a query that a
      verifier accepts against the roots of a run reveals, as far as the hashes read, the
      run's own composition values and layers by the run's own paths, unless one of its
      openings collides with what was committed. */
  lemma AcceptedQueryIsCommitted<F, C, N, V>(be: Backend<F, C>, rd: Reading<F, N, V>, ops: Ops<F>, inp: Input, folds: nat, ch: Chain<F>,
                                             hints: Hints<F>, x: Challenges<F>, q: QueryHint<F>)
    requires IsChain(be, ops, inp, folds, ch)
    requires hints.compRoot == ch.compRoot && hints.layerRoots == ch.layerRoots
    requires QueryChecks(be, ops, inp.depth, hints, x, q)
    ensures 1 <= inp.depth && |ch.compValues| == Pow2(inp.depth) && Sized(inp.depth, ch.layerValues)
    ensures |ch.layerValues| == |q.folds| + 1
    ensures CleanQuery(be, rd, inp.depth, ch.compValues, ch.layerValues, q)
        ==> QueryOpens(be, rd, inp.depth, ch.compValues, ch.layerValues, q)
  {
    hide IsChain, IsLayers, IsFirstLayer, Committed, LayerMatches, Authentic, Opens, Clean, CleanRound, RoundOpens, RoundChecks,
         Sized, QuotientFold, Entering, PointChecks, Degenerate, AntipodalOf, Pow2;
    ChainLayers(be, ops, inp, folds, ch);
    LayersSized(be, ops, inp, folds, ch);
    var d := inp.depth;
    LayersOf(be, ops, d, folds, ch.challenges.friAlphas, ch.layerValues, ch.layerLevels, ch.layerRoots);
    CommittedMatches(be, ch.compValues, d, ch.compLevels, ch.compRoot);
    CommittedMatches(be, ch.layerValues[0], d, ch.layerLevels[0], ch.layerRoots[0]);
    IndexBelow(be, ops, d, hints, x, q);
    if CleanQuery(be, rd, d, ch.compValues, ch.layerValues, q) {
      AuthenticOpens(be, rd, ch.compValues, d, ch.compRoot, q.compValue, q.index, q.compProof);
      AuthenticOpens(be, rd, ch.compValues, d, ch.compRoot, q.compValueNeg, AntipodalOf(d, q.index), q.compProofNeg);
      AuthenticOpens(be, rd, ch.layerValues[0], d, ch.layerRoots[0], q.foldedValue, q.index, q.l1Siblings);
      forall k | 0 <= k < |q.folds|
        ensures RoundOpens(be, rd, d, k, ch.layerValues[k], ch.layerValues[k + 1], q.index % Pow2(d - k), q.folds[k])
      {
        RoundAt(be, ops, d, x.friAlphas, hints.layerRoots, q.index, q.foldedValue, q.folds, k);
        CleanAt(be, rd, d, ch.compValues, ch.layerValues, q, k);
        RoundIsCommitted(be, rd, ops, d, folds, ch, k, x.friAlphas[k], q.index % Pow2(d - k), Entering(q.foldedValue, q.folds, k), q.folds[k]);
      }
    }
  }

  /** One round of a query against two layers of a run. */
  lemma RoundIsCommitted<F, C, N, V>(be: Backend<F, C>, rd: Reading<F, N, V>, ops: Ops<F>, d: nat, folds: nat, ch: Chain<F>, k: nat,
                                     alpha: F, i: nat, entering: F, h: FoldHint<F>)
    requires k < folds < d <= 30
    requires IsLayers(be, ops, d, folds, ch.challenges.friAlphas, ch.layerValues, ch.layerLevels, ch.layerRoots)
    requires k + 1 < |ch.layerValues| == |ch.layerRoots|
    requires |ch.layerValues[k]| == Pow2(d - k) && |ch.layerValues[k + 1]| == Pow2(d - k - 1)
    requires RoundChecks(be, ops, d, k, alpha, ch.layerRoots[k], ch.layerRoots[k + 1], i, entering, h)
    requires CleanRound(be, rd, d, k, ch.layerValues[k], ch.layerValues[k + 1], i, h)
    ensures RoundOpens(be, rd, d, k, ch.layerValues[k], ch.layerValues[k + 1], i, h)
  {
    hide Committed, LayerMatches, CleanRound, RoundOpens, RoundChecks, Pow2;
    LayerAt(be, ops, d, folds, ch.challenges.friAlphas, ch.layerValues, ch.layerLevels, ch.layerRoots, k);
    CommittedMatches(be, ch.layerValues[k], d - k, ch.layerLevels[k], ch.layerRoots[k]);
    CommittedMatches(be, ch.layerValues[k + 1], d - k - 1, ch.layerLevels[k + 1], ch.layerRoots[k + 1]);
    RoundBinds(be, rd, ops, d, k, alpha, ch.layerValues[k], ch.layerRoots[k], ch.layerValues[k + 1], ch.layerRoots[k + 1], i, entering, h);
  }

  lemma IndexBelow<F, C>(be: Backend<F, C>, ops: Ops<F>, d: nat, hints: Hints<F>, x: Challenges<F>, q: QueryHint<F>)
    requires QueryChecks(be, ops, d, hints, x, q)
    ensures q.index < Pow2(d)
  {
    hide Authentic, WalkChecks, Degenerate, QuotientFold, AntipodalOf, Coset, Pow2;
  }

  lemma CleanAt<F, C, N, V>(be: Backend<F, C>, rd: Reading<F, N, V>, d: nat, comp: seq<F>, values: seq<seq<F>>, q: QueryHint<F>, k: nat)
    requires d >= 1 && |comp| == Pow2(d) && Sized(d, values) && |values| == |q.folds| + 1
    requires CleanQuery(be, rd, d, comp, values, q) && k < |q.folds|
    ensures k < d && |values[k]| == Pow2(d - k) && |values[k + 1]| == Pow2(d - k - 1)
    ensures CleanRound(be, rd, d, k, values[k], values[k + 1], q.index % Pow2(d - k), q.folds[k])
  {
    hide Clean, CleanRound, Pow2;
    assert |values[k + 1]| == Pow2(d - (k + 1));
  }

  // ------------------------------------------------------------ the last layer

  /** The position in the last layer where a query ends. */
  function LastIndex<F>(d: nat, q: QueryHint<F>): nat
    requires |q.folds| <= d
  {
    q.index % Pow2(d - |q.folds|)
  }

  function FinalValue<F>(q: QueryHint<F>): F {
    Entering(q.foldedValue, q.folds, |q.folds|)
  }

  /** The last folded value of a query reads like the last layer's evaluation there. */
  ghost predicate EndsLikeLastLayer<F, N, V>(rd: Reading<F, N, V>, d: nat, hints: Hints<F>, q: QueryHint<F>) {
    && |q.folds| <= d && |hints.lastLayer| == Pow2(d - |q.folds|)
    && rd.value(FinalValue(q)) == rd.value(hints.lastLayer[LastIndex(d, q)])
  }

  /** The opening of the last layer collides neither in a leaf nor in a pair. */
  ghost predicate CleanEnd<F, C, N, V>(be: Backend<F, C>, rd: Reading<F, N, V>, d: nat, hints: Hints<F>, q: QueryHint<F>) {
    && 1 <= |q.folds| <= d && |hints.lastLayer| == Pow2(d - |q.folds|)
    && Clean(be, rd, hints.lastLayer, d - |q.folds|, FinalValue(q), LastIndex(d, q), q.folds[|q.folds| - 1].merkleProof)
  }

  /** Among reduced values, reading alike is being equal. */
  ghost predicate Canonical<F(!new), N, V>(rd: Reading<F, N, V>, reduced: F -> bool) {
    forall v: F, w: F :: reduced(v) && reduced(w) && rd.value(v) == rd.value(w) ==> v == w
  }

  /** Products are reduced, and sums of reduced values. */
  ghost predicate FieldReduces<F(!new)>(ops: Ops<F>, reduced: F -> bool) {
    && (forall v: F, w: F :: reduced(ops.mul(v, w)))
    && (forall v: F, w: F :: reduced(v) && reduced(w) ==> reduced(ops.add(v, w)))
  }

  /** The siblings a query reveals on its way are reduced. */
  predicate SiblingsReduced<F>(reduced: F -> bool, folds: seq<FoldHint<F>>) {
    forall k | 0 <= k < |folds| :: reduced(folds[k].siblingValue)
  }

  lemma FoldReduced<F(!new)>(ops: Ops<F>, reduced: F -> bool, plus: F, minus: F, alpha: F, inv: Felt)
    requires FieldReduces(ops, reduced) && reduced(plus) && reduced(minus)
    ensures reduced(FoldOf(ops, plus, minus, alpha, inv))
  {
  }

  lemma FirstReduced<F(!new), C>(be: Backend<F, C>, ops: Ops<F>, reduced: F -> bool, d: nat, hints: Hints<F>, x: Challenges<F>, q: QueryHint<F>)
    requires FieldReduces(ops, reduced) && QueryChecks(be, ops, d, hints, x, q)
    ensures reduced(q.foldedValue)
  {
    hide Authentic, WalkChecks, Degenerate, AntipodalOf, Coset, FoldOf, PointChecks, Pow2;
    var p := Coset(d, q.index);
    var px := ops.fromM31(p.x);
    FoldReduced(ops, reduced, Quotient(ops, q.compValue, hints.comboPos, ops.sub(px, x.zx)),
                Quotient(ops, q.compValueNeg, hints.comboNeg, ops.sub(ops.neg(px), x.zx)), x.friAlpha, InverseOf(p.y));
  }

  /** Every value a walk holds is then reduced. */
  lemma {:induction false} WalkReduced<F(!new), C>(be: Backend<F, C>, ops: Ops<F>, reduced: F -> bool, d: nat, alphas: seq<F>, roots: seq<Node>,
                                                  index: nat, first: F, folds: seq<FoldHint<F>>, k: nat)
    requires |folds| < d <= 30 && |folds| <= |alphas| && |folds| < |roots| && k <= |folds|
    requires WalkChecks(be, ops, d, alphas, roots, index, first, folds)
    requires FieldReduces(ops, reduced) && reduced(first) && SiblingsReduced(reduced, folds)
    ensures reduced(Entering(first, folds, k))
    decreases k
  {
    hide WalkChecks, FieldReduces, FoldOf, Authentic, Coset, Chebyshev, Pow2;
    if k > 0 {
      WalkReduced(be, ops, reduced, d, alphas, roots, index, first, folds, k - 1);
      RoundAt(be, ops, d, alphas, roots, index, first, folds, k - 1);
      var size, i, h := Pow2(d - (k - 1) - 1), index % Pow2(d - (k - 1)), folds[k - 1];
      var plus, minus := Entering(first, folds, k - 1), h.siblingValue;
      FoldReduced(ops, reduced, plus, minus, alphas[k - 1], InverseOf(Chebyshev(Coset(d, i % size).x, k - 1)));
      FoldReduced(ops, reduced, minus, plus, alphas[k - 1], InverseOf(Chebyshev(Coset(d, i % size).x, k - 1)));
    }
  }

  /** The last layer, in hints that show what they should.  The contract rebuilds the last
      root and authenticates the final value of every query; it never compares it with the
      evaluations supplied.  Up to a collision the two read alike.  If one of them is
      reduced they are equal iff both are; and the final value is reduced whenever the
      siblings revealed on the way are. */
  lemma FinalValueIsFixed<F(!new), C, N, V>(be: Backend<F, C>, rd: Reading<F, N, V>, ops: Ops<F>, reduced: F -> bool, d: nat,
                                            traceRoot: Node, batchRoot: Node, hints: Hints<F>, i: nat)
    requires Canonical(rd, reduced) && FieldReduces(ops, reduced)
    requires Proves(be, ops, d, traceRoot, batchRoot, hints) && i < |hints.queries|
    requires CleanEnd(be, rd, d, hints, hints.queries[i])
    ensures EndsLikeLastLayer(rd, d, hints, hints.queries[i])
    ensures var q := hints.queries[i];
            var supplied := hints.lastLayer[LastIndex(d, q)];
            && (reduced(FinalValue(q)) || reduced(supplied) ==>
                 (EndsInLastLayer(d, hints, q) <==> reduced(FinalValue(q)) && reduced(supplied)))
            && (SiblingsReduced(reduced, q.folds) ==> reduced(FinalValue(q)))
  {
    hide Replayed, OpeningChecks, Clean, WalkChecks, LayerMatches, Authentic, FieldReduces, Pow2;
    var q := hints.queries[i];
    var x := Replayed(be, ops, Claimed(d, |hints.queries|, traceRoot, batchRoot, hints));
    assert QueryChecks(be, ops, d, hints, x, q) && |q.folds| + 1 == |hints.layerRoots|;
    FinalOpening(be, ops, d, hints, x, q);
    assert LastIndex(d, q) < |hints.lastLayer|;
    AuthenticOpens(be, rd, hints.lastLayer, d - |q.folds|, hints.layerRoots[|q.folds|], FinalValue(q), LastIndex(d, q),
                   q.folds[|q.folds| - 1].merkleProof);
    if SiblingsReduced(reduced, q.folds) {
      FirstReduced(be, ops, reduced, d, hints, x, q);
      WalkReduced(be, ops, reduced, d, x.friAlphas, hints.layerRoots, q.index, q.foldedValue, q.folds, |q.folds|);
    }
  }

  /** The final value of a query is authentic under the last root. */
  lemma FinalOpening<F, C>(be: Backend<F, C>, ops: Ops<F>, d: nat, hints: Hints<F>, x: Challenges<F>, q: QueryHint<F>)
    requires QueryChecks(be, ops, d, hints, x, q) && q.folds != []
    ensures Authentic(be, FinalValue(q), LastIndex(d, q), q.folds[|q.folds| - 1].merkleProof, d - |q.folds|, hints.layerRoots[|q.folds|])
  {
    hide Authentic, LineFold, Coset, Chebyshev, OpeningChecks, WalkChecks, Pow2;
    var k := |q.folds| - 1;
    RoundAt(be, ops, d, x.friAlphas, hints.layerRoots, q.index, q.foldedValue, q.folds, k);
    ModTwice(q.index, d - k - 1);
  }

  /** Layers that read alike. */
  ghost predicate SameLayer<F, N, V>(rd: Reading<F, N, V>, values: seq<F>, others: seq<F>) {
    |values| == |others| && forall i | 0 <= i < |values| :: rd.value(values[i]) == rd.value(others[i])
  }

  lemma QueryLooksPastLastLayer<F, C>(be: Backend<F, C>, ops: Ops<F>, d: nat, hints: Hints<F>, others: seq<F>, x: Challenges<F>, q: QueryHint<F>)
    ensures QueryChecks(be, ops, d, hints, x, q) <==> QueryChecks(be, ops, d, hints.(lastLayer := others), x, q)
  {
    hide Authentic, PointChecks, Degenerate, QuotientFold, WalkChecks, AntipodalOf, Pow2;
  }

  lemma SameReadingSameLayer<F(!new), C, N, V>(be: Backend<F, C>, rd: Reading<F, N, V>, values: seq<F>, others: seq<F>, m: nat, root: Node)
    requires HashesRead(be, rd) && SameLayer(rd, values, others)
    ensures |values| == |others| && (LayerMatches(be, values, m, root) <==> LayerMatches(be, others, m, root))
  {
    hide PairReads, Root, Pow2;
    assert HashAll(be, values) == HashAll(be, others);
  }

  lemma ProvesUpToReading<F(!new), C, N, V>(be: Backend<F, C>, rd: Reading<F, N, V>, ops: Ops<F>, d: nat, traceRoot: Node, batchRoot: Node,
                                            hints: Hints<F>, others: seq<F>)
    requires HashesRead(be, rd) && SameLayer(rd, hints.lastLayer, others)
    ensures Proves(be, ops, d, traceRoot, batchRoot, hints) <==> Proves(be, ops, d, traceRoot, batchRoot, hints.(lastLayer := others))
  {
    hide HashesRead, SameLayer, LayerMatches, QueryChecks, Replayed;
    if 2 <= |hints.layerRoots| <= d {
      var k := |hints.layerRoots| - 1;
      SameReadingSameLayer(be, rd, hints.lastLayer, others, d - k, hints.layerRoots[k]);
      var other := hints.(lastLayer := others);
      assert Claimed(d, |hints.queries|, traceRoot, batchRoot, hints) == Claimed(d, |hints.queries|, traceRoot, batchRoot, other);
      var x := Replayed(be, ops, Claimed(d, |hints.queries|, traceRoot, batchRoot, hints));
      forall i | 0 <= i < |hints.queries|
        ensures QueryChecks(be, ops, d, hints, x, hints.queries[i]) <==> QueryChecks(be, ops, d, other, x, hints.queries[i])
      {
        QueryLooksPastLastLayer(be, ops, d, hints, others, x, hints.queries[i]);
      }
    }
  }

  /** The contract does not tell last layers apart that read alike. */
  lemma LastLayerUpToReading<F(!new), C, N, V>(be: Backend<F, C>, rd: Reading<F, N, V>, ops: Ops<F>, blake: Bytes -> Digest32,
                                               proof: Bytes, commitment: Bytes, merkleRoot: Node, hints: Hints<F>, others: seq<F>)
    requires HashesRead(be, rd) && SameLayer(rd, hints.lastLayer, others)
    ensures Accepts(be, ops, blake, proof, commitment, merkleRoot, hints)
       <==> Accepts(be, ops, blake, proof, commitment, merkleRoot, hints.(lastLayer := others))
  {
    hide HashesRead, Proves, CommitmentOf;
    if |hints.queries| >= 1 && MIN_PROOF_LENGTH <= |proof| {
      ProvesUpToReading(be, rd, ops, hints.queries[0].depth, proof[8..40], merkleRoot, hints, others);
    }
  }
}
