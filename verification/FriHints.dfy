/**
 * The openings of the FRI prover (archive/rust/vfri3-10_bridges.rs): the hints of one
 * query, the walk through its fold rounds, the encoded proof, and exactly when the
 * contract accepts them.
 */
module FriHints {
  import opened Bytes
  import opened Prelude
  import opened Mersenne31
  import opened M31
  import opened CircleDomain
  import opened FriTree
  import opened Fri
  import opened FriContract

  // ------------------------------------------------------------ openings

  /** proof_path on a committed layer opens the value there. */
  method OpenAt<F, C>(be: Backend<F, C>, ghost values: seq<F>, ghost m: nat, levels: Levels, ghost root: Node, i: nat)
    returns (path: seq<Node>)
    requires Committed(be, values, m, levels, root) && i < |values| && m <= 32
    ensures Authentic(be, values[i], i, path, m, root)
    ensures path == PathFrom(be.hashPair, HashAll(be, values), m, 0, i)
  {
    ghost var leaves := HashAll(be, values);
    path := ProofPath(be.hashPair, leaves, m, levels, i);
    PathAuthenticates(be.hashPair, leaves, m, i);
  }

  /** One round of the walk, from the value of layer k at position cur. */
  method FoldStep<F, C>(be: Backend<F, C>, ops: Ops<F>, d: nat, k: nat, alpha: F,
                        values: seq<F>, levels: Levels, ghost root: Node,
                        ghost next: seq<F>, nextLevels: Levels, ghost nextRoot: Node, cur: nat, entering: F)
    returns (h: FoldHint<F>, moved: nat)
    requires k + 1 < d <= 30
    requires Committed(be, values, d - k, levels, root) && Committed(be, next, d - k - 1, nextLevels, nextRoot)
    requires IsFoldOf(ops, d, k, values, next, alpha)
    requires cur < |values| && entering == values[cur]
    ensures RoundChecks(be, ops, d, k, alpha, root, nextRoot, cur, entering, h)
    ensures moved == cur % Pow2(d - k - 1) && moved < |next| && h.foldedValue == next[moved]
  {
    hide Committed, IsFoldOf, Authentic, LineFold, RoundChecks, Coset, Chebyshev, HashAll, PathFrom, Pow2;
    SizesOf(be, values, d - k, levels, root);
    SizesOf(be, next, d - k - 1, nextLevels, nextRoot);
    Pow2Next(d - k - 1);
    var size := |values| / 2;
    assert size == |next|;
    HalfOf(cur, size);
    var sibling := if cur < size then cur + size else cur - size;
    moved := cur % size;
    var sibValue := values[sibling];
    var sibProof := OpenAt(be, values, d - k, levels, root, sibling);
    var plus, minus := if cur < size then entering else sibValue, if cur < size then sibValue else entering;
    var folded := LineFoldAt(ops, d, k, moved, plus, minus, alpha);
    FoldedValue(ops, d, k, values, next, alpha, moved);
    var merkleProof := OpenAt(be, next, d - k - 1, nextLevels, nextRoot, moved);
    h := FoldHint(sibValue, sibProof, folded, merkleProof);
    StepChecks(be, ops, d, k, alpha, root, nextRoot, cur, entering, h, size, moved);
  }

  lemma StepChecks<F, C>(be: Backend<F, C>, ops: Ops<F>, d: nat, k: nat, alpha: F, root: Node, nextRoot: Node,
                         i: nat, entering: F, h: FoldHint<F>, size: nat, moved: nat)
    requires k + 1 < d <= 30 && size == Pow2(d - k - 1) && i < 2 * size && moved == if i < size then i else i - size
    requires Authentic(be, h.siblingValue, if i < size then i + size else i - size, h.siblingProof, d - k, root)
    requires h.foldedValue == (if i < size then LineFold(ops, d, k, moved, entering, h.siblingValue, alpha)
                               else LineFold(ops, d, k, moved, h.siblingValue, entering, alpha))
    requires Authentic(be, h.foldedValue, moved, h.merkleProof, d - k - 1, nextRoot)
    ensures RoundChecks(be, ops, d, k, alpha, root, nextRoot, i, entering, h)
  {
    hide Authentic, LineFold, Coset, Chebyshev, Pow2;
    Pow2Monotone(d - k - 1, d);
    TwiddleIsNonzero(d, k, moved);
    HalfOf(i, size);
  }

  lemma HalfOf(cur: nat, size: nat)
    requires cur < 2 * size
    ensures cur % size == if cur < size then cur else cur - size
  {
    if cur < size {
      QuotientUnique(cur, size, 0, cur);
    } else {
      QuotientUnique(cur, size, 1, cur - size);
    }
  }

  lemma SizesOf<F, C>(be: Backend<F, C>, values: seq<F>, m: nat, levels: Levels, root: Node)
    requires Committed(be, values, m, levels, root)
    ensures |values| == Pow2(m)
  {
  }

  lemma FoldedValue<F>(ops: Ops<F>, d: nat, k: nat, prev: seq<F>, next: seq<F>, alpha: F, j: nat)
    requires IsFoldOf(ops, d, k, prev, next, alpha) && j < |next|
    ensures k < d <= 30 && |prev| == 2 * |next|
    ensures next[j] == LineFold(ops, d, k, j, prev[j], prev[j + |next|], alpha)
  {
  }

  method LineFoldAt<F>(ops: Ops<F>, d: nat, k: nat, j: nat, plus: F, minus: F, alpha: F) returns (v: F)
    requires d <= 30
    ensures v == LineFold(ops, d, k, j, plus, minus, alpha)
  {
    hide Coset, Chebyshev;
    var p := CosetAt(d, j);
    var twiddle := ChebyshevTwiddle(p.x, k);
    var inv := M31Inv(twiddle);
    v := FoldOf(ops, plus, minus, alpha, inv);
  }

  // ------------------------------------------------------------ one query

  lemma EmptyWalk<F, C>(be: Backend<F, C>, ops: Ops<F>, d: nat, alphas: seq<F>, roots: seq<Node>,
                        values: seq<seq<F>>, index: nat, first: F)
    requires 0 < d <= 30 && roots != [] && values != []
    ensures WalkChecks(be, ops, d, alphas, roots, index, first, [])
    ensures Replays(d, values, index, [])
  {
  }

  /** The fold hints of a query: at every round the walk holds the committed value of
      its position, whichever side of the layer it is on. */
  method Walk<F, C>(be: Backend<F, C>, ops: Ops<F>, d: nat, folds: nat, alphas: seq<F>,
                    values: seq<seq<F>>, levels: seq<Levels>, ghost roots: seq<Node>, index: nat, first: F)
    returns (hints: seq<FoldHint<F>>)
    requires IsLayers(be, ops, d, folds, alphas, values, levels, roots)
    requires index < Pow2(d) && |values[0]| == Pow2(d) && first == values[0][index]
    ensures |hints| == folds
    ensures WalkChecks(be, ops, d, alphas, roots, index, first, hints)
    ensures Replays(d, values, index, hints)
  {
    hide RoundChecks, Committed, IsFoldOf, IsLayers, WalkChecks, Replays, Entering, Pow2;
    EnteringFirst(first, []);
    LayerSizes(be, ops, d, folds, alphas, values, levels, roots);
    EmptyWalk(be, ops, d, alphas, roots, values, index, first);
    hints := [];
    var cur := index;
    QuotientUnique(index, Pow2(d), 0, index);
    for k := 0 to folds
      invariant |hints| == k && cur == index % Pow2(d - k) && cur < |values[k]|
      invariant Entering(first, hints, k) == values[k][cur]
      invariant WalkChecks(be, ops, d, alphas, roots, index, first, hints)
      invariant Replays(d, values, index, hints)
    {
      LayerAt(be, ops, d, folds, alphas, values, levels, roots, k);
      var h, moved := FoldStep(be, ops, d, k, alphas[k], values[k], levels[k], roots[k],
                               values[k + 1], levels[k + 1], roots[k + 1], cur, Entering(first, hints, k));
      Halved(cur, index, d, k);
      WalkGrows(be, ops, d, alphas, roots, index, first, hints, h, cur);
      ReplayGrows(d, values, index, hints, h, moved);
      EnteringNext(first, hints + [h], k);
      hints := hints + [h];
      cur := moved;
    }
  }

  /** The folded value of round k is the value of layer k + 1 at the query's index there. */
  ghost predicate Replays<F>(d: nat, values: seq<seq<F>>, index: nat, hints: seq<FoldHint<F>>) {
    && |hints| < |values| && |hints| <= d
    && forall k | 0 <= k < |hints| ::
         && index % Pow2(d - k - 1) < |values[k + 1]|
         && hints[k].foldedValue == values[k + 1][index % Pow2(d - k - 1)]
  }

  lemma RoundKept<F, C>(be: Backend<F, C>, ops: Ops<F>, d: nat, alphas: seq<F>, roots: seq<Node>,
                        index: nat, first: F, hints: seq<FoldHint<F>>, h: FoldHint<F>, k: nat)
    requires k < |hints| < d <= 30 && |hints| < |alphas| && |hints| + 1 < |roots|
    requires RoundOfWalk(be, ops, d, alphas, roots, index, first, hints, k)
    ensures RoundOfWalk(be, ops, d, alphas, roots, index, first, hints + [h], k)
  {
    hide RoundChecks, Pow2;
    assert Entering(first, hints + [h], k) == Entering(first, hints, k) && (hints + [h])[k] == hints[k];
  }

  lemma RoundAdded<F, C>(be: Backend<F, C>, ops: Ops<F>, d: nat, alphas: seq<F>, roots: seq<Node>,
                         index: nat, first: F, hints: seq<FoldHint<F>>, h: FoldHint<F>, cur: nat)
    requires |hints| < d <= 30 && |hints| < |alphas| && |hints| + 1 < |roots|
    requires cur == index % Pow2(d - |hints|)
    requires RoundChecks(be, ops, d, |hints|, alphas[|hints|], roots[|hints|], roots[|hints| + 1],
                         cur, Entering(first, hints, |hints|), h)
    ensures RoundOfWalk(be, ops, d, alphas, roots, index, first, hints + [h], |hints|)
  {
    hide RoundChecks, Pow2;
    assert Entering(first, hints + [h], |hints|) == Entering(first, hints, |hints|);
  }

  lemma WalkGrows<F, C>(be: Backend<F, C>, ops: Ops<F>, d: nat, alphas: seq<F>, roots: seq<Node>,
                        index: nat, first: F, hints: seq<FoldHint<F>>, h: FoldHint<F>, cur: nat)
    requires |hints| + 1 < d <= 30 && |hints| < |alphas| && |hints| + 1 < |roots|
    requires WalkChecks(be, ops, d, alphas, roots, index, first, hints)
    requires cur == index % Pow2(d - |hints|)
    requires RoundChecks(be, ops, d, |hints|, alphas[|hints|], roots[|hints|], roots[|hints| + 1],
                         cur, Entering(first, hints, |hints|), h)
    ensures WalkChecks(be, ops, d, alphas, roots, index, first, hints + [h])
  {
    hide RoundChecks, RoundOfWalk, Entering, Pow2;
    RoundAdded(be, ops, d, alphas, roots, index, first, hints, h, cur);
    forall k | 0 <= k < |hints|
      ensures RoundOfWalk(be, ops, d, alphas, roots, index, first, hints + [h], k)
    {
      RoundKept(be, ops, d, alphas, roots, index, first, hints, h, k);
    }
  }

  lemma ReplayGrows<F>(d: nat, values: seq<seq<F>>, index: nat, hints: seq<FoldHint<F>>, h: FoldHint<F>, moved: nat)
    requires Replays(d, values, index, hints) && |hints| + 1 < |values| && |hints| < d
    requires moved == index % Pow2(d - |hints| - 1) && moved < |values[|hints| + 1]|
    requires h.foldedValue == values[|hints| + 1][moved]
    ensures Replays(d, values, index, hints + [h])
  {
    hide Pow2;
  }

  lemma LayerAt<F, C>(be: Backend<F, C>, ops: Ops<F>, d: nat, folds: nat, alphas: seq<F>,
                      values: seq<seq<F>>, levels: seq<Levels>, roots: seq<Node>, k: nat)
    requires IsLayers(be, ops, d, folds, alphas, values, levels, roots) && k < folds
    ensures Committed(be, values[k], d - k, levels[k], roots[k])
    ensures Committed(be, values[k + 1], d - k - 1, levels[k + 1], roots[k + 1])
    ensures IsFoldOf(ops, d, k, values[k], values[k + 1], alphas[k])
  {
    hide Committed, IsFoldOf;
    assert Committed(be, values[k + 1], d - (k + 1), levels[k + 1], roots[k + 1]);
  }

  /** What the hints of a run reveal of its chain. */
  function HintsOf<F>(ch: Chain<F>, queries: seq<QueryHint<F>>): Hints<F>
    requires ch.layerValues != []
  {
    Hints(ch.comboPos, ch.comboNeg, ch.compRoot, ch.layerValues[|ch.layerValues| - 1], ch.layerRoots, queries)
  }

  lemma ChainLayers<F, C>(be: Backend<F, C>, ops: Ops<F>, inp: Input, folds: nat, ch: Chain<F>)
    requires IsChain(be, ops, inp, folds, ch)
    ensures 1 <= folds < inp.depth <= 30
    ensures IsLayers(be, ops, inp.depth, folds, ch.challenges.friAlphas, ch.layerValues, ch.layerLevels, ch.layerRoots)
    ensures Committed(be, ch.compValues, inp.depth, ch.compLevels, ch.compRoot)
    ensures Committed(be, ch.layerValues[0], inp.depth, ch.layerLevels[0], ch.layerRoots[0])
    ensures IsFirstLayer(ops, inp.depth, ch.compValues, ch.comboPos, ch.comboNeg, ch.challenges.zx,
                         ch.challenges.friAlpha, ch.layerValues[0])
    ensures |ch.compValues| == |ch.layerValues[0]| == Pow2(inp.depth)
    ensures |ch.layerValues[folds]| == Pow2(inp.depth - folds)
  {
    hide IsLayers, Committed, IsFirstLayer, IsComposition, TraceRoot, Fri.Combined, Replayed;
    LayersOf(be, ops, inp.depth, folds, ch.challenges.friAlphas, ch.layerValues, ch.layerLevels, ch.layerRoots);
    SizesOf(be, ch.compValues, inp.depth, ch.compLevels, ch.compRoot);
  }

  lemma LayersOf<F, C>(be: Backend<F, C>, ops: Ops<F>, d: nat, folds: nat, alphas: seq<F>,
                       values: seq<seq<F>>, levels: seq<Levels>, roots: seq<Node>)
    requires IsLayers(be, ops, d, folds, alphas, values, levels, roots)
    ensures |values| == |levels| == |roots| == folds + 1
    ensures Committed(be, values[0], d, levels[0], roots[0])
    ensures |values[0]| == Pow2(d) && |values[folds]| == Pow2(d - folds)
  {
    hide IsFoldOf, IsTree, Root;
    assert Committed(be, values[0], d - 0, levels[0], roots[0]);
    assert Committed(be, values[folds], d - folds, levels[folds], roots[folds]);
  }

  lemma FirstLayerValue<F>(ops: Ops<F>, d: nat, comp: seq<F>, pos: F, neg: F, zx: F, alpha: F, values: seq<F>, q: nat)
    requires IsFirstLayer(ops, d, comp, pos, neg, zx, alpha, values) && q < |values|
    ensures 1 <= d <= 30 && |comp| == |values| == Pow2(d)
    ensures !Degenerate(ops, d, q, zx)
    ensures values[q] == QuotientFold(ops, d, q, comp[q], comp[AntipodalOf(d, q)], pos, neg, zx, alpha)
  {
    hide QuotientFold, Degenerate;
  }

  lemma Assembled<F, C>(be: Backend<F, C>, ops: Ops<F>, d: nat, hints: Hints<F>, x: Challenges<F>,
                        start: QueryHint<F>, folds: seq<FoldHint<F>>)
    requires hints.layerRoots != [] && OpeningChecks(be, ops, d, hints, x, start)
    requires |hints.layerRoots| == |folds| + 1 == |x.friAlphas| + 1 && |folds| < d <= 30
    requires WalkChecks(be, ops, d, x.friAlphas, hints.layerRoots, start.index, start.foldedValue, folds)
    ensures QueryChecks(be, ops, d, hints, x, start.(folds := folds))
  {
    hide Authentic, PointChecks, Degenerate, WalkChecks, QuotientFold, AntipodalOf, Pow2;
  }

  /** The last folded value of a query is the last layer's evaluation at its index. */
  ghost predicate EndsInLastLayer<F>(d: nat, hints: Hints<F>, q: QueryHint<F>) {
    && |q.folds| <= d && |hints.lastLayer| == Pow2(d - |q.folds|)
    && Entering(q.foldedValue, q.folds, |q.folds|) == hints.lastLayer[q.index % Pow2(d - |q.folds|)]
  }

  /** Every domain point passes the verifier's checks of a query point. */
  lemma DomainPointChecks(d: nat, q: nat)
    requires 1 <= d <= 30 && q < Pow2(d)
    ensures PointChecks(d, q, Coset(d, q).x, Coset(d, q).y)
  {
    hide Times, CosetIndex, Pow2;
    var p := Coset(d, q);
    OrdinateIsNonzero(d, q);
    GeneratorOnCircle();
    TimesOnCircle(GENERATOR, CosetIndex(d, q));
    SumMod(p.x * p.x, p.y * p.y);
  }

  lemma LastOfWalk<F>(d: nat, values: seq<seq<F>>, index: nat, first: F, folds: seq<FoldHint<F>>)
    requires Replays(d, values, index, folds) && folds != [] && |values| == |folds| + 1
    ensures index % Pow2(d - |folds|) < |values[|folds|]|
    ensures Entering(first, folds, |folds|) == values[|folds|][index % Pow2(d - |folds|)]
  {
    hide Pow2;
    assert folds[|folds| - 1].foldedValue == values[|folds|][index % Pow2(d - (|folds| - 1) - 1)];
  }

  /** The openings of a query, before its walk. */
  method OpenQuery<F, C>(be: Backend<F, C>, ops: Ops<F>, inp: Input, ghost folds: nat, ch: Chain<F>, index: nat)
    returns (q: QueryHint<F>)
    requires IsChain(be, ops, inp, folds, ch) && index < Pow2(inp.depth)
    ensures q.index == index && index < |ch.layerValues[0]| && q.foldedValue == ch.layerValues[0][index]
    ensures ch.layerRoots != [] && OpeningChecks(be, ops, inp.depth, HintsOf(ch, []), ch.challenges, q)
  {
    hide Committed, IsFirstLayer, IsChain, IsLayers, Authentic, PointChecks, Degenerate, QuotientFold, Coset, AntipodalOf, Pow2;
    var d, x := inp.depth, ch.challenges;
    ChainLayers(be, ops, inp, folds, ch);
    LayerSizes(be, ops, d, folds, x.friAlphas, ch.layerValues, ch.layerLevels, ch.layerRoots);
    FirstLayerValue(ops, d, ch.compValues, ch.comboPos, ch.comboNeg, x.zx, x.friAlpha, ch.layerValues[0], index);
    DomainPointChecks(d, index);
    var anti := AntipodalOf(d, index);
    var point := CosetAt(d, index);
    var compProof := OpenAt(be, ch.compValues, d, ch.compLevels, ch.compRoot, index);
    var compProofNeg := OpenAt(be, ch.compValues, d, ch.compLevels, ch.compRoot, anti);
    var l1 := OpenAt(be, ch.layerValues[0], d, ch.layerLevels[0], ch.layerRoots[0], index);
    var folded := QuotientFoldAt(ops, d, point, index, ch.compValues[index], ch.compValues[anti],
                                 ch.comboPos, ch.comboNeg, x.zx, x.friAlpha);
    q := QueryHint(index, d, ch.compValues[index], compProof, ch.compValues[anti], compProofNeg, folded,
                   point.x, point.y, l1, []);
  }

  /** The hints of one query. */
  method QueryHintAt<F, C>(be: Backend<F, C>, ops: Ops<F>, inp: Input, folds: nat, ch: Chain<F>, index: nat)
    returns (q: QueryHint<F>)
    requires IsChain(be, ops, inp, folds, ch) && index < Pow2(inp.depth)
    ensures q.index == index && q.depth == inp.depth && |q.folds| == folds
    ensures Replays(inp.depth, ch.layerValues, index, q.folds)
    ensures ch.layerValues != [] && QueryChecks(be, ops, inp.depth, HintsOf(ch, []), ch.challenges, q)
    ensures EndsInLastLayer(inp.depth, HintsOf(ch, []), q)
  {
    hide Committed, IsFirstLayer, IsChain, IsLayers, OpeningChecks, WalkChecks, Replays, QueryChecks, Entering, Pow2;
    var d, x := inp.depth, ch.challenges;
    ChainLayers(be, ops, inp, folds, ch);
    LayerSizes(be, ops, d, folds, x.friAlphas, ch.layerValues, ch.layerLevels, ch.layerRoots);
    var start := OpenQuery(be, ops, inp, folds, ch, index);
    DepthOf(be, ops, d, HintsOf(ch, []), x, start);
    var walk := Walk(be, ops, d, folds, x.friAlphas, ch.layerValues, ch.layerLevels, ch.layerRoots, index, start.foldedValue);
    LastOfWalk(d, ch.layerValues, index, start.foldedValue, walk);
    q := start.(folds := walk);
    Assembled(be, ops, d, HintsOf(ch, []), x, start, walk);
  }

  lemma DepthOf<F, C>(be: Backend<F, C>, ops: Ops<F>, d: nat, hints: Hints<F>, x: Challenges<F>, q: QueryHint<F>)
    requires hints.layerRoots != [] && OpeningChecks(be, ops, d, hints, x, q)
    ensures q.depth == d
  {
  }

  /** A query's checks do not look at the other queries. */
  lemma QueriesApart<F, C>(be: Backend<F, C>, ops: Ops<F>, d: nat, ch: Chain<F>, x: Challenges<F>,
                           q: QueryHint<F>, queries: seq<QueryHint<F>>)
    requires ch.layerValues != [] && QueryChecks(be, ops, d, HintsOf(ch, []), x, q)
    ensures QueryChecks(be, ops, d, HintsOf(ch, queries), x, q)
  {
    hide Authentic, PointChecks, Degenerate, WalkChecks, QuotientFold, AntipodalOf, Pow2;
  }

  // ------------------------------------------------------------ the proof

  datatype Output<F> = Output(proof: Bytes, commitment: Bytes, hints: Hints<F>)

  function LittleEndian(v: nat, n: nat): (b: Bytes)
    ensures |b| == n
  {
    if n == 0 then [] else [(v % 256) as Byte] + LittleEndian(v / 256, n - 1)
  }

  const FILLER: Byte := 0x01

  const PROOF_SIZE: nat := 700

  /** Eight bytes of version, the trace root, and filler. */
  function ProofBytes(version: nat, traceRoot: Node): (p: Bytes)
    ensures |p| == PROOF_SIZE && p[8..40] == traceRoot
  {
    LittleEndian(version, 8) + traceRoot + seq(PROOF_SIZE - 40, _ => FILLER)
  }

  method EncodeProof(version: nat, traceRoot: Node) returns (proof: Bytes)
    ensures proof == ProofBytes(version, traceRoot)
  {
    hide LittleEndian;
    proof := seq(PROOF_SIZE, _ => FILLER);
    proof := LittleEndian(version, 8) + proof[8..];
    assert proof[..8] == LittleEndian(version, 8);
    assert proof[40..] == seq(PROOF_SIZE - 40, _ => FILLER);
    proof := proof[..8] + traceRoot + proof[40..];
  }

  lemma {:induction false} LittleEndianInjective(v: nat, w: nat, n: nat)
    requires LittleEndian(v, n) == LittleEndian(w, n) && v < Pow2(8 * n) && w < Pow2(8 * n)
    ensures v == w
  {
    if n > 0 {
      var a, b := LittleEndian(v, n), LittleEndian(w, n);
      assert a[0] == b[0] && a[1..] == LittleEndian(v / 256, n - 1) && b[1..] == LittleEndian(w / 256, n - 1);
      Pow2Adds(8, 8 * (n - 1));
      Pow2Of8();
      LittleEndianInjective(v / 256, w / 256, n - 1);
    }
  }

  lemma Pow2Of8()
    ensures Pow2(8) == 256
  {
    assert Pow2(4) == 16;
    Pow2Adds(4, 4);
  }

  /** Exactly what the commitment's hash input fixes: the version, the batch root, and
      24 of the trace root's 32 bytes.  Trace roots that differ only in the last eight
      share every commitment. */
  lemma CommitmentInput(v: nat, w: nat, root1: Node, root2: Node, batch1: Digest32, batch2: Digest32)
    requires v < Pow2(64) && w < Pow2(64)
    ensures ProofBytes(v, root1)[..32] + batch1 == ProofBytes(w, root2)[..32] + batch2
       <==> v == w && root1[..24] == root2[..24] && batch1 == batch2
  {
    var p, q := ProofBytes(v, root1), ProofBytes(w, root2);
    assert p[..32] == LittleEndian(v, 8) + root1[..24];
    assert q[..32] == LittleEndian(w, 8) + root2[..24];
    if p[..32] + batch1 == q[..32] + batch2 {
      SplitsOnce(p[..32], batch1, q[..32], batch2);
      SplitsOnce(LittleEndian(v, 8), root1[..24], LittleEndian(w, 8), root2[..24]);
      LittleEndianInjective(v, w, 8);
    }
  }

  /** The version field, read back: byte i counts 256^i. */
  lemma {:induction false} LittleEndianSpells(v: nat, n: nat)
    requires v < Pow256(n)
    ensures Value(Reversed(LittleEndian(v, n))) == v
  {
    if n > 0 {
      var rest := LittleEndian(v / 256, n - 1);
      LittleEndianSpells(v / 256, n - 1);
      assert LittleEndian(v, n)[1..] == rest;
      ValueOfLast(Reversed(rest), (v % 256) as Byte);
    }
  }

  function Reversed(b: Bytes): Bytes {
    if b == [] then [] else Reversed(b[1..]) + [b[0]]
  }

  lemma LastLayerOf<F, C>(be: Backend<F, C>, ops: Ops<F>, inp: Input, folds: nat, ch: Chain<F>)
    requires IsChain(be, ops, inp, folds, ch)
    ensures 1 <= folds < inp.depth <= 30 && |ch.layerValues| == |ch.layerRoots| == folds + 1
    ensures LayerMatches(be, ch.layerValues[folds], inp.depth - folds, ch.layerRoots[folds])
  {
    hide IsLayers, IsFirstLayer, IsComposition, Fri.Combined, Replayed, TraceRoot, IsTree, Root;
    ChainLayers(be, ops, inp, folds, ch);
    LayerSizes(be, ops, inp.depth, folds, ch.challenges.friAlphas, ch.layerValues, ch.layerLevels, ch.layerRoots);
  }

  lemma ManyQueriesProve<F, C>(be: Backend<F, C>, ops: Ops<F>, inp: Input, folds: nat, ch: Chain<F>, queries: seq<QueryHint<F>>)
    requires IsChain(be, ops, inp, folds, ch)
    requires |queries| == |ch.challenges.indices| == inp.nQueries
    requires forall i | 0 <= i < |queries| ::
      && queries[i].index == ch.challenges.indices[i] && queries[i].depth == inp.depth && |queries[i].folds| == folds
      && QueryChecks(be, ops, inp.depth, HintsOf(ch, []), ch.challenges, queries[i])
    ensures Proves(be, ops, inp.depth, ch.traceRoot, inp.batchRoot, HintsOf(ch, queries))
    ensures |ch.layerRoots| == folds + 1 && |inp.batchRoot| == 32
  {
    hide QueryChecks, IsLayers, IsFirstLayer, IsComposition, Fri.Combined, Replayed, TraceRoot, LayerMatches, Pow2;
    LastLayerOf(be, ops, inp, folds, ch);
    forall i | 0 <= i < |queries|
      ensures QueryChecks(be, ops, inp.depth, HintsOf(ch, queries), ch.challenges, queries[i])
    {
      QueriesApart(be, ops, inp.depth, ch, ch.challenges, queries[i], queries);
    }
  }

  /** What the generator promises of its output: the encoded proof, hints that show what
      they should, and every query's walk ending in the last layer. */
  ghost predicate Made<F, C>(be: Backend<F, C>, ops: Ops<F>, blake: Bytes -> Digest32, inp: Input, out: Output<F>)
    requires Shaped(inp)
  {
    && out.proof == ProofBytes(be.version, TraceRoot(be, inp))
    && out.commitment == CommitmentOf(blake, out.proof, inp.batchRoot)
    && |out.hints.queries| == inp.nQueries && FoldCount(inp) == Some(|out.hints.layerRoots| - 1)
    && Proves(be, ops, inp.depth, TraceRoot(be, inp), inp.batchRoot, out.hints)
    && forall i | 0 <= i < |out.hints.queries| :: EndsInLastLayer(inp.depth, out.hints, out.hints.queries[i])
  }

  /** The commitment of an output: the first 16 bytes of the hash of the version, 24 bytes
      of the trace root and the batch root. */
  lemma CommitmentIsHash<F, C>(be: Backend<F, C>, ops: Ops<F>, blake: Bytes -> Digest32, inp: Input, out: Output<F>)
    requires Shaped(inp) && Made(be, ops, blake, inp, out)
    ensures out.commitment == blake(LittleEndian(be.version, 8) + TraceRoot(be, inp)[..24] + inp.batchRoot)[..16]
    ensures out.proof == LittleEndian(be.version, 8) + TraceRoot(be, inp) + seq(PROOF_SIZE - 40, _ => FILLER)
  {
    hide Proves, TraceRoot, EndsInLastLayer, LittleEndian;
    assert out.proof[..32] == LittleEndian(be.version, 8) + TraceRoot(be, inp)[..24];
  }

  /** Refused is every commitment but that of the proof's first 32 bytes and the batch root. */
  lemma WrongCommitmentIsRefused<F, C>(be: Backend<F, C>, ops: Ops<F>, blake: Bytes -> Digest32,
                                       proof: Bytes, commitment: Bytes, merkleRoot: Node, hints: Hints<F>)
    ensures |proof| < MIN_PROOF_LENGTH || commitment != blake(proof[..32] + merkleRoot)[..16] ==>
              !Accepts(be, ops, blake, proof, commitment, merkleRoot, hints)
  {
    hide Proves, NonZero;
  }

  lemma MadeFrom<F, C>(be: Backend<F, C>, ops: Ops<F>, blake: Bytes -> Digest32, inp: Input, folds: nat, ch: Chain<F>,
                       queries: seq<QueryHint<F>>, out: Output<F>)
    requires IsChain(be, ops, inp, folds, ch) && ch.layerValues != [] && |inp.batchRoot| == 32
    requires out.proof == ProofBytes(be.version, ch.traceRoot) && out.commitment == CommitmentOf(blake, out.proof, inp.batchRoot)
    requires out.hints == HintsOf(ch, queries) && |queries| == inp.nQueries && |ch.layerRoots| == folds + 1
    requires Proves(be, ops, inp.depth, ch.traceRoot, inp.batchRoot, out.hints)
    requires forall i | 0 <= i < |queries| :: EndsInLastLayer(inp.depth, HintsOf(ch, []), queries[i])
    ensures Shaped(inp) && Made(be, ops, blake, inp, out)
  {
    hide Proves, TraceRoot, IsLayers, IsFirstLayer, IsComposition, Fri.Combined, Replayed, ProofBytes, CommitmentOf, Pow2;
  }

  /** Exactly which outputs of the generator the contract accepts. */
  ghost predicate Acceptable<F>(ops: Ops<F>, inp: Input, out: Output<F>) {
    && FoldCount(inp).Some? && FoldCount(inp).value <= MAX_FOLD_ROUNDS
    && inp.depth - FoldCount(inp).value <= LAST_LAYER_LOG
    && NonZero(ops, out.commitment, inp.batchRoot, out.hints)
  }

  lemma AcceptedIff<F, C>(be: Backend<F, C>, ops: Ops<F>, blake: Bytes -> Digest32, inp: Input, out: Output<F>)
    requires Shaped(inp) && Made(be, ops, blake, inp, out)
    ensures Accepts(be, ops, blake, out.proof, out.commitment, inp.batchRoot, out.hints) <==> Acceptable(ops, inp, out)
  {
    hide Proves, Accepts, NonZero, CommitmentOf, TraceRoot, EndsInLastLayer;
    AcceptsIff(be, ops, blake, inp.depth, out.proof, out.commitment, inp.batchRoot, out.hints);
  }

  /** Runs the generator completes and the contract refuses, whatever their columns: all
      folds of a domain of size 2^30, and one fold of one of size 2^18. */
  lemma RefusedRuns<F, C>(be: Backend<F, C>, ops: Ops<F>, blake: Bytes -> Digest32, inp: Input, out: Output<F>)
    requires Shaped(inp) && Made(be, ops, blake, inp, out)
    requires (inp.depth == 30 && inp.numFolds == None) || (inp.depth == 18 && inp.numFolds == Some(1))
    ensures !Accepts(be, ops, blake, out.proof, out.commitment, inp.batchRoot, out.hints)
  {
    hide NonZero, Made, Accepts;
    assert FoldCount(inp) == Some(if inp.depth == 30 then 29 else 1);
    AcceptedIff(be, ops, blake, inp, out);
  }

  /** The smallest inputs of both families. */
  function RefusedInput(deep: bool): Input {
    var d := if deep then 30 else 18;
    Input([seq(Pow2(d), _ => 0)], d, Zeros(32), 1, if deep then None else Some(1))
  }

  /** The first challenge is, up to sign, no abscissa of the base field. */
  ghost predicate OffBaseField<F>(ops: Ops<F>, zx: F) {
    forall x: Felt :: ops.sub(ops.fromM31(x), zx) != ops.zero && ops.sub(ops.neg(ops.fromM31(x)), zx) != ops.zero
  }

  /** The generator does complete them, whenever its first challenge is off the base field. */
  lemma RefusedRunsProceed<F, C(!new)>(be: Backend<F, C>, ops: Ops<F>, deep: bool)
    requires forall c :: OffBaseField(ops, be.drawFelt(c).1)
    ensures Proceeds(be, ops, RefusedInput(deep))
  {
    hide Pow2, TraceRoot, Coset;
    var inp := RefusedInput(deep);
    assert |inp.cols| == 1 && |inp.cols[0]| == Pow2(inp.depth);
    var c := be.mixFull(be.init, TraceRoot(be, inp));
    assert AfterTrace(be, TraceRoot(be, inp)).1 == be.drawFelt(c).1;
    assert OffBaseField(ops, be.drawFelt(c).1);
    forall q | 0 <= q < Pow2(inp.depth) ensures !Degenerate(ops, inp.depth, q, be.drawFelt(c).1) {
      var x: Felt := Coset(inp.depth, q).x;
      assert ops.sub(ops.fromM31(x), be.drawFelt(c).1) != ops.zero;
    }
  }

  /** Integers for the extension field, and a challenge none of the abscissas reaches. */
  function IntegerOps(): Ops<int> {
    Ops(0, 1, (a: int, b: int) => a + b, (a: int, b: int) => a - b, (a: int, b: int) => a * b, (a: int) => a, (a: int) => -a,
        (n: nat) => n, (a: int, n: Felt) => a * n, (a: int, n: nat) => a * n, (a: int) => [],
        (col: seq<nat>, d: nat, z: int) => z)
  }

  function IntegerBackend(): Backend<int, int> {
    Backend(0, (row: seq<nat>) => Zeros(32), (v: int) => Zeros(32), (l: Node, r: Node) => l, 0,
            (c: int, root: Node) => c, (c: int, root: Node) => c, (c: int, ws: seq<nat>) => c,
            (c: int) => (c, M31_P), (c: int, log: nat, n: nat) => seq(n, _ => 0))
  }

  /** An instance of both. */
  lemma RefusedRunsExist(deep: bool)
    ensures DrawsInRange(IntegerBackend()) && Proceeds(IntegerBackend(), IntegerOps(), RefusedInput(deep))
  {
    hide Proceeds, Pow2;
    forall c: int ensures OffBaseField(IntegerOps(), IntegerBackend().drawFelt(c).1) {
    }
    RefusedRunsProceed(IntegerBackend(), IntegerOps(), deep);
  }

  /** The generator.  It returns on every well-formed input whose challenge avoids the
      domain; its hints then show what the verifier asks for; and the contract accepts
      them iff there are at most 28 folds, the last layer has at most 2^16 values, and
      none of the values it refuses as zero is zero. */
  method GenHints<F, C(!new)>(be: Backend<F, C>, ops: Ops<F>, blake: Bytes -> Digest32, inp: Input)
    returns (r: Result<Output<F>, Error>)
    requires DrawsInRange(be)
    ensures r.Success? <==> Proceeds(be, ops, inp)
    ensures r.Failure? ==> Refused(be, ops, inp, r.error)
    ensures r.Success? ==> Shaped(inp) && Made(be, ops, blake, inp, r.value)
    ensures r.Success? ==>
      (Accepts(be, ops, blake, r.value.proof, r.value.commitment, inp.batchRoot, r.value.hints)
       <==> Acceptable(ops, inp, r.value))
  {
    hide Accepts, Acceptable, Proves, EndsInLastLayer, IsChain, QueryChecks, Refused, Proceeds, Replays, Made, TraceRoot, DrawsInRange,
         HintsOf, ProofBytes, CommitmentOf, Pow2;
    var made := FriChain(be, ops, inp);
    if made.Failure? {
      return Failure(made.error);
    }
    var ch := made.value;
    ghost var folds := FoldCount(inp).value;
    ChainFacts(be, ops, inp, folds, ch);
    var queries: seq<QueryHint<F>> := [];
    while |queries| < |ch.challenges.indices|
      invariant |queries| <= |ch.challenges.indices|
      invariant forall i | 0 <= i < |queries| ::
        && queries[i].index == ch.challenges.indices[i] && queries[i].depth == inp.depth && |queries[i].folds| == folds
        && QueryChecks(be, ops, inp.depth, HintsOf(ch, []), ch.challenges, queries[i])
        && EndsInLastLayer(inp.depth, HintsOf(ch, []), queries[i])
    {
      var q := QueryHintAt(be, ops, inp, |ch.layerValues| - 1, ch, ch.challenges.indices[|queries|]);
      queries := queries + [q];
    }
    ManyQueriesProve(be, ops, inp, folds, ch, queries);
    var proof := EncodeProof(be.version, ch.traceRoot);
    var out := Output(proof, CommitmentOf(blake, proof, inp.batchRoot), HintsOf(ch, queries));
    MadeFrom(be, ops, blake, inp, folds, ch, queries, out);
    AcceptedIff(be, ops, blake, inp, out);
    r := Success(out);
  }

  lemma ChainFacts<F, C(!new)>(be: Backend<F, C>, ops: Ops<F>, inp: Input, folds: nat, ch: Chain<F>)
    requires DrawsInRange(be) && IsChain(be, ops, inp, folds, ch)
    ensures |ch.layerValues| == folds + 1 && |inp.batchRoot| == 32
    ensures |ch.challenges.indices| == inp.nQueries
    ensures forall i | 0 <= i < |ch.challenges.indices| :: ch.challenges.indices[i] < Pow2(inp.depth)
  {
    hide IsLayers, IsFirstLayer, IsComposition, Fri.Combined, TraceRoot, Replayed, Pow2;
    LayersOf(be, ops, inp.depth, folds, ch.challenges.friAlphas, ch.layerValues, ch.layerLevels, ch.layerRoots);
    DrawsAll(be, ops, PublicOf(inp, ch));
  }
}
