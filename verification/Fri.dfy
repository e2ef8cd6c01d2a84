/**
 * The FRI hint generator (archive/rust/vfri3-10_bridges.rs; its shared form is
 * vfri_fri_chain and gen_vfri_hints_from_cols_nfolds of
 * stark_stwo/src/vfri2_bridge.rs), generic in the hash backend and in the extension
 * field, and the verifier's side of the same protocol.
 */
module Fri {
  import opened Bytes
  import opened Prelude
  import opened M31
  import opened CircleDomain
  import opened FriTree

  /** Extension-field operations, taken as arbitrary functions. */
  datatype Ops<!F(==)> = Ops(
    zero: F,
    one: F,
    add: (F, F) -> F,
    sub: (F, F) -> F,
    mul: (F, F) -> F,
    inv: F -> F,
    neg: F -> F,
    fromM31: nat -> F,
    scale: (F, Felt) -> F,
    mulM31: (F, nat) -> F,
    words: F -> seq<nat>,
    evalEven: (seq<nat>, nat, F) -> F)

  /** A hash backend: leaf and pair hashes, and the Fiat-Shamir channel. */
  datatype Backend<!F, !C> = Backend(
    version: nat,
    hashCols: seq<nat> -> Node,
    hashFelt: F -> Node,
    hashPair: PairHash,
    init: C,
    mixFull: (C, Node) -> C,
    mixWide: (C, Node) -> C,
    mixWords: (C, seq<nat>) -> C,
    drawFelt: C -> (C, F),
    drawQueries: (C, nat, nat) -> seq<nat>)

  /** What every draw_queries promises. */
  ghost predicate DrawsInRange<F, C(!new)>(be: Backend<F, C>) {
    forall c: C, log: nat, n: nat ::
      |be.drawQueries(c, log, n)| == n && forall i | 0 <= i < n :: be.drawQueries(c, log, n)[i] < Pow2(log)
  }

  datatype Input = Input(cols: seq<seq<nat>>, depth: nat, batchRoot: Bytes, nQueries: nat, numFolds: Option<nat>)

  datatype Error =
    | NoColumns
    | BadBatchRoot
    | BadQueryCount
    | BadDepth
    | BadColumn(j: nat)
    | DegenerateDenominator(q: nat)
    | BadFoldCount
    | ZeroTwiddle(k: nat, j: nat)

  // ------------------------------------------------------------ the formulas

  function FoldOf<F>(ops: Ops<F>, plus: F, minus: F, alpha: F, inv: Felt): F {
    ops.add(ops.add(plus, minus), ops.mul(alpha, ops.scale(ops.sub(plus, minus), inv)))
  }

  /** The quotient of a value and its claimed evaluation. */
  function Quotient<F>(ops: Ops<F>, value: F, claimed: F, denominator: F): F {
    ops.mul(ops.sub(value, claimed), ops.inv(denominator))
  }

  function PowerOf<F>(ops: Ops<F>, alpha: F, n: nat): F {
    if n == 0 then ops.one else ops.mul(PowerOf(ops, alpha, n - 1), alpha)
  }

  /** The sum of alpha^i times the i-th evaluation, the first n terms. */
  function Combined<F>(ops: Ops<F>, evals: seq<F>, alpha: F, n: nat): F
    requires n <= |evals|
  {
    if n == 0 then ops.zero
    else ops.add(Combined(ops, evals, alpha, n - 1), ops.mul(PowerOf(ops, alpha, n - 1), evals[n - 1]))
  }

  /** The composition value of row i: the same sum over the base-field columns. */
  function Composed<F>(ops: Ops<F>, cols: seq<seq<nat>>, alpha: F, i: nat, n: nat): F
    requires n <= |cols| && forall j | 0 <= j < |cols| :: i < |cols[j]|
  {
    if n == 0 then ops.zero
    else ops.add(Composed(ops, cols, alpha, i, n - 1), ops.mulM31(PowerOf(ops, alpha, n - 1), cols[n - 1][i]))
  }

  function Row(cols: seq<seq<nat>>, i: nat): seq<nat>
    requires forall j | 0 <= j < |cols| :: i < |cols[j]|
  {
    seq(|cols|, j requires 0 <= j < |cols| => cols[j][i])
  }

  function HashAll<F, C>(be: Backend<F, C>, values: seq<F>): (leaves: seq<Node>)
    ensures |leaves| == |values|
  {
    seq<Node>(|values|, i requires 0 <= i < |values| => be.hashFelt(values[i]))
  }

  /** The quotient-and-fold of the two opposite composition values of point q. */
  ghost function QuotientFold<F>(ops: Ops<F>, d: nat, q: nat, comp: F, compNeg: F, pos: F, neg: F, zx: F, alpha: F): F
    requires d <= 30
  {
    var p := Coset(d, q);
    var px := ops.fromM31(p.x);
    var plus := Quotient(ops, comp, pos, ops.sub(px, zx));
    var minus := Quotient(ops, compNeg, neg, ops.sub(ops.neg(px), zx));
    FoldOf(ops, plus, minus, alpha, InverseOf(p.y))
  }

  /** A line fold at position j of round k. */
  ghost function LineFold<F>(ops: Ops<F>, d: nat, k: nat, j: nat, plus: F, minus: F, alpha: F): F
    requires d <= 30
  {
    FoldOf(ops, plus, minus, alpha, InverseOf(Chebyshev(Coset(d, j).x, k)))
  }

  // ------------------------------------------------------------ the transcript

  /** What the verifier sees of a proof before it draws anything. */
  datatype Public<F> = Public(
    traceRoot: Node,
    comboPos: F,
    comboNeg: F,
    compRoot: Node,
    layerRoots: seq<Node>,
    batchRoot: Node,
    depth: nat,
    nQueries: nat)

  datatype Challenges<F> = Challenges(zx: F, compAlpha: F, friAlpha: F, friAlphas: seq<F>, indices: seq<nat>)

  function AfterTrace<F, C>(be: Backend<F, C>, traceRoot: Node): (C, F, F) {
    var (c1, zx) := be.drawFelt(be.mixFull(be.init, traceRoot));
    var (c2, compAlpha) := be.drawFelt(c1);
    (c2, zx, compAlpha)
  }

  function AfterComposition<F, C>(be: Backend<F, C>, ops: Ops<F>, c: C, pos: F, neg: F, compRoot: Node): (C, F) {
    be.drawFelt(be.mixWide(be.mixWords(c, ops.words(pos) + ops.words(neg)), compRoot))
  }

  /** Absorbing the layer roots, one challenge drawn between two of them. */
  function AfterLayers<F, C>(be: Backend<F, C>, c: C, roots: seq<Node>): (r: (C, seq<F>))
    requires roots != []
    ensures |r.1| == |roots| - 1
  {
    if |roots| == 1 then (be.mixWide(c, roots[0]), [])
    else
      var (c', alphas) := AfterLayers(be, c, roots[..|roots| - 1]);
      var (c'', alpha) := be.drawFelt(c');
      (be.mixWide(c'', roots[|roots| - 1]), alphas + [alpha])
  }

  /** Replaying the channel from public data alone. */
  function Replayed<F, C>(be: Backend<F, C>, ops: Ops<F>, pub: Public<F>): (r: Challenges<F>)
    requires pub.layerRoots != []
    ensures |r.friAlphas| == |pub.layerRoots| - 1
  {
    var (c1, zx, compAlpha) := AfterTrace(be, pub.traceRoot);
    var (c2, friAlpha) := AfterComposition(be, ops, c1, pub.comboPos, pub.comboNeg, pub.compRoot);
    var (c3, friAlphas) := AfterLayers(be, c2, pub.layerRoots);
    Challenges(zx, compAlpha, friAlpha, friAlphas,
               be.drawQueries(be.mixFull(c3, pub.batchRoot), pub.depth, pub.nQueries))
  }

  // ------------------------------------------------------------ the script

  /** A channel operation. */
  datatype ChannelOp = MixFull(root: Node) | MixWide(node: Node) | MixWords(ws: seq<nat>) | DrawFelt

  /** The channel after a list of operations, and what they drew. */
  function Played<F, C>(be: Backend<F, C>, c: C, script: seq<ChannelOp>): (C, seq<F>) {
    if script == [] then (c, [])
    else
      var (c', drawn) := Played(be, c, script[..|script| - 1]);
      match script[|script| - 1]
      case MixFull(root) => (be.mixFull(c', root), drawn)
      case MixWide(node) => (be.mixWide(c', node), drawn)
      case MixWords(ws) => (be.mixWords(c', ws), drawn)
      case DrawFelt =>
        var (c'', f) := be.drawFelt(c');
        (c'', drawn + [f])
  }

  /** Roots absorbed one after the other, with a draw before each but the first. */
  function LayerScript(roots: seq<Node>): seq<ChannelOp>
    requires roots != []
  {
    if |roots| == 1 then [MixWide(roots[0])]
    else LayerScript(roots[..|roots| - 1]) + [DrawFelt, MixWide(roots[|roots| - 1])]
  }

  /** The transcript: what is mixed in and drawn, in its order. */
  function Script<F>(ops: Ops<F>, pub: Public<F>): seq<ChannelOp>
    requires pub.layerRoots != []
  {
    [MixFull(pub.traceRoot), DrawFelt, DrawFelt,
     MixWords(ops.words(pub.comboPos) + ops.words(pub.comboNeg)), MixWide(pub.compRoot), DrawFelt]
    + LayerScript(pub.layerRoots) + [MixFull(pub.batchRoot)]
  }

  lemma {:induction false} PlayedConcat<F, C>(be: Backend<F, C>, c: C, a: seq<ChannelOp>, b: seq<ChannelOp>)
    ensures var (c1, f1) := Played(be, c, a);
            var (c2, f2) := Played(be, c1, b);
            Played(be, c, a + b) == (c2, f1 + f2)
    decreases |b|
  {
    var (c1, f1) := Played(be, c, a);
    if b == [] {
      assert a + b == a && f1 + [] == f1;
    } else {
      var init := b[..|b| - 1];
      assert (a + b)[..|a + b| - 1] == a + init;
      PlayedConcat(be, c, a, init);
      var (c2, f2) := Played(be, c1, init);
      var f := be.drawFelt(c2).1;
      ConcatAssociates(f1, f2, [f]);
    }
  }

  lemma PlayedOne<F, C>(be: Backend<F, C>, c: C, op: ChannelOp)
    ensures Played(be, c, [op]) == match op
                                   case MixFull(root) => (be.mixFull(c, root), [])
                                   case MixWide(node) => (be.mixWide(c, node), [])
                                   case MixWords(ws) => (be.mixWords(c, ws), [])
                                   case DrawFelt => (be.drawFelt(c).0, [be.drawFelt(c).1])
  {
    assert [op][..0] == [];
    var f := be.drawFelt(c).1;
    assert [] + [f] == [f];
  }

  /** One operation before a list. */
  lemma PlayedFirst<F, C>(be: Backend<F, C>, c: C, op: ChannelOp, rest: seq<ChannelOp>)
    ensures var (c1, f1) := Played(be, c, [op]);
            var (c2, f2) := Played(be, c1, rest);
            Played(be, c, [op] + rest) == (c2, f1 + f2)
  {
    PlayedConcat(be, c, [op], rest);
  }

  lemma {:induction false} LayersPlay<F, C>(be: Backend<F, C>, c: C, roots: seq<Node>)
    requires roots != []
    ensures AfterLayers(be, c, roots) == Played(be, c, LayerScript(roots))
    decreases |roots|
  {
    hide Played;
    if |roots| == 1 {
      PlayedOne(be, c, MixWide(roots[0]));
    } else {
      var init, last := roots[..|roots| - 1], roots[|roots| - 1];
      LayersPlay(be, c, init);
      var c1 := Played(be, c, LayerScript(init)).0;
      var (c2, alpha) := be.drawFelt(c1);
      PlayedConcat(be, c, LayerScript(init), [DrawFelt, MixWide(last)]);
      PlayedFirst(be, c1, DrawFelt, [MixWide(last)]);
      assert [DrawFelt] + [MixWide(last)] == [DrawFelt, MixWide(last)];
      PlayedOne(be, c1, DrawFelt);
      PlayedOne(be, c2, MixWide(last));
      assert [alpha] + [] == [alpha];
    }
  }

  lemma StartPlays<F, C>(be: Backend<F, C>, traceRoot: Node)
    ensures var (c, zx, compAlpha) := AfterTrace(be, traceRoot);
            Played(be, be.init, [MixFull(traceRoot), DrawFelt, DrawFelt]) == (c, [zx, compAlpha])
  {
    hide Played;
    var c0 := be.mixFull(be.init, traceRoot);
    var (c1, zx) := be.drawFelt(c0);
    var (c2, compAlpha) := be.drawFelt(c1);
    assert [MixFull(traceRoot)] + ([DrawFelt] + [DrawFelt]) == [MixFull(traceRoot), DrawFelt, DrawFelt];
    PlayedFirst(be, be.init, MixFull(traceRoot), [DrawFelt] + [DrawFelt]);
    PlayedFirst(be, c0, DrawFelt, [DrawFelt]);
    PlayedOne(be, be.init, MixFull(traceRoot));
    PlayedOne(be, c0, DrawFelt);
    PlayedOne(be, c1, DrawFelt);
    assert [] + ([zx] + [compAlpha]) == [zx, compAlpha];
  }

  lemma CompositionPlays<F, C>(be: Backend<F, C>, ops: Ops<F>, c: C, pos: F, neg: F, compRoot: Node)
    ensures var (c', friAlpha) := AfterComposition(be, ops, c, pos, neg, compRoot);
            Played(be, c, [MixWords(ops.words(pos) + ops.words(neg)), MixWide(compRoot), DrawFelt]) == (c', [friAlpha])
  {
    hide Played;
    var mix, root := MixWords(ops.words(pos) + ops.words(neg)), MixWide(compRoot);
    var c1 := be.mixWords(c, ops.words(pos) + ops.words(neg));
    var c2 := be.mixWide(c1, compRoot);
    var (c3, friAlpha) := be.drawFelt(c2);
    assert [mix] + ([root] + [DrawFelt]) == [mix, root, DrawFelt];
    PlayedFirst(be, c, mix, [root] + [DrawFelt]);
    PlayedFirst(be, c1, root, [DrawFelt]);
    PlayedOne(be, c, mix);
    PlayedOne(be, c1, root);
    PlayedOne(be, c2, DrawFelt);
    assert [] + ([] + [friAlpha]) == [friAlpha];
  }

  /** The challenges are the draws of the transcript, in their order, and the queries are
      drawn at its end. */
  lemma ReplayedIsScript<F, C>(be: Backend<F, C>, ops: Ops<F>, pub: Public<F>)
    requires pub.layerRoots != []
    ensures var x := Replayed(be, ops, pub);
            var (c, drawn) := Played(be, be.init, Script(ops, pub));
            && drawn == [x.zx, x.compAlpha, x.friAlpha] + x.friAlphas
            && x.indices == be.drawQueries(c, pub.depth, pub.nQueries)
  {
    hide Played, LayerScript, AfterTrace, AfterComposition, AfterLayers;
    var (c1, zx, compAlpha) := AfterTrace(be, pub.traceRoot);
    var (c2, friAlpha) := AfterComposition(be, ops, c1, pub.comboPos, pub.comboNeg, pub.compRoot);
    var (c3, friAlphas) := AfterLayers(be, c2, pub.layerRoots);
    var start, comp, layers, end := [MixFull(pub.traceRoot), DrawFelt, DrawFelt],
        [MixWords(ops.words(pub.comboPos) + ops.words(pub.comboNeg)), MixWide(pub.compRoot), DrawFelt],
        LayerScript(pub.layerRoots), [MixFull(pub.batchRoot)];
    assert Script(ops, pub) == start + comp + layers + end;
    StartPlays(be, pub.traceRoot);
    CompositionPlays(be, ops, c1, pub.comboPos, pub.comboNeg, pub.compRoot);
    LayersPlay(be, c2, pub.layerRoots);
    PlayedOne(be, c3, MixFull(pub.batchRoot));
    PlayedConcat(be, be.init, start, comp);
    PlayedConcat(be, be.init, start + comp, layers);
    PlayedConcat(be, be.init, start + comp + layers, end);
    assert [zx, compAlpha] + [friAlpha] + friAlphas + [] == [zx, compAlpha, friAlpha] + friAlphas;
  }

  // ------------------------------------------------------------ the chain

  /** Every intermediate the prover computes. */
  datatype Chain<F> = Chain(
    traceRoot: Node,
    challenges: Challenges<F>,
    comboPos: F,
    comboNeg: F,
    compValues: seq<F>,
    compLevels: Levels,
    compRoot: Node,
    layerValues: seq<seq<F>>,
    layerLevels: seq<Levels>,
    layerRoots: seq<Node>)

  /** The argument checks made before anything is computed. */
  predicate Shaped(inp: Input) {
    && inp.cols != []
    && |inp.batchRoot| == 32
    && 1 <= inp.nQueries <= 64
    && 2 <= inp.depth <= 30
    && forall j | 0 <= j < |inp.cols| :: |inp.cols[j]| == Pow2(inp.depth)
  }

  function FoldCount(inp: Input): Option<nat> {
    match inp.numFolds
    case None => if inp.depth >= 1 then Some(inp.depth - 1) else None
    case Some(f) => if 1 <= f < inp.depth then Some(f) else None
  }

  ghost function TraceLeaves<F, C>(be: Backend<F, C>, inp: Input): (leaves: seq<Node>)
    requires Shaped(inp)
    ensures |leaves| == Pow2(inp.depth)
  {
    seq<Node>(Pow2(inp.depth), i requires 0 <= i < Pow2(inp.depth) => be.hashCols(Row(inp.cols, i)))
  }

  /** The trace root is that of the tree whose leaf i is the hash of row i, column by column. */
  lemma TraceRootOfRows<F, C>(be: Backend<F, C>, inp: Input, rows: seq<seq<nat>>, leaves: seq<Node>)
    requires Shaped(inp) && |rows| == |leaves| == Pow2(inp.depth)
    requires forall i | 0 <= i < |rows| :: |rows[i]| == |inp.cols| && leaves[i] == be.hashCols(rows[i])
    requires forall i, j | 0 <= i < |rows| && 0 <= j < |inp.cols| :: rows[i][j] == inp.cols[j][i]
    ensures TraceRoot(be, inp) == Root(be.hashPair, leaves, inp.depth)
  {
    hide Root;
    forall i | 0 <= i < |rows| ensures Row(inp.cols, i) == rows[i] {
      assert forall j | 0 <= j < |inp.cols| :: rows[i][j] == inp.cols[j][i];
    }
    assert TraceLeaves(be, inp) == leaves;
  }

  ghost function TraceRoot<F, C>(be: Backend<F, C>, inp: Input): Node
    requires Shaped(inp)
  {
    Root(be.hashPair, TraceLeaves(be, inp), inp.depth)
  }

  ghost predicate Degenerate<F>(ops: Ops<F>, d: nat, q: nat, zx: F)
    requires d <= 30
  {
    var px := ops.fromM31(Coset(d, q).x);
    ops.sub(px, zx) == ops.zero || ops.sub(ops.neg(px), zx) == ops.zero
  }

  /** When the generator succeeds. */
  ghost predicate Proceeds<F, C>(be: Backend<F, C>, ops: Ops<F>, inp: Input) {
    && Shaped(inp)
    && FoldCount(inp).Some?
    && forall q | 0 <= q < Pow2(inp.depth) :: !Degenerate(ops, inp.depth, q, AfterTrace(be, TraceRoot(be, inp)).1)
  }

  function Evals<F>(ops: Ops<F>, cols: seq<seq<nat>>, d: nat, z: F): (e: seq<F>)
    ensures |e| == |cols|
  {
    seq(|cols|, j requires 0 <= j < |cols| => ops.evalEven(cols[j], d, z))
  }

  /** A layer of 2^m values, its tree and its root. */
  ghost predicate Committed<F, C>(be: Backend<F, C>, values: seq<F>, m: nat, levels: Levels, root: Node) {
    && |values| == Pow2(m)
    && IsTree(be.hashPair, HashAll(be, values), m, levels)
    && root == Root(be.hashPair, HashAll(be, values), m)
  }

  ghost predicate IsFoldOf<F>(ops: Ops<F>, d: nat, k: nat, prev: seq<F>, next: seq<F>, alpha: F) {
    && k < d <= 30
    && |prev| == 2 * |next|
    && forall j | 0 <= j < |next| :: next[j] == LineFold(ops, d, k, j, prev[j], prev[j + |next|], alpha)
  }

  /** Committed layers, each folded into the next. */
  ghost predicate IsLayers<F, C>(be: Backend<F, C>, ops: Ops<F>, d: nat, folds: nat, alphas: seq<F>,
                                 values: seq<seq<F>>, levels: seq<Levels>, roots: seq<Node>) {
    && folds < d <= 30
    && |values| == |levels| == |roots| == folds + 1 == |alphas| + 1
    && (forall k | 0 <= k <= folds :: Committed(be, values[k], d - k, levels[k], roots[k]))
    && (forall k | 0 <= k < folds :: IsFoldOf(ops, d, k, values[k], values[k + 1], alphas[k]))
  }

  ghost predicate IsComposition<F>(ops: Ops<F>, cols: seq<seq<nat>>, alpha: F, values: seq<F>) {
    && (forall j | 0 <= j < |cols| :: |cols[j]| == |values|)
    && forall i | 0 <= i < |values| :: values[i] == Composed(ops, cols, alpha, i, |cols|)
  }

  ghost predicate IsFirstLayer<F>(ops: Ops<F>, d: nat, comp: seq<F>, pos: F, neg: F, zx: F, alpha: F, values: seq<F>) {
    && 1 <= d <= 30 && |comp| == |values| == Pow2(d)
    && forall q | 0 <= q < |values| ::
         && !Degenerate(ops, d, q, zx)
         && values[q] == QuotientFold(ops, d, q, comp[q], comp[AntipodalOf(d, q)], pos, neg, zx, alpha)
  }

  function PublicOf<F>(inp: Input, ch: Chain<F>): Public<F>
    requires |inp.batchRoot| == 32
  {
    Public(ch.traceRoot, ch.comboPos, ch.comboNeg, ch.compRoot, ch.layerRoots, inp.batchRoot, inp.depth, inp.nQueries)
  }

  /** What the chain of a successful run is. */
  ghost predicate IsChain<F, C>(be: Backend<F, C>, ops: Ops<F>, inp: Input, folds: nat, ch: Chain<F>) {
    && Shaped(inp) && FoldCount(inp) == Some(folds)
    && ch.layerRoots != [] && ch.layerValues != []
    && ch.traceRoot == TraceRoot(be, inp)
    && ch.challenges == Replayed(be, ops, PublicOf(inp, ch))
    && var x := ch.challenges;
       && ch.comboPos == Combined(ops, Evals(ops, inp.cols, inp.depth, x.zx), x.compAlpha, |inp.cols|)
       && ch.comboNeg == Combined(ops, Evals(ops, inp.cols, inp.depth, ops.neg(x.zx)), x.compAlpha, |inp.cols|)
       && IsComposition(ops, inp.cols, x.compAlpha, ch.compValues)
       && Committed(be, ch.compValues, inp.depth, ch.compLevels, ch.compRoot)
       && IsFirstLayer(ops, inp.depth, ch.compValues, ch.comboPos, ch.comboNeg, x.zx, x.friAlpha, ch.layerValues[0])
       && IsLayers(be, ops, inp.depth, folds, x.friAlphas, ch.layerValues, ch.layerLevels, ch.layerRoots)
  }

  /** Without a fold count all is folded down to two values; with one the last layer has
      2^(depth - count), and only a count from one to depth - 1 is taken. */
  lemma LastLayerSize<F, C>(be: Backend<F, C>, ops: Ops<F>, inp: Input, folds: nat, ch: Chain<F>)
    requires IsChain(be, ops, inp, folds, ch)
    ensures match inp.numFolds
            case None => |ch.layerValues[|ch.layerValues| - 1]| == 2
            case Some(f) => 1 <= f < inp.depth && |ch.layerValues[|ch.layerValues| - 1]| == Pow2(inp.depth - f)
  {
    hide Replayed, IsComposition, IsFirstLayer, TraceRoot, Combined, IsFoldOf;
    assert Committed(be, ch.layerValues[folds], inp.depth - folds, ch.layerLevels[folds], ch.layerRoots[folds]);
    assert Pow2(1) == 2;
  }

  /** Which error a run ends in: the first check that fails, and of the degenerate
      points the first. */
  ghost predicate Refused<F, C>(be: Backend<F, C>, ops: Ops<F>, inp: Input, e: Error) {
    match e
    case NoColumns => inp.cols == []
    case BadBatchRoot => inp.cols != [] && |inp.batchRoot| != 32
    case BadQueryCount => inp.cols != [] && |inp.batchRoot| == 32 && !(1 <= inp.nQueries <= 64)
    case BadDepth => inp.cols != [] && |inp.batchRoot| == 32 && 1 <= inp.nQueries <= 64 && !(2 <= inp.depth <= 30)
    case BadColumn(j) =>
      && inp.cols != [] && |inp.batchRoot| == 32 && 1 <= inp.nQueries <= 64 && 2 <= inp.depth <= 30
      && j < |inp.cols| && |inp.cols[j]| != Pow2(inp.depth)
      && forall i | 0 <= i < j :: |inp.cols[i]| == Pow2(inp.depth)
    case DegenerateDenominator(q) =>
      && Shaped(inp)
      && var zx := AfterTrace(be, TraceRoot(be, inp)).1;
         && q < Pow2(inp.depth) && Degenerate(ops, inp.depth, q, zx)
         && forall i | 0 <= i < q :: !Degenerate(ops, inp.depth, i, zx)
    case BadFoldCount =>
      && Shaped(inp) && FoldCount(inp).None?
      && forall q | 0 <= q < Pow2(inp.depth) :: !Degenerate(ops, inp.depth, q, AfterTrace(be, TraceRoot(be, inp)).1)
    case ZeroTwiddle(_, _) => false
  }

  // ------------------------------------------------------------ its pieces

  method TraceRootOf<F, C>(be: Backend<F, C>, inp: Input) returns (root: Node)
    requires Shaped(inp)
    ensures root == TraceRoot(be, inp)
  {
    var leaves: seq<Node> := [];
    var n := Pow2(inp.depth);
    while |leaves| < n
      invariant |leaves| <= n
      invariant leaves == TraceLeaves(be, inp)[..|leaves|]
    {
      leaves := leaves + [be.hashCols(Row(inp.cols, |leaves|))];
    }
    assert leaves == TraceLeaves(be, inp);
    var levels := BuildTree(be.hashPair, leaves, inp.depth);
    root := levels[|levels| - 1][0];
  }

  method Commit<F, C>(be: Backend<F, C>, values: seq<F>, ghost m: nat) returns (levels: Levels, root: Node)
    requires |values| == Pow2(m)
    ensures Committed(be, values, m, levels, root)
  {
    levels := BuildTree(be.hashPair, HashAll(be, values), m);
    root := levels[|levels| - 1][0];
  }

  method Combine<F>(ops: Ops<F>, evals: seq<F>, alpha: F) returns (acc: F)
    ensures acc == Combined(ops, evals, alpha, |evals|)
  {
    acc := ops.zero;
    var power := ops.one;
    for i := 0 to |evals|
      invariant acc == Combined(ops, evals, alpha, i) && power == PowerOf(ops, alpha, i)
    {
      acc := ops.add(acc, ops.mul(power, evals[i]));
      power := ops.mul(power, alpha);
    }
  }

  method ComposeRow<F>(ops: Ops<F>, cols: seq<seq<nat>>, alpha: F, i: nat) returns (acc: F)
    requires forall j | 0 <= j < |cols| :: i < |cols[j]|
    ensures acc == Composed(ops, cols, alpha, i, |cols|)
  {
    acc := ops.zero;
    var power := ops.one;
    for j := 0 to |cols|
      invariant acc == Composed(ops, cols, alpha, i, j) && power == PowerOf(ops, alpha, j)
    {
      acc := ops.add(acc, ops.mulM31(power, cols[j][i]));
      power := ops.mul(power, alpha);
    }
  }

  method Compose<F>(ops: Ops<F>, cols: seq<seq<nat>>, alpha: F, n: nat) returns (values: seq<F>)
    requires forall j | 0 <= j < |cols| :: |cols[j]| == n
    ensures |values| == n && IsComposition(ops, cols, alpha, values)
  {
    values := [];
    while |values| < n
      invariant |values| <= n
      invariant forall i | 0 <= i < |values| :: values[i] == Composed(ops, cols, alpha, i, |cols|)
    {
      var v := ComposeRow(ops, cols, alpha, |values|);
      values := values + [v];
    }
  }

  method QuotientFoldAt<F>(ops: Ops<F>, d: nat, p: Point, q: nat, comp: F, compNeg: F, pos: F, neg: F, zx: F, alpha: F) returns (v: F)
    requires d <= 30 && p == Coset(d, q)
    ensures v == QuotientFold(ops, d, q, comp, compNeg, pos, neg, zx, alpha)
  {
    var px := ops.fromM31(p.x);
    var plus := Quotient(ops, comp, pos, ops.sub(px, zx));
    var minus := Quotient(ops, compNeg, neg, ops.sub(ops.neg(px), zx));
    var inv := M31Inv(p.y);
    v := FoldOf(ops, plus, minus, alpha, inv);
  }

  /** One value of the first layer, or None when a denominator vanishes. */
  method FirstLayerAt<F>(ops: Ops<F>, d: nat, q: nat, comp: F, compNeg: F, pos: F, neg: F, zx: F, alpha: F) returns (v: Option<F>)
    requires d <= 30
    ensures v.None? <==> Degenerate(ops, d, q, zx)
    ensures v.Some? ==> v.value == QuotientFold(ops, d, q, comp, compNeg, pos, neg, zx, alpha)
  {
    hide QuotientFold, Coset;
    var p := CosetAt(d, q);
    var px := ops.fromM31(p.x);
    if ops.sub(px, zx) == ops.zero || ops.sub(ops.neg(px), zx) == ops.zero {
      return None;
    }
    var value := QuotientFoldAt(ops, d, p, q, comp, compNeg, pos, neg, zx, alpha);
    v := Some(value);
  }

  method FirstLayer<F>(ops: Ops<F>, d: nat, comp: seq<F>, pos: F, neg: F, zx: F, alpha: F) returns (r: Result<seq<F>, Error>)
    requires 1 <= d <= 30 && |comp| == Pow2(d)
    ensures r.Success? <==> forall q | 0 <= q < Pow2(d) :: !Degenerate(ops, d, q, zx)
    ensures r.Success? ==> IsFirstLayer(ops, d, comp, pos, neg, zx, alpha, r.value)
    ensures r.Failure? ==>
      && r.error.DegenerateDenominator? && r.error.q < Pow2(d) && Degenerate(ops, d, r.error.q, zx)
      && forall i | 0 <= i < r.error.q :: !Degenerate(ops, d, i, zx)
  {
    hide QuotientFold, Degenerate, AntipodalOf;
    var values: seq<F> := [];
    while |values| < |comp|
      invariant |values| <= |comp|
      invariant forall q | 0 <= q < |values| :: !Degenerate(ops, d, q, zx)
      invariant forall q | 0 <= q < |values| ::
          values[q] == QuotientFold(ops, d, q, comp[q], comp[AntipodalOf(d, q)], pos, neg, zx, alpha)
    {
      var q := |values|;
      var v := FirstLayerAt(ops, d, q, comp[q], comp[AntipodalOf(d, q)], pos, neg, zx, alpha);
      if v.None? {
        return Failure(DegenerateDenominator(q));
      }
      values := values + [v.value];
    }
    r := Success(values);
  }

  /** One value of a fold, or None when the twiddle vanishes. */
  method FoldAt<F>(ops: Ops<F>, d: nat, k: nat, j: nat, plus: F, minus: F, alpha: F) returns (v: Option<F>)
    requires d <= 30
    ensures v.None? <==> Chebyshev(Coset(d, j).x, k) == 0
    ensures v.Some? ==> v.value == LineFold(ops, d, k, j, plus, minus, alpha)
  {
    hide Coset, Chebyshev;
    var p := CosetAt(d, j);
    var twiddle := ChebyshevTwiddle(p.x, k);
    if twiddle == 0 {
      return None;
    }
    var inv := M31Inv(twiddle);
    v := Some(FoldOf(ops, plus, minus, alpha, inv));
  }

  method FoldLayer<F>(ops: Ops<F>, d: nat, k: nat, prev: seq<F>, alpha: F) returns (r: Result<seq<F>, Error>)
    requires k < d <= 30 && |prev| % 2 == 0
    ensures r.Success? ==> IsFoldOf(ops, d, k, prev, r.value, alpha)
    ensures r.Failure? ==> r.error.ZeroTwiddle? && r.error.j < |prev| / 2 && Chebyshev(Coset(d, r.error.j).x, k) == 0
  {
    hide LineFold, Coset, Chebyshev;
    var size := |prev| / 2;
    var values: seq<F> := [];
    while |values| < size
      invariant |values| <= size
      invariant forall j | 0 <= j < |values| :: values[j] == LineFold(ops, d, k, j, prev[j], prev[j + size], alpha)
    {
      var j := |values|;
      var v := FoldAt(ops, d, k, j, prev[j], prev[j + size], alpha);
      if v.None? {
        return Failure(ZeroTwiddle(k, j));
      }
      values := values + [v.value];
    }
    r := Success(values);
  }

  // ------------------------------------------------------------ the prover

  /** The fold rounds: fold, commit, absorb, one challenge per round. */
  method FoldLayers<F, C>(be: Backend<F, C>, ops: Ops<F>, d: nat, folds: nat, start: C, first: seq<F>, firstLevels: Levels, firstRoot: Node)
    returns (chan: C, alphas: seq<F>, values: seq<seq<F>>, levels: seq<Levels>, roots: seq<Node>)
    requires folds < d <= 30
    requires Committed(be, first, d, firstLevels, firstRoot)
    ensures IsLayers(be, ops, d, folds, alphas, values, levels, roots)
    ensures values[0] == first
    ensures AfterLayers(be, start, roots) == (chan, alphas)
  {
    hide Committed, IsFoldOf, IsLayers, AfterLayers;
    chan := be.mixWide(start, firstRoot);
    alphas, values, levels, roots := [], [first], [firstLevels], [firstRoot];
    OneLayer(be, ops, d, start, first, firstLevels, firstRoot);
    for k := 0 to folds
      invariant |values| == k + 1 && values[0] == first
      invariant IsLayers(be, ops, d, k, alphas, values, levels, roots)
      invariant roots != [] && AfterLayers(be, start, roots) == (chan, alphas)
    {
      LayerSizes(be, ops, d, k, alphas, values, levels, roots);
      var drawn := be.drawFelt(chan);
      var alpha := drawn.1;
      var next := FoldRound(be, ops, d, k, values[k], levels[k], roots[k], alpha);
      var nextLevels, nextRoot := Commit(be, next, d - k - 1);
      LayersGrow(be, ops, d, k, alphas, values, levels, roots, alpha, next, nextLevels, nextRoot);
      AfterOneMore(be, start, roots, nextRoot);
      alphas, values := alphas + [alpha], values + [next];
      levels, roots := levels + [nextLevels], roots + [nextRoot];
      chan := be.mixWide(drawn.0, nextRoot);
    }
  }

  lemma OneLayer<F, C>(be: Backend<F, C>, ops: Ops<F>, d: nat, start: C, values: seq<F>, levels: Levels, root: Node)
    requires 0 < d <= 30 && Committed(be, values, d, levels, root)
    ensures IsLayers(be, ops, d, 0, [], [values], [levels], [root])
    ensures AfterLayers(be, start, [root]) == (be.mixWide(start, root), [])
  {
    hide Committed;
  }

  lemma LayerSizes<F, C>(be: Backend<F, C>, ops: Ops<F>, d: nat, folds: nat, alphas: seq<F>,
                         values: seq<seq<F>>, levels: seq<Levels>, roots: seq<Node>)
    requires IsLayers(be, ops, d, folds, alphas, values, levels, roots)
    ensures folds < d <= 30
    ensures |values| == |levels| == |roots| == folds + 1 == |alphas| + 1
    ensures Committed(be, values[folds], d - folds, levels[folds], roots[folds])
  {
    hide Committed, IsFoldOf;
  }

  lemma LayersGrow<F, C>(be: Backend<F, C>, ops: Ops<F>, d: nat, folds: nat, alphas: seq<F>, values: seq<seq<F>>,
                         levels: seq<Levels>, roots: seq<Node>, alpha: F, next: seq<F>, nextLevels: Levels, nextRoot: Node)
    requires IsLayers(be, ops, d, folds, alphas, values, levels, roots) && folds + 1 < d
    requires Committed(be, next, d - folds - 1, nextLevels, nextRoot)
    requires IsFoldOf(ops, d, folds, values[folds], next, alpha)
    ensures IsLayers(be, ops, d, folds + 1, alphas + [alpha], values + [next], levels + [nextLevels], roots + [nextRoot])
  {
    hide Committed, IsFoldOf;
    var vs, ls, rs := values + [next], levels + [nextLevels], roots + [nextRoot];
    forall k | 0 <= k <= folds + 1 ensures Committed(be, vs[k], d - k, ls[k], rs[k]) {
      if k <= folds {
        assert Committed(be, values[k], d - k, levels[k], roots[k]);
      }
    }
    forall k | 0 <= k < folds + 1 ensures IsFoldOf(ops, d, k, vs[k], vs[k + 1], (alphas + [alpha])[k]) {
      if k < folds {
        assert IsFoldOf(ops, d, k, values[k], values[k + 1], alphas[k]);
      }
    }
  }

  lemma AfterOneMore<F, C>(be: Backend<F, C>, c: C, roots: seq<Node>, root: Node)
    requires roots != []
    ensures var (c', alphas) := AfterLayers(be, c, roots);
            var (c'', alpha) := be.drawFelt(c');
            AfterLayers(be, c, roots + [root]) == (be.mixWide(c'', root), alphas + [alpha])
  {
    assert (roots + [root])[..|roots|] == roots;
  }

  /** One fold of a committed layer.  The prover returns its zero-twiddle error from
      inside this loop; no domain point makes it do so. */
  method FoldRound<F, C>(be: Backend<F, C>, ops: Ops<F>, d: nat, k: nat, prev: seq<F>,
                         ghost levels: Levels, ghost root: Node, alpha: F) returns (next: seq<F>)
    requires k + 2 <= d <= 30 && Committed(be, prev, d - k, levels, root)
    ensures |next| == Pow2(d - k - 1) && IsFoldOf(ops, d, k, prev, next, alpha)
  {
    hide Coset, Chebyshev, LineFold, IsTree, Root;
    Pow2Next(d - k - 1);
    var folded := FoldLayer(ops, d, k, prev, alpha);
    next := [];
    match folded
    case Success(values) =>
      next := values;
    case Failure(e) =>
      Pow2Monotone(d - k - 1, d);
      TwiddleIsNonzero(d, k, e.j);
      assert false;
  }

  lemma ChainAssembled<F, C>(be: Backend<F, C>, ops: Ops<F>, inp: Input, folds: nat, ch: Chain<F>, c1: C, c2: C, c3: C)
    requires Shaped(inp) && FoldCount(inp) == Some(folds)
    requires ch.layerRoots != [] && ch.layerValues != []
    requires ch.traceRoot == TraceRoot(be, inp)
    requires AfterTrace(be, ch.traceRoot) == (c1, ch.challenges.zx, ch.challenges.compAlpha)
    requires AfterComposition(be, ops, c1, ch.comboPos, ch.comboNeg, ch.compRoot) == (c2, ch.challenges.friAlpha)
    requires AfterLayers(be, c2, ch.layerRoots) == (c3, ch.challenges.friAlphas)
    requires ch.challenges.indices == be.drawQueries(be.mixFull(c3, inp.batchRoot), inp.depth, inp.nQueries)
    requires IsComposition(ops, inp.cols, ch.challenges.compAlpha, ch.compValues)
    requires Committed(be, ch.compValues, inp.depth, ch.compLevels, ch.compRoot)
    requires ch.comboPos == Combined(ops, Evals(ops, inp.cols, inp.depth, ch.challenges.zx), ch.challenges.compAlpha, |inp.cols|)
    requires ch.comboNeg == Combined(ops, Evals(ops, inp.cols, inp.depth, ops.neg(ch.challenges.zx)), ch.challenges.compAlpha, |inp.cols|)
    requires IsFirstLayer(ops, inp.depth, ch.compValues, ch.comboPos, ch.comboNeg, ch.challenges.zx, ch.challenges.friAlpha, ch.layerValues[0])
    requires IsLayers(be, ops, inp.depth, folds, ch.challenges.friAlphas, ch.layerValues, ch.layerLevels, ch.layerRoots)
    ensures IsChain(be, ops, inp, folds, ch)
  {
    hide Committed, IsLayers, IsFirstLayer, IsComposition, Combined, Evals, TraceRoot;
  }

  method FriChain<F, C>(be: Backend<F, C>, ops: Ops<F>, inp: Input) returns (r: Result<Chain<F>, Error>)
    ensures r.Success? <==> Proceeds(be, ops, inp)
    ensures r.Success? ==> FoldCount(inp).Some? && IsChain(be, ops, inp, FoldCount(inp).value, r.value)
    ensures r.Failure? ==> Refused(be, ops, inp, r.error)
  {
    hide Committed, IsLayers, IsFirstLayer, IsComposition, Combined, TraceRoot, Degenerate, IsChain,
         AfterTrace, AfterComposition, AfterLayers, Pow2;
    var checked := CheckInput(be, ops, inp);
    if checked.Some? {
      return Failure(checked.value);
    }
    var d := inp.depth;
    var traceRoot := TraceRootOf(be, inp);
    var (c1, zx, compAlpha) := AfterTrace(be, traceRoot);
    var comboPos := Combine(ops, Evals(ops, inp.cols, d, zx), compAlpha);
    var comboNeg := Combine(ops, Evals(ops, inp.cols, d, ops.neg(zx)), compAlpha);
    var comp := Compose(ops, inp.cols, compAlpha, Pow2(d));
    var compLevels, compRoot := Commit(be, comp, d);
    var (c2, friAlpha) := AfterComposition(be, ops, c1, comboPos, comboNeg, compRoot);
    var firstLayer := FirstLayer(ops, d, comp, comboPos, comboNeg, zx, friAlpha);
    if firstLayer.Failure? {
      return Failure(firstLayer.error);
    }
    var first := firstLayer.value;
    FirstLayerSize(ops, d, comp, comboPos, comboNeg, zx, friAlpha, first);
    var firstLevels, firstRoot := Commit(be, first, d);
    if FoldCount(inp).None? {
      return Failure(BadFoldCount);
    }
    var folds := FoldCount(inp).value;
    var c3, alphas, values, levels, roots := FoldLayers(be, ops, d, folds, c2, first, firstLevels, firstRoot);
    var indices := be.drawQueries(be.mixFull(c3, inp.batchRoot), d, inp.nQueries);
    var ch := Chain(traceRoot, Challenges(zx, compAlpha, friAlpha, alphas, indices), comboPos, comboNeg,
                    comp, compLevels, compRoot, values, levels, roots);
    LayerSizes(be, ops, d, folds, alphas, values, levels, roots);
    ChainAssembled(be, ops, inp, folds, ch, c1, c2, c3);
    r := Success(ch);
  }

  lemma FirstLayerSize<F>(ops: Ops<F>, d: nat, comp: seq<F>, pos: F, neg: F, zx: F, alpha: F, values: seq<F>)
    requires IsFirstLayer(ops, d, comp, pos, neg, zx, alpha, values)
    ensures |values| == Pow2(d)
  {
  }

  /** The argument checks, in the prover's order. */
  method CheckInput<F, C>(ghost be: Backend<F, C>, ghost ops: Ops<F>, inp: Input) returns (e: Option<Error>)
    ensures e.None? <==> Shaped(inp)
    ensures e.Some? ==> Refused(be, ops, inp, e.value)
  {
    if inp.cols == [] {
      return Some(NoColumns);
    }
    if |inp.batchRoot| != 32 {
      return Some(BadBatchRoot);
    }
    if inp.nQueries == 0 || inp.nQueries > 64 {
      return Some(BadQueryCount);
    }
    if !(2 <= inp.depth <= 30) {
      return Some(BadDepth);
    }
    for j := 0 to |inp.cols|
      invariant forall i | 0 <= i < j :: |inp.cols[i]| == Pow2(inp.depth)
    {
      if |inp.cols[j]| != Pow2(inp.depth) {
        return Some(BadColumn(j));
      }
    }
    return None;
  }
}
