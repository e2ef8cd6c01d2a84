/**
 * The on-chain verifier (contracts/src/QLSAVerifierVFRI11.sol; the VFRI10 contract
 * differs in its hash backend alone): what its verify() accepts, and that it does.
 */
module FriContract {
  import opened Bytes
  import opened Prelude
  import opened NumberTheory
  import opened Mersenne31
  import opened M31
  import opened CircleDomain
  import opened FriTree
  import opened Fri

  const MIN_PROOF_LENGTH: nat := 700
  const MAX_PROOF_LENGTH: nat := 1_048_576
  const MAX_QUERIES: nat := 64
  const MAX_FOLD_ROUNDS: nat := 28
  const LAST_LAYER_LOG: nat := 16
  const MAX_LAST_LAYER_SIZE: nat := 65_536

  datatype FoldHint<F> = FoldHint(siblingValue: F, siblingProof: seq<Node>, foldedValue: F, merkleProof: seq<Node>)

  datatype QueryHint<F> = QueryHint(
    index: nat,
    depth: nat,
    compValue: F,
    compProof: seq<Node>,
    compValueNeg: F,
    compProofNeg: seq<Node>,
    foldedValue: F,
    pointX: nat,
    pointY: nat,
    l1Siblings: seq<Node>,
    folds: seq<FoldHint<F>>)

  datatype Hints<F> = Hints(
    comboPos: F,
    comboNeg: F,
    compRoot: Node,
    lastLayer: seq<F>,
    layerRoots: seq<Node>,
    queries: seq<QueryHint<F>>)

  function Zeros(n: nat): (b: Bytes)
    ensures |b| == n && forall i | 0 <= i < n :: b[i] == 0
  {
    seq(n, _ => 0)
  }

  // ------------------------------------------------------------ what it checks

  /** verifyMem: the path has the depth, the index its range, and the walk its root. */
  predicate PathChecks(hp: PairHash, leaf: Node, index: nat, path: seq<Node>, depth: nat, root: Node) {
    && |path| == depth <= 32 && (depth > 0 ==> index < Pow2(depth))
    && PathRoot(hp, leaf, index, path) == root
  }

  /** A value authenticated by a path of the tree's depth. */
  predicate Authentic<F, C>(be: Backend<F, C>, value: F, index: nat, path: seq<Node>, depth: nat, root: Node) {
    PathChecks(be.hashPair, be.hashFelt(value), index, path, depth, root)
  }

  function SiblingIndex(i: nat, size: nat): nat
    requires i < 2 * size
  {
    if i < size then i + size else i - size
  }

  /** The value entering round k of a walk. */
  function Entering<F>(first: F, folds: seq<FoldHint<F>>, k: nat): F
    requires k <= |folds|
  {
    if k == 0 then first else folds[k - 1].foldedValue
  }

  lemma EnteringFirst<F>(first: F, folds: seq<FoldHint<F>>)
    ensures Entering(first, folds, 0) == first
  {
  }

  lemma EnteringNext<F>(first: F, folds: seq<FoldHint<F>>, k: nat)
    requires k < |folds|
    ensures Entering(first, folds, k + 1) == folds[k].foldedValue
  {
  }

  /** Round k at position i: the sibling opens layer k beside the walk, the walk folds
      the two in the order of their positions, and the result opens layer k + 1. */
  ghost predicate RoundChecks<F, C>(be: Backend<F, C>, ops: Ops<F>, d: nat, k: nat, alpha: F, root: Node, nextRoot: Node,
                                    i: nat, entering: F, h: FoldHint<F>)
    requires k < d <= 30
  {
    var size := Pow2(d - k - 1);
    && i < 2 * size
    && Authentic(be, h.siblingValue, SiblingIndex(i, size), h.siblingProof, d - k, root)
    && Chebyshev(Coset(d, i % size).x, k) != 0
    && h.foldedValue == (if i < size then LineFold(ops, d, k, i % size, entering, h.siblingValue, alpha)
                         else LineFold(ops, d, k, i % size, h.siblingValue, entering, alpha))
    && Authentic(be, h.foldedValue, i % size, h.merkleProof, d - k - 1, nextRoot)
  }

  /** Round k of a query's walk. */
  ghost predicate RoundOfWalk<F, C>(be: Backend<F, C>, ops: Ops<F>, d: nat, alphas: seq<F>, roots: seq<Node>,
                                    index: nat, first: F, folds: seq<FoldHint<F>>, k: nat)
    requires k < |folds| && k < d <= 30 && k < |alphas| && k + 1 < |roots|
  {
    RoundChecks(be, ops, d, k, alphas[k], roots[k], roots[k + 1], index % Pow2(d - k), Entering(first, folds, k), folds[k])
  }

  ghost predicate WalkChecks<F, C>(be: Backend<F, C>, ops: Ops<F>, d: nat, alphas: seq<F>, roots: seq<Node>,
                                   index: nat, first: F, folds: seq<FoldHint<F>>)
    requires |folds| < d <= 30 && |folds| <= |alphas| && |folds| < |roots|
  {
    forall k | 0 <= k < |folds| :: RoundOfWalk(be, ops, d, alphas, roots, index, first, folds, k)
  }

  /** isOnCircle, on numbers that need not be reduced. */
  predicate OnCircleCheck(x: nat, y: nat) {
    Add((x * x) % M31_P, (y * y) % M31_P) == 1
  }

  /** The query point is the domain point of the index, and can be divided by. */
  ghost predicate PointChecks(d: nat, q: nat, x: nat, y: nat)
    requires d <= 30
  {
    OnCircleCheck(x, y) && y != 0 && q < Pow2(d) && x == Coset(d, q).x && y == Coset(d, q).y
  }

  /** The openings a query starts from: both composition values, and the first layer's. */
  ghost predicate OpeningChecks<F, C>(be: Backend<F, C>, ops: Ops<F>, d: nat, hints: Hints<F>, x: Challenges<F>, q: QueryHint<F>)
    requires hints.layerRoots != []
  {
    && 1 <= d <= 30 && q.depth == d
    && Authentic(be, q.compValue, q.index, q.compProof, d, hints.compRoot)
    && Authentic(be, q.compValueNeg, AntipodalOf(d, q.index), q.compProofNeg, d, hints.compRoot)
    && PointChecks(d, q.index, q.pointX, q.pointY)
    && !Degenerate(ops, d, q.index, x.zx)
    && q.foldedValue == QuotientFold(ops, d, q.index, q.compValue, q.compValueNeg, hints.comboPos, hints.comboNeg, x.zx, x.friAlpha)
    && Authentic(be, q.foldedValue, q.index, q.l1Siblings, d, hints.layerRoots[0])
  }

  /** _verifyQuery. */
  ghost predicate QueryChecks<F, C>(be: Backend<F, C>, ops: Ops<F>, d: nat, hints: Hints<F>, x: Challenges<F>, q: QueryHint<F>) {
    && |hints.layerRoots| == |q.folds| + 1 == |x.friAlphas| + 1 && |q.folds| < d <= 30
    && OpeningChecks(be, ops, d, hints, x, q)
    && WalkChecks(be, ops, d, x.friAlphas, hints.layerRoots, q.index, q.foldedValue, q.folds)
  }

  /** The tree over the values has the root. */
  ghost predicate LayerMatches<F, C>(be: Backend<F, C>, evals: seq<F>, m: nat, root: Node) {
    |evals| == Pow2(m) && Root(be.hashPair, HashAll(be, evals), m) == root
  }

  /** What the verifier replays the channel on. */
  function Claimed<F>(d: nat, nQueries: nat, traceRoot: Node, batchRoot: Node, hints: Hints<F>): Public<F> {
    Public(traceRoot, hints.comboPos, hints.comboNeg, hints.compRoot, hints.layerRoots, batchRoot, d, nQueries)
  }

  /** Every query has the shape the roots ask for. */
  predicate SameShape<F>(d: nat, hints: Hints<F>) {
    forall i | 0 <= i < |hints.queries| :: hints.queries[i].depth == d && |hints.queries[i].folds| + 1 == |hints.layerRoots|
  }

  /** What the hints show, size limits and forbidden zeros apart: the last layer is
      committed, and every query the replayed channel asks for passes its checks. */
  ghost predicate Proves<F, C>(be: Backend<F, C>, ops: Ops<F>, d: nat, traceRoot: Node, batchRoot: Node, hints: Hints<F>) {
    && 2 <= |hints.layerRoots| <= d <= 30
    && SameShape(d, hints)
    && LayerMatches(be, hints.lastLayer, d - (|hints.layerRoots| - 1), hints.layerRoots[|hints.layerRoots| - 1])
    && var x := Replayed(be, ops, Claimed(d, |hints.queries|, traceRoot, batchRoot, hints));
       && |x.indices| == |hints.queries|
       && forall i | 0 <= i < |hints.queries| ::
            hints.queries[i].index == x.indices[i] && QueryChecks(be, ops, d, hints, x, hints.queries[i])
  }

  /** Values the contract refuses to see as zero. */
  predicate NonZero<F>(ops: Ops<F>, commitment: Bytes, merkleRoot: Bytes, hints: Hints<F>) {
    && commitment != Zeros(16) && merkleRoot != Zeros(32) && hints.compRoot != Zeros(32)
    && (hints.comboPos != ops.zero || hints.comboNeg != ops.zero)
    && forall r | 0 <= r < |hints.layerRoots| :: hints.layerRoots[r] != Zeros(32)
  }

  function CommitmentOf(blake: Bytes -> Digest32, proof: Bytes, batchRoot: Bytes): Bytes
    requires |proof| >= 32
  {
    blake(proof[..32] + batchRoot)[..16]
  }

  /** verify(). */
  ghost predicate Accepts<F, C>(be: Backend<F, C>, ops: Ops<F>, blake: Bytes -> Digest32,
                                proof: Bytes, commitment: Bytes, merkleRoot: Node, hints: Hints<F>) {
    && MIN_PROOF_LENGTH <= |proof| <= MAX_PROOF_LENGTH
    && commitment == CommitmentOf(blake, proof, merkleRoot)
    && NonZero(ops, commitment, merkleRoot, hints)
    && 2 <= |hints.layerRoots| <= MAX_FOLD_ROUNDS + 1
    && 1 <= |hints.queries| <= MAX_QUERIES
    && |hints.lastLayer| <= MAX_LAST_LAYER_SIZE
    && Proves(be, ops, hints.queries[0].depth, proof[8..40], merkleRoot, hints)
  }

  lemma Pow2Of16()
    ensures Pow2(LAST_LAYER_LOG) == MAX_LAST_LAYER_SIZE
  {
    assert Pow2(4) == 16;
    Pow2Adds(4, 4);
    Pow2Adds(8, 8);
  }

  lemma LastLayerFits(m: nat)
    ensures Pow2(m) <= MAX_LAST_LAYER_SIZE <==> m <= LAST_LAYER_LOG
  {
    hide Pow2;
    Pow2Of16();
    if m <= LAST_LAYER_LOG {
      Pow2Monotone(m, LAST_LAYER_LOG);
    } else {
      Pow2Monotone(LAST_LAYER_LOG + 1, m);
      Pow2Next(LAST_LAYER_LOG);
    }
  }

  /** When hints that show what they should are accepted. */
  lemma AcceptsIff<F, C>(be: Backend<F, C>, ops: Ops<F>, blake: Bytes -> Digest32, d: nat,
                         proof: Bytes, commitment: Bytes, merkleRoot: Node, hints: Hints<F>)
    requires MIN_PROOF_LENGTH <= |proof| <= MAX_PROOF_LENGTH && commitment == CommitmentOf(blake, proof, merkleRoot)
    requires 1 <= |hints.queries| <= MAX_QUERIES && Proves(be, ops, d, proof[8..40], merkleRoot, hints)
    ensures |hints.layerRoots| <= d
    ensures Accepts(be, ops, blake, proof, commitment, merkleRoot, hints) <==>
            var folds := |hints.layerRoots| - 1;
            folds <= 28 && d - folds <= 16 && NonZero(ops, commitment, merkleRoot, hints)
  {
    hide Replayed, QueryChecks, Root, NonZero, CommitmentOf, Pow2;
    var folds := |hints.layerRoots| - 1;
    LastLayerFits(d - folds);
    assert hints.queries[0].depth == d;
  }

  // ------------------------------------------------------------ Merkle paths

  method VerifyMem(hp: PairHash, root: Node, leaf: Node, index: nat, depth: nat, siblings: seq<Node>) returns (ok: bool)
    ensures ok <==> PathChecks(hp, leaf, index, siblings, depth, root)
  {
    if |siblings| != depth {
      return false;
    }
    if depth > 32 {
      return false;
    }
    if depth > 0 && index >= Pow2(depth) {
      return false;
    }
    var current := leaf;
    var idx: nat := index;
    assert siblings[0..] == siblings;
    for d := 0 to depth
      invariant PathRoot(hp, current, idx, siblings[d..]) == PathRoot(hp, leaf, index, siblings)
    {
      assert siblings[d..][1..] == siblings[d + 1..];
      var sibling := siblings[d];
      if idx % 2 == 0 {
        current := hp(current, sibling);
      } else {
        current := hp(sibling, current);
      }
      idx := idx / 2;
    }
    ok := current == root;
  }

  lemma ParentOf(hp: PairHash, leaves: seq<Node>, m: nat, k: nat, i: nat)
    requires |leaves| == Pow2(m) && k < m && i < Pow2(m - k - 1)
    ensures 2 * i + 1 < Pow2(m - k)
    ensures NodeOf(hp, leaves, m, k + 1, i) == hp(NodeOf(hp, leaves, m, k, 2 * i), NodeOf(hp, leaves, m, k, 2 * i + 1))
  {
  }

  /** One level up, in place: the first half of the nodes become those of the next level. */
  method HalveInPlace(hp: PairHash, ghost leaves: seq<Node>, ghost m: nat, ghost k: nat, nodes: array<Node>, size: nat)
    requires |leaves| == Pow2(m) && k < m && size == Pow2(m - k - 1) && 2 * size <= nodes.Length
    requires forall i | 0 <= i < 2 * size :: nodes[i] == NodeOf(hp, leaves, m, k, i)
    modifies nodes
    ensures forall i | 0 <= i < size :: nodes[i] == NodeOf(hp, leaves, m, k + 1, i)
  {
    hide Pow2, NodeOf;
    Pow2Next(m - k - 1);
    for i := 0 to size
      invariant forall j | 0 <= j < i :: nodes[j] == NodeOf(hp, leaves, m, k + 1, j)
      invariant forall j | 2 * i <= j < 2 * size :: nodes[j] == NodeOf(hp, leaves, m, k, j)
    {
      ParentOf(hp, leaves, m, k, i);
      nodes[i] := hp(nodes[2 * i], nodes[2 * i + 1]);
    }
  }

  /** _checkLastLayer: rebuild the tree in one array. */
  method CheckLastLayer<F, C>(be: Backend<F, C>, evals: seq<F>, expectedRoot: Node, lastDepth: nat) returns (ok: bool)
    ensures ok <==> |evals| <= MAX_LAST_LAYER_SIZE && LayerMatches(be, evals, lastDepth, expectedRoot)
  {
    var size: nat := Pow2(lastDepth);
    if |evals| != size {
      return false;
    }
    if size > MAX_LAST_LAYER_SIZE {
      return false;
    }
    ghost var leaves := HashAll(be, evals);
    var nodes := new Node[size](i requires 0 <= i < size => be.hashFelt(evals[i]));
    ghost var k := 0;
    while size > 1
      invariant k <= lastDepth && size == Pow2(lastDepth - k) <= nodes.Length
      invariant forall i | 0 <= i < size :: nodes[i] == NodeOf(be.hashPair, leaves, lastDepth, k, i)
    {
      Pow2Next(lastDepth - k - 1);
      size := size / 2;
      HalveInPlace(be.hashPair, leaves, lastDepth, k, nodes, size);
      k := k + 1;
    }
    assert k == lastDepth by { Pow2Injective(lastDepth - k, 0); }
    ok := nodes[0] == expectedRoot;
  }

  // ------------------------------------------------------------ the transcript

  /** Replaying the channel on public data: _buildCtx, and vfri11_replay_channel after its
      argument checks. */
  method Replay<F, C>(be: Backend<F, C>, ops: Ops<F>, pub: Public<F>) returns (x: Challenges<F>)
    requires pub.layerRoots != []
    ensures x == Replayed(be, ops, pub)
  {
    var (c1, zx, compAlpha) := AfterTrace(be, pub.traceRoot);
    var (chan, friAlpha) := AfterComposition(be, ops, c1, pub.comboPos, pub.comboNeg, pub.compRoot);
    ghost var start := chan;
    chan := be.mixWide(chan, pub.layerRoots[0]);
    var alphas: seq<F> := [];
    for k := 0 to |pub.layerRoots| - 1
      invariant AfterLayers(be, start, pub.layerRoots[..k + 1]) == (chan, alphas)
    {
      AfterOneMore(be, start, pub.layerRoots[..k + 1], pub.layerRoots[k + 1]);
      assert pub.layerRoots[..k + 2] == pub.layerRoots[..k + 1] + [pub.layerRoots[k + 1]];
      var (c, alpha) := be.drawFelt(chan);
      alphas := alphas + [alpha];
      chan := be.mixWide(c, pub.layerRoots[k + 1]);
    }
    assert pub.layerRoots[..|pub.layerRoots|] == pub.layerRoots;
    chan := be.mixFull(chan, pub.batchRoot);
    x := Challenges(zx, compAlpha, friAlpha, alphas, be.drawQueries(chan, pub.depth, pub.nQueries));
  }

  // ------------------------------------------------------------ one query

  /** _verifyOODS: the two quotients, or false when a denominator vanishes. */
  method VerifyOods<F>(ops: Ops<F>, h: QueryHint<F>, pos: F, neg: F, zx: F) returns (ok: bool, plus: F, minus: F)
    ensures ok <==> ops.sub(ops.fromM31(h.pointX), zx) != ops.zero && ops.sub(ops.neg(ops.fromM31(h.pointX)), zx) != ops.zero
    ensures ok ==> plus == Quotient(ops, h.compValue, pos, ops.sub(ops.fromM31(h.pointX), zx))
    ensures ok ==> minus == Quotient(ops, h.compValueNeg, neg, ops.sub(ops.neg(ops.fromM31(h.pointX)), zx))
  {
    var px := ops.fromM31(h.pointX);
    var denomPos, denomNeg := ops.sub(px, zx), ops.sub(ops.neg(px), zx);
    plus, minus := ops.zero, ops.zero;
    if denomPos == ops.zero {
      return false, plus, minus;
    }
    if denomNeg == ops.zero {
      return false, plus, minus;
    }
    var numerPos, numerNeg := ops.sub(h.compValue, pos), ops.sub(h.compValueNeg, neg);
    ok, plus, minus := true, ops.mul(numerPos, ops.inv(denomPos)), ops.mul(numerNeg, ops.inv(denomNeg));
  }

  /** _checkCircleFold. */
  method CheckCircleFold<F>(ops: Ops<F>, plus: F, minus: F, h: QueryHint<F>, friAlpha: F) returns (ok: bool)
    ensures ok <==> 1 <= h.depth <= 30 && PointChecks(h.depth, h.index, h.pointX, h.pointY) &&
                    h.foldedValue == FoldOf(ops, plus, minus, friAlpha, InverseOf(Coset(h.depth, h.index).y))
  {
    if !OnCircleCheck(h.pointX, h.pointY) {
      return false;
    }
    if h.pointY == 0 {
      return false;
    }
    if h.depth < 1 || h.depth > 30 {
      return false;
    }
    if h.index >= Pow2(h.depth) {
      return false;
    }
    hide Coset, FoldOf, OnCircleCheck, Pow2;
    var c := CosetAt(h.depth, h.index);
    if c.x != h.pointX || c.y != h.pointY {
      return false;
    }
    var inv := M31Inv(c.y);
    ok := FoldOf(ops, plus, minus, friAlpha, inv) == h.foldedValue;
  }

  /** One round of _verifyFolds. */
  method CheckRound<F, C>(be: Backend<F, C>, ops: Ops<F>, d: nat, k: nat, alpha: F, root: Node, nextRoot: Node,
                          cur: nat, entering: F, h: FoldHint<F>) returns (ok: bool, moved: nat)
    requires k < d <= 30 && cur < Pow2(d - k)
    ensures ok <==> RoundChecks(be, ops, d, k, alpha, root, nextRoot, cur, entering, h)
    ensures moved == cur % Pow2(d - k - 1)
  {
    hide PathChecks, Coset, Chebyshev, FoldOf, Pow2;
    var half := Pow2(d - k - 1);
    Pow2Next(d - k - 1);
    moved := cur % half;
    var sibling := if cur < half then cur + half else cur - half;
    var revealed := VerifyMem(be.hashPair, root, be.hashFelt(h.siblingValue), sibling, d - k, h.siblingProof);
    if !revealed {
      return false, moved;
    }
    var p := CosetAt(d, moved);
    var twiddle := ChebyshevTwiddle(p.x, k);
    if twiddle == 0 {
      return false, moved;
    }
    var plus, minus := if cur < half then entering else h.siblingValue, if cur < half then h.siblingValue else entering;
    var inv := M31Inv(twiddle);
    if FoldOf(ops, plus, minus, alpha, inv) != h.foldedValue {
      return false, moved;
    }
    ok := VerifyMem(be.hashPair, nextRoot, be.hashFelt(h.foldedValue), moved, d - k - 1, h.merkleProof);
  }

  lemma {:induction false} ModTwice(n: nat, m: nat)
    ensures (n % Pow2(m + 1)) % Pow2(m) == n % Pow2(m)
  {
    hide Pow2;
    Pow2Next(m);
    var p, r := Pow2(m), n % Pow2(m + 1);
    MulAssociates(p, 2, n / (2 * p));
    Distribute(p, 2 * (n / (2 * p)), r / p);
    QuotientUnique(n, p, 2 * (n / (2 * p)) + r / p, r % p);
  }

  /** The position in the next layer. */
  lemma Halved(cur: nat, index: nat, d: nat, k: nat)
    requires k < d && cur == index % Pow2(d - k)
    ensures cur % Pow2(d - k - 1) == index % Pow2(d - (k + 1)) < Pow2(d - (k + 1))
  {
    hide Pow2;
    ModTwice(index, d - k - 1);
  }

  /** _verifyFolds. */
  method VerifyFolds<F, C>(be: Backend<F, C>, ops: Ops<F>, d: nat, h: QueryHint<F>, alphas: seq<F>, roots: seq<Node>) returns (ok: bool)
    requires |h.folds| < d <= 30 && |h.folds| == |alphas| && |h.folds| + 1 == |roots| && h.index < Pow2(d)
    ensures ok <==> WalkChecks(be, ops, d, alphas, roots, h.index, h.foldedValue, h.folds)
  {
    hide RoundChecks, Entering, Pow2;
    var cur: nat, value := h.index, h.foldedValue;
    EnteringFirst(value, h.folds);
    QuotientUnique(h.index, Pow2(d), 0, h.index);
    for k := 0 to |roots| - 1
      invariant cur == h.index % Pow2(d - k) && cur < Pow2(d - k)
      invariant value == Entering(h.foldedValue, h.folds, k)
      invariant forall i | 0 <= i < k :: RoundOfWalk(be, ops, d, alphas, roots, h.index, h.foldedValue, h.folds, i)
    {
      var checked, moved := CheckRound(be, ops, d, k, alphas[k], roots[k], roots[k + 1], cur, value, h.folds[k]);
      assert checked <==> RoundOfWalk(be, ops, d, alphas, roots, h.index, h.foldedValue, h.folds, k);
      if !checked {
        return false;
      }
      Halved(cur, h.index, d, k);
      EnteringNext(h.foldedValue, h.folds, k);
      cur, value := moved, h.folds[k].foldedValue;
    }
    ok := true;
  }

  /** _verifyQuery. */
  method VerifyQuery<F, C>(be: Backend<F, C>, ops: Ops<F>, d: nat, hints: Hints<F>, x: Challenges<F>, h: QueryHint<F>) returns (ok: bool)
    requires |hints.layerRoots| == |h.folds| + 1 == |x.friAlphas| + 1 && |h.folds| < d <= 30 && h.depth == d
    ensures ok <==> QueryChecks(be, ops, d, hints, x, h)
  {
    hide PathChecks, PointChecks, WalkChecks, Degenerate, QuotientFold, AntipodalOf;
    var first := VerifyMem(be.hashPair, hints.compRoot, be.hashFelt(h.compValue), h.index, d, h.compProof);
    if !first {
      return false;
    }
    var second := VerifyMem(be.hashPair, hints.compRoot, be.hashFelt(h.compValueNeg), AntipodalOf(d, h.index), d, h.compProofNeg);
    if !second {
      return false;
    }
    var oods, plus, minus := VerifyOods(ops, h, hints.comboPos, hints.comboNeg, x.zx);
    if !oods {
      OodsMeans(ops, d, h, hints, x, plus, minus);
      return false;
    }
    var folded := CheckCircleFold(ops, plus, minus, h, x.friAlpha);
    OodsMeans(ops, d, h, hints, x, plus, minus);
    if !folded {
      return false;
    }
    var layer := VerifyMem(be.hashPair, hints.layerRoots[0], be.hashFelt(h.foldedValue), h.index, d, h.l1Siblings);
    if !layer {
      return false;
    }
    InDomain(d, h);
    ok := VerifyFolds(be, ops, d, h, x.friAlphas, hints.layerRoots);
  }

  lemma InDomain<F>(d: nat, h: QueryHint<F>)
    requires d <= 30 && PointChecks(d, h.index, h.pointX, h.pointY)
    ensures h.index < Pow2(d)
  {
  }

  /** At the domain point, the two quotients folded are the first layer's formula. */
  lemma OodsMeans<F>(ops: Ops<F>, d: nat, h: QueryHint<F>, hints: Hints<F>, x: Challenges<F>, plus: F, minus: F)
    requires d <= 30
    ensures PointChecks(d, h.index, h.pointX, h.pointY) ==>
      (Degenerate(ops, d, h.index, x.zx) <==>
         (ops.sub(ops.fromM31(h.pointX), x.zx) == ops.zero || ops.sub(ops.neg(ops.fromM31(h.pointX)), x.zx) == ops.zero))
    ensures (&& PointChecks(d, h.index, h.pointX, h.pointY)
             && plus == Quotient(ops, h.compValue, hints.comboPos, ops.sub(ops.fromM31(h.pointX), x.zx))
             && minus == Quotient(ops, h.compValueNeg, hints.comboNeg, ops.sub(ops.neg(ops.fromM31(h.pointX)), x.zx))) ==>
      FoldOf(ops, plus, minus, x.friAlpha, InverseOf(Coset(d, h.index).y))
      == QuotientFold(ops, d, h.index, h.compValue, h.compValueNeg, hints.comboPos, hints.comboNeg, x.zx, x.friAlpha)
  {
    hide Coset, FoldOf, OnCircleCheck, Pow2, Quotient;
  }

  // ------------------------------------------------------------ verify

  /** The checks made before anything is hashed but the commitment. */
  method CheckGuards<F>(ops: Ops<F>, blake: Bytes -> Digest32, proof: Bytes, commitment: Bytes, merkleRoot: Node, hints: Hints<F>)
    returns (ok: bool)
    ensures ok <==>
      && MIN_PROOF_LENGTH <= |proof| <= MAX_PROOF_LENGTH && commitment == CommitmentOf(blake, proof, merkleRoot)
      && NonZero(ops, commitment, merkleRoot, hints) && hints.lastLayer != []
      && 2 <= |hints.layerRoots| <= MAX_FOLD_ROUNDS + 1 && 1 <= |hints.queries| <= MAX_QUERIES
  {
    if |proof| < MIN_PROOF_LENGTH || |proof| > MAX_PROOF_LENGTH {
      return false;
    }
    if commitment == Zeros(16) || merkleRoot == Zeros(32) {
      return false;
    }
    if CommitmentOf(blake, proof, merkleRoot) != commitment {
      return false;
    }
    if hints.comboPos == ops.zero && hints.comboNeg == ops.zero {
      return false;
    }
    if hints.compRoot == Zeros(32) || |hints.lastLayer| == 0 {
      return false;
    }
    if |hints.layerRoots| < 2 || |hints.layerRoots| > MAX_FOLD_ROUNDS + 1 {
      return false;
    }
    if |hints.queries| < 1 || |hints.queries| > MAX_QUERIES {
      return false;
    }
    for r := 0 to |hints.layerRoots|
      invariant forall s | 0 <= s < r :: hints.layerRoots[s] != Zeros(32)
    {
      if hints.layerRoots[r] == Zeros(32) {
        return false;
      }
    }
    ok := true;
  }

  method CheckShape<F>(d: nat, hints: Hints<F>) returns (ok: bool)
    requires hints.layerRoots != []
    ensures ok <==> SameShape(d, hints)
  {
    var folds := |hints.layerRoots| - 1;
    for i := 0 to |hints.queries|
      invariant forall j | 0 <= j < i :: hints.queries[j].depth == d && |hints.queries[j].folds| == folds
    {
      if hints.queries[i].depth != d || |hints.queries[i].folds| != folds {
        return false;
      }
    }
    ok := true;
  }

  method VerifyQueries<F, C>(be: Backend<F, C>, ops: Ops<F>, d: nat, hints: Hints<F>, x: Challenges<F>) returns (ok: bool)
    requires 1 <= |hints.layerRoots| <= d <= 30 && |hints.layerRoots| == |x.friAlphas| + 1
    requires SameShape(d, hints) && |x.indices| == |hints.queries|
    ensures ok <==> forall i | 0 <= i < |hints.queries| ::
      hints.queries[i].index == x.indices[i] && QueryChecks(be, ops, d, hints, x, hints.queries[i])
  {
    hide QueryChecks;
    for i := 0 to |hints.queries|
      invariant forall j | 0 <= j < i ::
        hints.queries[j].index == x.indices[j] && QueryChecks(be, ops, d, hints, x, hints.queries[j])
    {
      if hints.queries[i].index != x.indices[i] {
        return false;
      }
      var checked := VerifyQuery(be, ops, d, hints, x, hints.queries[i]);
      if !checked {
        return false;
      }
    }
    ok := true;
  }

  /** The contract's entry point, its hints decoded. */
  method Verify<F, C(!new)>(be: Backend<F, C>, ops: Ops<F>, blake: Bytes -> Digest32,
                            proof: Bytes, commitment: Bytes, merkleRoot: Node, hints: Hints<F>) returns (ok: bool)
    requires DrawsInRange(be)
    ensures ok <==> Accepts(be, ops, blake, proof, commitment, merkleRoot, hints)
  {
    hide Replayed, QueryChecks, LayerMatches, NonZero, CommitmentOf, SameShape, DrawsInRange;
    EmptyLastLayer(be, hints);
    var guarded := CheckGuards(ops, blake, proof, commitment, merkleRoot, hints);
    if !guarded {
      return false;
    }
    var d, folds := hints.queries[0].depth, |hints.layerRoots| - 1;
    if d < folds + 1 || d > 30 {
      return false;
    }
    var shaped := CheckShape(d, hints);
    if !shaped {
      return false;
    }
    var last := CheckLastLayer(be, hints.lastLayer, hints.layerRoots[folds], d - folds);
    if !last {
      return false;
    }
    DrawsAll(be, ops, Claimed(d, |hints.queries|, proof[8..40], merkleRoot, hints));
    var x := Replay(be, ops, Claimed(d, |hints.queries|, proof[8..40], merkleRoot, hints));
    ok := VerifyQueries(be, ops, d, hints, x);
  }

  lemma EmptyLastLayer<F, C>(be: Backend<F, C>, hints: Hints<F>)
    ensures forall m: nat, root :: LayerMatches(be, hints.lastLayer, m, root) ==> hints.lastLayer != []
  {
  }

  lemma DrawsAll<F, C(!new)>(be: Backend<F, C>, ops: Ops<F>, pub: Public<F>)
    requires DrawsInRange(be) && pub.layerRoots != []
    ensures |Replayed(be, ops, pub).indices| == pub.nQueries
    ensures forall i | 0 <= i < pub.nQueries :: Replayed(be, ops, pub).indices[i] < Pow2(pub.depth)
  {
    hide AfterTrace, AfterComposition, AfterLayers, Pow2;
  }
}
