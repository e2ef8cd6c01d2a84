/**
 * The power-of-two Merkle tree of the FRI prover: build_tree and proof_path
 * (stark_stwo/src/vfri2_bridge.rs, archive/rust/poseidon2_t2_helpers.rs).  The
 * pair hash is a parameter, since the backends differ in nothing else.
 */
module FriTree {
  import opened Bytes
  import opened Prelude

  type Node = Digest32

  type PairHash = (Node, Node) -> Node

  type Levels = seq<seq<Node>>

  /** Node i of level k of the perfect tree over the leaves. */
  ghost function NodeOf(hp: PairHash, leaves: seq<Node>, d: nat, k: nat, i: nat): Node
    requires |leaves| == Pow2(d) && k <= d && i < Pow2(d - k)
  {
    if k == 0 then leaves[i]
    else hp(NodeOf(hp, leaves, d, k - 1, 2 * i), NodeOf(hp, leaves, d, k - 1, 2 * i + 1))
  }

  ghost function Root(hp: PairHash, leaves: seq<Node>, d: nat): Node
    requires |leaves| == Pow2(d)
  {
    NodeOf(hp, leaves, d, d, 0)
  }

  ghost predicate IsLevel(hp: PairHash, leaves: seq<Node>, d: nat, k: nat, level: seq<Node>)
    requires |leaves| == Pow2(d)
  {
    && k <= d && |level| == Pow2(d - k)
    && forall i | 0 <= i < |level| :: level[i] == NodeOf(hp, leaves, d, k, i)
  }

  ghost predicate IsTree(hp: PairHash, leaves: seq<Node>, d: nat, levels: Levels)
    requires |leaves| == Pow2(d)
  {
    && |levels| == d + 1
    && forall k | 0 <= k <= d :: IsLevel(hp, leaves, d, k, levels[k])
  }

  /** The nodes below level d + 1 are those of the two halves. */
  lemma {:induction false} NodeOfLeft(hp: PairHash, leaves: seq<Node>, d: nat, k: nat, i: nat)
    requires |leaves| == Pow2(d + 1) && k <= d && i < Pow2(d - k)
    ensures i < Pow2(d + 1 - k)
    ensures NodeOf(hp, leaves, d + 1, k, i) == NodeOf(hp, leaves[..Pow2(d)], d, k, i)
    decreases k
  {
    hide Pow2;
    Pow2Next(d - k);
    if k > 0 {
      Pow2Next(d - k + 1);
      NodeOfLeft(hp, leaves, d, k - 1, 2 * i);
      NodeOfLeft(hp, leaves, d, k - 1, 2 * i + 1);
    }
  }

  lemma {:induction false} NodeOfRight(hp: PairHash, leaves: seq<Node>, d: nat, k: nat, i: nat)
    requires |leaves| == Pow2(d + 1) && k <= d && i < Pow2(d - k)
    ensures i + Pow2(d - k) < Pow2(d + 1 - k)
    ensures NodeOf(hp, leaves, d + 1, k, i + Pow2(d - k)) == NodeOf(hp, leaves[Pow2(d)..], d, k, i)
    decreases k
  {
    hide Pow2;
    Pow2Next(d);
    Pow2Next(d - k);
    if k > 0 {
      Pow2Next(d - k + 1);
      NodeOfRight(hp, leaves, d, k - 1, 2 * i);
      NodeOfRight(hp, leaves, d, k - 1, 2 * i + 1);
    }
  }

  /** The root of a tree is the pair hash of the roots of its left and its right half. */
  lemma RootOfHalves(hp: PairHash, leaves: seq<Node>, d: nat)
    requires |leaves| == Pow2(d + 1)
    ensures Root(hp, leaves, d + 1) == hp(Root(hp, leaves[..Pow2(d)], d), Root(hp, leaves[Pow2(d)..], d))
  {
    NodeOfLeft(hp, leaves, d, d, 0);
    NodeOfRight(hp, leaves, d, d, 0);
  }

  method NextLevel(hp: PairHash, ghost leaves: seq<Node>, ghost d: nat, ghost k: nat, prev: seq<Node>) returns (next: seq<Node>)
    requires |leaves| == Pow2(d) && k < d && IsLevel(hp, leaves, d, k, prev)
    ensures IsLevel(hp, leaves, d, k + 1, next)
  {
    next := [];
    while |next| < |prev| / 2
      invariant |next| <= |prev| / 2 == Pow2(d - k - 1)
      invariant forall i | 0 <= i < |next| :: next[i] == NodeOf(hp, leaves, d, k + 1, i)
    {
      var i := |next|;
      next := next + [hp(prev[2 * i], prev[2 * i + 1])];
    }
  }

  method BuildTree(hp: PairHash, leaves: seq<Node>, ghost d: nat) returns (levels: Levels)
    requires |leaves| == Pow2(d)
    ensures IsTree(hp, leaves, d, levels)
    ensures levels[d] == [Root(hp, leaves, d)]
  {
    levels := [leaves];
    while |levels[|levels| - 1]| > 1
      invariant 1 <= |levels| <= d + 1
      invariant forall k | 0 <= k < |levels| :: IsLevel(hp, leaves, d, k, levels[k])
      decreases d + 1 - |levels|
    {
      ghost var k := |levels| - 1;
      assert IsLevel(hp, leaves, d, k, levels[k]);
      var next := NextLevel(hp, leaves, d, k, levels[|levels| - 1]);
      levels := levels + [next];
    }
    ghost var k := |levels| - 1;
    assert IsLevel(hp, leaves, d, k, levels[k]);
    assert Pow2(d - k) == 1 ==> k == d;
  }

  // ------------------------------------------------------------ paths

  function Sibling(i: nat): nat {
    if i % 2 == 0 then i + 1 else i - 1
  }

  lemma {:induction false} SiblingBelow(i: nat, m: nat)
    requires m >= 1 && i < Pow2(m)
    ensures Sibling(i) < Pow2(m) && i / 2 < Pow2(m - 1)
  {
  }

  /** Where a verifier gets to from a node, its index and the siblings on the way up. */
  function PathRoot(hp: PairHash, node: Node, index: nat, path: seq<Node>): Node
    decreases |path|
  {
    if path == [] then node
    else PathRoot(hp, if index % 2 == 0 then hp(node, path[0]) else hp(path[0], node), index / 2, path[1..])
  }

  /** The siblings from level k upwards. */
  ghost function PathFrom(hp: PairHash, leaves: seq<Node>, d: nat, k: nat, i: nat): (path: seq<Node>)
    requires |leaves| == Pow2(d) && k <= d && i < Pow2(d - k)
    ensures |path| == d - k
    decreases d - k
  {
    if k == d then []
    else
      SiblingBelow(i, d - k);
      [NodeOf(hp, leaves, d, k, Sibling(i))] + PathFrom(hp, leaves, d, k + 1, i / 2)
  }

  method ProofPath(hp: PairHash, ghost leaves: seq<Node>, ghost d: nat, levels: Levels, index: nat) returns (siblings: seq<Node>)
    requires |leaves| == Pow2(d) && IsTree(hp, leaves, d, levels) && index < Pow2(d)
    ensures siblings == PathFrom(hp, leaves, d, 0, index)
  {
    siblings := [];
    var i: nat := index;
    for k := 0 to |levels| - 1
      invariant i < Pow2(d - k)
      invariant siblings + PathFrom(hp, leaves, d, k, i) == PathFrom(hp, leaves, d, 0, index)
    {
      SiblingBelow(i, d - k);
      assert IsLevel(hp, leaves, d, k, levels[k]);
      ghost var rest := PathFrom(hp, leaves, d, k + 1, i / 2);
      ConcatAssociates(siblings, [levels[k][Sibling(i)]], rest);
      siblings := siblings + [levels[k][Sibling(i)]];
      i := i / 2;
    }
  }

  lemma {:induction false} PathReaches(hp: PairHash, leaves: seq<Node>, d: nat, k: nat, i: nat)
    requires |leaves| == Pow2(d) && k <= d && i < Pow2(d - k)
    ensures PathRoot(hp, NodeOf(hp, leaves, d, k, i), i, PathFrom(hp, leaves, d, k, i)) == Root(hp, leaves, d)
    decreases d - k
  {
    if k < d {
      SiblingBelow(i, d - k);
      var path := PathFrom(hp, leaves, d, k, i);
      assert path[1..] == PathFrom(hp, leaves, d, k + 1, i / 2);
      PathReaches(hp, leaves, d, k + 1, i / 2);
    }
  }

  /** Every emitted path authenticates its leaf to the root, and has the tree's depth. */
  lemma PathAuthenticates(hp: PairHash, leaves: seq<Node>, d: nat, i: nat)
    requires |leaves| == Pow2(d) && i < Pow2(d)
    ensures |PathFrom(hp, leaves, d, 0, i)| == d
    ensures PathRoot(hp, leaves[i], i, PathFrom(hp, leaves, d, 0, i)) == Root(hp, leaves, d)
  {
    PathReaches(hp, leaves, d, 0, i);
  }

  // ------------------------------------------------------------ binding

  /** The two children of node i of level k + 1. */
  ghost function PairAt(hp: PairHash, leaves: seq<Node>, d: nat, k: nat, i: nat): (Node, Node)
    requires |leaves| == Pow2(d) && k < d && i < Pow2(d - k - 1)
  {
    (NodeOf(hp, leaves, d, k, 2 * i), NodeOf(hp, leaves, d, k, 2 * i + 1))
  }

  /** The pairs hashed in the tree. */
  ghost function TreePairs(hp: PairHash, leaves: seq<Node>, d: nat): set<(Node, Node)>
    requires |leaves| == Pow2(d)
  {
    set k: nat, i: nat | k < d && i < Pow2(d - k - 1) :: PairAt(hp, leaves, d, k, i)
  }

  function Ordered(node: Node, sibling: Node, index: nat): (Node, Node) {
    if index % 2 == 0 then (node, sibling) else (sibling, node)
  }

  /** The pairs hashed along a path. */
  ghost function PathPairs(hp: PairHash, node: Node, index: nat, path: seq<Node>): set<(Node, Node)>
    decreases |path|
  {
    if path == [] then {}
    else var pair := Ordered(node, path[0], index);
         {pair} + PathPairs(hp, hp(pair.0, pair.1), index / 2, path[1..])
  }

  /** Two pairs that read differently, hashed to nodes that read alike.  A hash need not
      read the whole of a node: the view is what it reads. */
  ghost predicate PairsCollide<N>(hp: PairHash, view: Node -> N, xs: set<(Node, Node)>, ys: set<(Node, Node)>) {
    exists x, y :: x in xs && y in ys && PairCollides(hp, view, x, y)
  }

  ghost predicate PairCollides<N>(hp: PairHash, view: Node -> N, x: (Node, Node), y: (Node, Node)) {
    !SamePair(view, x, y) && view(hp(x.0, x.1)) == view(hp(y.0, y.1))
  }

  ghost predicate SamePair<N>(view: Node -> N, x: (Node, Node), y: (Node, Node)) {
    view(x.0) == view(y.0) && view(x.1) == view(y.1)
  }

  /** Two paths that read alike. */
  ghost predicate SamePath<N>(view: Node -> N, xs: seq<Node>, ys: seq<Node>) {
    |xs| == |ys| && forall i | 0 <= i < |xs| :: view(xs[i]) == view(ys[i])
  }

  /** The pair hash reads of a node no more than the view. */
  ghost predicate PairReads<N>(hp: PairHash, view: Node -> N) {
    forall a: Node, b: Node, c: Node, e: Node :: view(a) == view(c) && view(b) == view(e) ==> hp(a, b) == hp(c, e)
  }

  /**
   * Binding.  A path of the tree's depth that leads from a node at an index to the
   * root proves that the node reads like the committed one, and the path like the
   * committed path, unless tree and path hash two pairs that read differently to nodes
   * that read alike.
   */
  lemma {:induction false} PathBinds<N>(hp: PairHash, view: Node -> N, leaves: seq<Node>, d: nat, k: nat, i: nat,
                                        node: Node, path: seq<Node>)
    requires |leaves| == Pow2(d) && k <= d && i < Pow2(d - k) && |path| == d - k
    requires view(PathRoot(hp, node, i, path)) == view(Root(hp, leaves, d))
    requires !PairsCollide(hp, view, TreePairs(hp, leaves, d), PathPairs(hp, node, i, path))
    ensures view(node) == view(NodeOf(hp, leaves, d, k, i)) && SamePath(view, path, PathFrom(hp, leaves, d, k, i))
    decreases d - k
  {
    hide TreePairs, PairsCollide, Pow2, Root, PairAt, NodeOf;
    if k == d {
      RootIsTop(hp, leaves, d, i);
    } else {
      SiblingBelow(i, d - k);
      var pair := Ordered(node, path[0], i);
      FewerPairs(hp, view, TreePairs(hp, leaves, d), PathPairs(hp, node, i, path),
                 PathPairs(hp, hp(pair.0, pair.1), i / 2, path[1..]));
      PathBinds(hp, view, leaves, d, k + 1, i / 2, hp(pair.0, pair.1), path[1..]);
      TreePairIn(hp, leaves, d, k, i / 2);
      PairBinds(hp, view, leaves, d, k, i, node, path);
    }
  }

  lemma RootIsTop(hp: PairHash, leaves: seq<Node>, d: nat, i: nat)
    requires |leaves| == Pow2(d) && i < Pow2(0)
    ensures NodeOf(hp, leaves, d, d, i) == Root(hp, leaves, d)
  {
  }

  /** One level down: the pair hashed last is the tree's, and so the rest of the path. */
  lemma PairBinds<N>(hp: PairHash, view: Node -> N, leaves: seq<Node>, d: nat, k: nat, i: nat, node: Node, path: seq<Node>)
    requires |leaves| == Pow2(d) && k < d && i < Pow2(d - k) && |path| == d - k
    requires i / 2 < Pow2(d - k - 1) && Sibling(i) < Pow2(d - k)
    requires !PairsCollide(hp, view, TreePairs(hp, leaves, d), PathPairs(hp, node, i, path))
    requires PairAt(hp, leaves, d, k, i / 2) in TreePairs(hp, leaves, d)
    requires var pair := Ordered(node, path[0], i);
             && view(hp(pair.0, pair.1)) == view(NodeOf(hp, leaves, d, k + 1, i / 2))
             && SamePath(view, path[1..], PathFrom(hp, leaves, d, k + 1, i / 2))
    ensures view(node) == view(NodeOf(hp, leaves, d, k, i)) && SamePath(view, path, PathFrom(hp, leaves, d, k, i))
  {
    hide TreePairs, PairsCollide, Pow2, SamePair;
    PairIsSame(hp, view, TreePairs(hp, leaves, d), PathPairs(hp, node, i, path),
               PairAt(hp, leaves, d, k, i / 2), Ordered(node, path[0], i));
    FromPair(hp, view, leaves, d, k, i, node, path[0]);
    assert path == [path[0]] + path[1..];
  }

  lemma FromPair<N>(hp: PairHash, view: Node -> N, leaves: seq<Node>, d: nat, k: nat, i: nat, node: Node, sibling: Node)
    requires |leaves| == Pow2(d) && k < d && i < Pow2(d - k) && i / 2 < Pow2(d - k - 1) && Sibling(i) < Pow2(d - k)
    requires SamePair(view, PairAt(hp, leaves, d, k, i / 2), Ordered(node, sibling, i))
    ensures view(node) == view(NodeOf(hp, leaves, d, k, i)) && view(sibling) == view(NodeOf(hp, leaves, d, k, Sibling(i)))
  {
    assert i == 2 * (i / 2) + i % 2;
  }

  lemma TreePairIn(hp: PairHash, leaves: seq<Node>, d: nat, k: nat, i: nat)
    requires |leaves| == Pow2(d) && k < d && i < Pow2(d - k - 1)
    ensures PairAt(hp, leaves, d, k, i) in TreePairs(hp, leaves, d)
  {
  }

  lemma FewerPairs<N>(hp: PairHash, view: Node -> N, xs: set<(Node, Node)>, ys: set<(Node, Node)>, zs: set<(Node, Node)>)
    requires !PairsCollide(hp, view, xs, ys) && zs <= ys
    ensures !PairsCollide(hp, view, xs, zs)
  {
  }

  lemma PairIsSame<N>(hp: PairHash, view: Node -> N, xs: set<(Node, Node)>, ys: set<(Node, Node)>, x: (Node, Node), y: (Node, Node))
    requires !PairsCollide(hp, view, xs, ys) && x in xs && y in ys && view(hp(x.0, x.1)) == view(hp(y.0, y.1))
    ensures SamePair(view, x, y)
  {
    assert PairCollides(hp, view, x, y) || SamePair(view, x, y);
  }

  /** The other way round, for any pair hash that reads no more than the view: paths that
      read alike lead to one root. */
  lemma {:induction false} SamePathSameRoot<N>(hp: PairHash, view: Node -> N, node: Node, i: nat, path: seq<Node>, other: seq<Node>)
    requires PairReads(hp, view) && SamePath(view, path, other)
    ensures PathRoot(hp, node, i, path) == PathRoot(hp, node, i, other)
    decreases |path|
  {
    if path != [] {
      var up := if i % 2 == 0 then hp(node, path[0]) else hp(path[0], node);
      assert up == if i % 2 == 0 then hp(node, other[0]) else hp(other[0], node);
      SamePathSameRoot(hp, view, up, i / 2, path[1..], other[1..]);
    }
  }
}
