/**
 * core/merkle.py: the batch Merkle tree.
 *
 * The hash SHA3-512 is a parameter `h`.  No hardness is assumed of it: each
 * security statement reads "the claim holds, or two different byte strings,
 * both among those this very tree and this very proof hash, have equal hashes".
 */
module Merkle {
  import opened Bytes
  import opened Prelude

  type Hash = Bytes -> Digest64

  type Tree = seq<seq<Digest64>>

  /** One proof element: the sibling and the side it stands on. */
  datatype Step = Step(sibling: Bytes, side: string)

  datatype Error = EmptyLeaves | IndexOutOfRange

  function HashLeaf(h: Hash, data: Bytes): Digest64 {
    h([0] + data)
  }

  function HashNode(h: Hash, left: Bytes, right: Bytes): Digest64 {
    h([1] + left + right)
  }

  // ---------------------------------------------------------------- shape

  /** Number of nodes on level k of the tree over n leaves. */
  function LevelLen(n: nat, k: nat): nat {
    if k == 0 then n else (LevelLen(n, k - 1) + 1) / 2
  }

  function Depth(n: nat): nat {
    if n <= 1 then 0 else 1 + Depth((n + 1) / 2)
  }

  lemma {:induction false} LevelLenShift(n: nat, k: nat)
    ensures LevelLen(n, k + 1) == LevelLen((n + 1) / 2, k)
  {
    if k > 0 {
      LevelLenShift(n, k - 1);
    }
  }

  /** The root level is the first level of length one. */
  lemma {:induction false} LevelLenDepth(n: nat, k: nat)
    requires n >= 1
    ensures LevelLen(n, k) >= 1
    ensures LevelLen(n, k) == 1 <==> k >= Depth(n)
    decreases k
  {
    if k == 0 {
    } else if n == 1 {
      LevelLenDepth(1, k - 1);
    } else {
      LevelLenShift(n, k - 1);
      LevelLenDepth((n + 1) / 2, k - 1);
    }
  }

  /** The depth is the least d with 2^d >= n. */
  lemma {:induction false} DepthIsLeast(n: nat, d: nat)
    requires n >= 1
    ensures Pow2(d) >= n <==> d >= Depth(n)
    decreases n
  {
    if n > 1 && d > 0 {
      DepthIsLeast((n + 1) / 2, d - 1);
    }
  }

  // ------------------------------------------------- reference definitions

  /** The second child of node i on the level above one of length len: the last
      node is its own right sibling when the level is odd. */
  function Right(len: nat, i: nat): nat
    requires 2 * i < len
  {
    if 2 * i + 1 < len then 2 * i + 1 else 2 * i
  }

  /** The bytes hashed for node i of level k. */
  ghost function Preimage(h: Hash, leaves: seq<Bytes>, k: nat, i: nat): Bytes
    requires i < LevelLen(|leaves|, k)
    decreases k, 0
  {
    if k == 0 then [0] + leaves[i]
    else [1] + NodeAt(h, leaves, k - 1, 2 * i)
             + NodeAt(h, leaves, k - 1, Right(LevelLen(|leaves|, k - 1), i))
  }

  ghost function NodeAt(h: Hash, leaves: seq<Bytes>, k: nat, i: nat): Digest64
    requires i < LevelLen(|leaves|, k)
    decreases k, 1
  {
    h(Preimage(h, leaves, k, i))
  }

  ghost function Root(h: Hash, leaves: seq<Bytes>): Digest64
    requires leaves != []
  {
    LevelLenDepth(|leaves|, Depth(|leaves|));
    NodeAt(h, leaves, Depth(|leaves|), 0)
  }

  /** The leaves below node i of level k, with every duplicate the tree makes. */
  ghost function Expand(leaves: seq<Bytes>, k: nat, i: nat): (e: seq<Bytes>)
    requires i < LevelLen(|leaves|, k)
    ensures |e| == Pow2(k)
  {
    if k == 0 then [leaves[i]]
    else Expand(leaves, k - 1, 2 * i)
         + Expand(leaves, k - 1, Right(LevelLen(|leaves|, k - 1), i))
  }

  ghost function Expansion(leaves: seq<Bytes>): seq<Bytes>
    requires leaves != []
  {
    LevelLenDepth(|leaves|, Depth(|leaves|));
    Expand(leaves, Depth(|leaves|), 0)
  }

  /** The textbook perfect binary tree over 2^k leaves. */
  ghost function Perfect(h: Hash, k: nat, e: seq<Bytes>): Digest64
    requires |e| == Pow2(k)
  {
    if k == 0 then HashLeaf(h, e[0])
    else HashNode(h, Perfect(h, k - 1, e[..Pow2(k - 1)]), Perfect(h, k - 1, e[Pow2(k - 1)..]))
  }

  /** Everything build_merkle_tree hashes. */
  ghost function TreeInputs(h: Hash, leaves: seq<Bytes>): set<Bytes> {
    set k: nat, i: nat | k <= Depth(|leaves|) && i < LevelLen(|leaves|, k) :: Preimage(h, leaves, k, i)
  }

  ghost predicate Collides(h: Hash, xs: set<Bytes>, ys: set<Bytes>) {
    exists x, y :: x in xs && y in ys && x != y && h(x) == h(y)
  }

  // ------------------------------------------------------ build_merkle_tree

  /** The levels build_merkle_tree returns, stated node by node. */
  ghost predicate IsTree(h: Hash, leaves: seq<Bytes>, tree: Tree) {
    && |tree| == Depth(|leaves|) + 1
    && forall k | 0 <= k < |tree| :: IsLevel(h, leaves, k, tree[k])
  }

  ghost predicate IsLevel(h: Hash, leaves: seq<Bytes>, k: nat, level: seq<Digest64>) {
    && |level| == LevelLen(|leaves|, k)
    && forall i | 0 <= i < |level| :: level[i] == NodeAt(h, leaves, k, i)
  }

  /** Node j of level k hashes its two children, the last node doubling for itself. */
  lemma NodeOfPair(h: Hash, leaves: seq<Bytes>, k: nat, j: nat)
    requires k > 0 && j < LevelLen(|leaves|, k)
    ensures LevelLen(|leaves|, k) == (LevelLen(|leaves|, k - 1) + 1) / 2
    ensures NodeAt(h, leaves, k, j) == HashNode(h, NodeAt(h, leaves, k - 1, 2 * j),
                                                NodeAt(h, leaves, k - 1, Right(LevelLen(|leaves|, k - 1), j)))
  {
  }

  /** One round of the building loop: the level above, node by node. */
  method NextLevel(h: Hash, ghost leaves: seq<Bytes>, ghost k: nat, level: seq<Digest64>) returns (next: seq<Digest64>)
    requires IsLevel(h, leaves, k, level) && |level| > 1
    ensures IsLevel(h, leaves, k + 1, next)
  {
    hide NodeAt, LevelLen;
    var current := level;
    if |current| % 2 == 1 {
      current := current + [current[|current| - 1]];
    }
    next := [];
    LevelAbove(|leaves|, k);
    ghost var len := LevelLen(|leaves|, k + 1);
    while |next| < |current| / 2
      invariant |next| <= |current| / 2 == len
      invariant forall j | 0 <= j < |next| :: next[j] == NodeAt(h, leaves, k + 1, j)
    {
      var j := |next|;
      NodeOfPair(h, leaves, k + 1, j);
      assert current[2 * j + 1] == level[Right(|level|, j)];
      next := next + [HashNode(h, current[2 * j], current[2 * j + 1])];
    }
  }

  lemma LevelAbove(n: nat, k: nat)
    ensures LevelLen(n, k + 1) == (LevelLen(n, k) + 1) / 2
  {
  }

  method BuildMerkleTree(h: Hash, leaves: seq<Bytes>) returns (r: Result<Tree, Error>)
    ensures r.Failure? <==> leaves == []
    ensures r.Failure? ==> r.error == EmptyLeaves
    ensures r.Success? ==> IsTree(h, leaves, r.value)
    ensures r.Success? ==> r.value[|r.value| - 1] == [Root(h, leaves)]
  {
    if leaves == [] {
      return Failure(EmptyLeaves);
    }
    var current: seq<Digest64> := seq(|leaves|, i requires 0 <= i < |leaves| => HashLeaf(h, leaves[i]));
    var tree := [current];
    LevelLenDepth(|leaves|, 0);
    while |current| > 1
      invariant |tree| >= 1 && current == tree[|tree| - 1]
      invariant |tree| - 1 <= Depth(|leaves|)
      invariant forall k | 0 <= k < |tree| :: IsLevel(h, leaves, k, tree[k])
      decreases |current|
    {
      ghost var k := |tree| - 1;
      LevelLenDepth(|leaves|, k);
      var next := NextLevel(h, leaves, k, current);
      tree := tree + [next];
      current := next;
    }
    LevelLenDepth(|leaves|, |tree| - 1);
    r := Success(tree);
  }

  // -------------------------------------------- the tree as a perfect tree

  lemma {:induction false} NodeIsPerfect(h: Hash, leaves: seq<Bytes>, k: nat, i: nat)
    requires i < LevelLen(|leaves|, k)
    ensures NodeAt(h, leaves, k, i) == Perfect(h, k, Expand(leaves, k, i))
  {
    if k > 0 {
      var r := Right(LevelLen(|leaves|, k - 1), i);
      NodeIsPerfect(h, leaves, k - 1, 2 * i);
      NodeIsPerfect(h, leaves, k - 1, r);
      var e, p := Expand(leaves, k, i), Pow2(k - 1);
      assert e[..p] == Expand(leaves, k - 1, 2 * i);
      assert e[p..] == Expand(leaves, k - 1, r);
    }
  }

  /** The root is that of the perfect tree over the expanded leaf list. */
  lemma TreeIsPerfect(h: Hash, leaves: seq<Bytes>)
    requires leaves != []
    ensures |Expansion(leaves)| == Pow2(Depth(|leaves|))
    ensures Root(h, leaves) == Perfect(h, Depth(|leaves|), Expansion(leaves))
  {
    LevelLenDepth(|leaves|, Depth(|leaves|));
    NodeIsPerfect(h, leaves, Depth(|leaves|), 0);
  }

  lemma {:induction false} ExpandStartsWith(leaves: seq<Bytes>, k: nat, i: nat, j: nat)
    requires i < LevelLen(|leaves|, k)
    requires j < Pow2(k) && i * Pow2(k) + j < |leaves|
    ensures Expand(leaves, k, i)[j] == leaves[i * Pow2(k) + j]
  {
    if k > 0 {
      var p := Pow2(k - 1);
      Twice(i, p);
      if j < p {
        ExpandStartsWith(leaves, k - 1, 2 * i, j);
      } else {
        LevelCovers(|leaves|, k - 1, 2 * i + 1);
        ExpandStartsWith(leaves, k - 1, 2 * i + 1, j - p);
      }
    }
  }

  lemma Twice(i: nat, p: nat)
    ensures i * (2 * p) == (2 * i) * p
    ensures (2 * i + 1) * p == (2 * i) * p + p
  {
  }

  /** A block of 2^k leaves that starts inside the list has its node on level k. */
  lemma {:induction false} LevelCovers(n: nat, k: nat, i: nat)
    requires i * Pow2(k) < n
    ensures i < LevelLen(n, k)
  {
    if k > 0 {
      assert i * Pow2(k) == (2 * i) * Pow2(k - 1);
      LevelCovers(n, k - 1, 2 * i);
    }
  }

  /** The expansion only adds leaves behind the list. */
  lemma LeavesPrefixExpansion(leaves: seq<Bytes>)
    requires leaves != []
    ensures leaves <= Expansion(leaves)
  {
    var d := Depth(|leaves|);
    LevelLenDepth(|leaves|, d);
    DepthIsLeast(|leaves|, d);
    forall j | 0 <= j < |leaves|
      ensures Expansion(leaves)[j] == leaves[j]
    {
      ExpandStartsWith(leaves, d, 0, j);
    }
  }

  lemma {:induction false} ExpandFromLeaves(leaves: seq<Bytes>, k: nat, i: nat, j: nat)
    requires i < LevelLen(|leaves|, k) && j < Pow2(k)
    ensures Expand(leaves, k, i)[j] in leaves
  {
    if k > 0 {
      var p := Pow2(k - 1);
      if j < p {
        ExpandFromLeaves(leaves, k - 1, 2 * i, j);
      } else {
        ExpandFromLeaves(leaves, k - 1, Right(LevelLen(|leaves|, k - 1), i), j - p);
      }
    }
  }

  // ---------------------------------------------------------------- binding

  /** Domain separation: the first byte tells leaf preimages from node preimages. */
  lemma PreimageTag(h: Hash, leaves: seq<Bytes>, k: nat, i: nat)
    requires i < LevelLen(|leaves|, k)
    ensures var p := Preimage(h, leaves, k, i); p != [] && p[0] == if k == 0 then 0 else 1
    ensures NodeAt(h, leaves, k, i) == h(Preimage(h, leaves, k, i))
  {
  }

  lemma {:induction false} NodeBinding(h: Hash, xs: seq<Bytes>, k: nat, i: nat, ys: seq<Bytes>, l: nat, j: nat)
    requires k <= Depth(|xs|) && i < LevelLen(|xs|, k)
    requires l <= Depth(|ys|) && j < LevelLen(|ys|, l)
    requires NodeAt(h, xs, k, i) == NodeAt(h, ys, l, j)
    ensures (k == l && Expand(xs, k, i) == Expand(ys, l, j)) || Collides(h, TreeInputs(h, xs), TreeInputs(h, ys))
    decreases k
  {
    hide TreeInputs, Collides, Depth, LevelLen;
    var p, q := Preimage(h, xs, k, i), Preimage(h, ys, l, j);
    InputsMeet(h, xs, k, i, ys, l, j);
    assert p[0] == (if k == 0 then 0 else 1) && q[0] == (if l == 0 then 0 else 1);
    if p == q {
      if k > 0 {
        ChildBelow(|xs|, k, i);
        ChildBelow(|ys|, l, j);
        var r, s := Right(LevelLen(|xs|, k - 1), i), Right(LevelLen(|ys|, l - 1), j);
        SplitNode(NodeAt(h, xs, k - 1, 2 * i), NodeAt(h, xs, k - 1, r),
                  NodeAt(h, ys, l - 1, 2 * j), NodeAt(h, ys, l - 1, s));
        NodeBinding(h, xs, k - 1, 2 * i, ys, l - 1, 2 * j);
        NodeBinding(h, xs, k - 1, r, ys, l - 1, s);
      } else {
        BottomLevel(|xs|);
        BottomLevel(|ys|);
        assert p[1..] == xs[i] && q[1..] == ys[j];
      }
    }
  }

  /** Two nodes that are equal have one preimage, or collide. */
  lemma InputsMeet(h: Hash, xs: seq<Bytes>, k: nat, i: nat, ys: seq<Bytes>, l: nat, j: nat)
    requires k <= Depth(|xs|) && i < LevelLen(|xs|, k)
    requires l <= Depth(|ys|) && j < LevelLen(|ys|, l)
    requires NodeAt(h, xs, k, i) == NodeAt(h, ys, l, j)
    ensures Preimage(h, xs, k, i) == Preimage(h, ys, l, j) || Collides(h, TreeInputs(h, xs), TreeInputs(h, ys))
  {
    assert Preimage(h, xs, k, i) in TreeInputs(h, xs) && Preimage(h, ys, l, j) in TreeInputs(h, ys);
  }

  lemma BottomLevel(n: nat)
    ensures LevelLen(n, 0) == n
  {
  }

  lemma ChildBelow(n: nat, k: nat, i: nat)
    requires k > 0 && i < LevelLen(n, k)
    ensures 2 * i < LevelLen(n, k - 1)
  {
    LevelAbove(n, k - 1);
  }

  /** Node preimages of equal total length split in one way only. */
  lemma SplitNode(a: Bytes, b: Bytes, c: Bytes, d: Bytes)
    requires [1] + a + b == [1] + c + d
    requires |a| == |c| || |b| == |d|
    ensures a == c && b == d
  {
    SplitsOnce([1] + a, b, [1] + c, d);
    SplitsOnce([1], a, [1], c);
  }

  /** The smallest trees, byte by byte: a leaf is hashed behind a zero byte, two nodes behind
      a one, and a third leaf is its own neighbour. */
  lemma SmallTrees(h: Hash, x: Bytes, y: Bytes, z: Bytes)
    ensures var a, b, c := h([0] + x), h([0] + y), h([0] + z);
            && Root(h, [x]) == a && Root(h, [x, y]) == h([1] + a + b)
            && Root(h, [x, y, z]) == h([1] + h([1] + a + b) + h([1] + c + c))
  {
    assert Depth(1) == 0 && Depth(2) == 1 && Depth(3) == 2;
    assert NodeAt(h, [x, y, z], 1, 0) == h([1] + h([0] + x) + h([0] + y));
    assert NodeAt(h, [x, y, z], 1, 1) == h([1] + h([0] + z) + h([0] + z));
  }

  /**
   * Binding.  Equal roots mean equal depth and equal expansions, and equal lists
   * once the lengths agree, unless the two trees hash two different strings to
   * the same digest.
   */
  lemma Binding(h: Hash, xs: seq<Bytes>, ys: seq<Bytes>)
    requires xs != [] && ys != []
    requires !Collides(h, TreeInputs(h, xs), TreeInputs(h, ys))
    ensures Root(h, xs) == Root(h, ys) <==> Expansion(xs) == Expansion(ys)
    ensures Root(h, xs) == Root(h, ys) ==> Depth(|xs|) == Depth(|ys|)
    ensures Root(h, xs) == Root(h, ys) && |xs| == |ys| ==> xs == ys
  {
    LevelLenDepth(|xs|, Depth(|xs|));
    LevelLenDepth(|ys|, Depth(|ys|));
    LeavesPrefixExpansion(xs);
    LeavesPrefixExpansion(ys);
    if Root(h, xs) == Root(h, ys) {
      NodeBinding(h, xs, Depth(|xs|), 0, ys, Depth(|ys|), 0);
    } else if Expansion(xs) == Expansion(ys) {
      TreeIsPerfect(h, xs);
      TreeIsPerfect(h, ys);
      Pow2Injective(Depth(|xs|), Depth(|ys|));
    }
  }

  /** A list of odd length greater than one and the same list with its last leaf
      repeated have equal roots: the root alone does not fix the list's length. */
  lemma DuplicatedLastLeaf(h: Hash, leaves: seq<Bytes>)
    requires |leaves| > 1 && |leaves| % 2 == 1
    ensures var longer := leaves + [leaves[|leaves| - 1]];
            longer != leaves && Root(h, longer) == Root(h, leaves)
  {
    var n, longer := |leaves|, leaves + [leaves[|leaves| - 1]];
    assert (n + 1) / 2 == (n + 2) / 2;
    LevelLenDepth(n, Depth(n));
    LevelLenDepth(n + 1, Depth(n));
    SameAbove(h, leaves, longer, Depth(n), 0);
  }

  lemma {:induction false} SameAbove(h: Hash, xs: seq<Bytes>, ys: seq<Bytes>, k: nat, i: nat)
    requires |xs| % 2 == 1 && ys == xs + [xs[|xs| - 1]]
    requires k > 0 && i < LevelLen(|xs|, k)
    ensures LevelLen(|ys|, k) == LevelLen(|xs|, k)
    ensures NodeAt(h, ys, k, i) == NodeAt(h, xs, k, i)
  {
    var n := |xs|;
    if k == 1 {
      assert NodeAt(h, xs, 0, 2 * i) == NodeAt(h, ys, 0, 2 * i);
      assert NodeAt(h, xs, 0, Right(n, i)) == NodeAt(h, ys, 0, Right(n + 1, i));
    } else {
      SameAbove(h, xs, ys, k - 1, 2 * i);
      SameAbove(h, xs, ys, k - 1, Right(LevelLen(n, k - 1), i));
    }
  }

  // -------------------------------------------------- proofs: getting them

  /** The shape of every tree build_merkle_tree can return. */
  ghost predicate WellShaped(tree: Tree) {
    && |tree| >= 1
    && |tree[0]| >= 1
    && (|tree| == 1 <==> |tree[0]| == 1)
    && (|tree| > 1 ==> |tree[1]| == (|tree[0]| + 1) / 2 && WellShaped(tree[1..]))
  }

  /** The proof element on one level for node i: its sibling and the sibling's side. */
  function StepAt(level: seq<Digest64>, i: nat): Step
    requires i < |level|
  {
    if i % 2 == 1 then Step(level[i - 1], "left")
    else Step(level[Right(|level|, i / 2)], "right")
  }

  /** The proof for a node of the lowest level, level by level. */
  ghost function ProofFor(tree: Tree, index: nat): (proof: seq<Step>)
    requires WellShaped(tree) && index < |tree[0]|
    ensures |proof| == |tree| - 1
  {
    if |tree| == 1 then [] else [StepAt(tree[0], index)] + ProofFor(tree[1..], index / 2)
  }

  lemma ProofUnfolds(tree: Tree, k: nat, i: nat)
    requires k + 1 < |tree| && WellShaped(tree[k..]) && i < |tree[k]|
    ensures WellShaped(tree[k + 1..]) && i / 2 < |tree[k + 1]|
    ensures ProofFor(tree[k..], i) == [StepAt(tree[k], i)] + ProofFor(tree[k + 1..], i / 2)
    ensures |tree[k]| > 1 && |tree[k + 1]| == (|tree[k]| + 1) / 2
  {
    assert tree[k..][1..] == tree[k + 1..];
  }

  /** The loop body: pad an odd level with its last node, then look beside index i. */
  function SiblingOf(i: nat): nat {
    if i % 2 == 0 then i + 1 else i - 1
  }

  /** The step from position i of any level, padded to even length; there may be none. */
  function StepIn(level: seq<Digest64>, i: nat): (step: Option<Step>)
    ensures i < |level| ==> step == Some(StepAt(level, i))
  {
    var padded := if |level| % 2 == 1 then level + [level[|level| - 1]] else level;
    if SiblingOf(i) >= |padded| then None
    else Some(Step(padded[SiblingOf(i)], if i % 2 == 0 then "right" else "left"))
  }

  /** The proof for position i of any list of levels, if every level has the sibling. */
  function ProofIn(levels: Tree, i: nat): Option<seq<Step>> {
    if |levels| <= 1 then Some([])
    else
      match (StepIn(levels[0], i), ProofIn(levels[1..], i / 2))
      case (Some(step), Some(rest)) => Some([step] + rest)
      case _ => None
  }

  /** In a tree of the right shape there always is one. */
  lemma {:induction false} ShapedHasProof(tree: Tree, i: nat)
    requires WellShaped(tree) && i < |tree[0]|
    ensures ProofIn(tree, i) == Some(ProofFor(tree, i))
  {
    hide StepIn, StepAt;
    if |tree| > 1 {
      ShapedHasProof(tree[1..], i / 2);
    }
  }

  method SiblingStep(level: seq<Digest64>, i: nat) returns (step: Option<Step>)
    ensures step == StepIn(level, i)
  {
    var padded := level;
    if |padded| % 2 == 1 {
      padded := padded + [padded[|padded| - 1]];
    }
    var sibling, side := i - 1, "left";
    if i % 2 == 0 {
      sibling, side := i + 1, "right";
    }
    if sibling >= |padded| {
      return None;
    }
    step := Some(Step(padded[sibling], side));
  }

  lemma ProofEnds(tree: Tree, k: nat, i: nat)
    requires k + 1 == |tree| && WellShaped(tree[k..]) && i < |tree[k]|
    ensures ProofFor(tree[k..], i) == []
  {
  }

  /** Any list of levels: out of range is the index, or the sibling some level lacks. */
  method GetMerkleProof(tree: Tree, index: int) returns (r: Result<seq<Step>, Error>)
    ensures r.Success? <==> tree != [] && 0 <= index < |tree[0]| && ProofIn(tree, index).Some?
    ensures r.Failure? ==> r.error == IndexOutOfRange
    ensures r.Success? ==> r.value == ProofIn(tree, index).value
    ensures WellShaped(tree) ==> (r.Success? <==> 0 <= index < |tree[0]|)
    ensures WellShaped(tree) && r.Success? ==> r.value == ProofFor(tree, index)
  {
    if tree == [] {
      return Failure(IndexOutOfRange);
    }
    if index < 0 || index >= |tree[0]| {
      return Failure(IndexOutOfRange);
    }
    hide WellShaped, ProofFor, StepIn;
    if WellShaped(tree) {
      ShapedHasProof(tree, index);
    }
    assert tree[0..] == tree;
    var proof: seq<Step> := [];
    var idx: nat := index;
    assert ProofIn(tree, idx).Some? ==> proof + ProofIn(tree, idx).value == ProofIn(tree, idx).value;
    for k := 0 to |tree| - 1
      invariant ProofIn(tree, index) == Behind(proof, ProofIn(tree[k..], idx))
    {
      assert tree[k..][1..] == tree[k + 1..];
      var step := SiblingStep(tree[k], idx);
      if step.None? {
        return Failure(IndexOutOfRange);
      }
      BehindOne(proof, step.value, ProofIn(tree[k + 1..], idx / 2));
      proof := proof + [step.value];
      idx := idx / 2;
    }
    assert proof + [] == proof;
    r := Success(proof);
  }

  function Behind(first: seq<Step>, rest: Option<seq<Step>>): Option<seq<Step>> {
    match rest
    case None => None
    case Some(r) => Some(first + r)
  }

  lemma BehindOne(first: seq<Step>, step: Step, rest: Option<seq<Step>>)
    ensures Behind(first, Behind([step], rest)) == Behind(first + [step], rest)
  {
    if rest.Some? {
      ConcatAssociates(first, [step], rest.value);
    }
  }

  function StepInput(current: Bytes, step: Step): Bytes {
    if step.side == "right" then [1] + current + step.sibling
    else [1] + step.sibling + current
  }

  /** The digest a proof leads to from a leaf. */
  function Walk(h: Hash, leaf: Bytes, proof: seq<Step>): Digest64 {
    if proof == [] then HashLeaf(h, leaf)
    else h(StepInput(Walk(h, leaf, proof[..|proof| - 1]), proof[|proof| - 1]))
  }

  /** Everything verify_merkle_proof hashes. */
  ghost function WalkInputs(h: Hash, leaf: Bytes, proof: seq<Step>): set<Bytes> {
    if proof == [] then {[0] + leaf}
    else {StepInput(Walk(h, leaf, proof[..|proof| - 1]), proof[|proof| - 1])}
         + WalkInputs(h, leaf, proof[..|proof| - 1])
  }

  /** What the last hash of a walk is applied to. */
  ghost function LastInput(h: Hash, leaf: Bytes, proof: seq<Step>): (x: Bytes)
    ensures Walk(h, leaf, proof) == h(x) && x in WalkInputs(h, leaf, proof)
  {
    if proof == [] then [0] + leaf
    else StepInput(Walk(h, leaf, proof[..|proof| - 1]), proof[|proof| - 1])
  }

  method VerifyMerkleProof(h: Hash, leaf: Bytes, proof: seq<Step>, root: Bytes) returns (ok: bool)
    ensures ok <==> Walk(h, leaf, proof) == root
  {
    var current := HashLeaf(h, leaf);
    for i := 0 to |proof|
      invariant current == Walk(h, leaf, proof[..i])
    {
      var step := proof[i];
      assert proof[..i + 1][..i] == proof[..i];
      if step.side == "right" {
        current := HashNode(h, current, step.sibling);
      } else {
        current := HashNode(h, step.sibling, current);
      }
    }
    assert proof[..|proof|] == proof;
    ok := current == root;
  }

  /** The leaf position the sides of a proof spell, lowest level first. */
  function Position(proof: seq<Step>): (p: nat)
    ensures p < Pow2(|proof|)
  {
    if proof == [] then 0
    else Position(proof[..|proof| - 1])
         + if proof[|proof| - 1].side == "right" then 0 else Pow2(|proof| - 1)
  }

  lemma {:induction false} TreeShape(h: Hash, leaves: seq<Bytes>, tree: Tree, k: nat)
    requires leaves != [] && IsTree(h, leaves, tree) && k < |tree|
    ensures WellShaped(tree[k..]) && |tree[k]| == LevelLen(|leaves|, k)
    decreases |tree| - k
  {
    assert IsLevel(h, leaves, k, tree[k]);
    LevelLenDepth(|leaves|, k);
    if k + 1 < |tree| {
      TreeShape(h, leaves, tree, k + 1);
      assert tree[k..][1..] == tree[k + 1..];
    }
  }

  /** Walking on from node i of level k with the rest of its proof ends at the root. */
  lemma {:induction false} WalkOn(h: Hash, leaves: seq<Bytes>, tree: Tree, leaf: Bytes, walked: seq<Step>, k: nat, i: nat)
    requires leaves != [] && IsTree(h, leaves, tree)
    requires k < |tree| && WellShaped(tree[k..]) && i < |tree[k]| == LevelLen(|leaves|, k)
    requires Walk(h, leaf, walked) == NodeAt(h, leaves, k, i)
    ensures Walk(h, leaf, walked + ProofFor(tree[k..], i)) == Root(h, leaves)
    decreases |tree| - k
  {
    hide WellShaped, ProofFor, LevelLen, Walk, NodeAt, Depth;
    if k + 1 == |tree| {
      ProofEnds(tree, k, i);
      RootIsTop(h, leaves, tree, i);
      assert walked + [] == walked;
    } else {
      ProofUnfolds(tree, k, i);
      TreeShape(h, leaves, tree, k + 1);
      var step, rest := StepAt(tree[k], i), ProofFor(tree[k + 1..], i / 2);
      StepUp(h, leaves, tree, leaf, walked, k, i);
      WalkOn(h, leaves, tree, leaf, walked + [step], k + 1, i / 2);
      assert walked + ([step] + rest) == (walked + [step]) + rest;
    }
  }

  lemma RootIsTop(h: Hash, leaves: seq<Bytes>, tree: Tree, i: nat)
    requires leaves != [] && IsTree(h, leaves, tree) && i < LevelLen(|leaves|, |tree| - 1)
    ensures NodeAt(h, leaves, |tree| - 1, i) == Root(h, leaves)
  {
    LevelLenDepth(|leaves|, |tree| - 1);
  }

  /** The proof element taken at node i leads to the node above it. */
  lemma StepUp(h: Hash, leaves: seq<Bytes>, tree: Tree, leaf: Bytes, walked: seq<Step>, k: nat, i: nat)
    requires IsTree(h, leaves, tree) && k + 1 < |tree|
    requires i < |tree[k]| == LevelLen(|leaves|, k) && i / 2 < LevelLen(|leaves|, k + 1)
    requires Walk(h, leaf, walked) == NodeAt(h, leaves, k, i)
    ensures Walk(h, leaf, walked + [StepAt(tree[k], i)]) == NodeAt(h, leaves, k + 1, i / 2)
  {
    hide NodeAt, LevelLen;
    assert IsLevel(h, leaves, k, tree[k]);
    NodeOfPair(h, leaves, k + 1, i / 2);
    var step := StepAt(tree[k], i);
    assert (walked + [step])[..|walked|] == walked;
  }

  /**
   * Completeness.  For every nonempty list and every valid index the proof taken
   * from the built tree verifies, and its length is the least d with 2^d >= n.
   */
  lemma Completeness(h: Hash, leaves: seq<Bytes>, tree: Tree, index: nat, d: nat)
    requires IsTree(h, leaves, tree) && index < |leaves|
    ensures WellShaped(tree) && |tree[0]| == |leaves|
    ensures Walk(h, leaves[index], ProofFor(tree, index)) == Root(h, leaves)
    ensures Pow2(d) >= |leaves| <==> d >= |ProofFor(tree, index)|
  {
    TreeShape(h, leaves, tree, 0);
    assert tree[0..] == tree;
    WalkOn(h, leaves, tree, leaves[index], [], 0, index);
    assert [] + ProofFor(tree, index) == ProofFor(tree, index);
    DepthIsLeast(|leaves|, d);
  }

  lemma PreimageIsInput(h: Hash, leaves: seq<Bytes>, k: nat, i: nat)
    requires k <= Depth(|leaves|) && i < LevelLen(|leaves|, k)
    ensures Preimage(h, leaves, k, i) in TreeInputs(h, leaves)
  {
  }

  lemma NoCollision(h: Hash, xs: set<Bytes>, ys: set<Bytes>, x: Bytes, y: Bytes)
    requires !Collides(h, xs, ys) && x in xs && y in ys && h(x) == h(y)
    ensures x == y
  {
  }

  lemma FewerInputs(h: Hash, xs: set<Bytes>, ys: set<Bytes>, zs: set<Bytes>)
    requires !Collides(h, xs, ys) && zs <= ys
    ensures !Collides(h, xs, zs)
  {
  }

  /** The child of node i of level k on the far side of a sibling standing on `side`. */
  function Child(n: nat, k: nat, i: nat, side: string): nat
    requires k > 0 && i < LevelLen(n, k)
    ensures Child(n, k, i, side) < LevelLen(n, k - 1)
  {
    if side == "right" then 2 * i else Right(LevelLen(n, k - 1), i)
  }

  /** A step that hashes what the tree hashes at a node starts from a child of it. */
  lemma StepFromChild(h: Hash, leaves: seq<Bytes>, k: nat, i: nat, current: Digest64, step: Step)
    requires k > 0 && i < LevelLen(|leaves|, k)
    requires StepInput(current, step) == Preimage(h, leaves, k, i)
    ensures current == NodeAt(h, leaves, k - 1, Child(|leaves|, k, i, step.side))
  {
    var left := NodeAt(h, leaves, k - 1, 2 * i);
    var right := NodeAt(h, leaves, k - 1, Right(LevelLen(|leaves|, k - 1), i));
    if step.side == "right" {
      SplitNode(current, step.sibling, left, right);
    } else {
      SplitNode(step.sibling, current, left, right);
    }
  }

  lemma ExpandAtChild(leaves: seq<Bytes>, k: nat, i: nat, side: string, p: nat)
    requires k > 0 && i < LevelLen(|leaves|, k) && p < Pow2(k - 1)
    ensures Expand(leaves, k, i)[p + if side == "right" then 0 else Pow2(k - 1)]
         == Expand(leaves, k - 1, Child(|leaves|, k, i, side))[p]
  {
  }

  lemma {:induction false} WalkSoundness(h: Hash, leaves: seq<Bytes>, k: nat, i: nat, leaf: Bytes, proof: seq<Step>)
    requires k <= Depth(|leaves|) && i < LevelLen(|leaves|, k)
    requires Walk(h, leaf, proof) == NodeAt(h, leaves, k, i)
    requires !Collides(h, TreeInputs(h, leaves), WalkInputs(h, leaf, proof))
    ensures |proof| == k && Expand(leaves, k, i)[Position(proof)] == leaf
    decreases k
  {
    hide Collides, TreeInputs, WalkInputs, Walk, NodeAt, Position, Depth, Preimage, Expand, Child, LevelLen, LastInput;
    var p, q := Preimage(h, leaves, k, i), LastInput(h, leaf, proof);
    PreimageIsInput(h, leaves, k, i);
    PreimageTag(h, leaves, k, i);
    NoCollision(h, TreeInputs(h, leaves), WalkInputs(h, leaf, proof), p, q);
    LastInputForm(h, leaf, proof);
    if k == 0 {
      SameLeaf(h, leaves, i, leaf);
      assert Position(proof) == 0;
    } else {
      var init, last := proof[..|proof| - 1], proof[|proof| - 1];
      FewerInputs(h, TreeInputs(h, leaves), WalkInputs(h, leaf, proof), WalkInputs(h, leaf, init));
      StepFromChild(h, leaves, k, i, Walk(h, leaf, init), last);
      WalkSoundness(h, leaves, k - 1, Child(|leaves|, k, i, last.side), leaf, init);
      ExpandAtChild(leaves, k, i, last.side, Position(init));
    }
  }

  /** What a walk hashes last tells whether it has any step. */
  lemma LastInputForm(h: Hash, leaf: Bytes, proof: seq<Step>)
    ensures var q := LastInput(h, leaf, proof); q != [] && q[0] == if proof == [] then 0 else 1
    ensures proof == [] ==> LastInput(h, leaf, proof) == [0] + leaf && Position(proof) == 0
    ensures proof != [] ==>
      var init, last := proof[..|proof| - 1], proof[|proof| - 1];
      && LastInput(h, leaf, proof) == StepInput(Walk(h, leaf, init), last)
      && WalkInputs(h, leaf, init) <= WalkInputs(h, leaf, proof)
      && Position(proof) == Position(init) + if last.side == "right" then 0 else Pow2(|init|)
  {
    hide Walk;
  }

  lemma SameLeaf(h: Hash, leaves: seq<Bytes>, i: nat, leaf: Bytes)
    requires i < LevelLen(|leaves|, 0) && Preimage(h, leaves, 0, i) == [0] + leaf
    ensures leaf == leaves[i] && Expand(leaves, 0, i) == [leaf]
  {
    SplitsOnce([0], leaf, [0], leaves[i]);
  }

  /**
   * Soundness for arbitrary proofs.  Whatever siblings, sides and length a proof
   * has, if it is accepted against the root of `leaves` then it has the tree's
   * depth and the leaf stands at the position its sides spell, hence is one of
   * `leaves`, unless tree and proof hash two different strings to one digest.
   */
  lemma Soundness(h: Hash, leaves: seq<Bytes>, leaf: Bytes, proof: seq<Step>)
    requires leaves != []
    requires Walk(h, leaf, proof) == Root(h, leaves)
    requires !Collides(h, TreeInputs(h, leaves), WalkInputs(h, leaf, proof))
    ensures |proof| == Depth(|leaves|)
    ensures |Expansion(leaves)| == Pow2(|proof|) && Expansion(leaves)[Position(proof)] == leaf
    ensures leaf in leaves
    ensures Position(proof) < |leaves| ==> leaf == leaves[Position(proof)]
  {
    LevelLenDepth(|leaves|, Depth(|leaves|));
    WalkSoundness(h, leaves, Depth(|leaves|), 0, leaf, proof);
    ExpandFromLeaves(leaves, Depth(|leaves|), 0, Position(proof));
    LeavesPrefixExpansion(leaves);
  }
}
