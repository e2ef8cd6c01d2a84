/**
 * The binding theorems on the width-two hashes (archive/rust/poseidon2_t2_helpers.rs), on
 * the contract's four-word hashes (contracts/src/verifier/Poseidon2MerkleVerifierT8.sol)
 * and on its field elements: a pair hash reads the words at the end of a node, a leaf hash
 * the residues of a value's words.
 */
module WideBinding {
  import opened Bytes
  import opened Prelude
  import opened Mersenne31
  import opened M31
  import opened Qm31
  import opened Poseidon2Channel
  import opened Poseidon2Hash
  import opened FriTree
  import opened Fri
  import opened FriContract
  import opened FriHints
  import opened FriBinding

  function Residues(words: seq<Word>): seq<Felt> {
    seq(|words|, j requires 0 <= j < |words| => words[j] % M31_P)
  }

  function WideReading<F>(words: F -> seq<Word>): Reading<F, Pair, seq<Felt>> {
    Reading((node: Node) => Content(node), (v: F) => Residues(words(v)))
  }

  lemma {:induction false} AbsorbReadsResidues(s: Pair, words: seq<Word>, others: seq<Word>)
    requires Residues(words) == Residues(others)
    ensures AbsorbedAll(s, words) == AbsorbedAll(s, others)
    decreases |words|
  {
    hide Permute;
    assert |Residues(words)| == |Residues(others)|;
    if words != [] {
      var n := |words| - 1;
      assert Residues(words)[n] == Residues(others)[n];
      assert Residues(words[..n]) == Residues(words)[..n] == Residues(others)[..n] == Residues(others[..n]);
      AbsorbReadsResidues(s, words[..n], others[..n]);
    }
  }

  /** The width-two hashes read two words of a node and the residues of a value's words. */
  lemma WideReads<F(!new)>(leaf: seq<nat> -> seq<Word>, words: F -> seq<Word>, felt: (nat, nat, nat, nat) -> F)
    ensures HashesRead(WideBackend(leaf, words, felt), WideReading(words))
  {
    hide AbsorbedAll, WideNode, Compressed, Content, Residues;
    var be, rd := WideBackend(leaf, words, felt), WideReading(words);
    forall v: F, w: F | rd.value(v) == rd.value(w) ensures be.hashFelt(v) == be.hashFelt(w) {
      AbsorbReadsResidues(Pair(0, 0), words(v), words(w));
    }
  }

  /** A value's words are the committed ones modulo p, and every sibling's content is the
      committed one. */
  ghost predicate WideOpens<F>(be: Backend<F, Channel>, words: F -> seq<Word>, values: seq<F>, m: nat, v: F, i: nat, path: seq<Node>) {
    && |values| == Pow2(m) && i < |values| && |path| == m
    && Residues(words(v)) == Residues(words(values[i]))
    && forall k | 0 <= k < m :: Content(path[k]) == Content(PathFrom(be.hashPair, HashAll(be, values), m, 0, i)[k])
  }

  /** Authentication under the root of a committed layer.  Unless two different contents
      or two different lists of residues collide, a value and its path are accepted iff the
      value's words are the committed ones modulo p and every sibling's content is the
      committed one. */
  lemma WideOpeningBinds<F(!new)>(leaf: seq<nat> -> seq<Word>, words: F -> seq<Word>, felt: (nat, nat, nat, nat) -> F,
                                  values: seq<F>, m: nat, root: Node, v: F, i: nat, path: seq<Node>)
    requires LayerMatches(WideBackend(leaf, words, felt), values, m, root) && i < |values| && m <= 32
    requires Clean(WideBackend(leaf, words, felt), WideReading(words), values, m, v, i, path)
    ensures Authentic(WideBackend(leaf, words, felt), v, i, path, m, root)
       <==> WideOpens(WideBackend(leaf, words, felt), words, values, m, v, i, path)
  {
    hide Clean, Authentic, Residues, HashesRead, WideBackend, Content;
    WideReads(leaf, words, felt);
    OpeningBinds(WideBackend(leaf, words, felt), WideReading(words), values, m, root, v, i, path);
  }

  // ------------------------------------------------------------ field elements

  /** The arithmetic of the contract. */
  ghost predicate ContractField(ops: Ops<Element>) {
    forall x: Element, y: Element :: ops.add(x, y) == Sum(x, y) && ops.mul(x, y) == Product(x, y)
  }

  lemma FieldIsReducing(ops: Ops<Element>)
    requires ContractField(ops)
    ensures FieldReduces(ops, (v: Element) => IsReduced(v))
  {
    hide IsReduced, Sum, Product;
    forall x: Element, y: Element
      ensures IsReduced(ops.mul(x, y)) && (IsReduced(x) && IsReduced(y) ==> IsReduced(ops.add(x, y)))
    {
      assert ops.add(x, y) == Sum(x, y) && ops.mul(x, y) == Product(x, y);
      ProductReduced(x, y);
      if IsReduced(x) && IsReduced(y) {
        SumReduced(x, y);
      }
    }
  }

  lemma LimbsDetermine(v: Element, w: Element)
    requires Limbs(v) == Limbs(w)
    ensures v == w
  {
    assert Limbs(v)[0] == Limbs(w)[0] && Limbs(v)[1] == Limbs(w)[1] && Limbs(v)[2] == Limbs(w)[2] && Limbs(v)[3] == Limbs(w)[3];
  }

  /** Reduced elements are told apart by their residues. */
  lemma ReducedIsCanonical(v: Element, w: Element)
    requires IsReduced(v) && IsReduced(w) && Residues(Limbs(v)) == Residues(Limbs(w))
    ensures v == w
  {
    var vs, ws := Limbs(v), Limbs(w);
    assert vs == ws by {
      forall j | 0 <= j < 4 ensures vs[j] == ws[j] {
        assert Residues(vs)[j] == Residues(ws)[j];
      }
    }
    LimbsDetermine(v, w);
  }

  /** What is read of a node is left open; of a value, the residues of its words. */
  function ResidueReading<N>(view: Node -> N): Reading<Element, N, seq<Felt>> {
    Reading(view, (v: Element) => Residues(Limbs(v)))
  }

  /** The width-two hashes read that of field elements. */
  lemma WideReadsResidues(leaf: seq<nat> -> seq<Word>, felt: (nat, nat, nat, nat) -> Element)
    ensures HashesRead(WideBackend(leaf, (v: Element) => Limbs(v), felt), ResidueReading((node: Node) => Content(node)))
  {
    hide AbsorbedAll, WideNode, Compressed, Content, Residues, Limbs;
    var be := WideBackend(leaf, (v: Element) => Limbs(v), felt);
    forall v: Element, w: Element | Residues(Limbs(v)) == Residues(Limbs(w)) ensures be.hashFelt(v) == be.hashFelt(w) {
      AbsorbReadsResidues(Pair(0, 0), Limbs(v), Limbs(w));
      assert be.hashFelt(v) == SpongeLeaf(Limbs(v)) && be.hashFelt(w) == SpongeLeaf(Limbs(w));
    }
  }

  /** _unpack4. */
  function FourWords(node: Node): seq<Word> {
    [WordOf(node, 4), WordOf(node, 5), WordOf(node, 6), WordOf(node, 7)]
  }

  /** So do the contract's, whatever the permutation: the compression is fed the unpacked
      words, the sponge the reduced limbs. */
  lemma ContractReadsResidues<C>(be: Backend<Element, C>, compress: (seq<Word>, seq<Word>) -> Node, sponge: seq<Felt> -> Node)
    requires forall l: Node, r: Node :: be.hashPair(l, r) == compress(FourWords(l), FourWords(r))
    requires forall v: Element :: be.hashFelt(v) == sponge(Residues(Limbs(v)))
    ensures HashesRead(be, ResidueReading((node: Node) => FourWords(node)))
  {
    hide FourWords, Residues, Limbs;
    var rd := ResidueReading((node: Node) => FourWords(node));
    forall a: Node, b: Node, c: Node, e: Node | rd.node(a) == rd.node(c) && rd.node(b) == rd.node(e)
      ensures be.hashPair(a, b) == be.hashPair(c, e)
    {
      assert be.hashPair(a, b) == compress(FourWords(a), FourWords(b));
    }
    forall v: Element, w: Element | rd.value(v) == rd.value(w) ensures be.hashFelt(v) == be.hashFelt(w) {
      assert be.hashFelt(v) == sponge(Residues(Limbs(v)));
    }
  }

  /** The final value of an accepted query is the last layer's evaluation modulo p, word
      by word, unless nodes or residues collide; beside reduced siblings, it is the
      evaluation as supplied iff the words supplied are reduced. */
  lemma FinalValueModP<C, N>(be: Backend<Element, C>, view: Node -> N, ops: Ops<Element>, d: nat,
                             traceRoot: Node, batchRoot: Node, hints: Hints<Element>, i: nat)
    requires ContractField(ops)
    requires Proves(be, ops, d, traceRoot, batchRoot, hints) && i < |hints.queries|
    requires CleanEnd(be, ResidueReading(view), d, hints, hints.queries[i])
    ensures var q := hints.queries[i];
            var supplied := hints.lastLayer[LastIndex(d, q)];
            && (forall j | 0 <= j < 4 :: Limbs(FinalValue(q))[j] % M31_P == Limbs(supplied)[j] % M31_P)
            && (IsReduced(FinalValue(q)) || IsReduced(supplied) ==>
                 (FinalValue(q) == supplied <==> IsReduced(FinalValue(q)) && IsReduced(supplied)))
            && ((forall k | 0 <= k < |q.folds| :: IsReduced(q.folds[k].siblingValue)) ==>
                 (FinalValue(q) == supplied <==> IsReduced(supplied)))
  {
    hide Proves, Clean, IsReduced, Residues, FieldReduces;
    var reduced := (v: Element) => IsReduced(v);
    var q, rd := hints.queries[i], ResidueReading(view);
    FieldIsReducing(ops);
    forall v: Element, w: Element | reduced(v) && reduced(w) && rd.value(v) == rd.value(w) ensures v == w {
      ReducedIsCanonical(v, w);
    }
    FinalValueIsFixed(be, rd, ops, reduced, d, traceRoot, batchRoot, hints, i);
    SameResidues(FinalValue(q), hints.lastLayer[LastIndex(d, q)]);
  }

  lemma SameResidues(v: Element, w: Element)
    ensures Residues(Limbs(v)) == Residues(Limbs(w)) <==> forall j | 0 <= j < 4 :: Limbs(v)[j] % M31_P == Limbs(w)[j] % M31_P
  {
    var vs, ws := Residues(Limbs(v)), Residues(Limbs(w));
    assert forall j | 0 <= j < 4 :: vs[j] == Limbs(v)[j] % M31_P && ws[j] == Limbs(w)[j] % M31_P;
  }

  // ------------------------------------------------------------ a raised word

  /** One word raised by the modulus; below 2^32, since 2p is. */
  function Raised(v: Element, j: nat): (w: Element)
    requires j < 4 && IsReduced(v)
    ensures Limbs(w) == Limbs(v)[j := Limbs(v)[j] + M31_P]
  {
    FromLimbs(Limbs(v)[j := Limbs(v)[j] + M31_P])
  }

  lemma RaisedReadsAlike(v: Element, j: nat)
    requires j < 4 && IsReduced(v)
    ensures Residues(Limbs(Raised(v, j))) == Residues(Limbs(v)) && Raised(v, j) != v && !IsReduced(Raised(v, j))
  {
    var w := Raised(v, j);
    assert Limbs(w)[j] == Limbs(v)[j] + M31_P;
    assert Limbs(w)[j] % M31_P == Limbs(v)[j] % M31_P;
    SameResidues(v, w);
  }

  function RaisedAt(hints: Hints<Element>, at: nat, j: nat): Hints<Element>
    requires at < |hints.lastLayer| && j < 4 && IsReduced(hints.lastLayer[at])
  {
    hints.(lastLayer := hints.lastLayer[at := Raised(hints.lastLayer[at], j)])
  }

  /** Where the last layer is not fixed.  In accepted hints, a word of the evaluation where
      a query ends can be raised by the modulus: the contract accepts the result as well,
      and the final value is not the evaluation supplied. */
  lemma RaisedLastLayer<C, N>(be: Backend<Element, C>, view: Node -> N, ops: Ops<Element>, blake: Bytes -> Digest32,
                              proof: Bytes, commitment: Bytes, merkleRoot: Node, d: nat, hints: Hints<Element>,
                              q: QueryHint<Element>, j: nat)
    requires HashesRead(be, ResidueReading(view))
    requires Accepts(be, ops, blake, proof, commitment, merkleRoot, hints)
    requires q in hints.queries && j < 4 && EndsInLastLayer(d, hints, q)
    requires IsReduced(hints.lastLayer[LastIndex(d, q)])
    ensures Accepts(be, ops, blake, proof, commitment, merkleRoot, RaisedAt(hints, LastIndex(d, q), j))
    ensures !EndsInLastLayer(d, RaisedAt(hints, LastIndex(d, q), j), q)
  {
    hide Accepts, IsReduced, Residues, HashesRead, Limbs, Pow2;
    var at := LastIndex(d, q);
    RaisedReadsAlike(hints.lastLayer[at], j);
    LastLayerUpToReading(be, ResidueReading(view), ops, blake, proof, commitment, merkleRoot, hints, RaisedAt(hints, at, j).lastLayer);
  }
}
