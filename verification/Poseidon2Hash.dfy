/**
 * The wide t=2 hashes of archive/rust/poseidon2_t2_helpers.rs and the FRI hash backend
 * they form together with the channel.
 */
module Poseidon2Hash {
  import opened Bytes
  import opened Prelude
  import opened Mersenne31
  import opened M31
  import opened Poseidon2Channel
  import FriTree
  import Fri

  // ------------------------------------------------------------ wide nodes

  function WordBytes(w: Word): (b: Bytes)
    ensures |b| == 4 && WordOfBytes(b[0], b[1], b[2], b[3]) == w
  {
    var high, low := w / 0x1_0000, w % 0x1_0000;
    [(high / 256) as Byte, (high % 256) as Byte, (low / 256) as Byte, (low % 256) as Byte]
  }

  function Padding(): (p: Bytes)
    ensures |p| == 24 && forall i | 0 <= i < 24 :: p[i] == 0
  {
    seq(24, _ => 0)
  }

  /** A value cast to u32. */
  function ToWord(x: nat): Word {
    x % 0x1_0000_0000
  }

  lemma LastWords(p: Bytes, v: Word, w: Word)
    requires |p| == 24
    ensures var node := p + WordBytes(v) + WordBytes(w);
            Content(node) == Pair(v, w) && node[..24] == p
  {
    hide WordBytes, WordOfBytes;
    var vs, ws := WordBytes(v), WordBytes(w);
    var node := p + vs + ws;
    assert node[24] == vs[0] && node[25] == vs[1] && node[26] == vs[2] && node[27] == vs[3];
    assert node[28] == ws[0] && node[29] == ws[1] && node[30] == ws[2] && node[31] == ws[3];
  }

  /** Two words in the last eight bytes. */
  function Packed(v: Word, w: Word): (node: Digest32)
    ensures Content(node) == Pair(v, w) && node[..24] == Padding()
  {
    hide WordBytes, Content;
    LastWords(Padding(), v, w);
    Padding() + WordBytes(v) + WordBytes(w)
  }

  lemma ReducedIsWord(x: nat)
    requires x < M31_P
    ensures ToWord(x) == x
  {
  }

  /** A node holding the two words of a sponge state in its last eight bytes. */
  function WideNode(s: Pair): (node: Digest32)
    ensures Content(node) == Pair(ToWord(s.s0), ToWord(s.s1)) && node[..24] == Padding()
    ensures Reduced(s) ==> Content(node) == s
  {
    hide Packed, Content, ToWord;
    if Reduced(s) then
      ReducedIsWord(s.s0);
      ReducedIsWord(s.s1);
      Packed(ToWord(s.s0), ToWord(s.s1))
    else Packed(ToWord(s.s0), ToWord(s.s1))
  }

  /** As a 256-bit number the node is s0 * 2^32 + s1. */
  lemma WideNodeValue(s: Pair)
    requires Reduced(s)
    ensures Value(WideNode(s)) == s.s0 * 0x1_0000_0000 + s.s1
  {
    hide Padding, WordBytes, WordOfBytes, Value, Pow256;
    ReducedIsWord(s.s0);
    ReducedIsWord(s.s1);
    var v, w := WordBytes(s.s0), WordBytes(s.s1);
    ValueOfZeros(Padding());
    WordSpells(s.s0);
    WordSpells(s.s1);
    Pow256OfFour();
    ValueOfConcat(Padding() + v, w);
    ValueOfConcat(Padding(), v);
  }

  lemma WordSpells(w: Word)
    ensures Value(WordBytes(w)) == w
  {
    hide WordBytes, Value;
    ValueOfFour(WordBytes(w));
  }

  lemma Pow256OfFour()
    ensures Pow256(4) == 0x1_0000_0000
  {
  }

  /** The two content words of a node. */
  function Content(node: Digest32): Pair {
    Pair(WordOf(node, 6), WordOf(node, 7))
  }

  // ------------------------------------------------------------ hashing

  function SpongeLeaf(words: seq<Word>): Digest32 {
    WideNode(AbsorbedAll(Pair(0, 0), words))
  }

  /** The words of a leaf are those of the sponge, and field elements. */
  lemma SpongeLeafReduced(words: seq<Word>)
    ensures Content(SpongeLeaf(words)) == AbsorbedAll(Pair(0, 0), words) && Reduced(Content(SpongeLeaf(words)))
  {
    AbsorbedAllReduced(Pair(0, 0), words);
  }

  method HashLeafColsW(values: seq<Word>) returns (node: Digest32)
    ensures node == SpongeLeaf(values)
  {
    var s := new nat[2];
    s[0], s[1] := 0, 0;
    for i := 0 to |values|
      invariant Pair(s[0], s[1]) == AbsorbedAll(Pair(0, 0), values[..i])
    {
      hide Absorbed;
      assert values[..i + 1][..i] == values[..i];
      P2Absorb(s, values[i]);
    }
    assert values[..|values|] == values;
    node := WideNode(Pair(s[0], s[1]));
  }

  /** Duplex compression: the left node is the state, the right is absorbed word by word. */
  function Compressed(l: Pair, r: Pair): Pair {
    var s := Permute(Pair(Add(l.s0, r.s0), l.s1));
    Permute(Pair(Add(s.s0, r.s1), s.s1))
  }

  /** The compression of two nodes is the sponge that starts from the left one and absorbs
      the two words of the right one. */
  lemma CompressedAbsorbs(l: Pair, r: Pair)
    requires Reduced(r)
    ensures Compressed(l, r) == AbsorbedAll(l, [r.s0, r.s1])
  {
    hide Permute, Add;
    var words: seq<Word> := [r.s0, r.s1];
    assert words[..1] == [r.s0] && words[..1][..0] == [];
    assert AbsorbedAll(l, words[..1]) == Absorbed(l, r.s0);
    assert r.s0 % M31_P == r.s0 && r.s1 % M31_P == r.s1;
  }

  /** A leaf holds the state of a new channel after its words. */
  lemma LeafIsChannel(words: seq<Word>)
    ensures Content(SpongeLeaf(words)) == Mixed(START, words).s && START.s == Pair(0, 0)
  {
    hide AbsorbedAll;
    SpongeLeafReduced(words);
  }

  lemma CompressedReduced(l: Pair, r: Pair)
    requires Reduced(l) && Reduced(r)
    ensures Reduced(Compressed(l, r))
  {
    hide Permute;
    var t := Pair(Add(l.s0, r.s0), l.s1);
    PermuteIsPermutation(t, t);
    var s := Permute(t);
    var u := Pair(Add(s.s0, r.s1), s.s1);
    PermuteIsPermutation(u, u);
  }

  method CompressInPlace(s: array<nat>, r: Pair)
    requires s.Length == 2
    modifies s
    ensures Pair(s[0], s[1]) == Compressed(Pair(old(s[0]), old(s[1])), r)
  {
    hide Permute, Add;
    s[0] := Add(s[0], r.s0);
    PermuteInPlace(s);
    s[0] := Add(s[0], r.s1);
    PermuteInPlace(s);
  }

  /** The parent of two nodes. */
  function PairOf(left: Digest32, right: Digest32): Digest32 {
    WideNode(Compressed(Content(left), Content(right)))
  }

  /** hash_pair_p2w. */
  method HashPairW(left: Digest32, right: Digest32) returns (node: Digest32)
    ensures node == PairOf(left, right)
  {
    hide Content, Compressed, WideNode;
    var l, r := Content(left), Content(right);
    var s := new nat[2];
    s[0], s[1] := l.s0, l.s1;
    CompressInPlace(s, r);
    node := WideNode(Pair(s[0], s[1]));
  }

  /** Nodes of field elements have parents of field elements, holding the compression. */
  lemma ParentReduced(left: Digest32, right: Digest32)
    requires Reduced(Content(left)) && Reduced(Content(right))
    ensures Content(PairOf(left, right)) == Compressed(Content(left), Content(right))
    ensures Reduced(Content(PairOf(left, right)))
  {
    hide Content, Compressed;
    CompressedReduced(Content(left), Content(right));
  }

  lemma PermuteDistinguishes(s: Pair, t: Pair)
    requires Reduced(s) && Reduced(t)
    ensures Reduced(Permute(s)) && Reduced(Permute(t)) && (Permute(s) == Permute(t) <==> s == t)
  {
    hide Permute;
    PermuteIsPermutation(s, t);
    PermuteIsPermutation(t, s);
  }

  /** Beside one sibling, on the left, a parent fixes the node. */
  lemma CompressBindsLeft(a: Pair, b: Pair, r: Pair)
    requires Reduced(a) && Reduced(b) && Reduced(r)
    ensures Compressed(a, r) == Compressed(b, r) <==> a == b
  {
    hide Permute;
    var s, t := Pair(Add(a.s0, r.s0), a.s1), Pair(Add(b.s0, r.s0), b.s1);
    PermuteDistinguishes(s, t);
    AddCancels(a.s0, b.s0, r.s0);
    AddCancels(Permute(s).s0, Permute(t).s0, r.s1);
    PermuteDistinguishes(Pair(Add(Permute(s).s0, r.s1), Permute(s).s1), Pair(Add(Permute(t).s0, r.s1), Permute(t).s1));
  }

  /** Beside one sibling, on the right, a parent distinguishes nodes that differ in one of
      their two words. */
  lemma CompressBindsRight(l: Pair, a: Pair, b: Pair)
    requires Reduced(l) && Reduced(a) && Reduced(b) && (a.s0 == b.s0 || a.s1 == b.s1)
    ensures Compressed(l, a) == Compressed(l, b) <==> a == b
  {
    hide Permute;
    var s, t := Pair(Add(l.s0, a.s0), l.s1), Pair(Add(l.s0, b.s0), l.s1);
    PermuteDistinguishes(s, t);
    AddCancels(a.s0, b.s0, l.s0);
    AddCancels(Permute(s).s0, Permute(t).s0, a.s1);
    AddCancels(a.s1, b.s1, Permute(s).s0);
    PermuteDistinguishes(Pair(Add(Permute(s).s0, a.s1), Permute(s).s1), Pair(Add(Permute(t).s0, b.s1), Permute(t).s1));
  }

  function DrawnFelt<F>(felt: (nat, nat, nat, nat) -> F, c: Channel): (Channel, F) {
    (DrawnTimes(c, 2), felt(DrawnWord(c, 0), DrawnWord(c, 1), DrawnWord(c, 2), DrawnWord(c, 3)))
  }

  /** A backend over the t=2 hashes; how a field element is packed is left open. */
  function WideBackend<F(==)>(leaf: seq<nat> -> seq<Word>, words: F -> seq<Word>, felt: (nat, nat, nat, nat) -> F): Fri.Backend<F, Channel> {
    Fri.Backend(
      3,
      (cols: seq<nat>) => SpongeLeaf(leaf(cols)),
      (v: F) => SpongeLeaf(words(v)),
      (l: FriTree.Node, r: FriTree.Node) => PairOf(l, r),
      START,
      (c: Channel, root: FriTree.Node) => Mixed(c, FullWords(root)),
      (c: Channel, root: FriTree.Node) => Mixed(c, WideWords(root)),
      (c: Channel, ws: seq<nat>) => Mixed(c, leaf(ws)),
      (c: Channel) => DrawnFelt(felt, c),
      (c: Channel, log: nat, n: nat) => Indices(c, log, n))
  }

  /** What the backend absorbs: of a full root the eight big-endian numbers of four bytes, of
      a node the last two, of other words their packing.  A challenge is made of the state's
      words before two draws. */
  lemma WideBackendMixes<F>(leaf: seq<nat> -> seq<Word>, words: F -> seq<Word>, felt: (nat, nat, nat, nat) -> F,
                            c: Channel, root: Digest32, ws: seq<Word>)
    requires |ws| == 8 && forall i | 0 <= i < 8 :: ws[i] == Value(root[4 * i..4 * i + 4])
    ensures var be := WideBackend(leaf, words, felt);
            && be.version == 3 && be.init == Channel(Pair(0, 0), 0)
            && be.mixFull(c, root) == Channel(AbsorbedAll(c.s, ws), 0)
            && be.mixWide(c, root) == Channel(AbsorbedAll(c.s, ws[6..]), 0)
            && (forall cols :: be.mixWords(c, cols) == Channel(AbsorbedAll(c.s, leaf(cols)), 0))
            && be.drawFelt(c) == (Drawn(Drawn(c)), felt(c.s.s0, c.s.s1, Drawn(c).s.s0, Drawn(c).s.s1))
  {
    DrawStep(c, 0);
    DrawStep(c, 1);
    hide AbsorbedAll, WordOf, Value;
    forall i | 0 <= i < 8 ensures ws[i] == WordOf(root, i) {
      WordIsBigEndian(root, i);
    }
    assert ws == FullWords(root) && ws[6..] == WideWords(root);
  }

  /** The channel keeps the promise the generator relies on. */
  lemma WideBackendInRange<F>(leaf: seq<nat> -> seq<Word>, words: F -> seq<Word>, felt: (nat, nat, nat, nat) -> F)
    ensures Fri.DrawsInRange(WideBackend(leaf, words, felt))
  {
    hide Mask, DrawnWord, Pow2;
    var be := WideBackend(leaf, words, felt);
    forall c: Channel, log: nat, n: nat
      ensures |be.drawQueries(c, log, n)| == n && forall i | 0 <= i < n :: be.drawQueries(c, log, n)[i] < Pow2(log)
    {
      assert be.drawQueries(c, log, n) == Indices(c, log, n);
    }
  }
}
