/**
 * archive/rust/poseidon2_t2_helpers.rs: the Fiat-Shamir channel over the Poseidon2
 * permutation of width two.  Words are u32 values, i.e. numbers below 2^32.
 */
module Poseidon2Channel {
  import opened Bytes
  import opened Prelude
  import opened Mersenne31
  import opened M31

  type Word = w: nat | w < 0x1_0000_0000

  // ------------------------------------------------------------ absorbing

  /** Two conditional subtractions. */
  function Reduce(word: Word): nat {
    var w := if word >= M31_P then word - M31_P else word;
    if w >= M31_P then w - M31_P else w
  }

  /** Two subtractions compute the residue of every u32. */
  lemma ReduceIsResidue(word: Word)
    ensures Reduce(word) == word % M31_P
  {
  }

  function Absorbed(s: Pair, word: Word): Pair {
    Permute(Pair(Add(s.s0, word % M31_P), s.s1))
  }

  function AbsorbedAll(s: Pair, words: seq<Word>): Pair {
    if words == [] then s else Absorbed(AbsorbedAll(s, words[..|words| - 1]), words[|words| - 1])
  }

  method P2Absorb(s: array<nat>, word: Word)
    requires s.Length == 2
    modifies s
    ensures Pair(s[0], s[1]) == Absorbed(Pair(old(s[0]), old(s[1])), word)
  {
    var w: nat := word;
    if w >= M31_P {
      w := w - M31_P;
    }
    if w >= M31_P {
      w := w - M31_P;
    }
    ReduceIsResidue(word);
    s[0] := Add(s[0], w);
    PermuteInPlace(s);
  }

  /** From one state, two words lead to one state iff they are equal in the field. */
  lemma AbsorbBindsResidue(s: Pair, v: Word, w: Word)
    requires Reduced(s)
    ensures Absorbed(s, v) == Absorbed(s, w) <==> v % M31_P == w % M31_P
  {
    hide Permute;
    PermuteIsPermutation(Pair(Add(s.s0, v % M31_P), s.s1), Pair(Add(s.s0, w % M31_P), s.s1));
  }

  lemma AbsorbedReduced(s: Pair, word: Word)
    requires Reduced(s)
    ensures Reduced(Absorbed(s, word))
  {
    hide Permute;
    var t := Pair(Add(s.s0, word % M31_P), s.s1);
    PermuteIsPermutation(t, t);
  }

  lemma {:induction false} AbsorbedAllReduced(s: Pair, words: seq<Word>)
    requires Reduced(s)
    ensures Reduced(AbsorbedAll(s, words))
  {
    hide Absorbed;
    if words != [] {
      AbsorbedAllReduced(s, words[..|words| - 1]);
      AbsorbedReduced(AbsorbedAll(s, words[..|words| - 1]), words[|words| - 1]);
    }
  }

  /** Absorbing a concatenation is absorbing its parts in turn. */
  lemma {:induction false} AbsorbConcat(s: Pair, a: seq<Word>, b: seq<Word>)
    ensures AbsorbedAll(s, a + b) == AbsorbedAll(AbsorbedAll(s, a), b)
  {
    hide Absorbed;
    if b == [] {
      assert a + [] == a;
    } else {
      assert (a + b)[..|a + b| - 1] == a + b[..|b| - 1];
      AbsorbConcat(s, a, b[..|b| - 1]);
    }
  }

  /** What is permuted: the word's residue is added to the first state word modulo p, the
      second stays. */
  lemma AbsorbedInput(s: Pair, word: Word)
    requires Reduced(s)
    ensures Absorbed(s, word) == Permute(Pair((s.s0 + word) % M31_P, s.s1))
  {
    hide Permute;
    AddIsSum(s.s0, word % M31_P);
  }

  // ------------------------------------------------------------ drawing

  datatype Channel = Channel(s: Pair, draws: nat)

  const START: Channel := Channel(Pair(0, 0), 0)

  function Mixed(ch: Channel, words: seq<Word>): Channel {
    Channel(AbsorbedAll(ch.s, words), 0)
  }

  function Drawn(ch: Channel): Channel {
    Channel(Permute(Pair(Add(ch.s.s0, ch.draws), ch.s.s1)), ch.draws + 1)
  }

  /** A draw permutes the state with the number of draws since the last mix added to its
      first word modulo p. */
  lemma DrawnInput(ch: Channel)
    requires Reduced(ch.s) && ch.draws < M31_P
    ensures Drawn(ch).s == Permute(Pair((ch.s.s0 + ch.draws) % M31_P, ch.s.s1)) && Drawn(ch).draws == ch.draws + 1
  {
    hide Permute;
    AddIsSum(ch.s.s0, ch.draws);
  }

  /** The channel after n draws. */
  function DrawnTimes(ch: Channel, n: nat): Channel {
    if n == 0 then ch else Drawn(DrawnTimes(ch, n - 1))
  }

  /** The i-th word a series of draws yields, two words to a draw. */
  function DrawnWord(ch: Channel, i: nat): nat {
    var s := DrawnTimes(ch, i / 2).s;
    if i % 2 == 0 then s.s0 else s.s1
  }

  /** Masking with 2^log - 1, truncated to 32 bits. */
  function Mask(word: nat, log: nat): nat {
    word % Pow2(Min(log, 32))
  }

  ghost predicate StateReduced(ch: Channel) {
    Reduced(ch.s)
  }

  /** Draw counters below p keep the state in the field. */
  lemma DrawnReduced(ch: Channel)
    requires StateReduced(ch) && ch.draws <= M31_P
    ensures StateReduced(Drawn(ch))
  {
    hide Permute;
    var t := Pair(Add(ch.s.s0, ch.draws), ch.s.s1);
    PermuteIsPermutation(t, t);
  }

  /** The eight big-endian words of a 32-byte root. */
  function WordOf(root: Digest32, i: nat): Word
    requires i < 8
  {
    WordOfBytes(root[4 * i], root[4 * i + 1], root[4 * i + 2], root[4 * i + 3])
  }

  function WordOfBytes(a: Byte, b: Byte, c: Byte, d: Byte): Word {
    (a as nat) * 0x100_0000 + (b as nat) * 0x1_0000 + (c as nat) * 0x100 + d as nat
  }

  /** Word i is the number that bytes 4i to 4i + 3 spell, the first one highest. */
  lemma WordIsBigEndian(root: Digest32, i: nat)
    requires i < 8
    ensures WordOf(root, i) == Value(root[4 * i..4 * i + 4])
  {
    ValueOfFour(root[4 * i..4 * i + 4]);
  }

  /** All 256 bits of a foreign root. */
  function FullWords(root: Digest32): (ws: seq<Word>)
    ensures |ws| == 8
  {
    seq(8, i requires 0 <= i < 8 => WordOf(root, i))
  }

  /** The two content words of a wide node. */
  function WideWords(root: Digest32): seq<Word> {
    [WordOf(root, 6), WordOf(root, 7)]
  }

  function NarrowWords(root: Digest32): seq<Word> {
    [WordOf(root, 7)]
  }

  lemma DrawStep(ch: Channel, d: nat)
    ensures DrawnTimes(ch, d + 1) == Drawn(DrawnTimes(ch, d))
    ensures DrawnWord(ch, 2 * d) == DrawnTimes(ch, d).s.s0
    ensures DrawnWord(ch, 2 * d + 1) == DrawnTimes(ch, d).s.s1
  {
    hide Drawn;
  }

  lemma MaskBelow(word: nat, log: nat)
    ensures Mask(word, log) < Pow2(log)
  {
    Pow2Monotone(Min(log, 32), log);
  }

  /** The low bits of a word: what is left when a multiple of 2^log is taken away. */
  lemma MaskIsLowBits(word: nat, log: nat)
    requires log <= 32
    ensures Mask(word, log) < Pow2(log) && exists k: nat :: word == Pow2(log) * k + Mask(word, log)
  {
    var k, low := Divided(word, Pow2(log));
  }

  lemma Divided(word: nat, n: nat) returns (k: nat, low: nat)
    requires n > 0
    ensures word == n * k + low && low == word % n
  {
    k, low := word / n, word % n;
  }

  /** The first n query indices a channel yields. */
  function Indices(ch: Channel, log: nat, n: nat): (q: seq<nat>)
    ensures |q| == n
    ensures forall i | 0 <= i < n :: q[i] == Mask(DrawnWord(ch, i), log) && q[i] < Pow2(log)
  {
    forall i ensures Mask(DrawnWord(ch, i), log) < Pow2(log) { MaskBelow(DrawnWord(ch, i), log); }
    seq(n, i requires 0 <= i < n => Mask(DrawnWord(ch, i), log))
  }

  lemma IndicesGrow(ch: Channel, log: nat, n: nat)
    ensures Indices(ch, log, n + 1) == Indices(ch, log, n) + [Mask(DrawnWord(ch, n), log)]
  {
  }

  lemma NoIndices(ch: Channel, log: nat)
    ensures Indices(ch, log, 0) == [] && DrawnTimes(ch, 0) == ch
  {
  }

  class P2Channel {
    var s0: nat
    var s1: nat
    var nDraws: nat

    function State(): Channel
      reads this
    {
      Channel(Pair(s0, s1), nDraws)
    }

    constructor ()
      ensures State() == START
    {
      s0, s1, nDraws := 0, 0, 0;
    }

    method Absorb(word: Word)
      modifies this
      ensures State() == Channel(Absorbed(old(State()).s, word), old(nDraws))
    {
      var s := new nat[2];
      s[0], s[1] := s0, s1;
      P2Absorb(s, word);
      s0, s1 := s[0], s[1];
    }

    method MixU32s(words: seq<Word>)
      modifies this
      ensures State() == Mixed(old(State()), words)
    {
      for i := 0 to |words|
        invariant State().s == AbsorbedAll(old(State()).s, words[..i])
      {
        assert words[..i + 1][..i] == words[..i];
        Absorb(words[i]);
      }
      assert words[..|words|] == words;
      nDraws := 0;
    }

    method MixRoot(root: Digest32)
      modifies this
      ensures State() == Mixed(old(State()), NarrowWords(root))
    {
      MixU32s(NarrowWords(root));
    }

    method MixRootW(root: Digest32)
      modifies this
      ensures State() == Mixed(old(State()), WideWords(root))
    {
      MixU32s(WideWords(root));
    }

    method MixRootFull(root: Digest32)
      modifies this
      ensures State() == Mixed(old(State()), FullWords(root))
    {
      MixU32s(FullWords(root));
    }

    method DrawPair() returns (w0: nat, w1: nat)
      modifies this
      ensures (w0, w1) == (old(s0), old(s1))
      ensures State() == Drawn(old(State()))
    {
      w0, w1 := s0, s1;
      var s := new nat[2];
      s[0], s[1] := s0, s1;
      s[0] := Add(s[0], nDraws);
      PermuteInPlace(s);
      s0, s1 := s[0], s[1];
      nDraws := nDraws + 1;
    }

    /** The four words of a QM31 challenge. */
    method DrawSecureFelt() returns (felt: (nat, nat, nat, nat))
      modifies this
      ensures felt == (DrawnWord(old(State()), 0), DrawnWord(old(State()), 1),
                       DrawnWord(old(State()), 2), DrawnWord(old(State()), 3))
      ensures State() == DrawnTimes(old(State()), 2)
    {
      ghost var ch := State();
      var w0, w1 := DrawPair();
      assert DrawnTimes(ch, 1) == Drawn(DrawnTimes(ch, 0));
      var w2, w3 := DrawPair();
      felt := (w0, w1, w2, w3);
    }

    /** Exactly n indices, the i-th a masked word of draw i / 2. */
    method DrawQueries(log: nat, n: nat) returns (queries: seq<nat>)
      requires log < 64
      modifies this
      ensures queries == Indices(old(State()), log, n)
      ensures State() == DrawnTimes(old(State()), (n + 1) / 2)
    {
      hide Drawn, DrawnTimes, DrawnWord, Mask, Indices;
      queries := [];
      ghost var ch := State();
      ghost var d := 0;
      NoIndices(ch, log);
      while |queries| < n
        invariant |queries| <= n && (|queries| == 2 * d || |queries| == n == 2 * d - 1)
        invariant State() == DrawnTimes(ch, d)
        invariant queries == Indices(ch, log, |queries|)
      {
        DrawStep(ch, d);
        var w0, w1 := DrawPair();
        IndicesGrow(ch, log, 2 * d);
        queries := queries + [Mask(w0, log)];
        if |queries| < n {
          IndicesGrow(ch, log, 2 * d + 1);
          queries := queries + [Mask(w1, log)];
        }
        d := d + 1;
      }
      assert d == (n + 1) / 2;
    }
  }

  // ------------------------------------------------------------ whole runs

  datatype Op = Mix(words: seq<Word>) | Draw

  function Step(ch: Channel, op: Op): Channel {
    match op
    case Mix(words) => Mixed(ch, words)
    case Draw => Drawn(ch)
  }

  function Run(ops: seq<Op>): Channel {
    if ops == [] then START else Step(Run(ops[..|ops| - 1]), ops[|ops| - 1])
  }

  /** After any operations on any u32 words both state words are below p, so what is drawn
      is always a field element, as long as no more than p draws separate two mixes. */
  lemma {:induction false} StateStaysReduced(ops: seq<Op>)
    requires forall k | 0 <= k < |ops| && ops[k].Draw? :: Run(ops[..k]).draws <= M31_P
    ensures StateReduced(Run(ops))
  {
    hide Permute, AbsorbedAll;
    if ops != [] {
      var init := ops[..|ops| - 1];
      forall k | 0 <= k < |init| && init[k].Draw? ensures Run(init[..k]).draws <= M31_P {
        assert init[..k] == ops[..k];
      }
      StateStaysReduced(init);
      match ops[|ops| - 1]
      case Mix(words) => AbsorbedAllReduced(Run(init).s, words);
      case Draw => DrawnReduced(Run(init));
    }
  }

  /** Mixing a concatenation equals mixing its parts one after the other. */
  lemma MixConcat(ch: Channel, a: seq<Word>, b: seq<Word>)
    ensures Mixed(ch, a + b) == Mixed(Mixed(ch, a), b)
  {
    AbsorbConcat(ch.s, a, b);
  }
}
