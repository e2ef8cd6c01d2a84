/** Byte strings and the fixed-size digests the hash functions return. */
module Bytes {
  newtype Byte = x: int | 0 <= x < 256

  type Bytes = seq<Byte>

  type Digest32 = d: Bytes | |d| == 32 witness seq(32, _ => 0)

  type Digest64 = d: Bytes | |d| == 64 witness seq(64, _ => 0)

  function Pow256(n: nat): nat {
    if n == 0 then 1 else 256 * Pow256(n - 1)
  }

  /** The number a byte string spells, first byte highest: the sum of b[i] * 256^(n-1-i). */
  function Value(b: Bytes): nat {
    if b == [] then 0 else b[0] as nat * Pow256(|b| - 1) + Value(b[1..])
  }

  lemma {:induction false} ValueOfLast(b: Bytes, c: Byte)
    ensures Value(b + [c]) == 256 * Value(b) + c as nat
  {
    if b == [] {
      assert Value([c]) == c as nat * Pow256(0) + Value([]);
    } else {
      ValueOfLast(b[1..], c);
      assert (b + [c])[1..] == b[1..] + [c];
      TimesPower(b[0] as nat, Pow256(|b| - 1));
    }
  }

  lemma TimesPower(a: nat, p: nat)
    ensures a * (256 * p) == 256 * (a * p)
  {
  }

  lemma Shifted(v: nat, p: nat, w: nat, c: nat)
    ensures 256 * (v * p + w) + c == v * (256 * p) + (256 * w + c)
  {
    TimesPower(v, p);
  }

  lemma Pow256Next(n: nat)
    ensures Pow256(n + 1) == 256 * Pow256(n)
  {
  }

  lemma {:induction false} ValueOfConcat(a: Bytes, b: Bytes)
    ensures Value(a + b) == Value(a) * Pow256(|b|) + Value(b)
    decreases |b|
  {
    if b == [] {
      assert a + b == a;
    } else {
      hide Value, Pow256;
      var n := |b| - 1;
      ValueOfConcat(a, b[..n]);
      assert a + b == (a + b[..n]) + [b[n]] && b == b[..n] + [b[n]];
      ValueOfLast(a + b[..n], b[n]);
      ValueOfLast(b[..n], b[n]);
      Pow256Next(n);
      Shifted(Value(a), Pow256(n), Value(b[..n]), b[n] as nat);
    }
  }

  lemma {:induction false} ValueBelow(b: Bytes)
    ensures Value(b) < Pow256(|b|)
  {
    if b != [] {
      var init := b[..|b| - 1];
      ValueBelow(init);
      ValueOfLast(init, b[|b| - 1]);
      assert b == init + [b[|b| - 1]];
    }
  }

  lemma {:induction false} ValueOfZeros(b: Bytes)
    requires forall i | 0 <= i < |b| :: b[i] == 0
    ensures Value(b) == 0
  {
    if b != [] {
      ValueOfZeros(b[1..]);
    }
  }

  lemma ValueOfFour(b: Bytes)
    requires |b| == 4
    ensures Value(b) == b[0] as nat * 0x100_0000 + b[1] as nat * 0x1_0000 + b[2] as nat * 0x100 + b[3] as nat
  {
    assert Pow256(1) == 256 && Pow256(2) == 0x1_0000 && Pow256(3) == 0x100_0000;
    assert b[1..][1..] == b[2..] && b[2..][1..] == b[3..] && b[3..][1..] == [];
    assert Value(b[3..]) == b[3] as nat * Pow256(0) + Value([]);
  }
}
