/** core/signing.py and core/batch.py: signature checks and batch creation. */
module Batch {
  import opened Bytes
  import opened Prelude
  import opened Transaction
  import Merkle

  /** The cryptographic primitives, as arbitrary total functions. */
  datatype Crypto = Crypto(
    sha256: Bytes -> Digest32,
    sha512: Bytes -> Digest64,
    mldsaVerify: (string, Bytes, Bytes, Bytes) -> bool)

  type Tx = Transaction

  const SUPPORTED_ALGORITHMS: seq<string> := ["ML-DSA-44", "ML-DSA-65", "ML-DSA-87"]

  const DEFAULT_ALGORITHM: string := "ML-DSA-65"

  const MAX_BATCH_SIZE: nat := 3000

  const MIN_BATCH_SIZE: nat := 1

  function TxHash(c: Crypto, tx: Tx): Digest32 {
    c.sha256(ToBytes(tx))
  }

  /** The hashes of a list of transactions, in order. */
  function TxHashes(c: Crypto, txs: seq<Tx>): (hs: seq<Digest32>)
    ensures |hs| == |txs|
    ensures forall i | 0 <= i < |txs| :: hs[i] == TxHash(c, txs[i])
  {
    seq(|txs|, i requires 0 <= i < |txs| => TxHash(c, txs[i]))
  }

  /** Signed, and core.signing.verify accepts the signature. */
  predicate ValidTx(c: Crypto, algorithm: string, tx: Tx) {
    && tx.signature.Some?
    && tx.signature.value != [] && tx.publicKey != []
    && c.mldsaVerify(algorithm, ToBytes(tx), tx.signature.value, tx.publicKey)
  }

  /** The transactions with an accepted signature, in order. */
  function ValidOnly(c: Crypto, algorithm: string, txs: seq<Tx>): seq<Tx> {
    if txs == [] then []
    else (if ValidTx(c, algorithm, txs[0]) then [txs[0]] else []) + ValidOnly(c, algorithm, txs[1..])
  }

  function InvalidOnly(c: Crypto, algorithm: string, txs: seq<Tx>): seq<Tx> {
    if txs == [] then []
    else (if ValidTx(c, algorithm, txs[0]) then [] else [txs[0]]) + InvalidOnly(c, algorithm, txs[1..])
  }

  lemma {:induction false} ValidOnlyConcat(c: Crypto, algorithm: string, a: seq<Tx>, b: seq<Tx>)
    ensures ValidOnly(c, algorithm, a + b) == ValidOnly(c, algorithm, a) + ValidOnly(c, algorithm, b)
  {
    if a == [] {
      assert [] + b == b;
    } else {
      ValidOnlyConcat(c, algorithm, a[1..], b);
      assert (a + b)[1..] == a[1..] + b;
      var head := if ValidTx(c, algorithm, a[0]) then [a[0]] else [];
      var tail := ValidOnly(c, algorithm, a[1..]);
      ConcatAssociates(head, tail, ValidOnly(c, algorithm, b));
    }
  }

  /** Filtering loses nothing: each transaction is kept or rejected. */
  lemma {:induction false} ValidPartition(c: Crypto, algorithm: string, txs: seq<Tx>)
    ensures multiset(ValidOnly(c, algorithm, txs)) + multiset(InvalidOnly(c, algorithm, txs)) == multiset(txs)
  {
    if txs != [] {
      ValidPartition(c, algorithm, txs[1..]);
      var v, w := ValidOnly(c, algorithm, txs[1..]), InvalidOnly(c, algorithm, txs[1..]);
      assert txs == [txs[0]] + txs[1..];
      if ValidTx(c, algorithm, txs[0]) {
        assert ValidOnly(c, algorithm, txs) == [txs[0]] + v;
        assert InvalidOnly(c, algorithm, txs) == w;
      } else {
        assert ValidOnly(c, algorithm, txs) == v;
        assert InvalidOnly(c, algorithm, txs) == [txs[0]] + w;
      }
    }
  }

  lemma {:induction false} ValidOnlyAllValid(c: Crypto, algorithm: string, txs: seq<Tx>)
    ensures |ValidOnly(c, algorithm, txs)| <= |txs|
    ensures |ValidOnly(c, algorithm, txs)| == |txs| ==> ValidOnly(c, algorithm, txs) == txs
    ensures forall i | 0 <= i < |ValidOnly(c, algorithm, txs)| :: ValidTx(c, algorithm, ValidOnly(c, algorithm, txs)[i])
  {
    hide ValidTx;
    if txs != [] {
      ValidOnlyAllValid(c, algorithm, txs[1..]);
      assert txs == [txs[0]] + txs[1..];
    }
  }

  /** What is kept is what was there, is signed and has a signature and a key that are not
      empty and under which the serialisation verifies. */
  lemma {:induction false} KeptIff(c: Crypto, algorithm: string, txs: seq<Tx>, tx: Tx)
    ensures tx in ValidOnly(c, algorithm, txs) <==>
              && tx in txs
              && tx.signature.Some? && |tx.signature.value| > 0 && |tx.publicKey| > 0
              && c.mldsaVerify(algorithm, ToBytes(tx), tx.signature.value, tx.publicKey)
  {
    hide ToBytes;
    if txs != [] {
      KeptIff(c, algorithm, txs[1..], tx);
      assert txs == [txs[0]] + txs[1..];
    }
  }

  lemma {:induction false} ValidOnlyIdentity(c: Crypto, algorithm: string, txs: seq<Tx>)
    requires forall i | 0 <= i < |txs| :: ValidTx(c, algorithm, txs[i])
    ensures ValidOnly(c, algorithm, txs) == txs
  {
    hide ValidTx;
    if txs != [] {
      var rest := txs[1..];
      forall i | 0 <= i < |rest| ensures ValidTx(c, algorithm, rest[i]) {
        assert rest[i] == txs[i + 1];
      }
      ValidOnlyIdentity(c, algorithm, rest);
      assert txs == [txs[0]] + rest;
    }
  }

  datatype Batch = Batch(transactions: seq<Tx>, merkleRoot: Digest64, batchId: nat)

  datatype BatchError =
    | UnsupportedAlgorithm
    | TooSmall
    | TooLarge
    | Unsigned(index: nat)
    | BadSignature(index: nat)

  ghost function BatchRoot(c: Crypto, txs: seq<Tx>): Digest64
    requires txs != []
  {
    Merkle.Root(c.sha512, TxHashes(c, txs))
  }

  /** The roots of one and of two transactions: SHA3-512 over the SHA3-256 hashes of their
      serialisations, in order. */
  lemma SmallBatches(c: Crypto, t: Tx, u: Tx)
    ensures BatchRoot(c, [t]) == c.sha512([0] + c.sha256(ToBytes(t)))
    ensures BatchRoot(c, [t, u]) == c.sha512([1] + c.sha512([0] + c.sha256(ToBytes(t))) + c.sha512([0] + c.sha256(ToBytes(u))))
  {
    hide ToBytes;
    var a, b := c.sha256(ToBytes(t)), c.sha256(ToBytes(u));
    assert TxHashes(c, [t]) == [a] && TxHashes(c, [t, u]) == [a, b];
    Merkle.SmallTrees(c.sha512, a, b, b);
  }

  method CreateBatch(c: Crypto, txs: seq<Tx>, algorithm: string, batchId: nat) returns (r: Result<Batch, BatchError>)
    ensures r == Failure(UnsupportedAlgorithm) <==> algorithm !in SUPPORTED_ALGORITHMS
    ensures r == Failure(TooSmall) <==> algorithm in SUPPORTED_ALGORITHMS && |txs| < MIN_BATCH_SIZE
    ensures r == Failure(TooLarge) <==> algorithm in SUPPORTED_ALGORITHMS && |txs| > MAX_BATCH_SIZE
    ensures r.Success? <==>
              && algorithm in SUPPORTED_ALGORITHMS
              && MIN_BATCH_SIZE <= |txs| <= MAX_BATCH_SIZE
              && forall i | 0 <= i < |txs| :: ValidTx(c, algorithm, txs[i])
    ensures r.Success? ==> r.value == Batch(txs, BatchRoot(c, txs), batchId)
    ensures r.Failure? && (r.error.Unsigned? || r.error.BadSignature?) ==>
              var i := r.error.index;
              && i < |txs|
              && (r.error.Unsigned? <==> txs[i].signature.None?)
              && !ValidTx(c, algorithm, txs[i])
              && forall j | 0 <= j < i :: ValidTx(c, algorithm, txs[j])
  {
    if algorithm !in SUPPORTED_ALGORITHMS {
      return Failure(UnsupportedAlgorithm);
    }
    if |txs| < MIN_BATCH_SIZE {
      return Failure(TooSmall);
    }
    if |txs| > MAX_BATCH_SIZE {
      return Failure(TooLarge);
    }
    for i := 0 to |txs|
      invariant forall j | 0 <= j < i :: ValidTx(c, algorithm, txs[j])
    {
      if txs[i].signature.None? {
        return Failure(Unsigned(i));
      }
      if !ValidTx(c, algorithm, txs[i]) {
        return Failure(BadSignature(i));
      }
    }
    var leaves := TxHashes(c, txs);
    var tree := Merkle.BuildMerkleTree(c.sha512, leaves);
    r := Success(Batch(txs, tree.value[|tree.value| - 1][0], batchId));
  }

  /**
   * The root commits to every signed field.  Two batches of one size and one root
   * agree on the fields at every position (addresses up to letter case), unless
   * SHA3-512 collides inside the two trees or SHA3-256 collides on the two
   * serialisations standing at some position.
   */
  lemma BatchCommitment(c: Crypto, xs: seq<Tx>, ys: seq<Tx>, i: nat)
    requires |xs| == |ys| && i < |xs|
    requires Accepted(xs[i]) && Accepted(ys[i])
    requires BatchRoot(c, xs) == BatchRoot(c, ys)
    requires !Merkle.Collides(c.sha512, Merkle.TreeInputs(c.sha512, TxHashes(c, xs)),
                              Merkle.TreeInputs(c.sha512, TxHashes(c, ys)))
    requires ToBytes(xs[i]) != ToBytes(ys[i]) ==> TxHash(c, xs[i]) != TxHash(c, ys[i])
    ensures xs[i].amount == ys[i].amount && xs[i].nonce == ys[i].nonce && xs[i].publicKey == ys[i].publicKey
    ensures Spaces(xs[i].sender) == Spaces(ys[i].sender) <==>
            FromHex(xs[i].sender) == FromHex(ys[i].sender) && FromHex(xs[i].recipient) == FromHex(ys[i].recipient)
    ensures Spaces(xs[i].sender) == Spaces(ys[i].sender) == Spaces(xs[i].recipient) == Spaces(ys[i].recipient) == 0
        ==> SameSignedFields(xs[i], ys[i])
  {
    Merkle.Binding(c.sha512, TxHashes(c, xs), TxHashes(c, ys));
    assert TxHashes(c, xs)[i] == TxHashes(c, ys)[i];
    ToBytesDetermines(xs[i], ys[i]);
    if Spaces(xs[i].sender) == Spaces(ys[i].sender) == Spaces(xs[i].recipient) == Spaces(ys[i].recipient) == 0 {
      ToBytesInjective(xs[i], ys[i]);
    }
  }
}
