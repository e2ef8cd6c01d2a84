/** aggregator/mempool.py: the FIFO pool of pending transactions. */
module Mempool {
  import opened Bytes
  import opened Prelude
  import opened Batch

  datatype AddError = NotSigned | Duplicate | Full

  datatype ConfigError = InvalidConfig

  /** The contents of a pool: the queue, the hash set and the overflow counter. */
  datatype Pool = Pool(txs: seq<Tx>, hashes: set<Digest32>, dropped: nat)

  ghost function HashSet(c: Crypto, txs: seq<Tx>): set<Digest32> {
    set i | 0 <= i < |txs| :: TxHash(c, txs[i])
  }

  lemma HashSetConcat(c: Crypto, a: seq<Tx>, b: seq<Tx>)
    ensures HashSet(c, a + b) == HashSet(c, a) + HashSet(c, b)
  {
    forall h | h in HashSet(c, a) + HashSet(c, b)
      ensures h in HashSet(c, a + b)
    {
      if h in HashSet(c, a) {
        var i :| 0 <= i < |a| && h == TxHash(c, a[i]);
        assert (a + b)[i] == a[i];
      } else {
        var i :| 0 <= i < |b| && h == TxHash(c, b[i]);
        assert (a + b)[|a| + i] == b[i];
      }
    }
  }

  lemma HashSetSplit(c: Crypto, txs: seq<Tx>, n: nat)
    requires n <= |txs|
    ensures HashSet(c, txs) == HashSet(c, txs[..n]) + HashSet(c, txs[n..])
  {
    HashSetConcat(c, txs[..n], txs[n..]);
    assert txs[..n] + txs[n..] == txs;
  }

  lemma HashSetCons(c: Crypto, tx: Tx, rest: seq<Tx>)
    ensures HashSet(c, [tx]) == {TxHash(c, tx)}
    ensures HashSet(c, [tx] + rest) == {TxHash(c, tx)} + HashSet(c, rest)
  {
    assert [tx][0] == tx;
    HashSetConcat(c, [tx], rest);
  }

  lemma HashSetEmpty(c: Crypto)
    ensures HashSet(c, []) == {}
  {
  }

  // ------------------------------------------- what each operation computes

  ghost function AddResult(c: Crypto, capacity: nat, p: Pool, tx: Tx): Result<Pool, AddError> {
    if tx.signature.None? then Failure(NotSigned)
    else if TxHash(c, tx) in p.hashes then Failure(Duplicate)
    else if |p.txs| >= capacity then Failure(Full)
    else Success(p.(txs := p.txs + [tx], hashes := p.hashes + {TxHash(c, tx)}))
  }

  /** Taking the first n transactions out. */
  ghost function Taken(c: Crypto, p: Pool, n: nat): Pool
    requires n <= |p.txs|
  {
    p.(txs := p.txs[n..], hashes := p.hashes - HashSet(c, p.txs[..n]))
  }

  function DrainCount(p: seq<Tx>, n: int): nat {
    if n < 1 then 0 else Min(n, |p|)
  }

  function DrainIfReadyCount(p: seq<Tx>, minN: nat, maxN: nat): nat {
    if |p| < minN then 0 else Min(maxN, |p|)
  }

  /** How many of the returned transactions fit. */
  function Fit(capacity: nat, size: nat, n: nat): nat {
    Min(Max(capacity - size, 0), n)
  }

  ghost function Prepended(c: Crypto, capacity: nat, p: Pool, txs: seq<Tx>): Pool {
    var fit := Fit(capacity, |p.txs|, |txs|);
    Pool(txs[..fit] + p.txs, p.hashes + HashSet(c, txs[..fit]), p.dropped + |txs| - fit)
  }

  // ------------------------------------------------ exactness, step by step

  /** No transaction hash is queued twice. */
  ghost predicate NoRepeats(c: Crypto, txs: seq<Tx>) {
    forall i, j | 0 <= i < j < |txs| :: TxHash(c, txs[i]) != TxHash(c, txs[j])
  }

  /** The hash set is exactly the set of queued hashes and the queue has no repeats. */
  ghost predicate Exact(c: Crypto, p: Pool) {
    p.hashes == HashSet(c, p.txs) && NoRepeats(c, p.txs)
  }

  /** Which error a submission meets: no signature, then a known hash, then a full pool. */
  lemma AddErrors(c: Crypto, capacity: nat, p: Pool, tx: Tx)
    ensures AddResult(c, capacity, p, tx) == Failure(NotSigned) <==> tx.signature == None
    ensures AddResult(c, capacity, p, tx) == Failure(Duplicate) <==> tx.signature != None && TxHash(c, tx) in p.hashes
    ensures AddResult(c, capacity, p, tx) == Failure(Full) <==>
            tx.signature != None && TxHash(c, tx) !in p.hashes && |p.txs| >= capacity
  {
  }

  lemma AddKeepsExact(c: Crypto, capacity: nat, p: Pool, tx: Tx)
    requires Exact(c, p) && AddResult(c, capacity, p, tx).Success?
    ensures Exact(c, AddResult(c, capacity, p, tx).value)
  {
    HashSetConcat(c, p.txs, [tx]);
    assert HashSet(c, [tx]) == {TxHash(c, tx)} by { assert [tx][0] == tx; }
  }

  lemma NoRepeatsConcat(c: Crypto, a: seq<Tx>, b: seq<Tx>)
    ensures NoRepeats(c, a + b) <==> NoRepeats(c, a) && NoRepeats(c, b) && HashSet(c, a) !! HashSet(c, b)
  {
    var s := a + b;
    assert forall i | 0 <= i < |a| :: s[i] == a[i];
    assert forall i | 0 <= i < |b| :: s[|a| + i] == b[i];
    if NoRepeats(c, s) {
      forall i, j | 0 <= i < j < |b|
        ensures TxHash(c, b[i]) != TxHash(c, b[j])
      {
        assert TxHash(c, s[|a| + i]) != TxHash(c, s[|a| + j]);
      }
      forall i, j | 0 <= i < |a| && 0 <= j < |b|
        ensures TxHash(c, a[i]) != TxHash(c, b[j])
      {
        assert TxHash(c, s[i]) != TxHash(c, s[|a| + j]);
      }
    }
    if NoRepeats(c, a) && NoRepeats(c, b) && HashSet(c, a) !! HashSet(c, b) {
      forall i, j | 0 <= i < j < |s|
        ensures TxHash(c, s[i]) != TxHash(c, s[j])
      {
        if i < |a| <= j {
          assert TxHash(c, a[i]) in HashSet(c, a) && TxHash(c, b[j - |a|]) in HashSet(c, b);
        }
      }
    }
  }

  lemma TakenKeepsExact(c: Crypto, p: Pool, n: nat)
    requires Exact(c, p) && n <= |p.txs|
    ensures Exact(c, Taken(c, p, n))
  {
    assert p.txs == p.txs[..n] + p.txs[n..];
    NoRepeatsConcat(c, p.txs[..n], p.txs[n..]);
    HashSetConcat(c, p.txs[..n], p.txs[n..]);
  }

  /** Returning transactions keeps the pool exact exactly when those that fit are
      distinct and none of them was submitted again in the meantime. */
  lemma PrependedExactIff(c: Crypto, capacity: nat, p: Pool, txs: seq<Tx>)
    requires Exact(c, p)
    ensures var kept := txs[..Fit(capacity, |p.txs|, |txs|)];
            Exact(c, Prepended(c, capacity, p, txs)) <==> NoRepeats(c, kept) && HashSet(c, kept) !! p.hashes
  {
    var kept := txs[..Fit(capacity, |p.txs|, |txs|)];
    NoRepeatsConcat(c, kept, p.txs);
    HashSetConcat(c, kept, p.txs);
  }

  class Mempool {
    const crypto: Crypto
    const maxSize: nat
    var txs: seq<Tx>
    var txHashes: set<Digest32>
    var droppedTotal: nat

    ghost function Contents(): Pool
      reads this
    {
      Pool(txs, txHashes, droppedTotal)
    }

    constructor (c: Crypto, maxSize: nat)
      requires maxSize >= 1
      ensures this.crypto == c && this.maxSize == maxSize
      ensures Contents() == Pool([], {}, 0)
    {
      this.crypto := c;
      this.maxSize := maxSize;
      this.txs := [];
      this.txHashes := {};
      this.droppedTotal := 0;
    }

    method Add(tx: Tx) returns (r: Result<(), AddError>)
      modifies this
      ensures var after := AddResult(crypto, maxSize, old(Contents()), tx);
              match r
              case Failure(e) => after == Failure(e) && Contents() == old(Contents())
              case Success(_) => after == Success(Contents())
    {
      if tx.signature.None? {
        return Failure(NotSigned);
      }
      var h := TxHash(crypto, tx);
      if h in txHashes {
        return Failure(Duplicate);
      }
      if |txs| >= maxSize {
        return Failure(Full);
      }
      txs := txs + [tx];
      txHashes := txHashes + {h};
      r := Success(());
    }

    /** Pops the first count transactions and forgets their hashes. */
    method Take(count: nat) returns (out: seq<Tx>)
      requires count <= |txs|
      modifies this
      ensures out == old(txs[..count])
      ensures Contents() == Taken(crypto, old(Contents()), count)
    {
      out := [];
      while |out| < count
        invariant |out| <= count && |txs| == |old(txs)| - |out|
        invariant out + txs == old(txs)
        invariant txHashes == old(txHashes) && droppedTotal == old(droppedTotal)
      {
        assert out + txs == (out + [txs[0]]) + txs[1..];
        out := out + [txs[0]];
        txs := txs[1..];
      }
      assert out == (out + txs)[..count] && txs == (out + txs)[count..];
      Forget(out);
    }

    /** Takes the hashes of a list out of the hash set. */
    method Forget(gone: seq<Tx>)
      modifies this
      ensures txs == old(txs) && droppedTotal == old(droppedTotal)
      ensures txHashes == old(txHashes) - HashSet(crypto, gone)
    {
      hide HashSet;
      HashSetEmpty(crypto);
      for i := 0 to |gone|
        invariant txs == old(txs) && droppedTotal == old(droppedTotal)
        invariant txHashes == old(txHashes) - HashSet(crypto, gone[..i])
      {
        assert gone[..i + 1] == gone[..i] + [gone[i]];
        HashSetConcat(crypto, gone[..i], [gone[i]]);
        HashSetCons(crypto, gone[i], []);
        txHashes := txHashes - {TxHash(crypto, gone[i])};
      }
      assert gone[..|gone|] == gone;
    }

    method Drain(n: int) returns (out: seq<Tx>)
      modifies this
      ensures out == old(txs)[..DrainCount(old(txs), n)]
      ensures Contents() == Taken(crypto, old(Contents()), |out|)
    {
      if n < 1 {
        assert txs[0..] == txs;
        return [];
      }
      out := Take(Min(n, |txs|));
    }

    method DrainIfReady(minN: int, maxN: nat) returns (r: Result<seq<Tx>, ConfigError>)
      modifies this
      ensures r.Failure? <==> minN < 1
      ensures r.Failure? ==> Contents() == old(Contents())
      ensures r.Success? ==>
                && r.value == old(txs)[..DrainIfReadyCount(old(txs), minN, maxN)]
                && Contents() == Taken(crypto, old(Contents()), |r.value|)
    {
      if minN < 1 {
        return Failure(InvalidConfig);
      }
      if |txs| < minN {
        assert txs[0..] == txs;
        return Success([]);
      }
      var out := Take(Min(maxN, |txs|));
      r := Success(out);
    }

    /** Pushes a list to the front, last element first, so that its order survives. */
    method PushFront(kept: seq<Tx>)
      modifies this
      ensures txs == kept + old(txs)
      ensures txHashes == old(txHashes) + HashSet(crypto, kept)
      ensures droppedTotal == old(droppedTotal)
    {
      hide HashSet;
      HashSetEmpty(crypto);
      var i := |kept|;
      ghost var pushed: seq<Tx> := [];
      while i > 0
        invariant 0 <= i <= |kept| && pushed == kept[i..]
        invariant txs == pushed + old(txs) && droppedTotal == old(droppedTotal)
        invariant txHashes == old(txHashes) + HashSet(crypto, pushed)
      {
        i := i - 1;
        var tx := kept[i];
        HashSetCons(crypto, tx, pushed);
        assert [tx] + (pushed + old(txs)) == ([tx] + pushed) + old(txs);
        txs := [tx] + txs;
        txHashes := txHashes + {TxHash(crypto, tx)};
        pushed := [tx] + pushed;
      }
      assert kept[0..] == kept;
    }

    method PrependBatch(batch: seq<Tx>) returns (dropped: seq<Tx>)
      modifies this
      ensures dropped == batch[Fit(maxSize, |old(txs)|, |batch|)..]
      ensures Contents() == Prepended(crypto, maxSize, old(Contents()), batch)
    {
      var room := maxSize - |txs|;
      if room < 0 {
        room := 0;
      }
      var kept := if room <= |batch| then batch[..room] else batch;
      dropped := if room <= |batch| then batch[room..] else [];
      assert kept == batch[..Fit(maxSize, |txs|, |batch|)];
      PushFront(kept);
      droppedTotal := droppedTotal + |dropped|;
    }
  }
}
