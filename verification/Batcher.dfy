/**
 * aggregator/batcher.py: one batching attempt.  What the prover does is an input,
 * `outcome`: it proves, is not installed, or crashes.
 */
module Batcher {
  import opened Bytes
  import opened Prelude
  import opened Batch
  import opened Mempool

  const MAX_PROOF_RETRIES: nat := 3

  const RETRY_MAP_LIMIT: nat := 256

  datatype Outcome = Proven | Unavailable | Crashed

  datatype BatchResult = BatchResult(batch: Batch, proven: bool)

  /** Node settings; capacity is the mempool's. */
  datatype Config = Config(crypto: Crypto, minBatch: nat, maxBatch: nat, capacity: nat)

  predicate ValidConfig(cfg: Config) {
    1 <= cfg.minBatch <= cfg.maxBatch && cfg.capacity >= cfg.minBatch
  }

  type Retries = map<Digest64, nat>

  /** The valid transactions of a drained list under the node's algorithm. */
  function Keep(c: Crypto, txs: seq<Tx>): seq<Tx> {
    ValidOnly(c, DEFAULT_ALGORITHM, txs)
  }

  /** How many transactions a cycle drains. */
  function Drained(cfg: Config, txs: seq<Tx>, force: bool): (n: nat)
    ensures n <= |txs|
  {
    if force then DrainCount(txs, cfg.maxBatch) else DrainIfReadyCount(txs, cfg.minBatch, cfg.maxBatch)
  }

  // ------------------------------------------------------- the retry budget

  /** The retry map as a crash finds it: emptied once it has outgrown its limit. */
  function Capped(m: Retries): Retries {
    if |m| > RETRY_MAP_LIMIT then map[] else m
  }

  function Attempts(m: Retries, root: Digest64): nat {
    (if root in Capped(m) then Capped(m)[root] else 0) + 1
  }

  datatype Verdict =
    | Retry       // put the transactions back and count the attempt
    | GiveUp      // emit unproven: the budget is spent
    | Done        // emit; the prover did not crash

  function Judge(m: Retries, root: Digest64, outcome: Outcome): Verdict {
    if !outcome.Crashed? then Done
    else if Attempts(m, root) <= MAX_PROOF_RETRIES then Retry
    else GiveUp
  }

  function NextRetries(m: Retries, root: Digest64, outcome: Outcome): Retries {
    match Judge(m, root, outcome)
    case Retry => Capped(m)[root := Attempts(m, root)]
    case GiveUp => Capped(m) - {root}
    case Done => m - {root}
  }

  // ------------------------------------------------------------ one attempt

  datatype State = State(pool: Pool, retries: Retries)

  /** From the drained list `txs` (already out of the pool) to the next state. */
  ghost function Attempt(cfg: Config, s: State, txs: seq<Tx>, outcome: Outcome, id: nat): (State, Option<BatchResult>) {
    var valid := Keep(cfg.crypto, txs);
    if valid == [] then (s, None)
    else if |valid| > MAX_BATCH_SIZE then
      (s.(pool := Prepended(cfg.crypto, cfg.capacity, s.pool, valid)), None)
    else
      var root := BatchRoot(cfg.crypto, valid);
      var retries := NextRetries(s.retries, root, outcome);
      if Judge(s.retries, root, outcome).Retry? then
        (State(Prepended(cfg.crypto, cfg.capacity, s.pool, valid), retries), None)
      else
        (s.(retries := retries), Some(BatchResult(Batch(valid, root, id), outcome.Proven?)))
  }

  lemma AttemptEmpty(cfg: Config, s: State, txs: seq<Tx>, outcome: Outcome, id: nat)
    requires Keep(cfg.crypto, txs) == []
    ensures Attempt(cfg, s, txs, outcome, id) == (s, None)
  {
  }

  lemma AttemptOversized(cfg: Config, s: State, txs: seq<Tx>, outcome: Outcome, id: nat)
    requires |Keep(cfg.crypto, txs)| > MAX_BATCH_SIZE
    ensures Attempt(cfg, s, txs, outcome, id) ==
            (s.(pool := Prepended(cfg.crypto, cfg.capacity, s.pool, Keep(cfg.crypto, txs))), None)
  {
  }

  /** The attempt is counted and the transactions go back. */
  lemma AttemptRetried(cfg: Config, s: State, txs: seq<Tx>, outcome: Outcome, id: nat)
    requires 1 <= |Keep(cfg.crypto, txs)| <= MAX_BATCH_SIZE
    requires Judge(s.retries, BatchRoot(cfg.crypto, Keep(cfg.crypto, txs)), outcome).Retry?
    ensures var valid := Keep(cfg.crypto, txs);
            var root := BatchRoot(cfg.crypto, valid);
            Attempt(cfg, s, txs, outcome, id) ==
            (State(Prepended(cfg.crypto, cfg.capacity, s.pool, valid), Capped(s.retries)[root := Attempts(s.retries, root)]), None)
  {
    hide Keep, BatchRoot, Prepended;
  }

  lemma UpdateThenRemove(m: Retries, root: Digest64, n: nat)
    ensures m[root := n] - {root} == m - {root}
  {
  }

  /** The batch is emitted; the counter of a crash is removed again. */
  lemma AttemptEmitted(cfg: Config, s: State, txs: seq<Tx>, outcome: Outcome, id: nat, stored: Retries)
    requires 1 <= |Keep(cfg.crypto, txs)| <= MAX_BATCH_SIZE
    requires !Judge(s.retries, BatchRoot(cfg.crypto, Keep(cfg.crypto, txs)), outcome).Retry?
    requires var root := BatchRoot(cfg.crypto, Keep(cfg.crypto, txs));
             stored == if outcome.Crashed? then Capped(s.retries)[root := Attempts(s.retries, root)] else s.retries
    ensures var valid := Keep(cfg.crypto, txs);
            var root := BatchRoot(cfg.crypto, valid);
            Attempt(cfg, s, txs, outcome, id) ==
            (s.(retries := stored - {root}), Some(BatchResult(Batch(valid, root, id), outcome.Proven?)))
  {
    hide Keep, BatchRoot, Prepended, Capped, Attempts;
    var root := BatchRoot(cfg.crypto, Keep(cfg.crypto, txs));
    UpdateThenRemove(Capped(s.retries), root, Attempts(s.retries, root));
  }

  ghost function Cycle(cfg: Config, s: State, force: bool, outcome: Outcome, id: nat): (State, Option<BatchResult>) {
    var n := Drained(cfg, s.pool.txs, force);
    var after := s.(pool := Taken(cfg.crypto, s.pool, n));
    if n == 0 then (s, None)
    else Attempt(cfg, after, s.pool.txs[..n], outcome, id)
  }

  /** A regular cycle: nothing happens below the minimum, and from the minimum on it is a
      forced cycle. */
  lemma RegularCycle(cfg: Config, s: State, outcome: Outcome, id: nat)
    requires ValidConfig(cfg)
    ensures Cycle(cfg, s, false, outcome, id)
         == if |s.pool.txs| < cfg.minBatch then (s, None) else Cycle(cfg, s, true, outcome, id)
  {
    hide Attempt, Taken;
  }

  class Batcher {
    const crypto: Crypto
    const mempool: Mempool
    const minBatch: nat
    const maxBatch: nat
    var proofRetries: Retries

    ghost function Settings(): Config {
      Config(crypto, minBatch, maxBatch, mempool.maxSize)
    }

    ghost predicate Valid() {
      1 <= minBatch <= maxBatch && mempool.crypto == crypto
    }

    ghost function Contents(): State
      reads this, mempool
    {
      State(mempool.Contents(), proofRetries)
    }

    constructor (mempool: Mempool, minBatch: nat, maxBatch: nat)
      requires 1 <= minBatch <= maxBatch
      ensures this.mempool == mempool && this.crypto == mempool.crypto
      ensures this.minBatch == minBatch && this.maxBatch == maxBatch
      ensures Valid() && proofRetries == map[]
    {
      this.crypto := mempool.crypto;
      this.mempool := mempool;
      this.minBatch := minBatch;
      this.maxBatch := maxBatch;
      this.proofRetries := map[];
    }

    /** Drops transactions without an accepted signature, in order. */
    method FilterValid(txs: seq<Tx>) returns (valid: seq<Tx>)
      ensures valid == Keep(crypto, txs)
    {
      valid := [];
      for i := 0 to |txs|
        invariant valid == Keep(crypto, txs[..i])
      {
        assert txs[..i + 1] == txs[..i] + [txs[i]];
        ValidOnlyConcat(crypto, DEFAULT_ALGORITHM, txs[..i], [txs[i]]);
        if ValidTx(crypto, DEFAULT_ALGORITHM, txs[i]) {
          valid := valid + [txs[i]];
        }
      }
      assert txs[..|txs|] == txs;
    }

    /** The crash branch: counts the attempt; true while the budget lasts. */
    method CountCrash(root: Digest64) returns (retry: bool)
      modifies this
      ensures retry == Judge(old(proofRetries), root, Crashed).Retry?
      ensures proofRetries == Capped(old(proofRetries))[root := Attempts(old(proofRetries), root)]
    {
      if |proofRetries| > RETRY_MAP_LIMIT {
        proofRetries := map[];
      }
      var attempts := (if root in proofRetries then proofRetries[root] else 0) + 1;
      proofRetries := proofRetries[root := attempts];
      retry := attempts <= MAX_PROOF_RETRIES;
    }

    method CreateAndProve(txs: seq<Tx>, outcome: Outcome, id: nat) returns (r: Option<BatchResult>)
      requires Valid()
      modifies this, mempool
      ensures (Contents(), r) == Attempt(Settings(), old(Contents()), txs, outcome, id)
    {
      hide Attempt, Prepended, BatchRoot, Judge, Attempts, Capped;
      ghost var start := Contents();
      var valid := FilterValid(txs);
      if valid == [] {
        AttemptEmpty(Settings(), start, txs, outcome, id);
        return None;
      }
      var batch := CreateBatch(crypto, valid, DEFAULT_ALGORITHM, id);
      ValidOnlyAllValid(crypto, DEFAULT_ALGORITHM, txs);
      assert SUPPORTED_ALGORITHMS[1] == DEFAULT_ALGORITHM;
      if batch.Failure? {
        AttemptOversized(Settings(), start, txs, outcome, id);
        var _ := mempool.PrependBatch(valid);
        return None;
      }
      var root := batch.value.merkleRoot;
      OnlyCrashesRetry(proofRetries, root, outcome);
      if outcome.Crashed? {
        var retry := CountCrash(root);
        if retry {
          AttemptRetried(Settings(), start, txs, outcome, id);
          var _ := mempool.PrependBatch(valid);
          return None;
        }
      }
      AttemptEmitted(Settings(), start, txs, outcome, id, proofRetries);
      proofRetries := proofRetries - {root};
      r := Some(BatchResult(batch.value, outcome.Proven?));
    }

    method TryBatch(outcome: Outcome, id: nat) returns (r: Option<BatchResult>)
      requires Valid()
      modifies this, mempool
      ensures (Contents(), r) == Cycle(Settings(), old(Contents()), false, outcome, id)
      ensures |old(mempool.txs)| < minBatch ==> r == None && Contents() == old(Contents())
    {
      var drained := mempool.DrainIfReady(minBatch, maxBatch);
      var txs := drained.value;
      if txs == [] {
        NothingTaken(crypto, old(mempool.Contents()));
        return None;
      }
      r := CreateAndProve(txs, outcome, id);
    }

    method ForceBatch(outcome: Outcome, id: nat) returns (r: Option<BatchResult>)
      requires Valid()
      modifies this, mempool
      ensures (Contents(), r) == Cycle(Settings(), old(Contents()), true, outcome, id)
    {
      var txs := mempool.Drain(maxBatch);
      if txs == [] {
        NothingTaken(crypto, old(mempool.Contents()));
        return None;
      }
      r := CreateAndProve(txs, outcome, id);
    }
  }

  lemma OnlyCrashesRetry(m: Retries, root: Digest64, outcome: Outcome)
    ensures Judge(m, root, outcome).Retry? ==> outcome.Crashed?
    ensures outcome.Crashed? ==> Judge(m, root, outcome) == Judge(m, root, Crashed)
  {
  }

  lemma NothingTaken(c: Crypto, p: Pool)
    ensures Taken(c, p, 0) == p
  {
    assert p.txs[..0] == [] && p.txs[0..] == p.txs;
    HashSetEmpty(c);
  }
}
