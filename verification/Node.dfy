/**
 * aggregator/node.py: submission, cycles, and the four structures that index the
 * retained batch history.
 */
module Node {
  import opened Bytes
  import opened Prelude
  import opened Batch
  import opened Mempool
  import opened Batcher

  const MAX_HISTORY: nat := 1000

  const MAX_SENDER_HISTORY: nat := 500

  datatype SubmitError = Replayed | Rejected(reason: AddError)

  datatype Stats = Stats(received: nat, batched: nat, batches: nat, proofs: nat)

  /** The bounded history and everything that indexes it. */
  datatype Index = Index(
    history: seq<BatchResult>,
    batchIndex: map<nat, BatchResult>,
    txToBatch: map<Digest32, nat>,
    senderTxs: map<string, seq<Digest32>>)

  // --------------------------------------------------- what _record computes

  function LastN<T>(s: seq<T>, n: nat): seq<T> {
    if |s| <= n then s else s[|s| - n..]
  }

  /** The last n of a list, or all of it. */
  lemma LastNIsSuffix<T>(s: seq<T>, n: nat)
    ensures |LastN(s, n)| == Min(n, |s|) && s == s[..|s| - |LastN(s, n)|] + LastN(s, n)
  {
  }

  /** list.remove: drops the first occurrence, if there is one. */
  function RemoveFirst<T(==)>(s: seq<T>, x: T): seq<T> {
    if s == [] then []
    else if s[0] == x then s[1..]
    else [s[0]] + RemoveFirst(s[1..], x)
  }

  /** Forgetting one transaction of the evicted batch. */
  function WithoutTx(c: Crypto, ix: Index, tx: Tx): Index {
    var h := TxHash(c, tx);
    var senders :=
      if tx.sender !in ix.senderTxs then ix.senderTxs
      else
        var left := RemoveFirst(ix.senderTxs[tx.sender], h);
        if left == [] then ix.senderTxs - {tx.sender} else ix.senderTxs[tx.sender := left];
    ix.(txToBatch := ix.txToBatch - {h}, senderTxs := senders)
  }

  /** Indexing one transaction of the new batch. */
  function WithTx(c: Crypto, ix: Index, tx: Tx, id: nat): Index {
    var h := TxHash(c, tx);
    var ring := if tx.sender in ix.senderTxs then ix.senderTxs[tx.sender] else [];
    ix.(txToBatch := ix.txToBatch[h := id],
        senderTxs := ix.senderTxs[tx.sender := LastN(ring + [h], MAX_SENDER_HISTORY)])
  }

  ghost function WithoutTxs(c: Crypto, ix: Index, txs: seq<Tx>): (r: Index)
    ensures r.history == ix.history && r.batchIndex == ix.batchIndex
  {
    if txs == [] then ix else WithoutTx(c, WithoutTxs(c, ix, txs[..|txs| - 1]), txs[|txs| - 1])
  }

  ghost function WithTxs(c: Crypto, ix: Index, txs: seq<Tx>, id: nat): (r: Index)
    ensures r.history == ix.history && r.batchIndex == ix.batchIndex
  {
    if txs == [] then ix else WithTx(c, WithTxs(c, ix, txs[..|txs| - 1], id), txs[|txs| - 1], id)
  }

  /** Dropping the oldest batch from the history and from every index. */
  ghost function Evicted(c: Crypto, ix: Index): Index
    requires ix.history != []
  {
    var oldest := ix.history[0].batch;
    var r := WithoutTxs(c, ix, oldest.transactions);
    r.(batchIndex := ix.batchIndex - {oldest.batchId}, history := ix.history[1..])
  }

  ghost function Appended(c: Crypto, ix: Index, result: BatchResult): Index {
    var id := result.batch.batchId;
    WithTxs(c, ix.(history := ix.history + [result], batchIndex := ix.batchIndex[id := result]),
            result.batch.transactions, id)
  }

  ghost function Recorded(c: Crypto, ix: Index, result: BatchResult): Index {
    Appended(c, if |ix.history| == MAX_HISTORY then Evicted(c, ix) else ix, result)
  }

  function Counted(s: Stats, result: BatchResult): Stats {
    s.(batches := s.batches + 1,
       batched := s.batched + |result.batch.transactions|,
       proofs := s.proofs + if result.proven then 1 else 0)
  }

  datatype NodeState = NodeState(core: State, index: Index, stats: Stats)

  ghost function Submitted(cfg: Config, s: NodeState, tx: Tx): Result<NodeState, SubmitError> {
    if TxHash(cfg.crypto, tx) in s.index.txToBatch then Failure(Replayed)
    else match AddResult(cfg.crypto, cfg.capacity, s.core.pool, tx)
         case Failure(e) => Failure(Rejected(e))
         case Success(p) => Success(s.(core := s.core.(pool := p), stats := s.stats.(received := s.stats.received + 1)))
  }

  /** Which error a submission meets: a hash batched before, then what the pool refuses. */
  lemma SubmitErrors(cfg: Config, s: NodeState, tx: Tx)
    ensures Submitted(cfg, s, tx) == Failure(Replayed) <==> TxHash(cfg.crypto, tx) in s.index.txToBatch
    ensures forall e :: Submitted(cfg, s, tx) == Failure(Rejected(e)) <==>
              TxHash(cfg.crypto, tx) !in s.index.txToBatch && AddResult(cfg.crypto, cfg.capacity, s.core.pool, tx) == Failure(e)
  {
  }

  ghost function Cycled(cfg: Config, s: NodeState, force: bool, outcome: Outcome, id: nat): (NodeState, Option<BatchResult>) {
    var (core, r) := Cycle(cfg, s.core, force, outcome, id);
    match r
    case None => (s.(core := core), None)
    case Some(result) => (NodeState(core, Recorded(cfg.crypto, s.index, result), Counted(s.stats, result)), r)
  }

  const EMPTY_INDEX: Index := Index([], map[], map[], map[])

  // ------------------------------------------------------------- the node

  class AggregatorNode {
    const crypto: Crypto
    const mempool: Mempool
    const batcher: Batcher
    const nFriQueries: nat
    var stats: Stats
    var history: seq<BatchResult>
    var batchIndex: map<nat, BatchResult>
    var txToBatch: map<Digest32, nat>
    var senderTxs: map<string, seq<Digest32>>

    ghost function Settings(): Config {
      batcher.Settings()
    }

    ghost predicate Valid()
      reads this
    {
      && batcher.Valid() && batcher.mempool == mempool && batcher.crypto == crypto
      && |history| <= MAX_HISTORY
    }

    ghost function Indexes(): Index
      reads this
    {
      Index(history, batchIndex, txToBatch, senderTxs)
    }

    ghost function Contents(): NodeState
      reads this, mempool, batcher, batcher.mempool
    {
      NodeState(batcher.Contents(), Indexes(), stats)
    }

    /** The node with the given settings.  `queries` is the argument n_fri_queries, `env`
        what N_FRI_QUERIES holds: its number, or None if it is not an integer. */
    static method Create(c: Crypto, minBatch: int, maxBatch: int, capacity: int, queries: Option<int>, env: Option<int>)
      returns (r: Result<AggregatorNode, ConfigError>)
      ensures r.Success? <==>
                && 1 <= minBatch <= maxBatch && minBatch <= capacity
                && var n := if queries.Some? then queries else env;
                   n.Some? && 1 <= n.value <= 64
      ensures r.Success? ==>
                && fresh(r.value) && fresh(r.value.mempool) && fresh(r.value.batcher)
                && r.value.Valid()
                && r.value.Settings() == Config(c, minBatch, maxBatch, capacity)
                && r.value.nFriQueries == (if queries.Some? then queries else env).value
                && r.value.Contents() == NodeState(State(Pool([], {}, 0), map[]), EMPTY_INDEX, Stats(0, 0, 0, 0))
    {
      var n := queries;
      if queries.None? {
        if env.None? || !(1 <= env.value <= 64) {
          return Failure(InvalidConfig);
        }
        n := env;
      }
      if capacity < minBatch {
        return Failure(InvalidConfig);
      }
      if capacity < 1 {
        return Failure(InvalidConfig);
      }
      if minBatch < 1 || maxBatch < minBatch {
        return Failure(InvalidConfig);
      }
      if n.value < 1 || n.value > 64 {
        return Failure(InvalidConfig);
      }
      var node := new AggregatorNode(c, minBatch, maxBatch, capacity, n.value);
      r := Success(node);
    }

    constructor (c: Crypto, minBatch: nat, maxBatch: nat, capacity: nat, queries: nat)
      requires 1 <= minBatch <= maxBatch && capacity >= minBatch
      ensures fresh(mempool) && fresh(batcher) && Valid()
      ensures Settings() == Config(c, minBatch, maxBatch, capacity) && nFriQueries == queries
      ensures Contents() == NodeState(State(Pool([], {}, 0), map[]), EMPTY_INDEX, Stats(0, 0, 0, 0))
    {
      var pool := new Mempool(c, capacity);
      var b := new Batcher(pool, minBatch, maxBatch);
      crypto := c;
      mempool := pool;
      batcher := b;
      nFriQueries := queries;
      stats := Stats(0, 0, 0, 0);
      history := [];
      batchIndex := map[];
      txToBatch := map[];
      senderTxs := map[];
    }

    method Submit(tx: Tx) returns (r: Result<(), SubmitError>)
      requires Valid()
      modifies this, mempool
      ensures Valid()
      ensures match r
              case Success(_) => Submitted(Settings(), old(Contents()), tx) == Success(Contents())
              case Failure(e) => Submitted(Settings(), old(Contents()), tx) == Failure(e) && Contents() == old(Contents())
    {
      if TxHash(crypto, tx) in txToBatch {
        return Failure(Replayed);
      }
      var added := mempool.Add(tx);
      if added.Failure? {
        return Failure(Rejected(added.error));
      }
      stats := stats.(received := stats.received + 1);
      r := Success(());
    }

    /** Takes the oldest batch's transactions out of the two transaction indexes. */
    method ForgetTxs(txs: seq<Tx>)
      modifies this
      ensures Indexes() == WithoutTxs(crypto, old(Indexes()), txs)
      ensures stats == old(stats)
    {
      for i := 0 to |txs|
        invariant Indexes() == WithoutTxs(crypto, old(Indexes()), txs[..i])
        invariant stats == old(stats)
      {
        var tx := txs[i];
        assert txs[..i + 1][..i] == txs[..i];
        var h := TxHash(crypto, tx);
        txToBatch := txToBatch - {h};
        if tx.sender in senderTxs {
          var left := RemoveFirst(senderTxs[tx.sender], h);
          if left == [] {
            senderTxs := senderTxs - {tx.sender};
          } else {
            senderTxs := senderTxs[tx.sender := left];
          }
        }
      }
      assert txs[..|txs|] == txs;
    }

    method IndexTxs(txs: seq<Tx>, id: nat)
      modifies this
      ensures Indexes() == WithTxs(crypto, old(Indexes()), txs, id)
      ensures stats == old(stats)
    {
      hide LastN;
      for i := 0 to |txs|
        invariant Indexes() == WithTxs(crypto, old(Indexes()), txs[..i], id)
        invariant stats == old(stats)
      {
        var tx := txs[i];
        assert txs[..i + 1][..i] == txs[..i];
        var h := TxHash(crypto, tx);
        txToBatch := txToBatch[h := id];
        var ring := if tx.sender in senderTxs then senderTxs[tx.sender] else [];
        senderTxs := senderTxs[tx.sender := LastN(ring + [h], MAX_SENDER_HISTORY)];
      }
      assert txs[..|txs|] == txs;
    }

    method Record(result: BatchResult)
      requires Valid()
      modifies this
      ensures Valid()
      ensures Indexes() == Recorded(crypto, old(Indexes()), result)
      ensures stats == Counted(old(stats), result)
    {
      stats := Counted(stats, result);
      if |history| == MAX_HISTORY {
        var evicted := history[0].batch;
        ForgetTxs(evicted.transactions);
        batchIndex := batchIndex - {evicted.batchId};
        history := history[1..];
      }
      history := history + [result];
      batchIndex := batchIndex[result.batch.batchId := result];
      IndexTxs(result.batch.transactions, result.batch.batchId);
    }

    method RunCycle(outcome: Outcome, id: nat) returns (r: Option<BatchResult>)
      requires Valid()
      modifies this, mempool, batcher
      ensures Valid()
      ensures (Contents(), r) == Cycled(Settings(), old(Contents()), false, outcome, id)
      ensures |old(mempool.txs)| < batcher.minBatch ==> r == None && Contents() == old(Contents())
    {
      r := batcher.TryBatch(outcome, id);
      if r.Some? {
        Record(r.value);
      }
    }

    method ForceCycle(outcome: Outcome, id: nat) returns (r: Option<BatchResult>)
      requires Valid()
      modifies this, mempool, batcher
      ensures Valid()
      ensures (Contents(), r) == Cycled(Settings(), old(Contents()), true, outcome, id)
    {
      r := batcher.ForceBatch(outcome, id);
      if r.Some? {
        Record(r.value);
      }
    }

    method GetBatch(id: nat) returns (r: Option<BatchResult>)
      ensures r.Some? <==> id in batchIndex
      ensures r.Some? ==> r.value == batchIndex[id]
    {
      r := if id in batchIndex then Some(batchIndex[id]) else None;
    }

    method GetTransactionBatch(h: Digest32) returns (r: Option<nat>)
      ensures r.Some? <==> h in txToBatch
      ensures r.Some? ==> r.value == txToBatch[h]
    {
      r := if h in txToBatch then Some(txToBatch[h]) else None;
    }

    /** Newest first, at most `limit`. */
    method GetSenderTransactions(sender: string, limit: nat) returns (r: seq<Digest32>)
      ensures sender !in senderTxs ==> r == []
      ensures sender in senderTxs ==>
                && |r| == Min(limit, |senderTxs[sender]|)
                && forall i | 0 <= i < |r| :: r[i] == senderTxs[sender][|senderTxs[sender]| - 1 - i]
    {
      var ring := if sender in senderTxs then senderTxs[sender] else [];
      r := seq(Min(limit, |ring|), i requires 0 <= i < Min(limit, |ring|) => ring[|ring| - 1 - i]);
    }
  }
}
