/**
 * The node under threads (aggregator/node.py, aggregator/batcher.py): submissions check
 * for replays and add in two locked steps, a cycle drains, returns or records in locked
 * steps, and the steps of all threads interleave.  When that keeps a transaction from
 * being batched twice, and when it does not.
 */
module NodeInterleaving {
  import opened Prelude
  import opened Batch
  import opened Mempool
  import opened Batcher
  import opened QueueMachine
  import opened Node
  import opened NodeIndex
  import opened NodeRuns

  /** The node, what each submitting thread has checked, what each batching thread holds
      (its validly signed transactions), and everything recorded so far. */
  datatype Shared = Shared(
    pool: Pool,
    index: Index,
    checked: seq<Option<Tx>>,
    inFlight: seq<seq<Tx>>,
    emitted: seq<BatchResult>)

  datatype Move =
    | Check(thread: nat, tx: Tx)
    | Add(thread: nat)
    | Drain(thread: nat, force: bool)
    | Return(thread: nat)
    | Record(thread: nat, id: nat, proven: bool)

  ghost function BatchOf(cfg: Config, txs: seq<Tx>, id: nat, proven: bool): BatchResult
    requires txs != []
  {
    BatchResult(Batch(txs, BatchRoot(cfg.crypto, txs), id), proven)
  }

  /** One locked step; a step whose thread is unknown, busy or empty changes nothing. */
  ghost function Next(cfg: Config, s: Shared, move: Move): Shared {
    match move
    case Check(i, tx) =>
      if i < |s.checked| && TxHash(cfg.crypto, tx) !in s.index.txToBatch then s.(checked := s.checked[i := Some(tx)]) else s
    case Add(i) =>
      if i < |s.checked| && s.checked[i].Some? then
        var done := s.checked[i := None];
        match AddResult(cfg.crypto, cfg.capacity, s.pool, s.checked[i].value)
        case Failure(_) => s.(checked := done)
        case Success(p) => s.(pool := p, checked := done)
      else s
    case Drain(t, force) =>
      if t < |s.inFlight| && s.inFlight[t] == [] then
        var n := Drained(cfg, s.pool.txs, force);
        s.(pool := Taken(cfg.crypto, s.pool, n), inFlight := s.inFlight[t := Keep(cfg.crypto, s.pool.txs[..n])])
      else s
    case Return(t) =>
      if t < |s.inFlight| then
        s.(pool := Prepended(cfg.crypto, cfg.capacity, s.pool, s.inFlight[t]), inFlight := s.inFlight[t := []])
      else s
    case Record(t, id, proven) =>
      if t < |s.inFlight| && 1 <= |s.inFlight[t]| <= MAX_BATCH_SIZE then
        var result := BatchOf(cfg, s.inFlight[t], id, proven);
        s.(index := Recorded(cfg.crypto, s.index, result), inFlight := s.inFlight[t := []], emitted := s.emitted + [result])
      else s
  }

  ghost function AfterAll(cfg: Config, s: Shared, moves: seq<Move>): Shared {
    if moves == [] then s else Next(cfg, AfterAll(cfg, s, moves[..|moves| - 1]), moves[|moves| - 1])
  }

  function Initial(submitters: nat, batchers: nat): Shared {
    Shared(Pool([], {}, 0), EMPTY_INDEX, seq(submitters, _ => None), seq(batchers, _ => []), [])
  }

  // ------------------------------------------------------------ what is wanted

  /** Two recorded batches that share a hash are more than 1000 batches apart, and no
      batch holds a hash twice. */
  ghost predicate FarApart(c: Crypto, emitted: seq<BatchResult>) {
    && (forall i, j | 0 <= i < j < |emitted| ::
          HashSet(c, emitted[i].batch.transactions) !! HashSet(c, emitted[j].batch.transactions) || j - i > MAX_HISTORY)
    && forall i | 0 <= i < |emitted| :: NoRepeats(c, emitted[i].batch.transactions)
  }

  /** Queue, batches in flight and retained history are pairwise without a common hash,
      and each is without repeats. */
  ghost predicate Separate(cfg: Config, s: Shared) {
    && Exact(cfg.crypto, s.pool)
    && (forall t | 0 <= t < |s.inFlight| :: Held(cfg.crypto, s, s.inFlight[t]))
    && (forall t, u | 0 <= t < u < |s.inFlight| :: HashSet(cfg.crypto, s.inFlight[t]) !! HashSet(cfg.crypto, s.inFlight[u]))
    && s.pool.hashes !! s.index.txToBatch.Keys
    && Indexed(cfg.crypto, s.index) && s.index.history == LastN(s.emitted, MAX_HISTORY)
    && FarApart(cfg.crypto, s.emitted)
  }

  ghost predicate Held(c: Crypto, s: Shared, txs: seq<Tx>) {
    NoRepeats(c, txs) && HashSet(c, txs) !! s.pool.hashes && HashSet(c, txs) !! s.index.txToBatch.Keys
  }

  /** The hash is neither in flight nor in the retained history. */
  ghost predicate Unheld(cfg: Config, s: Shared, tx: Tx) {
    && TxHash(cfg.crypto, tx) !in s.index.txToBatch
    && forall t | 0 <= t < |s.inFlight| :: TxHash(cfg.crypto, tx) !in HashSet(cfg.crypto, s.inFlight[t])
  }

  ghost predicate Accepts(cfg: Config, s: Shared, thread: nat) {
    thread < |s.checked| && s.checked[thread].Some? && AddResult(cfg.crypto, cfg.capacity, s.pool, s.checked[thread].value).Success?
  }

  /** What excludes double batching: no accepted hash is in flight, nor recorded since its
      replay check; batch ids are fresh. */
  ghost predicate Careful(cfg: Config, s: Shared, move: Move) {
    && (move.Add? && Accepts(cfg, s, move.thread) ==> Unheld(cfg, s, s.checked[move.thread].value))
    && (move.Record? ==> move.id !in s.index.batchIndex)
  }

  ghost predicate CarefulRun(cfg: Config, s: Shared, moves: seq<Move>) {
    forall k | 0 <= k < |moves| :: Careful(cfg, AfterAll(cfg, s, moves[..k]), moves[k])
  }

  // ------------------------------------------------------------ careful runs

  lemma AddKeepsSeparate(cfg: Config, s: Shared, i: nat)
    requires Separate(cfg, s) && Careful(cfg, s, Add(i))
    ensures Separate(cfg, Next(cfg, s, Add(i)))
  {
    hide Exact, NoRepeats, HashSet, Indexed, FarApart, LastN;
    if Accepts(cfg, s, i) {
      var tx := s.checked[i].value;
      AddKeepsExact(cfg.crypto, cfg.capacity, s.pool, tx);
      var s' := Next(cfg, s, Add(i));
      assert s'.pool.hashes == s.pool.hashes + {TxHash(cfg.crypto, tx)};
      forall t | 0 <= t < |s'.inFlight| ensures Held(cfg.crypto, s', s'.inFlight[t]) {
        assert Held(cfg.crypto, s, s.inFlight[t]);
      }
    }
  }

  lemma DrainKeepsSeparate(cfg: Config, s: Shared, t: nat, force: bool)
    requires Separate(cfg, s)
    ensures Separate(cfg, Next(cfg, s, Drain(t, force)))
  {
    hide NoRepeats, HashSet, Indexed, FarApart, LastN, Keep;
    if t < |s.inFlight| && s.inFlight[t] == [] {
      var n := Drained(cfg, s.pool.txs, force);
      var kept := Keep(cfg.crypto, s.pool.txs[..n]);
      var s' := Next(cfg, s, Drain(t, force));
      TakenApart(cfg.crypto, s.pool, n);
      KeepIsSubsequence(cfg.crypto, s.pool.txs[..n]);
      forall u | 0 <= u < |s'.inFlight| ensures Held(cfg.crypto, s', s'.inFlight[u]) {
        assert Held(cfg.crypto, s, s.inFlight[u]);
      }
      forall u, v | 0 <= u < v < |s'.inFlight|
        ensures HashSet(cfg.crypto, s'.inFlight[u]) !! HashSet(cfg.crypto, s'.inFlight[v])
      {
        assert Held(cfg.crypto, s, s.inFlight[u]) && Held(cfg.crypto, s, s.inFlight[v]);
      }
    }
  }

  lemma TakenApart(c: Crypto, p: Pool, n: nat)
    requires Exact(c, p) && n <= |p.txs|
    ensures Exact(c, Taken(c, p, n)) && NoRepeats(c, p.txs[..n])
    ensures HashSet(c, p.txs[..n]) <= p.hashes && HashSet(c, p.txs[..n]) !! Taken(c, p, n).hashes
    ensures Taken(c, p, n).hashes <= p.hashes
  {
    hide NoRepeats, HashSet;
    TakenKeepsExact(c, p, n);
    assert p.txs == p.txs[..n] + p.txs[n..];
    NoRepeatsConcat(c, p.txs[..n], p.txs[n..]);
    HashSetConcat(c, p.txs[..n], p.txs[n..]);
  }

  lemma ReturnKeepsSeparate(cfg: Config, s: Shared, t: nat)
    requires Separate(cfg, s)
    ensures Separate(cfg, Next(cfg, s, Return(t)))
  {
    hide NoRepeats, HashSet, Indexed, FarApart, LastN, Exact;
    if t < |s.inFlight| {
      var txs := s.inFlight[t];
      assert Held(cfg.crypto, s, txs);
      var kept := txs[..Fit(cfg.capacity, |s.pool.txs|, |txs|)];
      PrefixOf(cfg.crypto, txs, |kept|);
      PrependedExactIff(cfg.crypto, cfg.capacity, s.pool, txs);
      var s' := Next(cfg, s, Return(t));
      assert s'.pool.hashes == s.pool.hashes + HashSet(cfg.crypto, kept);
      HashSetEmpty(cfg.crypto);
      NothingRepeats(cfg.crypto);
      forall u | 0 <= u < |s'.inFlight| ensures Held(cfg.crypto, s', s'.inFlight[u]) {
        assert Held(cfg.crypto, s, s.inFlight[u]);
      }
    }
  }

  lemma PrefixOf(c: Crypto, txs: seq<Tx>, n: nat)
    requires n <= |txs|
    ensures HashSet(c, txs[..n]) <= HashSet(c, txs)
    ensures NoRepeats(c, txs) ==> NoRepeats(c, txs[..n])
  {
    hide NoRepeats, HashSet;
    assert txs == txs[..n] + txs[n..];
    NoRepeatsConcat(c, txs[..n], txs[n..]);
    HashSetConcat(c, txs[..n], txs[n..]);
  }

  lemma NothingRepeats(c: Crypto)
    ensures NoRepeats(c, [])
  {
  }

  lemma RecordKeepsSeparate(cfg: Config, s: Shared, t: nat, id: nat, proven: bool)
    requires Separate(cfg, s) && id !in s.index.batchIndex
    ensures Separate(cfg, Next(cfg, s, Record(t, id, proven)))
  {
    hide HashSet, Indexed, FarApart, LastN, Exact, BatchRoot, Recorded, NoRepeats, NewTo;
    if t < |s.inFlight| && 1 <= |s.inFlight[t]| <= MAX_BATCH_SIZE {
      var c, txs := cfg.crypto, s.inFlight[t];
      var result := BatchOf(cfg, txs, id, proven);
      assert Held(c, s, txs);
      HeldIsNew(c, s, result);
      RecordedIndexed(c, s.index, result);
      RecordedKeys(c, s.index, result);
      RingAppend(s.emitted, result, MAX_HISTORY);
      HashSetEmpty(c);
      NothingRepeats(c);
      RecordedApart(c, s.index, s.emitted, result);
      var s' := Next(cfg, s, Record(t, id, proven));
      forall u | 0 <= u < |s'.inFlight| ensures Held(c, s', s'.inFlight[u]) {
        assert Held(c, s, s.inFlight[u]);
      }
    }
  }

  lemma HeldIsNew(c: Crypto, s: Shared, result: BatchResult)
    requires Held(c, s, result.batch.transactions) && result.batch.batchId !in s.index.batchIndex
    ensures NewTo(c, s.index, result)
  {
    hide HashSet;
    KeptIsNew(c, result.batch.transactions, HashSet(c, result.batch.transactions), s.index);
  }

  /** A batch that shares no hash with the retained history is far from every batch that
      does share one with it. */
  lemma RecordedApart(c: Crypto, ix: Index, emitted: seq<BatchResult>, result: BatchResult)
    requires FarApart(c, emitted) && Indexed(c, ix) && ix.history == LastN(emitted, MAX_HISTORY)
    requires NoRepeats(c, result.batch.transactions) && HashSet(c, result.batch.transactions) !! ix.txToBatch.Keys
    ensures FarApart(c, emitted + [result])
  {
    hide Indexed, NoRepeats;
    var all := emitted + [result];
    forall i, j | 0 <= i < j < |all|
      ensures HashSet(c, all[i].batch.transactions) !! HashSet(c, all[j].batch.transactions) || j - i > MAX_HISTORY
    {
      hide HashSet;
      if j == |emitted| && j - i <= MAX_HISTORY {
        var b := i - Max(0, |emitted| - MAX_HISTORY);
        assert ix.history[b] == emitted[i];
        RetainedAreKeys(c, ix, b);
      }
    }
  }

  lemma RetainedAreKeys(c: Crypto, ix: Index, b: nat)
    requires Indexed(c, ix) && b < |ix.history|
    ensures HashSet(c, ix.history[b].batch.transactions) <= ix.txToBatch.Keys
  {
    hide Indexed;
    forall h | h in HashSet(c, ix.history[b].batch.transactions) ensures h in ix.txToBatch {
      var t :| 0 <= t < |ix.history[b].batch.transactions| && h == TxHash(c, ix.history[b].batch.transactions[t]);
      RetainedHashIsIndexed(c, ix, b, t);
    }
  }

  lemma MoveKeepsSeparate(cfg: Config, s: Shared, move: Move)
    requires Separate(cfg, s) && Careful(cfg, s, move)
    ensures Separate(cfg, Next(cfg, s, move))
  {
    hide Exact, HashSet, NoRepeats, Indexed, FarApart, LastN;
    match move
    case Check(i, tx) =>
      forall t | 0 <= t < |s.inFlight| ensures Held(cfg.crypto, Next(cfg, s, move), s.inFlight[t]) {
        assert Held(cfg.crypto, s, s.inFlight[t]);
      }
    case Add(i) => AddKeepsSeparate(cfg, s, i);
    case Drain(t, force) => DrainKeepsSeparate(cfg, s, t, force);
    case Return(t) => ReturnKeepsSeparate(cfg, s, t);
    case Record(t, id, proven) => RecordKeepsSeparate(cfg, s, t, id, proven);
  }

  lemma InitialSeparate(cfg: Config, submitters: nat, batchers: nat)
    ensures Separate(cfg, Initial(submitters, batchers))
  {
    assert forall s: string :: OfSender([], s) == [];
  }

  lemma {:induction false} CarefulRunStaysSeparate(cfg: Config, s: Shared, moves: seq<Move>)
    requires Separate(cfg, s) && CarefulRun(cfg, s, moves)
    ensures Separate(cfg, AfterAll(cfg, s, moves))
  {
    hide Separate, Careful, Next;
    if moves != [] {
      var init := moves[..|moves| - 1];
      forall k | 0 <= k < |init| ensures Careful(cfg, AfterAll(cfg, s, init[..k]), init[k]) {
        assert init[..k] == moves[..k];
      }
      CarefulRunStaysSeparate(cfg, s, init);
      MoveKeepsSeparate(cfg, AfterAll(cfg, s, init), moves[|moves| - 1]);
    }
  }

  /**
   * No double batching under threads.  In every interleaving in which no accepted hash is
   * in flight or recorded since its replay check, the queue, the batches in flight and the
   * retained history share no hash, and a hash returns in the recorded batches only after
   * more than 1000 of them.
   */
  lemma NoDoubleBatchingUnderThreads(cfg: Config, submitters: nat, batchers: nat, moves: seq<Move>)
    requires CarefulRun(cfg, Initial(submitters, batchers), moves)
    ensures var s := AfterAll(cfg, Initial(submitters, batchers), moves);
            Separate(cfg, s) && FarApart(cfg.crypto, s.emitted)
  {
    hide Exact, HashSet, NoRepeats, Indexed, FarApart, LastN, CarefulRun;
    InitialSeparate(cfg, submitters, batchers);
    CarefulRunStaysSeparate(cfg, Initial(submitters, batchers), moves);
  }

  // ------------------------------------------------------------ the converse

  /** One thread drains and records, once for every id. */
  function Rounds(t: nat, ids: seq<nat>): seq<Move> {
    if ids == [] then [] else Rounds(t, ids[..|ids| - 1]) + [Drain(t, true), Record(t, ids[|ids| - 1], false)]
  }

  lemma OneMove(cfg: Config, s: Shared, moves: seq<Move>, move: Move)
    ensures AfterAll(cfg, s, moves + [move]) == Next(cfg, AfterAll(cfg, s, moves), move)
  {
    hide Next;
    assert (moves + [move])[..|moves|] == moves;
  }

  lemma {:induction false} MovesConcat(cfg: Config, s: Shared, a: seq<Move>, b: seq<Move>)
    ensures AfterAll(cfg, s, a + b) == AfterAll(cfg, AfterAll(cfg, s, a), b)
    decreases |b|
  {
    hide Next;
    if b == [] {
      assert a + b == a;
    } else {
      var init := b[..|b| - 1];
      MovesConcat(cfg, s, a, init);
      assert (a + b)[..|a + b| - 1] == a + init;
    }
  }

  lemma TwoMoves(cfg: Config, s: Shared, a: Move, b: Move)
    ensures AfterAll(cfg, s, [a, b]) == Next(cfg, Next(cfg, s, a), b)
  {
    hide Next;
    OneMove(cfg, s, [], a);
    OneMove(cfg, s, [a], b);
    assert [] + [a] == [a] && [a] + [b] == [a, b];
  }

  lemma ThreeMoves(cfg: Config, s: Shared, a: Move, b: Move, x: Move)
    ensures AfterAll(cfg, s, [a, b, x]) == Next(cfg, Next(cfg, Next(cfg, s, a), b), x)
  {
    hide Next;
    TwoMoves(cfg, s, a, b);
    OneMove(cfg, s, [a, b], x);
    assert [a, b] + [x] == [a, b, x];
  }

  lemma FourMoves(cfg: Config, s: Shared, a: Move, b: Move, x: Move, y: Move)
    ensures AfterAll(cfg, s, [a, b, x, y]) == Next(cfg, Next(cfg, Next(cfg, Next(cfg, s, a), b), x), y)
  {
    hide Next;
    OneMove(cfg, s, [], a);
    OneMove(cfg, s, [a], b);
    OneMove(cfg, s, [a, b], x);
    OneMove(cfg, s, [a, b, x], y);
    assert [] + [a] == [a] && [a] + [b] == [a, b] && [a, b] + [x] == [a, b, x] && [a, b, x] + [y] == [a, b, x, y];
  }

  /** What a round of an idle thread does: the front of the queue leaves, and is at most
      one recorded batch. */
  ghost predicate Advanced(s: Shared, t: nat, n: nat, rounds: nat, r: Shared) {
    && t < |r.inFlight| && r.inFlight == s.inFlight && r.checked == s.checked
    && n <= |s.pool.txs| && r.pool.txs == s.pool.txs[n..]
    && |s.emitted| <= |r.emitted| <= |s.emitted| + rounds && r.emitted[..|s.emitted|] == s.emitted
  }

  lemma OneRound(cfg: Config, s: Shared, t: nat, id: nat)
    requires t < |s.inFlight| && s.inFlight[t] == []
    requires cfg.maxBatch <= MAX_BATCH_SIZE && cfg.maxBatch <= |s.pool.txs|
    ensures Advanced(s, t, cfg.maxBatch, 1, Next(cfg, Next(cfg, s, Drain(t, true)), Record(t, id, false)))
  {
    hide BatchRoot, Recorded, HashSet, Keep;
    var s1 := Next(cfg, s, Drain(t, true));
    KeepShrinks(cfg.crypto, s.pool.txs[..cfg.maxBatch]);
    assert s1.inFlight[t := []] == s.inFlight;
    assert s1.pool.txs == s.pool.txs[cfg.maxBatch..];
  }

  lemma {:induction false} RoundsAdvance(cfg: Config, s: Shared, t: nat, ids: seq<nat>)
    requires t < |s.inFlight| && s.inFlight[t] == []
    requires cfg.maxBatch <= MAX_BATCH_SIZE && |ids| * cfg.maxBatch <= |s.pool.txs|
    ensures Advanced(s, t, |ids| * cfg.maxBatch, |ids|, AfterAll(cfg, s, Rounds(t, ids)))
    decreases |ids|
  {
    hide Next;
    if ids != [] {
      var n := |ids| - 1;
      MulSuccessor(n, cfg.maxBatch);
      RoundsAdvance(cfg, s, t, ids[..n]);
      var r := AfterAll(cfg, s, Rounds(t, ids[..n]));
      MovesConcat(cfg, s, Rounds(t, ids[..n]), [Drain(t, true), Record(t, ids[n], false)]);
      TwoMoves(cfg, r, Drain(t, true), Record(t, ids[n], false));
      OneRound(cfg, r, t, ids[n]);
      AdvancedTwice(s, t, n * cfg.maxBatch, n, r, cfg.maxBatch, AfterAll(cfg, s, Rounds(t, ids)));
    }
  }

  lemma MulSuccessor(n: nat, m: nat)
    ensures n * m <= (n + 1) * m == n * m + m
  {
  }

  lemma AdvancedTwice(s: Shared, t: nat, n: nat, rounds: nat, r: Shared, m: nat, x: Shared)
    requires Advanced(s, t, n, rounds, r) && Advanced(r, t, m, 1, x)
    ensures Advanced(s, t, n + m, rounds + 1, x)
  {
    assert x.emitted[..|s.emitted|] == x.emitted[..|r.emitted|][..|s.emitted|];
  }

  /** What is left of a queue after its whole batches. */
  function Behind(q: seq<Tx>, maxBatch: nat): (rest: seq<Tx>)
    requires maxBatch >= 1
    ensures |rest| < maxBatch
  {
    q[|q| - |q| % maxBatch..]
  }

  lemma WholeBatches(n: nat, m: nat, rounds: nat)
    requires m >= 1 && rounds == n / m
    ensures rounds * m == n - n % m
  {
  }

  /** Rounds bring up the transaction at the end of the queue. */
  lemma FrontLeaves(cfg: Config, s: Shared, t: nat, ids: seq<nat>, q: seq<Tx>, tx: Tx)
    requires t < |s.inFlight| && s.inFlight[t] == [] && s.pool.txs == q + [tx]
    requires 1 <= cfg.maxBatch <= MAX_BATCH_SIZE && |ids| == |q| / cfg.maxBatch
    ensures var r := AfterAll(cfg, s, Rounds(t, ids));
            && r.pool.txs == Behind(q, cfg.maxBatch) + [tx] && r.inFlight == s.inFlight
            && |s.emitted| <= |r.emitted| <= |s.emitted| + |ids| && r.emitted[..|s.emitted|] == s.emitted
  {
    hide AfterAll, Rounds;
    WholeBatches(|q|, cfg.maxBatch, |ids|);
    RoundsAdvance(cfg, s, t, ids);
    assert (q + [tx])[|q| - |q| % cfg.maxBatch..] == Behind(q, cfg.maxBatch) + [tx];
  }

  /** The last drain of a queue that fits one batch and ends in tx. */
  lemma LastDrain(cfg: Config, s: Shared, t: nat, rest: seq<Tx>, tx: Tx)
    requires t < |s.inFlight| && s.inFlight[t] == [] && s.pool.txs == rest + [tx]
    requires |rest| < cfg.maxBatch <= MAX_BATCH_SIZE && ValidTx(cfg.crypto, DEFAULT_ALGORITHM, tx)
    ensures var kept := Keep(cfg.crypto, rest + [tx]);
            && 1 <= |kept| <= MAX_BATCH_SIZE && kept[|kept| - 1] == tx
            && Next(cfg, s, Drain(t, true)).inFlight == s.inFlight[t := kept]
            && Next(cfg, s, Drain(t, true)).emitted == s.emitted
  {
    hide HashSet, Keep, ValidTx;
    KeptEndsWith(cfg.crypto, rest, tx);
    assert (rest + [tx])[..DrainCount(rest + [tx], cfg.maxBatch)] == rest + [tx];
  }

  /** The condition is needed.  A transaction is accepted while its hash is in flight.
      When the thread that holds it records, and then drains and records until the
      transaction comes up again, it is recorded twice, with one batch between for every
      maxBatch transactions queued before it. */
  lemma HeldIsBatchedTwice(cfg: Config, s: Shared, i: nat, t: nat, u: nat, id1: nat, ids: seq<nat>, id2: nat)
    requires Accepts(cfg, s, i) && ValidTx(cfg.crypto, DEFAULT_ALGORITHM, s.checked[i].value)
    requires t < |s.inFlight| && |s.inFlight[t]| <= MAX_BATCH_SIZE && u < |s.inFlight[t]|
    requires TxHash(cfg.crypto, s.inFlight[t][u]) == TxHash(cfg.crypto, s.checked[i].value)
    requires 1 <= cfg.maxBatch <= MAX_BATCH_SIZE && |ids| == |s.pool.txs| / cfg.maxBatch < MAX_HISTORY
    ensures !FarApart(cfg.crypto, AfterAll(cfg, s, [Add(i), Record(t, id1, false)] + Rounds(t, ids) + [Drain(t, true), Record(t, id2, false)]).emitted)
  {
    hide BatchRoot, Recorded, Taken, NoRepeats, HashSet, Keep, FarApart, AfterAll, ValidTx, TxHash, Rounds, Behind;
    var c, tx, held, n := cfg.crypto, s.checked[i].value, s.inFlight[t], |s.emitted|;
    var start, finish := [Add(i), Record(t, id1, false)], [Drain(t, true), Record(t, id2, false)];
    MovesConcat(cfg, s, start, Rounds(t, ids));
    MovesConcat(cfg, s, start + Rounds(t, ids), finish);
    TwoMoves(cfg, s, start[0], start[1]);
    var s1 := AfterAll(cfg, s, start);
    FrontLeaves(cfg, s1, t, ids, s.pool.txs, tx);
    var s2, rest := AfterAll(cfg, s1, Rounds(t, ids)), Behind(s.pool.txs, cfg.maxBatch);
    TwoMoves(cfg, s2, finish[0], finish[1]);
    LastDrain(cfg, s2, t, rest, tx);
    var kept := Keep(c, rest + [tx]);
    assert s2.emitted[n] == s1.emitted[n] == BatchOf(cfg, held, id1, false);
    NotApartWithin(c, s2.emitted, n, BatchOf(cfg, kept, id2, false), u, |kept| - 1);
  }

  /** With a second batching thread, idle, however long the queue: it drains and records
      what is before the transaction, and takes the batch with it; the first thread
      records what it held, and then the second.  The two batches are neighbours. */
  lemma HeldIsBatchedTwiceInARow(cfg: Config, s: Shared, i: nat, t: nat, v: nat, u: nat, ids: seq<nat>, id1: nat, id2: nat)
    requires Accepts(cfg, s, i) && ValidTx(cfg.crypto, DEFAULT_ALGORITHM, s.checked[i].value)
    requires t < |s.inFlight| && |s.inFlight[t]| <= MAX_BATCH_SIZE && u < |s.inFlight[t]|
    requires TxHash(cfg.crypto, s.inFlight[t][u]) == TxHash(cfg.crypto, s.checked[i].value)
    requires v < |s.inFlight| && v != t && s.inFlight[v] == []
    requires 1 <= cfg.maxBatch <= MAX_BATCH_SIZE && |ids| == |s.pool.txs| / cfg.maxBatch
    ensures !FarApart(cfg.crypto, AfterAll(cfg, s, [Add(i)] + Rounds(v, ids) + [Drain(v, true), Record(t, id1, false), Record(v, id2, false)]).emitted)
  {
    hide BatchRoot, Recorded, Taken, NoRepeats, HashSet, Keep, FarApart, AfterAll, ValidTx, TxHash, Rounds, Behind;
    var c, tx, held := cfg.crypto, s.checked[i].value, s.inFlight[t];
    var finish := [Drain(v, true), Record(t, id1, false), Record(v, id2, false)];
    AddThenFront(cfg, s, i, v, ids);
    var s2, rest := AfterAll(cfg, s, [Add(i)] + Rounds(v, ids)), Behind(s.pool.txs, cfg.maxBatch);
    MovesConcat(cfg, s, [Add(i)] + Rounds(v, ids), finish);
    ThreeMoves(cfg, s2, finish[0], finish[1], finish[2]);
    LastDrain(cfg, s2, v, rest, tx);
    var kept := Keep(c, rest + [tx]);
    NotApartWithin(c, s2.emitted + [BatchOf(cfg, held, id1, false)], |s2.emitted|, BatchOf(cfg, kept, id2, false), u, |kept| - 1);
  }

  /** The accepted transaction brought up by an idle thread. */
  lemma AddThenFront(cfg: Config, s: Shared, i: nat, v: nat, ids: seq<nat>)
    requires Accepts(cfg, s, i) && v < |s.inFlight| && s.inFlight[v] == []
    requires 1 <= cfg.maxBatch <= MAX_BATCH_SIZE && |ids| == |s.pool.txs| / cfg.maxBatch
    ensures var r := AfterAll(cfg, s, [Add(i)] + Rounds(v, ids));
            && r.pool.txs == Behind(s.pool.txs, cfg.maxBatch) + [s.checked[i].value] && r.inFlight == s.inFlight
            && |s.emitted| <= |r.emitted| <= |s.emitted| + |ids| && r.emitted[..|s.emitted|] == s.emitted
  {
    hide AfterAll, Rounds, Behind, TxHash;
    OneMove(cfg, s, [], Add(i));
    NoMoves(cfg, s);
    assert [] + [Add(i)] == [Add(i)];
    MovesConcat(cfg, s, [Add(i)], Rounds(v, ids));
    FrontLeaves(cfg, Next(cfg, s, Add(i)), v, ids, s.pool.txs, s.checked[i].value);
  }

  lemma KeptEndsWith(c: Crypto, txs: seq<Tx>, tx: Tx)
    requires ValidTx(c, DEFAULT_ALGORITHM, tx)
    ensures var kept := Keep(c, txs + [tx]); 1 <= |kept| <= |txs| + 1 && kept[|kept| - 1] == tx
  {
    hide ValidTx;
    KeepConcat(c, txs, [tx]);
    ValidOnlyIdentity(c, DEFAULT_ALGORITHM, [tx]);
    ValidOnlyAllValid(c, DEFAULT_ALGORITHM, txs);
  }

  /** So is its other half: a transaction accepted although its hash was recorded after its
      replay check is batched again at most MAX_HISTORY batches later, if no more batches
      than that are recorded before its turn. */
  lemma StaleIsBatchedTwice(cfg: Config, s: Shared, i: nat, b: nat, u: nat, t: nat, ids: seq<nat>, id: nat)
    requires Separate(cfg, s) && Accepts(cfg, s, i) && ValidTx(cfg.crypto, DEFAULT_ALGORITHM, s.checked[i].value)
    requires b < |s.index.history| && u < |s.index.history[b].batch.transactions|
    requires TxHash(cfg.crypto, s.index.history[b].batch.transactions[u]) == TxHash(cfg.crypto, s.checked[i].value)
    requires t < |s.inFlight| && s.inFlight[t] == []
    requires 1 <= cfg.maxBatch <= MAX_BATCH_SIZE && |ids| == |s.pool.txs| / cfg.maxBatch
    requires |s.index.history| - b + |ids| <= MAX_HISTORY
    ensures !FarApart(cfg.crypto, AfterAll(cfg, s, [Add(i)] + Rounds(t, ids) + [Drain(t, true), Record(t, id, false)]).emitted)
  {
    hide BatchRoot, Recorded, Taken, NoRepeats, HashSet, Keep, FarApart, AfterAll, Indexed, ValidTx, TxHash, Rounds, Behind;
    var c, tx := cfg.crypto, s.checked[i].value;
    AddThenFront(cfg, s, i, t, ids);
    var s2, rest := AfterAll(cfg, s, [Add(i)] + Rounds(t, ids)), Behind(s.pool.txs, cfg.maxBatch);
    MovesConcat(cfg, s, [Add(i)] + Rounds(t, ids), [Drain(t, true), Record(t, id, false)]);
    TwoMoves(cfg, s2, Drain(t, true), Record(t, id, false));
    LastDrain(cfg, s2, t, rest, tx);
    var kept := Keep(c, rest + [tx]);
    var first := b + |s.emitted| - |s.index.history|;
    assert s2.emitted[first] == s.emitted[first] == s.index.history[b];
    NotApartWithin(c, s2.emitted, first, BatchOf(cfg, kept, id, false), u, |kept| - 1);
  }

  lemma NoMoves(cfg: Config, s: Shared)
    ensures AfterAll(cfg, s, []) == s
  {
  }

  lemma NotApartWithin(c: Crypto, emitted: seq<BatchResult>, i: nat, b: BatchResult, t: nat, u: nat)
    requires i < |emitted| <= i + MAX_HISTORY
    requires t < |emitted[i].batch.transactions| && u < |b.batch.transactions|
    requires TxHash(c, emitted[i].batch.transactions[t]) == TxHash(c, b.batch.transactions[u])
    ensures !FarApart(c, emitted + [b])
  {
    var all, n := emitted + [b], |emitted|;
    var h := TxHash(c, emitted[i].batch.transactions[t]);
    assert all[i] == emitted[i] && all[n] == b;
    assert h in HashSet(c, all[i].batch.transactions) && h in HashSet(c, b.batch.transactions);
  }

  /** Such a state is reachable: submit, drain, and submit again while the prover works. */
  lemma HeldIsReachable(cfg: Config, tx: Tx)
    requires ValidConfig(cfg) && ValidTx(cfg.crypto, DEFAULT_ALGORITHM, tx)
    ensures var s := AfterAll(cfg, Initial(1, 1), [Check(0, tx), Add(0), Drain(0, true), Check(0, tx)]);
            Accepts(cfg, s, 0) && s.checked[0] == Some(tx) && s.inFlight == [[tx]] && s.pool.txs == [] && s.emitted == []
  {
    hide HashSet, Keep, ValidTx, TxHash, AfterAll;
    var c := cfg.crypto;
    FourMoves(cfg, Initial(1, 1), Check(0, tx), Add(0), Drain(0, true), Check(0, tx));
    HashSetCons(c, tx, []);
    SignedIfValid(c, tx);
    KeepSingle(c, tx);
    assert [] + [tx] == [tx] && [tx][..1] == [tx] && [tx][1..] == [];
    var s1 := Next(cfg, Initial(1, 1), Check(0, tx));
    assert s1 == Initial(1, 1).(checked := [Some(tx)]);
    var s2 := Next(cfg, s1, Add(0));
    assert s2.pool.txs == [tx] && s2.pool.hashes == {TxHash(c, tx)} && s2.checked == [None] && s2.inFlight == [[]];
    assert DrainCount([tx], cfg.maxBatch) == 1;
    var s3 := Next(cfg, s2, Drain(0, true));
    assert s3.inFlight == [[tx]] && s3.pool.txs == [] && s3.pool.hashes == {} && s3.checked == [None];
    var s4 := Next(cfg, s3, Check(0, tx));
    assert s4.checked == [Some(tx)] && s4.checked[0] == Some(tx) && s4 == s3.(checked := [Some(tx)]);
    assert AddResult(c, cfg.capacity, s4.pool, tx).Success?;
  }

  /** So is a state with a stale check: two threads check one transaction, and one of them
      has it added, drained and recorded before the other adds. */
  lemma StaleIsReachable(cfg: Config, tx: Tx, id: nat)
    requires ValidConfig(cfg) && ValidTx(cfg.crypto, DEFAULT_ALGORITHM, tx)
    ensures var s := AfterAll(cfg, Initial(2, 1), [Check(0, tx), Check(1, tx)] + [Add(1), Drain(0, true), Record(0, id, false)]);
            && Separate(cfg, s) && Accepts(cfg, s, 0) && s.checked[0] == Some(tx)
            && s.index.history == s.emitted == [BatchOf(cfg, [tx], id, false)]
            && s.inFlight == [[]] && s.pool.txs == []
  {
    hide HashSet, Keep, ValidTx, TxHash, AfterAll, Separate, BatchRoot, Recorded;
    var s0 := Initial(2, 1);
    MovesConcat(cfg, s0, [Check(0, tx), Check(1, tx)], [Add(1), Drain(0, true), Record(0, id, false)]);
    TwoMoves(cfg, s0, Check(0, tx), Check(1, tx));
    InitialSeparate(cfg, 2, 1);
    MoveKeepsSeparate(cfg, s0, Check(0, tx));
    MoveKeepsSeparate(cfg, Next(cfg, s0, Check(0, tx)), Check(1, tx));
    var s1 := Next(cfg, Next(cfg, s0, Check(0, tx)), Check(1, tx));
    assert s1 == s0.(checked := [Some(tx), Some(tx)]);
    ThreeMoves(cfg, s1, Add(1), Drain(0, true), Record(0, id, false));
    AddAndDrain(cfg, s1, tx);
    RecordKeepsSeparate(cfg, Next(cfg, Next(cfg, s1, Add(1)), Drain(0, true)), 0, id, false);
    RecordedFirst(cfg.crypto, BatchOf(cfg, [tx], id, false));
    SignedIfValid(cfg.crypto, tx);
  }

  lemma AddAndDrain(cfg: Config, s: Shared, tx: Tx)
    requires ValidConfig(cfg) && ValidTx(cfg.crypto, DEFAULT_ALGORITHM, tx) && Separate(cfg, s)
    requires s == Initial(2, 1).(checked := [Some(tx), Some(tx)])
    ensures var r := Next(cfg, Next(cfg, s, Add(1)), Drain(0, true));
            Separate(cfg, r) && r == Shared(Pool([], {}, 0), EMPTY_INDEX, [Some(tx), None], [[tx]], [])
  {
    hide HashSet, Keep, ValidTx, TxHash, Separate;
    var c := cfg.crypto;
    HashSetCons(c, tx, []);
    HashSetEmpty(c);
    SignedIfValid(c, tx);
    KeepSingle(c, tx);
    assert [] + [tx] == [tx] && [tx][..1] == [tx] && [tx][1..] == [];
    AddKeepsSeparate(cfg, s, 1);
    var s2 := Next(cfg, s, Add(1));
    assert s2 == s.(pool := Pool([tx], {TxHash(c, tx)}, 0), checked := [Some(tx), None]);
    assert DrainCount([tx], cfg.maxBatch) == 1;
    DrainKeepsSeparate(cfg, s2, 0, true);
  }

  lemma RecordedFirst(c: Crypto, result: BatchResult)
    ensures Recorded(c, EMPTY_INDEX, result).history == [result]
  {
  }

  lemma SignedIfValid(c: Crypto, tx: Tx)
    requires ValidTx(c, DEFAULT_ALGORITHM, tx)
    ensures tx.signature.Some?
  {
  }

  lemma KeepSingle(c: Crypto, tx: Tx)
    requires ValidTx(c, DEFAULT_ALGORITHM, tx)
    ensures Keep(c, [tx]) == [tx]
  {
    ValidOnlyIdentity(c, DEFAULT_ALGORITHM, [tx]);
  }
}
