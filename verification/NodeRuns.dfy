/**
 * Whole sequential runs of the node: any sequence of submissions and cycles, any
 * prover behaviour.
 */
module NodeRuns {
  import opened Bytes
  import opened Prelude
  import opened Batch
  import opened Mempool
  import opened Batcher
  import opened QueueMachine
  import opened Node
  import opened NodeIndex

  datatype Event =
    | Submit(tx: Tx)
    | Tick(force: bool, outcome: Outcome, id: nat)

  /** The node after a run, with what it accepted and emitted on the way, and how
      many accepted transactions have been drained at least once. */
  datatype Run = Run(node: NodeState, accepted: seq<Tx>, emitted: seq<BatchResult>, examined: nat)

  const START: Run := Run(NodeState(State(Pool([], {}, 0), map[]), EMPTY_INDEX, Stats(0, 0, 0, 0)), [], [], 0)

  ghost function Step(cfg: Config, r: Run, ev: Event): Run {
    match ev
    case Submit(tx) =>
      (match Submitted(cfg, r.node, tx)
       case Failure(_) => r
       case Success(node) => r.(node := node, accepted := r.accepted + [tx]))
    case Tick(force, outcome, id) =>
      var (node, result) := Cycled(cfg, r.node, force, outcome, id);
      var queue := r.node.core.pool.txs;
      Run(node, r.accepted,
          if result.Some? then r.emitted + [result.value] else r.emitted,
          Examined(|r.accepted|, |queue|, r.examined, Drained(cfg, queue, force)))
  }

  ghost function After(cfg: Config, events: seq<Event>): Run {
    if events == [] then START
    else Step(cfg, After(cfg, events[..|events| - 1]), events[|events| - 1])
  }

  /** The emitted transactions, batch after batch. */
  function Outputs(emitted: seq<BatchResult>): seq<Tx> {
    if emitted == [] then []
    else Outputs(emitted[..|emitted| - 1]) + emitted[|emitted| - 1].batch.transactions
  }

  function Proofs(emitted: seq<BatchResult>): nat {
    if emitted == [] then 0
    else Proofs(emitted[..|emitted| - 1]) + if emitted[|emitted| - 1].proven then 1 else 0
  }

  // ------------------------------------------------------------ conservation

  /** The statistics are the totals over the whole run. */
  ghost predicate Tallied(r: Run) {
    r.node.stats == Stats(|r.accepted|, |Outputs(r.emitted)|, |r.emitted|, Proofs(r.emitted))
  }

  ghost predicate WellMade(c: Crypto, b: Batch) {
    && 1 <= |b.transactions| <= MAX_BATCH_SIZE
    && b.merkleRoot == BatchRoot(c, b.transactions)
  }

  /** What every run keeps. */
  ghost predicate Healthy(cfg: Config, r: Run) {
    && Sound(cfg, r.node.core.pool)
    && r.node.core.pool.dropped == 0
    && RetriesInRange(r.node.core.retries)
    && Conserved(cfg.crypto, r.accepted, r.examined, Outputs(r.emitted), r.node.core.pool.txs)
    && Tallied(r)
    && forall i | 0 <= i < |r.emitted| :: WellMade(cfg.crypto, r.emitted[i].batch)
  }

  lemma OutputsGrow(emitted: seq<BatchResult>, result: BatchResult)
    ensures Outputs(emitted + [result]) == Outputs(emitted) + result.batch.transactions
    ensures Proofs(emitted + [result]) == Proofs(emitted) + if result.proven then 1 else 0
  {
    assert (emitted + [result])[..|emitted|] == emitted;
  }

  lemma TurnKeepsRange(c: Crypto, q: seq<Tx>, m: Retries, n: nat, outcome: Outcome)
    requires n <= |q| && RetriesInRange(m)
    ensures RetriesInRange(Turn(c, q, m, n, outcome).retries)
  {
    hide RetriesInRange, Keep, BatchRoot, Judge, NextRetries;
    var valid := Keep(c, q[..n]);
    if valid != [] {
      RetriesStayInRange(m, BatchRoot(c, valid), outcome);
    }
  }

  lemma CycleIsHealthy(cfg: Config, r: Run, force: bool, outcome: Outcome, id: nat)
    requires Healthy(cfg, r)
    ensures Healthy(cfg, Step(cfg, r, Tick(force, outcome, id)))
  {
    hide Sound, Conserved, RetriesInRange, Cycle, Turn, BatchRoot, Outputs, Proofs;
    var q, m := r.node.core.pool.txs, r.node.core.retries;
    var n := Drained(cfg, q, force);
    CycleRefinesTurn(cfg, r.node.core, force, outcome, id);
    TurnConserves(cfg.crypto, r.accepted, r.examined, Outputs(r.emitted), q, m, n, outcome);
    TurnKeepsRange(cfg.crypto, q, m, n, outcome);
    var t := Turn(cfg.crypto, q, m, n, outcome);
    var (_, result) := Cycled(cfg, r.node, force, outcome, id);
    if result.Some? {
      OutputsGrow(r.emitted, result.value);
    } else {
      assert Outputs(r.emitted) + [] == Outputs(r.emitted);
    }
  }

  lemma SubmitIsHealthy(cfg: Config, r: Run, tx: Tx)
    requires Healthy(cfg, r)
    ensures Healthy(cfg, Step(cfg, r, Submit(tx)))
  {
    hide RetriesInRange, Conserved, Exact, Outputs, Proofs;
    if Submitted(cfg, r.node, tx).Success? {
      AddKeepsExact(cfg.crypto, cfg.capacity, r.node.core.pool, tx);
      SubmitConserves(cfg.crypto, r.accepted, r.examined, Outputs(r.emitted), r.node.core.pool.txs, tx);
    }
  }

  lemma StartIsHealthy(cfg: Config)
    ensures Healthy(cfg, START)
  {
  }

  /** Every run is healthy. */
  lemma {:induction false} RunsAreHealthy(cfg: Config, events: seq<Event>)
    ensures Healthy(cfg, After(cfg, events))
  {
    hide Healthy, Step;
    if events == [] {
      StartIsHealthy(cfg);
    } else {
      var init := events[..|events| - 1];
      RunsAreHealthy(cfg, init);
      match events[|events| - 1]
      case Submit(tx) => SubmitIsHealthy(cfg, After(cfg, init), tx);
      case Tick(force, outcome, id) => CycleIsHealthy(cfg, After(cfg, init), force, outcome, id);
    }
  }

  /**
   * FIFO conservation.  In every run, the emitted transactions followed by the
   * queue are the valid ones among the accepted transactions drained so far,
   * followed by the accepted transactions not yet drained, in order of acceptance;
   * prepend_batch has dropped nothing, and the statistics are exact.
   */
  lemma FifoConservation(cfg: Config, events: seq<Event>)
    ensures var r := After(cfg, events);
            && r.examined <= |r.accepted|
            && Outputs(r.emitted) + r.node.core.pool.txs
               == Keep(cfg.crypto, r.accepted[..r.examined]) + r.accepted[r.examined..]
            && Outputs(r.emitted) <= Keep(cfg.crypto, r.accepted)
            && r.node.core.pool.dropped == 0
            && Tallied(r)
  {
    hide Outputs, Keep, Proofs, After, Sound, RetriesInRange, WellMade;
    RunsAreHealthy(cfg, events);
    var r := After(cfg, events);
    var q, e := r.node.core.pool.txs, r.examined;
    var checked := |q| - (|r.accepted| - e);
    assert q == q[..checked] + q[checked..];
    ConcatAssociates(Outputs(r.emitted), q[..checked], q[checked..]);
    assert r.accepted == r.accepted[..e] + r.accepted[e..];
    KeepConcat(cfg.crypto, r.accepted[..e], r.accepted[e..]);
  }

  // ------------------------------------------------------------ the index

  /** The cycle identifiers of a run are all different (they are fresh UUIDs). */
  ghost predicate UniqueIds(events: seq<Event>) {
    forall i, j | 0 <= i < j < |events| && events[i].Tick? && events[j].Tick? :: events[i].id != events[j].id
  }

  ghost predicate IdsFrom(events: seq<Event>, ix: Index) {
    forall id | id in ix.batchIndex :: exists i :: 0 <= i < |events| && events[i].Tick? && events[i].id == id
  }

  /** The indexes match the history, which is the last 1000 results, and nothing
      pending is in it. */
  ghost predicate Consistent(cfg: Config, r: Run) {
    && Indexed(cfg.crypto, r.node.index)
    && r.node.index.history == LastN(r.emitted, MAX_HISTORY)
    && r.node.core.pool.hashes !! r.node.index.txToBatch.Keys
  }

  lemma {:induction false} WithTxsKeys(c: Crypto, ix: Index, txs: seq<Tx>, id: nat)
    ensures WithTxs(c, ix, txs, id).txToBatch.Keys == ix.txToBatch.Keys + HashSet(c, txs)
  {
    if txs == [] {
    } else {
      var init, last := txs[..|txs| - 1], txs[|txs| - 1];
      WithTxsKeys(c, ix, init, id);
      assert txs == init + [last];
      HashSetConcat(c, init, [last]);
      HashSetCons(c, last, []);
    }
  }

  lemma RecordedKeys(c: Crypto, ix: Index, result: BatchResult)
    requires Indexed(c, ix)
    ensures Recorded(c, ix, result).txToBatch.Keys <= ix.txToBatch.Keys + HashSet(c, result.batch.transactions)
    ensures Recorded(c, ix, result).batchIndex.Keys <= ix.batchIndex.Keys + {result.batch.batchId}
  {
    hide Indexed, HashSet, WithTxs, Evicted;
    var base := if |ix.history| == MAX_HISTORY then Evicted(c, ix) else ix;
    if |ix.history| == MAX_HISTORY {
      EvictionOnlyForgets(c, ix);
    }
    var id := result.batch.batchId;
    WithTxsKeys(c, base.(history := base.history + [result], batchIndex := base.batchIndex[id := result]),
                result.batch.transactions, id);
  }

  /** An emitted batch is new to the index, and leaves the pool disjoint from it. */
  lemma EmittedIsNew(cfg: Config, r: Run, force: bool, outcome: Outcome, id: nat)
    requires Sound(cfg, r.node.core.pool) && Consistent(cfg, r) && id !in r.node.index.batchIndex
    ensures var (core, result) := Cycle(cfg, r.node.core, force, outcome, id);
            && core.pool.hashes <= r.node.core.pool.hashes
            && (result.Some? ==>
                  && NewTo(cfg.crypto, r.node.index, result.value)
                  && HashSet(cfg.crypto, result.value.batch.transactions) <= r.node.core.pool.hashes
                  && HashSet(cfg.crypto, result.value.batch.transactions) !! core.pool.hashes)
  {
    hide Indexed, BatchRoot, Keep, HashSet;
    var c, p := cfg.crypto, r.node.core.pool;
    var n := Drained(cfg, p.txs, force);
    var head := p.txs[..n];
    TakenIsSound(cfg, p, n);
    ReturnIsSound(cfg, p, n);
    KeepIsSubsequence(c, head);
    HashSetSplit(c, p.txs, n);
    HashSetConcat(c, Keep(c, head), p.txs[n..]);
    KeptIsNew(c, Keep(c, head), p.hashes, r.node.index);
  }

  lemma KeptIsNew(c: Crypto, txs: seq<Tx>, hashes: set<Digest32>, ix: Index)
    requires HashSet(c, txs) <= hashes && hashes !! ix.txToBatch.Keys
    ensures forall i | 0 <= i < |txs| :: TxHash(c, txs[i]) !in ix.txToBatch
  {
    forall i | 0 <= i < |txs|
      ensures TxHash(c, txs[i]) !in ix.txToBatch
    {
      assert TxHash(c, txs[i]) in HashSet(c, txs);
    }
  }

  lemma CycleIsConsistent(cfg: Config, r: Run, force: bool, outcome: Outcome, id: nat)
    requires Sound(cfg, r.node.core.pool) && Consistent(cfg, r) && id !in r.node.index.batchIndex
    ensures Consistent(cfg, Step(cfg, r, Tick(force, outcome, id)))
    ensures Step(cfg, r, Tick(force, outcome, id)).node.index.batchIndex.Keys <= r.node.index.batchIndex.Keys + {id}
  {
    hide Indexed, Sound, NewTo, HashSet, Recorded, Cycle, LastN, BatchRoot, Turn;
    EmittedIsNew(cfg, r, force, outcome, id);
    CycleRefinesTurn(cfg, r.node.core, force, outcome, id);
    var (core, result) := Cycle(cfg, r.node.core, force, outcome, id);
    if result.Some? {
      RecordedIndexed(cfg.crypto, r.node.index, result.value);
      RecordedKeys(cfg.crypto, r.node.index, result.value);
      RingAppend(r.emitted, result.value, MAX_HISTORY);
    }
  }

  lemma SubmitIsConsistent(cfg: Config, r: Run, tx: Tx)
    requires Consistent(cfg, r)
    ensures Consistent(cfg, Step(cfg, r, Submit(tx)))
    ensures Step(cfg, r, Submit(tx)).node.index == r.node.index
  {
    hide Indexed, LastN;
  }

  lemma StartIsConsistent(cfg: Config)
    ensures Consistent(cfg, START)
  {
    assert forall s: string :: OfSender([], s) == [];
  }

  lemma {:induction false} RunsAreConsistent(cfg: Config, events: seq<Event>)
    requires UniqueIds(events)
    ensures Consistent(cfg, After(cfg, events))
    ensures IdsFrom(events, After(cfg, events).node.index)
  {
    hide Consistent, Step, Healthy;
    if events == [] {
      StartIsConsistent(cfg);
    } else {
      var init, last := events[..|events| - 1], events[|events| - 1];
      RunsAreConsistent(cfg, init);
      var r := After(cfg, init);
      match last
      case Submit(tx) =>
        SubmitIsConsistent(cfg, r, tx);
        EarlierIds(events, r.node.index);
      case Tick(force, outcome, id) =>
        RunIsSound(cfg, init);
        IdUnused(events, r.node.index);
        CycleIsConsistent(cfg, r, force, outcome, id);
        EarlierIds(events, r.node.index);
        assert events[|events| - 1].id == id;
    }
  }

  lemma RunIsSound(cfg: Config, events: seq<Event>)
    ensures Sound(cfg, After(cfg, events).node.core.pool)
  {
    RunsAreHealthy(cfg, events);
  }

  lemma EarlierIds(events: seq<Event>, ix: Index)
    requires events != [] && IdsFrom(events[..|events| - 1], ix)
    ensures IdsFrom(events, ix)
  {
    forall id | id in ix.batchIndex
      ensures exists i :: 0 <= i < |events| && events[i].Tick? && events[i].id == id
    {
      var i :| 0 <= i < |events| - 1 && events[..|events| - 1][i].Tick? && events[..|events| - 1][i].id == id;
      assert events[i].Tick? && events[i].id == id;
    }
  }

  lemma IdUnused(events: seq<Event>, ix: Index)
    requires events != [] && UniqueIds(events) && events[|events| - 1].Tick?
    requires IdsFrom(events[..|events| - 1], ix)
    ensures events[|events| - 1].id !in ix.batchIndex
  {
  }

  /**
   * No double batching.  In every run with fresh batch ids: the hash set is the set
   * of queued hashes, no hash is queued twice, nothing pending is in the retained
   * history, every index is the one the retained history determines, and that
   * history is the last 1000 results.
   */
  lemma NoDoubleBatching(cfg: Config, events: seq<Event>)
    requires UniqueIds(events)
    ensures var r := After(cfg, events);
            && r.node.core.pool.hashes == HashSet(cfg.crypto, r.node.core.pool.txs)
            && NoRepeats(cfg.crypto, r.node.core.pool.txs)
            && (forall i | 0 <= i < |r.node.core.pool.txs| ::
                  TxHash(cfg.crypto, r.node.core.pool.txs[i]) !in r.node.index.txToBatch)
            && Indexed(cfg.crypto, r.node.index)
            && r.node.index.history == LastN(r.emitted, MAX_HISTORY)
  {
    RunIsSound(cfg, events);
    RunsAreConsistent(cfg, events);
    var r := After(cfg, events);
    KeptIsNew(cfg.crypto, r.node.core.pool.txs, r.node.core.pool.hashes, r.node.index);
  }

  /** What the node remembers is bounded, in every run: the last 1000 batches, one id each,
      at most 3000 hashes for each, and non-empty rings of at most 500 hashes. */
  lemma MemoryIsBounded(cfg: Config, events: seq<Event>)
    requires UniqueIds(events)
    ensures var r := After(cfg, events);
            var ix := r.node.index;
            && |ix.history| == |ix.batchIndex| == Min(|r.emitted|, 1000)
            && |ix.txToBatch| <= 3000 * |ix.history|
            && forall s | s in ix.senderTxs :: 1 <= |ix.senderTxs[s]| <= 500
  {
    hide BatchRoot, Sound, RetriesInRange, Conserved, Tallied, TxMap, BatchMap, Entries, OfSender, DistinctHashes, DistinctIds, After;
    RunsAreHealthy(cfg, events);
    RunsAreConsistent(cfg, events);
    var r := After(cfg, events);
    var history := r.node.index.history;
    TxMapSize(Entries(cfg.crypto, history));
    BatchMapSize(history);
    forall b | 0 <= b < |history| ensures |history[b].batch.transactions| <= MAX_BATCH_SIZE {
      assert history[b] == r.emitted[b + |r.emitted| - |history|];
    }
    EntriesSize(cfg.crypto, history);
  }

  /** The hash of a transaction of a retained batch is in the transaction map. */
  lemma RetainedHashIsIndexed(c: Crypto, ix: Index, b: nat, t: nat)
    requires Indexed(c, ix) && b < |ix.history| && t < |ix.history[b].batch.transactions|
    ensures TxHash(c, ix.history[b].batch.transactions[t]) in ix.txToBatch
  {
    LookupsAgree(c, ix, b, t);
  }

  /**
   * Replay protection over whole runs: two emitted batches that share a transaction
   * hash are more than MAX_HISTORY batches apart.
   */
  lemma {:induction false} RepeatsAreFarApart(cfg: Config, events: seq<Event>, i: nat, j: nat, t: nat, u: nat)
    requires UniqueIds(events)
    requires i < j < |After(cfg, events).emitted|
    requires t < |After(cfg, events).emitted[i].batch.transactions| && u < |After(cfg, events).emitted[j].batch.transactions|
    requires TxHash(cfg.crypto, After(cfg, events).emitted[i].batch.transactions[t])
          == TxHash(cfg.crypto, After(cfg, events).emitted[j].batch.transactions[u])
    ensures j - i > 1000
    decreases |events|
  {
    hide After, TxHash, UniqueIds;
    EmittedGrows(cfg, events);
    FewerIds(events);
    var init := events[..|events| - 1];
    var r := After(cfg, init);
    if j < |r.emitted| {
      RepeatsAreFarApart(cfg, init, i, j, t, u);
    } else {
      LastIsNew(cfg, events, i, t, u);
    }
  }

  lemma EmittedGrows(cfg: Config, events: seq<Event>)
    ensures events == [] ==> After(cfg, events).emitted == []
    ensures events != [] ==>
      var before, now := After(cfg, events[..|events| - 1]).emitted, After(cfg, events).emitted;
      now == before || (events[|events| - 1].Tick? && |now| == |before| + 1 && now[..|before|] == before)
  {
    hide Cycled, Submitted;
  }

  lemma LastIsNew(cfg: Config, events: seq<Event>, i: nat, t: nat, u: nat)
    requires events != [] && UniqueIds(events) && events[|events| - 1].Tick?
    requires |After(cfg, events).emitted| == |After(cfg, events[..|events| - 1]).emitted| + 1
    requires i < |After(cfg, events).emitted| - 1
    requires t < |After(cfg, events).emitted[i].batch.transactions|
    requires var e := After(cfg, events).emitted; u < |e[|e| - 1].batch.transactions|
    requires var e := After(cfg, events).emitted;
             TxHash(cfg.crypto, e[i].batch.transactions[t]) == TxHash(cfg.crypto, e[|e| - 1].batch.transactions[u])
    ensures |After(cfg, events).emitted| - 1 - i > MAX_HISTORY
  {
    hide Consistent, Sound, Step, TxHash, UniqueIds;
    var init := events[..|events| - 1];
    var r, last := After(cfg, init), events[|events| - 1];
    RunIsSound(cfg, init);
    assert UniqueIds(init) by { FewerIds(events); }
    RunsAreConsistent(cfg, init);
    IdUnused(events, r.node.index);
    NextIsNew(cfg, r, last.force, last.outcome, last.id, i, t, u);
  }

  lemma FewerIds(events: seq<Event>)
    requires events != [] && UniqueIds(events)
    ensures UniqueIds(events[..|events| - 1])
  {
  }

  /** A batch emitted next shares no hash with the last MAX_HISTORY batches. */
  lemma NextIsNew(cfg: Config, r: Run, force: bool, outcome: Outcome, id: nat, i: nat, t: nat, u: nat)
    requires Sound(cfg, r.node.core.pool) && Consistent(cfg, r) && id !in r.node.index.batchIndex
    requires var e := Step(cfg, r, Tick(force, outcome, id)).emitted;
             && i < |r.emitted| == |e| - 1 && t < |e[i].batch.transactions| && u < |e[|e| - 1].batch.transactions|
             && TxHash(cfg.crypto, e[i].batch.transactions[t]) == TxHash(cfg.crypto, e[|e| - 1].batch.transactions[u])
    ensures |r.emitted| - i > MAX_HISTORY
  {
    hide Indexed, Cycle, Recorded, Sound, HashSet;
    EmittedIsNew(cfg, r, force, outcome, id);
    var b := i - Max(0, |r.emitted| - MAX_HISTORY);
    if b >= 0 {
      assert r.node.index.history[b] == r.emitted[i];
      RetainedHashIsIndexed(cfg.crypto, r.node.index, b, t);
    }
  }

  // ------------------------------------------------------------ quiescence

  ghost function ForcedEvents(outcomes: seq<Outcome>, ids: seq<nat>): (es: seq<Event>)
    requires |outcomes| == |ids|
    ensures |es| == |outcomes|
  {
    seq(|outcomes|, i requires 0 <= i < |outcomes| => Tick(true, outcomes[i], ids[i]))
  }

  lemma {:induction false} ForcedRun(cfg: Config, events: seq<Event>, outcomes: seq<Outcome>, ids: seq<nat>)
    requires |outcomes| == |ids|
    ensures var r, r' := After(cfg, events), After(cfg, events + ForcedEvents(outcomes, ids));
            && r'.accepted == r.accepted
            && r'.node.core.pool.txs == Forced(cfg.crypto, cfg.maxBatch, r.node.core.pool.txs, r.node.core.retries, outcomes).0
    decreases |outcomes|
  {
    hide Sound, Turn, Cycled, Examined, BatchRoot;
    if outcomes == [] {
      assert events + ForcedEvents([], []) == events;
    } else {
      var first := Tick(true, outcomes[0], ids[0]);
      var events' := events + [first];
      assert events'[..|events|] == events;
      assert events + ForcedEvents(outcomes, ids) == events' + ForcedEvents(outcomes[1..], ids[1..]);
      ForcedRun(cfg, events', outcomes[1..], ids[1..]);
      ForcedStep(cfg, events, outcomes[0], ids[0]);
    }
  }

  lemma ForcedStep(cfg: Config, events: seq<Event>, outcome: Outcome, id: nat)
    ensures var r := After(cfg, events);
            var r' := Step(cfg, r, Tick(true, outcome, id));
            var q := r.node.core.pool.txs;
            var t := Turn(cfg.crypto, q, r.node.core.retries, DrainCount(q, cfg.maxBatch), outcome);
            r'.accepted == r.accepted && r'.node.core.pool.txs == t.queue && r'.node.core.retries == t.retries
  {
    hide Sound, Turn, BatchRoot, Cycle;
    RunIsSound(cfg, events);
    CycleRefinesTurn(cfg, After(cfg, events).node.core, true, outcome, id);
  }

  /**
   * Liveness.  After any run, five forced cycles per pending transaction, whatever
   * the prover does in them, empty the mempool; what was emitted over the whole run
   * is then every valid accepted transaction, once each, in order of acceptance.
   * The one condition is that no drain can exceed the batch size limit.
   */
  lemma EverythingValidIsEmitted(cfg: Config, events: seq<Event>, outcomes: seq<Outcome>, ids: seq<nat>)
    requires ValidConfig(cfg) && Min(cfg.maxBatch, cfg.capacity) <= MAX_BATCH_SIZE
    requires |outcomes| == |ids| && |outcomes| >= 5 * |After(cfg, events).node.core.pool.txs|
    ensures var r := After(cfg, events + ForcedEvents(outcomes, ids));
            && r.node.core.pool.txs == []
            && r.accepted == After(cfg, events).accepted
            && Outputs(r.emitted) == Keep(cfg.crypto, r.accepted)
  {
    hide After, Forced, Outputs, Keep, RetriesInRange, Conserved;
    var all := events + ForcedEvents(outcomes, ids);
    RunsAreHealthy(cfg, events);
    RunsAreHealthy(cfg, all);
    ForcedRun(cfg, events, outcomes, ids);
    var core := After(cfg, events).node.core;
    ForcedCyclesEmpty(cfg.crypto, cfg.maxBatch, core.pool.txs, core.retries, outcomes);
    var r := After(cfg, all);
    DrainedIsComplete(cfg.crypto, r.accepted, r.examined, Outputs(r.emitted));
  }

  // ------------------------------------------------------ regular cycles

  /** A regular cycle leaves a node with fewer than minBatch pending as it is, and does
      what a forced one does otherwise. */
  lemma RegularTick(cfg: Config, events: seq<Event>, outcome: Outcome, id: nat)
    requires ValidConfig(cfg)
    ensures var r := After(cfg, events);
            var r' := After(cfg, events + [Tick(false, outcome, id)]);
            && (|r.node.core.pool.txs| < cfg.minBatch ==> r' == r)
            && (|r.node.core.pool.txs| >= cfg.minBatch ==> r' == After(cfg, events + [Tick(true, outcome, id)]))
  {
    hide Cycle, Healthy;
    RunsAreHealthy(cfg, events);
    AfterOne(cfg, events, Tick(false, outcome, id));
    AfterOne(cfg, events, Tick(true, outcome, id));
    RegularCycle(cfg, After(cfg, events).node.core, outcome, id);
    ExaminedEnough(cfg, After(cfg, events));
  }

  lemma ExaminedEnough(cfg: Config, r: Run)
    requires Healthy(cfg, r)
    ensures Examined(|r.accepted|, |r.node.core.pool.txs|, r.examined, 0) == r.examined
  {
    hide Sound, Tallied, RetriesInRange, WellMade;
  }

  ghost function RegularEvents(outcomes: seq<Outcome>, ids: seq<nat>): (es: seq<Event>)
    requires |outcomes| == |ids|
    ensures |es| == |outcomes|
  {
    seq(|outcomes|, i requires 0 <= i < |outcomes| => Tick(false, outcomes[i], ids[i]))
  }

  lemma {:induction false} RegularRun(cfg: Config, events: seq<Event>, outcomes: seq<Outcome>, ids: seq<nat>)
    requires ValidConfig(cfg) && Min(cfg.maxBatch, cfg.capacity) <= MAX_BATCH_SIZE && |outcomes| == |ids|
    requires var core := After(cfg, events).node.core;
             |outcomes| >= Rank(cfg.crypto, cfg.maxBatch, core.pool.txs, core.retries)
    ensures |After(cfg, events + RegularEvents(outcomes, ids)).node.core.pool.txs| < cfg.minBatch
    decreases |outcomes|
  {
    hide After, Rank, Turn, Healthy, RetriesInRange;
    var core := After(cfg, events).node.core;
    if outcomes == [] {
      assert events + RegularEvents([], []) == events;
      NoRank(cfg, core);
    } else {
      var events' := events + [Tick(false, outcomes[0], ids[0])];
      RegularTick(cfg, events, outcomes[0], ids[0]);
      if |core.pool.txs| >= cfg.minBatch {
        ForcedTick(cfg, events, outcomes[0], ids[0]);
        PendingInRange(cfg, events);
        TurnLowersRank(cfg.crypto, cfg.maxBatch, core.pool.txs, core.retries, outcomes[0]);
        RegularRun(cfg, events', outcomes[1..], ids[1..]);
        assert events + RegularEvents(outcomes, ids) == events' + RegularEvents(outcomes[1..], ids[1..]);
      } else {
        StaysBelow(cfg, events, outcomes, ids);
      }
    }
  }

  lemma NoRank(cfg: Config, s: State)
    requires ValidConfig(cfg) && Rank(cfg.crypto, cfg.maxBatch, s.pool.txs, s.retries) == 0
    ensures |s.pool.txs| < cfg.minBatch
  {
  }

  lemma PendingInRange(cfg: Config, events: seq<Event>)
    ensures var core := After(cfg, events).node.core; |core.pool.txs| <= cfg.capacity && RetriesInRange(core.retries)
  {
    hide After, RetriesInRange, Conserved, Tallied, WellMade;
    RunsAreHealthy(cfg, events);
  }

  lemma ForcedTick(cfg: Config, events: seq<Event>, outcome: Outcome, id: nat)
    ensures var core := After(cfg, events).node.core;
            var core' := After(cfg, events + [Tick(true, outcome, id)]).node.core;
            var t := Turn(cfg.crypto, core.pool.txs, core.retries, DrainCount(core.pool.txs, cfg.maxBatch), outcome);
            core'.pool.txs == t.queue && core'.retries == t.retries
  {
    hide Step, Turn;
    AfterOne(cfg, events, Tick(true, outcome, id));
    ForcedStep(cfg, events, outcome, id);
  }

  lemma {:induction false} StaysBelow(cfg: Config, events: seq<Event>, outcomes: seq<Outcome>, ids: seq<nat>)
    requires ValidConfig(cfg) && |outcomes| == |ids| && |After(cfg, events).node.core.pool.txs| < cfg.minBatch
    ensures After(cfg, events + RegularEvents(outcomes, ids)) == After(cfg, events)
    decreases |outcomes|
  {
    hide After;
    if outcomes == [] {
      assert events + RegularEvents([], []) == events;
    } else {
      var events' := events + [Tick(false, outcomes[0], ids[0])];
      RegularTick(cfg, events, outcomes[0], ids[0]);
      StaysBelow(cfg, events', outcomes[1..], ids[1..]);
      assert events + RegularEvents(outcomes, ids) == events' + RegularEvents(outcomes[1..], ids[1..]);
    }
  }

  /**
   * Liveness without force.  After any run, five regular cycles per pending transaction,
   * whatever the prover does in them, leave fewer than minBatch pending.
   */
  lemma RegularCyclesSuffice(cfg: Config, events: seq<Event>, outcomes: seq<Outcome>, ids: seq<nat>)
    requires ValidConfig(cfg) && Min(cfg.maxBatch, cfg.capacity) <= MAX_BATCH_SIZE
    requires |outcomes| == |ids| && |outcomes| >= 5 * |After(cfg, events).node.core.pool.txs|
    ensures |After(cfg, events + RegularEvents(outcomes, ids)).node.core.pool.txs| < cfg.minBatch
  {
    hide After;
    RegularRun(cfg, events, outcomes, ids);
  }

  // ------------------------------------------------------ configurations

  lemma AfterOne(cfg: Config, events: seq<Event>, a: Event)
    ensures After(cfg, events + [a]) == Step(cfg, After(cfg, events), a)
  {
    hide Step;
    assert (events + [a])[..|events|] == events;
  }

  /** Validly signed transactions with different hashes. */
  ghost predicate AllNew(c: Crypto, txs: seq<Tx>) {
    (forall i | 0 <= i < |txs| :: ValidTx(c, DEFAULT_ALGORITHM, txs[i])) && NoRepeats(c, txs)
  }

  /** A new transaction is accepted behind the others. */
  lemma NewIsAccepted(cfg: Config, txs: seq<Tx>, n: nat, r: Run)
    requires AllNew(cfg.crypto, txs) && n < |txs| && cfg.capacity > n
    requires Sound(cfg, r.node.core.pool) && r.node.core.pool.txs == txs[..n] && r.node.index == EMPTY_INDEX
    ensures var r' := Step(cfg, r, Submit(txs[n]));
            && r'.node.core.pool.txs == txs[..n + 1] && r'.node.index == EMPTY_INDEX
            && r'.node.core.retries == r.node.core.retries
  {
    assert txs[..n + 1] == txs[..n] + [txs[n]];
    assert TxHash(cfg.crypto, txs[n]) !in HashSet(cfg.crypto, txs[..n]);
  }

  function Submissions(txs: seq<Tx>): seq<Event> {
    seq(|txs|, i requires 0 <= i < |txs| => Submit(txs[i]))
  }

  lemma {:induction false} SubmissionsQueue(cfg: Config, txs: seq<Tx>, n: nat)
    requires AllNew(cfg.crypto, txs) && n <= |txs| && n <= cfg.capacity
    ensures var r := After(cfg, Submissions(txs[..n]));
            r.node.core.pool.txs == txs[..n] && r.node.index == EMPTY_INDEX
  {
    hide AllNew, Step, Sound;
    if n > 0 {
      SubmissionsQueue(cfg, txs, n - 1);
      RunIsSound(cfg, Submissions(txs[..n - 1]));
      NewIsAccepted(cfg, txs, n - 1, After(cfg, Submissions(txs[..n - 1])));
      AfterOne(cfg, Submissions(txs[..n - 1]), Submit(txs[n - 1]));
      assert Submissions(txs[..n]) == Submissions(txs[..n - 1]) + [Submit(txs[n - 1])];
    }
  }

  /** After every run, five forced cycles per pending transaction empty the queue. */
  ghost predicate AlwaysEmpties(cfg: Config) {
    forall events: seq<Event>, outcomes: seq<Outcome>, ids: seq<nat>
      | |outcomes| == |ids| && |outcomes| >= 5 * |After(cfg, events).node.core.pool.txs| ::
      After(cfg, events + ForcedEvents(outcomes, ids)).node.core.pool.txs == []
  }

  /**
   * The condition of the liveness theorem is exact for every configuration, wherever
   * MAX_BATCH_SIZE + 1 different transactions can be signed at all: after every run
   * forced cycles empty the queue iff no drain can exceed the batch size limit.
   */
  lemma AlwaysEmptiesIff(cfg: Config, txs: seq<Tx>)
    requires ValidConfig(cfg) && AllNew(cfg.crypto, txs) && |txs| == MAX_BATCH_SIZE + 1
    ensures AlwaysEmpties(cfg) <==> Min(cfg.maxBatch, cfg.capacity) <= 3000
  {
    hide After, Outputs, Keep, Conserved, AllNew, Forced, Healthy;
    if Min(cfg.maxBatch, cfg.capacity) <= MAX_BATCH_SIZE {
      forall events: seq<Event>, outcomes: seq<Outcome>, ids: seq<nat>
        | |outcomes| == |ids| && |outcomes| >= 5 * |After(cfg, events).node.core.pool.txs|
        ensures After(cfg, events + ForcedEvents(outcomes, ids)).node.core.pool.txs == []
      {
        EverythingValidIsEmitted(cfg, events, outcomes, ids);
      }
    } else {
      var outcomes, ids := Crashes(5 * |txs|), seq(5 * |txs|, _ => 0);
      OversizedRun(cfg, txs, outcomes, ids);
      SubmissionsQueue(cfg, txs, |txs|);
      assert txs[..|txs|] == txs;
      assert After(cfg, Submissions(txs) + ForcedEvents(outcomes, ids)).node.core.pool.txs != [];
    }
  }

  /** A queue of one transaction too many stays, whatever the prover does. */
  lemma OversizedRun(cfg: Config, txs: seq<Tx>, outcomes: seq<Outcome>, ids: seq<nat>)
    requires AllNew(cfg.crypto, txs) && |txs| == MAX_BATCH_SIZE + 1 && Min(cfg.maxBatch, cfg.capacity) > MAX_BATCH_SIZE
    requires |outcomes| == |ids|
    ensures |After(cfg, Submissions(txs) + ForcedEvents(outcomes, ids)).node.core.pool.txs| > MAX_BATCH_SIZE
  {
    hide After, Forced, ValidTx, NoRepeats;
    SubmissionsQueue(cfg, txs, |txs|);
    assert txs[..|txs|] == txs;
    ForcedRun(cfg, Submissions(txs), outcomes, ids);
    ValidOnlyIdentity(cfg.crypto, DEFAULT_ALGORITHM, txs);
    assert txs[..DrainCount(txs, cfg.maxBatch)] == txs;
    OversizedHeadNeverLeaves(cfg.crypto, cfg.maxBatch, txs, After(cfg, Submissions(txs)).node.core.retries, outcomes);
  }
}
