/**
 * The retry map in whole runs (aggregator/batcher.py): the state in which its reset costs
 * a batch a fifth cycle is reachable, and a forced cycle can return nothing while
 * transactions are pending.
 */
module RetryRuns {
  import opened Batch
  import opened Mempool
  import opened Batcher
  import opened QueueMachine
  import opened Node
  import opened NodeRuns

  /** Submit a transaction, then let a forced cycle crash; n times. */
  function Alternation(txs: seq<Tx>, n: nat): seq<Event>
    requires n <= |txs|
  {
    if n == 0 then [] else Alternation(txs, n - 1) + [Submit(txs[n - 1]), Tick(true, Crashed, n - 1)]
  }

  /** Signed transactions with different hashes whose growing prefixes have different roots. */
  ghost predicate Distinct(c: Crypto, txs: seq<Tx>) {
    && AllNew(c, txs)
    && forall i, j | 1 <= i < j <= |txs| :: BatchRoot(c, txs[..i]) != BatchRoot(c, txs[..j])
  }

  lemma AreNew(c: Crypto, txs: seq<Tx>)
    requires Distinct(c, txs)
    ensures AllNew(c, txs)
  {
  }

  /** Every stored root is that of one of the first n prefixes. */
  ghost predicate RootsOfPrefixes(c: Crypto, txs: seq<Tx>, n: nat, m: Retries)
    requires n <= |txs|
  {
    && |m| == n
    && forall root | root in m :: exists i :: 1 <= i <= n && root == BatchRoot(c, txs[..i])
  }

  /** After n alternations the queue holds n transactions and the map n roots. */
  ghost predicate Filled(cfg: Config, txs: seq<Tx>, n: nat, r: Run)
    requires n <= |txs|
  {
    && r.node.core.pool.txs == txs[..n] && r.node.index == EMPTY_INDEX
    && RootsOfPrefixes(cfg.crypto, txs, n, r.node.core.retries)
  }

  ghost predicate Roomy(cfg: Config, n: nat) {
    ValidConfig(cfg) && cfg.maxBatch >= n && cfg.capacity >= n
  }

  lemma AfterTwo(cfg: Config, events: seq<Event>, a: Event, b: Event)
    ensures After(cfg, events + [a, b]) == Step(cfg, Step(cfg, After(cfg, events), a), b)
  {
    hide Step;
    AfterOne(cfg, events, a);
    AfterOne(cfg, events + [a], b);
    assert events + [a, b] == (events + [a]) + [b];
  }

  /** A crash under a root not yet stored stores it and returns the batch. */
  lemma CrashStoresRoot(cfg: Config, txs: seq<Tx>, n: nat, m: Retries)
    requires Distinct(cfg.crypto, txs) && n < |txs| && n < RETRY_MAP_LIMIT && Roomy(cfg, n + 1)
    requires RootsOfPrefixes(cfg.crypto, txs, n, m)
    ensures var q := txs[..n + 1];
            var t := Turn(cfg.crypto, q, m, DrainCount(q, cfg.maxBatch), Crashed);
            t.queue == q && t.emitted == [] && RootsOfPrefixes(cfg.crypto, txs, n + 1, t.retries)
  {
    hide BatchRoot, NoRepeats;
    var q := txs[..n + 1];
    var root := BatchRoot(cfg.crypto, q);
    assert q[..DrainCount(q, cfg.maxBatch)] == q && q[DrainCount(q, cfg.maxBatch)..] == [] && q + [] == q;
    ValidOnlyIdentity(cfg.crypto, DEFAULT_ALGORITHM, q);
    RootIsNew(cfg, txs, n, m);
    SizeAfterUpdate(m, root, 1);
    assert NextRetries(m, root, Crashed) == m[root := 1];
    GrownRoots(cfg.crypto, txs, n, m);
  }

  lemma RootIsNew(cfg: Config, txs: seq<Tx>, n: nat, m: Retries)
    requires Distinct(cfg.crypto, txs) && n < |txs| && RootsOfPrefixes(cfg.crypto, txs, n, m)
    ensures BatchRoot(cfg.crypto, txs[..n + 1]) !in m
  {
    hide BatchRoot, NoRepeats, ValidTx;
  }

  lemma GrownRoots(c: Crypto, txs: seq<Tx>, n: nat, m: Retries)
    requires n < |txs| && RootsOfPrefixes(c, txs, n, m) && BatchRoot(c, txs[..n + 1]) !in m
    ensures RootsOfPrefixes(c, txs, n + 1, m[BatchRoot(c, txs[..n + 1]) := 1])
  {
    hide BatchRoot;
    var m' := m[BatchRoot(c, txs[..n + 1]) := 1];
    SizeAfterUpdate(m, BatchRoot(c, txs[..n + 1]), 1);
    forall root | root in m' ensures exists i :: 1 <= i <= n + 1 && root == BatchRoot(c, txs[..i]) {
      if root in m {
        var i :| 1 <= i <= n && root == BatchRoot(c, txs[..i]);
      }
    }
  }

  lemma {:induction false} AlternationFills(cfg: Config, txs: seq<Tx>, n: nat)
    requires Distinct(cfg.crypto, txs) && n <= |txs| && n <= RETRY_MAP_LIMIT && Roomy(cfg, n)
    ensures Filled(cfg, txs, n, After(cfg, Alternation(txs, n)))
  {
    hide Distinct, AllNew, RootsOfPrefixes, Step, Turn, Cycle, Sound, Submitted, BatchRoot, Cycled;
    if n == 0 {
      NothingStored(cfg.crypto, txs);
      assert txs[..0] == [];
    } else {
      var events := Alternation(txs, n - 1);
      var r := After(cfg, events);
      AlternationFills(cfg, txs, n - 1);
      RunIsSound(cfg, events);
      AreNew(cfg.crypto, txs);
      NewIsAccepted(cfg, txs, n - 1, r);
      AfterOne(cfg, events, Submit(txs[n - 1]));
      AfterTwo(cfg, events, Submit(txs[n - 1]), Tick(true, Crashed, n - 1));
      CrashStoresRoot(cfg, txs, n - 1, r.node.core.retries);
      RunIsSound(cfg, events + [Submit(txs[n - 1])]);
      CrashedStep(cfg, events + [Submit(txs[n - 1])], n - 1);
    }
  }

  lemma NothingStored(c: Crypto, txs: seq<Tx>)
    ensures RootsOfPrefixes(c, txs, 0, map[])
  {
  }

  /** A forced crashing cycle that emits nothing is a turn of the queue and leaves the index alone. */
  lemma CrashedStep(cfg: Config, events: seq<Event>, id: nat)
    ensures var r := After(cfg, events);
            var q := r.node.core.pool.txs;
            var t := Turn(cfg.crypto, q, r.node.core.retries, DrainCount(q, cfg.maxBatch), Crashed);
            var r' := Step(cfg, r, Tick(true, Crashed, id));
            && r'.node.core.pool.txs == t.queue && r'.node.core.retries == t.retries
            && (t.emitted == [] ==> r'.node.index == r.node.index)
  {
    hide Turn, Cycle, Sound, BatchRoot, Recorded;
    RunIsSound(cfg, events);
    CycleRefinesTurn(cfg, After(cfg, events).node.core, true, Crashed, id);
  }

  /**
   * The fifth cycle.  For any 257 signed transactions with different hashes and different
   * head roots there is a run of the node, a submission and a crash at a time, that ends
   * with 256 stored roots and a head not among them; the prover crashing on, that head
   * survives four more cycles and is emitted by the fifth, one beyond the retry budget.
   */
  lemma FifthCycleHappens(cfg: Config, txs: seq<Tx>, n: nat, ids: seq<nat>)
    requires |txs| == RETRY_MAP_LIMIT + 1 && Distinct(cfg.crypto, txs) && Roomy(cfg, RETRY_MAP_LIMIT + 1)
    requires n <= MAX_PROOF_RETRIES + 2 && |ids| == n
    ensures var events := Alternation(txs, RETRY_MAP_LIMIT) + [Submit(txs[RETRY_MAP_LIMIT])];
            && |After(cfg, events).node.core.retries| == RETRY_MAP_LIMIT
            && After(cfg, events).node.core.pool.txs == txs
            && After(cfg, events + ForcedEvents(Crashes(n), ids)).node.core.pool.txs
               == if n < MAX_PROOF_RETRIES + 2 then txs else []
  {
    hide Distinct, AllNew, Step, Turn, Cycle, Sound, Submitted, BatchRoot, Cycled, Forced, Alternation, After, RetriesInRange;
    var before := Alternation(txs, RETRY_MAP_LIMIT);
    var last := txs[RETRY_MAP_LIMIT];
    var r := After(cfg, before);
    AlternationFills(cfg, txs, RETRY_MAP_LIMIT);
    RunIsSound(cfg, before);
    AreNew(cfg.crypto, txs);
    NewIsAccepted(cfg, txs, RETRY_MAP_LIMIT, r);
    AfterOne(cfg, before, Submit(last));
    var events := before + [Submit(last)];
    var m := After(cfg, events).node.core.retries;
    assert txs[..RETRY_MAP_LIMIT + 1] == txs;
    RootIsNew(cfg, txs, RETRY_MAP_LIMIT, m);
    RunCountsPositive(cfg, events);
    assert txs[..DrainCount(txs, cfg.maxBatch)] == txs && txs[DrainCount(txs, cfg.maxBatch)..] == [];
    AllValid(cfg, txs);
    HeadEmittedAfter(cfg.crypto, cfg.maxBatch, txs, m, n);
    ForcedRun(cfg, events, Crashes(n), ids);
  }

  lemma RunCountsPositive(cfg: Config, events: seq<Event>)
    ensures forall r | r in After(cfg, events).node.core.retries :: After(cfg, events).node.core.retries[r] >= 1
  {
    RunsAreHealthy(cfg, events);
  }

  lemma AllValid(cfg: Config, txs: seq<Tx>)
    requires |txs| == RETRY_MAP_LIMIT + 1 && Distinct(cfg.crypto, txs) && Roomy(cfg, RETRY_MAP_LIMIT + 1)
    ensures HeadIsBatch(cfg.crypto, cfg.maxBatch, txs)
  {
    hide BatchRoot, NoRepeats;
    assert txs[..DrainCount(txs, cfg.maxBatch)] == txs;
    ValidOnlyIdentity(cfg.crypto, DEFAULT_ALGORITHM, txs);
  }

  /** With one valid transaction pending, a forced cycle whose prover crashes returns nothing. */
  lemma CrashReturnsNothing(cfg: Config, tx: Tx, id: nat)
    requires ValidConfig(cfg) && ValidTx(cfg.crypto, DEFAULT_ALGORITHM, tx)
    ensures var r := After(cfg, [Submit(tx)]);
            && r.node.core.pool.txs == [tx]
            && Cycled(cfg, r.node, true, Crashed, id).1.None?
            && Cycled(cfg, r.node, true, Crashed, id).0.core.pool.txs == [tx]
  {
    hide BatchRoot, Submitted, Cycle, Sound, TxHash, ValidTx, HashSet, Recorded, Turn;
    var r := Step(cfg, START, Submit(tx));
    assert [Submit(tx)][..0] == [] && [tx][..0] == [] && [tx][..1] == [tx];
    assert After(cfg, []) == START && After(cfg, [Submit(tx)]) == r;
    RunIsSound(cfg, []);
    OneIsNew(cfg.crypto, tx);
    NewIsAccepted(cfg, [tx], 0, START);
    RunIsSound(cfg, [Submit(tx)]);
    CycleRefinesTurn(cfg, r.node.core, true, Crashed, id);
    FirstCrash(cfg, tx);
  }

  lemma OneIsNew(c: Crypto, tx: Tx)
    requires ValidTx(c, DEFAULT_ALGORITHM, tx)
    ensures AllNew(c, [tx])
  {
  }

  lemma FirstCrash(cfg: Config, tx: Tx)
    requires ValidConfig(cfg) && ValidTx(cfg.crypto, DEFAULT_ALGORITHM, tx)
    ensures DrainCount([tx], cfg.maxBatch) == 1
    ensures var t := Turn(cfg.crypto, [tx], map[], 1, Crashed); t.queue == [tx] && t.emitted == []
  {
    hide BatchRoot, ValidTx;
    ValidOnlyIdentity(cfg.crypto, DEFAULT_ALGORITHM, [tx]);
    assert [tx][..1] == [tx] && [tx][1..] == [] && [tx] + [] == [tx];
  }
}
