/**
 * The pool and the batcher seen as one queue.  A cycle over the real pool refines
 * one turn of this machine; order, conservation and termination are proved here.
 */
module QueueMachine {
  import opened Bytes
  import opened Prelude
  import opened Batch
  import opened Mempool
  import opened Batcher

  /** The queue after a turn, the retry map, and the transactions emitted, if any. */
  datatype Turned = Turned(queue: seq<Tx>, retries: Retries, emitted: seq<Tx>)

  /** One cycle that takes the first n transactions. */
  ghost function Turn(c: Crypto, q: seq<Tx>, m: Retries, n: nat, outcome: Outcome): Turned
    requires n <= |q|
  {
    var valid, rest := Keep(c, q[..n]), q[n..];
    if valid == [] then Turned(rest, m, [])
    else if |valid| > MAX_BATCH_SIZE then Turned(valid + rest, m, [])
    else
      var root := BatchRoot(c, valid);
      var m' := NextRetries(m, root, outcome);
      if Judge(m, root, outcome).Retry? then Turned(valid + rest, m', []) else Turned(rest, m', valid)
  }

  // ------------------------------------------------ the pool refines a queue

  /** A pool in sequential use: exact and within capacity. */
  ghost predicate Sound(cfg: Config, p: Pool) {
    Exact(cfg.crypto, p) && |p.txs| <= cfg.capacity
  }

  lemma {:induction false} KeepIsSubsequence(c: Crypto, txs: seq<Tx>)
    ensures HashSet(c, Keep(c, txs)) <= HashSet(c, txs)
    ensures NoRepeats(c, txs) ==> NoRepeats(c, Keep(c, txs))
    ensures |Keep(c, txs)| <= |txs|
  {
    hide HashSet, NoRepeats;
    if txs == [] {
    } else {
      var head, tail := [txs[0]], txs[1..];
      assert txs == head + tail;
      KeepIsSubsequence(c, tail);
      HashSetConcat(c, head, tail);
      HashSetConcat(c, head, Keep(c, tail));
      NoRepeatsConcat(c, head, tail);
      NoRepeatsConcat(c, head, Keep(c, tail));
      assert [] + Keep(c, tail) == Keep(c, tail);
      assert Keep(c, txs) == head + Keep(c, tail) || Keep(c, txs) == Keep(c, tail);
    }
  }

  /** Taking from a sound pool leaves it sound and free of what was taken. */
  lemma TakenIsSound(cfg: Config, p: Pool, n: nat)
    requires Sound(cfg, p) && n <= |p.txs|
    ensures Sound(cfg, Taken(cfg.crypto, p, n))
    ensures HashSet(cfg.crypto, p.txs[..n]) !! Taken(cfg.crypto, p, n).hashes
    ensures NoRepeats(cfg.crypto, p.txs[..n])
  {
    assert p.txs == p.txs[..n] + p.txs[n..];
    NoRepeatsConcat(cfg.crypto, p.txs[..n], p.txs[n..]);
    TakenKeepsExact(cfg.crypto, p, n);
  }

  /** Returning the valid part of what was taken always fits and stays sound. */
  lemma ReturnIsSound(cfg: Config, p: Pool, n: nat)
    requires Sound(cfg, p) && n <= |p.txs|
    ensures var valid := Keep(cfg.crypto, p.txs[..n]);
            var back := Prepended(cfg.crypto, cfg.capacity, Taken(cfg.crypto, p, n), valid);
            && Sound(cfg, back)
            && back.txs == valid + p.txs[n..]
            && back.dropped == p.dropped
  {
    hide HashSet, NoRepeats;
    var valid, taken := Keep(cfg.crypto, p.txs[..n]), Taken(cfg.crypto, p, n);
    TakenIsSound(cfg, p, n);
    KeepIsSubsequence(cfg.crypto, p.txs[..n]);
    assert Fit(cfg.capacity, |taken.txs|, |valid|) == |valid|;
    assert valid[..|valid|] == valid;
    PrependedExactIff(cfg.crypto, cfg.capacity, taken, valid);
  }

  /**
   * Refinement: on a sound pool a cycle of the batcher is one turn of the queue,
   * leaves the pool sound and drops nothing.
   */
  lemma CycleRefinesTurn(cfg: Config, s: State, force: bool, outcome: Outcome, id: nat)
    requires Sound(cfg, s.pool)
    ensures var n := Drained(cfg, s.pool.txs, force);
            var (s', r) := Cycle(cfg, s, force, outcome, id);
            var t := Turn(cfg.crypto, s.pool.txs, s.retries, n, outcome);
            && Sound(cfg, s'.pool)
            && s'.pool.dropped == s.pool.dropped
            && s'.pool.txs == t.queue && s'.retries == t.retries
            && (r.None? <==> t.emitted == [])
            && |t.emitted| <= MAX_BATCH_SIZE
            && (r.Some? ==> r.value == BatchResult(Batch(t.emitted, BatchRoot(cfg.crypto, t.emitted), id), outcome.Proven?))
  {
    hide HashSet, NoRepeats, Exact, Prepended;
    var q, n := s.pool.txs, Drained(cfg, s.pool.txs, force);
    if n == 0 {
      assert q[..0] == [] && q[0..] == q;
    } else {
      TakenIsSound(cfg, s.pool, n);
      ReturnIsSound(cfg, s.pool, n);
    }
  }

  // ------------------------------------------------------------ conservation

  /**
   * The queue against the list of accepted transactions: the first `examined` of
   * them have been through a signature check at least once.  What was emitted,
   * followed by the checked part of the queue, is exactly the valid ones among
   * those, in order; the rest of the queue is the rest of the list.
   */
  ghost predicate Conserved(c: Crypto, accepted: seq<Tx>, examined: nat, emitted: seq<Tx>, queue: seq<Tx>) {
    && examined <= |accepted|
    && |accepted| - examined <= |queue|
    && var checked := |queue| - (|accepted| - examined);
       && queue[checked..] == accepted[examined..]
       && emitted + queue[..checked] == Keep(c, accepted[..examined])
  }

  /** How far a turn that takes n transactions has examined the accepted list. */
  function Examined(accepted: nat, queue: nat, examined: nat, n: nat): nat {
    Max(examined, accepted - queue + n)
  }

  lemma TurnKeepsFrontChecked(c: Crypto, accepted: seq<Tx>, examined: nat, emitted: seq<Tx>, queue: seq<Tx>, n: nat)
    requires Conserved(c, accepted, examined, emitted, queue) && n <= |queue|
    ensures var e := Examined(|accepted|, |queue|, examined, n);
            && examined <= e <= |accepted|
            && |accepted| - e <= |queue| - n
            && emitted + Keep(c, queue[..n]) + queue[n..n + (|queue| - n - (|accepted| - e))] == Keep(c, accepted[..e])
            && queue[|queue| - (|accepted| - e)..] == accepted[e..]
  {
    hide Keep;
    var v := |queue| - (|accepted| - examined);
    var checked := queue[..v];
    if n <= v {
      KeepOfKept(c, accepted[..examined], emitted, checked, n);
      assert checked[..n] == queue[..n] && checked[n..] == queue[n..v];
      assert emitted + queue[..n] + queue[n..v] == emitted + checked;
    } else {
      var e := examined + (n - v);
      var unseen := accepted[examined..e];
      assert queue[v..n] == queue[v..][..n - v] == unseen;
      assert queue[..n] == checked + unseen;
      assert accepted[..e] == accepted[..examined] + unseen;
      KeepConcat(c, checked, unseen);
      KeepConcat(c, accepted[..examined], unseen);
      KeepOfKept(c, accepted[..examined], emitted, checked, v);
      assert checked[..v] == checked;
      assert queue[n..] == queue[v..][n - v..] == accepted[e..];
      assert queue[n..n] == [];
      assert emitted + (checked + Keep(c, unseen)) == (emitted + checked) + Keep(c, unseen);
    }
  }

  lemma KeepConcat(c: Crypto, a: seq<Tx>, b: seq<Tx>)
    ensures Keep(c, a + b) == Keep(c, a) + Keep(c, b)
  {
    ValidOnlyConcat(c, DEFAULT_ALGORITHM, a, b);
  }

  /** A stretch of an already filtered list passes the filter unchanged. */
  lemma KeepOfKept(c: Crypto, txs: seq<Tx>, emitted: seq<Tx>, checked: seq<Tx>, n: nat)
    requires emitted + checked == Keep(c, txs) && n <= |checked|
    ensures Keep(c, checked[..n]) == checked[..n]
  {
    ValidOnlyAllValid(c, DEFAULT_ALGORITHM, txs);
    forall i | 0 <= i < n
      ensures ValidTx(c, DEFAULT_ALGORITHM, checked[..n][i])
    {
      assert checked[i] == (emitted + checked)[|emitted| + i];
    }
    ValidOnlyIdentity(c, DEFAULT_ALGORITHM, checked[..n]);
  }

  lemma EmittingConserves(c: Crypto, accepted: seq<Tx>, examined: nat, emitted: seq<Tx>, queue: seq<Tx>, n: nat)
    requires Conserved(c, accepted, examined, emitted, queue) && n <= |queue|
    ensures var e := Examined(|accepted|, |queue|, examined, n);
            Conserved(c, accepted, e, emitted + Keep(c, queue[..n]), queue[n..])
  {
    hide Keep;
    TurnKeepsFrontChecked(c, accepted, examined, emitted, queue, n);
    var e, rest := Examined(|accepted|, |queue|, examined, n), queue[n..];
    var k := |rest| - (|accepted| - e);
    assert rest[k..] == accepted[e..] && rest[..k] == queue[n..n + k];
  }

  lemma ReturningConserves(c: Crypto, accepted: seq<Tx>, examined: nat, emitted: seq<Tx>, queue: seq<Tx>, n: nat)
    requires Conserved(c, accepted, examined, emitted, queue) && n <= |queue|
    ensures var e := Examined(|accepted|, |queue|, examined, n);
            Conserved(c, accepted, e, emitted, Keep(c, queue[..n]) + queue[n..])
  {
    hide Keep;
    EmittingConserves(c, accepted, examined, emitted, queue, n);
    var e, valid, rest := Examined(|accepted|, |queue|, examined, n), Keep(c, queue[..n]), queue[n..];
    var k := |rest| - (|accepted| - e);
    assert (valid + rest)[|valid| + k..] == rest[k..];
    assert (valid + rest)[..|valid| + k] == valid + rest[..k];
    assert emitted + (valid + rest[..k]) == emitted + valid + rest[..k];
  }

  /** Every turn conserves: nothing is lost, duplicated or reordered. */
  lemma TurnConserves(c: Crypto, accepted: seq<Tx>, examined: nat, emitted: seq<Tx>, queue: seq<Tx>,
                      m: Retries, n: nat, outcome: Outcome)
    requires Conserved(c, accepted, examined, emitted, queue) && n <= |queue|
    ensures var t := Turn(c, queue, m, n, outcome);
            var e := Examined(|accepted|, |queue|, examined, n);
            Conserved(c, accepted, e, emitted + t.emitted, t.queue)
  {
    hide Keep, NextRetries, Judge, BatchRoot, Conserved;
    EmittingConserves(c, accepted, examined, emitted, queue, n);
    ReturningConserves(c, accepted, examined, emitted, queue, n);
    assert emitted + [] == emitted;
  }

  /** Submitting appends to both lists. */
  lemma SubmitConserves(c: Crypto, accepted: seq<Tx>, examined: nat, emitted: seq<Tx>, queue: seq<Tx>, tx: Tx)
    requires Conserved(c, accepted, examined, emitted, queue)
    ensures Conserved(c, accepted + [tx], examined, emitted, queue + [tx])
  {
    var v := |queue| - (|accepted| - examined);
    assert (accepted + [tx])[..examined] == accepted[..examined];
    assert (accepted + [tx])[examined..] == accepted[examined..] + [tx];
    assert (queue + [tx])[v..] == queue[v..] + [tx];
    assert (queue + [tx])[..v] == queue[..v];
  }

  /** With nothing pending, what was emitted is all that was accepted and valid. */
  lemma DrainedIsComplete(c: Crypto, accepted: seq<Tx>, examined: nat, emitted: seq<Tx>)
    requires Conserved(c, accepted, examined, emitted, [])
    ensures emitted == Keep(c, accepted)
  {
    assert accepted[..|accepted|] == accepted;
    assert emitted + [] == emitted;
  }

  // ------------------------------------------------------ retries, exactly

  /** Between cycles every stored count lies in 1..3 and the map has at most 257 keys. */
  ghost predicate RetriesInRange(m: Retries) {
    && |m| <= 257
    && forall root | root in m :: 1 <= m[root] <= 3
  }

  lemma RetriesStayInRange(m: Retries, root: Digest64, outcome: Outcome)
    requires RetriesInRange(m)
    ensures RetriesInRange(NextRetries(m, root, outcome))
  {
    var capped := Capped(m);
    assert |capped| <= RETRY_MAP_LIMIT;
    SizeAfterUpdate(capped, root, Attempts(m, root));
    SizeAfterRemoval(capped, root);
    SizeAfterRemoval(m, root);
  }

  lemma SizeAfterUpdate(m: Retries, root: Digest64, v: nat)
    ensures |m[root := v]| == if root in m then |m| else |m| + 1
  {
    assert m[root := v].Keys == m.Keys + {root};
  }

  lemma SizeAfterRemoval(m: Retries, root: Digest64)
    ensures |m - {root}| <= |m|
  {
    if root in m {
      assert (m - {root}).Keys == m.Keys - {root};
    } else {
      assert m - {root} == m;
    }
  }

  /** How many crashing cycles an unchanged head batch takes until it is emitted. */
  function CyclesToEmit(m: Retries, root: Digest64): (n: nat)
    ensures 1 <= n <= 5
    ensures n == 5 <==> |m| == 256 && root !in m
  {
    if |m| > 256 then 4
    else if root in m then if m[root] >= 3 then 1 else 4 - m[root]
    else if |m| == 256 then 5
    else 4
  }

  /** The count is exact: a crash is retried iff it exceeds one, and then drops by one. */
  lemma CrashCountsDown(m: Retries, root: Digest64)
    requires forall r | r in m :: m[r] >= 1
    ensures Judge(m, root, Crashed).Retry? <==> CyclesToEmit(m, root) > 1
    ensures CyclesToEmit(m, root) > 1 ==>
              CyclesToEmit(NextRetries(m, root, Crashed), root) == CyclesToEmit(m, root) - 1
  {
    SizeAfterUpdate(Capped(m), root, Attempts(m, root));
  }

  /** Exactly when a forced cycle returns nothing: everything drained was invalid (or the
      queue empty), the valid part exceeds a batch, or the prover crashed with budget left. */
  lemma ForcedCycleReturnsNothingIff(cfg: Config, s: State, outcome: Outcome, id: nat)
    requires forall r | r in s.retries :: s.retries[r] >= 1
    ensures var valid := Keep(cfg.crypto, s.pool.txs[..DrainCount(s.pool.txs, cfg.maxBatch)]);
            Cycle(cfg, s, true, outcome, id).1.None? <==>
              || valid == []
              || |valid| > MAX_BATCH_SIZE
              || (outcome.Crashed? && CyclesToEmit(s.retries, BatchRoot(cfg.crypto, valid)) > 1)
  {
    hide Taken, Prepended, NextRetries, CyclesToEmit, BatchRoot;
    var valid := Keep(cfg.crypto, s.pool.txs[..DrainCount(s.pool.txs, cfg.maxBatch)]);
    if valid != [] {
      CrashCountsDown(s.retries, BatchRoot(cfg.crypto, valid));
    } else {
      assert s.pool.txs[..0] == [];
    }
  }

  /** A run of forced cycles with nothing submitted in between. */
  ghost function Forced(c: Crypto, maxBatch: nat, q: seq<Tx>, m: Retries, outcomes: seq<Outcome>): (seq<Tx>, Retries, seq<Tx>)
    decreases |outcomes|
  {
    if outcomes == [] then (q, m, [])
    else
      var t := Turn(c, q, m, DrainCount(q, maxBatch), outcomes[0]);
      var (q', m', emitted) := Forced(c, maxBatch, t.queue, t.retries, outcomes[1..]);
      (q', m', t.emitted + emitted)
  }

  function Crashes(n: nat): (o: seq<Outcome>)
    ensures |o| == n
  {
    seq(n, _ => Crashed)
  }

  /** The head of the queue is a batch: nonempty, all valid, not too large. */
  ghost predicate HeadIsBatch(c: Crypto, maxBatch: nat, q: seq<Tx>) {
    var head := q[..DrainCount(q, maxBatch)];
    head != [] && Keep(c, head) == head && |head| <= MAX_BATCH_SIZE
  }

  /**
   * A head batch survives exactly CyclesToEmit - 1 crashes in a row unchanged and
   * is emitted by the next cycle, whatever is in the retry map.
   */
  lemma {:induction false} HeadEmittedAfter(c: Crypto, maxBatch: nat, q: seq<Tx>, m: Retries, n: nat)
    requires HeadIsBatch(c, maxBatch, q) && forall r | r in m :: m[r] >= 1
    requires n <= CyclesToEmit(m, BatchRoot(c, q[..DrainCount(q, maxBatch)]))
    ensures var k := DrainCount(q, maxBatch);
            var (q', _, emitted) := Forced(c, maxBatch, q, m, Crashes(n));
            if n < CyclesToEmit(m, BatchRoot(c, q[..k])) then q' == q && emitted == []
            else q' == q[k..] && emitted == q[..k]
    decreases n
  {
    hide Turn, HeadIsBatch, BatchRoot, CyclesToEmit;
    var k := DrainCount(q, maxBatch);
    if n > 0 {
      assert Crashes(n)[1..] == Crashes(n - 1);
      CrashTurn(c, maxBatch, q, m);
      var t := Turn(c, q, m, k, Crashed);
      if t.emitted == [] {
        HeadEmittedAfter(c, maxBatch, q, t.retries, n - 1);
      } else {
        assert q[..k] + [] == q[..k];
      }
    }
  }

  /** One crash on a head batch: it stays and its count drops, or it is emitted. */
  lemma CrashTurn(c: Crypto, maxBatch: nat, q: seq<Tx>, m: Retries)
    requires HeadIsBatch(c, maxBatch, q) && forall r | r in m :: m[r] >= 1
    ensures var k := DrainCount(q, maxBatch);
            var left := CyclesToEmit(m, BatchRoot(c, q[..k]));
            var t := Turn(c, q, m, k, Crashed);
            && (forall r | r in t.retries :: t.retries[r] >= 1)
            && if left > 1 then t.queue == q && t.emitted == [] && CyclesToEmit(t.retries, BatchRoot(c, q[..k])) == left - 1
               else left == 1 && t.queue == q[k..] && t.emitted == q[..k] != []
  {
    hide Keep, BatchRoot;
    var k := DrainCount(q, maxBatch);
    CrashCountsDown(m, BatchRoot(c, q[..k]));
    assert q[..k] + q[k..] == q;
  }

  // -------------------------------------------------------------- termination

  /** Bounds the forced cycles left until the queue is empty. */
  ghost function Rank(c: Crypto, maxBatch: nat, q: seq<Tx>, m: Retries): (r: nat)
    ensures r <= 5 * |q|
    ensures r == 0 <==> q == []
  {
    if q == [] then 0
    else 5 * (|q| - 1) + if HeadIsBatch(c, maxBatch, q) then CyclesToEmit(m, BatchRoot(c, q[..DrainCount(q, maxBatch)])) else 1
  }

  lemma TurnLowersRank(c: Crypto, maxBatch: nat, q: seq<Tx>, m: Retries, outcome: Outcome)
    requires q != [] && maxBatch >= 1 && Min(maxBatch, |q|) <= MAX_BATCH_SIZE
    requires RetriesInRange(m)
    ensures var t := Turn(c, q, m, DrainCount(q, maxBatch), outcome);
            && Rank(c, maxBatch, t.queue, t.retries) < Rank(c, maxBatch, q, m)
            && |t.queue| <= |q| && RetriesInRange(t.retries)
  {
    hide Keep, BatchRoot, RetriesInRange;
    var k := DrainCount(q, maxBatch);
    var head := q[..k];
    var t := Turn(c, q, m, k, outcome);
    KeepShrinks(c, head);
    assert head + q[k..] == q;
    if Keep(c, head) != [] {
      RetriesStayInRange(m, BatchRoot(c, Keep(c, head)), outcome);
    }
    if t.queue == q {
      CountsPositive(m);
      CrashCountsDown(m, BatchRoot(c, head));
    }
  }

  lemma CountsPositive(m: Retries)
    requires RetriesInRange(m)
    ensures forall r | r in m :: m[r] >= 1
  {
  }

  lemma KeepShrinks(c: Crypto, txs: seq<Tx>)
    ensures |Keep(c, txs)| <= |txs|
    ensures |Keep(c, txs)| == |txs| ==> Keep(c, txs) == txs
  {
    ValidOnlyAllValid(c, DEFAULT_ALGORITHM, txs);
  }

  lemma EmptyStaysEmpty(c: Crypto, maxBatch: nat, m: Retries, outcomes: seq<Outcome>)
    ensures Forced(c, maxBatch, [], m, outcomes).0 == []
    decreases |outcomes|
  {
    if outcomes != [] {
      var empty: seq<Tx> := [];
      assert empty[..0] == [] && empty[0..] == [];
      EmptyStaysEmpty(c, maxBatch, m, outcomes[1..]);
    }
  }

  /**
   * Termination: without new submissions, at most five forced cycles per pending
   * transaction empty the queue, whatever the prover does.
   */
  lemma {:induction false} ForcedCyclesEmpty(c: Crypto, maxBatch: nat, q: seq<Tx>, m: Retries, outcomes: seq<Outcome>)
    requires maxBatch >= 1 && Min(maxBatch, |q|) <= MAX_BATCH_SIZE && RetriesInRange(m)
    requires |outcomes| >= Rank(c, maxBatch, q, m)
    ensures Forced(c, maxBatch, q, m, outcomes).0 == []
    decreases |outcomes|
  {
    hide Rank, Turn, RetriesInRange;
    if q == [] {
      EmptyStaysEmpty(c, maxBatch, m, outcomes);
    } else {
      var t := Turn(c, q, m, DrainCount(q, maxBatch), outcomes[0]);
      TurnLowersRank(c, maxBatch, q, m, outcomes[0]);
      ForcedCyclesEmpty(c, maxBatch, t.queue, t.retries, outcomes[1..]);
    }
  }

  /**
   * When a drained list can hold more than MAX_BATCH_SIZE valid transactions the
   * batch is refused and the list goes back, for ever.
   */
  lemma {:induction false} OversizedHeadNeverLeaves(c: Crypto, maxBatch: nat, q: seq<Tx>, m: Retries, outcomes: seq<Outcome>)
    requires |Keep(c, q[..DrainCount(q, maxBatch)])| > MAX_BATCH_SIZE
    ensures var (q', _, emitted) := Forced(c, maxBatch, q, m, outcomes);
            |q'| > MAX_BATCH_SIZE && emitted == []
    decreases |outcomes|
  {
    hide Keep;
    var k := DrainCount(q, maxBatch);
    KeepShrinks(c, q[..k]);
    if outcomes != [] {
      var valid, rest := Keep(c, q[..k]), q[k..];
      var q' := valid + rest;
      var k' := DrainCount(q', maxBatch);
      assert q'[..k'] == valid + rest[..k' - |valid|];
      KeepConcat(c, valid, rest[..k' - |valid|]);
      KeepTwice(c, q[..k]);
      OversizedHeadNeverLeaves(c, maxBatch, q', m, outcomes[1..]);
    }
  }

  lemma KeepTwice(c: Crypto, txs: seq<Tx>)
    ensures Keep(c, Keep(c, txs)) == Keep(c, txs)
  {
    ValidOnlyAllValid(c, DEFAULT_ALGORITHM, txs);
    ValidOnlyIdentity(c, DEFAULT_ALGORITHM, Keep(c, txs));
  }

  /**
   * The exact condition: a queue of valid transactions is emptied by forced cycles
   * under every prover behaviour iff no drain exceeds MAX_BATCH_SIZE.
   */
  lemma ForcedCyclesEmptyIff(c: Crypto, maxBatch: nat, q: seq<Tx>, m: Retries)
    requires maxBatch >= 1 && RetriesInRange(m) && Keep(c, q) == q
    ensures (forall outcomes: seq<Outcome> | |outcomes| >= 5 * |q| :: Forced(c, maxBatch, q, m, outcomes).0 == [])
            <==> Min(maxBatch, |q|) <= MAX_BATCH_SIZE
  {
    if Min(maxBatch, |q|) <= MAX_BATCH_SIZE {
      forall outcomes: seq<Outcome> | |outcomes| >= 5 * |q|
        ensures Forced(c, maxBatch, q, m, outcomes).0 == []
      {
        ForcedCyclesEmpty(c, maxBatch, q, m, outcomes);
      }
    } else {
      var k := DrainCount(q, maxBatch);
      assert [] + q == q;
      KeepOfKept(c, q, [], q, k);
      OversizedHeadNeverLeaves(c, maxBatch, q, m, Crashes(5 * |q|));
    }
  }
}
