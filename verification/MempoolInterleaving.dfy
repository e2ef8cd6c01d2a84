/**
 * The pool under threads.  Each Mempool operation runs under its lock, so a run is
 * any interleaving of whole operations; what a batcher thread has drained and not
 * yet emitted or returned is in flight.
 */
module MempoolInterleaving {
  import opened Prelude
  import opened Batch
  import opened Mempool

  // ------------------------------------------------ runs of the whole system

  /** The pool, what each batcher thread holds, and a record of every fate. */
  datatype System = System(
    pool: Pool,
    inFlight: seq<seq<Tx>>,
    accepted: seq<Tx>,
    batched: seq<Tx>,
    rejected: seq<Tx>,
    overflow: seq<Tx>)

  datatype Step =
    | Add(tx: Tx)
    | Drain(thread: nat, n: int)
    | DrainIfReady(thread: nat, minN: nat, maxN: nat)
    | DropInvalid(thread: nat)
    | Return(thread: nat)
    | Emit(thread: nat)

  datatype PoolConfig = PoolConfig(crypto: Crypto, algorithm: string, capacity: nat)

  ghost function HandOver(cfg: PoolConfig, s: System, thread: nat, n: nat): System
    requires thread < |s.inFlight| && s.inFlight[thread] == [] && n <= |s.pool.txs|
  {
    s.(pool := Taken(cfg.crypto, s.pool, n), inFlight := s.inFlight[thread := s.pool.txs[..n]])
  }

  /** One atomic step; a step whose thread is unknown or busy changes nothing. */
  ghost function Next(cfg: PoolConfig, s: System, step: Step): System {
    match step
    case Add(tx) =>
      (match AddResult(cfg.crypto, cfg.capacity, s.pool, tx)
       case Failure(_) => s
       case Success(p) => s.(pool := p, accepted := s.accepted + [tx]))
    case Drain(t, n) =>
      if t < |s.inFlight| && s.inFlight[t] == [] then HandOver(cfg, s, t, DrainCount(s.pool.txs, n)) else s
    case DrainIfReady(t, lo, hi) =>
      if t < |s.inFlight| && s.inFlight[t] == [] then HandOver(cfg, s, t, DrainIfReadyCount(s.pool.txs, lo, hi)) else s
    case DropInvalid(t) =>
      if t < |s.inFlight| then
        s.(inFlight := s.inFlight[t := ValidOnly(cfg.crypto, cfg.algorithm, s.inFlight[t])],
           rejected := s.rejected + InvalidOnly(cfg.crypto, cfg.algorithm, s.inFlight[t]))
      else s
    case Return(t) =>
      if t < |s.inFlight| then
        var txs := s.inFlight[t];
        s.(pool := Prepended(cfg.crypto, cfg.capacity, s.pool, txs),
           inFlight := s.inFlight[t := []],
           overflow := s.overflow + txs[Fit(cfg.capacity, |s.pool.txs|, |txs|)..])
      else s
    case Emit(t) =>
      if t < |s.inFlight| then
        s.(inFlight := s.inFlight[t := []], batched := s.batched + s.inFlight[t])
      else s
  }

  ghost function Run(cfg: PoolConfig, threads: nat, steps: seq<Step>): System {
    if steps == [] then
      System(Pool([], {}, 0), seq(threads, _ => []), [], [], [], [])
    else Next(cfg, Run(cfg, threads, steps[..|steps| - 1]), steps[|steps| - 1])
  }

  /** What survives every interleaving: the bounds of the pool ... */
  ghost predicate Bounded(cfg: PoolConfig, s: System) {
    && |s.pool.txs| <= cfg.capacity
    && s.pool.hashes <= HashSet(cfg.crypto, s.pool.txs)
  }

  /** ... and the fate of every accepted transaction. */
  ghost predicate Accounted(s: System) {
    && s.pool.dropped == |s.overflow|
    && multiset(s.accepted) == Fates(s)
  }

  ghost function Fates(s: System): multiset<Tx> {
    Sum(multiset(s.pool.txs), multiset(Flatten(s.inFlight)), multiset(s.batched),
        multiset(s.rejected), multiset(s.overflow))
  }

  ghost function Sum(pending: multiset<Tx>, held: multiset<Tx>, batched: multiset<Tx>,
                     rejected: multiset<Tx>, overflow: multiset<Tx>): multiset<Tx> {
    pending + held + batched + rejected + overflow
  }

  lemma NextKeepsBounds(cfg: PoolConfig, s: System, step: Step)
    requires Bounded(cfg, s)
    ensures Bounded(cfg, Next(cfg, s, step))
  {
    var c := cfg.crypto;
    match step
    case Add(tx) =>
      HashSetConcat(c, s.pool.txs, [tx]);
      assert [tx][0] == tx;
    case Drain(t, n) =>
      HashSetSplit(c, s.pool.txs, DrainCount(s.pool.txs, n));
    case DrainIfReady(t, lo, hi) =>
      HashSetSplit(c, s.pool.txs, DrainIfReadyCount(s.pool.txs, lo, hi));
    case DropInvalid(t) =>
    case Return(t) =>
      if t < |s.inFlight| {
        HashSetConcat(c, s.inFlight[t][..Fit(cfg.capacity, |s.pool.txs|, |s.inFlight[t]|)], s.pool.txs);
      }
    case Emit(t) =>
  }

  lemma SumHandsOver(p: multiset<Tx>, h: multiset<Tx>, b: multiset<Tx>, r: multiset<Tx>, o: multiset<Tx>, m: multiset<Tx>)
    ensures Sum(p + m, h, b, r, o) == Sum(p, h + m, b, r, o)
    ensures Sum(p, h + m, b, r, o) == Sum(p, h, b + m, r, o)
    ensures Sum(p, h + m, b, r, o) == Sum(p, h, b, r + m, o)
    ensures Sum(p, h + m, b, r, o) == Sum(p, h, b, r, o + m)
  {
  }

  lemma SumGrows(p: multiset<Tx>, h: multiset<Tx>, b: multiset<Tx>, r: multiset<Tx>, o: multiset<Tx>, m: multiset<Tx>)
    ensures Sum(p + m, h, b, r, o) == Sum(p, h, b, r, o) + m
  {
  }

  lemma HandOverAccounted(cfg: PoolConfig, s: System, t: nat, n: nat)
    requires Accounted(s)
    requires t < |s.inFlight| && s.inFlight[t] == [] && n <= |s.pool.txs|
    ensures Accounted(HandOver(cfg, s, t, n))
  {
    hide Sum;
    var a, b := s.pool.txs[..n], s.pool.txs[n..];
    assert s.pool.txs == b[..0] + a + b;
    assert multiset(s.pool.txs) == multiset(b) + multiset(a);
    FlattenUpdate(s.inFlight, t, a);
    var held := multiset(Flatten(s.inFlight[t := a]));
    assert held + multiset([]) == held;
    SumHandsOver(multiset(b), multiset(Flatten(s.inFlight)), multiset(s.batched),
                 multiset(s.rejected), multiset(s.overflow), multiset(a));
  }

  /** Emptying slot t of the in-flight lists takes out exactly what it held. */
  lemma SlotEmptied(s: System, t: nat) returns (held: multiset<Tx>)
    requires t < |s.inFlight|
    ensures held == multiset(Flatten(s.inFlight[t := []]))
    ensures multiset(Flatten(s.inFlight)) == held + multiset(s.inFlight[t])
  {
    held := multiset(Flatten(s.inFlight[t := []]));
    FlattenUpdate(s.inFlight, t, []);
  }

  lemma ReturnAccounted(cfg: PoolConfig, s: System, t: nat)
    requires Accounted(s) && t < |s.inFlight|
    ensures Accounted(Next(cfg, s, Return(t)))
  {
    hide Sum, Flatten, Prepended, Fit;
    var txs := s.inFlight[t];
    PrependedIs(cfg, s.pool, txs);
    var fit := Fit(cfg.capacity, |s.pool.txs|, |txs|);
    var kept, lost := txs[..fit], txs[fit..];
    var held := SlotEmptied(s, t);
    assert multiset(txs) == multiset(kept) + multiset(lost) by { assert txs == kept + lost; }
    ReturnBalances(multiset(s.pool.txs), held, multiset(s.batched), multiset(s.rejected), multiset(s.overflow),
                   multiset(kept), multiset(lost));
    assert multiset(kept + s.pool.txs) == multiset(s.pool.txs) + multiset(kept);
    assert multiset(s.overflow + lost) == multiset(s.overflow) + multiset(lost);
  }

  lemma PrependedIs(cfg: PoolConfig, p: Pool, txs: seq<Tx>)
    ensures var fit := Fit(cfg.capacity, |p.txs|, |txs|);
            && fit <= |txs|
            && Prepended(cfg.crypto, cfg.capacity, p, txs).txs == txs[..fit] + p.txs
            && Prepended(cfg.crypto, cfg.capacity, p, txs).dropped == p.dropped + |txs| - fit
  {
  }

  lemma ReturnBalances(p: multiset<Tx>, h: multiset<Tx>, b: multiset<Tx>, r: multiset<Tx>, o: multiset<Tx>,
                       kept: multiset<Tx>, lost: multiset<Tx>)
    ensures Sum(p, h + (kept + lost), b, r, o) == Sum(p + kept, h, b, r, o + lost)
  {
    hide Sum;
    assert h + (kept + lost) == (h + lost) + kept;
    SumHandsOver(p, h + lost, b, r, o, kept);
    SumHandsOver(p + kept, h, b, r, o, lost);
  }

  /** Filtering slot t takes exactly the invalid transactions out of it. */
  lemma SlotFiltered(c: Crypto, algorithm: string, s: System, t: nat) returns (held: multiset<Tx>)
    requires t < |s.inFlight|
    ensures held == multiset(Flatten(s.inFlight[t := ValidOnly(c, algorithm, s.inFlight[t])]))
    ensures multiset(Flatten(s.inFlight)) == held + multiset(InvalidOnly(c, algorithm, s.inFlight[t]))
  {
    var v, w := ValidOnly(c, algorithm, s.inFlight[t]), InvalidOnly(c, algorithm, s.inFlight[t]);
    held := multiset(Flatten(s.inFlight[t := v]));
    FlattenUpdate(s.inFlight, t, v);
    ValidPartition(c, algorithm, s.inFlight[t]);
    Cancel(multiset(Flatten(s.inFlight)), held, multiset(v), multiset(w));
  }

  lemma Cancel(a: multiset<Tx>, b: multiset<Tx>, v: multiset<Tx>, w: multiset<Tx>)
    requires b + (v + w) == a + v
    ensures a == b + w
  {
    assert a == (a + v) - v && b + w == (b + (v + w)) - v;
  }

  lemma DropInvalidAccounted(cfg: PoolConfig, s: System, t: nat)
    requires Accounted(s) && t < |s.inFlight|
    ensures Accounted(Next(cfg, s, DropInvalid(t)))
  {
    hide Sum;
    var w := InvalidOnly(cfg.crypto, cfg.algorithm, s.inFlight[t]);
    var held := SlotFiltered(cfg.crypto, cfg.algorithm, s, t);
    SumHandsOver(multiset(s.pool.txs), held, multiset(s.batched), multiset(s.rejected), multiset(s.overflow), multiset(w));
    assert multiset(s.rejected + w) == multiset(s.rejected) + multiset(w);
  }

  lemma EmitAccounted(cfg: PoolConfig, s: System, t: nat)
    requires Accounted(s) && t < |s.inFlight|
    ensures Accounted(Next(cfg, s, Emit(t)))
  {
    hide Sum;
    var held := SlotEmptied(s, t);
    SumHandsOver(multiset(s.pool.txs), held, multiset(s.batched), multiset(s.rejected), multiset(s.overflow),
                 multiset(s.inFlight[t]));
    assert multiset(s.batched + s.inFlight[t]) == multiset(s.batched) + multiset(s.inFlight[t]);
  }

  lemma AddAccounted(cfg: PoolConfig, s: System, tx: Tx)
    requires Accounted(s)
    ensures Accounted(Next(cfg, s, Add(tx)))
  {
    hide Sum;
    var p, h, m := multiset(s.pool.txs), multiset(Flatten(s.inFlight)), multiset{tx};
    assert multiset(s.pool.txs + [tx]) == p + m && multiset(s.accepted + [tx]) == multiset(s.accepted) + m;
    SumGrows(p, h, multiset(s.batched), multiset(s.rejected), multiset(s.overflow), m);
  }

  lemma NextKeepsAccount(cfg: PoolConfig, s: System, step: Step)
    requires Accounted(s)
    ensures Accounted(Next(cfg, s, step))
  {
    hide Sum, Accounted, HandOver;
    match step
    case Add(tx) =>
      AddAccounted(cfg, s, tx);
    case Drain(t, n) =>
      if t < |s.inFlight| && s.inFlight[t] == [] {
        HandOverAccounted(cfg, s, t, DrainCount(s.pool.txs, n));
      }
    case DrainIfReady(t, lo, hi) =>
      if t < |s.inFlight| && s.inFlight[t] == [] {
        HandOverAccounted(cfg, s, t, DrainIfReadyCount(s.pool.txs, lo, hi));
      }
    case DropInvalid(t) =>
      if t < |s.inFlight| {
        DropInvalidAccounted(cfg, s, t);
      }
    case Return(t) =>
      if t < |s.inFlight| {
        ReturnAccounted(cfg, s, t);
      }
    case Emit(t) =>
      if t < |s.inFlight| {
        EmitAccounted(cfg, s, t);
      }
  }

  lemma {:induction false} FlattenEmpties(n: nat)
    ensures Flatten<Tx>(seq(n, _ => [])) == []
  {
    if n > 0 {
      var ss: seq<seq<Tx>> := seq(n, _ => []);
      assert ss[1..] == seq(n - 1, _ => []);
      FlattenEmpties(n - 1);
    }
  }

  /**
   * Safety of every interleaving: the pool never exceeds its capacity, a hash in
   * the set is always queued, and every accepted transaction is accounted for as
   * pending, in flight, batched, rejected or dropped by overflow.
   */
  lemma {:induction false} EveryRunIsSafe(cfg: PoolConfig, threads: nat, steps: seq<Step>)
    ensures var s := Run(cfg, threads, steps);
            && Bounded(cfg, s)
            && Accounted(s)
            && |s.accepted| == |s.pool.txs| + |Flatten(s.inFlight)| + |s.batched| + |s.rejected| + s.pool.dropped
  {
    var s := Run(cfg, threads, steps);
    if steps == [] {
      FlattenEmpties(threads);
    } else {
      EveryRunIsSafe(cfg, threads, steps[..|steps| - 1]);
      NextKeepsBounds(cfg, Run(cfg, threads, steps[..|steps| - 1]), steps[|steps| - 1]);
      NextKeepsAccount(cfg, Run(cfg, threads, steps[..|steps| - 1]), steps[|steps| - 1]);
    }
    assert |s.accepted| == |multiset(s.accepted)| == |Fates(s)|;
  }

  /**
   * What does not survive interleaving: after a drain, a second submission of the
   * same transaction and the return of the drained one, it is queued twice, and
   * one more drain leaves it pending with its hash forgotten.
   */
  lemma DuplicateThroughReturn(cfg: PoolConfig, tx: Tx)
    requires cfg.capacity >= 2 && tx.signature.Some?
    ensures var s := Run(cfg, 1, [Add(tx), Drain(0, 1), Add(tx), Return(0)]);
            && s.pool.txs == [tx, tx]
            && !NoRepeats(cfg.crypto, s.pool.txs)
    ensures var s := Run(cfg, 1, [Add(tx), Drain(0, 1), Add(tx), Return(0), Drain(0, 1)]);
            s.pool.txs == [tx] && s.pool.hashes == {}
  {
    var s3 := ResubmittedInFlight(cfg, tx);
    var s4 := RunOne(cfg, [Add(tx), Drain(0, 1), Add(tx)], Return(0));
    assert [Add(tx), Drain(0, 1), Add(tx)] + [Return(0)] == [Add(tx), Drain(0, 1), Add(tx), Return(0)];
    ReturnsOne(cfg, s3, tx);
    assert TxHash(cfg.crypto, s4.pool.txs[0]) == TxHash(cfg.crypto, s4.pool.txs[1]);
    var s5 := RunOne(cfg, [Add(tx), Drain(0, 1), Add(tx), Return(0)], Drain(0, 1));
    assert [Add(tx), Drain(0, 1), Add(tx), Return(0)] + [Drain(0, 1)]
        == [Add(tx), Drain(0, 1), Add(tx), Return(0), Drain(0, 1)];
    DrainsOne(cfg, s4, tx);
    assert [tx, tx][1..] == [tx];
  }

  lemma ResubmittedInFlight(cfg: PoolConfig, tx: Tx) returns (s: System)
    requires cfg.capacity >= 2 && tx.signature.Some?
    ensures s == Run(cfg, 1, [Add(tx), Drain(0, 1), Add(tx)])
    ensures s.inFlight == [[tx]] && s.pool == Pool([tx], {TxHash(cfg.crypto, tx)}, 0)
  {
    var s0 := Run(cfg, 1, []);
    assert s0.inFlight == [[]];
    var s1 := RunOne(cfg, [], Add(tx));
    assert s1.pool == Pool([tx], {TxHash(cfg.crypto, tx)}, 0) && s1.inFlight == [[]];
    var s2 := RunOne(cfg, [Add(tx)], Drain(0, 1));
    DrainsOne(cfg, s1, tx);
    s := RunOne(cfg, [Add(tx), Drain(0, 1)], Add(tx));
    assert [Add(tx), Drain(0, 1)] + [Add(tx)] == [Add(tx), Drain(0, 1), Add(tx)];
  }

  lemma ReturnsOne(cfg: PoolConfig, s: System, tx: Tx)
    requires cfg.capacity >= 2
    requires s.inFlight == [[tx]] && s.pool == Pool([tx], {TxHash(cfg.crypto, tx)}, 0)
    ensures var d := Next(cfg, s, Return(0));
            d.pool == Pool([tx, tx], s.pool.hashes, 0) && d.inFlight == [[]]
  {
    HashSetCons(cfg.crypto, tx, []);
    var held := s.inFlight[0];
    assert held[..1] == held && Fit(cfg.capacity, 1, 1) == 1;
    assert held + s.pool.txs == [tx, tx];
    assert s.inFlight[0 := []] == [[]];
  }

  lemma DrainsOne(cfg: PoolConfig, s: System, tx: Tx)
    requires s.inFlight == [[]] && s.pool.txs != [] && s.pool.txs[0] == tx
    requires s.pool.hashes == {TxHash(cfg.crypto, tx)}
    ensures var d := Next(cfg, s, Drain(0, 1));
            && d.pool == Pool(s.pool.txs[1..], {}, s.pool.dropped)
            && d.inFlight == [[tx]]
  {
    HashSetCons(cfg.crypto, tx, []);
    assert s.pool.txs[..1] == [tx];
  }

  lemma RunOne(cfg: PoolConfig, steps: seq<Step>, step: Step) returns (s: System)
    ensures s == Run(cfg, 1, steps + [step]) == Next(cfg, Run(cfg, 1, steps), step)
  {
    s := Run(cfg, 1, steps + [step]);
    assert (steps + [step])[..|steps|] == steps;
  }
}
