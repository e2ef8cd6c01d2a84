/**
 * The indexes of the node refine the retained history: each is a function of it.
 */
module NodeIndex {
  import opened Bytes
  import opened Prelude
  import opened Batch
  import opened Batcher
  import opened Node

  /** One retained transaction: its hash, its sender and the batch that holds it. */
  datatype Entry = Entry(hash: Digest32, sender: string, batchId: nat)

  function EntriesOf(c: Crypto, txs: seq<Tx>, id: nat): (es: seq<Entry>)
    ensures |es| == |txs|
  {
    seq(|txs|, i requires 0 <= i < |txs| => Entry(TxHash(c, txs[i]), txs[i].sender, id))
  }

  /** The retained transactions, oldest first. */
  function Entries(c: Crypto, history: seq<BatchResult>): seq<Entry> {
    if history == [] then []
    else EntriesOf(c, history[0].batch.transactions, history[0].batch.batchId) + Entries(c, history[1..])
  }

  /** The hashes of one sender among the entries, in order. */
  function OfSender(es: seq<Entry>, sender: string): seq<Digest32> {
    if es == [] then []
    else OfSender(es[..|es| - 1], sender) + if es[|es| - 1].sender == sender then [es[|es| - 1].hash] else []
  }

  /** The transaction map the entries determine. */
  function TxMap(es: seq<Entry>): map<Digest32, nat> {
    if es == [] then map[] else TxMap(es[..|es| - 1])[es[|es| - 1].hash := es[|es| - 1].batchId]
  }

  ghost function BatchMap(history: seq<BatchResult>): map<nat, BatchResult> {
    if history == [] then map[]
    else BatchMap(history[..|history| - 1])[history[|history| - 1].batch.batchId := history[|history| - 1]]
  }

  ghost predicate DistinctHashes(es: seq<Entry>) {
    forall i, j | 0 <= i < j < |es| :: es[i].hash != es[j].hash
  }

  ghost predicate DistinctIds(history: seq<BatchResult>) {
    forall i, j | 0 <= i < j < |history| :: history[i].batch.batchId != history[j].batch.batchId
  }

  /** A sender has a key iff it has a retained transaction, and its ring holds the
      last 500 of its retained hashes, in order. */
  ghost predicate SendersMatch(es: seq<Entry>, senderTxs: map<string, seq<Digest32>>) {
    forall s: string ::
      && (s in senderTxs <==> OfSender(es, s) != [])
      && (s in senderTxs ==> senderTxs[s] == LastN(OfSender(es, s), MAX_SENDER_HISTORY))
  }

  /** Every index is exactly what the retained history determines. */
  ghost predicate Indexed(c: Crypto, ix: Index) {
    && |ix.history| <= MAX_HISTORY
    && DistinctIds(ix.history)
    && DistinctHashes(Entries(c, ix.history))
    && ix.batchIndex == BatchMap(ix.history)
    && ix.txToBatch == TxMap(Entries(c, ix.history))
    && SendersMatch(Entries(c, ix.history), ix.senderTxs)
  }

  // ------------------------------------------------------- sequence algebra

  lemma {:induction false} EntriesConcat(c: Crypto, a: seq<BatchResult>, b: seq<BatchResult>)
    ensures Entries(c, a + b) == Entries(c, a) + Entries(c, b)
  {
    hide EntriesOf, TxHash;
    if a == [] {
      assert [] + b == b;
    } else {
      assert a + b != [] && (a + b)[0] == a[0];
      EntriesConcat(c, a[1..], b);
      assert (a + b)[1..] == a[1..] + b;
      var head := EntriesOf(c, a[0].batch.transactions, a[0].batch.batchId);
      ConcatAssociates(head, Entries(c, a[1..]), Entries(c, b));
    }
  }

  lemma {:induction false} OfSenderConcat(a: seq<Entry>, b: seq<Entry>, s: string)
    ensures OfSender(a + b, s) == OfSender(a, s) + OfSender(b, s)
  {
    if b == [] {
      assert a + [] == a;
    } else {
      var init, last := b[..|b| - 1], b[|b| - 1];
      assert (a + b)[..|a + b| - 1] == a + init;
      OfSenderConcat(a, init, s);
    }
  }

  lemma {:induction false} TxMapKeys(es: seq<Entry>, k: nat)
    requires k < |es|
    ensures es[k].hash in TxMap(es)
  {
    if k < |es| - 1 {
      TxMapKeys(es[..|es| - 1], k);
    }
  }

  lemma {:induction false} TxMapOnlyKeys(es: seq<Entry>, h: Digest32)
    requires h in TxMap(es)
    ensures exists k :: 0 <= k < |es| && es[k].hash == h
  {
    if h != es[|es| - 1].hash {
      TxMapOnlyKeys(es[..|es| - 1], h);
      var k :| 0 <= k < |es| - 1 && es[..|es| - 1][k].hash == h;
      assert es[k].hash == h;
    }
  }

  lemma {:induction false} TxMapSize(es: seq<Entry>)
    requires DistinctHashes(es)
    ensures |TxMap(es)| == |es|
  {
    if es != [] {
      var init, last := es[..|es| - 1], es[|es| - 1];
      TxMapSize(init);
      if last.hash in TxMap(init) {
        TxMapOnlyKeys(init, last.hash);
      }
      assert TxMap(es).Keys == TxMap(init).Keys + {last.hash};
    }
  }

  lemma {:induction false} BatchMapSize(history: seq<BatchResult>)
    requires DistinctIds(history)
    ensures |BatchMap(history)| == |history|
  {
    if history != [] {
      var init, last := history[..|history| - 1], history[|history| - 1];
      BatchMapSize(init);
      BatchMapKeys(init, last.batch.batchId);
      assert BatchMap(history).Keys == BatchMap(init).Keys + {last.batch.batchId};
    }
  }

  lemma {:induction false} EntriesSize(c: Crypto, history: seq<BatchResult>)
    requires forall b | 0 <= b < |history| :: |history[b].batch.transactions| <= MAX_BATCH_SIZE
    ensures |Entries(c, history)| <= MAX_BATCH_SIZE * |history|
  {
    if history != [] {
      EntriesSize(c, history[1..]);
    }
  }

  lemma {:induction false} TxMapValue(es: seq<Entry>, k: nat)
    requires DistinctHashes(es) && k < |es|
    ensures es[k].hash in TxMap(es) && TxMap(es)[es[k].hash] == es[k].batchId
  {
    if k < |es| - 1 {
      TxMapValue(es[..|es| - 1], k);
    }
  }

  /** Removing the oldest entry's hash gives the map of the other entries. */
  lemma {:induction false} TxMapTail(e: Entry, rest: seq<Entry>)
    requires DistinctHashes([e] + rest)
    ensures TxMap([e] + rest) - {e.hash} == TxMap(rest)
  {
    var all := [e] + rest;
    if rest == [] {
      assert all[..|all| - 1] == [];
    } else {
      var init, last := rest[..|rest| - 1], rest[|rest| - 1];
      assert all[..|all| - 1] == [e] + init;
      assert DistinctHashes([e] + init) by {
        assert forall i | 0 <= i < |[e] + init| :: ([e] + init)[i] == all[i];
      }
      TxMapTail(e, init);
      assert last.hash != e.hash by { assert all[0] == e && all[|all| - 1] == last; }
    }
  }

  lemma {:induction false} BatchMapKeys(history: seq<BatchResult>, id: nat)
    ensures id in BatchMap(history) <==> exists k :: 0 <= k < |history| && history[k].batch.batchId == id
  {
    if history != [] {
      var init, last := history[..|history| - 1], history[|history| - 1];
      BatchMapKeys(init, id);
      if id in BatchMap(history) {
        if id == last.batch.batchId {
          assert history[|history| - 1].batch.batchId == id;
        } else {
          var k :| 0 <= k < |init| && init[k].batch.batchId == id;
          assert history[k].batch.batchId == id;
        }
      }
      if k :| 0 <= k < |history| && history[k].batch.batchId == id {
        if k < |init| {
          assert init[k].batch.batchId == id;
        }
      }
    }
  }

  lemma {:induction false} BatchMapTail(r: BatchResult, rest: seq<BatchResult>)
    requires DistinctIds([r] + rest)
    ensures BatchMap([r] + rest) - {r.batch.batchId} == BatchMap(rest)
  {
    var all := [r] + rest;
    if rest == [] {
      assert all[..|all| - 1] == [];
    } else {
      var init, last := rest[..|rest| - 1], rest[|rest| - 1];
      assert all[..|all| - 1] == [r] + init;
      assert DistinctIds([r] + init) by {
        assert forall i | 0 <= i < |[r] + init| :: ([r] + init)[i] == all[i];
      }
      BatchMapTail(r, init);
      assert last.batch.batchId != r.batch.batchId by { assert all[0] == r && all[|all| - 1] == last; }
    }
  }

  // ------------------------------------------------------- the sender rings

  /** Appending to a full ring and appending to the whole list leave the same ring. */
  lemma RingAppend<T>(s: seq<T>, x: T, n: nat)
    requires n > 0
    ensures LastN(LastN(s, n) + [x], n) == LastN(s + [x], n)
    ensures LastN(s, n) == [] <==> s == []
  {
  }

  /** Removing the oldest element from the ring of a list without repeats gives the
      ring of the list's tail, whether or not the ring still held it. */
  lemma RingRemoveOldest<T>(x: T, s: seq<T>, n: nat)
    requires x !in s
    ensures RemoveFirst(LastN([x] + s, n), x) == LastN(s, n)
  {
    if |s| + 1 <= n {
      assert LastN([x] + s, n) == [x] + s && ([x] + s)[1..] == s;
    } else {
      assert LastN([x] + s, n) == LastN(s, n);
      RemoveAbsent(LastN(s, n), x);
    }
  }

  lemma {:induction false} RemoveAbsent<T>(s: seq<T>, x: T)
    requires x !in s
    ensures RemoveFirst(s, x) == s
  {
    if s != [] {
      RemoveAbsent(s[1..], x);
      assert s == [s[0]] + s[1..];
    }
  }

  lemma {:induction false} OfSenderAvoids(es: seq<Entry>, s: string, h: Digest32)
    requires forall k | 0 <= k < |es| :: es[k].hash != h
    ensures h !in OfSender(es, s)
  {
    if es != [] {
      OfSenderAvoids(es[..|es| - 1], s, h);
    }
  }

  // ------------------------------------------------ one transaction at a time

  /** The two transaction indexes agree with a list of entries. */
  ghost predicate TxsIndexed(es: seq<Entry>, ix: Index) {
    ix.txToBatch == TxMap(es) && SendersMatch(es, ix.senderTxs)
  }

  function EntryOf(c: Crypto, tx: Tx, id: nat): Entry {
    Entry(TxHash(c, tx), tx.sender, id)
  }

  lemma WithTxIndexed(c: Crypto, es: seq<Entry>, ix: Index, tx: Tx, id: nat)
    requires TxsIndexed(es, ix)
    ensures TxsIndexed(es + [EntryOf(c, tx, id)], WithTx(c, ix, tx, id))
  {
    hide LastN;
    var e := EntryOf(c, tx, id);
    var all := es + [e];
    assert all[..|all| - 1] == es;
    var ix' := WithTx(c, ix, tx, id);
    forall s: string
      ensures s in ix'.senderTxs <==> OfSender(all, s) != []
      ensures s in ix'.senderTxs ==> ix'.senderTxs[s] == LastN(OfSender(all, s), MAX_SENDER_HISTORY)
    {
      RingAppend(OfSender(es, s), e.hash, MAX_SENDER_HISTORY);
      assert OfSender(es, s) + [] == OfSender(es, s);
    }
  }

  lemma WithoutTxIndexed(c: Crypto, ix: Index, tx: Tx, id: nat, rest: seq<Entry>)
    requires DistinctHashes([EntryOf(c, tx, id)] + rest)
    requires TxsIndexed([EntryOf(c, tx, id)] + rest, ix)
    ensures TxsIndexed(rest, WithoutTx(c, ix, tx))
  {
    hide LastN, OfSender, RemoveFirst, TxMap, TxHash;
    var e := EntryOf(c, tx, id);
    TxMapTail(e, rest);
    assert forall k | 0 <= k < |rest| :: rest[k] == ([e] + rest)[k + 1];
    assert ([e] + rest)[0] == e;
    var ix' := WithoutTx(c, ix, tx);
    forall s: string
      ensures s in ix'.senderTxs <==> OfSender(rest, s) != []
      ensures s in ix'.senderTxs ==> ix'.senderTxs[s] == LastN(OfSender(rest, s), MAX_SENDER_HISTORY)
    {
      OfSenderConcat([e], rest, s);
      OfSenderSingle(e, s);
      if s == e.sender {
        OfSenderAvoids(rest, s, e.hash);
        RingRemoveOldest(e.hash, OfSender(rest, s), MAX_SENDER_HISTORY);
        LastNEmpty(OfSender(rest, s), MAX_SENDER_HISTORY);
      } else {
        assert [] + OfSender(rest, s) == OfSender(rest, s);
      }
    }
  }

  lemma LastNEmpty<T>(s: seq<T>, n: nat)
    requires n > 0
    ensures LastN(s, n) == [] <==> s == []
  {
  }

  lemma OfSenderSingle(e: Entry, s: string)
    ensures OfSender([e], s) == if s == e.sender then [e.hash] else []
  {
    assert [e][..0] == [];
  }

  // ------------------------------------------------------------ whole batches

  lemma {:induction false} WithTxsIndexed(c: Crypto, es: seq<Entry>, ix: Index, txs: seq<Tx>, id: nat)
    requires TxsIndexed(es, ix)
    ensures TxsIndexed(es + EntriesOf(c, txs, id), WithTxs(c, ix, txs, id))
  {
    hide TxsIndexed;
    if txs == [] {
      assert es + EntriesOf(c, txs, id) == es;
    } else {
      var init, last := txs[..|txs| - 1], txs[|txs| - 1];
      WithTxsIndexed(c, es, ix, init, id);
      WithTxIndexed(c, es + EntriesOf(c, init, id), WithTxs(c, ix, init, id), last, id);
      assert EntriesOf(c, txs, id) == EntriesOf(c, init, id) + [EntryOf(c, last, id)];
      assert es + EntriesOf(c, init, id) + [EntryOf(c, last, id)] == es + EntriesOf(c, txs, id);
    }
  }

  lemma {:induction false} WithoutTxsIndexed(c: Crypto, ix: Index, txs: seq<Tx>, id: nat, rest: seq<Entry>)
    requires DistinctHashes(EntriesOf(c, txs, id) + rest)
    requires TxsIndexed(EntriesOf(c, txs, id) + rest, ix)
    ensures TxsIndexed(rest, WithoutTxs(c, ix, txs))
  {
    hide TxsIndexed;
    if txs == [] {
      assert EntriesOf(c, txs, id) + rest == rest;
    } else {
      var init, last := txs[..|txs| - 1], EntryOf(c, txs[|txs| - 1], id);
      var rest' := [last] + rest;
      assert EntriesOf(c, init, id) + rest' == EntriesOf(c, txs, id) + rest;
      WithoutTxsIndexed(c, ix, init, id, rest');
      assert DistinctHashes(rest') by {
        DistinctSuffix(EntriesOf(c, init, id), rest');
      }
      WithoutTxIndexed(c, WithoutTxs(c, ix, init), txs[|txs| - 1], id, rest);
    }
  }

  lemma DistinctSuffix(a: seq<Entry>, b: seq<Entry>)
    requires DistinctHashes(a + b)
    ensures DistinctHashes(b)
  {
    forall i, j | 0 <= i < j < |b|
      ensures b[i].hash != b[j].hash
    {
      assert (a + b)[|a| + i] == b[i] && (a + b)[|a| + j] == b[j];
    }
  }

  /** Eviction keeps the refinement and forgets exactly the oldest batch. */
  lemma EvictedIndexed(c: Crypto, ix: Index)
    requires Indexed(c, ix) && ix.history != []
    ensures Indexed(c, Evicted(c, ix))
    ensures Evicted(c, ix).history == ix.history[1..]
  {
    hide Indexed, DistinctHashes, TxsIndexed, EntriesOf, DistinctIds, BatchMap, WithoutTxs;
    IndexedParts(c, ix);
    var oldest, rest := ix.history[0], ix.history[1..];
    var es, left := EntriesOf(c, oldest.batch.transactions, oldest.batch.batchId), Entries(c, rest);
    assert ix.history == [oldest] + rest;
    BatchMapTail(oldest, rest);
    WithoutTxsIndexed(c, ix, oldest.batch.transactions, oldest.batch.batchId, left);
    DistinctSuffix(es, left);
    DistinctIdsSuffix(ix.history);
    SameTxsIndexed(left, WithoutTxs(c, ix, oldest.batch.transactions), Evicted(c, ix));
    PartsIndexed(c, Evicted(c, ix));
  }

  lemma SameTxsIndexed(es: seq<Entry>, ix: Index, ix': Index)
    requires TxsIndexed(es, ix) && ix.txToBatch == ix'.txToBatch && ix.senderTxs == ix'.senderTxs
    ensures TxsIndexed(es, ix')
  {
  }

  lemma DistinctIdsSuffix(history: seq<BatchResult>)
    requires DistinctIds(history) && history != []
    ensures DistinctIds(history[1..])
  {
    assert forall i | 0 <= i < |history| - 1 :: history[1..][i] == history[i + 1];
  }

  lemma IndexedParts(c: Crypto, ix: Index)
    requires Indexed(c, ix)
    ensures |ix.history| <= MAX_HISTORY && DistinctIds(ix.history) && DistinctHashes(Entries(c, ix.history))
    ensures ix.batchIndex == BatchMap(ix.history) && TxsIndexed(Entries(c, ix.history), ix)
  {
  }

  lemma PartsIndexed(c: Crypto, ix: Index)
    requires |ix.history| <= MAX_HISTORY && DistinctIds(ix.history) && DistinctHashes(Entries(c, ix.history))
    requires ix.batchIndex == BatchMap(ix.history) && TxsIndexed(Entries(c, ix.history), ix)
    ensures Indexed(c, ix)
  {
  }

  /** What a new batch must bring: an id and hashes not in the retained history,
      and no hash twice. */
  ghost predicate NewTo(c: Crypto, ix: Index, result: BatchResult) {
    && result.batch.batchId !in ix.batchIndex
    && var txs := result.batch.transactions;
       && (forall i | 0 <= i < |txs| :: TxHash(c, txs[i]) !in ix.txToBatch)
       && (forall i, j | 0 <= i < j < |txs| :: TxHash(c, txs[i]) != TxHash(c, txs[j]))
  }

  lemma AppendedDistinct(c: Crypto, ix: Index, result: BatchResult)
    requires Indexed(c, ix) && NewTo(c, ix, result)
    ensures DistinctIds(ix.history + [result])
    ensures DistinctHashes(Entries(c, ix.history) + EntriesOf(c, result.batch.transactions, result.batch.batchId))
  {
    var h, es := ix.history + [result], Entries(c, ix.history);
    var added := EntriesOf(c, result.batch.transactions, result.batch.batchId);
    forall i | 0 <= i < |ix.history|
      ensures ix.history[i].batch.batchId != result.batch.batchId
    {
      BatchMapKeys(ix.history, ix.history[i].batch.batchId);
    }
    forall i, j | 0 <= i < |es| && 0 <= j < |added|
      ensures es[i].hash != added[j].hash
    {
      TxMapKeys(es, i);
    }
  }

  lemma AppendedIndexed(c: Crypto, ix: Index, result: BatchResult)
    requires Indexed(c, ix) && NewTo(c, ix, result) && |ix.history| < MAX_HISTORY
    ensures Indexed(c, Appended(c, ix, result))
    ensures Appended(c, ix, result).history == ix.history + [result]
  {
    hide DistinctHashes, SendersMatch, NewTo;
    AppendedDistinct(c, ix, result);
    var h := ix.history + [result];
    var ix' := ix.(history := h, batchIndex := ix.batchIndex[result.batch.batchId := result]);
    assert h[..|h| - 1] == ix.history;
    EntriesConcat(c, ix.history, [result]);
    EntriesSingle(c, result);
    WithTxsIndexed(c, Entries(c, ix.history), ix', result.batch.transactions, result.batch.batchId);
  }

  lemma EntriesSingle(c: Crypto, result: BatchResult)
    ensures Entries(c, [result]) == EntriesOf(c, result.batch.transactions, result.batch.batchId)
  {
    var one := [result];
    assert one[1..] == [];
  }

  /** An id or a hash that eviction removes is new again, and none appears. */
  lemma EvictionOnlyForgets(c: Crypto, ix: Index)
    requires Indexed(c, ix) && ix.history != []
    ensures Evicted(c, ix).batchIndex.Keys <= ix.batchIndex.Keys
    ensures Evicted(c, ix).txToBatch.Keys <= ix.txToBatch.Keys
  {
    WithoutTxsForgets(c, ix, ix.history[0].batch.transactions);
  }

  lemma {:induction false} WithoutTxsForgets(c: Crypto, ix: Index, txs: seq<Tx>)
    ensures WithoutTxs(c, ix, txs).txToBatch.Keys <= ix.txToBatch.Keys
  {
    if txs != [] {
      WithoutTxsForgets(c, ix, txs[..|txs| - 1]);
    }
  }

  /**
   * Index refinement.  Recording a batch that is new to the retained history keeps
   * every index equal to what the history determines; the history is the last
   * MAX_HISTORY results.
   */
  lemma RecordedIndexed(c: Crypto, ix: Index, result: BatchResult)
    requires Indexed(c, ix) && NewTo(c, ix, result)
    ensures Indexed(c, Recorded(c, ix, result))
    ensures Recorded(c, ix, result).history == LastN(ix.history + [result], MAX_HISTORY)
  {
    assert |ix.history| <= MAX_HISTORY;
    hide Indexed;
    if |ix.history| == MAX_HISTORY {
      EvictedIndexed(c, ix);
      EvictionOnlyForgets(c, ix);
      AppendedIndexed(c, Evicted(c, ix), result);
      assert (ix.history + [result])[1..] == ix.history[1..] + [result];
    } else {
      AppendedIndexed(c, ix, result);
    }
  }

  /** No transaction is in two retained batches, and each lookup finds its batch. */
  lemma LookupsAgree(c: Crypto, ix: Index, b: nat, t: nat)
    requires Indexed(c, ix) && b < |ix.history| && t < |ix.history[b].batch.transactions|
    ensures var batch := ix.history[b].batch;
            var h := TxHash(c, batch.transactions[t]);
            && h in ix.txToBatch && ix.txToBatch[h] == batch.batchId
            && batch.batchId in ix.batchIndex && ix.batchIndex[batch.batchId] == ix.history[b]
            && forall b', t' | 0 <= b' < |ix.history| && 0 <= t' < |ix.history[b'].batch.transactions| ::
                 TxHash(c, ix.history[b'].batch.transactions[t']) == h ==> b' == b && t' == t
  {
    var batch := ix.history[b].batch;
    var es := Entries(c, ix.history);
    var k := EntryPosition(c, ix.history, b, t);
    TxMapValue(es, k);
    BatchMapValue(ix.history, b);
    forall b', t' | 0 <= b' < |ix.history| && 0 <= t' < |ix.history[b'].batch.transactions|
                    && TxHash(c, ix.history[b'].batch.transactions[t']) == TxHash(c, batch.transactions[t])
      ensures b' == b && t' == t
    {
      var k' := EntryPosition(c, ix.history, b', t');
      assert k' == k;
      PositionInjective(c, ix.history, b, t, b', t');
    }
  }

  /** What a lookup finds is retained: a batch id that is found belongs to a retained batch,
      and a hash that is found is that of a transaction in the batch it is mapped to. */
  lemma FoundIsRetained(c: Crypto, ix: Index, id: nat, h: Digest32)
    requires Indexed(c, ix)
    ensures id in ix.batchIndex ==>
      exists b :: 0 <= b < |ix.history| && ix.batchIndex[id] == ix.history[b] && ix.history[b].batch.batchId == id
    ensures h in ix.txToBatch ==>
      exists b, t :: 0 <= b < |ix.history| && 0 <= t < |ix.history[b].batch.transactions|
                     && TxHash(c, ix.history[b].batch.transactions[t]) == h && ix.history[b].batch.batchId == ix.txToBatch[h]
  {
    hide EntriesOf, TxHash, BatchMap, TxMap, SendersMatch;
    if id in ix.batchIndex {
      var b := FoundBatch(ix.history, id);
    }
    if h in ix.txToBatch {
      var es := Entries(c, ix.history);
      TxMapOnlyKeys(es, h);
      var k :| 0 <= k < |es| && es[k].hash == h;
      TxMapValue(es, k);
      var b, t := EntryHolder(c, ix.history, k);
    }
  }

  lemma {:induction false} FoundBatch(history: seq<BatchResult>, id: nat) returns (b: nat)
    requires id in BatchMap(history)
    ensures b < |history| && BatchMap(history)[id] == history[b] && history[b].batch.batchId == id
  {
    b := |history| - 1;
    if history[b].batch.batchId != id {
      b := FoundBatch(history[..|history| - 1], id);
    }
  }

  lemma {:induction false} EntryHolder(c: Crypto, history: seq<BatchResult>, k: nat) returns (b: nat, t: nat)
    requires k < |Entries(c, history)|
    ensures b < |history| && t < |history[b].batch.transactions|
    ensures Entries(c, history)[k] == EntryOf(c, history[b].batch.transactions[t], history[b].batch.batchId)
  {
    hide TxHash;
    var n := |history[0].batch.transactions|;
    var head, rest := EntriesOf(c, history[0].batch.transactions, history[0].batch.batchId), Entries(c, history[1..]);
    assert Entries(c, history) == head + rest;
    if k < n {
      assert (head + rest)[k] == head[k];
      b, t := 0, k;
    } else {
      assert (head + rest)[k] == rest[k - n];
      b, t := EntryHolder(c, history[1..], k - n);
      b := b + 1;
    }
  }

  ghost function Position(c: Crypto, history: seq<BatchResult>, b: nat, t: nat): nat
    requires b < |history| && t < |history[b].batch.transactions|
  {
    if b == 0 then t else |history[0].batch.transactions| + Position(c, history[1..], b - 1, t)
  }

  lemma {:induction false} EntryPosition(c: Crypto, history: seq<BatchResult>, b: nat, t: nat) returns (k: nat)
    requires b < |history| && t < |history[b].batch.transactions|
    ensures k == Position(c, history, b, t)
    ensures k < |Entries(c, history)|
    ensures Entries(c, history)[k] == EntryOf(c, history[b].batch.transactions[t], history[b].batch.batchId)
  {
    if b == 0 {
      k := t;
    } else {
      var k' := EntryPosition(c, history[1..], b - 1, t);
      k := |history[0].batch.transactions| + k';
    }
  }

  lemma {:induction false} PositionInjective(c: Crypto, history: seq<BatchResult>, b: nat, t: nat, b': nat, t': nat)
    requires b < |history| && t < |history[b].batch.transactions|
    requires b' < |history| && t' < |history[b'].batch.transactions|
    requires Position(c, history, b, t) == Position(c, history, b', t')
    ensures b == b' && t == t'
  {
    if b > 0 && b' > 0 {
      PositionInjective(c, history[1..], b - 1, t, b' - 1, t');
    }
  }

  lemma {:induction false} BatchMapValue(history: seq<BatchResult>, k: nat)
    requires DistinctIds(history) && k < |history|
    ensures history[k].batch.batchId in BatchMap(history)
    ensures BatchMap(history)[history[k].batch.batchId] == history[k]
  {
    if k < |history| - 1 {
      BatchMapValue(history[..|history| - 1], k);
    }
  }
}
