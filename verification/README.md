# A verified model of the QLSA aggregation protocol

This project models the aggregator of QLSA (signed transactions are queued, drained in
batches, proved and indexed), the Merkle commitments behind a batch, the FRI hint
generator with its Fiat-Shamir channel, and four smaller components with exact promises,
and proves what they promise for all inputs and all runs.

| part | modules |
|---|---|
| Merkle tree, transactions, batches | `Merkle`, `Transaction`, `Batch` |
| mempool, batcher, node | `Mempool`, `MempoolInterleaving`, `Batcher`, `QueueMachine`, `Node`, `NodeIndex`, `NodeRuns`, `RetryRuns`, `NodeInterleaving` |
| field, permutation, channel, circle domain | `NumberTheory`, `Mersenne31`, `M31`, `Poseidon2Channel`, `Poseidon2Hash`, `CircleDomain` |
| FRI prover and on-chain verifier | `FriTree`, `Fri`, `FriFold`, `FriContract`, `FriHints`, `FriVerifier`, `FriBinding`, `Qm31`, `Qm31Field`, `WideBinding`, `CrossBinding`, `Vfri9` |
| rate limiter, base64, two AIRs | `RateLimiter`, `Base64`, `HashChain`, `PolyAdd` |

Code that updates state step by step is a class or a method with loops, proved against
specification functions over values; the theorems are lemmas about those functions, about
whole runs of them, and about what a verifier may conclude. `Bytes` and `Prelude` hold
shared types.

**Parameters.** SHA3, Blake2s, Keccak and signature verification are arbitrary functions
(`Crypto` in `Batch`, the hash parameters elsewhere). No hash is assumed to be
collision-free: a binding theorem says that the claim holds or that two strings *which were
hashed by the tree, path or proof at hand* collide; the hypothesis names those finite sets.
Where a hash ignores part of its input, as the node hashes of the FRI backends do, claim and
collision are both up to what it reads (`FriBinding.Reading`), so that what it ignores is no
way out.
Proving is an outcome (proven, unavailable, crashed) chosen freely in each cycle. Batch ids
and times are inputs. The extension field of the FRI prover (`Fri.Ops`) and its hash
backend (`Fri.Backend`) are arbitrary as well, so the theorems hold for every backend;
`Poseidon2Hash`, `Vfri9` and `WideBinding` instantiate them with the width-two hashes and
channel. What a fold means needs the laws of a field extension: they are named hypotheses
(`FriFold.FoldLaws`, `ProductLaws`, `Divides`), and the contract's arithmetic on reduced
elements, `Qm31` and `Qm31Field`, is proved to satisfy them. The base field, the permutation
of width two and the circle domain are modelled in full, down to the primality of 2^31 - 1.

**Where the code differs from what its comments and documentation say**, the model follows
the code and a lemma states the difference:

- A Merkle root does not fix the number of leaves (`Merkle.DuplicatedLastLeaf`).
- The 64-character address check accepts white space, so two different transactions can
  share a serialization (`Transaction.WhiteSpaceCollision`).
- A batcher configured with more than 3000 transactions per batch drains and returns an
  oversized head forever (`QueueMachine.OversizedHeadNeverLeaves`).
- `force_cycle` returns nothing not only when the mempool is empty, but also when
  everything drained was invalid, when the valid part exceeds a batch, or when the prover
  crashed with budget left, and in no other case (`QueueMachine.ForcedCycleReturnsNothingIff`;
  a run: `RetryRuns.CrashReturnsNothing`).
- The reset of the retry map can cost a batch one more cycle than the retry budget says
  (`QueueMachine.CyclesToEmit` says when, `RetryRuns.FifthCycleHappens` gives the runs).
- A transaction resubmitted while its batch is being proved passes both the replay guard
  and the pool's hash set, and can be batched twice (`NodeInterleaving.HeldIsBatchedTwice`);
  in sequential use, and as long as no accepted hash is in flight nor recorded since its
  replay check, it cannot.
- The contract refuses some of what the generator completes: more than 28 folds, a last
  layer above 2^16 values, or certain zeros, and nothing else (`FriHints.AcceptedIff`).  The
  channel replay has the same bound of 28 folds (`FriVerifier.GenerateAndReplay`).
- The contract does not compare a query's final value with the last layer, and checks no
  hint value for range.  Up to a collision the two agree modulo p, word by word
  (`WideBinding.FinalValueModP`), but not as supplied: any word of the last layer can be
  raised by p without the contract noticing (`WideBinding.RaisedLastLayer`).  They are equal
  exactly when the evaluation supplied is reduced, if the query's siblings are.
- The commitment fixes 24 of the trace root's 32 bytes (`FriHints.CommitmentInput`), which
  for width-two nodes are all zero: it says nothing of the trace
  (`Vfri9.CommitmentIgnoresTrace`).
- The AIR of the hash chain leaves the first leaf free (`HashChain.FirstLeafIsFree`).
- The addition AIR is sound only with the range of c established elsewhere
  (`PolyAdd.ExactlyTwoRows`).
- The rate limiter reads the clock before it takes its lock, so it is a window limiter only
  for calls that arrive in the order of their stamps (`RateLimiter.OrderDecides`).  An
  inversion needs several threads calling `_check_rate`; the middleware that ships calls it
  from one event loop.

## Model

| member | source | states |
|---|---|---|
| Merkle.NextLevel | core/merkle.py:26-34 | one pass of the loop turns level k into level k + 1 of the tree, the last node doubled when the level is odd |
| Merkle.BuildMerkleTree | core/merkle.py:14-36 | refuses exactly the empty list; otherwise every level of the result is the tree's and the last holds the root alone |
| Merkle.DepthIsLeast | core/merkle.py:26-34 | the number of levels above the leaves is the least d with 2^d >= number of leaves |
| Merkle.TreeIsPerfect | core/merkle.py:14-40 | the tree is the perfect binary tree over its leaf list expanded by the duplication rule, and that list has 2^depth entries |
| Merkle.SmallTrees | core/merkle.py:5-36 | the roots of one, two and three leaves written out with the two hash prefixes |
| Merkle.LeavesPrefixExpansion | core/merkle.py:26-34 | the leaves are a prefix of their expansion |
| Merkle.Binding | core/merkle.py:5-40 | two lists have equal roots iff they have equal expansions, hence equal depth, and are identical when their lengths agree, unless the two trees hash different strings to one digest |
| Merkle.DuplicatedLastLeaf | core/merkle.py:26-34 | why lengths must agree: a list of odd length above 1 and the same list with its last leaf repeated have one root, for every hash |
| Merkle.SiblingStep | core/merkle.py:55-66 | the step a level contributes: sibling and side of the index in the level padded to even length, or none when the level is too short |
| Merkle.GetMerkleProof | core/merkle.py:43-68 | for any list of levels: refuses exactly an index out of range or a missing sibling, otherwise returns the sibling of every level but the last; in a tree of the right shape only the index can be out of range |
| Merkle.ShapedHasProof | core/merkle.py:55-66 | in a tree of the right shape every leaf has a proof |
| Merkle.VerifyMerkleProof | core/merkle.py:71-82 | accepts iff the walk of the sibling list from the leaf ends in the root |
| Merkle.Completeness | core/merkle.py:14-82 | every generated proof verifies, and its length is the least d with 2^d >= number of leaves |
| Merkle.Soundness | core/merkle.py:5-36 | for arbitrary sibling lists, sides and lengths: an accepted proof has the depth of the tree, its sides spell a position of the expansion where the leaf stands, and the leaf is one of the leaves, unless an explicit pair of hashed strings collides |
| Transaction.FromHexLength | core/transaction.py:49-50 | a decoded address has one byte for two characters that are not white space |
| Transaction.FromHexInjective | core/transaction.py:49-50 | without white space, strings of one length that decode equally are equal up to letter case |
| Transaction.FromHexAcceptsIff | core/transaction.py:60-65 | a string decodes iff it holds digits and white space alone and every digit with an even number of digits before it is followed by another at once |
| Transaction.FromHexStrips | core/transaction.py:49-50 | what a string decodes to is what its digits alone decode to |
| Transaction.HexValueIsPosition | core/transaction.py:49-50 | the value of a digit is its position among the sixteen |
| Transaction.BigEndianInjective | core/transaction.py:51-53 | fixed-width big-endian fields determine their numbers |
| Transaction.AcceptedIffFieldsHold | core/transaction.py:28-45 | a transaction is accepted iff amount and nonce are what their eight bytes spell, the amount not zero, both addresses are 64 characters that decode, and the key has one of the three sizes |
| Transaction.ToBytesLayout | core/transaction.py:47-54 | the serialization read back with the place-value sum: both addresses, eight bytes that spell the amount, eight the nonce, four the key's length, and the key |
| Transaction.AddressLayout | core/transaction.py:49-50 | without white space each address takes 32 bytes, byte i being 16 times its digit 2i plus its digit 2i + 1 |
| Transaction.ToBytesDetermines | core/transaction.py:47-54 | equal serializations of accepted transactions fix amount, nonce, key and the concatenated addresses; the addresses one by one exactly when the senders hold equally much white space |
| Transaction.ToBytesInjective | core/transaction.py:47-54 | without white space in addresses the serialization is injective on the signed fields, up to letter case |
| Transaction.WhiteSpaceCollision | core/transaction.py:35-38 | two accepted transactions with different addresses and one serialization: the hex check tolerates white space |
| Batch.CreateBatch | core/batch.py:41-72 | which of the errors is raised, at the first bad transaction and no other, and on success the transactions in order with the Merkle root of their hashes |
| Batch.SmallBatches | core/batch.py:68-72 | the roots of one and two transactions written out: prefixed SHA3-512 over the SHA3-256 hashes of the serializations |
| Batch.ValidPartition | aggregator/batcher.py:577-586 | the filter splits the drained list: kept and dropped together are what was drained |
| Batch.ValidOnlyAllValid | aggregator/batcher.py:578-586 | everything the filter keeps passes the signature check create_batch repeats |
| Batch.KeptIff | core/signing.py:31-36 | a transaction is kept iff it was drained, has a signature and a key that are not empty, and verifies over its serialization |
| Batch.BatchCommitment | core/batch.py:68-72 | two equal-size batches with one Merkle root agree at every position on amount, nonce and key, on the addresses iff the senders hold equally much white space, and on every signed field when no address holds any, unless one of the two hashes collides on strings that were hashed |
| Mempool.Mempool.constructor | aggregator/mempool.py:26-33 | an empty pool of the given capacity |
| Mempool.Mempool.Add | aggregator/mempool.py:35-54 | the new state and error of add: unsigned, duplicate and full in this order, otherwise appended and its hash recorded |
| Mempool.AddErrors | aggregator/mempool.py:43-50 | which error add raises, each by its own condition |
| Mempool.Mempool.Drain | aggregator/mempool.py:56-65 | removes and returns the first min(n, size) transactions in order and forgets their hashes, nothing else |
| Mempool.Mempool.DrainIfReady | aggregator/mempool.py:67-82 | the same, only from min_n pending on; min_n < 1 is an error |
| Mempool.Mempool.PrependBatch | aggregator/mempool.py:84-109 | puts back the first that fit, in order, at the front, and counts and returns the rest as dropped |
| Mempool.AddKeepsExact | aggregator/mempool.py:35-54 | add keeps the hash set equal to the hashes in the queue and the queue free of repeats |
| Mempool.TakenKeepsExact | aggregator/mempool.py:60-65 | so does draining |
| Mempool.PrependedExactIff | aggregator/mempool.py:95-103 | returning transactions keeps that invariant iff what is put back has no repeats and shares no hash with the queue |
| MempoolInterleaving.EveryRunIsSafe | aggregator/mempool.py:35-109 | for any interleaving of add, drain, drain_if_ready, return, dropping and emitting by any number of threads: size within capacity, recorded hashes a subset of the queued ones, and accepted = pending + in flight + batched + rejected + dropped, as multisets and as counts |
| MempoolInterleaving.DuplicateThroughReturn | aggregator/mempool.py:84-109 | what interleaving does not keep: a transaction resubmitted while in flight is queued twice after the return, and the next drain leaves a copy whose hash is forgotten |
| Batcher.Batcher.FilterValid | aggregator/batcher.py:577-586 | the loop keeps exactly the validly signed transactions, in order |
| Batcher.Batcher.CountCrash | aggregator/batcher.py:608-616 | the retry map after a crash: cleared above 256 entries, then this root's count raised; retry iff the count is within budget |
| Batcher.Batcher.CreateAndProve | aggregator/batcher.py:565-631 | the whole state and result of one attempt, for each of the three prover outcomes |
| Batcher.Batcher.TryBatch | aggregator/batcher.py:514-538 | the whole state and result of a regular cycle |
| Batcher.RegularCycle | aggregator/batcher.py:514-538 | a regular cycle changes nothing below the minimum batch size, and from there on is the forced cycle |
| Batcher.Batcher.ForceBatch | aggregator/batcher.py:540-561 | the whole state and result of a forced cycle |
| QueueMachine.CycleRefinesTurn | aggregator/batcher.py:514-631 | a cycle on queue, hash set, drop counter and retry map refines a step on the queue alone: nothing is dropped, at most 3000 are emitted, and the batch carries the root of its transactions |
| QueueMachine.TurnConserves | aggregator/batcher.py:565-631 | a step keeps "emitted ++ queue = valid part of what was examined ++ the rest of what was accepted" |
| QueueMachine.DrainedIsComplete | aggregator/batcher.py:565-631 | once the queue is empty the emitted transactions are the valid accepted ones, in order |
| QueueMachine.RetriesStayInRange | aggregator/batcher.py:608-616 | the retry map never holds more than 257 roots and all counts stay within 1..3 |
| QueueMachine.CyclesToEmit | aggregator/batcher.py:603-631 | the number of crashing cycles an unchanged head batch still needs is between 1 and 5, and 5 only when the map is one entry short of being cleared, at 256, and does not hold the root |
| QueueMachine.CrashCountsDown | aggregator/batcher.py:608-623 | every crash lowers that number by exactly one, and the batch is returned iff it is above one |
| QueueMachine.ForcedCycleReturnsNothingIff | aggregator/node.py:148-150 | a forced cycle returns nothing iff everything drained was invalid or the queue empty, or the valid part exceeds 3000, or the prover crashed with budget left |
| RetryRuns.CrashReturnsNothing | aggregator/node.py:148-150 | a run after which a forced cycle returns nothing although a valid transaction is pending |
| RetryRuns.FifthCycleHappens | aggregator/batcher.py:606-616 | for any 257 valid transactions with different hashes and head roots a run reaches 256 stored roots with a head not among them, and that head is emitted by the fifth crashing cycle and by no earlier one |
| QueueMachine.HeadEmittedAfter | aggregator/batcher.py:603-631 | under a prover that always crashes a valid head batch stays in place for exactly that many cycles and is then emitted unproven |
| QueueMachine.TurnLowersRank | aggregator/batcher.py:565-631 | every forced cycle on a non-empty queue lowers a natural-number rank, whatever the prover does |
| QueueMachine.ForcedCyclesEmpty | aggregator/batcher.py:540-631 | enough forced cycles empty the queue for any outcomes |
| QueueMachine.OversizedHeadNeverLeaves | core/batch.py:58-59 | a head of more than 3000 valid transactions is drained and returned forever |
| QueueMachine.ForcedCyclesEmptyIff | aggregator/batcher.py:540-631 | forced cycles empty a queue of valid transactions for all outcomes iff the drained head is at most 3000 long |
| Node.AggregatorNode.Create | aggregator/node.py:59-100 | fails exactly for a capacity below the minimum batch size, for settings the pool and batcher refuse, or for a query count (the argument, or else the environment) that is no integer in 1..64; otherwise an empty node |
| Node.AggregatorNode.Submit | aggregator/node.py:104-122 | the whole state and error of submit: replayed hashes are refused first, then the pool decides, and the counter moves only on success |
| Node.SubmitErrors | aggregator/node.py:104-122 | a replayed hash is refused before the pool is asked, any other submission with the pool's error |
| Node.AggregatorNode.ForgetTxs | aggregator/node.py:215-226 | unindexes every transaction of the evicted batch; an emptied sender ring is deleted |
| Node.AggregatorNode.IndexTxs | aggregator/node.py:229-235 | indexes every transaction of the new batch, each sender ring keeping its last 500 |
| Node.AggregatorNode.Record | aggregator/node.py:203-235 | the whole new state of history, both maps, sender rings and counters |
| Node.AggregatorNode.RunCycle | aggregator/node.py:124-141 | the whole new state after a regular cycle |
| Node.AggregatorNode.ForceCycle | aggregator/node.py:143-157 | the whole new state after a forced cycle |
| Node.AggregatorNode.GetSenderTransactions | aggregator/node.py:186-194 | the newest hashes of the sender's ring, at most limit, newest first |
| NodeIndex.WithTxIndexed | aggregator/node.py:229-235 | indexing one transaction keeps ring and map equal to those computed from the extended list |
| NodeIndex.WithoutTxIndexed | aggregator/node.py:215-226 | unindexing the oldest transaction keeps them equal to those computed from the rest |
| NodeIndex.RecordedIndexed | aggregator/node.py:203-235 | recording a batch with a fresh id and new hashes keeps all four structures functions of the retained history, which is the last 1000 batches |
| NodeIndex.LookupsAgree | aggregator/node.py:176-184 | every retained transaction is found, in the batch that holds it, and in no other place of the history |
| NodeIndex.FoundIsRetained | aggregator/node.py:176-184 | and conversely: an id that get_batch finds is that of a retained batch, and a hash that get_transaction_batch finds is that of a transaction in the batch it names |
| NodeRuns.RunsAreHealthy | aggregator/node.py:104-235 | in every run of submits and cycles the pool stays exact and within capacity, the retry counts in range, and the counters equal totals over everything ever recorded |
| NodeRuns.FifoConservation | aggregator/batcher.py:514-631 | in every run the emitted batches followed by the queue are the accepted transactions minus the invalid ones already examined, in order; nothing is ever dropped |
| NodeRuns.RunsAreConsistent | aggregator/node.py:203-235 | in every run with distinct batch ids the four structures are those computed from the last 1000 emitted batches |
| NodeRuns.MemoryIsBounded | aggregator/node.py:198-235 | in every such run the node retains the last 1000 batches, one id each, at most 3000 hashes for each, and non-empty sender rings of at most 500 |
| NodeRuns.NoDoubleBatching | aggregator/node.py:104-122 | in every such run the hash set is that of the queue, the queue has no repeats and nothing pending is in a retained batch |
| NodeRuns.RepeatsAreFarApart | aggregator/node.py:16-25 | a transaction hash occurs in two emitted batches only if more than 1000 batches lie between |
| NodeRuns.EverythingValidIsEmitted | aggregator/batcher.py:603-631 | liveness: with batches of at most 3000, five forced cycles per pending transaction empty the pool whatever the prover does, and then exactly the valid accepted transactions have been emitted, in order |
| NodeRuns.RegularTick | aggregator/node.py:124-141 | in every run a regular cycle leaves the node as it is while fewer than minBatch are pending, and otherwise does what the forced cycle does |
| NodeRuns.RegularCyclesSuffice | aggregator/node.py:124-141 | liveness without force: after any run, five regular cycles for each pending transaction leave fewer than minBatch pending, whatever the prover does in them |
| NodeRuns.AlwaysEmptiesIff | aggregator/batcher.py:540-631 | per configuration: after every run forced cycles empty the queue for all outcomes iff the smaller of maxBatch and capacity is at most 3000, wherever 3001 different transactions can be signed |
| NodeInterleaving.NoDoubleBatchingUnderThreads | aggregator/node.py:104-122 | with every locked step of submissions and cycles interleaved over any threads: as long as no accepted hash is in flight or was recorded since its replay check, queue, batches in flight and history share no hash, and a hash recurs only after more than 1000 batches |
| NodeInterleaving.HeldIsBatchedTwice | aggregator/node.py:112-119 | without that condition: a transaction accepted while its hash is in flight is recorded twice by the one thread that holds it, with at most one batch between for every maxBatch transactions queued before it |
| NodeInterleaving.HeldIsBatchedTwiceInARow | aggregator/node.py:112-119 | with a second idle batching thread, in two batches in a row, however long the queue |
| NodeInterleaving.StaleIsBatchedTwice | aggregator/node.py:112-119 | one accepted although its hash was recorded since its replay check is recorded again at most 1000 batches later, if no more are recorded before its turn |
| NodeInterleaving.HeldIsReachable | aggregator/node.py:112-119 | the first state is reached by submitting, draining and submitting again |
| NodeInterleaving.StaleIsReachable | aggregator/node.py:112-119 | the second by two threads that check one transaction before either adds it |
| Mersenne31.M31IsPrime | stark_stwo/src/poseidon2.rs:14 | 2^31 - 1 is prime, which the field operations and both AIRs over it rely on |
| M31.MulIsProduct | stark_stwo/src/poseidon2.rs:48-60 | the shift-and-add reduction is multiplication modulo p, within u64 |
| M31.SboxIsFifthPower | stark_stwo/src/poseidon2.rs:63-68 | the S-box is the fifth power |
| M31.SboxInjective | stark_stwo/src/poseidon2.rs:63-68 | and injective on the field |
| M31.MdsInjective | stark_stwo/src/poseidon2.rs:71-80 | the linear layer is injective |
| M31.RoundsAreFormulas | stark_stwo/src/poseidon2.rs:82-96 | on reduced words each of the eight rounds is (3 (a + c)^5 + (b + d)^5, (a + c)^5 + 3 (b + d)^5) modulo p over the integers, c and d its constants |
| M31.ConstantsAreShaWords | stark_stwo/src/poseidon2.rs:21-32 | the sixteen constants are the residues of SHA-256's eight initial words and first eight round constants |
| M31.PermuteInPlace | stark_stwo/src/poseidon2.rs:92-96 | the in-place rounds compute the permutation |
| M31.PermuteIsPermutation | stark_stwo/src/poseidon2.rs:92-96 | Poseidon2 of width two is a permutation of pairs of field elements |
| M31.M31Pow | stark_stwo/src/vfri2_bridge.rs:124-132 | square-and-multiply computes the power modulo p |
| M31.M31Inv | stark_stwo/src/vfri2_bridge.rs:135-137 | the result is the inverse of every non-zero element, and 0 for 0 |
| Poseidon2Channel.ReduceIsResidue | archive/rust/poseidon2_t2_helpers.rs:10-17 | two conditional subtractions give the residue of every u32 |
| Poseidon2Channel.P2Absorb | archive/rust/poseidon2_t2_helpers.rs:10-19 | the in-place absorption |
| Poseidon2Channel.AbsorbBindsResidue | archive/rust/poseidon2_t2_helpers.rs:10-19 | from one state, two words lead to one state iff they are equal in the field |
| Poseidon2Channel.AbsorbedInput | archive/rust/poseidon2_t2_helpers.rs:10-19 | the permutation is fed the first word plus the input modulo p, and the second word as it was |
| Poseidon2Channel.P2Channel.MixU32s | archive/rust/poseidon2_t2_helpers.rs:90-93 | mixing words one by one is absorbing the list and resetting the draw counter |
| Poseidon2Channel.P2Channel.MixRoot | archive/rust/poseidon2_t2_helpers.rs:84-88 | a narrow root is absorbed as its last word |
| Poseidon2Channel.P2Channel.MixRootFull | archive/rust/poseidon2_t2_helpers.rs:195-200 | a full root is absorbed as its eight big-endian words |
| Poseidon2Channel.WordIsBigEndian | archive/rust/poseidon2_t2_helpers.rs:195-200 | word i of a root is the number its bytes 4i to 4i + 3 spell |
| Poseidon2Channel.P2Channel.MixRootW | archive/rust/poseidon2_t2_helpers.rs:186-190 | a wide root as its last two |
| Poseidon2Channel.P2Channel.DrawPair | archive/rust/poseidon2_t2_helpers.rs:95-105 | yields the state and steps it by the draw counter |
| Poseidon2Channel.DrawnInput | archive/rust/poseidon2_t2_helpers.rs:95-105 | a draw feeds the permutation the first word plus the number of draws modulo p, and the second word as it was |
| Poseidon2Channel.P2Channel.DrawSecureFelt | archive/rust/poseidon2_t2_helpers.rs:107-113 | the four words of two draws |
| Poseidon2Channel.P2Channel.DrawQueries | archive/rust/poseidon2_t2_helpers.rs:115-127 | terminates with exactly n indices, the i-th being a masked word of draw i / 2 |
| Poseidon2Channel.MaskIsLowBits | archive/rust/poseidon2_t2_helpers.rs:115-127 | a masked word is what is left of it when a multiple of 2^log is taken away |
| Poseidon2Channel.Indices | archive/rust/poseidon2_t2_helpers.rs:115-127 | there are n of them, all below 2^log |
| Poseidon2Channel.StateStaysReduced | archive/rust/poseidon2_t2_helpers.rs:72-128 | after any operations on any u32 inputs both state words are below p, as long as no more than p draws separate two mixes |
| Poseidon2Channel.MixConcat | archive/rust/poseidon2_t2_helpers.rs:90-93 | mixing a concatenation equals mixing its parts in turn |
| Poseidon2Hash.WideNode | archive/rust/poseidon2_t2_helpers.rs:130-139 | a node holds two words, cast to u32, in its last eight bytes and is zero before |
| Poseidon2Hash.WideNodeValue | archive/rust/poseidon2_t2_helpers.rs:136-138 | and as a number a wide node is 2^32 times the first word plus the second |
| Poseidon2Hash.HashLeafColsW | archive/rust/poseidon2_t2_helpers.rs:130-139 | the loop computes the leaf hash |
| Poseidon2Hash.LeafIsChannel | archive/rust/poseidon2_t2_helpers.rs:130-139 | a leaf shows the state of a fresh channel that absorbed the values |
| Poseidon2Hash.SpongeLeafReduced | archive/rust/poseidon2_t2_helpers.rs:130-139 | a leaf holds the sponge state, which is reduced |
| Poseidon2Hash.HashPairW | archive/rust/poseidon2_t2_helpers.rs:141-156 | the parent of any two nodes |
| Poseidon2Hash.CompressedAbsorbs | archive/rust/poseidon2_t2_helpers.rs:141-156 | a parent's words are the left node's as a state that absorbed those of the right node |
| Poseidon2Hash.ParentReduced | archive/rust/poseidon2_t2_helpers.rs:141-156 | nodes of field elements have parents of field elements that hold their compression |
| Poseidon2Hash.CompressBindsLeft | archive/rust/poseidon2_t2_helpers.rs:326-339 | beside one right sibling two nodes have one parent iff they hold the same words, both words counting |
| Poseidon2Hash.CompressBindsRight | archive/rust/poseidon2_t2_helpers.rs:326-339 | beside one left sibling nodes that differ in one word have different parents |
| Poseidon2Hash.WideBackendInRange | archive/rust/poseidon2_t2_helpers.rs:115-127 | the width-two hashes and channel satisfy what the FRI generator asks of a backend |
| Poseidon2Hash.WideBackendMixes | archive/rust/poseidon2_t2_helpers.rs:84-200 | what the backend absorbs and draws, with every root as numbers spelled by its bytes |
| Vfri9.GenVfri9Hints | archive/rust/vfri3-10_bridges.rs:2916-3143 | the generator on those hashes, with everything proved of the generic one |
| Vfri9.CommitmentIgnoresTrace | archive/rust/vfri3-10_bridges.rs:3123-3131 | its commitment does not depend on the trace: any two runs with one batch root have one commitment, since the 24 bytes of the trace root that are hashed are zero |
| CircleDomain.AddAssociates | stark_stwo/src/vfri2_bridge.rs:281-285 | the circle operation is associative |
| CircleDomain.GenMul | stark_stwo/src/vfri2_bridge.rs:294-309 | double-and-add computes the multiple of the generator |
| CircleDomain.ChebyshevTwiddle | stark_stwo/src/vfri2_bridge.rs:346-353 | the twiddle loop iterates x -> 2x^2 - 1 |
| CircleDomain.ChebyshevIsMultiple | stark_stwo/src/vfri2_bridge.rs:346-353 | the twiddle of round k is the abscissa of the 2^k-fold point |
| CircleDomain.HalfTurn | stark_stwo/src/vfri2_bridge.rs:281-309 | 2^30 times the generator is (-1, 0) |
| CircleDomain.FullTurn | stark_stwo/src/vfri2_bridge.rs:294-309 | the order of the generator divides 2^31 |
| CircleDomain.CosetAt | stark_stwo/src/vfri2_bridge.rs:313-319 | the domain point of an index |
| CircleDomain.CosetIsOddMultiple | stark_stwo/src/vfri2_bridge.rs:311-319 | point i of the domain of size 2^d is the (2i + 1) * 2^(30 - d)-fold generator |
| CircleDomain.AntipodeIsOpposite | stark_stwo/src/vfri2_bridge.rs:321-325 | antipodal_of is an involution without fixed points that names the opposite point |
| CircleDomain.FoldPairsAreOpposite | archive/rust/vfri3-10_bridges.rs:3277-3289 | the two values a fold of round k combines belong to opposite abscissas |
| CircleDomain.TwiddleIsNonzero | archive/rust/vfri3-10_bridges.rs:3285-3287 | no twiddle is zero: the zero-twiddle error cannot occur |
| CircleDomain.OrdinateIsNonzero | archive/rust/vfri3-10_bridges.rs:3257 | no domain point has ordinate zero, so the circle fold always inverts |
| FriTree.BuildTree | stark_stwo/src/vfri2_bridge.rs:474-486 | every level of the result is the tree's, the last the root alone |
| FriTree.RootOfHalves | archive/rust/poseidon2_t2_helpers.rs:170-182 | a root is the pair hash of the roots of the left and the right half |
| FriTree.ProofPath | stark_stwo/src/vfri2_bridge.rs:490-497 | the siblings from the leaf up |
| FriTree.PathAuthenticates | stark_stwo/src/vfri2_bridge.rs:490-497 | every path has the depth of the tree and leads from its leaf to the root |
| FriTree.PathBinds | contracts/src/verifier/Poseidon2MerkleVerifierT8.sol:36-119 | for any view of what the pair hash reads of a node: a path of the right length that leads to the root proves node and path to read like the committed ones, unless tree and path hash two pairs that read differently to nodes that read alike |
| FriTree.SamePathSameRoot | contracts/src/verifier/Poseidon2MerkleVerifierT8.sol:36-66 | and paths that read alike lead to one root |
| Fri.CheckInput | archive/rust/vfri3-10_bridges.rs:3163-3183 | the argument checks, the first failing one being reported |
| Fri.TraceRootOf | archive/rust/vfri3-10_bridges.rs:3185-3190 | the root over the rows of the columns |
| Fri.TraceRootOfRows | archive/rust/vfri3-10_bridges.rs:3185-3190 | that tree's leaf i hashes entry i of every column, in the order of the columns |
| Fri.Combine | archive/rust/vfri3-10_bridges.rs:3210-3219 | the running powers compute the sum of alpha^i times evaluation i |
| Fri.Compose | archive/rust/vfri3-10_bridges.rs:3228-3235 | every row's composition value |
| Fri.FirstLayer | archive/rust/vfri3-10_bridges.rs:3245-3258 | fails at the first index with a vanishing denominator, otherwise every value is the quotient fold of its two opposite composition values |
| Fri.FoldRound | archive/rust/vfri3-10_bridges.rs:3277-3292 | folds a committed layer into half its size and never returns the zero-twiddle error |
| Fri.FoldLayers | archive/rust/vfri3-10_bridges.rs:3277-3296 | every layer is committed and is the fold of the one before, and challenges and roots alternate in the transcript |
| Fri.FriChain | stark_stwo/src/vfri2_bridge.rs:2006-2164 | succeeds iff the arguments are well formed, the fold count is in range and the challenge avoids the domain; the result is then the whole chain, with the challenges of a replay of its public part, and otherwise the error is that of the first failing check |
| Fri.LastLayerSize | archive/rust/vfri3-10_bridges.rs:3266-3300 | the last layer has two values when no fold count is given, else 2^(depth - count) |
| Fri.ReplayedIsScript | contracts/src/QLSAVerifierVFRI11.sol:206-256 | all challenges and the query positions are what the draws of one explicit list of channel operations yield: trace root, two draws, the two combinations, composition root, a draw, each layer root with a draw between, batch root, queries |
| FriFold.FoldLaw | stark_stwo/src/vfri2_bridge.rs:329-343 | under the laws of a field extension: a fold with the inverse of x makes 2 (e + alpha o) of e + x o and e - x o |
| FriFold.LineFoldLaw | archive/rust/vfri3-10_bridges.rs:3283-3287 | the same for a line fold, x being the twiddle of its round and position |
| FriFold.QuotientFoldLaw | archive/rust/vfri3-10_bridges.rs:3247-3257 | and for the circle fold of the two quotients, x being the ordinate |
| FriFold.FirstLayerLaw | archive/rust/vfri3-10_bridges.rs:3245-3258 | where composition values exceed the claims by multiples of e + y o and e - y o of the denominators, the first layer holds 2 (e + alpha o) at every point |
| FriFold.LayerFoldLaw | archive/rust/vfri3-10_bridges.rs:3277-3288 | a layer of values e_j + x_j o_j and e_j - x_j o_j folds to 2 (e_j + alpha o_j) |
| FriFold.FoldHalvesCoefficients | archive/rust/vfri3-10_bridges.rs:3277-3288 | what folding is for: a layer that holds a polynomial with 2^(m+1) coefficients on its domain folds to one that holds, on the next domain, twice the even coefficients plus alpha times the odd ones |
| FriFold.FoldsHalveCoefficients | contracts/src/QLSAVerifierVFRI11.sol:33-38 | the bounded degree of the last layer: from 2^m coefficients in the first layer, 2^(m - folds) are left after all folds, and one for every position when m = folds |
| FriFold.CombinedIsHorner | archive/rust/vfri3-10_bridges.rs:3210-3219 | the running powers of the combination are Horner's rule |
| FriFold.ComposedIsCombined | archive/rust/vfri3-10_bridges.rs:3228-3235 | a composition value is that combination of its row, lifted to the extension field |
| FriFold.DegenerateIff | archive/rust/vfri3-10_bridges.rs:3250-3254 | a point is refused iff the challenge is its abscissa or the negation of it |
| FriHints.OpenAt | stark_stwo/src/vfri2_bridge.rs:490-497 | the path emitted for a value authenticates it to the layer's root |
| FriHints.FoldStep | archive/rust/vfri3-10_bridges.rs:3328-3346 | one round of the walk, with the orientation taken from the position, ends in the value of the next layer |
| FriHints.Walk | archive/rust/vfri3-10_bridges.rs:3326-3346 | for every round k the walk of a query yields the value of layer k + 1 at index mod 2^(d-k-1), which the code only asserts in debug builds, and all its paths authenticate |
| FriHints.QueryHintAt | archive/rust/vfri3-10_bridges.rs:3310-3361 | the hints of a query pass every check of the contract, and the last folded value is the evaluation of the last layer |
| FriHints.EncodeProof | archive/rust/vfri3-10_bridges.rs:3363-3365 | 700 bytes: version, trace root at [8:40], filler |
| FriHints.CommitmentInput | archive/rust/vfri3-10_bridges.rs:3367-3371 | the commitment's hash input fixes the version, the batch root and the first 24 bytes of the trace root, and nothing else |
| FriHints.LittleEndianSpells | archive/rust/vfri3-10_bridges.rs:3364 | the version bytes, read from the last to the first, spell the version |
| FriHints.CommitmentIsHash | archive/rust/vfri3-10_bridges.rs:3363-3371 | the commitment is the first 16 bytes of the hash of version, 24 bytes of the trace root and batch root, and the proof is version, trace root and filler |
| FriHints.WrongCommitmentIsRefused | contracts/src/QLSAVerifierVFRI11.sol:380-390 | the contract refuses every commitment but the first 16 bytes of the hash of the proof's first 32 bytes and the batch root |
| FriHints.GenHints | archive/rust/vfri3-10_bridges.rs:3156-3384 | the generator succeeds iff the chain does; its hints then show the verifier what they should, every walk ends in the last layer, and the contract accepts them iff there are at most 28 folds, at most 2^16 last-layer values, and none of the values it refuses as zero is zero |
| FriHints.AcceptedIff | contracts/src/QLSAVerifierVFRI11.sol:116-142 | the same as a lemma on any output of the generator |
| FriHints.RefusedRuns | contracts/src/QLSAVerifierVFRI11.sol:136 | two families of runs whose output the contract refuses: depth 30 with all folds, depth 18 with one |
| FriHints.RefusedRunsProceed | archive/rust/vfri3-10_bridges.rs:3250-3256 | the generator completes both whenever its first challenge is off the base field |
| FriHints.RefusedRunsExist | contracts/src/QLSAVerifierVFRI11.sol:136 | an instance of a backend and a field for which it does |
| FriContract.VerifyMem | contracts/src/verifier/Poseidon2MerkleVerifierT8.sol:94-119 | a path is accepted iff it has the depth, the index its range and the walk its root |
| FriContract.HalveInPlace | contracts/src/QLSAVerifierVFRI11.sol:195-200 | one level of the tree, in place, becomes the next |
| FriContract.CheckLastLayer | contracts/src/QLSAVerifierVFRI11.sol:181-202 | accepts iff there are 2^depth evaluations, at most 2^16, whose tree has the root |
| FriContract.Replay | contracts/src/QLSAVerifierVFRI11.sol:206-256 | the channel operations in their order give the challenges of the public data |
| FriContract.CheckCircleFold | contracts/src/QLSAVerifierVFRI11.sol:311-327 | accepts iff the depth is in 1..30, the query point is the domain point and the fold is the claimed value |
| FriContract.CheckRound | contracts/src/QLSAVerifierVFRI11.sol:337-369 | one fold round: both openings, the twiddle and the fold |
| FriContract.VerifyFolds | contracts/src/QLSAVerifierVFRI11.sol:329-376 | all rounds, the position halving from one to the next |
| FriContract.VerifyQuery | contracts/src/QLSAVerifierVFRI11.sol:258-289 | accepts iff every check of a query holds |
| FriContract.Verify | contracts/src/QLSAVerifierVFRI11.sol:109-177 | the contract accepts iff the sizes, the commitment, the forbidden zeros, the last layer and every query the replayed channel asks for check |
| FriContract.AcceptsIff | contracts/src/QLSAVerifierVFRI11.sol:116-142 | hints that show what they should are accepted iff folds, last layer and zeros are within the limits |
| FriVerifier.ReplayChannel | stark_stwo/src/vfri2_bridge.rs:2859-2905 | the replay succeeds iff depth, query count and number of roots are in range, and returns the challenges of the public data |
| FriVerifier.GenerateAndReplay | stark_stwo/src/vfri2_bridge.rs:5595-5626 | generating and replaying: the replay is possible iff the run folded at most 28 times, asks for the run's own queries in order, and the hints pass the checks under the replayed challenges |
| FriBinding.OpeningBinds | contracts/src/verifier/Poseidon2MerkleVerifierT8.sol:94-119 | up to a collision of what is read, exactly the openings that read like the committed value and path are accepted under the root of a layer |
| FriBinding.AcceptedQueryIsCommitted | contracts/src/QLSAVerifierVFRI11.sol:258-376 | whoever prepared it, a query accepted against the roots of a run reveals the run's own composition and layer values by the run's own paths, as far as the hashes read, unless one of its openings collides |
| FriBinding.WalkReduced | contracts/src/QLSAVerifierVFRI11.sol:329-376 | if the siblings revealed are reduced, so is every value folded from them |
| FriBinding.FinalValueIsFixed | contracts/src/QLSAVerifierVFRI11.sol:33-38 | every query's final value, which the contract never compares with the last layer, reads like the evaluation supplied at its index, or there is a collision; if one of the two is reduced they are equal iff both are, and reduced siblings make the final value reduced |
| FriBinding.LastLayerUpToReading | contracts/src/QLSAVerifierVFRI11.sol:181-202 | the contract does not tell apart last layers that read alike |
| Qm31.SumReduced | contracts/src/verifier/QM31.sol:52-54 | sums of reduced field elements are reduced |
| Qm31.ProductReduced | contracts/src/verifier/QM31.sol:63-71 | products of any four-word values are |
| Qm31.SumUnreduced | contracts/src/verifier/M31.sol:14-17 | a sum with an unreduced value need not be |
| Qm31Field.ProductSame | contracts/src/verifier/QM31.sol:61-71 | the product of any four-word values is, modulo p, that of a + bi + (c + di) u with i^2 = -1 and u^2 = 2 + i |
| Qm31Field.QuadraticNormIsZeroIff | contracts/src/verifier/QM31.sol:93-100 | the norm the inverse divides by is zero for zero alone, since neither -1 nor 5 is a square modulo p |
| Qm31Field.InverseInverts | contracts/src/verifier/QM31.sol:93-100 | a reduced element that is not zero times its inverse is one |
| Qm31Field.ContractIsField | contracts/src/verifier/QM31.sol:49-100 | reduced elements with the contract's operations satisfy every law the fold theorems ask for |
| WideBinding.WideReads | archive/rust/poseidon2_t2_helpers.rs:130-168 | the width-two hashes read the last eight bytes of a node and the residues of a value's words, for any packing of values |
| WideBinding.WideReadsResidues | archive/rust/poseidon2_t2_helpers.rs:141-168 | the same for values of four words, as the hypothesis of the two last-layer theorems below |
| WideBinding.ContractReadsResidues | contracts/src/verifier/Poseidon2MerkleVerifierT8.sol:36-66 | so do the contract's, with the last sixteen bytes of a node, whatever the permutation |
| WideBinding.WideOpeningBinds | archive/rust/poseidon2_t2_helpers.rs:130-168 | on those hashes, unless contents or residues collide: a value and path are accepted iff the words are the committed ones modulo p and every sibling's content is the committed one |
| WideBinding.FinalValueModP | contracts/src/QLSAVerifierVFRI11.sol:33-38 | the final value is the last layer's evaluation modulo p, word by word, or nodes or residues collide; beside reduced siblings it is the evaluation as supplied iff the words supplied are reduced |
| WideBinding.RaisedLastLayer | contracts/src/QLSAVerifierVFRI11.sol:181-202 | on either hashes: in accepted hints, a word of an evaluation where a query ends can be raised by p; the result is accepted, and the final value is not the evaluation supplied |
| CrossBinding.TraceRootOfColumns | archive/rust/vfri3-10_bridges.rs:3185-3190 | the trace root depends neither on the batch root nor on the query count |
| CrossBinding.SuccessOfColumns | archive/rust/vfri3-10_bridges.rs:3156-3268 | nor does success, within the argument checks |
| CrossBinding.GenGroup | archive/rust/vfri3-10_bridges.rs:3591-3719 | the wrapper of one column group: succeeds iff matrix, root and query count have their sizes, the range check passes and the columns can be proved; otherwise the first failing check is reported |
| CrossBinding.CrossBound | archive/rust/vfri3-10_bridges.rs:3745-3791 | succeeds iff the root has 32 bytes, the query count is in 1..64 and both groups can be built and proved; the hints of each final proof then show what they should under the hash of the batch root and the trace root found in the other final proof, and the contract accepts them exactly within its limits |
| CrossBinding.CrossBinds | archive/rust/vfri3-10_bridges.rs:3771-3788 | two successful runs whose LOG=10 proofs were made under one root have one batch root and one trace root in the LOG=8 proofs, and the same the other way round, unless the hash collides on the two strings |
| RateLimiter.RateLimiterState.EvictStale | aggregator/api.py:121-125 | removes exactly the clients with no timestamp or an expired last one |
| RateLimiter.RateLimiterState.CheckRate | aggregator/api.py:128-147 | the whole new state and the decision, including the sweep of all three windows every 500 calls |
| RateLimiter.PrunedCounts | aggregator/api.py:141-143 | a pruned window holds exactly the accepted times of the last 60 seconds |
| RateLimiter.CallRefines | aggregator/api.py:128-147 | one call decides as the limiter that keeps every accepted request, and the windows keep matching its log |
| RateLimiter.DecidesAsReference | aggregator/api.py:121-147 | for calls in time order every decision is that limiter's: pruning and sweeping change none |
| RateLimiter.WindowNeverExceeded | aggregator/api.py:35-39 | no closed 60-second window ever holds more than the limit of accepted requests of one bucket and client |
| RateLimiter.SweptEvery500 | aggregator/api.py:134-140 | the counter holds the number of calls since the last sweep, every 500th of which sweeps |
| RateLimiter.SweepForgets | aggregator/api.py:121-140 | after every 500th call every other client still held has a request of the last 60 seconds; after any other call nobody else's window has changed |
| RateLimiter.InversionIsLetThrough | aggregator/api.py:131-134 | for any stamps s > late: after 20 batch requests at late - 60 and one at s, the code lets a request stamped late through and the reference refuses it |
| RateLimiter.OrderDecides | aggregator/api.py:131-147 | after calls in order, the last stamped s, every decision on a call stamped late is the reference's iff s <= late |
| Base64.AlphabetIsTable1 | stark_stwo/src/main.rs:295 | the alphabet is Table 1 of RFC 4648 |
| Base64.ChunkSpells | stark_stwo/src/main.rs:297-306 | three bytes and their four letters spell one number, to base 256 and to base 64, missing bytes counting as zero |
| Base64.Encode | stark_stwo/src/main.rs:294-308 | the loop computes the encoding |
| Base64.FillTable | stark_stwo/src/main.rs:312-318 | the table inverts the alphabet and is 0xFF elsewhere |
| Base64.Decode | stark_stwo/src/main.rs:310-342 | the result or error of the decoder, its u8 shifts and the trimming of Unicode white space included |
| Base64.TrimCuts | stark_stwo/src/main.rs:311 | what trimming cuts off is white space throughout, and what is left has none at either end |
| Base64.WideSpaceIsUnicode | stark_stwo/src/main.rs:311 | the two- and three-byte forms taken for white space are the UTF-8 forms of the code points that Unicode calls so |
| Base64.QuantumSpells | stark_stwo/src/main.rs:323-340 | what each accepted chunk decodes to, canonical or not: the dropped bits, and the byte that padding before a letter adds |
| Base64.RoundTrip | stark_stwo/src/main.rs:294-342 | decode(encode(x)) = Ok(x) for every byte string, and the encoding has 4 * ceil(n / 3) characters |
| Base64.ReproducesExactlyCanonical | stark_stwo/src/main.rs:294-342 | decoding succeeds and encoding the result gives the text back, up to surrounding white space, iff the text is canonical in the sense of section 4 of RFC 4648 |
| Base64.AcceptsExactly | stark_stwo/src/main.rs:319-340 | the decoder accepts exactly the texts of whole quanta whose first two characters are letters and whose last two are letters or padding |
| Base64.PaddingInsideIsAccepted | stark_stwo/src/main.rs:336-339 | "QQ=B" is accepted and is not canonical |
| HashChain.TraceLenIsLeast | stark/src/trace.rs:57-59 | the trace length is the least power of two from 8 on that holds all leaves |
| HashChain.ComputeCommitment | stark/src/trace.rs:43-53 | the loop computes the cubing chain over the padded leaves |
| HashChain.CubedIsFormula | stark/src/trace.rs:50 | a step of the chain is (h * h * h + leaf) mod p over the integers |
| HashChain.BuildTrace | stark/src/trace.rs:18-40 | row i holds the chain over the first i + 1 leaves; the last row is the commitment |
| HashChain.EvaluateTransition | stark/src/air.rs:65-78 | the constraint vanishes iff the next hash is the cube of the current plus the next leaf |
| HashChain.AcceptsExactly | stark/src/air.rs:65-85 | a trace is accepted iff it is the honest trace up to its first leaf and ends in the commitment |
| HashChain.CommitmentIsChain | stark/src/air.rs:65-85 | an accepted commitment is the chain from the trace's own h[0] over leaf[1..] |
| HashChain.FirstLeafIsFree | stark/src/air.rs:31-40 | leaf[0] is unconstrained, although the comments promise h[0] = leaf[0] |
| HashChain.HonestIsAccepted | stark/src/air.rs:65-85 | the built trace is accepted for its commitment |
| HashChain.ZeroLeavesAreInvisible | stark/src/trace.rs:57-71 | appending zero leaves within the padded length leaves the commitment unchanged |
| HashChain.OnlyResiduesCount | stark/src/trace.rs:61-71 | leaves count modulo the field order only |
| HashChain.LastLeafIsBound | stark/src/trace.rs:43-53 | in a full trace the commitment fixes the last leaf's residue |
| PolyAdd.CarryIsBit | stark_stwo/src/mldsa_poly_add_air.rs:74-75 | the second constraint holds iff the carry is 0 or 1 |
| PolyAdd.ExactInRange | stark_stwo/src/mldsa_poly_add_air.rs:62-78 | for a, b, c in [0, q) both constraints hold iff c = (a + b) mod q and the carry says whether a + b reaches q |
| PolyAdd.ExactlyTwoRows | stark_stwo/src/mldsa_poly_add_air.rs:62-78 | when only a and b are known to be in range exactly one further row satisfies them, with c outside [0, q) |
| PolyAdd.BuildTrace | stark_stwo/src/mldsa_poly_add_air.rs:93-115 | the loop's columns and sum for any i64 coefficients; where both are in [0, q) the row satisfies the constraints and the sum is (a + b) mod q |

## Left out

- Batcher.Batcher.CreateAndProve: the batcher uses the default algorithm; another name would be refused by verify after the drain, losing the drained transactions to the exception, which is not modelled.
- MempoolInterleaving.EveryRunIsSafe: locks are modelled by atomic steps, one for each method body under the lock.
- NodeRuns.RunsAreConsistent: batch ids are distinct by assumption, since the code draws them at random, and a cycle is one step.
- NodeInterleaving.HeldIsBatchedTwice: like its two neighbours for maxBatch up to 3000; above that a drained batch can be refused and go back.
- FriContract.Verify: hints arrive decoded; the ABI decoder and what it rejects are not modelled, nor are gas and the reverts of a subtraction on unreduced words that underflows.
- FriHints.GenHints: hints are returned as a structure; their nested ABI encoding and the hex form of the commitment are not modelled.
- CrossBinding.GenGroup: computing the trace columns from a signature is a parameter that yields columns, or nothing when the range check fails.
- Poseidon2Channel.StateStaysReduced: with more than 2^31 - 1 draws between two mixes the draw counter is no field element, and beyond 2^32 it wraps; neither is modelled.
- PolyAdd.BuildTrace: the bit-reversal of the finished columns, which reorders rows and changes none, is left out.
- RateLimiter.RateLimiterState.CheckRate: times are real numbers, without the rounding of binary floats.
- Base64.Decode: text is the bytes of its UTF-8 form; that these are valid UTF-8 is not used.
- Masking an index with a power of two less one is written as the remainder, shifting right as division, in the FRI modules.
- WideBinding.ContractReadsResidues: the t=8 permutation and channel are parameters; only what they are fed is modelled.
- Qm31Field.ContractIsField: on reduced elements; the revert of an inverse of zero and the packing into one 128-bit word are not modelled.
- Barycentric evaluation and the t=4, t=8 and t=16 permutations: arbitrary functions.
- The STARK provers and verifiers themselves, soundness of FRI as a proximity test, and hardness of any hash.
- `peek`, `clear`, pending-by-sender and other read-only lookups of the mempool and node, logging, HTTP handling, the other contracts and deployment: only easy members.
