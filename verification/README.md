# Proofs about an anonymous-coin Ethereum client

This project models the hard parts of a go-ethereum fork with an anonymous-coin layer and proves what they are meant to guarantee.

* **The coin layer's cryptography** (`dev/maskash-crypto`). Pedersen commitments, ElGamal encryption and signatures, and the Fiat-Shamir proofs (format, linear equation, equality, balance). Everything is proved from primality: Fermat's little theorem, inverses and exponent laws are proved here, too. Random numbers and the digest function are inputs, so every result holds for all of them.
* **The transaction pool** (`core/tx_pool.go`, `core/tx_list.go`). The sorted map with its heap and cache, the capped list, the lazy price heap, and the pool on top of them with its commitment locks. `PoolState` is the pool as a state machine of small moves; the class `TxPool.TxPool` performs the operations, states the whole effect of each, and proves each of them to be a run of the machine.
* **The canonical chain** (`core/headerchain.go`, `core/blockchain.go`, `core/evm.go`). The header index, ancestor lookups, block reorganisation and the block hash cache, each against the plain walk along parents.
* **The chain indexer and the event feed** (`core/chain_indexer.go`, `event/feed.go`). Two concurrent protocols as interleaved steps; results are about every state of every run.
* **The gas limit controller** (`core/block_validator.go`).

Files follow the program: `NumberTheory`, `Bytes` and `Group` are the arithmetic; `Keys`, `LinearProof`, `BalanceProof`, `FormatProof` and `ElGamal` the coin layer; `Heap`, `Transactions`, `SortedMap`, `TxList` and `PricedList` the pool's structures; `PoolState`, `PoolSteps`, `PoolHistory`, `Fairness`, `PoolPromotion`, `PoolOrder`, `PoolReorg`, `PoolRuns` and `TxPool` the pool; `Headers`, `HeaderChain`, `HashCache` and `Reorg` the chain; `ChainIndexer`, `Feed` and `GasLimit` the rest. `Common` has what several modules share.

Where the source works step by step, the model does: classes with fields for objects, loops with invariants for loops, arrays where a slice is changed in place. Each such method is tied to a function or a property on values, and the lemmas are about those.

## Where the code does less than it says

These properties are false of the code as it stands. Each has its exact condition as an if-and-only-if, where it is not an outright fact.

* A linear equation proof with a nonzero constant is never accepted, unless the challenge happens to be zero: the verifier compares a remainder, which is not negative, with the negated product (`LinearProof.LinearProofExact`, `LinearProof.NonzeroConstantRejected`).
* A balance proof is accepted exactly when the challenge times the difference of the sums vanishes modulo P - 1; balance is sufficient for it, not necessary (`BalanceProof.BalanceProofExact`).
* Decrypting an encryption loses the leading zeros of every 28-byte chunk (`ElGamal.EncryptionRoundTrip`; `ElGamal.ZeroByteLost` is an instance).
* A signature is rejected by its own verifier when the digest starts with a zero byte (`ElGamal.SignatureExact`).
* An equality proof for a value from 2^63 on, which the prover converts to an int64, or from P on, which the commitment reduces, is accepted only if the two values that result are the same exponent after scaling by the challenge (`LinearProof.EqualityProofExact`).
* A value round trip needs a base whose order exceeds the search limit (`Keys.ValueRoundTrip`).
* Giving a purchase's commitment back does not undo its locking: the new commitment stays in the database, unlocked (`PoolState.ReleaseUndoesLock`). So a transfer can pass the commitment check with a coin that no block and no starting database ever had: exactly when the last pool step that wrote the coin's entry gave it back, and then its purchase has left the pool and is refused from then on (`PoolHistory.CoinOutsideExact`; `PoolHistory.DroppedPurchase` is the shortest way there).
* A coin that a block has spent can pass the commitment check again, because giving a commitment back writes it as unspent whatever it was. Over runs with imported blocks: exactly when the last step that wrote the coin gave it back and the outputs are new, and then a transaction that claimed the coin when it was spent has left since (`PoolHistory.SpentAgainExact`). In a reset: exactly when something that claims it leaves without having been pending at a nonce the chain has passed, for example the very transfer, if it was still queued when its block came (`PoolReorg.SpentAfterReset`).
* A lock can be left without a pooled transaction that holds it: exactly when the database had it so, or the transaction that locked it left as a pending one at a nonce the chain has passed and no block wrote the coin (`PoolHistory.OrphanExact`, `PoolReorg.OrphansAfter`).
* Making room for a transaction counts slots per heap entry, not per transaction. The slots counted are the slots freed if and only if nothing is dropped twice (`PoolSteps.SlotsCounted`; `PoolSteps.CountedTwice` is an instance where two are counted and one is freed). A transaction gets into the heap twice exactly when it is added while a stale entry of it is left (`PoolSteps.OnceEachPut`), as happens to a transfer that is dropped and sent again (`PoolSteps.TwiceInHeap`). No other operation brings this about (`TxPool.TxPool.Add`, `TxPool.TxPool.RunReorg`), and until then room is made, or only local transactions remain (`PoolSteps.RoomMade`).
* A transaction can take the place of a dearer one of the same account and nonce without outbidding it: when the pool is full and the dearer one is among those that make room for it. Adding a transaction lowers a pooled price exactly then (`TxPool.TxPool.Add`, `PoolRuns.AddPrices`; `PoolRuns.PriceFalls` is an instance). Between operations, and between making room and entering, no price falls as long as the nonce stays pooled (`PoolRuns.HistoryPrices`).
* After a reset, promotion asks for the run from the chain's nonce, although the pending list may end later. Then the transaction that would continue the list stays queued, and the next nonce is set to it all the same. Whether this happens is decided by the state before (`PoolPromotion.StrandedExact`): for a list without gaps, exactly when that transaction is queued and payable and the next nonce on record is behind the list (`PoolOrder.TidyStranded`; `PoolOrder.StrandedExample` is an instance).
* A transaction with less gas than its intrinsic gas is accepted: the check returns no error where the comment announces one (`TxPool.ValidateTx`). Neither price nor funds are checked on entry; what the sender cannot pay is dropped at the next promotion (`PoolPromotion.GoneExact`).
* The comment on the chain indexer's verification promises that all stored sections are valid. With the last section above the checkpoint canonical they are, and only then (`ChainIndexer.CanonicalExact`); up to the checkpoint nothing is verified (`ChainIndexer.UncheckedExample` is a run that ends in such a state).
* After a reorganisation, index entries above the new head survive when the new head is lower than the old one and its branch has fewer than two blocks. The comment says that assignments above the new head are deleted, but the deletion starts at the block that is current then (`Reorg.BlockChain.SetHead`; `Reorg.StaleExample` is an instance).
* A gas limit between 5000 and 5119 can move by the whole bound of one 1024th, where the protocol asks for less (`GasLimit.StepBoundExact`; `GasLimit.StepTooLarge` is an instance). See section 4.3.4 of the Ethereum Yellow Paper.

The comment on the commitment check of the pool lists a missing or spent commitment as the errors of a transfer; the code also refuses a locked one and an output that exists already, and the model follows the code.

Branches that are proved never to be taken are not modelled: promotion never finds an older transaction at the promoted nonce (`TxPool.TxPool.PromoteTx`), the old side of a reorganisation never misses a block above block zero, and a header's ancestors are never missing while the index is rewritten.

## Model

| member | source | states |
|---|---|---|
| Bytes.ValueOfEncode | dev/maskash-crypto/ElGamal.go:212-215 | Reading the bytes of a number gives the number back |
| Bytes.EncodeOfValue | dev/maskash-crypto/ElGamal.go:213 | Writing the number read from bytes gives the bytes without their leading zeros |
| NumberTheory.Fermat | dev/maskash-crypto/ElGamal.go:179-246 | Fermat's little theorem, from primality alone; the exponent arithmetic modulo P - 1 of every proof and signature rests on it |
| NumberTheory.ModInverseCorrect | dev/maskash-crypto/ZeroKnowledgeProof.go:445-448 | The modular inverse is one whenever there is one |
| Keys.CommitOpens | dev/maskash-crypto/ZeroKnowledgeProof.go:61-80 | A commitment is g1 to the value modulo P times h to the random number, a unit, and keeps the random number |
| Keys.DecryptValue | dev/maskash-crypto/ZeroKnowledgeProof.go:198-218 | The search returns the least exponent of g1 in 1 to 262144 that gives the unmasked number, or 0 when there is none |
| Keys.VerifyCommitment | dev/maskash-crypto/ZeroKnowledgeProof.go:123-141 | The search returns the least value the commitment opens to, or 0 when it opens to none |
| Keys.DecryptAddress | dev/maskash-crypto/ZeroKnowledgeProof.go:250-265 | The first address of the pool whose power is under the mask, or an error when there is none |
| Keys.AddressRoundTrip | dev/maskash-crypto/ZeroKnowledgeProof.go:220-265 | An encrypted address of the pool is found again if and only if no earlier address has the same power of g1 |
| Keys.UnmaskNumber | dev/maskash-crypto/ZeroKnowledgeProof.go:181-206 | Taking the mask off an encryption leaves g1 to the encrypted number, for every key pair and random exponent |
| Keys.ValueRoundTrip | dev/maskash-crypto/ZeroKnowledgeProof.go:163-218 | Every value up to the limit is decrypted to itself, for every random exponent, if and only if no power of g1 up to the limit is 1 |
| Keys.CommitmentRoundTrip | dev/maskash-crypto/ZeroKnowledgeProof.go:61-141 | A commitment opens to a value exactly when it was made for it |
| LinearProof.GenerateNonces | dev/maskash-crypto/ZeroKnowledgeProof.go:418-459 | The prover's vector: random entries, with the entry at the last nonzero coefficient solved for |
| LinearProof.NoncesOrthogonal | dev/maskash-crypto/ZeroKnowledgeProof.go:418-466 | That vector is orthogonal to the coefficients modulo P - 1 when the last nonzero coefficient is invertible |
| LinearProof.ConcatFront | dev/maskash-crypto/ZeroKnowledgeProof.go:467-484 | The bases enter the digest from the first to the last, each of them whole |
| LinearProof.NoncesRandom | dev/maskash-crypto/ZeroKnowledgeProof.go:418-459 | All random numbers are in that vector, in their order, around the solved entry |
| LinearProof.CommitToNonces | dev/maskash-crypto/ZeroKnowledgeProof.go:467-477 | The loop computes the product of powers and the concatenation of the bases |
| LinearProof.Answer | dev/maskash-crypto/ZeroKnowledgeProof.go:485-492 | The answers are the entries less the challenge times the witness, modulo P - 1 |
| LinearProof.GenerateLinearEquationProof | dev/maskash-crypto/ZeroKnowledgeProof.go:406-494 | The honest proof, or an empty one when the lengths differ: every answer is the entry less c times the witness, c being the digest of the bases, the statement and the commitment |
| LinearProof.RecomputeCommitment | dev/maskash-crypto/ZeroKnowledgeProof.go:515-523 | The verifier's loop computes the power of the statement times the product of powers of the answers |
| LinearProof.SumAnswers | dev/maskash-crypto/ZeroKnowledgeProof.go:532-540 | Reducing after every term gives the inner product modulo P - 1 |
| LinearProof.VerifyLinearEquationProof | dev/maskash-crypto/ZeroKnowledgeProof.go:496-546 | Accepts exactly when lengths match and both checks hold for the digest of the bases, the statement and the commitment |
| LinearProof.LinearProofExact | dev/maskash-crypto/ZeroKnowledgeProof.go:406-546 | An honest proof of any length is accepted if and only if the statement, scaled by the challenge, holds; for all random choices and digests |
| LinearProof.NonzeroConstantRejected | dev/maskash-crypto/ZeroKnowledgeProof.go:528-544 | Whatever the proof, a nonzero constant is accepted only with challenge zero |
| LinearProof.LinearProofComplete | dev/maskash-crypto/ZeroKnowledgeProof.go:406-546 | Every true statement with constant 0 is accepted |
| LinearProof.GenerateEqualityProof | dev/maskash-crypto/ZeroKnowledgeProof.go:548-566 | The honest proof for the product of both commitments, or an empty one for different groups |
| LinearProof.VerifyEqualityProof | dev/maskash-crypto/ZeroKnowledgeProof.go:588-600 | Accepts exactly the accepted linear proofs about the product of both ciphertexts |
| LinearProof.EqualityProofExact | dev/maskash-crypto/ZeroKnowledgeProof.go:548-600 | For every value: the honest equality proof is accepted if and only if the value reduced modulo P and the magnitude of its int64 are the same exponent of the product of both bases, after scaling by the challenge |
| LinearProof.EqualityProofComplete | dev/maskash-crypto/ZeroKnowledgeProof.go:548-600 | Commitments to one value below P and 2^63 under any two keys of a group: the equality proof is accepted |
| BalanceProof.SumInputs | dev/maskash-crypto/ZeroKnowledgeProof.go:610-619 | The first loop: wrapped sum of values, sum of random numbers modulo P - 1, product of commitments |
| BalanceProof.SubtractOutputs | dev/maskash-crypto/ZeroKnowledgeProof.go:620-627 | The second loop: the differences, and the product of the outputs |
| BalanceProof.GenerateBalanceProof | dev/maskash-crypto/ZeroKnowledgeProof.go:602-638 | The honest linear proof about the quotient, or an empty one when lengths differ |
| BalanceProof.VerifyBalanceProof | dev/maskash-crypto/ZeroKnowledgeProof.go:640-659 | Accepts exactly the accepted linear proofs about the quotient of the ciphertexts |
| BalanceProof.MaskedIsCommitments | dev/maskash-crypto/ZeroKnowledgeProof.go:640-654 | Ciphertexts that carry the commitments give the verifier the prover's statement |
| BalanceProof.ProductOfCommitments | dev/maskash-crypto/ZeroKnowledgeProof.go:613-627 | A product of commitments is a commitment to the sums |
| BalanceProof.QuotientOpens | dev/maskash-crypto/ZeroKnowledgeProof.go:628-632 | The quotient of the products is a commitment to the differences |
| BalanceProof.BalanceProofExact | dev/maskash-crypto/ZeroKnowledgeProof.go:602-659 | For lists of any length, the proof is accepted if and only if the challenge times the difference of the sums is 0 modulo P - 1 |
| BalanceProof.BalancedAccepted | dev/maskash-crypto/ZeroKnowledgeProof.go:602-659 | Balanced lists are always accepted |
| FormatProof.FirstRecomputed | dev/maskash-crypto/ZeroKnowledgeProof.go:371-404 | The verifier recomputes the prover's first commitment if and only if g1 to the challenge times (v mod P - v) is 1 |
| FormatProof.SecondRecomputed | dev/maskash-crypto/ZeroKnowledgeProof.go:371-404 | It always recomputes the second |
| FormatProof.FormatProofComplete | dev/maskash-crypto/ZeroKnowledgeProof.go:267-404 | Every generated format proof for a value or address below P is accepted |
| FormatProof.FormatProofExact | dev/maskash-crypto/ZeroKnowledgeProof.go:267-404 | For a prover that uses other numbers than the ciphertext holds: accepted if and only if the commitments, shifted by the challenge times the differences, hash to the same challenge |
| FormatProof.RecomputedMatches | dev/maskash-crypto/ZeroKnowledgeProof.go:758-808 | The verifier of the older balance proof recomputes each single commitment |
| FormatProof.TotalRecomputed | dev/maskash-crypto/ZeroKnowledgeProof.go:758-808 | It recomputes the commitment to the total if and only if g1 to the challenge times the imbalance is 1 |
| FormatProof.OldBalanceComplete | dev/maskash-crypto/ZeroKnowledgeProof.go:661-808 | The older balance proof is accepted whenever the total is the sum |
| FormatProof.OldBalanceExact | dev/maskash-crypto/ZeroKnowledgeProof.go:661-808 | For a prover that uses other values than the commitments hold: accepted if and only if the three commitments, shifted by the challenge times the differences, hash to the same challenge |
| ElGamal.Encrypt | dev/maskash-crypto/ElGamal.go:92-146 | The loop computes the padded ciphertext of every chunk |
| ElGamal.EncryptedChunk | dev/maskash-crypto/ElGamal.go:92-146 | Every 28 bytes become 32 bytes of each half: g2 to the random exponent, and h to it times the number of the chunk |
| ElGamal.Decrypt | dev/maskash-crypto/ElGamal.go:148-177 | The loop concatenates the unmasked pieces without leading zeros |
| ElGamal.ChunkRoundTrip | dev/maskash-crypto/ElGamal.go:120-175 | A chunk is decrypted to itself without leading zeros |
| ElGamal.EncryptionRoundTrip | dev/maskash-crypto/ElGamal.go:92-177 | Decryption gives the trimmed chunks, hence the message if and only if no chunk starts with a zero byte |
| ElGamal.ZeroByteLost | dev/maskash-crypto/ElGamal.go:92-177 | The message of one zero byte is lost |
| ElGamal.Sign | dev/maskash-crypto/ElGamal.go:179-218 | The signature with the first candidate coprime to P - 1 |
| ElGamal.Verify | dev/maskash-crypto/ElGamal.go:220-246 | Accepts exactly when the stored digest is the message's and the equation holds |
| ElGamal.SignatureEquation | dev/maskash-crypto/ElGamal.go:199-246 | The verification equation holds for every signature made with a coprime nonce |
| ElGamal.EquationExact | dev/maskash-crypto/ElGamal.go:220-246 | For any power of g2 as r, any s and any digest: the equation holds if and only if x r + k s is the digest as an exponent of g2 |
| ElGamal.OtherAnswer | dev/maskash-crypto/ElGamal.go:220-246 | A signature with another s is accepted by the equation if and only if k s is the same exponent of g2 |
| ElGamal.OtherDigest | dev/maskash-crypto/ElGamal.go:220-246 | A signature under another digest if and only if both digests are the same exponent of g2 |
| ElGamal.OtherKey | dev/maskash-crypto/ElGamal.go:220-246 | A signature under another public key if and only if both keys agree in the power r |
| ElGamal.TrivialForgery | dev/maskash-crypto/ElGamal.go:220-246 | A made-up signature with r = 1 and s = 0 if and only if the key is g2 to the digest |
| ElGamal.SignatureExact | dev/maskash-crypto/ElGamal.go:179-246 | A signature is accepted if and only if the digest does not start with a zero byte |
| SortedMap.TxSortedMap.Put | go-ethereum-release-1.9/core/tx_list.go:73-79 | Contents updated at the nonce; heap and cache stay in step with the contents |
| SortedMap.TxSortedMap.Forward | go-ethereum-release-1.9/core/tx_list.go:84-98 | Keeps the nonces from the threshold on; returns the others, ascending; a cache stays the sorted contents |
| SortedMap.TxSortedMap.Filter | go-ethereum-release-1.9/core/tx_list.go:102-123 | Splits the contents by the test |
| SortedMap.TxSortedMap.Cap | go-ethereum-release-1.9/core/tx_list.go:127-148 | Keeps the lowest nonces up to the threshold; returns the others, descending |
| SortedMap.TxSortedMap.Remove | go-ethereum-release-1.9/core/tx_list.go:152-169 | Removes one nonce and says whether it was there |
| SortedMap.TxSortedMap.Ready | go-ethereum-release-1.9/core/tx_list.go:178-193 | Takes the maximal run of consecutive nonces from the least one, if that is not above the start |
| SortedMap.TxSortedMap.Flatten | go-ethereum-release-1.9/core/tx_list.go:203-216 | The sorted contents, from the cache or freshly sorted |
| TxList.TxList.Add | go-ethereum-release-1.9/core/tx_list.go:251-272 | Inserts if the nonce is free; otherwise if and only if the new price is higher and reaches the old one raised by the bump, rounded down; the caps keep bounding the contents |
| TxList.AcceptsExact | go-ethereum-release-1.9/core/tx_list.go:251-262 | The bump rule in prices alone |
| TxList.TxList.Forward | go-ethereum-release-1.9/core/tx_list.go:277-279 | As the sorted map's; gap-free lists stay so |
| TxList.TxList.Filter | go-ethereum-release-1.9/core/tx_list.go:290-314 | The short cut through the caps equals the full filter; strict lists also give up what follows, and stay gap-free |
| TxList.TxList.Cap | go-ethereum-release-1.9/core/tx_list.go:318-320 | As the sorted map's; gap-free lists stay so |
| TxList.TxList.Remove | go-ethereum-release-1.9/core/tx_list.go:325-336 | Removal by nonce; a strict list also gives up everything after it and stays gap-free |
| TxList.TxList.Ready | go-ethereum-release-1.9/core/tx_list.go:345-347 | The run that is ready leaves the list |
| PricedList.TxPricedList.Put | go-ethereum-release-1.9/core/tx_list.go:414-416 | One more entry, heap order kept |
| PricedList.TxPricedList.Removed | go-ethereum-release-1.9/core/tx_list.go:421-436 | Counts stale entries, or rebuilds the heap with every pooled transaction once |
| PricedList.TxPricedList.Underpriced | go-ethereum-release-1.9/core/tx_list.go:471-493 | True exactly when a remote transaction is no dearer than every live entry and there is one; only stale entries leave |
| PricedList.TxPricedList.Discard | go-ethereum-release-1.9/core/tx_list.go:497-520 | Drops live remote entries only, enough slots counted per entry or all remotes, no more than needed; no remote kept is cheaper, or as cheap with a higher nonce; local entries stay. The demand is never negative |
| PricedList.TxPricedList.Cap | go-ethereum-release-1.9/core/tx_list.go:440-467 | Drops exactly the live remote entries below the threshold |
| PricedList.DropDistinct | go-ethereum-release-1.9/core/tx_list.go:497-520 | With every live entry in the heap once, nothing is dropped twice |
| PoolState.MoveKeeps | go-ethereum-release-1.9/core/tx_pool.go:772-969 | Every small move, and the import of a block, keeps the pool invariant: lookup is the disjoint union of pending, queue and what is in transit, one transaction per nonce, right slot count, claims known to the database |
| PoolState.MoveGuards | go-ethereum-release-1.9/core/tx_pool.go:662-761 | Every move but the import of a block that writes the commitment keeps it claimed at most once, and locked while claimed |
| PoolState.BookedExact | go-ethereum-release-1.9/core/rawdb/accessors_chain.go:669-697 | The import of a block changes exactly the commitments its transactions write, the last one deciding: purchased and output coins unspent, the old coin of a transfer spent |
| PoolState.BlockSpends | go-ethereum-release-1.9/core/rawdb/accessors_chain.go:669-697 | A transfer in a block spends its old coin and creates two, a purchase creates one, unless the block goes on to use them |
| PoolState.RunKeeps | go-ethereum-release-1.9/core/tx_pool.go:772-969 | So does every run, in each of its states |
| PoolState.RunGuards | go-ethereum-release-1.9/core/tx_pool.go:662-761 | In every state of every run, a commitment that was guarded at first is claimed at most once and locked while claimed, unless a block has written it |
| PoolState.NoDoubleSpend | go-ethereum-release-1.9/core/tx_pool.go:662-761 | In every state of every run from an empty pool, no two pooled transactions claim one commitment and what they claim is locked, unless a block has written it; no nonce of an account is pending and queued |
| PoolState.ValidIsFree | go-ethereum-release-1.9/core/tx_pool.go:662-702 | A transaction that passes the commitment check claims nothing that is claimed in the pool, as long as its commitment is guarded |
| PoolState.ReleaseUndoesLock | go-ethereum-release-1.9/core/tx_pool.go:705-761 | Releasing undoes locking if and only if the transaction is a transfer; a purchase leaves its commitment behind, unlocked |
| PoolHistory.StatusExact | go-ethereum-release-1.9/core/tx_pool.go:705-761 | In every state of every run, with blocks imported at any moment, every commitment is as the last step that wrote it left it, or as the database had it |
| PoolHistory.KeysExact | go-ethereum-release-1.9/core/tx_pool.go:662-761 | The database then knows exactly its own commitments, those of every purchase ever admitted and those that blocks wrote |
| PoolHistory.LockedUntilReleased | go-ethereum-release-1.9/core/tx_pool.go:705-761 | A coin that neither the database nor a block ever had is locked, and spent by no pooled transfer, until its purchase has left and was given back |
| PoolHistory.SpendableExact | go-ethereum-release-1.9/core/tx_pool.go:662-761 | Any coin can be spent if and only if the last step that wrote it gave it back, or imported a block that leaves it unspent, or nothing wrote it and the database had it so |
| PoolHistory.CoinOutsideExact | go-ethereum-release-1.9/core/tx_pool.go:662-761 | A transfer of a coin that neither the database nor a block ever had passes the check if and only if the last step that wrote it gave it back and the outputs are new; then its purchase has left, and is refused ever after |
| PoolHistory.PurchaseExact | go-ethereum-release-1.9/core/tx_pool.go:668-679 | A purchase passes the check if and only if its coin is new to the database, to blocks and to the pool's past |
| PoolHistory.DroppedPurchase | go-ethereum-release-1.9/core/tx_pool.go:662-761 | For a single purchase: once it was dropped, a transfer of its coin that failed the check before passes, and the purchase itself fails |
| PoolHistory.SpentAgainExact | go-ethereum-release-1.9/core/rawdb/accessors_chain.go:669-697 | A transfer of a coin that is spent at some moment of a run, and that no later block recreates, passes the check later if and only if the last step that wrote the coin is a later one that gave it back, and the outputs are new; then something that claimed the coin at that moment has been given back since |
| PoolHistory.ImportedRefused | go-ethereum-release-1.9/core/tx_pool.go:1403-1408 | A transaction of an imported block never passes the commitment check again, so putting the transactions of dropped blocks back admits none of them |
| PoolHistory.OrphanExact | go-ethereum-release-1.9/core/tx_pool.go:705-761 | While no block has written it, a commitment is locked without a pooled claimant if and only if the database had it so, or the transaction that locked it last has left without giving it back |
| PoolState.ForgetKeeps | go-ethereum-release-1.9/core/tx_pool.go:1822-1830 | Removal from the lookup keeps the slot count and the invariant |
| PoolSteps.LimboFree | go-ethereum-release-1.9/core/tx_pool.go:930-969 | A transaction in transit finds its nonce free in both lists, so promotion and demotion never collide with an older one |
| PoolSteps.SlotsFreed | go-ethereum-release-1.9/core/tx_pool.go:1822-1834 | Whatever leaves frees its slots, each transaction once |
| PoolSteps.SlotsCounted | go-ethereum-release-1.9/core/tx_list.go:497-520 | The slots Discard counts are at least those freed, and equal to them if and only if no entry is dropped twice |
| PoolSteps.CountedTwice | go-ethereum-release-1.9/core/tx_list.go:497-520 | A heap with one of four transfers twice, where two slots are counted and one is freed |
| PoolSteps.TwiceInHeap | go-ethereum-release-1.9/core/tx_list.go:414-436 | How that comes about: a transfer that was removed while its entry stayed passes the commitment check again, and putting it into the heap makes its entry double |
| PoolSteps.RoomNeeded | go-ethereum-release-1.9/core/tx_pool.go:829 | A full pool never asks for a negative number of slots: there are at least as many slots as transactions |
| PoolSteps.OnceEachPut | go-ethereum-release-1.9/core/tx_list.go:414-416 | A new transaction gets into the heap twice if and only if a stale entry of it is still there |
| PoolSteps.RoomMade | go-ethereum-release-1.9/core/tx_pool.go:827-834 | With no live entry twice in the heap, the room needed is made or only local transactions remain |
| PoolSteps.CheapestPooled | go-ethereum-release-1.9/core/tx_list.go:471-493 | Cheapest in the price heap is cheapest in the pool, whatever stale entries there are |
| PoolSteps.PromotionSettles | go-ethereum-release-1.9/core/tx_pool.go:1417-1480 | After promotion what stays queued is affordable, current, above the next nonce and within the account's limit |
| PoolSteps.DemotionExecutable | go-ethereum-release-1.9/core/tx_pool.go:1619-1668 | What stays pending starts at the account's nonce, is affordable, and is gap-free if it was |
| PoolSteps.DemotionExact | go-ethereum-release-1.9/core/tx_pool.go:1619-1668 | Nonce by nonce: what stays pending, what is requeued, what is dropped and what is spent |
| PoolPromotion.PromotionAgain | go-ethereum-release-1.9/core/tx_pool.go:1417-1480 | Promoting what promotion left changes nothing |
| PoolPromotion.PromotedPass | go-ethereum-release-1.9/core/tx_pool.go:1417-1480 | One more pass over an account, treated before or not, leaves exactly the accounts seen so far promoted, once each |
| PoolPromotion.PromotedSettled | go-ethereum-release-1.9/core/tx_pool.go:1417-1480 | Promoted accounts keep queued only what is payable, above their next nonce and within their limit; the others are as before |
| PoolPromotion.StrandedExact | go-ethereum-release-1.9/core/tx_pool.go:1417-1480 | After promotion the transaction that would continue the pending list is still queued if and only if, before, it was payable, the run from the next nonce did not get to it, and the limit spared it |
| PoolPromotion.GoneExact | go-ethereum-release-1.9/core/tx_pool.go:1422-1450 | Promotion drops of a local account exactly what is too old or too costly |
| PoolOrder.TidyStranded | go-ethereum-release-1.9/core/tx_pool.go:1417-1480 | With a list without gaps that is so if and only if the transaction is queued and payable and the next nonce is behind the list |
| PoolOrder.StrandedExample | go-ethereum-release-1.9/core/tx_pool.go:1396-1413 | Such a case after a reset: nonces 5 to 7 pending, nonce 8 queued |
| PoolOrder.TidyPromotes | go-ethereum-release-1.9/core/tx_pool.go:1417-1480 | Promotion keeps a pending list without gaps from the account's nonce to the next nonce |
| PoolOrder.TidyWithoutAll | go-ethereum-release-1.9/core/tx_pool.go:1114-1160 | So does removing any transactions one after the other, and nothing queued becomes older than the account's nonce |
| PoolOrder.TidyEntered | go-ethereum-release-1.9/core/tx_pool.go:836-912 | So does entering the queue or replacing a pending transaction |
| PoolOrder.CurrentEntered | go-ethereum-release-1.9/core/tx_pool.go:836-912 | Nor does it make anything queued older than the account's nonce |
| PoolOrder.TornExact | go-ethereum-release-1.9/core/tx_pool.go:1328-1668 | For any two lists: promotion and demotion after a reset leave a pending list that had no gaps without gaps from the new nonce on, if and only if the queue has no payable run from a lower new nonce that ends before it |
| PoolOrder.TornExample | go-ethereum-release-1.9/core/tx_pool.go:1328-1668 | Why nothing queued may be older than the account's nonce, which no operation leaves behind: with 5 to 7 pending and 3 queued a reset to nonce 3 would leave a gap |
| PoolReorg.ReorgLeaves | go-ethereum-release-1.9/core/tx_pool.go:1265-1314 | Over a whole reorganisation, exactly the commitments of what left are given back, except those of pending transactions at nonces the new chain has passed, with them or with others; these have left, too |
| PoolReorg.EntryExact | go-ethereum-release-1.9/core/tx_pool.go:1265-1314 | Every commitment is as it was, or unspent and unlocked if something that claims it left otherwise, whatever it was before |
| PoolReorg.OrphansAfter | go-ethereum-release-1.9/core/tx_pool.go:1621-1630 | Afterwards a commitment is locked without a pooled claimant if and only if it was locked and every claimant was pending at a nonce the chain has passed |
| PoolReorg.SpentAfterReset | go-ethereum-release-1.9/core/tx_pool.go:1428-1434 | A coin that a block has spent can be spent again after a reset if and only if something that claims it has left without having been pending at a passed nonce; a queued transfer at a passed nonce is enough |
| PoolReorg.ReorgLocals | go-ethereum-release-1.9/core/tx_pool.go:1265-1314 | Local accounts lose only what is too old or too costly |
| PoolReorg.ReorgExecutable | go-ethereum-release-1.9/core/tx_pool.go:1265-1314 | After a new block every pending list starts at the account's nonce and is affordable |
| PoolReorg.ReorgWithin | go-ethereum-release-1.9/core/tx_pool.go:1485-1614 | The global limits are met as far as the remote accounts allow |
| PoolReorg.ReorgOrdered | go-ethereum-release-1.9/core/tx_pool.go:1265-1314 | Without a reset, pending lists without gaps stay so, the next nonce follows each, and nothing queued is too old |
| PoolReorg.ReorgStraight | go-ethereum-release-1.9/core/tx_pool.go:1265-1314 | With a reset, for any pool: demotion leaves an account's list without gaps if and only if it was not torn, and the cuts keep it so |
| PoolReorg.ResetOrdered | go-ethereum-release-1.9/core/tx_pool.go:1265-1314 | So with any reset, too, whatever the new chain: an ordered pool is ordered afterwards |
| PoolRuns.Rearranged | go-ethereum-release-1.9/core/tx_pool.go:1114-1668 | Any valid pool with fewer transactions, however arranged, in which the commitments of some that left were given back, is reached by a run of the machine's moves |
| PoolRuns.EnteredReached | go-ethereum-release-1.9/core/tx_pool.go:836-912 | So is the pool after a transaction that passes the commitment check entered, replacing another or not |
| PoolRuns.LeftReached | go-ethereum-release-1.9/core/tx_pool.go:1265-1314 | So is the pool after promotion, demotion, removal and the cuts |
| PoolRuns.ReachKeeps | go-ethereum-release-1.9/core/tx_pool.go:772-969 | Whatever is reached keeps the pool invariant |
| PoolRuns.ReachLocks | go-ethereum-release-1.9/core/tx_pool.go:662-761 | And keeps claims distinct and locked |
| PoolRuns.EnteringKeepsPrices | go-ethereum-release-1.9/core/tx_pool.go:836-912 | A transaction that enters never lowers the price pooled at its nonce |
| PoolRuns.AddPrices | go-ethereum-release-1.9/core/tx_pool.go:815-879 | Making room and entering together lower a pooled price if and only if a dearer transaction of the same account and nonce made room |
| PoolRuns.PriceFalls | go-ethereum-release-1.9/core/tx_pool.go:815-879 | A pool of two slots where a transaction of price 3 takes the nonce of one of price 5 |
| PoolRuns.HistoryPrices | go-ethereum-release-1.9/core/tx_pool.go:772-1314 | Over any sequence of operations, the price pooled at a nonce of an account never falls as long as the nonce stays pooled |
| PoolRuns.HistoryRun | go-ethereum-release-1.9/core/tx_pool.go:772-1314 | Any sequence of pool operations and block imports from an empty pool is one run of the machine that passes through all states in between, so the results about runs and their histories hold of the pool |
| PoolRuns.HistoryKeeps | go-ethereum-release-1.9/core/tx_pool.go:772-1314 | Between the operations the invariant holds, and as long as no block was imported claims are distinct and locked |
| TxPool.TxPool.constructor | go-ethereum-release-1.9/core/tx_pool.go:214-249 | An empty valid pool, in order, with single heap entries and held locks; limits and bump as given, or their defaults where unworkable |
| TxPool.TxPool.Drop | go-ethereum-release-1.9/core/tx_pool.go:1822-1830 | One transaction leaves the lookup, with or without its commitment given back |
| TxPool.TxPool.DropAll | go-ethereum-release-1.9/core/tx_pool.go:1428-1434 | A list of transactions leaves; exactly their claims are given back |
| TxPool.TxPool.EnqueueTx | go-ethereum-release-1.9/core/tx_pool.go:884-912 | A new transaction is queued, replacing the old one if and only if it outbids it, in prices; a pooled one is requeued without touching anything else |
| TxPool.TxPool.RemoveTx | go-ethereum-release-1.9/core/tx_pool.go:1114-1160 | The transaction leaves, what followed it in the pending list returns to the queue, and the next nonce is lowered; order, single heap entries and locks are kept; the effect is a run of the machine |
| TxPool.TxPool.IsUnderpriced | go-ethereum-release-1.9/core/tx_pool.go:819-826 | Underpriced exactly when remote and no dearer than every pooled transaction of a non-empty pool |
| TxPool.TxPool.MakeRoom | go-ethereum-release-1.9/core/tx_pool.go:827-834 | The cheapest remote transactions leave, until the slots counted suffice or only local ones remain; the slots freed are exactly those of what left; with single heap entries, which are kept, that is the room needed; next nonces are lowered in turn |
| TxPool.TxPool.Room | go-ethereum-release-1.9/core/tx_pool.go:815-834 | A full pool refuses an underpriced transaction, or makes room for it as above; a pool that is not full is unchanged |
| TxPool.ValidateTx | go-ethereum-release-1.9/core/tx_pool.go:561-606 | The errors of validateTx exactly under their conditions and in their order; gas below the intrinsic gas is none |
| TxPool.TxPool.ReplacePending | go-ethereum-release-1.9/core/tx_pool.go:836-859 | A pending transaction is replaced if and only if it is outbid, in prices |
| TxPool.TxPool.Add | go-ethereum-release-1.9/core/tx_pool.go:772-879 | Each error exactly under its condition and in the order of the checks; otherwise the exact state and next nonces after making room and entering, replacing if and only if the old price is outbid; prices never fall from making room on, and altogether if and only if nothing dearer of the same nonce made room; the slots freed; with single heap entries and a full pool, within the slot limit or only local ones left; afterwards heap entries are single if and only if no stale entry of the transaction was left when it entered; validity, order and locks kept; the effect is a run of the machine |
| TxPool.TxPool.WriteAllCM | go-ethereum-release-1.9/core/rawdb/accessors_chain.go:669-697 | The import of a block on the database shared with the pool: the loop writes exactly what the block books, and the pool stays valid |
| TxPool.TxPool.SetGasPrice | go-ethereum-release-1.9/core/tx_pool.go:461-471 | Exactly the remote transactions below the price leave; next nonces are lowered in turn; order, single heap entries and locks are kept |
| TxPool.TxPool.PromoteTx | go-ethereum-release-1.9/core/tx_pool.go:930-969 | The transaction becomes pending at a nonce that was free, and the next nonce follows it |
| TxPool.TxPool.PromoteAccount | go-ethereum-release-1.9/core/tx_pool.go:1422-1480 | The exact new lists, lookup, commitments and next nonce of an account |
| TxPool.TxPool.PromoteExecutables | go-ethereum-release-1.9/core/tx_pool.go:1417-1480 | Exactly the accounts given are promoted, each once: their queue, pending list, next nonce, what they lost and what was given back are those of PromotionOf on the state before; other accounts are unchanged |
| TxPool.TxPool.DemoteAccount | go-ethereum-release-1.9/core/tx_pool.go:1621-1666 | The exact new lists, lookup and commitments of an account |
| TxPool.TxPool.DemoteUnexecutables | go-ethereum-release-1.9/core/tx_pool.go:1619-1668 | The exact effect on every account: transactions at nonces the chain has passed leave without giving back their commitments, unaffordable ones give them back, what they invalidate is requeued |
| TxPool.TxPool.CapOne | go-ethereum-release-1.9/core/tx_pool.go:1518-1536 | The last pending transaction of an account leaves, its commitment is given back and the next nonce is reset |
| TxPool.TxPool.CutDown | go-ethereum-release-1.9/core/tx_pool.go:1515-1538 | Offenders of one length are cut together until the limit is met or the floor reached |
| TxPool.TxPool.TruncatePending | go-ethereum-release-1.9/core/tx_pool.go:1485-1569 | Every remote account keeps its lowest nonces up to one level, not below the account limit; the limit is met or the level is the account limit; the next level would exceed the limit |
| Fairness.LevelIsFair | go-ethereum-release-1.9/core/tx_pool.go:1485-1569 | Such a level is fair: accounts cut end at the level, others have no more, local ones are untouched, and the shortfall is less than the number of accounts cut |
| Fairness.LevelStep | go-ethereum-release-1.9/core/tx_pool.go:1505-1567 | One level costs exactly one transaction per account cut |
| TxPool.TxPool.TruncateQueue | go-ethereum-release-1.9/core/tx_pool.go:1572-1614 | Remote queues are emptied from the end of the order, the last one touched keeps its lowest nonces, and the limit is met exactly unless only local queues are left |
| TxPool.SortByHeartbeat | go-ethereum-release-1.9/core/tx_pool.go:1581-1588 | The remote accounts with queued transactions, each once, by last activity |
| TxPool.CutByBeats | go-ethereum-release-1.9/core/tx_pool.go:1581-1614 | In activity times alone: an account whose queue lost something in the cut was active no later than any account with something left |
| TxPool.TxPool.RefreshNonces | go-ethereum-release-1.9/core/tx_pool.go:1309-1313 | Every account's next nonce follows its last pending transaction; where nothing is pending it is as before |
| TxPool.TxPool.RunReorg | go-ethereum-release-1.9/core/tx_pool.go:1265-1314 | The exact stages: promotion of the accounts given or of all, after a new block demotion of all, the cut of the pending lists and of the queues. In sum: what left is given back except pending transactions at passed nonces, locals lose only what is too old or too costly, after a new block lists are executable, limits are met as far as remote accounts allow, next nonces follow the lists; a remote account loses queued transactions in the cut only once all that were active later have none; order, single heap entries and locks are kept, with and without a reset; and all of it is a run of the machine |
| Headers.IndexUnique | go-ethereum-release-1.9/core/headerchain.go:141-216 | The canonical index depends on the stored headers and the head alone |
| HeaderChain.HeaderChain.Evict | go-ethereum-release-1.9/core/headerchain.go:39-43 | The caches may lose entries at any time; nothing depends on what they hold |
| HeaderChain.HeaderChain.GetHeader | go-ethereum-release-1.9/core/headerchain.go:418-430 | Reading through the cache gives what the database has |
| HeaderChain.HeaderChain.GetTd | go-ethereum-release-1.9/core/headerchain.go:392-404 | Reading a total difficulty through the cache gives what the database has |
| HeaderChain.HeaderChain.DeleteAbove | go-ethereum-release-1.9/core/headerchain.go:174-182 | Every assignment above the new head is deleted, no other |
| HeaderChain.HeaderChain.RewriteBelow | go-ethereum-release-1.9/core/headerchain.go:184-196 | The assignments down to the fork follow the new head's parents; the rest already does |
| HeaderChain.HeaderChain.WriteHeader | go-ethereum-release-1.9/core/headerchain.go:141-216 | Keeps: the index is exactly the head's parent path, every total difficulty is its path's sum, none exceeds the head's. An unknown parent changes nothing; the head moves exactly when the total difficulty says so, or the coin on a tie |
| HeaderChain.HeaderChain.GetAncestor | go-ethereum-release-1.9/core/headerchain.go:355-388 | Exact for every hash: the true ancestor when the budget covers the blocks off the index (one step needs none), nothing otherwise; a hash that is not stored has no ancestor but itself, except that the zero hash passes for canonical above the head; and what is left of the budget |
| HeaderChain.DetourExact | go-ethereum-release-1.9/core/headerchain.go:355-388 | The blocks off the index that the budget pays for: an ancestor is canonical exactly from there on |
| HashCache.HashFn.GetHash | go-ethereum-release-1.9/core/evm.go:62-93 | Whatever was asked before, the true ancestor hash as far as headers are stored, and zero for the reference and above; the last number of the range finds the parent of block zero |
| HashCache.AboveGenesis | go-ethereum-release-1.9/core/evm.go:62-93 | The walk cannot pass the parent of block zero |
| Reorg.BlockChain.WriteHeadBlock | go-ethereum-release-1.9/core/blockchain.go:668-695 | A block on top of the head whose transactions are new keeps the index the path of the head and the lookup exact |
| Reorg.BlockChain.WriteTxLookupEntries | go-ethereum-release-1.9/core/rawdb/accessors_indexes.go:58-65 | The loop maps every transaction of the block to its number and no other |
| Reorg.OnTopKeeps | go-ethereum-release-1.9/core/blockchain.go:668-695 | Index and lookup carry over to a block on top |
| Reorg.BlockChain.FindBranches | go-ethereum-release-1.9/core/blockchain.go:2022-2066 | Succeeds exactly when the chains meet; then the two chains are the branches above the highest common block |
| Reorg.BlockChain.InsertBranch | go-ethereum-release-1.9/core/blockchain.go:2082-2093 | Index and lookup with the branch written over them, all but its head |
| Reorg.BlockChain.Reorganise | go-ethereum-release-1.9/core/blockchain.go:1966-2107 | Unchanged on failure; otherwise the exact new index and lookup |
| Reorg.BlockChain.SetHead | go-ethereum-release-1.9/core/blockchain.go:1966-2111 | The lookup has exactly the transactions on the new head's path; the index is that path if and only if the new head is not lower or its branch has two blocks |
| Reorg.PathIsIndex | go-ethereum-release-1.9/core/blockchain.go:1966-2111 | The branch on top of the old index up to the fork is the parent path of the new block |
| Reorg.StaleExample | go-ethereum-release-1.9/core/blockchain.go:2100-2108 | A chain on which the move of the head leaves an index that is not the path of the new head, with the stale entry |
| ChainIndexer.Indexer.SetValidSections | go-ethereum-release-1.9/core/chain_indexer.go:469-481 | The loop removes exactly the heads of the sections given up |
| ChainIndexer.Indexer.VerifyLastHead | go-ethereum-release-1.9/core/chain_indexer.go:420-427 | Sections are given up until the last head is canonical or the checkpoint is reached |
| ChainIndexer.Indexer.NewHead | go-ethereum-release-1.9/core/chain_indexer.go:240-297 | The notice as a function of the state. A new head raises the known sections to the highest confirmed number or leaves them; a reorganisation leaves nothing known or, above the checkpoint, stored beyond it |
| ChainIndexer.HeadConfirms | go-ethereum-release-1.9/core/chain_indexer.go:272-297 | Known sections rise exactly to what is confirmed; what is confirmed and not below the checkpoint is known afterwards, once the checkpoint was found |
| ChainIndexer.ReorgReverts | go-ethereum-release-1.9/core/chain_indexer.go:244-270 | A reorganisation leaves nothing known or stored above its head, but for the checkpoint, and gives up no more |
| ChainIndexer.VerifiedExact | go-ethereum-release-1.9/core/chain_indexer.go:420-427 | Verification leaves the most sections of which the last is canonical, or those of the checkpoint |
| ChainIndexer.KnownConfirmed | go-ethereum-release-1.9/core/chain_indexer.go:240-382 | In every interleaving from a start without known sections, with restarts, all known sections are confirmed by a head that was notified |
| ChainIndexer.BeginConfirmed | go-ethereum-release-1.9/core/chain_indexer.go:301-345 | So the update loop never takes up a section whose last block lacks its confirmations |
| ChainIndexer.Indexer.ProcessSection | go-ethereum-release-1.9/core/chain_indexer.go:385-415 | Even if the canonical chain is another one at every read, a section that succeeds ends one section of parent links above its start |
| ChainIndexer.StepKeeps | go-ethereum-release-1.9/core/chain_indexer.go:240-427 | Every step of the update loop, every notice and every chain change keeps the section heads linked |
| ChainIndexer.RunKeeps | go-ethereum-release-1.9/core/chain_indexer.go:240-427 | From any linked sections the database has, with whatever heads below a checkpoint and restarts at any moment: in every interleaving consecutive section heads from the checkpoint on are exactly one section of parent links apart |
| ChainIndexer.LastHeadSuffices | go-ethereum-release-1.9/core/chain_indexer.go:417-427 | If the last section above the checkpoint is canonical, all stored ones are |
| ChainIndexer.CanonicalExact | go-ethereum-release-1.9/core/chain_indexer.go:417-427 | All stored sections above the checkpoint end in canonical blocks if and only if the last one does |
| ChainIndexer.UncheckedExample | go-ethereum-release-1.9/core/chain_indexer.go:417-427 | A run through a failed reset under a checkpoint, after which a stored section is off the canonical chain and neither the notice nor the verification gives it up |
| ChainIndexer.FreshStarts | go-ethereum-release-1.9/core/chain_indexer.go:113-139 | An indexer without sections, or with those of a checkpoint, also one that was put above sections stored before, is among the starts of a run |
| ChainIndexer.RunSound | go-ethereum-release-1.9/core/chain_indexer.go:417-427 | From any such start, with restarts at any moment: in every interleaving, once the last head is verified above the checkpoint, every stored section from the checkpoint's own on ends in the canonical block of its number |
| Feed.FindCase | go-ethereum-release-1.9/event/feed.go:213-220 | The first index of the channel, or -1 |
| Feed.DeleteCase | go-ethereum-release-1.9/event/feed.go:223-225 | In place, everything after the index moves left |
| Feed.DeactivateCase | go-ethereum-release-1.9/event/feed.go:228-232 | In place, the case changes places with the last active one |
| Feed.StepKeeps | go-ethereum-release-1.9/event/feed.go:103-190 | Every step keeps: removeSub first, channels filed once, the active cases the unserved prefix, served ones delivered to once |
| Feed.RunKeeps | go-ethereum-release-1.9/event/feed.go:103-190 | So does every interleaving of sends, subscriptions and unsubscriptions |
| Feed.SubscribedExact | go-ethereum-release-1.9/event/feed.go:72-127 | In every state of every run the feed has on file exactly the channels that were subscribed and not removed since, and waits to remove exactly those whose removal was requested since |
| Feed.TriesEnd | go-ethereum-release-1.9/event/feed.go:151-182 | Every try uses up one case; tries end when none is left, and Send returns exactly when all were served |
| Feed.ExactlyOnce | go-ethereum-release-1.9/event/feed.go:128-190 | When Send returns, every channel that was subscribed before it took the lock and not removed since has got the value exactly once unless removed meanwhile, no other channel got it, and the result counts the deliveries |
| Feed.UnservedPrefix | go-ethereum-release-1.9/event/feed.go:151-182 | At every moment of a send the active prefix is exactly what is still to be served |
| GasLimit.StepBound | go-ethereum-release-1.9/core/block_validator.go:113-144 | From 5120 on, a step is smaller than a 1024th |
| GasLimit.StepTooLarge | go-ethereum-release-1.9/core/block_validator.go:113-144 | Below 5120 a full block moves the limit by a 1024th |
| GasLimit.StepBoundExact | go-ethereum-release-1.9/core/block_validator.go:113-144 | All steps from a limit are within the bound if and only if it is at least 5120 |
| GasLimit.MoreUsage | go-ethereum-release-1.9/core/block_validator.go:113-144 | A parent that used more never gets a child with a lower limit |
| GasLimit.UsageMoves | go-ethereum-release-1.9/core/block_validator.go:113-144 | Within the range the limit rises if and only if one and a half times the usage reaches it, rounded down to a multiple of 1024, and falls if and only if that is more than 1024 short |
| GasLimit.EmptyBlock | go-ethereum-release-1.9/core/block_validator.go:113-144 | An empty block lowers the limit by one less than a 1024th, down to the floor |
| GasLimit.StepApproaches | go-ethereum-release-1.9/core/block_validator.go:113-144 | Never below the minimum; the range is closed under steps, and outside it every step comes at least three closer |
| GasLimit.RunConverges | go-ethereum-release-1.9/core/block_validator.go:113-144 | For any usage, the range is reached after finitely many blocks and never left |

## Left out

- Key generation, the prime table and random number generation: keys are assumed to satisfy what generation establishes, random numbers are inputs.
- Soundness and zero knowledge of the proofs: they depend on the digest function; only the algebra is proved.
- exchange/crypto: a near copy of the coin layer.
- FormatProof.OldBalanceComplete: values add up to less than P, which holds of 64-bit values and the 256-bit primes in use.
- BalanceProof.BalanceProofExact: the difference of the sums is within the range of an int, and single values are below P.
- TxPool.TxPool.Add: whether the signature of a purchase or the proofs of a transfer hold, whether the sender can be recovered and the intrinsic gas are inputs; the verifiers themselves are the coin layer's. Values are not negative. Hashes are assumed to identify transactions.
- TxPool.TxPool.RunReorg: putting back the transactions of blocks that the chain dropped is no step of it, since all of them are refused (`PoolHistory.ImportedRefused`), and no events are sent.
- The pool's account lists are nonce maps, the contents proved for the list objects; sharing of list objects is not modelled.
- The number of stale entries the price list counts: rebuilding in the middle of a batch makes it approximate, and nothing rests on it.
- The pool's journal, metrics, event loop, eviction of idle accounts and last activity times; the times come in as an input.
- PoolState.NoDoubleSpend: says nothing about a commitment that an imported block has written, since the import unlocks what the pool claims.
- PoolHistory.SpentAgainExact: no later block has the coin among its outputs; `PoolHistory.SpendableExact` covers that case.
- A transaction has at least one byte, as every encoded transaction does.
- HeaderChain.HeaderChain.WriteHeader: runs without rewinding the head; database failures end the process and are not modelled.
- Reorg.BlockChain.SetHead: logs, the separate header and fast-sync heads, and everything else in the block chain.
- ChainIndexer.RunSound: no checkpoint is added during a run, child indexers are not modelled, and setting the section count is one step.
- Feed.ExactlyOnce: channels are distinct, type checks are left out.
- container/heap and sort are modelled here; the priority queue is its contract, the entry of highest priority first.
- Networking, the EVM, consensus engines, RPC and command-line code.
