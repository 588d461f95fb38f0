# TzEL rollup ledger: a Dafny model

TzEL is a privacy ledger that runs as a smart rollup. Notes are commitments in
an append-only Merkle tree; a shield turns bridge deposits into notes, a
transfer spends notes by revealing nullifiers, an unshield pays out through the
rollup's outbox. The kernel keeps all of this in a byte store of short cells,
with only one tree node per level. This project models that kernel, the ledger
rules it applies, the hash-signature trees beside it and the byte formats under
it, and proves what the design rests on. `dafny verify dfyconfig.toml` checks
all of it.

How the parts fit together:

- **The tree.** `Merkle` defines the complete tree over padded leaves, for any
  depth and any node hash. `MerkleTrees` is the tree that keeps all leaves;
  `Frontier` is the kernel's form with one slot per level. Both compute the
  same root after every append.
- **The rules.** `Protocol` holds validation (`prepare_shield`,
  `apply_transfer`'s checks, `prepare_unshield`), generic over a ledger's
  answers. `KernelState` is the transition system: what the ledger is and what
  one inbox message does to it (`Step`, `Run`).
- **The kernel.** `Kernels.Kernel` is the imperative kernel over its store, a
  map from location to bytes, and its outbox. A ghost field carries the
  transition system's state; `KernelStore.Represents` says that the store is
  exactly that state's layout, cell by cell, with nothing missing, stale or
  extra. Every method is proved to move both together, so `RunWithHost` is
  proved against `Run`. `PathRendering` shows that locations and byte paths
  correspond.
- **Laws of runs.** `KernelInvariant`, `KernelLaws`, `KernelRuns`,
  `KernelHistory`, `KernelJournal` and `KernelStaging` prove what holds after
  every run from the empty store. A run's journal lists what each input did; the
  laws relate the journal to the inbox and to the final state.
- **The reference ledger.** `MemoryLedgers` is the in-memory ledger with its
  bounded root history; `LedgerAgreement` runs it beside the durable one, and
  `LedgerDifferences` shows runs on which the two part, and `LedgerReadBack`
  relates the in-memory ledger read from a store to the durable one.
- **Signatures.** `Wots`, `WotsAuth` and `Xmss` follow section 3.1 and 4.1 of
  RFC 8391, with the repository's own digit order, addresses and hash;
  `ConfigAuth` joins them to the kernel's one-shot configuration.
- **Bytes.** `Blake2sSpec` is RFC 7693 and `Blake2s` the streaming code proved
  against it; `Dal` is chunk and page reassembly; `WireFields`, `KernelWire`
  and `KernelMessages` are the inbox format; `VerifyMetaCodec` and `FeltWords`
  are the verifier's metadata codec and limb split.

Hashes are arbitrary functions, and no lemma asks them to be injective: a hash
into 32 bytes has collisions. Each binding law holds for every hash and names the
one place (a tree level, a chain step, two encodings) where a collision would
have to be. Libraries, build constants, clocks and hosts enter as
parameters: the `World` record holds signature and proof verdicts, message
framing and recipient parsing; each `Input` carries what the host reveals and
whether it takes an outbox message.

Four places where the code does less, or other, than a reader might expect; the
model follows the code in each:

- The ledger interface asks its writes not to fail after validation, but
  `append_note` stores the note before it converts the index to the host's
  `usize`. A transfer can therefore be rejected and still leave notes behind.
  `KernelLaws.RejectionIsAtomicExactly` gives the exact condition,
  `KernelHalfway.RejectedButWritten` a run on a 32-bit host that ends in it. The
  shipped kernel is built for wasm32 (`#[cfg(target_arch = "wasm32")]`,
  tezos/rollup-kernel/src/lib.rs:9 and 1878), so the affected width is the
  deployed one, from 2^32 - 2 notes on; hosts that can index the whole tree are not
  affected. The direct shield commit has the same
  weakness, and the staged one does not.
- The durable root set is never pruned, the in-memory one keeps 4096, and the
  in-memory fee is constant. `LedgerAgreement.VerdictsDifferExactly` says exactly
  when that makes one ledger accept what the other refuses: when a request the
  in-memory ledger accepts pays less than the level's fee, or a request the
  durable ledger accepts names a root the in-memory history has dropped.
- `read_ledger` returns an in-memory ledger whose root history is the empty tree's
  root alone, with no pools and no applied shields. `LedgerReadBack` says exactly
  how it then answers: like the durable ledger for transfers and unshields, but
  for the fee, while it no longer knows a replayed shield, and its valid roots are
  those of its history only until the first root is recorded.
- The list of DAL chunk pointers carries a bound of 256 in its encoding
  attribute, while the code around it counts up to 256 pointers. Whether the
  encoding library counts bytes there is outside this model, so the limit is a
  parameter; if it does, a pointer encodes with at most 15 chunks
  (`KernelMessages.PointersFitExactly`).

## Model

| member | source | states |
|---|---|---|
| Merkle.MembershipBinding | core/src/lib.rs:2599-2611 | for every node hash and leaf index in range: a sibling list of the tree's depth folds x to the root without meeting a collision at one of its levels if and only if x is that leaf and the list is its authentication path |
| Merkle.FoldPathFromNode | core/src/lib.rs:2599-2611 | for any node hash, folding a node with its sibling path gives its ancestor at the top of the path |
| Merkle.RootBinding | core/src/lib.rs:1392-1424 | for every node hash: two leaf sequences have one root over trees without a colliding node if and only if they agree once padded with zeros; with equal length that means they are equal |
| Merkle.ZeroLeafIsInvisible | core/src/lib.rs:1392-1424 | why equal length is needed: a ZERO leaf, which a transfer may append, does not change the root |
| MerkleTrees.MerkleTree.Append | core/src/lib.rs:1381-1390 | the leaf goes to the end and its index is the former size; the tree must not be full, as the source asserts |
| MerkleTrees.MerkleTree.GetRoot | core/src/lib.rs:1392-1394 | returns the root of the complete tree over the padded leaves |
| MerkleTrees.MerkleTree.ComputeLevel | core/src/lib.rs:1396-1424 | building rows upwards from any height computes the node the complete tree has there |
| MerkleTrees.MerkleTree.AuthPath | core/src/lib.rs:1426-1460 | returns the sibling nodes of every ancestor of the index, lowest first, and the root |
| Frontier.BuildZeroHashes | tezos/rollup-kernel/src/lib.rs:187-195 | entry i is the root of an empty tree of height i |
| Frontier.SimulateFrontierAppend | tezos/rollup-kernel/src/lib.rs:1173-1193 | the in-memory walk computes the specified walk's root and new slots, or reports the missing node |
| Frontier.AssertFrontierMatchesTreeSize | tezos/rollup-kernel/src/lib.rs:1159-1171 | accepts exactly the slot arrays in which every set bit of the size has a filled slot |
| Frontier.WalkFailsExactlyOnMissingSlot | tezos/rollup-kernel/src/lib.rs:1173-1193 | an append walk fails if and only if a slot the size calls for is empty, whatever the filled slots hold |
| Frontier.WalkReachesRoot | tezos/rollup-kernel/src/lib.rs:353-380 | on a live frontier the walk succeeds, ends at the root of the full tree over the extended leaves, and leaves the stated slots |
| Frontier.AppendedIsLive | tezos/rollup-kernel/src/lib.rs:353-380 | after an append every set bit of the new size again has the complete subtree just left of the next leaf |
| Frontier.IncrementalRootIsFullRoot | tezos/rollup-kernel/src/lib.rs:353-380 | from an empty tree with arbitrary stale slots, appending leaf by leaf succeeds exactly while the tree has room, and then size, root and liveness are those of the full tree |
| KernelStore.LayoutIsUnique | tezos/rollup-kernel/src/lib.rs:77-121 | one kernel state has only one byte store |
| KernelStore.StoreAnswersLikeLedger | tezos/rollup-kernel/src/lib.rs:308-325 | every query of the ledger interface gets the same answer from the byte store as from the ledger it lays out |
| KernelStore.PoolReadsBack | tezos/rollup-kernel/src/lib.rs:420-436 | a pool reads back as its balance, and as absent when it was never credited or holds empty bytes |
| KernelStore.CountReadsBack | tezos/rollup-kernel/src/lib.rs:294-306 | the stored fee counter counts only if its level is that of the current input |
| KernelStore.WithdrawalRoundTrip | tezos/rollup-kernel/src/lib.rs:602-627 | a withdrawal record decodes to what was encoded |
| KernelStore.ChunkReadsBack | tezos/rollup-kernel/src/lib.rs:893-916 | a stored note chunk reads back as its slice of the note |
| PathRendering.RenderInjective | tezos/rollup-kernel/src/lib.rs:522-600 | no two storage locations have the same byte path |
| PathRendering.StoreByLocationIsFaithful | tezos/rollup-kernel/src/lib.rs:77-121 | so a store keyed by location behaves like the host's store keyed by rendered bytes, write for write |
| CanonicalWire.NoteCodecIsExact | core/src/canonical_wire.rs:173-197 | an encrypted note decodes from bytes exactly when it encodes to them |
| CanonicalWire.PublishedNoteCodecIsExact | core/src/canonical_wire.rs:239-270 | the same for the published form, commitment first |
| Protocol.MatchOutputs | core/src/lib.rs:2215-2254 | comparing public outputs field by field passes exactly when all are equal |
| Protocol.ShieldProofBindsRequest | core/src/lib.rs:2215-2254 | one accepted proof fixes every field of the shield it authorises, ciphertexts up to their hash |
| Protocol.TransferProofBindsRequest | core/src/lib.rs:2339-2387 | the same for transfers, whatever their numbers of nullifiers |
| Protocol.UnshieldProofBindsRequest | core/src/lib.rs:2450-2499 | the same for unshields: nullifiers, amount, fee, both commitments and whether there is change, and up to their hash the trimmed recipient and both ciphertexts |
| Kernels.Kernel.InsertNullifier | tezos/rollup-kernel/src/lib.rs:328-337 | the new store is the layout of the ledger with the nullifier added unless already there |
| Kernels.Kernel.SnapshotTreeRoot | tezos/rollup-kernel/src/lib.rs:382-394 | records the stored root, once; the durable root set is never pruned |
| Kernels.Kernel.EnqueueWithdrawal | tezos/rollup-kernel/src/lib.rs:396-407 | the record joins the queue under the next index |
| Kernels.Kernel.NotePrivateTxApplied | tezos/rollup-kernel/src/lib.rs:409-418 | the counter of the current level goes up by one, restarting when the level changed |
| Kernels.Kernel.CreditDeposit | tezos/rollup-kernel/src/lib.rs:438-464 | adds to the pool or reports overflow and changes nothing |
| Kernels.Kernel.DebitDeposit | tezos/rollup-kernel/src/lib.rs:466-505 | takes from the pool, emptying its entry at zero, or reports a missing or short pool and changes nothing |
| Kernels.Kernel.MarkAppliedShield | tezos/rollup-kernel/src/lib.rs:511-519 | the commitment joins the applied set |
| Kernels.Kernel.WriteFrontier | tezos/rollup-kernel/src/lib.rs:353-380 | the loop over stored branches performs the specified walk, slot by slot |
| Kernels.Kernel.AppendOneNote | tezos/rollup-kernel/src/lib.rs:353-380 | a full tree refuses; otherwise note, slots, root and size are written, also when the index then does not fit the host's usize and an error is returned |
| Kernels.Kernel.WriteNotePayload | tezos/rollup-kernel/src/lib.rs:546-559 | one cell for a short note, a length and 1024-byte chunks for a long one, nothing else touched |
| Kernels.Kernel.ReadPersistedNote | tezos/rollup-kernel/src/lib.rs:893-916 | reads back exactly the bytes that were stored for the note |
| Kernels.Kernel.CommitPreparedShield | core/src/lib.rs:2279-2295 | the direct commit reaches the specified ledger and response; on a host whose indices do not fit it leaves exactly the pool drawn and the notes up to the one that does not fit |
| Kernels.Kernel.CommitPreparedUnshield | core/src/lib.rs:2540-2562 | the direct commit reaches the specified ledger and response; on a host whose indices do not fit it leaves exactly the queued withdrawal, the notes up to that one, and the nullifiers only if the change note still fitted |
| Kernels.Kernel.ApplyTransferDirect | core/src/lib.rs:2302-2403 | transfer checks and writes, in the source's order, including where it stops |
| Kernels.Kernel.PrepareDurableShieldCommit | tezos/rollup-kernel/src/lib.rs:1335-1456 | reads only; refuses in exactly the stated cases, otherwise the plan contains every byte of the commit |
| Kernels.Kernel.ApplyDurableShieldCommit | tezos/rollup-kernel/src/lib.rs:1465-1503 | cannot fail, and reaches the specified ledger and response |
| Kernels.Kernel.PrepareDurableUnshieldCommit | tezos/rollup-kernel/src/lib.rs:1195-1263 | reads only; refuses exactly when an index does not fit the host |
| Kernels.Kernel.ApplyDurableUnshieldCommit | tezos/rollup-kernel/src/lib.rs:1273-1307 | cannot fail, and reaches the ledger the direct commit reaches although it writes in another order |
| Kernels.Kernel.LoadCheckedBranches | tezos/rollup-kernel/src/lib.rs:1159-1171 | in a sound state the frontier check never fires |
| Kernels.Kernel.HandleShield | tezos/rollup-kernel/src/lib.rs:1074-1120 | the shield message performs its specified reply: ledger, outbox and result |
| Kernels.Kernel.HandleTransfer | tezos/rollup-kernel/src/lib.rs:1074-1120 | the transfer message performs its specified reply |
| Kernels.Kernel.HandleUnshield | tezos/rollup-kernel/src/lib.rs:1074-1120 | the unshield message performs its specified reply, writing the outbox before the store |
| Kernels.Kernel.HandleConfigureVerifier | tezos/rollup-kernel/src/lib.rs:1805-1819 | configures the verifier once, with a valid signature |
| Kernels.Kernel.HandleConfigureBridge | tezos/rollup-kernel/src/lib.rs:1825-1843 | configures the ticketer once, with a valid signature and an originated contract |
| Kernels.Kernel.HandleDeposit | tezos/rollup-kernel/src/lib.rs:728-755 | a deposit is credited only from the configured ticketer and once a verifier is configured |
| Kernels.Kernel.FetchFromDal | tezos/rollup-kernel/src/lib.rs:940-1072 | fetches, decodes and checks the kind; never yields another pointer |
| Kernels.Kernel.ApplyKernelMessage | tezos/rollup-kernel/src/lib.rs:1074-1120 | every message performs its specified reply, and dispatch ends because a fetched message is no pointer |
| Kernels.Kernel.EnsureInitialized | tezos/rollup-kernel/src/lib.rs:197-223 | writes exactly the missing cells and leaves a sound initial or unchanged ledger, also when the message later fails |
| Kernels.Kernel.RecordInput | tezos/rollup-kernel/src/lib.rs:1505-1521 | input counters saturate and the last input is kept, cut to 2048 bytes |
| Kernels.Kernel.ProcessInput | tezos/rollup-kernel/src/lib.rs:1505-1538 | one input moves the store and outbox by exactly one step of the transition system |
| Kernels.Kernel.RunWithHost | tezos/rollup-kernel/src/lib.rs:768-778 | a whole inbox moves them by the run of the transition system |
| Kernels.Kernel.ReadLedger | tezos/rollup-kernel/src/lib.rs:818-891 | succeeds in every state a run reaches and returns its notes, nullifiers, valid roots and withdrawals, with a root history of just the empty tree's root, no pool and no applied shield |
| LedgerReadBack.ReadBackAnswers | tezos/rollup-kernel/src/lib.rs:818-891 | the ledger read back answers validation exactly as the durable ledger would with other pools, no applied shield and the constant fee |
| LedgerReadBack.ReadBackDiffersExactly | tezos/rollup-kernel/src/lib.rs:835-845 | it answers for a pool as the durable ledger does if and only if the pool is not live, and for an applied shield if and only if that commitment was not applied; domain, roots, nullifiers and size agree |
| LedgerReadBack.TransferVerdictsReadBack | tezos/rollup-kernel/src/lib.rs:818-891 | a transfer is valid against the durable ledger if and only if it is valid against the ledger read back and pays the level's fee |
| LedgerReadBack.UnshieldVerdictsReadBack | tezos/rollup-kernel/src/lib.rs:818-891 | so is an unshield, with the same prepared commit |
| LedgerReadBack.ShieldVerdictsReadBack | tezos/rollup-kernel/src/lib.rs:835-845 | once deposits restored the pool, a shield is valid against the ledger read back and pays the level's fee if and only if the durable ledger would accept it without its replay check, so a replayed commitment is accepted |
| LedgerReadBack.HistoryInvariantExactly | tezos/rollup-kernel/src/lib.rs:835-841 | the valid roots of the ledger read back are those of its root history if and only if the kernel is initialised and has recorded no root since |
| KernelInvariant.InitialLedgerIsSound | tezos/rollup-kernel/src/lib.rs:197-223 | the initial ledger satisfies the ledger invariant |
| KernelInvariant.ApplyKernelKeepsInv | tezos/rollup-kernel/src/lib.rs:1074-1120 | every message, accepted or not, keeps the ledger invariant: live frontier, valid notes, distinct nullifiers and roots, bounded counters |
| KernelInvariant.ApplyDepositKeepsInv | core/src/lib.rs:2120-2127 | so does every deposit |
| KernelLaws.KernelFollows | tezos/rollup-kernel/src/lib.rs:1074-1120 | nullifiers, queue, pools, applied set, fee counter and configuration change by exactly what the reply's effect says, an error being the effect that does nothing |
| KernelLaws.RejectionIsAtomicExactly | core/src/lib.rs:2389-2403 | a rejected message leaves the ledger unchanged if and only if it is not a transfer that passes every check in a tree whose next three indices do not fit the host's usize |
| KernelLaws.RejectionIsAtomic | tezos/rollup-kernel/src/lib.rs:1074-1120 | on a host that can index the whole tree every rejected message leaves the ledger untouched |
| KernelHalfway.RejectedButWritten | core/src/lib.rs:2389-2403 | the exception is real, for every choice of hashes: a 32-bit host is configured and applies 1431655765 transfers, which fill 2^32 - 1 places of the tree; the next transfer is rejected, its notes stay, and the stored notes are no longer those of the accepted messages |
| KernelRuns.EveryRunIsSound | tezos/rollup-kernel/src/lib.rs:768-778 | the ledger invariant holds after every run from the empty store |
| KernelRuns.NoNullifierIsAcceptedTwice | tezos/rollup-kernel/src/lib.rs:328-337 | over every run the stored nullifiers are the accepted ones in order, and no two are equal |
| KernelRuns.OutboxIsTheQueue | tezos/rollup-kernel/src/lib.rs:1101-1110 | over every run the outbox is the withdrawal queue encoded record by record under the one configured ticketer |
| KernelRuns.DepositsAreConserved | tezos/rollup-kernel/src/lib.rs:438-505 | over every run deposits credited equal live pool balances plus the debits of applied shields, and each client commitment is applied at most once |
| KernelRuns.MinTotalInClosedForm | core/src/lib.rs:1855-1860 | n transactions of a level owe 100000 * 2^(n-1) together for 1 <= n <= 8 and 100000 * (128 + 64(n - 8)) beyond |
| KernelRuns.FeesCoverTheSchedule | tezos/rollup-kernel/src/lib.rs:294-306 | with levels in order, the accepted private transactions of each level paid at least that total, and the stored counter is the number accepted in the level |
| KernelHistory.TreeIsWhatWasAccepted | tezos/rollup-kernel/src/lib.rs:382-394 | over every run the stored notes are the accepted messages' notes in order exactly as long as the tree fits the host's indices; then the roots are those after each of them and the current root is valid |
| KernelHistory.WideHostsNeverOutgrow | tezos/rollup-kernel/src/lib.rs:382-394 | on a host that can index the whole tree, as every 64-bit host can, this is unconditional |
| KernelHistory.HistoryOnlyGrows | tezos/rollup-kernel/src/lib.rs:1805-1843 | further inputs never remove or reorder notes, nullifiers, roots, withdrawals or outbox messages, and never change the verifier, its auth domain or the ticketer |
| KernelHistory.EveryValidRootIsHistoric | tezos/rollup-kernel/src/lib.rs:382-394 | every valid root was the root of some prefix of the notes |
| KernelHistory.RunInTwo | tezos/rollup-kernel/src/lib.rs:768-778 | an inbox processed in two batches has the effect of one |
| KernelJournal.JournalMatchesInbox | tezos/rollup-kernel/src/lib.rs:1074-1120 | line by line, what a run's inputs did is what their messages asked for in the ledger they found: a shield under a valid proof draws v + fee + producer fee from the pool it names, a transfer spends its nullifiers under a valid root, an unshield pays its amount to the trimmed recipient if the host took the message, a deposit credits its parsed pool |
| KernelJournal.DepositsCoverShields | core/src/lib.rs:2268-2300 | over every run the amounts of the deposits taken are the live pool balances plus v + fee + producer fee of every shield applied |
| KernelStaging.StagedShieldIsDirectShield | tezos/rollup-kernel/src/lib.rs:1335-1503 | staging then applying a validated shield gives the store, outbox and response of the direct commit; if an index does not fit, the same error and nothing written |
| KernelStaging.StagedUnshieldIsDirectUnshield | tezos/rollup-kernel/src/lib.rs:1195-1307 | the same for an unshield |
| KernelStaging.ProcessAndRead | tezos/rollup-kernel/src/lib.rs:818-891 | after any inbox, reading the ledger back succeeds and returns exactly the accepted nullifiers and withdrawals and the recomputed stored root; the notes are the accepted ones in order if and only if the tree fits the host's indices, and then the roots are the recorded ones |
| KernelStaging.IndexesListTheMarkers | tezos/rollup-kernel/src/lib.rs:275-286 | in every reachable store the nullifier and root indexes are duplicate-free lists of exactly the marked keys |
| MemoryLedgers.MemoryLedger.constructor | core/src/lib.rs:1944-1962 | a fresh ledger holds the empty tree's root as its one valid root |
| MemoryLedgers.MemoryLedger.RecordValidRoot | core/src/lib.rs:1964-1980 | a new root is added and the oldest beyond the limit dropped; the set of valid roots stays the contents of the history |
| MemoryLedgers.MemoryLedger.SnapshotRoot | core/src/lib.rs:1982-1984 | afterwards the current root is valid, and the history is duplicate-free with at most 4096 entries |
| MemoryLedgers.MemoryLedger.DebitDeposit | core/src/lib.rs:2082-2105 | takes from the pool and removes it at zero, or reports a missing or short pool and changes nothing |
| MemoryLedgers.MemoryLedger.CreditDeposit | core/src/lib.rs:2074-2080 | adds to the pool or reports overflow |
| MemoryLedgers.MemoryLedger.Deposit | core/src/lib.rs:1992-1994 | credits the parsed pool, keeping the history invariant and a valid current root |
| MemoryLedgers.MemoryLedger.Shield | core/src/lib.rs:1996-1998 | applies the validated shield or reports the validation error and changes nothing; the current root is valid afterwards |
| MemoryLedgers.MemoryLedger.Transfer | core/src/lib.rs:2000-2002 | the same for a transfer |
| MemoryLedgers.MemoryLedger.Unshield | core/src/lib.rs:2004-2006 | the same for an unshield |
| MemoryLedgers.EvictionIsOldestFirst | core/src/lib.rs:1964-1980 | after n further new roots a root at position i of the history is still valid if and only if n + the history length <= 4096 + i |
| LedgerAgreement.VerdictsDifferExactly | core/src/lib.rs:2010-2114 | for related ledgers, what the in-memory ledger accepts is refused by the durable one if and only if it underpays the level's required fee, and what the durable ledger accepts is refused in memory if and only if its root left the history or the host cannot hold the capacity |
| LedgerAgreement.SameVerdictStaysRelated | core/src/lib.rs:2010-2114 | wherever the verdicts are the same, the two ledgers go on holding the same, roots by inclusion |
| LedgerAgreement.LedgersAgree | core/src/lib.rs:2010-2114 | from a fresh start the two ledgers give the same verdicts on a sequence of operations if and only if none met one of the two differing rules, and then they end up holding the same |
| LedgerDifferences.ThirdCheapTransferDiffers | core/src/lib.rs:1855-1860 | the fee rule parts them: in every world with room for nine notes, the third transfer of a level at the minimum fee is accepted in memory and refused by the durable ledger |
| LedgerDifferences.ForgottenRootDiffers | core/src/lib.rs:1964-1980 | the root rule parts them: after 4096 transfers that each change the root and that both ledgers accept, the next one under the first root is accepted by the durable ledger and refused in memory |
| LedgerDifferences.LastLeafKeepsRootsApart | core/src/lib.rs:1964-1980 | there is a node hash under which those 4096 transfers do change the root each time |
| Wots.WotsDigits | core/src/lib.rs:637-654 | the loops compute the 128 message digits and five checksum digits |
| Wots.ChecksumFits | core/src/lib.rs:646-651 | the checksum is at most 384 and five base-4 digits hold it |
| Wots.DigitsAreIncomparable | core/src/lib.rs:637-654 | two distinct messages have digit vectors of which each is strictly larger somewhere |
| Wots.AddressesAreDistinct | core/src/lib.rs:614-623 | equal packed addresses have equal fields |
| Wots.XmssHashChain | core/src/lib.rs:661-674 | the loop walks the chain from start by steps |
| Wots.ChainsCompose | core/src/lib.rs:661-674 | walking on from where a walk stopped is one longer walk |
| Wots.ChainBinds | core/src/lib.rs:661-674 | for every hash: equally long walks meet without a step that hashes two different values to one if and only if they started at the same value |
| WotsAuth.WotsPkToLeaf | core/src/lib.rs:722-742 | the allocating fold computes the L-tree root of section 4.1.5 of RFC 8391 |
| WotsAuth.AuthLeafHashWithPubSeed | core/src/lib.rs:744-778 | so does the in-place compaction, over the chain ends under any public seed |
| WotsAuth.LTreeBinds | core/src/lib.rs:722-742 | for every hash: two public keys of one length have the same leaf over L-trees without a colliding node if and only if they are equal |
| WotsAuth.LTreeJoinsMeet | core/src/lib.rs:692-706 | two different pairs of children with one L-tree node at an address are a collision of the hash on the two named inputs, and conversely |
| WotsAuth.SignaturesVerify | core/src/lib.rs:785-836 | every signature is accepted against its key's leaf |
| WotsAuth.OnlyTheSignatureVerifies | core/src/lib.rs:798-836 | for every hash: verification accepts a signature without a collision at a chain step or L-tree node if and only if it is the one the key's owner makes for that message |
| WotsAuth.OtherSignatureCollides | core/src/lib.rs:798-836 | any other accepted signature yields two distinct inputs with one digest, both of one chain step or of one L-tree node |
| WotsAuth.ForgeryWalksBack | core/src/lib.rs:798-836 | for every hash: a signature accepted for another message contains a chain value from which a published one follows by walking forward, or meets such a collision |
| Xmss.SubtreeIsNode | core/src/lib.rs:838-855 | from an aligned start the recursion computes the tree's node |
| Xmss.SameRoot | core/src/lib.rs:857-905 | the root returned with a path is the root computed without one, for every start, height and target |
| Xmss.PathIsRight | core/src/lib.rs:857-905 | from an aligned start a path is returned if and only if the target lies below, and it holds the target's siblings |
| Xmss.PathFoldsToRoot | core/src/lib.rs:857-905 | the returned path has the height's length and folds the target's leaf to the returned root with index-shift addresses |
| Xmss.AuthRootBinds | core/src/lib.rs:920-925 | for every node hash: a leaf and a path fold to the auth root without a collision at one of the levels if and only if they are that index's own |
| Xmss.TreeJoinsMeet | core/src/lib.rs:708-710 | two different pairs of children with one tree node at an address are a collision of the hash on the two named inputs, and conversely |
| Xmss.OnlyTheOwnerReachesRoot | core/src/lib.rs:3194-3237 | for every hash: a signature and a path lead to the auth root under a key index without meeting a collision if and only if they are that key's own signature for the message and that index's path |
| Xmss.OtherOwnerCollides | core/src/lib.rs:3194-3237 | any other signature and path that reach the auth root yield two distinct inputs with one digest, both of one tree address, chain step or L-tree node |
| Xmss.BuildAuthRootAndPaths | services/tzel/src/proof_bench.rs:47-76 | the bottom-up builder yields the recursion's root and, for each of the first leaves, its path |
| ConfigAuth.SighashBindsConfig | core/src/kernel_wire.rs:473-478 | for every hash: two verifier configurations have one signed digest if and only if they are equal or their two encodings collide |
| ConfigAuth.SighashBindsTicketer | core/src/kernel_wire.rs:480-485 | the same for two ticketers |
| ConfigAuth.SighashesApart | core/src/kernel_wire.rs:473-485 | a verifier digest and a bridge digest are equal only if the two inputs collide |
| ConfigAuth.OnlyTheAdminConfiguresVerifier | tezos/rollup-kernel/src/lib.rs:1652-1663 | in a kernel built for the administrator's key, a verifier configuration takes effect under a signature that meets no collision if and only if none has yet, it is usable and the signature is the one that key makes for it |
| ConfigAuth.OnlyTheAdminConfiguresBridge | tezos/rollup-kernel/src/lib.rs:1665-1676 | the same for the bridge's ticketer, under the other key index |
| ConfigAuth.OtherConfigsWalkBack | tezos/rollup-kernel/src/lib.rs:1805-1819 | after one signed configuration, any other that takes effect walks a chain of that signature backwards, or shows a collision at a chain step, an L-tree node or the two encodings |
| ConfigAuth.OtherTicketersWalkBack | tezos/rollup-kernel/src/lib.rs:1826-1846 | the same for the bridge's ticketer |
| Blake2s.Ror32IsRotation | ocaml/protocol/blake2s_stubs.c:65-67 | the shifts and the or of `ror32` rotate, for each distance in use |
| Blake2s.Round | ocaml/protocol/blake2s_stubs.c:82-104 | a round performs the eight mixing steps of section 3.1 of RFC 7693 |
| Blake2s.Context.Compress | ocaml/protocol/blake2s_stubs.c:106-121 | overwrites the state with the compression function F of section 3.2 of RFC 7693 |
| Blake2s.CounterAdds | ocaml/protocol/blake2s_stubs.c:138-139 | the two words with carry count bytes modulo 2^64 |
| Blake2s.Context.Update | ocaml/protocol/blake2s_stubs.c:131-151 | afterwards all blocks but the last are absorbed, the rest is buffered, and the counter is the bytes absorbed modulo 2^64 |
| Blake2s.Context.Final | ocaml/protocol/blake2s_stubs.c:153-164 | returns the padded-block digest of section 3.3 of RFC 7693, with the final flag on the last block only |
| Blake2s.HashBytes | ocaml/protocol/blake2s_stubs.c:168-198 | the binding returns the digest of its data with its personalisation cut or padded to eight bytes |
| Blake2s.HashParts | ocaml/protocol/blake2s_stubs.c:131-164 | the digest does not depend on how the message is split into updates |
| Blake2sSpec.PlainInitialState | ocaml/protocol/blake2s_stubs.c:123-129 | without personalisation the initial state differs from the IV only by 0x01010000 and the digest length, as in section 3.3 of RFC 7693 |
| Dal.FetchPayload | tezos/rollup-kernel/src/lib.rs:940-1072 | the nested loops compute the specified fetch, errors included |
| Dal.FetchExact | tezos/rollup-kernel/src/lib.rs:940-1072 | a payload is accepted exactly when the host's parameters are usable, the limits hold, the hash matches and the revealed pages are its chunks with all-zero remainders, in order |
| Dal.PublishThenFetch | tezos/rollup-kernel/src/lib.rs:940-1072 | any payload within the limits, cut into chunks and published in zero-padded pages, is fetched back whole |
| WireFields.StructIsExact | core/src/kernel_wire.rs:514-519 | parsing a struct of fields off the front and encoding it are inverse, exactly |
| WireFields.ListIsExact | core/src/kernel_wire.rs:163-167 | the same for lists that use up their input |
| KernelWire.KernelProofToWire | core/src/kernel_wire.rs:790-813 | appends lengths, proof and felts, refusing what exceeds the limits |
| KernelWire.KernelProofFromWire | core/src/kernel_wire.rs:815-852 | the advancing slice decodes the framing, refusing short, oversized and trailing input |
| KernelWire.ProofFramingIsExact | core/src/kernel_wire.rs:790-852 | bytes decode to a proof exactly when they are its encoding |
| KernelMessages.KernelTransferReqToWire | core/src/kernel_wire.rs:950-963 | the payload buffer ends as the ten encoded fields in order, or fails if one does |
| KernelMessages.TransferPayloadIsExact | core/src/kernel_wire.rs:950-994 | a transfer payload decodes to a request exactly when it is its encoding |
| KernelMessages.UnshieldPayloadIsExact | core/src/kernel_wire.rs:1030-1082 | the same for an unshield payload, with its optional change note |
| KernelMessages.PointerFieldsAreExact | core/src/kernel_wire.rs:695-747 | the same for a DAL pointer |
| KernelMessages.MessageCodecIsExact | core/src/kernel_wire.rs:367-422 | bytes decode to an inbox message if and only if they are its encoding |
| KernelMessages.MessagesArePrefixFree | core/src/kernel_wire.rs:367-422 | no strict prefix or extension of an accepted message is accepted |
| KernelMessages.TransfersFit | core/src/kernel_wire.rs:23-34 | every transfer with at most 7 nullifiers, valid notes and a proof within its limits encodes within the declared maxima |
| KernelMessages.UnshieldsFit | core/src/kernel_wire.rs:23-34 | so does every unshield with a recipient of at most 1024 bytes of text |
| KernelMessages.PointersFitExactly | core/src/kernel_wire.rs:284-288 | a pointer encodes exactly when its chunk count is in range and 17 bytes a chunk fit the list's byte limit |
| KernelMessages.PublishedMessagesArrive | tezos/rollup-kernel/src/lib.rs:940-1072 | a message encoded, cut into chunks, published and pointed at reaches the rules unchanged; a pointer published that way is refused |
| VerifyMetaCodec.DecodeBytes | verifier/src/verify_meta_codec.rs:42-87 | the cursor's takes compute the specified decoding |
| VerifyMetaCodec.Cursor.TakeExact | verifier/src/verify_meta_codec.rs:165-173 | takes exactly the next bytes, or fails when too few are left |
| VerifyMetaCodec.Cursor.TakeElems | verifier/src/verify_meta_codec.rs:196-237 | a counted run of numbers, flags or texts, or the failure of one of them |
| VerifyMetaCodec.MetaCodecIsExact | verifier/src/verify_meta_codec.rs:8-87 | decoding is a bijection between accepted bytes and encodable metadata |
| VerifyMetaCodec.MetaHasNoTrailingBytes | verifier/src/verify_meta_codec.rs:82-84 | no accepted bytes extend other accepted bytes |
| FeltWords.WordIsSlice | verifier/src/bundle.rs:30-45 | every word is its nine bits of the value, also where it straddles two limbs, and is below 512 |
| FeltWords.WordsRecompose | verifier/src/bundle.rs:30-45 | the 28 words recompose to the value modulo 2^252 |
| FeltWords.WordsDetermineElement | verifier/src/bundle.rs:30-45 | two elements below 2^252 have the same words only if they are equal |

## Left out

- STARK proving and verification: proof validity is a predicate of the `World`.
- ML-KEM, ChaCha20-Poly1305, note encryption, detection and key derivation: notes are opaque byte fields of fixed size.
- Inbox framing, base58 and Michelson parsing: `World.parse`, `World.parseDepositKey`, `World.originated` and `World.outboxMessage` are arbitrary; valid recipients and ticketers are assumed to be UTF-8 text of at most 256 bytes.
- The administrator's seed and leaves compiled into the kernel: `World.verifierSigned` and `World.bridgeSigned` are verdicts, and `ConfigAuth` takes a kernel built for a key as one whose verdicts are that key's.
- The WASM host bindings: `write_store` is taken to replace a whole value.
- Error text and debug output: errors are constructors without their messages.
- Stores no run produces: the reading functions have the source's error cases for malformed cells, and every run from the empty store is proved never to meet one.
- tezos_data_encoding is not part of this model: fixed, length-prefixed, optional and listed fields are defined here, a length bound is taken to hold for writing and reading alike, and a length-prefixed field to be consumed whole.
- The result envelope (`encode_kernel_result`): its bytes are `World.encodeResult`; it would add only easy members.
- The metadata encoder is a function, as it exists for tests only; the decoder is the cursor it is in the source, with one loop over the field kinds in place of a line for each field.
- `u32` indices in the auth tree: leaf and node functions take natural numbers and reduce them to 32 bits, as the casts do; starts and heights must keep all leaves below 2^32, where the source would overflow.
- The guard against full tree rebuilds (`assert_full_xmss_rebuild_allowed`), serialisation of the in-memory ledger, wallet, prover and operator programs, the demo ledger, and test vectors.
- KernelMessages.TransfersFit: states when an encoding exists rather than exactly when, because beyond seven nullifiers the bound mixes with the proof's size.
- Code the source writes out twice: planning the tree part of a staged commit is one method here (`StageTree`), called by both `prepare_durable_*` methods; long source functions are split at their loops.
- MerkleTrees.MerkleTree.Append: the full tree, where the source panics, is a precondition.
