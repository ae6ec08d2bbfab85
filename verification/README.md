# Delorean Protocol: a verified model

A Dafny model of the parts of the Delorean Protocol repository where correctness spans several
functions or whole runs:

- **Key release** (`CetfActor`, `CetfVotes`, `CetfProtocol`, `CetfEnabling`, `CetfSafety`, `CetfSlots`,
  `CetfRelease`): contracts file tags, validators sign them in
  vote extensions, a proposer submits the aggregate, the actor stores it. Filing, signing and storing each
  compute a height from a different starting point; the model is a machine over the steps of consensus.
- **Merkle trees** (`MerkleTree`, `StandardTree`): building, validating, single and multi proofs.
- **Provider cache** (`ProviderCache`): the gossip-fed index of which peers serve which subnets.
- **Key-value store** (`KvStore`): snapshot transactions with a write token.
- **State history** (`StateHistory`): the application's sliding window of committed states.
- **256-bit signed arithmetic** (`Int256`), the **block-hash window** (`Lookback`), the **search for missing
  blocks** (`MissingBlocks`), **query fallback** (`QueryFallback`), **subnet paths and their text**
  (`SubnetId`, `SubnetText`).

`Wrappers` and `Sorting` are shared helpers. Code that changes state in place is modelled by classes and
methods with loops, each proved against a function or predicate on values; whole-run results are lemmas about
those. `dafny verify dfyconfig.toml` checks the project.

## Assumptions

Each is a parameter, a hypothesis of the lemmas that use it, or a modelling choice.

- Keccak, BLS and address text are parameters. A signature is the pair of its key and message; an aggregate is a
  multiset of signatures. Soundness of Merkle proofs assumes that pair hashes are injective up to order and that
  leaf hashes are never pair hashes.
- Hashes are numbers, compared as the big-endian bytes are.
- Heights are consecutive and the first block is 1; a query at height 0 reads the latest committed state; heights,
  epochs and timestamps are unbounded naturals.
- In the protocol machine a vote enters the next commit only if a node with a signing key accepted its extension;
  proposers run the proposal step; ordinary messages are not sent by the system actor; the interpreter adds no tag
  transactions. Tag transactions may be submitted by anyone unless a lemma asks for an ordinary run.
- The block graph is acyclic. Attempt identifiers are fresh and each response channel is used once. Shuffling the
  providers is part of the input.
- Iteration over hash maps and hash sets is in an arbitrary order.

## Where the code falls short of what one might expect

Each comes with a concrete input or family and, where there is one, the exact condition.

- Two tags filed in one block share a slot and only the last is ever signed (`LastFiledTagWins`,
  `EarlierTagIsLost`). A tag that misses its block is never signed later (`MissedTagStaysUnreleased`).
- A tag transaction that reaches a proposal from anyone else is executed in the system actor's name and its aggregate
  is stored unchecked: a run is safe exactly when every tag transaction is authentic on execution (`EveryRunIsSafeExactly`,
  `ForeignTagBreaksSafety`).
- The aggregate is dropped from a proposal exactly when there is no room behind the messages the interpreter puts
  in front (`AggregateIsProposedExactly`); the deployed interpreter prepends them.
- The multi-proof verifier can panic on inputs that pass both of its format checks (`RunsDryExactly`), and the proof
  generators panic on the last node of an even-sized array and near the limit of 32-bit indices (`MerkleTree.GetProof`,
  `MerkleTree.GetMultiProof`).
- `state_params_at_height` is documented to return the height at which the state was committed; inside the window
  it returns that height plus one (`ReportedHeightIsTheBlockExactly`).
- The provider cache ignores records stamped zero, unlike the reference in its tests (`AgreesWithReferenceExactly`);
  and the reported change does not mention subnets the peer already had that were pruned (`DeltaAccountsExactly`,
  `FullCacheLosesSubnetOne`).
- Without write locking the store loses writes (`SerialExactlyWhenLocked`).
- With zero peers per attempt a request is never told that it failed (`FailureIsReportedExactly`).
- `up` underflows from the root and from a subnet that shares no child (`UpPanicsExactly`).
- Texts with a signed or zero-padded root parse but print differently (`PrintAfterParseExactly`).

## Model

| member | source | states |
|---|---|---|
| CetfSafety.EveryRunIsSafe | fendermint/app/src/app.rs:476-490 | if nobody but proposers brings in tag transactions, then in every state of every run, also within a block, whatever is stored under a tag is a non-empty aggregate of signatures over exactly that tag |
| CetfSafety.EveryRunIsSafeExactly | fendermint/vm/interpreter/src/chain.rs:255-268 | whoever submits what, a run is safe in all its states if and only if each tag transaction, when executed, finds its slot empty or carries signatures over the tag in it |
| CetfSafety.BlockIsSafeExactly | fendermint/actors/cetf/src/state.rs:110-133 | from a safe state a block is safe after each of its transactions if and only if all its tag transactions are authentic when their turn comes |
| CetfSafety.DeliveryIsSafeExactly | fendermint/actors/cetf/src/actor.rs:141-148 | from a safe state executing one transaction stays safe if and only if it is authentic: the check the actor does not make |
| CetfSafety.ForeignTagBreaksSafety | fendermint/vm/interpreter/src/chain.rs:490-502 | a run in which a submitted tag transaction with any aggregate not over the filed tag is executed and stored |
| CetfProtocol.EveryRunUnpacks | fendermint/app/src/app.rs:805-832 | in every run the votes held for the next proposal unpack without a panic |
| CetfProtocol.StepKeepsInv | fendermint/app/src/app.rs:818-858 | every step (vote, proposal, begin, transaction, commit) keeps the alignment of the three height offsets: collected signatures, proposed aggregates and the slot the actor will read all belong to one tag |
| CetfSlots.SlotsAreFrozen | fendermint/actors/cetf/src/actor.rs:72-90 | over every run a slot that has come up for signing keeps its tag, the actor stays enabled and no stored tag is lost |
| CetfSlots.OnlySlottedTagsAreReleased | fendermint/actors/cetf/src/state.rs:110-133 | in every state of an ordinary run each tag with a stored signature stands in the slot of a committed block |
| CetfProtocol.AcceptedExtension | fendermint/app/src/app.rs:554-586 | an extension accepted by a validator unpacks, and its tag signatures are over the tag two heights above the committed block |
| CetfEnabling.BeginEnablesExactly | fendermint/vm/interpreter/src/fvm/exec.rs:167-175 | a block executes with the actor enabled exactly if it was, or every validator's key is registered; nothing else changes before its transactions |
| CetfEnabling.ActorIsEnabledExactly | fendermint/vm/interpreter/src/fvm/exec.rs:140-196 | over every run the actor is enabled exactly from the first block begun with every validator's key registered |
| CetfEnabling.DeliverRegisters | fendermint/actors/cetf/src/actor.rs:127-139 | a registered key stands until its address gets another, whichever transaction is executed |
| CetfVotes.HonestVoteIsEmptyExactly | fendermint/app/src/app.rs:444-523 | a vote carries signatures exactly from a validator, above height 0 and with the actor enabled; then one over the next height but one, and one over the tag exactly if the slot has one |
| CetfVotes.HonestVoteIsAcceptedExactly | fendermint/vm/interpreter/src/fvm/extend.rs:108-133 | in every state, tag or no tag, any validator accepts an honest vote exactly if it is empty or the key is the registered one |
| CetfVotes.AcceptedIsHonest | fendermint/vm/interpreter/src/fvm/extend.rs:139-215 | while the actor is enabled a validator accepts from a registered signer exactly the empty extension and the signer's own honest signatures |
| CetfVotes.OtherVerdicts | fendermint/vm/interpreter/src/fvm/extend.rs:145-162 | a node without a key accepts whatever decodes and asks for no missing tag; while the actor is disabled others accept only extensions without signatures; neither ever rejects |
| CetfVotes.UnregisteredSignerFaults | fendermint/vm/interpreter/src/fvm/extend.rs:185-193 | while the actor is enabled, signatures of a signer without a usable registered key get no verdict |
| CetfVotes.RegisteredKeyIsFound | fendermint/vm/interpreter/src/fvm/extend.rs:184-193 | a newly registered key is what checks of votes find, for the validators with that address and no others |
| CetfRelease.HonestVoteSignsTheTag | fendermint/app/src/app.rs:476-501 | with a tag in the slot an honest vote carries one tag signature, over that tag, and a peer at the same committed state accepts it exactly when the key is the registered one |
| CetfRelease.TagIsReleasedExactly | fendermint/app/src/app.rs:818-886 | a tag in its slot after block E has a stored signature over itself from the commit of E+2 on if a vote on E+1 carried a tag signature and the proposal executed as E+2 had room; for a tag unsigned before and filed for no other block, if and only if |
| CetfRelease.HonestVoteSuffices | fendermint/app/src/app.rs:476-501 | one accepted honest vote on the block after the filing settles the signatures, so release depends on room alone |
| CetfRelease.MissedTagStaysUnreleased | fendermint/actors/cetf/src/state.rs:119-131 | a tag still unsigned once block E+2 is committed is never signed unless it is filed again in a later block |
| CetfRelease.BlockCommitsItsTxs | fendermint/app/src/app.rs:1022-1054 | however votes interleave with execution, a block commits the result of its transactions in order |
| CetfRelease.LastFiledTagWins | fendermint/actors/cetf/src/state.rs:66-79 | a block leaves exactly its last filed tag in its slot, and none if none was filed |
| CetfRelease.EarlierTagIsLost | fendermint/actors/cetf/src/actor.rs:72-85 | a tag filed anywhere in a block but different from the last one filed is in no later state of any run in the slot it was filed for |
| CetfRelease.LastFiledTagIsReleased | fendermint/actors/cetf/src/actor.rs:47-93 | the whole way: the last tag filed in a block that executes with the actor enabled is signed and stored by the commit two blocks later, given one honest vote accepted in time and room in the proposal |
| CetfActor.SigningTagsKeepContractsApart | fendermint/actors/cetf/src/actor.rs:56-63 | without digest collisions two contracts, or one contract with two tags, never file the same signing tag |
| CetfActor.FilersAreKnownByTheirTags | fendermint/actors/cetf/src/actor.rs:47-70 | filings of the same signing tag come from the same 20-byte address with the same tag, whole payloads of 21 bytes being equal if their namespace is |
| CetfActor.State.constructor | fendermint/actors/cetf/src/state.rs:31-46 | a new actor is disabled and holds no tags, validators or signatures |
| CetfActor.State.AddTagAtHeight | fendermint/actors/cetf/src/state.rs:66-79 | one slot is written and all others are kept |
| CetfActor.State.GetTagAtHeight | fendermint/actors/cetf/src/state.rs:89-96 | finds a tag exactly for the filled slots |
| CetfActor.State.AddSignedTagAtHeight | fendermint/actors/cetf/src/state.rs:110-133 | stores the signature under the tag now in the slot, or fails and changes nothing if the slot is empty |
| CetfActor.State.AddSignedAndHashedTag | fendermint/actors/cetf/src/state.rs:161-176 | one entry is written and all others are kept |
| CetfActor.State.EnqueueTag | fendermint/actors/cetf/src/actor.rs:47-93 | succeeds exactly for an account with a 21-byte delegated payload and reports two heights ahead; files there the digest of address and tag exactly if the actor is enabled; the rest of the state is kept |
| CetfActor.State.AddValidator | fendermint/actors/cetf/src/actor.rs:127-139 | anyone may register a key for an address; the rest of the state is kept |
| CetfActor.State.SetEnabled | fendermint/actors/cetf/src/actor.rs:104-123 | only the system actor switches the flag; a refused call changes nothing |
| CetfActor.State.AddSignedTag | fendermint/actors/cetf/src/actor.rs:141-148 | only the system actor stores a signature, and only for a filled slot |
| CetfVotes.CheckSignatures | fendermint/vm/interpreter/src/fvm/extend.rs:195-205 | an unparsable signature is an error; otherwise the verdict is whether every signature is the key's over its own tag |
| CetfVotes.VerifyVoteExtension | fendermint/app/src/app.rs:526-587 | computes the verdict: fault, accept or reject, for every extension, signing context and actor state |
| CetfVotes.TakeUntilMaxSize | fendermint/abci/src/util.rs:7-19 | computes the fitting prefix, saturating addition included |
| CetfVotes.FittingIsLongest | fendermint/abci/src/util.rs:7-19 | what is kept is a prefix within the limit, and one more transaction would exceed it |
| CetfVotes.PrepareProposal | fendermint/app/src/app.rs:792-887 | fails exactly on votes that do not unpack, otherwise aggregates, arranges, truncates and cuts to size |
| CetfVotes.ProposalOnlyAggregates | fendermint/app/src/app.rs:818-858 | any tag transaction in a proposal is the aggregate of the last votes at the proposal's own height |
| CetfVotes.AggregateIsProposedExactly | fendermint/vm/interpreter/src/bytes.rs:74-126 | the aggregate is in the proposal exactly when count and size leave room for it behind what the interpreter puts in front |
| CetfVotes.SignaturesAddUp | fendermint/app/src/app.rs:803-832 | each tag signature of each vote is aggregated once for each time it occurs, height signatures and empty votes never |
| CetfVotes.ProposalIsLongest | fendermint/vm/interpreter/src/bytes.rs:98-124 | the proposal is the longest beginning of what there is to propose within both the number and the size of transactions |
| CetfVotes.OfferedKeepsTheMempool | fendermint/vm/interpreter/src/bytes.rs:74-97 | what there is to propose are the aggregate, then all of the mempool in its order, with the interpreter's messages in front or behind |
| CetfVotes.UndecodableIsDropped | fendermint/vm/interpreter/src/bytes.rs:84-97 | where messages are passed through, bytes that do not decode are dropped and the rest keep their order |
| MerkleTree.MakeMerkleTree | ext/merkle-tree-rs/src/core.rs:88-108 | builds, bottom up, the tree whose every node is the recursive hash over the leaves below it; refuses only an empty list |
| MerkleTree.FillTree | ext/merkle-tree-rs/src/core.rs:93-105 | the two loops fill in any tree that stands on the leaves |
| MerkleTree.HashPairSorts | ext/merkle-tree-rs/src/core.rs:21-26 | a pair is digested in ascending order, whichever hash is given first |
| MerkleTree.IsValidMerkleTree | ext/merkle-tree-rs/src/core.rs:202-217 | accepts exactly odd arrays in which every inner node is the hash of its two children |
| MerkleTree.ValidExactlyBuilt | ext/merkle-tree-rs/src/core.rs:88-108 | the valid trees are exactly those built from their own reversed leaf suffix |
| MerkleTree.BuiltIsValid | ext/merkle-tree-rs/src/core.rs:202-217 | every built tree is valid and gives its leaves back |
| MerkleTree.GetProof | ext/merkle-tree-rs/src/core.rs:110-122 | for every array: succeeds exactly for leaves whose sibling exists and is computed within 32 bits, returns the siblings from the leaf to the root, and otherwise says which of refusal, conversion error and panic it is |
| MerkleTree.ProofLeadsToRoot | ext/merkle-tree-rs/src/core.rs:110-126 | the proof of every node folds to the root in as many steps as its depth |
| MerkleTree.ProofIsSound | ext/merkle-tree-rs/src/core.rs:124-126 | whatever folds to the root is the hash of a node at the depth given by the proof's length, with that node's own proof; it is a leaf if it is no pair hash |
| MerkleTree.GetMultiProof | ext/merkle-tree-rs/src/core.rs:128-172 | for every array: succeeds exactly for distinct leaves within reach of a non-empty tree, says what failed, and leaves the caller's indices sorted in descending order once they are known to be leaves |
| MerkleTree.AllAreLeaves | ext/merkle-tree-rs/src/core.rs:129-131 | tells whether all indices are leaves |
| MerkleTree.ProveSorted | ext/merkle-tree-rs/src/core.rs:134-142 | on sorted leaves, refuses exactly duplicates and indices out of reach |
| MerkleTree.WorkOff | ext/merkle-tree-rs/src/core.rs:143-171 | the queue loop ends and emits the siblings and flags of the queue run; it fails only at its first index |
| MerkleTree.DescendingSorts | ext/merkle-tree-rs/src/core.rs:132-141 | sorting keeps the indices; they come out strictly descending exactly when they were distinct |
| MerkleTree.AdvanceKeepsOrder | ext/merkle-tree-rs/src/core.rs:147-161 | each step keeps the index queue strictly descending, with the head's parent below everything queued |
| MerkleTree.ReplayFollowsQueue | ext/merkle-tree-rs/src/core.rs:186-194 | the verifier's hash queue is the image of the index queue at every step, so it ends with the root alone and uses up the proof |
| MerkleTree.ProcessMultiProof | ext/merkle-tree-rs/src/core.rs:174-200 | both format checks, the replay, and the panic on an empty vector as an outcome |
| MerkleTree.RefusesExactly | ext/merkle-tree-rs/src/core.rs:175-181 | exactly when either format check refuses, counting the false flags as a set of positions |
| MerkleTree.MultiProofLeadsToRoot | ext/merkle-tree-rs/src/core.rs:128-200 | for every valid tree and every set of distinct leaves, also none, the generated proof carries exactly their hashes, passes both checks and gives the root |
| MerkleTree.RunsDryExactly | ext/merkle-tree-rs/src/core.rs:175-194 | past both checks the verifier panics exactly when there are flags and the proof is longer than the false flags |
| MerkleTree.RunsDryPastTheChecks | ext/merkle-tree-rs/src/core.rs:175-184 | a concrete input that passes both checks and panics |
| MerkleTree.MultiProofIsSound | ext/merkle-tree-rs/src/core.rs:174-200 | in any multi proof that gives the root, generated or not, leaves and siblings are hashes of nodes at positions none of which is another or above another, so no leaf is proved twice; what is no pair hash sits at a leaf |
| StandardTree.Of | ext/merkle-tree-rs/src/standard.rs:105-139 | rows and leaf positions correspond one to one, each position holding its row's own hash; the lookup is right; the tree is valid over the sorted hashes; fails exactly on a row that does not hash or on no rows |
| StandardTree.HashRows | ext/merkle-tree-rs/src/standard.rs:111-121 | hashes every row in order or fails on the first that does not hash |
| StandardTree.PlaceRows | ext/merkle-tree-rs/src/standard.rs:127-136 | the row behind the j-th sorted hash gets the j-th position from the end |
| StandardTree.MakeLookup | ext/merkle-tree-rs/src/standard.rs:90-94 | exactly the hashes of rows are found, each with the last row of that hash |
| StandardTree.TreeIgnoresRowOrder | ext/merkle-tree-rs/src/standard.rs:123-125 | row lists with the same multiset of hashes give the same tree |
| StandardTree.NamedRowsValidate | ext/merkle-tree-rs/src/standard.rs:276-285 | a leaf is found and validates exactly when it names a row, by number or by values |
| StandardTree.FoundRowStands | ext/merkle-tree-rs/src/standard.rs:200-207 | the index found is the leaf's own number, or that of the last row that hashes like its values |
| StandardTree.GetProof | ext/merkle-tree-rs/src/standard.rs:199-224 | over a correct tree a proof comes out for exactly the leaves that name a row in reach, and folds to the root from the hash of the row with that number or of the values given; over any tree, a leaf not found or not valid is reported as such |
| StandardTree.RowNumbers | ext/merkle-tree-rs/src/standard.rs:227-239 | succeeds exactly when every leaf names a row, and then gives the row each stands for; otherwise the error is that of the first leaf not found or, with all found, the first not valid |
| StandardTree.RowsOf | ext/merkle-tree-rs/src/standard.rs:254-261 | puts back, for each hash, the row the lookup gives |
| StandardTree.RowsAreProvable | ext/merkle-tree-rs/src/standard.rs:241-252 | rows picked once each have a multi proof that leads to the root and whose hashes look up again |
| StandardTree.GetMultiProof | ext/merkle-tree-rs/src/standard.rs:226-274 | over a correct tree succeeds exactly when every leaf names a row in reach and no two stand for one row, with the first bad leaf or the duplicate as the error; the rows returned have, up to order, the hashes of the rows numbered and of the values given, and with the proof lead to the root |
| StandardTree.ProveRows | ext/merkle-tree-rs/src/standard.rs:241-273 | rows given by number are proved exactly if distinct and in reach, through hashes that are, up to order, theirs |
| ProviderCache.LastWriterWins | ipld/resolver/src/provider_cache.rs:103-144 | with all peers routable and nothing pruned, after any records a peer is listed for a subnet exactly when its first record of maximal non-zero timestamp lists it |
| ProviderCache.ArrivalOrderIsIrrelevant | ipld/resolver/src/provider_cache.rs:103-144 | with distinct timestamps per peer any order of arrival gives the same listing |
| ProviderCache.LatestFound | ipld/resolver/src/provider_cache.rs:114-121 | a single pass finds a peer's latest record |
| ProviderCache.NothingIsPruned | ipld/resolver/src/provider_cache.rs:149-152 | while the records list no more subnets than allowed, no subnet is pruned |
| ProviderCache.AgreesWithReferenceExactly | ipld/resolver/src/provider_cache.rs:261-290 | cache and test reference agree on a peer exactly when its latest record is stamped above zero or lists nothing |
| ProviderCache.ZeroStampIsIgnored | ipld/resolver/src/provider_cache.rs:114-117 | a concrete record on which they differ |
| ProviderCache.PruningForgetsOldRecords | ipld/resolver/src/provider_cache.rs:354-387 | pruning old providers leaves what the cache would know had it never seen the old records |
| ProviderCache.PruningBounds | ipld/resolver/src/provider_cache.rs:146-175 | after pruning at most the allowed number of subnets remain or all are pinned, no pinned one is gone, and no more are dropped than needed |
| ProviderCache.DroppedAreSmallest | ipld/resolver/src/provider_cache.rs:154-171 | no dropped subnet has more providers than a surviving unpinned one, and dropping stops early only for want of unpinned subnets |
| ProviderCache.DeltaAccountsExactly | ipld/resolver/src/provider_cache.rs:108-140 | whichever equally small subnets the pruning picks, the reported change turns the peer's old subnets into its new ones if and only if each subnet the peer already has and keeps listing is pinned or at least as many unpinned subnets as there are too many have fewer providers |
| ProviderCache.PrunedAssociationGoesUnreported | ipld/resolver/src/provider_cache.rs:138-140 | a family of inputs on which every pruning takes a subnet from the peer without a report |
| ProviderCache.FullCacheLosesSubnetOne | ipld/resolver/src/provider_cache.rs:138-140 | a concrete one |
| ProviderCache.SubnetProviderCache.constructor | ipld/resolver/src/provider_cache.rs:44-52 | starts empty with the preset subnets pinned |
| ProviderCache.SubnetProviderCache.AddProvider | ipld/resolver/src/provider_cache.rs:103-144 | unroutable peers are refused; an older or equal record changes nothing but the timestamp entry; otherwise the peer provides just what it lists, others what they did, as far as not dropped; added are exactly the subnets the peer has now and had not, removed exactly those it had and does not list; listed peers stay routable and timestamped |
| ProviderCache.SubnetProviderCache.PruneSubnets | ipld/resolver/src/provider_cache.rs:149-175 | drops a set of smallest unpinned subnets covering the excess |
| ProviderCache.SubnetProviderCache.PruneProviders | ipld/resolver/src/provider_cache.rs:180-198 | forgets everywhere and reports exactly the peers older than the cutoff, and keeps all else |
| ProviderCache.SubnetProviderCache.SetUnroutable | ipld/resolver/src/provider_cache.rs:74-80 | the peer is gone from the routable, the timestamped and every subnet, and all else is kept |
| ProviderCache.SubnetProviderCache.SetRoutable | ipld/resolver/src/provider_cache.rs:67-69 | the peer becomes routable and nothing else changes |
| ProviderCache.SubnetProviderCache.PinSubnet | ipld/resolver/src/provider_cache.rs:55-57 | the subnet becomes pinned and nothing else changes |
| ProviderCache.SubnetProviderCache.UnpinSubnet | ipld/resolver/src/provider_cache.rs:60-62 | the subnet becomes unpinned and nothing else changes |
| ProviderCache.SubnetProviderCache.ProvidersOfSubnet | ipld/resolver/src/provider_cache.rs:201-206 | lists the subnet's providers once each |
| ProviderCache.LeaveUnlisted | ipld/resolver/src/provider_cache.rs:123-128 | takes the peer out of exactly the subnets it provides and its record does not list, and lists those once each |
| ProviderCache.JoinListed | ipld/resolver/src/provider_cache.rs:130-136 | puts the peer into every listed subnet, and lists those it was not in before, once each |
| ProviderCache.DropSmallest | ipld/resolver/src/provider_cache.rs:160-171 | the dropping loop over the sorted counts yields a pruning |
| KvStore.EveryInterleavingIsSerial | fendermint/storage/src/im.rs:66-133 | with locking, in every interleaving the data and all committed reads are those of running the committed transactions one by one in commit order; at most one writer is open, over the current data, and the token is taken exactly while one is; readers keep their begin snapshot |
| KvStore.SerialExactlyWhenLocked | fendermint/storage/src/im.rs:33-46 | all interleavings are serial if and only if writers take the token |
| KvStore.OverlapLosesAWrite | fendermint/storage/src/im.rs:95-108 | a concrete run without locking that loses a write |
| KvStore.StepKeepsInv | fendermint/storage/src/testing.rs:241-384 | each begin, operation, commit and rollback keeps the serial history and the snapshots |
| KvStore.Backend.constructor | fendermint/storage/src/im.rs:50-56 | an empty store with the token free |
| KvStore.Backend.Read | fendermint/storage/src/im.rs:74-81 | the transaction starts on the data as it is, without the token |
| KvStore.Backend.Write | fendermint/storage/src/im.rs:95-108 | takes the token if locking is on, then starts on the data as it is |
| KvStore.Transaction.Get | fendermint/storage/src/im.rs:147-157 | finds what the transaction's own data holds |
| KvStore.Transaction.Iterate | fendermint/storage/src/im.rs:159-174 | lists each item of the namespace once, in key order |
| KvStore.Transaction.Put | fendermint/storage/src/im.rs:181-191 | afterwards the key reads as the value and every other key as before; the shared data is untouched |
| KvStore.Transaction.Delete | fendermint/storage/src/im.rs:193-203 | afterwards the key reads as absent and every other key as before |
| KvStore.Transaction.Commit | fendermint/storage/src/im.rs:122-127 | the shared data becomes the transaction's and the token is free again |
| KvStore.Transaction.Rollback | fendermint/storage/src/im.rs:129-132 | the shared data is untouched and the token is free again |
| KvStore.ReadAfterWrite | fendermint/storage/src/im.rs:143-204 | what a read finds after a write or a delete, for every key of every namespace |
| StateHistory.HistoryIsTheWindow | fendermint/app/src/app.rs:275-300 | after genesis and any n blocks the stored heights are exactly the window up to n+1, each with the state committed by the block below |
| StateHistory.QueriesSeeTheChain | fendermint/app/src/app.rs:370-387 | a query in the window gets the state of the block below, any other the latest |
| StateHistory.ReportedHeightIsTheBlockExactly | fendermint/app/src/app.rs:362-387 | the height reported with a state is its committing block exactly for queries outside the window |
| StateHistory.KeptStatesKeepTheirBlocks | fendermint/app/src/app.rs:1061-1071 | every kept state's block lies above the retain height |
| StateHistory.RetainHeightIsTight | fendermint/app/src/app.rs:1061-1071 | the retain height is the greatest that spares every kept state's block, and 0 while nothing was pruned |
| StateHistory.StateIsTheLastOutcome | fendermint/app/src/app.rs:1022-1041 | the state committed by a block is what its execution yielded, with the chain id and network version of genesis |
| StateHistory.App.constructor | fendermint/app/src/app.rs:234-257 | an empty database gets a state for height 0; any other is left alone |
| StateHistory.App.SetCommittedState | fendermint/app/src/app.rs:275-300 | stores the state one height up and prunes every height from the oldest kept to the newest too old |
| StateHistory.App.InitChain | fendermint/app/src/app.rs:655-689 | genesis becomes the state of the block before the first |
| StateHistory.App.FinalizeBlock | fendermint/app/src/app.rs:1022-1054 | the block's outcome becomes the committed state at its height |
| StateHistory.App.StateParamsAtHeight | fendermint/app/src/app.rs:370-387 | looks in the history, then falls back to the latest state |
| StateHistory.App.Commit | fendermint/app/src/app.rs:1061-1071 | the retain height, 0 while the history is unbounded or not yet full |
| Int256.IsNegative | ipc/types/src/uints.rs:57-59 | the sign of the top limb is the sign of the two's-complement reading |
| Int256.Neg | ipc/types/src/uints.rs:63-69 | negation, wrapping only the least value, without overflow on the way |
| Int256.Cmp | ipc/types/src/uints.rs:72-79 | the signed order, in all three cases |
| Int256.Div | ipc/types/src/uints.rs:82-111 | division truncating toward zero, 0 for a zero divisor, wrapping only for the least value by -1 |
| Int256.Mod | ipc/types/src/uints.rs:114-141 | the remainder with the sign of the dividend, 0 for a zero divisor |
| Int256.DivModReconstructs | ipc/types/src/uints.rs:82-141 | divisor times quotient plus remainder is the dividend modulo 2 to the 256, also where the quotient wraps |
| Int256.ZerolessView | ipc/types/src/uints.rs:226-229 | strips exactly the leading zeros |
| Int256.SerializeRoundTrip | ipc/types/src/uints.rs:188-197 | every word decodes from its encoding, which has no leading zero |
| Int256.DeserializeRoundTrip | ipc/types/src/uints.rs:199-224 | decoding fails exactly above 32 bytes; what decodes encodes back without its leading zeros |
| Lookback.WindowIsStreamingTop | fendermint/actors/chainmetadata/src/actor.rs:35-72 | after any pushes an epoch is held exactly when it was pushed and fewer than the window length of greater ones were, with the hash pushed last |
| Lookback.WindowIsTheLastBlocks | fendermint/actors/chainmetadata/src/actor.rs:35-72 | for consecutive epochs the window is exactly the last blocks |
| Lookback.StreamKeepsTop | fendermint/actors/chainmetadata/src/actor.rs:35-72 | the stored epochs are the greatest ever pushed |
| Lookback.FirstIndex | fendermint/actors/chainmetadata/src/actor.rs:53-59 | the first index is the least |
| Lookback.State.PushBlockHash | fendermint/actors/chainmetadata/src/actor.rs:35-72 | sets the epoch's hash and drops the least epoch if there are too many |
| Lookback.State.GetBlockHash | fendermint/actors/chainmetadata/src/shared.rs:46-73 | finds the hash exactly for the epochs held |
| MissingBlocks.MissingBlocks | ipld/resolver/src/missing_blocks.rs:15-33 | ends on every acyclic graph; fails exactly when an unreadable block is reached; otherwise lists exactly the absent identifiers reachable through present blocks, once per path |
| MissingBlocks.EndsAreReachable | ipld/resolver/src/missing_blocks.rs:15-33 | paths end at exactly the absent identifiers that are reachable |
| MissingBlocks.UnfoldStep | ipld/resolver/src/missing_blocks.rs:24-31 | each step lowers the number of paths left and moves at most one end to the answer |
| QueryFallback.EveryRequestIsAnsweredOnce | ipld/resolver/src/service.rs:474-552 | over every run a request gets at most one reply and exactly one once no attempt is open; its batches are a prefix of the provider order, failure means all were asked, and attempts are at most the rounded-up quotient |
| QueryFallback.SuccessIsReportedExactly | ipld/resolver/src/service.rs:514-519 | over every run, for any number of peers per attempt, a request is told of success exactly if one of its attempts succeeded |
| QueryFallback.SuccessIsReplied | ipld/resolver/src/service.rs:514-519 | completing an open attempt with success, and nothing else, makes the reply a success |
| QueryFallback.FailureIsReportedExactly | ipld/resolver/src/service.rs:514-552 | some run of the service reports failure to a request over given providers if and only if attempts ask at least one peer or there is none to ask |
| QueryFallback.NeverFailsWithoutPeers | ipld/resolver/src/service.rs:548-552 | with no peers per attempt, in no run is a request with providers told that it failed |
| QueryFallback.FailuresEndInAReply | ipld/resolver/src/service.rs:514-545 | from any state an open request whose attempts keep failing is told so, after at most one attempt more than it has peers left |
| QueryFallback.RunTracks | ipld/resolver/src/service.rs:514-552 | in every run, for any number of peers per attempt, an open query holds exactly the peers left after as many failures as batches were asked, and failure is only reported with none left |
| QueryFallback.LeftAfterExactly | ipld/resolver/src/service.rs:514-552 | which peers are left after any number of failed attempts |
| QueryFallback.NextBatch | ipld/resolver/src/service.rs:534-542 | a further batch continues the prefix and leaves the rest as fallback |
| QueryFallback.ConnectedComeFirst | ipld/resolver/src/service.rs:486-493 | no unconnected peer precedes a connected one |
| QueryFallback.PrioritizedKeeps | ipld/resolver/src/service.rs:486-493 | prioritizing neither loses nor repeats a peer |
| QueryFallback.PriorityKeepsOrder | ipld/resolver/src/service.rs:486-493 | within the connected peers, and within the others, the order stays as given |
| QueryFallback.ResolverService.StartQuery | ipld/resolver/src/service.rs:474-507 | no providers means an immediate failure reply; otherwise one attempt with the first batch |
| QueryFallback.ResolverService.HandleComplete | ipld/resolver/src/service.rs:397-405 | an unknown attempt changes nothing; a known one is closed, and its request gets success for a success, failure for a failure without peers left, and no reply otherwise; other requests are untouched |
| QueryFallback.ResolverService.ResolveQuery | ipld/resolver/src/service.rs:514-545 | success or exhaustion is replied once, anything else opens the next attempt |
| QueryFallback.ResolverService.SplitPeersForQuery | ipld/resolver/src/service.rs:548-552 | splits without loss at the batch size |
| SubnetId.CommonParentIsDeepest | ipc/api/src/subnet_id.rs:149-163 | the common parent is on both paths, above no other subnet on both, and symmetric |
| SubnetId.DownToChild | ipc/api/src/subnet_id.rs:167-179 | from a strict ancestor, down is its child on the path |
| SubnetId.UpToParent | ipc/api/src/subnet_id.rs:183-195 | from a non-root subnet on the path, up is its parent |
| SubnetId.DownExactly | ipc/api/src/subnet_id.rs:167-179 | from anywhere, down is the child of the common parent on the path, exactly if the path is the deeper one |
| SubnetId.UpExactly | ipc/api/src/subnet_id.rs:183-195 | from anywhere, up is the parent of the common parent, exactly if there is one and the path is no shallower |
| SubnetId.DownAndUpAreInverse | ipc/api/src/subnet_id.rs:167-195 | each undoes the other along the path |
| SubnetId.WalkDownArrives | ipc/api/src/subnet_id.rs:167-179 | iterating down arrives after exactly the difference in depth and goes no further |
| SubnetId.UpPanicsExactly | ipc/api/src/subnet_id.rs:183-195 | the exact inputs on which up underflows its index |
| SubnetId.UpFromTheRootPanics | ipc/api/src/subnet_id.rs:183-195 | a step up from the root underflows for every subnet of that root |
| SubnetId.BottomUpExactly | ipc/api/src/cross.rs:144-151 | a message goes up exactly when both ends share a root and the source is not on the destination's path |
| SubnetId.TurnsAtTheCommonParent | ipc/api/src/cross.rs:90-108 | a message that goes up is applied as going up until the common parent and as going down below it |
| SubnetId.NeverUpOnThePath | ipc/api/src/cross.rs:90-108 | a message whose source is on its destination's path, or in another root network, is never applied as going up |
| SubnetId.ApplyTypeExactly | ipc/api/src/cross.rs:98-108 | the exact condition on any three subnets for a message to be applied as going up |
| SubnetText.SubnetFromStr | ipc/api/src/subnet_id.rs:218-245 | parses, with an error for prefix, root and child each |
| SubnetText.ChildrenFromStr | ipc/api/src/subnet_id.rs:234-241 | all children parse in order or the first bad one fails the whole |
| SubnetText.SubnetParsesExactly | ipc/api/src/subnet_id.rs:218-245 | a text parses to an identifier exactly if it joins a way to write the root's number and texts of the children's addresses |
| SubnetText.ParsesExactly | ipc/api/src/subnet_id.rs:230-232 | a text parses to a root number exactly if it is an optional plus, any zeros and the number as printed, within 64 bits |
| SubnetText.SubnetRoundTrip | ipc/api/src/subnet_id.rs:198-245 | every identifier parses back from its printed form |
| SubnetText.PrintsAsDocumented | ipc/api/src/subnet_id.rs:198-210 | what identifiers and addresses look like |
| SubnetText.PrintAfterParseExactly | ipc/api/src/subnet_id.rs:198-245 | a text that parses prints as itself exactly when its root has no sign or leading zero and its addresses are written as addresses print |
| SubnetText.SecondNameOfARoot | ipc/api/src/subnet_id.rs:230-232 | every way to write a root's number names that root network |
| SubnetText.SplitJoin | ipc/api/src/subnet_id.rs:228-228 | splitting undoes joining for parts free of the separator |
| SubnetText.JoinSplit | ipc/api/src/subnet_id.rs:228-228 | joining undoes splitting for every text |
| SubnetText.IpcRoundTrip | ipc/api/src/address.rs:80-101 | every address in a subnet parses back from its printed form |
| SubnetText.IpcParsesExactly | ipc/api/src/address.rs:87-101 | a text parses to an address in a subnet exactly if one colon parts a text of the subnet from one of the address |

## Left out

- BLS, Keccak, SHA-256 and secp256k1 internals: foreign cryptography, kept abstract.
- The FVM interpreter beyond enabling the actor, delivering messages to it, and arranging a proposal.
- HAMT, AMT, CID and CBOR encodings: modelled as maps and values; their I/O errors are not modelled.
- Signed block-height tags: signed and verified in the model, but their storing is switched off in the source.
- The application's check, process-proposal, query and snapshot calls, the execution-state slot, halt height, an initial height other than 1, and recovery between finalizing and committing a block.
- The mempool's admission check of a submitted transaction (sender, sequence number and balance): the model lets any tag transaction reach a proposal.
- Votes that arrive after the commit of their block, and validator nodes that run without a signing key.
- Rendering, dumping and loading of Merkle trees.
- Key and value encoding errors of the store, and transactions dropped without commit or rollback, which panic.
- The provider cache's query for a single peer's routability, a plain lookup.
- RocksDB, libp2p, gossip, Bloom filters, LRU caches and rate limiting in the resolver.
- Negative epochs of the chain-metadata actor, which fail before anything changes.
- Subnet ids' chain and actor id derivation, serialization of addresses, and checkpoint types: plain conversions.
- Top-down finality voting, subnet actors in Solidity, CLI, RPC and deployment: plumbing around other components.
