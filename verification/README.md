# A verified model of the Finnes shielded-note ledger

Finnes keeps tokenised real-world assets as hidden notes. A Soroban contract stores two commitment trees,
a nullifier set, an issuer-managed frozen set and a two-party escrow, and never hashes: it stores what a
Groth16 proof attests. The SDK keeps the same trees off-chain, builds the proofs' witnesses and splits the
auditor's view key; the frontend computes the frozen root and replays the event log. This project models
all four in Dafny and proves what they promise together, over every run.

## How it is built

| modules | role |
|---|---|
| `Hashing`, `MerkleTree`, `IncrementalTree` | the padded perfect tree, and the three incremental algorithms that must agree with it |
| `FrozenSet` | the sorted linked list inside a tree; its witnesses exist exactly for non-members |
| `Notes`, `Circuits` | notes as hash terms; the relation an accepted proof attests |
| `RootWindows`, `ContractTypes`, `ContractSpec`, `Contract` | the entrypoints as functions on storage, the class that writes storage step by step, proved against them, and the host's rollback |
| `Answers` | for every entrypoint, when it accepts and with which error it fails otherwise |
| `Moves`, `Ledger`, `Conservation`, `ValueLaws` | runs of the contract next to ghost leaf lists and consumed positions; conservation, and where it ends |
| `EventLog`, `FrozenRuns`, `Wallet`, `HonestCalls`, `Indexer` | freezing over runs, honest owners, event sourcing |
| `Instances` | a sound deployment and runs from init that reach the calls the findings are about |
| `ContractRuns`, `Escrow`, `Compliance`, `Payments` | escrow, compliance windows, gates, signatures and payments over runs, for every verifier |
| `PrimeField`, `Polynomials`, `Interpolation`, `Threshold`, `Sbox` | prime-field arithmetic, Shamir custody, the x^5 S-box |

## Hypotheses, stated where they are used

* **Hash.** Poseidon is a parameter: injective per width, and a commitment is never the empty leaf 0
  (`Hashing.CollisionFree`). Field elements are unbounded naturals, because no width-2 hash is injective
  on a finite field. A pairing function on naturals satisfies the hypothesis.
* **Proof acceptance.** An accepted proof has a witness of the relation (`Circuits.SoundVerifier`,
  `Ledger.Faithful`). The relation keeps the constraints the theorems need and drops others, so it is never
  stronger than the circuits. Values are range-checked, fees are not, conservation is an equation in the
  field, and the modulus is at least 2^67.
* **Scalars.** The contract keys nullifiers by their raw 32 bytes (contracts/finnes/src/state.rs:298-313) and hands
  the same bytes to the host's field type (contracts/finnes/src/verifier.rs:133-140); no code of the contract checks
  that they lie below the modulus, and the host's conversion is not in the repository. So the conversion is a
  parameter, `Params.decode`, applied to nullifiers, and `Ledger.NoDoubleConsumption` is stated for runs that store
  each nullifier in one encoding (`Ledger.OneEncodingEach`), which an injective conversion guarantees. The other public
  scalars are read as they stand, that is, as canonical encodings.
* **Depth.** A parameter of at most 63; the deployed depth is 20 (contracts/finnes/src/lib.rs, sdk/src/merkle.ts).
* **Seed.** Runs start from the empty-tree frontier and root, which `init` does not check.
* **Capacity.** No hypothesis for the two commitment trees: the circuits decompose every append index into `depth`
  bits, so an accepted proof enforces it. For the frozen list nothing enforces it (frontend/lib/freeze.ts:60-71).
  Soundness and the freezing theorems hold for a list of any size; that every absent value has a witness, and that the
  root names the set, hold while the list fits (`FrozenSet.Fits`), and the exact conditions beyond are stated.
* **Host.** A failing call leaves no trace; the ledger sequence never decreases (escrow only).
* **Issuer.** The freezing theorems assume that every accepted freeze carries the root that `computeFreeze` computes
  from the published freezes; what the contract rejects may carry anything.
* **Field.** `Threshold` and `Sbox` hold over any prime; the primality of the concrete modulus is not proved.

## Findings

* The documentation promises that the immediately prior compliance root survives an update
  (contracts/finnes/src/state.rs:172-177, contracts/finnes/src/lib.rs:860-866). That fails for a root
  republished while it is the oldest of a full window. `RootWindows.PriorRootCanBeDropped` gives the series of
  updates; `RootWindows.PriorRootSurvivesExactly` is the exact condition over every series.
* The transfer circuit's comment says range checks exclude field wrap-around (circuits/lib/transfer.circom:176).
  Fees carry no range check, so a fee above half the modulus is a negative amount. `Circuits.NoWrapExactlyBelowHalf`
  is the exact condition per leg, `ValueLaws.WrappedFeeIsAccepted` the accepted call that breaks the promise,
  and `ValueLaws.StepCoverExactly` the exact law per call. Conservation is proved with signed fees.
* Neither the circuits nor the contract compare the two nullifiers of one call. `Conservation.RunBalances`
  carries the value of a leaf named again as its own term. `ValueLaws.NoteNamedTwiceIsAccepted` is an accepted
  call that makes it grow; `ValueLaws.StepRepeatsExactly` says exactly when it does: when a spend addresses a
  position consumed before. Distinct nullifiers suffice and are not necessary (`ValueLaws.SharedNullifierCanConserve`).
* Nullifiers are compared as raw scalars. A live note can be spent under a scalar exactly when that scalar encodes its
  nullifier and is not stored (`HonestCalls.SpentOncePerEncoding`), so where the host reads two scalars as one field
  element a leaf is consumed once per encoding (`Instances.SecondEncodingConsumesTwice`), and nowhere else
  (`Ledger.ConsumedAgain`).
* `computeFreeze` does not check that the list still fits the tree. Past capacity the root is the node above the tail:
  a witness exists exactly for the values whose low node shares the tail's block (`FrozenSet.NonMembershipExact`), so
  unfrozen notes can become unspendable while frozen ones stay so, and a root names exactly that block
  (`FrozenSet.FrozenRootNamesBlock`), which different sets can share (`FrozenSet.OverfullRootNamesNothing`).
* `combineShares` is documented to yield a wrong value below quorum (sdk/src/threshold.ts:113-118). Exactly when it
  yields the key all the same is `Threshold.CombinesToKeyExactly`; one share short, that is when the leading coefficient
  drawn is zero (`Threshold.OneShortCombinesExactly`). What it promises about secrecy holds
  (`Threshold.BelowQuorumNothingIsLearned`).
* The indexer replays shield, transfer, unshield and recovery events only. Its leaf list is the contract's
  exactly in runs without a DvP, a settlement or a refund (`Indexer.ReplayIsExact`); each of those calls is
  acceptable (`HonestCalls.HonestDvpIsAccepted` and its neighbours) and leaves a gap (`Indexer.SkippedCallIsMissed`).
* The aged-out bridge anchors at the first occurrence of the first retained leaf, so a seed that repeats it
  loses the prefix. `Indexer.BridgeRestoresExactly` is the exact condition, checkable on that leaf.
* `frozenNonMembership` throws exactly on members, but what it returns for 0 or for the tail value is not a
  witness; within the tail value the circuit accepts its result exactly strictly inside the range.

## Model

| member | source | states |
|---|---|---|
| `Hashing.CollisionFreeIsSatisfiable` | sdk/src/merkle.ts:34-40 | the hash hypothesis has an instance |
| `MerkleTree.PathFolds` | sdk/src/merkle.ts:199-239 | completeness: the path of leaf i folds to the node above it and its bits address i, at every height |
| `MerkleTree.PathOpensLeaf` | circuits/lib/merkle.circom:60-80 | soundness: whatever folds to a node is the padded leaf its bits address |
| `MerkleTree.RootBindsLeaves` | sdk/src/merkle.ts:70-80 | within capacity two roots are equal exactly when the padded leaf lists are |
| `IncrementalTree.EmptyTreeZeros` | sdk/src/merkle.ts:76-80 | the list holds the root of the all-empty subtree of every height |
| `IncrementalTree.InsertInto` | sdk/src/merkle.ts:89-112 | the loop computes the level-by-level climb; on the frontier of any leaf list it yields the root above the new leaf and changes exactly the slots at levels where the index has bit 0, each to the node above the new leaf |
| `IncrementalTree.ClimbCarries` | sdk/src/merkle.ts:99-110 | the carry chain: a half-updated frontier ends up fitting the longer list, with the root above the new leaf |
| `IncrementalTree.InsertExtends` | sdk/src/merkle.ts:89-112 | one insert keeps "every slot under a 1 bit of the count is the root of its completed left subtree" |
| `IncrementalTree.InsertWrites` | sdk/src/merkle.ts:99-110 | every slot after one insert, live or dead: the node above the new leaf where the index has bit 0, what it was elsewhere |
| `IncrementalTree.ReplayFrontier` | sdk/src/merkle.ts:171-180 | every slot of the frontier of every leaf list: the left one of the two nodes above the last leaf at that level, the empty subtree when there is no leaf |
| `IncrementalTree.ReplayInvariant` | sdk/src/merkle.ts:171-180 | for every leaf list, past capacity too, replaying gives that frontier and the node above the last leaf |
| `IncrementalTree.ReplayIsPerfect` | sdk/src/merkle.ts:171-185 | within capacity the replayed root is the root of the padded perfect tree |
| `IncrementalTree.ThreeLeaves` | sdk/src/merkle.ts:89-112 | three leaves in a tree of depth 2 written out: left child first, the empty leaf on the right |
| `IncrementalTree.EmptyInsertIsNoOp` | sdk/src/witness.ts:458-463 | inserting 0 at the append index reproduces the current root from any valid frontier |
| `IncrementalTree.InsertAllConcat` | sdk/src/merkle.ts:122-141 | inserting two batches is inserting their concatenation |
| `IncrementalTree.BatchExtends` | sdk/src/merkle.ts:122-141 | a batch on the frontier of a list gives every slot and the root of the longer list |
| `IncrementalTree.ApplyFrontierTransition` | sdk/src/merkle.ts:122-141 | both errors exactly; otherwise the batch of single inserts, which on the frontier of any list gives every slot and the root of the longer list |
| `IncrementalTree.IncrementalMerkleTree.constructor` | sdk/src/merkle.ts:148-156 | an empty tree of the given depth |
| `IncrementalTree.IncrementalMerkleTree.Insert` | sdk/src/merkle.ts:164-168 | appends one leaf and returns its index |
| `IncrementalTree.IncrementalMerkleTree.State` | sdk/src/merkle.ts:171-193 | every slot of the frontier and the root of the replay; within capacity the perfect root |
| `IncrementalTree.IncrementalMerkleTree.InclusionPath` | sdk/src/merkle.ts:199-222 | fails exactly out of range; otherwise the siblings and binary digits of that leaf, verifying under the root |
| `IncrementalTree.VerifyInclusionPath` | sdk/src/merkle.ts:229-239 | fails exactly on a length mismatch; otherwise true exactly when the path folds to the root |
| `FrozenSet.SortedFrozen` | frontend/lib/freeze.ts:31-33 | strictly ascending, same elements |
| `FrozenSet.SortedListingUnique` | frontend/lib/freeze.ts:31-33 | a set has one such listing |
| `FrozenSet.ImtIsLinked` | frontend/lib/freeze.ts:40-48 | the leaves hash records that link to one another by index: following them from the first visits 0, the set in order and the tail, each next value is the value of the record linked to, and only the last links nowhere |
| `FrozenSet.BuildFrozenImt` | frontend/lib/freeze.ts:40-48 | the leaves are head, nodes and tail in order, linked as `ImtIsLinked` says |
| `FrozenSet.FrozenRootOf` | frontend/lib/freeze.ts:51-53 | the replayed root over a linked list of the set, for every list, which is the root of the perfect tree when the list fits |
| `FrozenSet.FrozenRootNamesBlock` | frontend/lib/freeze.ts:51-53 | for lists of any size, equal roots exactly when the two lists have the same nodes at the same places of their tails' blocks |
| `FrozenSet.FrozenRootNamesSet` | frontend/lib/freeze.ts:51-53 | as soon as one of two lists fits the tree, equal roots exactly for equal sets, whatever the order and repetitions |
| `FrozenSet.OverfullRootNamesNothing` | frontend/lib/freeze.ts:60-71 | when neither list fits, different sets can share a root |
| `FrozenSet.ComputeFreeze` | frontend/lib/freeze.ts:60-71 | fails exactly out of range or on members; otherwise the canonical list and the root over the linked list of the larger set |
| `FrozenSet.NonMemberSound` | circuits/lib/merkle.circom:102-144 | for a list of any size an accepted witness opens a node of the list in the block under the root, so its target is not a member, not 0 and not the tail |
| `FrozenSet.NonMembershipExact` | circuits/lib/merkle.circom:102-144 | for a list of any size and every target a witness exists exactly for absent values strictly inside the range whose low node the root reaches, and for what lies beyond the tail value; the root of a list that fits reaches every node |
| `FrozenSet.FindLow` | frontend/lib/freeze.ts:91-99 | the walk stops at the last node below the target, with its value, the index of the next node and that value |
| `FrozenSet.FrozenNonMembership` | frontend/lib/freeze.ts:81-101 | for every list fails exactly on members and otherwise returns the low node with its links, its path and the root over the linked list; for a list in range the circuit accepts this exactly strictly inside the range when the root reaches the node |
| `RootWindows.PushRecentRoot` | contracts/finnes/src/merkle.rs:108-115 | the last 64 of the ring and the new root |
| `RootWindows.RecentRingIsSuffix` | contracts/finnes/src/merkle.rs:105-115 | after any pushes the ring is the last 64 roots pushed, repetitions included |
| `RootWindows.RecentRingHolds64` | contracts/finnes/src/state.rs:27-30 | after n pushes onto the seed the ring holds n + 1 roots, and never more than 64 |
| `RootWindows.PushComplianceWindow` | contracts/finnes/src/state.rs:184-201 | unchanged for a known root; otherwise the last 16 with it |
| `RootWindows.WindowContains` | contracts/finnes/src/state.rs:204-216 | membership; the same scan decides whether a root is in the ring |
| `RootWindows.ComplianceWindowIsSuffix` | contracts/finnes/src/state.rs:179-201 | after any updates the window is the last 16 admissions, so a root leaves only at the 16th later one |
| `RootWindows.DroppedExactlyWhenOldest` | contracts/finnes/src/state.rs:184-201 | an accepted root is dropped exactly when the window is full, it is the oldest and the new root is unknown |
| `RootWindows.PriorRootCanBeDropped` | contracts/finnes/src/state.rs:172-177 | for every series that fills the window with different roots and republishes the first, the next new root drops the root in force |
| `RootWindows.PriorRootDropsInSeries` | contracts/finnes/src/lib.rs:860-866 | one such series: 1 to 16, 1 again, 17 |
| `RootWindows.PriorRootSurvivesExactly` | contracts/finnes/src/state.rs:184-201 | after any series of updates the root in force survives the next exactly unless the window is full, it is the oldest and the next is unknown |
| `Notes.CommitmentFixesNullifier` | sdk/src/note.ts:75-103 | equal commitments are equal notes with one possible nullifier; the order of the hash arguments |
| `Circuits.FieldConservationIsSigned` | circuits/lib/transfer.circom:109-112 | on range-checked amounts the field equation holds exactly when the integer equation with the signed fee does |
| `Circuits.NoWrapExactlyBelowHalf` | circuits/lib/transfer.circom:176-177 | a leg that conserves in the field pays out no more than it takes in exactly when its fee is below half the modulus |
| `Contract.ScalarToAmount` | contracts/finnes/src/sac.rs:38-51 | the big-endian value when it is below 2^64, an error otherwise |
| `Contract.CheckOldFrontier` | contracts/finnes/src/merkle.rs:32-55 | an error exactly on a wrong length or without a stored frontier, in that order; otherwise equality |
| `Contract.FinnesContract.ApplyToTree` | contracts/finnes/src/merkle.rs:68-84 | stores frontier, root, ring and count of the named tree only |
| `Contract.FinnesContract.MoveToken` | contracts/finnes/src/sac.rs:56-83 | the ordered token movement under its asset id, for the amount its bytes encode, or the first error |
| `Contract.FinnesContract.Init` | contracts/finnes/src/lib.rs:65-104 | storage after init, or its first error |
| `Contract.FinnesContract.Shield` | contracts/finnes/src/lib.rs:119-166 | storage after shield, or its first error |
| `Contract.FinnesContract.ConfidentialTransfer` | contracts/finnes/src/lib.rs:174-233 | storage after a transfer, or its first error |
| `Contract.FinnesContract.SettleDvp` | contracts/finnes/src/lib.rs:248-313 | storage after a DvP, or its first error |
| `Contract.FinnesContract.Unshield` | contracts/finnes/src/lib.rs:322-394 | storage after an unshield, or its first error |
| `Contract.FinnesContract.UpdateRoot` | contracts/finnes/src/lib.rs:401-427 | storage after a compliance-root update, or its first error |
| `Contract.FinnesContract.RegisterAsset` | contracts/finnes/src/lib.rs:435-440 | storage after an asset registration, overwriting included |
| `Contract.FinnesContract.RegisterTransparent` | contracts/finnes/src/lib.rs:447-457 | storage after a recipient registration, overwriting included |
| `Contract.FinnesContract.Freeze` | contracts/finnes/src/lib.rs:469-488 | storage after a freeze, or its first error |
| `Contract.FinnesContract.MintRecovery` | contracts/finnes/src/lib.rs:497-527 | storage after a recovery mint (`clawback` is an alias), or its first error |
| `Contract.FinnesContract.CreateIntent` | contracts/finnes/src/lib.rs:542-569 | storage after an intent is created with cleared flags, or its first error |
| `Contract.FinnesContract.EscrowDeposit` | contracts/finnes/src/lib.rs:574-635 | storage after a deposit of the matched leg, or its first error |
| `Contract.FinnesContract.SettleIntent` | contracts/finnes/src/lib.rs:643-712 | storage after a settlement, or its first error |
| `Contract.FinnesContract.EscrowRefund` | contracts/finnes/src/lib.rs:720-786 | storage after a refund of the matched leg, or its first error |
| `Contract.FinnesContract.Invoke` | contracts/finnes/src/lib.rs:371-380 | an accepted call commits; a failing one restores everything, including nullifiers written before the failing step |
| `Answers.InitAnswer` | contracts/finnes/src/lib.rs:65-104 | for every storage and input: accepted exactly when not initialised, signed by the admin and of the right frontier length, with the error of the first gate that fails |
| `Answers.InitStores` | contracts/finnes/src/lib.rs:65-104 | both trees are seeded alike, admin and issuer are kept apart, each window gets its first root |
| `Answers.ShieldAnswer` | contracts/finnes/src/lib.rs:119-166 | accepted exactly when every gate holds, in the source's order, each a condition on inputs and stored fields; otherwise the first error |
| `Answers.TransferAnswer` | contracts/finnes/src/lib.rs:174-233 | the same for a transfer |
| `Answers.SettleDvpAnswer` | contracts/finnes/src/lib.rs:248-313 | the same for a DvP |
| `Answers.UnshieldAnswer` | contracts/finnes/src/lib.rs:322-394 | the same for an unshield; the recipient is checked before the tree, the token after it |
| `Answers.UpdateRootAnswer` | contracts/finnes/src/lib.rs:401-427 | every root of every kind is accepted exactly from the issuer after init |
| `Answers.RegisterAnswer` | contracts/finnes/src/lib.rs:435-457 | so is every registration, known key or not |
| `Answers.FreezeAnswer` | contracts/finnes/src/lib.rs:469-488 | a freeze is accepted exactly after init, from the issuer, of a target not frozen yet, with the error of the first gate that fails |
| `Answers.MintRecoveryAnswer` | contracts/finnes/src/lib.rs:497-527 | the gates of a recovery mint: the issuer's signature, no depositor, no token |
| `Answers.CreateIntentAnswer` | contracts/finnes/src/lib.rs:542-569 | accepted exactly when both parties signed, the id is new and the deadline lies ahead |
| `Answers.EscrowDepositAnswer` | contracts/finnes/src/lib.rs:574-635 | the gates of a deposit, on the record's fields; no KYC and no sanctions root among them |
| `Answers.SettleIntentAnswer` | contracts/finnes/src/lib.rs:643-712 | a settlement is accepted exactly when the intent is known, unsettled and fully deposited, the ledger is before its deadline and every other gate holds, with the error of the first that fails |
| `Answers.EscrowRefundAnswer` | contracts/finnes/src/lib.rs:720-786 | a refund exactly when the intent is known, unsettled and past its deadline, the leg is deposited and not yet refunded and every other gate holds |
| `Answers.CountsSaturate` | contracts/finnes/src/merkle.rs:68-84 | each accepted call advances each leaf count by what it appends, up to the top of the 64-bit range and never around |
| `Moves.AttestedMoveHolds` | circuits/lib/unshield.circom:159-173 | each proof attests the spends and outputs of one move; the zero change sentinel is unambiguous |
| `Moves.AcceptedIsMove` | contracts/finnes/src/lib.rs:174-233 | each of the eight proof-carrying calls checks and stores exactly one move between two trees |
| `Moves.TransferHasOneOwner` | circuits/lib/transfer.circom:114-174 | a transfer spends two notes of one owner and one asset and makes two of that asset |
| `Ledger.InitIsGenesis` | contracts/finnes/src/lib.rs:65-104 | init with the empty-tree seed is the genesis of the run theorems |
| `Ledger.CallsHaveEvidence` | contracts/finnes/src/verifier.rs:90-171 | with a sound verifier every series of calls has the evidence the run theorems ask for |
| `Ledger.TransitionExtends` | circuits/lib/merkle.circom:160-220 | an attested transition at the stored count is the incremental tree over the longer list, and stays within capacity |
| `Ledger.SpendOpensLeaf` | contracts/finnes/src/merkle.rs:91-103 | a spend under any accepted anchor opens the leaf its path addresses |
| `Ledger.SpendsStayInTheirTree` | contracts/finnes/src/state.rs:62-73 | settlement and refund spend Escrow leaves, every other call Main leaves |
| `Ledger.FreshNullifierFreshPosition` | contracts/finnes/src/state.rs:298-313 | a spend whose nullifier is stored in no encoding consumes a position no earlier call consumed |
| `Ledger.ConsumedAgain` | contracts/finnes/src/state.rs:298-313 | a call that consumes a position again names a scalar that is not stored and encodes a nullifier that is |
| `Ledger.RunRefinesTrees` | contracts/finnes/src/merkle.rs:57-84 | after every run both stored trees are the incremental trees over append-only lists and every ring root is the root of a prefix |
| `Ledger.NoDoubleConsumption` | contracts/finnes/src/lib.rs:186-220 | in every run that stores each nullifier in one encoding no leaf position is consumed by two accepted calls |
| `Ledger.RunIsContractRun` | contracts/finnes/src/lib.rs:119-166 | the ghost bookkeeping never steers the contract |
| `Conservation.RunBalances` | circuits/lib/transfer.circom:167-177 | over every run, per asset: unspent notes + payouts + fees = deposits + recovery mints + value of positions named again |
| `Conservation.GenesisRunBalances` | contracts/finnes/src/lib.rs:119-394 | the same from a fresh deployment on |
| `ValueLaws.StepRepeatsExactly` | contracts/finnes/src/lib.rs:186-191 | a call adds to the repeats exactly the value of the positions it names that were consumed before; with one encoding each that is the position it names twice, which takes equal nullifiers |
| `ValueLaws.StepCoverExactly` | circuits/lib/transfer.circom:167-177 | one accepted call moves the cover of an asset by its signed fees less what it names again, so it keeps the cover exactly when the fees make up for that |
| `ValueLaws.RunCoveredExactly` | contracts/finnes/src/lib.rs:119-394 | a run on balanced books ends covered exactly when repeats do not exceed fees |
| `ValueLaws.WrappedFeeIsAccepted` | circuits/lib/transfer.circom:176-177 | outputs worth more than two distinct inputs satisfy the relation with the fee that represents the shortfall; the call is accepted once proved and the cover falls by the shortfall |
| `ValueLaws.NoteNamedTwiceIsAccepted` | contracts/finnes/src/lib.rs:186-191 | one note named as both inputs satisfies the relation; the call is accepted once proved and the repeats grow by its value |
| `ValueLaws.SharedNullifierCanConserve` | contracts/finnes/src/lib.rs:186-191 | two leaves that share a nullifier can be spent together and the cover stays |
| `ValueLaws.SecondEncodingIsAccepted` | contracts/finnes/src/verifier.rs:133-140 | consumed leaves named under encodings that are not stored satisfy the relation; the call is accepted once proved, consumes them again and the cover falls by their value |
| `ValueLaws.GuardedRunIsCovered` | contracts/finnes/src/lib.rs:174-233 | when every accepted call has distinct nullifiers and fees below half the modulus, and each nullifier is stored in one encoding, a covered asset stays covered; this guard is sufficient, the exact law is `StepCoverExactly` |
| `Instances.WrappedFeeUncovers` | circuits/lib/transfer.circom:176-177 | from every fresh deployment with a complete verifier a run of mints and one transfer with a wrapped fee ends uncovered, for any shortfall |
| `Instances.NamingTwiceUncovers` | contracts/finnes/src/lib.rs:186-191 | so does a run that names one note twice |
| `Instances.SecondEncodingConsumesTwice` | contracts/finnes/src/state.rs:298-313 | where two scalars are read as one nullifier, two accepted calls of a run consume the same leaf |
| `Instances.EachGapIsReached` | contracts/finnes/src/lib.rs:65-104 | a concrete hash, conversion and sound verifier, and from init a run of each of the three kinds |
| `Conservation.TokensMoved` | contracts/finnes/src/sac.rs:53-83 | only a shield pulls tokens and only an unshield pays, each for its own asset id |
| `Payments.RunFollowsOrders` | contracts/finnes/src/lib.rs:322-457 | over every run from blank storage the event log determines both registries and every token movement: one deposit per shield event, one payment per unshield event, through the token and to the account last registered by then |
| `Payments.UnshieldPays` | contracts/finnes/src/lib.rs:350-380 | an accepted unshield appends exactly one payment: its amount, to the account last registered for its recipient, through the token last registered for its asset |
| `Payments.ShieldPulls` | contracts/finnes/src/sac.rs:53-70 | an accepted shield appends exactly one deposit, from the depositor who signed, through the token last registered for its asset |
| `Payments.AcceptedUnshieldPays` | contracts/finnes/src/lib.rs:350-380 | the same of every accepted unshield of every run from blank storage |
| `EventLog.AcceptedEmits` | contracts/finnes/src/events.rs:119-341 | every accepted call appends exactly its own event |
| `FrozenRuns.RunKeepsFrozen` | contracts/finnes/src/lib.rs:469-488 | in every run whose accepted freezes are honest the stored root names exactly the frozen commitments |
| `FrozenRuns.SpendableExactlyIfNotFrozen` | contracts/finnes/src/lib.rs:849-858 | under the stored root a witness exists exactly for what is in range, not frozen and reached by the root, and for what lies beyond the tail value; while the list fits, for everything in range and not frozen |
| `FrozenRuns.FreezeIsAlwaysOpen` | contracts/finnes/src/lib.rs:469-488 | after every honest run a signed freeze of a target in range, with the root of the larger set, is accepted exactly when the target was not frozen before |
| `FrozenRuns.FrozenNeverMoves` | contracts/finnes/src/lib.rs:460-488 | after an accepted freeze no later accepted call of any kind consumes a leaf equal to the target |
| `FrozenRuns.FrozenNeverMovesFromGenesis` | frontend/lib/freeze.ts:40-71 | the same for every run of a fresh deployment seeded with the root of the empty set, whose accepted freezes are honest |
| `Wallet.BuiltSpendHolds` | sdk/src/witness.ts:124-151 | paths taken from the live lists satisfy the spend relation |
| `Wallet.BuiltShieldHolds` | sdk/src/witness.ts:290-308 | the built shield satisfies the relation and names the given public signals |
| `Wallet.BuiltTransferHolds` | sdk/src/witness.ts:124-222 | the built transfer satisfies the relation, under any encodings of its nullifiers, and names the given public signals |
| `Wallet.BuiltUnshieldHolds` | sdk/src/witness.ts:437-463 | the built unshield satisfies the relation, with and without a change note, and names the given public signals |
| `Wallet.BuiltDvpHolds` | sdk/src/witness.ts:603-630 | the built DvP satisfies the relation, each output in its input's asset, and names the given public signals |
| `Wallet.BuiltEscrowLegHolds` | sdk/src/witness.ts:746-753 | the built deposit or refund satisfies the relation and names the given public signals |
| `HonestCalls.HonestMintIsAccepted` | contracts/finnes/src/lib.rs:119-166 | a built deposit, or recovery mint, satisfies the relation and passes every gate |
| `HonestCalls.HonestTransferIsAccepted` | contracts/finnes/src/lib.rs:174-233 | an owner of unfrozen live notes satisfies the relation and passes every gate with what the builder makes of the live state |
| `HonestCalls.SpentOncePerEncoding` | contracts/finnes/src/state.rs:298-313 | with a proof that verifies, a transfer of live unfrozen leaves is attested and accepted exactly under encodings of their nullifiers that are not stored, consumed before or not |
| `HonestCalls.HonestUnshieldIsAccepted` | contracts/finnes/src/lib.rs:322-394 | so does an owner of one, leaving the pool |
| `HonestCalls.HonestDvpIsAccepted` | contracts/finnes/src/lib.rs:248-313 | so do two signing parties swapping Main notes |
| `HonestCalls.HonestDepositIsAccepted` | contracts/finnes/src/lib.rs:574-635 | so does a party escrowing a note into an undeposited leg, whatever its KYC and sanction roots |
| `HonestCalls.HonestSettlementIsAccepted` | contracts/finnes/src/lib.rs:643-712 | so does whoever holds both escrow notes of a known, unsettled, fully deposited intent at any ledger before its deadline |
| `HonestCalls.HonestRefundIsAccepted` | contracts/finnes/src/lib.rs:720-786 | past the deadline the holder of an unfrozen escrow note can always take a deposited leg back |
| `Escrow.CallOnIntents` | contracts/finnes/src/lib.rs:542-786 | a call reaches one allowed milestone of one intent, or creates one, and touches no other |
| `Escrow.LegsInOrder` | contracts/finnes/src/lib.rs:584-595 | leg A is served whenever it matches and leg B only otherwise, exactly one flag set, the rest of the record kept |
| `Escrow.RunKeepsExclusive` | contracts/finnes/src/lib.rs:650-659 | always: settled means both deposited and none refunded; refunded means deposited and past the deadline |
| `Escrow.RunExtends` | contracts/finnes/src/lib.rs:542-569 | deadline and commitments never change, flags never reset, intents are never removed |
| `Escrow.MilestonesCount` | contracts/finnes/src/lib.rs:584-595 | each flag is set exactly when one accepted call reached it, and none reaches it twice |
| `Escrow.IntentHistory` | contracts/finnes/src/lib.rs:650-744 | settlement happens at most once, after one deposit per side and no refund; each leg is refunded at most once and only if deposited |
| `Escrow.TermsBind` | contracts/finnes/src/lib.rs:680-692 | every later accepted call on an intent follows the terms both parties signed at creation |
| `Compliance.WindowIsLastAdmitted` | contracts/finnes/src/state.rs:172-201 | in every state reached from empty windows each window is the last 16 admitted roots of its kind and holds the current one |
| `Compliance.WindowFromBlank` | contracts/finnes/src/lib.rs:77-84 | the same for every run from blank storage |
| `Compliance.AcceptedUnderRecentRoots` | contracts/finnes/src/lib.rs:860-898 | over every run an accepted call was proved against one of the last 16 admitted roots of each kind it names and signed by everyone it names |
| `Compliance.AcceptedFromBlank` | contracts/finnes/src/lib.rs:860-898 | the same for every run from blank storage |
| `Compliance.AcceptedUnderOneAuditor` | contracts/finnes/src/lib.rs:915-921 | once initialised, every later accepted call that names an auditor key names the key stored then |
| `Compliance.AcceptedIsGated` | contracts/finnes/src/lib.rs:842-921 | the same for one call, and under the stored auditor key |
| `Compliance.RunKeepsAuthorities` | contracts/finnes/src/lib.rs:842-847 | over every run admin, issuer and auditor key never change, and without the issuer's signature neither does any root, registry or frozen entry |
| `Indexer.FetchLiveCommitments` | frontend/lib/indexer.ts:117-132 | the replay of the four known events in order |
| `Indexer.RunIsLogged` | contracts/finnes/src/events.rs:1-20 | after every run the log determines both leaf lists |
| `Indexer.ReplayIsExact` | frontend/lib/indexer.ts:117-132 | the replay is the Main leaf list exactly when the log holds no DvP, settlement or refund |
| `Indexer.ReplayDropsSkipped` | frontend/lib/indexer.ts:117-132 | a DvP, settlement or refund event contributes no leaf at all: the replay is that of the log without them |
| `Indexer.ReplayedTreeIsTheContracts` | frontend/lib/indexer.ts:165-185 | then the rebuilt tree has the stored root, frontier and count |
| `Indexer.SkippedCallIsMissed` | frontend/lib/indexer.ts:117-132 | every accepted DvP, settlement or refund leaves the replay shorter than the Main list |
| `Indexer.BridgeRestoresExactly` | frontend/lib/indexer.ts:156-161 | for any seed agreeing with the list, the bridge restores it exactly when nothing aged out, or a leaf remains, the seed reaches past the gap and that leaf does not occur earlier in the seed |
| `Indexer.BridgeSplices` | frontend/lib/indexer.ts:156-161 | a first retained leaf that the seed holds: the seed before its first occurrence, then the events |
| `Indexer.BridgeVerbatimExactly` | frontend/lib/indexer.ts:156-161 | for every seed and replay, the events are taken verbatim exactly when there are none, or the seed does not hold the first, or starts with it |
| `Indexer.RepeatedSeedMisanchors` | frontend/lib/indexer.ts:156-161 | a concrete seed with a repeated commitment on which the prefix is lost |
| `Indexer.BuildChainTree` | frontend/lib/indexer.ts:176-184 | a tree over the stateful indexer's leaves if there is one, over the bridged replay otherwise |
| `Indexer.IndexFrozen` | frontend/lib/indexer.ts:301-322 | the stateful indexer's answer if there is one, otherwise the freeze targets in order and the last published root |
| `Indexer.IndexedRootIsStored` | frontend/lib/indexer.ts:301-322 | the reported frozen root is the stored one after every run, honest or not |
| `Indexer.FreezeCommitment` | frontend/lib/finnes-client.ts:544-555 | what the frontend submits for a target off an honest log is the honest freeze and is accepted; there is none exactly for a target out of range or frozen already, with that error |
| `PrimeField.EuclidLemma` | sdk/src/threshold.ts:39-40 | a prime divides a product exactly when it divides a factor |
| `PrimeField.FermatLittle` | sdk/src/threshold.ts:55-60 | a unit to the power p - 1 is 1 |
| `PrimeField.SourceReductions` | sdk/src/poseidon.ts:46-49 | both reductions yield the canonical residue, for negative operands too |
| `Threshold.ModPow` | sdk/src/threshold.ts:43-53 | square-and-multiply computes the power modulo p |
| `Threshold.ModInverse` | sdk/src/threshold.ts:56-60 | fails exactly on 0; otherwise a multiplicative inverse |
| `Polynomials.TooManyRoots` | sdk/src/threshold.ts:113-118 | a polynomial with as many distinct roots as coefficients vanishes everywhere |
| `Interpolation.InterpolantThrough` | sdk/src/threshold.ts:126-140 | the Lagrange polynomial passes through every point |
| `Interpolation.PointsDetermine` | sdk/src/threshold.ts:113-118 | and no other polynomial of that length does |
| `Threshold.SplitViewKey` | sdk/src/threshold.ts:88-111 | both errors exactly; otherwise share i is the polynomial's value at i |
| `Threshold.LagrangeCoefficient` | sdk/src/threshold.ts:127-136 | the value at 0 of every basis polynomial that is 1 at its node and 0 at the others |
| `Threshold.CombineShares` | sdk/src/threshold.ts:119-141 | the three errors exactly; otherwise the interpolant's value at 0 |
| `Threshold.CombineRecovers` | sdk/src/threshold.ts:113-141 | the value at 0 of any polynomial through the shares with at most as many coefficients as shares |
| `Threshold.QuorumReconstructs` | sdk/src/threshold.ts:8-14 | any m >= k of the n < p shares yield the key, whatever the coefficients |
| `Threshold.CombinesToKeyExactly` | sdk/src/threshold.ts:113-118 | any nonempty choice of shares combines to the key exactly when the quotient of the polynomial by their points vanishes at 0 |
| `Threshold.OneShortCombinesExactly` | sdk/src/threshold.ts:113-118 | one share short of the quorum the result is the key exactly when the leading coefficient is a multiple of p |
| `Threshold.ExactlyOneExplanation` | sdk/src/threshold.ts:88-111 | any k - 1 share values and any candidate key are explained by exactly one coefficient vector |
| `Threshold.BelowQuorumNothingIsLearned` | sdk/src/threshold.ts:8-14 | whatever fewer than k authorities hold, every candidate key is explained by exactly p^(k - 1 - shares) coefficient vectors, the same number for each |
| `Sbox.InverseUndoes` | sdk/src/poseidon.ts:52-56 | when p mod 5 is not 1 a power map inverts the S-box on both sides |
| `Sbox.BijectiveExactly` | sdk/src/poseidon.ts:52-56 | the S-box is a bijection of the field exactly when p mod 5 is not 1 |

## Left out

- Contract.FinnesContract.Init: does not store verifying keys; `init` sets all six at once, so they are part of the deployment's verifier.
- Contract.FinnesContract.Shield: drops the event's ciphertexts and the missing-key and malformed-key errors of the verifier.
- Contract.FinnesContract.ConfidentialTransfer: drops the event's ciphertexts and the verifier's key errors.
- Contract.FinnesContract.SettleDvp: drops the verifier's key errors.
- Contract.FinnesContract.Unshield: drops the event's ciphertexts and the verifier's key errors.
- Contract.FinnesContract.MintRecovery: drops the verifier's key errors.
- Contract.FinnesContract.EscrowDeposit: drops the event's ciphertexts and the verifier's key errors.
- Contract.FinnesContract.SettleIntent: drops the verifier's key errors.
- Contract.FinnesContract.EscrowRefund: drops the event's ciphertexts and the verifier's key errors.
- Contract.FinnesContract.MoveToken: the token contract's own effect is a flag of the environment, because its code is not in the repository.
- Ledger.CallsHaveEvidence: takes the soundness of the proof system as its hypothesis.
- Wallet.BuiltShieldHolds: covers the signals of the modelled relation, not those of KYC, asset registry and encryption.
- Wallet.BuiltTransferHolds: covers the signals of the modelled relation, not those of KYC, sanctions, asset registry and encryption.
- Wallet.BuiltUnshieldHolds: covers the signals of the modelled relation, not those of KYC, sanctions, asset registry and encryption.
- Wallet.BuiltDvpHolds: covers the signals of the modelled relation, not those of KYC, sanctions, asset registry and encryption.
- Wallet.BuiltEscrowLegHolds: covers the signals of the modelled relation, not those of KYC, sanctions, asset registry and encryption.
- ValueLaws.WrappedFeeIsAccepted: the relation it satisfies leaves out KYC, sanctions, registry limit and encryption, which do not constrain the fee.
- ValueLaws.NoteNamedTwiceIsAccepted: the relation it satisfies leaves out KYC, sanctions, registry limit and encryption, which do not compare the inputs.
- ValueLaws.SharedNullifierCanConserve: the relation it satisfies leaves out KYC, sanctions, registry limit and encryption.
- ValueLaws.SecondEncodingIsAccepted: the relation it satisfies leaves out KYC, sanctions, registry limit and encryption; which scalars the host reads as one is a parameter.
- Instances.WrappedFeeUncovers: the relation its run satisfies leaves out KYC, sanctions, registry limit and encryption.
- Instances.NamingTwiceUncovers: the relation its run satisfies leaves out KYC, sanctions, registry limit and encryption.
- Instances.SecondEncodingConsumesTwice: the relation its run satisfies leaves out KYC, sanctions, registry limit and encryption.
- Instances.EachGapIsReached: the hash, the conversion and the verifier are chosen to satisfy the hypotheses; they are not Poseidon, the host's and Groth16.
- Ledger.NoDoubleConsumption: asks that each nullifier is stored in one encoding, which no code of the contract enforces; what happens otherwise is `HonestCalls.SpentOncePerEncoding`.
- ValueLaws.GuardedRunIsCovered: the guard is a sufficient one; `ValueLaws.StepCoverExactly` states the exact condition.
* Poseidon rounds, constants and MDS matrices: the hash is a parameter.
* Groth16 pairing arithmetic, point decoding, verifying-key storage and its errors: an accepted proof has a witness.
* KYC, sanctions, asset-registry and encryption constraints of the circuits: not needed, and leaving them out weakens nothing proved.
* Non-canonical encodings of public scalars other than nullifiers: the relation reads them as they stand; `next_index` is compared as a number.
* Which escrow notes a settlement spends: the code documents that inputs are not pinned to the intent.
* Real token balances: `register_asset` may overwrite a mapping, so value is accounted per asset id for the movements the contract orders; a failing token call is an input of the environment.
* NotInitialized errors of the individual getters: `init` sets every key, so `ensure_initialized` answers first.
* Storage lifetimes and TTL bumps, ciphertexts, keystream encryption, scanning and disclosure labels.
* RPC paging, the stateful indexer service, hex conversion, the transaction ledger for display, UI and fixtures.
* The range error of `commitNote`: notes within 64 bits are what the builders' lemmas ask for.
* Random coefficients of `splitViewKey`: they are a parameter, and secrecy is counted over them.
* `auditorPkFromShares`: the hash of the combined key.
* Shares at or beyond index p: n < p is assumed where reconstruction and secrecy are stated, as for any deployable quorum.
* The two-level loop of `combineShares`, the search of `frozenNonMembership` and the opening of its low node are split into helper methods.
