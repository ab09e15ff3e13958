# Bloom Signer: verified model of its stateful cores

This project models, in Dafny, the parts of the Bloom Signer that hold state and must never go
wrong over a whole run, and proves what they promise:

- the **derivation registry**, a persistent allocator of BIP-44 children with a lifecycle, counters,
  permanent tombstones and a hash-chained event log;
- **wallet custody**, one wallet key wrapped under many credentials and one recovery factor;
- the **ceremony service**, single-use ceremonies with durable outcomes, a credential authority
  generation that fences out stale ones, cross-surface pairing and the exposure of the remote surface;
- the **local backend registry**, whose in-memory index must agree with its backup on disk;
- the pieces they rest on: derivation paths, the BIP-32 scalar chain, index skipping and the
  provider-call limiter.

## How it is built

Each component has a module of values and functions that say what every operation does to the
state, and theorem modules that reason about all steps and all runs of those functions. Where the
program updates state in place (registry tables, custody backup, ceremony maps, backend state,
surface status, call queue) there is also a class whose methods do the same updates step by step,
with the program's loops, snapshots and rollbacks; each method is proved equal to the function it
implements, so every theorem about runs is a theorem about the methods.

| component | values and operations | theorems | imperative form |
|---|---|---|---|
| paths | `Limits`, `Decimal`, `Paths` | `Paths` | |
| derivation registry | `EventChain`, `DerivationRegistry` | `RegistryInvariants`, `RegistryTheorems`, `RegistryReasons`, `RegistryRetry`, `RegistryAnswers` | `Registry` |
| custody | `Custody` | `CustodyTheorems`, `CustodyAnswers`, `CustodyMetadata`, `CustodyExhaustion` | `WalletCustody` |
| ceremonies and pairing | `CeremonyState`, `Ceremony`, `Pairing`; over custody `CeremonyVaults` | `CeremonyRuns`, `CeremonyTheorems`, `CeremonyAnswers`, `PairingAnswers`, `CeremonyStatus`, `CeremonyFinality`, `CeremonyBindings`, `CeremonyCustody`, `CeremonyRefinement`, `PairingTheorems`; runs in `CeremonyScripts`, `CeremonyAlias`, `CeremonyReuse` | `CeremonyService` |
| exposure | `Exposure` | `Exposure`, `ExposureAnswers` | `Exposure` |
| local backend | `LocalBackend` | `LocalBackendTheorems`, `LocalBackendAllocation`, `LocalBackendPaths`, `LocalBackendAnswers`, `LocalBackendRestore`, `LocalBackendActivation`, `LocalBackendRetry` | `LocalSignerBackend` |
| scalar chain, limiter | `Bip32`, `RateLimiter` | same, `Bip32Paths` | `RateLimiter` |

The modules named `Answers` say of every operation, in the fields of the state and the request, when
it is accepted and what it then leaves, and carry that over runs: nothing happens past its deadline,
tombstones and finalized operations stay ended, a withdrawn surface stays closed.

What the program calls and the model does not compute enters as parameters: the hash, the
descriptor digest, the invalid-child predicate and the audit recorder of the registry; nonces and
whether a file write succeeds in custody and the backend; which key opens the backend's root and what
it derives from each family and path; whether proofs verify, what keys they
yield and whether each database transaction commits in the ceremony service; clocks everywhere.
Authenticated encryption is symbolic: a sealed blob opens only under its own key and associated
data, and the digests that custody compares are collision-free. Public methods are atomic steps.

## What the code does that its comments do not say

- `derivation_registry.rs` says in lines 19 and 1109 that only ACTIVATED accounts are listed; its
  query also lists RETIRED ones, and the model follows the query (`Listed`).
- An ordinary reservation reads its counter through a 32-bit cast. It takes the least usable index
  at or above the counter exactly while the counter is below 2^32 (`OrdinaryTakesLeast`); a run
  that wraps is `CounterWraps`.
- The event hash concatenates wallet and operation without a separator: two accepted logs with one
  head agree on labels and on the joined text, and on the two names exactly when the wallets have
  equal length (`HashedFields`, `WalletBoundaryNotHashed`).
- `recover_replace_credentials` past the last generation returns an error after it has changed the
  backup in memory, while the file keeps the old one (`ExhaustionSplitsStore`); a run reaches that
  generation (`LastGenerationReached`). Every other refusal leaves memory and disk alone
  (`RefusalChangesNothingExactly`), and a step keeps the store sound exactly when it is not such a
  recovery (`StepHealthyExactly`). The ceremony service undoes it by restoring its snapshot.
- A pairing may share an operation id with an armed ceremony, and then completes an operation that
  already failed (`AliasedTerminalReopens`). A terminal outcome is final exactly when no live
  pairing shares its operation (`TerminalFinalExactly`).
- Cancelling looks at the armed ceremony before it looks at receipts. After such a pairing has
  completed an operation that is still armed, cancelling it succeeds and overwrites its durable
  status (`CompletedOperationCancelled`). After any run a completed operation refuses cancellation
  exactly when the process remembers the completion, a pairing is live under it, or it is no longer
  armed (`CancelRefusedExactly`).
- Removing a credential drops its binding whoever holds it: a step keeps bindings equal to active
  wraps exactly when it is not the removal of an id that another wallet has bound
  (`StepKeepsBindingsExactly`); a run that breaks them is `ReuseBreaksBindings`.
- `register_child` enters its key under the operation without looking whether one is pending, and
  describing a pending key needs the open root. A repeated allocation under a pending operation
  answers the first key exactly when the request is valid, the root is unlocked and no other key has
  been registered under it since (`RetryAnswersExactly`); the two failing inputs are
  `RegistrationTakesOperation` and `LockedRetryRefused`.
- Registration by description compares the description with the key and derives nothing. Activation
  derives every registered key, so after any run a restarted backend opens under the root's key
  exactly when all of them are what their derivations give (`RestartThenActivate`); a step keeps that
  exactly when it registers no other (`StepKeepsTruthfulExactly`), and one that does blocks
  activation until it is tombstoned (`MisdescribedBlocksActivation`).
- The startup check compares generations, and only a recovery moves them. An earlier backup put back
  into storage passes exactly when no recovery was committed since, so a credential added
  or revoked after it goes unnoticed there (`RollbackRefusedExactly`).
- Rust's `u32` parsing accepts a leading plus, so the allocated-path validator accepts a text that
  no printer prints (`PlusSignAccepted`); being printed is exactly being accepted without a plus.
- The limiter's bound survives every clock that does not step back. A call that steps back keeps it
  for every history exactly while the clock has not passed its first second (`ClockStepExactly`).

## Model

| member | source | states |
|---|---|---|
| Paths.EvmPathParses | crates/bloom-signer-backend-local/src/lib.rs:1451-1468 | Both path parsers recover exactly the account and index that the EVM printer was given, for all 32-bit numbers. |
| Paths.SolanaPathParses | crates/bloom-signer/src/bip39_signing.rs:135-172 | Both parsers recover the account of a printed Solana path below 2^31. |
| Paths.PetalPathParses | crates/bloom-signer-backend-local/src/lib.rs:1469-1494 | The backend parser recovers account and index of a printed Petal path. |
| Paths.PrintersAgree | crates/bloom-signer-derive/src/slip10.rs:114-150 | The derivers' printers and the registry's print the same text for the same numbers, in all three families. |
| Paths.EvmPathInjective | crates/bloom-signer/src/derivation_registry.rs:1149-1159 | Equal EVM paths come from equal account and index. |
| Paths.SolanaPathInjective | crates/bloom-signer/src/derivation_registry.rs:1149-1159 | Equal Solana paths come from equal accounts. |
| Paths.PetalPathInjective | crates/bloom-signer-derive/src/slip10.rs:133-150 | Equal Petal paths come from equal account and index. |
| Paths.FamiliesDisjoint | crates/bloom-signer/src/derivation_registry.rs:1149-1159 | No path is printed by two of the three families. |
| Paths.EvmValidatorExact | crates/bloom-signer-api/src/wallet_seed.rs:238-300 | Any text is an EVM account path printed from numbers below 2^31 if and only if it is accepted and holds no plus. |
| Paths.SolanaValidatorExact | crates/bloom-signer-api/src/wallet_seed.rs:238-300 | The same equivalence for Solana account paths. |
| Paths.EvmPathValidExactly | crates/bloom-signer-api/src/wallet_seed.rs:238-300 | A printed EVM path validates if and only if both of its numbers are below 2^31. |
| Paths.SolanaPathValidExactly | crates/bloom-signer-api/src/wallet_seed.rs:238-300 | A printed Solana path validates if and only if its account is below 2^31. |
| Paths.AllocatedIsBip32 | crates/bloom-signer-api/src/crypto.rs:193-216 | Every accepted account path is accepted by the general BIP-32 path validator. |
| Paths.PetalPathValid | crates/bloom-signer-api/src/crypto.rs:193-216 | A Petal path is a BIP-32 path but never an allocated Solana account path. |
| Paths.PlusSignAccepted | crates/bloom-signer-api/src/wallet_seed.rs:271-284 | A text with a leading plus is accepted although no account prints it. |
| EventChain.VerifyEventChain | crates/bloom-signer/src/derivation_registry.rs:251-292 | The walk with a running hash accepts exactly the logs that are linked and hashed throughout, and names the first defect of the others. |
| EventChain.AppendAccepted | crates/bloom-signer/src/derivation_registry.rs:203-247 | Appending to an accepted log gives an accepted log. |
| EventChain.EqualHeadsAgree | crates/bloom-signer/src/derivation_registry.rs:203-292 | Two accepted logs of one length and one head agree on everything hashed, entry by entry, or exhibit a hash collision. |
| EventChain.HashedFields | crates/bloom-signer/src/derivation_registry.rs:220-227 | Agreement on hashed text fixes both labels and the joined names; the names agree exactly when the wallets have equal length. |
| EventChain.WalletBoundaryNotHashed | crates/bloom-signer/src/derivation_registry.rs:220-227 | Under every hash two accepted logs with different wallets share a head. |
| EventChain.AppendLegal | crates/bloom-signer/src/derivation_registry.rs:1169-1189 | Logging an edge of the lifecycle graph from the replayed state keeps the log legal, moves that operation's replay to the new state and no other's. |
| Registry.NextValidIndex | crates/bloom-signer-derive/src/allocation.rs:17-30 | The loop returns the first index that is not invalid with every skipped index in order, and gives up only when all up to 2^32 are invalid. |
| Registry.Registry.PrepareAllocationAt | crates/bloom-signer/src/derivation_registry.rs:501-779 | The statement-by-statement transaction with rollback has exactly the effect and answer of the reservation function. |
| Registry.Registry.CommitIndex | crates/bloom-signer/src/derivation_registry.rs:795-847 | Equal to the commit-index function, retry and rollback included. |
| Registry.Registry.CommitAccount | crates/bloom-signer/src/derivation_registry.rs:853-925 | Equal to the commit-account function, descriptor check included. |
| Registry.Registry.Activate | crates/bloom-signer/src/derivation_registry.rs:929-972 | Equal to the activation function. |
| Registry.Registry.Retire | crates/bloom-signer/src/derivation_registry.rs:976-1011 | Equal to the retirement function. |
| Registry.Registry.Tombstone | crates/bloom-signer/src/derivation_registry.rs:1017-1107 | Equal to the tombstone function, with the reason of the former state. |
| Registry.Registry.NextAccountNumber | crates/bloom-signer/src/derivation_registry.rs:416-459 | The computed maximum is the next account number of the tables. |
| RegistryInvariants.RunKeepsInvariant | crates/bloom-signer/src/derivation_registry.rs:501-1107 | Every run keeps rows sound, paths unique, indexes below counters, live rows within the cap, rows tombstoned exactly when their index is buried, and the log accepted, legal and replaying to the rows. |
| RegistryInvariants.RunLater | crates/bloom-signer/src/derivation_registry.rs:9-25 | Over any run no row, tombstone or event is lost or rewritten, states only move forward and counters never decrease. |
| RegistryTheorems.NoPathTwice | crates/bloom-signer/src/derivation_registry.rs:662-677 | In every reachable state two operations of one wallet never hold the same path, nor the same place and index, so the schema's unique constraints never fire. |
| RegistryTheorems.LogReplaysToRows | crates/bloom-signer/src/derivation_registry.rs:203-292 | In every reachable state the log is accepted, every step follows the lifecycle graph, and replaying it gives each operation's current state. |
| RegistryTheorems.ListedAccountsDescribed | crates/bloom-signer/src/derivation_registry.rs:1110-1145 | Every listed account has a descriptor whose digest is its fingerprint, and its index is not buried. |
| RegistryTheorems.TombstonedForever | crates/bloom-signer/src/derivation_registry.rs:1013-1107 | A tombstoned row is never changed again and its index stays buried, whatever runs. |
| RegistryReasons.ReasonTellsHistory | crates/bloom-signer/src/derivation_registry.rs:1045-1078 | In every reachable state a tombstoned operation's recorded reason is the formerly-live one exactly when its log once activated it. |
| RegistryTheorems.FrozenDescriptor | crates/bloom-signer/src/derivation_registry.rs:853-925 | From ACCOUNT_COMMITTED on no run rewrites a row's descriptor or identity. |
| RegistryTheorems.OrdinaryTakesLeast | crates/bloom-signer/src/derivation_registry.rs:602-676 | An ordinary reservation takes the least index at or above the counter that is neither buried nor invalid, exactly while the counter is below 2^32; its EVM path validates exactly when the index is below 2^31. |
| RegistryTheorems.CounterWraps | crates/bloom-signer/src/derivation_registry.rs:602-609 | A reachable state in which the counter is 2^32 and the next ordinary reservation gets index 0. |
| RegistryTheorems.NextNumberExact | crates/bloom-signer/src/derivation_registry.rs:416-459 | The next account number is exactly one more than the highest number used by any EVM row or tombstone under account 0 or any Solana row, or 0. |
| RegistryTheorems.NextNumberNeverFalls | crates/bloom-signer/src/derivation_registry.rs:416-459 | Over every run the next account number does not fall. |
| RegistryTheorems.FreshEvmTarget | crates/bloom-signer/src/derivation_registry.rs:629-677 | A new operation targeting the next number in the EVM family never conflicts: its answer is determined by cap, child validity and audit. |
| RegistryTheorems.FreshSolanaTarget | crates/bloom-signer/src/derivation_registry.rs:551-677 | Nor does one targeting it as a Solana account; it gets that account's path or fails only by the audit or the exhausted index space. |
| RegistryTheorems.NextNumberAdvances | crates/bloom-signer/src/derivation_registry.rs:632-656 | After a success or an invalid-child answer on it the next number is strictly larger. |
| RegistryRetry.RerunAfterCrash | crates/bloom-signer/src/derivation_registry.rs:529-549 | After a crash behind any committed step, and any commands since, rerunning prepare, commit_index, commit_account and activate gives the public account of the uninterrupted run, unless and only unless the account was retired or tombstoned. |
| RegistryAnswers.TombstoneExactly | crates/bloom-signer/src/derivation_registry.rs:1017-1107 | In every reachable state a tombstone is accepted if and only if the row exists and is tombstoned already or the audit consents; the row is then TOMBSTONED, its index newly buried with the reason of its former state, and one event logged, which the log replays to. |
| RegistryAnswers.TombstoneEnds | crates/bloom-signer/src/derivation_registry.rs:1013-1107 | After an accepted tombstone and any further run, committing, activating and retiring the operation are refused, its index stays buried, and no new reservation is answered it. |
| RegistryAnswers.CommitIndexExactly | crates/bloom-signer/src/derivation_registry.rs:795-847 | Accepted if and only if the row is PREPARED and the audit consents or it has passed that step and not ended; exactly that row and one event change. |
| RegistryAnswers.CommitAccountExactly | crates/bloom-signer/src/derivation_registry.rs:853-925 | Accepted if and only if the descriptor digests to the fingerprint and the row is INDEX_COMMITTED with the audit's consent, ACCOUNT_COMMITTED or ACTIVATED; the descriptor is written once. |
| RegistryAnswers.ActivateExactly | crates/bloom-signer/src/derivation_registry.rs:929-972 | In every reachable state accepted if and only if the row is ACCOUNT_COMMITTED with the audit's consent or ACTIVATED, and answered with the account of the row. |
| RegistryAnswers.RetireExactly | crates/bloom-signer/src/derivation_registry.rs:976-1011 | Accepted if and only if the row is ACTIVATED and the audit consents; it is then RETIRED with one event. |
| RegistryAnswers.PrepareAgainExactly | crates/bloom-signer/src/derivation_registry.rs:529-549 | A reserved operation is answered its row, unchanged, if and only if the request agrees with it. |
| RegistryAnswers.PrepareNewExactly | crates/bloom-signer/src/derivation_registry.rs:551-779 | In every reachable state a new operation is reserved if and only if its place has fewer than 100 live operations, an index is to be taken whose path is free, and the audit consents; its row is then the PREPARED one of that index. |
| RegistryAnswers.PrepareRefusedLeaves | crates/bloom-signer/src/derivation_registry.rs:632-656 | A refused reservation changes nothing, but that an unburied target which is an invalid child is buried as one. |
| RegistryAnswers.RecordInvalidExactly | crates/bloom-signer/src/derivation_registry.rs:465-499 | Recording an invalid child buries its index unless it is buried already. |
| RegistryAnswers.NextAccountExactly | crates/bloom-signer/src/derivation_registry.rs:416-459 | In every reachable state the next account number is answered if and only if it is below 2^31, above every used number and one past the last of them. |
| CustodyTheorems.CredentialUnlocksExactly | crates/bloom-signer/src/custody.rs:528-557 | A credential unlocks if and only if it is active and the key is its latest, and then yields the registered root, seed and WKEK. |
| CustodyTheorems.RecoveryUnlocksExactly | crates/bloom-signer/src/custody.rs:559-588 | The same for the current recovery factor and no earlier one. |
| CustodyTheorems.SessionExactly | crates/bloom-signer/src/custody.rs:815-829 | An unlocked session is accepted if and only if it carries the registered secrets. |
| CustodyTheorems.RewrapExact | crates/bloom-signer/src/custody.rs:749-775 | The rewrap succeeds if and only if every active credential's key is given, and replaces exactly the active wraps. |
| CustodyTheorems.StepRefines | crates/bloom-signer/src/custody.rs:226-801 | Each operation answers as the table of factors does, moves the backup to the next table, and leaves memory and disk alone when refused or not persisted. |
| CustodyTheorems.StepHealthyExactly | crates/bloom-signer/src/custody.rs:270-300 | A step leaves the backup representing the table, and disk equal to memory, if and only if it is not a valid recovery past the last generation. |
| CustodyTheorems.RunRefines | crates/bloom-signer/src/custody.rs:226-801 | Over every run without such a recovery the backup represents the table's own run. |
| CustodyTheorems.UnlockAfterAnyRun | crates/bloom-signer/src/custody.rs:226-588 | From registration, after any run with failing writes: exactly the table's factors unlock the original secrets, a factor always remains, disk equals memory and restore accepts the backup. |
| CustodyTheorems.RestoreAccepts | crates/bloom-signer/src/custody.rs:994-1011 | The shape check accepts every backup that represents a table. |
| CustodyTheorems.SpentForever | crates/bloom-signer/src/custody.rs:596-663 | A revoked or replaced credential id is never active again. |
| CustodyTheorems.GenerationCountsRecoveries | crates/bloom-signer/src/custody.rs:286-300 | The authority generation is the initial one plus the number of recoveries that went through. |
| CustodyTheorems.RefusalChangesNothingExactly | crates/bloom-signer/src/custody.rs:270-300 | A refused operation leaves the store unchanged if and only if it is not such a recovery. |
| CustodyExhaustion.ExhaustionSplitsStore | crates/bloom-signer/src/custody.rs:270-300 | Such a recovery is answered with an error, yet memory unlocks by the new credential only and the file by the old ones only. |
| CustodyExhaustion.LastGenerationReached | crates/bloom-signer/src/custody.rs:286-295 | A run from registration stays healthy and ends at the last generation, where the next recovery is of this kind. |
| CustodyAnswers.RegisterBip39Exactly | crates/bloom-signer/src/custody.rs:338-380 | A mnemonic wallet registers if and only if its entropy, seed and keys have the right lengths; it has the BIP-39 profile with its entropy length, and exactly its first credential unlocks. |
| CustodyAnswers.RegisterImportedExactly | crates/bloom-signer/src/custody.rs:305-333 | The same for an imported scalar, under the imported profile and without an entropy length. |
| CustodyAnswers.RunKeepsWallet | crates/bloom-signer/src/custody.rs:226-801 | No run changes whose wallet a backup is, its profile or its entropy length. |
| CustodyAnswers.AddExactly | crates/bloom-signer/src/custody.rs:590-633 | A credential is added if and only if its key has 32 bytes, its id is new, the session carries the wallet's secrets and the write goes through; then it unlocks too and nothing else changes. |
| CustodyAnswers.RevokeAnswers | crates/bloom-signer/src/custody.rs:635-663 | A credential is revoked if and only if it is known, the write goes through, and, while it unlocks, another credential or a recovery factor does too. |
| CustodyAnswers.RevokeLeaves | crates/bloom-signer/src/custody.rs:635-663 | Then none of its keys unlocks and every other key does as before; a refusal changes nothing. |
| CustodyAnswers.SetRecoveryExactly | crates/bloom-signer/src/custody.rs:665-696 | A recovery factor is set by a session of the wallet and is then the only one. |
| CustodyAnswers.ReplaceExactly | crates/bloom-signer/src/custody.rs:226-301 | After an accepted recovery exactly the new credential and the new recovery factor unlock, one generation on. |
| CustodyAnswers.RekeyExactly | crates/bloom-signer/src/custody.rs:715-801 | A rekey needs a key for everything that unlocks, and exactly these then unlock in their places. |
| CustodyMetadata.RootAadInjective | crates/bloom-signer/src/custody.rs:1037-1062 | For one wallet the root's associated data determines the version, and from format 2 on the profile and entropy bits. |
| CustodyMetadata.EditsDetectedExactly | crates/bloom-signer/src/custody.rs:1021-1062 | No edit of version, profile or entropy bits survives an unlock if and only if the backup is at format 2 or later. |
| CustodyMetadata.VersionEditAccepted | crates/bloom-signer/src/custody.rs:994-1011 | Restore refuses every change of the format version alone while a credential is active, and otherwise exactly the zero version and those below some wrap's. |
| CustodyMetadata.WrapEditAccepted | crates/bloom-signer/src/custody.rs:994-1011 | One wrap may be replaced if and only if the new one has a 24-byte nonce and is of the backup's version, or not newer when inactive. |
| CustodyMetadata.UnlockedRootFits | crates/bloom-signer/src/custody.rs:831-877 | Whatever backup was restored, an unlock answers 32 bytes for an imported scalar, and for BIP-39 entropy one of the five lengths, the recorded one. |
| WalletCustody.WalletCustody.UnlockWithCredential | crates/bloom-signer/src/custody.rs:528-557 | The search for the active wrap gives the answer of the unlock function. |
| WalletCustody.WalletCustody.AddCredential | crates/bloom-signer/src/custody.rs:590-633 | The edit with rollback equals the add function on memory and disk. |
| WalletCustody.WalletCustody.RevokeCredential | crates/bloom-signer/src/custody.rs:635-663 | The counting and searching loops equal the revoke function. |
| WalletCustody.WalletCustody.RecoverReplaceCredentials | crates/bloom-signer/src/custody.rs:226-301 | The deactivation loop and its overflow exit equal the replace function, fields left behind included. |
| WalletCustody.WalletCustody.RekeyWrapFormat | crates/bloom-signer/src/custody.rs:715-801 | Building the replacement wrap by wrap equals the rekey function. |
| WalletCustody.WalletCustody.RewrapActive | crates/bloom-signer/src/custody.rs:749-775 | The loop over wraps stops with the first refusal, or returns all wraps rewrapped, as the rewrap function says. |
| CeremonyTheorems.CommitAtCurrentGeneration | crates/bloom-signer/src/engine.rs:1986-2026 | Every commit was prepared at the generation current at commit, and raises the durable generation of exactly its own wallet by one exactly when it is a recovery. |
| CeremonyTheorems.RunKeepsInvariant | crates/bloom-signer/src/ceremony.rs:2327-2491 | Every run keeps memory equal to storage, stored wallets equal to the generation fence, and completed results equal to receipts. |
| CeremonyTheorems.RestartLosesNothingDurable | crates/bloom-signer/src/engine.rs:1841-1878 | After any run the service can start again, with the wallets and bindings it had. |
| CeremonyTheorems.RollbackRefusedExactly | crates/bloom-signer/src/engine.rs:1855-1875 | An earlier backup of a wallet put back into storage, even of one deleted since, passes the startup check if and only if no recovery of the wallet was committed in between. |
| CeremonyTheorems.GenerationCountsRecoveries | crates/bloom-signer/src/engine.rs:1986-2026 | A wallet's durable generation counts its committed recoveries over every run, across deletion and restart. |
| CeremonyTheorems.ArmedBeforeRecoveryNeverCommits | crates/bloom-signer/src/ceremony.rs:2305-2323 | A ceremony still armed after a committed recovery of its wallet can never commit. |
| CeremonyTheorems.PairedBeforeRecoveryNeverCommits | crates/bloom-signer/src/ceremony.rs:969-973 | Nor can a pairing prepared before it. |
| CeremonyAnswers.PrepareExactly | crates/bloom-signer/src/ceremony.rs:1395-1560 | A ceremony is armed if and only if it is admissible, unrecorded, alone on its wallet unless a recovery, and creates no wallet that exists; an armed one is answered again to the same request only. |
| CeremonyAnswers.RunKeepsOneSession | crates/bloom-signer/src/ceremony.rs:3919-3945 | Over every run, of two ceremonies armed on one wallet one is a recovery. |
| CeremonyAnswers.CompletionExactly | crates/bloom-signer/src/ceremony.rs:1987-2506 | An unrecorded completion succeeds if and only if its ceremony is armed, unexpired, of its kind and id, at the current generation, proven, and its edit and commit go through; the commit writes exactly the armed ceremony's receipt and edit. |
| CeremonyAnswers.EditExactly | crates/bloom-signer/src/ceremony.rs:2788-3400 | For every kind of ceremony: when its edit of wallets and bindings is made, by bound credentials, keys and ids, and what it leaves. |
| CeremonyAnswers.FailureExactly | crates/bloom-signer/src/ceremony.rs:2287-2667 | Any other completion consumes the armed ceremony, records Expired or Failed while storage works, and changes nothing else. |
| CeremonyAnswers.LateCompletionChangesNothing | crates/bloom-signer/src/ceremony.rs:2305-2323 | At or after its deadline a ceremony is refused, nothing of it is applied, and it ends Expired. |
| CeremonyAnswers.RecordAnsweredExactly | crates/bloom-signer/src/ceremony.rs:1987-2030 | A recorded operation is answered its receipt, unchanged: an approval to its own ceremony, a custody result to its kind while it is deliverable. |
| CeremonyAnswers.CancelExactly | crates/bloom-signer/src/ceremony.rs:2508-2580 | When a cancellation is accepted: by remembered completions, live pairings and their receipts, armed ceremonies and durable outcomes. |
| CeremonyAnswers.CancelLeaves | crates/bloom-signer/src/ceremony.rs:2508-2580 | An accepted one of a pairing or armed ceremony removes exactly that and records Cancelled. |
| CeremonyStatus.ReceiptsKept | crates/bloom-signer/src/engine.rs:2302-2313 | A step rewrites no receipt and adds at most one, under an operation that had none. |
| CeremonyStatus.AnswerIsOnRecord | crates/bloom-signer/src/ceremony.rs:1987-2279 | Whatever receipt a completion answers is the durable receipt of that operation. |
| CeremonyStatus.DestinationAnswerIsOnRecord | crates/bloom-signer/src/ceremony.rs:930-1085 | So is what a pairing's destination leg answers. |
| CeremonyStatus.StatusStep | crates/bloom-signer/src/ceremony.rs:2669-2699 | One step moves any operation's status only along Missing, Pending, outcome; the sole exception is a live pairing under the same id, and nothing moves a completed one. |
| CeremonyStatus.CompletedForever | crates/bloom-signer/src/ceremony.rs:2669-2699 | Completed is final with the same receipt over every run, restarts included. |
| CeremonyFinality.TerminalForever | crates/bloom-signer/src/ceremony.rs:2592-2615 | A terminal outcome without a live pairing under its operation is final over every run. |
| CeremonyFinality.TerminalFinalExactly | crates/bloom-signer/src/ceremony.rs:2508-2615 | In every reachable state a terminal outcome is final over all further runs if and only if no live pairing shares its operation. |
| CeremonyFinality.RunEndedUnpaired | crates/bloom-signer/src/ceremony.rs:1144-1159 | In every reachable state an operation recorded as cancelled or already registered has no live pairing. |
| CeremonyStatus.OrdinaryStatusEdges | crates/bloom-signer/src/ceremony.rs:1441-1468 | After any run from empty without such a pairing, the next step follows the ceremony's own edges. |
| CeremonyStatus.RefusedCompletionIsTerminal | crates/bloom-signer/src/ceremony.rs:2617-2667 | While storage works, a completion that commits nothing leaves the operation Expired past its deadline and Failed before it, never missing. |
| CeremonyStatus.CancelEndsCeremony | crates/bloom-signer/src/ceremony.rs:2508-2580 | Without a live pairing, an accepted cancellation of an operation without a receipt is terminal, and Cancelled if it was armed. |
| CeremonyStatus.CompletedRefusesCancelExactly | crates/bloom-signer/src/ceremony.rs:2508-2556 | Cancelling a completed, unpaired operation is refused with nothing changed if and only if the process remembers the completion or the operation is not armed. |
| CeremonyFinality.CancelRefusedExactly | crates/bloom-signer/src/ceremony.rs:2508-2556 | In every reachable state, cancelling a completed operation is refused with nothing changed if and only if the process remembers the completion, a pairing is live under it, or it is not armed. |
| CeremonyAlias.CompletedOperationCancelled | crates/bloom-signer/src/ceremony.rs:2545-2556 | A run from empty after which a completed operation is cancelled with success and its durable status rewritten. |
| CeremonyAlias.AliasedTerminalReopens | crates/bloom-signer/src/ceremony.rs:607-617 | A run from empty in which a pairing sharing an id takes a failed operation to Completed. |
| CeremonyBindings.StepKeepsBindingsExactly | crates/bloom-signer/src/ceremony.rs:3148-3327 | A step keeps bound credentials equal to active wraps if and only if it does not remove a credential another wallet has bound. |
| CeremonyBindings.RunKeepsBindings | crates/bloom-signer/src/ceremony.rs:3148-3327 | When ids are not reused across wallets every run keeps bindings exact and known ids separate. |
| CeremonyBindings.BoundCredentialsAreActiveWraps | crates/bloom-signer/src/ceremony.rs:1365-1393 | Under that hypothesis, from an empty service, a credential is bound to a wallet if and only if it is an active wrap of its custody, in memory and storage. |
| CeremonyReuse.ReuseBreaksBindings | crates/bloom-signer/src/ceremony.rs:3225-3247 | A run from empty that keeps bindings exact, and one more removal that succeeds and breaks them. |
| CeremonyCustody.ApplyMatches | crates/bloom-signer/src/ceremony.rs:2788-3400 | Every ceremony's edit, made by custody on encrypted backups, succeeds exactly when its edit on the tables does and keeps each backup representing its table. |
| CeremonyRefinement.RunSimulates | crates/bloom-signer/src/ceremony.rs:1987-2506 | Over every run the service over custody backups, which opens wallets and decides its own commits, keeps the same books, ceremonies and pairings as the service over tables, and its backups represent those tables in memory and storage. |
| CeremonyRefinement.AnswersAgree | crates/bloom-signer/src/ceremony.rs:794-1085 | After any run the next completion, source leg or destination leg is answered over backups exactly as over tables. |
| CeremonyRefinement.EveryWalletIsBacked | crates/bloom-signer/src/ceremony.rs:3874-3917 | Over every run each wallet's backup, in memory and in storage, unlocks by exactly its table's credentials and recovery factor, in both cases to its own secrets, carries the generation of the durable fence and is accepted by restore. |
| CeremonyRefinement.BoundMeansUnlocks | crates/bloom-signer/src/ceremony.rs:1365-1393 | Without id reuse, a credential is bound to a wallet if and only if some key of it unlocks that wallet's backup. |
| PairingAnswers.StartExactly | crates/bloom-signer/src/ceremony.rs:588-669 | A pairing opens if and only if surface and key are fit, its deadline lies ahead by at most ten minutes, its operation is unrecorded and free, and fewer than 64 are live; the same opening is answered again. |
| PairingAnswers.PrepareSourceExactly | crates/bloom-signer/src/ceremony.rs:671-792 | A pairing is prepared if and only if its wallet exists and is busy in no other, it is unexpired and of this operation and terms, and the surface offers a credential of the wallet; exactly its terms and recipient keys are then set. |
| PairingAnswers.SourceExactly | crates/bloom-signer/src/ceremony.rs:794-890 | A source leg succeeds if and only if the pairing is unexpired with fewer than five attempts and it unlocks now, or this request has unlocked it before. |
| PairingAnswers.SourceLeaves | crates/bloom-signer/src/ceremony.rs:794-890 | What every source leg leaves: the attempt counted, the recipient key spent once it is used, and the wallet's secrets only if it unlocked. |
| PairingAnswers.DestinationExactly | crates/bloom-signer/src/ceremony.rs:930-1085 | A destination leg writes a receipt if and only if it enrols: an unexpired pairing, its own source leg's capability, a source credential still bound, the current generation, a valid attestation and the unlocked wallet. |
| PairingAnswers.DestinationLeaves | crates/bloom-signer/src/ceremony.rs:892-928 | What every destination leg leaves in the pairing table, dropping exactly the pairings that can never complete. |
| PairingAnswers.AlreadyExactly | crates/bloom-signer/src/ceremony.rs:1095-1160 | A pairing ends without an enrolment if and only if its capability is shown in time for a wallet that already has a passkey there. |
| PairingAnswers.NothingHappensLate | crates/bloom-signer/src/ceremony.rs:800-945 | Over every run from empty no wallet is unlocked and no passkey enrolled at or after the deadline its pairing was opened with, and no receipt is written at or after the deadline of the ceremony it consumes. |
| PairingAnswers.ExpiryExactly | crates/bloom-signer/src/ceremony.rs:1162-1170 | Expiry drops exactly the pairings past their deadline or out of attempts, clearing drops all. |
| PairingTheorems.RunBounded | crates/bloom-signer/src/ceremony.rs:588-669 | Every reachable state has at most 64 pairings with distinct operations, 4 unlocked, 5 attempts each. |
| PairingTheorems.RunLinked | crates/bloom-signer/src/ceremony.rs:794-1085 | With fresh pairing ids the events of any run stay orderly: no unlock or enrolment repeats, and each follows its own predecessor. |
| PairingTheorems.PairingLife | crates/bloom-signer/src/ceremony.rs:588-1085 | From an empty service: the bounds, at most one unlock and one enrolment for each pairing, and an enrolment only after the same pairing's source leg. |
| CeremonyService.SignerCeremonyService.CompleteCeremony | crates/bloom-signer/src/ceremony.rs:1987-2279 | Consuming, applying in place, committing or restoring the snapshot, and recording the failure equal the completion function. |
| CeremonyService.SignerCeremonyService.ApplyCustodyCompletion | crates/bloom-signer/src/ceremony.rs:2287-2506 | Edits that fail part-way are undone completely: the method equals the all-or-nothing function. |
| CeremonyService.SignerCeremonyService.ApplyProof | crates/bloom-signer/src/ceremony.rs:2788-3400 | The in-place wallet and binding edits of each ceremony kind reach the state the function gives whenever they succeed. |
| CeremonyService.SignerCeremonyService.CancelCeremony | crates/bloom-signer/src/ceremony.rs:2508-2580 | Equal to the cancel function, live pairings first. |
| CeremonyService.SignerCeremonyService.PairStart | crates/bloom-signer/src/ceremony.rs:588-669 | Equal to the opening function. |
| CeremonyService.SignerCeremonyService.PairPrepareSource | crates/bloom-signer/src/ceremony.rs:671-792 | Equal to the source-preparation function. |
| CeremonyService.SignerCeremonyService.PairCompleteSource | crates/bloom-signer/src/ceremony.rs:794-890 | Equal to the source-leg function; the recipient key is consumed before it is tried. |
| CeremonyService.SignerCeremonyService.PairCompleteDestination | crates/bloom-signer/src/ceremony.rs:892-1085 | Equal to the destination-leg function: the counted attempt, the wallet edit, commit, snapshot restored and dead pairings removed. |
| CeremonyService.SignerCeremonyService.TryDestination | crates/bloom-signer/src/ceremony.rs:945-1011 | The attempt edits pairing, wallet and binding in place; a wrap may be added before its binding is refused, and a success is the function's edit. |
| Exposure.ActiveMeansAgreed | crates/bloom-signer/src/ceremony.rs:1174-1314 | Over every run the remote surface is Active only if desired and effective mode are both remote at one revision and TLS and routing are ready. |
| Exposure.LifecycleChangeRaisesRevision | crates/bloom-signer/src/ceremony.rs:1174-1314 | In every reachable state a lifecycle change strictly raises the revision, revisions never fall and the installed identity never changes. |
| Exposure.StaleReportChangesNothing | crates/bloom-signer/src/ceremony.rs:1181-1183 | A report for another revision, and every refusal, changes nothing. |
| Exposure.StartFencesRemote | crates/bloom-signer/src/ceremony.rs:513-527 | After a successful start the remote surface is not Active and nothing is claimed ready. |
| Exposure.ReportDecides | crates/bloom-signer/src/ceremony.rs:1174-1248 | Whatever the history, an accepted report makes the surface Active if and only if remote is desired and the report says open and ready. |
| Exposure.RevisionsCountSteps | crates/bloom-signer/src/ceremony.rs:1192-1246 | Revisions grow by at most one a step, so 64 bits suffice for fewer than 2^64 steps. |
| ExposureAnswers.ModeChangedExactly | crates/bloom-signer/src/ceremony.rs:1257-1313 | Another mode is accepted if and only if the commit goes through, withdrawal strands no wallet and granting finds a surface that is not retired; it is then desired at the next revision, with the surface Disabled at a higher one when withdrawn. |
| ExposureAnswers.ReportExactly | crates/bloom-signer/src/ceremony.rs:1174-1248 | A report is accepted if and only if it is of the desired revision, says ready only of a usable surface, acknowledges closure while access is withdrawn, and is committed when it says anything new; the status then follows it. |
| ExposureAnswers.InstallExactly | crates/bloom-signer/src/ceremony.rs:546-586 | A surface is installed once, Disabled at revision 0, and the same installation is answered again. |
| ExposureAnswers.WithdrawalHolds | crates/bloom-signer/src/ceremony.rs:1257-1313 | After any history, once remote access is withdrawn the surface is never Active until it is granted again. |
| ExposureAnswers.GrantThenReady | crates/bloom-signer/src/ceremony.rs:1174-1313 | Once granted, a ready report at its revision is accepted and makes the surface Active. |
| Exposure.SurfaceAdministration.RecordReport | crates/bloom-signer/src/ceremony.rs:1174-1248 | The field-by-field update and compare-and-swap equal the report function. |
| Exposure.SurfaceAdministration.SetExposureMode | crates/bloom-signer/src/ceremony.rs:1253-1314 | Equal to the mode-change function. |
| Exposure.SurfaceAdministration.InstallRemoteSurface | crates/bloom-signer/src/ceremony.rs:546-586 | Equal to the installation function. |
| LocalBackendTheorems.RegisterKeepsRestorableExactly | crates/bloom-signer-backend-local/src/lib.rs:445-479 | Registering a new child leaves a backup that restore accepts if and only if the child's root, path, locator and description fit. |
| LocalBackendTheorems.IndexOfDrop | crates/bloom-signer-backend-local/src/lib.rs:781-806 | Dropping a key from the registry and its locator from the index keeps them in agreement. |
| LocalBackendTheorems.RunHealthy | crates/bloom-signer-backend-local/src/lib.rs:280-479 | Over every run of configuration, allocation, both registrations of fresh children, finalizing, tombstoning, activation, deactivation and restart, with writes failing anywhere, the backup stays restorable, the index exact and disk equal to memory. |
| LocalBackendTheorems.RestoreRebuildsMemory | crates/bloom-signer-backend-local/src/lib.rs:280-358 | From provisioning, after any such run, restore accepts what was saved and rebuilds exactly the state in memory with the active key gone. |
| LocalBackendActivation.ActivatesExactly | crates/bloom-signer-backend-local/src/lib.rs:377-392 | In a healthy state activation succeeds if and only if the key has 32 bytes, opens the root, the root keeps its fingerprint and every registered key is what its derivation gives; any other 32-byte key leaves the backend locked. |
| LocalBackendActivation.StepKeepsTruthfulExactly | crates/bloom-signer-backend-local/src/lib.rs:404-479 | A step keeps every registered key equal to what its derivation gives if and only if it does not register one that is not. |
| LocalBackendActivation.RestartThenActivate | crates/bloom-signer-backend-local/src/lib.rs:347-392 | From provisioning, after any run, a restart loses the active key only, and activation then brings back the very state before it if and only if the key has 32 bytes, opens the root and all registered keys are what their derivations give. |
| LocalBackendActivation.TruthfulRunActivates | crates/bloom-signer-backend-local/src/lib.rs:347-392 | If the run registered only such keys, restart followed by activation with the root's key is the identity on everything but the active key. |
| LocalBackendActivation.MisdescribedBlocksActivation | crates/bloom-signer-backend-local/src/lib.rs:427-443 | After registering a key that its derivation does not give the root's own key is refused, and it is accepted again once that key is tombstoned. |
| LocalBackendAllocation.AllocationTakesNext | crates/bloom-signer-backend-local/src/lib.rs:627-744 | A new allocation takes the namespace's next index below its limit, on a path neither registered nor tombstoned, and registers it. |
| LocalBackendAllocation.CounterCountsAllocations | crates/bloom-signer-backend-local/src/lib.rs:716-727 | A namespace's counter is its start plus the number of allocations, and nothing else of it changes. |
| LocalBackendAllocation.KthAllocation | crates/bloom-signer-backend-local/src/lib.rs:541-580 | In a granted namespace the k-th allocation has index start + k, below start + maximum, which is at most 2^31. |
| LocalBackendAllocation.TombstonedNeverAllocated | crates/bloom-signer-backend-local/src/lib.rs:659-671 | A tombstoned path is never allocated again, whatever runs. |
| LocalBackendRetry.RetryAnswersExactly | crates/bloom-signer-backend-local/src/lib.rs:624-634 | Over every run in which the operation stays pending, asking again changes nothing and answers the first key if and only if the request is valid, the root is unlocked and no other key was registered under the operation since. |
| LocalBackendRetry.RegistrationTakesOperation | crates/bloom-signer-backend-local/src/lib.rs:471-475 | A run from provisioning in which a registration under the pending operation makes the retry answer the registered key. |
| LocalBackendRetry.LockedRetryRefused | crates/bloom-signer-backend-local/src/lib.rs:845-854 | Runs from provisioning in which a deactivation or a restart makes the retry refuse although nothing was registered over the pending key, and activation makes it answer the first key again. |
| LocalBackendAnswers.PendingFromProvisioning | crates/bloom-signer-backend-local/src/lib.rs:469-799 | From provisioning, after any run with failing writes, every pending operation's key is registered. |
| LocalBackendAnswers.TombstoneExactly | crates/bloom-signer-backend-local/src/lib.rs:781-806 | A key is tombstoned if and only if it is indexed and the backup can be written; it is then dropped from registry, descriptions, index and pending operations, and its path is tombstoned. |
| LocalBackendAnswers.TombstoneEnds | crates/bloom-signer-backend-local/src/lib.rs:797-803 | After it no operation is pending for the key and, whatever runs, no allocation or retry answers the key or its path. |
| LocalBackendAnswers.FinalizeExactly | crates/bloom-signer-backend-local/src/lib.rs:765-779 | An operation is finalized if and only if it is pending and the backup can be written, and then it alone is no longer pending. |
| LocalBackendAnswers.FinalizedAllocatesAnew | crates/bloom-signer-backend-local/src/lib.rs:624-744 | After it an allocation under the operation is a new one, at the namespace's next index. |
| LocalBackendAnswers.AllocateExactly | crates/bloom-signer-backend-local/src/lib.rs:602-744 | Under no pending operation a key is allocated if and only if grant, parent, next index, path, open root and write allow it; exactly the counter, the key and its entries change. |
| LocalBackendAnswers.ConfigureExactly | crates/bloom-signer-backend-local/src/lib.rs:532-581 | A grant is accepted if and only if it is verified and in range, and new and writable or the very one its namespace was made by. |
| LocalBackendAnswers.RegisterKeyExactly | crates/bloom-signer-backend-local/src/lib.rs:404-479 | A key is registered if and only if a BIP-39 one is what the open root derives and the backup can be written where it must; what it then leaves. |
| LocalBackendAnswers.RegisterDescriptionExactly | crates/bloom-signer-backend-local/src/lib.rs:427-479 | By description: if and only if the description states its own BIP-39 key. |
| LocalBackendAnswers.SelfDescribedExactly | crates/bloom-signer-backend-local/src/lib.rs:1010-1024 | A registered key is what its derivation gives if and only if a BIP-32 one is rederived in every part and a BIP-39 one by its fingerprint over entropy. |
| LocalBackendAnswers.ImportedExactly | crates/bloom-signer-backend-local/src/lib.rs:140-257 | Sealed under a key, an imported scalar is provisioned if and only if that key opens it and its root derives; the root is then pinned, described by what it derives, the only possible parent, and restore accepts the backup. |
| LocalBackendAnswers.DeactivationLocks | crates/bloom-signer-backend-local/src/lib.rs:1341-1346 | Deactivation loses the key only, and the backend then allocates nothing. |
| LocalBackendRestore.RestoreExactly | crates/bloom-signer-backend-local/src/lib.rs:280-345 | Restore accepts a backup if and only if its header, keys, descriptions and namespaces fit one by one and each set collected on the way is as large as the list it came from. |
| LocalBackendPaths.AllocatedPathDetermines | crates/bloom-signer-backend-local/src/lib.rs:649-660 | Two allocated paths are equal if and only if prefix, index and curve are, so namespaces collide only when they share a prefix. |
| LocalBackendPaths.AllocatedPathValid | crates/bloom-signer-backend-local/src/lib.rs:644-660 | Below a BIP-32 prefix an allocated path is a BIP-32 path if and only if its index is below 2^31, and its last level parses to that index, hardened on Ed25519. |
| LocalSignerBackend.RegistryAccepted | crates/bloom-signer-backend-local/src/lib.rs:303-329 | The walk that collects locators and paths accepts exactly the registries whose keys fit one by one and pairwise. |
| LocalSignerBackend.LocalSignerBackend.Open | crates/bloom-signer-backend-local/src/lib.rs:280-358 | Creates a locked backend with the index of the saved registry if and only if the backup is restorable. |
| LocalSignerBackend.LocalSignerBackend.ValidateDerivations | crates/bloom-signer-backend-local/src/lib.rs:987-1024 | The walk over the index accepts exactly when the root and every indexed key are what their derivations give. |
| LocalSignerBackend.LocalSignerBackend.Activate | crates/bloom-signer-backend-local/src/lib.rs:377-392 | Taking the key, trying it and dropping it on failure equal the activation function. |
| LocalSignerBackend.LocalSignerBackend.AllocateDerivedKey | crates/bloom-signer-backend-local/src/lib.rs:602-744 | Copy, edit, swap and index equal the allocation function. |
| LocalSignerBackend.LocalSignerBackend.RegisterKey | crates/bloom-signer-backend-local/src/lib.rs:404-422 | Equal to the registration that describes the child first. |
| LocalSignerBackend.LocalSignerBackend.RegisterDescription | crates/bloom-signer-backend-local/src/lib.rs:427-443 | Equal to the registration by description. |
| LocalSignerBackend.LocalSignerBackend.RegisterChild | crates/bloom-signer-backend-local/src/lib.rs:445-479 | Equal to the registration function. |
| LocalSignerBackend.LocalSignerBackend.TombstoneDerivedKey | crates/bloom-signer-backend-local/src/lib.rs:781-806 | Equal to the tombstone function. |
| LocalSignerBackend.LocalSignerBackend.ConfigureNamespace | crates/bloom-signer-backend-local/src/lib.rs:532-581 | Equal to the configuration function. |
| LocalSignerBackend.LocalSignerBackend.FinalizeDerivedKey | crates/bloom-signer-backend-local/src/lib.rs:765-779 | Equal to the finalize function. |
| Bip32.ScalarFromCanonical | crates/bloom-signer-derive/src/bip32.rs:75-84 | The reduction round trip accepts exactly the numbers below the group order. |
| Bip32.DeriveExact | crates/bloom-signer-derive/src/bip32.rs:95-173 | For every HMAC a derivation succeeds if and only if every tweak is below the order and no partial sum vanishes, its key is then the sum of the tweaks modulo the order, and the only error is the invalid child. |
| Bip32.KeysInRange | crates/bloom-signer-derive/src/bip32.rs:147-161 | Every derived key lies in 1..order-1, so describing a parent never fails. |
| Bip32.EvmAccountExact | crates/bloom-signer-derive/src/bip32.rs:204-222 | The EVM account derivation fails exactly for an index out of range or an invalid tweak or sum on its five levels. |
| Bip32Paths.EvmPathLevels | crates/bloom-signer-derive/src/bip32.rs:204-222 | The printed EVM path of an account below 2^31 reads, level by level, as the five levels of its derivation. |
| Bip32Paths.EvmAccountFollowsPath | crates/bloom-signer-derive/src/bip32.rs:204-222 | Deriving an EVM account is deriving along its printed path. |
| RateLimiter.AdmittedExactly | crates/bloom-signer-backend-aws-kms/src/lib.rs:557-574 | For every clock that does not step back a call is admitted if and only if its deadline is ahead and fewer than the maximum were admitted in the last 1000 ms. |
| RateLimiter.Limiter.AdmitProviderCall | crates/bloom-signer-backend-aws-kms/src/lib.rs:557-574 | The pruning loop and the admission equal the queue function. |
| RateLimiter.QueueIsRecentHistory | crates/bloom-signer-backend-aws-kms/src/lib.rs:557-574 | For every 64-bit clock that does not step back, the queue after an attempt in time is exactly the admitted calls of the last 1000 ms of the whole history. |
| RateLimiter.NoWindowExceedsMaximum | crates/bloom-signer-backend-aws-kms/src/lib.rs:557-574 | For every such clock no window of 1000 ms contains more admitted calls than the maximum. |
| RateLimiter.ClockStepExactly | crates/bloom-signer-backend-aws-kms/src/lib.rs:563-568 | After a call in time at one instant, a call at another keeps the bound for every history and maximum if and only if the clock did not go back or had not passed its first second. |
| RateLimiter.ClockStepsBack | crates/bloom-signer-backend-aws-kms/src/lib.rs:563-568 | For every later step back, three calls in one window under a maximum of two. |

## Left out

- RunKeepsBindings: assumes credential ids are not reused across wallets; `StepKeepsBindingsExactly` is the exact condition for one step.
- RunHealthy: assumes locators are collision-free and a newly registered child has a fresh path and a locator of that path; `RegisterKeepsRestorableExactly` is the exact condition for one registration.
- KthAllocation: assumes that the file holds the backup in memory, as it does in every reachable state.
- RetryAnswersExactly: assumes registrations with fresh paths, as RunHealthy does.
- NoWindowExceedsMaximum: assumes a clock that does not step back over the whole run; `ClockStepExactly` is exact for one step, not for a run with several.
- ReachableInvariant: assumes invalid children are recorded only when they are invalid.
- Cryptographic primitives (AEAD, HMAC, HKDF, HPKE, Ed25519, ECDSA, PBKDF2), BIP-39 words and WebAuthn verification: symbolic or parameters.
- CompletedForever: is about `status`; `status_at` reports a completed recovery past its delivery window as a terminal success, and delivery windows are a parameter here.
- Timestamps, the order of public listings, the `authority_committed` column and its startup recovery, and the engine's loop over families.
- WebAuthn sign counters, credential surfaces and relying parties inside the credential map; whether a surface is eligible is a parameter of each step.
- Ceremony identifiers inside durable statuses: a status row keeps the operation and its state only.
- Legacy passkey migration, output-recipient binding, export formats, policy contents and backend provisioning inside a ceremony: one success flag.
- Interleaving inside the asynchronous approval completion; every public method is one atomic step.
- Namespace prefix syntax in the local backend: an arbitrary predicate.
- The KMS audit journal, administration sockets, process hardening, JSON shapes and error-code tables.
