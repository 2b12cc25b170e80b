# rust-peerdup, verified model

A Dafny model of the parts of the rust-peerdup daemon whose correctness spans many calls, peers or
runs: multi-master sync with vector clocks, the causally ordered membership log, the epoch keyring
with its rotation protocol, and the encrypted shadow of a share folder.

`dafny verify dfyconfig.toml` checks the whole project.

## Layout

| file | what it models |
|---|---|
| `Clocks.dfy` | vector clocks: increment, merge, compare (`src/clock.rs`) |
| `SyncState.dfy` | one peer's sync decisions and the share task that makes them (`src/daemon.rs`) |
| `SyncRun.dfy` | N peers and a network that reorders, repeats and delays announces; clock discipline |
| `SyncSafety.dfy` | the invariant behind "equal clocks, equal versions", over all runs |
| `SyncConvergence.dfy` | order independence, agreement of peers that heard each other, bounded announce storms |
| `SyncWitness.dfy` | a run in which a back-dated edit splits two peers |
| `AuthLog.dfy` | `AuthState`, its log and its pending operations (`src/auth.rs`) |
| `AuthCausal.dfy` | what is applied is the least fixpoint over what was delivered |
| `AuthOrder.dfy` | equal deliveries give equal members |
| `AuthExchange.dfy` | snapshots of the log: what one exchange achieves, and that repeating it converges |
| `AuthDurability.dfy` | auth.log over any mix of handlers and restarts; the log in a ticket |
| `KeyRing.dfy` | keys.bin, installing epoch keys, blob framing (`src/crypto.rs`) |
| `Rotation.dfy` | building and opening signed rotations (`src/rotation.rs`) |
| `RotationBuffer.dfy` | installing, buffering and draining rotations (`src/daemon.rs`) |
| `RotationDelivery.dfy` | the capacity of the buffer, and what a rebroadcast round achieves |
| `RotationRun.dfy` | a share with one rotator over all runs: agreement, blobs, revocation |
| `RotationLiveness.dfy` | what a rebroadcast round achieves in a running share |
| `ShareAdmin.dfy` | invite, revoke, rotate, and the rebroadcast queue |
| `ShareRefinement.dfy` | the manager's commands are a run of the rotation protocol |
| `Snapshot.dfy` | the directory walk, the content snapshot and its version hash |
| `Shadow.dfy` | path mapping, encryption into and decryption out of the shadow |
| `ShareFolder.dfy` | a folder over edits, fetches, failures and restarts |
| `Orders.dfy`, `Results.dfy` | orders, stable sort, Option and Result |

Each operation is a function on values, or a relation where the outcome depends on the order of a
directory walk. Where the source changes state step by step there is also a class or a loop that is
proved to compute that function. The lemmas are about the functions, and hold for every input and
every run.

## What is assumed

* **Growing stamps.** Sync safety assumes that an edit's (timestamp, version hash) exceeds that of the
  version it replaces. The daemon stamps with the wall clock and does not enforce this.
  `StepKeepsSafeIffTimely` shows the assumption to be exactly what the invariant needs, and
  `BackdatedEditSplitsPeers` gives a run without it in which peers stay split. Clock discipline and the
  bound on announce storms do not use it.
* **Restart over a non-empty root.** With a persisted version and an empty share root the daemon starts
  with no version and no clock (`RestartKeepsClockIff`); runs exclude this.
* **Writes of state files succeed**, handlers are not interrupted, counters and epochs fit 64 bits.
* **The membership CRDT** succeeds on causally ready operations and gives concurrent operations the same
  effect in either order, and reports as its heads the operations nothing applied depends on; operation
  ids do not collide, and a new operation's id is new. `ProcessKeepsCrdtIff` says what a failure does.
* **One rotator per share.** Other members never see another owner. The rotator's signature cannot be
  forged; apart from that any message may arrive from anyone at any time.
* **Ciphers, boxes and signatures** are functions with inverse and verification laws; hashes do not
  collide between the two folders that are compared.
* **Paths** are distinct UTF-8 text, none is another's temporary, and no file clashes with a directory.

## Properties that hold only under a condition

* A run of sync steps stays safe if and only if every edit's stamp grows (`RunIsSafeIffTimely`).
* One mutual exchange of log snapshots makes two peers agree if and only if no operation that only one
  of them knows becomes ready from what both know (`ExchangeAgreesIff`); what they then hold is the
  least fixpoint over what both know. `OneExchangeIsNotEnough` gives two runs from the empty log after
  which one exchange leaves them apart. Both hold exactly the union of the two applied sets if and only
  if that union unblocks nothing pending (`MutualExchange`). Repeating the exchange on every tick always
  converges, within a bound computed from the start (`RepeatedExchangeConverges`).
* The reorder buffer survives every arrival order of a run of missing epochs if and only if the run is
  at most 65 epochs long (`ReorderCapacity`). Rebroadcasting in order has no such limit.
* A rebroadcast round takes a peer to an epoch if and only if queue and buffer have no hole before it
  (`RebroadcastReachesIff`). In a running share the holes are the epochs that were not published to that
  peer: those rotated by hand, and those of a time when it was no member (`RoundReachesIff`).
* A key rotation encrypts nothing anew: the shadow stays open to a peer left out of it until the next
  check finds a local change (`RotationClosesShadowIff`).
* A fetch is accepted if and only if the receiver has no file that the sender lacks (`FetchAcceptedIff`).
  The project's notes say that files added between snapshots survive a concurrent apply, and its status
  table lists orphan deletion as done. In the code the hash check comes first, so such an apply fails,
  and the deletion that follows a successful check never removes anything (`FetchedIsClean`).
* A watcher event without an edit leaves the clock alone after every local change, restart and accepted
  fetch (`HistoryHasNoEcho`). After a failed fetch it does so if and only if every file decrypted before
  the failure was there already (`FailedFetchIsQuietIff`): the files are written before the hash is
  checked (src/daemon.rs:1572-1586), and the next watcher event publishes them as an edit.

## Model

| member | source | states |
|---|---|---|
| Clocks.VectorClock.Increment | src/clock.rs:21-24 | the peer's counter goes up by one, all others stay |
| Clocks.VectorClock.Merge | src/clock.rs:26-33 | the loop computes the pointwise maximum |
| Clocks.VectorClock.Compare | src/clock.rs:35-55 | the two-flag loop decides which side is ahead somewhere |
| Clocks.CompareDecidesOrder | src/clock.rs:35-55 | the four outcomes are exactly the pointwise order, absent entries read as 0 |
| Clocks.MergeIsLeastUpperBound | src/clock.rs:26-33 | merge is the least upper bound |
| Clocks.MergeRaisesIffAhead | src/clock.rs:26-55 | a merge raises the clock strictly exactly when compare says dominated or concurrent |
| SyncState.LwwPicksOneWinner | src/daemon.rs:1606-1619 | two peers holding different versions never both win or both lose; the winner has the greater (time, hash) |
| SyncState.SyncTask.Restart | src/daemon.rs:1190-1278 | the four restart cases over persisted version and root content |
| SyncState.SyncTask.WatcherEvent | src/daemon.rs:1280-1316 | a version is issued exactly when the content hash changed; the own counter goes up |
| SyncState.SyncTask.OnAnnounce | src/daemon.rs:912-979 | ignore, keep and merge, or fetch and merge, by the order of the clocks first and of the stamps only between concurrent ones; legacy announces and failed fetches change nothing |
| SyncState.ReceiveResolves | src/daemon.rs:912-979 | with no hypothesis on stamps: a dominating announce is taken over whatever its stamp, a dominated or equal one changes nothing, between concurrent ones the greater (time, hash) stays; clocks merge pointwise; an announce lacking any field changes nothing |
| SyncState.LocalChangeCounts | src/daemon.rs:1280-1316 | an edit is counted exactly when the content differs from the current version's; only the own counter goes up, by one |
| SyncState.ReconcileResumes | src/daemon.rs:1190-1278 | an empty root holds nothing, known content resumes the persisted version as it is, any other content counts an edit on top of it |
| SyncState.RestartKeepsClockIff | src/daemon.rs:1226-1233 | a restart keeps the clock if and only if the root is not empty |
| SyncState.ReceiveRaisesClock | src/daemon.rs:917-979 | an announce that replaces the state raises the clock to the merge, strictly unless there was no state and the announced clock counts nothing |
| SyncRun.StepShape | src/daemon.rs:834-981 | every step counts an edit, merges an announce from the network, or leaves the version alone |
| SyncRun.StepKeepsDiscipline | src/daemon.rs:917-979 | own counters count own edits, no clock runs ahead of its authors, announces stay covered: kept by every step |
| SyncRun.RunKeepsDiscipline | src/daemon.rs:1190-1316 | over any run the discipline holds and clocks, versions and histories only grow |
| SyncRun.ClockDiscipline | src/daemon.rs:1190-1316 | from the initial state, between any two points of any run |
| SyncRun.EditUsesFreshCounter | src/daemon.rs:1304-1305 | an edit's own counter is above every counter of that peer any state or announce has carried |
| SyncSafety.EditIsGreatestIff | src/daemon.rs:1304-1313 | an edit's stamp is the greatest its clock covers if and only if it is not older than the one replaced |
| SyncSafety.ReceiveIsJoin | src/daemon.rs:917-979 | receiving is the join of the two versions, though the code compares no timestamps on domination |
| SyncSafety.EqualClocksEqualVersions | src/daemon.rs:919-923 | in a safe state equal clocks mean equal versions, and a dominating clock never has an older stamp |
| SyncSafety.StepKeepsSafeIffTimely | src/daemon.rs:1304-1313 | a step keeps the safety invariant if and only if an edit's stamp grows |
| SyncSafety.RunIsSafeIffTimely | src/daemon.rs:834-981 | a run of edits, deliveries, failed fetches, ticks and restarts ends safe if and only if every edit in it had a growing stamp |
| SyncSafety.ReachableClocksIdentifyVersions | src/daemon.rs:919 | in every reachable state versions with equal clocks are the same version |
| SyncConvergence.ReceiveAllIsJoin | src/daemon.rs:912-979 | a sequence of announces yields the least upper bound of the clocks and the last writer |
| SyncConvergence.OrderAndRepetitionDoNotMatter | src/daemon.rs:912-979 | any order and repetition of the same announces has one outcome |
| SyncConvergence.CaughtUpPeersAgree | src/daemon.rs:1593-1603 | two peers whose clocks dominate every initial clock hold the same version |
| SyncConvergence.AllHeardAllAgree | src/daemon.rs:912-979 | without edits, once every peer applied every other's announce, all agree, whatever else was delivered |
| SyncConvergence.AnnounceStormsEnd | src/daemon.rs:930-979 | without edits, the state-changing announces are at most the edits yet to be learnt; no timestamp hypothesis |
| SyncWitness.BackdatedEditSplitsPeers | src/daemon.rs:1311 | without growing stamps any two peers can be driven to different versions under one clock |
| AuthLog.AuthState.ProcessOp | src/auth.rs:373-379 | applies and logs, or on failure leaves an empty CRDT and the log as it was |
| AuthLog.AuthState.DrainPending | src/auth.rs:381-396 | applies the first ready pending operation until none is ready |
| AuthLog.AuthState.ApplyRemote | src/auth.rs:353-371 | reject, hold, or apply and drain |
| AuthLog.AuthState.Author | src/auth.rs:323-347 | the operation carries the caller, group and action, is signed over exactly the current heads, and is applied |
| AuthLog.AuthState.ApplyAuthOps | src/daemon.rs:117-145 | applies a payload, skipping undecodable entries, and saves exactly when something was newly applied |
| AuthLog.AuthState.LoadFrom | src/auth.rs:433-455 | replays a saved log or reports why not |
| AuthCausal.ApplyDelivers | src/auth.rs:353-371 | a delivery keeps the invariant, adds exactly the operation, and returns true exactly when the log grew |
| AuthCausal.ApplyDecides | src/auth.rs:353-371 | the four outcomes by what the log holds: rejected, known already, held at the end of the pending ones, or applied next on the log |
| AuthCausal.DrainTakesFirst | src/auth.rs:381-396 | of the pending operations that are ready the one held longest is applied first |
| AuthCausal.DrainSettles | src/auth.rs:381-396 | draining ends with nothing ready pending and neither loses nor invents operations |
| AuthCausal.RunKeepsInvariant | src/auth.rs:323-396 | over any mix of deliveries and local operations the log is causal, duplicate-free, verified and replays to the CRDT |
| AuthCausal.AppliedIsLeastFixpoint | src/auth.rs:353-396 | the applied ids are the least fixpoint over the delivered operations, the pending ones exactly the rest |
| AuthCausal.ProcessKeepsCrdtIff | src/auth.rs:373-379 | log and CRDT stay in step if and only if the library succeeds or the CRDT was empty |
| AuthOrder.CausalOrdersFoldEqually | src/auth.rs:353-396 | any two causal orders of the same operations lead to the same CRDT state |
| AuthOrder.SameDeliveriesSameMembers | src/auth.rs:353-406 | peers delivered the same operations in any orders report the same members |
| AuthOrder.AuthoredMayHappen | src/auth.rs:323-347 | what is authored verifies and builds on applied operations only |
| AuthOrder.AuthoredComesAfter | src/auth.rs:329-330 | in the log of any peer an authored operation stands after everything its author had applied |
| AuthExchange.SnapshotIsApplied | src/daemon.rs:108-145 | after a sender's snapshot the receiver has applied all of it, pending operations included |
| AuthExchange.PayloadCounts | src/daemon.rs:117-145 | the count of a payload goes up by one with every entry that makes the log grow |
| AuthExchange.MutualExchange | src/daemon.rs:108-145 | both peers get at least the union; exactly the union if and only if it unblocks nothing pending |
| AuthExchange.ExchangeAgreesIff | src/daemon.rs:108-145 | after one exchange the applied sets and CRDT states are equal if and only if no one-sided operation is ready from what both know |
| AuthExchange.ExchangeMayStillDiffer | src/daemon.rs:108-145 | an operation pending on one side only can end up applied on that side only |
| AuthExchange.OneExchangeIsNotEnough | src/daemon.rs:108-145 | two runs from the empty log after which one exchange leaves the peers apart |
| AuthExchange.RepeatedExchangeConverges | src/daemon.rs:1698-1712 | after more rounds than there were one-sided operations both peers hold the least fixpoint over everything either was delivered, and the same CRDT state |
| AuthDurability.LoadOfSavedLog | src/auth.rs:433-473 | loading a saved log gives the same operations and CRDT with nothing pending, never an error |
| AuthDurability.LoadDecides | src/auth.rs:433-455 | any file: refused for an operation that does not verify, else for the number of operations whose dependencies it can never meet, else a log of all its operations |
| AuthDurability.SnapshotFeedsNewcomer | src/daemon.rs:108-145 | an empty peer applies a snapshot entry by entry, in the sender's order, holding none back |
| AuthDurability.HandlerKeepsFileCurrent | src/daemon.rs:117-145 | after every payload the saved log equals the log and loads back to it |
| AuthDurability.InviteKeepsFileCurrent | src/daemon.rs:1053-1068 | so it does after an invitation, which succeeds exactly on a non-empty log that does not list the invitee |
| AuthDurability.RevokeKeepsFileCurrent | src/daemon.rs:1096-1108 | and after a revocation, also one that fails on a malformed recipient key |
| AuthDurability.FileStaysCurrent | src/daemon.rs:1043-1150 | after any mix of payloads, invitations, revocations, rotations and restarts auth.log holds the applied operations, none lost, and loads back to them |
| AuthDurability.ShareStaysCurrent | src/ipc.rs:118-126 | so it is from the creation of a share on |
| AuthDurability.InviteeFindsItself | src/ipc.rs:193-206 | the log in a returned ticket replays to the inviter's new log; the join check passes exactly when the inviter lists the invitee, and the file the invitee saves is current |
| KeyRing.KeysFileRoundTrip | src/crypto.rs:51-97 | keys.bin is accepted exactly on positive multiples of 32 bytes; save and load are inverse both ways |
| KeyRing.KeyStore.LoadOrCreate | src/crypto.rs:51-76 | parses an existing file in chunks, or creates and saves epoch 1 |
| KeyRing.KeyStore.InstallKeyring | src/crypto.rs:101-113 | refuses to overwrite and refuses an empty ring |
| KeyRing.KeyStore.Rotate | src/crypto.rs:117-124 | appends a key on disk and in memory and returns the new epoch |
| KeyRing.KeyStore.InstallEpochKey | src/crypto.rs:147-179 | installs the next epoch only; the current epoch is idempotent under its own key and a conflict under any other; earlier is stale, later a gap with both numbers |
| KeyRing.InstallDecides | src/crypto.rs:147-179 | the condition of each of the five outcomes, for every ring, epoch and key; only the next epoch changes the ring |
| KeyRing.LittleEndianRoundTrip | src/crypto.rs:203-212 | the epoch header decodes to the epoch |
| KeyRing.DecryptInvertsEncrypt | src/crypto.rs:181-226 | a blob opens under any extension of the writer's ring and reports the missing epoch under a shorter one |
| KeyRing.DecryptDecides | src/crypto.rs:202-226 | any blob: too short, an epoch without a key, not authenticated by the key of its epoch, or opened |
| Rotation.BuildSignedRotation | src/rotation.rs:124-167 | one sealed envelope per distinct recipient, in key order; fails on a malformed recipient |
| Rotation.BuildDecides | src/rotation.rs:124-167 | built exactly when all keys are usable; epoch, rotator, a valid signature, and the members as ascending recipients, each sealed with its own randomness |
| Rotation.VerificationDecides | src/rotation.rs:170-222 | for any rotation, whoever made it: the condition of each of the five outcomes; a key comes only out of a validly signed rotation of a listed owner, from the first envelope for us |
| Rotation.RecipientOrderIsCanonical | src/rotation.rs:117-132 | managers rotating for the same members address them in the same order |
| Rotation.RotationOpensExactlyForRecipients | src/rotation.rs:170-222 | a rotation opens to the new key for exactly its recipients, if the rotator is a listed owner |
| RotationBuffer.RotationReceiver.Attempt | src/daemon.rs:1776-1850 | verify, install, refresh the ring, and classify |
| RotationBuffer.AttemptDecides | src/daemon.rs:1776-1850 | the outcome of an attempt by verification and epoch |
| RotationBuffer.RotationReceiver.BufferPush | src/daemon.rs:1891-1901 | ignores a known epoch, evicts the least epoch at the cap |
| RotationBuffer.RotationReceiver.DrainBuffer | src/daemon.rs:1852-1889 | installs from the least epoch up until a gap, which is put back; terminates |
| RotationBuffer.RotationReceiver.OnRotation | src/daemon.rs:1741-1767 | install and drain, ignore, or buffer |
| RotationBuffer.ReceiveDecides | src/daemon.rs:1741-1767 | the conflict error is reported exactly for a rotation that opens to another key for the current epoch; known epochs change nothing, the next is installed, later ones are buffered |
| RotationBuffer.SecondKeyIsRefused | src/crypto.rs:155-165 | after an epoch is installed a second key for it is an error and changes neither ring nor buffer |
| RotationBuffer.DrainIsMaximal | src/daemon.rs:1852-1889 | draining steps over entries that do not open and over conflicts, and stops only where no entry for the next epoch opens |
| RotationBuffer.PushDecides | src/daemon.rs:1891-1901 | a rotation for a buffered epoch neither joins nor replaces the one there; below the cap a new one goes last |
| RotationBuffer.PushIsBounded | src/daemon.rs:1891-1901 | the buffer keeps distinct epochs and at most 64 entries; at the cap exactly the least epoch is lost |
| RotationBuffer.DrainIsBounded | src/daemon.rs:1852-1889 | draining drops only entries that no longer gap, never the candidate it puts back |
| RotationBuffer.ReceiveIsBounded | src/daemon.rs:1741-1767 | whatever arrives the buffer stays bounded and free of duplicates |
| RotationDelivery.DrainInstalls | src/daemon.rs:1852-1889 | draining installs every consecutive epoch, keeps all the rest, and leaves a gap |
| RotationDelivery.ArrivalsComplete | src/daemon.rs:1741-1767 | any arrival order with repeats of up to 65 missing epochs ends with the full ring and an empty buffer |
| RotationDelivery.LateFirstStalls | src/daemon.rs:1896-1899 | with more, the order that brings the first one last stops after it |
| RotationDelivery.ReorderCapacity | src/daemon.rs:1891-1901 | every arrival order completes if and only if at most 65 epochs are missing |
| RotationDelivery.RebroadcastCatchesUp | src/daemon.rs:1714-1736 | one round in published order fully updates a peer missing a contiguous run, whatever its buffer holds |
| RotationDelivery.RebroadcastReachesIff | src/daemon.rs:1714-1736 | a round reaches an epoch if and only if queue and buffer together have no hole below it |
| RotationRun.RunKeepsAgreement | src/daemon.rs:1087-1150 | over all runs every ring is a prefix of the rotator's, rings, tickets and blobs only grow, tickets and issued keys match; of what arrives only a forged signature of the rotator is ruled out |
| RotationRun.NoConflictIsReachable | src/crypto.rs:155-165 | the "different key" error is unreachable: what opens for a peer at an epoch it has, opens to the key it has |
| RotationRun.BlobsReadAlike | src/crypto.rs:181-226 | a blob reads the same on every peer whose ring reaches its epoch, and is refused for want of a key on the others |
| RotationRun.PeerSteps | src/daemon.rs:1741-1767 | what joining, restarting and writing change, and nothing else |
| RotationRun.InvitedReadsAllBefore | src/ipc.rs:190-191 | who joins with the ticket of its invitation reads everything written before it |
| RotationRun.RevokedStaysOut | src/daemon.rs:1107-1138 | until invited again a revoked member's ring stays within the epochs before, and later blobs stay closed to it |
| RotationRun.RemainingMemberFollows | src/daemon.rs:1776-1809 | a remaining member that is up to date installs the new key on delivery |
| RotationLiveness.RunKeepsBuffersFit | src/daemon.rs:1741-1901 | over any run every buffer is bounded, leaves a gap, and holds published rotations addressed to its owner |
| RotationLiveness.RoundReachesIff | src/daemon.rs:1714-1736 | in a reachable state a round takes a peer to an epoch if and only if every epoch on the way was published to it |
| RotationLiveness.StayingMemberCatchesUp | src/daemon.rs:1107-1150 | a member that is not revoked ends with the rotator's ring after one round, whatever was delivered, lost or reordered, as long as no key was rotated by hand since what its ring covers |
| ShareAdmin.AdminTask.HandleInvite | src/daemon.rs:1043-1085 | refusals, the Add operation, the saved log, and a ticket with ring and log |
| ShareAdmin.InviteDecides | src/daemon.rs:1053-1085 | the condition of each outcome, and the whole new state: only success saves the log and gives the ticket |
| ShareAdmin.AdminTask.HandleRevoke | src/daemon.rs:1087-1139 | refusals, Remove, save, rotate, build for the rest, store and queue; a bad recipient key fails after the rotation |
| ShareAdmin.RevokeDecides | src/daemon.rs:1096-1139 | the condition of each outcome, and the new state: it succeeds exactly when the removal is taken and all who remain have usable keys; otherwise the ring is rotated all the same |
| ShareAdmin.AdminTask.HandleRotateKey | src/daemon.rs:1141-1150 | grows the ring and publishes nothing |
| ShareAdmin.LoadPending | src/rotation.rs:253-273 | returns every rotation of the directory, in strictly ascending epochs |
| ShareAdmin.LoadPendingIsQueue | src/rotation.rs:233-273 | the queue read back from disk in any listing order is the queue in memory |
| ShareAdmin.HandlersKeepQueue | src/daemon.rs:1118-1136 | the queue ascends strictly, stays within the ring and matches its directory; a revocation appends the new epoch |
| ShareAdmin.RevokeReachesExactlyTheRest | src/daemon.rs:1110-1133 | the rotation of a revocation opens for exactly the members that remain |
| ShareRefinement.InviteSimulates | src/daemon.rs:1043-1085 | an invitation is a step of the protocol, whose ticket is the one returned, or is refused and changes nothing |
| ShareRefinement.RevokeSimulates | src/daemon.rs:1087-1139 | so is a revocation, with a malformed recipient key as a rotation that is not published |
| ShareRefinement.CommandsAreRun | src/daemon.rs:1043-1150 | any sequence of commands and restarts is an allowed run that ends with the share the manager holds |
| Snapshot.WalkReportsVisible | src/daemon.rs:1346-1365 | the walk reports exactly the files without a component `.peerdup`, at any depth |
| Snapshot.SnapshotContent | src/daemon.rs:1322-1343 | hash and manifest depend on the content only, not on the order of the walk |
| Snapshot.StreamDecodes | src/daemon.rs:1327-1341 | the byte stream fed to the version hash is uniquely decodable |
| Snapshot.VersionHashIdentifiesContent | src/daemon.rs:1322-1343 | version hashes are equal if and only if the contents are, collisions aside |
| Shadow.PathMappingIsInverse | src/daemon.rs:1371-1393 | the ciphertext path mapping and its inverse |
| Shadow.SyncPlaintextToShadow | src/daemon.rs:1405-1444 | every manifest file opens to its bytes under any extension of the ring and for want of a key under any ring that stops short of its last epoch; every other ciphertext is removed, files without the suffix kept |
| Shadow.SyncShadowToPlaintext | src/daemon.rs:1449-1488 | files are decrypted in place through a temporary, in the order of the walk; the first that does not open stops it and is the error, with exactly those before it written |
| Shadow.NamesakeIsLost | src/daemon.rs:1475-1483 | a file named like the temporary of a restored one is lost |
| ShareFolder.ShareTask.HandleLocalChange | src/daemon.rs:1280-1316 | mirrors the disk and bumps the clock exactly when the content hash changed, as the sync-level watcher event does |
| ShareFolder.ShareTask.ApplyRemoteSync | src/daemon.rs:1526-1604 | accepts exactly when all decrypts and the hash matches; a failure keeps version and clock and leaves in the folder what was decrypted before it |
| ShareFolder.ShareTask.OnAnnounce | src/daemon.rs:912-979 | ignores, keeps the local content under a merged clock, or fetches, by the same order of clocks and stamps; with what happens to the disk in every branch |
| ShareFolder.ShareTask.ReconcileOnStart | src/daemon.rs:1190-1278 | resumes, adopts or counts an out-of-band edit as the sync-level restart does, and mirrors the disk |
| ShareFolder.FetchedIsClean | src/daemon.rs:1572-1603 | after a fetch the disk is the announced content, the state describes it, and no orphan was deleted, even if the user emptied the shadow |
| ShareFolder.HistoryHasNoEcho | src/daemon.rs:1293-1295 | over any history, after a local change, restart or accepted fetch, the next watcher event changes nothing |
| ShareFolder.AdoptedIsSealed | src/daemon.rs:1405-1444 | after a local change or a restart all of the shadow opens under the ring, and none of it for a ring that stops short |
| ShareFolder.RotationClosesShadowIff | src/daemon.rs:1293-1303 | after a rotation, what a peer left out of it could open is closed to it by the next check if and only if that check finds a change |
| ShareFolder.RestoredContent | src/daemon.rs:1449-1488 | a fetch reproduces the sender's paths and bytes and leaves other paths untouched |
| ShareFolder.FetchAcceptedIff | src/daemon.rs:1569-1591 | a fetch is accepted if and only if the receiver has no file the sender lacks |
| ShareFolder.FailedFetchIsQuietIff | src/daemon.rs:1569-1586 | after a failed fetch the next watcher event counts no edit if and only if every file decrypted so far was there already |

## Left out

- Torrent sessions, info-hashes, endpoints and the seed and leech loops: a fetch adds or overwrites files, or fails. An announce without usable peers fails before it touches the folder; here it is one of the failed fetches.
- Gossip, discovery and the D-Bus, CLI, client, lock, identity and data-directory code: input and output.
- The membership CRDT, cipher, box, signature and hash algorithms, and the bincode, JSON and base64 encodings: parameters with laws.
- Listing members, and the refusal to create a group twice: one-branch wrappers.
- The rotator's membership log in `RotationRun`: there membership is a set; `ShareAdmin` derives the recipients of a rotation from the log.
- Wrap-around of 64-bit counters and epochs: counters are natural numbers.
- Crashes inside a handler, failed writes of state files and rotation by several managers: the code gives no agreement guarantee there.
- Propagation of deletions: the code does not achieve it; `FetchAcceptedIff` says what happens instead.
- Directories as objects, symbolic links and empty leaf names: a folder is a map from file paths to bytes, and whether a root has any entry is its files or its shadow directory.
- The file watcher and its debouncing: a watcher event is a step that may happen at any time.
