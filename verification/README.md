# Verification of the plugin monorepo's core protocols

This Dafny project models the stateful and order-sensitive core of the plugin
repository and proves what the code promises about it.

| files | what they model |
|---|---|
| SdkTransaction.dfy | the journaled update of the SDK files and its recovery, with a crash or a failing file operation at any point |
| Admission.dfy | call admission and shutdown of the Cloudflare DNS service, as a state machine over all interleavings |
| MappingMemory.dfy, MappingRules.dfy, MappingHistory.dfy, MappingService.dfy | token mappings: epochs, sharing, rotation, the durable catalog, undo and the log of secret references |
| MappingSaves.dfy | what other goroutines do to the mappings while one of them is saved, over all interleavings |
| Suffix.dfy | domain normal forms and longest-suffix matching |
| Cache.dfy | the bounded response cache of the DNS-over-HTTPS plugin |
| DeploymentStore.dfy | the fenced compare-and-swap store of deployments |
| BackupNames.dfy, Backup.dfy, Restore.dfy | backup artifacts: packing, verification, reading back |
| Versions.dfy, Tags.dfy, Variants.dfy, Releases.dfy | version precedence, tags and their variants, upgrade candidates, release lines |
| Strings.dfy | Go's string functions used by several plugins |
| Encodings.dfy | the byte strings that are hashed into keys and digests |

`dafny verify dfyconfig.toml` checks all of it.

Code that changes state step by step is modelled by classes and loops that are
proved against specification functions; the promises are then proved about those
functions and over whole runs. What the environment decides (faults, crashes, host
answers, schedules) is an arbitrary choice in the model, so every theorem covers
all of them. A digest is modelled by what is hashed where its injectivity is used,
and by an arbitrary function where collisions matter.

Where the code does not do what its documentation says, the model follows the code:

- An artifact can be written that verification then refuses: creation checks
  neither the workspace paths nor the size of the manifest (`Backup.PackedIsAccepted`).
- An artifact can be accepted and still not be extracted, because the drive check
  is applied to the name without its `workspace/` prefix (`Restore.WorkspaceIsRestored`).
- Fencing tokens start again after a removal (`DeploymentStore.NextTokenGrowsIffRecordLives`).
- A put that fits without its key but not with it empties the cache before it fails
  (`Cache.MemoryCache.Put`, `Cache.EmptyingPut`).
- A moving image tag is called outdated against a lower version exactly when plain
  releases are listed and all of them are below the running one
  (`Releases.LatestIsBelowIff`, `Releases.StepBack`).
- Within one life of the service a secret reference that the vault is known to have
  accepted is enrolled again exactly when it leaked: its version was malformed, or
  the ledger called it committed and the save before its adoption was lost
  (`MappingService.Lifetime`, `MappingHistory.ReusedIffOpen`). A reference whose
  enrollment ended in an unclear error is enrolled again as well
  (`MappingService.UnclearIsReused`), and a restart forgets retirements that were
  not saved (`MappingService.RestartForgets`).
- An error reply does not mean that nothing happened: after the commit a lost report
  turns the reply into the pending or the revoked error while the change stays. From
  share, rename and delete the pending error always means the change was made. From
  create and rotate it does not decide, and the revoked error decides for none of
  them but delete. Every other error means that no mapping changed
  (`MappingService.RunCommand`, `MappingService.PendingWithEffect`,
  `MappingService.RevokedWithEffect`).
- A cancelled service forgets its mappings, and gets them back when a save that was
  in progress is lost (`MappingSaves.CancelledHoldsIff`). In the same way an epoch
  that is given up during a save that is lost is used again
  (`MappingSaves.GivenUpStaysIff`).
- The tags `1.0.0-rc-` and `1.0.0-rc` read as the same version
  (`Variants.SplitLosesOnlyHyphen`, `Variants.HyphenIsLost`).

## Model

| member | source | states |
|---|---|---|
| SdkTransaction.BackupStep | cmd/nre-ci/sdk_transaction.go:194-237 | moving a target to its backup keeps the invariant and both ways out |
| SdkTransaction.PromoteStep | cmd/nre-ci/sdk_transaction.go:194-237 | moving a staged file into its target keeps the invariant and the way forward |
| SdkTransaction.DiscardStep | cmd/nre-ci/sdk_transaction.go:239-284 | removing a target that is not the old content keeps every old content recoverable |
| SdkTransaction.RestoreStep | cmd/nre-ci/sdk_transaction.go:239-284 | moving a backup back keeps the invariant and the way back |
| SdkTransaction.SweepStep | cmd/nre-ci/sdk_transaction.go:297-317 | once the targets agree on a generation, removing a leftover keeps the invariant and the targets |
| SdkTransaction.DropStagedStep | cmd/nre-ci/sdk_transaction.go:319-339 | removing a staged file or the temporary journal never disturbs the old targets |
| SdkTransaction.PublishStep | cmd/nre-ci/sdk_transaction.go:124-139 | publishing the journal over complete staging starts the in-flight phase with both ways open |
| SdkTransaction.FileSystem.WriteDurable | cmd/nre-ci/sdk_transaction.go:63-75 | a failed write leaves the file as it was or with any content; a success leaves exactly the data |
| SdkTransaction.FileSystem.RenameAndSync | cmd/nre-ci/sdk_transaction.go:419-430 | the rename either happened or did not, whatever error is reported; a dead process changes nothing |
| SdkTransaction.FileSystem.RemoveAndSync | cmd/nre-ci/sdk_transaction.go:432-437 | the removal either happened or did not, whatever error is reported |
| SdkTransaction.FileSystem.RemoveIfExists | cmd/nre-ci/sdk_transaction.go:439-446 | success means the path is gone; without faults it always succeeds |
| SdkTransaction.CheckRollForward | cmd/nre-ci/sdk_transaction.go:359-372 | never says yes wrongly, and without faults is exactly whether every new content is present |
| SdkTransaction.CheckRollBack | cmd/nre-ci/sdk_transaction.go:374-387 | never says yes wrongly, and without faults is exactly whether every old content is present |
| SdkTransaction.CleanUp | cmd/nre-ci/sdk_transaction.go:297-317 | keeps the invariant at every crash point; without error only the kept generation is left, and the journal goes last; one failure that is no crash leaves at most one leftover |
| SdkTransaction.SweepTarget | cmd/nre-ci/sdk_transaction.go:300-311 | removes both leftovers of a target, the second also when the first fails |
| SdkTransaction.VerifyTargets | cmd/nre-ci/sdk_transaction.go:230-235 | succeeds only if the targets are the wanted generation, and without faults exactly then |
| SdkTransaction.PromoteTarget | cmd/nre-ci/sdk_transaction.go:196-228 | one target rolled forward: only that target changes, and no copy of a content appears or is lost wrongly |
| SdkTransaction.RollForward | cmd/nre-ci/sdk_transaction.go:194-237 | from any recoverable in-flight disk, success leaves exactly the new generation; every crash point keeps the invariant |
| SdkTransaction.RestoreTarget | cmd/nre-ci/sdk_transaction.go:242-272 | one target rolled back: only that target changes and every old content stays recoverable |
| SdkTransaction.RollBack | cmd/nre-ci/sdk_transaction.go:239-284 | from any disk with all old contents, success leaves exactly the old generation; every crash point keeps the invariant; one failure that is no crash leaves at most one target behind |
| SdkTransaction.CleanUpOrphans | cmd/nre-ci/sdk_transaction.go:341-357 | without a journal only staged leftovers disappear; success leaves exactly the targets |
| SdkTransaction.Recover | cmd/nre-ci/sdk_transaction.go:156-192 | keeps the invariant; success leaves exactly one whole generation; without faults it always succeeds, forward exactly when every new content exists; after one failure on the way forward it goes back if it can |
| SdkTransaction.CloseStep | cmd/nre-ci/sdk_transaction.go:297-317 | removing the journal when no leftover is there leaves exactly the kept generation |
| SdkTransaction.PublishAndRoll | cmd/nre-ci/sdk_transaction.go:124-153 | from complete staging, success leaves exactly the new generation and hides no failure; a failure or crash leaves a disk between the two, one failure that is no crash an undone update, and one reported error the old targets |
| SdkTransaction.RollOrFail | cmd/nre-ci/sdk_transaction.go:135-153 | the same once the journal is published: a failed roll forward is rolled back |
| SdkTransaction.StageAndPublish | cmd/nre-ci/sdk_transaction.go:88-153 | the same for the whole update after its recovery |
| SdkTransaction.CleanUpPreManifest | cmd/nre-ci/sdk_transaction.go:319-339 | giving up before the journal is known to exist leaves the old targets alone; without error the staged files and the temporary journal are gone |
| SdkTransaction.AbortBeforeManifest | cmd/nre-ci/sdk_transaction.go:90-95 | reports its cause first and leaves the old targets alone; after a crash it changes nothing |
| SdkTransaction.FailTransaction | cmd/nre-ci/sdk_transaction.go:286-295 | reports its cause first; without every old content it changes nothing, and if it adds no error exactly the old generation is left |
| SdkTransaction.StageTarget | cmd/nre-ci/sdk_transaction.go:97-122 | writes at most the staged file of its target and records the true old and new content |
| SdkTransaction.Stage | cmd/nre-ci/sdk_transaction.go:96-123 | success means every target is staged and the recorded entries describe exactly the update |
| SdkTransaction.Promote | cmd/nre-ci/sdk_transaction.go:81-154 | other targets than the canonical ones are refused; success leaves exactly the staged generation; on any failure or crash the disk is between the old and the new one; without faults a complete staging succeeds; an update that reports one error, not a crash, leaves the old targets, and one that fails once is undone |
| SdkTransaction.NeverBothLost | cmd/nre-ci/sdk_transaction.go:156-192 | while a journal exists, the old and the new generation are never both incomplete |
| SdkTransaction.Irrevocable | cmd/nre-ci/sdk_transaction.go:156-192 | a generation that lost its last copy of a file is never shown again |
| SdkTransaction.RunIrrevocable | cmd/nre-ci/sdk_transaction.go:156-192 | in the run of an update and its recoveries, after a lost new content no later success is the new generation, and likewise for the old one |
| SdkTransaction.UpdateThenRecover | cmd/nre-ci/sdk_transaction.go:77-192 | an update and any number of recoveries, each with or without faults: every disk is between the generations, every success is one whole generation, directions do not flip, and a recovery without faults succeeds after any past in the direction its disk decides; the last moment is the disk it leaves |
| SdkTransaction.RunCommand | cmd/nre-ci/sdk_transaction.go:77-192 | one command in a fresh process: a success leaves one whole generation, an update its own; a recovery makes no content appear; without faults a recovery or a complete update succeeds |
| SdkTransaction.SuccessIsOffered | cmd/nre-ci/sdk_transaction.go:77-192 | in every history a success leaves exactly one generation offered up to then, an update its own |
| SdkTransaction.SuccessIsDurable | cmd/nre-ci/sdk_transaction.go:77-192 | after a success every later success leaves the same generation or the staging of a later update, whatever failed or crashed in between |
| SdkTransaction.RecoveriesKeepSuccess | cmd/nre-ci/sdk_transaction.go:156-192 | recoveries alone never take a success back |
| SdkTransaction.DirectionIsFinal | cmd/nre-ci/sdk_transaction.go:156-192 | in every history, once the disk that a recovery finds has lost a new content, that recovery and all after it, crashing or not, can only end with the old generation, and the other way round |
| SdkTransaction.OneFailureIsUndone | cmd/nre-ci/sdk_transaction.go:81-154 | in every history, an update on a clean disk in which one operation fails without a crash leaves the old generation and nothing else, or with the journal that a failing rename published, or the new generation when old contents were cleaned up already |
| SdkTransaction.OneErrorKeepsTargets | cmd/nre-ci/sdk_transaction.go:81-154 | in every history, however many operations fail, an update on a clean disk that reports one error, not a crash, leaves every target as it was |
| SdkTransaction.OneFailureThenRecovery | cmd/nre-ci/sdk_transaction.go:81-192 | the recovery after such a failure ends with the old generation, or with the new one when that was complete |
| SdkTransaction.CalmSucceeds | cmd/nre-ci/sdk_transaction.go:77-192 | in every history, with any faulty past, a recovery without faults succeeds in the direction its disk decides, and a complete update without faults succeeds |
| SdkTransaction.History | cmd/nre-ci/sdk_transaction.go:77-192 | every sequence of updates and recoveries is such a history |
| Admission.CountersStep | plugins/cloudflare-dns/service.go:576-649 | every step keeps slots, host-call tokens and the wait counter equal to what the goroutines hold |
| Admission.OwnershipStep | plugins/cloudflare-dns/service.go:602-649 | every step keeps a call that has not started attached to its open operation, and cleanup counts right |
| Admission.CountedIsPositive | plugins/cloudflare-dns/service.go:576-649 | while any operation or host call is counted the wait counter is positive |
| Admission.ActiveRisesOnlyWhileCounted | plugins/cloudflare-dns/service.go:576-649 | after cancellation the wait counter never leaves zero again |
| Admission.InvStep | plugins/cloudflare-dns/service.go:576-768 | the whole invariant is kept by every step of begin, awaitOwned, Cancel and Close |
| Admission.RunInv | plugins/cloudflare-dns/service.go:576-768 | the invariant holds in every state of every interleaving |
| Admission.BoundsAlways | plugins/cloudflare-dns/service.go:576-649 | at most 64 operations and 64 host calls at any time, and the wait counter is exactly their number |
| Admission.CleanupExactlyOnce | plugins/cloudflare-dns/service.go:602-649 | cleanup never runs twice, never before the host call ended, and has run when the call is done |
| Admission.RefusedExactlyWhenFull | plugins/cloudflare-dns/service.go:588-593 | an operation is refused exactly while 64 operations are open |
| Admission.NoneCountedIsQuiescent | plugins/cloudflare-dns/service.go:758-768 | a zero wait counter means every operation ended and every host call is done |
| Admission.NothingAfterClose | plugins/cloudflare-dns/service.go:741-768 | after a Close that returned nil nothing runs, then or later, and nothing can be started |
| Admission.NothingStartsAfterCancel | plugins/cloudflare-dns/service.go:602-640 | in every interleaving a host call that is approved or runs after Cancel had passed both checks before it, and no operation is admitted any more |
| Admission.TurnedAwayAfterCancel | plugins/cloudflare-dns/service.go:602-624 | a call that enters after Cancel, or had not passed its first check, takes no token, never runs and ends with one cleanup |
| Admission.StartsWereApproved | plugins/cloudflare-dns/service.go:619-640 | a host call that starts after Cancel was approved before it, and at most 64 were |
| Admission.LiveCallRuns | plugins/cloudflare-dns/service.go:602-640 | while the service is live and a token is free a call that enters gets its host call to run |
| Admission.NothingReturnedTwice | plugins/cloudflare-dns/service.go:576-649 | no step finds a pool or counter empty that it must give back to |
| Admission.WorkFalls | plugins/cloudflare-dns/service.go:576-649 | every step of an operation or call that is there, other than a new call, is one fewer to go |
| Admission.SomeStep | plugins/cloudflare-dns/service.go:576-649 | while anything is counted some such step is possible |
| Admission.CloseCanReturn | plugins/cloudflare-dns/service.go:741-768 | from every reachable cancelled state Close can return after a bounded number of such steps |
| Encodings.SecretRefKeyInjective | plugins/cloudflare-dns/mapping.go:33-36 | the bytes hashed for a secret reference determine suffix and epoch, for suffixes without NUL |
| Encodings.FieldsBytesInjective | plugins/cloudflare-dns/service.go:26-35 | the bytes hashed for an operation key determine the fields, their number and their borders |
| Encodings.BigEndianAt | plugins/cloudflare-dns/service.go:26-35 | lengths are written with the most significant byte first |
| Encodings.KeyLayout | plugins/cloudflare-dns/service.go:26-35 | the bytes for two short fields: eight bytes of length before each |
| Encodings.StableOperationKey | plugins/cloudflare-dns/service.go:26-35 | the loop hashes exactly the injective encoding of its fields |
| Encodings.RecordsTextInjective | internal/buildkit/files.go:117-123 | the text hashed for a file tree determines the records, even with newlines in paths |
| Encodings.RecordLayout | internal/buildkit/files.go:117-123 | path, mode, decimal size and digest stand in this order, with NUL between and a newline behind |
| Encodings.DigestRecords | internal/buildkit/files.go:117-123 | the loop hashes exactly the injective encoding of its records |
| Strings.TrimTwice | plugins/docker-app/semver.go:176-201 | trimming space twice is trimming it once |
| Strings.TrimCuts | plugins/docker-app/semver.go:176-201 | trimming cuts off exactly the space around a text |
| Strings.SplitInjective | plugins/cloudflare-dns/suffix.go:29-40 | a name is determined by its labels, a path by its components |
| Suffix.NormalizeDomain | plugins/cloudflare-dns/suffix.go:10-42 | returns the normal form exactly for the inputs that have one: dotted labels of 1 to 63 letters, digits and inner hyphens, 253 in all |
| Suffix.NormalizedIdempotent | plugins/cloudflare-dns/suffix.go:10-42 | normalizing a normal form changes nothing |
| Suffix.NameIsFixed | plugins/cloudflare-dns/suffix.go:10-42 | every well-formed name is its own normal form |
| Suffix.NormalFormOf | plugins/cloudflare-dns/suffix.go:10-42 | a text has a normal form exactly when, without space around it, it is a well-formed name in some letter case with or without one dot behind it, and that name is the normal form |
| Suffix.CaseAndDotDoNotMatter | plugins/cloudflare-dns/suffix.go:10-42 | letter case and one dot at the end change nothing |
| Suffix.LongestLabel | plugins/cloudflare-dns/suffix.go:29-40 | a label has 1 to 63 characters |
| Suffix.MatchIsByLabels | plugins/cloudflare-dns/suffix.go:46-48 | a suffix matches exactly when its labels are the last labels of the domain |
| Suffix.LongestMatchUnique | plugins/cloudflare-dns/suffix.go:52-73 | there is only one longest match, so the order of the list does not matter |
| Suffix.LongestSuffixMatch | plugins/cloudflare-dns/suffix.go:52-73 | returns the longest matching normal form in the list, or nothing exactly when none matches |
| MappingMemory.RetireKeeps | plugins/cloudflare-dns/mapping.go:608-635 | retiring epochs keeps the invariant and never makes a spent epoch usable again |
| MappingMemory.StoreKeeps | plugins/cloudflare-dns/mapping.go:665-685 | storing a fresh mapping keeps the invariant and spends its epoch |
| MappingMemory.ShareKeeps | plugins/cloudflare-dns/mapping.go:133-184 | sharing keeps the invariant: mappings of one secret agree on version and provider |
| MappingMemory.DeleteKeeps | plugins/cloudflare-dns/mapping.go:330-367 | deleting keeps the invariant and retires the epoch |
| MappingMemory.RenameKeeps | plugins/cloudflare-dns/mapping.go:186-236 | renaming keeps the invariant and spends no fewer epochs |
| MappingMemory.RotateKeeps | plugins/cloudflare-dns/mapping.go:713-748 | rotating keeps the invariant and the spent epochs |
| MappingMemory.UndoReturns | plugins/cloudflare-dns/mapping_catalog.go:208-217 | undoing restores the earlier mappings and revision exactly and only retires more |
| MappingMemory.StoreNewEpochs | plugins/cloudflare-dns/mapping_catalog.go:193-202 | the epochs collected for a store are exactly the one stored, with or without a reservation |
| MappingMemory.UndoStore | plugins/cloudflare-dns/mapping_catalog.go:208-217 | undoing a store removes its reservation and retires its epoch, nothing else |
| MappingMemory.RebuildInverts | plugins/cloudflare-dns/mapping_catalog.go:127-152 | rebuilding from any listing of the mappings gives the mappings back |
| MappingMemory.PatternGrows | plugins/cloudflare-dns/model.go:58 | which characters a version may begin and go on with, and that it has at most 128 |
| MappingRules.ShareMeans | plugins/cloudflare-dns/mapping.go:133-184 | the shared suffix gets secret, version and provider of the source under its own next epoch, and every other mapping stays as it is |
| MappingRules.RenameMeans | plugins/cloudflare-dns/mapping.go:186-236 | the mapping moves with secret, version, provider and epoch, its epoch is retired at the old suffix, and every other mapping stays as it is |
| MappingRules.DeleteMeans | plugins/cloudflare-dns/mapping.go:330-367 | exactly the mapping is gone and exactly its epoch is retired |
| MappingRules.RotateMeans | plugins/cloudflare-dns/mapping.go:713-748 | every mapping of the secret gets the version and changes in nothing else, and mappings of other secrets stay as they are |
| MappingRules.VersionComesFrom | plugins/cloudflare-dns/mapping.go:278-321 | a rotated version comes from the ledger, the answer of the vault or, after an unclear error, the ledger again; a stale answer is asked again once and only when verified |
| MappingRules.RotationErrorTells | plugins/cloudflare-dns/mapping.go:278-321 | which answer each error of a rotation stands for |
| MappingRules.RefusalTells | plugins/cloudflare-dns/mapping.go:83-102 | which answer or bound each error of a create without an enrollment stands for |
| MappingRules.UndoneOnlyRetires | plugins/cloudflare-dns/mapping_catalog.go:193-217 | a lost save of a change to one suffix retires epochs of that suffix only, and none if the suffix is gone |
| MappingRules.UndoneExactly | plugins/cloudflare-dns/mapping_catalog.go:193-217 | a lost save brings the mappings back and retires, at every suffix, exactly the epoch that the change brought there |
| MappingRules.LostShareSkips | plugins/cloudflare-dns/mapping_catalog.go:193-217 | a lost share leaves its suffix free and one epoch further |
| MappingRules.UndoneRotation | plugins/cloudflare-dns/mapping_catalog.go:193-217 | a lost save of a rotation retires no more than the epoch that the mapping of a suffix holds |
| MappingRules.StoredIsCreated | plugins/cloudflare-dns/mapping.go:665-685 | a fresh store is a creation and spends its epoch |
| MappingRules.NotStoredOnlyRetires | plugins/cloudflare-dns/mapping.go:665-685 | a store that fails retires its epoch, unless the version was malformed |
| MappingRules.ApplyShare | plugins/cloudflare-dns/mapping.go:133-184 | applies exactly when sharing is possible, and then gives the memory of the specification, else the error that says why |
| MappingRules.ApplyRename | plugins/cloudflare-dns/mapping.go:186-236 | applies exactly when renaming is possible, and then gives the memory of the specification, else the error that says why |
| MappingRules.ApplyRotated | plugins/cloudflare-dns/mapping.go:713-748 | the loop rotates exactly the mappings that hold the reference |
| MappingRules.FirstEvent | plugins/cloudflare-dns/mapping.go:83-107 | a round comes to an enrollment exactly when it is authorized, unknown to the ledger and possible, and to a replay exactly when the ledger calls it committed; the event is about the next epoch of the suffix |
| MappingRules.SmoothDecides | plugins/cloudflare-dns/mapping.go:83-127 | in a round without surprises the free suffix, the bound and the save alone decide whether a mapping is created |
| MappingRules.EnrollKeepsFresh | plugins/cloudflare-dns/mapping.go:100-107 | enrolling the next epoch of a free suffix reuses only references that were left open |
| MappingRules.EventDecides | plugins/cloudflare-dns/mapping.go:83-130 | an event that leaves its epoch open, or spends it, tells exactly whether the next create enrolls the reference again |
| MappingHistory.StepElsewhere | plugins/cloudflare-dns/mapping.go:42-367 | an operation leaves every suffix it does not name as free as before, with the same next epoch |
| MappingHistory.SameBetween | plugins/cloudflare-dns/mapping.go:42-367 | so does any sequence of operations of a service that is live at its end |
| MappingHistory.FirstLogged | plugins/cloudflare-dns/mapping.go:83-130 | what a create logs first is about the next epoch of its suffix, and what it logs last decides whether the next create enrolls that reference again |
| MappingHistory.ReusedIffOpen | plugins/cloudflare-dns/mapping.go:55-131 | in every history, of two creates of one suffix with nothing between them that names it, the second enrolls the last reference of the first again exactly when that was left open; for an accepted one exactly when it leaked |
| MappingSaves.MatchesStep | plugins/cloudflare-dns/mapping_catalog.go:178-221 | whatever other goroutines do to the memory during a save, the catalog belongs to the memory before it or, once saved, after it |
| MappingSaves.CatalogAlwaysMatches | plugins/cloudflare-dns/mapping_catalog.go:178-221 | in every interleaving the catalog holds the configured mappings of a live service when no save is in progress |
| MappingSaves.LostSaveForgets | plugins/cloudflare-dns/mapping_catalog.go:203-217 | after a lost save the memory only depends on the one the save began with |
| MappingSaves.RetirementStays | plugins/cloudflare-dns/mapping.go:608-635 | without a lost save or a cancellation no epoch becomes available again |
| MappingSaves.GivenUpStaysIff | plugins/cloudflare-dns/mapping.go:608-615 | an epoch given up during a save stays retired exactly when the save is done or the memory from before and the undone change cover it |
| MappingSaves.CancelledHoldsIff | plugins/cloudflare-dns/mapping_catalog.go:172-217 | a cancelled service has a mapping exactly when a save in progress at the cancellation was lost and the mapping was there before that save |
| MappingSaves.CancelIsUndone | plugins/cloudflare-dns/mapping_catalog.go:172-217 | such a run: the cancelled service has all its mappings again |
| MappingSaves.GivenUpIsLost | plugins/cloudflare-dns/mapping.go:108-113 | a run in which a reference that was given up is taken again by the next create |
| MappingService.Service.constructor | plugins/cloudflare-dns/service.go:37-67 | the memory of a new service is the catalog read back, or empty without one, and satisfies the invariant if the catalog does |
| MappingService.Service.Cancel | plugins/cloudflare-dns/service.go:741-756 | revokes the service and forgets mappings and retired epochs; the catalog stays |
| MappingService.Service.CatalogSnapshot | plugins/cloudflare-dns/mapping_catalog.go:140-152 | lists every configured mapping, in any order, with retired epochs and revision |
| MappingService.Service.CollectNewEpochs | plugins/cloudflare-dns/mapping_catalog.go:193-202 | finds exactly the epochs the change introduced |
| MappingService.Service.UndoTo | plugins/cloudflare-dns/mapping_catalog.go:208-217 | leaves the memory the undo of the change specifies |
| MappingService.Service.Persist | plugins/cloudflare-dns/mapping_catalog.go:178-221 | saved: memory and catalog are the same; not saved: the catalog is untouched and the memory is the undone one; without a catalog the memory is kept |
| MappingService.Service.ApplyAndPersist | plugins/cloudflare-dns/mapping_catalog.go:178-221 | all or nothing: the new memory is kept and durable, or the old one is back with the new epochs retired |
| MappingService.Service.DeleteMapping | plugins/cloudflare-dns/mapping.go:330-367 | fails exactly when a check, the missing suffix or the save says so, and then nothing changed; otherwise exactly the mapping is gone, durably, also when the report makes the reply an error |
| MappingService.Service.ShareMapping | plugins/cloudflare-dns/mapping.go:133-184 | fails exactly when a check, the memory or the save says so, and then only epochs of the suffix may be retired; otherwise the secret is shared, durably, also when the report makes the reply an error |
| MappingService.Service.RenameMapping | plugins/cloudflare-dns/mapping.go:186-236 | fails exactly when a check, the memory or the save says so, and then only epochs of the new suffix may be retired; otherwise exactly that mapping moved, durably, also when the report makes the reply an error |
| MappingService.Service.StoreMapping | plugins/cloudflare-dns/mapping.go:665-685 | fails exactly on a malformed version, which retires nothing, or a lost save, which retires the epoch; otherwise the mapping is stored durably |
| MappingService.Service.AdoptCommitted | plugins/cloudflare-dns/mapping.go:687-711 | a secret the ledger calls committed is stored under its epoch, and the log says whether it can be enrolled again |
| MappingService.Service.FinishCommitted | plugins/cloudflare-dns/mapping.go:687-711 | fails exactly when the replay is not adopted; a lost first save adopts and retires nothing |
| MappingService.Service.ReserveAndEnroll | plugins/cloudflare-dns/mapping.go:100-109 | logs the enrollment with the answer, and reuses only references that were left open |
| MappingService.Service.AfterVaultError | plugins/cloudflare-dns/mapping.go:108-125 | asks for another round only with the epoch given up, adopts what the ledger calls committed, or fails with the memory as it was |
| MappingService.Service.CreateAttempt | plugins/cloudflare-dns/mapping.go:83-126 | one round: what it logs first, when an accepted reference is adopted, and whether the next create would enroll the last reference again |
| MappingService.Service.CreateMapping | plugins/cloudflare-dns/mapping.go:55-131 | success creates exactly the mapping, durably, also when the report makes the reply an error; failure changes no mapping and only retires epochs of its suffix; the last event decides exactly whether the next create enrolls its reference again |
| MappingService.Service.RotateMappingToken | plugins/cloudflare-dns/mapping.go:238-328 | fails exactly when a check, the vault or the save says so, and then no mapping changed; otherwise every mapping of the secret has the new version, durably, also when the report makes the reply an error |
| MappingService.Service.LookupStored | plugins/cloudflare-dns/mapping.go:645-663 | finds the stored mapping with the longest matching suffix, or none when none matches |
| MappingService.LookupAgrees | plugins/cloudflare-dns/mapping.go:432-457 | looking up in the service and matching against its list of suffixes give the same suffix |
| MappingService.RunCommand | plugins/cloudflare-dns/mapping.go:42-367 | any operation with any host answers is a step of the history: the effect asked for or none, success exactly when checks, memory, vault and save allow it, the log of a create, what the caller is told, and which errors tell whether there was an effect |
| MappingService.Lifetime | plugins/cloudflare-dns/mapping.go:42-367 | any sequence of operations is a history of the service, from its old to its new state; in it an accepted reference is enrolled again only if it leaked, sharers agree, and the catalog read back is the memory up to retired epochs |
| MappingService.Restart | plugins/cloudflare-dns/mapping_catalog.go:127-152 | a service restarted from the catalog has the same mappings and revision, and the same next epoch of a free suffix exactly when its retirements were saved |
| MappingService.CreateTwice | plugins/cloudflare-dns/mapping.go:55-131 | in an empty service, a reference the first create leaves open is enrolled by the second, which succeeds |
| MappingService.MalformedIsReused | plugins/cloudflare-dns/mapping.go:665-668 | such a run with a malformed version |
| MappingService.LostReplayIsReused | plugins/cloudflare-dns/mapping.go:687-705 | such a run with the save of a replay lost |
| MappingService.UnclearIsReused | plugins/cloudflare-dns/mapping.go:108-125 | such a run with an unclear error of the vault |
| MappingService.RestartForgets | plugins/cloudflare-dns/mapping_catalog.go:127-138 | a reference accepted with a well-formed version is enrolled again by a service restarted after its save was lost |
| MappingService.PendingWithoutEffect | plugins/cloudflare-dns/mapping.go:89-99 | a create that returns pending and stored nothing |
| MappingService.PendingWithEffect | plugins/cloudflare-dns/mapping.go:750-762 | a create that returns pending and stored the mapping |
| MappingService.RevokedWithEffect | plugins/cloudflare-dns/mapping.go:750-753 | a create that returns revoked and stored the mapping |
| MappingService.RevokedWithoutEffect | plugins/cloudflare-dns/service.go:576-585 | a create that returns revoked and changed nothing |
| MappingService.RotationWithoutEffect | plugins/cloudflare-dns/mapping.go:281-291 | a rotation that returns pending and changed nothing |
| MappingService.RotationWithEffect | plugins/cloudflare-dns/mapping.go:750-762 | a rotation that returns pending and stored the new version |
| Cache.LongestFitUnique | plugins/doh/cache.go:48-80 | there is only one longest run of newest entries that fits |
| Cache.EvictionStep | plugins/doh/cache.go:48-80 | evicting the oldest entry loses no run of newest entries that would fit |
| Cache.MemoryCache.constructor | plugins/doh/cache.go:25-27 | a new cache is empty with the given limits |
| Cache.MemoryCache.Get | plugins/doh/cache.go:29-46 | a hit is exactly a stored entry that has not expired, and it is what the latest successful put stored; an expired entry is dropped |
| Cache.MemoryCache.FindOldest | plugins/doh/cache.go:64-70 | finds the entry with the smallest put number |
| Cache.MemoryCache.MakeRoom | plugins/doh/cache.go:63-76 | keeps the longest run of newest entries that leaves room, and only fails with an empty cache |
| Cache.MemoryCache.Insert | plugins/doh/cache.go:48-80 | succeeds exactly when the record alone fits; then the newest entries that still fit are kept beside it |
| Cache.MemoryCache.Put | plugins/doh/cache.go:48-80 | success and failure are decided by the limits alone; a failed put keeps the entries exactly when its arguments were refused or there were none |
| Cache.LosingPut | plugins/doh/cache.go:48-80 | a put that fits without its key and not with it takes along any entry found just before |
| Cache.EmptyingPut | plugins/doh/cache.go:48-80 | such a run on a cache of four bytes |
| Cache.MemoryCache.Reset | plugins/doh/cache.go:82-91 | empties the cache unless cancelled |
| Cache.MemoryCache.Stats | plugins/doh/cache.go:93-97 | the running byte count is the sum of the record sizes, and both limits hold unless the cache is empty |
| DeploymentStore.NothingGoesBack | plugins/docker-app/deployment_persist.go:50-114 | versions and tokens of a record never decrease while it exists |
| DeploymentStore.LeaseTokensGrow | plugins/docker-app/deployment_persist.go:50-72 | each later lease of a living record has a strictly larger token |
| DeploymentStore.OldTokensAreFenced | plugins/docker-app/deployment_persist.go:74-114 | after a lease, no swap or removal with an older token takes effect for the rest of the record |
| DeploymentStore.OneWriterPerVersion | plugins/docker-app/deployment_persist.go:74-95 | at most one operation takes effect per version of a living record |
| DeploymentStore.RemovalRestartsTokens | plugins/docker-app/deployment_persist.go:97-114 | after a removal the same version and token are handed out again |
| DeploymentStore.NextTokenGrowsIffRecordLives | plugins/docker-app/deployment_persist.go:50-114 | from one lease to the next the token grows exactly when the record was not removed in between |
| DeploymentStore.ApplyMeans | plugins/docker-app/deployment_persist.go:50-114 | what each operation needs and leaves, field by field, with every other record as it was |
| DeploymentStore.ReadsLastWrite | plugins/docker-app/deployment_persist.go:33-114 | in every run what is read of a record is what the last operation on it that took effect was given |
| DeploymentStore.Store.constructor | plugins/docker-app/deployment_persist.go:26-31 | a new store holds nothing |
| DeploymentStore.Store.LoadSnapshot | plugins/docker-app/deployment_persist.go:116-131 | gives what is stored, or an empty snapshot, exactly when the backend answers and the bound holds |
| DeploymentStore.Store.Persist | plugins/docker-app/deployment_persist.go:133-141 | stores exactly within the bound of 128 applications and if the backend does, and says so exactly if that is reported |
| DeploymentStore.Store.Load | plugins/docker-app/deployment_persist.go:33-48 | finds exactly the stored record, and fails exactly when the backend does |
| DeploymentStore.Store.AcquireLease | plugins/docker-app/deployment_persist.go:50-72 | takes effect as the lease of the single-map specification exactly when version, bound and backend allow it; the reply tells so exactly when the backend reports it |
| DeploymentStore.Store.CompareAndSwap | plugins/docker-app/deployment_persist.go:74-95 | the same for the swap, which also needs the current token; the record then has exactly the fields of the caller |
| DeploymentStore.Store.DeleteCAS | plugins/docker-app/deployment_persist.go:97-114 | the same for the removal, which also needs an existing record |
| DeploymentStore.RecordsDecide | plugins/docker-app/deployment_persist.go:116-141 | fences never outnumber records, so the bound is decided by the records |
| DeploymentStore.Serve | plugins/docker-app/deployment_persist.go:50-114 | every sequence of calls, with any answers of the backend, is a run of the specification in which records and answers decide what takes effect and what the caller is told |
| DeploymentStore.SwapThenLoad | plugins/docker-app/deployment_persist.go:33-95 | a swap that is done is read back with body, lease and end of the caller, the same token and the next version; after a conflict the old record is |
| DeploymentStore.LeaseThenLoad | plugins/docker-app/deployment_persist.go:33-72 | a lease that is done is read back with the body of the caller, the end of the lease and the next token |
| BackupNames.DotDotIsAComponent | plugins/docker-app/backup_artifact.go:756-771 | a name with /../ in it has a component that is two dots |
| BackupNames.CleanKeepsPlain | plugins/docker-app/backup_artifact.go:739-754 | cleaning a path without empty, dot and dot-dot components changes nothing |
| BackupNames.CleanRefusesEscapes | plugins/docker-app/backup_artifact.go:739-754 | a path is refused exactly when it climbs above its start somewhere on the way |
| BackupNames.CleanedIsPlain | plugins/docker-app/backup_artifact.go:739-754 | what is left of a path holds names only, so it stays below the extraction root |
| BackupNames.MemberBelow | plugins/docker-app/backup_artifact.go:739-771 | a plain path below a directory stays below it |
| BackupNames.VolumeMemberIsValid | plugins/docker-app/backup_artifact.go:773-794 | every volume name creation accepts becomes a member name verification accepts |
| BackupNames.VolumeNameGrows | plugins/docker-app/backup_artifact.go:773-790 | which characters a volume name may begin and go on with, and that it has at most 128 |
| BackupNames.WorkspaceMemberIsValid | plugins/docker-app/backup_artifact.go:756-771 | a workspace path becomes a valid member name exactly when it has at most 502 bytes and no backslash |
| BackupNames.WalkPathIsSafe | plugins/docker-app/backup_artifact.go:739-754 | a workspace path is extracted to itself exactly when it does not look like a Windows drive |
| Backup.CheckMembers | plugins/docker-app/backup_artifact.go:461-484 | accepts exactly distinct valid members with a compose document among them |
| Backup.ValidateManifest | plugins/docker-app/backup_artifact.go:442-485 | accepts exactly the valid manifests |
| Backup.MatchMembers | plugins/docker-app/backup_artifact.go:388-417 | accepts exactly the members of the manifest, in order, with its sizes, digests and payload sum |
| Backup.Verify | plugins/docker-app/backup_artifact.go:374-440 | returns a manifest exactly when the artifact is accepted with it |
| Backup.CheckVolumes | plugins/docker-app/backup_artifact.go:131-140 | accepts exactly distinct valid volume names |
| Backup.StageMembers | plugins/docker-app/backup_artifact.go:194-263 | stages compose, packed workspace files in walk order and volumes; fails exactly on a symlink or irregular file |
| Backup.HashMembers | plugins/docker-app/backup_artifact.go:266-287 | the manifest matches the staged members |
| Backup.Pack | plugins/docker-app/backup_artifact.go:118-190 | succeeds exactly on allowed sources and writes the manifest followed by the members it describes |
| Backup.MemberNamesDiffer | plugins/docker-app/backup_artifact.go:194-263 | no two members of an artifact have the same name |
| Backup.PackedMembersAreValid | plugins/docker-app/backup_artifact.go:756-771 | the packed names are valid exactly when every packed path is portable |
| Backup.PackedIsAccepted | plugins/docker-app/backup_artifact.go:118-485 | a written artifact is accepted, with its own manifest, exactly when the packed paths are portable, the timestamp parses and the manifest has at most 1 MiB |
| Restore.DigestOfMember | plugins/docker-app/backup_artifact.go:642-649 | with distinct names the digest found by name is that of the member |
| Restore.ReadMember | plugins/docker-app/backup_artifact.go:600-640 | reads the first entry of the name and gives it out only with the recorded digest |
| Restore.AcceptedIsReadable | plugins/docker-app/backup_artifact.go:600-640 | from an accepted artifact every member is read back whole |
| Restore.ReplacedIsNoticed | plugins/docker-app/backup_artifact.go:600-640 | whatever replaced the artifact, what is read under a name has the digest verified under that name |
| Restore.ExtractWorkspace | plugins/docker-app/backup_artifact.go:543-596 | the loop writes exactly the specified tree or fails |
| Restore.TreeHolds | plugins/docker-app/backup_artifact.go:543-596 | the expected tree has every packed file at its path |
| Restore.TreeHoldsOnly | plugins/docker-app/backup_artifact.go:543-596 | the expected tree has nothing else |
| Restore.WorkspaceIsRestored | plugins/docker-app/backup_artifact.go:543-596 | extracting an accepted artifact gives exactly the packed files, or fails exactly when a packed path starts like a Windows drive |
| Restore.PackedMeans | plugins/docker-app/backup_artifact.go:194-263 | packed is exactly every regular file other than compose.yaml outside backups/ and backup-staging/ |
| Restore.UserFilesComeBack | plugins/docker-app/backup_artifact.go:543-596 | the extracted tree holds every such file with its content at its path, and nothing else |
| Restore.VolumesComeBack | plugins/docker-app/backup_artifact.go:600-640 | every volume is read back under its name |
| Restore.ReadCompose | plugins/docker-app/backup_artifact.go:508-525 | reads the compose document within its size limit |
| Restore.BackUpAndRestore | plugins/docker-app/backup_artifact.go:118-596 | refused exactly when not allowed, restored exactly when verifiable, and then the compose document and the workspace come back |
| Restore.BackslashIsUnverifiable | plugins/docker-app/backup_artifact.go:118-190 | a workspace file named with a backslash is packed and then refused |
| Restore.DriveIsUnextractable | plugins/docker-app/backup_artifact.go:543-596 | a workspace file named a:b is packed and accepted, and then cannot be extracted |
| Versions.LexIsOrder | plugins/docker-app/semver.go:48-61 | element-by-element comparison of sequences is a total order if that of the elements is |
| Versions.IdentIsOrdered | plugins/docker-app/semver.go:48-61 | prerelease identifiers are totally ordered |
| Versions.VersionsAreOrdered | plugins/docker-app/semver.go:48-61 | precedence is a total order on versions |
| Versions.CompareMeans | plugins/docker-app/semver.go:48-61 | the comparison is the precedence in section 11 of Semantic Versioning 2.0.0: major, minor, patch, then no prerelease above any, then identifiers from left to right |
| Versions.StandardChain | plugins/docker-app/semver.go:48-61 | the chain of versions that the standard gives as its example |
| Tags.TrimmedExtracts | plugins/docker-app/semver.go:176-201 | surrounding space does not change the tag cut out of a reference |
| Tags.TagOfReference | plugins/docker-app/semver.go:176-201 | the tag is what stands behind the first colon of the last path component, without a digest, and there is none without a colon |
| Tags.TagReadsAlike | plugins/docker-app/semver.go:156-201 | the tag cut out of an image reference reads as the same version and variant as the reference |
| Tags.SelectionIsUnique | plugins/docker-app/semver.go:97-154 | the selection of the highest eligible versions is unique |
| Tags.Collect | plugins/docker-app/semver.go:121-142 | keeps for every eligible version the first tag that offers it, and nothing else |
| Tags.SortDescending | plugins/docker-app/semver.go:143-145 | a strictly descending permutation of its input |
| Tags.SelectTop | plugins/docker-app/semver.go:143-153 | the first twenty of the sorted tags are the selection |
| Tags.SelectCandidates | plugins/docker-app/semver.go:97-154 | returns exactly the first listed tags of the at most twenty highest eligible versions, strictly descending |
| Tags.EligibleMeans | plugins/docker-app/semver.go:121-135 | eligible is exactly what comes after the current version in its variant and is no prerelease unless the current one is, or what the range accepts |
| Tags.SelectionMeans | plugins/docker-app/semver.go:97-154 | every tag returned is such an upgrade, and they descend |
| Tags.SelectionMisses | plugins/docker-app/semver.go:97-154 | every listed upgrade has its version in the result, under a tag listed no later, or the result has twenty that come after it |
| Tags.OffersNextMajor | plugins/docker-app/semver.go:97-154 | to 1.5.0 the tag 2.0.0 is offered |
| Variants.FindChannel | plugins/docker-app/semver.go:252-269 | decides whether a token is a prerelease channel, with a number and a remainder behind it |
| Variants.NamesAreChannels | plugins/docker-app/semver.go:18-21 | every channel name, with or without a number, is a channel |
| Variants.RemainderDecides | plugins/docker-app/semver.go:271-284 | behind a channel and a dot exactly words between dots may follow |
| Variants.SplitMeans | plugins/docker-app/semver.go:238-250 | a channel up to the first hyphen is the prerelease and the rest the variant; without one all is variant |
| Variants.SplitVariant | plugins/docker-app/semver.go:238-250 | what is split off as prerelease is empty or a channel |
| Variants.SplitLosesOnlyHyphen | plugins/docker-app/semver.go:238-250 | prerelease and variant give the text back exactly unless it is a channel with a bare hyphen behind it |
| Variants.SplitTwice | plugins/docker-app/semver.go:238-250 | the prerelease has no variant left in it |
| Variants.SplitAlike | plugins/docker-app/semver.go:238-250 | two texts split alike exactly when they are the same up to that hyphen |
| Variants.RcHyphenReadsAsRc | plugins/docker-app/semver.go:238-250 | rc with a bare hyphen splits as rc does |
| Variants.GrammarIsGood | plugins/docker-app/semver.go:156-174 | the reading of tags is one the selection and the release lines may rely on |
| Variants.ReadTagMeans | plugins/docker-app/semver.go:156-174 | the numbers are those the library reads, prerelease and variant what its prerelease splits into |
| Variants.CapitalVReadsAlike | plugins/docker-app/semver.go:231-236 | a capital V before a digit reads as a small one |
| Variants.TagsReadAlike | plugins/docker-app/semver.go:156-174 | two tags read as the same version and variant exactly when their numbers and, up to that hyphen, their prereleases agree |
| Variants.HyphenIsLost | plugins/docker-app/semver.go:156-174 | so 1.0.0-rc- and 1.0.0-rc read as one version |
| Releases.GreaterMeans | plugins/docker-app/release.go:125-135 | the version decides, and of two tags with one version the later in the alphabet |
| Releases.GreaterIsStrict | plugins/docker-app/release.go:125-135 | of two releases with different tags exactly one is greater, and it does not have the lower version |
| Releases.GreaterIsTransitive | plugins/docker-app/release.go:125-135 | the ranking is transitive |
| Releases.Newest | plugins/docker-app/release.go:111-121 | returns a release greater than every other, or none for an empty family |
| Releases.NewestIgnoresOrder | plugins/docker-app/release.go:111-121 | the newest release does not depend on the order of the listing |
| Releases.ImageReleases | plugins/docker-app/release.go:56-80 | one release for each readable tag, taken from the first entry with it |
| Releases.Family | plugins/docker-app/release.go:100-108 | the family holds exactly the releases of the variant |
| Releases.ReleaseFamily | plugins/docker-app/release.go:100-108 | the loop keeps the family in listing order |
| Releases.PrimaryLine | plugins/docker-app/release.go:140-156 | the plain line if there is one, else the line of the newest release |
| Releases.ReleaseByDigest | plugins/docker-app/release.go:159-170 | the first release with the observed digest, or none exactly when there is none |
| Releases.NewestIsHighest | plugins/docker-app/release.go:111-121 | the newest of a family is listed and no listed version of its variant is higher |
| Releases.NewestOfVariant | plugins/docker-app/release.go:186-188 | none exactly when the variant is not listed, else a highest listed version |
| Releases.HighestDecides | plugins/docker-app/release.go:190-200 | comparing the newest with the pinned tag decides whether anything listed is higher |
| Releases.PinnedStory | plugins/docker-app/release.go:185-205 | outdated exactly when a higher version of the variant is listed; the latest is never lower than the pinned tag or anything listed |
| Releases.PinnedStoryMeans | plugins/docker-app/release.go:185-205 | outdated exactly when some listed version of the variant comes after the pinned one; the latest comes before nothing listed and not before the tag |
| Releases.NextMajorIsLatest | plugins/docker-app/release.go:185-205 | 1.5.0 is outdated and 2.0.0 its latest when 2.0.0 is listed |
| Releases.MovingStory | plugins/docker-app/release.go:207-228 | reports the release with the observed digest, the newest of the primary line and the state the two give |
| Releases.LatestIsBelowIff | plugins/docker-app/release.go:207-228 | the latest reported for a moving tag is lower than the running release exactly when plain releases are listed and all of them are below it |
| Releases.LatestIsNotBelow | plugins/docker-app/release.go:207-228 | in particular never for a running release without a variant, nor with a latest that has one |
| Releases.StepBack | plugins/docker-app/release.go:207-228 | a run in which a lower version is reported as the latest of an outdated image |
| Releases.ListingEntries | plugins/docker-app/release.go:82-97 | the entries listed, or else the bare names that are not blank |
| Releases.BareNamesPublish | plugins/docker-app/release.go:82-97 | a registry that lists only names publishes exactly the versions they read as |
| Releases.BareNamesResolveNothing | plugins/docker-app/release.go:159-170 | and the release behind a moving tag is never found there |
| Releases.Project | plugins/docker-app/release.go:178-229 | pinned, moving and tagless images get the story of their kind, told from the entries or the bare names of the listing |

## Left out

- SdkTransaction.FileSystem.SyncDir: a power loss can take back directory operations that are not synced. Every operation is synced before the next starts, except that the journal is written and renamed before one sync, so while no sync fails a power loss leaves a disk that a crash leaves as well; a power loss after a failed sync is not modelled.
- SdkTransaction.FileSystem.constructor: assumes the targets exist before the first update; file modes, symlinks and the exclusive update lock are not modelled.
- MappingService.Service.Persist: a save that reports failure after it stored the snapshot is excluded, here and in MappingSaves.dfy, because the undo then cannot match the catalog; its error is always that the vault failed, while the code passes some errors of a save on.
- MappingService.Service.ApplyAndPersist: operations of this class run one at a time. What others do to the memory during a save is in MappingSaves.dfy, where a change is any that takes no retirement back; two creates of one suffix that race for its reservation are not modelled.
- MappingService.Service.FinishCommitted: the bound of 256 mappings is not applied to a replayed operation, as in the code.
- MappingRules.Finish: the audit and log records of failed operations, which only add to an error, are not modelled; a context that is done stands under the revoked error.
- DeploymentStore.Store.Persist: the limit on the encoded size of a snapshot is one of the backend's own reasons not to store it, and is not modelled further.
- MappingService.Service.Cancel: the wait for running calls is in Admission.dfy; the two models are not combined.
- Admission.BoundsAlways: contexts, deadlines and the results of host calls are reduced to which step is taken next.
- Cache.MemoryCache.Put: put numbers and versions elsewhere are unbounded, so wrap-around at 2^64 is not modelled.
- Backup.Pack: file system errors, staging files, the final rename and its refusal when an artifact of that name exists are not modelled; a string is its bytes, and names that are not UTF-8, which JSON would alter, are outside the codec's assumed round trip.
- Restore.ExtractWorkspace: starts from an empty destination directory; extracting volume archives is not modelled.
- Tags.SortDescending: is an insertion sort where the code calls the library's sort; with distinct versions the result is the same.
- Tags.SelectCandidates: how a range is parsed and checked, and how the numbers of a version are read, are parameters; build metadata is not modelled.
- The rollout and deployment job state machines, the HTTP and registry clients, the user interface and configuration parsing are not modelled.
- The SHA-256, JSON, tar, zstd, YAML and version-parsing libraries are parameters with stated assumptions.
- The DNS record operations, token resolution and the authorization rules of the Cloudflare plugin are not modelled.
