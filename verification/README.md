# Verified model of teploy's data-losing decisions

teploy deploys applications to servers over SSH. Four of its cores decide, with
no second chance, what survives: which backups a prune deletes, how a shared
Caddyfile is edited, how a restore replaces live data, and which webhook pushes
are remembered across a crash. This project models those four in Dafny and
proves what they promise.

`dafny verify dfyconfig.toml` checks everything.

## How the model is laid out

**Retention** (`Retention`, `RetentionSelect`, `RetentionLaws`, `PrunePlan`,
`PruneSafety`, `PruneRuns`). Backups are a time and a name; times are integers
in nanoseconds, and the day, week and month keys are computed from the Gregorian
calendar. The policy is written once as a predicate (`Retention.Keeps`), the
single-pass loop and the in-place sort are methods proved against it, and the
headline is `RetentionLaws.PathIndependence`: pruning after every backup, even
when deletes are refused, keeps exactly what one prune at the end would keep.

**The Caddyfile** in two layers. `CaddyLock` is the commit protocol as a state
machine of any number of editors, with the lock directory removable by anyone at
any moment; `CaddyMutate` is one client's edit, step by step, inside that
machine. `Text`, `TextLines`, `Regions`, `RegionLaws`, `RegionEdit`, `Render` and
`Webhook` are the text each edit produces, and `LegacyRoutes` says when it takes
the separate region of an older version away; `RouteLex` to `AdoptionExact`, with
`RouteSpaces`, are the structural parser and foreign-block adoption. `FileItems`,
`FileEdits` and `FileReads` follow a file, cut into managed regions and top-level
blocks, through removing, writing, adopting and reading; `PlainFiles` says which
texts are such files. `CaddyFile` joins edit and protocol, `Renewals` follows an
app's block to whoever renews its webhook, and `CaddyRuns.FinalCaddyfile` is one
statement about the file after any run of upserts and renewals, with conditions
on the first file and the edits only. `RouteCas` and `RouteCasExact` are the
exact-block compare-and-swap, on the file's text. `SitePolicies`,
`MaintenancePolicy`, `PolicyGates`, `PolicyKept`, `Maintenance`,
`MaintenanceRuns`, `MaintenanceFits` and `MaintenanceFiles` are maintenance mode.

**Restores** (`Promote`, `PgSwap`, `KeptCopies`, `MySqlRestore`, `KeyLayout`).
Each remote command is a step with a fate: it may stop part-way, fail, or do its
work and lose its reply. The machines keep a `history` of every state they pass
through, so a promise about `history` is a promise about being killed there.

**The admission ledger** (`Ledger`, `LedgerRuns`, `Admissions`, `Dedup`,
`Resume`). The file is bytes, of which a prefix is synced; a crash loses any
suffix of the rest. `Resume.AcknowledgedPushIsPending` follows one acknowledged
push from the append, through a crash, to the pending work of the next start.

Helper modules: `Ordering` (sorting, order statistics), `Lines`, `Wrappers`.

## What the code does not promise

Where a property turned out false of the code, the code was kept, a lemma gives
an input that shows it, and another says exactly when it holds.

- A rollback of the Caddyfile carries no lock guard. After its editor's lock was
  broken it can take a later commit away (`CaddyLock.UnfencedRollbackLosesAnUpdate`,
  `CaddyLock.RollbackLosesExactly`), or let a holder that has read the file commit
  on bytes that are gone (`CaddyLock.RollbackUnderAReaderRevives`). It is harmless
  exactly when its commit is the last and no other holder has read
  (`CaddyLock.RollbackIsHarmlessIff`).
- A longer MaxAgeDays can keep less, because the duration is an int64 that wraps
  from 106752 days (`RetentionLaws.LongerAgeCanKeepLess`, `RetentionLaws.AgeOnlyMonotoneIff`).
- A prune indexes a series by file name. When two objects of a series share a
  name (under two prefixes of the bucket), one of them drops out of the count of
  survivors and can lose its sidecars (`PruneRuns.RepeatedNameCostsASidecar`,
  `PruneRuns.CountingIsExactIff`).
- The ledger's digest map keeps the first admission of a body, so a body admitted
  again within the last day is forgotten after a restart when its first admission
  is older than that (`Dedup.ReadmittedBodyIsForgotten`, `Dedup.SeedingMissesIff`).
  The fold is exact unless an id is admitted again after it ended
  (`Admissions.FoldIsExactIff`).
- The commit-time region check prints the file's own bytes, matching marker lines
  byte for byte; the client reads the file trimmed, and trims marker lines. So an
  indented begin marker slips past a compare-and-swap that expects no region
  (`RouteCasExact.IndentedMarkerSlips`), and a region at the end of a file without
  a final newline is always refused. A rollback leaves such a file: an app whose
  route is the last one is then refused every edit under the compare-and-swap
  (`RouteCasExact.RollbackRefusesTheRoute`). The two readings agree exactly when
  the app has no region, or its begin line is as rendered and its end line is as
  rendered and not the last, or the last, ended by a newline and without white
  space at its end (`RouteCasExact.CasAgreesIff`). With markers as rendered, what
  was resolved passes exactly when the end line is not a last line without a
  newline (`RouteCasExact.CasPassesOnResolved`).
- Two databases that share their first 40 bytes share their kept copies: a
  release is let through for one because the other is live
  (`KeptCopies.SharedPrefixLoses`, and exactly when: `KeptCopies.ReleaseLosesIff`).
- A rollback of a directory promotion can stop with the originals split between
  the live and the recovery directory (`Promote.RollbackCanSplit`); none is lost,
  and recovery is whole exactly when nothing came back (`Promote.RecoveryIsWholeIff`).
- An enabling of maintenance that is refused leaves its stash behind, so a deploy
  and a later on and off restore the older route
  (`Maintenance.RefusedEnablingRestoresAnOlderRoute`, `Maintenance.RestoresWhatWasLiveIff`).
- A persisted webhook path whose braces are not balanced hides the site's policy
  from the next enabling (`PolicyKept.EnablingKeepsPolicyIff`); the path the client
  installs has none (`PolicyKept.InstalledPathReads`).
- A MySQL restore of a database that did not exist before reports a plain error
  when the load fails, and leaves the partly loaded database behind: exactly when the
  restore got past its dry run and the database was recreated (the `ensures`
  of `MySqlRestore.Engine.RestoreInPlace`).

## Assumptions

- Hashes are injective and lock tokens unique. The JSON codec is abstract: decode
  inverts encode, and an encoding holds no newline (RFC 8259, section 7, requires
  control characters in strings to be escaped) and is not blank.
- A crash keeps the synced prefix of a file and any part of the rest that is a
  prefix. Losing a truncation that was not synced is the state before it.
- The guard, the compare-and-swap and the rename are one atomic step, as the one
  shell command means them. A remote read comes back trimmed
  (internal/ssh/remote.go:143-153), and a rollback writes that trimmed text. An
  upload recreates a missing parent directory (internal/ssh/remote.go:296-306),
  so writing the lock token can bring a removed lock back; the model has that step.
- Swap transactions are atomic and finish before their outcome is read back; no
  one else renames the three databases meanwhile.

## Model

| member | source | states |
|---|---|---|
| RetentionSelect.SelectKept | internal/backup/retention.go:98-153 | the keep loop, its per-rule counters and "newest is sacred" rule, computes the kept names of its specification for every policy and listing |
| RetentionSelect.SelectionIsPolicy | internal/backup/retention.go:98-153 | those names are the declarative policy: a good backup is kept if and only if it is the newest, or ranks below KeepLast, or is inside the age window, or is the newest of its day, week or month with fewer than N newer distinct periods |
| RetentionSelect.SelectForDeletion | internal/backup/retention.go:159-188 | sorts its slice in place and returns the deletions that `SelectedInFull`, `SelectedExactly` and `SelectedInOrder` speak about; the slice is a reordering at most |
| RetentionSelect.SelectedExactly | internal/backup/retention.go:159-188 | a name is selected if and only if one of the five rule fields is positive, the name is not kept, and the object is good or is a failed one older than the newest good |
| RetentionSelect.SelectedInFull | internal/backup/retention.go:30-188 | the rules written out: a good backup is selected if and only if one of the five fields is positive, a newer good one stays, at least KeepLast are newer, it is older than MaxAgeDays days as an int64 of nanoseconds, and, for each of days, weeks from Monday and months, a newer one is of the same period or the newer ones already fill as many periods as the rule's number |
| RetentionSelect.SelectedInOrder | internal/backup/retention.go:169-187 | the selection goes through the listing from its newest entry, and names each at most once |
| RetentionSelect.NewestGoodIsNeverSelected | internal/backup/retention.go:112-115 | the newest good backup is never selected for deletion, under any policy |
| Retention.MonthOf | internal/backup/retention.go:126-133 | a day's month is the one whose start and end enclose it, on the whole Gregorian calendar, before and after the epoch |
| Retention.MonthLengths | internal/backup/retention.go:126-133 | months have the lengths of the Gregorian calendar, leap years included, and the count starts on 1 January 1970 |
| Retention.BucketsOfTheCalendar | internal/backup/retention.go:126-133 | a day is 24 hours, and the week's key changes at the start of every Monday and nowhere else |
| Retention.BucketMonotone | internal/backup/retention.go:126-133 | day, ISO-week and month keys never decrease as time advances |
| RetentionLaws.Heredity | internal/backup/retention.go:98-153 | adding backups never makes the policy keep an older one it would have dropped |
| RetentionLaws.KeptStoreOne | internal/backup/retention.go:98-153 | storing one backup adds at most that one to what is kept |
| RetentionLaws.AgeOnlyShrinks | internal/backup/retention.go:117-140 | as the clock advances the kept set never grows |
| RetentionLaws.KeptMonotoneInPolicy | internal/backup/retention.go:98-153 | the kept set grows with every policy field, as long as the age window grows with MaxAgeDays |
| RetentionLaws.WindowGrowsBelowOverflow | internal/backup/retention.go:117-119 | up to 106751 days it does |
| RetentionLaws.AgeOnlyMonotoneIff | internal/backup/retention.go:117-139 | for age-only policies, more days keep at least as much in every store at every time if and only if the wrapped window grows |
| RetentionLaws.LongerAgeCanKeepLess | internal/backup/retention.go:117-119 | 106752 days can keep less than 106751: the int64 duration wraps |
| RetentionLaws.KeptOfRemainder | internal/backup/retention.go:98-188 | deleting any backups that are not kept leaves the kept set as it was |
| RetentionLaws.StoreKeepsIntact | internal/backup/retention.go:98-188 | storing a backup keeps the run invariant |
| RetentionLaws.PruneKeepsIntact | internal/backup/retention.go:159-188 | a prune that deletes any subset of what was selected keeps the run invariant |
| RetentionLaws.PathIndependence | internal/backup/retention.go:98-188 | any run of stores and prunes under a non-decreasing clock, each prune deleting any subset of its selection, ends with the same kept set as one selection over everything ever stored, and all of that set is still there |
| PrunePlan.SafetyIds | internal/backup/retention.go:324-341 | the protected ids, at most five |
| PrunePlan.LaterIsProtected | internal/backup/retention.go:324-341 | of two safety copies inside the window the later is protected if the earlier is, and as many are as the lesser of five and the number inside the window |
| PrunePlan.UnprotectedIsOutnumbered | internal/backup/retention.go:324-341 | a copy inside the window that is not protected has five protected ones at least as late |
| PrunePlan.Pick | internal/backup/retention.go:342-372 | one series: the doomed objects, and the ids it leaves counted as surviving |
| PrunePlan.PlanPrune | internal/backup/retention.go:323-400 | the planner, over the root, every database series and the sidecars, in whatever order the maps are walked, returns a plan as specified, which `PruneSafety.PlanInFull` writes out |
| PruneSafety.PickedIsSelected | internal/backup/retention.go:342-372 | an object is doomed in its series if and only if its name is selected among those not dated in the future, the name's entry is that object, and its id is not spared |
| PruneSafety.PickedExactly | internal/backup/retention.go:342-372 | with distinct names: doomed if and only if some rule is set, not dated more than an hour ahead, not spared, and dropped by the policy over the series' current good backups (or a failed object older than one) |
| PruneSafety.NewestGoodIsNeverPicked | internal/backup/retention.go:342-372 | the newest good current object of a series is never doomed |
| PruneSafety.PlanMembers | internal/backup/retention.go:373-385 | a plan's primaries are exactly what the root and each database series doom |
| PruneSafety.PlannedInItsSeries | internal/backup/retention.go:373-385 | an object is planned by its own series alone |
| PruneSafety.PlanSpares | internal/backup/retention.go:306-400 | no plan holds the newest good object of the root or of any series, a future-dated object, an id protected by a safety copy, or a database object whose id the root keeps |
| PruneSafety.NewestCopiesOutlast | internal/backup/retention.go:324-400 | a plan takes an object whose id is inside the safety window only if five ids inside it, all at least as late, stay untouched |
| PruneSafety.PlanInFull | internal/backup/retention.go:323-400 | the whole plan of a tree whose names and keys are its own: an object goes if and only if a rule is set, it is not dated ahead, its id is not protected, the rules of its series let it go and, in a database's series, no root object of its id stays; a sidecar if and only if no object of its id stays and it is older than some backup that is not dated ahead |
| PruneSafety.OwnNamesKeepSidecarsSafe | internal/backup/retention.go:386-398 | with distinct names per series, no planned sidecar belongs to an id with a surviving object |
| PruneSafety.BrakeSeries | internal/backup/retention.go:413-428 | the count of good and doomed objects of one series, and its threshold |
| PruneSafety.GoodCountIs | internal/backup/retention.go:413-428 | what the brake counts of a series: its good objects not dated more than an hour ahead |
| PruneSafety.DeletedIs | internal/backup/retention.go:413-428 | and those of them that the plan deletes |
| PruneSafety.PruneBrake | internal/backup/retention.go:408-438 | the brake refuses if and only if some series loses too much, in whatever order the series are walked |
| PruneSafety.BrakeLimitsLoss | internal/backup/retention.go:408-438 | a plan passes if and only if it takes from the root and from every series at most two good backups or at most half of them |
| PruneRuns.PruneIsAnEvent | internal/backup/retention.go:342-372 | whatever part of a series' picks is deleted is a prune step that path independence speaks about |
| PruneRuns.UnclaimedAre | internal/backup/retention.go:519-530 | the locations that are read are those whose claim was granted, in order, and an old location is complained about if and only if its claim was refused |
| PruneRuns.FutureComplaints | internal/backup/retention.go:542-548 | an object is complained about if and only if it is in the root or a series and dated in the future, in whatever order the series are walked |
| PruneRuns.ObjectStore.Remove | internal/backup/retention.go:552-556 | one delete: the key is gone, or the delete is reported as failed; a failed one may have run and lost its answer |
| PruneRuns.ObjectStore.RemoveAll | internal/backup/retention.go:552-565 | the deletion loop goes on past failed deletes, removes only listed keys, reports the names of those whose delete answered, which are gone, and the failure of every other |
| PruneRuns.ObjectStore.DeletePlan | internal/backup/retention.go:551-566 | primaries, then sidecars: nothing unplanned is gone, every name reported is of a primary that is gone, every primary is reported or its failure is, and every planned object that stays is among the failures |
| PruneRuns.ObjectStore.PruneBackups | internal/backup/retention.go:494-570 | with no rule set nothing is done; otherwise it goes through if and only if the namespace is claimed, the clocks differ by at most an hour or are ignored, the tree was listed, and the brake lets the plan pass or is off; then it is a plan of the claimed locations, only planned objects are gone, every name reported is of a primary that is gone, every other primary has its failure reported, and the joined errors are the refused old locations, the future-dated objects and the failed deletes, among them every planned object that stays; a refusal touches nothing |
| PruneRuns.CountingIsExactIff | internal/backup/retention.go:342-372 | whatever newer object is added and whatever the policy, every object left is counted as surviving, if and only if names are distinct |
| PruneRuns.RepeatedNameLoses | internal/backup/retention.go:352-370 | a repeated name lets an object that stays drop out of the count |
| PruneRuns.RepeatedNameCostsASidecar | internal/backup/retention.go:352-398 | and then a plan can delete a sidecar of an object that stays |
| Ledger.Parse | internal/autodeploy/ledger.go:178-206 | the parse loop: a torn last line is dropped, blank lines are skipped, any other unreadable line is an error with its line number |
| Ledger.LastLineEnd | internal/autodeploy/ledger.go:121-126 | what opening keeps ends in a newline, and no newline follows it |
| Ledger.CompleteLinesAre | internal/autodeploy/ledger.go:178-206 | the lines up to there hold no newline, and joined with the torn rest they are the file |
| Ledger.ParsedExactly | internal/autodeploy/ledger.go:178-206 | parsing reports the first line that is not blank and does not decode, by its number, or else gives the records of all the lines that are not blank, in order |
| Ledger.FileLedger.constructor | internal/autodeploy/ledger.go:100-132 | a fresh handle on a file, not failed |
| Ledger.FileLedger.Append | internal/autodeploy/ledger.go:136-161 | acknowledged if and only if the record encodes, nothing failed before and the write was synced, and then the line is at the end of the file; after one failure nothing is written |
| Ledger.OpenLedger | internal/autodeploy/ledger.go:108-132 | a handle is given if and only if the file can be read, all its complete lines parse, and it ends with a line or its torn tail was cut off durably; a ledger that does not parse is left as it was |
| LedgerRuns.AppendKeepsSound | internal/autodeploy/ledger.go:136-161 | an append, however it ends, keeps the ledger invariant |
| LedgerRuns.OpenKeepsSound | internal/autodeploy/ledger.go:108-132 | so does opening |
| LedgerRuns.CrashKeepsSound | internal/autodeploy/ledger.go:108-161 | so does a crash that loses any suffix of the unsynced bytes |
| LedgerRuns.CutKeepsLines | internal/autodeploy/ledger.go:178-206 | a ledger cut at any byte is its first m lines and a torn rest, with every line that was whole before the cut |
| LedgerRuns.OpenOnlyWhileItParses | internal/autodeploy/ledger.go:108-161 | from any bytes whatever, over any run of opens, appends, failures and crashes: while a handle is open, the file it appends to parses |
| LedgerRuns.LedgerIsCrashSafe | internal/autodeploy/ledger.go:108-206 | after any run of appends, failures, crashes and reopens, now or after one more crash, parsing never reports corruption, gives every acknowledged record in order, and nothing that was not submitted |
| Admissions.FoldAdmissions | internal/autodeploy/ledger.go:217-239 | the two loops compute the pending records and the digest times of the specification |
| Admissions.StateIsLive | internal/autodeploy/ledger.go:217-239 | the state map calls an id admitted if and only if some admission of it is not ended later |
| Admissions.FoldIsExactIff | internal/autodeploy/ledger.go:217-239 | the fold returns exactly the admitted records that nothing later ended, in order, if and only if no id was admitted again after it ended |
| Admissions.UniqueIdsFoldExactly | internal/autodeploy/ledger.go:217-239 | unique ids meet that condition |
| Admissions.FoldExtends | internal/autodeploy/ledger.go:217-239 | folding one more record is one abstract step on the fold |
| Admissions.NewestPending | internal/autodeploy/ledger.go:243-252 | the last of the app's latest-received pending records; none if and only if the app has none |
| Dedup.ContentIDInjective | internal/autodeploy/ledger.go:78-87 | content ids of different digests differ |
| Dedup.DeliveryDedup.SeenAndRecord | internal/autodeploy/webhook.go:73-89 | a replay is an id recorded within the last 24 hours; the new map is the entries of the last 24 hours and, if fresh, this one |
| Dedup.DeliveryDedup.RecordOnly | internal/autodeploy/webhook.go:94-100 | records an id without judging it |
| Dedup.DeliveryDedup.Unrecord | internal/autodeploy/webhook.go:107-111 | forgets exactly one id |
| Dedup.SeedDedupFromLedger | internal/autodeploy/ledger.go:258-271 | seeding, in any order of the digest map, gives the specified entries |
| Dedup.DigestsAreFirstAdmissions | internal/autodeploy/ledger.go:217-232 | the digest map holds each digest's first admission time, and only those |
| Dedup.SeededReplays | internal/autodeploy/ledger.go:258-271 | after seeding, a body reads as a replay if and only if it was seen already or its first admission is within the last 24 hours |
| Dedup.SeedingMissesIff | internal/autodeploy/ledger.go:258-271 | a body admitted within the last 24 hours is missed if and only if its first admission is older |
| Dedup.ReadmittedBodyIsForgotten | internal/autodeploy/ledger.go:226-271 | a body admitted twice, a day apart, is accepted again after a restart |
| Resume.AcknowledgedPushIsPending | internal/cli/autodeploy_serve.go:544-586 | an acknowledged push that no submitted record ended is pending work when the ledger is read, now or after any crash, over every run of appends, failures, crashes and reopens |
| Resume.PartialResumeKeepsTheNewest | internal/cli/autodeploy_serve.go:558-580 | whichever of the resume's superseding records were written, the newest push stays pending, exactly the pushes those records name are ended, and other apps' are as they were |
| Resume.PendingAre | internal/autodeploy/ledger.go:217-239 | with unique ids the pending records are exactly the admissions with no superseding or processed record of the same id after them, in order |
| CaddyLock.StepReplacesWhatItRead | internal/caddy/caddy.go:871-881 | in an orderly state, a guarded commit that lands finds the bytes its editor read |
| CaddyLock.FileIsAlwaysAChain | internal/caddy/caddy.go:552-664 | in every run, with no condition at all, the file is the end of a chain of allowed edits, each made from what a read of the one before gave |
| CaddyLock.NoLostUpdate | internal/caddy/caddy.go:552-664 | in every run of any number of editors, the lock removable by anyone at any step, if every rollback is harmless when it is written, every commit replaces exactly what its editor read and the file is the chain of all commits not rolled back |
| CaddyLock.RollbackLosesExactly | internal/caddy/caddy.go:624-662 | a rollback cuts the chain back to before its own commit: it takes away exactly the commits after its own, and none if and only if its own is the last |
| CaddyLock.RollbackIsHarmlessIff | internal/caddy/caddy.go:624-662 | a rollback keeps the protocol's invariant, under which commits replace what was read, if and only if its own commit is the last and no other holder of the lock has read the file; holding the lock is enough |
| CaddyLock.LandedHolderIsLast | internal/caddy/caddy.go:624-662 | an editor that landed and still holds the lock made the last commit |
| CaddyLock.UnfencedRollbackLosesAnUpdate | internal/caddy/caddy.go:624-662 | a run in which a broken lock and an unfenced rollback lose another editor's confirmed edit |
| CaddyLock.RollbackUnderAReaderRevives | internal/caddy/caddy.go:624-662 | a rollback whose commit is the last, under a holder that has read it: the holder's commit then lands on bytes it never read, and brings the rejected edit back |
| CaddyMutate.Server.TryLock | internal/caddy/caddy.go:966-985 | mkdir, whose reply may be lost: locked only when this editor made the directory |
| CaddyMutate.Server.WriteInfo | internal/caddy/caddy.go:1012-1025 | the token write: on success the directory names this editor; on failure the directory is removed if that still works |
| CaddyMutate.Server.AcquireLock | internal/caddy/caddy.go:966-1010 | sixty tries, breaking stale locks: the editor comes out named or with a timeout or token error, having written nothing; undisturbed and on a free lock, named if and only if the token is written |
| CaddyMutate.Server.ReadFile | internal/caddy/caddy.go:559-562 | the read under the lock: the file as the executor returns it, writing nothing |
| CaddyMutate.Server.SendCommit | internal/caddy/caddy.go:580-617 | sending the commit of an update that differs from what was read, writing nothing yet |
| CaddyMutate.Server.CommitUnderGuard | internal/caddy/caddy.go:871-881 | the file becomes the update if the lock still names this editor and the region matches, and nothing changes otherwise |
| CaddyMutate.Server.WriteBack | internal/caddy/caddy.go:831-845 | an unfenced write of what was read |
| CaddyMutate.Server.EditLocked | internal/caddy/caddy.go:559-623 | read, transform, adapt, stage and commit under the lock; the outcome tells truthfully what this editor wrote, and undisturbed every outcome has its one cause |
| CaddyMutate.Server.Confirm | internal/caddy/caddy.go:624-662 | reload and delivery check, with rollback if either fails: done if and only if both succeed |
| CaddyMutate.Server.MutateWithCAS | internal/caddy/caddy.go:552-664 | the whole edit between any steps of others: every error before the commit wrote nothing, success wrote one commit, a rollback wrote a commit and its undoing; the lock is released last; undisturbed every outcome has its one cause, success among them |
| Text.CollapseTriples | internal/caddy/caddy.go:1375-1378 | the replace-until-stable loop is one pass that leaves at most one empty line of every run, and no triple newline remains |
| Regions.RenderedMark | internal/caddy/caddy.go:1090-1118 | a marker as rendered is recognised, for its own app |
| Regions.RemoveCaddyfileBlock | internal/caddy/caddy.go:1327-1386 | the removal loop computes the specified text or error |
| Regions.RemoveScan | internal/caddy/caddy.go:1327-1386 | on a readable file, removal keeps every line but the app's region, at any point of the scan |
| RegionLaws.RemoveBlockKeeps | internal/caddy/caddy.go:1327-1386 | removal from a well-formed file succeeds, stays well formed, removes the app's region only, and keeps every non-empty line outside |
| RegionLaws.RemovalIsRefusedIff | internal/caddy/caddy.go:1327-1386 | removal succeeds if and only if the app has no marker at all, or exactly one region with none beginning inside it |
| RegionLaws.CollapseKeeps | internal/caddy/caddy.go:1375-1378 | collapsing empty lines keeps well-formedness, every region and every non-empty line |
| RegionEdit.ExtractCaddyfileBlock | internal/caddy/caddy.go:1296-1317 | the extraction loop computes the specified block |
| RegionEdit.ExtractReadsRegion | internal/caddy/caddy.go:1296-1317 | on a well-formed file it is the app's region, and empty when there is none |
| RegionEdit.PutBlockKeeps | internal/caddy/caddy.go:782-791 | writing a block into a well-formed file without one adds exactly that region |
| RegionEdit.WrittenBlockReadsBack | internal/caddy/caddy.go:782-791 | and it reads back, but for newlines at its ends |
| RegionEdit.TrimSpaceKeeps | internal/ssh/remote.go:143-153 | reading the file over the wire keeps every region and every non-empty line |
| RouteCas.ExtractManagedRegion | internal/caddy/caddy.go:1134-1157 | the extraction loop computes the specified region |
| RouteCas.TerminatedInjective | internal/caddy/caddy.go:1164-1171 | regions that print the same bytes are the same lines |
| RouteCas.CasPassesOnlyOnResolved | internal/caddy/caddy.go:1222-1290 | when markers are as rendered, the commit-time check of the file's bytes passes only if the region the client would resolve from that file is one the caller resolved |
| RouteCasExact.CasPassesOnResolved | internal/caddy/caddy.go:1222-1290 | and then a caller that resolved what is on disk passes if and only if the app's end line is not a last line without a newline |
| RouteCas.ServerFileIs | internal/caddy/webhook.go:48-66 | what the framed read of a file returns is the file without the white space at its end |
| RouteCas.UnterminatedIsRefused | internal/caddy/caddy.go:1281-1290 | a region that is never ended is refused, whatever was resolved |
| RouteCasExact.IndentedMarkerSlips | internal/caddy/caddy.go:1095-1157 | an indented begin marker: the client sees a region, the check sees none |
| RouteCasExact.CasAgreesIff | internal/caddy/caddy.go:1134-1290 | on any well-formed text the commit command prints the client's region if and only if the app has none, or its begin line is as rendered and its end line is as rendered with a line after it, or is the last line, ended by a newline and without white space at its end; a check that expects none passes if and only if the rendered begin line is not there |
| RouteCasExact.TrimmedFileIsRefused | internal/caddy/caddy.go:1222-1290 | in a file written back as it was read, trimmed, whose last line ends the app's region, every edit of the app under the compare-and-swap is refused, whatever it resolved |
| RouteCasExact.RollbackRefusesTheRoute | internal/caddy/caddy.go:624-662 | that is the state of the app whose route was written last once any edit is rolled back |
| RouteLex.MergeLogicalLines | internal/caddy/routes.go:46-74 | the merging loop computes the specified logical lines |
| RouteLex.LogicalLinesRejoin | internal/caddy/routes.go:46-74 | logical lines rejoin to their input, byte for byte |
| RouteLex.UnitMerges | internal/caddy/routes.go:46-74 | a closed literal in front of any text is its first logical line |
| Routes.ParseSiteBlocks | internal/caddy/routes.go:89-161 | the parser loop, with depth, current block and heredoc skipping, computes the specified blocks or error |
| Routes.SkipHeredoc | internal/caddy/routes.go:101-112 | skips to just after the terminator, or to the end |
| RouteItems.AfterTerminatorIs | internal/caddy/routes.go:101-112 | which is the first line that says no more than the terminator |
| RouteItems.HeredocIs | internal/caddy/routes.go:217-230 | a line opens a heredoc if and only if its last word is << and a name |
| Routes.CollectEdits | internal/caddy/routes.go:318-371 | the drop and rewrite maps of every foreign block, and whether any is edited |
| Routes.ApplyEdits | internal/caddy/routes.go:372-398 | the apply loop, with its skipping flag, computes the specified lines |
| Routes.AdoptForeignBlocks | internal/caddy/routes.go:293-405 | the whole adoption as specified, errors included |
| RouteAddress.JoinedSplit | internal/caddy/routes.go:232-240 | addresses joined for a rewritten line split back to themselves |
| RouteAddress.AddressHostIs | internal/caddy/routes.go:242-255 | an address's host is what stands before its first blank, without the scheme |
| RouteAddress.RewrittenReadsBack | internal/caddy/routes.go:344-346 | a rewritten opening line parses as an opening line of exactly the kept addresses |
| RoutePieces.PhysicalMerges | internal/caddy/routes.go:46-74 | a file laid out piece by piece merges back to those pieces |
| RoutePieces.SqueezedViews | internal/caddy/routes.go:46-74 | collapsing empty lines changes no non-empty line the parser sees |
| RouteItems.ParseItems | internal/caddy/routes.go:89-161 | parsing a file of items gives exactly its site blocks, in order |
| RouteItems.ParsesSame | internal/caddy/routes.go:89-161 | files that differ only in empty lines parse to blocks that differ only in empty lines |
| RouteItems.AlienStopsAdoption | internal/caddy/routes.go:113-136 | a text with a top-level line, before any heredoc, that is an import, or opens no site, options or snippet block and is neither blank nor a comment, is refused: nothing is adopted |
| Adoption.EditsHold | internal/caddy/routes.go:318-371 | with unique address lines, collecting succeeds and the maps hold each block's edit |
| Adoption.ApplyItems | internal/caddy/routes.go:372-398 | applying them drops, rewrites and keeps exactly the blocks meant |
| AdoptionExact.AdoptionIsExact | internal/caddy/routes.go:293-405 | re-parsing the result gives exactly the blocks that stay, with their addresses and non-empty lines |
| AdoptionExact.AdoptedHosts | internal/caddy/routes.go:293-405 | after it no foreign block serves a requested host; any other host is served with the same body as before, and by no new block |
| FileEdits.NothingToAdopt | internal/caddy/routes.go:293-317 | any text the parser reads, heredocs included, comes back byte for byte when none of its foreign blocks serves a requested host |
| PlainFiles.PlainFileIff | internal/caddy/routes.go:46-161 | the files made of regions and top-level blocks are exactly the texts whose markers are in order, with no lookalike among them, whose braces balance at the top level, and that open no heredoc outside regions, leave no literal open and hold no run of empty lines in one |
| PlainFiles.PlainFileSays | internal/caddy/routes.go:89-161 | of such a text the parser reads exactly those blocks, and the addresses its logical lines open are those its regions and blocks open, each as often |
| PlainFiles.PlainAdoption | internal/caddy/routes.go:293-405 | on every such text whose foreign addresses are opened once each: adoption succeeds, every block is read back as it was meant, regions stay, no foreign site serves a requested host, and the result is such a text again |
| Render.RenderKeepsOutside | internal/caddy/caddy.go:751-792 | an edit that adopts nothing keeps every non-empty line outside regions |
| LegacyRoutes.LegacyGoesIff | internal/caddy/caddy.go:751-776 | the region of lb-<app> goes with an edit of <app> if and only if its first line that is neither blank nor a stamp opens some address, and only addresses whose hosts the edit manages: its own, or, if it has none, the addresses of the app's region |
| LegacyRoutes.OtherAppStaysIff | internal/caddy/caddy.go:755-776 | so another app called lb-<app> keeps its region, but for runs of empty lines, if and only if it opens some address of another host |
| LegacyRoutes.UnnamedIsKept | internal/caddy/caddy.go:751-792 | over any chain of edits, an app with an address that no edit names keeps its region |
| FileEdits.RemoveFile | internal/caddy/caddy.go:1327-1386 | removing an app's region from a file of regions and blocks leaves such a file, with the same foreign sites, line by line, and no opened address more |
| FileEdits.PutFile | internal/caddy/caddy.go:782-791 | writing a region into such a file gives one again with the same foreign sites, whose lines open what they opened and what the block opens, at most |
| FileReads.ReadFile | internal/ssh/remote.go:143-153 | a file read over the wire, trimmed, is such a file again, with the same foreign sites but for blank lines and the white space around lines |
| Webhook.StripWebhookFragment | internal/caddy/webhook.go:102-125 | the strip loop, with its skipping flag, computes the specified text |
| Webhook.FragmentMarks | internal/caddy/webhook.go:90-98 | within a fragment only the first line opens and only the last closes it |
| Webhook.StripUndoesInject | internal/caddy/webhook.go:102-141 | stripping an injected fragment gives the block back, but for runs of empty lines |
| Webhook.RenewedIsSettled | internal/caddy/webhook.go:146-172 | of any two renewals only the last counts: renewing with one descriptor and then another is renewing with the other |
| CaddyFile.RenewalKeeps | internal/caddy/webhook.go:179-226 | renewing the fragment alone, as setting or removing the webhook does, rewrites the app's own region and leaves every other one |
| CaddyFile.RenewalSucceedsIff | internal/caddy/webhook.go:146-172 | a renewal succeeds if and only if the app has no block, there is no webhook, or the block without its fragment starts with a line that opens it |
| CaddyFile.ManagedEditSucceedsIff | internal/caddy/webhook.go:146-172 | where adoption runs through, an edit succeeds if and only if its block is empty, there is no webhook, or its block does |
| CaddyFile.RouteSucceedsIff | internal/caddy/webhook.go:146-226 | so each upsert and each renewal of a run succeeds exactly then |
| Renewals.BlockRenews | internal/caddy/webhook.go:146-172 | after any run of upserts and renewals, whatever a renewal finds for its app strips to the same text as one of the blocks the first file or an upsert gave it |
| CaddyRuns.PlainEdit | internal/caddy/webhook.go:146-172 | one edit of a plain file that fits it succeeds if and only if its block is empty, there is no webhook to put in, or the block starts with a line that opens it; read back, the file is plain, with the app's region as written, a proven legacy one gone, every other region kept, and exactly the foreign sites there were, in order and line by line, without the edit's hosts |
| CaddyRuns.ReadyIsTame | internal/caddy/caddy.go:727-792 | over any chain of upserts and renewals that suit the first file, every file in between is such a file with exactly the foreign sites the edits have left, and adoption touches no region of any of them |
| CaddyRuns.FinalCaddyfile | internal/caddy/caddy.go:552-664 | the protocol and the text together, from the first file and the edits alone: after any run of concurrent editors, upserting blocks or renewing webhooks, whose rollbacks are harmless, the file is plain, each app's region is what the last of its edits not rolled back wrote, in commit order, and the foreign sites are exactly the ones there were, in order and line by line but for blank lines and the white space around lines, without the hosts those edits took over |
| CaddyRuns.UnnamedAppIsNeverLost | internal/caddy/caddy.go:552-792 | and an app that opens an address no edit names has its region, with the body it had but for runs of empty lines, after any such run, whatever its name |
| CaddyRuns.LastBlockIsRead | internal/caddy/caddy.go:1296-1317 | whoever reads the file then finds the app's last block as that upsert or renewal wrote it, exactly when it has no runs of empty lines |
| CaddyFile.LastEditStands | internal/caddy/caddy.go:727-792 | what an app's last upsert or renewal wrote, with no later edit that proves it legacy, is what stands |
| CaddyFile.UntouchedIsSpared | internal/caddy/caddy.go:751-792 | an edit of any well-formed file the parser reads, heredocs included, touches no region by adoption when no foreign block serves its hosts |
| SitePolicies.ExtractedIsGood | internal/caddy/routes.go:443-506 | an extracted policy is a readable tls directive and balanced access spans of whole lines |
| MaintenancePolicy.TrimmedTls | internal/caddy/caddy.go:1500-1506 | a single-line tls directive reads the same once trimmed |
| MaintenancePolicy.TailReads | internal/caddy/caddy.go:1514-1520 | the rest of the maintenance block, brace-bearing page included, closes the block and adds no policy |
| MaintenancePolicy.MaintenanceKeepsPolicy | internal/caddy/caddy.go:1500-1520 | the maintenance block of any parseable block with a single-line tls has the same access spans and the same tls, trimmed |
| PolicyKept.FragmentPasses | internal/caddy/webhook.go:90-98 | a webhook fragment at the top of a site block adds nothing to its policy, for every path that is read on its own line with its braces balanced |
| PolicyKept.InstalledPathReads | internal/caddy/webhook.go:190 | the path the client installs is one |
| PolicyKept.RenewedText | internal/caddy/webhook.go:146-172 | renewing a stamped maintenance block strips nothing and collapses nothing: it is the block with the fragment under its address line |
| PolicyKept.EnablingKeepsPolicy | internal/caddy/caddy.go:430-482 | an enabling goes through, and what the app's region then holds, stamped, the fragment injected, read back, carries the same access spans and the same tls directive, trimmed |
| PolicyGates.GatesRead | internal/caddy/routes.go:443-506 | reading a block yields no more access directives than it has lines that start one |
| PolicyGates.PolicyIsWhole | internal/caddy/routes.go:443-506 | every basic_auth and forward_auth directive at the top level of a site block is in the policy, from the line that starts it, and so is the tls directive |
| PolicyGates.PolicyReads | internal/caddy/routes.go:443-506 | and a block that is closed, with no quote left open, no heredoc and one tls directive at most, always has a policy that is read |
| PolicyKept.EnablingKeepsPolicyIff | internal/caddy/caddy.go:430-482 | with any persisted path that is read on its own line, that holds if and only if the path's braces are balanced, or it closes some and there was no policy to keep |
| PolicyKept.EnablingServes | internal/caddy/caddy.go:430-482 | an enabling of good input goes through, and what is then live is the stamp there was, the requested hosts, and the answer 503 with the page |
| PolicyKept.EnablingKeepsGeneration | internal/caddy/caddy.go:446-470 | a stamped route keeps its generation during maintenance |
| Maintenance.Server.SetMaintenance | internal/caddy/caddy.go:430-482 | the whole new file and stash, however the transaction ends, a stash that cannot be read or written included; when it reports success; an existing stash is never overwritten, and a failure leaves the file, or its trimmed text after a rollback |
| Maintenance.Server.RemoveMaintenance | internal/caddy/caddy.go:493-535 | the whole new file and stash; success if and only if there is no stash, or its text could be put back and the transaction commits or changes nothing; no stash is a no-op, an empty one an error |
| Maintenance.FirstStashWins | internal/caddy/caddy.go:430-482 | whatever follows, the stash is the block that was live at the first enabling that got as far as stashing |
| Maintenance.SettledReadsBack | internal/caddy/caddy.go:493-521 | writing back a settled block succeeds and it reads back exactly |
| Maintenance.RenewedSettles | internal/caddy/webhook.go:146-172 | whatever a renewal writes is such a block, if its last character is not white space |
| Maintenance.MaintenanceRoundTrip | internal/caddy/caddy.go:430-535 | switching on any number of times, however each ends and whatever else is written to a file that ends well formed, and then off restores the block live at the first stashing exactly |
| Maintenance.RestoresWhatWasLiveIff | internal/caddy/caddy.go:430-535 | on and off restores the block that was live just before if and only if there was no stash yet, or it held that very block |
| Maintenance.RefusedEnablingRestoresAnOlderRoute | internal/caddy/caddy.go:430-535 | an enabling that is refused leaves its stash behind: after a deploy, the next on and off bring back the route from before the deploy |
| MaintenanceRuns.OnBlockIsUnmarked | internal/caddy/caddy.go:1500-1520 | what maintenance writes into a well-formed file holds no marker line, whatever the block's policy |
| MaintenanceFits.EnablingFits | internal/caddy/caddy.go:1500-1520 | whatever its stamp, the edit that enables maintenance fits the foreign sites, if its page and spans hold no lookalike markers and its block opens no other foreign address |
| MaintenanceFiles.SwitchFile | internal/caddy/caddy.go:430-482 | one enabling, however it ends, leaves a file of regions and blocks that still carries the app's policy, and touches no region by adoption |
| MaintenanceFiles.PolicyStaysLive | internal/caddy/caddy.go:430-482 | however often maintenance is enabled, and however each of those ends, the app's block in the file carries the policy it had |
| MaintenanceFiles.MaintenanceAnswers | internal/caddy/caddy.go:430-482 | after any such run that ends with an enabling that commits, the app's block answers the requested hosts with 503 and the page |
| MaintenanceFiles.MaintenanceRestoresTheFile | internal/caddy/caddy.go:430-535 | from the first file and the requests alone: over a run of switching on, any number of times, and off, the app's block is exactly what it was, other regions are untouched, markers are well formed all along |
| Promote.Dirs.UndoAside | internal/backup/backup.go:694-707 | undoing a partial move aside: a plain error means the originals are back; otherwise recovery holds exactly what was moved and did not come back |
| Promote.Dirs.MoveAside | internal/backup/backup.go:689-693 | the move into recovery takes any subset of the live entries, all of them if it succeeds |
| Promote.Dirs.MoveBack | internal/backup/backup.go:698-716 | the move back takes any subset of the recovery entries, over whatever is live |
| Promote.Dirs.CopyIn | internal/backup/backup.go:709-713 | the copy puts the staged tree in, or any part of anything |
| Promote.Dirs.ClearLive | internal/backup/backup.go:714-716 | the clearing delete, which may be run only while recovery holds every original |
| Promote.Dirs.UndoCopy | internal/backup/backup.go:713-723 | undoing a partial copy: the clearing delete runs with all originals in recovery, which then holds exactly what did not come back |
| Promote.Dirs.PromoteStaged | internal/backup/backup.go:678-726 | success is live = staged and recovery = originals, if and only if every step of the promotion succeeds; a plain error leaves live as it was; the recovery is incomplete if and only if a step of the undoing fails; at every state in between each original is in live or recovery |
| Promote.Dirs.ExtractThenPromote | internal/backup/backup.go:637-669 | the same from the archive on, and only an incomplete recovery keeps the staged tree and archive |
| Promote.MoveAsideConserves | internal/backup/backup.go:691-693 | a move aside stopped after any subset conserves the originals |
| Promote.MoveBackConserves | internal/backup/backup.go:698-716 | so does a move back, even over a partly copied tree |
| Promote.ClearingIsSafeIff | internal/backup/backup.go:714-716 | however the clearing delete ends, and whatever it leaves, it conserves the originals if and only if all of them are in recovery |
| Promote.RecoveryIsWholeIff | internal/backup/backup.go:694-723 | a run whose undo fails leaves every original in recovery if and only if the move aside had taken them all and nothing was moved back, or the clearing delete failed or nothing was moved back after it |
| Promote.RollbackCanSplit | internal/backup/backup.go:694-702 | of any two originals, a run of the promotion can end with one live and the other in recovery |
| PgSwap.TruncBytes | internal/backup/postgres.go:466-474 | the countdown loop computes the specified prefix |
| PgSwap.TruncIsLongestRunePrefix | internal/backup/postgres.go:466-474 | which is the longest prefix that fits and does not cut a rune: the byte after it is no UTF-8 continuation byte, and every longer prefix that fits would cut one |
| PgSwap.NamesReadBack | internal/backup/postgres.go:536-539 | generated names fit 63 bytes, and the leftover pattern recovers their 40-byte prefix and kind |
| PgSwap.LeftoverExactly | internal/backup/postgres.go:705 | a name is a leftover if and only if it is a prefix without a newline, "_teploy_old_" or "_teploy_new_", and eight hex digits |
| PgSwap.Cluster.Swap | internal/backup/postgres.go:191-213 | the swap is made whole, if and only if its transaction commits, or not at all; an answer means it was made, remaining sessions mean it was not |
| PgSwap.Cluster.SwapState | internal/backup/postgres.go:226-252 | the state read back is the cluster's, and it is read if and only if one of five tries answers |
| PgSwap.Cluster.DropDB | internal/backup/postgres.go:172-179 | drops one database or, when it did not run, nothing |
| PgSwap.LoadFailed | internal/backup/postgres.go:603-619 | a plain error if and only if the server still answers, after the load or after dropping the replacement; touches the replacement only |
| PgSwap.SwapReplacement | internal/backup/postgres.go:557-586 | the outcome for each way the swap can end, a lost reply included, and exactly what is then live; nothing is lost in between |
| PgSwap.RestorePostgres | internal/backup/postgres.go:489-597 | done if and only if the replacement is created and loaded and the swap commits within its tries, answered or read back; the outcome is unknown, or the server reported dead, exactly when it is; done means the live name holds the backup and the kept name the previous contents; a plain error means nothing but the leftover differs; the "unexpected state" error never occurs; at every state in between the previous contents exist |
| PgSwap.RollbackRestore | internal/backup/restore.go:996-1021 | rolled back if and only if the state was read and the swap commits, answered or read back; then the kept contents are live and the displaced ones kept under the new name; without a commit nothing changes |
| KeptCopies.FindRecoveryCopies | internal/backup/restore.go:822-891 | the loop over the database list computes the copies, the partial ones and the missing live names |
| KeptCopies.FindLive | internal/backup/restore.go:842-847 | the first loop collects the 40-byte prefixes of the databases that are not copies |
| KeptCopies.LeftoversAre | internal/backup/restore.go:842-863 | the copies found are exactly the names in scope that end in the mark of their kind and eight hex digits |
| KeptCopies.MissingLiveAre | internal/backup/restore.go:842-863 | the missing live names are exactly the prefixes of leftovers that no live database has |
| KeptCopies.Release | internal/backup/restore.go:897-931 | refused if and only if a copy may be all there is, or, unforced, a restore is unconfirmed, and then it drops nothing; otherwise exactly the listed copies whose drop ran are gone, and those whose drop answered are reported |
| KeptCopies.CandidatesAre | internal/backup/restore.go:961-991 | the candidates of a rollback are exactly the previous copies with the database's prefix, each once |
| KeptCopies.PlanIsACopy | internal/backup/restore.go:961-991 | a planned rollback names a kept previous copy of that database: the picked one, or the only one |
| KeptCopies.PlanExactly | internal/backup/restore.go:961-991 | a rollback is planned to a copy if and only if it is a previous copy of that database and is the one picked or, with none picked, the only one; and each error exactly when |
| KeptCopies.ReleaseOnlyWhileLive | internal/backup/restore.go:897-948 | a release that drops a copy of a database, forced or not, leaves that database live under its own name |
| KeptCopies.RestoreHolds | internal/backup/postgres.go:489-597 | contents held by the database or a copy of it are held after a restore, whatever point it was killed at |
| KeptCopies.RollbackHolds | internal/backup/restore.go:996-1021 | and after a rollback whose new name is not taken |
| KeptCopies.ReleaseHolds | internal/backup/restore.go:897-948 | and after a release, unless it drops them while the database is live with others |
| KeptCopies.ContentsStayHeld | internal/backup/restore.go:822-1021 | over any run of restores, rollbacks and releases, each possibly killed, contents once held stay held until a release that leaves the database live drops them |
| KeptCopies.NoDatabaseIsLost | internal/backup/restore.go:822-1021 | in every state of every such run the database is held, under its own name or as a copy, with contents it really had: never only as a replacement that was still loading |
| KeptCopies.SharedPrefixLoses | internal/backup/restore.go:934-948 | two databases with one 40-byte prefix: a release drops the only copy of one because the other is live |
| KeptCopies.ReleaseLosesIff | internal/backup/restore.go:897-948 | a release that is let through and runs to its end loses a database if and only if the database is not live, its copies are in the release's scope, and another live database has its first 40 bytes |
| MySqlRestore.Engine.DryRunFirst | internal/backup/restore.go:535-588 | the dry run touches its own database only, refuses one that is not teploy's, and passes if and only if any leftover goes, the database is created and the whole dump loads; when it says the server is gone |
| MySqlRestore.CheckNameIs | internal/backup/restore.go:469 | the dry run's database is the database's name, cut to 40 bytes, and a suffix |
| MySqlRestore.Engine.SafetyDump | internal/backup/restore.go:590-610 | a dump is taken if and only if it fits, has a place and succeeds; it is whole or reported failed, and never marked |
| MySqlRestore.Engine.Recreate | internal/backup/restore.go:495-497 | drop and create, which can stop between the two |
| MySqlRestore.Engine.Load | internal/backup/restore.go:618-620 | a load leaves the whole content, or a broken database |
| MySqlRestore.Engine.Replace | internal/backup/restore.go:612-643 | at every step the previous contents are live or whole in the dump; each outcome says which, and comes exactly when its steps end that way |
| MySqlRestore.Engine.ReloadSafety | internal/backup/restore.go:630-643 | a plain error if and only if the previous contents are live again |
| MySqlRestore.Engine.RestoreInPlace | internal/backup/restore.go:456-644 | the whole restore, killed at any step, conserves the previous contents; it is restored, or reports an incomplete recovery, exactly when its steps end that way; success and plain errors are truthful when there was a database; when there was none, a plain error leaves one if and only if the restore got past its dry run and the database was recreated |
| MySqlRestore.UnmarkedIsUnconfirmed | internal/backup/restore.go:877-889 | a copy is listed as unconfirmed if and only if it has no completed marker |
| MySqlRestore.OnlyCopyIsNotReleased | internal/backup/restore.go:934-948 | while the live database is neither the old nor the restored one, the dump that holds the old contents is refused release without force |
| KeyLayout.DbSegment | internal/backup/store.go:549-560 | the encoding loop computes the specified segment |
| KeyLayout.SegmentDecodes | internal/backup/store.go:549-568 | every database name, of any bytes, decodes to itself |
| KeyLayout.SegmentIsOneLevel | internal/backup/store.go:542-560 | a segment has no slash, no leading dot and no two dots in a row |
| KeyLayout.SegmentIsPlain | internal/backup/store.go:542-560 | a name of letters, digits, underscores and hyphens is its own segment, and no segment holds anything but those, dots and percent signs |
| KeyLayout.SegmentsDiffer | internal/backup/store.go:549-568 | different names have different segments |
| KeyLayout.FileNameReads | internal/backup/list.go:43 | every id, extension and encryption reads back from the file name |
| KeyLayout.SeriesLevels | internal/backup/store.go:591-597 | the path levels of any key of a series |
| KeyLayout.ClassifyRecovers | internal/backup/list.go:108-153 | accessory, database, id and encryption are recovered from every key the layout builds |
| KeyLayout.ListedIsABackup | internal/backup/list.go:43-153 | and only backups are listed: whatever is taken for one lies where a backup of its kind does, and its name is a timestamp with or without 16 hex digits, a known extension and, if encrypted, .age |
| KeyLayout.KeysDiffer | internal/backup/store.go:591-597 | two backups share a key only if they are the same backup |
| KeyLayout.SidecarsAreNotBackups | internal/backup/list.go:108-153 | no globals, meta or safety object of a series is listed as a backup, whatever its name |
| KeyLayout.VolumesRecover | internal/backup/list.go:108-153 | an app-level volume or data backup is listed with its id and encryption |
| KeyLayout.AppSidecarsAreNotBackups | internal/backup/list.go:108-153 | no meta or safety object of an app-level series is listed as a backup, and nothing else directly under the app is |
| KeyLayout.IncomingIsNotABackup | internal/backup/list.go:108-153 | nothing under the incoming tree is |
| KeyLayout.BaseReads | internal/backup/store.go:668-673 | a key built under the prefix gives its relative part back |
| KeyLayout.IncomingMirrors | internal/backup/store.go:193-205 | an upload's pending name is the same path under the base's incoming tree |

## Left out

- The SSH transport, docker, the aws and age tools, HTTP, crontab, command-line parsing: only as steps that succeed, fail or stop part-way.
- Caddy's own adapt and reload: nondeterministic success or failure. The application's deployment fence comes from a package that is not modelled; it is one more way for a commit to be refused.
- Shell syntax: the guard, the region check and the rename are one atomic step.
- An upload of the lock token whose first attempt lands after a retry, and a swap transaction that lands after its state was read.
- Text that is not valid UTF-8 in a Caddyfile; names and keys are modelled as bytes.
- Restores of MongoDB, Redis and Dragonfly, disaster-recovery bundles and cutover: long linear sequences over external engines.
- Exclusive ownership in claimNamespace: two first-time claimers can both see no owner.
- Upload verification in put and publish, size floors, engine detection, coverage listing, and the access, firewall, cache and static-site rendering: assumptions about the store, or string building.
- A listed backup's creation time, and whether an id is a real date: the latter is a parameter of the classifier. So is whether a host is publicly routable.
- The text of the maintenance page: a parameter without a backtick whose last word is not taken for a heredoc.
- PruneSafety.OwnNamesKeepSidecarsSafe: at plan level only, because sidecars are deleted even when a primary's delete failed.
- AdoptionExact.AdoptionIsExact: files made of items, with every address line unique and rewritten addresses plain; PlainFiles.PlainFileIff says which texts are such files. The apply pass of the code does not skip heredocs, and collapsing edits literals.
- CaddyRuns.FinalCaddyfile: regions are compared up to runs of empty lines. The first file opens no heredoc outside the regions (for one edit of a file that does, CaddyFile.UntouchedIsSpared); its foreign addresses are opened once each, those of requested hosts on plain address lines; region bodies and edited blocks close their literals and hold no marker lines and no other foreign address. Of an app whose webhook is renewed, the blocks it is given, renewed, have no runs of empty lines.
- AppendRedirect, which removes an app's block and writes an unmanaged one in its place, is not among the edits of a run.
- A webhook path that is not read on its own line: one with a quote left open, a newline or a heredoc at its end.
- A prune also sweeps stale pending uploads; the store of PruneRuns holds listed objects only.
- Maintenance.MaintenanceRoundTrip: a deploy while maintenance is on is written over when it goes off, because the stash is not refreshed.
- MaintenancePolicy.MaintenanceKeepsPolicy: a tls directive of one line; the block form keeps its first line only.
- PolicyKept.EnablingKeepsPolicy: access spans without runs of empty lines and without a fragment's marker lines: writing would collapse the ones and strip the others.
- MaintenanceFiles.MaintenanceRestoresTheFile: maintenance events of one app; other apps' edits in between are Maintenance.MaintenanceRoundTrip.
- MySqlRestore.Engine.RestoreInPlace: the database's name differs from the dry run's, which is that name cut to 40 bytes and a suffix.
- KeptCopies.NoDatabaseIsLost: a database that owns its 40-byte prefix, and outside changes that do not drop it; KeptCopies.SharedPrefixLoses shows that the first is needed.
