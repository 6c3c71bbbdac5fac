# A verified model of device limits, user synchronisation and traffic accounting

A panel keeps, for every user, the set of addresses that may be connected at the same
time across all proxy nodes. Each node keeps its kernel, its limiter and its traffic
counters in step with the panel. This project models the code that does this, in the
form in which it is written, and proves what that code keeps over whole runs.

## The pieces

**Devices (panel).** `DeviceFields` is the string encoding `"node:ip"` of the Redis
hashes. `DeviceStateServices` is the service itself, working on string-keyed hashes;
ghost maps from (node, IP) to timestamp say what the strings mean. `DeviceAdmission`
holds the admission rule as a function and its properties without loops. `DeviceRuns`
proves the properties of serial runs: the bound, first come first served, no idle
slots, exact publication, and how the earlier admission rule differs. `DeviceLock`
splits `setDevices` into single Redis commands of any number of concurrent workers,
interleaved with removals that take no lock and with the clock, and proves the bound
there, that an undisturbed section equals one serial report, and that the bound breaks
when the lock expires inside a section. `DeviceOrder` proves that undisturbed concurrent
runs are serial runs in lock order, which carries the serial results over.

**Users (node).** `Users` holds the user lists and the helpers that filter, merge and
subtract them; `UserHash` the bytes that are hashed; `UserDiff` the difference of two
lists. `Mailbox` and `MailboxWakeup` are the machine-mode mailbox and its hand-off
protocol. `NodeModel` says what each handler of the service does to users, limiter, hash
and kernel, including every fallback; `NodeService` is the service with its fields
updated in place, each method proved to do exactly that. `NodeRuns` proves agreement
over all runs, `NodeLife` whether the kernel runs, with which configuration, and which
users and configuration are current, `NodePulls` what happens when updates arrive during a REST pull, and
`Coalescing` that the mailbox path and the direct path end in the same kernel.
`NodeIdentities` carries agreement over to the kernel's identities with their aliases.

**Traffic and limits (node).** `Tracker` turns cumulative counters into deltas;
`TrafficRuns` proves that nothing is counted twice, and says exactly what resets lose.
`AliveReports` covers the digest that suppresses unchanged address reports. `Backoff` is
the skip counter. `Limits` proves the two lookup indexes against a scan of the users.

## Conventions

- Redis returns the fields of a hash in no fixed order and Go maps are iterated in no
  fixed order. A list read from a hash is therefore any listing of the right set, and
  theorems quantify over all of them.
- Go's nil slice and empty slice are `None` and `Some([])`; the code branches on it.
- SHA-256 is represented by its preimage. Where a result needs the absence of
  collisions, it asks for a family of user maps whose preimages differ, holding just the
  maps concerned. `DecodableIsCollisionFree` gives such a family: UUIDs of one length,
  aliases of eight characters or more, as the panel's slot UUIDs are. `LengthsMatter`
  shows that the encoding needs the common length; its witness is about bytes, not about
  UUIDs the panel would send.
- Lists of users have unique IDs, as the panel's primary keys give them, wherever a
  member says so (`UniqueIds`).
- The kernel is its interface contract: a running flag, the configuration it runs with and
  a map from user ID to UUID.
  `Outcome` says which kernel calls fail. The contract says that `Start` stops a
  running instance first; a kernel that swaps instances only on success is covered by
  `Outcome.keepsOld`.
- Each handler reads the clock once. Device times are seconds, node times nanoseconds.
- A push that reports an error counts as undelivered.

## Where code and documentation disagree

- The comment above `syncNodeDevices` promises that users missing from a report are
  removed from both stores. The code visits only users with an allowed device on the
  node, so a user who was only reported there stays (`ClearLeavesReported`).
- The comment above `HasLimits` speaks of configured limits. Buckets are created on
  first use, so right after `UpdateBuckets` the flag says whether a bucket existed
  before and is still wanted (`SpeedTracker.UpdateBuckets`).
- The comment above the earlier `limitDevices` promises that the first device online
  stays. It lists the allowed devices after removing the reporting node's own, so a
  later address of that node can take the place (`OldRuleKeepsIff`, `OldRuleDisplaces`).
- The comment above `RestoreAliveIPs` says that it merges addresses back in for a failed
  push, into a buffer that the next `Process` overwrites. `Process` leaves the buffer
  alone; the next reporting flush clears it, and no flush ever reads what was restored
  (`RestoreHasNoEffect`).

## Where a promise holds only under a condition

- `StepAgreesIff` and `AgreementHoldsIff`: the kernel stays in step with the loaded
  users if and only if each event meets the condition `InStep` states for it. For an
  added delta that succeeds, expired users outside the delta must have been swept, and
  no user whose UUID the delta changes may have survived its `RemoveUsers`. The error of
  that call is ignored and `AddUsers` skips known IDs, so one failing call is enough to
  keep the old UUID in the kernel (`IgnoredErrorKeepsOldUuid`). Fallbacks, double
  failures, removals, polls and sweeps have conditions of their own.
- `IdentitiesHoldIff`: with aliases there is one more condition. A delta that changes only
  the aliases of a known user never reaches the kernel.
- `ListStartsIff`: a user list starts a stopped kernel only with the users loaded before
  it, so the first one never does.
- `OldRuleKeepsIff`: under the earlier admission rule an address keeps its place if and
  only if another node holds it too, or everything up to it in the report fits the limit
  beside the other nodes' devices. `PresentRuleKeepsIff` is the present rule, which adds
  whatever was live before.
- `WithinLimitIff`: after the limit has been lowered, a report brings the live set within
  it if and only if the other nodes' devices, and the reported ones among the first
  winners, fit.
- `CoalescingIsInvisible`: the mailbox path loses something if and only if the last event
  that changed the buffered users is a removal of everybody, and an earlier drain had
  loaded somebody. `DrainCatchesUpIff` is the same for one drain.
- `ClearLeavesReported`: reported devices are left behind if and only if the user had
  reported but no allowed devices on the node.
- `BooksBalance`: the only traffic that escapes the books is what a reset finds unread,
  and the last reading of a counter that overtakes it unnoticed after a reset.
- `ReportSize`: one report leaves a slot idle if and only if some live device of its node
  is no longer wanted by anybody and the wanted addresses do not fit beside such devices;
  `OneReportMayIdle` is the smallest case.
- `SameDigestIff`: a change of the alive addresses goes unnoticed if and only if the same
  users are alive and each one's sorted addresses read the same without separators.
- `RenderInjective`: comparing rendered aliases is exact for nonempty aliases without
  spaces.
- `MidPullUpdateSurvives`, `CurrentBaselineIsTaken`: a polled list gives way to a newer
  one exactly when a list was known at the beginning of the pull.

## Model

| member | source | states |
|---|---|---|
| DeviceFields.IpRoundTrip | src/panel/app/Services/DeviceStateService.php:434-450 | splitting a field at its first colon recovers the address, also for IPv6 |
| DeviceFields.FieldsReadAsWritten | src/panel/app/Services/DeviceStateService.php:64-74 | fields look as the code writes them, for IPv4 and IPv6 |
| DeviceFields.PrefixSelectsNode | src/panel/app/Services/DeviceStateService.php:130-151 | the prefix test matches exactly the fields of that node and of no other node |
| DeviceFields.FieldInjective | src/panel/app/Services/DeviceStateService.php:64-74 | different (node, IP) slots never share a field |
| DeviceFields.DecimalInjective | src/panel/app/Services/DeviceStateService.php:64-64 | different node IDs have different prefixes |
| DeviceAdmission.AdmitBound | src/panel/app/Services/DeviceStateService.php:313-367 | stored addresses together with the captured winners stay within the limit, reported winners are all stored, a free slot is refused to no live reported address |
| DeviceAdmission.AdmitAt | src/panel/app/Services/DeviceStateService.php:313-367 | exactly which addresses of a report are stored: with winners that fit, the winners and every address up to which winners and report fit the limit; else the reported ones among the first winners |
| DeviceAdmission.AdmitOverLimit | src/panel/app/Services/DeviceStateService.php:313-367 | with more winners than slots, exactly the reported ones among the first winners are stored |
| DeviceAdmission.AdmitOldBound | panel/DeviceStateService.php:239-272 | the earlier rule stays within the limit and fills it as far as the report allows |
| DeviceAdmission.FillFacts | src/panel/app/Services/DeviceStateService.php:334-361 | the filling loop keeps what it has, adds eligible addresses only, stops at the limit, and below the limit omits none |
| DeviceAdmission.KeepOnlyFacts | src/panel/app/Services/DeviceStateService.php:363-366 | the final filter keeps exactly the report's addresses that are allowed globally |
| DeviceAdmission.FillKeepsAll | src/panel/app/Services/DeviceStateService.php:334-349 | winners that fit the limit are all kept, in order |
| DeviceAdmission.LiveAfterStamp | src/panel/app/Services/DeviceStateService.php:54-78 | after rewriting one node, the live addresses are those of the other nodes and the written ones |
| DeviceAdmission.LiveShrinks | src/panel/app/Services/DeviceStateService.php:434-450 | removals and passing time never make an address live |
| DeviceAdmission.LiveForFiveMinutes | src/panel/app/Services/DeviceStateService.php:413-450 | an entry is live up to the age of 300 seconds, not at 301 |
| DeviceAdmission.DistinctInOrder | src/panel/app/Services/DeviceStateService.php:58-59 | distinct addresses keep the order in which they first occur |
| DeviceAdmission.KeepOnlyInOrder | src/panel/app/Services/DeviceStateService.php:363-366 | the final filter works address by address, in order |
| DeviceStateServices.DeviceStateService.SetDevices | src/panel/app/Services/DeviceStateService.php:31-101 | without the lock nothing changes; with it the new stores are the admission rule applied to the stores at entry, for some hash order of the winners |
| DeviceStateServices.DeviceStateService.SetDevicesEarlier | panel/DeviceStateService.php:31-93 | the earlier version: the new stores are the earlier rule applied after the node's own entries are gone |
| DeviceStateServices.DeviceStateService.LimitDevicesEarlier | panel/DeviceStateService.php:239-272 | its loops compute the earlier admission rule |
| DeviceStateServices.DeviceStateService.LimitDevices | src/panel/app/Services/DeviceStateService.php:313-367 | the loops compute the admission rule, with captured winners or with those still reported |
| DeviceStateServices.DeviceStateService.LiveDevices | src/panel/app/Services/DeviceStateService.php:413-450 | the addresses not older than 300 seconds, each once |
| DeviceStateServices.DeviceStateService.RemoveNode | src/panel/app/Services/DeviceStateService.php:130-151 | deletes the entries of the node and nothing else |
| DeviceStateServices.DeviceStateService.RemoveNodeDevices | src/panel/app/Services/DeviceStateService.php:130-140 | the same on the allowed store, leaving the reported one |
| DeviceStateServices.DeviceStateService.RemoveNodeReportedDevices | src/panel/app/Services/DeviceStateService.php:142-151 | the same on the reported store |
| DeviceStateServices.DeviceStateService.ClearNode | src/panel/app/Services/DeviceStateService.php:156-173 | a user is cleared from both stores exactly when it has an allowed device on the node |
| DeviceStateServices.DeviceStateService.HasNode | src/panel/app/Services/DeviceStateService.php:107-125 | finds the node in a hash if and only if some entry belongs to it |
| DeviceStateServices.DeviceStateService.TakeWinners | src/panel/app/Services/DeviceStateService.php:334-349 | the first loop, with its early return, keeps eligible winners up to the limit |
| DeviceStateServices.DeviceStateService.FillFromReport | src/panel/app/Services/DeviceStateService.php:351-361 | the second loop fills the free slots from the report |
| DeviceStateServices.DeviceStateService.KeepAllowed | src/panel/app/Services/DeviceStateService.php:363-366 | the report restricted to the global list, in order |
| DeviceStateServices.DeviceStateService.Unique | src/panel/app/Services/DeviceStateService.php:58-59 | the first occurrence of every address of the report, in order |
| DeviceStateServices.DeviceStateService.GetDeviceCount | src/panel/app/Services/DeviceStateService.php:210-223 | the number of distinct live reported addresses |
| DeviceStateServices.DeviceStateService.GetUserDevices | src/panel/app/Services/DeviceStateService.php:271-306 | the list published for a user, from the live allowed addresses |
| DeviceRuns.RunKeepsInvariants | src/panel/app/Services/DeviceStateService.php:31-101 | after every serial run the live allowed set is within the limit and every allowed entry is reported with the same timestamp |
| DeviceRuns.StepBounded | src/panel/app/Services/DeviceStateService.php:31-101 | a report or disconnect keeps the bound |
| DeviceRuns.StepMirrored | src/panel/app/Services/DeviceStateService.php:56-78 | a report or disconnect keeps allowed entries mirrored in the reported store |
| DeviceRuns.RunsFromEmpty | src/panel/app/Services/DeviceStateService.php:31-101 | the same from the empty stores on |
| DeviceRuns.ReportReplaces | src/panel/app/Services/DeviceStateService.php:54-78 | entry by entry: a report replaces what its node had reported, allows some of it, and leaves other nodes alone |
| DeviceRuns.ClearRemoves | src/panel/app/Services/DeviceStateService.php:156-173 | entry by entry: a disconnect takes the node's entries from both stores, if it had an allowed one, and nothing else |
| DeviceRuns.UnlimitedStoresAll | src/panel/app/Services/DeviceStateService.php:323-325 | without a limit exactly the reported addresses are stored for the node |
| DeviceRuns.FirstComeFirstServed | src/panel/app/Services/DeviceStateService.php:49-78 | a live allowed entry its node keeps reporting in time is never evicted, over any serial run |
| DeviceRuns.ReportSize | src/panel/app/Services/DeviceStateService.php:54-78 | the exact number of live addresses after any report; a slot stays idle if and only if some device is leaving and the wanted addresses do not fit beside the leaving ones |
| DeviceRuns.ReportFillsSlots | src/panel/app/Services/DeviceStateService.php:54-78 | the case without leaving devices: exactly min(limit, other live addresses and report) |
| DeviceRuns.RepeatedReportFills | src/panel/app/Services/DeviceStateService.php:54-78 | the same report twice leaves no slot idle, from any bounded state |
| DeviceRuns.ThirdReportChangesNothing | src/panel/app/Services/DeviceStateService.php:54-78 | a third identical report changes no allowed device |
| DeviceRuns.OneReportMayIdle | src/panel/app/Services/DeviceStateService.php:49-78 | after one report a slot may be idle: replacing the only device stores nothing |
| DeviceRuns.OverLimitExactly | src/panel/app/Services/DeviceStateService.php:313-367 | the exact live set after a report that finds more live devices than slots: the other nodes' devices and the reported ones among the first winners |
| DeviceRuns.WithinLimitIff | src/panel/app/Services/DeviceStateService.php:313-367 | under any limit a report ends within it if and only if the live devices fitted before or that union does |
| DeviceRuns.OverLimitOnlyShrinks | src/panel/app/Services/DeviceStateService.php:313-367 | so a step ends within the limit or adds no live address |
| DeviceRuns.EmptyReportEvictsNobody | src/panel/app/Services/DeviceStateService.php:313-367 | an empty report of a node without devices leaves everything live, however far beyond the limit |
| DeviceRuns.LoweredLimitMayStayExceeded | src/panel/app/Services/DeviceStateService.php:313-367 | a lowered limit need not shrink the stored set |
| DeviceRuns.PublishedExactly | src/panel/app/Services/DeviceStateService.php:271-306 | the published list is the live allowed set without repeats; with an explicit limit above 1 it has exactly that many entries or is absent |
| DeviceRuns.PublishedSize | src/panel/app/Services/DeviceStateService.php:271-306 | in any state: as many allowed and reported addresses as a positive limit permits; withheld exactly when an explicit limit above 1 is partly used |
| DeviceRuns.PublishedUnlimited | src/panel/app/Services/DeviceStateService.php:286-302 | without a limit the published list is exactly the live allowed set |
| DeviceRuns.PublishedCapped | src/panel/app/Services/DeviceStateService.php:271-306 | in any state a published list is live, without repeats and within the limit |
| DeviceRuns.ClearLeavesReported | src/panel/app/Services/DeviceStateService.php:182-205 | after removing a user's node, reported entries remain if and only if none were allowed there |
| DeviceRuns.OldRuleFillsAtOnce | panel/DeviceStateService.php:31-93 | the earlier rule reaches min(limit, others and report) in one report |
| DeviceRuns.OldUnlimitedStoresAll | panel/DeviceStateService.php:239-272 | without a limit the earlier version stores every reported address |
| DeviceRuns.OldRuleKeepsIff | panel/DeviceStateService.php:239-272 | under the earlier rule a reported address is stored if and only if another node holds it or everything up to it fits the limit with the other nodes' devices; its own past makes no difference |
| DeviceRuns.OldRuleAlone | panel/DeviceStateService.php:31-93 | with no device on another node, exactly the first addresses of the report are stored |
| DeviceRuns.OldRuleDisplaces | panel/DeviceStateService.php:31-93 | so a later address displaces one that is still reported |
| DeviceRuns.PresentRuleKeepsIff | src/panel/app/Services/DeviceStateService.php:49-78 | under the present rule a reported address is stored if and only if it was live before or everything up to it fits the limit with the live devices |
| DeviceLock.LimitHoldsUnderInterleaving | src/panel/app/Services/DeviceStateService.php:31-101 | no interleaving of concurrent reports, unlocked removals and ticks exceeds the limit while no lock expires inside its section |
| DeviceLock.SafeStep | src/panel/app/Services/DeviceStateService.php:31-101 | every single Redis command, and an exception at any point of the section, keeps the bound, mutual exclusion and what the lock holder knows |
| DeviceLock.ExclusiveKept | src/panel/app/Services/DeviceStateService.php:34-41 | at most one worker is in the section, and the lock is its own |
| DeviceLock.LockHasWorkerAlways | src/panel/app/Services/DeviceStateService.php:34-41 | in every run a lock key means a worker in its section, so a report is skipped only while another one is being handled |
| DeviceLock.AttemptAtLock | src/panel/app/Services/DeviceStateService.php:37-43 | a free lock is taken for 8 seconds; an attempt at a held one ends without a trace |
| DeviceLock.SectionIsAtomic | src/panel/app/Services/DeviceStateService.php:31-101 | a section whose commands are not interrupted has the effect of one serial report |
| DeviceOrder.RunsInLockOrder | src/panel/app/Services/DeviceStateService.php:31-101 | an undisturbed run of any number of interleaved workers, failed attempts at the lock included, is the serial run of its reports in lock order |
| DeviceOrder.StepSync | src/panel/app/Services/DeviceStateService.php:31-101 | the same for one Redis command |
| DeviceOrder.ConcurrentFirstComeFirstServed | src/panel/app/Services/DeviceStateService.php:49-78 | a device that its node's completed reports keep naming in time keeps its place among concurrent workers |
| DeviceOrder.ConcurrentRepeatedReportFills | src/panel/app/Services/DeviceStateService.php:54-78 | when the last two completed reports are the same, no slot is idle |
| DeviceLock.ExpiredLockBreaksLimit | src/panel/app/Services/DeviceStateService.php:37-41 | a run in which the 8-second lock expires inside a section ends with two live addresses under limit 1 |
| DeviceLock.EmptyIsSafe | src/panel/app/Services/DeviceStateService.php:31-101 | the empty store starts within the invariant |
| Users.ActiveUsersAt | src/node/internal/service/service.go:902-914 | the in-place filter leaves exactly the unexpired users in order, and the rest of the backing array as it was |
| Users.ActiveById | src/node/internal/service/service.go:902-914 | filtering a list filters its user map |
| Users.ExpiresOnTime | src/node/internal/model/types.go:93-95 | a user expires with the second it names and never for a nonpositive expiry |
| Users.ActiveInOrder | src/node/internal/service/service.go:902-914 | filtering keeps the order |
| Users.WithoutInOrder | src/node/internal/service/service.go:1016-1034 | so does subtracting |
| Users.MergeUsers | src/node/internal/service/service.go:992-1013 | base overlaid with delta, one user per ID |
| Users.SubtractUsers | src/node/internal/service/service.go:1016-1034 | base without the IDs of delta, in order |
| Users.KernelAddUnique | src/node/internal/kernel/kernel.go:67-70 | AddUsers by contract adds unknown IDs and leaves known ones alone |
| UserHash.ComputeUserHash | src/node/internal/service/service.go:1240-1263 | the preimage is that of a sorted permutation; for unique IDs it depends on the user map only, not on list order |
| UserHash.SortedUnique | src/node/internal/service/service.go:1241-1243 | a sorted list with unique IDs is determined by its map, whatever the sorting algorithm |
| UserHash.DigestInjective | src/node/internal/service/service.go:1247-1263 | equal preimages mean equal user maps, for UUIDs of one length and NUL-free aliases of eight characters or more |
| UserHash.DecodableIsCollisionFree | src/node/internal/service/service.go:1247-1263 | so such maps are a family without collisions, as skipping and coalescing need |
| UserHash.PreimageInjective | src/node/internal/service/service.go:1247-1263 | the same for lists, by decoding records from the front |
| UserHash.RecordInjective | src/node/internal/service/service.go:1247-1263 | a record determines all fields of its user, aliases included, whatever follows it |
| UserHash.RecordLayout | src/node/internal/service/service.go:1247-1261 | the bytes of one record, field by field |
| UserHash.LengthsMatter | src/node/internal/service/service.go:1247-1263 | without a common UUID length one user may encode like two |
| UserDiff.UserDiff | src/node/internal/kernel/kernel.go:124-147 | each result list holds, in order, the users of one side that differ from the other |
| UserDiff.DifferingInOrder | src/node/internal/kernel/kernel.go:134-146 | the lists keep the order of the users |
| UserDiff.UserDiffExact | src/node/internal/kernel/kernel.go:124-147 | removing then adding turns the old identities into the new ones; unchanged users are in neither list |
| UserDiff.UpdateIsRemoveThenAdd | src/node/internal/kernel/kernel.go:75-79 | on a kernel that holds the old users, RemoveUsers then AddUsers of the difference equals UpdateUsers |
| UserDiff.RenderingIsLossy | src/node/internal/kernel/kernel.go:134-146 | comparing rendered aliases may take different alias lists for equal |
| UserDiff.RenderInjective | src/node/internal/kernel/kernel.go:134-146 | for nonempty aliases without spaces equal renderings mean equal alias lists |
| UserDiff.UserDiffExactAliases | src/node/internal/kernel/kernel.go:124-147 | for such aliases the difference is exact on UUIDs and alias lists themselves |
| Mailbox.NodeMailbox.constructor | src/node/internal/controlplane/mailbox.go:37-39 | a new mailbox is empty, not ready, without a token |
| Mailbox.NodeMailbox.MarkReady | src/node/internal/controlplane/mailbox.go:41-46 | sets ready and leaves a token |
| Mailbox.NodeMailbox.SeedBaseline | src/node/internal/controlplane/mailbox.go:51-61 | fills in a list or configuration only where none is known, without marking anything dirty |
| Mailbox.NodeMailbox.Receive | src/node/internal/controlplane/mailbox.go:63-106 | one event changes the mailbox as Apply says and leaves a token when it signals a change |
| Mailbox.NodeMailbox.DrainIfReady | src/node/internal/controlplane/mailbox.go:117-141 | hands over exactly the dirty parts of a ready mailbox and clears them |
| Mailbox.ApplyUserDelta | src/node/internal/controlplane/mailbox.go:225-261 | overlays or removes the delta by ID, keeps IDs unique, rejects unknown actions, leaves nil when nobody is left |
| Mailbox.AddDelta | src/node/internal/controlplane/mailbox.go:226-241 | overwriting through the index map equals overlaying the user maps |
| Mailbox.BufferIsFold | src/node/internal/controlplane/mailbox.go:63-106 | once a full list is known the buffer is the fold of all user events since |
| Mailbox.ReconcileIffLost | src/node/internal/controlplane/mailbox.go:77-100 | the reconcile flag is up if and only if a delta was lost and no drain has told the service since |
| Mailbox.NoSilentLoss | src/node/internal/controlplane/mailbox.go:77-141 | every delta that could not be applied is reported by a later drain or still flagged |
| Mailbox.NoFalseAlarm | src/node/internal/controlplane/mailbox.go:77-141 | a drain asks for reconciliation only after a delta was lost |
| Mailbox.NilBuffer | src/node/internal/controlplane/mailbox.go:242-258 | the buffered list is nil exactly when removals emptied it |
| Mailbox.DrainDelivers | src/node/internal/controlplane/mailbox.go:117-141 | what a drain hands over in terms of the operations alone: the last configuration and device lists since the last effective drain, the fold of the users if they changed since, and whether a delta was lost since; nothing before the mailbox is ready |
| Mailbox.WhatWaits | src/node/internal/controlplane/mailbox.go:63-141 | the same for what is waiting, with the known configuration |
| MailboxWakeup.NoLostWakeup | src/node/internal/controlplane/mailbox.go:101-141 | in every interleaving undrained state of a ready mailbox has a token, a pending notifier or an awake service |
| MailboxWakeup.NoLostWakeupFromStart | src/node/internal/controlplane/mailbox.go:41-46 | the same from a new mailbox on |
| MailboxWakeup.ApplyChanges | src/node/internal/controlplane/mailbox.go:63-106 | an event signals a change exactly when it leaves something to drain |
| MailboxWakeup.Deliverable | src/node/internal/service/service.go:253-257 | at most notify, receive and drain get the state out |
| NodeService.NextExpiryAt | src/node/internal/service/service.go:971-988 | now when somebody has expired, else the earliest expiry, or none |
| NodeService.FilteredBacking | src/node/internal/service/service.go:733-753 | the caller's list is the in-place filtered array, and maps to the unexpired users and the leftovers behind them |
| NodeService.Service.InitialSetup | src/node/internal/service/service.go:262-336 | the first snapshot is loaded and starts the kernel unless it has no users |
| NodeService.Service.PrepareUserState | src/node/internal/service/service.go:733-753 | loads the unexpired users into limiter, list, hash and timer, and returns the previous ones |
| NodeService.Service.RestoreUserState | src/node/internal/service/service.go:755-767 | goes back to saved users and hash, dropping those expired by now |
| NodeService.Service.EnsureRunning | src/node/internal/service/service.go:794-802 | starts a stopped kernel only with users and a configuration |
| NodeService.Service.ApplyUserUpdate | src/node/internal/service/service.go:808-831 | full replacement with restart and restore as fallbacks, state for state |
| NodeService.Service.ApplyAdd | src/node/internal/service/service.go:837-871 | the add branch with dropped changed users, fallback and restore |
| NodeService.Service.DropChanged | src/node/internal/service/service.go:849-856 | the kernel loses exactly the loaded users whose UUID the delta changes, except failed calls |
| NodeService.Service.ApplyRemove | src/node/internal/service/service.go:872-899 | the remove branch with fallback and restore |
| NodeService.Service.ApplyChanges | src/node/internal/service/service.go:1038-1067 | reload, restart, start or stop after a configuration change |
| NodeService.Service.OnConfig | src/node/internal/service/service.go:555-577 | a new valid configuration is taken and applied |
| NodeService.Service.OnUsers | src/node/internal/service/service.go:579-591 | nil lists and lists with the hash in force are ignored, others replace the users |
| NodeService.Service.DrainMachineMailbox | src/node/internal/service/service.go:419-436 | a drained snapshot is handled like a configuration event and then a user event |
| NodeService.Service.ExpireUsers | src/node/internal/service/service.go:916-934 | afterwards nobody loaded is expired, on every path, and the timer is armed for the earliest loaded expiry |
| NodeService.Service.ApplyPullResult | src/node/internal/service/service.go:667-721 | stale or invalid parts are dropped, the rest is applied |
| NodeService.Service.TakeConfig | src/node/internal/service/service.go:670-703 | a polled configuration is taken unless it is stale or invalid |
| NodeRuns.AgreementHoldsIff | src/node/internal/service/service.go:553-900 | the kernel's ID-to-UUID map, the limiter and the stored hash describe the loaded users in every state of a run if and only if every event of the run is in step; the hash does so up to users that had expired when it was stored |
| NodeRuns.AgreementFromStart | src/node/internal/service/service.go:262-900 | the same for every run of a fresh node, its initial setup included; limiter and hash agree in any case |
| NodeRuns.StepAgreesIff | src/node/internal/service/service.go:553-900 | for every event and every combination of failing kernel calls, agreement is kept if and only if the event's exact condition holds |
| NodeRuns.LoadedHolds | src/node/internal/service/service.go:733-767 | whatever fails, the limiter holds the loaded users and the hash describes them after every run |
| NodeRuns.StepLoads | src/node/internal/service/service.go:733-900 | the same for one event |
| NodeRuns.UpdateAgreesIff | src/node/internal/service/service.go:808-831 | a full replacement goes wrong only when an outdated instance survives a failed restart with expired users |
| NodeRuns.PullAgreesIff | src/node/internal/service/service.go:667-721 | the exact condition for a polled result, applied at once or left to a reload |
| NodeRuns.SweepAgreesIff | src/node/internal/service/service.go:916-934 | the exact condition for a sweep |
| NodeRuns.SkipIsSafe | src/node/internal/service/service.go:579-587 | an update skipped on an equal hash would have changed nothing, if digests of the maps concerned do not collide |
| NodeRuns.SweepIsComplete | src/node/internal/service/service.go:916-934 | a sweep leaves exactly the unexpired users loaded, whatever kernel calls fail |
| NodeRuns.AddAgreesIff | src/node/internal/service/service.go:835-871 | an add keeps the kernel in step if and only if: on success, expired users had been swept and no changed user survived its RemoveUsers, whose error is ignored; on fallback, no expired user sits behind the filtered list; on double failure, exactly the expired users had been dropped |
| NodeRuns.IgnoredErrorKeepsOldUuid | src/node/internal/service/service.go:849-859 | one failed RemoveUsers, all else succeeding, leaves the old UUID in the kernel and the new one everywhere else |
| NodeRuns.RemoveAgreesIff | src/node/internal/service/service.go:872-899 | the same for a remove, on success, fallback and double failure |
| NodeIdentities.IdentitiesHoldIff | src/node/internal/service/service.go:553-900 | over whole runs, aliases included: the kernel authenticates exactly the loaded users in every state if and only if every event is in step |
| NodeIdentities.StepIdentitiesIff | src/node/internal/service/service.go:553-900 | the same for one event and every combination of failing kernel calls |
| NodeIdentities.AddIdentitiesIff | src/node/internal/service/service.go:835-871 | an add keeps identities in step if and only if it keeps UUIDs in step and, when AddUsers succeeds, no known user changes aliases alone |
| NodeIdentities.HandleProjects | src/node/internal/service/service.go:553-900 | forgetting aliases commutes with every event |
| NodeIdentities.RunProjects | src/node/internal/service/service.go:553-900 | and with every run |
| NodeRuns.ListStartsIff | src/node/internal/service/service.go:794-831 | a list starts a stopped kernel if and only if users were loaded before, a configuration is known, the start with the earlier users succeeds and nothing stops it again |
| NodeRuns.FirstListDoesNotStart | src/node/internal/service/service.go:808-814 | so a first user list is stored but does not start the kernel |
| NodeLife.RunningIff | src/node/internal/service/service.go:553-1067 | for every event and every combination of failing calls, the exact condition under which the kernel runs afterwards |
| NodeLife.ChangesRunIff | src/node/internal/service/service.go:1038-1067 | a stopped kernel starts with a configuration and users if the start succeeds; a running one goes on unless users are missing or reload and restart fail for good |
| NodeLife.ListThenConfigRuns | src/node/internal/service/service.go:553-611 | a node that gets its users before its configuration ends up running with both |
| NodeLife.StoppedIsEmpty | src/node/internal/kernel/kernel.go:53-61 | a stopped kernel holds no users and no configuration, in every run |
| NodeLife.ConfigIsLast | src/node/internal/service/service.go:553-721 | after every run the configuration is the last accepted one: valid, and polled only against a current or empty baseline |
| NodeLife.StepConfigIff | src/node/internal/service/service.go:1038-1067 | a running kernel goes on with the current configuration if and only if no new one meets a failing reload and restart beside a surviving instance |
| NodeLife.ConfigHoldsIff | src/node/internal/service/service.go:1038-1067 | the same in every state of a run |
| NodeLife.LoadedExactly | src/node/internal/service/service.go:733-900 | exactly which users are loaded after an event: those aimed at, or those before where the kernel refuses both the change and its fallback, without the expired |
| NodeLife.HashedExactly | src/node/internal/service/service.go:733-767 | after every list kept the hash in force is that of exactly the loaded users, otherwise the one before |
| NodeLife.SmoothRunsHashExactly | src/node/internal/service/service.go:733-900 | in a run whose kernel calls succeed the hash is exact in every state |
| NodeLife.RepeatedListIsIgnored | src/node/internal/service/service.go:579-587 | a list with just the loaded users changes nothing |
| NodeRuns.SmoothRunsAgree | src/node/internal/service/service.go:553-900 | when kernel calls succeed and no loaded user is past expiry at a delta, everything describes exactly the loaded users in every state |
| NodePulls.PullsStayOrderly | src/node/internal/service/service.go:615-664 | at most one pull runs, and each result carries the hash in force when its pull began |
| NodePulls.MidPullUpdateSurvives | src/node/internal/service/service.go:615-721 | a differing update that arrived during a pull is never overwritten by its result |
| NodePulls.MidPullConfigSurvives | src/node/internal/service/service.go:615-703 | nor does a polled configuration overwrite one that came during the pull |
| NodePulls.PolledConfigIsTaken | src/node/internal/service/service.go:687-703 | a valid configuration whose baseline is still in force becomes current |
| NodePulls.QuietPoll | src/node/internal/service/service.go:636-656 | a poll that finds nothing new changes nothing |
| NodePulls.PullDelivers | src/node/internal/service/service.go:615-664 | a pull that may begin does, and delivers with what was in force then |
| NodePulls.FetchedResult | src/node/internal/service/service.go:640-656 | what a pull makes of a snapshot: unexpired users, no configuration if unchanged |
| NodePulls.CurrentBaselineIsTaken | src/node/internal/service/service.go:667-721 | with a current baseline, or none known, the polled list replaces the users; only if the running kernel refuses UpdateUsers and restart do the users before stay |
| NodePulls.StaleUsersIgnored | src/node/internal/service/service.go:667-721 | a result with stale or no users changes no user state |
| Coalescing.CoalescingIsInvisible | src/node/internal/service/service.go:419-436 | for every stream and drain schedule that ends with a drain, both paths end with the same kernel map if and only if the stream does not end with a removal of everybody, or nothing was loaded by a drain before it |
| Coalescing.CoalescingKeepsUsers | src/node/internal/service/service.go:419-436 | so whenever the stream leaves some user, whatever drains met a nil buffer on the way |
| Coalescing.DirectIsFold | src/node/internal/service/service.go:553-611 | events handled directly leave the kernel with the fold of all events |
| Coalescing.BoxedIsFold | src/node/internal/controlplane/mailbox.go:63-141 | coalesced events leave the mailbox with the fold; the stream says when the buffer is nil and what the service has loaded |
| Coalescing.DrainCatchesUpIff | src/node/internal/service/service.go:579-587 | a drain brings the kernel up to the mailbox if and only if the buffer is not nil or nothing is loaded |
| Coalescing.LastRemovalIsLost | src/node/internal/controlplane/mailbox.go:242-258 | a removal of the last users empties the kernel directly but is lost through the mailbox |
| Coalescing.PolledListIsForgotten | src/node/internal/service/service.go:667-721 | a poll loads its list, and the next delta brings back the older list of the mailbox |
| Tracker.Tracker.Process | src/node/internal/tracker/tracker.go:80-113 | each user's delta since the last reading, or the whole counter after a reset, joins the pending traffic |
| Tracker.Tracker.Record | src/node/internal/tracker/tracker.go:91-111 | the same for one user |
| Tracker.Tracker.FlushTraffic | src/node/internal/tracker/tracker.go:135-141 | hands over all pending traffic and keeps none |
| Tracker.Tracker.RestoreTraffic | src/node/internal/tracker/tracker.go:144-153 | adds the traffic of a failed push back, user by user |
| TrafficRuns.NeverOverCounted | src/node/internal/tracker/tracker.go:80-153 | delivered, in-flight and pending bytes never exceed the bytes carried, under arbitrary resets and failed pushes |
| TrafficRuns.ExactWithoutResets | src/node/internal/tracker/tracker.go:80-153 | without resets they equal the counter last read |
| TrafficRuns.EverythingArrives | src/node/internal/tracker/tracker.go:80-153 | without resets one reading and one successful push deliver every byte carried so far |
| TrafficRuns.ReadingCatchesUp | src/node/internal/tracker/tracker.go:89-104 | a reading leaves nothing unread |
| TrafficRuns.PushTakesAll | src/node/internal/service/service.go:1108-1131 | a push takes all that is pending; success delivers it, failure puts it back |
| TrafficRuns.BooksBalance | src/node/internal/tracker/tracker.go:89-104 | carried bytes are accounted, unread or lost to resets, with the exact loss of every event |
| TrafficRuns.FromStart | src/node/internal/tracker/tracker.go:80-153 | all three results for every run of a fresh node |
| TrafficRuns.LossPerEvent | src/node/internal/tracker/tracker.go:95-101 | a reset loses what was unread, traffic that overtakes the last reading unnoticed loses that reading, nothing else loses anything |
| TrafficRuns.StepOf | src/node/internal/service/service.go:1094-1131 | no event mixes the traffic of two users |
| AliveReports.CalcAliveIPsHash | src/node/internal/tracker/tracker.go:202-233 | the preimage of the digest: sorted users, sorted addresses, no separators |
| AliveReports.AliveReporter.FlushAliveIPs | src/node/internal/tracker/tracker.go:164-199 | the alive addresses of every user, or nothing when the digest is the last one |
| AliveReports.AliveReporter.RestoreAliveIPs | src/node/internal/tracker/tracker.go:248-270 | merges the addresses into the buffer only |
| AliveReports.DigestCollides | src/node/internal/tracker/tracker.go:220-230 | two different address sets of one user with the same digest |
| AliveReports.SameDigestIff | src/node/internal/tracker/tracker.go:202-233 | for user IDs below 2^24 and NUL-free addresses a change goes unnoticed if and only if the same users are alive, each with addresses that read the same joined |
| AliveReports.OneLengthDetects | src/node/internal/tracker/tracker.go:202-233 | for addresses of one length no change goes unnoticed |
| AliveReports.RestoreHasNoEffect | src/node/internal/tracker/tracker.go:164-270 | a run reports the same with and without its restores |
| AliveReports.FailedReportIsForgotten | src/node/internal/tracker/tracker.go:164-199 | while the digest stays the same, later flushes return nothing, although the push failed |
| AliveReports.ReportedOnce | src/node/internal/tracker/tracker.go:164-199 | a report is made once and then remembered |
| AliveReports.ChangeIsReported | src/node/internal/tracker/tracker.go:164-199 | a changed digest is reported by the next flush with the addresses of the snapshot |
| Backoff.ApiBackoff.ShouldSkip | src/node/internal/service/service.go:100-108 | skips exactly while the counter is positive and counts it down |
| Backoff.ApiBackoff.OnSuccess | src/node/internal/service/service.go:110-114 | resets the counter |
| Backoff.ApiBackoff.OnFailure | src/node/internal/service/service.go:116-124 | 1, then doubled while below 8 |
| Backoff.NeverAboveFourteen | src/node/internal/service/service.go:95-124 | in any order of calls the counter stays within 0 and 14 |
| Backoff.FourteenIsReached | src/node/internal/service/service.go:95-124 | an order of calls that reaches 14 |
| Backoff.AtMostOneSkip | src/node/internal/service/service.go:615-641 | under the pull or push guard the counter is 0 or 1, and between two attempts that run at most one is skipped |
| Backoff.CounterIsOwed | src/node/internal/service/service.go:615-641 | under the guard the counter is positive if and only if the last finished attempt failed and none was skipped since |
| Backoff.SkipsPayForFailures | src/node/internal/service/service.go:1094-1131 | every failure costs one skip, now or later, and nothing else does |
| Backoff.OneSkipPerFailure | src/node/internal/service/service.go:1094-1131 | from the start skips never outnumber failures, nor fall behind by more than one |
| Backoff.FailuresInARow | src/node/internal/service/service.go:116-124 | without the guard failures double the skips up to eight |
| Backoff.SkipsRunOut | src/node/internal/service/service.go:100-114 | a success, or enough skips, clears whatever had built up |
| Limits.AuthUUIDs | src/node/internal/model/types.go:97-115 | all nonempty UUIDs of a user once, the primary first |
| Limits.OwnedUuids | src/node/internal/model/types.go:97-115 | a user owns its primary UUID and every alias, unless empty, and nothing else |
| Limits.Limiter.UpdateUsers | src/node/internal/limiter/limiter.go:31-62 | stores the users, rebuilds the index, returns exactly the IDs that disappeared |
| Limits.Limiter.GetDeviceLimitByUUID | src/node/internal/limiter/limiter.go:81-86 | with disjoint UUIDs, exactly what a scan of the users finds |
| Limits.IndexIsScan | src/node/internal/limiter/limiter.go:31-62 | the index and the scan agree in both directions |
| Limits.EveryUuidFindsItsLimit | src/node/internal/limiter/limiter.go:31-62 | the primary UUID and every alias of a user finds its device limit, an empty one nothing |
| Limits.SameRates | src/node/internal/limiter/speedtracker.go:125-135 | updating and creating a limiter give the same rate and burst, 125000 times the limit |
| Limits.SpeedTracker.UpdateBuckets | src/node/internal/limiter/speedtracker.go:47-98 | buckets exist only for limited users at their rate, kept objects stay the same, the UUID map has all owners |
| Limits.SpeedTracker.SyncRates | src/node/internal/limiter/speedtracker.go:62-89 | afterwards there are buckets of limited loaded users only, at their rate, the same objects as before |
| Limits.SpeedTracker.UpdateRates | src/node/internal/limiter/speedtracker.go:62-82 | the first loop updates limiters in place and drops those of unlimited users |
| Limits.SpeedTracker.DropMissing | src/node/internal/limiter/speedtracker.go:84-89 | the second loop drops the buckets of users that are gone |
| Limits.SpeedTracker.GetLimiter | src/node/internal/limiter/speedtracker.go:103-148 | no limiter for unknown UUIDs, nor for an unknown or unlimited user without bucket; else the owner's one bucket, made on demand at the rate of its limit; in step with the users, the rate is right either way |
| Limits.SpeedTracker.AddBucket | src/node/internal/limiter/speedtracker.go:137-147 | the second check: the first caller's limiter is kept and everybody gets it |
| Limits.SpeedTracker.RacingCallers | src/node/internal/limiter/speedtracker.go:137-147 | two callers that both found no bucket get the same limiter |
| Limits.SpeedTracker.SharedBucket | src/node/internal/limiter/speedtracker.go:103-148 | all UUIDs of one user share one limiter object |
| Limits.OwnerFound | src/node/internal/limiter/speedtracker.go:59-66 | with disjoint UUIDs the UUID map finds the owner |
| Limits.EveryUuidFindsItsUser | src/node/internal/limiter/speedtracker.go:59-66 | the primary UUID and every alias leads to the user's bucket |
| Limits.SpeedTracker.LoadUsers | src/node/internal/service/service.go:744-745 | loading a list and updating the buckets leaves both indexes in agreement with it |

## Left out

- Redis, database, HTTP and websocket plumbing, JSON and YAML decoding: only the stores, events and responses they deliver are modelled.
- Whole-key expiry of the Redis hashes: a key that vanishes is covered by removals without the lock, never as an event of its own in serial runs.
- `normalizeIP`, `getAliveList`, `applyOnlineCounts` and the push queue of the panel: reports come as lists of already normalised addresses.
- Several users in one device store: users have separate keys, so one user is modelled.
- DeviceStateServices.DeviceStateService.ClearNode: models one user of `clearAllNodeDevices` and `syncNodeDevices`, because users do not share keys; the returned list of user IDs and the notifications are not modelled.
- DeviceLock.LimitHoldsUnderInterleaving: assumes a fixed limit, a monotone clock shared by the workers and no lock expiring inside its section; `ExpiredLockBreaksLimit` shows the last is needed.
- SHA-256: the preimage stands for the digest.
- UserHash.DigestInjective: UUIDs of different lengths, aliases with NUL or shorter than eight characters, and speed limits of 2^56 or more beside aliases are outside it, because fields of unmarked length can run into each other.
- AliveReports.SameDigestIff: user IDs of 2^24 and more are outside it; their first byte can be taken for a character.
- UserDiff.UserDiffExactAliases: aliases that are empty or hold spaces are outside it; `RenderingIsLossy` shows why.
- The sing-box and xray kernels: only the interface contract; a sing-box kernel that stops itself when its last user is removed is outside it.
- NodeRuns.AgreementHoldsIff: the stored hash is tied to the loaded users up to users that had expired when it was stored, because `restoreUserState` keeps the old hash of a list it filters again.
- DeviceOrder.RunsInLockOrder: leaves out removals without the lock, exceptions, and ticks inside a section; the bound alone is proved with all of them (`LimitHoldsUnderInterleaving`).
- NodeService.Service.InitialSetup: a service that gives up at startup ends; its state afterwards is not used.
- DeviceRuns.FirstComeFirstServed: entries count as live at an age of exactly 300 seconds, as the code tests them; the hash key itself is given 300 seconds by Redis, so an entry that is the last write to its key is gone at that very second.
- NodeService.Service.PrepareUserState: loads the limiter; the call of UpdateBuckets beside it is proved in `Limits.SpeedTracker.LoadUsers`, on the limiter and tracker alone.
- Configuration contents: a configuration is known by its identity; `applyRemoteOverrides`, certificates and validation appear as flags.
- Device lists sent to the kernel (`UpdateGlobalDevices`), metrics, logging, the cycle speeds and online counts.
- Overflow of 64-bit traffic counters: sums are bounded by the bytes carried.
- The final flush at shutdown, the machine orchestrator, certificate manager and system monitor.
- The data race between a reader of a flushed address buffer and a later flush: the buffer is returned by reference.
- Orders, payments, tickets, subscriptions, migrations and views of the panel: no property here needs them.
