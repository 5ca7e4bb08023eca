# A verified model of zmesh

zmesh keeps one instance per shared filesystem. An instance holds a lease token with a fencing
epoch, a work queue with leases, and an event log with numbered events; nodes reach it over HTTP
and learn of file changes through directory scans. This project models that core in Dafny and
proves what it is meant to guarantee: mutual exclusion, fencing, exactly-once insertion, complete
delivery of events, and that no change of a tree goes unnoticed.

## How the model is built

Objects that the program updates in place are classes here (`Queue`, `Instance`, `Registry`,
`Matcher`, the walks' states), with the program's loops as loops. Each method is proved equal to a
function on values (`QueueSpec`, `InstanceSpec`), and the results about runs are lemmas about those
functions, for every sequence of operations. What an operation answers and whom it serves is stated
once more in terms of the requests and the state before alone (`TokenAnswers`, `QueueService`,
`RequestLog`, `RuleBlocks`, and the lemmas named `VisibleExactly` and `ViewExactly`). Where requests
interleave (`EpochFence`) or keep an instance that the registry has dropped (`Janitor`) the model is
a transition system with requests in flight. Some loops and loop bodies stand in methods of their
own (`Queue.Scan`, `Instance.Select`, `FillDigits`, `Excludes.SkippedBy`, `Uuids.PutByte`).

Time is an integer number of nanoseconds and `UnixMilli` a floor division; Go's zero time is a
constant far in the past. A request reads its clock (`now`) before it takes the lock, and the lock
holder may read another (`at`), so that the two are separate parameters. Lease exclusivity in the
queue holds for arbitrary clock readings; the statements that need a clock that does not run
backwards say so (`Tenure`, `Janitor`) and show why.

Strings are sequences of characters. The hash is a parameter: each result names the texts on which
it must not collide and, where digests are stored, that digests are hexadecimal. UUID bytes are
numbers below 256 and the masks that set version and variant are written as remainder and sum.

| files | subject |
|---|---|
| Times, Lists, Strings, Sorting, TextDecoding, SignatureRuns | shared definitions: clocks, lists, Go's string functions, sorting by a key, decoding lines and texts, runs that compare with a stored signature |
| QueueSpec, Queues, QueueRuns, QueueService, QueueRefinement | the work queue, its runs, who is served when, and the queue that never prunes |
| Tokens, InstanceSpec, Instances, InstanceAudit, TokenAnswers, RequestLog, Tenure, TenureHistory, EventDelivery | token, instance, event log |
| EpochFence, PulledItems, Janitor, Registries, Reconcile | the router's compositions of these |
| Regexps, Globs, Matchers | exclusion patterns compiled to regular expressions |
| Trees, Excludes, IndexText, Preflight, IndexDiff, PreflightRuns, PreflightFailures | the preflight scan: walk, index, difference, runs with failing saves |
| Detection, DetectionRuns | the live detector, which hashes contents |
| MetadataScan, MetadataRuns, ExclusionRules | the third scan, which hashes sizes, times and modes, and how its exclusions compare with those of the preflight scan |
| Decimal, Uuids | decimal printing, UUID version 7 |
| RuleFiles, RuleBlocks, PowerShellRules, ShellRules, RuleStreams | editing and reading virtual path rules |

## Findings

Statements that one might expect and that the code does not meet, each with its exact condition or
a concrete case:

- Items pulled from peers carry epoch 0. Once no waiting request carries epoch 0, such an item is
  ever handed out exactly if the token was never claimed, whatever else is ready then
  (`PulledItems.PulledItemServedExactly`); after the first claim it stays queued for ever
  (`PulledItems.PulledItemBlocksId`). The ids a queue has seen are never forgotten, so a change
  reported under the fixed id `dirty:<node>` is queued once in the life of an instance.
- A poll that read its epoch before a claim still hands out items of the old epoch after it
  (`EpochFence.LateReaderServesOldEpoch`). Items of an epoch that is over are served exactly if a
  request that is waiting can serve one now (`EpochFence.OldEpochServedExactly`).
- A claim that read its clock early and got the lock late can begin before the old lease has run
  out. Tenures stay apart exactly if the clocks read do not run backwards in the order of the lock
  (`Tenure.ApartExactly`).
- A request that outlives the registry's ttl can claim a token on a dropped instance while the new
  instance of the same id has an active one, and so can a lease that is longer than the ttl by two.
  The lock is never split exactly within these bounds (`Janitor.NeverSplitExactly`).
- `LeaderState.Holder` and the token disagree at the instant of expiry and only then
  (`Tokens.LeaderIsHolder`).
- The saved preflight index reads back exactly when every visible path is free of bars, newlines
  and leading blanks (`PreflightRuns.SavedIndexReadsBack`). Otherwise every scan of an unchanged
  tree counts a difference and reports no change (`PreflightRuns.UnchangedTreeCounts`).
- When saving the index fails after the signature was saved, the answer that carries the error
  shows the change but not the pending hint, and the next scan of the tree reports nothing
  (`PreflightFailures.FailedIndexSaveHidesChange`). After a completed scan, later scans still
  report exactly the differences from it if and only if the call in between failed to build its
  index, or failed to save its signature and left a text that reads as the old one, or saw the same
  files (`PreflightFailures.ComparesAfterCall`). Over whole runs some answer reports each change, as
  long as no failed save leaves a text that reads as neither signature, and the hint is lost only
  where a failed save replaces the signature (`PreflightFailures.NoChangeLost`,
  `PreflightFailures.HintLostOnlyByFailedSave`).
- The comment at internal/diff/generic/index.go:89 says that the root itself is left out, but its
  relative path is `.` and not the empty string. The root is visited, and a pattern that matches
  `.`, such as `*`, hides the whole tree so that no change is ever reported
  (`DetectionRuns.RootPatternBlinds`, `DetectionRuns.StarMatchesRoot`).
- A newline in a file name can hide a change from the live detector
  (`DetectionRuns.NewlineNameHidesFile`). Bars in names cannot. The entry of a path can be read in
  another way exactly if the path begins with what reads as a whole line, and a newline
  (`DetectionRuns.ReadOneWayExactly`), which takes three bars before the newline
  (`DetectionRuns.EarlyNewlinesNoLine`); otherwise no change is hidden
  (`DetectionRuns.SameSignatureSameView`).
- A compiled pattern agrees with the glob it comes from on every path without a newline, and only
  on those (`Globs.CompilationPreservesMeaning`).
- The two scans read the same exclusion differently. `foo` hides `foobar` from the metadata scan
  only, and differs on such paths exactly (`ExclusionRules.PlainAgreesExactly`). `./foo` and `/foo`
  hide `foo` from the preflight scan only (`ExclusionRules.LeadForms`), and `foo/` hides `foo` itself
  from the preflight scan only (`ExclusionRules.SlashForm`). A path followed by `/**` means the same
  to both. For all forms, the rules agree on every path that a tree can have under an exact
  condition on the exclusion (`ExclusionRules.AgreeExactly`).
- The minimal 64-bit integer is printed as a lone minus sign (`Decimal.PrintedParses`); printing is
  still injective.
- The PowerShell parser accepts indented headers that the editor does not see, the shell parser
  headers that end in a carriage return. Removal is correct exactly when no rule stands under a
  header of another name as the editor sees them (`RuleFiles.RemovalAgreesExactly`).
- The shell reads all rule files as one input. Removing a name from one of them takes away exactly
  its blocks unless the file ends in such a block and the next file sets a target before its first
  header, which then goes to the block before (`RuleStreams.RemovalInStreamExactly`).
- A virtual path with a double quote, given to the PowerShell script that adds rules, changes the
  target of the last rule in the file (`PowerShellRules.QuotedNameRetargets`).
- The shell's normalisation loses a rule when two names agree up to their first bar
  (`ShellRules.NormalizedIsLastExactly`, `ShellRules.BarNamesClash`).

## Model

| member | source | states |
|---|---|---|
| Queues.Queue.constructor | internal/queue/queue.go:49-62 | a new queue is empty and valid; a lease that is not positive becomes the default |
| Queues.Queue.Enqueue | internal/queue/queue.go:64-87 | state and reply are those of the specification: blank id refused, known id not inserted, else appended as supplied and pruned when too long |
| Queues.Queue.Poll | internal/queue/queue.go:89-130 | hands out the first ready items of the order up to the limit, marks exactly those with worker and lease end, changes nothing else |
| Queues.Queue.Scan | internal/queue/queue.go:101-128 | the scanning loop of Poll grants exactly the first ready items in order |
| Queues.Queue.Ack | internal/queue/queue.go:132-160 | bad input, unknown id, conflict of epoch or of a live lease of another worker, or success, in the order of the code, and the new item |
| Queues.Queue.PruneLocked | internal/queue/queue.go:162-176 | drops exactly the acknowledged items from map and order and keeps the order of the others |
| QueueSpec.ReadyIdsMembers | internal/queue/queue.go:104-119 | the ids offered are exactly those of un-acknowledged items of the epoch without a live lease |
| QueueRuns.StepValid | internal/queue/queue.go:64-176 | order is free of duplicates, its set is the keys of the map, which are among the seen ids, and each operation keeps this; ids missing from the map were acknowledged |
| QueueRuns.RunValid | internal/queue/queue.go:64-176 | the same over every run, and seen ids are never forgotten |
| QueueRuns.StepKeepsIds | internal/queue/queue.go:64-176 | an operation changes seen ids only by inserting the one it enqueues |
| QueueRuns.InsertedOnce | internal/queue/queue.go:64-86 | after an id was inserted no later enqueue of it inserts, whatever runs in between |
| QueueRuns.GrantIsReply | internal/queue/queue.go:89-130 | a poll grants an item exactly when its reply contains the item |
| QueueRuns.LeaseIntervalsDisjoint | internal/queue/queue.go:89-130 | for arbitrary clock readings, a later grant of the same item starts at or after the end of the earlier lease |
| QueueRuns.AckWhileLeased | internal/queue/queue.go:89-160 | while the latest lease is live and the item un-acknowledged, an acknowledgement that succeeds comes from the worker that holds it |
| QueueRuns.StepKeepsItem | internal/queue/queue.go:64-176 | an operation that neither grants nor acknowledges an un-acknowledged item leaves it as it is |
| QueueService.GrantedExactly | internal/queue/queue.go:89-130 | a poll hands out an item if and only if it is not acknowledged, of the epoch asked for, without a live lease, and the limit is not spent on items before it |
| QueueService.RedeliveredExactly | internal/queue/queue.go:118-127 | an item handed out and not touched since is handed out again, if the limit leaves room, exactly when the epochs agree and the lease is over |
| QueueService.DeliveredExactly | internal/queue/queue.go:64-127 | a new item that nobody had is handed out by such a poll exactly when the epochs agree, whatever ran in between |
| QueueService.EnqueueAnswered | internal/queue/queue.go:64-87 | when an enqueue is refused, inserts, or changes nothing |
| QueueService.AckAnswered | internal/queue/queue.go:132-153 | which refusal an acknowledgement gets, and that nothing changes then |
| QueueService.AckRecords | internal/queue/queue.go:155-159 | a success records worker, message and time, and changes nothing else |
| QueueService.AckedNeverGranted | internal/queue/queue.go:111-113 | in no run is an item handed out after a success |
| QueueService.NewQueueExactly | internal/queue/queue.go:49-62 | a new queue is empty and has the lease asked for, or one minute |
| QueueService.InsertionPrunesExactly | internal/queue/queue.go:82-84 | an insertion drops nothing within the capacity and exactly the acknowledged items beyond it |
| QueueRefinement.StepRefines | internal/queue/queue.go:64-176 | each operation on the pruning queue is matched by the queue that never prunes, with the order a subsequence of the enqueue history |
| QueueRefinement.PruningUnobservable | internal/queue/queue.go:64-176 | in every run and for every capacity, enqueue and poll answer like the queue that never prunes, and ack differs only by not-found on ids acknowledged and pruned before |
| Tokens.LeaderIsHolder | internal/leadership/leadership.go:38-67 | the leader's holder is the token's holder at every instant but that of expiry, where the token is expired and the leader still named |
| Tokens.LeaderExactly | internal/leadership/leadership.go:38-67 | a node is the leader exactly while its lease runs, the instant of expiry included; the blank name is it exactly when no node is |
| Instances.Instance.constructor | internal/instance/instance.go:73-87 | a new instance has a vacant token of epoch 0, an empty log and queue |
| Instances.Instance.Touch | internal/instance/instance.go:89-93 | only the last access changes |
| Instances.Instance.RecordHeartbeat | internal/instance/instance.go:101-123 | records the sighting and appends its event |
| Instances.Instance.TokenStatus | internal/instance/instance.go:127-136 | settles an expired token, with its event, and reports the token |
| Instances.Instance.TokenClaim | internal/instance/instance.go:138-161 | conflict for another holder, renewal of the holder's own lease, or a new epoch with its event |
| Instances.Instance.TokenRenew | internal/instance/instance.go:163-179 | only the holder of an active token extends it |
| Instances.Instance.TokenRelease | internal/instance/instance.go:181-199 | only the holder vacates the token; the epoch stays |
| Instances.Instance.ExpireIfNeeded | internal/instance/instance.go:201-208 | vacates a held token exactly at or after its expiry and records it |
| Instances.Instance.RecordTokenEvent | internal/instance/instance.go:210-231 | appends one event that shows the current token |
| Instances.Instance.QueueEnqueue | internal/instance/instance.go:233-254 | the queue's answer, and an event exactly for an insertion |
| Instances.Instance.QueuePoll | internal/instance/instance.go:256-273 | the queue's answer, and an event exactly for a non-empty one |
| Instances.Instance.QueueAck | internal/instance/instance.go:275-295 | the queue's answer, and an event exactly for a success |
| Instances.Instance.Poll | internal/instance/instance.go:297-313 | reports the latest number and the first events after the cursor, up to the limit, as a slice of the full history |
| Instances.Instance.Select | internal/instance/instance.go:303-311 | the loop over the retained events yields the slice of the history after the cursor |
| Instances.Instance.AppendEvent | internal/instance/instance.go:315-323 | the retained events stay the last maxEvents of the history |
| InstanceAudit.TokenEventAccounts | internal/instance/instance.go:138-231 | one more token event keeps the history within the grammar of tenures |
| InstanceAudit.StepAccounts | internal/instance/instance.go:89-320 | every operation keeps the accounts of log and state balanced |
| InstanceAudit.HistoryAccountsForState | internal/instance/instance.go:138-254 | in every run the token events form tenures (claim, renewals, release or expiry), the epoch is the number of claims, the holder is named exactly when claims exceed endings by one, the last event shows the token, and numbers are consecutive |
| InstanceAudit.EnqueueEventsCountSeen | internal/instance/instance.go:233-254 | the number of enqueue events is the number of ids seen |
| InstanceAudit.EpochHasOneHolder | internal/instance/instance.go:138-231 | two events of one epoch in the history never name two holders |
| InstanceAudit.HistoryGrows | internal/instance/instance.go:315-320 | the history is only ever extended |
| TokenAnswers.ClaimAnswered | internal/instance/instance.go:138-161 | a claim is refused exactly while another node's lease runs; otherwise the node holds the token until its clock plus the lease, in its own epoch or the next |
| TokenAnswers.RenewAnswered | internal/instance/instance.go:163-179 | a renewal finds nothing held, is refused, or moves the expiry to its clock plus the lease, by whose lease runs |
| TokenAnswers.ReleaseAnswered | internal/instance/instance.go:181-199 | a release is refused exactly while another node's lease runs, and otherwise leaves nobody holding the token |
| TokenAnswers.StatusAnswered | internal/instance/instance.go:127-136 | a status request shows the token while its lease runs and a vacant one of that epoch otherwise |
| TokenAnswers.AnsweredHoldsExactly | internal/instance/instance.go:127-208 | a node answered yes to a claim or a renewal holds its epoch through a run if and only if every token request reads a clock before the end of the lease it asked for last and it does not release |
| TokenAnswers.AnswersExclude | internal/instance/instance.go:138-208 | two nodes are never answered yes without that in between |
| RequestLog.EnqueueLogged | internal/instance/instance.go:233-254 | an enqueue is recorded exactly when it inserts, with id and node |
| RequestLog.PollLogged | internal/instance/instance.go:256-273 | a poll is recorded exactly when it hands something out, with its worker |
| RequestLog.AckLogged | internal/instance/instance.go:275-295 | an acknowledgement is recorded exactly when it succeeds, with id and worker |
| RequestLog.GrantLogged | internal/instance/instance.go:138-231 | the event of a granted claim or renewal names node, epoch and the end of the lease asked for |
| RequestLog.ReleaseLogged | internal/instance/instance.go:181-231 | the event of a release by the holder names nobody and shows no expiry |
| RequestLog.ExpiryLogged | internal/instance/instance.go:201-231 | a token request that meets a lease which is over records its end first |
| RequestLog.RefusalNotLogged | internal/instance/instance.go:138-199 | what is refused under another node's lease is not recorded |
| RequestLog.LastSeenExactly | internal/instance/instance.go:101-123 | in every run the table shows the time of each node's last heartbeat |
| RequestLog.HeartbeatLogged | internal/instance/instance.go:101-123 | a heartbeat is recorded as it was sent |
| Tenure.StepEvolves | internal/instance/instance.go:127-208 | epochs rise by at most one per step, and within an epoch the holder stays or is vacated |
| Tenure.OneHolderPerEpoch | internal/instance/instance.go:127-208 | over every run the epoch never decreases and an epoch is never given to a second node nor held again once vacated |
| Tenure.TenureEndsExactly | internal/instance/instance.go:181-208 | a tenure ends if and only if a token request reads a clock at or after the expiry or the holder releases it before |
| Tenure.NextTenureAfterExpiry | internal/instance/instance.go:138-208 | after a tenure that was not released, whoever holds the token at any later point has a later epoch issued at or after the old expiry, if no later token request read an earlier clock |
| Tenure.OrderedClocksKeepApart | internal/instance/instance.go:138-208 | with clocks that do not run backwards in lock order tenures stay apart in every run |
| Tenure.StaleClockOverlaps | internal/router/router.go:333-334 | for every reading that runs backwards there is a run in which the next epoch begins before the dropped lease has run out |
| Tenure.ApartExactly | internal/instance/instance.go:138-208 | for given clock readings, tenures stay apart in every run with these readings if and only if they do not run backwards |
| TenureHistory.HistoryTenuresApart | internal/instance/instance.go:138-231 | in the event history of every run of a new instance with such clocks, each claim is dated at or after the last expiry of every earlier tenure, unless a release closed that tenure |
| EventDelivery.FirstNumberRevealsLoss | internal/instance/instance.go:297-320 | the first number received tells exactly how many events were lost, and what is received is the next stretch of the history |
| EventDelivery.PollExtends | internal/instance/instance.go:297-313 | a poll within the capacity extends what the client has by the next events |
| EventDelivery.EveryEventOnce | internal/instance/instance.go:297-320 | a client that never lags by more than the capacity has received the history up to its cursor, once each and in order |
| EventDelivery.ClientReceivesHistory | internal/instance/instance.go:101-320 | however the polls of a client and other requests to a new instance interleave, a client that never lags by more than the capacity has received the instance's history up to its cursor |
| EpochFence.PendingEpochWasCurrent | internal/router/router.go:429-431 | the epoch a waiting request carries was the token's epoch when it read it |
| EpochFence.OnlyCurrentEpochsServed | internal/router/router.go:429-453 | for every interleaving, items handed out or acknowledged have an epoch that was current when that request read it |
| EpochFence.FenceStays | internal/router/router.go:429-453 | an epoch that is over and has no reader left stays so |
| EpochFence.HarmlessFrozen | internal/queue/queue.go:118-147 | an un-acknowledged item of an epoch that is over, which no waiting request can serve now, is never granted, acknowledged or pruned by any later step |
| EpochFence.OldEpochServedExactly | internal/router/router.go:429-453 | of the items of an epoch that is over, some is granted or acknowledged in some continuation if and only if a waiting request can serve one of them now |
| EpochFence.FencedItemFrozen | internal/queue/queue.go:118-147 | in particular the items of such an epoch are frozen once its readers have finished |
| EpochFence.LateReaderServesOldEpoch | internal/router/router.go:429-431 | from every state, a poll that found an item ready and is overtaken by the claim of the next epoch still hands out an item of the old one |
| PulledItems.HandedOutExactly | internal/router/router.go:429-453 | an un-acknowledged item whose epoch no waiting request carries is handed out in some continuation if and only if its epoch is not over, whatever else is ready |
| PulledItems.PulledItemServedExactly | internal/reconcile/reconcile.go:62-71 | when no waiting request carries epoch 0, a change that is new to the queue and pulled from a peer is ever handed out if and only if the token was never claimed |
| PulledItems.PulledItemBlocksId | internal/reconcile/reconcile.go:62-71 | after the first claim a pulled item is queued, stays as it is for ever and blocks its id |
| Janitor.RunCalm | internal/router/router.go:55-97 | in every orderly run a token outlives the last access to its instance by at most the longest lease |
| Janitor.ActSound | internal/router/router.go:55-97 | with requests served within the ttl, dropped instances have no active token and requests in time are on registered instances |
| Janitor.RunSound | internal/router/router.go:55-97 | the invariant over every orderly run |
| Janitor.NeverSplitExactly | internal/router/router.go:55-97 | for a bound on service delay and token lease: in every run at most one of the instances ever made for an id has an active token, if and only if the delay is within the ttl and the lease at most one longer (or nothing is dropped or claimed) |
| Janitor.DropsOnlyExpiredExactly | internal/router/router.go:85-97 | sweeps of every run drop only instances whose token has expired, however late requests are served, if and only if leases are at most one longer than the ttl (or nothing is dropped or served) |
| Janitor.SweepDropsNoWorkerLease | internal/router/router.go:85-97 | when an instance is dropped the worker leases taken there are over |
| Janitor.SlowRequestSplitsLock | internal/router/router.go:55-97 | for every ttl and every longer delay, two active tokens for one id |
| Janitor.LongLeaseSplitsLock | internal/router/router.go:55-97 | for every ttl and every lease longer by two or more, two active tokens for one id |
| Janitor.DeployedBounds | internal/agent/agent.go:110 | with ten minutes and the token lease of half a minute, sweeps never drop an active token, and the lock is never split exactly if requests are served within ten minutes |
| Janitor.DeployedWorkerLeases | internal/instance/instance.go:79 | with ten minutes and the worker lease of a minute no sweep drops a live worker lease |
| Registries.Registry.constructor | internal/router/router.go:42-53 | a new registry is empty |
| Registries.Registry.GetOrCreate | internal/router/router.go:55-70 | an id that is no UUID is refused, a known instance is only touched, an unknown one is created; nothing else changes |
| Registries.Registry.Sweep | internal/router/router.go:85-97 | drops exactly the instances idle for longer than the ttl, and none for a ttl that is not positive |
| Reconcile.PullPending | internal/reconcile/reconcile.go:62-72 | one item per change in order, with what the change tells, unleased and of epoch 0 |
| Reconcile.EnqueueAll | internal/router/router.go:664-669 | the count rises by the answered insertions of this peer's ids |
| Reconcile.Run | internal/router/router.go:649-670 | the counts are the items pulled and the new ids whose insertion was answered; the queue has seen the ids that arrived and holds an item for each new one |
| Reconcile.ArrivedExactly | internal/router/router.go:649-670 | the ids that arrive are those of the delivered requests for changes that peers answered with |
| Reconcile.CountsNewIds | internal/router/router.go:649-670 | the count is at most the growth of the seen ids, and equal to it when every request is answered |
| Reconcile.RepeatInsertsNothing | internal/router/router.go:649-670 | a second reconcile over the same changes counts nothing, whatever the queue did in between, if every request of the first was delivered |
| Decimal.ParseDec | internal/preflight/scan.go:114-135 | the decimal form denotes its integer |
| Decimal.PrintedParses | internal/diffbase/generic_index.go:153-173 | every printed 64-bit value but the minimum parses back; the minimum prints a lone minus sign |
| Decimal.PrintedInjective | internal/diff/generic/index.go:179-202 | different 64-bit values are printed differently |
| Decimal.FillDigits | internal/preflight/scan.go:122-129 | the digit loop writes exactly the digits and needs at most 19 of the 32 places |
| Decimal.Itoa64 | internal/diffbase/generic_index.go:153-173 | prints the specified form, negating with wrap-around, without running off the buffer |
| Decimal.Itoa64InBuffer | internal/diff/generic/index.go:179-202 | the copy that writes zero into the buffer prints the same form |
| Uuids.HexEncode | internal/id/uuid7.go:67-80 | writes the hexadecimal digits in place and leaves the rest of the buffer alone |
| Uuids.DigitsLowerCase | internal/id/uuid7.go:67-80 | the digits are those of hexadecimal in lower case |
| Uuids.FormatUuid | internal/id/uuid7.go:67-80 | fills the buffer with the groups of 8, 4, 4, 4 and 12 digits |
| Uuids.NewUuid7 | internal/id/uuid7.go:18-43 | the array after masking is the layout of section 5.7 of RFC 9562 |
| Uuids.TimeRecovered | internal/id/uuid7.go:20-32 | the first six bytes give back the milliseconds |
| Uuids.FixedBits | internal/id/uuid7.go:33-40 | version 7 and the variant bits are fixed, whatever the random bytes |
| Uuids.FormatInjective | internal/id/uuid7.go:67-80 | different bytes have different texts |
| Uuids.TextTellsTimeAndRandom | internal/id/uuid7.go:18-80 | two texts are equal exactly when the milliseconds and all random bits but the six fixed ones are |
| Uuids.TextOrderFollowsTime | internal/id/uuid7.go:18-80 | a later millisecond gives a greater string |
| Uuids.ValidateUuid | internal/id/uuid7.go:45-65 | accepts exactly the texts of 8-4-4-4-12 hexadecimal digits, after trimming |
| Uuids.FormatIsValid | internal/id/uuid7.go:45-80 | every formatted UUID is accepted |
| Globs.GlobToRegexp | internal/diffbase/match.go:58-90 | the loop emits the anchored text of the glob's tokens |
| Globs.Compile | internal/diffbase/match.go:58-90 | the emitted text is always a well-formed regular expression |
| Globs.CompiledParses | internal/diffbase/match.go:58-90 | the emitted text parses back to the glob's tokens |
| Globs.CompiledMatches | internal/diffbase/match.go:58-90 | a search with the compiled pattern succeeds exactly on the paths that the tokens match |
| Globs.CompilationPreservesMeaning | internal/diffbase/match.go:58-90 | compiled pattern and glob agree for all patterns on a path if and only if it has no newline |
| Globs.PlainGlobMatchesItself | internal/diffbase/match.go:58-90 | a pattern without wildcards matches only itself |
| Matchers.Matcher.constructor | internal/diffbase/match.go:14-26 | one compiled pattern for each pattern that is not blank, in order |
| Matchers.Matcher.MatchRel | internal/diffbase/match.go:28-39 | true exactly when some compiled pattern finds a match |
| Matchers.CompiledSearches | internal/diffbase/match.go:14-39 | that is, exactly when some pattern matches the path with slashes |
| Matchers.ExcludedByGlob | internal/diffbase/match.go:14-39 | on a path without a newline that is what one of the globs matches |
| Trees.WalkReachesVisible | internal/diff/generic/index.go:80-153 | a walk that skips excluded directories reaches exactly the paths without an excluded ancestor or self, in order |
| Trees.PrunedIsFiltered | internal/preflight/generic_index.go:87-140 | when exclusion is closed under descent the pruned walk is the filtered listing |
| Trees.WalkDistinct | internal/preflight/generic_index.go:87-140 | no path is visited twice |
| Trees.FlattenExactly | internal/preflight/generic_index.go:87-140 | the listing of a tree is exactly what sequences of names lead to |
| Excludes.ShouldSkip | internal/preflight/generic_index.go:142-169 | the loop decides the exclusion rule |
| Excludes.SkipsClosed | internal/preflight/generic_index.go:142-169 | whatever lies below a skipped path is skipped |
| Excludes.PreflightWalkIsFilter | internal/preflight/generic_index.go:87-169 | the preflight walk lists exactly the paths that are not skipped |
| Excludes.SkipsConcat | internal/preflight/generic_index.go:145 | lists of exclusions put together skip what either skips, in both scans |
| Excludes.PrefixSkipsClosed | internal/diffbase/generic_index.go:87-103 | the metadata scan's rule is closed under descent |
| Excludes.SignatureWalkIsFilter | internal/diffbase/generic_index.go:87-139 | the metadata walk visits exactly the paths that are not skipped |
| IndexText.LoadIndex | internal/preflight/generic_index.go:249-274 | the loading loop fills the map that the lines denote, the last line for a path winning |
| IndexText.SaveIndex | internal/preflight/generic_index.go:276-284 | writes the lines, each with a newline |
| IndexText.LineReadsBack | internal/preflight/generic_index.go:254-272 | the line of a plain path reads back as its entry |
| IndexText.ReadExactly | internal/preflight/generic_index.go:254-271 | a line is read exactly if it has two bars when trimmed, and its parts are what stands around them |
| IndexText.ScanIntMeans | internal/preflight/generic_index.go:268-271 | a number is read after blanks and a sign up to the first character that is no digit, and is 0 if it does not fit |
| Strings.TrimSpaceExactly | internal/preflight/generic_index.go:257 | trimming takes away exactly the white space at both ends |
| IndexText.CollectedExactly | internal/preflight/generic_index.go:254-272 | the map has for a path what the last line says that reads as an entry for it |
| IndexText.ScanEnds | internal/preflight/generic_index.go:254-256 | reading ends at a line that is too long, and takes a last line without a newline |
| IndexText.RoundTripExactly | internal/preflight/generic_index.go:249-284 | a saved index loads as itself if and only if all its paths are plain |
| Preflight.Indexer.Visit | internal/preflight/generic_index.go:91-133 | the callback skips, enters or records as the rule says |
| Preflight.Indexer.WalkKids | internal/preflight/generic_index.go:91-133 | the walk adds exactly the entries that the rule reaches |
| Preflight.BuildIndex | internal/preflight/generic_index.go:87-140 | map and sorted lines are those of the files that are not skipped |
| Preflight.SortedLinesList | internal/preflight/generic_index.go:87-140 | the sorted lines list exactly the entries of the map |
| Preflight.SameFilesSameLines | internal/preflight/generic_index.go:87-178 | equal maps have equal sorted lines, in whatever order they were found |
| IndexDiff.DiffIndex | internal/preflight/generic_index.go:180-223 | counts of added, changed and removed paths, and the first marks in sorted order up to the limit |
| IndexDiff.SampleDetermined | internal/preflight/generic_index.go:180-223 | the two indexes determine the sample |
| IndexDiff.SampleMeans | internal/preflight/generic_index.go:192-219 | plus stands before new, tilde before changed, minus before removed paths, and a sample shorter than the limit has them all |
| IndexDiff.SampleOrdered | internal/preflight/generic_index.go:180-223 | removals come last, and paths are in order before and after that |
| Sorting.LexExactly | internal/preflight/generic_index.go:138 | strings are sorted by their first difference |
| IndexDiff.DiffCounts | internal/preflight/generic_index.go:180-223 | nothing is counted exactly when the indexes are equal, and sizes balance |
| PreflightRuns.Run | internal/preflight/generic_index.go:25-85 | the result of one scan, the answer and the saved state when it completes, and for each of the three error returns what was computed before and what is left saved |
| PreflightRuns.VisibleExactly | internal/preflight/generic_index.go:87-140 | the index holds exactly the files of the tree that no exclusion hides, with size and time |
| PreflightRuns.FirstScanQuiet | internal/preflight/generic_index.go:47-60 | a scan that finds no signature reports no change, and counts every file as new if there is no index |
| PreflightRuns.SavedIndexReadsBack | internal/preflight/generic_index.go:249-284 | a scan's saved index loads as its files exactly when visible paths are plain |
| PreflightRuns.SameTextSameFiles | internal/preflight/generic_index.go:171-178 | equal texts mean equal sets of files and conversely |
| PreflightRuns.SignatureAgreesWithDiff | internal/preflight/generic_index.go:25-85 | a scan after a completed one, whether it can save or not, reports a change exactly when its difference is not empty; counts balance and the sample has the right length |
| PreflightRuns.UnchangedTreeCounts | internal/preflight/generic_index.go:25-85 | on an unchanged tree nothing is reported, and something is counted exactly when a path is not plain |
| PreflightFailures.ComparesExactly | internal/preflight/generic_index.go:47-60 | whatever later scans find, they report exactly the differences from an earlier one if and only if its signature is the one saved |
| PreflightFailures.ComparesAfterCall | internal/preflight/generic_index.go:40-82 | after a completed scan and a call of each possible fate, exactly when later scans still compare with the first |
| PreflightFailures.FailedIndexSaveHidesChange | internal/preflight/generic_index.go:58-82 | a failed index save returns the change without the hint; the next scan of the tree reports none, sets no hint and counts the difference to the index that was left |
| PreflightFailures.NoChangeLost | internal/preflight/generic_index.go:40-82 | in every run whose failed signature saves leave the old or the new signature, some answer reports a change if the first and the last call saw different files |
| PreflightFailures.HintLostOnlyByFailedSave | internal/preflight/generic_index.go:62-82 | in every run in which the last call completes and saw other files than the first, some call sets the pending hint or is a failed save that replaces the signature |
| Detection.Scan.Visit | internal/diff/generic/index.go:80-153 | the callback marks directories, links, special and regular files and enters directories that are not excluded |
| Detection.Scan.WalkKids | internal/diff/generic/index.go:80-153 | the walk adds exactly the marks of what it reaches |
| Detection.WriteMarks | internal/diff/generic/index.go:161-168 | one line per mark, in order |
| Detection.ComputeTreeSig | internal/diff/generic/index.go:68-169 | the hash of the lines of all that is seen, sorted by path |
| Detection.Detect | internal/diff/generic/index.go:25-66 | a failed call changes nothing; a successful one compares with the stored signature and replaces it |
| DetectionRuns.LineDeterminesMark | internal/diff/generic/index.go:163-166 | a line determines its entry even when the path contains bars |
| DetectionRuns.ScanSeesVisible | internal/diff/generic/index.go:80-153 | what is seen is the root and every path without an excluded ancestor or self, unless a pattern matches `.` |
| DetectionRuns.ViewExactly | internal/diff/generic/index.go:80-153 | the view compared has the kind, mode and content of the root and of each path without an excluded ancestor or self |
| DetectionRuns.FirstCallQuiet | internal/diff/generic/index.go:44-52 | a call that finds no signature reports no change |
| DetectionRuns.MarkDeterminesItem | internal/diff/generic/index.go:107-152 | an entry determines kind, mode and content of its path |
| DetectionRuns.SameSignatureSameView | internal/diff/generic/index.go:68-169 | signatures are equal exactly when the visible trees are, if no visible path begins with what reads as a whole line and a newline |
| DetectionRuns.ReadOneWayExactly | internal/diff/generic/index.go:161-168 | the text of one entry can be read as nothing else if and only if its path does not begin with what reads as a whole line and a newline |
| DetectionRuns.EarlyNewlinesNoLine | internal/diff/generic/index.go:161-168 | no path does whose newlines, if any, come before its third bar |
| DetectionRuns.RepliesAsTaken | internal/diff/generic/index.go:25-66 | what the detector replies and leaves in terms of the stored signature and the one it takes, as the statements about runs use it |
| DetectionRuns.LaterCallCompares | internal/diff/generic/index.go:25-66 | a successful call reports a change exactly when the visible tree differs from that of the last successful call, across failures |
| DetectionRuns.NoChangeLost | internal/diff/generic/index.go:25-66 | if first and last call of a run see different trees some call reported a change |
| DetectionRuns.RootPatternBlinds | internal/diff/generic/index.go:85-100 | a pattern that matches `.` hides everything and no change is reported |
| DetectionRuns.StarMatchesRoot | internal/diff/generic/index.go:89-100 | a single star is such a pattern |
| DetectionRuns.NewlineNameHidesFile | internal/diff/generic/index.go:163-166 | two files and one file with a newline in its name have the same signature |
| TextDecoding.TextDeterminesLines | internal/diff/generic/index.go:161-168 | a text determines its lines, among lists in which no line begins with another and a newline |
| MetadataScan.NormExcludes | internal/diffbase/generic_index.go:78-85 | trimmed patterns that are not blank, in order |
| MetadataScan.SkipsByPrefix | internal/diffbase/generic_index.go:87-103 | the loop decides the metadata scan's rule |
| MetadataScan.Scan.Visit | internal/diffbase/generic_index.go:105-139 | the callback records a line for each regular file that is not skipped |
| MetadataScan.Scan.WalkKids | internal/diffbase/generic_index.go:105-139 | the walk adds exactly the lines of what it reaches |
| MetadataScan.WalkSignature | internal/diffbase/generic_index.go:75-151 | the hash of the sorted lines of all files that are not skipped |
| MetadataScan.Detect | internal/diffbase/generic_index.go:26-71 | refuses incomplete requests, keeps the state on failure, else reports and stores |
| MetadataScan.LineDeterminesFile | internal/diffbase/generic_index.go:131-134 | a line determines path, size, time and mode for all 64-bit values |
| MetadataScan.VisibleExactly | internal/diffbase/generic_index.go:105-139 | the signature covers exactly the files of the tree that are no links and that no exclusion hides, empty ones included |
| MetadataScan.SameTextSameFiles | internal/diffbase/generic_index.go:145-150 | equal texts list the same files and conversely, if no path begins with what reads as a whole line and a newline |
| MetadataScan.PendingExactly | internal/diffbase/generic_index.go:44-71 | the pending mark is asked for exactly when such a file was added, removed or altered since the call before |
| MetadataScan.FirstCallChanges | internal/diffbase/generic_index.go:51-55 | a first call reports a change and asks for no mark |
| MetadataRuns.LaterCallCompares | internal/diffbase/generic_index.go:26-71 | a completed call asks for a pending mark exactly when such a file was added, removed or altered since the last completed call, across refused and failed calls |
| MetadataRuns.NoChangeLost | internal/diffbase/generic_index.go:26-71 | if first and last call of a run complete and see different files some call asked for a pending mark |
| ExclusionRules.RealExactly | internal/preflight/generic_index.go:102-106 | the paths considered are exactly those that some tree has |
| ExclusionRules.PlainAgreesExactly | internal/diffbase/generic_index.go:94-101 | an exclusion without decoration is read differently by the two scans exactly on the paths that continue its text with something other than a slash |
| ExclusionRules.AgreeExactly | internal/diffbase/generic_index.go:87-103 | the two scans agree about one exclusion on all paths if and only if it is blank, or ends in a wildcard after the same prefix, or names no path and begins none |
| ExclusionRules.LeadForms | internal/preflight/generic_index.go:142-169 | a leading slash or `./` hides the path from the preflight scan and nothing from the metadata scan |
| ExclusionRules.SlashForm | internal/preflight/generic_index.go:142-169 | with a final slash the metadata scan hides all that the preflight scan hides but the path itself |
| ExclusionRules.WildcardForm | internal/preflight/generic_index.go:152-159 | with a final wildcard both hide the path and what lies below it |
| RuleFiles.HeaderExactly | tools/remove-virtualpath.ps1:47-52 | the header reader finds exactly the names that the pattern captures |
| RuleFiles.AssignedExactly | tools/apply-virtualpath.ps1:76-80 | the target reader finds exactly the values that the pattern captures, before trimming |
| RuleBlocks.RulesExactly | tools/apply-virtualpath.ps1:64-86 | a file has a rule exactly when some block has the name in its header and its last target line sets the target, which is not empty |
| RuleFiles.RemovalTakesOwned | tools/remove-virtualpath.ps1:49-57 | for every file, removal takes away exactly the rules read inside the removed blocks and keeps the others in order |
| RuleFiles.RemovalAgreesExactly | tools/remove-virtualpath.ps1:43-57 | removing any name takes it and nothing else out of the file's meaning if and only if every rule stands in a block of its own name |
| RuleFiles.SameHeadersOrderly | tools/apply-virtualpath.ps1:61-87 | that is so when parser and editor see the same headers |
| RuleFiles.StrayRuleStays | tools/remove-virtualpath.ps1:49-57 | in every file a rule that stands in no block of a name survives the removal of that name, even if it is its own |
| RuleFiles.UnseenHeaderStays | tools/remove-virtualpath.ps1:49-57 | so does, wherever it stands in a file, a rule under a header the editor does not see |
| PowerShellRules.ParseFile | tools/apply-virtualpath.ps1:64-86 | the line loop enters the file's rules into the table, later ones winning |
| PowerShellRules.ParseFiles | tools/apply-virtualpath.ps1:61-87 | the table of all files, each read on its own |
| PowerShellRules.TargetExactly | tools/apply-virtualpath.ps1:66-80 | which lines set a target, and to what |
| PowerShellRules.HeadersDifferExactly | tools/apply-virtualpath.ps1:68-71 | parser and editor differ on a line exactly when it is an indented header |
| PowerShellRules.NormalizedShape | tools/add-virtualpath.ps1:36-41 | a normalised name has single slashes inside and none at its ends |
| PowerShellRules.NormalizeTwice | tools/add-virtualpath.ps1:36-41 | normalising again changes nothing exactly when the name has no blank at an end |
| PowerShellRules.NormalizedIsName | tools/add-virtualpath.ps1:36-41 | normalising keeps the pieces between slashes and backslashes and joins them with single slashes |
| PowerShellRules.FoldExactly | tools/add-virtualpath.ps1:61-66 | two names are the same exactly when they differ in the case of ASCII letters only |
| PowerShellRules.RemoveBlocks | tools/remove-virtualpath.ps1:43-57 | the loop yields the file without the blocks of the name, and tells whether there is one |
| PowerShellRules.RemoveRule | tools/remove-virtualpath.ps1:28-75 | when the script fails, does nothing or writes; it removes the blocks of the name that the argument's pieces make |
| PowerShellRules.AddRule | tools/add-virtualpath.ps1:34-91 | when the script fails, the type being compared without case; it removes the blocks of the name that the argument's pieces make and appends four lines |
| PowerShellRules.HeaderLine | tools/add-virtualpath.ps1:57-71 | a written header reads back as its name exactly when the name has no quote |
| PowerShellRules.UpsertMeans | tools/add-virtualpath.ps1:53-73 | a file with a rule added means the old file with the name mapped to the trimmed target |
| PowerShellRules.UpsertAgreesExactly | tools/add-virtualpath.ps1:53-73 | adding maps the name to the target and changes nothing else if and only if the name has no quote and the target is trimmed and not empty |
| PowerShellRules.QuotedNameRetargets | tools/add-virtualpath.ps1:70-73 | with a quote the last rule of the file gets the target |
| PowerShellRules.UnindentedOrderly | tools/remove-virtualpath.ps1:43-57 | without indented headers removal agrees with parsing for every name |
| PowerShellRules.IndentedHeaderStays | tools/remove-virtualpath.ps1:43-57 | wherever it stands, a rule under an indented header survives the removal of every name but that of the unindented header before it |
| PowerShellRules.RemovalInDirectory | tools/apply-virtualpath.ps1:61-87 | removing a name from one file of the directory leaves the other names of the whole table as they are, and leaves the name exactly if another file has it |
| ShellRules.ParseLines | tools/apply-virtualpath.sh:163-192 | the awk program prints a line for each rule of the file, in order |
| ShellRules.TargetExactly | tools/apply-virtualpath.sh:170-186 | which lines set a target, and to what |
| ShellRules.TrimExactly | tools/apply-virtualpath.sh:164 | trimming takes away exactly the blanks and line ends at both ends |
| ShellRules.CleanedExactly | tools/apply-virtualpath.sh:168 | the parser takes exactly the blanks and carriage returns off the end of a line |
| ShellRules.RemoveBlocks | tools/remove-virtualpath.sh:82-92 | the awk program prints the file without the blocks of the name, with status 3 exactly when there is none |
| ShellRules.NoReturnOrderly | tools/remove-virtualpath.sh:82-92 | without carriage returns removal agrees with parsing for every name |
| ShellRules.ReturnHidesHeader | tools/remove-virtualpath.sh:82-92 | wherever it stands, a rule under a header that ends in a carriage return survives the removal of every name but that of the header the editor sees before it |
| ShellRules.Normalize | tools/apply-virtualpath.sh:196-204 | reversing, keeping first fields and reversing again keeps the last line of each first field |
| ShellRules.LastOfMeans | tools/apply-virtualpath.sh:194-204 | keeping the last rule of each name keeps the meaning of the rules |
| ShellRules.LastOfNames | tools/apply-virtualpath.sh:194-204 | with each name once |
| ShellRules.NormalizedIsLastExactly | tools/apply-virtualpath.sh:194-204 | the pipeline keeps exactly the last rule of each name, in order of last occurrence, if and only if first fields tell the names apart |
| ShellRules.BarFreeApart | tools/apply-virtualpath.sh:194-204 | they do when no name contains a bar |
| ShellRules.BarNamesClash | tools/apply-virtualpath.sh:194-204 | in every list of rules, two names that agree up to a bar lose a rule, and one line at most is kept for their first field |
| RuleStreams.StreamRules | tools/apply-virtualpath.sh:163-192 | the rules of all files read as one input are those before, the block a file leaves open with what runs on into the next, and those of the next on its own |
| RuleStreams.RemovalInStreamExactly | tools/remove-virtualpath.sh:82-92 | removal from one file between others takes exactly its blocks of the name out of the whole input if and only if it does not end in such a block from which another target runs on to the block before |
| RuleStreams.RemovalInInput | tools/remove-virtualpath.sh:82-92 | removal from a file without carriage returns leaves the other names of the whole input as they are, if the file does not end in the removed block or no target comes before the next header |

## Left out

- HTTP, JSON, UDP, signals and the agent's loop; from the agent only the ttl of ten minutes is taken.
- Go's two clock readings in one time value: a single integer clock stands for both.
- The 64-bit bounds of epochs, event numbers and counters, which are unbounded here.
- Data races on the token shared between the instance and its leader states: each method is one atomic step.
- The error values and messages of the requests, beyond the cases they distinguish.
- Fields of an event that do not apply to its kind: events are a sum type instead of one record of optional fields.
- Reconcile.Run: no other request reaches the queue between the requests of one reconcile.
- TenureHistory.HistoryTenuresApart: leases that end at Go's zero time, which an event shows as absent.
- Write errors of the two detectors' state files, which these ignore, and files that change during a scan.
- Detection.Detect: a file's size is the length of its content, as for a file at rest.
- Windows branches of the matcher and of path cleaning, and case folding beyond ASCII letters.
- The regular expression library beyond the syntax that the pattern compiler emits, and patterns with bytes that are no valid text.
- The choice of a provider and the directories in which state files are kept.
- The scan of internal/preflight/scan.go beyond its decimal printer.
- awk's numeric comparison of names that look like numbers, and the shell's own splitting of the normalised lines.
- Creation of links, the manifest file and the cleaning of stale links.
- tools/add-virtualpath.sh, whose header pattern lacks the bracket.
- Pending and benchmark stores, ZFS and copy commands, configuration, manifests and the controller: storage wrappers and foreign commands.
- Bench quorum, active sets and mount point search: short computations over one list each.
