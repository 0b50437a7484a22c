# kubectl-hpa-status: a verified model of its stateful cores

This Dafny project models the parts of kubectl-hpa-status whose correctness depends on
many steps taken together, and proves what those steps promise. `dafny verify dfyconfig.toml`
checks all of it. There is one module per file; `Common` holds what several share.

| part of the program | files | what the program is trusted for |
|---|---|---|
| health-history store | `HistoryScan`, `HistoryDisk`, `ScanCache`, `HistoryReference`, `HealthStore`, `HistoryRuns`, `Recorder` | a decoded-scan cache and a lazily compacted file that nobody can tell from rescanning a file that never forgets |
| replay lab | `Directions`, `ReplayLab`, `ReplaySummary`, `ReplayTheorems`, `ReplayWindows` | a what-if replay that never oscillates more than the record |
| applying suggestions | `JsonMerge`, `ApplyProtocol`, `ApplyCommand` | at most one write, on exactly the document the operator reviewed, and that write unless something named stands in the way |
| scaling-path estimate | `BehaviorPath`, `BehaviorTheorems`, `EstimateOverTime`, `PolicyBounds` | a path found on the gcd grid that equals the one found second by second and respects its policies wherever a period is placed |
| recent events | `StableSort`, `RecentEvents` | bounded insertion that equals sorting everything and cutting |
| parallel commands | `ParallelRuns`, `BatchResults` | results and exit codes that do not depend on the schedule |
| node headroom | `NodeHeadroom` | requests and headroom that add up to capacity |
| bundle redaction | `UidRedaction`, `KeywordRedaction`, `KeywordCoverage`, `KeywordPasses` | passes that remove what they name, alone and in sequence |
| lint annotations | `AnnotationEscape` | escaping that loses nothing |

The store, its cache, its disk and the API server are classes whose methods change their fields;
loops of the program are loops here, each tied by its `ensures` to a function, and the lemmas are
about those functions. `Perform` in `HealthStore.dfy` is the top of the history part: an arbitrary
interleaving of calls, failures and other processes' writes shows callers exactly what the cacheless
reference of `HistoryReference.dfy` shows. The theorems of `HistoryRuns.dfy` and `Recorder.dfy` are
about that reference, so they hold of the cached store.

## What the model found

- Replay: the direction changes of every replay are a subsequence of the recorded ones for every trace,
  also one with negative counts. `UnderProvisionFixed` can never be reported.
- Replay windows: a longer stabilization window can hold less than a shorter one. It does so exactly where it
  has let go of an older, higher level while the shorter one still holds a newer one; a trace without two falling
  steps of that age, in particular one shorter than the longer window, is never replayed lower.
- Recorder: the transaction keeps a snapshot taken exactly at the start of the window, the three separate
  calls drop it, so the two ways agree exactly when no snapshot sits on that line.
- Merging: one deep-merged patch means the same as the patches in sequence exactly when no object follows
  a non-object at one path; clearing a field and then setting part of it is the smallest exception.
- Apply: the sequential `--allow-partial` path can never report success, because a patch that could not be
  merged cannot be given a version precondition either; and the command never reaches that path, because
  server-side validation has already refused such a patch. For the same reason the panic on a `null` patch
  in `mergePatchWithResourceVersion` is possible in `executePatches` alone but not in the command.
- The version precondition keeps every metadata field of a patch. A patch whose metadata is not an object has no
  fields to keep, but it would have thrown the object's metadata away; with the precondition it no longer does. The
  precondition changes nothing but the version exactly when the patch has no metadata or an object there.
- Keyword redaction: a value that starts like a placeholder is kept, and can hide a second keyword with its
  own value. Every value after the keyword is gone exactly when no kept value does that. The seven passes in
  sequence are not idempotent: a later pass can take away the value an earlier pass was told to keep, and a second
  run then sees what was behind it (`SecondRunFindsMore`). A run leaves a text alone exactly when no pass by itself
  has anything to replace in it, and no pass ever exposes a value after any keyword.

## Model

| member | source | states |
|---|---|---|
| HistoryScan.ScanHistoryFile | internal/history/store.go:283-330 | the scan loop yields, for every file and cutoff, the count of decodable lines, the count at or before the cutoff, the later records stably sorted and the undecodable line numbers, or stops at the first oversize line |
| HistoryScan.ScanMeans | internal/history/store.go:283-330 | over the lines: how many decode, how many of those are not later than the cutoff, exactly which ones are retained, and that they are in time order |
| HistoryScan.SnapshotsMean | internal/history/store.go:301-322 | the decodable lines are taken in file order, each at its own place |
| HistoryScan.CorruptMeans | internal/history/store.go:301-322 | the numbers reported are exactly the 1-based ones of undecodable lines, ascending |
| HistoryScan.UnreadableMeans | internal/history/store.go:301-324 | a file with an oversize line is read up to the first one, and exactly the fresh records before it are handed over |
| HistoryScan.FreshScanDescribes | internal/history/store.go:267-279 | a scan taken at one cutoff determines the scan at every later cutoff |
| HistoryScan.NarrowedScan | internal/history/scan_cache.go:69-74 | cutting a cached scan down to a later cutoff equals scanning the file at that cutoff |
| HistoryScan.AppendedScanDescribes | internal/history/store.go:219-225 | after one appended record the scan updated in memory is again right for every later cutoff, although an already expired record is inserted as retained |
| HistoryScan.RewrittenScanDescribes | internal/history/store.go:240-244 | after a rewrite the scan written down without reading the file is right for every later cutoff |
| HistoryScan.RewrittenLines | internal/history/store.go:347-356 | a rewritten file holds exactly its records, in order, with no corrupt line |
| HistoryScan.AppendedRetained | internal/history/store.go:219-225 | inserting into the retained records commutes with filtering and sorting all records |
| StableSort.SortCharacterized | internal/history/store.go:325-328 | a sequence is the stable sort of another exactly when it is sorted and keeps the order of equal keys |
| StableSort.AboveIsSuffix | internal/history/scan_cache.go:70-72 | on sorted records the binary-search suffix is exactly the records after the cutoff |
| StableSort.AboveOfInsert | internal/history/store.go:219-225 | inserting a record and filtering by time commute |
| ScanCaching.SurvivorsAreLongestSuffix | internal/history/scan_cache.go:90-99 | every most-recently-used run of entries that leaves room is kept by eviction, so eviction keeps the longest one |
| ScanCaching.SurvivorsAreRecent | internal/history/scan_cache.go:93-97 | nobody outlives an entry used later |
| ScanCaching.EvictOldest | internal/history/scan_cache.go:91-98 | removing the least recently used entry loses nothing that could have stayed |
| ScanCaching.EvictionDone | internal/history/scan_cache.go:90-99 | when the loop stops it has kept exactly the longest most-recently-used run that leaves room |
| ScanCaching.WeightIsSum | internal/history/scan_cache.go:82-118 | the record count is the number of records and corrupt line numbers the entries hold, in whatever order they are listed |
| ScanCaching.RoomMeans | internal/history/scan_cache.go:90-99 | room is fewer than 128 streams and at most 100000 records with the new ones |
| ScanCaching.ScanCache.Load | internal/history/scan_cache.go:50-75 | a hit needs a current token and a cutoff no earlier than the cached one, yields the narrowed scan and marks it used; every miss drops the entry |
| ScanCaching.ScanCache.Save | internal/history/scan_cache.go:77-105 | stores the scan after evicting exactly what must go, keeps both bounds and the record count, and stores nothing for a missing file or an oversized scan |
| ScanCaching.ScanCache.MakeRoom | internal/history/scan_cache.go:90-99 | the eviction loop ends, for every iteration order of the map, with room for the new records and the longest most-recently-used run |
| ScanCaching.ScanCache.Oldest | internal/history/scan_cache.go:91-97 | finds an entry nobody was used before, whatever the iteration order |
| ScanCaching.ScanCache.RemoveEntry | internal/history/scan_cache.go:113-118 | removes one entry and its share of the record count |
| ScanCaching.ScanCache.Touch | internal/history/scan_cache.go:66-68 | the touched entry becomes the most recently used, nothing else changes |
| HealthStoring.HealthStore.CachedHistoryScan | internal/history/scan_cache.go:38-48 | with the cache the answer is that of a fresh scan of the current file, errors included |
| HealthStoring.HealthStore.AppendSnapshotLine | internal/history/store.go:104-133 | drops the cached scan of the path and no other, and adds one line, or leaves the file as the failure point says |
| HealthStoring.HealthStore.ReplaceSnapshots | internal/history/store.go:332-370 | drops the cached scan of the path and no other, and replaces the file atomically or not at all |
| HealthStoring.HealthStore.Append | internal/history/store.go:89-102 | has the effect of the cacheless append |
| HealthStoring.HealthStore.LoadAt | internal/history/store.go:143-151 | returns what the cacheless store returns |
| HealthStoring.HealthStore.PruneAt | internal/history/store.go:175-195 | rewrites the file to the records after the cutoff, as the cacheless store does |
| HealthStoring.HealthStore.RecordAndLoad | internal/history/store.go:203-254 | returns and leaves what the cacheless store returns and leaves, although it caches the written state without reading it |
| HealthStoring.HealthStore.Perform | internal/history/scan_cache.go:38-105 | cache coherence over every run: for every interleaving of calls, failures and writes by other processes on any streams, callers see and files hold what they would without a cache |
| HealthStoring.WrittenDescribes | internal/history/store.go:237-245 | the state cached after an append or a compaction describes the file just written |
| HistoryRuns.NothingVisibleIsForgotten | internal/history/store.go:227-235 | after any run no reader at or after every cutoff used so far can tell the compacted file from every snapshot ever recorded |
| HistoryRuns.RecordWindowFromEverything | internal/history/store.go:203-254 | the window a record call returns is computed from every snapshot ever recorded, whichever earlier calls compacted |
| HistoryRuns.LoadFromEverything | internal/history/store.go:396-405 | the same for a load |
| HistoryRuns.RecordedLines | internal/history/store.go:219-235 | a record call adds its snapshot, or nothing when it failed, for every later reader |
| HistoryRuns.VisitLeaves | internal/history/store.go:227-244 | how many records one call leaves, and that later readers see the old ones and the new one |
| HistoryRuns.CompactsExactly | internal/history/store.go:256-265 | a file is rewritten exactly when 64 of its records, or half of them and at least one, are not later than the cutoff |
| HistoryRuns.FileStaysSmall | internal/history/store.go:256-265 | after recording a still fresh snapshot fewer than 64 records, and fewer than the retained ones, are expired |
| HistoryRuns.RewritesArePaidFor | internal/history/store.go:256-265 | conservation over any number of calls: records kept plus dropped are records there plus recorded, 64 per count rewrite are dropped, and ratio rewrites write at most twice what was dropped |
| HistoryRuns.CompactionCost | internal/history/store.go:256-265 | from an empty stream n records cost at most n dropped lines, n/64 count rewrites and 2n lines of ratio rewrites |
| Recording.RecordAndAnalyze | internal/history/recorder.go:78-123 | outcome and files of both ways through the recorder, for every combination of failures, and no store: the transaction is analysed when it succeeds with a nonempty window and warns once when it fails or meets corrupt lines; of the three calls each is warned of exactly when it failed or met corrupt lines, and what the load handed over, even before a read error, is analysed |
| Recording.AppendPruneLoad | internal/history/recorder.go:108-118 | the three calls have the combined effect of their references |
| Recording.CollectWarnings | internal/history/recorder.go:108-121 | a call is warned of if and only if it failed or met corrupt lines, in call order, each once, and there are no other warnings |
| Recording.WarningsDetermined | internal/history/recorder.go:108-121 | that leaves exactly one list of warnings, the reference's |
| Recording.TransactionVersusThreeSteps | internal/history/recorder.go:97-121 | both ways analyse the same snapshots if and only if no retained one lies exactly at the start of the window and the new one is inside both cutoffs; their files agree for every later reader |
| Recording.RecorderPathsAgree | internal/history/recorder.go:85-121 | for 0 < since <= retention and no stored snapshot exactly at now minus since both ways analyse the same snapshots and their files agree for every later reader |
| Recording.AgreeingWindows | internal/history/store.go:247-249 | windows are equal off the line |
| Recording.DifferingWindows | internal/history/store.go:247-249 | a snapshot on the line is in one window and not in the other |
| ReplayLab.ApplyReplayCandidate | cmd/replay_lab.go:348-384 | the in-place loop computes the clamp-and-hold replay of the trace |
| ReplayLab.Summarize | cmd/replay_lab.go:260-302 | the counters of one pass are the peak, caps, durations, replica-seconds, moves and flips of the whole trace; what those are is in the rows of ReplaySummary |
| ReplayLab.SummarizeCandidate | cmd/replay_lab.go:111-117 | the candidate summary is that of the replayed trace against recorded demand, with differences to the current one |
| ReplaySummary.ReplicaSecondsExtended | cmd/replay_lab.go:278-324 | one more snapshot adds the count before it times the whole seconds until it, and its own count over the sampling interval, which the one before it no longer stands for |
| ReplaySummary.CappedSecondsExtended | cmd/replay_lab.go:262-324 | the same for the time at the limit, over the snapshots above the maximum in recorded demand, at it otherwise, or limited when no maximum is given |
| ReplaySummary.ConstantDemand | cmd/replay_lab.go:278-324 | on a trace of whole seconds constant demand amounts to that demand times the time from first to last snapshot and the sampling interval |
| ReplaySummary.PeakIsLargest | cmd/replay_lab.go:266-268 | the peak is the largest desired count, and at least 0 |
| ReplaySummary.CountsMean | cmd/replay_lab.go:269-277 | caps and under-provision are numbers of snapshots, told by their fields |
| ReplaySummary.OscillationExtended | cmd/replay_lab.go:280-296 | one more snapshot is a scale event exactly when its count differs from the one before, and a flip exactly when the last change before it went the other way |
| ReplaySummary.ImpactTakesCurrentToProposed | cmd/replay_lab.go:387-396 | the percentages of the impact, over exact numbers, take the current figures to the proposed ones |
| ReplaySummary.ClampIsNearest | cmd/replay_lab.go:359-366 | no value the candidate allows is nearer to the recorded one than the clamped value |
| ReplayLab.SeeMove | cmd/replay_lab.go:280-296 | the last value and last direction carry enough to count moves and flips |
| Directions.LaggingNeverOscillatesMore | cmd/replay_lab.go:367-380 | a sequence that lags behind a monotone image of another has a subsequence of its moves, so no more moves and no more flips |
| Directions.SubsequenceFlips | cmd/replay_lab.go:292-294 | leaving out moves never adds flips |
| Directions.FlipsBoundedByFalls | cmd/replay_lab.go:288-294 | direction flips are at most twice the scale-downs |
| ReplayTheorems.OutputLags | cmd/replay_lab.go:359-381 | every replayed value is the clamped recorded one or repeats the value before |
| ReplayTheorems.ReplayNeverAddsOscillation | cmd/replay_lab.go:348-384 | for every trace and candidate, moves are a subsequence of the recorded moves, so scale events, direction flips and the flapping label never get worse |
| ReplayTheorems.StabilizationBound | cmd/replay_lab.go:367-380 | with a window and times that do not go back, scale-downs are a window apart, number at most the covered time over the window, and flips at most twice that |
| ReplayTheorems.StabilizedReplayIsSandwiched | cmd/replay_lab.go:359-381 | a replayed value is the clamped one or that of an earlier snapshot less than a window old, when larger, and stays within the bounds |
| ReplayTheorems.CapAndUnderProvision | cmd/replay_lab.go:269-278 | capped snapshots are the recorded values above the maximum; under-provision lies between the recorded count and that plus the caps |
| ReplayTheorems.UnderProvisionNeverFixed | cmd/replay_lab.go:398-400 | no candidate is ever reported to fix under-provision |
| ReplayTheorems.NoMissedScaleUpExactly | cmd/replay_lab.go:406-408 | no missed scale-up is reported exactly when the record was never limited and never above the candidate's maximum |
| ReplayTheorems.LongerWindowCanHoldLess | cmd/replay_lab.go:371-379 | a trace on which a longer window is lower, with all outputs of both; the exact condition is the next row |
| ReplayWindows.LongerIsLowerExactly | cmd/replay_lab.go:367-380 | of two candidates that differ in their windows, one is lower at a snapshot if and only if the other holds there the level of an earlier snapshot and the first has meanwhile released below that level |
| ReplayWindows.LongerIsLowerOnlyAfterTwoSteps | cmd/replay_lab.go:367-380 | a longer window is lower only after two falling steps in the trace, the first at least the longer window ago and the second within the shorter one |
| ReplayWindows.ShortTraceNeverLower | cmd/replay_lab.go:371-379 | a longer window that the trace does not fill is never lower |
| ReplayWindows.KeptFrom | cmd/replay_lab.go:367-380 | a kept value is the clamped value of the snapshot it was taken from, kept ever since |
| JsonMerge.MergeObjects | internal/patch/merge.go:95-119 | the loop merges objects key by key, the later value winning except between objects |
| JsonMerge.MergePatches | internal/patch/merge.go:40-76 | merging succeeds exactly when every patch decodes (or there is at most one) and yields the fold of deep merges |
| JsonMerge.MergedAt | internal/patch/merge.go:54-69 | what the merged patch holds at a key in terms of the history of that key |
| JsonMerge.AppliedAt | internal/patch/merge.go:40-76 | what applying the patches in sequence leaves at a key in terms of the same history |
| JsonMerge.FaithfulMerge | internal/patch/merge.go:40-76 | without an object after a non-object at one path, the merged patch means the sequence on every document |
| JsonMerge.ForgettingDocument | internal/patch/merge.go:63-68 | with such a path some document tells them apart |
| JsonMerge.MergeMeansSequenceExactly | internal/patch/merge.go:40-76 | merged patch and sequence agree on all documents if and only if no object follows a non-object at one path |
| JsonMerge.ClearThenSetIsForgotten | internal/patch/merge.go:115-116 | clearing a field and then setting part of it is such a case |
| ApplyProtocol.ExecutePatches | cmd/apply.go:316-385 | with foreign writes between any two calls: a merged apply leaves nothing or exactly one write on the expected version, just rehearsed by an accepted dry run; a sequential one leaves a proper prefix of the patches, equal to the list it reports, contiguous from the expected version. With no failed call, no foreign write and the expected version the outcome is fixed: a merged patch that is an object is applied, and a sequential apply that is consented to stops at the first patch that is no object |
| ApplyProtocol.ApplyMerged | cmd/apply.go:327-352 | all or nothing; a write follows an accepted dry run of the very same patch on the very same document, with no other dry run between; with no failed call and no foreign write an object is applied, however many patches it merges |
| ApplyProtocol.ApplySequentially | cmd/apply.go:368-384 | threading each returned version leaves contiguous own writes and never completes; undisturbed it writes everything before the first patch that is no object |
| ApplyProtocol.PatchStamped | cmd/apply.go:375-382 | a stamped patch is persisted only on the version it names, and is accepted there unless the call fails or somebody writes first; a dry run persists nothing and is recorded when accepted |
| ApplyProtocol.StampGuards | cmd/apply.go:391-409 | a server that compares versions accepts a stamped patch only on that version, whatever metadata the patch had |
| ApplyProtocol.StampAccepted | cmd/apply.go:391-409 | on the version it names every stamped patch is accepted |
| ApplyProtocol.ApiServer.Patch | cmd/apply.go:341-346 | a failed or refused patch persists nothing and is counted as what it was; an accepted one is a single history entry with a new version, or a single dry run; a patch the server takes goes through unless the call fails |
| ApplyCommand.CollectApplicable | cmd/apply.go:229-237 | keeps exactly the suggestions marked to apply that carry a patch, in order |
| ApplyCommand.BlockingGuard | cmd/apply.go:121-227 | in blocking mode nothing passes unless every suggestion and the combined final state do |
| ApplyCommand.WarningGuard | cmd/apply.go:121-227 | in warning mode exactly what the policy allows passes, in order, unless its combination cannot be evaluated |
| ApplyCommand.FreshMeans | cmd/apply.go:103-113 | a document is fresh exactly when every UID and version a suggestion names is the one in its metadata |
| ApplyCommand.MergedAcceptable | cmd/apply.go:257-263 | when the server takes every single patch on a document, it takes their combination |
| ApplyCommand.PreValidate | cmd/apply.go:248-265 | passing means the server accepted dry runs of every patch in order and of the merged one, that every patch is an object, and that nothing was written; failing means a failed call, a text that is no JSON or a refused patch; with no failed call and no foreign write it passes exactly when the server takes every single patch |
| ApplyCommand.ApplySuggestions | cmd/apply.go:26-73 | the whole command leaves at most one write, exactly when it reports success, on the very document fetched for review, fresh for every suggestion, let through by the guard, agreed to by flag or by the operator's answer, not in dry-run mode, just rehearsed on that document; it never crashes. It is declined only for a failed call, a stale suggestion, the guard, a rejected patch, or a missing agreement in a real run; with no failed call and no foreign write the report is settled, and success is reported exactly when the suggestions are fresh, allowed, accepted one by one, agreed to and not in dry-run mode |
| ApplyCommand.ApplyTarget | cmd/apply.go:79-101 | the fetch succeeds exactly when no call failed and every suggestion still describes what it found |
| ApplyCommand.ApplyAllowed | cmd/apply.go:49-73 | validation, dry-run mode, agreement and execution of what the guard let through, with the reason for every report |
| ApplyCommand.ExecuteReviewed | cmd/apply.go:72-73 | after validation only the atomic path is possible, and it is applied unless a call fails or somebody else writes |
| ApplyCommand.StampOnlyGuardsExactly | cmd/apply.go:387-409 | the precondition changes nothing but the version on every document of that version if and only if the patch's metadata is absent or an object |
| ApplyCommand.AppliedMeansSequence | cmd/apply.go:327-352 | the one write leaves what the suggestions applied in sequence make of the reviewed document |
| BehaviorPath.ComputeLimit | pkg/hpa/scaling/policy.go:82-117 | the nested loops select, over the policies, one of the bounds counted from each period's start: under the cautious selection no bound lies nearer, otherwise none lies further in the direction of scaling; none exactly when no policy bounds; a disabled selection keeps the replicas |
| BehaviorPath.LimitSelectsExactly | pkg/hpa/scaling/policy.go:82-117 | that selection determines the limit |
| BehaviorPath.PeriodGCD | cmd/behavior.go:172-177 | the remainder loop ends with the greatest common divisor |
| BehaviorPath.MinPositivePeriod | cmd/behavior.go:179-190 | the shortest positive period, 0 exactly when there is none |
| BehaviorPath.TickAndPolicies | cmd/behavior.go:135-145 | the tick divides the step and every period, and every common divisor divides it |
| BehaviorPath.BoundariesAreVisited | cmd/behavior.go:135-150 | every end of a period between the first and the last look lies on the grid |
| BehaviorTheorems.NothingBetween | cmd/behavior.go:150-168 | between two grid points the limit is the number of replicas already there |
| BehaviorTheorems.GridLosesNothing | cmd/behavior.go:135-168 | looking on the gcd grid finds the same path as looking on the grid of any common divisor, down to every second, for any policy bound |
| BehaviorTheorems.WalkGrid | cmd/behavior.go:146-169 | the loop computes the simulated path |
| BehaviorTheorems.EstimateBehaviorPath | cmd/behavior.go:118-170 | the estimate is empty, constant, immediate or the path found by looking every second from the shortest period after the window to twenty times that |
| EstimateOverTime.EstimateSecondBySecond | cmd/behavior.go:146-169 | at each of those seconds the replicas go to the selected bound and no further than the target, or stay where there is no bound, until the target is reached or nothing bounds; at no other second does anything change |
| BehaviorTheorems.EstimateAccounts | cmd/behavior.go:150-169 | start plus changes is the number of replicas, each change is towards the target and none passes it, times increase, and the path is their running total at times an int32 holds |
| BehaviorTheorems.PolicyHoldsEverywhere | pkg/hpa/scaling/policy.go:88-117 | no rolling period placed anywhere over the estimate holds more change than a policy allows from any baseline, under the cautious selection or with one policy |
| PolicyBounds.ReplicaLimitIsSteady | pkg/hpa/scaling/policy.go:34-71 | policies counted in pods and in percent bound every baseline, monotonically, and never behind it |
| PolicyBounds.ReplicaLimitMeans | pkg/hpa/scaling/policy.go:34-71 | the bound by kind and direction: the value more or less, or the percentage rounded up, within 0 and the largest int32; no other kind and no value that is not positive bounds |
| PolicyBounds.PercentSteps | pkg/hpa/scaling/policy.go:48-70 | rounding a percentage up neither falls behind the baseline nor overtakes a larger one, also beyond 100 percent |
| PolicyBounds.PodsAllowTheirValue | pkg/hpa/scaling/policy.go:41-46 | a policy counted in pods allows exactly its value from every baseline an int32 holds |
| PolicyBounds.BoundHoldsEverywhere | pkg/hpa/scaling/policy.go:88-117 | for every monotone bound that is never behind: wherever a period is placed over the estimate, the replicas at its end are within the bound of the replicas at its start |
| PolicyBounds.EstimateRespectsPolicies | cmd/behavior.go:118-170 | the command's own estimate with the policies in use does both |
| RecentEvents.Search | internal/kube/events.go:76-76 | the binary search finds the place after all events that are not older |
| RecentEvents.InsertBounded | internal/kube/events.go:76-85 | search, shift and truncate keep the first limit events of the stable newest-first sort of everything seen |
| RecentEvents.TakeBeforeInsert | internal/kube/events.go:77-85 | cutting before an insertion changes nothing above the cut |
| RecentEvents.FirstMeans | internal/kube/events.go:48-50 | what is kept is sorted, complete below the limit, and nothing left out belongs before anything kept |
| RecentEvents.VisitPages | internal/kube/events.go:69-88 | the result depends on the concatenation of the pages only |
| RecentEvents.WantedOnce | internal/kube/events.go:54-61 | every named reference is listed once |
| RecentEvents.VisitReference | internal/kube/events.go:62-91 | a failing listing contributes its delivered pages and its error |
| RecentEvents.FetchRecentEventsForIdentities | internal/kube/events.go:50-94 | the newest matching events over all references, cut from the stable sort of all of them, with the listings that failed: what is kept does not increase in time, nothing left out is later than anything kept, and equals stay in the order visited |
| RecentEvents.ContributionMeans | internal/kube/events.go:62-88 | what a listing contributes: one item for every event about the object named, an empty kind or UID matching any |
| RecentEvents.TimestampMeans | internal/kube/events.go:96-113 | the time of an event is the first of its stamps that is set |
| RecentEvents.FetchRecentHPAEvents | internal/kube/events.go:133-168 | the newest events of one HPA by time, newest first, nothing later left out, or none at all when the listing fails |
| RecentEvents.FetchRecentHPAEventsSince | internal/kube/events.go:199-220 | every event of the window, oldest first by time |
| RecentEvents.LaterWindowIsSuffix | internal/kube/events.go:180-186 | a later window is the end of an earlier one, so nothing in a window is lost |
| ParallelRuns.EveryScheduleIsConsistent | cmd/parallel.go:102-136 | at every moment of every schedule at most limit workers are busy and a filled slot holds its own name's result |
| ParallelRuns.LaunchExactly | cmd/parallel.go:102-113 | the next worker starts exactly when names are left and fewer than the limit are waiting or building |
| ParallelRuns.SchedulesAreFinite | cmd/parallel.go:114-134 | no schedule is longer than three actions a name and one cancellation |
| ParallelRuns.SchedulesNeverStick | cmd/parallel.go:108-134 | some action is possible until every name has its result |
| ParallelRuns.ScheduleIndependence | cmd/parallel.go:89-136 | every finished uncancelled schedule yields build of each name in input order |
| ParallelRuns.SlotsAreWrittenOnce | cmd/parallel.go:115-127 | a written slot never changes |
| ParallelRuns.CancellationUnwinds | cmd/parallel.go:96-119 | a name that had not entered build when the context was cancelled ends with the context's error |
| BatchResults.CollectPerHPA | cmd/parallel.go:149-160 | all values in order, or the error of the lowest failing index |
| BatchResults.RunPerHPA | cmd/parallel.go:138-160 | under every uncancelled schedule the outcome is that of the sequential loop that stops at the first error |
| BatchResults.AggregateBatchExitCode | cmd/status_batch.go:221-245 | the exit code is that of the most severe item; over the items it is an error with the number of failures when any failed, otherwise a warning outside watch mode when a health is ERROR, LIMITED or WARNING, otherwise success |
| BatchResults.ExitIgnoresOrder | cmd/status_batch.go:221-256 | the order of the items does not matter |
| NodeHeadroom.FetchClusterResourceSnapshot | internal/kube/headroom.go:72-103 | the usage map measures every listed node and no other: per node the CPU and the memory its unfinished pods list, each added up by itself, and their number |
| NodeHeadroom.HeadroomForPod | internal/kube/headroom.go:106-161 | entries, their sum, the requests and the capacity summary, also when names repeat |
| NodeHeadroom.SummarizeNodeCapacityForPod | internal/kube/nodes.go:43-87 | what eligible nodes list as allocatable, whether all of them list pods, and the counts of nodes left out |
| NodeHeadroom.Conservation | internal/kube/headroom.go:106-161 | requested plus available is what eligible nodes can allocate |
| NodeHeadroom.CapacitySplits | internal/kube/headroom.go:106-161 | requested plus available is the summarized capacity, for pods when it is known |
| NodeHeadroom.RequestedDirectly | internal/kube/headroom.go:81-118 | requests added per node are those of the unfinished pods on eligible nodes, pod by pod |
| NodeHeadroom.OrderDoesNotMatter | internal/kube/headroom.go:81-98 | neither the order of pods nor their pages matter |
| NodeHeadroom.FetchClusterResourceHeadroomForPod | internal/kube/headroom.go:49-55 | unknown when a list failed; otherwise requested CPU and memory are what the unfinished pods on eligible nodes list, requested pods their number, available is what eligible nodes list less that, and there is one entry for each eligible node, in order, with what its own pods leave |
| UidRedaction.CheckUUID | cmd/bundle/redact.go:433-450 | accepts exactly the 36-character text form of a UUID |
| UidRedaction.UUIDMeans | cmd/bundle/redact.go:433-450 | hyphens at four places and a hexadecimal digit in either case at each of the others |
| UidRedaction.RedactUIDs | cmd/bundle/redact.go:417-431 | the index loop computes the left-to-right replacement |
| UidRedaction.NoUUIDLeft | cmd/bundle/redact.go:418-431 | the output has no UUID window, not even one made by joining what surrounds a placeholder |
| UidRedaction.UnchangedExactly | cmd/bundle/redact.go:418-431 | a text is unchanged if and only if it has no UUID; a second pass changes nothing |
| UidRedaction.OnlyUUIDsReplaced | cmd/bundle/redact.go:418-431 | the output is the input with UUIDs, and nothing else, replaced |
| KeywordRedaction.ReplaceAfterKeyword | cmd/bundle/redact.go:384-415 | the scan ends for every text and nonempty keyword and computes the stepwise replacement |
| KeywordRedaction.ValueIsReplaced | cmd/bundle/redact.go:384-415 | after a keyword everything up to white space, a comma, a closing brace or bracket gives way to the placeholder, unless it starts like one |
| KeywordRedaction.ScanValue | cmd/bundle/redact.go:393-397 | finds the end of the value |
| KeywordRedaction.PassIsIdempotent | cmd/bundle/redact.go:384-415 | a second pass changes nothing, for keywords that do not start with the closing bracket |
| KeywordCoverage.CoveredExactly | cmd/bundle/redact.go:384-415 | after a pass every keyword has an empty value or a placeholder if and only if no kept value holds the start of a keyword with a value of its own |
| KeywordCoverage.KeywordsAreWellChosen | cmd/bundle/redact.go:366-376 | the seven keywords in use overlap neither themselves nor a placeholder |
| KeywordCoverage.KeptValueHidesANode | cmd/bundle/redact.go:405-411 | for each of the keywords in use, the texts that a pass returns as they are although a value follows the keyword |
| KeywordPasses.RedactNodeNames | cmd/bundle/redact.go:366-381 | the loop makes the seven passes in order |
| KeywordPasses.PassCounts | cmd/bundle/redact.go:384-415 | a pass for one keyword never adds an exposed value after another, and one that changes the text takes one away after its own |
| KeywordPasses.LaterPassExposesNothing | cmd/bundle/redact.go:377-379 | what one pass covered stays covered under every other |
| KeywordPasses.KeywordsAreCompatible | cmd/bundle/redact.go:367-376 | no keyword in use ends inside another |
| KeywordPasses.RunCovers | cmd/bundle/redact.go:366-381 | when no pass keeps a value that hides another, the run leaves no value after any keyword |
| KeywordPasses.SecondRunIdle | cmd/bundle/redact.go:366-381 | then a second run of all seven changes nothing |
| KeywordPasses.PassUnchangedExactly | cmd/bundle/redact.go:384-415 | a pass leaves a text as it is if and only if it meets only empty values and placeholders |
| KeywordPasses.RunUnchangedExactly | cmd/bundle/redact.go:366-381 | a run of all passes leaves a text as it is if and only if no pass alone has anything to replace in it |
| KeywordPasses.SecondRunFindsMore | cmd/bundle/redact.go:366-381 | the family of texts on which a second run changes what the first one left |
| AnnotationEscape.EscapesArePasses | cmd/lint.go:271-285 | the two escapers are chains of replace-all passes |
| AnnotationEscape.PassesAreSimultaneous | cmd/lint.go:271-285 | passes in an order where none touches what an earlier one wrote are one simultaneous substitution |
| AnnotationEscape.EscapersSubstitute | cmd/lint.go:271-285 | both escapers substitute each character once |
| AnnotationEscape.EscapersLeaveNoSeparator | cmd/lint.go:271-285 | the output has none of the escaped separators |
| AnnotationEscape.EscapersRoundTrip | cmd/lint.go:271-285 | percent-decoding restores every input |
| AnnotationEscape.EscapersAreInjective | cmd/lint.go:271-285 | different texts stay different |

## Left out

Assumptions of the model:

- History files: every writer holds the stream lock, every write changes the file's identity, size or modification time (one token here), and every file is empty or ends in a newline; a torn last line is not modelled.
- History failures: a call is refused before it touches the disk, or fails before the file is opened, after it was opened or created, or after the record reached it; a partly written line, a failing read other than an oversize line, and an unreadable existing file are not modelled.
- JSON encoding of snapshots round-trips; timestamps are integers, and `time.Sub` does not saturate.
- The cache's 64-bit use counter is a natural number; slices are values, so sharing of a slice's backing array is not captured.
- The API server gives every persisted write a new nonempty version, compares a version named in a patch, persists nothing on an error, and neither defaults nor drops fields; an HPA deleted meanwhile is a failed request.
- Policies of the guard and node eligibility are parameters, any function; so are bounds of scaling policies, except in `PolicyBounds`, which has those in use.
- Node names are unique where conservation is stated, as the API server guarantees; the loops themselves are modelled without that.
- Bytes of redacted text are characters; a UUID has none outside ASCII.
- An interrupted page transport, its retries and repeated continue tokens are one listing that ends in an error.
- The client of the apply command is created and its writes to the terminal succeed, except the warnings before a sequential apply, whose failure is a parameter; an answer that cannot be asked for or read counts as none given.

Not modelled:

- ReplayLab.Summarize: pod-hours are replica-seconds over integers, because the program divides in floating point.
- ReplayTheorems.StabilizationBound: asks for a first clamped value that is not negative, because the hold starts from zero.
- PolicyBounds.ReplicaLimitIsSteady: percentages are exact; where the program's floating-point product lies just above a whole number it rounds up once more. The theorem on bounds is for every monotone bound, the one with that rounding included.
- ReplayWindows.LongerIsLowerExactly: timestamps do not go back and are not the zero time.
- KeywordRedaction.ReplaceAfterKeyword: needs a nonempty keyword, because the loop does not end for an empty one; no caller passes one.
- RecentEvents.FetchRecentHPAEvents: whether a kind is that of an HPA, compared without regard to case, is a parameter.
- Trend analysis of the recorded window, and the text of warnings, reports and errors.
- Rounding in the percentages of the replay impact, and its recommendation.
- Redaction by regular expression, of IP addresses and of structured values; only the UID pass and the keyword passes over node names are here.
- Kubernetes clients, configuration, flags, output formats, the terminal interface and watch loops.
