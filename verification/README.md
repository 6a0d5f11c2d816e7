# A verified model of the GPU runner's core

A Dafny model of the parts of the media-generation service whose correctness is a matter of state, protocol
or exact arithmetic: which model sits on which GPU, which answer belongs to which request, which frame of which
clip ends up where, what a user still owes, and what a quantized or adapted weight computes.
Check it with `dafny verify dfyconfig.toml`. Source files are cited relative to the repository root.

## What is modelled

| file | subject |
|---|---|
| `GpuSlots.dfy`, `GpuScheduler.dfy` | the GPU map: placement policy and reconciliation as functions of the map, and the scheduler object that carries them out in place |
| `SchedulerRuns.dfy`, `SchedulerSafety.dfy` | whole runs of the scheduler with the lock dropped during evictions, real VRAM contents and unreleased requests |
| `SchedulerLimits.dfy` | why each assumption of those results is there: exact conditions and runs |
| `EngineProtocol.dfy`, `EngineProc.dfy` | the JSONL protocol between a proxy, its pump threads and its model subprocesses, and the loops on both sides |
| `EngineFaults.dfy` | the two ways that protocol goes wrong, cancelled calls and failed starts, with their exact conditions |
| `ClipSchedule.dfy` | clip windows, splice chaining, masks, keyframes and stitching of a long restyled video |
| `ChunkedRender.dfy`, `JobProgress.dfy` | chunk windows and anchors of a long v2v job, and the progress a client sees |
| `TiledDecode.dfy` | overlapped tiled decoding and blending |
| `DebitAccount.dfy`, `DebitLedger.dfy` | optimistic debits: absorption, pruning and conservation, for one account and for the shared tables |
| `Nvfp4.dfy`, `Base64.dfy` | the two encodings: 4-bit block quantization and base64 |
| `LoraAlgebra.dfy`, `TurboToggle.dfy` | a linear layer with a runtime low-rank term against its merged weight, and switching the adapter between jobs |
| `Basics.dfy`, `Options.dfy` | what several of them share |

Objects that the source updates in place are classes proved against a function of their old state; sequences of
steps by several parties are state machines with an inductive invariant; the rest is functions and lemmas.

## What does not hold as the source or its comments say

Each point names the member that states it, as an exact condition or as a run that shows it; the one about
`_gemma_evicted` is only a reading of the source.

- A card claimed while an eviction of it has the lock dropped can lose the claim to the late clear, and then holds a
  model the map does not know (`runner/live_runner/scheduler.py:132-140`). As long as nobody chooses the card for a further
  eviction, the claimer loads only while the map places it there, and all else is disciplined, that can happen exactly when the card
  was claimed inside an eviction window, whether or not the callback had returned: `ClaimIsUnsafeIffInWindow`. Two requests that
  wait for the same victim get there from the initial state: `LostClaimIsReachable`.
- The victim search does not skip busy cards (`scheduler.py:241-256`). With a busy victim "one GPU serves one request at a
  time" fails (`HandoverIsExclusiveIffVictimIdle`, `TwoRequestsOnOneCard`), and co-residency can too, even with every claim
  outside every window: the victim's own request loads again after the callback, and the late clear forgets it. With all
  else disciplined, that can happen exactly when the victim's card is busy: `EvictionIsUnsafeIffVictimBusy`,
  `BusyVictimBreaksCoResidency`.
- A worker that picked a card at boot (`scheduler.py:258-283`) may finish loading after the card went to another worker; the
  scheduler has no say in when workers load: `LateBootLoadBreaksCoResidency`. A load is harmless exactly when the map places
  the worker there and no eviction has freed the card already: `LoadIsUnsafeIff`.
- A boot pick takes the worker's card even when a request holds it, and marks it idle: `PickIsExclusiveIffIdle`. Reports
  that do not fit the cards, or do not count a holder, break the map in exactly the ways of
  `ReconcileIsSafeIffReportsFit` and `ReconcileIsExclusiveIff`.
- `_gemma_evicted` is never set to true anywhere, so the waiting branch of a gemma `acquire`
  (`scheduler.py:182-196`) is not reachable; it is modelled all the same.
- Cancelling a `run` bypasses the handlers that evict the child (`runner/common/engineproc.py:349-362`). After any run, with
  any number of earlier cancellations, a later `run` can return another request's answer exactly when the proxy is marked
  ready, its child is running, and some good answer it has given or can give next lies where a reader comes to it: beyond what the next call
  must drain, the first final past the 64 lines it may drain, and within the 20000 lines it then reads (`CancelMisreadsIff`,
  `LeftoverMisreadsIff`), reached from the initial state by `CancelledCallIsReachable`. With no earlier cancelled call
  outstanding, cancelling before the request is sent is always safe: `CancelBeforeSendIsSafe`. A cancellation during the
  write counts as one after it.
- `start` with a child that fails its handshake raises without evicting it or clearing the ready mark of an earlier child
  (`engineproc.py:130`, `155-163`). The failed child can then be used as ready exactly when that mark is set:
  `FailedStartUsableIff`, `FailedStartIsUsed`. That takes a child that reports its own failure; the program's
  `run_child_loop` never does (`engineproc.py:413`), and with such children a failed start is never used:
  `FailedStartIsNotUsed`.
- `compute_clip_schedule` does not end for clips of one frame or less when the video is longer than a clip
  (`runner/idv2v/model.py:69-78`): `ScheduleTerminatesIff`.
- "Self-corrects on the next read" (`src/balance.ts:78`) is false: consumption that does not cover a whole row is lost
  for absorption: `EarlierReadIsHarmlessIff`, `SmallAdvancesAbsorbNothing`. When the first baseline read fails, earlier
  consumption does pay for the first debits (`src/index.ts:503-506`): `EarlierConsumptionPaysUnlessSeeded`.
- Conservation needs a consumed total that does not fall: of what a read can see, it is sure to survive exactly when the
  total read is not below the stored baseline (`ReadIsSafeIffNotFalling`); a total read too low once lets the same
  consumption pay twice (`FallingTotalAbsorbsTwice`). Whatever the totals do, no more is absorbed than the sum of
  their upward moves: `AbsorbedWithinUpMoves`.
- A request id is a duplicate only while its row is outstanding (`src/ledger.ts:306-321`): `RecordOptimisticDebit`.
- The identity pin is called chunk 0's frame, but comes from the first chunk that exports one; it is chunk 0's exactly when
  chunk 0 has frames and its export works (`PinIsChunkZeroIff`). It repeats the newest tail frame in the next chunk's
  references (`runner/idv2v/bernini.py:638-647`, `689-704`): `AnchorRepeatsIffPinIsPrevious`.
- The bar the client sees can fall at a chunk boundary when a chunk ran past the first report's step count: with at most
  9000 steps in all exactly then, with more only if the overrun is not rounded away (`BarAtChunkBoundary`,
  `SmallOverrunIsHidden`).
- A keyframe given by a negative index would be placed, counted from the end, but not masked (`runner/idv2v/model.py:961-967`):
  the mask marks exactly the placed frames exactly when each such place is also given by its own index
  (`MaskMarksPlacedIff`). The service's request parser rejects negative indices (`runner/idv2v/run.py:108-112`).
- A tiled decode raises no inner weight to its floor exactly when the product of the two ramp lengths is at most a million times
  the number of tiles at the corner, which every overlap up to 62 latents ensures: `NoInnerFloorIff`,
  `DefaultOverlapNeedsNoFloor`. Otherwise the pixel next to the corner is darkened even when all tiles agree: `CornerPixelIsDarkened`.
- The four outermost pixel lines of a tiled decode get weight 0 and come out as 0: `OutermostLinesAreZero`.
- A full delta without a down matrix, which is what the output head's adapter is, is never added
  (`runner/idv2v/bernini_fp8.py:116-117`, `158`): `RuntimeEqualsMergedIff`, `TurboComputesMergedIff`.
- "Native 40-step stays the default" (`runner/idv2v/bernini_cli.py:415`): a turbo job that names no step count leaves its
  4 steps in the shared namespace, and the next native job that names none runs with 4: `NativeKeepsDefaultIff`. A
  turbo job takes 4 steps even when no adapter is loaded.
- Zero is stored as nibble 8 (`runner/idv2v/nvfp4.py:64-66`): `NibbleOfValue`. The table's smallest magnitude is 0.25,
  as in the source; the usual E2M1 format has 0.5 there.
- The base64 decoder reads characters outside the alphabet as a run of set bits instead of rejecting them, so only
  canonical encodings survive decoding and encoding again: `ReencodesIffCanonical`.

## Model

| member | source | states |
|---|---|---|
| `GpuScheduler.Scheduler.constructor` | runner/live_runner/scheduler.py:78-84 | for any configured index, all cards start empty, except that gemma's card, if the index is one of a card, starts as an idle resident copy of gemma |
| `GpuScheduler.Scheduler.PickIdleWarm` | runner/live_runner/scheduler.py:106-119 | finds a card iff one holds the worker idle, and then the least recently used one, lowest id on ties |
| `GpuScheduler.Scheduler.PickIdleGpu` | runner/live_runner/scheduler.py:232-239 | finds a card iff one is empty, and then the lowest, gemma's only if it is the only one |
| `GpuScheduler.Scheduler.PickLruVictim` | runner/live_runner/scheduler.py:241-256 | finds a victim iff the hook is wired and a card of another worker, not gemma's, exists; then the least recently used |
| `GpuScheduler.Scheduler.EvictSlot` | runner/live_runner/scheduler.py:123-142 | clears a card of another worker and calls the hook for that worker and card iff it was resident; otherwise changes nothing |
| `GpuScheduler.Scheduler.Claim` | runner/live_runner/scheduler.py:144-148 | exactly that card becomes a busy resident copy of the worker |
| `GpuScheduler.Scheduler.Acquire` | runner/live_runner/scheduler.py:198-230 | with atomic evictions, waits iff no rule applies; else returns the warm, else the empty, else the victim's card, evicts once in the last case and never otherwise, and changes exactly that slot |
| `GpuScheduler.Scheduler.AcquireGemma` | runner/live_runner/scheduler.py:178-196 | gemma's request gets its pinned card at once, touching only the time stamp, unless the card was marked evicted and another worker is on it; it fails iff the configured index, counted from the end when negative, names no card |
| `GpuScheduler.Scheduler.MarkGemmaLoaded` | runner/live_runner/scheduler.py:155-161 | gemma's card becomes an idle resident copy of gemma and the evicted mark goes; nothing without a gemma card, failure iff the configured one does not exist |
| `GpuScheduler.Scheduler.PickForWorker` | runner/live_runner/scheduler.py:258-296 | a boot-time pick takes the worker's first card even if busy, else the empty, else the victim's card, and leaves it idle |
| `GpuScheduler.Scheduler.WarmGpuOf` | runner/live_runner/scheduler.py:96-100 | the first card of the worker, or none iff it has none |
| `GpuScheduler.Scheduler.Release` | runner/live_runner/scheduler.py:298-308 | a card that belongs to another worker, or to none, stays as it is, and so does the map; one that belongs to the worker keeps it and stays warm, is idle, and was used now; no other card changes |
| `GpuScheduler.Scheduler.Reconcile` | runner/live_runner/scheduler.py:310-372 | the loops compute the slot-wise reconciled map: stale busy marks, then the last reporter, then unreachable owners |
| `GpuSlots.PlacementRules` | runner/live_runner/scheduler.py:106-119 | warm, empty and victim card each in plain terms of the slots: which cards qualify, the longest unused first, the lower card on ties, gemma's never a victim and the last resort among the empty ones |
| `GpuSlots.BlocksOnlyBehindItself` | runner/live_runner/scheduler.py:200-228 | a request waits iff every card but gemma's is busy with its own worker and gemma's is neither empty nor an idle copy of it |
| `GpuSlots.PlacementIsUnique` | runner/live_runner/scheduler.py:201-222 | the three placement rules exclude each other and name one card, and then the request does not wait |
| `GpuSlots.EvictionLeadsToVictim` | runner/live_runner/scheduler.py:218-222 | after the victim's card is cleared the next turn takes that very card, so at most one eviction happens |
| `GpuSlots.LastReporter` | runner/live_runner/scheduler.py:336-348 | a card is taken over iff some worker reports it, and by one that does |
| `GpuSlots.ReconciledCard` | runner/live_runner/scheduler.py:310-372 | worker, residence, busy mark and time stamp of a card after a report, field by field |
| `GpuSlots.ReconcileHeals` | runner/live_runner/scheduler.py:310-372 | afterwards owners but pinned gemma are reachable, reported cards belong to a reporter, no busy mark is new and none is left when nothing is in flight, and the map is consistent |
| `GpuSlots.ReconcileIsIdempotent` | runner/live_runner/scheduler.py:310-372 | a second identical report changes only time stamps |
| `SchedulerRuns.EveryStepKeepsMapConsistent` | runner/live_runner/scheduler.py:123-148 | under every interleaving a card has a worker iff resident and is busy only if resident |
| `SchedulerRuns.TruthfulReconcileKeepsOwners` | runner/live_runner/scheduler.py:335-372 | a truthful report moves no card between workers: owners stay, or are gone and hold no VRAM there |
| `SchedulerRuns.SafeStep` | runner/live_runner/scheduler.py:123-148 | each disciplined step keeps every card's VRAM within its slot's worker, eviction windows coherent and gemma pinned |
| `SchedulerRuns.HandoverNeedsEviction` | runner/live_runner/scheduler.py:128-140 | a card leaves a worker only after `evict_cb` for that worker and card returned, or the worker was found gone |
| `SchedulerRuns.ExclusiveStep` | runner/live_runner/scheduler.py:144-148 | each step under the stated assumptions keeps one unreleased request per card and busy iff held |
| `SchedulerRuns.ExclusiveAcquire` | runner/live_runner/scheduler.py:201-216 | a granted card was idle, is not gemma's, and is then held by that request alone |
| `SchedulerRuns.ExclusiveAcquireGemma` | runner/live_runner/scheduler.py:178-181 | gemma's requests share its card without touching the exclusivity of the others |
| `SchedulerRuns.ExclusiveRelease` | runner/live_runner/scheduler.py:298-308 | a holder's release finds its own worker on the card, and the card is then neither busy nor held |
| `SchedulerRuns.ReleaseSparesOthers` | runner/live_runner/scheduler.py:303-308 | with no discipline assumed, a release by a request whose worker no longer owns the card changes no slot |
| `SchedulerRuns.ExclusiveWithSameHolds` | runner/live_runner/scheduler.py:310-372 | evictions of idle cards, boot picks, loads, exits and reports leave exclusivity as it is |
| `SchedulerSafety.InitIsExclusive` | runner/live_runner/scheduler.py:78-84 | both invariants hold at the start |
| `SchedulerSafety.NoTwoModelsOnACard` | runner/live_runner/scheduler.py:123-148 | over every disciplined run no card ever holds two models |
| `SchedulerSafety.OneRequestPerCard` | runner/live_runner/scheduler.py:171-177 | over every run with idle victims, boot picks on idle cards, and holders that answer and are counted, each card but gemma's serves at most one unreleased request |
| `SchedulerSafety.HandoverIsPossible` | runner/live_runner/scheduler.py:218-222 | evicting the chosen victim and claiming its card is a run, and gives the waiting request that card |
| `SchedulerSafety.HandoverIsExclusiveIffVictimIdle` | runner/live_runner/scheduler.py:241-256 | handing the victim's card over keeps exclusivity iff the card was idle |
| `SchedulerSafety.ClaimIsUnsafeIffInWindow` | runner/live_runner/scheduler.py:132-148 | from every safe state, a request's or boot pick's claim has a continuation in which the card is not chosen for a further eviction, the claimer loads only where the map places it, and all else is disciplined, yet which ends with a model the map has forgotten, iff an eviction of that card is under way |
| `SchedulerSafety.SafeOutsideWindows` | runner/live_runner/scheduler.py:132-148 | after a claim outside every window no undisturbed continuation breaks co-residency |
| `SchedulerSafety.ClaimIsForgotten` | runner/live_runner/scheduler.py:132-140 | inside a window the late clear wipes the claim while the claimer's model stays and its request keeps the card |
| `SchedulerSafety.LostClaimIsReachable` | runner/live_runner/scheduler.py:218-222 | from the initial state: two requests choose one victim, and the second clear wipes the first one's claim |
| `SchedulerSafety.TwoRequestsOnOneCard` | runner/live_runner/scheduler.py:241-256 | from the initial state a busy victim leaves two unreleased requests on one card |
| `SchedulerSafety.StaleReleaseKeepsNewHolder` | runner/live_runner/scheduler.py:298-308 | two requests on one card after a busy eviction: the first one's release leaves every slot as it was, so the card stays busy for the second |
| `SchedulerLimits.EvictionIsUnsafeIffVictimBusy` | runner/live_runner/scheduler.py:123-142 | choosing a victim has a continuation, disciplined in all else, that breaks co-residency iff the victim's card is busy |
| `SchedulerLimits.BusyVictimBreaksCoResidency` | runner/live_runner/scheduler.py:241-256 | from the initial state, with no claim inside a window, a busy victim's reload is forgotten by the late clear |
| `SchedulerLimits.LoadIsUnsafeIff` | runner/live_runner/scheduler.py:123-148 | a load has a disciplined continuation that breaks co-residency iff the map does not place the worker there or an eviction has already freed the card |
| `SchedulerLimits.LateBootLoadBreaksCoResidency` | runner/live_runner/scheduler.py:258-283 | from the initial state, with an idle victim and no claim inside a window, a worker loads at the card it picked after the card went to another |
| `SchedulerLimits.ReconcileIsSafeIffReportsFit` | runner/live_runner/scheduler.py:335-372 | a reconciliation leaves every model with its card's owner iff each loaded card's last reporter is its owner and the owner answers or is pinned gemma |
| `SchedulerLimits.ReconcileIsExclusiveIff` | runner/live_runner/scheduler.py:328-372 | a truthful report keeps exclusivity iff the holders' workers answer and are counted in flight, gemma's card aside |
| `SchedulerLimits.PickIsExclusiveIffIdle` | runner/live_runner/scheduler.py:272-283 | a boot pick outside windows keeps exclusivity iff the card it lands on is idle |
| `EngineProtocol.ChildKeepsOutstanding` | runner/common/engineproc.py:79-97 | pumping, taking and answering neither lose nor reorder requests; exiting only drops the newest |
| `EngineProtocol.ReadingKeeps` | runner/common/engineproc.py:115-120 | a line taken off the queue is the current child's own, settles at most the oldest outstanding request, and is EOF only if the child is gone |
| `EngineProtocol.StartIsValid` | runner/common/engineproc.py:69-75 | the invariant holds at the start |
| `EngineProtocol.EveryLineIsCurrent` | runner/common/engineproc.py:128-155 | over every run, no line of any kind is read from a child other than the current one |
| `EngineProtocol.Inductive` | runner/common/engineproc.py:274-362 | every step of parent, pump or child keeps: nothing stale on the current child, finals tagged by child, past answers matched |
| `EngineProtocol.EveryReturnCorresponds` | runner/common/engineproc.py:262-348 | over every run each value returned by `run` is the current child's answer to that same request, and with the lock free no final is pending |
| `EngineFaults.FailedStartUsableIff` | runner/common/engineproc.py:123-163 | a call of `start` that spawns a child can fail and leave a proxy the next call uses iff an earlier child's ready mark is still set |
| `EngineFaults.FailedStartIsNotUsed` | runner/common/engineproc.py:413-414 | over every run in which no child reports its own failure, as the program's child loop never does, a failed `start` is never used |
| `EngineFaults.FailedStartIsUsed` | runner/common/engineproc.py:128-163 | from the initial state, with a child that does report its failure, it happens |
| `EngineFaults.CancelMisreadsIff` | runner/common/engineproc.py:243-362 | after every run, earlier cancellations included, cancelling the lock holder lets some later run return another request's answer iff the proxy is ready and its child alive with a good answer, given or due, where a reader comes to it |
| `EngineFaults.LeftoverMisreadsIff` | runner/common/engineproc.py:243-362 | the same from every state with the lock free |
| `EngineFaults.MovesKeepStructure` | runner/common/engineproc.py:271-362 | what holds of the system's states whatever was cancelled before |
| `EngineFaults.HarmlessRuns` | runner/common/engineproc.py:243-362 | from any leftover out of every reader's reach, runs of any length return only matching answers |
| `EngineFaults.CancelBeforeSendIsSafe` | runner/common/engineproc.py:274-287 | with no earlier cancelled call outstanding, cancelling while probing, draining or about to send never leads to a wrong answer |
| `EngineFaults.CancelledCallIsReachable` | runner/common/engineproc.py:271-348 | from the initial state the very first request can be cancelled so that a later `run` returns its answer |
| `EngineFaults.ReaderMisreads` | runner/common/engineproc.py:287-311 | a reader returns the first good final line within its reach, whoever asked for it |
| `EngineProc.EngineProc.ReadResult` | runner/common/engineproc.py:287-314 | returns the first final line or EOF whatever precedes it, relays each earlier progress line once, and gives up after 20000 lines |
| `EngineProc.FirstFinalComesBack` | runner/common/engineproc.py:287-314 | for every queue, the result loop hands back its first final or EOF, leaves what follows, and relays one line for each progress line before |
| `EngineProc.NoFinalComesBack` | runner/common/engineproc.py:287-314 | without one in 20000 lines it times out or gives up after 20000, having relayed each progress line once |
| `EngineProc.EngineProc.DrainStaleStdout` | runner/common/engineproc.py:243-260 | drops a prefix of at most 64 lines, stopping early only when nothing is left or after an EOF |
| `EngineProc.EngineProc.ProbeReady` | runner/common/engineproc.py:167-191 | the first handshake or EOF decides and is consumed with what precedes it: good iff it is a handshake that says ok, failed if it is EOF or another, late iff neither comes |
| `EngineProc.HandshakeDecides` | runner/common/engineproc.py:167-191 | good, failed and late handshakes in plain terms of the lines: ok ready first, EOF or a ready that is not ok first, neither at all |
| `EngineProc.EngineProc.EnsureStarted` | runner/common/engineproc.py:128-163 | a usable proxy is left alone; otherwise it answers true iff the first handshake or EOF line is an ok handshake, whose successors then are the queue; a late handshake stops the child, a bad one leaves it with the ready mark as it was |
| `EngineProc.EngineProc.StopUnlocked` | runner/common/engineproc.py:214-223 | no child, not ready, nothing left to read |
| `EngineProc.EngineProc.Run` | runner/common/engineproc.py:274-362 | with at most 64 harmless lines queued, or an ok handshake followed by such, the first final or EOF that arrives decides: a good final within 20000 lines gives its value and leaves what comes after it, anything else gives none; every failure leaves no child behind |
| `EngineProc.EngineProc.Ask` | runner/common/engineproc.py:283-362 | the same for the part after the proxy is usable: drain, write, read |
| `EngineProc.FinalDecides` | runner/common/engineproc.py:287-348 | the value of the first final or EOF line, if it is a good final within 20000 lines, else none |
| `EngineProc.SkippingIsReadSteps` | runner/common/engineproc.py:287-311 | skipping k lines in the result loop is k protocol steps |
| `EngineProc.RunChildLoop` | runner/common/engineproc.py:413-446 | the child says ready first, skips blank lines, and gives every job, in order, its progress lines and then exactly one final line with its own id and its handler's outcome |
| `EngineProc.TranscriptAnswers` | runner/common/engineproc.py:413-446 | in any transcript of the loop the finals are those of the jobs, one each and in order |
| `ClipSchedule.ComputeClipSchedule` | runner/idv2v/model.py:62-78 | windows of exactly n frames from 0 to the end, overlapping by one frame, the last by 1 to n-1 |
| `ClipSchedule.ScheduleTerminatesIff` | runner/idv2v/model.py:69-78 | the loop ends iff clips have at least two frames or there is nothing to split |
| `ClipSchedule.ScheduleIsUnique` | runner/idv2v/model.py:62-78 | a length and a clip size have one schedule |
| `ClipSchedule.StartsIncrease` | runner/idv2v/model.py:72-77 | starts strictly increase |
| `ClipSchedule.EveryFrameIsCovered` | runner/idv2v/model.py:62-78 | the windows jointly cover the video |
| `ClipSchedule.SpliceIsInside` | runner/idv2v/model.py:981-983 | a splice index lies in 1 to n-1 and names the next clip's own first frame |
| `ClipSchedule.SliceFrames` | runner/idv2v/model.py:81-88 | frames start to end, the last frame repeated past the end |
| `ClipSchedule.MaskFollowsConditions` | runner/idv2v/model.py:985-990 | condition and mask slices have equal length and show the same frame, black iff it is a keyframe |
| `ClipSchedule.GenerateClips` | runner/idv2v/model.py:978-1020 | each clip is the generator's answer to a job that holds the original input as reference; as first image the input for clip 0, and for clip j the frame of clip j-1 at the distance between their starts; and condition and mask frames from the clip's own start on |
| `ClipSchedule.Stitch` | runner/idv2v/model.py:1022-1030 | the result has exactly the scheduled length, and each frame is the frame for its place in the last clip that starts by then |
| `ClipSchedule.PlaceKeyframes` | runner/idv2v/model.py:964-967 | fails iff some index names no frame of some video; else each condition frame is the last keyframe given for it, else the original |
| `ClipSchedule.LastKeyframeWins` | runner/idv2v/model.py:964-967 | of several keyframes that name one frame, from the front or from the end, the last given is shown |
| `ClipSchedule.OtherFramesStay` | runner/idv2v/model.py:964-967 | a frame that no keyframe names is the original one |
| `ClipSchedule.Prepare` | runner/idv2v/model.py:955-967 | fails iff there is no video, an empty one, or a misfit index; else videos are cut to the frame cap, negative caps included, keyframes placed, and the mask black exactly at the indices given |
| `ClipSchedule.CapKeepsFront` | runner/idv2v/model.py:955-958 | a frame cap keeps that many from the front, a negative one drops that many at the end |
| `ClipSchedule.MaskMarksPlacedIff` | runner/idv2v/model.py:961-967 | the mask marks exactly the placed keyframes iff every place given by a negative index is also given by its own |
| `ClipSchedule.Infer` | runner/idv2v/model.py:1074-1143 | the whole inference for every clip size with which the schedule ends: fails iff it cannot work with its input; else the clips are fed as above, and the output has exactly the first video's capped number of frames, each the frame for its place in the last clip that starts by then |
| `ChunkedRender.ChunksPartition` | runner/idv2v/bernini.py:518-519 | chunk windows partition the video in order, 1 to 33 frames each |
| `ChunkedRender.PinIsFirstExport` | runner/idv2v/bernini.py:689-704 | the identity pin is the last valid frame of the first chunk that exports one, and never changes again |
| `ChunkedRender.NoPinWithoutExport` | runner/idv2v/bernini.py:689-704 | there is no pin iff no earlier chunk exported one |
| `ChunkedRender.PinIsChunkZeroIff` | runner/idv2v/bernini.py:559-559 | the pin is chunk 0's frame iff chunk 0 has frames and its export works |
| `ChunkedRender.GenerateChunked` | runner/idv2v/bernini.py:571-704 | every chunk gets its window and the anchor that is described without the loop: the previous chunk's last valid frames, the pin in place of the oldest |
| `ChunkedRender.AnchorChunk` | runner/idv2v/bernini.py:610-661 | a plan, a full set of references, or nothing: never a partial anchor |
| `ChunkedRender.ExportRefs` | runner/idv2v/bernini.py:634-647 | exactly min(cap, previous frames) references, whose tail are the last valid frames in order |
| `ChunkedRender.AnchorHasOneOrSix` | runner/idv2v/bernini.py:619-647 | one frame is taken on the 14B model and six on the small one, or all the chunk before has if fewer, the newest last; it has what its worker reported, or else its window of at most 33; without frames the chunk is unanchored |
| `ChunkedRender.AnchorRepeatsIffPinIsPrevious` | runner/idv2v/bernini.py:638-647 | an anchor repeats a frame iff its pin comes from the chunk just before |
| `JobProgress.ProgressStore.SetProgress` | runner/idv2v/run.py:261-280 | one record becomes the clamped rounded value; a preview survives until a terminal stage; others untouched |
| `JobProgress.ProgressStore.SetPreview` | runner/idv2v/run.py:283-295 | a preview is attached or cleared and nothing else changes |
| `JobProgress.RoundsToNearestEven` | runner/idv2v/run.py:270-272 | rounding goes to the nearest whole number, and from the middle to the even one |
| `JobProgress.Round4IsNearest` | runner/idv2v/run.py:270-272 | a stored value is a multiple of 1/10000 within 1/20000 of the exact one |
| `JobProgress.FractionIsMonotone` | runner/idv2v/server.py:665-670 | the shown fraction rises with the steps and stays in 0.05 to 0.95 after both roundings |
| `JobProgress.FractionShowsStep` | runner/idv2v/server.py:665-670 | the bar for a step is the multiple of 1/10000 nearest to 0.05 plus 0.9 times its share of all steps |
| `JobProgress.BarAtChunkBoundary` | runner/idv2v/bernini.py:583-588 | the shown, rounded bar never falls at a chunk boundary within the first report's count; falls when the overrun exceeds a 9000th of all steps; with at most 9000 steps falls iff the count is exceeded |
| `JobProgress.SmallOverrunIsHidden` | runner/idv2v/bernini.py:671-677 | an overrun of one step in 20000 leaves the shown bar where it is |
| `JobProgress.Emit` | runner/idv2v/server.py:657-679 | previews change the preview and no value; steps set the value, step and total they mean, and a chunk announced without steps 0.05 |
| `JobProgress.RunReport` | runner/idv2v/bernini.py:667-677 | exactly one value is shown for a report: the multiple of 1/10000 nearest to 0.05 + 0.9 (k n + s) / (c n), and the record carries step k n + s of c n |
| `JobProgress.RunChunk` | runner/idv2v/bernini.py:662-682 | the first report of the job fixes the step count; each report of the chunk shows one such value, and they keep rising |
| `JobProgress.Announce` | runner/idv2v/bernini.py:579-591 | announcing a chunk shows one value, 0.05 before any report and else that of k n steps, and never lowers the bar |
| `JobProgress.RunJob` | runner/idv2v/server.py:615-698 | a successful job shows 0.02, 0.05, one value for each announcement and each report, 0.97 and 1; each is the multiple of 1/10000 nearest to its cumulative share, at its own place in the list; they never fall, and stay at most 0.95 while rendering |
| `TiledDecode.StartsCover` | runner/image/flux_edit.py:91-104 | the clamped tiles cover every latent row or column |
| `TiledDecode.StartsAre` | runner/image/flux_edit.py:91-104 | the starts are exactly 0, the multiples of the stride short of the last tile's start, and that start |
| `TiledDecode.WeightIsRamp` | runner/image/flux_edit.py:112-125 | a tile's weight along an axis in plain terms: it rises in equal steps from 0 over 16 pixels for each latent of overlap, at most half the span, is 1 between, and falls as it rose |
| `TiledDecode.InteriorRowIsInsideATile` | runner/image/flux_edit.py:91-111 | every pixel line but the outermost lies strictly inside a tile |
| `TiledDecode.WeightIsAtLeastRampStep` | runner/image/flux_edit.py:112-125 | off its own ends a tile weighs at least one step of its actual ramp, and exactly that one pixel in |
| `TiledDecode.InnerWeightIsAtLeastCorner` | runner/image/flux_edit.py:112-127 | for every overlap of at least 1 the total weight of an inner pixel is at least the number of corner tiles times one step of each ramp, which is the weight next to the corner |
| `TiledDecode.NoInnerFloorIff` | runner/image/flux_edit.py:91-130 | for every overlap, no inner pixel's weight is floored iff the product of the ramps is at most a million times the number of tiles at the corner |
| `TiledDecode.DefaultOverlapNeedsNoFloor` | runner/image/flux_edit.py:66-130 | that holds for overlaps of 1 to 62 |
| `TiledDecode.InteriorPixelIsAnAverage` | runner/image/flux_edit.py:126-130 | when it holds every inner pixel lies between any bounds on the clamped values of the tiles that give it weight, hence equals their common value |
| `TiledDecode.CornerPixelIsDarkened` | runner/image/flux_edit.py:126-130 | when it does not, the pixel next to the corner comes out below the value all tiles agree on |
| `TiledDecode.PictureIsReproduced` | runner/image/flux_edit.py:85-131 | when the decoder shows a picture, each tile its part of it, every inner pixel comes out as the picture's, cut to [-1, 1], if no inner weight is floored |
| `TiledDecode.OutermostLinesAreZero` | runner/image/flux_edit.py:117-130 | the outermost lines get no weight and come out as 0 |
| `TiledDecode.TakeOut` | runner/image/flux_edit.py:101-104 | the sums do not depend on the order in which the sets of starts are visited |
| `TiledDecode.TiledDecode` | runner/image/flux_edit.py:85-131 | each pixel is the weighted sum over all tiles divided by the floored total weight; and for every picture the decoder shows, each inner pixel is that of the picture cut to [-1, 1] when no inner weight is floored |
| `TiledDecode.AddTile` | runner/image/flux_edit.py:105-127 | adds one tile's block in place and leaves every other pixel's sum alone |
| `DebitAccount.AbsorbsLongestPrefix` | src/balance.ts:69-82 | with positive values one read absorbs exactly the longest oldest-first prefix it can pay for |
| `DebitAccount.PruningDropsExpired` | src/ledger.ts:336-339 | a row stays, in its place, iff it is not older than the cutoff; the value of one that goes counts as pruned |
| `DebitAccount.RecordingAddsOnce` | src/index.ts:489-512 | a debit is appended and counted iff no outstanding row has its request id; the first call alone sets baseline and seed, to 0 when the total could not be read |
| `DebitAccount.ReadTakesOldest` | src/balance.ts:64-84 | without a baseline a read changes nothing; with one it takes exactly as many of the oldest rows as the advance pays for, none when the total fell, and the baseline becomes the total |
| `DebitAccount.ExpiredRowIsNotPaid` | src/balance.ts:56-103 | the oldest row, when expired, is pruned before anything is absorbed: with or without it a read leaves the same rows and absorbs the same |
| `DebitAccount.PruningConserves` | src/ledger.ts:336-339 | pruning keeps recorded = absorbed + pruned + pending |
| `DebitAccount.ReadIsSafeIffNotFalling` | src/balance.ts:64-84 | for given rows and baseline, every conserved account stays conserved iff the total read is not below the baseline |
| `DebitAccount.AbsorbedWithinUpMoves` | src/balance.ts:56-103 | over every run, whatever the totals do, absorbed is at most the sum of their upward moves between reads |
| `DebitAccount.FallingTotalAbsorbsTwice` | src/balance.ts:64-84 | a run from a new account in which one advance pays for two debits, because the total was read as 0 in between |
| `DebitAccount.RecordingConserves` | src/index.ts:489-512 | recording keeps conservation, seeding and duplicates included |
| `DebitAccount.RunsConserve` | src/balance.ts:56-103 | over every run with a non-decreasing total, absorbed is at most consumed minus the seed, so pending is at least recorded minus pruned minus that advance |
| `DebitAccount.LeftInTwo` | src/balance.ts:64-84 | one read of two advances equals two reads if the slack of the first were kept |
| `DebitAccount.SlackIsLessThanNextRow` | src/balance.ts:74-80 | what one read leaves over is less than the next row |
| `DebitAccount.EarlierReadIsHarmlessIff` | src/balance.ts:77-83 | an earlier read changes nothing for any later advance iff it had no slack or left no row |
| `DebitAccount.SmallAdvancesAbsorbNothing` | src/balance.ts:77-83 | advances that each stay below the oldest row absorb nothing however far they add up: only the baseline moves |
| `DebitAccount.EarlierConsumptionPaysUnlessSeeded` | src/index.ts:484-507 | after any first debits, a read leaves what the advance over the seed does not pay for; at an unchanged total nothing is absorbed iff the seeding read worked or the whole total is below the first debit |
| `DebitLedger.Ledger.ListOptimisticDebits` | src/ledger.ts:323-330 | exactly the user's rows, oldest first |
| `DebitLedger.Ledger.PruneOptimisticDebits` | src/ledger.ts:336-339 | the user's account is pruned, no other account changes |
| `DebitLedger.Ledger.SumOptimisticDebits` | src/ledger.ts:345-352 | prunes and returns what is pending |
| `DebitLedger.Ledger.RecordOptimisticDebit` | src/ledger.ts:306-321 | inserted iff no outstanding row of the user has the request id; negative values count as 0 |
| `DebitLedger.Ledger.RecordForUser` | src/index.ts:489-512 | seeds the baseline on the first call and records, in the one account |
| `DebitLedger.Ledger.SignTicket` | src/index.ts:428-431 | records the floor of a fee of at least 1 micro under a non-empty request id, and otherwise nothing; rows stay positive |
| `DebitLedger.Ledger.ResolveUserBalance` | src/balance.ts:56-103 | the user's account is resolved, others unchanged, and the balance shown is the authority less the surviving rows, never below 0 |
| `DebitLedger.Ledger.Absorb` | src/balance.ts:68-82 | the deleting loop does to the account what absorption of the prefix does |
| `DebitLedger.Ledger.DeleteOldest` | src/balance.ts:74-76 | deleting a row by id takes the user's oldest row and no one else's |
| `DebitLedger.RowByRowAbsorbs` | src/balance.ts:71-81 | going row by row leaves what the prefix leaves |
| `DebitLedger.PruneAccounts` | src/ledger.ts:336-339 | filtering the shared table prunes one account and no other |
| `DebitLedger.InsertAccounts` | src/ledger.ts:306-321 | appending to the shared table extends one account and no other |
| `DebitLedger.DeleteAccounts` | src/ledger.ts:332-334 | deleting one id from the shared table shortens one account and no other |
| `Nvfp4.BuildE2m1Table` | runner/idv2v/nvfp4.py:48-59 | the loop builds the value of each nibble's sign, exponent and mantissa |
| `Nvfp4.TableValues` | runner/idv2v/nvfp4.py:40-62 | the table is plus and minus 0, 0.25, 1, 1.5, 2, 3, 4, 6 |
| `Nvfp4.ArgMinIsNearest` | runner/idv2v/nvfp4.py:127-129 | the chosen place is nearest, and the first of those |
| `Nvfp4.NearestIsWithinOne` | runner/idv2v/nvfp4.py:120-130 | up to 6 the chosen value is within 1, and exactly 1 away iff the magnitude is 5 |
| `Nvfp4.NearestIsMonotone` | runner/idv2v/nvfp4.py:125-130 | the chosen value never falls when the element rises |
| `Nvfp4.NibbleOfValue` | runner/idv2v/nvfp4.py:159-168 | each value keeps its nibble and its meaning, except that zero is stored as nibble 8 |
| `Nvfp4.ErrorBound` | runner/idv2v/nvfp4.py:120-130 | an element of a block comes back within one block scale, exactly one iff it is 5/6 of the maximum, and the maximum comes back exactly |
| `Nvfp4.ScaleIsStable` | runner/idv2v/nvfp4.py:120-123 | quantizing what came back chooses the same scale, all-zero and tiny blocks included |
| `Nvfp4.ValuesAreStable` | runner/idv2v/nvfp4.py:123-130 | and the same values |
| `Nvfp4.PackingRoundTrip` | runner/idv2v/nvfp4.py:139-147 | unpacking the packed bytes gives the nibbles |
| `Nvfp4.PackedByte` | runner/idv2v/nvfp4.py:139-147 | a byte holds the even element in its low half and the odd one in its high half |
| `Nvfp4.LayoutRoundTrip` | runner/idv2v/nvfp4.py:84-99 | each position comes back as its element's chosen value times its own block's scale |
| `Nvfp4.RowErrorBound` | runner/idv2v/nvfp4.py:74-156 | the error bound holds for every position of a row through packing and back |
| `Nvfp4.ElementWithinSixth` | runner/idv2v/nvfp4.py:74-156 | when no element of a block exceeds m, at least 1e-12, each comes back within m/6, and one as large as m exactly |
| `Nvfp4.QuantizingIsIdempotent` | runner/idv2v/nvfp4.py:74-156 | quantizing a restored row gives the same bytes and the same scales |
| `Base64.AlphabetIsRfcTable` | src/jobs.ts:73 | the alphabet is the table of RFC 4648, its symbols distinct and none of them padding |
| `Base64.Encode` | src/jobs.ts:75-88 | the loop produces the encoding of section 4 of RFC 4648, by 24-bit groups with padding |
| `Base64.CharactersCarryBytes` | src/jobs.ts:75-88 | the four characters of a group, as digits of base 64, are the number its bytes are as digits of base 256, missing ones as zero; padding stands where no byte reaches |
| `Base64.EncodedLength` | src/jobs.ts:78-86 | the output has 4 * ceil(n / 3) characters |
| `Base64.Decode` | src/jobs.ts:90-103 | the loop decodes the input without its trailing padding, group by group, bad characters included |
| `Base64.FourCharactersDecode` | src/jobs.ts:90-103 | every byte decoded from any four characters, those outside the alphabet or missing standing for all bits set |
| `Base64.RoundTrip` | src/jobs.ts:73-103 | decoding the encoding of any bytes returns them |
| `Base64.EncodingIsCanonical` | src/jobs.ts:75-88 | every encoding is canonical: padding only at the end and no stray bits |
| `Base64.ReencodesIffCanonical` | src/jobs.ts:90-103 | a string survives decoding and encoding again iff it is canonical |
| `LoraAlgebra.ThroughProduct` | runner/idv2v/bernini_fp8.py:124-125 | passing an input through the down and up matrices is passing it through their product |
| `LoraAlgebra.ZeroGivesBias` | runner/idv2v/bernini_fp8.py:110-163 | for a zero input the running layer gives its bias |
| `LoraAlgebra.UnitGivesWeight` | runner/idv2v/bernini_fp8.py:110-163 | a 1 at input j moves output i by scale times weight, plus alpha times up row times down column, plus the full delta's entry, both only with a down matrix |
| `LoraAlgebra.MergedAt` | runner/idv2v/bernini_fp8.py:110-129 | merged and running outputs differ by the full delta of a layer without a down matrix, and by nothing else |
| `LoraAlgebra.RuntimeEqualsMergedIff` | runner/idv2v/bernini_fp8.py:155-163 | the layer computes x (W + alpha B A + full)^T + b for every x iff a down matrix is attached or there is no full delta to lose |
| `LoraAlgebra.PathsAgree` | runner/idv2v/bernini_fp8.py:136-149 | without rounding the scaled path equals the dequantizing path for every activation scale |
| `LoraAlgebra.PaddedProductKeepsCorner` | runner/idv2v/bernini_fp8.py:167-187 | the corner of the zero-padded product is the product |
| `TurboToggle.RemovingUndoesAttaching` | runner/idv2v/bernini_lora.py:250-289 | restoring a layer after applying gives back exactly the layer |
| `TurboToggle.TurboComputesMergedIff` | runner/idv2v/bernini_lora.py:254-267 | with the adapter on a layer computes its merged weights iff the slot has a down matrix or no full delta |
| `TurboToggle.FP8Linear.Attach` | runner/idv2v/bernini_lora.py:254-267 | fields the slot lacks keep their values; the strength times the rank is the slot's alpha, or 1 without a down matrix; each bias entry gains its delta |
| `TurboToggle.FP8Linear.Remove` | runner/idv2v/bernini_lora.py:277-286 | the adapter fields are cleared and each bias entry loses its delta |
| `TurboToggle.TurboLora.constructor` | runner/idv2v/bernini_lora.py:245-247 | loading records the base state of layers and parameters and leaves them as they are |
| `TurboToggle.TurboLora.Apply` | runner/idv2v/bernini_lora.py:250-272 | afterwards everything is exactly base plus the adapter; nothing is added twice |
| `TurboToggle.TurboLora.Restore` | runner/idv2v/bernini_lora.py:274-289 | afterwards everything is exactly base; nothing is taken away twice |
| `TurboToggle.Handle` | runner/idv2v/bernini_cli.py:378-426 | a job renders iff it has prompt and output and is not plan-only; the adapter is then on iff it asks for turbo; its step count is its own, else 4 for a turbo render, else unchanged; jobs that end early leave the adapter alone |
| `TurboToggle.HandleAll` | runner/idv2v/bernini_cli.py:417-426 | after any job sequence layers and parameters are exactly base or exactly base plus the adapter, as the last render asked |
| `TurboToggle.EachRenderRunsAsAsked` | runner/idv2v/bernini_cli.py:417-426 | in every sequence each render runs with the adapter as it asks and with its own steps, else 4 with turbo, else those left by earlier jobs |
| `TurboToggle.OnIffLastRenderTurbo` | runner/idv2v/bernini_cli.py:417-424 | the adapter is on iff the last render asked for turbo |
| `TurboToggle.StepsComeFromLastWrite` | runner/idv2v/bernini_cli.py:192-202 | the step count is whatever the last job that wrote one left |
| `TurboToggle.NativeKeepsDefaultIff` | runner/idv2v/bernini_cli.py:425-426 | among jobs that name no step count, a native job runs with the default iff no earlier render was turbo |

## Left out

- GPU scheduler: queue timeouts, fairness and wake-ups of waiting requests. `GpuScheduler.Scheduler.Acquire` is one pass up to the decision to wait; no liveness is claimed, because `reconcile` frees cards without notifying.
- Eviction failures: the runner swallows them (`runner/live_runner/server.py:1063-1067`), so that a returned `evict_cb` freed the VRAM is an assumption of the runs, as are truthful reports and loads only where the map places a worker.
- The lock drop inside one `acquire` is modelled in the runs only; the object's methods take an eviction as one step.
- Exclusivity of gemma's own card: its requests do not mark it busy, so several may hold it.
- The runs take a configured gemma card to exist; the scheduler object takes any index.
- Engine protocol: stderr, process signals, deadlines as clock values, and JSON lines of other kinds from a child; the model assumes lines are noise, progress, ready or one final per request. Cancellation is excluded from the main result and treated separately.
- Clip generation: the models, image resizing and seeds; generators are any function returning clips of exactly n frames. That `infer` overwrites keyframes in the caller's own lists when no frame cap is given is not captured.
- The staged and the plain inference path repeat the same loop in the source; it is modelled once, for any generator, so that they agree is not a separate result.
- Chunked rendering: ffmpeg, frame export, concatenation and failed chunks; exports fail or succeed by a parameter.
- Progress: messages, other event kinds, and jobs that fail or time out.
- TiledDecode.TiledDecode: one colour channel stands for the three, which the source treats alike.
- Optimistic debits: concurrent calls of one user, SQL, number formats beyond 2^53, the spend history and the parsing of usage snapshots.
- NVFP4: rows whose width is not a multiple of 16, which the dequantizer cannot reshape, and rounding of scales to bfloat16.
- Base64: the UTF-8 conversion on either side, which is the platform's; characters beyond the Basic Multilingual Plane, which the source sees as two code units, and lone surrogates; the alphabet is a parameter of both methods with the source's as default.
- LoRA: rounding of fp8 and bf16 values, devices, convolutions, checkpoint key mapping, and a checkpoint that holds a down matrix without its up matrix, which fails in the source.
- TurboToggle.Handle: rendering itself, plans, and all other per-job parameters, which persist between jobs like the step count.
- HTTP, SSE, registration, authentication, billing calls and media decoding are plumbing around these parts.
