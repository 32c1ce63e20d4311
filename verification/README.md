# Verified models of the parts of Topics that must not go wrong quietly

A Dafny project that models the stateful and numerical cores of the repository's scripts and
server, and proves what their comments and tests promise. `dafny verify dfyconfig.toml` checks it.
Where a promise does not hold, the model keeps the code as it is, exhibits an input and states
exactly when the promise does hold (see "What turned out not to hold").

## What is modelled

**Publishing a client bundle** (`scripts/build-client-publish.ts`, with the reachability walk of
`server/lib/client-bundle.ts`).
`ClientBundle` is the walk over cited file names, as a worklist proved to compute a least fixpoint.
`Generations` is the record of published generations: ranking, cutting to forty and to three days,
against an untruncated history. `CrashedPublishes` is what that record loses when publishes crash
between flip and record. `PublishProtocol` is the publish as a program counter over a shared
directory: every read, rename and delete is one step, any number of publishers interleave and crash
anywhere. `PublishRetention` is the sequential case, `PublishHistory` reads every sequential run of the
protocol as a list of attempts and carries the results on the record over to such runs, `PublicDirectory` the same publish as a method
that updates the directory in place and whose effects are one order of the protocol's steps, and
`PublishRace` a concrete run.

**The off-disk backup** (`scripts/backup-offsite.ts`). `OffsiteBackup`: a nightly copy that may die
between any two effects or leave any bytes in its slot, the receipt it leaves, the check that later
trusts the receipt, the week of slots, the wait for ssh.

**Three event machines of the server** (`server.ts`). `Screencast`: one viewer's starts and stops
under any interleaving of its events. `BootHolds` and `Reattach`: the sessions held at boot, and the
pass that adopts or ends what the broker kept. `Quiescence`: the wait of a planned restart and the
dispatcher's door. What these regions ask of other modules is arbitrary in the model.

**Statistics** (`scripts/board-baseline.ts`). `Quantiles`, `Bootstrap`, `SampleSummary`,
`CliffsDelta`, `Sittings`: over exact reals, with the 32-bit arithmetic of the generator written out
(`Int32`). `StableSort` is the language's own sort.

**Measured runs** (`scripts/board-arms.ts`). `ArmValidator` reads possibly malformed JSON and lists
every problem; `ArmCollector` writes a bundle; `PairFiles` cuts it into rounds again.

**Merging project identities** (`scripts/canonicalizza-progetti.ts`). `Canonicalize`: the first
phase, over tables updated in place, with the two path hashes of `shared/board.ts` and
`shared/project-keys.ts` written out.

## What turned out not to hold

- "There is no instant at which the served directory is not a complete bundle" holds at an instant if
  and only if no file of the bundle on display is lost: deleted by a sweep, before or after the flip,
  and not copied since (`PublishProtocol.ServedWholeExactlyWhenNothingIsLost`, for every run of built
  bundles, no care asked of anybody). Two runs of fifteen steps lose one. In
  `PublishRace.AReachableRaceBreaksTheBundle` a copy lands between another publisher's age test and its
  delete, which are two calls, and the flip comes after the delete; in
  `PublishRace.ALateDeleteBreaksTheServedBundle` the flip comes before it, so that a whole bundle is on
  display and then is not. A publish longer than the sweep age, or a file date that goes back, gets
  there too. With none of the three, which is what a caller can see to, no instant is broken
  (`PublishProtocol.AlwaysACompleteBundle`).
- A bundle that windows may be running is not always recorded. When publishes crash between flip and
  record, the next one knows the old record and the last flipped bundle, nothing else. A bundle that
  was on display before and that the record does not name is forgotten though windows run it (two
  crashes in a row, or one over a plain build, are enough:
  `CrashedPublishes.AnUnrecordedBundleIsForgotten`), and a flipped bundle that the record calls a
  replaced one keeps its old date. A bundle that keeps its life can still lose files: a completed
  publish records all that was staged, and after a crash the bundle has the files of its old entry, or
  those that can be reached on disk. A staged file that nobody cites is then owned by nobody
  (`PublishHistory.AnUncitedFileIsForgotten`), and so are the new files of a republish with the same
  references. No other life and no other file is lost
  (`CrashedPublishes.ALifeSurvivesCrashesExactlyWhen`, over any number of crashes;
  `PublishHistory.CrashesInARunCostExactly` anywhere in a run).
- The reachability walk is not monotone in the files on disk: a file with the basename of a
  reachable one hides it (`ClientBundle.SharedBasenameHidesAFile`). It loses nothing if and only if
  every new file that takes over the basename of old ones leads to them
  (`ClientBundle.TheWalkGrowsExactlyWhen`). Content-hashed names exclude the case.
- "No screencast under a host" holds of the deferred start and of a resume after a pause. A viewer that
  never paused and was not started yet is started under a host by the first `set_stream: true` it sends,
  and only such a one (`Screencast.AStartUnderAHostExactlyWhen`).
- The restart wait that expires (a chat that comes back is cut) does not close the dispatcher's
  door: it is open exactly when a chat holds (`Quiescence.RestartGate.RunWait`).
- "A card cannot start in the gap between nothing holds and the shutdown" holds of what the dispatcher
  starts. The look leaves out cards parked on the server's own checks and cards whose turn comes back
  after a restart, and the drain keeps neither kind from counting again (a check command starts, a turn
  no longer survives) nor a land from being queued: a wait ends quietly with a card holding exactly
  when one of these happens behind its last look (`Quiescence.WhoHoldsAtAQuietEnd`,
  `Quiescence.ACardLeftOutCanHoldAtAQuietEnd`).
- An adopted session that startup had put among the resume holds loses its hold to the resume
  sweep's decision before its leg ends (`BootHolds.AdoptedResumeSessionIsFreedByTheDecision`).
- `emitPairFiles` never ends on an empty head triple with replicates
  (`PairFiles.GroupingEndsExactlyWhen`); on a bundle without problems it does
  (`PairFiles.AcceptedBundlesAreCutInTheEnd`). A bundle
  whose later folders are incomplete can be without problems and still be cut into groups that mix
  two rounds (`PairFiles.AcceptedRoundsCanBeMixed`); and the validator does not miss a `replicates`
  list that the emitter reads without looking (`PairFiles.MissingReplicatesAreNoProblem`).
- The identity merge deletes a project's only UI row when the two paths share a hash, as `/Aa/p`
  and `/BB/p` do (`Canonicalize.ALinkThatLosesItsLayout`), and the order of the cases decides what a
  key without a row gets when two links to one project bring different ones
  (`Canonicalize.OrderMattersExactlyForRivals`). Every task of a merged board ends on the real path's
  board, in whatever order the cases come, if and only if the boards agree
  (`Canonicalize.TasksArriveExactlyWhenBoardsAgree`).

Where a comment and the code differ on a formula the model follows the code: the path hash is called
h * 33 + c and is 31 times h plus c (`Canonicalize.HashIsBaseThirtyOne`).

## Model

| member | source | states |
|---|---|---|
| ClientBundle.UnreachableAssets | server/lib/client-bundle.ts:114-157 | the worklist removes exactly the files that no chain of citations from the roots reaches and that are no precompressed sibling of a reached one |
| ClientBundle.ReachableByAChain | server/lib/client-bundle.ts:117-148 | what is reached is what a chain of citations from a root ends at, every name standing for the file of that path or else for the files of that last part |
| ClientBundle.SiblingsShareTheFate | server/lib/client-bundle.ts:99-157 | a `.br` and a `.gz` file is alive with the file it encodes, and nothing else is alive that is not reached |
| ClientBundle.RootsAsWritten | server/lib/client-bundle.ts:134 | a root is taken without a leading `/assets/` or `assets/`, and as it is otherwise |
| ClientBundle.BaseIsTheLastPart | server/lib/client-bundle.ts:117-123 | the index of names is by what follows the last slash |
| ClientBundle.ReachableCovers | server/lib/client-bundle.ts:125-148 | what is reachable holds the roots and is closed under citation |
| ClientBundle.AliveSurvives | server/lib/client-bundle.ts:114-157 | with unique basenames, a bundle alive in its own tree stays alive in any directory that holds its files |
| ClientBundle.SharedBasenameHidesAFile | server/lib/client-bundle.ts:117-133 | without unique basenames adding a file makes a reachable one unreachable |
| ClientBundle.TheWalkGrowsExactlyWhen | server/lib/client-bundle.ts:117-148 | with more files that cite at least as much, the walk loses nothing from any roots if and only if every new file named like the basename of old ones leads to them |
| Generations.TruncationIsInvisible | scripts/build-client-publish.ts:149-155 | cutting the record before the next publish changes nothing in what that publish or any later moment keeps: a dropped entry never comes back by rank or by age |
| Generations.RecordRefinesFullHistory | scripts/build-client-publish.ts:215-232 | from any list with one entry per bundle, for strictly later publishes of new or repeated bundles, the bounded record equals what remembering everything would keep, at that publish and ever after |
| Generations.KeptTwiceIsKeptOnce | scripts/build-client-publish.ts:149-162 | cutting a cut record at the same instant changes nothing, so the gate and the sweep read one set |
| Generations.KeptLater | scripts/build-client-publish.ts:149-162 | cutting now and again later is cutting later only |
| Generations.KeptMembers | scripts/build-client-publish.ts:149-155 | at most forty generations are kept, each from the list and within its three days |
| Generations.ServedIsRecorded | scripts/build-client-publish.ts:195-198 | right after a publish its generation leads the record, and the next publish finds what is served recorded |
| CrashedPublishes.KeptForThreeDaysAmongForty | scripts/build-client-publish.ts:149-155 | nobody replaced 259200000 ms ago or outranked by forty is kept, and everybody in date is whom fewer than forty outrank or tie with; still served ranks before replaced, later replaced before earlier, later published before earlier |
| CrashedPublishes.WhatAPublishWrites | scripts/build-client-publish.ts:215-232 | its own bundle first, as published now and served; then bundles of the list with their own references, dates of publication and files, replaced when they were or else now; everyone in date whom fewer than thirty-nine others can outrank is among them |
| CrashedPublishes.ARecordIsFitForTheNext | scripts/build-client-publish.ts:215-232 | every record a publish writes has one entry per bundle, one of them served, the others replaced before any later publish |
| CrashedPublishes.WhatTheNextPublishKnows | scripts/build-client-publish.ts:193-232 | with a record on disk and a bundle on display, for every bundle: it is recorded as replaced now if and only if the record calls it served, or it is the displayed one and unnamed; a bundle called replaced keeps that entry or none; one neither named nor displayed has no entry |
| CrashedPublishes.CrashedBundleIsRecordedUnlessItIsAnOldOne | scripts/build-client-publish.ts:193-198 | after a crash between flip and record, the next publish records the live bundle as replaced now if and only if no entry calls it a replaced generation |
| CrashedPublishes.CrashedOldBundleLosesItsRetention | scripts/build-client-publish.ts:193-232 | in the other case, past three days from the stale date, the bundle that was live is not kept |
| CrashedPublishes.ShownBeforeTheCrashIsKeptIffNamed | scripts/build-client-publish.ts:193-232 | a bundle displayed before the crashed publish still has an entry after the next one if and only if the record names it |
| CrashedPublishes.AnUnrecordedBundleIsForgotten | scripts/build-client-publish.ts:193-232 | over a bundle no publish recorded, a completed publish records it and a crashed one leaves it out of the next record |
| CrashedPublishes.UntouchedIsKept | scripts/build-client-publish.ts:149-155 | an entry the crashed publishes did not concern ranks no lower without them |
| CrashedPublishes.ALifeSurvivesCrashesExactlyWhen | scripts/build-client-publish.ts:193-232 | any number of publishes crash between flip and record, then one completes: a generation it would keep had all completed has an entry replaced no earlier, if and only if it is its own or not among the bundles the crashes cost, the join of the bundle on display included; and one that owns all its files, if and only if, besides, what its last crashed publish staged is within the record's entry or, when unnamed, what was read off the display |
| CrashedPublishes.CrashNeverShortensALife | scripts/build-client-publish.ts:193-232 | one crash, over a recorded or empty display and not of an old bundle, shortens no life, and takes no file from any but the bundle it flipped |
| CrashedPublishes.CrashOfAnOldBundleSparesTheOthers | scripts/build-client-publish.ts:193-232 | one crash costs at most the bundle it flipped and an unrecorded one on display: every other keeps its life and its files |
| PublishProtocol.EveryStepKeeps | scripts/build-client-publish.ts:189-270 | every atomic step of any publisher, crashes and clock included, keeps the invariant of the served directory |
| PublishProtocol.AlwaysACompleteBundle | scripts/build-client-publish.ts:1-40 | under every careful interleaving of any number of publishers with crashes anywhere, at every instant index.html is a built bundle's own with its whole closure on disk, and no publisher finds its result broken |
| PublishProtocol.ServedWholeExactlyWhenNothingIsLost | scripts/build-client-publish.ts:1-40 | at every instant of every run of built bundles, whatever the timing, dates and crashes, the served directory is whole if and only if no file of the bundle on display was deleted and not copied since |
| PublishProtocol.ServedWholeMeans | scripts/build-client-publish.ts:1-40 | served whole means the bundle's own sound page, its files beside the page, and whatever a chain of citations leads to, in every encoding the build emitted |
| PublishProtocol.ACrashCanComeAnywhere | scripts/build-client-publish.ts:189-270 | a publisher can die before any of its steps, leaves the directory as it is and takes no other step |
| PublishProtocol.NoDeadFileIsOverlooked | scripts/build-client-publish.ts:257-268 | a sweep that ran through, among any number of publishers, examined every file its listing found dead: spared exactly if the record owns it, it is gone or it is younger than 1800000 ms |
| PublishProtocol.EverythingWasStaged | scripts/build-client-publish.ts:189-206 | at every instant of every run, every file's text, every file beside index.html and index.html itself were there at first or were staged under that name |
| PublishProtocol.OnlyTheCondemnedGo | scripts/build-client-publish.ts:257-268 | a file leaves the disk only by the delete of a publisher that condemned it, alone |
| PublishProtocol.ADeleteBetweenCopyAndFlipBreaksTheBundle | scripts/build-client-publish.ts:257-267 | in any run, a needed file deleted between its copy and its copier's flip, and not copied again, leaves a broken directory |
| PublishProtocol.MissingMeansDeleted | scripts/build-client-publish.ts:257-267 | a file that was on disk and is missing was deleted by a sweep since, and not copied after that |
| PublishRace.AReachableRaceBreaksTheBundle | scripts/build-client-publish.ts:257-267 | such a run exists from a whole directory, every other event of it being careful |
| PublishRace.ALateDeleteBreaksTheServedBundle | scripts/build-client-publish.ts:257-267 | and one in which the flip comes before the delete: the directory is whole, then it is not |
| PublishRetention.StepKeepsTheRecordOnDisk | scripts/build-client-publish.ts:189-270 | no step of the publisher at work takes a recorded file off the disk |
| PublishRetention.RecordedGenerationsStayOnDisk | scripts/build-client-publish.ts:232-268 | over every run of sequential publishes with crashes anywhere, every file of every recorded generation is on disk |
| PublishHistory.RunsAreAttempts | scripts/build-client-publish.ts:189-270 | every sequential run of the protocol with crashes anywhere leaves the record that its list of attempts makes, in clock order, with the last flipped bundle on display |
| PublishHistory.EveryRecordIsFit | scripts/build-client-publish.ts:189-270 | in every such run the record has one entry per bundle, at most one served, the others replaced in the past |
| PublishHistory.CompletedRunsRefineFullHistory | scripts/build-client-publish.ts:192-232 | when all attempts complete the record is the whole history cut, the bundle on display at first joined |
| PublishHistory.ARecentBundleHasItsFiles | scripts/build-client-publish.ts:189-270 | after every sequential run whose attempts completed, a bundle of its whole history that is still served or was replaced less than three days before the last publish, with fewer than forty others ranked ahead, has all its files on disk |
| PublishHistory.CrashesInARunCostExactly | scripts/build-client-publish.ts:192-232 | wherever crashes fall in a run, which lives and which files the next completed publish keeps compared with no crash, exactly |
| PublishHistory.TheDisplayOwnsWhatItReaches | scripts/build-client-publish.ts:173-183 | the entry read off a whole display owns the bundle's closure, so that only files nobody cites can be missing from it |
| PublishHistory.AnUncitedFileIsForgotten | scripts/build-client-publish.ts:193-232 | a staged file that nobody cites is owned after a completed publish and by nobody after a crashed one, though the bundle keeps its life |
| PublicDirectory.PublicDir.CopyStaging | scripts/build-client-publish.ts:202-205 | the copy loop leaves the old assets overlaid by the staged ones, one protocol step each |
| PublicDirectory.PublicDir.Sweep | scripts/build-client-publish.ts:257-268 | exactly the dead files neither retained, young nor resisting are deleted, and they are counted |
| PublicDirectory.PublicDir.ReadRecord | scripts/build-client-publish.ts:173-198 | the bundle on display joins the list exactly when no entry has its references, dated by its index.html, still served, with the files that are alive on disk |
| PublicDirectory.PublicDir.CopyAndFlip | scripts/build-client-publish.ts:190-206 | assets first, index.html last, the record untouched until then |
| PublicDirectory.PublicDir.RecordAndSweep | scripts/build-client-publish.ts:212-269 | the new record, and what is left under assets/ |
| PublicDirectory.PublicDir.PublishBundle | scripts/build-client-publish.ts:189-270 | a publish is broken exactly when the new page is not sound or names a file that is nowhere; otherwise, file by file, what was there or was copied stays exactly when it is alive, owned by a recorded generation, undeletable or younger than 1800000 ms, with the staged text and date where one was staged; retainedAssets at that instant is that ownership; a broken one sweeps nothing and writes no record; its effects are steps of the protocol |
| PublicDirectory.LiveSiblingsStay | server/lib/client-bundle.ts:99-157 | no sweep deletes a live file's sibling in either encoding |
| PublicDirectory.WhatWindowsRunStays | scripts/build-client-publish.ts:164-198 | a bundle on display that no publish recorded survives the publish that replaces it, every file it reaches with its siblings, however old |
| OffsiteBackup.OffsiteCopier.CopyOffsite | scripts/backup-offsite.ts:190-232 | where a copy stops decides outcome, receipt and slot; it succeeds exactly when the bytes came back equal, and then the weekday's slot holds the snapshot and the receipt describes it; a copy that began and did not succeed leaves no receipt |
| OffsiteBackup.ReceiptIsAlwaysTrue | scripts/backup-offsite.ts:209-227 | in every reachable state a receipt on disk names a slot whose bytes have the receipt's hash, uploads cut halfway included |
| OffsiteBackup.VerifyingEqualsReadingTheRemote | scripts/backup-offsite.ts:269-283 | in every reachable state the check of the receipt passes if and only if the slot holds the newest snapshot's bytes and the copy is at most two days old |
| OffsiteBackup.WhatARefusalMeans | scripts/backup-offsite.ts:269-283 | a receipt is refused for the first of: another snapshot, a missing one, other bytes, more than 172800000 ms |
| OffsiteBackup.APrunedOrRewrittenSnapshotIsRefused | scripts/backup-offsite.ts:269-283 | no receipt vouches for a snapshot pruned after its copy, or rewritten with other bytes |
| OffsiteBackup.SevenDaysOfHistory | scripts/backup-offsite.ts:122-124 | with one good copy per local day the remote holds exactly the last seven snapshots, one slot each |
| OffsiteBackup.EachOfTheLastSevenDays | scripts/backup-offsite.ts:122-124 | and each of the last seven days is in the slot of its weekday |
| OffsiteBackup.OneMoreNight | scripts/backup-offsite.ts:122-124 | the next copy replaces the slot of the same weekday a week before and leaves the other six |
| OffsiteBackup.AGoodRunVerifies | scripts/backup-offsite.ts:269-283 | after good nights the check passes exactly until two days after the last copy |
| OffsiteBackup.AGoodRunIsARun | scripts/backup-offsite.ts:190-232 | a run of good nights is one of the runs of events whose receipts are always true |
| OffsiteBackup.WaitForSsh | scripts/backup-offsite.ts:98-113 | probes at least once, at most ceil(waitMs/everyMs)+1 times, and returns the first try that neither timed out nor exited 255 |
| Screencast.EventKeepsInv | server.ts:4463-4537 | every event keeps starts separated by stops, and issues only a stop once cleanup began |
| Screencast.EveryInterleavingAlternates | server.ts:4463-4537 | over any interleaving two starts have a stop between them, and until cleanup frames flow exactly when one was started and the viewer wants them |
| Screencast.NoStartAfterCleanup | server.ts:4529-4536 | once cleanup began only stops are issued, at least one if it runs through |
| Screencast.EveryStartIsStopped | server.ts:4529-4536 | every start has a later stop once cleanup ran through |
| Screencast.FramesFlowExactlyWhenAskedFor | server.ts:4463-4528 | until cleanup, over any interleaving, frames flow if and only if every pause was followed by a resume that took and somebody asked on the viewer's behalf who might: the first grace timer under no host and for no executor, the timeout of the boot race with no rendering requested, a resume; nobody while the race holds the viewer |
| Screencast.TheGraceTimerStarts | server.ts:4483-4506 | an ordinary viewer has its frames when the grace is over, exactly if it still wants them |
| Screencast.TheRaceReleases | server/browser-host-boot-race.ts:37-46 | a viewer that waits for its host gets no frames until the race times out, and then exactly if it still wants them |
| Screencast.PausesAndResumesAreObeyed | server.ts:4507-4528 | after a pause no frames flow, after a resume under no host they do unless the race holds the viewer |
| Screencast.AStartUnderAHostExactlyWhen | server.ts:4507-4515 | of the events that ask about the host, one starts frames under a host exactly when it is a resume of a viewer that never paused, was never started and does not wait |
| Screencast.BrowserViewer.OnSetStream | server.ts:4507-4528 | a set_stream message pauses, resumes, starts late or does nothing, by the viewer's state |
| Screencast.BrowserViewer.OnGraceTimer | server.ts:4483-4506 | the deferred start is issued only for a live viewer that wants frames, waits for no host and has none yet |
| Screencast.BrowserViewer.OnRaceEnds | server/browser-host-boot-race.ts:37-46 | the end of the wait releases the viewer, and leaves its timeout to run only if it timed out |
| Screencast.BrowserViewer.OnRaceTimesOut | server.ts:4479-4482 | the timeout starts a live viewer that wants frames, asked for no rendering and has none yet |
| Screencast.BrowserViewer.OnCleanupBegins | server.ts:4529-4532 | cleanup cancels the viewer, its timer and its wait, and issues nothing |
| Screencast.BrowserViewer.OnCleanupStops | server.ts:4533-4536 | and then one stop |
| BootHolds.BootLedger.constructor | server.ts:3552-3554 | the two hold sets are disjoint, every session mid-turn at boot is in one, and the flag is up exactly for them |
| BootHolds.BootLedger.ReleaseBootHold | server.ts:3555-3558 | lowers the flag of a held session once and touches no other |
| BootHolds.BootLedger.ReleaseAll | server.ts:6347-6350 | the release loops free exactly their snapshot |
| BootHolds.BootLedger.Handle | server.ts:5776-5782 | every boot event frees exactly the sessions it decides about |
| BootHolds.EveryBootStateIsConsistent | server.ts:3552-3558 | in every reachable state flags are up exactly for the two disjoint sets |
| BootHolds.EachFlagIsLoweredAtMostOnce | server.ts:3555-3558 | a flag was lowered once if its session started held and is free, and never otherwise |
| BootHolds.HeldUntilLetGo | server.ts:5776-5782 | a session is held if and only if no event that lets it go has happened |
| BootHolds.HeldExactlyWhen | server.ts:3552-3558 | from what startup found and the events so far: a session is held if and only if it was alive or mid-turn, its leg, resend and chain are to come, and the pass (for what the broker kept or saw ending) or the resume decision (for the others) did not leave it out; its flag was lowered once if it was let go |
| BootHolds.NonAdoptedAreFreeAfterThePass | server.ts:5776-5782 | once the pass returned or threw, every broker session it did not adopt is free |
| BootHolds.NobodyIsHeldPastTheChain | server.ts:6337-6352 | past the boot chain no session is held, and each flag raised at boot was lowered exactly once |
| BootHolds.AdoptedBrokerSessionKeepsItsHold | server.ts:5777-5782 | an adopted broker session stays held until its leg, its resend or the chain ends |
| BootHolds.AdoptedResumeSessionIsFreedByTheDecision | server.ts:6235-6238 | an adopted session among the resume holds is freed by the resume decision |
| Reattach.ReattachPass.ReattachSurvivors | server.ts:5783-5904 | each listed id gets at most one of adopt and kill, each exactly when liveness, claims, topic, mid-turn rows and the broker's answer say so, chats and native turns apart; a claimed session gets neither; a chat whose topic is open is killed only if it had no mid-turn row and the broker said idle |
| Reattach.ReattachPass.DecideChat | server.ts:5825-5903 | one live chat child: adopted, ended or left alone |
| Reattach.ReattachPass.DecideNative | server.ts:5806-5823 | one native turn: adopted, ended or left alone |
| Quiescence.RestartGate.RunWait | server.ts:7028-7275 | the wait ends at the first lap where it may; cut short only with no card and no chat that would not come back, past the chats' minute; the heartbeat is raised exactly by such work; ending quietly means a look that found nothing and began with the door closed, with the dispatcher drained; at most one notice, at the first lap past its threshold |
| Quiescence.WhenAWaitEnds | server/lib/quiescence.ts:321-386 | in a lap's own counts, exactly when a wait may end there |
| Quiescence.WhenAPersonIsCalled | server.ts:7213-7227 | for work that would be lost only: after the long cap when a card holds, after the chats' one otherwise |
| Quiescence.AtWorkExactlyWhen | server.ts:6903-6913 | a card is counted or left out exactly when it started or joined, or was at work at first, and did not end since |
| Quiescence.ACardIsInOnePlace | server.ts:6903-6913 | and never both |
| Quiescence.WhoHoldsAtAQuietEnd | server.ts:6903-6913 | a wait that ends quietly ends with a card holding if and only if it joined or counted again (its checks started, or its turn would no longer come back) after the last look read the cards, and was not let go or left out since; none the dispatcher started |
| Quiescence.NobodyHoldsUnlessOneCountsAgainOrJoins | server.ts:7073-7088 | when no card counts again or joins after that read nobody holds |
| Quiescence.ACardLeftOutCanHoldAtAQuietEnd | server/lib/quiescence.ts:213-232 | a card the last look left out that counts again behind it holds at a quiet end, the door closed all along |
| Quiescence.AQuietLookBehindAnOpenDoorCanMissACard | server.ts:7073-7088 | what the extra look is for: behind an open door a quiet look can miss a card that the dispatcher starts |
| Quantiles.QuantileIsMonotone | scripts/board-baseline.ts:163-172 | a higher level never gives a lower quantile |
| Quantiles.QuantileIsWithinTheSample | scripts/board-baseline.ts:163-172 | level 0 is the minimum, level 1 the maximum, everything else lies between |
| Quantiles.QuantileInterpolatesNeighbours | scripts/board-baseline.ts:162-172 | type 7: the samples sit at equal steps of the level, with straight lines between neighbours |
| Quantiles.MedianIsTheMiddle | scripts/board-baseline.ts:183-185 | the median is the middle value or halfway between the two middle ones |
| Bootstrap.NextStateIsModular | scripts/board-baseline.ts:175-181 | the generator's step through a signed 32-bit product is the plain one modulo 2^32 |
| Bootstrap.DrawsStayInside | scripts/board-baseline.ts:194 | every draw indexes inside the sample, so the fallback to 0 is never taken |
| Bootstrap.Rng.NextIndex | scripts/board-baseline.ts:175-194 | one draw: the next state is the old one times 1664525 plus 1013904223 modulo 2^32, the index the whole part of state times n over 2^32, inside the sample |
| Bootstrap.BootstrapMedianCi | scripts/board-baseline.ts:187-200 | the two loops over the refilled buffer compute the percentile interval of 2000 resampled medians, null below eight values |
| Bootstrap.TheIntervalIsOfTheDraws | scripts/board-baseline.ts:175-200 | draw by draw: 2000 medians of values picked by consecutive states of the generator, put in order and read at 49.975 and 1949.025 |
| Bootstrap.TheDrawsDetermineTheInterval | scripts/board-baseline.ts:175-200 | and nothing else meets that description: the seed determines the interval |
| Bootstrap.MedianIntervalIsWithinTheSample | scripts/board-baseline.ts:187-200 | the interval exists from eight values on, is ordered and stays in the range of the sample |
| SampleSummary.ComputeStats | scripts/board-baseline.ts:202-221 | for the values in whatever order: the mean is their total over their number, the extremes, quartiles and median are read off them in order, at quarters of the way with straight lines between neighbours, the interquartile range is the difference, the interval that of the median |
| SampleSummary.ASummaryIsDetermined | scripts/board-baseline.ts:202-221 | only one summary meets that contract |
| SampleSummary.TotalIgnoresTheOrder | scripts/board-baseline.ts:217 | the total of the sorted values is that of the values as they came |
| SampleSummary.StatsIgnoreTheOrder | scripts/board-baseline.ts:202-221 | every field, the bootstrap interval included, depends on the multiset of values only |
| SampleSummary.StatsAreOrdered | scripts/board-baseline.ts:202-221 | min and max are the extremes of the sample, min <= p25 <= median <= p75 <= max, and the mean and the interquartile range are within |
| SampleSummary.IntervalOfTheMedian | scripts/board-baseline.ts:202-221 | the interval of the median lies between the extremes |
| CliffsDelta.Raw | scripts/board-baseline.ts:235-241 | the nested counting loops compute wins minus losses over all pairs |
| CliffsDelta.DeltaCountsThePairs | scripts/board-baseline.ts:235-241 | delta is the number of pairs of positions won less those lost, over all pairs |
| CliffsDelta.DeltaIsAntisymmetric | scripts/board-baseline.ts:234-242 | exchanging the samples negates delta; a sample against itself gives zero |
| CliffsDelta.DeltaIgnoresTheOrder | scripts/board-baseline.ts:234-242 | delta depends on the two multisets only, and is zero when they coincide |
| CliffsDelta.DeltaIsInRange | scripts/board-baseline.ts:226-242 | delta is in [-1, 1], and 1 (or -1) if and only if both samples have values and every first one is above (below) every second |
| CliffsDelta.DeltaIsOrdinal | scripts/board-baseline.ts:233-242 | any strictly increasing change of measure leaves delta as it was |
| CliffsDelta.ResampleFrom | scripts/board-baseline.ts:248-249 | one resample and the generator state it leaves |
| CliffsDelta.Compare | scripts/board-baseline.ts:234-256 | delta, the interval of 400 resampled deltas, and separates exactly when the interval excludes zero |
| CliffsDelta.TheDeltaIntervalIsOfTheDraws | scripts/board-baseline.ts:243-254 | draw by draw: 400 deltas of values picked from both samples by consecutive states of the generator, put in order and read at 9.975 and 389.025 |
| CliffsDelta.TheDrawsDetermineTheDeltaInterval | scripts/board-baseline.ts:243-254 | and nothing else meets that description |
| CliffsDelta.DeltaIntervalIsInRange | scripts/board-baseline.ts:243-254 | the interval exists exactly from eight values on each side, is ordered and stays in [-1, 1] |
| Sittings.SplitSittings | scripts/board-baseline.ts:560-579 | the loop counts the sittings of the readable timestamps (at least one) and sums the time inside them |
| Sittings.OneMoreStamp | scripts/board-baseline.ts:560-579 | message by message: an unreadable one changes nothing, one within 1800000 ms of the last adds the time since, a later one starts a sitting and adds none |
| Sittings.SplitIntoSittings | scripts/board-baseline.ts:85-86 | sittings are unbroken runs, in order, no two of which could be joined |
| Sittings.SittingsAreUnique | scripts/board-baseline.ts:85-86 | there is only one such split |
| Sittings.SittingsAndGapsCoverTheSpan | scripts/board-baseline.ts:560-579 | sittings are one more than the gaps above thirty minutes; active time plus those gaps is last minus first |
| Sittings.ActiveTimeOfAChronology | scripts/board-baseline.ts:560-579 | for messages in time order active time is between zero and the span |
| ArmValidator.Validate | scripts/board-arms.ts:340-440 | the list holds every problem of the bundle and nothing else, each stated on its own; what is wrong with the header is listed whether or not there are runs |
| ArmValidator.WhatIsHeldAgainstARun | scripts/board-arms.ts:355-397 | work that is not the sum of the other three numbers, a non-number included, is held against the arm of any such run; runs of other trees are counted over head and replicates |
| ArmValidator.CleanExactlyWhenWellFormed | scripts/board-arms.ts:340-440 | nothing is reported if and only if the bundle has the whole format: header, known arms once each in the head, five numbers with the work their sum, flags and efforts true of the runs, even runs, a summary that counts every arm that ran |
| ArmValidator.CheckEntries | scripts/board-arms.ts:364-397 | the loop over all runs reports exactly their problems and tallies trees, models, efforts and runs per arm |
| ArmValidator.CheckFlags | scripts/board-arms.ts:403-424 | the declared flags and per-arm efforts against the recomputed ones, and unequal runs |
| ArmValidator.CheckSummary | scripts/board-arms.ts:426-438 | the summary's counts and coverage against the runs |
| ArmCollector.SpreadBoundsTheSample | scripts/board-arms.ts:795-800 | min and max bound the sample, the median lies between and is the type-7 quantile at one half |
| ArmCollector.Summarise | scripts/board-arms.ts:802-819 | one entry per arm that ran, in the arms' order |
| ArmCollector.SummaryCountsEveryRun | scripts/board-arms.ts:802-819 | the runs of the summary add up to all runs |
| ArmCollector.SummaryBoundsEveryRun | scripts/board-arms.ts:802-819 | each of an arm's five figures bounds that figure of every one of its runs, and delivered counts the delivered ones |
| ArmCollector.SummaryFiguresAreOfRuns | scripts/board-arms.ts:802-819 | runs and deliveries are counted over all measurements, and each least and greatest figure is that of some run of the arm |
| ArmCollector.EffortIsOfTheLastRun | scripts/board-arms.ts:885-886 | the effort written for an arm is that of its last run |
| ArmCollector.FiguresKeepTheirNames | scripts/board-arms.ts:869-944 | every figure of a run is written, and read back, under its own name |
| ArmCollector.CostOrdersRise | scripts/board-arms.ts:935-937 | the cost ordering of each round lists its runs, each once, at rising cost |
| ArmCollector.Collect | scripts/board-arms.ts:869-944 | no runs and a commit with another tree are refused; otherwise arms, replicates, flags, efforts and summary are what the runs say |
| ArmCollector.FlagsAgree | scripts/board-arms.ts:403-417 | for every set of runs the written flags and efforts are what the validator recomputes |
| ArmCollector.SummaryAgrees | scripts/board-arms.ts:426-438 | for every set of runs the validator has nothing to say about the written summary |
| ArmCollector.ProblemsOfACollectedBundle | scripts/board-arms.ts:340-440 | exactly which problems a collected bundle can still have |
| ArmCollector.CollectedIsAcceptedExactlyWhen | scripts/board-arms.ts:869-944 | a collected bundle is without problems if and only if the runs satisfy a list of conditions checkable beforehand |
| PairFiles.Triples | scripts/board-arms.ts:992-995 | the grouping loop gives the head triple and consecutive groups of its length |
| PairFiles.GroupingEndsExactlyWhen | scripts/board-arms.ts:993-995 | the loop ends if and only if the head triple is not empty or there are no replicates |
| PairFiles.AcceptedBundlesAreCutInTheEnd | scripts/board-arms.ts:1115-1125 | the loop ends on every JSON bundle without problems |
| PairFiles.MissingReplicatesAreNoProblem | scripts/board-arms.ts:362 | leaving `replicates` out changes nothing for the validator |
| PairFiles.GroupsJoinUp | scripts/board-arms.ts:992-995 | the groups in a row are the replicates, all full but the last |
| PairFiles.RegroupingRestoresTheRounds | scripts/board-arms.ts:992-995 | cutting gives back the rounds if and only if all but the last are as long as the first and the last is no longer and not empty |
| PairFiles.CompleteCampaignRoundTrips | scripts/board-arms.ts:869-995 | complete rounds from one tree with well-formed usage are collected without problems and come back as the pair files |
| PairFiles.AcceptedRoundsCanBeMixed | scripts/board-arms.ts:992-995 | one tree, well-formed usage and incomplete later folders: the collected bundle has no problem and its groups mix two rounds |
| Canonicalize.HashPath | shared/project-keys.ts:25-32 | the hash loop computes the specified 32-bit hash |
| Canonicalize.HashIsBaseThirtyOne | shared/project-keys.ts:25-32 | wrapping at every step is wrapping once: the hash is the path read in base 31, modulo 2^32 and signed |
| Canonicalize.BoardIsNamedAfterTheFolder | shared/board.ts:84-85 | the id starts with what stands after the last separator of either kind, trailing ones apart, or with `project` |
| Canonicalize.SixDigitsAreEnough | shared/board.ts:87-91 | cutting the id's hash at six base-36 digits loses nothing |
| Canonicalize.Database.FindCases | scripts/canonicalizza-progetti.ts:51-76 | the cases are exactly the paths bound to some topic, not empty, that resolve to another path, each once |
| Canonicalize.Database.MoveUiRow | scripts/canonicalizza-progetti.ts:91-98 | the old row takes the new key, or goes where the new key has one |
| Canonicalize.Database.Migrate | scripts/canonicalizza-progetti.ts:85-101 | the transaction applies the cases one after the other |
| Canonicalize.Database.Merge | scripts/canonicalizza-progetti.ts:78-105 | a dry run writes nothing |
| Canonicalize.RowsAreKept | scripts/canonicalizza-progetti.ts:85-89 | no topic and no task is lost or added |
| Canonicalize.EveryRowLandsOnItsCanonicalIdentity | scripts/canonicalizza-progetti.ts:85-89 | every topic ends on its real path whatever collides, and every task of a merged board on the real path's board where the boards agree, whatever the order of the cases |
| Canonicalize.TasksArriveExactlyWhenBoardsAgree | scripts/canonicalizza-progetti.ts:88 | every task of every merged board ends on the real path's board in every order of the cases, if and only if cases that start on one board end on one and a case that starts where another ends stays there |
| Canonicalize.TaskLands | scripts/canonicalizza-progetti.ts:88 | a task whose board is none of the old ones stays, whatever collides; one of an old board is moved to the new one where the boards agree |
| Canonicalize.ASecondRunFindsNoCases | scripts/canonicalizza-progetti.ts:58-61 | running again finds nothing to merge |
| Canonicalize.EveryUiRowSettles | scripts/canonicalizza-progetti.ts:90-99 | no old key survives, a key that had a row keeps it, one without gets the first case's, all others stay |
| Canonicalize.EveryUiRowHasASource | scripts/canonicalizza-progetti.ts:90-99 | whatever hashes collide, a key ends with the first existing row of a list of keys that the cases alone decide |
| Canonicalize.SourcesAreNotShared | scripts/canonicalizza-progetti.ts:90-99 | those lists have nothing in common: no row is ever copied to two keys |
| Canonicalize.OrderMattersExactlyForRivals | scripts/canonicalizza-progetti.ts:90-99 | every order of the cases leaves the same under a key if and only if the key had a row, or is an old key, or no two cases bring it different rows |
| Canonicalize.TheRowSurvivesExactlyWithoutACollision | scripts/canonicalizza-progetti.ts:91-98 | after a merge the project has a row if and only if it had one and the two paths do not share a hash |
| Canonicalize.ALinkThatLosesItsLayout | scripts/canonicalizza-progetti.ts:91-98 | two concrete paths with one id and one key, whose merge deletes the only row |

## Left out

- PublishProtocol.AlwaysACompleteBundle: assumes what a caller has to see to: built stagings, content-hashed names (the name decides the text, unique basenames), each publish shorter than the sweep age, copies dated no earlier than their publish or than the file they replace, no copy onto a file under deletion.
- CrashedPublishes.ALifeSurvivesCrashesExactlyWhen: publish times strictly increase, as they do for Generations.RecordRefinesFullHistory; a flipped bundle references something.
- PublicDirectory.PublicDir.PublishBundle: temporary files of the atomic copy and what a crash leaves of them are not modelled; a copy is one step, a directory listing is one step, and the `broken` text is a flag.
- Reading the record file: entries that do not parse are dropped by the source before the model begins, and the references of a generation are a set, not its sorted and joined text.
- Milliseconds are integers, and so are the tokens of a measured run; floating-point rounding is not modelled anywhere, and quantiles, means and deltas are exact reals.
- OffsiteBackup.OffsiteCopier.CopyOffsite: one destination, one copy at a time, a snapshot that does not change while it is copied; the wake command, the scratch directory and the parsing of hosts are left out, and nothing is claimed about IPv6 destinations.
- OffsiteBackup.VerifyingEqualsReadingTheRemote: a receipt file that is malformed is not modelled; a digest is injective.
- OffsiteBackup.WaitForSsh: each pause moves the clock on by at least its length; the probe and the clock are inputs.
- Screencast.EveryInterleavingAlternates: call order only; whether a start that was issued finishes before the stop that follows it is not claimed, since cleanup awaits the latest start alone. The mirror that a hosted viewer is put on is left out.
- Reattach.ReattachPass.ReattachSurvivors: the adopted turns' own legs, the notices about background work and the log are left out; a kill that throws counts as issued.
- BootHolds.HeldUntilLetGo: the ledger's other flags are left out.
- Quiescence.WhoHoldsAtAQuietEnd: speaks of this machine's cards; turns that run on other nodes, which the dispatcher leaves out of its count, and chats are not among them.
- Quiescence.RestartGate.RunWait: a lap is one reading of what is working; who is working, the holder's name and the text of the notice are inputs or left out, and the wait shared by several callers is not modelled.
- Bootstrap.DrawsStayInside: the product of a draw and the sample size is exact; that the rounding of the source cannot reach the sample size is not claimed.
- CliffsDelta.DeltaIntervalIsInRange: the interval depends on the order of the two samples, unlike delta, and nothing else is claimed of it.
- Sittings.SplitSittings: reading and pricing of transcripts, and every filter on which chats count, are left out.
- ArmValidator.Validate: the order of the problems and their texts are left out; a field that is not a number has an arbitrary `Number()` value.
- ArmCollector.Collect: notes and texts are left out; the tree that the claimed commit gives is an input.
- PairFiles.Triples: only the grouping; what is written for each run is left out, and so is the exception on a missing `replicates`. `resummarise` is left out.
- Canonicalize.EveryRowLandsOnItsCanonicalIdentity: needs that resolving twice is resolving once; a character is one code unit.
- Canonicalize.EveryUiRowSettles: the old path of a case shares its hash with no path of another case; with such collisions Canonicalize.EveryUiRowHasASource and Canonicalize.SourcesAreNotShared say what becomes of the rows.
- Canonicalize.OrderMattersExactlyForRivals: the same; which orders agree when rows pass through several cases by a collision is not stated.
- The second phase of the identity merge, which replaces paths inside JSON text, is left out.
- HTTP, WebSocket transport, the dispatcher itself, pricing, prompts, SQLite, git, scp and hashing are left out or are inputs.
