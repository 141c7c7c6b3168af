# A model of AxeBOM's stateful cores

This project states in Dafny what the parts of AxeBOM that carry state do, and proves properties of
whole files, whole trees and whole runs. `dafny verify dfyconfig.toml` checks everything.

* **Hardware parts list** (`Forest`, `HbomModel`, `HbomRows`, `HbomImport`, `HbomParse`, `HbomWalk`,
  `HbomForm`, `HbomFormObjects`, `HbomRoutes`). The CSV importer keeps a stack that aliases nodes of the
  tree it is growing. `HbomParse` follows it on objects: every reference on the stack, every `children`
  list. `HbomImport` is the fold it refines, and there the laws live: walking what was parsed lists the
  kept rows, parsing what was walked rebuilds the tree. `HbomForm` builds the same tree from a nested
  payload; `HbomRoutes` prints a payload as rows and shows that both ways in agree.
* **Job delivery** (`Delivery`, `WorkerJob`, `MockWorker`, `NormalizeOnce`). One message under
  redelivery, overlap, death and failing calls; a worker that may die between any two effects; the mock
  worker behind the same contract; consumers racing for a unique row.
* **Files shared between processes** (`SourceRace`, `DbSync`). Processes racing to rename a tree into
  place; a provisioner whose stamp is written last.
* **Browser machines** (`ProgressSocket`, `SingleFlight`). One event is one turn of the browser, and a
  handler called in a turn may call back.
* **Merges and formats** (`ModelMerge`, `Roles`, `RoleOrder`, `EnvFile`, `DeviceMetadata`, `Encoding`, `Credentials`).
  Results that must not depend on an order, and texts that must read back.

Code that changes things in place is a class with methods (or a method with loops), proved equal to a
function of the old state; the lemmas are about that function. Where other processes, the network or a
death can intervene, there is a transition function and the lemmas quantify over all sequences of events.
In the machines a step that is not possible changes nothing, so every sequence of events is a run.

I/O, clocks, randomness, JSON, MACs and password hashing are parameters: a delivery, a system call or a
download is described by what it returns.

## Where the code and its documentation differ

The model follows the code. Each of these has a lemma that says exactly when the documentation holds.
(One more difference is a comment only: `libs/go-shared/bus/bus.go:528` says the backoff matches the consumer's
BackOff setting, which is deliberately not set, line 324.)

* `frontend/src/lib/hbom.ts:85` calls level 0 *or 1* the product. A file that starts at level 1 is accepted
  as a root, and its next row one level down indexes past the stack (`HbomImport.StartingAtOneCrashes`).
  A level cell of dots only reads as -1 (`HbomRows.NegativeLevelIsDots`): it becomes a root if nothing is
  open, crashes if one ancestor is, and otherwise silently hangs beside the deepest one
  (`HbomImport.DotsRowLands`). Which files crash, exactly: `HbomImport.StackOverrunExactly`.
* `workers/sbom/runner.py:165` says `handle` never raises. Only the engine run is guarded against
  every exception and the source against one kind: it raises when any other statement on its way does, the
  manifest write on a full disk for one (`WorkerJob.RaisesExactly`, `WorkerJob.FullDiskRaises`).
* `workers/sbom/runner.py:171` and `workers/_mock/main.go:127` put the idempotency check first so that a job is
  done once. A stored result that cannot be read at that moment counts as none: it is run again and written over
  (`WorkerJob.StoredResultIsFinal`, `WorkerJob.ReplacedExactly`, `MockWorker.OneResultPerJob`).
* `workers/_mock/main.go:17` says a flaky job fails once and succeeds after. The failure is stored in the
  manifest, so it is published again on every redelivery that can read it (`MockWorker.FlakyOutcome`).
* `libs/go-shared/bus/bus.go:496` wants no message to vanish without an artifact. One does
  exactly when no Ack of a success got through and every delivery that had to dead-letter it had no subject,
  died before the copy, or saw the copy fail, which is ignored (`Delivery.VanishesExactly`; such runs:
  `Delivery.SilentLoss`). In the normalize consumer one does if its body is not UTF-8, is beyond the
  interpreter's limits or is JSON but no object, because that is read outside the `try`
  (`Delivery.UnsettledExactly`, `Delivery.RaisingMessageVanishes`).
* `workers/sbom/normalize_consumer.py:136` says an unreadable artifact never raises; one that is not UTF-8,
  is beyond the interpreter's limits or has a NUL in its path does (`NormalizeOnce.LoadArtifacts`). The
  unique row makes racing correct, but its loser is dead-lettered although the row is there
  (`NormalizeOnce.RaceLostExactly`; every way that can happen: `NormalizeOnce.DeadLetteredThoughWritten`).
* `cmd/axebom/source.go:186` calls an adopted tree as good as one's own. It is not checked against the
  adopter's digest (`SourceRace.DigestSoundExactly`).
* `workers/aibom/merge.py:103` says a name key can never collide with a reference. It can
  (`ModelMerge.CollidesExactly`).
* `frontend/src/lib/ws.ts:134` says disposing stops reconnecting. A disposer called from the handler that
  a retry calls leaves a live socket behind (`ProgressSocket.DisposingTurn`); and a handler or another callback
  that throws in a retry or a close ends reconnecting for good (`ProgressSocket.StrandedExactly`).
* `frontend/src/lib/auth.ts:255` takes care that no result depends on key order. The role does not; the
  order of the list can (`RoleOrder.SameListExactly`).
* `workers/sbom/dbsync.py:337` takes bytes in the directory for bytes downloaded
  (`DbSync.DownloadedExactly`), and its readability check reads one file: the stamp says that all are
  readable exactly if the others were before (`DbSync.StampMeansReadableExactly`).
* `workers/hbom/csv_import.py:346` says that of two columns for one attribute the one the file supplies
  first wins; it is the one that comes first in the canonical table (`HbomRows.FileOrderWinsExactly`).

## Model

| member | source | states |
|---|---|---|
| HbomRows.Canonicalize | workers/hbom/csv_import.py:252-297 | of several headers mapped to one canonical column the first in the file wins; short rows and surplus fields are covered |
| HbomRows.DecimalLevel | workers/hbom/csv_import.py:316-323 | a plain number is its own level |
| HbomRows.OutlineLevel | workers/hbom/csv_import.py:305-314 | an outline number of n parts is level n - 1 |
| HbomRows.NegativeLevelIsDots | workers/hbom/csv_import.py:307-314 | a level reads as negative exactly for a cell of dots and blanks, and is then -1 |
| HbomRows.LevelExactly | workers/hbom/csv_import.py:300-323 | a cell with a dot is a level exactly when there is nothing but digits and blanks between the dots; every other cell that is no level is refused for its own reason, the empty one included |
| HbomRows.PlainLevelExactly | workers/hbom/csv_import.py:316-323 | without a dot: exactly a numeral, with or without a sign, underscores and blanks, that is not below 0 |
| HbomRows.NumeralIsGroups | workers/hbom/csv_import.py:316-319 | a numeral is groups of digits joined by single underscores |
| HbomRows.TableOrderDecides | workers/hbom/csv_import.py:334-350 | an attribute takes the first filled column mapped to it in table order, whatever the order in the file |
| HbomRows.PartNumberBeatsMpn | workers/hbom/csv_import.py:37-64 | a filled part_number always stands before a filled mpn |
| HbomRows.FileOrderWinsExactly | workers/hbom/csv_import.py:345-350 | for any row and mapping, the column the file supplies first gives the model number exactly when only one of the two is filled, part_number stands first in the file, or both say the same |
| HbomRows.FileOrderLoses | workers/hbom/csv_import.py:345-350 | a row whose mpn comes first and whose part_number wins |
| HbomRows.RowIsNamed | workers/hbom/csv_import.py:362-370 | whatever a row holds, its component has a name that normalizing keeps, and a quantity of at least 1 |
| HbomRows.RowSays | workers/hbom/csv_import.py:326-372 | what a row becomes field by field: id and source row, texts, the three fallbacks of the name, the quantity |
| HbomRows.FilledExactly | workers/hbom/csv_import.py:334-350 | an attribute is the text of the column that supplies it, and empty if none does |
| HbomRows.Build | workers/hbom/csv_import.py:326-372 | the object built attribute by attribute holds the component of the row, or the quantity overflows |
| HbomImport.WalkListsKeptRows | workers/hbom/csv_import.py:193-246 | for every accepted file the walk lists exactly the rows within the cap, in file order, each once; the tree is never deeper than the cap |
| HbomImport.RowsAreAccountedFor | workers/hbom/csv_import.py:138-151 | nodes of the capped walk + over-cap rows + empty rows = data rows |
| HbomImport.CappedAndUncappedAgree | frontend/src/lib/hbom.ts:260-271 | the uncapped TypeScript walk and the capped Python walk agree on every accepted file, before and after normalization |
| HbomImport.StackInvariant | workers/hbom/csv_import.py:186-244 | in a file that starts at level 0, after every row, skipped ones included, min(previous, MAX_DEPTH) + 1 ancestors are open and every node sits at its own level |
| HbomImport.DepthIsLevelIffRooted | workers/hbom/csv_import.py:232-244 | in an accepted file depth equals level for every node exactly when the first kept row is at level 0 and no level is negative |
| HbomImport.AcceptedExactly | workers/hbom/csv_import.py:209-244 | a readable file is accepted with every part at its own level exactly when it starts at level 0 and skips no level |
| HbomImport.RejectedAtFirstSkip | workers/hbom/csv_import.py:214-220 | such a file is rejected at its first skipping row, whatever follows, naming the row and both levels |
| HbomImport.SkipReportedIsFirst | workers/hbom/csv_import.py:214-220 | whatever the file, a reported skip is at the first skipping row and names its levels |
| HbomImport.RejectedAtBadLevel | workers/hbom/csv_import.py:193-209 | a row with anything in it and no level in its level cell rejects the file at that row, with the reason; so does any row past the limit |
| HbomImport.ListedExactly | workers/hbom/csv_import.py:205-230 | exactly the rows that are blank all over and those below the cap are listed, by number |
| HbomImport.IdsAreOwn | workers/hbom/csv_import.py:328-332 | every part of a file has an id of its own, and source rows rise in file order |
| HbomImport.StackOverrunExactly | workers/hbom/csv_import.py:234-241 | a readable file that skips no level crashes exactly when its second kept row is at level 2 or deeper, or a cell of dots is its second kept row or follows a kept row at level 0 |
| HbomImport.DotsRowLands | workers/hbom/csv_import.py:234-242 | in any accepted file a cell of dots is a root while nothing is open, crashes while one ancestor is, and otherwise hangs beside the deepest open one |
| HbomImport.StartingAtOneCrashes | workers/hbom/csv_import.py:234-238 | levels 1, 2 index past the stack |
| HbomImport.LoneDotIsARoot | workers/hbom/csv_import.py:307-314 | a file of one dot is accepted |
| HbomImport.ParentIsNearestEarlier | workers/hbom/csv_import.py:237-242 | every node's parent is the nearest earlier kept node that is less deep, exactly one step less |
| HbomImport.ImportRebuilds | workers/hbom/csv_import.py:193-246 | for every forest within the cap, importing rows that spell its walk rebuilds it node for node, and skips nothing |
| HbomImport.WalkDeterminesForest | workers/hbom/model.py:131-142 | two forests with the same walk are the same forest, so accepted level sequences and forests are in bijection |
| Forest.RebuildFromWalk | workers/hbom/csv_import.py:234-242 | attaching the rows of any forest's walk one by one gives back that forest |
| Forest.WalkOfRebuild | workers/hbom/csv_import.py:234-242 | walking what any followable row sequence builds gives back the rows |
| Forest.CapHidesNothing | workers/hbom/model.py:131-142 | the capped walk equals the uncapped one exactly when no node lies below the cap |
| Forest.AttachPreorder | workers/hbom/csv_import.py:237-242 | attaching a forest's own walk at any open depth rebuilds that forest there |
| HbomParse.StackIsSpine | workers/hbom/csv_import.py:186-188 | the nodes the stack references are the open node at each depth of the tree under construction |
| HbomParse.GrowAttaches | workers/hbom/csv_import.py:238-242 | appending to one node's children through the stack is attaching at that depth of the whole forest |
| HbomParse.PlaceInTree | workers/hbom/csv_import.py:234-242 | the stack step on objects, Python's negative indices included; out of range it fails and changes nothing |
| HbomParse.ImportRow | workers/hbom/csv_import.py:202-244 | one turn of the loop moves objects, stack, previous level and row lists exactly as the fold does |
| HbomParse.ImportRows | workers/hbom/csv_import.py:193-244 | the loop over all rows, from aliased objects to the fold |
| HbomParse.NormalizeRoots | workers/hbom/csv_import.py:246-246 | normalizing the roots in place cleans every node of the forest once and relinks nothing |
| HbomParse.Parse | workers/hbom/csv_import.py:154-249 | the error is the one the fold stops with; on success the roots are fresh objects linked as the cleaned forest, with the dropped rows listed |
| HbomModel.Normalize | workers/hbom/model.py:216-257 | every object under the node holds its cleaned value, no other object changes |
| HbomModel.NormalizeFields | workers/hbom/model.py:224-255 | trimming, the closed set of ratings and the list clean-up, field by field |
| HbomModel.RatingKeptExactly | workers/hbom/model.py:225-230 | a rating is kept exactly when it is one of the four but for case and blanks around it; any other becomes empty; other texts are only trimmed |
| HbomModel.CleanListPointwise | workers/hbom/model.py:255-255 | a blank item is dropped, any other is trimmed and keeps its place |
| HbomModel.CleanForestIdempotent | workers/hbom/model.py:216-257 | normalizing twice is normalizing once, for whole forests |
| HbomWalk.Walk | workers/hbom/model.py:131-142 | the capped walk over objects yields the walk of the tree they hold |
| HbomWalk.FlattenFrom | frontend/src/lib/hbom.ts:265-268 | the closure that pushes onto one list appends the walk of the tree |
| HbomWalk.FlattenResult | workers/hbom/normalize.py:61-79 | over a parsed result both walks give the cleaned kept rows in file order, and with the dropped rows all rows |
| HbomForm.AcceptedPayloads | workers/hbom/form.py:62-140 | a payload is accepted exactly when every node is within the cap, named, rated from the closed set, of a finite numeric quantity and without unknown fields |
| HbomForm.ChecksInOrder | workers/hbom/form.py:70-125 | a node's own checks: which error is told, exactly, by the order in which they are made |
| HbomForm.FirstProblemIsTold | workers/hbom/form.py:62-140 | a rejected payload is told the problem of the first place, parents before children, that has one; an accepted one has none |
| HbomForm.NormalizedOnce | workers/hbom/form.py:129-140 | normalizing at every level on the way up equals one pass at the end |
| HbomForm.FormIdsAreSound | workers/hbom/form.py:93-138 | local ids are pairwise distinct, every parent id is that of the node one step up the same path, every level is the walk depth |
| HbomForm.PathIdInjective | workers/hbom/form.py:132-137 | different places in a payload get different ids |
| HbomForm.TwoRoutesAgree | workers/hbom/form.py:62-140 | for any acceptable payload and any file whose rows say the same, both routes accept and build the same tree apart from local ids and source rows |
| HbomFormObjects.BuildFromPayload | workers/hbom/form.py:62-140 | the recursive builder on objects: fresh nodes that hold the specified tree, or its error |
| HbomFormObjects.BuildChildren | workers/hbom/form.py:129-138 | the loop that sets parents and appends in place; the first failing child decides |
| HbomRoutes.FormAndFileAgree | workers/hbom/csv_import.py:326-372 | submitting a payload and importing the rows it prints as build the same tree |
| HbomRoutes.SayableExactly | workers/hbom/csv_import.py:340-344 | a row can say a payload exactly when no compliance item holds a separator |
| HbomRoutes.CanonicalIsComplete | workers/hbom/csv_import.py:37-64 | the shipped column table has distinct names and a column for every attribute |
| Delivery.BackoffIsMonotone | libs/go-shared/bus/bus.go:531-550 | for every uint64 the clamp is in range and monotone |
| Delivery.WaitsExactly | libs/go-shared/bus/bus.go:531-550 | 30, 120, 480 and then 480 seconds in Go, 10, 30, 90 in Python, unreadable metadata as the first delivery |
| Delivery.DispatchersAgree | workers/sbom/normalize_consumer.py:392-451 | Python decides as Go does and picks the same place in its schedule, for every body, outcome and count, unreadable metadata included |
| Delivery.SettleDifference | libs/go-shared/bus/bus.go:515-522 | the dispatchers settle the same messages except for a permanent failure whose Term fails while an Ack would not |
| Delivery.Message.Dispatch | libs/go-shared/bus/bus.go:480-569 | the calls made on the message, whether they settle it and whether a copy reached the dead-letter subject |
| Delivery.Message.PyDispatch | workers/sbom/normalize_consumer.py:392-422 | the same for the Python dispatcher |
| Delivery.LeavesOnlyHandledOrDeadLettered | libs/go-shared/bus/bus.go:480-523 | under either dispatcher, with overlap, death and failing calls, a message leaves the queue only after a handler succeeded or a dead-letter attempt |
| Delivery.DeliveredExactly | libs/go-shared/bus/bus.go:61-78 | a message is delivered again exactly while it is in the queue and was delivered fewer than four times |
| Delivery.GoneIsFinal | libs/go-shared/bus/bus.go:480-523 | a message that is gone stays gone and nobody is given it any more |
| Delivery.NakBudget | libs/go-shared/bus/bus.go:61-78 | with readable metadata: at most 4 deliveries, 3 naks and 630 seconds of delay in Go, 130 in Python |
| Delivery.SpentStaysExactly | libs/go-shared/bus/bus.go:480-523 | a spent message stays exactly when every delivery left it there: its outcome asks for another or raises, or its Ack or Term, and in Go the Ack after a failed Term, did not get through; an undisturbed delivery does exactly in the first case |
| Delivery.VanishesExactly | libs/go-shared/bus/bus.go:492-569 | over all runs of either dispatcher, with or without a dead-letter subject: a message that is gone or spent left nothing behind exactly when no Ack of a success got through, and whoever had to dead-letter it had no subject, died before the copy or saw it fail |
| Delivery.SilentLoss | libs/go-shared/bus/bus.go:492-569 | such runs: a death on the last delivery leaves it stuck; a copy that fails loses it, gone if the Ack gets through and stuck if not |
| Delivery.WorkersDispatch | libs/go-shared/bus/bus.go:480-523 | a delivery of the runs, left to itself, makes the calls of the dispatch methods and settles and copies as they do |
| Delivery.RaisingMessageVanishes | workers/sbom/normalize_consumer.py:395-403 | a message the dispatcher raises on never leaves and never reaches the dead-letter subject, whatever happens |
| WorkerJob.EnvelopeIsSound | workers/sbom/runner.py:422-506 | counts only if succeeded or partial, an error exactly if failed or timed out, retryable exactly if timed out, both times or neither |
| WorkerJob.EngineRunIsReported | workers/sbom/runner.py:270-325 | what a delivery answers and stores that ran the engine: its status, its counts if accepted, its diagnostics, its three times or else the clock's three, the first error's code and message; a failure if the adapter raised; and what it offers to the consuming engine |
| WorkerJob.EarlyRepliesDecline | workers/sbom/runner.py:179-264 | an unknown engine and a missing input are skipped, a source that is not there is unavailable; no counts, no error, no times |
| WorkerJob.ReturnsExactly | workers/sbom/runner.py:162-325 | a delivery is answered exactly when no statement of its branch raises and the worker lives through all its effects |
| WorkerJob.GenerateResult.FillTimes | workers/sbom/runner.py:296-308 | the three timing fields fall back together |
| WorkerJob.Host.HandleJob | workers/sbom/runner.py:162-325 | `handle` statement by statement, dying after any number of effects, does what the specification says |
| WorkerJob.CompletesExactly | workers/sbom/runner.py:314-325 | a delivery leaves a whole manifest exactly when it left a whole one alone, or no statement raised and it lived to run the engine, offer the output, build the envelope and write all of it; one that reads the manifest has no effect |
| WorkerJob.ManifestAfterExactly | workers/sbom/runner.py:314-325 | whatever was stored, a delivery keeps it unless it comes to open the file, and then leaves its own envelope or a torn file |
| WorkerJob.ManifestMeansDone | workers/sbom/runner.py:310-324 | after any deliveries with deaths anywhere, a whole manifest was written at the end of a whole engine run in order and not touched since; every returned envelope is sound |
| WorkerJob.StoredResultIsFinal | workers/sbom/runner.py:170-177 | a stored result stays until a delivery that could not read it opens the file; every delivery that can read it has no effect and returns it, unless it dies or raises before |
| WorkerJob.ReplacedExactly | workers/sbom/runner.py:405-416 | over all runs, what was stored stays if nobody opens the file; otherwise the first who opens it could not read it, and the last who does decides what is there |
| WorkerJob.RaisesExactly | workers/sbom/runner.py:162-325 | `handle` raises exactly when some statement of its branch raises and the worker survives the effects before it, branch by branch and statement by statement |
| WorkerJob.EarlyRepliesAreNotStored | workers/sbom/runner.py:179-264 | unknown engine, missing input and unavailable source are answered but not stored; any other reply is |
| MockWorker.Builder.Adjust | workers/_mock/main.go:196-231 | the result fields each behaviour sets |
| MockWorker.BehavioursReport | workers/_mock/main.go:180-234 | status, counts and error of every published result, behaviour by behaviour |
| MockWorker.ReplyExactly | workers/_mock/main.go:127-177 | acked, redelivered, terminated or nothing: exactly when |
| MockWorker.PublishedIsStored | workers/_mock/main.go:127-177 | the manifest holds what its last writer built, and every publish is of what was stored at the time |
| MockWorker.OneResultPerJob | workers/_mock/main.go:236-255 | all results ever published are the same exactly when the job is not flaky or first attempts alone, or later ones alone, wrote what was published; so if no stored result that could not be read was written over |
| MockWorker.TwoResults | workers/_mock/main.go:242-245 | one failed read: a failure is published, then a success |
| MockWorker.PublishedRules | workers/_mock/main.go:180-234 | every published result keeps the envelope rules, except that it is retryable exactly if a flaky first attempt wrote it |
| MockWorker.AckedMeansPublished | workers/_mock/main.go:286-298 | a job is acked only after the result stream took its result |
| MockWorker.FlakyOutcome | workers/_mock/main.go:222-230 | a flaky job publishes a success exactly where no first attempt wrote what it publishes; unless written over, the first result stored decides for all redeliveries |
| SourceRace.TreeReadableExactly | cmd/axebom/source.go:354-408 | a chmod walk without error leaves a readable tree exactly when every entry it silently skipped was readable |
| SourceRace.WalkEndsExactly | cmd/axebom/source.go:354-408 | the chmod walk ends without an error exactly when nothing it meets fails; a link or an entry that does not open is as far as it goes |
| SourceRace.WalkOnlyOpensUp | cmd/axebom/source.go:354-408 | with or without an error it changes modes only, and those to readable only |
| SourceRace.PublishIsSafe | cmd/axebom/source.go:98-199 | for any interleaving with crashes the destination is absent or one whole tree that its publisher extracted, checked, walked over and stamped, readable exactly when every skipped entry was; every success sees its own URI |
| SourceRace.NeverReplaced | cmd/axebom/source.go:185-194 | a published tree is never replaced |
| SourceRace.OneUriWins | cmd/axebom/source.go:185-194 | of two URIs at most one ever succeeds |
| SourceRace.EndedExactly | cmd/axebom/source.go:98-199 | in every run a process failed exactly when its staging, extraction, digest, chmod walk or stamp did, or it lost and the stamp it reread was not its URI; it succeeded exactly when it found its URI or put its tree in place |
| SourceRace.EverybodySucceeds | cmd/axebom/source.go:182-194 | with one URI, no force and no mishap of its own everybody who comes to an end succeeds, the losers of the race too |
| SourceRace.NoStepSkipped | cmd/axebom/source.go:98-182 | whoever is about to rename has looked, staged, extracted, checked, opened up and stamped, in this order |
| SourceRace.DestinationMoves | cmd/axebom/source.go:182-199 | in every run, forced or not, the destination changes only where a forcing process deletes or a process renames its own checked tree to where nothing is |
| SourceRace.ForceTakesOver | cmd/axebom/source.go:182-185 | after a removal and a rename that worked the forcing process's own tree is there, whatever stood there before |
| SourceRace.DigestSoundExactly | cmd/axebom/source.go:104-109 | whoever gave a digest can trust the tree in every run exactly when everybody with its URI gave that digest |
| SourceRace.WholeExactly | cmd/axebom/source.go:182-185 | the destination is never seen in pieces exactly when nobody forces or the one who forces is alone |
| SourceRace.Workspace.SourceMaterialize | cmd/axebom/source.go:74-199 | with anything the others do between its statements, a call is one of these runs and returns where its process ended; it fails only by a failure of its own or where another URI is |
| ProgressSocket.WaitRange | frontend/src/lib/ws.ts:61-66 | every wait is within a fifth of its base, so in [400, 36000] ms, for all attempts and all random values |
| ProgressSocket.BasesAre | frontend/src/lib/ws.ts:61-66 | the bases double from 500 to 30000 |
| ProgressSocket.JitterSpreads | frontend/src/lib/ws.ts:61-66 | the jitter is spread evenly from a fifth less to a fifth more |
| ProgressSocket.OneSocketOrOneTimer | frontend/src/lib/ws.ts:148-197 | until disposed, and unless a throw cut a retry or a close short: one live attached socket or one pending retry, never both or neither; every other socket closed; `attempt` counts the closes since the last open |
| ProgressSocket.StrandedExactly | frontend/src/lib/ws.ts:153-197 | a live connection has neither socket nor timer exactly when, in a retry, the handler or the socket factory threw or, in a close, the jitter, the handler or the setting of the timer |
| ProgressSocket.HandlersAreTold | frontend/src/lib/ws.ts:153-196 | over all runs, which handler is called with what, turn by turn, and that no stale socket or timer calls any |
| ProgressSocket.TurnsLeave | frontend/src/lib/ws.ts:148-223 | the counter, the socket and the timer after each turn of a live connection |
| ProgressSocket.SilentOnceDisposed | frontend/src/lib/ws.ts:201-223 | after the disposing turn no handler call, no new socket, no new timer |
| ProgressSocket.DisposingTurn | frontend/src/lib/ws.ts:153-167 | in the disposing turn a socket survives exactly when the disposer is called by the handler `open` calls and nothing throws, a timer exactly when by the one `onclose` calls and nothing throws |
| ProgressSocket.SocketAfterDispose | frontend/src/lib/ws.ts:156-167 | such a turn |
| ProgressSocket.Connection.OnClose | frontend/src/lib/ws.ts:189-196 | the closure's variables after a close, and a wait of at least 800 ms |
| ProgressSocket.Connection.DisposeNow | frontend/src/lib/ws.ts:201-223 | the disposer |
| SingleFlight.OneRenewalForAll | frontend/src/lib/api.ts:125-159 | in any interleaving at most one renewal is outstanding; a request sends at most twice, joins at most one, and ends as its replies and that renewal decide |
| SingleFlight.RequestMoves | frontend/src/lib/api.ts:146-159 | what moves a request on: its reply, and the end of the renewal it joined; a 401 joins the one under way or starts one |
| SingleFlight.RenewalMoves | frontend/src/lib/api.ts:127-133 | a renewal takes the first result it gets and then empties the variable |
| SingleFlight.SameResultForAll | frontend/src/lib/api.ts:127-133 | requests that waited for one renewal went the same way |
| SingleFlight.RenewalsBounded | frontend/src/lib/api.ts:226-235 | refresher calls never outnumber the requests that joined one |
| SingleFlight.Renewer.Renew | frontend/src/lib/api.ts:127-133 | `renew` on its module variables |
| SingleFlight.StartsOneAtATime | frontend/src/lib/auth.ts:125-136 | two starts never run at once; all but the last failed; the next caller after a cleared failure starts anew, any other shares the last |
| SingleFlight.StartMoves | frontend/src/lib/auth.ts:125-142 | a start takes its first result; only a failure is cleared |
| SingleFlight.OneManager | frontend/src/lib/auth.ts:138-142 | once a manager was built no start follows and every later caller gets that one |
| NormalizeOnce.LoadArtifacts | workers/sbom/normalize_consumer.py:133-191 | one artifact per engine in order, with what could be parsed and the engine's own status; what could not is failed; it raises exactly for a file that is not UTF-8, nested too deeply, with too long a number or with a NUL in its path |
| NormalizeOnce.NormalizedAtMostOnce | workers/sbom/normalize_consumer.py:211-309 | for overlapping redeliveries with deaths: never two rows for a key; acked only where the row is there or a cap refused this delivery in its own transaction; terminated only after a dead-letter attempt |
| NormalizeOnce.EndedExactly | workers/sbom/normalize_consumer.py:211-309 | in every run a delivery ended as already there, written, refused, raised or dead exactly when one of its own events made it so |
| NormalizeOnce.InsertWaits | migrations/normalize/0001_bom_components.sql:42-42 | an insert waits while another delivery is writing its key, and goes through once that one has ended without a row |
| NormalizeOnce.NoStepSkipped | workers/sbom/normalize_consumer.py:234-289 | whoever is writing a row found none, then prepared, then inserted |
| NormalizeOnce.DeadLetteredThoughWritten | workers/sbom/normalize_consumer.py:211-309 | over all runs a delivery dead-letters a trigger whose row is there exactly when a failed check or preparation, an insert meeting a row, a failed or an unseen commit ended it, and somebody committed |
| NormalizeOnce.RaceLostExactly | migrations/normalize/0001_bom_components.sql:42-42 | an insert meets a row exactly when a commit for its key fell between its delivery's check and itself |
| NormalizeOnce.LoserDeadLetters | workers/sbom/normalize_consumer.py:416-420 | such a run of two consumers |
| NormalizeOnce.Database.HandleTrigger | workers/sbom/normalize_consumer.py:211-309 | with anything the others do in between, a call is one of these runs and says how it ended; it is kept waiting only while its key is being written |
| ModelMerge.MergeIsGroupBy | workers/aibom/merge.py:44-69 | one model per identity in first-seen order, each its whole group combined |
| ModelMerge.SameModelExactly | workers/aibom/merge.py:92-115 | from the fields: with references the keys agree exactly when the references do, whatever purl and name say; with purls only, when the purls do; with names only, when the names do but for case |
| ModelMerge.GroupIsOneModel | workers/aibom/merge.py:55-69 | a group holds all the sightings of one model and of no other |
| ModelMerge.CombinedReads | workers/aibom/merge.py:118-128 | field by field: framework and provider are the first ones said, the rest is the first sighting's |
| ModelMerge.CardChosen | workers/aibom/merge.py:71-72 | a card is looked up by the reference as written, and only then by the key |
| ModelMerge.LocationsOrderFree | workers/aibom/merge.py:118-128 | a repeated model's locations are the sorted union of all, whatever the order of sightings |
| ModelMerge.CardsKeepUsage | workers/aibom/merge.py:131-164 | no card changes a usage field; a version only where discovery had none |
| ModelMerge.CollidesExactly | workers/aibom/merge.py:92-115 | when two different identities share a key |
| ModelMerge.UnnamedCollision | workers/aibom/merge.py:114-115 | a model called `<unnamed>` merges with those without a name |
| ModelMerge.Merge | workers/aibom/merge.py:44-89 | fresh models, one for all sightings of a model and for no others; duplicates = inputs - outputs; the dictionaries passed in are untouched |
| ModelMerge.Entry.ApplyCard | workers/aibom/merge.py:131-164 | the loop over MODEL_FIELDS on the dictionary |
| Roles.OneEntryPerOrganisation | frontend/src/lib/auth.ts:278-299 | one entry per organisation with a known role, carrying its highest role and that grant's domain, ordered |
| Roles.RanksAre | frontend/src/lib/auth.ts:260-261 | owner over admin over analyst over viewer over any other |
| Roles.HeldIsOrderFree | frontend/src/lib/auth.ts:285-297 | which grants there are decides what is held, not their order |
| Roles.EnumerationOrderFree | frontend/src/lib/auth.ts:278-299 | the same members for every enumeration |
| RoleOrder.SameListExactly | frontend/src/lib/auth.ts:285-298 | the list is the same for every enumeration of a claim exactly when no two organisations in it collate alike and can each be seen before the other, by a role of its own or by where `Object.entries` may list it |
| RoleOrder.SameListForPlainIds | frontend/src/lib/auth.ts:290-298 | where no organisation id is an array index: exactly when no two collate alike |
| Roles.EqualDomainsFollowEnumeration | frontend/src/lib/auth.ts:298-298 | two such organisations, listed either way |
| Roles.MembershipsFrom | frontend/src/lib/auth.ts:278-299 | the nested loops over the claim |
| EnvFile.OrderFreeExactly | cmd/axebom/iam.go:254-261 | a line comes out the same for every map order exactly when the keys that match it agree; keys without `=` always do |
| EnvFile.UpsertedLines | cmd/axebom/iam.go:252-272 | every KEY= line holds the new value, other lines are untouched, each missing key is appended once, sorted |
| EnvFile.MatchesExactly | cmd/axebom/iam.go:256-256 | a line is a key's exactly when it starts with `KEY=` |
| Order.LessExactly | cmd/axebom/iam.go:269-269 | texts are sorted by the first character they differ in, a beginning before what it begins |
| EnvFile.SameTextForEveryOrder | cmd/axebom/iam.go:252-274 | two runs with any map orders write the same text |
| EnvFile.SecondRunChangesNothing | cmd/axebom/iam.go:252-274 | for keys without `=` and one-line values, a second run over the written text changes nothing |
| EnvFile.KeysWithEqualsConflict | cmd/axebom/iam.go:255-260 | keys A and A=B make the result depend on the order |
| EnvFile.NewFileHasEmptyFirstLine | cmd/axebom/iam.go:246-252 | a new file begins with an empty line |
| EnvFile.RewriteLines | cmd/axebom/iam.go:253-261 | the first loop on the slice in place |
| EnvFile.Upsert | cmd/axebom/iam.go:252-274 | the whole function on the text |
| Encoding.HexRoundTrip | libs/go-shared/auth/apikey.go:255-255 | hexadecimal of any bytes reads back (RFC 4648, section 8) |
| Encoding.RawRoundTrip | libs/go-shared/auth/token.go:197-198 | unpadded base64 of any bytes reads back, in both alphabets (RFC 4648, sections 4 and 5) |
| Encoding.PaddedRoundTrip | cmd/axebom/verify.go:208-210 | so does padded base64 |
| Encoding.HexDecodesExactly | cmd/axebom/verify.go:205-207 | exactly an even number of digits of either case decodes |
| Encoding.RawDecodesExactly | libs/go-shared/auth/token.go:197-198 | exactly symbols of the alphabet, line breaks apart, and not one too many decode |
| Encoding.PaddedDecodesExactly | cmd/axebom/verify.go:208-210 | exactly symbols and the equals signs that fill up the last group decode |
| Encoding.DecodedGroup | libs/go-shared/auth/token.go:197-198 | four symbols spell three bytes as one number; spare bits do not count |
| Encoding.AlphabetsAre | libs/go-shared/auth/token.go:197-198 | the two alphabets (RFC 4648, sections 4 and 5) |
| Credentials.KeyIdRecovered | libs/go-shared/auth/apikey.go:280-290 | the id of a key comes back whatever the secret; an id of another length never does |
| Credentials.KeyIdExactly | libs/go-shared/auth/apikey.go:280-290 | of any text, the id is the twelve characters between `ebk_` and the next underscore |
| Credentials.KeyTextsDiffer | libs/go-shared/auth/apikey.go:255-257 | a key text determines id and secret |
| Credentials.ThreeParts | libs/go-shared/auth/token.go:140-147 | a signed token is exactly three parts that decode to header, claims and MAC |
| Credentials.VerifiesExactly | libs/go-shared/auth/token.go:153-189 | an issuer accepts its token, as those claims, exactly while they are in order |
| Credentials.AcceptedExactly | libs/go-shared/auth/token.go:153-189 | over every text, issuer and moment: claims are accepted exactly when the text is three parts whose third is this issuer's MAC of the others, the second says those claims, and they are in order |
| Credentials.ForgedExactly | libs/go-shared/auth/token.go:160-169 | a text whose third part decodes to anything else is refused for that, whatever it claims |
| Credentials.IssuedWindow | libs/go-shared/auth/token.go:55-71 | the exact time window of an issued token, by whole seconds |
| Credentials.HashRoundTrip | libs/go-shared/auth/password.go:112-145 | all parameters, salt and key come back out of a hash |
| Credentials.HashTextIs | libs/go-shared/auth/password.go:64-82 | the text of a hash |
| Credentials.HashDecodedExactly | libs/go-shared/auth/password.go:112-145 | over every text: what is decoded is what the text says, and a text that says nothing is refused |
| Credentials.RehashExactly | libs/go-shared/auth/password.go:102-110 | rehash exactly when memory, iterations or key length is below policy; never under its own policy |
| Credentials.RehashAnyText | libs/go-shared/auth/password.go:102-110 | over every text: it can stay exactly when it says parameters none of which is below policy |
| Credentials.OneReadingFits | cmd/axebom/verify.go:196-202 | 32 bytes of hexadecimal are 48 as base64, so the readings never both fit |
| Credentials.DecodeKey | cmd/axebom/verify.go:203-223 | the loop over candidates returns the reading of the right size, or the first |
| Credentials.KeyRoundTrip | cmd/axebom/verify.go:203-223 | any 32 bytes come back from hexadecimal and from base64 |
| DbSync.StampedExactly | workers/sbom/dbsync.py:226-379 | a run that starts unstamped or forced, dying anywhere, leaves a stamp exactly with all the evidence, or when it never came to removing the old one |
| DbSync.EvidenceExactly | workers/sbom/dbsync.py:243-362 | the evidence, written out condition by condition |
| DbSync.SucceededExactly | workers/sbom/dbsync.py:226-379 | success is reported exactly with the evidence and by a run that lived to write the stamp |
| DbSync.LeftByFailure | workers/sbom/dbsync.py:243-333 | what a failed download leaves behind |
| DbSync.DownloadedExactly | workers/sbom/dbsync.py:335-344 | the evidence implies a non-empty download exactly when the directory held no bytes before |
| DbSync.OldStampOutlivesFailure | workers/sbom/dbsync.py:226-235 | without force an old stamp stays through a failed download |
| DbSync.AllReadableExactly | workers/sbom/dbsync.py:346-362 | a stamped directory is readable as a whole exactly when every file in it was readable or really opened up |
| DbSync.StampMeansReadableExactly | workers/sbom/dbsync.py:346-362 | of a download with bytes the stamp says, whatever the chmod pass does, that all is readable exactly when every file but the first was readable before |
| DbSync.OnlyFirstFileChecked | workers/sbom/dbsync.py:555-559 | a stamped directory with a file the scan uid cannot read |
| DbSync.DownloadedBytes | workers/sbom/dbsync.py:573-579 | the total, positive exactly when some file is not empty |
| DbSync.Directory.Provision | workers/sbom/dbsync.py:210-379 | `provision` statement by statement, dying after any number of effects |
| DeviceMetadata.Partition | workers/qbom/metadata.py:81-123 | every field has its column and status; the gaps are the fields not provided, in profile order; provided + gaps = fields |
| DeviceMetadata.GapsExactly | workers/qbom/metadata.py:126-139 | a value is a gap exactly when it is none, an empty collection or a word for a gap, whatever its case and blanks |
| DeviceMetadata.RowSays | workers/qbom/metadata.py:81-123 | what the row holds for a field: each derived one its own references, any other what was entered or a gap |
| DeviceMetadata.NormalizedTwice | workers/qbom/metadata.py:65-123 | feeding the row back gives the same row, statuses and gaps |
| DeviceMetadata.NormalizeDevice | workers/qbom/metadata.py:65-123 | the loop that fills row, statuses and gaps |

## Left out

- HbomRows.ReadLevel: digits are ASCII; Python's `isdigit` and `int` also take other Unicode digits, and `int` refuses more than 4300 of them.
- HbomRows.QuantityRead: what `int(float(text))` makes of a cell is a parameter (a number, a ValueError, or the OverflowError of an infinity); rounding beyond 2^53 is inside that parameter, and `HbomRoutes.FormAndFileAgree` asks that a printed quantity reads back.
- HbomModel.NormalizeFields: lower-casing is ASCII.
- HbomParse.Parse: CSV tokenising, `ColumnMapping.suggest`, unmapped headers and duplicate-part warnings; the rows arrive as DictReader yields them.
- HbomForm.FromPayload: JSON types other than text, list and object are reduced to what `str()` and `int()` make of them.
- Profile rows: `to_profile_row`, coverage scoring and diagnostics are one look-up per field.
- RoleOrder.Enumerated: where a role nobody knows stands among the keys is left open; it contributes nothing.
- SourceRace.MakeReadable: file modes are values of a tree; the descriptor-level symlink race is the parameter `opens`.
- SourceRace.Next: staging directories are private to their process; removing them is not modelled. A destination that exists but is empty counts as present.
- WorkerJob.StoredResultIsFinal: deliveries of one job follow each other; overlap of one job's deliveries is only in `Delivery`.
- Delivery.Next: the broker is its guarantee only (a settled or four times delivered message is not delivered again); streams, retention and publish deduplication are not modelled.
- Credentials.ScanNumber: accepts digits only; leading blanks and a plus sign, which Sscanf also takes, are not modelled.
- Credentials.VerifyAccess: MAC and JSON are functions of the issuer; `VerifiesExactly` asks that the JSON of the claims reads back.
- ModelMerge.Merge: dictionary values other than text and the list of locations are not distinguished.
- Roles.SortBy: `localeCompare` is a collation key per domain.
- ProgressSocket.BackoffMs: numbers are reals; frame parsing is a flag.
- NormalizeOnce.Next: what `persist_clusters` and the pipeline compute; only that they may fail, and that the transaction is atomic.
- DbSync.Provisioned: containers are what they write, their exit code and whether a copy out worked.
- The authorization matrix, scope tables, preflight, CLI printing and React components: finite tables or presentation.
