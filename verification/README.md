# Verification model of the landing-zone tooling

A Dafny model of the decision logic of the landing-zone CLI, with proofs of what that logic is
relied on for. `dafny verify dfyconfig.toml` checks all of it.

## What is modelled

**Brownfield migrations.** Converge polls and operator runs decide whether a live object carries a
declared value, check the owning Argo Application, record the attempt, probe that the field really
is immutable and orphan-delete the object. `Brownfield` is the protocol as functions over a
*timeline*: a snapshot of the cluster per tick, chosen freely, Argo included. Each call consumes one
snapshot and appends one event to a log. Reads may fail, a write that reports failure may have
been applied. `AttemptRecord` is the ConfigMap with server-side-apply ownership, `OwnerGuard` the
check on the Application, `BrownfieldEngine` the imperative engine proved equal to the protocol,
`BrownfieldSafety` the theorems over whole histories, `BrownfieldAnswers` and `BrownfieldReports`
what an operator run answers and a converge pass reports, by the events of the run,
`BrownfieldRecords` what a converge run leaves in the records, and `BrownfieldExamples` the clusters
on which the bounds are met.

The assumptions are these. Runs follow one another; only the engine writes the record map; a
`DeleteOrphan` that reports an error has deleted nothing. The live object is never constrained:
after a delete it may be back in the old shape at the next tick.

**Overlay values.** `AssertedMerge` is the merge that reports whether it changed anything,
`AssertedMergeHeap` the same merge on mutable maps that come to share parts of the asserted tree,
`AssertedMergeSharing` what that sharing can do to the assertion,
`AppSpec` the two writers on one file. `HelmValues` and `HelmParameters` say what an Application
declares at a path. `OverlayFields` reads a declared path off a live object and checks that a patch
writes that path and nothing else. `Quantities` is Kubernetes' quantity arithmetic over rationals.

**The repository fence.** `FileSystem` is a tree of directories, files and links with the kernel's
path resolution after section 4.13 of the POSIX.1-2017 Base Definitions, at its limit of 40 links,
and beside it Go's `EvalSymlinks`, which follows 255 links and answers a text: absolute, or relative
to the working directory. `PathText` is cleaning, joining and comparing paths as text; `PathFence`
holds the reader's and the writer's resolvers for a root given as any text ("." and runs of ".."
included); `WriterFence` says what an accepted write touches, `ReaderAndWriter` compares the two
resolvers, `FenceAnswers` says what either answers for any path and that accepted operations do their
work, `FenceExamples` has the trees on which they part, and `RepoWriter` is the object whose
operations change the disk.

**The `gh api` scanner.** `GhArgv` is the grammar of flags and positionals, `Forge` the scanner, the
classification and the grants, `ForgeSpellings` what they come to on the texts a caller types.

**OpenBao policies.** `OpenBao` has matching and the operator policy, `OpenBaoValidation` the
validator. A path is the list of its slash-separated segments; `Text.SplitJoin` and
`Text.JoinSplit` show that this loses nothing.

**Smaller loops.** `BaoExec` (two retry budgets, verdicts on a failed read), `Inheritance`
(component toggles), `ObjLabels` (bucket labels).

## Where the code and its comments differ

The model follows the code.

- `overlay_fields.go:869` says only the selected element's own top-level siblings are exempt. The
  flag is passed on below the element (line 885), so plain siblings in deeper maps are exempt too
  (`OverlayFields.ExemptionReachesDeeper`).
- `repowrite.go:134` says `RemoveAll` of an outward link is refused; the code exempts it, since
  removing a link cannot leave the tree.
- `repowrite.go:137-143` says the writer is never weaker than the reader. It accepts three kinds of
  existing path the reader refuses (`ReaderAndWriter.WriterTakesWhatReaderRefuses`): a name the kernel
  cannot reach, a name directly in the root that begins with two dots, and a bare climb, which only
  a root text with ".." after a name is cleaned to. The first two are harmless
  (`ReaderAndWriter.WriterFollowsReader`, `FenceExamples.DottedNameParts`, `FenceExamples.FarNameParts`).
- `repo.go:235-236` says `within` reports whether a path is the root or beneath it. From a relative
  root it also refuses what an absolute link leads to inside the root
  (`ReaderAndWriter.ReaderRefusesExactly`, `FenceExamples.InwardLinkParts`).
- `repowrite.go:163-166` returns the lexical path. For a root text with ".." after a name that path can
  be another place than the root (`FenceExamples.BareClimbLeaves`; exactly when,
  `WriterFence.RemoveAllLeavesExactly`); a root without one, such as "." or "..", is not affected.
- `exec.go:134` puts the pod-state budget at about 42 s; the waits add up to 30 s.
- `brownfield.go:651-661` withdraws the record when a delete fails. If the read of an existing
  record failed in that run, the record found is withdrawn with it
  (`BrownfieldExamples.UnreadRecordIsLost`; exactly when, `BrownfieldSafety.FailedRunRestores` and
  `BrownfieldRecords.ConvergeRecords`).
- `brownfield.go:553-554` says the mark of a warning cannot collide with the attempts kept in the same
  map. A migration called `warned:x` beside one called `x` does collide
  (`BrownfieldReports.WarningNameIsSkipped`).
- `overlay_appvalues.go:478-506` promises a quiet reconciler. A sequence that asserts one name twice
  with different values is never quiet (`AssertedMerge.DuplicateNamesPushForever`), and since the maps
  are shared the run can rewrite the assertion itself
  (`AssertedMergeSharing.DuplicateNameRewritesAsserted`; exactly when,
  `AssertedMergeSharing.SharedMapEndsMerged`).
- `overlay_appvalues.go:522-524` says every sequence is replaced wholesale; sequences of named maps
  merge by name.

## Model

| member | source | states |
|---|---|---|
| BrownfieldSafety.DeletesAreBounded | tools/internal/shared/brownfield/brownfield.go:341-414 | Over every sequence of converge and operator runs, whatever the cluster answers at each call: deletes of a migration, plus one while it has no record, are at most one plus its forced runs plus the reads that failed although its record was there |
| BrownfieldSafety.BoundIsReached | tools/internal/shared/brownfield/brownfield.go:475-497 | The bound is exact: where Argo always puts the old shape back and the record stops being readable, n + 1 unforced runs delete n + 1 times with n failed reads |
| BrownfieldExamples.HostileExists | tools/internal/shared/brownfield/brownfield.go:475-497 | Such a cluster exists: one row, one owning application, a probe refused for immutability |
| BrownfieldExamples.ForcedBoundIsReached | tools/internal/shared/brownfield/brownfield.go:651-655 | The bound is exact in the forced runs too: with every record readable, one unforced and n forced runs delete n + 1 times |
| BrownfieldExamples.StubbornExists | tools/internal/shared/brownfield/brownfield.go:651-655 | Such a cluster exists as well |
| BrownfieldSafety.RunIsSafe | tools/internal/shared/brownfield/brownfield.go:1190-1274 | Every run of either driver keeps the invariant, deletes at most once per migration, forces only when told, and each delete it makes is justified by what the same run read |
| BrownfieldSafety.ConvergeDeletesAtMostOnce | tools/internal/shared/brownfield/brownfield.go:1171-1190 | A converge run deletes for a migration at most once over all its polls, never clears by force, and justifies each delete by its own reads |
| BrownfieldSafety.RunMigrationIsSafe | tools/internal/shared/brownfield/brownfield.go:580-684 | An operator run deletes at most once and only for the migration it names; an unforced run whose delete failed ends by taking the record back |
| BrownfieldSafety.PlanWritesNothing | tools/internal/shared/brownfield/brownfield.go:595-645 | A dry run, and a run without --yes, only reads: the record store is untouched |
| BrownfieldSafety.FailedRunRestores | tools/internal/shared/brownfield/brownfield.go:651-661 | An unforced operator run whose delete failed and whose clear went through leaves the records as it found them exactly when it found none of its own, and it can only have found one through a failed read |
| BrownfieldExamples.UnreadRecordIsLost | tools/internal/shared/brownfield/brownfield.go:651-661 | A run that finds a record it cannot read, fails to delete and takes its own record back answers with the refusal and leaves no record |
| BrownfieldRecords.ConvergeRecords | tools/internal/shared/brownfield/brownfield.go:1242-1265 | After a converge run of any number of polls: a migration the run never recorded keeps its entry, one whose record was taken back has none, and one whose earlier record was overwritten had failed to read it |
| BrownfieldRecords.FailedConvergeRestores | tools/internal/shared/brownfield/brownfield.go:1242-1265 | A converge run that took back every record it wrote leaves the records as it found them exactly when it found none of those it wrote |
| BrownfieldSafety.AttemptIsSafe | tools/internal/shared/brownfield/brownfield.go:1242-1265 | One attempt deletes at most once, only this migration, with its record present and written just before; a refused attempt leaves every other record as it was |
| BrownfieldSafety.DeleteIsJustified | tools/internal/shared/brownfield/brownfield.go:1080-1134 | Record, refused probe and delete of the same row follow one another, after the run read the object lacking the value and its owner ready |
| BrownfieldSafety.ReadStatusIsFresh | tools/internal/shared/brownfield/brownfield.go:341-414 | A pending status means the object was read lacking the declared value and that a delete is still allowed |
| BrownfieldSafety.ForcedClearIsSafe | tools/internal/shared/brownfield/brownfield.go:651-655 | Clearing a record by force allows exactly one more delete of that migration and disturbs no other |
| BrownfieldSafety.AwaitIsBounded | tools/internal/shared/brownfield/brownfield.go:664-683 | The wait for the recreate makes at most 37 rounds of reads |
| BrownfieldAnswers.StatusMeans | tools/internal/shared/brownfield/brownfield.go:341-414 | Each status by what its one read showed: delivered, gone, lacking without or with a record found, or nothing that can be read |
| BrownfieldAnswers.AwaitMeans | tools/internal/shared/brownfield/brownfield.go:664-683 | The wait succeeds exactly when one of its looks finds the declared value, gives up only when none does and six minutes are over, and looks again only before |
| BrownfieldAnswers.AttemptMeans | tools/internal/shared/brownfield/brownfield.go:646-662 | An attempt deletes once, or ends with the record unwritten or taken back, for the reason the probe or the delete gave; only a transient refusal is inconclusive |
| BrownfieldAnswers.RunAnswers | tools/internal/shared/brownfield/brownfield.go:580-684 | Every answer of the operator run, by the first row that names the migration, what this run read about it and its owner, and what it then did |
| BrownfieldAnswers.DeletingRunsSay | tools/internal/shared/brownfield/brownfield.go:663-683 | Success is answered exactly by a run that deleted the object and last saw it back with the value, a timeout by one that deleted it, never saw the value since and waited six minutes; under every other answer the run deleted nothing |
| BrownfieldAnswers.ProbeMeans | tools/internal/shared/brownfield/brownfield.go:1080-1134 | The probe is sent exactly when the row's builder makes a patch that writes the declared value at the row's path and nothing else |
| BrownfieldReports.StepAdds | tools/internal/shared/brownfield/brownfield.go:1195-1273 | What one status adds to a pass: its report entry, and the events that are the reason for it |
| BrownfieldReports.PassReports | tools/internal/shared/brownfield/brownfield.go:1190-1274 | The applied list is the deletes of the pass in order, and every error, inconclusive, deferred and absent entry has its reason in the pass |
| BrownfieldReports.EveryStatusIsTold | tools/internal/shared/brownfield/brownfield.go:1190-1274 | Every status that is not done and was not tried before is in the report, provided no migration is called like the mark of another one's warning |
| BrownfieldReports.WarningNameIsSkipped | tools/internal/shared/brownfield/brownfield.go:546-565 | Such a name is passed over without a word once the other migration has been warned about |
| BrownfieldReports.StepLatches | tools/internal/shared/brownfield/brownfield.go:546-565 | Only an attempt, or a migration nothing recreates, is struck from the rest of the run; whatever else is skipped is looked at again |
| AttemptRecord.RecordKeepsOthers | tools/internal/shared/brownfield/brownfield.go:508-529 | Recording one migration by server-side apply adds its key and never removes another, because each key has its own field manager |
| AttemptRecord.ClearKeepsOthers | tools/internal/shared/brownfield/brownfield.go:533-539 | Clearing one migration removes its key and no other |
| AttemptRecord.SharedManagerForgets | tools/internal/shared/brownfield/brownfield.go:517-524 | With one shared manager, recording a second migration would remove the first one's key |
| OwnerGuard.ValueDocs | tools/internal/shared/brownfield/brownfield.go:830-853 | Every values document of every source, in ascending precedence |
| OwnerGuard.ReadyMeansRendered | tools/internal/shared/brownfield/brownfield.go:702-787 | When no later document hides the path, a ready owner means a value was found that prints as the declared one and the full Helm merge carries it: a scalar or list as it is, a map with every scalar and list it holds; on a Synced, self-healing application |
| OwnerGuard.SourceSays | tools/internal/shared/brownfield/brownfield.go:830-853 | Inside one source the parameters win over valuesObject and valuesObject over values |
| OwnerGuard.LastSourceDecides | tools/internal/shared/brownfield/brownfield.go:860-878 | Across sources the last one that says anything at a path decides it |
| OwnerGuard.ReadyExactly | tools/internal/shared/brownfield/brownfield.go:702-787 | The guard says ready exactly for a synced, self-healing Application without an error whose deciding source says what prints as the declared value; otherwise it reports what that source says |
| OwnerGuard.ParameterDecides | tools/internal/shared/brownfield/brownfield.go:880-916 | The last parameter of a name beats everything the same source says at that path |
| BrownfieldEngine.Engine.MigrationStatus | tools/internal/shared/brownfield/brownfield.go:341-414 | The imperative status check is the protocol's status step |
| BrownfieldEngine.Engine.MigrationStatuses | tools/internal/shared/brownfield/brownfield.go:321-339 | The loop over the field map computes every status in order |
| BrownfieldEngine.Engine.OwnerCanRecreate | tools/internal/shared/brownfield/brownfield.go:702-787 | One read of the owning application, with the guard's verdict |
| BrownfieldEngine.Engine.RecreateObject | tools/internal/shared/brownfield/brownfield.go:982-997 | Probe, then delete, exactly as the protocol step |
| BrownfieldEngine.Engine.ApplyOne | tools/internal/shared/brownfield/brownfield.go:1195-1273 | One turn of the unattended loop, with the caller's record of attempts updated in place |
| BrownfieldEngine.Engine.ApplyPendingMigrations | tools/internal/shared/brownfield/brownfield.go:1190-1274 | The unattended pass; without a caller's record nothing is remembered |
| BrownfieldEngine.Engine.RunConverge | tools/internal/extensions/lifecycle/converge/health.go:224-351 | Every poll of a converge run shares one record of attempts |
| BrownfieldEngine.Engine.AwaitRecreate | tools/internal/shared/brownfield/brownfield.go:664-683 | The poll loop is the protocol's bounded wait |
| BrownfieldEngine.Engine.RunMigrationById | tools/internal/shared/brownfield/brownfield.go:580-684 | The operator's run, refusals included |
| HelmValues.MergeMaps | tools/internal/shared/clusterspec/overlay.go:318-334 | The in-place merge is the deep merge, whatever order the map gives its keys |
| HelmValues.DesiredValue | tools/internal/shared/brownfield/brownfield.go:869-878 | The loop returns what the last document carrying the path says |
| HelmValues.LookupMerged | tools/internal/shared/clusterspec/overlay.go:318-334 | One deep-merge step seen along one path, for every pair of documents |
| HelmValues.LastCarriedVersusMerged | tools/internal/shared/brownfield/brownfield.go:860-878 | The document-by-document lookup equals the lookup in the merged values if and only if no document after the carrier puts a non-map on the way |
| HelmValues.BlockedDocumentMisleads | tools/internal/shared/brownfield/brownfield.go:860-878 | A later scalar above the path hides the value from Helm but not from the lookup |
| HelmValues.AssertedMergeIsDeepMerge | tools/internal/shared/clusterspec/overlay_appvalues.go:516-524 | Without named sequences the asserted merge is the reference deep merge |
| HelmParameters.SplitHelmPath | tools/internal/shared/brownfield/brownfield.go:921-937 | The scanning loop splits on unescaped dots |
| HelmParameters.SplitInvertsJoin | tools/internal/shared/brownfield/brownfield.go:918-937 | Splitting inverts escaping and joining exactly on lists in which no segment but the last ends in a backslash |
| HelmParameters.ParametersDoc | tools/internal/shared/brownfield/brownfield.go:883-916 | The loop builds the document of all parameters; no parameters give no document |
| HelmParameters.LookupSet | tools/internal/shared/brownfield/brownfield.go:890-913 | Setting one dotted name in any document: a scalar on the way stops it without a trace, otherwise its value is at its path, maps lead there, nothing is left below it, and no other path moves |
| HelmParameters.DocumentHoldsIffPrefixFree | tools/internal/shared/brownfield/brownfield.go:883-916 | The document carries each name's last value and nothing else if and only if no name splits to a proper prefix of another |
| AssertedMerge.ChangesIffNotCovered | tools/internal/shared/clusterspec/overlay_appvalues.go:525-569 | The change flag is set exactly when the base does not cover the asserted tree, and unset means the document is untouched |
| AssertedMerge.ChangesIffDifferent | tools/internal/shared/clusterspec/overlay_appvalues.go:516-524 | For a self-consistent assertion the flag is set exactly when the document written differs from the one read |
| AssertedMerge.MergeCovers | tools/internal/shared/clusterspec/overlay_appvalues.go:525-569 | After merging a self-consistent assertion nothing asserted is left to write |
| AssertedMerge.QuiescesIffSelfConsistent | tools/internal/shared/clusterspec/overlay_appvalues.go:478-506 | Every document settles after one merge if and only if the asserted tree covers itself |
| AssertedMerge.DistinctIsSelfConsistent | tools/internal/shared/clusterspec/overlay_appvalues.go:615-643 | Distinct names in every asserted named sequence make the assertion self-consistent |
| AssertedMerge.DuplicateNamesPushForever | tools/internal/shared/clusterspec/overlay_appvalues.go:620-643 | One name asserted twice with different values reports a change on every pass while writing back the same document |
| AssertedMerge.CoversTransitive | tools/internal/shared/clusterspec/overlay_appvalues.go:525-569 | Covering is transitive, so anything that only adds to a covering document still covers |
| AssertedMerge.MergeKeepsUnasserted | tools/internal/shared/clusterspec/overlay_appvalues.go:525-569 | Whatever the assertion does not speak of reads as before, along any path of keys and named list entries: also a key the operator filled into an entry the assertion names |
| AssertedMerge.MergeKeepsUnassertedAt | tools/internal/shared/clusterspec/overlay_appvalues.go:620-643 | Entry by entry, shadowed ones included: what no asserted entry of the same name speaks of stays |
| AssertedMerge.MergeEntriesCoverLast | tools/internal/shared/clusterspec/overlay_appvalues.go:620-643 | The entry filed under a name ends up covering the last entry asserted under it |
| AssertedMerge.MergeEntriesKeepsIndex | tools/internal/shared/clusterspec/overlay_appvalues.go:620-643 | A name the base files stays at the base's index |
| AssertedMerge.MergeEntriesKeeps | tools/internal/shared/clusterspec/overlay_appvalues.go:620-643 | Unnamed and shadowed entries stay in place unchanged, and new ones follow verbatim in order |
| AssertedMerge.OtherListsAreReplaced | tools/internal/shared/clusterspec/overlay_appvalues.go:541-569 | A list with an entry without a text for a name, an empty assertion, or anything but a list underneath is replaced as a unit and counts as a change exactly when it differs |
| AssertedMergeHeap.MergeAsserted | tools/internal/shared/clusterspec/overlay_appvalues.go:525-569 | The in-place merge of maps that come to share parts computes the specified tree and flag for every assertion, repeated names included; the asserted map is never written to, and with distinct names nothing below it is |
| AssertedMergeHeap.MergeNamedSeq | tools/internal/shared/clusterspec/overlay_appvalues.go:620-643 | The indexed loop over entries, merging in place or appending by reference, computes the specified list and flag for every list; with distinct names it writes to no asserted entry |
| AssertedMergeHeap.IndexNames | tools/internal/shared/clusterspec/overlay_appvalues.go:621-627 | The index files each name under its last position |
| AssertedMergeHeap.NamedMapSeqsMeansNamedSeqs | tools/internal/shared/clusterspec/overlay_appvalues.go:596-614 | The shape test on references is the shape test on the trees they stand for |
| AssertedMergeSharing.MergeSharesEntryMap | tools/internal/shared/clusterspec/overlay_appvalues.go:620-643 | A field the base entry lacks and every asserted entry of that name fills with a map ends up as one map under both the written and the asserted entry |
| AssertedMergeSharing.SharedMapEndsMerged | tools/internal/shared/clusterspec/overlay_appvalues.go:620-643 | That shared map ends as what the written document holds there, so the asserted tree still says what it said at that field exactly when the merged value is the asserted one |
| AssertedMergeSharing.DuplicateNameRewritesAsserted | tools/internal/shared/clusterspec/overlay_appvalues.go:620-643 | Derived from it, one run with a name asserted twice: the map the first asserted entry brought still hangs in the asserted tree and holds the second entry's value |
| AssertedMergeSharing.NewPair | tools/internal/shared/clusterspec/overlay_appvalues.go:620-643 | A base and an assertion with such a repeated name exist |
| AppSpec.SetAppSpec | tools/internal/shared/clusterspec/overlay_appvalues.go:478-506 | Setting the app spec is one asserted merge, including the arms that replace a missing or mistyped part |
| AppSpec.WhatIsWritten | tools/internal/shared/clusterspec/overlay_appvalues.go:478-506 | What is written, key by key: spec.enabled for a toggle, spec._rawValues merged over what was there for values, nothing for neither |
| AppSpec.MergeSplits | tools/internal/shared/clusterspec/overlay_appvalues.go:478-506 | Assertions under different keys merge and change independently |
| AppSpec.PushesBounded | tools/internal/shared/clusterspec/overlay_appvalues.go:478-506 | Over any interleaving with an operator the pushes are at most one plus the operator turns that broke an asserted value |
| AppSpec.GrowthNeverFightsBack | tools/internal/shared/clusterspec/overlay_appvalues.go:478-506 | An operator that keeps covering what it found, by adding, reordering or filling defaults, is never pushed against more than once |
| AppSpec.AddedKeysCover | tools/internal/shared/clusterspec/overlay_appvalues.go:478-506 | Adding keys to a document is such a turn exactly when the document agrees with itself |
| AppSpec.FilledValueCovers | tools/internal/shared/clusterspec/overlay_appvalues.go:478-506 | So is rewriting one value into one that covers it, as filling in defaults does |
| AppSpec.RearrangedEntriesCover | tools/internal/shared/clusterspec/overlay_appvalues.go:541-556 | So is putting named entries in any order, adding others and filling keys into each, while no name repeats |
| AppSpec.PermutedEntriesCover | tools/internal/shared/clusterspec/overlay_appvalues.go:541-556 | In particular every permutation of distinct, self-consistent entries |
| AppSpec.AssertedDocConsistent | tools/internal/shared/clusterspec/overlay_appvalues.go:478-506 | The asserted document is self-consistent exactly when its raw values are |
| Values.RawValue | tools/internal/shared/clusterspec/overlay_fields.go:269-282 | The cursor loop is the path lookup |
| OverlayFields.LiveValue | tools/internal/shared/clusterspec/overlay_fields.go:326-361 | The cursor loop finds the value, or says whether a key or a selector was missing |
| OverlayFields.SelectByField | tools/internal/shared/clusterspec/overlay_fields.go:369-380 | The first element whose field has the wanted text |
| OverlayFields.LiveMeans | tools/internal/shared/clusterspec/overlay_fields.go:326-361 | A live path is found, absent or a missed selector exactly as the walk along it ends at its end, at a missing key or at a selector that picks nothing |
| OverlayFields.PresenceMeans | tools/internal/shared/clusterspec/overlay_fields.go:452-485 | For a presence row and any object: true is met exactly by a list with an entry, false exactly by no key, a null or an empty list; anything else cannot be read |
| OverlayFields.ScalarMeans | tools/internal/shared/clusterspec/overlay_fields.go:486-497 | For a scalar row an absent key lacks the value, a value there is compared, and only a missed selector cannot be read |
| OverlayFields.NoExtraWritesMeansWritesOnly | tools/internal/shared/clusterspec/overlay_fields.go:849-930 | No extra write is reported exactly when the patch is one chain down the path with exempt siblings only |
| OverlayFields.AcceptedExactlyWhen | tools/internal/shared/clusterspec/overlay_fields.go:775-816 | A patch is accepted exactly when it reaches the path, carries the declared value there and is a single write |
| OverlayFields.AcceptedPatchDelivers | tools/internal/shared/clusterspec/overlay_fields.go:775-816 | An accepted patch merged into any object moves nothing off the path and makes the row read as delivered, except on scalar rows for a null, and for a map whose merge with the map already there prints differently from what was declared |
| OverlayFields.AcceptedPresenceHolds | tools/internal/shared/clusterspec/overlay_fields.go:775-816 | After an accepted patch of a presence row every object holds a list with an entry at the path for true, and none for false |
| OverlayFields.WritesOnlyMovesOnly | tools/internal/shared/clusterspec/overlay_fields.go:849-913 | Merging a single-write patch puts the payload at the path and leaves everything else alone |
| OverlayFields.ApplyWithoutSelectors | tools/internal/shared/clusterspec/overlay_fields.go:775-816 | Without selectors the merge is the JSON merge patch of section 2 of RFC 7396 |
| OverlayFields.ExemptionReachesDeeper | tools/internal/shared/clusterspec/overlay_fields.go:868-880 | A plain sibling in a map deeper inside the selected element is accepted too |
| Quantities.QuantityRat | tools/internal/shared/clusterspec/overlay_fields.go:621-668 | The scaling loop computes mantissa times base to the exponent, exactly |
| Quantities.ParseRender | tools/internal/shared/clusterspec/overlay_fields.go:598-640 | Every well-formed quantity parses back to itself, so a capture is unique and an E is an exponent exactly when digits follow |
| Quantities.ParseSound | tools/internal/shared/clusterspec/overlay_fields.go:598-640 | Whatever is captured spells the whole text |
| Quantities.ReadingNeedsAQuantity | tools/internal/shared/clusterspec/overlay_fields.go:621-668 | A value has an amount exactly when it is spelled as a well-formed quantity with a known suffix |
| Quantities.ScalarEqualMeans | tools/internal/shared/clusterspec/overlay_fields.go:534-541 | Two quantities, one of them marked, are equal exactly when their amounts are, otherwise exactly when they are spelled alike |
| Quantities.IntReadsAsItself | tools/internal/shared/clusterspec/overlay_fields.go:554-592 | An integer reads as the amount it is |
| Quantities.MilliIsAThousandth | tools/internal/shared/clusterspec/overlay_fields.go:534-541 | A whole amount equals its thousandfold in milli units |
| Quantities.AmountMeans | tools/internal/shared/clusterspec/overlay_fields.go:574-668 | The amount of a quantity is its digits, shifted by its decimal places and exponent, times one of its unit in plain numbers; a unit outside the list has none |
| Quantities.UnitsCompare | tools/internal/shared/clusterspec/overlay_fields.go:534-541 | Whole numbers with units are equal exactly when they are the same number of ones |
| Quantities.IntTextIsShortest | tools/internal/shared/clusterspec/overlay_fields.go:554-570 | An integer is spelled without a leading zero and with a sign only when negative |
| Quantities.ScalarEqualChainsExactly | tools/internal/shared/clusterspec/overlay_fields.go:534-541 | Of three scalars equal in turn the outer two are equal exactly when they are spelled alike, or both are quantities and one of them is marked |
| Quantities.ScalarEqualIsNotTransitive | tools/internal/shared/clusterspec/overlay_fields.go:534-541 | Derived from it: "1", "1000m" and "1.0" are equal in turn and the outer two are not |
| FileSystem.WalkGrows | tools/internal/shared/capability/repowrite.go:99-168 | More links allowed or more entries present never changes where the kernel resolves a path |
| FileSystem.OpenAgrees | tools/internal/shared/capability/repowrite.go:192-198 | Where EvalSymlinks resolves a path, opening it for writing lands on the place its text names or fails |
| FileSystem.WalkSplits | tools/internal/shared/capability/repowrite.go:172-183 | Resolving a path is resolving its front and then the rest from there |
| FileSystem.KernelAgrees | tools/internal/shared/capability/repowrite.go:99-168 | What the kernel resolves from a working directory, EvalSymlinks resolves to a text, relative or absolute, that names the same place |
| PathText.PermitsExactly | tools/internal/shared/capability/repo.go:97-107 | Permits refuses exactly the absolute paths and those that climb above the root at some point; joined to any root text, what it permits is the cleaned root followed by names |
| PathText.WithinMeans | tools/internal/shared/capability/repo.go:237-243 | within on what EvalSymlinks answers, relative results and failures of filepath.Rel included: both absolute or both with the same climbs, the names of the root in front, and no first name below it that begins with two dots |
| PathText.WithinExactly | tools/internal/shared/capability/repo.go:237-243 | Seen from any working directory, within is containment of the real places in the same frame, minus first names that begin with two dots |
| WriterFence.WriteFileStaysInside | tools/internal/shared/capability/repowrite.go:192-198 | For every root text and working directory, an accepted write changes nothing outside the real root, through any links |
| WriterFence.MkdirAllStaysInside | tools/internal/shared/capability/repowrite.go:200-206 | For every root text and working directory, an accepted MkdirAll creates nothing outside the real root |
| WriterFence.RemoveAllLeavesExactly | tools/internal/shared/capability/repowrite.go:208-217 | For every root text and working directory, an accepted RemoveAll reaches out of the real root exactly when the accepted path is a bare climb the kernel can follow and the real root is not alone in its directory |
| WriterFence.RemoveAllStaysInside | tools/internal/shared/capability/repowrite.go:208-217 | For every root text and working directory, an accepted RemoveAll removes nothing outside the real root, unless the path is a bare climb that a root with .. after a name was cleaned to; so for every root without a .. after a name |
| FenceExamples.BareClimbLeaves | tools/internal/shared/capability/repowrite.go:99-168 | On a root text that resolves to . and cleans to .., removing the root itself is accepted as .. and leaves the root |
| PathFence.SettledResolves | tools/internal/shared/capability/repo.go:116-134 | A root text with no .. after a name resolves like its cleaned text |
| WriterFence.DotRootIsKept | tools/internal/shared/capability/repowrite.go:99-168 | At the root . the writer accepts the root itself, and none of its operations does anything to it |
| ReaderAndWriter.ReaderRefusesExactly | tools/internal/shared/capability/repo.go:116-134 | For every root text, the reader refuses an existing path exactly when its real place is outside the real root, or resolves in another frame than the root, or to a first name that begins with two dots |
| FenceExamples.InwardLinkParts | tools/internal/shared/capability/repo.go:237-243 | An absolute link to a place inside is refused from the root . and taken from the same root spelled absolutely |
| ReaderAndWriter.ReaderTakesTheRoot | tools/internal/shared/capability/repo.go:116-134 | On a root text with no .. after a name the reader takes the root itself, as what the root resolves to |
| ReaderAndWriter.WriterTakesWhatReaderRefuses | tools/internal/shared/capability/repo.go:116-134 | Exactly when the writer accepts an existing path the reader refuses, for every root text and working directory |
| ReaderAndWriter.WriterFollowsReader | tools/internal/shared/capability/repo.go:116-134 | While the kernel reaches the directory of an existing path, the writer takes what the reader refuses exactly when the path names something other than a link, its name begins with two dots, and its directory resolves to what the root resolves to |
| FenceExamples.DottedNameParts | tools/internal/shared/capability/repo.go:237-243 | From the root ., the reader refuses a file named ..x and the writer takes it |
| FenceExamples.FarNameParts | tools/internal/shared/capability/repowrite.go:142-161 | A link behind 41 others is refused by the reader and accepted by the writer, whose write then fails |
| WriterFence.UnreachableIsNotTouched | tools/internal/shared/capability/repowrite.go:142-161 | A last name the kernel cannot reach can be neither written through nor made nor removed |
| ReaderAndWriter.DottedNameIsInside | tools/internal/shared/capability/repo.go:237-243 | The other divergence is a name directly in the real root, so it is no escape |
| FenceAnswers.WriterAnswers | tools/internal/shared/capability/repowrite.go:99-168 | The writer's answer for every path, existing or not: the lexical path exactly when it is permitted, the root resolves, the deepest existing directory above lies in the real root and a followed link leads inside |
| FenceAnswers.ReaderAnswers | tools/internal/shared/capability/repo.go:116-134 | The reader's answer for every path: as it is when it does not exist, otherwise its real place exactly when that lies in the real root |
| FenceAnswers.WriteWorks | tools/internal/shared/capability/repowrite.go:192-198 | Under any name in a reachable directory inside, new or a file, the write is accepted, succeeds, changes that entry alone and reads back |
| FenceAnswers.WriteWorksThroughLink | tools/internal/shared/capability/repowrite.go:129-161 | Through a link that leads inside, the file it leads to is written |
| FenceAnswers.MkdirAllWorks | tools/internal/shared/capability/repowrite.go:200-206 | Below a reachable directory inside, a chain of new directories of any length is accepted and made, and nothing else |
| FenceAnswers.RemoveAllWorks | tools/internal/shared/capability/repowrite.go:208-217 | A reachable entry, a link itself, is removed with all below it, and every other entry stays |
| RepoWriter.Disk.DeepestExisting | tools/internal/shared/capability/repowrite.go:172-183 | The ascending loop finds the deepest ancestor that resolves; / and . end it |
| RepoWriter.Writer.ResolvePath | tools/internal/shared/capability/repowrite.go:99-168 | The fence as written is the specified resolver |
| RepoWriter.Writer.WriteAt | tools/internal/shared/capability/repowrite.go:192-198 | A refusal changes nothing; an accepted write changes only what lies under the real root; a reachable name that is new or a file is written |
| RepoWriter.Writer.MakeAll | tools/internal/shared/capability/repowrite.go:200-206 | The same for making directories: a chain of new names below a reachable directory is made |
| RepoWriter.Writer.RemoveTree | tools/internal/shared/capability/repowrite.go:208-217 | The same for removing a tree, exactly unless the accepted path is a bare climb the kernel can follow and the real root has a neighbour |
| GhArgv.ParseInvertsRender | tools/internal/shared/capability/forge.go:165-260 | Every list of well-formed items is read back from its own argv, so the grammar is unambiguous |
| GhArgv.ParseIsSound | tools/internal/shared/capability/forge.go:165-260 | Whatever is read is well formed and is exactly what was typed |
| Forge.ClassifyAPIMethod | tools/internal/shared/capability/forge.go:165-306 | The nested-loop scanner gives every argv the class the grammar gives it |
| Forge.ScanCluster | tools/internal/shared/capability/forge.go:206-262 | The inner loop reads one cluster of short flags |
| Forge.EffectsMean | tools/internal/shared/capability/forge.go:178-188 | The last method wins, any field adds parameters, and the endpoint is the first non-empty positional, in any order of items |
| Forge.RespellingKeepsClass | tools/internal/shared/capability/forge.go:196-250 | Respelling a valued flag never changes the class, whatever stands before and after it |
| Forge.AllSpellings | tools/internal/shared/capability/forge.go:413-430 | Which of the five spellings a value has, after any boolean letters: the glued one unless it is empty or = followed by something, the letter with = unless it is empty, the other three always |
| Forge.LeadingEqualsIsDropped | tools/internal/shared/capability/forge.go:249-256 | Glued on, = followed by something is punctuation, and = on its own is the value |
| Forge.LeadingEqualsChangesClass | tools/internal/shared/capability/forge.go:249-256 | For every writing method and endpoint, the glued = spelling writes (or places a secret), and the same text after --method is unclassified |
| Forge.UnreadableAnywhere | tools/internal/shared/capability/forge.go:196-250 | An unknown flag or one left without its value makes the whole argv unclassified, wherever it stands |
| Forge.IsSecretPath | tools/internal/shared/capability/forge.go:374-397 | The loop over segments is the rule on API families, environments and the Contents cut |
| Forge.UrlSpellingsAgree | tools/internal/shared/capability/forge.go:352-375 | A full URL addresses the same endpoint segments as its path, whatever queries either carries |
| Forge.ApiPermitsExactly | tools/internal/shared/capability/forge.go:456-508 | An api argv is permitted exactly when the request it stands for is covered: any write takes the mutate grant, a secret write both grants, graphql none |
| ForgeSpellings.OneFlagPermits | tools/internal/shared/capability/forge.go:413-438 | On literal argv, for every value and endpoint: POST, PUT, PATCH, DELETE in each spelling of -X and --method, and -f, -F, --field, --raw-field and --input in each of theirs, take the mutate grant, and custody on a secret endpoint; GET, HEAD, every other flag and no flag take the read grant |
| ForgeSpellings.MethodDecides | tools/internal/shared/capability/forge.go:165-306 | The same for the last method among any other flags, before it or after |
| ForgeSpellings.ParamDecides | tools/internal/shared/capability/forge.go:288-306 | Without a method one parameter among any other flags makes a write |
| ForgeSpellings.OthersChangeNothing | tools/internal/shared/capability/forge.go:413-431 | Every other flag of gh, wherever it stands, changes nothing |
| ForgeSpellings.UnknownLetterIsRefused | tools/internal/shared/capability/forge.go:413-431 | A letter that is not one of gh's eight is refused under every grant, wherever it stands |
| ForgeSpellings.UnknownNameIsRefused | tools/internal/shared/capability/forge.go:413-431 | So is a long name that is not one of its seventeen |
| ForgeSpellings.DanglingLetterIsRefused | tools/internal/shared/capability/forge.go:196-260 | And a valued letter left without its value |
| ForgeSpellings.DanglingNameIsRefused | tools/internal/shared/capability/forge.go:196-215 | And a valued name left without its value |
| ForgeSpellings.SegmentsOf | tools/internal/shared/capability/forge.go:352-377 | An endpoint has the segments it was typed with, with or without a leading slash or a query; api/v3 in front is dropped |
| ForgeSpellings.SecretEndpoints | tools/internal/shared/capability/forge.go:336-397 | The secret endpoints of a repository, an organisation, a user and an environment, by their literal shape |
| ForgeSpellings.OtherEndpoints | tools/internal/shared/capability/forge.go:336-397 | No other path holds secrets, and a file of a repository holds none, unless the repository is secrets of an owner called like a family |
| ForgeSpellings.SecretWriteNeedsBoth | tools/internal/shared/capability/forge.go:456-508 | A secret is written only with the mutate and the custody grant, however the flag and the endpoint are spelled |
| ForgeSpellings.NamedCommands | tools/internal/shared/capability/forge.go:84-132 | The commands with a name of their own, by the grant each takes; any other is refused |
| OpenBao.PolicyPathMatches | tools/internal/shared/clusterspec/openbao_ext.go:247-270 | The loop decides the matching relation |
| OpenBao.MatchMeans | tools/internal/shared/clusterspec/openbao_ext.go:244-270 | On the texts: with each + read as the segment it meets, a rule without a trailing star is the path and a rule with one begins it |
| OpenBao.OperatorRules | tools/internal/shared/clusterspec/openbao_ext.go:136-179 | The rules with the spec-owned paths narrowed in place |
| OpenBao.OperatorsAreFenced | tools/internal/shared/clusterspec/openbao_ext.go:229-242 | For every mount with allowed config: rule paths are distinct and no rule matches any denied path, for any text in place of the probe segment |
| OpenBao.OwnedIsReadOnly | tools/internal/shared/clusterspec/openbao_ext.go:183-189 | On every path the mount's config writes, with exact rules outranking wildcards, an operator may read and nothing else |
| OpenBao.OperatorMayExactly | tools/internal/shared/clusterspec/openbao_ext.go:136-179 | On every other path of the mount an operator may do exactly what administers the intermediate, capability by capability, and nothing else |
| OpenBaoValidation.ValidateOpenBao | tools/internal/shared/clusterspec/openbao_ext.go:352-466 | The validator reports nothing exactly for a valid declaration, and every error points at an entry that is not |
| OpenBaoValidation.ValidHandsOverNothing | tools/internal/shared/clusterspec/openbao_ext.go:201-223 | When the validator reports nothing, no rule with a write capability matches any CA-custody path of any declared mount |
| OpenBaoValidation.ValidSparesThePlatform | tools/internal/shared/clusterspec/openbao_ext.go:289-323 | What the validator is silent about overwrites no mount, policy or role of the platform or of a team, grants nothing beyond the seven capabilities, and issues no token for more than an hour |
| OpenBaoValidation.ValidStaysInScope | tools/internal/shared/clusterspec/openbao_ext.go:471-528 | Every rule of it is about a declared mount, where it writes only certificates through a role, or about a team's own subtree |
| OpenBaoValidation.OrdinaryIsValid | tools/internal/shared/clusterspec/openbao_ext.go:352-466 | An ordinary declaration is accepted, whatever a site calls its own things |
| OpenBaoValidation.RuleSparesCustody | tools/internal/shared/clusterspec/openbao_ext.go:471-528 | The same for one rule, whether it came in through a mount or a team subtree |
| OpenBaoValidation.CheckRule | tools/internal/shared/clusterspec/openbao_ext.go:406-430 | The checks on one policy rule |
| BaoExec.ExecResilient | tools/internal/shared/baoread/exec.go:152-191 | The retry loop stops at the first answer its class no longer retries, having slept the backoff of every attempt before |
| BaoExec.RetryIsBounded | tools/internal/shared/baoread/exec.go:136-149 | For every sequence of answers at most 24 calls and 296 s of sleep, and 6 calls and 30 s when all failures are pod-state |
| BaoExec.BudgetsAreSpent | tools/internal/shared/baoread/exec.go:141-149 | Persistent transport failures use the whole budget of 24 calls and 296 s, persistent pod-state failures theirs of 6 calls and 30 s |
| BaoExec.RunsAtMostOnce | tools/internal/shared/baoread/exec.go:147-151 | If marked failures mean the command did not run, it runs at most once, in the attempt whose answer is returned |
| BaoExec.TransportIsUnknown | tools/internal/shared/baoread/read.go:87-148 | A failure retried as transport classifies as Unknown, never Absent, and reads as Unknown |
| BaoExec.ReadMeans | tools/internal/shared/baoread/read.go:51-137 | Found, Absent and Unknown by what the answer says: absence needs a clean empty answer, or a failure without any seal, token or transport complaint that words it or comes from a usable pod |
| BaoExec.BudgetMeans | tools/internal/shared/baoread/exec.go:81-149 | What is retried and how often, by the literal text of the failure |
| Inheritance.MergeComponentMaps | tools/internal/shared/clusterspec/merge.go:97-109 | The two loops over maps overlay the toggles whatever the key order |
| Inheritance.LandingZone.ApplyInheritance | tools/internal/shared/clusterspec/merge.go:15-20 | Every environment is merged over the shared defaults in place |
| Inheritance.LandingZone.Defaults | tools/internal/shared/clusterspec/defaults.go:24-73 | Every environment gets the built-in defaults in place |
| Inheritance.LandingZone.FillComponents | tools/internal/shared/clusterspec/defaults.go:46-70 | The loop over the registry decides and fills each toggle |
| Inheritance.DefaultsIsIdempotent | tools/internal/shared/clusterspec/defaults.go:24-73 | A second pass of Defaults changes nothing, Explicit included |
| Inheritance.MergeIsIdempotent | tools/internal/shared/clusterspec/merge.go:23-122 | Merging twice with the same parsed defaults changes nothing more |
| Inheritance.SecondPassChangesNothingExactly | tools/internal/shared/clusterspec/merge.go:112-122 | A second inheritance-and-defaults pass over its own result changes nothing if and only if every registered component was written about; no caller makes one (parse.go:28-29, instance.go:70-98 run the passes once, in this order) |
| Inheritance.MergeAfterDefaultsForgets | tools/internal/shared/clusterspec/merge.go:112-122 | Derived from it: with nothing written, a default-on component reads as asked for after a second pass |
| Inheritance.ExplicitExactly | tools/internal/shared/clusterspec/components.go:107-115 | A component counts as asked for exactly when the environment wrote enabled: true, or wrote nothing and the defaults did |
| Inheritance.EmitsExactly | tools/internal/shared/clusterspec/components.go:83-105 | A consumer-gated component emits exactly when its consumer is on or the author asked for it |
| Inheritance.SettingsResolve | tools/internal/shared/clusterspec/merge.go:112-134 | Each setting of a component is the environment's own where it wrote one, else the shared default |
| Inheritance.AppsResolve | tools/internal/shared/clusterspec/defaults.go:22-40 | The managed apps are the environment's own list, else the shared one, and the four built-in ones when that is empty |
| Inheritance.EmitsWithItsApp | tools/internal/shared/clusterspec/components.go:83-105 | An app-gated component emits exactly when the resolved list names the app, an ungated one always, a skipped one never |
| ObjLabels.SanitizeObjLabelPrefix | tools/internal/shared/clusterspec/objlabels.go:73-93 | The loop with its hyphen flag computes the sanitized prefix |
| ObjLabels.SanitizedIsLabel | tools/internal/shared/clusterspec/objlabels.go:65-93 | At most 40 characters of the label grammar with no doubled hyphen, and empty exactly when the name has no letter or digit |
| ObjLabels.SanitizedSpells | tools/internal/shared/clusterspec/objlabels.go:73-93 | The sanitized name is the lowercased words of the name joined by single hyphens, cut at 40 characters |
| ObjLabels.SanitizeIsIdempotent | tools/internal/shared/clusterspec/objlabels.go:73-93 | Sanitizing twice is sanitizing once, and a label stays as it is |
| ObjLabels.ValidatePrefix | tools/internal/shared/clusterspec/objlabels.go:110-139 | Validation reports nothing exactly for a legal prefix whose longest label fits for every deployment, and each fault it reports is there |
| ObjLabels.ValidateLengths | tools/internal/shared/clusterspec/objlabels.go:143-165 | Exactly one problem per deployment whose longest label is too long, in order |
| ObjLabels.BothBucketsFit | tools/internal/shared/clusterspec/objlabels.go:189-233 | The check is exact for the registry label and implies the chunks label fits |
| ObjLabels.DerivedPrefixIsValid | tools/internal/shared/clusterspec/objlabels.go:58-63 | A derived prefix is legal exactly when the name has a letter or digit |
| ObjLabels.ExplicitPrefixWins | tools/internal/shared/clusterspec/objlabels.go:58-63 | An explicit prefix is used as written, apart from spaces around it |

## Left out

- AssertedMergeHeap.MergeAsserted: base and assertion start out disjoint, as two freshly decoded documents are; a nil base is an empty map.
- OverlayFields.AcceptedExactlyWhen: a strategic-merge directive such as `$patch: delete` beside the payload in a selected element is an ordinary exempt sibling to the check, and so it is here; what the API server does with it is not part of this model.
- BrownfieldEngine.Engine.RunConverge: only the calls of ApplyPending and what the caller marks between them; scope, deadline, settling and the wait for recreated objects are left out.
- HelmValues.MergeMaps: computed on values, so that the nested base maps are updated in place is not part of this model.
- Inheritance.LandingZone.ApplyInheritance: of the cluster settings only managedApps is merged.
- Inheritance.MergeIsIdempotent: only for defaults as parsed, because the merge drops Explicit, and of the cluster settings only for managedApps.
- Quantities.QuantityRat: exponents are unbounded; the limits of the big-rational library are not modelled.
- OverlayFields.LiveValue: live paths are given as parsed segments, the text syntax of a selector is not parsed here.
- OpenBaoValidation.ValidateOpenBao: one error per wrong entry instead of one per fault, without the message text; duration parsing is a parameter.
- BrownfieldEngine.Engine.WriteRecord: the recorded time is the tick, not a formatted wall-clock time.
- HelmParameters.ParametersDoc: the nested maps are built as values, not as shared mutable maps; the code never shares them.
- Forge.UrlSpellingsAgree: for paths without spaces at their ends or a scheme of their own, with which the two are different endpoints.
- ObjLabels.ValidatePrefix: lengths count characters, which are bytes once the prefix is legal and the deployment name is ASCII.
- YAML and JSON encoding: values are trees, equal exactly when yamlEqual says so; the `%v` printer, TrimSpace and lowercasing outside the stated characters are parameters.
- Inheritance of the cluster settings: the same field-by-field rule as the toggles, with easy claims.
- The fence: the working directory is a real location; RelTo, ReadDir, WalkDir and the ascent of RepoContainingAll are left out.
- Changes to the file system between check and use, permissions and partial removals are left out.
- Two runs of the migration engine at the same time, and writes to its record map by anybody else.
- The contents of the tables (field map, registry, rendered overlay) beyond what the theorems quantify over, process execution, HTTP, log output and message texts.
- The CLI commands, manifest templates and the single-branch capability tables would add only easy members.
