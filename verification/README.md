# eawf: a verified model of the decision cores

eawf keeps a delivery workflow honest: configuration is layered and migrated, commits are proved by CI
runs that may skip tests against an older green run, proofs and acceptances are bound to digests, and
agents are admitted under fleet and prompt ceilings. Around each of these sits I/O; inside each sits a
small decision procedure with an invariant that is easy to state and easy to break. This project models
those procedures, with their branches, error paths and constants, and proves the invariants.

- **Layered configuration** (`Values`, `Layered`). Bodies are trees of mappings. Merging an overlay by
  flattening it and writing its leaves in place is characterised leaf by leaf, folding layers says who
  owns every leaf, and deleting a path prunes exactly what it empties.
- **Migration** (`Migration`, `MigrationLaws`, `SelectorLaws`). One payload edited in place by a pipeline of
  stages that touch each other's keys. A class carries the payload; every stage method is proved against a
  function, and the pipeline is proved to reach a fixpoint in one pass, to keep what the operator wrote and
  to leave, path by path, what the layer asked for.
- **CI provenance** (`CiChanges`, `CiGreenTree`, `CiHistory`). A run may skip its tests over a green
  baseline and then record its own tree as green. Induction over the history of runs shows every recorded
  tree, and every tree a release gate lets through, agrees on the code with one whose tests really passed.
- **Acceptance and receipts** (`Acceptance`, `Revisions`, `Receipts`, `Reuse`). A digest-linked ledger
  that cannot be rewritten unnoticed; a freshness key whose digest identifies exactly the keyed inputs;
  and the choice of the receipt that may stand in for a proof.
- **Integration and batch proof** (`Integration`, `BatchProof`, `VerificationCycle`,
  `BatchVerification`). Attempts, the linear generation history, the verification stage machine, its walk,
  and a whole batch verified again and again while generations are selected under it.
- **Admission arithmetic** (`Governor`, `PromptBudget`). Live Runs as a transition system under fleet
  ceilings; per-class prompt ceilings composing into one window bound.
- **Algorithms on graphs, forests and streams** (`PacketCensus`, `LocalGc`, `PairingGate`,
  `NormalizeCoauthor`, `CoauthorTrailer`). A worklist cycle finder, a planner that removes directory trees without
  taking a kept entry, a token-stream parser with its round trip, and an idempotent message normaliser.
- **The two-file store** (`Compaction`, `StoreLaws`, `LifecycleView`). The writer that splits a document between a
  committed file and a local projection, the reader that joins them, every crash between the two, and the
  second reader the hooks use.

`Text`, `Sorting` and `Values` hold what the others share. SHA-256 over canonical JSON appears as a
function parameter that is assumed injective where a result needs it, and never otherwise; directory
walks, API pages, clocks and file contents are parameters too.

Four things the code does not promise are stated as lemmas. The store takes a document that puts a terminal
Task back in flight, and then reads back without that status (`Compaction.RevivedExample`); no lifecycle move
leaves a terminal status, so along the lifecycle nothing is ever lost (`Compaction.LifecycleHistory`). An
empty `flow` section is dropped by the migration without being reported (`Migration.SilentRewrite`). A batch
verification accepts a clear audit row from any earlier generation, even one whose criterion a later
generation affected (`BatchVerification.StaleRowAccepted`), so a verdict on file is current exactly when the
presented rows were. And of two receipts that end at one time under one id, the one held first decides
(`Reuse.TieMatters`): the order of a listing is irrelevant exactly when what ties for last is alike
(`Reuse.OrderIrrelevant`). Where documentation says more than the code, the code is modelled:
`src/eawf/kernel/config/layered.py:268` promises untouched inputs although the copy is shallow, the source map
may keep a key whose leaf was shadowed, and `tools/epoch2_lifecycle_view.py:203-206` lays the status over a
committed file whose digest matches nothing.

## Model

| member | source | states |
|---|---|---|
| Layered.GetDotted | src/eawf/kernel/config/layered.py:855-866 | the cursor loop returns the value reached by following the split key, nothing where a step is missing or not a mapping |
| Layered.SetDotted | src/eawf/kernel/config/layered.py:235-250 | the in-place cursor loop writes exactly what the recursive write does, from any mapping and dotted key |
| Layered.SetAtLookup | src/eawf/kernel/config/layered.py:235-250 | after a write every path is accounted for: at or below it reads the value, above it a non-empty mapping, beside it what was there |
| Layered.KeyWrittenAsItself | src/eawf/kernel/config/layered.py:235-250 | a top-level key comes out of a dotted write as itself if and only if it holds no dot |
| Layered.PlacedAtHome | src/eawf/kernel/config/layered.py:218-250 | the dotted key of a path, split again, leads back to the path if and only if no segment holds a dot and no empty segment opens it |
| Layered.Flatten | src/eawf/kernel/config/layered.py:218-232 | for every mapping, whatever its keys: the flat keys are exactly the spellings of its leaves, each with the value of a leaf so spelt |
| Layered.DeepMergeWithSources | src/eawf/kernel/config/layered.py:253-278 | for every base and overlay: one write for each place an overlay leaf is spelt to, in some order; the merged leaves are exactly the writes that no later one disturbs and the base leaves that none hits, and the overlay claims every key it spells |
| Layered.HomeMerges | src/eawf/kernel/config/layered.py:253-278 | when the overlay has only plain paths, the merged leaves are the overlay's plus exactly the base leaves incomparable with all of them, with their own values, in whatever order they were written |
| Layered.MergesExactly | src/eawf/kernel/config/layered.py:253-278 | over an empty base that leaf rule holds if and only if every leaf of the overlay has a plain path |
| Layered.MergeUnique | src/eawf/kernel/config/layered.py:253-278 | that leaf rule determines the merged body, so it specifies the merge completely |
| Layered.MergeConfig | src/eawf/kernel/config/layered.py:566-657 | over every list of layers, whatever their keys: each final leaf was laid by a layer that nothing later writes over; what a layer laid last is a final leaf with its value, unless another leaf of that layer is written at, above or below it; the source map has every key spelt, under the last layer spelling it |
| Layered.OwnersExact | src/eawf/kernel/config/layered.py:566-657 | when all paths are plain, each final leaf has the value and the label of the one layer that owns it, the last one stating it with nothing comparable after |
| Layered.SourcesExact | src/eawf/kernel/config/layered.py:566-657 | the keys of the source map are exactly the final leaves' spellings if and only if no two layers disagree on shape; every final leaf has its key in any case |
| Layered.LeavesSurvive | src/eawf/kernel/config/layered.py:566-657 | every leaf any layer states is a final leaf if and only if no two layers disagree on shape |
| Layered.LastStating | src/eawf/kernel/config/layered.py:566-657 | without a shape clash the last layer stating a leaf owns it |
| Layered.UnsetDotted | src/eawf/kernel/config/layered.py:869-902 | the delete-then-prune loops do exactly what the recursive deletion does; the empty path is refused |
| Layered.UnsetRefused | src/eawf/kernel/config/layered.py:869-902 | a deletion is reported exactly when the path leads somewhere, and otherwise changes nothing |
| Layered.UnsetLeaves | src/eawf/kernel/config/layered.py:869-902 | the leaves left are exactly those not at or below the path, with their values; no ancestor is left newly empty |
| Layered.UnsetUndoesSet | src/eawf/kernel/config/layered.py:235-250 | unsetting undoes setting if and only if the path was fresh: absent, crossing no scalar and no empty mapping |
| Migration.Migrator.MigratePayload | src/eawf/kernel/config/migration.py:72-123 | the in-place migration leaves the body and the flag of the specification, and an unknown marker leaves the payload as it was |
| Migration.Migrator.CleanupLegacyKeys | src/eawf/kernel/config/migration.py:363-433 | the staged in-place cleanup composes to its specification, stage by stage |
| Migration.Migrator.NormalizeRuntimeIds | src/eawf/kernel/config/migration.py:296-314 | both selector lists are rewritten to canonical spellings without repeats, and the flag says whether either moved |
| Migration.Migrator.UnsetRetired | src/eawf/kernel/config/migration.py:363-433 | the loop over retired keys prunes each in turn and reports whether any was there |
| Migration.MigrateCadenceValues | src/eawf/kernel/config/migration.py:337-360 | the recursive in-place rewrite changes every aliased cadence at any depth and reports a hit exactly when there was one |
| Migration.FillSection | src/eawf/kernel/config/migration.py:218-238 | the recursive in-place filling adds exactly the absent defaults, inside mappings held on both sides too, and alters nothing present |
| Migration.CadenceSettles | src/eawf/kernel/config/migration.py:337-360 | no aliased cadence survives at any depth, and no key moves |
| Migration.RetiredSettles | src/eawf/kernel/config/migration.py:363-433 | after the deletions every retired path leads nowhere, whatever their order and overlap |
| Migration.SettledIsFixed | src/eawf/kernel/config/migration.py:363-433 | a settled body passes the whole cleanup untouched and unreported |
| Migration.CleanupSettles | src/eawf/kernel/config/migration.py:363-433 | every body is settled after one cleanup, so no stage undoes an earlier one |
| Migration.MigrationFixpoint | src/eawf/kernel/config/migration.py:72-123 | for every accepted payload, migrating the result again returns it with changed false |
| Migration.UnreportedMeansUntouched | src/eawf/kernel/config/migration.py:255-266 | an unreported migration left the payload alone if and only if there was no flow section that is empty or holds auto_accept |
| Migration.SilentRewrite | src/eawf/kernel/config/migration.py:255-266 | the exception occurs: an empty flow section vanishes with changed false |
| Migration.OperatorValuesKept | src/eawf/kernel/config/migration.py:72-123 | every leaf outside the legacy and retired keys keeps its path and value through the whole migration |
| Migration.SelectorsSurvive | src/eawf/kernel/config/migration.py:269-314 | every runtime selected before, or switched on in the old catalog, is selected after under its canonical name |
| Migration.KindPromoted | src/eawf/kernel/config/migration.py:363-433 | a scalar selector of any value, its cadence spellings rewritten, becomes a member of the adapter list whenever no adapter is listed once the old catalog is folded in, be `adapters` absent, empty or no list |
| Migration.PreferenceFollows | src/eawf/kernel/config/migration.py:436-461 | whenever the cleanup reports a change, a selector list comes with a preference list |
| MigrationLaws.OutsideMigrated | src/eawf/kernel/config/migration.py:72-123 | nothing is lost, invented or moved: at a path the migration has no rule for, beside the retired keys, the result holds what the layer held, its cadences in their native spelling |
| MigrationLaws.LegacyGone | src/eawf/kernel/config/migration.py:363-433 | the sections of old wizards, the flow switches, the old selectors and every retired key lead nowhere afterwards |
| MigrationLaws.CadencesRewritten | src/eawf/kernel/config/migration.py:337-360 | at any depth and inside lists, `every-wave`, `every-iter` and `every-phase` under a `cadence` key become `every-task`, `every-batch` and `every-milestone`, and nothing else changes |
| MigrationLaws.CoauthorMigrated | src/eawf/kernel/config/migration.py:317-334 | a project co-author written as one text becomes a record of exactly the name and the e-mail it splits into, or is gone when it does not split; written any other way it stays |
| MigrationLaws.CoauthorLeaves | src/eawf/kernel/config/migration.py:317-334 | the two leaves by path: `name` holds the name and `email` the e-mail |
| MigrationLaws.MarkerMigrated | src/eawf/kernel/config/migration.py:72-123 | a layer is accepted exactly when its marker is missing or reads as 1.0, 1.1 or 2; the result states the current one, and a marker that had to be written is reported |
| MigrationLaws.DefaultsArrive | src/eawf/kernel/config/migration.py:218-252 | an upgrade gives telemetry.enabled, telemetry.db_kind and profiles.trusted the layer's own value, or false, sqlite and an empty mapping |
| MigrationLaws.ReportedMeansChanged | src/eawf/kernel/config/migration.py:72-123 | a reported migration changed the body |
| SelectorLaws.SelectorsMigrated | src/eawf/kernel/config/migration.py:269-314 | the adapters left are the listed ones, then those switched on in the old catalog in its order, failing both the scalar selector, each once under its canonical name where first met; the preference is the layer's own, canonical, or the adapters |
| CiChanges.DiffExact | tools/ci_changes.py:294-309 | the differences between two trees: added, deleted, of another kind, or modified |
| CiChanges.NoCodePaths | tools/ci_changes.py:475-483 | the diff of two trees has no code path if and only if the trees agree on the code |
| CiChanges.SameCodeEquivalence | tools/ci_changes.py:151-178 | agreeing on the code, outside the bookkeeping file and in-place state edits, is an equivalence on trees |
| CiChanges.SkipMeansSameCode | tools/ci_changes.py:233-268 | a run skips if and only if it is a push that agrees on the code with the commit of the newest green run of its repository, which it names; every other run or failure runs the tests |
| CiChanges.NewestIsBaseline | tools/ci_changes.py:202-230 | the baseline is the commit of the first listed run that succeeded in this repository on a full object name; there is none exactly when no listed run is one |
| CiChanges.SameCodeSkips | tools/ci_changes.py:486-493 | over an established baseline a push skips if and only if it agrees with it, and names it |
| CiGreenTree.PlanStandsOn | tools/ci_green_tree.py:441-495 | a run may record exactly when it is a push, every needed job passed or was skipped, the changes job passed, and the heavy jobs, `twice-green` too on the release train, passed with `code=true` or were skipped with `code=false` against a named object; the record stands on itself or on that object accordingly |
| CiGreenTree.RecordStandsOn | tools/ci_green_tree.py:498-546 | what is recorded is the run's own tree on such a plan, standing on nothing else or on the first recorded run of the baseline's tree |
| CiGreenTree.SearchRecordedRun | tools/ci_green_tree.py:312-345 | the search loop returns the first listed run of that tree whose artifacts carry its record, or fails where a page cannot be read |
| CiGreenTree.RecordedRunListed | tools/ci_green_tree.py:312-345 | it finds exactly the first listed run of the tree that carries the tree's unexpired record, and nothing exactly when all were looked at in vain |
| CiGreenTree.GateFinds | tools/ci_green_tree.py:348-377 | among our own finished green push runs the gate finds the first on the commit itself, and only without one the first that recorded its tree |
| CiGreenTree.AwaitGreenRun | tools/ci_green_tree.py:380-438 | the polling loop passes exactly when its last poll finds a run; it gives up only once the commit's push runs have all finished or 1800 seconds have passed, never polls on after either, and polls at most 61 times |
| CiHistory.SkipHasBaseline | tools/ci_changes.py:264-268 | a push run that skipped stands on an earlier green push run of its own repository that agrees with it on the code |
| CiHistory.GreenRunsProven | tools/ci_green_tree.py:498-546 | over every history, cancelled and failed pushes included and runs of other triggers and repositories free to do anything, each green push run's tree agrees on the code with one whose test job really passed |
| CiHistory.RecordsProven | tools/ci_green_tree.py:498-546 | over every such history each tree recorded by a push run does, although outsiders may upload records of any name |
| CiHistory.SkippingHistory | tools/ci_green_tree.py:498-546 | such histories exist: for any two commits that agree on the code, the second push skips past a fork's row, stays green and records its own tree |
| CiHistory.GateProven | tools/ci_green_tree.py:348-377 | a release gate that passes, by head or by recorded tree, passes a tree that does, whatever outsiders are listed and whatever they uploaded |
| CiHistory.OutsiderCannotVouch | tools/ci_green_tree.py:235-261 | the push and repository filter is needed: an outsider's run with an uploaded record is taken by the unfiltered search with nothing proven, and the gate finds nothing |
| Acceptance.ChainIsUnbroken | src/eawf/kernel/delivery/acceptance.py:276-302 | the scan with a running previous accepts exactly the ledgers of one milestone, numbered from one, each revision carrying the digest of the one before, none sealed before it |
| Acceptance.SealedExact | src/eawf/kernel/delivery/acceptance.py:92-200 | the bundle validators in full: a first revision supersedes nothing, a later one names the one before, and every journey shows what it claims |
| Acceptance.UnbrokenExact | src/eawf/kernel/delivery/acceptance.py:276-302 | the specified ledgers are those the scan accepts, in the words of the bundles |
| Acceptance.At | src/eawf/kernel/delivery/acceptance.py:262-274 | looking an ordinal up finds the revision standing at that place, and nothing outside |
| Acceptance.SharedHistory | src/eawf/kernel/delivery/acceptance.py:146-154 | two ledgers that hold revisions with one digest agree on the milestone, the place and every revision before |
| Acceptance.HeadPinsLedger | src/eawf/kernel/delivery/acceptance.py:245-302 | two valid ledgers whose heads digest alike are equal revision by revision |
| Acceptance.RewriteRefused | src/eawf/kernel/delivery/acceptance.py:276-302 | rewriting any revision but the newest, to anything, leaves a ledger that does not validate, even under another milestone |
| Acceptance.OmissionRefused | src/eawf/kernel/delivery/acceptance.py:276-302 | so does leaving one out |
| Acceptance.SuccessorExtends | src/eawf/kernel/delivery/acceptance.py:203-242 | a successor opens exactly for a journey that stands, is the next revision of the head with its digest, and extends the ledger exactly when its seal does not precede the head's |
| Acceptance.OnlySuccessorsExtend | src/eawf/kernel/delivery/acceptance.py:203-242 | what a ledger accepts next over the same batches is exactly what open_successor of the head builds |
| Acceptance.HeadBatchesUnpinned | src/eawf/kernel/delivery/acceptance.py:245-302 | the chain does not bind the newest revision's required batches |
| Acceptance.RepairFiled | src/eawf/workflow/delivery/acceptance.py:345-407 | a repair appends exactly one successor when its journey stands and it is not sealed before the head, and otherwise changes nothing |
| Acceptance.ApprovedStands | src/eawf/workflow/delivery/acceptance.py:345-407 | over any run of repair requests the ledger stays valid and every revision filed stays in its place |
| Acceptance.ApprovalKeepsItsBundle | src/eawf/kernel/delivery/acceptance.py:203-242 | the digest an approval was given to names that one revision in every later ledger and no other |
| Revisions.RejectDuplicates | src/eawf/kernel/delivery/integration.py:112-122 | the loop over seen values accepts exactly the lists without repeats |
| Receipts.ComponentDigests | src/eawf/kernel/delivery/receipts.py:278-297 | the filling loops give each component the digest of exactly the fields its tables send there |
| Receipts.TablesComplete | src/eawf/kernel/delivery/receipts.py:199-225 | the fields filed under a component are its keyed inputs, none missing and none extra |
| Receipts.InputsCanonical | src/eawf/kernel/delivery/receipts.py:293-296 | sorting the declared external inputs forgets their order and nothing else |
| Receipts.InputsInOrder | src/eawf/kernel/delivery/receipts.py:293-296 | the digested inputs come in the order of their names, in code points |
| Receipts.ComponentExact | src/eawf/kernel/delivery/receipts.py:278-297 | one component's digests agree if and only if its own inputs do |
| Receipts.DigestExact | src/eawf/kernel/delivery/receipts.py:299-309 | two keys digest alike if and only if all keyed fields agree and the external inputs are the same set |
| Receipts.ReboundKeepsKey | src/eawf/kernel/delivery/receipts.py:193-212 | another commit, parent or time on the same tree, and any order of inputs, keep the key |
| Reuse.RecordedExact | src/eawf/kernel/delivery/receipts.py:366-393 | the receipt validators in full, those of its key included |
| Reuse.ChangedExactly | src/eawf/runtime/verification/receipts.py:119-141 | a comparison names exactly the components whose inputs differ, and names none only when the keys digest alike |
| Reuse.FreshExactly | src/eawf/runtime/verification/receipts.py:144-171 | a receipt is let through if and only if it is the same proof; a refusal names exactly what moved and never nothing |
| Reuse.PickedExactly | src/eawf/runtime/verification/receipts.py:269-292 | the candidate is the latest unsuperseded receipt at the expected key, another live one only when there is none |
| Reuse.ReasonExactly | src/eawf/runtime/verification/receipts.py:344-361 | missing, stale and not-deterministic are each given if and only if they hold of the receipts on file |
| Reuse.ReuseSound | src/eawf/runtime/verification/receipts.py:315-361 | a reused leg names a live receipt that passed, in time, on the very inputs required |
| Reuse.ReuseExactly | src/eawf/runtime/verification/receipts.py:315-361 | over every listing a leg is reused if and only if it can be proved by a gate and, of the newest live receipts on its inputs, the one held first passed in time |
| Reuse.LegDecided | src/eawf/runtime/verification/receipts.py:262-361 | a decision is refused if and only if just one of decision time and age limit is given; otherwise it is valid and about this leg, and the first held of the newest answers decides: not passed, expired exactly when `now - ended > max age`, or fresh and so reused |
| Reuse.DecisionValid | src/eawf/kernel/delivery/receipts.py:465-507 | whatever is decided passes the decision validators |
| Reuse.StaleNamesMoves | src/eawf/kernel/delivery/receipts.py:460-463 | a stale verdict names exactly the inputs that moved since the receipt it names |
| Reuse.OrderIrrelevant | src/eawf/runtime/verification/receipts.py:315-361 | every order of the receipts held makes the same decision, in every field, if and only if the receipts that tie for last among those competing are alike: same inputs, and on the required inputs both passed or neither did |
| Reuse.TieMatters | src/eawf/runtime/verification/receipts.py:269-292 | a passed and a failed receipt sharing end and id are such a tie, and the one held first decides |
| Integration.MovesExactly | src/eawf/runtime/integration/generations.py:60-110 | an attempt moves if and only if one of the sixteen moves leads to the target, time does not run back and the detail fits the target status, all spelt out; the moved attempt is given whole and passes its validators |
| Integration.AttemptSettles | src/eawf/kernel/delivery/integration.py:168-311 | over any run of requested moves every attempt on the way is valid and about one subject, each follows from the one before by a legal move, there are at most four, and an ended attempt never changes |
| Integration.AttemptExact | src/eawf/kernel/delivery/integration.py:208-311 | the validators accept exactly the attempts whose subject, outcome detail and clocks fit, spelt out status by status |
| Integration.GenerationExact | src/eawf/kernel/delivery/integration.py:316-379 | the validators accept exactly the generations of one batch past the base they were applied on, bound on the integration ref, without repeats |
| Integration.HistoryIsLinear | src/eawf/kernel/delivery/integration.py:399-440 | the loop with a running previous, the duplicate check and the selected list accept exactly the linear histories |
| Integration.OrdinalsGrow | src/eawf/kernel/delivery/integration.py:382-440 | ordinals and times grow between any two generations, ordinals by at least their distance |
| Integration.HeadReachesAll | src/eawf/kernel/delivery/integration.py:382-440 | following parent ids from the selected head visits every generation exactly once, newest first |
| Integration.AppliedOnPredecessor | src/eawf/kernel/delivery/integration.py:382-440 | each generation was applied on its predecessor's bound ordinal, which is no other generation's |
| Integration.SelectsExactly | src/eawf/runtime/integration/generations.py:113-145 | a generation joins if and only if it is selected, valid, new and on top of the head; it becomes the newest and the others stay as they were, none selected |
| Integration.SupersededBaseRefused | src/eawf/kernel/delivery/integration.py:382-440 | a descendant of any generation but the head cannot join |
| Integration.HistoryOnlyGrows | src/eawf/runtime/integration/generations.py:113-145 | over any run of selections the history stays linear and no generation is lost or altered |
| BatchProof.AdvancesExactly | src/eawf/kernel/delivery/batch_proof.py:425-462 | a cycle moves if and only if the move is one of the six, the rows are honest, of this batch and this head, the way out fits the stage, a repair is left to spend, and merge readiness has every required row verified true |
| BatchProof.StandingExact | src/eawf/kernel/delivery/batch_proof.py:120-422 | the validators in full: what an audit row, its review and a cycle may be |
| BatchProof.CostPartitions | src/eawf/kernel/delivery/batch_proof.py:487-499 | the two id lists of a head move partition the criteria held: named is lost, not named is carried |
| BatchProof.PickedPartition | src/eawf/kernel/delivery/batch_proof.py:487-499 | the rows kept and the rows dropped are the rows held, none lost, doubled or altered |
| BatchProof.RebasesExactly | src/eawf/kernel/delivery/batch_proof.py:464-508 | a rebase succeeds if and only if the head is a later integration revision of the same batch; it checks anew with the spend carried and exactly the rows not named, and names what was lost, what was kept and the move |
| BatchProof.RunKeeps | src/eawf/kernel/delivery/batch_proof.py:355-508 | over every run of moves and head moves the cycle stands: merge-ready means every required row verified true; repairs spent are the spending moves within budget, ordinals grow, and k head moves leave room for at most 3(k + 1) moves |
| BatchProof.UnnamedKeepsVerdict | src/eawf/kernel/delivery/batch_proof.py:464-508 | a criterion no head move named keeps the very row it had, however often the head moved |
| VerificationCycle.RequireAuditCoverage | src/eawf/workflow/delivery/verification_cycle.py:378-402 | the loop returns the settling rows exactly when every judgment criterion has one, and otherwise names exactly the uncovered ones |
| VerificationCycle.WalksExactly | src/eawf/workflow/delivery/verification_cycle.py:405-530 | a walk breaks no cycle rule: it is refused only midway, with a judgment criterion that has no row, or without a way out of the right kind; it lands on merge readiness exactly when every required row is verified true, else on one repair while the budget lasts, else on the operator |
| VerificationCycle.MergedFrom | src/eawf/runtime/daemon/methods/delivery.py:1086-1097 | a merged row is its criterion's last presented one, else the carried one |
| VerificationCycle.MergedInOrder | src/eawf/runtime/daemon/methods/delivery.py:1086-1097 | merged rows come one a criterion, in the order of their criteria |
| BatchVerification.CatchesUp | src/eawf/runtime/daemon/methods/delivery.py:1128-1159 | the cycle met is a new one, the one on file, or that one checked anew on the head with exactly the rows no generation since affects; it is refused exactly when a list moved through is not its generation's own |
| BatchVerification.VerifiesExactly | src/eawf/runtime/daemon/methods/delivery.py:1207-1262 | the answer to a request in every case: each refusal with its exact condition, the cycle past checking as it is, otherwise the walked one, which is filed |
| BatchVerification.RebaseStaysCurrent | src/eawf/workflow/delivery/verification_cycle.py:333-375 | rows kept over a head move concern no criterion any generation moved through affected |
| BatchVerification.WalkedFresh | src/eawf/runtime/daemon/methods/delivery.py:1100-1125 | after a walk the rows on file are current if and only if the presented ones were |
| BatchVerification.AnswersOnHead | src/eawf/runtime/daemon/methods/delivery.py:1207-1262 | every answer is a valid cycle past checking, standing on the selected head, and is what is on file |
| BatchVerification.MergeReadyIsAudited | src/eawf/runtime/daemon/methods/delivery.py:1207-1262 | a merge-ready walk from a state with current rows: every required row is verified true, and each judgment criterion has a row that is current unless this request presented it |
| BatchVerification.EarlierRowAccepted | src/eawf/runtime/daemon/methods/delivery.py:1100-1125 | a clear row from any generation up to the head carries a first walk to merge readiness, whatever was selected since |
| BatchVerification.StaleRowAccepted | src/eawf/runtime/daemon/methods/delivery.py:1100-1125 | it happens: with two generations, the second affecting a criterion, a verdict taken on the first still carries the batch to merge readiness |
| BatchVerification.RunSound | src/eawf/runtime/daemon/methods/delivery.py:1207-1262 | over every run of selections and verifications the history stays linear and the cycle on file valid and bound to one of its generations |
| BatchVerification.RunFresh | src/eawf/runtime/daemon/methods/delivery.py:1128-1159 | while presented rows are current, no row on file ever concerns a criterion a later generation affected |
| BatchVerification.OnHeadRunFresh | src/eawf/runtime/daemon/methods/delivery.py:1128-1159 | when every request presents rows taken on the head it meets, no row on file ever concerns a criterion a later generation affected |
| BatchVerification.RepairsBounded | src/eawf/workflow/delivery/verification_cycle.py:424-459 | however often the code moves, each repair opened is one spent from the same budget, and they never pass what it has left |
| PacketCensus.SearchFrom | tools/packet_census.py:204-218 | the worklist search, duplicates on its stack included, finds its start again if and only if a non-empty path leads back to it, and terminates |
| PacketCensus.Cyclic | tools/packet_census.py:204-218 | the result lists exactly the nodes on a cycle, each once, sorted |
| PacketCensus.DryMeansAcyclic | tools/packet_census.py:204-218 | a search that ran dry without its start proves the start is on no cycle |
| PairingGate.ParseLog | tools/snapshot_pairing_gate.py:231-280 | the index-driven loop with its pending header reads what the recursive reader reads, failing where it would index past the end |
| PairingGate.ParsePrint | tools/snapshot_pairing_gate.py:231-280 | for any NUL-free subjects, bodies and paths, one named like the sentinel included, the printed stream reads back as the same commits, renames and copies on their destination |
| LifecycleView.ReadersAgree | tools/epoch2_lifecycle_view.py:183-206 | the hook's reader returns what the package's reader returns, on every projection, embedded previous ones included |
| LifecycleView.HookReadsLastLanded | tools/epoch2_lifecycle_view.py:183-206 | over any run of refused, crashed and finished writes the hook reads what the last landed write shows |
| LifecycleView.HookReadsLastWritten | tools/epoch2_lifecycle_view.py:183-206 | along the lifecycle it reads the very last document that landed |
| LifecycleView.OverlayEntries | tools/epoch2_lifecycle_view.py:157-180 | the overlay loop over entries gives the declarative overlay, or refuses where an entry is no object |
| LifecycleView.CompleteDownward | tools/epoch2_lifecycle_view.py:271-345 | the completion loop appends each child to its parent's list once |
| LifecycleView.DownwardComplete | tools/epoch2_lifecycle_view.py:271-345 | afterwards a parent lists exactly what it listed and what names it, old entries first |
| LifecycleView.DownwardDistinct | tools/epoch2_lifecycle_view.py:271-345 | a list that repeats nothing still repeats nothing |
| LifecycleView.DownwardIdempotent | tools/epoch2_lifecycle_view.py:271-345 | completing a completed view changes nothing |
| StoreLaws.SplitExact | src/eawf/kernel/store/compaction.py:383-433 | what each file gets: every collection but the runs and every Task is shared, the runs, the live sequence and the moving fields of Tasks in flight stay local, and the shared sequence moves exactly with a shared change |
| StoreLaws.TaskCommitted | src/eawf/kernel/store/compaction.py:436-452 | a Task in flight is shared with its definition, under the moving fields it was already shared with, and otherwise as planned, without a claim and with no run |
| StoreLaws.OverlayExact | src/eawf/kernel/store/compaction.py:479-503 | what a store shows: shared collections, local runs, the larger sequence, and each shared Task under its local entry unless it has ended |
| StoreLaws.OverlayRefused | src/eawf/kernel/store/compaction.py:479-503 | reading is refused exactly when the sequences cannot be ranked or a live Task's entry is no row |
| StoreLaws.EarlyShown | src/eawf/kernel/store/compaction.py:455-476 | a projection from before definitions were shared replaces Tasks, runs and sequence whole |
| Compaction.RowRoundTrip | src/eawf/kernel/store/compaction.py:436-503 | an in-flight row survives the split and the overlay if and only if its committed row is not terminal; otherwise it comes back with the terminal status |
| Compaction.SplitOverlay | src/eawf/kernel/store/compaction.py:383-503 | splitting a document and overlaying the halves gives it back as shown, which is the document itself if and only if no terminal row is revived |
| Compaction.WriteAtomic | src/eawf/kernel/store/compaction.py:255-307 | a write stopped after any replacement but the last reads as the document before, after the last as the document written is shown, revived rows with their terminal status |
| Compaction.CrashHistory | src/eawf/kernel/store/compaction.py:233-307 | over any run of writes, each refused, stopped anywhere or finished, the store reads as the last landed document is shown |
| Compaction.LifecycleHistory | src/eawf/kernel/store/compaction.py:233-307 | when each document comes by lifecycle moves from what was read, the store reads as the very last document that landed, revivals being impossible |
| Compaction.TerminalIsFinal | src/eawf/kernel/state/epoch2/transitions.py:676-825 | no run of lifecycle moves takes a Task from a terminal status back in flight |
| Compaction.BoundIsGrounded | src/eawf/kernel/store/compaction.py:455-503 | a store whose projection is bound to its committed file, or that has none yet, can start such a run |
| Compaction.RevivedRowLost | src/eawf/kernel/store/compaction.py:479-503 | a finished write reads back as written if and only if no terminal row is revived |
| Compaction.RevivedExample | src/eawf/kernel/store/compaction.py:436-503 | the store itself does not refuse a revived row: a document with a Task in flight over its completed row does not come back |
| Compaction.MovedFromOutside | src/eawf/kernel/store/compaction.py:455-503 | over a committed file replaced from outside, a Task in flight in the last document keeps its live status fields and takes that file's definition; rows terminal there, and all others, stay that file's |
| Compaction.StatusOnlySplit | src/eawf/kernel/store/compaction.py:383-433 | while only status fields, runs and a growing sequence move, the committed half stays what it was |
| Compaction.StatusOnlyWrite | src/eawf/kernel/store/compaction.py:255-307 | such a write replaces the projection alone |
| Compaction.OverlayKeepsRows | src/eawf/kernel/store/compaction.py:479-503 | the overlay adds and removes no row and never touches a terminal one |
| Compaction.OverlayIdempotent | src/eawf/kernel/store/compaction.py:479-503 | overlaying twice is overlaying once if and only if the live sequence compares with itself |
| Compaction.SettledReads | src/eawf/kernel/store/compaction.py:506-519 | settling a projection does not change how it reads |
| Compaction.Tree.ReadDocument | src/eawf/kernel/store/compaction.py:233-252 | reading gives the document the files show, which is the last one a write landed |
| Compaction.Tree.WriteDocument | src/eawf/kernel/store/compaction.py:255-307 | the in-place write, crashed at any point, shows the document written once it landed and the one before until then |
| LocalGc.PlanLocalGc | src/eawf/platform/local_gc.py:57-99 | the filling loops give the specified plan, empty without a root; on what a walk finds the planned paths are an antichain covering exactly the directories past their date with no kept one inside |
| LocalGc.PlanExact | src/eawf/platform/local_gc.py:57-99 | the entries under an expired path are exactly those past their date with no kept entry inside |
| LocalGc.WalkExact | src/eawf/platform/local_gc.py:57-99 | that exactness stated on the marker files found, one a directory |
| LocalGc.ExpiredAntichain | src/eawf/platform/local_gc.py:57-99 | no planned path lies under another |
| LocalGc.OnePlannedPath | src/eawf/platform/local_gc.py:57-99 | every removable entry is under one planned path and under no other |
| LocalGc.RemovedOrHeld | src/eawf/platform/local_gc.py:57-99 | every entry past its date is either removed or reported held, never both |
| LocalGc.SecondPassEmpty | src/eawf/platform/local_gc.py:57-120 | over the directories that applying the plan leaves, the entries found are exactly those that were not removable; planning again removes nothing and reports the same holds |
| LocalGc.LocalStore.ApplyLocalGc | src/eawf/platform/local_gc.py:102-120 | refused before anything is touched when a path resolves outside; otherwise exactly the planned subtrees go, and an antichain plan meets no missing path |
| Governor.AdmittedExactly | src/eawf/kernel/economics/governor.py:203-337 | a Run is admitted if and only if its prompt fits, a slot is free and both spends fit, queued if and only if only the fleet stands in its way and the governor queues, and the receipt always validates |
| Governor.ReceiptStates | src/eawf/kernel/economics/governor.py:219-344 | the receipt states slots, tokens and cost in this order, each with its ceiling, what is in flight, what is asked, and whether it is within, breached, unbounded or unavailable |
| Governor.HeldExactly | src/eawf/kernel/economics/governor.py:114-128 | a capped Run holds the larger of its cap and what it spent, on tokens and on cost; an uncapped one holds nothing that sums |
| Governor.OrderIrrelevant | src/eawf/kernel/economics/governor.py:219-247 | the whole receipt is independent of the order of live Runs |
| Governor.FinishingFrees | src/eawf/kernel/economics/governor.py:271-337 | a Run that finishes never makes an admissible request inadmissible |
| Governor.FitsAlone | src/eawf/kernel/economics/governor.py:271-337 | what some fleet admits an idle one admits, so what an idle fleet refuses is refused always |
| Governor.IdleAdmits | src/eawf/kernel/economics/governor.py:83-94 | a loadable governor, idle, admits exactly what is capped within every ceiling in force |
| Governor.HeldSplits | src/eawf/kernel/economics/governor.py:114-128 | what bounded Runs hold is their reservations plus their overshoot, no more and no less |
| Governor.NextExactly | src/eawf/kernel/economics/governor.py:271-344 | what moves the fleet: an admitted Run joins, spending is booked on its Run and axis, a Run that ends leaves |
| Governor.FleetSafe | src/eawf/kernel/economics/governor.py:271-337 | over every interleaving of requests, spending and endings: live Runs within the slots, reservations within each ceiling, holdings past it by the overshoot at most |
| Governor.FleetFromIdle | src/eawf/kernel/economics/governor.py:219-247 | from idle no Run is ever live unbounded on an axis with a ceiling |
| Governor.LoadableBinds | src/eawf/kernel/economics/governor.py:83-94 | a governor loads exactly when, idle, it admits a Run capped at nothing and refuses one without a cap; then every live Run is capped on tokens or on cost |
| CoauthorTrailer.ParsePrint | tools/normalize_coauthor.py:68-95 | a printed trailer reads back as itself |
| CoauthorTrailer.ParseReads | tools/normalize_coauthor.py:55-81 | the trailer reader meets the conditions the normaliser relies on |
| CoauthorTrailer.ParseExact | tools/normalize_coauthor.py:55-81 | a line reads as a trailer if and only if it is the key in any case, a name, an e-mail in angle brackets and white space, neither blank |
| CoauthorTrailer.CanonicalExact | tools/normalize_coauthor.py:84-95 | Claude and Codex take their registered names by e-mail, anybody else keeps theirs, and the e-mail is in lower case |
| NormalizeCoauthor.SplitTrailerBlock | tools/normalize_coauthor.py:98-118 | the backward index walk splits off the maximal run of trailers ending the message |
| NormalizeCoauthor.NormalizeWith | tools/normalize_coauthor.py:121-160 | the loops with seen, kept and popped lines rebuild the message as specified |
| NormalizeCoauthor.Normalize | tools/normalize_coauthor.py:121-160 | the hook itself is that rebuilding, with the co-author trailer expression |
| NormalizeCoauthor.KeptFirsts | tools/normalize_coauthor.py:121-160 | the surviving trailers are each e-mail's first one, in order |
| NormalizeCoauthor.KeptCanonical | tools/normalize_coauthor.py:84-95 | each survivor is canonical and no e-mail survives twice |
| NormalizeCoauthor.BodyKept | tools/normalize_coauthor.py:121-160 | nothing but blank lines is lost from the body, which the result begins with |
| NormalizeCoauthor.NormalizeIdempotent | tools/normalize_coauthor.py:121-160 | normalising twice is normalising once, on every message |
| PromptBudget.EvaluatePromptBudget | src/eawf/kernel/economics/prompt_budget.py:247-304 | the collecting loop and the comprehensions give the specified outcome, refused when a class is reported twice |
| PromptBudget.CollectExact | src/eawf/kernel/economics/prompt_budget.py:247-304 | sizes are refused if and only if a class repeats, and otherwise each is found under its class |
| PromptBudget.PolicyExact | src/eawf/kernel/economics/prompt_budget.py:116-147 | a policy loads exactly with one row for each class, room for all of them beside the reserved output, and the capsule on top |
| PromptBudget.VerdictsExact | src/eawf/kernel/economics/prompt_budget.py:229-289 | the verdict on every class: its ceilings, its measures, and exhausted, dropped, within or unavailable by the tokens and bytes measured |
| PromptBudget.DroppedExactly | src/eawf/kernel/economics/prompt_budget.py:270-304 | a class is dropped if and only if it was measured over its tokens or bytes, is neither capsule nor packet, and the mode degrades |
| PromptBudget.DroppedOrdered | src/eawf/kernel/economics/prompt_budget.py:270-304 | dropped classes come in non-decreasing priority |
| PromptBudget.OutcomeValid | src/eawf/kernel/economics/prompt_budget.py:205-226 | every outcome decided passes its own validator and drops no undroppable class |
| PromptBudget.DeniedExactly | src/eawf/kernel/economics/prompt_budget.py:247-304 | a dispatch is denied if and only if some class was measured over a ceiling and may not be dropped for it |
| PromptBudget.WindowHolds | src/eawf/kernel/economics/prompt_budget.py:116-147 | the tokens of all classes within their ceilings plus the output reservation fit the input window |
| PromptBudget.AdmittedIsKept | src/eawf/kernel/economics/prompt_budget.py:229-244 | in an admitted dispatch every fully measured class is dropped or within its ceiling |

## Left out

- Git, subprocess, HTTP, file locks and fsync: their results are parameters (trees, listings, token streams, clock readings).
- SHA-256 and canonical JSON: an injective function parameter; collisions are not modelled.
- Regular expressions: the trailer pattern is a predicate with the parse-of-print lemma it satisfies; the SHA pattern is a character check.
- Text is ASCII with newline-separated lines: other line separators, case folding outside ASCII and encodings are not modelled.
- Pull-request classification in `tools/ci_changes.py`: only pushes, schedules and manual runs are classified.
- The release train's twice-green requirement: a record made off the train does not need it, so the chain concerns the test job only.
- Re-runs of a CI run under one id: a history holds one outcome a run.
- Aliasing of nested dicts: bodies are values, so the shallow copy in `src/eawf/kernel/config/layered.py:270` and the sharing it causes are not captured; in-place stages are methods that reassign the one payload.
- Environment overrides, the branch layer's discovery and the leaf registry in `merge_config`: the layers arrive loaded.
- The numeric equality of `True` and `1` in selector lists, and the order of dict keys.
- Migration.MigrationFixpoint: the retired keys and the co-author pattern are parameters, and no retired key may lead to one the migration writes; the table in `src/eawf/kernel/config/registry/leaf_catalog.py:771-976` keeps to that.
- `migrate_config_file` with its backup and rewrite.
- `settle_status_ledgers`, the ledger files beside the document, recovery after compaction and legacy sealing.
- Status values that are not strings are read as no status, where the original may raise on an unhashable one.
- Sequences of two different values compare only as two integers or two texts; other pairs, such as two floats or a number with a boolean, are taken as an error, which for those the original may not raise.
- `regenerate` and the other censuses in `tools/packet_census.py`, and the gate's own verdicts in `tools/snapshot_pairing_gate.py`: comprehensions that would add easy members.
- Retention file decoding: a marker is read as a date, as unreadable, or is absent.
- Governor and prompt-budget digests and reasons: texts and hashes of the same records.
- The evidence view, `blocking_step_ids` and approval checks around the acceptance ledger; URN grammars and length limits of fields.
- Execution contracts behind a leg, and naive decision times: a leg carries its expected key and whether a gate can prove it.
- Conflict records of blocked integration attempts.
- Reviewer briefs and capsules: an attestation carries what they leave on the audit row.
- Message texts, log lines, exit codes and CLI parsing.
- Layered.Flatten: of two leaves with one spelling the original keeps the one inserted last; insertion order is not modelled, so either may be kept.
- Layered.DeepMergeWithSources: for the same reason its writes come in some order; the order is irrelevant when all paths are plain (`Layered.HomeMerges`).
- Layered.MergeConfig: likewise, a leaf whose own layer also writes above or below it may stay or go.
- Migration.KindPromoted: the retired keys are a parameter and none may be the scalar selector or contain it; the table in `src/eawf/kernel/config/registry/leaf_catalog.py:771-976` keeps to that.
- SelectorLaws.SelectorsMigrated: for selectors that are texts; other items pass with their cadences rewritten, or are dropped with the old catalog.
- MigrationLaws.CoauthorMigrated: how a text splits into name and e-mail is a parameter, because the expression is a regular one; it asks that no retired key lies on the project's path, which the shipped table keeps to.
- CiHistory.GateProven: takes finished listing rows to be rows of real runs, and what our own push runs uploaded to be what they built, because the hosting API is not modelled.
- Compaction.CrashHistory: takes each written document's sequence to compare with itself, neither null nor a mapping, because the reader drops a null one and raises on a mapping.
- Acceptance.HeadBatchesUnpinned: shows what the chain does not promise, because the code checks no more.
