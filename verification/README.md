# Verified model of SystemOfADownload

SystemOfADownload indexes Maven artifacts: it discovers versions, orders them, enriches them with git commits,
computes changelogs between neighbouring versions, and serves the result as filtered, paginated lists.
This project models the parts of it where the behaviour spans many functions, or many interleavings, and proves
what those parts guarantee. `dafny verify dfyconfig.toml` checks everything.

| file | models |
|---|---|
| `Versions.dfy`, `ComparatorMeaning.dfy`, `ComparatorLaws.dfy` | the version comparator, what it means in terms of the fields, and exactly when it is a total preorder |
| `Strings.dfy`, `SimpleParser.dfy`, `SchemaParser.dfy`, `ParsingMeaning.dfy` | the version parsers, the printed form, what each form of a string is read as |
| `StableSort.dfy`, `VersionOrdering.dfy`, `ManifestOrdering.dfy` | the ordering workflow over one artifact's rows, what running it again does, and that it follows the manifest |
| `SlidingWindow.dfy`, `BatchEncodings.dfy` | the batch protocol of the version, enrichment and changelog workflows, its safety, and its two continue-as-new encodings |
| `BatchProgress.dfy`, `BatchRepeats.dfy`, `BatchCompletion.dfy`, `BatchTotals.dfy` | how a batch ends: for which lists every schedule completes it, some schedule does, or every total is right |
| `VersionSync.dfy`, `SyncSchedules.dfy` | OFFSET paging, the asset-probe gate and conflict-free inserts under concurrent writers; interleaved attempts |
| `ChangelogWalk.dfy` | the commit difference with its two limits, and telescoping along a chain of versions |
| `SubmoduleChangelogs.dfy`, `SubmoduleEnrichment.dfy` | recursive submodule changelogs, and which submodules a version stores |
| `ChangelogPhase.dfy`, `ChangelogMeaning.dfy`, `ChangelogOrder.dfy` | the concurrent changelog children: what each decides and stores in terms of the answers of git, their read-modify-write of `commit_body`, and exactly when their order matters |
| `TagFilter.dfy`, `Pagination.dfy`, `CommitBodyMerge.dfy` | the tag filters, the page buttons, the upsert merge |

## How the model is built

Code that updates state is a method or a class whose `ensures` equate the new state with a specification function
of the old one; laws are lemmas about those functions, and descriptions that do not use them
(`Older`, `IsTree`, `IsDecision`, `LookedUpBy`, `Spells`, ...) say what they compute, with an if-and-only-if between the two. Concurrent protocols are step functions over labels, and a
schedule is any sequence of labels. Workflow coroutines are cooperative: one step of the page loop starts children
until it has to wait, and only in a new run it comes before the signals that have already arrived. A version is also a
workflow ID, so the server refuses a start while a child of that version is open, and the SDK refuses it while it knows
one of the same run. In `VersionSync` other sessions may change the shared table before every query,
every probe and every transaction; which accesses fail is an input (`Faults`). Parameters stand for what the program cannot see: regular expressions
(`Capture`), git (`Git`, `repo.Log` as a duplicate-free enumeration of the reachable commits), the collation, probe
answers and clocks. Go's 64-bit `Atoi` and 32-bit conversions are written out; in `OrderVersions` and its laws
`MAX_INT32` bounds the number of rows because `sort_order` is an `int32`.

## What was found

- **Comparator.** Reflexive and antisymmetric always, transitive only on some domains. `TransitiveIffCoherent` gives
  the exact condition, in terms of the shapes (variant index, kinds of the kept segments) that occur: if one shape
  leaves two others before these two part, its variant must lie outside theirs; and versions without any component
  tolerate no composite that has something to compare. `OptionalGroupCycle` is a cycle within one variant.
- **Re-running the ordering** is not the identity: rows arrive in descending order and the sort is stable, so every
  class of comparator-equal versions is reversed. Two re-runs restore the table.
- **Batches** are finite under every schedule (at most 11 N + 1 steps). Every schedule that runs to its end completes
  the batch with N if and only if the versions are distinct (`AllRunsCompleteIff`), whatever the window: a repeated
  version can be refused while its first child is open and then waits for ever (`RepeatGetsStuck`), fails the batch, or
  is counted once for two starts. Some schedule completes the batch if and only if no version comes twice on a page
  before the last ahead of the point where the window can have filled up (`SomeRunCompletesIff`); so a list of more than
  one page that begins with a repeated version always fails (`RepeatAtStartBlocks`).
- **Submodule changelogs.** A version stores only submodules that differ from what its predecessor's row *stored*, not
  from what it pinned. So an unmoved submodule is stored by every other version, and when it moves, its changelog
  appears if and only if it had been at the old pin for an odd number of versions enriched one after the other. The
  order of phase 1 is irrelevant exactly when no neighbours pin a submodule at the same commit
  (`OrderIrrelevantIff`). The comment in
  `internal/workflow/enrichment_batch.go:306` says "changed since the previous version"; the model follows the code.
- **Changelog order.** Which children have stored determines the table if and only if none has to wait for its
  predecessor at the start (`StoredDeterminesIff`); finished runs agree up to time stamps if and only if no child decides
  differently, in effect, before and after its waiting predecessor is marked (`FinishedAgreeIff`).
- **Truncation.** Beyond 100,000 commits `truncated = false` does not mean complete; `UntruncatedCompleteIff` says when it does.
- **Tag filter values** with `%`, `_` or a backslash are patterns; the dot-boundary reading is exact without them.
- The comments of `internal/workflow/changelog_batch.go:43-45` and `internal/workflow/commit_enrichment.go:26-27` call phase 2 sequential with
  window 1; the code runs it with window 5, which is why `ChangelogPhase` allows every interleaving.

## Model

| member | source | states |
|---|---|---|
| Versions.CompareIntSlices | internal/domain/version_ordering.go:206-224 | the loop computes the comparison of dotted numbers padded with zeros |
| Versions.CompareParsedVersions | internal/domain/version_ordering.go:119-191 | the loop with its early exit on a kind mismatch and the fall-through stages compute the comparator the laws are about |
| ComparatorMeaning.CompareMeaning | internal/domain/version_ordering.go:116-191 | the comparator is negative exactly if the first version is older: by manifest position, then segments, variant and qualifier, or weekly snapshots, numbers and qualifier; and zero exactly if neither is |
| ComparatorMeaning.CompareIntsMeaning | internal/domain/version_ordering.go:206-224 | one dotted number is below another exactly if it has the smaller number at the first place where they differ |
| Versions.CompareParsedSegments | internal/domain/version_schema.go:210-228 | segment comparison by kind, including missing sub-versions, is the specified one |
| ComparatorLaws.CompareAntisymmetric | internal/domain/version_ordering.go:116-191 | for all pairs, swapping the arguments negates the verdict, and equal versions compare 0 |
| ComparatorLaws.SimpleLaw | internal/domain/version_ordering.go:160-191 | versions without segments are totally preordered whatever they contain |
| ComparatorLaws.DomainLaw | internal/domain/version_ordering.go:119-191 | on a coherent domain any three versions fit one total preorder, strictness included |
| ComparatorLaws.TransitiveIffCoherent | internal/domain/version_ordering.go:133-158 | on a domain the comparator is transitive if and only if the shapes are separated and flat versions meet no comparable composites |
| ComparatorLaws.UniformShapesCoherent | internal/domain/version_schema.go:154-173 | composites that kept the same kinds of segments satisfy the condition across variants |
| ComparatorLaws.LayersWithinManifestPosition | internal/domain/version_ordering.go:160-182 | at one manifest position weekly snapshots precede composites and composites precede simple versions with a positive number |
| ComparatorLaws.OptionalGroupCycle | internal/domain/version_ordering.go:133-158 | three versions of one variant with an optional group form a strict cycle |
| SimpleParser.FindWeeklyComplete | internal/domain/version_ordering.go:63 | every decomposition the weekly pattern allows is the one found |
| SimpleParser.FindDashSnapshotComplete | internal/domain/version_ordering.go:65 | every decomposition the snapshot pattern allows is the one found |
| SimpleParser.FindQualifiedComplete | internal/domain/version_ordering.go:64 | every decomposition the pre/rc pattern allows is the one found, with its qualifier |
| SimpleParser.FindQualifiedSound | internal/domain/version_ordering.go:64 | what is found is a decomposition the pattern allows |
| SimpleParser.PatternsExclusive | internal/domain/version_ordering.go:62-67 | no string matches two of the four patterns, so their order is irrelevant |
| SimpleParser.ParseDottedInts | internal/domain/version_ordering.go:193-204 | the loop keeps exactly the parts that are 64-bit numbers, in order |
| SimpleParser.ParseSimpleVersion | internal/domain/version_ordering.go:70-114 | the branches build the specified parsed version |
| SimpleParser.ParsePrint | internal/domain/version_ordering.go:70-114 | parsing a printed version recovers components, qualifier and number |
| SimpleParser.ParsePrintWeekly | internal/domain/version_ordering.go:73-79 | parsing a printed weekly snapshot recovers year, week and build |
| SimpleParser.PreReleaseAgreement | internal/frontend/version_sort.go:25-30 | the frontend's test agrees with the parser's qualifier if and only if the string does not start with a hyphen |
| ParsingMeaning.AtoiForms | internal/domain/version_ordering.go:193-204 | signs are accepted, and numerals out of the 64-bit range give the nearest bound and an error |
| ParsingMeaning.AtoiRejects | internal/domain/version_ordering.go:193-204 | what is not a numeral behind an optional sign is no number |
| ParsingMeaning.PartsRead | internal/domain/version_ordering.go:193-204 | the parts between dots are read one by one: a number in range is kept, anything else is left out |
| ParsingMeaning.FoldsIffUpper | internal/domain/version_ordering.go:62-67 | the words of the patterns are matched in any letter case |
| ParsingMeaning.WeeklyForm | internal/domain/version_ordering.go:73-79 | a weekly snapshot is read as year, week and build letter |
| ParsingMeaning.DashSnapshotForm | internal/domain/version_ordering.go:81-87 | number, snapshot and its number are read, in any letter case |
| ParsingMeaning.QualifiedForm | internal/domain/version_ordering.go:89-100 | number, pre or rc and its number are read, with any of the separators |
| ParsingMeaning.DottedForm | internal/domain/version_ordering.go:102-106 | a dotted number is a release |
| ParsingMeaning.FallbackForm | internal/domain/version_ordering.go:108-112 | anything else with a hyphen is a snapshot of the number in front of the first hyphen |
| ParsingMeaning.UnreadableForm | internal/domain/version_ordering.go:108-113 | what has no hyphen behind the first character either is a release without components |
| SchemaParser.ParseSegments | internal/domain/version_schema.go:154-173 | the loop builds one segment per rule whose group captured something |
| ParsingMeaning.SegmentsRead | internal/domain/version_schema.go:154-173 | there is one segment per captured rule, in the order of the rules, with the value that its kind reads from the captured text |
| ParsingMeaning.QualifierGroup | internal/domain/version_schema.go:139-149 | rc and beta, pre, dev and snapshot, in any letter case, give their qualifiers, and everything else a release |
| SchemaParser.ParseVersionWithSchema | internal/domain/version_schema.go:108-188 | the first variant that captures decides; otherwise the simple parser does |
| SchemaParser.ParsedShape | internal/domain/version_schema.go:113-173 | the shape of a composite is the index of the first capturing variant and its rules without the skipped groups |
| ManifestOrdering.CompositeReads | internal/domain/version_schema.go:123-173 | raw string, variant name and index, build number, qualifier and segments of the first matching variant |
| SchemaParser.ParsedWellFormed | internal/domain/version_schema.go:108-188 | everything parsed, annotated with manifest positions or not, meets the assumptions of the comparator laws |
| SchemaParser.ManifestPositions | internal/activity/version_ordering.go:94-99 | newer versions get higher positions, none gets the unset value 0, duplicates get the older position |
| ManifestOrdering.AnnotatedWith | internal/activity/version_ordering.go:222-233 | a version gets the position of what its first minecraft group captured, or of the whole version, and 0 if the manifest does not list it |
| ManifestOrdering.NestedAnnotated | internal/activity/version_ordering.go:226-232 | the nested Minecraft version gets the same position, and nothing else changes |
| ManifestOrdering.ManifestDecides | internal/activity/version_ordering.go:94-99 | after a run over a coherent table, the version that the manifest lists as newer has the larger sort_order |
| ManifestOrdering.ManifestDecidesSimple | internal/activity/version_ordering.go:222-255 | without a schema this holds for every table |
| StableSort.StableSortUnique | internal/activity/version_ordering.go:242-245 | ascending order, same elements and stable ties determine the result of the sort |
| StableSort.SortIsAscending | internal/activity/version_ordering.go:242-245 | on a preorder the result is an ascending permutation |
| StableSort.SortReverse | internal/activity/version_ordering.go:242-245 | sorting an ascending sequence from its reverse flips every run of ties |
| StableSort.FlipTiesInvolution | internal/activity/version_ordering.go:242-245 | flipping ties twice is the identity, once exactly when there are none |
| VersionOrdering.VersionTable.ComputeVersionOrdering | internal/activity/version_ordering.go:183-279 | the assignments number the stably sorted rows 1..N and flag releases |
| VersionOrdering.VersionTable.ApplyVersionOrdering | internal/activity/version_ordering.go:287-310 | a transaction applies its assignments in order |
| VersionOrdering.VersionTable.ApplyInBatches | internal/workflow/version_ordering.go:93-101 | batches of 500 add up to one application of all assignments |
| VersionOrdering.VersionTable.OrderVersions | internal/workflow/version_ordering.go:40-116 | a run turns the table into its reordered form and reports the number of rows |
| VersionOrdering.ApplyAllAt | internal/activity/version_ordering.go:297-308 | a row that is assigned once gets its values and keeps its other columns |
| VersionOrdering.ParserOfWellFormed | internal/activity/version_ordering.go:209-236 | every run reads versions the comparator laws speak about |
| VersionOrdering.RunOrders | internal/activity/version_ordering.go:247-255 | a run leaves positions 1..N along the sorted order and changes no version and no commit |
| VersionOrdering.OlderComesFirst | internal/activity/version_ordering.go:181-279 | on a coherent table the version that is older by its fields gets the smaller sort_order, whatever order the rows arrived in |
| VersionOrdering.RerunFlipsTies | internal/db/query.sql.go:576-582 | over an ordered, unchanged table a run reverses every class of equal versions and keeps the rest |
| VersionOrdering.RerunTwice | internal/activity/version_ordering.go:189-255 | two re-runs restore the table |
| VersionOrdering.RerunFixed | internal/activity/version_ordering.go:189-255 | one re-run changes nothing if and only if no two versions compare equal |
| SlidingWindow.BatchRun.constructor | internal/workflow/version_batch_index.go:46-62 | a batch starts with an empty window, no progress and the default window size where none is given |
| SlidingWindow.SignalsAsSet | internal/workflow/version_batch_index.go:182-187 | what signals record depends only on who signalled, not on order or repetition |
| SlidingWindow.BatchRun.StartChildren | internal/workflow/version_batch_index.go:76-102 | one turn of the page loop starts and records children until the window is full or the page is done, with the refusals of known workflow IDs |
| SlidingWindow.BatchRun.ReceiveOne | internal/workflow/version_batch_index.go:152-165 | the pump takes the oldest signal and records it |
| SlidingWindow.BatchRun.DrainCompletionSignals | internal/workflow/version_batch_index.go:168-180 | the loop records every waiting signal |
| SlidingWindow.BatchRun.ContinueOrComplete | internal/workflow/enrichment_batch.go:106-133 | the total after draining, the error of a refused start, or the next run in the chosen encoding |
| SlidingWindow.WindowSafety | internal/workflow/version_batch_index.go:64-115 | in every reachable world the window bound holds, starts follow the list, and progress plus window account for the starts; distinct versions are never refused and never fail |
| SlidingWindow.CompletedBatch | internal/workflow/version_batch_index.go:108-141 | a completed batch has started everything, counted everything if versions are distinct, and taken ceil(N/50) runs |
| BatchProgress.MeasureDecreases | internal/workflow/version_batch_index.go:76-141 | every turn of the page loop and every recorded completion brings the batch closer to its end, and no step moves it away |
| BatchProgress.SchedulesFinite | internal/workflow/version_batch_index.go:64-187 | no schedule has more than 11 N + 1 steps |
| BatchProgress.NeverStuck | internal/workflow/version_index.go:29-42 | the parent, the server or a child can move, unless a start was refused and no child and no signal is left |
| BatchProgress.DistinctRunsComplete | internal/workflow/version_batch_index.go:64-141 | with distinct versions every schedule that runs to its end completes the batch with N |
| BatchProgress.AllRunsCompleteIff | internal/workflow/version_batch_index.go:85-141 | all schedules that run to their end complete the batch with N if and only if the versions are distinct |
| BatchProgress.RepeatGetsStuck | internal/workflow/version_batch_index.go:85-141 | a repeated version, a window of one, and a schedule after which nothing can happen any more |
| BatchCompletion.SomeRunCompletesIff | internal/workflow/version_batch_index.go:76-115 | some schedule completes the batch if and only if no version comes twice on a page before the last ahead of the point where the window can have filled up |
| BatchCompletion.RepeatAtStartBlocks | internal/workflow/version_batch_index.go:108-115 | a list of more than one page that begins with a repeated version is never completed with a window of two or more |
| BatchTotals.RepeatsInsideCount | internal/workflow/version_batch_index.go:108-115 | if versions are repeated inside pages before the last only, every completed batch returns N |
| BatchTotals.LastPageLoses | internal/workflow/version_batch_index.go:129-140 | a version that comes again on the last page can be counted once for two starts |
| BatchTotals.CountsAllIff | internal/workflow/version_batch_index.go:64-187 | all completed batches return N if the window is 1, the list is blocked, or repeats stay inside pages before the last; and only if, for lists that repeat no version across such pages |
| BatchEncodings.EncodingsEquivalent | internal/workflow/changelog_batch.go:108-125 | under every schedule the sliced list and the growing offset allow the same steps and look the same |
| VersionSync.RankGrows | internal/db/query.sql.go:517-523 | while rows are only inserted, a row's position in the string query never decreases |
| VersionSync.IndexIsRank | internal/db/query.sql.go:517-523 | the OFFSET of a row is the number of rows before it |
| VersionSync.PageByRank | internal/db/query.sql.go:517-523 | a page holds exactly the rows whose position lies in its range, and a short page is the last |
| VersionSync.InsertAllEffect | internal/activity/version_sync.go:308-319 | a transaction adds bare rows for missing versions and leaves existing rows as they are |
| VersionSync.CommitsConfluent | internal/db/query.sql.go:447-451 | after any commits of overlapping runs the table is the old one plus a bare row per other announced version |
| VersionSync.PagedGrows | internal/activity/version_sync.go:213-239 | inserts of other sessions do not disturb what a paging loop knows |
| SyncSchedules.AttemptsConfluent | internal/activity/version_sync.go:257-325 | however attempts page, filter and commit interleaved, the table gains exactly a bare row per announced version, and each attempt announces only versions absent at its start and leaves all its versions stored |
| VersionSync.GateIff | internal/activity/version_sync.go:182-205 | exactly the known candidates and those probed true pass the gate |
| VersionSync.NewOnlyInOrder | internal/activity/version_sync.go:290-296 | the new versions keep their order, repeats included |
| VersionSync.VersionTable.ListVersionStrings | internal/db/query.sql.go:531-550 | a page by position, and an error exactly if the query fails or the offset is negative |
| VersionSync.VersionTable.ExistingVersionSet | internal/activity/version_sync.go:213-239 | despite inserts between page reads the set holds every version present at the start and only versions present at the end; it fails exactly if an access fails, while the row count fits an int32 |
| VersionSync.VersionTable.FetchVersionsMetadata | internal/activity/version_sync.go:148-208 | at most 50 probes, made for the unknown candidates in order; the gated list, or the empty one in the deferred cases, and an error exactly if the metadata, an access or a needed probe fails |
| VersionSync.VersionTable.InsertNewArtifactVersion | internal/db/query.sql.go:447-451 | inserts a bare row or does nothing |
| VersionSync.VersionTable.InsertVersions | internal/activity/version_sync.go:308-322 | all inserts, or none if the transaction fails |
| VersionSync.VersionTable.StoreNewVersions | internal/activity/version_sync.go:257-325 | announces exactly the input versions that paging did not find, leaves every input version stored, creates bare rows for exactly those that no other session inserted, and fails exactly if a needed access fails |
| VersionSync.VersionTable.MetadataSync | internal/activity/version_sync.go:132-147 | every row a metadata run creates was probed true in that run, everything probed true is stored in the end, and the run fails exactly if one of its parts does |
| ChangelogWalk.BuildExcludeSet | internal/gitcache/gogit.go:165-181 | the exclusion set is the first 100,000 commits of the old commit's log |
| ChangelogWalk.ComputeChangelog | internal/gitcache/gogit.go:137-240 | the two walks with their early stops compute the capped difference and its first 500 commits |
| ChangelogWalk.ExactWithinLimit | internal/gitcache/gogit.go:155-239 | within the limit the changelog is reach(new) minus reach(old) in walk order without duplicates, cut at 500, and truncated says so exactly |
| ChangelogWalk.UntruncatedCompleteIff | internal/gitcache/gogit.go:162-203 | an untruncated changelog is exact if and only if nothing relevant lies beyond the two limits |
| ChangelogWalk.IncompleteBeyondLimit | internal/gitcache/gogit.go:195-203 | a commit graph on which an untruncated changelog misses a commit |
| ChangelogWalk.NeighbourLists | internal/gitcache/gogit.go:152-239 | a neighbour's changelog lists only what the version adds, each commit once, and all of it exactly if it is not truncated |
| ChangelogWalk.ChangelogsCover | internal/workflow/changelog_batch.go:281-304 | whatever the last version of a chain adds to the first is listed in some neighbour's computed changelog, unless that is truncated or disturbed by a walk limit |
| ChangelogWalk.ChangelogsPartition | internal/workflow/changelog_batch.go:281-304 | on an ancestor chain the computed changelogs of neighbours are disjoint and list only what the last version adds to the first, and together list all of it if and only if none is truncated |
| SubmoduleChangelogs.BuildPinnedSHAs | internal/workflow/changelog_batch.go:429-433 | the lookup table keeps the last pin of a repository |
| SubmoduleChangelogs.ComputeSubmoduleChangelogs | internal/workflow/changelog_batch.go:413-539 | the loop with its skips and recursion computes the specified tree |
| SubmoduleChangelogs.ComputeNested | internal/workflow/changelog_batch.go:492-528 | nested submodules are followed only if both commits pin some |
| SubmoduleChangelogs.ComputeIsTree | internal/workflow/changelog_batch.go:399-539 | for every git oracle the result is the one tree of height at most three that lists exactly the submodules whose last earlier pin differs and whose log from there to here has commits, each with that pin and that log; there is no result exactly if there is no such tree |
| SubmoduleChangelogs.CommitURLForms | internal/domain/asset.go:84-88 | commits are linked below the repository URL without trailing slashes and without .git |
| SubmoduleEnrichment.FindRepository | internal/workflow/enrichment_batch.go:240-278 | the repository of the commit body if it is not registered and has the commit, otherwise the first registered one that has it, or none |
| SubmoduleEnrichment.ChangedSubmodules | internal/workflow/enrichment_batch.go:316-329 | the submodules that the predecessor's row does not hold at the same commit |
| SubmoduleEnrichment.ChangedIff | internal/workflow/enrichment_batch.go:316-329 | kept is exactly what is not the last earlier pin of its repository |
| SubmoduleEnrichment.ChangedInOrder | internal/workflow/enrichment_batch.go:323-328 | the kept submodules stay in order |
| SubmoduleEnrichment.EnrichAllStores | internal/workflow/enrichment_batch.go:306-329 | whatever the order, each row is determined by which neighbours were enriched before their successors |
| SubmoduleEnrichment.StoredIffOdd | internal/workflow/enrichment_batch.go:306-329 | an unmoved submodule is stored by the first, third, fifth, ... only of a run of versions enriched one after the other |
| SubmoduleEnrichment.MovedSubmoduleListedIffOdd | internal/workflow/changelog_batch.go:429-464 | after phase 1 in any order, the changelog mentions a moved submodule if and only if it had been at its old pin for an odd number of versions enriched one after the other |
| SubmoduleEnrichment.NeighboursCommuteIff | internal/workflow/enrichment_batch.go:306-329 | two neighbours can be enriched in either order if and only if the younger pins nothing that the older stores |
| SubmoduleEnrichment.OrderIrrelevantIff | internal/workflow/enrichment_batch.go:306-329 | all orders of phase 1 leave the same rows if and only if no neighbouring versions pin a submodule at the same commit |
| ChangelogPhase.PreviousUnique | internal/db/query.sql.go:341-350 | with unique positions the predecessor query has one answer |
| ChangelogMeaning.PreviousIff | internal/db/query.sql.go:341-350 | the predecessor is the row with a commit at the nearest lower position, and unordered rows do not count |
| ChangelogPhase.ComputeVersionChangelog | internal/workflow/changelog_batch.go:239-314 | skip, wait, fail or a changelog, with the repository chosen as the source chooses it |
| ChangelogMeaning.DecisionIff | internal/workflow/changelog_batch.go:239-314 | a child skips, waits, fails or stores exactly as the predecessor's row and git determine, with the log from the predecessor's commit to its own if both are in one repository |
| ChangelogMeaning.MainCommitsNew | internal/workflow/changelog_batch.go:281-304 | if the log is the walk, a stored main changelog lists only commits that the version has and its predecessor has not |
| ChangelogMeaning.SubmoduleCommitsNew | internal/workflow/changelog_batch.go:477-487 | so does the changelog of a submodule, from its last earlier pin to its new one |
| ChangelogPhase.VersionStore.StoreVersionChangelog | internal/activity/changelog_activities.go:227-258 | sets the changelog, clears only pending_predecessor, keeps every other field; a missing row is an error |
| ChangelogPhase.SameDecision | internal/workflow/changelog_batch.go:229-314 | a child's decision depends only on fields that no changelog child writes |
| ChangelogPhase.Confluent | internal/workflow/changelog_batch.go:209-323 | under every interleaving and repetition the table is determined by which children have stored |
| ChangelogPhase.ConfluentPair | internal/workflow/changelog_batch.go:209-323 | two schedules in which the same children store end in the same table |
| ChangelogPhase.OwnRowGainsChangelog | internal/activity/changelog_activities.go:241-246 | a child's row gains its changelog, error statuses survive, and nothing else in the row changes |
| ChangelogPhase.OtherRowsStay | internal/activity/changelog_activities.go:253-256 | rows whose child has not stored stay as they are |
| ChangelogPhase.PhaseIdempotent | internal/workflow/changelog_batch.go:209-323 | running the phase again over its own result changes nothing |
| ChangelogOrder.StoredDeterminesIff | internal/workflow/changelog_batch.go:244-262 | all pairs of schedules in which the same children store end in the same table if and only if no child waits at the start |
| ChangelogOrder.DecideNow | internal/workflow/changelog_batch.go:229-262 | at any time a child decides as at the start, or as if its predecessor had been marked pending |
| ChangelogOrder.FinishedAgreeIff | internal/workflow/changelog_batch.go:209-366 | all finished runs leave the same table up to time stamps if and only if marking a waiting predecessor makes no difference to what a child does to its row |
| ChangelogOrder.WaitingChainDisagrees | internal/workflow/changelog_batch.go:349-366 | a child that waits for a waiting child either gives up or stores a changelog |
| TagFilter.FiltersAgree | internal/repository/repository.go:190-208 | the grouped and the EXISTS filter select the same versions for every tag table and filter |
| TagFilter.ResultUniqueIff | internal/repository/repository.go:210 | the order of the rows is settled if and only if no two of them share a sort_order |
| TagFilter.QueriesAgree | internal/repository/repository.go:327-408 | however ties are resolved, the pages of both list queries agree in sort_order position by position, and altogether without ties; the windowed total is the count exactly when the page is not empty or nothing matches |
| TagFilter.QuerySelects | internal/repository/repository.go:184-208 | a query returns exactly the versions with the wanted recommended flag and with every tag, by value or by a longer value behind a dot |
| TagFilter.PageIs | internal/repository/repository.go:211-216 | a page begins at its offset and has as many rows as limit and list allow |
| TagFilter.LikePercent | internal/repository/repository.go:191-192 | a percent sign matches any beginning |
| TagFilter.ComponentPrefixIs | internal/repository/repository.go:191-192 | dot-separated components form a prefix exactly when the value is equal or is followed by a dot |
| TagFilter.MatchesComponentsIff | internal/repository/repository.go:349-361 | the filter selects exactly the component prefixes, for all tag values, if and only if the value has no LIKE metacharacter |
| Pagination.PageWindow | internal/frontend/handlers.go:589-644 | the branches and collapses place the window and the ellipses in closed form |
| Pagination.BuildPageList | internal/frontend/handlers.go:584-675 | for all integers the list is the seven-slot closed form |
| Pagination.ComputePagination | internal/frontend/handlers.go:560-577 | the page that holds the offset, the number of pages, and the first offsets of the pages before and after |
| Pagination.PageListShape | internal/frontend/handlers.go:579-583 | min(N, 7) entries from 1 to N, only the current page active, link offsets lead back to their page |
| Pagination.PageListSpacing | internal/frontend/handlers.go:625-640 | adjacent numbers are consecutive and every ellipsis hides at least two pages |
| Pagination.NeighboursShown | internal/frontend/handlers.go:579-583 | the current page and its neighbours are always shown |
| Pagination.NumbersAscend | internal/frontend/handlers.go:657-672 | the numbers of the list ascend strictly |
| Pagination.PageListMirror | internal/frontend/handlers.go:579-675 | counting from the other end gives the same list backwards |
| CommitBodyMerge.MergeMeaning | internal/db/query.sql.go:84-93 | which body wins as a whole, and otherwise that the row has the keys of both with the incoming values |
| CommitBodyMerge.ShaSurvives | internal/db/query.sql.go:84-93 | after any upserts the row carries the newest usable sha |
| CommitBodyMerge.KeysSurvive | internal/db/query.sql.go:84-93 | no key is lost, and keys no writer mentions keep their values |
| CommitBodyMerge.MergeIdempotent | internal/db/query.sql.go:84-93 | repeating an upsert changes nothing |

## Left out

- General regular expressions: the four fixed patterns are written by hand on character strings, schema patterns are an oracle.
- Tags (`ExtractTags`, `StoreVersionTags`), schema validation and the pattern cache: only easy members.
- Failures in the middle of the ordering workflow: each batch is one transaction and the model runs all of them.
- VersionOrdering.VersionTable.ComputeVersionOrdering: sorts by insertion; on a table whose versions are not coherent (`TransitiveIffCoherent`) the sort of the Go library may arrange them in another way.
- Temporal timers, polling intervals, heartbeats and retries: a child's attempts are the signals it may send or its repeated reads and writes.
- Batches: cancellation of the parent, children terminated from outside before they signal, and children that an earlier execution of the same batch has left open.
- BatchTotals.CountsAllIff: only the sufficient half covers lists that repeat a version on a later page which is not the last; whether such a version can be lost depends on how the pages behind it begin.
- VersionSync.VersionTable.InsertVersions: a transaction takes effect at one moment, so other sessions act before and after it but not inside.
- The REST search source of `FetchVersions`: it has no gate and no database reads.
- ChangelogWalk.ComputeChangelog: iteration errors, which the source ignores, and commit metadata are not modelled.
- The shell implementation of the changelog in `internal/gitcache/manager.go` and the `.gitmodules` parser: `git log` itself does the work there.
- SubmoduleEnrichment.MovedSubmoduleListedIffOdd: assumes that cloning submodules succeeds and that a version pins a repository at most once.
- HTTP, JSON encoding, templates, authentication, service-layer CRUD and wiring.
