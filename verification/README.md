# Verified models of agent-device's algorithms and protocols

This project models the parts of agent-device that compute something hard to get right by
inspection, and proves what they are for. Each model follows one source file branch by branch;
code that updates state in place is a class or a loop here too, proved against functions or
predicates about which the theorems are then stated.

- **Import-graph engine.** `tarjan.dfy` is the recursive strongly-connected-component walk that
  `findValueImportCycles` and `largestTypeCycleMembers` both contain, with its index and low-link
  maps, stack and on-stack set; the walk is written once and keeps both callers' records.
  `cycles.dfy` extracts one printable cycle from a component, `layering.dfy` runs the two gates
  from raw edges to reports. `reachability.dfy`, `reduction.dfy` and `depgraph.dfy` cover
  collapsing, redundancy marks, transitive reduction and longest-path levels; `cyclereport.dfy`
  and `affected.dfy` the reports built on them, and `cyclelabels.dfy` when the label of a reported
  cycle can be taken at its word. `digraph.dfy` and `sequences.dfy` hold the graph
  and sorting vocabulary.
- **Mutation lane.** `packing.dfy` holds Graham's bound for longest-first packing, `sharding.dfy`
  the loop over bins, `scoring.dfy` merging and scoring, `shardedlane.dfy` the lane end to end,
  and `ratchet.dfy` the baseline as a state machine over whole run histories.
- **Command suggestions.** `levenshtein.dfy`: the rolling-row distance against all edit scripts.
- **Linux tree dump.** `atspi.dfy` and `atspirebuild.dfy`: the bounded preorder walk and its inverse;
  `atspiaddresses.dfy` says what it lists without walking, and `atspicapture.dfy` is the entry point.
- **Zero-dependency jobs.** `zerodep.dfy`: alias expansion and the import closure.
- **Diff fold.** `hunkheader.dfy` and `diff.dfy` parse a unified diff; `gitquoting.dfy` spells paths
  as git does and `gitpaths.dfy` says which of them survive; `diffprinter.dfy` prints a diff and
  proves when the two are inverse; `diffpatterns.dfy` gives the patterns' meaning on any line.
- **Companion tunnel.** `tunnel.dfy` is the registration protocol under every interleaving of
  shutdown, lease checks and network outcomes; `tunnelworker.dfy` is the worker whose closures
  share their variables, each callback proved to make exactly one protocol step.

`dafny verify dfyconfig.toml` checks everything.

## What the proofs found

- `parseUnifiedDiff` loses an inserted line whose text begins with `++` (with its mark it looks
  like a `+++` header). It misnames every file whose path git quotes, that is, one with a character
  outside printable ASCII, a double quote or a backslash, and every file whose path ends in a blank.
  A file that has no `+++` line of its own (deleted, moved, binary or chmod-ed) it also misnames when
  the path starts with a blank, lies in a top-level folder named `b` or contains ` b/`, and when only
  the old path is quoted. `DiffPrinter.DiffRoundTrip` shows that on what git prints by default these
  are the only failures; `DiffPrinter.PlusPlusLineIsLost`, `DiffPrinter.QuotedPathIsLost` and
  `DiffPrinter.FolderNamedBIsLost` are small inputs.
- `reachableBeyondDirectEdge` answers yes for any other edge of a file that imports itself, because
  the search then walks the direct edge after all (`Searches.SelfImportLooksRedundant`). Its only
  caller passes collapsed edges, which contain no self edge, so the marks are right
  (`DepGraph.MarkIsRedundancy`).
- The dump's `truncated` flag is also set when the tree fits exactly
  (`AtspiDump.ExactFitCountsAsTruncated`).
- A cycle that `collectCycles` labels `type` or `dynamic` need not use an import of that kind
  (`CycleLabels.LabelWithoutItsKind`). A `type` label does in every listing of the imports exactly
  when no component of the value graph has two cycles through different files
  (`CycleLabels.TypeLabelsEarnedExactly`). For either kind it does exactly when each cycle of the
  stronger graph has its files forced upon an earlier run, because some cycle of that run's graph has
  just these files and so has every cycle of its component (`CycleLabels.LabelsEarnedExactly`). Both
  conditions are about the graphs alone and hold under any total order of names.
- The comment on `applyRun` says that after a regression the ratchet keeps failing until the tests are
  restored. The record does stay, but a failed run that counts toward graduation resets the stable
  streak and so turns the gate off, and the same scores then pass (`Ratchet.FailsOnlyOnce`).
  `Ratchet.FailureRepeats` says exactly when a failure repeats.
- The throw at the end of `findCyclePath` and the guard in `computeLevels` are dead exactly as their
  comments say (`Layering.ComponentHasPath`, `DepGraph.GateMakesCollapsedAcyclic`).

## Model

| member | source | states |
|---|---|---|
| Tarjan.SuffixIsComponent | scripts/layering/model.ts:282-289 | when a vertex's low link equals its index, what lies above it on the stack is one whole strongly connected component |
| Tarjan.PopKeeps | scripts/layering/model.ts:282-291 | settling that component keeps every invariant of the walk: numbering, colours, reachability along the stack, and settled components pairwise disjoint |
| Tarjan.FoldVisited | scripts/layering/model.ts:274-276 | folding a visited target's low link keeps the low link a reachable index and a bound on every edge handled so far |
| Tarjan.FoldOnStack | scripts/layering/model.ts:277-279 | the same for the index of a target that is still on the stack |
| Tarjan.ComponentWalk.PopDownTo | scripts/layering/model.ts:283-289 | the pop loop takes exactly the stack from the vertex up, each file once |
| Tarjan.ComponentWalk.Visit | scripts/layering/model.ts:266-292 | the recursive visit terminates on every graph, keeps the walk sound, and leaves the vertex settled or its low link attained and bounding |
| Tarjan.ComponentWalk.VisitAll | scripts/layering/model.ts:294-296 | after the root loop nothing is left open and every popped list is a component, pairwise disjoint, covering all that is reachable |
| Layering.BuildValueGraph | scripts/layering/model.ts:250-257 | the adjacency map represents exactly the static value imports and has a key for every file they touch |
| Layering.FindCyclicComponents | scripts/layering/model.ts:249-296 | the components kept are exactly the strongly connected components that contain a cycle, each once |
| Layering.CyclicTest | scripts/layering/model.ts:290-291 | the size or self-edge test holds of a component exactly when its files lie on cycles |
| Layering.FindValueImportCycles | scripts/layering/model.ts:249-300 | sorted reports, each a cycle of value imports, no two in one component, every file on a cycle covered, none at all exactly when the graph is acyclic, and each the path the search settles on |
| Layering.SameComponentSameReport | scripts/layering/model.ts:297-300 | under a total order of names a component's report does not depend on the order in which the component was popped |
| CyclePaths.SearchFromSound | scripts/layering/model.ts:311-327 | a path found from a file is a simple closed walk of the members' own edges; without one the file is abandoned with everything it leads to |
| CyclePaths.SearchDecides | scripts/layering/model.ts:329-334 | the root loop settles on such a path, unless the members' own edges form no cycle at all |
| CyclePaths.PathSearch.Visit | scripts/layering/model.ts:311-327 | the visit with its stack and its map of positions returns what the recursive search settles on, and without a path restores both |
| CyclePaths.FindCyclePath | scripts/layering/model.ts:302-335 | returns a simple cycle inside the component, nothing exactly when the component's own edges are acyclic, and the very path the recursive search over the sorted component settles on |
| CyclePaths.AbandonedIsAcyclic | scripts/layering/model.ts:324-326 | a graph whose files were all abandoned without a path has no cycle |
| Layering.ComponentHasPath | scripts/layering/model.ts:334 | the throw is unreachable: the inside of every component passed on has a cycle |
| Layering.LargestTypeCycleMembers | scripts/layering/model.ts:396-441 | a strongly connected component of maximum size over non-dynamic imports, sorted; one file on an acyclic graph with edges, none without edges |
| Layering.PoppedLargestIsLargest | scripts/layering/model.ts:436-440 | the first popped list of maximum length is at least as large as every component, walking from import sources only |
| DepGraph.CollapseEdges | scripts/depgraph/model.ts:88-110 | one fresh unmarked edge per distinct pair, no self edge, sorted by importing then imported file; read off the flags, it is a value edge if any import of the pair is one, else dynamic if any is dynamic, with the line of the first import of that kind |
| DepGraph.StrongestReadsFlags | scripts/depgraph/model.ts:77-107 | the edge that stands for a pair is what the dynamic and type-only flags of its imports make of it |
| DepGraph.CollapseIgnoresOrder | scripts/depgraph/model.ts:88-110 | which pairs survive and with which kind does not depend on the order of the raw edges |
| DepGraph.CollapsedValueGraph | scripts/depgraph/model.ts:88-110 | collapsing keeps the value graph, minus files that import themselves |
| DepGraph.GateMakesCollapsedAcyclic | scripts/depgraph/model.ts:352-357 | edges that pass the value-cycle gate collapse to an acyclic graph with the same value edges |
| Searches.ReachableBeyondDirectEdge | scripts/depgraph/model.ts:159-176 | yes exactly when the target is reachable once the direct edge is deleted, or the source imports itself and the edge is another one |
| Searches.SelfImportLooksRedundant | scripts/depgraph/model.ts:159-176 | two edges on which the answer is yes although there is no other way |
| DepGraph.MarkTransitivelyReachableEdges | scripts/depgraph/model.ts:146-152 | every value edge gets its answer, every other edge keeps its mark |
| DepGraph.MarkIsRedundancy | scripts/depgraph/model.ts:129-152 | on collapsed edges the mark is reachability of the target without the direct edge |
| Reduction.UnmarkedReach | scripts/depgraph/model.ts:129-144 | on an acyclic graph, dropping all marked edges at once loses no reachability |
| Reduction.UnmarkedIsForced | scripts/depgraph/model.ts:129-144 | any part of the graph that keeps an unmarked edge's ends connected contains that edge |
| Reduction.TransitiveReduction | scripts/depgraph/model.ts:129-152 | the unmarked edges have the same reachability and are the least subset that does |
| DepGraph.MarksAreTheReduction | scripts/depgraph/model.ts:146-152 | the edges the report leaves unmarked are that reduction of the raw value imports |
| DepGraph.LevelWalk.Height | scripts/depgraph/model.ts:367-379 | terminates on every graph, always returns the length of some walk, and of a longest one on an acyclic graph |
| DepGraph.ComputeLevels | scripts/depgraph/model.ts:358-383 | every node gets a level; on an acyclic value graph each level is the longest value path from it |
| DepGraph.LevelsDecrease | scripts/depgraph/model.ts:352-357 | every value edge leads to a strictly lower level |
| CycleReport.CollectCycles | scripts/depgraph/model.ts:184-206 | reports of distinct file sets, each a cycle of the graph its kind names, covering every cyclic file of all three graphs; a value report exists exactly when the gate would reject; a type or dynamic report uses an import of that kind when no component of the stronger graph has cycles through different files, and otherwise unless a stronger report shares its component; under a total order of names the reports are exactly the cycles their run settles on whose files no earlier run settled on |
| CycleReport.ReportsAreDetermined | scripts/depgraph/model.ts:188-203 | deduplication by file set across the three runs keeps a cycle exactly when no earlier run settles on its files |
| CycleReport.SameKeySameComponent | scripts/depgraph/model.ts:208-212 | dropping a path whose file set is already listed loses no coverage |
| CycleReport.WeakCycleUsesWeakEdge | scripts/depgraph/model.ts:178-183 | once the stronger graph is acyclic, a weaker cycle really uses an edge the gate ignores |
| CycleLabels.LassoSettles | scripts/layering/model.ts:311-333 | a search whose first targets follow a simple path back into itself settles on that loop, whatever else the component holds |
| CycleLabels.ForcedLabelsAreEarned | scripts/depgraph/model.ts:178-203 | when every cycle of the stronger graph has its files forced upon an earlier run, each report of the weaker kind uses an import outside that graph |
| CycleLabels.UnearnedLabel | scripts/depgraph/model.ts:192-203 | otherwise the same three graphs have a listing of imports on which a cycle of the stronger graph comes back under the weaker label |
| CycleLabels.LabelsEarnedExactly | scripts/depgraph/model.ts:178-203 | for type and for dynamic: the labels are earned in every listing of the three graphs if and only if every cycle of the stronger graph has its files forced upon an earlier run |
| CycleLabels.TypeLabelsEarnedExactly | scripts/depgraph/model.ts:178-197 | type labels are earned in every listing with given value and static graphs if and only if all cycles of one component of the value graph run through the same files |
| CycleLabels.LabelWithoutItsKind | scripts/depgraph/model.ts:192-197 | five imports among three files on which a cycle of value imports alone comes back labelled type |
| Searches.Reachable | scripts/depgraph/affected.ts:42-54 | exactly the files reachable from the start, other than the start itself |
| Affected.ReverseReach | scripts/depgraph/affected.ts:65-72 | walking importers backwards meets exactly the files that reach the target forwards |
| Affected.CollectDependents | scripts/depgraph/affected.ts:71-77 | direct importers, all files with a value path to the target, and their difference, each sorted without repeats |
| Affected.DependentsPartition | scripts/depgraph/affected.ts:56-63 | without a self import the direct dependents are among all dependents, so the other two lists partition them |
| Affected.ClosureMemo.ClosureFor | scripts/depgraph/affected.ts:145-153 | a remembered closure is the one a fresh search would compute |
| Affected.CommandsReaching | scripts/depgraph/affected.ts:138-157 | exactly the chains whose entry reaches the file, as an unmemoised filter gives them, in the order of their command names |
| Affected.CollapsedExecutableGraph | scripts/depgraph/affected.ts:27-40 | on collapsed edges the executable graph consists of the pairs that some import other than a plain type import connects |
| Sequences.SortIsStable | scripts/depgraph/affected.ts:154-156 | sorting keeps the order of elements that rank the same, here the chains of one command |
| Packing.FirstSmallest | scripts/mutation/run.ts:206 | the first bin of smallest size |
| Packing.BinsStayBalanced | scripts/mutation/run.ts:205-209 | after every file any two bins differ by at most the largest file |
| Packing.BinsHoldEverything | scripts/mutation/run.ts:205-209 | the bins together hold exactly the total size |
| Packing.ListSchedulingBound | scripts/mutation/run.ts:205-209 | in any order greedy packing stays within 2 - 1/n of every other assignment |
| Packing.OverflowMeansSmall | scripts/mutation/run.ts:191-196 | largest first, a file that overflows the makespan of some other assignment is at most a third of it |
| Packing.LongestFirstBound | scripts/mutation/run.ts:191-210 | largest first stays within 4/3 - 1/(3n) of every other assignment (Graham) |
| Packing.LongestFirstBoundIsTight | scripts/mutation/run.ts:191-196 | for every number of bins, 2n+1 files meet the bound exactly |
| Sharding.ShardFiles | scripts/mutation/run.ts:197-211 | the loop over bins returns the slice the greedy assignment gives the shard; for some ranking of the files, largest first and by name among equals, in which each file goes to the first bin that is smallest when its turn comes, it is bin index minus one, sorted by name |
| Sharding.SlicesPartitionTheSources | scripts/mutation/run.ts:197-211 | the slices of all jobs together are the sources, each as often as listed |
| Sharding.SlowestJobBound | scripts/mutation/run.ts:191-211 | the total size of the files in any job's slice is within Graham's bound of any way of splitting the same sources |
| Scoring.MergeReports | scripts/mutation/score.ts:43-53 | the merged report holds exactly the mutants of all reports, file by file |
| Scoring.Hundredths | scripts/mutation/score.ts:55-57 | the percentage rounded half up, at most 100, nearest to the true ratio |
| Scoring.SummarizeReport | scripts/mutation/score.ts:63-103 | one row per requested module in order of first mention; killed and survived count the module's records by status, the score is the share of killed mutants to the nearest hundredth, and the survivors are listed as often as reported, by file, line and mutator |
| Scoring.SummaryIsTrue | scripts/mutation/score.ts:92-102 | the score sheet says what can be counted from the records alone |
| Scoring.BucketTallies | scripts/mutation/score.ts:30-35 | timeouts count as killed and uncovered mutants as survived, other statuses leave the denominator, and every survivor is listed once |
| Scoring.BucketSplit | scripts/mutation/score.ts:73-90 | a module's killed and survived counts and its survivors do not depend on where a mutant stands |
| Scoring.SummaryOfPermutation | scripts/mutation/score.ts:63-103 | a score sheet depends only on which mutants were reported |
| Scoring.ShardsHoldEverything | scripts/mutation/score.ts:36-43 | the shard reports of any split by file hold exactly the whole report's mutants |
| Scoring.ShardedScoresMatch | scripts/mutation/score.ts:36-53 | merged shard reports, in any order of arrival, score as the unsharded report |
| ShardedLane.SliceHoldsItsFiles | scripts/mutation/run.ts:197-211 | each source of a sliced module is in the slice of exactly one of its jobs |
| ShardedLane.MatrixTakesOnce | scripts/mutation/modules.ts:126-136 | every source of the selected modules is mutated by exactly one job of the matrix, and no other file by any |
| ShardedLane.MatrixInOrder | scripts/mutation/modules.ts:126-136 | the matrix lists the modules in registry order |
| ShardedLane.JobsInOrder | scripts/mutation/modules.ts:126-136 | a selected module contributes its jobs numbered from one, another none |
| ShardedLane.ScoreSweep | scripts/mutation/run.ts:365-385 | a whole sweep, modules with their own job counts, reports merged in any order of arrival, gets the score sheet of one unsharded run, and that sheet says what can be counted from the unsharded records |
| Ratchet.ApplyRun | scripts/mutation/ratchet.ts:172-208 | the loop computes the next baseline module by module |
| Ratchet.EvaluateRatchet | scripts/mutation/ratchet.ts:81-157 | every verdict is new, drifted, improved, held or regressed exactly as the two scores and the provenance say, with the measured figures, the entry's score and the difference; the run is comparable exactly when every module has an entry from the same tool and config, and fails exactly when gating and some module scored less |
| Ratchet.FailureIsEarned | scripts/mutation/ratchet.ts:138-157 | after any history a run fails exactly when the last required counting runs exist and were all stable and some module scores below its record under the same tool and config |
| Ratchet.StepRecords | scripts/mutation/ratchet.ts:166-193 | a measured module keeps its record unless the run matches it, beats it or drifted from it |
| Ratchet.RerunAgainstOwnBaseline | scripts/mutation/ratchet.ts:166-171 | judged against the baseline it produced, a regressed run is still regressed and every other run held |
| Ratchet.FailureRepeats | scripts/mutation/ratchet.ts:166-205 | a failed run fails again against the baseline it produced exactly when the gate stays on: for a counting run if no stable run is required, for another if the streak already suffices |
| Ratchet.FailsOnlyOnce | scripts/mutation/ratchet.ts:166-171 | a full sweep below the record fails, and the same sweep taken again passes |
| Ratchet.BaselineHoldsRecords | scripts/mutation/ratchet.ts:166-193 | after any history, with any changes of tool or config, each entry is the module's record of its current era, or absent if never measured |
| Ratchet.RecordIsUnique | scripts/mutation/ratchet.ts:166-171 | a module has only one such record |
| Ratchet.RecordIsHighWater | scripts/mutation/ratchet.ts:166-193 | under one tool and config the recorded score is the maximum ever measured |
| Ratchet.StableIsComparable | scripts/mutation/ratchet.ts:148-195 | a run is stable for the ratchet exactly when, by the history alone, every module had a record under the same tool and reached it |
| Ratchet.CounterIsStreak | scripts/mutation/ratchet.ts:195-204 | the counter is the trailing streak of stable runs among those that count toward graduation |
| Ratchet.GatingIsEarned | scripts/mutation/ratchet.ts:195-205 | the lane starts without a gate, and after any run gating holds exactly when the last required counting runs exist and were all stable |
| Levenshtein.ComputeLevenshtein | src/commands/command-explain.ts:353-367 | the rolling rows compute the edit-distance recurrence |
| Levenshtein.DistanceIsOptimal | src/commands/command-explain.ts:353-367 | some insert, delete and substitute script of that cost turns one text into the other, and none is cheaper |
| Levenshtein.Symmetric | src/commands/command-explain.ts:353-367 | the distance is symmetric |
| Levenshtein.ZeroMeansEqual | src/commands/command-explain.ts:353-367 | the distance is zero exactly for equal texts |
| Levenshtein.TriangleInequality | src/commands/command-explain.ts:353-367 | going through a third text is never shorter |
| Levenshtein.SuggestCommands | src/commands/command-explain.ts:239-253 | at most three distinct candidates, smaller distance first and by name among equal distances, that nothing left out comes before |
| AtspiDump.Context.TraverseNode | linux/atspi-dump.py:79-153 | the walk appends exactly the depth-limited preorder of the subtree, up to the node cap |
| AtspiCapture.Capture | linux/atspi-dump.py:199-229 | the dump is the first max_nodes entries of the uncapped walk, which lists exactly the accessibles covered, and is flagged truncated exactly when it fills the cap; a frontmost dump starts with the frontmost application, or is empty where there is none |
| AtspiAddresses.WalkListsTheTree | linux/atspi-dump.py:79-153 | without reference to the walk: its entries are exactly the accessibles within the depth limit below the applications looked at, in lexicographic order of their addresses, each with its accessible's role or unknown, name or else description, depth, application and parent entry |
| AtspiAddresses.FocusedIsFrontmost | linux/atspi-dump.py:156-184 | the application dumped is in the first slot with an active child or, where no slot has one, the first with children, and is missing when there is neither |
| AtspiDump.ExactFitCountsAsTruncated | linux/atspi-dump.py:225-228 | a walk that fits exactly fills the cap although nothing was cut |
| AtspiDump.FirstWhere | linux/atspi-dump.py:156-184 | the application found has the property and none before it does, or none at all does |
| AtspiDump.DumpIsLinked | linux/atspi-dump.py:116-135 | entry i has index i, its parent is earlier and one level up, app and title are inherited, no depth exceeds the limit, however the dump was cut |
| AtspiDump.TitleIsOutermostWindow | linux/atspi-dump.py:112-114 | every entry carries the label of its outermost labelled window ancestor-or-self, or none |
| AtspiRebuild.RebuildSubtree | linux/atspi-dump.py:120-151 | a subtree is read back from parent indices as one tree, whatever follows it in the list |
| AtspiRebuild.UncutDumpIsInvertible | linux/atspi-dump.py:199-229 | an uncut dump determines the captured forest, pruned at the depth limit, through parentIndex alone |
| ZeroDepJobs.ResolveRunEntries | scripts/layering/zero-dep-jobs.ts:71-93 | terminates on every script table and adds exactly the existing entries of the run block and of all scripts reachable through aliases outside the current chain |
| ZeroDepJobs.CollectsByCalls | scripts/layering/zero-dep-jobs.ts:63-70 | cutting only names on the current chain loses nothing: path-sensitive expansion equals reachability |
| ZeroDepJobs.JobEntries | scripts/layering/zero-dep-jobs.ts:139-146 | a job's entries are those reachable from any of its steps |
| ZeroDepJobs.WalkJobClosure | scripts/layering/zero-dep-jobs.ts:223-250 | visits exactly the files reachable over resolved relative imports and reports their package imports file by file |
| ZeroDepJobs.PackagesAreComplete | scripts/layering/zero-dep-jobs.ts:215-250 | a package import is reported exactly when a visited file makes it |
| ZeroDepJobs.PackagesOnce | scripts/layering/zero-dep-jobs.ts:215-250 | each package import is reported once for each time its file states it |
| ZeroDepJobs.ImportsInOrder | scripts/layering/zero-dep-jobs.ts:215-250 | within a file packages are reported in the order of its imports |
| ZeroDepJobs.FilesInOrder | scripts/layering/zero-dep-jobs.ts:223-250 | across files they are reported in visiting order |
| HunkHeader.NumberOfDecimal | scripts/coverage-changed/model.ts:99 | reading a printed number gives it back |
| HunkHeader.HeaderRoundTrip | scripts/coverage-changed/model.ts:97-100 | the pattern reads the new-side start of every header git prints, counts left out or not, whatever the section heading |
| HunkHeader.NewStartIsLeftmost | scripts/coverage-changed/model.ts:97-100 | on any line the number found is the one captured where the pattern, written out, occurs first, and none is found where it does not occur |
| UnifiedDiff.DiffSection.FoldDiffBodyLine | scripts/coverage-changed/model.ts:110-126 | one line changes the section as the fold function says |
| UnifiedDiff.ParseUnifiedDiff | scripts/coverage-changed/model.ts:128-150 | the loop computes the fold over the lines of the text, and on any text every report names a file and lists its lines in ascending order, each once |
| DiffPrinter.NumbersAreInsertedLines | scripts/coverage-changed/model.ts:107-109 | the numbers expected of a file ascend and are exactly the positions of inserted lines in the new text |
| DiffPrinter.FoldSegments | scripts/coverage-changed/model.ts:110-126 | the printed hunks of a text without `++` lines contribute exactly those numbers, removed lines none |
| GitPaths.LabelNamesFile | scripts/coverage-changed/model.ts:111-114 | a `+++` line gives the right path exactly when git need not quote it and it does not end in a blank |
| GitPaths.HeaderNamesFile | scripts/coverage-changed/model.ts:102-105 | the first line of a file's diff gives the right path exactly when git quotes neither path and the new one has no blank at either end, no leading `b/` and no inner ` b/` |
| DiffPatterns.HeaderIsSplit | scripts/coverage-changed/model.ts:102-105 | on any line the path is what follows the last mark the pattern can use, and a line it cannot split names nothing |
| DiffPatterns.NormalizedPath | scripts/coverage-changed/model.ts:38-48 | white space and line ends around a path go, backslashes turn, and one leading `b/` and then one leading `./` go |
| DiffPatterns.BodyIsNumbered | scripts/coverage-changed/model.ts:107-126 | a hunk body with any amount of context adds exactly its added lines, numbered by their place on the new side, and changes neither path nor deletion |
| DiffPrinter.DiffRoundTrip | scripts/coverage-changed/model.ts:128-150 | parsing the printed text of a multi-file edit gives every path, fate and inserted number exactly when no inserted line begins with `++`, every path on a `+++` line is unquoted and ends in no blank, and every file without its own `+++` line has a path the first line spells out |
| DiffPrinter.PlusPlusLineIsLost | scripts/coverage-changed/model.ts:118 | a one-line insertion that is lost |
| DiffPrinter.QuotedPathIsLost | scripts/coverage-changed/model.ts:111-114 | every one-line insertion into a file with an accent in its name is lost |
| DiffPrinter.FolderNamedBIsLost | scripts/coverage-changed/model.ts:45 | a chmod after which the file's folder is lost |
| TunnelProtocol.ClampRetryDelay | src/client/client-companion-tunnel-worker.ts:163-165 | the delay rounded up when it lies within the cap, zero when negative, the cap when above |
| TunnelProtocol.StepConsistent | src/client/client-companion-tunnel-worker.ts:490-554 | every event in every state keeps the worker's flags in agreement with what was observed |
| TunnelProtocol.RunConsistent | src/client/client-companion-tunnel-worker.ts:436-562 | so does every run |
| TunnelProtocol.RegistrationProtocol | src/client/client-companion-tunnel-worker.ts:453-554 | at most one registration live or leaving, at most one unregister per success, no request or wait while one is in flight, after shutdown or after a refusal for good; a shutdown leaves no registration live; leaving the loop means all successes were unregistered; only a hard exit after shutdown stops earlier |
| TunnelProtocol.BackoffSchedule | src/client/client-companion-tunnel-worker.ts:546-553 | every wait is the delay the server asked for with its last refusal, within the cap, and otherwise the base delay doubled once per own wait since the last success, up to the cap |
| TunnelProtocol.NeverGivesUp | src/client/client-companion-tunnel-worker.ts:490-554 | without a shutdown, a lost lease or a refusal for good reaching it the worker stays in its loop through every run |
| TunnelProtocol.LeavesForAReason | src/client/client-companion-tunnel-worker.ts:500-548 | a run in which the worker has left its loop contains an event that reached it and was one of those |
| TunnelProtocol.GrantIsServed | src/client/client-companion-tunnel-worker.ts:496-518 | in every run a registration granted with the state file in place and no shutdown is served: the bridge is opened, and until the socket fails, the bridge ends or a shutdown comes the worker keeps the registration and does nothing else |
| TunnelProtocol.UnregisterHasCause | src/client/client-companion-tunnel-worker.ts:453-475 | in every run a registration is given back exactly on a grant there is no more use or no socket for, on a shutdown while connected, and at the end of a connection no shutdown came before |
| TunnelProtocol.ShutdownIsPrompt | src/client/client-companion-tunnel-worker.ts:461-474 | in every run a shutdown can arrive at any suspension point, and the first one starts the unregister of a connected worker in the same stretch of code |
| TunnelProtocol.AfterConnection | src/client/client-companion-tunnel-worker.ts:519-553 | in every run, once the unregister of an ended connection has settled the loop goes on to its wait unless the state file is gone; after a failed socket it looks for the file twice |
| TunnelProtocol.KeepsRequesting | src/client/client-companion-tunnel-worker.ts:491-553 | without a reason to stop, whatever succeeds or fails, the worker starts another register request within six events |
| TunnelProtocol.AlwaysArrives | src/client/client-companion-tunnel-worker.ts:491-553 | as long as it carries on, some event that gives no reason to stop can reach it |
| TunnelProtocol.BackoffDoubles | src/client/client-companion-tunnel-worker.ts:167-169 | doubling with a cap at each step is doubling without one, capped at the end |
| TunnelProtocol.ScheduleIsMonotone | src/client/client-companion-tunnel-worker.ts:167-169 | after the first wait the schedule never decreases and never exceeds the cap |
| TunnelProtocol.WorkerDrains | src/client/client-companion-tunnel-worker.ts:461-554 | from any reachable state, once shutdown is requested or the state file is gone, the worker takes a bounded number of further events, waits for none exactly when it has left its loop, and has then unregistered everything |
| TunnelProtocol.WaitsUntilExited | src/client/client-companion-tunnel-worker.ts:490-554 | the worker is never stuck before the end of its loop |
| TunnelWorker.CompanionWorker.UnregisterActiveRegistration | src/client/client-companion-tunnel-worker.ts:453-460 | starts an unregister only when one is due and none is in flight |
| TunnelWorker.CompanionWorker.OnRegistered | src/client/client-companion-tunnel-worker.ts:496-509 | the stretch after a successful request is one protocol step |
| TunnelWorker.CompanionWorker.OnUnregisterAwaited | src/client/client-companion-tunnel-worker.ts:525-553 | so is the stretch after the awaited unregister, into the catch block, out of the loop or on to the wait |
| TunnelWorker.CompanionWorker.RequestShutdown | src/client/client-companion-tunnel-worker.ts:461-474 | a shutdown at any await point is one protocol step, and a second one does nothing |
| TunnelWorker.CompanionWorker.OnLeaseCheck | src/client/client-companion-tunnel-worker.ts:479-487 | an expired lease is a shutdown followed at once by the hard exit |

## Left out

- Import scanning, path resolution, zone ranks and policy tables: edges are inputs.
- File system, git, Stryker, AT-SPI and clock calls: sizes, trees, reports, sources and timestamps are inputs.
- `backEdge` and `typeInversion` of a graph edge, node and zone aggregation, LCOV parsing, the coverage gate and report rendering: single passes over their input.
- `localeCompare` and code-unit order are parameters, required only to be total preorders (a total order where the result depends on it); how the comparators combine them is modelled.
- Layering.LargestTypeCycleMembers: which of several largest components is kept is not fixed by the contract, because nothing in the gate depends on it.
- `cycleKey`: compared as the set of files it spells out.
- Scores are whole hundredths of a percent; binary floating point rounding is not modelled.
- `moduleForFile` and path normalisation in scoring: given as functions.
- Characters stand for UTF-16 code units, and in diff paths for Unicode scalar values; numbers beyond 2^53 in hunk headers do not lose precision here.
- git's `core.quotePath` is at its default, as the gate leaves it, and paths are Unicode text; the `rootDir` argument of `normalizePath` is not modelled.
- Run blocks are given as the paths and alias names they mention; the patterns that find them are not modelled.
- A node's value, rectangle, states and `hittable` flag in the tree dump: single reads that do not steer the walk. A child whose query fails is a missing child, and a failed child count is a node without children.
- `retryDelayFromResponse`: which hint of a response is read; the worker is proved for any delay `clampRetryDelay` can return.
- HTTP and WebSocket transport, upstream sockets, bridge messages and process signals of the tunnel worker: requests, sockets, the state file and the lease timer are events. Closing the bridge socket on shutdown has no effect of its own, since the socket may end at any time anyway. Where no unregister path is configured, the unregister events stand for the call that returns at once.
- TunnelProtocol.WorkerDrains: counts events, not time, because a request or a wait may take as long as its own timeout.
