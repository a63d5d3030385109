# Verified models of the repository's tooling algorithms

The build, release and documentation scripts under `scripts/` hold a number of real algorithms:
Tarjan's strongly connected components inside a layered topological sort, a heap-based scheduler, a
three-valued walk over recursive type declarations, a release protocol that must survive being
interrupted, index-level Markdown scanners, a worker pool, and several parsers and validators. This
project models those algorithms in Dafny and proves what they promise, for every input, every run or
every interleaving.

`dafny verify dfyconfig.toml` checks everything. Each file holds one component:

| file | component |
|---|---|
| `PackageGraph.dfy` | graphs of packages: walks, reachability, strongly connected components, sink cycles |
| `SinkCycles.dfy` | `sinkCycles`: Tarjan's algorithm over mutable index, low-link and stack state |
| `TopoSort.dfy`, `TopoOrder.dfy` | `topoSort`: the layered sort that emits a cycle as a block when nothing is ready; its order in terms of groups, names and chains of dependencies |
| `Partitions.dfy`, `PartitionBounds.dfy`, `PartitionPromises.dfy` | `assignWeightedPartitions` and `siftDown`; conservation, spread, Graham's bound; the promises in recorded durations |
| `TypePaths.dfy`, `TypeGuard.dfy`, `TypePrecision.dfy`, `TypeTermination.dfy` | `lookupPath`: what its answers mean; what its `seen` set changes; when they are exact; when it ends, and five small graphs |
| `PasteClosure.dfy` | the paste worklist of `collectConfigCatalog` |
| `Publication.dfy` | `RegistryPublication` |
| `ShellWords.dfy` | `quoteShellArgument`, `formatCopyableCommand` and a POSIX word splitter |
| `MarkdownDestinations.dfy`, `MarkdownProse.dfy` | `labelEnd`, `destinationRange`; `htmlCommentRanges`, `markdownProseLines` |
| `MarkdownSplice.dfy`, `SpliceOrder.dfy` | the replacement splice of `rewriteMarkdown`; for which ranges it is the simultaneous substitution |
| `RewrittenLinks.dfy` | `rewriteMarkdown` from the parsed tree to the spliced text |
| `WorkerPool.dfy` | `mapConcurrent` |
| `ReferenceFaces.dfy` | `collectProjectReferenceFaceViolations`, `projectFace`, `containingSplitRoot` |
| `GitFrames.dfy` | `readGitFiles` |
| `JsDocProse.dfy`, `JsDocText.dfy` | `parseJsDoc`: the state machine; margins, mode tags and layout as written |
| `SessionFormats.dfy` | `collectSessionFormatMigrations`, `renderSessionFormatCatalog` |
| `StableSort.dfy`, `Text.dfy` | `Array.prototype.sort`, `localeCompare`, white space, decimals, `join`, `indexOf`, counting |

## How the source is read

- Code that changes things step by step is imperative here too: Tarjan's traversal, the registry
  publication, the type walk with its shared `seen` set, the worker pool and the JSDoc gatherer are
  classes; the heap is an array sifted in place; the scanners and worklists are loops. Each method is
  proved equal to a specification function or against a declarative property, and the main results
  are lemmas about that function.
- A `throw` is a constructor of the result type. The messages' wording is not modelled, only which
  error it is and what it names.
- `Array.prototype.sort` is a stable insertion sort, which fixes its result on every comparison
  function. A listing of groups has no more than 2^53 - 1 entries, so that a position is never the rank
  of an unlisted group. `localeCompare` is a parameter that is a strict total order (`Locale.IsCollation`).
  `Map` and `Set` iteration visits the entries in an arbitrary order, so no result depends on it.
- Weights and durations are reals. A registry is a finite map of stored integrities and of
  dist-tags, each npm command one atomic call; a run that fails between calls is a run with a finite
  number of calls left, and a history is any number of such runs.
- TypeScript declarations, parsed Markdown nodes, JSON manifests and tsconfig files are given as
  data. `declForTypeName` and `resolveTypeName` are given as maps from a name used in a file.
- Bytes of a git object are one character each, so decoding is the identity.

## Promises and exact conditions

These promises hold under a condition. Each is proved as an if-and-only-if, but for whole walks of
`lookupPath` and whole trees of `rewriteMarkdown`, where the condition is sufficient and an input that
violates it and fails is given.

- `coverage-partitions.ts:295` promises every partition non-empty. With `m` partitions that holds
  exactly when there are at least `m` files and at least `m - 1` of them have non-negative weight
  (`AssignmentNoneEmptyIff`); the second half always holds for recorded durations, and
  `NegativeDurationsLeaveEmpty` shows it is needed as the code reads any number.
- Moving `latest` last: if the bundle's own dist-tag is `latest`, the tag of the entry package moves
  inside the package loop. `HistorySafe` proves safety whenever the entry package is then the last of
  the bundle, and `LatestMovesEarly` finds, for every other bundle, a stop that leaves `latest` on an
  incomplete release. `pack` always names the tag `dev-` and the base version
  (`publish-npm-baseline.ts:523`), so such a bundle reaches `publish` only through a manifest that
  `load` reads from disk.
- `lookupPath` compares a property's text as it is written (`gen-config-catalog.ts:338`), while the
  schema's key for a quoted property is its name without the quotes (line 439). A list of members is
  answered rightly exactly when some property has the name if and only if some property is written as
  it (`MemberListIff`): `interface C { 'a-b': number }` misses `a-b` (`QuotedIsMissed`). `found` and
  `missing` are sound over whole walks where no property that has, or is written as, one of the path's
  names is written otherwise (`Clear`; `FoundIsSound`, `MissingIsSound`).
- `destinationRange` returns exactly a bare destination with balanced parentheses if and only if no
  white space character (`/\s/`, so a no-break space too) stands in it outside parentheses and behind no
  backslash, and no odd run of backslashes ends it right before white space (`InlineRange`,
  `DefinitionRange`). CommonMark's bare destinations hold no ASCII space, but `a\` before a title loses
  its end (`BackslashHidesEnd`), and a no-break space is taken for one (`NoBreakSpaceEnds`).
- `markdownProseLines` keeps a line that no comment touches even when it is blank. `KeptIff` is the
  rule the code implements; `InkRuleHoldsIff` says on which lines it agrees with "some visible
  character outside every comment", and `BlankLineIsKept` is a line where it does not.
- Applying disjoint replacements from the highest start down is substituting them all at once, for all
  values and all discovery orders, exactly when no two start together (`DistinctStartsIff`). What
  `rewriteMarkdown` collects meets the condition whenever the label scanner ends no label before the
  last of its children: the destinations of nodes side by side, and of a link and the nodes in its
  label, are then disjoint and start apart (`DestinationsApart`), and its result is the substitution
  (`RewriteSubstitutes`). Around a code span that holds `](` the scanner can end too early, and a link's
  destination then covers that of an image in its label (`CodeSpanMisleads`).
- A copyable command splits back exactly when the command itself does not print bare as an assignment
  or a reserved word (`CommandSplitsBack`); its arguments always do.
- `mapConcurrent` returns every result exactly when there are jobs or there is nothing to do
  (`CompleteIff`). Its caller passes a positive number of jobs, which `parsePositiveIntegerOption`
  checks.

About `lookupPath`, four observations beside its soundness:

- It ends wherever declarations can be ranked so that every reference ranks no higher than the
  declaration it stands in, and lower inside an indexed access, and `seen` then grows by no more than
  the number of declarations times one more than the longest path it can come to (`Terminates`);
  without indexed access that is always so (`PlainTerminates`). The condition is sufficient. Where no
  ranking exists it may run for ever: `interface A { x: A['x']['x'] }` has none (`LoopingHasNoRank`)
  and no depth of recursion suffices (`IndexedAccessDiverges`).
- Where the walk without its guard meets no declaration twice with the same number of steps to go, the
  answers are exact: `found` if the path is there in every reading of what the walk cannot see through,
  `missing` if it is there in none, and `unknown` only if it is there in some and not in others
  (`LookupIsPrecise`).
- The shared `seen` set only ever turns an answer into `unknown` (`GuardOnlyDegrades`), and it changes
  nothing when the walk without it meets no declaration twice with the same number of steps to go
  (`GuardChangesNothing`). It can hide a miss without recursion: `DiamondHidesMiss` is a base reached
  over two interfaces.
- A value of a recursive union may take another branch at each depth, so a path can be there in one
  value and not in another; the walk then says `unknown` (`RecursiveUnionIsUnknown`).

## Model

| member | source | states |
|---|---|---|
| PackageGraph.SinkCycleExists | scripts/package-graph.ts:76-80 | in a finite graph where every package of a non-empty set waits on another of the set there is a strongly connected component with a cycle and no edge out of it |
| SinkCycles.Traversal.Visit | scripts/package-graph.ts:102-133 | one recursive `visit` call keeps Tarjan's invariant (shape of the stack, settled components closed and exactly the emitted ones, every stacked package reaches an active call at or below its index) and hands its caller a low-link that is the index of a stacked package it reaches |
| SinkCycles.Traversal.VisitDependency | scripts/package-graph.ts:109-118 | handling the next dependency, by recursion, by the target's index or not at all, keeps the invariant of the partly explored package; `requiredValue` never misses |
| SinkCycles.Traversal.EmitComponent | scripts/package-graph.ts:119-132 | popping down to `pkg` moves exactly the stack above the entry's into one new component, without either "lost its active component" throw |
| SinkCycles.KeepVisited | scripts/package-graph.ts:119-119 | returning with a low-link below the own index leaves the package stacked and the caller's invariant intact |
| SinkCycles.UpperIsScc | scripts/package-graph.ts:119-132 | when low-link and index agree, the stack above the entry's is one whole strongly connected component |
| SinkCycles.PopVisited | scripts/package-graph.ts:120-132 | emitting that component re-establishes the invariant for the caller |
| SinkCycles.AllComponents | scripts/package-graph.ts:135-137 | after the outer loop every strongly connected component of the graph has been emitted |
| SinkCycles.FilterIsSinkCycle | scripts/package-graph.ts:138-143 | the final filter keeps a component exactly when it contains a cycle and no edge leaves it inside the remaining graph |
| SinkCycles.FindSinkCycles | scripts/package-graph.ts:94-144 | returns exactly the strongly connected components that contain a cycle and have no edge to another remaining package, each once, pairwise disjoint |
| PackageGraph.SccsDisjoint | scripts/package-graph.ts:135-143 | two strongly connected components that share a package are equal |
| TopoSort.CompareTransitive | scripts/package-graph.ts:152-158 | `comparePackages` is transitive: group rank, then group name, then package name |
| TopoSort.AscendingUnique | scripts/package-graph.ts:152-158 | there is only one ascending listing of a set of packages, so a sorted block does not depend on listing order |
| TopoSort.StuckHasCycle | scripts/package-graph.ts:76-80 | when no remaining package is ready, some sink cycle exists among the remaining ones |
| TopoSort.FirstComponent | scripts/package-graph.ts:77-80 | the sorted list of sink cycles is then non-empty and its first element is the block around the least package lying on any sink cycle, sorted |
| TopoSort.ReadyPackages | scripts/package-graph.ts:73-75 | filter and sort give the packages all of whose dependencies are placed, in ascending order |
| TopoSort.FirstMissingPeer | scripts/package-graph.ts:62-68 | reports a missing peer exactly when some package depends on a name that is not listed, and names the first such pair in listing order |
| TopoSort.NextPackages | scripts/package-graph.ts:73-82 | one round's block is the specified one, from the ready packages or from `sinkCycles` |
| TopoSort.TopoSort | scripts/package-graph.ts:60-90 | terminates; fails exactly on a missing peer; the "could not order" throw is unreachable; otherwise returns the ordering the next five rows are about |
| TopoSort.LayersPermutation | scripts/package-graph.ts:69-89 | the layers place each remaining package exactly once |
| TopoSort.LayersKeepCycles | scripts/package-graph.ts:76-87 | every cyclic strongly connected component comes out as one contiguous, sorted block |
| TopoSort.OrderingPermutes | scripts/package-graph.ts:60-90 | for distinct names the result is a permutation of the input |
| TopoSort.OrderingDepsFirst | scripts/package-graph.ts:60-90 | each dependency stands before its dependent, unless both lie in one strongly connected component |
| TopoSort.OrderingIgnoresListing | scripts/package-graph.ts:60-90 | two listings of the same packages are ordered alike |
| TopoOrder.BeforeIff | scripts/package-graph.ts:152-158 | `comparePackages` puts listed groups first, by their first positions in `groupOrder`, then unlisted groups by name, and packages of one group by short name |
| TopoOrder.OrderingIff | scripts/package-graph.ts:72-88 | the result is the one list made of rounds: each places all packages whose dependencies are placed, or if there are none the cycle that holds the first package on any closed cycle, always in that order |
| TopoOrder.OrderingByDepth | scripts/package-graph.ts:72-88 | packages whose dependencies run into no cycle come before all others, in layers by their longest chain of dependencies, and in one layer in the order of groups and names |
| TopoOrder.LeavesInOrder | scripts/package-graph.ts:73-75 | of two packages without dependencies the one of the earlier listed group, then of the smaller name, comes first |
| TopoOrder.OrderingKeepsCycles | scripts/package-graph.ts:76-82 | every cyclic component stands together, inside in the order of groups and names |
| StableSort.SortOrders | scripts/package-graph.ts:75-75 | sorting by a total preorder yields an ordered sequence |
| StableSort.SortPermutes | scripts/package-graph.ts:75-75 | sorting permutes |
| Partitions.RootIsLeast | scripts/coverage-partitions.ts:307-314 | in a heap-ordered array holding every bucket index, the root's bucket is least by (sum, file count) |
| Partitions.SiftStep | scripts/coverage-partitions.ts:330-351 | one round either finds heap order restored or, after the swap, heap order everywhere but below the child |
| Partitions.SiftDown | scripts/coverage-partitions.ts:325-352 | restores heap order after one bucket grew and permutes the heap |
| Partitions.WeightedDescends | scripts/coverage-partitions.ts:303-305 | the scheduled order is a permutation of the files by descending weight |
| Partitions.PlaceFile | scripts/coverage-partitions.ts:310-318 | one round gives the next file to a least bucket, and heap and buckets stay in step |
| Partitions.AssignWeightedPartitions | scripts/coverage-partitions.ts:297-320 | refines the greedy rule "next heaviest file to a least bucket"; the heap bound error happens exactly for files without partitions, the missing bucket never |
| PartitionPromises.AssignmentConserves | scripts/coverage-partitions.ts:297-320 | there are `m` lists and together they rearrange the input files |
| PartitionBounds.GreedySpread | scripts/coverage-partitions.ts:310-318 | while placing, two buckets never differ by more than the largest weight |
| PartitionPromises.AssignmentSpread | scripts/coverage-partitions.ts:297-320 | the recorded times of two partitions, a file without a record taking one unit, differ by at most the largest |
| PartitionBounds.NoneEmptyIff | scripts/coverage-partitions.ts:295-320 | no bucket is empty exactly when there are `m` files and `m - 1` of non-negative weight |
| PartitionPromises.AssignmentNoneEmptyIff | scripts/coverage-partitions.ts:295-320 | the same for the returned lists and recorded durations; where none is negative, exactly when there are at least `m` files |
| PartitionPromises.NegativeDurationsLeaveEmpty | scripts/coverage-partitions.ts:295-320 | three files of negative weight leave one of three partitions empty |
| PartitionBounds.LightFile | scripts/coverage-partitions.ts:310-318 | a file of at most a third of the optimum ends in a bucket within Graham's bound |
| PartitionBounds.HeavyFile | scripts/coverage-partitions.ts:310-318 | a file of more than a third of the optimum ends in a bucket within the optimum: no bucket of any assignment holds three such files |
| PartitionPromises.AssignmentWithinGraham | scripts/coverage-partitions.ts:297-351 | against every other assignment of the same files to `m` partitions the longest partition takes at most 4/3 - 1/(3m) times as long, in recorded durations and one unit for a file without one |
| PartitionPromises.AssignmentInTurn | scripts/coverage-partitions.ts:303-305 | inside each partition longer files come first, and files of equal time in the order of their names |
| TypePaths.FoundIsSound | scripts/gen-config-catalog.ts:317-403 | where the path's names are written as they are named, `found` means the path exists under every reading of what the walk cannot see through, whatever `seen` holds |
| TypePaths.MissingIsSound | scripts/gen-config-catalog.ts:317-403 | where the path's names are written as they are named, `missing` means the path exists under no reading, whatever `seen` holds |
| TypePaths.MemberListIff | scripts/gen-config-catalog.ts:335-343 | one list of members is answered rightly exactly when a property has the name if and only if one is written as it; wrongly missing exactly when one has it and none is written as it |
| TypeTermination.QuotedIsMissed | scripts/gen-config-catalog.ts:338-338 | the quoted property `'a-b'` is reported missing although the path `a-b` is there in every reading |
| TypeGuard.GuardOnlyDegrades | scripts/gen-config-catalog.ts:322-326 | whatever the shared `seen` holds, the walk answers as it would without the guard, or `unknown` instead |
| TypeGuard.GuardChangesNothing | scripts/gen-config-catalog.ts:322-326 | if the walk without the guard meets no (declaration, step count) twice and none that `seen` holds, the answer is the same and `seen` grows by exactly those met |
| TypePrecision.LookupIsPrecise | scripts/gen-config-catalog.ts:317-403 | where the walk without its guard meets no (declaration, step count) twice, `found` is answered exactly if the path is there in every reading and `missing` exactly if it is there in none |
| TypePaths.MoreFuel | scripts/gen-config-catalog.ts:317-403 | an answer reached in some depth of recursion is the answer in every greater depth |
| TypeTermination.Terminates | scripts/gen-config-catalog.ts:317-403 | in a world where ranks of declarations fall through every indexed access and rise nowhere, the walk ends from every `seen` set, which grows by at most the number of declarations times one more than `most`: the path's length plus the nesting of indexed accesses for each rank up to the declaration's |
| TypeTermination.SomeDepth | scripts/gen-config-catalog.ts:381-385 | indexed accesses nest to some finite depth in every world, so the bound above always exists |
| TypeTermination.PlainTerminates | scripts/gen-config-catalog.ts:322-326 | without indexed access the walk ends from every node and every `seen` set, which grows by at most the number of declarations times one more than the path's length |
| TypeTermination.LoopingHasNoRank | scripts/gen-config-catalog.ts:381-385 | the self-indexing interface has no such ranking |
| TypeTermination.IndexedAccessDiverges | scripts/gen-config-catalog.ts:381-385 | on the self-indexing interface no depth of recursion suffices |
| TypeTermination.RecursiveUnionIsUnknown | scripts/gen-config-catalog.ts:370-376 | of a union of `{ next: T }` and `{ x: number }` named `T` some values have `next.x` and some do not, and the walk says unknown |
| TypeTermination.DiamondHidesMiss | scripts/gen-config-catalog.ts:322-326 | a base reached over two interfaces makes an absent member `unknown` |
| TypePaths.Walk.LookupPath | scripts/gen-config-catalog.ts:317-403 | the walk over the shared mutable `seen` computes the specified answer and leaves the specified set |
| TypePaths.Walk.VisitProp | scripts/gen-config-catalog.ts:335-343 | a matching property answers for the rest of the path |
| TypePaths.Walk.VisitInterface | scripts/gen-config-catalog.ts:344-360 | own members first, then the combined answers of the bases in order |
| TypePaths.Walk.VisitTargets | scripts/gen-config-catalog.ts:348-358 | several branches are walked in order over one `seen` set |
| TypePaths.Walk.VisitType | scripts/gen-config-catalog.ts:361-402 | one type node, by its kind |
| PasteClosure.RoundKeeps | scripts/gen-config-catalog.ts:671-715 | one round keeps the tables backed by real uses, every handled mention settled and everything it leads to handled or queued |
| PasteClosure.RoundProgress | scripts/gen-config-catalog.ts:671-715 | one round pastes a new name or shortens the queue, so the worklist ends |
| PasteClosure.HandleItem | scripts/gen-config-catalog.ts:672-714 | one queue item takes the branch the specification takes, collisions included |
| PasteClosure.PasteWorklist | scripts/gen-config-catalog.ts:674-718 | terminates; reports nothing exactly when every name of the closure resolves, to one thing wherever it is used; then each pasted name has one paste, in the order of first mentions; and whatever it reports is so in the closure |
| PasteClosure.RoundOrders | scripts/gen-config-catalog.ts:703-716 | one round keeps the pastes in the order in which their names are first mentioned |
| PasteClosure.ConfigTypeComesFirst | scripts/gen-config-catalog.ts:707-707 | the first paste is the config type's own declaration, there is one for each pasted name, and every later one is mentioned by an earlier one |
| PasteClosure.PastedNamesAreSettled | scripts/gen-config-catalog.ts:669-715 | after a silent run each non-global name in a pasted declaration is pasted or referenced, never both, and resolves to that from every file of the closure |
| Publication.HistorySafe | scripts/publish-npm-baseline.ts:625-654 | over every history of stopped runs no stored integrity is replaced, nothing outside the bundle changes, and `latest` names the version only when the whole bundle is in place, provided `latest` moves last |
| Publication.LatestMovesEarly | scripts/publish-npm-baseline.ts:633-651 | for every bundle where `latest` does not move last, one stopped run breaks that |
| Publication.OneKeeps | scripts/publish-npm-baseline.ts:630-650 | one package's step only adds its own version and tag, at whatever call it stops, and completes only with both in place |
| Publication.CompletesIff | scripts/publish-npm-baseline.ts:625-654 | after any history, a run with calls enough completes exactly when no version was stored with another integrity and the entry package is in the bundle or stored |
| Publication.FinalUnique | scripts/publish-npm-baseline.ts:625-654 | at most one registry is final and reachable by the bundle's additions |
| Publication.CompletedHistoriesAgree | scripts/publish-npm-baseline.ts:625-654 | two runs that complete, after any two histories, leave the same registry |
| Publication.VerifyAcceptsIff | scripts/publish-npm-baseline.ts:656-698 | `verify` accepts exactly the final registries |
| Publication.RerunReadsOnly | scripts/publish-npm-baseline.ts:628-653 | publishing what is already published writes nothing: two reads a package and one for `latest`, and as many to verify |
| Publication.RegistryPublication.PublishPackage | scripts/publish-npm-baseline.ts:630-650 | one round of the publishing loop takes the specified calls |
| Publication.RegistryPublication.RemoteTag | scripts/publish-npm-baseline.ts:744-753 | listing the tags of a package the registry lacks ends the run |
| Publication.RegistryPublication.EnsureTag | scripts/publish-npm-baseline.ts:755-764 | the tag is read, and added only when it does not name the version yet |
| Publication.RegistryPublication.RunPublish | scripts/publish-npm-baseline.ts:625-654 | the whole run is the specified sequence of calls |
| Publication.RegistryPublication.RunVerify | scripts/publish-npm-baseline.ts:656-698 | verification is the specified sequence of calls and changes nothing |
| ShellWords.QuoteLexes | scripts/publish-npm-baseline.ts:998-1003 | a quoted argument is read back as one word with its text, single quotes included |
| ShellWords.LineLexes | scripts/publish-npm-baseline.ts:994-996 | a printed line lexes to exactly the printed words |
| ShellWords.CommandSplitsBack | scripts/publish-npm-baseline.ts:994-1003 | the line splits back into the command and its arguments, for all strings, exactly when the command is not printed bare as an assignment or a reserved word |
| ShellWords.ArgumentsSplitBack | scripts/publish-npm-baseline.ts:994-1003 | all words come back, even behind a command that does not |
| ShellWords.PrintsApart | scripts/publish-npm-baseline.ts:994-1003 | two different commands never print alike |
| ShellWords.PrintsBareIff | scripts/publish-npm-baseline.ts:998-1001 | a text is printed as it is exactly when it is not empty and has only letters, digits and a few marks no shell reads otherwise |
| ShellWords.AssignmentIsLost | scripts/publish-npm-baseline.ts:998-999 | the command `a=b` does not come back |
| MarkdownDestinations.RangeInside | scripts/markdown.ts:106-140 | every range returned lies inside the node text |
| MarkdownDestinations.LabelFound | scripts/markdown.ts:90-104 | the label of every balanced, escaped text ends where it was printed to end |
| MarkdownDestinations.InlineRange | scripts/markdown.ts:106-140 | for every label with balanced brackets and every bare destination with balanced parentheses, the range is exactly the destination if and only if it holds no `/\s/` character outside parentheses and backslash pairs and ends in no odd run of backslashes before white space |
| MarkdownDestinations.BackslashHidesEnd | scripts/markdown.ts:130-137 | behind a literal backslash the blank before the title is skipped and the title is taken in |
| MarkdownDestinations.NoBreakSpaceEnds | scripts/markdown.ts:135-137 | a no-break space ends the destination it is part of |
| MarkdownDestinations.InlineAngleRange | scripts/markdown.ts:120-126 | for every angle-bracket destination with escapes the range is exactly the text between the brackets |
| MarkdownDestinations.DefinitionRange | scripts/markdown.ts:110-113 | the same if-and-only-if for the bare destination of a link definition |
| MarkdownDestinations.SkipWhitespace | scripts/markdown.ts:84-88 | the loop stops at the first character that is not white space |
| MarkdownDestinations.FindLabelEnd | scripts/markdown.ts:90-104 | the label loop computes the specified scan |
| MarkdownDestinations.FindAngleEnd | scripts/markdown.ts:121-125 | the angle loop computes the specified scan |
| MarkdownDestinations.FindBareEnd | scripts/markdown.ts:127-139 | the bare loop computes the specified scan |
| MarkdownDestinations.FindDestination | scripts/markdown.ts:106-140 | the whole function, its four errors included |
| MarkdownProse.ClippedRanges | scripts/markdown.ts:218-234 | the columns a line's clipped ranges cover are exactly its offsets inside comments, overlapping and spanning ones included; there is a range exactly when a comment touches the line |
| MarkdownProse.SweepSees | scripts/markdown.ts:240-247 | over ranges in start order the cursor sweep sees a visible character exactly when one lies in no range |
| MarkdownProse.KeptIff | scripts/markdown.ts:218-248 | a line is kept exactly when no comment touches it or some visible character of it lies outside all comments |
| MarkdownProse.InkRuleHoldsIff | scripts/markdown.ts:239-247 | "kept exactly when visible text remains" holds exactly for lines that a comment touches or that have visible text |
| MarkdownProse.BlankLineIsKept | scripts/markdown.ts:239-239 | a blank line without comments is kept |
| MarkdownProse.RangesOfLine | scripts/markdown.ts:221-231 | the clipping loop computes the specified ranges |
| MarkdownProse.HasRenderedText | scripts/markdown.ts:238-248 | the sweep loop decides the specified predicate |
| MarkdownProse.MarkdownProseLines | scripts/markdown.ts:255-271 | the lines kept, with their 1-based numbers, in order |
| MarkdownProse.ProseLineIff | scripts/markdown.ts:255-271 | a line is returned exactly when it is unfenced and not commented away |
| MarkdownProse.OffsetStartsLine | scripts/markdown.ts:218-231 | the running offset is where the line starts in the source that was split at its line breaks |
| MarkdownProse.ProseIsKept | scripts/markdown.ts:255-271 | the kept lines are, each once and in order, those of which a reader may see something: unfenced, and not covered anywhere or with visible text outside all comments |
| MarkdownSplice.SpliceIsSubstitution | scripts/project-doc-site.ts:188-192 | for disjoint replacements that start apart the descending splice is the simultaneous substitution |
| SpliceOrder.DistinctStartsIff | scripts/project-doc-site.ts:188-192 | for disjoint ranges, empty ones anywhere included: starts are distinct exactly when splice equals substitution for all values and all discovery orders, and exactly when the discovery order never shows |
| SpliceOrder.SameStartOverwrites | scripts/project-doc-site.ts:189-191 | for every text and every disjoint ranges of which two start together there are values for which two discovery orders differ and the splice is not the substitution |
| SpliceOrder.ApartIsOrderFree | scripts/project-doc-site.ts:188-192 | disjoint replacements that start apart give one text in any order |
| MarkdownSplice.SpliceKeepsOutside | scripts/project-doc-site.ts:188-192 | for any values, the spliced text consists of the characters outside every range, unchanged and in order, and of the values in the order of their ranges |
| RewrittenLinks.BehindLabel | scripts/markdown.ts:106-140 | a destination starts at least two characters behind the end of its label |
| RewrittenLinks.DestinationsApart | scripts/project-doc-site.ts:156-186 | the replacements collected from a tree are disjoint, start apart, and stay inside it, where no label is found to end before the last of its children |
| RewrittenLinks.RewriteSubstitutes | scripts/project-doc-site.ts:150-193 | for every such tree the result is the simultaneous substitution, in whatever order the destinations are collected |
| RewrittenLinks.CodeSpanMisleads | scripts/markdown.ts:90-104 | a code span in a label ends the label too early, and the link's range covers its image's, whatever the new destinations are |
| RewrittenLinks.VisitCollects | scripts/project-doc-site.ts:156-186 | exactly one replacement is collected for each link, image or definition with a new destination, at its destination's range, in the order of the nodes; or the first of them whose destination is not found is reported |
| RewrittenLinks.Rewriter.RewriteNode | scripts/project-doc-site.ts:172-177 | one node's destination is located and pushed, or the scanner's error ends the rewrite |
| RewrittenLinks.Rewriter.VisitNode | scripts/project-doc-site.ts:180-185 | the traversal collects a node's replacement and then its children's, in order |
| RewrittenLinks.RewriteMarkdown | scripts/project-doc-site.ts:150-193 | for every tree a parser gives the whole function replaces the destination of every link, image or definition with a new one, by the splice, which is the simultaneous substitution where labels hold their children; or it ends with the first destination that is not found |
| MarkdownSplice.RewriteSplice | scripts/project-doc-site.ts:188-192 | the loop computes the specified splice |
| WorkerPool.EveryState | scripts/benchmark-next-package-dependency.ts:182-199 | in every state of every interleaving the indices taken are 0, 1, 2, ... each once, each taken index is in flight at one worker or holds its own result, and at most min(jobs, n) are in flight |
| WorkerPool.CompleteIff | scripts/benchmark-next-package-dependency.ts:189-198 | when all workers have returned, `results[i]` is the result for `values[i]` for all `i`, exactly when there are jobs or there is nothing to do |
| WorkerPool.RunIsBounded | scripts/benchmark-next-package-dependency.ts:190-196 | every interleaving ends: each move takes an index or ends a worker |
| WorkerPool.Pool.Resume | scripts/benchmark-next-package-dependency.ts:189-196 | a worker's code between two suspensions (storing a result, the loop test, taking the next index) is one uninterrupted step of the state machine |
| WorkerPool.MapConcurrent | scripts/benchmark-next-package-dependency.ts:182-199 | under an arbitrary schedule it returns each value's own result at its own index |
| ReferenceFaces.FaceIsNearest | scripts/project-reference-faces.ts:88-103 | `projectFace` finds the face of the nearest config of the `extends` chain that names one, and none exactly when there is none, cyclic chains included |
| ReferenceFaces.FaceIff | scripts/project-reference-faces.ts:88-103 | a config's face is Host exactly when the nearest config of its chain that tells one is named `tsconfig.host.json` or is the root's `tsconfig.base.json`, and Client likewise |
| ReferenceFaces.FitsIff | scripts/project-reference-faces.ts:40-55 | a reference passes exactly when, if it enters a split project, it names the leaf of the referring config's face in the innermost one |
| ReferenceFaces.SplitRootsLongestFirst | scripts/project-reference-faces.ts:65-71 | the split roots come sorted by the length of their paths, longest first |
| ReferenceFaces.InnermostSplitRoot | scripts/project-reference-faces.ts:70-121 | over roots sorted longest first, the first containing root is the innermost |
| ReferenceFaces.CheckReferences | scripts/project-reference-faces.ts:40-59 | one config's references are queued or reported, each by whether it fits |
| ReferenceFaces.SilentSeesAll | scripts/project-reference-faces.ts:33-60 | a traversal without violations has visited every reachable config, although mismatched edges are not followed |
| ReferenceFaces.CollectViolations | scripts/project-reference-faces.ts:30-63 | terminates; reports exactly the mismatched references of the configs reached over fitting ones; reports none exactly when every reference reachable from the aggregates fits, stated by names and directories where split roots come longest first |
| GitFrames.ParsesDecimal | scripts/benchmark-npm-resolution.ts:159-159 | `parseInt` reads a printed size back |
| GitFrames.FrameReads | scripts/benchmark-npm-resolution.ts:154-167 | a printed frame anywhere in the output is read back as its exact bytes, newlines and header-like text included |
| GitFrames.MissingReads | scripts/benchmark-npm-resolution.ts:157-158 | a missing object's line is refused as such |
| GitFrames.AcceptedIsFramed | scripts/benchmark-npm-resolution.ts:154-167 | whatever is accepted stands between a header line announcing its length and a newline; no offset leaves the buffer |
| GitFrames.AcceptedIff | scripts/benchmark-npm-resolution.ts:154-167 | a frame is accepted exactly when it is framed so, its header does not end in ` missing`, and the length is a safe integer |
| GitFrames.ReadsBack | scripts/benchmark-npm-resolution.ts:145-169 | reading the frames printed for distinct paths returns each path's bytes, exactly those paths, and consumes the output |
| GitFrames.ReadOne | scripts/benchmark-npm-resolution.ts:155-167 | one round, its four errors included |
| GitFrames.ReadGitFiles | scripts/benchmark-npm-resolution.ts:145-169 | the loop reads the frames one after the other and stops at the first error |
| JsDocProse.ItemsCutTheChunk | scripts/jsdoc.ts:67-76 | paragraph and list items cut a chunk of lines exactly at its bullet lines, nothing lost or moved |
| JsDocProse.OneLineKeepsWords | scripts/jsdoc.ts:45-45 | collapsing and trimming joined lines keeps their words |
| JsDocProse.BlocksKeepWords | scripts/jsdoc.ts:45-76 | the blocks of any lines have exactly the lines' words, in order |
| JsDocProse.ProseKeepsWords | scripts/jsdoc.ts:32-79 | the rendered prose of a comment has exactly the words of the lines before its first block tag, each once and in order |
| JsDocProse.Gatherer.OneIsPending | scripts/jsdoc.ts:42-76 | a pending paragraph and a pending list are never both non-empty |
| JsDocProse.Gatherer.FlushPara | scripts/jsdoc.ts:46-59 | ends a chunk: its paragraph and its list become the last blocks |
| JsDocProse.Gatherer.StartItem | scripts/jsdoc.ts:67-74 | a bullet line ends the paragraph or the item before it |
| JsDocProse.Gatherer.Continue | scripts/jsdoc.ts:75-76 | any other line continues the item or the paragraph |
| JsDocProse.Gatherer.TakeLine | scripts/jsdoc.ts:66-76 | one line of prose moves the state machine along the grouping of the lines |
| JsDocProse.ParseJsDoc | scripts/jsdoc.ts:32-81 | the state machine renders the grouped prose, keeps its words, and reports the last valid mode and whether any mode tag was present |
| JsDocText.CommentReadsBack | scripts/jsdoc.ts:33-37 | the lines between the delimiters are read as written, each stripped of its margin |
| JsDocText.StarredLine | scripts/jsdoc.ts:37-37 | of a line with a star exactly the text behind star and blank is kept |
| JsDocText.PlainLine | scripts/jsdoc.ts:37-37 | a line without a star loses its indentation and trailing white space only |
| JsDocText.ItemIff | scripts/jsdoc.ts:68-68 | a line starts a list item exactly when it is a dash, white space and a text |
| JsDocText.ModeTagIff | scripts/jsdoc.ts:64-64 | a line is a mode tag exactly when it is `@mode`, not continued by a letter, digit or underscore |
| JsDocText.BlankIff | scripts/jsdoc.ts:67-67 | the lines that end a chunk are exactly those without a word |
| JsDocText.ModeOfIff | scripts/jsdoc.ts:62-63 | a line sets a mode exactly when it is `@mode`, white space, the mode's name, and nothing but white space |
| JsDocText.LastModeIff | scripts/jsdoc.ts:63-63 | the mode reported is that of the last line that sets one |
| JsDocText.OneLineIs | scripts/jsdoc.ts:45-45 | a paragraph or list item is its words, one blank apart |
| JsDocText.ChunkIsLaidOut | scripts/jsdoc.ts:46-59 | a chunk becomes its paragraph on one line and its list with each item on its own line |
| SessionFormats.Declare | scripts/gen-session-format-catalog.ts:68-104 | an accepted manifest is an adjacent pair of versions, named alike by metadata, package and directory, without unknown members |
| SessionFormats.DeclareIff | scripts/gen-session-format-catalog.ts:63-104 | a manifest is accepted as a declaration exactly when it declares it: both versions, package name, directory, import path and each identifier under the metadata member of its name |
| SessionFormats.CountsMeanNumbered | scripts/gen-session-format-catalog.ts:106-116 | on the sorted versions the count check, the bound check and the length check together say exactly that they are 0, 1, 2, ... up to the current one |
| SessionFormats.AcceptedIffChain | scripts/gen-session-format-catalog.ts:63-149 | an inventory is accepted exactly when its declarations, each once, form a complete chain that codecs, package dependencies and the catalog agree with, and that chain is what comes back |
| SessionFormats.RenderedChainFits | scripts/gen-session-format-catalog.ts:157-195 | migration `i` runs from codec `i` to codec `i + 1`, the encoder is the last codec |
| SessionFormats.UsedAreImported | scripts/gen-session-format-catalog.ts:161-195 | every identifier the catalog uses is imported from the package that declares it |
| SessionFormats.ImportsAreUses | scripts/gen-session-format-catalog.ts:161-195 | the identifiers imported from migration packages are exactly those used |
| SessionFormats.CheckInventory | scripts/gen-session-format-catalog.ts:107-147 | the checks in their order, the first failure winning |
| SessionFormats.CollectSessionFormatMigrations | scripts/gen-session-format-catalog.ts:63-149 | the loops compute the specified result, and with it acceptance exactly of complete chains |

## Left out

- Process spawning, HTTP, clocks, timeouts and signals, and the wording of messages and console output.
- The parsers of TypeScript, Markdown, YAML, TOML and JSON, and path resolution: their results are given as data.
- `collectPackageGraph`: reading manifests and dropping the scope prefix, before `topoSort` starts.
- `resolveTypeName` and `declForTypeName`: their own recursion along import chains, and the violations `resolveTypeName` itself adds; both are total maps here.
- Two declarations starting on one source line, which the paste worklist's pointer does not tell apart, are one declaration in `PasteClosure`.
- `checkMemberDocs`, `collectTypeNames`, `foldComposed`, `parsePath` and the schema subset check of `gen-config-catalog.ts`.
- `keyof` and index signatures in `lookupPath`: type operators are read as `readonly`, members as property signatures.
- TypeTermination.Terminates: its ranking condition is sufficient; that the walk runs for ever without one is proved for one interface only.
- Publication.HistorySafe: assumes one publisher at a time and a registry where a publish or dist-tag call either happens or does not, and where a publish sets only the dist-tag it names; stale listings are not modelled.
- A `remoteIntegrity` answer that is neither an integrity nor "not found", and identity and confirmation, which change no registry state.
- `ReleaseBundle.create`, `stageInternalDependencies` and tarball inspection: one-pass checks over manifests.
- ShellWords.CommandSplitsBack: covers words, quotes and blanks of one line; alias substitution is not modelled, and unquoted special characters make the splitter give up, which printed lines never do.
- Finding `<!--` and `-->` inside an HTML node and collecting fenced lines from the syntax tree: comment spans and fenced line numbers are given.
- RewrittenLinks.DestinationsApart: that the label scanner ends no label before the last of its children is sufficient, not necessary; that children lie inside their parent and siblings one after the other is taken from the parser.
- MarkdownDestinations.InlineRange: labels are texts with balanced unescaped brackets; brackets in a code span, which CommonMark does not count, are covered by the example in `CodeSpanMisleads` only.
- TypePaths.MissingIsSound: that names are written as they are named is sufficient for a whole walk; the exact condition is proved for one list of members.
- `rewriteMarkdown`'s choice of the new URL, which is a function of the node here, and `projectPagesInto`.
- WorkerPool.EveryState: assumes no `undefined` input and no rejected operation.
- `discoverBenchmarkCandidates`, `applyFactsToRegistry` and the measuring code of the benchmarks.
- UTF-8 decoding in `readGitFiles`.
- The `{@link}` rewrite of `parseJsDoc`, `parseTags` and the parameter checks.
- The text layout of the generated session catalog; its parts are a record. Two packages exporting the same identifier are not told apart, as in the script.
- Curated tables, catalog prose rendering and manifest lint rules: data and one-branch checks.
