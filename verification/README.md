# Verified models of the build and verification tooling

The repository's `scripts/` directory holds the tooling that builds, checks and packages it. This project models the
scripts that contain real algorithms and protocols, in Dafny 4.11, and proves what they promise for all inputs, all
runs or all interleavings. `dafny verify dfyconfig.toml` checks everything.

| files | what they model |
|---|---|
| `Assignments`, `GrahamBound`, `Partitions`, `PartitionHeap`, `Inventory`, `Coordinator` | the coverage run: reading the test inventory, the weighted partition scheduler over a hand-written heap, and the completeness protocol over partition processes |
| `Prefetch`, `HelpPages` | the CLI help generator: a first-in-first-out limit on help reads with hand-off and abort, and the memoised walk that collects a possibly cyclic graph of help pages with their aliases |
| `TypeLookup`, `LookupAnswers`, `LookupUnknown`, `LookupEnds`, `ReExports`, `PasteClosure`, `SchemaPaths`, `ComposedSchemas` | the config catalog generator: three-valued member lookup on declared types with the exactness of its answers and its termination, the search through re-exports, the worklist of pasted declarations, schema key paths, folding of composed schemas |
| `Supervisor`, `Readiness`, `ForkDiagnostics`, `WorkerPool` | protocols: the development stage supervisor and the watcher's readiness latch, exit diagnostics of a coverage worker, the bounded worker pool |
| `FileTree`, `Cleaner`, `CleanCheckout`, `Staging` | a file tree with symbolic links, the build output cleaner and what it does to a checkout, and the staging step that makes a payload free of links |
| `Decimals`, `Framing`, `BatchReader`, `Migrations`, `Candidates` | the artifact digest's byte stream, the reader of `git cat-file --batch`, the session format migration chain, the benchmark's dependency closure |
| `Reachability`, `Collections`, `Wrappers` | paths in a graph; facts about sets and sequences; `Option` and `Result` |

Methods that update state in the scripts are class methods or loops here, each proved against a function or a predicate;
protocols are step relations whose runs interleave the code between two awaits in any order, and the objects' methods
are proved to make exactly those steps. Exceptions are `Result` or `Option` values.

Some expected properties do not hold of the code. Each has a lemma with a concrete input and, except for the termination
of the type lookup, a statement of exactly when the property holds:

- The scheduler's documentation promises that every partition is non-empty. Whatever the weights, that holds exactly when
  the files of non-negative weight, plus one if any weight is negative, are at least as many as the partitions
  (`NoEmptyBucket`); two files of negative weight starve one of two partitions (`NegativeWeightStarves`).
- The completeness checks imply exactly-once execution only for partitions that repeat no file (`ExactlyOnce`,
  `DuplicateEscapesCheck`); the collected inventory never repeats one, an injected list may.
- The type lookup passes through every type operator, so a path into `keyof T` is answered `found` when `T` has the member
  (`KeyOfIsFound`). Where names are plain, an answer `found` is right exactly when the declarations lead to a member, in
  every branch of a union, without crossing a `keyof` (`FoundExactly`); no `keyof` on the way that is ever answered `found`
  is enough (`FoundFirm`). For a whole world, `found` is right everywhere exactly when each `keyof` stands over an operand
  never answered `found` (`FoundExactlyRight`); an operand without property signatures is such a one
  (`SilentNeverAnswers`, `KeyOfMembersIsRight`, `KeyOfNameIsRight`).
- Its documentation says that what it cannot see through is never `missing`. A quoted name, a method and whatever an index
  signature covers are answered `missing` (`QuotedNameIsMissed`, `MethodsAndIndexesAreMissed`). For any node and path,
  as long as no quoted or computed name hides a type to look into, an answer `missing` is right exactly when the lookup
  overlooked nothing on its way: it met no `keyof`, and no member list that provides the name without a property signature
  of that text (`MissingExactly`). On one member list, with any names, `missing` and `found` are right exactly under the
  conditions of `MissIsRight` and `FindIsRight`.
- The type lookup may answer `unknown` where nothing is open: a member that no base has is answered so when two bases share
  one (`DiamondIsUnknown`). `UnknownExactly` says when it answers `unknown`. Where it visits no declaration twice, `found`,
  `missing` and `unknown` are answered exactly when the member exists in every case, in none, or depending on what the
  lookup cannot see or on the branch of a union (`AnswersExactly`).
- The type lookup need not end: an alias that indexes into itself exhausts every stack (`CircularNeverEnds`). It ends
  whenever the queries its plans lead to stay below some path length (`ClosedEnds`), as for interfaces that index
  themselves inside members, once (`SelfIndexEnds`) or twice (`DoubleIndexEnds`). No exact condition is given for this one.
- The cleaner means to plan the links that its removals leave dangling. It plans those that lead to where a target leads,
  which is too much when a target is itself a link (`LinkedTargetPlansTooMuch`) and too little for a link that only passes
  through a target (`PassingLinkIsForgotten`). It is right exactly when the resolvable links with a target's entry on their
  way are those that end in a target (`LinksPlannedExactly`).
- A package type with the name of a known global is not pasted (`GlobalNameIsSkipped`, `SkippingGlobalsIsHarmless`).
- Key paths are read back only when member names contain no dot and do not end in `[]` (`RoundTripsExactlyPlain`).
- An exit report forgets the files of a running request when another request finishes after it was sent
  (`OverlapForgetsFiles`, `ReportNamesLatest`).
- A pool of zero workers completes without results (`CompletionIsFull`).
- A success hook for options of no returned bundle opens the readiness latch early (`StraySuccessResolvesEarly`).
- A migration chain for version 0 is accepted but cannot be rendered (`CodecPerVersion`).

## Model

| member | source | states |
|---|---|---|
| Assignments.LoadsAddUp | scripts/coverage-partitions.ts:342-365 | assigning jobs to buckets neither loses nor duplicates weight |
| Assignments.GreedySpread | scripts/coverage-partitions.ts:334-365 | always choosing a lightest bucket keeps any two bucket sums within the heaviest weight of each other |
| Assignments.LargeJobFits | scripts/coverage-partitions.ts:334-365 | a last job heavier than a third of a rival's makespan cannot push its bucket beyond that rival (pigeonhole over heavy jobs) |
| Assignments.AverageBound | scripts/coverage-partitions.ts:334-365 | the last job plus m times its bucket's earlier load fits into any rival's total weight |
| GrahamBound.LptBound | scripts/coverage-partitions.ts:334-365 | heaviest-first greedy: every bucket is at most 4/3 - 1/(3m) times the makespan of every other assignment of the same non-negative jobs |
| Partitions.SortedFacts | scripts/coverage-partitions.ts:348-350 | sorting the weighted files permutes them and puts heavier files first, whatever the collation, and under a consistent collation files of equal weight in its order |
| Partitions.SortCarries | scripts/coverage-partitions.ts:348-350 | every rival assignment of the inventory is one of the sorted files with the same bucket loads, so bounds carry over |
| Partitions.GreedyRunIsGreedy | scripts/coverage-partitions.ts:355-363 | placing at a bucket least in (sum, count) is placing at a lightest bucket |
| Partitions.PlacedWeight | scripts/coverage-partitions.ts:360-361 | the running sum of a bucket is the weight of the files it lists |
| Partitions.PlacedConserves | scripts/coverage-partitions.ts:355-364 | the file lists of all buckets together are a permutation of the placed files |
| Partitions.ScanLeast | scripts/coverage-partitions.ts:409-416 | the reference scheduler's linear scan finds a key that no other key is less than |
| Partitions.GreedyRunRefinesScan | scripts/coverage-partitions.ts:355-363 | whichever least bucket each placement picks, the multiset of (sum, count) equals that of a linear-scan scheduler |
| Partitions.NoEmptyBucket | scripts/coverage-partitions.ts:334-341 | whatever the weights, a heaviest-first run leaves no bucket empty if and only if the files of non-negative weight, plus one if any weight is negative, are at least as many as the buckets |
| Partitions.NonNegativeLeavesNoneEmpty | scripts/coverage-partitions.ts:334-341 | for non-negative weights in any order no bucket stays empty if and only if there are at least as many files as buckets |
| Partitions.NegativesPileUp | scripts/coverage-partitions.ts:355-363 | once a bucket of negative weight exists, every further file of negative weight goes there |
| Partitions.NegativeWeightStarves | scripts/coverage-partitions.ts:334-341 | two files, both of negative weight, leave one of two buckets empty |
| PartitionHeap.Bucket.constructor | scripts/coverage-partitions.ts:351 | a new bucket weighs nothing and lists nothing |
| PartitionHeap.HeapRootIsLeast | scripts/coverage-partitions.ts:352-356 | the bucket at the root of the heap is least in (sum, count) |
| PartitionHeap.LeastOfFamily | scripts/coverage-partitions.ts:375-387 | picks a least one of a heap position and its children, and the position itself unless a child is less |
| PartitionHeap.SiftDown | scripts/coverage-partitions.ts:367-396 | turns a heap that is broken at one position into a heap by permuting the indices in place, leaving the buckets alone |
| PartitionHeap.RootGrows | scripts/coverage-partitions.ts:360-362 | adding a file of any weight to the root's bucket breaks the heap at the root only |
| PartitionHeap.RunWithinGraham | scripts/coverage-partitions.ts:342-365 | Graham's bound against every assignment of the unsorted inventory |
| PartitionHeap.RunSpread | scripts/coverage-partitions.ts:342-365 | no two partitions differ by more than the heaviest file |
| PartitionHeap.RunKeepsPromises | scripts/coverage-partitions.ts:342-365 | every greedy run conserves the files and leaves a bucket empty exactly under the condition of `NoEmptyBucket`; for non-negative weights it keeps the spread and Graham's bound |
| PartitionHeap.WithoutDurations | scripts/coverage-partitions.ts:342-365 | with no recorded durations no two partitions differ by more than one file |
| PartitionHeap.PlaceOnTop | scripts/coverage-partitions.ts:355-363 | one iteration adds the file to a least bucket and leaves a heap again |
| PartitionHeap.PlaceAll | scripts/coverage-partitions.ts:351-364 | the loop over the heap is a greedy run: every file went to a bucket least at that moment |
| PartitionHeap.AssignWeightedPartitions | scripts/coverage-partitions.ts:342-365 | fails exactly for files without partitions; otherwise the lists are those of a greedy run and keep all promises |
| Inventory.ReadEntries | scripts/coverage-partitions.ts:179-189 | succeeds exactly when every record is well formed and no file repeats, and maps each file to its own project |
| Inventory.ParseFileInventory | scripts/coverage-partitions.ts:174-200 | a parsed inventory has no duplicates, is exactly the listed files outside the exempt suites, each with its project, and is sorted by the runtime's order |
| Inventory.ProjectsSplitPartition | scripts/coverage-partitions.ts:433-438 | the two projects of a partition's config together include every file exactly as often as the partition, and neither includes a file of the other project |
| Coordinator.SortListsFacts | scripts/coverage-partitions.ts:419-421 | re-sorting partitions permutes the lists and their files and starts the heaviest first |
| Coordinator.Missing | scripts/coverage-partitions.ts:685-686 | the difference of two file lists is empty exactly when the second has every file of the first |
| Coordinator.ReportCompleteMeaning | scripts/coverage-partitions.ts:670-691 | a report passes exactly when it lists the partition's files as a set and none twice |
| Coordinator.CompleteReportPermutes | scripts/coverage-partitions.ts:670-691 | a passing report is a permutation of the partition exactly when the partition repeats no file |
| Coordinator.ExactlyOnce | scripts/coverage-partitions.ts:495-531 | passing reports together permute the partitions' files if and only if no partition repeats a file |
| Coordinator.PartitionsInheritUniqueness | scripts/coverage-partitions.ts:565-584 | partitions that permute a duplicate-free inventory repeat no file |
| Coordinator.DuplicateEscapesCheck | scripts/coverage-partitions.ts:683-689 | a scheduler run of two partitions puts both copies of a repeated file into one; its report of one copy passes, and the reports are no permutation of the inventory |
| Coordinator.ExitCode | scripts/coverage-partitions.ts:525-526 | the code is zero exactly when the merge and every partition process exited with code zero, without a signal and without an error, else one |
| Coordinator.CoveragePartitionCoordinator.Create | scripts/coverage-partitions.ts:474-488 | a coordinator exists exactly for at least two partitions |
| Coordinator.CoveragePartitionCoordinator.AssignFiles | scripts/coverage-partitions.ts:565-584 | the partitions conserve the inventory, start with the heaviest, are non-empty exactly when the files can fill them, and keep the scheduler's promises |
| Coordinator.CoveragePartitionCoordinator.CheckReports | scripts/coverage-partitions.ts:670-691 | succeeds exactly when every partition's report is present and complete |
| Coordinator.CoveragePartitionCoordinator.Run | scripts/coverage-partitions.ts:495-531 | refuses exactly on an empty partition, other blobs than expected or an incomplete report; returns 0 only if every process exited with code zero, without a signal and without an error, and 1 only if some did not; for a duplicate-free inventory the reported files are a permutation of it |
| Prefetch.RunKeepsInvariant | scripts/gen-cli-help.ts:119-149 | in every interleaving: slots held equal `active`, at most the limit; tasks wait only at the limit; slots are granted in starting order |
| Prefetch.NoReadAfterAbort | scripts/gen-cli-help.ts:139-141 | once aborted, no further read ever begins |
| Prefetch.SettledIsFinal | scripts/gen-cli-help.ts:136-149 | a settled task keeps its outcome for whenever the consumer asks |
| Prefetch.OutcomesOfRun | scripts/gen-cli-help.ts:136-149 | in every run a task is fulfilled exactly when its read returned, rejected exactly when it threw, and rejected unread exactly when it got its turn after an abort |
| Prefetch.Progress | scripts/gen-cli-help.ts:123-149 | an unsettled task implies an enabled step, and when all have settled every slot is free, also after throws |
| Prefetch.StartedSettle | scripts/gen-cli-help.ts:123-149 | the tasks started before any point of a run take a bounded number of further steps, whatever starts later, and none of them can go on if and only if all of them have settled; if no other tasks exist every slot is then free |
| Prefetch.CloseSettles | scripts/gen-cli-help.ts:159-162 | from the abort on, in every run, the tasks `close` waits for take a bounded number of further steps even when more tasks start, can stop only when all of them have settled, and those that had not begun to read settle as aborted |
| Prefetch.PrefetchedHelpReader.Create | scripts/gen-cli-help.ts:111-118 | a reader exists exactly for a positive safe integer as limit; it has started every given invocation in order, and serves the last task of a repeated one |
| Prefetch.PrefetchedHelpReader.StartTask | scripts/gen-cli-help.ts:123-138 | the code of `start` up to its first await is the start step of the protocol |
| Prefetch.PrefetchedHelpReader.ReleaseSlot | scripts/gen-cli-help.ts:131-135 | a released slot goes to the oldest waiter, or is free when none waits |
| Prefetch.PrefetchedHelpReader.ResumeTask | scripts/gen-cli-help.ts:139-144 | a granted task reads, or settles and hands its slot on when the reader was aborted |
| Prefetch.PrefetchedHelpReader.FinishTask | scripts/gen-cli-help.ts:141-148 | a read that returns or throws settles its task and hands the slot on |
| Prefetch.PrefetchedHelpReader.ReadHelp | scripts/gen-cli-help.ts:152-158 | a prefetched result is served once; any other request starts a new task |
| Prefetch.PrefetchedHelpReader.AbortAll | scripts/gen-cli-help.ts:159-160 | the synchronous part of `close` is the abort step |
| HelpPages.JoinDisplays | scripts/gen-cli-help.ts:177 | an invocation built word by word displays `dsh` and all words in order |
| HelpPages.LineReadsBack | scripts/gen-cli-help.ts:177 | splitting that line at its blanks gives back `dsh` and the words, if they have no blanks |
| HelpPages.TopLevelExactly | scripts/gen-cli-help.ts:65-67 | the lists visited first are the launcher, `plugin`, `watch` and both forms of every profile, and no others |
| HelpPages.TopLevelInOrder | scripts/gen-cli-help.ts:65-67 | they are visited in that order, each profile's shorthand before its explicit form |
| HelpPages.AddAlias | scripts/gen-cli-help.ts:49-58 | terminates on cyclic graphs; records the invocation, and changes nothing if the page had it; a page off the path that did not have it has the extended invocation on every child; what is recorded is derived from the record, and what is not carried on came back to its page along recorded extensions |
| HelpPages.AliasChildren | scripts/gen-cli-help.ts:56-57 | the loop records the extended invocation on every child and keeps the same promises |
| HelpPages.HelpCollector.Visit | scripts/gen-cli-help.ts:176-189 | visiting an argument list yields the page its help reads as, carrying its invocation, with all commands visited unless the page is under expansion; every list asked for on the way is recorded on the page that it reads as; it fails exactly when a list it asked for is not answered |
| HelpPages.HelpCollector.JoinPage | scripts/gen-cli-help.ts:179-183 | a list whose output is known joins that page with its invocation as an alias |
| HelpPages.HelpCollector.CreatePage | scripts/gen-cli-help.ts:184-185 | a new output gets a page with the visited invocation and no children, known by its output |
| HelpPages.HelpCollector.VisitCommands | scripts/gen-cli-help.ts:187 | after the loop the page's children are exactly its help's commands, each the page that reading the command leads to, and every list asked for is recorded where it reads as |
| HelpPages.HelpCollector.VisitCommand | scripts/gen-cli-help.ts:187 | one command's visit adds its page as a child that carries the extended invocation |
| HelpPages.HelpCollector.LinesDocumented | scripts/gen-cli-help.ts:172-193 | in the collected pages the first line displays a list whose help the page is, every top-level list is displayed on its page, and every other line is a line of a parent, a blank and the command that leads here |
| HelpPages.HelpCollector.Collect | scripts/gen-cli-help.ts:172-193 | succeeds if and only if every list asked for is answered, and asks only for top-level lists and listed commands; then there is one page per output, found by reading its first invocation and listing none twice; its children are exactly its commands, each the page that this invocation with the command reads as; every list asked for is recorded on the page it reads as, every other invocation extends a parent's, each is carried on to all children unless, carried on from page to child, another invocation of the same page came back as it, and all lines are displayed as `LinesDocumented` says |
| HelpPages.HelpCollector.OffCycleExtended | scripts/gen-cli-help.ts:46-58 | in a collected graph, every invocation of a page that is not below itself is extended on all its children |
| LookupAnswers.FoundExactly | scripts/gen-config-catalog.ts:407-493 | where names are plain, for every node, path, visited set and stack: an answer `found` is right, that is the member exists under every meaning of opaque types and every choice of union branches, if and only if declarations lead to a member, in every branch of a union and some part of a combination, without crossing a `keyof` |
| LookupAnswers.FoundFirm | scripts/gen-config-catalog.ts:407-493 | an answer `found` has such a firm way to a member whenever no `keyof` among the queries it leads to is ever answered `found`, although sibling branches share the visited set |
| LookupAnswers.FoundIsSound | scripts/gen-config-catalog.ts:407-493 | so in a world with plain names and `keyof` only over operands never answered `found`, every answer `found` is right |
| LookupAnswers.FoundExactlyRight | scripts/gen-config-catalog.ts:407-493 | with plain names, `found` is right for every path at every declaration and type if and only if every `keyof` stands over an operand never answered `found` |
| LookupAnswers.KeyOfIsRight | scripts/gen-config-catalog.ts:470 | on a `keyof` type passing the path through is right for `found` if and only if the operand is never answered `found` for a path of at least one step |
| LookupAnswers.KeyOfMembersIsRight | scripts/gen-config-catalog.ts:470 | an operand that lists members is never answered `found` if and only if none is a property signature |
| LookupAnswers.KeyOfNameIsRight | scripts/gen-config-catalog.ts:470-491 | the same for an operand that names an interface without bases |
| LookupAnswers.SilentNeverAnswers | scripts/gen-config-catalog.ts:407-493 | neither is an operand in which the lookup meets no property signature, such as keywords, unresolved names and enums |
| LookupAnswers.KeyOfIsFound | scripts/gen-config-catalog.ts:470 | a concrete path into a `keyof` type that is answered `found` although no such member exists |
| LookupAnswers.MissingExactly | scripts/gen-config-catalog.ts:407-493 | unless a quoted or computed name hides a type to look into or is read as another name, for every node, path, visited set and stack: an answer `missing` is right, that is no choice of meanings and union branches has the member, if and only if the lookup overlooked nothing in anything it asked for: no `keyof`, and no member list that provides the name without a property signature of that text |
| LookupAnswers.MissingIsSound | scripts/gen-config-catalog.ts:407-493 | so in a world without `keyof`, with plain names and where property signatures shadow all other members, every answer `missing` is right |
| LookupAnswers.MissIsRight | scripts/gen-config-catalog.ts:425-451 | and on a type literal or an interface without bases `missing` is right for all names if and only if every name some member provides is the source text of a property signature |
| LookupAnswers.FindIsRight | scripts/gen-config-catalog.ts:425-451 | and `found` if and only if the source text of every property signature is a name some member provides |
| LookupAnswers.QuotedNameIsMissed | scripts/gen-config-catalog.ts:427-432 | a quoted property name is answered `missing` |
| LookupAnswers.MethodsAndIndexesAreMissed | scripts/gen-config-catalog.ts:427-432 | a method and a name covered by an index signature are answered `missing` |
| LookupUnknown.UnknownExactly | scripts/gen-config-catalog.ts:407-493 | a lookup that ends answers `unknown` if and only if it leads to a place it cannot enter (opaque, qualified or unresolved names, enums, an array step on members or a member step on an array, a computed index, a signature without a type), to a declaration visited with as many steps left, or to a union whose branches do not agree, and no other part of an intersection or heritage on the way is found |
| LookupUnknown.AnswersExactly | scripts/gen-config-catalog.ts:407-493 | where names are plain, nothing is overlooked and no declaration is visited twice with as many steps left: `found` if and only if the member exists in every case, `missing` if and only if in none, `unknown` if and only if it depends on opaque places or on the branches unions take |
| LookupUnknown.DiamondIsUnknown | scripts/gen-config-catalog.ts:413-417 | a member of no base is answered `unknown` when two bases extend the same interface |
| LookupEnds.ClosedEnds | scripts/gen-config-catalog.ts:407-493 | whenever a query lies in a set that the plans do not lead out of and whose paths are bounded, the lookup ends with an answer, within a stack that depends only on the declarations, the bound and the type size, from every visited set |
| LookupEnds.RankedLookupEnds | scripts/gen-config-catalog.ts:407-493 | such a set exists for every path when indexed accesses descend in some ranking of the declarations, those inside members and array elements by one step less for each, so the lookup ends |
| LookupEnds.SelfIndexEnds | scripts/gen-config-catalog.ts:471-475 | an interface that indexes itself inside a member has such a ranking, so every lookup on it ends |
| LookupEnds.DoubleIndexEnds | scripts/gen-config-catalog.ts:471-475 | every lookup on an interface that indexes itself twice inside a member ends as well |
| LookupEnds.DoubleIndexHasNoRank | scripts/gen-config-catalog.ts:471-475 | although that interface admits no ranking |
| LookupEnds.CircularNeverEnds | scripts/gen-config-catalog.ts:471-475 | an alias that indexes into itself exhausts every stack |
| LookupEnds.CircularHasNoRank | scripts/gen-config-catalog.ts:471-475 | and admits no ranking either |
| ReExports.Target | scripts/gen-config-catalog.ts:346-356 | a re-export hands a name on to the same name of a starred file, or to the local name of the first element exported under it |
| ReExports.FindExported | scripts/gen-config-catalog.ts:337-359 | terminates on cycles; a hit or an unreadable file is reached by a chain; coming back empty-handed leaves everything newly visited without a declaration and fully followed |
| ReExports.PlacesAreClosed | scripts/gen-config-catalog.ts:337-359 | only finitely many (file, name) pairs can ever be visited |
| ReExports.FindFromScratch | scripts/gen-config-catalog.ts:337-359 | finds nothing if and only if no chain of named, renamed or star re-exports reaches a declaring or unreadable file; so with readable files it finds a declaration if and only if some chain does |
| PasteClosure.ResolveLocal | scripts/gen-config-catalog.ts:162-187 | a local resolution is a declaration of exactly that name in a file of the package |
| PasteClosure.ResolvesExactly | scripts/gen-config-catalog.ts:162-187 | a name resolves to a declaration, a foreign import or nothing if and only if a finite chain of package-local imports, each with the extension and of the same name, leads to a file where it means that |
| PasteClosure.CollectPastes | scripts/gen-config-catalog.ts:790-844 | no violation is reported if and only if every needed name has one meaning in the package; then the pastes are exactly the needed declarations, each once, and no name is bound to both a paste and an import |
| PasteClosure.GlobalNameIsSkipped | scripts/gen-config-catalog.ts:838-841 | a package type named like a known global is needed but not pasted, without a violation |
| PasteClosure.SkippingGlobalsIsHarmless | scripts/gen-config-catalog.ts:838-841 | skipping known globals loses no declaration if and only if no needed declaration mentions one that resolves to a package declaration |
| SchemaPaths.ParsePath | scripts/gen-config-catalog.ts:313-326 | the loop reads a path as one member step per dot-separated segment followed by its array steps |
| SchemaPaths.RoundTripsExactlyPlain | scripts/gen-config-catalog.ts:524-543 | a rendered path reads back as its steps if and only if no member name contains a dot or ends in `[]` |
| ComposedSchemas.FoldComposed | scripts/gen-config-catalog.ts:863-876 | terminates on cyclic compositions; gathers exactly the keys of the newly folded packages and follows everything they compose |
| ComposedSchemas.AllKeys | scripts/gen-config-catalog.ts:860-877 | the keys are exactly those of the packages the schema composes, directly or not; violations are exactly for composed packages that were not collected |
| Supervisor.RunKeepsInvariant | scripts/dev-web.ts:237-283 | in every run live stages have seen exactly the signals of the current escalation step and exited ones a beginning of them |
| Supervisor.ReturnedMeansExited | scripts/dev-web.ts:262-273 | `stop` has returned only if every tracked stage has exited |
| Supervisor.StoppingExactly | scripts/dev-web.ts:262-264 | the supervisor is stopping if and only if `stop` was called |
| Supervisor.SignalsInOrder | scripts/dev-web.ts:264-271 | after a call of `stop`, each stage sees a beginning of: the signal of that call, SIGTERM unless that was it, SIGKILL; stages live after SIGKILL have seen all of it |
| Supervisor.NoSignalBeforeStop | scripts/dev-web.ts:262-272 | no stage sees a signal before a stop |
| Supervisor.StaleExactly | scripts/dev-web.ts:250-256 | `onStale` has fired for a stage if and only if its exit was observed before the stop began |
| Supervisor.ReportedOnce | scripts/dev-web.ts:250-256 | each stage is reported at most once, with its own exit code |
| Supervisor.StopCanGoOn | scripts/dev-web.ts:262-282 | a stop that has not returned can wake or return, or waits for a killed stage that can still exit |
| Supervisor.StopEnds | scripts/dev-web.ts:262-282 | from a stop on, a run has at most two steps for each stage and four for the escalation; when no step is possible `stop` has returned, every stage has exited and every exit was observed |
| Supervisor.StageSupervisor.Track | scripts/dev-web.ts:250-251 | adding a stage is the add step |
| Supervisor.StageSupervisor.StageExited | scripts/dev-web.ts:252-255 | the exit callback is the observe step |
| Supervisor.StageSupervisor.Escalate | scripts/dev-web.ts:264-272 | the code between two awaits of `stop` signals every live stage, escalates or returns as the protocol says |
| Supervisor.StageSupervisor.BeginStop | scripts/dev-web.ts:262-269 | the call of `stop` up to its first await is the stop step |
| Supervisor.StageSupervisor.GraceOver | scripts/dev-web.ts:266-282 | continuing after a grace period is the wake step |
| Readiness.RunCounts | scripts/dev-web.ts:183-207 | the counter is the number of distinct options seen, and the latch is open once it reaches the number of bundles, in either order of events |
| Readiness.ResolvedExactlyWhenAllBuilt | scripts/dev-web.ts:183-208 | when hooks run only for returned bundles, the wait ends if and only if `build` returned and every bundle succeeded once |
| Readiness.NotResolvedBeforeReturn | scripts/dev-web.ts:197-207 | the wait never ends before `build` has returned |
| Readiness.StraySuccessResolvesEarly | scripts/dev-web.ts:193-201 | a hook for options of no bundle ends the wait while a bundle is still building |
| Readiness.ReadinessLatch.OnSuccess | scripts/dev-web.ts:193-201 | the hook is the success step |
| Readiness.ReadinessLatch.BuildReturned | scripts/dev-web.ts:206-207 | the code after `build` is the built step |
| ForkDiagnostics.Flags | scripts/coverage-fork-diagnostics.ts:12-79 | over every trace of one lifecycle, an orderly exit is expected exactly if a stop came with no error observed before it |
| ForkDiagnostics.NeverBoth | scripts/coverage-fork-diagnostics.ts:35-52 | `expectedExit` and `workerErrored` are never both true |
| ForkDiagnostics.ExitReported | scripts/coverage-fork-diagnostics.ts:22-41 | after a start an exit is reported if and only if no stop came before it or an error was observed before the first stop; the report has the exit code, and the files of the latest outstanding request unless a request finished since |
| ForkDiagnostics.ReportNamesLatest | scripts/coverage-fork-diagnostics.ts:50-65 | the reported request is the latest outstanding one if and only if no request finished since the last was sent, or none is outstanding |
| ForkDiagnostics.SequentialReportsNameLatest | scripts/coverage-fork-diagnostics.ts:50-65 | with one request at a time the report always names the request in progress |
| ForkDiagnostics.OverlapForgetsFiles | scripts/coverage-fork-diagnostics.ts:57-65 | with two requests under way, the finish of the first loses the files of the second |
| ForkDiagnostics.DiagnosticForkWorker.Start | scripts/coverage-fork-diagnostics.ts:43-48 | starting attaches both observers |
| ForkDiagnostics.DiagnosticForkWorker.SendMessage | scripts/coverage-fork-diagnostics.ts:50-54 | sending is the send step |
| ForkDiagnostics.DiagnosticForkWorker.Deserialize | scripts/coverage-fork-diagnostics.ts:57-65 | a finished response forgets the request |
| ForkDiagnostics.DiagnosticForkWorker.ObserveError | scripts/coverage-fork-diagnostics.ts:35-40 | an error counts only before an expected exit |
| ForkDiagnostics.DiagnosticForkWorker.StopWorker | scripts/coverage-fork-diagnostics.ts:67-78 | stopping silences the exit unless the worker errored |
| ForkDiagnostics.DiagnosticForkWorker.ReportExit | scripts/coverage-fork-diagnostics.ts:22-34 | an exit is logged with the current request's files unless expected or unobserved |
| WorkerPool.RunKeepsInvariant | scripts/benchmark-next-package-dependency.ts:182-199 | under every schedule claimed indices are distinct, every result is the operation's for its value, and nothing claimed is lost without a failure |
| WorkerPool.ClaimedOnce | scripts/benchmark-next-package-dependency.ts:190-192 | two claims in a run never take the same index |
| WorkerPool.BoundedInFlight | scripts/benchmark-next-package-dependency.ts:189 | at most min(jobs, n) operations are in flight |
| WorkerPool.CompletionIsFull | scripts/benchmark-next-package-dependency.ts:182-199 | for defined values a completed pool has every result if and only if there was a worker or nothing to do |
| WorkerPool.PoolCanGoOn | scripts/benchmark-next-package-dependency.ts:189-197 | without a failure an incomplete pool has an enabled step |
| WorkerPool.StoppedExactly | scripts/benchmark-next-package-dependency.ts:189-197 | a worker has stopped if and only if its operation failed or it found no index left or an undefined value; the pool has failed if and only if some operation did |
| WorkerPool.RunEnds | scripts/benchmark-next-package-dependency.ts:182-199 | every run, also a failing one, has at most two steps for each value and one for each worker, and nothing can go on if and only if every worker has returned |
| WorkerPool.Pool.TakeNext | scripts/benchmark-next-package-dependency.ts:190-194 | the synchronous part of a worker's loop is the claim step |
| WorkerPool.Pool.StoreResult | scripts/benchmark-next-package-dependency.ts:195 | storing a result is the finish step |
| Candidates.ReachInstalled | scripts/benchmark-next-package-dependency.ts:140-158 | the growing queue reaches exactly the published packages in the target's install closure, and terminates on cycles |
| Candidates.DiscoverBenchmarkCandidates | scripts/benchmark-next-package-dependency.ts:134-165 | the candidates are exactly the released packages without a policy that a chain of dependencies, optional dependencies and non-optional peers of published manifests reaches from the target, and that still have a peer other than Cordis |
| Cleaner.BuildOutputDirectories | scripts/clean.ts:172-206 | succeeds if and only if every config reachable from the root config through references parses with an acceptable output inside the repository, and yields exactly their outputs |
| Cleaner.AddIfPresent | scripts/clean.ts:218-226 | adds exactly the present paths; fails exactly when one cannot be looked up or its canonical parent and name lie outside the root |
| Cleaner.ScanPackages | scripts/clean.ts:131-149 | separates manifest-less package directories into removable residue and unknown entries |
| Cleaner.Plan | scripts/clean.ts:102-170 | succeeds if and only if the checkout is cleanable; the plan is the first targets and every module link that leads nowhere or to where one of them leads, all strictly below the canonical root |
| Cleaner.LinksPlannedExactly | scripts/clean.ts:148-159 | the module links planned for some targets are those that dangle once the targets are taken out if and only if the resolvable ones with a target's entry on their way are those that end in a target |
| Cleaner.PlannedLinksDangle | scripts/clean.ts:148-159 | when no target is itself a link, every planned link is left dangling, and the plan is exact if and only if no resolvable link merely passes through a target |
| Cleaner.LinkedTargetPlansTooMuch | scripts/clean.ts:148-159 | with the build state directory a link, a module link is planned that still resolves after unlinking it |
| Cleaner.PassingLinkIsForgotten | scripts/clean.ts:148-159 | a module link through a link in the build state directory to a place that stays is not planned and left dangling |
| Cleaner.DanglingAfterRemoval | scripts/clean.ts:95-99 | when targets are named by their canonical locations, taking them out is what removing them one by one does |
| Cleaner.RepositoryCleaner.RemoveAll | scripts/clean.ts:95-99 | removing planned targets in any order never fails halfway, also when one target goes with another |
| Cleaner.RepositoryCleaner.Clean | scripts/clean.ts:95-100 | all or nothing: on refusal the tree is unchanged, otherwise every target is gone and nothing but what was at or below a target |
| Cleaner.RemovalContained | scripts/clean.ts:65-68 | everything a clean removes lies strictly below the canonical root |
| Cleaner.UnknownEntryPreventsClean | scripts/clean.ts:131-146 | one entry that is neither known residue nor build information, in any directory two levels below `packages` that has no manifest, makes the whole clean refuse |
| CleanCheckout.FirstTargetsExactly | scripts/clean.ts:102-147 | apart from links, exactly these are planned: the three fixed directories and the native state file, the parents of `types` output directories and the native entry output of reachable configs, each where present; incremental state files in the root; and directories two levels below `packages` without a manifest that hold only known residue |
| CleanCheckout.LivePackageSurvives | scripts/clean.ts:131-149 | the manifest of a package directory outlives a clean unless a fixed place, a build output, a root state file or a module link that is removed holds it |
| CleanCheckout.StalePackageGoes | scripts/clean.ts:131-149 | a package directory without a manifest that holds nothing but known residue is gone with everything in it |
| CleanCheckout.OwnLinksExactly | scripts/clean.ts:53-66 | the links looked at are those directly in `node_modules`, in `node_modules/.pnpm/node_modules` and in their scope directories, where these lead strictly below the canonical root |
| CleanCheckout.FileForModulesRefused | scripts/clean.ts:53-66 | a modules directory that leads to a file below the root makes the clean refuse |
| CleanCheckout.FileForPackagesRefused | scripts/clean.ts:36-57 | a file in the place of `packages` makes the clean refuse |
| Staging.FindSymlink | scripts/build-exe-for-python-sdk-staging.ts:49-60 | finds a link below a directory if and only if there is one |
| Staging.CopyDereferenced | scripts/build-exe-for-python-sdk-staging.ts:95-99 | a copy has exactly what following links from the source reaches, as files and directories, without the source's own `node_modules`; it fails if and only if a listed entry is dangling, cyclic or a directory too deep |
| Staging.CopyReadsTheSame | scripts/build-exe-for-python-sdk-staging.ts:92-99 | below a replaced link every path stands for itself and holds what the linked original led to |
| Staging.BinExactly | scripts/build-exe-for-python-sdk-staging.ts:78-81 | the `.bin` directory taken along is the last one on the path below `node_modules` |
| Staging.StepKeepsProgress | scripts/build-exe-for-python-sdk-staging.ts:77-101 | handling one link strictly shrinks the set of links and changes nothing but its `.bin` directory or its own place |
| Staging.StepKeepsReplaced | scripts/build-exe-for-python-sdk-staging.ts:77-101 | handling one link leaves alone what stands at every other original link |
| Staging.StagedPayload.MaterializeLink | scripts/build-exe-for-python-sdk-staging.ts:77-101 | a link in a `.bin` directory takes that directory along; a link that leads to the payload root or above leaves nothing; one that leads anywhere else is replaced by what it led to, which was no directory around the link; the failures are characterised |
| Staging.StagedPayload.MaterializeStagedLinks | scripts/build-exe-for-python-sdk-staging.ts:73-103 | terminates; on success no link is left below `node_modules`, nothing outside changed, an original entry survives unchanged unless it was in a removed `.bin` directory, and every original link outside `.bin` directories was replaced and its replacement left alone since |
| Staging.StagedLinkIsCopy | scripts/build-exe-for-python-sdk-staging.ts:73-103 | in a staged payload, every such link that led to a place which is not the payload root or above it holds a copy of exactly what following the links reached when it was replaced, without its `node_modules`; of one that led to the payload root or above nothing is left |
| Staging.CollectDuplicates | scripts/build-exe-for-python-sdk-staging.ts:28-44 | succeeds if and only if all locations are inside `node_modules` and all packages to share are directories, and collects exactly the other locations of workspace packages |
| Staging.DuplicatesExactly | scripts/build-exe-for-python-sdk-staging.ts:28-44 | sharing removes exactly the locations of workspace packages other than the first one directly in `node_modules` or in a scope directory there |
| Staging.StagedPayload.DeduplicateWorkspacePackages | scripts/build-exe-for-python-sdk-staging.ts:19-46 | on invalid metadata nothing is removed; otherwise nothing but duplicates and what lies below them, and on success all of them |
| Staging.SharingStaysInModules | scripts/build-exe-for-python-sdk-staging.ts:30-34 | in a link-free `node_modules` nothing outside it is removed |
| Staging.SharedPackageSurvives | scripts/build-exe-for-python-sdk-staging.ts:28-44 | after sharing, the kept package of a workspace dependency is still a directory at its place if and only if no duplicate of any dependency is recorded at that place or as its scope directory |
| Decimals.ValueOfDecimal | scripts/client-build-environment.ts:359 | reading a printed length gives it back |
| Framing.DecodeInvertsStream | scripts/client-build-environment.ts:356-362 | a decoder recovers every path and content from the digested stream, in order |
| Framing.StreamIsInjective | scripts/client-build-environment.ts:356-362 | two artifact lists give the same stream if and only if they are equal |
| Framing.ClientArtifactDigest | scripts/client-build-environment.ts:349-365 | fails exactly without artifacts; otherwise hashes exactly the stream and counts the artifacts |
| Framing.RecordMatches | scripts/client-build-environment.ts:339-344 | up to hash collisions the record check accepts exactly unchanged artifacts |
| BatchReader.ReadFrame | scripts/benchmark-npm-resolution.ts:155-168 | succeeds if and only if a well-formed frame begins at the offset, returns its content and ends right behind it |
| BatchReader.ReadGitFiles | scripts/benchmark-npm-resolution.ts:151-171 | returns contents if and only if the output begins with one well-formed frame per path; a failure names the first path without one |
| BatchReader.FramesAreUnique | scripts/benchmark-npm-resolution.ts:154-168 | the output determines its frames |
| BatchReader.HeaderReadExactly | scripts/benchmark-npm-resolution.ts:156-162 | a header announces a size if and only if it does not end in " missing" and its third space-separated field is blanks, a sign, the digits of a safe integer that is not negative, and no further digit; it reports a missing object if and only if it ends so |
| BatchReader.HeaderAnnouncesSize | scripts/benchmark-npm-resolution.ts:157-162 | the size printed in an `oid type size` header is read back |
| BatchReader.ReadsBatch | scripts/benchmark-npm-resolution.ts:145-171 | the reader inverts the batch format for any contents, including newlines and header-like text |
| BatchReader.MissingObjectFails | scripts/benchmark-npm-resolution.ts:158 | a missing object fails the whole read, whatever precedes or follows |
| Migrations.ReadExactly | scripts/gen-session-format-catalog.ts:87-123 | the checks on a package pass if and only if it declares an adjacent step under its own name and in its own directory, with all names stated and no other member, and they yield what the metadata states |
| Migrations.Collect | scripts/gen-session-format-catalog.ts:82-168 | succeeds if and only if the packages form a complete inventory, in whatever order they were found, and returns all declarations as one chain from 0 to the current version with codecs that meet |
| Migrations.EachAtItsIndex | scripts/gen-session-format-catalog.ts:124-134 | one declaration per version and none beyond puts each at the index of its version |
| Migrations.CodecPerVersion | scripts/gen-session-format-catalog.ts:186-196 | the codec list has one codec per version and agrees with both ends of every migration if and only if there is a migration, exactly when rendering succeeds |
| Migrations.RenderedFromMetadata | scripts/gen-session-format-catalog.ts:176-215 | the catalog rendered from collected packages lists for every version the migration and both codecs that the metadata for that step states, and the restorer and header validator of the step to the current version |
| Migrations.ImportsAreUses | scripts/gen-session-format-catalog.ts:180-185 | the generated module imports exactly the symbols it uses |
| Migrations.SuffixReachesCurrent | scripts/gen-session-format-catalog.ts:186-196 | from any version up to the current one the remaining migrations compose to the current version and codec |

## Left out

- Spawning processes, signals as system calls, timers, HTTP, npm, pnpm and git are events, parameters or observed results; that real children exit and timers fire is not modelled.
- JavaScript sorting is a stable insertion sort; `localeCompare` and code-unit order are parameters or dropped where only the set of results matters (collected help pages, catalog entries, candidates and clean targets are unordered here).
- Durations and weights are real numbers without floating-point rounding.
- Coordinator.CoveragePartitionCoordinator.Run: persisting durations, removing temporary trees and printing diagnostics are not modelled; blobs are numbers plus a flag for unexpected ones.
- HelpPages.HelpCollector.Collect: assumes that reading help is deterministic with finitely many outputs; profiles arrive sorted; the order of the returned pages is not stated.
- LookupUnknown.AnswersExactly: where a declaration is visited twice, `UnknownExactly` gives the condition, which then depends on the order of the parts.
- CleanCheckout.FirstTargetsExactly: takes `packages` to be a directory or absent; for a link there `Cleaner.Plan` is the statement.
- LookupEnds.ClosedEnds: the closed set is sufficient for termination, not necessary: a lookup may answer before it reaches the part that would not end. A ranking is one way to have such a set, which an interface that indexes itself twice shows is not the only one; circular indexed access of an alias is shown not to end.
- TypeLookup: merged interface declarations are not modelled, nor scopes: a type parameter that shadows a declared type of its file is resolved to that declaration by the code, so there an answer can be wrong. Resolution of names to declarations is a given map, and the utility type and array names are taken to mean the built-in types. A computed name is a source text that differs from the property name.
- LookupAnswers.FoundIsSound: what a `keyof` type has is left to the interpretation of opaque places.
- PasteClosure.CollectPastes: a violation names its item, not its message; documentation checks on members are left out.
- BatchReader.ReadGitFiles: non-ASCII blanks before a size are not skipped, and contents stay bytes where the script decodes UTF-8.
- Framing.StreamIsInjective: is about path and content bytes; two paths with the same UTF-8 bytes are one path here. The scan that lists the artifacts and the parsing of the record are left out.
- Staging.StagedLinkIsCopy: the copy is of the tree in which the link was handled, in which other links may have been replaced before.
- Staging.StagedPayload.MaterializeStagedLinks: the modules directory is resolved once; a staging path that itself leads through links inside `node_modules` is not modelled, nor are copies left incomplete by a failure.
- Staging.CopyDereferenced: reads the tree as it was before the copy began; a bound on path depth stands for the system's limit on path names.
- FileTree: link targets are absolute, permissions and errors other than missing, not a directory and too many links are left out.
- Cleaner.LinksPlannedExactly: takes out all entries of the first targets at once; a target whose path leads through another target may outlive a removal in the wrong order.
- Cleaner.Plan: which of several reasons a refusal names is not stated beyond unknown entries; TypeScript config parsing is a given map.
- Migrations.Collect: package names and directory names are parsed values; which check fails first is not stated.
- Readiness.ResolvedExactlyWhenAllBuilt: each bundle's options are one object, as the hook receives it.
- `writeClientBuildRecord`, `assertClientBuildEnvironment`, argument parsing, manifest policy checks and rendering would only add easy members.
