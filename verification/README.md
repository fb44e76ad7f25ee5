# Build and release tooling, modelled and proved in Dafny

This project models the algorithms behind Caelo's release and quality gates
and proves what they promise. `dafny verify dfyconfig.toml` checks all of it.

## What is modelled

**Query-index gate** (`PlanLines`, `PlanBlocks`, `Truncation`, `KeepDecision`,
`LogEntries`, `LogSegments`, `Rings`, `FilterState`, `SeqScanFilters`, `Analyzer`,
`Findings`, `GateVerdict`, `LogText`, `FilterText`, `FilterKey`, `KeyTerms`,
`TidyTerms`, `GateLog`, `Misreading`, `PolicyTerms`, `HiddenPolicy`). A stream filter reads the server log line by line and keeps, of every plan with a full scan, a head, a ring buffer of last lines
and the scan blocks of what lies between. The class `SeqScanFilter` has the
source's fields; each of its methods is proved equal to a step of a state on
values, and the state is proved to hold exactly what a closed formula over all
lines of the entry says. On top of that: an analyzer that reads the shortened
log reports what it would report of the whole log, with the exact condition, from the
chunks of the log to the text the filter writes and the findings parsed from it.
A plan line is a record of the facts the code reads off it (indent, kind of
node, property); the head and tail sizes are arbitrary positive numbers. Filter
text is characters and literals, and the two text scanners (parentheses,
string literals) are character by character.

**Coverage** (`Sorting`, `ShardBound`, `Sharding`, `Coverage`, `CoverageSpots`,
`CoverageGate`).
The largest-first scheduler over its load array, with the 4/3 − 1/(3n) bound
against every other split, and the merge, with the theorem that running shards
and merging measures what one run would, and exactly when a merge from which
shards are missing does.

**Service images** (`Closure`, `ClosureReach`, `ImageLayout`). The dependency worklist over a
disk given as a finite map from real directories to package manifests, and
module resolution by walking up directories, on disk and in the image.

**Releases and migrations** (`Semver`, `ReleaseHistory`, `ReleaseCut`,
`MigrationOrder`, `UpgradeOrder`, `SqlScanner`). Version order as section 11 of Semantic Versioning
2.0.0 has it, histories of accepted cuts as a state machine, the order in which
installs that follow such a history apply its migrations, and the scanner that
strips comments and literals from SQL.

**Licences** (`Licence`). The recursive-descent evaluator as a class with its
mutable position, exact against the expression grammar of Annex D.4 of the SPDX
specification 2.3 as the code reads it, and the gate built on it.

**Docs messages and model catalog** (`Fences`, `Messages`, `MessageText`,
`Catalog`, `CatalogReport`). The greedy message packer and its fenced blocks, read back from whole
messages by section 4.5 of CommonMark 0.31, and the model refresh with its fixed
point.

A loop of the source is a method with a loop, proved against a specification
function; the lemmas are about that function. What such a function selects, out of
lines, scans, terms, packages or slots, is said once more without it, over the
numbers of the places selected (`Selection`): which ones, all of them, and in what
order.

## Where the code does not do what its documentation says

- Cutting a plan is not always invisible. When the kept tail starts inside a
  node that is no scan and whose own line was cut, the analyzer reads that
  node's Filter as the last kept scan's, although
  `docs/dev/query-index-gate.md` and the comments promise every scan with its
  own Filter. `Truncation.CutInvisibleIff` is the exact condition;
  `Misreading.StrayMisreads` is a family of kept plans, for every size of head and
  tail, of which nothing is to be reported but something is once they are cut.
- `isPolicyTerm` unwraps a term with its literals in place, so parentheses
  inside literals count, and a term all of whose alternatives are the relation's
  policy can be kept as the statement's own. The code judges the term's own
  alternatives exactly when no pair is stripped that encloses only a part of it
  (`PolicyTerms.AlternativesIff`); of the terms that are policy it recognises
  exactly those, those known whole, and those of which what is left between the wrong
  parentheses splits into known texts (`RecognisedIff`), the last only with an OR
  inside parentheses (`RecognisedFlatIff`); `HiddenPolicy.PolicyKept` is a family of
  filters whose key is then not empty.
- "A crashed or missing shard must not read as less coverage"
  (`coverage-check.ts:501-502`): a directory without its data is refused, but how
  many directories there should be is not known, and a shard whose directory is
  absent is merged away. The merge then measures what one run would exactly when
  the files of the missing shards add nothing to what the others contribute
  (`CoverageGate.MissingShardsIff`); `MissingShardAccepted` is the family of accepted
  merges that lack lines.
- The migration order check compares a release with the previous *stable* tag
  only. Over every history of accepted cuts an install that follows stable releases
  applies migrations in a fresh install's order
  (`UpgradeOrder.StableInstallsInOrder`); one that stops at any tags does exactly
  when each of its hops is in order (`InstallInOrderIff`), and there are accepted
  pre-releases after which the next stable one's is not
  (`UpgradeOrder.PreReleaseStopsReorder`).
- "A bump from the newest stable tag never collides" (`release-checks.ts:287-289`)
  fails exactly when a pre-release at or above the bumped version is tagged
  (`ReleaseHistory.BumpRefusedIff`). Over histories of accepted cuts it is one cut
  away: any acceptable pre-release so high leaves the newest stable tag as it is and
  the bump from it refused (`ReleaseHistory.PreReleaseBlocksBump`).
- The docs messages are held to a limit, but the head, with the release notes in
  it, is never measured, and the guard of a change allows for a two-digit part
  number. The messages all fit exactly when the head does and the last one, when it
  is the hundredth or later and holds a single change, has room for the closing text
  (`Messages.AllFitIff`); `Messages.AllFitIf` is a condition on the changes alone, and
  `Messages.HundredthTooLong` a family of runs in which there is no room.
- "A slot also moves when its current id is no longer served": a slot that holds a
  dated id counts as retired even while the provider lists that id. A listed slot
  moves only to a newer version exactly when its id is undated, nothing matches, or
  the match is newer (`Catalog.ListedMovesUpIff`); one whose alias is the newest
  match moves to an older version (`Catalog.SnapshotMovesDown`).

Two refusals are wider than one might expect, and modelled as they are:
`getCurrent` needs a stable tag even for an explicit version
(`release.ts:169-177`; `ReleaseHistory.Cut` refuses), and an optional dependency
found at an intermediate level stops the closure as a required one does
(`service-image.ts:188-193`; part of `Closure.Fails`).

## Model

| member | source | states |
|---|---|---|
| `Rings.SlotIsMod` | scripts/query-index-gate/seqscan-filter.ts:131-133 | the slot a line is written to is its number modulo the ring's size |
| `Rings.InsertOrdered` | scripts/query-index-gate/seqscan-filter.ts:131-134 | writing into the ring and then reading it in order is appending to the last lines and dropping the oldest |
| `FilterState.HeldIs` | scripts/query-index-gate/seqscan-filter.ts:124-162 | after any number of pushes: head = first lines, ring = last lines in input order, middle = exactly the scan lines and their properties of the lines between, indent = the tracker over head and evicted lines |
| `FilterState.ShortenedIs` | scripts/query-index-gate/seqscan-filter.ts:103-108 | the entry written is put together from what is held; unmarked and whole when nothing was evicted |
| `FilterState.RunReads` | scripts/query-index-gate/seqscan-filter.ts:51-176 | over every log the state holds the open entry and has written exactly the kept, new entries closed so far |
| `LogSegments.ClosedAre` | scripts/query-index-gate/seqscan-filter.ts:74-98 | the entries of a log: one for each tag that another "@@" line or the end follows, holding the tag and the plan lines between, in order |
| `SeqScanFilters.SeqScanFilter.TrackScanBlock` | scripts/query-index-gate/seqscan-filter.ts:151-162 | the tracker's step on the fields; true for scan lines and the properties of the current scan |
| `SeqScanFilters.SeqScanFilter.Evict` | scripts/query-index-gate/seqscan-filter.ts:143-145 | what an evicted line adds to the middle |
| `SeqScanFilters.SeqScanFilter.Push` | scripts/query-index-gate/seqscan-filter.ts:124-136 | the fields after a push are the state's push, eviction included |
| `SeqScanFilters.SeqScanFilter.OrderedTail` | scripts/query-index-gate/seqscan-filter.ts:164-170 | the ring read out in input order |
| `SeqScanFilters.SeqScanFilter.EndIndexNode` | scripts/query-index-gate/seqscan-filter.ts:172-175 | closing an index scan's block decides it |
| `SeqScanFilters.SeqScanFilter.Flush` | scripts/query-index-gate/seqscan-filter.ts:101-122 | the fields after a flush are the state's flush: kept and new entries are emitted, everything is reset |
| `SeqScanFilters.SeqScanFilter.Line` | scripts/query-index-gate/seqscan-filter.ts:74-98 | one log line moves the fields by one step of the state |
| `SeqScanFilters.Filter` | scripts/query-index-gate/seqscan-filter.ts:178-211 | what the filter writes for a whole log is a function of the log's entries alone |
| `LogEntries.EmittedFirsts` | scripts/query-index-gate/seqscan-filter.ts:108-112 | every kept entry's form is written, once, in the order of first occurrence |
| `LogEntries.EmittedDistinct` | scripts/query-index-gate/seqscan-filter.ts:109-111 | no two written entries are the same |
| `LogEntries.CutEntry` | scripts/query-index-gate/seqscan-filter.ts:101-112 | an entry that does not fit is written as its first lines, the number of lines cut, of those the scans and the properties of the last scan before them, and its last lines |
| `KeepDecision.DecidesMeaning` | scripts/query-index-gate/seqscan-filter.ts:86-97 | the flags decide, from any state, what the rest of the plan's blocks say |
| `KeepDecision.KeepsExactlyFullScans` | scripts/query-index-gate/seqscan-filter.ts:86-103 | an entry is kept exactly when some line is a Seq Scan or some index scan's block has a Filter and no Index Cond |
| `KeepDecision.ReportableKept` | scripts/query-index-gate/seqscan-filter.ts:172-175 | a plan in which the analyzer would report a scan is never dropped |
| `Truncation.CutScans` | scripts/query-index-gate/seqscan-filter.ts:138-162 | the scans read from head and kept middle are those of the head and the whole middle |
| `PlanBlocks.KeptAre` | scripts/query-index-gate/seqscan-filter.ts:138-162 | exactly the scan lines and those properties are kept between which and the last scan no line ends its block |
| `PlanBlocks.ScansAre` | scripts/query-index-gate/analyze.ts:141-156 | the scans read are the scan lines, in order, each with the last Filter of its own block, and an Index Cond exactly when the block has one |
| `Truncation.CutInvisibleIff` | scripts/query-index-gate/seqscan-filter.ts:124-170 | when exactly the cut plan shows the analyzer the same scans, with the same Filter and Index Cond, as the whole plan |
| `Truncation.CutInvisible` | scripts/query-index-gate/analyze.ts:137-156 | it does whenever the tail does not start inside a lost node |
| `Analyzer.ShortenedShowsAll` | scripts/query-index-gate/analyze.ts:65-82 | tag, statement and scans read from the shortened entry are those of the whole one |
| `Analyzer.WrittenFindings` | scripts/query-index-gate/analyze.ts:134-194 | the findings of the written entry are those of the whole one, so failing closed is never needed for a kept entry |
| `Misreading.StrayMisreads` | scripts/query-index-gate/analyze.ts:147-156 | for every size of head and tail that holds the statement: a printed, kept plan longer than both, with nothing to report, of which the written entry reports a finding |
| `Analyzer.FilteringIsInvisible` | scripts/query-index-gate/analyze.ts:434-451 | for every judgement that reports only scans with a filter and no Index Cond, the distinct findings of the filtered log are those of the whole log, same samples, same order |
| `Findings.StatementIs` | scripts/query-index-gate/analyze.ts:73-79 | the statement of an entry is what its first "Query Text:" line says, or the first written line below one that says nothing |
| `Findings.UnmarkedAre` | scripts/query-index-gate/analyze.ts:137-140 | the analyzer reads exactly the lines that are no mark of a cut, in order |
| `Findings.FindingsAre` | scripts/query-index-gate/analyze.ts:134-194 | the findings of an entry are what its scans are judged to be, one for every scan judged so and in their order; the failing one alone exactly when a marked entry has no scan left |
| `Findings.FoundIff` | scripts/query-index-gate/analyze.ts:134-194 | a finding is among them exactly when some scan is judged to be it, or it is the failing one of such an entry |
| `Findings.AllFindingsAre` | scripts/query-index-gate/analyze.ts:434-439 | the findings of a log are those of its entries, one entry after the other |
| `Findings.DistinctFirsts` | scripts/query-index-gate/analyze.ts:434-441 | the distinct findings are exactly the first ones of every key, in order |
| `Findings.ReportedIff` | scripts/query-index-gate/analyze.ts:434-451 | from the filtered log exactly those keys are reported that some scan of the server log is judged to be: none missed, none made up by the cut |
| `GateVerdict.ReadScans` | scripts/query-index-gate/analyze.ts:141-156 | the nested loop reads exactly the scans of the plan |
| `GateVerdict.DistinctFindings` | scripts/query-index-gate/analyze.ts:434-444 | the first finding of each key, over all entries |
| `GateVerdict.OneFateEach` | scripts/query-index-gate/analyze.ts:463-483 | every finding is counted under exactly one heading |
| `GateVerdict.FatesAre` | scripts/query-index-gate/analyze.ts:463-483 | in turn: core foreign keys, index walks, what some rule is the first to explain, and, as violations, the rest |
| `GateVerdict.MeetingAre` | scripts/query-index-gate/analyze.ts:463-483 | under a heading are exactly the findings that meet its fate, in the order of the findings |
| `GateVerdict.Evaluate` | scripts/query-index-gate/analyze.ts:454-492 | the findings by fate, in order, and exactly the rules that are the first to explain none, each once and in their order |
| `LogText.FeedChunks` | scripts/query-index-gate/seqscan-filter.ts:189-210 | however the input is chunked, the filter sees the lines of the whole text |
| `LogText.LinesJoin` | scripts/query-index-gate/seqscan-filter.ts:189-210 | those lines, each ended by a newline but perhaps the last, are the text |
| `LogText.ParseWritten` | scripts/query-index-gate/analyze.ts:65-82 | parsing the written log gives back the holder, the statement and the lines of every entry, in order |
| `LogText.TagNames` | scripts/query-index-gate/analyze.ts:62-72 | a tag line names the holder that was written into it |
| `GateLog.GateSound` | scripts/query-index-gate/analyze.ts:134-180 | the gate's judgement, built on the normalised filter and the catalogs, reports no scan without a filter or with an Index Cond |
| `GateLog.JudgeIff` | scripts/query-index-gate/analyze.ts:157-180 | a scan is reported exactly when it has no Index Cond, is of no system relation, has a term of its own that is no liveness test, and is no index walk that another index could have spared |
| `GateLog.JudgeSays` | scripts/query-index-gate/analyze.ts:171-179 | what is reported of a scan: holder, relation, key, kind of statement and scan, and up to 200 characters of the statement |
| `GateLog.LogRead` | scripts/query-index-gate/analyze.ts:65-82 | the findings parsed from the text of a log are those of its entries |
| `GateLog.WriteLog` | scripts/query-index-gate/seqscan-filter.ts:178-211 | from the chunks of a server log, the text of its kept entries |
| `GateLog.EntriesAre` | scripts/query-index-gate/seqscan-filter.ts:74-98 | the entries of a server log are the segments of its lines, the end of the text closing the last one |
| `GateLog.GateSeesEverything` | scripts/query-index-gate/analyze.ts:434-451 | end to end: the distinct findings parsed from the text the filter writes are those of the entries of the server log, same samples, same order |
| `GateLog.GateReportsIff` | scripts/query-index-gate/analyze.ts:434-451 | from the text the filter writes exactly those keys are reported that some scan of the server log is judged to be |
| `FilterText.ClosingParen` | scripts/query-index-gate/analyze.ts:384-394 | the loop's index, or -1 |
| `FilterText.ClosingMatches` | scripts/query-index-gate/analyze.ts:384-394 | that index is the matching parenthesis: the first prefix of depth 0; none exists when there is no index |
| `FilterText.UnwrapLoop` | scripts/query-index-gate/analyze.ts:359-363 | the loop terminates with the unwrapped text |
| `FilterText.UnwrapLayers` | scripts/query-index-gate/analyze.ts:359-363 | only pairs that enclose the whole text go, and none such is left |
| `FilterText.UnwrapIdempotent` | scripts/query-index-gate/analyze.ts:359-363 | unwrapping twice is unwrapping once |
| `FilterText.UnwrapBalanced` | scripts/query-index-gate/analyze.ts:359-363 | balanced text stays balanced |
| `FilterText.SplitTopLoop` | scripts/query-index-gate/analyze.ts:366-382 | the loop's pieces, trimmed, empty ones dropped |
| `FilterText.PiecesJoin` | scripts/query-index-gate/analyze.ts:366-382 | joined by the separator, the pieces are the text again |
| `FilterText.SplitTopStructure` | scripts/query-index-gate/analyze.ts:366-382 | on balanced text every term is trimmed, balanced and undivided at depth 0 |
| `FilterKey.LexWritten` | scripts/query-index-gate/analyze.ts:305-323 | the literal pattern finds exactly the literals a filter was written with, neighbouring ones as one |
| `FilterKey.SameTerms` | scripts/query-index-gate/analyze.ts:238-245 | filters that differ in literal values split into the same terms: no AND inside a literal ever splits one |
| `FilterKey.SameKey` | scripts/query-index-gate/analyze.ts:231-258 | without policy terms, such filters have the same grouping key, unless a term of one has alternatives that all show a session setting while the term does not |
| `KeyTerms.KeySplits` | scripts/query-index-gate/analyze.ts:255-257 | a key split at its top-level ANDs and unwrapped gives back the terms it was made of, in order |
| `KeyTerms.KeyReads` | scripts/query-index-gate/analyze.ts:238-258 | a key is empty exactly when the filter is blank or each of its own terms (those that read a column, no session setting and are no policy) is a liveness test; otherwise it splits into all own terms, in order, up to enclosing parentheses |
| `KeyTerms.SameKeySameTerms` | scripts/query-index-gate/analyze.ts:238-258 | filters with the same non-empty key have the same own terms, up to enclosing parentheses |
| `TidyTerms.TidyShows` | scripts/query-index-gate/analyze.ts:293-303 | a term that has nothing left to tidy reads a session setting if its alternatives all do |
| `TidyTerms.SameKeyTidy` | scripts/query-index-gate/analyze.ts:231-258 | so without policy terms, and with nothing left to tidy in their terms, filters that differ in literal values have the same key |
| `FilterKey.CollectPolicyTerms` | scripts/query-index-gate/analyze.ts:283-291 | each policy whole and each of its AND terms, unwrapped |
| `FilterKey.PolicyVanishes` | scripts/query-index-gate/analyze.ts:238-258 | a filter that is one of the relation's policies has an empty key |
| `FilterKey.SameLiterals` | scripts/query-index-gate/analyze.ts:359-363 | texts that agree once unwrapped hold the same literals to the letter |
| `FilterKey.DroppedIff` | scripts/query-index-gate/analyze.ts:293-303 | a term is dropped as policy exactly when it, or each of its alternatives, is a policy's text with the same literal values, or reads a session setting |
| `PolicyTerms.AlternativesIff` | scripts/query-index-gate/analyze.ts:293-303 | the alternatives the code judges are the term's own exactly when unwrapping with the literals in place strips no pair too much |
| `PolicyTerms.RecognisedIff` | scripts/query-index-gate/analyze.ts:293-303 | a term whose alternatives are each policy or read a setting is recognised exactly when no pair is stripped too much, it is known whole, or the text left between the wrong parentheses splits into known texts |
| `PolicyTerms.RecognisedFlatIff` | scripts/query-index-gate/analyze.ts:293-303 | the last of these never happens when no OR stands inside parentheses of the term |
| `HiddenPolicy.PolicyKept` | scripts/query-index-gate/analyze.ts:238-258 | the family of filters, all their alternatives being policies, whose term is kept and whose key is not empty |
| `ShardBound.Conserved` | scripts/coverage-check.ts:164-168 | the loads of a split add up to all sizes |
| `ShardBound.Balanced` | scripts/coverage-check.ts:164-168 | any two shards differ by at most the largest file |
| `ShardBound.WithinTwo` | scripts/coverage-check.ts:159-168 | in any order, the heaviest of n shards is within 2 − 1/n of the heaviest of any other split |
| `ShardBound.WithinFourThirds` | scripts/coverage-check.ts:159-168 | largest first, it is within 4/3 − 1/(3n) |
| `ShardBound.NoneEmpty` | scripts/coverage-check.ts:164-168 | with n files of positive size, every shard gets one |
| `Sharding.FindLightest` | scripts/coverage-check.ts:165-166 | the first of the lightest shards |
| `Sharding.ShardFiles` | scripts/coverage-check.ts:153-171 | the method over the load array returns the share of that shard |
| `Sharding.ShardsPartition` | scripts/coverage-check.ts:147-152 | every file is in exactly one shard |
| `Sharding.ShardsIgnoreOrder` | scripts/coverage-check.ts:161-163 | the split does not depend on the order of the files |
| `Sharding.ShardsNearBest` | scripts/coverage-check.ts:147-152 | the shards a run computes meet the 4/3 − 1/(3n) bound |
| `Sharding.NoShardEmpty` | scripts/coverage-check.ts:153-171 | no shard is empty with positive sizes and at least as many files as shards |
| `Coverage.MergeReport` | scripts/coverage-check.ts:106-123 | one report adds its lines, and marks those hit, to what was merged |
| `Coverage.CountLines` | scripts/coverage-check.ts:124-129 | the counters are the sizes of the sets of lines found and hit |
| `Coverage.MergeLcov` | scripts/coverage-check.ts:104-134 | the sizes of the unions over all reports; refused exactly when no line was found |
| `CoverageSpots.MergedIff` | scripts/coverage-check.ts:97-123 | a line is found exactly when some report has a DA line for it within a record of its file, and hit exactly when such a line of any report says so |
| `Coverage.LoadOps` | scripts/coverage-check.ts:178-185 | exactly the names that some line holds, trimmed, blank ones left out |
| `Text.TrimIs` | scripts/coverage-check.ts:181 | trimming takes the text between its first and its last character that is no white space |
| `Coverage.GateMerged` | scripts/coverage-check.ts:504-521 | refuses exactly when no shard directory is there, one of those there lacks its data, or there is no line data at all; otherwise the pooled counts and operations of the directories there |
| `CoverageSpots.ReportsMembers` | scripts/coverage-check.ts:504-520 | the reports merged and the operations executed are exactly those the shards left |
| `CoverageGate.AcceptedIff` | scripts/coverage-check.ts:504-521 | whichever shards are there, the merge is accepted exactly when there is one, none of them was left without a file of a tier, and some unit test file of theirs has line data |
| `CoverageGate.NeverRefuses` | scripts/coverage-check.ts:504-521 | which holds with positive sizes, at least as many files as shards and some line data |
| `CoverageGate.ShardingInvisible` | scripts/coverage-check.ts:97-134 | with every shard there, lines found, lines hit and operations of any number of shards are those of all files in one run |
| `CoverageGate.MergeMeasures` | scripts/coverage-check.ts:504-521 | whichever shards are there, the merge measures exactly what their files contribute |
| `CoverageGate.MissingShardsIff` | scripts/coverage-check.ts:499-520 | a merge from which shards are missing measures what one run would exactly when all that their files contribute is contributed by the others, for lines found, lines hit and operations each |
| `CoverageGate.MissingShardAccepted` | scripts/coverage-check.ts:499-520 | the family of runs, with enough files of positive size, whose merge is accepted and lacks lines of a missing shard |
| `Closure.ResolvePackage` | scripts/service-image.ts:211-241 | the upward walk: own modules, then each parent's; found in between is refused |
| `ClosureReach.ResolveIs` | scripts/service-image.ts:211-241 | a name resolves to the package at the nearest level that has it: staged inside its importer when found there, at the top when found at the root, refused between; missing when no level has it |
| `Closure.ImageDetermines` | scripts/service-image.ts:204-210 | an image directory determines the source directory |
| `Closure.Requests` | scripts/service-image.ts:180-193 | what a package adds to the queue: its dependencies and the installed optional ones that run on this libc |
| `Closure.RuntimeClosure` | scripts/service-image.ts:156-196 | the worklist terminates with the least set closed under what is followed, each image directory once, and fails exactly when every closed set holds something unresolved or refused |
| `Closure.ClosedExists` | scripts/service-image.ts:156-196 | there is a closed set: all packages that can be staged |
| `Closure.FailsIff` | scripts/service-image.ts:156-196 | the packages that every closed set holds are closed, and the build fails exactly when one of them needs what it cannot have |
| `ClosureReach.StagedIff` | scripts/service-image.ts:156-196 | the packages staged are exactly those reached from a root over dependencies and installed optional ones for this C library |
| `ClosureReach.FailsReached` | scripts/service-image.ts:156-196 | the build fails exactly when a root does not resolve, or a package so reached has a dependency that does not or an optional one that is refused |
| `ImageLayout.ResolutionPreserved` | scripts/service-image.ts:204-241 | for every staged package and all it resolves on disk, the walk in the image finds exactly the staged copy |
| `ImageLayout.RootsPreserved` | scripts/service-image.ts:156-177 | the app itself finds every run-time package |
| `ImageLayout.ParentStaged` | scripts/service-image.ts:222-233 | a nested package is staged inside a staged one |
| `Semver.CompareTotal` | packages/provisioning/src/release-manifest.ts:82-109 | the comparison is a total order on versions |
| `Semver.OlderIff` | packages/provisioning/src/release-manifest.ts:82-109 | the numbers decide from the left; then a pre-release is older than its release, and two go by the first identifier that differs, numeric ones by value and below the others, or by length |
| `Semver.SemverGtStable` | scripts/release.ts:179-204 | against a stable version the cut's own comparison is that order |
| `Semver.BumpIsLeast` | scripts/release.ts:373-387 | a bump is the lowest stable version above the one it starts from by a step of its kind |
| `ReleaseHistory.PreviousStableIs` | scripts/release-checks.ts:260-270 | the newest stable tag older than a version, or none |
| `ReleaseCut.CutRefusedIff` | scripts/release-checks.ts:456-485 | a cut is refused exactly when no stable tag is there, a tag is at or above its version, or, against the newest stable tag, a contract migration is new and not acknowledged, a new numbered file sorts below a shipped one, the infra contract falls, or its files change while it stays and nobody acknowledged that |
| `ReleaseCut.CutTags` | scripts/release-checks.ts:350-367 | an accepted cut tags what was asked for, and declares itself as the last contract release exactly when it adds a contract migration, otherwise what the newest stable tag declares |
| `ReleaseCut.DeclaredIs` | scripts/release-checks.ts:350-367 | over every history of accepted cuts, a declared contract release is a tag that adds a contract migration, or the last one before manifests |
| `ReleaseHistory.Increasing` | scripts/release.ts:516-530 | over every history of accepted cuts, versions strictly increase; that migrations only grow is what a cut from main is |
| `ReleaseHistory.SkippedContractCaught` | scripts/release-checks.ts:350-367 | a release whose lastContractVersion is not newer than an earlier one added no contract migration since it, pre-releases on either side included |
| `ReleaseHistory.AutoInstallSafe` | packages/provisioning/src/release-manifest.ts:350-383 | so an unattended upgrade never runs a contract migration |
| `ReleaseCut.AutoInstallIff` | packages/provisioning/src/release-manifest.ts:350-383 | on a stable release from v0.10.42 on, a later one runs unattended exactly when the installed one is new enough for it, the infra contract does not rise and no contract migration was added in between: nothing safe is held back either |
| `ReleaseHistory.InfraNeverDown` | scripts/release-checks.ts:383-430 | the infra contract never goes down from a stable release to a later one |
| `ReleaseHistory.BumpRefusedIff` | scripts/release-checks.ts:286-302 | a bump is refused exactly when a pre-release at or above it is tagged |
| `ReleaseHistory.PreReleaseBlocksBump` | scripts/release-checks.ts:286-302 | the family of reachable histories, and pre-releases that may be cut after them, that leave the newest stable tag and make the cut of the bump refused |
| `MigrationOrder.OutOfOrderMigrations` | scripts/migration-lint.ts:253-267 | the loop reports, per database, the added files below the shipped head, each with that head |
| `MigrationOrder.NumberedIff` | scripts/migration-lint.ts:257 | a numbered file has four digits other than 9999, an underscore, a name and ".sql" |
| `MigrationOrder.ReportIs` | scripts/migration-lint.ts:253-267 | for a database, exactly the added numbered files below the newest numbered shipped one, in order, each with that one |
| `MigrationOrder.ReportNext` | scripts/migration-lint.ts:253-267 | database by database, in their order |
| `MigrationOrder.ReportExact` | scripts/migration-lint.ts:245-267 | nothing is reported exactly when an upgrade applies the migrations in a fresh install's order |
| `MigrationOrder.EveryInstallInOrder` | scripts/migration-lint.ts:245-267 | in a chain where each release is checked against the one before, an install stopping at any of them applies migrations in that order |
| `UpgradeOrder.InstallInOrderIff` | scripts/migration-lint.ts:245-267 | an install stopping at any tags, pre-releases included, does exactly when each of its hops is in order |
| `UpgradeOrder.StableInstallsInOrder` | scripts/release-checks.ts:469-476 | over every history of accepted cuts, an install that follows stable releases does |
| `UpgradeOrder.PreReleaseStopsReorder` | scripts/migration-lint.ts:269-296 | the family of accepted pairs of cuts, a pre-release and the next stable release, after which an install that stops at the first does not, and one that skips it does |
| `SqlScanner.ClosingQuote` | scripts/migration-lint.ts:75-84 | the quote that closes a literal, or the last character |
| `SqlScanner.Step` | scripts/migration-lint.ts:100-126 | a round of the loop reads and writes the next token and always advances |
| `SqlScanner.StripCommentsAndStrings` | scripts/migration-lint.ts:95-128 | the text written for the tokens of the prepared input |
| `SqlScanner.PreparedIs` | scripts/migration-lint.ts:96 | every breakpoint, from the left, is scanned as the end of a statement, and nothing else is changed |
| `SqlScanner.TagIs` | scripts/migration-lint.ts:103-104 | a dollar tag is two dollars with nothing or a name between, of at most 64 characters |
| `SqlScanner.BodyIs` | scripts/migration-lint.ts:104-109 | the body that is open is the one that a dollar tag outside every body has opened, until the same tag comes again; other tags in it change nothing |
| `SqlScanner.StrippedAt` | scripts/migration-lint.ts:95-128 | for every token, in its place: a literal is kept exactly when such a tag before it has a body open, otherwise blanked; identifiers and other characters as read, the rest a space |
| `SqlScanner.TokensJoin` | scripts/migration-lint.ts:95-128 | the tokens are the input, in order, none empty |
| `SqlScanner.FitsIff` | scripts/migration-lint.ts:100-126 | what a token must look like, and be followed by, for the scan to read it |
| `SqlScanner.TokenFits` | scripts/migration-lint.ts:86-94 | every token of every scan fits: literals in bodies and identifiers are written as read, literals outside bodies blanked, comments a space |
| `SqlScanner.ScanAlike` | scripts/migration-lint.ts:86-94 | replacing the contents of any comments and of any literals outside bodies changes no other token |
| `SqlScanner.ContentsInvisible` | scripts/migration-lint.ts:86-94 | and leaves the stripped text unchanged |
| `SqlScanner.DoubledQuoted` | scripts/migration-lint.ts:74-84 | any value, its quotes doubled, is such a content |
| `SqlScanner.QuotedHolds` | scripts/migration-lint.ts:74-84 | and every closed literal holds such a value |
| `SqlScanner.BlockContents` | scripts/migration-lint.ts:114-117 | any text without the closing mark is the content of a block comment |
| `Licence.Parser.Or` | scripts/license-check.ts:135-142 | the loop over alternatives, position and result |
| `Licence.Parser.AndTerms` | scripts/license-check.ts:143-150 | the loop over operands, position and result |
| `Licence.Parser.Atom` | scripts/license-check.ts:151-164 | an id, an id with an exception, or a bracketed expression |
| `Licence.SatisfiesAllowList` | scripts/license-check.ts:131-172 | terminates on every text, never throws, and answers what the tokens satisfy |
| `Licence.IdSatisfiedIff` | scripts/license-check.ts:125-166 | a single id is satisfied exactly when it is a listed name marked as guessed, or listed and not so marked |
| `Licence.SatisfiedNames` | scripts/license-check.ts:125-172 | what is satisfied holds an id so listed, and nothing satisfies an empty list |
| `Licence.SatisfiesIff` | scripts/license-check.ts:125-172 | true exactly when the whole token list derives from the grammar and its tree is true, exceptions being false |
| `Licence.TreeDecides` | scripts/license-check.ts:135-164 | every tree of an expression has the value the evaluator finds |
| `Licence.ShownMeans` | scripts/license-check.ts:125-172 | the evaluator inverts a printer that brackets by precedence |
| `Licence.Monotone` | scripts/license-check.ts:125-172 | allowing more licences never refuses what was satisfied |
| `Licence.TokenizeWritten` | scripts/license-check.ts:113-123 | tokens written out are read back however they are spaced, brackets needing no space |
| `Licence.TokenizeLed` | scripts/license-check.ts:113-123 | so they are behind white space |
| `Licence.EvaluateLicenses` | scripts/license-check.ts:204-241 | how many packages were examined, and the failures in order |
| `Licence.ListedInOrder` | scripts/license-check.ts:204-241 | the report in order: too small a scan, every package neither satisfied nor covered by an exception of its licence, name and version, where it stands, and every exception that is the first for no package |
| `Licence.ListedAre` | scripts/license-check.ts:196-203 | the report lists every failure there is and no other: too few packages, a package neither allowed nor excepted, an exception nothing uses |
| `Fences.FenceReadBack` | scripts/docs-sync-prompt.ts:33-42 | whatever the text, its fenced block is read back as the text, and what follows is outside it |
| `Fences.NeverCloses` | scripts/docs-sync-prompt.ts:33-37 | no line with shorter backtick runs closes the fence |
| `Fences.LongestIs` | scripts/docs-sync-prompt.ts:38-41 | the fence is measured against the longest run of backticks |
| `Messages.BuildReleaseMessages` | scripts/docs-sync-prompt.ts:88-133 | the messages are a greedy packing of the blocks, the closing text only at the end of the last; refused at the first block that fails the guard |
| `Messages.AllBlocksOnce` | scripts/docs-sync-prompt.ts:117-132 | the first message is the head, a later one opens with its number; then a body, and the closing text when it is the last; the bodies together are every block once, in order |
| `Messages.HeadTells` | scripts/docs-sync-prompt.ts:63-70 | the lines before a change's text tell its number, title and address |
| `MessageText.MessagesReadBack` | scripts/docs-sync-prompt.ts:63-71 | the fenced blocks, of backticks or tildes, that a reader finds in each whole message are exactly its changes' texts, in order, after the release notes in the first |
| `MessageText.HeadReads` | scripts/docs-sync-prompt.ts:94-104 | a head with the release notes fenced reads as those notes, and leaves nothing open |
| `Messages.AllFitIff` | scripts/docs-sync-prompt.ts:117-132 | no message is too long exactly when the head is not and the last, if it is the hundredth or later and holds one block, has room for the closing text; none between ever is |
| `Messages.AllFitIf` | scripts/docs-sync-prompt.ts:117-132 | so all fit when the head does and the last block has room beside the closing text behind the highest number a message can have, which is known before packing |
| `Messages.SizeBound` | scripts/docs-sync-prompt.ts:23-24 | so with at most 99 messages all fit exactly when the head does |
| `Messages.HundredthTooLong` | scripts/docs-sync-prompt.ts:121-125 | the family of runs whose hundredth message is one character too long |
| `Messages.FewestMessages` | scripts/docs-sync-prompt.ts:80-82 | no split in order, with the same room kept, uses fewer messages |
| `Catalog.CompareVersions` | scripts/refresh-model-catalog.ts:65-74 | the first differing component, a missing one as -1 |
| `Catalog.KeyRun` | scripts/refresh-model-catalog.ts:60-62 | a run of digits of an id is one component of its key, by value |
| `Catalog.CompareMeans` | scripts/refresh-model-catalog.ts:60-74 | the first difference decides, a proper extension is newer, only equal keys tie |
| `Catalog.ComparePreorder` | scripts/refresh-model-catalog.ts:65-74 | the comparison is a total preorder |
| `Catalog.WithAliases` | scripts/refresh-model-catalog.ts:94-105 | the listed models and each missing alias once |
| `CatalogReport.AddedAre` | scripts/refresh-model-catalog.ts:94-105 | the models added are one for each alias that is not listed, with the title of its first snapshot, in order |
| `Catalog.ChoicesServed` | scripts/refresh-model-catalog.ts:88-120 | slots choose among exactly the undated ids the provider lists or lists a dated snapshot of |
| `Catalog.NewestIs` | scripts/refresh-model-catalog.ts:76-80 | the pick matches and nothing that matches is newer; none when nothing matches |
| `CatalogReport.NewestFirst` | scripts/refresh-model-catalog.ts:76-80 | of the newest matches the first is picked |
| `Catalog.RefreshCatalog` | scripts/refresh-model-catalog.ts:107-141 | the new catalog, the changes and the unmatched slots |
| `CatalogReport.RefreshKeeps` | scripts/refresh-model-catalog.ts:107-141 | nothing changes but the id and title of slots of listed providers, to a model their slots can choose |
| `CatalogReport.ChangesAre` | scripts/refresh-model-catalog.ts:128-134 | the changes reported are one for every slot that holds another id afterwards, provider by provider and slot by slot, naming the old id and the new one |
| `CatalogReport.UnmatchedAre` | scripts/refresh-model-catalog.ts:122-125 | the slots reported as unmatched are exactly those whose pattern matches no id their provider serves, in order |
| `Catalog.MovedIsNewest` | scripts/refresh-model-catalog.ts:82-87 | a matched slot ends at a served id than which no served match is newer |
| `Catalog.ServedOnlyMovesUp` | scripts/refresh-model-catalog.ts:126-128 | a slot whose undated id is still served moves only to a newer version |
| `Catalog.ListedMovesUpIff` | scripts/refresh-model-catalog.ts:82-87 | a slot whose id the provider lists does exactly when that id is undated, nothing matches, or the match is newer |
| `Catalog.SnapshotMovesDown` | scripts/refresh-model-catalog.ts:118-128 | the family of slots on a listed snapshot that move to its alias, an older version |
| `Catalog.DatedAlwaysMoves` | scripts/refresh-model-catalog.ts:118-128 | a slot with a dated id moves to the newest match, whether its id is listed or not |
| `Catalog.UnmatchedStays` | scripts/refresh-model-catalog.ts:122-125 | a slot without a match stays |
| `Catalog.UnmatchedReported` | scripts/refresh-model-catalog.ts:122-125 | and is reported |
| `Catalog.FixedPoint` | scripts/refresh-model-catalog.ts:107-141 | a second refresh changes nothing and reports no change |

## Left out

- All input and output: git, npm, docker, the network, files, exit codes, reports and error wording; the main functions except the chunk loop, the shard and merge flow and the cut.
- Regular expressions of plan lines, catalog patterns, exception names and allowlist globs are facts of the record or predicates given as parameters; the pattern for string literals, the dollar tag, the dated-id suffix and the tokenizers are modelled character by character.
- White space is space, tab, line feed and carriage return, not all of Unicode's.
- SameKey: the rewriting rules (casts, blanks, own qualifier, numbers, parameters) are functions given as parameters, of which `clean` only removes text or turns it into blanks; the liveness and column tests are parameters too. The hypothesis is about the terms of the two filters alone; `TidyTerms.SameKeyTidy` replaces it by one that shows at a glance, that tidying these terms again changes nothing, and by the fact about the setting test that a call is found wherever it stands in a text.
- RecognisedIff: for terms that have nothing left to tidy; AlternativesIff has no such condition.
- AllFitIff: here and in AllFitIf the closing text is at least as long as the number of messages has digits beyond two, as any real one is.
- CutInvisible: has the condition on the tail that the exact statement CutInvisibleIff shows to be needed.
- KeyReads: for own terms that are balanced, none of which an AND divides once it is unwrapped; SameKeySameTerms asks only for balance.
- KeptAre: no scan line is blank. AutoInstallIff: on releases before v0.10.42 an upgrade can be held back for want of a declaration.
- ResolveIs: from directories within the repository root.
- FilteringIsInvisible: the judgement of one scan is a parameter; `GateLog` builds it from the normalised filter, the policies and the catalog's columns, which are parameters there, as are the classification of a line's text and the statement patterns.
- GateSeesEverything: for logs of which no line of a plan looks like an end line and in which every line, the mark of a cut included, is read as what its text says. As in FilteringIsInvisible the entries are well-formed: the statement starts in the head, and the tail in no node whose own line is cut.
- DistinctFindings: the final sort of the findings by locale is not modelled.
- ShardFiles: the tie order on paths is by character code, not by locale.
- RuntimeClosure: returns the packages by image directory, without the final sort; a scoped package name is one path component, and symbolic links are possible only directly in the root's modules.
- MergeLcov: counts are exact; the rounded percentage and the reading of LF/LH totals are not modelled.
- CompareVersions: numbers are unbounded, without the loss of precision past 2^53.
- Increasing: that migrations are only ever added is part of what a cut from main is, not derived.
- SkippedContractCaught: of the release checks, those that bear on versions, contract migrations and the infra contract are modelled; owner actions and advisories are not. Main is assumed to only ever gain migrations.
- BuildReleaseMessages: the fixed texts are parameters; the opening of a later message is any text around its number.
- MessagesReadBack: the fixed texts open no fence but the head's; titles and addresses are one line each, and an address opens no fence.
- `semverGt` between two pre-releases, where it compares text: no cut compares two.
- StableInstallsInOrder: for hops from tags that carry no unchecked stable release after them; what tags before the checks shipped is taken as it is.
- FenceReadBack: lines end at line feeds.
- `closureProblems`, `contentProblems` and the lint rules' own patterns: a reading of the code settles them.
- `computeOpCoveragePct`, `evaluateTier`, `buildSeedMessages`: easy members only.
