# Dependency resolution and vulnerability matching, modelled and proved

The program scans a source tree, works out which dependency versions it really holds, matches them
against several advisory sources and files every finding where it belongs. This project models that
engine in Dafny and proves what its parts promise, for all inputs, all runs and all interleavings.
`dafny verify dfyconfig.toml` checks everything.

Code that changes things step by step is modelled as methods with loops and as classes whose fields
the methods update; each is proved against a specification function or relation, and what the
program promises is proved about that. Files, network replies, text collation, case folding and
interpolation are parameters.

## The files

- **Versions.** `MavenVersion`, `MavenParse` and `MavenRules` hold the comparison and the rules it is
  documented to follow; `MavenText` says what they come to on version texts. `MavenOrder` finds the
  exact set of versions on which it is an order, `MavenSpelling` does so on texts, `MavenDensity` finds a version between any two of them, and
  `MavenRanges` carries that set over to the code that ranks. `VersionRange` reads Maven ranges.
- **Advisory ranges.** `OsvRange`, `OsvBranchFix`, `CveWindows` and `BranchFix` evaluate events,
  timelines and windows, and select fixes. `OsvIndex` matches through the local index. `OsvMeaning`
  says what a range and a match mean with the version comparison alone.
- **POMs and modules.** `PomInheritance`, `PomInheritanceLaws`, `PomCycles`, `PomPrecedence` and
  `PomResolver` are the memoised inheritance recursion, when it ends and what it means, what a cycle
  is, which value wins, and the same on shared objects. `MavenModule` is one module's parent chain,
  managed versions and direct dependencies, and which POM manages each. `MavenReactor`, `DepRecord`
  and `ReactorRebuild` rebuild the shared records from what the modules hold.
- **Findings.** `Collection`, `Attribution` and `Pipeline` collect records, match and attribute
  them; `ScanSetMeaning` says what a record holds of the lines of the POMs. `MergeSources` merges the
  findings of all sources. `RequireWalk` and `Applications` find the component that answers for a
  Composer package, and `RelationMeaning` says what each relation rests on. `CpeMatch` and `CpeLaws`
  evaluate CPE configurations, and `CpeMeaning` says which dependencies and versions they cover.
- **Concurrency and algorithms.** `ParallelWalk` and `CertFr` are the directory walker and the
  worker pool as transition systems and as classes. `EditDistance` and `Typosquat` are the distance
  table and its use.
- `Basics` and `Orders` are shared vocabulary.

## What turned out to need a condition

Each of these is kept as the code has it, with a lemma giving an input and, where one exists, the
exact condition.

- The Maven comparison is not transitive on all versions (`MavenOrder.NotTransitiveInGeneral`,
  `MavenSpelling.TextsNotTransitive`); it is exactly on the orderly ones (`MavenOrder.OrderlyIsExact`,
  `MavenSpelling.OrderlyTextIsExact`). The consequence for fixes is exact too
  (`MavenRanges.SafeIffOrderly`, `MavenRanges.TextSafeIffOrderly`). Theorems that need an order of
  versions therefore ask for one on the versions in play only, and orderly versions provide it
  (`MavenRanges.OrderlyTextsRank`, and for instance `Pipeline.MavenFindingsFromPoms`).
- Expanding a timeline preserves meaning exactly when the periods it calls affected stay inside the
  entry's own bounds (`CveWindows.InsideBoundsIsExact`; `CveWindows.WronglyAccepted` gives the version).
  On orderly versions that is read off the bounds and changes (`Pipeline.MavenExpansionIsExact`).
- The POM recursion ends exactly when no import cycle is reachable
  (`PomInheritanceLaws.EndsIffNoImportCycle`, `PomCycles.EndsIffNoneImportsItself`); a POM importing
  itself is the smallest input (`PomCycles.SelfImportNeverEnds`).
- The directory walk hangs when its concurrency is zero (`ParallelWalk.NeverStuckIffConcurrent`).
- Findings without a primary id that share no id overwrite one another
  (`MergeSources.NamelessFindingsOverwrite`), although the comment at lib/merge-sources.js:54-56 says
  records are folded rather than overwritten. Everything else is conserved
  (`MergeSources.MergeBySource`). Where every GHSA is also an alias, something is lost exactly when two
  such findings, neither sharing an id with what comes before it, meet at one coordinate and version
  (`MergeSources.LostIffTwoStrangers`); where findings without a primary id carry no id at all, exactly
  when two of them meet (`MergeSources.LostIffTwoNameless`). For other ids the lost ones are bounded
  from both sides.
- With one id for two applications an occurrence can be of unknown origin although a component answers
  for it (`Applications.SharedIdGetsBoth`); `Applications.UnknownIffLeftUnclaimed` says exactly when.
- A failure-free refresh leaves nothing stale exactly when no reference is listed at two dates
  (`CertFr.RefreshSettles`).
- A hit that stands only in a nested CPE node is lost (`CpeLaws.NestedHitIsLost`), although the comment
  at lib/cpe.js:122-129 counts it as a real hit. `CpeLaws.LostIffNested` says exactly when for a
  configuration and `CpeLaws.RecordLostIffNested` for a record; `CpeLaws.ContextNestingCounts` says that
  nested platform nodes do no harm.
- The comment at lib/attribution.js:95-99 calls a version dev when all its declarations are test or
  provided; the code also accepts a scope spelled `dev`, and for Maven it narrows the dev flag but
  not the scope. The model follows the code.

## Model

| member | source | states |
|---|---|---|
| `MavenVersion.MarkZeroTail` | lib/maven-version.js:114-124 | one backward pass over the array flags exactly the zeros that no non-zero number follows, and changes nothing else |
| `MavenVersion.CompareMavenVersions` | lib/maven-version.js:126-135 | the in-place loop over two segment arrays decides by the first position where the flagged segments differ, missing ones included |
| `MavenVersion.CompareAntisymmetric` | lib/maven-version.js:126-135 | for all versions: swapping the arguments negates the result, and every version equals itself |
| `MavenVersion.TrailingZeroInvisible` | lib/maven-version.js:78-135 | for all versions: appending a zero segment changes no comparison against any other version, on either side |
| `MavenParse.ParseAppendZero` | lib/maven-version.js:28-51 | appending `.0` to any version text appends exactly one zero segment to what it parses to |
| `MavenText.NumbersAsTexts` | lib/maven-version.js:28-135 | written in decimal, any two numbers compare as numbers, at the start of a version or behind the same text up to a separator |
| `MavenText.NumbersDecideTexts` | lib/maven-version.js:28-135 | and the greater one decides whatever follows either |
| `MavenText.TenIsNewerThanNine` | lib/maven-version.js:28-135 | so 1.10 is newer than 1.9 |
| `MavenText.DotBeatsDashTexts` | lib/maven-version.js:28-135 | behind the same text, a number after a dot is newer than any number after a dash, zero aside |
| `MavenText.NumberBeatsWordTexts` | lib/maven-version.js:28-135 | a number, zero aside, is newer than any qualifier in its place |
| `MavenText.LadderTexts` | lib/maven-version.js:18-26 | on texts: alpha < beta < milestone < rc < snapshot behind every version |
| `MavenText.ShortWordsTie` | lib/maven-version.js:18-26 | a, b, m and cr tie with their words, and ga, final and release with one another |
| `MavenText.UnknownTexts` | lib/maven-version.js:28-69 | any other text read as one qualifier is newer than the known ones, and the collation orders it among its like |
| `MavenText.WordAgainstReleaseTexts` | lib/maven-version.js:78-90 | against the bare version: what the ladder names is older, the release words tie, anything else is newer |
| `MavenText.EmptyIsRelease` | lib/maven-version.js:28-90 | an item left empty stands for the release: newer than what the ladder names, older than any other word, whatever follows it |
| `MavenText.NumberedTexts` | lib/maven-version.js:41-47 | rc2 and rc10 compare by their numbers, and rc stands before rc1 and ties with rc0 |
| `MavenText.CaseNeverMatters` | lib/maven-version.js:28-35 | 1.0.Final is 1.0.final: texts that differ in case only compare alike with everything |
| `MavenText.PaddingNeverMatters` | lib/maven-version.js:28-32 | white space around a version changes no comparison |
| `MavenText.DigitLetterIsDash` | lib/maven-version.js:37-43 | 1.0a1 is 1.0-a1: a letter behind a number may have a dash put before it |
| `MavenParse.AppendedZeroInvisible` | lib/maven-version.js:28-135 | on texts: `.0` appended to either side is invisible to the comparison |
| `MavenRules.FirstDifferenceDecides` | lib/maven-version.js:91-135 | two versions with a common beginning are decided by the first segments that differ, whatever follows (NumbersDecide, DotBeatsDash and NumberBeatsQualifier read the three rules on numbers off it) |
| `MavenRules.QualifierAgainstRelease` | lib/maven-version.js:78-90 | a trailing qualifier stands before, at or after the bare release exactly as its rank does |
| `MavenRules.DocumentedOrder` | lib/maven-version.js:1-26 | alpha < beta < milestone < rc < snapshot < release < sp < any unknown word, after every beginning |
| `MavenRules.Synonyms` | lib/maven-version.js:18-26 | ga, final and release tie with the bare release on every version; a, b, m, cr share their word's rank |
| `MavenRules.UnknownWordsByText` | lib/maven-version.js:64-69 | two unknown words are ordered by the text collation |
| `MavenRules.NumberedQualifiers` | lib/maven-version.js:104-109 | rc < rc1 < rc2 for every qualifier and every beginning |
| `MavenOrder.OrderlyTransitive` | lib/maven-version.js:78-135 | the comparison is transitive on orderly versions: those where every zero that counts and every numbered release synonym has a counted number next |
| `MavenOrder.OrderlyIsExact` | lib/maven-version.js:78-135 | on segment lists, orderly is exactly what transitivity needs: a version chains consistently with all orderly versions if and only if it is orderly |
| `MavenOrder.CycleWith` | lib/maven-version.js:78-135 | every segment list that is not orderly stands in a cycle x < y <= z < x with two orderly ones |
| `MavenOrder.ConventionalIsOrderly` | lib/maven-version.js:28-135 | versions whose numbers all precede their qualifiers and whose release synonyms carry no number are orderly |
| `MavenOrder.NotTransitiveInGeneral` | lib/maven-version.js:111-135 | 1 < 1-jre < 1.0-rc-1 < 1: the comparison is no order on all versions |
| `MavenSpelling.TextsNotTransitive` | lib/maven-version.js:28-135 | the same of the texts: 1 < 1-jre < 1.0-rc-1 < 1 |
| `MavenOrder.OrderlyRanks` | lib/maven-version.js:126-135 | the comparison ranks orderly versions: antisymmetric and transitive on them |
| `MavenSpelling.OrderlyTextIsExact` | lib/maven-version.js:28-135 | the same on version texts, when the collation puts a word before the word with a letter behind it: a text compares consistently with all orderly texts if and only if it is orderly |
| `MavenSpelling.TextCycleWith` | lib/maven-version.js:28-135 | every text that is not orderly stands in a cycle with two orderly texts |
| `MavenSpelling.ReplaceTail` | lib/maven-version.js:28-51 | cutting a text between any two of its segments and putting others behind the cut is parsed as exactly the kept segments and the new ones |
| `MavenDensity.OrderlyTextsAreDense` | lib/maven-version.js:28-135 | between any two orderly version texts lies a third, and no blank one |
| `MavenRanges.SafeIffOrderly` | lib/maven-version.js:304-312 | on segment lists: meeting the stricter of two fixes is meeting both, for all orderly fixes, if and only if the version is orderly |
| `MavenRanges.TextSafeIffOrderly` | lib/commercial-support.js:30-36 | on version texts: the stricter of any two orderly fixes stands for both exactly when the version upgraded to is orderly |
| `MavenRanges.TextStrictestIsAll` | lib/commercial-support.js:30-69 | on orderly version texts, with the program's own comparison: a version meets the accumulated fix exactly when it meets every single one |
| `MavenRanges.UnorderlyIsUnsafe` | lib/commercial-support.js:30-36 | for every unorderly segment list there are two fixes of which it meets the stricter and misses the other |
| `MavenRanges.OrderlyTextsRank` | lib/maven-version.js:28-135 | the program's own text comparison ranks the texts of orderly versions, which is the premise of every theorem on ranges, timelines and shown versions |
| `MavenRanges.MavenEventsDecide` | lib/osv-db.js:105-141 | with the Maven comparison and events at orderly versions or 0, a range affects a version exactly as the greatest firing event says |
| `MavenRanges.MavenFixMatchesRange` | lib/maven-version.js:289-303 | on orderly version texts and the text 0: a fix is read from alternating events iff they say affected and the version's interval is closed, and it is the end of that interval |
| `MavenRanges.MavenTimelineSays` | lib/osv-db.js:105-148 | of version texts: a range whose events tell a timeline of orderly versions affects exactly the orderly versions in one of its stretches and below a limit, if limits are stated |
| `MavenRanges.VersionLikeTexts` | lib/maven-version.js:146-148 | a bound counts when it begins with a digit, white space aside, and is not the text 0 |
| `VersionRange.ParseVersionRange` | lib/maven-version.js:323-339 | the search over the text yields the intervals of all bracketed groups in order, or nothing as soon as one is malformed or the text is no range |
| `VersionRange.ParseOfWritten` | lib/maven-version.js:320-339 | every union of intervals is read back unchanged from any of its spellings: two bounds or a pinned version per group, white space around bounds and whole, any text without a bracket between the groups |
| `VersionRange.PlainRanges` | lib/maven-version.js:320-339 | the four kinds of brackets and the pinned version mean what they are documented to: square brackets include their bound |
| `VersionRange.OneBadGroup` | lib/maven-version.js:323-336 | a group with two commas, or a single version not in square brackets, or none, makes the whole text no range, wherever it stands |
| `VersionRange.NotBracketed` | lib/maven-version.js:320-324 | nor is a text one that does not begin and end with a bracket, white space aside, or has a line break inside |
| `VersionRange.EligibleWritten` | lib/maven-version.js:340-354 | of a written union the releases are eligible that one of its groups admits, a bound itself only behind a square bracket |
| `VersionRange.ResolveVersionRange` | lib/maven-version.js:340-354 | the result is a published release inside the range, and none only when there is none; no other such release is higher where the comparison ranks the published versions |
| `BranchFix.BranchFixFromRanges` | lib/maven-version.js:277-284 | the loop returns the first stated upper bound among the ranges that hold the version |
| `BranchFix.AffectedIffWithin` | lib/maven-version.js:150-180 | what a CVE range affects, for every combination of status and bounds, on the comparison alone |
| `BranchFix.VersionAlone` | lib/maven-version.js:173-178 | a range with a version and no upper bound of any kind affects the versions that tie with it and no other |
| `BranchFix.VersionOnwards` | lib/maven-version.js:173-178 | with a placeholder for an upper bound it affects everything from the version on |
| `BranchFix.Stretch` | lib/maven-version.js:157-172 | with real bounds it affects what is not below the version, below lessThan and not above lessThanOrEqual |
| `BranchFix.NothingNamed` | lib/maven-version.js:151-165 | without any usable bound, or with another status, it affects nothing |
| `BranchFix.FixIsAhead` | lib/maven-version.js:277-284 | a fix is found exactly when some range holding the version states its upper bound, and no version ever meets the fix computed for it |
| `BranchFix.FixOfTheFirst` | lib/maven-version.js:277-284 | it is that of the first such range: met from lessThan on, or, where that is no version, by what is past lessThanOrEqual |
| `BranchFix.StricterIsConjunction` | lib/maven-version.js:304-312 | where the comparison ranks the version and the two fixes, the version meets the stricter of them exactly when it meets both |
| `BranchFix.NeededFix` | lib/commercial-support.js:61-69 | the loop over findings returns the strictest fix of those on the covered coordinates, and counts them and those with a bound |
| `BranchFix.NeededFixSays` | lib/commercial-support.js:61-69 | the counts are those of the findings not ignored whose component is still at their version, each once, and the fixes are theirs |
| `BranchFix.StrictestIsAll` | lib/commercial-support.js:30-69 | where the comparison ranks them, a version meets the accumulated fix exactly when it meets every single one |
| `BranchFix.StrictestIgnoresOrder` | lib/commercial-support.js:61-69 | two accumulations over the same fixes in any order and multiplicity are met by the same of the versions the comparison ranks with them |
| `OsvRange.CmpVRanks` | lib/osv-db.js:111-116 | with `0` below everything, the version order of OSV events ranks `0` together with all that the comparison ranks |
| `OsvRange.ReadRange` | lib/osv-db.js:120-130 | limits and events are split as the source reads an event's fields: limit first, then introduced, fixed, last_affected |
| `OsvRange.WalkEvents` | lib/osv-db.js:132-141 | the state machine over sorted events ends in the state of the last event that fires on the version |
| `OsvRange.WalkDecides` | lib/osv-db.js:132-141 | where the comparison ranks the versions of the events, walking them sorted says affected exactly when the greatest event firing on the version is an introduction |
| `OsvRange.SaysAffectedReadsASet` | lib/osv-db.js:120-141 | the verdict depends only on which events there are, not on order or repetition |
| `OsvRange.RangeAffects` | lib/osv-db.js:117-141 | splitting, sorting and walking say what RangeSays defines: not a GIT range, below some limit when limits are given, and the walk of the sorted events |
| `OsvRange.RangeSaysByGreatest` | lib/osv-db.js:105-141 | where the events are ranked, that is: the greatest event firing on the version is an introduction |
| `OsvMeaning.TimelineSays` | lib/osv-db.js:105-141 | of events that tell a timeline, on the comparison and the text 0 alone: a version is affected iff, for some introduction at 0 or not above it, the next end is a fix above it or a last affected version not below it, and a limit lies ahead if any is stated |
| `OsvMeaning.ZeroIsTheBeginning` | lib/osv-db.js:111-116 | the version 0 itself is affected iff the timeline begins at 0 |
| `OsvMeaning.PairAtOneVersion` | lib/osv-db.js:117-141 | introduced and fixed at one version affects nothing, introduced and last affected there just that version, in either order |
| `OsvMeaning.FieldsInTurn` | lib/osv-db.js:123-130 | of an event's fields a limit hides the others, then introduced goes before fixed before last_affected |
| `OsvBranchFix.BranchFixFromOsvEvents` | lib/maven-version.js:289-303 | the loop over sorted events returns the end of the first closed interval that holds the version |
| `OsvBranchFix.BranchFixMatchesRange` | lib/maven-version.js:289-303 | on alternating events at distinct ranked versions: a fix is reported iff rangeAffects says affected and the version's interval is closed, and it is the end of that interval |
| `OsvMeaning.TimelineFix` | lib/maven-version.js:289-303 | from the events of a timeline in any order: inside a stretch that ends the fix is its end, in the fixed version or after the last affected one, and elsewhere there is none |
| `OsvBranchFix.IntervalAffects` | lib/osv-db.js:120-141 | a version inside one of the alternating intervals is affected |
| `OsvBranchFix.AffectedInInterval` | lib/osv-db.js:120-141 | an affected version lies inside one of the alternating intervals |
| `CveWindows.ExpandVersionChanges` | lib/cve-download.js:152-170 | the loop over sorted changes yields one window per affected period, and nothing without changes |
| `CveWindows.ExpansionPreservesMeaning` | lib/cve-download.js:152-170 | when live periods stay inside the entry's bounds, some window accepts a version iff it lies in the entry's range and the timeline says affected there; an entry whose version is 0 has no lower bound |
| `CveWindows.InsideBoundsIsExact` | lib/cve-download.js:152-170 | that condition is exact whatever the bounds and whatever versions there are, placeholders and lessThanOrEqual included: without it some version is wrongly accepted |
| `CveWindows.WronglyAccepted` | lib/cve-download.js:144-170 | a live period leaving the bounds always gives a concrete version that is accepted and not meant |
| `CveWindows.DenseMeansWithin` | lib/cve-download.js:144-170 | where between two versions lies a third, nothing lies between lessThanOrEqual and a change exactly when the change is not after the bound |
| `CveWindows.PlainlyInsideIsExact` | lib/cve-download.js:144-170 | there the exact condition compares the bounds with the changes alone: no live period starts before the version or is ended by a change past an upper bound |
| `Pipeline.MavenExpansionIsExact` | lib/cve-download.js:144-170 | for the program's own comparison: on a timeline of orderly versions the expansion accepts exactly what is meant if and only if that comparison of bounds and changes holds |
| `CveWindows.OrderlyTimelineIsInside` | lib/cve-download.js:144-170 | changes between the version and its upper bounds always satisfy the condition |
| `CveWindows.WindowsAreDisjoint` | lib/cve-download.js:152-170 | no version is accepted by the windows of two periods |
| `CveWindows.AcceptedByOwnWindow` | lib/maven-version.js:150-180 | a version is accepted by some window iff the window of its own period accepts it |
| `OsvIndex.BuildIndex` | lib/osv-db.js:53-78 | under each folded name the index lists, in order, one record for each package name of each live advisory that folds to it, with that package's slice of affected entries, and it has no empty list |
| `OsvIndex.NamesOnce` | lib/osv-db.js:60-72 | no package name of an advisory is filed twice |
| `OsvIndex.ListsAreIndex` | lib/osv-db.js:53-78 | so it holds a record exactly when some live advisory with such an entry files it |
| `OsvIndex.MatchDeps` | lib/osv-db.js:154-176 | without duplicates, exactly the triples some eligible dependency hits in the index |
| `OsvIndex.HitIffAdvised` | lib/osv-db.js:53-176 | a hit through the index is a live advisory with an affected entry of the ecosystem, same name ignoring case, affecting the version, and conversely |
| `OsvIndex.MatchThroughIndex` | lib/osv-db.js:53-176 | building the index and matching through it finds exactly what scanning every advisory would, each once, whatever affects a version |
| `OsvIndex.VulnAffectsVersion` | lib/osv-db.js:142-148 | true iff some affected entry lists the version or holds a range that says so |
| `OsvIndex.EntryAffectsByEvents` | lib/osv-db.js:105-148 | on ranked events an entry affects a version iff it lists it or, in some range, within its limits, the greatest event firing on it is an introduction |
| `OsvIndex.MatchOsvDbDeps` | lib/osv-db.js:53-176 | with the program's own range test: each finding once, and exactly those of live advisories with an entry of the ecosystem and name that lists the version or whose events introduce it |
| `OsvMeaning.AdvisedIsByTimelines` | lib/osv-db.js:142-176 | a dependency at a version is advised iff a live advisory of the ecosystem, same name ignoring case, lists the version or has a range whose timeline covers it |
| `OsvMeaning.MatchByTimelines` | lib/osv-db.js:53-176 | so the matching finds exactly those, each once, where the ranges tell timelines |
| `PomInheritanceLaws.EndsIffNoImportCycle` | lib/core.js:222-322 | the memoised recursion ends if and only if no import cycle is reachable; parent and mixed cycles never prevent it |
| `PomCycles.EndsIffNoneImportsItself` | lib/core.js:222-322 | in terms of ways: it ends iff no POM that imports and parents lead to has a way along imports back to itself |
| `PomCycles.SelfImportNeverEnds` | lib/core.js:222-322 | the smallest failing input: a POM that imports itself |
| `PomCycles.AcyclicIffNoWayBack` | lib/core.js:222-322 | the acyclic POM sets of the other theorems are those where no imports and parents lead from a POM back to itself |
| `PomInheritanceLaws.MemoIsEffective` | lib/core.js:222-322 | when parents and imports together form no cycle, an answer through a correct cache equals the definition without a cache, and every new cache entry is correct |
| `PomInheritanceLaws.AnyOrderSameAnswers` | lib/core.js:222-322 | when parents and imports together form no cycle, asking for POMs in any order ends, caches every local one asked for, and every cached answer is the uncached definition |
| `PomInheritance.GetKeeps` | lib/core.js:222-223 | a request replaces no cached answer, caches only POMs of the scan, and leaves its own answer in the cache |
| `PomPrecedence.OwnPrecedence` | lib/core.js:229-256 | a POM's own value of a property: the default profile over the main properties, other profiles only where both are silent, in file order |
| `PomPrecedence.OwnLists` | lib/core.js:229-270 | its dependencies and managed entries, as lists: the main ones, the default profile's, then the other profiles' in file order |
| `PomPrecedence.UnscannedHasNothing` | lib/core.js:222-227 | a POM outside the scan answers with no properties, dependencies or managed entries and is not cached |
| `PomPrecedence.ImportsSay` | lib/core.js:272-292 | it imports exactly the scanned POMs its import-scoped dependencies and then managed entries name, in that order |
| `PomPrecedence.AnswerPrecedence` | lib/core.js:222-322 | of any set of POMs, cycles included: built-in project properties over the POM's own over what its parent answered at that point; each import contributes exactly the dependencies and resolved managed entries it answered, and no property |
| `PomPrecedence.ImportsAnswer` | lib/core.js:272-292 | pulling in any number of imports through the cache leaves the properties as they are and adds exactly what those imports answered |
| `PomPrecedence.EffectivePrecedence` | lib/core.js:272-318 | the same without a cache, for POMs whose parents and imports form no cycle: a parent hands over properties and never a dependency |
| `PomResolver.Resolver.GetAllInheritedProps` | lib/core.js:222-322 | the version that fills shared objects in place answers, and leaves the cache, exactly as the recursion on values; objects already cached keep their identity |
| `PomResolver.Resolver.PullImports` | lib/core.js:272-292 | imports are pulled in order, each resolved in its own properties, before the POM enters the cache |
| `PomResolver.Resolver.Climb` | lib/core.js:294-322 | the half-built object is cached before the parent is read, completed in place afterwards, and stays the cached one |
| `PomResolver.AnswerIsEffective` | lib/core.js:222-322 | on acyclic sets the object answers, too, are the uncached definition, and so is the whole cache they leave |
| `MavenReactor.FoldIsExact` | lib/maven-reactor.js:257-280 | after any sequence of declarations and reaches, a coordinate's versions, manifests, version paths, scopes and masked versions hold exactly the facts of those events, each once |
| `DepRecords.HighestIsHighest` | lib/maven-reactor.js:300 | the version shown is one of the held versions, and none is higher where the comparison ranks them |
| `DepRecords.ModulesFacts` | lib/maven-reactor.js:317 | the manifests of an undeclared record are exactly the modules reaching it, each once |
| `DepRecords.DepRecord.constructor` | lib/dep-record.js:37-83 | a new record holds one fresh path list under two names, seeded with its manifest |
| `DepRecords.DepRecord.Declare` | lib/maven-reactor.js:258-270 | one declaration recorded in place, the path list written through one of its two names |
| `DepRecords.DepRecord.Reached` | lib/maven-reactor.js:271-279 | one transitive reach recorded in place, one masked version per module and version |
| `DepRecords.DepRecord.Settle` | lib/maven-reactor.js:284-325 | the record is kept iff held with a version or declared, then shows highest version, widest scope, dev flag and path, still one list under two names |
| `DepRecords.ShowsSays` | lib/maven-reactor.js:296-325 | a settled record that is declared shows compile if any declaration does, else runtime, else the first scope; one only reached shows the first path in production, else the first; it is for development iff all are |
| `ReactorRebuild.KeptIffSurvives` | lib/maven-reactor.js:284-305 | a record is kept exactly when some module declares the coordinate, or reaches it with a version |
| `ReactorRebuild.EventsOfHas` | lib/maven-reactor.js:255-281 | the events poured are exactly the modules' direct dependencies and their transitive ones of groups in the scan |
| `ReactorRebuild.SurvivesIffHeld` | lib/maven-reactor.js:255-305 | a coordinate survives iff some module declares it, or reaches it with a version in a group of the scan |
| `ReactorRebuild.PouredAllIsFold` | lib/maven-reactor.js:255-281 | pouring all modules into emptied records leaves each coordinate exactly the fold of its own events, and creates only coordinates that have events |
| `ReactorRebuild.ScanSet.ResetAll` | lib/maven-reactor.js:232-248 | every record to rebuild is emptied in place, foreign records are passed over |
| `ReactorRebuild.ScanSet.PourAll` | lib/maven-reactor.js:255-281 | excluded groups aside, every direct and transitive dependency of every module reaches the record of its coordinate; existing records keep their identity |
| `ReactorRebuild.ScanSet.SettleAll` | lib/maven-reactor.js:283-325 | exactly the records nothing holds are removed and reported as dropped, every other shows its books |
| `ReactorRebuild.ScanSet.Rebuild` | lib/maven-reactor.js:220-327 | a record survives iff a module declares it or reaches it with a version, shows exactly the events, keeps its identity; foreign records and their lists are unchanged |
| `MavenModule.LocalChain` | lib/maven-reactor.js:49-70 | the chain is free of duplicates, each POM the local parent of the one before, and stops only at an unscanned POM, a missing local parent or a repeated one; the external parent is that of its top |
| `MavenModule.ModuleManagement` | lib/maven-reactor.js:94-134 | a coordinate maps to its first fixed non-import entry in the nearest POM of the chain that has one; failing that to the external parent's first explicit one; failing that to that of the first external BOM, in the order they are declared child first, that has one; failing that to what the parent imported; and is unmapped iff none has one |
| `MavenModule.SourcesSay` | lib/maven-reactor.js:94-134 | the entries joined in the order the code reads them give each coordinate just that |
| `MavenModule.ModuleDirects` | lib/maven-reactor.js:140-189 | exactly the nearest considered declaration of each coordinate that ships, once and in the order of declaration; later declarations are overridden even when the nearest does not ship |
| `MavenModule.HeldFromManagement` | lib/maven-reactor.js:150-166 | a dependency's version is its own or what its own range resolves to, else the managed one, else none; its scope its own, else the managed one, else compile; exclusions of both; the external source only where the managed version is taken |
| `MavenModule.ResolveModule` | lib/maven-reactor.js:140-196 | both together, on the POMs and declarations themselves: the first scanned declaration of each coordinate is held, as the POMs manage it, if its scope ships, and nothing else, in the order of declaration |
| `Collection.Collect` | lib/cve-match.js:51-163 | every accepted entry of every POM, POM by POM, declarations before pins, is merged into its coordinate's record |
| `Collection.EntriesOfHas` | lib/cve-match.js:68-93 | those entries are exactly the accepted dependencies and managed dependencies of the POMs, interpolated |
| `Collection.CollectsExactly` | lib/cve-match.js:89-142 | for any comparison: a record holds exactly its coordinate's entries, is dev iff all are test or provided, only managed iff all are pins, and its version is one some entry states |
| `Collection.ShowsHighest` | lib/cve-match.js:100-128 | that version is the highest stated, where the comparison ranks the versions stated |
| `ScanSetMeaning.CollectSays` | lib/cve-match.js:51-163 | on the lines of the POMs: a coordinate is in the scan set iff an accepted line names it; its record holds the versions and POMs of those lines, is dev iff all are test or provided, only managed iff all are managed and none imports, and shows a version one of them states |
| `ScanSetMeaning.ScopeShown` | lib/cve-match.js:89-117 | its scope is that of the first line naming it that is not a test one, in the order the POMs are read, dependencies before managed entries; test when all are |
| `ScanSetMeaning.ParentSays` | lib/cve-match.js:165-180 | an external parent's record holds its POM, and its version where that is one without an open placeholder |
| `Collection.AddParents` | lib/cve-match.js:165-180 | external parents enter only where no dependency has their coordinate, the first one winning; no record is changed |
| `Collection.CommonExclusions` | lib/cve-match.js:207-213 | an exclusion is kept exactly when every declaration has it, once |
| `Collection.SettleManagedOnly` | lib/cve-match.js:354-372 | exactly the managed coordinates no module reaches are dropped, the reached ones become transitives and are counted, nothing else changes and no record stays only managed |
| `ScanSetMeaning.PromotedSays` | lib/cve-match.js:328-366 | a promoted record holds every version reached, once, shows the highest, and is a transitive as its first origin says, managed where it was declared |
| `Attribution.MatchOne` | lib/cve-match.js:381-401 | one match per affected pair of advisory and concrete version, in order, with its branch fix; the record itself is used at its own version, a copy at any other, and is only read |
| `Attribution.AttributeMatchOrigins` | lib/attribution.js:49-123 | every match ends on the attributed form of its record, on the old record or a fresh copy; no record is written to, and the count is how often a match got a record of its own |
| `Attribution.AttributedTwice` | lib/attribution.js:49-123 | attributing again changes nothing |
| `Attribution.MatchedWhereEntered` | lib/attribution.js:95-120 | a match at one version of a collected record lists exactly the POMs whose accepted entries declare or pin it, each once, and is dev iff all those entries are test, provided or dev |
| `Attribution.PromotedWhereReached` | lib/attribution.js:65-93 | a promoted managed record matched at a version is filed under exactly the modules reaching it, and is dev iff all reach it at test scope |
| `Attribution.TransitiveSays` | lib/attribution.js:65-93 | a version no manifest declares is shown by the first path of its origins in production, else the first, filed under exactly their modules, and is dev iff all reach it at test scope, where any scope is known |
| `Attribution.DeclaredSays` | lib/attribution.js:95-120 | a declared version takes the manifests, occurrences and dev flag of that version, its scope only for composer and npm and when it is the only one, and keeps its record iff nothing differs |
| `Attribution.NowhereKnown` | lib/attribution.js:52-56 | a version neither declared nor reached, or none, leaves the match as it is |
| `Attribution.ScopesAtExactly` | lib/cve-match.js:137-142 | the scopes recorded for a version are exactly those of its declarations |
| `Pipeline.ScannedIffEntered` | lib/cve-match.js:381-396 | a version is scanned for a coordinate iff some accepted entry states it concretely |
| `Pipeline.FindingsAreExact` | lib/cve-match.js:381-401 | end to end: an advisory timeline hits a coordinate at a version iff an entry states the version and the timeline says affected; the finding is filed under exactly the POMs stating it, with a fix the version does not meet; the order is asked only of the version and those the timeline names |
| `Pipeline.RecordFindingsAreExact` | lib/cve-match.js:381-401 | the same for records without a timeline: a coordinate is hit at a version iff an entry states it and some range affects it by its bounds, the exact-version ranges included; filed under exactly the POMs stating it |
| `Pipeline.ExactVersionFindings` | lib/cve-match.js:381-401 | an advisory that lists one exact version hits the versions tying with it, and no later one |
| `Pipeline.MavenFindingsAreExact` | lib/cve-match.js:381-401 | the same for the program's own comparison, on a timeline and a version whose texts are orderly, with the condition on the timeline read off its bounds and changes |
| `Pipeline.MavenFindingsFromPoms` | lib/cve-match.js:51-163 | from the POMs on: an advisory timeline hits a coordinate at an orderly version iff some POM declares or pins that version and the timeline says affected, and the finding is filed under exactly those POMs |
| `MergeSources.MergeAnswers` | lib/merge-sources.js:62-104 | a merge drops no id the record answered to and no primary id or alias of the incoming one, and invents none |
| `MergeSources.CveTexts` | lib/merge-sources.js:50 | a CVE id is the text CVE- in any case with whatever follows |
| `MergeSources.UnseenIsUnknown` | lib/merge-sources.js:44-51 | with a live, complete and truthful index the lookup misses exactly when no live record of that coordinate and version answers to any id of the finding |
| `MergeSources.Merger.FindSlot` | lib/merge-sources.js:44-51 | ids are tried primary first, each against slots before aliases, first hit wins |
| `MergeSources.Merger.MergeInto` | lib/merge-sources.js:62-104 | the finding is folded into its slot only; alias targets stay live, every id of a live record stays indexed |
| `MergeSources.Merger.AddNew` | lib/merge-sources.js:105-110 | a new record only for a finding no id of which is known; a live record is replaced only by a finding without a primary id, and the findings sent to it until then are the lost ones |
| `MergeSources.ConservedMerge` | lib/merge-sources.js:62-104 | folding one more finding keeps every record the exact fold of the findings sent to it and not lost |
| `MergeSources.ConservedNew` | lib/merge-sources.js:105-110 | so does a new record, counting as lost what was sent to a record it replaces |
| `MergeSources.MergeBySource` | lib/merge-sources.js:20-118 | each input goes to one output of its coordinate and version, equal primary ids to the same one; each output keeps all primary ids and aliases, unions sources and is never without one, takes the top score, the id of the first input with a CVE id or else of the first, and the first GHSA stated, for all findings sent to it except the lost ones, which are bounded on both sides by the findings without a primary id that meet none before them |
| `MergeSources.LostIffTwoStrangers` | lib/merge-sources.js:44-61 | where every GHSA is also an alias, a finding is lost iff two without a primary id share a coordinate and version and neither shares an id with any finding before it there |
| `MergeSources.LostIffTwoNameless` | lib/merge-sources.js:44-61 | where findings without a primary id carry no id at all, a finding is lost iff two of them share a coordinate and version |
| `MergeSources.OneNamelessLosesNothing` | lib/merge-sources.js:44-61 | whatever the ids: when no coordinate and version holds two findings without a primary id, nothing is lost |
| `MergeSources.NamelessFindingsOverwrite` | lib/merge-sources.js:52-61 | two findings without a primary id that share no id, two GHSAs for instance: the second replaces the first, whose ids then lead to a record that answers to none of them |
| `RequireWalk.Walk` | lib/application-inventory.js:79-101 | every package visited comes with a shortest chain of real require edges from the start, the nearest first, none twice; of those within 20 links as many are visited as 1000 visits allow, and none is missed that is nearer than the last visit or as near as at most 1000 are |
| `RequireWalk.HeadIsShortest` | lib/application-inventory.js:83-92 | whenever an unvisited package reaches the head of the queue its chain is a shortest one |
| `RequireWalk.SomethingWaits` | lib/application-inventory.js:83-98 | along any chain leaving the visited packages an entry waits that is no longer than the chain |
| `Applications.Ledger.ContainAll` | lib/application-inventory.js:61-77 | every occurrence is related to all the deepest components whose directory holds its manifest |
| `Applications.Ledger.WalkAll` | lib/application-inventory.js:78-101 | every target component is related to each package its own requires within 20 links, wherever at most 1000 packages are as near |
| `Applications.Ledger.ClaimRoot` | lib/application-inventory.js:107-115 | root-manifest packages nothing else claimed go to the primary component, and only those |
| `Applications.Ledger.MarkUnknown` | lib/application-inventory.js:116-120 | afterwards every occurrence has a relation, those of unknown origin only where none was confirmed |
| `Applications.Ledger.Build` | lib/application-inventory.js:61-122 | application by application: no two relations share a key, each is justified by its stated proof, every occurrence in an application is accounted for; a last-resort relation is for an occurrence no confirmed one before it is about, and the only one of it when ids are distinct |
| `Applications.UnknownIffLeftUnclaimed` | lib/application-inventory.js:61-122 | whatever the ids: an occurrence inside an application's root has a relation, and one of unknown origin iff the first application that holds it left it unclaimed |
| `Applications.UnknownIffUnclaimed` | lib/application-inventory.js:61-122 | where one application of the id holds the occurrence, it has a relation of unknown origin iff no component was related to it |
| `Applications.UnknownIffNoOrigin` | lib/application-inventory.js:61-122 | it is of unknown origin iff, in the first application that holds it, no deepest container holds it, no owner's chain of at most 20 packages leads to it, and it is not in the root manifest of an application with a primary component; where each chain leading to it has at most 1000 packages as near, and no earlier application has the id or every component has one |
| `Applications.SharedIdGetsBoth` | lib/application-inventory.js:61-122 | with one id for two applications an occurrence can be of unknown origin and confirmed at once |
| `RelationMeaning.RelationsSay` | lib/application-inventory.js:11-120 | every relation is about a package under the root of one of the applications; its owner is a component of that application that holds the manifest deepest, or leads to the package by a shortest chain, or is the first core or framework and the manifest lies in the root; direct iff it is the owner's own package |
| `RelationMeaning.PackagesAreRelated` | lib/application-inventory.js:61-120 | no package under an application's root is without a relation, and every component that holds it deepest has one |
| `RelationMeaning.DeepestSays` | lib/application-inventory.js:70-75 | deepest holders are the components other than a core, of a kind that can own, whose stated directory holds the manifest, none having a deeper one |
| `RelationMeaning.PrimarySays` | lib/application-inventory.js:106 | the primary component is the application's first core or framework |
| `RelationMeaning.WithinSays` | lib/application-inventory.js:12 | a path is within a directory iff that is the root, the path itself, or followed by a slash its beginning |
| `RelationMeaning.DirnameSays` | lib/application-inventory.js:109 | the directory of a file is what stands before its last slash |
| `ParallelWalk.EveryRunIsCorrect` | lib/parallel-walk.js:23-48 | every interleaving: never more reads than the bound, no directory read twice or unreachable, a bounded number of events, and once resolved every reachable directory was read exactly once |
| `ParallelWalk.ResolvesOnceWhenIdle` | lib/parallel-walk.js:26-31 | the promise resolves at most once, only with an empty queue and nothing active, and nothing follows it |
| `ParallelWalk.NeverStuckIffConcurrent` | lib/parallel-walk.js:29-45 | no run hangs before resolving, if and only if the concurrency is at least one |
| `ParallelWalk.RunKeeps` | lib/parallel-walk.js:23-48 | the state invariant at every point of every run |
| `ParallelWalk.Walker.DoPump` | lib/parallel-walk.js:29-45 | the real pump loop makes exactly the transition of the model |
| `ParallelWalk.Walker.OnEntries` | lib/parallel-walk.js:35-41 | a directory's entries push exactly its unpruned subdirectories |
| `ParallelWalk.Walker.OnFinally` | lib/parallel-walk.js:42-43 | a completed read releases its slot and pumps again |
| `EditDistance.NoCheaperScript` | lib/malware.js:26-44 | no edit script between two texts costs less than the table entry |
| `EditDistance.CheapestScript` | lib/malware.js:26-44 | for any two prefixes an edit script of exactly the table's cost exists |
| `EditDistance.OsaIsDistance` | lib/malware.js:18-44 | the recursive table value is the optimal-string-alignment distance: the least cost of any script |
| `EditDistance.LengthGap` | lib/malware.js:29 | the length gap never exceeds the cost of a script, so the prefilter rejects no pair within the budget |
| `EditDistance.FillRow` | lib/malware.js:33-41 | one row of the two-dimensional table filled in place from the rows before it |
| `EditDistance.BoundedEditDistance` | lib/malware.js:26-44 | the distance when it is at most the budget, one more than the budget otherwise |
| `Typosquat.DistanceOne` | lib/malware.js:26-44 | distance 1 means exactly one insertion, deletion, substitution or swap of neighbours |
| `Typosquat.FindResembled` | lib/malware.js:88-95 | the loop stops at the first popular name at distance exactly 1 |
| `Typosquat.FirstResembledIsFirst` | lib/malware.js:88-95 | a resembled name is reported iff some popular name is one edit away, and then it is one edit away |
| `Typosquat.LowerChars` | lib/malware.js:77 | each capital letter becomes the small one of its place in the alphabet, any other character stays |
| `Typosquat.NormalizeSays` | lib/malware.js:77 | a PyPI name is its words in lower case with one dash for each run of dashes, underscores and dots |
| `Typosquat.SquatsSay` | lib/malware.js:74-98 | reported are exactly the npm and PyPI dependencies of a manifest, unscoped, of at least five letters and not popular themselves, one edit from a popular name of their ecosystem, with the first such name |
| `Typosquat.DetectTyposquats` | lib/malware.js:74-98 | exactly the eligible dependencies that are not themselves popular and resemble a popular name, in order |
| `CpeMatch.EvaluateCveForDep` | lib/cpe.js:261-319 | affected iff a passing configuration itself lists a hit (or, without configurations, a bare CPE names the dependency), exact iff a curated one; no outcome iff a passing configuration holds a null node |
| `CpeMeaning.RecordSays` | lib/cpe.js:94-319 | what that means for any tree, on the bounds and the comparison: a configuration passes by a match at any depth that is vulnerable, names the dependency and covers its version, an AND by one under every node that carries a vulnerable CPE; affected iff a passing one lists such a match itself, exact iff the curated map confirms one |
| `CpeMeaning.BareRecordSays` | lib/cpe.js:306-316 | without configurations a CPE that names the dependency is enough, at the lower confidence |
| `CpeMeaning.OneMatchSays` | lib/cpe.js:94-119 | one vulnerable match that names the dependency affects it iff its version is unknown, ties with the pin, update included, or without a pin is at or past an including start, past an excluding one, at or before an including end and before an excluding one |
| `CpeMeaning.OneMatchSilent` | lib/cpe.js:130-140 | a match that is not vulnerable, does not parse or does not name the dependency affects no version |
| `CpeMeaning.TiesWithBounds` | lib/cpe.js:114-117 | a version that ties with an excluding bound is not affected, with an including one it is |
| `CpeMeaning.NamesSays` | lib/cpe.js:201-242 | a CPE names a dependency iff it is an application and the curated map lists it under vendor and product or product, or, where that is allowed, it is the product and its group has the vendor between dots, or it is the product in the vendor's scope |
| `CpeMeaning.NamingSays` | lib/cpe.js:157-173 | the naming scan is decided by the first node in document order that names the dependency or is null, then by the bare CPEs |
| `CpeMatch.ContextNeverAffects` | lib/cpe.js:130-150 | a tree without a vulnerable CPE at any depth affects nothing |
| `CpeLaws.ContextNeverMatters` | lib/cpe.js:176-188 | records that differ only in platform nodes, at any depth of any AND or OR configuration, get the same verdict |
| `CpeLaws.NullIsNotContext` | lib/cpe.js:261-305 | a null node leaves passing as it is and makes the evaluation throw exactly when its configuration passes |
| `CpeLaws.AffectedIsNamed` | lib/cpe.js:157-173 | an affected verdict is never given to a dependency the record's CPEs do not name |
| `CpeLaws.CuratedIsAlsoHit` | lib/cpe.js:201-242 | every hit by the curated map alone is a hit with the heuristic, at no lower confidence |
| `CpeLaws.RangesAreIntervals` | lib/cpe.js:113-119 | without a pinned version, what lies between two versions in range is in range, where the comparison ranks them and the bounds |
| `CpeLaws.PinWins` | lib/cpe.js:101-111 | a criteria that pins its version covers exactly the versions ranking equal to the pin, where the comparison ranks them |
| `CpeLaws.LostIffNested` | lib/cpe.js:272-304 | a configuration passes without being counted iff none of its own nodes lists a hit and the hits stand inside: of some node in an OR, of every node that is not mere platform context in an AND, which must have one; it counts iff a node lists a hit and, in an AND, every such node has one |
| `CpeLaws.RecordLostIffNested` | lib/cpe.js:272-319 | a record with configurations affects the dependency iff one of them lists a hit; it passes a configuration and leaves the dependency unaffected iff some configuration nests its hits and none lists them |
| `CpeLaws.ContextNestingCounts` | lib/cpe.js:272-304 | a configuration whose nested nodes carry only platform CPEs counts exactly when it passes |
| `CpeLaws.NestedHitIsLost` | lib/cpe.js:286-304 | the smallest case: a hit in the only child of the only node makes its configuration pass and leaves the dependency unaffected |
| `CertFr.TodoIsStale` | lib/certfr.js:64-68 | the work list is exactly the listed advisories whose cached date differs or is missing |
| `CertFr.RunKeeps` | lib/certfr.js:89-106 | at every state of every interleaving each job taken is in one worker's hands or handled exactly once, and the entries are those its replies wrote |
| `CertFr.NeverStuck` | lib/certfr.js:89-106 | with at least one worker some step is possible until all is handled |
| `CertFr.StepsRunOut` | lib/certfr.js:89-106 | every step brings the end nearer, so every run is finite |
| `CertFr.StaleAfter` | lib/certfr.js:64-106 | with consistent listings an advisory is stale afterwards iff it was and no job of its reference was answered |
| `CertFr.RefreshSettles` | lib/certfr.js:80-113 | every job handled exactly once, up-to-date entries unchanged; after a run without failure nothing is stale if and only if no reference is listed at two dates |
| `CertFr.Refresher.Take` | lib/certfr.js:91-92 | a free worker takes the next job and no other |
| `CertFr.Refresher.Answer` | lib/certfr.js:94-102 | a reply writes only its own job's entry, or counts as a failure |
| `CertFr.Refresher.Finish` | lib/certfr.js:107-112 | the stamp advances iff no reply failed, and the changed references are those now at their listed date |
| `CertFr.IndexByCve` | lib/certfr.js:71-78 | a CVE is indexed iff cited, its list holding its citations sorted newest first |
| `CertFr.CitingIsInverse` | lib/certfr.js:71-78 | a CVE's list holds exactly the advisories citing it, each once |

## Left out

- MavenSpelling.OrderlyTextIsExact: of the collation it asks that a word stand before the word with a letter behind it, as localeCompare places it; without that, a text could hold the last word of all and no text would stand above it. MavenOrder.OrderlyIsExact needs no such premise but ranges over segment lists.
- MavenParse: parsing folds ASCII case and whitespace only, numbers are unbounded where parseInt loses precision beyond 2^53, and a line break inside a version counts as any other character.
- VersionRange: of the white space characters blank, tab, line feed and carriage return only.
- Typosquat: names are folded to lower case in ASCII only.
- MavenVersion: a qualifier spelled like a property every JavaScript object has (`constructor`) gets a rank that is not a number in the code; the model ranks it as unknown.
- MavenVersion.CompareMavenVersions: comparing one parsed list with itself is left out, since each call parses its own.
- OsvRange.RangeAffects: versions are of any type, so the texts `0` and `*` are two distinguished values; MavenRanges.MavenEventsDecide puts the texts in.
- PomInheritance: locating the parent on disk and setting `parentDescr` (lib/core.js:190-220), parsing POMs and interpolating entries are parameters.
- ReactorRebuild.ScanSet.Rebuild: dropped coordinates are a set without the version text appended for display; versionSource and viaPaths are not carried.
- MavenReactor: resolving each module's transitives reads the network, so module results are inputs.
- MavenModule.LocalChain: the check that the external parent's version is concrete, and the chain's property overrides, belong to the parameters that return external parents and their contents.
- Collection.Collect: records are values in the map that is reassigned, since nothing else holds them yet; their two path-list names are modelled in DepRecords.
- MergeSources.MergeBySource: which findings are lost is bounded from both sides; the two bounds meet where every GHSA is also an alias, since only a GHSA can be dropped by a merge. Severity, description and branch-fix choice, the final severity sort, and key texts that collide are not modelled.
- RequireWalk.Walk: of several shortest chains to a package it does not say which is the one recorded, nor, past 1000 packages, which of those equally far are visited.
- Applications.Ledger.Build: key texts are tuples, so an id containing a NUL cannot collide. Gathering occurrences and expandComposerFindings are not modelled.
- CpeMatch: splitting a CPE text into fields and the memo on each match are not modelled; criteria arrive parsed.
- ParallelWalk: a visitor callback that throws is treated as the catch clause does only for unreadable directories.
- CertFr.Refresher.Answer: saving the cache every 500 replies and progress reports have no effect on the model.
- CertFr: extracting CVE ids from an advisory (lib/certfr.js:53-61) is an input.
- EditDistance: text is compared by character, where the code compares UTF-16 units.
- Objects used as maps: integer-like keys that JavaScript moves to the front keep their insertion order here.
- fixVersionFromRanges, addToIndex (lib/cve-download.js), flagMalicious (lib/malware.js), coordKeyFor (lib/dep-record.js): they would add only easy members.
- lib/transitive.js, lib/osv.js and the codecs are not part of this model; their results are parameters.
- Reports, translation, command line, feeds, archives and file copying: display and plumbing.
