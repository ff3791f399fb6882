# A verified model of the clustering engine and the protocols around it

This project models, in Dafny 4.11, the deterministic core of a cyberattack-news
desk and proves what its comments and documents promise. Nothing here runs the
original program; every statement is proved of the model.

**The clustering engine** (`packages/clustering`). Classified rows are grouped
in three nested stages: rows with one canonical URL, syndicated copies found by
shingle similarity, and separate reports of one incident found by shared rare
tokens and time. The model follows the program's form: `UnionFind` is a class
over `parent` and `size` arrays, `candidatePairs` and `clusterEligible` are
methods with the source's loops, maps and sets, each proved equal to a
functional description (`Stages`, `Runs`). The laws are then proved of that
description: the size bound over whole chains of merges, soundness and
completeness of merging, what supports a merge, counted over sets of tokens and
reports, blocking against all-pairs comparison, the bound on pair work,
conservation of rows, every field of a returned cluster and link, the stats, the
time codes, the choice of representative, and independence of the input order.

**Canonical serialization** (`canonicalize`), on which every contract hash
rests, is undone by a parser, so its text names one value up to key order.
**The licence fixed point** of the bill of materials is the least closed set.
**The anomaly baseline** is robust and symmetric, and every label has its exact
condition. **The escape form** for prohibited text is lossless and safely cut.
**The Codex verdict recorder** is a protocol against a server that fails, refuses
or loses its answers. **One-time codes** and **sign-up requests** are state
machines over their tables, call by call and with the statements of concurrent
calls interleaved.

## Modules

- `Texts`, `Sorting`, `Sequences`: strings as UTF-16 code units, stable sorting, sequence facts.
- `Partitions`, `Components`, `UnionFinds`, `Merging`: the closure of pairs, the lists of components, the class, merging under a bound.
- `Tokens`, `Similarity`, `Blocking`, `BlockingLaws`: the text measures and the bounded inverted index.
- `Clusters`, `Stages`, `Runs`: the data and the functional description of a run; `EngineSteps`, `Engine`: the methods.
- `BoundaryLaws`: which lists are refused, and why; `SupportLaws`: what supports a merge or a link, independently of the functions that read it.
- `SizeLaws`, `EvidenceLaws`, `ConservationLaws`, `StatsLaws`, `TimeLaws`, `LinkLaws`, `RowLaws`: the engine's laws over a run; `OutcomeLaws`, `ClusterLaws`, `BoundLaws`: what they say of the clusters, links and counts returned; `TimeWitness`: three rows by example.
- `Decimals`: truncation to six places.
- `Canonical`, `CanonicalLaws`; `Licences`; `Anomaly`, `AnomalyLaws`, `LabelLaws`; `ProhibitedText`, `ProhibitedTextLaws`, `TextEscape`, `TextEscapeLaws`; `Verdicts`, `Paging`, `CodexVerdict`; `OneTimeCodes`, `IssueRaces`; `SignupRequests`, `InsertRaces`.

## Where the code and its description differ

The model follows the code. Where a claim is false, a lemma gives an input for
which it fails or a contract states exactly when it holds.

- A cluster can hold a merge with two timestamps inside the window and not carry
  `time_proximity`: the record is kept under a root that moves when a lower
  report joins later. `TimeWitness.TimedMergeCanGoUnsaid` gives three rows and a
  contract for which the engine returns such a cluster. It is always carried, and
  alone, when the contract keeps rows without a timestamp apart, or every
  eligible row has one (`OutcomeLaws.ReturnedIsTimed`); otherwise exactly as
  `TimeLaws.TimeProximityExactly` says of the order of the merges.
- Pair work is documented as O(G K B²); the bound proved is G K (B - 1) over
  both passes, and half of that for one.
- With an absolute floor of zero a movement of exactly zero can be a positive
  spike, so mirrored data does not give mirrored labels
  (`AnomalyLaws.ZeroFloorBreaksTheMirror`, a series of four observations); it
  does exactly unless the latest movement is zero and stands out from its history
  (`AnomalyLaws.MirroredTargetExactly`).
- The verdict recorder says a pull request has more than 5,000 comments when it
  has exactly 5,000: `CodexVerdict.ReadDecision` answers `TooManyComments` exactly
  from 5,000 on when every call is answered and comments are only added.
- The verdict recorder's reading is not one moment's: a comment deleted between two
  pages hides another from it, and success can be written though the last verdict
  was always that changes are required (`Paging.DeletionSkipsAComment`). What is
  read is the conversation as it was at the last page exactly when every page
  read before still is the same page of it (`Paging.PagingIsExact`), as it always
  is while comments are only added (`Paging.GrowingStands`).
- Two live codes can be seen at once: requests for one account whose first
  statements both run before either commits leave both codes live, and both are
  accepted (`IssueRaces.BothCodesAreAccepted`). One live code is kept throughout
  exactly when no request commits while a code issued since its first statement
  is live (`IssueRaces.OneLiveExactly`), so whenever the requests for an account
  do not overlap (`IssueRaces.ApartIsSerial`).
- An expired sign-up request does block its address when it commits after the new
  request's first statement (`InsertRaces.ExpiredCodeBlocks`), and only then
  (`InsertRaces.LandsAsOneStepExactly`).
- `open_exists` is also answered for a repeated identifier
  (`SignupRequests.RepeatedIdentifierIsOpenExists`, `SignupRequests.OpenExistsExactly`).
- A literal escape opener in a value, closed only at or after the limit, is taken
  for an escape and makes the safe cut shorter than it need be: `\u{A}` cut to
  four characters keeps none (`TextEscapeLaws.LiteralIsCutShort`). The cut is the
  longest safe one exactly otherwise (`TextEscapeLaws.CutIsLongestExactly`).
- Removing prohibited text from a string with lone surrogates can leave a
  prohibited code point (`ProhibitedTextLaws.RemovalCanJoinHalves`,
  `ProhibitedTextLaws.RemovalLeavesNoneExactly`).

## How values are modelled

- A string is a sequence of UTF-16 code units, ordered as JavaScript orders it.
- `hash32` and `fingerprintOf` are arbitrary functions carried by the contract:
  no law assumes that either is injective, except where it says so.
- Thresholds, ratios, scores and percentages are reals; counts and bounds of the
  contract are natural numbers. A square root is a function of the rules.
- A row carries the tokens of its assembled text and its parsed instant; its other
  fields are strings, checked as the shipped input contract checks them.
- The Unicode properties the prohibited-text rule reads are functions; the only
  fact assumed of them, and only where a lemma requires it, is that no printable
  ASCII character is default-ignorable or a noncharacter.
- The verdict server's answers are an arbitrary infinite script of outcomes,
  among them transient failures after which a write was or was not applied, and
  its comments at each attempt are an arbitrary sequence: added to, edited or
  deleted in between.
- Each exported database function is one transaction: an error leaves the table
  as it was. Where statements interleave, the first sees the rows committed when
  it starts and tests again the ones it waited for, and what a transaction writes
  is seen when it commits, as PostgreSQL does by default. The model's session table records the challenge each session was
  created for, which the database's does not.
- Constructors and methods that change state are stated over `old` values; what
  they promise over runs is stated by the lemmas about the same functions.

## Model

| member | source | states |
|---|---|---|
| `UnionFinds.UnionFind.constructor` | packages/clustering/src/engine.ts:212-215 | every node starts as its own component with its own weight |
| `UnionFinds.UnionFind.Find` | packages/clustering/src/engine.ts:217-227 | returns the least index of the node's component; afterwards exactly the nodes of the walk point at it, every other link is as it was, and no component and no weight has changed |
| `UnionFinds.UnionFind.ComponentSize` | packages/clustering/src/engine.ts:229-232 | the total weight of the component holding the node |
| `UnionFinds.UnionFind.CanUnion` | packages/clustering/src/engine.ts:234-245 | true exactly when the two nodes share a component or the two component weights together stay within the maximum |
| `UnionFinds.UnionFind.Union` | packages/clustering/src/engine.ts:247-261 | joins the two components under the lower of their roots, whichever argument came first; false exactly when they were one already |
| `UnionFinds.CompressKeepsForest` | packages/clustering/src/engine.ts:220-225 | pointing one node of the walk at its root keeps every parent index at most its child and the roots where they were |
| `UnionFinds.AttachKeepsForest` | packages/clustering/src/engine.ts:253-259 | attaching the higher root to the lower keeps every root the least index of its component |
| `UnionFinds.AttachKeepsSized` | packages/clustering/src/engine.ts:252-259 | adding the two totals on the surviving root keeps every root carrying exactly its component's weight |
| `Partitions.JoinAllIsClosure` | packages/clustering/src/engine.ts:199-262 | after any sequence of unions two nodes share a component if and only if a chain of united pairs links them, and the root is the least linked index |
| `Partitions.JoinOrderIrrelevant` | packages/clustering/src/engine.ts:247-247 | unions in any order, either way round, any number of times, give the same components and the same roots |
| `Merging.MergeStaysBounded` | packages/clustering/src/engine.ts:43-51 | over every chain of bounded merges a component heavier than the maximum is a single node no merge touched |
| `Merging.NoHiddenRefusal` | packages/clustering/src/engine.ts:481-489 | a supported pair ends in one component, or both of its nodes are marked as refused |
| `Merging.ApartOnlyByTheBound` | packages/clustering/src/engine.ts:234-245 | the bound is the only reason: at the end of a stage a supported pair is in one component, or in two that are together over the maximum |
| `Merging.RefusedStaysApart` | packages/clustering/src/engine.ts:606-613 | a refusal is for good: a marked node has a supported pair whose two sides end in components that are together over the maximum |
| `Merging.RefusalsAreSupported` | packages/clustering/src/engine.ts:606-613 | a node is marked only for a supported pair it is in; refusals are counted exactly when something is marked |
| `Merging.MergedOnlyBySupport` | packages/clustering/src/engine.ts:39-41 | two nodes share a component only through a chain of supported pairs |
| `Merging.UnrefusedMergeIsClosure` | packages/clustering/src/engine.ts:477-489 | with no refusal the components are exactly the equivalence closure of the supported pairs |
| `Merging.JoinedComponentIsRecorded` | packages/clustering/src/engine.ts:598-604 | a component of more than one node has a union recorded under its final root |
| `Merging.RecordedUnderFinalRoot` | packages/clustering/src/engine.ts:598-604 | a union is recorded under the final root exactly when, just after it, its component already reached that root |
| `Merging.RecordUnderOldRootIsLost` | packages/clustering/src/engine.ts:599-602 | three nodes and two unions after which the first union stands under a root that is no root any more |
| `Blocking.CountFrequencies` | packages/clustering/src/engine.ts:314-319 | for every token, how many items carry it |
| `Blocking.ChooseKeys` | packages/clustering/src/engine.ts:328-336 | one item's blocking keys, each once: the least by hash and text among the tokens few enough items carry |
| `Blocking.BuildIndex` | packages/clustering/src/engine.ts:326-342 | the index holds for each key exactly the items that chose it, and its insertion order |
| `Blocking.Iterate` | packages/clustering/src/engine.ts:360-379 | one step of the pair loop: over budget is counted, a pair seen before is skipped, a new one is admitted and spends both budgets |
| `Blocking.ScanIndex` | packages/clustering/src/engine.ts:351-383 | blocks in key order, a block over the bound skipped whole and counted; pairs, iterations and bound signals as specified |
| `Blocking.CandidatePairs` | packages/clustering/src/engine.ts:308-384 | the pairs, comparisons, iterations and bound signals of one blocking pass equal the specification the laws below are about |
| `BlockingLaws.KeysAreLeastByHash` | packages/clustering/src/engine.ts:300-306 | a token too many items carry is never a key; one that is left out for want of room comes after every key chosen in hash order |
| `BlockingLaws.KeyExactly` | packages/clustering/src/engine.ts:314-334 | a token of an item is one of its keys exactly when at most max(2, G * ratio) items carry it, counted as a set of positions, and fewer than keysPerItem such tokens of the item come before it by hash and then by text |
| `BlockingLaws.CandidatesShare` | packages/clustering/src/engine.ts:358-381 | every candidate pair is in ascending order, in range, returned once, and shares a chosen key |
| `BlockingLaws.CandidatesKeepBudget` | packages/clustering/src/engine.ts:364-378 | in every pass no item is in more pairs than its comparison budget, and comparisons are the pairs returned, at most the iterations |
| `BlockingLaws.LeftOutIsSignalled` | packages/clustering/src/engine.ts:353-372 | a sharing pair left out coincides with a bound signal: all of its blocks were too large, or one of its items spent its whole budget |
| `BlockingLaws.BlockingRefinesAllPairs` | packages/clustering/src/engine.ts:296-307 | with no bound signalled, blocking returns exactly the pairs that comparing all pairs for a shared key would |
| `BlockingLaws.PairWorkIsBounded` | packages/clustering/src/engine.ts:53-67 | one pass over G items takes at most G K (B - 1) / 2 iterations, for every budget and every hash |
| `Tokens.DistinctiveTokens` | packages/clustering/src/text.ts:78-91 | the loop computes the sorted set of carried tokens |
| `Tokens.DistinctiveLaws` | packages/clustering/src/text.ts:73-77 | sorted, each once, and exactly the tokens long enough that are no stop term |
| `Tokens.Shingles` | packages/clustering/src/text.ts:98-115 | the loop with its early exit computes the first distinct windows up to the maximum, sorted |
| `Tokens.ShinglesLaws` | packages/clustering/src/text.ts:93-107 | sorted, each once, within the maximum, and none exactly when the text is shorter than one shingle |
| `Tokens.ShinglesExactly` | packages/clustering/src/text.ts:103-114 | the shingles are the joined windows of consecutive tokens among the first few: all of them, unless those already make as many different ones as the cap |
| `Tokens.JoinedPartByPart` | packages/clustering/src/text.ts:111-111 | parts are joined with the separator between them and nothing else |
| `Similarity.SharedCount` | packages/clustering/src/text.ts:147-154 | counts the values two arrays without repetition share, whichever is scanned |
| `Similarity.SimilarityOf` | packages/clustering/src/text.ts:130-145 | Jaccard or containment over two arrays without repetition, zero on an empty one |
| `Similarity.ScoreLaws` | packages/clustering/src/text.ts:130-145 | both measures are symmetric and between 0 and 1 |
| `Similarity.SimilarityOfSorted` | packages/clustering/src/engine.ts:179-197 | the two-pointer loop computes multiset intersection over multiset union of any two sorted arrays |
| `Similarity.HashSimilarityLaws` | packages/clustering/src/engine.ts:179-197 | that ratio is symmetric, in [0, 1], and 1 exactly on equal non-empty multisets |
| `Similarity.FastFormRefinesSimpleForm` | packages/clustering/src/engine.ts:172-197 | when the hash tells the shingles apart, the two-pointer form over sorted hashes equals the set-based Jaccard score |
| `EngineSteps.RowsRefusalMeaning` | packages/clustering/src/input.ts:109-177 | the row loop refuses nothing exactly when every row has its identifiers and a known decision, source rows are distinct, and all share one batch and one classification run |
| `EngineSteps.AssertInputs` | packages/clustering/src/input.ts:82-178 | the first refusal in the order the source meets it, field checks included; none exactly when the list is accepted |
| `BoundaryLaws.FieldsRefusalExactly` | packages/clustering/src/input.ts:120-151 | the refusal of one row: a missing identifier first, then a decision that is none of include, exclude and review, then an empty URL group |
| `BoundaryLaws.RefusedForItsFirst` | packages/clustering/src/input.ts:165-177 | a list within the bound is refused for the first row something is wrong with: its fields, then an identifier an earlier row has, then a batch or a run that is not the first row's |
| `BoundaryLaws.RefusedExactly` | packages/clustering/src/input.ts:160-177 | refused for its length exactly beyond the bound, and not refused exactly when it is within it and nothing is wrong with any row |
| `BoundaryLaws.EligibleExactly` | packages/clustering/src/engine.ts:403-407 | the rows clustered are those listed whose decision the contract names, each as often as it is listed |
| `BoundaryLaws.KeysSpelled` | packages/clustering/src/engine.ts:418-419 | the duplicate key of a row, letter by letter |
| `EngineSteps.GroupByKey` | packages/clustering/src/engine.ts:417-423 | the map holds exactly the rows of each duplicate key in order, its keys in insertion order |
| `EngineSteps.RepresentativeOf` | packages/clustering/src/engine.ts:276-294 | the loop picks the specified representative under either rule |
| `EngineSteps.BuildUnits` | packages/clustering/src/engine.ts:424-440 | one unit a duplicate key, in key order |
| `EngineSteps.MarkOversized` | packages/clustering/src/engine.ts:455-469 | refuses the run exactly when some group is over the bound and the contract says so; otherwise marks and counts exactly those groups |
| `EngineSteps.MergePair` | packages/clustering/src/engine.ts:482-488 | one supported pair: refused and marked on both sides, or joined, with the root it is recorded under |
| `EngineSteps.MergeSyndicated` | packages/clustering/src/engine.ts:473-489 | the union-find and the marks after stage 2 are those of merging the pairs at or above the threshold in order |
| `EngineSteps.ComponentsOf` | packages/clustering/src/engine.ts:386-396 | the components in order of their least member, each ascending |
| `Engine.BuildReports` | packages/clustering/src/engine.ts:500-528 | one report a component, with the union of its units' tokens and shingles and its earliest and latest times, and the map from unit to report |
| `Engine.SharedRareCount` | packages/clustering/src/engine.ts:560-568 | how many shared tokens few reports carry |
| `Engine.ReadEvidence` | packages/clustering/src/engine.ts:580-596 | everything stage 3 reads off a pair |
| `Engine.MergeIncidents` | packages/clustering/src/engine.ts:579-643 | after stage 3 the union-find, the marks, the recorded roots and the ambiguous links are those the specification gives |
| `Engine.AssembleClusters` | packages/clustering/src/engine.ts:646-720 | every cluster assembled from the concrete maps equals its specification |
| `Engine.CollectCodes` | packages/clustering/src/engine.ts:684-702 | the reason codes in the source's order |
| `Engine.ClusterEligible` | packages/clustering/src/engine.ts:398-756 | for every input list and contract: the refusal the boundary gives, or exactly the clusters, links and stats of the functional description the laws below are proved of |
| `SizeLaws.OversizedClusterIsOneGroup` | packages/clustering/src/engine.ts:442-488 | a cluster over the bound is one report of one duplicate group that was over it before any merge |
| `SizeLaws.ClusterBoundHolds` | packages/clustering/src/engine.ts:43-51 | across both stages: a returned cluster over the bound exists only under admit-and-record, is one duplicate group, and carries cluster_bound_reached |
| `EvidenceLaws.ClusteredOnlyOnEvidence` | packages/clustering/src/engine.ts:39-41 | duplicate groups share a cluster only through a chain of syndicated and supported pairs |
| `SupportLaws.EvidenceMeaning` | packages/clustering/src/engine.ts:555-591 | all that is read off a pair of reports, as sizes of token sets and of sets of reports: the shared and the shared rare tokens, the score, each of the three tests, and whether both are timed |
| `SupportLaws.SupportedExactly` | packages/clustering/src/engine.ts:583-596 | a pair is supported exactly when enough tokens are in both lists, enough of those are carried by at most max(2, G * ratio) reports, the ratio of set sizes reaches the threshold, and the times are within the window or one is absent and the contract allows it |
| `SupportLaws.NearMissExactly` | packages/clustering/src/engine.ts:614-640 | exactly which unsupported pairs are worth a link, and its codes, similarity and counts, in the same terms |
| `SupportLaws.SyndicatedExactly` | packages/clustering/src/engine.ts:480-481 | a pair of duplicate groups is syndicated exactly when the shared hashes are a large enough part of all of theirs, counted over multisets |
| `SupportLaws.SyndicatedByShingles` | packages/clustering/src/engine.ts:473-481 | and, where the hash tells the shingles apart, exactly when their sets of shingles are alike enough |
| `SupportLaws.GroupTokensExactly` | packages/clustering/src/engine.ts:424-440 | a duplicate group carries exactly the distinctive tokens of its representative |
| `SupportLaws.ReportTokensExactly` | packages/clustering/src/engine.ts:500-506 | a report carries exactly the tokens some duplicate group of it carries, each once |
| `SupportLaws.ReportTimeExactly` | packages/clustering/src/engine.ts:507-525 | the time of a report is the least time among its groups that have one, and absent only when none has |
| `EvidenceLaws.UnmergedSupportIsSaid` | packages/clustering/src/engine.ts:695-702 | a supported pair left in two clusters puts cluster_bound_reached on both |
| `EvidenceLaws.BoundReachedHasItsCause` | packages/clustering/src/engine.ts:695-697 | a cluster carries cluster_bound_reached only when it is over the bound or a pair the evidence joins has one side in it and one outside |
| `EvidenceLaws.JoinedApartAreTooHeavy` | packages/clustering/src/engine.ts:234-245 | over both stages: two clusters that hold the sides of a directly joined pair are together over the bound |
| `EvidenceLaws.UnrefusedClustersAreClosure` | packages/clustering/src/engine.ts:471-613 | with no refusal in either stage the clusters are exactly the closure of the evidence |
| `EvidenceLaws.UnboundedRunIsExhaustive` | packages/clustering/src/engine.ts:296-307 | a run whose boundsReached is zero clusters exactly as comparing every sharing pair would |
| `ConservationLaws.SameKeyMeaning` | packages/clustering/src/engine.ts:413-419 | two rows share a duplicate key exactly when they have the same URL group, or are the same URL-less row |
| `ConservationLaws.GroupingKeepsRows` | packages/clustering/src/engine.ts:28-30 | grouping by URL keeps every row exactly once |
| `ConservationLaws.ClustersHoldEveryUnitOnce` | packages/clustering/src/engine.ts:645-653 | every duplicate group is in exactly one cluster |
| `ConservationLaws.EveryRowInOneCluster` | packages/clustering/src/engine.ts:654-671 | the members of the clusters returned are the eligible rows, each exactly once |
| `StatsLaws.StatsMatchStoredRows` | packages/database/src/clustering.ts:453-502 | the stats equal the counts recomputed from stored clusters and links in any order; members sum to the eligible inputs and eligible and ineligible to all, single and multi to the clusters |
| `StatsLaws.RunWorkIsBounded` | packages/clustering/src/engine.ts:53-67 | over both passes comparisons are at most iterations, and those at most G K (B - 1) |
| `BoundLaws.BoundsAreCounted` | packages/clustering/src/engine.ts:408-642 | boundsReached counts, over both passes, each duplicate group over the bound, each key too many items chose, each step an exhausted budget turned away, each merge refused and each unsupported pair met with the list of links full, and nothing else |
| `BoundLaws.NoBoundExactly` | packages/clustering/src/engine.ts:408-642 | boundsReached is zero exactly when no group is over the bound, no key or step was left out, every pair compared and found alike or supported ended joined, and every other pair was met while the list had room |
| `TimeLaws.JoinedClusterHasTimeCode` | packages/clustering/src/engine.ts:690-694 | a cluster joining more than one report carries time_proximity or timestamp_absent |
| `TimeLaws.TimeCodeHasItsMerge` | packages/clustering/src/engine.ts:588-602 | each time code has a recorded union of two reports of the cluster that the evidence supports: both timed and within the window, or one untimed and the contract allows it |
| `TimeWitness.TimedMergeCanGoUnsaid` | packages/clustering/src/engine.ts:579-604 | three rows with valid fields and a contract, whatever its digests, for which the engine returns one cluster of three reports that carries timestamp_absent and not time_proximity although two of them were united on both timestamps within the window |
| `TimeLaws.TimeProximityExactly` | packages/clustering/src/engine.ts:690-694 | time_proximity is carried exactly when some timed merge came with or after the joining in of the cluster's least report |
| `OutcomeLaws.ShareExactly` | packages/clustering/src/engine.ts:645-671 | two rows are members of one returned cluster exactly when their duplicate groups ended in one component |
| `OutcomeLaws.ReturnedOnlyOnEvidence` | packages/clustering/src/engine.ts:39-41 | rows are returned in one cluster only through a chain of syndicated and supported pairs of their duplicate groups |
| `ClusterLaws.ReturnedOnlyOnSharedSignals` | packages/clustering/src/engine.ts:473-602 | rows are returned in one cluster only through a chain of duplicate groups that were compared and are alike in shingles, or are in reports that were compared, share enough tokens and enough rare ones, are alike and are near in time |
| `ClusterLaws.EachRowMeetsAnother` | packages/clustering/src/engine.ts:579-604 | in a returned cluster of several reports every row meets a row of another report of it, the two reports sharing enough tokens and enough rare ones, alike and near in time |
| `OutcomeLaws.ReturnedApartIsSaid` | packages/clustering/src/engine.ts:695-702 | a pair the evidence joins but that is returned apart puts cluster_bound_reached on every returned cluster holding a row of either side |
| `OutcomeLaws.ReturnedApartAreTooHeavy` | packages/clustering/src/engine.ts:234-245 | two returned clusters that hold the sides of a joined pair weigh more together than the bound allows |
| `OutcomeLaws.BoundReachedExactly` | packages/clustering/src/engine.ts:695-702 | a returned cluster carries cluster_bound_reached exactly when it is over the bound itself, or a joined pair has a row of one side in it and a row of the other outside |
| `OutcomeLaws.ReturnedExhaustively` | packages/clustering/src/engine.ts:296-307 | when the returned boundsReached is zero, two rows are returned in one cluster exactly when comparing every sharing pair links them |
| `OutcomeLaws.ReturnedSaysItsTimes` | packages/clustering/src/engine.ts:690-694 | every returned cluster joining more than one report carries a time code |
| `OutcomeLaws.ReturnedIsTimed` | packages/clustering/src/engine.ts:588-602 | every returned cluster joining more than one report carries time_proximity and never timestamp_absent when the contract keeps untimed rows apart, or every eligible row has a timestamp |
| `OutcomeLaws.EachRowInOneCluster` | packages/clustering/src/engine.ts:645-671 | every eligible row is held by exactly one returned cluster |
| `OutcomeLaws.ReturnedMembersAreTheRows` | packages/clustering/src/engine.ts:654-671 | every member record of a returned cluster is that of the eligible row it names, with the fingerprint of its duplicate group |
| `OutcomeLaws.ReturnedMembersNameTheirReport` | packages/clustering/src/engine.ts:513-518 | every member record names the report of its row: the keys, in order, of the duplicate groups syndicated with the row's own |
| `ClusterLaws.GroupsAreCounted` | packages/clustering/src/engine.ts:673-673 | duplicateGroupCount is the number of different duplicate keys among the eligible rows held |
| `ClusterLaws.ReportsAreCounted` | packages/clustering/src/engine.ts:674-674 | syndicationGroupCount is the number of different reports of the rows held |
| `ClusterLaws.KindExactly` | packages/clustering/src/engine.ts:675-682 | which kind a returned cluster has, from its members and its two counts |
| `ClusterLaws.CodesExactly` | packages/clustering/src/engine.ts:684-692 | a returned cluster carries singleton_source, exact_url_duplicate, syndicated_text and shared_incident_signals exactly when it has one member, holds two rows of one URL, has more duplicate groups than reports, and has more than one report |
| `ClusterLaws.CodesInOrder` | packages/clustering/src/engine.ts:684-702 | each code at most once, in the declared order |
| `ClusterLaws.NamedByItsMembers` | packages/clustering/src/engine.ts:669-712 | members are in the order of their row identifiers, and the fingerprint is that of the list of them |
| `ClusterLaws.ClustersInOrder` | packages/clustering/src/engine.ts:721-723 | returned clusters are in the order of their fingerprints |
| `OutcomeLaws.ReturnedRowsAreTied` | packages/clustering/src/engine.ts:413-613 | rows are returned in one cluster only through a chain of equal URLs, syndicated pairs and supported pairs |
| `OutcomeLaws.ReturnedRepresentativeIsFirst` | packages/clustering/src/engine.ts:704-707 | the representative a returned cluster names is one of its rows and the first of them all by the rule |
| `OutcomeLaws.ReturnedLinksAreTheFirst` | packages/clustering/src/engine.ts:614-642 | the returned ambiguous links are the first near misses up to the maximum, sorted; all of them when boundsReached is zero |
| `ClusterLaws.LinksInOrder` | packages/clustering/src/engine.ts:724-733 | returned links are in the order of their left ends and then of their right ends |
| `ClusterLaws.ReturnedLinkSaysWhy` | packages/clustering/src/engine.ts:614-640 | every returned link is of two reports that were compared and nearly supported, and says in counts of tokens what they share and by its code what they lack |
| `ClusterLaws.EveryNearMissIsReturned` | packages/clustering/src/engine.ts:614-642 | when boundsReached is zero every such pair has its link returned |
| `Decimals.Truncate6Laws` | packages/clustering/src/engine.ts:157-160 | truncation to six places moves a number towards zero by less than one unit of the last place, and commutes with the sign |
| `LinkLaws.LinksMembers` | packages/clustering/src/engine.ts:614-642 | every link is a candidate pair the evidence did not merge and the contract says to record, and every such pair is a link unless the list was full and a bound was counted |
| `LinkLaws.LinksAreTheFirst` | packages/clustering/src/engine.ts:614-642 | the links recorded are exactly the first near misses in candidate order, as many as the contract allows |
| `RowLaws.RepresentativeIsFirst` | packages/clustering/src/engine.ts:276-294 | the representative is the minimum of the rows by earliest time and then lowest id, or by lowest id |
| `RowLaws.ClusterRepresentativeIsFirst` | packages/clustering/src/engine.ts:704-707 | chosen among the units' representatives only, it is nevertheless the minimum over all rows of the cluster |
| `RowLaws.RowsClusteredOnlyOnEvidence` | packages/clustering/src/engine.ts:413-613 | rows share a cluster only through a chain of equal URLs, syndicated pairs and supported pairs |
| `RowLaws.MembersAreTheRows` | packages/clustering/src/engine.ts:654-671 | the member records of a cluster are those of exactly its rows |
| `RowLaws.AcceptedInAnyOrder` | packages/clustering/src/input.ts:153-178 | acceptance does not depend on the order of the list |
| `RowLaws.OrderIsIrrelevant` | packages/clustering/src/engine.ts:398-440 | an accepted list in any order gives identical clusters, links and stats, or the same refusal |
| `CanonicalLaws.ValueRoundTrip` | packages/clustering/src/contract.ts:341-356 | whatever follows it, a printed value is read back exactly by the parser |
| `CanonicalLaws.StringRoundTrip` | packages/clustering/src/contract.ts:348-354 | a quoted string (section 7 of RFC 8259, lone surrogates escaped) is read back exactly |
| `CanonicalLaws.CanonicalizePrintsNormal` | packages/clustering/src/contract.ts:341-356 | canonicalization fails exactly on values holding something unserializable, and otherwise prints the value with undefined entries dropped and keys sorted at every depth |
| `CanonicalLaws.CanonicalRoundTrip` | packages/clustering/src/contract.ts:336-356 | parsing the canonical text gives the value with its keys sorted |
| `CanonicalLaws.CanonicalTextNamesTheValue` | packages/clustering/src/contract.ts:336-356 | two values have one canonical text exactly when they have one normal form |
| `CanonicalLaws.SameIsNormal` | packages/clustering/src/contract.ts:344-348 | equality up to key order, defined without sorting, is equality of normal forms |
| `CanonicalLaws.KeyOrderIrrelevant` | packages/clustering/src/contract.ts:344-348 | the entries of an object in any order give the same normal form, hence the same text |
| `CanonicalLaws.EqualTextsMeanEqualValues` | packages/clustering/src/contract.ts:336-364 | equal canonical texts mean equal values up to key order, and only that |
| `CanonicalLaws.WordsPrinted` | packages/clustering/src/contract.ts:342-354 | the literal text of null, true and false |
| `CanonicalLaws.NumberPrinted` | packages/clustering/src/contract.ts:350-352 | the literal text of a negative number |
| `CanonicalLaws.ShortEscapesPrinted` | packages/clustering/src/contract.ts:354-354 | the literal text of every string of one unit that has a two-character escape (section 7 of RFC 8259) |
| `CanonicalLaws.OtherStringsPrinted` | packages/clustering/src/contract.ts:354-354 | the literal text of the empty string, a letter, a surrogate pair, a control character and a lone surrogate |
| `CanonicalLaws.ArrayPrinted` | packages/clustering/src/contract.ts:343-343 | the literal brackets and comma around any two items, and the empty array |
| `CanonicalLaws.ObjectPrinted` | packages/clustering/src/contract.ts:344-349 | the literal braces, quotes, colons and comma around any two values, of an object that lists its keys the wrong way round with an undefined one between |
| `Licences.AdmitsMeaning` | tools/supply-chain/sbom.ts:175-186 | a value is admitted exactly when it is not excluded and is listed, or nothing but exclusions is listed |
| `Licences.InstallsExactly` | tools/supply-chain/sbom.ts:170-197 | a package installs exactly when darwin on arm64 admits it, whatever its libc list, or linux on x64 with glibc does, each list empty or read as excluding and listing |
| `Licences.AbsentExactly` | tools/supply-chain/sbom.ts:249-269 | the least set holds exactly the packages absent by their own constraint and those not required directly that have parents, all of them in it |
| `Licences.AdmittedParentIsNotEnough` | tools/supply-chain/sbom.ts:240-249 | a parent both machines admit does not make its child present when that parent is itself inherited as absent: the input, for any three names |
| `Licences.CollectParents` | tools/supply-chain/sbom.ts:220-231 | a package's parents are exactly the packages some snapshot of which depends on it |
| `Licences.InheritAbsence` | tools/supply-chain/sbom.ts:240-269 | the loop ends in the least set holding the unsupported constrained packages and closed under inheritance; every inherited package ranks above all its parents |
| `Licences.LeastIsUnique` | tools/supply-chain/sbom.ts:259-259 | so the set does not depend on the order the keys are scanned in |
| `Licences.CyclesAreNotAbsent` | tools/supply-chain/sbom.ts:240-249 | packages that only keep one another are never absent |
| `Licences.PresentHasReason` | tools/supply-chain/sbom.ts:247-249 | a package left in is required directly, has no parent, or has a parent left in |
| `Licences.TakeInventory` | tools/supply-chain/sbom.ts:271-339 | refuses exactly when some package lacks the licence it needs, and then the least such key; otherwise the three counts are the numbers of packages that are licensed, constrained and inherited, together all of them |
| `Licences.Inventoried` | tools/supply-chain/sbom.ts:220-339 | the steps together: the packages no supported machine installs, spelled out, the edges, the least fixed point and the inventory, with its counts and the package it refuses, by key whatever order the lockfile lists them in; and it fails closed: a package some machine installs that is required directly, that nothing depends on or that a present package depends on is present; a run is refused exactly when a package that names no constraint and is not absent has no licence, and otherwise counts those packages and those that name one |
| `Anomaly.FindGap` | packages/evidence/src/anomaly.ts:249-257 | some two consecutive observations are more than two intervals apart |
| `Anomaly.DecideLabel` | packages/evidence/src/anomaly.ts:142-169 | label, threshold and reasons of one movement against its baseline |
| `Anomaly.LabelTarget` | packages/evidence/src/anomaly.ts:186-288 | the entry of one target, through every early exit, values and thresholds truncated as shown |
| `Anomaly.ChainAnomalies` | packages/evidence/src/anomaly.ts:175-291 | one entry a target, in target order |
| `AnomalyLaws.MedianSplits` | packages/evidence/src/anomaly.ts:106-112 | at least half of the values are at most the median and at least half at least it |
| `AnomalyLaws.MedianIsRobust` | packages/evidence/src/anomaly.ts:119-124 | changing fewer than half of the values leaves the centre between two of the unchanged ones |
| `AnomalyLaws.SpreadIsRobust` | packages/evidence/src/anomaly.ts:119-124 | and leaves the spread at most the scaled distance between two of the unchanged ones, however large the changed values are |
| `AnomalyLaws.BaselineNegated` | packages/evidence/src/anomaly.ts:125-140 | negating a baseline negates its centre and keeps its spread, under either method |
| `AnomalyLaws.LabelMirrors` | packages/evidence/src/anomaly.ts:142-169 | mirroring a movement and its baseline keeps threshold, reasons and every label but the spikes |
| `AnomalyLaws.ZeroFloorBreaksTheMirror` | packages/evidence/src/anomaly.ts:142-169 | with a floor of zero a target of four observations, the latest a movement of zero after -11, -10 and -9, is a positive spike, and so is its mirror image: the input |
| `AnomalyLaws.MirroredTargetExactly` | packages/evidence/src/anomaly.ts:175-291 | negating every observation of a target negates the value and changes nothing but the label, and swaps the spikes exactly unless the latest movement is zero and stands out of fresh, long and unbroken history |
| `AnomalyLaws.MirroredTargetSwapsSpikes` | packages/evidence/src/anomaly.ts:175-291 | so with a positive floor negating every observation always swaps positive and negative spikes |
| `AnomalyLaws.SpikeNeedsEvidence` | packages/evidence/src/anomaly.ts:220-287 | a spike is labelled exactly when the history is fresh, long enough and unbroken, and the movement is at least the floor from zero and from the centre and at least the scaled spread from the centre |
| `LabelLaws.ConsideredExactly` | packages/evidence/src/anomaly.ts:187-189 | the observations considered are the latest ones in time order, as many as the rules allow |
| `LabelLaws.LabelExactly` | packages/evidence/src/anomaly.ts:201-287 | exactly when each label is given, over the observations: stale, insufficient history, missing, and a spike that is positive exactly on a standing movement of at least zero and negative on one below |
| `LabelLaws.ReasonsExactly` | packages/evidence/src/anomaly.ts:201-287 | and which reason goes with it |
| `LabelLaws.WindowsExactly` | packages/evidence/src/anomaly.ts:205-284 | the observation and baseline windows of every entry |
| `LabelLaws.NumbersExactly` | packages/evidence/src/anomaly.ts:207-287 | the value and the threshold shown are the truncated movement and the truncated threshold it was held against |
| `LabelLaws.MeanExactly` | packages/evidence/src/anomaly.ts:129-133 | the mean method's centre is where the distances of the values from it cancel out |
| `LabelLaws.SpreadExactly` | packages/evidence/src/anomaly.ts:131-133 | its spread is the square root of the mean squared distance |
| `LabelLaws.EntriesInOrder` | packages/evidence/src/anomaly.ts:182-184 | one entry a target, in the order of the targets' names |
| `ProhibitedText.CodePointsRoundTrip` | packages/contracts/src/text-escape.ts:67-68 | iterating a string by code points and joining them again gives the string, lone surrogates included |
| `ProhibitedText.JoinUnitsRoundTrip` | packages/contracts/src/prohibited-text.ts:89-96 | a list of code points is what its string iterates to, unless a lone high surrogate stands before a lone low one |
| `ProhibitedText.RuleExactly` | packages/contracts/src/prohibited-text.ts:61-71 | exactly which code points break the rule, and the label of each |
| `ProhibitedTextLaws.RemovalLeavesNoneExactly` | packages/contracts/src/prohibited-text.ts:78-81 | a removal leaves nothing prohibited exactly when it brings no two halves of a prohibited code point together |
| `ProhibitedTextLaws.RemovalOfWellFormed` | packages/contracts/src/prohibited-text.ts:78-81 | a well-formed value loses exactly its prohibited code points, and a second removal changes nothing |
| `ProhibitedTextLaws.RemovalCanJoinHalves` | packages/contracts/src/prohibited-text.ts:78-81 | two lone halves around a zero-width space leave a prohibited code point: the input |
| `TextEscape.EscapeOneLineParts` | packages/contracts/src/text-escape.ts:64-86 | the loop computes the specified parts, its printable shortcut included |
| `TextEscape.CodePointLength` | packages/contracts/src/text-escape.ts:110-122 | the loop over code units counts the code points iteration yields |
| `TextEscape.LocateProhibitedText` | packages/contracts/src/text-escape.ts:139-160 | one entry for every code point the class matches, in order, each with the line and the column it stands in once the points are split at their line feeds |
| `TextEscape.PlaceExactly` | packages/contracts/src/text-escape.ts:146-158 | the counted line is one more than the lines ended before a position and the column one more than the points since |
| `TextEscape.LocatedExactly` | packages/contracts/src/text-escape.ts:139-160 | the entry of a reported code point has as many entries before it as code points before it are reported |
| `TextEscape.LastOpener` | packages/contracts/src/text-escape.ts:99-99 | the last opener at or before a position, or none |
| `TextEscape.NextClose` | packages/contracts/src/text-escape.ts:100-100 | the first closing brace from a position on, or none |
| `TextEscapeLaws.EscapeShape` | packages/contracts/src/text-escape.ts:23-26 | an escape is its opener, at least four upper-case hexadecimal digits and a brace, and reads back as its code point |
| `TextEscapeLaws.PartsLoseNothing` | packages/contracts/src/text-escape.ts:54-86 | the parts concatenate to the escaped value and decode to the value; each escape part is one named code point, each text part is non-empty and names none, and no two text parts are adjacent |
| `TextEscapeLaws.EscapeIsAFixedPoint` | packages/contracts/src/text-escape.ts:45-51 | the escaped value names nothing more, so it escapes to itself |
| `TextEscapeLaws.ShownAsItStands` | packages/contracts/src/text-escape.ts:45-51 | a value is shown unchanged exactly when it names nothing |
| `TextEscapeLaws.CutSplitsNoEscape` | packages/contracts/src/text-escape.ts:93-102 | for every limit the cut is at most the limit and the length and falls inside no real escape, even when the value holds literal openers |
| `TextEscapeLaws.CutIsLongestExactly` | packages/contracts/src/text-escape.ts:93-102 | the cut keeps as much as a safe cut can exactly unless the last opener before the limit is closed only at or after it and is no real escape |
| `TextEscapeLaws.LiteralIsCutShort` | packages/contracts/src/text-escape.ts:98-102 | a literal opener, one digit and a brace: cut to four characters none is kept, although four split nothing: the input |
| `Verdicts.VerdictLines` | tools/ci/codex-verdict.ts:35-43 | the loop finds the verdicts of a body's trimmed lines in order |
| `Verdicts.LinesExactly` | tools/ci/codex-verdict.ts:38-38 | splitting a body loses no line: one more than its line feeds, and putting the line ends back gives the body |
| `Verdicts.TrimMeaning` | tools/ci/codex-verdict.ts:39-39 | trimming takes white space off both ends and stops at anything else |
| `Verdicts.BlankExactly` | tools/ci/codex-verdict.ts:39-39 | the white space and line terminators of ECMA-262, one by one |
| `Verdicts.LineVerdictMeaning` | tools/ci/codex-verdict.ts:22-22 | a line is a verdict exactly when it is the fixed words of one followed by forty lower-case hexadecimal digits |
| `Verdicts.Decide` | tools/ci/codex-verdict.ts:50-64 | the nested loops compute the decision of the writers' verdicts |
| `Verdicts.PassedMeaning` | tools/ci/codex-verdict.ts:45-49 | success exactly when the last verdict naming the head, among those written with write access, is a pass; likewise for changes required and for none |
| `Verdicts.LastWordDecides` | tools/ci/codex-verdict.ts:45-64 | a writer's comment ending in a verdict line for the head settles the decision, whatever came before |
| `Verdicts.VerdictLineDecides` | tools/ci/codex-verdict.ts:54-58 | a verdict line for the head anywhere in a writer's last comment settles the decision when no later line names the head |
| `Verdicts.VerdictAnywhereDecides` | tools/ci/codex-verdict.ts:38-64 | so one does as the first line of a comment, between others, as the last or alone: a pass passes the head and the other refuses it |
| `Verdicts.PassWords` | tools/ci/codex-verdict.ts:22-22 | the words that pass, literally |
| `Verdicts.ChangesWords` | tools/ci/codex-verdict.ts:22-22 | the words that refuse, literally |
| `Verdicts.OthersDecideNothing` | tools/ci/codex-verdict.ts:55-58 | a comment by someone who cannot write, without a body, or naming only other commits changes nothing |
| `CodexVerdict.Call` | tools/ci/codex-verdict.ts:100-129 | up to three attempts, stopping at the first that is not transient; it succeeds exactly when the last was answered, and a write changes the status exactly when some attempt was applied |
| `Paging.PagingIsExact` | tools/ci/codex-verdict.ts:141-156 | pages read one after the other while comments change make up the conversation as it is at the last exactly when every page read before still is the same page of it |
| `Paging.GrowingStands` | tools/ci/codex-verdict.ts:141-156 | while comments are only added, every full page read stays the same page |
| `Paging.DeletionSkipsAComment` | tools/ci/codex-verdict.ts:141-156 | a comment deleted between two pages moves the last one onto a page already read: a head whose last verdict is changes required at every moment is read as passed: the input |
| `CodexVerdict.Conversation` | tools/ci/codex-verdict.ts:141-156 | returns the comments of every page, each as it was when read, the last page the only one not full; or says whether a page could not be read or the fiftieth was full |
| `CodexVerdict.ReadDecision` | tools/ci/codex-verdict.ts:199-201 | the decision over the pages read, or why not; when comments are only added and every call is answered, it reports too many comments exactly from 5,000 on; nothing is written |
| `CodexVerdict.Write` | tools/ci/codex-verdict.ts:158-167 | one status write: what is applied, and what the status becomes |
| `CodexVerdict.Settle` | tools/ci/codex-verdict.ts:198-211 | once the head is known: pending is written, then every page is read, the last at a named attempt, and only then one state is written, the decision over what was read, or failure |
| `CodexVerdict.Record` | tools/ci/codex-verdict.ts:170-212 | over every pattern of failed, lost and refused calls and of comments added, edited or deleted: the verdict is the decision over the pages read, pending is asked for before any page and only writes follow the last; success is left on the head only on a pass over those pages or when no write was applied; and while the pages stand, as they do when comments are only added, a head Codex never passed never carries success, run after run |
| `OneTimeCodes.Store.IssueChallenge` | packages/database/src/dashboard-auth.ts:489-516 | the answer and the tables after it: the account's live challenges superseded and the new one filed, or nothing at all |
| `OneTimeCodes.Store.RecordAttempt` | packages/database/src/dashboard-auth.ts:532-550 | one more attempt on a live challenge, its new count returned; otherwise nothing |
| `OneTimeCodes.Store.ConsumeAndCreateSession` | packages/database/src/dashboard-auth.ts:552-580 | the challenge consumed and its session filed together, or neither |
| `OneTimeCodes.ConsumedExactly` | packages/database/src/dashboard-auth.ts:563-580 | a code is accepted exactly when it is filed, unused, not replaced, now is before its expiry, its attempts are below the limit and its session is new |
| `OneTimeCodes.CountedExactly` | packages/database/src/dashboard-auth.ts:538-550 | an attempt is counted exactly when it is filed, unused, not replaced and now is before its expiry |
| `OneTimeCodes.IssueLeaves` | packages/database/src/dashboard-auth.ts:495-516 | what issuing changes, field by field, and exactly when it fails |
| `OneTimeCodes.CallLeaves` | packages/database/src/dashboard-auth.ts:532-580 | a counted attempt changes one count, an accepted code one mark and one session, and nothing else |
| `OneTimeCodes.UsedBeforeExpiry` | packages/database/src/dashboard-auth.ts:571-573 | over every run a used code was used before it expired |
| `OneTimeCodes.ExpiredForGood` | packages/database/src/dashboard-auth.ts:532-573 | from its expiry on, whatever is called in between, no call accepts a code or counts an attempt at it |
| `OneTimeCodes.EveryRunIsKept` | packages/database/src/dashboard-auth.ts:489-580 | over every run of whole calls: at most one live challenge an account, none both consumed and superseded, and sessions and consumed challenges one to one |
| `OneTimeCodes.NothingTurnsBack` | packages/database/migrations/0011_passwordless_email_auth.sql:147-177 | over every run identities stay, counts only grow, each mark is set once, and a used or replaced challenge never changes: the row guard is never met |
| `OneTimeCodes.AcceptedOnce` | packages/database/src/dashboard-auth.ts:552-562 | after a code is accepted its attempt count stays below the limit it was accepted under and no later call accepts it |
| `OneTimeCodes.NewerCodeEndsOlder` | packages/database/src/dashboard-auth.ts:489-494 | after a newer code is issued no call accepts, or counts an attempt at, an older one of the account |
| `OneTimeCodes.AttemptsAreCounted` | packages/database/src/dashboard-auth.ts:532-537 | the count is what it was and the attempts answered since: none is lost |
| `IssueRaces.LandsAsOneStepExactly` | packages/database/src/dashboard-auth.ts:495-516 | the two statements commit what one step would exactly unless a challenge of the account was issued since the first and is live |
| `IssueRaces.LandKeepsOneLiveExactly` | packages/database/src/dashboard-auth.ts:489-494 | and exactly then, from one live challenge an account, they leave one |
| `IssueRaces.OneLiveExactly` | packages/database/src/dashboard-auth.ts:489-494 | an interleaving shows one live challenge an account throughout exactly when no request commits while a challenge issued since its first statement is live |
| `IssueRaces.ApartIsSerial` | packages/database/src/dashboard-auth.ts:489-516 | when requests for one account do not overlap, any interleaving leaves what whole calls do, each made when it commits |
| `IssueRaces.BothCodesAreAccepted` | packages/database/src/dashboard-auth.ts:489-494 | two overlapping requests leave two live codes, and both are accepted: the input |
| `SignupRequests.Store.InsertRequest` | packages/database/src/readers.ts:70-104 | the answer and the table after it, with the lapsed request superseded or nothing changed |
| `SignupRequests.Store.RecordAttempt` | packages/database/src/readers.ts:147-159 | one more attempt unless the request is superseded |
| `SignupRequests.Store.VerifyRequest` | packages/database/src/readers.ts:161-173 | verified once, never when decided or superseded |
| `SignupRequests.Store.DecideRequest` | packages/database/src/readers.ts:175-196 | a denial naming an account is refused; otherwise a verified, undecided request takes the ruling |
| `SignupRequests.InsertLeaves` | packages/database/src/readers.ts:76-104 | what inserting changes, field by field |
| `SignupRequests.AttemptExactly` | packages/database/src/readers.ts:147-159 | an attempt is counted exactly on a filed request that is not superseded, and changes its count alone |
| `SignupRequests.VerifyExactly` | packages/database/src/readers.ts:161-173 | verified exactly when filed, unverified, undecided and not superseded, and only then changed |
| `SignupRequests.DecideExactly` | packages/database/src/readers.ts:175-196 | each answer of a decision and what it changes |
| `SignupRequests.AttemptsAreCounted` | packages/database/src/readers.ts:147-159 | over every run the count is what it was and the attempts answered since |
| `SignupRequests.RulingStands` | packages/database/src/readers.ts:161-196 | what was verified or ruled stays so over any run |
| `SignupRequests.EveryRunIsKept` | packages/database/migrations/0019_signup_supersession.sql:37-111 | over every run no stored row breaks a check or the unique index and no update meets the row guard: superseded means never verified and never decided, decided means verified, one open request an address |
| `SignupRequests.RunsKeep` | packages/database/src/readers.ts:147-196 | from any sound table: the same, and over the whole run every mark is set once and a superseded row never changes |
| `SignupRequests.OpenExistsExactly` | packages/database/src/readers.ts:70-76 | open_exists is answered exactly when the identifier is taken or the address has an open request that is verified or unexpired |
| `SignupRequests.RepeatedIdentifierIsOpenExists` | packages/database/src/readers.ts:100-103 | a repeated identifier is answered open_exists although nothing is open: the input |
| `SignupRequests.VerifiedWaits` | packages/database/src/readers.ts:75-75 | a verified request stays open and verified until it is decided itself |
| `SignupRequests.AnsweredOnce` | packages/database/src/readers.ts:161-196 | a request is verified at most once and decided at most once over any run |
| `InsertRaces.EveryInterleavingIsKept` | packages/database/migrations/0019_signup_supersession.sql:37-111 | over every interleaving of statements no stored row breaks a check or the unique index and no update meets the row guard |
| `InsertRaces.LandsAsOneStepExactly` | packages/database/src/readers.ts:70-104 | the two statements answer and leave what one step does exactly unless a request that lapsed was committed between them; then the call is turned away although nothing unexpired is open |
| `InsertRaces.ExpiredCodeBlocks` | packages/database/src/readers.ts:70-76 | an expired, unverified request committed after the new request began blocks its address: the input |

## Left out

- OneTimeCodes.Store.IssueChallenge: its two statements are one step here, and two in `IssueRaces`; the foreign key and the shape of the digest are not modelled.
- SignupRequests.Store.InsertRequest: one step here, and two in `InsertRaces`; the address and digest patterns and the foreign keys are not modelled.
- CodexVerdict.Call: a write whose answer is lost is applied at its attempt or never, not later; pauses, headers and descriptions are left out.
- CodexVerdict.Record: the environment's checks before the first call, and the log line after the last, are left out.
- CanonicalLaws.ValueRoundTrip: numbers are unbounded integers; fractions, and integers from 1e21 on, which print in exponent form, are not modelled.
- Licences.Inventoried: takes the packages by key, the snapshots and the direct requirements as read from the lockfile; the parser, purls, hashes and the document itself are left out.
- EngineSteps.AssertInputs: types, keys, accessors, prototypes and parsable timestamps are not checked, since a row of the model has its fields; a contract with other input keys is not modelled.
- Floating-point rounding of ratios and scores.
- `tokenize`, `normalizeForMatching`, `assembleText`: regular expressions and Unicode tables.
- SHA-256 and FNV-1a themselves, UUIDs, `Date.parse`.
- `escapeMultiLine`, `describeCodePoint`, `describeLocated`, the name table and `prohibitedCodePoints`: single expressions over what is modelled.
- `reportingAnomalies` and the anomaly feed's counters, which repeat the shape of `chainAnomalies`.
- The throttle buckets, reads, listings, the published mark and every other table of the database layer.
- The classifier, evidence resolution, drafting, story cards, cost rules, command line, web application, network clients and file handling.
