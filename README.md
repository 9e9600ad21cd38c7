# StreamJoin core, modelled in Dafny

StreamJoin is a PySpark library. It joins two change-data-capture (CDC)
streams of Delta tables incrementally and upserts the result into a target
table. Under the Spark and Delta plumbing sit a handful of deterministic
rules. This project models those rules and proves what they promise:

- **Key bookkeeping** (`keys.dfy`):
  - `_safeMergeLists` is an ordered, duplicate-free union of key lists.
  - The join's primary keys are split into keys always present on an emitted row ("non-nullable") and keys that an outer join may null ("nullable").
  - That split is folded into the split inherited from an upstream join stage.
- **The upsert's match condition** (`merge_condition.dfy`):
  - `_mergeCondition` builds one disjunct per subset of the nullable keys. It is modelled as the source's nested loops, proved equal to a specification function, and given its meaning over rows.
  - `condInitial` is modelled too.
  - So is the last-write-wins guard of the matched update.
- **Micro-batch deduplication** (`dedup.dfy`):
  - Update pre-images are dropped.
  - One row is kept per primary-key value: the first by descending sequence columns, or any one when there are none.
  - The target-side ordering adds a fewest-nulls tie-break.
- **Micro-batch outer-join emulation** (`microbatch_join.dfy`):
  - Each side's new rows are joined to the other side's snapshot.
  - The two results are full-outer-joined on the predicate and on null-safe primary-key equality.
  - The pairs are classified into "left", "right" and "both", unioned, and filtered to rows with a non-null key.
  - The `MicrobatchJoin` object records the frames it persists and releases them on exit.
- **Version pinning** (`version_pinning.dfy`): across micro-batches, each side's snapshot version comes from a fallback chain:
  1. the batch's largest `_commit_version`;
  2. the previously pinned version;
  3. the table's latest version.
- **Incremental aggregation** (`aggregator.dfy`): the plus/minus delta of `GroupByWithAggs` and its merge into the target.
- **Chaining of streaming stages** (`chain.dfy`): `start`, `stop`, `isActive`, `lastProgress`, `_depth` and `stagingIndex` recurse over the dependent stage.
- **Stream handles and join expressions** (`streams.dfy`):
  - `static` caches the unversioned snapshot only.
  - `columns()` hides the CDC bookkeeping columns.
  - Key and sequence declarations are recorded.
  - `ColumnRef.toColumn` resolves a column to the right frame by the identity of its stream handle.

Rows are `map<string, Option<int>>`; a missing column reads as SQL null.
Spark frames are sequences of rows. Join predicates, selections and snapshot
readers are function parameters.

## Model

| member | source | states |
|---|---|---|
| Rows.NonPreimageRows | StreamJoin.py:743-744 | the rows kept are exactly those of events that are not update pre-images, and there are no more of them than events |
| Keys.Distinct | StreamJoin.py:839 | `list(dict.fromkeys(s))` has no duplicates, the same elements as `s`, and is no longer than `s` |
| Keys.DistinctKeepsFirstOccurrenceOrder | StreamJoin.py:839 | elements appear in the order of their first occurrence in the input |
| Keys.DistinctOfNoDup | StreamJoin.py:839 | a duplicate-free list is returned unchanged |
| Keys.SafeMergeLists | StreamJoin.py:831-840 | the result is None iff both inputs are None; otherwise it is duplicate-free and holds exactly the elements of `l ++ r` |
| Keys.SafeMergeListsIsOrderedUnion | StreamJoin.py:831-840 | when either input is present, the result is the first-occurrence-ordered union of `l ++ r`, left first |
| Keys.JoinPrimaryKeys | StreamJoin.py:723 | the join's primary keys are duplicate-free, are exactly the keys of either side, and equal `_safeMergeLists` of the two sides |
| Keys.Keep | StreamJoin.py:953-954 | the keys of a side are exactly the merged keys that side declares, and duplicate-freedom is kept |
| Keys.Without | StreamJoin.py:900-912 | the comprehension `[pk for pk in s if pk not in drop]` keeps exactly the elements of `s` not in `drop` |
| Keys.NonNullAndNullPrimaryKeys | StreamJoin.py:1062-1068 | the split is a rearrangement of left ++ right. Left join: right keys nullable. Right join: left keys nullable. Any other type: no nullable keys |
| Keys.MergeNonNullKeys | StreamJoin.py:898-904 | a list is returned iff the join type is inner, left or right, and it is duplicate-free |
| Keys.MergeNullKeys | StreamJoin.py:906-912 | a list is returned iff the join type is inner, left or right, and it is duplicate-free |
| Keys.MergeWithEmptyUpstream | StreamJoin.py:947-958 | with an empty upstream split, the merged lists are the stage's own candidate split, deduplicated |
| Keys.MergedSplitIsPartition | StreamJoin.py:898-912 | for a disjoint upstream split drawn from the kept side, the merged lists are disjoint and cover exactly the keys of both splits |
| Keys.StageKeySplit | StreamJoin.py:945-958 | a stage's split exists iff the join type is supported, and both of its lists are duplicate-free |
| Keys.StageKeySplitPartitionsPrimaryKeys | StreamJoin.py:945-958 | when the two inputs of an outer join declare no key in common, and the upstream split is disjoint and drawn from the left input, each primary key is non-nullable or nullable, never both, and no other key appears. A key both inputs of an outer join declare is the case of `Keys.SharedOuterKeyIsInBothLists` |
| Keys.SharedOuterKeyIsInBothLists | StreamJoin.py:945-958 | a key that both inputs of a left or right join declare, and that the upstream split does not mention, lands in both the non-nullable and the nullable list |
| MergeCondition.AllCombinationsCount | StreamJoin.py:881-883 | the combinations of every size from 0 to n number 2^n |
| MergeCondition.FilterIsCombination | StreamJoin.py:883 | every order-preserving subset of the nullable keys is one of `itertools.combinations` |
| MergeCondition.BuildMergeCondition | StreamJoin.py:879-896 | the nested loops build one branch per combination in `itertools` order. Each branch has equality on the non-nullable and chosen keys, "either null" on the rest, and the extra condition only when nullable keys exist |
| MergeCondition.BuildBranch | StreamJoin.py:884-895 | the middle loop's body builds exactly the branch of one combination |
| MergeCondition.Combinations | StreamJoin.py:883 | `itertools.combinations` (characterized by `FilterIsCombination` and `AllCombinationsCount`) |
| MergeCondition.MergeConditionOf | StreamJoin.py:879-896 | the specification of `_mergeCondition`: one branch per combination (characterized by `MergeConditionMeaning` and `MergeConditionDisjunctCount`) |
| MergeCondition.MergeConditionDisjunctCount | StreamJoin.py:879-896 | the condition is a disjunction of exactly 2^&#124;nullable&#124; branches |
| MergeCondition.MergeConditionWithoutNullableKeys | StreamJoin.py:879-896 | with no nullable keys, the condition is the single conjunction of equalities, without the extra condition |
| MergeCondition.EverySubsetHasBranch | StreamJoin.py:881-895 | every subset of the nullable keys has its branch among the disjuncts |
| MergeCondition.FilterIsInAllCombinations | StreamJoin.py:881-883 | the keys any predicate picks, in their order, form one of the combinations the outer loops visit |
| MergeCondition.BranchHoldsExactly | StreamJoin.py:884-895 | a branch that holds forces equality on the non-nullable keys, equality or a null on every nullable key, and the extra condition |
| MergeCondition.MergeConditionMeaning | StreamJoin.py:879-896 | the condition holds iff every non-nullable key is equal, every nullable key is equal or null on one side, and the extra condition holds when nullable keys exist |
| MergeCondition.MergeConditionSound | StreamJoin.py:879-896 | when the condition holds, every key is equal, or (when nullable) null on one side |
| MergeCondition.MergeConditionComplete | StreamJoin.py:879-896 | when every key is equal, or (when nullable) null on one side, and the extra condition holds, the condition holds |
| MergeCondition.InitialConditionImpliesMergeCondition | StreamJoin.py:961 | `condInitial` (equality plus null-safe equality) implies the outer merge condition, and is equivalent to it without nullable keys |
| MergeCondition.InitialConditionOnSharedKey | StreamJoin.py:961 | a key in both lists of the split is compared with `=` and with `<=>`; the `=` decides, so a null on either side never matches |
| MergeCondition.InitialCondition | StreamJoin.py:961 | `condInitial` (characterized by `InitialConditionImpliesMergeCondition` and `InitialConditionOnSharedKey`) |
| MergeCondition.Project | StreamJoin.py:988-990 | the matched update sets every target column to the staged row's value and nothing else |
| MergeCondition.GuardAllows | StreamJoin.py:994 | `matchCondition` over every sequence column (characterized by `GuardOfOneColumn`) |
| MergeCondition.ApplyMatched | StreamJoin.py:988-994 | the guarded update of one matched row (characterized by `ApplyMatchedIdempotent`, `ApplyMatchedKeepsSequenceMonotonic` and `LastWriteWinsInEitherOrder`) |
| MergeCondition.GuardOfOneColumn | StreamJoin.py:994 | the guard for one sequence column is `u.sc is null OR u.sc <= staged.sc`, with a null staged value failing |
| MergeCondition.ApplyMatchedIdempotent | StreamJoin.py:994 | replaying the same staged row leaves the target row as a single application did |
| MergeCondition.ApplyMatchedKeepsSequenceMonotonic | StreamJoin.py:994 | a non-null sequence value of a target row never decreases |
| MergeCondition.LastWriteWinsInEitherOrder | StreamJoin.py:994 | from any target row, two updates leave the largest of the target's sequence value (when not null) and the two updates' values, whichever order they arrive in; an update older than the target row is refused |
| Dedup.PrecedesIsStrictOrder | StreamJoin.py:851 | the window ordering is irreflexive and transitive, and ties are transitive |
| Dedup.DedupBy | StreamJoin.py:865 | deduplication never yields more rows than it is given |
| Dedup.AdmitKeepsDedup | StreamJoin.py:865 | admitting one more row keeps the result a deduplication of the rows seen so far |
| Dedup.DedupByIsDedup | StreamJoin.py:863-868 | the result has distinct keys, comes from the input, covers every key of the input, and no input row with the same key ranks strictly before the kept one |
| Dedup.DedupBatchIsDedupOfChanges | StreamJoin.py:850-854 | the deduplicated batch holds no update pre-image, has distinct keys, and covers the key of every other event |
| Dedup.DedupBatchKeepsLatest | StreamJoin.py:850-851 | with keys and sequence columns declared, each kept row carries the largest first-sequence value for its key, and a null never wins over a value |
| Dedup.BatchOrder | StreamJoin.py:850-851 | descending sequence columns when keys and sequence columns are declared, otherwise no ordering (characterized by `DedupBatchKeepsLatest`) |
| Dedup.DedupBatch | StreamJoin.py:850-868 | pre-images dropped, then one row per key (characterized by `DedupBatchIsDedupOfChanges` and `DedupBatchKeepsLatest`) |
| Dedup.TargetOrder | StreamJoin.py:993-996 | descending sequence columns, then fewest nulls (characterized by `TargetDedupPrefersFewestNulls`) |
| Dedup.TargetDedupPrefersFewestNulls | StreamJoin.py:993 | among rows tied on key and sequence values, the target-side survivor has the fewest null columns |
| MicrobatchJoin.DriveMatches | StreamJoin.py:550 | the matches of a driving row are exactly the other side's rows for which the join predicate holds |
| MicrobatchJoin.DriveRow | StreamJoin.py:550-556 | in an outer side join a driving row yields at least one row; which rows it yields is stated by `MicrobatchJoin.DriveRowProduces` |
| MicrobatchJoin.DriveRowProduces | StreamJoin.py:550-556 | a driving row yields exactly the selection over itself and each row of the other side that the predicate joins it with, and, in an outer side join where it joins nothing, the selection over itself and an all-null row; the driving row keeps its own side (`sel(d, o)` on the left, `sel(o, d)` on the right) |
| MicrobatchJoin.SideJoin | StreamJoin.py:550-556 | an outer side join yields at least one row per driving row; an inner one against an empty snapshot yields nothing |
| MicrobatchJoin.SideJoinRows | StreamJoin.py:550-556 | a row is in the side join iff some driving row produces it as `DriveRowProduces` states, for the left-driven and the right-driven join alike |
| MicrobatchJoin.UnmatchedDrivingRowIsKept | StreamJoin.py:550-556 | on either side, an unmatched driving row passes through an outer side join, paired with an all-null row on the other side |
| MicrobatchJoin.PairsOfMembers | StreamJoin.py:560 | the pairs of one left row are exactly its matches, or a single pair with a null right side |
| MicrobatchJoin.LeftPairsHaveLeftRows | StreamJoin.py:560 | every left-driven pair carries one of the left rows |
| MicrobatchJoin.LeftPairsMatched | StreamJoin.py:560 | a matched pair is among the left-driven pairs iff both rows are present and the condition holds |
| MicrobatchJoin.LeftPairsUnmatched | StreamJoin.py:560 | a left row appears with a null right side iff it matches no right row |
| MicrobatchJoin.RightOnlyPairs | StreamJoin.py:560 | the right-only pairs are exactly the right rows that match no left row, with a null left side |
| MicrobatchJoin.FullOuterJoinHasNoEmptyPair | StreamJoin.py:560 | no pair of the full outer join lacks both sides |
| MicrobatchJoin.FullOuterJoinMatched | StreamJoin.py:560 | a matched pair is in the outer join iff both rows are present and the condition holds |
| MicrobatchJoin.FullOuterJoinLeftOnly | StreamJoin.py:560 | a left row appears alone iff it matches no right row |
| MicrobatchJoin.FullOuterJoinRightOnly | StreamJoin.py:560 | a right row appears alone iff it matches no left row |
| MicrobatchJoin.FullOuterJoin | StreamJoin.py:560 | the pairs of the full outer join (characterized by `FullOuterJoinMatched`, `FullOuterJoinLeftOnly`, `FullOuterJoinRightOnly` and `FullOuterJoinHasNoEmptyPair`) |
| MicrobatchJoin.OnKeys | StreamJoin.py:558-560 | the join predicate conjoined with null-safe equality of every primary key (used by `MatchedPairsGoToBothInOuterJoins` and `MatchedPairsInInnerJoin`) |
| MicrobatchJoin.JoinedOuter | StreamJoin.py:550-560 | the full outer join of the two side joins (characterized by `SideJoinRows` and the `FullOuterJoin` lemmas) |
| MicrobatchJoin.LeftRows | StreamJoin.py:563 | a row is in "left" iff it is the left side of a pair whose right keys are all null |
| MicrobatchJoin.RightRows | StreamJoin.py:564 | a row is in "right" iff it is the right side of a pair whose left keys are all null |
| MicrobatchJoin.BothRows | StreamJoin.py:567-573 | a row is in "both" iff it is the selection over a pair that passes the join type's key filter |
| MicrobatchJoin.KeyedUnion | StreamJoin.py:563-575 | a row is in the union iff it has a non-null primary key and some pair contributes it to "left", "right" or "both" |
| MicrobatchJoin.JoinOutcome | StreamJoin.py:558-579 | `join` fails iff there are no primary keys or the join type is not inner, left or right, and each failure has its own error |
| MicrobatchJoin.MatchedPairsGoToBothInOuterJoins | StreamJoin.py:569-571 | in a left or right join every matched pair passes the "both" filter |
| MicrobatchJoin.MatchedPairsInInnerJoin | StreamJoin.py:567-568 | in an inner join a matched pair passes the "both" filter iff none of its keys is null |
| MicrobatchJoin.LeftAndBothOverlapOnlyOnNullKeys | StreamJoin.py:563-575 | a pair in both "left" and "both" occurs only in an outer join, with all keys null, so the final filter drops it |
| MicrobatchJoin.UnmatchedLeftRowSurvives | StreamJoin.py:560-575 | an unmatched left row with a non-null key comes out of the union unchanged |
| MicrobatchJoin.UnmatchedRightRowSurvives | StreamJoin.py:560-575 | an unmatched right row with a non-null key comes out of the union unchanged |
| MicrobatchJoin.Joiner.constructor | StreamJoin.py:518-526 | the object holds the four frames and has persisted nothing |
| MicrobatchJoin.Joiner.Join | StreamJoin.py:534-579 | the result is the join outcome. Missing keys persist nothing; an unsupported type persists only the outer join; otherwise the outer join and the result are persisted |
| MicrobatchJoin.Joiner.Exit | StreamJoin.py:584-587 | every persisted frame is released in order, and the persisted list ends empty |
| VersionPinning.SideEvents | StreamJoin.py:743-744 | a side's events hold no update pre-image and include every other event of that side |
| VersionPinning.MaxVersion | StreamJoin.py:745-750 | the maximum is null iff the side has no rows; otherwise it is attained and bounds every commit version |
| VersionPinning.Resolve | StreamJoin.py:757-764 | the fallback chain (characterized by `ResolvedVersionOfBatch`) |
| VersionPinning.ResolvedVersionOfBatch | StreamJoin.py:753-764 | the pinned version is the batch maximum when the side has rows, else the last pinned version, else the latest version |
| VersionPinning.LastPresentIsLast | StreamJoin.py:757-758 | the carried-over version is null iff no batch so far had rows, and otherwise is the maximum of the latest batch that had rows |
| VersionPinning.PinHistoryFollowsLastNonEmptyBatch | StreamJoin.py:738-770 | over successive batches, the pin is the maximum of the most recent batch with rows on that side, or the first batch's latest version before any |
| VersionPinning.PinHistoryFrom | StreamJoin.py:738-770 | the same statement from any previously pinned version |
| VersionPinning.Pinning.constructor | StreamJoin.py:738-739 | nothing is pinned before the first batch |
| VersionPinning.Pinning.OnBatch | StreamJoin.py:740-770 | each side's version follows the fallback chain independently, and the stored last version equals the one just resolved |
| Aggregator.GroupSumsAreSums | StreamJoin.py:131-132 | a group is present on a side iff some change on that side has its key, and its value is that side's sum for the group |
| Aggregator.GroupSums | StreamJoin.py:131-132 | the grouped sum of one side (characterized by `GroupSumsAreSums`) |
| Aggregator.MergeInto | StreamJoin.py:135-140 | a matched group gets `u + staged`, an unmatched staged group is inserted with the staged value, and other target groups are unchanged |
| Aggregator.StagedAsWritten | StreamJoin.py:133-134 | the staged delta, as written, has one entry per plus-side group and no other |
| Aggregator.ApplyAsWritten | StreamJoin.py:129-140 | one batch merged as written (characterized by `AsWrittenUpdatesPlusGroups` and `AsWrittenMissesMinusOnlyGroup`) |
| Aggregator.AsWrittenUpdatesPlusGroups | StreamJoin.py:131-140 | as written, a group with plus changes ends at old + plus − minus, and untouched groups are unchanged |
| Aggregator.AsWrittenBalancedBatchKeepsMatched | StreamJoin.py:155-158 | a batch whose plus sums equal its minus sums leaves every matched aggregate unchanged |
| Aggregator.AsWrittenMissesMinusOnlyGroup | StreamJoin.py:133-134 | as written, moving a row of value 5 out of a group worth 5 leaves that group at 5 instead of 0 |
| Aggregator.StagedFull | StreamJoin.py:133-134 | the corrected staged delta has one entry per group present on either side |
| Aggregator.ApplyFull | StreamJoin.py:129-140 | one batch merged with the corrected delta (characterized by `FullConservesEveryGroup`) |
| Aggregator.FullConservesEveryGroup | StreamJoin.py:131-140 | corrected, every group ends at old + plus − minus, and a group is present iff it was before or the batch touched it |
| Aggregator.FullAgreesWhenMinusGroupsArePlusGroups | StreamJoin.py:133-134 | the correction changes nothing when every minus group also has plus changes |
| Aggregator.FullHandlesMovedRow | StreamJoin.py:133-134 | corrected, the moved-from group ends at 0 and the moved-to group at 5 |
| Chain.ChainTo | StreamJoin.py:670-673 | chaining records the dependent writer and keeps the writer's own query |
| Chain.Depth | StreamJoin.py:675-678 | `_depth` (characterized by `DepthCountsLinks`) |
| Chain.StagingIndex | StreamJoin.py:113-116 | `stagingIndex` (characterized by `StagingIndexCountsUpstream`) |
| Chain.DepthCountsLinks | StreamJoin.py:675-678 | `_depth(i)` is `i` plus the number of dependent links |
| Chain.StagingIndexCountsUpstream | StreamJoin.py:113-116 | a stage's staging index is the number of stages upstream of it |
| Chain.Started | StreamJoin.py:698-704 | the started query chain has the writer chain's names, in the same order |
| Chain.IsActive | StreamJoin.py:617-622 | `isActive` (characterized by `IsActiveIffSomeActive`) |
| Chain.LastProgress | StreamJoin.py:601-607 | `lastProgress` (characterized by `LastProgressCoversChain`) |
| Chain.IsActiveIffSomeActive | StreamJoin.py:617-622 | a chain is active iff some query along it is active |
| Chain.LastProgressCoversChain | StreamJoin.py:601-607 | the progress map has one entry per query of the chain, holding that query's progress |
| Chain.Engine.Start | StreamJoin.py:698-704 | the dependent chain starts first, then the stage. The start order is the chain from the upstream end, and every query of the chain becomes active |
| Chain.Engine.Stop | StreamJoin.py:629-632 | the dependent chain stops first, then the stage, and every query of the chain is stopped |
| Chain.StoppedChainIsInactive | StreamJoin.py:617-632 | after `stop`, the chain is not active |
| Chain.StartedChainIsActive | StreamJoin.py:698-704 | right after `start`, the started chain is active |
| Streams.VisibleColumns | StreamJoin.py:431-432 | `columns()` keeps exactly the columns other than `_commit_version` and `_change_type` |
| Streams.Stream.constructor | StreamJoin.py:376-382 | a new handle has no cached snapshot, no primary keys and no sequence columns |
| Streams.Stream.Static | StreamJoin.py:437-442 | a versioned read goes to the reader and leaves the cache alone. An unversioned read returns the cached snapshot, reading and caching it the first time |
| Streams.Stream.SetPrimaryKeys | StreamJoin.py:449-451 | the keys are recorded and nothing else changes |
| Streams.Stream.SetSequenceColumns | StreamJoin.py:456-458 | the sequence columns are recorded and nothing else changes |
| Streams.StaticIsReadOnce | StreamJoin.py:437-442 | two unversioned reads return the same snapshot, whatever the reader would now return |
| Streams.ToColumn | StreamJoin.py:305-314 | `ColumnRef.toColumn` (characterized by `ResolutionByIdentity`) |
| Streams.ResolutionByIdentity | StreamJoin.py:305-314 | right-frame columns are exactly those selected from the right handle, and every other selected column is a left-frame column |
| Streams.LeftHandleIsIrrelevant | StreamJoin.py:305-311 | resolution never consults the left handle |
| Streams.SelfJoinResolvesRight | StreamJoin.py:305-309 | in a self-join every selected column resolves to the right frame |

## Left out

- Spark and Delta execution is abstracted away:
  - `persist`/`unpersist` beyond recording and releasing frames;
  - `F.broadcast`, the `DeltaTable.merge(...).execute()` call, `history(1)` and the `CREATE TABLE` DDL;
  - the `toDDL` patch (StreamJoin.py:20-30).
  Frames are sequences of rows, and a merge is modelled on one target row at a time.
- `getLatestVersion` (StreamJoin.py:444-447) reads a table's history. It is the `latestLeft` and `latestRight` parameters of `Pinning.OnBatch`, each a `nat`, because a Delta table always has a version.
- Snapshot readers (`_staticReader`), join predicates (`joinExpr`), `transformFunc` and the selections (`selectCols`, `finalSelectCols`, `dropDupKeys`) are function parameters. `transformFunc` is folded into the row selection `sel`, so a transform that adds or drops rows is not modelled.
- `_selectColumns`, `select('*')` star-expansion and schema inference by a static join (StreamJoin.py:1147-1236) depend on Spark column identity. They are not part of this model.
- SHA-256 staging names, `os.path` handling, `generateStagingName`/`generateJoinName` and the staging-stream plumbing (StreamJoin.py:118-127, 1051-1060, 1070-1090) are not part of this model. The index these names embed is modelled (`Chain.StagingIndexCountsUpstream`).
- The following are timing- and concurrency-driven and are left out:
  - `uuid` scheduler pools;
  - `awaitTermination`, `awaitAllProcessed` and `awaitAllProcessedAndStop` (StreamJoin.py:624-657, 702);
  - `trigger`, `option` and `queryName` (StreamJoin.py:680-692).
- `recentProgress` (StreamJoin.py:609-615) has the same shape as `lastProgress`; only `lastProgress` is modelled.
- The target-side anti-join disambiguation (StreamJoin.py:997-1031) is entangled with Spark window and join semantics and is left out, together with its ordering `outerWindowSpec` (StreamJoin.py:986) and the primary-key null counts it compares (StreamJoin.py:1001-1003). `Dedup.TargetOrder` models the other ordering, `windowSpec` (StreamJoin.py:993, 996), which deduplicates the batch. The guard, the update columns and both conditions are modelled.
- Partition columns (StreamJoin.py:914-927, 962-971) are left out: `Streams.Stream` records no partition declarations, so the match conditions are modelled without their partition clauses. The non-pruned clause (StreamJoin.py:968, `u.pc <=> staged_updates.pc`, with `OR u.pc is null` when keys are nullable) is plain SQL and would be one more conjunct. Pruning (StreamJoin.py:917-922) also reads each batch's distinct partition values at run time and formats them as SQL literals with Python `str()`.
- `GroupByWithAggs` is modelled for a single integer sum over one value column. Custom `reduce`/`updateDict` accumulations (StreamJoin.py:159-163, 179-189) and null aggregate values are left out.
- Deletes are filtered out where a stream is read (StreamJoin.py:398, 408). The model's events may carry the `Delete` kind, but no modelled operation treats deletes specially, just as the code does not.
- `_persisted` is declared at class level (StreamJoin.py:516), so every `MicrobatchJoin` object shares one list. `MicrobatchJoin.Joiner` keeps it per object, so sharing across concurrently open objects is not modelled.
- Expressions: `Expression._create` raises for an operand that is not a selector, an expression or a Spark column (StreamJoin.py:272-280). In `Streams.Expr` such an operand cannot be written, so that error is not modelled.
- The following are left out:
  - `ColumnSelector.transform`/`to`, `Stream.to`, `setName`/`name`/`setPath`/`path`;
  - the `fromPath`/`fromTable` readers.
- MicrobatchJoin.Joiner.Join: returns `Err(EmptyPrimaryKeys)` where the source's `reduce` over an empty list of key conditions raises a `TypeError` (StreamJoin.py:558).
- Dedup.DedupBy: breaks ties by keeping the row seen first, where Spark's `row_number()` and `dropDuplicates` choose arbitrarily. Every property stated about it holds for any choice among tied rows.
- Dedup.DedupBatch: takes the primary keys as a list. The case where neither side declares keys is not modelled. There `_safeMergeLists` would yield None and `dropDuplicates(None)` would remove whole-row duplicates, but the join's own key merge (StreamJoin.py:723) raises as soon as EITHER side has no declared keys, because it concatenates `None` with a list. `Keys.JoinPrimaryKeys` takes two lists, so that error is outside the model as well.
- Chain.Engine: identifies queries by name in `active`, so two stages with the same `queryName` are one query to the model.
- MergeCondition.BuildMergeCondition: does not keep the `hasNullable` flag (StreamJoin.py:890-894), which is assigned and never read.

## Notes on the code

- A nullable key left out of a branch of `_mergeCondition` becomes `(u.k is null OR staged_updates.k is null)` (StreamJoin.py:893), as `MergeCondition.EitherNull`. It is not a null-safe equality to null on both sides.
- `ColumnRef.toColumn` (StreamJoin.py:305-314) has no "unresolved column" error: a selector from any stream other than the right handle resolves to the left frame.
- On no match, the aggregator inserts the staged delta (`p - m`, or `p` without a minus group; StreamJoin.py:156-158), not the plus aggregate.
- With no primary keys, `MicrobatchJoin.join` fails in `reduce` (modelled as `EmptyPrimaryKeys`).

## Findings

| source | as written | input that shows it | evidently intended | confidence | as-written member | corrected member |
|---|---|---|---|---|---|---|
| StreamJoin.py:133-134 | the staged delta is `plusDf LEFT JOIN minusDf` with only the `p.` key columns selected, so a group that has update pre-images but no plus rows gets no delta | target `{[1]: 5}`; batch `[update_preimage of group [1] value 5, update_postimage of group [2] value 5]` (an update moves a row to another group): group `[1]` stays 5 | a full outer join (absent side as 0), so that the moved-from group is decremented to 0 | high (proved on the model; not executed) | Aggregator.AsWrittenMissesMinusOnlyGroup | Aggregator.FullConservesEveryGroup |
