# OpenZFS tools: models and proofs

Dafny models of the algorithms in three OpenZFS programs, `zdb` (cmd/zdb/zdb.c), `ztest`
(cmd/ztest.c) and `zhack` (cmd/zhack.c), together with the range tree that they all work
on (module/zfs/range_tree.c), and proofs of what those algorithms achieve.

| module | models |
|---|---|
| Ranges, RangeTrees | range trees as sets of offsets, and the segment representation that refines them |
| SpaceMapReplay | loading space maps and replaying the log space maps on top |
| LeakCheck, ClaimList, RefcountTrace, Removal, RemovalImage, LeakVerdict | the leak check of `zdb -b`: counting, claiming, dedup and clone references, an unfinished device removal, the final comparison |
| CheckpointCheck | the check that nothing a checkpoint needs was freed |
| Livelist, LivelistTree, MetaslabPartition, LivelistCheck | validation of livelists against metaslabs |
| IndirectMapping, IndirectWalk, WalkPaths, BlockStatistics | removed vdevs, the indirect-block walk, the statistics tables |
| ForcedAllocation, AllocatedMap | `zhack metaslab leak` and the allocated map that it reads |
| MosSweep | `zhack mos scan`, `reclaim` and `leak` |
| RangeLocks, RangeHash, Xoshiro, FaultInjection, DraidGroups | ztest's locks and their hashing, random numbers, fault spacing and dRAID group count |
| BlockPointers, Multiples | shared vocabulary and arithmetic |

State that the C code updates in place is a class with methods proved against
specification functions (`RangeTree`, `Metaslab`, `Zcb`, `SublivelistVerify`, `Stats`,
`Histograms`); arrays stay arrays (`Xoshiro`); the locks are a step relation over any
number of activities. Where the program would abort, a function yields `None` or a
method returns false.

## Where the code does less than its purpose

Each of these is proved as a condition that holds if and only if the code meets the
property, next to a concrete input for which it does not.

- The allocated map loses the trailing allocated run of every metaslab but the first,
  because the last line is sized from the metaslab's size and not from its end
  (`AllocatedMap.DumpAndReplay`, `AllocatedMap.LostTail`).
- The checkpoint check only notices runs that were freed as a whole
  (`CheckpointCheck.RunVerdictRightIff`, `CheckpointCheck.VerdictRightIff`,
  `CheckpointCheck.PartialFreeSlipsThrough`).
- A metaslab without a space map loads as empty also when free space is asked for
  (`SpaceMapReplay.FreeIsComplementIff`, `SpaceMapReplay.NoSpaceMapNoFree`).
- Equal totals do not show the absence of leaks once a claim has failed. No claim fails
  exactly when all that is to be claimed or set aside is allocated and no two extents of it
  overlap, and then the totals can be trusted
  (`LeakVerdict.NoneFailsIff`, `LeakVerdict.DumpBlockStats`, `LeakVerdict.SumsCanMatchByAccident`).
- The clone table is asked also for embedded pointers, so data whose bytes read as a cloned
  block's first DVA uses up that block's references (`RefcountTrace.PlainCountIff`,
  `RefcountTrace.EmbeddedStandsIn` and `RefcountTrace.EmbeddedComesFirst`, on
  `RefcountTrace.MimickedBlock`).
- A block that the DDT is about to free is counted through a pointer without the dedup bit,
  so a stray reference to it is claimed as well (`RefcountTrace.ExactReferences`,
  `RefcountTrace.BareIsClaimedToo`, on `RefcountTrace.BareBlock`).
- The dry run of a claim does not notice copies that overlap, and the claim then fails half
  way (`LeakCheck.ClaimOkIff`, `LeakCheck.OverlappingCopies`).
- The space map validation, meant to go on after errors, aborts on an ALLOC that is
  allocated in part (`LivelistTree.ReachesEndIff`, `LivelistTree.PartlyAllocated`).
- Livelist blocks that are left over are taken to be on removed vdevs, but a block that
  crosses the end of its metaslab is left over too
  (`MetaslabPartition.LeftAreRemovedIff`, `MetaslabPartition.CrossingBlockIsLeft`).
- Fill counts of holes are added to the sum that is compared
  (`IndirectWalk.FillIsDataIff`, `IndirectWalk.HoleWithFill`).
- An allocation unit that was claimed in part is not counted as obsolete
  (`IndirectMapping.ObsoleteCountIff`, `IndirectMapping.SplitUnitIsMissed`).
- A size above 16 MB has no histogram bin, and the allocated size of a large block with
  several copies is such a size (`BlockStatistics.BinInRangeIff`, `BlockStatistics.ThreeCopies`).
- The sweep looks an object up only among the marks for its own type, so a mark for the
  other type does not keep it (`MosSweep.NothingMarkedIsFreedIff`,
  `MosSweep.WrongMarkDoesNotProtect`).
- A directory whose bonus cannot be read does not keep its clone map
  (`MosSweep.NothingNamedIsFreedIff`, `MosSweep.UnreadableDirectory`).
- Ranges of one object that overlap exclude each other only if their offsets share a slot of
  the lock table (`RangeHash.RangesExcludeIff`, `RangeHash.OverlapIsNotExcluded`).
- In a damaged MOS a second scan can find more (`MosSweep.SweptIsCleanIff`,
  `MosSweep.SecondScanCanFindMore`), and a leak is not always undone
  (`MosSweep.LeakThenReclaim`, `MosSweep.DanglingReference`).

## Model

| member | source | states |
|---|---|---|
| `Ranges.TreeOpSize` | module/zfs/range_tree.c:318-345 | a range added to or removed from a tree moves the tree's size by exactly the range's length |
| `RangeTrees.Find` | module/zfs/range_tree.c:167-178 | the overlap search with the tree's comparator finds a segment that meets the range, or the one place where the range fits between segments |
| `RangeTrees.SegmentAt` | module/zfs/range_tree.c:318-471 | every segment is a maximal run: all inside is present, the offsets just before and just after are not |
| `RangeTrees.ContainedInOneSegment` | module/zfs/range_tree.c:643-670 | a range is wholly present exactly when one segment covers it |
| `RangeTrees.CanonicalUnique` | module/zfs/range_tree.c:318-471 | one set has one segment list: the shape of a tree does not depend on the order of its history |
| `RangeTrees.CanonicalExists` | module/zfs/range_tree.c:318-471 | every finite set of offsets has such a list |
| `RangeTrees.Missed` | module/zfs/range_tree.c:630-641 | when the search misses, no offset of the range is present |
| `RangeTrees.HitDecides` | module/zfs/range_tree.c:643-670 | the segment that was hit decides whether the whole range is present |
| `RangeTrees.InsertCases` | module/zfs/range_tree.c:395-465 | the new list in each of the four cases: merge with both neighbours, with the one before, with the one after, or a new segment |
| `RangeTrees.InsertDenotes` | module/zfs/range_tree.c:395-465 | each of them turns the list of a set into the list of the set with the range added |
| `RangeTrees.CarveDenotes` | module/zfs/range_tree.c:540-590 | drop, shorten-left, shorten-right and split each turn the list of a set into the list of the set without the range |
| `RangeTrees.RangeTree.constructor` | module/zfs/range_tree.c:202-272 | a new tree is empty |
| `RangeTrees.RangeTree.Add` | module/zfs/range_tree.c:318-471 | fails exactly on an overlap and then changes nothing; otherwise the contents are the old set plus the range, with segments canonical and the space counter exact |
| `RangeTrees.RangeTree.Remove` | module/zfs/range_tree.c:473-601 | fails exactly when the range is not wholly present and then changes nothing; otherwise the contents are the old set minus the range |
| `RangeTrees.RangeTree.Contains` | module/zfs/range_tree.c:643-670 | true exactly when every offset of the range is present |
| `RangeTrees.RangeTree.FindIn` | module/zfs/range_tree.c:677-705 | for a range: nothing found exactly when range and tree are disjoint, otherwise the first maximal run of the tree inside the range; for an empty range: a run of length zero exactly when its start is present |
| `RangeTrees.RangeTree.FindOverlap` | module/zfs/range_tree.c:630-641 | a segment that meets the range, or proof that there is none |
| `RangeTrees.RangeTree.RemoveOverlap` | module/zfs/range_tree.c:718-726 | one turn of clearing takes at least one offset and only offsets of the range |
| `RangeTrees.RangeTree.Clear` | module/zfs/range_tree.c:711-727 | terminates, and the contents are the old set minus the range, whatever part of it was present; an unfinished removal is cut off with it |
| `ForcedAllocation.Metaslab.constructor` | cmd/zhack.c:1453-1459 | a metaslab over two disjoint trees with a zero running total |
| `ForcedAllocation.Metaslab.MoveRun` | cmd/zhack.c:1467-1475 | a free run leaves the free tree, enters the allocating tree and is added to the total |
| `ForcedAllocation.Metaslab.ForceNext` | cmd/zhack.c:1461-1477 | one turn moves the first free run of what is left of the request, or shows that nothing of it is free |
| `ForcedAllocation.Metaslab.ForceAlloc` | cmd/zhack.c:1453-1479 | terminates; moves exactly the free part of the request and raises the total by its size; a request whose 64-bit end wraps below its start does nothing |
| `ForcedAllocation.RequestedIs` | cmd/zhack.c:1453-1461 | a request of 64-bit numbers asks for its range, or for nothing when its end does not fit 64 bits |
| `ForcedAllocation.TakenSets` | cmd/zhack.c:1461-1477 | run by run gives what offset by offset would: the free offsets passed so far have moved, no others |
| `ForcedAllocation.ForcedConserves` | cmd/zhack.c:1453-1479 | free and allocating space stay disjoint with the same union, and the total moves by exactly what changed hands |
| `ForcedAllocation.ForcedTwice` | cmd/zhack.c:1453-1479 | repeating a request changes nothing |
| `ForcedAllocation.ForcedAllTakesUnion` | cmd/zhack.c:1559-1586 | a list of requests in any order and with any overlaps takes exactly the free part of its union |
| `AllocatedMap.EmitGapOk` | cmd/zdb/zdb.c:1848-1856 | the lines printed so far name exactly the allocated offsets before the cursor, and each starts in its metaslab |
| `AllocatedMap.LastLine` | cmd/zdb/zdb.c:1885-1892 | the last line names the trailing allocated run of metaslab 0 and nothing for every other metaslab, because its size is computed from the metaslab size and not from its end |
| `AllocatedMap.WrappedEnd` | cmd/zdb/zdb.c:1889-1891 | the 64-bit end of the last line is the metaslab size, so it is past the start only in metaslab 0 |
| `AllocatedMap.DumpMetaslab` | cmd/zdb/zdb.c:1885-1892 | read back, the lines of a metaslab ask for its allocated space, less the trailing run unless it is metaslab 0 |
| `AllocatedMap.LeakLine` | cmd/zhack.c:1559-1586 | a line acts on the metaslab its start lies in and on no other; a start past the last metaslab is ignored |
| `AllocatedMap.LeakLines` | cmd/zhack.c:1500-1586 | reading all lines leaves every metaslab as the replay function says |
| `AllocatedMap.ReplayOneMetaslab` | cmd/zhack.c:1559-1586 | lines that start in one metaslab touch no other |
| `AllocatedMap.ReplayConcat` | cmd/zhack.c:1500-1586 | lines read in two batches act as one batch |
| `AllocatedMap.SurvivesIff` | cmd/zdb/zdb.c:1885-1892 | a metaslab survives print and read-back exactly when it is the first or its last byte is free |
| `AllocatedMap.DumpAndReplay` | cmd/zdb/zdb.c:1848-1892 | printing a vdev and reading the lines into an all-free copy gives back every free set exactly when every metaslab but the first has its last byte free; in any case what is free afterwards is stated exactly |
| `AllocatedMap.RoundTripIff` | cmd/zdb/zdb.c:1885-1892 | the round-trip condition over all metaslabs of a vdev |
| `AllocatedMap.LostTail` | cmd/zdb/zdb.c:1889-1891 | the smallest metaslab that does not survive |
| `SpaceMapReplay.ReplayConcat` | module/zfs/space_map.c:390-409 | replaying two stretches of entries is replaying them one after the other |
| `SpaceMapReplay.ReplayComplement` | module/zfs/space_map.c:390-409 | loading entries as free is loading them as allocated, complemented, and one is fatal exactly when the other is |
| `SpaceMapReplay.ReplayMeans` | module/zfs/space_map.c:390-409 | byte by byte: a replay goes through exactly when every entry adds what is not there or takes what is, and then holds an offset exactly when the last entry that touches it adds it, or none does and it was there at the start |
| `SpaceMapReplay.LoadSpaceMap` | module/zfs/space_map.c:411-442 | a metaslab's tree from its own space map, failing exactly where the tree operations would |
| `SpaceMapReplay.RoomIsLeft` | module/zfs/space_map.c:394-396 | the check for room before an entry is added never fails for entries that lie inside the map, loaded as allocated or as free |
| `SpaceMapReplay.LoadSpaceMaps` | cmd/zdb/zdb.c:7383-7422 | every metaslab of every concrete vdev gets its own tree, and no others do |
| `SpaceMapReplay.LoadUnflushed` | cmd/zdb/zdb.c:7346-7375 | an entry is applied to the one metaslab it belongs to, and only if it is not older than what that metaslab has flushed |
| `SpaceMapReplay.LoadConcreteTrees` | cmd/zdb/zdb.c:7383-7425 | after the pass every tree is its space map followed by its unflushed log entries; the pass fails exactly when some metaslab's entries do not replay |
| `SpaceMapReplay.LoadedStep` | cmd/zdb/zdb.c:7346-7375 | one more log entry changes exactly the relevant tree |
| `SpaceMapReplay.TreesAreUnique` | cmd/zdb/zdb.c:7383-7425 | the loaded trees are determined by the pool: one per metaslab of a concrete vdev |
| `SpaceMapReplay.RelevantIff` | cmd/zdb/zdb.c:7358-7367 | a log entry is kept for the metaslab whose bytes it starts in, exactly when its txg is not below the first txg that metaslab has not flushed |
| `SpaceMapReplay.HistorySplits` | cmd/zdb/zdb.c:371-395 | for logs in txg order, a metaslab's history is its part before that txg followed by its part from that txg on |
| `SpaceMapReplay.LoadedIsHistory` | cmd/zdb/zdb.c:7383-7425 | if the space map nets out to the history before that txg and the logs hold the rest, loading gives the state after the whole history |
| `SpaceMapReplay.LoadedByte` | cmd/zdb/zdb.c:7383-7425 | so a byte is loaded as allocated exactly when the last entry of that history that touches it is an ALLOC |
| `SpaceMapReplay.FreeIsComplementIff` | cmd/zdb/zdb.c:7383-7425 | the free load is the complement of the allocated load exactly when the metaslab has a space map |
| `SpaceMapReplay.NoSpaceMapNoFree` | cmd/zdb/zdb.c:7396-7418 | a metaslab without a space map is loaded as having nothing free |
| `SpaceMapReplay.CountUnflushed` | cmd/zdb/zdb.c:7307-7344 | the signed total of the log entries that are not skipped |
| `SpaceMapReplay.ApplySize` | module/zfs/space_map.c:390-409 | an entry changes the allocated bytes of the pool by its signed length |
| `SpaceMapReplay.SignedTotalIsGrowth` | cmd/zdb/zdb.c:7307-7344 | the signed total is exactly how much more is allocated than the space maps alone say |
| `CheckpointCheck.SegmentsAreRuns` | module/zfs/range_tree.c:766-776 | walking a tree visits exactly the maximal runs of its set |
| `CheckpointCheck.VerifyMetaslab` | cmd/zdb/zdb.c:8886-8901 | for one metaslab: passes exactly when no maximal run of the checkpoint's space is wholly free now |
| `CheckpointCheck.RunAround` | module/zfs/range_tree.c:766-776 | every offset lies in a maximal run |
| `CheckpointCheck.IntactPasses` | cmd/zdb/zdb.c:8853-8907 | space that is still allocated never fails the check |
| `CheckpointCheck.PartialFreeSlipsThrough` | module/zfs/range_tree.c:657-664 | a run freed in part passes although it is no longer a subset of the allocated space |
| `CheckpointCheck.RunVerdictRightIff` | module/zfs/range_tree.c:657-664 | the answer for one run is right exactly when the run is not free in part only |
| `CheckpointCheck.VerdictRightIff` | cmd/zdb/zdb.c:8853-8907 | the verdict equals "checkpointed space is still allocated" exactly when some run is wholly free or no run is free in part only |
| `CheckpointCheck.TreeOf` | module/zfs/range_tree.c:318-471 | the segment tree of any loaded set |
| `CheckpointCheck.WalkPool` | cmd/zdb/zdb.c:8862-8903 | the loops over vdevs and metaslabs pass exactly when every metaslab of the checkpoint does |
| `CheckpointCheck.VerifyPool` | cmd/zdb/zdb.c:8853-8907 | the whole check, from both pools' space maps and logs: which loads abort, and otherwise it passes exactly when no run of any metaslab that the checkpoint holds is wholly free in the current pool |
| `CheckpointCheck.CheckOverHistories` | cmd/zdb/zdb.c:8853-8907 | in terms of the two pools' histories: a metaslab passes exactly when it has no space map now or every run the checkpoint holds keeps an allocated byte, and always when checkpointed space is a subset of allocated space |
| `LeakCheck.Zcb.constructor` | cmd/zdb/zdb.c:7519-7584 | the traversal starts with the DDT's counts, the loaded trees and zero totals |
| `LeakCheck.Zcb.ClaimBlock` | module/zfs/metaslab.c:6266-6296 | the dry run over all copies, then the pass: new trees, what was taken, and whether it went through |
| `LeakCheck.ClaimOkIff` | module/zfs/metaslab.c:6266-6296 | a claim succeeds exactly when every copy is wholly in the tree of its metaslab and no two copies overlap; then it takes the block's size, and in any case what the trees lose is what it took; a claim that fails takes nothing unless copies overlap |
| `LeakCheck.PassOkIff` | module/zfs/metaslab.c:6285-6289 | the same for one pass without the dry run |
| `LeakCheck.OverlappingCopies` | module/zfs/metaslab.c:6266-6296 | a block whose two copies are one passes the dry run and fails half way |
| `LeakCheck.Zcb.CountDedup` | cmd/zdb/zdb.c:6530-6642 | a DDT reference is consumed while there is one; the first reference and every one past the count go on to be claimed |
| `LeakCheck.Zcb.CountClone` | cmd/zdb/zdb.c:6645-6681 | a cloned block is remembered at its first reference, each later one consumes a clone reference while there is one |
| `LeakCheck.Zcb.NoteBlock` | cmd/zdb/zdb.c:6530-6692 | the first half of counting a block: its references, its size, and whether it goes on to be claimed |
| `LeakCheck.Zcb.ClaimNoted` | cmd/zdb/zdb.c:6868-6886 | the second half: the claim, and its failure |
| `LeakCheck.Zcb.CountBlock` | cmd/zdb/zdb.c:6517-6886 | the whole of counting a block |
| `LeakCheck.Zcb.CountBlocks` | cmd/zdb/zdb.c:7957-8060 | any sequence of blocks |
| `LeakCheck.Zcb.TakeExtents` | cmd/zdb/zdb.c:7058-7083 | extents leave the trees one by one, and their sizes add up, until one is not all there; used for claims, for a checkpoint's entries and for the copies of a removal |
| `LeakCheck.PassTakesBytes` | module/zfs/metaslab.c:5980-6018 | a pass removes the bytes of the copies it takes, all of them and no others, as many as it says |
| `LeakCheck.PassSums` | module/zfs/metaslab.c:6285-6289 | it takes no more than the copies' sizes, and exactly those bytes and sizes when it goes through |
| `LeakCheck.PassSize` | cmd/zdb/zdb.c:7204-7244 | excluded extents shrink the trees by exactly what was taken |
| `LeakCheck.NotedTotals` | cmd/zdb/zdb.c:6517-6692 | a counted size is offset by the dedup or clone total unless the block goes on to be claimed |
| `LeakCheck.CountBalances` | cmd/zdb/zdb.c:6517-6886 | counting a block keeps counted minus dedup minus clone minus failed, plus what failed claims still took, plus unclaimed |
| `LeakCheck.CountAllBalances` | cmd/zdb/zdb.c:6517-6886 | no sequence of references changes that balance |
| `LeakCheck.CountConcat` | cmd/zdb/zdb.c:7957-8060 | two stretches of blocks counted one after the other are counted as one |
| `LeakCheck.PartialIsPart` | cmd/zdb/zdb.c:6868-6886 | failed claims take no more than they fail for |
| `ClaimList.PassConcat` | module/zfs/metaslab.c:6285-6289 | claiming two lists one after the other is claiming them as one |
| `ClaimList.SentOkIff` | cmd/zdb/zdb.c:6868-6886 | no claim of a traversal fails exactly when all that it sends to claim is allocated at its start and no two extents of it overlap |
| `ClaimList.SentFor` | cmd/zdb/zdb.c:6607-6629 | for a pointer whose DDT entry has a canonical set of DVAs, that set is sent to claim; for any other pointer, its own DVAs |
| `ClaimList.CountedAs` | cmd/zdb/zdb.c:6607-6692 | the same DVAs give the size that is counted and the first DVA that the clone table is asked for |
| `ClaimList.FlatIsTaken` | cmd/zdb/zdb.c:6607-6629 | when no claim fails, no byte of the canonical DVAs of a pointer that was sent to claim is left in the trees |
| `ClaimList.ClaimableWhere` | module/zfs/metaslab.c:5980-6018 | a DVA can be claimed exactly when one metaslab of its vdev holds all of its bytes |
| `ClaimList.BytesWhere` | module/zfs/metaslab.c:5980-6018 | its bytes are those of its vdev and range, each in the metaslab whose range it lies in |
| `ClaimList.SentIgnoresTrees` | cmd/zdb/zdb.c:6530-6681 | what is sent to claim depends on the reference counts and the pointers, not on what is allocated or on whether claims succeed |
| `ClaimList.SentConcat` | cmd/zdb/zdb.c:7957-8060 | two stretches of blocks send what they would send as one |
| `ClaimList.SwapParts` | module/zfs/metaslab.c:6266-6296 | whether a list can be claimed, and the bytes it takes, do not depend on the order of its parts |
| `Removal.LoadTree` | cmd/zdb/zdb.c:7115-7119 | a metaslab's space map into an empty tree, failing exactly where the tree operations would |
| `Removal.Vacate` | module/zfs/range_tree.c:743-764 | moving one tree into another gives the union, and fails exactly when they meet |
| `Removal.Gather` | cmd/zdb/zdb.c:7112-7122 | the space maps of all metaslabs of the vdev in one tree |
| `Removal.LoadNext` | cmd/zdb/zdb.c:7029-7056 | one log entry: skipped for another vdev or an already flushed txg, otherwise added or removed |
| `Removal.LoadWhole` | cmd/zdb/zdb.c:7112-7124 | the space maps and then the logs, failing exactly where a tree operation would |
| `Removal.WholeIsJoint` | cmd/zdb/zdb.c:7112-7124 | loading the vdev into one tree, space maps first and logs after, gives the union of its metaslabs' trees as the leak check loads them one by one, and fails exactly when one of those fails |
| `Removal.LoadCopied` | cmd/zdb/zdb.c:7126-7133 | what lies past the last copied offset is cut off |
| `Removal.EntryFor` | module/zfs/vdev_indirect_mapping.c:172-209 | the first mapping entry that does not end at or before an offset |
| `Removal.RemapSegment` | module/zfs/vdev_indirect.c:991-1176 | a segment remapped entry by entry, failing exactly where an assertion would |
| `Removal.RemapSum` | module/zfs/vdev_indirect.c:1056-1176 | the pieces are as long as the segment |
| `Removal.RemapIff` | module/zfs/vdev_indirect.c:991-1022 | a segment can be remapped exactly when every byte of it is mapped |
| `Removal.RemapTree` | cmd/zdb/zdb.c:7076-7083 | vacating the tree with a remap of every segment |
| `Removal.FindRemoving` | cmd/zdb/zdb.c:7092-7138 | the extents that are claimed, and the removing size: the sum of the extents and the number of bytes allocated and copied |
| `Removal.ExtentsIff` | cmd/zdb/zdb.c:7092-7138 | they are found exactly when every metaslab of the vdev loads and every byte that is allocated below the last copied offset is mapped |
| `RemovalImage.RemapImage` | module/zfs/vdev_indirect.c:1056-1176 | the pieces of a segment cover exactly the bytes that the mapping takes the segment's bytes to |
| `RemovalImage.ExtentsImage` | cmd/zdb/zdb.c:7076-7135 | a byte is claimed for the removal exactly when some byte that is allocated and copied was copied to it |
| `RemovalImage.CopiedByte` | cmd/zdb/zdb.c:7092-7138 | a byte is allocated and copied exactly when some metaslab of the vdev holds it and it does not lie past the last copied offset |
| `LeakVerdict.RunBalances` | cmd/zdb/zdb.c:8074-8090 | allocated space plus what failed claims missed is found space plus unclaimed space, checkpoint and removal included |
| `LeakVerdict.Traverse` | cmd/zdb/zdb.c:7957-8060 | the phases in their order: checkpoint exclusion, pending frees, removal, traversal; aborts exactly where an extent is missing |
| `LeakVerdict.FindRemoval` | cmd/zdb/zdb.c:7092-7103 | the extents of the removal, none if there is no removal |
| `LeakVerdict.Verdict` | cmd/zdb/zdb.c:8074-8101 | total allocated minus total found is unclaimed minus missed by failed claims |
| `LeakVerdict.SumUp` | cmd/zdb/zdb.c:7957-8101 | load, traverse and compare: the two totals differ by unclaimed minus missed, and leaks are reported when they differ or something is left over |
| `LeakVerdict.DumpBlockStats` | cmd/zdb/zdb.c:7957-8101 | from the pool's space maps, logs and unfinished removal: runs to the end exactly when every entry replays and every extent that must be there is; the two totals then differ by unclaimed minus missed, and tell whether a byte is left unclaimed exactly when failed claims missed nothing, or when bytes are left and not just as many as were missed; it runs to the end without a failed claim exactly when all that is to be claimed or set aside is allocated and apart, and then the totals match exactly when that is all there is, and leaks are reported exactly when it is not or some count has too few pointers |
| `LeakVerdict.NoneFailsIff` | cmd/zdb/zdb.c:7957-8060 | no extent is missing and no claim fails exactly when the checkpoint's entries, the removal's extents and all that is sent to claim are allocated and pairwise apart; what is left is then what is not in that list |
| `LeakVerdict.CountsLeft` | cmd/zdb/zdb.c:7658-7719 | the counts left over at the end, in terms of the pointers alone |
| `LeakVerdict.LoadedAreHoused` | cmd/zdb/zdb.c:7383-7425 | every tree that is loaded holds bytes of its own metaslab only |
| `LeakVerdict.LeakFini` | cmd/zdb/zdb.c:7658-7771 | the three walks report exactly: a clone count, a looked-up DDT count or a byte is left over |
| `LeakVerdict.FlushedTrees` | cmd/zdb/zdb.c:7383-7425 | wherever the logs replay, the space maps alone do |
| `LeakVerdict.AsizeIsTotalCell` | cmd/zdb/zdb.c:8074-8088 | the counted size that is compared is that of the statistics' cell of all levels and types |
| `LeakVerdict.ClaimsPartition` | cmd/zdb/zdb.c:6868-6886 | the bytes that leave the trees are partitioned among the claims: no byte is claimed twice |
| `LeakVerdict.SumsCanMatchByAccident` | cmd/zdb/zdb.c:8085-8090 | with failed claims the totals can match although a byte is leaked |
| `LeakVerdict.ConsistentVerdict` | cmd/zdb/zdb.c:7957-8101 | if what is set aside is there and the pointers are consistent with the rest, no claim fails and what is left unclaimed is exactly what is neither set aside nor referred to |
| `LeakVerdict.ConsistentPoolIsRight` | cmd/zdb/zdb.c:7957-8101 | for a whole pool: then the totals match exactly when every allocated byte is set aside or referred to |
| `RefcountTrace.CountsAfter` | cmd/zdb/zdb.c:6530-6681 | for every interleaving with other blocks, with pointers to the block without the dedup bit and with embedded data that reads as its first DVA, a block's DDT count, clone count and claims depend only on how often it was met, met without the bit, asked for, and robbed of a clone reference |
| `RefcountTrace.NextReference` | cmd/zdb/zdb.c:6530-6681 | which of the three ways the next reference is taken, by its number |
| `RefcountTrace.ExactReferences` | cmd/zdb/zdb.c:6530-6681 | claimed once and nothing reported exactly when there are at least R references and, with pointers without the dedup bit and clone references used up by embedded data, max(R, 1) + C in all; or no reference, 1 + C of the others, and no references left in the DDT for an entry that was looked up |
| `RefcountTrace.NothingStolen` | cmd/zdb/zdb.c:6645-6681 | none is used up when the block has no clones or no data reads as its first DVA |
| `RefcountTrace.PlainCountIff` | cmd/zdb/zdb.c:6530-6681 | "met max(R, 1) + C times" decides it exactly when nothing else counts, or when neither it nor the exact condition holds; in particular when there is no pointer without the dedup bit and the block has no clones or no data reads as its first DVA |
| `RefcountTrace.EmbeddedStandsIn` | cmd/zdb/zdb.c:6645-6646 | one reference and one such embedded pointer pass for the two references that are due |
| `RefcountTrace.EmbeddedComesFirst` | cmd/zdb/zdb.c:6645-6681 | met first, the embedded pointer passes for the first reference and the real one is not claimed |
| `RefcountTrace.MimickedBlock` | cmd/zdb/zdb.c:6645-6646 | a block and data for which the two lemmas above hold |
| `RefcountTrace.TooFewOrTooMany` | cmd/zdb/zdb.c:7659-7719 | met less often it is reported or never claimed, and without look-alikes reported and claimed once; met more often it is claimed once more for each extra reference; while the DDT still expects references, every pointer without the dedup bit that no clone accounts for is one more claim |
| `RefcountTrace.BareIsClaimedToo` | cmd/zdb/zdb.c:7842-7881 | a pointer without the dedup bit and a reference to the same block are both sent to claim |
| `RefcountTrace.BareBlock` | cmd/zdb/zdb.c:7842-7881 | a block and pointers for which the lemma above holds |
| `RefcountTrace.RefsLeftIff` | cmd/zdb/zdb.c:7658-7719 | for any pointers at all: counts are left over exactly when a variant of a looked-up entry has fewer pointers than references, or a key was asked for, but not more often than it has clones |
| `RefcountTrace.TotalsAre` | cmd/zdb/zdb.c:6619-6681 | the dedup total is the size of the pointers that the DDT accounts for, the clone total that of the others that the clone table accounts for |
| `RefcountTrace.ClaimsOnlyNew` | cmd/zdb/zdb.c:6870-6886 | in a consistent pool a block is sent to claim exactly when it is met for the first time |
| `RefcountTrace.ConsistentPoolHasNoErrors` | cmd/zdb/zdb.c:6868-6886 | references within the counts never make a claim fail |
| `RefcountTrace.ConsistentIsClaimed` | cmd/zdb/zdb.c:6868-6886 | so every claim succeeds |
| `RefcountTrace.LeakedIsUnreferenced` | cmd/zdb/zdb.c:7719-7771 | in a consistent pool what stays in the trees is exactly what no reference names |
| `RefcountTrace.ReferencedBytes` | cmd/zdb/zdb.c:6607-6629 | what references name: the bytes of the canonical DVAs where the entry has them, else of the pointer's own |
| `Livelist.SublivelistVerify.constructor` | cmd/zdb/zdb.c:252-277 | starts with nothing stored |
| `Livelist.SublivelistVerify.VerifyBlkptr` | cmd/zdb/zdb.c:194-250 | one entry: a FREE counts up, an ALLOC counts down or, finding none, is recorded; stored counts are at least one |
| `Livelist.SublivelistVerify.VerifySublist` | cmd/zdb/zdb.c:252-277 | a whole sub-livelist; what is reported is what is still stored |
| `Livelist.CountsArePositive` | cmd/zdb/zdb.c:194-250 | every stored count is at least one |
| `Livelist.RemainingIsMaxSuffix` | cmd/zdb/zdb.c:194-250 | a block's remaining count is the largest excess of FREE over ALLOC entries among all suffixes |
| `Livelist.ReportedIff` | cmd/zdb/zdb.c:252-277 | a block is reported exactly when some suffix has more FREEs than ALLOCs of it |
| `Livelist.BlockedIff` | cmd/zdb/zdb.c:216-236 | an ALLOC is left over exactly when it takes the block's balance to a new low |
| `Livelist.LeftOverIff` | cmd/zdb/zdb.c:216-236 | some ALLOC of a block is left over exactly when some prefix has more ALLOCs than FREEs of it |
| `Livelist.RecordHolds` | cmd/zdb/zdb.c:221-235 | recording keeps an existing entry's txg and adds the others |
| `Livelist.LeftHolds` | cmd/zdb/zdb.c:216-236 | the leftover tree holds exactly the DVAs that left-over ALLOCs name, each with the txg of the first |
| `LivelistTree.CompareIsTotalOrder` | cmd/zdb/zdb.c:279-301 | the comparator is a strict total order |
| `LivelistTree.Find` | cmd/zdb/zdb.c:411-415 | the lower bound of a key, and whether the key is present |
| `LivelistTree.VerifyAllocs` | cmd/zdb/zdb.c:397-431 | the ordered search reports exactly what a scan of the whole tree would, in the same order |
| `LivelistTree.ScanFinds` | cmd/zdb/zdb.c:397-431 | the scan reports exactly the ALLOCs that start in the freed range and are not younger than the free |
| `LivelistTree.ValidateEntry` | cmd/zdb/zdb.c:433-479 | a space map entry against the tree of allocated space: outcome, new tree, and the live ALLOCs it frees |
| `LivelistTree.OutcomeMeans` | cmd/zdb/zdb.c:441-468 | double ALLOC exactly when all bytes are allocated, double FREE exactly when some byte is not, and nothing said when an ALLOC finds none and a FREE all of them allocated |
| `LivelistTree.ReachesEndIff` | cmd/zdb/zdb.c:433-525 | over a metaslab's whole list of entries the check reaches the end exactly when no ALLOC is allocated in part when its turn comes, and the tree then holds what it would if every ALLOC allocated and every FREE of wholly allocated space freed |
| `LivelistTree.AcceptedReplay` | cmd/zdb/zdb.c:433-525 | that tree is the replay of the entries that were not complained about |
| `LivelistTree.ValidateNext` | cmd/zdb/zdb.c:433-479 | one more entry of the list |
| `LivelistTree.ValidateAll` | cmd/zdb/zdb.c:482-525 | the pass over one metaslab's entries: whether it reaches the end, its tree, whether anything was said, and the live ALLOCs that were freed |
| `LivelistTree.PartlyAllocated` | cmd/zdb/zdb.c:441-453 | two entries for which it aborts |
| `LivelistTree.FineIffReplays` | cmd/zdb/zdb.c:433-479 | no entry is complained about exactly when the entries replay as a history |
| `LivelistTree.CleanIffLoads` | cmd/zdb/zdb.c:482-525 | a metaslab gives no complaint exactly when the leak check could load it, and the two trees are then the same |
| `MetaslabPartition.Collect` | cmd/zdb/zdb.c:532-572 | collects exactly the blocks inside the metaslab and reports exactly those that cross its boundary |
| `MetaslabPartition.RemoveEntry` | cmd/zdb/zdb.c:573-580 | one entry leaves, order kept |
| `MetaslabPartition.Populate` | cmd/zdb/zdb.c:532-581 | the blocks inside the metaslab move, all others stay |
| `MetaslabPartition.OneMetaslab` | cmd/zdb/zdb.c:532-572 | a block lies inside at most one metaslab, and crosses none if it lies inside one |
| `MetaslabPartition.Partition` | cmd/zdb/zdb.c:614-700 | what has been moved, reported and kept when the double loop is done |
| `MetaslabPartition.WhoIsLeft` | cmd/zdb/zdb.c:614-700 | kept are exactly the blocks of non-concrete vdevs and those past the last metaslab or over the end of their own; every other block is in the tree of the metaslab it starts in and in no other tree; reported are exactly the blocks over the end of the metaslab they start in |
| `MetaslabPartition.LeftAreRemovedIff` | cmd/zdb/zdb.c:670-692 | what is left is on removed vdevs only, as the code asserts, exactly when no block of a concrete vdev lies past its last metaslab or over the end of its own |
| `MetaslabPartition.CrossingBlockIsLeft` | cmd/zdb/zdb.c:670-692 | a block for which that assertion fails |
| `LivelistCheck.ErrorsAre` | cmd/zdb/zdb.c:397-479 | the ALLOCs reported for a metaslab are those of its tree that some FREE entry frees at or after their txg |
| `LivelistCheck.CheckMetaslab` | cmd/zdb/zdb.c:625-668 | one metaslab: who is taken, whether its entries abort the check, whether anything was said, and which ALLOCs are reported |
| `LivelistCheck.ValidatePool` | cmd/zdb/zdb.c:614-692 | the whole pass over all metaslabs: it aborts exactly when some metaslab's entries do, complains exactly when some entry is double, and reports exactly the left-over ALLOCs that an entry of the metaslab they lie in frees |
| `LivelistCheck.FreedWhere` | cmd/zdb/zdb.c:614-692 | that metaslab is the one the ALLOC starts in, and it must hold all of it |
| `LivelistCheck.FreedIff` | cmd/zdb/zdb.c:397-525 | over offsets and txgs: the ALLOC lies inside the metaslab, and a FREE of its space map or of the log from the first unflushed txg on covers its start, in its txg or later |
| `LivelistCheck.CleanIffPoolLoads` | cmd/zdb/zdb.c:614-668 | no double ALLOC and no double FREE in any metaslab exactly when the leak check can load the pool |
| `RangeLocks.InitHolds` | cmd/ztest.c:1923-1930 | the initial state satisfies the invariant |
| `RangeLocks.StartLockKeeps` | cmd/ztest.c:1979-2012 | calling a lock function, an object lock with nothing held or a range lock under an object lock, keeps the invariant |
| `RangeLocks.StartUnlockKeeps` | cmd/ztest.c:1987-2022 | so does calling an unlock function for the lock taken last |
| `RangeLocks.WakeKeeps` | cmd/ztest.c:1946-1953 | so does waking without a broadcast |
| `RangeLocks.EntryKeeps` | cmd/ztest.c:1941-1962 | so does entering the mutex |
| `RangeLocks.TakeKeeps` | cmd/ztest.c:1946-1955 | so does taking the lock as a reader or a writer |
| `RangeLocks.ExitKeeps` | cmd/ztest.c:1946-1957 | so does leaving the mutex, to go on or to sleep |
| `RangeLocks.GiveKeeps` | cmd/ztest.c:1959-1977 | so does unlocking, with its broadcast |
| `RangeLocks.GivesField` | cmd/ztest.c:1964-1971 | the two assertions of the unlock hold, and the right field is given back |
| `RangeLocks.BroadcastWakes` | cmd/ztest.c:1973-1974 | whoever still sleeps after the broadcast sleeps on another lock |
| `RangeLocks.StepKeeps` | cmd/ztest.c:1941-2022 | every step of every activity keeps the invariant |
| `RangeLocks.RunIsSafe` | cmd/ztest.c:1941-2022 | in every state of every run of any number of activities: never a writer with anybody else, and nobody asleep on a lock that could be taken |
| `RangeLocks.InvExcludes` | cmd/ztest.c:1941-1957 | exclusion from the invariant |
| `RangeLocks.UnlockIsRight` | cmd/ztest.c:1959-1977 | the unlock's test of the writer field always matches how the caller holds the lock |
| `RangeLocks.HolderOf` | cmd/ztest.c:1946-1952 | whoever sleeps waits for a lock that somebody holds |
| `RangeLocks.AwakeMoves` | cmd/ztest.c:1941-2022 | a busy activity that does not sleep can move, or the one in the mutex before it can |
| `RangeLocks.NoDeadlock` | cmd/ztest.c:2757-2798 | object lock before range lock: whenever anybody is busy, somebody can move, also when different objects share slots |
| `RangeHash.SlotIff` | cmd/ztest.c:1999-2000 | two offsets of one object share a slot exactly when they agree modulo 65 or are 0 and 64 modulo 65 |
| `RangeHash.Acquire` | cmd/ztest.c:1941-1957 | a lock that is free can be taken, as four steps of a run |
| `RangeHash.BothHeld` | cmd/ztest.c:1995-2012 | a run in which two range locks under one object lock are both held for writing |
| `RangeHash.RangesExcludeIff` | cmd/ztest.c:1995-2012 | over all runs: two ranges of one object exclude each other exactly when their offsets share a slot, whatever their sizes |
| `RangeHash.OverlapIsNotExcluded` | cmd/ztest.c:1995-2012 | two overlapping ranges that can both be held for writing |
| `RangeHash.ObjectsExcludeIff` | cmd/ztest.c:1979-1993 | over all runs: two objects exclude each other exactly when their numbers agree in the low six bits |
| `Xoshiro.Next` | cmd/ztest.c:914-931 | state and result of one step |
| `Xoshiro.PlusIsModular` | cmd/ztest.c:917-917 | the words are added modulo 2^64, and their low n bits modulo 2^n |
| `Xoshiro.RotlNum` | cmd/ztest.c:908-912 | rotating a word, as quotient and remainder of its number |
| `Xoshiro.OutputIs` | cmd/ztest.c:917-917 | the result as numbers: the sum of the first and last word modulo 2^64, rotated left by 23, plus the first word, modulo 2^64 |
| `Xoshiro.StepIsLinear` | cmd/ztest.c:914-931 | the state step is linear over exclusive or |
| `Xoshiro.UnstepStep` | cmd/ztest.c:914-931 | an explicit function undoes the step |
| `Xoshiro.StepUnstep` | cmd/ztest.c:914-931 | and the step undoes that function: the step is a bijection |
| `Xoshiro.StepsInjective` | cmd/ztest.c:914-931 | two different seeds never meet |
| `Xoshiro.NeverAllZero` | cmd/ztest.c:914-931 | a seed that is not all zero never becomes all zero |
| `Xoshiro.JumpTurn` | cmd/ztest.c:944-952 | one turn of the inner loop: accumulate if the bit is set, then step |
| `Xoshiro.JumpInPlace` | cmd/ztest.c:933-958 | the jump is the exclusive or of the iterates that the JUMP bits select |
| `Xoshiro.StepCombine` | cmd/ztest.c:933-958 | any such selection commutes with the step |
| `Xoshiro.CombineLinear` | cmd/ztest.c:933-958 | and is linear |
| `Xoshiro.CombineUnit` | cmd/ztest.c:933-958 | selecting one iterate gives that iterate |
| `Xoshiro.CombineXor` | cmd/ztest.c:933-958 | two selections added are the selection of what exactly one of them selects |
| `Xoshiro.StepJumps` | cmd/ztest.c:933-958 | k jumps commute with a step |
| `Xoshiro.JumpsCommuteWithSteps` | cmd/ztest.c:933-958 | k jumps then n steps is n steps then k jumps |
| `Xoshiro.SeedThread` | cmd/ztest.c:1001-1007 | a thread's n-th state is the primary stream's n-th state, jumped as often as the thread's number says |
| `MosSweep.MarkOwn` | cmd/zhack.c:907-1005 | what one vdev adds to the marks, for each of the four collectors |
| `MosSweep.CollectTree` | cmd/zhack.c:907-1005 | a collector marks exactly what the vdevs of the tree refer to |
| `MosSweep.CollectPrev` | cmd/zhack.c:969-985 | the previous obsolete space map |
| `MosSweep.CollectLogs` | cmd/zhack.c:1007-1015 | every log space map is marked |
| `MosSweep.CollectSpaceMapRefs` | cmd/zhack.c:1017-1027 | all sources together, object 0 excepted |
| `MosSweep.NodesAre` | cmd/zhack.c:907-1005 | the vdevs that a collector looks at are those that a path of children leads to |
| `MosSweep.SpaceMapRefsAre` | cmd/zhack.c:907-1027 | a space map is marked exactly when a leaf's DTL, a metaslab of a top-level vdev, an obsolete or previous obsolete map, a checkpoint or the log list names it |
| `MosSweep.CollectClonesRefs` | cmd/zhack.c:876-905 | every clone map that a DSL directory refers to |
| `MosSweep.ClonesRefsAre` | cmd/zhack.c:876-905 | a clone map is marked exactly when a readable DSL directory names it |
| `MosSweep.Scan` | cmd/zhack.c:1029-1142 | for each type: the unreferenced objects are counted, the empty ones listed in order, the others skipped, and the counts add up |
| `MosSweep.FreeAll` | cmd/zhack.c:1163-1189 | the listed objects go, all others stay unchanged |
| `MosSweep.Reclaim` | cmd/zhack.c:1163-1189 | exactly the empty unreferenced objects of the two types are freed |
| `MosSweep.SweepIsSafe` | cmd/zhack.c:1029-1189 | only empty objects of the two types are freed, none that is marked for its own type, and what stays is unchanged |
| `MosSweep.FreedExactly` | cmd/zhack.c:1029-1189 | over the objects' fields: freed are exactly the empty clone maps that no readable directory names and the empty space maps with a whole bonus that none of the sources names |
| `MosSweep.NamedMapsStay` | cmd/zhack.c:1029-1189 | no space map that one of the sources names is ever freed |
| `MosSweep.NothingMarkedIsFreedIff` | cmd/zhack.c:1034-1089 | no object that any collector marks is freed exactly when no empty object is marked for the other type only |
| `MosSweep.WrongMarkDoesNotProtect` | cmd/zhack.c:1034-1089 | an empty clone map that a log list names is freed |
| `MosSweep.NothingNamedIsFreedIff` | cmd/zhack.c:876-905 | no clone map that a directory on disk names is freed exactly when every empty one is named by a directory whose bonus can be read |
| `MosSweep.UnreadableDirectory` | cmd/zhack.c:891-897 | a directory and a clone map for which that fails |
| `MosSweep.ClonesRefsStay` | cmd/zhack.c:876-905 | if no directory is freed, the clone marks stay |
| `MosSweep.SpaceMapRefsStay` | cmd/zhack.c:1017-1027 | an object that stays keeps its mark, or lack of one |
| `MosSweep.SweptIsClean` | cmd/zhack.c:1029-1189 | if no directory is freed, a second scan finds nothing to reclaim and a second sweep frees nothing |
| `MosSweep.SweptIsCleanIff` | cmd/zhack.c:1029-1189 | without that assumption: exactly when every empty referenced clone map keeps a directory that refers to it |
| `MosSweep.SecondScanCanFindMore` | cmd/zhack.c:876-905 | in a damaged MOS, where a clone map's bonus is a DSL directory, a second scan does find something |
| `MosSweep.LeakThenReclaim` | cmd/zhack.c:1163-1211 | in a pool without reclaimable objects, leak then reclaim restores the objects exactly when no new object got a number that something already refers to |
| `MosSweep.DanglingReference` | cmd/zhack.c:1191-1211 | a dangling reference for which it does not |
| `IndirectWalk.VisitIndirect` | cmd/zdb/zdb.c:3064-3121 | the walk: blocks met, stop at a failed read, fill mismatches |
| `IndirectWalk.ChildrenTile` | cmd/zdb/zdb.c:3099-3103 | the children's ranges of level-0 blocks tile the parent's, in order |
| `IndirectWalk.WalkIsOrdered` | cmd/zdb/zdb.c:3064-3121 | level-0 blocks are met in strictly increasing order, all inside the range of the block above |
| `IndirectWalk.OffsetIsFirst` | cmd/zdb/zdb.c:2666-2682 | the file offset of an indirect block is that of the first data block under it |
| `IndirectWalk.DataOffset` | cmd/zdb/zdb.c:2666-2682 | data block x starts at x times the block size |
| `IndirectWalk.LeafOffsetsIncrease` | cmd/zdb/zdb.c:2666-2682 | data blocks are met in strictly increasing file offset, within the parent's span |
| `IndirectWalk.DumpIndirect` | cmd/zdb/zdb.c:3123-3138 | the walk over all block pointers of the dnode, going on after an error |
| `IndirectWalk.ObjectIsOrdered` | cmd/zdb/zdb.c:3123-3138 | over the whole object, level-0 blocks are met in strictly increasing order, below the end of its last top-level block |
| `IndirectWalk.ObjectOffsetsIncrease` | cmd/zdb/zdb.c:3123-3138 | and so are their file offsets |
| `WalkPaths.ErrIff` | cmd/zdb/zdb.c:3078-3117 | the walk fails exactly when a block on its way cannot be read |
| `WalkPaths.LeavesAre` | cmd/zdb/zdb.c:3078-3104 | a data block is met exactly when a path of children leads to it through born indirect blocks that are not holes, with nothing unreadable to its left, and its number is the block's followed by the child indices as digits |
| `WalkPaths.ObjectLeavesAre` | cmd/zdb/zdb.c:3123-3138 | the same for all block pointers of the dnode |
| `WalkPaths.BadIff` | cmd/zdb/zdb.c:3109-3117 | a wrong fill is reported exactly when a path leads to an indirect block, read with all below it, whose fill is not the sum of its children's |
| `IndirectWalk.FillAddsUp` | cmd/zdb/zdb.c:3109-3117 | if nothing is flagged, a block's fill is that of the data below it plus that of holes |
| `IndirectWalk.FillIsDataIff` | cmd/zdb/zdb.c:3109-3117 | it is the data's alone exactly when no hole carries a fill |
| `IndirectWalk.HoleWithFill` | cmd/zdb/zdb.c:3109-3117 | an unborn block pointer with a fill goes unnoticed |
| `IndirectMapping.MsBounds` | cmd/zdb/zdb.c:7432-7468 | an offset lies before a metaslab exactly when the metaslab it lies in comes before it |
| `IndirectMapping.LoaderTests` | cmd/zdb/zdb.c:7440-7460 | the loader's comparisons, in terms of the metaslab an entry lies in |
| `IndirectMapping.LoadMetaslab` | cmd/zdb/zdb.c:7432-7468 | from a cursor at the metaslab's first entry: no assertion trips, the tree holds exactly the metaslab's entries, the cursor ends at the next metaslab's first entry |
| `IndirectMapping.EntryBytesAre` | cmd/zdb/zdb.c:7432-7468 | the tree of a metaslab holds the bytes of the entries that start in it, and no others |
| `IndirectMapping.LoadVdev` | cmd/zdb/zdb.c:7471-7517 | every tree is right, and the final assertion holds exactly when every entry starts before the end of the last metaslab |
| `IndirectMapping.EntryIsLoadedOnce` | cmd/zdb/zdb.c:7432-7517 | every entry is in the tree of its metaslab and no byte of it is in another |
| `IndirectMapping.CountObsolete` | cmd/zdb/zdb.c:7596-7617 | the inner loop's count |
| `IndirectMapping.ObsoleteCountIff` | cmd/zdb/zdb.c:7605-7617 | it is the number of unclaimed bytes of the entry exactly when no allocation unit was claimed in part |
| `IndirectMapping.SplitUnitIsMissed` | cmd/zdb/zdb.c:7605-7617 | wherever a unit of more than one byte lies, one byte of it left unclaimed is not counted |
| `IndirectMapping.CheckObsolete` | cmd/zdb/zdb.c:7586-7656 | the mismatches are summed without sign; a leak is reported exactly when the counts are precise and some entry's count is off |
| `IndirectMapping.PassesIff` | cmd/zdb/zdb.c:7586-7656 | when no unit is split, the counts agree exactly when each is the number of unclaimed bytes of its entry |
| `BlockStatistics.Stats.constructor` | cmd/zdb/zdb.c:7971-7971 | an empty table has right totals |
| `BlockStatistics.Stats.AddTurns` | cmd/zdb/zdb.c:6683-6692 | the four turns of the loop, in their order |
| `BlockStatistics.Stats.CountStats` | cmd/zdb/zdb.c:6683-6748 | a block counted in every accumulated field of a cell, every total kept |
| `BlockStatistics.DittoMeans` | cmd/zdb/zdb.c:6706-6748 | a block counts once as having copies on one vdev exactly when two copies are, and once as having them in one metaslab exactly when two are |
| `BlockStatistics.SameMetaslabMeans` | cmd/zdb/zdb.c:6314-6321 | two copies are in one metaslab exactly when one metaslab range of their vdev holds both offsets |
| `BlockStatistics.BucketHolds` | cmd/zdb/zdb.c:6698-6700 | each bucket holds the physical sizes of one sector count, the last all larger ones |
| `BlockStatistics.CountedSound` | cmd/zdb/zdb.c:6683-6748 | no cell ever has more blocks in one metaslab than on one vdev, nor more of those than blocks, and its buckets hold each of its blocks once |
| `BlockStatistics.CountedAt` | cmd/zdb/zdb.c:6683-6692 | exactly four cells change, each by the block, in every field |
| `BlockStatistics.CountedKeeps` | cmd/zdb/zdb.c:6683-6748 | each per-type total is the sum over levels and each per-level total the sum over types, in every field, gang and ditto counters and the size histogram included |
| `BlockStatistics.TotalCell` | cmd/zdb/zdb.c:6683-6692 | the cell of all levels and types is the sum over all blocks |
| `BlockStatistics.CellsTell` | cmd/zdb/zdb.c:6683-6748 | every field of every cell over the blocks that count for it: the sums of the three sizes, the number of blocks, of gang copies, of blocks that share a vdev or a metaslab, and of blocks in each size bucket |
| `BlockStatistics.BinHolds` | cmd/zdb/zdb.c:6832-6837 | bin b holds exactly the sizes in (2^(b-1), 2^b] |
| `BlockStatistics.BinInRangeIff` | cmd/zdb/zdb.c:6837-6866 | the bin exists exactly for sizes from 1 byte to 16 MB |
| `BlockStatistics.BinOfMode` | cmd/zdb/zdb.c:6839-6866 | which of the three sizes picks the bin in each mode |
| `BlockStatistics.ThreeCopies` | cmd/zdb/zdb.c:6837-6866 | the allocated size of a 16 MB block with three copies has no bin |
| `BlockStatistics.RecordedKeeps` | cmd/zdb/zdb.c:6850-6866 | a recorded size keeps the bins summing to the total, adds one block, and leaves each bin with bytes that blocks of its sizes can have |
| `BlockStatistics.Histograms.constructor` | cmd/zdb/zdb.c:7971-7971 | empty histograms balance |
| `BlockStatistics.Histograms.CountBins` | cmd/zdb/zdb.c:6825-6866 | for every binning mode and every size: goes through exactly when every bin exists; then bins sum to the totals, the three histograms count the same blocks, and a histogram binned by its own size fits its bins |
| `FaultInjection.BadOffsetInRange` | cmd/ztest.c:6838-6840 | a bad word lies in the first half of one injection range |
| `FaultInjection.EveryWordIsHit` | cmd/ztest.c:6838-6840 | exactly the aligned words of the first half of the range can be hit |
| `FaultInjection.NeverSharedIff` | cmd/ztest.c:6838-6840 | two leaves never share a range, whatever is drawn, exactly when their numbers differ modulo the number of leaves |
| `FaultInjection.LeavesDiffer` | cmd/ztest.c:6684-6685 | leaves in use at one time do differ, for any number of splits |
| `FaultInjection.NoBlockHitTwice` | cmd/ztest.c:6810-6840 | bad words on two leaves are at least two maximal blocks apart, so no window of one maximal block holds both |
| `DraidGroups.CountGroups` | cmd/ztest.c:1603-1616 | under the width check made at option time, the loop ends within children minus spares turns, and groups times width is the least common multiple of width and drives |

## Left out

- RangeTrees.RangeTree.Add: does not model gap support (`rt_gap`), the segment histogram or the tree's callbacks; the trees of these programs have no gap.
- CheckpointCheck.VerifyPool: requires that the current pool still has every concrete vdev and metaslab of the checkpoint, because the code reads them by number without a test (no vdev can be removed while there is a checkpoint).
- LeakCheck.Zcb.ClaimBlock: the assertion at the end of metaslab_claim is taken to be compiled out, so a claim whose copies overlap returns an error instead of aborting.
- LeakVerdict.DumpBlockStats: does not model vdevs whose removal has finished, gang headers or the `-L` option; a claim is the bytes of the block's copies. The entries of a checkpoint's space maps are given.
- Removal.FindRemoving: requires mapping entries in order, none past the end of the vdev, and space map entries with a positive length, as they are written. A destination that has itself been removed is not followed; while a removal runs no other can have finished since it started, and the code asserts that destinations are concrete (cmd/zdb/zdb.c:7064-7070).
- Removal.RemapSegment: does not follow a destination that has itself been removed, for the same reason.
- Removal.WholeIsJoint: requires that the entries of a metaslab's space map lie in that metaslab, as they do when they are written.
- RefcountTrace.CountsAfter: requires that no pointer names another DDT variant than the block's and still has the block's first DVA, because the DDT has one variant for one allocation, and that embedded pointers name no DDT variant, since their dedup bit is zero (include/sys/spa.h:292).
- SpaceMapReplay.LoadSpaceMap: does not model the check for room before an entry is added; `SpaceMapReplay.RoomIsLeft` shows that it fails only for entries outside their metaslab. The same holds for Removal.LoadTree.
- Removal.LoadTree: does not model the check for room before an entry is added, as above.
- Xoshiro.JumpInPlace: that the four constants make a jump equal to 2^128 steps is not proved.
- LivelistCheck.ValidatePool: requires space map entries with a positive length, as they are written.
- BlockStatistics.Histograms.CountBins: answers false where the code would write past the end of an array, and says nothing about the state then.
- MosSweep.CollectTree: requires that leaf vdevs have no children, because the DTL collector does not look below a leaf.
- IndirectMapping.LoadMetaslab: requires mapping entries in order that do not cross metaslabs, as device removal creates them.
- RangeLocks.NoDeadlock: holds for any assignment of objects and ranges to slots; which ranges share one is the subject of RangeHash.
- A range tree operation that fails is an abort. With `-AA` zdb sets zfs_recover (cmd/zdb/zdb.c:11005) and goes on after some of these failures; that is not modelled.
- B-tree, AVL tree, DDT, BRT, DMU and ZAP internals: ordered sequences, maps and values stand for them.
- 64-bit wrap-around is modelled where an offset can wrap (`ForcedAllocation.End64`, the last line of the allocated map, `BlockStatistics.Minus1`, the generator's additions) and nowhere else; counters are unbounded.
- Printing, option parsing, progress output, I/O errors other than a failed read in the indirect walk, encryption, label repair, L2ARC dumping and ztest's exercise functions.
- Damage to labels and the end of the device in fault injection: those tests only drop some of the offsets that are proved to be apart.
