# BGPStream, modelled and proved in Dafny

This project models five parts of libBGPStream and bgpcorsaro that hold real state or arithmetic,
and proves what they are for.

**The patricia tree** (`Prefixes`, `Trie`, `TrieInsertion`, `TrieRemoval`, `TrieStored`, `TrieSteps`,
`Patricia`, `PatriciaTree`, `PatriciaMerge`, `TrieListing`, `TrieSubnets`, `PatriciaQueries`,
`PatriciaOverlap`, `PrefixFilter`, `FilterFlags`, `FilterTree`). A mutable binary
trie with parent pointers, labelled nodes and glue nodes. Each node stands for a bit string (its
key); the invariant says where every node must be. The modules up to `TrieSteps` state the insert and
remove steps on values and prove that they keep the invariant, change the stored set by exactly one
prefix, and undo each other. `Patricia` and `PatriciaTree` do the same steps with pointer writes on
objects and are proved equal to them. The queries are proved against the plain set of stored
prefixes, and the prefix filters against the list of filters and flags they were built from.

**The IP counter** (`Intervals`, `IpCounting`, `IpCounter`, `IpOverlap`, `Coverage`). A linked list of disjoint
intervals, widened and spliced in place. Because ranges of prefixes nest or are disjoint, the list is
a canonical form: the ranges of the maximal added prefixes, whatever the order of additions. The
counts are proved equal to cardinalities, with the 32-bit and 64-bit arithmetic written out.

**The time-ordered stream** (`Inputs`, `Readers`, `DumpRecords`, `Merging`, `MergeOrder`, `MergeTies`, `Stream`,
`StreamOrder`, `StreamCapped`, `StreamThinning`, `StreamWindows`, `InputQueue`, `ReaderQueue`, `Bgpstream`). A sorted
input queue without duplicates is cut into batches of overlapping intervals; each batch is merged
through a priority queue of readers. All but the last three modules give the meaning on values and prove
order and conservation over whole runs; those three are the linked queues and the driver loop in
place. The driver object denotes the sequence of records, and errors of the data source, that calls
have still to come to.

**The AS path and its store** (`AsPath`, `AsPathWire`, `AsPathBuffer`, `AsPathText`, `AsPathStore`,
`AsPathLimits`). The packed byte encoding with its cursor, the reading of the wire attribute (section 4.3 of RFC 4271, section 3
of RFC 5065), the printing into a limited buffer, and the interning store that strips and restores the peer's hop.

**bgpcorsaro's interval machine and the prefix list reader** (`Corsaro`, `PrefixList`). The start,
end and process events of a run of records; and the NLRI list reader over a bounded cursor.

`Wrappers` and `Sequences` hold what several of these use.

Where the code departs from its evident intent, the model follows the code and a theorem says
exactly when the two differ:

- Node creation does not copy the match flag of a prefix (`PrefixFilter.StoredFlag`), so a filter
  keeps its flag only if filters on both sides of it were added before; other filters allow any
  match (`FilterTree.CarriesInsert`, `FilterFlags.FlagsIgnored`, `FilterFlags.PassedExactly`).
- Clearing a result set does not reset its cursor, so the second scan of the prefix match can start
  too late (`PrefixFilter.VerdictVersusIntent`, `FilterFlags.MissedExactly`, with an instance in
  `FilterTree.ConcreteMiss`).
- Removing a node with two children returns before the counter is lowered
  (`PatriciaTree.Family.RemoveNode`), so the temporary inserts of overlap queries can raise it
  (`PatriciaOverlap.GetPfxOverlapInfo`).
- The IPv4 count is 0 when the whole address space was added (`IpCounting.CountedAddresses`).
- The IPv6 overlap compares a most significant half with a least significant one; for prefixes
  longer than 64 bits the count is right only under a condition on the list and the prefix
  (`IpOverlap.CountsRightExactly`, with an instance in `IpOverlap.Miscounted`).
- A batch is empty when the head's type is unknown or its span is not positive
  (`Inputs.BatchNonEmpty`); the driver then goes round for ever (`Stream.RunEnds`, `Stream.StuckFor`,
  `Bgpstream.BgpStream.StuckRound`).
- Record times can go back exactly at a cut that leaves an overlapping input behind
  (`StreamOrder.RunOrdered`, `StreamOrder.UncleanCutBreaksOrder`), and only the cap of 200 readers
  makes such a cut (`StreamOrder.UncappedCutsAreClean`); it makes one in any queue of more than 200
  dumps of one time (`StreamCapped.CrowdIsCut`, `StreamCapped.CrowdGoesBack`, with such queues in
  `StreamCapped.CrowdIsQueue`).
- The 65536th path of a bucket fails and empties it (`AsPathStore.InternKeeps`,
  `AsPathStore.InternFails`), and paths with the same first and last hop share a bucket
  (`AsPathLimits.BucketFills`, `AsPathLimits.FullBucketFails`).
- The hash of a path whose last segment is an empty group reads past the path, so the same bytes can
  get two ids (`AsPathStore.EmptyOriginTwoIds`, with an instance in `AsPathLimits.EmptySetTwoIds`);
  ids are unique for all other paths (`AsPathStore.IdsDistinguish`). Fetching and rebuilding are
  not affected (`AsPathStore.RoundTrip`).
- The reader of a prefix list stores a 2001st prefix past the caller's array of 2000 before it stops
  the program (`PrefixList.ReadPrefixList`).
- The AS path reader's error for consecutive segments of identical type never arises, because the
  previous type is never recorded; the model has no such error.
- Finalising leaves the last interval open when the last record opened it
  (`Corsaro.FinalizeCloses`, with an instance in `Corsaro.LastLeftOpen`).

## Model

| member | source | states |
|---|---|---|
| Prefixes.FirstDifference | lib/utils/bgpstream_utils_patricia.c:585-610 | the byte-wise scan with its clamp returns the first of the leading bits in which two addresses differ, or the limit if there is none |
| Prefixes.CompWithMaskIsBitwise | lib/utils/bgpstream_utils_patricia.c:59-70 | the exact search's comparison of whole bytes and one masked byte holds exactly when the masked leading bits agree, for every mask length |
| Prefixes.MaskedByte | lib/utils/bgpstream_utils_patricia.c:64-66 | two bytes agree under the partial-byte mask exactly when their leading bits do |
| Prefixes.MaskedBits | lib/utils/bgpstream_utils_addr.c:117-165 | masking an address keeps its leading bits and clears every other bit |
| Prefixes.ContainsIsKeyOrder | lib/utils/bgpstream_utils_pfx.c:135-147 | the containment test holds exactly when the versions agree, the outer prefix's bits are an initial part of the inner one's, and the outer prefix has no host bits set |
| Prefixes.WellFormedMeans | lib/utils/bgpstream_utils_pfx.h:68-98 | a prefix has an IPv4 address, 4 bytes, and at most 32 bits or an IPv6 address, 16 bytes, and at most 128 |
| Prefixes.BitsMean | lib/utils/bgpstream_utils_patricia.c:561-563 | the bits of an address are those of its bytes, the most significant of each byte first |
| TrieInsertion.InsertBelowShaped | lib/utils/bgpstream_utils_patricia.c:650-665 | hanging a new node in a free child slot keeps depth order, sides, parent links, distinctness and the single root |
| TrieInsertion.InsertAboveShaped | lib/utils/bgpstream_utils_patricia.c:667-690 | splicing a new node between a node and its parent keeps the same invariant, at the head as well |
| TrieStored.RelabelOk | lib/utils/bgpstream_utils_patricia.c:630-641 | giving a glue node a prefix keeps the full invariant and adds exactly that prefix to the stored set |
| TrieStored.InsertChildOk | lib/utils/bgpstream_utils_patricia.c:650-665 | the child placement keeps the full invariant and adds exactly the new prefix |
| TrieStored.InsertParentOk | lib/utils/bgpstream_utils_patricia.c:667-690 | the parent placement does too, and moves the head exactly when it was the head that got a parent |
| TrieStored.InsertGlueOk | lib/utils/bgpstream_utils_patricia.c:691-725 | the new-glue placement does too; the glue node gets both children and stores nothing |
| TrieRemoval.RemoveLeafShaped | lib/utils/bgpstream_utils_patricia.c:822-849 | unhooking a node without children keeps the shape |
| TrieRemoval.RemoveUnaryShaped | lib/utils/bgpstream_utils_patricia.c:874-901 | replacing a node by its only child keeps the shape |
| TrieStored.RemoveLeafOk | lib/utils/bgpstream_utils_patricia.c:822-849 | removing a childless node under a labelled parent keeps the full invariant and takes exactly its prefix away |
| TrieStored.RemoveUnaryOk | lib/utils/bgpstream_utils_patricia.c:874-901 | removing a node with one child does too |
| TrieStored.UnlabelOk | lib/utils/bgpstream_utils_patricia.c:807-820 | a node with two children becomes glue: the invariant holds and exactly its prefix is gone |
| TrieStored.CollapseOk | lib/utils/bgpstream_utils_patricia.c:852-871 | when a glue parent would keep one child it goes as well, and the full invariant, every glue node having two children, still holds |
| TrieStored.UnlabelUndoesRelabel | lib/utils/bgpstream_utils_patricia.c:630-641 | turning a reused glue node back gives the identical tree |
| TrieStored.RemoveLeafUndoesInsertChild | lib/utils/bgpstream_utils_patricia.c:650-665 | removing a node just placed as a child gives the identical tree |
| TrieStored.RemoveUnaryUndoesInsertParent | lib/utils/bgpstream_utils_patricia.c:667-690 | removing a node just placed as a parent gives the identical tree |
| TrieStored.CollapseUndoesInsertGlue | lib/utils/bgpstream_utils_patricia.c:691-725 | removing a node just placed under a new glue node removes the glue node and gives the identical tree |
| TrieSteps.PlaceOk | lib/utils/bgpstream_utils_patricia.c:521-729 | in all placements an insert keeps the full invariant and the stored set becomes exactly the old one with the new prefix |
| TrieSteps.RemoveOk | lib/utils/bgpstream_utils_patricia.c:777-902 | in all cases removing a stored node keeps the full invariant and the stored set becomes exactly the old one without its prefix |
| TrieSteps.RemoveUndoesPlace | lib/utils/bgpstream_utils_patricia.c:750-768 | removing what was just inserted restores the identical tree, whatever the placement |
| Patricia.Descend | lib/utils/bgpstream_utils_patricia.c:548-579 | the descent stops at a labelled node on or beside the way to the prefix, never at a null pointer and never at glue |
| Patricia.Climb | lib/utils/bgpstream_utils_patricia.c:615-620 | the climb stops at the topmost node at or below the first differing bit, keeping what the descent established |
| Patricia.FindExact | lib/utils/bgpstream_utils_patricia.c:904-954 | the search returns a node exactly when the prefix is stored, and it is that prefix's node |
| Patricia.Locate | lib/utils/bgpstream_utils_patricia.c:548-626 | descent, first difference and climb together find the one placement that applies |
| Patricia.LinkChild | lib/utils/bgpstream_utils_patricia.c:651-665 | the pointer writes of the child case equal the value-level step; the slot written is free |
| Patricia.LinkParent | lib/utils/bgpstream_utils_patricia.c:667-690 | the pointer writes of the parent case equal the value-level step |
| Patricia.LinkGlue | lib/utils/bgpstream_utils_patricia.c:691-725 | the pointer writes of the glue case equal the value-level step |
| Patricia.InsertInto | lib/utils/bgpstream_utils_patricia.c:521-729 | inserting into a tree with a head is one of the placements, on the nodes in place; a node is new to the count unless the prefix was present |
| Patricia.PlantFirst | lib/utils/bgpstream_utils_patricia.c:536-546 | the first insert makes the head |
| Patricia.Bypass | lib/utils/bgpstream_utils_patricia.c:874-901 | the pointer writes that replace a node by its only child equal the value-level step |
| Patricia.Prune | lib/utils/bgpstream_utils_patricia.c:822-849 | the pointer writes that unhook a childless node equal the value-level step |
| Patricia.RemoveFrom | lib/utils/bgpstream_utils_patricia.c:777-902 | removing a node on the heap equals the value-level removal; the count is lowered in all cases but two children |
| PatriciaTree.PlaceCounts | lib/utils/bgpstream_utils_patricia.c:180-184 | an insert finds the prefix present exactly when it is stored, and otherwise makes the stored set one larger |
| PatriciaTree.Family.constructor | lib/utils/bgpstream_utils_patricia.c:506-519 | a new tree stores nothing |
| PatriciaTree.Family.SearchExact | lib/utils/bgpstream_utils_patricia.c:904-954 | a node is found exactly when the prefix is stored |
| PatriciaTree.Family.Insert | lib/utils/bgpstream_utils_patricia.c:521-729 | the stored set becomes the old one with the prefix, the invariant holds, and the counter grows exactly when the prefix was new |
| PatriciaTree.Family.RemoveNode | lib/utils/bgpstream_utils_patricia.c:777-902 | null and glue nodes are left alone; otherwise the stored set loses exactly the node's prefix, and the counter falls unless the node had two children, so it exceeds the number of prefixes by the number of such removals, and equals it on runs without them |
| PatriciaTree.Family.RemovePrefix | lib/utils/bgpstream_utils_patricia.c:770-775 | removing a prefix that is not stored changes nothing |
| PatriciaMerge.Merge | lib/utils/bgpstream_utils_patricia.c:1066-1077 | after a merge the destination stores exactly the union, keeps its invariant, and the source is unchanged; a tree can be merged into itself |
| PatriciaMerge.MergeTree | lib/utils/bgpstream_utils_patricia.c:357-370 | the recursive walk adds exactly the prefixes stored under a node |
| TrieListing.ListingMembers | lib/utils/bgpstream_utils_patricia.c:287-313 | the depth-limited walk lists a node exactly when it is labelled, in the subtree, and at most that many labelled levels down |
| TrieListing.ListingAscending | lib/utils/bgpstream_utils_patricia.c:304-311 | the walk lists nodes in ascending address order, a prefix before those inside it |
| TrieListing.AscendingUnique | lib/utils/bgpstream_utils_patricia.c:287-313 | that order and the set of nodes determine the list |
| TrieListing.DepthEnough | lib/utils/bgpstream_utils_patricia.c:980-997 | no chain of labelled nodes is longer than 129, so the depth bound never cuts a listing short |
| TrieListing.MoreSpecificsExact | lib/utils/bgpstream_utils_patricia.c:980-997 | the two walks together list exactly the stored prefixes strictly inside, in order |
| TrieListing.LessSpecificsExact | lib/utils/bgpstream_utils_patricia.c:1012-1024 | the climb lists exactly the stored prefixes strictly containing the node, nearest first |
| TrieListing.NearestAbove | lib/utils/bgpstream_utils_patricia.c:999-1010 | with depth one the climb gives the nearest stored prefix above, if there is one |
| TrieListing.MinimumCoverageExact | lib/utils/bgpstream_utils_patricia.c:1026-1034 | with depth one the walk from the head lists exactly the stored prefixes that no other stored prefix contains, in order |
| PatriciaQueries.ResultSet.Next | lib/utils/bgpstream_utils_patricia.c:478-486 | the cursor hands out the results one by one, then nothing |
| PatriciaQueries.ResultSet.Clear | lib/utils/bgpstream_utils_patricia.c:160-164 | clearing drops the results and leaves the cursor where it was |
| PatriciaQueries.AddMoreSpecifics | lib/utils/bgpstream_utils_patricia.c:287-313 | the recursive walk appends exactly the listing |
| PatriciaQueries.GetMoreSpecifics | lib/utils/bgpstream_utils_patricia.c:980-997 | the result is exactly the stored prefixes strictly inside, ascending |
| PatriciaQueries.AddLessSpecifics | lib/utils/bgpstream_utils_patricia.c:315-336 | the loop appends exactly the climb |
| PatriciaQueries.GetLessSpecifics | lib/utils/bgpstream_utils_patricia.c:1012-1024 | the result is exactly the stored prefixes strictly containing the node, nearest first |
| PatriciaQueries.GetMincoveringPrefix | lib/utils/bgpstream_utils_patricia.c:999-1010 | the result is the nearest stored prefix above the node, or nothing if there is none |
| PatriciaQueries.GetMinimumCoverage | lib/utils/bgpstream_utils_patricia.c:1026-1034 | the result is exactly the stored prefixes with no stored prefix above them, ascending |
| PatriciaQueries.FindMoreSpecific | lib/utils/bgpstream_utils_patricia.c:338-355 | the search succeeds exactly when the subtree stores something |
| TrieSubnets.InsideCount | lib/utils/bgpstream_utils_patricia.c:272-282 | a prefix of length n holds two to the power size minus n blocks of the given size |
| TrieSubnets.TouchedByShort | lib/utils/bgpstream_utils_patricia.c:265-282 | a stored prefix shorter than the block size touches exactly the blocks inside it, whatever is stored below |
| TrieSubnets.TouchedByDeep | lib/utils/bgpstream_utils_patricia.c:254-262 | a node as long as a block or longer touches one block, even if it is glue |
| TrieSubnets.TouchedByGlue | lib/utils/bgpstream_utils_patricia.c:254-262 | the blocks touched under a glue node are those of its sides, which do not meet |
| TrieSubnets.CountIsTouched | lib/utils/bgpstream_utils_patricia.c:248-285 | the recursive count, in 64-bit arithmetic, equals the number of blocks touched by the union of what is stored, except when all 2^64 blocks are; then it is what the code's special case or wrap-around gives |
| PatriciaQueries.Count24Subnets | lib/utils/bgpstream_utils_patricia.c:970-973 | the count is the number of distinct /24 blocks touched by the stored prefixes |
| PatriciaQueries.Count64Subnets | lib/utils/bgpstream_utils_patricia.c:975-978 | the count is the number of distinct /64 blocks touched exactly when that number fits in 64 bits |
| PatriciaOverlap.GetNodeOverlapInfo | lib/utils/bgpstream_utils_patricia.c:1036-1064 | the mask equals the brute-force answer over the stored set: equal, some strict ancestor, some strict descendant |
| PatriciaOverlap.ReusesGlue | lib/utils/bgpstream_utils_patricia.c:622-641 | an insert relabels a node exactly when some node, glue or labelled, stands for the prefix |
| PatriciaOverlap.ProbeFacts | lib/utils/bgpstream_utils_patricia.c:759-765 | the temporary insert adds only the prefix, gets two children exactly when it reused a glue node, and removing it restores the identical tree |
| PatriciaOverlap.GetPfxOverlapInfo | lib/utils/bgpstream_utils_patricia.c:750-768 | the mask equals the brute-force answer for any prefix, stored or not; the tree is identical afterwards; the counter is one higher exactly when an absent prefix fell on a glue node |
| PatriciaOverlap.WithoutItself | lib/utils/bgpstream_utils_patricia.c:761-765 | clearing the exact bit turns the answer over the set with the probe into the answer over the set without it |
| PatriciaOverlap.MaskMeans | lib/utils/bgpstream_utils_patricia.h:59-61 | the bits of the mask: 2 for the prefix itself, 4 for one that contains it, 1 for one inside it |
| PrefixFilter.Scan | lib/bgpstream_record.c:131-153 | a scan finds a matching flag exactly among the results from the cursor on, and leaves the cursor behind the last one if it finds none |
| PrefixFilter.ProbeAnswers | lib/bgpstream_record.c:124-157 | what the queries around the temporary node answer is an answer about the tree without it |
| PrefixFilter.ElemPrefixMatch | lib/bgpstream_record.c:111-159 | a stored prefix always matches; otherwise the result is the two scans' verdict, and the tree is identical afterwards |
| PrefixFilter.VerdictVersusIntent | lib/bgpstream_record.c:124-159 | against the evident intent (some containing prefix allows more specifics, or some contained one allows less specifics) a match is never wrong, and one is missed exactly when no containing prefix allows it and every contained prefix that does comes earlier in the listing than the number of containing prefixes, because the cursor was not reset |
| FilterTree.NodeStands | lib/utils/bgpstream_utils_patricia.c:622-641 | some node stands for a bit string exactly when it is stored or there are stored prefixes on both sides of it |
| FilterTree.CarriesInsert | lib/bgpstream_filter.c:124-126 | one insert adds exactly one filter: nothing if its prefix is stored, its own match flag if stored prefixes lie on both sides of it, and otherwise the flag that allows any match |
| FilterTree.GrownCarries | lib/bgpstream_filter.c:95-131 | any tree built by inserts from the empty one carries the flags that the list of its filters keeps, whatever the placements |
| FilterTree.AddFilter | lib/bgpstream_filter.c:124-126 | so does the tree in place |
| FilterTree.AddFilters | lib/bgpstream_filter.c:95-131 | a new tree given a list of filters one after the other ends with exactly the flags that the list keeps |
| FilterTree.VerdictIsAnswer | lib/bgpstream_record.c:124-159 | the verdict around the temporary node is the answer read off the flags alone, the listing positions being numbers of stored prefixes |
| FilterTree.Matches | lib/bgpstream_record.c:111-159 | matching an element against a tree of filters answers as the kept flags do and leaves the tree as it was |
| FilterFlags.KeptOrAny | lib/bgpstream_filter.c:111-126 | every filter's prefix is stored, with the flag given first for it or the flag that allows any match |
| FilterFlags.MissedExactly | lib/bgpstream_record.c:141-153 | a prefix that the given flags ask for is missed exactly when filters contain it, all kept flags that do not allow more specifics, and the filters inside it that allow less specifics all come among as many in address order as there are filters that contain it |
| FilterFlags.PassedExactly | lib/bgpstream_record.c:129-153 | a prefix that the given flags do not ask for passes exactly when a filter whose flag was lost contains it, or one inside it that is not skipped lost its flag |
| FilterFlags.FlagsIgnored | lib/utils/bgpstream_utils_patricia.c:188-190 | if no filter is added between two that lie on either side of it, the given flags have no effect: a prefix passes exactly when it contains, equals or is contained in some filter's |
| FilterFlags.AnswersMean | lib/bgpstream_record.c:129-153 | asked for and answered, in the flags' numbers: 0 or 2 on a prefix that contains the searched one, 0 or 3 on one inside it, the latter looked at only behind as many others as there are prefixes that contain it |
| FilterTree.ConcreteMiss | lib/bgpstream_record.c:141-153 | a tree built by three inserts, of 0.0.0.0/4 and 64.0.0.0/2 for any match and 0.0.0.0/1 for exact matches, where a search for 0.0.0.0/3 misses the /4 |
| PrefixFilter.StoredFlag | lib/utils/bgpstream_utils_patricia.c:188-190 | an inserted prefix keeps its match flag exactly when the flag is the default or a glue node was reused, because node creation does not copy it |
| Intervals.MergeKeeps | lib/utils/bgpstream_utils_ip_counter.c:127-189 | merging any interval into a sorted disjoint list keeps it sorted and disjoint and covers exactly the old numbers and the new ones |
| Intervals.MergeNested | lib/utils/bgpstream_utils_ip_counter.c:127-189 | when intervals nest or are disjoint, merging only ever adds the new interval, drops those inside it, or does nothing |
| Intervals.MergeSkips | lib/utils/bgpstream_utils_ip_counter.c:135-150 | intervals that end before the new one starts are passed over unchanged |
| Intervals.RangeLaminar | lib/utils/bgpstream_utils_ip_counter.c:296-336 | the ranges of two prefixes nest exactly as their bit strings do, and are disjoint otherwise |
| IpCounting.MaskedRange | lib/utils/bgpstream_utils_ip_counter.c:296-336 | masking an address and filling its host bits gives the range of its prefix |
| IpCounter.PairOrder | lib/utils/bgpstream_utils_ip_counter.c:191-268 | comparing most significant halves and then least significant ones is comparing 128-bit numbers |
| IpCounter.Queue.OneStepMerge | lib/utils/bgpstream_utils_ip_counter.c:73-125 | the loop that widens and frees intervals in place does what Absorb says and keeps the list linked |
| IpCounter.Queue.MergeInSortedQueue | lib/utils/bgpstream_utils_ip_counter.c:127-268 | the scan, splice and widening in place do what Merge says |
| IpCounting.CanonicalStep | lib/utils/bgpstream_utils_ip_counter.c:127-189 | one more prefix keeps the list canonical: sorted, disjoint, every interval the range of an added prefix, every added prefix inside an interval |
| IpCounting.CanonicalIsMaximal | lib/utils/bgpstream_utils_ip_counter.c:127-189 | a prefix has an interval of its own exactly when no other added prefix contains it |
| IpCounting.CanonicalCovers | lib/utils/bgpstream_utils_ip_counter.c:127-189 | a canonical list covers exactly the addresses of the added prefixes |
| IpCounting.CanonicalUnique | lib/utils/bgpstream_utils_ip_counter.c:127-189 | there is only one canonical list for a set of prefixes |
| IpCounting.AfterAddingCanonical | lib/utils/bgpstream_utils_ip_counter.c:283-340 | after any sequence of additions the list is canonical |
| IpCounting.OrderDoesNotMatter | lib/utils/bgpstream_utils_ip_counter.c:283-340 | the list does not depend on the order or repetition of additions |
| IpCounter.Counter.Add | lib/utils/bgpstream_utils_ip_counter.c:283-340 | adding a prefix merges its range into the list and keeps the counter's invariant; IPv6 needs a mask of at least one bit, where the source's shift is defined |
| IpCounting.UnionGrows | lib/utils/bgpstream_utils_ip_counter.c:521-530 | each interval of the list adds its length to the number of addresses |
| IpCounting.CountedAddresses | lib/utils/bgpstream_utils_ip_counter.c:515-531 | the IPv4 sum of 32-bit lengths is the number of distinct addresses exactly when 0.0.0.0/0 was not added; with it the sum is 0 |
| IpCounter.Counter.GetIpCount4 | lib/utils/bgpstream_utils_ip_counter.c:515-531 | the IPv4 count is the number of distinct addresses exactly when 0.0.0.0/0 was not added |
| IpCounting.RangeAligned | lib/utils/bgpstream_utils_ip_counter.c:532-546 | a prefix's range lies inside one /64 or consists of whole ones |
| IpCounting.BlockUnionGrows | lib/utils/bgpstream_utils_ip_counter.c:532-546 | each interval adds the /64 blocks it spans, or none if it lies in the block of the one before it |
| IpCounting.CountedBlocks | lib/utils/bgpstream_utils_ip_counter.c:532-546 | the IPv6 sum of spans is the number of distinct /64 blocks touched, in 64 bits |
| IpCounter.Counter.GetIpCount6 | lib/utils/bgpstream_utils_ip_counter.c:515-549 | the IPv6 count is the number of distinct /64 blocks touched, in 64 bits |
| IpCounter.Queue.MeasureOverlap | lib/utils/bgpstream_utils_ip_counter.c:364-388 | the loop with its early stop counts the covered addresses in a range, and flags it exactly when one interval holds the whole range |
| IpCounter.Counter.IsOverlapping4 | lib/utils/bgpstream_utils_ip_counter.c:342-389 | the count is the number of counted addresses the prefix covers, and the flag says whether some added prefix contains it |
| IpCounting.ContainedIsCovered | lib/utils/bgpstream_utils_ip_counter.c:382-384 | a range lies inside one interval exactly when an added prefix contains it |
| IpOverlap.MeasureOverlap6 | lib/utils/bgpstream_utils_ip_counter.c:445-512 | the loop, with its comparison of a wrong half and its 64-bit sums, adds up what Measured says, and sets the flag exactly when an interval taken covers all the blocks of the prefix |
| IpOverlap.CountsRightExactly | lib/utils/bgpstream_utils_ip_counter.c:447-459 | the IPv6 overlap is the number of /64 blocks shared exactly when the prefix has at most 64 bits, or its block number is less than its lower half and no interval that ends in its block meets it, or is not less and, if an interval that ends in its block starts before it ends, some interval meets it |
| IpOverlap.FlagMeans | lib/utils/bgpstream_utils_ip_counter.c:474-500 | for prefixes of more than one block the flag says whether one interval holds the prefix; for the others it says no more than that the count is positive |
| IpOverlap.Miscounted | lib/utils/bgpstream_utils_ip_counter.c:447-459 | with 0:0:0:1::/128 added, 0:0:0:1::1/128 is counted as sharing a block that it does not share |
| IpOverlap.IsOverlapping6 | lib/utils/bgpstream_utils_ip_counter.c:391-513 | both statements for a prefix and a counter in place, the flag in terms of added prefixes |
| Coverage.CoverageIsCounterList | lib/utils/bgpstream_utils_patricia.c:1026-1034 | over the same prefixes the minimum coverage of the tree and the counter's list are the same ranges in the same order |
| Inputs.PushExact | lib/bgpstream_input.c:88-172 | whatever the file types, a new dump goes behind everything up to the first one it precedes, so ties are first in, first out, and behind that place nothing precedes it; it is added exactly when the queue does not hold it |
| Inputs.PushOrdered | lib/bgpstream_input.c:88-172 | a push keeps the queue in order and free of duplicates |
| Inputs.PushAllOrdered | lib/bgpstream_input.c:88-172 | any sequence of pushes gives an ordered queue that holds every dump pushed, once, and no other |
| Inputs.PushedInOrder | lib/bgpstream_input.c:128-152 | whatever is pushed, in whatever order: earlier dumps first, of one time no "ribs" behind an "updates", no two alike but for file name and span, nothing else, and every dump pushed or one like it |
| Inputs.PushPlace | lib/bgpstream_input.c:130-152 | a new RIB or updates dump goes behind exactly those that are earlier and those of its time that are RIBs or, for updates, of any type |
| Inputs.TakeExact | lib/bgpstream_input.c:196-260 | every input taken starts before the end reached so far, and the first one left starts at or after it unless the cap of 200 stopped the batch |
| Inputs.BatchExact | lib/bgpstream_input.c:174-260 | a batch has at most 200 dumps: the head, then each that starts (a RIB its span before its time) before one taken already is over, up to the first that does not |
| Inputs.BatchNonEmpty | lib/bgpstream_input.c:228-243 | a batch takes something exactly when the head has a known type and a positive span |
| InputQueue.InputMgr.PushSortedInput | lib/bgpstream_input.c:88-172 | the scan and the three kinds of splice in place do what Push says, and keep an ordered queue in order: earlier dumps first, RIBs in front of updates of their time, no dump twice; head, tail and status stay consistent, the tail being the last node |
| InputQueue.InputMgr.LastOfBatch | lib/bgpstream_input.c:196-260 | the loop that widens the interval ends on the last input the batch takes |
| InputQueue.InputMgr.GetQueueToProcess | lib/bgpstream_input.c:264-295 | the batch leaves as a chain of its own and the rest stays queued, nothing lost in between |
| InputQueue.PushByScan | lib/bgpstream_input.c:130-152 | where the scan stops determines the result of the push |
| ReaderQueue.FilterEntry | lib/bgpstream_reader.c:123-148 | the walk over the intervals accepts an entry exactly when there are none or one admits its time; which times that are is said over a whole run by StreamWindows.RunAdmits |
| ReaderQueue.ReaderNode.ReadNewData | lib/bgpstream_reader.c:150-255 | the read loop, on counters, flags and status in place, does what the value-level read says |
| ReaderQueue.ReaderNode.GetNextEntry | lib/bgpstream_reader.c:101-119 | a read gives an entry, nothing, a corrupted read or the end of the file; an unopenable dump sets the status |
| Readers.StepProgresses | lib/bgpstream_reader.c:690-756 | every step of the merge leaves less to return, so the merge of a batch ends |
| DumpRecords.ReadStops | lib/bgpstream_reader.c:180-250 | one read stops at exactly the next entry that passes, or after the last with the right one of four statuses |
| DumpRecords.AloneIsContribution | lib/bgpstream_reader.c:338-383 | a reader gives exactly what its dump contributes: its time-filtered entries in order with exact position marks, and one status record exactly when the dump cannot be opened, is corrupted, or has no entry that passes; it is never queued in the end-of-dump state |
| DumpRecords.OneEndPerDump | lib/bgpstream_reader.c:716-752 | a dump has at most one END mark, on its last record, and every status record carries it |
| DumpRecords.AllValid | lib/bgpstream_reader.c:388-407 | the records of entries are valid records |
| DumpRecords.RecordIsEntry | lib/bgpstream_reader.c:377-383 | a valid record is END exactly if it is the last entry of a cleanly ended dump, and otherwise START exactly if it is the first |
| Merging.StepMembers | lib/bgpstream_reader.c:690-756 | one step returns a record of the head, advances the head and leaves the other readers alone |
| Merging.NothingFromElsewhere | lib/bgpstream_reader.c:690-756 | a batch returns no record of a dump that none of its readers reads |
| Merging.MergeConserves | lib/bgpstream_reader.c:690-756 | merging gives each reader exactly the records it gives alone, in the same order |
| MergeOrder.InsertSorted | lib/bgpstream_reader.c:489-588 | the priority insert keeps the reader queue in time order |
| MergeOrder.StepSorted | lib/bgpstream_reader.c:690-756 | a step returns a record no later than anything still queued |
| MergeOrder.DrainOrdered | lib/bgpstream_reader.c:690-756 | a batch of readers whose dumps never go back in time returns its records in time order |
| MergeTies.DrainRibsFirst | lib/bgpstream_reader.c:489-570 | of records of one time, none of an updates dump is returned before one of a RIB dump |
| MergeTies.DrainTogether | lib/bgpstream_reader.c:737-744 | between two records of one dump and one time only records of that dump are returned |
| MergeTies.BatchTies | lib/bgpstream_reader.c:624-756 | so it is for the merge of any batch of dumps that keep to their intervals |
| ReaderQueue.ReaderMgr.InsertSorted | lib/bgpstream_reader.c:489-588 | the walk and the relinking in place do what the value-level insert says |
| ReaderQueue.ReaderMgr.PopHead | lib/bgpstream_reader.c:677-688 | the head leaves the queue |
| ReaderQueue.ReaderMgr.ExportRecord | lib/bgpstream_reader.c:338-426 | the exported record has the reader's fields, position and status, the entry is detached, and a corrupted dump resets its collector's time |
| ReaderQueue.ReaderMgr.GetNextRecord | lib/bgpstream_reader.c:690-756 | export, look-ahead and requeueing in place do what the value-level step says, and no queued reader is at the end of its dump |
| ReaderQueue.ReaderMgr.Add | lib/bgpstream_reader.c:624-675 | a batch becomes readers for the inputs the period check takes, each read once and queued |
| ReaderQueue.FilterMgr.Check | lib/bgpstream_reader.c:591-622 | the period check on the map in place does what the value-level check says |
| ReaderQueue.NextRecordNoneEnded | lib/bgpstream_reader.c:724-735 | a reader that reaches the end of its dump leaves the queue at once |
| Stream.AcceptMembers | lib/bgpstream_reader.c:643-660 | every dump that is not a RIB is taken, and everything is taken when there is no period |
| Stream.TakenMembers | lib/bgpstream_reader.c:624-660 | a run takes only what is queued, and every dump that is not a RIB under a RIB period |
| Stream.AcceptedAreSpaced | lib/bgpstream_reader.c:591-622 | the RIB dumps a batch takes from one collector lie a period apart or have the same time, counted from the last one taken before |
| Stream.OpeningConserves | lib/bgpstream_reader.c:624-675 | a batch returns all that a taken dump contributes and nothing of any other |
| Stream.RunEnds | lib/bgpstream.c:459-485 | the driver gets to the end of a queue after some number of rounds exactly when every batch on the way takes something |
| Stream.StuckFor | lib/bgpstream.c:459-485 | on a head that takes no batch any number of rounds leaves the queue as it is |
| Stream.RunConserves | lib/bgpstream.c:459-488 | over a whole run the records of a dump are exactly its contribution, in its order, if the run takes it, and none otherwise |
| StreamWindows.RunAdmits | lib/bgpstream_reader.c:123-148 | over a whole run the valid records of a dump that is taken and opens carry exactly its entries read before the first corruption whose time lies in a window, from its begin to its end, both included, an end of 0 being none; once each and in order |
| StreamWindows.RunInWindows | lib/bgpstream_reader.c:135-143 | every valid record of a run carries an entry of its dump whose time lies in a window, both bounds included |
| StreamWindows.RunReturns | lib/bgpstream_reader.c:135-143 | every entry of a dump that is taken and opens, at such a time and in front of its first corruption, is returned |
| StreamWindows.EventsInWindows | lib/bgpstream.c:446-488 | every valid record that calls come to lies in a window, whatever the data source answers |
| Stream.AnswersConserve | lib/bgpstream.c:459-488 | the same over any number of answers of the data source, for a dump that one of them names |
| StreamThinning.CleanBatch | lib/bgpstream_reader.c:409-425 | a batch of dumps that open and are not corrupted leaves the times last seen alone |
| StreamThinning.TakenAtOnce | lib/bgpstream_reader.c:591-622 | with such dumps, cutting the queue into batches does not change which dumps are taken |
| StreamThinning.RunIsThinned | lib/bgpstream_reader.c:591-622 | over a whole run of such dumps the RIBs taken from one collector are a period apart or of the same time, and each one left out follows a taken one by less than a period |
| StreamThinning.RunIsThinnedByName | lib/bgpstream_reader.c:591-622 | in names and times: of one project and collector the RIBs taken are of one time or a period apart, and one left out follows one taken under the same project.collector name by less than a period; without dots in project names that is the same project and collector |
| StreamThinning.CorruptedDoesNotCount | lib/bgpstream_reader.c:411-425 | after a batch with a dump that does not open or is corrupted, the first RIB of its project and collector is taken, however soon it follows |
| StreamOrder.BatchOrdered | lib/bgpstream.c:459-488 | the records of a batch are in time order and inside the interval its inputs span |
| StreamOrder.UncappedCutsAreClean | lib/bgpstream_input.c:196-260 | if the cap never stops a batch, no input left at a cut can have a record earlier than one of the batch |
| StreamOrder.RunOrdered | lib/bgpstream.c:459-488 | record times never go back over a whole run, across batches too, when the cuts are clean |
| StreamOrder.UncleanCutBreaksOrder | lib/bgpstream_input.c:222-243 | and only then: at any unclean cut some dumps that keep their intervals come out of order |
| StreamCapped.CrowdIsCut | lib/bgpstream_input.c:222-243 | more than 200 dumps of one time that each span more than a second make a queue that the cap cuts uncleanly, at the 200th |
| StreamCapped.CrowdGoesBack | lib/bgpstream.c:459-488 | so a run over them returns record times that go back, for some dumps that keep to their intervals |
| StreamCapped.CrowdIsQueue | lib/bgpstream_input.c:88-172 | such queues of any length exist: updates dumps of the same five minutes from different collectors are one |
| StreamOrder.AnswersOrdered | lib/bgpstream.c:459-488 | the same over any number of answers of the data source, each beginning where the ones before end |
| Bgpstream.LeftAfterRecord | lib/bgpstream.c:486-488 | taking a record from the merge takes exactly the first of what is left of the stream |
| Bgpstream.LeftAfterCut | lib/bgpstream.c:480-484 | cutting a batch and opening its readers does not change what is left |
| Bgpstream.EventsAreRun | lib/bgpstream.c:459-488 | errors of the data source only interrupt: the records of a stream with errors, and with empty answers when it blocks, are those of the run over the other answers |
| Bgpstream.LeftAfterAnswer | lib/bgpstream.c:462-478 | the next answer, after the empty ones a blocking stream skips, is the end of what is left, an error in front of the rest, or inputs whose queueing changes nothing |
| Bgpstream.BgpStream.Create | lib/bgpstream.c:153-191 | a new stream has everything left |
| Bgpstream.BgpStream.Start | lib/bgpstream.c:411-438 | starting returns zero and turns the stream on exactly when the filters are valid and the data source opens, returns the validation's code or -1 otherwise, does nothing on a stream already started, and changes nothing that is left |
| Bgpstream.BgpStream.UpdateInputQueue | lib/bgpstream_datasource.c:273-332 | a call takes the answers up to the first one that is not skipped, pushes its inputs, and is negative exactly for an error and zero exactly for no inputs; a blocking one skips empty answers |
| Bgpstream.BgpStream.StuckRound | lib/bgpstream.c:459-485 | on a head of an unknown type or without a positive span, a round of the outer loop changes nothing |
| Bgpstream.BgpStream.FillReaders | lib/bgpstream.c:459-485 | the nested loops end, with a reader queued, with nothing left, or at an error of the data source |
| Bgpstream.BgpStream.GetNextRecord | lib/bgpstream.c:446-488 | the call takes the first of what is left: it returns that record, or fails if it is an error of the data source; it returns no record only if nothing is left, and fails without taking anything when the stream is not on |
| AsPath.ParseEncoded | lib/utils/bgpstream_utils_as_path.c:445-466 | walking the packed bytes of any segments gives back the segments |
| AsPath.EncodeParsed | lib/utils/bgpstream_utils_as_path.c:445-466 | bytes that can be walked are the packed bytes of the segments found, so encoding and parsing are inverse |
| AsPath.OffsetStep | lib/utils/bgpstream_utils_as_path.c:36-45 | segments lie end to end, each as far from the next as its size |
| AsPathWire.FlattenPut | lib/utils/bgpstream_utils_as_path.c:629-760 | a well-formed AS_PATH attribute, with 2-byte or 4-byte numbers, gives exactly its flattened segments if they fit the buffer |
| AsPathWire.PopulatedIsPut | lib/utils/bgpstream_utils_as_path.c:652-668 | populating succeeds on no other bytes |
| AsPathWire.FlattenFits | lib/utils/bgpstream_utils_as_path.c:677-688 | a well-formed attribute is refused for its length exactly when its segments take 65535 bytes or more |
| AsPathWire.FlattenBroken | lib/utils/bgpstream_utils_as_path.c:652-668 | where segments end in a cut header, a type other than 1 to 4, or too few ASNs, populating fails and the path holds the segments in front |
| AsPathWire.SegmentBytes | lib/utils/bgpstream_utils_as_path.c:691-760 | the bytes of each wire type: a set (1) becomes a segment of type 2, a confederation sequence (3) of type 4, a confederation set (4) of type 3, and a sequence (2) one of type 1 for each ASN |
| AsPathWire.NetAsnsOfPut | lib/utils/bgpstream_utils_as_path.c:718-737 | reading numbers in network order inverts writing them |
| AsPathBuffer.NextSegment | lib/utils/bgpstream_utils_as_path.c:445-466 | from the start of a segment the iterator returns that segment and the start of the next, and nothing exactly at the end |
| AsPathBuffer.PathBuffer.UpdateFields | lib/utils/bgpstream_utils_as_path.c:794-809 | the recomputed segment count and origin offset are those of the segments |
| AsPathBuffer.PathBuffer.PopulateFromData | lib/utils/bgpstream_utils_as_path.c:485-511 | a path taken from packed bytes has those bytes and fields |
| AsPathBuffer.PathBuffer.WriteHops | lib/utils/bgpstream_utils_as_path.c:713-750 | a sequence is written as single hops, count and origin offset kept up to date |
| AsPathBuffer.PathBuffer.WriteGroup | lib/utils/bgpstream_utils_as_path.c:708-755 | a set is written whole behind its two-byte header |
| AsPathBuffer.PathBuffer.Populate | lib/utils/bgpstream_utils_as_path.c:629-792 | populating in place leaves exactly the flattened segments read before the end or the first error, with count and origin offset equal to those recomputed from the bytes |
| AsPathStore.StripRebuild | lib/utils/bgpstream_utils_as_path_store.c:242-284 | stripping the peer's hop and rebuilding with the same peer gives back bytes, segment count and origin offset |
| AsPathStore.StripExactly | lib/utils/bgpstream_utils_as_path_store.c:262-284 | the peer's own hop is taken off exactly when it is in front and something is left behind it |
| AsPathStore.OriginBehindHead | lib/utils/bgpstream_utils_as_path_store.c:270-275 | taking the first segment off moves the origin offset by its size |
| AsPathStore.InternOk | lib/utils/bgpstream_utils_as_path_store.c:134-164 | a request keeps every bucket to its own hash and free of duplicates |
| AsPathStore.InternGets | lib/utils/bgpstream_utils_as_path_store.c:134-164 | the id of a request leads to the path requested |
| AsPathStore.InternKeeps | lib/utils/bgpstream_utils_as_path_store.c:134-164 | a request that succeeds leaves every id valid and unchanged; one that fails takes all ids of its bucket away |
| AsPathStore.InternFails | lib/utils/bgpstream_utils_as_path_store.c:149-164 | a request fails exactly when the path is new and its bucket holds 65535 paths |
| AsPathLimits.BucketFills | lib/utils/bgpstream_utils_as_path_store.c:149-164 | however the hash mixes, requests for 65535 paths that differ in a middle hop all succeed and fill one bucket |
| AsPathLimits.FullBucketFails | lib/utils/bgpstream_utils_as_path_store.c:149-164 | the next such request fails and every id of that bucket leads nowhere |
| AsPathStore.ReadsInside | lib/utils/bgpstream_utils_as_path.c:193-205 | the two ASNs the hash reads lie inside the path exactly when its last segment has one |
| AsPathStore.HashDecided | lib/utils/bgpstream_utils_as_path.c:543-559 | with an ASN in the last segment the hash is a function of the path, whatever lies behind it in memory |
| AsPathStore.HashIsEnds | lib/utils/bgpstream_utils_as_path.c:543-559 | the hash mixes the first ASN of the first segment with the first ASN of the last one, and is 0 for the empty path |
| AsPathStore.IdsDistinguish | lib/utils/bgpstream_utils_as_path_store.c:112-117 | different core flags or bytes never share an id; the same flag and bytes have one id if the last segment has an ASN |
| AsPathStore.InternAgain | lib/utils/bgpstream_utils_as_path_store.c:286-297 | interning stored bytes again gives the same id and changes nothing, if the last segment has an ASN |
| AsPathStore.EmptyOriginTwoIds | lib/utils/bgpstream_utils_as_path.c:193-205 | the condition is exact: any path that ends in an empty group can get two ids |
| AsPathLimits.EmptySetTwoIds | lib/utils/bgpstream_utils_as_path.c:543-559 | the attribute of one empty set is accepted, and two requests for it get two ids when different bytes lie behind it, under any mixing that tells those apart, as the source's own does |
| AsPathStore.RunKeeps | lib/utils/bgpstream_utils_as_path_store.c:209-240 | over any run of requests that succeed, ids stay valid and lead to the same path |
| AsPathStore.RoundTrip | lib/utils/bgpstream_utils_as_path_store.c:354-416 | interning a path seen from a peer and, after any later requests, fetching it and rebuilding it with that peer gives the original path |
| AsPathStore.RunDistinguishes | lib/utils/bgpstream_utils_as_path_store.c:209-240 | over a run, two requests that get the same id agree in flag and bytes, and two that agree get the same id if the last segment has an ASN |
| AsPathStore.PeersShareId | lib/utils/bgpstream_utils_as_path_store.c:242-284 | a path behind its peer's own hop gets one id whoever the peer is, over any requests in between that succeed, if its last segment has an ASN |
| AsPathStore.PathStore.PathsetGetPathId | lib/utils/bgpstream_utils_as_path_store.c:134-164 | the linear search and the append do what the value-level request says, including the 16-bit count |
| AsPathStore.PathStore.GetId | lib/utils/bgpstream_utils_as_path_store.c:209-240 | so does the lookup of the bucket by hash |
| AsPathStore.PathStore.GetPathId | lib/utils/bgpstream_utils_as_path_store.c:242-284 | a null path gets the reserved id; for any other the store does one request, and the id leads to a core entry without the first hop exactly when that hop is the peer's and not all of the path, and to the whole path otherwise |
| AsPathStore.PathStore.InsertPath | lib/utils/bgpstream_utils_as_path_store.c:286-297 | packed bytes are interned with recomputed fields |
| AsPathStore.PathStore.GetStorePath | lib/utils/bgpstream_utils_as_path_store.c:354-375 | an id leads to its path, and to nothing if it is reserved, unknown or out of range |
| AsPathStore.PathGetPath | lib/utils/bgpstream_utils_as_path_store.c:377-416 | the path built for a peer is the stored one, or the stored one behind the peer's hop with recomputed fields, as long as its length fits 16 bits |
| AsPathStore.RebuiltFits | lib/utils/bgpstream_utils_as_path_store.c:397-398 | the path built is longer than the stored one by one hop exactly for a core path, so what was stripped off a path always fits again |
| AsPathStore.StorePathIter.constructor | lib/utils/bgpstream_utils_as_path_store.c:427-441 | resetting puts the peer's hop in front of a core path |
| AsPathStore.StorePathIter.GetNextSeg | lib/utils/bgpstream_utils_as_path_store.c:443-451 | the iterator returns the segments of the path shown to the peer one by one, then nothing |
| AsPathStore.ShownIsRebuilt | lib/utils/bgpstream_utils_as_path_store.c:377-451 | the segments shown are those of the path rebuilt for the same peer |
| AsPathText.PrintNumber | lib/utils/bgpstream_utils_as_path.c:133-136 | a number is printed as far as it fits, ended by a NUL, and its full length is returned |
| AsPathText.NumberDenotes | lib/utils/bgpstream_utils_as_path.c:133-136 | the digits printed are decimal, without leading zeros, and denote the number |
| AsPathText.ShowsMore | lib/utils/bgpstream_utils_as_path.c:245-254 | printing into what remains of a buffer behind a text prints the two together, cut at the same place |
| AsPathText.PrintGroup | lib/utils/bgpstream_utils_as_path.c:90-109 | a set is printed with its brackets and separators as far as it fits |
| AsPathText.PrintSeg | lib/utils/bgpstream_utils_as_path.c:119-165 | a segment is printed as far as it fits, ended by a NUL, and the full length is returned |
| AsPathText.SegTextIs | lib/utils/bgpstream_utils_as_path.c:119-165 | the text of a segment: a hop's number; a set {1,2}, a confederation set [1,2], a confederation sequence (1 2) |
| AsPathText.PrintPath | lib/utils/bgpstream_utils_as_path.c:233-262 | the buffer holds the path's text as far as it fits, ended by a NUL, nothing outside it is written, and the result is the length of the whole text |
| Corsaro.FirstBoundaryAhead | bgpcorsaro/lib/bgpcorsaro.c:638-644 | the first boundary lies ahead of the first record, at most an interval away for times from zero on, and is a multiple of the interval when aligned |
| Corsaro.CaughtUp | bgpcorsaro/lib/bgpcorsaro.c:649-673 | the catch-up loop ends, with the record before the next boundary; the end-needed flag survives exactly when no boundary was crossed |
| Corsaro.RunTiles | bgpcorsaro/lib/bgpcorsaro.c:603-680 | over any run in time order intervals are numbered from 0, each starts one second after the one before ends, every record is processed once, in order and inside its interval, and boundaries lie whole intervals from the first |
| Corsaro.EventTimes | bgpcorsaro/lib/bgpcorsaro.c:630-673 | over any run every event comes at its time: the first interval starts with the first record and ends in front of the first boundary, which is one interval later or, aligned, the first multiple ahead; from there each starts and ends whole intervals on |
| Corsaro.IntervalsLast | bgpcorsaro/lib/bgpcorsaro.c:649-673 | every interval the loop ends lasts exactly the configured number of seconds: all of them without alignment, with it all but the first |
| Corsaro.RunBoundaries | bgpcorsaro/lib/bgpcorsaro.c:638-673 | without alignment the next boundary is the first record's time plus whole intervals, one more than the number of the current one, and that number is how many whole intervals have passed |
| Corsaro.AlignedStarts | bgpcorsaro/lib/bgpcorsaro.c:641-644 | aligned, every interval but the first starts at a multiple of the interval |
| Corsaro.NumberIsReached | bgpcorsaro/lib/bgpcorsaro.c:649-673 | the number of the current interval is the number of boundaries the last record's time has reached |
| Corsaro.FinalizeCloses | bgpcorsaro/lib/bgpcorsaro.c:682-703 | finalising ends the last interval exactly when the last record did not reach a boundary that the one before it had not |
| Corsaro.LastLeftOpen | bgpcorsaro/lib/bgpcorsaro.c:313-315 | two records a minute apart with one-minute intervals: the second interval is never ended |
| Corsaro.BgpCorsaro.PerRecord | bgpcorsaro/lib/bgpcorsaro.c:603-680 | the in-place fields and the loop do what the value-level step says, about whose runs EventTimes and RunTiles speak |
| Corsaro.BgpCorsaro.FinalizeOutput | bgpcorsaro/lib/bgpcorsaro.c:682-703 | so does finalising |
| PrefixList.MStream.Get | lib/bgpdump/bgpdump_mstream.c:96-115 | a read gives the next bytes, zeros past the end, and never moves the cursor past the end |
| PrefixList.MStream.Copy | lib/bgpdump/bgpdump_mstream.c:87-94 | a partial stream holds the next bytes, as many as there are, and the cursor moves past them |
| PrefixList.SplitExact | lib/bgpdump/bgpdump_lib.c:1421-1460 | any bytes are exactly the encoding of the complete prefixes found followed by what is left: nothing, or a truncated prefix |
| PrefixList.SplitEncoded | lib/bgpdump/bgpdump_lib.c:1421-1460 | taking apart inverts the encoding, whatever truncated bytes follow |
| PrefixList.RemainderKeeps | lib/bgpdump/bgpdump_lib.c:1431-1442 | a truncated prefix keeps the octets present, zeros behind them, and a bit length that fits a byte |
| PrefixList.ReadPrefixList | lib/bgpdump/bgpdump_lib.c:1421-1460 | the loop returns exactly the complete prefixes and, if wanted, the truncated one, or fails when there are more than 2000; the stream is then used up. It writes one entry past the caller's array exactly when it fails |
| PrefixList.ReadEncoded | lib/bgpdump/bgpdump_lib.c:1421-1460 | reading an encoded list of at most 2000 prefixes gives back every length in bits and all octets, in order, zeros behind them; of a truncated prefix behind them it keeps the octets present and their number of bits |
| PrefixList.ReadingIsBytes | lib/bgpdump/bgpdump_lib.c:1421-1460 | nothing is lost for any bytes: the lengths and octets read, written again, followed by what is left, are the bytes; reading fails exactly when more than 2000 complete prefixes stand in front |

## Left out

- PatriciaTree.Family.Insert: one object stands for one address family, where the source's tree holds two heads and two counters and selects one by version; user data and its destructor are not modelled.
- PatriciaMerge.Merge: stated for one address family, which the source merges twice, once for each.
- TrieStored.CollapseOk: the stale prefix bytes that a glue node keeps after a two-child removal are not part of its value; nothing reads them.
- Prefixes.MaskedBits: the source shifts by 64 for an IPv6 mask of no bits and by a negative count for one longer than 64, both undefined in C; the model clears every bit behind the mask.
- Prefixes.ContainsIsKeyOrder: rests on the same reading of IPv6 masks.
- FilterTree.AddFilter: filters of one address family; reading their text is not modelled.
- IpCounter.Counter.Add: asks for a mask of at least one bit for IPv6, because the source's shift by 64 is undefined for the empty mask; masks are modelled by arithmetic on powers of two.
- IpCounter.Counter.IsOverlapping4: asks for a mask of at least one bit, because the source's shift by 32 is undefined for the empty mask.
- IpCounter.Counter.GetIpCount6: stated modulo 2^64, the width of the source's result.
- IpOverlap.IsOverlapping6: asks for a mask of at least one bit, because the source's shift by 64 is undefined for the empty mask.
- StreamOrder.RunOrdered: time order is one way for a given set of dumps; it is exact over all dumps that keep their announced intervals.
- StreamThinning.RunIsThinned: for dumps that open and are not corrupted; a corrupted one resets its collector's time, after which the next RIB is taken.
- Bgpstream.BgpStream.GetNextRecord: the data source is a given list of answers and errors, and opening a dump a given function of its input, so threads, retries and the network are outside.
- Bgpstream.BgpStream.UpdateInputQueue: sleeping between blocking queries is not modelled, and a data source without further answers is taken to have nothing more, where a blocking call would wait.
- Bgpstream.BgpStream.Start: what validating the filters and opening the data source come to is given.
- Inputs.TakeExact: file times plus or minus spans are unbounded integers here, 32-bit ones in the source.
- ReaderQueue.ReaderMgr.InsertSorted: goes past a queued reader of the same time whose type is another one than ribs or updates; the source's loop never ends there (lib/bgpstream_reader.c:528-562).
- ReaderQueue.FilterMgr.Check: the key of a collector is its full project and name; the source cuts it at 1024 characters.
- AsPathWire.FlattenPut: asks for fewer than 65535 bytes of segments; beyond that an assertion stops the source, which the model shows as an outcome of its own.
- AsPathBuffer.NextSegment: for bytes that are a path; on other bytes the source reads whatever is there.
- AsPathStore.RoundTrip: for paths whose two fields agree with their bytes, and requests that succeed; how the hash mixes the two numbers it reads is left open.
- AsPathBuffer.PathBuffer.PopulateFromData: for the bytes of a path, which it is meant to read back (lib/utils/bgpstream_utils_as_path.h:331-349); the source does not check them, and on other bytes its walk can read behind them and wrap its 16-bit offset.
- AsPathStore.PathStore.InsertPath: for the bytes of a path, as its header asks (lib/utils/bgpstream_utils_as_path_store.h:124-138), fewer than 65536 of them, which is all its 16-bit length can say.
- AsPathStore.PathGetPath: for a result of fewer than 65536 bytes; a core path of more than 65530 bytes, which only insert_path can store, makes the source's 16-bit length wrap and its copy overrun.
- Corsaro.RunTiles: interval numbers are unbounded; an interval of zero, for which the source divides by zero or never leaves its loop, is excluded.
- PrefixList.ReadPrefixList: lengths above 128 bits, which no address has, are read without modelling what lies behind the source's 16-byte address; what the entry written past the caller's array overwrites is not modelled.
- asn32_merge_paths: its loop never advances the source segment, so the general merge rule is not what it computes.
- Memory: allocation succeeds, and freeing is leaving the structure; hash table internals are maps.
- AsPathText.PrintPath: for paths whose bytes are segments; the filter string and the other printers of the library are not modelled.
- AsPathStore.StorePathIter.GetNextSeg: for stored paths shorter than 65535 bytes, so that an offset is never taken for the mark of the peer's hop.
- Corsaro.BgpCorsaro.PerRecord: plugins never fail, and log rotation is not modelled.
- Address text, element generation, community helpers, peer maps and data interfaces: little to prove.
- The filter string parser: an unfinished quoted value is accepted, which leaves no clean round trip.
