# Caliper's core, modelled and proved in Dafny

This project models the parts of Caliper (a performance annotation and profiling library) and of
GOTCHA (the function wrapping library it ships) that hold their data together, and proves what they
promise over whole runs.

- **Recording.** Threads keep their open regions on a *blackboard*, a fixed-size open-addressing hash
  table of 1021 slots and at most 910 entries (`Blackboard.dfy`, `BitWords.dfy`). Region stacks are
  nodes of a hash-consed *context tree* (`ContextTree.dfy`). `begin`, `end` and `set` move between such
  nodes (`Regions.dfy`). A thread keeps a copy of the process-wide entries and refreshes it only when an
  update counter, read without the lock, has changed (`SnapshotCache.dfy`).
- **Sending.** Records and tree nodes travel in a variable-length binary form (`Vlenc.dfy`,
  `SnapshotRecords.dfy`, `NodeBuffers.dfy`) and are merged into the receiver's tree
  (`MetadataMerge.dfy`), which gives the records their meaning there (`WireHop.dfy`). The strings of a
  database are interned (`StringTable.dfy`), and metadata comes from a memory pool (`MemoryPool.dfy`).
- **Aggregating.** Records are grouped by key and reduced by kernels (`AggregationKeys.dfy`,
  `AggregationKernels.dfy`, `Aggregations.dfy`, `Aggregator.dfy`), and what is flushed are the counts, sums,
  extremes, averages, variances and percentages of the raw values (`KernelMeanings.dfy`). Flushed results
  are aggregated again by other processes (`Reaggregation.dfy`, `SharedSums.dfy`) along a binomial tree of
  ranks (`Reduction.dfy`), so that rank 0 ends with the result of all of them as long as every flushed
  record fits its message (`CrossProcess.dfy`).
- **Wrapping.** GOTCHA keeps the wrappers of each function in a chain by tool priority and points GOT
  slots at its head (`WrapperChains.dfy`, `Gotcha.dfy`), looks names up in a hash table with tombstones
  (`HashTable.dfy`) and has an allocator of its own (`BlockAllocator.dfy`).

Notions that several of these share are in `Common.dfy`.

Objects that the source updates in place are classes whose methods are proved against values: a map,
a list of open regions, a stream of processed records, a partition of the mapped memory. Protocols
between threads or processes are state machines, and their results hold for every interleaving.
Integers are unbounded except where a width matters (64-bit codes, the sign extension of hash values,
node ids that lose their top bit). Arithmetic of the kernels is exact.

## What turned out not to hold

Some properties one would expect are false of the code. Each has a concrete input, or a family of
them, and the exact condition under which the property does hold.

- Deleting a blackboard entry shifts later entries back but not their visibility bits. Visibility is
  kept exactly if all entries of the shifted run are marked alike (`Blackboard.Del`,
  `HiddenDeletionExample`).
- A fifth reference in one compressed record overwrites the first, so pairwise different ids of any
  size, beside any immediates, read back exactly if there are at most four (`ReadsBackIff`,
  `PackAndParse`). Flushed records have one.
- What does not fit the 512 bytes of a compressed record is dropped in blocks of four, and the sender
  does not look at the number of dropped entries. A record arrives whole exactly if two bytes and all
  codes fit and there are fewer than 128 references and immediates (`ArrivesWholeIff`). One reference and
  sixteen values always do (`SmallFits`), and 38 numbers under attributes with ids of at most two bytes
  (`ShortIdsFit`). The report of the thirteenth of thirteen variance kernels is dropped for the values 1.0 and
  3.0 (`ThirteenthDropped`), and in general nothing arrives of the variance kernels behind the twelfth when
  they report doubles of at least one and counts below 128 under two-byte ids
  (`ThirteenthVarianceDropped`, `VariancesDropped`).
- A packed node reads back exactly if its id is below 2^63 (`NodeRoundTripIff`).
- An inclusive sum counts every record again for every level it lies below the key when flushed results
  are re-aggregated; it is reproduced exactly if these extra counts cancel out
  (`InclusiveSumPreservedIff`, `InclusiveSumExample`). A count comes back as one at entries that have
  counted nothing (`CountPreservedIff`, `CountExample`).
- Percentages are lost when values cancel out to no total; they are reproduced exactly if the total is
  positive or the key has nothing to lose (`PercentPreservedIff`, `PercentExample`).
- Scaling one attribute by several factors multiplies each of the sums by their number with every hop,
  since they share one sum attribute; a sum is reproduced exactly if it is not shared or is zero
  (`SharedSumPreservedIff`, `SharedSumExample`).
- A rank whose database has never seen a kernel's target attribute drops the results it receives
  (`UnknownTargetIff`, `UnknownTargetExample`).
- A string with a NUL inside is never found among the interned strings, and its copy can give an equal
  text a second pointer. Texts stay pairwise different exactly if the new string has no NUL or its text
  is new (`MakeStringVariant`, `NulExample`).
- A new chunk of the memory pool is no larger than the request, without the bytes lost for alignment. A
  range in a new chunk lies inside it exactly if these fit, so always at aligned addresses
  (`Allocate`, `UnalignedChunkExample`).

## Model

| member | source | states |
|---|---|---|
| BitWords.FirstHighBit | src/caliper/Blackboard.cpp:26-33 | finds the lowest set bit of a word |
| Blackboards.Pigeonhole | src/caliper/Blackboard.h:55-71 | distinct slots below a bound are no more than the bound |
| Blackboards.FreeSlotExists | src/caliper/Blackboard.h:64-71 | a table within its capacity always has a free slot, so every probe loop ends |
| Blackboards.StopsAtKey | src/caliper/Blackboard.h:55-62 | probing from the home slot stops at the key's entry if it has one and at a free slot otherwise |
| Blackboards.MustMoveMeaning | src/caliper/Blackboard.cpp:86-98 | the shift condition with its wraparound cases says that the hole lies between the entry's home and the entry, cyclically |
| Blackboards.ShiftStart | src/caliper/Blackboard.cpp:86-98 | emptying a slot leaves all other keys reachable but for that one hole |
| Blackboards.ShiftMove | src/caliper/Blackboard.cpp:86-98 | moving an entry into the hole keeps all keys reachable but for the new hole |
| Blackboards.ShiftSkip | src/caliper/Blackboard.cpp:86-98 | an entry that need not move stays reachable |
| Blackboards.ShiftDone | src/caliper/Blackboard.cpp:86-98 | at the end of the run every remaining key is reachable from its home slot |
| Blackboards.SnapshotListsAll | src/caliper/Blackboard.cpp:131-151 | with all entries visible, the listed slots are exactly the occupied ones, each once and in slot order, with the stored values |
| Blackboards.VisibilityAfterDelete | src/caliper/Blackboard.cpp:75-109 | deletion keeps every remaining entry's visibility if and only if the entries of the shifted run are marked alike |
| Blackboards.HiddenDeletionExample | src/caliper/Blackboard.cpp:75-109 | after adding key 1 hidden and key 1022, with the same home slot, visible, and deleting key 1, the visible entry is still stored but no snapshot lists it |
| Blackboards.SnapshotBuilder.Append | include/caliper/SnapshotRecord.h:96-101 | appends up to the capacity and counts what is skipped |
| Blackboards.Blackboard.FindExistingEntry | src/caliper/Blackboard.h:55-62 | the key's slot, or a free slot if the key is absent |
| Blackboards.Blackboard.FindFreeSlot | src/caliper/Blackboard.h:64-71 | the first free slot from the key's home |
| Blackboards.Blackboard.Get | src/caliper/Blackboard.h:87-98 | the value the map has for the key, or no entry |
| Blackboards.Blackboard.Add | src/caliper/Blackboard.cpp:37-57 | adds a new key unless the table is full, and then counts a skipped entry; the entry goes into the first free slot from its home, and the slot is listed exactly if it is to be in snapshots |
| Blackboards.Blackboard.Set | src/caliper/Blackboard.cpp:59-73 | a map update bounded at 910 entries; the update count grows; the visibility of a stored key does not change |
| Blackboards.Blackboard.ShiftBack | src/caliper/Blackboard.cpp:86-98 | backward-shift deletion removes one key and no other |
| Blackboards.Blackboard.Del | src/caliper/Blackboard.cpp:75-109 | removes the key from the map; visibility is kept exactly under the stated condition |
| Blackboards.Blackboard.Exchange | src/caliper/Blackboard.cpp:111-129 | sets the value and returns the one there was |
| Blackboards.Blackboard.TakeSnapshot | src/caliper/Blackboard.cpp:131-151 | appends the visible values in slot order up to the builder's capacity; appended plus skipped is all of them |
| Blackboards.Run | src/caliper/Blackboard.cpp:37-129 | every sequence of get, set, del and exchange answers and ends like a map bounded at 910 entries |
| Blackboards.LastWriteWins | src/caliper/Blackboard.cpp:37-129 | in such a map a value set is there until its key is set or deleted again, unless 910 other keys were there; get and exchange return what the key had before |
| ContextTrees.RunOps | src/caliper/MetadataTree.cpp:315-365 | after every sequence of get-child, remove and replace calls on earlier results, each result has the path computed from the calls alone, and two results are the same node if and only if these paths are equal |
| ContextTrees.WithoutJoin | src/caliper/MetadataTree.cpp:299-313 | a path without an attribute loses the labels of that attribute, one by one, and nothing else |
| ContextTrees.NewPathIsNew | src/caliper/MetadataTree.cpp:352-365 | a child not found among the siblings has a path no node has |
| ContextTrees.LinkPaths | src/caliper/MetadataTree.cpp:207-232 | linking a new child gives it its parent's path and its own label and keeps all other paths |
| ContextTrees.LinkSiblings | src/caliper/MetadataTree.cpp:207-232 | the sibling lists stay exactly the children of each node |
| ContextTrees.AllocateNext | src/caliper/MetadataTree.cpp:112-141 | the next id of the current block is new |
| ContextTrees.MetadataTree.constructor | src/caliper/MetadataTree.cpp:25-75 | the bootstrap nodes make a well-formed tree |
| ContextTrees.MetadataTree.AddNode | src/caliper/MetadataTree.cpp:207-232 | adds one node below its parent and changes no other path |
| ContextTrees.MetadataTree.FindChild | src/caliper/MetadataTree.cpp:352-365 | finds the child with a label if and only if there is one |
| ContextTrees.MetadataTree.GetChild | src/caliper/MetadataTree.cpp:352-365 | the one node whose path is the parent's with the label added |
| ContextTrees.MetadataTree.GetOrCopyNode | src/caliper/MetadataTree.cpp:269-297 | the one node with a given node's label below a given parent |
| ContextTrees.MetadataTree.CopyPathWithoutAttribute | src/caliper/MetadataTree.cpp:299-313 | the node for the upper path followed by the lower labels without the attribute |
| ContextTrees.MetadataTree.FindInPath | src/caliper/MetadataTree.cpp:315-327 | the innermost node of the path with the attribute |
| ContextTrees.MetadataTree.RemoveFirstInPath | src/caliper/MetadataTree.cpp:315-327 | the node for the path without the innermost occurrence of the attribute; the same node if there is none |
| ContextTrees.MetadataTree.ReplaceFirstInPath | src/caliper/MetadataTree.cpp:329-336 | the node for that path with the new label added |
| Regions.ErrorIsFinal | src/caliper/Caliper.cpp:975-1112 | after a stack error no call changes anything |
| Regions.RejectedEndFreezes | src/caliper/Caliper.cpp:1007-1045 | a rejected end changes nothing but the error flag, and nothing changes after it |
| Regions.BeginThenEnd | src/caliper/Caliper.cpp:975-1045 | an end right after the begin of a reference attribute restores the state |
| Regions.NestingRestores | src/caliper/Caliper.cpp:975-1045 | every well-nested sequence of begins and ends restores the state |
| Regions.SameStacksSameBoard | src/caliper/Caliper.cpp:563-588 | equal open-region lists have identical blackboard entries, nodes included, also across tree growth |
| Regions.SetMeaning | src/caliper/Caliper.cpp:591-600 | setting an attribute takes its innermost label out, wherever it is, and puts the new one on top; an open attribute does not get open more often, other labels keep their order |
| Regions.SetTwice | src/caliper/Caliper.cpp:591-600 | of two settings of one attribute only the last one shows |
| Regions.EndMeaning | src/caliper/Caliper.cpp:1007-1045 | an end is an error exactly if the attribute is not open, or is open but not innermost where overlap is not allowed; otherwise its innermost label goes |
| Regions.EndWithValueMeaning | src/caliper/Caliper.cpp:1047-1086 | an end with a value is an error unless it is the innermost value, and otherwise ends as without one |
| Regions.ValueMeaning | src/caliper/Caliper.cpp:563-600 | for attributes stored by value a set or begin overwrites, and an end takes the value away if it is there |
| Regions.ThreadData.EntryGet | src/common/Entry.cpp:44-60 | the innermost value of the attribute in an entry |
| Regions.ThreadData.Begin | src/caliper/Caliper.cpp:975-1005 | pushes the value on the attribute's list, or drops it when the blackboard is full |
| Regions.ThreadData.Set | src/caliper/Caliper.cpp:1088-1112 | removes the innermost occurrence and pushes the new value, as `SetMeaning` says of the lists without their definition |
| Regions.ThreadData.LoadCurrentEntry | src/caliper/Caliper.cpp:660-678 | the current entry, with the slot it is in and whether it is the innermost one |
| Regions.ThreadData.HandleEnd | src/caliper/Caliper.cpp:575-588 | removes the innermost occurrence; the slot is absent exactly if the list is empty |
| Regions.ThreadData.End | src/caliper/Caliper.cpp:1007-1045 | an accepted end removes the innermost occurrence, a rejected one sets the error |
| Regions.ThreadData.EndWithValueCheck | src/caliper/Caliper.cpp:1047-1086 | also rejects an end whose value is not the current one |
| Regions.Run | src/caliper/Caliper.cpp:975-1112 | after every sequence of calls the slots denote exactly the open-region lists |
| Regions.RunNested | src/caliper/Caliper.cpp:975-1112 | a well-nested sequence leaves the blackboard as it was, the nodes being the identical ones |
| SnapshotCaches.NextKeepsLock | src/caliper/Blackboard.cpp:59-129 | at most one thread is inside the locked parts |
| SnapshotCaches.NextKeepsVersions | src/caliper/Blackboard.cpp:59-129 | the blackboard and its update count always are some version's |
| SnapshotCaches.CopyIsCurrent | src/caliper/Blackboard.cpp:131-151 | a copy taken under the lock is the current version's |
| SnapshotCaches.NextKeepsCaches | src/caliper/Caliper.cpp:285-299 | every thread's copy stays no older than the count it was checked against |
| SnapshotCaches.InvHolds | src/caliper/Caliper.cpp:285-299 | these hold in every state of every interleaving |
| SnapshotCaches.RecordMeaning | src/caliper/Blackboard.cpp:131-151 | a snapshot is the first 120 entries listed, in their order, as the builder collects them |
| SnapshotCaches.Pull | src/caliper/Blackboard.cpp:131-151 | taking a snapshot of a blackboard gives that record of its visible entries |
| SnapshotCaches.CacheIsFresh | src/caliper/Caliper.cpp:285-299 | after a pull the copy is, entry by entry, the start of what a version of the blackboard lists, and that version is no older than the count read at the start of the pull, though the count is read outside the lock |
| Vlenc.RoundTrip | src/common/util/vlenc.h:81-122 | decoding an encoded number gives the number and the bytes behind it |
| Vlenc.RoundTripU64 | src/common/util/vlenc.h:81-122 | for every 64-bit number, in at most ten bytes |
| Vlenc.EncodeFormat | src/common/util/vlenc.h:81-96 | the bytes are the groups of seven bits, lowest first, with the top bit set in all but the last, and no more than are needed |
| Vlenc.VlencU64 | src/common/util/vlenc.h:81-96 | writes exactly the encoding and no byte beyond |
| Vlenc.VldecU64 | src/common/util/vlenc.h:107-122 | reads the number that is encoded there, by shifting and or-ing groups of seven bits |
| SnapshotRecords.VariantRoundTrip | src/common/cali_variant.c:556-592 | a packed variant unpacks to itself |
| SnapshotRecords.RecordRoundTrip | src/common/CompressedSnapshotRecord.cpp:47-118 | the record layout reads back as its node ids and then its immediates |
| SnapshotRecords.StreamRoundTrip | src/common/SnapshotBuffer.cpp:48-78 | a concatenation of records reads back record by record |
| SnapshotRecords.SaveMemmove | src/common/CompressedSnapshotRecord.cpp:25-40 | moving in blocks from the end equals one overlapping move |
| SnapshotRecords.CompressedSnapshotRecord.AppendNodeBlock | src/common/CompressedSnapshotRecord.cpp:180-217 | inserts a block of ids before the immediates, or skips it whole exactly when it does not fit |
| SnapshotRecords.CompressedSnapshotRecord.AppendNodes | src/common/CompressedSnapshotRecord.cpp:180-217 | encoded plus skipped is offered, nothing is skipped exactly if everything fits, and the needed length is two plus all encoded lengths |
| SnapshotRecords.CompressedSnapshotRecord.AppendImmBlock | src/common/CompressedSnapshotRecord.cpp:236-246 | appends a block of immediates, or skips it whole exactly when the bytes or the count do not fit |
| SnapshotRecords.CompressedSnapshotRecord.AppendImmediates | src/common/CompressedSnapshotRecord.cpp:220-259 | the same for immediates, appended at the end |
| SnapshotRecords.CompressedSnapshotRecord.AppendEntries | src/common/CompressedSnapshotRecord.cpp:262-299 | references and immediates in any interleaving, in their own order: exactly what packing takes in, and nothing is skipped exactly if everything fits |
| SnapshotRecords.PackedWholeIff | src/common/CompressedSnapshotRecord.cpp:262-299 | packing in blocks takes everything in if and only if everything together fits |
| SnapshotRecords.OpenView | src/common/CompressedSnapshotRecord.cpp:47-68 | finds the parts of a record and its end |
| SnapshotRecords.UnpackNodes | src/common/CompressedSnapshotRecord.cpp:97-105 | the node ids of the record |
| SnapshotRecords.UnpackImmediates | src/common/CompressedSnapshotRecord.cpp:108-118 | the immediates of the record |
| SnapshotRecords.SnapshotBuffer.Append | src/common/SnapshotBuffer.cpp:48-55 | appends the record's bytes and keeps those before |
| SnapshotRecords.SnapshotBuffer.ReadAll | src/common/SnapshotBuffer.cpp:71-78 | reads all records back in order |
| SnapshotRecords.ArrivesWholeIff | src/common/CompressedSnapshotRecord.cpp:170-299 | a list of entries arrives whole if and only if two bytes and all codes are at most 512 bytes and there are fewer than 128 references and immediates |
| SnapshotRecords.SendAndReceive | src/common/SnapshotBuffer.cpp:48-78 | lists with at most four references each arrive as what packing takes in of them, and nothing is dropped if and only if all of them fit |
| SnapshotRecords.ArrivesShorter | src/common/CompressedSnapshotRecord.cpp:220-299 | a list that does not fit arrives with fewer entries, and never with more |
| SnapshotRecords.BoundedFits | src/common/CompressedSnapshotRecord.cpp:220-259 | a list with at most one reference fits if so many values of the greatest length do |
| SnapshotRecords.SmallFits | src/common/CompressedSnapshotRecord.cpp:220-259 | one reference and up to sixteen immediates always fit |
| SnapshotRecords.ShortImm | src/common/cali_variant.c:556-565 | a number under an attribute with an id of at most two bytes takes at most thirteen bytes |
| SnapshotRecords.TwelveBytes | src/common/cali_variant.c:556-565 | a floating-point value of at least one under an attribute with a two-byte id takes twelve bytes |
| SnapshotRecords.FourBytes | src/common/cali_variant.c:556-565 | a count below 128 under such an attribute takes four bytes |
| SnapshotRecords.VarianceBlock | src/reader/Aggregator.cpp:1338-1353 | the four values of such a variance report, three doubles and a count, take forty bytes |
| SnapshotRecords.ThirteenthDropped | src/common/CompressedSnapshotRecord.cpp:236-246 | of the reports of thirteen variance kernels after the values 1.0 and 3.0, exactly the first twelve arrive |
| SnapshotRecords.BlocksArrive | src/common/CompressedSnapshotRecord.cpp:236-246 | of a reference and immediates in full blocks of equal length exactly the blocks for which there is room arrive, and the reference only if it fits behind them |
| SnapshotRecords.ReadsBackIff | src/common/CompressedSnapshotRecord.cpp:181-217 | pairwise different ids of any size, beside any immediates, read back if and only if they were appended in at most one block |
| SnapshotRecords.PackAndParse | src/common/CompressedSnapshotRecord.cpp:47-299 | packing and parsing a list that fits, with pairwise different ids, gives its references if and only if there are at most four |
| SnapshotRecords.ReferencesReadBackIff | src/common/CompressedSnapshotRecord.cpp:181-217 | one-byte ids without immediates read back if and only if there are at most four; with more, an id is lost even up to order |
| NodeBuffers.PackedReads | src/common/NodeBuffer.cpp:36-82 | what unpacking a packed node gives, for every node |
| NodeBuffers.NodeRoundTripIff | src/common/NodeBuffer.cpp:36-82 | a packed node unpacks to itself if and only if its id is below 2^63 |
| NodeBuffers.NodeBuffer.Append | src/common/NodeBuffer.cpp:116-123 | appends the packed node and keeps those before |
| NodeBuffers.NodeBuffer.ReadAll | src/common/NodeBuffer.cpp:147-154 | reads all nodes back in order |
| MetadataMerge.MeaningInjective | src/reader/CaliperMetadataDB.cpp:178-235 | different nodes of a database never mean the same, so no sibling occurs twice |
| MetadataMerge.MeaningStable | src/reader/CaliperMetadataDB.cpp:178-235 | adding nodes changes no node's meaning |
| MetadataMerge.MergeFound | src/reader/CaliperMetadataDB.cpp:178-235 | a node that is already there is the one the sender means |
| MetadataMerge.MergeNew | src/reader/CaliperMetadataDB.cpp:178-235 | a node that is added means what the sender's node means |
| MetadataMerge.AppendPath | src/caliper/aggregate_over_mpi.cpp:23-43 | emits every node of the path once, with attribute and parent before the node |
| MetadataMerge.MetadataDB.MergeNodeInfo | src/reader/CaliperMetadataDB.cpp:178-235 | the id of the receiver's node with the sender's meaning; nodes already there are unchanged |
| MetadataMerge.MetadataDB.MergeNode | src/reader/CaliperMetadataDB.cpp:239-249 | also records the id in the id map, when it differs |
| MetadataMerge.Transfer | src/caliper/aggregate_over_mpi.cpp:45-110 | after sending and merging, every node and attribute of the records has the same meaning in the receiver through the id map |
| WireHops.MergeSnapshot | src/reader/CaliperMetadataDB.cpp:251-264 | every node id and attribute id of the record goes through the id map |
| WireHops.TranslateKeeps | src/reader/CaliperMetadataDB.cpp:251-264 | a record whose nodes and attributes agree under the id map is read by the receiver as the sender reads it |
| WireHops.Hop | src/caliper/aggregate_over_mpi.cpp:45-163 | one hop: nodes and records are packed, sent, merged and translated; what arrives of every record means the same to the receiver, and nothing is dropped if and only if every record fits |
| StringTables.FirstLessIff | src/reader/CaliperMetadataDB.cpp:139-142 | comparing only as many bytes as the new string has orders it among all strings like comparing them whole |
| StringTables.FoundIff | src/reader/CaliperMetadataDB.cpp:144-145 | where the search ends there is the string if and only if it is in the table |
| StringTables.InsertOk | src/reader/CaliperMetadataDB.cpp:147-151 | inserting there keeps the list sorted and complete |
| StringTables.TrimmedMeaning | src/reader/CaliperMetadataDB.cpp:132-137 | of a string only one NUL at its end is taken off |
| StringTables.StringTable.LowerBound | src/reader/CaliperMetadataDB.cpp:139-142 | binary search splits the list into the strings that are less and those that are not |
| StringTables.StringTable.MakeStringVariant | src/reader/CaliperMetadataDB.cpp:132-154 | gives a pointer to the text and adds it only if it is not there; texts stay pairwise different if and only if the string has no NUL or its text is new |
| StringTables.Intern | src/reader/CaliperMetadataDB.cpp:132-154 | strings without NUL share a pointer if and only if they are equal, over every sequence of calls |
| StringTables.NulExample | src/reader/CaliperMetadataDB.cpp:132-154 | after a string with a NUL inside the same string gets another pointer |
| MemoryPools.GivenApart | src/caliper/MemoryPool.cpp:59-79 | no two ranges handed out overlap, in whichever chunks they lie |
| MemoryPools.MemoryPool.Expand | src/caliper/MemoryPool.cpp:47-57 | adds a chunk of the usual size or as large as asked for, and counts it as reserved |
| MemoryPools.MemoryPool.Advance | src/caliper/MemoryPool.cpp:69-78 | hands out the next aligned address of the last chunk; the range is inside and apart from all others if and only if it ends in the chunk |
| MemoryPools.MemoryPool.Allocate | src/caliper/MemoryPool.cpp:59-79 | an aligned range inside its chunk, apart from all others, with the totals equal to the sums over the chunks; nothing exactly if there is no room and no leave to expand; in a new chunk the range is inside if and only if the bytes lost for alignment fit |
| MemoryPools.MemoryPool.Merge | src/caliper/MemoryPool.cpp:81-93 | takes over the other pool's chunks with everything handed out there, and its totals |
| MemoryPools.UnalignedChunkExample | src/caliper/MemoryPool.cpp:47-79 | a range of 70000 bytes at alignment 64 in a new chunk at a 16-aligned address ends 16 bytes behind the chunk |
| MemoryPools.Run | src/caliper/MemoryPool.cpp:47-79 | over every sequence of requests whose alignment bytes would fit: all ranges are aligned, no two overlap, and the totals are the sums over the chunks |
| AggregationKeys.SortMeaning | src/reader/Aggregator.cpp:1626-1636 | the sort orders by attribute and keeps the values of each attribute in their order |
| AggregationKeys.SortedUnique | src/reader/Aggregator.cpp:1626-1636 | an ordered list is determined by the values of each attribute |
| AggregationKeys.SameEntryIff | src/reader/Aggregator.cpp:1604-1640 | two records belong to the same entry if and only if they have the same nested labels and agree, attribute by attribute, on the other grouped labels and the key values |
| AggregationKeys.KeyOfFlushed | src/reader/Aggregator.cpp:1604-1683 | a flushed record has the key of its entry, whatever the numbering of the reading database |
| AggregationKeys.KeyOfRenumbered | src/reader/Aggregator.cpp:1604-1640 | renumbering a key gives the key another database computes for the same record |
| AggregationKeys.RekeyInjective | src/reader/Aggregator.cpp:1604-1640 | keys of one database are equal if and only if they are equal in another numbering |
| AggregationKeys.KeyEntriesInjective | src/reader/Aggregator.cpp:33-53 | two keys have the same stored entries if and only if they are the same key |
| AggregationKeys.KeyContents | src/reader/Aggregator.cpp:1604-1640 | exactly which labels and values of a record are in its key, by what is grouped by |
| AggregationKernels.AggregateRecord | src/reader/Aggregator.cpp:322-348 | the loop over a record computes the kernel's new state and what is added to the total; `KernelMeanings.StateMeaning` says what such a state is |
| AggregationKernels.ParentAggregateRecord | src/reader/Aggregator.cpp:1107-1122 | the same for entries above, where a percentage adds to its inclusive sum only |
| AggregationKernels.AggregateAdds | src/reader/Aggregator.cpp:541-832 | a record adds the same visible amount to every state of a kernel |
| AggregationKernels.ReportRereads | src/reader/Aggregator.cpp:799-832 | reading a kernel's own report adds exactly the reported state, but for zero counts and percentages |
| AggregationKernels.ReportFromObservation | src/reader/Aggregator.cpp:1315-1354 | what a kernel reports depends on the visible part of its state only |
| Aggregations.AtJoin | src/reader/Aggregator.cpp:1604-1663 | what is seen at a key is the sum of what the two parts of a stream add there |
| Aggregations.KeyListMeaning | src/reader/Aggregator.cpp:1562-1602 | there is exactly one entry for every key some record touches |
| Aggregations.TableClosed | src/reader/Aggregator.cpp:1645-1662 | with an inclusive kernel the entries above an entry exist too |
| Aggregations.EnclosingRegions | src/reader/Aggregator.cpp:1649-1661 | the entries above that of a region path are exactly those of its enclosing regions with the same values |
| Aggregations.FlushedKey | src/reader/Aggregator.cpp:1669-1683 | a flushed record is aggregated into the entry it came from |
| Aggregations.FlushedItems | src/reader/Aggregator.cpp:1669-1683 | of a flushed record a kernel reads exactly its own report |
| Aggregations.RawSettled | src/reader/Aggregator.cpp:799-832 | records without reported attributes can be re-aggregated |
| Aggregations.FlushAt | src/reader/Aggregator.cpp:1604-1683 | what re-aggregating a flush shows at a key, for every kernel: the sum over the entries at and below it |
| Reaggregation.ExclusivePreserved | src/reader/Aggregator.cpp:322-348 | exclusive sum, scale, min, max, average and variance are reproduced |
| Reaggregation.ExtremePreserved | src/reader/Aggregator.cpp:541-586 | inclusive minimum and maximum are reproduced |
| Reaggregation.CountPreservedIff | src/reader/Aggregator.cpp:137-155 | a count is reproduced if and only if the key has no entry that has counted nothing |
| Reaggregation.CountPreserved | src/reader/Aggregator.cpp:137-155 | without inclusive kernels counts are reproduced |
| Reaggregation.RawCounts | src/reader/Aggregator.cpp:137-155 | a record without a count counts as one |
| Reaggregation.FlushOk | src/reader/Aggregator.cpp:1669-1683 | a flush can be aggregated again: sums come with counts, every record counts, and non-negative values stay so |
| Reaggregation.PercentMeaning | src/reader/Aggregator.cpp:1085-1122 | an inclusive sum is the sum over exactly the records whose nested path extends the key's with the same other parts, and the total is the sum over all records |
| Reaggregation.SumsMakeTotal | src/reader/Aggregator.cpp:1085-1137 | the exclusive sums of the entries add up to the total, and those at and below a key to its inclusive sum |
| Reaggregation.PercentPreservedIff | src/reader/Aggregator.cpp:1085-1137 | a percentage is reproduced if and only if the total is positive or the key has no sums |
| Reaggregation.TotalPreserved | src/reader/Aggregator.cpp:1085-1137 | the total is reproduced for non-negative values |
| Reaggregation.InclusiveSumMeaning | src/reader/Aggregator.cpp:1645-1662 | an inclusive sum is the sum over exactly the records at or below the key |
| Reaggregation.InclusiveSumPreservedIff | src/reader/Aggregator.cpp:1604-1683 | a re-aggregated inclusive sum counts each record once more per level; it is reproduced if and only if these extra counts cancel out |
| Reaggregation.KeysPreserved | src/reader/Aggregator.cpp:1604-1683 | re-aggregating a flush makes the same entries |
| Reaggregation.FlushSameResults | src/reader/Aggregator.cpp:1604-1683 | aggregating a flush gives the entries, totals and visible states of what was aggregated, for every composable kernel: counts if no kernel is inclusive, and all others but inclusive sums |
| Reaggregation.SameReports | src/reader/Aggregator.cpp:1669-1683 | streams with the same results report the same values for every key |
| Reaggregation.InclusiveSumExample | src/reader/Aggregator.cpp:1645-1662 | a record two levels deep is counted twice |
| Reaggregation.PercentExample | src/reader/Aggregator.cpp:1124-1137 | two values that cancel out are lost |
| Reaggregation.CountExample | src/reader/Aggregator.cpp:137-155 | an entry without a record of its own comes back with a count of one |
| Aggregators.ChainsGrow | src/reader/Aggregator.cpp:1588-1601 | linking a new entry in front of its chain keeps all chains complete |
| Aggregators.CollectKey | src/reader/Aggregator.cpp:1604-1628 | the labels and values of a record that belong to its key |
| Aggregators.MakeKey | src/reader/Aggregator.cpp:1604-1640 | the record's key in this database's numbering |
| Aggregators.Aggregator.constructor | src/reader/Aggregator.cpp:1685-1702 | an empty aggregator |
| Aggregators.Aggregator.FindEntry | src/reader/Aggregator.cpp:1570-1580 | finds the entry of a key by its chain if and only if there is one |
| Aggregators.Aggregator.GetEntry | src/reader/Aggregator.cpp:1562-1602 | finds the entry or makes one with fresh kernels |
| Aggregators.Aggregator.AggregateUp | src/reader/Aggregator.cpp:1649-1661 | an inclusive kernel takes the record at every entry above |
| Aggregators.Aggregator.Process | src/reader/Aggregator.cpp:1604-1663 | after every record, each entry holds for each kernel exactly the state the whole stream gives its key |
| Aggregators.Aggregator.Flush | src/reader/Aggregator.cpp:1669-1683 | one record for every entry with its key and the kernels' reports; `KernelMeanings.Answer` says that these are the right values |
| KernelMeanings.StateMeaning | src/reader/Aggregator.cpp:541-832 | for every stream of raw records and every key the state is given by the target's values at the key, and below it for inclusive kernels: their sum, sum of squares, number, minimum or maximum, where a sum takes the first value of a record; a count is the number of records |
| KernelMeanings.TotalMeaning | src/reader/Aggregator.cpp:1085-1105 | the total of a percentage is the sum of all values |
| KernelMeanings.VarianceMeaning | src/reader/Aggregator.cpp:1338-1353 | the number of values times the variance is the sum of the square deviations from the mean |
| KernelMeanings.AnswersFor | src/reader/Aggregator.cpp:1669-1683 | flushing one stream gives the right values for another one if the kernel would report the same for both |
| KernelMeanings.FlushAnswers | src/reader/Aggregator.cpp:1604-1683 | every flushed record has, for each kernel with something to report, the right count, sum, scaled sum, minimum, maximum, average, variance or percentage of the raw records at its key, and no wrong one |
| KernelMeanings.Answer | src/reader/Aggregator.cpp:1604-1683 | an aggregator fed raw records flushes one such record for every key they touch |
| Reduction.SendsInOne | src/caliper/aggregate_over_mpi.cpp:180-188 | a rank sends in at most one step and receives in none from that step on |
| Reduction.SendsSomewhere | src/caliper/aggregate_over_mpi.cpp:180-188 | every rank but 0 sends in some step |
| Reduction.ReceiverMeetsSender | src/caliper/aggregate_over_mpi.cpp:182-187 | the rank received from sends in the same step |
| Reduction.SenderMeetsReceiver | src/caliper/aggregate_over_mpi.cpp:182-187 | the rank sent to receives in the same step |
| Reduction.NextInv | src/caliper/aggregate_over_mpi.cpp:180-188 | every step of any rank keeps the invariant: what each rank holds, how often it has sent, and that the two ends of a message stay in step |
| Reduction.SomeRankMoves | src/caliper/aggregate_over_mpi.cpp:180-188 | no reachable state is stuck before all ranks have finished |
| Reduction.RunInv | src/caliper/aggregate_over_mpi.cpp:180-188 | the invariant holds along every run, and every run is finite with an explicit bound |
| Reduction.AfterStep | src/caliper/aggregate_over_mpi.cpp:180-188 | after step k a rank divisible by 2^(k+1) holds exactly the ranks from itself up to 2^(k+1) further, each once |
| Reduction.FinalState | src/caliper/aggregate_over_mpi.cpp:180-188 | at the end rank 0 holds every rank once, and every other rank has sent exactly one message |
| Reduction.ReductionCorrect | src/caliper/aggregate_over_mpi.cpp:172-189 | for every interleaving, rank 0's data stands for all ranks, for any relation that merging respects |
| Reduction.ReductionAlong | src/caliper/aggregate_over_mpi.cpp:172-189 | the same for any relation that the merges of this run keep, whatever the merge does elsewhere |
| SharedSums.SharedSumPreservedIff | src/reader/Aggregator.cpp:380-450 | aggregating a flush multiplies an exclusive scaled sum by the number of kernels that share its sum attribute; it is reproduced if and only if that is one or the sum is zero |
| SharedSums.TwinsState | src/reader/Aggregator.cpp:433-447 | scaled sums of one attribute have the same state whatever their factors |
| SharedSums.SharedSumExample | src/reader/Aggregator.cpp:380-450 | scaling an attribute by two factors doubles both sums |
| CrossProcess.ArrivesIntactIff | src/caliper/aggregate_over_mpi.cpp:62-148 | what the receiver reads of a record through its own database is the sender's record if and only if it fits |
| CrossProcess.HoppedWhole | src/caliper/aggregate_over_mpi.cpp:112-163 | if every record of the message fits, the receiver processes exactly the sender's flushed records, whatever the ids in the two databases |
| CrossProcess.HoppedStandsFor | src/caliper/aggregate_over_mpi.cpp:112-163 | receiving a rank's flush adds the records that rank stands for, if every record fits |
| CrossProcess.AggregateOverRanks | src/caliper/aggregate_over_mpi.cpp:172-189 | for every number of ranks, distribution of records, interleaving and databases: if every flushed record fitted its message, rank 0 ends with the entries, totals and visible kernel states, counts included, of one aggregator fed all records |
| CrossProcess.RankZeroAnswers | src/caliper/aggregate_over_mpi.cpp:172-189 | so what rank 0 flushes in the end has the right counts, sums, extremes, averages, variances and percentages of the raw records of all ranks |
| CrossProcess.SmallFlushFits | src/caliper/aggregate_over_mpi.cpp:52-63 | if the key values and four values per kernel fit at their greatest length, every flushed record fits, and the keys flushed later have no more values |
| CrossProcess.ShortIdsFit | src/caliper/aggregate_over_mpi.cpp:52-63 | with ids of at most two bytes, 38 numbers for the key and the kernels together always fit |
| CrossProcess.SmallRunsFit | src/caliper/aggregate_over_mpi.cpp:172-189 | under such a bound no run over any number of ranks drops anything |
| CrossProcess.VariancesDropped | src/common/CompressedSnapshotRecord.cpp:236-246 | with variance kernels whose reports take blocks of equal length the receiver gets nothing of those for which there is no room, although the sender has counted |
| CrossProcess.ThirteenthVarianceDropped | src/common/CompressedSnapshotRecord.cpp:236-246 | so nothing of the kernels behind the twelfth, for doubles of at least one and counts below 128 under two-byte ids |
| CrossProcess.Combine | src/caliper/aggregate_over_mpi.cpp:45-163 | the aggregators and databases themselves: flushing, packing, sending, merging nodes, translating, reading and processing is such a hop; nothing is dropped if and only if every record fits, and then the results are those of both streams |
| CrossProcess.UnknownTargetIff | src/reader/Aggregator.cpp:322-340 | received results are kept if and only if the target is known, the kernel is a count or a scaled sum, or there is nothing to keep |
| CrossProcess.UnknownTargetExample | src/reader/Aggregator.cpp:322-340 | a sum that a rank which never saw the target drops |
| WrapperChains.PlaceInserted | ext/gotcha/src/gotcha.c:121-207 | placing a binding at the head or behind the last one of at least its priority keeps every chain ordered, linked and complete |
| WrapperChains.PlaceFirst | ext/gotcha/src/gotcha.c:165-172 | the first binding of a function starts a chain |
| WrapperChains.Resolve | ext/gotcha/src/gotcha.c:98-119 | resolving the innermost binding changes only where the chain ends |
| WrapperChains.CallVisitsChain | ext/gotcha/src/gotcha.c:121-141 | a call from the head visits each binding of the function exactly once and can go no other way |
| Gotchas.Gotcha.FindPosition | ext/gotcha/src/gotcha.c:183-203 | the position behind all bindings of at least the given priority |
| Gotchas.Gotcha.InsertAtHead | ext/gotcha/src/gotcha.c:121-130 | the new head calls on to the old one |
| Gotchas.Gotcha.InsertAfterPos | ext/gotcha/src/gotcha.c:132-141 | the new binding takes over what the one before it called on to |
| Gotchas.Gotcha.RewriteWrapperOrders | ext/gotcha/src/gotcha.c:146-207 | puts the binding in its place and says whether a lookup or GOT updates are needed |
| Gotchas.Gotcha.PrepareSymbol | ext/gotcha/src/gotcha.c:98-119 | lets the innermost binding call the exported symbol, if there is one |
| Gotchas.UpdateLeaves | ext/gotcha/src/gotcha.c:209-224 | an update leaves slots of other functions and filtered libraries as they are |
| Gotchas.Gotcha.PlaceAll | ext/gotcha/src/gotcha.c:448-479 | the bindings of a wrap call are all in their chains then, and the missing ones are counted |
| Gotchas.Gotcha.UpdateLibraryGot | ext/gotcha/src/gotcha.c:362-391 | every slot of the given functions enters its binding unless the library is filtered or up to date; other slots, and all of a filtered library, are left alone |
| Gotchas.Gotcha.UpdateAllLibraryGots | ext/gotcha/src/gotcha.c:393-400 | the same for every library |
| Gotchas.Gotcha.Wrap | ext/gotcha/src/gotcha.c:402-491 | all chains, wrappee pointers and GOT slots are right again after a wrap call; exactly the named functions get wrapped in addition, slots of functions that are not wrapped and filtered libraries are left alone, and the result counts the newly wrapped functions without a symbol |
| Gotchas.Gotcha.FindInnermost | ext/gotcha/src/gotcha_dl.c:116-123 | walks from any binding to the innermost one of its chain |
| Gotchas.Gotcha.PerBinding | ext/gotcha/src/gotcha_dl.c:107-134 | resolves the innermost binding of a missing function or leaves it missing |
| Gotchas.Gotcha.Dlopen | ext/gotcha/src/gotcha_dl.c:136-151 | after opening libraries every function they export is resolved and every slot enters its chain at the head; no function gets wrapped, and slots of functions that are not wrapped and filtered libraries, old and new, are left alone |
| Gotchas.Gotcha.CallThroughSlot | ext/gotcha/src/gotcha.c:209-224 | a call through any slot visits every binding of the function once, by falling priority and then in the order of wrapping, and ends at the function's own symbol |
| Gotchas.Run | ext/gotcha/src/gotcha.c:402-491 | all this holds after every sequence of wrap calls with distinct wrappers and library openings: every request has its binding with its name and priority, exactly the requested functions are wrapped, and all other slots are as they were loaded |
| HashTables.FreeCellExists | ext/gotcha/src/hash.c:58-86 | a table with fewer entries than cells has a cell to insert into |
| HashTables.RepInsert | ext/gotcha/src/hash.c:58-86 | inserting at the first cell not in use keeps every entry reachable and the list exact |
| HashTables.RepRemove | ext/gotcha/src/hash.c:181-200 | leaving a tombstone keeps every other entry reachable and the list exact |
| HashTables.HashTable.Insert | ext/gotcha/src/hash.c:58-86 | puts the entry in front of the list |
| HashTables.HashTable.Grow | ext/gotcha/src/hash.c:88-115 | keeps all entries, duplicates included |
| HashTables.HashTable.Lookup | ext/gotcha/src/hash.c:128-149 | finds a cell of the key if and only if there is one, and ends without an empty cell too |
| HashTables.HashTable.LookupData | ext/gotcha/src/hash.c:151-159 | the data of an entry of the key |
| HashTables.HashTable.AddTo | ext/gotcha/src/hash.c:161-179 | adds the entry, growing the table first if more than half is in use |
| HashTables.HashTable.RemoveFrom | ext/gotcha/src/hash.c:181-200 | removes one entry of the key and keeps the links a walk needs |
| HashTables.KeepJoin | ext/gotcha/src/hash.c:202-212 | a walk that deletes drops the entries of the deleted keys, one by one, and nothing else |
| HashTables.ForEach | ext/gotcha/src/hash.c:202-212 | a walk whose callback deletes the current entry still visits each entry exactly once |
| HashTables.Run | ext/gotcha/src/hash.c:58-200 | every sequence of insertions, deletions and lookups answers like a finite map |
| HashTables.LastPutWins | ext/gotcha/src/hash.c:58-200 | a lookup in such a map gives what was put last under the key, and nothing after its deletion |
| BlockAllocators.BlocksDisjoint | ext/gotcha/src/libc_wrappers.c:47-132 | different blocks do not overlap |
| BlockAllocators.CutBlock | ext/gotcha/src/libc_wrappers.c:47-59 | splitting a block keeps the memory exactly partitioned |
| BlockAllocators.MapArea | ext/gotcha/src/libc_wrappers.c:94-109 | a new area becomes one block |
| BlockAllocators.Heap.FindBestFit | ext/gotcha/src/libc_wrappers.c:71-82 | the tightest free block that is large enough, if there is one |
| BlockAllocators.Heap.SplitAllocation | ext/gotcha/src/libc_wrappers.c:47-59 | a block of which enough is left keeps what was asked for and the rest goes to the free list; no other live block is touched |
| BlockAllocators.Heap.Malloc | ext/gotcha/src/libc_wrappers.c:61-110 | a new live block, large enough and tightest, from the free list if possible, at most two words larger than asked for, the rest being on the free list; the memory stays partitioned into live and free blocks, and all live blocks keep size and contents |
| BlockAllocators.Heap.Free | ext/gotcha/src/libc_wrappers.c:126-132 | moves the block to the free list and leaves the others alone |
| BlockAllocators.Heap.Realloc | ext/gotcha/src/libc_wrappers.c:112-124 | the block is large enough afterwards and keeps its contents; a failed call changes nothing |
| BlockAllocators.Run | ext/gotcha/src/libc_wrappers.c:47-132 | over every sequence of allocations, reallocations, frees, writes and reads, what was written through a name is read back through it until it is freed, and a call fails only if the system maps nothing |
| BlockAllocators.WrittenStays | ext/gotcha/src/libc_wrappers.c:47-132 | as its client sees it, a word keeps its value until the next write to it or until its block is freed, however often it is resized |

## Left out

- Blackboards.Run: the locks are not in the sequential model; `SnapshotCache.dfy` covers them for the snapshot copies.
- ContextTrees.MetadataTree.AddNode: nodes are created by one thread at a time, and the node blocks do not run out; races on the lock-free sibling lists and exhaustion are not modelled.
- Regions.Run: covers the thread scope; process and channel scope use the same functions on other blackboards. The calls need room for their new nodes in the context tree.
- Regions.NestingRestores: needs two free blackboard slots, since the source drops entries when the blackboard is full; `Regions.Run` covers that case too.
- SnapshotRecords.ReferencesReadBackIff: that an id is lost even up to order is stated for one-byte ids without immediates; `SnapshotRecords.ReadsBackIff` has the general case for the ids in their order.
- SnapshotRecords.SendAndReceive: lists with more than four references are left to `SnapshotRecords.PackAndParse`.
- AggregationKeys.SortMeaning: key values with the same attribute are taken to keep their order, which `std::sort` does not promise.
- AggregationKernels.AggregateRecord: kernels read immediate entries only. The source logs an error for targets without the as-value property.
- Aggregations.FlushAt: kernels do not read each other's reports and their attributes are no group-by keys; scaled sums that share an attribute are in `SharedSums.dfy`, meta-attributes as keys are left out.
- CrossProcess.AggregateOverRanks: that a rank's database can write its flushed records, so that a value survives its 64 bits and each node gets an id, is part of what a hop is. Percentages assume non-negative values; inclusive sums have their own exact condition.
- CrossProcess.Combine: how flushed records are written as ids of the sender's database is a parameter.
- Gotchas.Run: wrappers are distinct, priorities of tools do not change after wrapping, and libraries appear only through `dlopen`. The special wrapping of `main` is not modelled.
- HashTables.ForEach: keys are unique, as in the table it is used for.
- BlockAllocators.Heap.Malloc: memory is addressed in words of 8 bytes, and the address of a new area is an argument; what the system maps is not in use.
- MemoryPools.MemoryPool.Allocate: the address of a new chunk is an argument, and alignments are powers of two, for which the source's mask rounds up.
- MemoryPools.Run: covers one pool; taking over another pool's chunks is `MemoryPools.MemoryPool.Merge`.
- Bit words of the blackboard are sets of bit numbers, with the find-first-set loop over them.
- The ratio, any and scaled-count kernels: they would repeat the sum, first-value and count kernels.
- Overflow and floating-point rounding in kernels, message passing errors, and sizes of 2^32 or more in MPI counts.
- The query language, formatters, readers and writers of text formats, services, channels and callbacks.
- ELF parsing, page protection and library filters of GOTCHA.
