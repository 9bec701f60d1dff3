# Verified model of the MIQS index

MIQS indexes the metadata attributes of scientific files in memory and answers exact-value
searches. This project models its data structures and proves what they are for:

- the adaptive radix tree of `src/index/art/art.c`, on a heap of nodes with real key and child
  arrays, as a refinement of a plain map: four layouts, growth and shrinking, compressed paths of
  which only ten bytes are stored, iteration and prefix iteration;
- the hash table of `src/index/libhl/hashtable.c`: the compare-and-swap protocol on its status
  word over every interleaving of any number of threads, safety and progress, and, for one thread,
  the table as a map across rehashing;
- the metadata index of `src/index/in_mem_index.c` and `src/miqs_querying.c`: every search against
  the whole log of indexed attributes, with the red-black trees of `src/index/libhl/rbtree.c` under
  their wrapping comparator;
- the MDB file of `src/index/on_disk_index.c` down to the bytes of `src/index/storage/bin_file_ops.c`:
  dump and load, and the append-only record file;
- the binomial heap and bounded priority queue, AVL removal and the skip-offset byte buffer of
  `src/index/libhl`.

Modules: `Basics`; `RadixTree`, `RadixOrder`, `RadixPrefix` (the ideal tree), `ArtNodes`,
`ArtGrowth`, `ArtShrink` (layouts), `ArtHeap` (which heaps represent which tree), `ArtSearch`,
`ArtInsert`, `ArtDelete`, `ArtIter`, `ArtTree`; `HashStatus`, `HashProgress`, `HashBuckets`,
`HashTable`; `BinFile`, `MdbFormat`, `MdbFile`, `IndexRecords`, `FileLayout`, `ValueTree`,
`ValueBalance`, `ValueRuns`, `IndexLog`, `MetadataIndex`; `BinomialTrees`, `GreedyDescent`,
`InsertedForests`, `BinomialHeap`, `PriorityQueue`; `AvlTree`; `FlatBuffer`. Automatic induction is
switched off for every lemma.

## Assumptions

- Keys of the radix tree contain no zero byte, as callers pass `strlen`. Reading a key at its length
  gives the terminator; reading beyond gives any bytes at all (`past`).
- `sse` says which comparison `add_child16` was built with. The SSE one compares signed bytes, so
  order is claimed (`ord`) only for the portable branch or for bytes below 128; lookup, counts and
  the completeness of iteration never depend on it.
- A callback of an iteration is any function of what it has been shown so far.
- In the hash protocol a thread moves one atomic exchange at a time, `sched_yield` may fail, and
  there are fewer than 2^32 - 3 threads.
- A linked list is a sequence. The comparators cut a difference down to an int (`BinFile.CutToInt`), as
  two's complement does. Contracts of the heaps require priorities in one heap to be pairwise less than
  2^31 apart (`Near`), those of the index that the integers under a name never bring their red-black
  tree to an unsafe rotation (`IndexLog.SafeLog`), which holds for all integers on which the comparator
  is an order.
- The status word of the hash table is four bytes wide, as in a build without USE_PACKED_STRUCTURES,
  whose packed enum could be one byte.
- A walk of a tree may meet its entries in any order; the dump is proved for all of them.
- Fields in a file are little-endian with a four-byte int and an eight-byte size_t.

## Where the code falls short of what it promises

- Prefix iteration shows keys that do not start with the prefix when the descent crosses a path that
  disagrees after its first byte; `RadixPrefix.PrefixScanExact` says exactly when.
- The hash table takes a stored NULL for absence: a later set goes behind it and stays hidden
  (`HashTable.Table.Set`).
- A dump with two shards or more cannot be loaded (`MdbFormat.ManyShardsCrash`).
- A string attribute never opens a tree for its name, so strings are found only from the first integer
  attribute of the same name on (`IndexLog.FindableIffNoneLost`, `MetadataIndex.LostString`), and a
  search for a value that cannot be found dereferences NULL.
- The comparator of integers wraps around, and a rotation can then put a key on the wrong side of
  another: `ValueRuns.SafeRunExact` says exactly which sequences of values stay in reach,
  `ValueRuns.LostValue` gives eight values of which one is lost.
- The dump of a name that holds integers and strings keeps only its strings
  (`MdbFormat.MdbRoundTrip`, `MetadataIndex.MixedName`).
- The search of the record file frees slots that realloc left unset, unless the matches fit the first
  capacity or fill the last (`IndexRecords.FindIndexRecord`, `IndexRecords.ElevenMatches`).
- The header of the priority queue promises that the lowest priorities are dropped; the descent that
  picks them is exact for all keys only on flat forests (`GreedyDescent.ExactIffFlat`), after
  insertions alone only up to two of them (`InsertedForests.ExactUpToTwo`).
- A terminator behind the bytes of a buffer is lost when bytes are put in front and skipped bytes are
  given up for a larger allocation (`FlatBuffer.FBuf.Prepend`, `FlatBuffer.TerminatorLost`).

## Model

| member | source | states |
|---|---|---|
| `RadixTree.KeysContinuePrefix` | src/index/art/art.c:264-293 | in a well-formed tree every stored key, with its terminator, continues the bytes that lead to its node |
| `RadixTree.OneValuePerKey` | src/index/art/art.c:559-568 | a key is stored under at most one value |
| `RadixTree.PathHasNoZero` | src/index/art/art.c:571-583 | no compressed path contains the terminator, so a path never swallows the end of a key |
| `RadixTree.DistinctKeysDiverge` | src/index/art/art.c:369-377 | two different keys that share a prefix part at a byte both have (the terminator counts), so splitting a leaf always finds two different bytes |
| `RadixTree.PathDivergence` | src/index/art/art.c:588-594 | a key that reaches an inner node leaves the compressed path, or comes out at its end, at a byte the key has |
| `RadixTree.InsertWellFormed` | src/index/art/art.c:551-634 | insertion keeps the tree well-formed: at least two children everywhere, every key below the path that spells it |
| `RadixTree.InsertEntries` | src/index/art/art.c:551-634 | the entries after insertion are the old ones of other keys and the new one, nothing else |
| `RadixTree.SplitPathEntries` | src/index/art/art.c:588-620 | splitting a compressed path loses and invents no entry |
| `RadixTree.DeleteWellFormed` | src/index/art/art.c:715-801 | deletion, with the single-child collapse, keeps the tree well-formed |
| `RadixTree.DeleteEntries` | src/index/art/art.c:761-801 | the entries after deletion are the old ones without the key |
| `RadixTree.CollapsedEntries` | src/index/art/art.c:721-743 | merging a node with its only child keeps exactly the entries of that child |
| `RadixOrder.ItemsAreEntries` | src/index/art/art.c:823-869 | the left-to-right leaf sequence holds exactly the stored entries |
| `RadixOrder.ItemsSorted` | src/index/art/art.c:823-869 | left to right is strictly increasing unsigned lexicographic order |
| `RadixOrder.ItemsCount` | src/index/art/art.c:963-973 | each entry appears once: the sequence is as long as the set of entries |
| `RadixOrder.FirstItem` | src/index/art/art.c:296-319 | the first item of the child of least byte is the first of the node |
| `RadixOrder.LastItem` | src/index/art/art.c:322-345 | the last item of the child of greatest byte is the last of the node |
| `RadixOrder.VisitEverything` | src/index/art/art.c:871-883 | a callback that returns 0 is shown every item |
| `RadixOrder.VisitConcat` | src/index/art/art.c:833-860 | showing two stretches one after the other is showing their concatenation, up to the first non-zero return |
| `RadixPrefix.PrefixScanExact` | src/index/art/art.c:909-961 | the prefix descent shows exactly the keys that start with the prefix, in order, if and only if it does not go astray (cross a path that disagrees after its first byte and then end inside a path) |
| `RadixPrefix.NotAstrayIfSomeMatch` | src/index/art/art.c:909-961 | whenever some stored key starts with the prefix the descent does not go astray, so every such key is shown and no other |
| `RadixPrefix.AstrayExample` | src/index/art/art.c:932-948 | a tree of three keys and a prefix none of them starts with, for which the descent shows two of them |
| `ArtNodes.ArtNode.FindChild` | src/index/art/art.c:137-222 | the slot of the child for a byte, or none, exactly as the byte-to-child map of the node says, for all four layouts and whether or not keys are in order |
| `ArtNodes.ArtNode.SetChild` | src/index/art/art.c:626-627 | writing a child through its slot updates the map at that byte and nothing else |
| `ArtNodes.ArtNode.CopyHeader` | src/index/art/art.c:379-383 | the stored prefix and its length are copied |
| `ArtNodes.ArtNode.StoredTen` | src/index/art/art.c:379-383 | a header keeps the path, or its first ten bytes |
| `ArtGrowth.AddPair` | src/index/art/art.c:412-497 | inserting into the parallel arrays of a Node4 or Node16 updates the map and keeps the keys in the order of the comparison used, signed for SSE (128 to 255 before 0 to 127) or unsigned |
| `ArtGrowth.Grow4` | src/index/art/art.c:498-508 | a full Node4 becomes a Node16 with the same map and header |
| `ArtGrowth.Grow16` | src/index/art/art.c:465-476 | a full Node16 becomes a Node48 with the same map and header |
| `ArtGrowth.Grow48` | src/index/art/art.c:397-409 | a full Node48 becomes a Node256 with the same map and header |
| `ArtGrowth.AddChild256` | src/index/art/art.c:385-389 | update of the map in a Node256; the count byte wraps to 0 at 256 children |
| `ArtGrowth.FillSlot` | src/index/art/art.c:391-396 | update of the map through the first free slot of a Node48, which exists |
| `ArtGrowth.AddChild` | src/index/art/art.c:385-525 | add_child is the update of the byte-to-child map for every layout and every growth, and the layout changes exactly at 4, 16 and 48 children |
| `ArtShrink.RemovePair` | src/index/art/art.c:699-719 | removal from the parallel arrays is removal from the map |
| `ArtShrink.Shrink16` | src/index/art/art.c:704-712 | a Node16 with three children left becomes a Node4 with the same map and header |
| `ArtShrink.Shrink48` | src/index/art/art.c:682-696 | a Node48 with twelve children left becomes a Node16 with the same map, in byte order |
| `ArtShrink.Shrink256` | src/index/art/art.c:658-672 | a Node256 with 37 children left becomes a Node48 with the same map |
| `ArtShrink.RemoveChild` | src/index/art/art.c:652-759 | remove_child is removal from the byte-to-child map for every layout, and the layout changes exactly when 3, 12 or 37 children are left |
| `ArtDelete.OccupancyShrunk` | src/index/art/art.c:652-719 | removal keeps occupancy in 2-4, 4-16, 13-48 or 38-256 |
| `ArtInsert.OccupancyGrown` | src/index/art/art.c:385-525 | insertion keeps occupancy in 2-4, 4-16, 13-48 or 38-256 |
| `ArtSearch.Minimum` | src/index/art/art.c:296-319 | a leaf stored below the node; the least in key order when the layouts are ordered |
| `ArtSearch.Maximum` | src/index/art/art.c:322-345 | a leaf stored below the node; the greatest in key order when the layouts are ordered |
| `ArtSearch.CheckPrefix` | src/index/art/art.c:233-241 | reaches the end of the stored prefix if and only if the key goes on with it at that depth |
| `ArtSearch.PrefixMismatch` | src/index/art/art.c:530-549 | capped at the path length, the result is the agreement of the key with the whole compressed path, though only ten bytes are stored and the rest comes from a leaf below |
| `ArtSearch.Search` | src/index/art/art.c:264-293 | returns the value stored under the key, or NULL, from any heap that represents a tree, whatever lies in memory past the end of the key |
| `ArtSearch.Descend` | src/index/art/art.c:274-290 | one step of the search: it never goes below a node whose stored bytes the key does not go on with, and the key is stored below the node if and only if it is below the child |
| `ArtInsert.SplitLeaf` | src/index/art/art.c:570-584 | two leaves under a new Node4 whose header is their whole common path, stored up to ten bytes |
| `ArtInsert.TrimHeader` | src/index/art/art.c:602-614 | after a split the lower node's header is the rest of its path, refilled from a leaf below when the path was longer than ten bytes |
| `ArtInsert.SplitPath` | src/index/art/art.c:596-620 | the split node, the shortened node and the new leaf represent the ideal tree's split |
| `ArtInsert.AddLeaf` | src/index/art/art.c:630-633 | a new child of an inner node, grown if full, represents the ideal tree with one more child |
| `ArtInsert.InsertRec` | src/index/art/art.c:551-634 | recursive_insert turns a heap that represents a tree into one that represents the tree after insertion, header invariant included, and reports the old value if and only if the key was there |
| `ArtDelete.MergeHeader` | src/index/art/art.c:724-739 | a collapse joins both paths and the byte between them: length exact, first ten bytes stored |
| `ArtDelete.CollapseNode` | src/index/art/art.c:715-743 | a Node4 left with one child is replaced by that child with the merged path |
| `ArtDelete.RemoveKid` | src/index/art/art.c:746-759 | removing a leaf child represents the ideal tree without it, collapsed if one child is left |
| `ArtDelete.DeleteAbsent` | src/index/art/art.c:761-801 | deleting a key that is not stored leaves the ideal tree as it is |
| `ArtDelete.DeleteRec` | src/index/art/art.c:761-801 | recursive_delete turns a heap that represents a tree into one that represents the tree after deletion, and returns the removed value if and only if the key was there |
| `ArtIter.SameBag` | src/index/art/art.c:833-844 | the order of children in a node does not change which leaves lie below it |
| `ArtIter.IterRec` | src/index/art/art.c:823-869 | recursive_iter shows every leaf below once, in key order when the layouts are ordered, and stops at the first non-zero return |
| `ArtIter.IterPrefix` | src/index/art/art.c:909-961 | the loop of art_iter_prefix shows the leaves of the prefix descent, each once, in order when the layouts are ordered |
| `ArtTree.ContentsInserted` | src/index/art/art.c:645-650 | as a map: insertion is the update at the key |
| `ArtTree.ContentsDeleted` | src/index/art/art.c:811-820 | as a map: deletion is the removal of the key |
| `ArtTree.RunsRefineMap` | src/index/art/art.c:551-820 | after every sequence of insertions and deletions the tree holds what a plain map holds |
| `ArtTree.ItemsAreListing` | src/index/art/art.c:881-883 | the iteration order is the sorted listing of that map |
| `ArtTree.AstrayRun` | src/index/art/art.c:909-961 | three insertions build the tree on which the prefix descent goes astray |
| `ArtTree.Art.constructor` | src/index/art/art.c:55-59 | an empty tree is the empty map |
| `ArtTree.Art.Search` | src/index/art/art.c:264-293 | art_search is map lookup |
| `ArtTree.Art.Insert` | src/index/art/art.c:645-650 | art_insert is map update, returns the old value or NULL, and size stays the number of keys |
| `ArtTree.Art.Delete` | src/index/art/art.c:811-820 | art_delete is map removal, returns the old value or NULL, and size stays the number of keys |
| `ArtTree.Art.Minimum` | src/index/art/art.c:350-352 | an entry of the map, none exactly when the map is empty; the least one when the layouts are ordered |
| `ArtTree.Art.Maximum` | src/index/art/art.c:357-359 | an entry of the map, none exactly when the map is empty; the greatest one when the layouts are ordered |
| `ArtTree.Art.Iter` | src/index/art/art.c:881-883 | art_iter shows each stored key exactly once, and in strictly increasing order when the layouts are ordered |
| `ArtTree.Art.IterSize` | src/index/art/art.c:963-973 | art_iter_size equals t->size and the number of keys |
| `ArtTree.Art.IterPrefix` | src/index/art/art.c:909-961 | art_iter_prefix shows the prefix descent, which is the sorted listing filtered by the prefix if and only if it does not go astray; whenever some key of the map starts with the prefix, exactly the keys that do are shown |
| `HashStatus.EnteringStep` | src/index/libhl/hashtable.c:309-335 | every step of a reader on its way in either leaves the word alone or adds one to a status of at least IDLE |
| `HashStatus.LeavingStep` | src/index/libhl/hashtable.c:345-352 | every step of a reader on its way out either leaves the word alone or takes one off a status of at least READ, and only the latter ends the reader's stay |
| `HashStatus.OwnerStep` | src/index/libhl/hashtable.c:369-396 | an exclusive owner gets in only from IDLE, and its release never fails |
| `HashStatus.StepKeepsInv` | src/index/libhl/hashtable.c:164-352 | each step of any thread keeps: below IDLE one owner of that kind and no reader, otherwise status minus IDLE is the number of readers |
| `HashStatus.EveryRun` | src/index/libhl/hashtable.c:164-396 | that holds after every schedule of any set of threads that fits the word |
| `HashStatus.MutualExclusion` | src/index/libhl/hashtable.c:164-396 | in every run an owner excludes every other owner and every reader |
| `HashStatus.ReleaseExactlyOnce` | src/index/libhl/hashtable.c:345-352 | in every run a thread inside has entered once more than it has left, and a thread outside as often: each release loop decrements exactly once |
| `HashStatus.ReleaseAlone` | src/index/libhl/hashtable.c:345-352 | left alone, a reader is out after at most three exchanges |
| `HashProgress.WordMeans` | src/index/libhl/hashtable.c:53-59 | in every run the word is 3 plus the number of readers, or 0, 1 or 2 for the one thread that clears, writes or grows |
| `HashProgress.Starts` | src/index/libhl/hashtable.c:303-318 | an operation starts at its first exchange without touching the word |
| `HashProgress.ReaderGetsIn` | src/index/libhl/hashtable.c:308-334 | in every reachable state without an owner a reader that moves alone is inside after at most three of its steps, with the word one higher and nobody else moved |
| `HashProgress.ReaderWaits` | src/index/libhl/hashtable.c:308-331 | while there is an owner a reader does not get in and the word does not change |
| `HashProgress.ReaderGetsOut` | src/index/libhl/hashtable.c:345-352 | in every reachable state a reader that moves alone is out after at most four of its steps, with the word one lower |
| `HashProgress.OwnerGetsIn` | src/index/libhl/hashtable.c:164-165 | a thread that waits for exclusive access owns exactly what it wanted after its exchange, with 0, 1 or 2 in the word, if nobody is inside; otherwise a writer or clearer goes on waiting and a grower gives up |
| `HashProgress.OwnerGetsOut` | src/index/libhl/hashtable.c:193-194 | an owner is out after one exchange and leaves 3 in the word |
| `HashProgress.NoDeadlock` | src/index/libhl/hashtable.c:162-403 | from every reachable state the threads can all come to an end by steps of the program alone and leave the word at 3 |
| `HashBuckets.TotalIsStored` | src/index/libhl/hashtable.c:495-496 | without repeated keys the number of items is the number of stored keys, across all buckets |
| `HashBuckets.Deposit` | src/index/libhl/hashtable.c:275-276 | appending an item to its bucket adds its value behind those held under its key and touches no other key |
| `HashBuckets.StackReplace` | src/index/libhl/hashtable.c:505-519 | overwriting the first match replaces the first value of that key only |
| `HashBuckets.StackRemove` | src/index/libhl/hashtable.c:612-625 | removing the first match removes the first value of that key only |
| `HashTable.MoveList` | src/index/libhl/hashtable.c:259-280 | the items of an old list are appended, in order, to the lists at hash mod the new size |
| `HashTable.Rehash` | src/index/libhl/hashtable.c:250-292 | growth keeps, for every key, the values held under it and their order; every item ends at hash mod size; the iterator list names each bucket once |
| `HashTable.CountIsSize` | src/index/libhl/hashtable.c:406-543 | as long as no NULL is stored the item count is the size of the map |
| `HashTable.ModelChanged` | src/index/libhl/hashtable.c:406-543 | a change at one key is an update or a removal of the map |
| `HashTable.Table.constructor` | src/index/libhl/hashtable.c:124-153 | an empty map; the size is at least 128 |
| `HashTable.Table.Grow` | src/index/libhl/hashtable.c:207-300 | doubles the size up to the maximum and changes nothing a lookup can see |
| `HashTable.Table.ListFor` | src/index/libhl/hashtable.c:303-403 | the bucket of a hash exists afterwards and nothing a lookup can see has changed |
| `HashTable.Table.Set` | src/index/libhl/hashtable.c:407-543 | set and get-or-set: exact result for every key and value; the new value is visible if and only if no NULL stored under the key hides it; a map update as long as no NULL is stored; afterwards count <= size + size/3 or the size has reached its maximum; the array doubles, up to its bound, exactly when the items exceed its size by more than a third |
| `HashTable.SizeForLeast` | src/index/libhl/hashtable.c:523-528 | without a bound the size is doubled as often as the items ask for and no oftener |
| `HashTable.Perform` | src/index/libhl/hashtable.c:406-639 | what each operation leaves under every key, NULLs included |
| `HashTable.RunAll` | src/index/libhl/hashtable.c:406-639 | after any run of sets, deletions, unsets and clears every key holds what the operations on it leave, and the size is what doubling from the first size needs for the largest number of items there ever was |
| `HashTable.Table.Spread` | src/index/libhl/hashtable.c:303-306 | every item lies in the bucket of its hash modulo the size |
| `HashTable.HiddenByNull` | src/index/libhl/hashtable.c:444-453 | a NULL and then a value set under one key of a new table: a lookup still gives NULL and the count is two |
| `HashTable.Table.Locate` | src/index/libhl/hashtable.c:594-639 | finds the first item of a key if and only if one is stored |
| `HashTable.Table.Get` | src/index/libhl/hashtable.c:869-873 | the first value under the key; map lookup as long as no NULL is stored |
| `HashTable.Table.Exists` | src/index/libhl/hashtable.c:808-811 | true exactly of the stored keys, with NULL data or not |
| `HashTable.Table.Delete` | src/index/libhl/hashtable.c:727-800 | removes the first value under the key, and that only; map removal as long as no NULL is stored; -1 exactly when the key is absent |
| `HashTable.Table.Unset` | src/index/libhl/hashtable.c:752-768 | replaces the first value under the key by NULL and keeps the count |
| `HashTable.Table.Clear` | src/index/libhl/hashtable.c:162-194 | the empty map, with count 0 and the size unchanged |
| `HashTable.Table.CountIsModel` | src/index/libhl/hashtable.c:406-639 | count equals the size of the map |
| `BinFile.BytesRoundTrip` | src/index/storage/bin_file_ops.c:7-49 | a number written as little-endian bytes reads back as itself |
| `BinFile.FieldBack` | src/index/storage/bin_file_ops.c:51-76 | a field followed by anything reads back as that field and leaves the rest |
| `BinFile.IntBack` | src/index/storage/bin_file_ops.c:130-139 | int fields round-trip, negative ones included |
| `BinFile.DoubleBack` | src/index/storage/bin_file_ops.c:142-151 | double fields round-trip bit for bit |
| `BinFile.StringBack` | src/index/storage/bin_file_ops.c:154-163 | string fields round-trip |
| `BinFile.Uint64Back` | src/index/storage/bin_file_ops.c:166-186 | uint64 fields round-trip, and are refused where a size_t is wanted |
| `BinFile.SizeBack` | src/index/storage/bin_file_ops.c:177-186 | size_t fields round-trip |
| `BinFile.SkipBack` | src/index/storage/bin_file_ops.c:78-113 | skipping a field leaves exactly what follows it |
| `FileLayout.FieldBytes` | src/index/storage/bin_file_ops.c:7-49 | the bytes of every kind of field in numbers: tag 1 to 5 in four bytes, element count in eight, then the elements, lowest byte first |
| `FileLayout.Accepted` | src/index/storage/bin_file_ops.c:130-186 | each reader accepts a field if and only if its first bytes are the tag and the count it wants |
| `FileLayout.GeneralField` | src/index/storage/bin_file_ops.c:51-76 | reading a field takes twelve bytes and elements of 4, 8, 1, 8, 8 or no bytes off the file, with zeros for what lies behind its end |
| `FileLayout.NoShardCount` | src/index/in_mem_index.c:299-344 | an empty file gives no index, and one that does not start with a size_t crashes the load |
| `MdbFormat.PairListBack` | src/index/on_disk_index.c:226-242 | a pair list, count first, round-trips in order |
| `MdbFormat.NodesBack` | src/index/on_disk_index.c:463-525 | the value nodes of an attribute round-trip into the value tree, for all three kinds |
| `MdbFormat.OtherValueSkipped` | src/index/on_disk_index.c:463-498 | a value of another type than its attribute's is dropped with its pairs and reading goes on behind them |
| `MdbFormat.UnknownKind` | src/index/on_disk_index.c:463-498 | a value of an attribute of unknown type is not read, and the load does not survive it |
| `MdbFormat.AttrsBack` | src/index/on_disk_index.c:527-549 | the attribute nodes of a region round-trip into the name tree |
| `MdbFormat.PathListBack` | src/index/on_disk_index.c:395-430 | an interned path list round-trips: every path at its own position |
| `MdbFormat.OneShardBack` | src/index/in_mem_index.c:279-344 | dumping and loading one shard reproduces what the walk of its trees met |
| `MdbFormat.ManyShardsCrash` | src/index/in_mem_index.c:284-297 | with two shards or more a load of the dump always fails: it meets another attribute region where a path list should start |
| `MdbFormat.LeafRebuilt` | src/index/on_disk_index.c:500-525 | a walk that meets every value of the kind of its name once, in any order, rebuilds exactly those values with their pairs |
| `MdbFormat.NamesRebuilt` | src/index/on_disk_index.c:538-549 | a walk that meets every attribute once, in any order, rebuilds the attribute map with the dumped values of each |
| `MdbFormat.UnmixedKept` | src/index/on_disk_index.c:371-377 | a dump leaves something out if and only if some name holds values of two kinds |
| `MdbFormat.MdbRoundTrip` | src/index/in_mem_index.c:279-344 | for every index, whatever the order of its walks, the dump of one shard loads to the same path lists, attributes, values and pair lists, less the values that are not of the kind their name is marked with; it is the same index if and only if the parallelism is at most one and no name holds integers and strings |
| `FileLayout.AttrBytes` | src/index/on_disk_index.c:319-377 | an attribute is its name, its type 1, 2 or 3, the number of its values and the values |
| `FileLayout.PairBytes` | src/index/on_disk_index.c:222-242 | a pair list is its length and forty bytes a pair, the file position before the object position |
| `FileLayout.PathsBytes` | src/index/on_disk_index.c:395-412 | each path is written as its name and its position, behind the ones before it |
| `FileLayout.OneShardBytes` | src/index/in_mem_index.c:279-297 | a dump of one shard is 1, the files, the objects and the attributes |
| `FileLayout.SampleDumped` | src/index/in_mem_index.c:279-297 | the dump of an index with an integer, a float and a string attribute, byte by byte |
| `FileLayout.SampleLoaded` | src/index/in_mem_index.c:299-344 | that file loads to that index |
| `MdbFormat.DjbShort` | src/utils/hash_utils.c:3-17 | the hash of a short name in numbers |
| `MdbFormat.CountNumbers` | src/index/in_mem_index.c:299-344 | the number of shards is kept in an int: 2^31 up to 2^32 load none, and 2^32 wraps around |
| `MdbFile.AppendPairList` | src/index/on_disk_index.c:226-242 | writes the count and every pair |
| `MdbFile.AppendNodes` | src/index/on_disk_index.c:248-297 | writes every value with its pair list |
| `MdbFile.AppendTree` | src/index/on_disk_index.c:363-389 | writes the count and every attribute with its value region |
| `MdbFile.AppendPathList` | src/index/on_disk_index.c:395-412 | writes the count and every path with its position |
| `MdbFile.DumpIndex` | src/index/in_mem_index.c:279-300 | writes the file the format describes, all attribute regions after each pair of path lists |
| `MdbFile.FillPairs` | src/index/on_disk_index.c:432-460 | reads a pair list from any file as the format says, or fails where a read yields NULL |
| `MdbFile.FillNode` | src/index/on_disk_index.c:463-498 | reads a value node from any file, dropping the pairs of a value that cannot be read |
| `MdbFile.FillLeaf` | src/index/on_disk_index.c:500-525 | reads a value region from any file |
| `MdbFile.FillAttr` | src/index/on_disk_index.c:527-534 | reads an attribute from any file into the shard of its name |
| `MdbFile.FillTree` | src/index/on_disk_index.c:538-549 | reads an attribute region from any file |
| `MdbFile.FillPaths` | src/index/on_disk_index.c:419-430 | reads a path list from any file, inserting each path at its recorded position |
| `MdbFile.LoadIndex` | src/index/in_mem_index.c:303-344 | loads any file as the format says |
| `MdbFile.DumpThenLoad` | src/index/in_mem_index.c:279-344 | dumping and then loading gives the index less the values of the other kind, a crash from two shards on, and the same index if and only if the parallelism is at most one and no name is mixed |
| `ValueTree.FoundIsThere` | src/index/libhl/rbtree.c:521-550 | whatever the tree looks like, a key that is found is in it |
| `ValueTree.SearchableIffFound` | src/index/libhl/rbtree.c:521-550 | each key is there once and is found if and only if every key lies on the side of each node above it to which the wrapping comparator sends the search |
| `ValueTree.GrownFinds` | src/index/libhl/rbtree.c:321-366 | after the descent that hangs in the new node the search reaches what it reached before and the new key, nothing else, in any tree |
| `ValueTree.AgainSmaller` | src/index/libhl/rbtree.c:480-486 | adding the grandparent anew makes progress in any tree, however wrong its order: fewer keys out of reach or fewer red nodes, so rbt_add ends |
| `ValueTree.AddKeys` | src/index/libhl/rbtree.c:426-518 | in any tree, rbt_add adds the key to the set of keys and nothing goes |
| `ValueTree.TurnedSearchable` | src/index/libhl/rbtree.c:487-511 | the one or two rotations keep every key in reach if and only if the key they lift compares rightly with everything that comes below it |
| `ValueTree.AddSearchable` | src/index/libhl/rbtree.c:426-518 | rbt_add on a tree in which every key is found leaves one in which every key is found if and only if its final rotation, if any, is safe |
| `ValueTree.AddDistinct` | src/index/libhl/rbtree.c:321-349 | adding to such a tree makes no second copy of a key, through all re-additions |
| `ValueTree.CloseIsOrderly` | src/index/libhl/comparators.h:52-59 | on integers pairwise less than 2^31 apart the wrapping comparator is a strict total order |
| `ValueTree.FarPairOrderly` | src/index/libhl/comparators.h:52-59 | two integers more than 2^31 apart on which the comparator is a strict total order as well, the larger one first |
| `ValueTree.OrderlySafe` | src/index/libhl/rbtree.c:426-518 | keys on which the comparator is a strict total order never meet an unsafe rotation |
| `ValueBalance.PendingAdd` | src/index/libhl/rbtree.c:480-514 | painting and adding the grandparent anew from the root repairs a tree whose only fault is a red node below a red one |
| `ValueBalance.AddRedBlack` | src/index/libhl/rbtree.c:426-518 | rbt_add keeps a tree red-black: black root, no red node below a red one, the same number of black nodes on every way down |
| `ValueBalance.LogDepth` | src/index/libhl/rbtree.c:521-540 | a search among n keys makes at most 2 log2(n + 1) comparisons |
| `ValueRuns.SafeRunTree` | src/index/in_mem_index.c:223-230 | after a sequence of values, looked up and added when not found, with safe rotations only, the tree is red-black and finds exactly those values |
| `ValueRuns.SafeRunExact` | src/index/in_mem_index.c:223-230 | the values of a sequence are all found at every point of it if and only if every rotation on the way is safe |
| `ValueRuns.OrderlyRun` | src/index/in_mem_index.c:223-230 | in whatever sequence they come, values on which the comparator is a strict total order are found throughout |
| `ValueRuns.LostValue` | src/index/libhl/rbtree.c:426-518 | eight values after which the second is in the tree and is not found |
| `IndexLog.FindableIffNoneLost` | src/index/in_mem_index.c:119-130 | the occurrences that end up in a tree are all occurrences if and only if none came before an integer opened its name |
| `IndexLog.FieldsFilter` | src/index/in_mem_index.c:24-36 | a list of fields leaves the answers of the names on it as they are without a list, and takes all others away |
| `IndexLog.SameLosses` | src/index/in_mem_index.c:172-180 | whether a listed name loses a string does not depend on the list |
| `IndexLog.IntsNotLost` | src/index/in_mem_index.c:108-118 | no occurrence of an integer is lost |
| `IndexLog.OrderlyLog` | src/index/libhl/comparators.h:52-59 | a log whose integers under each name the comparator orders never brings the tree of a name to an unsafe rotation |
| `IndexLog.LongerKeeps` | src/index/in_mem_index.c:38-50 | interning more paths never changes what a stored position stands for |
| `IndexLog.PushAnswers` | src/index/in_mem_index.c:229-240 | one more pair adds its (file, object) behind the answer for its name and value and changes no other answer |
| `MetadataIndex.InternPath` | src/index/in_mem_index.c:38-50 | the position of a path, the same for ever; a path is stored once |
| `MetadataIndex.LookupExact` | src/index/in_mem_index.c:223-230 | rbt_find on the tree that a safe run has built answers as a map does |
| `MetadataIndex.FitsMore` | src/index/in_mem_index.c:223-230 | one more integer, added when not found, keeps tree and pair lists over the same keys |
| `MetadataIndex.IndexNumeric` | src/index/in_mem_index.c:205-241 | one more (file, object) for each occurrence of each value, in order, and the red-black tree that the values build |
| `MetadataIndex.IndexString` | src/index/in_mem_index.c:243-272 | the same for strings under a name that has a tree; its integers stay as they are |
| `MetadataIndex.IndexLost` | src/index/in_mem_index.c:119-130 | a string attribute under a name without a tree leaves only its paths behind |
| `MetadataIndex.OtherShards` | src/index/in_mem_index.c:95-97 | a change in the shard of one name changes no answer for another name |
| `MetadataIndex.Index.constructor` | src/index/in_mem_index.c:54-89 | an empty index answers an empty log |
| `MetadataIndex.Index.LeafFor` | src/index/in_mem_index.c:105-130 | the leaf and the value tree of a name exist afterwards and no answer has changed |
| `MetadataIndex.Index.IndexInts` | src/index/in_mem_index.c:132-136 | an integer attribute adds its occurrences to the answers of its name and its values to the tree, for a run of integers that stays in reach |
| `MetadataIndex.Index.IndexTexts` | src/index/in_mem_index.c:141-144 | a string attribute adds its occurrences if its name has a tree, and nothing otherwise |
| `MetadataIndex.Index.IndexInto` | src/index/in_mem_index.c:94-156 | the answers of the shard after an attribute are those before, with the occurrences added that end up in a tree |
| `MetadataIndex.Index.IsSpecified` | src/index/in_mem_index.c:24-36 | the loop over the list of fields finds a name if and only if it is on it |
| `MetadataIndex.Index.IndexAttr` | src/index/in_mem_index.c:161-193 | the index keeps answering for its whole log of integers and strings, with fields that are not on a list passed over, as long as the trees of its names make safe rotations only |
| `MetadataIndex.Collect` | src/miqs_querying.c:11-22 | positions turn back into the paths they were interned from |
| `MetadataIndex.Index.FindValue` | src/miqs_querying.c:40-55 | finds a value in the tree of a name if and only if it is there |
| `MetadataIndex.Index.ExactSearch` | src/miqs_querying.c:25-84 | the (file, object) of every occurrence that can be found, in indexing order; no answer when there is none |
| `MetadataIndex.IndexThenSearch` | src/miqs_querying.c:58-84 | for every log of integers and strings whose trees make safe rotations only, every parallelism and list of fields: a name that is not on the list gives no answer; for any other a search gives all occurrences, as if there were no list, if and only if there are some and none is lost; in particular for every integer that occurs |
| `MetadataIndex.LostString` | src/index/in_mem_index.c:119-130 | whatever the name, the string and the parallelism: a single string attribute is indexed, should be found once, and its search gives no answer |
| `MetadataIndex.MixedName` | src/index/in_mem_index.c:243-246 | an integer and a string under one name are both found, in a shard that a dump does not keep whole |
| `MetadataIndex.DumpKeepsIndex` | src/index/in_mem_index.c:279-344 | an index of one shard, dumped and loaded, answers every later search as before on values of the kind its name is marked with and not at all on others; it is the same index if and only if no name is mixed |
| `IndexRecords.RecordBack` | src/index/on_disk_index.c:38-86 | a record, followed by anything, reads back as itself |
| `FileLayout.RecordBytes` | src/index/on_disk_index.c:38-62 | a record is its type 1, 2 or 3, its name, its value and its two paths, byte by byte |
| `IndexRecords.RecordsBack` | src/index/on_disk_index.c:38-86 | reading back an appended stream gives the same list of records |
| `IndexRecords.FindIsSelected` | src/index/on_disk_index.c:123-199 | the search of an appended stream finds exactly the records of that name whose value matches, in order |
| `IndexRecords.FreeableIff` | src/index/on_disk_index.c:192-196 | the slots behind the results have all been set if and only if the array was never doubled or is full |
| `IndexRecords.CapacityNumbers` | src/index/on_disk_index.c:135-172 | the capacity is the one asked for, or ten, doubled as often as the matches ask for and no oftener |
| `IndexRecords.FindIndexRecord` | src/index/on_disk_index.c:123-199 | on any file: the array holds what the search finds, the length returned is the number of matches, the capacity is the least doubling that fits, and the final loop frees only slots that were set if and only if the matches fit the first capacity or fill the last |
| `IndexRecords.FindInAppended` | src/index/on_disk_index.c:123-199 | on an appended stream: exactly the records of that name whose value matches, in order, and their number |
| `IndexRecords.ElevenMatches` | src/index/on_disk_index.c:164-196 | eleven matches at the default capacity: slots that realloc left unset are freed |
| `BinomialTrees.RootBeats` | src/index/libhl/binheap.c:408-447 | in a heap-ordered tree no item comes before the root |
| `BinomialTrees.CloseIff` | src/index/libhl/comparators.h:52-59 | priorities less than 2^31 apart are exactly those that the comparator gets right both ways |
| `BinomialTrees.CarryItems` | src/index/libhl/binheap.c:423-436 | the carry loop keeps every item and adds the new one |
| `BinomialTrees.CarryHeaped` | src/index/libhl/binheap.c:423-436 | the carry loop keeps heap order, for keys less than 2^31 apart |
| `BinomialTrees.CarryCounts` | src/index/libhl/binheap.c:423-436 | the carry loop adds one to the binary counter that the root orders spell |
| `BinomialTrees.BinomialSize` | src/index/libhl/binheap.c:396-406 | a binomial tree of order k has 2^k nodes |
| `BinomialTrees.BitsAreDigits` | src/index/libhl/binheap.c:423-436 | the orders of a counter are the binary digits of its number that are one |
| `BinomialTrees.CounterOrders` | src/index/libhl/binheap.c:423-436 | the orders of the roots of a counter increase strictly and are exactly the set bits |
| `BinomialTrees.InsertAllCounts` | src/index/libhl/binheap.c:396-447 | after n insertions the forest is the counter of n over the items inserted, heap-ordered for keys less than 2^31 apart |
| `BinomialTrees.InsertAllShape` | src/index/libhl/binheap.c:396-447 | after n insertions the root orders increase strictly and are exactly the set bits of n, a root of order k heads a binomial tree of 2^k nodes with child orders 0 to k-1, the items are those inserted and the trees are heap-ordered |
| `BinomialTrees.PromoteItems` | src/index/libhl/binheap.c:333-357 | the child that takes over holds everything its siblings and it held |
| `BinomialTrees.PromoteHeaped` | src/index/libhl/binheap.c:333-357 | it keeps heap order because it beats its siblings |
| `GreedyDescent.FlatIsExact` | src/index/libhl/binheap.c:257-293 | on a flat forest the greedy descent for the other extremum ends at it |
| `GreedyDescent.ExactIffFlat` | src/index/libhl/binheap.c:257-293 | the descent finds the other extremum for all keys on a shape if and only if the shape is flat |
| `GreedyDescent.FewAreFlat` | src/index/libhl/binheap.c:257-293 | a forest of at most two items is flat |
| `GreedyDescent.CounterFlat` | src/index/libhl/binheap.c:257-293 | the forest of n insertions is flat if and only if n is at most two |
| `GreedyDescent.FlatAfterInserts` | src/index/libhl/pqueue.c:39-55 | after insertions only, the forest is flat if and only if there were at most two |
| `InsertedForests.CarryTrap` | src/index/libhl/binheap.c:409-447 | inserting middling keys keeps a forest misleading: they hang below the root that hides the extremum, or stand beside it |
| `InsertedForests.ExactUpToTwo` | src/index/libhl/pqueue.c:39-55 | after n insertions the far end is exact whatever the items if and only if n is at most two; for every larger n there are n items for which wherever the descent ends is wrong |
| `GreedyDescent.OneEnd` | src/index/libhl/binheap.c:232-272 | with the program's way of breaking ties the descent ends at one item |
| `GreedyDescent.ThreeAreTooMany` | src/index/libhl/pqueue.c:39-55 | three insertions after which the descent for the minimum of a max heap ends at 5 although 1 is there |
| `BinomialHeap.FindRoot` | src/index/libhl/binheap.c:232-254 | a root of best key for the extremum wanted: the last of the greatest, or the first of the least |
| `BinomialHeap.FindChild` | src/index/libhl/binheap.c:143-174 | the last child of best key for the extremum wanted |
| `BinomialHeap.TakeLeaf` | src/index/libhl/binheap.c:265-272 | cuts the leaf at the end of the descent out of a tree and leaves everything else in place; heap order stays |
| `BinomialHeap.Heap.Insert` | src/index/libhl/binheap.c:409-447 | the items are the old ones and the new one; heap order, count and head stay right |
| `BinomialHeap.Heap.UpdateHead` | src/index/libhl/binheap.c:29-35 | head is the last of the greatest or the first of the least roots, or NULL for an empty heap |
| `BinomialHeap.Heap.Best` | src/index/libhl/binheap.c:501-533 | the mode's own extremum, exactly |
| `BinomialHeap.Heap.RemoveRoot` | src/index/libhl/binheap.c:297-366 | the items are the old ones without the root; heap order stays; its last best child takes its place, with the siblings in order behind its own children |
| `BinomialHeap.Heap.DeleteBest` | src/index/libhl/binheap.c:536-567 | removes and returns the head, an item of best key; nothing else goes |
| `BinomialHeap.Heap.DeleteOther` | src/index/libhl/binheap.c:536-567 | removes the one item at the end of the greedy descent, keeps heap order, never loses the best key unless it was the only item, and removes a worst item whenever the forest is flat or holds at most two items |
| `PriorityQueue.Queue.DropItems` | src/index/libhl/pqueue.c:39-55 | drops that many items, or all |
| `PriorityQueue.Queue.Insert` | src/index/libhl/pqueue.c:67-86 | never more than max_size items; nothing but one item goes, the best priority stays, and the one that goes is of lowest priority when max_size is at most one or the forest is flat |
| `PriorityQueue.Queue.PullHighest` | src/index/libhl/pqueue.c:89-115 | removes and returns an item of best priority for the mode |
| `PriorityQueue.Queue.PullLowest` | src/index/libhl/pqueue.c:118-144 | removes and returns the one item at the end of the greedy descent, one of lowest priority when the forest is flat or holds at most two items; the best priority stays unless it was alone |
| `AvlTree.LeftMends` | src/index/libhl/avltree.c:147-154 | a right side two higher is mended by one rotation or two: balanced, stored heights right, same order, height down by at most one, demoted node balanced |
| `AvlTree.RightMends` | src/index/libhl/avltree.c:155-162 | the mirror image |
| `AvlTree.Balance` | src/index/libhl/avltree.c:140-171 | the walk to the root ends, with a balanced tree, right stored heights and the same entries in order |
| `AvlTree.StepUp` | src/index/libhl/avltree.c:163-170 | a finished subtree that lost at most one level leaves its parent out of balance by at most two |
| `AvlTree.Unlink` | src/index/libhl/avltree.c:347-372 | unlinking a node with at most one child removes its entry only |
| `AvlTree.FromLeft` | src/index/libhl/avltree.c:321-325 | the neighbour on the higher side is taken, the next one if both sides are as high |
| `AvlTree.TakeOut` | src/index/libhl/avltree.c:319-372 | with two children the neighbour on the higher side takes the entry's place and goes instead |
| `AvlTree.LastNode` | src/index/libhl/avltree.c:292-303 | the last entry of the left side |
| `AvlTree.FirstNode` | src/index/libhl/avltree.c:278-289 | the first entry of the right side |
| `AvlTree.Avlt.Remove` | src/index/libhl/avltree.c:306-385 | from a well-formed tree to a well-formed tree whose in-order entries are the old ones without the key, unchanged when the key is absent |
| `FlatBuffer.FBuf.GrownLength` | src/index/libhl/fbuf.c:198-205 | the growth loop ends at the first of its sizes that is enough |
| `FlatBuffer.GrownNumbers` | src/index/libhl/fbuf.c:198-205 | the sizes in numbers: 128, then 16384, then as many steps of 1024 as are needed |
| `FlatBuffer.FBuf.Extend` | src/index/libhl/fbuf.c:165-235 | the bytes stay, there is room behind them, length and skip are as the growth sizes say; refused if and only if there is a bound and the length asked for exceeds it, and then nothing changes; a terminator is kept unless skipped bytes are given up for a larger allocation, and then the byte is unset |
| `FlatBuffer.FBuf.ShrunkLength` | src/index/libhl/fbuf.c:257-267 | the length is the last one of the descending sizes (halved up to 16384, less 1024 above) that still holds the bytes and a terminator, or the first that is at most 128 |
| `FlatBuffer.OneLast` | src/index/libhl/fbuf.c:257-267 | there is one such size |
| `FlatBuffer.DownTo128` | src/index/libhl/fbuf.c:257-267 | fewer than 128 bytes in 16384 come down to 128 |
| `FlatBuffer.FBuf.Shrink` | src/index/libhl/fbuf.c:238-283 | the bytes and their terminator stay and the allocation comes down to that size |
| `FlatBuffer.FBuf.Add` | src/index/libhl/fbuf.c:360-370 | appends the bytes and a terminator; refuses, and keeps the bytes, if and only if there are none or the content would exceed the bound |
| `FlatBuffer.FBuf.Prepend` | src/index/libhl/fbuf.c:385-406 | puts the bytes in front, reusing skipped space, or refuses and keeps bytes and terminator; after success a terminator is still there if and only if there was nothing to put, skipped space took it, nothing was skipped or the allocation was large enough, and otherwise the byte is unset |
| `FlatBuffer.TerminatorLost` | src/index/libhl/fbuf.c:385-406 | add 100 bytes, remove 10, put 50 in front: the byte behind the content is unset |
| `FlatBuffer.FBuf.Remove` | src/index/libhl/fbuf.c:648-663 | drops bytes from the front, moves the rest to the front when half the allocation is skipped, and keeps the terminator |
| `FlatBuffer.FBuf.Concat` | src/index/libhl/fbuf.c:433-448 | appends the bytes of another buffer with its terminator and leaves that one alone; refuses if and only if the content would exceed the bound |

## Left out

- ArtTree.Art.Minimum: the least key is promised for ordered layouts only, because with signed SSE order on bytes above 127 the leftmost leaf is another one.
- ArtTree.Art.Maximum: the greatest key is promised for ordered layouts only, for the same reason.
- ArtTree.Art.Insert: a caller who wants order claims from an SSE build may insert only bytes below 128; without order claims there is no such condition.
- BinomialHeap.Heap.DeleteOther: on forests that are not flat the item at the end of the descent goes, which need not be the worst, because that is what the code does.
- PriorityQueue.Queue.PullLowest: on other forests the item need not have the lowest priority, for the same reason.
- FlatBuffer.FBuf.Remove: asks for an allocated buffer, because the code writes to data[0].
- MetadataIndex.Index.IndexAttr: float attributes are not modelled, because their comparator takes values less than one apart for equal; fewer than 2^31 attributes are indexed, because the interning loop counts in an int; the integers under a name make safe rotations only, because otherwise a value can get out of reach and be added a second time, with a list of its own.
- MetadataIndex.Index.IndexInto: as for IndexAttr.
- MetadataIndex.Index.IndexInts: as for IndexAttr.
- MetadataIndex.IndexThenSearch: as for IndexAttr.
- Parent pointers, stored values and the size counter of the red-black tree, its removal and its walks: the trees are values over keys, and the pair lists are kept beside them in a map.
- Node addresses and pointer tags of the radix tree: a child is NULL, a leaf or a node; the write through `ref` is the returned pointer; the bit-field search of a Node16 is the least matching index.
- Freeing memory, allocation failure, performance counters and timers, everywhere.
- Mutexes, spin locks and the bucket index that is computed before the read status is taken: the concurrent claims are about the status word only.
- ht_set_copy, ht_set_if_equals, ht_delete_if_equals, the ht_foreach family and wrap-around of the doubled size: they would add easy members or need removal during iteration.
- Loading an MDB file into an index that already has contents, the totals an index keeps, and files cut short inside a header.
- Records of unknown type in the append-only file: the search skips one field too many after them.
- Replaying the append-only file into memory, whose attributes lack their path fields.
- Parent pointers and children arrays of heaps, and parent pointers of AVL trees, as memory: trees are values, a node with its ancestors is a subtree and a path, and the head of a heap is a position in its list. The height a rotation writes into the parent is left out, because the walk recomputes it before it is read.
- avlt_add, whose swap branches do not keep search order; binheap_merge, binheap_delete by key and the key increase and decrease helpers.
- Other settings of the byte buffer's growth sizes, its 32-bit wrap-around, attach, detach and formatted printing.
- HDF5 scanning, MPI, MongoDB, command line tools, directory walking, the other containers of `src/index/libhl`.
