# Verified model of the key-value store

The repository keeps the same kind of table, from C strings to C strings, in several data structures
written in place in C: a copy-on-write B-tree, a red-black tree, a skip list, an array and a hash table.
On top of them it replicates tables between servers by last-writer-wins pulls and saves them to files.
This project models that code in Dafny and proves that each structure behaves as a finite map, that the
structures agree, and what the replication and the persistence do to the maps.

Every structure is modelled in the form the code has. The B-tree is an explicit heap of nodes with
reference counts that several trees share; red-black nodes, skip-list towers and hash chains are objects
with pointers; the array is an array. Each operation is proved against functions on sequences or maps,
and the laws the code is for are proved about those functions and about whole runs.

| files | what they model |
|---|---|
| `Keys`, `SortedItems`, `SortedMaps`, `SortedRanges` | `strcmp`, sorted item sequences, the maps they stand for, key ranges |
| `Weave`, `NodeHeap`, `NodeHeapLemmas`, `NodeSteps`, `NodeReading`, `NodeWrites`, `NodeSplits`, `NodeSets`, `NodeRebalance`, `NodeDeletes`, `NodeSearch`, `EdgePaths`, `Trees` | the B-tree's node heap and one lemma file for each kind of step on it |
| `Forest`, `TreeReads` | the B-tree's operations |
| `FamilyRuns`, `FamilyTheorems` | runs over families of clones; leaks and height |
| `IterPaths`, `Iterator`, `IterRuns` | the stack-based iterator |
| `RbShapes`, `RbBalance`, `RbPaths`, `RbMemory`, `RbOrder`, `RbStamps`, `RbTree`, `RbEngine`, `RbSamples`, `RbRuns` | the red-black tree, its engine, small trees for every case of the repair, and whole runs |
| `LongKeys`, `SkipLanes`, `SkipTable`, `SkipRuns` | the skip list, with keys of any length, and whole runs of it |
| `Records`, `RecordRanges`, `RecordTables`, `Sorting`, `ArrayEngine`, `Division`, `HashChains`, `HashEngine`, `EngineAgreement` | records with timestamps, the array and hash engines, agreement of all engines |
| `Replication`, `SyncClient`, `Wire`, `WireText`, `WireRoundTrip`, `PullSession`, `Cluster`, `Framing` | pulls, their text format, runs of pulls among several servers, command framing |
| `SaveFormat`, `SaveBytes`, `SaveEngines`, `SaveOrders`, `SaveRoundTrips` | binary save and load |

## What turned out not to hold

- `rbtree_delete` moves key and value of the successor into a node with two children but leaves the
  timestamp (kv_store_rbtree.c:294-305). `RbStamps.TimestampsKept` says exactly when timestamps survive,
  `RbRuns.TimestampSlips` shows a run in which one does not.
- `kvs_rbtree_get_timestamp` compares with `NULL` what is never `NULL` (kv_store_rbtree.c:766-771), so an
  absent key gets the field of the sentinel, which creation leaves as it was in memory.
  `RbRuns.AbsentTimestamp` says exactly when that is 0, `RbRuns.EmptyTimestamp` shows when it is not.
- `btree_iter_next` and `btree_iter_prev` index the stack at -1 when called again after they ran off an end,
  or after a failed seek (btree.c:1245-1322). `IterRuns.Play` and `IterRuns.BrokenRuns` say exactly which
  runs get there, `IterRuns.OffTheEnd` shows one.
- `kvs_hash_delete` reports success for an absent key of a non-empty chain (kv_store_hash.c:315-333).
  `HashEngine.HashTable.Delete` says exactly when, `HashEngine.DeleteAnagram` shows a pair of keys.
- The hash of a key with bytes above 127 can be negative, and then indexes before the table
  (kv_store_hash.c:9-20). `HashEngine.Hash` says exactly when, `HashChains.NoSlot` shows the keys of one byte.
- A key above 255 bytes is searched for whole and stored cut (kv_store_skiptable.c:21-31, 171-219), so a key can
  come to stand in the list twice. `SkipTableModel.SkipTable.Set` says exactly when, `SkipRuns.StrictRuns` for
  whole runs; `SkipRuns.TwoTowers` shows a run in which it does, `SkipRuns.DeletedStays` a deletion that then
  leaves the key in.
- A pull from an empty server stores a key `EMPTY` (kv_store_epoll.hpp:661-665): `WireRoundTrip.EmptyRemote`.
  Keys or values that are empty or contain white space do not survive the wire: `WireRoundTrip.RoundTrip`.
- Loading a saved hash table turns the order of every chain around: `SaveRoundTrips.HashRoundTrip`.
- Replicas that tie for the newest timestamp of a key never agree: `Replication.TiesNeverSettle`.

## Model

| member | source | states |
|---|---|---|
| `Keys.TotalOrder` | btree.c:192-196 | `strcmp` on NUL-free byte strings is a strict total order whose zero means equality |
| `Keys.LessMeans` | btree.c:192-196 | Which order: the dictionary order on unsigned bytes. One key is below another if and only if they agree up to some place at which the first ends or has the smaller byte |
| `NodeSearch.Bsearch` | btree.c:198-218 | On a sorted node the binary search returns found with the key's index, or not found with the index at which the key would go; every index it reads is in bounds |
| `NodeSearch.BsearchHint` | btree.c:220-268 | For any content of the hint bytes the hinted search of a non-empty sorted node returns the same flag and index as the plain one: both meet the same specification, which has one solution. Only the byte for the depth is written, and it holds the index found |
| `NodeSearch.Search` | btree.c:467-478 | With or without a hint, the search of a node is the plain search |
| `NodeHeapLemmas.ExactUpdate` | btree.c:352-424 | Reference counts stay exact when one node's children and the outside references change by matching amounts |
| `NodeHeapLemmas.KidsBelow` | btree.c:69-75 | Whatever a child slot of an allocated node names is allocated and one level lower, so every descent ends |
| `NodeHeapLemmas.SoleSlot` | btree.c:370-424 | A node with `rc == 0` that sits in one child slot is referred to from nowhere else, so writing to it shows in no other tree |
| `ForestModel.Forest.constructor` | btree.c:279-315 | The requested capacity is normalised to an odd number from 3 to 2045, 255 if fewer than two items are asked for |
| `ForestModel.Forest.RcFetchAdd` | btree.c:370-415 | Retaining a node adds exactly one outside reference and keeps every count exact |
| `ForestModel.Forest.NodeFree` | btree.c:352-368 | Releasing a reference frees a node only at its last reference, recursively; counts stay exact, no live node changes its items or children, and nothing freed is referred to |
| `ForestModel.Forest.NodeCopy` | btree.c:370-415 | A copy has the same items and children and retains each child once; on allocation failure nothing at all has changed |
| `ForestModel.Forest.CowChild` | btree.c:417-424 | Making a child slot private swaps in an unshared equal of the child, keeps every other tree's reading and all counts; on failure nothing has changed |
| `ForestModel.Forest.NodeSplit` | btree.c:489-508 | A full node becomes two halves around its median which together read as before; failure changes nothing |
| `ForestModel.Forest.SplitChild` | btree.c:534-547 | Splitting a full child widens the parent by one item and leaves what the parent reads unchanged |
| `ForestModel.Forest.NodeSet` | btree.c:510-549 | Recursive insertion inserts or replaces exactly one item below the node, or reports why not with the reading unchanged; it asks for a split only if it met a full node on the key's way down, so the retry after a split cannot ask again and the recursion ends |
| `NodeSets.SplitMakesRoom` | btree.c:534-548 | After the split, the child on the key's way has room: this is why each level splits at most once |
| `NodeSets.SplitRetry` | btree.c:534-548 | After a split the node has one more item and the same reference count and meets no full child on the key's way, so the retried insertion cannot ask for another split |
| `NodeSplits.SplitSound` | btree.c:489-508 | The halves, with the counts of the children they now share out, make a sound heap again |
| `NodeSplits.AdoptSound` | btree.c:534-547 | Hanging the median and the right half into the parent keeps the heap sound |
| `ForestModel.Forest.NodeDelete` | btree.c:695-774 | Deletion below a node, by key or by position, takes out exactly the named item and leaves at most this node short; if memory runs out the reading is unchanged, even if nodes were copied on the way |
| `ForestModel.Forest.BranchDelete` | btree.c:744-772 | A found key in a branch is replaced by the greatest item of the left child, and the outcome is the removal of that key |
| `ForestModel.Forest.LeafDelete` | btree.c:718-728 | The leaf case for all four actions |
| `NodeDeletes.SwapNow` | btree.c:744-758 | Moving the predecessor up and the found item out of the child reads as the removal of the found item |
| `ForestModel.Forest.CowPair` | btree.c:748-763 | Before the descent the child and the sibling that rebalancing may need are both private; if one of the copies fails the reading is unchanged |
| `ForestModel.Forest.Rebalance` | btree.c:640-693 | Merging or moving an item across restores the occupancy of both siblings and leaves what the parent reads unchanged |
| `NodeRebalance.MergeSound` | btree.c:653-664 | The merge of two siblings and their separator keeps order, depth, occupancy and exact counts |
| `NodeRebalance.RotateSound` | btree.c:665-692 | The rotation of one item and one child across the separator keeps order, depth, occupancy and exact counts, in both directions |
| `ForestModel.Forest.NewTree` | btree.c:279-315 | A new handle is empty; none is made exactly if an allocation failed; other handles are untouched |
| `ForestModel.Forest.Clone` | btree.c:453-465 | A clone reads as its original at that moment, and is refused exactly if an allocation failed; no other handle changes |
| `ForestModel.Forest.Clear` | btree.c:427-435 | The tree is empty and every other tree of the family reads as before, however many nodes were shared |
| `ForestModel.Forest.FreeTree` | btree.c:438-441 | The handle is gone and every other tree reads as before |
| `ForestModel.Forest.Set` | btree.c:551-616 | Inserts or replaces exactly one item and returns the item it replaced; out-of-memory is reported exactly if an allocation failed, and then, at whatever point it failed, contents and count are as before; order, depth, occupancy, counts and all other trees are kept in both cases |
| `ForestModel.Forest.GrowRoot` | btree.c:589-607 | Splitting the root changes neither contents nor any other tree, and afterwards the key's way meets no full node, so the root is split at most once |
| `ForestModel.Forest.Delete` | btree.c:776-809 | Deletes exactly the named item, or the least or greatest for the pops, and returns it; nothing if it is absent; out-of-memory is reported exactly if an allocation failed and changes neither contents nor count; the full invariant and all other trees are kept |
| `ForestModel.Forest.Pop` | btree.c:848-905 | Popping the minimum or maximum, whether on the fast path through a leaf or through the general deletion, removes exactly that end and returns it, unless an allocation failed |
| `ForestModel.Forest.PopFromLeaf` | btree.c:848-905 | When the fast path acts it does what the general deletion of that end does, and otherwise it has changed nothing but private copies |
| `ForestModel.Forest.Load` | btree.c:1113-1151 | Bulk loading has the contents, return value and out-of-memory behaviour of `btree_set`, in whatever order the items come |
| `ForestModel.Forest.LoadIntoLeaf` | btree.c:1113-1151 | Appending to the rightmost leaf happens only where it equals the general insertion |
| `ForestModel.Forest.Get` | btree.c:618-638 | Lookup, hinted or not, finds the item with the key in the tree's contents |
| `ForestModel.Forest.Edge` | btree.c:1085-1110 | The minimum and maximum are the first and the last item |
| `ForestModel.Forest.Ascend` | btree.c:974-992 | Visits exactly the items at or above the pivot in order, up to and including the one at which the callback stops |
| `ForestModel.Forest.Descend` | btree.c:1064-1082 | Visits exactly the items at or below the pivot in reverse order, up to and including the one at which the callback stops |
| `TreeReads.NodeScan` | btree.c:922-942 | Scanning a node visits all items below it in order and stops where the callback says so |
| `TreeReads.NodeAscend` | btree.c:944-971 | Ascending from a pivot below one node |
| `TreeReads.NodeReverse` | btree.c:994-1026 | Scanning a node backwards |
| `TreeReads.NodeDescend` | btree.c:1028-1061 | Descending from a pivot below one node |
| `TreeReads.VisitPrefix` | btree.c:922-942 | What a visit sees is a prefix of what there is to see, and all of it unless the callback stopped it |
| `TreeReads.FromMeans` | btree.c:944-971 | What an ascending scan sees is a tail of the items: exactly those not below the pivot |
| `TreeReads.UpToMeans` | btree.c:1028-1061 | What a descending scan sees is, read backwards, a head of the items: exactly those not above the pivot |
| `TreeReads.ReversedAt` | btree.c:994-1026 | Backwards means that place `k` holds the item `k` places from the end |
| `Trees.WalkIsNoted` | btree.c:922-942 | The contents that the specifications speak of are what walking the nodes reads, not bookkeeping of the proof |
| `FamilyRuns.Run` | btree.c:427-465 | Any finite sequence of operations on any handles refines a model in which each handle has a sorted list of its own, for every sharing pattern it builds up and every pattern of allocation failures; an operation is without effect only if an allocation failed in it, and as many operations are without effect as allocations failed |
| `FamilyRuns.LastDoes` | btree.c:427-465 | In the model, after any run, one more operation updates or drops one key of one tree, adds an empty tree or a second reading of one, empties or removes one, and touches nothing else |
| `FamilyRuns.Isolation` | btree.c:370-465 | In every run, what a handle reads is determined by the operations on that handle alone |
| `FamilyRuns.CloneDiverges` | btree.c:453-465 | After cloning, the original and the clone each continue from the shared contents under their own operations only |
| `FamilyRuns.ApplyMeans` | btree.c:551-905 | Seen as finite maps: insertion updates one key, deletion drops one, the pops drop an end key, and order is kept |
| `FamilyTheorems.EveryNodeReached` | btree.c:352-368 | No leak: in every sound family each allocated node is reachable from the root of a live tree |
| `FamilyTheorems.EveryPathLive` | btree.c:352-368 | No dangling reference: whatever a live tree reaches is allocated |
| `FamilyTheorems.NothingLeft` | btree.c:438-441 | When the last tree is released or cleared no node is left allocated |
| `FamilyTheorems.Shallow` | btree.c:300-307 | Height is at most logarithmic in the count, to the base `min_items + 1`, and zero exactly for the empty tree |
| `SortedMaps.LookupMeans` | btree.c:618-638 | Looking up a key in the sorted contents is looking it up in the map they stand for |
| `SortedMaps.UpsertMeans` | btree.c:551-616 | The sequence operation that insertion is proved against is a map update |
| `SortedMaps.RemoveMeans` | btree.c:776-809 | The sequence operation that deletion is proved against drops one key from the map |
| `SortedMaps.CountMeans` | btree.c:913-915 | `count` is the number of keys |
| `SortedMaps.MapDetermines` | btree.c:922-992 | Two sorted contents with the same map are the same sequence, so every ordered scan is fixed by the map |
| `Iterators.Iter.constructor` | btree.c:1174-1184 | The stack is allocated with one slot for each level of the tree |
| `Iterators.Iter.First` | btree.c:1192-1215 | Stands on the least item; false exactly for the empty tree |
| `Iterators.Iter.Last` | btree.c:1218-1242 | Stands on the greatest item; false exactly for the empty tree |
| `Iterators.Iter.Next` | btree.c:1245-1281 | Steps to the in-order successor, or off the end; an iterator never positioned starts at the first item |
| `Iterators.Iter.Prev` | btree.c:1284-1322 | Steps to the in-order predecessor, or off the front |
| `Iterators.Iter.Seek` | btree.c:1326-1353 | Stands on the least item at or above the key; false exactly if there is none |
| `Iterators.Iter.Push` | btree.c:1192-1242 | The stack never grows beyond the height, its allocated size |
| `IterPaths.ChainLength` | btree.c:1158-1172 | A stack whose frames hang off one another is no longer than the tree is high |
| `IterPaths.PositionItem` | btree.c:1356-1358 | The item a stack stands on is the one at its in-order position |
| `IterRuns.NextThenPrev` | btree.c:1245-1322 | Where both succeed, a step forward and a step back come to the same item |
| `IterRuns.PrevThenNext` | btree.c:1245-1322 | Where both succeed, a step back and a step forward come to the same item |
| `IterRuns.Forward` | btree.c:1245-1353 | A traversal from a sought key sees every item from the least one at or above it, once and in order |
| `IterRuns.Backward` | btree.c:1218-1322 | A traversal from the last item sees all items in reverse order |
| `IterRuns.WalksForth` | btree.c:1192-1281 | As a cursor: from the first of `n` items, `k` steps forward stand on item `k`, after `n` steps off the end, and one more breaks it |
| `IterRuns.WalksUnplaced` | btree.c:1245-1281 | A traversal that starts with a step forward is the same one |
| `IterRuns.WalksBack` | btree.c:1218-1322 | The same from the last item backwards |
| `IterRuns.SeekMoves` | btree.c:1326-1353 | After any run that broke nothing, seeking comes to the first item not below the key, and a step from there to its neighbour or off the end |
| `IterRuns.Play` | btree.c:1191-1353 | In every run of calls the stack index of the next step is in bounds if and only if the iterator was never positioned or its last call answered yes; the calls move it as a cursor on the sorted items moves |
| `IterRuns.BrokenRuns` | btree.c:1245-1322 | A sequence of calls breaks the iterator if and only if some step forward or back comes when it stands off an end |
| `IterRuns.OffTheEnd` | btree.c:1245-1281 | On a tree with one item, the step after the first item answers no and leaves an empty stack, so a further step starts at index -1 |
| `RbTreeModel.RbTree.LeftRotate` | kv_store_rbtree.c:36-58 | On pointers with parent links, the rotation turns the subtree at the end of the path and leaves the rest of memory a well-linked tree |
| `RbTreeModel.RbTree.RightRotate` | kv_store_rbtree.c:61-83 | The mirror image |
| `RbBalance.RotateWhole` | kv_store_rbtree.c:36-83 | A rotation changes nothing in the in-order contents |
| `RbTreeModel.RbTree.InsertFixup` | kv_store_rbtree.c:85-133 | From a tree with at most one red-red edge, at `z`, the loop ends with a red-black tree of the same nodes and contents, the very one that the recursion over the path gives; termination is the length of the path above `z` |
| `RbBalance.InsertRecolor` | kv_store_rbtree.c:89-95 | Red uncle: black heights are kept and the only possible red-red edge moves two levels up |
| `RbBalance.InsertInner` | kv_store_rbtree.c:97-102 | Inner grandchild: the rotation makes it an outer one without touching black heights |
| `RbBalance.InsertOuter` | kv_store_rbtree.c:104-107 | Outer grandchild: one rotation settles the tree |
| `RbTreeModel.RbTree.Insert` | kv_store_rbtree.c:136-189 | Adds exactly the item of `z` in order, or changes nothing if the key is there; the result is a sorted red-black tree of the old nodes and `z` |
| `RbTreeModel.RbTree.Walk` | kv_store_rbtree.c:318-347 | The search ends at the key's node, or at the sentinel in the one gap where the key belongs |
| `RbTreeModel.RbTree.Mini` | kv_store_rbtree.c:7-12 | The leftmost node below a node |
| `RbTreeModel.RbTree.Successor` | kv_store_rbtree.c:21-33 | The node at the next in-order position, by descent or by parent links, or the sentinel after the last |
| `RbTreeModel.RbTree.DeleteFixup` | kv_store_rbtree.c:191-262 | From a tree short of one black at `x`, which may be the sentinel with its overwritten parent, the loop ends with a red-black tree of the same nodes and contents, the very one that the recursion over the path gives |
| `RbBalance.DeleteRed` | kv_store_rbtree.c:197-203 | Red sibling: the rotation gives `x` a black sibling and keeps the shortage where it is |
| `RbBalance.DeleteBlack` | kv_store_rbtree.c:205-208 | Two black nephews: the shortage moves one level up |
| `RbBalance.DeleteNear` | kv_store_rbtree.c:211-216 | Red near nephew: afterwards the far one is red |
| `RbBalance.DeleteFar` | kv_store_rbtree.c:218-223 | Red far nephew: the rotation pays the missing black back |
| `RbTreeModel.RbTree.Splice` | kv_store_rbtree.c:276-292 | Taking out a node with at most one child, writing the sentinel's parent if that child is missing, leaves a well-linked tree without it |
| `RbTreeModel.RbTree.Delete` | kv_store_rbtree.c:264-316 | Removes exactly the item of `z` and returns the node that left, holding it; order, links, colours and black heights are restored; with two children the successor's item comes into `z` while the timestamp of `z` stays |
| `RbTreeModel.RbTree.Overwrite` | kv_store_rbtree.c:527-539 | Changes one value and timestamp in memory and nothing else |
| `RbBalance.Logarithmic` | kv_store_rbtree.c:36-189 | A red-black tree of `n` keys has height at most `2 * log2(n + 1)` |
| `RbPaths.EveryWay` | kv_store_rbtree.c:36-189 | What red-black means: every way from the root to a missing child passes the same number of black nodes, starts with a black one and never has two red ones in a row |
| `RbPaths.DepthReaches` | kv_store_rbtree.c:36-189 | The height is the length of the longest way down: no way is longer |
| `RbPaths.DepthReached` | kv_store_rbtree.c:36-189 | and one is as long |
| `RbPaths.Thousand` | kv_store_rbtree.c:36-189 | For instance, in a red-black tree with fewer than 1024 items no way is longer than 20 |
| `RbOrder.DescentIs` | kv_store_rbtree.c:136-189 | There is only one way from the root to a key or to the gap where it belongs, the one a search goes |
| `RbSamples.RedUncle` | kv_store_rbtree.c:89-95 | The tree that the fourth of four ascending keys leaves: colours change, no node moves |
| `RbSamples.OuterChild` | kv_store_rbtree.c:104-107 | The tree that the third of three ascending keys leaves |
| `RbSamples.InnerGrandchild` | kv_store_rbtree.c:97-107 | The same tree when the middle key comes last |
| `RbSamples.NoNephews` | kv_store_rbtree.c:205-208 | The tree that a deletion leaves when the sibling has no children |
| `RbSamples.FarNephew` | kv_store_rbtree.c:218-223 | The same when its far child is red |
| `RbSamples.NearNephew` | kv_store_rbtree.c:211-223 | The same when its near child alone is red |
| `RbSamples.RedSibling` | kv_store_rbtree.c:197-208 | The same when the sibling is red |
| `RbSamples.TwoBelow` | kv_store_rbtree.c:270-305 | Deleting the root of two children: the next item moves up, the root's timestamp stays |
| `RbStamps.RepUnique` | kv_store_rbtree.c:7-33 | Memory spells out one tree only, so the shape the contracts speak of is determined by the pointers |
| `RbEngine.Get` | kv_store_rbtree.c:482-488 | The value of the key, if it is there |
| `RbEngine.GetTimestamp` | kv_store_rbtree.c:759-772 | The stored timestamp of a present key; for an absent key the timestamp field of the sentinel |
| `RbEngine.Set` | kv_store_rbtree.c:444-478 | A new key is added with its timestamp and nothing else changes, and the tree is the one the repair of the linked-in node gives; a present one gives 1 and changes nothing |
| `RbEngine.Modify` | kv_store_rbtree.c:527-539 | A present key gets value and timestamp and nothing else changes, the form of the tree neither |
| `RbEngine.Delete` | kv_store_rbtree.c:491-502 | Removes exactly one key-value pair, and the tree is the one the repair gives; of the other keys only the successor's timestamp can change, and only if the deleted node had two children; of an absent key nothing changes |
| `RbEngine.Count` | kv_store_rbtree.c:551-562 | The number of keys |
| `RbEngine.LowerBound` | kv_store_rbtree.c:582-597 | The first node at or above the start key, or the sentinel |
| `RbEngine.Range` | kv_store_rbtree.c:565-681 | Counts, then copies, exactly the records of the range in order, timestamps included, never past the allocation; the code tells an inverted range, no key above the start, and an empty range apart |
| `RbEngine.GetAll` | kv_store_rbtree.c:684-755 | All records in key order, in an array of exactly that size |
| `RbStamps.TimestampsKept` | kv_store_rbtree.c:264-316 | For every ordered tree and key in it, deleting the key leaves the timestamps of all others alone if and only if its node has fewer than two children or the next key has the same timestamp |
| `RbRuns.TimestampSlips` | kv_store_rbtree.c:294-305 | On an empty engine: three keys set at times 200, 100 and 300, the middle one deleted, and the timestamp of the last has gone from 300 to 200 |
| `RbRuns.Run` | kv_store_rbtree.c:444-539 | Every run of insertions, modifications and deletions does to the table what it does to a plain map, and never writes the sentinel's timestamp |
| `RbRuns.LastDoes` | kv_store_rbtree.c:444-539 | In that plain map, after any run, one more operation changes at most its own key: it adds it if absent, overwrites it if present, or takes it out |
| `RbRuns.AbsentTimestamp` | kv_store_rbtree.c:759-772 | After every run from a new tree, an absent key is answered with timestamp 0 if and only if the sentinel's memory held 0 when the tree was created |
| `RbRuns.EmptyTimestamp` | kv_store_rbtree.c:759-772 | An empty tree whose sentinel was allocated over a 7 answers 7 for an absent key |
| `RbStamps.DeletedStamps` | kv_store_rbtree.c:264-316 | From the nodes' contents before and after a deletion to the key-timestamp table before and after |
| `SortedRanges.WalkIsRange` | kv_store_rbtree.c:599-664 | A walk from the first key at or above the start to the last at or below the end is exactly the range |
| `RecordRanges.SelectItems` | kv_store_array.c:410-487 | Selecting records by key range selects exactly the items of the range |
| `RecordRanges.SelectMeans` | kv_store_array.c:424-440 | A record is selected if and only if its key is neither below the start nor above the end, both ends included |
| `RecordTables.TableDetermines` | kv_store_hash.c:347-456 | A table has only one listing in key order |
| `RecordTables.SortedSelection` | kv_store_hash.c:347-456 | Collecting matching records in any order and sorting them gives that one listing of the restricted table |
| `SkipTableModel.SkipTable.constructor` | kv_store_skiptable.c:71-88 | An empty list: level 0, every lane ending at the header |
| `SkipTableModel.SkipTable.RandomLevel` | kv_store_skiptable.c:12-19 | Any height from 1 to `MAX_LEVEL` |
| `SkipTableModel.SkipTable.Advance` | kv_store_skiptable.c:177-182 | The walk on one lane stops at the last tower before the key that reaches the lane; all pointer indexing in bounds |
| `SkipTableModel.SkipTable.FindPreds` | kv_store_skiptable.c:173-185 | The vector of predecessors, lane by lane, and the tower at or above the key |
| `SkipTableModel.SkipTable.Get` | kv_store_skiptable.c:223-240 | The value of the key, if it is there |
| `SkipTableModel.SkipTable.Set` | kv_store_skiptable.c:171-219 | For any key and every height that comes up, the record with key and value cut to 255 bytes is linked in where the search for the whole key ended, in exactly the lanes its height reaches, and the list stays in order; a present key gives 1 and changes nothing. All keys are different afterwards if and only if they were before and the key fits its field or what is kept of it was not there |
| `LongKeys.SplicedAscends` | kv_store_skiptable.c:171-219 | What is kept of a key never leaves the order in the place of the whole key |
| `LongKeys.SplicedStrict` | kv_store_skiptable.c:171-219 | It repeats a key exactly if the key is too long and what is kept of it is there |
| `SkipRuns.Run` | kv_store_skiptable.c:171-334 | Every run of insertions, modifications and deletions with any keys keeps the list linked and in order, and does to it what it does to a plain sequence |
| `SkipRuns.RunsAsTable` | kv_store_skiptable.c:171-334 | A run that never sets a key above the field while what is kept of it is there does what it does to a plain table of cut keys |
| `SkipRuns.LastDoes` | kv_store_skiptable.c:171-334 | In that table, after any run, one more operation changes at most one key: it adds what is kept of an absent key, overwrites a present one, or takes it out |
| `SkipRuns.StrictRuns` | kv_store_skiptable.c:171-334 | All keys are different at every moment of a run if and only if the run never sets such a key |
| `SkipRuns.TwoTowers` | kv_store_skiptable.c:171-219 | On an empty list, any key of 255 bytes and then that key with one more byte: both are accepted, and the list has two towers with the same key |
| `SkipRuns.DeletedStays` | kv_store_skiptable.c:299-334 | Deleting that key then succeeds, and the key still exists |
| `SkipTableModel.SkipTable.LinkTower` | kv_store_skiptable.c:211-215 | Relinking lane by lane puts the tower into exactly the lanes it reaches |
| `SkipTableModel.SkipTable.RaiseHeader` | kv_store_skiptable.c:203-209 | New lanes start at the header and `level` becomes the new height |
| `SkipTableModel.SkipTable.Modify` | kv_store_skiptable.c:271-289 | A present key gets value and timestamp and nothing else changes; different keys stay different |
| `SkipTableModel.SkipTable.Delete` | kv_store_skiptable.c:299-334 | Removes exactly one record, the first with the key, from all its lanes; `level` sinks to the highest lane that is still in use |
| `SkipTableModel.SkipTable.TrimLevel` | kv_store_skiptable.c:325-328 | Trimming ends at the highest lane with a tower, or at 0 |
| `SkipTableModel.SkipTable.Count` | kv_store_skiptable.c:293-296 | `size` is the length of lane 0 |
| `SkipTableModel.SkipTable.GetTimestamp` | kv_store_skiptable.c:507-527 | The stored timestamp; 0 for an absent key |
| `SkipTableModel.SkipTable.Range` | kv_store_skiptable.c:346-429 | Exactly the records of the range in order, within the allocation |
| `SkipTableModel.SkipTable.GetAll` | kv_store_skiptable.c:432-503 | All records in order |
| `SkipLanes.LaneNested` | kv_store_skiptable.c:171-219 | Each lane is a sub-list of the lane below |
| `SkipLanes.LinkStep` | kv_store_skiptable.c:213-214 | Two pointer writes turn one lane from without to with the tower and leave all others alone |
| `SkipLanes.UnlinkStep` | kv_store_skiptable.c:317-323 | One pointer write takes the tower out of one lane and leaves all others alone |
| `ArrayEngine.Store.FindIndex` | kv_store_array.c:10-19 | The key's slot, or `total` exactly if the key is absent |
| `ArrayEngine.Store.Set` | kv_store_array.c:118-172 | A new record goes behind the last one; a full table is reported before a present key is, and nothing changes on failure |
| `ArrayEngine.Store.Modify` | kv_store_array.c:296-384 | A present key gets value and timestamp in its slot; every other slot is as before |
| `ArrayEngine.Store.Delete` | kv_store_array.c:196-238 | The slot of the key takes the last record, every other slot is as before, and the table has lost exactly that key; no gap is left |
| `ArrayEngine.Store.Range` | kv_store_array.c:410-487 | Counting, collecting and sorting gives the records of the range in key order, exactly filling the allocation |
| `ArrayEngine.Store.GetAll` | kv_store_array.c:595-655 | All records in slot order |
| `HashEngine.Hash` | kv_store_hash.c:9-20 | The remainder, in the sense of C, of the sum of the signed bytes; it is an index of the table if and only if the key is hashable: the sum is not negative, or a multiple of the table size |
| `HashChains.SumAppend` | kv_store_hash.c:14-19 | The sum goes over all bytes: that of two parts is the sum of both |
| `HashChains.SumSingle` | kv_store_hash.c:14-19 | and of one byte it is the byte as a signed number of eight bits |
| `HashChains.SumPermutes` | kv_store_hash.c:14-19 | Keys with the same bytes in any order have the same slot |
| `HashChains.RemMeans` | kv_store_hash.c:19 | The remainder of C: smaller than the divisor, with the sign of the dividend |
| `HashChains.SlotMeans` | kv_store_hash.c:9-20 | The slot of a hashable key is its sum modulo 1024, and one more byte moves it on by that byte's value |
| `HashChains.HashableRem` | kv_store_hash.c:9-20 | The condition on the sum and the sign of C's remainder agree for every key |
| `HashChains.AsciiHashable` | kv_store_hash.c:9-20 | Every ASCII key of up to 2^24 bytes is hashable |
| `HashChains.NoSlot` | kv_store_hash.c:9-20 | A key of one byte above 127 is not: its index is negative |
| `HashEngine.HashTable.Find` | kv_store_hash.c:178-194 | Walking one chain decides whether the whole table has the key |
| `HashEngine.HashTable.Set` | kv_store_hash.c:150-174 | A new record goes to the front of the chain of its slot, every other chain is as before; a present key gives 1 and changes nothing |
| `HashEngine.HashTable.Modify` | kv_store_hash.c:242-277 | A present key gets value and timestamp in its place; every other record of every chain is as before |
| `HashEngine.HashTable.Delete` | kv_store_hash.c:287-334 | Unlinking removes exactly the key's record from its chain, if present, and counts it, all other records staying in their order; the code is 0 if and only if some stored key, the deleted one or another, has the same slot, and -2 otherwise |
| `HashEngine.DeleteAnagram` | kv_store_hash.c:287-334 | With only `ab` stored, deleting `ba` reports success |
| `HashEngine.DeleteStranger` | kv_store_hash.c:287-334 | With only `abc` stored, deleting `abd` is answered with -2 |
| `HashEngine.HashTable.Range` | kv_store_hash.c:347-456 | Collecting from all chains and sorting gives the records of the range in key order |
| `HashEngine.HashTable.GetAll` | kv_store_hash.c:459-533 | All records, slot by slot, exactly filling the allocation |
| `HashChains.ConcatUnique` | kv_store_hash.c:150-174 | No key occurs twice in the whole table |
| `Sorting.Qsort` | kv_store_array.c:482 | The stand-in for the library sort: a permutation in strictly increasing key order |
| `EngineAgreement.SameRange` | kv_store_skiptable.c:346-429 | Engines that hold the same table, the skip list each key once, answer every range query with the same sorted records; a red-black tree whose timestamps have slipped still answers with the same items |
| `Replication.MergeIsJoin` | kv_store_sync_client.hpp:251-310 | Applying pulled records one by one is the key-wise newest-wins join, in whatever order the records come |
| `Replication.JoinMeans` | kv_store_sync_client.hpp:251-310 | The join keeps every key of either table, with its newest stamp and, on a tie, the local one |
| `Replication.JoinCommutes` | kv_store_sync_client.hpp:251-310 | Pulling in either direction gives the same table if and only if equal timestamps come with equal values |
| `Replication.JoinAssociates` | kv_store_sync_client.hpp:251-310 | Pulling through a third replica makes no difference |
| `Replication.PullTwice` | kv_store_sync_client.hpp:251-310 | Pulling again changes nothing |
| `Replication.RunIsNewest` | kv_store_sync_client.hpp:251-310 | In every run of pulls among any number of replicas, each holds for every key the newest stamp among the initial tables that have reached it |
| `Replication.PullBrings` | kv_store_sync_client.hpp:312-364 | After any run, one more pull leaves every key of either replica in the one that pulls, with at least the timestamps both had, and all other replicas as they were |
| `Replication.Convergence` | kv_store_sync_client.hpp:251-310 | Replicas reached by the same initial tables hold the same table, whatever the order of the pulls, if tied newest stamps agree |
| `Replication.AllSettle` | kv_store_sync_client.hpp:251-310 | For any number of replicas, one chain of pulls there and back makes all of them equal, with the newest stamp of every key, if tied newest stamps agree |
| `Replication.TopStays` | kv_store_sync_client.hpp:268-279 | A replica never gives up a stamp that no replica beats |
| `Replication.TiesNeverSettle` | kv_store_sync_client.hpp:268-279 | The condition is needed: replicas that tie for the newest stamp of a key with different values disagree after every run |
| `SyncClient.SyncArray` | kv_store_sync_client.hpp:251-310 | Applies the records to the array engine as a merge: a newer record takes the slot of the old one, a new key goes behind the last; it stops early exactly when the table is full, with the records before that point merged |
| `SyncClient.PlacesStay` | kv_store_sync_client.hpp:251-310 | Applying records never moves one that is there, and new ones stand in the order in which they were applied |
| `SyncClient.SyncRb` | kv_store_sync_client.hpp:312-364 | Applies the records to the red-black engine as a merge, timestamps included; the tree is the one that inserting and overwriting them one by one gives |
| `SyncClient.SyncHash` | kv_store_sync_client.hpp:366-419 | Applies the records, whose keys must be hashable, to the hash engine as a merge: a newer record takes the place of the old one in its chain, a new key goes to the front |
| `SyncClient.SyncSkip` | kv_store_sync_client.hpp:421-474 | For any records: what is left is a plain sequence operation applied record by record. Of a list whose keys are all different they stay so if and only if no key that has to be cut meets what is kept of it, and then the records, keys and values cut, have been merged |
| `Wire.Render` | kv_store_epoll.hpp:659-680 | The accumulated response is the dump text, or `EMPTY` |
| `WireText.DigitAt` | kv_store_epoll.hpp:674 | Timestamps are written in decimal: counted from the right, digit `i` stands for ten to the power `i` |
| `WireText.DigitsLength` | kv_store_epoll.hpp:674 | with as many digits as the number needs, one for 0 |
| `WireText.NoLeadingZero` | kv_store_epoll.hpp:674 | so a positive number has no leading zero |
| `WireText.NewlineCount` | kv_store_epoll.hpp:667-678 | A dump of records without newlines has one newline for each record |
| `WireText.RenderSample` | kv_store_epoll.hpp:659-680 | Two records, rendered byte for byte |
| `WireText.RenderNothing` | kv_store_epoll.hpp:661-665 | No records: the five bytes of `EMPTY` |
| `Wire.Parse` | kv_store_sync_client.hpp:225-249 | One record for each non-empty line, extracted word by word, with an arbitrary timestamp where a line has no third word |
| `WireText.LinesMeans` | kv_store_sync_client.hpp:229-231 | The text is read line by line, up to each newline, empty lines left out, the last line with or without its newline |
| `WireText.ScanMeans` | kv_store_sync_client.hpp:232-241 | A line of three words with any white space around them gives key, value and number |
| `WireText.ScanShort` | kv_store_sync_client.hpp:232-241 | With fewer words, what is missing stays empty and the number is not written |
| `WireText.ReadNumber` | kv_store_sync_client.hpp:236-241 | A number is read up to what cannot belong to it; above 64 bits it reads as the largest, a minus sign takes the complement, a plus sign is passed over |
| `WireText.ReadNothing` | kv_store_sync_client.hpp:236-241 | What does not begin as a number reads as 0 |
| `WireRoundTrip.NumberRoundTrip` | kv_store_epoll.hpp:674 | Every 64-bit timestamp survives printing and extraction |
| `WireRoundTrip.RoundTrip` | kv_store_sync_client.hpp:225-249 | Parsing a rendered dump gives back the same records, timestamps included, if and only if there are any and all keys and values are single words |
| `WireRoundTrip.PullOverWire` | kv_store_sync_client.hpp:225-310 | Dump, parse and merge is the join of the tables |
| `WireRoundTrip.EmptyRemote` | kv_store_epoll.hpp:661-665 | The answer of an empty replica parses as a record with key `EMPTY`, which the merge then adds |
| `PullSession.PullArray` | kv_store_epoll.hpp:414-464 | A whole exchange between array engines makes the local table the join, unless the local table runs full; the records it had stay in their slots, the new ones follow in the remote's order |
| `PullSession.PullHash` | kv_store_epoll.hpp:800-850 | A whole exchange between hash engines makes the local table the join, if what is read back has hashable keys; new records come to the front of their chains in the remote's order |
| `PullSession.HashableBack` | kv_store_epoll.hpp:800-850 | The dump of a table of single words with hashable keys, and of an empty one, reads back with hashable keys |
| `PullSession.PullRb` | kv_store_epoll.hpp:640-680 | A whole exchange between red-black engines, a server with itself included, makes the local table the join |
| `Cluster.PullAll` | kv_store_sync_client.hpp:312-364 | Any sequence of pulls over the wire among any number of red-black servers leaves each with the table that the replication model gives it, if every server pulled from has, at that moment, a table that survives the wire; after the last pull the pulling server has every key of both, and the other servers are as before |
| `Cluster.PullStep` | kv_store_sync_client.hpp:312-364 | One pull over the wire: the pulling server afterwards has every key of both, with at least the timestamps both had, and the other servers are as before |
| `Cluster.Settle` | kv_store_sync_client.hpp:312-364 | Servers with tables that survive the wire and pull along a chain there and back all end with the same table, which has the newest stamp of every key |
| `Cluster.SourcesAnswer` | kv_store_sync_client.hpp:225-364 | For that it is enough that the servers pulled from start with such tables; the others may start empty or with anything |
| `Cluster.PullsConverge` | kv_store_sync_client.hpp:312-364 | After any such sequence, servers that the same initial tables have reached hold the same table, timestamps included, if tied newest stamps agree |
| `Framing.Connection.ProcessReceivedData` | kv_store_epoll.hpp:1076-1093 | Runs exactly the complete commands of the stream so far, queues one response for each, and keeps the rest |
| `Framing.Connection.HandleRead` | kv_store_epoll.hpp:1096-1122 | After every read, of whatever size, the commands run are those of the stream so far |
| `Framing.Connection.HandleReads` | kv_store_epoll.hpp:1096-1122 | After any sequence of reads the commands are those of the concatenated bytes |
| `Framing.ChunkingIrrelevant` | kv_store_epoll.hpp:1076-1122 | Two ways of cutting the same stream run the same commands and leave the same rest |
| `Framing.CommandsAppend` | kv_store_epoll.hpp:1076-1093 | Framing of a longer stream continues from the kept rest |
| `Framing.CommandsSplit` | kv_store_epoll.hpp:1076-1093 | Commands, newlines and rest make up the stream, no byte lost or added, and no command has a newline in it |
| `Framing.FramedCommands` | kv_store_epoll.hpp:1076-1093 | Any newline-free commands that are sent come out as sent |
| `Framing.Joined` | kv_store_epoll.hpp:1076-1122 | Reads are joined in their order with nothing between them; each command and each response ends in one newline |
| `SaveFormat.IntRoundTrip` | kv_save.c:22-32 | Counts and lengths below 2^31 survive writing and reading as four bytes |
| `SaveBytes.IntMeans` | kv_save.c:22-32 | An `int` is written low byte first, and four bytes are read as one, with its sign |
| `SaveBytes.ImageSample` | kv_save.c:39-58 | The image of one item, byte for byte: each length counts the NUL |
| `SaveBytes.SaveSample` | kv_save.c:9-64 | The file of an array with one record, byte for byte |
| `SaveBytes.SaveThree` | kv_save.c:148-224 | The file of the red-black tree that three insertions leave, the root's item first |
| `SaveBytes.StringMeans` | kv_save.c:100-132 | What was read is a C string: it ends at the first NUL, and without one goes on behind the buffer |
| `SaveBytes.ShortCodes` | kv_save.c:89-132 | Whatever the bytes are, the code tells which read failed: -3 to -5 for the length, its sign and the bytes of the key, -6 to -8 for those of the value |
| `SaveFormat.ReadOneImage` | kv_save.c:89-132 | Of a file cut anywhere, the next item is read back exactly if it is complete; otherwise the code is -3, -5, -6 or -8 as the file ends in the length of the key, the key, the length of the value or the value |
| `SaveFormat.LoadTruncated` | kv_save.c:79-140 | A file cut after any number of bytes yields exactly the items complete in it; code 0 exactly if nothing is missing, -2 if the count is cut, and otherwise the code of the part in which the file ends |
| `SaveEngines.ReadItem` | kv_save.c:89-132 | The sequence of checked reads follows the format, with the code of the step that failed |
| `SaveEngines.SaveArray` | kv_save.c:9-64 | The file is the count and the images of all records in slot order |
| `SaveEngines.LoadArray` | kv_save.c:66-146 | What is read is added to the store behind the last record, one by one, present keys and a full table excepted |
| `SaveEngines.SaveNode` | kv_save.c:148-192 | The recursive writer appends the images of a subtree in preorder |
| `SaveEngines.SaveRb` | kv_save.c:194-224 | The file is the count and the images of all nodes in preorder |
| `SaveEngines.LoadRb` | kv_save.c:226-307 | What is read is added to the tree, present keys excepted; the tree is the one that inserting one by one gives |
| `SaveEngines.SaveHash` | kv_save.c:309-383 | The file is the count and the images of all records, chain by chain |
| `SaveEngines.LoadHash` | kv_save.c:385-466 | What is read is added to the table, each at the front of its chain, present keys excepted |
| `SaveEngines.AddMeans` | kv_save.c:66-146 | Loading keeps the value of a present key; of a new one it takes the first occurrence in the file; nothing else comes in |
| `SaveEngines.RoomMeans` | kv_save.c:66-146 | A full store takes nothing, and one that has room for all of it takes everything |
| `SaveOrders.StoredBack` | kv_save.c:9-146 | Different keys that find room are stored in an empty array in the order of the file |
| `SaveOrders.ChainsTurned` | kv_save.c:309-466 | Loading what was saved into an empty hash table turns every chain around |
| `SaveRoundTrips.ArrayRoundTrip` | kv_save.c:9-146 | Saving and loading into an empty array restores the key-value map and the order of the slots; of a cut file, exactly the complete records, with the code of the cut |
| `SaveRoundTrips.HashRoundTrip` | kv_save.c:309-466 | Saving and loading the hash engine restores the map, every chain turned around; of a cut file, exactly the complete records, with the code of the cut |
| `SaveRoundTrips.RbRoundTrip` | kv_save.c:148-307 | The same for the red-black engine's map, although the order of the nodes in the file is not the key order |

## Left out

- Custom searchers, `item_clone` and `item_free` of the B-tree, and its `uintptr_t` alignment and atomics: items are values, search is the default one, steps are sequential.
- One `Forest` stands for all trees that can share nodes, so for one `max_items`; `rc` does not overflow; a freed address is not handed out again.
- `RbTreeModel.RbTree.InsertFixup` and `RbTreeModel.RbTree.DeleteFixup`: the mirror-image halves of each loop share one body with a side as parameter.
- `RbTreeModel.RbTree.Walk`: the search loop and the descent of insertion are one method, since both walk the same way.
- Allocation outside the B-tree always succeeds, and sizes and counts do not overflow `int` except where a contract says so.
- `HashEngine.HashTable.Set`, and every other call that hashes a key: the keys whose index is outside the table are excluded by a precondition, and so are they in a loaded file and in the records of a pull.
- `Sorting.Qsort`: the C library's `qsort` is not part of the repository; an in-place insertion sort with the same contract stands for it.
- Opening, writing and closing files always succeed, and a NUL that is missing from a buffer reads as some continuation.
- `Framing.Connection.HandleReads`: what the engines answer is left open; one connection is looked at, and sending is not modelled.
- NUL bytes in the text of a remote answer; the timeouts of `select` around it.
- Skip-list save and load, whose writer omits the NUL the reader relies on (kv_save.c:493-494).
- Sockets, the reactor, NtyCo and io_uring front ends, the sample HTTP server, the command dispatch and its response strings, `kvs_*_destroy`, logging, the variants without timestamps, and benchmarks.
