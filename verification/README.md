# LiteMultiKV, modelled and proved in Dafny

LiteMultiKV is a key-value server: four map engines (array, hash table, red-black tree, skip list) behind one read
cache with three policies (LRU, LFU, ARC), a vector index, and a dump that is saved to and loaded from a file. This
project models the algorithms of these parts in the form the source gives them (node objects relinked in loops, arrays
changed in place, a file cursor) and proves what they promise, for all inputs and over whole runs.

`dafny verify dfyconfig.toml` checks everything.

## How it is laid out

| files | part of the system |
|---|---|
| `Strings.dfy`, `Store.dfy` | byte strings under the order of `strcmp`, lists of bindings, the finite map all engines refine |
| `RbShape.dfy`, `RbLayout.dfy`, `RbContents.dfy`, `RbTree.dfy` | the red-black engine: trees seen from a focus, node objects that represent them, bindings, the in-place algorithms |
| `NtyShape.dfy`, `NtyTree.dfy` | the second red-black tree, with null leaves and successor relinking |
| `CacheBag.dfy`, `Lru*.dfy`, `Lfu*.dfy`, `Arc*.dfy`, `CacheManager.dfy` | the policies as state machines and as linked structures, and what they have in common |
| `SkipShape.dfy`, `SkipList.dfy`, `Hash*.dfy`, `ArrayTable.dfy` | the other engines |
| `Engines.dfy`, `Bank.dfy`, `Caches.dfy`, `KvServer.dfy` | owners with footprints around the structures, four engines side by side, three policies side by side, and the dispatch over all of them |
| `Server.dfy`, `Routing.dfy`, `Namespaces.dfy` | the read-through and invalidate protocol, coherence, when clients can notice the cache, clients in namespaces |
| `RdbFormat.dfy`, `Rdb.dfy`, `RdbSave.dfy`, `Persistence.dfy` | the dump: bytes, meaning, the walks that write it, save and load over the real engines |
| `VectorShape.dfy`, `VectorIndex.dfy`, `VectorSearch.dfy` | the vector index |

Keys and values are sequences of non-zero bytes. Randomness becomes a parameter or an arbitrary choice: the skip
list's height and the vector level may be any value in their range. The time stamp in the dump's header is a
parameter. Vector distance is any function into the reals. Commands arrive parsed.

## Model

| member | source | states |
|---|---|---|
| `Strings.StrictTotalOrder` | src/engine/kvs_rbtree.c:371-391 | the byte-wise order of `strcmp` is transitive and leaves exactly one of less, equal, greater |
| `Strings.LessExact` | src/engine/kvs_rbtree.c:371-391 | one string is less than another if and only if it has the smaller byte, read as unsigned, at the first offset where they differ, the terminator counting as zero |
| `Store.Codes` | src/engine/kvs_rbtree.c:559-667 | at the start a Get finds nothing; a Set answers 0 exactly when a Get would find nothing and else 1; Mod, Del and Exist answer 0 exactly when it would find a value and else 1 |
| `Store.ReadsWrite` | src/engine/kvs_rbtree.c:559-667 | after a Set or Mod that answers 0 a Get is answered with its value until a Mod or Del of the key, whatever other commands come |
| `Store.MissesDeleted` | src/engine/kvs_rbtree.c:610-628 | after a Del a Get finds nothing until a Set of the key |
| `Store.OtherKey` | src/engine/kvs_rbtree.c:559-667 | a command changes the reply to no command on another key |
| `Store.NoEffect` | src/engine/kvs_rbtree.c:596-667 | a Get, an Exist and a command that answers 1 change no later reply |
| `RbShape.InsertPassSound` | src/engine/kvs_rbtree.c:101-154 | one pass of the insertion loop keeps the loop invariant (one possible red-red edge, everything else balanced, the same in-order line), counts its rotations and comes closer to the end |
| `RbShape.DeletePassSound` | src/engine/kvs_rbtree.c:226-302 | one pass of the deletion loop keeps "this subtree is one black short, everything else balanced", the in-order line and the count of rotations, and its rank falls |
| `RbShape.SpliceBalance` | src/engine/kvs_rbtree.c:320-360 | splicing out a node with at most one child keeps the balance if it is red and leaves exactly its place one black short if it is black |
| `RbShape.HeightBound` | src/engine/kvs_rbtree.c:371-409 | a balanced tree of n keys with a black root has height at most 2 log2(n + 1) |
| `RbLayout.RotateLeftAt` | src/engine/kvs_rbtree.c:41-68 | rotating node objects left rotates the tree they represent, with every parent link right, at any place in the tree |
| `RbLayout.RotateRightAt` | src/engine/kvs_rbtree.c:70-97 | the mirror image |
| `RbLayout.SpliceAt` | src/engine/kvs_rbtree.c:320-348 | unlinking a node with at most one child removes it from the represented tree; the parent of the child, or of the sentinel, is set for the fixup |
| `RbTree.RbTree.LeftRotate` | src/engine/kvs_rbtree.c:41-68 | the links of every node after the rotation, and one turn more on the rotation counter, which only the two rotations change |
| `RbTree.RbTree.RightRotate` | src/engine/kvs_rbtree.c:70-97 | the mirror image |
| `RbTree.RbTree.InsertFixup` | src/engine/kvs_rbtree.c:99-156 | from one red-red edge to a valid red-black tree with the same in-order nodes and bindings, in at most two rotations |
| `RbTree.RbTree.Insert` | src/engine/kvs_rbtree.c:158-222 | an absent key: a valid tree with the old bindings and the new one; a present key: nothing changes; at most two rotations |
| `RbTree.RbTree.DeleteFixup` | src/engine/kvs_rbtree.c:224-305 | from one subtree a black short, possibly the sentinel with its borrowed parent, to a valid tree with the same nodes and bindings, in at most three rotations |
| `RbTree.RbTree.Successor` | src/engine/kvs_rbtree.c:24-39 | the next node in order, or the sentinel behind the last; with a right subtree it has no left child |
| `RbTree.RbTree.Delete` | src/engine/kvs_rbtree.c:307-369 | every valid tree stays ordered, balanced, with a black root, no red-red edge, right parent links and a black sentinel; exactly the given binding leaves and the returned node carries it; at most three rotations |
| `RbTree.RbTree.Search` | src/engine/kvs_rbtree.c:371-409 | finds the node with the key exactly if there is one, going down exactly as many links as the place it ends at lies deep, so at most 2 log2(n + 1) |
| `RbTree.RbTree.Set` | src/engine/kvs_rbtree.c:559-594 | an absent key gets the value and answers 0, a present one changes nothing and answers 1; the tree stays valid |
| `RbTree.RbTree.Get` | src/engine/kvs_rbtree.c:596-608 | the value a finite map would return |
| `RbTree.RbTree.Del` | src/engine/kvs_rbtree.c:610-628 | exactly the binding of the key goes; 0 if there was one, else 1 |
| `RbTree.RbTree.Mod` | src/engine/kvs_rbtree.c:630-652 | a present key gets the new value and answers 0, an absent one changes nothing and answers 1 |
| `RbTree.RbTree.Exist` | src/engine/kvs_rbtree.c:654-667 | the return code a finite map would give |
| `NtyTree.NtyTree.InsertColor` | NtyCo/core/nty_tree.h:390-431 | the insertion loop on a tree with null leaves ends in a valid red-black tree with the same in-order nodes, in at most two rotations |
| `NtyTree.NtyTree.Insert` | NtyCo/core/nty_tree.h:579-606 | for any comparison that orders its keys, the node enters the in-order sequence at its place, or the node that compares equal is returned and nothing changes; at most two rotations |
| `NtyTree.NumbersOrdered` | NtyCo/core/nty_schedule.c:55-80 | the comparisons of the two trees the library builds are such |
| `NtyTree.NtyTree.RemoveColor` | NtyCo/core/nty_tree.h:433-508 | the removal loop repairs a place one black short, even one that is null and known only by its parent |
| `NtyTree.NtyTree.Relink` | NtyCo/core/nty_tree.h:512-560 | the successor node takes over colour and links of the removed node, and everybody who pointed to the one points to the other |
| `NtyTree.NtyTree.Remove` | NtyCo/core/nty_tree.h:511-576 | the same node objects minus the removed one remain, in the same in-order sequence, as a valid red-black tree; ascending stays ascending; at most three rotations |
| `NtyTree.NtyTree.Next` | NtyCo/core/nty_tree.h:647-666 | the node behind the given one in the in-order sequence, or null |
| `NtyTree.NtyTree.Min` | NtyCo/core/nty_tree.h:690-703 | the first node of the in-order sequence, or null |
| `NtyTree.NtyTree.Walk` | NtyCo/core/nty_tree.h:717-720 | walking from the minimum visits exactly the in-order sequence |
| `LruSpec.StackInclusion` | src/cache/kvs_cache.c:300-344 | replayed with capacities c <= d, the smaller list is a prefix of the larger after every trace, and the larger cache has at least as many hits |
| `LruSpec.InclusionExact` | src/cache/kvs_cache.c:300-344 | for any trace at all, the smaller list is a prefix of the larger throughout if and only if no read finds its key in the larger cache only while nothing is stored behind and the smaller cache is not empty; then hits do not fall |
| `LruSpec.SplitReached` | src/cache/kvs_cache.c:1260-1273 | a trace of three reads at capacities one and two that breaks the inclusion |
| `LruSpec.RecencyOrder` | src/cache/kvs_cache.c:916-945 | after every trace the entries stand in the order of their last add or hit, so the victim is the one used longest ago |
| `LruSpec.AddExact` | src/cache/kvs_cache.c:934-945 | below capacity an add loses nothing, and a full cache loses exactly its last entry |
| `LruSpec.CachedExact` | src/cache/kvs_cache.c:934-945 | after any trace in which stored keys leave the store only by invalidation, a key is cached if and only if it has been among the c most recently used ones ever since its last use, and not been dropped |
| `LruSpec.MostRecent` | src/cache/kvs_cache.c:934-945 | without deletions the cache holds just the c most recently used keys, in that order |
| `LruSpec.DropLeavesGap` | src/cache/kvs_cache.c:1322-1334 | with deletions it may hold fewer: an evicted key does not come back when a later one is deleted |
| `LruList.LruList.Remove` | src/cache/kvs_cache.c:300-313 | the doubly linked list without the node, all links and the size right |
| `LruList.LruList.AddFront` | src/cache/kvs_cache.c:315-328 | the list with the node in front, all links and the size right |
| `LruCache.LruCache.Get` | src/cache/kvs_cache.c:1260-1273 | the linked list does what the list of bindings does: a hit moves to the front, a miss changes nothing |
| `LruCache.LruCache.Add` | src/cache/kvs_cache.c:934-945 | evicts from the tail while full, then adds in front |
| `LruCache.LruCache.Del` | src/cache/kvs_cache.c:1322-1334 | removes the entry of the key; 0 if there was one, -2 if not |
| `LfuHeap.RunOrdered` | src/cache/kvs_cache.c:361-419 | over every run of reads, evictions and harmless deletions the array is a min-heap on the access counts, within its capacity, so the root has the smallest count |
| `LfuHeap.InsertEvicts` | src/cache/kvs_cache.c:946-959 | a full heap that takes a new item loses exactly one, and no item that stays has been used less; all others keep their counts |
| `LfuHeap.InsertKeepsAll` | src/cache/kvs_cache.c:394-402 | below capacity nothing is lost |
| `LfuHeap.RunEvicts` | src/cache/kvs_cache.c:410-419 | over every such run, a read that misses a full cache evicts one item of the smallest count |
| `LfuHeap.HitExact` | src/cache/kvs_cache.c:1275-1289 | a hit counts up its own item and no other |
| `LfuHeap.RunCounts` | src/cache/kvs_cache.c:404-408 | over every run, the count of a cached item is the number of reads of its key since it came in |
| `LfuHeap.DeleteKeepsOrderIff` | src/cache/kvs_cache.c:1336-1353 | deleting slot i keeps the heap exactly if i is the root, the last slot, or the moved item is not smaller than its new parent |
| `LfuHeap.DropUpsets` | src/cache/kvs_cache.c:1342-1346 | a run of nine reads and one deletion after which the array is no heap |
| `LfuHeap.DelHolds` | src/cache/kvs_cache.c:1336-1353 | a deletion removes the binding of its key and permutes the rest, heap or not |
| `LfuCache.LfuCache.HeapifyDown` | src/cache/kvs_cache.c:373-392 | the loop over the 1-based array is the recursive sift-down on the sequence |
| `LfuCache.LfuCache.HeapifyUp` | src/cache/kvs_cache.c:361-371 | the loop is the recursive sift-up |
| `LfuCache.LfuCache.Add` | src/cache/kvs_cache.c:946-959 | evicts the root if full, then appends with count one and sifts up |
| `LfuCache.LfuCache.Get` | src/cache/kvs_cache.c:1275-1289 | counts the hit and sifts the item down |
| `LfuCache.LfuCache.Del` | src/cache/kvs_cache.c:1336-1353 | the last item fills the slot and is sifted down only |
| `Arc.RunInvariant` | src/cache/kvs_cache.c:485-695 | in every run, reads of absent keys included: T1 holds only values, each key has at most one value in T1 and T2, in T2 in front of any valueless copy; target in 0..max, B1 and B2 at most max each, T1 and T2 together at most max plus the ghost hits so far |
| `Arc.BoundReached` | src/cache/kvs_cache.c:520-541 | the bound is tight: one ghost hit takes a cache of one entry to two |
| `Arc.StepWithin` | src/cache/kvs_cache.c:549-630 | exactly when a step leaves T1 and T2 within the capacity: a full cache must not meet a ghost hit, nor a miss that brings a value in while T2 is empty and the target stands at the maximum; an overfull one comes back only when a deletion frees its single surplus entry |
| `Arc.RunWithin` | src/cache/kvs_cache.c:485-630 | over every run, T1 and T2 stay within the capacity throughout if and only if no event is of those two kinds when its turn comes |
| `Arc.MissBursts` | src/cache/kvs_cache.c:600-628 | a run of four events after which a plain miss, no ghost hit, takes a cache of one entry to two |
| `Arc.AccessExact` | src/cache/kvs_cache.c:485-547 | where an access finds the key, in the order T1, T2, B1, B2, and that exactly its first entry there moves to the front of T2 |
| `Arc.TargetExact` | src/cache/kvs_cache.c:508-541 | a hit in B1 raises the target by the ratio of B2 to B1, a hit in B2 lowers it by the ratio of B1 to B2, by one at least and within 0 and the maximum |
| `Arc.AddExact` | src/cache/kvs_cache.c:549-630 | below capacity an add loses nothing; otherwise exactly the last entry goes, of T1 if T1 is longer than the target and else of T2, and the list of ghosts begins with a ghost of that entry's key |
| `Arc.DelExact` | src/cache/kvs_cache.c:652-695 | exactly the first entry of the key goes, from the first of T1, T2, B1, B2 that has one |
| `Arc.GhostOrigin` | src/cache/kvs_cache.c:549-607 | a step gives a ghost to no key but one whose own entry it evicts |
| `Arc.RunGhosts` | src/cache/kvs_cache.c:549-607 | over every run, a key has a ghost only if its own entry was evicted at some step |
| `Arc.GetAnswers` | src/cache/kvs_cache.c:632-650 | a lookup returns a value exactly if one is cached, and that one |
| `Arc.AddKeeps` | src/cache/kvs_cache.c:609-630 | adding after a miss keeps the invariants and caches nothing but the new binding |
| `Arc.DelKeeps` | src/cache/kvs_cache.c:652-695 | after a deletion no value is left under the key |
| `ArcCache.ArcCache.Access` | src/cache/kvs_cache.c:485-547 | four linked lists and the target follow the state machine; the divisors of the ratios are not zero |
| `ArcCache.ArcCache.Evict` | src/cache/kvs_cache.c:549-607 | the last node of T1 or T2 goes, its ghost enters B1 or B2, and the oldest ghosts are dropped |
| `ArcCache.ArcCache.Add` | src/cache/kvs_cache.c:609-630 | as the state machine adds |
| `ArcCache.ArcCache.Get` | src/cache/kvs_cache.c:632-650 | as the state machine answers |
| `ArcCache.ArcCache.Del` | src/cache/kvs_cache.c:652-695 | as the state machine deletes; 0 if any of the four lists knew the key, else -1 |
| `CacheManager.GetLaw` | src/cache/kvs_cache.c:1251-1311 | under each policy a lookup answers exactly from what the policy holds and changes no binding |
| `CacheManager.AddLaw` | src/cache/kvs_cache.c:916-960 | under each policy an add after a miss puts the binding in and invents none; with room nothing is lost, and otherwise one binding at most |
| `CacheManager.DelLaw` | src/cache/kvs_cache.c:1313-1361 | under each policy nothing is left under a deleted key, and the structures of the other policies stay |
| `Caches.CacheHub.constructor` | src/cache/kvs_cache.c:698-716 | three fresh structures of one size, 1000 if none is given, under LRU |
| `Caches.CacheHub.Get` | src/cache/kvs_cache.c:1251-1311 | over the three linked structures together, what the policy rules say |
| `Caches.CacheHub.Add` | src/cache/kvs_cache.c:916-960 | likewise |
| `Caches.CacheHub.Del` | src/cache/kvs_cache.c:1313-1361 | likewise, with the return code of each policy for a key it does not have; the other two structures are untouched |
| `Caches.CacheHub.SetPolicy` | src/cache/kvs_cache.c:1009-1013 | only the current policy changes |
| `Server.HandleLaw` | src/common/kvstore.c:302-375 | from a coherent state an allowed request is answered as without a cache, changes the engines as without a cache, and leaves a coherent state |
| `Server.Transparency` | src/common/kvstore.c:409-477 | in any run, under LRU, LFU or ARC and across safe changes between them, every reply and all engine contents equal those of a server without a cache |
| `Server.HandleCaches` | src/common/kvstore.c:302-375 | a read that finds a value leaves it cached, so that the next one hits; a Del or Mod that succeeds takes out the bindings of its key and no others; every other command leaves the cache alone |
| `Server.FirstSwitch` | src/common/kvstore.c:808-834 | a fresh server may change to any policy at once and is transparent from there on |
| `Server.ReadExact` | src/common/kvstore.c:511-540 | in any state, one read is answered as without a cache if and only if the value cached under its name, if any, is the engine's |
| `Server.PolicySwitchFails` | src/cache/kvs_cache.c:1318-1322 | a change of policy between caching and invalidating brings the old value back |
| `Routing.CoherentExact` | src/common/kvstore.c:302-375 | in any state: no run of commands, each sent to the owner of its key, is answered differently than without a cache if and only if what the current policy holds agrees with the engines |
| `Routing.SwitchExact` | src/cache/kvs_cache.c:1009-1013 | no such run can notice a change of policy if and only if what the new policy has cached agrees with the engines |
| `Routing.ReturnExact` | src/cache/kvs_cache.c:1313-1361 | leaving a policy, running any commands and coming back cannot be noticed if and only if every binding it had cached is what its engine holds after those commands |
| `Routing.SharedKeyFails` | src/common/kvstore.c:310-329 | a name used on any two engines, under any policy and size: the second one is answered with the value of the first |
| `Routing.RoutingExact` | src/common/kvstore.c:302-682 | for any use of keys and engines by the clients, under every policy and size: all runs from a fresh server are answered as without a cache if and only if no key is used on two engines that can both place it |
| `Bank.Bank.Do` | src/common/kvstore.c:278-390 | one command on one of four real engines side by side changes the contents of that engine only, and answers, as the map model says |
| `KvServer.KvServer.Process` | src/common/kvstore.c:237-696 | one request over the real engines and cache structures does what the protocol model says |
| `KvServer.KvServer.Session` | src/common/kvstore.c:613-682 | a whole session over the linked structures: replies and contents of the protocol model, and of a server without a cache whenever the requests are allowed |
| `KvServer.Serve` | src/common/kvstore.c:970-1004 | from a fresh server of any size and policy, every reply of an allowed session is that of a server without a cache |
| `Namespaces.JoinInjective` | src/common/kvstore.c:227-235 | within a namespace, joined keys that fit the buffer determine the key |
| `Namespaces.JoinExact` | src/common/kvstore.c:227-235 | the joined key byte for byte: the key itself in the empty namespace and in `default`, otherwise namespace, colon and key, cut to 255 bytes |
| `Namespaces.CollideExact` | src/common/kvstore.c:227-235 | two namespaces share a joined key if and only if one of them is the default or one goes on behind the other with a colon |
| `Namespaces.PlainUnrelated` | src/common/kvstore.c:229-233 | colon-free namespaces are unrelated unless they are the same |
| `Namespaces.PlainNonInterference` | src/common/kvstore.c:392-696 | without a cache, a client's replies in an interleaved run are those it gets alone |
| `Namespaces.DisturbedExact` | src/common/kvstore.c:227-235 | two clients can never disturb one another if and only if both namespaces have a name and neither goes on behind the other with a colon |
| `Namespaces.NonInterference` | src/common/kvstore.c:392-696 | behind the shared cache and engines, each of two interleaved clients sees the hash, tree and skip replies it would see alone |
| `Namespaces.PrivateServer` | src/common/kvstore.c:392-696 | through its namespace a client gets, command by command as it wrote them, the replies of a server of its own |
| `Namespaces.OwnServer` | src/common/kvstore.c:392-696 | whatever another client does, and behind the shared cache, each client gets the replies of a server without a cache that serves it alone |
| `SkipShape.InsertGood` | src/engine/kvs_skiptable.c:138-157 | linking a node in behind its predecessors on levels 0 to its height keeps every level exactly the nodes that reach it, in order |
| `SkipShape.DeleteGood` | src/engine/kvs_skiptable.c:272-290 | unlinking a node from each level it reaches keeps the same |
| `SkipList.SkipList.Level` | src/engine/kvs_skiptable.c:178-202 | following level l visits exactly the level-0 nodes of height at least l, in order; above the current level there are none |
| `SkipList.SkipList.Set` | src/engine/kvs_skiptable.c:114-158 | an absent key gets the value and answers 0, a present one changes nothing and answers 1; for every height the random choice may give exactly one node of that height comes in, level 0 strictly sorted and every level right |
| `SkipList.SkipList.Get` | src/engine/kvs_skiptable.c:178-202 | the value a finite map would return |
| `SkipList.SkipList.Mod` | src/engine/kvs_skiptable.c:204-243 | a present key gets the new value and answers 0, an absent one changes nothing and answers 1; no link changes |
| `SkipList.SkipList.Del` | src/engine/kvs_skiptable.c:245-293 | exactly the binding of the key goes; 0 if there was one, else 1; `level` shrinks past empty levels |
| `SkipList.SkipList.Exist` | src/engine/kvs_skiptable.c:295-305 | the return code a finite map would give |
| `HashSpec.HashableIff` | src/engine/kvs_hash.c:17-33 | the index lies in the table if and only if the signed character sum is non-negative or a multiple of the table size |
| `HashSpec.IndexExact` | src/engine/kvs_hash.c:17-33 | the slot is the sum of the signed characters modulo 1024 |
| `HashSpec.ByteWithoutSlot` | src/engine/kvs_hash.c:26-32 | the key of the single byte 200 has no slot |
| `HashSpec.AsciiHashable` | src/engine/kvs_hash.c:26-32 | every ASCII key has a slot |
| `HashTable.HashTable.Set` | src/engine/kvs_hash.c:129-156 | an absent key gets the value and answers 0, a present one changes nothing and answers 1; a new key enters the head of its chain, `count` right |
| `HashTable.HashTable.Get` | src/engine/kvs_hash.c:158-180 | the value a finite map would return |
| `HashTable.HashTable.Mod` | src/engine/kvs_hash.c:182-226 | a present key gets the new value and answers 0, an absent one changes nothing and answers 1 |
| `HashTable.HashTable.Del` | src/engine/kvs_hash.c:233-290 | exactly the binding of the key goes; 0 if there was one, else 1; the node is unlinked from the head or the inside of its chain |
| `ArraySpec.FullIff` | src/engine/kvs_array.c:72-103 | as many live bindings as slots means no hole: below capacity the final failure branch cannot be reached |
| `ArraySpec.SetInExact` | src/engine/kvs_array.c:81-99 | a new key goes into the first hole, and to the end only if there is none |
| `ArraySpec.RunExact` | src/engine/kvs_array.c:53-104 | the array answers a run as a finite map does if and only if no Set of it meets a full array |
| `ArraySpec.FullReached` | src/engine/kvs_array.c:53-63 | after 12000 Sets of distinct keys a Set of a key the array holds is answered -1, where the other engines answer 1 |
| `ArrayTable.ArrayTable.Set` | src/engine/kvs_array.c:53-104 | an absent key gets the value and answers 0, a present one changes nothing and answers 1; a full table refuses with -1 |
| `ArrayTable.ArrayTable.Get` | src/engine/kvs_array.c:106-129 | the value a finite map would return |
| `ArrayTable.ArrayTable.Mod` | src/engine/kvs_array.c:165-196 | a present key gets the new value and answers 0, an absent one changes nothing and answers 1; only the slot of the key changes |
| `ArrayTable.ArrayTable.Del` | src/engine/kvs_array.c:131-163 | exactly the binding of the key goes; 0 if there was one, else 1; its slot is a hole, or gone with the holes at the end, and no other slot changes |
| `Engines.TreeEngine.Do` | src/engine/kvs_rbtree.c:559-667 | any command on the tree, as one finite map |
| `Engines.HashEngine.Do` | src/engine/kvs_hash.c:129-301 | any command on the hash table, as one finite map |
| `Engines.SkipEngine.Do` | src/engine/kvs_skiptable.c:114-305 | any command on the skip list, as one finite map |
| `Engines.ArrayEngine.Do` | src/engine/kvs_array.c:53-210 | any command on the array, as one finite map until it is full |
| `Engines.Agree` | src/engine/kvs_array.c:53-210 | on any command sequence, whatever heights are drawn, hash table, tree and skip list give the replies of one finite map, and the array gives the same if and only if no Set meets it full |
| `RdbFormat.ReadTextRound` | src/persist/kvs_rdb.c:33-62 | a written text is read back if and only if its length is 1 to 1048576 |
| `RdbFormat.ReadTextExact` | src/persist/kvs_rdb.c:43-62 | for any bytes: a text is read if and only if its length is 1 to 1048576 and as many bytes follow, up to the first zero byte |
| `RdbFormat.HeaderExact` | src/persist/kvs_rdb.c:83-105 | a file is accepted if and only if it has 17 bytes and begins with KVSDB and version 1 |
| `RdbFormat.Bytewise` | src/persist/kvs_rdb.c:18-81 | the bytes of a header, of a record and of the end mark |
| `RdbFormat.IntExact` | src/persist/kvs_rdb.c:18-22 | an integer is written modulo 2^32, most significant byte first |
| `RdbFormat.EndStops` | src/persist/kvs_rdb.c:280-290 | reading ends at the end mark |
| `RdbFormat.CutRecords` | src/persist/kvs_rdb.c:280-333 | whatever is cut off the end, reading yields exactly the records wholly inside, up to the first unreadable text |
| `RdbFormat.WholeIs` | src/persist/kvs_rdb.c:43-62 | the count of records read is the count of those whose bytes all lie inside |
| `RdbFormat.FileRound` | src/persist/kvs_rdb.c:83-110 | a complete dump is read back record by record if and only if all its texts have an acceptable length |
| `RdbFormat.EmptyStops` | src/persist/kvs_rdb.c:43-52 | a record with an empty key or value is written, and the reader loses it and all that follow |
| `Rdb.LoadAfterSave` | src/persist/kvs_rdb.c:257-338 | loading a dump into empty engines restores all four maps and turns every chain round |
| `Rdb.DumpTags` | src/persist/kvs_rdb.c:13-16 | records of array, hash table, tree and skip list carry 0, 1, 2 and 3 |
| `Rdb.LoadTags` | src/persist/kvs_rdb.c:290-330 | a record is set in the engine of its number, and one of any other number is skipped |
| `Rdb.SecondCycle` | src/persist/kvs_rdb.c:112-227 | for any proper image with the restored maps: the sorted engines list the same bindings in the same order, and the second cycle turns the chains back |
| `Rdb.CutMaps` | src/persist/kvs_rdb.c:280-333 | loading the first w records of a dump into empty engines leaves each engine exactly the bindings of its own section that those records cover |
| `RdbSave.SaveNode` | src/persist/kvs_rdb.c:229-255 | the recursion writes the bindings of a subtree in key order |
| `RdbSave.SaveHash` | src/persist/kvs_rdb.c:146-170 | the loop writes the bindings slot by slot, chain by chain |
| `RdbSave.FileSections` | src/persist/kvs_rdb.c:112-227 | the file is header, four sections and terminator |
| `RdbSave.Reader.TakeText` | src/persist/kvs_rdb.c:43-62 | the file cursor reads a text, or fails, as the parser on bytes does |
| `Persistence.ValidProper` | src/persist/kvs_rdb.c:112-227 | valid engines give a save distinct keys, sorted lists and chains in their own slots |
| `Persistence.Save` | src/persist/kvs_rdb.c:112-227 | the walk over the four linked structures writes exactly the dump of their contents and changes nothing |
| `Persistence.Load` | src/persist/kvs_rdb.c:257-338 | each record read goes through its engine's own set, whatever the engines held; a bad header changes nothing |
| `Persistence.Cycle` | src/persist/kvs_rdb.c:257-338 | saving and loading into fresh engines restores all four maps and mirrors every hash chain |
| `Persistence.TwoCycles` | src/engine/kvs_hash.c:149-151 | two cycles restore the chains, the tree and the skip list exactly, and close the holes of the array |
| `Persistence.CutCycle` | src/persist/kvs_rdb.c:280-333 | loading a saved file cut anywhere behind the header restores exactly the records whose bytes lie wholly inside: each of the four maps is that of the part of its section they cover |
| `VectorIndex.VectorIndex.Insert` | src/engine/kvs_vector.c:360-447 | for every distance function and level, on each level it shares with the first node the new node goes where the walk of strictly falling distances stops, the other levels stay, and every level stays one finite chain |
| `VectorIndex.VectorIndex.Walk` | src/engine/kvs_vector.c:387-431 | following level l from node 0 ends and visits each node of level at least l exactly once |
| `VectorIndex.VectorIndex.Set` | src/engine/kvs_vector.c:508-571 | the key's old live node gives way to the new one; at most one live node per key |
| `VectorIndex.VectorIndex.Get` | src/engine/kvs_vector.c:573-601 | the live node of the key, or none exactly if there is none |
| `VectorIndex.VectorIndex.Del` | src/engine/kvs_vector.c:648-671 | exactly the live node of the key goes; -2 if there was none |
| `VectorIndex.VectorIndex.Count` | src/engine/kvs_vector.c:690-696 | the number of live keys |
| `VectorSearch.Sort` | src/engine/kvs_vector.c:333-347 | the exchange sort orders the distances and permutes nodes and distances together |
| `VectorSearch.Gather` | src/engine/kvs_vector.c:307-331 | collects the live nodes other than the current one, up to the search width |
| `VectorSearch.DescendLevel` | src/engine/kvs_vector.c:268-300 | the greedy walk along a level ends on a live node no farther than its start, whose next node is none, deleted or no nearer |
| `VectorSearch.Search` | src/engine/kvs_vector.c:257-356 | with at most EF_SEARCH live nodes the result is the exact k nearest of all live nodes, ascending, whatever node the descent ends on |

## Findings

What the source does not keep to, each with a concrete case and the exact condition under which it does.

- The cache is keyed by name only and shared by all engines, so a name used on two engines is answered with the wrong
  value (`Routing.SharedKeyFails`). `Routing.RoutingExact` says which uses of keys and engines are safe: exactly those
  in which no key is used on two engines that can both place it.
- Invalidation touches only the current policy's structure, so changing policy, writing and changing back brings old
  values back (`Server.PolicySwitchFails`). Replies stay right after a change exactly when the new structure holds
  nothing stale (`Routing.SwitchExact`, `Routing.ReturnExact`), so a first change on a fresh server is always safe
  (`Server.FirstSwitch`).
- An LFU deletion sifts down only and can leave an array that is no heap (`LfuHeap.DropUpsets`); the exact condition is
  `LfuHeap.DeleteKeepsOrderIff`. Lookups and coherence do not depend on it (`CacheManager.GetLaw`).
- ARC's T1 and T2 outgrow the capacity: on a ghost hit, which moves a node without a value into T2 and evicts nothing
  (`Arc.BoundReached`), and on a plain miss when T2 is empty and the target stands at the maximum, because eviction then
  finds nothing to evict (`Arc.MissBursts`). `Arc.StepWithin` and `Arc.RunWithin` say that these are the only two cases
  and that reads never bring an overfull cache back; the surplus is at most one per ghost hit (`Arc.RunInvariant`).
- A read that hits only the larger of two LRU caches, with nothing stored behind them, breaks stack inclusion
  (`LruSpec.SplitReached`); `LruSpec.InclusionExact` is the exact condition. Runs in which a stored key leaves the store
  only by an invalidation never do that (`LruSpec.StackInclusion`).
- A key with bytes above 127 can have a negative character sum and then no slot in the hash table
  (`HashSpec.ByteWithoutSlot`, exactly `HashSpec.HashableIff`); ASCII keys always have one.
- Empty texts are written to the dump but rejected when read, and loading stops there (`RdbFormat.EmptyStops`):
  `RdbFormat.FileRound` gives the exact condition, `RdbFormat.CutRecords` what is read otherwise.
- A colon inside a namespace lets two namespaces reach one key, and the default namespace reaches the keys of all
  others; `Namespaces.CollideExact` and `Namespaces.DisturbedExact` say exactly when.
- A full array refuses every set, even of a key it holds, with -1 where the other engines answer 1
  (`ArraySpec.FullReached`); its replies are those of a finite map exactly when no set meets it full
  (`ArraySpec.RunExact`).

## Left out

- Sockets, epoll and io_uring servers, clients, benchmarks: input and output over libraries outside this repository.
- The coroutine scheduler and its queues; the splay macros, which nothing uses; `RB_FIND`, `RB_NFIND`, `RB_PREV` and
  `rbtree_maxi`, which would only repeat what is there.
- The policy recommendation, time windows, hit statistics and their text: floating-point heuristics over the wall clock.
- Tokenising, command names, response texts and response buffer lengths; the vector and persistence commands of the
  dispatch.
- Allocation failure, freeing and use after free: allocation succeeds and nodes that leave a structure are just not
  referred to any more.
- The background save, file names, renaming and the time of the last save; write errors.
- Overflow of 32-bit counters (sizes, access counts); the lengths and integers of the dump format are 32-bit.
- Float rounding, vector parsing and dimensions.
- NtyTree.NtyTree.Insert: what the comparison function compares is numbered, one integer per value.
- LruSpec.StackInclusion: for traces in which a stored key stops being stored only by an invalidation, as the dispatch
  ensures while each key keeps to one engine; `LruSpec.InclusionExact` covers all traces.
- LfuHeap.RunOrdered: deletions are admitted when they are harmless, which is exact for each deletion.
- Engines.HashEngine.Do: keys without a slot are excluded, because the source then indexes outside its table.
- Engines.Agree: hash commands need a key with a slot, for the same reason.
- KvServer.Serve: hash commands need a key with a slot, for the same reason.
- Persistence.Load: hash records need a key with a slot, for the same reason.
- Namespaces.NonInterference: array commands are excluded, because all clients share the array's capacity.
- VectorSearch.Search: with more than EF_SEARCH live nodes only an ascending choice of live nodes is promised, as the
  source then ranks the first ones it meets.
