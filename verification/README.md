# Block cache, B+tree, allocator and files of a small file system

This project models the storage core of a FUSE file system written in C and proves what it promises:

- **The write-back block cache** (`cache.c` with `lru.c`, `gdl.c`, `fl.c`, `pci.c`, `dl.c`). A fixed array of slots is indexed five ways: a 32-bucket chained hash index of the resident blocks, a circular ring in order of use, a circular ring of writes, a two-level map of dirty blocks per inode, and a stack of free slots. The classes `Ring`, `Chain`, `HashIndex` and `DirtyMap` are the linked structures on the heap, `Cache` is the cache over them, and every method of `Cache` is proved to do to the heap what a function of `CacheModel` does to a value. `CacheTheorems` and `Recency` then prove, for every run: the cached disk answers like the uncached one; after a sync the disk holds what readers saw; the dirty map names exactly the blocks that an fsync must write, exactly as long as callers write orderly, and `CacheCrash` shows for every cache size that after any other write some run of reads ends in an fsync that leaves the slot array; the ring is the history of use, and what is evicted is the block used longest ago.
- **The B+tree** (`btr.c`). `BTree` is the tree over a store of blocks, with search, insertion through every branch (room, last slot, child split with its cascade, root split), and deletion from a tree of one inner node. Insertion is not right on every tree: after a split the search for the target is repeated, and in a tree out of order it can end at another full node, whose arrays the C then overruns. `BTreeLanding` tells from the tree before the insertion where that second search ends, and `BTree.Insert` succeeds if and only if the node found has room; then it adds exactly one leaf and keeps the tree a tree: equal depth, no sharing, right parents. `BTreeLimits.CrowdedRefuses` is a tree and a key for which it does not. A sorted tree takes every absent key, and its order survives exactly if a condition that a caller can test beforehand holds; `BTreeLimits.AscendingKeys` inserts keys in turn into an empty tree until it does not. `BTreeMap` proves that a tree of one inner node is a finite map, and so is a tree of any height under insertions and searches as long as it takes the keys.
- **Bitmaps, allocation, layout, inodes** (`bitmap.c`, `disk.c`, `superblock.c`, `inode.c`), through the cache: `Bitmap`, `Layout`, `Allocator`, `InodeTable`, `Format`.
- **Bytes of files** (the page loops in `fuse.c`): `File`.
- **Paths** (`string.c`, and how `hash.c` puts names together again): `Paths`.

## How the C is read

- *Pages are values.* In the C, callers edit the page behind the pointer that `get_block` returned, and then pass that pointer to `write_block`; here that is one write of the new contents. The C sometimes edits such a page and never writes it (`disk_format` setting block types, `nbtrfs_write` preparing a new page); these edits are modelled as writes too, which is what they amount to when the cache is compiled out. So is the bit that `inode_allocate` sets in the page before it reads the inode: it stays set when that read fails.
- *Eviction* pops the ring through a copy of the tail pointer, as `cache_sync` does with the ring of writes; the C passes the address of the head's own back link. The block type of an evicted page is read before the page is dropped.
- *Pointers that the C leaves unset* in new list nodes and slots are null, and lists end at null; the counter `dl_index` is not modelled.
- *The ring of writes* gets a node for every write, also of a slot that is on it already, and these duplicates are modelled.
- *Tree nodes are the stored nodes.* The C edits stack copies on some paths of insertion and splitting and does not always write them back; here a node argument names the stored node. In the cascade the new half gets the node that it is hung below as its parent, as on the other path.
- MAX_KEYS is `2 * mid` for any `mid >= 2`, the number of cache slots is any positive number. Blocks per bitmap page (4092), inodes per page (22) and direct blocks per inode (12) are those of the source.
- Checks of the C that are shown to have one outcome are not repeated: the range check in `cache_sync` (`cache.c:165`), the room check after a cascade (`btr.c:749`), the clamp and the fallback on the way down (`btr.c:348-366`), the refill of an emptied root (`btr.c:556`), and failing bit or inode writes right after a successful read (`disk.c:84`, `inode.c:80`, `inode.c:95`). A lookup in `cache_fsync` that yields -1 (`cache.c:131`) ends the method, where the C goes on to index the slots with it.

Where documentation and code differ, the code is followed: the comment on `btree_insert_nonfull` promises the correct position, and the code clamps it to the number of keys; `btr.h` says that a failed search returns -1, and the code returns 0.

## Model

| member | source | states |
|---|---|---|
| Ring.Ring.Push | lru.c:8-32 | a new node at the head of the circular ring, whatever the ring held; all other nodes keep their place and index |
| Ring.Ring.Pop | lru.c:37-76 | removes the given node from wherever it is and returns its index; -1 and no change for null |
| Ring.Ring.Unlink | gdl.c:36-74 | the ring without its k-th node, for the last node, the head and any other node |
| Chain.Chain.Push | fl.c:6-16 | the stack with the value on top |
| Chain.Chain.Pop | fl.c:20-30 | the top value, and the stack without it |
| Chain.Chain.Unlink | pci.c:65-71 | the chain without its i-th link, by its predecessor or as the head |
| HashIndex.HashIndex.Lookup | pci.c:9-28 | the link that holds the key, null exactly if the map has no such key |
| HashIndex.HashIndex.Insert | pci.c:32-42 | the map with the key added |
| HashIndex.HashIndex.Delete | pci.c:46-72 | the map without the key, every other key untouched, in the same bucket and in others |
| DirtyMap.DirtyMap.Lookup | dl.c:51-67 | the entry of an inode, null exactly if it has none |
| DirtyMap.DirtyMap.Insert | dl.c:86-109 | the block is listed under the inode once, others as before |
| DirtyMap.DirtyMap.Delete | dl.c:113-144 | the inode's list is gone, others as before |
| DirtyMap.DirtyMap.RemoveBlock | dl.c:148-183 | the block is not listed under the inode any more, and an inode with no block left has no entry |
| Cache.Cache.constructor | cache.c:216-263 | a new cache shows the disk; all slots are free |
| Cache.Cache.GetBlock | cache.c:16-84 | on a hit, a free slot and an eviction alike: the page that a reader of the block sees, no change to what any reader sees, and the new state of slots, rings, index, lists and disk as `CacheModel.Got` says |
| Cache.Cache.Evict | cache.c:28-48 | the tail of the ring of use leaves, written back and unlisted if dirty, and its slot tops the free stack |
| Cache.Cache.WriteBlock | cache.c:86-115 | readers see the new page in that block and what they saw in all others; new state as `CacheModel.Wrote` says |
| Cache.Cache.Fsync | cache.c:117-150 | reports a failed lookup exactly if a listed block is not resident; otherwise the listed blocks of the inode are on disk, its list is gone, nothing that a reader sees changes |
| Cache.Cache.Sync | cache.c:152-182 | terminates, with the state `CacheModel.Synced` and nothing changed for readers |
| Cache.Cache.SyncOne | cache.c:158-179 | one round: the oldest node of the ring of writes is taken and its slot written back |
| CacheModel.InitialInv | cache.c:216-263 | the invariant holds in a new cache, which shows the disk |
| CacheModel.GotKeepsInv | cache.c:16-84 | get_block keeps the invariant (free stack and ring partition the slots, the index is a bijection between resident blocks and ring slots, dirty slots are on the ring of writes, clean ones equal their disk block) and what readers see |
| CacheModel.WroteKeeps | cache.c:86-115 | write_block keeps the invariant and changes what readers see at that block only |
| CacheModel.SyncedOneKeeps | cache.c:156-180 | each round of a sync keeps the invariant and what readers see, also when the node taken is a stale duplicate |
| CacheTheorems.SyncedIsDurable | cache.c:152-182 | after a sync the disk holds what readers see, no slot is dirty, the ring of writes is empty |
| CacheTheorems.CachedRefinesUncached | cache.c:16-182 | every run of reads, writes, fsyncs and syncs that finishes returns the pages that the build without a cache returns, and readers end up seeing that build's disk |
| CacheTheorems.SyncedRunEqualsUncachedDisk | cache.c:152-182 | after such a run and a sync, the disk itself is that build's disk |
| CacheTheorems.GotKeepsAgreement | cache.c:28-48 | loading and evicting keep the dirty map in agreement: a block is listed under an inode exactly if it is resident, dirty, a data block and owned by that inode |
| CacheTheorems.GotPlace | cache.c:16-84 | where a block goes: its slot on a hit, the top free slot, or the slot of the block used longest ago; only the last writes to the disk, that page if dirty, and takes the newest node of that slot, and no other, off the ring of writes |
| CacheTheorems.WroteRing | cache.c:86-115 | every write puts one node for its slot at the head of the ring of writes and touches neither the disk nor another slot |
| CacheTheorems.SyncedOneRing | cache.c:158-179 | a round of a sync takes the last node of the ring of writes, writes that page to its block and marks that slot clean |
| CacheTheorems.FsyncedOneRing | cache.c:128-147 | for one listed block an fsync takes the newest node of its slot off the ring of writes if the slot is dirty |
| CacheTheorems.FsyncedAllRing | cache.c:128-147 | a whole fsync takes exactly one node from the ring of writes for each dirty slot of a listed block and none for any other slot |
| CacheTheorems.WroteAgreement | cache.c:99-113 | a write keeps that agreement exactly if it names the owning inode for data and does not turn dirty data into something else |
| CacheTheorems.AgreementMakesFsyncSafe | cache.c:128-134 | under agreement fsync only looks up resident blocks |
| CacheTheorems.FsyncWritesExactly | cache.c:117-150 | under agreement fsync writes to disk exactly the dirty data blocks of that inode |
| CacheTheorems.FsyncKeepsAgreement | cache.c:117-150 | fsync keeps the agreement and leaves the lists of other inodes alone |
| CacheTheorems.SyncedKeepsAgreement | cache.c:156-180 | so does sync |
| CacheTheorems.OrderlyRunsFromEmptyCache | cache.c:16-182 | a run in which each block has one owner and one kind never crashes, from an empty cache |
| CacheCrash.SafeExactlyIfOrderly | cache.c:117-150 | for every number of slots and every larger disk: after a write in a state of agreement, all runs of reads, syncs and fsyncs stay inside the slot array if and only if the write names the owner for data and leaves no dirty data without its type; directory.c:80 writes under inode 0 instead, but nothing in the repository calls cache_fsync |
| CacheCrash.DisorderCrashes | cache.c:128-134 | otherwise reads of as many other blocks as there are slots, and then an fsync, index the slots with -1 |
| Recency.RingIsMostRecent | cache.c:65-79 | after any run the ring lists the blocks most recently used, newest first |
| Recency.EvictsLeastRecent | cache.c:28-30 | the block evicted is the one whose last use is longest ago |
| Recency.ResidentUntilDisplaced | cache.c:28-79 | a block is still resident exactly if fewer distinct other blocks than there are slots were used since |
| Recency.ResidentAfterRun | cache.c:16-115 | the same for any run from the empty cache, counted by the accesses that the run made |
| BTree.BTree.AllocPage | disk.c:68-103 | the smallest free block, and 0 without change exactly if none is left |
| BTree.BTree.NodeCreate | btr.c:18-47 | an empty node in a fresh block; none and no change exactly if no block is left |
| BTree.BTree.Search | btr.c:115-149 | terminates by height; not 0 exactly if a leaf below the node has the key, and then the first such leaf from the left |
| BTree.BTree.Find | btr.c:115-149 | from the root: 0 exactly if the key is absent from all leaves of the tree, else the first leaf with it |
| BTree.BTree.FindDepth | btr.c:155-177 | the height of a node by its leftmost path; -1 for an empty one |
| BTree.BTree.FindMaximum | btr.c:238-263 | the key of the last leaf below the node |
| BTreeSearch.MaxIsLargest | btr.c:238-263 | in a sorted tree that is the largest key below the node, and a leaf there has it |
| BTree.BTree.FindPlace | btr.c:276-291 | one past the last child whose maximum is below the key |
| BTreeOrder.PlaceSplits | btr.c:276-291 | every child from that place on reaches the key, and the child before it does not |
| BTree.BTree.InsertNonfull | btr.c:269-316 | the leaf becomes a child at that place, but never behind the number of keys; all other children keep their order, the keys behind the place move up by one; value, type, key, parent and links of every node but the parent of the leaf are as before |
| BTree.BTree.InsertionSearch | btr.c:318-376 | ends at the parent of leaves reached by going to the first child whose maximum reaches the key, or the last child |
| BTreeOrder.TargetIsParent | btr.c:331-371 | in a sorted tree that is the parent of the first leaf that reaches the key, or of the last leaf |
| BTree.BTree.RefreshKeys | btr.c:389-394 | every key of the node is the maximum of its child, and no link changes |
| BTree.BTree.UpdateParentKeys | btr.c:382-398 | the same for the parent of a node, and nothing for a root |
| BTree.BTree.SplitOff | btr.c:686-711 | the upper children of a full node move to a new right sibling with their keys, the middle key goes, the moved children name the new parent; the node links to the new one on its right and is linked back, its left link stays, and nothing else changes |
| BTreeModel.SplitOffIntact | btr.c:686-711 | value, type, key and left link of every stored node stay, and only the right link of the halved node changes, to the new one; the new node has no data of its own |
| BTree.BTree.SplitRoot | btr.c:589-658 | the tree grows by one height, the leaf sequence is the same, the root has the two halves, linked to each other and to nothing else, and the maximum of the left one as key; the halves hold MIN_KEYS and MIN_KEYS - 1 keys; the root keeps its value, type, key and links, and the two new nodes are all the blocks taken |
| BTreeSplits.SplitRootIntact | btr.c:589-658 | value, type, key and links of every node that was stored are as before, the root included |
| BTree.BTree.SplitChild | btr.c:684-767 | through any cascade: the tree is whole, the child and its new half share out the children of the full one and link to each other, the row below is the same sequence (the same blocks, when the caller gives another index), nothing lower changes but parents, the receiving node has right keys; all stored nodes keep value, type and key, and the blocks taken are exactly the new nodes |
| BTree.BTree.MakeRoom | btr.c:728-740 | a full node on the way is split below its own parent, or as the root |
| BTreeSplits.RoomAfterSplit | btr.c:742-749 | after the cascade the parent of the child is one of the two halves and has room |
| BTreeSplits.SplitFinish | btr.c:692-726 | the halved node, its half hung anywhere into the row above, and all below make a tree again |
| BTreeSplits.RootSplit | btr.c:589-658 | the same for a split root |
| BTreeSplits.RowRightAfter | btr.c:719-726 | if the keys in the row above were right before a split, they are after it |
| BTree.BTree.IndexByKeys | btr.c:423-424 | where the keys of the parent stop being below the child's maximum |
| BTreeInsertion.StopsAtChild | btr.c:423-424 | in a sorted tree that is the position of the child |
| BTreeSpread.CascadeSpread | btr.c:728-767 | after a cascade each split node holds the lower or upper children of the old one, with the new half of the child below right behind that child |
| BTreeSpread.RoomSpread | btr.c:719-726 | a parent with room has gained the half at the given position and all nodes higher up are as before |
| BTreeLanding.HalvesSearch | btr.c:331-371 | a search through the halves of split nodes stays on the old way down, or leaves it where the lower half ends below the key |
| BTreeLanding.SecondSearch | btr.c:331-371 | the same from a node above them that was not split, and where the keys of the parent gave another position |
| BTreeLanding.SpreadLands | btr.c:425-431 | for a target that is the root or has a full parent: the second search finds a node with room if and only if that is foretold from the tree before the split |
| BTreeLanding.HungLands | btr.c:420-426 | the same for a target below a parent with room |
| BTree.BTree.SplitFull | btr.c:419-431 | the full target is split below its parent or as the root, and the next search finds room exactly if foretold; a sorted tree stays sorted |
| BTree.BTree.Aim | btr.c:409-432 | the node for the key, after at most one split, and whether it has room or an empty slot for the key at its end, exactly if the tree before takes the key; in a sorted tree it always has, and the key fits there if it fitted before |
| BTreeInsertion.TargetAfterSplit | btr.c:425-431 | the second search of a sorted tree ends in one of the two halves |
| BTreeInsertion.SplitKeepsOrder | btr.c:420-432 | a split keeps a sorted tree sorted and the keys at heights 1 and 2 right |
| BTree.BTree.Insert | btr.c:400-447 | succeeds if and only if the tree before takes the key: the target has room, or an empty last slot for the key, or the node that the search would find after the splits has room; then the tree stays a tree and has exactly the old leaves and the new one. The leaf is fully given and hangs below the node foretold from the tree before; without a split that node gains it at the clamped place; every old node keeps value, type and key, off the way down also its children and keys; the blocks taken are exactly the new nodes. In a sorted tree without the key it always succeeds, the leaf goes to its rank if the key fits and in front of the last leaf if not, and the tree is sorted afterwards exactly if the key fits |
| BTreeLanding.ReceivedNow | btr.c:269-316 | without a split the parent of the new leaf has its old children with the leaf at the clamped place, or in the last slot, and right keys |
| BTreeLimits.CrowdedRefuses | btr.c:293-309 | a tree, of distinct keys, that does not take the key 10: its target is full with the last slot filled, and after the split of target and root the second search ends at another full node |
| BTreeInsertion.PlaceInTree | btr.c:276-295 | where the clamped place is among all leaves |
| BTreeInsertion.HangLeaf | btr.c:293-309 | sorted afterwards exactly if the last slot is empty or the key is below the node's maximum |
| BTreeLimits.AscendingKeys | btr.c:293-295 | for every MAX_KEYS: the keys from 1 on inserted in turn into an empty tree keep it sorted up to MAX_KEYS + 1; the next key lands in front of the last leaf |
| BTree.BTree.RemoveKey | btr.c:516-574 | on a small tree the leaf with the key is unlinked from the root, the other leaves keep their order, and keys are right; the root keeps its other fields, and no other node changes |
| BTree.BTree.Delete | btr.c:576-587 | on a small tree: the leaf with the key goes and exactly its block is freed, the root keeps its value and all else but children and keys, and no other node changes; nothing happens when the key is absent |
| BTreeMap.Run | btr.c:878-904 | any run of insertions of absent keys, searches and deletions answers and ends like the same run on a finite map, and no block leaks |
| BTreeMap.RunTall | btr.c:115-149 | on a tree of any height, sorted or not, any run of insertions of absent keys and searches answers like a finite map up to the first key that the tree does not take, and ends like it if there is none |
| Bitmap.Put | bitmap.c:21-30 | bit i of the page is written and no other: the word i / 64 changes in that bit, every other word is as before; -1 and no change for another page type |
| Bitmap.GetRange | bitmap.c:8-15 | on a bitmap page 1 exactly if bit i % 64 of word i / 64 is set, counted from the low end, else 0; -1 on any other page |
| Bitmap.BitAfterWrite | bitmap.c:14-28 | writing bit k of a word and then reading bit j gives the written value if j = k and the old bit otherwise |
| Bitmap.BitFromLowEnd | bitmap.c:14 | bit k of a word is the one that a shift right by k brings to the low end |
| Bitmap.WordAfterPut | bitmap.c:26-28 | setting bit i of a page ors 1 << (i % 64) into the word i / 64, clearing it masks that bit out; the other words stay |
| Bitmap.GetAfterPut | bitmap.c:8-30 | reading bit j after writing bit i gives the written value if i = j and the old bit otherwise, across all words of a page |
| Layout.BitmapCovers | superblock.c:41-46 | every block of the disk has its bit inside the block bitmap region, and no two share one |
| Layout.BitmapTight | superblock.c:41 | no block of that region is unused |
| Layout.EnoughBlocks | superblock.c:55-63 | from 88 blocks on there is an inode and room behind the reserved regions, and below 88 there is none |
| Layout.InodesPerBlock | superblock.c:41-63 | the table has the most pages that hold no more than one inode for four blocks; both bitmaps have enough pages and none to spare |
| Layout.RegionsInOrder | superblock.c:41-63 | block bitmap, inode bitmap and inode table lie one behind the other from block 1 on, each of its own size |
| Layout.OneGigabyte | superblock.c:41-63 | on 262144 blocks the inode bitmap starts at 66, the table at 83, and 3061 blocks are reserved |
| Layout.InodePlaces | inode.c:16-24 | inode addressing is injective, page after page from the start of the table, and inside the table exactly for the inodes that exist |
| Layout.InodeBitsCover | superblock.c:55-63 | every inode of the table has a bit |
| Allocator.SuperRead | superblock.c:10-16 | the superblock; -1 when block 0 has another type |
| Allocator.SuperWrite | superblock.c:18-25 | the superblock is replaced; -1 and no change when block 0 has another type |
| Allocator.Advance | disk.c:78-83 | the running bitmap position of the scan is the one that free_page computes directly |
| Allocator.AllocPage | disk.c:68-103 | the smallest block with a clear bit, whose bit is then set; 0 and no change when there is none |
| Allocator.FreePage | disk.c:109-128 | the bit of that block is cleared, all else but the counter in the superblock is as before |
| Allocator.MarkedBits | disk.c:83-94 | marking a block changes no other block's bit |
| Allocator.FreeIsWordBit | disk.c:78-94 | a block is free exactly if its bit of its word in its bitmap page, counted from the low end, is 0 |
| Allocator.MarkedCounter | disk.c:91-121 | allocating and releasing alike lower the counter of free blocks by one, modulo 2 to the 64, and change nothing else in the superblock |
| Allocator.Run | disk.c:68-128 | over any run of allocations and releases the set bits are exactly the live blocks, and each allocation gets the lowest block that is not live |
| InodeTable.InodeRead | inode.c:11-34 | the inode at its place; -1 when the block is no inode block |
| InodeTable.InodeWrite | inode.c:36-59 | the inode at its place is replaced and nothing else; -1 and no change when the block is no inode block |
| InodeTable.ReadAfterWrite | inode.c:11-59 | reading inode m after writing inode n gives the written one if m = n and the old one otherwise |
| InodeTable.InodeAllocate | inode.c:61-113 | the first inode with a clear bit is numbered and its bit set; -1 with that bit set and nothing else changed exactly if the place of that inode is in no inode block; -1 and no change exactly if all bits are set |
| InodeTable.FailedCallUsesBit | inode.c:80-89 | after such a failure the bit is not clear any more, all other bits and all inodes are as before |
| InodeTable.InodeFreeIsWordBit | inode.c:61-79 | the same reading of the words for the inode bitmap |
| Format.SuperInitialize | superblock.c:27-52 | the layout fields of a new superblock; -1 and no change for a name of more than 31 characters |
| Format.DiskFormat | disk.c:168-208 | on a zeroed disk of at least 88 blocks: exactly the reserved prefix and the tree root behind it are used, every reserved block has the type of its region, inode 0 is taken and no other |
| Format.StageNext | disk.c:187-192 | the next allocation of the formatting loop takes the next block |
| File.FormattedIsSound | disk.c:168-208 | a formatted disk meets what reading and writing files require, and every file on it is empty |
| File.TakenIsSound | inode.c:80-101 | the allocation of an inode keeps the files disjoint and all their bytes, and gives that inode its own number |
| File.NewFileIsEmpty | inode.c:80-101 | a blank inode is an empty file without holes then, as a write requires |
| File.EnsureBlock | fuse.c:371-385 | the block of a page, the lowest free one, blank and entered in the inode if there was none; of the bitmap exactly that bit changes and the counter goes down by one; no change when the disk is full |
| File.LedgerGrown | fuse.c:371-385 | a page given a block keeps the account of a write: the blocks that were free and are not any more are exactly those that the pages without one have gained, lowest first |
| File.LedgerStored | fuse.c:398-402 | so does the writing of a page |
| File.StoppedShort | fuse.c:371-377 | when a write stops before its end, more of the pages that it touches had no block than there were free blocks |
| File.Grow | fuse.c:373-385 | a newly allocated block belongs to no file yet, and giving it to one keeps all files disjoint |
| File.Stored | fuse.c:398-402 | writing a page of a file changes no page of any other file, nor another page of this one |
| File.ProgressStore | fuse.c:392-407 | one chunk: the bytes written so far are the buffer's, all others are as they were |
| File.Write | fuse.c:359-414 | a file without holes gets the buffer spliced in at the offset, its size is the maximum of the old size and the end of the buffer, other files keep their bytes; it is complete if and only if as many blocks were free as pages that it touches had none, and it takes exactly as many; when blocks run out, the size is as before, the bytes from the offset on are in the blocks of the file as far as was written, and the next page has no block |
| File.Read | fuse.c:275-331 | exactly the bytes from the offset on, clipped to the size; nothing beyond the size; -1 exactly at a hole, so never in a file without holes |
| File.ByteIsStored | fuse.c:311-324 | byte k of a file is byte k % 4092 of the block of page k / 4092 |
| Paths.CountSlashes | string.c:3-12 | the number of slashes; 0 for a path of one character |
| Paths.Split | string.c:53-91 | the n-th longest stretch without a slash, for any path and any n; none if there are fewer |
| Paths.NamesOfAny | string.c:53-91 | the first name of a path is what follows its leading slashes up to the next one, and the others are the names of the rest |
| Paths.ParentPath | string.c:14-42 | everything before the last slash; "/" if that is nothing |
| Paths.GetName | string.c:44-51 | everything behind the last slash |
| Paths.SplitThenGlue | string.c:53-91 | the names of a canonical path are as many as it has slashes, and with a slash before each they are the path |
| Paths.GlueThenSplit | string.c:53-91 | the other way round |
| Paths.LookupStopsAtEnd | hash.c:57-70 | the path that lookup puts together equals the one it looks for after the last name and not before |
| Paths.ParentAndName | string.c:14-51 | parent and name of a canonical path recompose to it |

## Left out

- HashIndex.HashIndex.Insert: requires the key to be absent, as both of its callers insert only after a failed lookup.
- HashIndex.HashIndex.Delete: also serves `dl_delete`, which tolerates an absent key; `pci_delete` does not, and is only called for a resident block.
- DirtyMap.DirtyMap.Insert: the list of one inode is a sequence held in its entry, not a chain of nodes; the entries themselves are objects in a chained hash table.
- BTree.BTree.AllocPage: the blocks in use are a set here; that the bitmap gives the same answers is proved in `Allocator`.
- BTree.BTree.Insert: when the second search ends at a full node, the C shifts children and keys past the ends of their arrays (`btr.c:298-303`) and loses a leaf; here the method stops before that and promises nothing of the tree. It requires as many free blocks as the splits may take, since the C does not check the nodes that it creates for NULL.
- BTree.BTree.Delete: for trees of one inner node with its last slot empty and less than MAX_KEYS entries; deletion from higher trees, borrowing, merging and promoting the root are left out.
- BTreeMap.Run: keys are not 0, since the code takes 0 for an empty key slot, and the disk has blocks for as many leaves as the root takes.
- File.Write: direct blocks only, and no holes before the offset; a single indirect block can take only one entry in the C, and double indirect blocks are not implemented there.
- Format.DiskFormat: the printed sizes, the volume name and the time stamps are not modelled, nor the contents of the page of the tree root: tree nodes are those of `BTree`.
- InodeTable.InodeAllocate: mode, owner and reference count of an inode are not modelled.
- Keys of tree nodes above height 2 are not shown to be maxima: in a cascade the C sets them before the new half is hung in. No search looks at them.
- Widths of integers: block and page numbers are unbounded here, where the C passes some through `int`; the counter of free blocks wraps at 64 bits as in the C.
- The counter of free blocks is not shown to be the number of free blocks, since releasing a block counts it down as well.
- `inode_free`, whose bit offset does not match the one of `inode_allocate`.
- `directory.c` and full path resolution, which rests on names having different hashes.
- `free_cache`, pin counts, wiping of memory, failing memory allocation, and sizing of the cache by installed memory.
- Mapping the disk image, the FUSE callbacks other than the two page loops, printing, and the command line.
