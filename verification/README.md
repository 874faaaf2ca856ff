# Proofs about the kernel's data structures and protocols

A Dafny model of the stateful core of the kernel, and proofs of what it promises. `dafny verify dfyconfig.toml`
checks everything. Code that changes memory in place is a class whose methods are proved against a value
(a shape, a store, a map, a sequence); the properties are lemmas about that value and invariants of the class.

| files | what they model |
|---|---|
| RedBlackShape, RbLinks, RbTree | the red-black tree with parent links and sentinel: insertion, removal, searches |
| BitMap, MinixStore, MinixVolume | the Minix zone map and the block map through direct, indirect and double indirect blocks |
| MinixFile, MinixInode, MinixRelease, MinixTruncate | reading, writing and truncating files byte by byte |
| BuddyBuckets, BuddyPool, FixedPool | the dynamic and the fixed buddy pool, and the capacity searches |
| Bytes, Package, Ipv4Header, Ipv4Fragments, Ipv4 | packets of chained blocks; IPv4 headers, fragmentation and reassembly |
| DeltaList, SoftTimer | the delta list of timers |
| BufferCache | the write-back cache of disk pages |
| TaskQueues, Scheduler | the scheduler with sleep and clock tick |
| LockSteps, LockRuns, Ipc | mutexes, recursive mutexes and semaphores over it: single steps, any run of them, and the code |
| MsgQueue | the bounded message queue, every statement of every thread a step of its own |
| Paging | the two-level page table and the scatter list |
| Calendar | seconds and calendar fields |
| LinkedList | the intrusive doubly linked list |
| Sequences | sequences without duplicates |

Where the code does less than one would expect, the model does what the code does, and the exact condition is proved:

- Removing a black leaf leaves a red-black tree unbalanced, because the fix-up returns at once on the sentinel
  (`BlackLeafUnbalances`, `RemovalBalance`, and the last clause of `Remove`).
- When the blocks run out while a pointer block is missing, `inode_get_block` stores the error code of the
  allocation as a block number (`FetchedSound` says exactly when, `OutOfBlocks` is an input). `minix_dblk_alloc` also returns -2, which its
  comment does not mention.
- `sbrk` can leave equal free buckets side by side (`Expand`, `TwinRegion`).
- An allocation loses the last byte of the bucket it takes exactly if that bucket is odd and is halved, and it takes
  at least twice what is needed exactly if the odd part of half the bucket is still as large as that
  (`Pool.Alloc`, `OddRegion`).
- The fixed pool walks a tree ordered by capacity as if it were ordered by address. It loses the bucket freed exactly if
  this walk does not find the buddy (`Fixed.Free`): because it is in use (`HalfLost`), or because of where it is on the
  tree (`WalkAgrees`, `SameSizeFound`, `BuddyMissed`, `AlwaysMissed`).
- `ipv4_frag_out` overwrites the destination with the gateway of the route and goes on with it: from the second
  fragment on, headers are addressed to the gateway (`SentKept`, `GatewayTakesOver`), and the datagram can be put
  together at its destination exactly if that does not happen (`RoundTrip`).
- Fragments whose payload is not a multiple of eight bytes are never put together again (`FragmentsTrain`, `NeverArrived`).
- A packet header spread over three blocks is not gathered correctly (`IntegratedContent`, `ThreeBlocks`).
- A sleep of more than 2^32 - 10 milliseconds ends at once (`SleepTicks`).
- `scatter_list_map` takes the physical address 0 for a missing translation (`Map`, `FrameZeroRefused`).
- From 2070 on `localtime` gives a year `mktime` takes for one a century earlier (`RoundTrip`).

## Model

| member | source | states |
|---|---|---|
| RbTree.Tree.constructor | source/kernel/tools/rb_tree.c:4-21 | an empty tree with its own black sentinel satisfies the invariant: consistent links, sorted, counted |
| RbTree.Tree.LeftRotate | source/kernel/tools/rb_tree.c:24-55 | the pointer writes turn the tree into the rotated one, all other nodes linked as before; the order is the same |
| RbTree.Tree.RightRotate | source/kernel/tools/rb_tree.c:58-89 | the mirror image |
| RedBlackShape.RotateInorder | source/kernel/tools/rb_tree.c:24-89 | a rotation at any place of any tree keeps the in-order sequence |
| RedBlackShape.RedBlackPlug | source/kernel/tools/rb_tree.c:92-154 | a tree is red-black exactly if the subtree at a hole fits the colours and black heights around it |
| RedBlackShape.RecoloredFits | source/kernel/tools/rb_tree.c:101-108 | with a red uncle: the only possible fault moves two levels up |
| RedBlackShape.InnerFits | source/kernel/tools/rb_tree.c:111-116 | the first rotation keeps the fault where it is |
| RedBlackShape.OuterFits | source/kernel/tools/rb_tree.c:117-120 | the second rotation and the recolouring remove the fault |
| RedBlackShape.RedSentinelUnbalances | source/kernel/tools/rb_tree.c:101-108 | a red sentinel taken for a red uncle would break the balance, so the sentinel must be black |
| RbTree.Tree.InsertFixup | source/kernel/tools/rb_tree.c:92-154 | terminates; keeps the order and the links; from one possible red-red fault to a red-black tree, sentinel black |
| RbTree.Tree.FindPlace | source/kernel/tools/rb_tree.c:169-181 | the descent ends at the empty place that splits the order at the key, equal keys before it |
| RedBlackShape.AttachedInorder | source/kernel/tools/rb_tree.c:183-200 | a leaf in that place extends the sorted order by exactly that entry |
| RbTree.Tree.Insert | source/kernel/tools/rb_tree.c:157-202 | the order grows by the new node, put behind all nodes with keys not greater; count, links and sortedness are kept; a red-black tree stays one |
| RedBlackShape.BlackHeightBounds | source/kernel/tools/rb_tree.c:92-202 | a balanced tree has at least 2^b - 1 nodes and height at most 2b, b being its black height |
| RedBlackShape.RedBlackHeight | source/kernel/tools/rb_tree.c:92-202 | 2^height is at most (n + 1)^2 in every red-black tree |
| RbTree.Tree.HeightBound | source/kernel/tools/rb_tree.c:92-202 | the same of the tree in memory and its count: height at most 2 log2(n + 1) |
| RbTree.InsertOnly | source/kernel/tools/rb_tree.c:92-202 | any number of insertions into a new tree: red-black, in order, of exactly these nodes, and at most 2 log2(n + 1) high |
| RbLinks.LinkPlug | source/kernel/tools/rb_tree.c:24-89 | what the links of a node are, seen from a hole in the tree |
| RbTree.Tree.Rewired | source/kernel/tools/rb_tree.c:24-89 | links written as the new shape says make the tree in memory that shape |
| RbTree.Tree.FindBy | source/kernel/tools/rb_tree.c:428-451 | a node with the key if there is one, else the sentinel |
| RbTree.Tree.FindFirstGreaterOrEqual | source/kernel/tools/rb_tree.c:454-472 | the first node of the order whose key is not less, the sentinel if all are less |
| RbTree.Tree.FindFirstLessOrEqual | source/kernel/tools/rb_tree.c:475-493 | the last node of the order whose key is not greater, the sentinel if all are greater |
| RbTree.Tree.Splice | source/kernel/tools/rb_tree.c:292-325 | a node with at most one child is replaced by that child in the whole linked structure |
| RbTree.Tree.SwapIn | source/kernel/tools/rb_tree.c:357-373 | the successor takes over links and colour of the removed node |
| RbTree.Tree.SwapInChild | source/kernel/tools/rb_tree.c:335-338 | the same when the successor is the right child |
| RbTree.Tree.Unlink | source/kernel/tools/rb_tree.c:279-373 | after the relinking the tree has the gap the removal leaves, and the fix-up starts there |
| RedBlackShape.RemovalInorder | source/kernel/tools/rb_tree.c:279-373 | whichever of the three ways is taken, exactly the removed entry leaves the order |
| RedBlackShape.RemovalBalance | source/kernel/tools/rb_tree.c:205-382 | from a red-black tree: balanced again after the fix-up exactly if the spliced node was red, its replacement was a node, or nothing is left |
| RedBlackShape.BlackLeafUnbalances | source/kernel/tools/rb_tree.c:207-208 | a three-node tree from which removing a black leaf leaves an unbalanced tree |
| RedBlackShape.RemovalDone | source/kernel/tools/rb_tree.c:205-382 | the condition as one can check it before the call |
| RbTree.Tree.DeleteFixup | source/kernel/tools/rb_tree.c:205-276 | terminates on every tree, whatever the colours, and keeps order and links |
| RbTree.Tree.Remove | source/kernel/tools/rb_tree.c:279-382 | exactly the given node leaves the order; links, sortedness and count are kept on every tree; a red-black tree stays one exactly under that condition |
| RbTree.AnyRun | source/kernel/tools/rb_tree.c:157-382 | any run of insertions and removals: the links stay consistent and the tree holds exactly the nodes put in and not taken out, in order |
| BitMap.BitSet | source/kernel/fs/minix/minix_misc.c:57-57 | setting a bit through its mask changes that bit of the map and no other |
| BitMap.BitClear | source/kernel/fs/minix/minix_misc.c:99-110 | clearing likewise |
| MinixVolume.Volume.AllocBlock | source/kernel/fs/minix/minix_misc.c:18-67 | the lowest free block, marked and zeroed, everything else unchanged; an error exactly if no block is free |
| MinixVolume.Volume.FreeBlock | source/kernel/fs/minix/minix_misc.c:76-112 | clears the mark of exactly that block; an error exactly if it had none |
| MinixStore.MarkSound | source/kernel/fs/minix/minix_misc.c:57-60 | marking a free block keeps the volume sound and every reference as it was |
| MinixStore.PutSound | source/kernel/fs/minix/minix_misc.c:121-131 | hanging a spare block into an empty slot adds that reference and no other, through both levels of pointer blocks |
| MinixStore.DropSound | source/kernel/fs/minix/minix_inode.c:462-495 | emptying a slot with nothing below removes that reference and no other |
| MinixStore.FillSound | source/kernel/fs/minix/minix_inode.c:372-373 | writing a data block changes no reference: no data block is a pointer block |
| MinixStore.HangSound | source/kernel/fs/minix/minix_misc.c:125-131 | allocating and hanging keeps soundness, and every mapped file block with its contents |
| MinixVolume.Volume.HandleDirect | source/kernel/fs/minix/minix_misc.c:114-133 | for a direct block: a mapped one is returned and nothing changes; a hole answers -1, or with create gets a fresh zeroed block, mapped there and nowhere else |
| MinixVolume.Volume.HandleIndirect | source/kernel/fs/minix/minix_misc.c:136-172 | the same through the pointer block of zone 7, which create supplies too; one free block for both leaves the pointer block alone, none corrupts the volume |
| MinixVolume.Volume.HandleDoubleIndirect | source/kernel/fs/minix/minix_misc.c:175-233 | the same through both levels of pointer blocks of zone 8, each of which create supplies when missing |
| MinixVolume.Volume.GetBlock | source/kernel/fs/minix/minix_misc.c:240-259 | an existing block is returned and nothing changes; else, with create, a fresh zeroed block is mapped there and nowhere else if more blocks are free than pointer blocks are missing; with exactly as many only pointer blocks come; with fewer the volume is corrupted |
| MinixStore.FetchedBelow | source/kernel/fs/minix/minix_misc.c:143-149 | one missing pointer block costs one more free block |
| MinixStore.FetchedSound | source/kernel/fs/minix/minix_misc.c:143-149 | the volume stays sound exactly if there is a free block for every missing pointer block, and a block is got exactly if there is one more |
| MinixVolume.OutOfBlocks | source/kernel/fs/minix/minix_misc.c:143-149 | a volume with one free block, which the first call takes and the second, through a missing pointer block, corrupts |
| MinixStore.StepKeeps | source/kernel/fs/minix/minix_misc.c:240-259 | one call with enough free blocks keeps every mapping and its contents |
| MinixStore.RunKeeps | source/kernel/fs/minix/minix_misc.c:240-259 | over any run of calls on any inodes, given enough free blocks: sound throughout, and nothing mapped ever moves or changes |
| MinixStore.RunDistinct | source/kernel/fs/minix/minix_misc.c:240-259 | over such a run two calls give the same block exactly if they ask for the same file block |
| MinixFile.BlockWritten | source/kernel/fs/minix/minix_inode.c:343-380 | writing part of one block changes exactly those bytes of that file; a block newly mapped is zero elsewhere |
| MinixFile.WrittenTwice | source/kernel/fs/minix/minix_inode.c:343-388 | two adjoining writes are one write of both |
| MinixInode.Read | source/kernel/fs/minix/minix_inode.c:240-312 | the bytes of the file from the offset on, up to the size, the buffer or the first hole; nothing changes |
| MinixInode.Write | source/kernel/fs/minix/minix_inode.c:322-393 | exactly the range written holds the new bytes; every other byte of every file is as before, new blocks being zero; size is the maximum; short only when the volume is full |
| MinixFile.ReadBack | source/kernel/fs/minix/minix_inode.c:240-393 | reading a range just written returns exactly the bytes written, across direct and indirect blocks |
| MinixRelease.DropShed | source/kernel/fs/minix/minix_inode.c:459-556 | one slot emptied and its block freed: nothing else changes |
| MinixRelease.ShedTwice | source/kernel/fs/minix/minix_inode.c:450-557 | such steps add up: a block is freed exactly if its slot has been emptied, so once |
| MinixRelease.ShedKeeps | source/kernel/fs/minix/minix_inode.c:446-557 | file blocks outside the range keep their blocks |
| MinixRelease.PrunedMore | source/kernel/fs/minix/minix_inode.c:497-556 | which pointer blocks have gone, from one round to the next: exactly those behind which a block was released and none is left |
| MinixTruncate.ReleaseBlock | source/kernel/fs/minix/minix_inode.c:450-557 | one round: the file block is gone, its block free, pointer blocks freed only when empty |
| MinixTruncate.Truncate | source/kernel/fs/minix/minix_inode.c:401-566 | shrinking unmaps exactly the blocks from the new end to the old and frees exactly what it unmaps; a pointer block below zone 8, and that in it, goes exactly if a block released was behind it and nothing is left behind it, that in zone 7 never; growing maps zero blocks and changes no other byte |
| BuddyBuckets.SplitTiles | source/kernel/mem/buddy_system.c:491-509 | halving keeps the tiling, but for the last byte of a bucket of odd capacity |
| BuddyBuckets.JoinTiles | source/kernel/mem/buddy_system.c:557-566 | joining two touching buckets of one capacity keeps the tiling |
| BuddyBuckets.AddTiles | source/kernel/mem/buddy_system.c:586-599 | a new region keeps the tiling |
| BuddyPool.AppendedLists | source/kernel/mem/buddy_system.c:453-470 | a bucket appended to its zone: the zones list exactly the free buckets |
| BuddyPool.TakenLists | source/kernel/mem/buddy_system.c:486-489 | a bucket taken out of its zone likewise |
| BuddyPool.NoTwinsAdded | source/kernel/mem/buddy_system.c:574-580 | when adding a free bucket leaves no two free twins side by side |
| BuddyPool.Pool.GetBuddy | source/kernel/mem/buddy_system.c:234-259 | a free twin of the bucket exactly if there is one |
| BuddyPool.Pool.SplitDown | source/kernel/mem/buddy_system.c:491-509 | a byte is lost exactly if the bucket is odd and gets halved at all, and then its last; halved once more the result is below the size exactly if the odd part of half the capacity is; no twins come about |
| BuddyPool.Pool.Alloc | source/kernel/mem/buddy_system.c:472-526 | fails exactly if no free bucket is large enough; else the front of the first bucket of the least capacity that is; exactly when a byte is lost, and exactly when the fit is within a factor of two; tiling, zones and absence of twins kept |
| BuddyPool.OddPartOfPower | source/kernel/mem/buddy_system.c:491-509 | for a power of two the odd part is at most one, so that its fit is always within a factor of two |
| BuddyPool.OddRegion | source/kernel/mem/buddy_system.c:472-526 | a region of 13 bytes from which an allocation loses one, and one of 14 all of which is handed out for a single byte |
| BuddyPool.Pool.JoinUp | source/kernel/mem/buddy_system.c:538-572 | terminates, and no free twin of the bucket is left |
| BuddyPool.Pool.Free | source/kernel/mem/buddy_system.c:528-580 | that bucket leaves use and no other; tiling, zones and absence of twins kept |
| BuddyPool.Pool.Expand | source/kernel/mem/buddy_system.c:586-599 | the region is managed from now on; free twins are left exactly if there were some or the region touches a free bucket of its capacity; even capacities and powers of two stay so |
| BuddyPool.TwinRegion | source/kernel/mem/buddy_system.c:586-599 | a region right behind a free bucket of its size: twins are left |
| BuddyPool.Pool.constructor | source/kernel/mem/buddy_system.c:423-449 | one free bucket tiles the region |
| BuddyPool.TwoToPower | source/kernel/mem/buddy_system.c:11-16 | the table holds powers of two |
| BuddyPool.FindGreaterOrEqual | source/kernel/mem/buddy_system.c:18-29 | the least power of two in the table not below; 0 exactly if there is none |
| BuddyPool.FindLessOrEqual | source/kernel/mem/buddy_system.c:31-42 | the greatest power of two in the table not above; 0 exactly for 0 |
| FixedPool.HalvesAligned | source/kernel/mem/buddy_system.c:345-358 | halves of an aligned bucket are aligned |
| FixedPool.BuddyAligned | source/kernel/mem/buddy_system.c:204-217 | the buddy is the twin with which the bucket joins to an aligned one |
| FixedPool.Fixed.GetBuddy | source/kernel/mem/buddy_system.c:204-233 | the buddy exactly if the walk by address finds it |
| FixedPool.WalkAgrees | source/kernel/mem/buddy_system.c:219-230 | the walk finds a bucket of the tree exactly if all buckets above it are on the same side of it by address as in the tree |
| FixedPool.SameSizeFound | source/kernel/mem/buddy_system.c:219-230 | it finds every free bucket if all are of one capacity |
| FixedPool.BuddyMissed | source/kernel/mem/buddy_system.c:219-230 | the red-black tree of a pool of 128 bytes after three allocations and two calls of free, with a free buddy that it misses |
| FixedPool.AlwaysMissed | source/kernel/mem/buddy_system.c:219-230 | it misses that buddy in every red-black tree of the same buckets |
| FixedPool.HalfLost | source/kernel/mem/buddy_system.c:374-387 | a pool of 16 bytes, both halves handed out, the first freed: its 8 bytes are in no bucket any more |
| FixedPool.Fixed.Alloc | source/kernel/mem/buddy_system.c:328-369 | fails exactly if no free bucket is large enough; else the front of the first one in the order of capacity and address, cut down to an aligned power of two less than twice the size; the buckets cut off are large enough for the request too; no overlap |
| FixedPool.Fixed.Free | source/kernel/mem/buddy_system.c:374-421 | buckets stay apart and aligned; the bytes stay with the pool exactly if the walk on the tree as it is before the call finds the buddy, and then a free bucket covers both; else the bucket is lost and the tree as it was |
| Package.SliceAt | source/kernel/net/net_tools/package.c:731-735 | bytes of one block as bytes of the packet |
| Package.StoreAt | source/kernel/net/net_tools/package.c:670-674 | bytes stored in one block as bytes overwritten in the packet |
| Package.Pkg.constructor | source/kernel/net/net_tools/package.c:102-141 | a packet of that many zero bytes, cursor at the start |
| Package.Pkg.Lseek | source/kernel/net/net_tools/package.c:806-850 | the cursor stands at the position; an error exactly outside the packet |
| Package.Pkg.Read | source/kernel/net/net_tools/package.c:697-755 | the next bytes of the packet, up to its end, whatever the blocks; the packet is unchanged |
| Package.Pkg.Write | source/kernel/net/net_tools/package.c:635-695 | exactly the next bytes are overwritten, up to the end of the packet |
| Package.Pkg.Memcpy | source/kernel/net/net_tools/package.c:852-872 | the asked range of one packet, as far as both packets reach, comes to stand in the other, an offset outside a packet leaving its cursor where it is; every other byte of both is unchanged; an error exactly for a length of no bytes |
| Package.Pkg.Join | source/kernel/net/net_tools/package.c:591-633 | the bytes of one packet behind those of the other; its cursor is good for what follows exactly if it was not past the end or nothing was added |
| Package.Pkg.ShrinkFront | source/kernel/net/net_tools/package.c:374-396 | an error exactly for more bytes than the packet has, which then is unchanged; else the packet without its first bytes, the cursor at the front |
| Package.IntegratedContent | source/kernel/net/net_tools/package.c:499-542 | the bytes are the same exactly if two blocks hold the header; else the block list grows bytes |
| Package.ThreeBlocks | source/kernel/net/net_tools/package.c:499-542 | a header over three blocks, for which the packet grows |
| Package.Pkg.IntegrateHeader | source/kernel/net/net_tools/package.c:473-548 | the packet is unchanged and its header in one block exactly if two blocks hold it |
| Ipv4Header.DecodeEncode | source/kernel/net/ipv4.c:446-500 | unpacking a packed header gives it back, the offset in bytes instead of units of eight |
| Ipv4Header.EncodeDecode | source/kernel/net/ipv4.c:446-500 | packing an unpacked header gives back all 20 bytes |
| Ipv4.FragOut | source/kernel/net/ipv4.c:294-399 | what is sent, and to whom: the fragments up to one without a route, each to where the gateways of the ones before have led; an error exactly for a missing route or an MTU that leaves no room |
| Ipv4Fragments.SentIs | source/kernel/net/ipv4.c:360-383 | the k-th packet sent is the k-th fragment of the datagram, addressed to where k gateways have led |
| Ipv4Fragments.SentKept | source/kernel/net/ipv4.c:369-383 | what is sent is the whole datagram to its destination exactly if there is a route and it has no gateway but the destination, or one fragment does |
| Ipv4Fragments.GatewayTakesOver | source/kernel/net/ipv4.c:380-383 | two fragments through a gateway, the second addressed to the gateway |
| Ipv4Fragments.FragmentReads | source/kernel/net/ipv4.c:305-359 | what a receiver reads off every fragment: offset, length, and whether more follow |
| Ipv4Fragments.FragmentsTrain | source/kernel/net/ipv4.c:305-359 | each fragment is followed by the next in the eyes of the receiver exactly if full fragments carry a multiple of eight bytes |
| Ipv4.FragList.Insert | source/kernel/net/ipv4.c:688-720 | the list is the one with the packet put in by offset, an offset already there being left out |
| Ipv4Fragments.InsertedSorted | source/kernel/net/ipv4.c:700-717 | inserting keeps the offsets strictly rising |
| Ipv4Fragments.InsertedElements | source/kernel/net/ipv4.c:700-717 | and adds exactly the packet, if its offset is new |
| Ipv4.FragList.IsAllArrived | source/kernel/net/ipv4.c:721-784 | says whether the list is a chain from offset 0 to a last fragment |
| Ipv4Fragments.CollectedAre | source/kernel/net/ipv4.c:688-720 | after arrivals in any order and with any repetitions the list is sorted and holds exactly what has come in |
| Ipv4Fragments.Reassembly | source/kernel/net/ipv4.c:688-784 | all fragments count as arrived exactly when every one has, and then the list is all of them in order |
| Ipv4Fragments.NeverArrived | source/kernel/net/ipv4.c:721-784 | with full fragments not a multiple of eight bytes no collection of fragments ever counts as complete |
| Ipv4.JoinPackets | source/kernel/net/ipv4.c:786-807 | the first packet followed by the payloads of the others |
| Ipv4Fragments.JoinedIs | source/kernel/net/ipv4.c:786-807 | the fragments joined are the first header and the whole payload |
| Ipv4Fragments.PutTogether | source/kernel/net/ipv4.c:688-807 | fragments in any order and with any repetitions: complete exactly with the last missing one, and then the payload is back |
| Ipv4Fragments.RoundTrip | source/kernel/net/ipv4.c:294-399 | what reaches the destination of what was sent, in any order and with any repetitions: complete exactly if no gateway has taken over and every fragment has come in, and then the payload is back |
| DeltaList.InsertedView | source/kernel/net/net_tools/soft_timer.c:56-93 | the new timer has exactly its time left and no other timer changes |
| DeltaList.InsertedUnique | source/kernel/net/net_tools/soft_timer.c:56-93 | no timer is listed twice |
| DeltaList.RemovedView | source/kernel/net/net_tools/soft_timer.c:108-119 | removing a timer changes no other |
| DeltaList.RestView | source/kernel/net/net_tools/soft_timer.c:126-142 | the timers not due come exactly that much closer |
| DeltaList.DueView | source/kernel/net/net_tools/soft_timer.c:126-142 | exactly the timers with no more than the time passed are due, once each, in the order of their deadlines |
| DeltaList.RestTwice | source/kernel/net/net_tools/soft_timer.c:121-142 | two scans fire and leave what one scan over the whole time does |
| SoftTimer.TimerList.Insert | source/kernel/net/net_tools/soft_timer.c:56-93 | the linked deltas become those of the list with the timer in its place |
| SoftTimer.TimerList.Add | source/kernel/net/net_tools/soft_timer.c:94-106 | the map from timer to time left gains exactly this timer; it is of the given kind and reload, and those of the others stay |
| SoftTimer.TimerList.Remove | source/kernel/net/net_tools/soft_timer.c:108-119 | the map loses exactly this timer; kind and reload of all timers stay |
| SoftTimer.TimerList.Scan | source/kernel/net/net_tools/soft_timer.c:121-166 | exactly the due timers fire, in order; the others come closer; the periodic ones that fired are put back in that order with their whole periods; without any, the list is exactly the one RestTwice is about |
| SoftTimer.OneOfEach | source/kernel/net/net_tools/soft_timer.c:94-166 | a periodic and a one-shot timer, both due: fired in order of their deadlines, the first set again, the second gone |
| BufferCache.Cache.constructor | source/kernel/fs/buffer.c:82-95 | an empty cache stands for the device |
| BufferCache.Cache.Contend | source/kernel/fs/buffer.c:189-214 | a buffer given up is written back if dirty, and the store is the same |
| BufferCache.Cache.PageLru | source/kernel/fs/buffer.c:97-105 | the least recently used buffer gives way |
| BufferCache.Cache.Fetch | source/kernel/fs/buffer.c:128-184 | the page as the plain store has it, now most recently used; an error exactly if the device has no such page; the store is the same whatever gives way |
| BufferCache.Cache.StoreBlock | source/kernel/fs/buffer.c:179-181 | a write to a dirty buffer is a write to the plain store |
| BufferCache.Cache.SyncBuffer | source/kernel/fs/buffer.c:218-240 | the page on the device is that of the store |
| BufferCache.Cache.Sync | source/kernel/fs/buffer.c:244-258 | the device equals the store |
| BufferCache.Cache.Partition | source/kernel/fs/buffer.c:10-14 | 64 buffers on the two lists together, and no page of a device in two of them |
| BufferCache.StoredBlock | source/kernel/fs/buffer.c:134-181 | storing a block changes that block of that device and no other |
| TaskQueues.EnqueueKeeps | source/kernel/task/sche.c:10-34 | every task stays on exactly the list it names, in the state that goes with it |
| TaskQueues.DequeueKeeps | source/kernel/task/sche.c:132-136 | likewise when a task leaves a list |
| Scheduler.Kernel.NextIsReady | source/kernel/task/sche.c:67-115 | the assertion of schedule holds |
| Scheduler.Kernel.Schedule | source/kernel/task/sche.c:94-145 | the first ready task runs, a running one goes to the end, the idle task runs only for want of others; one task is running and it is the current one |
| Scheduler.Kernel.SleepFor | source/kernel/task/task.c:472-491 | the task sleeps for its ticks, or not at all for none; nobody else is woken or delayed |
| Scheduler.SleepTicks | source/kernel/task/task.c:476-482 | the ticks cover the time asked for and no tick more, exactly unless the sum wraps around in 32 bits |
| Scheduler.Kernel.ClockSleepCheck | source/kernel/task/sche.c:150-166 | every sleeper has one tick less, those on their last become ready; the assertion holds |
| Scheduler.Kernel.Tick | source/kernel/dev/clock.c:29-58 | a clock tick keeps everything in its place; woken tasks join the ready list, and the current one goes behind them exactly if its time is used up |
| Scheduler.Kernel.Yield | source/kernel/task/task.c:464-468 | yielding keeps everything in its place; the first ready task runs and the current one goes to the end |
| Scheduler.Kernel.Block | source/kernel/ipc/mutex.c:18-25 | the current task waits at the end of the list and another runs |
| Scheduler.Kernel.Wake | source/kernel/ipc/mutex.c:33-39 | the first waiter becomes ready |
| TaskQueues.WakesOnTime | source/kernel/task/sche.c:150-166 | over any run a task asleep for n ticks wakes on exactly the n-th |
| TaskQueues.NoStarvation | source/kernel/task/sche.c:94-145 | over any run the task at index k of the ready list runs from exactly the (k + 1)st call of schedule on |
| TaskQueues.FirstComeFirst | source/kernel/ipc/mutex.c:30-46 | in a queue that is only handed on at its front and lengthened at its end the task at index k is first at exactly the (k + 1)st handing on |
| Ipc.System.MutexLock | source/kernel/ipc/mutex.c:10-29 | taken at once if free, else queued at the end and another task runs; all other locks, queues and counters as before |
| Ipc.System.MutexUnlock | source/kernel/ipc/mutex.c:30-46 | the longest waiter holds the mutex at once and can run; it is free only without waiters; everything else as before |
| Ipc.System.RecursiveLock | source/kernel/ipc/mutex.c:67-87 | free or own: the count and the depth of the task go up by one; else queued at the end; everything else as before |
| Ipc.System.RecursiveUnlock | source/kernel/ipc/mutex.c:88-114 | nothing for others than the owner; count and depth go down by one; the last unlock hands the mutex to the longest waiter, whose depth goes up by one; everything else as before |
| Ipc.System.SemWait | source/kernel/ipc/semaphore.c:17-36 | a token is taken if there is one, else queued at the end; everything else as before |
| Ipc.System.SemTryWait | source/kernel/ipc/semaphore.c:40-55 | a token exactly if there is one, and nothing else changes |
| Ipc.System.SemNotify | source/kernel/ipc/semaphore.c:97-128 | the token goes to the longest waiter, who can run, else it is kept; everything else as before |
| Ipc.System.Tick | source/kernel/dev/clock.c:29-58 | a clock tick changes no wait list, lock or semaphore, and counts every sleeper down; the current task gives way exactly if its time is used up |
| Ipc.System.SleepFor | source/kernel/task/task.c:472-491 | the task sleeps for its ticks and leaves the processor, or goes on for none; no wait list, lock or semaphore changes |
| Ipc.System.Yield | source/kernel/task/task.c:464-468 | the first ready task runs and the current one goes to the end; no wait list, lock or semaphore changes |
| LockSteps.MutexStep | source/kernel/ipc/mutex.c:10-46 | a mutex has one holder or none, and is free only without waiters: kept by lock and unlock |
| LockSteps.RecursiveStep | source/kernel/ipc/mutex.c:67-114 | the count is the nesting depth of the owner, nobody else has any, and it is zero exactly without an owner: kept by lock and unlock |
| LockSteps.SemStep | source/kernel/ipc/semaphore.c:17-128 | tokens on hand and taken add up to those posted, and nobody waits while there are some: kept by wait, try and notify |
| LockSteps.StepKeeps | source/kernel/ipc/mutex.c:10-114 | every step of every task keeps all mutexes, recursive mutexes and semaphores in order |
| LockRuns.RunGood | source/kernel/ipc/mutex.c:10-114 | so over any run of any number of tasks |
| LockRuns.MutexHandedOver | source/kernel/ipc/mutex.c:30-46 | over any run the waiter at index k holds the mutex and can run after exactly the (k + 1)st unlocking, and keeps its turn till then |
| LockRuns.RecursiveHandedOver | source/kernel/ipc/mutex.c:88-114 | likewise a recursive mutex, after exactly the (k + 1)st time an owner gives it up |
| LockRuns.TokenHandedOver | source/kernel/ipc/semaphore.c:97-128 | likewise a semaphore, after exactly the (k + 1)st notification |
| LockRuns.RunWakes | source/kernel/task/sche.c:150-166 | over any such run a task asleep for n ticks wakes on exactly the n-th |
| LockRuns.RunTurns | source/kernel/task/sche.c:94-145 | over any such run the task at index k of the ready list runs from exactly the (k + 1)st call of schedule on |
| MsgQueue.Counted | source/kernel/net/net_tools/msgQ.c:34-70 | how the number of threads at each place changes with one step |
| MsgQueue.SlotsDiffer | source/kernel/net/net_tools/msgQ.c:44-45 | indices less than the capacity apart are in different slots |
| MsgQueue.RingStore | source/kernel/net/net_tools/msgQ.c:44-45 | a message stored in a queue that is not full disturbs none |
| MsgQueue.MsgQ.constructor | source/kernel/net/net_tools/msgQ.c:4-18 | an empty queue, as many tokens as slots, every thread outside |
| MsgQueue.MsgQ.WaitEmpty | source/kernel/net/net_tools/msgQ.c:37-41 | tokens, threads under way and messages add up to the capacity |
| MsgQueue.MsgQ.Store | source/kernel/net/net_tools/msgQ.c:44-44 | the slot held no message still to be taken; the message is the next in lock order |
| MsgQueue.MsgQ.Load | source/kernel/net/net_tools/msgQ.c:63-63 | there is a message, and it is the oldest |
| MsgQueue.MsgQ.AdvanceTail | source/kernel/net/net_tools/msgQ.c:45-45 | the tail follows the messages stored |
| MsgQueue.MsgQ.AdvanceHead | source/kernel/net/net_tools/msgQ.c:64-64 | the head follows the messages taken |
| MsgQueue.MsgQ.Unlock | source/kernel/net/net_tools/msgQ.c:47-47 | outside the lock the size is the number of messages |
| MsgQueue.MsgQ.PostEmpty | source/kernel/net/net_tools/msgQ.c:68-69 | the free slot is announced and the message returned |
| MsgQueue.MsgQ.Enqueue | source/kernel/net/net_tools/msgQ.c:34-51 | a whole call with nobody in between: the message goes to the end, and a token from the free slots to the messages |
| MsgQueue.MsgQ.Dequeue | source/kernel/net/net_tools/msgQ.c:53-70 | likewise: the oldest message comes back, and its token goes back |
| Paging.TableAdded | source/kernel/mem/pdt.c:57-63 | a new second-level table changes no translation |
| Paging.EntrySet | source/kernel/mem/pdt.c:70-78 | one entry changes the translation of one page, no table being shared |
| Paging.AddressSpace.SetOne | source/kernel/mem/pdt.c:48-79 | the page is mapped unless it was; no other translation and no other directory entry changes; a frame goes exactly if the directory entry had no table |
| Paging.AddressSpace.AbsentShrinks | source/kernel/mem/pdt.c:56-63 | how many tables the rest of the range needs falls by one exactly when one is added |
| Paging.AddressSpace.SetEntry | source/kernel/mem/pdt.c:83-103 | pages are mapped in order up to the first already mapped; success exactly if there is none; no other translation changes; with a free frame for every directory entry that the pages to be mapped need and that has no table yet, of which exactly those are used |
| Paging.AddressSpace.AbsentGrows | source/kernel/mem/pdt.c:56-63 | how many tables a range has needed so far, one page further |
| Paging.AddressSpace.RangeTranslates | source/kernel/mem/pdt.c:83-103 | after success every address of the range translates to the physical base plus its offset, modulo 2^32 |
| Paging.AddressSpace.VmToPh | source/kernel/mem/pdt.c:178-200 | the translation, 0 if there is none |
| Paging.ExtendedFlat | source/kernel/dev/dma.c:51-71 | bytes added to the last segment or in a new one: the same bytes, and still no two segments that could be one |
| Paging.ScatterList.Map | source/kernel/dev/dma.c:18-77 | the list grows by exactly the translation of the range, byte by byte and in order, without joinable segments; it fails exactly at the first page whose start translates to 0; the pages before it are all mapped |
| Paging.ScatterList.PhysicalZero | source/kernel/mem/pdt.c:178-200 | an address translates to 0 exactly if its page is not mapped, or at the start of a page mapped to frame 0 |
| Paging.FrameZeroRefused | source/kernel/dev/dma.c:43-48 | the first page mapped to the first frame, as the kernel maps it: the scatter list is refused |
| Paging.ScatterList.PageRun | source/kernel/dev/dma.c:35-44 | within a page physical addresses follow each other |
| Calendar.DateOfDay | source/kernel/dev/time.c:80-109 | every day number has a date in range, and it is the day of that date |
| Calendar.DayOfDate | source/kernel/dev/time.c:41-66 | every date is the date of its day number |
| Calendar.MkTime | source/kernel/dev/time.c:39-70 | the seconds of the date and time of day, in 32 bits |
| Calendar.LocalTime | source/kernel/dev/time.c:75-118 | the date of the day, the time of day, the day of the year and of the week, all in range |
| Calendar.RoundTrip | source/kernel/dev/time.c:39-118 | mktime of localtime gives the time back exactly for the times before 2070 |
| Calendar.FieldsBack | source/kernel/dev/time.c:39-118 | localtime of mktime gives the fields back for every date from 1970 to 2069 |
| LinkedList.List.InsertFirst | source/kernel/tools/list.c:18-39 | the node in front, all links consistent |
| LinkedList.List.InsertLast | source/kernel/tools/list.c:46-67 | the node behind, all links consistent |
| LinkedList.List.InsertBehind | source/kernel/tools/list.c:71-93 | the node right behind the given one |
| LinkedList.List.InsertFront | source/kernel/tools/list.c:95-117 | the node right before the given one |
| LinkedList.List.RemoveFirst | source/kernel/tools/list.c:123-153 | the first node leaves, unlinked; none exactly if the list is empty |
| LinkedList.List.Remove | source/kernel/tools/list.c:159-193 | exactly that node leaves, unlinked |
| LinkedList.List.JoinFrom | source/kernel/tools/list.c:201-223 | the nodes of one list behind those of the other, which is empty after |

## Left out

- RbTree.Tree.Insert: keys are unbounded integers fixed while a node is in the tree; the comparison callbacks subtract 32-bit integers, whose overflow is not modelled. The null checks at the start of every operation are left out.
- RbTree.Tree.FindBy: the search for a null key, which fails at once, is left out. Callers that pass an integer as the key, such as a physical address or a capacity, pass such a null with the integer 0.
- RbTree.Tree.FindFirstGreaterOrEqual: the same, an integer key 0 being a null key.
- RbTree.Tree.FindFirstLessOrEqual: the same, an integer key 0 being a null key.
- RbTree.Tree.Remove: the colour and the parent field of the sentinel are modelled, but nothing is claimed of them for a tree that was not red-black.
- MinixVolume.Volume.GetBlock: file blocks beyond the reach of the double indirect block index past it in the code; the model asks callers for a smaller number. The buffer cache under it is BufferCache; here a block that is not on the device cannot be fetched and every other can.
- MinixVolume.Volume.AllocBlock: the device is taken to hold every block the zone map has a bit for, and none with number 65534 or 65535. In the code a clear bit behind the last block of the device would be handed out all the same, and the block be zeroed through a null buffer.
- MinixVolume.Volume.FreeBlock: block numbers for which the code reads past the end of the zone map, from its last bit up to the first block plus the number of blocks, are left out.
- MinixInode.Write: ranges that end past the last byte a file can have are left out, because of GetBlock; so in Truncate.
- MinixInode.Read: offsets and sizes are unbounded integers; the modification time is left out, as in Write and Truncate.
- MinixTruncate.Truncate: the inode is taken as it is in memory, without the re-read at the start.
- BuddyPool.Pool.Alloc: addresses and sizes are unbounded integers; the wrap-around of a size close to 2^32 and the signed comparison of sizes of 2^31 and more are not modelled. The zones are a map instead of a tree, and the state field of a bucket is which structure it is in.
- BuddyPool.Pool.Expand: a region of no bytes is not modelled, here and in the constructors.
- FixedPool.Fixed.GetBuddy: the tree is a value which an update may leave in any shape with the right order; how rebalancing shapes it is the subject of RbTree. Zeroing the memory handed out is left out.
- Package.Pkg.ShrinkFront: only as far as the bytes to go lie in the first block; the branch for more assumes full blocks in between, and taking all bytes of a packet goes on from a block that is not there.
- Package.Pkg.Join: the packet that was joined is left empty; in the code it is freed.
- Package.Pkg.constructor: the pools of packets and blocks are taken not to run out.
- Ipv4.FragOut: the checksum field is left zero, and the network interface sends what it is given. The size of a fragment is not bounded by the MTU, since the code compares the payload alone with it.
- Ipv4.JoinPackets: the pool of reassembly buffers, their timeout and the search by address and identifier are left out.
- SoftTimer.TimerList.Scan: a handler is its being called; handlers that change the timer list are left out.
- BufferCache.Cache.Fetch: block numbers are not negative, writing to the device succeeds, and one call is one step: the gaps of the mutex inside sys_sync are left out.
- Scheduler.Kernel.Tick: whether the time slice is used up is an argument; alarms, signals and stopped tasks are left out.
- Scheduler.Kernel.SleepFor: called by a task other than the idle one, as are the blocking operations.
- Ipc.System.SemWait: timed waits are left out, as the two halves of that protocol use different lists.
- Ipc.System.MutexUnlock: called by the holder.
- MsgQueue.MsgQ.WaitEmpty: a wait that times out changes nothing and is no step.
- Paging.AddressSpace.SetEntry: permission bits other than the present bit are left out, and a free frame for each table that has to be added is asked for: without, several directory entries would come to share frame 0.
- Paging.ScatterList.Map: ranges that reach the last page of the address space are left out, where the end of the page wraps around to 0; so is running out of memory for a node.
- Process creation, exit, signals and waiting for children: no closed protocol in the code.
- Device drivers, the console, boot and interrupt entry: hardware effects without an abstract result.
- TCP: the sequence list is global and several transitions are incomplete.
- Copy-on-write: only one side is write-protected, so isolation is not a property of the code.
- Directory entries, path names, mounting, identifier pools, file tables and byte swaps: correct but easy.
