# A verified model of the Xelix kernel's data structures

Xelix is a small POSIX kernel written in C. This project models the parts of it whose correctness rests on invariants that must survive every sequence of calls, and proves those invariants:

- the intrusive AVL index (`Avl*.dfy`): insertion and removal along explicit path arrays, the iterator, the destructive free;
- the kernel heap (`HeapBlocks.dfy`, `HeapOps.dfy`, `KernelHeap.dfy`): boundary tags, splitting, two-sided coalescing, page-aligned carving, the free list inside the free blocks;
- bitmaps and the physical page allocator (`Bitmap.dfy`, `PageAlloc.dfy`);
- virtual memory (`Paging.dfy`, `RangeList.dfy`, `AddressSpace.dfy`, `VirtualMemory.dfy`): three views of one address space, and windows into another one;
- the terminal emulator and the console that draws it (`Screen.dfy`, `RowMachine.dfy`, `Console.dfy`, `Terminal.dfy`), where it conforms to ECMA-48 (`Ecma48.dfy`), and what byte streams do to it (`ByteStreams.dfy`, `Decimal.dfy`);
- path normalisation (`PathNormalizer.dfy`), the read side of ext2 on a block device (`BlockDevice.dfy`, `Ext2Inodes.dfy`, `Ext2Data.dfy`), the mount table printer and parser (`MountTable.dfy`) and MD5 (`Md5.dfy`).

`dafny verify dfyconfig.toml` checks everything.

## How the model is built

Memory that C code reaches through pointers is a map from addresses to cells, held in a field of a class; a pointer is a number and NULL is 0. A loop of the source is a loop here. Next to the concrete state stands a value that says what it means: a tree, a list of blocks, a list of areas, a screen of rows. An operation is a method that is proved to act on the meaning as stated, and to keep everything the representation needs. Where the C code splits an operation only by scope, the model splits it into several methods, so that each proof stays small; helper methods take and return the memory as a value.

Every operation is atomic, as it is with its lock held. 32-bit wrap-around is written out wherever it can be seen: in cursor arithmetic, in addresses, in `bitmap_get_range`, in `vm_map`, in the page count of a window. What an operation gets from elsewhere is a parameter: the node `kmalloc` returns, the frames that become page tables, the memory `palloc` gives.

Places where the code does something else than one would expect are modelled as they are, and a theorem says for all inputs exactly when it matters:

- `bitmap_clear` lowers a word index to a bit number; the hint stays sound if and only if it did not pass the word of the first cleared bit (`Bitmap.ClearKeepsHint`). `bitmap_clear_all` clears a quarter of the words; the bitmap is empty afterwards if and only if the rest was (`Bitmap.ClearAllEmpties`).
- `bitmap_get_range` never overlooks a set bit, but reports conflicts that are not there for exactly those ranges that do not end on a word boundary (`Bitmap.RangeExact`, `Bitmap.RangeInexact`).
- The bitmap loops run to `bitmap_size(size)` inclusive, one word further than the data. The model's data have that word, and it holds anything. What the virtual allocator finds lies inside the address space if and only if there is a free run in it (`AddressSpace.InsideIffRoom`); where there is none, a taken page can be handed out (`AddressSpace.Overrun`). The same for several contexts (`VirtualMemory.CommonInside`) and for physical pages (`PageAlloc.InsideIffRoom`), whose addresses are handed out at most once in every state if and only if the words searched do not pass the 4 GiB (`PageAlloc.AddressesIff`).
- The end of a range wraps in `get_range`: an address of a range is found if and only if the range ends before 4 GiB (`VirtualMemory.HoldsExactly`, `VirtualMemory.HoldsPhysical`; `VirtualMemory.LastPage` is a range that is never found). The pages of a freed range can be allocated again if and only if they do not include the last one of the address space (`VirtualMemory.PagesReturn`).
- To zero pages, `setup_phys` maps them into the kernel's address space, and gives back RDIV(size, PAGE_SIZE) of size pages there: no mark is left behind if and only if at most one page was zeroed, below the last one (`VirtualMemory.MarksStay`). Each context of `vm_alloc_many` that has no memory asks `palloc` again: all get the same if and only if the first one gets some, or none does (`VirtualMemory.SameMemory`).
- `_kmalloc` compares the end of the heap with its limit before it adds tags and alignment: the heap stays inside its limit if and only if these fit too (`KernelHeap.GrowsInside`).
- `getmntent_r` leaves the numbers of the entry before if and only if nothing but white space stands behind the options (`MountTable.StaleNumbers`).
- `vm_map` of no bytes maps a page that no range owns (`VirtualMemory.OpenStray`).
- `vfs_block_sread` and `vfs_block_swrite` keep a block number in an int: they ask for the right block if and only if its number is below 2^31 (`BlockDevice.AskedRight`, `BlockDevice.AskedWrong`). The size of their buffer is an int too; the model stays below that limit.
- The inode cache copies `sizeof(struct inode)`, 130 bytes, whatever the inode size of the file system: cached reads stay inside the inode size, and cached structs are those on the disk, if and only if the inode size is at least 130 (`Ext2Inodes.InsideIffStructFits`, `WholeIffStructFits`, `WriteIffStructFits`; `Ext2Inodes.Classic` is a file system with 128-byte inodes).
- The resolver of block numbers gives up one table before the end of the doubly indirect range and knows no triply indirect one: it agrees with the tables if and only if the block is before that point or a hole (`Ext2Data.ResolvedIsMapped`, `Ext2Data.OutOfReach`). `ext2_inode_data_rw` reads short exactly if the offset is unaligned and the length a positive multiple of the block size (`Ext2Data.CoversAll`).
- Of the control functions of ECMA-48, ECH takes its count for a column, EL 1 spares the last column, ED 1 spares the row above the cursor and the cursor's cell or clears everything, ICH spares the last column and blanks up to the column of its count, scrolling and the insertion and deletion of rows always keep one row, CUU and CPL come out at the bottom, CUB does nothing where it should stop at the margin, CHT and CBT ignore their count, SGR reads on and off from its first parameter, and REP does nothing after a character in the last column. Module `Ecma48` defines what the standard asks and has the exact condition for each (`Ecma48.EditsConform`, `Ecma48.MovesConform`, `Ecma48.SgrAgrees`, `Ecma48.RepAgrees`), with a failing screen where there is no condition that makes it right.
- The "." shortcut of `vfs_normalize_path` gives the right answer if and only if the working directory is in canonical form (`PathNormalizer.DotShortcut`).

## Model

| member | source | states |
|---|---|---|
| AvlTree.SparsestTree | src/lib/kavl.h:69-79 | A balanced tree of height h has at least Fib(h + 2) - 1 nodes. |
| AvlTree.DepthBound | src/lib/kavl.h:69-79 | With a 32-bit node count the height is at most 45, so 64 path slots suffice. |
| AvlTree.Rotate1Items | src/lib/kavl.h:97-108 | A single rotation keeps the in-order walk. |
| AvlTree.Rotate1Keeps | src/lib/kavl.h:97-108 | A single rotation keeps the addresses and, by its size updates, the exactness of all sizes. |
| AvlTree.Rotate2Items | src/lib/kavl.h:109-127 | A double rotation keeps the in-order walk. |
| AvlTree.Rotate2Keeps | src/lib/kavl.h:109-127 | A double rotation keeps the addresses and the exactness of all sizes. |
| AvlPath.BracketsDown | src/lib/kavl.h:85-92 | Following the comparison keeps everything left of the path below the searched key and everything right of it above. |
| AvlPath.GrowLevel | src/lib/kavl.h:147-160 | Below the last unbalanced ancestor every node was level, so tipping each by one makes every balance exact again and the subtree one higher. |
| AvlPath.InsertFixBalances | src/lib/kavl.h:161-171 | One rotation at the overloaded ancestor, single or double by its child's balance, restores balance and the height from before the insertion. |
| AvlPath.InsertFixKeeps | src/lib/kavl.h:161-171 | That fix keeps order, addresses and sizes. |
| AvlPath.Rotate2Balances | src/lib/kavl.h:109-127 | The balance fix-up of the double rotation is right in all three cases of the inner node. |
| AvlPath.InsertRestores | src/lib/kavl.h:156-172 | Updating balances only from the last unbalanced ancestor and fixing only that node leaves the whole tree balanced. |
| AvlMemory.RotateOnce | src/lib/kavl.h:98-108 | In memory: the cells hold the rotated tree and no other cell changed. |
| AvlMemory.RotateTwice | src/lib/kavl.h:109-127 | In memory: the cells hold the doubly rotated tree and no other cell changed. |
| AvlMemory.AddSizes | src/lib/kavl.h:157 | The loop adds the same amount to the sizes of exactly the listed path nodes. |
| AvlMemory.FocusHole | src/lib/kavl.h:170-171 | Redirecting one taken pointer on a path replaces exactly the subtree below it. |
| AvlWalk.WalkFound | src/lib/kavl.h:85-93 | A walk that meets its key has counted the key's rank. |
| AvlWalk.WalkAbsent | src/lib/kavl.h:85-93 | A walk that ends in a null pointer proves the key absent and has counted the smaller keys. |
| AvlIndex.Index.Find | src/lib/kavl.h:81-95 | Returns the node with the key if and only if there is one, and the number of nodes not above the key. |
| AvlIndex.Index.Descend | src/lib/kavl.h:137-151 | The path and direction arrays list the way to the insertion point within 64 entries; bp is the last unbalanced node on it and bq its parent. |
| AvlIndex.Index.TipBalances | src/lib/kavl.h:158-160 | Tips exactly the balances from bp down to the new node. |
| AvlIndex.Index.FixNode | src/lib/kavl.h:163-169 | Replaces the overloaded subtree by the fixed one, in memory. |
| AvlIndex.Index.Rebalance | src/lib/kavl.h:161-172 | Leaves a node in range alone, else hooks the fixed subtree below bq or at the root. |
| AvlIndex.Index.Link | src/lib/kavl.h:153-155 | The new node hangs at the end of the path, level and of size one. |
| AvlIndex.Index.Settle | src/lib/kavl.h:157-172 | Sizes, balances and the one rotation together leave the tree that the specification grows. |
| AvlIndex.Index.Attach | src/lib/kavl.h:152-172 | From the known absence of the key on: the tree with the node in place. |
| AvlIndex.InsertResult | src/lib/kavl.h:152-172 | That tree is an exact AVL search tree with the new item at its rank. |
| AvlIndex.Index.Insert | src/lib/kavl.h:129-173 | A present key returns its node and changes nothing; an absent one is added at its rank and nowhere else; order, balances and sizes are exact afterwards; memory outside the tree is untouched. |
| AvlErase.RetracedBalances | src/lib/kavl.h:233-253 | The loop body on a path entry whose subtree sank: leaving the loop means the old height is back, going on means one lower again. |
| AvlErase.RetracedKeeps | src/lib/kavl.h:233-253 | Whatever branch it takes, order, addresses and sizes stay. |
| AvlErase.RotateAt | src/lib/kavl.h:240-251 | The rotation branches, in memory, with their balance assignments. |
| AvlErase.RetraceNode | src/lib/kavl.h:234-252 | One turn of the loop in memory, with the decision to leave it. |
| AvlErase.Retrace | src/lib/kavl.h:233-253 | After the loop the tree below the anchor is balanced, with the same walk, however many rotations happened. |
| AvlErase.FindNext | src/lib/kavl.h:214-222 | Finds the leftmost node of the right subtree and extends the path arrays by the way to it. |
| AvlErase.SpliceEmpty | src/lib/kavl.h:203-204 | A node without right subtree is replaced by its left one. |
| AvlErase.SpliceChild | src/lib/kavl.h:206-212 | A right child without left child moves up. |
| AvlErase.MoveUp | src/lib/kavl.h:223-228 | The next node takes the links, balance and place of the removed one. |
| AvlErase.Promote | src/lib/kavl.h:223-230 | The same with the sizes on the way to its old place counted down. |
| AvlErase.SpliceDeep | src/lib/kavl.h:213-231 | The next node in key order takes the place of the removed one. |
| AvlErase.SpliceNext | src/lib/kavl.h:206-231 | Both replacements drop exactly the removed item from the walk and leave one sunk path entry. |
| AvlErase.Splice | src/lib/kavl.h:203-232 | The three cases: the node leaves the tree, sizes are exact, and the path arrays lead to where a height sank. |
| AvlIndex.Index.Locate | src/lib/kavl.h:183-195 | The path arrays lead from the anchor to the node with the key, whose rank has been counted; or the key is absent. |
| AvlIndex.Index.LocateFirst | src/lib/kavl.h:196-200 | For a null argument they lead to the first node. |
| AvlIndex.Index.Detach | src/lib/kavl.h:201-256 | From the located node on: size updates, splice and retracing leave an exact tree without it. |
| AvlIndex.Index.Erase | src/lib/kavl.h:175-256 | Removes exactly the requested key (the first one for a null argument) and reports its rank, or finds it absent and changes nothing; the tree stays an exact AVL search tree; memory outside it is untouched. |
| AvlTraverse.Iterator.First | src/lib/kavl.h:278-283 | The whole walk lies ahead; the stack holds at most 45 entries. |
| AvlTraverse.Iterator.PushLeft | src/lib/kavl.h:306-307 | Pushing a left edge puts the subtree's walk in front of what lies ahead. |
| AvlTraverse.Iterator.Find | src/lib/kavl.h:284-302 | What lies ahead is exactly the part of the walk not below the query, and the result says whether it starts with it. |
| AvlTraverse.Iterator.Next | src/lib/kavl.h:303-312 | Moves on by exactly one item; the result says whether one is left. |
| AvlTraverse.Iterator.At | src/lib/kavl.h:391 | The node of the first item ahead, null at the end. |
| AvlTraverse.VisitAll | src/lib/kavl.h:278-312 | First and then Next visit every node once in key order. |
| AvlTraverse.FreeAll | src/lib/kavl.h:258-270 | The loop ends on every finite tree, frees each node once in key order and never touches a freed one. |
| HeapBlocks.UnlinkChained | src/mem/kmalloc.c:111-123 | Unlinking leaves a doubly linked list without exactly that block. |
| HeapBlocks.PushChained | src/mem/kmalloc.c:145-155 | Pushing leaves a doubly linked list with the block in front. |
| HeapBlocks.AroundWrite | src/mem/kmalloc.c:125-132 | Writes inside a hole between blocks disturb neither tags nor list nor live data around it. |
| HeapBlocks.AroundUnlink | src/mem/kmalloc.c:111-123 | Unlinking writes only link words of free blocks: tags and live data stay. |
| HeapBlocks.AroundPush | src/mem/kmalloc.c:145-155 | The same for pushing. |
| HeapOps.MergeOrPush | src/mem/kmalloc.c:134-156 | A free block below swallows the freed one; otherwise it is typed free and heads the list. |
| HeapOps.MergeNext | src/mem/kmalloc.c:158-164 | A free block above is swallowed and leaves the list. |
| HeapOps.FreedUsed | src/mem/kmalloc.c:134-167 | Freeing takes exactly that block from the used ones. |
| HeapOps.FreedCoalesced | src/mem/kmalloc.c:134-167 | Afterwards no two neighbours are both free. |
| HeapOps.FreeBlock | src/mem/kmalloc.c:134-167 | free_block keeps tiling and tags, merges on both sides, has the list in the order of release and changes no byte of a live block. |
| KernelHeap.OffsetAligns | src/mem/kmalloc.c:183-201 | The offset leads to a page boundary and leaves room for a block in front; it is 0 exactly on a boundary. |
| KernelHeap.SplitBlock | src/mem/kmalloc.c:169-181 | Splits into two tagged blocks that tile the old one, or does nothing if the rest would be too small. |
| KernelHeap.FreeRest | src/mem/kmalloc.c:242-246 | What was cut off becomes free, merged above, and the taken block used. |
| KernelHeap.TakeBlock | src/mem/kmalloc.c:235-249 | The hit branch: the block leaves the list and is cut to size exactly if a block can be left; what is left is free and heads the list. |
| KernelHeap.GetFreeBlock | src/mem/kmalloc.c:203-253 | The first block of the list that fits is taken and cut to size, nothing else changes, and none is reported only if none fits. |
| KernelHeap.CutFront | src/mem/kmalloc.c:293-306 | The part in front of the page boundary becomes a free block, merged below. |
| KernelHeap.Obtain | src/mem/kmalloc.c:271-291 | If some free block fits, the first of the list is cut to size and the heap does not grow; otherwise it grows by exactly one block. |
| KernelHeap.Allocate | src/mem/kmalloc.c:255-318 | The heap stays well formed, the new used block is big enough and aligned, and blocks, list and end of the heap are exactly those of first fit. |
| KernelHeap.Heap.constructor | src/mem/kmalloc.c:371-381 | An empty heap is well formed. |
| KernelHeap.Heap.Kmalloc | src/mem/kmalloc.c:255-318 | Tiling, tags, coalescing and free list are kept; the result has at least the requested bytes, 8-aligned, page-aligned when asked. If some free block fits, the result lies in the first one of the list, what lies in front and behind is free again, and the heap does not grow; otherwise it grows by exactly the block and what lies in front of a page boundary. The used blocks are the old ones and this one; no word that reaches into a live region changes. |
| KernelHeap.Heap.Kfree | src/mem/kmalloc.c:344-369 | The same for release: exactly that block goes, merged with its free neighbours, and heads the list unless swallowed; invalid and already free blocks are ignored. |
| KernelHeap.Reuse | src/mem/kmalloc.c:203-318 | A block without free neighbours that is released and asked for again is given out again, and heap and list are as they were. |
| KernelHeap.GrowsInside | src/mem/kmalloc.c:281-290 | A request that passes the test against the limit stays inside it if and only if tags and alignment fit too. |
| KernelHeap.Heap.Store | src/mem/kmalloc.c:64-95 | A client that stores in its own region disturbs neither the heap nor any other region. |
| KernelHeap.Heap.Stats | src/mem/kmalloc.c:383-390 | used is the full sizes of the used blocks plus header and footer of each free one. |
| KernelHeap.PrevInvertsNext | src/mem/kmalloc.c:27-35 | At every block but the last, PREV_BLOCK of NEXT_BLOCK is the block. |
| KernelHeap.LiveApart | src/mem/kmalloc.c:255-318 | The regions handed out do not overlap and lie in the heap. |
| KernelHeap.ReleaseUsed | src/mem/kmalloc.c:344-369 | Releasing takes exactly one region from those handed out. |
| KernelHeap.TilesSum | src/mem/kmalloc.c:383-390 | The heap's length is the full sizes of used blocks plus payload and overhead of free ones. |
| KernelHeap.ListSizes | src/mem/kmalloc.c:386-389 | Summing along the free list is summing over the free blocks. |
| Bitmap.Fill | src/lib/bitmap.c:25-37 | Exactly the bits of the range are set (or cleared), word-wise where possible. |
| Bitmap.ClearBits | src/lib/bitmap.c:39-57 | Clears exactly the range, or nothing if its end, on 32 bits, leaves the bitmap; where the hint goes. |
| Bitmap.ClearKeepsHint | src/lib/bitmap.c:56 | The words below the hint are still full if and only if the hint did not pass the first cleared word or the range starts at 0. |
| Bitmap.ClearAll | src/lib/bitmap.c:58-60 | Clears exactly as many bytes as there are words. |
| Bitmap.ClearAllEmpties | src/lib/bitmap.c:58-60 | The bitmap is empty afterwards if and only if what lies behind those bytes was clear. |
| Bitmap.ScanBits | src/lib/bitmap.c:98-116 | The bit-by-bit part keeps the state of the search or finds the first fit. |
| Bitmap.Find | src/lib/bitmap.c:62-123 | The word-skipping search returns the first run of clear bits from its start on, or -1 if there is none; the hint goes to the first word that is not full. |
| Bitmap.GetRange | src/lib/bitmap.c:125-164 | Its answer, including the wrapped remainder and the words it goes on to look at. |
| Bitmap.RangeSound | src/lib/bitmap.c:125-164 | It answers 0 only if every bit of the range inside the bitmap is clear. |
| Bitmap.RangeExact | src/lib/bitmap.c:125-164 | For ranges that end on a word boundary it answers 1 only if a bit of the range is set. |
| Bitmap.RangeInexact | src/lib/bitmap.c:125-164 | For every other range inside the bitmap there are contents on which it reports a conflict that is not there. |
| Bitmap.Count | src/lib/bitmap.c:167-176 | The number of set bits, given that the words below the hint are full. |
| PageAlloc.HintLosesNothing | src/lib/bitmap.c:69-71 | With full words below the hint the hinted search answers as a search from bit 0. |
| PageAlloc.FillKeepsFull | src/mem/page_alloc.c:45-54 | Setting bits keeps the words below the hint full. |
| PageAlloc.InsideIffRoom | src/mem/page_alloc.c:35-42 | What the search finds lies below the size if and only if a free run does. |
| PageAlloc.AddressesDiffer | src/mem/page_alloc.c:42 | A block that is found has addresses of its own if no bit stands for a page past the 4 GiB. |
| PageAlloc.AddressTwice | src/mem/page_alloc.c:42 | Otherwise there is a state in which page 1 is handed out again, as page 2^20 + 1. |
| PageAlloc.AddressesIff | src/mem/page_alloc.c:35-42 | Addresses are handed out at most once in every state if and only if the words searched do not pass the 4 GiB. |
| PageAlloc.Allocator.constructor | src/mem/page_alloc.c:68-77 | In memory with any contents and any hint: page 0 is taken, the cleared quarter is free, the rest is as before; and exactly when the result satisfies the invariant. |
| PageAlloc.Allocator.Alloc | src/mem/page_alloc.c:30-43 | The first free run in the whole bitmap; its pages were in nobody's hands and over all calls none is handed out twice; it lies below the size if and only if there is room there; where no bit stands for a page past the 4 GiB, its address is that of no page handed out before. |
| PageAlloc.Allocator.AllocAt | src/mem/page_alloc.c:45-54 | Marks exactly the given pages and keeps the hint sound. |
| PageAlloc.Allocator.Stats | src/mem/page_alloc.c:62-66 | used is the number of pages in use times the page size, on 32 bits. |
| Paging.SetPage | src/mem/i386-paging.c:45-83 | One page gets its entry, in a zeroed new table if its directory entry is empty; every other page translates as before. |
| Paging.SetRange | src/mem/i386-paging.c:43-89 | Every byte of the range is mapped to its byte of the physical memory, with the given rights, and no other translation changes; where the directory is complete, as the kernel's is, no table is added. |
| Paging.PaintedLocated | src/mem/i386-paging.c:44-83 | Byte j of the range is byte j of the memory, on 32 bits, for every start of either. |
| Paging.WalkLevels | src/mem/i386-paging.c:47-48 | Entry e of the table that directory entry d names is the entry of page 1024 d + e. |
| Paging.ClearPage | src/mem/i386-paging.c:92-113 | One page becomes unmapped and no other translation changes. |
| Paging.ClearRange | src/mem/i386-paging.c:91-119 | Exactly the pages of the range become unmapped. |
| RangeList.Insert | src/mem/vm.c:78-84 | A doubly linked list with the new range in front. |
| RangeList.InsertLinked | src/mem/vm.c:78-84 | All links of all nodes after the insertion, and the areas in list order. |
| RangeList.Remove | src/mem/vm.c:483-493 | A doubly linked list without exactly that range. |
| RangeList.RemoveLinked | src/mem/vm.c:483-493 | All links of all nodes after the removal, at either end or in between. |
| AddressSpace.AllocVirt | src/mem/vm.c:102-129 | Free pages where requested, or the first fit from there on, are marked, and the 32-bit address is theirs; the search stays inside the address space if and only if there is room; failure leaves the bitmap alone and means that there was nothing to choose. |
| AddressSpace.InsideIffRoom | src/mem/vm.c:119-124 | What the search finds lies inside the address space if and only if a free run of the size does. |
| AddressSpace.Overrun | src/lib/bitmap.c:73-78 | A full address space and a word behind it for which page 1, though taken, is handed out. |
| AddressSpace.OrderlyResult | src/mem/vm.c:119-128 | Where there is room or nothing is found, the result is a page run of the address space. |
| AddressSpace.OrderlyRoom | src/mem/vm.c:119-122 | There something is found if and only if there is room. |
| AddressSpace.AddAgree | src/mem/vm.c:181-221 | An area on pages that were free keeps areas disjoint, marked and away from page 0. |
| AddressSpace.AddMapped | src/mem/vm.c:150-152 | Mapping it keeps the tables showing every other area. |
| AddressSpace.MappedLocated | src/mem/vm.c:150-152 | Every byte of every area with memory is at its place in that memory, with the area's rights. |
| AddressSpace.ShardLocated | src/mem/vm.c:371-379 | And so is every byte of a shard. |
| AddressSpace.DropAgree | src/mem/vm.c:495 | Clearing an area's marks keeps those of all others. |
| AddressSpace.DropMapped | src/mem/vm.c:498 | Unmapping an area keeps the tables showing all others. |
| AddressSpace.ShardAddress | src/mem/vm.c:373 | The physical address of a source page comes out right on 32 bits although the distance it is computed from is negative for later ranges. |
| AddressSpace.BackingWalk | src/mem/vm.c:348-373 | The frame behind a page by its range is the frame the tables show. |
| AddressSpace.WindowByte | src/mem/vm.c:293-390 | Byte j of a window and byte j of its source are the same physical byte, from unaligned starts and across ranges. |
| AddressSpace.WindowMemory | src/mem/vm.c:348-379 | Each page of a window is the memory that a range of the source has for its page. |
| AddressSpace.AppendMapped | src/mem/vm.c:565-569 | Adding the next range to late-built tables shows it and nothing else new. |
| VirtualMemory.Context.constructor | src/mem/vm.c:520-536 | In memory with any contents: an empty address space in which page 0 is taken, the cleared quarter is free and the rest is as before. |
| VirtualMemory.Context.Enter | src/mem/vm.c:150-152 | The area is mapped if the context has a page directory. |
| VirtualMemory.Context.Claim | src/mem/vm.c:188-196 | The pages are marked and mapped to the memory, or nothing but the hint changed. |
| VirtualMemory.Context.ZeroThrough | src/mem/vm.c:154-175 | The detour through the kernel's address space succeeds if and only if there is room; all its views agree in the end and no translation changes, but all marks stay that RDIV does not count. |
| VirtualMemory.MarksStay | src/mem/vm.c:174 | No mark is left behind if and only if at most one page was zeroed, below the last one. |
| VirtualMemory.Context.Record | src/mem/vm.c:202-212 | The range is listed, with its memory or without it, and all views agree. |
| VirtualMemory.Context.AllocAt | src/mem/vm.c:181-221 | The new area lies on free pages, stands first in the list, is marked, and byte j of it is byte j of its memory; without memory from `palloc` it stays unmapped, and where its pages cannot be zeroed it forgets its memory, as in the source; nothing else changes, no page is mapped without an owner, and the kernel's translations are the same in the end; failure changes only the hint. |
| VirtualMemory.Context.Adopt | src/mem/vm.c:257-279 | The same for given pages, as vm_alloc_many does for each context. |
| VirtualMemory.FindCommon | src/mem/vm.c:233-253 | The search ends; it returns the first run from the hinted start on that the first context offers and no other reports taken, which is free in every context, and -1 exactly if there is none. |
| VirtualMemory.CommonInside | src/mem/vm.c:233-255 | That run lies inside the address space if and only if some such run does. |
| VirtualMemory.AdoptAll | src/mem/vm.c:257-279 | Every context gets the area, with the memory that is there by then. |
| VirtualMemory.AllocMany | src/mem/vm.c:223-289 | The same addresses in every context, each byte at its place in the memory that is there when the context's turn comes, and all views of all contexts in agreement; NULL exactly if no common run is found. |
| VirtualMemory.SameMemory | src/mem/vm.c:257-262 | It is the same memory in all contexts if and only if the first one gets some, or none does. |
| VirtualMemory.Context.Lookup | src/mem/vm.c:86-100 | The first range that passes the test, by either address; by virtual address the range of the page, found if and only if the page lies in a range that ends before 4 GiB. |
| VirtualMemory.HoldsExactly | src/mem/vm.c:94 | The test finds an address if and only if its page lies in the range and the range ends before 4 GiB. |
| VirtualMemory.HoldsPhysical | src/mem/vm.c:94 | The same by physical address. |
| VirtualMemory.LastPage | src/mem/vm.c:94 | A range on the last page, which can be allocated and is never found. |
| VirtualMemory.Context.OpenWindow | src/mem/vm.c:316-336 | A window is opened if and only if there is room; its area lies on free pages and heads the list, or nothing changes. |
| VirtualMemory.Context.MapPage | src/mem/vm.c:371-381 | One pass of vm_map: one more page of the window shows its source page. |
| VirtualMemory.Context.Map | src/mem/vm.c:293-390 | A window is opened if and only if the source does not start in page 0 and there is room; all pages up to the first that cannot be had are mapped, and the reason decides between a shorter window, failure and panic; if all can be had, the result is a window in which every byte asked for is the byte of the source, even across several ranges and an unaligned start, and unless less is allowed there is no other window; whatever the outcome the views agree and no other translation changed. |
| VirtualMemory.OneOutcome | src/mem/vm.c:346-382 | The source and the flags leave exactly one outcome. |
| VirtualMemory.Ended | src/mem/vm.c:346-382 | Wherever the loop ends, the window is complete if and only if all pages of the source lie in unsharded ranges that are found, user ones if asked for. |
| VirtualMemory.OpenStray | src/mem/vm.c:346-382 | Tables without stray pages stay so if and only if the window has pages of its own or none was mapped. |
| VirtualMemory.WindowSuffices | src/mem/vm.c:316 | A complete window has all bytes asked for and no page more than it needs, unless their number wraps; then it has at most one page. |
| VirtualMemory.WholeBytes | src/mem/vm.c:316-389 | A complete window has every byte asked for, if their number does not wrap. |
| VirtualMemory.Context.Free | src/mem/vm.c:472-518 | That range goes from the list and the tables and, unless it includes the last page of the address space, from the bitmap; every other page keeps its mark and translation. |
| VirtualMemory.PagesReturn | src/lib/bitmap.c:39-42 | The pages of the range can be allocated again if and only if they end by page 0xfffff. |
| VirtualMemory.Context.Pagedir | src/mem/vm.c:555-572 | Tables built late show exactly what the ranges say, an area without memory from physical address 0 on. |
| Screen.ClearLine | src/tty/tmt.c:101-109 | Exactly the cells of the range are blank, and the row is dirty. |
| Screen.ClearLines | src/tty/tmt.c:111-116 | Exactly the rows of the range are blank, for any count. |
| Screen.DirtyLines | src/tty/tmt.c:93-99 | The rows are dirty whatever they showed before, and contents stay. |
| Screen.ScrollUp | src/tty/tmt.c:118-135 | The rows from r on move up by the capped count, blank rows come in below, the line pointers are permuted, every changed row is dirty. |
| Screen.ScrollDown | src/tty/tmt.c:137-154 | The same downwards. |
| Screen.InsertCells | src/tty/tmt.c:170-178 | ICH on a row, with the columns it really blanks. |
| Screen.DeleteCells | src/tty/tmt.c:180-193 | DCH on a row. |
| RowMachine.NextStop | src/tty/tmt.c:267 | The next tab stop to the right, or the last column. |
| RowMachine.PreviousStop | src/tty/tmt.c:300 | The next tab stop to the left, or column 0. |
| RowMachine.UpLeaves | src/tty/tmt.c:282 | A cursor moved past the top ends on the last row, but for counts within a screen of 2^32. |
| Ecma48.EchAgrees | src/tty/tmt.c:299 | ECH is right on every screen if and only if the cursor is in column 0 or the count reaches the width. |
| Ecma48.ElAgrees | src/tty/tmt.c:195-201 | EL is right on every screen if and only if it is not EL 1 or the cursor is not in the last column. |
| Ecma48.Ed1Agrees | src/tty/tmt.c:162 | ED 1 below the first row is right if and only if the row above and the cursor's cell are blank already. |
| Ecma48.Ed1FromTop | src/tty/tmt.c:162 | ED 1 on the first row is right if and only if everything behind the cursor is blank already. |
| Ecma48.EdAgrees | src/tty/tmt.c:156-168 | ED is right on every screen if and only if it is not ED 1, which fails for every place of the cursor. |
| Ecma48.IchAgrees | src/tty/tmt.c:170-178 | ICH is right if and only if the last cell is what would move there and the cells it does not blank are blank. |
| Ecma48.IchFails | src/tty/tmt.c:170-178 | For every size, cursor and count it fails on some screen. |
| Ecma48.DchAgrees | src/tty/tmt.c:180-193 | DCH is right on every screen. |
| Ecma48.DlAgrees | src/tty/tmt.c:118-135 | DL is right on every screen if and only if the count is smaller than the rows from there on. |
| Ecma48.SuAgrees | src/tty/tmt.c:297 | SU is right on every screen if and only if the count is smaller than the rows of the screen. |
| Ecma48.IlAgrees | src/tty/tmt.c:137-154 | The same for IL. |
| Ecma48.SdAgrees | src/tty/tmt.c:298 | The same for SD. |
| Ecma48.EditsConform | src/tty/tmt.c:292-311 | The whole table: every editing function does what ECMA-48 asks on every screen if and only if its condition holds. |
| Ecma48.MovesConform | src/tty/tmt.c:282-300 | The whole table of cursor movements: CUU and CPL lead where they should if and only if the count does not pass the top, CUB if it does not pass column 0 or the cursor is there, CUD, CNL and CUF if the sum does not wrap, CHT and CBT if the count is one or the first stop is the end; the absolute ones always. |
| Ecma48.SgrParameter | src/tty/tmt.c:205-223 | Exactly when one parameter does what ECMA-48 asks: it goes the way of the first one, faint is off where bold or italics go off, and the font is the first one where everything is cancelled. |
| Ecma48.SgrAgrees | src/tty/tmt.c:203-224 | A sequence does what ECMA-48 asks if and only if for each attribute the last parameter about it goes the way of the first parameter or cancels everything, and faint and the font end as they should. |
| Ecma48.SgrSingle | src/tty/tmt.c:203-224 | A single parameter fails only for 22 and 23 with faint on, and for 0 in the alternate font. |
| Ecma48.RedAndBold | src/tty/tmt.c:207 | 31;1 takes bold off. |
| Ecma48.RepAgrees | src/tty/tmt.c:226-231 | REP repeats the last character on every screen if and only if that one did not go into the last column. |
| RowMachine.ActionFormed | src/tty/tmt.c:265-311 | Every action of every final byte keeps cursor and saved cursor on the screen and the screen's size. |
| RowMachine.FedFormed | src/tty/tmt.c:255-314 | For every byte: cursor on the screen, at most eight parameters, rows of the same number and width. |
| RowMachine.RunSplit | src/tty/tmt.c:446-471 | How a byte stream is cut into writes does not matter. |
| Decimal.ValueFront | src/tty/tmt.c:281 | In a decimal number the digit k places from the right counts 10^k. |
| Decimal.Counted | src/tty/tmt.c:281 | The base is ten. |
| ByteStreams.NumberRun | src/tty/tmt.c:281 | The decimal digits of every 32-bit number in a control sequence make that number the parameter. |
| ByteStreams.DigitsRun | src/tty/tmt.c:281 | Any digits make their value the parameter, on 32 bits. |
| ByteStreams.SequenceRun | src/tty/tmt.c:264-311 | ESC [, any parameters with semicolons between them and a final byte: the final byte acts with the first eight of them, missing ones being 0, and the parser starts again. |
| ByteStreams.MoveSequence | src/tty/tmt.c:282-300 | A sequence that moves the cursor does nothing else, and what ECMA-48 asks exactly under the conditions of MovesConform. |
| ByteStreams.EditSequence | src/tty/tmt.c:292-311 | One that edits changes only rows, as ECMA-48 asks under the conditions of EditsConform. |
| ByteStreams.RenditionSequence | src/tty/tmt.c:203-224 | SGR changes only renditions, as ECMA-48 asks exactly under the conditions of SgrAgrees. |
| ByteStreams.CursorPosition | src/tty/tmt.c:290 | ESC [ r ; c H puts the cursor on row r - 1 and column c - 1, or the last ones, for all r and c, and changes nothing else. |
| ByteStreams.CursorHome | src/tty/tmt.c:290 | Without parameters it goes home. |
| ByteStreams.ControlBytes | src/tty/tmt.c:265-269 | Backspace, carriage return, tab and bell. |
| ByteStreams.LineFeed | src/tty/tmt.c:268 | Down by one row, on the last one by moving the screen up. |
| ByteStreams.TextRun | src/tty/tmt.c:404-430 | Text that ends before the last column stands in its row with the current attributes, the cursor behind it, and nothing else changes. |
| ByteStreams.LastColumn | src/tty/tmt.c:404-430 | A character in the last column leads to the next row, on the last one by moving the screen up. |
| ByteStreams.TranslatedIs | src/tty/tmt.c:78-91 | A code of the alternate set shows its character, every other code itself. |
| ByteStreams.SaveAndRestore | src/tty/tmt.c:273-274 | ESC 7 remembers cursor and attributes, ESC 8 brings them back. |
| ByteStreams.SavedThrough | src/tty/tmt.c:273-274 | Whatever lies between, if it does not save itself. |
| ByteStreams.TabSet | src/tty/tmt.c:272 | ESC H sets a tab stop at the cursor. |
| ByteStreams.TabsCleared | src/tty/tmt.c:303 | CSI 3 g takes all tab stops away. |
| ByteStreams.StartedAnew | src/tty/tmt.c:276 | ESC c blanks the screen and resets cursor, attributes, character set and saved state, but not the tab stops. |
| ByteStreams.PositionReport | src/tty/tmt.c:233-237 | CSI 6 n reports the cursor's place, counted from 1. |
| ByteStreams.AttributesReport | src/tty/tmt.c:302 | CSI c reports what the terminal is. |
| ByteStreams.CursorShown | src/tty/tmt.c:306-308 | CSI 25 h and l show and hide the cursor. |
| ByteStreams.ColouredText | src/tty/console.c:80-110 | Text behind CSI 3 k m is drawn in the k-th colour. |
| Console.SetCache | src/tty/console.c:52-65 | A cell is drawn if and only if it would look different from what the cache has. |
| Console.DrawnAs | src/tty/console.c:67-91 | A glyph has the cell's character, its foreground depends on the foreground attribute alone and its background on the background attribute alone, in the eight colours. |
| Console.WriteRow | src/tty/console.c:82-115 | With blanks cleared in runs, every cell of the row is shown afterwards if the cache was right about it or it was drawn. |
| Console.Update | src/tty/console.c:122-129 | Drawing only dirty rows and changed cells shows the whole screen. |
| Console.ShowingIsFull | src/tty/console.c:117-144 | What is shown looks like a full drawing, apart from the cursor's cell. |
| Console.ReadyToSweep | src/tty/console.c:122-129 | Between updates every row that differs from what is shown is dirty. |
| Console.MoveCursor | src/tty/console.c:133-141 | The old cursor's cell is restored and only the new one's may look different. |
| Terminal.Terminal.constructor | src/tty/tmt.c:343-402 | After opening, a frame buffer with any contents shows the blank screen. |
| Terminal.Terminal.ClearLineAt | src/tty/tmt.c:101-109 | Clearing part of a row of the terminal keeps everything else, and the display consistent. |
| Terminal.Terminal.ClearLinesFrom | src/tty/tmt.c:111-116 | The same for rows. |
| Terminal.Terminal.ScrollUpFrom | src/tty/tmt.c:118-135 | The same for scrolling up. |
| Terminal.Terminal.ScrollDownFrom | src/tty/tmt.c:137-154 | The same for scrolling down. |
| Terminal.Terminal.PutAtCursor | src/tty/tmt.c:415-417 | Exactly the cursor's cell changes, and its row is dirty. |
| Terminal.Terminal.WriteChar | src/tty/tmt.c:404-430 | One character in the cursor's cell, then on to the next cell, row or a scrolled screen. |
| Terminal.Terminal.Ed | src/tty/tmt.c:156-168 | ED as the specification says it, from the wrapped arithmetic. |
| Terminal.Terminal.El | src/tty/tmt.c:195-201 | EL as specified. |
| Terminal.Terminal.Edit | src/tty/tmt.c:292-311 | The bytes that edit rows act on the line pointers as specified on rows, and every changed row is dirty. |
| Terminal.Shifted | src/tty/tmt.c:282-290 | The 32-bit cursor arithmetic followed by fixcursor gives the specified target. |
| Terminal.Terminal.Move | src/tty/tmt.c:282-300 | The same for all cursor movements including tabs. |
| Terminal.Terminal.TabForward | src/tty/tmt.c:267 | The loop stops at the next tab stop or the end of the row. |
| Terminal.Terminal.TabBack | src/tty/tmt.c:300 | The loop stops at the previous tab stop or column 0. |
| Terminal.Terminal.FixCursor | src/tty/tmt.c:250-253 | The cursor is brought back onto the screen. |
| Terminal.Terminal.ConsumeArg | src/tty/tmt.c:244-248 | The pending number becomes a parameter unless there are eight. |
| Terminal.Terminal.ResetParser | src/tty/tmt.c:239-242 | The parser starts again. |
| Terminal.Terminal.Sgr | src/tty/tmt.c:203-224 | The parameters are applied in order. |
| Terminal.Terminal.Rep | src/tty/tmt.c:226-231 | The character before the cursor is written as often as asked. |
| Terminal.Terminal.ResetAll | src/tty/tmt.c:492-502 | Cursor, saved state, attributes and parser are reset, all rows are blank and shown; tab stops stay. |
| Terminal.Terminal.Misc | src/tty/tmt.c:301-310 | Repetition, reports, tab clearing, rendition, save and restore as specified. |
| Terminal.Terminal.Control | src/tty/tmt.c:265-269 | The control characters as specified; NUL acts as BEL. |
| Terminal.Terminal.Escape | src/tty/tmt.c:272-276 | The escape sequences as specified. |
| Terminal.Terminal.Act | src/tty/tmt.c:265-311 | Every final byte, followed by fixcursor, does what the specification says. |
| Terminal.Terminal.Do | src/tty/tmt.c:262-263 | The common frame of final bytes: pending parameter, action unless ignored, cursor, parser. |
| Terminal.Terminal.Handle | src/tty/tmt.c:255-314 | Parser and actions refine the machine over rows; bytes that are no part of a control function are told apart. |
| Terminal.Terminal.Notify | src/tty/tmt.c:316-321 | After an update the display shows the screen and nothing is dirty. |
| Terminal.Terminal.Feed | src/tty/tmt.c:452-468 | One byte of a write: handled, or printed as a plain or alternate character. |
| Terminal.Terminal.Write | src/tty/tmt.c:446-471 | For every byte stream the result is that of the machine over rows, the line pointers are a permutation of the same distinct lines, and the frame buffer shows the whole screen. |
| PathNormalizer.KeptIsWalked | src/fs/vfs.c:68-99 | Reading the pieces right to left with a skip counter keeps the names that walking left to right ends with. |
| PathNormalizer.Prepend | src/fs/vfs.c:94-97 | A name and its slash go in front of what the buffer holds. |
| PathNormalizer.Piece | src/fs/vfs.c:69-98 | One slash of the scan, in the buffers, which it does not leave. |
| PathNormalizer.Scan | src/fs/vfs.c:58-113 | The scan returns the canonical form of what the path leads to. |
| PathNormalizer.Normalize | src/fs/vfs.c:44-114 | The meaning of the path in the working directory. |
| PathNormalizer.RelativeFromCwd | src/fs/vfs.c:50-56 | A relative path is walked from the working directory. |
| PathNormalizer.MeaningCanonical | src/fs/vfs.c:42-43 | The result is absolute, without ".", ".." and empty pieces. |
| PathNormalizer.LastPiece | src/fs/vfs.c:68-99 | One more piece: a name goes down, ".." goes up unless at the root, "." and an empty piece stay. |
| PathNormalizer.Idempotent | src/fs/vfs.c:44-114 | Normalising twice is normalising once, in whatever directory. |
| PathNormalizer.DotShortcut | src/fs/vfs.c:46-48 | The shortcut is right if and only if the working directory is canonical. |
| BlockDevice.SRead | src/block/block.c:59-82 | What is delivered from the block that is asked for, in all cases; exactly the bytes of the flat device from the position on if their first block has a number below 2^31. |
| BlockDevice.SWrite | src/block/block.c:84-109 | What is changed, in all cases; exactly those bytes under the same condition. |
| BlockDevice.AskedRight | src/block/block.c:60-62 | The block asked for is the right one if and only if its number is below 2^31. |
| BlockDevice.AskedWrong | src/block/block.c:60-62 | For block 2^32 + b the block b is asked for. |
| BlockDevice.RequestBuffered | src/block/block.c:62-69 | For requests of at most 1 GiB the number of blocks and the size of the buffer fit an int. |
| BlockDevice.ReadSmall | src/block/block.c:59-82 | On partitions of fewer than 2^31 blocks every read of at most 1 GiB is exact. |
| BlockDevice.WriteSmall | src/block/block.c:84-109 | On partitions of fewer than 2^31 blocks every write of at most 1 GiB is exact. |
| BlockDevice.ReadBlocks | src/block/block.c:51-53 | The blocks of the disk behind the partition's start, on 64 bits, or none. |
| BlockDevice.WriteBlocks | src/block/block.c:55-57 | Exactly those blocks of the disk change, or none. |
| Ext2Inodes.SlotsApart | src/fs/ext2_inode.c:33-49 | On a well laid out disk different inodes lie apart. |
| Ext2Inodes.InodeAt | src/fs/ext2_inode.c:33-49 | Inode i of group g is the i-th of the table that the group's descriptor names. |
| Ext2Inodes.Filesystem.constructor | src/fs/ext2_internal.h:84-99 | A file system with nothing cached is coherent. |
| Ext2Inodes.CheckCache | src/fs/ext2_inode.c:51-58 | The first entry with the number before the first empty one. |
| Ext2Inodes.WhereUsed | src/fs/ext2_inode.c:51-58 | That is the inode's entry if it is cached, and none if it is not. |
| Ext2Inodes.DeliveredRight | src/fs/ext2_inode.c:60-86 | Whichever way an inode comes, the bytes that are certainly of it are those on the disk; if the struct fits the inode size, the whole struct is, and nothing behind is touched. |
| Ext2Inodes.CachedSound | src/fs/ext2_inode.c:81-85 | The new ring entry leaves the cache coherent, with no inode cached twice. |
| Ext2Inodes.InsideIffStructFits | src/fs/ext2_inode.c:66-83 | In every state and for every inode, reads through the cache leave buffers alone behind the inode size if and only if the inode size is at least that of the struct. |
| Ext2Inodes.WholeIffStructFits | src/fs/ext2_inode.c:66-83 | The struct the cache gives out is the one on the disk under the same condition. |
| Ext2Inodes.WriteIffStructFits | src/fs/ext2_inode.c:98-103 | The struct a write puts into the cache is the one on the disk under the same condition. |
| Ext2Inodes.Classic | src/fs/ext2_inode.h:24-44 | With 128-byte inodes two reads of one inode carry a byte from behind the first buffer to behind the second. |
| Ext2Inodes.ReadFrom | src/fs/ext2_inode.c:60-86 | The read on its state, for any inode size. |
| Ext2Inodes.Fetch | src/fs/ext2_inode.c:72-85 | The part that goes to the disk. |
| Ext2Inodes.Store | src/fs/ext2_inode.c:98-103 | Cache and disk change together. |
| Ext2Inodes.Filesystem.Read | src/fs/ext2_inode.c:60-86 | For any inode size, what is delivered and cached, exactly; of it the bytes certainly of the inode are those on the disk now, from the root copy, the ring cache or the disk; no inode is cached twice. |
| Ext2Inodes.Filesystem.LoadRoot | src/fs/ext2.c:866-876 | The root copy is, over the inode size, what the disk holds. |
| Ext2Inodes.Filesystem.Write | src/fs/ext2_inode.c:88-104 | Disk, root copy and cache change together, each by its own length, and stay coherent for every inode. |
| Ext2Data.Resolve | src/fs/ext2_inode.c:145-193 | With whatever the shared cache holds, the answer is that of an uncached walk of the tables, as far as the resolver reaches. |
| Ext2Data.MappedNear | src/fs/ext2_inode.c:150-162 | The first twelve blocks are named by the inode, the next e in order by its table of e entries. |
| Ext2Data.MappedDouble | src/fs/ext2_inode.c:163-187 | Block 12 + e + i e + j is entry j of the table that entry i of the double table names, for all i and j. |
| Ext2Data.MappedTriple | src/fs/ext2_inode.c:145 | What the triple table of ext2 means, which the source does not know. |
| Ext2Data.NumberOf | src/fs/ext2_inode.c:162 | A table entry is the number whose four bytes stand there, lowest first. |
| Ext2Data.FileByteAt | src/fs/ext2_inode.c:242-257 | Byte o of the file's n-th block is byte o of the block that the tables name for it. |
| Ext2Data.ResolvedIsMapped | src/fs/ext2_inode.c:150-190 | It agrees with the tables if and only if the block is in reach or a hole. |
| Ext2Data.OutOfReach | src/fs/ext2_inode.c:163 | For every block size and every block out of reach, a disk whose tables map it. |
| Ext2Data.ReadData | src/fs/ext2_inode.c:198-272 | Fails exactly at a hole of the file or if the last block visited is out of the resolver's reach; otherwise the buffer holds the bytes the tables map, as far as the visited blocks go, and is unchanged behind. |
| Ext2Data.AddBlock | src/fs/ext2_inode.c:242-267 | One block's turn. |
| Ext2Data.LastInReach | src/fs/ext2_inode.c:212-218 | All blocks are found if and only if none is a hole and the last one is in reach. |
| Ext2Data.CoversAll | src/fs/ext2_inode.c:202-208 | The visited blocks cover the request if and only if the offset is aligned, the length is no multiple of the block size, or nothing was asked for. |
| Ext2Data.ExactRead | src/fs/ext2_inode.c:198-272 | A successful read delivers exactly the bytes of the file that were asked for under the condition of CoversAll; otherwise as many are missing as the offset lies inside its block. |
| MountTable.DecodeEncode | land/newlib/xelix/mntent_r.c:46-80 | decode_name undoes encode_name for every string. |
| MountTable.EncodeParts | land/newlib/xelix/mntent_r.c:160-192 | Blanks, tabs and backslashes are written as \040, \012 and \\, wherever they stand, everything else as it is. |
| MountTable.EncodeName | land/newlib/xelix/mntent_r.c:149-196 | The macro writes the encoding within four times the length. |
| MountTable.DecodeName | land/newlib/xelix/mntent_r.c:50-80 | Decoding in place is decoding. |
| MountTable.DecodeOne | land/newlib/xelix/mntent_r.c:57-76 | Which escape stands at the read pointer. |
| MountTable.ScanShown | land/newlib/xelix/mntent_r.c:134 | sscanf reads back the number fprintf wrote. |
| MountTable.ParseEntry | land/newlib/xelix/mntent_r.c:115-142 | The fields of a line, with missing ones and missing numbers. |
| MountTable.ParseField | land/newlib/xelix/mntent_r.c:120-123 | One name and what follows it. |
| MountTable.ForgetLine | land/newlib/xelix/mntent_r.c:106-113 | Reading in chunks drops exactly the rest of the line. |
| MountTable.GetMntent | land/newlib/xelix/mntent_r.c:86-146 | The next entry of the stream; blank lines, comments and the rest of lines that do not fit are skipped. |
| MountTable.AddMntent | land/newlib/xelix/mntent_r.c:201-222 | Appends the line of the entry. |
| MountTable.GetAdded | land/newlib/xelix/mntent_r.c:86-222 | What addmntent wrote is what getmntent_r reads, if the fields are nonempty and without newline, the first is no comment and the line fits. |
| MountTable.ReadTable | land/newlib/xelix/mntent_r.c:86-222 | A whole table of such entries comes back. |
| MountTable.LineRead | land/newlib/xelix/mntent_r.c:93-118 | Any line: if what the buffer shows of it is blank or a comment, it is skipped, otherwise it is the next entry. |
| MountTable.LastRead | land/newlib/xelix/mntent_r.c:97-118 | The same for a last line without newline. |
| MountTable.RemarkRead | land/newlib/xelix/mntent_r.c:115-118 | Blank lines and comments are skipped whether they fit the buffer or not. |
| MountTable.ReadMixed | land/newlib/xelix/mntent_r.c:86-146 | A text of entries with blank lines and comments anywhere is read as its entries alone. |
| MountTable.ParseFour | land/newlib/xelix/mntent_r.c:120-134 | Four words with any blanks before and between them are the four names, in order. |
| MountTable.ParseFewer | land/newlib/xelix/mntent_r.c:120-142 | With fewer words the missing names are empty and both numbers 0. |
| MountTable.NumbersRead | land/newlib/xelix/mntent_r.c:134-142 | Two numbers, one and a 0, or those of the entry before where only blanks follow. |
| MountTable.NoNumbers | land/newlib/xelix/mntent_r.c:134-142 | Something else than a number makes both 0. |
| MountTable.StaleNumbers | land/newlib/xelix/mntent_r.c:134-142 | The numbers of the entry before stay if and only if only white space follows the options. |
| Md5.Picked | src/lib/md5.c:161-179 | The word indices of the loop are those of the four rounds of section 3.4 of RFC 1321. |
| Md5.Shifted | src/lib/md5.c:16-19 | So are the shifts. |
| Md5.Conditional | src/lib/md5.c:53-55 | F chooses between y and z by the bits of x. |
| Md5.Choosing | src/lib/md5.c:53-55 | G chooses by those of z. |
| Md5.Parity | src/lib/md5.c:53-55 | H is the parity. |
| Md5.FourTurns | src/lib/md5.c:181-185 | Four turns of the loop are one line of four operations of the RFC. |
| Md5.TurnsAreLines | src/lib/md5.c:161-186 | Four times n turns are n lines. |
| Md5.Step | src/lib/md5.c:151-192 | The 64-turn loop is the four rounds. |
| Md5.AbsorbByte | src/lib/md5.c:90-110 | One byte more: registers and input buffer stand for the longer message. |
| Md5.Context.AddByte | src/lib/md5.c:91-109 | One turn of the update loop. |
| Md5.Load | src/lib/md5.c:98-106 | The words of the input buffer, low-order byte first. |
| Md5.WordBytes | src/lib/md5.c:98-106 | Bytes become words, and words bytes, low-order byte first. |
| Md5.InitBytes | src/lib/md5.c:11-14 | The registers start as the bytes that section 3.3 of RFC 1321 gives. |
| Md5.PaddedForm | src/lib/md5.c:117-137 | One bit, zeros and the length make whole blocks. |
| Md5.Context.constructor | src/lib/md5.c:69-76 | The empty message. |
| Md5.Context.Update | src/lib/md5.c:84-111 | The message grows by the input. |
| Md5.LastBlock | src/lib/md5.c:117-137 | Padding and length make the last block that sections 3.1 and 3.2 of RFC 1321 ask for. |
| Md5.LengthOf | src/lib/md5.c:134-135 | The length in bits as two words, from a size kept on 64 bits. |
| Md5.Context.Finalize | src/lib/md5.c:117-146 | The digest is that of folding the block function over the padded message. |
| Md5.DigestOf | src/lib/md5.c:198-205 | Any splitting of a message over updates gives the digest of the whole. |

## Left out

- KernelHeap.Heap.Kmalloc: requires that a free block fits or the rounded request ends below alloc_max, since the source panics otherwise; the `zero` flag, `krealloc`, canaries and the 32-bit wrap of heap addresses are not modelled.
- KernelHeap.Heap.Kfree: a pointer that passes the source's checks must be the payload of a block; the source trusts its callers here.
- AvlIndex.Index.Erase: for a null argument the tree is not empty; on an empty one the source reads before its path array. Keys are integers: the comparison function is any total order that the calls of a run use consistently.
- AvlTraverse.Iterator.First: the tree is not empty; on an empty one the source reads before its stack.
- Bitmap.GetRange: the first word of the range lies in the data, as the source reads it unchecked.
- Bitmap.ClearBits: a range that passes the test because its end wraps lies outside the data; the source would write there.
- AddressSpace.AllocVirt: a fixed request stays inside the address space; past its end the source reads behind its bitmap.
- VirtualMemory.Context.AllocAt: there is room inside the address space or nothing is found (`AddressSpace.Orderly`), since otherwise the source hands out pages that are not there; a spare node and spare frames are at hand, while `palloc` and zeroing may fail; the kernel's own range and mapping for a new page table of another context are not modelled.
- VirtualMemory.Context.Free: the context has a page directory; without one the source follows a null pointer.
- VirtualMemory.Context.Map: room as for AllocAt; the two contexts are different, since the source takes both locks, and the target has a page directory.
- VirtualMemory.AllocMany: a common run inside the address space, or none; at least one context and no context twice, since the source takes all locks; VM_ZERO is modelled for `vm_alloc_at` only.
- Paging.SetPage: the frame of a new page table is given; that the source takes it from `vm_alloc`, which gives the kernel a range and a mapping for it, is not modelled, except that the kernel's own directory is complete and needs none (`Paging.Complete`).
- Paging.SetRange: the range does not leave the address space; TLB flushes, the permission bits of directory entries and the contents of pages are not modelled.
- Ext2Inodes.Filesystem.Read: inode numbers start at 1, the partition has fewer than 2^31 blocks, and a buffer stands for the memory behind the caller's pointer, as far as it is touched; of `struct inode` only its bytes are modelled.
- Ext2Data.ReadData: the tables and blocks that the inode names lie on the device, which has fewer than 2^31 blocks; the block size of the file system fits an int, being a power of two.
- BlockDevice.SRead: the number of blocks fits an int, and where there is a buffer so does its size, since the source multiplies ints; block drivers deliver all blocks that the disk has.
- MountTable.GetMntent: the text is free of NUL and the buffer holds at least one character; reading and writing are on the text rather than on a FILE.
- Terminal.Terminal.Write: the bytes are given with their number; with the number 0 the source takes those up to the terminator. The text of answers to the host is left out (events stand for it), and so are `tmt_resize` after opening and glyphs below the character cell.
- Md5.Step: the table of sines is taken as printed in RFC 1321.
- Locks, and running out of nodes and page tables: operations are atomic and get those.
- `mem_page_free`, which has no caller because `pfree` expands to nothing; `vm_copy`, `vm_clone`, `vm_cleanup`.
- ext2 writing, creation, directories and permissions.
- Drivers, interrupts, the scheduler, sockets, sysfs, mounting, file descriptors and user space: hardware, foreign code or plumbing that would add easy members only.
