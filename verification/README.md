# The memory stack and the algorithmic cores of the kernel, verified

A Dafny model of a small x86_64 kernel: its frame allocator, heap and page-table
builder, and four self-contained algorithms beside them (the expression
calculator, the line and circle rasterisers, the grid ray caster and the line
editor). `dafny verify dfyconfig.toml` checks everything.

| file | what it holds |
|---|---|
| `Pmm.dfy` | the frame allocator: a class over a byte bitmap, refined to the set of free frames, with the history of calls |
| `PageTable.dfy` | the four-level walk of the processor (Intel SDM volume 3A, section 4.5) over a snapshot of physical memory, with the access rights it ends with (section 4.6), and the invariant that every table is reached once from the root that owns it |
| `TableEdits.dfy`, `Spaces.dfy`, `Bootstrap.dfy` | what adding a table, writing a leaf, making or dropping a root does to every walk; ranges; the tables a destroy returns; the boot window |
| `Vmm.dfy` | the class whose methods are the functions of `vmm.c`, over an array of physical memory and the frame allocator, and the client that runs any sequence of them |
| `HeapList.dfy` | the heap's block list as a value: first fit, split, coalesce, growth |
| `HeapApart.dfy` | that list wherever its blocks lie: which calls keep the blocks from sharing a word |
| `HeapPages.dfy` | the pages it was given: sizes, order, when the blocks stay inside their own frames, runs of the list |
| `HeapMemory.dfy`, `HeapBytes.dfy` | how the list lies in memory: header words, pointers, bytes, and which words a call may write |
| `Heap.dfy` | the class whose methods are the functions of `heap.c`, over the same memory array and the frame allocator |
| `HeapRuns.dfy` | a client that allocates, resizes, writes and frees in any order |
| `Kernel.dfy` | heap and page tables over one allocator and one memory, and the proof that neither touches the other |
| `KernelRuns.dfy` | a client that uses both at once, in any order |
| `Calc.dfy` | the recursive-descent calculator, a printer, and the proof that the first inverts the second |
| `Draw.dfy`, `Ray.dfy`, `Keyboard.dfy` | the rasterisers, the ray caster with its camera, the line editor with its history |
| `Machine.dfy` | machine integers, optional results and two division facts, shared by all |

Addresses, sizes and table entries are natural numbers with the 64-bit wrap written
out where the source can wrap. Physical memory is an array of 64-bit words, 512 to
a frame, seen through the direct map at `hhdm`. Heap positions and sizes are counted
in 8-byte words: a header has 4, a page 512. `vmm_map`, `vmm_unmap` and
`vmm_virt_to_phys` take a physical handle, `vmm_create_pagemap` and
`vmm_destroy_pagemap` deal in virtual ones; the model keeps the two apart and the
client converts. Ghost parameters name the block, table or frame a pointer stands for.

Results that a caller might not expect, all of them properties of the code as it is:

- A translation returned by `vmm_virt_to_phys` is the processor's exactly when the leaf
  entry is below 2^52: a mapping made with NX reads back with bit 63 set (`Spaces.SoftAgrees`,
  `Spaces.NxReadsBack`).
- `vmm_map` gives a page the rights of its flags only as far as the tables on its path allow. The
  tables of `get_or_create` allow everything and those of `vmm_init` all but user mode, so a page
  mapped with USER below one of the latter stays closed to it (`Vmm.AddressSpaces.Map`,
  `TableEdits.LinkRights`).
- `vmm_destroy_pagemap` gives back every table of a space exactly when each present entry of
  its upper half still holds the frame of the kernel's entry in that slot (`Spaces.LeakExactly`).
  Creating a space, mapping a page in a slot the kernel does not use and destroying the space
  loses the frames of the new tables for good (`Vmm.AddressSpaces.CreateMapDestroy`).
- `heap_new_page` does not look where its frame lies. Blocks that share no word stay so exactly when
  a page behind a used tail meets no block, and a free tail that swallows its page has room for 4096
  more bytes where it lies (`HeapApart.GrowDisjoint`, `HeapPages.AllocateDisjoint`). Pages at or
  beyond the end of blocks in address order meet this (`HeapPages.AheadFits`), and on a heap that
  starts empty every page is such a one until some other user gives frames back
  (`HeapPages.AheadKept`); so do frames that are not the heap's and touch the free tail
  (`HeapPages.SnugFits`), also below it (`HeapPages.BelowWitness`). Dressing a page keeps the list
  readable exactly when its header meets no header of the list, but for the zero size of a block of
  no words (`HeapMemory.DressExact`).
- `heap_coalesce` never compares addresses. The list in memory survives any `kfree`
  (`Heap.KernelHeap.Kfree`), but the blocks stay apart exactly when the block made of the freed one
  and its free neighbours clears all others (`HeapApart.ReleaseDisjoint`), which it does when the
  blocks lie in address order (`HeapApart.OrderedClears`). With frames 258, 257 and 259 taken in that
  order and handed out, two calls of `kfree` make a free block of the third one's words, and the next
  `kmalloc` hands them out again (`HeapPages.SwallowWitness`).
- A merge can also swallow a frame that is not the heap's. The blocks stay inside the heap's own
  frames exactly when a page merged with a free tail touches it (`HeapPages.AllocateExact`) and the
  blocks that `kfree` merges lie side by side (`HeapPages.ReleaseExact`), inside `krealloc` too
  (`HeapPages.MoveExact`). With frames 256 and 258 and another user's frame 257 between them, two
  requests put a header into frame 257 (`HeapPages.GapWitness`), and when that frame is later given
  to the heap its new header destroys the one that was there (`HeapMemory.OverlapWitness`). Frames
  without a hole among them, first behind the heap, meet every condition once and for all, and the
  blocks tile them after every call (`HeapPages.RunTiles`, `HeapRuns.Client.Run`).
- Rounding a request up to a multiple of 8 covers it exactly when it is 0 or at most 2^64 - 8
  (`Heap.RoundingCovers`).
- The line loop fits 32-bit integers exactly when its sides meet a condition that involves their
  greatest common divisor (`Draw.LineFitsExactly`).
- The circle loops fit 32-bit integers exactly up to radius 2^30 + 3 (`Draw.RadiusLimit`).
- `heap_get_stats` reports 32 free bytes too many for each block beyond one a page.
- Caps lock shifts digits and punctuation too (`Keyboard.RowTypes`).
- A recalled history line that fills the input buffer is submitted at once (`Keyboard.RecallSubmits`).

## Model

| member | source | states |
|---|---|---|
| `Pmm.ShiftedBit` | kernel/src/mm/pmm.c:10-12 | the shifts of `bm_set` and `bm_get` select the bit of the mask |
| `Pmm.BitLaws` | kernel/src/mm/pmm.c:10-12 | setting or clearing a bit of a byte changes that bit and no other |
| `Pmm.InFreeOf` | kernel/src/mm/pmm.c:12 | a frame is in the free set exactly when it is below the total and its bit is clear |
| `Pmm.WriteBit` | kernel/src/mm/pmm.c:10-11 | a byte store is insertion into or removal from the set of free frames |
| `Pmm.Allocator.BmWrite` | kernel/src/mm/pmm.c:10-11 | the same for the bitmap in place |
| `Pmm.Allocator.BmGet` | kernel/src/mm/pmm.c:12 | reads membership of the free set |
| `Pmm.Allocator.HighestEnd` | kernel/src/mm/pmm.c:37-48 | the highest end of a usable region, attained by one, or 0 |
| `Pmm.Allocator.PlaceBitmap` | kernel/src/mm/pmm.c:58-70 | the bitmap goes to the first usable region at or above 1 MiB that is large enough; there is none exactly when no region fits |
| `Pmm.BitmapInsideRegion` | kernel/src/mm/pmm.c:91-94 | the frames under the bitmap lie in the region that hosts it, so the loop stays in bounds |
| `Pmm.Allocator.Init` | kernel/src/mm/pmm.c:33-102 | for page-aligned disjoint usable regions exactly the usable frames less the bitmap's own are free, and the counter is the size of that set |
| `Pmm.Allocator.AllocPage` | kernel/src/mm/pmm.c:104-114 | returns the least free frame at or above 1 MiB and takes just that one; NULL exactly when there is none, and then nothing changes |
| `Pmm.Allocator.FreePage` | kernel/src/mm/pmm.c:116-122 | puts a frame below the total back, ignores any other, and keeps the counter exact |
| `Pmm.Allocator.FreePageCount` | kernel/src/mm/pmm.c:124-126 | the counter is the number of free frames |
| `Pmm.NoDoubleHandout` | kernel/src/mm/pmm.c:104-122 | over any history, a frame handed out twice was given back in between |
| `PageTable.SamePath` | kernel/src/mm/vmm.c:34-37 | the four table indices of two addresses agree exactly when bits 12 to 47 do |
| `PageTable.PageNumberOf` | kernel/src/mm/vmm.c:34-37 | the four indices are the base-512 digits of bits 12 to 47, the first one highest |
| `PageTable.WalkByPath` | kernel/src/mm/vmm.c:34-37 | equal indices lead the processor to the same table, or to a fault together |
| `PageTable.RightsByPath` | kernel/src/mm/vmm.c:34-37 | and over entries that allow the same |
| `PageTable.ChildOf` | kernel/src/mm/vmm.c:39-43 | the frame read as `entry & ~0xFFF` is the one the processor reads, and it is the table recorded there |
| `PageTable.WalkMeets` | kernel/src/mm/vmm.c:52-64 | a walk meets only tables whose recorded path is the address's own, in the space walked or the kernel's shared half |
| `TableEdits.HangShape` | kernel/src/mm/vmm.c:39-48 | hanging a zeroed frame in an absent slot keeps the tables tree-shaped |
| `TableEdits.HangTranslate` | kernel/src/mm/vmm.c:39-48 | and changes no translation of any address in any space, and no access right of one |
| `TableEdits.LinkRights` | kernel/src/mm/vmm.c:46 | a link of get_or_create allows everything, and one of vmm_init (line 192) all but user mode |
| `TableEdits.HangRights` | kernel/src/mm/vmm.c:46 | nor what any walk that gets somewhere is allowed; a link of get_or_create takes no right from any walk at all |
| `TableEdits.HangReaches` | kernel/src/mm/vmm.c:44-47 | and the walk that selected the slot now reaches the new table |
| `TableEdits.LeafEffect` | kernel/src/mm/vmm.c:65 | one leaf write remaps exactly the page of its address, in its space and, for an upper-half address, in the spaces that share the table; the page may be used as its entry says, as far as every table on its path allows |
| `TableEdits.LeafRightsAfter` | kernel/src/mm/vmm.c:65 | a walk through the leaf ends with the rights of its path and of the leaf together, any other as before |
| `TableEdits.RootShape` | kernel/src/mm/vmm.c:131-145 | a zeroed root with the kernel's upper half copied in keeps the tables tree-shaped |
| `TableEdits.DropShape` | kernel/src/mm/vmm.c:147-171 | forgetting all tables of one space leaves the others tree-shaped |
| `Spaces.LeafBits` | kernel/src/mm/vmm.c:65 | the leaf entry is present as the flags say and holds the frame of phys |
| `Spaces.LeafAsAsked` | kernel/src/mm/vmm.c:65 | the leaf is the one word whose bits 0 to 11 are those of flags, bits 12 to 62 those of phys, and bit 63 set when either has it |
| `Spaces.LeafRights` | kernel/src/mm/vmm.c:65 | such a leaf allows writing, user mode and execution exactly as the flags ask |
| `Spaces.SoftAgrees` | kernel/src/mm/vmm.c:89-105 | the kernel's translation is the processor's, exactly when the leaf entry is below 2^52 |
| `Spaces.NxReadsBack` | kernel/src/mm/vmm.c:65-104 | a page mapped with NX translates to its address with bit 63 set |
| `Spaces.Created` | kernel/src/mm/vmm.c:39-48 | one new table: tree kept, translations and rights kept, one frame moved from the free set to the tables |
| `Spaces.Mapped` | kernel/src/mm/vmm.c:52-69 | the new tables followed by the leaf write remap exactly one page, with the rights its tables allowed before |
| `Spaces.RangeExact` | kernel/src/mm/vmm.c:107-119 | with n pages done, byte k of an aligned non-wrapping range translates to phys + k exactly below n pages, with the rights of flags as far as its path allows, and beyond that keeps its meaning |
| `Spaces.RangeStep` | kernel/src/mm/vmm.c:111-115 | one more page extends what the range means and leaves the other spaces alone |
| `Spaces.RangeFails` | kernel/src/mm/vmm.c:116 | a page that fails changes no translation |
| `Spaces.Rooting` | kernel/src/mm/vmm.c:131-145 | a new root translates nothing below and what the kernel translates above |
| `Spaces.PathIsUnique` | kernel/src/mm/vmm.c:147-171 | no table is reached twice from one root |
| `Spaces.SlotHolds` | kernel/src/mm/vmm.c:152-168 | an entry leads to one table of the space and all that hangs below it, or to nothing |
| `Spaces.RootDoomed` | kernel/src/mm/vmm.c:147-171 | what the scan of slots 0 to 255 meets is every table of the lower half |
| `Spaces.RangeInStep` | kernel/src/mm/vmm.c:107-119 | the same for all bytes of an aligned range at once, with the page count of its size |
| `Spaces.LeakExactly` | kernel/src/mm/vmm.c:152-170 | a destroy returns all tables of a space exactly when each present upper-half entry of its root holds the frame of the kernel root's entry in that slot |
| `Spaces.OwnUpper` | kernel/src/mm/vmm.c:52-69 | a map into an upper-half slot that is absent makes tables of the space's own, one in that slot |
| `Spaces.OpenCloses` | kernel/src/mm/vmm.c:147-171 | closing a space used below the upper half conserves frames and leaves the other open spaces as they were |
| `Spaces.OpenLast` | kernel/src/mm/vmm.c:131-171 | with no space open the free set and the tables are the first ones |
| `Bootstrap.WindowTranslates` | kernel/src/mm/vmm.c:181-203 | a window entry in place translates its 2 MiB one to one, through a huge entry |
| `Bootstrap.WindowForKernel` | kernel/src/mm/vmm.c:181-204 | under such tables each of its bytes may be written and executed by the kernel and is closed to user mode, entry by entry on the memory the walk reads |
| `Bootstrap.GuardedHang` | kernel/src/mm/vmm.c:189-200 | a link made at boot keeps the present entries of the upper two levels writable, executable, not for user mode and without other bits |
| `Bootstrap.WindowDistinct` | kernel/src/mm/vmm.c:181-187 | the 2048 window entries lie in different slots, also across table boundaries |
| `Bootstrap.WindowWritten` | kernel/src/mm/vmm.c:203 | writing one window entry disturbs no other |
| `Bootstrap.SpentBound` | kernel/src/mm/vmm.c:189-200 | the window costs at most eight table frames |
| `Spaces.WholeWindow` | kernel/src/mm/vmm.c:181-204 | all window entries in place map the first 4 GiB at hhdm, for the kernel alone |
| `Vmm.AddressSpaces.AllocTable` | kernel/src/mm/vmm.c:27-33 | a zeroed frame that was free and no table, other frames untouched; 0 exactly when none is available |
| `Vmm.AddressSpaces.GetOrCreate` | kernel/src/mm/vmm.c:39-48 | the table behind an entry, created when absent with the entry present, writable and user; a present entry changes nothing; no translation and no right on any path changes; fails only without frames |
| `Vmm.AddressSpaces.Map` | kernel/src/mm/vmm.c:52-69 | -1 exactly for no handle or more missing tables than frames; success remaps exactly the page of virt, with the rights of flags as far as the tables on its path allow, and leaves an entry with the low bits of flags, the address bits of phys and NX from either; failure changes no translation; frames are conserved and the tables stay a tree |
| `Vmm.AddressSpaces.Unmap` | kernel/src/mm/vmm.c:71-87 | the page of virt translates to nothing, all else is unchanged |
| `Vmm.AddressSpaces.Translate` | kernel/src/mm/vmm.c:89-105 | 0 when unmapped, else the processor's address modulo 2^52, equal to it exactly when the entry is below 2^52 |
| `Vmm.AddressSpaces.MapRange` | kernel/src/mm/vmm.c:107-119 | 0 exactly when all pages were mapped; otherwise a prefix was, and nothing else changed; each page mapped has the rights of flags as far as its path allows; for an aligned range that does not wrap, 0 means that every byte of it translates in step with those rights |
| `Vmm.AddressSpaces.CreatePagemap` | kernel/src/mm/vmm.c:131-145 | a fresh root with nothing below and the kernel's upper half, entry by entry; NULL exactly without frames |
| `Vmm.AddressSpaces.CopyUpperHalf` | kernel/src/mm/vmm.c:136-143 | entries 256 to 511 of the new root are the kernel's, nothing else is written |
| `Vmm.AddressSpaces.DestroyPagemap` | kernel/src/mm/vmm.c:147-171 | frees the root and every table of its lower half, each once, and no other frame; frames are conserved exactly when the upper half is still the kernel's |
| `Vmm.AddressSpaces.CreateMapDestroy` | kernel/src/mm/vmm.c:52-171 | creating a space, mapping in an upper-half slot the kernel does not use and destroying the space leaves the tables as they were and loses frames |
| `Vmm.AddressSpaces.FreeLevel0` | kernel/src/mm/vmm.c:152-168 | the outer scan frees what hangs below slots 0 to 255, each table once |
| `Vmm.AddressSpaces.FreeLevel1` | kernel/src/mm/vmm.c:156-166 | the middle scan, for one page-directory-pointer table |
| `Vmm.AddressSpaces.FreeLevel2` | kernel/src/mm/vmm.c:160-164 | the inner scan, for one page directory: page tables, no leaf frames |
| `Vmm.AddressSpaces.EnsureTable` | kernel/src/mm/vmm.c:189-200 | the inline twin of get_or_create for the two upper levels, with the entry present and writable, and not for user mode |
| `Vmm.AddressSpaces.MapWindowPage` | kernel/src/mm/vmm.c:181-203 | one turn of the boot loop puts its entry in place, keeps the earlier ones, leaves the later ones unmapped, and keeps the tables above for the kernel alone |
| `Vmm.AddressSpaces.MapApic` | kernel/src/mm/vmm.c:205-224 | the APIC block leaves memory as it is |
| `Vmm.AddressSpaces.Init` | kernel/src/mm/vmm.c:173-225 | with enough frames every x below 4 GiB is reached from hhdm + x through a huge entry, by entries that are writable and closed to user mode at all three levels |
| `Vmm.AddressSpaces.Run` | kernel/src/mm/vmm.c:52-171 | any sequence of creates, lower-half maps and unmaps, failing ones included, and destroys, once all spaces are destroyed, restores the free set and the tables, and no older space sees a change |
| `HeapList.Ordered` | kernel/src/mm/heap.c:48-78 | blocks in list order lie in address order without overlap |
| `HeapList.LiveApart` | kernel/src/mm/heap.c:48-123 | live blocks are pairwise disjoint |
| `HeapList.Accounted` | kernel/src/mm/heap.c:34-61 | headers, used words and free words are all the words there are |
| `HeapList.TilesExactly` | kernel/src/mm/heap.c:34-78 | ordered blocks leave no gap exactly when their sizes add up to the span |
| `HeapList.SplitStacked` | kernel/src/mm/heap.c:48-61 | splitting keeps the order |
| `HeapList.PlaceIsSplitAndMark` | kernel/src/mm/heap.c:92-96 | split then mark is the placement of the specification |
| `HeapList.PlaceLive` | kernel/src/mm/heap.c:92-96 | placing adds one live block with at most 32 bytes to spare |
| `HeapList.PlaceCanonical` | kernel/src/mm/heap.c:92-96 | placing leaves no two free neighbours |
| `HeapList.CoalesceCanonical` | kernel/src/mm/heap.c:63-78 | coalescing a list value around the one block that may have free neighbours restores a canonical list with the same live blocks |
| `HeapList.CoalesceKeeps` | kernel/src/mm/heap.c:63-78 | and keeps the blocks in order, gaps or not |
| `HeapList.GrowKeeps` | kernel/src/mm/heap.c:101-109 | appending a page at or beyond the tail and coalescing keeps order, canonicity and live blocks |
| `HeapList.GrowthLaw` | kernel/src/mm/heap.c:101-121 | after a failed search and one page, the request fits exactly when it is at most the free tail plus 4096 bytes, or 4064 behind a used tail |
| `HeapList.TakenIs` | kernel/src/mm/heap.c:85-104 | how many pages a call takes: none when a block fits, one, or two from an empty heap |
| `HeapList.AllocateSucceeds` | kernel/src/mm/heap.c:80-123 | kmalloc succeeds exactly when a block fits as it is, or a page can be had and the grown tail is large enough, or from an empty heap two pages can be had and hold it |
| `HeapList.FailureGrows` | kernel/src/mm/heap.c:101-123 | each failure with a page in hand, the first call included, widens the free tail by 4096 bytes a page |
| `HeapList.RetriesEnd` | kernel/src/mm/heap.c:80-123 | the number of such failures in a row is bounded by the size asked for and by the frames |
| `HeapList.AllocateLive` | kernel/src/mm/heap.c:80-123 | a successful call adds exactly one live block, at the first fit, large enough; a failed one none |
| `HeapList.ReleaseLive` | kernel/src/mm/heap.c:150-163 | freeing removes exactly that live block and leaves a canonical list, wherever the blocks lie |
| `HeapList.ReleaseKeeps` | kernel/src/mm/heap.c:150-163 | and keeps blocks in address order in that order |
| `HeapList.FreeUndoes` | kernel/src/mm/heap.c:80-163 | freeing what was just placed restores the list that was searched |
| `HeapApart.PlaceDisjoint` | kernel/src/mm/heap.c:48-61 | cutting a block and handing it out leaves blocks apart exactly when they were apart before |
| `HeapApart.CoalesceDisjoint` | kernel/src/mm/heap.c:63-78 | coalescing keeps blocks apart exactly when the block it makes ends in memory and meets none of the others |
| `HeapApart.ReleaseDisjoint` | kernel/src/mm/heap.c:150-163 | so does kfree |
| `HeapApart.OrderedClears` | kernel/src/mm/heap.c:150-163 | that is always so for blocks in address order |
| `HeapApart.GrowDisjoint` | kernel/src/mm/heap.c:101-109 | a page keeps blocks apart exactly when it meets none of them behind a used tail, or a free tail has room for 4096 more bytes |
| `HeapPages.MergeExact` | kernel/src/mm/heap.c:63-78 | a merge keeps the blocks inside the heap's own frames exactly when the second block touches the first |
| `HeapPages.CoalesceExact` | kernel/src/mm/heap.c:63-78 | coalescing does exactly when the blocks it makes one of lie side by side: each free neighbour touches, or of three the last lies between the other two |
| `HeapPages.GrowExact` | kernel/src/mm/heap.c:101-109 | a page does exactly when the tail is used or the page touches it |
| `HeapPages.AllocateExact` | kernel/src/mm/heap.c:80-123 | kmalloc does exactly when a page it merges with a free tail touches it |
| `HeapPages.ReleaseExact` | kernel/src/mm/heap.c:150-163 | kfree does exactly when the block and its free neighbours lie side by side |
| `HeapPages.SnugClears` | kernel/src/mm/heap.c:150-163 | then the block it makes meets no other either |
| `HeapPages.MovedSnug` | kernel/src/mm/heap.c:140-147 | what the kfree of krealloc will merge, told from the list before its kmalloc |
| `HeapPages.MoveExact` | kernel/src/mm/heap.c:134-148 | krealloc keeps the blocks inside the heap's own frames exactly when those its kfree merges lie side by side |
| `HeapPages.AllocateDisjoint` | kernel/src/mm/heap.c:80-123 | kmalloc keeps blocks apart exactly when it takes no page, or one that meets no block behind a used tail or finds room behind a free one |
| `HeapPages.AheadFits` | kernel/src/mm/heap.c:80-123 | pages at or beyond the end of blocks in address order meet that condition |
| `HeapPages.SnugFits` | kernel/src/mm/heap.c:80-123 | so do frames that are not the heap's and touch the free tail they are merged with |
| `HeapPages.BelowWitness` | kernel/src/mm/heap.c:80-123 | such a frame may lie below the tail |
| `HeapPages.SwallowWitness` | kernel/src/mm/heap.c:80-163 | three pages out of order, two frees and a kmalloc: two live blocks share words |
| `HeapPages.GapWitness` | kernel/src/mm/heap.c:80-123 | kmalloc(16) and kmalloc(4032) with frames 256 and 258 leave a header in frame 257 |
| `HeapPages.AllocateKeeps` | kernel/src/mm/heap.c:80-123 | pages ahead of the tail keep the order, the canonical form and the head, and the sizes add up to 4096 bytes a page |
| `HeapPages.AheadKept` | kernel/src/mm/heap.c:80-123 | once all available frames lie ahead of the heap they do so after every call; on an empty heap they always do |
| `HeapPages.PagesTaken` | kernel/src/mm/heap.c:34-46 | the pages taken are the least of the available frames |
| `HeapPages.ReleaseInOrder` | kernel/src/mm/heap.c:150-163 | kfree keeps the order and the head and does not move the end outwards |
| `HeapPages.RunOfFrames` | kernel/src/mm/heap.c:34-46 | frames without a hole among them are handed out one behind the other |
| `HeapPages.RunTiles` | kernel/src/mm/heap.c:80-123 | one run of frames behind the heap meets every condition on kmalloc, and blocks that tile the pages before the call do so after it |
| `HeapPages.ReleaseTiles` | kernel/src/mm/heap.c:150-163 | freeing in a tiling leaves one and always touches what it merges with |
| `HeapPages.RunKeeps` | kernel/src/mm/heap.c:48-163 | over any run of placements, releases and pages on list values: no two neighbours both free, the head never changes once set, headers and sizes add up to 4096 bytes a page |
| `HeapPages.RunInOrder` | kernel/src/mm/heap.c:48-163 | when every page comes at or beyond the tail, the blocks of such a run never overlap |
| `HeapPages.AllocateIsRun` | kernel/src/mm/heap.c:80-123 | kmalloc on the list is such a run |
| `HeapMemory.MetaLaws` | kernel/src/mm/heap.c:7-13 | the used byte and the magic number share a word and do not disturb each other |
| `HeapMemory.SplitListed` | kernel/src/mm/heap.c:48-61 | the stores of a split make the headers link up to the split list, both ways |
| `HeapMemory.MergeListed` | kernel/src/mm/heap.c:63-78 | the stores of either half of coalescing make them link up to the merged list |
| `HeapMemory.PayloadsUntouched` | kernel/src/mm/heap.c:48-78 | stores in headers and free blocks change no live payload |
| `HeapMemory.LinkedAppend` | kernel/src/mm/heap.c:104-107 | linking a dressed page whose header lies in no other header and no live block leaves the appended list in memory and live payloads alone |
| `HeapMemory.LinkedOutside` | kernel/src/mm/heap.c:5-13 | words in no block do not matter to the heap |
| `HeapMemory.DressExact` | kernel/src/mm/heap.c:34-46 | dressing a page keeps the list readable exactly when its header meets no header of the list, or only the zero size of a block of no words |
| `HeapMemory.OverlapWitness` | kernel/src/mm/heap.c:34-123 | the frame under a swallowed header, handed to the heap again, destroys that header |
| `HeapBytes.ByteLaw` | kernel/src/mm/heap.c:24-32 | storing a byte of a word changes that byte and no other |
| `HeapBytes.BytesDetermine` | kernel/src/mm/heap.c:24-32 | words with the same bytes are equal |
| `HeapBytes.LinkedInside` | kernel/src/mm/heap.c:24-32 | writing inside one payload disturbs neither the list nor another payload |
| `Heap.RoundingCovers` | kernel/src/mm/heap.c:82 | rounding covers the request, by less than a word, exactly when it does not wrap |
| `Heap.OverflowCheck` | kernel/src/mm/heap.c:126-127 | the division test fails exactly when the product overflows |
| `Heap.NewBlock` | kernel/src/mm/heap.c:80-123 | where a successful kmalloc put its block, which is none of the live ones |
| `Heap.KernelHeap.HeapNewPage` | kernel/src/mm/heap.c:34-46 | the least available frame as one free block of 4064 bytes; NULL exactly without frames |
| `Heap.KernelHeap.HeapSplit` | kernel/src/mm/heap.c:48-61 | refines the split of the list; live payloads unchanged |
| `Heap.KernelHeap.HeapCoalesce` | kernel/src/mm/heap.c:63-78 | terminates and refines coalescing of the list; live payloads unchanged |
| `Heap.KernelHeap.Search` | kernel/src/mm/heap.c:89-99 | the first fitting block in list order, or none |
| `Heap.KernelHeap.Kmalloc` | kernel/src/mm/heap.c:80-123 | refines the allocation of the list in memory, with exact counters; takes exactly its pages from the free set; changes no live payload and no word but headers of the old and new list; never moves the list head once it is set |
| `Heap.KernelHeap.Kfree` | kernel/src/mm/heap.c:150-163 | refines the release of the list in memory wherever its blocks lie, with exact counters, so the clamps never act; blocks that were apart stay so exactly when the block made of the freed one clears the others; NULL and free blocks are left alone; no live payload and no word but headers changes |
| `Heap.KernelHeap.HeapMemset` | kernel/src/mm/heap.c:24-27 | the first n bytes hold the value, words outside the block are unchanged |
| `Heap.KernelHeap.HeapMemcpy` | kernel/src/mm/heap.c:28-32 | the bytes are copied, words outside the destination are unchanged |
| `Heap.KernelHeap.Kcalloc` | kernel/src/mm/heap.c:125-131 | refuses exactly overflowing products; otherwise kmalloc with all requested bytes zero and no other payload changed |
| `Heap.KernelHeap.Krealloc` | kernel/src/mm/heap.c:134-148 | the same pointer when the block is large enough; else a new live block whose first old-size bytes are the old contents, the old block freed as kfree does, with the same exact condition, other contents and all words but headers unchanged; on failure the old block stays |
| `Heap.KernelHeap.HeapGetStats` | kernel/src/mm/heap.c:170-185 | exact block counts; 4064 bytes in all for each page; free bytes are the true ones plus 32 for every block beyond one a page, at least 0 |
| `HeapRuns.AllFreed` | kernel/src/mm/heap.c:63-78 | with nothing live the heap is empty or one free block of all its pages |
| `HeapRuns.Added` | kernel/src/mm/heap.c:80-123 | a new buffer leaves the others' contents as they were |
| `HeapRuns.Removed` | kernel/src/mm/heap.c:150-163 | so does a freed one |
| `HeapRuns.Moved` | kernel/src/mm/heap.c:134-148 | a buffer that krealloc moved holds in front what it held, and the others are as they were |
| `HeapRuns.TookAhead` | kernel/src/mm/heap.c:80-123 | blocks in order with all available frames ahead of them are so after kmalloc |
| `HeapRuns.GaveAhead` | kernel/src/mm/heap.c:150-163 | and after kfree, whose merged block then clears the others |
| `HeapRuns.TiledServed` | kernel/src/mm/heap.c:80-123 | blocks without a gap, with the available frames one run right behind them, are so after kmalloc |
| `HeapRuns.TiledReleased` | kernel/src/mm/heap.c:150-163 | and after kfree |
| `HeapRuns.TiledSpan` | kernel/src/mm/heap.c:34-46 | such blocks are in order and are the heap's pages end to end |
| `HeapRuns.Client.DoMalloc` | kernel/src/mm/heap.c:80-123 | adds exactly the buffer that kmalloc hands out, or none when it fails; every held buffer still reads what was last written to it |
| `HeapRuns.Client.DoCalloc` | kernel/src/mm/heap.c:125-131 | the same, with the new buffer zero |
| `HeapRuns.Client.DoRealloc` | kernel/src/mm/heap.c:134-148 | the buffer is moved with its contents in front, left alone when it is large enough or memory runs out, or freed for size 0 |
| `HeapRuns.Client.DoFree` | kernel/src/mm/heap.c:150-163 | drops just that buffer, wherever the frames lie |
| `HeapRuns.Client.Run` | kernel/src/mm/heap.c:80-163 | after any calls of kmalloc, kcalloc, krealloc and kfree and freeing the rest, the heap is empty or one free block of all its pages, with the counters 0 and no frame lost; blocks that tile one run of frames do so throughout |
| `Kernel.HeapUntouched` | kernel/src/mm/vmm.c:27-171 | writes to tables, old or newly taken from the free set, leave the heap's list and contents as they were |
| `Kernel.TablesUntouched` | kernel/src/mm/heap.c:34-163 | writes inside the heap's frames leave the tables and every translation as they were |
| `Kernel.ServedExact` | kernel/src/mm/heap.c:80-123 | the list that kmalloc leaves covers exactly the heap's frames, old and new, when a page it merges touches |
| `Kernel.ServedInside` | kernel/src/mm/heap.c:80-148 | then kmalloc, kcalloc and krealloc write inside the heap's frames only |
| `Kernel.ReleaseInside` | kernel/src/mm/heap.c:150-163 | so does kfree |
| `Kernel.Kernel.Map` | kernel/src/mm/vmm.c:52-69 | the failure law and the remapping of a map, with the heap and every live payload kept |
| `Kernel.Kernel.Unmap` | kernel/src/mm/vmm.c:71-87 | the page is unmapped, and the heap kept |
| `Kernel.Kernel.CreatePagemap` | kernel/src/mm/vmm.c:131-145 | the new root and its handle, what it translates, and the heap kept |
| `Kernel.Kernel.DestroyPagemap` | kernel/src/mm/vmm.c:147-171 | exactly the tables of the lower half go back to the free set, none of them the heap's |
| `Kernel.Kernel.Kmalloc` | kernel/src/mm/heap.c:80-123 | the list, pointer and frames of kmalloc, with every table, translation and live payload kept |
| `Kernel.Kernel.Kcalloc` | kernel/src/mm/heap.c:125-131 | the same for kcalloc, with the bytes zero |
| `Kernel.Kernel.Kfree` | kernel/src/mm/heap.c:150-163 | the list of kfree, with the same kept |
| `Kernel.Kernel.Krealloc` | kernel/src/mm/heap.c:134-148 | the list, pointer, frames and moved contents of krealloc, with the same kept |
| `Kernel.Kernel.Touches` | kernel/src/mm/heap.c:63-78 | reads from the headers, exactly, whether kfree stays inside the heap's frames |
| `Kernel.Kernel.MayAllocate` | kernel/src/mm/heap.c:80-123 | reads from the headers and the bitmap, exactly, whether kmalloc stays inside the heap's frames and its pages can be counted |
| `Kernel.Kernel.StaysSnug` | kernel/src/mm/heap.c:134-148 | reads from the headers, exactly, whether the kfree inside krealloc stays inside them, if krealloc comes to it |
| `KernelRuns.HandedIs` | kernel/src/mm/heap.c:80-123 | a kmalloc that stays inside the heap's frames adds its buffer and changes none of those held |
| `KernelRuns.EnlargedIs` | kernel/src/mm/heap.c:134-148 | a krealloc that does so moves its buffer with the contents in front and changes none of the others |
| `KernelRuns.Session.DoSpace` | kernel/src/mm/vmm.c:52-171 | any step on address spaces keeps the heap and every buffer held |
| `KernelRuns.Session.DoMalloc` | kernel/src/mm/heap.c:80-123 | kmalloc is called exactly when it stays inside the heap's frames and its pages can be counted, and then leaves its list, frames and buffer; otherwise nothing changes; the address spaces and the buffers held are kept |
| `KernelRuns.Session.DoCalloc` | kernel/src/mm/heap.c:125-131 | the same for kcalloc, with the buffer zero |
| `KernelRuns.Session.DoRealloc` | kernel/src/mm/heap.c:134-148 | the same for krealloc, exactly when its kmalloc and its kfree stay inside the heap's frames |
| `KernelRuns.Session.DoFree` | kernel/src/mm/heap.c:150-163 | the same for kfree, exactly when the blocks it merges lie side by side |
| `KernelRuns.Session.Run` | kernel/src/mm/heap.c:80-163 | any interleaving of creates, lower-half maps and unmaps, destroys, kmalloc, kcalloc, krealloc, kfree and writes, then the open spaces destroyed: every call took the heap and the buffers from one recorded state to the next as it says, the tables are the first ones, older spaces saw no change, every buffer held reads what was last written, and the heap's frames and the free ones are together what they were |
| `Calc.ScanReads` | kernel/src/shell/commands.c:35-46 | the digit loops read a digit string to its value modulo 2^64 and stop behind it |
| `Calc.NumberReads` | kernel/src/shell/commands.c:30-48 | decimal and hexadecimal literals are read back |
| `Calc.DecimalReads` | kernel/src/shell/commands.c:44-46 | every number below 2^64 is read back from its decimal digits |
| `Calc.HexadecimalReads` | kernel/src/shell/commands.c:33-42 | and from its hexadecimal ones, in either case behind either prefix |
| `Calc.BitwiseBits` | kernel/src/shell/commands.c:87-101 | each bit of `&`, `^` and `\|` is the operator on the operands' bits |
| `Calc.ComplementInverts` | kernel/src/shell/commands.c:52 | each bit of `~a` is the other value of that bit of a |
| `Calc.ApplyMeans` | kernel/src/shell/commands.c:56-101 | each operator computes what fits it: sum, difference, product and left shift congruent modulo 2^64, quotient q and remainder with b * q <= a < b * (q + 1) or 0 by 0, right shift the same by a power of two, `&`, `^` and `\|` bit by bit |
| `Calc.MeansOnce` | kernel/src/shell/commands.c:56-101 | and the only value that fits it, but for a shift by 64 or more |
| `Calc.Parenthesised` | kernel/src/shell/commands.c:51 | parentheses read as what they enclose |
| `Calc.Signed` | kernel/src/shell/commands.c:52-53 | unary operators apply to the primary behind them |
| `Calc.ChainStep` | kernel/src/shell/commands.c:56-101 | operators of one level associate to the left |
| `Calc.Reads` | kernel/src/shell/commands.c:49-102 | the function of each level reads back an operand printed for that level, whatever closing text follows |
| `Calc.ParserInvertsPrinter` | kernel/src/shell/commands.c:30-102 | for every tree printed with minimal parentheses and any spaces, the whole text is consumed and the value is the tree's |
| `Calc.EvalIsExactMod` | kernel/src/shell/commands.c:53-75 | sums, differences, products and signs come out as over the integers, modulo 2^64 |
| `Calc.EvalDenotes` | kernel/src/shell/commands.c:30-102 | the value of every tree is one it denotes by what its operators mean |
| `Calc.DenotesOnce` | kernel/src/shell/commands.c:30-102 | and by nothing else, as long as shifts are by less than 64 |
| `Calc.OperatorLines` | kernel/src/shell/commands.c:49-102 | each of the ten operators and both signs in its own spelling between decimal numbers |
| `Calc.TwoOperators` | kernel/src/shell/commands.c:56-101 | of two operators in a row the first takes the middle number exactly when it binds at least as tightly |
| `Calc.BitLines` | kernel/src/shell/commands.c:87-101 | `&` before `^` before `\|` |
| `Calc.ShiftLines` | kernel/src/shell/commands.c:67-91 | sums before shifts, shifts before `&` |
| `Calc.SumLines` | kernel/src/shell/commands.c:56-76 | products before sums, equal operators from the left, in their spelling |
| `Calc.StopsThere` | kernel/src/shell/commands.c:77-101 | at `\|\|`, `&&`, a single `<` or `>` and anything unknown reading stops and leaves the rest |
| `Calc.MalformedLines` | kernel/src/shell/commands.c:49-55 | a missing parenthesis is taken as read and an empty line is 0 |
| `Calc.Calculator.CalcNum` | kernel/src/shell/commands.c:30-48 | refines the specified reading of a number |
| `Calc.Calculator.CalcPrimary` | kernel/src/shell/commands.c:49-55 | refines level 6 |
| `Calc.Calculator.CalcMul` | kernel/src/shell/commands.c:56-66 | refines level 5: products modulo 2^64, quotients and remainders as `Calc.ApplyMeans` says of each, with x/0 and x%0 equal to 0 |
| `Calc.Calculator.CalcAdd` | kernel/src/shell/commands.c:67-76 | refines level 4 |
| `Calc.Calculator.CalcShift` | kernel/src/shell/commands.c:77-86 | refines level 3 |
| `Calc.Calculator.CalcBand` | kernel/src/shell/commands.c:87-91 | refines level 2 |
| `Calc.Calculator.CalcBxor` | kernel/src/shell/commands.c:92-96 | refines level 1 |
| `Calc.Calculator.CalcBor` | kernel/src/shell/commands.c:97-101 | refines level 0 |
| `Calc.Calculator.CalcExpr` | kernel/src/shell/commands.c:102 | refines level 0 |
| `Calc.Calculator.CmdCalc` | kernel/src/shell/commands.c:465-467 | refines level 0 on any text; on a printed tree it consumes the text and returns the one value the tree denotes |
| `Draw.BothEnd` | kernel/src/graphics/cpu/draw.c:75 | when the longer side is used up, so is the shorter |
| `Draw.BresenhamStep` | kernel/src/graphics/cpu/draw.c:76-78 | the two tests keep the error law and the half-pixel bound and always advance along the longer side |
| `Draw.ReachedNear` | kernel/src/graphics/cpu/draw.c:66-80 | the bound on steps is the distance from the line, in every direction |
| `Draw.LineUnique` | kernel/src/graphics/cpu/draw.c:66-80 | there is only one such run of pixels, so the two ends determine it |
| `Draw.Canvas.DrawInit` | kernel/src/graphics/cpu/draw.c:13-17 | the screen size is set, and a screen that fits the back buffer can be drawn on |
| `Draw.Canvas.DrawPixel` | kernel/src/graphics/cpu/draw.c:26-31 | colours that pixel when it is on screen and changes no other |
| `Draw.Canvas.DrawLine` | kernel/src/graphics/cpu/draw.c:66-80 | draws max(dx, dy) + 1 pixels from one end to the other, each next to the last, between the ends and within half a pixel of the line, of two half a pixel away the one further along the slower axis, and changes no other pixel; every value fits a 32-bit integer |
| `Draw.StateFits` | kernel/src/graphics/cpu/draw.c:71-78 | under the condition on the sides, for any common divisor of them, the values of a turn fit from every state of the loop |
| `Draw.Visited` | kernel/src/graphics/cpu/draw.c:72-79 | the loop comes to every state that the error law and the half pixel allow |
| `Draw.LineFitsExactly` | kernel/src/graphics/cpu/draw.c:66-80 | the condition on the sides holds exactly when no value of any turn overflows |
| `Draw.ArcStep` | kernel/src/graphics/cpu/draw.c:95-100 | the error stays x^2 + y^2 - r^2 + 2y + (r - x), and the point near the circle |
| `Draw.OctantIsArc` | kernel/src/graphics/cpu/draw.c:82-102 | the octant stays on the ring, descends a pixel at most and ends at the diagonal |
| `Draw.OctantDescends` | kernel/src/graphics/cpu/draw.c:82-102 | by positions alone: from (x, y) the next row is a pixel further in exactly when x^2 + y^2 - r^2 + 2y + (r - x) > 0, and the rows end where y would pass x |
| `Draw.CircleDescends` | kernel/src/graphics/cpu/draw.c:83-85 | the octant of a circle starts at (r, 0) |
| `Draw.CircleFits` | kernel/src/graphics/cpu/draw.c:95-101 | up to radius 2^30 + 3 every value of a turn fits a 32-bit integer |
| `Draw.RadiusLimit` | kernel/src/graphics/cpu/draw.c:95-101 | the second turn of a larger circle overflows, exactly beyond that radius |
| `Draw.CircleIsThin` | kernel/src/graphics/cpu/draw.c:82-102 | every pixel drawn has (r-1)^2 - 1 <= x^2 + y^2 <= r^2 + 1 |
| `Draw.CircleIsClosed` | kernel/src/graphics/cpu/draw.c:82-102 | the octant is connected and meets its mirror image |
| `Draw.FillCoversCircle` | kernel/src/graphics/cpu/draw.c:82-124 | the filled circle covers the drawn one |
| `Draw.FillIsDisc` | kernel/src/graphics/cpu/draw.c:104-124 | the fill has no holes: everything inside the ring, nothing beyond it |
| `Draw.Canvas.DrawCircle` | kernel/src/graphics/cpu/draw.c:82-102 | terminates and colours exactly the eight images of the octant |
| `Draw.Canvas.DrawCircleFill` | kernel/src/graphics/cpu/draw.c:104-124 | terminates and colours exactly the rows between them |
| `Ray.TableBounds` | kernel/src/graphics/cpu/ray.c:17-30 | sine values lie between 0 and 1, and all but that of 0 degrees are at least 1143/65536 |
| `Ray.SineBounds` | kernel/src/graphics/cpu/ray.c:32-39 | the sine of any angle is within 1, and 0 exactly at multiples of 180 degrees |
| `Ray.SineSymmetry` | kernel/src/graphics/cpu/ray.c:32-38 | the table is read the right way round in every quadrant: odd, mirrored at 90 degrees, positive exactly between 0 and 180 |
| `Ray.CosineEven` | kernel/src/graphics/cpu/ray.c:39 | the cosine is even |
| `Ray.SineRises` | kernel/src/graphics/cpu/ray.c:17-30 | the table rises strictly from 0 to 90 degrees |
| `Ray.DirectionsUnit` | kernel/src/graphics/cpu/ray.c:17-39 | every direction has length one, to three units in its square |
| `Ray.SineBends` | kernel/src/graphics/cpu/ray.c:17-38 | the sine of any three degrees in a row bends towards zero as a circle of 360 degrees makes it, to three units |
| `Ray.Turn` | kernel/src/graphics/cpu/ray.c:33 | the normalisation is the angle modulo 360, for negative angles too |
| `Ray.BorderSolid` | kernel/src/graphics/cpu/ray.c:46-68 | every cell on or beyond the border is solid |
| `Ray.MapIs` | kernel/src/graphics/cpu/ray.c:46-68 | inside, exactly fifteen cells are solid |
| `Ray.AxisSpaced` | kernel/src/graphics/cpu/ray.c:105-125 | the crossings of an axis start within one spacing and are at least a cell apart |
| `Ray.LineAhead` | kernel/src/graphics/cpu/ray.c:110-124 | the i-th grid line ahead is the one multiple of a cell between i and i + 1 cells on; going down, a line underfoot counts |
| `Ray.CrossingMeasures` | kernel/src/graphics/cpu/ray.c:105-125 | the i-th crossing is the distance of the i-th grid line ahead: times \|r\| it is the way to the line, short by i + 2 roundings at most |
| `Ray.CellBehind` | kernel/src/graphics/cpu/ray.c:99-137 | after i crossings along an axis the ray is in the cell behind the i-th grid line |
| `Ray.HitMeets` | kernel/src/graphics/cpu/ray.c:127-138 | a hit is a wall behind one of the two lines crossed last, at that line's distance, and an axis the ray runs along is not crossed |
| `Ray.TakeNext` | kernel/src/graphics/cpu/ray.c:128-139 | the smaller of the two next crossings extends the merge, and is no smaller than the last |
| `Ray.SmallestFirst` | kernel/src/graphics/cpu/ray.c:127-138 | every crossing taken comes before every crossing not taken |
| `Ray.TakenUnique` | kernel/src/graphics/cpu/ray.c:127-138 | how many come from each axis is determined by their number |
| `Ray.HitUnique` | kernel/src/graphics/cpu/ray.c:127-138 | there is one first solid cell along a ray, so the result of the cast is determined |
| `Ray.ParallelNeverTaken` | kernel/src/graphics/cpu/ray.c:105-125 | an axis parallel to the ray is never crossed inside the map |
| `Ray.CorrectedBounds` | kernel/src/graphics/cpu/ray.c:141-147 | the corrected distance is positive, hardly more than measured, and unchanged straight ahead |
| `Ray.CorrectedByCosine` | kernel/src/graphics/cpu/ray.c:141-147 | it is the distance times the cosine of the angle between ray and camera, rounded down, whenever that cosine is above 100 units |
| `Ray.StrideIsTenth` | kernel/src/graphics/cpu/ray.c:199-212 | a stride is a tenth of the direction, to 16 tenths of a unit |
| `Ray.KeysMove` | kernel/src/graphics/cpu/ray.c:199-214 | Up moves a tenth of a cell in the direction of the camera and Down as far back; only a wall stops it, along its own axis |
| `Ray.AngleIsTurns` | kernel/src/graphics/cpu/ray.c:215-216 | the angle of a run is three degrees for each turn to the right less those to the left |
| `Ray.Raycaster.CastRay` | kernel/src/graphics/cpu/ray.c:87-148 | stops at the first solid cell in the order of the merged crossings, behind the grid line whose distance it measures, within 27 steps, so the cap of 64 never decides; no 32-bit overflow |
| `Ray.Raycaster.Move` | kernel/src/graphics/cpu/ray.c:199-214 | one movement: a stride along x and then y, each only into an open cell, at most to the next cell |
| `Ray.Raycaster.RayRun` | kernel/src/graphics/cpu/ray.c:186-216 | for every key sequence the camera ends where the moves and turns of each frame in order take it, and walks there through open cells, from neighbour to neighbour, starting at (8, 8) |
| `Keyboard.StepSound` | kernel/src/drivers/keyboard.c:73-132 | every scancode keeps the line within max - 1 characters and its place within the ring |
| `Keyboard.EditedSound` | kernel/src/drivers/keyboard.c:59-140 | so does every stream of them |
| `Keyboard.RowTypes` | kernel/src/drivers/keyboard.c:19-30 | the keys of each row give the characters printed on a PC keyboard, the upper ones exactly when one of shift and caps is on |
| `Keyboard.KeysAre` | kernel/src/drivers/keyboard.c:19-30 | Enter and Backspace are one key each, six keys give nothing, and every other key is in a row |
| `Keyboard.LetterCase` | kernel/src/drivers/keyboard.c:120 | a letter key types a lower-case letter exactly when shift and caps agree, and the same letter in upper case otherwise |
| `Keyboard.ShiftReleased` | kernel/src/drivers/keyboard.c:114-115 | pressing and releasing either shift key changes nothing |
| `Keyboard.CapsTwice` | kernel/src/drivers/keyboard.c:116 | caps changes over at each press, so two presses change nothing |
| `Keyboard.BackspaceErases` | kernel/src/drivers/keyboard.c:126-129 | Backspace takes the last character away and leaves an empty line alone |
| `Keyboard.BackspaceUndoes` | kernel/src/drivers/keyboard.c:120-131 | a key that prints followed by Backspace changes nothing, unless its character fills the buffer |
| `Keyboard.TypingTypes` | kernel/src/drivers/keyboard.c:114-131 | any strokes of keys, shifted or not, add what stands on them |
| `Keyboard.LineIsTyped` | kernel/src/drivers/keyboard.c:59-125 | a line typed on an empty one and ended by Enter is what stands on its keys |
| `Keyboard.UpRecalls` | kernel/src/drivers/keyboard.c:75-91 | k presses of Up show the k-th last line, as far as the ring goes |
| `Keyboard.DownUndoesUp` | kernel/src/drivers/keyboard.c:75-110 | Down goes back to the newer line, or to an empty one |
| `Keyboard.ArrowsStop` | kernel/src/drivers/keyboard.c:77-95 | Up at the oldest line and Down behind the newest change nothing |
| `Keyboard.KeysIgnored` | kernel/src/drivers/keyboard.c:73-117 | any other key behind the prefix changes nothing, nor does letting go of a key but shift |
| `Keyboard.RecallSubmits` | kernel/src/drivers/keyboard.c:59-91 | a recalled line ends the editing exactly when it fills the buffer |
| `Keyboard.RingMoves` | kernel/src/drivers/keyboard.c:39-47 | the new line takes the slot of the line that leaves the ring |
| `Keyboard.LineEditor.HistAdd` | kernel/src/drivers/keyboard.c:39-47 | a non-empty line is recorded, cut to 255 characters, and the ring holds exactly the last sixteen |
| `Keyboard.LineEditor.PressPlain` | kernel/src/drivers/keyboard.c:119-132 | a key of a row types its character, in the upper case exactly when one of shift and caps is on; Backspace erases, Enter submits, a dead key does nothing; the screen shows the buffer |
| `Keyboard.LineEditor.PressUp` | kernel/src/drivers/keyboard.c:77-91 | refines the step to an older line, on screen too |
| `Keyboard.LineEditor.PressDown` | kernel/src/drivers/keyboard.c:92-110 | refines the step to a newer or empty line, on screen too |
| `Keyboard.LineEditor.KeyboardReadline` | kernel/src/drivers/keyboard.c:49-145 | for every stream the buffer is the edited line, which `Keyboard.LineIsTyped` says is what was typed; the echo read as push and pop shows it, and a finished line enters the history |

## Left out

- Vmm.AddressSpaces.Map: requires that no huge entry lies on the walked path, because the walks never test for one; `Unmap`, `Translate` and `MapRange` require the same.
- Vmm.AddressSpaces.Run: its client maps below the upper half only; `CreateMapDestroy` shows what happens otherwise and `Spaces.LeakExactly` when. The client's steps are `Open`, `MapIn`, `UnmapIn` and `Close`.
- Vmm.AddressSpaces.MapApic: the branches that would allocate a table are shown dead and hold no allocation.
- Vmm.AddressSpaces.Init: says nothing of spaces made before it; the kernel makes none.
- Heap.KernelHeap.Kmalloc: a call that takes a page requires that the page meets no block and that a free tail has room for it, and that the heap stays below 4 GiB, where the 32-bit counters are exact; a call that takes none requires neither. A page that meets a block is not followed further than `HeapMemory.DressExact`. Calls that may take a page also require that no two blocks share a word, so nothing is said of `kmalloc` after a `kfree` that broke this.
- HeapRuns.Client.Run: its runs start with all available frames ahead of the heap, as every run of an empty heap does, and with room for its counters; the single calls require what `Kmalloc` does and no more.
- Kernel.Kernel.Kmalloc: requires that a page merged with a free tail touches it, `Kfree` that the blocks it merges lie side by side, `Krealloc` both; `HeapPages.AllocateExact`, `HeapPages.ReleaseExact` and `HeapPages.MoveExact` say that the heap otherwise claims frames that are not its own.
- KernelRuns.Session.Run: a heap call for which `MayAllocate`, `Touches` or `StaysSnug` says no is not made.
- Heap.KernelHeap.Krealloc: a call that grows the block requires a size of at most 2^64 - 8, because rounding wraps beyond it; `Kcalloc` requires the same of a product that does not overflow.
- Heap.KernelHeap.Kfree: stale or forged pointers are outside the model; a pointer is null or that of a block in the list.
- Calc.Apply: a shift by 64 or more is undefined in C and is 0 here; the theorems require smaller counts. Negating the smallest signed value is taken to wrap.
- Draw.Canvas.DrawLine: requires exactly what keeps its values in 32-bit integers, `Draw.LineFits`. `DrawCircle` and `DrawCircleFill` require the square around the circle to have 32-bit coordinates (the fill one more to the right, where its counter ends) and the radius to be at most `Draw.WIDEST`; `DrawInit` requires the screen to fit the back buffer.
- Keyboard.LineEditor.KeyboardReadline: requires plain scancodes of at most 58, the length of the tables; waiting for a key becomes the end of the given stream.
- The bitmap of the frame allocator is an array of its own, not a part of the modelled memory.
- The 32-bit history counter of the editor does not wrap in the model.
- Address-space switching, CR3, invlpg, port input and output, time stamps, cursor blinking and serial tracing: hardware effects with no visible state.
- `draw_flip`, `draw_clear`, `draw_rect` and `draw_rect_fill`, ray rendering and wall shading: they would add only easy members.
- Ray.SineBends: the sine table is held to unit length and to the bend of a sine, each to three units, not to the real-valued sine.
- `terminal.c`, `dmesg.c`, `ramdisk.c`, `vfs.c`, shell commands other than the calculator, and raw memory access (`hexdump`, `peek`, `poke`).
