# Verified models of a boot-time hypervisor

This project models the stateful algorithms of an AArch64 hypervisor and boot loader and
proves what they promise: the two-tier memory allocator, the reader-writer lock, the virtio
queue, the FAT32 reader, and the flattened device tree walker and rewriter.
`dafny verify dfyconfig.toml` checks all of it.

Most components come in two layers. A specification layer says what one step does to a
mathematical state (sequences, sets of bytes, logs) and proves theorems over every state or
every run. A program layer has the loops, arrays, fields and next pointers of the source;
every method there is proved to perform exactly one step of the specification layer, so the
theorems hold of it. The lock has only the first: its steps are its atomic operations.

| files | component |
|---|---|
| `IntrusiveList` | lists whose next pointers live in the listed memory |
| `BuddyBlocks`, `BuddyModel`, `BuddyRuns`, `BuddyAllocator` | the buddy allocator: geometry, steps, whole runs, program |
| `Regions`, `RangeSearch`, `SetupModel`, `RangeModel`, `RegionArray`, `MemoryBlock` | the range allocator: tables, searches, runs before and after finalization, array edits, program |
| `GlobalModel`, `GlobalAllocator` | dispatch between the two allocators |
| `RwLock` | the reader-writer lock as an interleaving of atomic steps |
| `VirtQueueModel`, `VirtQueue` | the split virtqueue with a concurrent device; the driver's code |
| `Fat32`, `Fat32Read`, `Fat32Table` | the cached cluster iterator; `read_at`; reading back files laid out by an independent writer |
| `DeviceTreeWalk`, `DeviceTreeSerial`, `DeviceTreeRewrite` | walking and skipping; trees written out by an independent serializer; rewriting a device tree blob |
| `Arithmetic`, `Bits`, `ByteWords`, `Options` | shared helpers |

Main results, each for all inputs, all runs or all reachable states:

- Buddy allocator: free and occupied blocks tile the donated memory and no two buddies are
  both free, hence a failing allocation means that no aligned run of free bytes exists
  (`NoMissedBlock`), and a run that ends with nothing live ends with exactly the donated
  blocks on the top list, if and only if it gave back no over-aligned block
  (`FullCoalescing`).
- Range allocator: finalization is exact set subtraction and succeeds exactly when the
  reserved bytes are available; first fit finds the lowest address there is; and every run,
  table relocation included, conserves the managed bytes (`Conservation`). From the first
  call on, what is managed is what was given and not reserved (`SetupFinalizes`).
- Global allocator: live blocks are disjoint and aligned whoever served them.
- Lock: mutual exclusion over all interleavings of any number of agents (`SafeRun`). What
  needs fewer than 2^63 agents is only that the flag bit always means a writer (`FlagBound`).
- Virtqueue: 16-bit counters and masked slots refine unbounded logs; no slot is overwritten
  early and corruption is never reported with a conforming device.
- FAT32: `read_at` returns exactly the bytes asked for, ends on cyclic chains, and succeeds
  or fails exactly as the entries and sectors it consults say; every file that an independent
  writer lays out reads back byte by byte (`ReadBack`).
- Device tree: the recursive walk ends where the iterative skip ends, after reporting the
  matching nodes in preorder; for serialized trees that is exactly behind their bytes, with the
  nodes at their serialized places (`WalksSerialized`); rewriting round-trips through the
  parser.

Where the code does not do what one would expect, the model follows the code. Each
expectation has an input on which it fails and the exact condition under which it holds:

- `dealloc` of the buddy allocator ignores the alignment that `alloc` rounds up to. The two
  levels agree exactly for layouts aligned to at most their rounded size (`LevelsAgree`);
  otherwise the size difference stays out of the lists (`LeakIsExact`, `OverAlignedLeaks`).
- The comment on `alloc` assumes requests below the largest block. Requests up to and
  including it are served; one level above it an error comes back unless the heap source
  grants a block; all others make the code index past its lists (`PanicExact`,
  `PanicReached`).
- Adding a region merges at most one successor, so gaps survive exactly when the region ends
  before the second one (`AddKeepsGaps`, `AddCanOverlap`).
- The search for a dynamic reservation tries one candidate in each available region and can
  miss free room (`SearchIncomplete`); `SearchExact` says exactly what it finds.
- A failing `check_regions` keeps what it has subtracted so far. It leaves the table as it
  was exactly when the first reserved entry is the one that fails (`FailureUndone`,
  `FailureKept`).
- Nothing keeps byte 0 out of the available memory, and the range allocator hands it out
  like any other (`ZeroExact`, `ZeroPossible`). A large block there is recorded as live and
  answered with the null pointer; granted to the buddy allocator, it would have to be a
  non-null pointer. `NullExact` says exactly when, `NullAnswer` is such a state, and
  `AllocNonNull` rules it out when byte 0 is not managed.
- 2^63 read guards fill the counter of the lock up to the flag bit, which then reports a
  writer that is not there. Nobody else gets in, so exclusion is unharmed (`FlagBound`).
- `make_dtb` checks the buffer against the total size of the old blob, which nothing ties to
  the sizes of its blocks. The output stays within the size it asks for exactly when that
  total size has room for the blocks one behind the other (`FitsExactly`), and runs over the
  end of a shorter buffer otherwise (`MakeDtb`, `WritesPast`).
- A request for 0 bytes leaves the range allocator's tables gapped exactly when its place is
  at an end of its free entry and touches a reserved one (`ZeroTake`, `ZeroHarmless`,
  `ZeroHarmful`).
- A first cluster behind the end of the table makes the iterator index past its window
  (`FatIter.Next`).
- A reservation of (0, 0) added to a device tree ends the list for its readers
  (`RewriteRoundTrip`, `RewriteTwice`, `TerminatorHides`).

## Model

| member | source | states |
|---|---|---|
| IntrusiveList.IntrusiveLinkedList.constructor | intrusive_linked_list/src/lib.rs:30-32 | a new list is empty |
| IntrusiveList.IntrusiveLinkedList.IsNone | intrusive_linked_list/src/lib.rs:34-36 | true exactly for the empty list |
| IntrusiveList.IntrusiveLinkedList.Push | intrusive_linked_list/src/lib.rs:38-43 | the listed addresses gain one in front; only that address's word is written |
| IntrusiveList.IntrusiveLinkedList.PushBack | intrusive_linked_list/src/lib.rs:45-54 | the listed addresses gain one at the end; only words of listed addresses and the new one are written |
| IntrusiveList.IntrusiveLinkedList.Pop | intrusive_linked_list/src/lib.rs:56-61 | takes the first address off, None on the empty list, writes no memory |
| IntrusiveList.IntrusiveLinkedList.RemoveIf | intrusive_linked_list/src/lib.rs:63-82 | true exactly when the address was listed, and then exactly that element is gone |
| IntrusiveList.IntrusiveLinkedList.AddWithSort | intrusive_linked_list/src/lib.rs:84-104 | inserts in front of the first larger address |
| IntrusiveList.LinkedAcyclic | intrusive_linked_list/src/lib.rs:38-104 | a chain that spells out a finite list never passes an address twice |
| IntrusiveList.LinkedFrame | intrusive_linked_list/src/lib.rs:38-104 | writes outside a chain's own words leave the chain as it was |
| IntrusiveList.LinkInsert | intrusive_linked_list/src/lib.rs:94-103 | redirecting one link inserts one element and keeps the chain well formed |
| IntrusiveList.LinkRemove | intrusive_linked_list/src/lib.rs:71-80 | redirecting one link takes exactly one element out |
| IntrusiveList.SortedInsertAscending | intrusive_linked_list/src/lib.rs:84-104 | on an ascending list, sorted insertion stays strictly ascending |
| BuddyBlocks.LevelFor | allocator/src/buddy_allocator.rs:51-58 | the level of a request is the least whose blocks hold it |
| BuddyBlocks.Parent | allocator/src/buddy_allocator.rs:149-157 | a block and the buddy address `dealloc` computes are the two halves of one aligned block, which starts at the smaller of the two |
| BuddyBlocks.Nested | allocator/src/buddy_allocator.rs:117-158 | aligned blocks that share a byte are nested |
| BuddyBlocks.SplitTiles | allocator/src/buddy_allocator.rs:117-125 | replacing a block by its halves keeps the donated memory tiled |
| BuddyBlocks.MergeTiles | allocator/src/buddy_allocator.rs:156-158 | replacing two buddies by their parent keeps the donated memory tiled |
| BuddyBlocks.WholeCover | allocator/src/buddy_allocator.rs:148-164 | if every byte of an aligned block is free and no two buddies are both free, one free block contains it whole |
| BuddyModel.LevelsAgree | allocator/src/buddy_allocator.rs:98-144 | the levels used by `alloc` and `dealloc` agree exactly for layouts aligned to at most their rounded size |
| BuddyModel.SetMemoryInv | allocator/src/buddy_allocator.rs:73-85 | donating fresh aligned memory keeps tiling, list order and accounting |
| BuddyModel.SetMemoryExact | allocator/src/buddy_allocator.rs:73-85 | exactly the blocks of the memory given go to the end of the top list, in address order |
| BuddyModel.LevelsExact | allocator/src/buddy_allocator.rs:47-144 | `alloc` takes the smallest 8 * 2^l bytes that hold size and alignment, `dealloc` returns the smallest that hold the size |
| BuddyModel.TakeDownSound | allocator/src/buddy_allocator.rs:117-127 | the split loop keeps the tiling and leaves no two buddies free |
| BuddyModel.PanicExact | allocator/src/buddy_allocator.rs:94-131 | `alloc` indexes past its lists exactly for requests more than one level above the largest block, or one level above it when a block is granted |
| BuddyModel.PanicReached | allocator/src/buddy_allocator.rs:106-127 | twice the largest block, with a granting heap source, is such a request |
| BuddyModel.AllocInv | allocator/src/buddy_allocator.rs:96-131 | `alloc` keeps the invariant whatever it answers; success hands out a fresh block aligned to its size, an error changes nothing |
| BuddyModel.AllocTops | allocator/src/buddy_allocator.rs:106-115 | memory is taken from the heap source only if no list can serve |
| BuddyModel.MergeUpSound | allocator/src/buddy_allocator.rs:148-165 | the merge loop returns exactly the freed block, keeps the tiling and leaves no two buddies free |
| BuddyModel.HalveOccupied | allocator/src/buddy_allocator.rs:143-146 | splitting an occupied block into occupied halves keeps tiling and lists sound |
| BuddyModel.ShaveSound | allocator/src/buddy_allocator.rs:143-146 | what an over-aligned block leaves behind is made of disjoint blocks adding up to the size difference |
| BuddyModel.DeallocInv | allocator/src/buddy_allocator.rs:135-167 | `dealloc` keeps the invariant for every layout and loses exactly the difference of the two block sizes |
| BuddyRuns.Init | allocator/src/buddy_allocator.rs:60-70 | an allocator without memory satisfies the invariant |
| BuddyRuns.Step | allocator/src/buddy_allocator.rs:73-167 | every call keeps the invariant |
| BuddyRuns.Run | allocator/src/buddy_allocator.rs:73-167 | every legal run keeps the invariant |
| BuddyRuns.ReachableState | allocator/src/buddy_allocator.rs:73-167 | in every reachable state a free block is aligned to its size and disjoint from all others, free or live; below the top its buddy is not free and its list ascends |
| BuddyRuns.Accounting | allocator/src/buddy_allocator.rs:73-167 | in every reachable state the total is what was donated, and equals listed plus live plus lost bytes |
| BuddyRuns.NoMissedBlock | allocator/src/buddy_allocator.rs:96-131 | without a heap source, a request up to the largest block fails exactly when no naturally aligned run of its rounded size is entirely free |
| BuddyRuns.FullyCoalesced | allocator/src/buddy_allocator.rs:135-167 | with nothing live or lost, lower lists are empty and the top list is a permutation of the donated blocks |
| BuddyRuns.LeaksNothing | allocator/src/buddy_allocator.rs:98-146 | a run leaks nothing exactly when every block it gave back was aligned to at most its rounded size |
| BuddyRuns.FullCoalescing | allocator/src/buddy_allocator.rs:73-167 | a run that ends with nothing live ends fully coalesced exactly when it leaked nothing, that is, gave back no over-aligned block |
| BuddyRuns.OverAlignedLeaks | allocator/src/buddy_allocator.rs:98-146 | a legal run of three calls that leaks eight bytes and does not coalesce |
| BuddyRuns.LostGrows | allocator/src/buddy_allocator.rs:135-146 | over any run the bytes lost grow by exactly the accumulated size differences |
| BuddyRuns.LeakIsExact | allocator/src/buddy_allocator.rs:98-146 | a run of arbitrary layouts that ends with nothing live keeps exactly those bytes out of the lists |
| BuddyAllocator.BuddyAllocator.constructor | allocator/src/buddy_allocator.rs:60-70 | one empty list for each level, the initial state of the runs |
| BuddyAllocator.BuddyAllocator.SetMemory | allocator/src/buddy_allocator.rs:73-85 | performs the donation step and writes only inside memory that is free afterwards |
| BuddyAllocator.BuddyAllocator.DonateBlocks | allocator/src/buddy_allocator.rs:80-84 | the donation loop |
| BuddyAllocator.BuddyAllocator.Search | allocator/src/buddy_allocator.rs:101-104 | finds the first nonempty list at or above a level |
| BuddyAllocator.BuddyAllocator.SplitDown | allocator/src/buddy_allocator.rs:117-125 | popping, pushing both halves and popping again amounts to freeing each upper half; only free words are written |
| BuddyAllocator.BuddyAllocator.Alloc | allocator/src/buddy_allocator.rs:96-131 | performs the allocation step for every request, errors and the panic included, and writes only free words |
| BuddyAllocator.BuddyAllocator.Merge | allocator/src/buddy_allocator.rs:148-165 | the merge loop over the lists in memory; writes only listed words and the freed block's first |
| BuddyAllocator.BuddyAllocator.Dealloc | allocator/src/buddy_allocator.rs:135-167 | performs the deallocation step |
| BuddyAllocator.NoWriteInsideLive | allocator/src/buddy_allocator.rs:117-165 | the words these methods write never overlap a block that stays live |
| Regions.AddCovers | allocator/src/range_list_allocator.rs:191-280 | adding a region covers exactly the old and the new bytes and keeps starts strictly ascending |
| Regions.AddKeepsGaps | allocator/src/range_list_allocator.rs:191-280 | strict gaps survive exactly when the region ends before the second entry behind its place |
| Regions.AddCanOverlap | allocator/src/range_list_allocator.rs:123-189 | a table and a region for which gaps are lost |
| Regions.AddMergeCovers | allocator/src/range_list_allocator.rs:123-189 | merging with the neighbours it touches covers exactly old and new bytes |
| Regions.HullExact | allocator/src/range_list_allocator.rs:148-188 | a region merged with the entries it touches has exactly the bytes of all of them |
| Regions.TakeOutExact | allocator/src/range_list_allocator.rs:412-455 | cutting a range out of its entry removes exactly its bytes and keeps the gaps |
| Regions.RunInOneRegion | allocator/src/range_list_allocator.rs:471-501 | consecutive covered bytes of a gapped table lie in one entry |
| RangeSearch.SubtractExact | allocator/src/range_list_allocator.rs:392-456 | the two-pointer sweep is set subtraction, and each region error has a reserved byte that is not available as its cause |
| RangeSearch.FinalizeExact | allocator/src/range_list_allocator.rs:377-469 | apart from a full table, Ok comes back exactly when the reserved bytes are available; then the table covers exactly available minus reserved and stays gapped |
| RangeSearch.SubtractErrors | allocator/src/range_list_allocator.rs:402-436 | each error describes the first entry that cannot be subtracted: nothing available from its start on, not all of it available, or a split for which there is no slot |
| RangeSearch.FailureUndone | allocator/src/range_list_allocator.rs:394-455 | a failing sweep leaves the table as it was exactly when the first reserved entry is outside all regions, does not fit its region, or cannot be split off |
| RangeSearch.FailureKept | allocator/src/range_list_allocator.rs:402-455 | a failing sweep that does change the table |
| RangeSearch.SubtractShrinks | allocator/src/range_list_allocator.rs:394-455 | however the sweep ends, no byte appears in the table |
| RangeSearch.FirstFitLowest | allocator/src/range_list_allocator.rs:471-501 | a place is found exactly when some aligned run of the size is free, and it is the lowest one |
| RangeSearch.NeighboursDecide | allocator/src/range_list_allocator.rs:326-349 | a range is free of reservations exactly when it lies between the two neighbours that are looked at |
| RangeSearch.TryExact | allocator/src/range_list_allocator.rs:304-358 | the retry loop succeeds exactly when its one candidate fits window, range and gap |
| RangeSearch.TrySound | allocator/src/range_list_allocator.rs:304-358 | what it returns is aligned, in bounds and free of reservations |
| RangeSearch.SearchExact | allocator/src/range_list_allocator.rs:298-369 | the search returns the candidate of the first region whose candidate is acceptable, and nothing exactly when there is none |
| RangeSearch.SearchHits | allocator/src/range_list_allocator.rs:300-358 | an address returned is what the loop on one of the available regions came to |
| RangeSearch.SearchSound | allocator/src/range_list_allocator.rs:298-369 | any address returned is aligned, fits one available region and the requested range, and avoids all reservations |
| RangeSearch.DynamicPlaced | allocator/src/range_list_allocator.rs:296-321 | an address returned is a multiple of the alignment asked for and lies with the whole size in the range asked for, whatever the tables are like |
| RangeSearch.FirstChoice | allocator/src/range_list_allocator.rs:300-358 | if the first aligned address of the first region fits and is unreserved, it is the answer |
| RangeSearch.SecondChoice | allocator/src/range_list_allocator.rs:326-356 | if a reservation holds it, the first aligned address behind that reservation is, if it fits and nothing else is reserved up to there |
| RangeSearch.StopsBefore | allocator/src/range_list_allocator.rs:306-310 | giving up happens only when the requested range ends before or inside the current region |
| RangeSearch.SearchIncomplete | allocator/src/range_list_allocator.rs:326-356 | a request that is refused although room is free |
| SetupModel.Init | allocator/src/range_list_allocator.rs:65-85 | two empty tables satisfy the invariant |
| SetupModel.StepInv | allocator/src/range_list_allocator.rs:92-369 | every call before finalization keeps start addresses strictly ascending and regions inside the address space |
| SetupModel.RunCovers | allocator/src/range_list_allocator.rs:92-369 | over every run each table covers exactly the union of what was added to it |
| SetupModel.DynamicKeepsGaps | allocator/src/range_list_allocator.rs:282-369 | a dynamic reservation has the size, alignment and range asked for, lies in one available region, avoids all earlier reservations, and leaves their table gapped |
| SetupModel.RunGapped | allocator/src/range_list_allocator.rs:92-369 | over every run of nonempty regions that end before the second follower, both tables stay gapped |
| SetupModel.SetupFinalizes | allocator/src/range_list_allocator.rs:92-469 | after such a run, finalization succeeds exactly when what was reserved was given (or the table is full), and then manages exactly what was given and not reserved |
| RangeModel.FinalizedInv | allocator/src/range_list_allocator.rs:458-468 | a finalization with a spare slot starts a run whose managed bytes are available minus reserved |
| RangeModel.InsertExact | allocator/src/range_list_allocator.rs:512-522 | recording a disjoint range adds exactly its bytes and keeps the gaps |
| RangeModel.RemoveExact | allocator/src/range_list_allocator.rs:525-601 | removing a recorded range removes exactly its bytes and keeps the gaps |
| RangeModel.RemoveLoose | allocator/src/range_list_allocator.rs:533-600 | a range that reaches past the entry it starts with takes that entry along; one that is recorded nowhere changes nothing |
| RangeModel.TakeExact | allocator/src/range_list_allocator.rs:471-501 | the lowest fitting aligned range moves from free to reserved, or none exists |
| RangeModel.ZeroInsert | allocator/src/range_list_allocator.rs:512-522 | recording an empty range keeps the gaps exactly when it touches a neighbour |
| RangeModel.ZeroTakeOut | allocator/src/range_list_allocator.rs:478-495 | taking an empty range out of an entry keeps the gaps exactly at its ends |
| RangeModel.ZeroTake | allocator/src/range_list_allocator.rs:471-501 | a request for 0 bytes leaves both tables gapped exactly under both conditions |
| RangeModel.ZeroHarmless | allocator/src/range_list_allocator.rs:471-501 | a state in which it changes neither table |
| RangeModel.ZeroHarmful | allocator/src/range_list_allocator.rs:471-501 | a state in which it leaves an empty entry |
| RangeModel.GrowInv | allocator/src/range_list_allocator.rs:615-654 | relocating the tables keeps the invariant, the managed bytes and the live blocks, and leaves headroom |
| RangeModel.HeadroomInv | allocator/src/range_list_allocator.rs:503-509 | afterwards both tables have headroom and nothing else has changed for callers |
| RangeModel.HeadroomExact | allocator/src/range_list_allocator.rs:503-654 | with ten spare slots nothing happens; otherwise both tables double into the lowest page-aligned place for their slots of sixteen bytes, and it panics exactly when there is none |
| RangeModel.AllocInv | allocator/src/range_list_allocator.rs:656-662 | `allocate_region` keeps the invariant and the managed bytes; a block handed out is aligned and was free; failure means no place was left; panic means growth found no memory |
| RangeModel.AllocLowest | allocator/src/range_list_allocator.rs:656-662 | with headroom, the answer is the lowest free aligned place, failure means there is none, and exactly that place moves from free to reserved |
| RangeModel.DeallocInv | allocator/src/range_list_allocator.rs:664-679 | `deallocate_region` keeps the invariant and the managed bytes and gives up exactly that block |
| RangeModel.DeallocExact | allocator/src/range_list_allocator.rs:664-679 | exactly the block's bytes are free again; it panics exactly when there can be no headroom |
| RangeModel.Conservation | allocator/src/range_list_allocator.rs:471-679 | over every run both tables stay sorted, gapped and disjoint with a constant union, and table storage is never handed out |
| RangeModel.HoldingsDisjoint | allocator/src/range_list_allocator.rs:471-679 | over every run live blocks and table storage never overlap |
| RangeModel.ZeroExact | allocator/src/range_list_allocator.rs:471-501 | address 0 is handed out exactly when all bytes asked for are free from 0 on |
| RangeModel.ZeroPossible | allocator/src/range_list_allocator.rs:471-501 | with headroom, some request is answered with address 0 exactly when byte 0 is free |
| RangeModel.TrimExact | allocator/src/range_list_allocator.rs:681-722 | for every reserve the returned ranges cover exactly free plus reserved memory; the allocator can go on exactly for a nonzero reserve |
| RangeModel.TrimPlace | allocator/src/range_list_allocator.rs:681-722 | the free memory left is one range of exactly the reserve, the lowest there was; failure means there was none |
| RangeModel.BootHandoff | allocator/src/range_list_allocator.rs:656-722 | every block handed out in any later run lies inside the returned ranges |
| RegionArray.InsertRegion | allocator/src/range_list_allocator.rs:100-121 | shifting a slot open inserts exactly one entry |
| RegionArray.AddAndMergeRegion | allocator/src/range_list_allocator.rs:123-189 | the four merge cases amount to one merge with the touched neighbours |
| RegionArray.BinarySearch | allocator/src/range_list_allocator.rs:220-220 | finds an entry or its insertion point |
| RegionArray.SubtractAt | allocator/src/range_list_allocator.rs:412-455 | the four subtraction cases cut one range out of one entry |
| RegionArray.CarveAt | allocator/src/range_list_allocator.rs:477-495 | splitting off the front and shrinking or removing the rest cuts one range out |
| RegionArray.RemoveRecord | allocator/src/range_list_allocator.rs:525-601 | `remove_reserved_alloc_record` on the array |
| MemoryBlock.AddTo | allocator/src/range_list_allocator.rs:215-279 | `add_region_internal` behind its capacity check |
| MemoryBlock.SubtractReserved | allocator/src/range_list_allocator.rs:389-456 | the in-place sweep, with the partial table it leaves on each error |
| MemoryBlock.MemoryBlock.constructor | allocator/src/range_list_allocator.rs:65-85 | two empty tables of 128 slots, not allocatable |
| MemoryBlock.MemoryBlock.TablesApart | allocator/src/range_list_allocator.rs:615-654 | the memory of the current tables overlaps no live block and is not free, in every valid state |
| MemoryBlock.MemoryBlock.AddRegion | allocator/src/range_list_allocator.rs:92-94 | fails exactly when no slot is spare, leaving the table alone; performs the setup step |
| MemoryBlock.MemoryBlock.AddReservedRegion | allocator/src/range_list_allocator.rs:96-98 | the same on the reserved table |
| MemoryBlock.MemoryBlock.TryRegion | allocator/src/range_list_allocator.rs:301-358 | the retry loop on one region, every retry with a smaller window |
| MemoryBlock.MemoryBlock.Neighbours | allocator/src/range_list_allocator.rs:326-348 | end of the reservation at or before an address, start of the next one |
| MemoryBlock.MemoryBlock.FindPlace | allocator/src/range_list_allocator.rs:298-366 | the loop over the available regions |
| MemoryBlock.MemoryBlock.AddReservedRegionDynamic | allocator/src/range_list_allocator.rs:282-369 | each of the four answers exactly when it is due; the place found has the alignment and range asked for and is recorded |
| MemoryBlock.MemoryBlock.CheckRegions | allocator/src/range_list_allocator.rs:377-469 | the table of the sweep; each error exactly when it is due and for what is wrong with the first bad entry; a failure leaves the table as it was exactly when that is the first entry; gapped tables and a spare slot start a run |
| MemoryBlock.MemoryBlock.AllocateRegionInternal | allocator/src/range_list_allocator.rs:471-501 | the first fit moves from the free to the reserved table |
| MemoryBlock.MemoryBlock.AddReservedAllocRecord | allocator/src/range_list_allocator.rs:512-522 | records a range in the reserved table |
| MemoryBlock.MemoryBlock.AddFreeRegionMerge | allocator/src/range_list_allocator.rs:603-613 | returns a range to the free table |
| MemoryBlock.MemoryBlock.OverflowWrapping | allocator/src/range_list_allocator.rs:615-654 | performs the growth step; the doubled tables fill the new aligned block exactly, one behind the other |
| MemoryBlock.MemoryBlock.EnsureOverflowHeadroom | allocator/src/range_list_allocator.rs:503-509 | grows exactly when one of the tables has fewer than ten spare slots |
| MemoryBlock.MemoryBlock.AllocateRegion | allocator/src/range_list_allocator.rs:656-662 | performs the allocation step for every size, nothing before finalization |
| MemoryBlock.MemoryBlock.DeallocateRegion | allocator/src/range_list_allocator.rs:664-679 | performs the deallocation step, nothing before finalization or for size 0 |
| MemoryBlock.MemoryBlock.TrimForBoot | allocator/src/range_list_allocator.rs:681-722 | performs the handoff step for every reserve and lists its ranges |
| MemoryBlock.MemoryBlock.KeepOnly | allocator/src/range_list_allocator.rs:707-720 | the block set aside becomes the only entry of a new table and is struck off the reserved one |
| MemoryBlock.ListRegions | allocator/src/range_list_allocator.rs:703-705 | lists each reserved range, in order |
| GlobalModel.InitInv | allocator/src/lib.rs:79-100 | a finalized range allocator and an empty buddy allocator start a run |
| GlobalModel.AllocInv | allocator/src/lib.rs:119-136 | `alloc` keeps both allocators consistent and adds exactly one live block at a fresh address |
| GlobalModel.NullExact | allocator/src/lib.rs:119-136 | a successful large request is answered with null exactly when its place is at address 0; the buddy allocator never answers with null, and is granted the block at 0 exactly when no list serves and that place is free |
| GlobalModel.NullAnswer | allocator/src/lib.rs:119-136 | an initial state and a request answered with null although a block is recorded as live |
| GlobalModel.AllocNonNull | allocator/src/lib.rs:119-136 | if byte 0 is not managed, no success in any run is a null pointer |
| GlobalModel.RunManaged | allocator/src/lib.rs:102-151 | over any run the bytes under management stay the same |
| GlobalModel.GrantDonatable | allocator/src/lib.rs:102-111 | a block drawn for the buddy allocator is aligned and disjoint from all it holds |
| GlobalModel.DispatchAgrees | allocator/src/lib.rs:138-150 | dispatching by layout finds the allocator that served the block |
| GlobalModel.AllocWhere | allocator/src/lib.rs:119-136 | requests above the largest block, by size or alignment, leave the buddy allocator alone; all others leave the large blocks alone |
| GlobalModel.FailureExact | allocator/src/lib.rs:119-136 | null for a large request exactly when the range allocator has no place for it, for the others exactly when no aligned run is free in the buddy allocator and there is no place for a block of the largest size |
| GlobalModel.InitNoLeak | allocator/src/lib.rs:79-100 | a freshly finalized allocator holds nothing for anybody |
| GlobalModel.RunNoLeak | allocator/src/lib.rs:102-151 | over every run what the range allocator has handed out is exactly the callers' large blocks and the buddy allocator's donated blocks |
| GlobalModel.DeallocInv | allocator/src/lib.rs:138-150 | `dealloc` keeps both allocators consistent and removes exactly that block |
| GlobalModel.LiveBlocksDisjoint | allocator/src/lib.rs:102-151 | over any run two live blocks share no byte, whoever served them |
| GlobalModel.LiveBlocksAligned | allocator/src/lib.rs:119-136 | over any run a live block is aligned and large enough |
| GlobalModel.BuddyMemoryReserved | allocator/src/lib.rs:102-111 | over any run all memory held by the buddy allocator is reserved in the range allocator |
| GlobalModel.TrimmedInv | allocator/src/range_list_allocator.rs:681-722 | trimming the range allocator keeps both allocators consistent |
| GlobalModel.HandoffCovers | allocator/src/range_list_allocator.rs:681-722 | in every run after the handoff, every byte of every block callers hold, from either allocator, lies inside the reported ranges |
| GlobalAllocator.MemoryAllocator.constructor | allocator/src/lib.rs:79-100 | both allocators behind one interface, nothing handed out |
| GlobalAllocator.MemoryAllocator.AllocForBuddyAllocator | allocator/src/lib.rs:102-111 | draws one block of the largest size, aligned to it, from the range allocator |
| GlobalAllocator.MemoryAllocator.Alloc | allocator/src/lib.rs:119-136 | performs the allocation step; null for a failure, the address otherwise |
| GlobalAllocator.MemoryAllocator.AllocSmall | allocator/src/lib.rs:127-134 | turns to the range allocator only when no list of the buddy allocator can serve |
| GlobalAllocator.MemoryAllocator.Dealloc | allocator/src/lib.rs:138-150 | performs the deallocation step |
| RwLock.FlagBits | mutex/src/lib.rs:107-188 | testing, setting and clearing the flag bit of a word, as arithmetic |
| RwLock.StepInv | mutex/src/lib.rs:115-190 | every atomic step keeps the word equal to read guards plus flag, and a write guard exclusive, for any number of agents |
| RwLock.RunInv | mutex/src/lib.rs:115-190 | so does every interleaving |
| RwLock.SafeRun | mutex/src/lib.rs:106-190 | over all interleavings of any number of agents a write guard excludes every other guard, at most one agent is announced, the word is guards plus flag and never overflows, and it is 0 when nobody holds or waits |
| RwLock.LoadExact | mutex/src/lib.rs:115-161 | a load takes note of the current word; a compare-and-exchange that loses changes nothing else |
| RwLock.ReaderEnters | mutex/src/lib.rs:115-134 | in every reachable state a reader's successful exchange takes a guard exactly when nobody is announced and the counter is below the flag |
| RwLock.WriterAnnounces | mutex/src/lib.rs:136-151 | in every reachable state a writer's successful exchange announces it under the same condition, whatever the number of readers |
| RwLock.DrainExact | mutex/src/lib.rs:152-159 | in every reachable state an announced writer gets its guard exactly when no read guard is held |
| RwLock.DropExact | mutex/src/lib.rs:168-190 | in every reachable state dropping a guard gives up exactly that guard |
| RwLock.WriterGetsThrough | mutex/src/lib.rs:136-165 | for every number of readers below 2^63 there is a run that announces a writer over them and gives it its guard when they leave |
| RwLock.ReadersNeverGrow | mutex/src/lib.rs:136-165 | while a writer stays announced the number of read guards never grows |
| RwLock.InvFlag | mutex/src/lib.rs:107-134 | the flag is set exactly while an agent drains or writes, if and only if there are fewer than 2^63 read guards |
| RwLock.FlagBound | mutex/src/lib.rs:107-134 | that holds over all interleavings exactly for fewer than 2^63 agents |
| VirtQueueModel.PowerOfTwoSizes | virtio/src/queue.rs:145-192 | the sizes covered are exactly the powers of two up to 32768 |
| VirtQueueModel.WrapDifference | virtio/src/queue.rs:148-173 | wrapping subtraction of 16-bit indices is the difference of the unbounded counts |
| VirtQueueModel.SlotOfWrapped | virtio/src/queue.rs:153-181 | the slot of the wrapped index is the slot of the unbounded count |
| VirtQueueModel.SlotsDiffer | virtio/src/queue.rs:153-154 | counts less than a queue apart have different slots |
| VirtQueueModel.NeverFull | virtio/src/queue.rs:147-151 | submitting a descriptor that is held never meets a full queue |
| VirtQueueModel.PopReply | virtio/src/queue.rs:165-192 | popping yields the next completion in device order or nothing, never corruption |
| VirtQueueModel.AllocateExact | virtio/src/queue.rs:137-143 | a descriptor is handed out unless all are held or in flight; it was neither, and is held afterwards |
| VirtQueueModel.SubmitExact | virtio/src/queue.rs:145-163 | a descriptor submitted is the next the device is given, and in flight |
| VirtQueueModel.PopExact | virtio/src/queue.rs:165-192 | nothing comes back exactly when every completion was popped; otherwise the next one does, and its descriptor returns to the client |
| VirtQueueModel.ReleaseExact | virtio/src/queue.rs:194-201 | a descriptor released is the next handed out, which undoes the release |
| VirtQueueModel.GuardsExact | virtio/src/queue.rs:147-179 | whatever clients and device do, the ring is full with `size` entries ahead and a device more than `size` completions ahead is reported as broken |
| VirtQueueModel.FetchInv | virtio/src/queue.rs:145-163 | the device finds the next submitted head in its slot: it was not overwritten |
| VirtQueueModel.StepInv | virtio/src/queue.rs:137-201 | every step of driver, client or device keeps counters, rings and ownership |
| VirtQueueModel.EveryRun | virtio/src/queue.rs:86-201 | over every run consumed <= completed <= fetched <= submitted <= consumed + size, logs are prefixes of each other in order, and no error is reported |
| VirtQueueModel.EveryAllocation | virtio/src/queue.rs:137-143 | over every run a client gets a descriptor that is neither held nor in flight, unless all are |
| VirtQueueModel.EveryDescriptorOwnedOnce | virtio/src/queue.rs:137-201 | over every run each descriptor is free, held or in flight, in exactly one place |
| VirtQueue.VirtQueue.constructor | virtio/src/queue.rs:86-108 | all descriptors free, the initial state of the runs |
| VirtQueue.LinkDescriptors | virtio/src/queue.rs:92-96 | the free list holds the address of every descriptor, the last one first |
| VirtQueue.VirtQueue.AllocateDescriptor | virtio/src/queue.rs:137-143 | none exactly when all descriptors are held or in flight; otherwise one that was neither and is held afterwards |
| VirtQueue.VirtQueue.SetAvailableRing | virtio/src/queue.rs:145-163 | performs the submission step and publishes the index |
| VirtQueue.VirtQueue.PopUsed | virtio/src/queue.rs:165-192 | performs the consumption step |
| VirtQueue.VirtQueue.DequeueUsed | virtio/src/queue.rs:194-201 | returns a descriptor to the free list |
| VirtQueue.MaskIsModulo | virtio/src/queue.rs:153-181 | masking with size - 1, as the methods do, is the remainder, for every index and every size covered |
| Bits.AndMask | virtio/src/queue.rs:153-181 | masking with the k low bits is the remainder by 2^k |
| Bits.AndBit | mutex/src/lib.rs:119-140 | masking a word with its top bit tests whether the word reaches it |
| Bits.OrBit | mutex/src/lib.rs:146-146 | setting a bit above a word adds it |
| Fat32.WindowContains | file/filesystem/src/filesystem/fat32/fat.rs:61-77 | the window read for an entry lies in the table and contains the entry's sector |
| Fat32.WindowExact | file/filesystem/src/filesystem/fat32/fat.rs:61-77 | the window is sixteen sectors or the whole table, eight of them in front of the sector as far as the table allows |
| Fat32.VisitInBytes | file/filesystem/src/filesystem/fat32/fat.rs:114-142 | what a visit comes to, from the low 28 bits of the little-endian word at the cluster's place in the first table |
| Fat32.CachedEntry | file/filesystem/src/filesystem/fat32/fat.rs:104-117 | a cached word is the entry on the device |
| Fat32.ReadWindow | file/filesystem/src/filesystem/fat32/fat.rs:79-103 | the cache is a faithful copy of its window |
| Fat32.FatIter.constructor | file/filesystem/src/filesystem/fat32/fat.rs:34-49 | starts at the first cluster, whatever the directory says it is; an empty file has none |
| Fat32.FreshWindow | file/filesystem/src/filesystem/fat32/fat.rs:61-117 | a window read for an entry holds it exactly if the table does; otherwise the index is past the window |
| Fat32.FatIter.Next | file/filesystem/src/filesystem/fat32/fat.rs:55-143 | yields what an uncached walk yields, errors included; stated on the device's bytes: entries 2 to clusters + 1 lead on, 0x0FFF_FFF8 and above end the chain, all others are corrupt; the cache only decides which sectors are read |
| Fat32Read.FileByteIsConcat | file/filesystem/src/filesystem/fat32.rs:434-513 | the bytes that are read are those of the concatenated clusters |
| Fat32Read.ChainsAgree | file/filesystem/src/filesystem/fat32/fat.rs:118-136 | a file has one chain: any two walks agree as far as both go |
| Fat32Read.PlanExact | file/filesystem/src/filesystem/fat32.rs:455-461 | cluster, sector and byte offsets recompose the file offset, and just enough sectors are read |
| Fat32Read.CopyCluster | file/filesystem/src/filesystem/fat32.rs:477-496 | the sectors taken from a cluster continue the file where the buffer stands |
| Fat32Read.AfterChain | file/filesystem/src/filesystem/fat32/fat.rs:118-136 | what the iterator visits is the file's chain |
| Fat32Read.EnoughAtEnd | file/filesystem/src/filesystem/fat32.rs:499-501 | at the end of a chain that is long enough nothing is missing |
| Fat32Read.EndsOnce | file/filesystem/src/filesystem/fat32.rs:468-501 | a read ends in exactly one way: without an error, as an incomplete read, a corrupt chain or a device error, or by indexing past the table |
| Fat32Read.HealthyPasses | file/filesystem/src/filesystem/fat32.rs:468-469 | no cluster of a healthy chain stops the iterator |
| Fat32Read.HealthyReads | file/filesystem/src/filesystem/fat32.rs:434-513 | every read of a healthy file within its size succeeds |
| Fat32Read.CopyChain | file/filesystem/src/filesystem/fat32.rs:468-497 | the copying loop ends on every chain, cyclic ones included, where and how the walk it makes does |
| Fat32Read.CopyOne | file/filesystem/src/filesystem/fat32.rs:477-496 | copies the wanted sectors of one cluster exactly when they can be read |
| Fat32Read.ReadAt | file/filesystem/src/filesystem/fat32.rs:434-513 | on success the buffer holds exactly the bytes [offset, offset + len) of the file's chain; success and each error come exactly when the entries and sectors consulted say so; errors leave the buffer alone |
| Fat32Table.WrittenAt | file/filesystem/src/filesystem/fat32/fat.rs:13-19 | a writer that sets one little-endian entry after the other leaves each cluster's entry naming the next |
| Fat32Table.FollowsWritten | file/filesystem/src/filesystem/fat32/fat.rs:114-136 | the reader follows the written chain to its mark |
| Fat32Table.ReadBack | file/filesystem/src/filesystem/fat32.rs:434-513 | every read inside a file laid out by the writer succeeds and gives exactly its bytes, at literal places on the device |
| Fat32Table.ShortRead | file/filesystem/src/filesystem/fat32.rs:499-501 | a chain that ends before the last byte wanted makes an incomplete read |
| Fat32Table.CorruptRead | file/filesystem/src/filesystem/fat32.rs:468-469 | a chain whose last entry is corrupt makes every read that gets there fail as corrupt |
| Fat32Table.DeadDevice | file/filesystem/src/filesystem/fat32.rs:468-469 | on a device that fails every read, reads of a nonempty file are device errors |
| DeviceTreeWalk.WalkAgreesWithSkip | dtb/src/lib.rs:343-466 | if the walk comes to the end of a node, the nest counter ends at the same position |
| DeviceTreeWalk.SkipConsumes | dtb/src/lib.rs:428-466 | skipping consumes exactly the serialized subtree |
| DeviceTreeWalk.SkipReadsTree | dtb/src/lib.rs:428-466 | whatever is skipped is a serialized subtree |
| DeviceTreeWalk.SkipExact | dtb/src/lib.rs:428-466 | skipping succeeds exactly where a subtree is serialized |
| DeviceTreeWalk.WalkReports | dtb/src/lib.rs:343-426 | a walk to the end reports exactly the matching nodes within the depth limit, in preorder |
| DeviceTreeWalk.PropsFold | dtb/src/lib.rs:371-385 | the property loop gets through exactly when every leading property is accepted, and then stands before the children |
| DeviceTreeWalk.WalkStops | dtb/src/lib.rs:387-389 | a stopped walk has reported the matching nodes up to and including the first at which it was told to stop |
| DeviceTreeWalk.PreorderAscends | dtb/src/lib.rs:343-426 | reported positions ascend strictly: each node once |
| DeviceTreeWalk.WalkEnds | dtb/src/lib.rs:343-426 | the walk comes to the end exactly when properties precede children and no callback objects or stops |
| DeviceTreeWalk.SkipNodeLoop | dtb/src/lib.rs:428-466 | the loop with its nest counter |
| DeviceTreeWalk.WalkStruct | dtb/src/lib.rs:343-426 | the recursive walker with its two loops and its reports |
| DeviceTreeWalk.PropertyLoop | dtb/src/lib.rs:371-385 | the property loop: position, depth limit and match flag behind the properties |
| DeviceTreeSerial.TokenStands | dtb/src/lib.rs:317-342 | the big-endian words 1, 2, 3 and 4 are the begin, end, property and nop tokens |
| DeviceTreeSerial.NoOtherToken | dtb/src/lib.rs:417-423 | nothing else is a token |
| DeviceTreeSerial.NoName | dtb/src/lib.rs:367-367 | a name ends at the first zero byte, and cannot be read without one |
| DeviceTreeSerial.HeadStands | dtb/src/lib.rs:366-369 | a serialized name is passed with its terminator and padding |
| DeviceTreeSerial.RecordStands | dtb/src/lib.rs:446-453 | a serialized property record is passed with its value and padding |
| DeviceTreeSerial.SpelledNode | dtb/src/lib.rs:343-466 | what the serializer writes for a tree is read as that tree, at the positions of its bytes |
| DeviceTreeSerial.SkipsSerialized | dtb/src/lib.rs:428-466 | skipping a serialized tree ends exactly behind its bytes |
| DeviceTreeSerial.WalksSerialized | dtb/src/lib.rs:343-426 | a walk of a serialized tree that comes to the end ends exactly behind its bytes and has reported the matching nodes, in preorder and within the depth limit, where they are serialized |
| DeviceTreeSerial.WalksThrough | dtb/src/lib.rs:343-426 | with properties in front of children and callbacks that never object, every serialized tree is walked to its end |
| DeviceTreeSerial.PropsMustLead | dtb/src/lib.rs:417-423 | a node with a property behind a child is never walked to its end |
| DeviceTreeRewrite.ReadPutEntries | dtb/src/lib.rs:530-546 | reservations written and terminated are read back, up to the first that looks like the terminator |
| DeviceTreeRewrite.PutReadEntries | dtb/src/lib.rs:858-879 | reservations read spell exactly the bytes they were read from |
| DeviceTreeRewrite.ParseBuild | dtb/src/lib.rs:841-920 | parsing a built blob gives its parts back, for blocks of any size |
| DeviceTreeRewrite.EntriesInBytes | dtb/src/lib.rs:971-987 | each reservation is its address and its size, eight big-endian bytes each, up to the first that is all zero |
| DeviceTreeRewrite.HeaderLayout | dtb/src/lib.rs:932-943 | the header names its blocks at byte offsets 4 to 39, big-endian |
| DeviceTreeRewrite.RewriteLayout | dtb/src/lib.rs:841-920 | the rewritten header names the total size, the structure behind all reservations, and the strings at the next multiple of four |
| DeviceTreeRewrite.RewriteRoundTrip | dtb/src/lib.rs:841-920 | parsing the result gives the old reservations and then the new ones, all of them exactly when none is (0, 0), identical structure and strings blocks and all other header fields; it is at most the required size exactly when the old blob is roomy |
| DeviceTreeRewrite.TerminatorHides | dtb/src/lib.rs:881-887 | an addition of (0, 0) hides itself and what is added behind it |
| DeviceTreeRewrite.RewriteTwice | dtb/src/lib.rs:841-920 | rewriting with a and then b equals rewriting with a followed by b exactly when a has no (0, 0) |
| DeviceTreeRewrite.SmallerFirst | dtb/src/lib.rs:881-903 | each reservation makes the output longer by its own size, whatever the alignment |
| DeviceTreeRewrite.InOrderRoomy | dtb/src/lib.rs:830-839 | a blob whose blocks lie in order, the strings 4-aligned, has room for them in its total size |
| DeviceTreeRewrite.FitsExactly | dtb/src/lib.rs:830-920 | for every blob whose blocks can be read, aligned or not, the output stays within the required size exactly when the total size has room for the blocks with the strings rounded up |
| DeviceTreeRewrite.WritesPast | dtb/src/lib.rs:830-920 | a blob of 68 bytes that asks for 60 and needs 68 |
| DeviceTreeRewrite.FindMemoryReservationBlock | dtb/src/lib.rs:530-546 | on every terminated reservation block the callback gets the reservations in order, up to the first it breaks at |
| DeviceTreeRewrite.CopyEntries | dtb/src/lib.rs:858-879 | the old reservations land where they were |
| DeviceTreeRewrite.AppendEntries | dtb/src/lib.rs:881-887 | the new reservations and the terminator follow |
| DeviceTreeRewrite.WriteStructure | dtb/src/lib.rs:889-902 | the structure block follows, and behind it a gap that is left as it was |
| DeviceTreeRewrite.WriteBlocks | dtb/src/lib.rs:889-909 | the strings follow, at the offset the header will name |
| DeviceTreeRewrite.WriteHeader | dtb/src/lib.rs:911-916 | three header fields change |
| DeviceTreeRewrite.MakeDtb | dtb/src/lib.rs:830-920 | errs exactly when the buffer is shorter than the required size, leaving it alone; runs over its end exactly when it is long enough for that but not for the output; otherwise writes exactly the rewritten blob and nothing behind it |

## Left out

- MMIO registers, cache maintenance, UART, timers, CPU registers, assembly and boot entry: hardware effects.
- Memory ordering: the lock and the queue are modelled over sequentially consistent steps; `SpinLock` appears only as the atomicity of a method.
- Virtio device initialization and the block request glue; descriptor contents; completions are not matched back to requests.
- FAT long file names, path opening, MBR parsing; the unfinished file system operations.
- Device tree address translation, the interpretation of `reserved-memory` nodes, header validation and the search front ends.
- `bitregs`, the derive macros, ELF parsing, `AlignedSliceBox`, the bump allocator for tests, paging, build tooling: they would only add easy members.
- `init` and locking order of the global allocator, and its null answers before initialization or finalization.
- `change_allocator` of the buddy allocator: the heap source's answer is a parameter of each allocation instead.
- BuddyAllocator.BuddyAllocator.SetMemory: addresses and sums are unbounded naturals, so overflow of `usize` is not modelled; memory must be aligned (allocator/src/buddy_allocator.rs:72), not donated before, and not at the null address, for which `NonNull::new_unchecked` is undefined (intrusive_linked_list/src/lib.rs:46).
- MemoryBlock.MemoryBlock.AllocateRegionInternal: addresses, sizes and slot counts are unbounded naturals; overflow of `usize` sums and of the 32-bit counters is not modelled.
- MemoryBlock.MemoryBlock.AddReservedRegionDynamic: the sums of range start and size, and of start and size, are unbounded likewise.
- MemoryBlock.MemoryBlock.CheckRegions: slots behind a table's fill count, which some paths zero, are not part of a table's value.
- MemoryBlock.MemoryBlock.OverflowWrapping: finding no memory, where the code panics, is excluded by a precondition; in the specification layer it is the outcome Panic.
- RangeModel.AllocInv: only requests of at least one byte keep the invariant, which wants live blocks nonempty; Rust's `GlobalAlloc` does not allow others. What they do to the tables is in `ZeroTake`.
- MemoryBlock.MemoryBlock.TrimForBoot: the returned vector is a sequence, so its own allocation does not re-enter the allocator.
- GlobalAllocator.MemoryAllocator.Alloc: calls that panic for want of table memory, or that would put the null address on a list, are excluded by a precondition; in the specification layer they are the outcomes Panic and Undefined.
- RwLock.SafeRun: agents come and go within a fixed number, which may be any; fairness and progress are not stated.
- VirtQueueModel.EveryRun: a chain is represented by its head; its other descriptors stay with the client until released.
- Fat32.FatIter.Next: a failing device is a fixed predicate on the blocks read, and a window larger than the table, a branch the code cannot reach, is absent.
- Fat32Read.ReadAt: a first cluster of 1, for which the block number underflows, is excluded, and the volume must be mounted with a table covering its clusters.
- DeviceTreeWalk.WalkStruct: callbacks answer as functions of the position, the property callback consumes one record, and reading past the blob is an error instead of undefined.
- DeviceTreeRewrite.MakeDtb: each block must lie inside the blob and behind the header; what an overrun does to memory is not modelled; offsets count from the start of an 8-aligned buffer, and words are written byte by byte, so the alignment that references to entries need is not part of the model.
- DeviceTreeRewrite.RewriteRoundTrip: here and in `RewriteTwice` the output must be shorter than 4 GiB, since the header fields are cut to 32 bits.
