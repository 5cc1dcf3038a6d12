# Verified models of the Aurora kernel's core algorithms

A Dafny 4.11 project that models the parts of the Aurora kernel whose correctness rests on
invariants over memory, lists and bitmaps, and proves properties of them. The centre is the
registry hive: one byte buffer holding cells laid end to end, each with a signed size in its
header (negative when allocated, positive when free). Around it stand the checksum family, the
priority scheduler, the bitmap page allocator, PE base relocation, the WMI event queue and
provider table, the driver and device registry, the capability table and the parent-cycle check.

Each part has the same shape. What the C code does in place is a class or an in-place method
with the source's loops and fields; its `ensures` equates the new state with a specification
function of the old one; lemmas about those functions, and about whole runs of them, state what
the code promises. Where a promise is false of the code, a lemma gives the failing input and
another says exactly when the promise holds.

Reading order:

| files | part of the kernel |
|---|---|
| ByteMemory, Lists, Sets | little-endian fields, block copies, lists of objects, set sizes |
| CellMap, HiveArena, HiveRuns | the cell map, the arena bytes under it, runs of operations |
| HiveCompaction, HiveWalk | packing, and the in-place loop as it runs |
| HiveValues, HiveBlank, HiveSlack | value cells, hives of zero payload, the slack case |
| Hive | the hive object: the C operations of config/hive |
| Crc32, RotatingChecksum, Checksum, RunningSums | config/hive/hivesum.c |
| SchedulerRuns, Scheduler | kern/scheduler.c |
| PageRuns, PageAllocator | mem/mem.c |
| PeRelocation | config/ntcore/pe.c |
| EventLog, EventQueue, ProviderTable | wmi/wmi_provider.c |
| DriverRuns, DriverCore | kern/driver_core.c |
| CapabilityTable | l4/l4.c |
| ParentChain | config/hive/hivechek.c |

Layout assumed: the 64-bit build, where `SIZE_T` has 64 bits, `sizeof(HIVE_HEADER)` is 3728 with
`Checksum` at byte 140 and `Size` at byte 68, `sizeof(CELL_HEADER)` is 8, `sizeof(VALUE_CELL)` is
32 and `sizeof(WMI_EVENT_ENTRY)` is 88. Fields are little-endian. Integer widths are written out
where they can wrap.

Main results about the hive: every run of allocations, frees, writes and resizes that stays clear
of the slack case keeps the headers tiling the buffer with no two free neighbours; the whole cell
map is then a function of the live extents alone; no operation touches a byte of a live cell it is
not aimed at; defragmentation terminates and keeps every allocated cell. Two promises fail. A free
cell at most one header larger than the request is taken whole but recorded as smaller: allocation
leaves an arena that some cell map tiles, on every payload, exactly when it stays clear of that
case, and in it on a given payload exactly when the bytes left over happen to read as headers. And
compaction reads a header again after the move that may have overwritten it: it packs a cell map on
every payload exactly when each live cell it moves fits in the gap before it.

## Model

| member | source | states |
|---|---|---|
| `CellMap.CanonicalMap` | config/hive/hivebin.c:58-100 | two cell maps of one range with no two free neighbours and the same allocated cells are equal: the map is determined by the live extents |
| `CellMap.FitIndex` | config/hive/hivebin.c:24-29 | the lowest free cell of at least the rounded size, past the end when there is none |
| `CellMap.PlaceChain` | config/hive/hivebin.c:31-44 | taking a free cell keeps the cells end to end if and only if its size is the rounded request or more than one header above it |
| `CellMap.ReleaseKeeps` | config/hive/hivebin.c:58-100 | freeing a cell, with both merges, keeps the tiling and takes just that extent from the live ones |
| `CellMap.ReleaseNoAdjacentFree` | config/hive/hivebin.c:76-97 | two-sided merging leaves no two free neighbours |
| `CellMap.CoalesceKeeps` | config/hive/hivefree.c:127-163 | merging changes no allocated cell and no count of free bytes |
| `HiveArena.AllocateTiled` | config/hive/hivebin.c:13-53 | the old cells, with the taken one replaced by the pieces the allocator writes, tile the arena after the call if and only if it stays clear of the slack case; other cell maps are the matter of `HiveSlack.AllocationExactly` |
| `HiveArena.AllocateFirstFit` | config/hive/hivebin.c:24-29 | an allocation succeeds if and only if some free cell is at least as large as the rounded request, an exact fit included, and takes the first of them |
| `HiveArena.AllocateWrites` | config/hive/hivebin.c:29-44 | it writes the header of the new cell, behind it that of the rest if there is more than a header of it, both with signature and flags cleared, and no other byte |
| `HiveArena.AllocateKeeps` | config/hive/hivebin.c:13-53 | a successful allocation adds one extent of the rounded size, disjoint from every live cell, and changes no byte of a live cell |
| `HiveArena.FreeTiled` | config/hive/hivebin.c:58-100 | freeing keeps the tiling, whichever cell or refused offset it is aimed at |
| `HiveArena.FreeInsideKeeps` | config/hive/hivebin.c:64-97 | a free aimed inside a cell, past its size field, keeps the tiling and damages no other cell |
| `HiveArena.FreeKeeps` | config/hive/hivebin.c:58-100 | freeing removes exactly that extent, keeps every other live cell byte for byte, and keeps free space merged |
| `HiveArena.FreeClears` | config/hive/hivebin.c:67-71 | freeing clears the signature and flags of the cell, merged or not |
| `HiveArena.CoalesceTiled` | config/hive/hivefree.c:127-163 | the header patches of a merge keep the tiling and write only inside the merged stretch, stale headers included |
| `HiveArena.CoalesceKept` | config/hive/hivefree.c:127-163 | a merge keeps every allocated cell, its bytes and the total of free bytes |
| `HiveArena.WriteKeeps` | config/hive/hivebin.c:122-139 | a payload write to a cell changes no header and no other cell |
| `HiveArena.MapFromLiveExtents` | config/hive/hivebin.c:13-100 | two merged arenas of one size with the same live extents have the same cell map |
| `HiveArena.AllocateThenFree` | config/hive/hivebin.c:13-100 | allocating and freeing the result restores the cell map exactly, and no live cell notices |
| `HiveRuns.CreatedCanonical` | config/hive/hiveinit.c:151-157 | the arena a new hive starts with is tiled by one free cell |
| `HiveRuns.StepKeeps` | config/hive/hivebin.c:13-157 | each operation keeps tiling and merging and leaves alone every live cell it is not aimed at |
| `HiveRuns.RunCanonical` | config/hive/hivebin.c:13-157 | every run keeps the headers tiling the arena and free space fully merged |
| `HiveRuns.RunsMeet` | config/hive/hivebin.c:13-100 | two runs that leave the same extents live leave the same cell map, whatever they did in between |
| `HiveRuns.ReachedAligned` | config/hive/hivebin.c:20-21 | in every hive a run can reach, live cells start and end on multiples of 8 |
| `HiveRuns.RunIsolates` | config/hive/hivebin.c:105-157 | a live cell no operation of a run is aimed at is unchanged in every byte after it |
| `HiveRuns.WriteThenReadBack` | config/hive/hivebin.c:122-157 | bytes written to a cell are read back after any run aimed at other cells |
| `HiveRuns.ReadsExactly` | config/hive/hivebin.c:105-157 | a read of n bytes at a cell succeeds if and only if the cell is live and n + 8 is at most its length, and gives the bytes behind the header |
| `HiveRuns.AllFreedIsFresh` | config/hive/hiveinit.c:151-157 | a run from a new hive that frees all it allocated ends in the one free cell it began with |
| `HiveRuns.AllocateFreeRun` | config/hive/hivebin.c:13-100 | allocating and freeing the result is a legal run that leaves the cell map and every live cell as they were |
| `HiveRuns.LegalMeans` | config/hive/hivebin.c:13-139 | the operations of a run: allocations after which the allocator still knows all cells, and offsets of cells or refused ones |
| `HiveRuns.ResizeKeeps` | config/hive/hivecell.c:295-332 | a resize trades one extent for another, carries over signature, flags and every payload byte the old cell has and the new one asks for, and leaves every other live cell alone |
| `HiveRuns.ResizeCarries` | config/hive/hivecell.c:317-318 | every payload prefix that fits both sizes is the same before and after |
| `HiveCompaction.PackedMatches` | config/hive/hiveload.c:576-593 | the packed image holds exactly the source's allocated cells, in order, of the same sizes and bytes |
| `HiveCompaction.PackedCopyTiled` | config/hive/hiveload.c:572-597 | packed cells tile their buffer up to its last byte |
| `HiveCompaction.SafeAtExactly` | config/hive/hivebin.c:195-214 | a single re-read: a moved cell's header, read again after the move, still tells its length if and only if the cell fits in the gap or its bytes at that place read as its length |
| `HiveCompaction.FittingIsSafe` | config/hive/hivebin.c:195-214 | when each moved cell is no larger than the gap before it, every re-read is right |
| `HiveCompaction.CompactedIsCanonical` | config/hive/hivebin.c:186-228 | after compaction the allocated cells stand in their old order with identical bytes, packed from the header, all free bytes in one cell |
| `HiveSlack.SlackTilesByChance` | config/hive/hivebin.c:31-44 | after a slack allocation some cell map tiles the arena if and only if the bytes left over, as they stand before the call, happen to read as headers leading to its end |
| `HiveSlack.AllocationExactly` | config/hive/hivebin.c:13-53 | after an allocation some cell map tiles the arena, on every payload of the cell map before it, if and only if it stays clear of the slack case; wrapped requests included; for cell maps with merged free space and live cells on multiples of 8, as runs leave them |
| `HiveSlack.ReachedAllocation` | config/hive/hivebin.c:13-53 | the same for the cell map of every hive a run can reach |
| `HiveSlack.FreshHiveSlack` | config/hive/hivebin.c:31-44 | a new hive whose free cell is one header above the rounded request is tiled by no cell map after the allocation |
| `HiveSlack.WrappedRequestNeverTiles` | config/hive/hivebin.c:19-39 | a request whose rounding wraps to zero writes a zero-length header that no walk passes |
| `HiveWalk.SafePacks` | config/hive/hivebin.c:193-224 | when every re-read is right, the loop ends and leaves the packed arena |
| `HiveWalk.TooLargeStalls` | config/hive/hivebin.c:193-214 | the first cell larger than its gap stalls the loop for good when its payload is zero |
| `HiveWalk.CompactionExactly` | config/hive/hivebin.c:186-228 | in-place compaction ends, and packs, on every payload of a cell map if and only if each live cell it moves is no larger than the gap before it |
| `HiveWalk.ReachedCompaction` | config/hive/hivebin.c:186-228 | the same for the cell map of every hive a run can reach |
| `HiveValues.ValueReadsBack` | config/hive/hivecell.c:149-216 | name, type, length and data of a stored value decode to what the caller gave, inline up to four bytes and from their own cell above |
| `HiveValues.DeleteFrees` | config/hive/hivecell.c:255-277 | deleting a stored value frees exactly its one or two extents |
| `HiveValues.CreateThenDelete` | config/hive/hivecell.c:149-277 | creating a value and deleting it restores the cell map exactly, and no live cell notices |
| `HiveValues.GiveBack` | config/hive/hivecell.c:196-201 | the failure path that frees the first cell restores the map from before the call |
| `HiveObject.Hive.constructor` | config/hive/hiveinit.c:118-163 | a new hive is the header and one free cell over the rest |
| `HiveObject.Hive.AllocateBlock` | config/hive/hivebin.c:13-53 | takes the first free cell of at least the rounded size and fails only when there is none; new bytes, headers, cell map and offset are those of the specification, and the new cell map tiles if and only if the cell was used up or the rest has a header |
| `HiveObject.Hive.MergeNeighbours` | config/hive/hivefree.c:127-163 | patching the sizes of a free cell and its neighbours in place is the merge of the specification, at the start of a cell and inside one |
| `HiveObject.Hive.FindPrevious` | config/hive/hivefree.c:143-160 | the backward search finds exactly the free cell that ends where the merged one starts |
| `HiveObject.Hive.FreeBlock` | config/hive/hivebin.c:58-100 | on a cell or refused offset it is the free of the specification, taking just that extent out and clearing its signature and flags; inside a cell it rewrites that cell's bytes only; the tiling survives either way |
| `HiveObject.Hive.GetData` | config/hive/hivebin.c:105-117 | judges by the size read at any offset, in 64-bit arithmetic; at a cell it gives the payload exactly when the cell is live and can hold the size |
| `HiveObject.Hive.WriteData` | config/hive/hivebin.c:122-139 | writes where the payload is found or nothing, with the status that says which; a write inside one cell, wherever it starts, changes no other |
| `HiveObject.Hive.ReadData` | config/hive/hivebin.c:144-157 | returns the bytes where the payload is found, at a cell exactly when it holds that many |
| `HiveObject.Hive.Compact` | config/hive/hivebin.c:186-228 | on any hive on which the loop ends inside the buffer, the bytes the loop leaves; where it packs, the packed arena, canonical again |
| `HiveObject.Hive.FindFreeSpace` | config/hive/hivefree.c:71-93 | finds the first free cell of at least the rounded size, or 0 exactly when none is that large |
| `HiveObject.Hive.MarkSpaceAsFree` | config/hive/hivefree.c:98-122 | on an allocated cell's own extent it is exactly the free of that cell; inside a cell it leaves the tiling |
| `HiveObject.Hive.CoalesceFreeSpace` | config/hive/hivefree.c:127-163 | merges where a positive size is read, a free cell with its free neighbours, and refuses anything else |
| `HiveObject.Hive.Defragment` | config/hive/hivefree.c:200-234 | the fixpoint terminates, leaving no two free neighbours, the same allocated cells and payloads, and the same free bytes |
| `HiveObject.Hive.AllocateFromFreeSpace` | config/hive/hivefree.c:239-277 | the second allocator gives the offset and arena of the first on every request, slack case included, except one whose rounding wraps to zero, where only it fails cleanly |
| `HiveObject.Hive.FreeSpaceStatistics` | config/hive/hivefree.c:168-195 | counts the free cells, their bytes and the largest of them |
| `HiveObject.Hive.FragmentationLevel` | config/hive/hivefree.c:282-308 | the score stays between 0 and 100, and its unsigned difference and sum never wrap on a hive of any size |
| `HiveObject.FragmentationIs` | config/hive/hivefree.c:293-307 | the score is blocks per KiB plus one, and 100 less the share of the largest block, in 32-bit products, at most 100; short of 100 it bounds the percentage of free bytes outside the largest block |
| `HiveObject.ScoreBounds` | config/hive/hivefree.c:282-308 | the largest free block's share is at most 100, so subtracting it cannot wrap |
| `HiveObject.Hive.AllocateCell` | config/hive/hivecell.c:13-26 | allocates the requested payload plus a header, rounded to 8 |
| `HiveObject.Hive.ValidateCell` | config/hive/hivecell.c:62-86 | judges any offset by the size there; among the starts of cells it accepts exactly the allocated ones |
| `HiveObject.Hive.CreateValueCell` | config/hive/hivecell.c:149-216 | stores the value in extents disjoint from all live cells, the record in one of 40 bytes and the name, or fails leaving the cell map it found, also when only the second allocation fails |
| `HiveObject.Hive.DeleteCell` | config/hive/hivecell.c:255-277 | frees the data cell a value record names and then the record |
| `HiveObject.Hive.ResizeCell` | config/hive/hivecell.c:295-332 | goes through if and only if the cell is live with a payload, the request is not empty and some free cell is large enough; then allocate, copy payload and header fields, free; else nothing changes |
| `HiveObject.Hive.CalculateCompactedSize` | config/hive/hiveload.c:531-556 | the header, all allocated bytes and 4096 more |
| `HiveObject.Hive.CopyCompacted` | config/hive/hiveload.c:561-610 | succeeds if and only if the packed cells fit or some first cells fill the destination exactly; in order and byte for byte it then holds all cells if they fit, else only those first ones |
| `HiveObject.TruncatedCopy` | config/hive/hiveload.c:575-604 | of two cells of a size, a destination for one takes one and reports success |
| `HiveObject.Hive.CreateCompactedCopy` | config/hive/hiveload.c:493-526 | a copy into a hive of the computed size never reports too small, holds the allocated cells in order and byte for byte, and ends 4096 bytes below that size |
| `Crc32.TableCrcCorrect` | config/hive/hivesum.c:104-124 | the table-driven register, complemented, is the bit-at-a-time reflected CRC-32 of section 3.2.9 of IEEE 802.3 on every byte string |
| `Crc32.Generator` | config/hive/hivesum.c:46-60 | the table is that of the polynomial of section 3.2.9 of IEEE 802.3, coefficient by coefficient |
| `Crc32.CheckValue` | config/hive/hivesum.c:104-124 | the digits 1 to 9 have the CRC 0xCBF43926 |
| `Crc32.StepsLinear` | config/hive/hivesum.c:48-60 | building the table is linear over XOR |
| `Crc32.TableByteIsSteps` | config/hive/hivesum.c:118-121 | one look-up does eight single-bit steps |
| `Crc32.TableBytesAppend` | config/hive/hivesum.c:285-292 | the register over a concatenation is the register carried from one part to the next |
| `Crc32.BurstChangesCrc` | config/hive/hivesum.c:104-124 | an error confined to four consecutive bytes of a message always changes its CRC |
| `RotatingChecksum.ChecksumIsSpread` | config/hive/hivesum.c:68-99 | the checksum is the XOR of each dword rotated by its distance from the end, and of the bytes after the last dword |
| `RotatingChecksum.OneDwordTurns` | config/hive/hivesum.c:79-83 | a lone dword is turned one bit to the left, the top bit coming round |
| `RotatingChecksum.KnownChecksums` | config/hive/hivesum.c:68-99 | three values: low byte first, a dword turned after it is taken in, the last bytes as they are |
| `RotatingChecksum.OneDwordChange` | config/hive/hivesum.c:68-99 | changing one dword, or the bytes after the last, always changes the checksum |
| `Checksum.AbsorbDwords` | config/hive/hivesum.c:68-99 | the dword loop and the last bytes carry a value over the buffer as the fold does |
| `Checksum.XorChecksumOf` | config/hive/hiveload.c:323-353 | the one-shot and the file variant compute the same fold from zero |
| `Checksum.CrcTable.Initialize` | config/hive/hivesum.c:40-63 | every table entry is eight steps of its index, written once; entry 0x80 is the generator 0xEDB88320 |
| `Checksum.CrcTable.ChecksumOf` | config/hive/hivesum.c:104-124 | the loop over the table returns the CRC-32 of the bytes, 0 for none |
| `Checksum.CrcStreams` | config/hive/hivesum.c:251-300 | however a message is cut, streaming it through the table is one pass over it |
| `Checksum.XorStreams` | config/hive/hivesum.c:251-284 | when every chunk but the last is a dword multiple, streaming gives the checksum of the whole |
| `Checksum.XorStreamsExactly` | config/hive/hivesum.c:251-284 | any number of nonempty chunks of given lengths stream to the checksum of the whole for all data if and only if every length but the last is a multiple of four bytes |
| `Checksum.ChecksumContext.Initialize` | config/hive/hivesum.c:219-246 | a context starts from its preset with nothing fed, unsupported algorithms are refused |
| `Checksum.ChecksumContext.Update` | config/hive/hivesum.c:251-301 | the chunk is appended to what was fed and the byte count kept modulo 2^32; empty data and unsupported algorithms change nothing |
| `Checksum.ChecksumContext.Finalize` | config/hive/hivesum.c:306-326 | a finished CRC stream yields the one-shot checksum of all it was fed; a rotate-XOR stream yields its chunks folded in order, the one-shot checksum on all data of these lengths if and only if only the last chunk may end inside a dword |
| `Checksum.HeaderChecksumOf` | config/hive/hivesum.c:129-146 | the header checksum is that of the header with a zero field, and the header is put back |
| `Checksum.HeaderLayout` | config/hive/hivesum.c:129-161 | the field is bytes 140 to 143 of 3728, computed as zero and repaired to the computed value |
| `Checksum.VerifyHeader` | config/hive/hivesum.c:151-161 | true exactly when the stored field is the computed value |
| `Checksum.RepairHeader` | config/hive/hivechek.c:250-266 | leaves a header that verifies |
| `Checksum.RepairVerifies` | config/hive/hivechek.c:250-266 | repair always makes verification succeed, and changes nothing in a header that already does |
| `Checksum.TamperedHeaderFails` | config/hive/hivesum.c:151-161 | a header that verifies stops doing so when any one dword of it changes, the field itself included |
| `RunningSums.RollingChecksumOf` | config/hive/hivesum.c:485-505 | the rolled sum is the sum of the last window modulo 2^32 |
| `RunningSums.WeakChecksumOf` | config/hive/hivesum.c:537-552 | the two running sums are the byte sum and the sum of prefix sums modulo 65521 |
| `RunningSums.SwapChangesWeak` | config/hive/hivesum.c:537-552 | two different neighbouring bytes changing places change the weak checksum |
| `RunningSums.ByteChangesWeak` | config/hive/hivesum.c:537-552 | one byte changing changes the weak checksum |
| `SchedulerRuns.StepSound` | kern/scheduler.c:119-336 | each step keeps the queues free of duplicates, the current thread out of them and every ready thread in one; only a thread that retires leaves the queues and the processor |
| `SchedulerRuns.RunSound` | kern/scheduler.c:119-336 | the same in every state a run can reach |
| `SchedulerRuns.RunLosesNoOne` | kern/scheduler.c:119-336 | a queued or running thread, the idle one included, stays so over any run in which it does not retire |
| `SchedulerRuns.NoSleepNoLoss` | kern/scheduler.c:119-336 | over a run without sleeps every runnable thread but the idle one stays queued or current |
| `SchedulerRuns.RetiringIsLeaving` | kern/scheduler.c:269-309 | over a legal step an active thread ceases to be so if and only if it sleeps, or is the current thread yielding with no rival |
| `SchedulerRuns.ChosenIs` | kern/scheduler.c:196-213 | the thread chosen is the head of the highest nonempty level, or the idle thread when all five are empty |
| `SchedulerRuns.SleepSleeps` | kern/scheduler.c:289-309 | a thread that sleeps is waiting, out of the queues and off the processor |
| `SchedulerRuns.SleeperWaits` | kern/scheduler.c:119-336 | it stays so over any run in which it is not added again |
| `SchedulerRuns.SliceRunsDown` | kern/scheduler.c:314-336 | over fewer ticks than its slice a thread keeps the processor and loses one tick of slice each |
| `SchedulerRuns.LastTickDispatches` | kern/scheduler.c:321-336 | the tick that uses the slice up renews it to 10 and dispatches |
| `SchedulerRuns.StartedSound` | kern/scheduler.c:38-62 | the state after initialization is sound |
| `SchedulerRuns.SoundMeans` | kern/scheduler.c:119-264 | of a sound state, thread by thread: queued is ready, running is current, ready is queued but for the idle thread, no thread twice in a queue |
| `SchedulerRuns.YieldIsSchedule` | kern/scheduler.c:269-284 | when a ready thread is at least as urgent as the running one, yielding equals one dispatch |
| `SchedulerRuns.YieldSoundExactly` | kern/scheduler.c:231-284 | a yield keeps the scheduler sound if and only if such a thread exists, nothing was running, or the idle thread yields |
| `SchedulerRuns.LegalExactly` | kern/scheduler.c:269-284 | the yields the runs admit are exactly the sound ones |
| `SchedulerRuns.YieldToItselfLoses` | kern/scheduler.c:218-284 | otherwise the very next dispatch leaves the yielding thread ready but neither running nor queued |
| `SchedulerRuns.BoundedWait` | kern/scheduler.c:196-264 | from place j of the first level, with nothing more urgent arriving, a thread runs on exactly the dispatch after the j-th |
| `SchedulerRuns.WaitsExactly` | kern/scheduler.c:196-309 | the wait in plain terms: place j of a level with nothing above it, nothing more urgent running or arriving; after j dispatches the next dispatch or sleep puts the thread on the processor |
| `SchedulerRuns.OnlyThePreemptedOutranks` | kern/scheduler.c:218-264 | after a dispatch only the thread just preempted can be more urgent than the running one |
| `SchedulerObject.Scheduler.constructor` | kern/scheduler.c:38-100 | empty queues, an idle thread of priority 0 set aside |
| `SchedulerObject.Scheduler.Links` | kern/scheduler.c:119-191 | the array heads five lists whose threads know the next and the previous one, null beyond both ends |
| `SchedulerObject.Scheduler.AddThreadToReadyQueue` | kern/scheduler.c:119-155 | appending through the links adds the thread at the end of its priority's list, all five lists staying doubly linked |
| `SchedulerObject.Scheduler.RemoveThreadFromReadyQueue` | kern/scheduler.c:160-191 | unlinking takes exactly that thread out and keeps the order of the rest |
| `SchedulerObject.Scheduler.SelectNextThread` | kern/scheduler.c:196-213 | takes the head of the highest nonempty queue, or the idle thread |
| `SchedulerObject.Scheduler.Schedule` | kern/scheduler.c:218-264 | the dispatch of the machine, on linked lists |
| `SchedulerObject.Scheduler.YieldProcessor` | kern/scheduler.c:269-284 | the yield of the machine, on linked lists |
| `SchedulerObject.Scheduler.Sleep` | kern/scheduler.c:289-309 | the sleep of the machine; refused without a current thread |
| `SchedulerObject.Scheduler.TimerTick` | kern/scheduler.c:314-336 | the tick of the machine: the slice runs down, and at 0 is reset to 10 and a thread is dispatched |
| `PageRuns.AllocateThenFree` | mem/mem.c:148-217 | freeing the run just allocated is legal and restores bitmap, counters and ownership if and only if the run does not start at page 0; else it changes nothing |
| `PageRuns.AllocateFreeRun` | mem/mem.c:148-217 | the same as a run of two calls |
| `PageRuns.RunIsFreeStretch` | mem/mem.c:157-168 | a run is a stretch of existing pages none of which is taken |
| `PageRuns.PageZeroLeaks` | mem/mem.c:182-197 | with page 0 free, a one-page request takes it and freeing the returned address leaves it taken |
| `PageRuns.NullIsIgnored` | mem/mem.c:195-199 | giving back address 0 or no pages is always legal and does nothing |
| `PageRuns.FreeCounts` | mem/mem.c:195-217 | freeing n pages adds n free ones if and only if all of them exist and were taken |
| `PageRuns.CounterExact` | mem/mem.c:104-117 | the available counter is never below the free pages after initialization, and equals them if and only if no two available descriptors share a page |
| `PageRuns.MaxPageIs` | mem/mem.c:84-93 | the memory ends where the highest descriptor does |
| `PageRuns.RunConserves` | mem/mem.c:170-216 | over any run that gives back only owned pages both counters stay exact and their sum never moves; frees of address 0 do nothing |
| `PageRuns.TakeExact` | mem/mem.c:148-190 | a run taken is disjoint from every page handed out before |
| `PageRuns.NullMeansFailure` | mem/mem.c:148-190 | with page 0 taken and never handed out, over any run address 0 only ever means failure |
| `PageRuns.PageZeroExactly` | mem/mem.c:182-182 | some request is answered by address 0 if and only if page 0 is free |
| `PageAllocator.BitWritten` | mem/mem.c:172-175 | setting or clearing a bit of a word is seen at that bit and no other |
| `PageAllocator.PhysicalManager.Initialize` | mem/mem.c:81-123 | all pages taken but those of available descriptors, the counter their sum; exact over disjoint descriptors |
| `PageAllocator.PhysicalManager.AllocatePages` | mem/mem.c:148-190 | the lowest-numbered run of free pages whenever one exists, exactly its bits set, 0 and no change otherwise |
| `PageAllocator.PhysicalManager.FreePages` | mem/mem.c:195-217 | exactly the bits of the range that exist are cleared, counters moved by the count; address 0 is ignored |
| `PeRelocation.RelocatedExactly` | config/ntcore/pe.c:36-38 | over disjoint slots the delta is added modulo 2^64 to every slot and no other byte changes |
| `PeRelocation.DirectoryReadsBack` | config/ntcore/pe.c:26-36 | a directory written block by block names exactly the targets of its entries of type 10, page plus low twelve bits, in order |
| `PeRelocation.RelocatableMeans` | config/ntcore/pe.c:24-40 | the images whose relocation is described in full: slots inside the image, eight bytes apart from each other and clear of the directory |
| `ByteMemory.LittleEndian` | config/ntcore/pe.c:27-32 | fields of two and four bytes weigh their bytes 1, 256, 65536 and so on, and the top bit of a signed one counts down |
| `ByteMemory.LowHalfFirst` | config/ntcore/pe.c:36-37 | a field of eight bytes is two of four, the low one first |
| `PeRelocation.RelocateKeepsDirectory` | config/ntcore/pe.c:19-43 | relocation leaves the directory naming the same slots |
| `PeRelocation.RelocateComposes` | config/ntcore/pe.c:19-43 | relocating twice is relocating once by the sum |
| `PeRelocation.RelocateAndBack` | config/ntcore/pe.c:22-23 | moving to a new base and back restores every byte |
| `PeRelocation.ApplyRelocations` | config/ntcore/pe.c:19-43 | walking blocks and patching in place, re-reading what was patched, on any directory whose walk stays in the image; on relocatable images every slot the original directory names gains loaded minus preferred base modulo 2^64 and no other byte changes |
| `PeRelocation.PointersFollow` | config/ntcore/pe.c:22-38 | a slot that pointed at preferred base plus an offset points at loaded base plus that offset |
| `PeRelocation.WalkRelocates` | config/ntcore/pe.c:19-43 | with whole blocks and slots apart from each other and from the directory, the walk relocates exactly the DIR64 slots |
| `EventLog.RunFaithful` | wmi/wmi_provider.c:234-331 | the queue is always a suffix of at most 1024 of the events fired; deliveries are in fire order, none twice |
| `EventLog.RunComplete` | wmi/wmi_provider.c:234-331 | every event is delivered before those still queued if and only if no event was fired into a full queue |
| `EventLog.FreshRunComplete` | wmi/wmi_provider.c:234-331 | from the empty queue events are handed out one by one from the first if and only if none is fired into a full queue |
| `EventLog.OverflowLoses` | wmi/wmi_provider.c:237-248 | firing into a full queue costs the oldest event, which is never delivered afterwards |
| `EventQueue.Queue.FireEvent` | wmi/wmi_provider.c:215-259 | the doubly linked list with head, tail and count takes the event at its tail, dropping the oldest when full |
| `EventQueue.Queue.Links` | wmi/wmi_provider.c:234-331 | head, tail, count and links spell out one list of at most 1024 entries, null beyond both ends |
| `EventQueue.Queue.GetNextEvent` | wmi/wmi_provider.c:271-331 | hands out the oldest event; a buffer too small, an empty queue or a failed wait changes nothing |
| `ProviderTable.HandleStays` | wmi/wmi_provider.c:22-118 | a provider stays active under its handle until that handle is unregistered |
| `ProviderTable.ReRegisterExactly` | wmi/wmi_provider.c:41-112 | an unregistered GUID can be registered again at once if and only if its provider was the last in the table |
| `ProviderTable.OutAndBackExactly` | wmi/wmi_provider.c:22-118 | unregistering an active provider and registering its GUID again restores the table if and only if it was the last |
| `ProviderTable.Registry.RegisterProvider` | wmi/wmi_provider.c:22-77 | registers with the next handle, or refuses a known GUID or a full table |
| `ProviderTable.Registry.UnregisterProvider` | wmi/wmi_provider.c:79-118 | deactivates the named provider and shortens the table only from its end |
| `ProviderTable.Registry.FindProvider` | wmi/wmi_provider.c:120-145 | finds the active provider of a GUID if there is one |
| `ProviderTable.Registry.IsActive` | wmi/wmi_provider.c:196-211 | the handle check accepts exactly the handles of active providers |
| `DriverRuns.RunSafe` | kern/driver_core.c:59-177 | over any run adding devices under registered drivers, names stay unique, counts are at least the devices in use and equal to them under a remove callback |
| `DriverRuns.AddThenRemove` | kern/driver_core.c:115-177 | adding a device and removing it restores both registries and all counts if and only if it has no driver or one with a remove callback |
| `DriverRuns.UsedDriverStays` | kern/driver_core.c:87-113 | a driver a registered device uses cannot be unregistered |
| `DriverRuns.UnregisterExactly` | kern/driver_core.c:87-113 | a driver with a remove callback can be unregistered if and only if no device uses it |
| `DriverRuns.WithoutCallbackPinned` | kern/driver_core.c:158-162 | a driver without a remove callback that once had a device is never unregistered again |
| `DriverCore.ShiftOut` | kern/driver_core.c:100-103 | the shifting loop drops one entry and keeps the order of the rest |
| `DriverCore.Core.RegisterDriver` | kern/driver_core.c:59-85 | appends a driver of a new name with count 0, or says why not |
| `DriverCore.Core.UnregisterDriver` | kern/driver_core.c:87-113 | shifts an unused driver out |
| `DriverCore.Core.AddDevice` | kern/driver_core.c:115-146 | appends a device of a new name and counts one reference on its driver |
| `DriverCore.Core.RemoveDevice` | kern/driver_core.c:148-177 | shifts the device out and gives its reference back only under a remove callback |
| `CapabilityTable.RunCovered` | l4/l4.c:57-96 | over any run every capability is covered by a root insert: same type and object, no right the root lacked |
| `CapabilityTable.EveryBitHasRoot` | l4/l4.c:57-96 | mask by mask: a bit of any capability of a run is a bit of the root insert behind it |
| `CapabilityTable.LookupBits` | l4/l4.c:71-77 | a look-up that succeeds finds every bit it asks for; one refused for rights asks for a bit that is missing |
| `CapabilityTable.DeriveBits` | l4/l4.c:89-96 | deriving succeeds only for bits of the source, and is denied only for a bit it has not |
| `CapabilityTable.LookupHasRoot` | l4/l4.c:71-77 | what a look-up returns was inserted with all the rights asked for |
| `CapabilityTable.DerivedStays` | l4/l4.c:57-96 | a derived capability is good for exactly the rights it was derived with, over any run that does not revoke it, its source revoked or not |
| `CapabilityTable.MovedByRun` | l4/l4.c:71-96 | deriving with all rights and revoking the source moves a capability to its new place |
| `CapabilityTable.TypeZeroIsLost` | l4/l4.c:57-69 | inserts of type 0 report a place, but no look-up after any run can tell that they happened |
| `CapabilityTable.TypeZeroInserts` | l4/l4.c:57-69 | leaving out the inserts of type 0 from a run changes no look-up after it |
| `CapabilityTable.CapTable.InsertCap` | l4/l4.c:57-69 | fills the first free entry |
| `CapabilityTable.CapTable.LookupCap` | l4/l4.c:71-77 | the object of a live capability with all required rights, else null |
| `CapabilityTable.CapTable.RevokeCap` | l4/l4.c:80-86 | clears one live entry |
| `CapabilityTable.CapTable.DeriveCap` | l4/l4.c:89-96 | inserts a copy with a subset of the rights, or says why not |
| `ParentChain.CheckCircularReferences` | config/hive/hivechek.c:210-245 | true if and only if one of the first 256 cells is met again before the depth runs out |
| `ParentChain.CaughtIsCycle` | config/hive/hivechek.c:210-245 | what is reported is a cycle: the parents never come to an end |
| `ParentChain.EveryCycleEnters` | config/hive/hivechek.c:210-245 | parents that never end run into a cycle after some first cells |
| `ParentChain.CycleReportedExactly` | config/hive/hivechek.c:210-245 | that cycle is reported if and only if it is entered before step 256 and closed before the depth runs out |
| `ParentChain.DecidesExactly` | config/hive/hivechek.c:210-245 | the check is right on every hive of up to n key cells if and only if n is 0, or at most 256 and below the depth |

## Left out

- HiveObject.Hive.constructor: the header fields HiveCreate fills in (config/hive/hiveinit.c:133-149) and its root key are not modelled, the header bytes stay zero; the allocator's result is taken as a buffer. HiveCreate also accepts 3728 to 3735 bytes, where the first cell header is written past the buffer, and sizes from 2^31, whose free cell reads as allocated; these are not modelled.
- HiveObject.Hive.FreeBlock: an offset inside a cell is modelled where the eight bytes there lie past the cell's size field and before its end and what they lead to can be read; an offset across a size field is not.
- HiveObject.Hive.Compact: not stated where the loop never ends or leaves the buffer, since there is no final state; ReachedCompaction says which cell maps rule that out.
- HiveObject.Hive.GetData: the header read must lie in the buffer and not hold the least INT32, whose negation is undefined.
- HiveObject.Hive.WriteData: as for GetData, and the bytes written must lie in the buffer.
- HiveObject.Hive.ReadData: as for GetData, and the bytes read must lie in the buffer.
- HiveObject.Hive.ValidateCell: as for GetData.
- HiveObject.Hive.MarkSpaceAsFree: ranges that start at a cell but are not its extent, or across a size field, are not modelled; there the code breaks the tiling.
- HiveObject.Hive.CoalesceFreeSpace: as for FreeBlock. The neighbour merges of HiveBinFreeBlock and HiveCoalesceFreeSpace are the same statements twice and are written once, as MergeNeighbours.
- HiveObject.Hive.ResizeCell: stated for requests clear of the slack case, like all results on runs; what a slack allocation does to the map is in HiveSlack.
- HiveObject.Hive.DeleteCell: the data offset a value record holds is taken to name a cell or an offset the code refuses, and not the record itself.
- HiveObject.Hive.FragmentationLevel: the intermediate products by one hundred wrap on large hives as in the code; no claim is made of what the wrapped score means.
- Checksum.XorChecksumOf: a null data pointer, answered by 0 in the code, is not modelled apart from empty data.
- SchedulerObject.Scheduler.constructor: failure to allocate the idle thread, which leaves the scheduler disabled, is not modelled; the counters of switches and ticks are left out.
- SchedulerObject.Scheduler.AddThreadToReadyQueue: priorities outside the five of the enumeration are excluded by type, and a thread is added only while not queued.
- PageAllocator.PhysicalManager.Initialize: called once, on descriptors inside the 64-bit address space; how much of the kernel heap is already used is an input.
- PeRelocation.ApplyRelocations: walks that leave the image, which the code does not check for, are not modelled.
- EventQueue.Queue.GetNextEvent: how the wait ended and whether pool memory was available are inputs; time stamps, process and thread numbers of an event are not modelled.
- DriverCore.Core.RemoveDevice: the driver's remove callback is foreign code taken not to touch the registries, and a device's driver does not change while it is registered.
- DriverRuns.RunSafe: up to 2^32 operations, after which a 32-bit count could have come round.
- Locks and interrupt levels: no-ops in the runtime, so every operation is one step.
- Key cells, hive loading and saving, synchronization, mapping, hints and transactions under config/hive: stubs, simulated waits or file plumbing.
- Rewriting of stored offsets after compaction: the code does not do it, so only cell order and bytes are claimed.
- The section copy and import clearing of NtPeLoadImage, and header validation: bounds checks without an invariant behind them.
- The virtual memory, heap and pool parts of mem/mem.c: stubs or bump allocation.
- Process and thread tables of kern/kern.c, which reuse the ready-queue links for another list.
- L4 message transfer: receiving is a stub, so there is nothing to relate it to.
- Buses, device tree, power and interrupt tables of kern/driver_core.c: the same registry shapes again.
- HiveBinGetStatistics and HiveGetStatistics: further counting loops over the same walk.
