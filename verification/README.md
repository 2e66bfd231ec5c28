# Boot-to-SMP kernel: memory managers, boot walks and multiprocessor protocols

This project models the memory management and the multiprocessor test program of a small x86-64 kernel, and proves what
they promise. The main source is the C kernel `c/kernel/minimal_step9.c` with its boot code `c/boot/boot_minimal.S`; the
Zig kernel's variants of the page allocator, the barrier and the two table walks, and the spinlock of the older modular
kernel, are modelled beside it. `dafny verify dfyconfig.toml` checks everything.

## What is modelled

**Page allocator** (`Bits`, `PageBitmap`, `Pmm`, `PmmProofs`, `ZigPmm`). `Pmm.PhysicalMemory` is a class over the byte
array the C code keeps, with the same byte and bit loops. Its abstract state is the sequence of page bits; `Valid()` ties
`used_pages` to the population count. Every method is proved against a function of the old bits, and the theorems are
about those functions: the byte-wise region loop against a page-by-page loop (with the exact condition under which the
two agree), which pages are free after boot for any memory map, the counter over any run, and ownership, exhaustion and
conservation over any history of allocations and releases.

**Page tables** (`Paging`, `PagingProofs`, `Vmm`, `VmmProofs`, `VmmMachine`, `MapSuccess`, `StoreEffects`, `LargePages`,
`EntryBits`, `Boot`, `Kernel`). Physical memory is a sequence of 512-word frames. `Paging.Walk` is the hardware's
four-level walk (section 4.5.4 of the Intel 64 manual, volume 3A), large pages included. The class
`VmmMachine.VirtualMemory` runs `vmm_map_page` and `vmm_unmap_page` as the source does: each access to a table, each word
of the clearing loop included, is a load or store at a window address that the walk itself resolves through `PML4[511]`.
These methods are proved equal to the direct specification `Vmm.Map` and `Vmm.Unmap`, and the theorems say what those do
to the translation of *every* address. A state is a *tree* when, the self link aside, no table is reached by two paths,
every table is in memory and none is free in the bitmap; this is kept by every run of mapping, unmapping, allocating,
freeing and writing to pages. `MapSuccess` says exactly when a mapping succeeds, `StoreEffects` exactly which stores
change a translation and how, for tables of every level, and `EntryBits` what the hardware and the kernel mean by each bit
of an entry. `Boot` builds the boot tables and shows that they start in such a state; `Kernel` composes boot tables,
memory map, allocator and self link in the order of `kernel_main`.

**Multiprocessor protocols** (`Barrier`, `Sums`, `TestProgram` and its three proof modules, `Spinlock`). CPUs are
deterministic step machines, one access to shared memory per step; a run is a *schedule*, the sequence of CPUs that step.
Theorems quantify over every schedule and every number of CPUs: barrier safety, unique ids, the complete sum, counter
ownership, absence of deadlock, a bound within which every fair run finishes, and mutual exclusion without lost updates.

**Table walks and console** (`Multiboot`, `Madt`, `Vga`). The walks run over bytes that encode an arbitrary list of tags
or entries (sections 3.6.2 and 3.6.8 of the Multiboot2 specification, section 5.2.12 of the ACPI specification) and return
what the list says. The VGA buffer is proved to be the last 25 rows of an unbounded screen.

Conventions. Integers are unbounded; 64-bit wrap-around is written out where an input can cause it (`Pmm.Add64`). The
window macros are read as the 64-bit arithmetic they are meant to be: as written, `511 << 39` shifts an `int`. Memory is
sequentially consistent.

## What the proofs found

- Freeing a region byte by byte over-frees when both ends fall in the same byte and the start is past that byte's
  first page: the last loop starts again at the byte's first page (`PmmProofs.ByteWiseIsPageWiseIff`,
  `UnsafeRegionClears`; a kilobyte at 0x9000 frees page 8, `SmallRegionFreesItsNeighbour`).
- Address 0 is returned both for page 0 and for "no page left" (`PmmProofs.ZeroIsAmbiguous`); a caller who takes it for the
  latter gets one page less than are free if page 0 is one of them (`PmmProofs.AcceptedAnswers`). A mapping succeeds if and
  only if its page table is there, or page 0 is in use and there is a page for each missing table
  (`MapSuccess.MapSucceedsIff`). While page 0 is free, every mapping that needs a table gives up, whichever table it is,
  and its one effect is that page 0 stays marked used (`MapSuccess.MappingLosesPageZero`); so the first mapping after boot
  fails on every memory map that frees page 0 (`MapSuccess.FirstMapping`).
- `vmm_virt_to_phys`, `vmm_map_page` and `vmm_unmap_page` do not look at the large-page bit. In a 2 MB page they use a word
  of the page's first frame as an entry. Translating is wrong in the boot identity mapping
  (`Boot.VirtToPhysMissesIdentityMap`; when the answer is right is stated exactly in `VmmProofs.VirtToPhysInLargePage`).
  Mapping or unmapping there leaves every translation as it was if and only if that frame is no page table, or the word it
  overwrites led to the same pages (`LargePages.LargePageStoreIsHarmlessIff`). Otherwise it changes the translation of other
  addresses, never of the one asked for when the frame is a last-level table (`LargePages.LargePageStoreRemaps`), and the
  case is reached: with pages 511 and 512 free after boot, allocating, mapping 0x40000000 and then mapping 0x200000 remaps
  0x40000000 (`LargePages.IdentityMapOverwritesPageTable`).
- The flags are OR-ed into the entry unmasked, so a mapping reaches its frame exactly if the flags are present and bring no
  foreign frame bits (`VmmProofs.MapReachesFrameIff`).
- There is no barrier after the last counting phase: the BSP can be done while another CPU's counter stands at half
  (`TestProgramProgress.DisplayMayShowHalf`). When the display, read one counter after the other, is right is stated
  exactly (`TestProgramTheorems.DisplayIsOkIff`).

## Model

| member | source | states |
|---|---|---|
| Pmm.PhysicalMemory.constructor | c/kernel/minimal_step9.c:1428-1468 | memory is capped at 64 MB, the bitmap starts on the first page boundary past kernel and boot information, every bit (padding included) is set and the counter is exact |
| Pmm.PhysicalMemory.IsPageUsed | c/kernel/minimal_step9.c:1422-1426 | the byte-and-mask test is the abstract page bit |
| PageBitmap.PageIsDigit | c/kernel/minimal_step9.c:1422-1426 | page p is binary digit p % 8 of byte p / 8 |
| Pmm.PhysicalMemory.MarkPage | c/kernel/minimal_step9.c:1410-1414 | sets that page's bit and no other |
| Pmm.PhysicalMemory.ClearPage | c/kernel/minimal_step9.c:1416-1420 | clears that page's bit and no other |
| Pmm.PhysicalMemory.MarkRegionFree | c/kernel/minimal_step9.c:1470-1508 | the three loops together clear exactly the set `Cleared` of start page and end page, and the counter keeps up, through whole bytes as well |
| Pmm.PhysicalMemory.FreeBytes | c/kernel/minimal_step9.c:1489-1497 | the whole-byte loop clears the bits of exactly the existing bytes of its range and takes from the counter as many as were set |
| Pmm.PhysicalMemory.MarkRegionUsed | c/kernel/minimal_step9.c:1510-1520 | sets exactly the existing pages a region touches, end rounded up |
| Pmm.PhysicalMemory.MarkFreeRegions | c/kernel/minimal_step9.c:1522-1577 | available entries that start in memory are freed in order, capped, then kernel and bitmap are taken back |
| Pmm.PhysicalMemory.AllocPage | c/kernel/minimal_step9.c:1579-1588 | returns and takes the lowest free page, changes nothing when there is none |
| Pmm.PhysicalMemory.FreePage | c/kernel/minimal_step9.c:1590-1596 | clears the bit of the page of the address if the page exists, and nothing else |
| Pmm.ByteLoopsClear | c/kernel/minimal_step9.c:1470-1508 | head, whole bytes and tail composed clear `Cleared`, whichever of them are empty or overlap |
| PmmProofs.ByteWiseIsPageWiseIff | c/kernel/minimal_step9.c:1470-1508 | the byte-wise form frees the pages of the page-by-page form if and only if end is byte aligned, start is at or before the end's byte, or that byte is past memory |
| PmmProofs.UnsafeRegionClears | c/kernel/minimal_step9.c:1499-1508 | in every other case the freed set is exactly [8*(end/8), end) |
| PmmProofs.SmallRegionFreesItsNeighbour | c/kernel/minimal_step9.c:1499-1508 | a concrete region that covers no page frees page 8 |
| PmmProofs.FreeRegionRefinesPageLoop | c/kernel/minimal_step9.c:1470-1508 | on bitmaps: refinement of the page loop on safe regions, and a visible difference on unsafe ones whose byte's first page was in use |
| PmmProofs.FreeEntriesPage | c/kernel/minimal_step9.c:1533-1550 | after all entries a bit is set exactly if it was and no entry's region clears it |
| PmmProofs.CappedRegionEndsInMemory | c/kernel/minimal_step9.c:1542-1548 | capping keeps every region inside memory for any entry, 64-bit wrap of its end included |
| PmmProofs.BootFreePages | c/kernel/minimal_step9.c:1522-1577 | for any memory map a page is free after boot exactly if some entry clears it and it has no byte in common with [kernel start, bitmap end) |
| PmmProofs.ReservedPages | c/kernel/minimal_step9.c:1510-1520 | floor and ceiling take exactly the pages that overlap the byte range |
| PmmProofs.SafeMapFreesCoveredPages | c/kernel/minimal_step9.c:1522-1577 | when every used entry is byte safe, a page is free exactly if an available entry covers it and it is clear of kernel and bitmap |
| PmmProofs.CoversInBytes | c/kernel/minimal_step9.c:1537-1548 | a page is covered exactly by an entry of kind 1 that starts in memory, before the page ends, and whose end modulo 2^64, cut at the end of memory, is at or past the page's |
| PmmProofs.CounterCountsUsedPagesIff | c/kernel/minimal_step9.c:1462-1463 | the maintained counter is the number of used pages if and only if all padding bits are set; it then lies between 0 and the number of pages |
| PmmProofs.CounterExactOverRuns | c/kernel/minimal_step9.c:1470-1596 | over every run of entry frees, reservations, allocations and releases from start-up the counter is exact, also when the page count is no multiple of 8 |
| PmmProofs.ServeKeepsPadding | c/kernel/minimal_step9.c:1542-1548 | each request keeps the padding bits set, which for region freeing needs the cap |
| PmmProofs.AllocationIsLowestFreePage | c/kernel/minimal_step9.c:1579-1596 | the address is the lowest free page's, only its bit changes, and freeing the address undoes the call |
| PmmProofs.ZeroIsAmbiguous | c/kernel/minimal_step9.c:1579-1588 | 0 is returned exactly if page 0 is free or no page is |
| PmmProofs.ReleaseByAddress | c/kernel/minimal_step9.c:1590-1596 | releasing any address within a page frees that page and no other |
| PmmProofs.OwnershipOverRuns | c/kernel/minimal_step9.c:1579-1596 | over every history the used pages are those used at the start and those held, disjointly, and their number is conserved |
| PmmProofs.AllocationsAreExclusive | c/kernel/minimal_step9.c:1579-1596 | after any history the page an allocation takes is held by nobody and was free at the start |
| PmmProofs.ExhaustionCount | c/kernel/minimal_step9.c:1579-1588 | when no page is left the client holds as many as were free at the start |
| PmmProofs.AcceptedAnswers | c/kernel/minimal_step9.c:1579-1588 | k calls in a row take k pages or all there are, and the answers other than 0 among them are as many, less one exactly if page 0 was free |
| PmmProofs.EveryFreePageComesUp | c/kernel/minimal_step9.c:1579-1588 | any free page becomes the lowest one after some number of calls, with the pages above it untouched |
| PmmProofs.ReturningEverythingRestores | c/kernel/minimal_step9.c:1590-1596 | when everything has been returned the bitmap is the initial one |
| ZigPmm.PhysicalMemory.constructor | zig/src/pmm.zig:13-62 | bits are all used, less the pages of available entries, plus the first 0x150; the free counter is exact |
| ZigPmm.PhysicalMemory.MarkFree | zig/src/pmm.zig:64-72 | clears the page's bit if it exists and keeps the free counter exact |
| ZigPmm.PhysicalMemory.MarkUsed | zig/src/pmm.zig:74-82 | sets the page's bit if it exists and keeps the free counter exact |
| ZigPmm.PhysicalMemory.IsFree | zig/src/pmm.zig:84-89 | true exactly for existing pages whose bit is clear |
| ZigPmm.PhysicalMemory.AllocPage | zig/src/pmm.zig:91-100 | takes the lowest free page as the C allocator does, with a result that tells page 0 from none left |
| ZigPmm.PhysicalMemory.FreePage | zig/src/pmm.zig:102-105 | frees the page of the address if it exists |
| ZigPmm.ZigFreePages | zig/src/pmm.zig:31-53 | after init a page is free exactly if an available entry covers it and it is past the kernel's pages |
| ZigPmm.ZigFreeInBytes | zig/src/pmm.zig:31-53 | in numbers: of 16384 pages those from 0x150 on are free that lie whole between start and end of an entry of kind 1 |
| ZigPmm.KernelsFreeTheSamePages | zig/src/pmm.zig:31-45 | on byte-safe maps the C kernel at 64 MB and the Zig kernel free the same pages |
| PagingProofs.WindowSum | c/kernel/minimal_step9.c:39-46 | the OR of base and index fields is their sum, for any four indices |
| PagingProofs.WindowDecode | c/kernel/minimal_step9.c:39-46 | the hardware splits a window address back into those four indices, with the word's offset |
| PagingProofs.WindowAddress | c/kernel/minimal_step9.c:43-46 | each of the four macros decodes to its path of indices padded in front with the self link |
| PagingProofs.WindowReachesTable | c/kernel/minimal_step9.c:43-46 | with the self link in place, word d of a window translates to entry d of exactly the table its path leads to |
| PagingProofs.WindowReachesLastEntry | c/kernel/minimal_step9.c:43-46 | a window reaches the frame its last entry names even if that entry is large, and faults if it is not present |
| PagingProofs.WindowAccess | c/kernel/minimal_step9.c:1645-1656 | loads and stores through a window are loads and stores of that table's entries |
| PagingProofs.WalkByTables | c/kernel/minimal_step9.c:1638-1660 | the hardware walk in terms of the entries of the tables on the path, and what "no large entry" means there |
| EntryBits.EntryFields | c/kernel/minimal_step9.c:1658-1658 | present is bit 0, large bit 7, and the frame bits 12 to 51 of an entry |
| EntryBits.PagesAreContiguous | c/kernel/minimal_step9.c:1638-1660 | the hardware walk in bytes: the entry's base, aligned to the page's 4 KB, 2 MB or 1 GB, plus the low bits of the address |
| VmmProofs.VirtToPhysIsTheWalk | c/kernel/minimal_step9.c:1638-1660 | with no large entry on the way it never faults and returns the hardware's translation, 0 for unmapped |
| VmmProofs.VirtToPhysInLargePage | c/kernel/minimal_step9.c:1638-1660 | in a 2 MB page: what the hardware gives, what the function gives, and exactly when the two agree |
| VmmProofs.TableLinkNames | c/kernel/minimal_step9.c:1673-1673 | address OR present, write, user is a non-large entry naming the frame |
| EntryBits.TableLinkBits | c/kernel/minimal_step9.c:1673-1673 | bit for bit: present, write, user and the frame, nothing else |
| VmmProofs.LeafEntryNames | c/kernel/minimal_step9.c:1706-1706 | presence and frame of the leaf: present exactly if the flags say so, with the OR of the frame and the flags' frame bits |
| EntryBits.LeafEntryBits | c/kernel/minimal_step9.c:1706-1706 | bit for bit: below 12 and from 52 on the word has the flags' bits, in between those of address or flags |
| VmmProofs.LinkAddsOneTable | c/kernel/minimal_step9.c:1670-1678 | linking a fresh cleared frame adds exactly one table to the tree, at exactly that path |
| VmmProofs.EnsureKeepsTree | c/kernel/minimal_step9.c:1668-1702 | creating a table, or failing to, keeps the tree, and no page becomes free |
| VmmProofs.EnsureKeepsTranslation | c/kernel/minimal_step9.c:1668-1702 | creating a table at any level changes no address's translation |
| VmmProofs.PathIsMade | c/kernel/minimal_step9.c:1668-1702 | the three blocks either give the page table, or fail, with tree and all translations kept |
| VmmProofs.LeafTranslates | c/kernel/minimal_step9.c:1704-1706 | writing a leaf changes the translation of exactly the addresses of its page |
| VmmProofs.MapTranslates | c/kernel/minimal_step9.c:1662-1710 | after success the page translates to the requested frame and every other address as before, whichever tables were made; after failure at any level every address as before |
| VmmProofs.MapReachesFrameIff | c/kernel/minimal_step9.c:1704-1706 | a successful mapping reaches the requested frame if and only if the flags are present and add no frame bits |
| EntryBits.MapWritesEntry | c/kernel/minimal_step9.c:1704-1706 | after a successful mapping the page's word has the caller's flags bit for bit, write and cache bits included, and the address's bits in 12 to 51 |
| EntryBits.MapKeepsWord | c/kernel/minimal_step9.c:1662-1710 | every other present word, in a table of whatever level, is kept as it was, attributes included |
| VmmProofs.UnmapTranslates | c/kernel/minimal_step9.c:1712-1732 | the page faults afterwards, every other address translates as before |
| EntryBits.UnmapWritesEntry | c/kernel/minimal_step9.c:1727-1728 | the page's word becomes 0, every other word of every table stays |
| VmmProofs.UnmapUndoesMap | c/kernel/minimal_step9.c:1662-1732 | mapping an unmapped page, successfully or not, and unmapping it restores the translation of every address |
| VmmProofs.RunKeepsTree | c/kernel/minimal_step9.c:1579-1732 | over every run of map, unmap, alloc, free and word writes (table frames neither freed nor written directly) the tree is kept and each address translates as the last operation on its page says |
| VmmProofs.TablesAreNeverReused | c/kernel/minimal_step9.c:1579-1732 | after every such run no frame is two tables, every table is marked used, and no allocation returns one |
| VmmProofs.DataStoreKeepsTranslation | c/kernel/minimal_step9.c:1704-1706 | a store to a frame that is no table changes no translation |
| VmmMachine.VirtualMemory.Init | c/kernel/minimal_step9.c:1600-1625 | the store through the identity mapping leaves memory with the PML4 linked to itself and nothing else changed |
| EntryBits.SelfLinkBits | c/kernel/minimal_step9.c:1619-1619 | word 511 of the PML4 is its own frame, present and writable and nothing else |
| VmmMachine.VirtualMemory.ClearTable | c/kernel/minimal_step9.c:1675-1677 | the clearing loop, word by word through the window of the table being cleared, clears exactly that table |
| VmmMachine.VirtualMemory.Ensure | c/kernel/minimal_step9.c:1668-1702 | one block run through the MMU never faults and is the specification's step, bitmap and memory alike |
| VmmMachine.VirtualMemory.EnsureTables | c/kernel/minimal_step9.c:1668-1702 | the three blocks in sequence are the specification's path |
| VmmMachine.VirtualMemory.MapPage | c/kernel/minimal_step9.c:1662-1710 | run through the windows it never faults and equals the specification; in a 2 MB page it only overwrites one data word |
| VmmMachine.VirtualMemory.UnmapPage | c/kernel/minimal_step9.c:1712-1732 | run through the windows it never faults and equals the specification; in a 2 MB page it only clears one data word |
| VmmMachine.WipingKeepsWindow | c/kernel/minimal_step9.c:1673-1677 | a freshly linked table's window reaches it throughout the clearing, whatever the frame still holds |
| MapSuccess.EnsureCost | c/kernel/minimal_step9.c:1668-1678 | one block succeeds exactly if its table is there or can be afforded, and takes one page exactly if it makes it |
| MapSuccess.MapSucceedsIff | c/kernel/minimal_step9.c:1662-1710 | a mapping succeeds if and only if no table is missing, or page 0 is in use and as many pages are free as tables are missing |
| MapSuccess.MappingLosesPageZero | c/kernel/minimal_step9.c:1668-1702 | while page 0 is free a mapping whose table is missing at any level fails, and its only effect is that page 0 is marked used |
| MapSuccess.SecondTrySucceedsIff | c/kernel/minimal_step9.c:1662-1710 | the same call again succeeds exactly if a page was free for each missing table besides page 0 |
| MapSuccess.FirstMapping | c/kernel/minimal_step9.c:1849-1866 | on the boot tables, for any memory map and ordinary address: the first mapping succeeds exactly if page 0 does not start free and there are pages for its three, two or one missing tables |
| StoreEffects.StoreTranslates | c/kernel/minimal_step9.c:1704-1706 | a store to a table of any level sends exactly the addresses under that word where the new word leads, as an equality over every address |
| StoreEffects.StoreIsHarmlessIff | c/kernel/minimal_step9.c:1704-1706 | a store leaves every translation as it was if and only if its frame is no table or old and new word lead, index by index, to the same pages |
| StoreEffects.HarmlessInPageTableIff | c/kernel/minimal_step9.c:1704-1706 | in a last-level table that is: both words map the same frame, or neither maps one |
| StoreEffects.HarmlessZeroIff | c/kernel/minimal_step9.c:1727-1728 | clearing a word is harmless exactly if no address whose walk reads it was mapped |
| LargePages.LargePageStoreIsHarmlessIff | c/kernel/minimal_step9.c:1692-1706 | mapping or unmapping in a 2 MB page leaves every translation as it was if and only if its first frame is no table or old and new word lead to the same pages |
| LargePages.LargePageStoreRemaps | c/kernel/minimal_step9.c:1692-1706 | if that frame is the page table of another address, the call sets the translation of exactly that address and leaves the one asked for as it was |
| LargePages.MappingInLargePageIsLost | c/kernel/minimal_step9.c:1692-1706 | if that frame is no table, the call changes no translation, not even the one asked for |
| LargePages.IdentityMapOverwritesPageTable | c/kernel/minimal_step9.c:1692-1706 | from boot tables with pages 511 and 512 free, a run of allocations and one ordinary mapping make frame 512 a page table; mapping 0x200000 then remaps 0x40000000 and nothing else |
| Boot.BuildTables | c/boot/boot_minimal.S:59-100 | the stores leave the four tables as specified entry by entry and all other memory as it was |
| EntryBits.BootWords | c/boot/boot_minimal.S:65-100 | the four boot tables word by word in literal values |
| EntryBits.BootAttributes | c/boot/boot_minimal.S:79-100 | both kinds of large boot page are writable, and only the APIC's disables the cache |
| Boot.BootMapsIdentity | c/boot/boot_minimal.S:65-100 | the boot tables map the first gigabyte and the APIC's 2 MB to themselves and nothing else |
| Boot.BootTableAt | c/boot/boot_minimal.S:65-100 | the only tables reached are the four boot tables |
| Boot.SelfLinkOnBoot | c/kernel/minimal_step9.c:1610-1619 | the PML4 can be written through the identity mapping, and the result is self-linked with the boot tables kept |
| Boot.BootTree | c/boot/boot_minimal.S:59-100 | a self-linked boot image with its frames in use is a tree |
| Boot.KernelStarts | c/kernel/minimal_step9.c:1849-1866 | for any memory map the kernel starts in a tree state, and mapping is ordinary exactly outside the large boot pages and the self link's slot |
| Boot.VirtToPhysMissesIdentityMap | c/kernel/minimal_step9.c:1638-1660 | an address for which the function answers 0 while the hardware translates it |
| Kernel.TopOfMemory | c/kernel/minimal_step9.c:1338-1369 | the result is the maximum 64-bit end of available entries that start below 4 GB, 0 if there is none |
| Kernel.TopWithOneMore | c/kernel/minimal_step9.c:1357-1369 | a further entry leaves the top alone unless it is of kind 1 and starts below 0x100000000; then the top becomes the larger of the old one and the entry's end modulo 2^64 |
| Kernel.TopIsUnique | c/kernel/minimal_step9.c:1357-1369 | a memory map has one top |
| Kernel.StartPages | c/kernel/minimal_step9.c:1849-1863 | on the boot bytes: memory is the map's top capped at 64 MB, the bitmap is placed past kernel and boot information, and its bits are those of the map's entries (of none if the tag is past the first hundred) |
| Kernel.StartMemory | c/kernel/minimal_step9.c:1849-1866 | boot tables, boot bytes, allocator and self link compose: that memory size and bitmap, the self-linked boot tables with all other memory untouched, and a tree state |
| Barrier.StepKeepsInv | c/kernel/minimal_step9.c:1178-1194 | each of the five atomic steps of any CPU keeps the invariant on count, sense, generations and places |
| Barrier.BarrierSafety | zig/src/tests.zig:20-39 | nobody leaves a barrier before all have arrived at it, and no two CPUs are more than one barrier apart, for any number of CPUs, generations and interleaving |
| Barrier.BarrierVariables | zig/src/tests.zig:20-39 | a CPU enters with the sense equal to the parity of its generation; at every flip the count is 0; the count never exceeds the number of CPUs |
| Barrier.NotAllStuck | c/kernel/minimal_step9.c:1189-1193 | in every state of the invariant some CPU is not spinning in vain: no wake-up is lost |
| Sums.DistributedSum | zig/src/tests.zig:53-67 | the loop computes the sum of the CPU's own range, 0 for an empty one |
| Sums.RangesPartition | c/kernel/minimal_step9.c:1207-1216 | every number of 1..target is in the range of exactly one CPU, remainders and more CPUs than numbers included |
| Sums.SharesAreEven | c/kernel/minimal_step9.c:1208-1215 | the ranges follow one another from 1 to the target; all CPUs but the last handle equally many numbers, the last at least as many and fewer than n more |
| Sums.TotalIsGauss | c/kernel/minimal_step9.c:1207-1226 | the shares of all CPUs add up to target*(target+1)/2 |
| TestProgramProofs.StepKeepsInv | c/kernel/minimal_step9.c:1245-1315 | each step of the four-barrier program keeps the invariant on ids, counters, partial sums and total |
| TestProgramTheorems.IdsAreUnique | zig/src/smp.zig:188-190 | the ids drawn by fetch-and-add are distinct, below the number of CPUs, never the BSP's, and exactly 0..n-1 once all are drawn |
| TestProgramTheorems.SumIsComplete | c/kernel/minimal_step9.c:1207-1226 | any CPU past the second barrier finds total = target*(target+1)/2 and every partial sum in its place |
| TestProgramTheorems.TotalIsBounded | c/kernel/minimal_step9.c:1222-1225 | at no point does the running total exceed the final one |
| TestProgramTheorems.KernelSumIsExpected | c/kernel/minimal_step9.c:2070-2094 | for ten million the total never wraps in 64 bits and is 50000005000000 after the second barrier |
| TestProgramTheorems.CounterHasOneWriter | c/kernel/minimal_step9.c:1197-1204 | whoever changes counter k at any two points of a run is one and the same CPU, the one that drew id k |
| TestProgramTheorems.CountersAfterLastBarrier | c/kernel/minimal_step9.c:1229-1242 | once any CPU is past the fourth barrier every counter lies between half and full, and is full for each CPU that is done |
| TestProgramTheorems.CountersBetweenBarriers | c/kernel/minimal_step9.c:1299-1310 | between the first two barriers a CPU finds every counter full, between the last two every counter reset and at most half |
| TestProgramTheorems.KernelCounters | c/kernel/minimal_step9.c:1197-1242 | in numbers: 1000000 after the first test, at most 500000 before the last barrier, between the two after it, and 1000000 for each CPU that is done |
| TestProgramTheorems.DisplayIsOkIff | c/kernel/minimal_step9.c:2101-2117 | the BSP reads the counters one after the other while others go on: all reads are full if and only if each counter's CPU had made its last store by the time of its read |
| TestProgramProgress.StepLowersRank | c/kernel/minimal_step9.c:1178-1194 | every step with an effect lowers the stepping CPU's rank; only spinning and halting have none |
| TestProgramProgress.EffectiveStepsAreBounded | c/kernel/minimal_step9.c:1299-1315 | in any interleaving the number of effective steps is bounded by the work at the start |
| TestProgramProgress.SomebodyCanMove | c/kernel/minimal_step9.c:2021-2032 | while some CPU is unfinished some CPU has an effective step: no deadlock, no lost wake-up |
| TestProgramProgress.EveryRunCanFinish | c/kernel/minimal_step9.c:2021-2032 | every run can be continued until all CPUs are done |
| TestProgramProgress.FairRunsFinish | c/kernel/minimal_step9.c:2021-2032 | in every run in which each CPU gets more turns than there is work at the start, however they interleave, all CPUs are done |
| TestProgramProgress.DisplayMayShowHalf | c/kernel/minimal_step9.c:2101-2117 | with two CPUs or more some interleaving ends with the BSP done and a counter still at half |
| Spinlock.StepExclusive | archive/old-modular/sync.c:4-12 | each step keeps: the lock word is set exactly if one task is inside, and at most one is |
| Spinlock.MutualExclusion | archive/old-modular/sync.c:4-12 | in every interleaving no two tasks are between lock and unlock |
| Spinlock.NoUpdateIsLost | archive/old-modular/main.c:28-34 | read, add and write being separate steps, the shared result is the share times the stores made, and the done counter never runs ahead of them |
| Spinlock.ComputeLocal | archive/old-modular/main.c:21-26 | the loop computes 1 + ... + count in closed form |
| Spinlock.ExpectedResult | archive/old-modular/main.c:98-109 | once n tasks are counted done the shared result is n times 500000500000, without wrap |
| Spinlock.SomebodyAdvances | archive/old-modular/sync.c:4-8 | while some task is unfinished one of them has a step forward: the lock cannot deadlock |
| Spinlock.FairRunsFinish | archive/old-modular/sync.c:4-8 | from any point of any run of n tasks, once each has had 12 n + 2 turns, however they interleave, all have finished: spinning and retrying cannot go on for ever |
| Multiboot.Decode32Inverse | c/kernel/minimal_step9.c:1327-1334 | little-endian words read back what was written |
| Multiboot.Encode64Bytes | c/kernel/minimal_step9.c:1342-1346 | words are stored least significant byte first |
| Multiboot.TagLayout | c/kernel/minimal_step9.c:1331-1334 | a tag in bytes: type at 0, size at 4 without padding, payload at 8, zeros up to a multiple of 8 |
| Multiboot.BoundariesAreAligned | c/kernel/minimal_step9.c:1401-1403 | every tag boundary is a multiple of 8 |
| Multiboot.MmapTagLayout | c/kernel/minimal_step9.c:1334-1346 | the memory map tag begins with type 6 and has the entry size at 8 |
| Multiboot.MmapEntryLayout | c/kernel/minimal_step9.c:1342-1346 | entry i lies at 16 + i times the entry size |
| Multiboot.EntryLayout | c/kernel/minimal_step9.c:1342-1346 | an entry has its address at 0, its length at 8 and its type at 16 |
| Multiboot.StandsDecides | c/kernel/minimal_step9.c:1401-1403 | at every tag boundary the header tells the end, the tag's kind and the place of the next tag, padding included |
| Multiboot.FindMmap | c/kernel/minimal_step9.c:1327-1406 | on the bytes of any tag list it ends and finds the first memory map tag, at a multiple of 8 and with the bytes 6, 0, 0, 0, and nothing exactly if there is none |
| Multiboot.FindMmapEarly | c/kernel/minimal_step9.c:1525-1556 | finds the same tag exactly if it is among the first hundred |
| Multiboot.TagIterator.Next | zig/src/multiboot.zig:82-98 | yields the tags of the list one after the other, of whatever kind, and nothing at the end tag |
| Multiboot.FindMmapZig | zig/src/multiboot.zig:102-110 | finds the tag the C walk finds |
| Multiboot.FindAcpiZig | zig/src/multiboot.zig:113-121 | finds the first tag of either ACPI kind, before or after the memory map, nothing exactly if there is none |
| Multiboot.ReadEntries | c/kernel/minimal_step9.c:1342-1346 | the strided loop reads back exactly the entries the tag encodes, in order, for any entry size from 24 |
| Madt.ParseMadt | c/kernel/minimal_step9.c:883-913 | returns the number of enabled local APIC entries, however many, and stores the ids of the first 16 in order |
| Madt.DetectCpus | zig/src/acpi.zig:70-98 | stores the same ids and returns how many it stored |
| Madt.IdsAppend | c/kernel/minimal_step9.c:889-910 | a further entry appends its id exactly if it is an enabled local APIC |
| Madt.LocalApicLayout | c/kernel/minimal_step9.c:889-907 | a local APIC entry in bytes, and that its id is the byte at 3 and counts exactly if bit 0 of the byte at 4 is set |
| Madt.OtherTypesDoNotCount | c/kernel/minimal_step9.c:893-893 | an entry of another type than 0 does not count |
| Madt.TableLayout | c/kernel/minimal_step9.c:884-887 | entries start at byte 44 and at most the first 16 ids are kept |
| Vga.Console.constructor | c/kernel/vga.h:49-62 | the 2000 cells hold 0x0720, the colour is 7, and the buffer shows the cleared screen with the cursor at its start |
| Vga.Console.Scroll | c/kernel/vga.h:68-82 | in place, every row moves up by one, the last is blank in the current colour |
| Vga.Console.PutChar | c/kernel/vga.h:89-111 | the buffer stays the last 25 rows of the unbounded screen fed with the character |
| Vga.Console.Write | c/kernel/vga.h:113-117 | the same for any text |
| Vga.HistoryIsKept | c/kernel/vga.h:68-111 | no character changes a row above the cursor's, and the unbounded screen only grows |
| Vga.PlainTextIsLinear | c/kernel/vga.h:103-110 | text without newlines lies on the unbounded screen cell by cell, wrapped without a gap, whatever its length |
| Vga.LinesAreRows | c/kernel/vga.h:89-111 | lines shorter than 80, however many, joined by character 10: line i stands at the start of row i with blanks after it, and the cursor is at the end of the last |
| Vga.ReturnOverwrites | c/kernel/vga.h:98-111 | character 13 keeps every cell and the row; the text after it overwrites the row from its start and nothing else |
| Vga.NewlineStartsRow | c/kernel/vga.h:90-96 | character 10 keeps every cell, goes to the start of the next row, and a row that is added is blank in the current colour |
| Vga.CellBytes | c/kernel/vga.h:40-42 | the character is the low byte of a cell, the colour the high byte |

## Left out

- VmmMachine.VirtualMemory.MapPage: nothing is said of addresses in PML4 slot 511 (the windows themselves) or in 1 GB pages, neither of which the kernel maps; the same holds for `UnmapPage` and for every theorem on translations.
- LargePages.LargePageStoreIsHarmlessIff: a store that replaces the self link itself, in a frame that is the PML4, changes no translation outside slot 511 and counts as harmless here, though the windows are gone afterwards.
- VmmProofs.VirtToPhysInLargePage: covers 2 MB pages, not 1 GB pages, which neither the boot code nor the manager makes.
- VmmMachine.VirtualMemory.Init: the TLB flush is taken to make the store visible; so is `invlpg` in mapping and unmapping.
- Boot.BootMapsIdentity: translation only, without access rights, no-execute, cache attributes, accessed and dirty bits or the canonical-address test; reads past the end of memory give 0 and stores there are lost.
- Pmm.PhysicalMemory.constructor: the bitmap is an array of its own, not part of the memory the page tables lie in; `PmmProofs.BootFreePages` shows its pages are never free.
- ZigPmm.PhysicalMemory.constructor: an entry whose end passes 2^64, a checked overflow in Zig, is excluded; entries come as a list (the Zig code reads them 24 bytes apart whatever the tag's entry size says), and the missing-map error is not modelled.
- Multiboot.FindMmap: tags are well formed; a tag of size 0, on which the C loop does not end, is not.
- Madt.ParseMadt: entries have length 2 or more, and local APIC entries 8; a length of 0 does not end in the source.
- TestProgramTheorems.SumIsComplete: exactly `cpu_count` CPUs take part and the per-CPU arrays hold that many (the source's hold 16, while the C table walk can report more); computing the local sum is one step because it touches no shared memory.
- Spinlock.ExpectedResult: the n tasks run directly; `on_each_cpu`, which is to start them, is not modelled. The number of CPUs is at most 65535, far above what the source detects.
- Spinlock.FairRunsFinish: bounds when all tasks have finished, not the order in which they get the lock, which a test-and-set lock leaves open.
- The heap of 16 MB that follows the bitmap is not marked used by the kernel, so no claim is made that heap and allocated pages are disjoint; `kmalloc` itself is a bump pointer.
- Starting the APs (INIT and startup interrupts, delays, trampoline and its stack) depends on timing; the machine starts when ids are drawn.
- The hybrid kernel repeats the C allocator, manager and barrier, but its BSP never joins the barrier, so whole-run claims do not carry over.
- Finding the ACPI tables (signatures, checksums, XSDT), serial and port I/O, APIC registers, timers, interrupts, number printing.
- The Zig heap allocator and its manager stub, and the archived earlier steps, which are copies.
