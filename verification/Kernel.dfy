/** The kernel's memory start-up, from the boot tables and the Multiboot2 bytes to a mapped, self-linked machine. */
module Kernel {
  import opened Bits
  import opened Options
  import opened PageBitmap
  import opened Pmm
  import opened Paging
  import PmmProofs
  import opened Multiboot
  import opened Vmm
  import opened VmmMachine
  import opened Boot

  const FOUR_GIGABYTES: nat := 0x1_0000_0000

  /** The entry raises the top of memory: it is available, starts below 4 GB and ends (in 64 bits) above what was seen. */
  predicate Counts(e: MmapEntry) {
    e.kind == AVAILABLE && e.addr < FOUR_GIGABYTES
  }

  /** The highest 64-bit end of the entries that count, 0 if there are none. */
  ghost predicate IsTop(entries: seq<MmapEntry>, top: nat) {
    && (forall k :: 0 <= k < |entries| && Counts(entries[k]) ==> Add64(entries[k].addr, entries[k].len) <= top)
    && (top == 0 || exists k :: 0 <= k < |entries| && Counts(entries[k]) && Add64(entries[k].addr, entries[k].len) == top)
  }

  /** total_memory as parse_multiboot_mmap computes it: the highest end of an available entry that starts below 4 GB. */
  method TopOfMemory(entries: seq<MmapEntry>) returns (top: nat)
    ensures IsTop(entries, top)
  {
    top := 0;
    var i := 0;
    while i < |entries|
      invariant 0 <= i <= |entries|
      invariant forall k :: 0 <= k < i && Counts(entries[k]) ==> Add64(entries[k].addr, entries[k].len) <= top
      invariant top == 0 || exists k :: 0 <= k < i && Counts(entries[k]) && Add64(entries[k].addr, entries[k].len) == top
    {
      if Counts(entries[i]) {
        var end := Add64(entries[i].addr, entries[i].len);
        if end > top {
          top := end;
        }
      }
      i := i + 1;
    }
  }

  /** The first page boundary at or past both ends. */
  predicate FirstPageBoundary(addr: nat, kernelEnd: nat, multibootEnd: nat) {
    && addr % PAGE_SIZE == 0 && kernelEnd <= addr && multibootEnd <= addr
    && (addr < kernelEnd + PAGE_SIZE || addr < multibootEnd + PAGE_SIZE)
  }

  /** The memory map tag the boot information carries, if it carries one. */
  ghost predicate Carries(tags: seq<Tag>, entries: seq<MmapEntry>, size: nat, version: nat) {
    && ValidTags(tags)
    && (forall k :: 0 <= k < |entries| ==> ValidEntry(entries[k])) && ENTRY_BYTES <= size < U32
    && (var k := FirstOf(tags, MMAP); if k < |tags| then tags[k] == MmapTag(entries, size, version) else entries == [])
  }

  lemma FirstIsPrefix(tags: seq<Tag>, k: nat)
    requires k < |tags|
    ensures TagBytes(tags[k]) <= TagsBytes(tags[k..])
  {
    hide TagBytes;
  }

  /** The entries of the memory map tag, none if there is no such tag. */
  method ReadMap(info: seq<Byte>, ghost tags: seq<Tag>, ghost entries: seq<MmapEntry>, ghost size: nat, ghost version: nat)
    returns (regions: seq<MmapEntry>)
    requires Carries(tags, entries, size, version) && info == Info(tags)
    ensures regions == entries
  {
    hide Info, Word, TagsBytes, TagBytes, FirstOf, EntriesBytes, Encode32;
    var off := FindMmap(info, tags);
    match off
    case None => regions := [];
    case Some(o) =>
      FirstIsPrefix(tags, FirstOf(tags, MMAP));
      regions := ReadEntries(info, o, entries, size, version);
  }

  lemma StartBits(memory: nat, entries: seq<MmapEntry>, kernelStart: nat, bitmapEnd: nat, bits: seq<bool>)
    requires kernelStart <= bitmapEnd && |bits| == 8 * ((memory / PAGE_SIZE + 7) / 8)
    requires forall p :: 0 <= p < |bits| ==> bits[p]
    ensures SetRange(FreeEntries(bits, memory, entries), FirstPage(kernelStart),
                     Min(EndPageUp(kernelStart, bitmapEnd - kernelStart), memory / PAGE_SIZE))
         == PmmProofs.BootBits(memory, entries, kernelStart, bitmapEnd)
  {
    hide FreeEntries, SetRange;
    assert bits == seq(8 * ((memory / PAGE_SIZE + 7) / 8), _ => true);
  }

  /** pmm_init and pmm_mark_free_regions on the parsed memory map. */
  method StartPages(kernelStart: nat, kernelEnd: nat, multibootEnd: nat, info: seq<Byte>,
                    ghost tags: seq<Tag>, ghost entries: seq<MmapEntry>, ghost size: nat, ghost version: nat)
    returns (pmm: PhysicalMemory)
    requires kernelStart <= kernelEnd && kernelEnd < U64 / 2 && multibootEnd < U64 / 2
    requires Carries(tags, entries, size, version) && info == Info(tags)
    ensures pmm.Valid() && fresh(pmm) && fresh(pmm.bitmap)
    ensures exists top: nat :: IsTop(entries, top) && pmm.totalMemory == Min(top, MAX_MEMORY)
    ensures FirstPageBoundary(pmm.bitmapAddr, kernelEnd, multibootEnd)
    ensures pmm.Bits() == PmmProofs.BootBits(pmm.totalMemory, if FirstOf(tags, MMAP) < TAG_LIMIT then entries else [],
                                             kernelStart, pmm.bitmapAddr + pmm.bitmap.Length)
  {
    hide Info, PmmProofs.BootBits, BitsOf, Pop, EndPageUp, SetRange, FreeEntries, FirstOf, ValidTags, MmapTag, TagsBytes, Add64, ValidEntry;
    var regions := ReadMap(info, tags, entries, size, version);
    var top := TopOfMemory(regions);
    pmm := new PhysicalMemory(top, multibootEnd, kernelEnd);
    var early := FindMmapEarly(info, tags);
    var freed := if early.Some? then regions else [];
    StartBits(pmm.totalMemory, freed, kernelStart, pmm.bitmapAddr + pmm.bitmap.Length, pmm.Bits());
    pmm.MarkFreeRegions(freed, kernelStart);
  }

  /**
   * Boot code, memory map, page allocator and self link in the order of kernel_main. Whatever the memory map says, the
   * kernel ends up with a tree of held page tables, and with exactly those pages free that the map's regions clear.
   */
  method StartMemory(start: Memory, base: nat, kernelStart: nat, kernelEnd: nat, multibootEnd: nat,
                     info: seq<Byte>, ghost tags: seq<Tag>, ghost entries: seq<MmapEntry>, ghost size: nat, ghost version: nat)
    returns (vm: VirtualMemory)
    requires BootImage(start, base) && (base + 4) * PAGE_SIZE <= kernelEnd && kernelStart <= base * PAGE_SIZE
    requires base * PAGE_SIZE + PAGE_SIZE <= 0x4000_0000 && MAX_MEMORY / PAGE_SIZE <= |start|
    requires kernelEnd < U64 / 2 && multibootEnd < U64 / 2
    requires Carries(tags, entries, size, version) && info == Info(tags)
    ensures vm.Valid() && Tree(vm.Now())
    ensures exists top: nat :: IsTop(entries, top) && vm.pmm.totalMemory == Min(top, MAX_MEMORY)
    ensures vm.root == base && BootTables(vm.mem, base) && |vm.mem| == |start|
    ensures forall f :: 0 <= f < |start| && !(base <= f < base + 4) ==> vm.mem[f] == start[f]
    ensures FirstPageBoundary(vm.pmm.bitmapAddr, kernelEnd, multibootEnd)
    ensures vm.Now().bits == PmmProofs.BootBits(vm.pmm.totalMemory, if FirstOf(tags, MMAP) < TAG_LIMIT then entries else [],
                                                kernelStart, vm.pmm.bitmapAddr + vm.pmm.bitmap.Length)
  {
    hide Info, ValidTags, Tree, Booted, BootTables, SelfLink, Translate, PmmProofs.BootBits, BitsOf, Pop, MmapTag, EndPageUp, SetRange;
    var mem := BuildTables(start, base);
    var pmm := StartPages(kernelStart, kernelEnd, multibootEnd, info, tags, entries, size, version);
    vm := new VirtualMemory(mem, base, pmm);
    BootedIsBootTables(mem, base);
    SelfLinkOnBoot(mem, base);
    SelfLinkKeepsOthers(mem, base);
    KernelStarts(mem, base, pmm.totalMemory, if FirstOf(tags, MMAP) < TAG_LIMIT then entries else [], kernelStart,
                 pmm.bitmapAddr + pmm.bitmap.Length, 0);
    vm.Init();
  }

  lemma NoEntriesNoTop(top: nat)
    ensures IsTop([], top) <==> top == 0
  {
  }

  lemma TopIsUnique(entries: seq<MmapEntry>, a: nat, b: nat)
    requires IsTop(entries, a) && IsTop(entries, b)
    ensures a == b
  {
  }

  lemma EndIn64(e: MmapEntry)
    ensures Add64(e.addr, e.len) == (e.addr + e.len) % 0x1_0000_0000_0000_0000
  {
  }

  /**
   * What a further entry does to the top of memory: nothing unless it is of kind 1 and starts below 4 GB; then the top is the
   * larger of the old one and the entry's end, taken modulo 2^64.
   */
  lemma TopWithOneMore(entries: seq<MmapEntry>, e: MmapEntry, top: nat)
    requires IsTop(entries, top)
    ensures e.kind != 1 || e.addr >= 0x1_0000_0000 ==> IsTop(entries + [e], top)
    ensures e.kind == 1 && e.addr < 0x1_0000_0000 ==>
              var end := (e.addr + e.len) % 0x1_0000_0000_0000_0000;
              IsTop(entries + [e], if end > top then end else top)
  {
    hide Add64;
    var all := entries + [e];
    assert all[|entries|] == e;
    assert forall k :: 0 <= k < |entries| ==> all[k] == entries[k];
    assert Add64(e.addr, e.len) == (e.addr + e.len) % 0x1_0000_0000_0000_0000 by {
      EndIn64(e);
    }
  }
}
