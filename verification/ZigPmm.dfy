/** The Zig kernel's page allocator: the same bitmap, marked page by page, with a counter of free pages. */
module ZigPmm {
  import opened PageBitmap
  import opened Bits
  import opened Options
  import opened Pmm
  import PmmProofs

  const MAX_PAGES: nat := 16384
  const KERNEL_PAGES: nat := 0x150

  /** Pages freed for the available entries, entry by entry. */
  ghost function FreePageWise(bits: seq<bool>, entries: seq<MmapEntry>): (r: seq<bool>)
    ensures |r| == |bits|
  {
    if entries == [] then bits
    else
      var before := FreePageWise(bits, entries[..|entries| - 1]);
      var entry := entries[|entries| - 1];
      if entry.kind == AVAILABLE
      then ClearRange(before, entry.addr / PAGE_SIZE, (entry.addr + entry.len) / PAGE_SIZE)
      else before
  }

  lemma AllUsed(bytes: seq<Byte>)
    requires |bytes| == MAX_PAGES / 8 && forall k :: 0 <= k < |bytes| ==> bytes[k] == 0xFF
    ensures BitsOf(bytes) == seq(MAX_PAGES, _ => true) && Pop(BitsOf(bytes)) == MAX_PAGES
  {
    FullBytes(bytes);
  }

  /** Stopping at the end of the bitmap clears what going on to the end of the region would. */
  lemma ClearToEnd(bits: seq<bool>, first: int, page: int, end: int)
    requires |bits| == MAX_PAGES
    requires page == end || page >= MAX_PAGES || (end <= first && page == first)
    requires page <= end || page == first
    ensures ClearRange(bits, first, page) == ClearRange(bits, first, end)
  {
  }

  class PhysicalMemory {
    const bitmap: array<Byte>

    var freePages: int

    ghost function Bits(): seq<bool>
      reads bitmap
    {
      BitsOf(bitmap[..])
    }

    ghost predicate Valid()
      reads this, bitmap
    {
      bitmap.Length == MAX_PAGES / 8 && freePages == MAX_PAGES - Pop(Bits())
    }

    method MarkFree(page: nat)
      requires Valid()
      modifies `freePages, bitmap
      ensures Valid()
      ensures Bits() == if page < MAX_PAGES then old(Bits())[page := false] else old(Bits())
    {
      if page >= MAX_PAGES {
        return;
      }
      if Bit(bitmap[page / 8], page % 8) {
        ghost var bytes := bitmap[..];
        PageBits(bytes, page);
        PopUpdate(Bits(), page, false);
        bitmap[page / 8] := ClearBit(bitmap[page / 8], page % 8);
        assert bitmap[..] == bytes[page / 8 := ClearBit(bytes[page / 8], page % 8)];
        freePages := freePages + 1;
      }
    }

    /** The loop over one available entry's pages, stopped at the end of the bitmap. */
    method MarkAllFree(first: nat, end: nat)
      requires Valid()
      modifies `freePages, bitmap
      ensures Valid()
      ensures Bits() == ClearRange(old(Bits()), first, end)
    {
      hide BitsOf, Pop, ClearRange;
      ghost var was := Bits();
      ClearRangeSteps(was, first, first);
      var page := first;
      while page < end && page < MAX_PAGES
        invariant first <= page && (page <= end || page == first)
        invariant Valid()
        invariant Bits() == ClearRange(was, first, page)
        modifies `freePages, bitmap
        decreases end - page
      {
        ClearRangeSteps(was, first, page);
        MarkFree(page);
        page := page + 1;
      }
      ClearToEnd(was, first, page, end);
    }

    method MarkUsed(page: nat)
      requires Valid()
      modifies `freePages, bitmap
      ensures Valid()
      ensures Bits() == if page < MAX_PAGES then old(Bits())[page := true] else old(Bits())
    {
      if page >= MAX_PAGES {
        return;
      }
      if !Bit(bitmap[page / 8], page % 8) {
        ghost var bytes := bitmap[..];
        PageBits(bytes, page);
        PopUpdate(Bits(), page, true);
        bitmap[page / 8] := SetBit(bitmap[page / 8], page % 8);
        assert bitmap[..] == bytes[page / 8 := SetBit(bytes[page / 8], page % 8)];
        freePages := freePages - 1;
      }
    }

    method MarkFirstUsed()
      requires Valid()
      modifies `freePages, bitmap
      ensures Valid()
      ensures Bits() == SetRange(old(Bits()), 0, KERNEL_PAGES)
    {
      hide BitsOf, Pop, SetRange;
      ghost var was := Bits();
      SetRangeSteps(was, 0, 0);
      var page := 0;
      while page < KERNEL_PAGES
        invariant 0 <= page <= KERNEL_PAGES
        invariant Valid()
        invariant Bits() == SetRange(was, 0, page)
        modifies `freePages, bitmap
      {
        SetRangeSteps(was, 0, page);
        MarkUsed(page);
        page := page + 1;
      }
    }

    /** init: mark everything used, free the available entries of the memory map, take back the first 0x150 pages. */
    constructor (entries: seq<MmapEntry>)
      requires forall i :: 0 <= i < |entries| ==> entries[i].addr + entries[i].len < U64
      ensures Valid() && fresh(bitmap)
      ensures Bits() == SetRange(FreePageWise(seq(MAX_PAGES, _ => true), entries), 0, KERNEL_PAGES)
    {
      bitmap := new Byte[MAX_PAGES / 8];
      freePages := 0;
      new;
      hide BitsOf, Pop, ClearRange, SetRange;
      var idx := 0;
      while idx < bitmap.Length
        invariant 0 <= idx <= bitmap.Length
        invariant forall k :: 0 <= k < idx ==> bitmap[k] == 0xFF
        modifies bitmap
      {
        bitmap[idx] := 0xFF;
        idx := idx + 1;
      }
      AllUsed(bitmap[..]);
      assert Bits() == seq(MAX_PAGES, _ => true);
      ghost var full := Bits();
      var i := 0;
      while i < |entries|
        invariant 0 <= i <= |entries|
        invariant Valid()
        invariant Bits() == FreePageWise(full, entries[..i])
        modifies `freePages, bitmap
      {
        assert entries[..i + 1][..i] == entries[..i];
        var entry := entries[i];
        if entry.kind == AVAILABLE {
          MarkAllFree(entry.addr / PAGE_SIZE, (entry.addr + entry.len) / PAGE_SIZE);
        }
        i := i + 1;
      }
      assert entries[..i] == entries;
      MarkFirstUsed();
    }

    predicate IsFree(page: nat)
      requires Valid()
      reads this, bitmap
      ensures IsFree(page) == (page < MAX_PAGES && !Bits()[page])
    {
      page < MAX_PAGES && !Bit(bitmap[page / 8], page % 8)
    }

    /** The lowest free page, or None, which the C version cannot tell from page 0. */
    method AllocPage() returns (addr: Option<nat>)
      requires Valid()
      modifies `freePages, bitmap
      ensures Valid()
      ensures addr == (var f := FirstFree(old(Bits()), MAX_PAGES, 0); if f < MAX_PAGES then Some(f * PAGE_SIZE) else None)
      ensures Bits() == AllocBits(old(Bits()), MAX_PAGES)
    {
      var page := 0;
      while page < MAX_PAGES
        invariant 0 <= page <= MAX_PAGES
        invariant FirstFree(Bits(), MAX_PAGES, 0) == FirstFree(Bits(), MAX_PAGES, page)
      {
        if IsFree(page) {
          MarkUsed(page);
          return Some(page * PAGE_SIZE);
        }
        page := page + 1;
      }
      return None;
    }

    method FreePage(addr: nat)
      requires Valid()
      modifies `freePages, bitmap
      ensures Valid()
      ensures Bits() == FreeBits(old(Bits()), MAX_PAGES, addr)
    {
      MarkFree(addr / PAGE_SIZE);
    }
  }

  predicate Covers(entry: MmapEntry, p: nat) {
    entry.kind == AVAILABLE && entry.addr / PAGE_SIZE <= p < (entry.addr + entry.len) / PAGE_SIZE
  }

  ghost predicate Covered(entries: seq<MmapEntry>, p: nat) {
    exists i :: 0 <= i < |entries| && Covers(entries[i], p)
  }

  /** After init a page is free exactly when an available entry covers it and it lies past the kernel's pages: no byte effects. */
  lemma {:induction false} ZigFreePages(bits: seq<bool>, entries: seq<MmapEntry>, p: nat)
    requires p < |bits|
    ensures FreePageWise(bits, entries)[p] == (bits[p] && !Covered(entries, p))
    ensures SetRange(FreePageWise(bits, entries), 0, KERNEL_PAGES)[p] == ((bits[p] && !Covered(entries, p)) || p < KERNEL_PAGES)
  {
    if entries == [] {
    } else {
      var n := |entries| - 1;
      ZigFreePages(bits, entries[..n], p);
      if Covered(entries[..n], p) {
        var i :| 0 <= i < n && Covers(entries[..n][i], p);
        assert Covers(entries[i], p);
      }
      if Covered(entries, p) && !Covers(entries[n], p) {
        var i :| 0 <= i < |entries| && Covers(entries[i], p);
        assert Covers(entries[..n][i], p);
      }
    }
  }

  lemma CappedEnd(entry: MmapEntry)
    requires entry.addr + entry.len < U64 && entry.addr < MAX_MEMORY
    ensures EndPage(entry.addr, CappedLength(entry, MAX_MEMORY)) == Min((entry.addr + entry.len) / PAGE_SIZE, MAX_PAGES)
  {
  }

  lemma KernelsFreeTheSameEntry(entry: MmapEntry, p: nat)
    requires entry.addr + entry.len < U64 && Used(entry, MAX_MEMORY) && p < MAX_PAGES
    requires PmmProofs.ByteSafe(MAX_PAGES, FirstPage(entry.addr), EndPage(entry.addr, CappedLength(entry, MAX_MEMORY)))
    ensures PmmProofs.EntryFrees(entry, MAX_MEMORY, p) <==> Covers(entry, p)
  {
    CappedEnd(entry);
    hide EndPage, CappedLength;
    PmmProofs.ByteWiseIsPageWiseIff(MAX_PAGES, FirstPage(entry.addr), EndPage(entry.addr, CappedLength(entry, MAX_MEMORY)));
  }

  /** On a map whose regions are safe for the byte-wise loop the C kernel at 64 MB frees the pages the Zig kernel frees. */
  lemma KernelsFreeTheSamePages(entries: seq<MmapEntry>, p: nat)
    requires forall i :: 0 <= i < |entries| ==> entries[i].addr + entries[i].len < U64
    requires PmmProofs.SafeMap(entries, MAX_MEMORY) && p < MAX_PAGES
    ensures PmmProofs.SomeEntryFrees(entries, MAX_MEMORY, p) <==> Covered(entries, p)
  {
    forall i | 0 <= i < |entries|
      ensures PmmProofs.EntryFrees(entries[i], MAX_MEMORY, p) <==> Covers(entries[i], p)
    {
      if Used(entries[i], MAX_MEMORY) {
        KernelsFreeTheSameEntry(entries[i], p);
      }
    }
    hide PmmProofs.EntryFrees, Covers, PmmProofs.SafeMap, Used;
  }

  lemma CoversInBytes(entry: MmapEntry, p: nat)
    ensures Covers(entry, p) <==> entry.kind == 1 && entry.addr < (p + 1) * 4096 <= entry.addr + entry.len
  {
    var end := entry.addr + entry.len;
    assert end / 4096 > p <==> end >= (p + 1) * 4096;
    assert entry.addr / 4096 <= p <==> entry.addr < (p + 1) * 4096;
  }

  /** In bytes and numbers: after init, of 16384 pages those are free that lie at or past page 0x150 and within an entry of kind 1. */
  lemma ZigFreeInBytes(entries: seq<MmapEntry>, p: nat)
    requires p < 16384
    ensures SetRange(FreePageWise(seq(MAX_PAGES, _ => true), entries), 0, KERNEL_PAGES)[p] <==>
            p < 0x150 || forall i :: 0 <= i < |entries| ==>
              !(entries[i].kind == 1 && entries[i].addr < (p + 1) * 4096 <= entries[i].addr + entries[i].len)
  {
    ZigFreePages(seq(MAX_PAGES, _ => true), entries, p);
    forall i | 0 <= i < |entries|
      ensures Covers(entries[i], p) <==>
              entries[i].kind == 1 && entries[i].addr < (p + 1) * 4096 <= entries[i].addr + entries[i].len
    {
      CoversInBytes(entries[i], p);
    }
  }
}
