/** What the page allocator guarantees over regions, memory maps and runs of requests. */
module PmmProofs {
  import opened Bits
  import opened PageBitmap
  import opened Pmm

  // ---------------------------------------------------------------------------------------------
  // Freeing a region byte by byte against freeing it page by page
  // ---------------------------------------------------------------------------------------------

  /** When the byte-wise region loop is exact: a test on the two page numbers. */
  predicate ByteSafe(total: nat, s: nat, e: nat) {
    e % 8 == 0 || s <= 8 * (e / 8) || total <= 8 * (e / 8)
  }

  /** The byte-wise form clears the same existing pages as the page-by-page form exactly on safe regions. */
  lemma ByteWiseIsPageWiseIff(total: nat, s: nat, e: nat)
    ensures ByteSafe(total, s, e) <==> forall p: nat :: p < total ==> (Cleared(total, s, e, p) <==> s <= p < e)
  {
    if !ByteSafe(total, s, e) {
      var p: nat := 8 * (e / 8);
      assert p < total && Cleared(total, s, e, p) && p < s;
    }
  }

  /** On an unsafe region it clears the whole of its last byte up to the end, pages before the region included. */
  lemma UnsafeRegionClears(total: nat, s: nat, e: nat, p: nat)
    requires !ByteSafe(total, s, e) && p < total
    ensures Cleared(total, s, e, p) <==> 8 * (e / 8) <= p < e
  {
  }

  /** A kilobyte at 0x9000 covers no whole page, yet freeing it frees page 8. */
  lemma SmallRegionFreesItsNeighbour(bits: seq<bool>)
    requires |bits| == 16 && forall p :: 0 <= p < 16 ==> bits[p]
    ensures FirstPage(0x9000) == 9 && EndPage(0x9000, 0x400) == 9
    ensures !FreeRegion(bits, 16, FirstPage(0x9000), EndPage(0x9000, 0x400))[8]
  {
  }

  /** On bitmaps: the two forms agree on safe regions, and on unsafe ones they differ as soon as the first over-freed page is in use. */
  lemma FreeRegionRefinesPageLoop(bits: seq<bool>, total: nat, s: nat, e: nat)
    requires total <= |bits|
    ensures ByteSafe(total, s, e) ==>
              FreeRegion(bits, total, s, e)[..total] == ClearRange(bits, s, Min(e, total))[..total]
    ensures !ByteSafe(total, s, e) && bits[8 * (e / 8)] ==>
              FreeRegion(bits, total, s, e)[..total] != ClearRange(bits, s, Min(e, total))[..total]
  {
    ByteWiseIsPageWiseIff(total, s, e);
    if !ByteSafe(total, s, e) && bits[8 * (e / 8)] {
      var p: nat := 8 * (e / 8);
      assert !FreeRegion(bits, total, s, e)[..total][p] && ClearRange(bits, s, Min(e, total))[..total][p];
    }
  }

  // ---------------------------------------------------------------------------------------------
  // The memory map
  // ---------------------------------------------------------------------------------------------

  ghost predicate EntryFrees(entry: MmapEntry, memory: nat, p: nat) {
    && Used(entry, memory)
    && Cleared(memory / PAGE_SIZE, FirstPage(entry.addr), EndPage(entry.addr, CappedLength(entry, memory)), p)
  }

  ghost predicate SomeEntryFrees(entries: seq<MmapEntry>, memory: nat, p: nat) {
    exists i :: 0 <= i < |entries| && EntryFrees(entries[i], memory, p)
  }

  lemma {:induction false} FreeEntriesPage(bits: seq<bool>, memory: nat, entries: seq<MmapEntry>, p: nat)
    requires p < |bits|
    ensures FreeEntries(bits, memory, entries)[p] == (bits[p] && !SomeEntryFrees(entries, memory, p))
  {
    if entries == [] {
    } else {
      var n := |entries| - 1;
      FreeEntriesPage(bits, memory, entries[..n], p);
      if SomeEntryFrees(entries[..n], memory, p) {
        var i :| 0 <= i < n && EntryFrees(entries[..n][i], memory, p);
        assert EntryFrees(entries[i], memory, p);
      }
      if SomeEntryFrees(entries, memory, p) && !EntryFrees(entries[n], memory, p) {
        var i :| 0 <= i < |entries| && EntryFrees(entries[i], memory, p);
        assert entries[..n][i] == entries[i];
      }
    }
  }

  /** Capping keeps every freed region inside managed memory, whatever the entry says, so only pages are freed. */
  lemma CappedRegionEndsInMemory(entry: MmapEntry, memory: nat)
    requires entry.addr < memory < U64
    ensures EndPage(entry.addr, CappedLength(entry, memory)) <= memory / PAGE_SIZE
  {
    var len := CappedLength(entry, memory);
    assert Add64(entry.addr, len) <= memory;
  }

  /** The bitmap after boot: everything in use, then the memory map freed, then kernel and bitmap taken back. */
  ghost function BootBits(memory: nat, entries: seq<MmapEntry>, kernelStart: nat, bitmapEnd: nat): (bits: seq<bool>)
    requires kernelStart <= bitmapEnd
    ensures |bits| == 8 * ((memory / PAGE_SIZE + 7) / 8)
  {
    var full := seq(8 * ((memory / PAGE_SIZE + 7) / 8), _ => true);
    SetRange(FreeEntries(full, memory, entries), FirstPage(kernelStart),
             Min(EndPageUp(kernelStart, bitmapEnd - kernelStart), memory / PAGE_SIZE))
  }

  /** Page p and the byte range [lo, hi) have a byte in common. */
  predicate Overlaps(p: nat, lo: nat, hi: nat) {
    p * PAGE_SIZE < hi && lo < (p + 1) * PAGE_SIZE
  }

  lemma ReservedPages(lo: nat, hi: nat, p: nat)
    requires lo < hi < U64 - PAGE_SIZE
    ensures FirstPage(lo) <= p < EndPageUp(lo, hi - lo) <==> Overlaps(p, lo, hi)
  {
    assert EndPageUp(lo, hi - lo) == (hi + PAGE_SIZE - 1) / PAGE_SIZE;
  }

  /** After boot a page is free exactly when some map entry's region clears it and it is clear of kernel and bitmap. */
  lemma BootFreePages(memory: nat, entries: seq<MmapEntry>, kernelStart: nat, bitmapEnd: nat, p: nat)
    requires kernelStart < bitmapEnd < U64 - PAGE_SIZE && p < memory / PAGE_SIZE
    ensures !BootBits(memory, entries, kernelStart, bitmapEnd)[p]
       <==> SomeEntryFrees(entries, memory, p) && !Overlaps(p, kernelStart, bitmapEnd)
  {
    var full := seq(8 * ((memory / PAGE_SIZE + 7) / 8), _ => true);
    FreeEntriesPage(full, memory, entries, p);
    ReservedPages(kernelStart, bitmapEnd, p);
  }

  /** The region of an available entry, floor to floor, with its 64-bit end capped at managed memory. */
  ghost predicate Covers(entry: MmapEntry, memory: nat, p: nat) {
    && Used(entry, memory)
    && FirstPage(entry.addr) <= p < EndPage(entry.addr, CappedLength(entry, memory))
  }

  ghost predicate SafeMap(entries: seq<MmapEntry>, memory: nat) {
    forall i :: 0 <= i < |entries| && Used(entries[i], memory) ==>
      ByteSafe(memory / PAGE_SIZE, FirstPage(entries[i].addr), EndPage(entries[i].addr, CappedLength(entries[i], memory)))
  }

  /** On a map of safe entries the free pages are the covered ones, less kernel and bitmap. */
  lemma SafeMapFreesCoveredPages(memory: nat, entries: seq<MmapEntry>, kernelStart: nat, bitmapEnd: nat, p: nat)
    requires kernelStart < bitmapEnd < U64 - PAGE_SIZE && p < memory / PAGE_SIZE
    requires SafeMap(entries, memory)
    ensures !BootBits(memory, entries, kernelStart, bitmapEnd)[p]
       <==> (exists i :: 0 <= i < |entries| && Covers(entries[i], memory, p)) && !Overlaps(p, kernelStart, bitmapEnd)
  {
    BootFreePages(memory, entries, kernelStart, bitmapEnd, p);
    forall i | 0 <= i < |entries|
      ensures EntryFrees(entries[i], memory, p) <==> Covers(entries[i], memory, p)
    {
      if Used(entries[i], memory) {
        ByteWiseIsPageWiseIff(memory / PAGE_SIZE, FirstPage(entries[i].addr),
                              EndPage(entries[i].addr, CappedLength(entries[i], memory)));
      }
    }
  }

  /** The covered pages in bytes: an entry of kind 1 that starts before the page ends, and ends (modulo 2^64) no earlier, within memory. */
  lemma CoversInBytes(entry: MmapEntry, memory: nat, p: nat)
    requires memory < U64
    ensures var end := (entry.addr + entry.len) % 0x1_0000_0000_0000_0000;
            Covers(entry, memory, p) <==>
              entry.kind == 1 && entry.addr < memory && entry.addr < (p + 1) * 4096 <= (if end > memory then memory else end)
  {
    if Used(entry, memory) {
      var end := Add64(entry.addr, CappedLength(entry, memory));
      assert end / 4096 > p <==> end >= (p + 1) * 4096;
      assert entry.addr / 4096 <= p <==> entry.addr < (p + 1) * 4096;
    }
  }

  // ---------------------------------------------------------------------------------------------
  // The used-page counter
  // ---------------------------------------------------------------------------------------------

  /** No bit past the last page is clear. */
  ghost predicate PaddingSet(bits: seq<bool>, total: nat) {
    forall p :: total <= p < |bits| ==> bits[p]
  }

  lemma PopSplit(bits: seq<bool>, n: nat)
    requires n <= |bits|
    ensures Pop(bits) == Pop(bits[..n]) + Pop(bits[n..])
  {
    assert bits == bits[..n] + bits[n..];
    PopAppend(bits[..n], bits[n..]);
  }

  lemma PaddingIsTail(bits: seq<bool>, total: nat)
    requires total <= |bits|
    ensures PaddingSet(bits, total) <==> forall p :: 0 <= p < |bits[total..]| ==> bits[total..][p]
  {
    if !PaddingSet(bits, total) {
      var p :| total <= p < |bits| && !bits[p];
      assert !bits[total..][p - total];
    }
  }

  /** The counter the allocator keeps is the number of used pages exactly while the padding bits are all set. */
  lemma CounterCountsUsedPagesIff(bits: seq<bool>, total: nat)
    requires total <= |bits|
    ensures Pop(bits) - (|bits| - total) == Pop(bits[..total]) <==> PaddingSet(bits, total)
    ensures PaddingSet(bits, total) ==> 0 <= Pop(bits) - (|bits| - total) <= total
  {
    hide Pop;
    PopSplit(bits, total);
    PopBounds(bits[total..]);
    PopBounds(bits[..total]);
    PaddingIsTail(bits, total);
  }

  datatype Request =
    | FreeEntry(entry: MmapEntry)
    | UseRange(base: nat, length: nat)
    | Allocate
    | Release(addr: nat)

  ghost function Serve(bits: seq<bool>, memory: nat, r: Request): (next: seq<bool>)
    requires memory / PAGE_SIZE <= |bits|
    ensures |next| == |bits|
  {
    match r
    case FreeEntry(entry) => FreeEntries(bits, memory, [entry])
    case UseRange(base, length) =>
      SetRange(bits, FirstPage(base), Min(EndPageUp(base, length), memory / PAGE_SIZE))
    case Allocate => AllocBits(bits, memory / PAGE_SIZE)
    case Release(addr) => FreeBits(bits, memory / PAGE_SIZE, addr)
  }

  ghost function ServeAll(memory: nat, requests: seq<Request>): (bits: seq<bool>)
    ensures |bits| == 8 * ((memory / PAGE_SIZE + 7) / 8)
  {
    if requests == [] then seq(8 * ((memory / PAGE_SIZE + 7) / 8), _ => true)
    else Serve(ServeAll(memory, requests[..|requests| - 1]), memory, requests[|requests| - 1])
  }

  lemma ServeKeepsPadding(bits: seq<bool>, memory: nat, r: Request)
    requires memory < U64 && memory / PAGE_SIZE <= |bits| < memory / PAGE_SIZE + 8 && |bits| % 8 == 0
    requires PaddingSet(bits, memory / PAGE_SIZE)
    ensures PaddingSet(Serve(bits, memory, r), memory / PAGE_SIZE)
  {
    match r
    case FreeEntry(entry) =>
      forall p | memory / PAGE_SIZE <= p < |bits|
        ensures Serve(bits, memory, r)[p]
      {
        FreeEntriesPage(bits, memory, [entry], p);
        if Used(entry, memory) {
          CappedRegionEndsInMemory(entry, memory);
        }
      }
    case UseRange(base, length) =>
    case Allocate =>
    case Release(addr) =>
  }

  lemma {:induction false} PaddingStaysSet(memory: nat, requests: seq<Request>)
    requires memory < U64
    ensures PaddingSet(ServeAll(memory, requests), memory / PAGE_SIZE)
  {
    if requests == [] {
    } else {
      var n := |requests| - 1;
      PaddingStaysSet(memory, requests[..n]);
      ServeKeepsPadding(ServeAll(memory, requests[..n]), memory, requests[n]);
    }
  }

  /** From start-up, through any memory map entries, reservations, allocations and releases, the counter stays exact. */
  lemma {:induction false} CounterExactOverRuns(memory: nat, requests: seq<Request>)
    requires memory < U64
    ensures var bits := ServeAll(memory, requests);
            Pop(bits) - (|bits| - memory / PAGE_SIZE) == Pop(bits[..memory / PAGE_SIZE])
  {
    PaddingStaysSet(memory, requests);
    CounterCountsUsedPagesIff(ServeAll(memory, requests), memory / PAGE_SIZE);
  }

  // ---------------------------------------------------------------------------------------------
  // Allocation
  // ---------------------------------------------------------------------------------------------

  ghost predicate LowestFree(bits: seq<bool>, total: nat, p: nat)
    requires total <= |bits|
  {
    p < total && !bits[p] && forall q :: 0 <= q < p ==> bits[q]
  }

  /** A call that does not return 0 returns the aligned address of the lowest free page, and takes it. */
  lemma AllocationIsLowestFreePage(bits: seq<bool>, total: nat, p: nat)
    requires total <= |bits| && LowestFree(bits, total, p)
    ensures AllocAddr(bits, total) == p * 4096
    ensures AllocBits(bits, total) == bits[p := true]
    ensures FreeBits(AllocBits(bits, total), total, AllocAddr(bits, total)) == bits
  {
    assert FirstFree(bits, total, 0) == p;
  }

  /** The result 0 is ambiguous: it is returned when no page is left and when page 0 is taken. */
  lemma ZeroIsAmbiguous(bits: seq<bool>, total: nat)
    requires total <= |bits|
    ensures AllocAddr(bits, total) == 0 <==> LowestFree(bits, total, 0) || forall p :: 0 <= p < total ==> bits[p]
  {
    var f := FirstFree(bits, total, 0);
    if f < total {
      assert LowestFree(bits, total, f);
    }
  }

  /** Releasing any address inside a page frees that page, and no other. */
  lemma ReleaseByAddress(bits: seq<bool>, total: nat, addr: nat, p: nat)
    requires p < total <= |bits|
    ensures FreeBits(bits, total, addr)[p] == (bits[p] && !(p * 4096 <= addr < (p + 1) * 4096))
  {
    assert addr / 4096 == p <==> p * 4096 <= addr < (p + 1) * 4096;
  }

  /** The pages that are left. */
  ghost function FreeCount(bits: seq<bool>, total: nat): (n: nat)
    requires total <= |bits|
    ensures n == 0 <==> forall p :: 0 <= p < total ==> bits[p]
  {
    PopBounds(bits[..total]);
    total - Pop(bits[..total])
  }

  lemma TakenPageCounts(bits: seq<bool>, total: nat, p: nat)
    requires p < total <= |bits| && !bits[p]
    ensures FreeCount(bits[p := true], total) == FreeCount(bits, total) - 1
  {
    assert bits[p := true][..total] == bits[..total][p := true];
    PopUpdate(bits[..total], p, true);
  }

  /** One allocation takes one page while there is one; its answer is an address a caller accepts only if page 0 is not free. */
  lemma AllocationTakesOne(bits: seq<bool>, total: nat)
    requires total <= |bits|
    ensures AllocAddr(bits, total) != 0 <==> total > 0 && bits[0] && FreeCount(bits, total) > 0
    ensures FreeCount(AllocBits(bits, total), total) == FreeCount(bits, total) - (if FreeCount(bits, total) > 0 then 1 else 0)
    ensures total > 0 ==> AllocBits(bits, total)[0]
  {
    hide FreeCount;
    var f := FirstFree(bits, total, 0);
    if f < total {
      assert LowestFree(bits, total, f);
      TakenPageCounts(bits, total, f);
    }
  }

  ghost function AllocTimes(bits: seq<bool>, total: nat, k: nat): (r: seq<bool>)
    requires total <= |bits|
    ensures |r| == |bits|
    decreases k
  {
    if k == 0 then bits else AllocTimes(AllocBits(bits, total), total, k - 1)
  }

  /** How many of k calls in a row answer with an address a caller accepts. */
  ghost function Accepted(bits: seq<bool>, total: nat, k: nat): nat
    requires total <= |bits|
    decreases k
  {
    if k == 0 then 0
    else (if AllocAddr(bits, total) != 0 then 1 else 0) + Accepted(AllocBits(bits, total), total, k - 1)
  }

  /**
   * k calls in a row take k pages, or all there are. A caller who takes 0 for "none left" gets that many pages if page 0
   * is not free, and one less if it is: page 0 is taken by the first call and belongs to nobody.
   */
  lemma {:induction false} AcceptedAnswers(bits: seq<bool>, total: nat, k: nat)
    requires total <= |bits|
    ensures FreeCount(AllocTimes(bits, total, k), total) == FreeCount(bits, total) - Min(k, FreeCount(bits, total))
    ensures Accepted(bits, total, k) ==
            Min(k, FreeCount(bits, total)) - (if k > 0 && total > 0 && !bits[0] then 1 else 0)
    decreases k
  {
    hide FreeCount, AllocAddr, AllocBits;
    if k == 0 {
    } else {
      AllocationTakesOne(bits, total);
      AcceptedAnswers(AllocBits(bits, total), total, k - 1);
    }
  }

  /** Any free page becomes the lowest one after some number of calls, and no page from it on has been touched. */
  lemma {:induction false} EveryFreePageComesUp(bits: seq<bool>, total: nat, p: nat) returns (k: nat)
    requires p < total <= |bits| && !bits[p]
    ensures LowestFree(AllocTimes(bits, total, k), total, p)
    ensures AllocTimes(bits, total, k)[p..] == bits[p..]
    decreases FreeCount(bits, total)
  {
    hide FreeCount;
    var f := FirstFree(bits, total, 0);
    if f == p {
      k := 0;
    } else {
      assert f < p;
      TakenPageCounts(bits, total, f);
      var rest := EveryFreePageComesUp(AllocBits(bits, total), total, p);
      k := rest + 1;
      assert AllocBits(bits, total)[p..] == bits[p..];
    }
  }

  /** A user of the allocator who releases only pages it holds. */
  datatype Client = Client(bits: seq<bool>, owned: set<nat>)

  datatype Command = Alloc | Free(page: nat)

  ghost function ClientStep(c: Client, total: nat, cmd: Command): (next: Client)
    requires total <= |c.bits|
    ensures |next.bits| == |c.bits|
  {
    match cmd
    case Alloc =>
      var f := FirstFree(c.bits, total, 0);
      Client(AllocBits(c.bits, total), if f < total then c.owned + {f} else c.owned)
    case Free(page) =>
      if page in c.owned then Client(FreeBits(c.bits, total, page * PAGE_SIZE), c.owned - {page}) else c
  }

  ghost function ClientRun(bits: seq<bool>, total: nat, cmds: seq<Command>): (c: Client)
    requires total <= |bits|
    ensures |c.bits| == |bits|
  {
    if cmds == [] then Client(bits, {})
    else ClientStep(ClientRun(bits, total, cmds[..|cmds| - 1]), total, cmds[|cmds| - 1])
  }

  /**
   * The pages in use are those used at the start and those the client holds, never both,
   * and the number of pages taken is conserved.
   */
  ghost predicate Accounts(bits: seq<bool>, total: nat, c: Client) {
    && |c.bits| == |bits|
    && (forall p :: 0 <= p < |bits| ==> (c.bits[p] <==> bits[p] || p in c.owned))
    && (forall p :: p in c.owned ==> p < total && total <= |bits| && !bits[p])
    && Pop(c.bits) == Pop(bits) + |c.owned|
  }

  lemma TakePage(bits: seq<bool>, total: nat, c: Client, p: nat)
    requires total <= |bits| && Accounts(bits, total, c) && p < total && !c.bits[p]
    ensures Accounts(bits, total, Client(c.bits[p := true], c.owned + {p}))
  {
    PopUpdate(c.bits, p, true);
  }

  lemma ReturnPage(bits: seq<bool>, total: nat, c: Client, p: nat)
    requires total <= |bits| && Accounts(bits, total, c) && p in c.owned
    ensures Accounts(bits, total, Client(c.bits[p := false], c.owned - {p}))
  {
    PopUpdate(c.bits, p, false);
  }

  lemma {:induction false} OwnershipOverRuns(bits: seq<bool>, total: nat, cmds: seq<Command>)
    requires total <= |bits|
    ensures Accounts(bits, total, ClientRun(bits, total, cmds))
  {
    if cmds == [] {
    } else {
      var n := |cmds| - 1;
      OwnershipOverRuns(bits, total, cmds[..n]);
      var c := ClientRun(bits, total, cmds[..n]);
      match cmds[n]
      case Alloc =>
        var f := FirstFree(c.bits, total, 0);
        if f < total {
          TakePage(bits, total, c, f);
        }
      case Free(page) =>
        if page in c.owned {
          ReturnPage(bits, total, c, page);
        }
    }
  }

  /** Every allocation that takes a page takes one nobody holds and that was not used at the start. */
  lemma AllocationsAreExclusive(bits: seq<bool>, total: nat, cmds: seq<Command>, p: nat)
    requires total <= |bits| && LowestFree(ClientRun(bits, total, cmds).bits, total, p)
    ensures p !in ClientRun(bits, total, cmds).owned && !bits[p]
    ensures ClientRun(bits, total, cmds + [Alloc]).owned == ClientRun(bits, total, cmds).owned + {p}
  {
    OwnershipOverRuns(bits, total, cmds);
    assert (cmds + [Alloc])[..|cmds + [Alloc]| - 1] == cmds;
    AllocationIsLowestFreePage(ClientRun(bits, total, cmds).bits, total, p);
  }

  /** When no page is left the client holds as many pages as were free at the start. */
  lemma ExhaustionCount(bits: seq<bool>, total: nat, cmds: seq<Command>)
    requires total <= |bits|
    requires forall p :: 0 <= p < total ==> ClientRun(bits, total, cmds).bits[p]
    ensures |ClientRun(bits, total, cmds).owned| == total - Pop(bits[..total])
  {
    OwnershipOverRuns(bits, total, cmds);
    var c := ClientRun(bits, total, cmds);
    PopSplit(bits, total);
    PopSplit(c.bits, total);
    assert c.bits[total..] == bits[total..];
    PopBounds(c.bits[..total]);
  }

  /** When the client has returned everything the bitmap is as it was at the start. */
  lemma ReturningEverythingRestores(bits: seq<bool>, total: nat, cmds: seq<Command>)
    requires total <= |bits| && ClientRun(bits, total, cmds).owned == {}
    ensures ClientRun(bits, total, cmds).bits == bits
  {
    OwnershipOverRuns(bits, total, cmds);
  }
}
