/** The physical memory manager: a first-fit page allocator over a bitmap. */
module Pmm {
  import opened Bits
  import opened PageBitmap

  const MAX_MEMORY: nat := 64 * 1024 * 1024
  const AVAILABLE: nat := 1

  /** A Multiboot2 memory map entry. */
  datatype MmapEntry = MmapEntry(addr: nat, len: nat, kind: nat)

  function Min(a: int, b: int): int {
    if a < b then a else b
  }

  /** base + length in 64-bit arithmetic. */
  function Add64(a: nat, b: nat): nat {
    (a + b) % U64
  }

  function FirstPage(base: nat): nat {
    base / PAGE_SIZE
  }

  /** One past the last page that lies entirely below the end of the region. */
  function EndPage(base: nat, length: nat): nat {
    Add64(base, length) / PAGE_SIZE
  }

  /** One past the last page that the region touches. */
  function EndPageUp(base: nat, length: nat): nat {
    Add64(base, length + PAGE_SIZE - 1) / PAGE_SIZE
  }

  /** Clear the bits of pages [from, to). */
  ghost function ClearRange(bits: seq<bool>, from: int, to: int): (r: seq<bool>)
    ensures |r| == |bits|
  {
    seq(|bits|, p requires 0 <= p < |bits| => bits[p] && !(from <= p < to))
  }

  ghost function SetRange(bits: seq<bool>, from: int, to: int): (r: seq<bool>)
    ensures |r| == |bits|
  {
    seq(|bits|, p requires 0 <= p < |bits| => bits[p] || from <= p < to)
  }

  lemma ClearRangeSteps(bits: seq<bool>, from: int, to: int)
    ensures to <= from ==> ClearRange(bits, from, to) == bits
    ensures 0 <= from <= to < |bits| ==> ClearRange(bits, from, to + 1) == ClearRange(bits, from, to)[to := false]
  {
  }

  lemma SetRangeSteps(bits: seq<bool>, from: int, to: int)
    ensures to <= from ==> SetRange(bits, from, to) == bits
    ensures 0 <= from <= to < |bits| ==> SetRange(bits, from, to + 1) == SetRange(bits, from, to)[to := true]
  {
  }

  /**
   * The pages that freeing the region [s, e) clears. Below the end of memory these are the pages of
   * the region and, when the end is not byte aligned, every page of the byte the end falls in that
   * lies before the end. Bits past the end of memory go only with a whole byte.
   */
  ghost predicate Cleared(total: nat, s: nat, e: nat, p: nat) {
    if p < total then p < e && (s <= p || 8 * (e / 8) <= p)
    else 8 * ((s + 7) / 8) <= p < 8 * (e / 8)
  }

  ghost function FreeRegion(bits: seq<bool>, total: nat, s: nat, e: nat): (r: seq<bool>)
    ensures |r| == |bits|
  {
    seq(|bits|, p requires 0 <= p < |bits| => bits[p] && !Cleared(total, s, e, p))
  }

  /** The lowest free page at or above `from`, or `total` when there is none. */
  ghost function FirstFree(bits: seq<bool>, total: nat, from: nat): (r: nat)
    requires from <= total <= |bits|
    ensures from <= r <= total
    ensures forall q :: from <= q < r ==> bits[q]
    ensures r < total ==> !bits[r]
    decreases total - from
  {
    if from == total || !bits[from] then from else FirstFree(bits, total, from + 1)
  }

  /** The bitmap after one allocation. */
  ghost function AllocBits(bits: seq<bool>, total: nat): (r: seq<bool>)
    requires total <= |bits|
    ensures |r| == |bits|
  {
    var f := FirstFree(bits, total, 0);
    if f < total then bits[f := true] else bits
  }

  /** The address one allocation returns: 0 stands both for page 0 and for no page left. */
  ghost function AllocAddr(bits: seq<bool>, total: nat): nat
    requires total <= |bits|
  {
    var f := FirstFree(bits, total, 0);
    if f < total then f * PAGE_SIZE else 0
  }

  ghost function FreeBits(bits: seq<bool>, total: nat, addr: nat): (r: seq<bool>)
    requires total <= |bits|
    ensures |r| == |bits|
  {
    if addr / PAGE_SIZE < total then bits[addr / PAGE_SIZE := false] else bits
  }

  /** A memory map entry is freed if it is available and starts inside managed memory. */
  ghost predicate Used(entry: MmapEntry, memory: nat) {
    entry.kind == AVAILABLE && entry.addr < memory
  }

  /** The length handed on for an entry: capped when its (64-bit) end lies past managed memory. */
  function CappedLength(entry: MmapEntry, memory: nat): nat
    requires entry.addr < memory
  {
    if Add64(entry.addr, entry.len) > memory then memory - entry.addr else entry.len
  }

  ghost function FreeEntries(bits: seq<bool>, memory: nat, entries: seq<MmapEntry>): (r: seq<bool>)
    ensures |r| == |bits|
  {
    if entries == [] then bits
    else
      var before := FreeEntries(bits, memory, entries[..|entries| - 1]);
      var entry := entries[|entries| - 1];
      if Used(entry, memory) then
        FreeRegion(before, memory / PAGE_SIZE, FirstPage(entry.addr), EndPage(entry.addr, CappedLength(entry, memory)))
      else before
  }

  lemma FullBytes(bytes: seq<Byte>)
    requires forall k :: 0 <= k < |bytes| ==> bytes[k] == 0xFF
    ensures forall p :: 0 <= p < |BitsOf(bytes)| ==> BitsOf(bytes)[p]
    ensures Pop(BitsOf(bytes)) == 8 * |bytes|
  {
    forall p: nat | p < |BitsOf(bytes)| ensures BitsOf(bytes)[p] {
      ConstantBytes(p % 8);
    }
    PopBounds(BitsOf(bytes));
  }

  lemma ZeroByte(bytes: seq<Byte>, i: nat)
    requires i < |bytes|
    ensures BitsOf(bytes[i := 0]) == ClearRange(BitsOf(bytes), 8 * i, 8 * i + 8)
  {
    var left, right := BitsOf(bytes[i := 0]), ClearRange(BitsOf(bytes), 8 * i, 8 * i + 8);
    forall p: nat | p < 8 * |bytes|
      ensures left[p] == right[p]
    {
      ConstantBytes(p % 8);
    }
  }

  function FirstWholeByte(s: nat): nat {
    if s % 8 != 0 then s / 8 + 1 else s / 8
  }

  ghost function ClearHead(bits: seq<bool>, total: nat, s: nat, e: nat): (r: seq<bool>)
    ensures |r| == |bits|
  {
    if s % 8 != 0 then ClearRange(bits, s, Min(Min((s / 8 + 1) * 8, e), total)) else bits
  }

  ghost function ClearTail(bits: seq<bool>, total: nat, e: nat): (r: seq<bool>)
    ensures |r| == |bits|
  {
    if e % 8 != 0 then ClearRange(bits, e / 8 * 8, Min(e, total)) else bits
  }

  /** What the partial first byte, the whole bytes and the partial last byte clear together. */
  lemma ByteLoopsClear(was: seq<bool>, total: nat, s: nat, e: nat)
    requires total <= |was| < total + 8 && |was| % 8 == 0
    ensures ClearTail(ClearRange(ClearHead(was, total, s, e), 8 * FirstWholeByte(s), 8 * (e / 8)), total, e)
         == FreeRegion(was, total, s, e)
  {
    var first := ClearHead(was, total, s, e);
    var second := ClearRange(first, 8 * FirstWholeByte(s), 8 * (e / 8));
    var third := ClearTail(second, total, e);
    assert FirstWholeByte(s) == (s + 7) / 8;
    forall p: nat | p < |was|
      ensures third[p] == FreeRegion(was, total, s, e)[p]
    {
    }
  }

  class PhysicalMemory {
    const bitmap: array<Byte>
    const bitmapAddr: nat
    const totalMemory: nat
    const totalPages: nat

    var usedPages: int

    ghost function Bits(): (bits: seq<bool>)
      reads bitmap
    {
      BitsOf(bitmap[..])
    }

    /** Bits of the last byte that belong to no page. */
    function Padding(): int {
      8 * bitmap.Length - totalPages
    }

    ghost predicate Valid()
      reads this, bitmap
    {
      && totalPages == totalMemory / PAGE_SIZE
      && bitmap.Length == (totalPages + 7) / 8
      && usedPages == Pop(Bits()) - Padding()
    }

    /** Memory is capped at 64 MB, the bitmap starts on the first page past kernel and boot information. */
    constructor (memory: nat, multibootEnd: nat, kernelEnd: nat)
      ensures Valid() && fresh(bitmap)
      ensures totalMemory == if memory > 0x400_0000 then 0x400_0000 else memory
      ensures bitmapAddr % 4096 == 0 && multibootEnd <= bitmapAddr && kernelEnd <= bitmapAddr
      ensures bitmapAddr < multibootEnd + PAGE_SIZE || bitmapAddr < kernelEnd + PAGE_SIZE
      ensures usedPages == totalPages
      ensures forall p :: 0 <= p < |Bits()| ==> Bits()[p]
    {
      var capped: nat := if memory > MAX_MEMORY then MAX_MEMORY else memory;
      var pages := capped / PAGE_SIZE;
      var safe := if multibootEnd > kernelEnd then multibootEnd else kernelEnd;
      totalMemory := capped;
      totalPages := pages;
      bitmapAddr := (safe + PAGE_SIZE - 1) / PAGE_SIZE * PAGE_SIZE;
      bitmap := new Byte[(pages + 7) / 8](_ => 0xFF);
      usedPages := pages;
      new;
      hide BitsOf, Pop;
      FullBytes(bitmap[..]);
    }

    predicate IsPageUsed(page: nat)
      requires page < 8 * bitmap.Length
      reads bitmap
      ensures IsPageUsed(page) == Bits()[page]
    {
      Bit(bitmap[page / 8], page % 8)
    }

    method MarkPage(page: nat)
      requires page < 8 * bitmap.Length
      modifies bitmap
      ensures Bits() == old(Bits())[page := true]
    {
      PageBits(bitmap[..], page);
      ghost var bytes := bitmap[..];
      bitmap[page / 8] := SetBit(bitmap[page / 8], page % 8);
      assert bitmap[..] == bytes[page / 8 := SetBit(bytes[page / 8], page % 8)];
    }

    method ClearPage(page: nat)
      requires page < 8 * bitmap.Length
      modifies bitmap
      ensures Bits() == old(Bits())[page := false]
    {
      PageBits(bitmap[..], page);
      ghost var bytes := bitmap[..];
      bitmap[page / 8] := ClearBit(bitmap[page / 8], page % 8);
      assert bitmap[..] == bytes[page / 8 := ClearBit(bytes[page / 8], page % 8)];
    }

    /** Frees one page if it exists and is in use. */
    method FreeIndex(page: nat)
      requires Valid()
      modifies `usedPages, bitmap
      ensures Valid()
      ensures Bits() == if page < totalPages then old(Bits())[page := false] else old(Bits())
    {
      if page < totalPages && IsPageUsed(page) {
        PopUpdate(Bits(), page, false);
        ClearPage(page);
        usedPages := usedPages - 1;
      }
    }

    method UseIndex(page: nat)
      requires Valid()
      modifies `usedPages, bitmap
      ensures Valid()
      ensures Bits() == if page < totalPages then old(Bits())[page := true] else old(Bits())
    {
      if page < totalPages && !IsPageUsed(page) {
        PopUpdate(Bits(), page, true);
        MarkPage(page);
        usedPages := usedPages + 1;
      }
    }

    /** The page-by-page loop over [from, end). */
    method FreePages(from: nat, end: nat)
      requires Valid()
      modifies `usedPages, bitmap
      ensures Valid()
      ensures Bits() == ClearRange(old(Bits()), from, Min(end, totalPages))
    {
      ghost var was := Bits();
      var page := from;
      ClearRangeSteps(was, from, Min(page, totalPages));
      while page < end
        invariant from <= page && (page <= end || page == from)
        invariant Valid()
        invariant Bits() == ClearRange(was, from, Min(page, totalPages))
        modifies `usedPages, bitmap
        decreases end - page
      {
        ClearRangeSteps(was, from, page);
        FreeIndex(page);
        page := page + 1;
      }
      if end < from {
        ClearRangeSteps(was, from, Min(end, totalPages));
      }
    }

    method FreeByte(byte: nat)
      requires Valid() && byte < bitmap.Length
      modifies `usedPages, bitmap
      ensures Valid()
      ensures Bits() == ClearRange(old(Bits()), 8 * byte, 8 * byte + 8)
    {
      hide Bit, Pop;
      ghost var was := Bits();
      var before := bitmap[byte];
      ghost var bytes := bitmap[..];
      bitmap[byte] := 0;
      assert bitmap[..] == bytes[byte := 0];
      ZeroByte(bytes, byte);
      ClearRangeSteps(was, 8 * byte, 8 * byte);
      var i := 0;
      while i < 8
        invariant 0 <= i <= 8
        invariant usedPages == Pop(ClearRange(was, 8 * byte, 8 * byte + i)) - Padding()
        modifies `usedPages
      {
        PopUpdate(ClearRange(was, 8 * byte, 8 * byte + i), 8 * byte + i, false);
        ClearRangeSteps(was, 8 * byte, 8 * byte + i);
        if Bit(before, i) {
          usedPages := usedPages - 1;
        }
        i := i + 1;
      }
    }

    /** The whole-byte loop: zero the bytes [from, end) that exist, counting down by the bits each one had. */
    method FreeBytes(from: nat, end: nat)
      requires Valid()
      modifies `usedPages, bitmap
      ensures Valid()
      ensures Bits() == ClearRange(old(Bits()), 8 * from, 8 * end)
    {
      hide BitsOf, Pop;
      ghost var was := Bits();
      var byte := from;
      while byte < end && byte < bitmap.Length
        invariant from <= byte <= end || byte == from
        invariant Valid()
        invariant Bits() == ClearRange(was, 8 * from, 8 * byte)
        modifies `usedPages, bitmap
        decreases end - byte
      {
        FreeByte(byte);
        byte := byte + 1;
      }
    }

    /** The partial first byte; returns the first byte the whole-byte loop handles. */
    method FreeHead(startPage: nat, endPage: nat) returns (startByte: nat)
      requires Valid()
      modifies `usedPages, bitmap
      ensures Valid()
      ensures startByte == FirstWholeByte(startPage)
      ensures Bits() == ClearHead(old(Bits()), totalPages, startPage, endPage)
    {
      startByte := startPage / 8;
      if startPage % 8 != 0 {
        FreePages(startPage, Min((startByte + 1) * 8, endPage));
        startByte := startByte + 1;
      }
    }

    /** The partial last byte. */
    method FreeTail(endPage: nat)
      requires Valid()
      modifies `usedPages, bitmap
      ensures Valid()
      ensures Bits() == ClearTail(old(Bits()), totalPages, endPage)
    {
      var endByte := endPage / 8;
      if endPage % 8 != 0 {
        FreePages(endByte * 8, endPage);
      }
    }

    method FreePageRange(startPage: nat, endPage: nat)
      requires Valid()
      modifies `usedPages, bitmap
      ensures Valid()
      ensures Bits() == FreeRegion(old(Bits()), totalPages, startPage, endPage)
    {
      ByteLoopsClear(Bits(), totalPages, startPage, endPage);
      var endByte := endPage / 8;
      var startByte := FreeHead(startPage, endPage);
      FreeBytes(startByte, endByte);
      FreeTail(endPage);
    }

    /** Frees the region's pages, whole bytes at a time where it can. */
    method MarkRegionFree(base: nat, length: nat)
      requires Valid()
      modifies `usedPages, bitmap
      ensures Valid()
      ensures Bits() == FreeRegion(old(Bits()), totalPages, FirstPage(base), EndPage(base, length))
    {
      var startPage := base / PAGE_SIZE;
      var endPage := Add64(base, length) / PAGE_SIZE;
      FreePageRange(startPage, endPage);
    }

    method MarkRegionUsed(base: nat, length: nat)
      requires Valid()
      modifies `usedPages, bitmap
      ensures Valid()
      ensures Bits() == SetRange(old(Bits()), FirstPage(base), Min(EndPageUp(base, length), totalPages))
    {
      hide BitsOf, SetRange, Pop;
      ghost var was := Bits();
      var startPage := base / PAGE_SIZE;
      var endPage := Add64(base, length + PAGE_SIZE - 1) / PAGE_SIZE;
      var page := startPage;
      SetRangeSteps(was, startPage, Min(page, totalPages));
      while page < endPage
        invariant startPage <= page && (page <= endPage || page == startPage)
        invariant Valid()
        invariant Bits() == SetRange(was, startPage, Min(page, totalPages))
        modifies `usedPages, bitmap
        decreases endPage - page
      {
        SetRangeSteps(was, startPage, page);
        UseIndex(page);
        page := page + 1;
      }
      if endPage < startPage {
        SetRangeSteps(was, startPage, Min(endPage, totalPages));
      }
    }

    /** Frees every available memory map entry, then takes back the kernel and the bitmap. */
    method MarkFreeRegions(entries: seq<MmapEntry>, kernelStart: nat)
      requires Valid()
      requires kernelStart <= bitmapAddr
      modifies `usedPages, bitmap
      ensures Valid()
      ensures Bits() == SetRange(FreeEntries(old(Bits()), totalMemory, entries), FirstPage(kernelStart),
                                 Min(EndPageUp(kernelStart, bitmapAddr + bitmap.Length - kernelStart), totalPages))
    {
      hide BitsOf, FreeRegion, SetRange, Pop, EndPageUp, EndPage, FirstPage, CappedLength;
      ghost var was := Bits();
      var i := 0;
      while i < |entries|
        invariant 0 <= i <= |entries|
        invariant Valid()
        invariant Bits() == FreeEntries(was, totalMemory, entries[..i])
        modifies `usedPages, bitmap
      {
        assert entries[..i + 1][..i] == entries[..i];
        var entry := entries[i];
        i := i + 1;
        if entry.kind == AVAILABLE {
          if entry.addr >= totalMemory {
            continue;
          }
          MarkRegionFree(entry.addr, CappedLength(entry, totalMemory));
        }
      }
      assert entries[..i] == entries;
      MarkRegionUsed(kernelStart, bitmapAddr + bitmap.Length - kernelStart);
    }

    method AllocPage() returns (addr: nat)
      requires Valid()
      modifies `usedPages, bitmap
      ensures Valid()
      ensures addr == AllocAddr(old(Bits()), totalPages)
      ensures Bits() == AllocBits(old(Bits()), totalPages)
    {
      var i := 0;
      while i < totalPages
        invariant 0 <= i <= totalPages
        invariant FirstFree(Bits(), totalPages, 0) == FirstFree(Bits(), totalPages, i)
      {
        if !IsPageUsed(i) {
          PopUpdate(Bits(), i, true);
          MarkPage(i);
          usedPages := usedPages + 1;
          return i * PAGE_SIZE;
        }
        i := i + 1;
      }
      return 0;
    }

    method FreePage(addr: nat)
      requires Valid()
      modifies `usedPages, bitmap
      ensures Valid()
      ensures Bits() == FreeBits(old(Bits()), totalPages, addr)
    {
      FreeIndex(addr / PAGE_SIZE);
    }
  }
}
