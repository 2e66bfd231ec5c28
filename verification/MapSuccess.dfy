/** When a mapping succeeds: the page tables it still needs, the pages that are left, and what page 0 has to do with it. */
module MapSuccess {
  import opened Bits
  import opened PageBitmap
  import opened Pmm
  import opened PmmProofs
  import opened Options
  import opened Paging
  import opened PagingProofs
  import opened Vmm
  import opened VmmProofs
  import opened Boot

  /** k tables can be made: none are needed, or page 0 is in use and k pages are left. */
  ghost predicate Affords(bits: seq<bool>, total: nat, k: nat)
    requires total <= |bits|
  {
    k == 0 || (total > 0 && bits[0] && FreeCount(bits, total) >= k)
  }

  /** 1 if the table at a path is not there. */
  function Absent(mem: Memory, root: nat, q: Path): nat
    requires ValidPath(q)
  {
    if TableAt(mem, root, q).None? then 1 else 0
  }

  /** How many of the three tables below the PML4 a mapping of v has to make. */
  function Missing(mem: Memory, root: nat, v: Vaddr): nat
    requires v.Valid()
  {
    Absent(mem, root, [v.i4]) + Absent(mem, root, [v.i4, v.i3]) + Absent(mem, root, LeafPath(v))
  }

  /** Allocating for a table leaves enough for the others. */
  lemma AllocationAffords(bits: seq<bool>, total: nat, k: nat)
    requires total <= |bits| && AllocAddr(bits, total) != 0
    ensures Affords(AllocBits(bits, total), total, k) <==> Affords(bits, total, k + 1)
  {
    hide FreeCount, AllocBits, AllocAddr;
    AllocationTakesOne(bits, total);
  }

  /** The entry one level looks at is not large. */
  predicate Plain(mem: Memory, root: nat, p: Path, i: nat)
    requires ValidPath(p) && i < ENTRIES
  {
    Present(EntryAt(mem, root, p, i)) ==> !Large(EntryAt(mem, root, p, i))
  }

  /** The table below a plain entry is there exactly if the entry is present. */
  lemma PlainEntryLeads(mem: Memory, root: nat, p: Path, i: nat)
    requires ValidPath(p + [i]) && ValidPath(p) && i < ENTRIES && TableAt(mem, root, p).Some? && Plain(mem, root, p, i)
    ensures TableAt(mem, root, p + [i]).Some? <==> Present(EntryAt(mem, root, p, i))
  {
    hide Entry, FrameOf, Present, Large;
    LastStep(mem, root, p + [i]);
    assert (p + [i])[..|p|] == p;
  }

  /** What one level costs, and when it fails. */
  lemma EnsureCost(s: State, p: Path, i: nat, k: nat)
    requires Tree(s) && TreePath(p + [i]) && |p| <= 2
    requires ValidPath(p) && i < ENTRIES && TableAt(s.mem, s.root, p).Some? && Plain(s.mem, s.root, p, i)
    ensures var (ok, s') := EnsureTable(s, p, i);
            var cost := Absent(s.mem, s.root, p + [i]);
            && (ok <==> Affords(s.bits, s.total, cost))
            && (ok ==> (Affords(s'.bits, s.total, k) <==> Affords(s.bits, s.total, k + cost)))
            && (cost == 0 ==> s' == s)
            && (cost == 1 && s.total > 0 && !s.bits[0] ==> s' == s.(bits := s.bits[0 := true]))
  {
    hide TableAt, EntryAt, Present, Large, LinkTable, SelfLinked, TablesHeld, Injective, FreeCount;
    PlainEntryLeads(s.mem, s.root, p, i);
    AllocationTakesOne(s.bits, s.total);
    if AllocAddr(s.bits, s.total) != 0 {
      AllocationAffords(s.bits, s.total, k);
    }
    if s.total > 0 && !s.bits[0] {
      AllocationIsLowestFreePage(s.bits, s.total, 0);
    }
  }

  /** One level on the way to v: its cost, and the tables below it afterwards. */
  lemma LevelCost(s: State, p: Path, i: nat, q: Path, v: Vaddr, k: nat)
    requires Tree(s) && TreePath(q) && q == p + [i] && |p| <= 2 && v.Valid() && v.i4 != SELF
    requires ValidPath(p) && i < ENTRIES && TableAt(s.mem, s.root, p).Some?
    requires NoLarge(s.mem, s.root, v) && q == [v.i4, v.i3, v.i2][..|q|]
    ensures var (ok, s') := EnsureTable(s, p, i);
            var cost := Absent(s.mem, s.root, q);
            && (ok <==> Affords(s.bits, s.total, cost))
            && (ok ==> Tree(s') && NoLarge(s'.mem, s.root, v) && TableAt(s'.mem, s.root, q).Some?)
            && (ok ==> (Affords(s'.bits, s.total, k) <==> Affords(s.bits, s.total, k + cost)))
            && (cost == 0 ==> s' == s)
            && (cost == 1 && s.total > 0 && !s.bits[0] ==> s' == s.(bits := s.bits[0 := true]))
  {
    hide Walk, TableAt, EntryAt, Present, Large, SelfLinked, TablesHeld, Injective, EnsureTable, Affords;
    EnsureLevel(s, p, i, q, v);
    WalkByTables(s.mem, s.root, v);
    assert p == q[..|p|] && i == q[|p|];
    assert |p| == 0 ==> p == [];
    assert |p| == 1 ==> p == [v.i4];
    assert |p| == 2 ==> p == [v.i4, v.i3];
    hide NoLarge;
    EnsureCost(s, p, i, k);
  }

  /** One level makes no other table. */
  lemma OthersStayAbsent(s: State, p: Path, i: nat, r: Path)
    requires Tree(s) && TreePath(p + [i]) && |p| <= 2 && TreePath(r) && r != p + [i]
    requires ValidPath(p) && i < ENTRIES && TableAt(s.mem, s.root, p).Some?
    ensures Absent(EnsureTable(s, p, i).1.mem, s.root, r) == Absent(s.mem, s.root, r)
  {
    hide TableAt, EnsureTable, SelfLinked, TablesHeld, Injective;
    EnsureTables(s, p, i, r);
  }

  /**
   * A mapping succeeds if and only if all its tables are there, or page 0 is in use and there is a page for
   * each table that is missing.
   */
  lemma MapSucceedsIff(s: State, v: Vaddr, e: nat)
    requires Tree(s) && v.Valid() && v.i4 != SELF && NoLarge(s.mem, s.root, v)
    ensures Map(s, v, e).0 <==> Affords(s.bits, s.total, Missing(s.mem, s.root, v))
  {
    hide NoLarge, TableAt, EnsureTable, SelfLinked, TablesHeld, Injective, Absent, FreeCount;
    var m3, m2 := Absent(s.mem, s.root, LeafPath(v)), Absent(s.mem, s.root, [v.i4, v.i3]);
    RootTable(s.mem, s.root);
    LevelCost(s, [], v.i4, [v.i4], v, m2);
    LevelCost(s, [], v.i4, [v.i4], v, m2 + m3);
    var (ok4, s4) := EnsureTable(s, [], v.i4);
    if ok4 {
      OthersStayAbsent(s, [], v.i4, [v.i4, v.i3]);
      OthersStayAbsent(s, [], v.i4, LeafPath(v));
      LevelCost(s4, [v.i4], v.i3, [v.i4, v.i3], v, m3);
      var (ok3, s3) := EnsureTable(s4, [v.i4], v.i3);
      if ok3 {
        OthersStayAbsent(s4, [v.i4], v.i3, LeafPath(v));
        LevelCost(s3, [v.i4, v.i3], v.i2, LeafPath(v), v, 0);
      }
    }
  }

  /**
   * While page 0 is free a mapping that needs a table fails, wherever on the way the table is missing: the allocator's
   * answer 0 reads as out of memory. All that happens is that page 0 is marked used.
   */
  lemma MappingLosesPageZero(s: State, v: Vaddr, e: nat)
    requires Tree(s) && v.Valid() && v.i4 != SELF && NoLarge(s.mem, s.root, v)
    requires TableAt(s.mem, s.root, LeafPath(v)).None? && s.total > 0 && !s.bits[0]
    ensures Map(s, v, e) == (false, s.(bits := s.bits[0 := true]))
  {
    hide NoLarge, TableAt, EnsureTable, SelfLinked, TablesHeld, Injective, FreeCount;
    RootTable(s.mem, s.root);
    LevelCost(s, [], v.i4, [v.i4], v, 0);
    if TableAt(s.mem, s.root, [v.i4]).Some? {
      LevelCost(s, [v.i4], v.i3, [v.i4, v.i3], v, 0);
      if TableAt(s.mem, s.root, [v.i4, v.i3]).Some? {
        LevelCost(s, [v.i4, v.i3], v.i2, LeafPath(v), v, 0);
      }
    }
  }

  /** After such a failure page 0 is out of the way: trying again succeeds exactly if one page was free for each missing table besides it. */
  lemma SecondTrySucceedsIff(s: State, v: Vaddr, e: nat)
    requires Tree(s) && v.Valid() && v.i4 != SELF && NoLarge(s.mem, s.root, v)
    requires TableAt(s.mem, s.root, LeafPath(v)).None? && s.total > 0 && !s.bits[0]
    ensures Map(Map(s, v, e).1, v, e).0 <==> FreeCount(s.bits, s.total) > Missing(s.mem, s.root, v)
  {
    hide NoLarge, TableAt, Map, SelfLinked, TablesHeld, Injective, FreeCount, AllocBits;
    MappingLosesPageZero(s, v, e);
    AllocationIsLowestFreePage(s.bits, s.total, 0);
    AllocKeepsTree(s);
    TakenPageCounts(s.bits, s.total, 0);
    MapSucceedsIff(s.(bits := s.bits[0 := true]), v, e);
  }

  /** Page 0 is free at the start: some map entry frees it, and kernel and bitmap do not reach it. */
  ghost predicate PageZeroStartsFree(memory: nat, entries: seq<MmapEntry>, kernelStart: nat, bitmapEnd: nat) {
    memory >= PAGE_SIZE && SomeEntryFrees(entries, memory, 0) && !Overlaps(0, kernelStart, bitmapEnd)
  }

  /** The tables an ordinary address needs on the boot tables: there is no page table at all yet. */
  lemma BootMissing(mem: Memory, base: nat, v: Vaddr)
    requires BootTables(mem, base) && v.Valid() && v.i4 != SELF && !BootLarge(v)
    ensures Missing(mem, base, v) == if v.i4 != 0 then 3 else if v.i3 != 3 then 2 else 1
  {
    hide BootTables, TableAt;
    BootTableAt(mem, base, [v.i4]);
    BootTableAt(mem, base, [v.i4, v.i3]);
    BootTableAt(mem, base, LeafPath(v));
  }

  /**
   * The first mapping after boot, whatever the memory map and wherever the address: it succeeds exactly if page 0 does not
   * start free and the map leaves a page for each missing table; otherwise, if page 0 starts free, its only effect is to lose it.
   */
  lemma FirstMapping(mem: Memory, base: nat, memory: nat, entries: seq<MmapEntry>, kernelStart: nat, bitmapEnd: nat, va: nat, e: nat)
    requires Booted(mem, base) && memory / PAGE_SIZE <= |mem| && base * 4096 + 4096 <= 0x4000_0000
    requires kernelStart <= base * PAGE_SIZE && (base + 4) * PAGE_SIZE <= bitmapEnd < U64 - PAGE_SIZE
    requires Decode(va).i4 != SELF && !BootLarge(Decode(va))
    ensures var s := State(SelfLink(mem, base), base, BootBits(memory, entries, kernelStart, bitmapEnd), memory / PAGE_SIZE);
            var lost := PageZeroStartsFree(memory, entries, kernelStart, bitmapEnd);
            && (Map(s, Decode(va), e).0 <==> !lost && FreeCount(s.bits, s.total) >= Missing(s.mem, base, Decode(va)))
            && (lost ==> Map(s, Decode(va), e) == (false, s.(bits := s.bits[0 := true])))
  {
    hide Decode, NoLarge, TableAt, Map, BootTables, SelfLinked, Tree, BootBits, FreeCount, SelfLink, SomeEntryFrees, Overlaps;
    var s := State(SelfLink(mem, base), base, BootBits(memory, entries, kernelStart, bitmapEnd), memory / PAGE_SIZE);
    KernelStarts(mem, base, memory, entries, kernelStart, bitmapEnd, va);
    BootedIsBootTables(mem, base);
    SelfLinkOnBoot(mem, base);
    BootMissing(s.mem, base, Decode(va));
    MapSucceedsIff(s, Decode(va), e);
    if memory >= PAGE_SIZE {
      BootFreePages(memory, entries, kernelStart, bitmapEnd, 0);
    }
    if PageZeroStartsFree(memory, entries, kernelStart, bitmapEnd) {
      BootTableAt(s.mem, base, LeafPath(Decode(va)));
      MappingLosesPageZero(s, Decode(va), e);
    }
  }
}
