/**
 * Mapping and unmapping inside a 2 MB page. Both store one word of the page's first frame, as VirtualMemory.MapPage and
 * UnmapPage state; what that does depends on whether the frame is a page table of the kernel.
 */
module LargePages {
  import opened Bits
  import opened PageBitmap
  import opened Pmm
  import opened PmmProofs
  import opened Options
  import opened Paging
  import opened PagingProofs
  import opened Vmm
  import opened VmmProofs
  import opened VmmMachine
  import opened StoreEffects
  import opened Boot

  /** Memory after mapping (or, with e = 0, unmapping) va inside a 2 MB page. */
  function Stored(s: State, va: nat, e: nat): Memory {
    SetEntry(s.mem, LargeFrame(s.mem, s.root, va), Decode(va).i1, e)
  }

  /** If the page's first frame is no table, every address is translated as before, the mapped one included. */
  lemma MappingInLargePageIsLost(s: State, va: nat, e: nat, u: Vaddr)
    requires Tree(s) && InLargePage(s.mem, s.root, va) && !IsTable(s.mem, s.root, LargeFrame(s.mem, s.root, va))
    requires u.Valid() && u.i4 != SELF
    ensures Walk(SetEntry(s.mem, LargeFrame(s.mem, s.root, va), Decode(va).i1, e), s.root, u) == Walk(s.mem, s.root, u)
  {
    hide Walk, SetEntry, IsTable, LargeFrame, InLargePage, Decode;
    DataStoreKeepsTranslation(s.mem, s.root, LargeFrame(s.mem, s.root, va), Decode(va).i1, e, u);
  }

  /**
   * Mapping or unmapping inside a 2 MB page leaves every translation as it was if and only if the page's first frame is no
   * table, or the word it overwrites led to the same pages as the new one does.
   */
  lemma LargePageStoreIsHarmlessIff(s: State, va: nat, e: nat)
    requires Tree(s) && InLargePage(s.mem, s.root, va)
    ensures SameTranslations(s.mem, Stored(s, va, e), s.root) <==>
            !IsTable(s.mem, s.root, LargeFrame(s.mem, s.root, va)) || Harmless(s, LargeFrame(s.mem, s.root, va), Decode(va).i1, e)
  {
    hide Walk, SetEntry, TableAt, LargeFrame, InLargePage, Decode, SelfLinked, Injective, TablesHeld, Alike, SameTranslations;
    StoreIsHarmlessIff(s, LargeFrame(s.mem, s.root, va), Decode(va).i1, e);
  }

  /** If the frame is the page table of w, the address remapped is w, which is not the one asked for, and no other. */
  lemma LargePageStoreRemaps(s: State, va: nat, e: nat, w: Vaddr, u: Vaddr)
    requires Tree(s) && InLargePage(s.mem, s.root, va) && w.Valid() && w.i4 != SELF && w.i1 == Decode(va).i1
    requires TableAt(s.mem, s.root, LeafPath(w)) == Some(LargeFrame(s.mem, s.root, va))
    requires u.Valid() && u.i4 != SELF
    ensures !SamePage(w, Decode(va))
    ensures Walk(Stored(s, va, e), s.root, u) ==
            if SamePage(u, w) then LeafTranslation(e, u.off) else Walk(s.mem, s.root, u)
  {
    hide Walk, SetEntry, TableAt, EntryAt, LargeFrame, Decode, SelfLinked, Injective, TablesHeld, Present, Large, FrameOf;
    LeafTranslates(s, w, e, u);
    PageTableLinks(s.mem, s.root, w);
  }

  // ---------------------------------------------------------------------------------------------
  // The table case is reached
  // ---------------------------------------------------------------------------------------------

  const FIRST_VA: nat := 0x4000_0000
  const SECOND_VA: nat := 0x20_0000

  lemma TheAddresses()
    ensures Decode(FIRST_VA) == Vaddr(0, 1, 0, 0, 0) && Decode(SECOND_VA) == Vaddr(0, 0, 1, 0, 0)
  {
  }

  lemma AllocTimesKeepsTree(s: State, k: nat)
    requires Tree(s)
    ensures Tree(s.(bits := AllocTimes(s.bits, s.total, k)))
    decreases k
  {
    assert s.total <= |s.bits|;
    hide AllocBits, Tree;
    if k == 0 {
    } else {
      AllocKeepsTree(s);
      AllocTimesKeepsTree(s.(bits := AllocBits(s.bits, s.total)), k - 1);
    }
  }

  /** What the boot tables hold at the places the first mapping looks at. */
  lemma BootStart(s: State)
    requires Tree(s) && BootTables(s.mem, s.root)
    ensures EnsureTable(s, [], 0) == (true, s)
    ensures TableAt(s.mem, s.root, [0]).Some? && !Present(EntryAt(s.mem, s.root, [0], 1))
    ensures TableAt(s.mem, s.root, [0, 1]).None? && TableAt(s.mem, s.root, [0, 1, 0]).None?
    ensures TableAt(s.mem, s.root, [0, 0]) == Some(s.root + 2)
    ensures EntryAt(s.mem, s.root, [0, 0], 1) == 0x20_0000 + LARGE_WRITE
  {
    hide FrameOf, Present, Large, TableAt, SelfLinked, TablesHeld, Injective;
    RootTable(s.mem, s.root);
    BootTableAt(s.mem, s.root, [0]);
    BootTableAt(s.mem, s.root, [0, 0]);
    BootTableAt(s.mem, s.root, [0, 1]);
    BootTableAt(s.mem, s.root, [0, 1, 0]);
    TableEntryNames(s.root + 1);
    ZeroIsAbsent();
  }

  lemma FirstNewTable(s: State, a: nat)
    requires Tree(s) && LowestFree(s.bits, s.total, a) && a != 0
    requires TableAt(s.mem, s.root, [0]).Some? && !Present(EntryAt(s.mem, s.root, [0], 1))
    requires TableAt(s.mem, s.root, [0, 1]).None? && TableAt(s.mem, s.root, [0, 1, 0]).None?
    ensures var (ok, s') := EnsureTable(s, [0], 1);
            && ok && Tree(s') && s'.bits == s.bits[a := true] && s'.root == s.root
            && TableAt(s'.mem, s.root, [0, 1]) == Some(a) && TableAt(s'.mem, s.root, [0, 1, 0]).None?
            && TableAt(s'.mem, s.root, [0, 0]) == TableAt(s.mem, s.root, [0, 0])
            && EntryAt(s'.mem, s.root, [0, 0], 1) == EntryAt(s.mem, s.root, [0, 0], 1)
            && !Present(EntryAt(s'.mem, s.root, [0, 1], 0))
  {
    hide FrameOf, Present, Large, TableAt, SelfLinked, TablesHeld, Injective, LinkTable;
    ZeroIsAbsent();
    EnsureEntries(s, [0], 1, [0, 1], 0);
    AllocationIsLowestFreePage(s.bits, s.total, a);
    EnsureKeepsTree(s, [0], 1);
    EnsureTables(s, [0], 1, [0, 1]);
    EnsureTables(s, [0], 1, [0, 1, 0]);
    EnsureTables(s, [0], 1, [0, 0]);
    EnsureEntries(s, [0], 1, [0, 0], 1);
    assert FirstFree(s.bits, s.total, 0) == a;
  }

  lemma SecondNewTable(s: State, b: nat)
    requires Tree(s) && LowestFree(s.bits, s.total, b) && b != 0
    requires TableAt(s.mem, s.root, [0, 1]).Some? && TableAt(s.mem, s.root, [0, 1, 0]).None?
    requires !Present(EntryAt(s.mem, s.root, [0, 1], 0))
    ensures var (ok, s') := EnsureTable(s, [0, 1], 0);
            && ok && Tree(s') && s'.root == s.root
            && TableAt(s'.mem, s.root, [0, 1, 0]) == Some(b)
            && TableAt(s'.mem, s.root, [0, 0]) == TableAt(s.mem, s.root, [0, 0])
            && EntryAt(s'.mem, s.root, [0, 0], 1) == EntryAt(s.mem, s.root, [0, 0], 1)
  {
    hide FrameOf, Present, Large, TableAt, EntryAt, SelfLinked, TablesHeld, Injective, LinkTable;
    AllocationIsLowestFreePage(s.bits, s.total, b);
    EnsureKeepsTree(s, [0, 1], 0);
    EnsureTables(s, [0, 1], 0, [0, 1, 0]);
    EnsureTables(s, [0, 1], 0, [0, 0]);
    EnsureEntries(s, [0, 1], 0, [0, 0], 1);
    assert FirstFree(s.bits, s.total, 0) == b;
  }

  lemma FirstLeaf(s: State, v: Vaddr, e: nat)
    requires Tree(s) && v == Vaddr(0, 1, 0, 0, 0)
    ensures Tree(SetLeaf(s, v, e))
    ensures TableAt(SetLeaf(s, v, e).mem, s.root, [0, 1, 0]) == TableAt(s.mem, s.root, [0, 1, 0])
    ensures TableAt(SetLeaf(s, v, e).mem, s.root, [0, 0]) == TableAt(s.mem, s.root, [0, 0])
    ensures EntryAt(SetLeaf(s, v, e).mem, s.root, [0, 0], 1) == EntryAt(s.mem, s.root, [0, 0], 1)
  {
    hide TableAt, EntryAt, Tree, SetLeaf;
    LeafKeepsTree(s, v, e);
    LeafKeepsTables(s, v, e, [0, 1, 0]);
    LeafKeepsTables(s, v, e, [0, 0]);
    LeafEntries(s, v, e, [0, 0], 1);
  }

  /** The tables of a boot state after a first mapping just above the identity map: its page table is the second page allocated. */
  lemma FirstMappingsTables(s: State, e: nat, a: nat, b: nat)
    requires Tree(s) && BootTables(s.mem, s.root)
    requires LowestFree(s.bits, s.total, a) && a != 0 && LowestFree(s.bits[a := true], s.total, b)
    ensures var (ok, s') := Map(s, Decode(FIRST_VA), e);
            && ok && Tree(s')
            && TableAt(s'.mem, s.root, [0, 1, 0]) == Some(b)
            && TableAt(s'.mem, s.root, [0, 0]) == Some(s.root + 2)
            && EntryAt(s'.mem, s.root, [0, 0], 1) == 0x20_0000 + LARGE_WRITE
  {
    assert s.total <= |s.bits|;
    hide Decode, TableAt, EntryAt, EnsureTable, BootTables, Tree, SetLeaf;
    TheAddresses();
    var v := Vaddr(0, 1, 0, 0, 0);
    BootStart(s);
    var s3 := EnsureTable(s, [0], 1).1;
    FirstNewTable(s, a);
    var s2 := EnsureTable(s3, [0, 1], 0).1;
    SecondNewTable(s3, b);
    assert EnsurePath(s, v) == (true, s2);
    FirstLeaf(s2, v, e);
  }

  lemma SecondAddressIsLarge(mem: Memory, root: nat)
    requires TableAt(mem, root, [0, 0]).Some? && EntryAt(mem, root, [0, 0], 1) == 0x20_0000 + LARGE_WRITE
    ensures InLargePage(mem, root, SECOND_VA) && LargeFrame(mem, root, SECOND_VA) == 512
  {
    hide Decode, TableAt, EntryAt, Present, Large, FrameOf;
    TheAddresses();
    LargeEntryNames(1);
  }

  /** The second mapping, once frame 512 is the first address's page table. */
  lemma SecondMappingRemaps(s: State, phys: nat, flags: nat, u: Vaddr)
    requires Tree(s) && TableAt(s.mem, s.root, [0, 1, 0]) == Some(512)
    requires InLargePage(s.mem, s.root, SECOND_VA) && LargeFrame(s.mem, s.root, SECOND_VA) == 512
    requires u.Valid() && u.i4 != SELF
    ensures IsTable(s.mem, s.root, 512)
    ensures Walk(Stored(s, SECOND_VA, LeafEntry(phys, flags)), s.root, u) ==
            if SamePage(u, Decode(FIRST_VA)) then Mapped(phys, flags, u.off) else Walk(s.mem, s.root, u)
  {
    hide Decode, Walk, TableAt, Tree, Stored, LeafEntry, Present, FrameOf, Or, InLargePage, LargeFrame;
    TheAddresses();
    var p: Path := [0, 1, 0];
    assert TreePath(p);
    LargePageStoreRemaps(s, SECOND_VA, LeafEntry(phys, flags), Decode(FIRST_VA), u);
    LeafEntryNames(phys, flags);
  }

  /**
   * From a boot state with pages 511 and 512 free, after some number of allocations: map 0x4000_0000, whose page table then
   * is frame 512, and map 0x20_0000, in the identity map. The second call leaves 0x20_0000 as it was and remaps 0x4000_0000.
   */
  lemma IdentityMapOverwritesPageTable(s: State, e: nat, phys: nat, flags: nat, u: Vaddr) returns (k: nat)
    requires Tree(s) && BootTables(s.mem, s.root) && 512 < s.total && !s.bits[511] && !s.bits[512]
    requires u.Valid() && u.i4 != SELF
    ensures var t := s.(bits := AllocTimes(s.bits, s.total, k));
            var (ok, s') := Map(t, Decode(FIRST_VA), e);
            && Tree(t) && ok && Tree(s')
            && InLargePage(s'.mem, s.root, SECOND_VA) && IsTable(s'.mem, s.root, LargeFrame(s'.mem, s.root, SECOND_VA))
            && Walk(Stored(s', SECOND_VA, LeafEntry(phys, flags)), s.root, u) ==
               if SamePage(u, Decode(FIRST_VA)) then Mapped(phys, flags, u.off) else Walk(s'.mem, s.root, u)
  {
    assert s.total <= |s.bits|;
    hide Decode, Walk, Map, TableAt, EntryAt, BootTables, Tree, Stored, LeafEntry, Mapped, InLargePage, LargeFrame, IsTable;
    k := EveryFreePageComesUp(s.bits, s.total, 511);
    var t := s.(bits := AllocTimes(s.bits, s.total, k));
    AllocTimesKeepsTree(s, k);
    assert t.bits[511..][1] == s.bits[511..][1];
    hide AllocTimes, FirstFree;
    FirstMappingsTables(t, e, 511, 512);
    var s' := Map(t, Decode(FIRST_VA), e).1;
    SecondAddressIsLarge(s'.mem, s.root);
    SecondMappingRemaps(s', phys, flags, u);
  }
}
