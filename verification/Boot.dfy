/** The page tables the boot code builds, and the state the memory managers start from. */
module Boot {
  import opened Bits
  import opened PageBitmap
  import opened Pmm
  import PmmProofs
  import opened Options
  import opened Paging
  import opened PagingProofs
  import opened Vmm
  import opened VmmProofs

  const LARGE_WRITE: nat := 0x83
  const APIC_ENTRY: nat := 0xFEE0_0093
  const APIC_INDEX: nat := 503

  /** The four boot tables lie in consecutive frames: PML4, PDPT, PD and the PD of the fourth gigabyte. */
  ghost predicate BootImage(mem: Memory, base: nat) {
    0 < base && base + 4 <= |mem| <= 0x100_0000_0000 && mem[base + 3] == ZeroTable()
  }

  /** What each entry of the boot tables holds after the boot code has run. */
  function BootEntry(base: nat, f: nat, i: nat): nat
    requires base <= f < base + 4
  {
    if f == base then (if i == 0 then (base + 1) * 4096 + 3 else 0)
    else if f == base + 1 then (if i == 0 then (base + 2) * 4096 + 3 else if i == 3 then (base + 3) * 4096 + 3 else 0)
    else if f == base + 2 then i * 0x20_0000 + LARGE_WRITE
    else if i == APIC_INDEX then APIC_ENTRY else 0
  }

  ghost predicate Booted(mem: Memory, base: nat) {
    && 0 < base && base + 4 <= |mem| <= 0x100_0000_0000
    && forall f: nat, i: nat :: base <= f < base + 4 && i < ENTRIES ==> Entry(mem, f, i) == BootEntry(base, f, i)
  }

  /** The boot code: clear three frames, link them, fill the PD with 2 MB pages, link the high PD and map the APIC. */
  method BuildTables(start: Memory, base: nat) returns (mem: Memory)
    requires BootImage(start, base)
    ensures |mem| == |start| && Booted(mem, base)
    ensures forall f :: 0 <= f < |mem| && !(base <= f < base + 4) ==> mem[f] == start[f]
  {
    mem := start;
    var word := 0;
    while word < 3 * ENTRIES
      invariant 0 <= word <= 3 * ENTRIES && |mem| == |start|
      invariant forall f :: 0 <= f < |mem| && !(base <= f < base + 3) ==> mem[f] == start[f]
      invariant forall f: nat, i: nat :: base <= f < base + 3 && i < ENTRIES && (f - base) * ENTRIES + i < word ==> Entry(mem, f, i) == 0
    {
      mem := SetEntry(mem, base + word / ENTRIES, word % ENTRIES, 0);
      word := word + 1;
    }
    assert forall f: nat, i: nat :: base <= f < base + 4 && i < ENTRIES ==> Entry(mem, f, i) == 0;
    mem := SetEntry(mem, base, 0, (base + 1) * 4096 + 3);
    mem := SetEntry(mem, base + 1, 0, (base + 2) * 4096 + 3);
    ghost var linked := mem;
    var eax, k := LARGE_WRITE, 0;
    while k < ENTRIES
      invariant 0 <= k <= ENTRIES && |mem| == |start| && eax == k * 0x20_0000 + LARGE_WRITE
      invariant forall f :: 0 <= f < |mem| && f != base + 2 ==> mem[f] == linked[f]
      invariant forall f: nat, i: nat :: i < ENTRIES && f != base + 2 ==> Entry(mem, f, i) == Entry(linked, f, i)
      invariant forall i: nat :: i < k ==> Entry(mem, base + 2, i) == i * 0x20_0000 + LARGE_WRITE
    {
      mem := SetEntry(mem, base + 2, k, eax);
      eax := eax + 0x20_0000;
      k := k + 1;
    }
    mem := SetEntry(mem, base + 1, 3, (base + 3) * 4096 + 3);
    mem := SetEntry(mem, base + 3, APIC_INDEX, APIC_ENTRY);
    forall f: nat, i: nat | base <= f < base + 4 && i < ENTRIES
      ensures Entry(mem, f, i) == BootEntry(base, f, i)
    {
      assert f != base + 2 ==> Entry(linked, f, i) == if f == base && i == 0 then (base + 1) * 4096 + 3
                                                      else if f == base + 1 && i == 0 then (base + 2) * 4096 + 3 else 0;
    }
  }

  /** The boot tables, whatever is in the slot for the self link. */
  ghost predicate BootTables(mem: Memory, base: nat) {
    && 0 < base && base + 4 <= |mem| <= 0x100_0000_0000
    && forall f: nat, i: nat :: base <= f < base + 4 && i < ENTRIES && !(f == base && i == SELF) ==>
         Entry(mem, f, i) == BootEntry(base, f, i)
  }

  lemma BootedIsBootTables(mem: Memory, base: nat)
    requires Booted(mem, base)
    ensures BootTables(mem, base)
  {
    hide Entry, BootEntry;
  }

  lemma TableEntryNames(f: nat)
    requires f < 0x100_0000_0000
    ensures Link(f * 4096 + 3) && FrameOf(f * 4096 + 3) == f
  {
    DivModUnique(f * 4096 + 3, 4096, f, 3);
    DivModUnique(f * 4096 + 3, 128, f * 32, 3);
    DivModUnique(f * 4096 + 3, 2, f * 2048 + 1, 1);
  }

  lemma LargeBit(e: nat, i: nat)
    requires e == i * 0x20_0000 + LARGE_WRITE
    ensures Large(e)
  {
    assert e / 128 == i * 0x4000 + 1 by {
      DivModUnique(e, 128, i * 0x4000 + 1, 3);
    }
    DivModUnique(i * 0x4000 + 1, 2, i * 0x2000, 1);
  }

  lemma LargeEntryNames(i: nat)
    requires i < ENTRIES
    ensures var e := i * 0x20_0000 + LARGE_WRITE;
            Present(e) && Large(e) && FrameOf(e) == i * 512 && i * 512 / 512 * 512 == i * 512
  {
    var e := i * 0x20_0000 + LARGE_WRITE;
    assert e / 4096 == i * 512 by { DivModUnique(e, 4096, i * 512, 0x83); }
    assert Large(e) by { LargeBit(e, i); }
    assert Present(e) by { DivModUnique(e, 2, i * 0x10_0000 + 65, 1); }
    hide Large, Present;
    DivModUnique(i * 512, 512, i, 0);
  }

  lemma ApicEntryNames()
    ensures Present(APIC_ENTRY) && Large(APIC_ENTRY) && FrameOf(APIC_ENTRY) == 0xFEE00 && 0xFEE00 / 512 * 512 == 0xFEE00
  {
  }

  /** The walk of the boot tables, by indices. */
  function BootTranslation(v: Vaddr): Translation {
    if v.i4 == 0 && v.i3 == 0 then At((v.i2 * 512 + v.i1) * 4096 + v.off)
    else if v.i4 == 0 && v.i3 == 3 && v.i2 == APIC_INDEX then At((0xFEE00 + v.i1) * 4096 + v.off)
    else Fault
  }

  /** In a large boot page: the identity-mapped first gigabyte, or the APIC's 2 MB. */
  predicate BootLarge(v: Vaddr) {
    v.i4 == 0 && (v.i3 == 0 || (v.i3 == 3 && v.i2 == APIC_INDEX))
  }

  lemma BootPath(mem: Memory, base: nat, v: Vaddr)
    requires BootTables(mem, base) && v.Valid() && v.i4 != SELF
    ensures !Present(0)
    ensures v.i4 != 0 ==> Entry(mem, base, v.i4) == 0
    ensures v.i4 == 0 ==> var e4 := Entry(mem, base, 0);
              && Link(e4) && FrameOf(e4) == base + 1
              && (v.i3 != 0 && v.i3 != 3 ==> Entry(mem, base + 1, v.i3) == 0)
              && (v.i3 == 0 ==> Link(Entry(mem, base + 1, 0)) && FrameOf(Entry(mem, base + 1, 0)) == base + 2)
              && (v.i3 == 3 ==> Link(Entry(mem, base + 1, 3)) && FrameOf(Entry(mem, base + 1, 3)) == base + 3)
    ensures var e := Entry(mem, base + 2, v.i2); Present(e) && Large(e) && FrameOf(e) / 512 * 512 == v.i2 * 512
    ensures v.i2 != APIC_INDEX ==> Entry(mem, base + 3, v.i2) == 0
    ensures v.i2 == APIC_INDEX ==>
              var e := Entry(mem, base + 3, v.i2); Present(e) && Large(e) && FrameOf(e) / 512 * 512 == 0xFEE00
  {
    ZeroIsAbsent();
    hide FrameOf, Present, Large, Entry;
    TableEntryNames(base + 1);
    TableEntryNames(base + 2);
    TableEntryNames(base + 3);
    LargeEntryNames(v.i2);
    ApicEntryNames();
  }

  lemma BootWalk(mem: Memory, base: nat, v: Vaddr)
    requires BootTables(mem, base) && v.Valid() && v.i4 != SELF
    ensures Walk(mem, base, v) == BootTranslation(v)
    ensures NoLarge(mem, base, v) <==> !BootLarge(v)
  {
    hide FrameOf, Present, Large, Entry;
    BootPath(mem, base, v);
  }

  /** Going up one level divides by 512; the remainder is the index. */
  lemma SplitStep(va: nat, unit: nat)
    requires unit > 0
    ensures va / (512 * unit) == va / unit / 512
    ensures va == va / unit * unit + va % unit
  {
    var q := va / unit;
    var h, i := q / 512, q % 512;
    assert q * unit == h * (512 * unit) + i * unit by {
      assert q == h * 512 + i;
      assert (h * 512 + i) * unit == h * 512 * unit + i * unit;
    }
    assert i * unit + va % unit < 512 * unit by {
      MulGap(512, i, unit);
    }
    DivModUnique(va, 512 * unit, h, i * unit + va % unit);
  }

  lemma DecodeSum(va: nat)
    ensures var v := Decode(va);
            va % 0x1_0000_0000_0000 == v.i4 * 0x80_0000_0000 + v.i3 * 0x4000_0000 + v.i2 * 0x20_0000 + v.i1 * 4096 + v.off
  {
    var v := Decode(va);
    var q1, q2, q3, q4 := va / 4096, va / 0x20_0000, va / 0x4000_0000, va / 0x80_0000_0000;
    SplitStep(va, 4096);
    SplitStep(va, 0x20_0000);
    SplitStep(va, 0x4000_0000);
    assert va / 0x1_0000_0000_0000 == q4 / 512 by { SplitStep(va, 0x80_0000_0000); }
  }

  /** What the boot tables map: the first gigabyte and the APIC's 2 MB to themselves, and nothing else. */
  lemma BootMapsIdentity(mem: Memory, base: nat, va: nat)
    requires BootTables(mem, base) && Decode(va).i4 != SELF
    ensures var a := va % 0x1_0000_0000_0000;
            Translate(mem, base, va) == if a < 0x4000_0000 || 0xFEE0_0000 <= a < 0xFF00_0000 then At(a) else Fault
  {
    hide Walk, Decode;
    BootWalk(mem, base, Decode(va));
    DecodeSum(va);
  }

  /** The tables of the boot image. */
  function BootTable(base: nat, q: Path): Option<nat> {
    if q == [] then Some(base)
    else if q == [0] then Some(base + 1)
    else if q == [0, 0] then Some(base + 2)
    else if q == [0, 3] then Some(base + 3)
    else None
  }

  lemma BootTableAt(mem: Memory, base: nat, q: Path)
    requires BootTables(mem, base) && TreePath(q)
    ensures TableAt(mem, base, q) == BootTable(base, q)
  {
    hide FrameOf, Present, Large, Entry;
    var a := if |q| > 0 then q[0] else 0;
    var b := if |q| > 1 then q[1] else 0;
    var c := if |q| > 2 then q[2] else 0;
    assert q == [a, b, c][..|q|];
    assert |q| == 0 ==> q == [];
    assert |q| == 1 ==> q == [a];
    assert |q| == 2 ==> q == [a, b];
    assert |q| == 3 ==> q == [a, b, c];
    TableAtLevels(mem, base, a, b, c);
    BootPath(mem, base, Vaddr(a, b, c, 0, 0));
  }

  lemma SelfLinkNames(f: nat)
    requires f < 0x100_0000_0000
    ensures Link(Or(Or(f * 4096, 1), 2)) && FrameOf(Or(Or(f * 4096, 1), 2)) == f
  {
    hide Or, Pow2, Link, FrameOf;
    LowFlags();
    TableEntryNames(f);
    OrOntoField(f, 0, 1, 12);
    OrOntoField(f, 1, 2, 12);
  }

  /** Linking the PML4 to itself keeps the boot tables, and vmm_init can reach it through the identity mapping. */
  lemma SelfLinkOnBoot(mem: Memory, base: nat)
    requires BootTables(mem, base) && base * 4096 + 4096 <= 0x4000_0000
    ensures Translate(mem, base, base * 4096 + 8 * SELF) == At(base * 4096 + 8 * SELF)
    ensures BootTables(SelfLink(mem, base), base) && SelfLinked(SelfLink(mem, base), base)
  {
    hide Translate, Or, Link, FrameOf;
    var va := base * 4096 + 8 * SELF;
    assert Decode(va).i4 == 0;
    BootMapsIdentity(mem, base, va);
    SelfLinkNames(base);
  }

  lemma SelfLinkKeepsOthers(mem: Memory, root: nat)
    requires root < |mem|
    ensures |SelfLink(mem, root)| == |mem|
    ensures forall f :: 0 <= f < |mem| && f != root ==> SelfLink(mem, root)[f] == mem[f]
  {
  }

  lemma BootTablesFit(mem: Memory, base: nat)
    requires BootTables(mem, base)
    ensures base + 4 <= |mem| <= 0x100_0000_0000
  {
  }

  /** A self-linked boot image whose frames are in use is a state the virtual memory manager's theorems start from. */
  lemma BootTree(s: State)
    requires s.total <= |s.bits| && s.total <= |s.mem| && BootTables(s.mem, s.root) && SelfLinked(s.mem, s.root)
    requires forall f :: s.root <= f < s.root + 4 ==> !Free(s.bits, s.total, f)
    ensures Tree(s)
  {
    hide TableAt, SelfLinked, BootTables;
    forall q: Path | TreePath(q) ensures TableAt(s.mem, s.root, q) == BootTable(s.root, q) {
      BootTableAt(s.mem, s.root, q);
    }
    assert |s.mem| <= 0x100_0000_0000 && s.root + 4 <= |s.mem| by { BootTablesFit(s.mem, s.root); }
  }

  /**
   * The kernel starts in a tree state for any memory map: its own tables lie between kernel start and bitmap end,
   * so the allocator never hands them out. Ordinary addresses are those outside the boot code's large pages.
   */
  lemma KernelStarts(mem: Memory, base: nat, memory: nat, entries: seq<MmapEntry>, kernelStart: nat, bitmapEnd: nat, va: nat)
    requires Booted(mem, base) && memory / PAGE_SIZE <= |mem| && base * 4096 + 4096 <= 0x4000_0000
    requires kernelStart <= base * PAGE_SIZE && (base + 4) * PAGE_SIZE <= bitmapEnd < U64 - PAGE_SIZE
    ensures var s := State(SelfLink(mem, base), base, PmmProofs.BootBits(memory, entries, kernelStart, bitmapEnd), memory / PAGE_SIZE);
            && Tree(s)
            && (Ordinary(s, va) <==> Decode(va).i4 != SELF && !BootLarge(Decode(va)))
  {
    hide SelfLinked, Decode, NoLarge, Walk, PmmProofs.BootBits, Tree;
    var s := State(SelfLink(mem, base), base, PmmProofs.BootBits(memory, entries, kernelStart, bitmapEnd), memory / PAGE_SIZE);
    BootedIsBootTables(mem, base);
    SelfLinkOnBoot(mem, base);
    forall f: nat | base <= f < base + 4 ensures !Free(s.bits, s.total, f) {
      if f < memory / PAGE_SIZE {
        PmmProofs.BootFreePages(memory, entries, kernelStart, bitmapEnd, f);
      }
    }
    BootTree(s);
    if Decode(va).i4 != SELF {
      BootWalk(s.mem, base, Decode(va));
    }
  }

  lemma FirstLargePage(mem: Memory, base: nat)
    requires BootTables(mem, base)
    ensures TableAt(mem, base, [0, 0]) == Some(base + 2)
    ensures var e := EntryAt(mem, base, [0, 0], 0); Present(e) && Large(e) && FrameOf(e) == 0
  {
    hide FrameOf, Present, Large, Entry;
    BootTableAt(mem, base, [0, 0]);
    LargeEntryNames(0);
  }

  /** On the boot tables vmm_virt_to_phys is wrong for 0x1000 whenever the second word of physical memory is 0. */
  lemma VirtToPhysMissesIdentityMap(mem: Memory, base: nat)
    requires BootTables(mem, base) && SelfLinked(mem, base) && Entry(mem, 0, 1) == 0
    ensures Translate(mem, base, 0x1000) == At(0x1000)
    ensures VirtToPhys(mem, base, 0x1000) == Some(0)
  {
    hide Walk, VirtToPhys, SelfLinked, FrameOf, Present, Large, Entry;
    assert Decode(0x1000) == Vaddr(0, 0, 0, 1, 0);
    BootMapsIdentity(mem, base, 0x1000);
    BootPath(mem, base, Vaddr(0, 0, 0, 1, 0));
    FirstLargePage(mem, base);
    VirtToPhysInLargePage(mem, base, 0x1000);
  }
}
