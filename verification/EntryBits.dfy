/** The words of the page tables bit by bit: what the hardware reads from them, and what the kernel writes. */
module EntryBits {
  import opened Bits
  import opened PageBitmap
  import opened Pmm
  import opened Options
  import opened Paging
  import opened PagingProofs
  import opened Vmm
  import opened VmmProofs
  import opened Boot

  // Bit 0 present, bit 1 writable, bit 2 user, bit 4 cache disabled, bit 7 large, bits 12-51 frame.

  /** The fields the walk takes from an entry. */
  lemma EntryFields(e: nat, k: nat)
    ensures Present(e) <==> Bit(e, 0)
    ensures Large(e) <==> Bit(e, 7)
    ensures Bit(FrameOf(e), k) <==> k < 40 && Bit(e, 12 + k)
  {
    hide Pow2, Low, Shr;
    ShiftValues();
    BitIsDigit(e, 7);
    FrameIsBits(e);
    LowBit(Shr(e, 12), 40, k);
    ShrBit(e, 12, k);
  }

  /** An address inside a page of 512 or 512 * 512 frames, in bytes. */
  lemma InPage(va: nat)
    ensures var v := Decode(va);
            && va % 0x20_0000 == v.i1 * 4096 + v.off
            && va % 0x4000_0000 == v.i2 * 0x20_0000 + v.i1 * 4096 + v.off
  {
    SplitStep(va, 4096);
    SplitStep(va, 0x20_0000);
    var q1, q2 := va / 4096, va / 0x20_0000;
    assert va == q1 * 4096 + va % 4096 && q1 == q2 * 512 + q1 % 512;
    DivModUnique(va, 0x20_0000, q2, q1 % 512 * 4096 + va % 4096);
    var q3 := va / 0x4000_0000;
    assert q2 == q3 * 512 + q2 % 512;
    DivModUnique(va, 0x4000_0000, q3, q2 % 512 * 0x20_0000 + va % 0x20_0000);
  }

  lemma PageBase(f: nat)
    ensures f * 4096 / 0x20_0000 * 0x20_0000 == f / 512 * 512 * 4096
    ensures f * 4096 / 0x4000_0000 * 0x4000_0000 == f / 0x4_0000 * 0x4_0000 * 4096
  {
    DivModUnique(f * 4096, 0x20_0000, f / 512, f % 512 * 4096);
    DivModUnique(f * 4096, 0x4000_0000, f / 0x4_0000, f % 0x4_0000 * 4096);
  }

  lemma DecodeOffset(va: nat)
    ensures Decode(va).off == va % 4096
  {
  }

  /** A page of any of the three sizes is contiguous: its aligned base, and the low 30, 21 or 12 bits of the address. */
  lemma PagesAreContiguous(mem: Memory, root: nat, va: nat)
    ensures var v := Decode(va);
            var e4 := Entry(mem, root, v.i4);
            var e3 := Entry(mem, FrameOf(e4), v.i3);
            var e2 := Entry(mem, FrameOf(e3), v.i2);
            var e1 := Entry(mem, FrameOf(e2), v.i1);
            Link(e4) && Present(e3) ==>
              if Large(e3) then Translate(mem, root, va) == At(FrameOf(e3) * 4096 / 0x4000_0000 * 0x4000_0000 + va % 0x4000_0000)
              else if Present(e2) && Large(e2) then Translate(mem, root, va) == At(FrameOf(e2) * 4096 / 0x20_0000 * 0x20_0000 + va % 0x20_0000)
              else if Present(e2) && Present(e1) then Translate(mem, root, va) == At(FrameOf(e1) * 4096 + va % 4096)
              else Translate(mem, root, va) == Fault
  {
    hide Entry, Present, Large, FrameOf, Decode;
    var v := Decode(va);
    InPage(va);
    assert va % 4096 == v.off by {
      DecodeOffset(va);
    }
    var e3 := Entry(mem, FrameOf(Entry(mem, root, v.i4)), v.i3);
    PageBase(FrameOf(e3));
    PageBase(FrameOf(Entry(mem, FrameOf(e3), v.i2)));
  }

  /** The frame bits of an address are the address with everything else masked out. */
  lemma MaskedBits(phys: nat, k: nat)
    ensures Bit(FrameOf(phys) * 4096, k) <==> 12 <= k < 52 && Bit(phys, k)
  {
    hide Pow2;
    ShiftValues();
    ShlBit(FrameOf(phys), 12, k);
    if k >= 12 {
      EntryFields(phys, k - 12);
    }
  }

  /** The word of a mapped page: the caller's flags bit for bit, with the bits of the address added in 12-51. */
  lemma LeafEntryBits(phys: nat, flags: nat, k: nat)
    ensures Bit(LeafEntry(phys, flags), k) <==> Bit(flags, k) || (12 <= k < 52 && Bit(phys, k))
  {
    hide Or;
    OrBit(FrameOf(phys) * 4096, flags, k);
    MaskedBits(phys, k);
  }

  lemma SmallBits(w: nat, k: nat)
    requires w < 8
    ensures Bit(w, k) <==> (k == 0 && w % 2 == 1) || (k == 1 && w / 2 % 2 == 1) || (k == 2 && w / 4 == 1)
  {
    if k > 2 {
      ZeroBits(k - 3);
    }
  }

  /** A word made of a frame and low bits. */
  lemma FrameWordBits(f: nat, low: nat, k: nat)
    requires low < 8
    ensures Bit(f * 4096 + low, k) <==> Bit(low, k) || (k >= 12 && Bit(f, k - 12))
  {
    hide Or, Pow2;
    ShiftValues();
    OrOfDisjointFields(f, low, 12);
    OrBit(f * 4096, low, k);
    ShlBit(f, 12, k);
  }

  /** The word a new table is linked with: present, writable, user, and the frame; nothing else. */
  lemma TableLinkBits(f: nat, k: nat)
    ensures Bit(TableLink(f * 4096), k) <==> k < 3 || (k >= 12 && Bit(f, k - 12))
  {
    hide TableLink;
    TableLinkSum(f);
    FrameWordBits(f, 7, k);
    SmallBits(7, k);
  }

  /** The self link: present, writable, the PML4's frame, and not user. */
  lemma SelfLinkBits(mem: Memory, root: nat, k: nat)
    requires root < |mem|
    ensures Bit(Entry(SelfLink(mem, root), root, 511), k) <==> k < 2 || (k >= 12 && Bit(root, k - 12))
  {
    LowFlags();
    hide Or, Pow2;
    OrOntoField(root, 0, 1, 12);
    OrOntoField(root, 1, 2, 12);
    FrameWordBits(root, 3, k);
    SmallBits(3, k);
  }

  // ---------------------------------------------------------------------------------------------
  // Mapping and unmapping, word by word
  // ---------------------------------------------------------------------------------------------

  /** Making tables leaves every word that was present as it was. */
  lemma EnsurePathKeepsWord(s: State, v: Vaddr, q: Path, j: nat)
    requires Tree(s) && v.Valid() && v.i4 != SELF && NoLarge(s.mem, s.root, v)
    requires TreePath(q) && j < ENTRIES && Present(EntryAt(s.mem, s.root, q, j))
    ensures EntryAt(EnsurePath(s, v).1.mem, s.root, q, j) == EntryAt(s.mem, s.root, q, j)
  {
    hide Walk, NoLarge, TableAt, EntryAt, EnsureTable, Present, TableLink, SelfLinked, TablesHeld, Injective;
    RootTable(s.mem, s.root);
    EnsureLevel(s, [], v.i4, [v.i4], v);
    EnsureEntries(s, [], v.i4, q, j);
    var (ok4, s4) := EnsureTable(s, [], v.i4);
    if ok4 {
      EnsureLevel(s4, [v.i4], v.i3, [v.i4, v.i3], v);
      EnsureEntries(s4, [v.i4], v.i3, q, j);
      var (ok3, s3) := EnsureTable(s4, [v.i4], v.i3);
      if ok3 {
        EnsureEntries(s3, [v.i4, v.i3], v.i2, q, j);
      }
    }
  }

  /**
   * A successful mapping writes the page's word with exactly the caller's flags and the address's frame bits;
   * every other word that was present, in whichever table, is kept as it was.
   */
  lemma MapWritesEntry(s: State, v: Vaddr, phys: nat, flags: nat, k: nat)
    requires Tree(s) && v.Valid() && v.i4 != SELF && NoLarge(s.mem, s.root, v)
    requires Map(s, v, LeafEntry(phys, flags)).0
    ensures var word := EntryAt(Map(s, v, LeafEntry(phys, flags)).1.mem, s.root, [v.i4, v.i3, v.i2], v.i1);
            Bit(word, k) <==> Bit(flags, k) || (12 <= k < 52 && Bit(phys, k))
  {
    hide Walk, NoLarge, TableAt, EntryAt, EnsurePath, LeafEntry, SelfLinked, TablesHeld, Injective, SetLeaf;
    PathIsMade(s, v);
    LeafEntries(EnsurePath(s, v).1, v, LeafEntry(phys, flags), LeafPath(v), v.i1);
    LeafEntryBits(phys, flags, k);
  }

  lemma MapKeepsWord(s: State, v: Vaddr, e: nat, q: Path, j: nat)
    requires Tree(s) && v.Valid() && v.i4 != SELF && NoLarge(s.mem, s.root, v)
    requires TreePath(q) && j < ENTRIES && Present(EntryAt(s.mem, s.root, q, j)) && !(q == LeafPath(v) && j == v.i1)
    ensures EntryAt(Map(s, v, e).1.mem, s.root, q, j) == EntryAt(s.mem, s.root, q, j)
  {
    hide Walk, NoLarge, TableAt, EntryAt, EnsurePath, Present, SelfLinked, TablesHeld, Injective, SetLeaf;
    PathIsMade(s, v);
    EnsurePathKeepsWord(s, v, q, j);
    LeafEntries(EnsurePath(s, v).1, v, e, q, j);
  }

  /** Unmapping writes 0 to the page's word and touches no other. */
  lemma UnmapWritesEntry(s: State, v: Vaddr, q: Path, j: nat)
    requires Tree(s) && v.Valid() && v.i4 != SELF && TreePath(q) && j < ENTRIES
    ensures EntryAt(Unmap(s, v).mem, s.root, q, j) ==
            if q == [v.i4, v.i3, v.i2] && j == v.i1 then 0 else EntryAt(s.mem, s.root, q, j)
  {
    hide TableAt, SelfLinked, TablesHeld, Injective, SetLeaf;
    LeafEntries(s, v, 0, q, j);
  }

  // ---------------------------------------------------------------------------------------------
  // The boot tables
  // ---------------------------------------------------------------------------------------------

  /** The words the boot code leaves: links present and writable, 2 MB pages present, writable and large, and the APIC's not cached. */
  lemma BootWords(mem: Memory, base: nat, i: nat)
    requires Booted(mem, base) && i < 512
    ensures mem[base][i] == if i == 0 then (base + 1) * 4096 + 3 else 0
    ensures mem[base + 1][i] == if i == 0 then (base + 2) * 4096 + 3 else if i == 3 then (base + 3) * 4096 + 3 else 0
    ensures mem[base + 2][i] == i * 0x20_0000 + 0x83
    ensures mem[base + 3][i] == if i == 503 then 0xFEE0_0093 else 0
  {
    assert Entry(mem, base, i) == BootEntry(base, base, i);
    assert Entry(mem, base + 1, i) == BootEntry(base, base + 1, i);
    assert Entry(mem, base + 2, i) == BootEntry(base, base + 2, i);
    assert Entry(mem, base + 3, i) == BootEntry(base, base + 3, i);
  }

  lemma ByteShift()
    ensures Pow2(8) == 256 && Pow2(7) == 128 && Pow2(4) == 16 && Pow2(2) == 4 && Pow2(1) == 2 && Pow2(0) == 1
  {
    BitInByte(7);
  }

  lemma ByteOfWord(w: nat, high: nat, low: nat)
    requires w == high * 256 + low && low < 256
    ensures forall k: nat :: k < 8 ==> Bit(w, k) == Bit(low, k)
    ensures low == 0x83 ==> Bit(low, 0) && Bit(low, 1) && !Bit(low, 2) && !Bit(low, 4) && Bit(low, 7)
    ensures low == 0x93 ==> Bit(low, 0) && Bit(low, 1) && !Bit(low, 2) && Bit(low, 4) && Bit(low, 7)
  {
    hide Or, Pow2;
    ByteShift();
    OrOfDisjointFields(high, low, 8);
    forall k: nat | k < 8 ensures Bit(w, k) == Bit(low, k) {
      OrBit(high * 256, low, k);
      ShlBit(high, 8, k);
    }
    BitIsDigit(low, 0);
    BitIsDigit(low, 1);
    BitIsDigit(low, 2);
    BitIsDigit(low, 4);
    BitIsDigit(low, 7);
  }

  /** The attributes of the two kinds of large boot page: write is allowed in both, only the APIC's disables the cache. */
  lemma BootAttributes(i: nat)
    requires i < 512
    ensures var e := i * 0x20_0000 + 0x83; Bit(e, 0) && Bit(e, 1) && !Bit(e, 2) && !Bit(e, 4) && Bit(e, 7)
    ensures var e := 0xFEE0_0093; Bit(e, 0) && Bit(e, 1) && !Bit(e, 2) && Bit(e, 4) && Bit(e, 7)
  {
    ByteOfWord(i * 0x20_0000 + 0x83, i * 0x2000, 0x83);
    ByteOfWord(0xFEE0_0093, 0xFE_E000, 0x93);
  }
}
