/** What translating, mapping and unmapping do to the hardware's translation. */
module VmmProofs {
  import opened Bits
  import opened PageBitmap
  import opened Pmm
  import opened Options
  import opened Paging
  import opened PagingProofs
  import opened Vmm

  // ---------------------------------------------------------------------------------------------
  // Translating
  // ---------------------------------------------------------------------------------------------

  lemma RootTable(mem: Memory, root: nat)
    ensures TableAt(mem, root, []) == Some(root)
  {
  }

  /** The reads of vmm_virt_to_phys, one level after the other, as long as the tables are there. */
  lemma UpperWindowReads(mem: Memory, root: nat, v: Vaddr)
    requires v.Valid() && SelfLinked(mem, root)
    ensures Load(mem, root, Pml4Window() + 8 * v.i4) == Some(EntryAt(mem, root, [], v.i4))
    ensures TableAt(mem, root, [v.i4]).Some? ==>
              Load(mem, root, PdptWindow(v.i4) + 8 * v.i3) == Some(EntryAt(mem, root, [v.i4], v.i3))
  {
    hide Load, Store, EntryAt, SetEntry, TableAt, Pml4Window, PdptWindow, PdWindow, PtWindow;
    assert TableAt(mem, root, []).Some? by { RootTable(mem, root); }
    WindowAccess(mem, root, [], v.i4, 0);
    if TableAt(mem, root, [v.i4]).Some? {
      WindowAccess(mem, root, [v.i4], v.i3, 0);
    }
  }

  lemma LowerWindowReads(mem: Memory, root: nat, v: Vaddr)
    requires v.Valid() && SelfLinked(mem, root)
    ensures TableAt(mem, root, [v.i4, v.i3]).Some? ==>
              Load(mem, root, PdWindow(v.i4, v.i3) + 8 * v.i2) == Some(EntryAt(mem, root, [v.i4, v.i3], v.i2))
    ensures TableAt(mem, root, [v.i4, v.i3, v.i2]).Some? ==>
              Load(mem, root, PtWindow(v.i4, v.i3, v.i2) + 8 * v.i1) == Some(EntryAt(mem, root, [v.i4, v.i3, v.i2], v.i1))
  {
    hide Load, Store, EntryAt, SetEntry, TableAt, Pml4Window, PdptWindow, PdWindow, PtWindow;
    if TableAt(mem, root, [v.i4, v.i3]).Some? {
      WindowAccess(mem, root, [v.i4, v.i3], v.i2, 0);
    }
    if TableAt(mem, root, [v.i4, v.i3, v.i2]).Some? {
      WindowAccess(mem, root, [v.i4, v.i3, v.i2], v.i1, 0);
    }
  }

  /** The address vmm_virt_to_phys should give: 0 for a page that is not mapped. */
  function Expected(t: Translation): nat {
    match t
    case Fault => 0
    case At(phys) => phys
  }

  /** With no large entry on the way vmm_virt_to_phys never faults and gives the hardware's translation. */
  lemma VirtToPhysIsTheWalk(mem: Memory, root: nat, va: nat)
    requires SelfLinked(mem, root) && NoLarge(mem, root, Decode(va))
    ensures VirtToPhys(mem, root, va) == Some(Expected(Translate(mem, root, va)))
  {
    hide Load, Decode, Entry, FrameOf, Present, Large, NoLarge, Pml4Window, PdptWindow, PdWindow, PtWindow;
    var v := Decode(va);
    UpperWindowReads(mem, root, v);
    LowerWindowReads(mem, root, v);
    WalkByTables(mem, root, v);
    TableAtLevels(mem, root, v.i4, v.i3, v.i2);
  }

  lemma LargeWindowRead(mem: Memory, root: nat, p: Path, i: nat)
    requires SelfLinked(mem, root) && ValidPath(p) && |p| == 3 && i < ENTRIES
    requires TableAt(mem, root, p[..2]).Some? && Present(EntryAt(mem, root, p[..2], p[2]))
    ensures Load(mem, root, PtWindow(p[0], p[1], p[2]) + 8 * i) == Some(Entry(mem, FrameOf(EntryAt(mem, root, p[..2], p[2])), i))
  {
    hide Translate, Pml4Window, PdptWindow, PdWindow, PtWindow, Entry, FrameOf, Present, TableAt, EntryAt, SelfLinked;
    WindowReachesLastEntry(mem, root, p, i);
    WordAt(FrameOf(EntryAt(mem, root, p[..2], p[2])), i);
  }

  /** Inside a 2 MB page it instead takes word i1 of the page's first frame for a page table entry. */
  lemma VirtToPhysInLargePage(mem: Memory, root: nat, va: nat)
    requires SelfLinked(mem, root)
    requires TableAt(mem, root, [Decode(va).i4, Decode(va).i3]).Some?
    requires var e2 := EntryAt(mem, root, [Decode(va).i4, Decode(va).i3], Decode(va).i2); Present(e2) && Large(e2)
    ensures var v := Decode(va);
            var e2 := EntryAt(mem, root, [v.i4, v.i3], v.i2);
            var data := Entry(mem, FrameOf(e2), v.i1);
            && Translate(mem, root, va) == At((FrameOf(e2) / 512 * 512 + v.i1) * 4096 + v.off)
            && VirtToPhys(mem, root, va) == Some(if Present(data) then FrameOf(data) * 4096 + v.off else 0)
            && (VirtToPhys(mem, root, va) == Some(Expected(Translate(mem, root, va))) <==>
                if Present(data) then FrameOf(data) == FrameOf(e2) / 512 * 512 + v.i1
                else FrameOf(e2) / 512 * 512 + v.i1 == 0 && v.off == 0)
  {
    hide Decode, Entry, FrameOf, Present, Large, NoLarge, Pml4Window, PdptWindow, PdWindow, PtWindow;
    var v := Decode(va);
    UpperWindowReads(mem, root, v);
    LowerWindowReads(mem, root, v);
    WalkByTables(mem, root, v);
    TableAtLevels(mem, root, v.i4, v.i3, v.i2);
    var p := [v.i4, v.i3, v.i2];
    assert p[..2] == [v.i4, v.i3];
    LargeWindowRead(mem, root, p, v.i1);
  }

  lemma LargeWindowWrite(mem: Memory, root: nat, p: Path, i: nat, w: nat)
    requires SelfLinked(mem, root) && ValidPath(p) && |p| == 3 && i < ENTRIES
    requires TableAt(mem, root, p[..2]).Some? && Present(EntryAt(mem, root, p[..2], p[2]))
    ensures Store(mem, root, PtWindow(p[0], p[1], p[2]) + 8 * i, w)
         == Some(SetEntry(mem, FrameOf(EntryAt(mem, root, p[..2], p[2])), i, w))
  {
    hide Translate, Pml4Window, PdptWindow, PdWindow, PtWindow, SetEntry, FrameOf, Present, TableAt, EntryAt, SelfLinked;
    WindowReachesLastEntry(mem, root, p, i);
    WordAt(FrameOf(EntryAt(mem, root, p[..2], p[2])), i);
  }

  // ---------------------------------------------------------------------------------------------
  // Entries the manager writes
  // ---------------------------------------------------------------------------------------------

  lemma LowFlags()
    ensures Or(0, 1) == 1 && Or(1, 2) == 3 && Or(3, 4) == 7 && Pow2(12) == 4096
  {
    ShiftValues();
  }

  lemma TableLinkSum(f: nat)
    ensures TableLink(f * PAGE_SIZE) == f * 4096 + 7
  {
    LowFlags();
    hide Or, Pow2;
    OrOntoField(f, 0, 1, 12);
    OrOntoField(f, 1, 2, 12);
    OrOntoField(f, 3, 4, 12);
  }

  /** The entry of a new table is present, not large, and names the table's frame. */
  lemma TableLinkNames(f: nat)
    requires f < 0x100_0000_0000
    ensures Link(TableLink(f * PAGE_SIZE)) && FrameOf(TableLink(f * PAGE_SIZE)) == f
  {
    hide TableLink;
    TableLinkSum(f);
    DivModUnique(f * 4096 + 7, 4096, f, 7);
    DivModUnique(f * 4096 + 7, 128, f * 32, 7);
    DivModUnique(f * 4096 + 7, 2, f * 2048 + 3, 1);
  }

  lemma FrameIsBits(e: nat)
    ensures FrameOf(e) == Low(Shr(e, 12), 40)
  {
    hide Low, Shr;
    ShiftValues();
    ShrAndLow(e, 12);
    ShrAndLow(Shr(e, 12), 40);
  }

  lemma FrameOfOr(a: nat, b: nat)
    ensures FrameOf(Or(a, b)) == Or(FrameOf(a), FrameOf(b))
  {
    hide Or;
    OrShr(a, b, 12);
    OrLow(Shr(a, 12), Shr(b, 12), 40);
    FrameIsBits(a);
    FrameIsBits(b);
    FrameIsBits(Or(a, b));
  }

  /** A leaf is present exactly if its flags say so; its frame is that of the address `|` any frame bits in the flags. */
  lemma LeafEntryNames(phys: nat, flags: nat)
    ensures Present(LeafEntry(phys, flags)) <==> Present(flags)
    ensures FrameOf(LeafEntry(phys, flags)) == Or(FrameOf(phys), FrameOf(flags))
  {
    var frame := FrameOf(phys);
    OrHalves(frame * 4096, flags);
    FrameOfOr(frame * 4096, flags);
    assert FrameOf(frame * 4096) == frame;
  }

  // ---------------------------------------------------------------------------------------------
  // Linking a new table
  // ---------------------------------------------------------------------------------------------

  lemma LinkedEntries(mem: Memory, parent: nat, i: nat, f: nat, g: nat, j: nat)
    requires i < ENTRIES && j < ENTRIES && f < |mem| && parent < |mem| && parent != f
    ensures Entry(LinkTable(mem, parent, i, f), g, j) ==
            if g == f then 0 else if g == parent && j == i then TableLink(f * PAGE_SIZE) else Entry(mem, g, j)
  {
    hide TableLink;
  }

  ghost predicate Fresh(mem: Memory, root: nat, f: nat) {
    f < |mem| <= 0x100_0000_0000 && !IsTable(mem, root, f)
  }

  lemma NotFresh(mem: Memory, root: nat, p: Path, f: nat)
    requires TreePath(p) && !IsTable(mem, root, f)
    ensures TableAt(mem, root, p) != Some(f)
  {
  }

  lemma AbsentHasNoTable(mem: Memory, root: nat, p: Path, i: nat)
    requires ValidPath(p + [i]) && ValidPath(p) && i < ENTRIES && !Link(EntryAt(mem, root, p, i))
    ensures TableAt(mem, root, p + [i]).None?
  {
    hide Link, FrameOf, Entry;
    assert (p + [i])[..|p|] == p;
  }

  lemma LinkBelow(mem: Memory, root: nat, p: Path, i: nat, f: nat, q: Path)
    requires TreePath(p + [i]) && TreePath(p) && |p| <= 2 && TreePath(q) && q != [] && q[..|q| - 1] == p + [i] && i < ENTRIES
    requires Fresh(mem, root, f) && TableAt(mem, root, p).Some? && TableAt(mem, root, p).value < |mem|
    requires !Present(EntryAt(mem, root, p, i))
    requires TableAt(LinkTable(mem, TableAt(mem, root, p).value, i, f), root, p + [i]) == Some(f)
    ensures TableAt(LinkTable(mem, TableAt(mem, root, p).value, i, f), root, q) == None == TableAt(mem, root, q)
  {
    hide FrameOf, Present, Large, LinkTable, Entry, TableLink, IsTable, EntryAt;
    NotFresh(mem, root, p, f);
    LinkedEntries(mem, TableAt(mem, root, p).value, i, f, f, q[|q| - 1]);
    ZeroIsAbsent();
    AbsentHasNoTable(mem, root, p, i);
  }

  lemma LastStep(mem: Memory, root: nat, q: Path)
    requires ValidPath(q) && q != []
    ensures TableAt(mem, root, q) ==
            match TableAt(mem, root, q[..|q| - 1])
            case None => None
            case Some(g) => if Link(Entry(mem, g, q[|q| - 1])) then Some(FrameOf(Entry(mem, g, q[|q| - 1]))) else None
  {
    hide FrameOf, Present, Large, Entry;
  }

  lemma SameTable(mem: Memory, root: nat, p: Path, q: Path)
    requires Injective(mem, root) && TreePath(p) && TreePath(q)
    requires TableAt(mem, root, p).Some? && TableAt(mem, root, q).Some?
    ensures TableAt(mem, root, p) == TableAt(mem, root, q) <==> p == q
  {
    hide TableAt;
  }

  lemma LinkElsewhere(mem: Memory, root: nat, p: Path, i: nat, f: nat, q: Path)
    requires TreePath(p + [i]) && TreePath(p) && |p| <= 2 && TreePath(q) && q != [] && q[..|q| - 1] != p + [i] && i < ENTRIES
    requires TreePath(q[..|q| - 1]) && Injective(mem, root)
    requires Fresh(mem, root, f) && TableAt(mem, root, p).Some? && TableAt(mem, root, p).value < |mem|
    requires !Present(EntryAt(mem, root, p, i))
    requires TableAt(LinkTable(mem, TableAt(mem, root, p).value, i, f), root, q[..|q| - 1]) == TableAt(mem, root, q[..|q| - 1])
    ensures TableAt(LinkTable(mem, TableAt(mem, root, p).value, i, f), root, q) ==
            if q == p + [i] then Some(f) else TableAt(mem, root, q)
  {
    hide FrameOf, Present, Large, LinkTable, Entry, TableLink, IsTable, TableAt, Injective;
    var up, j := q[..|q| - 1], q[|q| - 1];
    var parent := TableAt(mem, root, p).value;
    LastStep(mem, root, q);
    LastStep(LinkTable(mem, parent, i, f), root, q);
    assert q == up + [j];
    assert q == p + [i] <==> up == p && j == i;
    NotFresh(mem, root, p, f);
    NotFresh(mem, root, up, f);
    if TableAt(mem, root, up).Some? {
      var g := TableAt(mem, root, up).value;
      SameTable(mem, root, up, p);
      TableLinkNames(f);
      LinkedEntries(mem, parent, i, f, g, j);
    }
  }

  /** Linking a fresh zeroed frame at an entry that was not present adds exactly that table to the tree. */
  lemma {:induction false} LinkAddsOneTable(mem: Memory, root: nat, p: Path, i: nat, f: nat, q: Path)
    requires TreePath(p + [i]) && |p| <= 2 && TreePath(q)
    requires Injective(mem, root) && Fresh(mem, root, f)
    requires TableAt(mem, root, p).Some? && TableAt(mem, root, p).value < |mem| && !Present(EntryAt(mem, root, p, i))
    ensures TreePath(p)
    ensures TableAt(LinkTable(mem, TableAt(mem, root, p).value, i, f), root, q) ==
            if q == p + [i] then Some(f) else TableAt(mem, root, q)
    decreases |q|
  {
    hide FrameOf, Present, Large, LinkTable, Entry, TableLink, IsTable;
    assert TreePath(p) by { assert p != [] ==> (p + [i])[0] == p[0]; }
    if q == [] {
    } else {
      var up := q[..|q| - 1];
      assert TreePath(up);
      LinkAddsOneTable(mem, root, p, i, f, up);
      if up == p + [i] {
        LinkBelow(mem, root, p, i, f, q);
      } else {
        LinkElsewhere(mem, root, p, i, f, q);
      }
    }
  }

  /** A table is missing at entry i of p, and there is a page for it. */
  ghost predicate Creates(s: State, p: Path, i: nat)
    requires ValidPath(p) && i < ENTRIES && s.total <= |s.bits|
  {
    !Present(EntryAt(s.mem, s.root, p, i)) && AllocAddr(s.bits, s.total) != 0
  }

  lemma RootIsTable(mem: Memory, root: nat)
    ensures IsTable(mem, root, root)
  {
    assert TableAt(mem, root, []) == Some(root);
  }

  lemma NewFrameIsFresh(s: State)
    requires Tree(s) && AllocAddr(s.bits, s.total) != 0
    ensures var f := FirstFree(s.bits, s.total, 0);
            Free(s.bits, s.total, f) && f != 0 && Fresh(s.mem, s.root, f) && s.root != f
  {
    hide TableAt, SelfLinked;
    RootIsTable(s.mem, s.root);
  }

  lemma TreePrefix(p: Path, i: nat)
    requires TreePath(p + [i])
    ensures TreePath(p) && i < ENTRIES
  {
    assert (p + [i])[..|p|] == p;
    assert (p + [i])[|p|] == i;
    assert p != [] ==> (p + [i])[0] == p[0];
  }

  /** The tables after EnsureTable: as before, with the new one if it creates one. */
  lemma EnsureTables(s: State, p: Path, i: nat, q: Path)
    requires Tree(s) && TreePath(p + [i]) && |p| <= 2 && TreePath(q)
    requires ValidPath(p) && i < ENTRIES && TableAt(s.mem, s.root, p).Some?
    ensures TableAt(EnsureTable(s, p, i).1.mem, s.root, q) ==
            if Creates(s, p, i) && q == p + [i] then Some(FirstFree(s.bits, s.total, 0)) else TableAt(s.mem, s.root, q)
  {
    hide TableAt, EntryAt, SelfLinked, Injective, LinkTable, Fresh;
    TreePrefix(p, i);
    if Creates(s, p, i) {
      NewFrameIsFresh(s);
      LinkAddsOneTable(s.mem, s.root, p, i, FirstFree(s.bits, s.total, 0), q);
    }
  }

  /** The entries after EnsureTable: as before, with the new link if it creates a table. */
  lemma EnsureEntries(s: State, p: Path, i: nat, q: Path, j: nat)
    requires Tree(s) && TreePath(p + [i]) && |p| <= 2 && TreePath(q) && j < ENTRIES
    requires ValidPath(p) && i < ENTRIES && TableAt(s.mem, s.root, p).Some?
    ensures EntryAt(EnsureTable(s, p, i).1.mem, s.root, q, j) ==
            if Creates(s, p, i) && q == p && j == i then TableLink(FirstFree(s.bits, s.total, 0) * PAGE_SIZE)
            else EntryAt(s.mem, s.root, q, j)
  {
    hide TableAt, SelfLinked, Entry, FrameOf, Present, Large, LinkTable, TableLink, IsTable;
    EnsureTables(s, p, i, q);
    if Creates(s, p, i) {
      var f := FirstFree(s.bits, s.total, 0);
      NewFrameIsFresh(s);
      TreePrefix(p, i);
      var parent := TableAt(s.mem, s.root, p).value;
      NotFresh(s.mem, s.root, p, f);
      NotFresh(s.mem, s.root, q, f);
      LinkedEntries(s.mem, parent, i, f, f, j);
      if q == p + [i] {
        AbsentHasNoTable(s.mem, s.root, p, i);
      } else if TableAt(s.mem, s.root, q).Some? {
        LinkedEntries(s.mem, parent, i, f, TableAt(s.mem, s.root, q).value, j);
      }
    }
  }

  lemma EnsureKeepsSelfLink(s: State, p: Path, i: nat)
    requires Tree(s) && TreePath(p + [i]) && |p| <= 2
    requires ValidPath(p) && i < ENTRIES && TableAt(s.mem, s.root, p).Some?
    ensures SelfLinked(EnsureTable(s, p, i).1.mem, s.root)
  {
    hide FrameOf, Present, Large, TableAt, LinkTable, TableLink, IsTable;
    if Creates(s, p, i) {
      NewFrameIsFresh(s);
      var f := FirstFree(s.bits, s.total, 0);
      NotFresh(s.mem, s.root, p, f);
      TreePrefix(p, i);
      LinkedEntries(s.mem, TableAt(s.mem, s.root, p).value, i, f, s.root, SELF);
      RootTable(s.mem, s.root);
      if p == [] {
        assert (p + [i])[0] == i;
      }
    }
  }

  /** Making sure of a table keeps the tree, takes pages only from the allocator, and frees none. */
  lemma EnsureKeepsTree(s: State, p: Path, i: nat)
    requires Tree(s) && TreePath(p + [i]) && |p| <= 2
    requires ValidPath(p) && i < ENTRIES && TableAt(s.mem, s.root, p).Some?
    ensures Tree(EnsureTable(s, p, i).1)
    ensures forall f :: Free(EnsureTable(s, p, i).1.bits, s.total, f) ==> Free(s.bits, s.total, f)
  {
    hide TableAt, EntryAt, LinkTable, SelfLinked, IsTable;
    var s' := EnsureTable(s, p, i).1;
    forall q: Path | TreePath(q)
      ensures TableAt(s'.mem, s.root, q) ==
              if Creates(s, p, i) && q == p + [i] then Some(FirstFree(s.bits, s.total, 0)) else TableAt(s.mem, s.root, q)
    {
      EnsureTables(s, p, i, q);
    }
    if Creates(s, p, i) {
      var f := FirstFree(s.bits, s.total, 0);
      NewFrameIsFresh(s);
      forall q: Path | TreePath(q) ensures TableAt(s.mem, s.root, q) != Some(f) {
        NotFresh(s.mem, s.root, q, f);
      }
    }
    EnsureKeepsSelfLink(s, p, i);
  }

  /** When it succeeds the entry is present; it is a link unless it was a large entry before. */
  lemma EnsureMakesLink(s: State, p: Path, i: nat)
    requires Tree(s) && TreePath(p + [i]) && |p| <= 2
    requires ValidPath(p) && i < ENTRIES && TableAt(s.mem, s.root, p).Some?
    requires EnsureTable(s, p, i).0
    requires Present(EntryAt(s.mem, s.root, p, i)) ==> !Large(EntryAt(s.mem, s.root, p, i))
    ensures TableAt(EnsureTable(s, p, i).1.mem, s.root, p + [i]).Some?
  {
    hide Entry, TableAt, LinkTable, SelfLinked, IsTable, Injective, TablesHeld, FrameOf, Present, Large;
    EnsureTables(s, p, i, p + [i]);
    assert (p + [i])[..|p|] == p;
    LastStep(s.mem, s.root, p + [i]);
  }

  /** Below an entry that is not a link every entry counts as 0. */
  lemma MissingTableEntries(mem: Memory, root: nat, v: Vaddr)
    requires v.Valid()
    ensures !Link(EntryAt(mem, root, [], v.i4)) ==> EntryAt(mem, root, [v.i4], v.i3) == 0
    ensures !Link(EntryAt(mem, root, [v.i4], v.i3)) ==> EntryAt(mem, root, [v.i4, v.i3], v.i2) == 0
    ensures !Link(EntryAt(mem, root, [v.i4, v.i3], v.i2)) ==> EntryAt(mem, root, [v.i4, v.i3, v.i2], v.i1) == 0
  {
    hide Entry, FrameOf, Present, Large;
    TableAtLevels(mem, root, v.i4, v.i3, v.i2);
    ZeroIsAbsent();
  }

  /** Linking an empty table changes no translation outside the self link's slot. */
  lemma EnsureKeepsTranslation(s: State, p: Path, i: nat, v: Vaddr)
    requires Tree(s) && TreePath(p + [i]) && |p| <= 2
    requires ValidPath(p) && i < ENTRIES && TableAt(s.mem, s.root, p).Some?
    requires v.Valid() && v.i4 != SELF
    ensures Walk(EnsureTable(s, p, i).1.mem, s.root, v) == Walk(s.mem, s.root, v)
    ensures NoLarge(s.mem, s.root, v) ==> NoLarge(EnsureTable(s, p, i).1.mem, s.root, v)
  {
    hide Walk, NoLarge, TableAt, EntryAt, SelfLinked, FrameOf, Present, Large, TableLink, IsTable, Injective, EnsureTable, TablesHeld;
    var m, m' := s.mem, EnsureTable(s, p, i).1.mem;
    WalkByTables(m, s.root, v);
    WalkByTables(m', s.root, v);
    EnsureEntries(s, p, i, [], v.i4);
    EnsureEntries(s, p, i, [v.i4], v.i3);
    EnsureEntries(s, p, i, [v.i4, v.i3], v.i2);
    EnsureEntries(s, p, i, [v.i4, v.i3, v.i2], v.i1);
    if Creates(s, p, i) {
      NewFrameIsFresh(s);
      TableLinkNames(FirstFree(s.bits, s.total, 0));
      MissingTableEntries(m, s.root, v);
      ZeroIsAbsent();
    }
  }

  // ---------------------------------------------------------------------------------------------
  // Setting a leaf
  // ---------------------------------------------------------------------------------------------

  function LeafPath(v: Vaddr): (p: Path)
    requires v.Valid()
    ensures ValidPath(p) && p == [v.i4, v.i3, v.i2]
  {
    [v.i4, v.i3, v.i2]
  }

  /** Writing a leaf moves no table. */
  lemma {:induction false} LeafKeepsTables(s: State, v: Vaddr, e: nat, q: Path)
    requires Tree(s) && v.Valid() && v.i4 != SELF && TreePath(q)
    ensures TableAt(SetLeaf(s, v, e).mem, s.root, q) == TableAt(s.mem, s.root, q)
    decreases |q|
  {
    hide FrameOf, Present, Large, Entry, SetEntry, SelfLinked, TablesHeld;
    if q == [] {
    } else {
      var up := q[..|q| - 1];
      LeafKeepsTables(s, v, e, up);
      assert TreePath(LeafPath(v)) && up != LeafPath(v);
    }
  }

  /** Writing a leaf changes that entry and no other. */
  lemma LeafEntries(s: State, v: Vaddr, e: nat, q: Path, j: nat)
    requires Tree(s) && v.Valid() && v.i4 != SELF && TreePath(q) && j < ENTRIES
    ensures EntryAt(SetLeaf(s, v, e).mem, s.root, q, j) ==
            if TableAt(s.mem, s.root, q).Some? && q == LeafPath(v) && j == v.i1 then e else EntryAt(s.mem, s.root, q, j)
  {
    hide FrameOf, Present, Large, Entry, SetEntry, SelfLinked, TableAt;
    LeafKeepsTables(s, v, e, q);
    assert TreePath(LeafPath(v));
  }

  lemma LeafKeepsSelfLink(s: State, v: Vaddr, e: nat)
    requires Tree(s) && v.Valid() && v.i4 != SELF
    ensures SelfLinked(SetLeaf(s, v, e).mem, s.root)
  {
    hide FrameOf, Present, Large, TableAt, SetEntry;
    RootTable(s.mem, s.root);
    assert TreePath(LeafPath(v));
    var root: Path := [];
    assert root != LeafPath(v);
    var s' := SetLeaf(s, v, e);
    assert Entry(s'.mem, s.root, SELF) == Entry(s.mem, s.root, SELF);
  }

  lemma LeafKeepsTree(s: State, v: Vaddr, e: nat)
    requires Tree(s) && v.Valid() && v.i4 != SELF
    ensures Tree(SetLeaf(s, v, e))
  {
    hide FrameOf, Present, Large, TableAt, SelfLinked;
    var s' := SetLeaf(s, v, e);
    forall q: Path | TreePath(q) ensures TableAt(s'.mem, s.root, q) == TableAt(s.mem, s.root, q) {
      LeafKeepsTables(s, v, e, q);
    }
    LeafKeepsSelfLink(s, v, e);
  }

  predicate SamePage(u: Vaddr, v: Vaddr) {
    u.i4 == v.i4 && u.i3 == v.i3 && u.i2 == v.i2 && u.i1 == v.i1
  }

  /** The translation an entry of a page table gives. */
  function LeafTranslation(e: nat, off: nat): Translation {
    if Present(e) then At(FrameOf(e) * 4096 + off) else Fault
  }

  /** A page table is there exactly when the three entries above it are links. */
  lemma PageTableLinks(mem: Memory, root: nat, v: Vaddr)
    requires v.Valid()
    ensures TableAt(mem, root, LeafPath(v)).Some? <==>
            Link(EntryAt(mem, root, [], v.i4)) && Link(EntryAt(mem, root, [v.i4], v.i3)) && Link(EntryAt(mem, root, [v.i4, v.i3], v.i2))
  {
    hide Entry, FrameOf, Present, Large;
    TableAtLevels(mem, root, v.i4, v.i3, v.i2);
    ZeroIsAbsent();
  }

  /** With the page table in place, writing the leaf sets the translation of its page and of no other. */
  lemma LeafTranslates(s: State, v: Vaddr, e: nat, u: Vaddr)
    requires Tree(s) && v.Valid() && v.i4 != SELF && u.Valid() && u.i4 != SELF
    requires TableAt(s.mem, s.root, LeafPath(v)).Some?
    ensures Walk(SetLeaf(s, v, e).mem, s.root, u) ==
            if SamePage(u, v) then LeafTranslation(e, u.off) else Walk(s.mem, s.root, u)
    ensures NoLarge(SetLeaf(s, v, e).mem, s.root, u) <==> NoLarge(s.mem, s.root, u)
  {
    hide Walk, NoLarge, TableAt, EntryAt, SelfLinked, FrameOf, Present, Large, Injective, SetLeaf, TablesHeld;
    var m, m' := s.mem, SetLeaf(s, v, e).mem;
    WalkByTables(m, s.root, u);
    WalkByTables(m', s.root, u);
    LeafEntries(s, v, e, [], u.i4);
    LeafEntries(s, v, e, [u.i4], u.i3);
    LeafEntries(s, v, e, [u.i4, u.i3], u.i2);
    LeafEntries(s, v, e, [u.i4, u.i3, u.i2], u.i1);
    PageTableLinks(m, s.root, v);
  }

  // ---------------------------------------------------------------------------------------------
  // Mapping and unmapping
  // ---------------------------------------------------------------------------------------------

  /** What may happen on the way to a mapping: tables are added, pages taken, nothing translated differently. */
  ghost predicate OnlyTablesAdded(s: State, s': State) {
    && Tree(s') && s'.root == s.root && s'.total == s.total && |s'.bits| == |s.bits|
    && (forall f :: Free(s'.bits, s.total, f) ==> Free(s.bits, s.total, f))
    && (forall u: Vaddr :: u.Valid() && u.i4 != SELF ==> Walk(s'.mem, s.root, u) == Walk(s.mem, s.root, u))
    && (forall u: Vaddr :: u.Valid() && u.i4 != SELF && NoLarge(s.mem, s.root, u) ==> NoLarge(s'.mem, s.root, u))
  }

  lemma EnsureAddsOnlyTables(s: State, p: Path, i: nat)
    requires Tree(s) && TreePath(p + [i]) && |p| <= 2
    requires ValidPath(p) && i < ENTRIES && TableAt(s.mem, s.root, p).Some?
    ensures OnlyTablesAdded(s, EnsureTable(s, p, i).1)
  {
    hide Walk, NoLarge, TableAt, EnsureTable, SelfLinked, TablesHeld, Injective;
    EnsureKeepsTree(s, p, i);
    forall u: Vaddr | u.Valid() && u.i4 != SELF
      ensures Walk(EnsureTable(s, p, i).1.mem, s.root, u) == Walk(s.mem, s.root, u)
      ensures NoLarge(s.mem, s.root, u) ==> NoLarge(EnsureTable(s, p, i).1.mem, s.root, u)
    {
      EnsureKeepsTranslation(s, p, i, u);
    }
  }

  /** One level of the way: a table is there for entry i of p, or there is no page for it. */
  lemma EnsureLevel(s: State, p: Path, i: nat, q: Path, v: Vaddr)
    requires Tree(s) && TreePath(q) && q == p + [i] && |p| <= 2 && v.Valid() && v.i4 != SELF
    requires ValidPath(p) && i < ENTRIES && TableAt(s.mem, s.root, p).Some?
    requires NoLarge(s.mem, s.root, v) && q == [v.i4, v.i3, v.i2][..|q|]
    ensures OnlyTablesAdded(s, EnsureTable(s, p, i).1)
    ensures EnsureTable(s, p, i).0 ==> TableAt(EnsureTable(s, p, i).1.mem, s.root, q).Some?
  {
    hide Walk, NoLarge, TableAt, EntryAt, OnlyTablesAdded, Present, Large, SelfLinked, TablesHeld, Injective;
    EnsureAddsOnlyTables(s, p, i);
    WalkByTables(s.mem, s.root, v);
    assert p == q[..|p|] && i == q[|p|];
    assert |p| == 0 ==> p == [];
    assert |p| == 1 ==> p == [v.i4];
    assert |p| == 2 ==> p == [v.i4, v.i3];
    if EnsureTable(s, p, i).0 {
      EnsureMakesLink(s, p, i);
    }
  }

  lemma AddedTwice(s: State, s1: State, s2: State)
    requires OnlyTablesAdded(s, s1) && OnlyTablesAdded(s1, s2)
    ensures OnlyTablesAdded(s, s2)
  {
    hide Walk, NoLarge, Tree, Free;
  }

  lemma PathIsMade(s: State, v: Vaddr)
    requires Tree(s) && v.Valid() && v.i4 != SELF && NoLarge(s.mem, s.root, v)
    ensures OnlyTablesAdded(s, EnsurePath(s, v).1)
    ensures EnsurePath(s, v).0 ==> TableAt(EnsurePath(s, v).1.mem, s.root, LeafPath(v)).Some?
  {
    hide Walk, NoLarge, TableAt, EnsureTable, SelfLinked, TablesHeld, Injective;
    var (ok4, s4) := EnsureTable(s, [], v.i4);
    RootTable(s.mem, s.root);
    EnsureLevel(s, [], v.i4, [v.i4], v);
    if ok4 {
      var (ok3, s3) := EnsureTable(s4, [v.i4], v.i3);
      EnsureLevel(s4, [v.i4], v.i3, [v.i4, v.i3], v);
      AddedTwice(s, s4, s3);
      if ok3 {
        var (ok2, s2) := EnsureTable(s3, [v.i4, v.i3], v.i2);
        EnsureLevel(s3, [v.i4, v.i3], v.i2, [v.i4, v.i3, v.i2], v);
        AddedTwice(s, s3, s2);
      }
    }
  }

  /** The translation a mapping asks for: the frame of the address `|` any frame bits in the flags, if the flags say present. */
  function Mapped(phys: nat, flags: nat, off: nat): Translation {
    if Present(flags) then At(Or(FrameOf(phys), FrameOf(flags)) * 4096 + off) else Fault
  }

  /**
   * Mapping a page sets that page's translation and no other outside the self link's slot, however many
   * tables had to be made; running out of pages at any level changes no translation at all.
   */
  lemma MapTranslates(s: State, v: Vaddr, phys: nat, flags: nat, u: Vaddr)
    requires Tree(s) && v.Valid() && v.i4 != SELF && NoLarge(s.mem, s.root, v) && u.Valid() && u.i4 != SELF
    ensures var (ok, s') := Map(s, v, LeafEntry(phys, flags));
            && Tree(s')
            && Walk(s'.mem, s.root, u) == (if ok && SamePage(u, v) then Mapped(phys, flags, u.off) else Walk(s.mem, s.root, u))
            && (NoLarge(s.mem, s.root, u) ==> NoLarge(s'.mem, s.root, u))
            && (forall f :: Free(s'.bits, s.total, f) ==> Free(s.bits, s.total, f))
  {
    hide Walk, NoLarge, TableAt, EnsurePath, LeafEntry, Or, FrameOf, Present, Free, SelfLinked, TablesHeld, Injective;
    PathIsMade(s, v);
    LeafEntryNames(phys, flags);
    var (ok, ready) := EnsurePath(s, v);
    if ok {
      LeafKeepsTree(ready, v, LeafEntry(phys, flags));
      LeafTranslates(ready, v, LeafEntry(phys, flags), u);
    }
  }

  /** A successful mapping reaches the requested frame exactly if the flags are present and add no frame bits of their own. */
  lemma MapReachesFrameIff(s: State, v: Vaddr, phys: nat, flags: nat)
    requires Tree(s) && v.Valid() && v.i4 != SELF && NoLarge(s.mem, s.root, v)
    requires Map(s, v, LeafEntry(phys, flags)).0
    ensures Walk(Map(s, v, LeafEntry(phys, flags)).1.mem, s.root, v) == At(FrameOf(phys) * 4096 + v.off)
       <==> Present(flags) && Or(FrameOf(phys), FrameOf(flags)) == FrameOf(phys)
  {
    hide Walk, NoLarge, Map, LeafEntry, Or, FrameOf, Present, Tree;
    MapTranslates(s, v, phys, flags, v);
  }

  lemma UnmapTranslates(s: State, v: Vaddr, u: Vaddr)
    requires Tree(s) && v.Valid() && v.i4 != SELF && NoLarge(s.mem, s.root, v) && u.Valid() && u.i4 != SELF
    ensures Tree(Unmap(s, v))
    ensures Walk(Unmap(s, v).mem, s.root, u) == if SamePage(u, v) then Fault else Walk(s.mem, s.root, u)
    ensures NoLarge(s.mem, s.root, u) ==> NoLarge(Unmap(s, v).mem, s.root, u)
  {
    hide Walk, NoLarge, TableAt, EntryAt, Present, Large, FrameOf, Tree;
    LeafKeepsTree(s, v, 0);
    ZeroIsAbsent();
    if TableAt(s.mem, s.root, LeafPath(v)).Some? {
      LeafTranslates(s, v, 0, u);
    } else if SamePage(u, v) {
      WalkByTables(s.mem, s.root, v);
      WalkByTables(s.mem, s.root, u);
      PageTableLinks(s.mem, s.root, v);
      MissingTableEntries(s.mem, s.root, v);
    }
  }

  /** Mapping a page that had no translation and unmapping it gives back every translation. */
  lemma UnmapUndoesMap(s: State, v: Vaddr, phys: nat, flags: nat, u: Vaddr)
    requires Tree(s) && v.Valid() && v.i4 != SELF && NoLarge(s.mem, s.root, v) && u.Valid() && u.i4 != SELF
    requires Walk(s.mem, s.root, v) == Fault
    ensures Walk(Unmap(Map(s, v, LeafEntry(phys, flags)).1, v).mem, s.root, u) == Walk(s.mem, s.root, u)
  {
    hide NoLarge, Map, Unmap, LeafEntry, Entry, FrameOf, SelfLinked, TablesHeld, Injective;
    MapTranslates(s, v, phys, flags, v);
    MapTranslates(s, v, phys, flags, u);
    UnmapTranslates(Map(s, v, LeafEntry(phys, flags)).1, v, u);
  }

  lemma OtherFrame(mem: Memory, f: nat, i: nat, w: nat, g: nat, j: nat)
    requires i < ENTRIES && j < ENTRIES && g != f
    ensures Entry(SetEntry(mem, f, i, w), g, j) == Entry(mem, g, j)
  {
  }

  lemma {:induction false} DataStoreKeepsTables(mem: Memory, root: nat, f: nat, i: nat, w: nat, q: Path)
    requires !IsTable(mem, root, f) && i < ENTRIES && TreePath(q)
    ensures TableAt(SetEntry(mem, f, i, w), root, q) == TableAt(mem, root, q)
    decreases |q|
  {
    hide FrameOf, Present, Large, Entry, SetEntry, IsTable;
    if q == [] {
    } else {
      var up := q[..|q| - 1];
      assert TreePath(up);
      DataStoreKeepsTables(mem, root, f, i, w, up);
      NotFresh(mem, root, up, f);
      if TableAt(mem, root, up).Some? {
        OtherFrame(mem, f, i, w, TableAt(mem, root, up).value, q[|q| - 1]);
      }
    }
  }

  lemma DataStoreKeepsEntries(mem: Memory, root: nat, f: nat, i: nat, w: nat, q: Path, j: nat)
    requires !IsTable(mem, root, f) && i < ENTRIES && TreePath(q) && j < ENTRIES
    ensures EntryAt(SetEntry(mem, f, i, w), root, q, j) == EntryAt(mem, root, q, j)
  {
    hide TableAt, Entry, IsTable;
    DataStoreKeepsTables(mem, root, f, i, w, q);
    NotFresh(mem, root, q, f);
    if TableAt(mem, root, q).Some? {
      OtherFrame(mem, f, i, w, TableAt(mem, root, q).value, j);
    }
  }

  /** A store to a frame that is no table changes no translation. */
  lemma DataStoreKeepsTranslation(mem: Memory, root: nat, f: nat, i: nat, w: nat, u: Vaddr)
    requires !IsTable(mem, root, f) && i < ENTRIES && u.Valid() && u.i4 != SELF
    ensures Walk(SetEntry(mem, f, i, w), root, u) == Walk(mem, root, u)
  {
    hide Walk, NoLarge, TableAt, EntryAt, SetEntry, FrameOf, Present, Large, IsTable;
    WalkByTables(mem, root, u);
    WalkByTables(SetEntry(mem, f, i, w), root, u);
    DataStoreKeepsEntries(mem, root, f, i, w, [], u.i4);
    DataStoreKeepsEntries(mem, root, f, i, w, [u.i4], u.i3);
    DataStoreKeepsEntries(mem, root, f, i, w, [u.i4, u.i3], u.i2);
    DataStoreKeepsEntries(mem, root, f, i, w, [u.i4, u.i3, u.i2], u.i1);
  }

  // ---------------------------------------------------------------------------------------------
  // Runs
  // ---------------------------------------------------------------------------------------------

  datatype Op =
    | MapPage(va: nat, phys: nat, flags: nat)
    | UnmapPage(va: nat)
    | AllocPage
    | FreePage(addr: nat)
    | WriteWord(frame: nat, i: nat, w: nat)

  ghost function Do(s: State, op: Op): (s': State)
    requires s.total <= |s.bits|
    ensures s'.root == s.root && s'.total == s.total && |s'.bits| == |s.bits|
  {
    match op
    case MapPage(va, phys, flags) => Map(s, Decode(va), LeafEntry(phys, flags)).1
    case UnmapPage(va) => Unmap(s, Decode(va))
    case AllocPage => s.(bits := AllocBits(s.bits, s.total))
    case FreePage(addr) => s.(bits := FreeBits(s.bits, s.total, addr))
    case WriteWord(frame, i, w) => if i < ENTRIES then s.(mem := SetEntry(s.mem, frame, i, w)) else s
  }

  ghost function Run(s: State, ops: seq<Op>): (s': State)
    requires s.total <= |s.bits|
    ensures s'.root == s.root && s'.total == s.total && |s'.bits| == |s.bits|
  {
    if ops == [] then s else Do(Run(s, ops[..|ops| - 1]), ops[|ops| - 1])
  }

  predicate Ordinary(s: State, va: nat) {
    Decode(va).i4 != SELF && NoLarge(s.mem, s.root, Decode(va))
  }

  /** Addresses are outside the self link's slot and were not in a large page at the start; table frames are not freed, nor written to directly. */
  ghost predicate Allowed(s: State, ops: seq<Op>)
    requires s.total <= |s.bits|
  {
    && (forall k :: 0 <= k < |ops| && ops[k].MapPage? ==> Ordinary(s, ops[k].va))
    && (forall k :: 0 <= k < |ops| && ops[k].UnmapPage? ==> Ordinary(s, ops[k].va))
    && (forall k :: 0 <= k < |ops| && ops[k].FreePage? ==>
          !IsTable(Run(s, ops[..k]).mem, s.root, ops[k].addr / PAGE_SIZE))
    && (forall k :: 0 <= k < |ops| && ops[k].WriteWord? ==>
          !IsTable(Run(s, ops[..k]).mem, s.root, ops[k].frame))
  }

  /** The translation of u a run should leave: the last successful mapping or unmapping of its page decides. */
  ghost function Intended(s: State, ops: seq<Op>, u: Vaddr): Translation
    requires u.Valid() && s.total <= |s.bits|
  {
    if ops == [] then Walk(s.mem, s.root, u) else
    var n := |ops| - 1;
    match ops[n]
    case MapPage(va, phys, flags) =>
      if SamePage(u, Decode(va)) && Map(Run(s, ops[..n]), Decode(va), LeafEntry(phys, flags)).0
      then Mapped(phys, flags, u.off) else Intended(s, ops[..n], u)
    case UnmapPage(va) => if SamePage(u, Decode(va)) then Fault else Intended(s, ops[..n], u)
    case AllocPage => Intended(s, ops[..n], u)
    case FreePage(_) => Intended(s, ops[..n], u)
    case WriteWord(_, _, _) => Intended(s, ops[..n], u)
  }

  lemma AllocKeepsTree(s: State)
    requires Tree(s)
    ensures Tree(s.(bits := AllocBits(s.bits, s.total)))
  {
    hide SelfLinked, Injective, TableAt;
  }

  /** A store to a frame that is no table keeps the tree. */
  lemma WriteKeepsTree(s: State, frame: nat, i: nat, w: nat)
    requires Tree(s) && !IsTable(s.mem, s.root, frame) && i < ENTRIES
    ensures Tree(s.(mem := SetEntry(s.mem, frame, i, w)))
  {
    hide TableAt, IsTable, FrameOf, Present, Large, SetEntry;
    var mem' := SetEntry(s.mem, frame, i, w);
    forall q: Path | TreePath(q) ensures TableAt(mem', s.root, q) == TableAt(s.mem, s.root, q) {
      DataStoreKeepsTables(s.mem, s.root, frame, i, w, q);
    }
    RootIsTable(s.mem, s.root);
    assert Entry(mem', s.root, SELF) == Entry(s.mem, s.root, SELF);
  }

  lemma DataStoreKeepsNoLarge(mem: Memory, root: nat, f: nat, i: nat, w: nat, u: Vaddr)
    requires !IsTable(mem, root, f) && i < ENTRIES && u.Valid() && u.i4 != SELF
    ensures NoLarge(SetEntry(mem, f, i, w), root, u) <==> NoLarge(mem, root, u)
  {
    hide Walk, NoLarge, TableAt, EntryAt, SetEntry, FrameOf, Present, Large, IsTable;
    WalkByTables(mem, root, u);
    WalkByTables(SetEntry(mem, f, i, w), root, u);
    DataStoreKeepsEntries(mem, root, f, i, w, [], u.i4);
    DataStoreKeepsEntries(mem, root, f, i, w, [u.i4], u.i3);
    DataStoreKeepsEntries(mem, root, f, i, w, [u.i4, u.i3], u.i2);
  }

  lemma FreeKeepsTree(s: State, addr: nat)
    requires Tree(s) && !IsTable(s.mem, s.root, addr / PAGE_SIZE)
    ensures Tree(s.(bits := FreeBits(s.bits, s.total, addr)))
  {
    hide SelfLinked, Injective, TableAt;
  }

  /** Over every allowed run the tables stay a tree of held frames and the hardware translates as intended. */
  lemma {:induction false} RunKeepsTree(s: State, ops: seq<Op>, u: Vaddr)
    requires Tree(s) && Allowed(s, ops) && u.Valid() && u.i4 != SELF
    ensures Tree(Run(s, ops))
    ensures Walk(Run(s, ops).mem, s.root, u) == Intended(s, ops, u)
    ensures NoLarge(s.mem, s.root, u) ==> NoLarge(Run(s, ops).mem, s.root, u)
  {
    hide Walk, NoLarge, Map, Unmap, LeafEntry, Mapped, AllocBits, FreeBits, SamePage, SelfLinked, TablesHeld, Injective, Decode, IsTable;
    if ops == [] {
    } else {
      var n := |ops| - 1;
      assert Allowed(s, ops[..n]) by {
        forall k | 0 <= k < n ensures ops[..n][..k] == ops[..k] {
        }
      }
      RunKeepsTree(s, ops[..n], u);
      var before := Run(s, ops[..n]);
      match ops[n]
      case MapPage(va, phys, flags) =>
        RunKeepsTree(s, ops[..n], Decode(va));
        MapTranslates(before, Decode(va), phys, flags, u);
      case UnmapPage(va) =>
        RunKeepsTree(s, ops[..n], Decode(va));
        UnmapTranslates(before, Decode(va), u);
      case AllocPage =>
        AllocKeepsTree(before);
      case FreePage(addr) =>
        FreeKeepsTree(before, addr);
      case WriteWord(frame, i, w) =>
        if i < ENTRIES {
          WriteKeepsTree(before, frame, i, w);
          DataStoreKeepsTranslation(before.mem, s.root, frame, i, w, u);
          DataStoreKeepsNoLarge(before.mem, s.root, frame, i, w, u);
        }
    }
  }

  /** After an allowed run no two paths share a table, every table is in memory and in use, and no allocation returns one. */
  lemma TablesAreNeverReused(s: State, ops: seq<Op>, p: Path, q: Path)
    requires Tree(s) && Allowed(s, ops)
    requires TreePath(p) && TreePath(q) && TableAt(Run(s, ops).mem, s.root, p).Some?
    ensures var s' := Run(s, ops);
            var f := TableAt(s'.mem, s.root, p).value;
            && f < |s'.mem|
            && (f < s.total ==> s'.bits[f])
            && (TableAt(s'.mem, s.root, q) == Some(f) ==> p == q)
            && (f != 0 ==> AllocAddr(s'.bits, s.total) != f * PAGE_SIZE)
  {
    hide SelfLinked, TableAt;
    RunKeepsTree(s, ops, Vaddr(0, 0, 0, 0, 0));
  }
}
