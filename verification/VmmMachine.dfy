/** vmm_map_page and vmm_unmap_page as they run: every table access is an MMU access through a window. */
module VmmMachine {
  import opened Bits
  import opened PageBitmap
  import opened Pmm
  import opened Options
  import opened Paging
  import opened PagingProofs
  import opened Vmm
  import opened VmmProofs

  datatype Outcome = Done | OutOfMemory | PageFault

  /** No large entry above the page directory. */
  predicate UpperLevelsOrdinary(mem: Memory, root: nat, v: Vaddr)
    requires v.Valid()
  {
    && !(Present(EntryAt(mem, root, [], v.i4)) && Large(EntryAt(mem, root, [], v.i4)))
    && !(Present(EntryAt(mem, root, [v.i4], v.i3)) && Large(EntryAt(mem, root, [v.i4], v.i3)))
  }

  lemma PathsOf(v: Vaddr)
    requires v.Valid()
    ensures [] + [v.i4] == [v.i4] && [v.i4] + [v.i3] == [v.i4, v.i3] && [v.i4, v.i3] + [v.i2] == [v.i4, v.i3, v.i2]
    ensures Window([]) == Pml4Window() && Window([v.i4]) == PdptWindow(v.i4)
    ensures Window([v.i4, v.i3]) == PdWindow(v.i4, v.i3) && Window([v.i4, v.i3, v.i2]) == PtWindow(v.i4, v.i3, v.i2)
  {
    hide Pml4Window, PdptWindow, PdWindow, PtWindow;
  }

  lemma FirstLevel(s: State, v: Vaddr)
    requires Tree(s) && v.Valid() && v.i4 != SELF && UpperLevelsOrdinary(s.mem, s.root, v)
    ensures TreePath([v.i4]) && TreePath([v.i4, v.i3]) && TreePath([v.i4, v.i3, v.i2])
    ensures TableAt(s.mem, s.root, []).Some?
    ensures var (ok, s') := EnsureTable(s, [], v.i4);
            Tree(s') && UpperLevelsOrdinary(s'.mem, s.root, v) && (ok ==> TableAt(s'.mem, s.root, [v.i4]).Some?)
  {
    hide TableAt, EntryAt, SelfLinked, TablesHeld, Injective, EnsureTable, Present, Large, TableLink, FrameOf;
    PathsOf(v);
    RootTable(s.mem, s.root);
    EnsureKeepsTree(s, [], v.i4);
    EnsureEntries(s, [], v.i4, [], v.i4);
    EnsureEntries(s, [], v.i4, [v.i4], v.i3);
    if Creates(s, [], v.i4) {
      NewFrameIsFresh(s);
      TableLinkNames(FirstFree(s.bits, s.total, 0));
    }
    if EnsureTable(s, [], v.i4).0 {
      EnsureMakesLink(s, [], v.i4);
    }
  }

  lemma SecondLevel(s: State, v: Vaddr)
    requires Tree(s) && v.Valid() && v.i4 != SELF && UpperLevelsOrdinary(s.mem, s.root, v)
    requires TableAt(s.mem, s.root, [v.i4]).Some?
    ensures var (ok, s') := EnsureTable(s, [v.i4], v.i3);
            Tree(s') && (ok ==> TableAt(s'.mem, s.root, [v.i4, v.i3]).Some?)
  {
    hide TableAt, EntryAt, SelfLinked, TablesHeld, Injective, EnsureTable, Present, Large, TableLink, FrameOf;
    PathsOf(v);
    EnsureKeepsTree(s, [v.i4], v.i3);
    if EnsureTable(s, [v.i4], v.i3).0 {
      EnsureMakesLink(s, [v.i4], v.i3);
    }
  }

  lemma LeafStore(s: State, v: Vaddr, e: nat)
    requires Tree(s) && v.Valid() && TableAt(s.mem, s.root, LeafPath(v)).Some?
    ensures Store(s.mem, s.root, PtWindow(v.i4, v.i3, v.i2) + 8 * v.i1, e) == Some(SetLeaf(s, v, e).mem)
  {
    hide TableAt, EntryAt, Entry, TablesHeld, Injective, SelfLinked, Load, Store, SetEntry, Window, Pml4Window, PdptWindow, PdWindow, PtWindow;
    var p := LeafPath(v);
    assert Window(p) == PtWindow(v.i4, v.i3, v.i2) by {
      PathsOf(v);
    }
    WindowAccess(s.mem, s.root, p, v.i1, e);
  }

  lemma OrdinaryWay(s: State, va: nat, e: nat)
    requires Tree(s) && Ordinary(s, va)
    ensures var v := Decode(va);
            var (ok, ready) := EnsurePath(s, v);
            && v.i4 != SELF && UpperLevelsOrdinary(s.mem, s.root, v)
            && Map(s, v, e).0 == ok
            && (!ok ==> Map(s, v, e).1 == ready)
            && (ok ==> Map(s, v, e).1 == ready.(mem := Map(s, v, e).1.mem))
            && (ok ==> Store(ready.mem, s.root, PtWindow(v.i4, v.i3, v.i2) + 8 * v.i1, e) == Some(Map(s, v, e).1.mem))
  {
    hide NoLarge, TableAt, EntryAt, SelfLinked, TablesHeld, Injective, EnsurePath, Walk, Decode, Store, PtWindow, SetLeaf;
    var v := Decode(va);
    WalkByTables(s.mem, s.root, v);
    PathIsMade(s, v);
    if EnsurePath(s, v).0 {
      LeafStore(EnsurePath(s, v).1, v, e);
    }
  }

  /** va lies in a 2 MB page: its page directory entry is present and large. */
  predicate InLargePage(mem: Memory, root: nat, va: nat) {
    var v := Decode(va);
    && v.i4 != SELF && TableAt(mem, root, [v.i4, v.i3]).Some?
    && Present(EntryAt(mem, root, [v.i4, v.i3], v.i2)) && Large(EntryAt(mem, root, [v.i4, v.i3], v.i2))
  }

  /** The frame the 2 MB page's directory entry names. */
  function LargeFrame(mem: Memory, root: nat, va: nat): nat {
    FrameOf(EntryAt(mem, root, [Decode(va).i4, Decode(va).i3], Decode(va).i2))
  }

  lemma LargePageWay(s: State, va: nat, e: nat)
    requires Tree(s) && InLargePage(s.mem, s.root, va)
    ensures var v := Decode(va);
            && v.i4 != SELF && UpperLevelsOrdinary(s.mem, s.root, v)
            && EnsurePath(s, v) == (true, s)
            && Store(s.mem, s.root, PtWindow(v.i4, v.i3, v.i2) + 8 * v.i1, e)
               == Some(SetEntry(s.mem, LargeFrame(s.mem, s.root, va), v.i1, e))
  {
    hide Entry, FrameOf, Present, Large, Decode, SelfLinked, TablesHeld, Injective, Store, SetEntry, PtWindow;
    var v := Decode(va);
    TableAtLevels(s.mem, s.root, v.i4, v.i3, v.i2);
    var p := [v.i4, v.i3, v.i2];
    assert p[..2] == [v.i4, v.i3];
    LargeWindowWrite(s.mem, s.root, p, v.i1, e);
  }

  lemma UnmapReads(mem: Memory, root: nat, v: Vaddr)
    requires v.Valid() && SelfLinked(mem, root) && NoLarge(mem, root, v)
    ensures var e4 := EntryAt(mem, root, [], v.i4);
            var e3 := EntryAt(mem, root, [v.i4], v.i3);
            var e2 := EntryAt(mem, root, [v.i4, v.i3], v.i2);
            && Load(mem, root, Pml4Window() + 8 * v.i4) == Some(e4)
            && (Present(e4) ==> Load(mem, root, PdptWindow(v.i4) + 8 * v.i3) == Some(e3))
            && (Present(e4) && Present(e3) ==> Load(mem, root, PdWindow(v.i4, v.i3) + 8 * v.i2) == Some(e2))
            && (TableAt(mem, root, LeafPath(v)).Some? <==> Present(e4) && Present(e3) && Present(e2))
            && (Present(e4) && Present(e3) && Present(e2) ==>
                  Store(mem, root, PtWindow(v.i4, v.i3, v.i2) + 8 * v.i1, 0)
                  == Some(SetEntry(mem, TableAt(mem, root, LeafPath(v)).value, v.i1, 0)))
  {
    hide Entry, FrameOf, Present, Large, NoLarge, SelfLinked, Load, Store, SetEntry, Pml4Window, PdptWindow, PdWindow, PtWindow;
    UpperWindowReads(mem, root, v);
    LowerWindowReads(mem, root, v);
    WalkByTables(mem, root, v);
    TableAtLevels(mem, root, v.i4, v.i3, v.i2);
    if TableAt(mem, root, LeafPath(v)).Some? {
      WindowAccess(mem, root, LeafPath(v), v.i1, 0);
    }
  }

  lemma UnmapReadsInLargePage(mem: Memory, root: nat, va: nat)
    requires SelfLinked(mem, root) && InLargePage(mem, root, va)
    ensures var v := Decode(va);
            var e4 := EntryAt(mem, root, [], v.i4);
            var e3 := EntryAt(mem, root, [v.i4], v.i3);
            var e2 := EntryAt(mem, root, [v.i4, v.i3], v.i2);
            && Present(e4) && Present(e3) && Present(e2)
            && Load(mem, root, Pml4Window() + 8 * v.i4) == Some(e4)
            && Load(mem, root, PdptWindow(v.i4) + 8 * v.i3) == Some(e3)
            && Load(mem, root, PdWindow(v.i4, v.i3) + 8 * v.i2) == Some(e2)
            && Store(mem, root, PtWindow(v.i4, v.i3, v.i2) + 8 * v.i1, 0)
               == Some(SetEntry(mem, LargeFrame(mem, root, va), v.i1, 0))
  {
    hide Entry, FrameOf, Present, Large, Decode, SelfLinked, Load, Store, SetEntry, Pml4Window, PdptWindow, PdWindow, PtWindow;
    var v := Decode(va);
    UpperWindowReads(mem, root, v);
    LowerWindowReads(mem, root, v);
    TableAtLevels(mem, root, v.i4, v.i3, v.i2);
    var p := [v.i4, v.i3, v.i2];
    assert p[..2] == [v.i4, v.i3];
    LargeWindowWrite(mem, root, p, v.i1, 0);
  }

  /** Frame f with its first n words cleared. */
  ghost function Wiped(mem: Memory, f: nat, n: nat): (mem': Memory)
    requires f < |mem| && n <= ENTRIES
    ensures |mem'| == |mem|
  {
    var t: Table := seq(ENTRIES, j requires 0 <= j < ENTRIES => if j < n then 0 else mem[f][j]);
    mem[f := t]
  }

  /** Memory with a new table linked and partly cleared. */
  ghost function Linked(s: State, p: Path, i: nat, n: nat): (mem': Memory)
    requires Tree(s) && ValidPath(p) && i < ENTRIES && n <= ENTRIES
    requires TableAt(s.mem, s.root, p).Some? && AllocAddr(s.bits, s.total) != 0
    ensures |mem'| == |s.mem|
  {
    var f := FirstFree(s.bits, s.total, 0);
    Wiped(SetEntry(s.mem, TableAt(s.mem, s.root, p).value, i, TableLink(f * PAGE_SIZE)), f, n)
  }

  ghost predicate NewTable(s: State, p: Path, i: nat) {
    && Tree(s) && TreePath(p + [i]) && |p| <= 2 && ValidPath(p) && i < ENTRIES
    && TableAt(s.mem, s.root, p).Some? && AllocAddr(s.bits, s.total) != 0
  }

  lemma WipedStep(mem: Memory, f: nat, n: nat)
    requires f < |mem| && n < ENTRIES
    ensures SetEntry(Wiped(mem, f, n), f, n, 0) == Wiped(mem, f, n + 1)
  {
    assert SetEntry(Wiped(mem, f, n), f, n, 0)[f] == Wiped(mem, f, n + 1)[f];
  }

  lemma LinkedStep(s: State, p: Path, i: nat, n: nat)
    requires NewTable(s, p, i) && n < ENTRIES
    ensures SetEntry(Linked(s, p, i, n), FirstFree(s.bits, s.total, 0), n, 0) == Linked(s, p, i, n + 1)
  {
    hide TableLink, TableAt, SelfLinked, TablesHeld, Injective;
    NewFrameIsFresh(s);
    WipedStep(SetEntry(s.mem, TableAt(s.mem, s.root, p).value, i, TableLink(FirstFree(s.bits, s.total, 0) * PAGE_SIZE)),
              FirstFree(s.bits, s.total, 0), n);
  }

  lemma WipedNone(mem: Memory, f: nat)
    requires f < |mem|
    ensures Wiped(mem, f, 0) == mem
  {
    assert Wiped(mem, f, 0)[f] == mem[f];
  }

  lemma WipedAll(mem: Memory, parent: nat, i: nat, f: nat)
    requires f < |mem| && i < ENTRIES
    ensures Wiped(SetEntry(mem, parent, i, TableLink(f * PAGE_SIZE)), f, ENTRIES) == LinkTable(mem, parent, i, f)
  {
    hide TableLink;
    var linked := SetEntry(mem, parent, i, TableLink(f * PAGE_SIZE));
    assert Wiped(linked, f, ENTRIES)[f] == ZeroTable();
  }

  /** Linked starts with the link just stored and ends as EnsureTable says. */
  lemma LinkedFirstAndLast(s: State, p: Path, i: nat)
    requires NewTable(s, p, i) && !Present(EntryAt(s.mem, s.root, p, i))
    ensures Linked(s, p, i, 0) == SetEntry(s.mem, TableAt(s.mem, s.root, p).value, i, TableLink(AllocAddr(s.bits, s.total)))
    ensures EnsureTable(s, p, i) == (true, s.(bits := AllocBits(s.bits, s.total), mem := Linked(s, p, i, ENTRIES)))
  {
    hide TableLink, TableAt, SelfLinked, TablesHeld, Injective;
    NewFrameIsFresh(s);
    var f := FirstFree(s.bits, s.total, 0);
    var parent := TableAt(s.mem, s.root, p).value;
    WipedNone(SetEntry(s.mem, parent, i, TableLink(f * PAGE_SIZE)), f);
    WipedAll(s.mem, parent, i, f);
  }

  lemma LinkedEntry(s: State, p: Path, i: nat, n: nat, g: nat, j: nat)
    requires Tree(s) && ValidPath(p) && i < ENTRIES && n <= ENTRIES && j < ENTRIES
    requires TableAt(s.mem, s.root, p).Some? && AllocAddr(s.bits, s.total) != 0
    ensures var f := FirstFree(s.bits, s.total, 0);
            var parent := TableAt(s.mem, s.root, p).value;
            g != f ==> Entry(Linked(s, p, i, n), g, j) ==
                       if g == parent && j == i && g < |s.mem| then TableLink(f * PAGE_SIZE) else Entry(s.mem, g, j)
  {
    hide TableLink, TableAt, SelfLinked, TablesHeld, Injective;
  }

  lemma NotFreshTable(s: State, q: Path)
    requires Tree(s) && TreePath(q) && AllocAddr(s.bits, s.total) != 0
    ensures TableAt(s.mem, s.root, q) != Some(FirstFree(s.bits, s.total, 0))
  {
    hide TableAt, SelfLinked, TablesHeld, Injective;
    NewFrameIsFresh(s);
    NotFresh(s.mem, s.root, q, FirstFree(s.bits, s.total, 0));
  }

  /** Above the new table nothing has moved. */
  lemma {:induction false} LinkedPrefix(s: State, p: Path, i: nat, n: nat, q: Path)
    requires Tree(s) && TreePath(p + [i]) && |p| <= 2 && n <= ENTRIES && ValidPath(p) && i < ENTRIES
    requires TableAt(s.mem, s.root, p).Some? && AllocAddr(s.bits, s.total) != 0
    requires |q| <= |p| && q == p[..|q|] && ValidPath(q)
    ensures TableAt(Linked(s, p, i, n), s.root, q) == TableAt(s.mem, s.root, q)
    decreases |q|
  {
    hide Entry, FrameOf, Present, Large, TableLink, SelfLinked, TablesHeld, Linked, Fresh;
    TreePrefix(p, i);
    if q == [] {
    } else {
      var up := q[..|q| - 1];
      assert up == p[..|up|] && TreePath(up) && up != p;
      LinkedPrefix(s, p, i, n, up);
      NewFrameIsFresh(s);
      NotFreshTable(s, up);
      if TableAt(s.mem, s.root, up).Some? {
        LinkedEntry(s, p, i, n, TableAt(s.mem, s.root, up).value, q[|q| - 1]);
      }
    }
  }

  lemma LinkedChild(mem: Memory, root: nat, p: Path, i: nat, f: nat)
    requires ValidPath(p + [i]) && ValidPath(p) && i < ENTRIES && TableAt(mem, root, p).Some?
    requires Link(Entry(mem, TableAt(mem, root, p).value, i)) && FrameOf(Entry(mem, TableAt(mem, root, p).value, i)) == f
    ensures TableAt(mem, root, p + [i]) == Some(f)
  {
    hide Entry, FrameOf, Present, Large;
    assert (p + [i])[..|p|] == p;
  }

  lemma LinkedSelf(s: State, p: Path, i: nat, n: nat)
    requires Tree(s) && TreePath(p + [i]) && |p| <= 2 && n <= ENTRIES && ValidPath(p) && i < ENTRIES
    requires TableAt(s.mem, s.root, p).Some? && AllocAddr(s.bits, s.total) != 0
    ensures SelfLinked(Linked(s, p, i, n), s.root)
  {
    hide FrameOf, Present, Large, TableLink, TablesHeld, Linked, Fresh, TableAt;
    NewFrameIsFresh(s);
    RootTable(s.mem, s.root);
    TreePrefix(p, i);
    if p == [] {
      assert (p + [i])[0] == i;
    } else {
      var top: Path := [];
      assert TreePath(top);
    }
    LinkedEntry(s, p, i, n, s.root, SELF);
  }

  /** While the new table is being cleared its window reaches it, whatever it still holds. */
  lemma WipingKeepsWindow(s: State, p: Path, i: nat, n: nat)
    requires Tree(s) && TreePath(p + [i]) && |p| <= 2 && n <= ENTRIES && ValidPath(p) && i < ENTRIES
    requires TableAt(s.mem, s.root, p).Some? && AllocAddr(s.bits, s.total) != 0
    ensures SelfLinked(Linked(s, p, i, n), s.root)
    ensures TableAt(Linked(s, p, i, n), s.root, p + [i]) == Some(FirstFree(s.bits, s.total, 0))
  {
    hide Entry, FrameOf, Present, Large, TableLink, SelfLinked, Linked, Fresh, TableAt, EntryAt;
    var f := FirstFree(s.bits, s.total, 0);
    TreePrefix(p, i);
    NewFrameIsFresh(s);
    TableLinkNames(f);
    NotFreshTable(s, p);
    LinkedPrefix(s, p, i, n, p);
    LinkedEntry(s, p, i, n, TableAt(s.mem, s.root, p).value, i);
    LinkedChild(Linked(s, p, i, n), s.root, p, i, f);
    LinkedSelf(s, p, i, n);
  }

  class VirtualMemory {
    var mem: Memory

    const root: nat
    const pmm: PhysicalMemory

    ghost predicate Valid()
      reads this, pmm, pmm.bitmap
    {
      pmm.Valid()
    }

    ghost function Now(): (s: State)
      requires Valid()
      reads this, pmm, pmm.bitmap
      ensures s.total <= |s.bits|
    {
      State(mem, root, pmm.Bits(), pmm.totalPages)
    }

    constructor (mem: Memory, root: nat, pmm: PhysicalMemory)
      requires pmm.Valid()
      ensures Valid() && this.mem == mem && this.root == root && this.pmm == pmm
    {
      this.mem := mem;
      this.root := root;
      this.pmm := pmm;
    }

    method LoadWord(va: nat) returns (r: Option<nat>)
      ensures r == Load(mem, root, va)
    {
      r := Load(mem, root, va);
    }

    method StoreWord(va: nat, w: nat) returns (ok: bool)
      modifies `mem
      ensures Store(old(mem), root, va, w) == if ok then Some(mem) else None
      ensures !ok ==> mem == old(mem)
    {
      var r := Store(mem, root, va, w);
      ok := r.Some?;
      if ok {
        mem := r.value;
      }
    }

    /** The clearing loop for the table just linked at entry i of p, through the new table's own window. */
    method ClearTable(window: nat, ghost s: State, ghost p: Path, ghost i: nat) returns (ok: bool)
      requires ValidPath(p + [i]) && window == Window(p + [i])
      modifies `mem
      ensures NewTable(s, p, i) && s.root == root && old(mem) == Linked(s, p, i, 0) ==> ok && mem == Linked(s, p, i, ENTRIES)
    {
      hide Load, Store, Window, SetEntry, Linked, TableAt, EntryAt, SelfLinked, AllocAddr, FirstFree, TablesHeld, Injective;
      ghost var good := NewTable(s, p, i) && s.root == root && mem == Linked(s, p, i, 0);
      var n := 0;
      while n < ENTRIES
        invariant 0 <= n <= ENTRIES
        invariant good ==> mem == Linked(s, p, i, n)
        modifies `mem
      {
        if good {
          WipingKeepsWindow(s, p, i, n);
          WindowAccess(Linked(s, p, i, n), root, p + [i], n, 0);
          LinkedStep(s, p, i, n);
        }
        ok := StoreWord(window + 8 * n, 0);
        if !ok {
          return;
        }
        n := n + 1;
      }
      return true;
    }

    /** One block of vmm_map_page: look at entry i of the table at p, make and clear a table if it is not present. */
    method Ensure(parentWindow: nat, i: nat, childWindow: nat, ghost p: Path) returns (r: Outcome)
      requires Valid() && ValidPath(p + [i]) && ValidPath(p) && i < ENTRIES
      requires parentWindow == Window(p) && childWindow == Window(p + [i])
      modifies `mem, pmm`usedPages, pmm.bitmap
      ensures Valid()
      ensures old(Tree(Now())) && TreePath(p + [i]) && old(TableAt(mem, root, p)).Some? ==>
                r != PageFault && EnsureTable(old(Now()), p, i) == (r == Done, Now())
    {
      hide Load, Store, Window, SetEntry, LinkTable, TableLink, FrameOf, Present, Large, TableAt, EntryAt;
      hide AllocBits, AllocAddr, FirstFree, SelfLinked, TablesHeld, Injective, TreePath, Linked, BitsOf, Pop;
      ghost var s := Now();
      ghost var good := Tree(s) && TreePath(p + [i]) && TableAt(mem, root, p).Some?;
      if good {
        WindowAccess(mem, root, p, i, 0);
      }
      var e := LoadWord(parentWindow + 8 * i);
      if e.None? {
        return PageFault;
      }
      if Present(e.value) {
        return Done;
      }
      var page := pmm.AllocPage();
      if page == 0 {
        return OutOfMemory;
      }
      if good {
        WindowAccess(mem, root, p, i, TableLink(page));
      }
      var ok := StoreWord(parentWindow + 8 * i, TableLink(page));
      if !ok {
        return PageFault;
      }
      if good {
        LinkedFirstAndLast(s, p, i);
      }
      ok := ClearTable(childWindow, s, p, i);
      return if ok then Done else PageFault;
    }

    /** vmm_init: store the self link through the boot loader's identity mapping of the PML4. */
    method Init()
      requires Valid() && root < |mem| && Translate(mem, root, root * 4096 + 8 * SELF) == At(root * 4096 + 8 * SELF)
      modifies `mem
      ensures Valid()
      ensures Now() == old(Now()).(mem := SelfLink(old(mem), root))
    {
      hide Translate, SetEntry, Or, BitsOf;
      WordAt(root, SELF);
      var ok := StoreWord(root * 4096 + 8 * SELF, Or(Or(root * 4096, 1), 2));
    }

    /** The three blocks of vmm_map_page that make the way down to the page table. */
    method EnsureTables(v: Vaddr) returns (r: Outcome)
      requires Valid() && v.Valid()
      modifies `mem, pmm`usedPages, pmm.bitmap
      ensures Valid()
      ensures old(Tree(Now())) && v.i4 != SELF && UpperLevelsOrdinary(old(mem), root, v) ==>
                r != PageFault && EnsurePath(old(Now()), v) == (r == Done, Now())
    {
      hide Tree, EnsureTable, TableAt, EntryAt, UpperLevelsOrdinary, Window, Pml4Window, PdptWindow, PdWindow, PtWindow, BitsOf, Pop;
      ghost var s := Now();
      ghost var good := Tree(s) && v.i4 != SELF && UpperLevelsOrdinary(mem, root, v);
      PathsOf(v);
      if good {
        FirstLevel(s, v);
      }
      r := Ensure(Pml4Window(), v.i4, PdptWindow(v.i4), []);
      if r != Done {
        return;
      }
      if good {
        SecondLevel(Now(), v);
      }
      r := Ensure(PdptWindow(v.i4), v.i3, PdWindow(v.i4, v.i3), [v.i4]);
      if r != Done {
        return;
      }
      r := Ensure(PdWindow(v.i4, v.i3), v.i2, PtWindow(v.i4, v.i3, v.i2), [v.i4, v.i3]);
    }

    /**
     * vmm_map_page. On ordinary addresses it is the specification's Map and never faults. Inside a 2 MB page
     * it overwrites word i1 of the page's first frame and nothing else.
     */
    method MapPage(va: nat, phys: nat, flags: nat) returns (r: Outcome)
      requires Valid()
      modifies `mem, pmm`usedPages, pmm.bitmap
      ensures Valid()
      ensures old(Tree(Now())) && Ordinary(old(Now()), va) ==>
                r != PageFault && Map(old(Now()), Decode(va), LeafEntry(phys, flags)) == (r == Done, Now())
      ensures old(Tree(Now())) && InLargePage(old(mem), root, va) ==>
                r == Done && Now() == old(Now()).(mem := SetEntry(old(mem), LargeFrame(old(mem), root, va), Decode(va).i1, LeafEntry(phys, flags)))
    {
      hide Decode, LeafEntry, SetEntry, Tree, EnsurePath, Ordinary, Map, InLargePage, Store, UpperLevelsOrdinary, PtWindow, LargeFrame, BitsOf;
      ghost var s := Now();
      var v := Decode(va);
      if Tree(s) && Ordinary(s, va) {
        OrdinaryWay(s, va, LeafEntry(phys, flags));
      }
      if Tree(s) && InLargePage(mem, root, va) {
        LargePageWay(s, va, LeafEntry(phys, flags));
      }
      r := EnsureTables(v);
      if r != Done {
        return;
      }
      var ok := StoreWord(PtWindow(v.i4, v.i3, v.i2) + 8 * v.i1, LeafEntry(phys, flags));
      if !ok {
        r := PageFault;
      }
    }

    /**
     * vmm_unmap_page. On ordinary addresses it is the specification's Unmap and never faults. Inside a 2 MB page
     * it clears word i1 of the page's first frame and nothing else.
     */
    method UnmapPage(va: nat) returns (r: Outcome)
      requires Valid()
      modifies `mem
      ensures Valid()
      ensures SelfLinked(old(mem), root) && NoLarge(old(mem), root, Decode(va)) ==>
                r == Done && Now() == Unmap(old(Now()), Decode(va))
      ensures SelfLinked(old(mem), root) && InLargePage(old(mem), root, va) ==>
                r == Done && Now() == old(Now()).(mem := SetEntry(old(mem), LargeFrame(old(mem), root, va), Decode(va).i1, 0))
    {
      hide Decode, SetEntry, SelfLinked, NoLarge, TableAt, EntryAt, Load, Store, Present, Pml4Window, PdptWindow, PdWindow, PtWindow, BitsOf;
      hide InLargePage, LargeFrame;
      ghost var s := Now();
      var v := Decode(va);
      ghost var good := SelfLinked(mem, root) && NoLarge(mem, root, v);
      if good {
        UnmapReads(mem, root, v);
      }
      if SelfLinked(mem, root) && InLargePage(mem, root, va) {
        UnmapReadsInLargePage(mem, root, va);
      }
      var e4 := LoadWord(Pml4Window() + 8 * v.i4);
      if e4.None? {
        return PageFault;
      }
      if !Present(e4.value) {
        return Done;
      }
      var e3 := LoadWord(PdptWindow(v.i4) + 8 * v.i3);
      if e3.None? {
        return PageFault;
      }
      if !Present(e3.value) {
        return Done;
      }
      var e2 := LoadWord(PdWindow(v.i4, v.i3) + 8 * v.i2);
      if e2.None? {
        return PageFault;
      }
      if !Present(e2.value) {
        return Done;
      }
      var ok := StoreWord(PtWindow(v.i4, v.i3, v.i2) + 8 * v.i1, 0);
      return if ok then Done else PageFault;
    }
  }
}
