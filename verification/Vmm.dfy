/**
 * The virtual memory manager. The specification functions act on the tables directly; the class below
 * reaches them only through the windows, one MMU access at a time, and is proved to do the same.
 */
module Vmm {
  import opened Bits
  import opened PageBitmap
  import opened Pmm
  import opened Options
  import opened Paging
  import opened PagingProofs

  /** What the manager works on: physical memory with the PML4 frame, and the page allocator's bitmap. */
  datatype State = State(mem: Memory, root: nat, bits: seq<bool>, total: nat)

  predicate TreePath(p: Path) {
    ValidPath(p) && (p != [] ==> p[0] != SELF)
  }

  predicate Free(bits: seq<bool>, total: nat, f: nat) {
    f < total <= |bits| && !bits[f]
  }

  /** f is the frame of some table reached without the self link. */
  ghost predicate IsTable(mem: Memory, root: nat, f: nat) {
    exists p: Path :: TreePath(p) && TableAt(mem, root, p) == Some(f)
  }

  /** No table frame is reached by two paths. */
  ghost predicate Injective(mem: Memory, root: nat) {
    forall p: Path, q: Path | TreePath(p) && TreePath(q) && TableAt(mem, root, p).Some?
      && TableAt(mem, root, p) == TableAt(mem, root, q) :: p == q
  }

  /** Every table is in memory and none is free. */
  ghost predicate TablesHeld(s: State) {
    forall p: Path :: TreePath(p) && TableAt(s.mem, s.root, p).Some? ==>
      TableAt(s.mem, s.root, p).value < |s.mem| && !Free(s.bits, s.total, TableAt(s.mem, s.root, p).value)
  }

  ghost predicate Tree(s: State) {
    && s.total <= |s.bits| && s.total <= |s.mem| <= 0x100_0000_0000
    && SelfLinked(s.mem, s.root)
    && TablesHeld(s)
    && Injective(s.mem, s.root)
  }

  /** The entry a new table is linked with. */
  function TableLink(addr: nat): nat {
    Or(Or(Or(addr, 1), 2), 4)
  }

  /** Memory with the PML4 linked to itself. */
  function SelfLink(mem: Memory, root: nat): (mem': Memory) {
    SetEntry(mem, root, SELF, Or(Or(root * 4096, 1), 2))
  }

  /** The entry of a mapped page: the frame bits of the physical address, with the caller's flags. */
  function LeafEntry(phys: nat, flags: nat): nat {
    Or(FrameOf(phys) * 4096, flags)
  }

  function LinkTable(mem: Memory, parent: nat, i: nat, f: nat): (mem': Memory)
    requires i < ENTRIES
    ensures |mem'| == |mem|
  {
    var linked := SetEntry(mem, parent, i, TableLink(f * PAGE_SIZE));
    if f < |mem| then linked[f := ZeroTable()] else linked
  }

  /** Makes sure entry i of the table at p leads somewhere: a new zeroed table if it was not present. */
  ghost function EnsureTable(s: State, p: Path, i: nat): (r: (bool, State))
    requires ValidPath(p) && i < ENTRIES && s.total <= |s.bits|
    ensures r.1.total == s.total && |r.1.bits| == |s.bits| && r.1.root == s.root && |r.1.mem| == |s.mem|
  {
    if TableAt(s.mem, s.root, p).None? then (false, s) else
    if Present(EntryAt(s.mem, s.root, p, i)) then (true, s) else
    var taken := s.(bits := AllocBits(s.bits, s.total));
    if AllocAddr(s.bits, s.total) == 0 then (false, taken) else
    (true, taken.(mem := LinkTable(s.mem, TableAt(s.mem, s.root, p).value, i, FirstFree(s.bits, s.total, 0))))
  }

  ghost function EnsurePath(s: State, v: Vaddr): (r: (bool, State))
    requires v.Valid() && s.total <= |s.bits|
    ensures r.1.total == s.total && |r.1.bits| == |s.bits| && r.1.root == s.root && |r.1.mem| == |s.mem|
  {
    var (ok4, s4) := EnsureTable(s, [], v.i4);
    if !ok4 then (false, s4) else
    var (ok3, s3) := EnsureTable(s4, [v.i4], v.i3);
    if !ok3 then (false, s3) else
    EnsureTable(s3, [v.i4, v.i3], v.i2)
  }

  ghost function SetLeaf(s: State, v: Vaddr, e: nat): (s': State)
    requires v.Valid()
    ensures s' == s.(mem := s'.mem) && |s'.mem| == |s.mem|
  {
    match TableAt(s.mem, s.root, [v.i4, v.i3, v.i2])
    case None => s
    case Some(f) => s.(mem := SetEntry(s.mem, f, v.i1, e))
  }

  /** Mapping: true with the leaf set, or false with whatever tables could still be linked. */
  ghost function Map(s: State, v: Vaddr, e: nat): (r: (bool, State))
    requires v.Valid() && s.total <= |s.bits|
    ensures r.1.total == s.total && |r.1.bits| == |s.bits| && r.1.root == s.root && |r.1.mem| == |s.mem|
  {
    var (ok, ready) := EnsurePath(s, v);
    if ok then (true, SetLeaf(ready, v, e)) else (false, ready)
  }

  ghost function Unmap(s: State, v: Vaddr): (s': State)
    requires v.Valid()
    ensures s' == s.(mem := s'.mem) && |s'.mem| == |s.mem|
  {
    SetLeaf(s, v, 0)
  }

  /**
   * vmm_virt_to_phys, reading the tables through the windows. None is a page fault on the way;
   * the result 0 stands for unmapped as well as for physical address 0.
   */
  function VirtToPhys(mem: Memory, root: nat, va: nat): Option<nat> {
    var v := Decode(va);
    var e4 :- Load(mem, root, Pml4Window() + 8 * v.i4);
    if !Present(e4) then Some(0) else
    var e3 :- Load(mem, root, PdptWindow(v.i4) + 8 * v.i3);
    if !Present(e3) then Some(0) else
    var e2 :- Load(mem, root, PdWindow(v.i4, v.i3) + 8 * v.i2);
    if !Present(e2) then Some(0) else
    var e1 :- Load(mem, root, PtWindow(v.i4, v.i3, v.i2) + 8 * v.i1);
    if !Present(e1) then Some(0) else Some(FrameOf(e1) * 4096 + v.off)
  }
}
