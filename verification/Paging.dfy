/** Four-level page tables: the hardware walk, and the windows a self-linked PML4 opens onto the tables. */
module Paging {
  import opened Bits
  import opened Options

  const ENTRIES: nat := 512
  const SELF: nat := 511

  type Table = t: seq<nat> | |t| == ENTRIES witness seq(ENTRIES, _ => 0)

  /** Physical memory, one table-sized frame of 512 words after the other. */
  type Memory = seq<Table>

  function ZeroTable(): (t: Table)
    ensures forall i :: 0 <= i < ENTRIES ==> t[i] == 0
  {
    seq(ENTRIES, _ => 0)
  }

  // Entries: bit 0 present, bit 7 large page, bits 12-51 frame number.

  predicate Present(e: nat) {
    e % 2 == 1
  }

  predicate Large(e: nat) {
    e / 128 % 2 == 1
  }

  function FrameOf(e: nat): nat {
    e / 4096 % 0x100_0000_0000
  }

  /** An entry that leads to a table of the next level. */
  predicate Link(e: nat) {
    Present(e) && !Large(e)
  }

  /** The entry a table frame holds at an index; nothing is mapped past the end of memory. */
  function Entry(mem: Memory, frame: nat, i: nat): nat
    requires i < ENTRIES
  {
    if frame < |mem| then mem[frame][i] else 0
  }

  // Virtual addresses: four indices of 9 bits and an offset of 12.

  datatype Vaddr = Vaddr(i4: nat, i3: nat, i2: nat, i1: nat, off: nat) {
    predicate Valid() {
      i4 < ENTRIES && i3 < ENTRIES && i2 < ENTRIES && i1 < ENTRIES && off < 4096
    }
  }

  function Decode(va: nat): (v: Vaddr)
    ensures v.Valid()
  {
    Vaddr(va / 0x80_0000_0000 % 512, va / 0x4000_0000 % 512, va / 0x20_0000 % 512, va / 4096 % 512, va % 4096)
  }

  datatype Translation = Fault | At(phys: nat)

  /**
   * The walk of section 4.5.4 of the Intel 64 manual, volume 3A: a PML4 entry must not be large,
   * a large PDPT entry maps 1 GB and a large PD entry 2 MB.
   */
  function Walk(mem: Memory, root: nat, v: Vaddr): Translation
    requires v.Valid()
  {
    var e4 := Entry(mem, root, v.i4);
    if !Link(e4) then Fault else
    var e3 := Entry(mem, FrameOf(e4), v.i3);
    if !Present(e3) then Fault else
    if Large(e3) then At((FrameOf(e3) / 0x4_0000 * 0x4_0000 + v.i2 * 512 + v.i1) * 4096 + v.off) else
    var e2 := Entry(mem, FrameOf(e3), v.i2);
    if !Present(e2) then Fault else
    if Large(e2) then At((FrameOf(e2) / 512 * 512 + v.i1) * 4096 + v.off) else
    var e1 := Entry(mem, FrameOf(e2), v.i1);
    if !Present(e1) then Fault else At(FrameOf(e1) * 4096 + v.off)
  }

  function Translate(mem: Memory, root: nat, va: nat): Translation {
    Walk(mem, root, Decode(va))
  }

  /** A load of an aligned 64-bit word through the MMU; memory that is not there reads as 0. */
  function Load(mem: Memory, root: nat, va: nat): Option<nat> {
    match Translate(mem, root, va)
    case Fault => None
    case At(phys) => Some(Entry(mem, phys / 4096, phys % 4096 / 8))
  }

  function SetEntry(mem: Memory, frame: nat, i: nat, w: nat): (mem': Memory)
    requires i < ENTRIES
    ensures |mem'| == |mem|
    ensures forall f: nat, j: nat :: j < ENTRIES ==>
              Entry(mem', f, j) == if f == frame && j == i && f < |mem| then w else Entry(mem, f, j)
  {
    if frame < |mem| then mem[frame := mem[frame][i := w]] else mem
  }

  /** A store of an aligned 64-bit word through the MMU; a store past the end of memory is lost. */
  function Store(mem: Memory, root: nat, va: nat, w: nat): Option<Memory> {
    match Translate(mem, root, va)
    case Fault => None
    case At(phys) => Some(SetEntry(mem, phys / 4096, phys % 4096 / 8, w))
  }

  // Paths of indices and the tables they lead to.

  type Path = seq<nat>

  predicate ValidPath(p: Path) {
    |p| <= 3 && forall i :: 0 <= i < |p| ==> p[i] < ENTRIES
  }

  /** The frame of the table a path of indices leads to: [] is the PML4, three indices lead to a page table. */
  function TableAt(mem: Memory, root: nat, p: Path): Option<nat>
    requires ValidPath(p)
    decreases |p|
  {
    if p == [] then Some(root) else
    match TableAt(mem, root, p[..|p| - 1])
    case None => None
    case Some(f) =>
      var e := Entry(mem, f, p[|p| - 1]);
      if Link(e) then Some(FrameOf(e)) else None
  }

  /** The entry at the end of a path, 0 when the table is not there. */
  function EntryAt(mem: Memory, root: nat, p: Path, i: nat): nat
    requires ValidPath(p) && i < ENTRIES
  {
    match TableAt(mem, root, p)
    case None => 0
    case Some(f) => Entry(mem, f, i)
  }

  predicate SelfLinked(mem: Memory, root: nat) {
    root < |mem| && Link(mem[root][SELF]) && FrameOf(mem[root][SELF]) == root
  }

  /** No large entry on the way to the page table of v. */
  predicate NoLarge(mem: Memory, root: nat, v: Vaddr)
    requires v.Valid()
  {
    var e4 := Entry(mem, root, v.i4);
    var e3 := Entry(mem, FrameOf(e4), v.i3);
    var e2 := Entry(mem, FrameOf(e3), v.i2);
    Present(e4) ==> !Large(e4) && (Present(e3) ==> !Large(e3) && (Present(e2) ==> !Large(e2)))
  }

  // The windows. RECURSIVE_BASE | (511 << 39) | ... in 64-bit arithmetic.

  const RECURSIVE_BASE: nat := 0xFFFF_0000_0000_0000

  function Field(i: nat, shift: nat): nat {
    i * Pow2(shift)
  }

  function Pml4Window(): nat {
    Or(Or(Or(Or(RECURSIVE_BASE, Field(SELF, 39)), Field(SELF, 30)), Field(SELF, 21)), Field(SELF, 12))
  }

  function PdptWindow(i4: nat): nat {
    Or(Or(Or(Or(RECURSIVE_BASE, Field(SELF, 39)), Field(SELF, 30)), Field(SELF, 21)), Field(i4, 12))
  }

  function PdWindow(i4: nat, i3: nat): nat {
    Or(Or(Or(Or(RECURSIVE_BASE, Field(SELF, 39)), Field(SELF, 30)), Field(i4, 21)), Field(i3, 12))
  }

  function PtWindow(i4: nat, i3: nat, i2: nat): nat {
    Or(Or(Or(Or(RECURSIVE_BASE, Field(SELF, 39)), Field(i4, 30)), Field(i3, 21)), Field(i2, 12))
  }

  /** The window onto the table a path leads to. */
  function Window(p: Path): nat
    requires ValidPath(p)
  {
    match |p|
    case 0 => Pml4Window()
    case 1 => PdptWindow(p[0])
    case 2 => PdWindow(p[0], p[1])
    case _ => PtWindow(p[0], p[1], p[2])
  }
}
