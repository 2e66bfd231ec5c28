/** The windows reach the tables they are named after. */
module PagingProofs {
  import opened Bits
  import opened Options
  import opened Paging

  lemma ShiftValues()
    ensures Pow2(39) == 0x80_0000_0000 && Pow2(30) == 0x4000_0000 && Pow2(21) == 0x20_0000 && Pow2(12) == 4096
    ensures Pow2(40) == 0x100_0000_0000 && Pow2(7) == 128 && Pow2(48) == 0x1_0000_0000_0000
  {
    assert Pow2(7) == 128;
    assert Pow2(12) == 4096;
    assert Pow2(21) == 0x20_0000 by { assert Pow2(16) == 0x1_0000; }
    assert Pow2(30) == 0x4000_0000 by { assert Pow2(26) == 0x400_0000; }
    assert Pow2(39) == 0x80_0000_0000 by { assert Pow2(35) == 0x8_0000_0000; }
    assert Pow2(40) == 0x100_0000_0000;
    assert Pow2(48) == 0x1_0000_0000_0000 by { assert Pow2(44) == 0x1000_0000_0000; }
  }

  /** The macros' `|` of four index fields is their sum: the fields do not overlap. */
  lemma WindowSum(a: nat, b: nat, c: nat, d: nat)
    requires a < ENTRIES && b < ENTRIES && c < ENTRIES && d < ENTRIES
    ensures Or(Or(Or(Or(RECURSIVE_BASE, Field(a, 39)), Field(b, 30)), Field(c, 21)), Field(d, 12))
         == RECURSIVE_BASE + a * 0x80_0000_0000 + b * 0x4000_0000 + c * 0x20_0000 + d * 4096
  {
    hide Or, Pow2;
    ShiftValues();
    OrOfDisjointFields(0xFFFF, Field(a, 39), 48);
    var x1 := 0xFFFF * 512 + a;
    assert x1 * Pow2(39) == RECURSIVE_BASE + a * 0x80_0000_0000;
    OrOfDisjointFields(x1, Field(b, 30), 39);
    var x2 := x1 * 512 + b;
    OrOfDisjointFields(x2, Field(c, 21), 30);
    var x3 := x2 * 512 + c;
    OrOfDisjointFields(x3, Field(d, 12), 21);
  }

  lemma SplitIndex(va: nat, unit: nat, q: nat, r: nat, high: nat, index: nat)
    requires unit > 0 && va == q * unit + r && r < unit
    requires q == high * 512 + index && index < 512
    ensures va / unit % 512 == index && va % unit == r
  {
    DivModUnique(va, unit, q, r);
  }

  /** The walk of a window address uses the four indices of the window, and its offset is the word. */
  lemma WindowDecode(a: nat, b: nat, c: nat, d: nat, i: nat)
    requires a < ENTRIES && b < ENTRIES && c < ENTRIES && d < ENTRIES && i < ENTRIES
    ensures Decode(RECURSIVE_BASE + a * 0x80_0000_0000 + b * 0x4000_0000 + c * 0x20_0000 + d * 4096 + 8 * i)
         == Vaddr(a, b, c, d, 8 * i)
  {
    var va := RECURSIVE_BASE + a * 0x80_0000_0000 + b * 0x4000_0000 + c * 0x20_0000 + d * 4096 + 8 * i;
    var q4 := 0x1FFFE00 + a;
    var q3 := q4 * 512 + b;
    var q2 := q3 * 512 + c;
    var q1 := q2 * 512 + d;
    SplitIndex(va, 4096, q1, 8 * i, q2, d);
    SplitIndex(va, 0x20_0000, q2, d * 4096 + 8 * i, q3, c);
    SplitIndex(va, 0x4000_0000, q3, c * 0x20_0000 + d * 4096 + 8 * i, q4, b);
    SplitIndex(va, 0x80_0000_0000, q4, b * 0x4000_0000 + c * 0x20_0000 + d * 4096 + 8 * i, 0xFFFF, a);
  }

  /** The indices and offset of a window address: the path, padded in front with the self link. */
  lemma WindowAddress(p: Path, i: nat)
    requires ValidPath(p) && i < ENTRIES
    ensures |p| == 0 ==> Decode(Window(p) + 8 * i) == Vaddr(SELF, SELF, SELF, SELF, 8 * i)
    ensures |p| == 1 ==> Decode(Window(p) + 8 * i) == Vaddr(SELF, SELF, SELF, p[0], 8 * i)
    ensures |p| == 2 ==> Decode(Window(p) + 8 * i) == Vaddr(SELF, SELF, p[0], p[1], 8 * i)
    ensures |p| == 3 ==> Decode(Window(p) + 8 * i) == Vaddr(SELF, p[0], p[1], p[2], 8 * i)
  {
    hide Decode, Or, Field;
    match |p| {
      case 0 =>
        WindowSum(SELF, SELF, SELF, SELF);
        WindowDecode(SELF, SELF, SELF, SELF, i);
      case 1 =>
        WindowSum(SELF, SELF, SELF, p[0]);
        WindowDecode(SELF, SELF, SELF, p[0], i);
      case 2 =>
        WindowSum(SELF, SELF, p[0], p[1]);
        WindowDecode(SELF, SELF, p[0], p[1], i);
      case _ =>
        WindowSum(SELF, p[0], p[1], p[2]);
        WindowDecode(SELF, p[0], p[1], p[2], i);
    }
  }

  /** The tables on the way along a path, spelled out. */
  lemma TableAtLevels(mem: Memory, root: nat, a: nat, b: nat, c: nat)
    requires a < ENTRIES && b < ENTRIES && c < ENTRIES
    ensures TableAt(mem, root, []) == Some(root)
    ensures var e4 := Entry(mem, root, a);
            && TableAt(mem, root, [a]) == (if Link(e4) then Some(FrameOf(e4)) else None)
            && var e3 := Entry(mem, FrameOf(e4), b);
            && TableAt(mem, root, [a, b]) == (if Link(e4) && Link(e3) then Some(FrameOf(e3)) else None)
            && var e2 := Entry(mem, FrameOf(e3), c);
            && TableAt(mem, root, [a, b, c]) == (if Link(e4) && Link(e3) && Link(e2) then Some(FrameOf(e2)) else None)
  {
    hide Link, FrameOf, Entry;
    assert [a][..0] == [] && [a, b][..1] == [a] && [a, b, c][..2] == [a, b];
    assert TableAt(mem, root, [a]) == if Link(Entry(mem, root, a)) then Some(FrameOf(Entry(mem, root, a))) else None;
  }

  /**
   * The window of a path reaches the frame its last entry names, whether or not that entry is marked large;
   * it faults when the entry is not present.
   */
  lemma WindowReachesLastEntry(mem: Memory, root: nat, p: Path, i: nat)
    requires SelfLinked(mem, root) && ValidPath(p) && p != [] && i < ENTRIES
    requires TableAt(mem, root, p[..|p| - 1]).Some?
    ensures var e := EntryAt(mem, root, p[..|p| - 1], p[|p| - 1]);
            Translate(mem, root, Window(p) + 8 * i) == if Present(e) then At(FrameOf(e) * 4096 + 8 * i) else Fault
  {
    hide Decode, Window, Present, FrameOf;
    WindowAddress(p, i);
    if |p| == 1 {
      assert p[..0] == [];
    } else if |p| == 2 {
      assert p[..1] == [p[0]];
      TableAtLevels(mem, root, p[0], p[1], 0);
    } else {
      assert p[..2] == [p[0], p[1]];
      TableAtLevels(mem, root, p[0], p[1], p[2]);
    }
  }

  /** The window of a path resolves to the words of exactly the table at the end of the path. */
  lemma WindowReachesTable(mem: Memory, root: nat, p: Path, i: nat)
    requires SelfLinked(mem, root) && ValidPath(p) && i < ENTRIES && TableAt(mem, root, p).Some?
    ensures Translate(mem, root, Window(p) + 8 * i) == At(TableAt(mem, root, p).value * 4096 + 8 * i)
  {
    hide Decode, Window, FrameOf, Present, Large;
    if p == [] {
      WindowAddress(p, i);
    } else {
      WindowReachesLastEntry(mem, root, p, i);
    }
  }

  lemma WordAt(f: nat, i: nat)
    requires i < ENTRIES
    ensures (f * 4096 + 8 * i) / 4096 == f && (f * 4096 + 8 * i) % 4096 / 8 == i
  {
    DivModUnique(f * 4096 + 8 * i, 4096, f, 8 * i);
  }

  /** Loads and stores through a window are loads and stores of the table's entries. */
  lemma WindowAccess(mem: Memory, root: nat, p: Path, i: nat, w: nat)
    requires SelfLinked(mem, root) && ValidPath(p) && i < ENTRIES && TableAt(mem, root, p).Some?
    ensures Load(mem, root, Window(p) + 8 * i) == Some(EntryAt(mem, root, p, i))
    ensures Store(mem, root, Window(p) + 8 * i, w) == Some(SetEntry(mem, TableAt(mem, root, p).value, i, w))
  {
    hide Translate, Window, Entry, SetEntry;
    WindowReachesTable(mem, root, p, i);
    WordAt(TableAt(mem, root, p).value, i);
  }

  /** The four entries the walk reads, as entries of the tables on the path; 0 past a table that is not there. */
  function WalkEntries(e4: nat, e3: nat, e2: nat, e1: nat, v: Vaddr): Translation {
    if !Link(e4) then Fault else
    if !Present(e3) then Fault else
    if Large(e3) then At((FrameOf(e3) / 0x4_0000 * 0x4_0000 + v.i2 * 512 + v.i1) * 4096 + v.off) else
    if !Present(e2) then Fault else
    if Large(e2) then At((FrameOf(e2) / 512 * 512 + v.i1) * 4096 + v.off) else
    if !Present(e1) then Fault else At(FrameOf(e1) * 4096 + v.off)
  }

  lemma ZeroIsAbsent()
    ensures !Present(0) && !Large(0)
  {
  }

  lemma WalkByTables(mem: Memory, root: nat, v: Vaddr)
    requires v.Valid()
    ensures Walk(mem, root, v) == WalkEntries(EntryAt(mem, root, [], v.i4), EntryAt(mem, root, [v.i4], v.i3),
                                              EntryAt(mem, root, [v.i4, v.i3], v.i2), EntryAt(mem, root, [v.i4, v.i3, v.i2], v.i1), v)
    ensures NoLarge(mem, root, v) <==>
            && !(Present(EntryAt(mem, root, [], v.i4)) && Large(EntryAt(mem, root, [], v.i4)))
            && !(Present(EntryAt(mem, root, [v.i4], v.i3)) && Large(EntryAt(mem, root, [v.i4], v.i3)))
            && !(Present(EntryAt(mem, root, [v.i4, v.i3], v.i2)) && Large(EntryAt(mem, root, [v.i4, v.i3], v.i2)))
  {
    hide Entry, FrameOf, Present, Large;
    TableAtLevels(mem, root, v.i4, v.i3, v.i2);
    assert !Present(0) by { ZeroIsAbsent(); }
  }
}
