/** What one store to physical memory does to the hardware's translation, tables of every level included. */
module StoreEffects {
  import opened Bits
  import opened Options
  import opened Paging
  import opened PagingProofs
  import opened Vmm
  import opened VmmProofs

  // ---------------------------------------------------------------------------------------------
  // The walk, one index at a time
  // ---------------------------------------------------------------------------------------------

  /** Where a walk stands after some indices: at nothing, inside a block of consecutive frames, or at a table. */
  datatype Target = Nothing | Block(frame: nat) | Table(frame: nat)

  /** What an entry of a table that k indices lead to points at. */
  function Aim(e: nat, k: nat): Target {
    if !Present(e) then Nothing
    else if k == 3 then Block(FrameOf(e))
    else if !Large(e) then Table(FrameOf(e))
    else if k == 2 then Block(FrameOf(e) / 512 * 512)
    else if k == 1 then Block(FrameOf(e) / 0x4_0000 * 0x4_0000)
    else Nothing
  }

  /** One more index, the (k + 1)-th. */
  function Next(mem: Memory, t: Target, k: nat, j: nat): Target
    requires j < ENTRIES
  {
    match t
    case Nothing => Nothing
    case Block(f) => Block(f + j * (if k == 2 then 512 else 1))
    case Table(f) => Aim(Entry(mem, f, j), k)
  }

  function Index(u: Vaddr, k: nat): nat {
    match k
    case 0 => u.i4
    case 1 => u.i3
    case 2 => u.i2
    case _ => u.i1
  }

  /** The rest of the walk of u after k indices. */
  function Trace(mem: Memory, t: Target, k: nat, u: Vaddr): Translation
    requires k <= 4 && u.Valid()
    decreases 4 - k
  {
    if k < 4 then Trace(mem, Next(mem, t, k, Index(u, k)), k + 1, u)
    else if t.Block? then At(t.frame * 4096 + u.off) else Fault
  }

  lemma WalkIsTrace(mem: Memory, root: nat, u: Vaddr)
    requires u.Valid()
    ensures Walk(mem, root, u) == Trace(mem, Table(root), 0, u)
  {
    hide Entry, Present, Large, FrameOf;
    var t1 := Next(mem, Table(root), 0, u.i4);
    var t2 := Next(mem, t1, 1, u.i3);
    var t3 := Next(mem, t2, 2, u.i2);
    var t4 := Next(mem, t3, 3, u.i1);
    assert Trace(mem, t3, 3, u) == Trace(mem, t4, 4, u);
    assert Trace(mem, t2, 2, u) == Trace(mem, t3, 3, u);
    assert Trace(mem, t1, 1, u) == Trace(mem, t2, 2, u);
  }

  // ---------------------------------------------------------------------------------------------
  // When two targets are the same to every address
  // ---------------------------------------------------------------------------------------------

  /** Two targets lead to the same pages, index by index. */
  ghost predicate Alike(mem: Memory, t: Target, mem': Memory, t': Target, k: nat)
    requires k <= 4
    decreases 4 - k
  {
    if k < 4 then forall j: nat :: j < ENTRIES ==> Alike(mem, Next(mem, t, k, j), mem', Next(mem', t', k, j), k + 1)
    else if t.Block? then t' == t else !t'.Block?
  }

  lemma {:induction false} AlikeTraces(mem: Memory, t: Target, mem': Memory, t': Target, k: nat, u: Vaddr)
    requires k <= 4 && u.Valid() && Alike(mem, t, mem', t', k)
    ensures Trace(mem, t, k, u) == Trace(mem', t', k, u)
    decreases 4 - k
  {
    hide Next;
    if k == 4 {
    } else {
      var j := Index(u, k);
      AlikeTraces(mem, Next(mem, t, k, j), mem', Next(mem', t', k, j), k + 1, u);
    }
  }

  function WithIndex(v: Vaddr, k: nat, j: nat): (u: Vaddr)
    requires v.Valid() && k < 4 && j < ENTRIES
    ensures u.Valid() && Index(u, k) == j
    ensures forall m: nat :: m < 4 && m != k ==> Index(u, m) == Index(v, m)
  {
    match k
    case 0 => v.(i4 := j)
    case 1 => v.(i3 := j)
    case 2 => v.(i2 := j)
    case _ => v.(i1 := j)
  }

  /** Targets that are not alike are told apart by an address, with any first k indices. */
  lemma {:induction false} DifferingAddress(mem: Memory, t: Target, mem': Memory, t': Target, k: nat, v: Vaddr) returns (u: Vaddr)
    requires k <= 4 && v.Valid() && !Alike(mem, t, mem', t', k)
    ensures u.Valid() && Trace(mem, t, k, u) != Trace(mem', t', k, u)
    ensures forall m: nat :: m < k ==> Index(u, m) == Index(v, m)
    decreases 4 - k
  {
    hide Next, Index;
    if k == 4 {
      u := v;
    } else {
      var j: nat :| j < ENTRIES && !Alike(mem, Next(mem, t, k, j), mem', Next(mem', t', k, j), k + 1);
      u := DifferingAddress(mem, Next(mem, t, k, j), mem', Next(mem', t', k, j), k + 1, WithIndex(v, k, j));
      assert Index(u, k) == j;
    }
  }

  // ---------------------------------------------------------------------------------------------
  // Walks and tables
  // ---------------------------------------------------------------------------------------------

  /** The first k indices of u. */
  function Prefix(u: Vaddr, k: nat): (p: Path)
    requires u.Valid() && k <= 3
    ensures ValidPath(p) && |p| == k && forall m: nat :: m < k ==> p[m] == Index(u, m)
  {
    [u.i4, u.i3, u.i2][..k]
  }

  lemma PrefixStep(u: Vaddr, k: nat)
    requires u.Valid() && k < 3
    ensures Prefix(u, k + 1) == Prefix(u, k) + [Index(u, k)]
  {
  }

  lemma StepDown(mem: Memory, root: nat, u: Vaddr, k: nat)
    requires u.Valid() && k < 3
    ensures TableAt(mem, root, Prefix(u, k + 1)) ==
            match TableAt(mem, root, Prefix(u, k))
            case None => None
            case Some(g) =>
              var t := Next(mem, Table(g), k, Index(u, k)); if t.Table? then Some(t.frame) else None
  {
    hide Entry, Present, Large, FrameOf, Index, Prefix;
    PrefixStep(u, k);
    LastStep(mem, root, Prefix(u, k + 1));
    assert Prefix(u, k + 1)[..k] == Prefix(u, k);
  }

  /** A walk of u passes the tables on the prefixes of u. */
  lemma {:induction false} TraceFromTable(mem: Memory, root: nat, u: Vaddr, k: nat)
    requires u.Valid() && k <= 3 && TableAt(mem, root, Prefix(u, k)).Some?
    ensures Walk(mem, root, u) == Trace(mem, Table(TableAt(mem, root, Prefix(u, k)).value), k, u)
  {
    hide Walk, TableAt, Next, Index, Prefix;
    if k == 0 {
      WalkIsTrace(mem, root, u);
      RootTable(mem, root);
      assert Prefix(u, 0) == [];
    } else {
      StepDown(mem, root, u, k - 1);
      TraceFromTable(mem, root, u, k - 1);
    }
  }

  /** The walk of u does not read word i of frame f. */
  ghost predicate Avoids(mem: Memory, root: nat, u: Vaddr, f: nat, i: nat)
    requires u.Valid()
  {
    forall k: nat :: k <= 3 && TableAt(mem, root, Prefix(u, k)) == Some(f) ==> Index(u, k) != i
  }

  lemma {:induction false} AvoidingTraceStays(mem: Memory, root: nat, u: Vaddr, f: nat, i: nat, e: nat, k: nat, t: Target)
    requires u.Valid() && i < ENTRIES && k <= 4 && Avoids(mem, root, u, f, i)
    requires t.Table? && k < 4 ==> TableAt(mem, root, Prefix(u, k)) == Some(t.frame)
    ensures Trace(SetEntry(mem, f, i, e), t, k, u) == Trace(mem, t, k, u)
    decreases 4 - k
  {
    hide TableAt, Entry, Present, Large, FrameOf, Prefix;
    if k == 4 {
    } else {
      var j := Index(u, k);
      assert Next(SetEntry(mem, f, i, e), t, k, j) == Next(mem, t, k, j);
      if k < 3 && t.Table? {
        StepDown(mem, root, u, k);
      }
      AvoidingTraceStays(mem, root, u, f, i, e, k + 1, Next(mem, t, k, j));
    }
  }

  /** A store the walk does not read leaves it alone. */
  lemma AvoidingWalkStays(mem: Memory, root: nat, u: Vaddr, f: nat, i: nat, e: nat)
    requires u.Valid() && i < ENTRIES && Avoids(mem, root, u, f, i)
    ensures Walk(SetEntry(mem, f, i, e), root, u) == Walk(mem, root, u)
  {
    hide Walk, Trace, TableAt, Prefix, SetEntry;
    WalkIsTrace(mem, root, u);
    WalkIsTrace(SetEntry(mem, f, i, e), root, u);
    assert TableAt(mem, root, Prefix(u, 0)) == Some(root) by {
      RootTable(mem, root);
      assert Prefix(u, 0) == [];
    }
    AvoidingTraceStays(mem, root, u, f, i, e, 0, Table(root));
  }

  lemma PrefixesDiffer(s: State, u: Vaddr, m: nat, k: nat)
    requires Tree(s) && u.Valid() && u.i4 != SELF && m < k <= 3
    requires TableAt(s.mem, s.root, Prefix(u, k)).Some?
    ensures TableAt(s.mem, s.root, Prefix(u, m)) != TableAt(s.mem, s.root, Prefix(u, k))
  {
    hide TableAt, SelfLinked, TablesHeld;
    assert TreePath(Prefix(u, m)) && TreePath(Prefix(u, k)) && Prefix(u, m) != Prefix(u, k);
  }

  /** A store into the table k indices of u lead to does not move that table, nor those above it. */
  lemma {:induction false} TablesAboveStay(s: State, u: Vaddr, k: nat, i: nat, e: nat, m: nat)
    requires Tree(s) && u.Valid() && u.i4 != SELF && m <= k <= 3 && i < ENTRIES
    requires TableAt(s.mem, s.root, Prefix(u, k)).Some?
    ensures TableAt(SetEntry(s.mem, TableAt(s.mem, s.root, Prefix(u, k)).value, i, e), s.root, Prefix(u, m))
         == TableAt(s.mem, s.root, Prefix(u, m))
  {
    hide TableAt, Entry, Present, Large, FrameOf, Prefix, Index, SelfLinked, TablesHeld, SetEntry, Injective;
    var f := TableAt(s.mem, s.root, Prefix(u, k)).value;
    if m == 0 {
      assert Prefix(u, 0) == [];
      RootTable(s.mem, s.root);
      RootTable(SetEntry(s.mem, f, i, e), s.root);
    } else {
      TablesAboveStay(s, u, k, i, e, m - 1);
      StepDown(s.mem, s.root, u, m - 1);
      StepDown(SetEntry(s.mem, f, i, e), s.root, u, m - 1);
      PrefixesDiffer(s, u, m - 1, k);
    }
  }

  /** A store into a table the walk of u reads: from there on the walk goes where the new word points. */
  lemma ReadingWalkFollows(s: State, u: Vaddr, k: nat, e: nat)
    requires Tree(s) && u.Valid() && u.i4 != SELF && k <= 3 && TableAt(s.mem, s.root, Prefix(u, k)).Some?
    ensures var f := TableAt(s.mem, s.root, Prefix(u, k)).value;
            var mem' := SetEntry(s.mem, f, Index(u, k), e);
            && Walk(s.mem, s.root, u) == Trace(s.mem, Aim(Entry(s.mem, f, Index(u, k)), k), k + 1, u)
            && Walk(mem', s.root, u) == Trace(mem', Aim(e, k), k + 1, u)
  {
    hide Walk, TableAt, Prefix, Aim, SelfLinked, Injective;
    var f := TableAt(s.mem, s.root, Prefix(u, k)).value;
    assert f < |s.mem| by {
      assert TreePath(Prefix(u, k));
    }
    var mem' := SetEntry(s.mem, f, Index(u, k), e);
    TraceFromTable(s.mem, s.root, u, k);
    TablesAboveStay(s, u, k, Index(u, k), e, k);
    TraceFromTable(mem', s.root, u, k);
    assert Entry(mem', f, Index(u, k)) == e;
  }

  /** u goes through entry i of the table at a path. */
  predicate Under(u: Vaddr, p: Path, i: nat) {
    Index(u, |p|) == i && forall m: nat :: m < |p| ==> Index(u, m) == p[m]
  }

  /** A store to a table of any level sends the addresses under the word where the new word points, and no other anywhere else. */
  lemma StoreTranslates(s: State, p: Path, i: nat, e: nat, u: Vaddr)
    requires Tree(s) && TreePath(p) && i < ENTRIES && TableAt(s.mem, s.root, p).Some? && u.Valid() && u.i4 != SELF
    ensures var mem' := SetEntry(s.mem, TableAt(s.mem, s.root, p).value, i, e);
            Walk(mem', s.root, u) ==
            if Under(u, p, i) then Trace(mem', Aim(e, |p|), |p| + 1, u) else Walk(s.mem, s.root, u)
  {
    hide Walk, TableAt, Trace, Aim, SelfLinked, TablesHeld;
    var f := TableAt(s.mem, s.root, p).value;
    if Under(u, p, i) {
      assert Prefix(u, |p|) == p;
      ReadingWalkFollows(s, u, |p|, e);
    } else {
      forall k: nat | k <= 3 && TableAt(s.mem, s.root, Prefix(u, k)) == Some(f)
        ensures Index(u, k) != i
      {
        assert TreePath(Prefix(u, k)) && Prefix(u, k) == p;
      }
      AvoidingWalkStays(s.mem, s.root, u, f, i, e);
    }
  }

  // ---------------------------------------------------------------------------------------------
  // Stores that change no translation
  // ---------------------------------------------------------------------------------------------

  /**
   * A store of e to word i of frame f is harmless: if the frame is a table, of whatever level, the new word leads to the
   * same pages as the old one. The self link is no part of this, as no address outside its slot reads it.
   */
  ghost predicate Harmless(s: State, f: nat, i: nat, e: nat)
    requires i < ENTRIES
  {
    forall p: Path :: TreePath(p) && TableAt(s.mem, s.root, p) == Some(f) && !(p == [] && i == SELF) ==>
      Alike(s.mem, Aim(Entry(s.mem, f, i), |p|), SetEntry(s.mem, f, i, e), Aim(e, |p|), |p| + 1)
  }

  ghost predicate SameTranslations(mem: Memory, mem': Memory, root: nat) {
    forall u: Vaddr :: u.Valid() && u.i4 != SELF ==> Walk(mem', root, u) == Walk(mem, root, u)
  }

  lemma HarmlessStoreStays(s: State, f: nat, i: nat, e: nat, u: Vaddr)
    requires Tree(s) && i < ENTRIES && Harmless(s, f, i, e) && u.Valid() && u.i4 != SELF
    ensures Walk(SetEntry(s.mem, f, i, e), s.root, u) == Walk(s.mem, s.root, u)
  {
    hide Walk, TableAt, Alike, Trace, SelfLinked, Injective, TablesHeld;
    if Avoids(s.mem, s.root, u, f, i) {
      AvoidingWalkStays(s.mem, s.root, u, f, i, e);
    } else {
      var k: nat :| k <= 3 && TableAt(s.mem, s.root, Prefix(u, k)) == Some(f) && Index(u, k) == i;
      assert TreePath(Prefix(u, k));
      ReadingWalkFollows(s, u, k, e);
      AlikeTraces(s.mem, Aim(Entry(s.mem, f, i), k), SetEntry(s.mem, f, i, e), Aim(e, k), k + 1, u);
    }
  }

  /** The address with a path as its first indices and i as the next. */
  function Via(p: Path, i: nat): (u: Vaddr)
    requires ValidPath(p) && i < ENTRIES
    ensures u.Valid() && Index(u, |p|) == i && forall m: nat :: m < |p| ==> Index(u, m) == p[m]
  {
    match |p|
    case 0 => Vaddr(i, 0, 0, 0, 0)
    case 1 => Vaddr(p[0], i, 0, 0, 0)
    case 2 => Vaddr(p[0], p[1], i, 0, 0)
    case _ => Vaddr(p[0], p[1], p[2], i, 0)
  }

  lemma HarmfulStoreShows(s: State, f: nat, i: nat, e: nat) returns (u: Vaddr)
    requires Tree(s) && i < ENTRIES && !Harmless(s, f, i, e)
    ensures u.Valid() && u.i4 != SELF && Walk(SetEntry(s.mem, f, i, e), s.root, u) != Walk(s.mem, s.root, u)
  {
    hide Walk, TableAt, Alike, Trace, Aim, SelfLinked, Injective, TablesHeld;
    var p: Path :| TreePath(p) && TableAt(s.mem, s.root, p) == Some(f) && !(p == [] && i == SELF)
      && !Alike(s.mem, Aim(Entry(s.mem, f, i), |p|), SetEntry(s.mem, f, i, e), Aim(e, |p|), |p| + 1);
    u := DifferingAddress(s.mem, Aim(Entry(s.mem, f, i), |p|), SetEntry(s.mem, f, i, e), Aim(e, |p|), |p| + 1, Via(p, i));
    assert forall m: nat :: m < |p| ==> Index(u, m) == p[m];
    assert Prefix(u, |p|) == p && Index(u, |p|) == i;
    assert u.i4 == Index(u, 0) != SELF;
    ReadingWalkFollows(s, u, |p|, e);
  }

  /** A store leaves every translation as it was if and only if it is harmless. */
  lemma StoreIsHarmlessIff(s: State, f: nat, i: nat, e: nat)
    requires Tree(s) && i < ENTRIES
    ensures SameTranslations(s.mem, SetEntry(s.mem, f, i, e), s.root) <==> Harmless(s, f, i, e)
  {
    hide Walk, Harmless, SetEntry, Tree;
    if Harmless(s, f, i, e) {
      forall u: Vaddr | u.Valid() && u.i4 != SELF
        ensures Walk(SetEntry(s.mem, f, i, e), s.root, u) == Walk(s.mem, s.root, u)
      {
        HarmlessStoreStays(s, f, i, e, u);
      }
    } else {
      var u := HarmfulStoreShows(s, f, i, e);
    }
  }

  /** In a page table that is: the new word maps the frame the old one maps, or neither maps one. */
  lemma HarmlessInPageTableIff(s: State, p: Path, i: nat, e: nat)
    requires Tree(s) && TreePath(p) && |p| == 3 && i < ENTRIES && TableAt(s.mem, s.root, p).Some?
    ensures var f := TableAt(s.mem, s.root, p).value;
            Harmless(s, f, i, e) <==> LeafTranslation(e, 0) == LeafTranslation(Entry(s.mem, f, i), 0)
  {
    hide TableAt, Entry, Present, FrameOf, Large, SelfLinked, TablesHeld;
  }

  lemma {:induction false} NothingFaults(mem: Memory, k: nat, u: Vaddr)
    requires k <= 4 && u.Valid()
    ensures Trace(mem, Nothing, k, u) == Fault
    decreases 4 - k
  {
    if k == 4 {
    } else {
      NothingFaults(mem, k + 1, u);
    }
  }

  lemma ZeroedWalkFaults(s: State, f: nat, i: nat, u: Vaddr)
    requires Tree(s) && i < ENTRIES && u.Valid() && u.i4 != SELF && !Avoids(s.mem, s.root, u, f, i)
    ensures Walk(SetEntry(s.mem, f, i, 0), s.root, u) == Fault
  {
    hide Walk, SetEntry, TableAt, SelfLinked, Injective, TablesHeld;
    var k: nat :| k <= 3 && TableAt(s.mem, s.root, Prefix(u, k)) == Some(f) && Index(u, k) == i;
    ReadingWalkFollows(s, u, k, 0);
    assert Aim(0, k) == Nothing by {
      ZeroIsAbsent();
    }
    NothingFaults(SetEntry(s.mem, f, i, 0), k + 1, u);
  }

  /** For 0, which maps nothing: the old word led to no page either. */
  lemma HarmlessZeroIff(s: State, f: nat, i: nat)
    requires Tree(s) && i < ENTRIES
    ensures Harmless(s, f, i, 0) <==>
            forall u: Vaddr :: u.Valid() && u.i4 != SELF && !Avoids(s.mem, s.root, u, f, i) ==> Walk(s.mem, s.root, u) == Fault
  {
    hide Walk, Harmless, SetEntry, TableAt, Avoids, SelfLinked, Injective, TablesHeld;
    forall u: Vaddr | u.Valid() && u.i4 != SELF
      ensures Avoids(s.mem, s.root, u, f, i) ==> Walk(SetEntry(s.mem, f, i, 0), s.root, u) == Walk(s.mem, s.root, u)
      ensures !Avoids(s.mem, s.root, u, f, i) ==> Walk(SetEntry(s.mem, f, i, 0), s.root, u) == Fault
    {
      if Avoids(s.mem, s.root, u, f, i) {
        AvoidingWalkStays(s.mem, s.root, u, f, i, 0);
      } else {
        ZeroedWalkFaults(s, f, i, u);
      }
    }
    StoreIsHarmlessIff(s, f, i, 0);
  }
}
