/** The ACPI MADT: interrupt controller entries of varying length, and the kernels' walks that count CPUs. */
module Madt {
  import opened PageBitmap
  import opened Multiboot

  const HEADER: nat := 44
  const LOCAL_APIC: nat := 0
  const MAX_CPUS: nat := 16

  /** An entry: its type, and the bytes after type and length. A local APIC entry has a CPU, an APIC id and flags. */
  datatype Entry = Entry(kind: Byte, body: seq<Byte>) {
    predicate Valid() {
      |body| <= 253 && (kind == LOCAL_APIC ==> |body| >= 6)
    }

    /** A local APIC whose enabled flag is set. */
    predicate Enabled() {
      kind == LOCAL_APIC && |body| >= 6 && body[2] % 2 == 1
    }
  }

  ghost predicate Valid(entries: seq<Entry>) {
    forall k :: 0 <= k < |entries| ==> entries[k].Valid()
  }

  function EntryBytes(e: Entry): (b: seq<Byte>)
    requires e.Valid()
    ensures |b| == 2 + |e.body|
  {
    [e.kind, 2 + |e.body|] + e.body
  }

  function EntriesBytes(entries: seq<Entry>): seq<Byte>
    requires Valid(entries)
  {
    if entries == [] then [] else EntryBytes(entries[0]) + EntriesBytes(entries[1..])
  }

  /** The APIC ids of the enabled CPUs, in the order of the table. */
  function EnabledIds(entries: seq<Entry>): (ids: seq<nat>)
    ensures |ids| <= |entries|
  {
    if entries == [] then []
    else (if entries[0].Enabled() then [entries[0].body[1] as nat] else []) + EnabledIds(entries[1..])
  }

  /** The table is a header that holds the table's length, and the entries. */
  ghost predicate IsTable(table: seq<Byte>, entries: seq<Entry>) {
    && Valid(entries) && HEADER <= |table| && Word(table, 4) == |table| && table[HEADER..] == EntriesBytes(entries)
  }

  function FirstIds(ids: seq<nat>): seq<nat> {
    if |ids| <= MAX_CPUS then ids else ids[..MAX_CPUS]
  }

  lemma FlagBit(table: seq<Byte>, off: nat)
    requires off + 4 <= |table|
    ensures Word(table, off) % 2 == table[off] % 2
  {
  }

  /** The fields a walk reads at an offset where these entries start. */
  lemma EntryAt(table: seq<Byte>, off: nat, entries: seq<Entry>)
    requires Valid(entries) && off <= |table| && table[off..] == EntriesBytes(entries)
    ensures off < |table| <==> entries != []
    ensures entries != [] ==>
              var e := entries[0];
              && off + 2 + |e.body| <= |table| && table[off] == e.kind && table[off + 1] == 2 + |e.body|
              && Valid(entries[1..]) && table[off + 2 + |e.body|..] == EntriesBytes(entries[1..])
              && (e.kind == LOCAL_APIC ==> off + 8 <= |table| && table[off + 3] == e.body[1]
                                           && (e.Enabled() <==> Word(table, off + 4) % 2 == 1))
  {
    if entries != [] {
      var rest := table[off..];
      var b := EntryBytes(entries[0]);
      assert rest[..|b|] == b && rest[|b|..] == EntriesBytes(entries[1..]);
      assert table[off + |b|..] == rest[|b|..];
      assert rest[0] == b[0] && rest[1] == b[1];
      if entries[0].kind == LOCAL_APIC {
        assert rest[3] == b[3] && rest[4] == b[4];
        FlagBit(table, off + 4);
      }
    }
  }

  lemma {:induction false} IdsAppend(entries: seq<Entry>, e: Entry)
    ensures EnabledIds(entries + [e]) == EnabledIds(entries) + (if e.Enabled() then [e.body[1] as nat] else [])
  {
    if entries == [] {
      assert entries + [e] == [e];
      assert EnabledIds([e][1..]) == [];
    } else {
      var all := entries + [e];
      assert all[1..] == entries[1..] + [e] && all[0] == entries[0];
      IdsAppend(entries[1..], e);
      var head := if entries[0].Enabled() then [entries[0].body[1] as nat] else [];
      var last := if e.Enabled() then [e.body[1] as nat] else [];
      assert EnabledIds(all) == head + (EnabledIds(entries[1..]) + last) == head + EnabledIds(entries[1..]) + last;
    }
  }

  /** What a walk has collected after the entries before k. */
  lemma IdsSplit(entries: seq<Entry>, k: nat)
    requires k < |entries|
    ensures EnabledIds(entries[..k + 1]) ==
            EnabledIds(entries[..k]) + (if entries[k].Enabled() then [entries[k].body[1] as nat] else [])
  {
    IdsAppend(entries[..k], entries[k]);
    assert entries[..k + 1] == entries[..k] + [entries[k]];
  }

  /**
   * acpi_parse_madt: returns the number of enabled CPUs, however many, and stores the first 16 ids. Each entry's length,
   * at least 2, moves the walk on.
   */
  method ParseMadt(table: seq<Byte>, ids: array<nat>, ghost entries: seq<Entry>) returns (count: nat)
    requires IsTable(table, entries) && ids.Length == MAX_CPUS
    modifies ids
    ensures count == |EnabledIds(entries)|
    ensures ids[..|FirstIds(EnabledIds(entries))|] == FirstIds(EnabledIds(entries))
  {
    hide EntriesBytes, Word;
    var off := HEADER;
    var end := Word(table, 4);
    count := 0;
    ghost var k := 0;
    assert entries[0..] == entries;
    while off < end
      invariant 0 <= k <= |entries| && off <= |table| == end && Valid(entries[k..]) && table[off..] == EntriesBytes(entries[k..])
      invariant count == |EnabledIds(entries[..k])|
      invariant ids[..|FirstIds(EnabledIds(entries[..k]))|] == FirstIds(EnabledIds(entries[..k]))
      modifies ids
      decreases end - off
    {
      EntryAt(table, off, entries[k..]);
      IdsSplit(entries, k);
      assert entries[k..][0] == entries[k] && entries[k..][1..] == entries[k + 1..];
      if table[off] == LOCAL_APIC {
        if Word(table, off + 4) % 2 == 1 {
          if count < MAX_CPUS {
            ids[count] := table[off + 3];
          }
          count := count + 1;
        }
      }
      off := off + table[off + 1];
      k := k + 1;
    }
    EntryAt(table, off, entries[k..]);
    assert entries[..k] == entries;
  }

  /** The Zig walk counts only the ids it stores: its result is the minimum of 16 and the number of enabled CPUs. */
  method DetectCpus(table: seq<Byte>, ids: array<nat>, ghost entries: seq<Entry>) returns (count: nat)
    requires IsTable(table, entries) && ids.Length == MAX_CPUS
    modifies ids
    ensures count == |FirstIds(EnabledIds(entries))|
    ensures ids[..count] == FirstIds(EnabledIds(entries))
  {
    hide EntriesBytes, Word;
    var offset := HEADER;
    var end := Word(table, 4);
    count := 0;
    ghost var k := 0;
    assert entries[0..] == entries;
    while offset < end
      invariant 0 <= k <= |entries| && offset <= |table| == end && Valid(entries[k..])
      invariant table[offset..] == EntriesBytes(entries[k..])
      invariant count == |FirstIds(EnabledIds(entries[..k]))|
      invariant ids[..count] == FirstIds(EnabledIds(entries[..k]))
      modifies ids
      decreases end - offset
    {
      EntryAt(table, offset, entries[k..]);
      IdsSplit(entries, k);
      assert entries[k..][0] == entries[k] && entries[k..][1..] == entries[k + 1..];
      if table[offset] == LOCAL_APIC {
        if Word(table, offset + 4) % 2 == 1 {
          if count < MAX_CPUS {
            ids[count] := table[offset + 3];
            count := count + 1;
          }
        }
      }
      offset := offset + table[offset + 1];
      k := k + 1;
    }
    EntryAt(table, offset, entries[k..]);
    assert entries[..k] == entries;
  }

  /** The bytes of a processor local APIC entry: type 0, length 8, processor, APIC id, and a 32-bit flags word. */
  function LocalApic(processor: Byte, apicId: Byte, flags: seq<Byte>): Entry
    requires |flags| == 4
  {
    Entry(LOCAL_APIC, [processor, apicId] + flags)
  }

  /** Its layout, and what counts: the id at 3 if bit 0 of the flags at 4 is set. Entries of other types never count. */
  lemma LocalApicLayout(processor: Byte, apicId: Byte, flags: seq<Byte>)
    requires |flags| == 4
    ensures var e := LocalApic(processor, apicId, flags);
            && e.Valid() && EntryBytes(e) == [0, 8, processor, apicId, flags[0], flags[1], flags[2], flags[3]]
            && EnabledIds([e]) == if flags[0] % 2 == 1 then [apicId as nat] else []
  {
    var e := LocalApic(processor, apicId, flags);
    assert EnabledIds([e][1..]) == [];
  }

  lemma OtherTypesDoNotCount(e: Entry)
    requires e.kind != 0
    ensures EnabledIds([e]) == []
  {
    assert EnabledIds([e][1..]) == [];
  }

  /** The entries start at byte 44, and the ids kept are the first 16. */
  lemma TableLayout(table: seq<Byte>, entries: seq<Entry>, ids: seq<nat>)
    requires IsTable(table, entries)
    ensures |table| >= 44 && table[44..] == EntriesBytes(entries) && Word(table, 4) == |table|
    ensures FirstIds(ids) <= ids && |FirstIds(ids)| == if |ids| > 16 then 16 else |ids|
  {
  }
}
