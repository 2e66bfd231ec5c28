/** The Multiboot2 information structure: how it lays tags out in bytes, and the kernels' walks over it. */
module Multiboot {
  import Bits
  import opened PageBitmap
  import opened Options
  import opened Pmm

  const U32: nat := 0x1_0000_0000
  const END: nat := 0
  const MMAP: nat := 6
  const TAG_LIMIT: nat := 100

  // Little-endian words.

  function Encode32(v: nat): (b: seq<Byte>)
    ensures |b| == 4
  {
    [v % 256, v / 256 % 256, v / 65536 % 256, v / 16777216 % 256]
  }

  function Decode32(b: seq<Byte>): nat
    requires |b| == 4
  {
    var (b0: nat, b1: nat, b2: nat, b3: nat) := (b[0], b[1], b[2], b[3]);
    b0 + 256 * b1 + 65536 * b2 + 16777216 * b3
  }

  lemma Decode32Inverse(v: nat)
    requires v < U32
    ensures Decode32(Encode32(v)) == v
  {
    var q1 := v / 256;
    var q2 := q1 / 256;
    assert v / 65536 == q2;
    assert v / 16777216 == q2 / 256 < 256;
  }

  function Encode64(v: nat): (b: seq<Byte>)
    ensures |b| == 8
  {
    Encode32(v % U32) + Encode32(v / U32)
  }

  function Decode64(b: seq<Byte>): nat
    requires |b| == 8
  {
    Decode32(b[..4]) + U32 * Decode32(b[4..])
  }

  lemma Decode64Inverse(v: nat)
    requires v < U32 * U32
    ensures Decode64(Encode64(v)) == v
  {
    hide Encode32, Decode32;
    Decode32Inverse(v % U32);
    Decode32Inverse(v / U32);
    assert Encode64(v)[..4] == Encode32(v % U32) && Encode64(v)[4..] == Encode32(v / U32);
  }

  /** Byte j of v, counted from the least significant one. */
  function ByteOf(v: nat, j: nat): nat
    decreases j
  {
    if j == 0 then v % 256 else ByteOf(v / 256, j - 1)
  }

  /** Words are stored least significant byte first. */
  lemma Encode32Bytes(v: nat, j: nat)
    requires j < 4
    ensures Encode32(v)[j] == ByteOf(v, j)
  {
    var q1 := v / 256;
    var q2 := q1 / 256;
    assert v / 65536 == q2 && v / 16777216 == q2 / 256;
    assert ByteOf(q2 / 256, 0) == ByteOf(q2, 1) == ByteOf(q1, 2) == ByteOf(v, 3);
    assert ByteOf(q2, 0) == ByteOf(q1, 1) == ByteOf(v, 2);
    assert ByteOf(q1, 0) == ByteOf(v, 1);
  }

  lemma PowOfByte(n: nat)
    requires n > 0
    ensures Bits.Pow2(8 * n) == 256 * Bits.Pow2(8 * n - 8)
  {
    assert Bits.Pow2(8 * n) == 2 * Bits.Pow2(8 * n - 1) == 4 * Bits.Pow2(8 * n - 2) == 8 * Bits.Pow2(8 * n - 3);
    assert Bits.Pow2(8 * n - 3) == 2 * Bits.Pow2(8 * n - 4) == 4 * Bits.Pow2(8 * n - 5) == 8 * Bits.Pow2(8 * n - 6);
    assert Bits.Pow2(8 * n - 6) == 2 * Bits.Pow2(8 * n - 7) == 4 * Bits.Pow2(8 * n - 8);
  }

  lemma ModByteStep(v: nat, m: nat)
    requires m > 0
    ensures v % (256 * m) / 256 == v / 256 % m && v % (256 * m) % 256 == v % 256
  {
    var q, r := v / 256 / m, v / 256 % m;
    assert v / 256 == q * m + r;
    assert q * (256 * m) == 256 * (q * m);
    Bits.DivModUnique(v, 256 * m, q, 256 * r + v % 256);
  }

  lemma {:induction false} ByteOfLow(v: nat, n: nat, j: nat)
    requires j < n
    ensures ByteOf(v % Bits.Pow2(8 * n), j) == ByteOf(v, j)
    decreases j
  {
    var m := Bits.Pow2(8 * n - 8);
    assert Bits.Pow2(8 * n) == 256 * m by {
      PowOfByte(n);
    }
    ModByteStep(v, m);
    if j == 0 {
    } else {
      ByteOfLow(v / 256, n - 1, j - 1);
    }
  }

  lemma ByteOfHigh(v: nat, j: nat)
    ensures ByteOf(v / U32, j) == ByteOf(v, 4 + j)
  {
    var q1 := v / 256;
    var q2 := q1 / 256;
    var q3 := q2 / 256;
    assert v / U32 == q3 / 256;
    assert ByteOf(v, 4 + j) == ByteOf(q1, 3 + j) == ByteOf(q2, 2 + j) == ByteOf(q3, 1 + j) == ByteOf(q3 / 256, j);
  }

  lemma Encode64Bytes(v: nat, j: nat)
    requires j < 8
    ensures Encode64(v)[j] == ByteOf(v, j)
  {
    hide Encode32;
    assert Bits.Pow2(8 * 4) == U32 by {
      PowOfByte(4);
      PowOfByte(3);
      PowOfByte(2);
      PowOfByte(1);
    }
    if j < 4 {
      Encode32Bytes(v % U32, j);
      ByteOfLow(v, 4, j);
    } else {
      Encode32Bytes(v / U32, j - 4);
      ByteOfHigh(v, j - 4);
    }
  }

  function Word(info: seq<Byte>, off: nat): nat
    requires off + 4 <= |info|
  {
    Decode32(info[off..off + 4])
  }

  function Word64(info: seq<Byte>, off: nat): nat
    requires off + 8 <= |info|
  {
    Decode64(info[off..off + 8])
  }

  // Tags.

  datatype Tag = Tag(kind: nat, payload: seq<Byte>) {
    predicate Valid() {
      END < kind < U32 && 8 + |payload| <= U32 - 8
    }
  }

  function Padded(size: nat): (r: nat)
    ensures size <= r < size + 8 && r % 8 == 0
  {
    (size + 7) / 8 * 8
  }

  function TagBytes(t: Tag): (b: seq<Byte>)
    ensures |b| == Padded(8 + |t.payload|)
  {
    var size := 8 + |t.payload|;
    Encode32(t.kind) + Encode32(size) + t.payload + seq(Padded(size) - size, _ => 0)
  }

  /** The tags one after the other, each padded to 8 bytes, and the end tag. */
  function TagsBytes(tags: seq<Tag>): (b: seq<Byte>)
    ensures |b| >= 8
  {
    if tags == [] then Encode32(END) + Encode32(8) else TagBytes(tags[0]) + TagsBytes(tags[1..])
  }

  function Info(tags: seq<Tag>): seq<Byte> {
    Encode32(8 + |TagsBytes(tags)|) + Encode32(0) + TagsBytes(tags)
  }

  ghost predicate ValidTags(tags: seq<Tag>) {
    (forall k :: 0 <= k < |tags| ==> tags[k].Valid()) && 8 + |TagsBytes(tags)| < U32
  }

  /** The position of the first tag of a kind, or the number of tags. */
  function FirstOf(tags: seq<Tag>, kind: nat): (k: nat)
    ensures k <= |tags| && (k < |tags| ==> tags[k].kind == kind)
    ensures forall j :: 0 <= j < k ==> tags[j].kind != kind
  {
    if tags == [] || tags[0].kind == kind then 0 else 1 + FirstOf(tags[1..], kind)
  }

  /** A tag in memory: type at 0, size (header included, padding not) at 4, payload at 8, zeros up to a multiple of 8. */
  lemma TagLayout(t: Tag, j: nat)
    ensures var (b, n) := (TagBytes(t), |t.payload|);
            && |b| % 8 == 0 && 8 + n <= |b| < 16 + n
            && (j < 4 ==> b[j] == ByteOf(t.kind, j) && b[4 + j] == ByteOf(8 + n, j))
            && b[8..8 + n] == t.payload
            && (8 + n <= j < |b| ==> b[j] == 0)
  {
    hide Encode32;
    if j < 4 {
      Encode32Bytes(t.kind, j);
      Encode32Bytes(8 + |t.payload|, j);
    }
  }

  lemma {:induction false} TagsAreAligned(tags: seq<Tag>)
    ensures |TagsBytes(tags)| % 8 == 0
  {
    hide TagBytes, Padded;
    if tags == [] {
    } else {
      TagsAreAligned(tags[1..]);
    }
  }

  lemma Multiples(off: nat, a: nat, b: nat)
    requires a % 8 == 0 && b % 8 == 0 && off + b == 8 + a
    ensures off % 8 == 0
  {
  }

  /** Where a walk stands after k tags, whatever their kinds. */
  ghost predicate Stands(info: seq<Byte>, off: nat, tags: seq<Tag>, k: nat) {
    k <= |tags| && off <= |info| && info[off..] == TagsBytes(tags[k..])
  }

  /** Every tag boundary of the information structure is a multiple of 8. */
  lemma BoundariesAreAligned(info: seq<Byte>, off: nat, tags: seq<Tag>, k: nat)
    requires info == Info(tags) && Stands(info, off, tags, k)
    ensures off % 8 == 0
  {
    hide TagsBytes, Encode32;
    TagsAreAligned(tags);
    TagsAreAligned(tags[k..]);
    assert |info[off..]| == |info| - off;
    assert |info| == 8 + |TagsBytes(tags)|;
    hide Info, Stands;
    Multiples(off, |TagsBytes(tags)|, |TagsBytes(tags[k..])|);
  }

  /** The first bytes at the boundary of a tag are its type. */
  lemma KindBytes(info: seq<Byte>, off: nat, tags: seq<Tag>, k: nat)
    requires Stands(info, off, tags, k) && k < |tags|
    ensures off + 4 <= |info| && forall j :: 0 <= j < 4 ==> info[off + j] == ByteOf(tags[k].kind, j)
  {
    hide TagBytes, Encode32;
    var b := TagBytes(tags[k]);
    assert tags[k..][0] == tags[k];
    assert info[off..][..|b|] == b;
    forall j: nat | j < 4 ensures info[off + j] == ByteOf(tags[k].kind, j) {
      TagLayout(tags[k], j);
      assert info[off + j] == info[off..][j] == b[j];
    }
  }

  lemma WordReads(info: seq<Byte>, off: nat, v: nat)
    requires off + 4 <= |info| && v < U32 && info[off..off + 4] == Encode32(v)
    ensures Word(info, off) == v
  {
    Decode32Inverse(v);
  }

  /** The header of a tag, and what follows its padding. */
  lemma TagAt(info: seq<Byte>, off: nat, t: Tag, rest: seq<Byte>)
    requires off <= |info| && t.Valid() && info[off..] == TagBytes(t) + rest
    ensures off + Padded(8 + |t.payload|) + |rest| == |info|
    ensures Word(info, off) == t.kind && Word(info, off + 4) == 8 + |t.payload|
    ensures info[off + Padded(8 + |t.payload|)..] == rest
  {
    hide Encode32, Padded, Word;
    var b := TagBytes(t);
    assert |b + rest| == |info| - off;
    assert info[off..off + 4] == (b + rest)[..4] == b[..4] == Encode32(t.kind);
    assert info[off + 4..off + 8] == (b + rest)[4..8] == b[4..8] == Encode32(8 + |t.payload|);
    WordReads(info, off, t.kind);
    WordReads(info, off + 4, 8 + |t.payload|);
    assert info[off + |b|..] == (b + rest)[|b|..] == rest;
  }

  /** What the header at an offset says when the bytes from there on are these tags. */
  lemma HeaderAt(info: seq<Byte>, off: nat, tags: seq<Tag>)
    requires off <= |info| && info[off..] == TagsBytes(tags)
    requires forall k :: 0 <= k < |tags| ==> tags[k].Valid()
    ensures off + 8 <= |info|
    ensures tags == [] ==> Word(info, off) == END
    ensures tags != [] ==>
              && Word(info, off) == tags[0].kind && Word(info, off + 4) == 8 + |tags[0].payload|
              && off + Padded(8 + |tags[0].payload|) + 8 <= |info|
              && info[off + Padded(8 + |tags[0].payload|)..] == TagsBytes(tags[1..])
  {
    hide Encode32, Padded, Word, TagBytes;
    assert |info[off..]| == |info| - off;
    if tags == [] {
      assert info[off..off + 4] == info[off..][..4] == Encode32(END);
      WordReads(info, off, END);
    } else {
      TagAt(info, off, tags[0], TagsBytes(tags[1..]));
    }
  }

  lemma FirstTagAt(tags: seq<Tag>)
    ensures |Info(tags)| >= 16 && Info(tags)[8..] == TagsBytes(tags)
  {
    hide Encode32;
  }

  /** Where a walk that looks for the memory map stands after k tags: it has seen them all and none was one. */
  ghost predicate Reached(info: seq<Byte>, off: nat, tags: seq<Tag>, k: nat) {
    Stands(info, off, tags, k) && forall j :: 0 <= j < k ==> tags[j].kind != MMAP
  }

  /** What the header tells a walk at a tag boundary: the end, the kind, and where the next tag is. */
  lemma StandsDecides(info: seq<Byte>, off: nat, tags: seq<Tag>, k: nat)
    requires ValidTags(tags) && Stands(info, off, tags, k)
    ensures off + 8 <= |info| && (Word(info, off) == END <==> k == |tags|)
    ensures k < |tags| ==> Word(info, off) == tags[k].kind && Word(info, off + 4) + 7 < U32
    ensures k < |tags| ==> Stands(info, off + Padded(Word(info, off + 4)), tags, k + 1)
  {
    hide Padded, Word, TagsBytes, FirstOf;
    HeaderAt(info, off, tags[k..]);
    if k < |tags| {
      assert tags[k..][0] == tags[k] && tags[k..][1..] == tags[k + 1..];
    }
  }

  lemma FirstIsLater(tags: seq<Tag>, k: nat)
    requires k <= |tags| && forall j :: 0 <= j < k ==> tags[j].kind != MMAP
    ensures FirstOf(tags, MMAP) >= k
  {
  }

  lemma FirstHere(tags: seq<Tag>, k: nat)
    requires k < |tags| && forall j :: 0 <= j < k ==> tags[j].kind != MMAP
    ensures FirstOf(tags, MMAP) == k <==> tags[k].kind == MMAP
  {
  }

  lemma AtDecides(info: seq<Byte>, off: nat, tags: seq<Tag>, k: nat)
    requires ValidTags(tags) && Reached(info, off, tags, k)
    ensures off + 8 <= |info| && (Word(info, off) == END <==> k == |tags|)
    ensures Word(info, off) == MMAP <==> k < |tags| && k == FirstOf(tags, MMAP)
    ensures k == |tags| ==> FirstOf(tags, MMAP) == |tags|
    ensures k < |tags| && Word(info, off) != MMAP ==> Reached(info, off + Padded(Word(info, off + 4)), tags, k + 1)
    ensures k < |tags| ==> Word(info, off + 4) + 7 < U32
  {
    assert k <= |tags|;
    hide Padded, Word, Stands, FirstOf, TagsBytes, ValidTags;
    StandsDecides(info, off, tags, k);
    if k == |tags| {
      FirstIsLater(tags, k);
    } else {
      FirstHere(tags, k);
    }
  }

  lemma StepForward(info: seq<Byte>, off: nat, tags: seq<Tag>, k: nat)
    requires ValidTags(tags) && Reached(info, off, tags, k) && k < |tags|
    ensures off + 8 <= |info| && Padded(Word(info, off + 4)) >= 8
  {
    hide Word, TagsBytes;
    HeaderAt(info, off, tags[k..]);
  }

  lemma ByteKind(v: nat)
    requires v < 256
    ensures ByteOf(v, 0) == v && ByteOf(v, 1) == 0 && ByteOf(v, 2) == 0 && ByteOf(v, 3) == 0
  {
  }

  /** Where a walk finds a tag of a small kind: a multiple of 8, with the kind as first byte and three zeros. */
  lemma FoundAt(info: seq<Byte>, off: nat, tags: seq<Tag>, k: nat)
    requires info == Info(tags) && Stands(info, off, tags, k) && k < |tags| && tags[k].kind < 256
    ensures off % 8 == 0 && off + 4 <= |info| && info[off..off + 4] == [tags[k].kind as Byte, 0, 0, 0]
  {
    hide Stands, Info;
    BoundariesAreAligned(info, off, tags, k);
    KindBytes(info, off, tags, k);
    ByteKind(tags[k].kind);
  }

  /** parse_multiboot_mmap: the offset of the first memory map tag, if there is one. */
  method FindMmap(info: seq<Byte>, ghost tags: seq<Tag>) returns (r: Option<nat>)
    requires ValidTags(tags) && info == Info(tags)
    ensures r.None? <==> FirstOf(tags, MMAP) == |tags|
    ensures r.Some? ==> r.value <= |info| && info[r.value..] == TagsBytes(tags[FirstOf(tags, MMAP)..])
    ensures r.Some? ==> r.value % 8 == 0 && r.value + 4 <= |info| && info[r.value..r.value + 4] == [6, 0, 0, 0]
  {
    hide Info, Word, TagsBytes;
    FirstTagAt(tags);
    var off: nat := 8;
    ghost var k := 0;
    assert tags[0..] == tags;
    AtDecides(info, off, tags, k);
    while Word(info, off) != END
      invariant Reached(info, off, tags, k) && off + 8 <= |info|
      decreases |info| - off
    {
      AtDecides(info, off, tags, k);
      if Word(info, off) == MMAP {
        FoundAt(info, off, tags, FirstOf(tags, MMAP));
        return Some(off);
      }
      AtDecides(info, off + Padded(Word(info, off + 4)), tags, k + 1);
      StepForward(info, off, tags, k);
      off := off + Padded(Word(info, off + 4));
      k := k + 1;
    }
    AtDecides(info, off, tags, k);
    return None;
  }

  /** The walk of pmm_mark_free_regions, which gives up after 100 tags. */
  method FindMmapEarly(info: seq<Byte>, ghost tags: seq<Tag>) returns (r: Option<nat>)
    requires ValidTags(tags) && info == Info(tags)
    ensures r.Some? <==> FirstOf(tags, MMAP) < |tags| && FirstOf(tags, MMAP) < 100
    ensures r.Some? ==> r.value <= |info| && info[r.value..] == TagsBytes(tags[FirstOf(tags, MMAP)..])
    ensures r.Some? ==> r.value % 8 == 0 && r.value + 4 <= |info| && info[r.value..r.value + 4] == [6, 0, 0, 0]
  {
    hide Info, Word, TagsBytes, FirstOf;
    FirstTagAt(tags);
    var off: nat := 8;
    var tagCount: nat := 0;
    assert tags[0..] == tags;
    AtDecides(info, off, tags, tagCount);
    while Word(info, off) != END && tagCount < TAG_LIMIT
      invariant tagCount <= TAG_LIMIT && Reached(info, off, tags, tagCount) && off + 8 <= |info|
      decreases TAG_LIMIT - tagCount
    {
      AtDecides(info, off, tags, tagCount);
      if Word(info, off) == MMAP {
        FoundAt(info, off, tags, FirstOf(tags, MMAP));
        return Some(off);
      }
      AtDecides(info, off + Padded(Word(info, off + 4)), tags, tagCount + 1);
      off := off + Padded(Word(info, off + 4));
      tagCount := tagCount + 1;
    }
    AtDecides(info, off, tags, tagCount);
    FirstIsLater(tags, tagCount);
    return None;
  }

  /** The Zig kernel's iterator over the same bytes. */
  class TagIterator {
    const info: seq<Byte>

    var current: nat

    const end: nat

    constructor (info: seq<Byte>)
      requires |info| >= 16
      ensures this.info == info && current == 8 && end == Word(info, 0)
    {
      this.info := info;
      current := 8;
      end := Word(info, 0);
    }

    /** next: the offset of the current tag, moving past it; None at the end tag. */
    method Next(ghost tags: seq<Tag>, ghost k: nat) returns (tag: Option<nat>)
      requires ValidTags(tags) && info == Info(tags) && end == |info| && Stands(info, current, tags, k)
      modifies this
      ensures k == |tags| ==> tag == None && current == old(current)
      ensures k < |tags| ==> tag == Some(old(current)) && Stands(info, current, tags, k + 1)
    {
      hide Info, Word, TagsBytes, FirstOf;
      StandsDecides(info, current, tags, k);
      if current >= end {
        return None;
      }
      if Word(info, current) == END {
        return None;
      }
      tag := Some(current);
      current := current + Padded(Word(info, current + 4));
    }
  }

  lemma TotalSize(tags: seq<Tag>)
    requires ValidTags(tags)
    ensures |Info(tags)| >= 16 && Word(Info(tags), 0) == |Info(tags)|
  {
    hide Encode32, Decode32, TagsBytes;
    assert Info(tags)[0..4] == Encode32(8 + |TagsBytes(tags)|);
    Decode32Inverse(8 + |TagsBytes(tags)|);
  }

  lemma FirstAtMost(tags: seq<Tag>)
    ensures FirstOf(tags, MMAP) <= |tags|
  {
  }

  /** find_mmap_tag finds the tag the C kernel's walk finds. */
  method FindMmapZig(info: seq<Byte>, ghost tags: seq<Tag>) returns (r: Option<nat>)
    requires ValidTags(tags) && info == Info(tags)
    ensures r.None? <==> FirstOf(tags, MMAP) == |tags|
    ensures r.Some? ==> r.value <= |info| && info[r.value..] == TagsBytes(tags[FirstOf(tags, MMAP)..])
    ensures r.Some? ==> r.value % 8 == 0 && r.value + 4 <= |info| && info[r.value..r.value + 4] == [6, 0, 0, 0]
  {
    hide Info, Word, TagsBytes, FirstOf;
    FirstTagAt(tags);
    TotalSize(tags);
    var iter := new TagIterator(info);
    ghost var k := 0;
    assert tags[0..] == tags;
    AtDecides(info, iter.current, tags, k);
    var tag := iter.Next(tags, k);
    while tag.Some?
      invariant k <= |tags| && (tag.Some? <==> k < |tags|)
      invariant tag.Some? ==> Reached(info, tag.value, tags, k)
      invariant tag.Some? ==> Stands(info, iter.current, tags, k + 1)
      invariant forall j :: 0 <= j < k ==> tags[j].kind != MMAP
      invariant iter.info == info && iter.end == |info|
      decreases |tags| - k
    {
      AtDecides(info, tag.value, tags, k);
      FirstHere(tags, k);
      if Word(info, tag.value) == MMAP {
        FoundAt(info, tag.value, tags, k);
        return Some(tag.value);
      }
      tag := iter.Next(tags, k + 1);
      k := k + 1;
    }
    FirstIsLater(tags, k);
    FirstAtMost(tags);
    return None;
  }

  const ACPI_OLD: nat := 14
  const ACPI_NEW: nat := 15

  predicate IsAcpi(t: Tag) {
    t.kind == ACPI_OLD || t.kind == ACPI_NEW
  }

  lemma FirstStands(info: seq<Byte>, tags: seq<Tag>)
    requires info == Info(tags)
    ensures Stands(info, 8, tags, 0)
  {
    FirstTagAt(tags);
    assert tags[0..] == tags;
  }

  /** The position of the first tag of either ACPI kind, or the number of tags. */
  function FirstAcpi(tags: seq<Tag>): (k: nat)
    ensures k <= |tags| && (k < |tags| ==> IsAcpi(tags[k]))
    ensures forall j :: 0 <= j < k ==> !IsAcpi(tags[j])
  {
    if tags == [] || IsAcpi(tags[0]) then 0 else 1 + FirstAcpi(tags[1..])
  }

  /** find_acpi_tag: the first tag of either ACPI kind, also when it comes after the memory map. */
  method FindAcpiZig(info: seq<Byte>, ghost tags: seq<Tag>) returns (r: Option<nat>)
    requires ValidTags(tags) && info == Info(tags)
    ensures r.None? <==> FirstAcpi(tags) == |tags|
    ensures r.Some? ==> Stands(info, r.value, tags, FirstAcpi(tags))
    ensures r.Some? ==> r.value % 8 == 0 && r.value + 4 <= |info|
    ensures r.Some? ==> info[r.value..r.value + 4] == [14, 0, 0, 0] || info[r.value..r.value + 4] == [15, 0, 0, 0]
  {
    hide Info, Word, TagsBytes, FirstOf, FirstAcpi, Stands;
    FirstStands(info, tags);
    TotalSize(tags);
    var iter := new TagIterator(info);
    ghost var k := 0;
    var tag := iter.Next(tags, k);
    while tag.Some?
      invariant k <= |tags| && (tag.Some? <==> k < |tags|)
      invariant tag.Some? ==> Stands(info, tag.value, tags, k) && Stands(info, iter.current, tags, k + 1)
      invariant forall j :: 0 <= j < k ==> !IsAcpi(tags[j])
      invariant iter.info == info && iter.end == |info|
      decreases |tags| - k
    {
      StandsDecides(info, tag.value, tags, k);
      if Word(info, tag.value) == ACPI_NEW || Word(info, tag.value) == ACPI_OLD {
        assert k == FirstAcpi(tags);
        FoundAt(info, tag.value, tags, k);
        return Some(tag.value);
      }
      tag := iter.Next(tags, k + 1);
      k := k + 1;
    }
    return None;
  }

  // The memory map tag: entry size, version, and entries of that size, of which the first 20 bytes are used.

  const ENTRY_BYTES: nat := 24

  predicate ValidEntry(e: MmapEntry) {
    e.addr < U32 * U32 && e.len < U32 * U32 && e.kind < U32
  }

  function EntryBytes(e: MmapEntry, size: nat): (b: seq<Byte>)
    requires ValidEntry(e) && size >= ENTRY_BYTES
    ensures |b| == size
  {
    Encode64(e.addr) + Encode64(e.len) + Encode32(e.kind) + seq(size - 20, _ => 0)
  }

  function EntriesBytes(entries: seq<MmapEntry>, size: nat): (b: seq<Byte>)
    requires (forall k :: 0 <= k < |entries| ==> ValidEntry(entries[k])) && size >= ENTRY_BYTES
    ensures |b| == |entries| * size
  {
    if entries == [] then [] else
    assert |entries| * size == size + (|entries| - 1) * size;
    EntryBytes(entries[0], size) + EntriesBytes(entries[1..], size)
  }

  function MmapTag(entries: seq<MmapEntry>, size: nat, version: nat): Tag
    requires (forall k :: 0 <= k < |entries| ==> ValidEntry(entries[k])) && size >= ENTRY_BYTES
  {
    Tag(MMAP, Encode32(size) + Encode32(version) + EntriesBytes(entries, size))
  }

  lemma NextStride(i: nat, size: nat)
    ensures (i + 1) * size == i * size + size
  {
  }

  lemma CountOfEntries(n: nat, size: nat)
    requires size > 0
    ensures (16 + n * size - 16) / size == n
  {
    Bits.DivModUnique(n * size, size, n, 0);
  }

  lemma MmapHeader(info: seq<Byte>, off: nat, entries: seq<MmapEntry>, size: nat, version: nat)
    requires (forall k :: 0 <= k < |entries| ==> ValidEntry(entries[k])) && ENTRY_BYTES <= size < U32
    requires MmapTag(entries, size, version).Valid()
    requires off <= |info| && TagBytes(MmapTag(entries, size, version)) <= info[off..]
    ensures off + 16 <= |info| && Word(info, off + 4) == 16 + |entries| * size && Word(info, off + 8) == size
    ensures EntriesBytes(entries, size) <= info[off + 16..]
  {
    hide Encode32, Decode32, Padded, EntriesBytes;
    var t := TagBytes(MmapTag(entries, size, version));
    var rest := info[off..];
    var total := 8 + |MmapTag(entries, size, version).payload|;
    assert t[4..8] == Encode32(total) && t[8..12] == Encode32(size);
    assert info[off + 4..off + 8] == rest[4..8] == t[4..8];
    assert info[off + 8..off + 12] == rest[8..12] == t[8..12];
    Decode32Inverse(total);
    Decode32Inverse(size);
    assert t[16..16 + |entries| * size] == EntriesBytes(entries, size);
    assert info[off + 16..][..|entries| * size] == t[16..16 + |entries| * size];
  }

  lemma EntryAt(info: seq<Byte>, at: nat, entries: seq<MmapEntry>, size: nat)
    requires entries != [] && (forall k :: 0 <= k < |entries| ==> ValidEntry(entries[k])) && size >= ENTRY_BYTES
    requires at <= |info| && EntriesBytes(entries, size) <= info[at..]
    ensures at + size <= |info|
    ensures MmapEntry(Word64(info, at), Word64(info, at + 8), Word(info, at + 16)) == entries[0]
    ensures EntriesBytes(entries[1..], size) <= info[at + size..]
  {
    hide Encode32, Decode32, Encode64, Decode64;
    var b := EntryBytes(entries[0], size);
    var e := entries[0];
    var rest := info[at..];
    assert b == rest[..size];
    assert b[..8] == Encode64(e.addr) && b[8..16] == Encode64(e.len) && b[16..20] == Encode32(e.kind);
    assert info[at..at + 8] == b[..8] && info[at + 8..at + 16] == b[8..16] && info[at + 16..at + 20] == b[16..20];
    Decode64Inverse(e.addr);
    Decode64Inverse(e.len);
    Decode32Inverse(e.kind);
    assert info[at + size..] == rest[size..];
  }

  /** The entry loop both C walks run over the tag at `off`: entries are strided by the tag's own entry size. */
  method ReadEntries(info: seq<Byte>, off: nat, ghost entries: seq<MmapEntry>, ghost size: nat, ghost version: nat)
    returns (r: seq<MmapEntry>)
    requires (forall k :: 0 <= k < |entries| ==> ValidEntry(entries[k])) && ENTRY_BYTES <= size < U32
    requires MmapTag(entries, size, version).Valid()
    requires off <= |info| && TagBytes(MmapTag(entries, size, version)) <= info[off..]
    ensures r == entries
  {
    hide Encode32, Decode32, Encode64, Decode64, Word, Word64, Padded, EntryBytes, EntriesBytes;
    MmapHeader(info, off, entries, size, version);
    var entrySize := Word(info, off + 8);
    var count := (Word(info, off + 4) - 16) / entrySize;
    CountOfEntries(|entries|, size);
    r := [];
    var i: nat := 0;
    assert entries[0..] == entries;
    while i < count
      invariant i <= count == |entries| && entrySize == size && r == entries[..i]
      invariant off + 16 + i * entrySize <= |info|
      invariant EntriesBytes(entries[i..], size) <= info[off + 16 + i * entrySize..]
    {
      EntryAt(info, off + 16 + i * entrySize, entries[i..], size);
      assert entries[i..][0] == entries[i] && entries[i..][1..] == entries[i + 1..];
      var at := off + 16 + i * entrySize;
      r := r + [MmapEntry(Word64(info, at), Word64(info, at + 8), Word(info, at + 16))];
      NextStride(i, entrySize);
      i := i + 1;
    }
    assert entries[..i] == entries;
  }

  /** A memory map entry in memory: address at 0, length at 8, type at 16. */
  lemma EntryLayout(e: MmapEntry, size: nat, j: nat)
    requires ValidEntry(e) && size >= ENTRY_BYTES && j < 8
    ensures var b := EntryBytes(e, size);
            |b| == size && b[j] == ByteOf(e.addr, j) && b[8 + j] == ByteOf(e.len, j) && (j < 4 ==> b[16 + j] == ByteOf(e.kind, j))
  {
    hide Encode32, Encode64;
    Encode64Bytes(e.addr, j);
    Encode64Bytes(e.len, j);
    if j < 4 {
      Encode32Bytes(e.kind, j);
    }
  }

  lemma {:induction false} EntryIsAt(entries: seq<MmapEntry>, size: nat, i: nat)
    requires (forall k :: 0 <= k < |entries| ==> ValidEntry(entries[k])) && size >= ENTRY_BYTES && i < |entries|
    ensures 0 <= i * size <= (i + 1) * size <= |entries| * size == |EntriesBytes(entries, size)|
    ensures EntriesBytes(entries, size)[i * size..(i + 1) * size] == EntryBytes(entries[i], size)
    decreases i
  {
    hide EntryBytes;
    NextStride(i, size);
    var b := EntriesBytes(entries, size);
    if i == 0 {
      NextStride(|entries| - 1, size);
      assert b[..size] == EntryBytes(entries[0], size);
    } else {
      EntryIsAt(entries[1..], size, i - 1);
      NextStride(i - 1, size);
      NextStride(|entries| - 1, size);
      assert b[size..] == EntriesBytes(entries[1..], size);
      assert b[i * size..(i + 1) * size] == b[size..][(i - 1) * size..i * size];
    }
  }

  lemma PayloadAt(b: seq<Byte>, payload: seq<Byte>, at: nat, j: nat)
    requires 8 <= at && at + j < 8 + |payload| <= |b| && b[8..8 + |payload|] == payload
    ensures b[at + j] == payload[at - 8 + j]
  {
    assert b[at + j] == b[8..8 + |payload|][at - 8 + j];
  }

  /** The head of the memory map tag in memory: type 6, entry size at 8, version at 12. */
  lemma MmapTagLayout(entries: seq<MmapEntry>, size: nat, version: nat, j: nat)
    requires (forall k :: 0 <= k < |entries| ==> ValidEntry(entries[k])) && size >= ENTRY_BYTES && j < 4
    ensures var b := TagBytes(MmapTag(entries, size, version));
            && |b| >= 16 && b[..4] == [6, 0, 0, 0]
            && b[8 + j] == ByteOf(size, j) && b[12 + j] == ByteOf(version, j)
  {
    hide Encode32, EntryBytes, EntriesBytes, TagBytes, Padded;
    var t := MmapTag(entries, size, version);
    TagLayout(t, 0);
    TagLayout(t, 1);
    TagLayout(t, 2);
    TagLayout(t, 3);
    ByteKind(6);
    Encode32Bytes(size, j);
    Encode32Bytes(version, j);
    PayloadAt(TagBytes(t), t.payload, 8, j);
    PayloadAt(TagBytes(t), t.payload, 12, j);
  }

  lemma SlicesOfPayload(b: seq<Byte>, payload: seq<Byte>, from: nat, end: nat)
    requires 8 <= |payload| && from <= end <= |payload| - 8 && 8 + |payload| <= |b| && b[8..8 + |payload|] == payload
    ensures b[16 + from..16 + end] == payload[8..][from..end]
  {
    var (left, right) := (b[16 + from..16 + end], payload[8..][from..end]);
    forall i: nat | i < end - from ensures left[i] == right[i] {
      assert left[i] == b[16 + from + i] == b[8..8 + |payload|][8 + from + i];
    }
    assert |left| == |right|;
  }

  /** Entry i of the memory map tag is at 16 + i * size. */
  lemma MmapEntryLayout(entries: seq<MmapEntry>, size: nat, version: nat, i: nat)
    requires (forall k :: 0 <= k < |entries| ==> ValidEntry(entries[k])) && size >= ENTRY_BYTES && i < |entries|
    ensures var b := TagBytes(MmapTag(entries, size, version));
            && 0 <= i * size && 16 + i * size + size <= |b|
            && b[16 + i * size..16 + i * size + size] == EntryBytes(entries[i], size)
  {
    hide Encode32, EntryBytes, EntriesBytes, TagBytes, Padded;
    var t := MmapTag(entries, size, version);
    TagLayout(t, 0);
    EntryIsAt(entries, size, i);
    NextStride(i, size);
    var (from, end) := (i * size, i * size + size);
    assert t.payload[8..] == EntriesBytes(entries, size);
    SlicesOfPayload(TagBytes(t), t.payload, from, end);
  }
}
