/** Reading the program headers of an ELF file (libs/elfparse/src/lib.rs), and loading what they
    describe (uefi_bootloader/src/kernel.rs). */
module ElfFiles {
  import opened MachineInts
  import RangeSets
  import opened PhysicalMemories
  import opened PageTrees
  import opened PageMaps
  import opened PageSnapshots
  import opened PageRegions
  import opened PageTables
  import PageRuns
  import opened KernelAddressSpaces

  type Bytes = seq<byte>

  // ---------------------------------------------------------------------------------------
  // Numbers in files
  // ---------------------------------------------------------------------------------------

  datatype Endianness = Little | Big

  /** `byte_slice`: `None` when the end overflows a pointer or lies behind the last byte. */
  function ByteSlice(bytes: Bytes, offset: nat, size: nat, usizeMax: u64): (r: Option<Bytes>)
    ensures r.Some? <==> offset + size <= usizeMax && offset + size <= |bytes|
    ensures r.Some? ==> r.value == bytes[offset..offset + size]
  {
    if offset > usizeMax || size > usizeMax || offset + size > usizeMax then None
    else if offset + size > |bytes| then None
    else Some(bytes[offset..offset + size])
  }

  /** `from_le_bytes` */
  function FromLittle(bytes: Bytes): (v: nat)
    ensures v < Pow256(|bytes|)
  {
    if bytes == [] then 0 else bytes[0] + 0x100 * FromLittle(bytes[1..])
  }

  function FromBytes(bytes: Bytes, e: Endianness): (v: nat)
    ensures v < Pow256(|bytes|)
  {
    FromLittle(if e.Little? then bytes else Reversed(bytes))
  }

  function Reversed(bytes: Bytes): (r: Bytes)
    ensures |r| == |bytes|
  {
    if bytes == [] then [] else Reversed(bytes[1..]) + [bytes[0]]
  }

  /** The bytes of a number, as a linker writes them. */
  function ToLittle(v: nat, width: nat): (r: Bytes)
    ensures |r| == width
  {
    if width == 0 then [] else [v % 0x100] + ToLittle(v / 0x100, width - 1)
  }

  function ToBytes(v: nat, width: nat, e: Endianness): (r: Bytes)
    ensures |r| == width
  {
    if e.Little? then ToLittle(v, width) else Reversed(ToLittle(v, width))
  }

  lemma {:induction false} LittleRoundTrip(v: nat, width: nat)
    requires v < Pow256(width)
    ensures FromLittle(ToLittle(v, width)) == v
  {
    if width > 0 { LittleRoundTrip(v / 0x100, width - 1); }
  }

  lemma {:induction false} ReversedTwice(bytes: Bytes)
    ensures Reversed(Reversed(bytes)) == bytes
  {
    if bytes != [] {
      ReversedTwice(bytes[1..]);
      ReversedEnd(Reversed(bytes[1..]), bytes[0]);
    }
  }

  lemma {:induction false} ReversedEnd(bytes: Bytes, b: byte)
    ensures Reversed(bytes + [b]) == [b] + Reversed(bytes)
  {
    if bytes != [] {
      assert (bytes + [b])[1..] == bytes[1..] + [b];
      ReversedEnd(bytes[1..], b);
    }
  }

  /** What was written in either byte order is read back. */
  lemma BytesRoundTrip(v: nat, width: nat, e: Endianness)
    requires v < Pow256(width)
    ensures FromBytes(ToBytes(v, width, e), e) == v
  {
    LittleRoundTrip(v, width);
    ReversedTwice(ToLittle(v, width));
  }

  /** `Reader::read` for a number of `width` bytes. */
  function Read(bytes: Bytes, offset: nat, width: nat, e: Endianness, usizeMax: u64): (r: Option<nat>)
    ensures r.Some? ==> r.value < Pow256(width)
  {
    match ByteSlice(bytes, offset, width, usizeMax)
    case None => None
    case Some(slice) => Some(FromBytes(slice, e))
  }

  // ---------------------------------------------------------------------------------------
  // Program headers
  // ---------------------------------------------------------------------------------------

  /** The parts of a parsed file that segments depend on. */
  datatype Elf = Elf(bytes: Bytes, segmentTable: u64, segmentCount: u64, segmentEntrySize: u64, entrypoint: u64,
                     wide: bool, endianness: Endianness)

  datatype Header = Header(typ: nat, flags: nat, rawOffset: nat, virtAddr: nat, rawSize: nat, virtSize: nat, align: nat)

  /** Where the fields of a program header are, and how wide they are, in 64-bit and 32-bit files. */
  datatype Field = Field(offset: nat, width: nat)

  function TypeField(): Field { Field(0x00, 4) }
  function FlagsField(wide: bool): Field { if wide then Field(0x04, 4) else Field(0x18, 4) }
  function OffsetField(wide: bool): Field { if wide then Field(0x08, 8) else Field(0x04, 4) }
  function AddressField(wide: bool): Field { if wide then Field(0x10, 8) else Field(0x08, 4) }
  function FileSizeField(wide: bool): Field { if wide then Field(0x20, 8) else Field(0x10, 4) }
  function MemorySizeField(wide: bool): Field { if wide then Field(0x28, 8) else Field(0x14, 4) }
  function AlignField(wide: bool): Field { if wide then Field(0x30, 8) else Field(0x1c, 4) }

  function ReadField(bytes: Bytes, f: Field, e: Endianness, usizeMax: u64): (r: Option<nat>)
    ensures r.Some? ==> r.value < Pow256(f.width)
  {
    Read(bytes, f.offset, f.width, e, usizeMax)
  }

  /** `segment_by_index`. The offset of the entry is computed modulo 2^64. */
  function SegmentByIndex(elf: Elf, index: u64, usizeMax: u64): Option<Segment> {
    if index >= elf.segmentCount then None
    else
      var entry := (index * elf.segmentEntrySize % TWO_64 + elf.segmentTable) % TWO_64;
      match ByteSlice(elf.bytes, entry, elf.segmentEntrySize, usizeMax)
      case None => None
      case Some(header) => SegmentOf(elf, header, usizeMax)
  }

  function SegmentOf(elf: Elf, header: Bytes, usizeMax: u64): Option<Segment> {
    var w, e := elf.wide, elf.endianness;
    var typ := ReadField(header, TypeField(), e, usizeMax);
    var virtAddr := ReadField(header, AddressField(w), e, usizeMax);
    var virtSize := ReadField(header, MemorySizeField(w), e, usizeMax);
    var rawOffset := ReadField(header, OffsetField(w), e, usizeMax);
    var rawSize := ReadField(header, FileSizeField(w), e, usizeMax);
    var flags := ReadField(header, FlagsField(w), e, usizeMax);
    var align := ReadField(header, AlignField(w), e, usizeMax);
    if typ.None? || virtAddr.None? || virtSize.None? || rawOffset.None? || rawSize.None? || flags.None? || align.None? then None
    else
      match ByteSlice(elf.bytes, rawOffset.value, rawSize.value, usizeMax)
      case None => None
      case Some(bytes) =>
        assert Pow256(4) < TWO_64 && Pow256(8) == TWO_64;
        Some(Segment(typ.value == 1, virtAddr.value, virtSize.value, bytes, flags.value / 2 % 2 == 1, flags.value % 2 == 1))
  }

  /** The values fit their fields. */
  ghost predicate HeaderFits(h: Header, wide: bool) {
    var limit := Pow256(if wide then 8 else 4);
    && h.typ < Pow256(4) && h.flags < Pow256(4)
    && h.rawOffset < limit && h.virtAddr < limit && h.rawSize < limit && h.virtSize < limit && h.align < limit
  }

  ghost predicate WrittenAt(bytes: Bytes, f: Field, v: nat, e: Endianness) {
    f.offset + f.width <= |bytes| && bytes[f.offset..f.offset + f.width] == ToBytes(v, f.width, e)
  }

  /** A program header as the ELF specification lays it out; `physAddr` is the field that the code skips. */
  ghost function Layout(h: Header, physAddr: nat, wide: bool, e: Endianness): Bytes {
    if wide then
      ToBytes(h.typ, 4, e) + ToBytes(h.flags, 4, e) + ToBytes(h.rawOffset, 8, e) + ToBytes(h.virtAddr, 8, e)
      + ToBytes(physAddr, 8, e) + ToBytes(h.rawSize, 8, e) + ToBytes(h.virtSize, 8, e) + ToBytes(h.align, 8, e)
    else
      ToBytes(h.typ, 4, e) + ToBytes(h.rawOffset, 4, e) + ToBytes(h.virtAddr, 4, e) + ToBytes(physAddr, 4, e)
      + ToBytes(h.rawSize, 4, e) + ToBytes(h.virtSize, 4, e) + ToBytes(h.flags, 4, e) + ToBytes(h.align, 4, e)
  }

  /** The bytes start with the header. */
  ghost predicate Written(bytes: Bytes, h: Header, physAddr: nat, wide: bool, e: Endianness) {
    Layout(h, physAddr, wide, e) <= bytes
  }

  /** The code looks for every field where the specification puts it. */
  lemma FieldsAreInPlace(bytes: Bytes, h: Header, physAddr: nat, wide: bool, e: Endianness)
    requires Written(bytes, h, physAddr, wide, e)
    ensures WrittenAt(bytes, TypeField(), h.typ, e) && WrittenAt(bytes, FlagsField(wide), h.flags, e)
    ensures WrittenAt(bytes, OffsetField(wide), h.rawOffset, e) && WrittenAt(bytes, AddressField(wide), h.virtAddr, e)
    ensures WrittenAt(bytes, FileSizeField(wide), h.rawSize, e) && WrittenAt(bytes, MemorySizeField(wide), h.virtSize, e)
    ensures WrittenAt(bytes, AlignField(wide), h.align, e)
  {
    hide ToBytes;
  }

  lemma FieldIsReadBack(bytes: Bytes, f: Field, v: nat, e: Endianness, usizeMax: u64)
    requires WrittenAt(bytes, f, v, e) && v < Pow256(f.width) && |bytes| <= usizeMax
    ensures ReadField(bytes, f, e, usizeMax) == Some(v)
  {
    BytesRoundTrip(v, f.width, e);
  }

  /** A program header that was written in either width and either byte order is read back, and the
      segment gets exactly its bytes of the file. It is refused only when they lie outside the file. */
  lemma HeaderIsReadBack(elf: Elf, header: Bytes, h: Header, physAddr: nat, usizeMax: u64)
    requires HeaderFits(h, elf.wide) && Written(header, h, physAddr, elf.wide, elf.endianness)
    requires |header| <= usizeMax && |elf.bytes| <= usizeMax
    ensures SegmentOf(elf, header, usizeMax) ==
      if h.rawOffset + h.rawSize <= |elf.bytes|
      then Some(Segment(h.typ == 1, h.virtAddr, h.virtSize, elf.bytes[h.rawOffset..h.rawOffset + h.rawSize],
                        h.flags / 2 % 2 == 1, h.flags % 2 == 1))
      else None
  {
    hide ReadField, WrittenAt, Written;
    var w, e := elf.wide, elf.endianness;
    FieldsAreInPlace(header, h, physAddr, w, e);
    assert Pow256(4) == 0x1_0000_0000 && Pow256(8) == TWO_64;
    FieldIsReadBack(header, TypeField(), h.typ, e, usizeMax);
    FieldIsReadBack(header, FlagsField(w), h.flags, e, usizeMax);
    FieldIsReadBack(header, OffsetField(w), h.rawOffset, e, usizeMax);
    FieldIsReadBack(header, AddressField(w), h.virtAddr, e, usizeMax);
    FieldIsReadBack(header, FileSizeField(w), h.rawSize, e, usizeMax);
    FieldIsReadBack(header, MemorySizeField(w), h.virtSize, e, usizeMax);
    FieldIsReadBack(header, AlignField(w), h.align, e, usizeMax);
  }

  /** A header that is too short for its fields is refused. */
  lemma ShortHeadersAreRefused(elf: Elf, header: Bytes, usizeMax: u64)
    requires |header| < if elf.wide then 56 else 32
    ensures SegmentOf(elf, header, usizeMax).None?
  {
    hide FromBytes;
    assert ReadField(header, AlignField(elf.wide), elf.endianness, usizeMax).None?;
  }

  /** So a table whose entries are too short has no segments. */
  lemma ShortEntriesAreRefused(elf: Elf, i: u64, usizeMax: u64)
    requires elf.segmentEntrySize < if elf.wide then 56 else 32
    ensures SegmentByIndex(elf, i, usizeMax).None?
  {
    hide SegmentOf;
    var entry := (i * elf.segmentEntrySize % TWO_64 + elf.segmentTable) % TWO_64;
    var slice := ByteSlice(elf.bytes, entry, elf.segmentEntrySize, usizeMax);
    if slice.Some? { ShortHeadersAreRefused(elf, slice.value, usizeMax); }
  }

  // ---------------------------------------------------------------------------------------
  // Files with program headers
  // ---------------------------------------------------------------------------------------

  /** The file holds the header at entry `i` of its table. */
  ghost predicate HeaderAt(elf: Elf, h: Header, physAddr: nat, i: nat) {
    var offset := elf.segmentTable + i * elf.segmentEntrySize;
    HeaderFits(h, elf.wide) && offset <= |elf.bytes| && Written(elf.bytes[offset..], h, physAddr, elf.wide, elf.endianness)
  }

  /** A file that fits a pointer and holds the headers `hs` in its table, whose entries are long enough for them. */
  ghost predicate FileHolds(elf: Elf, hs: seq<Header>, physAddrs: seq<nat>, usizeMax: u64) {
    && |hs| == |physAddrs| == elf.segmentCount && elf.segmentEntrySize >= (if elf.wide then 56 else 32)
    && elf.segmentTable + elf.segmentCount * elf.segmentEntrySize <= |elf.bytes| <= usizeMax
    && forall i: nat :: i < |hs| ==> HeaderAt(elf, hs[i], physAddrs[i], i)
  }

  /** The bytes of the segment lie in the file. */
  ghost predicate InFile(elf: Elf, h: Header) { h.rawOffset + h.rawSize <= |elf.bytes| }

  /** What the specification says of the segment. */
  ghost predicate Describes(elf: Elf, h: Header, segment: Segment) {
    && InFile(elf, h) && segment.bytes == elf.bytes[h.rawOffset..h.rawOffset + h.rawSize]
    && (segment.load <==> h.typ == 1) && segment.virtAddr == h.virtAddr && segment.virtSize == h.virtSize
    && (segment.write <==> h.flags / 2 % 2 == 1) && (segment.execute <==> h.flags % 2 == 1)
  }

  lemma EntryInTable(table: nat, size: nat, i: nat, n: nat)
    requires i < n
    ensures table + i * size + size <= table + n * size
  {
    assert (n - i - 1) * size >= 0;
    assert n * size == (n - i - 1) * size + i * size + size;
  }

  /** Where the table has entry `i`. */
  function EntryOffset(elf: Elf, i: nat): nat { elf.segmentTable + i * elf.segmentEntrySize }

  /** The code takes entry `i` from where the table has it. */
  lemma EntryIsSliced(elf: Elf, usizeMax: u64, i: nat)
    requires i < elf.segmentCount && EntryOffset(elf, elf.segmentCount) <= |elf.bytes| <= usizeMax
    ensures var at := EntryOffset(elf, i);
      && at + elf.segmentEntrySize <= |elf.bytes|
      && SegmentByIndex(elf, i, usizeMax) == SegmentOf(elf, elf.bytes[at..at + elf.segmentEntrySize], usizeMax)
  {
    hide SegmentOf;
    EntryInTable(elf.segmentTable, elf.segmentEntrySize, i, elf.segmentCount);
    var offset := i * elf.segmentEntrySize;
    Divides(offset, TWO_64, 0, offset);
    Divides(offset + elf.segmentTable, TWO_64, 0, offset + elf.segmentTable);
  }

  lemma NoMoreSegments(elf: Elf, usizeMax: u64)
    ensures forall j: u64 :: j >= elf.segmentCount ==> SegmentByIndex(elf, j, usizeMax).None?
  {
  }

  lemma EntryOfFile(elf: Elf, hs: seq<Header>, physAddrs: seq<nat>, usizeMax: u64, i: nat)
    requires FileHolds(elf, hs, physAddrs, usizeMax) && i < |hs|
    ensures i < |physAddrs| && |hs| == elf.segmentCount && elf.segmentEntrySize >= (if elf.wide then 56 else 32)
    ensures EntryOffset(elf, i) <= EntryOffset(elf, elf.segmentCount) <= |elf.bytes| <= usizeMax
    ensures HeaderFits(hs[i], elf.wide)
    ensures Written(elf.bytes[EntryOffset(elf, i)..], hs[i], physAddrs[i], elf.wide, elf.endianness)
  {
    hide Written, HeaderFits;
    assert HeaderAt(elf, hs[i], physAddrs[i], i);
    EntryInTable(elf.segmentTable, elf.segmentEntrySize, i, elf.segmentCount);
  }

  /** Segment `i` of the file is the one that header `i` describes. It is refused only when its bytes do not lie in
      the file. */
  lemma SegmentIsRead(elf: Elf, hs: seq<Header>, physAddrs: seq<nat>, usizeMax: u64, i: nat)
    requires FileHolds(elf, hs, physAddrs, usizeMax) && i < |hs|
    ensures SegmentByIndex(elf, i, usizeMax).Some? <==> InFile(elf, hs[i])
    ensures InFile(elf, hs[i]) ==> Describes(elf, hs[i], SegmentByIndex(elf, i, usizeMax).value)
    ensures forall j: u64 :: j >= |hs| ==> SegmentByIndex(elf, j, usizeMax).None?
  {
    hide SegmentOf, Written, HeaderFits, SegmentByIndex, EntryOffset, HeaderAt, FileHolds;
    EntryOfFile(elf, hs, physAddrs, usizeMax, i);
    NoMoreSegments(elf, usizeMax);
    EntryIsSliced(elf, usizeMax, i);
    var size, at := elf.segmentEntrySize, EntryOffset(elf, i);
    var slice := elf.bytes[at..at + size];
    PrefixOfSlice(elf.bytes, at, size, hs[i], physAddrs[i], elf.wide, elf.endianness);
    HeaderIsReadBack(elf, slice, hs[i], physAddrs[i], usizeMax);
  }

  lemma PrefixOfSlice(bytes: Bytes, at: nat, size: nat, h: Header, physAddr: nat, wide: bool, e: Endianness)
    requires at + size <= |bytes| && size >= (if wide then 56 else 32) && Written(bytes[at..], h, physAddr, wide, e)
    ensures Written(bytes[at..at + size], h, physAddr, wide, e)
  {
    hide ToBytes;
    assert |Layout(h, physAddr, wide, e)| <= size;
    assert bytes[at..at + size] == bytes[at..][..size];
  }

  // ---------------------------------------------------------------------------------------
  // All segments
  // ---------------------------------------------------------------------------------------

  /** The segments up to an index, or `None` if one of them cannot be read. */
  function SegmentsUpTo(elf: Elf, n: nat, usizeMax: u64): (r: Option<seq<Segment>>)
    requires n < TWO_64
    ensures r.Some? ==> |r.value| == n
  {
    if n == 0 then Some([])
    else
      match SegmentsUpTo(elf, n - 1, usizeMax)
      case None => None
      case Some(segments) =>
        match SegmentByIndex(elf, n - 1, usizeMax)
        case None => None
        case Some(segment) => Some(segments + [segment])
  }

  /** All segments of a file are those that its headers describe. They can be read exactly when their bytes lie in the
      file. */
  lemma {:induction false} SegmentsAreRead(elf: Elf, hs: seq<Header>, physAddrs: seq<nat>, usizeMax: u64, n: nat)
    requires FileHolds(elf, hs, physAddrs, usizeMax) && n <= |hs|
    ensures SegmentsUpTo(elf, n, usizeMax).Some? <==> forall i :: 0 <= i < n ==> InFile(elf, hs[i])
    ensures SegmentsUpTo(elf, n, usizeMax).Some? ==>
              forall i :: 0 <= i < n ==> Describes(elf, hs[i], SegmentsUpTo(elf, n, usizeMax).value[i])
  {
    hide SegmentByIndex, FileHolds;
    if n > 0 {
      CountFits(elf, hs, physAddrs, usizeMax);
      SegmentsAreRead(elf, hs, physAddrs, usizeMax, n - 1);
      SegmentIsRead(elf, hs, physAddrs, usizeMax, n - 1);
    }
  }

  lemma CountFits(elf: Elf, hs: seq<Header>, physAddrs: seq<nat>, usizeMax: u64)
    requires FileHolds(elf, hs, physAddrs, usizeMax)
    ensures |hs| == elf.segmentCount < TWO_64
  {
  }

  ghost predicate IsBase(segments: seq<Segment>, base: Option<u64>) {
    match base
    case None => forall s <- segments :: !s.load
    case Some(b) =>
      && (exists s :: s in segments && s.load && s.virtAddr == b)
      && forall s <- segments :: s.load ==> b <= s.virtAddr
  }

  /** The end of `parse`: every segment can be read, and the base address is the lowest address of a
      loadable one. */
  method BaseAddress(elf: Elf, usizeMax: u64) returns (r: Option<u64>)
    ensures r.None? <==>
      || SegmentsUpTo(elf, elf.segmentCount, usizeMax).None?
      || (forall s <- SegmentsUpTo(elf, elf.segmentCount, usizeMax).value :: !s.load)
    ensures r.Some? ==> IsBase(SegmentsUpTo(elf, elf.segmentCount, usizeMax).value, r)
    ensures forall hs: seq<Header>, physAddrs: seq<nat> :: FileHolds(elf, hs, physAddrs, usizeMax) ==> IsBaseOfFile(elf, hs, r)
  {
    r := FindBase(elf, usizeMax);
    forall hs: seq<Header>, physAddrs: seq<nat> | FileHolds(elf, hs, physAddrs, usizeMax) ensures IsBaseOfFile(elf, hs, r) {
      BaseComesFromHeaders(elf, hs, physAddrs, usizeMax, r);
    }
  }

  /** The loop over the segments. */
  method FindBase(elf: Elf, usizeMax: u64) returns (r: Option<u64>)
    ensures r.None? <==>
      || SegmentsUpTo(elf, elf.segmentCount, usizeMax).None?
      || (forall s <- SegmentsUpTo(elf, elf.segmentCount, usizeMax).value :: !s.load)
    ensures r.Some? ==> IsBase(SegmentsUpTo(elf, elf.segmentCount, usizeMax).value, r)
  {
    hide SegmentByIndex, IsBase;
    NothingIsBase();
    r := None;
    for index := 0 to elf.segmentCount
      invariant SegmentsUpTo(elf, index, usizeMax).Some?
      invariant IsBase(SegmentsUpTo(elf, index, usizeMax).value, r)
    {
      ghost var before := SegmentsUpTo(elf, index, usizeMax).value;
      var segment := SegmentByIndex(elf, index, usizeMax);
      if segment.None? {
        MissingSegmentMissesAll(elf, index + 1, elf.segmentCount, usizeMax);
        return None;
      }
      BaseOfMore(before, segment.value, r);
      if segment.value.load {
        r := Some(if r.Some? then Min(r.value, segment.value.virtAddr) else segment.value.virtAddr);
      }
    }
    BaseMeaning(SegmentsUpTo(elf, elf.segmentCount, usizeMax).value, r);
  }

  /** The base is the lowest address that a header of a loadable segment names. There is none exactly when no header is one
      of a loadable segment, or when the bytes of some segment do not lie in the file. */
  ghost predicate IsBaseOfFile(elf: Elf, hs: seq<Header>, base: Option<u64>) {
    match base
    case None => (forall h <- hs :: h.typ != 1) || exists h <- hs :: !InFile(elf, h)
    case Some(b) =>
      && (forall h <- hs :: InFile(elf, h) && (h.typ == 1 ==> b <= h.virtAddr))
      && exists h <- hs :: h.typ == 1 && h.virtAddr == b
  }

  lemma BaseComesFromHeaders(elf: Elf, hs: seq<Header>, physAddrs: seq<nat>, usizeMax: u64, base: Option<u64>)
    requires FileHolds(elf, hs, physAddrs, usizeMax)
    requires base.None? <==>
      || SegmentsUpTo(elf, elf.segmentCount, usizeMax).None?
      || (forall s <- SegmentsUpTo(elf, elf.segmentCount, usizeMax).value :: !s.load)
    requires base.Some? ==> IsBase(SegmentsUpTo(elf, elf.segmentCount, usizeMax).value, base)
    ensures IsBaseOfFile(elf, hs, base)
  {
    hide FileHolds, SegmentsUpTo;
    CountFits(elf, hs, physAddrs, usizeMax);
    SegmentsAreRead(elf, hs, physAddrs, usizeMax, |hs|);
    var segments := SegmentsUpTo(elf, elf.segmentCount, usizeMax);
    if segments.Some? {
      assert forall i :: 0 <= i < |hs| ==> Describes(elf, hs[i], segments.value[i]) && segments.value[i] in segments.value;
      if base.Some? {
        var s :| s in segments.value && s.load && s.virtAddr == base.value;
        var i :| 0 <= i < |hs| && segments.value[i] == s;
        assert hs[i] in hs && hs[i].typ == 1;
      }
    }
  }

  lemma NothingIsBase()
    ensures IsBase([], None)
  {
  }

  lemma BaseMeaning(segments: seq<Segment>, base: Option<u64>)
    requires IsBase(segments, base)
    ensures base.None? <==> forall s <- segments :: !s.load
  {
  }

  lemma BaseOfMore(segments: seq<Segment>, s: Segment, base: Option<u64>)
    requires IsBase(segments, base)
    ensures IsBase(segments + [s], if s.load then Some(if base.Some? then Min(base.value, s.virtAddr) else s.virtAddr) else base)
  {
    var all := segments + [s];
    assert s in all && forall x :: x in segments ==> x in all;
  }

  lemma {:induction false} MissingSegmentMissesAll(elf: Elf, k: nat, n: nat, usizeMax: u64)
    requires k <= n < TWO_64 && SegmentsUpTo(elf, k, usizeMax).None?
    ensures SegmentsUpTo(elf, n, usizeMax).None?
  {
    hide SegmentByIndex;
    if k < n { MissingSegmentMissesAll(elf, k, n - 1, usizeMax); }
  }

  lemma {:induction false} SegmentsAreIndexed(elf: Elf, n: nat, usizeMax: u64, i: nat)
    requires n < TWO_64 && i < n && SegmentsUpTo(elf, n, usizeMax).Some?
    ensures SegmentByIndex(elf, i, usizeMax) == Some(SegmentsUpTo(elf, n, usizeMax).value[i])
  {
    if i < n - 1 { SegmentsAreIndexed(elf, n - 1, usizeMax, i); }
  }

  /** Loading a file: in the end every loadable segment that `segment_by_index` returns reads as its file
      bytes, followed by zeros, with its own rights. */
  method LoadElf(pt: PageTable, m: PhysicalMemory, elf: Elf, usizeMax: u64) returns (r: Attempt<()>)
    requires pt.Valid(m)
    modifies pt, m, m.words, m.free, m.free.ranges
    ensures !r.Refused?
    ensures r.Done? ==> pt.Valid(m) && SegmentsUpTo(elf, elf.segmentCount, usizeMax).Some?
    ensures r.Panicked? && SegmentsUpTo(elf, elf.segmentCount, usizeMax).Some? ==>
      || m.free.used == RangeSets.CAPACITY
      || (pt.Valid(m) && SomeSegmentFails(SegmentsUpTo(elf, elf.segmentCount, usizeMax).value, old(pt.State(m)), pt.State(m), pt.table))
    ensures r.Done? ==> forall i: u64 :: i < elf.segmentCount ==> SegmentIsLoaded(pt.State(m), elf, i, usizeMax)
    ensures r.Done? ==> forall hs: seq<Header>, physAddrs: seq<nat> :: FileHolds(elf, hs, physAddrs, usizeMax) ==>
              AllHeadersLoaded(pt.State(m), elf, hs)
    ensures r.Panicked? ==> forall hs: seq<Header>, physAddrs: seq<nat> :: FileHolds(elf, hs, physAddrs, usizeMax) ==>
              || (exists h <- hs :: !InFile(elf, h)) || m.free.used == RangeSets.CAPACITY
              || (pt.Valid(m) && SomeHeaderFails(elf, hs, old(pt.State(m)), pt.State(m), pt.table))
  {
    hide Loaded, SegmentByIndex, SegmentOf, SomeSegmentFails, Kept;
    var segments := SegmentsUpTo(elf, elf.segmentCount, usizeMax);
    if segments.None? {
      forall hs: seq<Header>, physAddrs: seq<nat> | FileHolds(elf, hs, physAddrs, usizeMax) ensures exists h <- hs :: !InFile(elf, h) {
        SomeBytesAreOutside(elf, hs, physAddrs, usizeMax);
      }
      return Panicked;
    }
    ghost var waste;
    r, waste := LoadSegments(pt, m, segments.value);
    if r.Done? {
      forall i: u64 | i < elf.segmentCount ensures SegmentIsLoaded(pt.State(m), elf, i, usizeMax) {
        SegmentsAreIndexed(elf, elf.segmentCount, usizeMax, i);
        assert segments.value[i].load ==> LoadedIfReachable(pt.State(m), segments.value[i]);
      }
    }
    forall hs: seq<Header>, physAddrs: seq<nat> | FileHolds(elf, hs, physAddrs, usizeMax) && r.Done?
      ensures AllHeadersLoaded(pt.State(m), elf, hs)
    {
      HeadersAreLoaded(pt.State(m), elf, hs, physAddrs, usizeMax);
    }
    forall hs: seq<Header>, physAddrs: seq<nat>
      | FileHolds(elf, hs, physAddrs, usizeMax) && SomeSegmentFails(segments.value, old(pt.State(m)), pt.State(m), pt.table)
      ensures SomeHeaderFails(elf, hs, old(pt.State(m)), pt.State(m), pt.table)
    {
      FailureHasHeader(elf, hs, physAddrs, usizeMax, segments.value, old(pt.State(m)), pt.State(m), pt.table);
    }
  }

  /** Byte `i` of the segment reads as the file says: the bytes of the file, followed by zeros, with the rights of the
      header. */
  ghost predicate ByteIsLoaded(s: Snapshot, elf: Elf, h: Header, i: nat)
    requires InFile(elf, h)
  {
    h.virtAddr + i < TWO_64
    && ReadsAs(s, h.virtAddr + i, if i < h.rawSize then elf.bytes[h.rawOffset + i] else 0, h.flags / 2 % 2 == 1, h.flags % 2 == 1)
  }

  /** All of the segment is loaded, if and only if the processor accepts its addresses. */
  ghost predicate HeaderIsLoaded(s: Snapshot, elf: Elf, h: Header)
    requires InFile(elf, h)
  {
    (forall i: nat :: i < h.virtSize ==> ByteIsLoaded(s, elf, h, i)) <==>
    || h.virtSize == 0 || h.virtAddr + h.virtSize <= 0x8000_0000_0000
    || (0xffff_8000_0000_0000 <= h.virtAddr && h.virtAddr + h.virtSize <= 0x1_0000_0000_0000_0000)
  }

  ghost predicate AllHeadersLoaded(s: Snapshot, elf: Elf, hs: seq<Header>) {
    forall h <- hs :: InFile(elf, h) && (h.typ == 1 ==> HeaderIsLoaded(s, elf, h))
  }

  /** Loading is refused for the segment of a header. */
  ghost predicate SomeHeaderFails(elf: Elf, hs: seq<Header>, a: Snapshot, b: Snapshot, root: u64) {
    exists i: nat, at: Snapshot, segment: Segment :: HeaderFails(elf, hs, i, at, segment, a, b, root)
  }

  /** The one of header `i`, in the state `at`, in which all segments before it are loaded. */
  ghost predicate HeaderFails(elf: Elf, hs: seq<Header>, i: nat, at: Snapshot, segment: Segment, a: Snapshot, b: Snapshot, root: u64) {
    && i < |hs| && hs[i].typ == 1 && Describes(elf, hs[i], segment) && SegmentFails(at, b, segment)
    && (exists waste: iset<int> :: Kept(a, at, waste)) && PageRuns.Sound(at, root)
    && forall j :: 0 <= j < i ==> InFile(elf, hs[j]) && (hs[j].typ == 1 ==> HeaderIsLoaded(at, elf, hs[j]))
  }

  lemma LoadedHeader(s: Snapshot, elf: Elf, h: Header, segment: Segment)
    requires Describes(elf, h, segment)
    ensures LoadedIfReachable(s, segment) <==> HeaderIsLoaded(s, elf, h)
  {
    hide ReadsAs;
    forall i: nat | i < h.virtSize ensures ByteIsLoaded(s, elf, h, i) <==> LoadedAt(s, segment, i) { }
  }

  lemma HeadersAreLoaded(s: Snapshot, elf: Elf, hs: seq<Header>, physAddrs: seq<nat>, usizeMax: u64)
    requires FileHolds(elf, hs, physAddrs, usizeMax)
    requires forall i: u64 :: i < elf.segmentCount ==> SegmentIsLoaded(s, elf, i, usizeMax)
    ensures AllHeadersLoaded(s, elf, hs)
  {
    hide FileHolds, LoadedIfReachable, HeaderIsLoaded, SegmentByIndex;
    CountFits(elf, hs, physAddrs, usizeMax);
    forall i | 0 <= i < |hs| ensures InFile(elf, hs[i]) && (hs[i].typ == 1 ==> HeaderIsLoaded(s, elf, hs[i])) {
      assert SegmentIsLoaded(s, elf, i, usizeMax);
      SegmentIsRead(elf, hs, physAddrs, usizeMax, i);
      LoadedHeader(s, elf, hs[i], SegmentByIndex(elf, i, usizeMax).value);
    }
  }

  lemma SomeBytesAreOutside(elf: Elf, hs: seq<Header>, physAddrs: seq<nat>, usizeMax: u64)
    requires FileHolds(elf, hs, physAddrs, usizeMax) && SegmentsUpTo(elf, elf.segmentCount, usizeMax).None?
    ensures exists h <- hs :: !InFile(elf, h)
  {
    hide FileHolds, SegmentsUpTo;
    CountFits(elf, hs, physAddrs, usizeMax);
    SegmentsAreRead(elf, hs, physAddrs, usizeMax, |hs|);
    var i :| 0 <= i < |hs| && !InFile(elf, hs[i]);
    assert hs[i] in hs;
  }

  lemma FailureHasHeader(elf: Elf, hs: seq<Header>, physAddrs: seq<nat>, usizeMax: u64, segments: seq<Segment>,
                         a: Snapshot, b: Snapshot, root: u64)
    requires FileHolds(elf, hs, physAddrs, usizeMax) && elf.segmentCount < TWO_64
    requires SegmentsUpTo(elf, elf.segmentCount, usizeMax) == Some(segments) && SomeSegmentFails(segments, a, b, root)
    ensures SomeHeaderFails(elf, hs, a, b, root)
  {
    hide FileHolds, LoadedIfReachable, HeaderIsLoaded, SegmentsUpTo, Kept, SegmentFails, PageRuns.Sound;
    CountFits(elf, hs, physAddrs, usizeMax);
    SegmentsAreRead(elf, hs, physAddrs, usizeMax, |hs|);
    var i: nat, at: Snapshot, waste: iset<int> :| FailsAt(segments, i, a, at, waste, b, root);
    forall j | 0 <= j < i ensures InFile(elf, hs[j]) && (hs[j].typ == 1 ==> HeaderIsLoaded(at, elf, hs[j])) {
      LoadedHeader(at, elf, hs[j], segments[j]);
    }
    assert HeaderFails(elf, hs, i, at, segments[i], a, b, root);
  }

  ghost predicate SegmentIsLoaded(s: Snapshot, elf: Elf, i: u64, usizeMax: u64) {
    var segment := SegmentByIndex(elf, i, usizeMax);
    segment.Some? && (segment.value.load ==> LoadedIfReachable(s, segment.value))
  }
}
