/** Building the kernel's address space: loading the ELF segments, mapping physical memory
    linearly, and later taking execution rights from that mapping. */
module KernelAddressSpaces {
  import opened MachineInts
  import opened RangeSets
  import opened PhysicalMemories
  import opened PageTrees
  import opened PageMaps
  import opened PageSnapshots
  import opened PageRegions
  import opened PageTables
  import opened PageRuns

  // ---------------------------------------------------------------------------------------
  // ELF segments
  // ---------------------------------------------------------------------------------------

  /** What the loader uses of a segment. */
  datatype Segment = Segment(load: bool, virtAddr: u64, virtSize: u64, bytes: seq<byte>, write: bool, execute: bool) {

    /** Byte `i` of the segment in memory: file bytes, then zeros. */
    function ByteInMemory(i: nat): byte {
      if i < |bytes| then bytes[i] else 0
    }

    /** `virt_addr` cut down to a page boundary, and the bytes this puts in front. */
    function Start(): u64 { virtAddr - virtAddr % 4096 }

    function FrontPadding(): nat { virtAddr % 4096 }

    /** The size passed to `map_init`: rounded up to whole pages, modulo 2^64. */
    function PaddedSize(): u64 {
      (virtSize + FrontPadding() + 0xfff) % TWO_64 / 4096 * 4096
    }

    /** The rounding above does not wrap around. */
    predicate Sized() { virtSize + FrontPadding() + 0xfff < TWO_64 }

    /** The processor accepts the addresses of the segment: they lie in one half of the canonical ones. */
    predicate Reachable() {
      || virtSize == 0
      || virtAddr + virtSize <= 0x8000_0000_0000
      || TWO_64 - 0x8000_0000_0000 <= virtAddr <= TWO_64 - virtSize
    }

    /** The byte the initializer gives for an offset from `Start()`. */
    function ByteAtOffset(offset: nat): byte {
      if offset < FrontPadding() then 0 else ByteInMemory(offset - FrontPadding())
    }

    /** The initializer passed to `map_init`. */
    function Contents(): nat -> byte {
      ByteAtOffset
    }
  }

  /** `va` reads as `b`, with the given rights and no user access, from a page the tree owns. */
  ghost predicate ReadsAs(s: Snapshot, va: u64, b: byte, write: bool, exec: bool) {
    var m := Lookup(s.pages, va);
    && HardwareCanonical(va) && m.Some?
    && Deallocate(m.value.entry) && Grants(m.value.entry, write, exec, false)
    && (var p := AddressOf(m.value.entry) + TypeAt(m.value.depth).Rest(va);
        && Translation(s.pages, va) == Some(p)
        && p < 8 * |s.mem| && InSpan(AddressOf(m.value.entry), TypeAt(m.value.depth).Size(), p)
        && ByteAt(s.mem, p) == b)
  }

  /** Every byte of the segment reads as it should. */
  ghost predicate Loaded(s: Snapshot, seg: Segment) {
    forall i: nat :: i < seg.virtSize ==> LoadedAt(s, seg, i)
  }

  ghost predicate LoadedAt(s: Snapshot, seg: Segment, i: nat) {
    seg.virtAddr + i < TWO_64 && ReadsAs(s, seg.virtAddr + i, seg.ByteInMemory(i), seg.write, seg.execute)
  }

  /** Mapping more pages changes nothing that already reads as something. */
  lemma ReadsStay(a: Snapshot, b: Snapshot, root: u64, waste: iset<int>, va: u64, x: byte, write: bool, exec: bool)
    requires Sound(a, root) && Sound(b, root) && Kept(a, b, waste)
    requires ReadsAs(a, va, x, write, exec)
    ensures ReadsAs(b, va, x, write, exec)
  {
    hide IsTree, Separate, Owned;
    var m := Lookup(a.pages, va).value;
    var p := AddressOf(m.entry) + TypeAt(m.depth).Rest(va);
    LookupFinds(b.mem, root, b.tables, b.pages, va, m.depth);
    OwnedPageKeepsContents(a, b, root, PathOf(va, m.depth), waste, p);
  }

  lemma LoadedStays(a: Snapshot, b: Snapshot, root: u64, waste: iset<int>, seg: Segment)
    requires Sound(a, root) && Sound(b, root) && Kept(a, b, waste) && Loaded(a, seg)
    ensures Loaded(b, seg)
  {
    hide Sound, Kept, ReadsAs;
    forall i: nat | i < seg.virtSize ensures LoadedAt(b, seg, i) {
      assert LoadedAt(a, seg, i);
      ReadsStay(a, b, root, waste, seg.virtAddr + i, seg.ByteInMemory(i), seg.write, seg.execute);
    }
  }

  /** Only a segment at addresses that the processor accepts can be loaded. */
  lemma LoadedIsReachable(s: Snapshot, seg: Segment)
    requires Loaded(s, seg)
    ensures seg.Reachable()
  {
    hide ReadsAs, Segment.ByteInMemory;
    var hole := 0x8000_0000_0000;
    if seg.virtSize > 0 {
      assert LoadedAt(s, seg, 0) && LoadedAt(s, seg, seg.virtSize - 1);
      ReadIsCanonical(s, seg, 0);
      ReadIsCanonical(s, seg, seg.virtSize - 1);
      if seg.virtAddr < hole < seg.virtAddr + seg.virtSize {
        assert LoadedAt(s, seg, hole - seg.virtAddr);
        ReadIsCanonical(s, seg, hole - seg.virtAddr);
      }
    }
  }

  lemma ReadIsCanonical(s: Snapshot, seg: Segment, i: nat)
    requires LoadedAt(s, seg, i)
    ensures HardwareCanonical(seg.virtAddr + i)
  {
  }

  /** The rounded size of a reachable segment does not wrap around. */
  lemma ReachableIsSized(seg: Segment)
    requires seg.Reachable()
    ensures seg.Sized()
  {
    assert seg.FrontPadding() < 4096;
  }

  /** A segment whose rounded size wraps around is refused or gets a single page. Both happen. */
  lemma SizedMeaning(seg: Segment)
    ensures seg.Sized() <==> seg.PaddedSize() == (seg.virtSize + seg.virtAddr % 0x1000 + 0xfff) / 0x1000 * 0x1000
    ensures seg.Sized() ==> seg.virtSize <= seg.PaddedSize()
  {
    var sum := seg.virtSize + seg.FrontPadding() + 0xfff;
    if sum < TWO_64 {
      Divides(sum, TWO_64, 0, sum);
    } else {
      Divides(sum, TWO_64, 1, sum - TWO_64);
    }
  }

  /** The initializer: zeros in front, the bytes of the file, and zeros behind them. */
  lemma ContentsMeaning(seg: Segment, offset: nat)
    ensures seg.Contents()(offset) ==
            if seg.virtAddr % 0x1000 <= offset < seg.virtAddr % 0x1000 + |seg.bytes| then seg.bytes[offset - seg.virtAddr % 0x1000] else 0
  {
  }

  lemma WrappedSizeIsOnePage(seg: Segment)
    requires !seg.Sized()
    ensures seg.PaddedSize() == if seg.virtSize + seg.FrontPadding() <= TWO_64 then 0 else 4096
    ensures var s := Segment(true, 0xfff, U64_MAX, [], false, false); !s.Sized() && s.PaddedSize() == 4096
  {
    var sum := seg.virtSize + seg.FrontPadding() + 0xfff;
    Divides(sum, TWO_64, 1, sum - TWO_64);
    Divides(U64_MAX + 0xfff + 0xfff, TWO_64, 1, 0x1ffd);
  }

  /** A mapped region with the segment's contents is the loaded segment. */
  lemma RegionIsLoaded(a: Snapshot, b: Snapshot, root: u64, entries: seq<u64>, waste: iset<int>, seg: Segment)
    requires Sound(b, root) && seg.Reachable()
    requires seg.PaddedSize() == Offset(Page4K, |entries|) && seg.Start() + Offset(Page4K, |entries|) <= TWO_64
    requires GotPages(a, b, seg.Start(), Page4K, entries, waste)
    requires RegionReady(b.mem, Page4K, entries, seg.Contents(), seg.write, seg.execute, false)
    ensures Loaded(b, seg)
  {
    ReachableIsSized(seg);
    forall i: nat | i < seg.virtSize ensures LoadedAt(b, seg, i) {
      RegionByteIsLoaded(a, b, root, entries, waste, seg, i);
    }
  }

  lemma RegionByteIsLoaded(a: Snapshot, b: Snapshot, root: u64, entries: seq<u64>, waste: iset<int>, seg: Segment, i: nat)
    requires Sound(b, root) && seg.Sized() && seg.Reachable() && i < seg.virtSize
    requires seg.PaddedSize() == Offset(Page4K, |entries|) && seg.Start() + Offset(Page4K, |entries|) <= TWO_64
    requires GotPages(a, b, seg.Start(), Page4K, entries, waste)
    requires RegionReady(b.mem, Page4K, entries, seg.Contents(), seg.write, seg.execute, false)
    ensures LoadedAt(b, seg, i)
  {
    hide Sound, GotPages, RegionReady, ReadsAs;
    var j := seg.FrontPadding() + i;
    var k, r := j / 4096, j % 4096;
    assert j < seg.PaddedSize() && k < |entries|;
    RegionByteReads(a, b, root, seg.Start(), Page4K, entries, waste, seg.Contents(), seg.write, seg.execute, k, r);
    assert seg.Start() + Offset(Page4K, k) + r == seg.virtAddr + i;
  }

  lemma RegionByteReads(a: Snapshot, b: Snapshot, root: u64, va: u64, t: PageType, entries: seq<u64>, waste: iset<int>,
                        f: nat -> byte, write: bool, exec: bool, k: nat, r: nat)
    requires Sound(b, root) && va + Offset(t, |entries|) <= TWO_64 && k < |entries| && r < t.Size()
    requires GotPages(a, b, va, t, entries, waste) && RegionReady(b.mem, t, entries, f, write, exec, false)
    ensures va + Offset(t, k) + r < TWO_64
    ensures HardwareCanonical(va + Offset(t, k) + r) ==> ReadsAs(b, va + Offset(t, k) + r, f(Offset(t, k) + r), write, exec)
  {
    hide IsTree, Separate, Owned, Kept, Lookup, HardwareWalk, PageNumber, Translation, Offset;
    RegionIsFound(a, b, root, va, t, entries, waste, k, r);
    RegionReadsAs(a, b, root, va, t, entries, waste, f, write, exec, false, k, r);
    assert AtPosition(b.pages, va, t, k, entries[k]) && OwnedEntryFrom(entries[k], t, a.free);
    AddressesOfPage(va + Offset(t, k), t, r);
    assert PageReady(b.mem, t, entries[k], k, f, write, exec, false);
  }

  /** `map_init` refuses the segment in the state `a`, for a reason that `RegionRefused` names, and leaves `b`. */
  ghost predicate SegmentFails(a: Snapshot, b: Snapshot, seg: Segment) {
    exists entries: seq<u64>, waste: iset<int> ::
      && RegionFails(a, b, seg.Start(), Page4K, seg.PaddedSize(), entries, waste)
      && (FitsIn64Bits(seg) ==> PageStops(a, b, seg.Start(), Page4K, seg.PaddedSize(), entries, waste))
  }

  /** The segment has bytes, ends in the address space, and its size can be rounded up without wrapping around. */
  ghost predicate FitsIn64Bits(seg: Segment) {
    && 0 < seg.virtSize && seg.virtAddr + seg.virtSize <= 0x1_0000_0000_0000_0000
    && seg.virtAddr % 0x1000 + seg.virtSize + 0xfff < 0x1_0000_0000_0000_0000
  }

  /** The loadable segments among the first `n` are loaded, as far as the processor accepts their addresses. */
  ghost predicate AllLoaded(s: Snapshot, segments: seq<Segment>, n: nat)
    requires n <= |segments|
  {
    forall k :: 0 <= k < n && segments[k].load ==> LoadedIfReachable(s, segments[k])
  }

  ghost predicate LoadedIfReachable(s: Snapshot, seg: Segment) {
    Loaded(s, seg) <==> seg.Reachable()
  }

  /** Loading goes from `a` to `at`, where the loadable segments before number `i` are loaded, and is refused
      for segment `i`, which leaves `b`. */
  ghost predicate FailsAt(segments: seq<Segment>, i: nat, a: Snapshot, at: Snapshot, waste: iset<int>, b: Snapshot, root: u64) {
    && i < |segments| && segments[i].load
    && Sound(at, root) && Kept(a, at, waste) && AllLoaded(at, segments, i)
    && SegmentFails(at, b, segments[i])
  }

  ghost predicate SomeSegmentFails(segments: seq<Segment>, a: Snapshot, b: Snapshot, root: u64) {
    exists i: nat, at: Snapshot, waste: iset<int> :: FailsAt(segments, i, a, at, waste, b, root)
  }

  lemma AllLoadedStays(a: Snapshot, b: Snapshot, root: u64, waste: iset<int>, segments: seq<Segment>, n: nat)
    requires Sound(a, root) && Sound(b, root) && Kept(a, b, waste) && n <= |segments| && AllLoaded(a, segments, n)
    ensures AllLoaded(b, segments, n)
  {
    hide Sound, Kept, Loaded;
    forall k | 0 <= k < n && segments[k].load ensures LoadedIfReachable(b, segments[k]) {
      assert LoadedIfReachable(a, segments[k]);
      if segments[k].Reachable() { LoadedStays(a, b, root, waste, segments[k]); }
      if Loaded(b, segments[k]) { LoadedIsReachable(b, segments[k]); }
    }
  }

  /** The callback of `create_kernel_page_table` for one loadable segment; a refused `map_init`
      is a panic there. */
  method LoadSegment(pt: PageTable, m: PhysicalMemory, seg: Segment) returns (r: Attempt<()>, ghost waste: iset<int>)
    requires pt.Valid(m)
    modifies pt, m, m.words, m.free, m.free.ranges
    ensures !r.Refused?
    ensures r.Done? ==> pt.Valid(m) && Kept(old(pt.State(m)), pt.State(m), waste)
    ensures r.Done? ==> LoadedIfReachable(pt.State(m), seg)
    ensures r.Panicked? ==> m.free.used == CAPACITY || (pt.Valid(m) && SegmentFails(old(pt.State(m)), pt.State(m), seg))
  {
    hide IsTree, Separate, Owned, GotPages, RegionReady, Loaded, Kept, OwnedPagesFit, WellFormed, RegionFails,
         SegmentFails, BadRegion, Starved, CannotProvide, PagesWith, Segment.Start, Segment.PaddedSize;
    var start, size := seg.Start(), seg.PaddedSize();
    ghost var entries;
    r, entries, waste := pt.MapInit(m, start, Page4K, size, seg.write, seg.execute, false, Some(seg.Contents()));
    if r.Refused? {
      RefusedSegmentFails(old(pt.State(m)), pt.State(m), seg, entries, waste);
      return Panicked, waste;
    }
    if r.Done? {
      GotPagesMeaning(old(pt.State(m)), pt.State(m), start, Page4K, entries, waste);
      if seg.Reachable() {
        RegionIsLoaded(old(pt.State(m)), pt.State(m), pt.table, entries, waste, seg);
      } else if Loaded(pt.State(m), seg) {
        LoadedIsReachable(pt.State(m), seg);
      }
    }
  }

  lemma RefusedSegmentFails(a: Snapshot, b: Snapshot, seg: Segment, entries: seq<u64>, waste: iset<int>)
    requires RegionFails(a, b, seg.Start(), Page4K, seg.PaddedSize(), entries, waste)
    ensures SegmentFails(a, b, seg)
  {
    hide RegionFails, PageStops;
    if FitsIn64Bits(seg) {
      FittingIsGood(seg);
      GoodRegionStops(a, b, seg.Start(), Page4K, seg.PaddedSize(), entries, waste);
    }
  }

  /** Such a segment is not refused as a whole. */
  lemma FittingIsGood(seg: Segment)
    requires FitsIn64Bits(seg)
    ensures seg.PaddedSize() > 0 && seg.PaddedSize() % 4096 == 0 && seg.Start() % 4096 == 0 && seg.Start() + seg.PaddedSize() <= TWO_64
  {
    var n, k := seg.virtAddr / 4096, (seg.virtSize + seg.FrontPadding() + 0xfff) / 4096;
    Divides(seg.Start(), 4096, n, 0);
    Divides(seg.PaddedSize(), 4096, k, 0);
    assert seg.virtAddr + seg.virtSize == 4096 * n + seg.FrontPadding() + seg.virtSize;
  }

  /** The loop over the segments: at the end every loadable segment reads as its file bytes followed by zeros,
      with its own rights, if and only if the processor accepts its addresses. */
  method LoadSegments(pt: PageTable, m: PhysicalMemory, segments: seq<Segment>) returns (r: Attempt<()>, ghost waste: iset<int>)
    requires pt.Valid(m)
    modifies pt, m, m.words, m.free, m.free.ranges
    ensures !r.Refused?
    ensures r.Done? ==>
      pt.Valid(m) && Kept(old(pt.State(m)), pt.State(m), waste) && AllLoaded(pt.State(m), segments, |segments|)
    ensures r.Panicked? ==>
      m.free.used == CAPACITY || (pt.Valid(m) && SomeSegmentFails(segments, old(pt.State(m)), pt.State(m), pt.table))
  {
    hide IsTree, Separate, Owned, AllLoaded, Kept, OwnedPagesFit, WellFormed, SegmentFails;
    r, waste := Done(()), iset{};
    NothingKept(pt.State(m));
    NothingLoadedYet(pt.State(m), segments);
    for i := 0 to |segments|
      invariant pt.Valid(m) && Kept(old(pt.State(m)), pt.State(m), waste) && AllLoaded(pt.State(m), segments, i)
    {
      ghost var before := pt.State(m);
      if segments[i].load {
        ghost var more;
        r, more := LoadSegment(pt, m, segments[i]);
        if !r.Done? {
          assert m.free.used != CAPACITY ==> FailsAt(segments, i, old(pt.State(m)), before, waste, pt.State(m), pt.table);
          return;
        }
        TablesAreAligned(before.mem, pt.table, before.tables, before.pages);
        KeptCompose(old(pt.State(m)), before, pt.State(m), waste, more);
        AllLoadedStays(before, pt.State(m), pt.table, more, segments, i);
        waste := waste + more;
      }
      OneMoreLoaded(pt.State(m), segments, i);
    }
    r := Done(());
  }

  lemma NothingLoadedYet(s: Snapshot, segments: seq<Segment>)
    ensures AllLoaded(s, segments, 0)
  {
  }

  lemma OneMoreLoaded(s: Snapshot, segments: seq<Segment>, i: nat)
    requires i < |segments| && AllLoaded(s, segments, i) && (segments[i].load ==> LoadedIfReachable(s, segments[i]))
    ensures AllLoaded(s, segments, i + 1)
  {
  }
}
