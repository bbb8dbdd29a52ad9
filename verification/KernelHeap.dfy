/** The kernel heap: one free list over a bump allocator of virtual addresses
    (kernel/src/mm.rs). */
module KernelHeaps {
  import opened MachineInts
  import opened PhysicalMemories
  import opened FreeLists
  import opened HeapBackings
  import opened PageTables
  import PageMaps
  import PageRegions
  import PageRuns
  import PageSnapshots
  import PageTrees
  import RangeSets

  // ---------------------------------------------------------------------------------------
  // Sizes and alignment
  // ---------------------------------------------------------------------------------------

  /** A size of a free list: whole pages, or a part of a page that divides it. */
  ghost predicate SizeOk(size: u64) {
    && size <= 0x8000_0000_0000_0000
    && if size >= 4096 then size % 4096 == 0 else size in {8, 16, 32, 64, 128, 256, 512, 1024, 2048}
  }

  ghost predicate Multiple(b: int, m: nat) {
    exists q: nat :: b == q * m
  }

  /** Free lists are naturally aligned up to pages. */
  function Alignment(size: nat): nat { Min(size, 4096) }

  lemma {:induction false} PowerIsSizeOk(k: nat)
    requires 3 <= k && Pow2(k) < TWO_64
    ensures SizeOk(Pow2(k)) && (k >= 12 ==> Pow2(k) >= 4096)
    ensures k == 3 ==> Pow2(k) == 8
  {
    if k > 3 { PowerIsSizeOk(k - 1); }
    PowerIsHalf(k);
  }

  /** A power of two below 2^64 is at most 2^63. */
  lemma PowerIsHalf(k: nat)
    requires Pow2(k) < TWO_64
    ensures Pow2(k) <= 0x8000_0000_0000_0000
  {
    assert Pow2(16) == 0x1_0000 && Pow2(15) == 0x8000;
    PowersMultiply(16, 15);
    PowersMultiply(16, 16);
    PowersMultiply(32, 31);
    PowersMultiply(32, 32);
    if k <= 63 { PowersGrow(k, 63); } else { PowersGrow(64, k); }
  }

  lemma SmallPowers(k: nat)
    requires k < 3
    ensures Pow2(k) < 8
  {
    assert Pow2(0) == 1 && Pow2(1) == 2 && Pow2(2) == 4;
  }

  /** The asserts of `FreeList::new`: every power of two that can hold a pointer is a good size. */
  lemma SizeClass(size: u64)
    requires size >= 8 && CountOnes(size) == 1
    ensures SizeOk(size)
  {
    hide CountOnes, SizeOk;
    var k := OneBitIsPower(size);
    if k >= 3 { PowerIsSizeOk(k); } else { SmallPowers(k); }
  }

  lemma SizesAreWords(size: u64)
    requires SizeOk(size)
    ensures size >= 8 && size % 8 == 0
  {
  }

  lemma ProductIsMonotone(a: int, b: int, m: nat)
    requires a <= b
    ensures a * m <= b * m
  {
  }

  lemma MultipleOfScaled(q: nat, n: nat, i: nat, size: nat)
    requires size * n == 4096
    ensures q * 4096 + i * size == (q * n + i) * size
  {
    assert q * 4096 == (q * n) * size;
  }

  // ---------------------------------------------------------------------------------------
  // Mapped heap memory
  // ---------------------------------------------------------------------------------------

  lemma LargestRegion(size: u64)
    requires size % 4096 == 0
    ensures KERNEL_HEAP_PADDING + size > U64_MAX <==> size == TWO_64 - 4096
  {
  }

  lemma ReservationIsPaged(next: nat, size: nat)
    requires next % 4096 == 0 && size % 4096 == 0
    ensures (next + KERNEL_HEAP_PADDING + size) % 4096 == 0
  {
    Divides(next + 4096 + size, 4096, next / 4096 + 1 + size / 4096, 0);
  }

  /** The mapped part of the kernel heap, shared by all cores: virtual memory behind the kernel's page table. */
  class HeapMemory {
    const pageTable: PageTable
    const ram: PhysicalMemory

    /** What the heap holds, by virtual address. */
    ghost var words: Words

    /** `NEXT_HEAP_ADDRESS`. */
    var next: u64

    ghost function Footprint(): set<object> {
      {this, pageTable, ram, ram.words, ram.free, ram.free.ranges}
    }

    ghost predicate Valid()
      reads this, pageTable, ram, ram.words, ram.free, ram.free.ranges
    {
      && KERNEL_HEAP_BASE <= next && next % 4096 == 0
      && (forall a :: a in words ==> KERNEL_HEAP_BASE <= a && a + 8 <= next)
      && pageTable.Valid(ram) && Backs(pageTable.State(ram), words)
    }

    constructor (pageTable: PageTable, ram: PhysicalMemory)
      requires pageTable.Valid(ram)
      ensures Valid() && words == map[] && next == KERNEL_HEAP_BASE && this.pageTable == pageTable && this.ram == ram
    {
      this.pageTable, this.ram := pageTable, ram;
      words, next := map[], KERNEL_HEAP_BASE;
    }

    lemma AddressesAreHigh()
      requires Valid()
      ensures forall a :: a in words ==> KERNEL_HEAP_BASE <= a && a + 8 <= next
    {
    }

    /** A load from the heap: the processor's walk leads to the word. */
    method Load(a: u64) returns (v: u64)
      requires Valid() && a in words
      ensures v == words[a]
    {
      hide PageTrees.IsTree, PageMaps.Separate, PageMaps.Owned, PageMaps.OwnedPagesFit, PageMaps.Translation, PageTrees.PathOf;
      HeapTranslates(pageTable.State(ram), pageTable.table, a, words[a]);
      var p := pageTable.VirtToPhys(ram, a);
      v := ram.words[p.value / 8];
    }

    /** A store to the heap. */
    method Store(a: u64, v: u64)
      requires Valid() && a in words
      modifies `words, ram.words
      ensures Valid() && words == old(words)[a := v]
    {
      hide PageTrees.IsTree, PageMaps.Separate, PageMaps.Owned, PageMaps.OwnedPagesFit, PageMaps.Translation, PageTrees.PathOf, Backs;
      ghost var before := pageTable.State(ram);
      WordsAreBacked(before, words, a);
      HeapTranslates(before, pageTable.table, a, words[a]);
      var p := pageTable.VirtToPhys(ram, a);
      ram.words[p.value / 8] := v;
      StoreKeepsBacking(before, pageTable.State(ram), pageTable.table, words, a, v);
      words := words[a := v];
    }

    /** `reserve_virt_addr`: the caller gets the next address, followed by a gap. The size of region and gap
        together is computed modulo 2^64, so that nothing is reserved for a region of 2^64 - 4096 bytes. This is
        the only exception. */
    method ReserveVirtAddr(size: u64) returns (r: Attempt<u64>)
      requires Valid()
      modifies `next
      ensures !r.Refused?
      ensures r.Panicked? <==>
        size == 0 || size % 4096 != 0 || (size < TWO_64 - 4096 && old(next) + KERNEL_HEAP_PADDING + size > U64_MAX)
      ensures r.Done? ==> Valid() && r.value == old(next)
      ensures r.Done? ==> (next >= r.value + size <==> size != TWO_64 - 4096)
      ensures r.Done? ==> next == if size == TWO_64 - 4096 then old(next) else old(next) + KERNEL_HEAP_PADDING + size
    {
      hide WrappingAdd, CheckedAdd;
      if size == 0 || size % 4096 != 0 { return Panicked; }
      var reserve := WrappingAdd(KERNEL_HEAP_PADDING, size);
      var address := next;
      next := WrappingAdd(next, reserve);
      LargestRegion(size);
      if CheckedAdd(address, reserve).None? { return Panicked; }
      ReservationIsPaged(address, size);
      return Done(address);
    }

    /** Why the page table could not map a region, after it was in the state `before`: one of its pages was refused, never
        the region as such. */
    ghost predicate MapFails(before: PageSnapshots.Snapshot, address: u64, size: u64)
      reads this, pageTable, ram, ram.words, ram.free, ram.free.ranges
    {
      || ram.free.used == RangeSets.CAPACITY
      || (pageTable.Valid(ram) && exists entries: seq<u64>, waste: iset<int> ::
            PageRegions.PageStops(before, pageTable.State(ram), address, Page4K, size, entries, waste))
    }

    lemma RefusedMappingFails(before: PageSnapshots.Snapshot, address: u64, size: u64, entries: seq<u64>, waste: iset<int>)
      requires ram.free.used == RangeSets.CAPACITY
            || (pageTable.Valid(ram) && PageRegions.PageStops(before, pageTable.State(ram), address, Page4K, size, entries, waste))
      ensures MapFails(before, address, size)
    {
    }

    /** Map the pages of a region. */
    method MapPages(address: u64, size: u64) returns (r: Attempt<()>, ghost entries: seq<u64>, ghost waste: iset<int>)
      requires Valid() && address % 4096 == 0 && size > 0 && size % 4096 == 0 && address + size <= TWO_64
      modifies pageTable, ram, ram.words, ram.free, ram.free.ranges
      ensures !r.Refused? && (r.Panicked? ==> MapFails(old(pageTable.State(ram)), address, size))
      ensures r.Done? ==>
        && Valid() && address + PageRegions.Offset(Page4K, |entries|) <= TWO_64 && size == PageRegions.Offset(Page4K, |entries|)
        && PageRegions.GotPages(old(pageTable.State(ram)), pageTable.State(ram), address, Page4K, entries, waste)
        && PageRegions.RegionReady(ram.words[..], Page4K, entries, _ => 0, true, false, false)
    {
      hide PageTrees.IsTree, PageMaps.Separate, PageMaps.Owned, PageMaps.OwnedPagesFit, PageRegions.GotPages, PageRegions.RegionReady,
           PageRegions.RegionFails, PageRegions.PageStops, PageRegions.BadRegion, PageRegions.PagesWith, PageRegions.Kept, Backs, MapFails;
      ghost var before := pageTable.State(ram);
      r, entries, waste := pageTable.Map(ram, address, Page4K, size, true, false, false);
      if !r.Done? {
        RefusedMappingFails(before, address, size, entries, waste);
        return Panicked, entries, waste;
      }
      ghost var after := pageTable.State(ram);
      PageRegions.GotPagesMeaning(before, after, address, Page4K, entries, waste);
      BackingStays(before, after, pageTable.table, waste, words);
    }

    /** Map a reserved region as zeroed memory, or panic when that fails. */
    method MapZeroed(address: u64, size: u64) returns (r: Attempt<()>)
      requires Valid() && address % 4096 == 0 && KERNEL_HEAP_BASE <= address && address + size <= next
      requires size > 0 && size % 4096 == 0
      requires forall a :: a in words ==> a + 8 <= address
      modifies `words, pageTable, ram, ram.words, ram.free, ram.free.ranges
      ensures !r.Refused? && (r.Panicked? ==> MapFails(old(pageTable.State(ram)), address, size))
      ensures r.Done? ==> Valid() && Extended(old(words), words, address, size)
      ensures r.Done? ==> forall a :: a in words && a !in old(words) ==> words[a] == 0
    {
      hide PageTrees.IsTree, PageMaps.Separate, PageMaps.Owned, PageMaps.OwnedPagesFit, PageRegions.GotPages, PageRegions.RegionReady,
           PageRegions.PageStops, Backs, MapFails;
      ghost var before, was := pageTable.State(ram), words;
      ghost var entries, waste;
      r, entries, waste := MapPages(address, size);
      if r.Panicked? { return; }
      words := words + (map a: u64 | InWords(address, size, a) :: 0);
      forall a | a in words ensures KERNEL_HEAP_BASE <= a && a + 8 <= next {
        if InWords(address, size, a) { WordFits(address, size, a); }
      }
      BackingGrows(before, pageTable.State(ram), pageTable.table, address, size, entries, waste, was, words);
    }
  }

  // ---------------------------------------------------------------------------------------
  // One free list
  // ---------------------------------------------------------------------------------------

  lemma WritesLift(before: Words, after: Words, b: u64, blocks: seq<u64>, size: nat)
    requires WritesOnly(before, after, [b], size) && b in blocks
    ensures WritesOnly(before, after, blocks, size)
  {
    var k :| 0 <= k < |blocks| && blocks[k] == b;
    forall a | a in before && after[a] != before[a] ensures InBlock(blocks[k], size, a) { }
  }

  /** What the code reads from the top node. */
  lemma TopNode(words: Words, size: u64, nodes: seq<Node>)
    requires ListOk(words, size, nodes)
    ensures nodes == [] <==> Top(nodes) == 0
    ensures nodes != [] ==>
      var top := nodes[|nodes| - 1];
      && top.address in words && words[top.address] == Top(nodes[..|nodes| - 1])
      && (!UsesStack(size) ==> top.slots == [])
      && (UsesStack(size) ==>
        && top.address + 8 in words && |top.slots| <= MaxSlots(size)
        && words[top.address + 8] == MaxSlots(size) - |top.slots|)
      && top.address in Blocks(nodes)
      && top.address + size <= TWO_64
  {
    if nodes != [] {
      BlockOnTop(words, size, nodes);
      NodeOfChainIsBlock(nodes, |nodes| - 1);
    }
  }

  /** The blocks of a list are aligned. */
  ghost predicate AllAligned(blocks: seq<u64>, size: nat) {
    forall i :: 0 <= i < |blocks| ==> Multiple(blocks[i], Alignment(size))
  }

  /** Consecutive blocks from `v` on. */
  ghost predicate Chunks(blocks: seq<u64>, v: u64, size: nat) {
    forall i :: 0 <= i < |blocks| ==> blocks[i] == v + i * size
  }

  /** The memory that an empty list asks for. */
  function Region(size: nat): nat { Max(size, 4096) }

  /** The blocks make up exactly one region. */
  ghost predicate CutUp(blocks: seq<u64>, v: u64, size: nat) {
    Chunks(blocks, v, size) && |blocks| * size == Region(size)
  }

  /** The next block lies behind the blocks cut off so far. */
  lemma ChunksLieBelow(blocks: seq<u64>, v: u64, size: nat)
    requires Chunks(blocks, v, size)
    ensures forall i :: 0 <= i < |blocks| ==> v <= blocks[i] && blocks[i] + size <= v + |blocks| * size
  {
    forall i | 0 <= i < |blocks| ensures v <= blocks[i] && blocks[i] + size <= v + |blocks| * size {
      ProductIsMonotone(i + 1, |blocks|, size);
      ProductIsMonotone(0, i, size);
    }
  }

  lemma SizeDividesPage(size: u64)
    requires SizeOk(size) && size < 4096
    ensures size > 0 && 4096 % size == 0
  {
  }

  lemma NextChunkFits(size: nat, n: nat)
    requires size > 0 && 4096 % size == 0 && n * size < 4096
    ensures (n + 1) * size <= 4096
  {
    var k := 4096 / size;
    assert k * size == 4096;
    if k < n + 1 { ProductIsMonotone(k, n, size); } else { ProductIsMonotone(n + 1, k, size); }
  }

  /** A block cut out of a page is aligned to its size. */
  lemma ChunkIsAligned(v: u64, size: u64, i: nat)
    requires v % 4096 == 0 && SizeOk(size) && size < 4096
    ensures Multiple(v + i * size, Alignment(size))
  {
    SizeDividesPage(size);
    MultipleOfScaled(v / 4096, 4096 / size, i, size);
  }

  lemma PageIsAligned(v: u64)
    requires v % 4096 == 0
    ensures Multiple(v, 4096)
  {
    assert v == (v / 4096) * 4096;
  }

  lemma MultiplesOfEight(v: u64, size: u64, i: nat)
    requires v % 8 == 0 && size % 8 == 0
    ensures (v + i * size) % 8 == 0
  {
    assert v + i * size == 8 * (v / 8 + i * (size / 8));
  }

  /** The words of a region are mapped. */
  ghost predicate RegionMapped(words: Words, v: u64, region: nat) {
    forall a: u64 :: InWords(v, region, a) ==> a in words
  }

  lemma NextChunkIsPushable(words: Words, size: u64, nodes: seq<Node>, v: u64)
    requires SizeOk(size) && size < 4096 && v % 4096 == 0 && v != 0 && v + 4096 <= TWO_64
    requires RegionMapped(words, v, 4096) && Chunks(Blocks(nodes), v, size) && |Blocks(nodes)| * size < 4096
    ensures var b := v + |Blocks(nodes)| * size;
      b < TWO_64 && Pushable(words, size, nodes, b) && Multiple(b, Alignment(size)) && b + size <= v + 4096
  {
    hide Blocks, SizeOk, Multiple;
    SizesAreWords(size);
    SizeDividesPage(size);
    var n := |Blocks(nodes)|;
    NextChunkFits(size, n);
    ChunksLieBelow(Blocks(nodes), v, size);
    ChunkIsAligned(v, size, n);
    MultiplesOfEight(v, size, n);
    ProductIsMonotone(0, n, size);
    var b := v + n * size;
    assert forall a: u64 :: a % 8 == 0 && InBlock(b, size, a) ==> InWords(v, 4096, a);
  }

  /** Writing to blocks of a region is writing to the region. */
  lemma WritesInRegion(before: Words, words: Words, after: Words, v: u64, region: nat, blocks: seq<u64>, size: nat)
    requires WritesOnly(before, words, [v], region) && WritesOnly(words, after, blocks, size)
    requires forall i :: 0 <= i < |blocks| ==> v <= blocks[i] && blocks[i] + size <= v + region
    ensures WritesOnly(before, after, [v], region)
  {
    forall a | a in before && after[a] != before[a] ensures InBlock([v][0], region, a) {
      assert a in words.Keys;
      if words[a] == before[a] {
        var i :| 0 <= i < |blocks| && InBlock(blocks[i], size, a);
      }
    }
  }

  lemma ExtendedByWrites(before: Words, words: Words, after: Words, v: u64, region: nat)
    requires Extended(before, words, v, region) && WritesOnly(words, after, [v], region)
    requires forall a :: a in before ==> a + 8 <= v
    ensures Extended(before, after, v, region)
  {
    forall a: u64 ensures a in after <==> a in before || InWords(v, region, a) {
      assert a in after <==> a in after.Keys;
      assert a in words <==> a in words.Keys;
    }
  }

  lemma RegionStays(words: Words, after: Words, v: u64)
    requires RegionMapped(words, v, 4096) && after.Keys == words.Keys
    ensures RegionMapped(after, v, 4096)
  {
    forall a: u64 | InWords(v, 4096, a) ensures a in after.Keys { }
  }

  lemma EmptyListIsOk(words: Words, size: u64)
    requires SizeOk(size)
    ensures ListOk(words, size, []) && Blocks([]) == []
  {
  }

  lemma ShorterIsAligned(blocks: seq<u64>, b: u64, size: nat)
    requires AllAligned(blocks + [b], size)
    ensures AllAligned(blocks, size) && Multiple(b, Alignment(size))
  {
    hide Multiple;
    assert (blocks + [b])[|blocks|] == b;
    assert forall i :: 0 <= i < |blocks| ==> (blocks + [b])[i] == blocks[i];
  }

  lemma FreshRegionIsMapped(before: Words, words: Words, v: u64, region: nat)
    requires Extended(before, words, v, region)
    ensures RegionMapped(words, v, region)
  {
  }

  lemma NoNodesNoBlocks(nodes: seq<Node>)
    ensures Blocks(nodes) == [] <==> nodes == []
  {
  }

  class FreeList {
    const size: u64
    var head: u64
    ghost var nodes: seq<Node>

    ghost predicate Valid(words: Words)
      reads this
    {
      && SizeOk(size) && ListOk(words, size, nodes) && head == Top(nodes)
      && AllAligned(Blocks(nodes), size)
    }

    /** The free blocks, the one freed last at the end. */
    ghost function Stack(): seq<u64>
      reads this
    {
      Blocks(nodes)
    }

    constructor (size: u64)
      requires CountOnes(size) == 1 && size >= 8
      ensures this.size == size && Stack() == [] && forall words: Words :: Valid(words)
    {
      hide CountOnes, SizeOk;
      this.size, head, nodes := size, 0, [];
      new;
      SizeClass(size);
      SizesAreWords(size);
    }

    /** `push`: put a block back. */
    method Push(h: HeapMemory, block: u64)
      requires h.Valid() && Valid(h.words) && Pushable(h.words, size, nodes, block) && Multiple(block, Alignment(size))
      modifies this, h`words, h.ram.words
      ensures h.Valid() && Valid(h.words) && Stack() == old(Stack()) + [block]
      ensures WritesOnly(old(h.words), h.words, Stack(), size)
    {
      hide ListOk, Chain, Blocks, WritesOnly, Mapped, Multiple, HeapMemory.Valid;
      TopNode(h.words, size, nodes);
      if UsesStack(size) {
        var free := 0;
        if head != 0 { free := h.Load(head + 8); }
        if free == 0 {
          PushAsNode(h, block);
        } else {
          PushOnTop(h, block);
        }
      } else {
        PushAsNode(h, block);
      }
    }

    /** The block becomes the new head node. */
    method PushAsNode(h: HeapMemory, block: u64)
      requires h.Valid() && Valid(h.words) && Pushable(h.words, size, nodes, block) && Multiple(block, Alignment(size))
      modifies this, h`words, h.ram.words
      ensures h.Valid() && Valid(h.words) && Stack() == old(Stack()) + [block]
      ensures WritesOnly(old(h.words), h.words, Stack(), size)
    {
      hide ListOk, Chain, Blocks, WritesOnly, Multiple, HeapMemory.Valid;
      BlockWordsAreMapped(h.words, size, nodes, block);
      if UsesStack(size) { h.Store(block + 8, MaxSlots(size)); }
      h.Store(block, head);
      PushNode(old(h.words), h.words, size, nodes, block);
      WritesLift(old(h.words), h.words, block, Blocks(nodes) + [block], size);
      nodes := nodes + [Node(block, [])];
      head := block;
    }

    /** The block goes on the stack of the head node. */
    method PushOnTop(h: HeapMemory, block: u64)
      requires h.Valid() && Valid(h.words) && Pushable(h.words, size, nodes, block) && Multiple(block, Alignment(size))
      requires nodes != [] && UsesStack(size) && |nodes[|nodes| - 1].slots| < MaxSlots(size)
      modifies this, h`words, h.ram.words
      ensures h.Valid() && Valid(h.words) && Stack() == old(Stack()) + [block]
      ensures WritesOnly(old(h.words), h.words, Stack(), size)
    {
      hide ListOk, Chain, Blocks, WritesOnly, Mapped, Multiple, HeapMemory.Valid;
      TopNode(h.words, size, nodes);
      ghost var top := nodes[|nodes| - 1];
      var free := h.Load(head + 8);
      free := free - 1;
      SlotIsMapped(h.words, size, nodes, free);
      h.Store(head + 8, free);
      h.Store(SlotAddress(head, free), block);
      PushSlot(old(h.words), h.words, size, nodes, block);
      WritesLift(old(h.words), h.words, head, Blocks(nodes) + [block], size);
      nodes := nodes[..|nodes| - 1] + [Node(top.address, top.slots + [block])];
    }

    /** Cut a fresh page into blocks and push them all. */
    method FillFromPage(h: HeapMemory, v: u64)
      requires h.Valid() && Valid(h.words) && Stack() == [] && size < 4096
      requires v % 4096 == 0 && v != 0 && v + 4096 <= TWO_64 && RegionMapped(h.words, v, 4096)
      modifies this, h`words, h.ram.words
      ensures h.Valid() && Valid(h.words) && CutUp(Stack(), v, size)
      ensures WritesOnly(old(h.words), h.words, [v], 4096)
    {
      hide ListOk, Chain, Blocks, Pushable, Mapped, Multiple, SizeOk, RegionMapped, HeapMemory.Valid;
      SizesAreWords(size);
      SizeDividesPage(size);
      var offset := 0;
      while offset < 4096
        invariant 0 <= offset <= 4096 && offset == |Stack()| * size
        invariant h.Valid() && Valid(h.words) && Chunks(Stack(), v, size)
        invariant h.words.Keys == old(h.words.Keys) && WritesOnly(old(h.words), h.words, [v], 4096)
        decreases 4096 - offset
      {
        ghost var words, blocks := h.words, Stack();
        RegionStays(old(h.words), h.words, v);
        NextChunkIsPushable(h.words, size, nodes, v);
        Push(h, v + offset);
        assert (|blocks| + 1) * size == offset + size;
        ChunksLieBelow(Stack(), v, size);
        NextChunkFits(size, |blocks|);
        WritesInRegion(old(h.words), words, h.words, v, 4096, Stack(), size);
        offset := offset + size;
      }
    }

    /** Take the block on top of a list that has one. */
    method Take(h: HeapMemory) returns (b: u64)
      requires h.Valid() && Valid(h.words) && Stack() != []
      modifies this, h`words, h.ram.words
      ensures h.Valid() && Valid(h.words) && Stack() + [b] == old(Stack()) && h.words.Keys == old(h.words.Keys)
      ensures Multiple(b, Alignment(size))
      ensures WritesOnly(old(h.words), h.words, old(Stack()), size)
    {
      hide ListOk, Chain, Blocks, Mapped, Multiple, SizeOk, HeapMemory.Valid;
      NoNodesNoBlocks(nodes);
      TopNode(h.words, size, nodes);
      var free := 0;
      if UsesStack(size) { free := h.Load(head + 8); }
      if UsesStack(size) && free != MaxSlots(size) {
        b := TakeSlot(h, free);
      } else {
        PopNode(h.words, size, nodes);
        b := head;
        head := h.Load(head);
        nodes := nodes[..|nodes| - 1];
        ShorterIsAligned(Stack(), b, size);
      }
    }

    /** Take the block on top of the stack of the head node. */
    method TakeSlot(h: HeapMemory, free: u64) returns (b: u64)
      requires h.Valid() && Valid(h.words) && nodes != [] && UsesStack(size) && nodes[|nodes| - 1].slots != []
      requires nodes[|nodes| - 1].address + 8 in h.words && h.words[nodes[|nodes| - 1].address + 8] == free
      modifies this, h`words, h.ram.words
      ensures h.Valid() && Valid(h.words) && Stack() + [b] == old(Stack()) && h.words.Keys == old(h.words.Keys)
      ensures Multiple(b, Alignment(size))
      ensures WritesOnly(old(h.words), h.words, old(Stack()), size)
    {
      hide ListOk, Chain, Blocks, Mapped, Multiple, SizeOk, HeapMemory.Valid;
      TopNode(h.words, size, nodes);
      ghost var top := nodes[|nodes| - 1];
      PopSlot(h.words, h.words[head + 8 := free + 1], size, nodes);
      b := h.Load(SlotAddress(head, free));
      h.Store(head + 8, free + 1);
      WritesLift(old(h.words), h.words, head, Stack(), size);
      nodes := nodes[..|nodes| - 1] + [Node(top.address, top.slots[..|top.slots| - 1])];
      ShorterIsAligned(Stack(), b, size);
    }

    /** `pop`: take the block freed last. An empty list first gets a fresh region, cut into blocks. It panics when the
        list is empty and there are no addresses left or the mapping fails. */
    method Pop(h: HeapMemory) returns (r: Attempt<u64>)
      requires h.Valid() && Valid(h.words)
      modifies this, h.Footprint()
      ensures !r.Refused?
      ensures r.Panicked? ==> old(Stack()) == []
      ensures r.Panicked? && old(h.next) + KERNEL_HEAP_PADDING + Region(size) <= U64_MAX ==>
                h.MapFails(old(h.pageTable.State(h.ram)), old(h.next), Region(size))
      ensures r.Done? ==> h.Valid() && Valid(h.words) && Multiple(r.value, Alignment(size))
      ensures r.Done? && old(Stack()) != [] ==>
        && h.next == old(h.next) && Stack() + [r.value] == old(Stack())
        && WritesOnly(old(h.words), h.words, old(Stack()), size)
      ensures r.Done? && old(Stack()) == [] ==>
        && h.next == old(h.next) + KERNEL_HEAP_PADDING + Region(size) <= U64_MAX
        && Extended(old(h.words), h.words, old(h.next), Region(size))
        && CutUp(Stack() + [r.value], old(h.next), size)
    {
      hide ListOk, Chain, Blocks, WritesOnly, Mapped, Multiple, Chunks, HeapMemory.Valid, HeapMemory.MapFails;
      TopNode(h.words, size, nodes);
      NoNodesNoBlocks(nodes);
      if head == 0 {
        r := Refill(h);
        return;
      }
      var b := Take(h);
      assert forall a :: a in h.words ==> a in old(h.words.Keys);
      return Done(b);
    }

    /** The first half of `pop`: populate an empty list, or hand out a whole region. */
    method Refill(h: HeapMemory) returns (r: Attempt<u64>)
      requires h.Valid() && Valid(h.words) && Stack() == []
      modifies this, h.Footprint()
      ensures !r.Refused?
      ensures r.Panicked? && old(h.next) + KERNEL_HEAP_PADDING + Region(size) <= U64_MAX ==>
                h.MapFails(old(h.pageTable.State(h.ram)), old(h.next), Region(size))
      ensures r.Done? ==> h.Valid() && Valid(h.words) && Multiple(r.value, Alignment(size))
      ensures r.Done? ==>
        && h.next == old(h.next) + KERNEL_HEAP_PADDING + Region(size) <= U64_MAX
        && Extended(old(h.words), h.words, old(h.next), Region(size))
        && CutUp(Stack() + [r.value], old(h.next), size)
    {
      hide ListOk, Chain, Blocks, WritesOnly, Mapped, Multiple, Extended, HeapMemory.MapFails;
      NoNodesNoBlocks(nodes);
      var actual := if size < 4096 then 4096 else size;
      var v := h.ReserveVirtAddr(actual);
      if v.Panicked? { return Panicked; }
      var mapped := h.MapZeroed(v.value, actual);
      if mapped.Panicked? { return Panicked; }
      r := CutRegion(h, v.value, old(h.words));
    }

    /** The rest of it: the region is handed out whole, or cut into blocks of which one is taken. */
    method CutRegion(h: HeapMemory, v: u64, ghost before: Words) returns (r: Attempt<u64>)
      requires h.Valid() && Valid(before) && Stack() == [] && Extended(before, h.words, v, Region(size))
      requires v % 4096 == 0 && KERNEL_HEAP_BASE <= v && v + Region(size) <= U64_MAX && forall a :: a in before ==> a + 8 <= v
      modifies this, h`words, h.ram.words
      ensures r.Done? && h.Valid() && Valid(h.words) && Multiple(r.value, Alignment(size))
      ensures Extended(before, h.words, v, Region(size)) && CutUp(Stack() + [r.value], v, size)
    {
      hide ListOk, Chain, Blocks, WritesOnly, Mapped, Multiple, Extended, HeapMemory.Valid;
      NoNodesNoBlocks(nodes);
      ghost var words := h.words;
      EmptyListIsOk(words, size);
      PageIsAligned(v);
      if size >= 4096 { return Done(v); }
      FreshRegionIsMapped(before, words, v, 4096);
      SizeDividesPage(size);
      if 4096 % size != 0 { return Panicked; }
      FillFromPage(h, v);
      ghost var all := Stack();
      ghost var filled := h.words;
      var b := Take(h);
      ChunksLieBelow(all, v, size);
      WritesInRegion(words, filled, h.words, v, 4096, all, size);
      ExtendedByWrites(before, words, h.words, v, 4096);
      return Done(b);
    }
  }

  /** The words of a block that may be pushed are mapped. */
  lemma BlockWordsAreMapped(words: Words, size: u64, nodes: seq<Node>, b: u64)
    requires SizeOk(size) && Pushable(words, size, nodes, b)
    ensures b in words && (UsesStack(size) ==> b + 8 < TWO_64 && b + 8 in words)
  {
    SizesAreWords(size);
    assert InBlock(b, size, b);
    if UsesStack(size) { assert InBlock(b, size, b + 8); }
  }

  /** So are those of a free slot. */
  lemma SlotIsMapped(words: Words, size: u64, nodes: seq<Node>, slot: nat)
    requires ListOk(words, size, nodes) && nodes != [] && UsesStack(size) && slot < MaxSlots(size)
    ensures SlotAddress(Top(nodes), slot) < TWO_64 && SlotAddress(Top(nodes), slot) in words
  {
    hide Chain, Blocks;
    BlockOnTop(words, size, nodes);
    SlotInBlock(size, Top(nodes), slot);
    assert InBlock(Top(nodes), size, SlotAddress(Top(nodes), slot));
  }

  lemma WordsAreBacked(s: PageSnapshots.Snapshot, words: Words, a: u64)
    requires Backs(s, words) && a in words
    ensures WordIs(s, a, words[a])
  {
  }
}
