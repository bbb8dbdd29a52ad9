/** The kernel's linear view of physical memory: built by the bootloader as executable, made
    non-executable by the kernel when booting has finished. */
module LinearMaps {
  import opened MachineInts
  import opened RangeSets
  import opened PhysicalMemories
  import opened PageTrees
  import opened PageMaps
  import opened PageSnapshots
  import opened PageRegions
  import opened PageTables
  import opened PageRuns
  import opened KernelAddressSpaces

  const KERNEL_PHYSICAL_REGION_BASE: u64 := 0xffff_f000_0000_0000
  const KERNEL_PHYSICAL_REGION_SIZE: u64 := 0x100_0000_0000

  /** The entry for physical address `phys` in the linear map. */
  function LinearEntry(phys: u64, nx: bool): u64
    requires phys < KERNEL_PHYSICAL_REGION_SIZE
  {
    phys + PAGE_PRESENT + PAGE_WRITE + PAGE_SIZE + Flag(nx, PAGE_NX)
  }

  lemma LinearEntryBits(phys: u64, t: PageType, nx: bool)
    requires phys % 4096 == 0 && phys < KERNEL_PHYSICAL_REGION_SIZE && t != Page4K
    ensures var e := LinearEntry(phys, nx);
      && Present(e) && Grants(e, true, !nx, false) && !Deallocate(e) && Large(e)
      && AddressOf(e) == phys && FinalEntry(e, t, false) == e
  {
    var e, n := LinearEntry(phys, nx), phys / 4096;
    var k := n + Flag(nx, 0x8_0000_0000_0000);
    assert e == 4096 * k + 0x83;
    Divides(e, 2, 2048 * k + 0x41, 1);
    Divides(2048 * k + 0x41, 2, 1024 * k + 0x20, 1);
    Divides(e, 4, 1024 * k + 0x20, 3);
    Divides(1024 * k + 0x20, 2, 512 * k + 0x10, 0);
    Divides(e, 0x80, 32 * k + 1, 3);
    Divides(32 * k + 1, 2, 16 * k, 1);
    Divides(e, 0x200, 8 * k, 0x83);
    Divides(8 * k, 2, 4 * k, 0);
    Divides(e, 4096, k, 0x83);
    Divides(k, 0x100_0000_0000, Flag(nx, 0x800), n);
  }

  /** Position of page `j` of the linear map. */
  function LinearPosition(t: PageType, j: nat): Path
    requires Offset(t, j) < KERNEL_PHYSICAL_REGION_SIZE
  {
    PathOf(KERNEL_PHYSICAL_REGION_BASE + Offset(t, j), LeafDepth(t))
  }

  ghost predicate LinearAt(pages: Pages, t: PageType, j: nat, nx: bool) {
    && Offset(t, j) < KERNEL_PHYSICAL_REGION_SIZE
    && LinearPosition(t, j) in pages && pages[LinearPosition(t, j)] == LinearEntry(Offset(t, j), nx)
  }

  /** The first `n` pages of the linear map are there. */
  ghost predicate LinearMapped(pages: Pages, t: PageType, n: nat, nx: bool) {
    forall j: nat :: j < n ==> LinearAt(pages, t, j, nx)
  }

  /** All of the linear map is there. */
  ghost predicate FullyMapped(pages: Pages, t: PageType, nx: bool) {
    forall j: nat :: Offset(t, j) < KERNEL_PHYSICAL_REGION_SIZE ==> LinearAt(pages, t, j, nx)
  }

  lemma LinearAddress(t: PageType, j: nat)
    requires t != Page4K && Offset(t, j) < KERNEL_PHYSICAL_REGION_SIZE
    ensures var va := KERNEL_PHYSICAL_REGION_BASE + Offset(t, j);
      va < TWO_64 && IsCanonical(va) && t.Rest(va) == 0
    ensures Offset(t, j) % 4096 == 0
  {
    var va := KERNEL_PHYSICAL_REGION_BASE + Offset(t, j);
    Divides(va, 0x10_0000_0000_0000, 0xfff, va - 0xfff0_0000_0000_0000);
    if t == Page2M {
      Divides(va, 0x20_0000, KERNEL_PHYSICAL_REGION_BASE / 0x20_0000 + j, 0);
      Divides(Offset(t, j), 4096, 512 * j, 0);
    } else {
      Divides(va, 0x4000_0000, KERNEL_PHYSICAL_REGION_BASE / 0x4000_0000 + j, 0);
      Divides(Offset(t, j), 4096, 0x4_0000 * j, 0);
    }
  }

  /** A non-updating `map_raw` of a page that the tree does not own keeps what mapping keeps. */
  lemma MapRawKeeps(a: Snapshot, b: Snapshot, root: u64, va: u64, t: PageType, e: u64, waste: iset<int>)
    requires IsTree(a.mem, root, a.tables, a.pages) && Present(e) && !Deallocate(e)
    requires MapAllowed(a.tables, a.pages, va, t, true, false) && Mapped(a, b, va, t, e, waste)
    ensures Kept(a, b, waste) && b.pages == a.pages[PathOf(va, LeafDepth(t)) := e]
  {
    hide IsTree, Owned;
    NothingBelowEmpty(a.mem, root, a.tables, a.pages, PathOf(va, LeafDepth(t)));
  }

  lemma LinearPageMapped(a: Snapshot, b: Snapshot, root: u64, t: PageType, j: nat, waste: iset<int>)
    requires IsTree(a.mem, root, a.tables, a.pages) && t != Page4K && Offset(t, j) < KERNEL_PHYSICAL_REGION_SIZE
    requires MapAllowed(a.tables, a.pages, KERNEL_PHYSICAL_REGION_BASE + Offset(t, j), t, true, false)
    requires Mapped(a, b, KERNEL_PHYSICAL_REGION_BASE + Offset(t, j), t, FinalEntry(LinearEntry(Offset(t, j), false), t, false), waste)
    ensures Kept(a, b, waste) && b.pages == a.pages[LinearPosition(t, j) := LinearEntry(Offset(t, j), false)]
  {
    hide IsTree, Mapped, MapAllowed, Kept, PathOf;
    LinearAddress(t, j);
    LinearEntryBits(Offset(t, j), t, false);
    MapRawKeeps(a, b, root, KERNEL_PHYSICAL_REGION_BASE + Offset(t, j), t, LinearEntry(Offset(t, j), false), waste);
  }

  /** The pages of `pages` and the first `j` of the linear map. */
  ghost function LinearPages(pages: Pages, t: PageType, j: nat): Pages {
    if j == 0 then pages
    else if Offset(t, j - 1) < KERNEL_PHYSICAL_REGION_SIZE then
      LinearPages(pages, t, j - 1)[LinearPosition(t, j - 1) := LinearEntry(Offset(t, j - 1), false)]
    else LinearPages(pages, t, j - 1)
  }

  /** Page `j` of the linear map was refused, which left `b`: the pages before it were mapped, and its own
      position cannot be used, or a table on the way is missing and there is no memory for it. */
  ghost predicate LinearPageFails(a: Snapshot, b: Snapshot, waste: iset<int>, t: PageType, j: nat) {
    var va := KERNEL_PHYSICAL_REGION_BASE + Offset(t, j);
    && Offset(t, j) < KERNEL_PHYSICAL_REGION_SIZE && Kept(a, b, waste) && b.pages == LinearPages(a.pages, t, j)
    && (!MapAllowed(b.tables, b.pages, va, t, true, false)
        || (PathOf(va, LeafDepth(t) - 1) !in b.tables && Starved(b.free, Page4K, 8 * |b.mem|)))
  }

  ghost predicate LinearMapFails(a: Snapshot, b: Snapshot, t: PageType) {
    exists waste: iset<int>, j: nat :: LinearPageFails(a, b, waste, t, j)
  }

  /** A refused page: only tables above it may have been added. */
  lemma RefusedPageFails(a: Snapshot, at: Snapshot, b: Snapshot, root: u64, waste: iset<int>, more: iset<int>, t: PageType, j: nat)
    requires t != Page4K && Offset(t, j) < KERNEL_PHYSICAL_REGION_SIZE
    requires IsTree(at.mem, root, at.tables, at.pages)
    requires Kept(a, at, waste) && at.pages == LinearPages(a.pages, t, j)
    requires var va := KERNEL_PHYSICAL_REGION_BASE + Offset(t, j);
      && Grown(at, b, va, LeafDepth(t) - 1, more)
      && (!MapAllowed(at.tables, at.pages, va, t, true, false)
          || (PathOf(va, LeafDepth(t) - 1) !in b.tables && Starved(b.free, Page4K, 8 * |b.mem|)))
    ensures LinearMapFails(a, b, t)
  {
    hide Owned, Starved, LinearPages, ChangesOnly, IsTree;
    var va := KERNEL_PHYSICAL_REGION_BASE + Offset(t, j);
    TablesAreAligned(at.mem, root, at.tables, at.pages);
    GrownIsKept(at, b, va, LeafDepth(t) - 1, more);
    KeptCompose(a, at, b, waste, more);
    GrownKeeps(at, b, va, LeafDepth(t) - 1, more);
    assert LinearPageFails(a, b, waste + more, t, j);
  }

  lemma GrownIsKept(a: Snapshot, b: Snapshot, va: u64, depth: nat, waste: iset<int>)
    requires depth <= 4 && Grown(a, b, va, depth, waste)
    ensures Kept(a, b, waste)
  {
  }

  /** One turn of the loop of `create_kernel_page_table` over the linear map. */
  method MapLinearPage(pt: PageTable, m: PhysicalMemory, t: PageType, phys: u64, ghost j: nat, ghost start: Snapshot, ghost lost: iset<int>)
    returns (r: Attempt<()>, ghost waste: iset<int>)
    requires pt.Valid(m) && t != Page4K && phys == Offset(t, j) < KERNEL_PHYSICAL_REGION_SIZE
    requires Kept(start, pt.State(m), lost) && pt.pages == LinearPages(start.pages, t, j)
    modifies pt, m, m.words, m.free, m.free.ranges
    ensures !r.Refused?
    ensures r.Done? ==> pt.Valid(m) && Kept(old(pt.State(m)), pt.State(m), waste)
    ensures r.Done? ==> pt.pages == old(pt.pages)[LinearPosition(t, j) := LinearEntry(phys, false)]
    ensures r.Panicked? ==>
      || m.free.used == CAPACITY
      || (pt.Valid(m) && LinearMapFails(start, pt.State(m), t))
  {
    hide IsTree, Separate, Owned, Kept, OwnedPagesFit, WellFormed, Mapped, MapAllowed, PathOf, Starved, Grown, LinearEntry, FinalEntry, Reported, LinearPages,
         LinearMapFails, LinearPosition, Outside, Deallocate, Present, LeafDepth;
    LinearAddress(t, j);
    LinearEntryBits(phys, t, false);
    ghost var at := pt.State(m);
    r, waste := pt.MapRaw(m, KERNEL_PHYSICAL_REGION_BASE + phys, t, LinearEntry(phys, false), true, false);
    if !r.Done? {
      if r.Refused? { RefusedPageFails(start, at, pt.State(m), pt.table, lost, waste, t, j); }
      return Panicked, waste;
    }
    LinearPageMapped(at, pt.State(m), pt.table, t, j, waste);
  }

  /** The loop of `create_kernel_page_table` over the linear map. */
  method MapLinear(pt: PageTable, m: PhysicalMemory, t: PageType) returns (r: Attempt<()>, ghost waste: iset<int>)
    requires pt.Valid(m) && t != Page4K
    modifies pt, m, m.words, m.free, m.free.ranges
    ensures !r.Refused?
    ensures r.Done? ==> pt.Valid(m) && FullyMapped(pt.pages, t, false) && Kept(old(pt.State(m)), pt.State(m), waste)
    ensures r.Panicked? ==> m.free.used == CAPACITY || (pt.Valid(m) && LinearMapFails(old(pt.State(m)), pt.State(m), t))
  {
    hide IsTree, Separate, Owned, Kept, OwnedPagesFit, WellFormed, MapAllowed, LinearMapped, Starved, LinearMapFails, LinearPosition, LinearEntry;
    waste := iset{};
    ghost var start := pt.State(m);
    NothingKept(start);
    NoLinearPages(pt.pages, t, false);
    var phys := 0;
    ghost var j := 0;
    while phys < KERNEL_PHYSICAL_REGION_SIZE
      invariant phys == Offset(t, j) <= KERNEL_PHYSICAL_REGION_SIZE
      invariant pt.Valid(m) && LinearMapped(pt.pages, t, j, false) && Kept(start, pt.State(m), waste)
      invariant pt.pages == LinearPages(start.pages, t, j)
      decreases KERNEL_PHYSICAL_REGION_SIZE - phys
    {
      OffsetStep(t, j, KERNEL_PHYSICAL_REGION_SIZE);
      TablesAreAligned(m.words[..], pt.table, pt.tables, pt.pages);
      ghost var before := pt.State(m);
      ghost var more;
      r, more := MapLinearPage(pt, m, t, phys, j, start, waste);
      if r.Panicked? { return Panicked, waste; }
      KeptCompose(start, before, pt.State(m), waste, more);
      OneMoreLinearPage(before, pt.State(m), t, j, more, false);
      waste := waste + more;
      phys, j := phys + t.Size(), j + 1;
    }
    LinearIsFull(pt.pages, t, j, false);
    r := Done(());
  }

  lemma NoLinearPages(pages: Pages, t: PageType, nx: bool)
    ensures LinearMapped(pages, t, 0, nx)
  {
  }

  lemma OneMoreLinearPage(a: Snapshot, b: Snapshot, t: PageType, j: nat, waste: iset<int>, nx: bool)
    requires LinearMapped(a.pages, t, j, nx) && Kept(a, b, waste) && Offset(t, j) < KERNEL_PHYSICAL_REGION_SIZE
    requires b.pages == a.pages[LinearPosition(t, j) := LinearEntry(Offset(t, j), nx)]
    ensures LinearMapped(b.pages, t, j + 1, nx)
  {
    hide Owned, ChangesOnly, PathOf;
    forall k: nat | k < j + 1 ensures LinearAt(b.pages, t, k, nx) {
      if k < j { assert LinearAt(a.pages, t, k, nx); }
    }
  }

  lemma LinearIsFull(pages: Pages, t: PageType, n: nat, nx: bool)
    requires LinearMapped(pages, t, n, nx) && Offset(t, n) == KERNEL_PHYSICAL_REGION_SIZE
    ensures FullyMapped(pages, t, nx)
  {
    forall j: nat | Offset(t, j) < KERNEL_PHYSICAL_REGION_SIZE ensures LinearAt(pages, t, j, nx) {
      assert j < n;
    }
  }

  /** How building the kernel's tables went: the state right after `new`, the state after the segments, the
      state at the end, and what was lost on the way. */
  datatype Building = Building(root: u64, start: Snapshot, loaded: Snapshot, end: Snapshot, lost: iset<int>)

  /** The building starts with an empty tree in one frame of the memory `free`. */
  ghost predicate StartsIn(b: Building, free: iset<int>, lost: iset<int>) {
    && Sound(b.start, b.root) && b.start.pages == map[]
    && exists waste: iset<int> :: Allocated(free, b.start.free, Owned(b.start.tables, map[]), waste) && b.start.lost == lost + waste
  }

  /** What stopped the building in the state `end`: a segment was refused, or all were loaded and a page of the
      linear map was refused. */
  ghost predicate Stopped(b: Building, segments: seq<Segment>, t: PageType) {
    && Sound(b.end, b.root)
    && (SomeSegmentFails(segments, b.start, b.end, b.root)
        || (Sound(b.loaded, b.root) && Kept(b.start, b.loaded, b.lost) && AllLoaded(b.loaded, segments, |segments|)
            && LinearMapFails(b.loaded, b.end, t)))
  }

  /** The end of the building is what memory looks like. */
  ghost predicate EndsIn(b: Building, m: PhysicalMemory)
    requires m.free.used <= m.free.ranges.Length
    reads m, m.words, m.free, m.free.ranges
  {
    b.end.mem == m.words[..] && b.end.free == m.Free() && b.end.lost == m.lost
  }

  /** `create_kernel_page_table`: a new tree with the kernel's segments and the linear map. It panics when the set of
      free memory is full, when there is no frame for the root, or for the reason that `Stopped` names. */
  method CreateKernelPageTable(m: PhysicalMemory, segments: seq<Segment>, t: PageType)
    returns (r: Attempt<PageTable>, ghost b: Building)
    requires m.Valid() && t != Page4K
    modifies m, m.words, m.free, m.free.ranges
    ensures !r.Refused?
    ensures r.Done? ==> fresh(r.value) && r.value.Valid(m) && FullyMapped(r.value.pages, t, false)
    ensures r.Done? ==> AllLoaded(r.value.State(m), segments, |segments|)
    ensures r.Panicked? ==>
      || m.free.used == CAPACITY || old(m.CannotServe(Page4K))
      || (m.Valid() && StartsIn(b, old(m.Free()), old(m.lost)) && EndsIn(b, m) && Stopped(b, segments, t))
  {
    hide IsTree, Separate, Owned, Kept, OwnedPagesFit, WellFormed, AllLoaded, FullyMapped, SomeSegmentFails, LinearMapFails,
         Starved, Allocated;
    var empty := Snapshot([], iset{}, iset{}, map[], map[]);
    b := Building(0, empty, empty, empty, iset{});
    ghost var waste;
    r, waste := PageTable.New(m);
    if !r.Done? { return Panicked, b; }
    var pt := r.value;
    b := b.(root := pt.table, start := pt.State(m));
    var done;
    done, waste := LoadSegments(pt, m, segments);
    b := b.(loaded := pt.State(m), end := pt.State(m), lost := waste);
    if !done.Done? { return Panicked, b; }
    done, waste := MapLinear(pt, m, t);
    b := b.(end := pt.State(m));
    if !done.Done? { return Panicked, b; }
    AllLoadedStays(b.loaded, pt.State(m), pt.table, waste, segments, |segments|);
  }

  // ---------------------------------------------------------------------------------------
  // Taking execution rights away
  // ---------------------------------------------------------------------------------------

  /** From `a` to `b` pages may have lost the right to execute, and nothing else has changed:
      the same pages are mapped to the same frames, and owned pages keep their contents. */
  ghost predicate OnlyLostExecution(a: Snapshot, b: Snapshot) {
    && b.pages.Keys == a.pages.Keys && b.free <= a.free && b.lost == a.lost
    && (forall p :: p in a.pages ==> SameButExecution(a.pages[p], b.pages[p]))
    && |b.mem| == |a.mem|
    && (forall w :: 0 <= w < |b.mem| && b.mem[w] != a.mem[w] ==> 8 * w in a.free || IsTableWord(a.tables, w))
    && a.tables == b.tables
  }

  /** Owned pages keep their entry; the others may gain the NX bit. */
  ghost predicate SameButExecution(e: u64, f: u64) {
    e == f || (!Deallocate(e) && !Deallocate(f) && AddressOf(f) == AddressOf(e) && (Writable(f) <==> Writable(e))
               && (UserOk(f) <==> UserOk(e)) && (NoExecute(e) ==> NoExecute(f)))
  }

  lemma OnlyLostExecutionComposes(a: Snapshot, b: Snapshot, c: Snapshot)
    requires OnlyLostExecution(a, b) && OnlyLostExecution(b, c)
    ensures OnlyLostExecution(a, c)
  {
    hide AddressOf, Writable, UserOk, NoExecute, Deallocate;
    forall p | p in a.pages ensures SameButExecution(a.pages[p], c.pages[p]) {
      assert SameButExecution(a.pages[p], b.pages[p]);
      assert p in b.pages && SameButExecution(b.pages[p], c.pages[p]);
    }
  }

  /** Overwriting a page of the linear map by itself with the NX bit. */
  lemma RemapIsHarmless(a: Snapshot, b: Snapshot, root: u64, t: PageType, j: nat, waste: iset<int>)
    requires IsTree(a.mem, root, a.tables, a.pages) && t != Page4K && LinearAt(a.pages, t, j, false)
    requires MapAllowed(a.tables, a.pages, KERNEL_PHYSICAL_REGION_BASE + Offset(t, j), t, false, true)
    requires Mapped(a, b, KERNEL_PHYSICAL_REGION_BASE + Offset(t, j), t, LinearEntry(Offset(t, j), true), waste)
    requires b.tables == a.tables && waste == iset{}
    ensures OnlyLostExecution(a, b) && b.pages == a.pages[LinearPosition(t, j) := LinearEntry(Offset(t, j), true)]
  {
    hide IsTree, Owned, PathOf;
    var c := LinearPosition(t, j);
    LinearAddress(t, j);
    LinearEntryBits(Offset(t, j), t, false);
    LinearEntryBits(Offset(t, j), t, true);
    NothingBelowPage(a.mem, root, a.tables, a.pages, c);
  }

  /** A mapped page can be remapped without any allocation. */
  lemma PageIsRemappable(mem: Memory, root: u64, tables: Tables, pages: Pages, va: u64, t: PageType)
    requires IsTree(mem, root, tables, pages) && IsCanonical(va) && t.Rest(va) == 0
    requires PathOf(va, LeafDepth(t)) in pages
    ensures MapAllowed(tables, pages, va, t, false, true)
    ensures PathOf(va, LeafDepth(t) - 1) in tables
    ensures Outside(tables, PathOf(va, LeafDepth(t))) == tables
  {
    var d := LeafDepth(t);
    assert Rooted(tables, PathOf(va, d));
    OnlyTablesAbove(mem, root, tables, pages, va, d - 1);
    NothingBelowPage(mem, root, tables, pages, PathOf(va, d));
  }

  /** Which pages of the linear map have lost the right to execute before turn `j`. */
  ghost predicate NxUpTo(pages: Pages, t: PageType, j: nat) {
    forall k: nat :: Offset(t, k) < KERNEL_PHYSICAL_REGION_SIZE ==> LinearAt(pages, t, k, k < j)
  }

  lemma NxStep(pages: Pages, t: PageType, j: nat)
    requires t != Page4K && NxUpTo(pages, t, j) && Offset(t, j) < KERNEL_PHYSICAL_REGION_SIZE
    ensures NxUpTo(pages[LinearPosition(t, j) := LinearEntry(Offset(t, j), true)], t, j + 1)
  {
    hide PathOf;
    assert LinearAt(pages, t, j, false);
    forall k: nat | Offset(t, k) < KERNEL_PHYSICAL_REGION_SIZE
      ensures LinearAt(pages[LinearPosition(t, j) := LinearEntry(Offset(t, j), true)], t, k, k < j + 1)
    {
      assert LinearAt(pages, t, k, k < j);
      if k != j { LinearPositionsDiffer(pages, t, j, k, k < j); }
    }
  }

  lemma LinearPositionsDiffer(pages: Pages, t: PageType, j: nat, k: nat, nx: bool)
    requires t != Page4K && j != k && LinearAt(pages, t, j, false) && LinearAt(pages, t, k, nx)
    ensures LinearPosition(t, j) != LinearPosition(t, k)
  {
    LinearAddress(t, j);
    LinearAddress(t, k);
    LinearEntryBits(Offset(t, j), t, false);
    LinearEntryBits(Offset(t, k), t, nx);
    OffsetsDiffer(t, j, k);
  }

  lemma OffsetsDiffer(t: PageType, j: nat, k: nat)
    requires j != k
    ensures Offset(t, j) != Offset(t, k)
  {
  }

  /** One turn of the loop of `enable_nx_on_physical_region`. */
  method RemapLinearPage(pt: PageTable, m: PhysicalMemory, t: PageType, phys: u64, ghost j: nat)
    requires pt.Valid(m) && t != Page4K && phys == Offset(t, j) < KERNEL_PHYSICAL_REGION_SIZE && NxUpTo(pt.pages, t, j)
    modifies pt, m, m.words, m.free, m.free.ranges
    ensures pt.Valid(m) && NxUpTo(pt.pages, t, j + 1) && OnlyLostExecution(old(pt.State(m)), pt.State(m))
  {
    hide IsTree, Separate, Owned, OwnedPagesFit, WellFormed, Mapped, MapAllowed, NxUpTo, OnlyLostExecution, PathOf;
    LinearAddress(t, j);
    LinearEntryBits(phys, t, true);
    NextStillExecutable(pt.pages, t, j);
    PageIsRemappable(m.words[..], pt.table, pt.tables, pt.pages, KERNEL_PHYSICAL_REGION_BASE + phys, t);
    ghost var before := pt.State(m);
    var r;
    ghost var waste;
    r, waste := pt.MapRaw(m, KERNEL_PHYSICAL_REGION_BASE + phys, t, LinearEntry(phys, true), false, true);
    assert r.Done?;
    RemapIsHarmless(before, pt.State(m), pt.table, t, j, waste);
    NxStep(before.pages, t, j);
  }

  /** `enable_nx_on_physical_region`: over a complete linear map it never panics, and it leaves
      every page of the map non-executable. */
  method EnableNx(pt: PageTable, m: PhysicalMemory, pageSize: u64) returns (r: Attempt<()>)
    requires pt.Valid(m)
    requires pageSize == Page2M.Size() ==> FullyMapped(pt.pages, Page2M, false)
    requires pageSize == Page1G.Size() ==> FullyMapped(pt.pages, Page1G, false)
    modifies pt, m, m.words, m.free, m.free.ranges
    ensures r.Panicked? <==> pageSize != Page2M.Size() && pageSize != Page1G.Size()
    ensures !r.Refused?
    ensures r.Done? ==> pt.Valid(m) && OnlyLostExecution(old(pt.State(m)), pt.State(m))
    ensures r.Done? ==> FullyMapped(pt.pages, if pageSize == Page2M.Size() then Page2M else Page1G, true)
  {
    hide IsTree, Separate, Owned, OwnedPagesFit, WellFormed, NxUpTo, OnlyLostExecution;
    if pageSize != 0x20_0000 && pageSize != 0x4000_0000 { return Panicked; }
    var t := if pageSize == 0x20_0000 then Page2M else Page1G;
    NxStarts(pt.pages, t);
    NothingLostExecution(pt.State(m));
    var phys := 0;
    ghost var j := 0;
    while phys < KERNEL_PHYSICAL_REGION_SIZE
      invariant phys == Offset(t, j) <= KERNEL_PHYSICAL_REGION_SIZE
      invariant pt.Valid(m) && NxUpTo(pt.pages, t, j) && OnlyLostExecution(old(pt.State(m)), pt.State(m))
      decreases KERNEL_PHYSICAL_REGION_SIZE - phys
    {
      OffsetStep(t, j, KERNEL_PHYSICAL_REGION_SIZE);
      ghost var before := pt.State(m);
      RemapLinearPage(pt, m, t, phys, j);
      OnlyLostExecutionComposes(old(pt.State(m)), before, pt.State(m));
      phys, j := phys + t.Size(), j + 1;
    }
    AllLostExecution(pt.pages, t, j);
    r := Done(());
  }

  lemma NxStarts(pages: Pages, t: PageType)
    requires FullyMapped(pages, t, false)
    ensures NxUpTo(pages, t, 0)
  {
  }

  lemma NextStillExecutable(pages: Pages, t: PageType, j: nat)
    requires NxUpTo(pages, t, j) && Offset(t, j) < KERNEL_PHYSICAL_REGION_SIZE
    ensures LinearAt(pages, t, j, false)
  {
    assert LinearAt(pages, t, j, j < j);
  }

  lemma AllLostExecution(pages: Pages, t: PageType, n: nat)
    requires NxUpTo(pages, t, n) && Offset(t, n) == KERNEL_PHYSICAL_REGION_SIZE
    ensures FullyMapped(pages, t, true)
  {
    forall j: nat | Offset(t, j) < KERNEL_PHYSICAL_REGION_SIZE ensures LinearAt(pages, t, j, true) {
      assert LinearAt(pages, t, j, j < n);
    }
  }

  lemma NothingLostExecution(a: Snapshot)
    ensures OnlyLostExecution(a, a)
  {
  }

  /** Every address keeps its translation and its other rights. */
  lemma TranslationSurvives(a: Snapshot, b: Snapshot, va: u64)
    requires OnlyLostExecution(a, b)
    ensures Translation(b.pages, va) == Translation(a.pages, va)
    ensures Lookup(a.pages, va).Some? ==>
              (var e, f := Lookup(a.pages, va).value.entry, Lookup(b.pages, va).value.entry;
               (Writable(f) <==> Writable(e)) && (UserOk(f) <==> UserOk(e)) && (NoExecute(e) ==> NoExecute(f)))
  {
    hide AddressOf, Writable, UserOk, NoExecute, Deallocate, PathOf;
    forall d: nat | 2 <= d <= 4 && PathOf(va, d) in a.pages
      ensures SameButExecution(a.pages[PathOf(va, d)], b.pages[PathOf(va, d)]) { }
    forall d: nat | d <= 4 ensures PathOf(va, d) in a.pages <==> PathOf(va, d) in b.pages {
      assert PathOf(va, d) in a.pages.Keys <==> PathOf(va, d) in b.pages.Keys;
    }
  }

  /** Afterwards the processor reaches all of physical memory through the linear map, writable
      and never executable. */
  lemma LinearMapIsNotExecutable(s: Snapshot, root: u64, t: PageType, x: u64)
    requires Sound(s, root) && t != Page4K && FullyMapped(s.pages, t, true) && x < KERNEL_PHYSICAL_REGION_SIZE
    ensures Translation(s.pages, KERNEL_PHYSICAL_REGION_BASE + x) == Some(x)
    ensures var w := HardwareWalk(s.mem, root, KERNEL_PHYSICAL_REGION_BASE + x);
      w.Page? && w.rights == Rights(true, false, false)
  {
    hide IsTree, Separate, Owned, Lookup, PageNumber, HardwareWalk;
    var j, r := if t == Page2M then x / 0x20_0000 else x / 0x4000_0000, t.Rest(x);
    assert x == Offset(t, j) + r && r < t.Size();
    assert LinearAt(s.pages, t, j, true);
    LinearAddress(t, j);
    LinearEntryBits(Offset(t, j), t, true);
    AddressesOfPage(KERNEL_PHYSICAL_REGION_BASE + Offset(t, j), t, r);
    SamePositionSamePage(KERNEL_PHYSICAL_REGION_BASE + x, KERNEL_PHYSICAL_REGION_BASE + Offset(t, j), LeafDepth(t));
    LookupFinds(s.mem, root, s.tables, s.pages, KERNEL_PHYSICAL_REGION_BASE + x, LeafDepth(t));
    HardwareAgrees(s.mem, root, s.tables, s.pages, KERNEL_PHYSICAL_REGION_BASE + x);
  }

  /** The loaded kernel still reads as it did, with the same rights. */
  lemma LoadedSurvives(a: Snapshot, b: Snapshot, root: u64, seg: Segment)
    requires Sound(a, root) && Sound(b, root) && OnlyLostExecution(a, b) && Loaded(a, seg)
    ensures Loaded(b, seg)
  {
    hide Sound, OnlyLostExecution, ReadsAs;
    forall i: nat | i < seg.virtSize ensures LoadedAt(b, seg, i) {
      assert LoadedAt(a, seg, i);
      ReadSurvives(a, b, root, seg.virtAddr + i, seg.ByteInMemory(i), seg.write, seg.execute);
    }
  }

  lemma ReadSurvives(a: Snapshot, b: Snapshot, root: u64, va: u64, x: byte, write: bool, exec: bool)
    requires Sound(a, root) && Sound(b, root) && OnlyLostExecution(a, b) && ReadsAs(a, va, x, write, exec)
    ensures ReadsAs(b, va, x, write, exec)
  {
    hide IsTree, Separate, Owned, Translation;
    var m := Lookup(a.pages, va).value;
    var q, p := PathOf(va, m.depth), AddressOf(m.entry) + TypeAt(m.depth).Rest(va);
    TranslationSurvives(a, b, va);
    assert SameButExecution(a.pages[q], b.pages[q]);
    assert q in b.pages.Keys;
    LookupFinds(b.mem, root, b.tables, b.pages, va, m.depth);
    OwnedByteUnchanged(a, b, root, q, p);
  }

  lemma OwnedByteUnchanged(a: Snapshot, b: Snapshot, root: u64, q: Path, x: nat)
    requires Sound(a, root) && OnlyLostExecution(a, b)
    requires q in a.pages && Deallocate(a.pages[q]) && 2 <= Depth(q) <= 4
    requires InSpan(AddressOf(a.pages[q]), TypeAt(Depth(q)).Size(), x) && x < 8 * |a.mem|
    ensures b.mem[x / 8] == a.mem[x / 8]
  {
    hide IsTree;
    AncestorsAreTables(a.mem, root, a.tables, a.pages, q, q);
    WordOfPageByte(AddressOf(a.pages[q]), TypeAt(Depth(q)).Size(), x);
    EverythingIsUnderRoot(q);
    assert OwnsByte(a.tables, a.pages, q, 8 * (x / 8));
    assert 8 * (x / 8) in Owned(a.tables, a.pages);
    if b.mem[x / 8] != a.mem[x / 8] {
      var p, i: nat :| p in a.tables && i < 512 && x / 8 == Slot(a.tables[p], i);
      TableWordIsOwnByte(a.mem, root, a.tables, a.pages, p, i);
    }
  }
}
