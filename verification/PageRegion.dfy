/** Mapping a whole region with pages that the tree owns, described on values. */
module PageRegions {
  import opened MachineInts
  import opened RangeSets
  import opened PhysicalMemories
  import opened PageTrees
  import opened PageMaps
  import opened PageSnapshots

  // ---------------------------------------------------------------------------------------
  // Entries of owned pages
  // ---------------------------------------------------------------------------------------

  function Flag(on: bool, bit: nat): nat { if on then bit else 0 }

  /** The raw entry that `map_init` builds for a page. */
  function PageRaw(page: u64, t: PageType, write: bool, exec: bool, user: bool): u64
    requires page % 4096 == 0 && page < MAX_REGION
  {
    page + PAGE_PRESENT + Flag(write, PAGE_WRITE) + Flag(!exec, PAGE_NX) + Flag(user, PAGE_USER) + Flag(t != Page4K, PAGE_SIZE)
  }

  /** The entry that ends up in the tree. */
  function OwnedEntry(page: u64, t: PageType, write: bool, exec: bool, user: bool): u64
    requires page % 4096 == 0 && page < MAX_REGION
  {
    FinalEntry(PageRaw(page, t, write, exec, user), t, true)
  }

  /** The entry grants exactly the given rights. */
  ghost predicate Grants(e: u64, write: bool, exec: bool, user: bool) {
    (Writable(e) <==> write) && (UserOk(e) <==> user) && (NoExecute(e) <==> !exec)
  }

  lemma PageRawBits(page: u64, t: PageType, write: bool, exec: bool, user: bool)
    requires page % 4096 == 0 && page < MAX_REGION
    ensures var e := PageRaw(page, t, write, exec, user);
      && Present(e) && Grants(e, write, exec, user)
      && !Deallocate(e) && AddressOf(e) == page
  {
    var e, n := PageRaw(page, t, write, exec, user), page / 4096;
    var w, u, l := Flag(write, 1), Flag(user, 1), Flag(t != Page4K, 1);
    var k := n + Flag(!exec, 0x8_0000_0000_0000);
    assert e == 4096 * k + 128 * l + 4 * u + 2 * w + 1;
    FlagsOfEntry(e, k, l, u, w);
    Divides(k, 0x100_0000_0000, Flag(!exec, 0x800), n);
  }

  lemma FlagsOfEntry(e: nat, k: nat, l: nat, u: nat, w: nat)
    requires l < 2 && u < 2 && w < 2 && e == 4096 * k + 128 * l + 4 * u + 2 * w + 1
    ensures e % 2 == 1 && e / 2 % 2 == w && e / 4 % 2 == u && e / 0x200 % 2 == 0 && e / 4096 == k
  {
    Divides(e, 2, 2048 * k + 64 * l + 2 * u + w, 1);
    Divides(2048 * k + 64 * l + 2 * u + w, 2, 1024 * k + 32 * l + u, w);
    Divides(e, 4, 1024 * k + 32 * l + u, 2 * w + 1);
    Divides(1024 * k + 32 * l + u, 2, 512 * k + 16 * l, u);
    Divides(e, 0x200, 8 * k, 128 * l + 4 * u + 2 * w + 1);
    Divides(8 * k, 2, 4 * k, 0);
    Divides(e, 4096, k, 128 * l + 4 * u + 2 * w + 1);
  }

  lemma OwnedEntryBits(page: u64, t: PageType, write: bool, exec: bool, user: bool)
    requires page % 4096 == 0 && page < MAX_REGION
    ensures var e := OwnedEntry(page, t, write, exec, user);
      && Present(e) && Grants(e, write, exec, user)
      && Deallocate(e) && AddressOf(e) == page && (t != Page4K ==> Large(e))
  {
    PageRawBits(page, t, write, exec, user);
    FinalEntryBits(PageRaw(page, t, write, exec, user), t, true);
  }

  // ---------------------------------------------------------------------------------------
  // One page
  // ---------------------------------------------------------------------------------------

  /** From `a` to `b` the tree got one owned page for `va`. */
  ghost predicate GotPage(a: Snapshot, b: Snapshot, va: u64, t: PageType, e: u64, waste: iset<int>) {
    var c := PathOf(va, LeafDepth(t));
    && Present(e) && Deallocate(e) && IsCanonical(va) && t.Rest(va) == 0
    && c !in a.pages && c !in a.tables && b.pages == a.pages[c := e]
    && Span(AddressOf(e), t.Size()) <= a.free
    && Kept(a, b, waste) && (Paged(a.free) ==> waste == iset{})
  }

  /** What mapping owned pages keeps: nothing but free memory and the tree's own tables is
      written, old positions stay, and every byte is accounted for. */
  ghost predicate Kept(a: Snapshot, b: Snapshot, waste: iset<int>) {
    && (forall p :: p in a.pages ==> p in b.pages && b.pages[p] == a.pages[p])
    && (forall p :: p in a.tables ==> p in b.tables && b.tables[p] == a.tables[p])
    && (forall p :: p in b.tables && p !in a.tables ==> Span(b.tables[p], 4096) <= a.free)
    && ChangesOnly(a.mem, b.mem, a.free, a.tables)
    && b.free + Owned(b.tables, b.pages) + b.lost == a.free + Owned(a.tables, a.pages) + a.lost
    && b.free <= a.free && b.lost == a.lost + waste
    && (Paged(a.free) ==> Paged(b.free))
  }

  lemma KeptCompose(a: Snapshot, b: Snapshot, c: Snapshot, w0: iset<int>, w1: iset<int>)
    requires Kept(a, b, w0) && Kept(b, c, w1)
    requires forall p :: p in b.tables ==> b.tables[p] % 4096 == 0
    ensures Kept(a, c, w0 + w1)
  {
    forall w | 0 <= w < |c.mem| && c.mem[w] != a.mem[w] ensures 8 * w in a.free || IsTableWord(a.tables, w) {
      if b.mem[w] == a.mem[w] && 8 * w !in b.free {
        var p, i: nat :| p in b.tables && i < 512 && w == Slot(b.tables[p], i);
        if p !in a.tables {
          var n := b.tables[p] / 4096;
          Divides(b.tables[p], 8, 512 * n, 0);
          assert InSpan(b.tables[p], 4096, 8 * w);
        }
      }
    }
  }

  /** A page was taken from free memory and filled, and is not mapped yet. */
  ghost predicate TookPage(a: Snapshot, z: Snapshot, page: u64, size: nat, waste: iset<int>) {
    && z.tables == a.tables && z.pages == a.pages && z.lost == a.lost + waste
    && Allocated(a.free, z.free, Span(page, size), waste)
    && |z.mem| == |a.mem|
    && forall w :: 0 <= w < |z.mem| && z.mem[w] != a.mem[w] ==> 8 * w in Span(page, size)
  }

  lemma NothingKept(a: Snapshot)
    ensures Kept(a, a, iset{})
  {
  }

  /** A region that `map_init` refuses before it maps anything. */
  predicate BadRegion(va: u64, t: PageType, size: u64) {
    size == 0 || t.Rest(size) != 0 || t.Rest(va) != 0 || va + (size - 1) > U64_MAX
  }

  /** They are the empty regions, those whose size or address is not a multiple of the page size, and those that do not
      end in the address space. */
  lemma BadRegionMeaning(va: u64, t: PageType, size: u64)
    ensures BadRegion(va, t, size) <==>
            size == 0 || size % t.Size() != 0 || va % t.Size() != 0 || va + size > 0x1_0000_0000_0000_0000
    ensures t.Size() == if t.Page4K? then 0x1000 else if t.Page2M? then 0x20_0000 else 0x4000_0000
  {
  }

  /** One page of free memory is lost, and nothing else when free memory consists of whole pages. */
  ghost predicate LosesPage(free: iset<int>, t: PageType, waste: iset<int>) {
    exists page :: Span(page, t.Size()) <= waste * free && (Paged(free) ==> waste == Span(page, t.Size()))
  }

  /** From `a` to `b` the page at `va` was not mapped. Either there was no memory for the page, and nothing
      happened, or its position could not be used or not be reached, and the page is lost. */
  ghost predicate PageRefused(a: Snapshot, b: Snapshot, va: u64, t: PageType, waste: iset<int>) {
    && Kept(a, b, waste) && b.pages == a.pages
    && if Starved(a.free, t, 8 * |a.mem|) then b == a && waste == iset{}
       else
         && LosesPage(a.free, t, waste)
         && (!MapAllowed(a.tables, a.pages, va, t, true, false) || Starved(b.free, Page4K, 8 * |b.mem|))
  }

  /** From `a` to `b` a region was refused: at once, or at the page behind `entries`, in the state `mid`. */
  ghost predicate RegionRefused(a: Snapshot, mid: Snapshot, b: Snapshot, va: u64, t: PageType, size: u64,
                                entries: seq<u64>, waste: iset<int>, last: iset<int>) {
    if BadRegion(va, t, size) then mid == b == a && entries == [] && waste == last == iset{}
    else StopsBehind(a, mid, b, va, t, size, entries, waste, last)
  }

  /** The pages of `entries` were mapped, which left `mid`, and the next page of the region was refused. */
  ghost predicate StopsBehind(a: Snapshot, mid: Snapshot, b: Snapshot, va: u64, t: PageType, size: u64,
                              entries: seq<u64>, waste: iset<int>, last: iset<int>) {
    && Offset(t, |entries|) < size && va + Offset(t, |entries|) + t.Size() <= TWO_64
    && GotPages(a, mid, va, t, entries, waste)
    && PageRefused(mid, b, va + Offset(t, |entries|), t, last)
  }

  /** From `a` to `b` some page of the region was refused, and those in front of it were mapped. */
  ghost predicate PageStops(a: Snapshot, b: Snapshot, va: u64, t: PageType, size: u64, entries: seq<u64>, waste: iset<int>) {
    exists mid: Snapshot, first: iset<int>, last: iset<int> ::
      StopsBehind(a, mid, b, va, t, size, entries, first, last) && waste == first + last
  }

  /** A region that is not bad can only fail at one of its pages. */
  lemma GoodRegionStops(a: Snapshot, b: Snapshot, va: u64, t: PageType, size: u64, entries: seq<u64>, waste: iset<int>)
    requires RegionFails(a, b, va, t, size, entries, waste)
    requires size > 0 && size % t.Size() == 0 && va % t.Size() == 0 && va + size <= TWO_64
    ensures PageStops(a, b, va, t, size, entries, waste)
    ensures |entries| < size / t.Size()
  {
    hide StopsBehind, BadRegion;
    BadRegionMeaning(va, t, size);
    var mid: Snapshot, first: iset<int>, last: iset<int> :|
      RegionRefused(a, mid, b, va, t, size, entries, first, last) && waste == first + last;
    assert StopsBehind(a, mid, b, va, t, size, entries, first, last);
    StopsInside(a, mid, b, va, t, size, entries, first, last);
  }

  lemma StopsInside(a: Snapshot, mid: Snapshot, b: Snapshot, va: u64, t: PageType, size: u64,
                    entries: seq<u64>, waste: iset<int>, last: iset<int>)
    requires StopsBehind(a, mid, b, va, t, size, entries, waste, last) && size % t.Size() == 0
    ensures |entries| < size / t.Size()
  {
    hide GotPages, PageRefused;
    match t case Page4K => case Page2M => case Page1G =>
  }

  /** The region could not be mapped from `a` on, for one of these reasons, which left `b`. */
  ghost predicate RegionFails(a: Snapshot, b: Snapshot, va: u64, t: PageType, size: u64, entries: seq<u64>, waste: iset<int>) {
    exists mid: Snapshot, first: iset<int>, last: iset<int> ::
      RegionRefused(a, mid, b, va, t, size, entries, first, last) && waste == first + last
  }

  lemma PageNotServed(a: Snapshot, va: u64, t: PageType)
    requires Starved(a.free, t, 8 * |a.mem|)
    ensures PageRefused(a, a, va, t, iset{})
  {
  }

  lemma RegionIsBad(a: Snapshot, va: u64, t: PageType, size: u64)
    requires BadRegion(va, t, size)
    ensures RegionFails(a, a, va, t, size, [], iset{})
  {
    assert RegionRefused(a, a, a, va, t, size, [], iset{}, iset{});
  }

  lemma ZeroedPageIsTaken(a: Snapshot, z: Snapshot, page: u64, size: nat, waste: iset<int>)
    requires page % 4096 == 0 && size % 4096 == 0 && page + size <= 8 * |a.mem|
    requires ZeroedPage(a.mem, z.mem, page, size) && Allocated(a.free, z.free, Span(page, size), waste)
    requires z.tables == a.tables && z.pages == a.pages && z.lost == a.lost + waste
    ensures TookPage(a, z, page, size, waste)
  {
    ZeroedPageIsFresh(a.mem, z.mem, page, size, Span(page, size), map[]);
  }

  /** Filling a page that was taken. */
  lemma FilledPageIsTaken(a: Snapshot, z: Snapshot, f: Snapshot, page: u64, size: nat, waste: iset<int>)
    requires TookPage(a, z, page, size, waste) && f == z.(mem := f.mem) && |f.mem| == |z.mem|
    requires forall w :: 0 <= w < |f.mem| && f.mem[w] != z.mem[w] ==> 8 * w in Span(page, size)
    ensures TookPage(a, f, page, size, waste)
  {
  }

  /** Mapping a taken page does not touch its contents. */
  lemma TakenPageKeepsContents(a: Snapshot, z: Snapshot, b: Snapshot, root: u64, page: u64, size: nat, waste: iset<int>,
                               f: nat -> byte, offset: nat, va: u64, t: PageType, e: u64, more: iset<int>)
    requires IsTree(z.mem, root, z.tables, z.pages) && Nobody(z, Span(page, size))
    requires page % 4096 == 0 && TookPage(a, z, page, size, waste)
    requires Mapped(z, b, va, t, e, more)
    requires Holds(z.mem, page, size, f, offset)
    ensures Holds(b.mem, page, size, f, offset)
  {
    hide IsTree, Owned;
    forall j: nat | j < size ensures HoldsAt(b.mem, page, f, offset, j) {
      assert HoldsAt(z.mem, page, f, offset, j);
      var w := (page + j) / 8;
      WordOfPageByte(page, size, page + j);
      if b.mem[w] != z.mem[w] {
        var p, i: nat :| p in z.tables && i < 512 && w == Slot(z.tables[p], i);
        TableWordsAreOwned(z.mem, root, z.tables, z.pages, p, i);
      }
    }
  }

  /** Filling a fresh page does not disturb the tree. */
  lemma TreeIgnoresTakenPage(a: Snapshot, z: Snapshot, root: u64, page: u64, size: nat, waste: iset<int>)
    requires IsTree(a.mem, root, a.tables, a.pages) && Owned(a.tables, a.pages) !! a.free
    requires TookPage(a, z, page, size, waste)
    ensures IsTree(z.mem, root, z.tables, z.pages)
  {
    forall p, i: nat | p in a.tables && i < 512 && Slot(a.tables[p], i) < |a.mem|
      ensures z.mem[Slot(a.tables[p], i)] == a.mem[Slot(a.tables[p], i)]
    {
      TableWordsAreOwned(a.mem, root, a.tables, a.pages, p, i);
    }
    TreeIgnoresOtherWords(a.mem, z.mem, root, a.tables, a.pages);
  }

  /** Taking a page, filling it and mapping it. */
  lemma MappedPageIsGot(a: Snapshot, z: Snapshot, b: Snapshot, root: u64, va: u64, t: PageType, e: u64,
                        waste: iset<int>, more: iset<int>)
    requires IsTree(z.mem, root, z.tables, z.pages)
    requires TookPage(a, z, AddressOf(e), t.Size(), waste)
    requires Present(e) && Deallocate(e)
    requires MapAllowed(z.tables, z.pages, va, t, true, false) && Mapped(z, b, va, t, e, more)
    ensures GotPage(a, b, va, t, e, waste + more)
  {
    hide IsTree, Owned;
    var c := PathOf(va, LeafDepth(t));
    NothingBelowEmpty(z.mem, root, z.tables, z.pages, c);
  }

  /** Taking a page and failing to map it: the page is lost. */
  lemma UnmappedPageIsLost(a: Snapshot, z: Snapshot, b: Snapshot, page: u64, va: u64, t: PageType, depth: nat,
                           waste: iset<int>, more: iset<int>)
    requires depth <= 4 && TookPage(a, z, page, t.Size(), waste) && Grown(z, b, va, depth, more)
    requires Nobody(z, Span(page, t.Size())) && !Starved(a.free, t, 8 * |a.mem|)
    requires !MapAllowed(a.tables, a.pages, va, t, true, false) || Starved(b.free, Page4K, 8 * |b.mem|)
    ensures Nobody(b, Span(page, t.Size()))
    ensures PageRefused(a, b.(lost := b.lost + Span(page, t.Size())), va, t, waste + more + Span(page, t.Size()))
  {
    hide Owned, Starved, MapAllowed;
    var last := waste + more + Span(page, t.Size());
    MayStillOwn(z, b, va, depth, more, Span(page, t.Size()));
    if Paged(a.free) { assert last == Span(page, t.Size()); }
    assert LosesPage(a.free, t, last) by { assert Span(page, t.Size()) <= last * a.free; }
  }

  // ---------------------------------------------------------------------------------------
  // A region of pages
  // ---------------------------------------------------------------------------------------

  /** Offset of page `k` of a region. */
  function Offset(t: PageType, k: nat): nat {
    match t case Page4K => 4096 * k case Page2M => 0x20_0000 * k case Page1G => 0x4000_0000 * k
  }

  lemma OffsetStep(t: PageType, k: nat, size: nat)
    requires t.Rest(size) == 0
    ensures Offset(t, k + 1) == Offset(t, k) + t.Size()
    ensures Offset(t, k) < size ==> Offset(t, k + 1) <= size
  {
  }

  /** `pages` with the entries of a region that starts at `va`. */
  ghost function PagesWith(pages: Pages, va: u64, t: PageType, entries: seq<u64>): Pages
    requires va + Offset(t, |entries|) <= TWO_64
  {
    if entries == [] then pages
    else
      var k := |entries| - 1;
      OffsetStep(t, k, 0);
      PagesWith(pages, va, t, entries[..k])[PathOf(va + Offset(t, k), LeafDepth(t)) := entries[k]]
  }

  /** From `a` to `b` the first `|entries|` pages of the region at `va` were mapped. */
  ghost predicate GotPages(a: Snapshot, b: Snapshot, va: u64, t: PageType, entries: seq<u64>, waste: iset<int>)
    requires va + Offset(t, |entries|) <= TWO_64
  {
    && b.pages == PagesWith(a.pages, va, t, entries)
    && (forall k :: 0 <= k < |entries| ==> OwnedEntryFrom(entries[k], t, a.free))
    && (forall k :: 0 <= k < |entries| ==> AtPosition(b.pages, va, t, k, entries[k]))
    && DistinctPositions(va, t, |entries|)
    && Kept(a, b, waste) && (Paged(a.free) ==> waste == iset{})
  }

  /** An entry whose page is owned and was free. */
  ghost predicate OwnedEntryFrom(e: u64, t: PageType, free: iset<int>) {
    Present(e) && Deallocate(e) && Span(AddressOf(e), t.Size()) <= free
  }

  /** Page `k` of the region is mapped by the entry `e`. */
  ghost predicate AtPosition(pages: Pages, va: u64, t: PageType, k: nat, e: u64) {
    && va + Offset(t, k) < TWO_64 && IsCanonical(va + Offset(t, k)) && t.Rest(va + Offset(t, k)) == 0
    && PathOf(va + Offset(t, k), LeafDepth(t)) in pages
    && pages[PathOf(va + Offset(t, k), LeafDepth(t))] == e
  }

  /** The pages of the region do not share positions, as they would more than 2^48 bytes apart. */
  ghost predicate DistinctPositions(va: u64, t: PageType, n: nat) {
    forall j: nat, k: nat :: j < k < n ==> PositionsDiffer(va, t, j, k)
  }

  ghost predicate PositionsDiffer(va: u64, t: PageType, j: nat, k: nat) {
    va + Offset(t, j) < TWO_64 && va + Offset(t, k) < TWO_64 ==>
      PathOf(va + Offset(t, j), LeafDepth(t)) != PathOf(va + Offset(t, k), LeafDepth(t))
  }

  /** What a mapped region changes and keeps. */
  lemma GotPagesMeaning(a: Snapshot, b: Snapshot, va: u64, t: PageType, entries: seq<u64>, waste: iset<int>)
    requires va + Offset(t, |entries|) <= TWO_64 && GotPages(a, b, va, t, entries, waste)
    ensures Kept(a, b, waste) && |b.mem| == |a.mem| && b.pages == PagesWith(a.pages, va, t, entries)
  {
  }

  lemma GotPagesStart(a: Snapshot, va: u64, t: PageType)
    ensures GotPages(a, a, va, t, [], iset{})
  {
  }

  lemma GotPagesStep(a: Snapshot, b: Snapshot, c: Snapshot, va: u64, t: PageType, entries: seq<u64>, e: u64,
                     w0: iset<int>, w1: iset<int>)
    requires va + Offset(t, |entries|) + t.Size() <= TWO_64
    requires forall p :: p in b.tables ==> b.tables[p] % 4096 == 0
    requires GotPages(a, b, va, t, entries, w0)
    requires GotPage(b, c, va + Offset(t, |entries|), t, e, w1)
    ensures va + Offset(t, |entries + [e]|) <= TWO_64
    ensures GotPages(a, c, va, t, entries + [e], w0 + w1)
  {
    hide Owned, ChangesOnly, PathOf, DistinctPositions, AtPosition, OwnedEntryFrom;
    OffsetStep(t, |entries|, 0);
    KeptCompose(a, b, c, w0, w1);
    assert (entries + [e])[..|entries|] == entries;
    NewPositionDiffers(b, c, va, t, entries, e, w1);
    OneMoreEntry(a, b, c, va, t, entries, e, w1);
  }

  /** Earlier pages stay mapped and owned next to the new one. */
  lemma OneMoreEntry(a: Snapshot, b: Snapshot, c: Snapshot, va: u64, t: PageType, entries: seq<u64>, e: u64, w: iset<int>)
    requires va + Offset(t, |entries|) + t.Size() <= TWO_64 && b.free <= a.free
    requires forall k :: 0 <= k < |entries| ==> AtPosition(b.pages, va, t, k, entries[k]) && OwnedEntryFrom(entries[k], t, a.free)
    requires GotPage(b, c, va + Offset(t, |entries|), t, e, w)
    ensures var more := entries + [e];
      forall k :: 0 <= k < |more| ==> AtPosition(c.pages, va, t, k, more[k]) && OwnedEntryFrom(more[k], t, a.free)
  {
    hide Owned, ChangesOnly, PathOf;
    var more := entries + [e];
    forall k | 0 <= k < |more| ensures AtPosition(c.pages, va, t, k, more[k]) && OwnedEntryFrom(more[k], t, a.free) {
      if k < |entries| {
        assert AtPosition(b.pages, va, t, k, entries[k]) && OwnedEntryFrom(entries[k], t, a.free);
      }
    }
  }

  /** A page that was just mapped took the position of no page mapped before. */
  lemma NewPositionDiffers(b: Snapshot, c: Snapshot, va: u64, t: PageType, entries: seq<u64>, e: u64, w: iset<int>)
    requires va + Offset(t, |entries|) + t.Size() <= TWO_64
    requires DistinctPositions(va, t, |entries|)
    requires forall k :: 0 <= k < |entries| ==> AtPosition(b.pages, va, t, k, entries[k])
    requires GotPage(b, c, va + Offset(t, |entries|), t, e, w)
    ensures DistinctPositions(va, t, |entries| + 1)
  {
    hide Owned, ChangesOnly, PathOf;
    OffsetStep(t, |entries|, 0);
    forall j: nat, k: nat | j < k < |entries| + 1 ensures PositionsDiffer(va, t, j, k) {
      if k == |entries| { assert AtPosition(b.pages, va, t, j, entries[j]); }
    }
  }

  // ---------------------------------------------------------------------------------------
  // Contents
  // ---------------------------------------------------------------------------------------

  /** The page at `page` holds the bytes `f(offset)`, `f(offset + 1)`, ... */
  ghost predicate Holds(mem: Memory, page: nat, size: nat, f: nat -> byte, offset: nat) {
    page + size <= 8 * |mem| && forall j: nat :: j < size ==> HoldsAt(mem, page, f, offset, j)
  }

  ghost predicate HoldsAt(mem: Memory, page: nat, f: nat -> byte, offset: nat, j: nat)
    requires page + j < 8 * |mem|
  {
    ByteAt(mem, page + j) == f(offset + j)
  }

  /** Mapping more pages does not touch the contents of an owned page. */
  lemma OwnedPageKeepsContents(a: Snapshot, b: Snapshot, root: u64, q: Path, waste: iset<int>, x: int)
    requires IsTree(a.mem, root, a.tables, a.pages) && Separate(a.tables, a.pages)
    requires Owned(a.tables, a.pages) !! a.free && Kept(a, b, waste)
    requires q in a.pages && Deallocate(a.pages[q]) && 2 <= Depth(q) <= 4
    requires InSpan(AddressOf(a.pages[q]), TypeAt(Depth(q)).Size(), x) && x < 8 * |a.mem| == 8 * |b.mem|
    ensures b.mem[x / 8] == a.mem[x / 8]
  {
    hide IsTree;
    var w := x / 8;
    AncestorsAreTables(a.mem, root, a.tables, a.pages, q, q);
    WordOfPageByte(AddressOf(a.pages[q]), TypeAt(Depth(q)).Size(), x);
    EverythingIsUnderRoot(q);
    assert OwnsByte(a.tables, a.pages, q, 8 * w);
    assert 8 * w in Owned(a.tables, a.pages);
    if b.mem[w] != a.mem[w] {
      var p, i: nat :| p in a.tables && i < 512 && w == Slot(a.tables[p], i);
      TableWordIsOwnByte(a.mem, root, a.tables, a.pages, p, i);
    }
  }

  lemma WordOfPageByte(page: nat, size: nat, x: nat)
    requires page % 4096 == 0 && InSpan(page, size, x)
    ensures InSpan(page, size, 8 * (x / 8))
  {
    var n, r := page / 4096, x - page;
    Divides(x, 8, 512 * n + r / 8, r % 8);
  }

  lemma TableWordIsOwnByte(mem: Memory, root: u64, tables: Tables, pages: Pages, p: Path, i: nat)
    requires IsTree(mem, root, tables, pages) && p in tables && i < 512
    ensures OwnsByte(tables, pages, p, 8 * Slot(tables[p], i))
  {
    assert TableOk(mem, tables, pages, p);
    var n := tables[p] / 4096;
    Divides(tables[p], 8, 512 * n, 0);
  }

  /** A store to an owned page changes no table and no other owned page. */
  lemma StoreKeepsTree(s: Snapshot, b: Snapshot, root: u64, q: Path, x: nat)
    requires IsTree(s.mem, root, s.tables, s.pages) && Separate(s.tables, s.pages)
    requires q in s.pages && Deallocate(s.pages[q]) && 2 <= Depth(q) <= 4
    requires InSpan(AddressOf(s.pages[q]), TypeAt(Depth(q)).Size(), x)
    requires b == s.(mem := b.mem) && |b.mem| == |s.mem| && forall w :: 0 <= w < |s.mem| && w != x / 8 ==> b.mem[w] == s.mem[w]
    ensures IsTree(b.mem, root, b.tables, b.pages)
    ensures OwnsByte(s.tables, s.pages, q, 8 * (x / 8))
  {
    AncestorsAreTables(s.mem, root, s.tables, s.pages, q, q);
    WordOfPageByte(AddressOf(s.pages[q]), TypeAt(Depth(q)).Size(), x);
    assert OwnsByte(s.tables, s.pages, q, 8 * (x / 8));
    forall p, i: nat | p in s.tables && i < 512 && Slot(s.tables[p], i) < |s.mem|
      ensures b.mem[Slot(s.tables[p], i)] == s.mem[Slot(s.tables[p], i)]
    {
      TableWordIsOwnByte(s.mem, root, s.tables, s.pages, p, i);
    }
    TreeIgnoresOtherWords(s.mem, b.mem, root, s.tables, s.pages);
  }

  lemma HeldPageStaysHeld(a: Snapshot, b: Snapshot, root: u64, q: Path, waste: iset<int>, f: nat -> byte, offset: nat)
    requires IsTree(a.mem, root, a.tables, a.pages) && Separate(a.tables, a.pages)
    requires Owned(a.tables, a.pages) !! a.free && Kept(a, b, waste)
    requires q in a.pages && Deallocate(a.pages[q]) && 2 <= Depth(q) <= 4
    requires Holds(a.mem, AddressOf(a.pages[q]), TypeAt(Depth(q)).Size(), f, offset) && |b.mem| == |a.mem|
    ensures Holds(b.mem, AddressOf(a.pages[q]), TypeAt(Depth(q)).Size(), f, offset)
  {
    hide IsTree, Separate, Owned, Kept;
    var page := AddressOf(a.pages[q]);
    forall j: nat | j < TypeAt(Depth(q)).Size() ensures HoldsAt(b.mem, page, f, offset, j) {
      assert HoldsAt(a.mem, page, f, offset, j);
      OwnedPageKeepsContents(a, b, root, q, waste, page + j);
    }
  }

  /** The bytes a new region gets: those of `init`, or zeros. */
  function ContentOf(init: Option<nat -> byte>): nat -> byte {
    if init.Some? then init.value else _ => 0
  }

  lemma ZeroHasZeroBytes(k: nat)
    ensures ByteOf(0, k) == 0
  {
  }

  lemma ZeroedPageHoldsZeros(before: Memory, mem: Memory, page: u64, size: nat, offset: nat)
    requires page % 4096 == 0 && size % 4096 == 0 && page + size <= 8 * |before|
    requires ZeroedPage(before, mem, page, size)
    ensures Holds(mem, page, size, ContentOf(None), offset)
  {
    var n, k := page / 4096, size / 4096;
    Divides(page, 8, 512 * n, 0);
    Divides(size, 8, 512 * k, 0);
    forall j: nat | j < size ensures HoldsAt(mem, page, ContentOf(None), offset, j) {
      ZeroHasZeroBytes((page + j) % 8);
    }
  }

  lemma ByteOfFrameWord(frame: u64, i: nat, k: nat)
    requires frame % 4096 == 0 && k < 8
    ensures (frame + (i * 8 + k)) / 8 == frame / 8 + i && (frame + (i * 8 + k)) % 8 == k
  {
    Divides(frame, 8, 512 * (frame / 4096), 0);
    Divides(frame + (i * 8 + k), 8, 512 * (frame / 4096) + i, k);
  }

  /** A page that holds zero bytes consists of zero words. */
  lemma ZeroPageHasZeroWords(mem: Memory, page: u64, size: nat, offset: nat, i: nat)
    requires page % 4096 == 0 && Holds(mem, page, size, _ => 0, offset) && i * 8 + 8 <= size
    ensures page / 8 + i < |mem| && mem[page / 8 + i] == 0
  {
    ByteOfFrameWord(page, i, 0);
    var w := mem[page / 8 + i];
    forall k: nat | k < 8 ensures ByteOf(w, k) == 0 {
      assert HoldsAt(mem, page, _ => 0, offset, i * 8 + k);
      ByteOfFrameWord(page, i, k);
    }
    ZeroBytesMakeZero(w);
  }

  /** Page `k` of a region holds its part of `f`, and its entry grants the given rights. */
  ghost predicate PageReady(mem: Memory, t: PageType, e: u64, k: nat, f: nat -> byte, write: bool, exec: bool, user: bool) {
    Grants(e, write, exec, user) && Holds(mem, AddressOf(e), t.Size(), f, Offset(t, k))
  }

  ghost predicate RegionReady(mem: Memory, t: PageType, entries: seq<u64>, f: nat -> byte, write: bool, exec: bool, user: bool) {
    forall k :: 0 <= k < |entries| ==> PageReady(mem, t, entries[k], k, f, write, exec, user)
  }

  lemma RegionReadyStart(mem: Memory, t: PageType, f: nat -> byte, write: bool, exec: bool, user: bool)
    ensures RegionReady(mem, t, [], f, write, exec, user)
  {
  }

  lemma GotPageIsKept(a: Snapshot, b: Snapshot, va: u64, t: PageType, e: u64, waste: iset<int>)
    requires GotPage(a, b, va, t, e, waste)
    ensures Kept(a, b, waste) && |b.mem| == |a.mem|
  {
  }

  /** Mapping one more page leaves the earlier ones ready. */
  lemma RegionStaysReady(a: Snapshot, b: Snapshot, c: Snapshot, root: u64, va: u64, t: PageType, entries: seq<u64>, e: u64,
                         w0: iset<int>, w1: iset<int>, f: nat -> byte, write: bool, exec: bool, user: bool)
    requires IsTree(b.mem, root, b.tables, b.pages) && Separate(b.tables, b.pages)
    requires Owned(b.tables, b.pages) !! b.free
    requires va + Offset(t, |entries|) <= TWO_64
    requires GotPages(a, b, va, t, entries, w0) && Kept(b, c, w1) && |c.mem| == |b.mem|
    requires RegionReady(b.mem, t, entries, f, write, exec, user)
    requires PageReady(c.mem, t, e, |entries|, f, write, exec, user)
    ensures RegionReady(c.mem, t, entries + [e], f, write, exec, user)
  {
    hide IsTree, Separate, Owned, Kept, Holds, Offset, PathOf;
    forall k | 0 <= k < |entries| ensures PageReady(c.mem, t, entries[k], k, f, write, exec, user) {
      assert AtPosition(b.pages, va, t, k, entries[k]) && OwnedEntryFrom(entries[k], t, a.free);
      assert PageReady(b.mem, t, entries[k], k, f, write, exec, user);
      HeldPageStaysHeld(b, c, root, PathOf(va + Offset(t, k), LeafDepth(t)), w1, f, Offset(t, k));
    }
  }

  /** A failed page after the first ones: the region fails, keeps what was mapped and accounts for every byte. */
  lemma FailedPageEndsRegion(a: Snapshot, mid: Snapshot, b: Snapshot, va: u64, t: PageType, size: u64, entries: seq<u64>,
                             waste: iset<int>, last: iset<int>)
    requires !BadRegion(va, t, size) && Offset(t, |entries|) < size && va + Offset(t, |entries|) + t.Size() <= TWO_64
    requires GotPages(a, mid, va, t, entries, waste) && PageRefused(mid, b, va + Offset(t, |entries|), t, last)
    ensures RegionFails(a, b, va, t, size, entries, waste + last)
  {
    hide GotPages, PageRefused;
    assert RegionRefused(a, mid, b, va, t, size, entries, waste, last);
  }

  /** A failing region keeps the pages that it has mapped. */
  lemma FailedRegionIsKept(a: Snapshot, b: Snapshot, va: u64, t: PageType, size: u64, entries: seq<u64>, waste: iset<int>)
    requires RegionFails(a, b, va, t, size, entries, waste)
    requires forall p :: p in b.tables ==> b.tables[p] % 4096 == 0
    ensures va + Offset(t, |entries|) <= TWO_64
    ensures Kept(a, b, waste) && b.pages == PagesWith(a.pages, va, t, entries)
  {
    hide Owned, ChangesOnly, PathOf;
    var mid: Snapshot, first: iset<int>, last: iset<int> :|
      RegionRefused(a, mid, b, va, t, size, entries, first, last) && waste == first + last;
    if BadRegion(va, t, size) {
      NothingKept(a);
      assert waste == iset{};
    } else {
      KeptCompose(a, mid, b, first, last);
    }
  }
}
