/** Guest-physical memory over nested page tables (kernel/src/vm/vkernel.rs, kernel/src/vm/svm/npt.rs):
    a bump allocator whose pages are mapped in the nested tables, and the guest's own page tables
    on top of it. */
module GuestMemories {
  import opened MachineInts
  import opened RangeSets
  import opened PhysicalMemories
  import opened PageTrees
  import opened PageMaps
  import opened PageSnapshots
  import opened PageRegions
  import opened PageTables
  import opened PageRuns

  // ---------------------------------------------------------------------------------------
  // Guest frames and their host frames
  // ---------------------------------------------------------------------------------------

  /** How many guest pages have an address below 2^48, where nested addresses start to repeat. */
  const MAX_GUEST_PAGES: nat := 0x10_0000_0000

  /** Position of guest page `k` in the nested tables. */
  function Position(k: nat): Path
    requires k <= MAX_GUEST_PAGES
  {
    PathOf(4096 * k, 4)
  }

  /** Guest page `k` has a host frame that the nested tables own. */
  ghost predicate Backed(pages: Pages, k: nat) {
    k < MAX_GUEST_PAGES && Position(k) in pages && Deallocate(pages[Position(k)])
  }

  ghost predicate AllBacked(pages: Pages, n: nat) {
    forall k :: 0 <= k < n ==> Backed(pages, k)
  }

  /** The nested tables map nothing but the first `n` guest pages. */
  ghost predicate OnlyBacked(pages: Pages, n: nat) {
    forall p :: p in pages ==> IsPositionBelow(p, n)
  }

  ghost predicate IsPositionBelow(p: Path, n: nat) {
    exists k: nat :: k < n && k < MAX_GUEST_PAGES && p == Position(k)
  }

  ghost function HostFrame(pages: Pages, k: nat): u64
    requires Backed(pages, k)
  {
    AddressOf(pages[Position(k)])
  }

  /** Where guest byte `x` is stored. */
  ghost function HostAddress(pages: Pages, x: nat): nat
    requires Backed(pages, x / 4096)
  {
    HostFrame(pages, x / 4096) + x % 4096
  }

  ghost predicate HostSound(h: Snapshot, root: u64) {
    Sound(h, root) && OwnedPagesFit(h.pages, 8 * |h.mem|)
  }

  ghost function GuestByte(h: Snapshot, root: u64, x: nat): byte
    requires HostSound(h, root) && Backed(h.pages, x / 4096)
  {
    FrameFits(h, root, x / 4096);
    ByteAt(h.mem, HostAddress(h.pages, x))
  }

  /** Where word `w` of the guest is stored. */
  ghost function HostWord(pages: Pages, w: nat): nat
    requires Backed(pages, w / 512)
  {
    HostFrame(pages, w / 512) / 8 + w % 512
  }

  const GUEST_WORDS: nat := 512 * MAX_GUEST_PAGES
  const GUEST_BYTES: nat := 4096 * MAX_GUEST_PAGES

  ghost function GuestWord(h: Snapshot, root: u64, w: nat): u64
    requires HostSound(h, root) && Backed(h.pages, w / 512)
  {
    HostWordFits(h, root, w);
    h.mem[HostWord(h.pages, w)]
  }

  /** The guest's memory when its first `n` pages are allocated. The rest is taken to be zero, as it will be
      when it is allocated. */
  ghost function GuestWords(h: Snapshot, root: u64, n: nat): (r: Memory)
    requires HostSound(h, root) && AllBacked(h.pages, n)
    ensures |r| == GUEST_WORDS
  {
    seq(GUEST_WORDS, w requires 0 <= w < GUEST_WORDS => if w < 512 * n then GuestWord(h, root, w) else 0)
  }

  /** The part of guest memory that is not allocated yet. */
  ghost function GuestFree(address: nat): iset<int> {
    Span(address, GUEST_BYTES - address)
  }

  lemma HostWordFits(h: Snapshot, root: u64, w: nat)
    requires HostSound(h, root) && Backed(h.pages, w / 512)
    ensures HostWord(h.pages, w) < |h.mem|
  {
    FrameFits(h, root, w / 512);
  }

  lemma PositionIsDeep(k: nat)
    requires k <= MAX_GUEST_PAGES
    ensures Depth(Position(k)) == 4
  {
  }

  lemma FrameFits(h: Snapshot, root: u64, k: nat)
    requires HostSound(h, root) && Backed(h.pages, k)
    ensures HostFrame(h.pages, k) % 4096 == 0 && HostFrame(h.pages, k) + 4096 <= 8 * |h.mem|
  {
    PositionIsDeep(k);
  }

  lemma GuestPositionsDiffer(j: nat, k: nat)
    requires j < MAX_GUEST_PAGES && k < MAX_GUEST_PAGES && j != k
    ensures Position(j) != Position(k)
  {
    SamePositionSamePage(4096 * j, 4096 * k, 4);
    PageNumberOfPage(j);
    PageNumberOfPage(k);
  }

  lemma PageNumberOfPage(k: nat)
    requires k < MAX_GUEST_PAGES
    ensures PageNumber(4096 * k, 4) == k
  {
  }

  /** Different guest bytes are stored at different host addresses. */
  lemma HostAddressesDiffer(h: Snapshot, root: u64, x: nat, y: nat)
    requires HostSound(h, root) && Backed(h.pages, x / 4096) && Backed(h.pages, y / 4096) && x != y
    ensures HostAddress(h.pages, x) != HostAddress(h.pages, y)
  {
    hide IsTree;
    var j, k := x / 4096, y / 4096;
    if j != k && HostAddress(h.pages, x) == HostAddress(h.pages, y) {
      GuestPositionsDiffer(j, k);
      FrameIsOwned(h, root, j, HostAddress(h.pages, x));
      FrameIsOwned(h, root, k, HostAddress(h.pages, y));
    }
  }

  lemma FrameIsOwned(h: Snapshot, root: u64, k: nat, x: int)
    requires HostSound(h, root) && Backed(h.pages, k) && HostFrame(h.pages, k) <= x < HostFrame(h.pages, k) + 4096
    ensures OwnsByte(h.tables, h.pages, Position(k), x) && x in Owned(h.tables, h.pages)
  {
    PositionIsDeep(k);
    AncestorsAreTables(h.mem, root, h.tables, h.pages, Position(k), Position(k));
    EverythingIsUnderRoot(Position(k));
  }

  // ---------------------------------------------------------------------------------------
  // The allocator
  // ---------------------------------------------------------------------------------------

  /** At 2^48 nested addresses repeat: the position of page 0 is in use, so mapping was refused. */
  lemma NeverPastLastPage(a: Snapshot, b: Snapshot, root: u64, n: nat, entries: seq<u64>, waste: iset<int>)
    requires HostSound(a, root) && AllBacked(a.pages, n) && n <= MAX_GUEST_PAGES
    requires 4096 * n + Offset(Page4K, |entries|) <= TWO_64
    requires GotPages(a, b, 4096 * n, Page4K, entries, waste)
    ensures n + |entries| <= MAX_GUEST_PAGES
  {
    hide IsTree, Separate, Owned, PathOf;
    if n + |entries| > MAX_GUEST_PAGES {
      var i := MAX_GUEST_PAGES - n;
      assert n == 0 ==> PositionsDiffer(0, Page4K, 0, i);
      if n > 0 {
        assert Backed(a.pages, 0);
        FrameIsOwned(a, root, 0, HostFrame(a.pages, 0));
        assert InSpan(HostFrame(a.pages, 0), 4096, HostFrame(a.pages, 0));
      }
      assert AtPosition(b.pages, 4096 * n, Page4K, i, entries[i]) && OwnedEntryFrom(entries[i], Page4K, a.free);
      SamePositionSamePage(0, 4096 * MAX_GUEST_PAGES, 4);
    }
  }

  /** The pages of a region that was mapped behind the last backed page. */
  lemma MoreAreBacked(a: Snapshot, b: Snapshot, root: u64, n: nat, entries: seq<u64>, waste: iset<int>)
    requires HostSound(a, root) && HostSound(b, root) && AllBacked(a.pages, n) && n <= MAX_GUEST_PAGES
    requires 4096 * n + Offset(Page4K, |entries|) <= TWO_64
    requires GotPages(a, b, 4096 * n, Page4K, entries, waste)
    ensures n + |entries| <= MAX_GUEST_PAGES && AllBacked(b.pages, n + |entries|)
    ensures forall i :: 0 <= i < |entries| ==> HostFrame(b.pages, n + i) == AddressOf(entries[i])
  {
    hide IsTree, Separate, Owned, PathOf;
    NeverPastLastPage(a, b, root, n, entries, waste);
    forall k | 0 <= k < n + |entries|
      ensures Backed(b.pages, k) && (k >= n ==> HostFrame(b.pages, k) == AddressOf(entries[k - n]))
    {
      if k < n {
        assert Backed(a.pages, k);
      } else {
        var i := k - n;
        assert AtPosition(b.pages, 4096 * n, Page4K, i, entries[i]) && OwnedEntryFrom(entries[i], Page4K, a.free);
        assert 4096 * n + Offset(Page4K, i) == 4096 * k;
      }
    }
  }

  lemma PageIsBacked(pages: Pages, n: nat, x: nat)
    requires AllBacked(pages, n) && x < 4096 * n
    ensures Backed(pages, x / 4096)
  {
  }

  lemma WrittenPageIsNoTable(h: Snapshot, b: Snapshot, root: u64, w: nat)
    requires HostSound(h, root) && Backed(h.pages, w / 512) && |b.mem| == |h.mem| && b == h.(mem := b.mem)
    requires forall v :: 0 <= v < |h.mem| && v != HostWord(h.pages, w) ==> b.mem[v] == h.mem[v]
    ensures HostSound(b, root)
  {
    hide Owned;
    forall p, i: nat | p in h.tables && i < 512 && Slot(h.tables[p], i) < |h.mem|
      ensures b.mem[Slot(h.tables[p], i)] == h.mem[Slot(h.tables[p], i)]
    {
      var f := HostFrame(h.pages, w / 512);
      FrameFits(h, root, w / 512);
      Divides(f, 8, 512 * (f / 4096), 0);
      FrameIsOwned(h, root, w / 512, 8 * HostWord(h.pages, w));
      TableWordIsOwnByte(h.mem, root, h.tables, h.pages, p, i);
      AncestorsAreTables(h.mem, root, h.tables, h.pages, p, p);
    }
    TreeIgnoresOtherWords(h.mem, b.mem, root, h.tables, h.pages);
  }

  /** Different guest words are stored in different host words. */
  lemma HostWordsDiffer(h: Snapshot, root: u64, v: nat, w: nat)
    requires HostSound(h, root) && Backed(h.pages, v / 512) && Backed(h.pages, w / 512) && v != w
    ensures HostWord(h.pages, v) != HostWord(h.pages, w)
  {
    hide HostSound, Backed, HostFrame;
    FrameFits(h, root, v / 512);
    FrameFits(h, root, w / 512);
    if v / 512 != w / 512 {
      StartsDiffer(h, root, v / 512, w / 512);
      WordsOfFramesDiffer(HostFrame(h.pages, v / 512), v % 512, HostFrame(h.pages, w / 512), w % 512);
    }
  }

  /** A word written through the nested tables changes that word of the guest and nothing else. */
  lemma WordWriteIsLocal(h: Snapshot, b: Snapshot, root: u64, n: nat, w: nat, v: u64)
    requires HostSound(h, root) && AllBacked(h.pages, n) && n <= MAX_GUEST_PAGES && w < 512 * n && Backed(h.pages, w / 512)
    requires HostWord(h.pages, w) < |h.mem| && b == h.(mem := h.mem[HostWord(h.pages, w) := v])
    ensures HostSound(b, root) && GuestWords(b, root, n) == GuestWords(h, root, n)[w := v]
  {
    hide HostSound, AllBacked, Backed, HostWord;
    WrittenPageIsNoTable(h, b, root, w);
    var before, after := GuestWords(h, root, n), GuestWords(b, root, n);
    forall x: nat | x < GUEST_WORDS ensures after[x] == before[w := v][x] {
      if x < 512 * n {
        WordIsBacked(h.pages, n, x);
        HostWordFits(h, root, x);
        if x != w { HostWordsDiffer(h, root, x, w); }
      }
    }
  }

  lemma WordIsBacked(pages: Pages, n: nat, w: nat)
    requires AllBacked(pages, n) && w < 512 * n
    ensures Backed(pages, w / 512)
  {
  }

  /** The bytes of the guest's memory are those behind the nested tables. */
  lemma BytesOfGuestWords(h: Snapshot, root: u64, n: nat, x: nat)
    requires HostSound(h, root) && AllBacked(h.pages, n) && n <= MAX_GUEST_PAGES && x < 4096 * n
    ensures Backed(h.pages, x / 4096) && ByteAt(GuestWords(h, root, n), x) == GuestByte(h, root, x)
    ensures Backed(h.pages, x / 8 / 512) && HostWord(h.pages, x / 8) == HostAddress(h.pages, x) / 8
  {
    hide HostSound;
    PageIsBacked(h.pages, n, x);
    WordIsBacked(h.pages, n, x / 8);
    FrameFits(h, root, x / 4096);
    WordOfGuestByte(HostFrame(h.pages, x / 4096), x);
    Divides(x / 8, 512, x / 4096, x % 4096 / 8);
  }

  /** A byte keeps its place in its word. */
  lemma WordOfGuestByte(frame: u64, x: nat)
    requires frame % 4096 == 0
    ensures (frame + x % 4096) / 8 == frame / 8 + x % 4096 / 8 && (frame + x % 4096) % 8 == x % 8
    ensures x / 8 == 512 * (x / 4096) + x % 4096 / 8
  {
    Divides(frame, 8, 512 * (frame / 4096), 0);
    Divides(frame + x % 4096, 8, 512 * (frame / 4096) + x % 4096 / 8, x % 4096 % 8);
    Divides(x, 8, 512 * (x / 4096) + x % 4096 / 8, x % 4096 % 8);
  }

  lemma StartsDiffer(h: Snapshot, root: u64, j: nat, k: nat)
    requires HostSound(h, root) && Backed(h.pages, j) && Backed(h.pages, k) && j != k
    ensures HostFrame(h.pages, j) != HostFrame(h.pages, k)
  {
    hide HostSound, Backed, HostFrame;
    assert 4096 * j / 4096 == j && 4096 * k / 4096 == k;
    HostAddressesDiffer(h, root, 4096 * j, 4096 * k);
  }

  lemma WordsOfFramesDiffer(f: u64, i: nat, g: u64, j: nat)
    requires f % 4096 == 0 && g % 4096 == 0 && f != g && i < 512 && j < 512
    ensures f / 8 + i != g / 8 + j
  {
    Divides(f, 8, 512 * (f / 4096), 0);
    Divides(g, 8, 512 * (g / 4096), 0);
  }

  /** The nested walk finds the frame of a guest page. */
  lemma NestedWalkFinds(h: Snapshot, root: u64, x: u64)
    requires HostSound(h, root) && Backed(h.pages, x / 4096)
    ensures Lookup(h.pages, x).Some? && Translation(h.pages, x) == Some(HostAddress(h.pages, x))
  {
    hide IsTree, Separate, Owned, PathOf;
    SamePositionSamePage(x, 4096 * (x / 4096), 4);
    LookupFinds(h.mem, root, h.tables, h.pages, x, 4);
  }

  // ---------------------------------------------------------------------------------------
  // `GuestMemory`
  // ---------------------------------------------------------------------------------------

  /** What the page tables need from physical memory: a block leaves free memory and nothing is lost. */
  lemma GuestBlockIsAllocated(address: nat, size: nat)
    requires address % 4096 == 0 && size % 4096 == 0 && address + size <= GUEST_BYTES
    ensures Allocated(GuestFree(address), GuestFree(address + size), Span(address, size), iset{})
  {
    forall x: int ensures x / 4096 * 4096 in GuestFree(address + size) <==> x in GuestFree(address + size) { }
  }

  /** An allocation changes no word of the guest: the new pages are zero. */
  lemma AllocationKeepsWords(a: Snapshot, b: Snapshot, root: u64, n: nat, entries: seq<u64>, waste: iset<int>)
    requires HostSound(a, root) && HostSound(b, root) && AllBacked(a.pages, n) && n <= MAX_GUEST_PAGES
    requires 4096 * n + Offset(Page4K, |entries|) <= TWO_64
    requires GotPages(a, b, 4096 * n, Page4K, entries, waste)
    requires RegionReady(b.mem, Page4K, entries, _ => 0, true, true, true)
    ensures AllBacked(b.pages, n + |entries|) && n + |entries| <= MAX_GUEST_PAGES
    ensures GuestWords(b, root, n + |entries|) == GuestWords(a, root, n)
  {
    hide HostSound, GotPages, RegionReady, AllBacked, GuestWord;
    MoreAreBacked(a, b, root, n, entries, waste);
    forall w: nat | w < GUEST_WORDS ensures GuestWords(b, root, n + |entries|)[w] == GuestWords(a, root, n)[w] {
      if w < 512 * n {
        WordIsBacked(a.pages, n, w);
        WordIsBacked(b.pages, n + |entries|, w);
        OldWordStays(a, b, root, n, entries, waste, w);
      } else if w < 512 * (n + |entries|) {
        WordIsBacked(b.pages, n + |entries|, w);
        FreshWordIsZero(a, b, root, n, entries, waste, w);
      }
    }
  }

  lemma OldWordStays(a: Snapshot, b: Snapshot, root: u64, n: nat, entries: seq<u64>, waste: iset<int>, w: nat)
    requires HostSound(a, root) && HostSound(b, root) && Backed(a.pages, w / 512) && n <= MAX_GUEST_PAGES
    requires 4096 * n + Offset(Page4K, |entries|) <= TWO_64
    requires GotPages(a, b, 4096 * n, Page4K, entries, waste)
    ensures Backed(b.pages, w / 512) && GuestWord(b, root, w) == GuestWord(a, root, w)
  {
    hide IsTree, Separate, Owned, PathOf;
    FrameFits(a, root, w / 512);
    PositionIsDeep(w / 512);
    HostWordFits(a, root, w);
    var x := 8 * HostWord(a.pages, w);
    var f := HostFrame(a.pages, w / 512);
    Divides(f, 8, 512 * (f / 4096), 0);
    OwnedPageKeepsContents(a, b, root, Position(w / 512), waste, x);
  }

  lemma FreshWordIsZero(a: Snapshot, b: Snapshot, root: u64, n: nat, entries: seq<u64>, waste: iset<int>, w: nat)
    requires HostSound(a, root) && HostSound(b, root) && AllBacked(a.pages, n) && n <= MAX_GUEST_PAGES
    requires 4096 * n + Offset(Page4K, |entries|) <= TWO_64
    requires GotPages(a, b, 4096 * n, Page4K, entries, waste)
    requires RegionReady(b.mem, Page4K, entries, _ => 0, true, true, true)
    requires 512 * n <= w < 512 * (n + |entries|) && Backed(b.pages, w / 512)
    ensures GuestWord(b, root, w) == 0
  {
    hide IsTree, Separate, Owned, PathOf, GotPages;
    MoreAreBacked(a, b, root, n, entries, waste);
    var i := w / 512 - n;
    assert PageReady(b.mem, Page4K, entries[i], i, _ => 0, true, true, true);
    assert HostFrame(b.pages, n + i) == AddressOf(entries[i]);
    HostWordFits(b, root, w);
    ZeroPageHasZeroWords(b.mem, AddressOf(entries[i]), 4096, Offset(Page4K, i), w % 512);
  }

  /** The nested tables got the next pages and nothing else. */
  lemma OnlyMoreAreBacked(a: Snapshot, b: Snapshot, n: nat, entries: seq<u64>)
    requires OnlyBacked(a.pages, n) && n + |entries| <= MAX_GUEST_PAGES
    requires 4096 * n + Offset(Page4K, |entries|) <= TWO_64
    requires b.pages == PagesWith(a.pages, 4096 * n, Page4K, entries)
    ensures OnlyBacked(b.pages, n + |entries|)
  {
    hide PathOf;
    forall p | p in b.pages ensures IsPositionBelow(p, n + |entries|) {
      MembersOfRegion(a.pages, 4096 * n, Page4K, entries, p);
      if p in a.pages {
        var k: nat :| k < n && k < MAX_GUEST_PAGES && p == Position(k);
      } else {
        var k: nat :| k < |entries| && IsPositionOf(4096 * n, Page4K, k, p);
        assert 4096 * n + Offset(Page4K, k) == 4096 * (n + k) && p == Position(n + k);
      }
    }
  }

  /** The next guest page can always be mapped, up to 2^48. */
  lemma NextPageIsAllowed(tables: Tables, pages: Pages, n: nat)
    requires OnlyBacked(pages, n) && n < MAX_GUEST_PAGES && forall p <- tables :: Depth(p) <= 3
    ensures MapAllowed(tables, pages, 4096 * n, Page4K, true, false)
  {
    hide PathOf;
    CanonicalMeaning(4096 * n);
    forall k: nat | k <= 4 ensures PathOf(4096 * n, k) !in pages {
      if PathOf(4096 * n, k) in pages {
        var j: nat :| j < n && j < MAX_GUEST_PAGES && PathOf(4096 * n, k) == Position(j);
        PositionIsDeep(j);
        GuestPositionsDiffer(j, n);
      }
    }
  }

  /** So it is refused only when there is no host memory left. */
  lemma PageFailsForMemory(a: Snapshot, b: Snapshot, root: u64, n: nat, entries: seq<u64>, waste: iset<int>)
    requires OnlyBacked(a.pages, n) && n < MAX_GUEST_PAGES && IsTree(b.mem, root, b.tables, b.pages)
    requires RegionFails(a, b, 4096 * n, Page4K, 4096, entries, waste)
    ensures Starved(b.free, Page4K, 8 * |b.mem|)
  {
    hide IsTree, OnlyBacked, MapAllowed, Starved, Owned, ChangesOnly;
    var mid: Snapshot, first: iset<int>, last: iset<int> :|
      RegionRefused(a, mid, b, 4096 * n, Page4K, 4096, entries, first, last) && waste == first + last;
    assert entries == [];
    forall p <- mid.tables ensures Depth(p) <= 3 {
      assert p in b.tables;
      TablesAreShallow(b.mem, root, b.tables, b.pages, p);
    }
    NextPageIsAllowed(mid.tables, mid.pages, n);
  }

  lemma FreshWordsAreZero(h: Snapshot, root: u64, n: nat)
    requires HostSound(h, root) && AllBacked(h.pages, n)
    ensures forall w :: 512 * n <= w < GUEST_WORDS ==> GuestWords(h, root, n)[w] == 0
  {
  }

  /** The host frame of a guest page that is zero is zero. */
  lemma ZeroPageHasZeroFrame(h: Snapshot, root: u64, n: nat, k: nat)
    requires HostSound(h, root) && AllBacked(h.pages, n) && n <= MAX_GUEST_PAGES && k < n
    requires forall w :: 512 * k <= w < 512 * k + 512 ==> GuestWords(h, root, n)[w] == 0
    ensures Backed(h.pages, k)
    ensures forall i :: HostFrame(h.pages, k) / 8 <= i < HostFrame(h.pages, k) / 8 + 512 ==> i < |h.mem| && h.mem[i] == 0
  {
    hide HostSound;
    FrameFits(h, root, k);
    var f := HostFrame(h.pages, k) / 8;
    forall i | f <= i < f + 512 ensures i < |h.mem| && h.mem[i] == 0 {
      var w := 512 * k + (i - f);
      Divides(w, 512, k, i - f);
      WordIsBacked(h.pages, n, w);
      HostWordFits(h, root, w);
      assert GuestWords(h, root, n)[w] == GuestWord(h, root, w);
    }
  }

  /** The host keeps its account: each byte stays free, owned by the nested tables or lost, and none is lost when
      free memory consists of whole pages. */
  ghost predicate AccountKept(a: Snapshot, b: Snapshot) {
    Total(b) == Total(a) && a.lost <= b.lost && (Paged(a.free) ==> Paged(b.free) && b.lost == a.lost)
  }

  lemma AccountComposes(a: Snapshot, b: Snapshot, c: Snapshot)
    requires AccountKept(a, b) && AccountKept(b, c)
    ensures AccountKept(a, c)
  {
  }

  lemma StoresKeepAccount(a: Snapshot, b: Snapshot)
    requires b == a.(mem := b.mem)
    ensures AccountKept(a, b)
  {
  }

  lemma RegionKeepsAccount(a: Snapshot, b: Snapshot, va: u64, entries: seq<u64>, waste: iset<int>)
    requires va + Offset(Page4K, |entries|) <= TWO_64 && GotPages(a, b, va, Page4K, entries, waste)
    ensures AccountKept(a, b)
  {
    hide Owned;
  }

  lemma RegionIsAllocated(a: Snapshot, b: Snapshot, root: u64, n: nat, entries: seq<u64>, waste: iset<int>)
    requires HostSound(a, root) && HostSound(b, root) && AllBacked(a.pages, n) && OnlyBacked(a.pages, n) && n <= MAX_GUEST_PAGES
    requires 4096 * n + Offset(Page4K, |entries|) <= TWO_64
    requires GotPages(a, b, 4096 * n, Page4K, entries, waste)
    requires RegionReady(b.mem, Page4K, entries, _ => 0, true, true, true)
    ensures n + |entries| <= MAX_GUEST_PAGES && AllBacked(b.pages, n + |entries|) && OnlyBacked(b.pages, n + |entries|)
    ensures GuestWords(b, root, n + |entries|) == GuestWords(a, root, n) && AccountKept(a, b)
  {
    hide HostSound, GotPages, RegionReady, AllBacked, OnlyBacked, GuestWords, AccountKept;
    AllocationKeepsWords(a, b, root, n, entries, waste);
    GotPagesMeaning(a, b, 4096 * n, Page4K, entries, waste);
    RegionKeepsAccount(a, b, 4096 * n, entries, waste);
    OnlyMoreAreBacked(a, b, n, entries);
  }

  class GuestMemory {
    const npt: PageTable

    /** Guest-physical address of the next allocation. */
    var address: u64

    ghost predicate Valid(host: PhysicalMemory)
      reads this, npt, host, host.words, host.free, host.free.ranges
    {
      && npt.Valid(host)
      && address % 4096 == 0 && address <= GUEST_BYTES
      && AllBacked(npt.pages, address / 4096) && OnlyBacked(npt.pages, address / 4096)
    }

    /** The guest's memory. */
    ghost function Words(host: PhysicalMemory): Memory
      requires Valid(host)
      reads this, npt, host, host.words, host.free, host.free.ranges
    {
      GuestWords(npt.State(host), npt.table, address / 4096)
    }

    constructor (npt: PageTable)
      ensures this.npt == npt && address == 0
    {
      this.npt, address := npt, 0;
    }

    /** `alloc_phys`: a fresh, zeroed region behind all earlier ones. `None` for more than 4 KB
        alignment; a failing nested mapping is a panic. */
    method AllocPhys(host: PhysicalMemory, size: u64, align: u64) returns (r: Attempt<u64>)
      requires Valid(host)
      modifies this, npt, host, host.words, host.free, host.free.ranges
      ensures r.Refused? <==> align > 4096
      ensures r.Refused? ==> Valid(host) && address == old(address) && npt.State(host) == old(npt.State(host))
      ensures r.Done? ==>
        && Valid(host) && r.value == old(address) && address == old(address) + size && size % 4096 == 0
        && Words(host) == old(Words(host)) && AccountKept(old(npt.State(host)), npt.State(host))
      ensures r.Panicked? ==> address == WrappingAdd(old(address), size)
      ensures r.Panicked? ==>
        || host.free.used == CAPACITY
        || (npt.Valid(host) && exists entries: seq<u64>, waste: iset<int> ::
              RegionFails(old(npt.State(host)), npt.State(host), old(address), Page4K, size, entries, waste)
              && (0 < size && size % 4096 == 0 && old(address) + size <= TWO_64 ==>
                    PageStops(old(npt.State(host)), npt.State(host), old(address), Page4K, size, entries, waste)))
    {
      hide IsTree, Separate, Owned, OwnedPagesFit, WellFormed, GotPages, RegionReady, AllBacked, OnlyBacked, Kept, GuestWords, RegionFails, PageStops,
           BadRegion, PagesWith, Starved, AccountKept, WrappingAdd;
      if align > 4096 { return Refused; }
      var start := address;
      address := WrappingAdd(address, size);
      ghost var before := npt.State(host);
      var mapped;
      ghost var entries, waste;
      mapped, entries, waste := npt.Map(host, start, Page4K, size, true, true, true);
      if !mapped.Done? { return Panicked; }
      ghost var after := npt.State(host);
      RegionIsAllocated(before, after, npt.table, start / 4096, entries, waste);
      return Done(start);
    }

    /** `alloc_phys_zeroed` for one page. Writing the zeros changes nothing: the nested tables gave a zeroed page. */
    method AllocPageZeroed(host: PhysicalMemory) returns (r: Attempt<u64>)
      requires Valid(host)
      modifies this, npt, host, host.words, host.free, host.free.ranges
      ensures !r.Refused?
      ensures r.Done? ==>
        && Valid(host) && r.value == old(address) && address == old(address) + 4096 && Words(host) == old(Words(host))
        && forall w :: old(address) / 8 <= w < old(address) / 8 + 512 ==> Words(host)[w] == 0
      ensures r.Done? ==> AccountKept(old(npt.State(host)), npt.State(host))
      ensures r.Panicked? ==> address == old(address) + 4096 && (host.Exhausted() || address > GUEST_BYTES)
    {
      hide IsTree, Separate, Owned, OwnedPagesFit, WellFormed, AllBacked, OnlyBacked, GuestWords, RegionFails, PageStops, Translation, AccountKept;
      ghost var n, start := address / 4096, npt.State(host);
      FreshWordsAreZero(start, npt.table, n);
      r := AllocPhys(host, 4096, 4096);
      if !r.Done? {
        if host.free.used != CAPACITY && n < MAX_GUEST_PAGES {
          ghost var entries: seq<u64>, waste: iset<int> :|
            RegionFails(start, npt.State(host), 4096 * n, Page4K, 4096, entries, waste);
          PageFailsForMemory(start, npt.State(host), npt.table, n, entries, waste);
        }
        return;
      }
      var p := Translate(host, r.value, 4096);
      ghost var before := host.words[..];
      ZeroPageHasZeroFrame(npt.State(host), npt.table, n + 1, n);
      for i := p.value / 8 to p.value / 8 + 512
        modifies host.words
        invariant host.words[..] == before
      {
        host.words[i] := 0;
      }
    }

    /** `translate`: where a part of one guest page is in host memory. */
    method Translate(host: PhysicalMemory, x: u64, size: u64) returns (r: Option<u64>)
      requires Valid(host)
      ensures r.Some? ==> 0 < size <= 4096 - x % 4096 && Some(r.value) == Translation(npt.pages, x) && r.value + size <= host.regionSize
      ensures x < address && 0 < size <= 4096 - x % 4096 ==>
                Backed(npt.pages, x / 4096) && r == Some(HostAddress(npt.pages, x))
    {
      hide IsTree, Separate, Owned, OwnedPagesFit, WellFormed, AllBacked, OnlyBacked, Lookup, Translation;
      var nextPage := (x + 0x1000) % TWO_64 / 4096 * 4096;
      var toPageEnd := (nextPage - x) % TWO_64;
      DistanceToPageEnd(x);
      if x < address {
        PageIsBacked(npt.pages, address / 4096, x);
        TranslationFits(npt.State(host), npt.table, x, size, host.regionSize);
      }
      if size > toPageEnd { return None; }
      var hostAddress := npt.VirtToPhys(host, x);
      if hostAddress.None? { return None; }
      var word := host.Translate(hostAddress.value, size);
      if word.None? { return None; }
      return hostAddress;
    }

    /** A load of one aligned word through a translated pointer. */
    method ReadWord(host: PhysicalMemory, x: u64) returns (r: Option<u64>)
      requires Valid(host)
      ensures x < address && x % 8 == 0 ==> r == Some(Words(host)[x / 8])
    {
      hide IsTree, Separate, Owned, OwnedPagesFit, WellFormed, AllBacked, OnlyBacked, Translation;
      if x % 8 == 0 { WordEndsInPage(x); }
      var p := Translate(host, x, 8);
      if p.None? { return None; }
      if x < address { BytesOfGuestWords(npt.State(host), npt.table, address / 4096, x); }
      return Some(host.words[p.value / 8]);
    }

    /** A store of one aligned word, as for the entries of the guest's page tables. */
    method WriteWord(host: PhysicalMemory, x: u64, v: u64)
      requires Valid(host) && x < address && x % 8 == 0
      modifies host.words
      ensures Valid(host) && Words(host) == old(Words(host))[x / 8 := v]
    {
      hide IsTree, Separate, Owned, OwnedPagesFit, WellFormed, AllBacked, OnlyBacked, Translation, GuestWords;
      WordEndsInPage(x);
      var p := Translate(host, x, 8);
      ghost var before := npt.State(host);
      BytesOfGuestWords(before, npt.table, address / 4096, x);
      host.words[p.value / 8] := v;
      assert host.words[..] == before.mem[p.value / 8 := v];
      WordWriteIsLocal(before, npt.State(host), npt.table, address / 4096, x / 8, v);
    }

    /** A store of one byte, as `map_init` does for every byte of a page. */
    method WriteByte(host: PhysicalMemory, x: u64, b: byte)
      requires Valid(host) && x < address
      modifies host.words
      ensures Valid(host) && Words(host) == old(Words(host))[x / 8 := SetByte(old(Words(host)[x / 8]), x % 8, b)]
    {
      hide IsTree, Separate, Owned, OwnedPagesFit, WellFormed, AllBacked, OnlyBacked, Translation;
      var p := Translate(host, x, 1);
      ghost var before := npt.State(host);
      BytesOfGuestWords(before, npt.table, address / 4096, x);
      FrameFits(before, npt.table, x / 4096);
      WordOfGuestByte(HostFrame(npt.pages, x / 4096), x);
      host.WriteByte(p.value, b);
      WordWriteIsLocal(before, npt.State(host), npt.table, address / 4096, x / 8, host.words[p.value / 8]);
    }
  }

  lemma WordEndsInPage(x: nat)
    requires x % 8 == 0
    ensures 8 <= 4096 - x % 4096
  {
    var n := x / 8;
    Divides(x, 4096, n / 512, 8 * (n % 512));
  }

  lemma DistanceToPageEnd(x: u64)
    ensures ((x + 0x1000) % TWO_64 / 4096 * 4096 - x) % TWO_64 == 4096 - x % 4096
  {
    var k := x / 4096;
    if x + 0x1000 < TWO_64 {
      Divides(x + 0x1000, 4096, k + 1, x % 4096);
    } else {
      assert (x + 0x1000) % TWO_64 == x + 0x1000 - TWO_64 < 4096;
      Divides(0 - x, TWO_64, -1, TWO_64 - x);
    }
  }

  lemma TranslationFits(h: Snapshot, root: u64, x: u64, size: u64, limit: nat)
    requires HostSound(h, root) && Backed(h.pages, x / 4096) && 8 * |h.mem| == limit
    ensures Translation(h.pages, x) == Some(HostAddress(h.pages, x))
    ensures size <= 4096 - x % 4096 ==> HostAddress(h.pages, x) + size <= limit
  {
    NestedWalkFinds(h, root, x);
    FrameFits(h, root, x / 4096);
  }
}
