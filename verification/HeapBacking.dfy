/** The words of the kernel heap are what the kernel's page table leads to. */
module HeapBackings {
  import opened MachineInts
  import opened RangeSets
  import opened PhysicalMemories
  import opened PageTrees
  import opened PageMaps
  import opened PageSnapshots
  import opened PageRegions
  import opened PageRuns
  import opened FreeLists

  const KERNEL_HEAP_BASE: u64 := 0xffff_a000_0000_0000
  const KERNEL_HEAP_PADDING: u64 := 4096

  /** The word at `a` belongs to a region. */
  predicate InWords(address: u64, size: nat, a: u64) {
    a % 8 == 0 && address <= a < address + size
  }

  lemma WordFits(address: u64, size: nat, a: u64)
    requires address % 4096 == 0 && size % 4096 == 0 && InWords(address, size, a)
    ensures a + 8 <= address + size
  {
  }

  /** The words of one more region are mapped and nothing else changed. */
  ghost predicate Extended(before: Words, after: Words, address: u64, size: nat) {
    && (forall a: u64 :: a in after <==> a in before || InWords(address, size, a))
    && forall a :: a in before ==> after[a] == before[a]
  }

  /** Physical address behind a heap address, in a 4 KB page that the tree owns. */
  ghost function PhysicalOf(s: Snapshot, a: u64): nat
    requires PathOf(a, 4) in s.pages
  {
    AddressOf(s.pages[PathOf(a, 4)]) + a % 4096
  }

  ghost predicate WordIs(s: Snapshot, a: u64, v: u64) {
    && a % 8 == 0 && a >= KERNEL_HEAP_BASE && PathOf(a, 4) in s.pages && Deallocate(s.pages[PathOf(a, 4)])
    && PhysicalOf(s, a) % 8 == 0 && PhysicalOf(s, a) / 8 < |s.mem| && s.mem[PhysicalOf(s, a) / 8] == v
  }

  ghost predicate Backs(s: Snapshot, words: Words) {
    forall a :: a in words ==> WordIs(s, a, words[a])
  }

  lemma HeapAddressesAreCanonical(a: u64)
    requires a >= KERNEL_HEAP_BASE
    ensures IsCanonical(a) && HardwareCanonical(a)
  {
    CanonicalMeaning(a);
  }

  /** A heap address translates to the word behind it. */
  lemma HeapTranslates(s: Snapshot, root: u64, a: u64, v: u64)
    requires IsTree(s.mem, root, s.tables, s.pages) && WordIs(s, a, v)
    ensures Translation(s.pages, a) == Some(PhysicalOf(s, a))
    ensures InSpan(AddressOf(s.pages[PathOf(a, 4)]), 4096, PhysicalOf(s, a))
  {
    hide PathOf;
    HeapAddressesAreCanonical(a);
    LookupFinds(s.mem, root, s.tables, s.pages, a, 4);
  }

  /** Different heap words have different words behind them. */
  lemma PhysicalWordsDiffer(s: Snapshot, root: u64, a: u64, v: u64, b: u64, w: u64)
    requires Sound(s, root) && WordIs(s, a, v) && WordIs(s, b, w) && a != b
    ensures PhysicalOf(s, a) != PhysicalOf(s, b)
  {
    hide IsTree, Owned, PathOf;
    var p, q := PathOf(a, 4), PathOf(b, 4);
    HeapTranslates(s, root, a, v);
    HeapTranslates(s, root, b, w);
    HeapAddressesAreCanonical(a);
    HeapAddressesAreCanonical(b);
    HardwareCanonicalPages(a, b, 4);
    AncestorsAreTables(s.mem, root, s.tables, s.pages, p, p);
    AncestorsAreTables(s.mem, root, s.tables, s.pages, q, q);
    assert PhysicalOf(s, a) == PhysicalOf(s, b) ==>
      OwnsByte(s.tables, s.pages, p, PhysicalOf(s, a)) && OwnsByte(s.tables, s.pages, q, PhysicalOf(s, a));
  }

  /** Mapping more pages leaves the heap as it is. */
  lemma BackingStays(a: Snapshot, b: Snapshot, root: u64, waste: iset<int>, words: Words)
    requires Sound(a, root) && Sound(b, root) && Kept(a, b, waste) && Backs(a, words) && |b.mem| == |a.mem|
    ensures Backs(b, words)
  {
    hide IsTree, Separate, Owned, PathOf;
    KeptPages(a, b, waste);
    forall x | x in words ensures WordIs(b, x, words[x]) {
      HeapTranslates(a, root, x, words[x]);
      PathOfDepth4(x);
      OwnedPageKeepsContents(a, b, root, PathOf(x, 4), waste, PhysicalOf(a, x));
    }
  }

  lemma PathOfDepth4(a: u64)
    ensures Depth(PathOf(a, 4)) == 4
  {
  }

  /** A zeroed region has a zero behind each of its words. */
  lemma RegionBacks(a: Snapshot, b: Snapshot, root: u64, v: u64, size: u64, entries: seq<u64>, waste: iset<int>, x: u64)
    requires Sound(b, root) && v % 4096 == 0 && v >= KERNEL_HEAP_BASE && size == Offset(Page4K, |entries|) && v + size <= TWO_64
    requires GotPages(a, b, v, Page4K, entries, waste) && RegionReady(b.mem, Page4K, entries, _ => 0, true, false, false)
    requires InWords(v, size, x)
    ensures WordIs(b, x, 0)
  {
    hide IsTree, Separate, Owned, PathOf, GotPages, Holds, AddressOf, Deallocate, InWords;
    var k, i := PlaceInRegion(v, size, |entries|, x);
    PageOfRegion(a, b, v, entries, waste, k);
    HeapPageSamePosition(v + 4096 * k, 8 * i);
    assert PageReady(b.mem, Page4K, entries[k], k, _ => 0, true, false, false);
    var frame := AddressOf(entries[k]);
    ZeroPageHasZeroWords(b.mem, frame, 4096, Offset(Page4K, k), i);
    ByteOfFrameWord(frame, i, 0);
  }

  /** A word of a region is word `i` of page `k`. */
  lemma PlaceInRegion(v: u64, size: nat, n: nat, x: u64) returns (k: nat, i: nat)
    requires v % 4096 == 0 && size == 4096 * n && InWords(v, size, x)
    ensures k < n && i < 512 && x == v + 4096 * k + 8 * i && x % 8 == 0 && x % 4096 == 8 * i && x >= v
  {
    var q, w := v / 4096, x / 8;
    var d := w - 512 * q;
    k, i := d / 512, d % 512;
    Divides(x, 4096, q + k, 8 * i);
  }

  lemma HeapPageSamePosition(start: u64, r: nat)
    requires start >= KERNEL_HEAP_BASE && start % 4096 == 0 && r < 4096
    ensures start + r < TWO_64 && PathOf(start + r, 4) == PathOf(start, 4)
  {
    HeapAddressesAreCanonical(start);
    AddressesOfPage(start, Page4K, r);
    SamePositionSamePage(start + r, start, 4);
  }

  lemma PageOfRegion(a: Snapshot, b: Snapshot, v: u64, entries: seq<u64>, waste: iset<int>, k: nat)
    requires v + Offset(Page4K, |entries|) <= TWO_64 && GotPages(a, b, v, Page4K, entries, waste) && k < |entries|
    ensures v + 4096 * k < TWO_64 && PathOf(v + 4096 * k, 4) in b.pages && b.pages[PathOf(v + 4096 * k, 4)] == entries[k]
    ensures Deallocate(entries[k]) && Kept(a, b, waste)
  {
    hide PathOf, Kept;
    assert AtPosition(b.pages, v, Page4K, k, entries[k]) && OwnedEntryFrom(entries[k], Page4K, a.free);
  }

  /** A mapped region joins the heap. */
  lemma BackingGrows(a: Snapshot, b: Snapshot, root: u64, v: u64, size: u64, entries: seq<u64>, waste: iset<int>,
                     words: Words, more: Words)
    requires Sound(b, root) && v % 4096 == 0 && v >= KERNEL_HEAP_BASE && size == Offset(Page4K, |entries|) && v + size <= TWO_64
    requires GotPages(a, b, v, Page4K, entries, waste) && RegionReady(b.mem, Page4K, entries, _ => 0, true, false, false)
    requires Backs(b, words) && Extended(words, more, v, size)
    requires forall x :: x in more && x !in words ==> more[x] == 0
    ensures Backs(b, more)
  {
    hide Sound, GotPages, RegionReady, WordIs;
    forall x | x in more ensures WordIs(b, x, more[x]) {
      if x !in words { RegionBacks(a, b, root, v, size, entries, waste, x); }
    }
  }

  /** A store to the word behind a heap address changes that word of the heap, and nothing else. */
  lemma StoreKeepsBacking(s: Snapshot, b: Snapshot, root: u64, words: Words, a: u64, v: u64)
    requires Sound(s, root) && Backs(s, words) && a in words
    requires PathOf(a, 4) in s.pages && PhysicalOf(s, a) / 8 < |s.mem| && b == s.(mem := s.mem[PhysicalOf(s, a) / 8 := v])
    ensures IsTree(b.mem, root, b.tables, b.pages) && Backs(b, words[a := v])
  {
    hide IsTree, Separate, Owned, PathOf, WordIs;
    WordIsOwned(s, root, a, words[a]);
    StoreKeepsTree(s, b, root, PathOf(a, 4), PhysicalOf(s, a));
    var more := words[a := v];
    forall c | c in more ensures WordIs(b, c, more[c]) {
      assert WordIs(s, c, words[c]) && WordIs(s, a, words[a]);
      WordAfterStore(s, b, root, a, words[a], c, words[c], v);
    }
  }

  lemma WordIsOwned(s: Snapshot, root: u64, a: u64, v: u64)
    requires IsTree(s.mem, root, s.tables, s.pages) && WordIs(s, a, v)
    ensures PathOf(a, 4) in s.pages && Deallocate(s.pages[PathOf(a, 4)]) && Depth(PathOf(a, 4)) == 4
    ensures InSpan(AddressOf(s.pages[PathOf(a, 4)]), 4096, PhysicalOf(s, a))
  {
    HeapTranslates(s, root, a, v);
  }

  lemma WordAfterStore(s: Snapshot, b: Snapshot, root: u64, a: u64, x: u64, c: u64, y: u64, v: u64)
    requires Sound(s, root) && WordIs(s, a, x) && WordIs(s, c, y)
    requires b == s.(mem := s.mem[PhysicalOf(s, a) / 8 := v])
    ensures WordIs(b, c, if c == a then v else y)
  {
    hide IsTree, Separate, Owned, PathOf;
    if c != a { PhysicalWordsDiffer(s, root, a, x, c, y); }
  }
}
