/** Page tables over whole runs: what a mapped region reads as, and where every byte of memory is. */
module PageRuns {
  import opened MachineInts
  import opened RangeSets
  import opened PhysicalMemories
  import opened PageTrees
  import opened PageMaps
  import opened PageSnapshots
  import opened PageRegions

  // ---------------------------------------------------------------------------------------
  // Reading a region through the tables
  // ---------------------------------------------------------------------------------------

  /** An aligned address and an offset below the alignment, modulo a multiple of the alignment. */
  lemma AlignedLow(n: nat, s: nat, q: nat, r: nat)
    requires s > 0 && q > 0 && r < s
    ensures s * q > 0
    ensures (s * n) % (s * q) == s * (n % q) && (s * n + r) % (s * q) == s * (n % q) + r
    ensures (s * n + r) / (s * q) == (s * n) / (s * q)
    ensures (s * (n % q)) / s == n % q && (s * (n % q) + r) / s == n % q
  {
    var m, h, j := s * q, n / q, n % q;
    MultiplesStep(j, q, s);
    assert s * n == h * m + s * j;
    Divides(s * n, m, h, s * j);
    Divides(s * n + r, m, h, s * j + r);
    Divides(s * j, s, j, 0);
    Divides(s * j + r, s, j, r);
  }

  lemma MultiplesStep(j: nat, q: nat, s: nat)
    requires j < q
    ensures s * j + s <= s * q
  {
    if s > 0 { ProductIsNoSmaller(q - j, s); }
    assert s * q == s * j + (q - j) * s;
  }

  /** Adding less than the distance to the next boundary keeps an address canonical. */
  lemma CanonicalAfterOffset(va: u64, r: nat)
    requires IsCanonical(va)
    requires var low := va % 0x10_0000_0000_0000;
      low + r < (if low < 0x8_0000_0000_0000 then 0x8_0000_0000_0000 else 0x10_0000_0000_0000)
    ensures va + r < TWO_64 && IsCanonical(va + r)
  {
    var h, low := va / 0x10_0000_0000_0000, va % 0x10_0000_0000_0000;
    Divides(va + r, 0x10_0000_0000_0000, h, low + r);
  }

  /** The addresses of one page: canonical together, in the same page, with their own offset. */
  lemma AddressesOfPage(va: u64, t: PageType, r: nat)
    requires IsCanonical(va) && t.Rest(va) == 0 && r < t.Size()
    ensures va + r < TWO_64 && IsCanonical(va + r) && t.Rest(va + r) == r
    ensures PageNumber(va + r, LeafDepth(t)) == PageNumber(va, LeafDepth(t))
  {
    match t
    case Page4K => AddressesOf4K(va, va / 0x1000, r);
    case Page2M => AddressesOf2M(va, va / 0x20_0000, r);
    case Page1G => AddressesOf1G(va, va / 0x4000_0000, r);
  }

  lemma AddressesOf4K(va: u64, n: nat, r: nat)
    requires va == 0x1000 * n && IsCanonical(va) && r < 0x1000
    ensures va + r < TWO_64 && IsCanonical(va + r) && (va + r) % 0x1000 == r
    ensures PageNumber(va + r, 4) == PageNumber(va, 4)
  {
    Divides(va, 0x10_0000_0000_0000, n / 0x100_0000_0000, 0x1000 * (n % 0x100_0000_0000));
    CanonicalAfterOffset(va, r);
    AlignedLow(n, 0x1000, 0x10_0000_0000, r);
    Divides(va + r, 0x1000, n, r);
  }

  lemma AddressesOf2M(va: u64, n: nat, r: nat)
    requires va == 0x20_0000 * n && IsCanonical(va) && r < 0x20_0000
    ensures va + r < TWO_64 && IsCanonical(va + r) && (va + r) % 0x20_0000 == r
    ensures PageNumber(va + r, 3) == PageNumber(va, 3)
  {
    Divides(va, 0x10_0000_0000_0000, n / 0x8000_0000, 0x20_0000 * (n % 0x8000_0000));
    CanonicalAfterOffset(va, r);
    AlignedLow(n, 0x20_0000, 0x800_0000, r);
    Divides(va + r, 0x20_0000, n, r);
  }

  lemma AddressesOf1G(va: u64, n: nat, r: nat)
    requires va == 0x4000_0000 * n && IsCanonical(va) && r < 0x4000_0000
    ensures va + r < TWO_64 && IsCanonical(va + r) && (va + r) % 0x4000_0000 == r
    ensures PageNumber(va + r, 2) == PageNumber(va, 2)
  {
    Divides(va, 0x10_0000_0000_0000, n / 0x40_0000, 0x4000_0000 * (n % 0x40_0000));
    CanonicalAfterOffset(va, r);
    AlignedLow(n, 0x4000_0000, 0x4_0000, r);
    Divides(va + r, 0x4000_0000, n, r);
  }

  /** Page `k` of a mapped region is what the abstract map finds for each of its addresses. */
  lemma RegionIsFound(a: Snapshot, b: Snapshot, root: u64, va: u64, t: PageType, entries: seq<u64>, waste: iset<int>,
                      k: nat, r: nat)
    requires IsTree(b.mem, root, b.tables, b.pages) && va + Offset(t, |entries|) <= TWO_64
    requires GotPages(a, b, va, t, entries, waste) && k < |entries| && r < t.Size()
    ensures va + Offset(t, k) + r < TWO_64
    ensures Lookup(b.pages, va + Offset(t, k) + r) == Some(Mapping(entries[k], LeafDepth(t)))
    ensures Translation(b.pages, va + Offset(t, k) + r) == Some(AddressOf(entries[k]) + r)
  {
    hide IsTree, Kept, Lookup;
    var start := va + Offset(t, k);
    assert AtPosition(b.pages, va, t, k, entries[k]);
    AddressesOfPage(start, t, r);
    SamePositionSamePage(start + r, start, LeafDepth(t));
    LookupFinds(b.mem, root, b.tables, b.pages, start + r, LeafDepth(t));
  }

  /** After a successful `map_init` every byte of the region, read through the tables, is the
      one `init` gave for its offset, with exactly the requested rights, if the processor accepts its address. */
  lemma RegionReadsAs(a: Snapshot, b: Snapshot, root: u64, va: u64, t: PageType, entries: seq<u64>, waste: iset<int>,
                      f: nat -> byte, write: bool, exec: bool, user: bool, k: nat, r: nat)
    requires IsTree(b.mem, root, b.tables, b.pages) && va + Offset(t, |entries|) <= TWO_64
    requires GotPages(a, b, va, t, entries, waste) && k < |entries| && r < t.Size()
    requires RegionReady(b.mem, t, entries, f, write, exec, user)
    ensures va + Offset(t, k) + r < TWO_64
    ensures var p := Translation(b.pages, va + Offset(t, k) + r);
      p.Some? && p.value < 8 * |b.mem| && ByteAt(b.mem, p.value) == f(Offset(t, k) + r)
    ensures HardwareWalk(b.mem, root, va + Offset(t, k) + r) ==
            if HardwareCanonical(va + Offset(t, k) + r) then Page(entries[k], LeafDepth(t), Rights(write, user, exec)) else Fault
  {
    hide IsTree, Kept, Lookup, GotPages, Translation, Holds, Offset, PathOf, HardwareWalk, AddressOf, ByteAt;
    RegionIsFound(a, b, root, va, t, entries, waste, k, r);
    assert PageReady(b.mem, t, entries[k], k, f, write, exec, user);
    HeldByte(b.mem, AddressOf(entries[k]), t.Size(), f, Offset(t, k), r);
    HardwareAgrees(b.mem, root, b.tables, b.pages, va + Offset(t, k) + r);
  }

  lemma HeldByte(mem: Memory, page: nat, size: nat, f: nat -> byte, offset: nat, j: nat)
    requires Holds(mem, page, size, f, offset) && j < size
    ensures page + j < 8 * |mem| && ByteAt(mem, page + j) == f(offset + j)
  {
    assert HoldsAt(mem, page, f, offset, j);
  }

  lemma {:induction false} MembersOfRegion(pages: Pages, va: u64, t: PageType, entries: seq<u64>, q: Path)
    requires va + Offset(t, |entries|) <= TWO_64
    ensures q in PagesWith(pages, va, t, entries) && q !in pages ==>
              exists k: nat :: k < |entries| && IsPositionOf(va, t, k, q)
  {
    if entries != [] {
      var k := |entries| - 1;
      OffsetStep(t, k, 0);
      MembersOfRegion(pages, va, t, entries[..k], q);
      if q in PagesWith(pages, va, t, entries) && q !in pages && q !in PagesWith(pages, va, t, entries[..k]) {
        assert IsPositionOf(va, t, k, q);
      }
    }
  }

  ghost predicate IsPositionOf(va: u64, t: PageType, k: nat, q: Path) {
    va + Offset(t, k) < TWO_64 && q == PathOf(va + Offset(t, k), LeafDepth(t))
  }

  lemma KeptPages(a: Snapshot, b: Snapshot, waste: iset<int>)
    requires Kept(a, b, waste)
    ensures forall p :: p in a.pages ==> p in b.pages && b.pages[p] == a.pages[p]
  {
  }

  /** Mapping a region leaves every address outside its pages as it was. */
  lemma RegionChangesNothingElse(a: Snapshot, b: Snapshot, root: u64, va: u64, t: PageType, entries: seq<u64>,
                                 waste: iset<int>, vb: u64)
    requires IsTree(b.mem, root, b.tables, b.pages) && va + Offset(t, |entries|) <= TWO_64
    requires b.pages == PagesWith(a.pages, va, t, entries) && Kept(a, b, waste)
    requires forall k: nat :: k < |entries| && va + Offset(t, k) < TWO_64 ==>
               PageNumber(va + Offset(t, k), LeafDepth(t)) != PageNumber(vb, LeafDepth(t))
    ensures Lookup(b.pages, vb) == Lookup(a.pages, vb)
    ensures Translation(b.pages, vb) == Translation(a.pages, vb)
  {
    hide IsTree, Kept, PathOf, PageNumber, Offset;
    KeptPages(a, b, waste);
    if Lookup(a.pages, vb).Some? {
      LookupFinds(b.mem, root, b.tables, b.pages, vb, Lookup(a.pages, vb).value.depth);
    } else if Lookup(b.pages, vb).Some? {
      var d := Lookup(b.pages, vb).value.depth;
      MembersOfRegion(a.pages, va, t, entries, PathOf(vb, d));
      var k: nat :| k < |entries| && IsPositionOf(va, t, k, PathOf(vb, d));
      assert d == LeafDepth(t);
      SamePositionSamePage(va + Offset(t, k), vb, d);
    }
  }

  // ---------------------------------------------------------------------------------------
  // Where every byte is
  // ---------------------------------------------------------------------------------------

  /** What `Valid` says about a snapshot. */
  ghost predicate Sound(s: Snapshot, root: u64) {
    && IsTree(s.mem, root, s.tables, s.pages) && Separate(s.tables, s.pages)
    && Owned(s.tables, s.pages) !! s.free && Owned(s.tables, s.pages) !! s.lost && s.lost !! s.free
  }

  ghost function Total(s: Snapshot): iset<int> {
    s.free + Owned(s.tables, s.pages) + s.lost
  }

  /** A public call and how it ended. `mid` is the state in which a failing `map_init` asked for the page
      that it could not map. */
  datatype Call =
    | RawDone(va: u64, t: PageType, raw: u64, add: bool, update: bool)
    | RawRefused(va: u64, t: PageType, raw: u64, add: bool, update: bool)
    | RegionDone(va: u64, t: PageType, entries: seq<u64>)
    | RegionNotDone(va: u64, t: PageType, size: u64, entries: seq<u64>, mid: Snapshot)

  /** `call` takes the system from `a` to `b`; `waste` is what `map_raw_internal` and the
      allocator lost in it. */
  ghost predicate Runs(a: Snapshot, call: Call, b: Snapshot, waste: iset<int>) {
    match call
    case RawDone(va, t, raw, add, update) =>
      && !Deallocate(raw) && MapAllowed(a.tables, a.pages, va, t, add, update)
      && Mapped(a, b, va, t, FinalEntry(raw, t, false), waste)
    case RawRefused(va, t, raw, add, update) =>
      && Grown(a, b, va, LeafDepth(t) - 1, waste)
      && (!MapAllowed(a.tables, a.pages, va, t, add, update)
          || (PathOf(va, LeafDepth(t) - 1) !in b.tables && Starved(b.free, Page4K, 8 * |b.mem|)))
    case RegionDone(va, t, entries) =>
      va + Offset(t, |entries|) <= TWO_64 && GotPages(a, b, va, t, entries, waste)
    case RegionNotDone(va, t, size, entries, mid) =>
      exists first: iset<int>, last: iset<int> ::
        RegionRefused(a, mid, b, va, t, size, entries, first, last) && waste == first + last
  }

  /** Every call keeps the account: each byte stays free, owned or lost. */
  lemma CallKeepsAccount(a: Snapshot, call: Call, b: Snapshot, waste: iset<int>)
    requires Runs(a, call, b, waste)
    ensures Total(b) == Total(a)
    ensures Paged(a.free) ==> Paged(b.free)
    ensures a.lost <= b.lost
  {
    hide MapAllowed, Starved;
    if call.RawDone? { FinalEntryBits(call.raw, call.t, false); }
  }

  /** When a call loses no memory: unless it overwrites a table or an owned page, or is a `map_init` that
      got memory for a page whose position it could not use. */
  ghost predicate LosesNothing(a: Snapshot, call: Call) {
    match call
    case RawDone(va, t, raw, add, update) =>
      var c := PathOf(va, LeafDepth(t));
      !(c in a.tables || (c in a.pages && Deallocate(a.pages[c])))
    case RawRefused(va, t, raw, add, update) => true
    case RegionDone(va, t, entries) => true
    case RegionNotDone(va, t, size, entries, mid) => BadRegion(va, t, size) || Starved(mid.free, t, 8 * |mid.mem|)
  }

  /** What a call loses, exactly. */
  lemma CallLosesExactly(a: Snapshot, call: Call, b: Snapshot, waste: iset<int>, root: u64)
    requires Runs(a, call, b, waste) && Paged(a.free) && Sound(a, root)
    ensures b.lost == a.lost <==> LosesNothing(a, call)
    ensures call.RawDone? ==> b.lost == a.lost + OwnedUnder(a.tables, a.pages, PathOf(call.va, LeafDepth(call.t)))
    ensures call.RawDone? && !call.update ==> LosesNothing(a, call)
    ensures call.RegionNotDone? && !LosesNothing(a, call) ==>
              exists page :: b.lost == a.lost + Span(page, call.t.Size()) && Span(page, call.t.Size()) <= a.free
  {
    hide IsTree, Separate;
    match call
    case RawDone(va, t, raw, add, update) =>
      var c := PathOf(va, LeafDepth(t));
      OverwritingLosesExactly(a, root, c);
      UnderIsPartOfOwned(a.tables, a.pages, c);
    case RegionNotDone(va, t, size, entries, mid) => FailedRegionLosesExactly(a, call, b, waste);
    case _ =>
  }

  lemma FailedRegionLosesExactly(a: Snapshot, call: Call, b: Snapshot, waste: iset<int>)
    requires call.RegionNotDone? && Runs(a, call, b, waste) && Paged(a.free) && a.lost !! a.free
    ensures b.lost == a.lost <==> LosesNothing(a, call)
    ensures !LosesNothing(a, call) ==>
              exists page :: b.lost == a.lost + Span(page, call.t.Size()) && Span(page, call.t.Size()) <= a.free
  {
    hide Owned, ChangesOnly, Starved, PathOf, PagesWith;
    var mid := call.mid;
    var first: iset<int>, last: iset<int> :|
      RegionRefused(a, mid, b, call.va, call.t, call.size, call.entries, first, last) && waste == first + last;
    if !LosesNothing(a, call) {
      var page :| Span(page, call.t.Size()) <= last * mid.free && last == Span(page, call.t.Size());
      assert b.lost == a.lost + Span(page, call.t.Size());
      assert page in Span(page, call.t.Size());
    }
  }

  /** A run: one snapshot before each call and one after the last. */
  ghost predicate IsRun(trace: seq<Snapshot>, calls: seq<Call>, wastes: seq<iset<int>>, root: u64) {
    && |trace| == |calls| + 1 && |wastes| == |calls|
    && (forall i :: 0 <= i < |trace| ==> Sound(trace[i], root))
    && (forall i :: 0 <= i < |calls| ==> RunsAt(trace, calls, wastes, i))
  }

  ghost predicate RunsAt(trace: seq<Snapshot>, calls: seq<Call>, wastes: seq<iset<int>>, i: nat)
    requires |trace| == |calls| + 1 && |wastes| == |calls| && i < |calls|
  {
    Runs(trace[i], calls[i], trace[i + 1], wastes[i])
  }

  lemma RunStarts(a: Snapshot, root: u64)
    requires Sound(a, root)
    ensures IsRun([a], [], [], root)
  {
  }

  lemma RunGoesOn(trace: seq<Snapshot>, calls: seq<Call>, wastes: seq<iset<int>>, root: u64,
                  call: Call, b: Snapshot, waste: iset<int>)
    requires IsRun(trace, calls, wastes, root) && Sound(b, root) && Runs(trace[|calls|], call, b, waste)
    ensures IsRun(trace + [b], calls + [call], wastes + [waste], root)
  {
    hide Sound, Runs;
    var more, made, lost := trace + [b], calls + [call], wastes + [waste];
    forall i | 0 <= i < |made| ensures RunsAt(more, made, lost, i) {
      if i < |calls| { assert RunsAt(trace, calls, wastes, i); }
    }
  }

  /** No call of the run loses memory. */
  ghost predicate Lossless(trace: seq<Snapshot>, calls: seq<Call>)
    requires |trace| == |calls| + 1
  {
    forall i :: 0 <= i < |calls| ==> LosesNothing(trace[i], calls[i])
  }

  /** Each byte stays free, owned or lost all along a run, and lost bytes stay lost. When free memory consists
      of whole pages, none is lost exactly when no call loses any. */
  lemma {:induction false} RunKeepsAccount(trace: seq<Snapshot>, calls: seq<Call>, wastes: seq<iset<int>>, root: u64, n: nat)
    requires IsRun(trace, calls, wastes, root) && n <= |calls|
    ensures Total(trace[n]) == Total(trace[0]) && trace[0].lost <= trace[n].lost
    ensures Paged(trace[0].free) ==> Paged(trace[n].free)
    ensures Paged(trace[0].free) ==> (trace[n].lost == trace[0].lost <==> forall i :: 0 <= i < n ==> LosesNothing(trace[i], calls[i]))
  {
    hide Sound, Runs, Total, LosesNothing;
    if n > 0 {
      RunKeepsAccount(trace, calls, wastes, root, n - 1);
      assert RunsAt(trace, calls, wastes, n - 1);
      CallKeepsAccount(trace[n - 1], calls[n - 1], trace[n], wastes[n - 1]);
      if Paged(trace[0].free) {
        CallLosesExactly(trace[n - 1], calls[n - 1], trace[n], wastes[n - 1], root);
      }
    }
  }

  /** `new`, any run of calls, then `destroy`: the free set at the end is the one at the start without the
      bytes lost in between; and when free memory consisted of whole pages, it is the same exactly when no
      call lost any. */
  lemma LifetimeConserves(free0: iset<int>, lost0: iset<int>, waste0: iset<int>,
                          trace: seq<Snapshot>, calls: seq<Call>, wastes: seq<iset<int>>, root: u64, freeEnd: iset<int>)
    requires lost0 !! free0 && IsRun(trace, calls, wastes, root)
    requires Allocated(free0, trace[0].free, Owned(trace[0].tables, trace[0].pages), waste0)
    requires trace[0].lost == lost0 + waste0
    requires var last := trace[|calls|]; freeEnd == last.free + Owned(last.tables, last.pages)
    ensures freeEnd == free0 - (trace[|calls|].lost - lost0)
    ensures Paged(free0) ==> (freeEnd == free0 <==> Lossless(trace, calls))
  {
    hide IsTree, Separate;
    RunKeepsAccount(trace, calls, wastes, root, |calls|);
    assert Sound(trace[|calls|], root) && Sound(trace[0], root);
    assert Total(trace[0]) == free0 + lost0;
    var last := trace[|calls|];
    assert last.lost - lost0 <= free0;
  }
}
