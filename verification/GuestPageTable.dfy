/** The page-table code (libs/page_table) running on guest-physical memory: the guest's own 4 KB pages, as
    the virtual kernel maps them. Every access goes through the nested tables. */
module GuestPageTables {
  import opened MachineInts
  import opened RangeSets
  import opened PhysicalMemories
  import opened PageTrees
  import opened PageMaps
  import opened PageSnapshots
  import opened PageRegions
  import opened PageTables
  import opened PageRuns
  import opened GuestMemories

  ghost const NOTHING: iset<int> := iset{}

  /** What is known of the guest's tree. Nothing of it is ever lost. */
  ghost predicate GuestSound(g: Snapshot, root: u64, address: nat) {
    && Sound(g, root) && OwnedPagesFit(g.pages, GUEST_BYTES)
    && |g.mem| == GUEST_WORDS && g.free == GuestFree(address) && g.lost == NOTHING
    && 0 <= address <= GUEST_BYTES && address % 4096 == 0
  }

  /** What the guest's tree owns is allocated. */
  lemma OwnedIsAllocated(g: Snapshot, root: u64, address: nat, p: Path, x: int)
    requires GuestSound(g, root, address) && OwnsByte(g.tables, g.pages, p, x)
    ensures 0 <= x < address
  {
    hide Separate;
    EverythingIsUnderRoot(p);
    assert x in Owned(g.tables, g.pages);
    if p in g.tables { assert TableOk(g.mem, g.tables, g.pages, p); }
    assert 0 <= x < GUEST_BYTES;
    assert !InSpan(address, GUEST_BYTES - address, x);
  }

  /** So the words of its tables can be reached. */
  lemma EntryIsAllocated(g: Snapshot, root: u64, address: nat, va: u64, depth: nat)
    requires GuestSound(g, root, address) && depth < 4 && PathOf(va, depth) in g.tables
    ensures var table := g.tables[PathOf(va, depth)];
      && table + Index(va, depth) * 8 < address && (table + Index(va, depth) * 8) % 8 == 0
      && (table + Index(va, depth) * 8) / 8 == Slot(table, Index(va, depth)) < |g.mem|
  {
    hide Separate, Owned, Index;
    var p, i := PathOf(va, depth), Index(va, depth);
    WalkEntry(g.mem, root, g.tables, g.pages, va, depth);
    TableWordIsOwnByte(g.mem, root, g.tables, g.pages, p, i);
    OwnedIsAllocated(g, root, address, p, 8 * Slot(g.tables[p], i));
    var n := g.tables[p] / 4096;
    Divides(g.tables[p] + i * 8, 8, 512 * n + i, 0);
  }

  lemma PageInTheWay(tables: Tables, pages: Pages, va: u64)
    requires exists k: nat :: k <= 3 && PathOf(va, k) in pages
    ensures !MapAllowed(tables, pages, va, Page4K, true, false)
  {
  }

  /** The last-level entry for `va` tells whether a page may be mapped there. */
  lemma LastEntryOf(a: Snapshot, b: Snapshot, root: u64, address: nat, va: u64)
    requires GuestSound(b, root, address) && Grown(a, b, va, 3, NOTHING) && PathOf(va, 3) in b.tables
    requires IsCanonical(va) && va % 4096 == 0
    ensures var table, i := b.tables[PathOf(va, 3)], Index(va, 3);
      && var word := (table + i * 8) / 8;
         && word == Slot(table, i) < |b.mem| && 8 * word < address
         && (Present(b.mem[word]) <==> PathOf(va, 4) in b.tables || PathOf(va, 4) in b.pages)
         && (MapAllowed(a.tables, a.pages, va, Page4K, true, false) <==> !Present(b.mem[word]))
    ensures b.pages == a.pages
  {
    hide IsTree, Separate, Owned, Index, PathOf, Grown, Slot;
    EntryIsAllocated(b, root, address, va, 3);
    WalkEntry(b.mem, root, b.tables, b.pages, va, 3);
    GrownKeeps(a, b, va, 3, NOTHING);
    LastTableFound(a, b, root, va, Page4K, true, false, U64_MAX);
  }

  /** A page behind the allocated ones is nobody's. */
  lemma FreshBlock(g: Snapshot, z: Snapshot, root: u64, address: nat)
    requires GuestSound(g, root, address) && address + 4096 <= GUEST_BYTES
    requires z == g.(free := GuestFree(address + 4096))
    requires forall w :: address / 8 <= w < address / 8 + 512 ==> g.mem[w] == 0
    ensures Allocated(g.free, z.free, Span(address, 4096), NOTHING)
    ensures ZeroedPage(g.mem, z.mem, address, 4096)
    ensures TookPage(g, z, address, 4096, NOTHING) && Nobody(z, Span(address, 4096)) && GuestSound(z, root, address + 4096)
    ensures Holds(z.mem, address, 4096, ContentOf(None), 0)
  {
    hide IsTree, Separate, Owned, OwnedPagesFit, Paged;
    GuestBlockIsAllocated(address, 4096);
    assert NOTHING + NOTHING == NOTHING;
    TakesOver(g.free, z.free, Span(address, 4096), NOTHING, Owned(g.tables, g.pages), g.lost);
    ZeroedPageHoldsZeros(g.mem, z.mem, address, 4096, 0);
  }

  /** Every page was mapped by `map` or `map_init` as a 4 KB page. */
  ghost predicate OnlyOwnedPages(pages: Pages) {
    forall p :: p in pages ==> Deallocate(pages[p]) && Depth(p) == 4
  }

  /** The page found for an address of the guest is owned, and the address lies in it. */
  lemma GuestWalkFinds(g: Snapshot, root: u64, va: u64)
    requires Sound(g, root) && OnlyOwnedPages(g.pages) && Translation(g.pages, va).Some?
    ensures IsCanonical(va) && PathOf(va, 4) in g.pages
    ensures Translation(g.pages, va) == Some(AddressOf(g.pages[PathOf(va, 4)]) + va % 4096)
    ensures OwnsByte(g.tables, g.pages, PathOf(va, 4), Translation(g.pages, va).value)
  {
    hide Separate, Owned;
    var m := Lookup(g.pages, va).value;
    assert PathOf(va, m.depth) in g.pages;
    AncestorsAreTables(g.mem, root, g.tables, g.pages, PathOf(va, 4), PathOf(va, 4));
  }

  class GuestPageTable {
    /** Guest-physical address of the root table. */
    const table: u64

    ghost var tables: Tables
    ghost var pages: Pages

    ghost predicate Valid(g: GuestMemory, host: PhysicalMemory)
      reads this, g, g.npt, host, host.words, host.free, host.free.ranges
    {
      g.Valid(host) && GuestSound(State(g, host), table, g.address)
    }

    ghost function State(g: GuestMemory, host: PhysicalMemory): Snapshot
      requires g.Valid(host)
      reads this, g, g.npt, host, host.words, host.free, host.free.ranges
    {
      Snapshot(g.Words(host), GuestFree(g.address), NOTHING, tables, pages)
    }

    constructor Adopt(table: u64)
      ensures this.table == table && tables == map[Root := table] && pages == map[]
    {
      this.table := table;
      tables, pages := map[Root := table], map[];
    }

    /** `new` */
    static method New(g: GuestMemory, host: PhysicalMemory) returns (r: Attempt<GuestPageTable>)
      requires g.Valid(host)
      modifies g, g.npt, host, host.words, host.free, host.free.ranges
      ensures !r.Refused?
      ensures r.Done? ==>
        && fresh(r.value) && r.value.Valid(g, host) && r.value.pages == map[]
        && Owned(r.value.tables, map[]) == Span(old(g.address), 4096) && g.address == old(g.address) + 4096
        && AccountKept(old(g.npt.State(host)), g.npt.State(host))
      ensures r.Panicked? ==> g.address == old(g.address) + 4096 && (host.Exhausted() || g.address > GUEST_BYTES)
    {
      hide IsTree, Separate, Owned, Starved, GuestWords;
      var frame := g.AllocPageZeroed(host);
      if !frame.Done? { return Panicked; }
      var pt := new GuestPageTable.Adopt(frame.value);
      RootIsSound(g.Words(host), frame.value);
      return Done(pt);
    }

    /** Link a new, zeroed table into the empty entry in the given word. */
    method AddTable(g: GuestMemory, host: PhysicalMemory, word: nat, ghost p: Path, ghost i: nat) returns (r: Attempt<()>)
      requires Valid(g, host) && p in tables && Depth(p) < 3 && i < 512
      requires word == Slot(tables[p], i) && 8 * word < g.address && !Present(g.Words(host)[word])
      modifies this, g, g.npt, host, host.words, host.free, host.free.ranges
      ensures !r.Refused?
      ensures r.Done? ==>
        && Valid(g, host) && Linked(old(State(g, host)), State(g, host), Sub(p, i), NOTHING) && Sub(p, i) in tables
        && g.address == old(g.address) + 4096 && AccountKept(old(g.npt.State(host)), g.npt.State(host))
        && AddressOf(g.Words(host)[word]) == tables[Sub(p, i)]
      ensures r.Panicked? ==> pages == old(pages) && (host.Exhausted() || g.address > GUEST_BYTES)
    {
      hide IsTree, Separate, Owned, Starved, GuestWords, Linked, Allocated, ZeroedPage, TookPage, Holds, OwnedPagesFit, AccountKept;
      ghost var before, host0 := State(g, host), g.npt.State(host);
      var frame := g.AllocPageZeroed(host);
      if !frame.Done? { return Panicked; }
      var t := frame.value;
      ghost var zeroed, host1 := State(g, host), g.npt.State(host);
      FreshBlock(before, zeroed, table, t);
      ZeroedFrameIsLinked(before, zeroed, table, p, i, t, NOTHING);
      g.WriteWord(host, 8 * word, t + (PAGE_PRESENT + PAGE_USER + PAGE_WRITE));
      StoresKeepAccount(host1, g.npt.State(host));
      AccountComposes(host0, host1, g.npt.State(host));
      tables := tables[Sub(p, i) := t];
      return Done(());
    }

    /** One turn of the loop of `map_raw_internal` above the last level. */
    method Descend(g: GuestMemory, host: PhysicalMemory, va: u64, depth: nat, current: u64) returns (r: Attempt<u64>)
      requires Valid(g, host) && depth < 3 && PathOf(va, depth) in tables && tables[PathOf(va, depth)] == current
      modifies this, g, g.npt, host, host.words, host.free, host.free.ranges
      ensures r.Done? ==>
        && Valid(g, host) && Grown(old(State(g, host)), State(g, host), va, depth + 1, NOTHING)
        && AccountKept(old(g.npt.State(host)), g.npt.State(host))
        && PathOf(va, depth + 1) in tables && tables[PathOf(va, depth + 1)] == r.value
      ensures r.Refused? ==> pages == old(pages) && PathOf(va, depth + 1) in pages
      ensures r.Panicked? ==> pages == old(pages) && (host.Exhausted() || g.address > GUEST_BYTES)
    {
      hide IsTree, Separate, Owned, OwnedPagesFit, Grown, Linked, Starved, GuestWords, AccountKept;
      StoresKeepAccount(g.npt.State(host), g.npt.State(host));
      EntryIsAllocated(State(g, host), table, g.address, va, depth);
      WalkEntry(g.Words(host), table, tables, pages, va, depth);
      NothingGrownYet(State(g, host), va, depth + 1);
      ghost var before := State(g, host);
      var word := (current + Index(va, depth) * 8) / 8;
      var e := g.ReadWord(host, 8 * word);
      if e.None? { return Refused; }
      if !Present(e.value) {
        var added := AddTable(g, host, word, PathOf(va, depth), Index(va, depth));
        if !added.Done? { return Panicked; }
        OneTableGrown(before, State(g, host), va, depth + 1, NOTHING);
        e := g.ReadWord(host, 8 * word);
      } else if Large(e.value) {
        return Refused;
      }
      return Done(AddressOf(e.value));
    }

    /** The loop of `map_raw_internal`: the last-level table for `va`. */
    method LastTable(g: GuestMemory, host: PhysicalMemory, va: u64) returns (r: Attempt<u64>)
      requires Valid(g, host)
      modifies this, g, g.npt, host, host.words, host.free, host.free.ranges
      ensures r.Done? ==>
        && Valid(g, host) && Grown(old(State(g, host)), State(g, host), va, 3, NOTHING)
        && AccountKept(old(g.npt.State(host)), g.npt.State(host))
        && PathOf(va, 3) in tables && tables[PathOf(va, 3)] == r.value
      ensures r.Refused? ==> pages == old(pages) && exists k: nat :: k <= 3 && PathOf(va, k) in pages
      ensures r.Panicked? ==> pages == old(pages) && (host.Exhausted() || g.address > GUEST_BYTES)
    {
      hide IsTree, Separate, Owned, OwnedPagesFit, Grown, Starved, GuestWords, AccountKept;
      var current := table;
      var depth := 0;
      StoresKeepAccount(g.npt.State(host), g.npt.State(host));
      NothingGrown(State(g, host), g.Words(host), table, va);
      while depth < 3
        invariant depth <= 3 && Valid(g, host) && pages == old(pages)
        invariant PathOf(va, depth) in tables && tables[PathOf(va, depth)] == current
        invariant Grown(old(State(g, host)), State(g, host), va, depth, NOTHING)
        invariant AccountKept(old(g.npt.State(host)), g.npt.State(host))
      {
        ghost var was, host0 := State(g, host), g.npt.State(host);
        TablesAreAligned(was.mem, table, tables, pages);
        var next := Descend(g, host, va, depth, current);
        if next.Panicked? { return Panicked; }
        if next.Refused? { return Refused; }
        GrownCompose(old(State(g, host)), was, State(g, host), va, depth, NOTHING, NOTHING);
        assert NOTHING + NOTHING == NOTHING;
        GrownKeeps(old(State(g, host)), State(g, host), va, depth + 1, NOTHING);
        AccountComposes(old(g.npt.State(host)), host0, g.npt.State(host));
        current := next.value;
        depth := depth + 1;
      }
      return Done(current);
    }

    /** `map_raw_internal` for a 4 KB page that the tree will own, with `add` and without `update`. */
    method MapRawInternal(g: GuestMemory, host: PhysicalMemory, va: u64, entry: u64) returns (r: Attempt<()>)
      requires Valid(g, host) && Present(entry) && Deallocate(entry) && AddressOf(entry) + 4096 <= GUEST_BYTES
      requires Nobody(State(g, host), Span(AddressOf(entry), 4096))
      modifies this, g, g.npt, host, host.words, host.free, host.free.ranges
      ensures r.Done? ==>
        && Valid(g, host) && MapAllowed(old(tables), old(pages), va, Page4K, true, false)
        && Mapped(old(State(g, host)), State(g, host), va, Page4K, entry, NOTHING)
        && AccountKept(old(g.npt.State(host)), g.npt.State(host))
      ensures r.Refused? ==> pages == old(pages) && !MapAllowed(old(tables), old(pages), va, Page4K, true, false)
      ensures r.Panicked? ==> pages == old(pages) && (host.Exhausted() || g.address > GUEST_BYTES)
    {
      hide IsTree, Separate, Owned, OwnedPagesFit, Grown, Mapped, Starved, GuestWords, Nobody, AddressOf, Present, Deallocate,
           AllBacked, OnlyBacked, HostSound, PathOf, AccountKept;
      if !IsCanonical(va) { return Refused; }
      if va % 4096 != 0 { return Refused; }
      r := MapEntry(g, host, va, entry);
    }

    /** The loop of `map_raw_internal`. */
    method MapEntry(g: GuestMemory, host: PhysicalMemory, va: u64, entry: u64) returns (r: Attempt<()>)
      requires Valid(g, host) && Present(entry) && Deallocate(entry) && AddressOf(entry) + 4096 <= GUEST_BYTES
      requires Nobody(State(g, host), Span(AddressOf(entry), 4096)) && IsCanonical(va) && va % 4096 == 0
      modifies this, g, g.npt, host, host.words, host.free, host.free.ranges
      ensures r.Done? ==>
        && Valid(g, host) && MapAllowed(old(tables), old(pages), va, Page4K, true, false)
        && Mapped(old(State(g, host)), State(g, host), va, Page4K, entry, NOTHING)
        && AccountKept(old(g.npt.State(host)), g.npt.State(host))
      ensures r.Refused? ==> pages == old(pages) && !MapAllowed(old(tables), old(pages), va, Page4K, true, false)
      ensures r.Panicked? ==> pages == old(pages) && (host.Exhausted() || g.address > GUEST_BYTES)
    {
      hide IsTree, Separate, Owned, OwnedPagesFit, Grown, Mapped, Starved, GuestWords, Nobody, AddressOf, Present, Deallocate,
           AllBacked, OnlyBacked, HostSound, WellFormed, Index, Slot, AccountKept, IsCanonical, PathOf, MapAllowed;
      var current := LastTable(g, host, va);
      if current.Panicked? { return Panicked; }
      if current.Refused? {
        PageInTheWay(old(tables), pages, va);
        return Refused;
      }
      ghost var before, host1 := State(g, host), g.npt.State(host);
      LastEntryOf(old(State(g, host)), before, table, g.address, va);
      var word := (current.value + Index(va, 3) * 8) / 8;
      var e := g.ReadWord(host, 8 * word);
      if e.None? || Present(e.value) { return Refused; }
      WriteEntry(g, host, va, entry, word, old(State(g, host)));
      AccountComposes(old(g.npt.State(host)), host1, g.npt.State(host));
      return Done(());
    }

    /** The store of a last-level entry into an empty position. */
    method WriteEntry(g: GuestMemory, host: PhysicalMemory, va: u64, entry: u64, word: nat, ghost start: Snapshot)
      requires Valid(g, host) && Present(entry) && Deallocate(entry) && AddressOf(entry) + 4096 <= GUEST_BYTES
      requires Nobody(start, Span(AddressOf(entry), 4096)) && Grown(start, State(g, host), va, 3, NOTHING)
      requires PathOf(va, 3) in tables && PathOf(va, 4) !in tables && PathOf(va, 4) !in pages
      requires word == Slot(tables[PathOf(va, 3)], Index(va, 3)) && 8 * word < g.address
      modifies this, host.words
      ensures Valid(g, host) && Mapped(start, State(g, host), va, Page4K, entry, NOTHING)
      ensures AccountKept(old(g.npt.State(host)), g.npt.State(host))
    {
      hide IsTree, Separate, Owned, OwnedPagesFit, Grown, Mapped, Starved, GuestWords, Nobody, Outside, WithLeaf, AddressOf,
           Present, Deallocate, AllBacked, OnlyBacked, HostSound, WellFormed, Index, AccountKept, PathOf;
      ghost var before, c := State(g, host), PathOf(va, 4);
      LastEntryWritten(start, before, table, va, Page4K, entry, word, NOTHING, GUEST_BYTES);
      NothingBelowEmpty(before.mem, table, tables, pages, c);
      assert NOTHING + OwnedUnder(tables, pages, c) == NOTHING;
      g.WriteWord(host, 8 * word, entry);
      StoresKeepAccount(old(g.npt.State(host)), g.npt.State(host));
      tables, pages := Outside(tables, c), WithLeaf(pages, c, entry);
    }

    /** The loop of `map_init` that asks `init` for every byte of a page. */
    method FillPage(g: GuestMemory, host: PhysicalMemory, page: u64, init: nat -> byte)
      requires g.Valid(host) && page % 4096 == 0 && page + 4096 <= g.address
      modifies host.words
      ensures g.Valid(host) && Holds(g.Words(host), page, 4096, init, 0)
      ensures forall w :: 0 <= w < GUEST_WORDS && g.Words(host)[w] != old(g.Words(host)[w]) ==> 8 * w in Span(page, 4096)
    {
      hide GuestWords, IsTree, Separate, Owned, OwnedPagesFit, AllBacked, OnlyBacked, SetByte;
      ghost var n := page / 4096;
      Divides(page, 8, 512 * n, 0);
      for j := 0 to 4096
        modifies host.words
        invariant g.Valid(host)
        invariant forall k: nat :: k < j ==> HoldsAt(g.Words(host), page, init, 0, k)
        invariant forall w :: 0 <= w < GUEST_WORDS && g.Words(host)[w] != old(g.Words(host)[w]) ==> 8 * w in Span(page, 4096)
      {
        ghost var before := g.Words(host);
        g.WriteByte(host, page + j, init(j));
        assert InSpan(page, 4096, 8 * ((page + j) / 8));
        forall k: nat | k <= j ensures HoldsAt(g.Words(host), page, init, 0, k) {
          if k < j {
            assert HoldsAt(before, page, init, 0, k);
            SameWordOtherByte(page, j, k);
          }
        }
      }
    }

    /** `map_init` for one 4 KB page: allocate it, fill it and map it. It is refused exactly when the position
        cannot be used. */
    method MapInit(g: GuestMemory, host: PhysicalMemory, va: u64, write: bool, exec: bool, init: Option<nat -> byte>)
      returns (r: Attempt<()>, ghost entry: u64)
      requires Valid(g, host)
      modifies this, g, g.npt, host, host.words, host.free, host.free.ranges
      ensures r.Done? ==>
        && Valid(g, host) && MapAllowed(old(tables), old(pages), va, Page4K, true, false)
        && GotPage(old(State(g, host)), State(g, host), va, Page4K, entry, NOTHING)
        && AccountKept(old(g.npt.State(host)), g.npt.State(host))
        && Grants(entry, write, exec, false) && Holds(g.Words(host), AddressOf(entry), 4096, ContentOf(init), 0)
      ensures r.Refused? ==> pages == old(pages) && !MapAllowed(old(tables), old(pages), va, Page4K, true, false)
      ensures r.Panicked? ==> pages == old(pages) && (host.Exhausted() || g.address > GUEST_BYTES)
    {
      hide IsTree, Separate, Owned, OwnedPagesFit, Mapped, Starved, GuestWords, MapAllowed, Holds, TookPage, Allocated, ZeroedPage,
           OwnedEntry, Grants, GotPage, AccountKept;
      entry := 0;
      if va % 4096 != 0 { MisalignedIsNotAllowed(tables, pages, va); return Refused, entry; }
      ghost var start := State(g, host);
      var page := g.AllocPageZeroed(host);
      if !page.Done? { return Panicked, entry; }
      ghost var zeroed, host1 := State(g, host), g.npt.State(host);
      FreshBlock(start, zeroed, table, page.value);
      if init.Some? {
        FillPage(g, host, page.value, init.value);
      }
      ghost var taken, host2 := State(g, host), g.npt.State(host);
      StoresKeepAccount(host1, host2);
      AccountComposes(old(g.npt.State(host)), host1, host2);
      FilledPageIsTaken(start, zeroed, taken, page.value, 4096, NOTHING);
      TreeIgnoresTakenPage(start, taken, table, page.value, 4096, NOTHING);
      OwnedEntryBits(page.value, Page4K, write, exec, false);
      entry := OwnedEntry(page.value, Page4K, write, exec, false);
      r := MapRawInternal(g, host, va, OwnedEntry(page.value, Page4K, write, exec, false));
      TakenPageHasSameTree(start, taken, page.value);
      if !r.Done? { return; }
      AccountComposes(old(g.npt.State(host)), host2, g.npt.State(host));
      MappedPageIsGot(start, taken, State(g, host), table, va, Page4K, entry, NOTHING, NOTHING);
      TakenPageKeepsContents(start, taken, State(g, host), table, page.value, 4096, NOTHING, ContentOf(init), 0, va, Page4K, entry, NOTHING);
      assert NOTHING + NOTHING == NOTHING;
    }

    /** The processor's walk over the guest's tables: where `va` is, and whether it may be written. */
    method Walk(g: GuestMemory, host: PhysicalMemory, va: u64) returns (r: Option<(u64, bool)>)
      requires Valid(g, host)
      ensures r.None? <==> !HardwareCanonical(va) || Translation(pages, va).None?
      ensures r.Some? ==> Translation(pages, va) == Some(r.value.0) && (r.value.1 <==> Writable(Lookup(pages, va).value.entry))
    {
      hide IsTree, Separate, Owned, OwnedPagesFit, Lookup, GuestWords, Writable;
      if !HardwareCanonical(va) { return None; }
      HardwareCanonicalPages(va, va, 4);
      ghost var s := State(g, host);
      NothingGrown(s, s.mem, table, va);
      var current := table;
      var depth := 0;
      while depth < 4
        invariant depth <= 3
        invariant PathOf(va, depth) in tables && tables[PathOf(va, depth)] == current
      {
        EntryIsAllocated(s, table, g.address, va, depth);
        WalkEntry(s.mem, table, tables, pages, va, depth);
        var e := g.ReadWord(host, current + Index(va, depth) * 8);
        if !Present(e.value) {
          LookupFails(s.mem, table, tables, pages, va, depth + 1);
          return None;
        }
        if depth == 3 || Large(e.value) {
          LookupFinds(s.mem, table, tables, pages, va, depth + 1);
          var rest := match depth case 1 => va % 0x4000_0000 case 2 => va % 0x20_0000 case _ => va % 0x1000;
          return Some((AddressOf(e.value) + rest, Writable(e.value)));
        }
        current := AddressOf(e.value);
        depth := depth + 1;
      }
    }

    /** The processor stores a byte for the guest. The guest reaches its own pages only, so that its tables
        stay what they were. */
    method Store(g: GuestMemory, host: PhysicalMemory, ghost va: u64, x: u64, b: byte)
      requires Valid(g, host) && OnlyOwnedPages(pages) && Translation(pages, va) == Some(x)
      modifies host.words
      ensures Valid(g, host) && x < g.address
      ensures State(g, host) == old(State(g, host)).(mem := old(State(g, host)).mem[x / 8 := SetByte(old(State(g, host)).mem[x / 8], x % 8, b)])
    {
      hide IsTree, Separate, Owned, OwnedPagesFit, GuestWords, Translation, SetByte;
      ghost var before := State(g, host);
      GuestWalkFinds(before, table, va);
      OwnedIsAllocated(before, table, g.address, PathOf(va, 4), x);
      g.WriteByte(host, x, b);
      StoreKeepsTree(before, State(g, host), table, PathOf(va, 4), x);
    }
  }

  lemma MisalignedIsNotAllowed(tables: Tables, pages: Pages, va: u64)
    requires va % 4096 != 0
    ensures !MapAllowed(tables, pages, va, Page4K, true, false)
  {
  }

  lemma TakenPageHasSameTree(a: Snapshot, z: Snapshot, page: u64)
    requires TookPage(a, z, page, 4096, NOTHING)
    ensures z.tables == a.tables && z.pages == a.pages
  {
  }

  lemma RootIsSound(mem: Memory, frame: u64)
    requires |mem| == GUEST_WORDS && frame % 4096 == 0 && frame + 4096 <= GUEST_BYTES
    requires forall w :: frame / 8 <= w < frame / 8 + 512 ==> mem[w] == 0
    ensures var g := Snapshot(mem, GuestFree(frame + 4096), NOTHING, map[Root := frame], map[]);
      GuestSound(g, frame, frame + 4096) && Owned(g.tables, g.pages) == Span(frame, 4096)
  {
    hide Owned;
    EmptyTree(mem, frame);
    OwnedByRoot(frame);
  }
}
