/** The page-table code (libs/page_table), proved against the abstract map of pages. */
module PageTables {
  import opened MachineInts
  import opened RangeSets
  import opened PhysicalMemories
  import opened PageTrees
  import opened PageMaps
  import opened PageSnapshots
  import opened PageRegions
  import opened PageTeardowns

  class PageTable {
    /** Physical address of the root table. */
    const table: u64

    /** The table frames and the pages in the tree, by position. */
    ghost var tables: Tables
    ghost var pages: Pages

    ghost predicate Valid(m: PhysicalMemory)
      reads this, m, m.words, m.free, m.free.ranges
    {
      && m.Valid()
      && IsTree(m.words[..], table, tables, pages)
      && Separate(tables, pages) && OwnedPagesFit(pages, m.regionSize)
      && Owned(tables, pages) !! m.Free() && Owned(tables, pages) !! m.lost
    }

    ghost function OwnedBytes(): iset<int>
      reads this
    {
      Owned(tables, pages)
    }

    /** How many tables and pages the tree has. */
    ghost function Weight(): nat
      reads this
    {
      |tables| + |pages|
    }

    ghost function State(m: PhysicalMemory): Snapshot
      requires m.free.used <= m.free.ranges.Length
      reads this, m, m.words, m.free, m.free.ranges
    {
      Snapshot(m.words[..], m.Free(), m.lost, tables, pages)
    }

    constructor Adopt(table: u64)
      ensures this.table == table && tables == map[Root := table] && pages == map[]
    {
      this.table := table;
      tables, pages := map[Root := table], map[];
    }

    /** `new`: an empty tree in one zeroed frame. */
    static method New(m: PhysicalMemory) returns (r: Attempt<PageTable>, ghost waste: iset<int>)
      requires m.Valid()
      modifies m, m.words, m.free, m.free.ranges
      ensures r.Done? ==>
        && fresh(r.value) && r.value.Valid(m) && r.value.pages == map[]
        && Allocated(old(m.Free()), m.Free(), r.value.OwnedBytes(), waste)
        && m.lost == old(m.lost) + waste
        && ChangesOnly(old(m.words[..]), m.words[..], old(m.Free()), map[])
      ensures r.Done? ==> r.value.Weight() == 1
      ensures !r.Panicked? ==> m.Valid() && (r.Refused? <==> old(m.CannotServe(Page4K)))
      ensures r.Refused? ==> m.Free() == old(m.Free()) && m.lost == old(m.lost)
      ensures m.free.used <= old(m.free.used) + 1 && (r.Panicked? ==> m.free.used == CAPACITY)
      ensures m.invalidated == old(m.invalidated)
    {
      var frame;
      frame, waste := m.AllocPageZeroed(Page4K);
      if frame.Refused? { return Refused, waste; }
      if frame.Panicked? { return Panicked, waste; }
      var pt := new PageTable.Adopt(frame.value);
      ZeroedPageIsFresh(old(m.words[..]), m.words[..], frame.value, 4096, old(m.Free()), map[]);
      EmptyTree(m.words[..], frame.value);
      OwnedByRoot(frame.value);
      return Done(pt), waste;
    }

    /** Link a new, zeroed table into the empty entry `i` of the table at position `p`. */
    method AddTable(m: PhysicalMemory, word: nat, ghost p: Path, ghost i: nat)
      returns (r: Attempt<()>, ghost waste: iset<int>)
      requires Valid(m) && p in tables && Depth(p) < 3 && i < 512
      requires word == Slot(tables[p], i) && word < m.words.Length && !Present(m.words[word])
      modifies this, m, m.words, m.free, m.free.ranges
      ensures m.invalidated == old(m.invalidated)
      ensures m.free.used <= old(m.free.used) + 1 && (r.Panicked? ==> m.free.used == CAPACITY)
      ensures !r.Panicked? ==> (r.Refused? <==> old(m.CannotServe(Page4K)))
      ensures r.Refused? ==> Valid(m) && State(m) == old(State(m)) && waste == iset{}
      ensures r.Done? ==>
        && Valid(m) && Linked(old(State(m)), State(m), Sub(p, i), waste) && |tables| == |old(tables)| + 1
        && AddressOf(m.words[word]) == tables[Sub(p, i)]
    {
      hide IsTree, Separate, Owned, WellFormed, ZeroedPage, Linked;
      var frame;
      ghost var before := State(m);
      frame, waste := m.AllocPageZeroed(Page4K);
      if frame.Refused? {
        waste := iset{};
        return Refused, waste;
      }
      if frame.Panicked? { return Panicked, waste; }
      var t := frame.value;
      ghost var zeroed := State(m);
      ZeroedFrameIsLinked(before, zeroed, table, p, i, t, waste);
      m.words[word] := t + (PAGE_PRESENT + PAGE_USER + PAGE_WRITE);
      assert m.words[..] == zeroed.mem[word := TableEntry(t)];
      tables := tables[Sub(p, i) := t];
      return Done(()), waste;
    }

    /** One turn of the loop of `map_raw_internal` above the last level: the next table on the
        way of `va`, allocated when it is missing and `add` is set. */
    method Descend(m: PhysicalMemory, va: u64, depth: nat, current: u64, add: bool)
      returns (r: Attempt<u64>, ghost waste: iset<int>)
      requires Valid(m) && depth < 3 && PathOf(va, depth) in tables && tables[PathOf(va, depth)] == current
      modifies this, m, m.words, m.free, m.free.ranges
      ensures m.invalidated == old(m.invalidated)
      ensures m.free.used <= old(m.free.used) + 1 && (r.Panicked? ==> m.free.used == CAPACITY)
      ensures !r.Panicked? ==>
        Valid(m) && Grown(old(State(m)), State(m), va, depth + 1, waste) && |tables| <= |old(tables)| + 1
      ensures r.Done? ==>
        && PathOf(va, depth + 1) in tables && tables[PathOf(va, depth + 1)] == r.value
        && (!add ==> tables == old(tables))
      ensures r.Panicked? ==> add && PathOf(va, depth + 1) !in old(tables)
      ensures PathOf(va, depth + 1) in old(tables) ==> State(m) == old(State(m)) && waste == iset{}
      ensures r.Refused? ==>
        && tables == old(tables)
        && (PathOf(va, depth + 1) in pages
            || (PathOf(va, depth + 1) !in tables && (!add || m.CannotServe(Page4K))))
    {
      hide IsTree, Separate, OwnedPagesFit, Grown, Owned, WellFormed;
      waste := iset{};
      WalkEntry(m.words[..], table, tables, pages, va, depth);
      NothingGrownYet(State(m), va, depth + 1);
      var word := m.Translate(current + Index(va, depth) * 8, 8);
      if word.None? { return Refused, waste; }
      var e := m.words[word.value];
      if !Present(e) {
        if !add { return Refused, waste; }
        var added;
        added, waste := AddTable(m, word.value, PathOf(va, depth), Index(va, depth));
        if added.Panicked? { return Panicked, waste; }
        if added.Refused? { return Refused, waste; }
        OneTableGrown(old(State(m)), State(m), va, depth + 1, waste);
      } else if Large(e) {
        return Refused, waste;
      }
      return Done(AddressOf(m.words[word.value])), waste;
    }

    /** The loop of `map_raw_internal`: the last-level table for `va`. */
    method LastTable(m: PhysicalMemory, va: u64, last: nat, add: bool)
      returns (r: Attempt<u64>, ghost waste: iset<int>)
      requires Valid(m) && 1 <= last <= 3
      modifies this, m, m.words, m.free, m.free.ranges
      ensures m.invalidated == old(m.invalidated)
      ensures m.free.used <= old(m.free.used) + last && (r.Panicked? ==> m.free.used == CAPACITY)
      ensures !r.Panicked? ==>
        Valid(m) && Grown(old(State(m)), State(m), va, last, waste) && |tables| <= |old(tables)| + last
      ensures r.Done? ==>
        && PathOf(va, last) in tables && tables[PathOf(va, last)] == r.value
        && (!add ==> tables == old(tables))
      ensures r.Panicked? ==> add && PathOf(va, last) !in old(tables)
      ensures PathOf(va, last) in old(tables) ==> State(m) == old(State(m)) && waste == iset{}
      ensures r.Refused? ==>
        || (exists k: nat :: 1 <= k <= last && PathOf(va, k) in pages)
        || (PathOf(va, last) !in tables && (!add || m.CannotServe(Page4K)))
    {
      hide IsTree, Separate, OwnedPagesFit, Grown, Owned, WellFormed, Starved, Index, PathOf;
      waste := iset{};
      var current := table;
      var depth := 0;
      NothingGrown(State(m), m.words[..], table, va);
      while depth < last
        invariant depth <= last
        invariant Valid(m) && m.invalidated == old(m.invalidated)
        invariant PathOf(va, depth) in tables && tables[PathOf(va, depth)] == current
        invariant Grown(old(State(m)), State(m), va, depth, waste)
        invariant !add ==> tables == old(tables)
        invariant m.free.used <= old(m.free.used) + depth && |tables| <= |old(tables)| + depth
        invariant PathOf(va, last) in old(tables) ==> State(m) == old(State(m)) && waste == iset{}
      {
        if PathOf(va, last) in old(tables) {
          NoPageAboveTable(m.words[..], table, tables, pages, va, depth + 1, last);
        }
        ghost var was := State(m);
        TablesAreAligned(m.words[..], table, tables, pages);
        var next;
        ghost var more;
        next, more := Descend(m, va, depth, current, add);
        if next.Panicked? {
          MissingFromStart(old(State(m)), was, old(m.words[..]), table, va, depth, last, waste);
          return Panicked, waste;
        }
        GrownCompose(old(State(m)), was, State(m), va, depth, waste, more);
        waste := waste + more;
        if next.Refused? {
          MissingBelow(m.words[..], table, tables, pages, va, depth + 1, last);
          GrownFurther(old(State(m)), State(m), va, depth + 1, last, waste);
          return Refused, waste;
        }
        current := next.value;
        depth := depth + 1;
      }
      return Done(current), waste;
    }

    /** The last turn of the loop of `map_raw_internal`: write the entry, unless it is in use and
        `update` is not set. */
    method WriteLastEntry(m: PhysicalMemory, va: u64, t: PageType, entry: u64, update: bool, current: u64,
                          ghost start: Snapshot, ghost waste: iset<int>)
      returns (r: Attempt<()>)
      requires Valid(m) && Grown(start, State(m), va, LeafDepth(t) - 1, waste)
      requires PathOf(va, LeafDepth(t) - 1) in tables && tables[PathOf(va, LeafDepth(t) - 1)] == current
      requires t != Page4K ==> Large(entry)
      requires Deallocate(entry) ==> Nobody(start, Span(AddressOf(entry), t.Size())) && AddressOf(entry) + t.Size() <= m.regionSize
      modifies this, m, m.words
      ensures Valid(m)
      ensures r.Refused? <==> !update && (PathOf(va, LeafDepth(t)) in old(tables) || PathOf(va, LeafDepth(t)) in old(pages))
      ensures r.Refused? ==> State(m) == old(State(m)) && m.invalidated == old(m.invalidated)
      ensures !r.Refused? ==>
        && r.Done? && m.Free() == old(m.Free()) && Weight() <= old(Weight()) + 1 && tables == Outside(old(tables), PathOf(va, LeafDepth(t)))
        && Mapped(start, State(m), va, t, entry, waste)
        && m.invalidated == old(m.invalidated) + Reported(old(tables), old(pages), va, t, m.usizeMax)
    {
      hide IsTree, Separate, OwnedPagesFit, Grown, Mapped, Owned, WellFormed, Outside, Nobody;
      var last := LeafDepth(t) - 1;
      WalkEntry(m.words[..], table, tables, pages, va, last);
      var word := m.Translate(current + Index(va, last) * 8, 8);
      var e := m.words[word.value];
      if Present(e) && !update { return Refused; }

      WriteEntry(m, va, t, entry, word.value, start, waste);
      if Present(e) && va <= m.usizeMax {
        m.invalidated := m.invalidated + [va];
      }
      return Done(());
    }

    /** The store of a last-level entry. What stood below it is lost. */
    method WriteEntry(m: PhysicalMemory, va: u64, t: PageType, entry: u64, word: nat, ghost start: Snapshot, ghost waste: iset<int>)
      requires Valid(m) && Grown(start, State(m), va, LeafDepth(t) - 1, waste)
      requires PathOf(va, LeafDepth(t) - 1) in tables && word < m.words.Length
      requires word == Slot(tables[PathOf(va, LeafDepth(t) - 1)], Index(va, LeafDepth(t) - 1))
      requires t != Page4K ==> Large(entry)
      requires Deallocate(entry) ==> Nobody(start, Span(AddressOf(entry), t.Size())) && AddressOf(entry) + t.Size() <= m.regionSize
      modifies this, m`lost, m.words
      ensures Valid(m) && tables == Outside(old(tables), PathOf(va, LeafDepth(t)))
      ensures Mapped(start, State(m), va, t, entry, waste) && Weight() <= old(Weight()) + 1
    {
      hide IsTree, Separate, OwnedPagesFit, Grown, Mapped, Owned, WellFormed, Outside, WithLeaf, PathOf, Index, Nobody;
      ghost var c, before := PathOf(va, LeafDepth(t)), State(m);
      LastEntryWritten(start, before, table, va, t, entry, word, waste, m.regionSize);
      m.words[word] := entry;
      m.lost := m.lost + OwnedUnder(tables, pages, c);
      LeafWeighsOne(tables, pages, c, entry);
      tables, pages := Outside(tables, c), WithLeaf(pages, c, entry);
      assert m.words[..] == before.mem[word := entry];
    }

    /** `map_raw_internal`: set the entry that describes `va`. */
    method MapRawInternal(m: PhysicalMemory, va: u64, t: PageType, raw: u64, add: bool, update: bool, deallocate: bool)
      returns (r: Attempt<()>, ghost waste: iset<int>)
      requires Valid(m) && !Deallocate(raw)
      requires deallocate ==> MayOwn(m, raw, t)
      modifies this, m, m.words, m.free, m.free.ranges
      ensures !r.Panicked? ==> Valid(m)
      ensures r.Done? ==>
        && MapAllowed(old(tables), old(pages), va, t, add, update)
        && Mapped(old(State(m)), State(m), va, t, FinalEntry(raw, t, deallocate), waste)
        && m.invalidated == old(m.invalidated) + Reported(old(tables), old(pages), va, t, m.usizeMax)
      ensures m.free.used <= old(m.free.used) + LeafDepth(t) - 1 && (r.Panicked? ==> m.free.used == CAPACITY)
      ensures !update && !r.Panicked? ==> m.invalidated == old(m.invalidated)
      ensures !r.Panicked? ==> Weight() <= old(Weight()) + LeafDepth(t)
      ensures r.Refused? ==>
        && Grown(old(State(m)), State(m), va, LeafDepth(t) - 1, waste) && pages == old(pages)
        && m.invalidated == old(m.invalidated)
        && (!MapAllowed(old(tables), old(pages), va, t, add, update)
            || (PathOf(va, LeafDepth(t) - 1) !in tables && m.CannotServe(Page4K)))
      ensures r.Panicked? ==> add && PathOf(va, LeafDepth(t) - 1) !in old(tables)
      ensures r.Done? && PathOf(va, LeafDepth(t) - 1) in old(tables) ==>
                waste == iset{} && m.Free() == old(m.Free()) && tables == Outside(old(tables), PathOf(va, LeafDepth(t)))
    {
      hide IsTree, Separate, OwnedPagesFit, Grown, Mapped, Owned, WellFormed, Starved, Outside, PathOf, Index, Nobody, Reported,
           OrSize, OrDeallocate, Large, Present, AddressOf, SameMeaning;
      waste := iset{};
      NothingGrownYet(State(m), va, LeafDepth(t) - 1);
      var entry := raw;
      if deallocate { entry := OrDeallocate(entry); }
      if t != Page4K { entry := OrSize(entry); }
      FinalEntryBits(raw, t, deallocate);
      SameAddress(entry, raw);
      if !IsCanonical(va) { return Refused, waste; }
      if t.Rest(va) != 0 { return Refused, waste; }
      r, waste := MapEntry(m, va, t, entry, add, update);
    }

    /** The loop of `map_raw_internal`. */
    method MapEntry(m: PhysicalMemory, va: u64, t: PageType, entry: u64, add: bool, update: bool)
      returns (r: Attempt<()>, ghost waste: iset<int>)
      requires Valid(m) && IsCanonical(va) && t.Rest(va) == 0 && (t != Page4K ==> Large(entry))
      requires Deallocate(entry) ==> Nobody(State(m), Span(AddressOf(entry), t.Size())) && AddressOf(entry) + t.Size() <= m.regionSize
      modifies this, m, m.words, m.free, m.free.ranges
      ensures !r.Panicked? ==> Valid(m)
      ensures r.Done? ==>
        && MapAllowed(old(tables), old(pages), va, t, add, update)
        && Mapped(old(State(m)), State(m), va, t, entry, waste)
        && m.invalidated == old(m.invalidated) + Reported(old(tables), old(pages), va, t, m.usizeMax)
      ensures m.free.used <= old(m.free.used) + LeafDepth(t) - 1 && (r.Panicked? ==> m.free.used == CAPACITY)
      ensures !update && !r.Panicked? ==> m.invalidated == old(m.invalidated)
      ensures !r.Panicked? ==> Weight() <= old(Weight()) + LeafDepth(t)
      ensures r.Refused? ==>
        && Grown(old(State(m)), State(m), va, LeafDepth(t) - 1, waste) && pages == old(pages)
        && m.invalidated == old(m.invalidated)
        && (!MapAllowed(old(tables), old(pages), va, t, add, update)
            || (PathOf(va, LeafDepth(t) - 1) !in tables && m.CannotServe(Page4K)))
      ensures r.Panicked? ==> add && PathOf(va, LeafDepth(t) - 1) !in old(tables)
      ensures r.Done? && PathOf(va, LeafDepth(t) - 1) in old(tables) ==>
                waste == iset{} && m.Free() == old(m.Free()) && tables == Outside(old(tables), PathOf(va, LeafDepth(t)))
    {
      hide IsTree, Separate, OwnedPagesFit, Grown, Mapped, Owned, WellFormed, Starved, Outside, PathOf, Index, Nobody, Large, AddressOf,
           Deallocate, LeafDepth, OwnedUnder, MapAllowed, Reported, IsCanonical;
      var last := LeafDepth(t) - 1;
      var current;
      current, waste := LastTable(m, va, last, add);
      if current.Panicked? { return Panicked, waste; }
      GrownKeeps(old(State(m)), State(m), va, last, waste);
      if current.Refused? {
        NoLastTable(old(State(m)), State(m), va, t, add, update, m.CannotServe(Page4K));
        return Refused, waste;
      }
      LastTableFound(old(State(m)), State(m), table, va, t, add, update, m.usizeMax);
      r := WriteLastEntry(m, va, t, entry, update, current.value, old(State(m)), waste);
    }

    /** `map_raw`: like `map_raw_internal`, for pages that the tree does not own. */
    method MapRaw(m: PhysicalMemory, va: u64, t: PageType, raw: u64, add: bool, update: bool)
      returns (r: Attempt<()>, ghost waste: iset<int>)
      requires Valid(m) && !Deallocate(raw)
      modifies this, m, m.words, m.free, m.free.ranges
      ensures !r.Panicked? ==> Valid(m)
      ensures r.Done? ==>
        && MapAllowed(old(tables), old(pages), va, t, add, update)
        && Mapped(old(State(m)), State(m), va, t, FinalEntry(raw, t, false), waste)
        && m.invalidated == old(m.invalidated) + Reported(old(tables), old(pages), va, t, m.usizeMax)
      ensures m.free.used <= old(m.free.used) + LeafDepth(t) - 1 && (r.Panicked? ==> m.free.used == CAPACITY)
      ensures !update && !r.Panicked? ==> m.invalidated == old(m.invalidated)
      ensures !r.Panicked? ==> Weight() <= old(Weight()) + LeafDepth(t)
      ensures r.Refused? ==>
        && Grown(old(State(m)), State(m), va, LeafDepth(t) - 1, waste) && pages == old(pages)
        && m.invalidated == old(m.invalidated)
        && (!MapAllowed(old(tables), old(pages), va, t, add, update)
            || (PathOf(va, LeafDepth(t) - 1) !in tables && m.CannotServe(Page4K)))
      ensures r.Panicked? ==> add && PathOf(va, LeafDepth(t) - 1) !in old(tables)
      ensures r.Done? && PathOf(va, LeafDepth(t) - 1) in old(tables) ==>
                waste == iset{} && m.Free() == old(m.Free()) && tables == Outside(old(tables), PathOf(va, LeafDepth(t)))
    {
      r, waste := MapRawInternal(m, va, t, raw, add, update, false);
    }

    /** The loop of `map_init` that asks `init` for every byte of a page. */
    method FillPage(m: PhysicalMemory, page: u64, size: nat, init: nat -> byte, offset: nat)
      requires m.Valid() && page % 4096 == 0 && size % 4096 == 0 && page + size <= m.regionSize
      modifies m.words
      ensures Holds(m.words[..], page, size, init, offset)
      ensures forall w :: 0 <= w < m.words.Length && m.words[w] != old(m.words[w]) ==> 8 * w in Span(page, size)
    {
      ghost var n := page / 4096;
      Divides(page, 8, 512 * n, 0);
      for j := 0 to size
        modifies m.words
        invariant forall k: nat :: k < j ==> HoldsAt(m.words[..], page, init, offset, k)
        invariant forall w :: 0 <= w < m.words.Length && m.words[w] != old(m.words[w]) ==> 8 * w in Span(page, size)
      {
        ghost var before := m.words[..];
        m.WriteByte(page + j, init(offset + j));
        assert InSpan(page, size, 8 * ((page + j) / 8));
        forall k: nat | k <= j ensures HoldsAt(m.words[..], page, init, offset, k) {
          if k < j {
            assert HoldsAt(before, page, init, offset, k);
            SameWordOtherByte(page, j, k);
          }
        }
      }
    }

    /** The first half of a turn of the loop of `map_init`: allocate a page and fill it. */
    method TakePage(m: PhysicalMemory, t: PageType, init: Option<nat -> byte>, offset: nat)
      returns (r: Attempt<u64>, ghost waste: iset<int>)
      requires Valid(m)
      modifies m, m.words, m.free, m.free.ranges
      ensures !r.Panicked? ==> Valid(m) && tables == old(tables) && pages == old(pages)
      ensures m.invalidated == old(m.invalidated)
      ensures !r.Panicked? ==> (r.Refused? <==> old(m.CannotServe(t)))
      ensures r.Refused? ==> State(m) == old(State(m))
      ensures m.free.used <= old(m.free.used) + 1 && (r.Panicked? ==> m.free.used == CAPACITY)
      ensures r.Done? ==>
        && TookPage(old(State(m)), State(m), r.value, t.Size(), waste)
        && Holds(m.words[..], r.value, t.Size(), ContentOf(init), offset)
        && r.value % 4096 == 0 && r.value + t.Size() <= m.regionSize
        && Nobody(State(m), Span(r.value, t.Size()))
    {
      hide IsTree, Separate, OwnedPagesFit, Owned, WellFormed, Holds, TookPage;
      ghost var start := State(m);
      r, waste := m.AllocPageZeroed(t);
      if !r.Done? { return; }
      ghost var zeroed := State(m);
      ZeroedPageHoldsZeros(start.mem, zeroed.mem, r.value, t.Size(), offset);
      ZeroedPageIsTaken(start, zeroed, r.value, t.Size(), waste);
      if init.Some? {
        FillPage(m, r.value, t.Size(), init.value, offset);
      }
      FilledPageIsTaken(start, zeroed, State(m), r.value, t.Size(), waste);
      TreeIgnoresTakenPage(start, State(m), table, r.value, t.Size(), waste);
      TakesOver(start.free, m.Free(), Span(r.value, t.Size()), waste, OwnedBytes(), start.lost);
    }

    /** One turn of the loop of `map_init`: allocate a page, fill it and map it. The page is
        lost when it cannot be mapped. */
    method MapPage(m: PhysicalMemory, va: u64, t: PageType, write: bool, exec: bool, user: bool,
                   init: Option<nat -> byte>, offset: nat)
      returns (r: Attempt<()>, ghost entry: u64, ghost waste: iset<int>)
      requires Valid(m)
      modifies this, m, m.words, m.free, m.free.ranges
      ensures !r.Panicked? ==> Valid(m)
      ensures r.Done? ==>
        && MapAllowed(old(tables), old(pages), va, t, true, false)
        && GotPage(old(State(m)), State(m), va, t, entry, waste)
        && Grants(entry, write, exec, user) && AddressOf(entry) + t.Size() <= m.regionSize
        && Holds(m.words[..], AddressOf(entry), t.Size(), ContentOf(init), offset)
      ensures r.Refused? ==> PageRefused(old(State(m)), State(m), va, t, waste)
      ensures !r.Panicked? ==> m.invalidated == old(m.invalidated)
      ensures m.free.used <= old(m.free.used) + LeafDepth(t) && (r.Panicked? ==> m.free.used == CAPACITY)
      ensures !r.Panicked? ==> Weight() <= old(Weight()) + LeafDepth(t)
    {
      hide IsTree, Separate, OwnedPagesFit, Owned, WellFormed, Mapped, Grown, GotPage, Kept, MapAllowed, Holds, TookPage, Reported,
           PageRaw, FinalEntry, AddressOf, Present, Large, Deallocate, Grants, PageRefused, Starved;
      ghost var start := State(m);
      entry := 0;
      var page;
      page, waste := TakePage(m, t, init, offset);
      if page.Panicked? { return Panicked, entry, waste; }
      if page.Refused? {
        waste := iset{};
        PageNotServed(start, va, t);
        return Refused, entry, waste;
      }
      var raw := PageRaw(page.value, t, write, exec, user);
      PageRawBits(page.value, t, write, exec, user);
      OwnedEntryBits(page.value, t, write, exec, user);
      entry := OwnedEntry(page.value, t, write, exec, user);
      ghost var taken := State(m);
      var mapped;
      ghost var more;
      mapped, more := MapRawInternal(m, va, t, raw, true, false, true);
      if mapped.Panicked? { return Panicked, entry, waste; }
      if mapped.Refused? {
        UnmappedPageIsLost(start, taken, State(m), page.value, va, t, LeafDepth(t) - 1, waste, more);
        m.lost := m.lost + Span(page.value, t.Size());
        waste := waste + more + Span(page.value, t.Size());
        return Refused, entry, waste;
      }
      MappedPageIsGot(start, taken, State(m), table, va, t, entry, waste, more);
      TakenPageKeepsContents(start, taken, State(m), table, page.value, t.Size(), waste, ContentOf(init), offset, va, t, entry, more);
      waste := waste + more;
      return Done(()), entry, waste;
    }

    /** `map_init`: map a region with fresh pages, filled by `init` or zeroed. A failing call keeps
        the pages it has mapped and loses the one it could not map. */
    method MapInit(m: PhysicalMemory, va: u64, t: PageType, size: u64, write: bool, exec: bool, user: bool,
                   init: Option<nat -> byte>)
      returns (r: Attempt<()>, ghost entries: seq<u64>, ghost waste: iset<int>)
      requires Valid(m)
      modifies this, m, m.words, m.free, m.free.ranges
      ensures !r.Panicked? ==> Valid(m) && va + Offset(t, |entries|) <= TWO_64 && m.invalidated == old(m.invalidated)
      ensures r.Done? ==>
        && size == Offset(t, |entries|)
        && GotPages(old(State(m)), State(m), va, t, entries, waste)
        && RegionReady(m.words[..], t, entries, ContentOf(init), write, exec, user)
      ensures r.Refused? ==> RegionFails(old(State(m)), State(m), va, t, size, entries, waste)
      ensures size == 0 || size % t.Size() != 0 || va % t.Size() != 0 || va + size > TWO_64 ==>
                r.Refused? && State(m) == old(State(m))
      ensures r.Refused? && size > 0 && size % t.Size() == 0 && va % t.Size() == 0 && va + size <= TWO_64 ==>
                PageStops(old(State(m)), State(m), va, t, size, entries, waste)
      ensures r.Panicked? ==> m.free.used == CAPACITY && !BadRegion(va, t, size) && Offset(t, |entries|) < size
      ensures m.free.used <= old(m.free.used) + 4 * |entries| + 4
      ensures !r.Panicked? ==> Weight() <= old(Weight()) + 4 * |entries| + 4
    {
      hide IsTree, Separate, OwnedPagesFit, Owned, WellFormed, GotPage, GotPages, Kept, MapAllowed, Holds, PathOf,
           AddressOf, Grants, RegionReady, RegionFails, PageRefused, PageStops, BadRegion;
      entries, waste := [], iset{};
      GuardMeansBad(va, t, size);
      if BadRegion(va, t, size) { RegionIsBad(State(m), va, t, size); }
      GotPagesStart(State(m), va, t);
      RegionReadyStart(m.words[..], t, ContentOf(init), write, exec, user);
      if size == 0 || t.Rest(size) != 0 || t.Rest(va) != 0 { return Refused, entries, waste; }
      var end := CheckedAdd(va, size - 1);
      if end.None? { return Refused, entries, waste; }

      var offset := 0;
      while offset < size
        invariant offset == Offset(t, |entries|) <= size
        invariant Valid(m) && GotPages(old(State(m)), State(m), va, t, entries, waste) && m.invalidated == old(m.invalidated)
        invariant RegionReady(m.words[..], t, entries, ContentOf(init), write, exec, user)
        invariant m.free.used <= old(m.free.used) + 4 * |entries| && Weight() <= old(Weight()) + 4 * |entries|
        decreases size - offset
      {
        OffsetStep(t, |entries|, size);
        TablesAreAligned(m.words[..], table, tables, pages);
        ghost var before := State(m);
        var page;
        ghost var entry, more;
        page, entry, more := MapPage(m, va + offset, t, write, exec, user, init, offset);
        if page.Panicked? { return Panicked, entries, waste; }
        if page.Refused? {
          FailedPageEndsRegion(old(State(m)), before, State(m), va, t, size, entries, waste, more);
          GoodRegionStops(old(State(m)), State(m), va, t, size, entries, waste + more);
          waste := waste + more;
          return Refused, entries, waste;
        }
        GotPagesStep(old(State(m)), before, State(m), va, t, entries, entry, waste, more);
        GotPageIsKept(before, State(m), va + offset, t, entry, more);
        RegionStaysReady(old(State(m)), before, State(m), table, va, t, entries, entry, waste, more,
                         ContentOf(init), write, exec, user);
        entries, waste := entries + [entry], waste + more;
        offset := offset + t.Size();
      }
      return Done(()), entries, waste;
    }

    /** `map`: a zeroed region. */
    method Map(m: PhysicalMemory, va: u64, t: PageType, size: u64, write: bool, exec: bool, user: bool)
      returns (r: Attempt<()>, ghost entries: seq<u64>, ghost waste: iset<int>)
      requires Valid(m)
      modifies this, m, m.words, m.free, m.free.ranges
      ensures !r.Panicked? ==> Valid(m) && va + Offset(t, |entries|) <= TWO_64 && m.invalidated == old(m.invalidated)
      ensures r.Done? ==>
        && size == Offset(t, |entries|)
        && GotPages(old(State(m)), State(m), va, t, entries, waste)
        && RegionReady(m.words[..], t, entries, _ => 0, write, exec, user)
      ensures r.Refused? ==> RegionFails(old(State(m)), State(m), va, t, size, entries, waste)
      ensures size == 0 || size % t.Size() != 0 || va % t.Size() != 0 || va + size > TWO_64 ==>
                r.Refused? && State(m) == old(State(m))
      ensures r.Refused? && size > 0 && size % t.Size() == 0 && va % t.Size() == 0 && va + size <= TWO_64 ==>
                PageStops(old(State(m)), State(m), va, t, size, entries, waste)
      ensures r.Panicked? ==> m.free.used == CAPACITY && !BadRegion(va, t, size) && Offset(t, |entries|) < size
      ensures m.free.used <= old(m.free.used) + 4 * |entries| + 4
      ensures !r.Panicked? ==> Weight() <= old(Weight()) + 4 * |entries| + 4
    {
      r, entries, waste := MapInit(m, va, t, size, write, exec, user, None);
    }

    /** `destroy_level`: free everything at and below the position `p`. */
    static method DestroyLevel(m: PhysicalMemory, depth: nat, table: u64,
                               ghost tables: Tables, ghost pages: Pages, ghost p: Path)
      returns (r: Attempt<()>)
      requires m.Valid() && Doomed(m.words[..], m.Free(), m.lost, tables, pages, m.regionSize, p)
      requires depth == Depth(p) && tables[p] == table
      modifies m.words, m.free, m.free.ranges
      ensures !r.Refused?
      ensures r.Done? ==> m.Valid() && m.Free() == old(m.Free()) + OwnedUnder(tables, pages, p)
      ensures r.Done? ==> ChangesUnder(old(m.words[..]), m.words[..], tables, p)
      ensures m.free.used <= old(m.free.used) + |PositionsUnder(tables, pages, p)|
      ensures r.Panicked? ==> m.free.used == CAPACITY && old(m.free.used) + |PositionsUnder(tables, pages, p)| > CAPACITY
      decreases 3 - depth, 1
    {
      hide Positions, Intact, IsWordUnder, Owned, OwnedUnder, OwnedUpTo, WellFormed, PositionsUnder, PositionsUpTo;
      ghost var before, free0 := m.words[..], m.Free();
      TopIsTable(before, tables, pages, p);
      var base := m.Translate(table, 4096);
      if base.None? { return Refused; }
      DestroyingStarts(before, free0, tables, pages, p);
      NothingUpToZero(tables, pages, p);
      for index := 0 to 512
        invariant m.Valid() && Destroying(before, free0, m.words[..], m.Free(), tables, pages, p, index)
        invariant m.free.used <= old(m.free.used) + |PositionsUpTo(tables, pages, p, index)|
        invariant index > 0 ==> |PositionsUpTo(tables, pages, p, index)| < |PositionsUnder(tables, pages, p)|
      {
        PositionsUpToStep(tables, pages, p, index);
        NextIsDoomed(before, free0, m.lost, m.words[..], m.Free(), tables, pages, m.regionSize, p, index);
        ghost var mem, free := m.words[..], m.Free();
        r := DestroyEntry(m, depth, base.value + index, tables, pages, p, index);
        if r.Panicked? { return; }
        DestroyingStep(before, free0, mem, free, m.words[..], m.Free(), tables, pages, p, index);
      }
      DestroyingEnds(before, free0, m.lost, m.words[..], m.Free(), tables, pages, m.regionSize, p);
      r := m.FreePhys(table, 4096);
    }

    /** One turn of the loop of `destroy_level`, for the entry in the given word. */
    static method DestroyEntry(m: PhysicalMemory, depth: nat, word: nat,
                               ghost tables: Tables, ghost pages: Pages, ghost p: Path, ghost index: nat)
      returns (r: Attempt<()>)
      requires m.Valid() && depth == Depth(p) <= 3 && Positions(tables, pages, m.regionSize)
      requires p in tables && index < 512 && word == Slot(tables[p], index) && word < m.words.Length
      requires EntryOk(m.words[word], depth, Sub(p, index), tables, pages)
      requires OwnedUnder(tables, pages, Sub(p, index)) !! m.Free() && OwnedUnder(tables, pages, Sub(p, index)) !! m.lost
      requires Sub(p, index) in tables ==>
                 Doomed(m.words[..], m.Free(), m.lost, tables, pages, m.regionSize, Sub(p, index))
      modifies m.words, m.free, m.free.ranges
      ensures !r.Refused?
      ensures r.Done? ==> m.Valid() && m.Free() == old(m.Free()) + OwnedUnder(tables, pages, Sub(p, index))
      ensures r.Done? ==> forall w :: 0 <= w < m.words.Length && m.words[w] != old(m.words[w]) ==>
                                        IsEntryOrBelow(tables, p, index, w)
      ensures m.free.used <= old(m.free.used) + |PositionsUnder(tables, pages, Sub(p, index))|
      ensures r.Panicked? ==>
        m.free.used == CAPACITY && old(m.free.used) + |PositionsUnder(tables, pages, Sub(p, index))| > CAPACITY
      decreases 3 - depth, 0
    {
      r := Done(());
      var e := m.words[word];
      ghost var c := Sub(p, index);
      if !Present(e) {
        EmptyEntryOwnsNothing(tables, pages, m.regionSize, c);
        return;
      }
      if depth == 3 || Large(e) {
        PageOwnsItsBlock(tables, pages, m.regionSize, c);
        if depth == 0 { return Refused; }
        var size := match depth case 1 => 0x4000_0000 case 2 => 0x20_0000 case _ => 0x1000;
        if Deallocate(e) {
          PageCounts(tables, pages, c);
          r := m.FreePhys(AddressOf(e), size);
        }
      } else {
        TableEntryBits(tables[c]);
        r := DestroyLevel(m, depth + 1, AddressOf(e), tables, pages, c);
      }
      if r.Done? { m.words[word] := 0; }
    }

    /** `destroy`: give back every frame and every owned page of the tree, each once. It panics only when
        the set of free memory has no room for them. */
    method Destroy(m: PhysicalMemory) returns (r: Attempt<()>)
      requires Valid(m)
      modifies m.words, m.free, m.free.ranges
      ensures !r.Refused?
      ensures m.free.used <= old(m.free.used) + Weight()
      ensures r.Panicked? ==> m.free.used == CAPACITY && old(m.free.used) + Weight() > CAPACITY
      ensures r.Done? ==> m.Valid() && m.Free() == old(m.Free()) + OwnedBytes()
      ensures r.Done? ==> forall w :: 0 <= w < m.words.Length && m.words[w] != old(m.words[w]) ==> IsTableWord(tables, w)
    {
      hide IsTree, Separate, OwnedPagesFit, WellFormed, Positions, Intact, IsWordUnder, PositionsUnder, OwnedUnder, Allocated;
      TreeHasPositions(m.words[..], table, tables, pages, m.regionSize);
      AllPositionsCount(tables, pages);
      RootIsAligned(m.words[..], table, tables, pages);
      r := DestroyLevel(m, 0, table % 0x10_0000_0000_0000 / 4096 * 4096, tables, pages, Root);
      if r.Done? {
        ChangesAreInTables(old(m.words[..]), m.words[..], tables);
      }
    }

    /** `virt_to_phys`: the walk finds what the abstract map says. */
    method VirtToPhys(m: PhysicalMemory, va: u64) returns (r: Option<u64>)
      requires Valid(m)
      ensures r == Translation(pages, va)
    {
      hide IsTree, Separate, OwnedPagesFit, Owned, WellFormed, Lookup;
      if !IsCanonical(va) { return None; }
      NothingGrown(State(m), m.words[..], table, va);
      var current := table;
      var depth := 0;
      while depth < 4
        invariant depth <= 3
        invariant PathOf(va, depth) in tables && tables[PathOf(va, depth)] == current
      {
        WalkEntry(m.words[..], table, tables, pages, va, depth);
        var word := m.Translate(current + Index(va, depth) * 8, 8);
        if word.None? { return None; }
        var e := m.words[word.value];
        if !Present(e) {
          LookupFails(m.words[..], table, tables, pages, va, depth + 1);
          return None;
        }
        if depth == 3 || Large(e) {
          if depth == 0 { return None; }
          LookupFinds(m.words[..], table, tables, pages, va, depth + 1);
          var rest := match depth case 1 => va % 0x4000_0000 case 2 => va % 0x20_0000 case _ => va % 0x1000;
          return Some(AddressOf(e) + rest);
        }
        current := AddressOf(e);
        depth := depth + 1;
      }
    }

    /** The page that `raw` names may become owned: it lies in memory and nobody else has it. */
    ghost predicate MayOwn(m: PhysicalMemory, raw: u64, t: PageType)
      requires m.free.used <= m.free.ranges.Length
      reads this, m, m.words, m.free, m.free.ranges
    {
      && Present(raw) && AddressOf(raw) + t.Size() <= m.regionSize
      && Nobody(State(m), Span(AddressOf(raw), t.Size()))
    }
  }

  /** The loop stopped above the last level. */
  lemma NoLastTable(a: Snapshot, b: Snapshot, va: u64, t: PageType, add: bool, update: bool, starved: bool)
    requires b.pages == a.pages && forall p :: p in a.tables ==> p in b.tables
    requires (exists k: nat :: 1 <= k <= LeafDepth(t) - 1 && PathOf(va, k) in b.pages)
      || (PathOf(va, LeafDepth(t) - 1) !in b.tables && (!add || starved))
    ensures !MapAllowed(a.tables, a.pages, va, t, add, update) || (PathOf(va, LeafDepth(t) - 1) !in b.tables && starved)
  {
  }

  /** The loop arrived at the last level. */
  lemma LastTableFound(a: Snapshot, b: Snapshot, root: u64, va: u64, t: PageType, add: bool, update: bool, usizeMax: u64)
    requires IsTree(b.mem, root, b.tables, b.pages) && PathOf(va, LeafDepth(t) - 1) in b.tables
    requires b.pages == a.pages && (!add ==> b.tables == a.tables)
    requires PathOf(va, LeafDepth(t)) in b.tables <==> PathOf(va, LeafDepth(t)) in a.tables
    requires IsCanonical(va) && t.Rest(va) == 0
    ensures MapAllowed(a.tables, a.pages, va, t, add, update) <==>
            update || !(PathOf(va, LeafDepth(t)) in b.tables || PathOf(va, LeafDepth(t)) in b.pages)
    ensures Reported(b.tables, b.pages, va, t, usizeMax) == Reported(a.tables, a.pages, va, t, usizeMax)
    ensures MapAllowed(a.tables, a.pages, va, t, add, false) ==> Reported(a.tables, a.pages, va, t, usizeMax) == []
  {
    hide IsTree, PathOf;
    OnlyTablesAbove(b.mem, root, b.tables, b.pages, va, LeafDepth(t) - 1);
  }

  /** What the checks in front of the loop of `map_init` find. */
  lemma GuardMeansBad(va: u64, t: PageType, size: u64)
    ensures BadRegion(va, t, size) <==>
            size == 0 || t.Rest(size) != 0 || t.Rest(va) != 0 || CheckedAdd(va, size - 1).None?
    ensures BadRegion(va, t, size) <==>
            size == 0 || size % t.Size() != 0 || va % t.Size() != 0 || va + size > TWO_64
  {
    BadRegionMeaning(va, t, size);
  }

  /** A new leaf adds at most one position. */
  lemma LeafWeighsOne(tables: Tables, pages: Pages, c: Path, e: u64)
    ensures |Outside(tables, c)| <= |tables| && |WithLeaf(pages, c, e)| <= |pages| + 1
  {
    OutsideIsNoLarger(tables, c);
    OutsideIsNoLarger(pages, c);
  }

  lemma OutsideIsNoLarger(m: map<Path, u64>, c: Path)
    ensures |Outside(m, c)| <= |m|
  {
    var rest := m - Outside(m, c).Keys;
    assert m.Keys == rest.Keys + Outside(m, c).Keys && rest.Keys !! Outside(m, c).Keys;
    assert |m.Keys| == |rest.Keys| + |Outside(m, c).Keys|;
  }

  lemma RootIsAligned(mem: Memory, root: u64, tables: Tables, pages: Pages)
    requires IsTree(mem, root, tables, pages)
    ensures Root in tables && tables[Root] == root && root % 0x10_0000_0000_0000 / 4096 * 4096 == root
  {
    assert TableOk(mem, tables, pages, Root);
  }

  lemma ChangesAreInTables(before: Memory, after: Memory, tables: Tables)
    requires ChangesUnder(before, after, tables, Root)
    ensures forall w :: 0 <= w < |after| && after[w] != before[w] ==> IsTableWord(tables, w)
  {
    forall w | 0 <= w < |after| && after[w] != before[w] ensures IsTableWord(tables, w) {
      assert IsWordUnder(tables, Root, w);
    }
  }

  lemma SameAddress(e: u64, raw: u64)
    requires SameMeaning(e, raw)
    ensures AddressOf(e) == AddressOf(raw) && (Present(e) <==> Present(raw))
  {
  }

  lemma SameWordOtherByte(page: nat, j: nat, k: nat)
    requires j != k
    ensures (page + j) / 8 == (page + k) / 8 ==> (page + j) % 8 != (page + k) % 8
  {
  }
}
