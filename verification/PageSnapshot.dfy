/** Steps of the page-table code, described on values: what changes between two moments. */
module PageSnapshots {
  import opened MachineInts
  import opened RangeSets
  import opened PhysicalMemories
  import opened PageTrees
  import opened PageMaps

  /** A memory may change at free words and at words of the given tables. */
  ghost predicate ChangesOnly(before: Memory, after: Memory, free: iset<int>, tables: Tables) {
    && |after| == |before|
    && forall w :: 0 <= w < |after| && after[w] != before[w] ==> 8 * w in free || IsTableWord(tables, w)
  }

  /** `after` has the tables `before` and possibly new ones, in formerly free frames, on the way
      of `va` and at most `depth` deep. */
  ghost predicate GrewOnTheWay(before: Tables, after: Tables, va: u64, depth: nat, free: iset<int>)
    requires depth <= 4
  {
    && (forall p :: p in before ==> p in after && after[p] == before[p])
    && (forall p :: p in after && p !in before ==>
          (exists k: nat :: 1 <= k <= depth && p == PathOf(va, k)) && Span(after[p], 4096) <= free)
  }

  /** The memory and one page table in it, at one moment. */
  datatype Snapshot = Snapshot(mem: Memory, free: iset<int>, lost: iset<int>, tables: Tables, pages: Pages)

  /** From `a` to `b` only tables on the way of `va` were added; `waste` was lost meanwhile. */
  ghost predicate Grown(a: Snapshot, b: Snapshot, va: u64, depth: nat, waste: iset<int>)
    requires depth <= 4
  {
    && b.pages == a.pages
    && GrewOnTheWay(a.tables, b.tables, va, depth, a.free)
    && ChangesOnly(a.mem, b.mem, a.free, a.tables)
    && b.free + Owned(b.tables, b.pages) + b.lost == a.free + Owned(a.tables, a.pages) + a.lost
    && b.free <= a.free && b.lost == a.lost + waste
    && (Paged(a.free) ==> waste == iset{} && Paged(b.free))
  }

  lemma NothingGrown(a: Snapshot, mem: Memory, root: u64, va: u64)
    requires IsTree(mem, root, a.tables, a.pages)
    ensures Grown(a, a, va, 0, iset{})
    ensures PathOf(va, 0) in a.tables && a.tables[PathOf(va, 0)] == root
  {
  }

  lemma NothingGrownYet(a: Snapshot, va: u64, depth: nat)
    requires depth <= 4
    ensures Grown(a, a, va, depth, iset{})
  {
  }

  /** From `a` to `b` one table was added, at position `c`. */
  ghost predicate Linked(a: Snapshot, b: Snapshot, c: Path, waste: iset<int>) {
    && b.pages == a.pages && c !in a.tables
    && c in b.tables && b.tables == a.tables[c := b.tables[c]] && Span(b.tables[c], 4096) <= a.free
    && ChangesOnly(a.mem, b.mem, a.free, a.tables)
    && b.free + Owned(b.tables, b.pages) + b.lost == a.free + Owned(a.tables, a.pages) + a.lost
    && b.free <= a.free && b.lost == a.lost + waste
    && (Paged(a.free) ==> waste == iset{} && Paged(b.free))
  }

  lemma OneTableGrown(a: Snapshot, b: Snapshot, va: u64, depth: nat, waste: iset<int>)
    requires 1 <= depth <= 4 && Linked(a, b, PathOf(va, depth), waste)
    ensures Grown(a, b, va, depth, waste)
  {
    assert forall q :: q in b.tables && q !in a.tables ==> q == PathOf(va, depth);
  }

  /** What the entry for `va` in a table of the tree says. */
  lemma WalkEntry(mem: Memory, root: u64, tables: Tables, pages: Pages, va: u64, depth: nat)
    requires IsTree(mem, root, tables, pages) && depth < 4 && PathOf(va, depth) in tables
    ensures depth <= 3 && Frame(mem, tables[PathOf(va, depth)])
    ensures (tables[PathOf(va, depth)] + Index(va, depth) * 8) / 8 == Slot(tables[PathOf(va, depth)], Index(va, depth)) < |mem|
    ensures var e, c := mem[Slot(tables[PathOf(va, depth)], Index(va, depth))], PathOf(va, depth + 1);
      if !Present(e) then c !in tables && c !in pages
      else if depth == 3 || Large(e) then depth >= 1 && c !in tables && c in pages && pages[c] == e
      else c in tables && c !in pages && AddressOf(e) == tables[c]
  {
    var p := PathOf(va, depth);
    assert TableOk(mem, tables, pages, p);
    EntryWord(tables[p], Index(va, depth));
    assert EntryOk(mem[Slot(tables[p], Index(va, depth))], Depth(p), Sub(p, Index(va, depth)), tables, pages);
    if Sub(p, Index(va, depth)) in tables { TableEntryBits(tables[PathOf(va, depth + 1)]); }
  }

  lemma GrownFurther(a: Snapshot, b: Snapshot, va: u64, depth: nat, last: nat, waste: iset<int>)
    requires depth <= last <= 4 && Grown(a, b, va, depth, waste)
    ensures Grown(a, b, va, last, waste)
  {
  }

  lemma GrownCompose(a: Snapshot, b: Snapshot, c: Snapshot, va: u64, depth: nat, w0: iset<int>, w1: iset<int>)
    requires depth < 4 && Grown(a, b, va, depth, w0) && Grown(b, c, va, depth + 1, w1)
    requires forall p :: p in b.tables ==> b.tables[p] % 4096 == 0
    ensures Grown(a, c, va, depth + 1, w0 + w1)
  {
    ChangesCompose(a.mem, b.mem, c.mem, a.free, b.free, a.tables, b.tables, va, depth);
  }

  lemma ChangesCompose(a: Memory, b: Memory, c: Memory, free0: iset<int>, free1: iset<int>,
                       before: Tables, tables: Tables, va: u64, depth: nat)
    requires depth <= 4 && GrewOnTheWay(before, tables, va, depth, free0)
    requires ChangesOnly(a, b, free0, before) && ChangesOnly(b, c, free1, tables) && free1 <= free0
    requires forall p :: p in tables ==> tables[p] % 4096 == 0
    ensures ChangesOnly(a, c, free0, before)
  {
    forall w | 0 <= w < |c| && c[w] != a[w] ensures 8 * w in free0 || IsTableWord(before, w) {
      if b[w] == a[w] && 8 * w !in free1 {
        var p, i: nat :| p in tables && i < 512 && w == Slot(tables[p], i);
        if p !in before {
          var n := tables[p] / 4096;
          Divides(tables[p], 8, 512 * n, 0);
          assert InSpan(tables[p], 4096, 8 * w);
        }
      }
    }
  }

  /** From `a` to `b` the page of `va` got the entry `e`: everything below its position was
      replaced, tables were added only on the way, and `waste` was lost meanwhile. */
  ghost predicate Mapped(a: Snapshot, b: Snapshot, va: u64, t: PageType, e: u64, waste: iset<int>) {
    var c := PathOf(va, LeafDepth(t));
    && b.pages == WithLeaf(a.pages, c, e)
    && GrewOnTheWay(Outside(a.tables, c), b.tables, va, LeafDepth(t) - 1, a.free)
    && ChangesOnly(a.mem, b.mem, a.free, a.tables)
    && b.free + Owned(b.tables, b.pages) + b.lost == a.free + Owned(a.tables, a.pages) + a.lost + LeafBlock(c, e)
    && b.free <= a.free && b.lost == a.lost + waste + OwnedUnder(a.tables, a.pages, c)
    && (Paged(a.free) ==> waste == iset{} && Paged(b.free))
  }

  /** New tables on the way do not lie below the page. */
  lemma GrowthIsAbove(a: Tables, b: Tables, pages: Pages, va: u64, depth: nat, free: iset<int>)
    requires depth < 4 && GrewOnTheWay(a, b, va, depth, free)
    ensures OwnedUnder(b, pages, PathOf(va, depth + 1)) == OwnedUnder(a, pages, PathOf(va, depth + 1))
    ensures GrewOnTheWay(Outside(a, PathOf(va, depth + 1)), Outside(b, PathOf(va, depth + 1)), va, depth, free)
  {
    var c := PathOf(va, depth + 1);
    forall p | p in b && p !in a ensures !Under(p, c) {
      if Under(p, c) { UnderIsDeeper(p, c); }
    }
    forall x ensures OwnedAt(b, pages, c, x) <==> OwnedAt(a, pages, c, x) {
      if OwnedAt(b, pages, c, x) {
        var p :| Under(p, c) && OwnsByte(b, pages, p, x);
        assert OwnsByte(a, pages, p, x);
      }
      if OwnedAt(a, pages, c, x) {
        var p :| Under(p, c) && OwnsByte(a, pages, p, x);
        assert OwnsByte(b, pages, p, x);
      }
    }
  }

  lemma OneWordChanges(mem: Memory, free: iset<int>, tables: Tables, p: Path, i: nat, e: u64)
    requires p in tables && i < 512 && Slot(tables[p], i) < |mem|
    ensures ChangesOnly(mem, mem[Slot(tables[p], i) := e], free, tables)
  {
    assert IsTableWord(tables, Slot(tables[p], i));
  }

  /** Writing the last-level entry after the tables are there. */
  lemma LeafIsMapped(a: Snapshot, b: Snapshot, root: u64, va: u64, t: PageType, e: u64, word: nat, waste: iset<int>)
    requires IsTree(b.mem, root, b.tables, b.pages) && Separate(b.tables, b.pages)
    requires Grown(a, b, va, LeafDepth(t) - 1, waste)
    requires PathOf(va, LeafDepth(t) - 1) in b.tables
    requires word == Slot(b.tables[PathOf(va, LeafDepth(t) - 1)], Index(va, LeafDepth(t) - 1)) && word < |b.mem|
    requires t != Page4K ==> Large(e)
    requires var c := PathOf(va, LeafDepth(t)); LeafBlock(c, e) !! Owned(b.tables, b.pages)
    ensures var c := PathOf(va, LeafDepth(t));
      var after := Snapshot(b.mem[word := e], b.free, b.lost + OwnedUnder(b.tables, b.pages, c),
                            Outside(b.tables, c), WithLeaf(b.pages, c, e));
      && IsTree(after.mem, root, after.tables, after.pages)
      && Separate(after.tables, after.pages)
      && Owned(after.tables, after.pages) == (Owned(b.tables, b.pages) - OwnedUnder(b.tables, b.pages, c)) + LeafBlock(c, e)
      && Mapped(a, after, va, t, e, waste)
  {
    hide IsTree, Separate, Owned, WellFormed, WithLeaf, Outside, GrewOnTheWay, ChangesOnly, LeafBlock, PathOf, Index;
    var last := LeafDepth(t) - 1;
    var p, c := PathOf(va, last), PathOf(va, LeafDepth(t));
    var after := b.mem[word := e];
    WalkEntry(b.mem, root, b.tables, b.pages, va, last);
    SetLeafAt(b.mem, root, b.tables, b.pages, va, last, e);
    OwnedAfterLeaf(b.tables, b.pages, c, e);
    GrowthIsAbove(a.tables, b.tables, b.pages, va, last, a.free);
    TablesAreAligned(b.mem, root, b.tables, b.pages);
    OneWordChanges(b.mem, b.free, b.tables, p, Index(va, last), e);
    ChangesCompose(a.mem, b.mem, after, a.free, b.free, a.tables, b.tables, va, last);
    UnderIsPartOfOwned(b.tables, b.pages, c);
  }

  lemma GrownKeeps(a: Snapshot, b: Snapshot, va: u64, depth: nat, waste: iset<int>)
    requires depth < 4 && Grown(a, b, va, depth, waste)
    ensures b.pages == a.pages && forall p :: p in a.tables ==> p in b.tables
    ensures PathOf(va, depth + 1) in b.tables <==> PathOf(va, depth + 1) in a.tables
  {
  }

  lemma OnlyTablesAbove(mem: Memory, root: u64, tables: Tables, pages: Pages, va: u64, last: nat)
    requires IsTree(mem, root, tables, pages) && last <= 3 && PathOf(va, last) in tables
    ensures forall k: nat :: k <= last ==> PathOf(va, k) !in pages
  {
    forall k: nat | k <= last ensures PathOf(va, k) !in pages {
      NoPageAboveTable(mem, root, tables, pages, va, k, last);
    }
  }

  /** A block that was nobody's before the tables were added still is nobody's. */
  lemma MayStillOwn(a: Snapshot, b: Snapshot, va: u64, depth: nat, waste: iset<int>, block: iset<int>)
    requires depth <= 4 && Grown(a, b, va, depth, waste)
    requires Nobody(a, block)
    ensures Nobody(b, block)
  {
    var total := a.free + Owned(a.tables, a.pages) + a.lost;
    assert Owned(b.tables, b.pages) <= total && b.free <= total && b.lost <= total;
  }

  lemma PagesStillFit(pages: Pages, c: Path, e: u64, limit: int)
    requires OwnedPagesFit(pages, limit) && 2 <= Depth(c) <= 4
    requires Deallocate(e) ==> AddressOf(e) + TypeAt(Depth(c)).Size() <= limit
    ensures OwnedPagesFit(WithLeaf(pages, c, e), limit)
  {
    var leaves := WithLeaf(pages, c, e);
    forall p | p in leaves && Deallocate(leaves[p]) && 2 <= Depth(p) <= 4
      ensures AddressOf(leaves[p]) + TypeAt(Depth(p)).Size() <= limit
    {
      if p != c { assert p in pages && leaves[p] == pages[p]; }
    }
  }

  /** A block that is neither owned nor free nor lost. */
  ghost predicate Nobody(a: Snapshot, block: iset<int>) {
    block !! Owned(a.tables, a.pages) && block !! a.free && block !! a.lost
  }

  /** The snapshot after the last-level entry was written. */
  ghost function AfterLeaf(b: Snapshot, c: Path, e: u64, word: nat): Snapshot
    requires word < |b.mem|
  {
    Snapshot(b.mem[word := e], b.free, b.lost + OwnedUnder(b.tables, b.pages, c),
             Outside(b.tables, c), WithLeaf(b.pages, c, e))
  }

  /** Everything a valid table promises, after the last-level entry was written. */
  lemma LastEntryWritten(a: Snapshot, b: Snapshot, root: u64, va: u64, t: PageType, e: u64, word: nat, waste: iset<int>, limit: int)
    requires IsTree(b.mem, root, b.tables, b.pages) && Separate(b.tables, b.pages) && OwnedPagesFit(b.pages, limit)
    requires Owned(b.tables, b.pages) !! b.free && Owned(b.tables, b.pages) !! b.lost && b.lost !! b.free
    requires Grown(a, b, va, LeafDepth(t) - 1, waste)
    requires PathOf(va, LeafDepth(t) - 1) in b.tables
    requires word == Slot(b.tables[PathOf(va, LeafDepth(t) - 1)], Index(va, LeafDepth(t) - 1)) && word < |b.mem|
    requires t != Page4K ==> Large(e)
    requires Deallocate(e) ==> Nobody(a, Span(AddressOf(e), t.Size())) && AddressOf(e) + t.Size() <= limit
    ensures var z := AfterLeaf(b, PathOf(va, LeafDepth(t)), e, word);
      && IsTree(z.mem, root, z.tables, z.pages) && Separate(z.tables, z.pages) && OwnedPagesFit(z.pages, limit)
      && Owned(z.tables, z.pages) !! z.free && Owned(z.tables, z.pages) !! z.lost && z.lost !! z.free
      && Mapped(a, z, va, t, e, waste)
  {
    hide IsTree, Separate, Owned, WellFormed, Grown, Mapped, OwnedPagesFit, WithLeaf, Outside;
    var c := PathOf(va, LeafDepth(t));
    MayStillOwn(a, b, va, LeafDepth(t) - 1, waste, LeafBlock(c, e));
    LeafIsMapped(a, b, root, va, t, e, word, waste);
    PagesStillFit(b.pages, c, e, limit);
    UnderIsPartOfOwned(b.tables, b.pages, c);
  }

  lemma SetLeafAt(mem: Memory, root: u64, tables: Tables, pages: Pages, va: u64, last: nat, e: u64)
    requires IsTree(mem, root, tables, pages) && 1 <= last <= 3 && PathOf(va, last) in tables
    requires Slot(tables[PathOf(va, last)], Index(va, last)) < |mem|
    requires last < 3 ==> Large(e)
    ensures IsTree(mem[Slot(tables[PathOf(va, last)], Index(va, last)) := e], root,
                   Outside(tables, PathOf(va, last + 1)), WithLeaf(pages, PathOf(va, last + 1), e))
  {
    assert TableOk(mem, tables, pages, PathOf(va, last));
    SetLeaf(mem, mem[Slot(tables[PathOf(va, last)], Index(va, last)) := e], root, tables, pages, PathOf(va, last), Index(va, last), e);
  }

  lemma UnderIsPartOfOwned(tables: Tables, pages: Pages, c: Path)
    ensures OwnedUnder(tables, pages, c) <= Owned(tables, pages)
  {
    forall x | OwnedAt(tables, pages, c, x) ensures OwnedAt(tables, pages, Root, x) {
      var p :| Under(p, c) && OwnsByte(tables, pages, p, x);
      EverythingIsUnderRoot(p);
    }
  }

  /** What a call of `map_raw_internal` asks for that the tree can grant: the address is usable,
      no larger page is in the way, and the position is free unless `update` is set. */
  ghost predicate MapAllowed(tables: Tables, pages: Pages, va: u64, t: PageType, add: bool, update: bool) {
    && IsCanonical(va) && t.Rest(va) == 0
    && (forall k: nat :: k < LeafDepth(t) ==> PathOf(va, k) !in pages)
    && (add || PathOf(va, LeafDepth(t) - 1) in tables)
    && (update || (PathOf(va, LeafDepth(t)) !in tables && PathOf(va, LeafDepth(t)) !in pages))
  }

  /** In a sound tree: the code accepts the address, it is one of a page of that size, the page that holds it, if any, is
      no larger, the last table is there or may be added, and the position is free or may be overwritten. */
  lemma MapAllowedMeaning(mem: Memory, root: u64, tables: Tables, pages: Pages, va: u64, t: PageType, add: bool, update: bool)
    requires IsTree(mem, root, tables, pages)
    ensures MapAllowed(tables, pages, va, t, add, update) <==>
      && (va < 0x8_0000_0000_0000 || va >= 0xfff8_0000_0000_0000) && va % t.Size() == 0
      && (var m := Lookup(pages, va); m.None? || m.value.depth >= (if t.Page1G? then 2 else if t.Page2M? then 3 else 4))
      && (add || PathOf(va, if t.Page1G? then 1 else if t.Page2M? then 2 else 3) in tables)
      && (update || (PathOf(va, if t.Page1G? then 2 else if t.Page2M? then 3 else 4) !in tables
                     && PathOf(va, if t.Page1G? then 2 else if t.Page2M? then 3 else 4) !in pages))
  {
    hide PathOf, IsTree;
    CanonicalMeaning(va);
    RestIsRemainder(t, va);
    forall k: nat | k <= 4 && PathOf(va, k) in pages ensures Lookup(pages, va) == Some(Mapping(pages[PathOf(va, k)], k)) {
      LookupFinds(mem, root, tables, pages, va, k);
    }
  }

  /** A page taken from free memory and zeroed. */
  lemma ZeroedPageIsFresh(before: Memory, after: Memory, page: u64, size: nat, free: iset<int>, tables: Tables)
    requires page % 4096 == 0 && size % 4096 == 0 && page + size <= 8 * |before|
    requires ZeroedPage(before, after, page, size) && Span(page, size) <= free
    ensures ChangesOnly(before, after, free, tables)
    ensures size == 4096 ==> Frame(after, page) && forall i: nat :: i < 512 ==> after[Slot(page, i)] == 0
  {
    var n, k := page / 4096, size / 4096;
    Divides(page, 8, 512 * n, 0);
    Divides(size, 8, 512 * k, 0);
    forall w | 0 <= w < |after| && after[w] != before[w] ensures 8 * w in free {
      assert InSpan(page, size, 8 * w);
    }
  }

  /** The words of the tables are not free. */
  lemma TableWordsAreOwned(mem: Memory, root: u64, tables: Tables, pages: Pages, p: Path, i: nat)
    requires IsTree(mem, root, tables, pages) && p in tables && i < 512
    ensures Slot(tables[p], i) < |mem| && 8 * Slot(tables[p], i) in Owned(tables, pages)
  {
    assert TableOk(mem, tables, pages, p);
    var n := tables[p] / 4096;
    Divides(tables[p], 8, 512 * n, 0);
    EverythingIsUnderRoot(p);
    assert OwnsByte(tables, pages, p, 8 * Slot(tables[p], i));
  }

  /** A tree does not notice a page being taken from free memory and zeroed. */
  lemma TreeIgnoresZeroedPage(mem: Memory, after: Memory, root: u64, tables: Tables, pages: Pages,
                              page: u64, size: nat, free: iset<int>)
    requires IsTree(mem, root, tables, pages) && Owned(tables, pages) !! free
    requires page % 4096 == 0 && size % 4096 == 0 && page + size <= 8 * |mem|
    requires ZeroedPage(mem, after, page, size) && Span(page, size) <= free
    ensures IsTree(after, root, tables, pages)
    ensures forall p, i: nat :: p in tables && i < 512 && Slot(tables[p], i) < |mem| ==>
              after[Slot(tables[p], i)] == mem[Slot(tables[p], i)]
  {
    ZeroedPageIsFresh(mem, after, page, size, free, map[]);
    forall p, i: nat | p in tables && i < 512 && Slot(tables[p], i) < |mem|
      ensures after[Slot(tables[p], i)] == mem[Slot(tables[p], i)]
    {
      TableWordsAreOwned(mem, root, tables, pages, p, i);
    }
    TreeIgnoresOtherWords(mem, after, root, tables, pages);
  }

  lemma TablesAreAligned(mem: Memory, root: u64, tables: Tables, pages: Pages)
    requires IsTree(mem, root, tables, pages)
    ensures forall p :: p in tables ==> tables[p] % 4096 == 0
  {
    forall p | p in tables ensures tables[p] % 4096 == 0 {
      assert TableOk(mem, tables, pages, p);
    }
  }

  lemma MissingBelow(mem: Memory, root: u64, tables: Tables, pages: Pages, va: u64, k: nat, depth: nat)
    requires IsTree(mem, root, tables, pages) && k <= depth <= 4
    ensures PathOf(va, k) !in tables ==> PathOf(va, depth) !in tables
  {
    if PathOf(va, depth) in tables { NoPageAboveTable(mem, root, tables, pages, va, k, depth); }
  }

  /** A table that was not on the way after some growth was not there at the start. */
  lemma MissingFromStart(a: Snapshot, b: Snapshot, mem: Memory, root: u64, va: u64, depth: nat, last: nat, waste: iset<int>)
    requires depth < last <= 3 && IsTree(mem, root, a.tables, a.pages) && Grown(a, b, va, depth, waste)
    requires PathOf(va, depth + 1) !in b.tables
    ensures PathOf(va, last) !in a.tables
  {
    MissingBelow(mem, root, a.tables, a.pages, va, depth + 1, last);
  }

  lemma EntryWord(table: u64, i: nat)
    requires table % 4096 == 0 && i < 512
    ensures (table + i * 8) / 8 == Slot(table, i)
  {
    var n := table / 4096;
    Divides(table, 8, 512 * n, 0);
    Divides(table + i * 8, 8, 512 * n + i, 0);
  }

  /** A zeroed frame of free memory, linked into an empty entry, extends the tree. */
  lemma LinkZeroedFrame(mem: Memory, zeroed: Memory, root: u64, tables: Tables, pages: Pages, p: Path, i: nat, t: u64, free: iset<int>)
    requires IsTree(mem, root, tables, pages) && Owned(tables, pages) !! free
    requires p in tables && Depth(p) < 3 && i < 512
    requires Slot(tables[p], i) < |mem| && !Present(mem[Slot(tables[p], i)])
    requires t % 4096 == 0 && t + 4096 <= 8 * |mem|
    requires ZeroedPage(mem, zeroed, t, 4096) && Span(t, 4096) <= free
    ensures var after := zeroed[Slot(tables[p], i) := TableEntry(t)];
      && IsTree(after, root, tables[Sub(p, i) := t], pages)
      && ChangesOnly(mem, after, free, tables)
    ensures Sub(p, i) !in tables && Sub(p, i) !in pages
    ensures AddressOf(TableEntry(t)) == t
  {
    var after := zeroed[Slot(tables[p], i) := TableEntry(t)];
    TreeIgnoresZeroedPage(mem, zeroed, root, tables, pages, t, 4096, free);
    ZeroedPageIsFresh(mem, zeroed, t, 4096, free, tables);
    FreshFrameIsNew(mem, root, tables, pages, p, i, t, free);
    TableEntryBits(t);
    assert TableOk(zeroed, tables, pages, p);
    LinkTable(zeroed, after, root, tables, pages, p, i, t);
  }

  lemma FreshFrameIsNew(mem: Memory, root: u64, tables: Tables, pages: Pages, p: Path, i: nat, t: u64, free: iset<int>)
    requires IsTree(mem, root, tables, pages) && Owned(tables, pages) !! free
    requires p in tables && i < 512 && Slot(tables[p], i) < |mem| && !Present(mem[Slot(tables[p], i)])
    requires Span(t, 4096) <= free
    ensures TableOk(mem, tables, pages, p)
    ensures Sub(p, i) !in tables && Sub(p, i) !in pages
    ensures forall q :: q in tables ==> tables[q] != t
  {
    assert TableOk(mem, tables, pages, p);
    assert EntryOk(mem[Slot(tables[p], i)], Depth(p), Sub(p, i), tables, pages);
    forall q | q in tables ensures tables[q] != t {
      EverythingIsUnderRoot(q);
      assert OwnsByte(tables, pages, q, tables[q]);
      assert tables[q] in Owned(tables, pages);
      assert t in Span(t, 4096);
    }
  }

  lemma ZeroedFrameIsLinked(a: Snapshot, z: Snapshot, root: u64, p: Path, i: nat, t: u64, waste: iset<int>)
    requires IsTree(a.mem, root, a.tables, a.pages) && Separate(a.tables, a.pages)
    requires Owned(a.tables, a.pages) !! a.free && Owned(a.tables, a.pages) !! a.lost && a.lost !! a.free
    requires z.tables == a.tables && z.pages == a.pages
    requires p in a.tables && Depth(p) < 3 && i < 512
    requires Slot(a.tables[p], i) < |a.mem| && !Present(a.mem[Slot(a.tables[p], i)])
    requires t % 4096 == 0 && t + 4096 <= 8 * |a.mem|
    requires ZeroedPage(a.mem, z.mem, t, 4096) && Allocated(a.free, z.free, Span(t, 4096), waste)
    requires z.lost == a.lost + waste
    ensures t < MAX_REGION && Slot(a.tables[p], i) < |z.mem|
    ensures var b := z.(mem := z.mem[Slot(a.tables[p], i) := TableEntry(t)], tables := a.tables[Sub(p, i) := t]);
      && IsTree(b.mem, root, b.tables, b.pages) && Separate(b.tables, b.pages)
      && Owned(b.tables, b.pages) !! b.free && Owned(b.tables, b.pages) !! b.lost
      && Linked(a, b, Sub(p, i), waste)
    ensures AddressOf(TableEntry(t)) == t
  {
    LinkZeroedFrame(a.mem, z.mem, root, a.tables, a.pages, p, i, t, a.free);
    TakesOver(a.free, z.free, Span(t, 4096), waste, Owned(a.tables, a.pages), a.lost);
    OwnedAfterLink(a.tables, a.pages, Sub(p, i), t);
  }

  /** Book-keeping for a block that moves from free memory to an owner. */
  lemma TakesOver(free: iset<int>, after: iset<int>, block: iset<int>, waste: iset<int>, owned: iset<int>, lost: iset<int>)
    requires Allocated(free, after, block, waste)
    requires owned !! free && owned !! lost && lost !! free
    ensures after + (owned + block) + (lost + waste) == free + owned + lost
    ensures owned + block !! after && owned + block !! lost + waste && block !! owned
  {
  }

  lemma OwnedByRoot(t: u64)
    ensures Owned(map[Root := t], map[]) == Span(t, 4096) && Separate(map[Root := t], map[])
  {
    var tables, pages: Pages := map[Root := t], map[];
    forall x ensures x in Owned(tables, pages) <==> x in Span(t, 4096) {
      if x in Span(t, 4096) { assert Under(Root, Root) && OwnsByte(tables, pages, Root, x); }
    }
  }

  // ---------------------------------------------------------------------------------------
  // What one call of map_raw means
  // ---------------------------------------------------------------------------------------

  /** A successful call changes what addresses map to at exactly its own page. */
  lemma MapRawChangesExactlyOnePage(a: Snapshot, b: Snapshot, va: u64, t: PageType, e: u64, add: bool, update: bool,
                                    waste: iset<int>, vb: u64)
    requires MapAllowed(a.tables, a.pages, va, t, add, update) && Mapped(a, b, va, t, e, waste)
    ensures Lookup(b.pages, vb) ==
            if PageNumber(va, LeafDepth(t)) == PageNumber(vb, LeafDepth(t)) then
              if Present(e) then Some(Mapping(e, LeafDepth(t))) else None
            else Lookup(a.pages, vb)
    ensures PageNumber(va, LeafDepth(t)) != PageNumber(vb, LeafDepth(t)) ==>
              Translation(b.pages, vb) == Translation(a.pages, vb)
    ensures PageNumber(va, LeafDepth(t)) == PageNumber(vb, LeafDepth(t)) && IsCanonical(vb) ==>
              Translation(b.pages, vb) == if Present(e) then Some(AddressOf(e) + t.Rest(vb)) else None
  {
    MapsExactlyOnePage(a.pages, va, LeafDepth(t), e, vb);
  }

  /** Addresses that a successful call reports to `invalidate_tlb`. */
  ghost function Reported(tables: Tables, pages: Pages, va: u64, t: PageType, usizeMax: u64): seq<u64> {
    if (PathOf(va, LeafDepth(t)) in tables || PathOf(va, LeafDepth(t)) in pages) && va <= usizeMax then [va] else []
  }

  /** The translation of `vb` was in the tables and is another one now, or none. */
  ghost predicate Changed(before: Pages, after: Pages, vb: u64) {
    Lookup(before, vb).Some? && Lookup(after, vb) != Lookup(before, vb)
  }

  /** The processor may hold a translation for `vb` that is no longer the one in the tables. It holds none for
      addresses that it rejects. */
  ghost predicate Stale(before: Pages, after: Pages, vb: u64) {
    HardwareCanonical(vb) && Changed(before, after, vb)
  }

  /** `invlpg` with the address `va` makes the processor forget its translation for `vb`: both lie in the
      page that the old tables had for `vb`. */
  ghost predicate Forgets(before: Pages, va: u64, vb: u64) {
    var m := Lookup(before, vb);
    m.Some? && va / Unit(m.value.depth) == vb / Unit(m.value.depth)
  }

  /** Whether one `invlpg` is enough for page `q`, when the entry `e` is written at the position of `va`: it is the
      page of `va`, and the processor accepts `va` or nothing changes there. */
  ghost predicate FlushedWith(pages: Pages, va: u64, depth: nat, e: u64, q: Path)
    requires depth <= 4 && q in pages
  {
    && Depth(q) <= 4 && q == PathOf(va, Depth(q))
    && (HardwareCanonical(va) || (Depth(q) == depth && pages[q] == e))
  }

  ghost predicate AllFlushedWith(pages: Pages, va: u64, depth: nat, e: u64)
    requires depth <= 4
  {
    forall q :: q in pages && Under(q, PathOf(va, depth)) ==> FlushedWith(pages, va, depth, e, q)
  }

  /** One call of `invlpg` is enough exactly when the overwritten position holds no page besides the one
      that `va` itself reached, and `va` is canonical for the processor or that page stays the same. So it is
      enough for canonical addresses unless a table is overwritten. */
  lemma OneFlushSuffices(a: Snapshot, b: Snapshot, root: u64, va: u64, t: PageType, e: u64,
                         add: bool, update: bool, waste: iset<int>)
    requires IsTree(a.mem, root, a.tables, a.pages)
    requires MapAllowed(a.tables, a.pages, va, t, add, update) && Mapped(a, b, va, t, e, waste)
    ensures (forall vb: u64 :: Stale(a.pages, b.pages, vb) ==> Forgets(a.pages, va, vb)) <==>
            AllFlushedWith(a.pages, va, LeafDepth(t), e)
    ensures PathOf(va, LeafDepth(t)) !in a.tables && HardwareCanonical(va) ==> AllFlushedWith(a.pages, va, LeafDepth(t), e)
  {
    hide IsTree, Lookup, Owned, PageNumber, ChangesOnly, FlushedWith, Changed, Forgets;
    var d := LeafDepth(t);
    if AllFlushedWith(a.pages, va, d, e) {
      forall vb: u64 | Stale(a.pages, b.pages, vb) ensures Forgets(a.pages, va, vb) {
        StaleIsForgotten(a, b, root, va, t, e, add, update, waste, vb);
      }
    } else {
      var q :| q in a.pages && Under(q, PathOf(va, d)) && !FlushedWith(a.pages, va, d, e, q);
      var vb := OtherPageStaysStale(a, b, root, va, t, e, add, update, waste, q);
    }
    if PathOf(va, d) !in a.tables && HardwareCanonical(va) {
      forall q | q in a.pages && Under(q, PathOf(va, d)) ensures FlushedWith(a.pages, va, d, e, q) {
        OnlyPageIsFlushed(a, root, va, d, e, q);
      }
    }
  }

  lemma OnlyPageIsFlushed(a: Snapshot, root: u64, va: u64, d: nat, e: u64, q: Path)
    requires IsTree(a.mem, root, a.tables, a.pages) && d <= 4 && PathOf(va, d) !in a.tables && HardwareCanonical(va)
    requires q in a.pages && Under(q, PathOf(va, d))
    ensures FlushedWith(a.pages, va, d, e, q)
  {
    hide IsTree;
    if q != PathOf(va, d) { AncestorsAreTables(a.mem, root, a.tables, a.pages, q, PathOf(va, d)); }
  }

  lemma StaleIsForgotten(a: Snapshot, b: Snapshot, root: u64, va: u64, t: PageType, e: u64,
                         add: bool, update: bool, waste: iset<int>, vb: u64)
    requires IsTree(a.mem, root, a.tables, a.pages)
    requires MapAllowed(a.tables, a.pages, va, t, add, update) && Mapped(a, b, va, t, e, waste)
    requires AllFlushedWith(a.pages, va, LeafDepth(t), e) && Stale(a.pages, b.pages, vb)
    ensures Forgets(a.pages, va, vb)
  {
    hide IsTree, Lookup, Owned, PageNumber, ChangesOnly, HardwareCanonical;
    var k := Lookup(a.pages, vb).value.depth;
    ChangedIsBelow(a, b, root, va, t, e, add, update, waste, vb);
    var q := PathOf(vb, k);
    assert FlushedWith(a.pages, va, LeafDepth(t), e, q);
    if HardwareCanonical(va) {
      HardwareCanonicalPages(va, vb, k);
    } else {
      SamePositionSamePage(va, vb, LeafDepth(t));
      MapsExactlyOnePage(a.pages, va, LeafDepth(t), e, vb);
      assert PathOf(vb, k) in a.pages && Lookup(a.pages, vb).value.entry == e;
      PresentIfMapped(a, root, q);
    }
  }

  lemma PresentIfMapped(a: Snapshot, root: u64, q: Path)
    requires IsTree(a.mem, root, a.tables, a.pages) && q in a.pages
    ensures Present(a.pages[q])
  {
    assert Rooted(a.tables, q) && TableOk(a.mem, a.tables, a.pages, q.parent);
    assert EntryOk(a.mem[Slot(a.tables[q.parent], q.index)], Depth(q.parent), Sub(q.parent, q.index), a.tables, a.pages);
  }

  /** What changes lies at or below the position of the call. */
  lemma ChangedIsBelow(a: Snapshot, b: Snapshot, root: u64, va: u64, t: PageType, e: u64,
                       add: bool, update: bool, waste: iset<int>, vb: u64)
    requires IsTree(a.mem, root, a.tables, a.pages)
    requires MapAllowed(a.tables, a.pages, va, t, add, update) && Mapped(a, b, va, t, e, waste)
    requires Changed(a.pages, b.pages, vb)
    ensures var p := PathOf(vb, Lookup(a.pages, vb).value.depth);
      p in a.pages && Under(p, PathOf(va, LeafDepth(t)))
  {
    hide IsTree, Owned, PageNumber, ChangesOnly;
    var d, k := LeafDepth(t), Lookup(a.pages, vb).value.depth;
    MapsExactlyOnePage(a.pages, va, d, e, vb);
    SamePositionSamePage(va, vb, d);
    if k < d {
      PathsAgreeAbove(va, vb, k, d);
    } else {
      PathsNest(vb, d, k);
    }
  }

  /** A page that is not flushed has a canonical address whose translation goes stale without being forgotten. */
  lemma OtherPageStaysStale(a: Snapshot, b: Snapshot, root: u64, va: u64, t: PageType, e: u64,
                            add: bool, update: bool, waste: iset<int>, q: Path) returns (vb: u64)
    requires IsTree(a.mem, root, a.tables, a.pages)
    requires MapAllowed(a.tables, a.pages, va, t, add, update) && Mapped(a, b, va, t, e, waste)
    requires q in a.pages && Under(q, PathOf(va, LeafDepth(t))) && !FlushedWith(a.pages, va, LeafDepth(t), e, q)
    ensures Stale(a.pages, b.pages, vb) && !Forgets(a.pages, va, vb)
  {
    hide IsTree, Owned, PageNumber, ChangesOnly, Lookup, HardwareCanonical;
    var d, k := LeafDepth(t), Depth(q);
    TablesAreShallow(a.mem, root, a.tables, a.pages, q);
    PositionsAreIndexed(a.mem, root, a.tables, a.pages, q);
    vb := CanonicalAddressOf(q);
    UnderIsDeeper(q, PathOf(va, d));
    OnlyUnderItsOwnPage(vb, PathOf(va, d), d, k);
    LookupFinds(a.mem, root, a.tables, a.pages, vb, k);
    MapsExactlyOnePage(a.pages, va, d, e, vb);
    SamePositionSamePage(va, vb, d);
    if va / Unit(k) == vb / Unit(k) {
      SamePageSamePosition(va, vb, k);
      PageOfCanonicalIsCanonical(va, vb, k);
    }
  }

  /** A canonical address of a position. */
  lemma CanonicalAddressOf(q: Path) returns (vb: u64)
    requires 1 <= Depth(q) <= 4 && Indexed(q)
    ensures HardwareCanonical(vb) && PathOf(vb, Depth(q)) == q
  {
    var low, n := AddressOfPosition(q);
    vb := low;
    if low >= 0x8000_0000_0000 {
      vb := low + 0xffff_0000_0000_0000;
      Divides(low, 0x1_0000_0000_0000, 0, low);
      Divides(vb, 0x1_0000_0000_0000, 0xffff, low);
      SamePositionSamePage(low, vb, Depth(q));
    }
  }

  /** The boundaries of the canonical addresses are boundaries of pages. */
  lemma PageOfCanonicalIsCanonical(va: u64, vb: u64, depth: nat)
    requires 1 <= depth <= 4 && va / Unit(depth) == vb / Unit(depth) && HardwareCanonical(vb)
    ensures HardwareCanonical(va)
  {
    match depth case 1 => case 2 => case 3 => case _ =>
  }

  /** An example: a 2 MB page replaces a table that maps page 1. The report names address 0, and the
      translation of address 0x1000 goes stale. */
  lemma OverwrittenTableLeavesStaleEntry(a: Snapshot, b: Snapshot, root: u64, e: u64, add: bool, waste: iset<int>)
    requires IsTree(a.mem, root, a.tables, a.pages) && PathOf(0x1000, 4) in a.pages
    requires MapAllowed(a.tables, a.pages, 0, Page2M, add, true) && Mapped(a, b, 0, Page2M, e, waste)
    ensures Reported(a.tables, a.pages, 0, Page2M, U64_MAX) == [0]
    ensures Stale(a.pages, b.pages, 0x1000) && !Forgets(a.pages, 0, 0x1000)
  {
    hide IsTree, Owned, ChangesOnly, Lookup;
    SamePositionSamePage(0, 0x1000, 3);
    SamePositionSamePage(0, 0x1000, 4);
    PathsNest(0x1000, 3, 4);
    LookupFinds(a.mem, root, a.tables, a.pages, 0x1000, 4);
    MapsExactlyOnePage(a.pages, 0, 3, e, 0x1000);
    AncestorsAreTables(a.mem, root, a.tables, a.pages, PathOf(0x1000, 4), PathOf(0x1000, 3));
  }

  /** Another one: the address 2^48, which the code accepts, has the position of address 0. Replacing the page
      there reports 2^48, and the translation of address 0 goes stale. */
  lemma RepeatedPositionLeavesStaleEntry(a: Snapshot, b: Snapshot, root: u64, e: u64, add: bool, waste: iset<int>)
    requires IsTree(a.mem, root, a.tables, a.pages) && PathOf(0, 4) in a.pages && a.pages[PathOf(0, 4)] != e
    requires MapAllowed(a.tables, a.pages, 0x1_0000_0000_0000, Page4K, add, true)
    requires Mapped(a, b, 0x1_0000_0000_0000, Page4K, e, waste)
    ensures Reported(a.tables, a.pages, 0x1_0000_0000_0000, Page4K, U64_MAX) == [0x1_0000_0000_0000]
    ensures Stale(a.pages, b.pages, 0) && !Forgets(a.pages, 0x1_0000_0000_0000, 0)
  {
    hide IsTree, Owned, ChangesOnly, Lookup;
    SamePositionSamePage(0, 0x1_0000_0000_0000, 4);
    LookupFinds(a.mem, root, a.tables, a.pages, 0, 4);
    MapsExactlyOnePage(a.pages, 0x1_0000_0000_0000, 4, e, 0);
  }

  /** Whenever a call changes an existing translation, the position was in use, so that the call reports
      it. For nested tables a report means that everything is flushed. */
  lemma ChangedTranslationsAreReported(a: Snapshot, b: Snapshot, root: u64, va: u64, t: PageType, e: u64,
                                       add: bool, update: bool, waste: iset<int>, vb: u64, usizeMax: u64)
    requires IsTree(a.mem, root, a.tables, a.pages) && va <= usizeMax
    requires MapAllowed(a.tables, a.pages, va, t, add, update) && Mapped(a, b, va, t, e, waste)
    requires Changed(a.pages, b.pages, vb)
    ensures Reported(a.tables, a.pages, va, t, usizeMax) == [va]
  {
    hide IsTree, Lookup, Owned, PageNumber, ChangesOnly;
    ChangedIsBelow(a, b, root, va, t, e, add, update, waste, vb);
    var p := PathOf(vb, Lookup(a.pages, vb).value.depth);
    AncestorsAreTables(a.mem, root, a.tables, a.pages, p, PathOf(va, LeafDepth(t)));
  }

  /** Overwriting a position loses memory exactly when it holds a table or an owned page. */
  lemma OverwritingLosesExactly(a: Snapshot, root: u64, c: Path)
    requires IsTree(a.mem, root, a.tables, a.pages)
    ensures OwnedUnder(a.tables, a.pages, c) == iset{} <==>
            !(c in a.tables || (c in a.pages && Deallocate(a.pages[c])))
  {
    if c in a.tables {
      assert Under(c, c) && OwnsByte(a.tables, a.pages, c, a.tables[c]);
      assert a.tables[c] in OwnedUnder(a.tables, a.pages, c);
    } else if c in a.pages {
      NothingBelowPage(a.mem, root, a.tables, a.pages, c);
      TablesAreShallow(a.mem, root, a.tables, a.pages, c);
      if Deallocate(a.pages[c]) {
        assert Under(c, c) && OwnsByte(a.tables, a.pages, c, AddressOf(a.pages[c]));
        assert AddressOf(a.pages[c]) in OwnedUnder(a.tables, a.pages, c);
      }
    } else {
      NothingBelowEmpty(a.mem, root, a.tables, a.pages, c);
    }
  }
}
