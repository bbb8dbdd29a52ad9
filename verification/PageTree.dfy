/** The radix tree of a 4-level x86-64 page table: its entries, its shape in memory, and the
    abstract map of pages that it stands for. */
module PageTrees {
  import opened MachineInts
  import opened RangeSets
  import opened PhysicalMemories

  // ---------------------------------------------------------------------------------------
  // Entries
  // ---------------------------------------------------------------------------------------

  const PAGE_PRESENT: u64 := 1
  const PAGE_WRITE: u64 := 2
  const PAGE_USER: u64 := 4
  /** Bit 7: PAGE_SIZE above the last level, PAT at the last level. */
  const PAGE_SIZE: u64 := 0x80
  const DEALLOCATE_FLAG: u64 := 0x200
  const PAGE_NX: u64 := 0x8000_0000_0000_0000

  predicate Present(e: u64) { e % 2 == 1 }

  predicate Writable(e: u64) { e / 2 % 2 == 1 }

  predicate UserOk(e: u64) { e / 4 % 2 == 1 }

  predicate Large(e: u64) { e / 0x80 % 2 == 1 }

  predicate Deallocate(e: u64) { e / 0x200 % 2 == 1 }

  predicate NoExecute(e: u64) { e >= 0x8000_0000_0000_0000 }

  /** `e & 0xffffffffff000`: bits 12 to 51. */
  function AddressOf(e: u64): (a: u64)
    ensures a % 4096 == 0 && a < MAX_REGION
  {
    e / 4096 % 0x100_0000_0000 * 4096
  }

  /** `e | PAGE_SIZE` and `e | DEALLOCATE_FLAG`. */
  function OrSize(e: u64): u64 { if Large(e) then e else e + PAGE_SIZE }

  function OrDeallocate(e: u64): u64 { if Deallocate(e) then e else e + DEALLOCATE_FLAG }

  /** The entry for a lower table: maximal permissions. */
  function TableEntry(table: u64): u64
    requires table % 4096 == 0 && table < MAX_REGION
  {
    table + (PAGE_PRESENT + PAGE_USER + PAGE_WRITE)
  }

  lemma TableEntryBits(table: u64)
    requires table % 4096 == 0 && table < MAX_REGION
    ensures var e := TableEntry(table);
      && Present(e) && Writable(e) && UserOk(e) && !Large(e) && !Deallocate(e) && !NoExecute(e)
      && AddressOf(e) == table
  {
    var e, k := TableEntry(table), table / 4096;
    assert e == 4096 * k + 7;
    LowBitsOfAligned(k);
    assert k % 0x100_0000_0000 == k;
  }

  lemma LowBitsOfAligned(k: nat)
    ensures var e := 4096 * k + 7;
      && e % 2 == 1 && e / 2 % 2 == 1 && e / 4 % 2 == 1
      && e / 0x80 % 2 == 0 && e / 0x200 % 2 == 0 && e / 4096 == k
  {
    var e := 4096 * k + 7;
    Divides(e, 2, 2048 * k + 3, 1);
    Divides(2048 * k + 3, 2, 1024 * k + 1, 1);
    Divides(e, 4, 1024 * k + 1, 3);
    Divides(1024 * k + 1, 2, 512 * k, 1);
    Divides(e, 0x80, 32 * k, 7);
    Divides(32 * k, 2, 16 * k, 0);
    Divides(e, 0x200, 8 * k, 7);
    Divides(8 * k, 2, 4 * k, 0);
    Divides(e, 4096, k, 7);
  }

  /** The entry `map_raw_internal` writes. */
  function FinalEntry(raw: u64, t: PageType, deallocate: bool): u64 {
    var raw := if deallocate then OrDeallocate(raw) else raw;
    if t != Page4K then OrSize(raw) else raw
  }

  /** Everything the code and the processor read in an entry but bits 7 and 9. */
  ghost predicate SameMeaning(e: u64, f: u64) {
    && (Present(e) <==> Present(f)) && (Writable(e) <==> Writable(f))
    && (UserOk(e) <==> UserOk(f)) && (NoExecute(e) <==> NoExecute(f))
    && AddressOf(e) == AddressOf(f)
  }

  lemma OrSizeBits(e: u64)
    ensures SameMeaning(OrSize(e), e) && Large(OrSize(e))
    ensures Deallocate(OrSize(e)) <==> Deallocate(e)
  {
    if !Large(e) {
      SettingBit7(e);
      AddingALowBit(e, 0x80);
    }
  }

  lemma SettingBit7(e: nat)
    requires e / 0x80 % 2 == 0
    ensures (e + 0x80) / 0x80 % 2 == 1
    ensures (e + 0x80) / 0x200 == e / 0x200 && (e + 0x80) / 0x1000 == e / 0x1000
  {
    var q, low := e / 0x80, e % 0x80;
    var h := q / 2;
    Divides(e + 0x80, 0x80, q + 1, low);
    Divides(q + 1, 2, h, 1);
    KeepsHighBits(h, low, 0x80 + low);
  }

  /** `e / 0x200` and `e / 0x1000` do not see the low 8 bits of `e`. */
  lemma KeepsHighBits(h: nat, a: nat, b: nat)
    requires a < 0x100 && b < 0x100
    ensures (0x100 * h + a) / 0x200 == (0x100 * h + b) / 0x200
    ensures (0x100 * h + a) / 0x1000 == (0x100 * h + b) / 0x1000
  {
    Divides(0x100 * h + a, 0x200, h / 2, 0x100 * (h % 2) + a);
    Divides(0x100 * h + b, 0x200, h / 2, 0x100 * (h % 2) + b);
    Divides(0x100 * h + a, 0x1000, h / 16, 0x100 * (h % 16) + a);
    Divides(0x100 * h + b, 0x1000, h / 16, 0x100 * (h % 16) + b);
  }

  lemma OrDeallocateBits(e: u64)
    ensures SameMeaning(OrDeallocate(e), e) && Deallocate(OrDeallocate(e))
    ensures Large(OrDeallocate(e)) <==> Large(e)
  {
    if !Deallocate(e) {
      SettingBit9(e);
      AddingALowBit(e, 0x200);
    }
  }

  lemma SettingBit9(e: nat)
    requires e / 0x200 % 2 == 0
    ensures (e + 0x200) / 0x200 % 2 == 1
    ensures (e + 0x200) / 0x80 % 2 == e / 0x80 % 2 && (e + 0x200) / 0x1000 == e / 0x1000
  {
    var q, low := e / 0x200, e % 0x200;
    var h := q / 2;
    Divides(e + 0x200, 0x200, q + 1, low);
    Divides(q + 1, 2, h, 1);
    Divides(e + 0x200, 0x80, e / 0x80 + 4, e % 0x80);
    Divides(e / 0x80 + 4, 2, e / 0x80 / 2 + 2, e / 0x80 % 2);
    Divides(e, 0x1000, h / 4, 0x400 * (h % 4) + low);
    Divides(e + 0x200, 0x1000, h / 4, 0x400 * (h % 4) + 0x200 + low);
  }

  lemma AddingALowBit(e: nat, bit: nat)
    requires bit == 0x80 || bit == 0x200
    ensures (e + bit) % 2 == e % 2 && (e + bit) / 2 % 2 == e / 2 % 2 && (e + bit) / 4 % 2 == e / 4 % 2
  {
    Divides(e + bit, 2, e / 2 + bit / 2, e % 2);
    Divides(e / 2 + bit / 2, 2, e / 2 / 2 + bit / 4, e / 2 % 2);
    Divides(e + bit, 4, e / 4 + bit / 4, e % 4);
    Divides(e / 4 + bit / 4, 2, e / 4 / 2 + bit / 8, e / 4 % 2);
  }

  lemma FinalEntryBits(raw: u64, t: PageType, deallocate: bool)
    requires !Deallocate(raw)
    ensures var e := FinalEntry(raw, t, deallocate);
      && SameMeaning(e, raw) && (Deallocate(e) <==> deallocate) && (t != Page4K ==> Large(e))
  {
    var e := if deallocate then OrDeallocate(raw) else raw;
    OrDeallocateBits(raw);
    OrSizeBits(e);
  }

  // ---------------------------------------------------------------------------------------
  // Paths
  // ---------------------------------------------------------------------------------------

  /** A position in the tree: the indices taken from the root. A position names a table when it
      is at most 3 deep and is a non-large pointer, and a page otherwise. */
  datatype Path = Root | Sub(parent: Path, index: nat)

  function Depth(p: Path): nat {
    if p.Root? then 0 else Depth(p.parent) + 1
  }

  /** `q` is `p` or lies below it. */
  predicate Under(q: Path, p: Path) {
    q == p || (q.Sub? && Under(q.parent, p))
  }

  lemma UnderIsDeeper(q: Path, p: Path)
    requires Under(q, p)
    ensures Depth(q) >= Depth(p)
    ensures Depth(q) == Depth(p) ==> q == p
  {
  }

  lemma UnderIsTransitive(a: Path, b: Path, c: Path)
    requires Under(a, b) && Under(b, c)
    ensures Under(a, c)
  {
  }

  /** Two positions above the same one are comparable. */
  lemma UnderIsLinear(q: Path, a: Path, b: Path)
    requires Under(q, a) && Under(q, b)
    ensures Under(a, b) || Under(b, a)
  {
  }

  /** `(virt_addr >> (39 - 9 * depth)) & 0x1ff`. */
  function Index(va: u64, depth: nat): (i: nat)
    requires depth < 4
    ensures i < 512
  {
    match depth
    case 0 => va / 0x80_0000_0000 % 512
    case 1 => va / 0x4000_0000 % 512
    case 2 => va / 0x20_0000 % 512
    case _ => va / 0x1000 % 512
  }

  /** The position that a walk for `va` reaches after `depth` steps. */
  function PathOf(va: u64, depth: nat): (p: Path)
    requires depth <= 4
    ensures Depth(p) == depth
  {
    if depth == 0 then Root else Sub(PathOf(va, depth - 1), Index(va, depth - 1))
  }

  /** How many indices a page type uses. */
  function LeafDepth(t: PageType): (d: nat)
    ensures 2 <= d <= 4
  {
    match t case Page4K => 4 case Page2M => 3 case Page1G => 2
  }

  function TypeAt(depth: nat): PageType
    requires 2 <= depth <= 4
  {
    match depth case 2 => Page1G case 3 => Page2M case _ => Page4K
  }

  /** Bit 51 copied over bits 52 to 63 gives the address back. */
  predicate IsCanonical(va: u64) {
    var low := va % 0x10_0000_0000_0000;
    va == if low < 0x8_0000_0000_0000 then low else low + (TWO_64 - 0x10_0000_0000_0000)
  }

  // ---------------------------------------------------------------------------------------
  // The tree in memory
  // ---------------------------------------------------------------------------------------

  type Tables = map<Path, u64>
  type Pages = map<Path, u64>

  /** Word number of entry `i` of the table at `table`. */
  function Slot(table: u64, i: nat): nat { table / 8 + i }

  predicate Frame(mem: Memory, table: u64) {
    table % 4096 == 0 && table + 4096 <= 8 * |mem|
  }

  /** What entry `i` of the table at position `p` says about position `Sub(p, i)`. */
  ghost predicate EntryOk(e: u64, depth: nat, c: Path, tables: Tables, pages: Pages) {
    if !Present(e) then c !in tables && c !in pages
    else if depth == 3 || Large(e) then depth >= 1 && c !in tables && c in pages && pages[c] == e
    else c in tables && c !in pages && tables[c] < MAX_REGION && tables[c] % 4096 == 0 && e == TableEntry(tables[c])
  }

  ghost predicate TableOk(mem: Memory, tables: Tables, pages: Pages, p: Path)
    requires p in tables
  {
    && Depth(p) <= 3
    && Frame(mem, tables[p])
    && forall i: nat :: i < 512 ==> EntryOk(mem[Slot(tables[p], i)], Depth(p), Sub(p, i), tables, pages)
  }

  /** Positions other than the root come from an entry of a table that is itself in the tree. */
  ghost predicate Rooted(tables: Tables, c: Path) {
    c.Sub? ==> c.parent in tables && c.index < 512
  }

  ghost predicate DistinctTables(tables: Tables) {
    forall p, q :: p in tables && q in tables && tables[p] == tables[q] ==> p == q
  }

  /** The frames in `tables` form a tree with the given root and the leaves `pages`. Each
      frame but the root has exactly one entry that points to it, because frames and positions
      determine each other. */
  ghost predicate IsTree(mem: Memory, root: u64, tables: Tables, pages: Pages) {
    && 8 * |mem| <= MAX_REGION
    && Root in tables && tables[Root] == root
    && (forall p {:trigger TableOk(mem, tables, pages, p)} :: p in tables ==> TableOk(mem, tables, pages, p))
    && (forall p {:trigger Rooted(tables, p)} :: p in tables ==> Rooted(tables, p))
    && DistinctTables(tables)
    && Root !in pages
    && (forall c {:trigger Rooted(tables, c)} :: c in pages ==> Rooted(tables, c))
  }

  /** Different entries of the tree are different words. */
  lemma SlotsAreDistinct(mem: Memory, root: u64, tables: Tables, pages: Pages, p: Path, i: nat, q: Path, j: nat)
    requires IsTree(mem, root, tables, pages)
    requires p in tables && q in tables && i < 512 && j < 512
    requires Slot(tables[p], i) == Slot(tables[q], j)
    ensures p == q && i == j
  {
    assert TableOk(mem, tables, pages, p) && TableOk(mem, tables, pages, q);
    DistinctFrames(tables[p], i, tables[q], j);
  }

  lemma DistinctFrames(a: u64, i: nat, b: u64, j: nat)
    requires a % 4096 == 0 && b % 4096 == 0 && i < 512 && j < 512
    requires Slot(a, i) == Slot(b, j)
    ensures a == b && i == j
  {
    var m, n := a / 4096, b / 4096;
    Divides(a, 8, 512 * m, 0);
    Divides(b, 8, 512 * n, 0);
    assert 512 * m + i == 512 * n + j;
  }

  /** A word of the table at position `p`. */
  ghost predicate IsTableWord(tables: Tables, w: nat) {
    exists p, i: nat :: p in tables && i < 512 && w == Slot(tables[p], i)
  }

  /** A tree does not change when only words outside its tables do. */
  lemma TreeIgnoresOtherWords(mem: Memory, after: Memory, root: u64, tables: Tables, pages: Pages)
    requires IsTree(mem, root, tables, pages) && |after| == |mem|
    requires forall p, i: nat :: p in tables && i < 512 && Slot(tables[p], i) < |mem| ==>
               after[Slot(tables[p], i)] == mem[Slot(tables[p], i)]
    ensures IsTree(after, root, tables, pages)
  {
    forall p | p in tables ensures TableOk(after, tables, pages, p) {
      assert TableOk(mem, tables, pages, p);
    }
  }

  /** No position is a table and a page at once, and everything above a position is a table. */
  lemma AncestorsAreTables(mem: Memory, root: u64, tables: Tables, pages: Pages, p: Path, a: Path)
    requires IsTree(mem, root, tables, pages) && (p in tables || p in pages) && Under(p, a)
    ensures p in tables <==> p !in pages
    ensures a != p ==> a in tables
  {
    if p.Sub? {
      assert Rooted(tables, p) && TableOk(mem, tables, pages, p.parent);
      assert EntryOk(mem[Slot(tables[p.parent], p.index)], Depth(p.parent), Sub(p.parent, p.index), tables, pages);
      if a != p { AncestorsAreTables(mem, root, tables, pages, p.parent, a); }
    }
  }

  lemma TablesAreShallow(mem: Memory, root: u64, tables: Tables, pages: Pages, p: Path)
    requires IsTree(mem, root, tables, pages)
    ensures p in tables ==> Depth(p) <= 3
    ensures p in pages ==> 2 <= Depth(p) <= 4
  {
    if p in tables { assert TableOk(mem, tables, pages, p); }
    if p in pages {
      assert Rooted(tables, p) && TableOk(mem, tables, pages, p.parent);
      assert EntryOk(mem[Slot(tables[p.parent], p.index)], Depth(p.parent), Sub(p.parent, p.index), tables, pages);
    }
  }

  /** A zeroed frame is a tree without pages. */
  lemma EmptyTree(mem: Memory, root: u64)
    requires 8 * |mem| <= MAX_REGION && Frame(mem, root)
    requires forall i: nat :: i < 512 ==> mem[Slot(root, i)] == 0
    ensures IsTree(mem, root, map[Root := root], map[])
  {
    var tables, pages: Pages := map[Root := root], map[];
    assert TableOk(mem, tables, pages, Root);
  }

  /** Linking a zeroed frame into an empty entry adds an empty table and no page. */
  lemma LinkTable(mem: Memory, after: Memory, root: u64, tables: Tables, pages: Pages, p: Path, i: nat, t: u64)
    requires IsTree(mem, root, tables, pages)
    requires p in tables && Depth(p) < 3 && i < 512 && TableOk(mem, tables, pages, p) && !Present(mem[Slot(tables[p], i)])
    requires Frame(mem, t) && t < MAX_REGION
    requires forall q :: q in tables ==> tables[q] != t
    requires forall j: nat :: j < 512 ==> mem[Slot(t, j)] == 0
    requires after == mem[Slot(tables[p], i) := TableEntry(t)]
    ensures IsTree(after, root, tables[Sub(p, i) := t], pages)
  {
    var c := Sub(p, i);
    var linked := tables[c := t];
    assert EntryOk(mem[Slot(tables[p], i)], Depth(p), c, tables, pages);
    forall q | q in linked ensures TableOk(after, linked, pages, q) {
      LinkedTableIsOk(mem, after, root, tables, pages, p, i, t, q);
    }
    forall q | q in linked || q in pages ensures Rooted(linked, q) {
      assert q != c ==> Rooted(tables, q);
    }
  }

  lemma LinkedTableIsOk(mem: Memory, after: Memory, root: u64, tables: Tables, pages: Pages, p: Path, i: nat, t: u64, q: Path)
    requires IsTree(mem, root, tables, pages)
    requires p in tables && Depth(p) < 3 && i < 512 && TableOk(mem, tables, pages, p)
    requires Sub(p, i) !in tables && Sub(p, i) !in pages
    requires Frame(mem, t) && t < MAX_REGION
    requires forall q :: q in tables ==> tables[q] != t
    requires forall j: nat :: j < 512 ==> mem[Slot(t, j)] == 0
    requires after == mem[Slot(tables[p], i) := TableEntry(t)]
    requires q in tables[Sub(p, i) := t]
    ensures TableOk(after, tables[Sub(p, i) := t], pages, q)
  {
    if q == Sub(p, i) {
      NewTableIsOk(mem, after, root, tables, pages, p, i, t);
    } else {
      OldTableIsOk(mem, after, root, tables, pages, p, i, t, q);
    }
  }

  lemma OldTableIsOk(mem: Memory, after: Memory, root: u64, tables: Tables, pages: Pages, p: Path, i: nat, t: u64, q: Path)
    requires IsTree(mem, root, tables, pages)
    requires p in tables && Depth(p) < 3 && i < 512 && TableOk(mem, tables, pages, p)
    requires Sub(p, i) !in tables && Sub(p, i) !in pages
    requires t % 4096 == 0 && t < MAX_REGION && q in tables
    requires after == mem[Slot(tables[p], i) := TableEntry(t)]
    ensures TableOk(after, tables[Sub(p, i) := t], pages, q)
  {
    TableEntryBits(t);
    assert TableOk(mem, tables, pages, q);
    forall j: nat | j < 512 ensures EntryOk(after[Slot(tables[q], j)], Depth(q), Sub(q, j), tables[Sub(p, i) := t], pages) {
      assert EntryOk(mem[Slot(tables[q], j)], Depth(q), Sub(q, j), tables, pages);
      if Slot(tables[q], j) == Slot(tables[p], i) { SlotsAreDistinct(mem, root, tables, pages, p, i, q, j); }
    }
  }

  lemma NewTableIsOk(mem: Memory, after: Memory, root: u64, tables: Tables, pages: Pages, p: Path, i: nat, t: u64)
    requires IsTree(mem, root, tables, pages)
    requires p in tables && Depth(p) < 3 && i < 512 && TableOk(mem, tables, pages, p)
    requires Sub(p, i) !in tables && Sub(p, i) !in pages
    requires Frame(mem, t)
    requires forall q :: q in tables ==> tables[q] != t
    requires forall j: nat :: j < 512 ==> mem[Slot(t, j)] == 0
    requires |after| == |mem| && forall k :: 0 <= k < |mem| && k != Slot(tables[p], i) ==> after[k] == mem[k]
    ensures TableOk(after, tables[Sub(p, i) := t], pages, Sub(p, i))
  {
    var c := Sub(p, i);
    forall j: nat | j < 512 ensures EntryOk(after[Slot(t, j)], Depth(c), Sub(c, j), tables[c := t], pages) {
      assert Sub(c, j) !in tables && Sub(c, j) !in pages by {
        assert !Rooted(tables, Sub(c, j));
      }
      if Slot(t, j) == Slot(tables[p], i) { DistinctFrames(t, j, tables[p], i); }
    }
  }

  /** The positions that are not below `c`. */
  ghost function Outside(m: map<Path, u64>, c: Path): map<Path, u64> {
    map q | q in m && !Under(q, c) :: m[q]
  }

  ghost function WithLeaf(pages: Pages, c: Path, e: u64): Pages {
    if Present(e) then Outside(pages, c)[c := e] else Outside(pages, c)
  }

  /** Writing a last-level entry replaces everything below its position by the new page. */
  lemma SetLeaf(mem: Memory, after: Memory, root: u64, tables: Tables, pages: Pages, p: Path, i: nat, e: u64)
    requires IsTree(mem, root, tables, pages)
    requires p in tables && 1 <= Depth(p) && i < 512 && TableOk(mem, tables, pages, p)
    requires Depth(p) < 3 ==> Large(e)
    requires after == mem[Slot(tables[p], i) := e]
    ensures IsTree(after, root, Outside(tables, Sub(p, i)), WithLeaf(pages, Sub(p, i), e))
  {
    var c := Sub(p, i);
    var kept, leaves := Outside(tables, c), WithLeaf(pages, c, e);
    assert !Under(Root, c);
    forall q | q in kept ensures TableOk(after, kept, leaves, q) && Rooted(kept, q) {
      assert TableOk(mem, tables, pages, q) && Rooted(tables, q);
      forall j: nat | j < 512 ensures EntryOk(after[Slot(kept[q], j)], Depth(q), Sub(q, j), kept, leaves) {
        assert EntryOk(mem[Slot(tables[q], j)], Depth(q), Sub(q, j), tables, pages);
        if Slot(tables[q], j) == Slot(tables[p], i) {
          SlotsAreDistinct(mem, root, tables, pages, p, i, q, j);
        } else {
          assert Under(Sub(q, j), c) <==> Sub(q, j) == c;
        }
      }
    }
    forall q | q in leaves ensures Rooted(kept, q) {
      if q == c {
        if Under(p, c) { UnderIsDeeper(p, c); }
      } else {
        assert Rooted(tables, q);
      }
    }
  }
}
