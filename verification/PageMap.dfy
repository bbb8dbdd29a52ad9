/** What a page-table tree means: the abstract map of pages, the processor's own walk over it,
    and the memory it owns. */
module PageMaps {
  import opened MachineInts
  import opened RangeSets
  import opened PhysicalMemories
  import opened PageTrees

  // ---------------------------------------------------------------------------------------
  // The abstract map
  // ---------------------------------------------------------------------------------------

  /** A page found for an address: its entry and the number of indices used to find it. */
  datatype Mapping = Mapping(entry: u64, depth: nat)

  /** The page that holds `va`. */
  function Lookup(pages: Pages, va: u64): (r: Option<Mapping>)
    ensures r.Some? ==> 2 <= r.value.depth <= 4
    ensures r.Some? ==> PathOf(va, r.value.depth) in pages && r.value.entry == pages[PathOf(va, r.value.depth)]
  {
    if PathOf(va, 2) in pages then Some(Mapping(pages[PathOf(va, 2)], 2))
    else if PathOf(va, 3) in pages then Some(Mapping(pages[PathOf(va, 3)], 3))
    else if PathOf(va, 4) in pages then Some(Mapping(pages[PathOf(va, 4)], 4))
    else None
  }

  /** The physical address of `va`. */
  function Translation(pages: Pages, va: u64): Option<u64> {
    if !IsCanonical(va) then None
    else match Lookup(pages, va)
      case None => None
      case Some(m) => Some(AddressOf(m.entry) + TypeAt(m.depth).Rest(va))
  }

  /** Number of the page of `va` among all pages of that depth in the 48-bit address space. */
  function PageNumber(va: u64, depth: nat): nat
    requires depth <= 4
  {
    match depth
    case 0 => 0
    case 1 => va % 0x1_0000_0000_0000 / 0x80_0000_0000
    case 2 => va % 0x1_0000_0000_0000 / 0x4000_0000
    case 3 => va % 0x1_0000_0000_0000 / 0x20_0000
    case _ => va % 0x1_0000_0000_0000 / 0x1000
  }

  lemma PageNumberStep(va: u64, depth: nat)
    requires depth < 4
    ensures PageNumber(va, depth + 1) == PageNumber(va, depth) * 512 + Index(va, depth)
  {
    var high, low := va / 0x1_0000_0000_0000, va % 0x1_0000_0000_0000;
    match depth
    case 0 =>
      var n := low / 0x80_0000_0000;
      Divides(va, 0x80_0000_0000, high * 512 + n, low % 0x80_0000_0000);
      Divides(high * 512 + n, 512, high, n);
    case 1 =>
      var a, b := low / 0x4000_0000, low % 0x4000_0000;
      Divides(va, 0x4000_0000, high * 0x4_0000 + a, b);
      Divides(high * 0x4_0000 + a, 512, high * (0x4_0000 / 512) + a / 512, a % 512);
      Divides(low, 0x80_0000_0000, a / 512, a % 512 * 0x4000_0000 + b);
    case 2 =>
      var a, b := low / 0x20_0000, low % 0x20_0000;
      Divides(va, 0x20_0000, high * 0x800_0000 + a, b);
      Divides(high * 0x800_0000 + a, 512, high * (0x800_0000 / 512) + a / 512, a % 512);
      Divides(low, 0x4000_0000, a / 512, a % 512 * 0x20_0000 + b);
    case _ =>
      var a, b := low / 0x1000, low % 0x1000;
      Divides(va, 0x1000, high * 0x10_0000_0000 + a, b);
      Divides(high * 0x10_0000_0000 + a, 512, high * (0x10_0000_0000 / 512) + a / 512, a % 512);
      Divides(low, 0x20_0000, a / 512, a % 512 * 0x1000 + b);
  }

  /** Two addresses reach the same position exactly when their low 48 bits lie in the same page. */
  lemma {:induction false} SamePositionSamePage(va: u64, vb: u64, depth: nat)
    requires depth <= 4
    ensures PathOf(va, depth) == PathOf(vb, depth) <==> PageNumber(va, depth) == PageNumber(vb, depth)
  {
    if depth > 0 {
      SamePositionSamePage(va, vb, depth - 1);
      PageNumberStep(va, depth - 1);
      PageNumberStep(vb, depth - 1);
    }
  }

  /** The check of the code accepts the addresses whose bits 51 to 63 agree. */
  lemma CanonicalMeaning(va: u64)
    ensures IsCanonical(va) <==> va < 0x8_0000_0000_0000 || va >= TWO_64 - 0x8_0000_0000_0000
  {
    var h, low := va / 0x10_0000_0000_0000, va % 0x10_0000_0000_0000;
    assert va == h * 0x10_0000_0000_0000 + low && h < 4096;
  }

  /** What the processor calls canonical: bits 47 to 63 agree (section 5.3.1). */
  predicate HardwareCanonical(va: u64) {
    va < 0x8000_0000_0000 || va >= TWO_64 - 0x8000_0000_0000
  }

  /** Size of the addresses below a position. */
  function Unit(depth: nat): nat
    requires depth <= 4
  {
    match depth case 0 => 0x1_0000_0000_0000 case 1 => 0x80_0000_0000 case 2 => 0x4000_0000 case 3 => 0x20_0000 case _ => 0x1000
  }

  /** Addresses in the same page have the same position. */
  lemma SamePageSamePosition(va: u64, vb: u64, depth: nat)
    requires depth <= 4 && va / Unit(depth) == vb / Unit(depth)
    ensures PathOf(va, depth) == PathOf(vb, depth)
  {
    SamePositionSamePage(va, vb, depth);
    PageNumberOf(va, depth);
    PageNumberOf(vb, depth);
  }

  /** Among canonical addresses every page has its own position. */
  lemma HardwareCanonicalPages(va: u64, vb: u64, depth: nat)
    requires HardwareCanonical(va) && HardwareCanonical(vb) && depth <= 4
    ensures IsCanonical(va)
    ensures 1 <= depth ==> (PathOf(va, depth) == PathOf(vb, depth) <==> va / Unit(depth) == vb / Unit(depth))
  {
    hide PathOf, PageNumber;
    CanonicalMeaning(va);
    SamePositionSamePage(va, vb, depth);
    PageNumberOf(va, depth);
    PageNumberOf(vb, depth);
    match depth case 0 => case 1 => case 2 => case 3 => case _ =>
  }

  /** The page number is the number of the page among all 2^64 bytes, without the bits above 47. */
  lemma PageNumberOf(va: u64, depth: nat)
    requires depth <= 4
    ensures var n, wrap := va / Unit(depth), 0x1_0000_0000_0000 / Unit(depth);
      && PageNumber(va, depth) == n % wrap
      && (depth >= 1 && HardwareCanonical(va) ==>
            PageNumber(va, depth) == if va < 0x8000_0000_0000 then n else n - 0xffff * wrap)
      && (depth >= 1 ==> (PageNumber(va, depth) < wrap / 2 <==> va % 0x1_0000_0000_0000 < 0x8000_0000_0000))
  {
    match depth
    case 0 => Divides(va / 0x1_0000_0000_0000, 1, va / 0x1_0000_0000_0000, 0);
    case 1 => NumberAmongPages(va, 0x80_0000_0000, 256);
    case 2 => NumberAmongPages(va, 0x4000_0000, 0x2_0000);
    case 3 => NumberAmongPages(va, 0x20_0000, 0x400_0000);
    case _ => NumberAmongPages(va, 0x1000, 0x8_0000_0000);
  }

  lemma NumberAmongPages(va: u64, unit: nat, half: nat)
    requires unit > 0 && half > 0 && unit * half == 0x8000_0000_0000
    ensures var n, wrap, p := va / unit, 2 * half, va % 0x1_0000_0000_0000 / unit;
      && p == n % wrap && 0x1_0000_0000_0000 / unit == wrap
      && (HardwareCanonical(va) ==> p == if va < 0x8000_0000_0000 then n else n - 0xffff * wrap)
      && (p < half <==> va % 0x1_0000_0000_0000 < 0x8000_0000_0000)
  {
    var high, low := va / 0x1_0000_0000_0000, va % 0x1_0000_0000_0000;
    NumberByParts(va, unit, 2 * half, high, low);
    Divides(0x1_0000_0000_0000, unit, 2 * half, 0);
    var n, r := low / unit, low % unit;
    assert (n - half) * unit == low - r - 0x8000_0000_0000;
    if n < half { ProductIsNoSmaller(half - n, unit); assert (half - n) * unit == 0x8000_0000_0000 - (low - r); }
    if n >= half { ProductIsNoSmaller(n - half, unit); }
  }

  lemma NumberByParts(va: u64, unit: nat, wrap: nat, high: nat, low: nat)
    requires unit > 0 && wrap > 0 && unit * wrap == 0x1_0000_0000_0000 && va == high * (unit * wrap) + low && low < unit * wrap
    ensures va / unit == high * wrap + low / unit && low / unit < wrap && (high * wrap + low / unit) % wrap == low / unit
    ensures high < 0x1_0000
  {
    var n, r := low / unit, low % unit;
    assert low == n * unit + r;
    assert (n - wrap) * unit == n * unit - wrap * unit;
    ProductIsNoSmaller(n - wrap, unit);
    assert high * (unit * wrap) == (high * wrap) * unit;
    assert va == (high * wrap + n) * unit + r by { assert (high * wrap + n) * unit == (high * wrap) * unit + n * unit; }
    Divides(va, unit, high * wrap + n, r);
    Divides(high * wrap + n, wrap, high, n);
  }

  /** The others repeat every 2^48 bytes, although the code accepts them up to 2^51. */
  lemma PositionsRepeat(va: u64)
    requires va + 0x1_0000_0000_0000 < TWO_64
    ensures PathOf(va + 0x1_0000_0000_0000, 4) == PathOf(va, 4)
  {
    var q, r := va / 0x1_0000_0000_0000, va % 0x1_0000_0000_0000;
    Divides(va + 0x1_0000_0000_0000, 0x1_0000_0000_0000, q + 1, r);
    SamePositionSamePage(va + 0x1_0000_0000_0000, va, 4);
  }

  /** All indices of the position exist in a table. */
  predicate Indexed(q: Path) {
    q.Sub? ==> q.index < 512 && Indexed(q.parent)
  }

  /** Every position has an address, below 2^48. */
  lemma {:induction false} AddressOfPosition(q: Path) returns (va: u64, n: nat)
    requires Depth(q) <= 4 && Indexed(q)
    ensures va == n * Unit(Depth(q)) && va + Unit(Depth(q)) <= 0x1_0000_0000_0000
    ensures PageNumber(va, Depth(q)) == n && PathOf(va, Depth(q)) == q
  {
    if q.Root? {
      va, n := 0, 0;
    } else {
      var above, m := AddressOfPosition(q.parent);
      va, n := above + q.index * Unit(Depth(q)), m * 512 + q.index;
      AddressOfChild(above, m, Depth(q) - 1, q.index);
    }
  }

  lemma AddressOfChild(above: u64, m: nat, depth: nat, i: nat)
    requires depth < 4 && i < 512 && above == m * Unit(depth) && above + Unit(depth) <= 0x1_0000_0000_0000
    requires PageNumber(above, depth) == m
    ensures var va := above + i * Unit(depth + 1);
      && va == (m * 512 + i) * Unit(depth + 1) && va + Unit(depth + 1) <= 0x1_0000_0000_0000
      && PageNumber(va, depth + 1) == m * 512 + i
      && PathOf(va, depth) == PathOf(above, depth) && Index(va, depth) == i
  {
    hide PathOf, PageNumber, Index;
    var va := above + i * Unit(depth + 1);
    ChildAddress(above, m, depth, i);
    NumberOfMultiple(va, depth, m, i * Unit(depth + 1));
    NumberOfMultiple(va, depth + 1, m * 512 + i, 0);
    SamePositionSamePage(va, above, depth);
    PageNumberStep(va, depth);
  }

  lemma ChildAddress(above: nat, m: nat, depth: nat, i: nat)
    requires depth < 4 && i < 512 && above == m * Unit(depth)
    ensures i * Unit(depth + 1) + Unit(depth + 1) <= Unit(depth)
    ensures above + i * Unit(depth + 1) == (m * 512 + i) * Unit(depth + 1)
  {
    match depth case 0 => case 1 => case 2 => case _ =>
  }

  lemma NumberOfMultiple(va: u64, depth: nat, n: nat, rest: nat)
    requires depth <= 4 && va < 0x1_0000_0000_0000 && va == n * Unit(depth) + rest && rest < Unit(depth)
    ensures PageNumber(va, depth) == n
  {
    Divides(va, Unit(depth), n, rest);
    Divides(va, 0x1_0000_0000_0000, 0, va);
  }

  lemma {:induction false} PositionsAreIndexed(mem: Memory, root: u64, tables: Tables, pages: Pages, q: Path)
    requires IsTree(mem, root, tables, pages) && (q in tables || q in pages)
    ensures Indexed(q)
  {
    if q.Sub? {
      assert Rooted(tables, q);
      PositionsAreIndexed(mem, root, tables, pages, q.parent);
    }
  }

  /** Every table frame has exactly one entry that points to it: the one at its position. */
  lemma OneEntryPerTable(mem: Memory, root: u64, tables: Tables, pages: Pages, p: Path, i: nat, c: Path)
    requires IsTree(mem, root, tables, pages) && p in tables && c in tables && i < 512 && Slot(tables[p], i) < |mem|
    requires var e := mem[Slot(tables[p], i)];
      Present(e) && Depth(p) < 3 && !Large(e) && AddressOf(e) == tables[c]
    ensures c == Sub(p, i)
  {
    assert TableOk(mem, tables, pages, p);
    assert EntryOk(mem[Slot(tables[p], i)], Depth(p), Sub(p, i), tables, pages);
    TableEntryBits(tables[Sub(p, i)]);
  }

  lemma {:induction false} PathsNest(va: u64, j: nat, k: nat)
    requires j <= k <= 4
    ensures Under(PathOf(va, k), PathOf(va, j))
  {
    if j < k { PathsNest(va, j, k - 1); }
  }

  /** A position on the way of `va` that is a page is the one `Lookup` finds. */
  lemma LookupFinds(mem: Memory, root: u64, tables: Tables, pages: Pages, va: u64, depth: nat)
    requires IsTree(mem, root, tables, pages) && depth <= 4 && PathOf(va, depth) in pages
    ensures 2 <= depth && Lookup(pages, va) == Some(Mapping(pages[PathOf(va, depth)], depth))
  {
    TablesAreShallow(mem, root, tables, pages, PathOf(va, depth));
    forall k: nat | k < depth ensures PathOf(va, k) !in pages {
      PathsNest(va, k, depth);
      AncestorsAreTables(mem, root, tables, pages, PathOf(va, depth), PathOf(va, k));
      AncestorsAreTables(mem, root, tables, pages, PathOf(va, k), PathOf(va, k));
    }
  }

  /** Everything above a table on the way of `va` is a table too. */
  lemma NoPageAboveTable(mem: Memory, root: u64, tables: Tables, pages: Pages, va: u64, k: nat, depth: nat)
    requires IsTree(mem, root, tables, pages) && k <= depth <= 4 && PathOf(va, depth) in tables
    ensures PathOf(va, k) in tables && PathOf(va, k) !in pages
  {
    PathsNest(va, k, depth);
    AncestorsAreTables(mem, root, tables, pages, PathOf(va, depth), PathOf(va, k));
    AncestorsAreTables(mem, root, tables, pages, PathOf(va, k), PathOf(va, k));
  }

  /** When the walk for `va` gets through tables to a position that is empty, there is no page. */
  lemma LookupFails(mem: Memory, root: u64, tables: Tables, pages: Pages, va: u64, depth: nat)
    requires IsTree(mem, root, tables, pages) && 1 <= depth <= 4 && PathOf(va, depth - 1) in tables
    requires PathOf(va, depth) !in tables && PathOf(va, depth) !in pages
    ensures Lookup(pages, va).None?
  {
    if Lookup(pages, va).Some? {
      var k := Lookup(pages, va).value.depth;
      if depth <= k {
        PathsNest(va, depth, k);
        AncestorsAreTables(mem, root, tables, pages, PathOf(va, k), PathOf(va, depth));
      } else {
        NoPageAboveTable(mem, root, tables, pages, va, k, depth - 1);
      }
    }
  }

  // ---------------------------------------------------------------------------------------
  // Mapping one page
  // ---------------------------------------------------------------------------------------

  /** Replacing the leaf of one page changes what every address maps to exactly on that page. */
  lemma MapsExactlyOnePage(pages: Pages, va: u64, depth: nat, e: u64, vb: u64)
    requires 2 <= depth <= 4 && forall k: nat :: k < depth ==> PathOf(va, k) !in pages
    ensures Lookup(WithLeaf(pages, PathOf(va, depth), e), vb) ==
            if PageNumber(va, depth) == PageNumber(vb, depth) then
              if Present(e) then Some(Mapping(e, depth)) else None
            else Lookup(pages, vb)
  {
    var c := PathOf(va, depth);
    var leaves := WithLeaf(pages, c, e);
    SamePositionSamePage(va, vb, depth);
    forall k: nat | k <= 4
      ensures PathOf(vb, k) in leaves <==>
              if PathOf(vb, depth) == c then k == depth && Present(e) else PathOf(vb, k) in pages
    {
      if k < depth {
        if Under(PathOf(vb, k), c) { UnderIsDeeper(PathOf(vb, k), c); }
        if PathOf(vb, depth) == c { PathsAgreeAbove(va, vb, k, depth); }
      } else {
        PathsNest(vb, depth, k);
        OnlyUnderItsOwnPage(vb, c, depth, k);
      }
    }
  }

  lemma {:induction false} PathsAgreeAbove(va: u64, vb: u64, k: nat, depth: nat)
    requires k <= depth <= 4 && PathOf(va, depth) == PathOf(vb, depth)
    ensures PathOf(va, k) == PathOf(vb, k)
  {
    if k < depth { PathsAgreeAbove(va, vb, k, depth - 1); }
  }

  lemma OnlyUnderItsOwnPage(vb: u64, c: Path, depth: nat, k: nat)
    requires depth <= k <= 4 && Depth(c) == depth
    ensures Under(PathOf(vb, k), c) <==> PathOf(vb, depth) == c
    ensures k > depth ==> PathOf(vb, k) != c
  {
    PathsNest(vb, depth, k);
    if Under(PathOf(vb, k), c) {
      UnderIsLinear(PathOf(vb, k), c, PathOf(vb, depth));
      if Under(c, PathOf(vb, depth)) { UnderIsDeeper(c, PathOf(vb, depth)); }
      else { UnderIsDeeper(PathOf(vb, depth), c); }
    }
  }

  // ---------------------------------------------------------------------------------------
  // The processor's walk (AMD64 Architecture Programmer's Manual, volume 2, sections 5.3 and 5.6)
  // ---------------------------------------------------------------------------------------

  /** Rights of an access: every level must grant it. */
  datatype Rights = Rights(write: bool, user: bool, execute: bool) {
    function And(e: u64): Rights {
      Rights(write && Writable(e), user && UserOk(e), execute && !NoExecute(e))
    }
  }

  const ALL_RIGHTS := Rights(true, true, true)

  datatype Walk = Fault | Page(entry: u64, depth: nat, rights: Rights)

  /** The processor rejects addresses that are not canonical before it walks. */
  ghost function HardwareWalk(mem: Memory, root: u64, va: u64): Walk {
    if HardwareCanonical(va) then WalkFrom(mem, root, va, 0, ALL_RIGHTS) else Fault
  }

  /** Walk from the table at `table` for `va`, combining the rights of all levels. */
  ghost function WalkFrom(mem: Memory, table: u64, va: u64, depth: nat, rights: Rights): Walk
    requires depth <= 3
    decreases 3 - depth
  {
    var w := Slot(table, Index(va, depth));
    if w >= |mem| then Fault
    else
      var e := mem[w];
      if !Present(e) then Fault
      else if depth == 3 || (Large(e) && depth > 0) then Page(e, depth + 1, rights.And(e))
      else if Large(e) then Fault
      else WalkFrom(mem, AddressOf(e), va, depth + 1, rights.And(e))
  }

  /** The processor finds the page of the abstract map, with exactly the rights of its entry. */
  lemma {:induction false} HardwareAgreesFrom(mem: Memory, root: u64, tables: Tables, pages: Pages, va: u64, depth: nat)
    requires IsTree(mem, root, tables, pages) && depth <= 3 && PathOf(va, depth) in tables
    ensures WalkFrom(mem, tables[PathOf(va, depth)], va, depth, ALL_RIGHTS) ==
            match Lookup(pages, va)
            case None => Fault
            case Some(m) => Page(m.entry, m.depth, ALL_RIGHTS.And(m.entry))
    decreases 3 - depth
  {
    var p := PathOf(va, depth);
    var c := PathOf(va, depth + 1);
    assert TableOk(mem, tables, pages, p);
    var e := mem[Slot(tables[p], Index(va, depth))];
    assert EntryOk(e, depth, c, tables, pages);
    if !Present(e) {
      LookupFails(mem, root, tables, pages, va, depth + 1);
    } else if depth == 3 || Large(e) {
      LookupFinds(mem, root, tables, pages, va, depth + 1);
    } else {
      TableEntryBits(tables[c]);
      assert ALL_RIGHTS.And(e) == ALL_RIGHTS;
      HardwareAgreesFrom(mem, root, tables, pages, va, depth + 1);
    }
  }

  lemma HardwareAgrees(mem: Memory, root: u64, tables: Tables, pages: Pages, va: u64)
    requires IsTree(mem, root, tables, pages)
    ensures HardwareWalk(mem, root, va) ==
            if !HardwareCanonical(va) then Fault
            else match Lookup(pages, va)
              case None => Fault
              case Some(m) => Page(m.entry, m.depth, Rights(Writable(m.entry), UserOk(m.entry), !NoExecute(m.entry)))
  {
    HardwareAgreesFrom(mem, root, tables, pages, va, 0);
  }

  // ---------------------------------------------------------------------------------------
  // Ownership
  // ---------------------------------------------------------------------------------------

  /** The tree owns its table frames and the pages that carry the deallocate flag. */
  ghost predicate OwnsByte(tables: Tables, pages: Pages, p: Path, x: int) {
    if p in tables then InSpan(tables[p], 4096, x)
    else p in pages && Deallocate(pages[p]) && 2 <= Depth(p) <= 4
         && InSpan(AddressOf(pages[p]), TypeAt(Depth(p)).Size(), x)
  }

  ghost predicate OwnedAt(tables: Tables, pages: Pages, c: Path, x: int) {
    exists p :: Under(p, c) && OwnsByte(tables, pages, p, x)
  }

  /** The bytes owned by the positions at and below `c`. */
  ghost function OwnedUnder(tables: Tables, pages: Pages, c: Path): iset<int> {
    iset x: int | OwnedAt(tables, pages, c, x)
  }

  ghost function Owned(tables: Tables, pages: Pages): iset<int> {
    OwnedUnder(tables, pages, Root)
  }

  /** No byte is owned twice. */
  ghost predicate Separate(tables: Tables, pages: Pages) {
    forall p, q, x :: OwnsByte(tables, pages, p, x) && OwnsByte(tables, pages, q, x) ==> p == q
  }

  /** Owned pages are aligned to 4 KB and lie inside the memory. */
  ghost predicate OwnedPagesFit(pages: Pages, limit: int) {
    forall p <- pages :: Deallocate(pages[p]) && 2 <= Depth(p) <= 4 ==>
                           AddressOf(pages[p]) + TypeAt(Depth(p)).Size() <= limit
  }

  lemma {:induction p} EverythingIsUnderRoot(p: Path)
    ensures Under(p, Root)
  {
  }

  lemma OwnedAfterLink(tables: Tables, pages: Pages, c: Path, t: u64)
    requires c !in tables && c !in pages
    requires Separate(tables, pages) && Span(t, 4096) !! Owned(tables, pages)
    ensures Separate(tables[c := t], pages)
    ensures Owned(tables[c := t], pages) == Owned(tables, pages) + Span(t, 4096)
  {
    var linked := tables[c := t];
    forall p, x ensures OwnsByte(linked, pages, p, x) <==> if p == c then InSpan(t, 4096, x) else OwnsByte(tables, pages, p, x) { }
    forall p, x | OwnsByte(tables, pages, p, x) ensures x in Owned(tables, pages) && p != c {
      EverythingIsUnderRoot(p);
    }
    EverythingIsUnderRoot(c);
    forall x ensures x in Owned(linked, pages) <==> x in Owned(tables, pages) || x in Span(t, 4096) {
      if x in Span(t, 4096) { assert OwnsByte(linked, pages, c, x); }
      if x in Owned(tables, pages) {
        var p :| Under(p, Root) && OwnsByte(tables, pages, p, x);
        assert OwnsByte(linked, pages, p, x);
      }
    }
  }

  /** The block that a new leaf brings under ownership. */
  ghost function LeafBlock(c: Path, e: u64): iset<int>
    requires 2 <= Depth(c) <= 4
  {
    if Present(e) && Deallocate(e) then Span(AddressOf(e), TypeAt(Depth(c)).Size()) else iset{}
  }

  lemma OwnsAfterLeaf(tables: Tables, pages: Pages, c: Path, e: u64, p: Path, x: int)
    requires 2 <= Depth(c) <= 4
    ensures OwnsByte(Outside(tables, c), WithLeaf(pages, c, e), p, x) <==>
            if p == c then x in LeafBlock(c, e) else !Under(p, c) && OwnsByte(tables, pages, p, x)
  {
  }

  lemma OwnedAfterLeaf(tables: Tables, pages: Pages, c: Path, e: u64)
    requires 2 <= Depth(c) <= 4 && Separate(tables, pages) && LeafBlock(c, e) !! Owned(tables, pages)
    ensures Separate(Outside(tables, c), WithLeaf(pages, c, e))
    ensures Owned(Outside(tables, c), WithLeaf(pages, c, e)) ==
            (Owned(tables, pages) - OwnedUnder(tables, pages, c)) + LeafBlock(c, e)
  {
    var kept, leaves := Outside(tables, c), WithLeaf(pages, c, e);
    forall p, x ensures OwnsByte(kept, leaves, p, x) <==>
                if p == c then x in LeafBlock(c, e) else !Under(p, c) && OwnsByte(tables, pages, p, x) {
      OwnsAfterLeaf(tables, pages, c, e, p, x);
    }
    forall p, x | OwnsByte(tables, pages, p, x) ensures x in Owned(tables, pages) {
      EverythingIsUnderRoot(p);
    }
    EverythingIsUnderRoot(c);
    forall x ensures x in Owned(kept, leaves) <==>
                (x in Owned(tables, pages) && x !in OwnedUnder(tables, pages, c)) || x in LeafBlock(c, e) {
      if x in LeafBlock(c, e) { assert OwnsByte(kept, leaves, c, x); }
      if x in Owned(tables, pages) && x !in OwnedUnder(tables, pages, c) {
        var p :| Under(p, Root) && OwnsByte(tables, pages, p, x);
        assert !Under(p, c);
        assert OwnsByte(kept, leaves, p, x);
      }
      if OwnedAt(kept, leaves, Root, x) && x !in LeafBlock(c, e) {
        var p :| Under(p, Root) && OwnsByte(kept, leaves, p, x);
      }
    }
  }

  /** Below a position that is neither table nor page there is nothing. */
  lemma NothingBelowEmpty(mem: Memory, root: u64, tables: Tables, pages: Pages, c: Path)
    requires IsTree(mem, root, tables, pages) && c !in tables && c !in pages
    ensures Outside(tables, c) == tables && Outside(pages, c) == pages
    ensures OwnedUnder(tables, pages, c) == iset{}
  {
    forall p | Under(p, c) ensures p !in tables && p !in pages {
      if p in tables || p in pages { AncestorsAreTables(mem, root, tables, pages, p, c); }
    }
  }

  /** Below a page there is only the page. */
  lemma NothingBelowPage(mem: Memory, root: u64, tables: Tables, pages: Pages, c: Path)
    requires IsTree(mem, root, tables, pages) && c in pages
    ensures Outside(tables, c) == tables && Outside(pages, c) == pages - {c}
    ensures !Deallocate(pages[c]) ==> OwnedUnder(tables, pages, c) == iset{}
  {
    AncestorsAreTables(mem, root, tables, pages, c, c);
    forall p | Under(p, c) && p != c ensures p !in tables && p !in pages {
      if p in tables || p in pages { AncestorsAreTables(mem, root, tables, pages, p, c); }
    }
  }
}
