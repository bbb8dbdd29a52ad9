/** The guest's address space as the guest sees it: pages with rights and bytes, without tables or frames. */
module GuestSpaces {
  import opened MachineInts
  import opened RangeSets
  import opened PhysicalMemories
  import opened PageTrees
  import opened PageMaps
  import opened PageSnapshots
  import opened PageRegions
  import opened PageRuns
  import PageTables
  import opened GuestMemories
  import opened GuestPageTables

  const PAGE_BYTES: nat := 4096

  type PageBytes = s: seq<byte> | |s| == PAGE_BYTES witness seq(PAGE_BYTES, i => 0)

  datatype GuestPage = GuestPage(write: bool, exec: bool, bytes: PageBytes)

  type Space = map<Path, GuestPage>

  ghost function ByteOrZero(mem: Memory, x: nat): byte {
    if x / 8 < |mem| then ByteAt(mem, x) else 0
  }

  ghost function BytesAt(mem: Memory, page: nat): (r: PageBytes)
    ensures forall j :: 0 <= j < PAGE_BYTES ==> r[j] == ByteOrZero(mem, page + j)
  {
    Filled((j: nat) => ByteOrZero(mem, page + j))
  }

  ghost function PageOf(mem: Memory, e: u64): GuestPage {
    GuestPage(Writable(e), !NoExecute(e), BytesAt(mem, AddressOf(e)))
  }

  ghost function SpaceOf(g: Snapshot): Space {
    map p | p in g.pages :: PageOf(g.mem, g.pages[p])
  }

  /** A page with the given contents. */
  ghost function Filled(f: nat -> byte): (r: PageBytes)
    ensures forall j: nat :: j < PAGE_BYTES ==> r[j] == f(j)
  {
    seq(PAGE_BYTES, j requires 0 <= j < PAGE_BYTES => f(j))
  }

  /** A new page adds a page to the space, with its rights and contents, and changes no other. */
  lemma SpaceAfterFault(a: Snapshot, b: Snapshot, root: u64, va: u64, e: u64, f: nat -> byte, write: bool, exec: bool)
    requires Sound(a, root) && OnlyOwnedPages(a.pages) && OwnedPagesFit(a.pages, 8 * |a.mem|)
    requires GotPage(a, b, va, Page4K, e, NOTHING) && Grants(e, write, exec, false)
    requires Holds(b.mem, AddressOf(e), 4096, f, 0)
    ensures SpaceOf(b) == SpaceOf(a)[PathOf(va, 4) := GuestPage(write, exec, Filled(f))]
  {
    hide IsTree, Separate, Owned, AddressOf, PathOf, ChangesOnly, Writable, NoExecute, UserOk;
    GotPageIsKept(a, b, va, Page4K, e, NOTHING);
    forall p | p in a.pages ensures PageOf(b.mem, a.pages[p]) == PageOf(a.mem, a.pages[p]) {
      OldBytesStay(a, b, root, p);
    }
    NewBytesAre(b.mem, AddressOf(e), f);
  }

  lemma NewBytesAre(mem: Memory, page: nat, f: nat -> byte)
    requires Holds(mem, page, 4096, f, 0)
    ensures BytesAt(mem, page) == Filled(f)
  {
    forall j: nat | j < 4096 ensures BytesAt(mem, page)[j] == Filled(f)[j] {
      HeldByte(mem, page, 4096, f, 0, j);
    }
  }

  lemma OldBytesStay(a: Snapshot, b: Snapshot, root: u64, p: Path)
    requires Sound(a, root) && OnlyOwnedPages(a.pages) && Kept(a, b, NOTHING) && |b.mem| == |a.mem| && p in a.pages
    ensures BytesAt(b.mem, AddressOf(a.pages[p])) == BytesAt(a.mem, AddressOf(a.pages[p]))
  {
    hide IsTree, Separate, Owned, Kept, AddressOf, OnlyOwnedPages;
    var page := AddressOf(a.pages[p]);
    OwnedPageIsDeep(a.pages, p);
    forall j: nat | j < 4096 ensures BytesAt(b.mem, page)[j] == BytesAt(a.mem, page)[j] {
      if (page + j) / 8 < |a.mem| { OwnedPageKeepsContents(a, b, root, p, NOTHING, page + j); }
    }
  }

  lemma OwnedPageIsDeep(pages: Pages, p: Path)
    requires OnlyOwnedPages(pages) && p in pages
    ensures Deallocate(pages[p]) && Depth(p) == 4
  {
  }

  /** A store changes the byte that it names in the space, and nothing else. */
  lemma SpaceAfterStore(a: Snapshot, b: Snapshot, root: u64, va: u64, x: nat, v: byte)
    requires Sound(a, root) && OnlyOwnedPages(a.pages) && Translation(a.pages, va) == Some(x) && x / 8 < |a.mem|
    requires b == a.(mem := a.mem[x / 8 := SetByte(a.mem[x / 8], x % 8, v)])
    ensures PathOf(va, 4) in SpaceOf(a)
    ensures var page := SpaceOf(a)[PathOf(va, 4)];
      SpaceOf(b) == SpaceOf(a)[PathOf(va, 4) := page.(bytes := page.bytes[va % 4096 := v])]
  {
    hide IsTree, Separate, Owned, AddressOf, PathOf, Translation, SetByte, Writable, NoExecute, BytesAt;
    GuestWalkFinds(a, root, va);
    forall p | p in a.pages
      ensures BytesAt(b.mem, AddressOf(a.pages[p])) ==
              if p == PathOf(va, 4) then BytesAt(a.mem, AddressOf(a.pages[p]))[va % 4096 := v]
              else BytesAt(a.mem, AddressOf(a.pages[p]))
    {
      BytesAfterStore(a, b, root, va, x, v, p);
    }
  }

  lemma BytesAfterStore(a: Snapshot, b: Snapshot, root: u64, va: u64, x: nat, v: byte, p: Path)
    requires Sound(a, root) && OnlyOwnedPages(a.pages) && Translation(a.pages, va) == Some(x) && x / 8 < |a.mem|
    requires b == a.(mem := a.mem[x / 8 := SetByte(a.mem[x / 8], x % 8, v)]) && p in a.pages
    ensures PathOf(va, 4) in a.pages
    ensures BytesAt(b.mem, AddressOf(a.pages[p])) ==
            if p == PathOf(va, 4) then BytesAt(a.mem, AddressOf(a.pages[p]))[va % 4096 := v]
            else BytesAt(a.mem, AddressOf(a.pages[p]))
  {
    hide IsTree, Separate, Owned, AddressOf, PathOf, Translation, SetByte;
    GuestWalkFinds(a, root, va);
    var q, page := PathOf(va, 4), AddressOf(a.pages[p]);
    var after := if p == q then BytesAt(a.mem, page)[va % 4096 := v] else BytesAt(a.mem, page);
    forall j: nat | j < 4096 ensures BytesAt(b.mem, page)[j] == after[j] {
      if (page + j) / 8 == x / 8 {
        if p != q {
          WordsOfPagesDiffer(a, root, p, q, page + j, x);
        } else if page + j != x {
          PageTables.SameWordOtherByte(0, page + j, x);
        }
      }
    }
  }

  /** Different pages of the guest have no word in common. */
  lemma WordsOfPagesDiffer(a: Snapshot, root: u64, p: Path, q: Path, x: nat, y: nat)
    requires Sound(a, root) && OnlyOwnedPages(a.pages) && p in a.pages && q in a.pages && p != q
    requires InSpan(AddressOf(a.pages[p]), 4096, x) && InSpan(AddressOf(a.pages[q]), 4096, y)
    ensures x / 8 != y / 8
  {
    hide IsTree, Owned;
    AncestorsAreTables(a.mem, root, a.tables, a.pages, p, p);
    AncestorsAreTables(a.mem, root, a.tables, a.pages, q, q);
    WordOfPageByte(AddressOf(a.pages[p]), 4096, x);
    WordOfPageByte(AddressOf(a.pages[q]), 4096, y);
    assert OwnsByte(a.tables, a.pages, p, 8 * (x / 8)) && OwnsByte(a.tables, a.pages, q, 8 * (y / 8));
  }
}
