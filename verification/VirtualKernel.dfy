/** The virtual kernel (kernel/src/vm/vkernel.rs): guest page tables on top of nested ones, filled on
    demand by page faults, while the guest stores to what it has mapped. */
module VirtualKernels {
  import opened MachineInts
  import opened RangeSets
  import opened PhysicalMemories
  import opened PageTrees
  import opened PageMaps
  import opened PageSnapshots
  import opened PageRegions
  import opened PageTables
  import opened PageRuns
  import opened GuestMemories
  import opened GuestPageTables
  import opened GuestSpaces

  // ---------------------------------------------------------------------------------------
  // Two walks
  // ---------------------------------------------------------------------------------------

  /** The guest's memory `g` is what the nested tables of `h` give it: the first `n` guest pages are allocated,
      and they are exactly the guest's tables and pages. */
  ghost predicate Nested(h: Snapshot, hroot: u64, g: Snapshot, groot: u64, n: nat) {
    Behind(h, hroot, g, n) && TablesFill(g, groot, n)
  }

  /** The guest's memory is the one behind the nested tables. */
  ghost predicate Behind(h: Snapshot, hroot: u64, g: Snapshot, n: nat) {
    HostSound(h, hroot) && n <= MAX_GUEST_PAGES && AllBacked(h.pages, n) && g.mem == GuestWords(h, hroot, n)
  }

  /** The guest's tables and pages fill the first `n` guest pages. */
  ghost predicate TablesFill(g: Snapshot, groot: u64, n: nat) {
    && GuestSound(g, groot, 4096 * n) && OnlyOwnedPages(g.pages)
    && Owned(g.tables, g.pages) == Span(0, 4096 * n)
  }

  /** The host address that a guest-virtual address reaches. */
  ghost function TwoWalks(h: Snapshot, g: Snapshot, va: u64): Option<u64> {
    match Translation(g.pages, va)
    case None => None
    case Some(p) => Translation(h.pages, p)
  }

  /** Whatever the guest maps has its own host frame behind it. */
  ghost predicate BackedAt(h: Snapshot, hroot: u64, g: Snapshot, n: nat, va: u64)
    requires HostSound(h, hroot)
  {
    Translation(g.pages, va).Some? ==>
      var x := Translation(g.pages, va).value;
      && x < 4096 * n && Backed(h.pages, x / 4096) && x / 8 < |g.mem|
      && TwoWalks(h, g, va) == Some(HostAddress(h.pages, x))
      && ByteAt(g.mem, x) == GuestByte(h, hroot, x)
  }

  lemma MappedPagesAreBacked(h: Snapshot, hroot: u64, g: Snapshot, groot: u64, n: nat, va: u64)
    requires Nested(h, hroot, g, groot, n)
    ensures BackedAt(h, hroot, g, n, va)
  {
    hide IsTree, Separate, Owned, HostSound, GuestWords, AllBacked, Translation;
    if Translation(g.pages, va).Some? {
      var x := Translation(g.pages, va).value;
      GuestWalkFinds(g, groot, va);
      OwnedIsAllocated(g, groot, 4096 * n, PathOf(va, 4), x);
      BytesOfGuestWords(h, hroot, n, x);
      NestedWalkFinds(h, hroot, x);
    }
  }

  /** Distinct guest-virtual pages reach distinct host frames: two addresses that reach the same host
      address lie in the same page, at the same offset. */
  ghost predicate DistinctAt(h: Snapshot, g: Snapshot, va: u64, vb: u64) {
    Translation(g.pages, va).Some? && Translation(g.pages, vb).Some? && TwoWalks(h, g, va) == TwoWalks(h, g, vb) ==>
      PageNumber(va, 4) == PageNumber(vb, 4) && va % 4096 == vb % 4096
  }

  lemma PagesReachDistinctFrames(h: Snapshot, hroot: u64, g: Snapshot, groot: u64, n: nat, va: u64, vb: u64)
    requires Nested(h, hroot, g, groot, n)
    ensures DistinctAt(h, g, va, vb)
  {
    hide IsTree, Owned, HostSound, PathOf, PageNumber, HostAddress, TwoWalks, Translation, GuestWords;
    if Translation(g.pages, va).Some? && Translation(g.pages, vb).Some? && TwoWalks(h, g, va) == TwoWalks(h, g, vb) {
      var x, y := Translation(g.pages, va).value, Translation(g.pages, vb).value;
      MappedPagesAreBacked(h, hroot, g, groot, n, va);
      MappedPagesAreBacked(h, hroot, g, groot, n, vb);
      if x != y { HostAddressesDiffer(h, hroot, x, y); }
      GuestWalkFinds(g, groot, va);
      GuestWalkFinds(g, groot, vb);
      SamePositionSamePage(va, vb, 4);
    }
  }

  /** No guest-virtual address reaches a frame of the guest's page tables. */
  ghost predicate TablesSafeFrom(h: Snapshot, g: Snapshot, n: nat, va: u64) {
    Translation(g.pages, va).Some? ==> forall p, x: nat :: p in g.tables && InSpan(g.tables[p], 4096, x) ==> TableByteSafe(h, g, n, va, x)
  }

  ghost predicate TableByteSafe(h: Snapshot, g: Snapshot, n: nat, va: u64, x: nat) {
    x < 4096 * n && Backed(h.pages, x / 4096) && TwoWalks(h, g, va) != Some(HostAddress(h.pages, x))
  }

  lemma TablesAreOutOfReach(h: Snapshot, hroot: u64, g: Snapshot, groot: u64, n: nat, va: u64)
    requires Nested(h, hroot, g, groot, n)
    ensures TablesSafeFrom(h, g, n, va)
  {
    hide IsTree, Separate, Owned, HostSound, PathOf, HostAddress, TwoWalks, Translation, GuestSound;
    if Translation(g.pages, va).Some? {
      forall p, x: nat | p in g.tables && InSpan(g.tables[p], 4096, x) ensures TableByteSafe(h, g, n, va, x) {
        TableByteIsOutOfReach(h, hroot, g, groot, n, va, p, x);
      }
    }
  }

  lemma TableByteIsOutOfReach(h: Snapshot, hroot: u64, g: Snapshot, groot: u64, n: nat, va: u64, p: Path, x: nat)
    requires Nested(h, hroot, g, groot, n) && Translation(g.pages, va).Some?
    requires p in g.tables && InSpan(g.tables[p], 4096, x)
    ensures TableByteSafe(h, g, n, va, x)
  {
    hide IsTree, Owned, HostSound, PathOf, HostAddress, TwoWalks, Translation, GuestWords;
    var y := Translation(g.pages, va).value;
    assert OwnsByte(g.tables, g.pages, p, x);
    OwnedIsAllocated(g, groot, 4096 * n, p, x);
    PageIsBacked(h.pages, n, x);
    MappedPagesAreBacked(h, hroot, g, groot, n, va);
    GuestWalkFinds(g, groot, va);
    AncestorsAreTables(g.mem, groot, g.tables, g.pages, p, p);
    HostAddressesDiffer(h, hroot, x, y);
  }

  /** All of this, for every guest-virtual address. */
  ghost predicate Isolated(h: Snapshot, hroot: u64, g: Snapshot, n: nat) {
    && HostSound(h, hroot)
    && (forall va: u64 :: BackedAt(h, hroot, g, n, va) && TablesSafeFrom(h, g, n, va))
    && forall va: u64, vb: u64 :: DistinctAt(h, g, va, vb)
  }

  lemma NestedIsIsolated(h: Snapshot, hroot: u64, g: Snapshot, groot: u64, n: nat)
    requires Nested(h, hroot, g, groot, n)
    ensures Isolated(h, hroot, g, n)
  {
    hide HostSound, GuestSound, BackedAt, TablesSafeFrom, DistinctAt;
    forall va: u64 ensures BackedAt(h, hroot, g, n, va) && TablesSafeFrom(h, g, n, va) {
      MappedPagesAreBacked(h, hroot, g, groot, n, va);
      TablesAreOutOfReach(h, hroot, g, groot, n, va);
    }
    forall va: u64, vb: u64 ensures DistinctAt(h, g, va, vb) {
      PagesReachDistinctFrames(h, hroot, g, groot, n, va, vb);
    }
  }

  /** The page at `va` reads, through both walks, as `f`. */
  ghost predicate PageReads(h: Snapshot, g: Snapshot, va: u64, f: nat -> byte) {
    forall r: nat :: r < 4096 ==> ReadsThrough(h, g, va, f, r)
  }

  ghost predicate ReadsThrough(h: Snapshot, g: Snapshot, va: u64, f: nat -> byte, r: nat) {
    && va + r < TWO_64 && TwoWalks(h, g, va + r).Some?
    && TwoWalks(h, g, va + r).value < 8 * |h.mem| && ByteAt(h.mem, TwoWalks(h, g, va + r).value) == f(r)
  }

  /** A page that a fault brought in reads as its contents. */
  lemma FaultedPageReads(h: Snapshot, hroot: u64, a: Snapshot, g: Snapshot, groot: u64, n: nat, va: u64, entries: seq<u64>,
                         waste: iset<int>, f: nat -> byte, write: bool, exec: bool)
    requires Nested(h, hroot, g, groot, n) && |entries| == 1 && va + 4096 <= TWO_64
    requires GotPages(a, g, va, Page4K, entries, waste) && RegionReady(g.mem, Page4K, entries, f, write, exec, false)
    ensures PageReads(h, g, va, f)
  {
    hide IsTree, Separate, Owned, HostSound, PathOf, HardwareWalk, GotPages, RegionReady, Translation, GuestWords;
    forall r: nat | r < 4096 ensures ReadsThrough(h, g, va, f, r) {
      RegionReadsAs(a, g, groot, va, Page4K, entries, waste, f, write, exec, false, 0, r);
      assert va + Offset(Page4K, 0) + r == va + r;
      MappedPagesAreBacked(h, hroot, g, groot, n, va + r);
      FrameFits(h, hroot, Translation(g.pages, va + r).value / 4096);
    }
  }

  // ---------------------------------------------------------------------------------------
  // One fault
  // ---------------------------------------------------------------------------------------

  /** The guest page that a fault brought in is the only change to the guest's address space. */
  lemma FaultKeepsNesting(h: Snapshot, hroot: u64, a: Snapshot, b: Snapshot, groot: u64, m: nat, n: nat,
                          va: u64, e: u64, f: nat -> byte, write: bool, exec: bool)
    requires Behind(h, hroot, b, n) && TablesFill(a, groot, m)
    requires GuestSound(b, groot, 4096 * n) && GotPage(a, b, va, Page4K, e, NOTHING) && va % 4096 == 0 && va + Offset(Page4K, 1) <= TWO_64
    requires Grants(e, write, exec, false) && Holds(b.mem, AddressOf(e), 4096, f, 0)
    ensures Nested(h, hroot, b, groot, n)
    ensures GotPages(a, b, va, Page4K, [e], NOTHING) && PageReads(h, b, va, f)
    ensures SpaceOf(b) == SpaceOf(a)[PathOf(va, 4) := GuestPage(write, exec, Filled(f))]
  {
    hide IsTree, Separate, Owned, Behind, Holds, Grants, PathOf, ChangesOnly, PagesWith, OwnedPagesFit, PageReads;
    SpaceAfterFault(a, b, groot, va, e, f, write, exec);
    TotalStays(a, b, groot, 4096 * m, 4096 * n);
    OnePageIsRegion(a, b, groot, va, e, f, write, exec);
    FaultedPageReads(h, hroot, a, b, groot, n, va, [e], NOTHING, f, write, exec);
  }

  lemma TotalStays(a: Snapshot, b: Snapshot, root: u64, m: nat, n: nat)
    requires GuestSound(a, root, m) && GuestSound(b, root, n) && Kept(a, b, NOTHING)
    requires Owned(a.tables, a.pages) == Span(0, m)
    ensures Owned(b.tables, b.pages) == Span(0, n)
  {
    hide IsTree, Separate, Owned;
    var total := Span(0, GUEST_BYTES);
    assert a.free + Owned(a.tables, a.pages) + a.lost == total;
    assert Owned(b.tables, b.pages) == total - b.free;
  }

  lemma OnePageIsRegion(a: Snapshot, b: Snapshot, root: u64, va: u64, e: u64, f: nat -> byte, write: bool, exec: bool)
    requires IsTree(a.mem, root, a.tables, a.pages) && va % 4096 == 0 && GotPage(a, b, va, Page4K, e, NOTHING)
    requires Grants(e, write, exec, false) && Holds(b.mem, AddressOf(e), 4096, f, 0)
    ensures va + 4096 <= TWO_64 && GotPages(a, b, va, Page4K, [e], NOTHING)
    ensures RegionReady(b.mem, Page4K, [e], f, write, exec, false)
  {
    hide IsTree, GotPage, GotPages, Holds, Grants;
    TablesAreAligned(a.mem, root, a.tables, a.pages);
    GotPagesStart(a, va, Page4K);
    assert NOTHING + NOTHING == NOTHING;
    GotPagesStep(a, a, b, va, Page4K, [], e, NOTHING, NOTHING);
    assert [] + [e] == [e];
    assert PageReady(b.mem, Page4K, [e][0], 0, f, write, exec, false);
  }

  /** A page of the guest can be mapped exactly when its address is canonical and nothing is mapped there. */
  lemma FaultIsAllowed(g: Snapshot, groot: u64, va: u64)
    requires IsTree(g.mem, groot, g.tables, g.pages) && OnlyOwnedPages(g.pages) && va % 4096 == 0
    ensures MapAllowed(g.tables, g.pages, va, Page4K, true, false) <==> IsCanonical(va) && Lookup(g.pages, va).None?
  {
    hide IsTree;
    TablesAreShallow(g.mem, groot, g.tables, g.pages, PathOf(va, 4));
  }

  // ---------------------------------------------------------------------------------------
  // Page faults
  // ---------------------------------------------------------------------------------------

  datatype Image = Image(base: u64, bytes: seq<byte>, permissions: seq<byte>)

  /** The arguments of `map_init`. */
  datatype Plan = Plan(page: u64, write: bool, exec: bool, init: Option<nat -> byte>)

  function PagesOf(bytes: nat): nat { (bytes + 0xfff) / 4096 }

  predicate Bit(b: byte, k: nat)
    requires k < 8
  {
    match k case 0 => b % 2 == 1 case 1 => b / 2 % 2 == 1 case 2 => b / 4 % 2 == 1 case 3 => b / 8 % 2 == 1
            case 4 => b / 16 % 2 == 1 case 5 => b / 32 % 2 == 1 case 6 => b / 64 % 2 == 1 case _ => b / 128 % 2 == 1
  }

  /** How `run` handles a fault on a page that is not present: image pages get the image's bytes and
      permissions, other pages are zeroed, writable and not executable. */
  function PlanFault(image: Image, address: u64): Attempt<Plan> {
    var page := address / 4096 * 4096;
    var end := (image.base + PagesOf(|image.bytes|) * 4096) % TWO_64;
    if image.base <= page < end then
      var offset := page - image.base;
      if offset % 4096 != 0 then Panicked
      else
        var index := offset / 4096 * 2 / 8;
        var bit := offset / 4096 * 2 % 8;
        if index >= |image.permissions| || offset > |image.bytes| then Panicked
        else
          var perms := image.permissions[index];
          Done(Plan(page, Bit(perms, bit), Bit(perms, bit + 1),
                    Some((k: nat) => if offset + k < |image.bytes| then image.bytes[offset + k] else 0)))
    else Done(Plan(page, true, false, None))
  }

  /** `get_vkernel_image` */
  function LoadImage(base: u64, bytes: seq<byte>): Image {
    Image(base, bytes, seq((PagesOf(|bytes|) * 4096 + 3) / 4, i => 3))
  }

  /** The bitmap has a byte for every four bytes of the padded image, although two bits for every page are enough. */
  lemma PermissionsOfImage(base: u64, bytes: seq<byte>)
    ensures |LoadImage(base, bytes).permissions| == (|bytes| + 0xfff) / 0x1000 * 0x400
    ensures forall p <- LoadImage(base, bytes).permissions :: p == 3
  {
  }

  /** A fault anywhere in the image brings in the bytes that belong there, followed by zeros, and
      never fails. Of the permissions, `get_vkernel_image` fills in two of the eight bits of every
      byte: only every fourth page of the image becomes writable and executable. */
  lemma ImageFaults(base: u64, bytes: seq<byte>, address: u64)
    requires base % 4096 == 0 && base + (|bytes| + 0xfff) / 0x1000 * 0x1000 < TWO_64
    requires base <= address < base + (|bytes| + 0xfff) / 0x1000 * 0x1000
    ensures var r := PlanFault(LoadImage(base, bytes), address);
      var page := address / 4096 * 4096;
      && r.Done? && r.value.page == page && r.value.init.Some?
      && (forall k: nat :: k < 4096 ==>
            r.value.init.value(k) == if page - base + k < |bytes| then bytes[page - base + k] else 0)
      && (r.value.write <==> (page - base) / 4096 % 4 == 0)
      && (r.value.exec <==> (page - base) / 4096 % 4 == 0)
  {
    hide Bit;
    var page := address / 4096 * 4096;
    var i := (page - base) / 4096;
    ImagePage(base, bytes, page, i);
    BitsOfThree();
  }

  /** Whatever the permissions of an image are: two bits for every page, the lower one for writing and the higher one for
      executing, and a page without bits is a panic. */
  lemma ImageRights(image: Image, address: u64, i: nat)
    requires image.base % 4096 == 0 && image.base + (|image.bytes| + 0xfff) / 0x1000 * 0x1000 < TWO_64
    requires i < (|image.bytes| + 0xfff) / 0x1000 && image.base + i * 0x1000 <= address < image.base + (i + 1) * 0x1000
    ensures var r := PlanFault(image, address);
      && (r.Done? <==> i / 4 < |image.permissions|)
      && (r.Done? ==>
            && r.value.page == image.base + i * 0x1000
            && (r.value.write <==> image.permissions[i / 4] / Pow2(2 * (i % 4)) % 2 == 1)
            && (r.value.exec <==> image.permissions[i / 4] / Pow2(2 * (i % 4) + 1) % 2 == 1))
  {
    hide Bit, Pow2;
    var b := image.base / 4096;
    Divides(address, 4096, b + i, address - image.base - i * 4096);
    ImagePage(image.base, image.bytes, image.base + i * 4096, i);
    if i / 4 < |image.permissions| {
      BitMeaning(image.permissions[i / 4], 2 * (i % 4));
      BitMeaning(image.permissions[i / 4], 2 * (i % 4) + 1);
    }
  }

  /** An image that does not start on a page boundary cannot be faulted in at all. */
  lemma UnalignedImage(image: Image, address: u64)
    requires image.base % 4096 != 0 && image.base + (|image.bytes| + 0xfff) / 0x1000 * 0x1000 < TWO_64
    requires image.base <= address / 4096 * 4096 < image.base + (|image.bytes| + 0xfff) / 0x1000 * 0x1000
    ensures PlanFault(image, address).Panicked?
  {
    var page, offset := address / 4096, address / 4096 * 4096 - image.base;
    if offset % 4096 == 0 { Divides(image.base, 4096, page - offset / 4096, 0); }
  }

  lemma BitMeaning(b: byte, k: nat)
    requires k < 8
    ensures Pow2(k) > 0 && (Bit(b, k) <==> b / Pow2(k) % 2 == 1)
  {
    assert Pow2(0) == 1 && Pow2(1) == 2 && Pow2(2) == 4 && Pow2(3) == 8;
    assert Pow2(4) == 16 && Pow2(5) == 32 && Pow2(6) == 64 && Pow2(7) == 128;
  }

  lemma ImagePage(base: u64, bytes: seq<byte>, page: nat, i: nat)
    requires base % 4096 == 0 && page % 4096 == 0 && i == (page - base) / 4096
    requires base <= page < base + PagesOf(|bytes|) * 4096
    ensures page - base == 4096 * i && page - base < |bytes|
    ensures i * 2 / 8 == i / 4 && i * 2 % 8 == i % 4 * 2 && i / 4 < (PagesOf(|bytes|) * 4096 + 3) / 4
  {
    assert i < PagesOf(|bytes|);
  }

  /** The byte 0b11. */
  lemma BitsOfThree()
    ensures forall k: nat :: k < 8 ==> (Bit(3, k) <==> k < 2)
  {
  }

  /** A fault outside the image brings in a zeroed page that is writable and not executable. */
  lemma OtherFaults(base: u64, bytes: seq<byte>, address: u64)
    requires base % 4096 == 0 && base + (|bytes| + 0xfff) / 0x1000 * 0x1000 < TWO_64
    requires !(base <= address < base + (|bytes| + 0xfff) / 0x1000 * 0x1000)
    ensures PlanFault(LoadImage(base, bytes), address) == Done(Plan(address / 4096 * 4096, true, false, None))
  {
    hide Bit;
    PageInImage(base, PagesOf(|bytes|), address);
  }

  lemma PageInImage(base: u64, n: nat, address: u64)
    requires base % 4096 == 0
    ensures base <= address / 4096 * 4096 < base + n * 4096 <==> base <= address < base + n * 4096
  {
    var b, a := base / 4096, address / 4096;
    assert base == b * 4096;
  }

  // ---------------------------------------------------------------------------------------
  // The virtual kernel
  // ---------------------------------------------------------------------------------------

  /** What happens while the guest runs: it stores a byte, or it exits. */
  datatype Event = Store(va: u64, b: byte) | Intr | PageFault(address: u64, errorCode: nat) | Delivery | OtherExit

  /** A fault that `run` cannot handle: the page was present, or the plan fails, or nothing can be mapped at
      that address, or something is mapped there already. */
  ghost predicate BadFault(image: Image, space: Space, address: u64, errorCode: nat) {
    || errorCode % 2 == 1 || PlanFault(image, address).Panicked?
    || !IsCanonical(address / 4096 * 4096) || PathOf(address / 4096 * 4096, 4) in space
  }

  /** The error code matters with its lowest bit only: a missing page is handled whatever the access was. Outside of the
      image a fault is bad exactly when the page was present, or its address is not accepted, or it is mapped already. */
  lemma BadFaultMeaning(base: u64, bytes: seq<byte>, space: Space, address: u64, errorCode: nat)
    requires base % 4096 == 0 && base + (|bytes| + 0xfff) / 0x1000 * 0x1000 < TWO_64
    ensures var page := address / 4096 * 4096;
      BadFault(LoadImage(base, bytes), space, address, errorCode) <==>
        || errorCode % 2 == 1 || PathOf(page, 4) in space
        || (0x8_0000_0000_0000 <= page < TWO_64 - 0x8_0000_0000_0000)
  {
    var page := address / 4096 * 4096;
    CanonicalMeaning(page);
    if base <= address < base + (|bytes| + 0xfff) / 0x1000 * 0x1000 { ImageFaults(base, bytes, address); } else { OtherFaults(base, bytes, address); }
  }

  ghost predicate BadEvent(image: Image, space: Space, e: Event) {
    e.Delivery? || (e.PageFault? && BadFault(image, space, e.address, e.errorCode))
  }

  /** A store of the guest: it changes a byte of a page that is there and may be written. */
  ghost function AfterStore(space: Space, va: u64, b: byte): Space {
    var p := PathOf(va, 4);
    if HardwareCanonical(va) && p in space && space[p].write
    then space[p := space[p].(bytes := space[p].bytes[va % 4096 := b])]
    else space
  }

  /** A handled fault: the planned page is there. */
  ghost function AfterFault(image: Image, space: Space, address: u64): Space
    requires PlanFault(image, address).Done?
  {
    var plan := PlanFault(image, address).value;
    space[PathOf(plan.page, 4) := GuestPage(plan.write, plan.exec, Filled(ContentOf(plan.init)))]
  }

  /** What the guest's address space is after an event, if `run` goes on. */
  ghost function AfterEvent(image: Image, space: Space, e: Event): Option<Space> {
    match e
    case Store(va, b) => Some(AfterStore(space, va, b))
    case Intr => Some(space)
    case PageFault(address, errorCode) =>
      if BadFault(image, space, address, errorCode) then None else Some(AfterFault(image, space, address))
    case Delivery => None
    case OtherExit => None
  }

  /** The guest's address space after a sequence of events. */
  ghost function Played(image: Image, space: Space, events: seq<Event>): Option<Space> {
    if events == [] then Some(space)
    else
      match Played(image, space, events[..|events| - 1])
      case None => None
      case Some(before) => AfterEvent(image, before, events[|events| - 1])
  }

  lemma PlayedOneMore(image: Image, space: Space, events: seq<Event>, k: nat, before: Space)
    requires k < |events| && Played(image, space, events[..k]) == Some(before)
    ensures Played(image, space, events[..k + 1]) == AfterEvent(image, before, events[k])
  {
    assert events[..k + 1][..k] == events[..k];
  }

  lemma NothingPlayed(image: Image, space: Space, events: seq<Event>)
    ensures Played(image, space, events[..0]) == Some(space)
  {
  }

  lemma StoreIsAfterStore(a: Snapshot, b: Snapshot, root: u64, va: u64, x: nat, v: byte)
    requires Sound(a, root) && OnlyOwnedPages(a.pages) && HardwareCanonical(va)
    requires Translation(a.pages, va) == Some(x) && x / 8 < |a.mem| && Writable(Lookup(a.pages, va).value.entry)
    requires b == a.(mem := a.mem[x / 8 := SetByte(a.mem[x / 8], x % 8, v)])
    ensures SpaceOf(b) == AfterStore(SpaceOf(a), va, v)
  {
    hide IsTree, Separate, Owned, SetByte, BytesAt;
    SpaceAfterStore(a, b, root, va, x, v);
    GuestWalkFinds(a, root, va);
    LookupFinds(a.mem, root, a.tables, a.pages, va, 4);
  }

  /** A store that the processor does not let through changes nothing. */
  lemma NoStore(g: Snapshot, root: u64, va: u64, v: byte)
    requires Sound(g, root) && OnlyOwnedPages(g.pages)
    requires !HardwareCanonical(va) || Translation(g.pages, va).None? || !Writable(Lookup(g.pages, va).value.entry)
    ensures AfterStore(SpaceOf(g), va, v) == SpaceOf(g)
  {
    hide IsTree, Separate, Owned, BytesAt;
    if HardwareCanonical(va) && PathOf(va, 4) in g.pages {
      CanonicalMeaning(va);
      LookupFinds(g.mem, root, g.tables, g.pages, va, 4);
    }
  }

  /** The host's account since it had the bytes `free` free and `lost` lost. */
  ghost predicate AccountFrom(free: iset<int>, lost: iset<int>, h: Snapshot) {
    Total(h) == free + lost && lost <= h.lost && (Paged(free) ==> Paged(h.free) && h.lost == lost)
  }

  lemma AccountGoesOn(free: iset<int>, lost: iset<int>, a: Snapshot, b: Snapshot)
    requires AccountFrom(free, lost, a) && AccountKept(a, b)
    ensures AccountFrom(free, lost, b)
  {
  }

  lemma AccountStarts(free: iset<int>, lost: iset<int>, h: Snapshot, waste: iset<int>)
    requires Allocated(free, h.free, Owned(h.tables, h.pages), waste) && h.lost == lost + waste
    ensures AccountFrom(free, lost, h)
  {
    hide Owned;
  }

  class VKernel {
    const memory: GuestMemory
    const pageTable: GuestPageTable
    const image: Image

    ghost predicate Valid(host: PhysicalMemory)
      reads memory, memory.npt, pageTable, host, host.words, host.free, host.free.ranges
    {
      && pageTable.Valid(memory, host) && OnlyOwnedPages(pageTable.pages)
      && Owned(pageTable.tables, pageTable.pages) == Span(0, memory.address)
    }

    ghost function Host(host: PhysicalMemory): Snapshot
      requires Valid(host)
      reads memory, memory.npt, pageTable, host, host.words, host.free, host.free.ranges
    {
      memory.npt.State(host)
    }

    ghost function Guest(host: PhysicalMemory): Snapshot
      requires Valid(host)
      reads memory, memory.npt, pageTable, host, host.words, host.free, host.free.ranges
    {
      pageTable.State(memory, host)
    }

    /** The guest is nested and isolated. */
    ghost predicate Contained(host: PhysicalMemory)
      requires Valid(host)
      reads memory, memory.npt, pageTable, host, host.words, host.free, host.free.ranges
    {
      && Nested(Host(host), memory.npt.table, Guest(host), pageTable.table, memory.address / 4096)
      && Isolated(Host(host), memory.npt.table, Guest(host), memory.address / 4096)
    }

    constructor (memory: GuestMemory, pageTable: GuestPageTable, image: Image)
      ensures this.memory == memory && this.pageTable == pageTable && this.image == image
    {
      this.memory, this.pageTable, this.image := memory, pageTable, image;
    }

    /** `VKernel::new`: empty nested tables, and the guest's root table in guest page 0. */
    static method New(host: PhysicalMemory, image: Image) returns (r: Attempt<VKernel>)
      requires host.Valid()
      modifies host, host.words, host.free, host.free.ranges
      ensures !r.Refused?
      ensures r.Done? ==>
        && fresh(r.value) && fresh(r.value.memory) && fresh(r.value.memory.npt) && fresh(r.value.pageTable)
        && r.value.image == image && r.value.Valid(host) && r.value.Contained(host)
        && SpaceOf(r.value.Guest(host)) == map[]
        && AccountFrom(old(host.Free()), old(host.lost), r.value.Host(host))
      ensures r.Panicked? ==> image.base % 4096 != 0 || host.Exhausted() || old(host.CannotServe(Page4K))
    {
      hide IsTree, Separate, Owned, OwnedPagesFit, GuestWords, Starved, Nested, Isolated, GuestSound, Allocated, AccountFrom, AccountKept;
      if image.base % 4096 != 0 { return Panicked; }
      ghost var free0, lost0 := host.Free(), host.lost;
      var npt;
      ghost var waste;
      npt, waste := PageTable.New(host);
      if !npt.Done? { return Panicked; }
      AccountStarts(free0, lost0, npt.value.State(host), waste);
      ghost var host0 := npt.value.State(host);
      var memory := new GuestMemory(npt.value);
      var pt := GuestPageTable.New(memory, host);
      if !pt.Done? { return Panicked; }
      var kernel := new VKernel(memory, pt.value, image);
      AccountGoesOn(free0, lost0, host0, kernel.Host(host));
      kernel.StaysContained(host);
      return Done(kernel);
    }

    lemma StaysContained(host: PhysicalMemory)
      requires Valid(host)
      ensures Contained(host)
    {
      hide IsTree, Separate, Owned, Isolated;
      NestedIsIsolated(Host(host), memory.npt.table, Guest(host), pageTable.table, memory.address / 4096);
    }

    /** The page fault branch of `run`. The page is mapped, and reads as planned through both walks. It panics
        only on a bad fault, or when there is no memory left for a page, or no guest-physical address. */
    method HandleFault(host: PhysicalMemory, address: u64, errorCode: nat) returns (r: Attempt<()>, ghost entry: u64)
      requires Valid(host)
      modifies pageTable, memory, memory.npt, host, host.words, host.free, host.free.ranges
      ensures !r.Refused?
      ensures r.Done? ==> Valid(host) && Contained(host) && AccountKept(old(Host(host)), Host(host))
      ensures r.Done? ==>
        && errorCode % 2 == 0 && !BadFault(image, old(SpaceOf(Guest(host))), address, errorCode)
        && SpaceOf(Guest(host)) == AfterFault(image, old(SpaceOf(Guest(host))), address)
      ensures r.Done? ==>
        var plan := PlanFault(image, address).value;
        && plan.page + 4096 <= TWO_64
        && GotPages(old(Guest(host)), Guest(host), plan.page, Page4K, [entry], NOTHING)
        && Grants(entry, plan.write, plan.exec, false)
        && PageReads(Host(host), Guest(host), plan.page, ContentOf(plan.init))
      ensures r.Panicked? ==>
        || host.Exhausted() || memory.address > GUEST_BYTES
        || BadFault(image, old(SpaceOf(Guest(host))), address, errorCode)
      ensures r.Panicked? ==>
        || host.Exhausted() || memory.address > GUEST_BYTES || errorCode % 2 == 1 || PlanFault(image, address).Panicked?
        || !IsCanonical(address / 4096 * 4096) || PathOf(address / 4096 * 4096, 4) in old(SpaceOf(Guest(host)))
    {
      hide IsTree, Separate, Owned, OwnedPagesFit, GuestWords, AllBacked, OnlyBacked, Starved, Nested, Isolated, GotPage, GotPages,
           Holds, Grants, MapAllowed, Lookup, PageReads, AccountKept, SpaceOf;
      entry := 0;
      if errorCode % 2 == 1 { return Panicked, entry; }
      var planned := PlanFault(image, address);
      if planned.Panicked? { return Panicked, entry; }
      var Plan(page, write, exec, init) := planned.value;
      ghost var before, m := Guest(host), memory.address / 4096;
      FaultIsAllowed(before, pageTable.table, page);
      PositionsOfSpace(before);
      r, entry := pageTable.MapInit(memory, host, page, write, exec, init);
      if !r.Done? { return Panicked, entry; }
      FaultKeepsNesting(memory.npt.State(host), memory.npt.table, before, pageTable.State(memory, host), pageTable.table,
                        m, memory.address / 4096, page, entry, ContentOf(init), write, exec);
      NestedMeans(memory.npt.State(host), memory.npt.table, pageTable.State(memory, host), pageTable.table, memory.address / 4096);
      StaysContained(host);
    }

    /** `run`, until an exit that it does not handle, or for as long as we look. Between exits the guest
        stores whatever it likes. In the end its address space is what the events make of it, as if there were
        no tables and frames, and the guest is contained. A panic happens at the event `at`: a bad one, or a
        fault for which memory or guest-physical addresses have run out. */
    method Run(host: PhysicalMemory, events: seq<Event>) returns (r: Attempt<nat>, ghost at: nat)
      requires Valid(host)
      modifies pageTable, memory, memory.npt, host, host.words, host.free, host.free.ranges
      ensures !r.Refused?
      ensures r.Done? ==> Valid(host) && Contained(host) && AccountKept(old(Host(host)), Host(host))
      ensures r.Done? ==>
        && r.value <= |events| && (r.value < |events| ==> events[r.value].OtherExit?)
        && Played(image, old(SpaceOf(Guest(host))), events[..r.value]) == Some(SpaceOf(Guest(host)))
      ensures r.Panicked? ==>
        && at < |events| && Played(image, old(SpaceOf(Guest(host))), events[..at]).Some?
        && (|| BadEvent(image, Played(image, old(SpaceOf(Guest(host))), events[..at]).value, events[at])
            || (events[at].PageFault? && (host.Exhausted() || memory.address > GUEST_BYTES)))
    {
      hide IsTree, Separate, Owned, OwnedPagesFit, GuestWords, AllBacked, OnlyBacked, Starved, Nested, Isolated, GotPages, BadFault,
           Holds, Grants, Lookup, PageReads, Translation, SetByte, AccountKept, SpaceOf, Played, AfterStore, AfterFault, PlanFault;
      at := 0;
      NothingPlayed(image, SpaceOf(Guest(host)), events);
      StoresKeepAccount(Host(host), Host(host));
      for k := 0 to |events|
        invariant Valid(host) && AccountKept(old(Host(host)), Host(host))
        invariant Played(image, old(SpaceOf(Guest(host))), events[..k]) == Some(SpaceOf(Guest(host)))
      {
        ghost var space, before, host0 := SpaceOf(Guest(host)), Guest(host), Host(host);
        PlayedOneMore(image, old(SpaceOf(Guest(host))), events, k, space);
        match events[k] {
          case Store(va, b) =>
            GuestStore(host, va, b);
            StoresKeepAccount(host0, Host(host));
            AccountComposes(old(Host(host)), host0, Host(host));
          case Intr =>
          case PageFault(address, errorCode) =>
            var handled;
            ghost var entry;
            handled, entry := HandleFault(host, address, errorCode);
            if handled.Panicked? { return Panicked, k; }
            AccountComposes(old(Host(host)), host0, Host(host));
          case Delivery =>
            return Panicked, k;
          case OtherExit =>
            StaysContained(host);
            return Done(k), k;
        }
      }
      StaysContained(host);
      return Done(|events|), at;
    }

    /** The processor stores a byte for the guest, if its walk finds a page that may be written. */
    method GuestStore(host: PhysicalMemory, va: u64, b: byte)
      requires Valid(host)
      modifies host.words
      ensures Valid(host) && SpaceOf(Guest(host)) == AfterStore(old(SpaceOf(Guest(host))), va, b)
    {
      hide IsTree, Separate, Owned, OwnedPagesFit, GuestWords, AllBacked, OnlyBacked, Lookup, Translation, SetByte, SpaceOf, AfterStore,
           Writable, HardwareCanonical;
      ghost var before := Guest(host);
      var x := pageTable.Walk(memory, host, va);
      if x.Some? && x.value.1 {
        pageTable.Store(memory, host, va, x.value.0, b);
        StoreIsAfterStore(before, Guest(host), pageTable.table, va, x.value.0, b);
      } else {
        NoStore(before, pageTable.table, va, b);
      }
    }

    /** `Npt::drop`: everything that the nested tables own goes back to the host. It cannot panic while the set has
        as many free slots as the nested tables have tables and pages. */
    method Drop(host: PhysicalMemory) returns (r: Attempt<()>)
      requires Valid(host)
      modifies host.words, host.free, host.free.ranges
      ensures !r.Refused?
      ensures r.Done? ==> host.Valid() && host.Free() == old(host.Free()) + memory.npt.OwnedBytes()
      ensures r.Panicked? ==> host.free.used == CAPACITY && old(host.free.used) + memory.npt.Weight() > CAPACITY
    {
      r := memory.npt.Destroy(host);
    }

    /** A whole life: the kernel is created, runs, and is dropped. The host has its free memory back without what
        was lost, and all of it when it consisted of whole pages. */
    static method Live(host: PhysicalMemory, image: Image, events: seq<Event>)
      returns (r: Attempt<nat>, ghost space: Option<Space>, ghost kernel: Option<VKernel>, ghost at: nat)
      requires host.Valid()
      modifies host, host.words, host.free, host.free.ranges
      ensures !r.Refused?
      ensures r.Done? ==> host.Valid() && r.value <= |events| && space == Played(image, map[], events[..r.value]) && space.Some?
      ensures r.Done? ==> host.Free() == old(host.Free()) - (host.lost - old(host.lost))
      ensures r.Done? && Paged(old(host.Free())) ==> host.Free() == old(host.Free())
      ensures r.Panicked? && kernel.None? ==> image.base % 4096 != 0 || host.Exhausted() || old(host.CannotServe(Page4K))
      ensures r.Panicked? && kernel.Some? ==>
        || host.free.used == CAPACITY
        || (at < |events| && Played(image, map[], events[..at]).Some?
            && (|| BadEvent(image, Played(image, map[], events[..at]).value, events[at])
                || (events[at].PageFault? && (host.Exhausted() || kernel.value.memory.address > GUEST_BYTES))))
    {
      hide IsTree, Separate, Owned, OwnedPagesFit, GuestWords, Nested, Isolated, AccountFrom, AccountKept, SpaceOf, Played, PlanFault, BadEvent,
           Starved, GuestSound;
      space, kernel, at := None, None, 0;
      ghost var free0, lost0 := host.Free(), host.lost;
      var created := New(host, image);
      if created.Panicked? { return Panicked, space, kernel, at; }
      kernel := Some(created.value);
      ghost var start := created.value.Host(host);
      r, at := created.value.Run(host, events);
      if r.Panicked? { return Panicked, space, kernel, at; }
      space := Some(SpaceOf(created.value.Guest(host)));
      ghost var last := created.value.Host(host);
      AccountGoesOn(free0, lost0, start, last);
      var dropped := created.value.Drop(host);
      if dropped.Panicked? { return Panicked, space, kernel, at; }
      AccountEnds(free0, lost0, last);
    }
  }

  lemma AccountEnds(free: iset<int>, lost: iset<int>, h: Snapshot)
    requires AccountFrom(free, lost, h) && lost !! free
    requires Owned(h.tables, h.pages) !! h.free && Owned(h.tables, h.pages) !! h.lost && h.lost !! h.free
    ensures h.free + Owned(h.tables, h.pages) == free - (h.lost - lost)
  {
    hide Owned;
  }

  lemma PositionsOfSpace(g: Snapshot)
    requires OnlyOwnedPages(g.pages)
    ensures forall va: u64 :: PathOf(va, 4) in SpaceOf(g) <==> PathOf(va, 4) in g.pages
    ensures forall va: u64 :: Lookup(g.pages, va).Some? <==> PathOf(va, 4) in g.pages
  {
    hide BytesAt;
  }

  lemma NestedMeans(h: Snapshot, hroot: u64, g: Snapshot, groot: u64, n: nat)
    requires Nested(h, hroot, g, groot, n)
    ensures OnlyOwnedPages(g.pages) && Owned(g.tables, g.pages) == Span(0, 4096 * n)
  {
  }
}
