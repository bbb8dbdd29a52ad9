/** How the bootloaders learn which memory is free, and how the kernel takes back what they used
    (bios_bootloader/src/mm.rs, uefi_bootloader/src/mm.rs, kernel/src/mm.rs). */
module MemoryMaps {
  import opened MachineInts
  import opened RangeSets

  // ---------------------------------------------------------------------------------------
  // The E820 list
  // ---------------------------------------------------------------------------------------

  /** An entry as the BIOS reports it: type 1 is free memory. */
  datatype E820Entry = E820Entry(base: u64, size: u64, typ: nat, acpi: nat) {
    predicate Counts() { acpi % 2 != 0 && size > 0 }

    predicate Overflows() { Counts() && base + (size - 1) > U64_MAX }

    predicate Free() { typ == 1 }

    ghost function Bytes(): iset<int> {
      if Counts() then Span(base, size) else iset{}
    }
  }

  ghost predicate Reports(list: seq<E820Entry>, free: bool, x: int) {
    exists i :: 0 <= i < |list| && list[i].Free() == free && x in list[i].Bytes()
  }

  /** The union of the free entries, or of the others. */
  ghost function Reported(list: seq<E820Entry>, free: bool): iset<int> {
    iset x: int | Reports(list, free, x)
  }

  ghost predicate SomeOverflows(list: seq<E820Entry>) {
    exists i :: 0 <= i < |list| && list[i].Overflows()
  }

  /** Which bytes entries report: those of the entries whose lowest ACPI bit is set. Type 1 is free memory. */
  lemma ReportedMeaning(list: seq<E820Entry>, free: bool)
    ensures forall x: int :: x in Reported(list, free) <==>
              exists e <- list :: (e.typ == 1) == free && e.acpi % 2 == 1 && e.base <= x < e.base + e.size
    ensures SomeOverflows(list) <==> exists e <- list :: e.acpi % 2 == 1 && e.size > 0 && e.base + e.size > 0x1_0000_0000_0000_0000
  {
    forall x: int
      ensures Reports(list, free, x) <==> exists e <- list :: (e.typ == 1) == free && e.acpi % 2 == 1 && e.base <= x < e.base + e.size
    {
      if e :| e in list && (e.typ == 1) == free && e.acpi % 2 == 1 && e.base <= x < e.base + e.size {
        var i :| 0 <= i < |list| && list[i] == e;
        assert list[i].Free() == free && x in list[i].Bytes();
      }
      if Reports(list, free, x) {
        var i :| 0 <= i < |list| && list[i].Free() == free && x in list[i].Bytes();
        assert list[i] in list;
      }
    }
    if e :| e in list && e.acpi % 2 == 1 && e.size > 0 && e.base + e.size > 0x1_0000_0000_0000_0000 {
      var i :| 0 <= i < |list| && list[i] == e;
      assert list[i].Overflows();
    }
    if SomeOverflows(list) {
      var i :| 0 <= i < |list| && list[i].Overflows();
      assert list[i] in list;
    }
  }

  lemma ReportedMore(list: seq<E820Entry>, k: nat, free: bool)
    requires k < |list|
    ensures Reported(list[..k + 1], free) ==
            Reported(list[..k], free) + (if list[k].Free() == free then list[k].Bytes() else iset{})
  {
    var more, less := list[..k + 1], list[..k];
    forall x ensures Reports(more, free, x) <==> Reports(less, free, x) || (list[k].Free() == free && x in list[k].Bytes()) {
      if Reports(less, free, x) {
        var i :| 0 <= i < |less| && less[i].Free() == free && x in less[i].Bytes();
        assert more[i] == less[i];
      }
      if list[k].Free() == free && x in list[k].Bytes() { assert more[k] == list[k]; }
      if Reports(more, free, x) {
        var i :| 0 <= i < |more| && more[i].Free() == free && x in more[i].Bytes();
        if i < k { assert less[i] == more[i]; }
      }
    }
  }

  /** One pass over the list: add the free entries, or remove the others. */
  method E820Pass(memory: RangeSet, list: seq<E820Entry>, cleanup: bool) returns (r: Attempt<()>)
    requires memory.Valid()
    modifies memory, memory.ranges
    ensures !r.Refused?
    ensures r.Done? ==> memory.Valid() && !SomeOverflows(list) && memory.used <= old(memory.used) + |list|
    ensures r.Done? ==>
      memory.Content() == if cleanup then old(memory.Content()) - Reported(list, false)
                          else old(memory.Content()) + Reported(list, true)
    ensures r.Panicked? ==> SomeOverflows(list) || old(memory.used) + |list| > CAPACITY
  {
    hide WellFormed;
    ghost var was := memory.Content();
    for k := 0 to |list|
      invariant memory.Valid() && memory.used <= old(memory.used) + k
      invariant forall i :: 0 <= i < k ==> !list[i].Overflows()
      invariant memory.Content() == if cleanup then was - Reported(list[..k], false) else was + Reported(list[..k], true)
    {
      ReportedMore(list, k, !cleanup);
      var entry := list[k];
      if entry.acpi % 2 != 0 && entry.size > 0 {
        var end := CheckedAdd(entry.base, entry.size - 1);
        if end.None? { return Panicked; }
        var range := Range(entry.base, end.value);
        assert SpanOf(range) == entry.Bytes();
        var ok := true;
        if entry.typ == 1 && !cleanup {
          ok := memory.Insert(range);
        } else if entry.typ != 1 && cleanup {
          ok := memory.Remove(range);
        }
        if !ok { return Panicked; }
      }
    }
    assert list[..|list|] == list;
    return Done(());
  }

  const FIRST_MEGABYTE: Range := Range(0, 0xf_ffff)

  /** `initialize` of the BIOS bootloader: what is free is what some free entry names and no other entry
      does, without the first megabyte. `first` and `second` are the lists that the two passes get. */
  method InitializeFromE820(memory: RangeSet, first: seq<E820Entry>, second: seq<E820Entry>) returns (r: Attempt<()>)
    requires memory.Valid()
    modifies memory, memory.ranges
    ensures !r.Refused?
    ensures r.Done? ==>
      && memory.Valid()
      && memory.Content() == Reported(first, true) - Reported(second, false) - SpanOf(FIRST_MEGABYTE)
      && forall x: int :: x in memory.Content() <==>
           && x >= 0x10_0000 && (exists e <- first :: e.typ == 1 && e.acpi % 2 == 1 && e.base <= x < e.base + e.size)
           && !(exists e <- second :: e.typ != 1 && e.acpi % 2 == 1 && e.base <= x < e.base + e.size)
    ensures r.Panicked? ==>
      || old(memory.used) != 0 || |first| + |second| >= CAPACITY
      || exists e <- first + second :: e.acpi % 2 == 1 && e.size > 0 && e.base + e.size > 0x1_0000_0000_0000_0000
  {
    hide WellFormed;
    ReportedMeaning(first, true);
    ReportedMeaning(second, false);
    if memory.used != 0 { return Panicked; }
    assert memory.Content() == iset{};
    var _ :- E820Pass(memory, first, false);
    var _ :- E820Pass(memory, second, true);
    var ok := memory.Remove(FIRST_MEGABYTE);
    return if ok then Done(()) else Panicked;
  }

  /** The order of the entries does not matter. */
  lemma OrderDoesNotMatter(a: seq<E820Entry>, b: seq<E820Entry>, free: bool)
    requires forall e :: e in a <==> e in b
    ensures Reported(a, free) == Reported(b, free)
  {
    forall x ensures Reports(a, free, x) <==> Reports(b, free, x) {
      if Reports(a, free, x) {
        var i :| 0 <= i < |a| && a[i].Free() == free && x in a[i].Bytes();
        assert a[i] in b;
      }
      if Reports(b, free, x) {
        var i :| 0 <= i < |b| && b[i].Free() == free && x in b[i].Bytes();
        assert b[i] in a;
      }
    }
  }

  // ---------------------------------------------------------------------------------------
  // The UEFI memory map
  // ---------------------------------------------------------------------------------------

  datatype MemoryKind = Conventional | BootTime | OtherKind

  datatype Descriptor = Descriptor(kind: MemoryKind, start: u64, pages: u64, writeBack: bool) {
    predicate Usable(wanted: MemoryKind) { writeBack && kind == wanted }

    /** The range that the loop builds, modulo 2^64. */
    function AsRange(): Range { Range(start, (start + pages * 4096 - 1) % TWO_64) }

    predicate Wraps() { start + pages * 4096 > TWO_64 }
  }

  ghost predicate Lists(descriptors: seq<Descriptor>, kind: MemoryKind, x: int) {
    exists i :: 0 <= i < |descriptors| && descriptors[i].Usable(kind) && InSpan(descriptors[i].start, descriptors[i].pages * 4096, x)
  }

  ghost function Listed(descriptors: seq<Descriptor>, kind: MemoryKind): iset<int> {
    iset x: int | Lists(descriptors, kind, x)
  }

  /** Descriptors list the pages of their kind, if these can be cached. */
  lemma ListedMeaning(descriptors: seq<Descriptor>, kind: MemoryKind)
    ensures forall x: int :: x in Listed(descriptors, kind) <==>
              exists d <- descriptors :: d.writeBack && d.kind == kind && d.start <= x < d.start + d.pages * 0x1000
  {
    forall x: int
      ensures Lists(descriptors, kind, x) <==>
              exists d <- descriptors :: d.writeBack && d.kind == kind && d.start <= x < d.start + d.pages * 0x1000
    {
      if d :| d in descriptors && d.writeBack && d.kind == kind && d.start <= x < d.start + d.pages * 0x1000 {
        var i :| 0 <= i < |descriptors| && descriptors[i] == d;
        assert descriptors[i].Usable(kind) && InSpan(descriptors[i].start, descriptors[i].pages * 4096, x);
      }
      if Lists(descriptors, kind, x) {
        var i :| 0 <= i < |descriptors| && descriptors[i].Usable(kind) && InSpan(descriptors[i].start, descriptors[i].pages * 4096, x);
        assert descriptors[i] in descriptors;
      }
    }
  }

  lemma ListedMore(descriptors: seq<Descriptor>, k: nat, kind: MemoryKind)
    requires k < |descriptors|
    ensures Listed(descriptors[..k + 1], kind) ==
            Listed(descriptors[..k], kind) + (if descriptors[k].Usable(kind) then Span(descriptors[k].start, descriptors[k].pages * 4096) else iset{})
  {
    var more, less := descriptors[..k + 1], descriptors[..k];
    forall x ensures Lists(more, kind, x) <==>
                     Lists(less, kind, x) || (descriptors[k].Usable(kind) && InSpan(descriptors[k].start, descriptors[k].pages * 4096, x)) {
      if Lists(less, kind, x) {
        var i :| 0 <= i < |less| && less[i].Usable(kind) && InSpan(less[i].start, less[i].pages * 4096, x);
        assert more[i] == less[i];
      }
      if descriptors[k].Usable(kind) && InSpan(descriptors[k].start, descriptors[k].pages * 4096, x) { assert more[k] == descriptors[k]; }
      if Lists(more, kind, x) {
        var i :| 0 <= i < |more| && more[i].Usable(kind) && InSpan(more[i].start, more[i].pages * 4096, x);
        if i < k { assert less[i] == more[i]; }
      }
    }
  }

  /** No two descriptors name the same byte, and none wraps around. */
  ghost predicate DisjointMap(descriptors: seq<Descriptor>) {
    && (forall i :: 0 <= i < |descriptors| ==> descriptors[i].start + descriptors[i].pages * 4096 <= 0x1_0000_0000_0000_0000)
    && forall i, j, x: int :: 0 <= i < j < |descriptors| && InSpan(descriptors[i].start, descriptors[i].pages * 4096, x) ==>
         !InSpan(descriptors[j].start, descriptors[j].pages * 4096, x)
  }

  lemma DisjointKinds(descriptors: seq<Descriptor>)
    requires DisjointMap(descriptors)
    ensures Listed(descriptors, Conventional) !! Listed(descriptors, BootTime)
  {
  }

  // ---------------------------------------------------------------------------------------
  // Free memory and boot memory
  // ---------------------------------------------------------------------------------------

  /** The highest address that UEFI code allocates. */
  const MAX_ADDRESS: u64 := 0xffff_ffff

  class MemoryLists {
    const free: RangeSet
    const boot: RangeSet

    ghost predicate Valid()
      reads free, free.ranges, boot, boot.ranges
    {
      && free.Valid() && boot.Valid() && free != boot && free.ranges != boot.ranges
      && free.Content() !! boot.Content()
    }

    constructor ()
      ensures Valid() && free.Content() == boot.Content() == iset{}
      ensures fresh(free) && fresh(boot) && fresh(free.ranges) && fresh(boot.ranges)
    {
      free := new RangeSet();
      boot := new RangeSet();
    }

    /** The loop over the firmware's memory map, after the lists were cleared. */
    method LoadMap(descriptors: seq<Descriptor>) returns (r: Attempt<()>)
      requires Valid()
      modifies free, free.ranges, boot, boot.ranges
      ensures !r.Refused?
      ensures r.Done? && DisjointMap(descriptors) ==>
        && Valid() && free.Content() == Listed(descriptors, Conventional) && boot.Content() == Listed(descriptors, BootTime)
        && (forall x: int :: x in free.Content() <==>
              exists d <- descriptors :: d.writeBack && d.kind.Conventional? && d.start <= x < d.start + d.pages * 0x1000)
        && (forall x: int :: x in boot.Content() <==>
              exists d <- descriptors :: d.writeBack && d.kind.BootTime? && d.start <= x < d.start + d.pages * 0x1000)
      ensures r.Panicked? && DisjointMap(descriptors) ==>
        |descriptors| > CAPACITY || exists i :: 0 <= i < |descriptors| && descriptors[i].pages == 0
    {
      hide WellFormed;
      ListedMeaning(descriptors, Conventional);
      ListedMeaning(descriptors, BootTime);
      free.Clear();
      boot.Clear();
      for k := 0 to |descriptors|
        invariant free.Valid() && boot.Valid() && free.used <= k && boot.used <= k
        invariant DisjointMap(descriptors) ==>
          free.Content() == Listed(descriptors[..k], Conventional) && boot.Content() == Listed(descriptors[..k], BootTime)
      {
        ListedMore(descriptors, k, Conventional);
        ListedMore(descriptors, k, BootTime);
        var desc := descriptors[k];
        if !desc.writeBack || desc.kind.OtherKind? { continue; }
        if desc.pages == 0 { return Panicked; }
        var range := desc.AsRange();
        if !desc.Wraps() { DescriptorRange(desc); }
        if !range.Shaped() { return Panicked; }
        var ok;
        if desc.kind.Conventional? { ok := free.Insert(range); } else { ok := boot.Insert(range); }
        if !ok { return Panicked; }
      }
      assert descriptors[..|descriptors|] == descriptors;
      if DisjointMap(descriptors) { DisjointKinds(descriptors); }
      return Done(());
    }

    /** `allocate_boot_memory_internal`: the block moves from free memory to boot memory. Fewer than 512
        bytes of padding are lost with it. */
    method AllocateBootMemory(size: u64, align: u64, limit: u64) returns (r: Attempt<u64>, ghost waste: nat)
      requires Valid()
      modifies free, free.ranges, boot, boot.ranges
      ensures r.Panicked? <== limit > MAX_ADDRESS || size == 0
      ensures r.Panicked? ==> limit > MAX_ADDRESS || size == 0 || free.used == CAPACITY || boot.used == CAPACITY
      ensures limit <= MAX_ADDRESS && size > 0 ==>
        (r.Refused? <==> CountOnes(align) != 1 || (align > 0 && CannotProvide(old(free.Content()), Request(size, align, limit))))
      ensures r.Refused? ==> Valid() && free.Content() == old(free.Content()) && boot.Content() == old(boot.Content())
      ensures r.Done? ==>
        && Valid() && align > 0 && r.value % align == 0 && r.value + size - 1 <= limit && waste < 512
        && Span(r.value, size) <= old(free.Content())
        && boot.Content() == old(boot.Content()) + Span(r.value, size)
        && free.Content() == old(free.Content()) - Span(r.value - waste, waste + size)
        && Span(r.value - waste, waste) <= old(free.Content())
    {
      hide WellFormed, Taken, CannotProvide, SomeFits, SomeEndOverflows;
      waste := 0;
      if limit > MAX_ADDRESS || size == 0 { return Panicked, waste; }
      ghost var es, q := free.Entries(), RequestFor(size, align, Some(limit), MAX_ADDRESS);
      if CountOnes(align) == 1 {
        PowersOfTwoArePositive(align);
        SearchMeaning(es, q);
      }
      var block;
      ghost var best;
      block, best := free.AllocateLimited(size, align, Some(limit), MAX_ADDRESS);
      if !block.Done? { return block, waste; }
      BestBlock(es, q, best);
      waste := Wasted(es[best], q);
      var ok := boot.Insert(Range(block.value, block.value + size - 1));
      if !ok { return Panicked, waste; }
      assert SpanOf(Range(block.value, block.value + size - 1)) == Span(block.value, size);
      return Done(block.value), waste;
    }

    /** The loop of `cleanup_bootloader`: every boot byte becomes free, and none was free before. */
    method Reclaim() returns (r: Attempt<()>)
      requires Valid()
      modifies free, free.ranges
      ensures !r.Refused? && boot.Content() == old(boot.Content())
      ensures r.Done? ==> free.Valid() && free.Content() == old(free.Content()) + old(boot.Content())
      ensures r.Panicked? ==> old(free.used) + boot.used > CAPACITY
    {
      hide WellFormed;
      ghost var was, entries := free.Content(), boot.Entries();
      assert Bytes(entries[..0]) == iset{};
      for k := 0 to boot.used
        invariant free.Valid() && free.used <= old(free.used) + k
        invariant free.Content() == was + Bytes(entries[..k])
        modifies free, free.ranges
      {
        BytesMore(entries, k);
        EntriesAreShaped(entries);
        var ok := free.Insert(boot.ranges[k]);
        if !ok { return Panicked; }
      }
      assert entries[..boot.used] == entries;
      return Done(());
    }
  }

  lemma DescriptorRange(d: Descriptor)
    requires d.pages > 0 && !d.Wraps()
    ensures d.AsRange().Shaped() && SpanOf(d.AsRange()) == Span(d.start, d.pages * 4096)
  {
    assert 0 <= d.start + d.pages * 4096 - 1 < TWO_64;
    Divides(d.start + d.pages * 4096 - 1, TWO_64, 0, d.start + d.pages * 4096 - 1);
  }

  lemma BestBlock(es: seq<Range>, q: Request, best: int)
    requires WellFormed(es) && Sensible(q) && IsBest(es, q, best)
    ensures 0 <= best < |es| && es[best].Shaped()
    ensures var address := es[best].start + Padding(es[best].start, q.align);
      var w := Wasted(es[best], q);
      && address % q.align == 0 && address + q.size - 1 <= q.limit
      && SpanOf(Taken(es[best], q)) == Span(address - w, w + q.size)
      && Span(address, q.size) <= Bytes(es) && Span(address - w, w) <= Bytes(es)
  {
    AllocationResult(es[best], q);
    assert forall x :: InRange(es[best], x) ==> Covers(es, x);
  }

  lemma BytesMore(es: seq<Range>, k: nat)
    requires k < |es|
    ensures Bytes(es[..k + 1]) == Bytes(es[..k]) + SpanOf(es[k])
  {
    var more, less := es[..k + 1], es[..k];
    forall x ensures Covers(more, x) <==> Covers(less, x) || InRange(es[k], x) {
      if Covers(less, x) {
        var i :| 0 <= i < |less| && InRange(less[i], x);
        assert more[i] == less[i];
      }
      if InRange(es[k], x) { assert more[k] == es[k]; }
      if Covers(more, x) {
        var i :| 0 <= i < |more| && InRange(more[i], x);
        if i < k { assert less[i] == more[i]; }
      }
    }
  }
}
