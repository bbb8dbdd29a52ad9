/** The kernel stacks that the bootloader hands out, one for every core (uefi_bootloader/src/kernel.rs). */
module KernelStacks {
  import opened MachineInts
  import opened RangeSets
  import opened PhysicalMemories
  import opened PageTrees
  import opened PageMaps
  import opened PageSnapshots
  import opened PageRegions
  import opened PageTables
  import opened PageRuns
  import opened KernelAddressSpaces

  const KERNEL_STACK_BASE: u64 := 0xffff_8000_0000_0000
  const KERNEL_STACK_SIZE: u64 := 0x40_0000
  const KERNEL_STACK_PADDING: u64 := 0x400_0000

  /** Address of stack number `k`. */
  function StackAt(k: nat): nat { KERNEL_STACK_BASE + k * (KERNEL_STACK_SIZE + KERNEL_STACK_PADDING) }

  /** The address is mapped writable, not executable and for the kernel only, to a page that the tree
      owns. */
  ghost predicate Usable(s: Snapshot, va: u64) {
    var m := Lookup(s.pages, va);
    && HardwareCanonical(va) && m.Some? && m.value.depth == 4
    && Deallocate(m.value.entry) && Grants(m.value.entry, true, false, false)
  }

  ghost predicate StackReady(s: Snapshot, base: nat) {
    forall i: nat :: i < KERNEL_STACK_SIZE ==> UsableAt(s, base, i)
  }

  ghost predicate UsableAt(s: Snapshot, base: nat, i: nat) {
    base + i < TWO_64 && Usable(s, base + i)
  }

  /** Mapping more pages leaves a stack as it is. */
  lemma StackStays(a: Snapshot, b: Snapshot, root: u64, waste: iset<int>, base: nat)
    requires Sound(b, root) && Kept(a, b, waste) && StackReady(a, base)
    ensures StackReady(b, base)
  {
    hide IsTree, Separate, Owned, Grants;
    forall i: nat | i < KERNEL_STACK_SIZE ensures UsableAt(b, base, i) {
      assert UsableAt(a, base, i);
      LookupFinds(b.mem, root, b.tables, b.pages, base + i, 4);
    }
  }

  lemma RegionIsUsable(a: Snapshot, b: Snapshot, root: u64, base: u64, entries: seq<u64>, waste: iset<int>)
    requires Sound(b, root) && |entries| == 1024 && base >= KERNEL_STACK_BASE && base + Offset(Page4K, 1024) <= TWO_64
    requires GotPages(a, b, base, Page4K, entries, waste)
    requires RegionReady(b.mem, Page4K, entries, _ => 0, true, false, false)
    ensures StackReady(b, base)
  {
    hide IsTree, Separate, Owned, Kept, Grants, Holds, PathOf;
    forall i: nat | i < KERNEL_STACK_SIZE ensures UsableAt(b, base, i) {
      var k, r := i / 4096, i % 4096;
      RegionIsFound(a, b, root, base, Page4K, entries, waste, k, r);
      assert AtPosition(b.pages, base, Page4K, k, entries[k]) && OwnedEntryFrom(entries[k], Page4K, a.free);
      assert PageReady(b.mem, Page4K, entries[k], k, _ => 0, true, false, false);
      assert base + Offset(Page4K, k) + r == base + i;
    }
  }

  /** A new stack reads as zeros. */
  ghost predicate StackIsZero(s: Snapshot, base: nat) {
    forall i: nat :: i < KERNEL_STACK_SIZE ==> ZeroAt(s, base, i)
  }

  ghost predicate ZeroAt(s: Snapshot, base: nat, i: nat) {
    base + i < TWO_64 && ReadsAs(s, base + i, 0, true, false)
  }

  lemma RegionIsZero(a: Snapshot, b: Snapshot, root: u64, base: u64, entries: seq<u64>, waste: iset<int>)
    requires Sound(b, root) && |entries| == 1024 && base >= KERNEL_STACK_BASE && base + Offset(Page4K, 1024) <= TWO_64
    requires GotPages(a, b, base, Page4K, entries, waste)
    requires RegionReady(b.mem, Page4K, entries, _ => 0, true, false, false)
    ensures StackIsZero(b, base)
  {
    hide Sound, GotPages, RegionReady, ReadsAs;
    forall i: nat | i < KERNEL_STACK_SIZE ensures ZeroAt(b, base, i) {
      var k, r := i / 4096, i % 4096;
      RegionByteReads(a, b, root, base, Page4K, entries, waste, _ => 0, true, false, k, r);
      assert base + Offset(Page4K, k) + r == base + i;
    }
  }

  lemma NextStack(k: nat)
    ensures StackAt(k + 1) == StackAt(k) + KERNEL_STACK_SIZE + KERNEL_STACK_PADDING && StackAt(k) >= KERNEL_STACK_BASE
    ensures StackAt(k) == 0xffff_8000_0000_0000 + k * 0x440_0000 && StackAt(k) % 4096 == 0
  {
    Divides(StackAt(k), 4096, 0xffff_8000_0000_0 + k * 0x4400, 0);
  }

  class StackAllocator {
    /** `NEXT_STACK_ADDRESS` */
    var next: u64

    /** How many stacks were handed out. */
    ghost var count: nat

    ghost predicate Valid(s: Snapshot)
      reads this
    {
      next == StackAt(count) && forall k :: 0 <= k < count ==> StackReady(s, StackAt(k))
    }

    constructor ()
      ensures count == 0 && forall s: Snapshot :: Valid(s)
    {
      next, count := KERNEL_STACK_BASE, 0;
    }

    /** `create_kernel_stack`: a new stack behind a gap, with all earlier ones still usable. The result is
        the end of the stack. */
    method CreateKernelStack(pt: PageTable, m: PhysicalMemory) returns (r: Attempt<u64>)
      requires pt.Valid(m) && Valid(pt.State(m)) && StackAt(count + 1) < TWO_64
      modifies this, pt, m, m.words, m.free, m.free.ranges
      ensures !r.Refused?
      ensures r.Done? ==>
        && pt.Valid(m) && Valid(pt.State(m)) && count == old(count) + 1
        && r.value == StackAt(old(count)) + KERNEL_STACK_SIZE && StackIsZero(pt.State(m), StackAt(old(count)))
      ensures r.Panicked? ==>
        || m.free.used == CAPACITY
        || (pt.Valid(m) && exists entries: seq<u64>, waste: iset<int> ::
              PageStops(old(pt.State(m)), pt.State(m), old(next), Page4K, 0x40_0000, entries, waste))
    {
      hide IsTree, Separate, Owned, OwnedPagesFit, WellFormed, StackReady, Kept, PageStops, StackIsZero, StackAt;
      NextStack(count);
      ghost var before := pt.State(m);
      var stack := next;
      var mapped;
      ghost var waste;
      mapped, waste := MapStack(pt, m, stack);
      if !mapped.Done? { return Panicked; }
      forall k | 0 <= k < count ensures StackReady(pt.State(m), StackAt(k)) {
        StackStays(before, pt.State(m), pt.table, waste, StackAt(k));
      }
      next := next + (KERNEL_STACK_SIZE + KERNEL_STACK_PADDING);
      count := count + 1;
      return Done(stack + KERNEL_STACK_SIZE);
    }
  }

  /** The mapping of a new stack. */
  method MapStack(pt: PageTable, m: PhysicalMemory, base: u64) returns (r: Attempt<()>, ghost waste: iset<int>)
    requires pt.Valid(m) && base >= KERNEL_STACK_BASE && base % 4096 == 0 && base + 0x40_0000 <= TWO_64
    modifies pt, m, m.words, m.free, m.free.ranges
    ensures !r.Refused?
    ensures r.Done? ==>
      && pt.Valid(m) && Kept(old(pt.State(m)), pt.State(m), waste)
      && StackReady(pt.State(m), base) && StackIsZero(pt.State(m), base)
    ensures r.Panicked? ==>
      || m.free.used == CAPACITY
      || (pt.Valid(m) && exists entries: seq<u64>, waste: iset<int> ::
            PageStops(old(pt.State(m)), pt.State(m), base, Page4K, 0x40_0000, entries, waste))
  {
    hide IsTree, Separate, Owned, OwnedPagesFit, WellFormed, GotPages, RegionReady, StackReady, Kept, RegionFails, PageStops, StackIsZero,
         BadRegion, PagesWith;
    ghost var before := pt.State(m);
    var mapped;
    ghost var entries;
    mapped, entries, waste := pt.Map(m, base, Page4K, KERNEL_STACK_SIZE, true, false, false);
    if !mapped.Done? { return Panicked, waste; }
    ghost var after := pt.State(m);
    RegionIsUsable(before, after, pt.table, base, entries, waste);
    RegionIsZero(before, after, pt.table, base, entries, waste);
    GotPagesMeaning(before, after, base, Page4K, entries, waste);
    return Done(()), waste;
  }

  /** Stacks of different cores are at least the padding apart. */
  lemma StacksAreApart(j: nat, k: nat)
    requires j < k
    ensures StackAt(j) + KERNEL_STACK_SIZE + KERNEL_STACK_PADDING <= StackAt(k)
  {
  }
}
