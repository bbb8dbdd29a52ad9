/** Physical memory: the words of the RAM together with the set of free bytes.
    This is the kernel's `PhysMem` (kernel/src/mm.rs); `regionSize` and `usizeMax` also give
    the bootloaders' versions of it. */
module PhysicalMemories {
  import opened MachineInts
  import opened RangeSets

  // ---------------------------------------------------------------------------------------
  // Words and bytes
  // ---------------------------------------------------------------------------------------

  /** Little-endian byte `k` of a number. */
  function ByteOf(w: nat, k: nat): byte {
    if k == 0 then w % 256 else ByteOf(w / 256, k - 1)
  }

  function WithByte(w: nat, k: nat, b: byte): nat {
    if k == 0 then w / 256 * 256 + b else WithByte(w / 256, k - 1, b) * 256 + w % 256
  }

  lemma {:induction false} WithByteSetsOneByte(w: nat, k: nat, b: byte, j: nat)
    ensures ByteOf(WithByte(w, k, b), j) == if j == k then b else ByteOf(w, j)
  {
    var v := WithByte(w, k, b);
    if k == 0 {
      assert v / 256 == w / 256 && v % 256 == b;
    } else {
      assert v / 256 == WithByte(w / 256, k - 1, b) && v % 256 == w % 256;
      if j > 0 { WithByteSetsOneByte(w / 256, k - 1, b, j - 1); }
    }
  }

  function Pow256(n: nat): nat {
    if n == 0 then 1 else 256 * Pow256(n - 1)
  }

  lemma {:induction false} WithByteStaysInRange(w: nat, k: nat, b: byte, n: nat)
    requires k < n && w < Pow256(n)
    ensures WithByte(w, k, b) < Pow256(n)
  {
    var high, bound := w / 256, Pow256(n - 1);
    assert w < 256 * bound && high < bound;
    if k > 0 {
      WithByteStaysInRange(high, k - 1, b, n - 1);
      var v := WithByte(high, k - 1, b);
      assert v * 256 + w % 256 < 256 * bound;
    }
  }

  function SetByte(w: u64, k: nat, b: byte): (r: u64)
    requires k < 8
    ensures forall j: nat :: ByteOf(r, j) == if j == k then b else ByteOf(w, j)
  {
    assert Pow256(8) == TWO_64;
    WithByteStaysInRange(w, k, b, 8);
    assert forall j: nat :: ByteOf(WithByte(w, k, b), j) == if j == k then b else ByteOf(w, j) by {
      forall j: nat ensures ByteOf(WithByte(w, k, b), j) == if j == k then b else ByteOf(w, j) {
        WithByteSetsOneByte(w, k, b, j);
      }
    }
    WithByte(w, k, b)
  }

  lemma ZeroBytesMakeZero(v: u64)
    requires forall k: nat :: k < 8 ==> ByteOf(v, k) == 0
    ensures v == 0
  {
    ZeroBytesFrom(v, 8);
    assert Pow256(8) == TWO_64;
  }

  lemma {:induction false} ZeroBytesFrom(v: nat, n: nat)
    requires v < Pow256(n) && forall k: nat :: k < n ==> ByteOf(v, k) == 0
    ensures v == 0
  {
    if n > 0 {
      assert ByteOf(v, 0) == 0;
      assert v / 256 < Pow256(n - 1);
      forall k: nat | k < n - 1 ensures ByteOf(v / 256, k) == 0 {
        assert ByteOf(v, k + 1) == 0;
      }
      ZeroBytesFrom(v / 256, n - 1);
    }
  }

  type Memory = seq<u64>

  ghost function ByteAt(mem: Memory, address: nat): byte
    requires address / 8 < |mem|
  {
    ByteOf(mem[address / 8], address % 8)
  }

  /** `after` is `before` with the words of one block set to zero. */
  ghost predicate ZeroedPage(before: Memory, after: Memory, address: int, size: int)
    requires address >= 0
  {
    && |after| == |before|
    && forall i :: 0 <= i < |after| ==>
         after[i] == if address / 8 <= i < address / 8 + size / 8 then 0 else before[i]
  }

  // ---------------------------------------------------------------------------------------
  // Pages
  // ---------------------------------------------------------------------------------------

  datatype PageType = Page4K | Page2M | Page1G {
    function Size(): (s: u64)
      ensures s % 4096 == 0 && s > 0
    {
      match this
      case Page4K => 4096
      case Page2M => 0x20_0000
      case Page1G => 0x4000_0000
    }

    /** `x & page_mask`. */
    function Rest(x: nat): nat {
      match this
      case Page4K => x % 4096
      case Page2M => x % 0x20_0000
      case Page1G => x % 0x4000_0000
    }
  }

  lemma RestIsRemainder(t: PageType, x: nat)
    ensures t.Rest(x) == x % t.Size()
  {
  }

  function Pow2(n: nat): nat {
    if n == 0 then 1 else 2 * Pow2(n - 1)
  }

  lemma {:induction false} PowersGrow(j: nat, k: nat)
    requires j <= k
    ensures Pow2(j) <= Pow2(k)
  {
    if j < k { PowersGrow(j, k - 1); }
  }

  lemma {:induction false} PowersAreNotZero(k: nat)
    ensures Pow2(k) >= 1
  {
    if k > 0 { PowersAreNotZero(k - 1); }
  }

  lemma TwiceProduct(a: nat, b: nat)
    ensures (2 * a) * b == 2 * (a * b)
  {
  }

  lemma {:induction false} PowersMultiply(j: nat, k: nat)
    ensures Pow2(j + k) == Pow2(j) * Pow2(k)
  {
    if j > 0 {
      PowersMultiply(j - 1, k);
      TwiceProduct(Pow2(j - 1), Pow2(k));
    }
  }

  lemma DoublingKeepsOnes(n: nat)
    ensures CountOnes(2 * n) == CountOnes(n)
  {
    if n > 0 { assert (2 * n) % 2 == 0 && (2 * n) / 2 == n; }
  }

  lemma {:induction false} PowersOfTwoHaveOneBit(n: nat, s: nat)
    requires s == Pow2(n)
    ensures s > 0 && CountOnes(s) == 1
  {
    if n > 0 {
      var half := Pow2(n - 1);
      PowersOfTwoHaveOneBit(n - 1, half);
      DoublingKeepsOnes(half);
    }
  }

  lemma {:induction false} OneBitIsPower(s: nat) returns (n: nat)
    requires CountOnes(s) == 1
    ensures s == Pow2(n)
  {
    if s % 2 == 1 {
      NoOnes(s / 2);
      n := 0;
    } else {
      n := OneBitIsPower(s / 2);
      n := n + 1;
    }
  }

  lemma {:induction false} NoOnes(s: nat)
    requires CountOnes(s) == 0
    ensures s == 0
  {
    if s > 0 { NoOnes(s / 2); }
  }

  /** The requests that the allocator looks at: those of some bytes, aligned to a power of two. */
  lemma SensibleMeaning(q: Request)
    ensures Sensible(q) <==> q.size > 0 && exists n: nat :: Pow2(n) == q.align
  {
    if Sensible(q) {
      var n := OneBitIsPower(q.align);
    }
    if n: nat :| Pow2(n) == q.align { PowersOfTwoHaveOneBit(n, q.align); }
  }

  lemma PageSizesHaveOneBit(t: PageType)
    ensures CountOnes(t.Size()) == 1
  {
    var n := match t case Page4K => 12 case Page2M => 21 case Page1G => 30;
    assert Pow2(12) == 4096 && Pow2(21) == 0x20_0000 && Pow2(30) == 0x4000_0000;
    PowersOfTwoHaveOneBit(n, t.Size());
  }

  // ---------------------------------------------------------------------------------------
  // Accounting for an allocation
  // ---------------------------------------------------------------------------------------

  /** `block` has left the free set `before`, which is now `after`; `waste` was lost with it. */
  ghost predicate Allocated(before: iset<int>, after: iset<int>, block: iset<int>, waste: iset<int>) {
    && block <= before && after <= before && waste <= before
    && block !! after && waste !! after && block !! waste
    && after + block + waste == before
    && (Paged(before) ==> waste == iset{} && Paged(after))
  }

  /** A page cut from the best entry by a page-aligned request. */
  lemma TakenIsAllocated(es: seq<Range>, q: Request, best: int, address: u64)
    requires WellFormed(es) && q.size > 0 && q.size % 4096 == 0 && q.align > 0 && q.align % 4096 == 0
    requires 0 <= best < |es| && Fits(es[best], q)
    requires address == es[best].start + Padding(es[best].start, q.align)
    ensures address % q.align == 0 && address % 4096 == 0 && address + q.size - 1 <= q.limit
    ensures Allocated(Bytes(es), Bytes(es) - SpanOf(Taken(es[best], q)), Span(address, q.size),
                      Span(address - Wasted(es[best], q), Wasted(es[best], q)))
  {
    var r := es[best];
    var before, block := Bytes(es), Span(address, q.size);
    AllocationResult(r, q);
    AlignedToPages(address, q.align);
    assert SpanOf(r) <= before by {
      assert forall x :: InRange(es[best], x) ==> Covers(es, x);
    }
    if Paged(before) {
      PagedEntriesStartOnPages(es, best);
      PagedWastesNothing(r, q);
      PagedDifference(before, address, q.size);
      assert SpanOf(Taken(r, q)) == block;
    }
  }

  lemma AlignedToPages(address: int, align: int)
    requires align > 0 && align % 4096 == 0 && address % align == 0
    ensures address % 4096 == 0
  {
    var k, m := address / align, align / 4096;
    assert address == (k * m) * 4096;
  }

  lemma PagedDifference(s: iset<int>, address: int, size: int)
    requires Paged(s) && address % 4096 == 0 && size % 4096 == 0
    ensures Paged(s - Span(address, size))
    ensures Paged(s + Span(address, size))
  {
    forall x: int ensures x in Span(address, size) <==> x / 4096 * 4096 in Span(address, size) { }
  }

  /** Free memory has no block for a page of type `t` below `limit`, or the search for one gives up on an
      overflow. */
  ghost predicate Starved(free: iset<int>, t: PageType, limit: nat) {
    CannotProvide(free, Request(t.Size(), t.Size(), if 0 < limit <= TWO_64 then limit - 1 else 0))
  }

  /** For free memory far from the end of the address space: there is no page for `t` exactly when every aligned block of
      free bytes of its size lies behind the limit. */
  lemma StarvedMeaning(free: iset<int>, t: PageType, limit: nat)
    requires 0 < limit <= MAX_REGION && forall x: int :: x in free ==> 0 <= x < 0x1000_0000_0000_0000
    ensures Starved(free, t, limit) <==>
            forall a: int :: a % t.Size() == 0 && Span(a, t.Size()) <= free ==> a + t.Size() > limit
  {
    var q := Request(t.Size(), t.Size(), limit - 1);
    forall a: int ensures !OverflowsAt(free, q, a) { }
    forall a: int ensures BlockAt(free, q, a) <==> a % t.Size() == 0 && a + t.Size() <= limit && Span(a, t.Size()) <= free { }
  }

  // ---------------------------------------------------------------------------------------
  // The memory
  // ---------------------------------------------------------------------------------------

  /** Physical addresses stay below 2^52. */
  const MAX_REGION: u64 := 0x10_0000_0000_0000

  class PhysicalMemory {
    /** The RAM that can be reached, as 8-byte words. */
    const words: array<u64>
    const regionSize: u64
    const usizeMax: u64
    const free: RangeSet

    /** The addresses that `invalidate_tlb` was called with. */
    var invalidated: seq<u64>

    /** Bytes that no owner can give back any more. */
    ghost var lost: iset<int>

    constructor (free: RangeSet, regionSize: u64, usizeMax: u64)
      requires free.Valid()
      requires 0 < regionSize <= MAX_REGION && regionSize % 4096 == 0 && regionSize - 1 <= usizeMax
      ensures Valid() && this.free == free && lost == iset{} && fresh(words)
      ensures this.regionSize == regionSize && this.usizeMax == usizeMax && invalidated == []
    {
      this.free, this.regionSize, this.usizeMax := free, regionSize, usizeMax;
      words := new u64[regionSize / 8];
      invalidated, lost := [], iset{};
    }

    ghost predicate Valid()
      reads this, free, free.ranges
    {
      && 0 < regionSize <= MAX_REGION && regionSize % 4096 == 0
      && words.Length * 8 == regionSize
      && regionSize - 1 <= usizeMax
      && free.Valid() && lost !! Free()
      && words as object != free.ranges
    }

    ghost function Free(): iset<int>
      requires free.used <= free.ranges.Length
      reads free, free.ranges
    {
      free.Content()
    }

    /** `translate`: the index of the word that holds `address`, if all of
        `address .. address + size` can be reached. */
    function Translate(address: u64, size: u64): (r: Option<nat>)
      requires regionSize > 0
      ensures r.Some? <==> size > 0 && address + size <= regionSize
      ensures r.Some? ==> r.value == address / 8
    {
      if size == 0 then None
      else if CheckedAdd(size - 1, address).None? then None
      else if CheckedAdd(size - 1, address).value >= regionSize then None
      else Some(address / 8)
    }

    /** The allocator cannot serve a page of type `t`. */
    ghost predicate CannotServe(t: PageType)
      requires free.used <= free.ranges.Length
      reads free, free.ranges
    {
      Starved(Free(), t, regionSize)
    }

    /** There is no page left, or no room in the set to split an entry. */
    ghost predicate Exhausted()
      reads free, free.ranges
    {
      free.used >= CAPACITY || free.used > free.ranges.Length || CannotServe(Page4K)
    }

    /** `alloc_phys` for one page; `waste` is the padding that leaves the free set with it. */
    method AllocPage(t: PageType) returns (r: Attempt<u64>, ghost waste: iset<int>)
      requires Valid()
      modifies free, free.ranges, `lost
      ensures !r.Panicked? ==> Valid() && (r.Refused? <==> old(CannotServe(t)))
      ensures r.Refused? ==> Free() == old(Free()) && lost == old(lost)
      ensures free.used <= old(free.used) + 1 && (r.Panicked? ==> free.used == CAPACITY)
      ensures r.Done? ==>
        && PageFor(r.value, t)
        && Allocated(old(Free()), Free(), Span(r.value, t.Size()), waste)
        && lost == old(lost) + waste
    {
      hide WellFormed, CannotProvide, SomeFits, SomeEndOverflows, CountOnes, Padding;
      ghost var es := free.Entries();
      waste := iset{};
      var size := t.Size();
      ghost var q := RequestFor(size, size, Some(regionSize - 1), usizeMax);
      PageSizesHaveOneBit(t);
      SearchMeaning(es, q);
      var address, best := free.AllocateLimited(size, size, Some(regionSize - 1), usizeMax);
      if address.Refused? { return Refused, waste; }
      if address.Panicked? { return Panicked, waste; }
      TakenIsAllocated(es, q, best, address.value);
      RestIsRemainder(t, address.value);
      waste := Span(address.value - Wasted(es[best], q), Wasted(es[best], q));
      lost := lost + waste;
      return Done(address.value), waste;
    }

    /** `alloc_phys_zeroed` for one page: a zeroed, aligned page of formerly free memory. */
    method AllocPageZeroed(t: PageType) returns (r: Attempt<u64>, ghost waste: iset<int>)
      requires Valid()
      modifies words, free, free.ranges, `lost
      ensures !r.Panicked? ==> Valid() && (r.Refused? <==> old(CannotServe(t)))
      ensures r.Refused? ==> Free() == old(Free()) && lost == old(lost) && words[..] == old(words[..])
      ensures free.used <= old(free.used) + 1 && (r.Panicked? ==> free.used == CAPACITY)
      ensures r.Done? ==>
        && PageFor(r.value, t)
        && Allocated(old(Free()), Free(), Span(r.value, t.Size()), waste)
        && lost == old(lost) + waste
        && ZeroedPage(old(words[..]), words[..], r.value, t.Size())
    {
      r, waste := AllocPage(t);
      if !r.Done? { return; }
      var index := Translate(r.value, t.Size());
      if index.None? { return Refused, waste; }
      ghost var before := words[..];
      for i := index.value to index.value + t.Size() / 8
        modifies words
        invariant forall k :: 0 <= k < words.Length ==>
          words[k] == if index.value <= k < i then 0 else before[k]
      {
        words[i] := 0;
      }
    }

    /** A page the allocator may hand out: aligned to its size and inside the region. */
    ghost predicate PageFor(address: u64, t: PageType) {
      t.Rest(address) == 0 && address % 4096 == 0 && address + t.Size() <= regionSize
    }

    /** `free_phys`: give `size` bytes back. Freeing twice is ruled out by the precondition. */
    method FreePhys(address: u64, size: u64) returns (r: Attempt<()>)
      requires Valid() && size > 0 && address + size <= regionSize
      requires Span(address, size) !! Free() && Span(address, size) !! lost
      modifies free, free.ranges
      ensures !r.Refused? && (r.Done? ==> Valid() && Free() == old(Free()) + Span(address, size))
      ensures free.used <= old(free.used) + 1 && (r.Panicked? ==> free.used == old(free.used) == CAPACITY)
    {
      ghost var before := free.Entries();
      var ok := free.Insert(Range(address, address + size - 1));
      assert SpanOf(Range(address, address + size - 1)) == Span(address, size);
      assert |before| == old(free.used) && |free.Entries()| == free.used;
      return if ok then Done(()) else Panicked;
    }

    /** Write one byte through a translated pointer. */
    method WriteByte(address: u64, b: byte)
      requires Valid() && address < regionSize
      modifies words
      ensures forall i :: 0 <= i < words.Length && i != address / 8 ==> words[i] == old(words[i])
      ensures forall j: nat :: ByteOf(words[address / 8], j) == if j == address % 8 then b else ByteOf(old(words[address / 8]), j)
      ensures words[..] == old(words[..])[address / 8 := SetByte(old(words[address / 8]), address % 8, b)]
    {
      words[address / 8] := SetByte(words[address / 8], address % 8, b);
    }
  }
}
