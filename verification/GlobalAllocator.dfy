/** The global allocator: 61 free lists on every core over one heap (kernel/src/mm.rs,
    kernel/src/core_locals.rs). */
module GlobalAllocators {
  import opened MachineInts
  import opened PhysicalMemories
  import opened FreeLists
  import opened HeapBackings
  import opened KernelHeaps
  import opened PageTables

  // ---------------------------------------------------------------------------------------
  // Layouts and size classes
  // ---------------------------------------------------------------------------------------

  const ISIZE_MAX: u64 := 0x7fff_ffff_ffff_ffff

  datatype Layout = Layout(size: u64, align: u64)

  /** What Rust guarantees of every layout. */
  ghost predicate LayoutOk(l: Layout) {
    l.size <= ISIZE_MAX && exists k: nat :: Pow2(k) == l.align
  }

  function BitLength(n: nat): nat {
    if n == 0 then 0 else 1 + BitLength(n / 2)
  }

  /** `64 - (size - 1).leading_zeros()` for a size of at least 8 bytes. */
  function ListIndex(size: u64): (k: nat)
    ensures k >= 3
  {
    var n := Max(size, 8) - 1;
    assert BitLength(n) == 1 + BitLength(n / 2) && BitLength(n / 2) == 1 + BitLength(n / 2 / 2);
    BitLength(n)
  }

  /** The list of `free_list`: the smallest power of two that holds the layout. */
  function Class(l: Layout): nat { ListIndex(l.size) - 3 }

  function ClassSize(k: nat): nat { Pow2(k + 3) }

  lemma {:induction false} BitLengthBounds(n: nat)
    ensures n < Pow2(BitLength(n))
    ensures n > 0 ==> BitLength(n) > 0 && Pow2(BitLength(n) - 1) <= n
  {
    if n > 1 { BitLengthBounds(n / 2); }
  }

  lemma PowersOrder(j: nat, k: nat)
    requires Pow2(j) <= Pow2(k)
    ensures j <= k
  {
    if j > k {
      PowersGrow(k + 1, j);
      PowersAreNotZero(k);
    }
  }

  lemma KnownPowers()
    ensures Pow2(2) == 4 && Pow2(3) == 8 && Pow2(12) == 4096 && Pow2(63) == 0x8000_0000_0000_0000
  {
    assert Pow2(2) == 4 && Pow2(3) == 8 && Pow2(12) == 4096;
    assert Pow2(24) == 4096 * 4096 by { PowersMultiply(12, 12); }
    assert Pow2(48) == 0x1_0000_0000_0000 by { PowersMultiply(24, 24); }
    assert Pow2(60) == 0x1000_0000_0000_0000 by { PowersMultiply(48, 12); }
    PowersMultiply(60, 3);
  }

  /** `free_list` picks one of the 61 lists, and the one with the smallest blocks that are big
      enough. */
  lemma ClassFits(l: Layout)
    requires l.size <= ISIZE_MAX
    ensures Class(l) < 61 && l.size <= ClassSize(Class(l))
    ensures forall k: nat :: Max(l.size, 8) <= ClassSize(k) ==> Class(l) <= k
  {
    hide BitLength, Pow2;
    var n := Max(l.size, 8) - 1;
    BitLengthBounds(n);
    KnownPowers();
    if BitLength(n) > 63 { PowersGrow(63, BitLength(n) - 1); }
    forall k: nat | n + 1 <= ClassSize(k) ensures Class(l) <= k {
      if BitLength(n) > k + 3 { PowersGrow(k + 3, BitLength(n) - 1); }
    }
  }

  /** The assert of `free_list`: blocks of the list are aligned well enough for the layout. */
  predicate AlignOk(l: Layout) {
    Pow2(Min(ListIndex(l.size), 12)) >= l.align
  }

  /** For a layout, it fails exactly for an alignment of more than a page, and for one that is at least twice the size, or
      twice 8 bytes for smaller layouts. So a layout that is no larger than a page and no less than its alignment is always
      served. */
  lemma AlignmentMeaning(l: Layout)
    requires LayoutOk(l)
    ensures AlignOk(l) <==> l.align <= 8 || (l.align <= 4096 && l.align < 2 * l.size)
  {
    hide Pow2, BitLength;
    var a: nat :| Pow2(a) == l.align;
    var n := Max(l.size, 8) - 1;
    var k := BitLength(n);
    BitLengthBounds(n);
    KnownPowers();
    PowersCompare(a, k);
    PowersCompare(a, 12);
    PowersCompare(a, 3);
    PowersCompare(a, Min(k, 12));
    PowersCompare(k, k - 1);
  }

  lemma PowersCompare(j: nat, k: nat)
    ensures Pow2(j) <= Pow2(k) <==> j <= k
    ensures j > k ==> Pow2(j) >= 2 * Pow2(k)
    ensures j == k + 1 ==> Pow2(j) == 2 * Pow2(k)
  {
    PowersAreNotZero(k);
    if j <= k { PowersGrow(j, k); } else { PowersGrow(k + 1, j); }
  }

  lemma AlignmentOfClass(l: Layout)
    requires l.size <= ISIZE_MAX
    ensures Alignment(ClassSize(Class(l))) == Pow2(Min(ListIndex(l.size), 12))
  {
    hide Pow2, BitLength;
    KnownPowers();
    if ListIndex(l.size) <= 12 { PowersGrow(ListIndex(l.size), 12); } else { PowersGrow(12, ListIndex(l.size)); }
  }

  /** A block of the chosen list satisfies the alignment of the layout. */
  lemma BlockIsAligned(b: u64, l: Layout)
    requires LayoutOk(l) && AlignOk(l) && Multiple(b, Alignment(ClassSize(Class(l))))
    ensures l.align > 0 && b % l.align == 0
  {
    hide Alignment, BitLength;
    var m := Min(ListIndex(l.size), 12);
    var a: nat :| Pow2(a) == l.align;
    AlignmentOfClass(l);
    PowersOrder(a, m);
    PowersMultiply(m - a, a);
    PowersAreNotZero(a);
    var q: nat :| b == q * Pow2(m);
    ScaledFactor(q, Pow2(m - a), l.align);
    Divides(b, l.align, q * Pow2(m - a), 0);
  }

  lemma ScaledFactor(q: nat, f: nat, d: nat)
    ensures q * (f * d) == (q * f) * d
  {
  }

  // ---------------------------------------------------------------------------------------
  // Who owns which bytes
  // ---------------------------------------------------------------------------------------

  /** Every block of the heap is on the free list of a core or held by a client. */
  datatype Owner = Listed(core: nat, list: nat) | Held(address: u64, layout: Layout)

  type Ownership = map<Owner, seq<u64>>

  function BlockSize(o: Owner): nat {
    ClassSize(if o.Listed? then o.list else Class(o.layout))
  }

  ghost predicate Covered(blocks: seq<u64>, size: nat, a: u64) {
    exists i :: 0 <= i < |blocks| && InBlock(blocks[i], size, a)
  }

  ghost function Cover(blocks: seq<u64>, size: nat): iset<u64> {
    iset a: u64 | Covered(blocks, size, a)
  }

  ghost function Area(owned: Ownership, o: Owner): iset<u64>
    requires o in owned
  {
    Cover(owned[o], BlockSize(o))
  }

  /** No byte has two owners. */
  ghost predicate Separated(owned: Ownership) {
    forall o, p :: o in owned && p in owned && o != p ==> Area(owned, o) !! Area(owned, p)
  }

  ghost predicate HasOwner(owned: Ownership, a: u64) {
    exists o :: o in owned && a in Area(owned, o)
  }

  /** The mapped words are exactly the words that somebody owns. */
  ghost predicate Accounted(words: Words, owned: Ownership) {
    forall a: u64 :: a % 8 == 0 ==> (a in words <==> HasOwner(owned, a))
  }

  lemma CoverOfMore(blocks: seq<u64>, b: u64, size: nat)
    ensures Cover(blocks + [b], size) == Cover(blocks, size) + Cover([b], size)
  {
    var all := blocks + [b];
    forall a: u64 ensures a in Cover(all, size) <==> a in Cover(blocks, size) + Cover([b], size) {
      if a in Cover(blocks, size) {
        var i :| 0 <= i < |blocks| && InBlock(blocks[i], size, a);
        assert InBlock(all[i], size, a);
      } else if InBlock([b][0], size, a) {
        assert InBlock(all[|blocks|], size, a);
      }
    }
  }

  lemma CoverApart(blocks: seq<u64>, b: u64, size: nat)
    ensures Apart(blocks + [b], size) ==> Cover(blocks, size) !! Cover([b], size)
  {
    var all := blocks + [b];
    if Apart(all, size) {
      forall i | 0 <= i < |blocks| ensures Disjoint(blocks[i], b, size) {
        assert Disjoint(all[i], all[|blocks|], size);
      }
    }
  }

  /** A block apart from a cover is disjoint from each of its blocks. */
  lemma ApartFromCover(blocks: seq<u64>, b: u64, size: nat)
    requires Cover(blocks, size) !! Cover([b], size) && size > 0 && b + size <= TWO_64
    requires forall i :: 0 <= i < |blocks| ==> blocks[i] + size <= TWO_64
    ensures forall i :: 0 <= i < |blocks| ==> Disjoint(blocks[i], b, size)
  {
    forall i | 0 <= i < |blocks| ensures Disjoint(blocks[i], b, size) {
      var a := Max(blocks[i], b);
      assert !(a in Cover(blocks, size) && a in Cover([b], size));
      assert InBlock(blocks[i], size, a) ==> Covered(blocks, size, a);
      assert InBlock([b][0], size, a) ==> Covered([b], size, a);
    }
  }

  lemma ChunkAt(d: nat, n: nat, size: nat) returns (i: nat)
    requires size > 0 && d < n * size
    ensures i < n && i * size <= d < i * size + size
  {
    i := d / size;
    assert d == i * size + d % size;
    if i >= n { ProductIsMonotone(n, i, size); }
  }

  /** The blocks of a fresh region make up the region. */
  lemma CoverOfRegion(blocks: seq<u64>, v: u64, size: nat)
    requires size > 0 && CutUp(blocks, v, size)
    ensures Cover(blocks, size) == Cover([v], Region(size)) && Apart(blocks, size)
  {
    ChunksLieBelow(blocks, v, size);
    forall a: u64 ensures a in Cover(blocks, size) <==> a in Cover([v], Region(size)) {
      if a in Cover(blocks, size) {
        assert InBlock([v][0], Region(size), a);
      }
      if a in Cover([v], Region(size)) {
        var i := ChunkAt(a - v, |blocks|, size);
        assert InBlock(blocks[i], size, a);
      }
    }
    forall i, j | 0 <= i < j < |blocks| ensures Disjoint(blocks[i], blocks[j], size) {
      ProductIsMonotone(i + 1, j, size);
    }
  }

  /** A block moves from `o` to the new owner `p`, together with bytes nobody owned before. */
  lemma MoveStep(owned: Ownership, after: Ownership, o: Owner, p: Owner, extra: iset<u64>)
    requires Separated(owned) && o in owned && p !in owned && after.Keys == owned.Keys + {p}
    requires forall q :: q in owned && q != o ==> after[q] == owned[q]
    requires Area(after, o) !! Area(after, p) && Area(after, o) + Area(after, p) == Area(owned, o) + extra
    requires forall q :: q in owned ==> Area(owned, q) !! extra
    ensures Separated(after)
    ensures forall a :: HasOwner(after, a) <==> HasOwner(owned, a) || a in extra
  {
    hide Cover;
    forall q | q in owned && q != o ensures Area(after, q) == Area(owned, q) { }
    assert forall q :: q in owned && q != o ==> Area(after, q) !! Area(owned, o) + extra;
    forall a ensures HasOwner(after, a) <==> HasOwner(owned, a) || a in extra {
      if HasOwner(after, a) {
        var q :| q in after && a in Area(after, q);
        if q == o || q == p { assert a in Area(owned, o) + extra; } else { assert a in Area(owned, q); }
      }
      if HasOwner(owned, a) {
        var q :| q in owned && a in Area(owned, q);
        if q == o { assert a in Area(after, o) + Area(after, p); } else { assert a in Area(after, q); }
      }
      if a in extra { assert a in Area(after, o) + Area(after, p); }
    }
  }

  /** The block of `p` goes to `o`, and `p` is no longer an owner. */
  lemma ReturnStep(owned: Ownership, after: Ownership, o: Owner, p: Owner)
    requires Separated(owned) && o in owned && p in owned && o != p && after.Keys == owned.Keys - {p}
    requires forall q :: q in after && q != o ==> after[q] == owned[q]
    requires Area(after, o) == Area(owned, o) + Area(owned, p)
    ensures Separated(after)
    ensures forall a :: HasOwner(after, a) <==> HasOwner(owned, a)
  {
    hide Cover;
    forall q | q in after && q != o ensures Area(after, q) == Area(owned, q) { }
    forall a ensures HasOwner(after, a) <==> HasOwner(owned, a) {
      if HasOwner(after, a) {
        var q :| q in after && a in Area(after, q);
        if q == o {
          if a in Area(owned, o) { } else { assert a in Area(owned, p); }
        } else { assert a in Area(owned, q); }
      }
      if HasOwner(owned, a) {
        var q :| q in owned && a in Area(owned, q);
        if q == o || q == p { assert a in Area(after, o); } else { assert a in Area(after, q); }
      }
    }
  }

  /** All owned bytes lie below the next address to be reserved. */
  ghost predicate Below(owned: Ownership, next: u64) {
    forall o, a :: o in owned && a in Area(owned, o) ==> a < next
  }

  ghost predicate HeapOk(words: Words, owned: Ownership, next: u64) {
    Separated(owned) && Accounted(words, owned) && Below(owned, next)
  }

  /** The last of the blocks `all` goes from the list `o` to the client `p`. The other blocks stay on
      the list, which may have got `extra` bytes before. */
  lemma GrantStep(words: Words, after: Words, owned: Ownership, next: u64, next': u64,
                  o: Owner, p: Owner, rest: seq<u64>, extra: iset<u64>)
    requires HeapOk(words, owned, next) && next <= next'
    requires o in owned && o.Listed? && p.Held? && BlockSize(p) == BlockSize(o) > 0
    requires p in owned ==> owned[p] == [p.address]
    requires Apart(rest + [p.address], BlockSize(o))
    requires Cover(rest + [p.address], BlockSize(o)) == Area(owned, o) + extra
    requires forall a :: a in extra ==> next <= a < next'
    requires forall a: u64 :: a % 8 == 0 ==> (a in after <==> a in words || a in extra)
    ensures p !in owned && HeapOk(after, owned[o := rest][p := [p.address]], next')
  {
    var all, size := rest + [p.address], BlockSize(o);
    CoverOfMore(rest, p.address, size);
    CoverApart(rest, p.address, size);
    assert p !in owned by {
      assert InBlock([p.address][0], size, p.address);
      assert p.address in Cover([p.address], size);
      assert p.address in Cover(all, size);
      assert p in owned ==> p.address in Area(owned, p);
    }
    hide Cover;
    var owned' := owned[o := rest][p := [p.address]];
    MoveStep(owned, owned', o, p, extra);
    forall q, a | q in owned' && a in Area(owned', q) ensures a < next' {
      if q == o || q == p { assert a in Area(owned, o) + extra; } else { assert a in Area(owned, q); }
    }
  }

  /** The block of the client `p` goes back to the list `o`. */
  lemma GiveBackStep(words: Words, after: Words, owned: Ownership, next: u64, o: Owner, p: Owner)
    requires HeapOk(words, owned, next) && after.Keys == words.Keys
    requires o in owned && o.Listed? && p in owned && p.Held? && BlockSize(p) == BlockSize(o) && owned[p] == [p.address]
    ensures HeapOk(after, (owned - {p})[o := owned[o] + [p.address]], next)
  {
    var owned' := (owned - {p})[o := owned[o] + [p.address]];
    CoverOfMore(owned[o], p.address, BlockSize(o));
    hide Cover;
    assert owned'.Keys == owned.Keys - {p};
    ReturnStep(owned, owned', o, p);
    forall q, a | q in owned' && a in Area(owned', q) ensures a < next {
      if q == o { assert a in Area(owned, o) || a in Area(owned, p); } else { assert a in Area(owned, q); }
    }
    forall a: u64 | a % 8 == 0 ensures a in after <==> HasOwner(owned', a) {
      assert a in after <==> a in after.Keys;
    }
  }

  // ---------------------------------------------------------------------------------------
  // What a call leaves alone
  // ---------------------------------------------------------------------------------------

  /** All words stay mapped, and those outside `area` keep their contents. */
  ghost predicate ChangedOnly(before: Words, after: Words, area: iset<u64>) {
    forall a :: a in before ==> a in after && (a !in area ==> after[a] == before[a])
  }

  lemma WritesChangeOnly(before: Words, after: Words, blocks: seq<u64>, size: nat)
    requires WritesOnly(before, after, blocks, size)
    ensures ChangedOnly(before, after, Cover(blocks, size))
  {
    forall a | a in before ensures a in after.Keys { }
  }

  lemma ExtendedChangesOnly(before: Words, after: Words, v: u64, region: nat)
    requires Extended(before, after, v, region)
    ensures ChangedOnly(before, after, iset{})
  {
  }

  /** Nothing that a client holds was written. */
  ghost predicate ClientsKeep(owned: Ownership, before: Words, after: Words) {
    forall o, a :: o in owned && o.Held? && a in Area(owned, o) && a in before ==> a in after && after[a] == before[a]
  }

  /** A call that writes only to a list and to the block it was given leaves everyone else alone. */
  lemma CallKeepsOthers(owned: Ownership, owned': Ownership, before: Words, after: Words, o: Owner, p: Owner)
    requires Separated(owned) && o in owned && p in owned && o.Listed?
    requires ChangedOnly(before, after, Area(owned, o) + Area(owned, p))
    requires forall q :: q in owned' && q.Held? ==> q in owned && q != p && owned'[q] == owned[q]
    ensures ClientsKeep(owned', before, after)
    ensures forall q :: q in owned && q != o && q != p ==> Area(owned, q) !! Area(owned, o) + Area(owned, p)
  {
    hide Cover;
    forall q | q in owned && q != o && q != p ensures Area(owned, q) !! Area(owned, o) + Area(owned, p) { }
    forall q | q in owned' && q.Held? ensures Area(owned', q) == Area(owned, q) { }
  }

  /** The blocks of clients are mapped. */
  lemma HeldBlockIsMapped(m: Words, owned: Ownership, next: u64, p: Owner, size: u64)
    requires HeapOk(m, owned, next) && p in owned && p.Held? && owned[p] == [p.address] && size == BlockSize(p)
    requires SizeOk(size) && Multiple(p.address, Alignment(size))
    requires forall a :: a in m ==> a > 0
    ensures Mapped(m, p.address, size)
  {
    hide Separated, BlockSize, SizeOk, Multiple;
    var b := p.address;
    SizesAreWords(size);
    MultipleOfEight(b, size);
    forall a: u64 | InBlock(b, size, a) ensures a in Area(owned, p) {
      assert InBlock([b][0], size, a);
    }
    assert U64_MAX !in Area(owned, p);
    assert !InBlock(b, size, U64_MAX);
    assert InBlock(b, size, b);
    forall a: u64 | a % 8 == 0 && InBlock(b, size, a) ensures a in m {
      assert HasOwner(owned, a);
    }
  }

  lemma MultipleOfEight(b: u64, size: u64)
    requires SizeOk(size) && Multiple(b, Alignment(size))
    ensures b % 8 == 0
  {
    hide SizeOk;
    SizesAreWords(size);
    var q: nat :| b == q * Alignment(size);
    var f := Alignment(size) / 8;
    ScaledFactor(q, f, 8);
    Divides(b, 8, q * f, 0);
  }

  /** A block that a client gives back fits on the list. */
  lemma HeldBlockIsPushable(m: Words, owned: Ownership, next: u64, o: Owner, p: Owner, size: u64, nodes: seq<Node>)
    requires HeapOk(m, owned, next) && p in owned && p.Held? && owned[p] == [p.address] && size == BlockSize(p)
    requires SizeOk(size) && Multiple(p.address, Alignment(size))
    requires o in owned && o.Listed? && BlockSize(o) == size
    requires ListOk(m, size, nodes) && owned[o] == Blocks(nodes)
    requires forall a :: a in m ==> a > 0
    ensures Pushable(m, size, nodes, p.address)
  {
    hide Chain, BlockSize, Cover, Multiple, SizeOk, Accounted, Below;
    HeldBlockIsMapped(m, owned, next, p, size);
    SizesAreWords(size);
    assert Area(owned, o) !! Area(owned, p);
    ApartFromCover(Blocks(nodes), p.address, size);
  }

  /** What `pop` did to the heap, whether or not it had to ask for memory. */
  lemma PopOutcome(before: Words, after: Words, size: u64, nodes: seq<Node>, next: u64, next': u64,
                   rest: seq<u64>, b: u64) returns (extra: iset<u64>)
    requires ListOk(before, size, nodes)
    requires Blocks(nodes) != [] ==>
      next' == next && rest + [b] == Blocks(nodes) && WritesOnly(before, after, Blocks(nodes), size)
    requires Blocks(nodes) == [] ==>
      && next' == next + KERNEL_HEAP_PADDING + Region(size) && CutUp(rest + [b], next, size)
      && Extended(before, after, next, Region(size))
    ensures ChangedOnly(before, after, Cover(Blocks(nodes), size))
    ensures Apart(rest + [b], size) && Cover(rest + [b], size) == Cover(Blocks(nodes), size) + extra
    ensures forall a :: a in extra ==> next <= a < next'
    ensures forall a: u64 :: a % 8 == 0 ==> (a in after <==> a in before || a in extra)
  {
    hide Chain, Mapped, CutUp;
    if Blocks(nodes) == [] {
      extra := Cover([next], Region(size));
      CoverOfRegion(rest + [b], next, size);
      ExtendedChangesOnly(before, after, next, Region(size));
      forall a: u64 ensures InBlock(next, Region(size), a) <==> a in extra {
        assert [next][0] == next;
      }
    } else {
      extra := iset{};
      WritesChangeOnly(before, after, Blocks(nodes), size);
      forall a: u64 ensures a in after <==> a in before {
        assert a in after <==> a in after.Keys;
      }
    }
  }

  /** A list whose blocks were left alone is still in order. */
  lemma ListStays(before: Words, after: Words, size: u64, nodes: seq<Node>, area: iset<u64>)
    requires ListOk(before, size, nodes) && ChangedOnly(before, after, area) && Cover(Blocks(nodes), size) !! area
    ensures ListOk(after, size, nodes)
  {
    forall k, a: u64 | 0 <= k < |nodes| && InBlock(nodes[k].address, size, a) && a in before
      ensures a in after && after[a] == before[a]
    {
      NodeOfChainIsBlock(nodes, k);
      assert a in Cover(Blocks(nodes), size);
    }
    ChainFrame(before, after, size, nodes);
    forall i | 0 <= i < |Blocks(nodes)| ensures Mapped(after, Blocks(nodes)[i], size) {
      assert Mapped(before, Blocks(nodes)[i], size);
    }
  }

  /** Writing to a held block leaves the heap and everyone else alone. */
  lemma StoreStep(m: Words, owned: Ownership, next: u64, p: Owner, a: u64, value: u64)
    requires HeapOk(m, owned, next) && p in owned && p.Held? && owned[p] == [p.address]
    requires a % 8 == 0 && InBlock(p.address, BlockSize(p), a)
    ensures a in m && HeapOk(m[a := value], owned, next) && ChangedOnly(m, m[a := value], Area(owned, p))
    ensures ClientsKeep(owned - {p}, m, m[a := value])
    ensures forall o :: o in owned && o.Listed? ==> Area(owned, o) !! Area(owned, p)
  {
    assert InBlock([p.address][0], BlockSize(p), a);
    assert a in Area(owned, p) && HasOwner(owned, a);
    hide Cover;
    assert m[a := value].Keys == m.Keys;
    forall q | q in owned - {p} ensures Area(owned - {p}, q) == Area(owned, q) { }
  }

  lemma PushOutcome(before: Words, after: Words, blocks: seq<u64>, b: u64, size: nat)
    requires WritesOnly(before, after, blocks + [b], size)
    ensures after.Keys == before.Keys
    ensures ChangedOnly(before, after, Cover(blocks, size) + Cover([b], size))
  {
    WritesChangeOnly(before, after, blocks + [b], size);
    CoverOfMore(blocks, b, size);
  }

  // ---------------------------------------------------------------------------------------
  // Calls as steps of the heap
  // ---------------------------------------------------------------------------------------

  /** A call on the free list `o`: `dealloc` gives it the block of the client `p`, `alloc` takes it from the list. The
      list has the nodes `before` the call and `after` it. */
  datatype HeapCall = HeapCall(give: bool, o: Owner, p: Owner, size: u64, before: seq<Node>, after: seq<Node>) {
    /** `pop` finds the list empty and asks for a region. */
    predicate Refills() { !give && Blocks(before) == [] }
  }

  /** The call fits who owns what. */
  ghost predicate CallFits(owned: Ownership, c: HeapCall) {
    && c.o in owned && c.o.Listed? && owned[c.o] == Blocks(c.before)
    && c.p.Held? && c.size == BlockSize(c.o) == BlockSize(c.p) && c.size > 0
    && (c.give ==> c.p in owned && owned[c.p] == [c.p.address])
  }

  /** What the call does to the heap. */
  ghost predicate CallRuns(words: Words, next: u64, c: HeapCall, words': Words, next': u64)
    requires c.p.Held?
  {
    && ListOk(words, c.size, c.before) && ListOk(words', c.size, c.after)
    && if c.Refills() then
         && next' == next + KERNEL_HEAP_PADDING + Region(c.size)
         && CutUp(Blocks(c.after) + [c.p.address], next, c.size) && Extended(words, words', next, Region(c.size))
       else
         && next' == next
         && (if c.give then Blocks(c.after) == Blocks(c.before) + [c.p.address]
             else Blocks(c.after) + [c.p.address] == Blocks(c.before))
         && WritesOnly(words, words', if c.give then Blocks(c.after) else Blocks(c.before), c.size)
  }

  ghost function OwnedAfter(owned: Ownership, c: HeapCall): Ownership
    requires c.p.Held?
  {
    if c.give then (owned - {c.p})[c.o := Blocks(c.after)] else owned[c.o := Blocks(c.after)][c.p := [c.p.address]]
  }

  ghost predicate CallDone(owned: Ownership, words: Words, next: u64, c: HeapCall, owned': Ownership, words': Words, next': u64) {
    CallFits(owned, c) && CallRuns(words, next, c, words', next') && owned' == OwnedAfter(owned, c)
  }

  /** What a whole `dealloc` did: the block goes from the client to the list. */
  lemma DeallocOutcome(before: Words, after: Words, owned: Ownership, c: HeapCall, next: u64, next': u64)
    requires HeapOk(before, owned, next) && c.give && CallFits(owned, c) && CallRuns(before, next, c, after, next')
    ensures HeapOk(after, OwnedAfter(owned, c), next') && ClientsKeep(OwnedAfter(owned, c), before, after)
    ensures ChangedOnly(before, after, Area(owned, c.o) + Area(owned, c.p))
    ensures forall q :: q in owned && q != c.o && q != c.p ==> Area(owned, q) !! Area(owned, c.o) + Area(owned, c.p)
  {
    hide Cover, ChangedOnly, Separated, Accounted, Below, BlockSize, WritesOnly, ClientsKeep, ListOk, Blocks;
    PushOutcome(before, after, owned[c.o], c.p.address, c.size);
    GiveBackStep(before, after, owned, next, c.o, c.p);
    CallKeepsOthers(owned, OwnedAfter(owned, c), before, after, c.o, c.p);
  }

  /** What a whole `alloc` did: the block goes from the list to the new client. */
  lemma AllocOutcome(before: Words, after: Words, owned: Ownership, c: HeapCall, next: u64, next': u64)
    requires HeapOk(before, owned, next) && !c.give && CallFits(owned, c) && CallRuns(before, next, c, after, next')
    requires c.p in owned ==> owned[c.p] == [c.p.address]
    ensures c.p !in owned && HeapOk(after, OwnedAfter(owned, c), next')
    ensures ClientsKeep(owned, before, after) && ChangedOnly(before, after, Area(owned, c.o))
    ensures forall q :: q in owned && q != c.o ==> Area(owned, q) !! Area(owned, c.o)
  {
    hide ListOk, Cover, Blocks, ChangedOnly, Separated, Accounted, Below, BlockSize, WritesOnly, Extended, CutUp, ClientsKeep;
    var area := Area(owned, c.o) + Area(owned, c.o);
    var extra := PopOutcome(before, after, c.size, c.before, next, next', Blocks(c.after), c.p.address);
    GrantStep(before, after, owned, next, next', c.o, c.p, Blocks(c.after), extra);
    assert area == Area(owned, c.o);
    CallKeepsOthers(owned, owned, before, after, c.o, c.o);
  }

  // ---------------------------------------------------------------------------------------
  // The allocator
  // ---------------------------------------------------------------------------------------

  const FREE_LISTS: nat := 61

  /** `free_list` never runs off the end of the array of lists. */
  ghost function ListFor(l: Layout): (k: nat)
    requires LayoutOk(l)
    ensures k == Class(l) < FREE_LISTS
  {
    ClassFits(l);
    Class(l)
  }

  class GlobalAllocator {
    const memory: HeapMemory

    /** The free lists of every core, by size class. */
    const lists: seq<seq<FreeList>>

    ghost var owned: Ownership

    ghost function AllLists(): set<FreeList> {
      set c, k | 0 <= c < |lists| && 0 <= k < |lists[c]| :: lists[c][k]
    }

    ghost predicate ListInOrder(c: nat, k: nat)
      requires c < |lists| && k < |lists[c]|
      reads memory, AllLists()
      reads this
    {
      && lists[c][k].size == ClassSize(k) && lists[c][k].Valid(memory.words)
      && Listed(c, k) in owned && owned[Listed(c, k)] == lists[c][k].Stack()
    }

    ghost predicate OwnerInOrder(o: Owner)
      requires o in owned
      reads this
    {
      match o
      case Listed(c, k) => c < |lists| && k < |lists[c]|
      case Held(b, l) => owned[o] == [b] && LayoutOk(l) && AlignOk(l) && Multiple(b, Alignment(BlockSize(o)))
    }

    ghost predicate Distinct() {
      && (forall c :: 0 <= c < |lists| ==> |lists[c]| == FREE_LISTS)
      && forall c, k, d, j :: 0 <= c < |lists| && 0 <= k < |lists[c]| && 0 <= d < |lists| && 0 <= j < |lists[d]| ==>
           (lists[c][k] == lists[d][j] ==> c == d && k == j)
    }

    ghost predicate Valid()
      reads this, memory.Footprint(), AllLists()
    {
      && memory.Valid() && Distinct()
      && (forall c, k :: 0 <= c < |lists| && 0 <= k < |lists[c]| ==> ListInOrder(c, k))
      && (forall o :: o in owned ==> OwnerInOrder(o))
      && HeapOk(memory.words, owned, memory.next)
    }

    /** What clients hold. */
    ghost function Live(): set<Owner>
      reads this
    {
      set o | o in owned && o.Held?
    }

    /** Nothing is mapped yet: every list is new. */
    constructor (lists: seq<seq<FreeList>>, pageTable: PageTable, ram: PhysicalMemory)
      requires pageTable.Valid(ram)
      requires forall c :: 0 <= c < |lists| ==> |lists[c]| == FREE_LISTS
      requires forall c, k, d, j :: 0 <= c < |lists| && 0 <= k < |lists[c]| && 0 <= d < |lists| && 0 <= j < |lists[d]| ==>
                 (lists[c][k] == lists[d][j] ==> c == d && k == j)
      requires forall c, k :: 0 <= c < |lists| && 0 <= k < |lists[c]| ==>
                 lists[c][k].size == ClassSize(k) && lists[c][k].Valid(map[]) && lists[c][k].Stack() == []
      ensures Valid() && Live() == {} && this.lists == lists && fresh(memory)
      ensures memory.pageTable == pageTable && memory.ram == ram
    {
      hide HeapMemory.Valid, ListOk, Blocks, SizeOk, Top, AllAligned;
      this.lists := lists;
      memory := new HeapMemory(pageTable, ram);
      ghost var owners := set c, k | 0 <= c < |lists| && 0 <= k < |lists[c]| :: Listed(c, k);
      owned := map o | o in owners :: [];
      new;
      forall c, k | 0 <= c < |lists| && 0 <= k < |lists[c]| ensures ListInOrder(c, k) {
        assert lists[c][k].size == ClassSize(k);
        assert lists[c][k].Stack() == [];
        assert lists[c][k].Valid(map[]);
        assert Listed(c, k) in owners;
        assert owned[Listed(c, k)] == [];
      }
      assert forall o :: o in owned ==> OwnerInOrder(o);
      assert HeapOk(memory.words, owned, memory.next);
    }

    /** The free blocks of a core that serve a layout. */
    ghost function ListOf(core: nat, l: Layout): seq<u64>
      requires core < |lists| && |lists[core]| == FREE_LISTS && LayoutOk(l)
      reads AllLists()
    {
      lists[core][ListFor(l)].Stack()
    }

    /** `GlobalAlloc::alloc` on a core: the client gets a block that nobody owns any more. It panics for a bad alignment,
        and when the list of the layout is empty and there are no addresses left or the mapping fails. */
    method Alloc(core: nat, l: Layout) returns (r: Attempt<u64>)
      requires Valid() && core < |lists| && LayoutOk(l)
      modifies this, memory.Footprint(), AllLists()
      ensures !r.Refused?
      ensures !(l.align <= 8 || (l.align <= 4096 && l.align < 2 * l.size)) ==> r.Panicked?
      ensures r.Panicked? && (l.align <= 8 || (l.align <= 4096 && l.align < 2 * l.size)) ==> old(ListOf(core, l)) == []
      ensures r.Panicked? && (l.align <= 8 || (l.align <= 4096 && l.align < 2 * l.size)) && old(memory.next) + KERNEL_HEAP_PADDING + Region(ClassSize(Class(l))) <= U64_MAX ==>
                memory.MapFails(old(memory.pageTable.State(memory.ram)), old(memory.next), Region(ClassSize(Class(l))))
      ensures r.Done? ==> Valid() && Held(r.value, l) !in old(Live()) && Live() == old(Live()) + {Held(r.value, l)}
      ensures r.Done? ==> ClientsKeep(old(owned), old(memory.words), memory.words)
      ensures r.Done? && old(ListOf(core, l)) != [] ==> ListOf(core, l) + [r.value] == old(ListOf(core, l))
      ensures r.Done? ==>
        CallDone(old(owned), old(memory.words), old(memory.next),
                 HeapCall(false, Listed(core, Class(l)), Held(r.value, l), lists[core][ListFor(l)].size, old(lists[core][ListFor(l)].nodes), lists[core][ListFor(l)].nodes),
                 owned, memory.words, memory.next)
      ensures forall c, k :: 0 <= c < |lists| && 0 <= k < |lists[c]| && (c != core || k != Class(l)) ==>
                lists[c][k].Stack() == old(lists[c][k].Stack())
    {
      hide ListOk, Chain, Cover, Blocks, ChangedOnly, Separated, Accounted, Below, BitLength, Pow2, Multiple, HeapMemory.MapFails,
           HeapMemory.Valid, ClientsKeep, HeapOk, FreeList.Valid;
      ClassFits(l);
      AlignmentMeaning(l);
      if !AlignOk(l) { return Panicked; }
      r := TakeFor(core, Class(l), l);
    }

    /** Pop from list `k` of a core, for a layout. */
    method TakeFor(core: nat, k: nat, l: Layout) returns (r: Attempt<u64>)
      requires Valid() && core < |lists| && LayoutOk(l) && AlignOk(l) && k == Class(l) < FREE_LISTS
      requires BlockSize(Held(0, l)) == ClassSize(k)
      modifies this, memory.Footprint(), AllLists()
      ensures !r.Refused?
      ensures r.Panicked? ==> old(lists[core][k].Stack()) == []
      ensures r.Panicked? && old(memory.next) + KERNEL_HEAP_PADDING + Region(ClassSize(k)) <= U64_MAX ==>
                memory.MapFails(old(memory.pageTable.State(memory.ram)), old(memory.next), Region(ClassSize(k)))
      ensures r.Done? ==> Valid() && Held(r.value, l) !in old(Live()) && Live() == old(Live()) + {Held(r.value, l)}
      ensures r.Done? ==> ClientsKeep(old(owned), old(memory.words), memory.words)
      ensures r.Done? && old(lists[core][k].Stack()) != [] ==> lists[core][k].Stack() + [r.value] == old(lists[core][k].Stack())
      ensures r.Done? ==>
        CallDone(old(owned), old(memory.words), old(memory.next),
                 HeapCall(false, Listed(core, k), Held(r.value, l), lists[core][k].size, old(lists[core][k].nodes), lists[core][k].nodes),
                 owned, memory.words, memory.next)
      ensures forall c, j :: 0 <= c < |lists| && 0 <= j < |lists[c]| && (c != core || j != k) ==>
                lists[c][j].Stack() == old(lists[c][j].Stack())
    {
      hide ListOk, Chain, Cover, Blocks, ChangedOnly, Separated, Accounted, Below, BitLength, Pow2, WritesOnly, Extended, Multiple, CutUp,
           HeapMemory.MapFails, HeapMemory.Valid, ClientsKeep, HeapOk, Class, ClassSize;
      assert ListInOrder(core, k);
      var list := lists[core][k];
      ghost var o, words, next, nodes := Listed(core, k), memory.words, memory.next, list.nodes;
      ghost var before, area := owned, Area(owned, o);
      var b :- list.Pop(memory);
      ghost var p := Held(b, l);
      SizesAreWords(list.size);
      assert p in owned ==> OwnerInOrder(p);
      ghost var c := HeapCall(false, o, p, list.size, nodes, list.nodes);
      AllocOutcome(words, memory.words, owned, c, next, memory.next);
      owned := OwnedAfter(owned, c);
      forall c, j | 0 <= c < |lists| && 0 <= j < |lists[c]| && (c != core || j != k) ensures ListInOrder(c, j) {
        assert old(ListInOrder(c, j));
        assert Area(before, Listed(c, j)) !! area;
        ListStays(words, memory.words, lists[c][j].size, lists[c][j].nodes, area);
      }
      return Done(b);
    }

    /** `GlobalAlloc::dealloc` on any core: the block goes to the list of that core. */
    method Dealloc(core: nat, b: u64, l: Layout)
      requires Valid() && core < |lists| && Held(b, l) in Live()
      modifies this, memory.Footprint(), AllLists()
      ensures Valid() && Live() == old(Live()) - {Held(b, l)}
      ensures ClientsKeep(owned, old(memory.words), memory.words)
      ensures LayoutOk(l) && ListOf(core, l) == old(ListOf(core, l)) + [b]
      ensures CallDone(old(owned), old(memory.words), old(memory.next),
                       HeapCall(true, Listed(core, Class(l)), Held(b, l), lists[core][ListFor(l)].size, old(lists[core][ListFor(l)].nodes), lists[core][ListFor(l)].nodes),
                       owned, memory.words, memory.next)
      ensures forall c, k :: 0 <= c < |lists| && 0 <= k < |lists[c]| && (c != core || k != Class(l)) ==>
                lists[c][k].Stack() == old(lists[c][k].Stack())
    {
      hide ListOk, Chain, Cover, Blocks, ChangedOnly, Separated, Accounted, Below, BitLength, Pow2, Multiple, HeapMemory.Valid,
           ClientsKeep, HeapOk, FreeList.Valid;
      assert OwnerInOrder(Held(b, l));
      ClassFits(l);
      GiveTo(core, Class(l), b, l);
    }

    /** Push on list `k` of a core. */
    method GiveTo(core: nat, k: nat, b: u64, l: Layout)
      requires Valid() && core < |lists| && Held(b, l) in Live() && k < FREE_LISTS && BlockSize(Held(b, l)) == ClassSize(k)
      modifies this, memory.Footprint(), AllLists()
      ensures Valid() && Live() == old(Live()) - {Held(b, l)}
      ensures ClientsKeep(owned, old(memory.words), memory.words)
      ensures lists[core][k].Stack() == old(lists[core][k].Stack()) + [b]
      ensures CallDone(old(owned), old(memory.words), old(memory.next),
                       HeapCall(true, Listed(core, k), Held(b, l), lists[core][k].size, old(lists[core][k].nodes), lists[core][k].nodes),
                       owned, memory.words, memory.next)
      ensures forall c, j :: 0 <= c < |lists| && 0 <= j < |lists[c]| && (c != core || j != k) ==>
                lists[c][j].Stack() == old(lists[c][j].Stack())
    {
      hide ListOk, Chain, Cover, Blocks, ChangedOnly, Separated, Accounted, Below, BitLength, Pow2, WritesOnly, Multiple, SizeOk,
           HeapMemory.Valid, ClientsKeep, HeapOk, Class, ClassSize;
      assert ListInOrder(core, k) && OwnerInOrder(Held(b, l));
      var list := lists[core][k];
      ghost var o, p, words, before, nodes, next := Listed(core, k), Held(b, l), memory.words, owned, list.nodes, memory.next;
      ghost var area := Area(owned, o) + Area(owned, p);
      memory.AddressesAreHigh();
      HeldBlockIsPushable(words, owned, memory.next, o, p, list.size, list.nodes);
      list.Push(memory, b);
      ghost var c := HeapCall(true, o, p, list.size, nodes, list.nodes);
      SizesAreWords(list.size);
      DeallocOutcome(words, memory.words, owned, c, next, memory.next);
      owned := OwnedAfter(owned, c);
      forall c, j | 0 <= c < |lists| && 0 <= j < |lists[c]| && (c != core || j != k) ensures ListInOrder(c, j) {
        assert old(ListInOrder(c, j));
        assert Area(before, Listed(c, j)) !! area;
        ListStays(words, memory.words, lists[c][j].size, lists[c][j].nodes, area);
      }
    }

    /** A client writes to a block that it holds. */
    method Store(p: Owner, a: u64, value: u64)
      requires Valid() && p in Live() && a % 8 == 0 && InBlock(p.address, p.layout.size, a)
      modifies memory`words, memory.ram.words
      ensures Valid() && memory.words == old(memory.words)[a := value]
      ensures ClientsKeep(owned - {p}, old(memory.words), memory.words)
    {
      hide ListOk, Chain, Blocks, ChangedOnly, Separated, Accounted, Below, BitLength, Pow2, Multiple, SizeOk, HeapMemory.Valid;
      ghost var words := memory.words;
      assert OwnerInOrder(p);
      ClassFits(p.layout);
      StoreStep(words, owned, memory.next, p, a, value);
      memory.Store(a, value);
      forall c, k | 0 <= c < |lists| && 0 <= k < |lists[c]| ensures ListInOrder(c, k) {
        assert old(ListInOrder(c, k));
        ListStays(words, memory.words, lists[c][k].size, lists[c][k].nodes, Area(owned, p));
      }
    }

    /** Live blocks hold at least the bytes asked for, at an aligned address, and overlap neither each
        other nor any free block. */
    lemma LiveBlocksAreSound(p: Owner)
      requires Valid() && p in Live()
      ensures p.layout.align > 0 && p.address % p.layout.align == 0
      ensures forall a: u64 :: InBlock(p.address, p.layout.size, a) ==> a in Area(owned, p)
      ensures forall q, a: u64 :: q in owned && q != p && a in Area(owned, q) ==> !InBlock(p.address, p.layout.size, a)
      ensures forall a: u64 :: a % 8 == 0 && InBlock(p.address, p.layout.size, a) ==> a in memory.words
    {
      hide Multiple, BitLength, Pow2, AlignOk, Class;
      assert OwnerInOrder(p);
      BlockIsAligned(p.address, p.layout);
      ClassFits(p.layout);
      forall a: u64 | InBlock(p.address, p.layout.size, a) ensures a in Area(owned, p) {
        assert InBlock([p.address][0], BlockSize(p), a);
      }
      forall a: u64 | a % 8 == 0 && InBlock(p.address, p.layout.size, a) ensures a in memory.words {
        assert HasOwner(owned, a);
      }
    }
  }
}
