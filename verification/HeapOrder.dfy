/** The order of calls on different cores: each works on its own list, so that neighbouring calls can be swapped
    (kernel/src/mm.rs, kernel/src/core_locals.rs). */
module HeapOrders {
  import opened MachineInts
  import opened FreeLists
  import opened HeapBackings
  import opened KernelHeaps
  import opened GlobalAllocators

  // ---------------------------------------------------------------------------------------
  // Steps within an area
  // ---------------------------------------------------------------------------------------

  /** Two heaps agree on the words of an area. */
  ghost predicate SameIn(u: Words, v: Words, area: iset<u64>) {
    forall a :: a in area ==> (a in u <==> a in v) && (a in u ==> u[a] == v[a])
  }

  /** Nothing is unmapped, and everything new or different lies in the area. */
  ghost predicate StepIn(u: Words, v: Words, area: iset<u64>) {
    && (forall a :: a in u ==> a in v)
    && forall a :: a in v && a !in area ==> a in u && v[a] == u[a]
  }

  /** `base`, with the words of an area as they are in `other`. */
  ghost function Patched(base: Words, other: Words, area: iset<u64>): Words {
    map a | a in base.Keys + other.Keys && (if a in area then a in other else a in base) ::
      if a in area then other[a] else base[a]
  }

  /** Steps within disjoint areas can be swapped. */
  lemma StepsCommute(u: Words, v: Words, w: Words, first: iset<u64>, second: iset<u64>)
    requires StepIn(u, v, first) && StepIn(v, w, second) && first !! second
    ensures var x := Patched(u, w, second);
      && StepIn(u, x, second) && StepIn(x, w, first)
      && SameIn(v, u, second) && SameIn(w, x, second) && SameIn(u, x, first) && SameIn(v, w, first)
  {
  }

  // ---------------------------------------------------------------------------------------
  // Calls within their areas
  // ---------------------------------------------------------------------------------------

  /** What a call may write: the blocks of its list and the one it is given, or a fresh region. */
  ghost function Writes(c: HeapCall, next: u64): iset<u64> {
    if c.Refills() then Cover([next], Region(c.size)) else Cover(if c.give then Blocks(c.after) else Blocks(c.before), c.size)
  }

  lemma CallStaysIn(words: Words, next: u64, c: HeapCall, words': Words, next': u64)
    requires c.p.Held? && CallRuns(words, next, c, words', next')
    ensures StepIn(words, words', Writes(c, next))
  {
    hide ListOk, Blocks, CutUp;
    if c.Refills() {
      forall a: u64 | InWords(next, Region(c.size), a) ensures a in Writes(c, next) {
        assert InBlock([next][0], Region(c.size), a);
      }
    } else {
      WritesChangeOnly(words, words', if c.give then Blocks(c.after) else Blocks(c.before), c.size);
      forall a | a in words' ensures a in words.Keys { }
    }
  }

  /** A list is in order in every heap that has the same words in its blocks. */
  lemma ListMoves(u: Words, v: Words, size: u64, nodes: seq<Node>, area: iset<u64>)
    requires ListOk(u, size, nodes) && Cover(Blocks(nodes), size) <= area && SameIn(u, v, area)
    ensures ListOk(v, size, nodes)
  {
    forall k, a: u64 | 0 <= k < |nodes| && InBlock(nodes[k].address, size, a) && a in u
      ensures a in v && v[a] == u[a]
    {
      NodeOfChainIsBlock(nodes, k);
      assert a in Cover(Blocks(nodes), size);
    }
    ChainFrame(u, v, size, nodes);
    forall i | 0 <= i < |Blocks(nodes)| ensures Mapped(v, Blocks(nodes)[i], size) {
      assert Mapped(u, Blocks(nodes)[i], size);
      forall a: u64 | a % 8 == 0 && InBlock(Blocks(nodes)[i], size, a) ensures a in v {
        assert a in Cover(Blocks(nodes), size);
      }
    }
  }

  /** The blocks of the list before and after a call lie in what the call may write. */
  lemma ListsStayIn(words: Words, next: u64, c: HeapCall, words': Words, next': u64)
    requires c.p.Held? && c.size > 0 && CallRuns(words, next, c, words', next')
    ensures Cover(Blocks(c.before), c.size) <= Writes(c, next) && Cover(Blocks(c.after), c.size) <= Writes(c, next)
  {
    hide ListOk, Blocks, WritesOnly, Extended;
    CoverOfMore(Blocks(c.before), c.p.address, c.size);
    CoverOfMore(Blocks(c.after), c.p.address, c.size);
    if c.Refills() { CoverOfRegion(Blocks(c.after) + [c.p.address], next, c.size); }
  }

  /** A call does the same in every heap that has the same words where it may write. */
  lemma CallMoves(u: Words, u': Words, v: Words, v': Words, next: u64, c: HeapCall, next': u64)
    requires c.p.Held? && c.size > 0 && CallRuns(u, next, c, u', next')
    requires StepIn(v, v', Writes(c, next)) && SameIn(u, v, Writes(c, next)) && SameIn(u', v', Writes(c, next))
    ensures CallRuns(v, next, c, v', next')
  {
    ListsStayIn(u, next, c, u', next');
    ListMoves(u, v, c.size, c.before, Writes(c, next));
    ListMoves(u', v', c.size, c.after, Writes(c, next));
    hide ListOk, Blocks, CutUp;
    if c.Refills() {
      forall a: u64 | InWords(next, Region(c.size), a) ensures a in Writes(c, next) {
        assert InBlock([next][0], Region(c.size), a);
      }
    } else {
      forall a ensures a in v <==> a in v' {
        assert a in u.Keys <==> a in u'.Keys;
      }
      assert v.Keys == v'.Keys;
    }
  }

  // ---------------------------------------------------------------------------------------
  // Calls on different lists
  // ---------------------------------------------------------------------------------------

  lemma OwnWrites(words: Words, owned: Ownership, next: u64, c: HeapCall, words0: Words, words': Words, next': u64)
    requires HeapOk(words, owned, next) && CallFits(owned, c) && CallRuns(words0, next, c, words', next')
    ensures if c.Refills() then forall a :: a in Writes(c, next) ==> next <= a
            else Writes(c, next) == Area(owned, c.o) + (if c.give then Area(owned, c.p) else iset{})
  {
    hide ListOk, Blocks, WritesOnly, Extended, Accounted, Separated;
    CoverOfMore(Blocks(c.before), c.p.address, c.size);
  }

  /** Two such calls write to disjoint areas, whichever comes first. */
  lemma WritesApart(owned: Ownership, u: Words, first: HeapCall, v: Words, second: HeapCall, w: Words, n0: u64, n1: u64, n2: u64)
    requires HeapOk(u, owned, n0) && CallFits(owned, first) && CallFits(owned, second)
    requires first.o != second.o && first.p != second.p && !(first.Refills() && second.Refills())
    requires CallRuns(u, n0, first, v, n1) && CallRuns(v, n0, second, w, n2)
    ensures Writes(first, n0) !! Writes(second, n0)
  {
    hide Cover, Blocks, BlockSize, CallRuns, Writes;
    OwnWrites(u, owned, n0, first, u, v, n1);
    OwnWrites(u, owned, n0, second, v, w, n2);
  }

  /** Only a call that asks for memory sees or moves the next address. */
  lemma NextAddress(words: Words, next: u64, c: HeapCall, words': Words, next': u64)
    requires c.p.Held? && CallRuns(words, next, c, words', next')
    ensures !c.Refills() ==> next' == next && forall n: u64 :: CallRuns(words, n, c, words', n)
  {
    hide Blocks, ListOk, WritesOnly;
  }

  lemma OwnersCommute(owned: Ownership, first: HeapCall, second: HeapCall)
    requires CallFits(owned, first) && CallFits(owned, second) && first.o != second.o && first.p != second.p
    ensures OwnedAfter(OwnedAfter(owned, first), second) == OwnedAfter(OwnedAfter(owned, second), first)
  {
    hide Blocks, BlockSize;
  }

  /** Two calls on different lists, as those of different cores are, for different blocks: unless both ask for fresh
      memory, which is handed out in the order of the requests, they can be swapped. Each does the same as before, and the
      heap and its owners are the same in the end. */
  lemma CallsCommute(owned: Ownership, u: Words, first: HeapCall, v: Words, second: HeapCall, w: Words,
                     n0: u64, n1: u64, n2: u64) returns (x: Words, n: u64)
    requires HeapOk(u, owned, n0) && CallFits(owned, first) && CallFits(owned, second)
    requires first.o != second.o && first.p != second.p && !(first.Refills() && second.Refills())
    requires CallRuns(u, n0, first, v, n1) && CallRuns(v, n1, second, w, n2)
    ensures CallRuns(u, n0, second, x, n) && CallRuns(x, n, first, w, n2)
    ensures OwnedAfter(OwnedAfter(owned, first), second) == OwnedAfter(OwnedAfter(owned, second), first)
  {
    hide CallRuns, Writes, Cover, Blocks, BlockSize, HeapOk, StepIn, SameIn, Patched, OwnedAfter, HeapCall.Refills;
    n := if second.Refills() then n2 else n0;
    NextAddress(u, n0, first, v, n1);
    NextAddress(v, n1, second, w, n2);
    WritesApart(owned, u, first, v, second, w, n0, n1, n);
    CallStaysIn(u, n0, first, v, n1);
    CallStaysIn(v, n0, second, w, n);
    StepsCommute(u, v, w, Writes(first, n0), Writes(second, n0));
    x := Patched(u, w, Writes(second, n0));
    CallMoves(v, w, u, x, n0, second, n);
    CallMoves(u, v, x, w, n0, first, n1);
    NextAddress(x, n0, first, w, n1);
    OwnersCommute(owned, first, second);
  }

  /** Two calls that both ask for memory cannot be swapped: the second one gets other addresses when it comes first. */
  lemma RefillsKeepTheirOrder(u: Words, first: HeapCall, v: Words, second: HeapCall, w: Words, n0: u64, n1: u64, n2: u64,
                              x: Words, n: u64)
    requires first.p.Held? && second.p.Held? && first.Refills() && second.Refills()
    requires CallRuns(u, n0, first, v, n1) && CallRuns(v, n1, second, w, n2)
    ensures !CallRuns(u, n0, second, x, n)
  {
    hide ListOk, Blocks, Extended, CutUp;
    OneRegion(Blocks(second.after) + [second.p.address], n1, n0, second.size);
  }

  /** Blocks are cut from one region only. */
  lemma OneRegion(blocks: seq<u64>, v: u64, v': u64, size: nat)
    requires CutUp(blocks, v, size) && v' != v
    ensures !CutUp(blocks, v', size)
  {
    var first := blocks[0];
    assert first == v + 0 * size;
    assert Chunks(blocks, v', size) ==> first == v' + 0 * size;
  }
}
