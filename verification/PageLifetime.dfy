/** The whole life of a page table: it is created, mapped into by any sequence of calls, and destroyed. */
module PageLifetimes {
  import opened MachineInts
  import opened RangeSets
  import opened PhysicalMemories
  import opened PageTrees
  import opened PageMaps
  import opened PageSnapshots
  import opened PageRegions
  import opened PageTables
  import opened PageRuns

  /** A call that a client makes. */
  datatype Op =
    | Raw(va: u64, t: PageType, raw: u64, add: bool, update: bool)
    | Region(va: u64, t: PageType, size: u64, write: bool, exec: bool, user: bool, init: Option<nat -> byte>)
  {
    /** The assert of `map_raw_internal`. */
    predicate Allowed() { Raw? ==> !Deallocate(raw) }

    predicate Updates() { Raw? && update }
  }

  function PageCount(t: PageType, size: nat): nat {
    match t case Page4K => size / 4096 case Page2M => size / 0x20_0000 case Page1G => size / 0x4000_0000
  }

  lemma PagesFitRegion(t: PageType, n: nat, size: nat)
    requires Offset(t, n) <= size
    ensures n <= PageCount(t, size)
  {
  }

  /** How many blocks a call may take from free memory: three tables and the page, for every page. */
  function Cost(op: Op): nat {
    4 + if op.Region? then 4 * PageCount(op.t, op.size) else 0
  }

  function TotalCost(ops: seq<Op>): nat {
    if ops == [] then 0 else TotalCost(ops[..|ops| - 1]) + Cost(ops[|ops| - 1])
  }

  lemma {:induction false} PrefixCostsLess(ops: seq<Op>, n: nat)
    requires n <= |ops|
    ensures TotalCost(ops[..n]) <= TotalCost(ops)
    ensures n < |ops| ==> TotalCost(ops[..n + 1]) == TotalCost(ops[..n]) + Cost(ops[n])
  {
    assert ops[..|ops|] == ops;
    if n < |ops| {
      assert ops[..n + 1][..n] == ops[..n];
      if n < |ops| - 1 {
        PrefixCostsLess(ops[..|ops| - 1], n);
        assert ops[..|ops| - 1][..n] == ops[..n];
      }
    }
  }

  /** The call is the one that the client made, and `ok` is its outcome. */
  ghost predicate Answers(op: Op, call: Call, ok: bool) {
    match op
    case Raw(va, t, raw, add, update) =>
      call == if ok then RawDone(va, t, raw, add, update) else RawRefused(va, t, raw, add, update)
    case Region(va, t, size, write, exec, user, init) =>
      && call.va == va && call.t == t
      && if ok then call.RegionDone? && size == Offset(t, |call.entries|) else call.RegionNotDone? && call.size == size
  }

  /** A mapped region has its contents and rights. */
  ghost predicate ContentsAre(op: Op, call: Call, mem: Memory) {
    op.Region? && call.RegionDone? ==>
      RegionReady(mem, op.t, call.entries, ContentOf(op.init), op.write, op.exec, op.user)
  }

  /** One call. The result tells whether it succeeded. */
  method Perform(pt: PageTable, m: PhysicalMemory, op: Op) returns (r: Attempt<bool>, ghost call: Call, ghost waste: iset<int>)
    requires pt.Valid(m) && op.Allowed()
    modifies pt, m, m.words, m.free, m.free.ranges
    ensures !r.Refused?
    ensures r.Done? ==> pt.Valid(m) && Runs(old(pt.State(m)), call, pt.State(m), waste) && Answers(op, call, r.value)
    ensures r.Done? ==> ContentsAre(op, call, m.words[..])
    ensures r.Done? && r.value && !op.Updates() ==> LosesNothing(old(pt.State(m)), call)
    ensures r.Done? ==> pt.Weight() <= old(pt.Weight()) + Cost(op)
    ensures m.free.used <= old(m.free.used) + Cost(op) && (r.Panicked? ==> m.free.used == CAPACITY)
  {
    hide IsTree, Separate, Owned, OwnedPagesFit, WellFormed, Mapped, MapAllowed, Grown, GotPages, PathOf, Offset,
         RegionReady, RegionRefused, Starved;
    ghost var a := pt.State(m);
    if op.Raw? {
      var done;
      done, waste := pt.MapRaw(m, op.va, op.t, op.raw, op.add, op.update);
      call := if done.Done? then RawDone(op.va, op.t, op.raw, op.add, op.update)
              else RawRefused(op.va, op.t, op.raw, op.add, op.update);
      if done.Panicked? { return Panicked, call, waste; }
      if done.Done? && !op.update { NewPositionsAreFree(a, op.va, op.t, op.add); }
      return Done(done.Done?), call, waste;
    }
    var done;
    ghost var entries;
    done, entries, waste := pt.MapInit(m, op.va, op.t, op.size, op.write, op.exec, op.user, op.init);
    call := RegionDone(op.va, op.t, entries);
    if done.Done? || done.Panicked? { PagesFitRegion(op.t, |entries|, op.size); }
    if done.Panicked? { return Panicked, call, waste; }
    if done.Refused? {
      call := FailedRegionIsCall(a, pt.State(m), op.va, op.t, op.size, entries, waste);
    }
    return Done(done.Done?), call, waste;
  }

  lemma NewPositionsAreFree(a: Snapshot, va: u64, t: PageType, add: bool)
    requires MapAllowed(a.tables, a.pages, va, t, add, false)
    ensures PathOf(va, LeafDepth(t)) !in a.tables && PathOf(va, LeafDepth(t)) !in a.pages
  {
  }

  lemma FailedRegionIsCall(a: Snapshot, b: Snapshot, va: u64, t: PageType, size: u64, entries: seq<u64>, waste: iset<int>)
    returns (call: Call)
    requires RegionFails(a, b, va, t, size, entries, waste)
    ensures Runs(a, call, b, waste) && |entries| <= PageCount(t, size)
    ensures call.RegionNotDone? && call.va == va && call.t == t && call.size == size
  {
    var mid: Snapshot, first: iset<int>, last: iset<int> :|
      RegionRefused(a, mid, b, va, t, size, entries, first, last) && waste == first + last;
    call := RegionNotDone(va, t, size, entries, mid);
    if !BadRegion(va, t, size) { PagesFitRegion(t, |entries|, size); }
  }

  /** The life of a page table: its root, the states before each call and after the last, the calls, and what was
      lost in `new` and in each call. */
  datatype Life = Life(root: u64, trace: seq<Snapshot>, calls: seq<Call>, first: iset<int>, wastes: seq<iset<int>>)

  /** The life starts with an empty tree in the given memory, and is a run of the calls that the client made, with
      their outcomes. */
  ghost predicate Lived(life: Life, mem: Memory, free: iset<int>, lost: iset<int>, ops: seq<Op>, results: seq<bool>) {
    && IsRun(life.trace, life.calls, life.wastes, life.root)
    && |life.calls| == |results| == |ops|
    && var start := life.trace[0];
      && start.pages == map[] && start.lost == lost + life.first
      && Allocated(free, start.free, Owned(start.tables, map[]), life.first)
      && ChangesOnly(mem, start.mem, free, map[])
      && forall k :: 0 <= k < |ops| ==> AnswersAt(life, ops, results, k)
  }

  ghost predicate AnswersAt(life: Life, ops: seq<Op>, results: seq<bool>, k: nat)
    requires k < |ops| == |results| == |life.calls| && |life.trace| == |life.calls| + 1
  {
    Answers(ops[k], life.calls[k], results[k]) && ContentsAre(ops[k], life.calls[k], life.trace[k + 1].mem)
  }

  lemma LifeGoesOn(life: Life, mem: Memory, free: iset<int>, lost: iset<int>, ops: seq<Op>, k: nat, results: seq<bool>,
                   call: Call, b: Snapshot, waste: iset<int>, ok: bool) returns (longer: Life)
    requires k < |ops| && Lived(life, mem, free, lost, ops[..k], results)
    requires Sound(b, life.root) && Runs(life.trace[k], call, b, waste) && Answers(ops[k], call, ok) && ContentsAre(ops[k], call, b.mem)
    ensures longer == Life(life.root, life.trace + [b], life.calls + [call], life.first, life.wastes + [waste])
    ensures Lived(longer, mem, free, lost, ops[..k + 1], results + [ok])
  {
    hide IsTree, Sound, Runs, Allocated, ChangesOnly, Answers, ContentsAre;
    RunGoesOn(life.trace, life.calls, life.wastes, life.root, call, b, waste);
    longer := Life(life.root, life.trace + [b], life.calls + [call], life.first, life.wastes + [waste]);
    var asked, got := ops[..k + 1], results + [ok];
    forall i | 0 <= i < k + 1 ensures AnswersAt(longer, asked, got, i) {
      if i < k { assert AnswersAt(life, ops[..k], results, i); }
    }
  }

  /** All calls, one after the other. */
  method PerformAll(pt: PageTable, m: PhysicalMemory, ops: seq<Op>, ghost start: Life,
                    ghost mem: Memory, ghost free: iset<int>, ghost lost: iset<int>)
    returns (r: Attempt<seq<bool>>, ghost life: Life)
    requires pt.Valid(m) && forall op <- ops :: op.Allowed()
    requires Lived(start, mem, free, lost, ops[..0], []) && start.root == pt.table
    requires |start.trace| == 1 && start.calls == [] && start.trace[0] == pt.State(m)
    modifies pt, m, m.words, m.free, m.free.ranges
    ensures !r.Refused?
    ensures r.Done? ==>
      && pt.Valid(m) && |r.value| == |life.calls| == |ops| && |life.trace| == |ops| + 1
      && Lived(life, mem, free, lost, ops, r.value) && life.trace[|ops|] == pt.State(m)
      && forall i :: 0 <= i < |ops| && r.value[i] && !ops[i].Updates() ==> LosesNothing(life.trace[i], life.calls[i])
    ensures m.free.used <= old(m.free.used) + TotalCost(ops) && (r.Panicked? ==> m.free.used == CAPACITY)
    ensures r.Done? ==> pt.Weight() <= old(pt.Weight()) + TotalCost(ops)
  {
    hide IsTree, Separate, Owned, OwnedPagesFit, WellFormed, Runs, LosesNothing, TotalCost, Cost, Lived, Answers, ContentsAre;
    life := start;
    NothingCosts(ops);
    var results := [];
    for k := 0 to |ops|
      invariant pt.Valid(m) && life.root == pt.table
      invariant |results| == |life.calls| == k && |life.trace| == k + 1 && life.trace[k] == pt.State(m)
      invariant Lived(life, mem, free, lost, ops[..k], results)
      invariant forall i :: 0 <= i < k && results[i] && !ops[i].Updates() ==> LosesNothing(life.trace[i], life.calls[i])
      invariant m.free.used <= old(m.free.used) + TotalCost(ops[..k]) && pt.Weight() <= old(pt.Weight()) + TotalCost(ops[..k])
    {
      PrefixCostsLess(ops, k);
      PrefixCostsLess(ops, k + 1);
      assert ops[k] in ops;
      var done;
      ghost var call, waste;
      done, call, waste := Perform(pt, m, ops[k]);
      if done.Panicked? { return Panicked, life; }
      ValidIsSound(pt, m);
      life := LifeGoesOn(life, mem, free, lost, ops, k, results, call, pt.State(m), waste, done.value);
      results := results + [done.value];
    }
    assert ops[..|ops|] == ops;
    return Done(results), life;
  }

  /** `new`, then any calls, then `destroy`. What is free afterwards is what was free before without what the
      calls lost. When free memory consists of whole pages, it is the same exactly when no call lost any, and
      no successful call without `update` does. It panics only when the set of free memory gets full. */
  method Live(m: PhysicalMemory, ops: seq<Op>) returns (r: Attempt<seq<bool>>, ghost life: Life)
    requires m.Valid() && forall op <- ops :: op.Allowed()
    modifies m, m.words, m.free, m.free.ranges
    ensures !r.Panicked? ==> (r.Refused? <==> old(m.CannotServe(Page4K)))
    ensures r.Done? ==> m.Valid() && Lived(life, old(m.words[..]), old(m.Free()), old(m.lost), ops, r.value)
    ensures r.Done? ==> var last := life.trace[|ops|];
      && m.lost == last.lost && |last.mem| == m.words.Length
      && forall w :: 0 <= w < m.words.Length && m.words[w] != last.mem[w] ==> IsTableWord(last.tables, w)
    ensures r.Done? ==> m.Free() == old(m.Free()) - (m.lost - old(m.lost))
    ensures r.Done? && Paged(old(m.Free())) ==> (m.Free() == old(m.Free()) <==> Lossless(life.trace, life.calls))
    ensures r.Done? && Paged(old(m.Free())) && (forall k :: 0 <= k < |ops| ==> r.value[k] && !ops[k].Updates()) ==>
              m.Free() == old(m.Free())
    ensures m.free.used <= old(m.free.used) + 2 * (1 + TotalCost(ops))
    ensures r.Panicked? ==> old(m.free.used) + 2 * (1 + TotalCost(ops)) > CAPACITY
  {
    hide IsTree, Separate, Owned, OwnedPagesFit, WellFormed, LosesNothing, Lossless, TotalCost, Allocated, ChangesOnly, Lived,
         IsTableWord;
    life := Life(0, [], [], iset{}, []);
    ghost var mem0, free0, lost0 := m.words[..], m.Free(), m.lost;
    var created;
    ghost var waste0;
    created, waste0 := PageTable.New(m);
    if created.Refused? { return Refused, life; }
    if created.Panicked? { return Panicked, life; }
    var pt := created.value;
    life := Life(pt.table, [pt.State(m)], [], waste0, []);
    ValidIsSound(pt, m);
    LifeStarts(life, mem0, free0, lost0, ops);
    r, life := PerformAll(pt, m, ops, life, mem0, free0, lost0);
    if r.Panicked? { return; }
    ghost var last := pt.State(m);
    var destroyed := pt.Destroy(m);
    if destroyed.Panicked? { return Panicked, life; }
    LifeEnds(life, mem0, free0, lost0, ops, r.value, last, m.Free());
    if forall i :: 0 <= i < |ops| ==> LosesNothing(life.trace[i], life.calls[i]) { SureIsLossless(life.trace, life.calls); }
  }

  lemma LifeStarts(life: Life, mem: Memory, free: iset<int>, lost: iset<int>, ops: seq<Op>)
    requires |life.trace| == 1 && life.calls == [] && life.wastes == [] && Sound(life.trace[0], life.root)
    requires var start := life.trace[0];
      && start.pages == map[] && start.lost == lost + life.first
      && Allocated(free, start.free, Owned(start.tables, map[]), life.first)
      && ChangesOnly(mem, start.mem, free, map[])
    ensures Lived(life, mem, free, lost, ops[..0], [])
  {
    hide Sound, Allocated, ChangesOnly;
    RunStarts(life.trace[0], life.root);
    assert life.trace == [life.trace[0]];
  }

  lemma LifeEnds(life: Life, mem: Memory, free: iset<int>, lost: iset<int>, ops: seq<Op>, results: seq<bool>,
                 last: Snapshot, freeEnd: iset<int>)
    requires lost !! free && Lived(life, mem, free, lost, ops, results) && life.trace[|ops|] == last
    requires freeEnd == last.free + Owned(last.tables, last.pages)
    ensures freeEnd == free - (last.lost - lost)
    ensures Paged(free) ==> (freeEnd == free <==> Lossless(life.trace, life.calls))
  {
    hide IsRun, Allocated, Owned, ChangesOnly, Lossless;
    RunHasStates(life.trace, life.calls, life.wastes, life.root);
    LifetimeConserves(free, lost, life.first, life.trace, life.calls, life.wastes, life.root, freeEnd);
  }

  lemma RunHasStates(trace: seq<Snapshot>, calls: seq<Call>, wastes: seq<iset<int>>, root: u64)
    requires IsRun(trace, calls, wastes, root)
    ensures |trace| == |calls| + 1 == |wastes| + 1
  {
  }

  lemma NothingCosts(ops: seq<Op>)
    ensures TotalCost(ops[..0]) == 0
  {
  }

  lemma ValidIsSound(pt: PageTable, m: PhysicalMemory)
    requires pt.Valid(m)
    ensures Sound(pt.State(m), pt.table)
  {
  }

  lemma SureIsLossless(trace: seq<Snapshot>, calls: seq<Call>)
    requires |trace| == |calls| + 1 && forall i :: 0 <= i < |calls| ==> LosesNothing(trace[i], calls[i])
    ensures Lossless(trace, calls)
  {
  }
}
