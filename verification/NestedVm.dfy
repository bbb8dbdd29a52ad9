/** The nested page tables of a machine and the processor's TLB (kernel/src/vm/svm/npt.rs, kernel/src/vm/svm/mod.rs):
    on one core the guest never runs with a translation that is no longer in the tables. */
module NestedVms {
  import opened MachineInts
  import opened RangeSets
  import opened PhysicalMemories
  import opened PageTrees
  import opened PageMaps
  import opened PageSnapshots
  import opened PageRegions
  import opened PageTables
  import opened PageRuns
  import VirtualMachines

  // ---------------------------------------------------------------------------------------
  // Entries for a guest
  // ---------------------------------------------------------------------------------------

  /** `raw | PAGE_USER` */
  function OrUser(e: u64): (r: u64)
    ensures UserOk(r) && (Deallocate(r) <==> Deallocate(e)) && (Present(r) <==> Present(e)) && AddressOf(r) == AddressOf(e)
    ensures (Writable(r) <==> Writable(e)) && (NoExecute(r) <==> NoExecute(e)) && (Large(r) <==> Large(e))
  {
    if UserOk(e) then e
    else
      SettingBit2(e);
      e + PAGE_USER
  }

  lemma SettingBit2(e: nat)
    requires e / 4 % 2 == 0
    ensures (e + 4) / 4 % 2 == 1 && (e + 4) % 2 == e % 2 && (e + 4) / 2 % 2 == e / 2 % 2
    ensures (e + 4) / 0x80 == e / 0x80 && (e + 4) / 0x200 == e / 0x200 && (e + 4) / 4096 == e / 4096
    ensures e < 0x8000_0000_0000_0000 <==> e + 4 < 0x8000_0000_0000_0000
    ensures e < TWO_64 ==> e + 4 < TWO_64
  {
    var h, low := e / 8, e % 8;
    Divides(e, 4, 2 * h + low / 4, low % 4);
    assert low < 4 by { Divides(2 * h + low / 4, 2, h, low / 4); }
    LowBits(h, low);
    LowBitsDoNotCarry(h, low, 0x10);
    LowBitsDoNotCarry(h, low, 0x40);
    LowBitsDoNotCarry(h, low, 0x200);
  }

  lemma LowBits(h: nat, low: nat)
    requires low < 4
    ensures var e := 8 * h + low; (e + 4) / 4 % 2 == 1 && (e + 4) % 2 == e % 2 && (e + 4) / 2 % 2 == e / 2 % 2
  {
    var e := 8 * h + low;
    Divides(e + 4, 4, 2 * h + 1, low);
    Divides(2 * h + 1, 2, h, 1);
    Divides(e, 2, 4 * h + low / 2, low % 2);
    Divides(e + 4, 2, 4 * h + 2 + low / 2, low % 2);
    Divides(4 * h + low / 2, 2, 2 * h, low / 2);
    Divides(4 * h + 2 + low / 2, 2, 2 * h + 1, low / 2);
  }

  lemma LowBitsDoNotCarry(h: nat, low: nat, m: nat)
    requires low < 4 && m > 0
    ensures (8 * h + low + 4) / (8 * m) == (8 * h + low) / (8 * m)
  {
    var q, r := h / m, h % m;
    assert 8 * h == (8 * m) * q + 8 * r;
    Divides(8 * h + low + 4, 8 * m, q, 8 * r + low + 4);
    Divides(8 * h + low, 8 * m, q, 8 * r + low);
  }

  // ---------------------------------------------------------------------------------------
  // What the processor holds
  // ---------------------------------------------------------------------------------------

  /** A translation of a guest-physical address. */
  datatype Held = Held(address: u64, mapping: Mapping)

  ghost predicate Current(pages: Pages, h: Held) {
    Lookup(pages, h.address) == Some(h.mapping)
  }

  /** All translations of the tables. The processor may hold any of them after the guest ran. */
  ghost function AllOf(pages: Pages): iset<Held> {
    iset h: Held | Current(pages, h)
  }

  /** The nested tables, the flag that they were invalidated, what the processor holds for the guest on its core, and
      whether the last entry flushed it. */
  datatype Nested = Nested(tables: Snapshot, invalidated: bool, held: iset<Held>, flushed: bool)

  /** A call of the code around a machine. */
  datatype NestedOp =
    | MapRaw(va: u64, t: PageType, raw: u64, add: bool, update: bool)
    | Map(va: u64, t: PageType, size: u64, write: bool, exec: bool)
    | Enter(enabled: bool, svm: bool, xcr0: bool, guest: VirtualMachines.Guest)
  {
    ghost predicate Allowed() {
      match this
      case MapRaw(_, _, raw, _, _) => !Deallocate(raw)
      case Map(_, _, _, _, _) => true
      case Enter(_, _, _, guest) => VirtualMachines.GuestOk(guest)
    }
  }

  /** The call takes the machine from `a` to `b`. */
  ghost predicate NestedRuns(a: Nested, op: NestedOp, b: Nested) {
    match op
    case MapRaw(va, t, raw, add, update) =>
      && (exists waste: iset<int> :: Runs(a.tables, RawDone(va, t, OrUser(raw), add, update), b.tables, waste))
      && b.held == a.held && b.flushed == a.flushed
      && (b.invalidated <==> a.invalidated || Reported(a.tables.tables, a.tables.pages, va, t, U64_MAX) != [])
    case Map(va, t, size, write, exec) =>
      && (exists entries: seq<u64>, waste: iset<int> ::
            size == Offset(t, |entries|) && Runs(a.tables, RegionDone(va, t, entries), b.tables, waste)
            && RegionReady(b.tables.mem, t, entries, _ => 0, write, exec, true))
      && b.held == a.held && b.flushed == a.flushed && b.invalidated == a.invalidated
    case Enter(_, _, _, _) =>
      && b.tables == a.tables && !b.invalidated && (a.invalidated ==> b.flushed)
      && b.held == (if b.flushed then iset{} else a.held) + AllOf(a.tables.pages)
  }

  /** Unless a flush is pending, everything that the processor holds is in the tables. */
  ghost predicate HeldIsCurrent(s: Nested) {
    s.invalidated || s.held <= AllOf(s.tables.pages)
  }

  /** Mapping pages where nothing was mapped keeps every translation. */
  lemma RegionKeepsHeld(a: Snapshot, b: Snapshot, root: u64, waste: iset<int>)
    requires IsTree(b.mem, root, b.tables, b.pages) && Kept(a, b, waste)
    ensures AllOf(a.pages) <= AllOf(b.pages)
  {
    hide IsTree, Kept;
    KeptPages(a, b, waste);
    forall h: Held | Current(a.pages, h) ensures Current(b.pages, h) {
      LookupFinds(b.mem, root, b.tables, b.pages, h.address, h.mapping.depth);
    }
  }

  /** A call of `map_raw` that sets no flag keeps every translation. */
  lemma SilentMapKeepsHeld(a: Snapshot, b: Snapshot, root: u64, va: u64, t: PageType, raw: u64, add: bool, update: bool, waste: iset<int>)
    requires IsTree(a.mem, root, a.tables, a.pages) && Runs(a, RawDone(va, t, raw, add, update), b, waste)
    requires Reported(a.tables, a.pages, va, t, U64_MAX) == []
    ensures AllOf(a.pages) <= AllOf(b.pages)
  {
    hide IsTree, Mapped, MapAllowed, Lookup, Reported;
    forall h: Held | Current(a.pages, h) ensures Current(b.pages, h) {
      if Changed(a.pages, b.pages, h.address) {
        ChangedTranslationsAreReported(a, b, root, va, t, FinalEntry(raw, t, false), add, update, waste, h.address, U64_MAX);
      }
    }
  }

  /** Every call keeps it that way, and at every entry of the guest either the TLB is flushed or all of it is
      current. */
  lemma NestedStepIsSafe(a: Nested, op: NestedOp, b: Nested, root: u64)
    requires Sound(a.tables, root) && Sound(b.tables, root) && NestedRuns(a, op, b) && HeldIsCurrent(a)
    ensures HeldIsCurrent(b)
    ensures op.Enter? ==> (b.flushed || a.held <= AllOf(a.tables.pages)) && b.held == AllOf(b.tables.pages)
  {
    hide IsTree, Separate, Owned, Runs, Reported, AllOf;
    match op
    case MapRaw(va, t, raw, add, update) =>
      var waste: iset<int> :| Runs(a.tables, RawDone(va, t, OrUser(raw), add, update), b.tables, waste);
      if Reported(a.tables.tables, a.tables.pages, va, t, U64_MAX) == [] {
        SilentMapKeepsHeld(a.tables, b.tables, root, va, t, OrUser(raw), add, update, waste);
      }
    case Map(va, t, size, write, exec) =>
      var entries: seq<u64>, waste: iset<int> :|
        size == Offset(t, |entries|) && Runs(a.tables, RegionDone(va, t, entries), b.tables, waste)
        && RegionReady(b.tables.mem, t, entries, _ => 0, write, exec, true);
      RegionIsKept(a.tables, b.tables, va, t, entries, waste);
      RegionKeepsHeld(a.tables, b.tables, root, waste);
    case Enter(_, _, _, _) =>
  }

  lemma RegionIsKept(a: Snapshot, b: Snapshot, va: u64, t: PageType, entries: seq<u64>, waste: iset<int>)
    requires Runs(a, RegionDone(va, t, entries), b, waste)
    ensures Kept(a, b, waste)
  {
    GotPagesMeaning(a, b, va, t, entries, waste);
  }

  // ---------------------------------------------------------------------------------------
  // Runs
  // ---------------------------------------------------------------------------------------

  /** A run: one state before each call and one after the last. */
  ghost predicate IsNestedRun(trace: seq<Nested>, ops: seq<NestedOp>, root: u64) {
    && |trace| == |ops| + 1
    && (forall i :: 0 <= i < |trace| ==> Sound(trace[i].tables, root))
    && forall i :: 0 <= i < |ops| ==> StepAt(trace, ops, i)
  }

  ghost predicate StepAt(trace: seq<Nested>, ops: seq<NestedOp>, i: nat)
    requires |trace| == |ops| + 1 && i < |ops|
  {
    NestedRuns(trace[i], ops[i], trace[i + 1])
  }

  /** At entry `i` of the run the TLB is flushed or all of it is current, and so it is at the exit. */
  ghost predicate EntryIsSafe(trace: seq<Nested>, ops: seq<NestedOp>, i: nat)
    requires |trace| == |ops| + 1 && i < |ops|
  {
    ops[i].Enter? ==>
      && (trace[i + 1].flushed || trace[i].held <= AllOf(trace[i].tables.pages))
      && trace[i + 1].held == AllOf(trace[i + 1].tables.pages)
  }

  /** In every run of a machine whose guest has nothing in the TLB at first, the guest never runs with a translation
      that is no longer in the nested tables. */
  lemma {:induction false} GuestNeverRunsStale(trace: seq<Nested>, ops: seq<NestedOp>, root: u64, n: nat)
    requires IsNestedRun(trace, ops, root) && trace[0].held == iset{} && n <= |ops|
    ensures HeldIsCurrent(trace[n])
    ensures n < |ops| ==> EntryIsSafe(trace, ops, n)
  {
    hide Sound, NestedRuns, AllOf;
    if n > 0 {
      GuestNeverRunsStale(trace, ops, root, n - 1);
      assert StepAt(trace, ops, n - 1);
      NestedStepIsSafe(trace[n - 1], ops[n - 1], trace[n], root);
    }
    if n < |ops| {
      assert StepAt(trace, ops, n);
      assert HeldIsCurrent(trace[n]);
      NestedStepIsSafe(trace[n], ops[n], trace[n + 1], root);
    }
  }

  lemma NestedRunGoesOn(trace: seq<Nested>, ops: seq<NestedOp>, root: u64, op: NestedOp, b: Nested)
    requires IsNestedRun(trace, ops, root) && Sound(b.tables, root) && NestedRuns(trace[|ops|], op, b)
    ensures IsNestedRun(trace + [b], ops + [op], root)
  {
    hide Sound, NestedRuns;
    var more, made := trace + [b], ops + [op];
    forall i | 0 <= i < |made| ensures StepAt(more, made, i) {
      if i < |ops| { assert StepAt(trace, ops, i); }
    }
  }

  // ---------------------------------------------------------------------------------------
  // The machine and its tables
  // ---------------------------------------------------------------------------------------

  class NestedVm {
    const vm: VirtualMachines.Vm
    const npt: PageTable
    const core: nat

    /** What the processor holds for the guest on this core, and whether the last entry flushed it. */
    ghost var held: iset<Held>
    ghost var flushed: bool

    ghost predicate Valid(m: PhysicalMemory)
      reads this, vm, npt, m, m.words, m.free, m.free.ranges
    {
      vm.Valid() && npt.Valid(m) && m.usizeMax == U64_MAX
    }

    ghost function State(m: PhysicalMemory): Nested
      requires m.free.used <= m.free.ranges.Length
      reads this, vm, npt, m, m.words, m.free, m.free.ranges
    {
      Nested(npt.State(m), vm.invalidatedTlb, held, flushed)
    }

    /** A new machine. The processor holds nothing for its address-space identifier. */
    constructor (vm: VirtualMachines.Vm, npt: PageTable, core: nat)
      ensures this.vm == vm && this.npt == npt && this.core == core && held == iset{}
    {
      this.vm, this.npt, this.core := vm, npt, core;
      held, flushed := iset{}, false;
    }

    /** `Npt::map_raw`. A failure is a panic. */
    method MapRaw(m: PhysicalMemory, va: u64, t: PageType, raw: u64, add: bool, update: bool) returns (r: Attempt<()>)
      requires Valid(m) && !Deallocate(raw)
      modifies vm`invalidatedTlb, npt, m, m.words, m.free, m.free.ranges
      ensures !r.Refused?
      ensures r.Done? ==> Valid(m) && NestedRuns(old(State(m)), NestedOp.MapRaw(va, t, raw, add, update), State(m))
      ensures r.Panicked? ==>
        || m.free.used == CAPACITY
        || (npt.Valid(m)
            && (!MapAllowed(old(npt.tables), old(npt.pages), va, t, add, update)
                || (PathOf(va, LeafDepth(t) - 1) !in npt.tables && m.CannotServe(Page4K))))
    {
      hide IsTree, Separate, Owned, OwnedPagesFit, Mapped, MapAllowed, Starved, Grown, OrUser, FinalEntry, PathOf, Index,
           Reported, VirtualMachines.Vm.Valid;
      ghost var before, reports := State(m), m.invalidated;
      var count := |m.invalidated|;
      ghost var waste;
      r, waste := npt.MapRaw(m, va, t, OrUser(raw), add, update);
      if !r.Done? { return Panicked; }
      if |m.invalidated| != count { vm.InvalidateTlb(); }
      assert Runs(before.tables, RawDone(va, t, OrUser(raw), add, update), npt.State(m), waste);
    }

    /** `Npt::map`: fresh pages for the guest. It replaces nothing and therefore reports nothing. A failure is a panic. */
    method Map(m: PhysicalMemory, va: u64, t: PageType, size: u64, write: bool, exec: bool) returns (r: Attempt<()>)
      requires Valid(m)
      modifies vm`invalidatedTlb, npt, m, m.words, m.free, m.free.ranges
      ensures !r.Refused?
      ensures r.Done? ==> Valid(m) && NestedRuns(old(State(m)), NestedOp.Map(va, t, size, write, exec), State(m))
    {
      hide IsTree, Separate, Owned, OwnedPagesFit, RegionReady, GotPages, RegionFails, PathOf;
      ghost var before := State(m);
      ghost var entries, waste;
      r, entries, waste := npt.Map(m, va, t, size, write, exec, true);
      if !r.Done? { return Panicked; }
      assert m.invalidated == old(m.invalidated);
      assert Runs(before.tables, RegionDone(va, t, entries), npt.State(m), waste);
    }

    /** `Vm::run`. The processor obeys `tlb_control` and then may load any translation of the tables. */
    method Enter(m: PhysicalMemory, enabled: bool, svm: bool, xcr0: bool, guest: VirtualMachines.Guest)
      returns (r: Attempt<VirtualMachines.Vmcb>)
      requires Valid(m) && VirtualMachines.GuestOk(guest)
      modifies this, vm
      ensures !r.Refused? && (r.Panicked? ==> !enabled || !svm || !xcr0)
      ensures r.Done? ==> Valid(m) && NestedRuns(old(State(m)), NestedOp.Enter(enabled, svm, xcr0, guest), State(m))
      ensures r.Done? ==> (flushed <==> r.value.control.tlbControl == vm.flushValue)
    {
      hide IsTree, Separate, Owned, OwnedPagesFit, VirtualMachines.SameUnder, VirtualMachines.PagingModeOf,
           VirtualMachines.ALL_CLEAN, VirtualMachines.ALWAYS_ON, AllOf;
      r := vm.Run(core, enabled, svm, xcr0, guest);
      if r.Panicked? { return; }
      flushed := r.value.control.tlbControl == vm.flushValue;
      held := (if flushed then iset{} else held) + AllOf(npt.pages);
    }

    /** Any sequence of calls, up to the first one that panics. */
    method Perform(m: PhysicalMemory, ops: seq<NestedOp>) returns (r: Attempt<()>, at: nat, ghost trace: seq<Nested>)
      requires Valid(m) && forall op <- ops :: op.Allowed()
      modifies this, vm, npt, m, m.words, m.free, m.free.ranges
      ensures !r.Refused? && at <= |ops| && (r.Done? <==> at == |ops|)
      ensures IsNestedRun(trace, ops[..at], npt.table) && trace[0] == old(State(m))
      ensures r.Done? ==> Valid(m) && trace[|ops|] == State(m)
    {
      hide IsTree, Separate, Owned, OwnedPagesFit, NestedRuns, VirtualMachines.Vm.Valid;
      at, trace := 0, [State(m)];
      while at < |ops|
        invariant at <= |ops| && Valid(m) && IsNestedRun(trace, ops[..at], npt.table)
        invariant trace[0] == old(State(m)) && trace[at] == State(m)
      {
        assert ops[..at + 1] == ops[..at] + [ops[at]];
        var op := ops[at];
        assert op.Allowed();
        match op {
          case MapRaw(va, t, raw, add, update) => r := MapRaw(m, va, t, raw, add, update);
          case Map(va, t, size, write, exec) => r := Map(m, va, t, size, write, exec);
          case Enter(enabled, svm, xcr0, guest) =>
            var block := Enter(m, enabled, svm, xcr0, guest);
            r := if block.Done? then Done(()) else Panicked;
        }
        if r.Panicked? { return; }
        NestedRunGoesOn(trace, ops[..at], npt.table, op, State(m));
        trace := trace + [State(m)];
        at := at + 1;
      }
      return Done(()), at, trace;
    }
  }

  /** A machine from its creation on. */
  method Live(m: PhysicalMemory, core: nat, asid: nat, iopm: u64, msrpm: u64, flushByAsid: bool, vmcbClean: bool,
              ops: seq<NestedOp>)
    returns (machine: Option<NestedVm>, r: Attempt<()>, at: nat, ghost trace: seq<Nested>)
    requires m.Valid() && m.usizeMax == U64_MAX && forall op <- ops :: op.Allowed()
    modifies m, m.words, m.free, m.free.ranges
    ensures machine.None? ==> !r.Done? && (old(m.CannotServe(Page4K)) || m.free.used == CAPACITY)
    ensures machine.Some? ==>
      && fresh(machine.value) && at <= |ops| && (r.Done? <==> at == |ops|)
      && IsNestedRun(trace, ops[..at], machine.value.npt.table)
      && trace[0].tables.pages == map[] && trace[0].held == iset{}
      && forall i :: 0 <= i < at ==> EntryIsSafe(trace, ops[..at], i)
    ensures machine.Some? && r.Done? ==> machine.value.Valid(m) && trace[|ops|] == machine.value.State(m)
  {
    hide IsTree, Separate, Owned, OwnedPagesFit, Allocated, Starved, IsNestedRun, AllOf;
    machine, r, at, trace := None, Panicked, 0, [];
    var npt;
    ghost var waste;
    npt, waste := PageTable.New(m);
    if !npt.Done? { return; }
    var vm := new VirtualMachines.Vm(asid, npt.value.table, iopm, msrpm, flushByAsid, vmcbClean);
    var it := new NestedVm(vm, npt.value, core);
    machine := Some(it);
    r, at, trace := it.Perform(m, ops);
    SafeAllAlong(trace, ops[..at], npt.value.table);
  }

  lemma SafeAllAlong(trace: seq<Nested>, ops: seq<NestedOp>, root: u64)
    requires IsNestedRun(trace, ops, root) && trace[0].held == iset{}
    ensures forall i :: 0 <= i < |ops| ==> EntryIsSafe(trace, ops, i)
  {
    hide Sound, AllOf;
    forall i | 0 <= i < |ops| ensures EntryIsSafe(trace, ops, i) {
      GuestNeverRunsStale(trace, ops, root, i);
    }
  }
}
