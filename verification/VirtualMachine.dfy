/** The virtual machine control block (kernel/src/vm/svm/mod.rs): which parts of it the processor may
    take from its cache, and when the guest's TLB entries have to go. */
module VirtualMachines {
  import opened MachineInts
  import opened PhysicalMemories
  import GuestEvents

  // ---------------------------------------------------------------------------------------
  // The control block
  // ---------------------------------------------------------------------------------------

  /** Registers by the numbers of the `Register` enumeration. The first 19 live outside the block. */
  const CACHED_REGISTERS: nat := 19
  const REGISTERS: nat := 35
  const RAX: nat := 0
  const RSP: nat := 4
  const RIP: nat := 16
  const RFLAGS: nat := 17
  const EFER: nat := 19
  const CR0: nat := 20
  const CR2: nat := 21
  const CR3: nat := 22
  const CR4: nat := 23
  const DR6: nat := 24
  const DR7: nat := 25
  const PAT: nat := 34

  datatype Segment = Segment(selector: nat, attrib: nat, limit: nat, base: u64)
  datatype Table = Table(base: u64, limit: nat)

  /** Segment registers in the order of `SegmentRegister`, tables in that of `TableRegister`. */
  const CS: nat := 1

  /** The control area. An intercept is the number of its field, times 256, plus its bit. */
  datatype Control = Control(intercepts: set<nat>, tscOffset: u64, iopm: u64, msrpm: u64, asid: nat, vintr: u64, nCr3: u64,
                             injection: u64, tlbControl: nat, clean: set<nat>)

  /** The state save area. */
  datatype Guest = Guest(registers: seq<u64>, cpl: nat, segments: seq<Segment>, tables: seq<Table>,
                         rax: u64, rsp: u64, rip: u64, rflags: u64)

  datatype Vmcb = Vmcb(control: Control, guest: Guest)

  ghost predicate GuestOk(g: Guest) {
    |g.registers| == REGISTERS - CACHED_REGISTERS && |g.segments| == 8 && |g.tables| == 2
  }

  function RegisterOf(g: Guest, r: nat): u64
    requires |g.registers| == REGISTERS - CACHED_REGISTERS && CACHED_REGISTERS <= r < REGISTERS
  {
    g.registers[r - CACHED_REGISTERS]
  }

  /** Clean bits. */
  const INTERCEPTS_AND_TSC: nat := 0
  const NP: nat := 4
  const CR: nat := 5
  const DR: nat := 6
  const DT: nat := 7
  const SEG: nat := 8
  const CR2_BIT: nat := 9

  const ALL_CLEAN: set<nat> := set k | 0 <= k < 32

  /** The fields that the processor may cache under a clean bit agree (AMD64 Architecture
      Programmer's Manual, volume 2, section 15.15). Fields that the kernel never uses are not part
      of the block here. */
  ghost predicate SameUnder(bit: nat, v: Vmcb, w: Vmcb)
    requires GuestOk(v.guest) && GuestOk(w.guest)
  {
    match bit
    case 0 => v.control.intercepts == w.control.intercepts && v.control.tscOffset == w.control.tscOffset
    case 1 => v.control.iopm == w.control.iopm && v.control.msrpm == w.control.msrpm
    case 2 => v.control.asid == w.control.asid
    case 3 => v.control.vintr == w.control.vintr
    case 4 => v.control.nCr3 == w.control.nCr3 && RegisterOf(v.guest, PAT) == RegisterOf(w.guest, PAT)
    case 5 =>
      && RegisterOf(v.guest, CR0) == RegisterOf(w.guest, CR0) && RegisterOf(v.guest, CR3) == RegisterOf(w.guest, CR3)
      && RegisterOf(v.guest, CR4) == RegisterOf(w.guest, CR4) && RegisterOf(v.guest, EFER) == RegisterOf(w.guest, EFER)
    case 6 => RegisterOf(v.guest, DR6) == RegisterOf(w.guest, DR6) && RegisterOf(v.guest, DR7) == RegisterOf(w.guest, DR7)
    case 7 => v.guest.tables == w.guest.tables
    case 8 => v.guest.segments == w.guest.segments && v.guest.cpl == w.guest.cpl
    case 9 => RegisterOf(v.guest, CR2) == RegisterOf(w.guest, CR2)
    case _ => true
  }

  /** The clean bit that `set_reg` clears. */
  function CleanBitOf(r: nat): Option<nat> {
    if r == EFER || r == CR0 || r == CR3 || r == CR4 then Some(CR)
    else if r == CR2 then Some(CR2_BIT)
    else if r == DR6 || r == DR7 then Some(DR)
    else if r == PAT then Some(NP)
    else None
  }

  function BitAt(v: u64, weight: nat): nat
    requires weight > 0
  {
    v / weight % 2
  }

  /** The part of a register that belongs to the paging mode: the flush masks of `set_reg`. */
  function PagingPart(r: nat, v: u64): seq<nat> {
    if r == CR0 then [BitAt(v, 0x8000_0000), BitAt(v, 0x1_0000), BitAt(v, 0x4000_0000), BitAt(v, 0x2000_0000)]
    else if r == CR3 then [v]
    else if r == CR4 then [BitAt(v, 0x80), BitAt(v, 0x20), BitAt(v, 0x10)]
    else if r == EFER then [BitAt(v, 0x800), BitAt(v, 0x400), BitAt(v, 0x100)]
    else []
  }

  datatype PagingMode = PagingMode(efer: seq<nat>, cr0: seq<nat>, cr3: seq<nat>, cr4: seq<nat>)

  function PagingModeOf(g: Guest): PagingMode
    requires |g.registers| == REGISTERS - CACHED_REGISTERS
  {
    PagingMode(PagingPart(EFER, RegisterOf(g, EFER)), PagingPart(CR0, RegisterOf(g, CR0)),
               PagingPart(CR3, RegisterOf(g, CR3)), PagingPart(CR4, RegisterOf(g, CR4)))
  }

  /** A change of a register that changes the paging mode: of the bits PG, CD, NW or WP of CR0, of any bit of CR3,
      of the bits PGE, PAE or PSE of CR4, or of the bits NXE, LMA or LME of EFER. */
  predicate PagingChanges(r: nat, v: u64, w: u64) {
    || (r == 20 && (BitsDiffer(v, w, 31) || BitsDiffer(v, w, 30) || BitsDiffer(v, w, 29) || BitsDiffer(v, w, 16)))
    || (r == 22 && v != w)
    || (r == 23 && (BitsDiffer(v, w, 7) || BitsDiffer(v, w, 5) || BitsDiffer(v, w, 4)))
    || (r == 19 && (BitsDiffer(v, w, 11) || BitsDiffer(v, w, 10) || BitsDiffer(v, w, 8)))
  }

  predicate BitsDiffer(v: u64, w: u64, k: nat) {
    PowersAreNotZero(k);
    v / Pow2(k) % 2 != w / Pow2(k) % 2
  }

  /** The flush masks of `set_reg` are these bits. */
  lemma PagingPartMeaning(r: nat, v: u64, w: u64)
    ensures PagingPart(r, v) != PagingPart(r, w) <==> PagingChanges(r, v, w)
  {
    assert Pow2(4) == 0x10 && Pow2(5) == 0x20 && Pow2(7) == 0x80 && Pow2(8) == 0x100;
    assert Pow2(10) == 0x400 && Pow2(11) == 0x800 && Pow2(16) == 0x1_0000;
    HighPowers();
  }

  lemma HighPowers()
    ensures Pow2(29) == 0x2000_0000 && Pow2(30) == 0x4000_0000 && Pow2(31) == 0x8000_0000
  {
    assert Pow2(13) == 0x2000 && Pow2(14) == 0x4000 && Pow2(15) == 0x8000 && Pow2(16) == 0x1_0000;
    PowersMultiply(16, 13);
    PowersMultiply(16, 14);
    PowersMultiply(16, 15);
  }

  lemma PagingModeMeaning(g: Guest, h: Guest)
    requires |g.registers| == |h.registers| == REGISTERS - CACHED_REGISTERS
    ensures PagingModeOf(g) != PagingModeOf(h) <==> SomePagingChange(g, h)
  {
    hide PagingPart, PagingChanges;
    PagingPartMeaning(19, RegisterOf(g, 19), RegisterOf(h, 19));
    PagingPartMeaning(20, RegisterOf(g, 20), RegisterOf(h, 20));
    PagingPartMeaning(22, RegisterOf(g, 22), RegisterOf(h, 22));
    PagingPartMeaning(23, RegisterOf(g, 23), RegisterOf(h, 23));
  }

  /** The paging modes of two guests differ. */
  predicate SomePagingChange(g: Guest, h: Guest)
    requires |g.registers| == |h.registers| == REGISTERS - CACHED_REGISTERS
  {
    || PagingChanges(19, RegisterOf(g, 19), RegisterOf(h, 19)) || PagingChanges(20, RegisterOf(g, 20), RegisterOf(h, 20))
    || PagingChanges(22, RegisterOf(g, 22), RegisterOf(h, 22)) || PagingChanges(23, RegisterOf(g, 23), RegisterOf(h, 23))
  }

  // ---------------------------------------------------------------------------------------
  // Intercepts
  // ---------------------------------------------------------------------------------------

  /** Intercepts that the user of a VM can switch: the values of the `Intercept` enumeration. */
  predicate Switchable(i: nat) {
    var bit := i % 256;
    match i / 256
    case 1 => (4 <= bit < 26 && bit != 5) || bit == 30
    case 2 => bit in {1, 7, 8, 9, 10, 11, 13, 14}
    case 3 => bit in {2, 3}
    case 4 => bit in {0, 2, 3, 4, 8, 16, 18, 19, 20, 24}
    case 5 => bit in {0, 1, 2, 3, 6, 7, 16, 17, 18, 19, 22, 23}
    case 6 => bit < 20 && bit !in {2, 9, 15}
    case _ => false
  }

  /** Intercepts that `initialize` switches on: INTR, NMI, SMI, INIT, INVLPGA, IO, MSR, shutdown,
      VMRUN, VMLOAD, VMSAVE, STGI, CLGI, SKINIT. */
  const ALWAYS_ON: set<nat> :=
    {256, 257, 258, 259, 282, 283, 284, 287} + {512, 514, 515, 516, 517, 518}

  // ---------------------------------------------------------------------------------------
  // The virtual machine
  // ---------------------------------------------------------------------------------------

  class Vm {
    var vmcb: Vmcb
    var registers: seq<u64>

    /** `npt.invalidated_tlb` */
    var invalidatedTlb: bool

    var supportsClean: bool
    var lastCore: Option<nat>
    var flushValue: nat

    /** What the processor wrote to the block at the last exit, and may have cached since. */
    ghost var cached: Vmcb

    ghost predicate Valid()
      reads this
    {
      && |registers| == CACHED_REGISTERS && GuestOk(vmcb.guest) && GuestOk(cached.guest)
      && flushValue > 0 && ALWAYS_ON <= vmcb.control.intercepts
      && vmcb.control.clean <= (if supportsClean && lastCore.Some? then ALL_CLEAN else {})
      && (forall bit :: bit in vmcb.control.clean ==> SameUnder(bit, vmcb, cached))
      && (PagingModeOf(vmcb.guest) != PagingModeOf(cached.guest) ==> vmcb.control.tlbControl == flushValue)
    }

    /** `Vm::new`, with a zeroed control block. */
    constructor (asid: nat, nCr3: u64, iopm: u64, msrpm: u64, flushByAsid: bool, vmcbClean: bool)
      ensures Valid() && lastCore == None && !invalidatedTlb
      ensures flushValue == (if flushByAsid then 3 else 1) && supportsClean == vmcbClean
      ensures vmcb.control == Control(ALWAYS_ON, 0, iopm, msrpm, asid, 0x100_0000, nCr3, 0, 0, {})
      ensures vmcb.guest == Guest(seq(16, i => 0), 0, seq(8, i => Segment(0, 0, 0, 0)), seq(2, i => Table(0, 0)), 0, 0, 0, 0)
      ensures registers == seq(CACHED_REGISTERS, i => 0)
    {
      var guest := Guest(seq(16, i => 0), 0, seq(8, i => Segment(0, 0, 0, 0)), seq(2, i => Table(0, 0)), 0, 0, 0, 0);
      vmcb := Vmcb(Control(ALWAYS_ON, 0, iopm, msrpm, asid, 0x100_0000, nCr3, 0, 0, {}), guest);
      cached := Vmcb(Control(ALWAYS_ON, 0, iopm, msrpm, asid, 0x100_0000, nCr3, 0, 0, {}), guest);
      registers := seq(CACHED_REGISTERS, i => 0);
      invalidatedTlb, supportsClean, lastCore := false, vmcbClean, None;
      flushValue := if flushByAsid then 3 else 1;
    }

    /** `vmcb_dirty`. Without support for clean bits there are none to clear. */
    static function Dirty(v: Vmcb, bit: nat): Vmcb {
      v.(control := v.control.(clean := v.control.clean - {bit}))
    }

    /** `flush_tlb` */
    method FlushTlb()
      requires Valid()
      modifies `vmcb
      ensures Valid() && vmcb == old(vmcb).(control := old(vmcb).control.(tlbControl := flushValue))
    {
      vmcb := vmcb.(control := vmcb.control.(tlbControl := flushValue));
      forall bit | bit in vmcb.control.clean ensures SameUnder(bit, vmcb, cached) {
        assert SameUnder(bit, old(vmcb), cached);
      }
    }

    /** `set_reg` */
    method SetReg(r: nat, value: u64)
      requires Valid() && r < REGISTERS
      modifies `vmcb, `registers
      ensures Valid()
      ensures r < CACHED_REGISTERS ==> vmcb == old(vmcb) && registers == old(registers)[r := value]
      ensures r >= CACHED_REGISTERS ==>
        && registers == old(registers) && RegisterOf(vmcb.guest, r) == value
        && vmcb.guest == old(vmcb).guest.(registers := old(vmcb).guest.registers[r - CACHED_REGISTERS := value])
        && vmcb.control == old(vmcb).control.(
             clean := old(vmcb).control.clean
                      - (if r in {19, 20, 22, 23} then {5} else if r == 21 then {9} else if r in {24, 25} then {6}
                         else if r == 34 then {4} else {}),
             tlbControl := if PagingChanges(r, RegisterOf(old(vmcb).guest, r), value) then flushValue else old(vmcb).control.tlbControl)
    {
      PagingPartMeaning(r, if r < CACHED_REGISTERS then 0 else RegisterOf(vmcb.guest, r), value);
      if r < CACHED_REGISTERS {
        registers := registers[r := value];
        return;
      }
      ghost var was := vmcb;
      var before := RegisterOf(vmcb.guest, r);
      vmcb := vmcb.(guest := vmcb.guest.(registers := vmcb.guest.registers[r - CACHED_REGISTERS := value]));
      if CleanBitOf(r).Some? { vmcb := Dirty(vmcb, CleanBitOf(r).value); }
      if PagingPart(r, before) != PagingPart(r, value) {
        vmcb := vmcb.(control := vmcb.control.(tlbControl := flushValue));
      }
      SetRegKeepsClean(was, vmcb, cached, r, value);
    }

    /** `set_segment_reg` */
    method SetSegmentReg(r: nat, segment: Segment)
      requires Valid() && r < 8
      modifies `vmcb
      ensures Valid() && vmcb.control == old(vmcb).control.(clean := old(vmcb).control.clean - {8})
      ensures vmcb.guest == old(vmcb).guest.(
        segments := old(vmcb).guest.segments[r := segment],
        cpl := if r == CS then Max(segment.selector % 4, segment.attrib / 32 % 4) else old(vmcb).guest.cpl)
    {
      ghost var was := vmcb;
      vmcb := Dirty(vmcb, SEG);
      if r == CS {
        vmcb := vmcb.(guest := vmcb.guest.(cpl := Max(segment.selector % 4, segment.attrib / 32 % 4)));
      }
      vmcb := vmcb.(guest := vmcb.guest.(segments := vmcb.guest.segments[r := segment]));
      OtherBitsStayClean(was, vmcb, cached, SEG);
    }

    /** `set_table_reg` */
    method SetTableReg(r: nat, table: Table)
      requires Valid() && r < 2
      modifies `vmcb
      ensures Valid() && vmcb.control == old(vmcb).control.(clean := old(vmcb).control.clean - {7})
      ensures vmcb.guest == old(vmcb).guest.(tables := old(vmcb).guest.tables[r := table])
    {
      ghost var was := vmcb;
      vmcb := Dirty(vmcb, DT);
      vmcb := vmcb.(guest := vmcb.guest.(tables := vmcb.guest.tables[r := table]));
      OtherBitsStayClean(was, vmcb, cached, DT);
    }

    /** `set_tsc_offset` */
    method SetTscOffset(offset: u64)
      requires Valid()
      modifies `vmcb
      ensures Valid() && vmcb.guest == old(vmcb).guest
      ensures vmcb.control == old(vmcb).control.(clean := old(vmcb).control.clean - {0}, tscOffset := offset)
    {
      ghost var was := vmcb;
      vmcb := Dirty(vmcb, INTERCEPTS_AND_TSC);
      vmcb := vmcb.(control := vmcb.control.(tscOffset := offset));
      OtherBitsStayClean(was, vmcb, cached, INTERCEPTS_AND_TSC);
    }

    /** `inject_event`: the processor will deliver the event at the next entry. If that delivery is intercepted, it is
        reported as the same event. */
    method InjectEvent(event: GuestEvents.Event)
      requires Valid()
      modifies `vmcb, `registers
      ensures Valid() && registers == old(registers)
      ensures var pageFault := event.Fault? && event.exception.Pf?;
        && vmcb.control == old(vmcb).control.(injection := GuestEvents.Injection(event),
             clean := if pageFault then old(vmcb).control.clean - {9} else old(vmcb).control.clean)
        && vmcb.guest == old(vmcb).guest.(registers :=
             if pageFault then old(vmcb).guest.registers[CR2 - CACHED_REGISTERS := event.exception.address] else old(vmcb).guest.registers)
      ensures GuestEvents.Delivery(vmcb.control.injection, RegisterOf(vmcb.guest, CR2)) == Done(Some(event))
    {
      hide PagingModeOf, ALL_CLEAN, ALWAYS_ON, GuestEvents.Injection, GuestEvents.Delivery;
      ghost var cr2 := RegisterOf(vmcb.guest, CR2);
      if event.Fault? && event.exception.Pf? { SetReg(CR2, event.exception.address); }
      InjectionIsNotCached(vmcb, GuestEvents.Injection(event), cached);
      vmcb := vmcb.(control := vmcb.control.(injection := GuestEvents.Injection(event)));
      GuestEvents.DeliveryOfInjection(event, cr2);
    }

    /** `intercept`: no switchable intercept is one of those that always stay on. */
    method Intercept(intercepts: seq<nat>, enable: bool)
      requires Valid() && forall i <- intercepts :: Switchable(i)
      modifies `vmcb
      ensures Valid() && vmcb.guest == old(vmcb).guest
      ensures vmcb.control == old(vmcb).control.(clean := old(vmcb).control.clean - {0}, intercepts :=
        if enable then old(vmcb).control.intercepts + (set i | i in intercepts)
        else old(vmcb).control.intercepts - (set i | i in intercepts))
    {
      hide PagingModeOf, ALL_CLEAN, ALWAYS_ON, Switchable;
      ghost var was := vmcb;
      vmcb := Dirty(vmcb, INTERCEPTS_AND_TSC);
      for k := 0 to |intercepts|
        invariant vmcb == was.(control := was.control.(clean := was.control.clean - {INTERCEPTS_AND_TSC}, intercepts :=
          if enable then was.control.intercepts + (set i | i in intercepts[..k]) else was.control.intercepts - (set i | i in intercepts[..k])))
      {
        assert intercepts[..k + 1] == intercepts[..k] + [intercepts[k]];
        if enable {
          vmcb := vmcb.(control := vmcb.control.(intercepts := vmcb.control.intercepts + {intercepts[k]}));
        } else {
          vmcb := vmcb.(control := vmcb.control.(intercepts := vmcb.control.intercepts - {intercepts[k]}));
        }
      }
      assert intercepts[..|intercepts|] == intercepts;
      SwitchableIsNotAlwaysOn();
      OtherBitsStayClean(was, vmcb, cached, INTERCEPTS_AND_TSC);
    }

    /** A nested mapping that was replaced: `invalidate_tlb` of the nested tables' memory. */
    method InvalidateTlb()
      requires Valid()
      modifies `invalidatedTlb
      ensures Valid() && invalidatedTlb
    {
      invalidatedTlb := true;
    }

    /** `run`, up to the decoding of the exit. `enabled` tells whether interrupts are enabled, `svm` whether the
        core supports SVM, `xcr0` whether the guest's XCR0 is valid, and `guest` is what the guest leaves
        behind. The result is the control block that the processor sees. */
    method Run(core: nat, enabled: bool, svm: bool, xcr0: bool, guest: Guest) returns (r: Attempt<Vmcb>)
      requires Valid() && GuestOk(guest)
      modifies `vmcb, `registers, `invalidatedTlb, `lastCore, `cached
      ensures !r.Refused? && (r.Panicked? <==> !enabled || (old(lastCore) != Some(core) && !svm) || !xcr0)
      ensures r.Done? ==> Valid() && lastCore == Some(core) && !invalidatedTlb && vmcb.control.tlbControl == 0
      ensures r.Done? ==>
        && GuestOk(r.value.guest)
        && (forall bit :: bit in r.value.control.clean ==>
              old(lastCore) == Some(core) && SameUnder(bit, r.value, old(cached)))
        && ((old(invalidatedTlb) || SomePagingChange(r.value.guest, old(cached).guest)) ==>
              r.value.control.tlbControl == flushValue)
        && r.value.control == old(vmcb).control.(
             tlbControl := if old(invalidatedTlb) then flushValue else old(vmcb).control.tlbControl,
             clean := if supportsClean && old(lastCore) != Some(core) then {} else old(vmcb).control.clean)
        && r.value.guest == old(vmcb).guest.(rax := old(registers)[RAX], rsp := old(registers)[RSP],
                                             rip := old(registers)[RIP], rflags := old(registers)[RFLAGS])
      ensures r.Done? ==>
        && vmcb.guest == guest == cached.guest
        && registers == old(registers)[RAX := guest.rax][RSP := guest.rsp][RIP := guest.rip][RFLAGS := guest.rflags]
        && vmcb.control == old(vmcb).control.(injection := 0, tlbControl := 0,
             clean := if supportsClean then ALL_CLEAN else r.value.control.clean)
    {
      hide SameUnder, PagingModeOf, SomePagingChange, ALL_CLEAN, ALWAYS_ON;
      r := Prepare(core, enabled, svm, xcr0);
      if r.Panicked? { return; }
      PagingModeMeaning(vmcb.guest, cached.guest);
      Leave(guest);
    }

    /** The first half of `run`, up to the entry of the guest. */
    method Prepare(core: nat, enabled: bool, svm: bool, xcr0: bool) returns (r: Attempt<Vmcb>)
      requires Valid()
      modifies `vmcb, `lastCore
      ensures !r.Refused? && (r.Panicked? <==> !enabled || (old(lastCore) != Some(core) && !svm) || !xcr0)
      ensures r.Done? ==>
        && Valid() && lastCore == Some(core) && r.value == vmcb
        && (old(lastCore) != Some(core) && supportsClean ==> vmcb.control.clean == {})
        && vmcb.control == old(vmcb).control.(
             tlbControl := if invalidatedTlb then flushValue else old(vmcb).control.tlbControl,
             clean := if supportsClean && old(lastCore) != Some(core) then {} else old(vmcb).control.clean)
        && vmcb.guest == old(vmcb).guest.(rax := registers[RAX], rsp := registers[RSP],
                                          rip := registers[RIP], rflags := registers[RFLAGS])
    {
      hide SameUnder, PagingModeOf, ALL_CLEAN, ALWAYS_ON;
      if !enabled { return Panicked; }
      ghost var was := vmcb;
      if lastCore != Some(core) {
        if !svm { return Panicked; }
        if supportsClean { vmcb := vmcb.(control := vmcb.control.(clean := {})); }
        lastCore := Some(core);
      }
      if invalidatedTlb { vmcb := vmcb.(control := vmcb.control.(tlbControl := flushValue)); }
      vmcb := vmcb.(guest := vmcb.guest.(rax := registers[RAX], rsp := registers[RSP], rip := registers[RIP], rflags := registers[RFLAGS]));
      if !xcr0 { return Panicked; }
      RunFieldsAreNotCached(was, vmcb.control.tlbControl, vmcb.control.clean,
                            registers[RAX], registers[RSP], registers[RIP], registers[RFLAGS], cached);
      return Done(vmcb);
    }

    /** The second half: the processor has written the block back, and from now on knows what is in it. */
    method Leave(guest: Guest)
      requires Valid() && GuestOk(guest) && lastCore.Some?
      modifies `vmcb, `registers, `invalidatedTlb, `cached
      ensures Valid() && !invalidatedTlb && vmcb.guest == guest == cached.guest
      ensures registers == old(registers)[RAX := guest.rax][RSP := guest.rsp][RIP := guest.rip][RFLAGS := guest.rflags]
      ensures vmcb.control == old(vmcb).control.(injection := 0, tlbControl := 0,
                clean := if supportsClean then ALL_CLEAN else old(vmcb).control.clean)
    {
      hide SameUnder, PagingModeOf, ALL_CLEAN, ALWAYS_ON;
      vmcb := Vmcb(vmcb.control.(injection := 0), guest);
      cached := Vmcb(vmcb.control, guest);
      registers := registers[RAX := vmcb.guest.rax][RSP := vmcb.guest.rsp][RIP := vmcb.guest.rip][RFLAGS := vmcb.guest.rflags];
      vmcb := vmcb.(control := vmcb.control.(tlbControl := 0));
      invalidatedTlb := false;
      if supportsClean { vmcb := vmcb.(control := vmcb.control.(clean := ALL_CLEAN)); }
      ExitIsCached(cached, vmcb.control.tlbControl, vmcb.control.clean);
    }
  }

  lemma SwitchableIsNotAlwaysOn()
    ensures forall i :: i in ALWAYS_ON ==> !Switchable(i)
  {
  }

  /** The processor does not cache the event to inject. */
  lemma InjectionIsNotCached(v: Vmcb, injection: u64, cached: Vmcb)
    requires GuestOk(v.guest) && GuestOk(cached.guest)
    ensures forall bit :: SameUnder(bit, v, cached) ==> SameUnder(bit, v.(control := v.control.(injection := injection)), cached)
  {
  }

  /** The processor caches none of the fields that every `run` sets. */
  lemma RunFieldsAreNotCached(v: Vmcb, tlbControl: nat, clean: set<nat>, rax: u64, rsp: u64, rip: u64, rflags: u64, cached: Vmcb)
    requires GuestOk(v.guest) && GuestOk(cached.guest)
    ensures var w := Vmcb(v.control.(tlbControl := tlbControl, clean := clean),
                          v.guest.(rax := rax, rsp := rsp, rip := rip, rflags := rflags));
      && GuestOk(w.guest) && PagingModeOf(w.guest) == PagingModeOf(v.guest)
      && forall bit :: SameUnder(bit, v, cached) ==> SameUnder(bit, w, cached)
  {
  }

  /** Right after an exit the block is what the processor knows. */
  lemma ExitIsCached(v: Vmcb, tlbControl: nat, clean: set<nat>)
    requires GuestOk(v.guest)
    ensures forall bit :: SameUnder(bit, v.(control := v.control.(tlbControl := tlbControl, clean := clean)), v)
  {
  }

  /** Clearing one clean bit allows changes under it. */
  lemma OtherBitsStayClean(was: Vmcb, now: Vmcb, cached: Vmcb, dirty: nat)
    requires GuestOk(was.guest) && GuestOk(now.guest) && GuestOk(cached.guest)
    requires now.control.clean == was.control.clean - {dirty}
    requires forall bit :: bit in was.control.clean ==> SameUnder(bit, was, cached)
    requires forall bit :: bit != dirty ==> SameUnder(bit, now, was)
    ensures forall bit :: bit in now.control.clean ==> SameUnder(bit, now, cached)
  {
    forall bit | bit in now.control.clean ensures SameUnder(bit, now, cached) {
      assert SameUnder(bit, was, cached) && SameUnder(bit, now, was);
    }
  }

  lemma SetRegKeepsClean(was: Vmcb, now: Vmcb, cached: Vmcb, r: nat, value: u64)
    requires GuestOk(was.guest) && GuestOk(cached.guest) && CACHED_REGISTERS <= r < REGISTERS
    requires now.guest == was.guest.(registers := was.guest.registers[r - CACHED_REGISTERS := value])
    requires now.control == was.control.(tlbControl := now.control.tlbControl, clean := now.control.clean)
    requires now.control.clean == was.control.clean - (if CleanBitOf(r).Some? then {CleanBitOf(r).value} else {})
    requires forall bit :: bit in was.control.clean ==> SameUnder(bit, was, cached)
    ensures forall bit :: bit in now.control.clean ==> SameUnder(bit, now, cached)
  {
    forall bit | bit in now.control.clean ensures SameUnder(bit, now, cached) {
      assert SameUnder(bit, was, cached);
    }
  }
}
