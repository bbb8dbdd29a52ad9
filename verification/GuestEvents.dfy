/** Events that are injected into a guest, and those whose delivery an exit intercepted
    (kernel/src/vm/svm/mod.rs). Both use the format of sections 15.20 and 15.7.2 of the AMD64
    Architecture Programmer's Manual, volume 2. */
module GuestEvents {
  import opened MachineInts

  datatype Exception =
    | De | Db | Bp | Of | Br | Ud | Nm | Df(code: u32) | Ts(code: u32) | Np(code: u32) | Ss(code: u32) | Gp(code: u32)
    | Pf(address: u64, code: u32) | Mf | Ac(code: u32) | Mc | Xf

  datatype Event = Intr(vector: byte) | Nmi | Fault(exception: Exception) | SoftwareInterrupt(vector: byte)

  // ---------------------------------------------------------------------------------------
  // Injecting
  // ---------------------------------------------------------------------------------------

  function VectorOf(e: Exception): byte {
    match e
    case De => 0 case Db => 1 case Bp => 3 case Of => 4 case Br => 5 case Ud => 6 case Nm => 7
    case Df(_) => 8 case Ts(_) => 10 case Np(_) => 11 case Ss(_) => 12 case Gp(_) => 13
    case Pf(_, _) => 14 case Mf => 16 case Ac(_) => 17 case Mc => 18 case Xf => 19
  }

  predicate HasCode(e: Exception) {
    e.Df? || e.Ts? || e.Np? || e.Ss? || e.Gp? || e.Pf? || e.Ac?
  }

  /** Vector, type, error-code flag, valid flag and error code at their places in the word. */
  function Pack(vector: byte, typ: nat, hasCode: bool, code: u32): u64
    requires typ < 8
  {
    vector + typ * 0x100 + (if hasCode then 0x800 else 0) + 0x8000_0000 + (if hasCode then code * 0x1_0000_0000 else 0)
  }

  /** The vectors of the exceptions, and the ones that push an error code (sections 8.1 and 8.2). */
  lemma Vectors()
    ensures VectorOf(De) == 0 && VectorOf(Db) == 1 && VectorOf(Bp) == 3 && VectorOf(Of) == 4 && VectorOf(Br) == 5
    ensures VectorOf(Ud) == 6 && VectorOf(Nm) == 7 && VectorOf(Mf) == 16 && VectorOf(Mc) == 18 && VectorOf(Xf) == 19
    ensures forall c: u32 :: VectorOf(Df(c)) == 8 && VectorOf(Ts(c)) == 10 && VectorOf(Np(c)) == 11 && VectorOf(Ss(c)) == 12
    ensures forall c: u32 :: VectorOf(Gp(c)) == 13 && VectorOf(Ac(c)) == 17
    ensures forall a: u64, c: u32 :: VectorOf(Pf(a, c)) == 14
    ensures forall e: Exception :: HasCode(e) <==> VectorOf(e) in {8, 10, 11, 12, 13, 14, 17}
  {
  }

  /** The word that `inject_event` stores. */
  function Injection(event: Event): u64 {
    match event
    case Intr(vector) => Pack(vector, 0, false, 0)
    case Nmi => Pack(2, 2, false, 0)
    case SoftwareInterrupt(vector) => Pack(vector, 4, false, 0)
    case Fault(e) => Pack(VectorOf(e), 3, HasCode(e), if HasCode(e) then e.code else 0)
  }

  /** `inject_event` also sets CR2 for a page fault. */
  function Cr2After(event: Event, cr2: u64): u64 {
    if event.Fault? && event.exception.Pf? then event.exception.address else cr2
  }

  // ---------------------------------------------------------------------------------------
  // Intercepted deliveries
  // ---------------------------------------------------------------------------------------

  function ExceptionOf(vector: byte, code: Option<u32>, cr2: u64): Attempt<Exception> {
    if vector == 0 then Done(De) else if vector == 1 then Done(Db) else if vector == 3 then Done(Bp)
    else if vector == 4 then Done(Of) else if vector == 5 then Done(Br) else if vector == 6 then Done(Ud)
    else if vector == 7 then Done(Nm) else if vector == 16 then Done(Mf) else if vector == 18 then Done(Mc)
    else if vector == 19 then Done(Xf)
    else if code.None? then Panicked
    else if vector == 8 then Done(Df(code.value)) else if vector == 10 then Done(Ts(code.value))
    else if vector == 11 then Done(Np(code.value)) else if vector == 12 then Done(Ss(code.value))
    else if vector == 13 then Done(Gp(code.value)) else if vector == 14 then Done(Pf(cr2, code.value))
    else if vector == 17 then Done(Ac(code.value))
    else Panicked
  }

  /** `intercepted_delivery`: `None` when nothing was being delivered. */
  function Delivery(info: u64, cr2: u64): Attempt<Option<Event>> {
    if info / 0x8000_0000 % 2 == 0 then Done(None)
    else
      var typ, vector := info / 0x100 % 8, info % 0x100;
      var code := if info / 0x800 % 2 == 1 then Some((info / 0x1_0000_0000) as u32) else None;
      if typ == 3 then
        match ExceptionOf(vector, code, cr2)
        case Done(e) => Done(Some(Fault(e)))
        case Refused => Refused
        case Panicked => Panicked
      else if code.Some? then Panicked
      else if typ == 0 then Done(Some(Intr(vector)))
      else if typ == 2 then Done(Some(Nmi))
      else if typ == 4 then Done(Some(SoftwareInterrupt(vector)))
      else Panicked
  }

  /** Nothing was being delivered exactly when the valid flag is not set. It is a panic exactly when the type is none that is
      used, an exception has an unknown vector or lacks the error code that it needs, or another event has an error code. */
  lemma DeliveryOutcomes(info: u64, cr2: u64)
    ensures var valid, flagged, typ, vector := info / 0x8000_0000 % 2 == 1, info / 0x800 % 2 == 1, info / 0x100 % 8, info % 0x100;
      && (Delivery(info, cr2) == Done(None) <==> !valid) && !Delivery(info, cr2).Refused?
      && (Delivery(info, cr2).Panicked? <==>
            && valid
            && if typ == 3 then vector in {2, 9, 15} || vector > 19 || (vector in {8, 10, 11, 12, 13, 14, 17} && !flagged)
               else typ !in {0, 2, 4} || flagged)
  {
  }

  lemma PackedValidAndCode(low: nat, code: u32)
    requires low < 0x8000_0000
    ensures var w := low + 0x8000_0000 + code * 0x1_0000_0000;
      w / 0x8000_0000 % 2 == 1 && w / 0x1_0000_0000 == code
  {
    var w := low + 0x8000_0000 + code * 0x1_0000_0000;
    Divides(w, 0x1_0000_0000, code, 0x8000_0000 + low);
    Divides(w, 0x8000_0000, 2 * code + 1, low);
    Divides(2 * code + 1, 2, code, 1);
  }

  lemma PackedLowFields(vector: byte, typ: nat, flag: nat, high: nat)
    requires typ < 8 && flag < 2
    ensures var w := vector + typ * 0x100 + flag * 0x800 + high * 0x1000;
      w % 0x100 == vector && w / 0x100 % 8 == typ && w / 0x800 % 2 == flag
  {
    var w := vector + typ * 0x100 + flag * 0x800 + high * 0x1000;
    Divides(w, 0x800, 2 * high + flag, vector + typ * 0x100);
    Divides(2 * high + flag, 2, high, flag);
    Divides(w, 0x100, 16 * high + 8 * flag + typ, vector);
    Divides(16 * high + 8 * flag + typ, 8, 2 * high + flag, typ);
  }

  lemma PackFields(vector: byte, typ: nat, hasCode: bool, code: u32)
    requires typ < 8
    ensures var w := Pack(vector, typ, hasCode, code);
      && w / 0x8000_0000 % 2 == 1 && w % 0x100 == vector && w / 0x100 % 8 == typ
      && (w / 0x800 % 2 == 1 <==> hasCode)
      && w / 0x1_0000_0000 == if hasCode then code else 0
  {
    var c, f := if hasCode then code else 0, if hasCode then 1 else 0;
    PackedValidAndCode(vector + typ * 0x100 + f * 0x800, c);
    PackedLowFields(vector, typ, f, 0x8_0000 + 0x10_0000 * c);
  }

  /** The fields of an injected event: its vector, its type (0 for external interrupts, 2 for the NMI, 3 for exceptions, 4
      for software interrupts), the valid flag, and the error code if the exception has one. */
  lemma InjectedFields(event: Event)
    ensures var w := Injection(event);
      && w / 0x8000_0000 % 2 == 1
      && w % 0x100 == (match event case Intr(v) => v case Nmi => 2 case SoftwareInterrupt(v) => v case Fault(e) => VectorOf(e))
      && w / 0x100 % 8 == (match event case Intr(_) => 0 case Nmi => 2 case SoftwareInterrupt(_) => 4 case Fault(_) => 3)
      && (w / 0x800 % 2 == 1 <==> event.Fault? && HasCode(event.exception))
      && w / 0x1_0000_0000 == if event.Fault? && HasCode(event.exception) then event.exception.code else 0
  {
    hide Pack;
    match event
    case Intr(vector) => PackFields(vector, 0, false, 0);
    case Nmi => PackFields(2, 2, false, 0);
    case SoftwareInterrupt(vector) => PackFields(vector, 4, false, 0);
    case Fault(e) => PackFields(VectorOf(e), 3, HasCode(e), if HasCode(e) then e.code else 0);
  }

  /** An injected event whose delivery is intercepted is reported as the same event. */
  lemma DeliveryOfInjection(event: Event, cr2: u64)
    ensures Delivery(Injection(event), Cr2After(event, cr2)) == Done(Some(event))
  {
    hide Pack;
    match event
    case Intr(vector) => PackFields(vector, 0, false, 0);
    case Nmi => PackFields(2, 2, false, 0);
    case SoftwareInterrupt(vector) => PackFields(vector, 4, false, 0);
    case Fault(e) => PackFields(VectorOf(e), 3, HasCode(e), if HasCode(e) then e.code else 0);
  }

  /** Different events are injected as different words, but for the address of a page fault. */
  lemma InjectionsDiffer(a: Event, b: Event, cr2: u64)
    requires Injection(a) == Injection(b) && Cr2After(a, cr2) == Cr2After(b, cr2)
    ensures a == b
  {
    hide Pack, Injection, Delivery;
    DeliveryOfInjection(a, cr2);
    DeliveryOfInjection(b, cr2);
  }
}
