/** The spin lock with owner tracking and interrupt accounting (libs/lock/src/lib.rs,
    kernel/src/core_locals.rs), as a step relation over any number of cores and locks. Every
    atomic access is a step of its own. Accesses are sequentially consistent. */
module SpinLocks {
  import opened MachineInts

  // ---------------------------------------------------------------------------------------
  // State
  // ---------------------------------------------------------------------------------------

  /** How far a piece of code has got in the operation that it is executing. */
  datatype Phase =
    | Running                        // between operations
    | Masking(lock: nat)             // `disable_interrupts`: the flag is off, the counter not yet up
    | Checking(lock: nat)            // about to compare `lock_core` with the id of this core
    | Spinning(lock: nat)            // in the compare-exchange loop
    | Owning(lock: nat, safe: bool)  // `locked` is taken, `lock_core` not yet stored
    | Clearing(lock: nat, safe: bool) // `drop`: `lock_core` is unset, `locked` not yet
    | Releasing                      // `post_lock`: about to count down
    | Unmasking                      // the counter reached 0, the flag is still off
    | Entered                        // an interrupt was delivered, `enter_interrupt` not yet called
    | Returning                      // `exit_interrupt` was called, `iret` not yet executed

  /** Code that runs on a core, ordinary or in an interrupt handler, and the guards that it holds:
      safe ones of non-preemptible locks, safe ones of preemptible locks, and those of
      `try_lock_unsafe`. */
  datatype Context = Context(phase: Phase, masked: set<nat>, plain: set<nat>, tried: set<nat>)

  /** `flag` is the interrupt flag, `depth` is `interrupts_disable`, and `manual` counts the
      disabling that belongs to no lock: a core starts with 1. Handlers are stacked on top of the
      code that they interrupted. A core that panicked takes no more steps. */
  datatype Core = Core(stack: seq<Context>, flag: bool, depth: nat, inInterrupt: nat, manual: nat, panicked: bool)

  /** `owner` is book-keeping: the core and the context whose guard it is. */
  datatype LockState = LockState(nonPreemptible: bool, locked: bool, lockCore: Option<nat>, owner: Option<(nat, nat)>)

  datatype State = State(cores: seq<Core>, locks: seq<LockState>)

  const U32_MAX: nat := 0xffff_ffff

  const Idle := Context(Running, {}, {}, {})

  /** A core right after `core_locals::initialize`. */
  const Started := Core([Idle], false, 1, 0, 1, false)

  predicate Init(s: State) {
    && (forall c :: 0 <= c < |s.cores| ==> s.cores[c] == Started)
    && forall l :: 0 <= l < |s.locks| ==> !s.locks[l].locked && s.locks[l].lockCore == None && s.locks[l].owner == None
  }

  // ---------------------------------------------------------------------------------------
  // Steps
  // ---------------------------------------------------------------------------------------

  /** What a core may do next: start an operation, be interrupted, or go on with the operation. */
  datatype Action = Lock(lock: nat) | TryLock(lock: nat) | Drop(lock: nat) | Enable | Interrupt | Return | Proceed

  function Top(core: Core): Context
    requires core.stack != []
  {
    core.stack[|core.stack| - 1]
  }

  function WithTop(core: Core, x: Context): Core
    requires core.stack != []
  {
    core.(stack := core.stack[|core.stack| - 1 := x])
  }

  function To(core: Core, p: Phase): Core
    requires core.stack != []
  {
    WithTop(core, Top(core).(phase := p))
  }

  /** `DepthCounter::exit`, then the decision of `enable_interrupts`. */
  function CountDown(core: Core): Core
    requires core.stack != []
  {
    if core.depth == 0 then core.(panicked := true)
    else To(core.(depth := core.depth - 1), if core.depth == 1 && core.inInterrupt == 0 then Unmasking else Running)
  }

  /** One step of core `c` on its own state and on the lock it works on. `id` is the number that the core
      takes itself for. The result is `None` when the step is not possible. */
  function CoreStepAs(id: nat, c: nat, core: Core, a: Action, k: LockState): Option<(Core, LockState)>
    requires core.stack != []
  {
    var x, i := Top(core), |core.stack| - 1;
    if core.panicked then None
    else if a.Interrupt? then
      if core.flag then Some((core.(stack := core.stack + [Context(Entered, {}, {}, {})], flag := false), k)) else None
    else if a.Proceed? then
      match x.phase
      case Running => None
      case Masking(l) =>
        if core.depth == U32_MAX then Some((core.(panicked := true), k))
        else Some((To(core.(depth := core.depth + 1), Checking(l)), k))
      case Checking(l) =>
        if k.lockCore == Some(id) then Some((core.(panicked := true), k)) else Some((To(core, Spinning(l)), k))
      case Spinning(l) =>
        if k.locked then None
        else Some((To(core, Owning(l, true)), k.(locked := true, owner := Some((c, i)))))
      case Owning(l, safe) =>
        var y := x.(phase := Running);
        var z := if !safe then y.(tried := y.tried + {l})
                 else if k.nonPreemptible then y.(masked := y.masked + {l})
                 else y.(plain := y.plain + {l});
        Some((WithTop(core, z), k.(lockCore := Some(id))))
      case Clearing(l, safe) =>
        Some((To(core, if safe && k.nonPreemptible then Releasing else Running), k.(locked := false, owner := None)))
      case Releasing => Some((CountDown(core), k))
      case Unmasking => Some((To(core.(flag := true), Running), k))
      case Entered => Some((To(core.(inInterrupt := core.inInterrupt + 1), Running), k))
      case Returning => Some((core.(stack := core.stack[..i], flag := true), k))
    else if !x.phase.Running? then None
    else
      match a
      case Lock(l) =>
        if k.nonPreemptible then Some((To(core.(flag := false), Masking(l)), k))
        else if core.inInterrupt > 0 then Some((core.(panicked := true), k))
        else Some((To(core, Checking(l)), k))
      case TryLock(l) =>
        if k.locked then None
        else Some((To(core, Owning(l, false)), k.(locked := true, owner := Some((c, i)))))
      case Drop(l) =>
        if l !in x.masked + x.plain + x.tried then None
        else
          var y := Context(Clearing(l, l !in x.tried), x.masked - {l}, x.plain - {l}, x.tried - {l});
          Some((WithTop(core, y), k.(lockCore := None)))
      case Enable =>
        if i > 0 || core.manual == 0 then None else Some((CountDown(core.(manual := core.manual - 1)), k))
      case Return =>
        if i == 0 || x.masked + x.plain + x.tried != {} || core.inInterrupt == 0 then None
        else Some((To(core.(inInterrupt := core.inInterrupt - 1), Returning), k))
  }

  /** A step of a core that knows its number. */
  function CoreStep(c: nat, core: Core, a: Action, k: LockState): Option<(Core, LockState)>
    requires core.stack != []
  {
    CoreStepAs(c, c, core, a, k)
  }

  /** The lock that a step of the core works on. */
  function LockOf(core: Core, a: Action): nat
    requires core.stack != []
  {
    match a
    case Lock(l) => l
    case TryLock(l) => l
    case Drop(l) => l
    case Proceed =>
      (match Top(core).phase
       case Masking(l) => l
       case Checking(l) => l
       case Spinning(l) => l
       case Owning(l, _) => l
       case Clearing(l, _) => l
       case _ => 0)
    case _ => 0
  }

  predicate Next(s: State, t: State, c: nat, a: Action) {
    NextAs(c, s, t, c, a)
  }

  predicate NextAs(id: nat, s: State, t: State, c: nat, a: Action) {
    && c < |s.cores| && s.cores[c].stack != []
    && (var l := LockOf(s.cores[c], a);
        && l < |s.locks|
        && (var r := CoreStepAs(id, c, s.cores[c], a, s.locks[l]);
            r.Some? && t == State(s.cores[c := r.value.0], s.locks[l := r.value.1])))
  }

  ghost predicate Step(s: State, t: State) {
    exists c: nat, a: Action :: Next(s, t, c, a)
  }

  /** Any interleaving of steps from the start. */
  ghost predicate IsRun(run: seq<State>) {
    run != [] && Init(run[0]) && forall k :: 0 <= k < |run| - 1 ==> Step(run[k], run[k + 1])
  }

  // ---------------------------------------------------------------------------------------
  // The invariant of one core
  // ---------------------------------------------------------------------------------------

  /** How much a context adds to the disable counter. */
  function Load(x: Context, locks: seq<LockState>): nat {
    |x.masked| + if Counted(x.phase, locks) then 1 else 0
  }

  predicate IsMasked(locks: seq<LockState>, l: nat) { l < |locks| && locks[l].nonPreemptible }

  predicate Counted(p: Phase, locks: seq<LockState>) {
    match p
    case Checking(l) => IsMasked(locks, l)
    case Spinning(l) => IsMasked(locks, l)
    case Owning(l, safe) => safe && IsMasked(locks, l)
    case Clearing(l, safe) => safe && IsMasked(locks, l)
    case Releasing => true
    case _ => false
  }

  predicate PhaseOk(p: Phase, locks: seq<LockState>, handler: bool) {
    match p
    case Running => true
    case Masking(l) => IsMasked(locks, l)
    case Checking(l) => l < |locks| && (handler ==> IsMasked(locks, l))
    case Spinning(l) => l < |locks| && (handler ==> IsMasked(locks, l))
    case Owning(l, safe) => l < |locks| && (handler && safe ==> IsMasked(locks, l))
    case Clearing(l, safe) => l < |locks| && (handler && safe ==> IsMasked(locks, l))
    case Releasing => true
    case Unmasking => !handler
    case Entered => handler
    case Returning => handler
  }

  predicate ContextOk(x: Context, locks: seq<LockState>, handler: bool) {
    && PhaseOk(x.phase, locks, handler)
    && (forall l :: l in x.masked ==> IsMasked(locks, l))
    && (forall l :: l in x.plain ==> l < |locks| && !locks[l].nonPreemptible)
    && (forall l :: l in x.tried ==> l < |locks|)
    && (handler ==> x.plain == {})
    && (x.phase.Entered? || x.phase.Returning? ==> x.masked + x.plain + x.tried == {})
    && x.tried !! x.masked + x.plain
    && ((x.phase.Owning? || x.phase.Clearing? || x.phase.Spinning?) ==> x.phase.lock !in x.masked + x.plain + x.tried)
  }

  /** In a handler interrupts stay off. Elsewhere the flag follows the counter, except in the middle of
      masking and unmasking. `load` and `p` are those of the top context. */
  predicate Balanced(core: Core, load: nat, p: Phase) {
    && core.depth == core.manual + load
    && if |core.stack| == 1 then
         && core.inInterrupt == 0
         && (core.flag <==> core.depth == 0 && !p.Masking? && !p.Unmasking?)
         && (p.Unmasking? ==> core.depth == 0)
       else
         && core.inInterrupt == (if p.Entered? || p.Returning? then 0 else 1)
         && core.manual == 0 && !core.flag
  }

  /** Code that can be interrupted masks nothing. */
  predicate Quiet(x: Context, locks: seq<LockState>) {
    Load(x, locks) == 0 && !x.phase.Masking? && !x.phase.Unmasking?
  }

  predicate CoreOk(core: Core, locks: seq<LockState>) {
    && 1 <= |core.stack| <= 2
    && (forall i :: 0 <= i < |core.stack| ==> ContextOk(core.stack[i], locks, i > 0))
    && Balanced(core, Load(Top(core), locks), Top(core).phase)
    && (|core.stack| == 2 ==> Quiet(core.stack[0], locks))
  }

  predicate SameKinds(locks: seq<LockState>, after: seq<LockState>) {
    |after| == |locks| && forall l :: 0 <= l < |locks| ==> after[l].nonPreemptible == locks[l].nonPreemptible
  }

  lemma CoreOkDependsOnKinds(core: Core, locks: seq<LockState>, after: seq<LockState>)
    requires CoreOk(core, locks) && SameKinds(locks, after)
    ensures CoreOk(core, after)
  {
    assert forall l :: IsMasked(locks, l) == IsMasked(after, l);
    forall i | 0 <= i < |core.stack|
      ensures ContextOk(core.stack[i], after, i > 0) && Load(core.stack[i], after) == Load(core.stack[i], locks)
    {
      assert ContextOk(core.stack[i], locks, i > 0);
    }
  }

  predicate InSets(x: Context, l: nat) {
    l in x.masked || l in x.plain || l in x.tried
  }

  /** What the guards of the top context tell about its locks. */
  ghost predicate TopGuards(c: nat, core: Core, locks: seq<LockState>)
    requires core.stack != []
  {
    forall l: nat :: InSets(Top(core), l) ==> l < |locks| && locks[l].locked && locks[l].lockCore == Some(c)
  }

  lemma TopReplaced(core: Core, after: Core, y: Context, locks: seq<LockState>)
    requires CoreOk(core, locks) && after.stack == core.stack[|core.stack| - 1 := y]
    requires ContextOk(y, locks, |core.stack| > 1) && Balanced(after, Load(y, locks), y.phase)
    ensures CoreOk(after, locks)
  {
    hide ContextOk, Balanced, Quiet, Load;
  }

  /** Replacing the top context where only its phase changes. */
  lemma PhaseReplaced(core: Core, after: Core, p: Phase, locks: seq<LockState>)
    requires CoreOk(core, locks) && after.stack == To(core, p).stack
    requires PhaseOk(p, locks, |core.stack| > 1) && !p.Entered? && !p.Returning?
    requires (p.Owning? || p.Clearing? || p.Spinning?) ==> !InSets(Top(core), p.lock)
    requires Balanced(after, |Top(core).masked| + if Counted(p, locks) then 1 else 0, p)
    ensures CoreOk(after, locks)
  {
    hide Balanced;
    assert ContextOk(Top(core), locks, |core.stack| > 1);
    TopReplaced(core, after, Top(core).(phase := p), locks);
  }

  lemma LockingKeepsCoreOk(c: nat, core: Core, l: nat, locks: seq<LockState>)
    requires CoreOk(core, locks) && l < |locks| && CoreStep(c, core, Lock(l), locks[l]).Some?
    ensures CoreOk(CoreStep(c, core, Lock(l), locks[l]).value.0, locks)
  {
    hide ContextOk, TopGuards;
    var after := CoreStep(c, core, Lock(l), locks[l]).value.0;
    if !after.panicked { PhaseReplaced(core, after, Top(after).phase, locks); }
  }

  lemma TryLockKeepsCoreOk(c: nat, core: Core, l: nat, locks: seq<LockState>)
    requires CoreOk(core, locks) && l < |locks| && CoreStep(c, core, TryLock(l), locks[l]).Some?
    requires TopGuards(c, core, locks)
    ensures CoreOk(CoreStep(c, core, TryLock(l), locks[l]).value.0, locks)
  {
    hide ContextOk;
    var after := CoreStep(c, core, TryLock(l), locks[l]).value.0;
    PhaseReplaced(core, after, Owning(l, false), locks);
  }

  /** Storing `lock_core` turns the claim on the lock into a guard of the same weight. */
  lemma GuardGained(x: Context, l: nat, safe: bool, locks: seq<LockState>, handler: bool)
    requires ContextOk(x, locks, handler) && x.phase == Owning(l, safe)
    ensures var masked := safe && locks[l].nonPreemptible;
      var y := Context(Running,
                       if masked then x.masked + {l} else x.masked,
                       if safe && !masked then x.plain + {l} else x.plain,
                       if !safe then x.tried + {l} else x.tried);
      ContextOk(y, locks, handler) && Load(y, locks) == Load(x, locks)
  {
    assert l !in x.masked ==> |x.masked + {l}| == |x.masked| + 1;
  }

  /** Unsetting `lock_core` turns the guard into a claim of the same weight. */
  lemma GuardDropped(x: Context, l: nat, locks: seq<LockState>, handler: bool)
    requires ContextOk(x, locks, handler) && x.phase.Running? && InSets(x, l)
    ensures var y := Context(Clearing(l, l !in x.tried), x.masked - {l}, x.plain - {l}, x.tried - {l});
      ContextOk(y, locks, handler) && Load(y, locks) == Load(x, locks)
  {
    var y := Context(Clearing(l, l !in x.tried), x.masked - {l}, x.plain - {l}, x.tried - {l});
    assert ContextOk(y, locks, handler);
    if l in x.masked {
      assert |x.masked - {l}| == |x.masked| - 1;
    } else {
      assert x.masked - {l} == x.masked;
    }
  }

  lemma DropKeepsCoreOk(c: nat, core: Core, l: nat, locks: seq<LockState>)
    requires CoreOk(core, locks) && l < |locks| && CoreStep(c, core, Drop(l), locks[l]).Some?
    ensures CoreOk(CoreStep(c, core, Drop(l), locks[l]).value.0, locks)
  {
    hide ContextOk, Load, Quiet;
    var after := CoreStep(c, core, Drop(l), locks[l]).value.0;
    GuardDropped(Top(core), l, locks, |core.stack| > 1);
    TopReplaced(core, after, Top(after), locks);
  }

  lemma CountingDownKeepsCoreOk(core: Core, manual: nat, locks: seq<LockState>)
    requires CoreOk(core, locks) && manual <= core.manual
    requires core.manual - manual + (if Counted(Top(core).phase, locks) then 1 else 0) == 1
    requires Top(core).phase.Running? || Top(core).phase.Releasing?
    ensures !CountDown(core.(manual := manual)).panicked || core.panicked
    ensures CoreOk(CountDown(core.(manual := manual)), locks)
  {
    hide ContextOk;
    var after := CountDown(core.(manual := manual));
    PhaseReplaced(core, after, Top(after).phase, locks);
  }

  lemma InterruptKeepsCoreOk(c: nat, core: Core, k: LockState, locks: seq<LockState>)
    requires CoreOk(core, locks) && CoreStep(c, core, Interrupt, k).Some?
    ensures CoreOk(CoreStep(c, core, Interrupt, k).value.0, locks)
  {
    hide ContextOk;
    var after := CoreStep(c, core, Interrupt, k).value.0;
    assert ContextOk(after.stack[1], locks, true) by { HandlerStarts(locks); }
    assert Load(Context(Entered, {}, {}, {}), locks) == 0;
  }

  lemma HandlerStarts(locks: seq<LockState>)
    ensures ContextOk(Context(Entered, {}, {}, {}), locks, true)
  {
  }

  lemma HandlerEnds(c: nat, core: Core, k: LockState, locks: seq<LockState>)
    requires CoreOk(core, locks) && Top(core).phase.Returning? && CoreStep(c, core, Proceed, k).Some?
    ensures CoreOk(CoreStep(c, core, Proceed, k).value.0, locks)
  {
    assert ContextOk(Top(core), locks, |core.stack| > 1);
    hide ContextOk;
  }

  lemma ReturnKeepsCoreOk(c: nat, core: Core, a: Action, k: LockState, locks: seq<LockState>)
    requires CoreOk(core, locks) && CoreStep(c, core, a, k).Some?
    requires a.Return? || (a.Proceed? && Top(core).phase.Entered?)
    ensures CoreOk(CoreStep(c, core, a, k).value.0, locks)
  {
    assert ContextOk(Top(core), locks, |core.stack| > 1);
    var after := CoreStep(c, core, a, k).value.0;
    TopReplaced(core, after, Top(after), locks);
  }

  /** `lock_core` was stored: the guard exists. */
  lemma OwningKeepsCoreOk(c: nat, core: Core, l: nat, locks: seq<LockState>)
    requires CoreOk(core, locks) && l < |locks| && Top(core).phase.Owning? && l == Top(core).phase.lock
    requires CoreStep(c, core, Proceed, locks[l]).Some?
    ensures CoreOk(CoreStep(c, core, Proceed, locks[l]).value.0, locks)
  {
    hide ContextOk, Load, Quiet;
    var after := CoreStep(c, core, Proceed, locks[l]).value.0;
    GuardGained(Top(core), l, Top(core).phase.safe, locks, |core.stack| > 1);
    TopReplaced(core, after, Top(after), locks);
  }

  lemma TopIsOk(c: nat, core: Core, locks: seq<LockState>)
    requires CoreOk(core, locks) && TopGuards(c, core, locks)
    ensures PhaseOk(Top(core).phase, locks, |core.stack| > 1)
    ensures (Top(core).phase.Owning? || Top(core).phase.Clearing? || Top(core).phase.Spinning?) ==>
              !InSets(Top(core), Top(core).phase.lock)
    ensures Top(core).phase.Checking? && locks[Top(core).phase.lock].lockCore != Some(c) ==>
              !InSets(Top(core), Top(core).phase.lock)
  {
    assert ContextOk(Top(core), locks, |core.stack| > 1);
  }

  /** The steps that change no guard. */
  lemma GoingOnKeepsCoreOk(c: nat, core: Core, l: nat, locks: seq<LockState>)
    requires CoreOk(core, locks) && TopGuards(c, core, locks) && l == LockOf(core, Proceed) < |locks|
    requires var p := Top(core).phase; p.Masking? || p.Checking? || p.Spinning? || p.Clearing? || p.Unmasking?
    requires CoreStep(c, core, Proceed, locks[l]).Some?
    ensures CoreOk(CoreStep(c, core, Proceed, locks[l]).value.0, locks)
  {
    hide ContextOk, TopGuards;
    TopIsOk(c, core, locks);
    var after := CoreStep(c, core, Proceed, locks[l]).value.0;
    if !after.panicked { PhaseReplaced(core, after, Top(after).phase, locks); }
  }

  lemma ProceedingKeepsCoreOk(c: nat, core: Core, l: nat, locks: seq<LockState>)
    requires CoreOk(core, locks) && TopGuards(c, core, locks) && l == LockOf(core, Proceed) < |locks|
    requires CoreStep(c, core, Proceed, locks[l]).Some?
    ensures CoreOk(CoreStep(c, core, Proceed, locks[l]).value.0, locks)
  {
    hide ContextOk, Balanced, Quiet, TopGuards;
    match Top(core).phase
    case Releasing => CountingDownKeepsCoreOk(core, core.manual, locks);
    case Entered => ReturnKeepsCoreOk(c, core, Proceed, locks[l], locks);
    case Returning => HandlerEnds(c, core, locks[l], locks);
    case Owning(_, _) => OwningKeepsCoreOk(c, core, l, locks);
    case _ => GoingOnKeepsCoreOk(c, core, l, locks);
  }

  /** Every step keeps the invariant of its core. */
  lemma StepKeepsCoreOk(c: nat, core: Core, a: Action, l: nat, locks: seq<LockState>)
    requires CoreOk(core, locks) && TopGuards(c, core, locks) && l == LockOf(core, a) < |locks|
    requires CoreStep(c, core, a, locks[l]).Some?
    ensures CoreOk(CoreStep(c, core, a, locks[l]).value.0, locks)
  {
    hide TopGuards, CoreOk, ContextOk, TopGuards;
    match a
    case Interrupt => InterruptKeepsCoreOk(c, core, locks[l], locks);
    case Proceed => ProceedingKeepsCoreOk(c, core, l, locks);
    case Lock(_) => LockingKeepsCoreOk(c, core, l, locks);
    case TryLock(_) => TryLockKeepsCoreOk(c, core, l, locks);
    case Drop(_) => DropKeepsCoreOk(c, core, l, locks);
    case Enable => CountingDownKeepsCoreOk(core, core.manual - 1, locks);
    case Return => ReturnKeepsCoreOk(c, core, a, locks[l], locks);
  }

  // ---------------------------------------------------------------------------------------
  // The invariant of the guards
  // ---------------------------------------------------------------------------------------

  /** The context holds a guard of `l`, or is about to get one, or is dropping one. */
  predicate Claims(x: Context, l: nat) {
    InSets(x, l) || ((x.phase.Owning? || x.phase.Clearing?) && x.phase.lock == l)
  }

  predicate InRange(cores: seq<Core>, c: nat, i: nat) {
    c < |cores| && i < |cores[c].stack|
  }

  /** The owner of a lock is the one context that claims it, and `lock_core` names the core of a
      context that holds a guard. */
  ghost predicate GuardsOk(cores: seq<Core>, locks: seq<LockState>) {
    && (forall c: nat, i: nat, l: nat :: ClaimOk(cores, locks, c, i, l))
    && forall l :: 0 <= l < |locks| ==> LockOk(cores, locks[l], l)
  }

  predicate ClaimOk(cores: seq<Core>, locks: seq<LockState>, c: nat, i: nat, l: nat) {
    InRange(cores, c, i) && Claims(cores[c].stack[i], l) ==>
      && l < |locks| && locks[l].owner == Some((c, i))
      && (InSets(cores[c].stack[i], l) ==> locks[l].lockCore == Some(c))
  }

  ghost predicate LockOk(cores: seq<Core>, k: LockState, l: nat) {
    && (k.locked <==> k.owner.Some?)
    && (k.owner.Some? ==>
      && InRange(cores, k.owner.value.0, k.owner.value.1)
      && Claims(cores[k.owner.value.0].stack[k.owner.value.1], l))
    && (k.lockCore.Some? ==>
      && k.owner.Some? && k.lockCore.value == k.owner.value.0
      && InSets(cores[k.owner.value.0].stack[k.owner.value.1], l))
  }

  /** How a step of context `i` on core `c`, from `x` to `y`, may change its claims and lock `l`. */
  predicate LockChange(c: nat, i: nat, x: Context, y: Context, l: nat, k: LockState, k': LockState) {
    || (k' == k && Claims(y, l) == Claims(x, l) && InSets(y, l) == InSets(x, l))
    || (!k.locked && k' == k.(locked := true, owner := Some((c, i))) && Claims(y, l) && !InSets(y, l))
    || (Claims(x, l) && k' == k.(lockCore := Some(c)) && InSets(y, l))
    || (InSets(x, l) && k' == k.(lockCore := None) && Claims(y, l) && !InSets(y, l))
    || (Claims(x, l) && !InSets(x, l) && k' == k.(locked := false, owner := None) && !Claims(y, l))
  }

  ghost predicate ClaimsNothing(x: Context) {
    forall l: nat :: !Claims(x, l)
  }

  /** What a step does to the contexts of its core. */
  ghost predicate StackChange(c: nat, core: Core, after: Core, l: nat, k: LockState, k': LockState)
    requires core.stack != []
  {
    var i := |core.stack| - 1;
    || (k' == k && |after.stack| == i + 2 && after.stack[..i + 1] == core.stack && ClaimsNothing(after.stack[i + 1]))
    || (k' == k && after.stack == core.stack[..i] && ClaimsNothing(core.stack[i]))
    || (exists y :: after.stack == core.stack[i := y] && LockChange(c, i, core.stack[i], y, l, k, k')
                    && forall m: nat :: m != l ==> Claims(y, m) == Claims(core.stack[i], m) && InSets(y, m) == InSets(core.stack[i], m))
  }

  lemma TopChange(c: nat, core: Core, after: Core, y: Context, l: nat, k: LockState, k': LockState)
    requires core.stack != [] && after.stack == core.stack[|core.stack| - 1 := y]
    requires LockChange(c, |core.stack| - 1, Top(core), y, l, k, k')
    requires forall m: nat :: m != l ==> Claims(y, m) == Claims(Top(core), m) && InSets(y, m) == InSets(Top(core), m)
    ensures StackChange(c, core, after, l, k, k')
  {
    hide LockChange, Claims, InSets;
  }

  /** A guard comes into being or is dropped. */
  lemma GuardChangesStack(c: nat, core: Core, a: Action, l: nat, k: LockState)
    requires core.stack != [] && l == LockOf(core, a) && CoreStep(c, core, a, k).Some?
    requires a.Drop? || (a.Proceed? && Top(core).phase.Owning?)
    ensures var r := CoreStep(c, core, a, k).value; StackChange(c, core, r.0, l, k, r.1)
  {
    hide StackChange;
    var r := CoreStep(c, core, a, k).value;
    TopChange(c, core, r.0, Top(r.0), l, k, r.1);
  }

  /** A lock is taken or set free. */
  lemma ClaimChangesStack(c: nat, core: Core, a: Action, l: nat, k: LockState)
    requires core.stack != [] && l == LockOf(core, a) && CoreStep(c, core, a, k).Some?
    requires a.TryLock? || (a.Proceed? && (Top(core).phase.Spinning? || Top(core).phase.Clearing?))
    requires !k.locked || Top(core).phase.Clearing? ==> !InSets(Top(core), l)
    ensures var r := CoreStep(c, core, a, k).value; StackChange(c, core, r.0, l, k, r.1)
  {
    hide StackChange;
    var r := CoreStep(c, core, a, k).value;
    TopChange(c, core, r.0, Top(r.0), l, k, r.1);
  }

  lemma PhaseChangesNoClaim(c: nat, core: Core, after: Core, p: Phase, l: nat, k: LockState)
    requires core.stack != [] && after.stack == To(core, p).stack
    requires !Top(core).phase.Owning? && !Top(core).phase.Clearing? && !p.Owning? && !p.Clearing?
    ensures StackChange(c, core, after, l, k, k)
  {
    hide StackChange;
    TopChange(c, core, after, Top(core).(phase := p), l, k, k);
  }

  lemma HandlersClaimNothing(c: nat, core: Core, a: Action, l: nat, locks: seq<LockState>)
    requires CoreOk(core, locks) && l == LockOf(core, a) < |locks| && CoreStep(c, core, a, locks[l]).Some?
    requires a.Interrupt? || (a.Proceed? && Top(core).phase.Returning?)
    ensures var r := CoreStep(c, core, a, locks[l]).value; StackChange(c, core, r.0, l, locks[l], r.1)
  {
    hide PhaseOk, Balanced, Quiet;
    assert ContextOk(Top(core), locks, |core.stack| > 1);
  }

  lemma StepChangesStack(c: nat, core: Core, a: Action, l: nat, locks: seq<LockState>)
    requires CoreOk(core, locks) && TopGuards(c, core, locks) && l == LockOf(core, a) < |locks|
    requires CoreStep(c, core, a, locks[l]).Some?
    ensures var r := CoreStep(c, core, a, locks[l]).value; StackChange(c, core, r.0, l, locks[l], r.1)
  {
    hide PhaseOk, ContextOk, Balanced, Quiet, StackChange;
    var r := CoreStep(c, core, a, locks[l]).value;
    if a.Interrupt? || (a.Proceed? && Top(core).phase.Returning?) {
      HandlersClaimNothing(c, core, a, l, locks);
    } else if a.Drop? || (a.Proceed? && Top(core).phase.Owning?) {
      GuardChangesStack(c, core, a, l, locks[l]);
    } else if a.TryLock? || (a.Proceed? && (Top(core).phase.Spinning? || Top(core).phase.Clearing?)) {
      TopIsOk(c, core, locks);
      ClaimChangesStack(c, core, a, l, locks[l]);
    } else {
      PhaseChangesNoClaim(c, core, r.0, Top(r.0).phase, l, locks[l]);
    }
  }

  /** Coming and going handlers claim nothing. */
  lemma HandlersKeepGuards(cores: seq<Core>, locks: seq<LockState>, c: nat, core: Core)
    requires GuardsOk(cores, locks) && c < |cores|
    requires
      var stack := cores[c].stack;
      || (|core.stack| == |stack| + 1 && core.stack[..|stack|] == stack && ClaimsNothing(core.stack[|stack|]))
      || (stack != [] && core.stack == stack[..|stack| - 1] && ClaimsNothing(stack[|stack| - 1]))
    ensures GuardsOk(cores[c := core], locks)
  {
    var cores' := cores[c := core];
    var stack := cores[c].stack;
    forall d: nat, i: nat | InRange(cores, d, i) && !ClaimsNothing(cores[d].stack[i])
      ensures InRange(cores', d, i) && cores'[d].stack[i] == cores[d].stack[i]
    {
      if d == c { assert |core.stack| > |stack| ==> core.stack[..|stack|][i] == stack[i]; }
    }
    forall d: nat, i: nat | InRange(cores', d, i) && !ClaimsNothing(cores'[d].stack[i])
      ensures InRange(cores, d, i) && cores'[d].stack[i] == cores[d].stack[i]
    {
      if d == c && i < |stack| { assert |core.stack| > |stack| ==> core.stack[..|stack|][i] == stack[i]; }
    }
    SameClaimsSameGuards(cores, cores', locks);
  }

  lemma SameClaimsSameGuards(cores: seq<Core>, cores': seq<Core>, locks: seq<LockState>)
    requires GuardsOk(cores, locks)
    requires forall d: nat, i: nat :: InRange(cores, d, i) && !ClaimsNothing(cores[d].stack[i]) ==>
               InRange(cores', d, i) && cores'[d].stack[i] == cores[d].stack[i]
    requires forall d: nat, i: nat :: InRange(cores', d, i) && !ClaimsNothing(cores'[d].stack[i]) ==>
               InRange(cores, d, i) && cores'[d].stack[i] == cores[d].stack[i]
    ensures GuardsOk(cores', locks)
  {
    forall d: nat, i: nat, l: nat ensures ClaimOk(cores', locks, d, i, l) {
      assert ClaimOk(cores, locks, d, i, l);
    }
    forall l | 0 <= l < |locks| ensures LockOk(cores', locks[l], l) {
      assert LockOk(cores, locks[l], l);
    }
  }

  /** A step of one context keeps all guards in order. */
  lemma TopKeepsGuards(cores: seq<Core>, locks: seq<LockState>, c: nat, core: Core, y: Context, l: nat, k': LockState)
    requires GuardsOk(cores, locks) && c < |cores| && l < |locks| && cores[c].stack != []
    requires var i := |cores[c].stack| - 1; var x := cores[c].stack[i];
      && core.stack == cores[c].stack[i := y] && LockChange(c, i, x, y, l, locks[l], k')
      && forall m: nat :: m != l ==> Claims(y, m) == Claims(x, m) && InSets(y, m) == InSets(x, m)
    ensures GuardsOk(cores[c := core], locks[l := k'])
  {
    var i := |cores[c].stack| - 1;
    var cores', locks' := cores[c := core], locks[l := k'];
    forall d: nat, j: nat, m: nat ensures ClaimOk(cores', locks', d, j, m) {
      OneClaimAfter(cores, locks, c, core, y, l, k', d, j, m);
    }
    forall m | 0 <= m < |locks'| ensures LockOk(cores', locks'[m], m) {
      assert LockOk(cores, locks[m], m);
      OneLockAfter(cores, locks, c, core, y, l, k', m);
    }
  }

  lemma OneClaimAfter(cores: seq<Core>, locks: seq<LockState>, c: nat, core: Core, y: Context, l: nat, k': LockState,
                      d: nat, j: nat, m: nat)
    requires GuardsOk(cores, locks) && c < |cores| && l < |locks| && cores[c].stack != []
    requires var i := |cores[c].stack| - 1; var x := cores[c].stack[i];
      && core.stack == cores[c].stack[i := y] && LockChange(c, i, x, y, l, locks[l], k')
      && forall m: nat :: m != l ==> Claims(y, m) == Claims(x, m) && InSets(y, m) == InSets(x, m)
    ensures ClaimOk(cores[c := core], locks[l := k'], d, j, m)
  {
    var i := |cores[c].stack| - 1;
    assert LockOk(cores, locks[l], l);
    assert ClaimOk(cores, locks, d, j, m) && ClaimOk(cores, locks, c, i, m) && ClaimOk(cores, locks, d, j, l);
  }

  lemma OneLockAfter(cores: seq<Core>, locks: seq<LockState>, c: nat, core: Core, y: Context, l: nat, k': LockState, m: nat)
    requires GuardsOk(cores, locks) && c < |cores| && l < |locks| && cores[c].stack != [] && m < |locks|
    requires var i := |cores[c].stack| - 1; var x := cores[c].stack[i];
      && core.stack == cores[c].stack[i := y] && LockChange(c, i, x, y, l, locks[l], k')
      && forall m: nat :: m != l ==> Claims(y, m) == Claims(x, m) && InSets(y, m) == InSets(x, m)
    ensures LockOk(cores[c := core], locks[l := k'][m], m)
  {
    var i := |cores[c].stack| - 1;
    assert LockOk(cores, locks[m], m);
    if m == l {
      assert ClaimOk(cores, locks, c, i, l);
    }
  }

  // ---------------------------------------------------------------------------------------
  // Every reachable state
  // ---------------------------------------------------------------------------------------

  ghost predicate Inv(s: State) {
    && GuardsOk(s.cores, s.locks)
    && forall c :: 0 <= c < |s.cores| ==> CoreOk(s.cores[c], s.locks)
  }

  lemma StartIsOk(s: State)
    requires Init(s)
    ensures Inv(s)
  {
    forall c | 0 <= c < |s.cores| ensures CoreOk(s.cores[c], s.locks) {
      assert ContextOk(Idle, s.locks, false);
    }
    forall c: nat, i: nat, l: nat ensures ClaimOk(s.cores, s.locks, c, i, l) { }
    forall l | 0 <= l < |s.locks| ensures LockOk(s.cores, s.locks[l], l) { }
  }

  lemma TopGuardsHold(s: State, c: nat)
    requires Inv(s) && c < |s.cores|
    ensures s.cores[c].stack != [] && TopGuards(c, s.cores[c], s.locks)
  {
    hide ContextOk, Balanced, Quiet;
    var core := s.cores[c];
    assert CoreOk(core, s.locks);
    forall l: nat | InSets(Top(core), l) ensures l < |s.locks| && s.locks[l].locked && s.locks[l].lockCore == Some(c) {
      assert ClaimOk(s.cores, s.locks, c, |core.stack| - 1, l);
      assert LockOk(s.cores, s.locks[l], l);
    }
  }

  /** Whatever step any core takes, the invariant is kept. */
  lemma StepKeepsInv(s: State, t: State, c: nat, a: Action)
    requires Inv(s) && Next(s, t, c, a)
    ensures Inv(t)
  {
    hide CoreOk, GuardsOk, LockOf, CoreStepAs, TopGuards, LockChange, ClaimsNothing;
    var core, l := s.cores[c], LockOf(s.cores[c], a);
    var r := CoreStep(c, core, a, s.locks[l]).value;
    TopGuardsHold(s, c);
    StepKeepsCoreOk(c, core, a, l, s.locks);
    StepKeepsKind(c, core, a, s.locks[l]);
    StepChangesStack(c, core, a, l, s.locks);
    forall d | 0 <= d < |t.cores| ensures CoreOk(t.cores[d], t.locks) {
      CoreOkDependsOnKinds(t.cores[d], s.locks, t.locks);
    }
    StackChangeKeepsGuards(s.cores, s.locks, c, r.0, l, r.1);
  }

  lemma StepKeepsKind(c: nat, core: Core, a: Action, k: LockState)
    requires core.stack != [] && CoreStep(c, core, a, k).Some?
    ensures CoreStep(c, core, a, k).value.1.nonPreemptible == k.nonPreemptible
  {
  }

  lemma StackChangeKeepsGuards(cores: seq<Core>, locks: seq<LockState>, c: nat, core: Core, l: nat, k': LockState)
    requires GuardsOk(cores, locks) && c < |cores| && l < |locks| && cores[c].stack != []
    requires StackChange(c, cores[c], core, l, locks[l], k')
    ensures GuardsOk(cores[c := core], locks[l := k'])
  {
    hide GuardsOk, LockChange, ClaimsNothing, Claims, InSets;
    var i := |cores[c].stack| - 1;
    if y :| core.stack == cores[c].stack[i := y] && LockChange(c, i, cores[c].stack[i], y, l, locks[l], k')
            && forall m: nat :: m != l ==> Claims(y, m) == Claims(cores[c].stack[i], m) && InSets(y, m) == InSets(cores[c].stack[i], m) {
      TopKeepsGuards(cores, locks, c, core, y, l, k');
    } else {
      assert locks[l := k'] == locks;
      HandlersKeepGuards(cores, locks, c, core);
    }
  }

  /** The invariant holds all along any run. */
  lemma {:induction false} RunKeepsInv(run: seq<State>, k: nat)
    requires IsRun(run) && k < |run|
    ensures Inv(run[k])
  {
    hide Inv, Next;
    if k == 0 {
      StartIsOk(run[0]);
    } else {
      RunKeepsInv(run, k - 1);
      assert Step(run[k - 1], run[k - 1 + 1]);
      var c: nat, a: Action :| Next(run[k - 1], run[k], c, a);
      StepKeepsInv(run[k - 1], run[k], c, a);
    }
  }

  // ---------------------------------------------------------------------------------------
  // What the lock promises
  // ---------------------------------------------------------------------------------------

  /** Two claims on a lock are the same claim: there is at most one guard. */
  lemma MutualExclusion(run: seq<State>, k: nat, c: nat, i: nat, d: nat, j: nat, l: nat)
    requires IsRun(run) && k < |run|
    requires var cores := run[k].cores;
      && InRange(cores, c, i) && Claims(cores[c].stack[i], l)
      && InRange(cores, d, j) && Claims(cores[d].stack[j], l)
    ensures c == d && i == j && l < |run[k].locks| && run[k].locks[l].locked
  {
    hide CoreOk;
    RunKeepsInv(run, k);
    assert ClaimOk(run[k].cores, run[k].locks, c, i, l) && ClaimOk(run[k].cores, run[k].locks, d, j, l);
    assert LockOk(run[k].cores, run[k].locks[l], l);
  }

  ghost predicate HoldsGuard(s: State, c: nat, l: nat) {
    exists i: nat :: InRange(s.cores, c, i) && InSets(s.cores[c].stack[i], l)
  }

  /** `lock_core` is a core id exactly while that core holds the guard, so the deadlock check fires
      for the holder and for nobody else. */
  lemma LockCoreNamesTheHolder(run: seq<State>, k: nat, c: nat, l: nat)
    requires IsRun(run) && k < |run| && l < |run[k].locks|
    ensures run[k].locks[l].lockCore == Some(c) <==> HoldsGuard(run[k], c, l)
  {
    RunKeepsInv(run, k);
    LockCoreMeaning(run[k], c, l);
  }

  lemma LockCoreMeaning(s: State, c: nat, l: nat)
    requires Inv(s) && l < |s.locks|
    ensures s.locks[l].lockCore == Some(c) <==> HoldsGuard(s, c, l)
  {
    hide CoreOk;
    if s.locks[l].lockCore == Some(c) {
      assert LockOk(s.cores, s.locks[l], l);
      assert InRange(s.cores, c, s.locks[l].owner.value.1);
    }
    if HoldsGuard(s, c, l) {
      var i: nat :| InRange(s.cores, c, i) && InSets(s.cores[c].stack[i], l);
      assert ClaimOk(s.cores, s.locks, c, i, l);
    }
  }

  /** The deadlock check panics exactly for the core that holds a guard of the lock. Everybody else goes on to spin. */
  lemma DeadlockCheck(s: State, t: State, c: nat, l: nat)
    requires Inv(s) && Next(s, t, c, Proceed) && Top(s.cores[c]).phase == Checking(l)
    ensures t.cores[c].panicked <==> HoldsGuard(s, c, l)
    ensures !HoldsGuard(s, c, l) ==>
              t == s.(cores := s.cores[c := s.cores[c].(stack := t.cores[c].stack)])
              && t.cores[c].stack == s.cores[c].stack[|s.cores[c].stack| - 1 := Top(s.cores[c]).(phase := Spinning(l))]
  {
    hide CoreOk, GuardsOk, HoldsGuard;
    LockCoreMeaning(s, c, l);
    assert s.locks[l := s.locks[l]] == s.locks;
  }

  /** Over any run, a core panics for one of three reasons only, and then it does: it waits for itself, it takes
      a preemptible lock in an interrupt handler, or it disabled interrupts 2^32 - 1 times. */
  lemma PanicsExactly(run: seq<State>, k: nat, t: State, c: nat, a: Action)
    requires IsRun(run) && k < |run| && Next(run[k], t, c, a)
    ensures var s := run[k]; var core := s.cores[c];
      t.cores[c].panicked <==>
        || (a.Proceed? && Top(core).phase.Checking? && HoldsGuard(s, c, Top(core).phase.lock))
        || (a.Lock? && !s.locks[a.lock].nonPreemptible && |core.stack| == 2)
        || (a.Proceed? && Top(core).phase.Masking? && core.depth == 0xffff_ffff)
  {
    hide GuardsOk, ContextOk, Quiet;
    RunKeepsInv(run, k);
    var s := run[k];
    assert CoreOk(s.cores[c], s.locks);
    if a.Proceed? && Top(s.cores[c]).phase.Checking? { DeadlockCheck(s, t, c, Top(s.cores[c]).phase.lock); }
  }

  lemma SpinningClaimsNothing(x: Context, locks: seq<LockState>, handler: bool)
    requires ContextOk(x, locks, handler) && x.phase.Spinning?
    ensures !Claims(x, x.phase.lock) && !InSets(x, x.phase.lock)
  {
  }

  /** At operation boundaries the interrupt flag is what the counters say: the assert of
      `interrupts_enabled` holds. */
  lemma FlagFollowsCounters(run: seq<State>, k: nat, c: nat)
    requires IsRun(run) && k < |run| && c < |run[k].cores|
    requires run[k].cores[c].stack != [] && Top(run[k].cores[c]).phase.Running?
    ensures var core := run[k].cores[c];
      core.flag <==> core.depth == 0 && core.inInterrupt == 0
  {
    hide GuardsOk, ContextOk;
    RunKeepsInv(run, k);
    assert CoreOk(run[k].cores[c], run[k].locks);
  }

  /** While a handler runs, interrupts are off and the code it interrupted holds no guard of a
      non-preemptible lock; the handler holds no safe guard of a preemptible one. */
  lemma HandlersFindNothingMasked(run: seq<State>, k: nat, c: nat)
    requires IsRun(run) && k < |run| && c < |run[k].cores| && |run[k].cores[c].stack| > 1
    ensures var core := run[k].cores[c];
      !core.flag && |core.stack| == 2 && core.stack[0].masked == {} && core.stack[1].plain == {}
  {
    hide GuardsOk;
    RunKeepsInv(run, k);
    assert CoreOk(run[k].cores[c], run[k].locks);
    assert ContextOk(run[k].cores[c].stack[1], run[k].locks, true);
  }

  /** `DepthCounter::exit` never underflows. */
  lemma CounterNeverUnderflows(run: seq<State>, k: nat, c: nat)
    requires IsRun(run) && k < |run| && c < |run[k].cores|
    requires run[k].cores[c].stack != []
    ensures Top(run[k].cores[c]).phase.Releasing? ==> run[k].cores[c].depth > 0
    ensures run[k].cores[c].manual <= run[k].cores[c].depth
  {
    hide GuardsOk, ContextOk;
    RunKeepsInv(run, k);
    assert CoreOk(run[k].cores[c], run[k].locks);
  }

  // ---------------------------------------------------------------------------------------
  // When a core waits for itself
  // ---------------------------------------------------------------------------------------

  /** The code that runs on the core spins on a lock that some code on this core claims. */
  predicate WaitsForItself(core: Core, l: nat) {
    core.stack != [] && Top(core).phase == Spinning(l) && exists j: nat :: j < |core.stack| && Claims(core.stack[j], l)
  }

  /** `try_lock_unsafe` has taken the lock and not yet stored `lock_core`, or the drop of its guard has unset
      `lock_core` and not yet freed the lock. */
  predicate InWindow(x: Context, l: nat) {
    x.phase == Owning(l, false) || x.phase == Clearing(l, false)
  }

  /** A handler does not spin on a lock whose guard the interrupted code holds. */
  predicate HandlerSpinOk(core: Core) {
    |core.stack| == 2 && core.stack[1].phase.Spinning? ==> !InSets(core.stack[0], core.stack[1].phase.lock)
  }

  lemma StepKeepsSpin(s: State, t: State, c: nat, a: Action)
    requires Inv(s) && Next(s, t, c, a)
    ensures HandlerSpinOk(t.cores[c])
  {
    hide CoreOk, LockOk;
    var core, after := s.cores[c], t.cores[c];
    assert CoreOk(core, s.locks);
    StackIsShallow(core, s.locks);
    if |after.stack| == 2 && after.stack[1].phase.Spinning? {
      var l := after.stack[1].phase.lock;
      assert ClaimOk(s.cores, s.locks, c, 0, l);
    }
  }

  lemma StackIsShallow(core: Core, locks: seq<LockState>)
    requires CoreOk(core, locks)
    ensures 1 <= |core.stack| <= 2
  {
  }

  lemma {:induction false} RunKeepsSpin(run: seq<State>, k: nat, c: nat)
    requires IsRun(run) && k < |run| && c < |run[k].cores|
    ensures HandlerSpinOk(run[k].cores[c])
  {
    hide Inv, Next, HandlerSpinOk;
    if k == 0 {
      IdleSpinsOnNothing(run[0], c);
    } else {
      assert Step(run[k - 1], run[k - 1 + 1]);
      var d: nat, a: Action :| Next(run[k - 1], run[k], d, a);
      OthersStay(run[k - 1], run[k], d, a);
      RunKeepsInv(run, k - 1);
      if d == c { StepKeepsSpin(run[k - 1], run[k], c, a); } else { RunKeepsSpin(run, k - 1, c); }
    }
  }

  lemma IdleSpinsOnNothing(s: State, c: nat)
    requires Init(s) && c < |s.cores|
    ensures HandlerSpinOk(s.cores[c])
  {
  }

  lemma OthersStay(s: State, t: State, d: nat, a: Action)
    requires Next(s, t, d, a)
    ensures |t.cores| == |s.cores| && forall c :: 0 <= c < |s.cores| && c != d ==> t.cores[c] == s.cores[c]
  {
    hide CoreStepAs;
  }

  /** Code never spins on a lock whose guard its own core holds, not even on one of `try_lock_unsafe`. It waits
      for its own core exactly when it interrupted code in one of the two windows around `lock_core`. */
  lemma WaitingMeansWindow(run: seq<State>, k: nat, c: nat, l: nat)
    requires IsRun(run) && k < |run| && c < |run[k].cores|
    requires run[k].cores[c].stack != [] && Top(run[k].cores[c]).phase == Spinning(l)
    ensures var core := run[k].cores[c];
      && (forall j: nat :: j < |core.stack| ==> !InSets(core.stack[j], l))
      && (WaitsForItself(core, l) <==> |core.stack| == 2 && InWindow(core.stack[0], l))
  {
    hide GuardsOk;
    RunKeepsInv(run, k);
    RunKeepsSpin(run, k, c);
    var core := run[k].cores[c];
    assert CoreOk(core, run[k].locks);
    SpinnersClaims(core, run[k].locks, l);
  }

  lemma SpinnersClaims(core: Core, locks: seq<LockState>, l: nat)
    requires CoreOk(core, locks) && HandlerSpinOk(core) && Top(core).phase == Spinning(l)
    ensures forall j: nat :: j < |core.stack| ==> !InSets(core.stack[j], l)
    ensures WaitsForItself(core, l) <==> |core.stack| == 2 && InWindow(core.stack[0], l)
    ensures |core.stack| == 2 ==> IsMasked(locks, l)
  {
    hide Balanced, ContextOk, Claims, InWindow, Quiet, Load, IsMasked;
    assert ContextOk(Top(core), locks, |core.stack| > 1);
    SpinningClaimsNothing(Top(core), locks, |core.stack| > 1);
    if |core.stack| == 2 {
      HandlersSpinOnMasked(core.stack[1], locks);
      assert ContextOk(core.stack[0], locks, false);
      InterruptedClaims(core.stack[0], locks, l);
    }
  }

  lemma HandlersSpinOnMasked(x: Context, locks: seq<LockState>)
    requires ContextOk(x, locks, true) && x.phase.Spinning?
    ensures IsMasked(locks, x.phase.lock)
  {
  }

  /** What interrupted code can claim of a non-preemptible lock without holding its guard. */
  lemma InterruptedClaims(x: Context, locks: seq<LockState>, l: nat)
    requires ContextOk(x, locks, false) && Quiet(x, locks) && IsMasked(locks, l) && !InSets(x, l)
    ensures Claims(x, l) <==> InWindow(x, l)
  {
  }

  /** A call that opens a window in which the core can be interrupted by code that takes the same lock:
      `try_lock_unsafe`, or the drop of its guard, on a non-preemptible lock with interrupts on. */
  predicate Careless(s: State, c: nat, a: Action) {
    c < |s.cores| && s.cores[c].stack != [] && s.cores[c].flag
    && match a
       case TryLock(l) => IsMasked(s.locks, l)
       case Drop(l) => IsMasked(s.locks, l) && l in Top(s.cores[c]).tried
       case _ => false
  }

  /** A run together with its steps. */
  ghost predicate IsRunOf(run: seq<State>, who: seq<nat>, what: seq<Action>) {
    && |run| == |who| + 1 && |what| == |who| && Init(run[0])
    && forall k :: 0 <= k < |who| ==> StepAt(run, who, what, k)
  }

  predicate StepAt(run: seq<State>, who: seq<nat>, what: seq<Action>, k: nat)
    requires |run| == |who| + 1 && |what| == |who| && k < |who|
  {
    Next(run[k], run[k + 1], who[k], what[k])
  }

  lemma RunOfIsRun(run: seq<State>, who: seq<nat>, what: seq<Action>)
    requires IsRunOf(run, who, what)
    ensures IsRun(run)
  {
    forall k | 0 <= k < |run| - 1 ensures Step(run[k], run[k + 1]) {
      assert StepAt(run, who, what, k);
    }
  }

  /** Code in a window on a non-preemptible lock is not interrupted and cannot be. */
  predicate WindowShut(core: Core, locks: seq<LockState>) {
    core.stack != [] && (core.stack[0].phase.Owning? || core.stack[0].phase.Clearing?) ==>
      (InWindow(core.stack[0], core.stack[0].phase.lock) && IsMasked(locks, core.stack[0].phase.lock) ==>
         |core.stack| == 1 && !core.flag)
  }

  lemma CarefulStepKeepsWindowShut(s: State, t: State, d: nat, a: Action, c: nat)
    requires Inv(s) && Next(s, t, d, a) && !Careless(s, d, a) && c < |s.cores|
    requires WindowShut(s.cores[c], s.locks)
    ensures c < |t.cores| && WindowShut(t.cores[c], t.locks)
  {
    hide GuardsOk, ContextOk, Balanced, Quiet;
    assert CoreOk(s.cores[c], s.locks);
    StepKeepsKind(d, s.cores[d], a, s.locks[LockOf(s.cores[d], a)]);
    assert forall l :: IsMasked(t.locks, l) == IsMasked(s.locks, l);
  }

  lemma {:induction false} CarefulRunKeepsWindowsShut(run: seq<State>, who: seq<nat>, what: seq<Action>, k: nat, c: nat)
    requires IsRunOf(run, who, what) && k < |run| && c < |run[k].cores|
    requires forall i :: 0 <= i < |who| ==> !Careless(run[i], who[i], what[i])
    ensures WindowShut(run[k].cores[c], run[k].locks)
  {
    hide Inv, Next, Careless, WindowShut, Init;
    RunOfIsRun(run, who, what);
    if k == 0 {
      IdleIsNoWindow(run[0], c);
    } else {
      assert StepAt(run, who, what, k - 1);
      RunKeepsInv(run, k - 1);
      OthersStay(run[k - 1], run[k], who[k - 1], what[k - 1]);
      CarefulRunKeepsWindowsShut(run, who, what, k - 1, c);
      CarefulStepKeepsWindowShut(run[k - 1], run[k], who[k - 1], what[k - 1], c);
    }
  }

  lemma IdleIsNoWindow(s: State, c: nat)
    requires Init(s) && c < |s.cores|
    ensures WindowShut(s.cores[c], s.locks)
  {
  }

  /** Without a careless call no core ever waits for itself. */
  lemma CarefulRunsNeverWait(run: seq<State>, who: seq<nat>, what: seq<Action>, k: nat, c: nat, l: nat)
    requires IsRunOf(run, who, what) && k < |run| && c < |run[k].cores|
    requires forall i :: 0 <= i < |who| ==> !Careless(run[i], who[i], what[i])
    ensures !WaitsForItself(run[k].cores[c], l)
  {
    hide GuardsOk, Next, Careless, Init;
    RunOfIsRun(run, who, what);
    RunKeepsInv(run, k);
    var core := run[k].cores[c];
    assert CoreOk(core, run[k].locks);
    if core.stack != [] && Top(core).phase == Spinning(l) {
      RunKeepsSpin(run, k, c);
      SpinnersClaims(core, run[k].locks, l);
      CarefulRunKeepsWindowsShut(run, who, what, k, c);
    }
  }

  /** A step that changes no lock. */
  lemma StepOnCore(cores: seq<Core>, locks: seq<LockState>, c: nat, core: Core, a: Action, after: Core)
    requires c < |cores| && core.stack != [] && LockOf(core, a) < |locks|
    requires CoreStep(c, core, a, locks[LockOf(core, a)]) == Some((after, locks[LockOf(core, a)]))
    ensures Next(State(cores[c := core], locks), State(cores[c := after], locks), c, a)
  {
    hide CoreStepAs;
    assert cores[c := core][c := after] == cores[c := after];
    assert locks[LockOf(core, a) := locks[LockOf(core, a)]] == locks;
  }

  /** A handler arrives at a core in a window, passes the deadlock check and spins. */
  lemma HandlerComesToSpin(core: Core, c: nat, l: nat, k: LockState)
    returns (core1: Core, core2: Core, core3: Core, core4: Core, core5: Core)
    requires |core.stack| == 1 && core.flag && core.depth == 0 && core.inInterrupt == 0 && !core.panicked
    requires k.nonPreemptible && k.lockCore == None
    ensures forall any: LockState :: CoreStep(c, core, Interrupt, any) == Some((core1, any))
    ensures core1.stack != [] && forall any: LockState :: CoreStep(c, core1, Proceed, any) == Some((core2, any))
    ensures core2.stack != [] && CoreStep(c, core2, Lock(l), k) == Some((core3, k))
    ensures core3.stack != [] && LockOf(core3, Proceed) == l && CoreStep(c, core3, Proceed, k) == Some((core4, k))
    ensures core4.stack != [] && LockOf(core4, Proceed) == l && CoreStep(c, core4, Proceed, k) == Some((core5, k))
    ensures core1.stack != [] && LockOf(core, Interrupt) == LockOf(core1, Proceed) == 0 && LockOf(core2, Lock(l)) == l
    ensures |core5.stack| == 2 && core5.stack[0] == core.stack[0] && Top(core5).phase == Spinning(l)
  {
    core1 := core.(stack := core.stack + [Context(Entered, {}, {}, {})], flag := false);
    core2 := To(core1.(inInterrupt := 1), Running);
    core3 := To(core2.(flag := false), Masking(l));
    core4 := To(core3.(depth := 1), Checking(l));
    core5 := To(core4, Spinning(l));
  }

  /** After a careless call the core can come to wait for itself: an interrupt arrives, and its handler takes
      the lock. */
  lemma CarelessCallMayWait(run: seq<State>, c: nat, a: Action, t: State) returns (more: seq<State>)
    requires IsRun(run) && Careless(run[|run| - 1], c, a) && Next(run[|run| - 1], t, c, a)
    ensures IsRun(run + [t] + more) && more != []
    ensures var last := more[|more| - 1]; c < |last.cores| && WaitsForItself(last.cores[c], a.lock)
  {
    hide Next, Inv;
    var s := run[|run| - 1];
    RunKeepsInv(run, |run| - 1);
    WindowIsOpen(s, t, c, a);
    var core, l := t.cores[c], a.lock;
    var c1, c2, c3, c4, c5 := HandlerComesToSpin(core, c, l, t.locks[l]);
    StepOnCore(t.cores, t.locks, c, core, Interrupt, c1);
    StepOnCore(t.cores, t.locks, c, c1, Proceed, c2);
    StepOnCore(t.cores, t.locks, c, c2, Lock(l), c3);
    StepOnCore(t.cores, t.locks, c, c3, Proceed, c4);
    StepOnCore(t.cores, t.locks, c, c4, Proceed, c5);
    assert t == State(t.cores[c := core], t.locks);
    more := [State(t.cores[c := c1], t.locks), State(t.cores[c := c2], t.locks), State(t.cores[c := c3], t.locks),
             State(t.cores[c := c4], t.locks), State(t.cores[c := c5], t.locks)];
    assert Claims(c5.stack[0], l);
    PrefixesGrow(run + [t], more);
    RunGoesOn(run, t, c, a);
    RunGoesOn(run + [t], more[0], c, Interrupt);
    RunGoesOn(run + [t] + more[..1], more[1], c, Proceed);
    RunGoesOn(run + [t] + more[..2], more[2], c, Lock(l));
    RunGoesOn(run + [t] + more[..3], more[3], c, Proceed);
    RunGoesOn(run + [t] + more[..4], more[4], c, Proceed);
  }

  lemma PrefixesGrow(run: seq<State>, more: seq<State>)
    requires |more| == 5
    ensures run + more[..0] == run && run + more[..5] == run + more
    ensures forall k :: 0 <= k < 5 ==> run + more[..k] + [more[k]] == run + more[..k + 1]
  {
  }

  lemma RunGoesOn(run: seq<State>, t: State, c: nat, a: Action)
    requires IsRun(run) && Next(run[|run| - 1], t, c, a)
    ensures IsRun(run + [t])
  {
    hide Next;
    var all := run + [t];
    forall k | 0 <= k < |all| - 1 ensures Step(all[k], all[k + 1]) {
      if k < |run| - 1 {
        assert Step(run[k], run[k + 1]);
      } else {
        assert Next(all[k], all[k + 1], c, a);
      }
    }
  }

  /** The state right after a careless call. */
  lemma WindowIsOpen(s: State, t: State, c: nat, a: Action)
    requires Inv(s) && Careless(s, c, a) && Next(s, t, c, a)
    ensures c < |t.cores| && |t.cores[c].stack| == 1 && t.cores[c].flag && t.cores[c].depth == 0 && t.cores[c].inInterrupt == 0
    ensures !t.cores[c].panicked && InWindow(t.cores[c].stack[0], a.lock)
    ensures IsMasked(t.locks, a.lock) && t.locks[a.lock].lockCore == None
  {
    hide ContextOk;
    assert CoreOk(s.cores[c], s.locks);
    if a.TryLock? { assert LockOk(s.cores, s.locks[a.lock], a.lock); }
  }

  // ---------------------------------------------------------------------------------------
  // Why `try_lock_unsafe` is the exception
  // ---------------------------------------------------------------------------------------

  function After(s: State, a: Action): (t: State)
    requires |s.cores| == 1 && |s.locks| == 1 && s.cores[0].stack != []
    requires LockOf(s.cores[0], a) == 0 && CoreStep(0, s.cores[0], a, s.locks[0]).Some?
    ensures Next(s, t, 0, a) && |t.cores| == 1 && |t.locks| == 1
  {
    var r := CoreStep(0, s.cores[0], a, s.locks[0]).value;
    State([r.0], [r.1])
  }

  /** An interrupt between `try_lock_unsafe` taking a lock and storing `lock_core`: the handler passes
      the deadlock check and waits for its own core. */
  lemma TryLockLetsACoreWaitForItself() returns (run: seq<State>)
    ensures IsRun(run)
    ensures var s := run[|run| - 1];
      |s.cores| == 1 && |s.cores[0].stack| == 2
      && s.cores[0].stack[1].phase == Spinning(0) && Claims(s.cores[0].stack[0], 0)
  {
    var s0 := State([Started], [LockState(true, false, None, None)]);
    var s1 := After(s0, Enable);
    var s2 := After(s1, Proceed);
    var s3 := After(s2, TryLock(0));
    var s4 := After(s3, Interrupt);
    var s5 := After(s4, Proceed);
    var s6 := After(s5, Lock(0));
    var s7 := After(s6, Proceed);
    var s8 := After(s7, Proceed);
    run := [s0, s1, s2, s3, s4, s5, s6, s7, s8];
    assert Next(s0, s1, 0, Enable) && Next(s1, s2, 0, Proceed) && Next(s2, s3, 0, TryLock(0)) && Next(s3, s4, 0, Interrupt);
    assert Next(s4, s5, 0, Proceed) && Next(s5, s6, 0, Lock(0)) && Next(s6, s7, 0, Proceed) && Next(s7, s8, 0, Proceed);
  }
}
