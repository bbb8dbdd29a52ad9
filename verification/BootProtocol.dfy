/** How the cores come up one by one and how the boot block moves from bootloader memory to kernel
    memory (kernel/src/processors.rs, kernel/src/core_locals.rs, kernel/src/mm.rs,
    uefi_bootloader/src/main.rs), as a step relation over any number of cores. */
module BootProtocols {
  import opened MachineInts
  import SpinLocks

  // ---------------------------------------------------------------------------------------
  // State
  // ---------------------------------------------------------------------------------------

  datatype Stage =
    | Off
    | Started     // got its IPIs, runs the bootloader, has not counted up `CORE_ID`
    | Loading     // in the bootloader, identified by `CORE_ID`
    | Early       // in `core_locals::initialize`, identified by `NEXT_FREE_CORE_ID - 1`
    | InKernel    // has core locals
    | Launching   // first core only: in the launch loop
    | Online      // has checked in with `CORE_STATES`
    | Waiting     // has counted up `CORES_ONLINE`, spins at the barrier
    | Passed      // behind the barrier
    | Announced   // has counted up `READY_CORES`
    | Collecting  // first core only: waits for all cores to be ready
    | Copied      // first core only: has moved the boot block
    | Informed    // knows the new boot block
    | Switched    // uses the new boot block
    | Finished    // first core only: has reclaimed boot memory

  function Rank(t: Stage): nat {
    match t
    case Off => 0 case Started => 1 case Loading => 2 case Early => 3 case InKernel => 4
    case Launching => 5 case Online => 6 case Waiting => 7 case Passed => 8 case Announced => 9
    case Collecting => 10 case Copied => 11 case Informed => 12 case Switched => 13 case Finished => 14
  }

  datatype CoreState = Absent | Launched | Running

  /** `id` is `CoreLocals::id`, `moved` tells whether the core uses the new boot block, and `guards` is
      the number of boot block locks that it holds. */
  datatype Core = Core(stage: Stage, id: Option<nat>, moved: bool, guards: nat)

  /** Core 0 is the one the firmware started. The others are numbered in the order in which the launch
      loop takes their APIC ids. */
  datatype State = State(
    cores: seq<Core>,
    coreId: nat,                 // `CORE_ID` of the bootloader
    nextId: nat,                 // `NEXT_FREE_CORE_ID`
    total: nat,                  // `TOTAL_CORES`
    states: seq<CoreState>,      // `CORE_STATES`
    launched: nat,               // how many cores the launch loop has started
    awaiting: bool,              // the launch loop waits for the last of them
    online: nat,                 // `CORES_ONLINE`
    ready: nat,                  // `READY_CORES`
    copied: bool,                // the boot block was moved
    published: bool,             // `NEW_BOOT_BLOCK` is set
    reclaimed: bool,             // boot memory went back to the free memory
    failed: bool)                // an assert failed

  predicate Init(s: State) {
    && |s.cores| > 0 && |s.states| == |s.cores|
    && s.cores[0] == Core(Loading, None, false, 0)
    && (forall c :: 0 < c < |s.cores| ==> s.cores[c] == Core(Off, None, false, 0))
    && (forall c :: 0 <= c < |s.cores| ==> s.states[c] == Absent)
    && s.coreId == s.nextId == s.total == s.launched == s.online == s.ready == 0
    && !s.awaiting && !s.copied && !s.published && !s.reclaimed && !s.failed
  }

  // ---------------------------------------------------------------------------------------
  // Steps
  // ---------------------------------------------------------------------------------------

  datatype Action = Advance | Acquire | Release

  function At(s: State, c: nat, t: Stage): State
    requires c < |s.cores|
  {
    s.(cores := s.cores[c := s.cores[c].(stage := t)])
  }

  /** The stages in which code may take locks of the boot block. */
  predicate MayUseBlock(c: nat, t: Stage) {
    2 <= Rank(t) <= 8 || (c == 0 && t == Announced) || Rank(t) >= 13
  }

  /** That is all the time from the bootloader to the barrier, for the first core until it waits for the others, and then
      with the new block. */
  lemma MayUseBlockMeaning(c: nat, t: Stage)
    ensures MayUseBlock(c, t) <==>
      || t.Loading? || t.Early? || t.InKernel? || t.Launching? || t.Online? || t.Waiting? || t.Passed?
      || (c == 0 && t.Announced?) || t.Switched? || t.Finished?
  {
  }

  /** The next step of the boot process on core `c`, or `None` while it has to wait. */
  function Advanced(s: State, c: nat): Option<State>
    requires c < |s.cores| == |s.states|
  {
    match s.cores[c].stage
    case Off => None
    case Started => Some(At(s, c, Loading).(coreId := s.coreId + 1))
    case Loading =>
      Some(s.(cores := s.cores[c := s.cores[c].(stage := Early, id := Some(s.nextId))], nextId := s.nextId + 1))
    case Early => Some(At(s, c, InKernel))
    case InKernel =>
      if c == 0 then
        Some(At(s, c, Launching).(total := |s.cores|, states := s.states[0 := Running]))
      else
        Some(CheckIn(s, c, Launched))
    case Launching =>
      if s.awaiting then
        if s.launched < |s.states| && s.states[s.launched] == Running then Some(s.(awaiting := false)) else None
      else if s.launched + 1 < |s.cores| then
        var d := s.launched + 1;
        Some(At(s, d, Started).(launched := d, awaiting := true, states := s.states[d := Launched]))
      else
        Some(CheckIn(s, c, Running))
    case Online => Some(At(s, c, Waiting).(online := s.online + 1))
    case Waiting => if s.online == s.total then Some(At(s, c, Passed)) else None
    case Passed => if s.cores[c].guards > 0 then None else Some(At(s, c, Announced).(ready := s.ready + 1))
    case Announced =>
      if c == 0 then
        if s.cores[c].guards > 0 then None else Some(At(s, c, Collecting))
      else if s.published then Some(At(s, c, Informed)) else None
    case Collecting => if s.ready == s.total then Some(At(s, c, Copied).(copied := true)) else None
    case Copied => Some(At(s, c, Informed).(published := true))
    case Informed => Some(s.(cores := s.cores[c := s.cores[c].(stage := Switched, moved := true)]))
    case Switched => if c == 0 then Some(At(s, c, Finished).(reclaimed := true)) else None
    case Finished => None
  }

  /** The head of `notify_core_online`: the state must be the expected one. */
  function CheckIn(s: State, c: nat, expected: CoreState): State
    requires c < |s.cores| == |s.states|
  {
    if s.states[c] == expected then At(s, c, Online).(states := s.states[c := Running]) else s.(failed := true)
  }

  predicate Next(s: State, t: State, c: nat, a: Action) {
    && c < |s.cores| == |s.states| && !s.failed
    && match a
       case Advance => Advanced(s, c) == Some(t)
       case Acquire =>
         && MayUseBlock(c, s.cores[c].stage)
         && t == s.(cores := s.cores[c := s.cores[c].(guards := s.cores[c].guards + 1)])
       case Release =>
         && MayUseBlock(c, s.cores[c].stage) && s.cores[c].guards > 0
         && t == s.(cores := s.cores[c := s.cores[c].(guards := s.cores[c].guards - 1)])
  }

  ghost predicate Step(s: State, t: State) {
    exists c: nat, a: Action :: Next(s, t, c, a)
  }

  ghost predicate IsRun(run: seq<State>) {
    run != [] && Init(run[0]) && forall k :: 0 <= k < |run| - 1 ==> Step(run[k], run[k + 1])
  }

  // ---------------------------------------------------------------------------------------
  // Counting cores
  // ---------------------------------------------------------------------------------------

  /** How many cores have got to a stage. */
  function Count(cores: seq<Core>, rank: nat): nat {
    if cores == [] then 0
    else Count(cores[..|cores| - 1], rank) + if Rank(cores[|cores| - 1].stage) >= rank then 1 else 0
  }

  lemma {:induction false} CountChanges(cores: seq<Core>, c: nat, core: Core, rank: nat)
    requires c < |cores|
    ensures Count(cores[c := core], rank) ==
      Count(cores, rank) + (if Rank(core.stage) >= rank then 1 else 0) - (if Rank(cores[c].stage) >= rank then 1 else 0)
  {
    var n := |cores| - 1;
    if c < n {
      assert cores[c := core][..n] == cores[..n][c := core];
      CountChanges(cores[..n], c, core, rank);
    } else {
      assert cores[c := core][..n] == cores[..n];
    }
  }

  /** A full count counts everybody. */
  lemma {:induction false} FullCount(cores: seq<Core>, rank: nat)
    ensures Count(cores, rank) <= |cores|
    ensures Count(cores, rank) == |cores| ==> forall c :: 0 <= c < |cores| ==> Rank(cores[c].stage) >= rank
  {
    if cores != [] {
      var n := |cores| - 1;
      FullCount(cores[..n], rank);
      assert forall c :: 0 <= c < n ==> cores[..n][c] == cores[c];
    }
  }

  lemma {:induction false} NobodyCounts(cores: seq<Core>, rank: nat)
    requires forall c :: 0 <= c < |cores| ==> Rank(cores[c].stage) < rank
    ensures Count(cores, rank) == 0
  {
    if cores != [] {
      var n := |cores| - 1;
      assert forall c :: 0 <= c < n ==> cores[..n][c] == cores[c];
      NobodyCounts(cores[..n], rank);
    }
  }

  // ---------------------------------------------------------------------------------------
  // The invariant
  // ---------------------------------------------------------------------------------------

  /** Core `c` has got no further than the rest of the system lets it. */
  predicate CoreOk(s: State, c: nat)
    requires c < |s.cores| == |s.states|
  {
    var r := Rank(s.cores[c].stage);
    && (r >= 3 ==> s.cores[c].id == Some(c))
    && (r >= 8 ==> s.online == |s.cores|)
    && (s.cores[c].moved <==> r >= 13)
    && (!MayUseBlock(c, s.cores[c].stage) ==> s.cores[c].guards == 0)
    && if c == 0 then
         && r >= 2
         && (s.states[0] == if r >= 5 then Running else Absent)
       else
         && r !in {5, 10, 11, 14}
         && (c > s.launched ==> r == 0)
         && (c <= s.launched ==> r >= 1 && (r >= 6 || (c == s.launched && s.awaiting)))
         && (s.states[c] == if r == 0 then Absent else if r < 6 then Launched else Running)
         && (r >= 12 ==> s.published)
  }

  /** The counters say how far the cores have got. */
  predicate SharedOk(s: State) {
    && |s.cores| == |s.states| > s.launched && !s.failed
    && (var first, last := Rank(s.cores[0].stage), Rank(s.cores[s.launched].stage);
        && s.total == (if first >= 5 then |s.cores| else 0)
        && (s.launched > 0 ==> first >= 5)
        && (s.awaiting ==> s.launched > 0 && first == 5)
        && (first >= 6 ==> s.launched == |s.cores| - 1)
        && s.coreId == (if s.launched > 0 && last < 2 then s.launched - 1 else s.launched)
        && s.nextId == (if last < 3 then s.launched else s.launched + 1)
        && (first >= 11 ==> s.ready == |s.cores|)
        && (s.copied <==> first >= 11) && (s.published <==> first >= 12) && (s.reclaimed <==> first >= 14))
    && s.online == Count(s.cores, 7) && s.ready == Count(s.cores, 9)
  }

  ghost predicate Inv(s: State) {
    SharedOk(s) && forall c :: 0 <= c < |s.cores| ==> CoreOk(s, c)
  }

  lemma StartIsOk(s: State)
    requires Init(s)
    ensures Inv(s)
  {
    NobodyCounts(s.cores, 7);
    NobodyCounts(s.cores, 9);
  }

  lemma GuardsKeepInv(s: State, t: State, c: nat, a: Action)
    requires Inv(s) && Next(s, t, c, a) && !a.Advance?
    ensures Inv(t)
  {
    CountChanges(s.cores, c, t.cores[c], 7);
    CountChanges(s.cores, c, t.cores[c], 9);
    forall d | 0 <= d < |t.cores| ensures CoreOk(t, d) { assert CoreOk(s, d); }
  }

  lemma LoadingKeepsInv(s: State, t: State, c: nat)
    requires Inv(s) && Next(s, t, c, Advance) && 1 <= Rank(s.cores[c].stage) <= 3
    ensures Inv(t)
  {
    hide Count;
    CountChanges(s.cores, c, t.cores[c], 7);
    CountChanges(s.cores, c, t.cores[c], 9);
    FullCount(s.cores, 7);
    FullCount(s.cores, 9);
    assert CoreOk(s, c) && CoreOk(s, 0) && CoreOk(s, s.launched);
    forall e | 0 <= e < |t.cores| ensures CoreOk(t, e) { assert CoreOk(s, e); }
  }

  lemma InitializedKeepsInv(s: State, t: State, c: nat)
    requires Inv(s) && Next(s, t, c, Advance) && s.cores[c].stage.InKernel?
    ensures Inv(t)
  {
    hide Count;
    CountChanges(s.cores, c, t.cores[c], 7);
    CountChanges(s.cores, c, t.cores[c], 9);
    FullCount(s.cores, 7);
    FullCount(s.cores, 9);
    assert CoreOk(s, c) && CoreOk(s, 0) && CoreOk(s, s.launched);
    forall e | 0 <= e < |t.cores| ensures CoreOk(t, e) { assert CoreOk(s, e); }
  }

  lemma LaunchingKeepsInv(s: State, t: State, c: nat)
    requires Inv(s) && Next(s, t, c, Advance) && s.cores[c].stage.Launching?
    ensures Inv(t)
  {
    hide Count;
    var d := if t.launched > s.launched then t.launched else c;
    assert CoreOk(s, c) && CoreOk(s, 0) && CoreOk(s, s.launched) && CoreOk(s, d);
    CountChanges(s.cores, d, t.cores[d], 7);
    CountChanges(s.cores, d, t.cores[d], 9);
    forall e | 0 <= e < |t.cores| ensures CoreOk(t, e) { assert CoreOk(s, e); }
  }

  lemma OnlineKeepsInv(s: State, t: State, c: nat)
    requires Inv(s) && Next(s, t, c, Advance) && s.cores[c].stage.Online?
    ensures Inv(t)
  {
    hide Count;
    CountChanges(s.cores, c, t.cores[c], 7);
    CountChanges(s.cores, c, t.cores[c], 9);
    FullCount(s.cores, 7);
    FullCount(s.cores, 9);
    assert CoreOk(s, c) && CoreOk(s, 0) && CoreOk(s, s.launched);
    forall e | 0 <= e < |t.cores| ensures CoreOk(t, e) { assert CoreOk(s, e); }
  }

  lemma BarrierKeepsInv(s: State, t: State, c: nat)
    requires Inv(s) && Next(s, t, c, Advance) && 7 <= Rank(s.cores[c].stage) <= 8
    ensures Inv(t)
  {
    hide Count;
    CountChanges(s.cores, c, t.cores[c], 7);
    CountChanges(s.cores, c, t.cores[c], 9);
    FullCount(s.cores, 7);
    FullCount(s.cores, 9);
    assert CoreOk(s, c) && CoreOk(s, 0) && CoreOk(s, s.launched);
    forall e | 0 <= e < |t.cores| ensures CoreOk(t, e) { assert CoreOk(s, e); }
  }

  lemma AnnouncedKeepsInv(s: State, t: State, c: nat)
    requires Inv(s) && Next(s, t, c, Advance) && s.cores[c].stage.Announced?
    ensures Inv(t)
  {
    hide Count;
    CountChanges(s.cores, c, t.cores[c], 7);
    CountChanges(s.cores, c, t.cores[c], 9);
    FullCount(s.cores, 7);
    FullCount(s.cores, 9);
    assert CoreOk(s, c) && CoreOk(s, 0) && CoreOk(s, s.launched);
    forall e | 0 <= e < |t.cores| ensures CoreOk(t, e) { assert CoreOk(s, e); }
  }

  lemma MoveKeepsInv(s: State, t: State, c: nat)
    requires Inv(s) && Next(s, t, c, Advance) && 10 <= Rank(s.cores[c].stage) <= 11
    ensures Inv(t)
  {
    hide Count;
    CountChanges(s.cores, c, t.cores[c], 7);
    CountChanges(s.cores, c, t.cores[c], 9);
    FullCount(s.cores, 7);
    FullCount(s.cores, 9);
    assert CoreOk(s, c) && CoreOk(s, 0) && CoreOk(s, s.launched);
    forall e | 0 <= e < |t.cores| ensures CoreOk(t, e) { assert CoreOk(s, e); }
  }

  lemma SwitchKeepsInv(s: State, t: State, c: nat)
    requires Inv(s) && Next(s, t, c, Advance) && 12 <= Rank(s.cores[c].stage)
    ensures Inv(t)
  {
    hide Count;
    CountChanges(s.cores, c, t.cores[c], 7);
    CountChanges(s.cores, c, t.cores[c], 9);
    FullCount(s.cores, 7);
    FullCount(s.cores, 9);
    assert CoreOk(s, c) && CoreOk(s, 0) && CoreOk(s, s.launched);
    forall e | 0 <= e < |t.cores| ensures CoreOk(t, e) { assert CoreOk(s, e); }
  }

  /** Whatever step any core takes, the invariant is kept. */
  lemma StepKeepsInv(s: State, t: State, c: nat, a: Action)
    requires Inv(s) && Next(s, t, c, a)
    ensures Inv(t)
  {
    hide Inv;
    if !a.Advance? {
      GuardsKeepInv(s, t, c, a);
    } else {
      match s.cores[c].stage
      case Started => LoadingKeepsInv(s, t, c);
      case Loading => LoadingKeepsInv(s, t, c);
      case Early => LoadingKeepsInv(s, t, c);
      case InKernel => InitializedKeepsInv(s, t, c);
      case Launching => LaunchingKeepsInv(s, t, c);
      case Online => OnlineKeepsInv(s, t, c);
      case Waiting => BarrierKeepsInv(s, t, c);
      case Passed => BarrierKeepsInv(s, t, c);
      case Announced => AnnouncedKeepsInv(s, t, c);
      case Collecting => MoveKeepsInv(s, t, c);
      case Copied => MoveKeepsInv(s, t, c);
      case _ => SwitchKeepsInv(s, t, c);
    }
  }

  /** The invariant holds all along any run. */
  lemma {:induction false} RunKeepsInv(run: seq<State>, k: nat)
    requires IsRun(run) && k < |run|
    ensures Inv(run[k])
  {
    hide Inv, Next;
    if k == 0 {
      StartIsOk(run[0]);
    } else {
      RunKeepsInv(run, k - 1);
      assert Step(run[k - 1], run[k - 1 + 1]);
      var c: nat, a: Action :| Next(run[k - 1], run[k], c, a);
      StepKeepsInv(run[k - 1], run[k], c, a);
    }
  }

  // ---------------------------------------------------------------------------------------
  // What the boot process promises
  // ---------------------------------------------------------------------------------------

  /** The core was launched and is not online yet: the bootloader, which is not thread safe, may be
      running on it. */
  predicate InTransit(s: State, c: nat)
    requires c < |s.cores|
  {
    c > 0 && 1 <= Rank(s.cores[c].stage) < 6
  }

  /** Only one core comes up at a time, and the launch loop is waiting for it. */
  lemma OneCoreInTransit(run: seq<State>, k: nat, c: nat, d: nat)
    requires IsRun(run) && k < |run|
    requires var s := run[k]; c < |s.cores| && d < |s.cores| && InTransit(s, c) && InTransit(s, d)
    ensures c == d == run[k].launched && run[k].awaiting && run[k].cores[0].stage.Launching?
  {
    RunKeepsInv(run, k);
    assert CoreOk(run[k], c) && CoreOk(run[k], d) && CoreOk(run[k], 0);
  }

  predicate TakesLocks(t: Stage) { Rank(t) >= 2 }

  /** The `core_id` that the locks see on a core: `CORE_ID` in the bootloader, `NEXT_FREE_CORE_ID - 1`
      in `EarlyInterrupts`, and afterwards `CoreLocals::id`. */
  function LockId(s: State, c: nat): int
    requires c < |s.cores|
  {
    match s.cores[c].stage
    case Loading => s.coreId
    case Early => s.nextId - 1
    case _ => if s.cores[c].id.Some? then s.cores[c].id.value else -1
  }

  /** Bootloader and kernel agree on the id of a core, and no two cores share one. */
  lemma IdsAgree(run: seq<State>, k: nat, c: nat)
    requires IsRun(run) && k < |run| && c < |run[k].cores| && TakesLocks(run[k].cores[c].stage)
    ensures LockId(run[k], c) == c
    ensures Rank(run[k].cores[c].stage) >= 3 ==> run[k].cores[c].id == Some(c)
  {
    RunKeepsInv(run, k);
    IdIsIndex(run[k], c);
  }

  lemma IdIsIndex(s: State, c: nat)
    requires Inv(s) && c < |s.cores| && TakesLocks(s.cores[c].stage)
    ensures LockId(s, c) == c
    ensures Rank(s.cores[c].stage) >= 3 ==> s.cores[c].id == Some(c)
  {
    assert CoreOk(s, c) && CoreOk(s, 0) && CoreOk(s, s.launched);
  }

  /** Cores that come up and take locks meanwhile. */
  datatype Joint = Joint(boot: State, locks: SpinLocks.State)

  datatype JointAction = Boot(boot: Action) | Locks(lock: SpinLocks.Action)

  /** A step of the boot process, or a step of a core on a lock, as the core that it takes itself for then. */
  ghost predicate JointNext(s: Joint, t: Joint, c: nat, a: JointAction) {
    match a
    case Boot(b) => Next(s.boot, t.boot, c, b) && t.locks == s.locks
    case Locks(b) =>
      && c < |s.boot.cores| && TakesLocks(s.boot.cores[c].stage) && t.boot == s.boot
      && LockId(s.boot, c) >= 0 && SpinLocks.NextAs(LockId(s.boot, c), s.locks, t.locks, c, b)
  }

  ghost predicate JointStep(s: Joint, t: Joint) {
    exists c: nat, a: JointAction :: JointNext(s, t, c, a)
  }

  ghost predicate IsJointRun(run: seq<Joint>) {
    && run != [] && Init(run[0].boot) && SpinLocks.Init(run[0].locks)
    && forall k :: 0 <= k < |run| - 1 ==> JointStep(run[k], run[k + 1])
  }

  lemma JointStepKeepsInv(s: Joint, t: Joint, c: nat, a: JointAction)
    requires Inv(s.boot) && SpinLocks.Inv(s.locks) && JointNext(s, t, c, a)
    ensures Inv(t.boot) && SpinLocks.Inv(t.locks)
  {
    hide Inv, SpinLocks.Inv, Next, SpinLocks.NextAs, LockId;
    match a
    case Boot(b) => StepKeepsInv(s.boot, t.boot, c, b);
    case Locks(b) =>
      IdIsIndex(s.boot, c);
      SpinLocks.StepKeepsInv(s.locks, t.locks, c, b);
  }

  lemma {:induction false} JointRunKeepsInv(run: seq<Joint>, k: nat)
    requires IsJointRun(run) && k < |run|
    ensures Inv(run[k].boot) && SpinLocks.Inv(run[k].locks)
  {
    hide Inv, SpinLocks.Inv, JointNext;
    if k == 0 {
      StartIsOk(run[0].boot);
      SpinLocks.StartIsOk(run[0].locks);
    } else {
      JointRunKeepsInv(run, k - 1);
      assert JointStep(run[k - 1], run[k - 1 + 1]);
      var c: nat, a: JointAction :| JointNext(run[k - 1], run[k], c, a);
      JointStepKeepsInv(run[k - 1], run[k], c, a);
    }
  }

  predicate ChecksLock(s: SpinLocks.State, c: nat, l: nat) {
    c < |s.cores| && s.cores[c].stack != [] && SpinLocks.Top(s.cores[c]).phase == SpinLocks.Checking(l)
  }

  predicate SpinsOn(s: SpinLocks.State, c: nat, l: nat) {
    c < |s.cores| && s.cores[c].stack != [] && SpinLocks.Top(s.cores[c]).phase == SpinLocks.Spinning(l)
  }

  lemma CheckOutcome(run: seq<Joint>, k: nat, t: Joint, c: nat, l: nat)
    requires IsJointRun(run) && k < |run| && JointNext(run[k], t, c, Locks(SpinLocks.Proceed)) && ChecksLock(run[k].locks, c, l)
    ensures c < |t.locks.cores|
    ensures t.locks.cores[c].panicked <==> SpinLocks.HoldsGuard(run[k].locks, c, l)
    ensures !t.locks.cores[c].panicked ==> SpinsOn(t.locks, c, l)
  {
    hide Inv, SpinLocks.Inv, LockId, SpinLocks.HoldsGuard;
    JointRunKeepsInv(run, k);
    IdIsIndex(run[k].boot, c);
    SpinLocks.DeadlockCheck(run[k].locks, t.locks, c, l);
  }

  /** While cores come up, in the bootloader and in the kernel, a core finds its own id in a lock exactly when it holds
      the guard. "Deadlock detected" is no false alarm, and no missing one: the check panics exactly in that case, and
      otherwise the core goes on to spin. */
  lemma NoFalseDeadlock(run: seq<Joint>, k: nat, c: nat, l: nat)
    requires IsJointRun(run) && k < |run| && l < |run[k].locks.locks|
    requires c < |run[k].boot.cores| && TakesLocks(run[k].boot.cores[c].stage)
    ensures LockId(run[k].boot, c) >= 0
    ensures run[k].locks.locks[l].lockCore == Some(LockId(run[k].boot, c)) <==> SpinLocks.HoldsGuard(run[k].locks, c, l)
    ensures forall t: Joint :: JointNext(run[k], t, c, Locks(SpinLocks.Proceed)) && ChecksLock(run[k].locks, c, l) ==>
              && (t.locks.cores[c].panicked <==> SpinLocks.HoldsGuard(run[k].locks, c, l))
              && (!t.locks.cores[c].panicked ==> SpinsOn(t.locks, c, l))
  {
    hide Inv, SpinLocks.Inv, LockId;
    forall t: Joint | JointNext(run[k], t, c, Locks(SpinLocks.Proceed)) && ChecksLock(run[k].locks, c, l)
      ensures (t.locks.cores[c].panicked <==> SpinLocks.HoldsGuard(run[k].locks, c, l))
           && (!t.locks.cores[c].panicked ==> SpinsOn(t.locks, c, l))
    {
      CheckOutcome(run, k, t, c, l);
    }
    JointRunKeepsInv(run, k);
    IdIsIndex(run[k].boot, c);
    SpinLocks.LockCoreMeaning(run[k].locks, c, l);
  }

  /** No core is behind the barrier before every core has registered. */
  lemma BarrierHolds(run: seq<State>, k: nat, c: nat, d: nat)
    requires IsRun(run) && k < |run| && c < |run[k].cores| && d < |run[k].cores|
    requires Rank(run[k].cores[c].stage) >= 8
    ensures run[k].total == |run[k].cores| == |run[k].states|
    ensures Rank(run[k].cores[d].stage) >= 7 && run[k].states[d] == Running
  {
    var s := run[k];
    RunKeepsInv(run, k);
    assert CoreOk(s, c) && CoreOk(s, d) && CoreOk(s, 0);
    FullCount(s.cores, 7);
  }

  /** The asserts of `notify_core_online` never fail. */
  lemma CheckInsSucceed(run: seq<State>, k: nat)
    requires IsRun(run) && k < |run|
    ensures !run[k].failed
  {
    RunKeepsInv(run, k);
  }

  /** When the boot block is moved, every core has announced that it is ready and none of its locks is
      held. */
  lemma MoveIsExclusive(run: seq<State>, k: nat, c: nat)
    requires IsRun(run) && k + 1 < |run| && c < |run[k].cores|
    requires !run[k].copied && run[k + 1].copied
    ensures Rank(run[k].cores[c].stage) >= 9 && run[k].cores[c].guards == 0 && !run[k].cores[c].moved
  {
    RunKeepsInv(run, k);
    assert Step(run[k], run[k + 1]);
    var d: nat, a: Action :| Next(run[k], run[k + 1], d, a);
    assert CoreOk(run[k], d) && CoreOk(run[k], c) && CoreOk(run[k], 0);
    FullCount(run[k].cores, 9);
  }

  /** A core that may use the block can take one of its locks, and is back where it was when it drops the guard. While it
      holds guards it does not announce itself, and the first core does not start to wait for the others. */
  lemma GuardsHoldUpTheMove(run: seq<State>, k: nat, c: nat) returns (t: State)
    requires IsRun(run) && k < |run| && c < |run[k].cores| && MayUseBlock(c, run[k].cores[c].stage)
    ensures Next(run[k], t, c, Acquire) && |t.cores| == |run[k].cores| && t.cores[c].guards == run[k].cores[c].guards + 1
    ensures Next(t, run[k], c, Release)
    ensures t.cores[c].stage.Passed? || (c == 0 && t.cores[c].stage.Announced?) ==> forall u: State :: !Next(t, u, c, Advance)
  {
    RunKeepsInv(run, k);
    var s := run[k];
    t := s.(cores := s.cores[c := s.cores[c].(guards := s.cores[c].guards + 1)]);
    assert t.cores[c := s.cores[c]] == s.cores;
  }

  /** From then on no core touches the old boot block: a core that may use a boot block uses the new
      one. Boot memory is reclaimed only after that, and every core that got past the hand-off has
      the new block. */
  lemma OldBlockIsAbandoned(run: seq<State>, k: nat, c: nat)
    requires IsRun(run) && k < |run| && c < |run[k].cores|
    ensures var s := run[k];
      && (s.copied && MayUseBlock(c, s.cores[c].stage) ==> s.cores[c].moved)
      && (s.cores[c].guards > 0 && s.copied ==> s.cores[c].moved)
      && (s.cores[c].moved ==> s.published && s.copied)
      && (s.reclaimed ==> s.copied && s.published && Rank(s.cores[c].stage) >= 9)
      && (Rank(s.cores[c].stage) >= 13 ==> s.cores[c].moved)
  {
    RunKeepsInv(run, k);
    assert CoreOk(run[k], c) && CoreOk(run[k], 0);
    FullCount(run[k].cores, 9);
  }
}
