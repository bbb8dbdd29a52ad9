/** What the operations of the spin lock come to when nothing else happens on the core: which steps are possible in a
    reachable state, and the rounds that lead back to it (libs/lock/src/lib.rs, kernel/src/core_locals.rs). */
module LockRounds {
  import opened MachineInts
  import opened SpinLocks

  // ---------------------------------------------------------------------------------------
  // What is possible
  // ---------------------------------------------------------------------------------------

  ghost predicate Possible(s: State, c: nat, a: Action) {
    exists t: State :: Next(s, t, c, a)
  }

  lemma PossibleIfStep(s: State, c: nat, a: Action)
    requires c < |s.cores| && s.cores[c].stack != [] && LockOf(s.cores[c], a) < |s.locks|
    ensures Possible(s, c, a) <==> CoreStep(c, s.cores[c], a, s.locks[LockOf(s.cores[c], a)]).Some?
  {
    hide CoreStepAs;
    var l := LockOf(s.cores[c], a);
    var r := CoreStep(c, s.cores[c], a, s.locks[l]);
    if r.Some? {
      assert Next(s, State(s.cores[c := r.value.0], s.locks[l := r.value.1]), c, a);
    }
  }

  /** Code that executes an operation can always go on with it, unless it spins on a lock that is taken. */
  lemma OperationsGoOn(run: seq<State>, k: nat, c: nat)
    requires IsRun(run) && k < |run| && c < |run[k].cores| && |run[k].locks| > 0 && !run[k].cores[c].panicked
    ensures var s := run[k]; var p := (s.cores[c].stack != [] && !Top(s.cores[c]).phase.Running?);
      p ==> (Possible(s, c, Proceed) <==>
             !(Top(s.cores[c]).phase.Spinning? && Top(s.cores[c]).phase.lock < |s.locks| && s.locks[Top(s.cores[c]).phase.lock].locked))
  {
    hide GuardsOk, Balanced, Quiet;
    RunKeepsInv(run, k);
    var s := run[k];
    assert CoreOk(s.cores[c], s.locks);
    assert ContextOk(Top(s.cores[c]), s.locks, |s.cores[c].stack| > 1);
    PossibleIfStep(s, c, Proceed);
  }

  /** Code between operations may start those that fit: it may take any lock, try any that is free, drop what it
      holds, be interrupted while the flag is on, and, in a handler without guards, return. */
  lemma OperationsStart(run: seq<State>, k: nat, c: nat, l: nat)
    requires IsRun(run) && k < |run| && c < |run[k].cores| && l < |run[k].locks| && !run[k].cores[c].panicked
    requires run[k].cores[c].stack != [] && Top(run[k].cores[c]).phase.Running?
    ensures var s := run[k]; var core := s.cores[c]; var x := Top(core);
      && Possible(s, c, Lock(l)) && (Possible(s, c, TryLock(l)) <==> !s.locks[l].locked)
      && (Possible(s, c, Drop(l)) <==> l in x.masked || l in x.plain || l in x.tried)
      && (Possible(s, c, Interrupt) <==> core.flag)
      && (Possible(s, c, Return) <==> |core.stack| == 2 && x.masked == {} && x.plain == {} && x.tried == {})
      && (Possible(s, c, Enable) <==> |core.stack| == 1 && core.manual > 0)
  {
    hide GuardsOk, ContextOk, Quiet;
    RunKeepsInv(run, k);
    var s := run[k];
    assert CoreOk(s.cores[c], s.locks);
    PossibleIfStep(s, c, Lock(l));
    PossibleIfStep(s, c, TryLock(l));
    PossibleIfStep(s, c, Drop(l));
    PossibleIfStep(s, c, Interrupt);
    PossibleIfStep(s, c, Return);
    PossibleIfStep(s, c, Enable);
  }

  /** A core that spins on a free lock takes it, and then has its guard. */
  lemma SpinnersTakeFreeLocks(run: seq<State>, k: nat, c: nat, l: nat, t: State)
    requires IsRun(run) && k < |run| && c < |run[k].cores| && run[k].cores[c].stack != []
    requires Top(run[k].cores[c]).phase == Spinning(l) && Next(run[k], t, c, Proceed)
    ensures l < |run[k].locks| && !run[k].locks[l].locked
    ensures c < |t.cores| && t.cores[c].stack != [] && l < |t.locks| && t.locks[l].locked
    ensures Possible(t, c, Proceed) && forall u: State :: Next(t, u, c, Proceed) ==> HoldsGuard(u, c, l)
  {
    hide ContextOk, Balanced, Quiet, GuardsOk, HoldsGuard;
    PossibleIfStep(t, c, Proceed);
    forall u: State | Next(t, u, c, Proceed) ensures HoldsGuard(u, c, l) {
      GuardIsThere(t, u, c, l);
    }
  }

  lemma GuardIsThere(t: State, u: State, c: nat, l: nat)
    requires Next(t, u, c, Proceed) && Top(t.cores[c]).phase == Owning(l, true)
    ensures HoldsGuard(u, c, l)
  {
    var i := |u.cores[c].stack| - 1;
    assert InRange(u.cores, c, i) && InSets(u.cores[c].stack[i], l);
  }

  // ---------------------------------------------------------------------------------------
  // Steps of one core on one lock
  // ---------------------------------------------------------------------------------------

  datatype Local = Local(core: Core, k: LockState)

  /** The step works on lock `l`, or on no lock at all. */
  ghost predicate LocalStep(c: nat, l: nat, p: Local, a: Action, q: Local) {
    && p.core.stack != []
    && if LockOf(p.core, a) == l then CoreStep(c, p.core, a, p.k) == Some((q.core, q.k))
       else LockOf(p.core, a) == 0 && q.k == p.k && forall k: LockState :: CoreStep(c, p.core, a, k) == Some((q.core, k))
  }

  ghost predicate LocalRun(c: nat, l: nat, states: seq<Local>, what: seq<Action>) {
    |states| == |what| + 1 && forall i :: 0 <= i < |what| ==> LocalStepAt(c, l, states, what, i)
  }

  ghost predicate LocalStepAt(c: nat, l: nat, states: seq<Local>, what: seq<Action>, i: nat)
    requires |states| == |what| + 1 && i < |what|
  {
    LocalStep(c, l, states[i], what[i], states[i + 1])
  }

  function With(s: State, c: nat, l: nat, p: Local): State
    requires c < |s.cores| && l < |s.locks|
  {
    State(s.cores[c := p.core], s.locks[l := p.k])
  }

  lemma LocalStepIsStep(s: State, c: nat, l: nat, p: Local, a: Action, q: Local)
    requires c < |s.cores| && l < |s.locks| && LocalStep(c, l, p, a, q)
    ensures Next(With(s, c, l, p), With(s, c, l, q), c, a)
  {
    hide CoreStepAs;
    var now, m := With(s, c, l, p), LockOf(p.core, a);
    assert now.cores[c := q.core] == s.cores[c := q.core];
    if m == l {
      assert now.locks[l := q.k] == s.locks[l := q.k];
    } else {
      assert now.locks[m := now.locks[m]] == now.locks;
      assert CoreStep(c, p.core, a, now.locks[m]) == Some((q.core, now.locks[m]));
    }
  }

  /** Steps of one core on one lock, as the end of a run. */
  lemma {:induction false} LocalRunIsRun(run: seq<State>, c: nat, l: nat, states: seq<Local>, what: seq<Action>, n: nat)
    returns (more: seq<State>)
    requires IsRun(run) && c < |run[|run| - 1].cores| && l < |run[|run| - 1].locks|
    requires LocalRun(c, l, states, what) && n <= |what|
    requires states[0] == Local(run[|run| - 1].cores[c], run[|run| - 1].locks[l])
    ensures IsRun(run + more) && |more| == n
    ensures forall i :: 0 <= i < n ==> more[i] == With(run[|run| - 1], c, l, states[i + 1])
  {
    hide Next, LocalStep;
    var s := run[|run| - 1];
    if n == 0 {
      more := [];
      assert run + more == run;
    } else {
      var before := LocalRunIsRun(run, c, l, states, what, n - 1);
      var now := With(s, c, l, states[n - 1]);
      assert With(s, c, l, states[0]) == s;
      assert (run + before)[|run + before| - 1] == now;
      assert LocalStepAt(c, l, states, what, n - 1);
      LocalStepIsStep(s, c, l, states[n - 1], what[n - 1], states[n]);
      RunGoesOn(run + before, With(s, c, l, states[n]), c, what[n - 1]);
      more := before + [With(s, c, l, states[n])];
      assert run + more == run + before + [With(s, c, l, states[n])];
    }
  }

  // ---------------------------------------------------------------------------------------
  // Rounds
  // ---------------------------------------------------------------------------------------

  /** The core is between operations, and the lock is free. */
  ghost predicate Ready(core: Core, k: LockState, l: nat) {
    && core.stack != [] && !core.panicked && Top(core).phase.Running? && !InSets(Top(core), l)
    && !k.locked && k.lockCore == None && k.owner == None
    && (core.flag <==> core.depth == 0 && core.inInterrupt == 0)
  }

  lemma ReachableIsReady(run: seq<State>, k: nat, c: nat, l: nat)
    requires IsRun(run) && k < |run| && c < |run[k].cores| && l < |run[k].locks| && !run[k].cores[c].panicked
    requires run[k].cores[c].stack != [] && Top(run[k].cores[c]).phase.Running? && !run[k].locks[l].locked
    ensures Ready(run[k].cores[c], run[k].locks[l], l)
    ensures run[k].cores[c].inInterrupt == 0 <==> |run[k].cores[c].stack| == 1
  {
    hide ContextOk, Quiet;
    RunKeepsInv(run, k);
    FlagFollowsCounters(run, k, c);
    var s := run[k];
    assert CoreOk(s.cores[c], s.locks) && LockOk(s.cores, s.locks[l], l);
    assert ClaimOk(s.cores, s.locks, c, |s.cores[c].stack| - 1, l);
  }

  lemma RunsJoin(c: nat, l: nat, states: seq<Local>, what: seq<Action>, states': seq<Local>, what': seq<Action>)
    requires LocalRun(c, l, states, what) && LocalRun(c, l, states', what') && states[|what|] == states'[0]
    ensures LocalRun(c, l, states + states'[1..], what + what')
  {
    hide LocalStep;
    var all, made := states + states'[1..], what + what';
    forall i | 0 <= i < |made| ensures LocalStepAt(c, l, all, made, i) {
      if i < |what| {
        assert LocalStepAt(c, l, states, what, i);
      } else {
        assert LocalStepAt(c, l, states', what', i - |what|);
      }
    }
  }

  /** The core with a guard of the non-preemptible lock `l`. */
  ghost function Masked(c: nat, l: nat, core: Core, k: LockState): Local
    requires core.stack != []
  {
    Local(WithTop(core.(flag := false, depth := core.depth + 1), Top(core).(masked := Top(core).masked + {l})),
          k.(locked := true, owner := Some((c, |core.stack| - 1)), lockCore := Some(c)))
  }

  /** `lock` of a non-preemptible lock. */
  lemma TakeMasked(c: nat, l: nat, core: Core, k: LockState) returns (states: seq<Local>, what: seq<Action>)
    requires Ready(core, k, l) && k.nonPreemptible && core.depth < U32_MAX
    ensures LocalRun(c, l, states, what) && what == [Lock(l), Proceed, Proceed, Proceed, Proceed]
    ensures states[0] == Local(core, k) && states[5] == Masked(c, l, core, k)
  {
    var p1 := Local(To(core.(flag := false), Masking(l)), k);
    var p2 := Local(To(p1.core.(depth := core.depth + 1), Checking(l)), k);
    var p3 := Local(To(p2.core, Spinning(l)), k);
    var p4 := Local(To(p3.core, Owning(l, true)), k.(locked := true, owner := Some((c, |core.stack| - 1))));
    var p5 := Masked(c, l, core, k);
    assert p5.core.stack == WithTop(p4.core, Top(p5.core)).stack;
    assert LocalStep(c, l, Local(core, k), Lock(l), p1);
    assert LocalStep(c, l, p1, Proceed, p2);
    assert LocalStep(c, l, p2, Proceed, p3);
    assert LocalStep(c, l, p3, Proceed, p4);
    assert LocalStep(c, l, p4, Proceed, p5);
    hide LocalStep;
    states, what := [Local(core, k), p1, p2, p3, p4, p5], [Lock(l), Proceed, Proceed, Proceed, Proceed];
  }

  /** The drop of its guard. The interrupt flag comes back when the counter goes back to 0. */
  lemma DropMasked(c: nat, l: nat, core: Core, k: LockState) returns (states: seq<Local>, what: seq<Action>)
    requires Ready(core, k, l) && k.nonPreemptible
    ensures LocalRun(c, l, states, what) && states[0] == Masked(c, l, core, k) && states[|what|] == Local(core, k)
  {
    var x, p5 := Top(core), Masked(c, l, core, k);
    assert Top(p5.core).masked - {l} == x.masked && x.plain - {l} == x.plain && x.tried - {l} == x.tried;
    var p6 := Local(WithTop(p5.core, x.(phase := Clearing(l, true))), p5.k.(lockCore := None));
    var p7 := Local(To(p6.core, Releasing), k);
    assert LocalStep(c, l, p5, Drop(l), p6);
    assert LocalStep(c, l, p6, Proceed, p7);
    assert To(p7.core, Running).stack == core.stack;
    if core.flag {
      var p8 := Local(To(p7.core.(depth := core.depth), Unmasking), k);
      assert To(p8.core, Running).stack == core.stack;
      assert LocalStep(c, l, p7, Proceed, p8);
      assert LocalStep(c, l, p8, Proceed, Local(core, k));
      states, what := [p5, p6, p7, p8, Local(core, k)], [Drop(l), Proceed, Proceed, Proceed];
    } else {
      assert LocalStep(c, l, p7, Proceed, Local(core, k));
      states, what := [p5, p6, p7, Local(core, k)], [Drop(l), Proceed, Proceed];
    }
  }

  /** `lock` and the drop of the guard, for a non-preemptible lock. Interrupts are off in between. */
  lemma MaskedRound(c: nat, l: nat, core: Core, k: LockState) returns (states: seq<Local>, what: seq<Action>)
    requires Ready(core, k, l) && k.nonPreemptible && core.depth < U32_MAX
    ensures LocalRun(c, l, states, what) && |what| >= 5 && states[0] == Local(core, k) == states[|what|]
    ensures what[0] == Lock(l) && what[1] == what[2] == what[3] == what[4] == Proceed
    ensures states[5].core.stack != [] && l in Top(states[5].core).masked && !states[5].core.flag && states[5].k.locked
  {
    hide LocalStep;
    var taken, first := TakeMasked(c, l, core, k);
    var dropped, second := DropMasked(c, l, core, k);
    RunsJoin(c, l, taken, first, dropped, second);
    states, what := taken + dropped[1..], first + second;
  }

  /** The core with a guard of the preemptible lock `l`. */
  ghost function Plain(c: nat, l: nat, core: Core, k: LockState): Local
    requires core.stack != []
  {
    Local(WithTop(core, Top(core).(plain := Top(core).plain + {l})),
          k.(locked := true, owner := Some((c, |core.stack| - 1)), lockCore := Some(c)))
  }

  /** `lock` of a preemptible lock, outside of interrupt handlers. */
  lemma TakePlain(c: nat, l: nat, core: Core, k: LockState) returns (states: seq<Local>, what: seq<Action>)
    requires Ready(core, k, l) && !k.nonPreemptible && core.inInterrupt == 0
    ensures LocalRun(c, l, states, what) && what == [Lock(l), Proceed, Proceed, Proceed]
    ensures states[0] == Local(core, k) && states[4] == Plain(c, l, core, k)
  {
    var p1 := Local(To(core, Checking(l)), k);
    var p2 := Local(To(p1.core, Spinning(l)), k);
    var p3 := Local(To(p2.core, Owning(l, true)), k.(locked := true, owner := Some((c, |core.stack| - 1))));
    var p4 := Plain(c, l, core, k);
    assert p4.core.stack == WithTop(p3.core, Top(p4.core)).stack;
    assert LocalStep(c, l, Local(core, k), Lock(l), p1);
    assert LocalStep(c, l, p1, Proceed, p2);
    assert LocalStep(c, l, p2, Proceed, p3);
    assert LocalStep(c, l, p3, Proceed, p4);
    hide LocalStep;
    states, what := [Local(core, k), p1, p2, p3, p4], [Lock(l), Proceed, Proceed, Proceed];
  }

  /** The drop of its guard. */
  lemma DropPlain(c: nat, l: nat, core: Core, k: LockState) returns (states: seq<Local>, what: seq<Action>)
    requires Ready(core, k, l) && !k.nonPreemptible
    ensures LocalRun(c, l, states, what) && what == [Drop(l), Proceed]
    ensures states[0] == Plain(c, l, core, k) && states[2] == Local(core, k)
  {
    var x, p4 := Top(core), Plain(c, l, core, k);
    assert x.masked - {l} == x.masked && Top(p4.core).plain - {l} == x.plain && x.tried - {l} == x.tried;
    var p5 := Local(WithTop(p4.core, x.(phase := Clearing(l, true))), p4.k.(lockCore := None));
    assert To(p5.core, Running).stack == core.stack;
    assert LocalStep(c, l, p4, Drop(l), p5);
    assert LocalStep(c, l, p5, Proceed, Local(core, k));
    states, what := [p4, p5, Local(core, k)], [Drop(l), Proceed];
  }

  lemma PlainRound(c: nat, l: nat, core: Core, k: LockState) returns (states: seq<Local>, what: seq<Action>)
    requires Ready(core, k, l) && !k.nonPreemptible && core.inInterrupt == 0
    ensures LocalRun(c, l, states, what) && |what| >= 4 && states[0] == Local(core, k) == states[|what|]
    ensures states[4] == Plain(c, l, core, k)
  {
    hide LocalStep;
    var taken, first := TakePlain(c, l, core, k);
    var dropped, second := DropPlain(c, l, core, k);
    RunsJoin(c, l, taken, first, dropped, second);
    states, what := taken + dropped[1..], first + second;
  }

  /** `try_lock_unsafe` and the drop of its guard. */
  lemma TriedRound(c: nat, l: nat, core: Core, k: LockState) returns (states: seq<Local>, what: seq<Action>)
    requires Ready(core, k, l)
    ensures LocalRun(c, l, states, what) && |what| >= 2 && states[0] == Local(core, k) == states[|what|]
    ensures what[0] == TryLock(l) && what[1] == Proceed
    ensures states[2].core.stack != [] && l in Top(states[2].core).tried && states[2].core.flag == core.flag && states[2].k.locked
  {
    var x := Top(core);
    var i := |core.stack| - 1;
    var p1 := Local(To(core, Owning(l, false)), k.(locked := true, owner := Some((c, i))));
    var p2 := Local(WithTop(p1.core, x.(tried := x.tried + {l})), p1.k.(lockCore := Some(c)));
    var p3 := Local(WithTop(p2.core, x.(phase := Clearing(l, false))), p2.k.(lockCore := None));
    assert To(p3.core, Running).stack == core.stack;
    assert x.masked - {l} == x.masked && x.plain - {l} == x.plain && x.tried + {l} - {l} == x.tried;
    states := [Local(core, k), p1, p2, p3, Local(core, k)];
    what := [TryLock(l), Proceed, Drop(l), Proceed];
    assert LocalStep(c, l, Local(core, k), TryLock(l), p1);
    assert LocalStep(c, l, p1, Proceed, p2);
    assert LocalStep(c, l, p2, Drop(l), p3);
    assert LocalStep(c, l, p3, Proceed, Local(core, k));
  }

  /** An interrupt whose handler does nothing. */
  lemma InterruptRound(c: nat, l: nat, core: Core, k: LockState) returns (states: seq<Local>, what: seq<Action>)
    requires core.stack != [] && !core.panicked && Top(core).phase.Running? && core.flag && core.inInterrupt == 0
    ensures LocalRun(c, l, states, what) && |what| == 4 && states[0] == Local(core, k) == states[4]
    ensures what[0] == Interrupt && |states[2].core.stack| == |core.stack| + 1 && !states[2].core.flag && states[2].core.inInterrupt == 1
  {
    var p1 := Local(core.(stack := core.stack + [Context(Entered, {}, {}, {})], flag := false), k);
    var p2 := Local(To(p1.core.(inInterrupt := 1), Running), k);
    var p3 := Local(To(p2.core.(inInterrupt := 0), Returning), k);
    states := [Local(core, k), p1, p2, p3, Local(core, k)];
    what := [Interrupt, Proceed, Return, Proceed];
    assert p3.core.stack[..|core.stack|] == core.stack;
    assert LocalStep(c, l, Local(core, k), Interrupt, p1);
    assert LocalStep(c, l, p1, Proceed, p2);
    assert LocalStep(c, l, p2, Return, p3);
    assert LocalStep(c, l, p3, Proceed, Local(core, k));
  }

  /** In any reachable state a core that is between operations can take a free lock, hold its guard, drop it, and is
      back where it was, and so is everything else. Non-preemptible locks need room in the counter, preemptible ones that no
      handler runs. */
  lemma LockAndDrop(run: seq<State>, c: nat, l: nat) returns (more: seq<State>, at: nat)
    requires IsRun(run)
    requires var s := run[|run| - 1]; c < |s.cores| && l < |s.locks| && !s.cores[c].panicked && !s.locks[l].locked
    requires var core := run[|run| - 1].cores[c];
      && core.stack != [] && Top(core).phase.Running?
      && if run[|run| - 1].locks[l].nonPreemptible then core.depth < 0xffff_ffff else |core.stack| == 1
    ensures IsRun(run + more) && at < |more| && HoldsGuard(more[at], c, l) && l < |more[at].locks| && more[at].locks[l].locked
    ensures more[|more| - 1] == run[|run| - 1]
  {
    var s := run[|run| - 1];
    ReachableIsReady(run, |run| - 1, c, l);
    var states, what;
    if s.locks[l].nonPreemptible {
      states, what := MaskedRound(c, l, s.cores[c], s.locks[l]);
      at := 4;
    } else {
      states, what := PlainRound(c, l, s.cores[c], s.locks[l]);
      at := 3;
    }
    more := LocalRunIsRun(run, c, l, states, what, |what|);
    RoundEnds(s, c, l, states[at + 1]);
  }

  /** The same for `try_lock_unsafe`, without conditions. */
  lemma TryLockAndDrop(run: seq<State>, c: nat, l: nat) returns (more: seq<State>, at: nat)
    requires IsRun(run)
    requires var s := run[|run| - 1]; c < |s.cores| && l < |s.locks| && !s.cores[c].panicked && !s.locks[l].locked
    requires run[|run| - 1].cores[c].stack != [] && Top(run[|run| - 1].cores[c]).phase.Running?
    ensures IsRun(run + more) && at < |more| && HoldsGuard(more[at], c, l) && l < |more[at].locks| && more[at].locks[l].locked
    ensures more[|more| - 1] == run[|run| - 1]
  {
    var s := run[|run| - 1];
    ReachableIsReady(run, |run| - 1, c, l);
    var states, what := TriedRound(c, l, s.cores[c], s.locks[l]);
    at := 1;
    more := LocalRunIsRun(run, c, l, states, what, |what|);
    RoundEnds(s, c, l, states[2]);
  }

  lemma RoundEnds(s: State, c: nat, l: nat, p: Local)
    requires c < |s.cores| && l < |s.locks| && p.core.stack != [] && InSets(Top(p.core), l)
    ensures With(s, c, l, Local(s.cores[c], s.locks[l])) == s
    ensures HoldsGuard(With(s, c, l, p), c, l)
  {
    var t := With(s, c, l, p);
    assert InRange(t.cores, c, |p.core.stack| - 1) && InSets(t.cores[c].stack[|p.core.stack| - 1], l);
  }

  /** In any reachable state an interrupt that is let through finds interrupts off, and if its handler does nothing, everything
      is as before. */
  lemma InterruptAndReturn(run: seq<State>, c: nat) returns (more: seq<State>)
    requires IsRun(run)
    requires var s := run[|run| - 1]; c < |s.cores| && |s.locks| > 0 && !s.cores[c].panicked && s.cores[c].flag
    requires run[|run| - 1].cores[c].stack != [] && Top(run[|run| - 1].cores[c]).phase.Running?
    ensures IsRun(run + more) && |more| == 4 && more[3] == run[|run| - 1]
    ensures c < |more[1].cores| && |more[1].cores[c].stack| == 2 && !more[1].cores[c].flag && more[1].cores[c].inInterrupt == 1
  {
    hide GuardsOk, ContextOk, Quiet, LocalRun;
    var s := run[|run| - 1];
    RunKeepsInv(run, |run| - 1);
    assert CoreOk(s.cores[c], s.locks);
    var states, what := InterruptRound(c, 0, s.cores[c], s.locks[0]);
    more := LocalRunIsRun(run, c, 0, states, what, 4);
    assert With(s, c, 0, Local(s.cores[c], s.locks[0])) == s;
  }
}
