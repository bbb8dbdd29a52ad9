/** The boot process gets done: from every state that it can reach it can go on until every core uses the new boot block and
    boot memory is reclaimed (kernel/src/processors.rs, uefi_bootloader/src/main.rs). */
module BootCompletions {
  import opened MachineInts
  import opened BootProtocols

  /** Every core uses the new boot block and may take its locks, and boot memory went back to the free memory. */
  predicate Complete(s: State) {
    s.reclaimed && forall c :: 0 <= c < |s.cores| ==> CoreIsDone(s, c)
  }

  predicate CoreIsDone(s: State, c: nat)
    requires c < |s.cores|
  {
    s.cores[c].moved && MayUseBlock(c, s.cores[c].stage)
  }

  // ---------------------------------------------------------------------------------------
  // How far there is to go
  // ---------------------------------------------------------------------------------------

  /** Steps that are left on one core, at most. */
  function Left(core: Core): nat { core.guards + 2 * (14 - Rank(core.stage)) }

  function AllLeft(cores: seq<Core>): nat {
    if cores == [] then 0 else AllLeft(cores[..|cores| - 1]) + Left(cores[|cores| - 1])
  }

  lemma {:induction false} LeftChanges(cores: seq<Core>, c: nat, core: Core)
    requires c < |cores|
    ensures AllLeft(cores[c := core]) == AllLeft(cores) + Left(core) - Left(cores[c])
  {
    var n := |cores| - 1;
    if c < n {
      assert cores[c := core][..n] == cores[..n][c := core];
      LeftChanges(cores[..n], c, core);
    } else {
      assert cores[c := core][..n] == cores[..n];
    }
  }

  /** Waiting of the launch loop counts as a step. */
  function Remaining(s: State): nat { AllLeft(s.cores) + if s.awaiting then 1 else 0 }

  /** A core is behind a stage or not, and if some are not, one of them can be found. */
  lemma {:induction false} SomebodyIsBehind(cores: seq<Core>, rank: nat) returns (c: nat)
    requires Count(cores, rank) < |cores|
    ensures c < |cores| && Rank(cores[c].stage) < rank
  {
    var n := |cores| - 1;
    if Rank(cores[n].stage) < rank { c := n; } else { c := SomebodyIsBehind(cores[..n], rank); }
  }

  // ---------------------------------------------------------------------------------------
  // Somebody can go on
  // ---------------------------------------------------------------------------------------

  /** The step can be taken, and brings the end closer. */
  ghost predicate Progress(s: State, t: State, c: nat, a: Action) {
    Next(s, t, c, a) && Remaining(t) < Remaining(s)
  }

  /** A core got to a later stage, and no other core moved. */
  ghost predicate StageUp(s: State, t: State, d: int) {
    && 0 <= d < |s.cores| == |t.cores| && t.cores == s.cores[d := t.cores[d]]
    && Rank(t.cores[d].stage) > Rank(s.cores[d].stage) && t.cores[d].guards == s.cores[d].guards
  }

  /** Outside of the launch loop a step moves its own core to a later stage. */
  lemma StageGrows(s: State, c: nat)
    requires Inv(s) && c < |s.cores| && Advanced(s, c).Some? && !s.cores[c].stage.Launching?
    ensures StageUp(s, Advanced(s, c).value, c) && Advanced(s, c).value.awaiting == s.awaiting
  {
    hide Count, Advanced, StageUp;
    assert CoreOk(s, c);
    var p := s.cores[c].stage;
    if p.Started? || p.Loading? || p.Early? || p.InKernel? {
      FirstStagesGrow(s, c);
    } else if p.Online? || p.Waiting? || p.Passed? || p.Announced? {
      BarrierStagesGrow(s, c);
    } else {
      LastStagesGrow(s, c);
    }
  }

  lemma FirstStagesGrow(s: State, c: nat)
    requires c < |s.cores| == |s.states| && Advanced(s, c).Some?
    requires var p := s.cores[c].stage; p.Started? || p.Loading? || p.Early? || (p.InKernel? && (c == 0 || s.states[c].Launched?))
    ensures StageUp(s, Advanced(s, c).value, c) && Advanced(s, c).value.awaiting == s.awaiting
  {
  }

  lemma BarrierStagesGrow(s: State, c: nat)
    requires c < |s.cores| == |s.states| && Advanced(s, c).Some?
    requires var p := s.cores[c].stage; p.Online? || p.Waiting? || p.Passed? || p.Announced?
    ensures StageUp(s, Advanced(s, c).value, c) && Advanced(s, c).value.awaiting == s.awaiting
  {
  }

  lemma LastStagesGrow(s: State, c: nat)
    requires c < |s.cores| == |s.states| && Advanced(s, c).Some?
    requires var p := s.cores[c].stage; p.Off? || p.Collecting? || p.Copied? || p.Informed? || p.Switched? || p.Finished?
    ensures StageUp(s, Advanced(s, c).value, c) && Advanced(s, c).value.awaiting == s.awaiting
  {
  }

  /** In the launch loop, a core is started, or the loop goes on. */
  lemma LoopGoesOn(s: State)
    requires Inv(s) && s.cores[0].stage.Launching? && Advanced(s, 0).Some?
    ensures var t := Advanced(s, 0).value;
      || (t.cores == s.cores && s.awaiting && !t.awaiting)
      || (exists d :: 0 <= d < |s.cores| && StageUp(s, t, d) && !s.awaiting)
  {
    hide Count;
    var d := s.launched + 1;
    assert CoreOk(s, 0);
    if !s.awaiting {
      if d < |s.cores| { assert CoreOk(s, d) && StageUp(s, Advanced(s, 0).value, d); } else { assert StageUp(s, Advanced(s, 0).value, 0); }
    }
  }

  /** Core `c` can take its next step of the boot process. */
  lemma CoreGoesOn(s: State, c: nat) returns (t: State)
    requires Inv(s) && c < |s.cores| && Advanced(s, c).Some?
    ensures Progress(s, t, c, Advance)
  {
    hide Count, Advanced, AllLeft;
    t := Advanced(s, c).value;
    assert CoreOk(s, c);
    if s.cores[c].stage.Launching? {
      LoopGoesOn(s);
      if t.cores != s.cores {
        var d :| 0 <= d < |s.cores| && StageUp(s, t, d) && !s.awaiting;
        LeftChanges(s.cores, d, t.cores[d]);
      }
    } else {
      StageGrows(s, c);
      LeftChanges(s.cores, c, t.cores[c]);
    }
  }

  lemma GuardIsDropped(s: State, c: nat) returns (t: State)
    requires Inv(s) && c < |s.cores| && s.cores[c].guards > 0
    ensures Progress(s, t, c, Release)
  {
    hide Count;
    assert CoreOk(s, c);
    t := s.(cores := s.cores[c := s.cores[c].(guards := s.cores[c].guards - 1)]);
    LeftChanges(s.cores, c, t.cores[c]);
  }

  /** Cores come up one by one until all are online. */
  lemma LaunchGoesOn(s: State) returns (t: State, c: nat)
    requires Inv(s) && Rank(s.cores[0].stage) <= 5
    ensures Progress(s, t, c, Advance)
  {
    hide Count, Progress;
    assert CoreOk(s, 0) && CoreOk(s, s.launched);
    c := if s.awaiting && Rank(s.cores[s.launched].stage) < 6 then s.launched else 0;
    t := CoreGoesOn(s, c);
  }

  /** Which core can go on when the first one is online. */
  lemma OnlineGoesOn(s: State) returns (t: State, c: nat)
    requires Inv(s) && 6 <= Rank(s.cores[0].stage) <= 13 && forall c :: 0 <= c < |s.cores| ==> s.cores[c].guards == 0
    ensures Progress(s, t, c, Advance)
  {
    hide Count, Progress;
    assert CoreOk(s, 0);
    c := 0;
    if s.cores[0].stage.Waiting? && s.online != s.total {
      FullCount(s.cores, 7);
      c := SomebodyIsBehind(s.cores, 7);
    } else if s.cores[0].stage.Collecting? && s.ready != s.total {
      FullCount(s.cores, 9);
      c := SomebodyIsBehind(s.cores, 9);
    }
    assert CoreOk(s, c);
    t := CoreGoesOn(s, c);
  }

  /** The first core is done, another one is not. */
  lemma OthersGoOn(s: State, c: nat) returns (t: State)
    requires Inv(s) && s.cores[0].stage.Finished? && c < |s.cores| && !CoreIsDone(s, c)
    ensures Progress(s, t, c, Advance)
  {
    hide Count, Progress;
    assert CoreOk(s, 0) && CoreOk(s, c);
    FullCount(s.cores, 9);
    t := CoreGoesOn(s, c);
  }

  /** As long as the boot process is not complete, some core can take a step towards the end. */
  lemma SomeCoreGoesOn(s: State) returns (t: State, c: nat, a: Action)
    requires Inv(s) && !Complete(s)
    ensures Progress(s, t, c, a)
  {
    hide Count, Progress;
    assert CoreOk(s, 0);
    a := Advance;
    if d :| 0 <= d < |s.cores| && s.cores[d].guards > 0 {
      c, a := d, Release;
      t := GuardIsDropped(s, c);
    } else if Rank(s.cores[0].stage) <= 5 {
      t, c := LaunchGoesOn(s);
    } else if !s.cores[0].stage.Finished? {
      t, c := OnlineGoesOn(s);
    } else {
      c :| c < |s.cores| && !CoreIsDone(s, c);
      t := OthersGoOn(s, c);
    }
  }

  // ---------------------------------------------------------------------------------------
  // The end
  // ---------------------------------------------------------------------------------------

  lemma RunGoesOn(run: seq<State>, t: State, c: nat, a: Action)
    requires IsRun(run) && Next(run[|run| - 1], t, c, a)
    ensures IsRun(run + [t])
  {
    hide Next;
    var all := run + [t];
    forall k | 0 <= k < |all| - 1 ensures Step(all[k], all[k + 1]) {
      if k < |run| - 1 {
        assert Step(run[k], run[k + 1]);
      } else {
        assert Next(all[k], all[k + 1], c, a);
      }
    }
  }

  /** Every run, with any number of cores and however far it has got, can be continued to the end: no interleaving gets the
      boot process stuck. */
  lemma {:induction false} EveryRunCanComplete(run: seq<State>) returns (more: seq<State>)
    requires IsRun(run)
    ensures IsRun(run + more) && Complete((run + more)[|run + more| - 1])
    decreases Remaining(run[|run| - 1])
  {
    hide Inv, Next, Complete;
    RunKeepsInv(run, |run| - 1);
    if Complete(run[|run| - 1]) {
      more := [];
      assert run + more == run;
    } else {
      var t, c, a := SomeCoreGoesOn(run[|run| - 1]);
      RunGoesOn(run, t, c, a);
      var rest := EveryRunCanComplete(run + [t]);
      more := [t] + rest;
      assert run + more == run + [t] + rest;
    }
  }

  /** So there is a complete run for every number of cores. */
  lemma SomeRunCompletes(n: nat) returns (run: seq<State>)
    requires n > 0
    ensures IsRun(run) && |run[0].cores| == n && Complete(run[|run| - 1])
  {
    hide Complete;
    var cores := [Core(Loading, None, false, 0)] + seq(n - 1, c => Core(Off, None, false, 0));
    var s := State(cores, 0, 0, 0, seq(n, c => Absent), 0, false, 0, 0, false, false, false, false);
    assert IsRun([s]);
    var more := EveryRunCanComplete([s]);
    run := [s] + more;
  }
}
