/** An uncancelled command always comes to its end: in every run, whatever other nexuses send in its
    windows, it is reported GOOD with its last data phase and not before. */
module TargetProgress {
  import opened Scsi
  import opened TargetDriver
  import opened TargetProtocol
  import opened TargetSafety

  /** The number of data phases for n bytes. */
  function PhasesFor(n: nat): nat {
    (n + DATA_SIZE - 1) / DATA_SIZE
  }

  function DataPhases(steps: seq<Step>): nat {
    if |steps| == 0 then 0 else (if steps[0].DataDone? then 1 else 0) + DataPhases(steps[1..])
  }

  /** Some command is outstanding that no cancel has hit. */
  predicate Undisturbed(s: System) {
    s.bus.Held? || s.driver.working
  }

  function Owner(s: System): Job
    requires Inv(s) && Undisturbed(s)
  {
    if s.bus.Held? then s.bus.job else s.windows[0].job
  }

  /** The log has grown by refusals of other commands only. */
  predicate OnlyRefusals(before: seq<Event>, after: seq<Event>) {
    && before <= after
    && forall i :: |before| <= i < |after| ==> after[i].Done? && after[i].status == Busy && after[i].moved == []
  }

  /** The command outstanding in s is still outstanding in e, after so many more data phases. */
  predicate StillUnderWay(s: System, e: System, phases: nat)
    requires Inv(s) && Undisturbed(s)
  {
    && Inv(e) && Undisturbed(e)
    && Owner(e).nexus == Owner(s).nexus && Owner(e).cdb == Owner(s).cdb
    && e.driver.residue == s.driver.residue - DATA_SIZE * phases
    && OnlyRefusals(s.log, e.log)
  }

  /** The command outstanding in s has just been reported GOOD in e, and the driver is idle. */
  predicate JustCompleted(s: System, e: System)
    requires Inv(s) && Undisturbed(s)
  {
    && Inv(e) && e.bus.Free? && e.windows == [] && !e.driver.busy && !e.driver.working
    && |e.log| > 0 && OnlyRefusals(s.log, e.log[..|e.log| - 1])
    && e.log[|e.log| - 1] == Done(Owner(s).nexus, Owner(s).cdb, Good, Expected(Owner(s).cdb))
  }

  /** While a command waits in its window, any command at all may come in, and is refused. */
  lemma OthersAreRefused(s: System, n: nat, cdb: Cdb, noDisconnects: bool)
    requires Inv(s) && s.bus.Free? && s.windows != []
    ensures Enabled(s, Receive(n, cdb, noDisconnects))
    ensures Apply(s, Receive(n, cdb, noDisconnects)) == s.(log := s.log + [Done(n, cdb, Busy, [])])
  {
  }

  /** One data phase either completes the command or lowers the residue by a full buffer. */
  lemma DataPhaseResult(s: System)
    requires Inv(s) && s.bus.Held? && s.bus.phase.Data?
    ensures var s' := ApplyDataDone(s); var j := s.bus.job;
      && Inv(s')
      && if s.driver.residue <= DATA_SIZE
         then s'.bus.Free? && !s'.driver.busy && s'.log == s.log + [Done(j.nexus, j.cdb, Good, Expected(j.cdb))]
         else s'.bus.Held? && s'.log == s.log && s'.driver.residue == s.driver.residue - DATA_SIZE
              && s'.bus.job.nexus == j.nexus && s'.bus.job.cdb == j.cdb && s'.bus.job.noDisconnects == j.noDisconnects
              && (if j.noDisconnects then s'.bus.phase.Data? else s'.bus.phase.Disconnecting?)
  {
    hide WindowFaithful, Chunks;
    InvDataDone(s);
  }

  lemma UndisturbedStep(s: System, step: Step)
    requires Inv(s) && Undisturbed(s) && Enabled(s, step) && !step.Cancel?
    ensures !(step.DataDone? && s.driver.residue <= DATA_SIZE) ==>
      var e := Apply(s, step);
      Inv(e) && Undisturbed(e) && e.driver.residue == s.driver.residue - if step.DataDone? then DATA_SIZE else 0
    ensures if step.DataDone? && s.driver.residue <= DATA_SIZE then JustCompleted(s, Apply(s, step))
            else StillUnderWay(s, Apply(s, step), if step.DataDone? then 1 else 0)
  {
    hide Chunks, LogSound;
    InvStep(s, step);
    if step.DataDone? {
      DataPhaseResult(s);
    }
  }

  lemma NotYetMoved(s: System)
    requires Inv(s) && Undisturbed(s)
    ensures s.driver.residue > 0 && StillUnderWay(s, s, 0)
  {
  }

  lemma UnderWayCompose(s: System, s1: System, e: System, phases: nat, more: nat)
    requires Inv(s) && Undisturbed(s) && StillUnderWay(s, s1, phases)
    ensures StillUnderWay(s1, e, more) ==> StillUnderWay(s, e, phases + more)
    ensures JustCompleted(s1, e) ==> JustCompleted(s, e)
  {
    hide Inv, Expected;
  }

  lemma MorePhases(n: nat)
    ensures n > DATA_SIZE ==> PhasesFor(n) == 1 + PhasesFor(n - DATA_SIZE)
    ensures 0 < n <= DATA_SIZE ==> PhasesFor(n) == 1
  {
  }

  /** Main result: in every cancel-free run from a state with an outstanding command, as long as fewer
      than ceil(residue / 4096) data phases have gone by that command is still outstanding and the
      residue counts them; with the last one, at step k, it is reported GOOD and the driver is idle.
      Commands of other nexuses in between are refused. */
  lemma {:induction false} UndisturbedRun(s: System, steps: seq<Step>) returns (k: nat)
    requires Inv(s) && Undisturbed(s) && Feasible(s, steps) && CancelFree(steps)
    ensures DataPhases(steps) < PhasesFor(s.driver.residue) ==>
      StillUnderWay(s, Exec(s, steps), DataPhases(steps))
    ensures DataPhases(steps) >= PhasesFor(s.driver.residue) ==>
      k <= |steps| && DataPhases(steps[..k]) == PhasesFor(s.driver.residue)
      && Feasible(s, steps[..k]) && JustCompleted(s, Exec(s, steps[..k]))
    decreases |steps|
  {
    k := 0;
    NotYetMoved(s);
    if |steps| > 0 {
      hide Apply, Enabled, Inv, JustCompleted, StillUnderWay, Owner, Undisturbed, PhasesFor;
      MorePhases(s.driver.residue);
      var s1 := Apply(s, steps[0]);
      UndisturbedStep(s, steps[0]);
      if steps[0].DataDone? && s.driver.residue <= DATA_SIZE {
        k := 1;
        assert steps[..1][1..] == [];
      } else {
        var phases := if steps[0].DataDone? then 1 else 0;
        var k' := UndisturbedRun(s1, steps[1..]);
        UnderWayCompose(s, s1, Exec(s, steps), phases, DataPhases(steps[1..]));
        if DataPhases(steps) >= PhasesFor(s.driver.residue) {
          k := k' + 1;
          assert steps[..k][1..] == steps[1..][..k'];
          UnderWayCompose(s, s1, Exec(s, steps[..k]), phases, 0);
        }
      }
    }
  }

  /** Main result, from the command on: a transfer of n bytes accepted by an idle driver ends GOOD
      after exactly ceil(n / 4096) data phases in every cancel-free run that has so many. */
  lemma EveryTransferCompletes(s: System, nexus: nat, cdb: Cdb, noDisconnects: bool, steps: seq<Step>)
    returns (k: nat)
    requires Inv(s) && s.bus.Free? && s.windows == [] && TransferLength(cdb) > 0
    requires Feasible(ApplyReceive(s, nexus, cdb, noDisconnects), steps) && CancelFree(steps)
    ensures var s' := ApplyReceive(s, nexus, cdb, noDisconnects);
      && Inv(s') && Undisturbed(s') && Owner(s').nexus == nexus && Owner(s').cdb == cdb && s'.log == s.log
      && if DataPhases(steps) < PhasesFor(TransferLength(cdb))
         then StillUnderWay(s', Exec(s', steps), DataPhases(steps))
         else k <= |steps| && DataPhases(steps[..k]) == PhasesFor(TransferLength(cdb))
              && Feasible(s', steps[..k]) && JustCompleted(s', Exec(s', steps[..k]))
  {
    var s' := ApplyReceive(s, nexus, cdb, noDisconnects);
    InvReceive(s, nexus, cdb, noDisconnects);
    hide Inv, Feasible, Exec;
    k := UndisturbedRun(s', steps);
  }

  // ---------------------------------------------------------------- how many callbacks

  /** The callbacks of outstanding commands in a run: all but the commands that come in. */
  function Callbacks(steps: seq<Step>): nat {
    if |steps| == 0 then 0 else (if steps[0].Receive? then 0 else 1) + Callbacks(steps[1..])
  }

  /** The callbacks the outstanding command still needs: one a data phase without disconnects; otherwise
      three more to disconnect, relock and reselect between one data phase and the next. */
  function CallbacksLeft(s: System): nat
    requires Inv(s) && Undisturbed(s)
  {
    var phases := PhasesFor(s.driver.residue);
    if Owner(s).noDisconnects then phases
    else 4 * phases - 3 + (if s.bus.Free? then 2
                           else match s.bus.phase case Data(_, _) => 0 case Disconnecting => 3 case Reselecting => 1)
  }

  function NextCallback(s: System): Step
    requires Inv(s) && Undisturbed(s)
  {
    if s.bus.Free? then Relock(0)
    else match s.bus.phase case Data(_, _) => DataDone case Disconnecting => Disconnected case Reselecting => Reselected
  }

  /** The outstanding command never gets stuck: besides commands and cancels exactly one step can come. */
  lemma OneCallbackIsEnabled(s: System, step: Step)
    requires Inv(s) && Undisturbed(s) && !step.Receive? && !step.Cancel?
    ensures Enabled(s, step) <==> step == NextCallback(s)
  {
  }

  lemma SomeCallbackIsLeft(s: System)
    requires Inv(s) && Undisturbed(s)
    ensures CallbacksLeft(s) >= 1 && PhasesFor(s.driver.residue) >= 1
  {
  }

  /** Each callback brings the command one nearer to its end, and the last one ends it. */
  lemma CallbackCounts(s: System, step: Step)
    requires Inv(s) && Undisturbed(s) && Enabled(s, step) && !step.Cancel?
    ensures step.DataDone? && s.driver.residue <= DATA_SIZE ==> CallbacksLeft(s) == 1
    ensures !(step.DataDone? && s.driver.residue <= DATA_SIZE) ==>
      var e := Apply(s, step);
      && StillUnderWay(s, e, if step.DataDone? then 1 else 0) && e.driver.residue > 0
      && CallbacksLeft(e) == CallbacksLeft(s) - (if step.Receive? then 0 else 1)
  {
    UndisturbedStep(s, step);
    MorePhases(s.driver.residue);
    if step.DataDone? {
      DataPhaseResult(s);
    }
  }

  lemma {:induction false} CallbacksMeasurePhases(s: System, steps: seq<Step>)
    requires Inv(s) && Undisturbed(s) && Feasible(s, steps) && CancelFree(steps)
    ensures Callbacks(steps) < CallbacksLeft(s) <==> DataPhases(steps) < PhasesFor(s.driver.residue)
    decreases |steps|
  {
    hide Apply, Enabled, Inv, OnlyRefusals, Owner, Undisturbed, PhasesFor, CallbacksLeft;
    NotYetMoved(s);
    SomeCallbackIsLeft(s);
    MorePhases(s.driver.residue);
    if |steps| > 0 {
      CallbackCounts(s, steps[0]);
      if !(steps[0].DataDone? && s.driver.residue <= DATA_SIZE) {
        CallbacksMeasurePhases(Apply(s, steps[0]), steps[1..]);
      }
    }
  }

  /** Main result: an outstanding command completes with a known number of callbacks. In every cancel-free
      run with fewer it is still outstanding; with as many it has been reported GOOD, at step k. */
  lemma CompletesInCallbacks(s: System, steps: seq<Step>) returns (k: nat)
    requires Inv(s) && Undisturbed(s) && Feasible(s, steps) && CancelFree(steps)
    ensures Callbacks(steps) < CallbacksLeft(s) ==> StillUnderWay(s, Exec(s, steps), DataPhases(steps))
    ensures Callbacks(steps) >= CallbacksLeft(s) ==>
      k <= |steps| && Feasible(s, steps[..k]) && JustCompleted(s, Exec(s, steps[..k]))
  {
    NotYetMoved(s);
    CallbacksMeasurePhases(s, steps);
    hide Inv, CallbacksLeft, StillUnderWay, JustCompleted;
    k := UndisturbedRun(s, steps);
  }

  // ---------------------------------------------------------------- a run for every transfer

  /** The callbacks of an undisturbed transfer that still has residue bytes to move. */
  function Script(residue: nat, noDisconnects: bool): seq<Step> {
    if residue <= DATA_SIZE then [DataDone]
    else [DataDone] + ((if noDisconnects then [] else [Disconnected, Relock(0), Reselected])
                       + Script(residue - DATA_SIZE, noDisconnects))
  }

  lemma {:induction false} ScriptPhases(residue: nat, noDisconnects: bool)
    requires residue > 0
    ensures DataPhases(Script(residue, noDisconnects)) == PhasesFor(residue)
  {
    if residue > DATA_SIZE {
      var rest := Script(residue - DATA_SIZE, noDisconnects);
      ScriptPhases(residue - DATA_SIZE, noDisconnects);
      var steps := Script(residue, noDisconnects);
      if noDisconnects {
        assert steps[1..] == rest;
      } else {
        var s1, s2, s3 := steps[1..], steps[2..], steps[3..];
        assert s1[0] == Disconnected && s1[1..] == s2;
        assert s2[0] == Relock(0) && s2[1..] == s3;
        assert s3[0] == Reselected && s3[1..] == rest;
        assert DataPhases(steps) == 1 + DataPhases(s1);
        assert DataPhases(s1) == DataPhases(s2) == DataPhases(s3) == DataPhases(rest);
      }
    }
  }

  /** The three callbacks of one disconnection give the bus back to its only owner. */
  lemma Reconnects(s: System)
    requires Inv(s) && s.bus.Held? && s.bus.phase.Disconnecting?
    ensures var steps := [Disconnected, Relock(0), Reselected];
      Feasible(s, steps) && Inv(Exec(s, steps)) && Exec(s, steps) ==
      s.(bus := Held(s.bus.job, Data(s.driver.direction, Min(s.driver.residue, DATA_SIZE))))
  {
    var steps := [Disconnected, Relock(0), Reselected];
    var s1 := Apply(s, Disconnected);
    InvStep(s, Disconnected);
    var s2 := Apply(s1, Relock(0));
    InvStep(s1, Relock(0));
    var s3 := Apply(s2, Reselected);
    assert s2.windows == s.windows == [];
    assert steps[1..] == [Relock(0), Reselected];
    assert steps[1..][1..] == [Reselected];
    assert steps[1..][1..][1..] == [];
  }

  lemma {:induction false} ScriptCompletes(s: System)
    requires Inv(s) && s.bus.Held? && s.bus.phase.Data?
    ensures var j := s.bus.job; var steps := Script(s.driver.residue, j.noDisconnects);
      && Feasible(s, steps) && var e := Exec(s, steps);
      && Inv(e) && e.bus.Free? && e.windows == [] && !e.driver.busy
      && e.log == s.log + [Done(j.nexus, j.cdb, Good, Expected(j.cdb))]
    decreases s.driver.residue
  {
    NotYetMoved(s);
    DataPhaseResult(s);
    var j := s.bus.job;
    var steps := Script(s.driver.residue, j.noDisconnects);
    var s1 := Apply(s, DataDone);
    assert Feasible(s1, []) && Exec(s1, []) == s1 == ApplyDataDone(s);
    hide Inv, Apply, Enabled, ApplyDataDone, Feasible, Exec, Expected;
    var tail := [];
    if s.driver.residue > DATA_SIZE {
      var rest := Script(s.driver.residue - DATA_SIZE, j.noDisconnects);
      if j.noDisconnects {
        ScriptCompletes(s1);
        tail := rest;
        assert [] + rest == rest;
      } else {
        var mid := [Disconnected, Relock(0), Reselected];
        Reconnects(s1);
        ScriptCompletes(Exec(s1, mid));
        ExecAppend(s1, mid, rest);
        tail := mid + rest;
      }
      assert steps == [DataDone] + tail;
    }
    FirstThen(s, DataDone, tail);
  }

  lemma {:induction false} ScriptCancelsNothing(residue: nat, noDisconnects: bool)
    ensures CancelFree(Script(residue, noDisconnects))
  {
    if residue > DATA_SIZE {
      ScriptCancelsNothing(residue - DATA_SIZE, noDisconnects);
    }
  }

  /** There is such a run for every transfer, with or without disconnects, and it needs exactly
      ceil(n / 4096) data phases and no other initiator. */
  lemma TransferCompletes(s: System, nexus: nat, cdb: Cdb, noDisconnects: bool) returns (steps: seq<Step>)
    requires Inv(s) && s.bus.Free? && s.windows == [] && TransferLength(cdb) > 0
    ensures Feasible(s, steps) && OneCancelPerWindow(s, steps)
    ensures DataPhases(steps) == PhasesFor(TransferLength(cdb))
    ensures var e := Exec(s, steps);
      (e.bus.Free? && e.windows == [] && !e.driver.busy && !e.driver.working
       && e.log == s.log + [Done(nexus, cdb, Good, Expected(cdb))])
  {
    var s' := ApplyReceive(s, nexus, cdb, noDisconnects);
    InvReceive(s, nexus, cdb, noDisconnects);
    var script := Script(TransferLength(cdb), noDisconnects);
    ScriptCompletes(s');
    ScriptPhases(TransferLength(cdb), noDisconnects);
    ScriptCancelsNothing(TransferLength(cdb), noDisconnects);
    steps := [Receive(nexus, cdb, noDisconnects)] + script;
    assert steps[1..] == script;
    CancelFreeHasNoSecond(s', script);
  }
}
