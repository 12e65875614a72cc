/** Disconnects are transparent: with at most one cancel a window, every run of the target driver
    does what some run does in which no command ever disconnects. */
module TargetRefinement {
  import opened Scsi
  import opened TargetDriver
  import opened TargetProtocol
  import opened TargetSafety

  /** The log without the commands refused as busy; a restart is a cancel noticed late. */
  function Visible(log: seq<Event>): seq<Event> {
    if |log| == 0 then []
    else
      var e := log[|log| - 1];
      Visible(log[..|log| - 1]) +
      if e.Done? && e.status == Busy then []
      else if e.Restarted? then [Killed(e.nexus, e.cdb, e.moved)]
      else [e]
  }

  lemma VisibleAppend(log: seq<Event>, e: Event)
    ensures Visible(log + [e]) == Visible(log) +
      if e.Done? && e.status == Busy then []
      else if e.Restarted? then [Killed(e.nexus, e.cdb, e.moved)]
      else [e]
  {
    assert (log + [e])[..|log|] == log;
  }

  /** The command as it would be in mid-transfer, had it never disconnected. */
  function Connected(j: Job, at: nat, residue: int): Bus {
    Held(j.(noDisconnects := true, saved := 0, current := at),
         Data(TransferDirection(j.cdb), Min(residue, DATA_SIZE)))
  }

  /** The state of the system without disconnects that s stands for. */
  function Smooth(s: System): System
    requires Inv(s)
  {
    var bus :=
      if s.bus.Held? then
        Connected(s.bus.job, if s.bus.phase.Data? then s.bus.job.current else s.bus.job.saved, s.driver.residue)
      else if s.driver.working then Connected(s.windows[0].job, s.windows[0].job.saved, s.driver.residue)
      else Free;
    var pending :=
      if |s.windows| == 1 && !s.driver.working
      then var j := s.windows[0].job; [Killed(j.nexus, j.cdb, j.moved)]
      else [];
    System(State(s.driver.residue, Other(0), bus.Held?, false), bus, [], Visible(s.log) + pending)
  }

  /** Steps that the system without disconnects does not take. */
  predicate Stutters(s: System, step: Step) {
    step.Disconnected? || step.Relock? || step.Reselected? || (step.Receive? && s.driver.busy)
  }

  /** The step without disconnects that stands for a step from s. A cancel hits the command in its
      window whichever nexus it came from, so it stands for a cancel from that command's own nexus. */
  function Smoothed(s: System, step: Step): Step
    requires Inv(s)
  {
    match step
    case Receive(n, cdb, _) => Receive(n, cdb, true)
    case Cancel(n, reason) => Cancel(if Smooth(s).bus.Held? then Smooth(s).bus.job.nexus else n, reason)
    case _ => step
  }

  predicate NeverDisconnects(steps: seq<Step>) {
    forall i :: 0 <= i < |steps| ==>
      (steps[i].Receive? && steps[i].noDisconnects) || steps[i].DataDone? || steps[i].Cancel?
  }

  lemma SmoothIdle(s: System)
    requires Inv(s) && s.bus.Free? && !s.driver.busy
    ensures Smooth(s) == System(State(s.driver.residue, Other(0), false, false), Free, [], Visible(s.log))
  {
    assert Visible(s.log) + [] == Visible(s.log);
  }

  lemma SmoothHeld(s: System)
    requires Inv(s) && s.bus.Held?
    ensures Smooth(s) == System(
      State(s.driver.residue, Other(0), true, false),
      Connected(s.bus.job, if s.bus.phase.Data? then s.bus.job.current else s.bus.job.saved, s.driver.residue),
      [], Visible(s.log))
  {
    assert Visible(s.log) + [] == Visible(s.log);
  }

  lemma SmoothWaiting(s: System)
    requires Inv(s) && s.driver.working
    ensures var j := s.windows[0].job; Smooth(s) == System(
      State(s.driver.residue, Other(0), true, false), Connected(j, j.saved, s.driver.residue), [], Visible(s.log))
  {
    assert Visible(s.log) + [] == Visible(s.log);
  }

  lemma SmoothCancelled(s: System)
    requires Inv(s) && |s.windows| == 1 && !s.driver.working
    ensures var j := s.windows[0].job; Smooth(s) == System(
      State(s.driver.residue, Other(0), false, false), Free, [], Visible(s.log) + [Killed(j.nexus, j.cdb, j.moved)])
  {
  }

  lemma StutterStep(s: System, step: Step)
    requires Inv(s) && Enabled(s, step) && Stutters(s, step)
    ensures Inv(Apply(s, step)) && Smooth(Apply(s, step)) == Smooth(s)
  {
    hide Smooth, Visible, LogSound, WindowFaithful, Chunks, GetValue;
    InvStep(s, step);
    var s' := Apply(s, step);
    if |s'.log| > |s.log| {
      VisibleAppend(s.log, s'.log[|s.log|]);
    }
    if s.bus.Held? {
      SmoothHeld(s);
    } else if s.driver.working {
      SmoothWaiting(s);
    } else {
      SmoothCancelled(s);
    }
    if s'.bus.Held? {
      SmoothHeld(s');
    } else if s'.driver.working {
      SmoothWaiting(s');
    } else if step.Relock? {
      SmoothIdle(s');
    } else {
      SmoothCancelled(s');
    }
  }

  lemma MatchingReceive(s: System, n: nat, cdb: Cdb, noDisconnects: bool)
    requires Inv(s) && s.bus.Free? && !s.driver.busy
    ensures Inv(ApplyReceive(s, n, cdb, noDisconnects))
    ensures Smooth(ApplyReceive(s, n, cdb, noDisconnects)) == ApplyReceive(Smooth(s), n, cdb, true)
  {
    hide Smooth, Visible, LogSound, WindowFaithful, Chunks, GetValue;
    InvReceive(s, n, cdb, noDisconnects);
    var s' := ApplyReceive(s, n, cdb, noDisconnects);
    SmoothIdle(s);
    hide Inv;
    if s'.bus.Free? {
      VisibleAppend(s.log, s'.log[|s.log|]);
      SmoothIdle(s');
    } else {
      SmoothHeld(s');
    }
  }

  lemma MatchingData(s: System)
    requires Inv(s) && s.bus.Held? && s.bus.phase.Data?
    ensures Inv(ApplyDataDone(s))
    ensures Smooth(ApplyDataDone(s)) == ApplyDataDone(Smooth(s))
  {
    hide Smooth, Visible, LogSound, WindowFaithful, Chunks;
    InvDataDone(s);
    var s' := ApplyDataDone(s);
    SmoothHeld(s);
    if s'.bus.Free? {
      VisibleAppend(s.log, s'.log[|s.log|]);
      SmoothIdle(s');
    } else {
      SmoothHeld(s');
    }
  }

  lemma MatchingCancel(s: System, n: nat, reason: Code)
    requires Inv(s) && Enabled(s, Cancel(n, reason)) && !SecondCancel(s, Cancel(n, reason))
    ensures Inv(Apply(s, Cancel(n, reason)))
    ensures Enabled(Smooth(s), Smoothed(s, Cancel(n, reason)))
    ensures Smooth(Apply(s, Cancel(n, reason))) == Apply(Smooth(s), Smoothed(s, Cancel(n, reason)))
  {
    hide Smooth, Visible, LogSound, WindowFaithful, BusFaithful, Chunks;
    InvCancel(s, n, reason);
    var s' := Apply(s, Cancel(n, reason));
    if s.bus.Held? {
      VisibleAppend(s.log, s'.log[|s.log|]);
      SmoothHeld(s);
      SmoothIdle(s');
    } else if s.driver.working {
      assert s'.log == s.log;
      assert s'.windows[0].job == s.windows[0].job;
      SmoothWaiting(s);
      SmoothCancelled(s');
    } else {
      assert s'.log == s.log;
      assert Visible(s.log) + [] == Visible(s.log);
      SmoothIdle(s);
      SmoothIdle(s');
    }
  }

  /** Every other step is matched by the same step of the system without disconnects. */
  lemma MatchingStep(s: System, step: Step)
    requires Inv(s) && Enabled(s, step) && !SecondCancel(s, step) && !Stutters(s, step)
    ensures Inv(Apply(s, step)) && Enabled(Smooth(s), Smoothed(s, step))
    ensures Smooth(Apply(s, step)) == Apply(Smooth(s), Smoothed(s, step))
  {
    match step
    case Receive(n, cdb, noDisconnects) => MatchingReceive(s, n, cdb, noDisconnects);
    case DataDone => MatchingData(s);
    case Cancel(n, reason) => MatchingCancel(s, n, reason);
    case _ =>
  }

  /** Main result: refinement of the system without disconnects, for all runs and interleavings. */
  lemma {:induction false} DisconnectsAreTransparent(s: System, steps: seq<Step>) returns (smooth: seq<Step>)
    requires Inv(s) && Feasible(s, steps) && OneCancelPerWindow(s, steps)
    ensures NeverDisconnects(smooth) && Feasible(Smooth(s), smooth)
    ensures Inv(Exec(s, steps)) && Exec(Smooth(s), smooth) == Smooth(Exec(s, steps))
    decreases |steps|
  {
    hide Apply, Enabled, Inv, Smooth, SecondCancel;
    InvRun(s, steps);
    if |steps| == 0 {
      smooth := [];
    } else {
      var s' := Apply(s, steps[0]);
      InvStep(s, steps[0]);
      var rest := DisconnectsAreTransparent(s', steps[1..]);
      if Stutters(s, steps[0]) {
        StutterStep(s, steps[0]);
        smooth := rest;
      } else {
        MatchingStep(s, steps[0]);
        smooth := [Smoothed(s, steps[0])] + rest;
        assert smooth[1..] == rest;
      }
    }
  }

  /** From start-up: what a run reports, apart from refusals, is what a run without disconnects reports. */
  lemma ReportsWithoutDisconnects(s: System, steps: seq<Step>) returns (t: System, smooth: seq<Step>)
    requires IsInit(s) && Feasible(s, steps) && OneCancelPerWindow(s, steps)
    ensures IsInit(t) && NeverDisconnects(smooth) && Feasible(t, smooth)
    ensures Exec(s, steps).windows == [] ==> Visible(Exec(s, steps).log) == Exec(t, smooth).log
  {
    t := Smooth(s);
    smooth := DisconnectsAreTransparent(s, steps);
  }
}
