/** What every run of the target driver keeps: with at most one cancel in each disconnect window
    the shared state always belongs to the one outstanding command; with any cancels at all the
    residue stays sound and the busy flag never leaks. */
module TargetSafety {
  import opened Scsi
  import opened TargetDriver
  import opened TargetProtocol

  // ---------------------------------------------------------------- exclusive ownership

  /** At most one command is outstanding, busy holds exactly when one is, and working holds
      exactly while it waits in a window without a cancel. */
  predicate Owned(s: System) {
    && |s.windows| + (if s.bus.Held? then 1 else 0) <= 1
    && (s.driver.busy <==> s.bus.Held? || |s.windows| == 1)
    && (s.driver.working <==> |s.windows| == 1 && s.windows[0].cancels == 0)
  }

  /** The data phases of j so far are those that bring an uninterrupted transfer to position at. */
  predicate OnCourse(j: Job, at: nat) {
    && IsSupported(j.cdb)
    && at < TransferLength(j.cdb)
    && j.moved + Chunks(TransferDirection(j.cdb), at, TransferLength(j.cdb)) == Expected(j.cdb)
  }

  /** The shared residue and direction are those of j at position at. */
  predicate Holds(d: State, j: Job, at: nat) {
    OnCourse(j, at) && d.residue == TransferLength(j.cdb) - at
  }

  predicate BusFaithful(d: State, bus: Bus) {
    match bus
    case Free => true
    case Held(j, Data(code, dataLen)) =>
      Holds(d, j, j.current) && code == TransferDirection(j.cdb) && dataLen == Min(d.residue, DATA_SIZE)
    case Held(j, Disconnecting) =>
      Holds(d, j, j.saved) && d.direction == TransferDirection(j.cdb) && j.current == j.saved && !j.noDisconnects
    case Held(j, Reselecting) =>
      Holds(d, j, j.saved) && d.direction == TransferDirection(j.cdb) && !j.noDisconnects
  }

  predicate WindowFaithful(d: State, w: Window) {
    && OnCourse(w.job, w.job.saved)
    && (w.cancels == 0 ==>
          Holds(d, w.job, w.job.saved) && d.direction == TransferDirection(w.job.cdb) && !w.job.noDisconnects)
  }

  /** A command reported GOOD is supported and moved exactly the data phases its length calls for; one
      with CHECK CONDITION is unsupported; that one and a refused one moved nothing; one that was
      cancelled stopped short; none fails on its residue. */
  predicate EventSound(e: Event) {
    match e
    case Done(_, cdb, status, moved) =>
      if status == Good then IsSupported(cdb) && moved == Expected(cdb)
      else moved == [] && (status == CheckCondition ==> !IsSupported(cdb))
    case Killed(_, cdb, moved) => moved < Expected(cdb)
    case Restarted(_, cdb, moved) => moved < Expected(cdb)
    case Failed(_, _, _) => false
  }

  predicate LogSound(log: seq<Event>) {
    forall i :: 0 <= i < |log| ==> EventSound(log[i])
  }

  predicate Inv(s: System) {
    && Owned(s)
    && BusFaithful(s.driver, s.bus)
    && (forall w :: 0 <= w < |s.windows| ==> WindowFaithful(s.driver, s.windows[w]))
    && LogSound(s.log)
  }

  lemma OnCourseStopsShort(j: Job, at: nat)
    requires OnCourse(j, at)
    ensures j.moved < Expected(j.cdb)
  {
    var rest := Chunks(TransferDirection(j.cdb), at, TransferLength(j.cdb));
    assert |rest| > 0;
    assert (j.moved + rest)[..|j.moved|] == j.moved;
  }

  /** One more data phase of the right size keeps a command on course, or completes it. */
  lemma OnCourseAdvances(j: Job, at: nat)
    requires OnCourse(j, at)
    ensures var n := TransferLength(j.cdb); var k := Min(DATA_SIZE, n - at);
      var moved := j.moved + [Chunk(TransferDirection(j.cdb), at, k)];
      if at + k == n then moved == Expected(j.cdb)
      else moved + Chunks(TransferDirection(j.cdb), at + k, n) == Expected(j.cdb)
  {
    var n := TransferLength(j.cdb);
    var k := Min(DATA_SIZE, n - at);
    var c := Chunk(TransferDirection(j.cdb), at, k);
    var rest := Chunks(TransferDirection(j.cdb), at + k, n);
    assert j.moved + ([c] + rest) == (j.moved + [c]) + rest;
    if at + k == n {
      assert (j.moved + [c]) + [] == j.moved + [c];
    }
  }

  lemma InvReceive(s: System, n: nat, cdb: Cdb, noDisconnects: bool)
    requires Inv(s) && s.bus.Free?
    ensures Inv(ApplyReceive(s, n, cdb, noDisconnects))
  {
    assert [] + Expected(cdb) == Expected(cdb);
  }

  lemma InvDataDone(s: System)
    requires Inv(s) && s.bus.Held? && s.bus.phase.Data?
    ensures Inv(ApplyDataDone(s))
  {
    OnCourseAdvances(s.bus.job, s.bus.job.current);
  }

  lemma InvRelock(s: System, w: nat)
    requires Inv(s) && s.bus.Free? && w < |s.windows|
    ensures Inv(ApplyRelock(s, w))
  {
    OnCourseStopsShort(s.windows[0].job, s.windows[0].job.saved);
  }

  lemma InvCancel(s: System, n: nat, reason: Code)
    requires Inv(s) && Enabled(s, Cancel(n, reason)) && !SecondCancel(s, Cancel(n, reason))
    ensures Inv(Apply(s, Cancel(n, reason)))
  {
    if s.bus.Held? {
      var j := s.bus.job;
      OnCourseStopsShort(j, if s.bus.phase.Data? then j.current else j.saved);
    }
  }

  /** From a good state a step leads to a good state exactly when it is not a second cancel in a window. */
  lemma InvStep(s: System, step: Step)
    requires Inv(s) && Enabled(s, step)
    ensures !SecondCancel(s, step) ==> Inv(Apply(s, step))
    ensures SecondCancel(s, step) ==> !Owned(Apply(s, step))
  {
    if !SecondCancel(s, step) {
      match step
      case Receive(n, cdb, noDisconnects) => InvReceive(s, n, cdb, noDisconnects);
      case DataDone => InvDataDone(s);
      case Disconnected =>
      case Relock(w) => InvRelock(s, w);
      case Reselected =>
      case Cancel(n, reason) => InvCancel(s, n, reason);
    }
  }

  lemma {:induction false} InvRun(s: System, steps: seq<Step>)
    requires Inv(s) && Feasible(s, steps) && OneCancelPerWindow(s, steps)
    ensures Inv(Exec(s, steps))
    decreases |steps|
  {
    if |steps| > 0 {
      InvStep(s, steps[0]);
      InvRun(Apply(s, steps[0]), steps[1..]);
    }
  }

  /** Up to the first second cancel of a run all is well. */
  lemma {:induction false} FirstSecondCancel(s: System, steps: seq<Step>) returns (k: nat)
    requires Inv(s) && Feasible(s, steps) && !OneCancelPerWindow(s, steps)
    ensures k < |steps| && Feasible(s, steps[..k]) && Inv(Exec(s, steps[..k]))
    ensures OneCancelPerWindow(s, steps[..k])
    ensures Enabled(Exec(s, steps[..k]), steps[k]) && SecondCancel(Exec(s, steps[..k]), steps[k])
    ensures Feasible(s, steps[..k + 1]) && Exec(s, steps[..k + 1]) == Apply(Exec(s, steps[..k]), steps[k])
    decreases |steps|
  {
    hide Apply, Enabled, Inv, SecondCancel;
    var s1 := Apply(s, steps[0]);
    InvStep(s, steps[0]);
    if SecondCancel(s, steps[0]) {
      k := 0;
      assert steps[..1][1..] == [];
    } else {
      var k' := FirstSecondCancel(s1, steps[1..]);
      k := k' + 1;
      assert steps[..k][1..] == steps[1..][..k'];
      assert steps[..k + 1][1..] == steps[1..][..k' + 1];
    }
  }

  ghost predicate OwnedThroughout(s: System, steps: seq<Step>)
    requires Feasible(s, steps)
  {
    forall k: nat :: k <= |steps| && Feasible(s, steps[..k]) ==> Owned(Exec(s, steps[..k]))
  }

  /** Main result: a run keeps exclusive ownership of the shared state, in every state it passes
      through, if and only if no disconnect window sees two cancels. */
  lemma ExclusiveOwnership(s: System, steps: seq<Step>)
    requires IsInit(s) && Feasible(s, steps)
    ensures OwnedThroughout(s, steps) <==> OneCancelPerWindow(s, steps)
  {
    if OneCancelPerWindow(s, steps) {
      forall k: nat | k <= |steps| && Feasible(s, steps[..k])
        ensures Owned(Exec(s, steps[..k]))
      {
        FeasiblePrefix(s, steps, k);
        InvRun(s, steps[..k]);
      }
    } else {
      var k := FirstSecondCancel(s, steps);
      InvStep(Exec(s, steps[..k]), steps[k]);
      assert !Owned(Exec(s, steps[..k + 1]));
    }
  }

  /** Main result: in every run with at most one cancel a window, every event of every command is sound. */
  lemma Conservation(s: System, steps: seq<Step>)
    requires IsInit(s) && Feasible(s, steps) && OneCancelPerWindow(s, steps)
    ensures LogSound(Exec(s, steps).log)
  {
    InvRun(s, steps);
  }

  /** In particular: a command reported GOOD moved each byte of its length exactly once, in order, in
      its own direction, in ceil(n / 4096) data phases, and moved nothing else. */
  lemma GoodMovesEachByteOnce(s: System, steps: seq<Step>, i: nat, b: nat)
    requires IsInit(s) && Feasible(s, steps) && OneCancelPerWindow(s, steps)
    requires i < |Exec(s, steps).log| && Exec(s, steps).log[i].Done? && Exec(s, steps).log[i].status == Good
    ensures var e := Exec(s, steps).log[i]; var n := TransferLength(e.cdb);
      && |e.moved| == (n + DATA_SIZE - 1) / DATA_SIZE
      && forall k :: 0 <= k < |e.moved| ==>
           e.moved[k].direction == TransferDirection(e.cdb)
           && (Covers(e.moved[k], b) <==> b < n && k == b / DATA_SIZE)
  {
    Conservation(s, steps);
    var e := Exec(s, steps).log[i];
    var n := TransferLength(e.cdb);
    assert EventSound(e);
    ChunksShape(TransferDirection(e.cdb), 0, n);
    ChunksPartition(TransferDirection(e.cdb), n, b);
  }
}
