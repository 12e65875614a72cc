/** Cancels: what one cancel in a window does, what a second one breaks, and what no number of them can. */
module TargetCancel {
  import opened Scsi
  import opened Words
  import opened TargetDriver
  import opened TargetProtocol
  import opened TargetSafety
  import opened TargetProgress

  // ---------------------------------------------------------------- one cancel

  /** Main result: from the first cancel in its window until its callback holds the lock again, a
      command moves no data and every other command is refused as busy; then it is restarted, and
      the driver is idle again. */
  lemma {:induction false} CancelledWindow(s: System, steps: seq<Step>)
    requires Inv(s) && |s.windows| == 1 && s.windows[0].cancels == 1 && Feasible(s, steps)
    requires forall i :: 0 <= i < |steps| ==> !steps[i].Relock? && !steps[i].Cancel?
    ensures var e := Exec(s, steps);
      && e.(log := s.log) == s
      && |e.log| == |s.log| + |steps| && e.log[..|s.log|] == s.log
      && (forall i :: 0 <= i < |steps| ==>
            steps[i].Receive? && e.log[|s.log| + i] == Done(steps[i].nexus, steps[i].cdb, Busy, []))
      && (var j := s.windows[0].job; var r := ApplyRelock(e, 0);
          && r == e.(driver := e.driver.(busy := false), windows := [],
                     log := e.log + [Restarted(j.nexus, j.cdb, j.moved)])
          && !r.driver.busy && !r.driver.working)
    decreases |steps|
  {
    if |steps| > 0 {
      var s' := Apply(s, steps[0]);
      InvStep(s, steps[0]);
      assert steps[0].Receive?;
      CancelledWindow(s', steps[1..]);
      var e := Exec(s', steps[1..]);
      assert e.log[..|s.log|] == e.log[..|s'.log|][..|s.log|] == s.log;
      forall i | 0 <= i < |steps|
        ensures steps[i].Receive? && e.log[|s.log| + i] == Done(steps[i].nexus, steps[i].cdb, Busy, [])
      {
        if i == 0 {
          assert e.log[|s.log|] == e.log[..|s'.log|][|s.log|];
        } else {
          assert steps[i] == steps[1..][i - 1];
        }
      }
    }
  }

  // ---------------------------------------------------------------- any number of cancels

  predicate BusSane(d: State, bus: Bus) {
    bus.Held? ==>
      && d.busy && !d.working && d.residue > 0
      && (bus.phase.Data? ==>
            && IsDirection(bus.phase.code)
            && 1 <= bus.phase.dataLen <= DATA_SIZE && bus.phase.dataLen <= d.residue
            && (bus.job.cdb[0] == SCMD_INQUIRY ==> bus.phase.dataLen == d.residue <= STD_INQUIRY_SIZE))
      && (!bus.phase.Data? ==> IsDirection(d.direction) && bus.job.cdb[0] != SCMD_INQUIRY)
  }

  /** Kept by every run, whatever is cancelled and however often. */
  predicate Sane(s: System) {
    && BusSane(s.driver, s.bus)
    && (s.driver.working ==>
          s.driver.busy && s.bus.Free? && s.windows != [] && s.driver.residue > 0 && IsDirection(s.driver.direction))
    && (s.driver.busy ==> s.bus.Held? || s.windows != [])
    && (forall w :: 0 <= w < |s.windows| ==> s.windows[w].job.cdb[0] != SCMD_INQUIRY)
    && (forall i :: 0 <= i < |s.log| ==> !s.log[i].Failed?)
  }

  lemma SaneRelock(s: System, w: nat)
    requires Sane(s) && s.bus.Free? && w < |s.windows|
    ensures Sane(ApplyRelock(s, w))
  {
    var s' := ApplyRelock(s, w);
    forall v | 0 <= v < |s'.windows| ensures s'.windows[v].job.cdb[0] != SCMD_INQUIRY {
      assert s'.windows[v] == s.windows[if v < w then v else v + 1];
    }
  }

  lemma SaneStep(s: System, step: Step)
    requires Sane(s) && Enabled(s, step)
    ensures Sane(Apply(s, step))
  {
    match step
    case Relock(w) => SaneRelock(s, w);
    case _ =>
  }

  /** Main result: in every reachable state, with any number of cancels, each data phase is between 1
      and 4096 bytes (36 for INQUIRY) and within the residue, the invalid-residue branch has never
      been taken, and a system with nothing outstanding has neither flag set. */
  lemma {:induction false} SoundUnderAnyCancels(s: System, steps: seq<Step>)
    requires Sane(s) && Feasible(s, steps)
    ensures Sane(Exec(s, steps))
    ensures var e := Exec(s, steps); e.bus.Free? && e.windows == [] ==> !e.driver.busy && !e.driver.working
    decreases |steps|
  {
    if |steps| > 0 {
      SaneStep(s, steps[0]);
      SoundUnderAnyCancels(Apply(s, steps[0]), steps[1..]);
    }
  }

  /** Each data phase lowers the residue, so a command cannot move data for ever. */
  lemma DataPhaseLowersResidue(s: System)
    requires Sane(s) && s.bus.Held? && s.bus.phase.Data?
    ensures 0 <= ApplyDataDone(s).driver.residue < s.driver.residue
    ensures ApplyDataDone(s).bus.Free? <==> ApplyDataDone(s).driver.residue == 0
  {
    assert OnData(s.driver, Record(s.bus.phase.dataLen, CheckCondition), s.bus.phase.code,
                  s.bus.job.noDisconnects).state.residue == s.driver.residue - s.bus.phase.dataLen;
  }

  // ---------------------------------------------------------------- whose cancel

  function TransferCdb(opcode: byte, length: nat): Cdb
    requires length < 0x100_0000
  {
    [opcode, 0, length / 65536, length / 256 % 256, length % 256, 0, 0, 0, 0, 0, 0, 0]
  }

  lemma TransferCdbLength(opcode: byte, length: nat)
    requires length < 0x100_0000 && (opcode == SCMD_SEND || opcode == SCMD_RECEIVE)
    ensures TransferLength(TransferCdb(opcode, length)) == length
  {
    var cdb := TransferCdb(opcode, length);
    GetValue3(cdb[2..5]);
  }

  /** A command of two buffers after its first data phase, waiting in its window. */
  function Halfway(nexus: nat, cdb: Cdb): Job {
    Job(nexus, cdb, false, DATA_SIZE, 0, [Chunk(TransferDirection(cdb), 0, DATA_SIZE)])
  }

  lemma OpensWindow(s: System, nexus: nat, cdb: Cdb)
    requires !s.driver.busy && s.bus.Free? && TransferLength(cdb) == 2 * DATA_SIZE
    ensures var steps := [Receive(nexus, cdb, false), DataDone, Disconnected];
      Feasible(s, steps) && Exec(s, steps) ==
      s.(driver := State(DATA_SIZE, TransferDirection(cdb), true, true),
         windows := s.windows + [Window(Halfway(nexus, cdb), 0)])
  {
    var steps := [Receive(nexus, cdb, false), DataDone, Disconnected];
    var s1 := Apply(s, steps[0]);
    assert s1.bus == Held(Job(nexus, cdb, false, 0, 0, []), Data(TransferDirection(cdb), DATA_SIZE));
    var s2 := Apply(s1, steps[1]);
    assert s2.bus == Held(Halfway(nexus, cdb).(current := DATA_SIZE), Disconnecting);
    UnfoldThree(s, steps);
  }

  /** An abort from any nexus at all restarts the command that waits in its window: the driver does
      not look at which nexus a cancel names. */
  lemma AbortRestartsTheWaiting(s: System, nexus: nat)
    requires Inv(s) && s.driver.working
    ensures var j := s.windows[0].job; var steps := [Cancel(nexus, Abort), Relock(0)];
      Feasible(s, steps) && OneCancelPerWindow(s, steps) && Exec(s, steps) ==
      s.(driver := s.driver.(busy := false, working := false), windows := [],
         log := s.log + [Restarted(j.nexus, j.cdb, j.moved)])
  {
    var steps := [Cancel(nexus, Abort), Relock(0)];
    var s1 := Apply(s, steps[0]);
    var waiting := Window(s.windows[0].job, 1);
    assert s1 == s.(driver := s.driver.(working := false), windows := [waiting]) by {
      assert s1.windows == [waiting] && s1.log == s.log + [] == s.log;
    }
    assert ApplyRelock(s1, 0).windows == [];
    UnfoldTwo(s, steps);
  }

  /** An abort that names n leaves an uncancelled command of another nexus outstanding as it is. */
  predicate SparesUncancelled(s: System, n: nat)
    requires Inv(s) && Enabled(s, Cancel(n, Abort))
  {
    Undisturbed(s) && Owner(s).nexus != n ==>
      var e := Apply(s, Cancel(n, Abort));
      StillUnderWay(s, e, 0) && Owner(e) == Owner(s) && e.log == s.log
  }

  /** The same, and a cancelled command of another nexus keeps the driver busy until it is restarted. */
  predicate SparesOthers(s: System, n: nat)
    requires Inv(s) && Enabled(s, Cancel(n, Abort))
  {
    && SparesUncancelled(s, n)
    && (s.windows != [] && s.windows[0].job.nexus != n ==> Apply(s, Cancel(n, Abort)).driver.busy == s.driver.busy)
  }

  /** Main result: in every good state, an abort leaves the uncancelled commands of other nexuses alone
      if and only if, with working set, it names the nexus of the command in its window; and it leaves
      all commands of other nexuses alone if and only if it names the nexus of any command that waits. */
  lemma AbortSparesOthersIff(s: System, n: nat)
    requires Inv(s) && Enabled(s, Cancel(n, Abort))
    ensures SparesUncancelled(s, n) <==> (s.driver.working ==> s.windows[0].job.nexus == n)
    ensures SparesOthers(s, n) <==> (s.windows != [] ==> s.windows[0].job.nexus == n)
  {
    assert !Apply(s, Cancel(n, Abort)).driver.working && Apply(s, Cancel(n, Abort)).bus.Free?;
  }

  /** From start-up, a command of any nexus gets into such a state without a cancel, and an abort from
      any other nexus then restarts it. */
  lemma AbortHitsAnother(s: System, nexus: nat, other: nat) returns (steps: seq<Step>)
    requires IsInit(s) && nexus != other
    ensures Feasible(s, steps) && CancelFree(steps) && Inv(Exec(s, steps)) && Undisturbed(Exec(s, steps))
    ensures var e := Exec(s, steps); var cancel := [Cancel(other, Abort), Relock(0)];
      && Owner(e).nexus == nexus && Enabled(e, Cancel(other, Abort)) && !SparesOthers(e, other)
      && Feasible(e, cancel) && OneCancelPerWindow(e, cancel)
      && Exec(e, cancel).log == [Restarted(nexus, Owner(e).cdb, Owner(e).moved)]
  {
    var cdb := TransferCdb(SCMD_SEND, 2 * DATA_SIZE);
    TransferCdbLength(SCMD_SEND, 2 * DATA_SIZE);
    steps := [Receive(nexus, cdb, false), DataDone, Disconnected];
    OpensWindow(s, nexus, cdb);
    CancelFreeHasNoSecond(s, steps);
    hide Apply, Enabled;
    InvRun(s, steps);
    var e := Exec(s, steps);
    AbortSparesOthersIff(e, other);
    AbortRestartsTheWaiting(e, other);
  }

  // ---------------------------------------------------------------- two cancels

  lemma FinishesForAnother(s: System, direction: Code)
    requires s.bus.Free? && |s.windows| == 2 && s.driver == State(DATA_SIZE, direction, true, true)
    ensures var steps := [Relock(0), Reselected, DataDone]; var j := s.windows[0].job;
      Feasible(s, steps) && Exec(s, steps).log ==
      s.log + [Done(j.nexus, j.cdb, Good, j.moved + [Chunk(direction, j.saved, DATA_SIZE)])]
  {
    var steps := [Relock(0), Reselected, DataDone];
    var j := s.windows[0].job;
    var s1 := Apply(s, Relock(0));
    assert s1.bus == Held(j, Reselecting);
    var s2 := Apply(s1, Reselected);
    assert s2.bus == Held(j.(current := j.saved), Data(direction, DATA_SIZE));
    UnfoldThree(s, steps);
  }

  /** A transfer of two buffers in the direction that is not the job's. */
  function Opposite(j: Job): Cdb {
    TransferCdb(if TransferDirection(j.cdb) == DataOut then SCMD_RECEIVE else SCMD_SEND, 2 * DATA_SIZE)
  }

  lemma WrongWayIsNotExpected(cdb: Cdb, moved: seq<Chunk>, c: Chunk)
    requires c.direction != TransferDirection(cdb)
    ensures moved + [c] != Expected(cdb)
  {
    ChunksPartition(TransferDirection(cdb), TransferLength(cdb), 0);
    if |moved| < |Expected(cdb)| {
      assert Expected(cdb)[|moved|].direction != (moved + [c])[|moved|].direction;
    }
  }

  /** With its flags lost, a waiting command can be finished with the residue and direction of
      another: it is reported GOOD although its last data phase went the wrong way. */
  lemma LostCommandIsCorrupted(s: System) returns (steps: seq<Step>, e: Event)
    requires s.bus.Free? && !s.driver.busy && |s.windows| == 1
    ensures CancelFree(steps) && Feasible(s, steps) && Exec(s, steps).log == s.log + [e]
    ensures var j := s.windows[0].job; var wrong := TransferDirection(Opposite(j));
      wrong != TransferDirection(j.cdb) && e == Done(j.nexus, j.cdb, Good, j.moved + [Chunk(wrong, j.saved, DATA_SIZE)])
    ensures e.moved != Expected(e.cdb)
  {
    hide Apply, Enabled;
    var j := s.windows[0].job;
    var cdb := Opposite(j);
    TransferCdbLength(cdb[0], 2 * DATA_SIZE);
    var other := [Receive(j.nexus + 1, cdb, false), DataDone, Disconnected];
    var resume := [Relock(0), Reselected, DataDone];
    OpensWindow(s, j.nexus + 1, cdb);
    var mid := Exec(s, other);
    FinishesForAnother(mid, TransferDirection(cdb));
    ExecAppend(s, other, resume);
    steps := other + resume;
    var c := Chunk(TransferDirection(cdb), j.saved, DATA_SIZE);
    WrongWayIsNotExpected(j.cdb, j.moved, c);
    e := Done(j.nexus, j.cdb, Good, j.moved + [c]);
  }

  /** The log stays sound in every run that goes on from s without another cancel. */
  ghost predicate StaysSound(s: System) {
    forall steps :: Feasible(s, steps) && CancelFree(steps) ==> LogSound(Exec(s, steps).log)
  }

  lemma InvStaysSound(s: System)
    requires Inv(s)
    ensures StaysSound(s)
  {
    forall steps | Feasible(s, steps) && CancelFree(steps) ensures LogSound(Exec(s, steps).log) {
      CancelFreeHasNoSecond(s, steps);
      InvRun(s, steps);
    }
  }

  /** Main result: from a good state, what follows a step stays sound if and only if the step is not a
      second cancel in a window. */
  lemma SoundIffNotSecondCancel(s: System, step: Step)
    requires Inv(s) && Enabled(s, step)
    ensures StaysSound(Apply(s, step)) <==> !SecondCancel(s, step)
  {
    InvStep(s, step);
    var s' := Apply(s, step);
    if SecondCancel(s, step) {
      var steps, e := LostCommandIsCorrupted(s');
      assert !EventSound(Exec(s', steps).log[|s'.log|]);
    } else {
      InvStaysSound(s');
    }
  }

  /** Every state a run passes through can only go on soundly while no further cancel comes. */
  ghost predicate SoundThroughout(s: System, steps: seq<Step>)
    requires Feasible(s, steps)
  {
    forall k: nat :: k <= |steps| && Feasible(s, steps[..k]) ==> StaysSound(Exec(s, steps[..k]))
  }

  /** Main result: the reports of a run, however it goes on without further cancels, are right in every
      state it passes through if and only if no disconnect window sees two cancels. */
  lemma ConservationIffOneCancel(s: System, steps: seq<Step>)
    requires IsInit(s) && Feasible(s, steps)
    ensures SoundThroughout(s, steps) <==> OneCancelPerWindow(s, steps)
  {
    if OneCancelPerWindow(s, steps) {
      forall k: nat | k <= |steps| && Feasible(s, steps[..k]) ensures StaysSound(Exec(s, steps[..k])) {
        FeasiblePrefix(s, steps, k);
        InvRun(s, steps[..k]);
        InvStaysSound(Exec(s, steps[..k]));
      }
    } else {
      var k := FirstSecondCancel(s, steps);
      SoundIffNotSecondCancel(Exec(s, steps[..k]), steps[k]);
      assert !StaysSound(Exec(s, steps[..k + 1]));
    }
  }

  lemma LosesOwnership(s: System)
    requires s.bus.Free? && |s.windows| == 1 && s.windows[0].cancels == 0
    ensures var steps := [Cancel(1, Reset), Cancel(1, Reset)];
      Feasible(s, steps) && !OneCancelPerWindow(s, steps) && Exec(s, steps) ==
      s.(driver := s.driver.(busy := false, working := false), windows := [Window(s.windows[0].job, 2)])
  {
    var steps := [Cancel(1, Reset), Cancel(1, Reset)];
    var s1 := Apply(s, Cancel(1, Reset));
    assert s1.windows == [Window(s.windows[0].job, 1)];
    assert Apply(s1, Cancel(1, Reset)).windows == [Window(s.windows[0].job, 2)];
    assert SecondCancel(s1, Cancel(1, Reset));
    UnfoldTwo(s, steps);
  }

  /** Such a run exists: two resets in the window of a SEND, and the SEND is reported GOOD although its
      second half went the wrong way. */
  lemma TwoCancelsCorrupt(s: System) returns (steps: seq<Step>, e: Event)
    requires IsInit(s)
    ensures Feasible(s, steps) && !OneCancelPerWindow(s, steps)
    ensures Exec(s, steps).log == [e] && e.Done? && e.status == Good && e.cdb[0] == SCMD_SEND
    ensures e.moved == [Chunk(DataOut, 0, DATA_SIZE), Chunk(DataIn, DATA_SIZE, DATA_SIZE)]
    ensures Expected(e.cdb) == [Chunk(DataOut, 0, DATA_SIZE), Chunk(DataOut, DATA_SIZE, DATA_SIZE)]
  {
    var send := TransferCdb(SCMD_SEND, 2 * DATA_SIZE);
    TransferCdbLength(SCMD_SEND, 2 * DATA_SIZE);
    var begin := [Receive(1, send, false), DataDone, Disconnected];
    var cancels := [Cancel(1, Reset), Cancel(1, Reset)];
    OpensWindow(s, 1, send);
    var s1 := Exec(s, begin);
    LosesOwnership(s1);
    hide Apply, Enabled;
    var s2 := Exec(s1, cancels);
    var tail;
    tail, e := LostCommandIsCorrupted(s2);
    ExecAppend(s1, cancels, tail);
    ExecAppend(s, begin, cancels + tail);
    steps := begin + (cancels + tail);
    ChunksShape(DataOut, 0, 2 * DATA_SIZE);
    if OneCancelPerWindow(s, steps) {
      OneCancelSuffix(s, begin, cancels + tail);
      OneCancelSuffix(s1, cancels, tail);
    }
  }
}
