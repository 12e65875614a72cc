/** The SCSI system around the target driver, as steps of one bus, one lock and any number of
    nexuses. The bus is free or held by one connected command; a command whose disconnect
    callback has given up the lock waits in a window. A cancel is a callback with reset,
    abort or an invalid reason. */
module TargetProtocol {
  import opened Scsi
  import opened TargetDriver

  /** One completed data phase: a range of the initiator's data and the way it moved. */
  datatype Chunk = Chunk(direction: Code, offset: nat, length: nat)

  /** An outstanding command with its initiator's saved and current data pointers
      (SCSI-2, section 6.4) and the data phases completed so far. */
  datatype Job = Job(nexus: nat, cdb: Cdb, noDisconnects: bool, saved: nat, current: nat, moved: seq<Chunk>)

  datatype Phase = Data(code: Code, dataLen: int) | Disconnecting | Reselecting

  datatype Bus = Free | Held(job: Job, phase: Phase)

  /** A suspended disconnect callback, and the number of cancels since it gave up the lock. */
  datatype Window = Window(job: Job, cancels: nat)

  /** How a command ended. */
  datatype Event =
    | Done(nexus: nat, cdb: Cdb, status: Status, moved: seq<Chunk>)
    | Killed(nexus: nat, cdb: Cdb, moved: seq<Chunk>)
    | Restarted(nexus: nat, cdb: Cdb, moved: seq<Chunk>)
    | Failed(nexus: nat, cdb: Cdb, moved: seq<Chunk>)

  datatype System = System(driver: State, bus: Bus, windows: seq<Window>, log: seq<Event>)

  datatype Step =
    | Receive(nexus: nat, cdb: Cdb, noDisconnects: bool)
    | DataDone
    | Disconnected
    | Relock(window: nat)
    | Reselected
    | Cancel(nexus: nat, reason: Code)

  const BLANK := Record(0, Good)

  /** Which callback may come next: the contract of the SCSI system and its lock. While a command is
      connected only its own initiator can send an abort message. */
  predicate Enabled(s: System, step: Step) {
    match step
    case Receive(_, _, _) => s.bus.Free?
    case DataDone => s.bus.Held? && s.bus.phase.Data?
    case Disconnected => s.bus.Held? && s.bus.phase.Disconnecting?
    case Relock(w) => s.bus.Free? && w < |s.windows|
    case Reselected => s.bus.Held? && s.bus.phase.Reselecting?
    case Cancel(n, reason) => IsCancel(reason) && (s.bus.Held? && reason == Abort ==> n == s.bus.job.nexus)
  }

  function AddCancel(windows: seq<Window>): seq<Window> {
    seq(|windows|, i requires 0 <= i < |windows| => windows[i].(cancels := windows[i].cancels + 1))
  }

  function ApplyReceive(s: System, n: nat, cdb: Cdb, noDisconnects: bool): System
    requires s.bus.Free?
  {
    var o := OnCommand(s.driver, BLANK, cdb);
    if o.action == Complete then s.(driver := o.state, log := s.log + [Done(n, cdb, o.record.status, [])])
    else s.(driver := o.state, bus := Held(Job(n, cdb, noDisconnects, 0, 0, []), Data(o.action, o.record.dataLen)))
  }

  function ApplyDataDone(s: System): System
    requires s.bus.Held? && s.bus.phase.Data?
  {
    var Data(code, dataLen) := s.bus.phase;
    var length := if dataLen < 0 then 0 else dataLen;
    var j := s.bus.job;
    var j' := j.(current := j.current + length, moved := j.moved + [Chunk(code, j.current, length)]);
    var o := OnData(s.driver, Record(dataLen, CheckCondition), code, j.noDisconnects);
    match o.action
    case Complete =>
      s.(driver := o.state, bus := Free, log := s.log + [Done(j.nexus, j.cdb, o.record.status, j'.moved)])
    case SaveAndDisconnect => s.(driver := o.state, bus := Held(j'.(saved := j'.current), Disconnecting))
    case NotOk => s.(driver := o.state, bus := Free, log := s.log + [Failed(j.nexus, j.cdb, j'.moved)])
    case _ => s.(driver := o.state, bus := Held(j', Data(o.action, o.record.dataLen)))
  }

  function ApplyRelock(s: System, w: nat): System
    requires w < |s.windows|
  {
    var o := OnRelock(s.driver, BLANK);
    var j := s.windows[w].job;
    var others := s.windows[..w] + s.windows[w + 1..];
    if o.action == Restart
    then s.(driver := o.state, windows := others, log := s.log + [Restarted(j.nexus, j.cdb, j.moved)])
    else s.(driver := o.state, windows := others, bus := Held(j, Reselecting))
  }

  function Apply(s: System, step: Step): System
    requires Enabled(s, step)
  {
    match step
    case Receive(n, cdb, noDisconnects) => ApplyReceive(s, n, cdb, noDisconnects)
    case DataDone => ApplyDataDone(s)
    case Disconnected =>
      // the initiator keeps only the saved pointer while it is disconnected
      s.(driver := OnDisconnect(s.driver), bus := Free,
         windows := s.windows + [Window(s.bus.job.(current := 0), 0)])
    case Relock(w) => ApplyRelock(s, w)
    case Reselected =>
      var o := OnReselect(s.driver, BLANK);
      s.(driver := o.state, bus := Held(s.bus.job.(current := s.bus.job.saved), Data(o.action, o.record.dataLen)))
    case Cancel(_, reason) =>
      s.(driver := OnCancel(s.driver, BLANK, reason).state, bus := Free, windows := AddCancel(s.windows),
         log := s.log + if s.bus.Held? then [Killed(s.bus.job.nexus, s.bus.job.cdb, s.bus.job.moved)] else [])
  }

  /** A cancel takes the connected command off the bus and is counted in every window. While the bus is
      free it may come for any nexus, with any reason that asks for nothing else. */
  lemma CancelTakes(s: System, n: nat, reason: Code)
    requires reason !in {Command, DataIn, DataOut, Disconnect, Reselect}
    ensures s.bus.Free? || reason != Abort || n == s.bus.job.nexus <==> Enabled(s, Cancel(n, reason))
    ensures Enabled(s, Cancel(n, reason)) ==>
      var s' := Apply(s, Cancel(n, reason));
      && s'.bus.Free? && |s'.windows| == |s.windows|
      && (forall w :: 0 <= w < |s.windows| ==>
            s'.windows[w].job == s.windows[w].job && s'.windows[w].cancels == s.windows[w].cancels + 1)
      && s'.log == s.log + if s.bus.Held? then [Killed(s.bus.job.nexus, s.bus.job.cdb, s.bus.job.moved)] else []
  {
  }

  // ---------------------------------------------------------------- runs

  predicate Feasible(s: System, steps: seq<Step>)
    decreases |steps|
  {
    |steps| == 0 || (Enabled(s, steps[0]) && Feasible(Apply(s, steps[0]), steps[1..]))
  }

  function Exec(s: System, steps: seq<Step>): System
    requires Feasible(s, steps)
    decreases |steps|
  {
    if |steps| == 0 then s else Exec(Apply(s, steps[0]), steps[1..])
  }

  /** The state after start-up; the residue and direction fields are still whatever memory held. */
  predicate IsInit(s: System) {
    !s.driver.busy && !s.driver.working && s.bus.Free? && s.windows == [] && s.log == []
  }

  /** A cancel while some suspended callback has already seen one in its window. */
  predicate SecondCancel(s: System, step: Step) {
    step.Cancel? && exists w :: 0 <= w < |s.windows| && s.windows[w].cancels >= 1
  }

  predicate OneCancelPerWindow(s: System, steps: seq<Step>)
    requires Feasible(s, steps)
    decreases |steps|
  {
    |steps| == 0 || (!SecondCancel(s, steps[0]) && OneCancelPerWindow(Apply(s, steps[0]), steps[1..]))
  }

  lemma {:induction false} FeasiblePrefix(s: System, steps: seq<Step>, k: nat)
    requires Feasible(s, steps) && k <= |steps|
    ensures Feasible(s, steps[..k])
    ensures OneCancelPerWindow(s, steps) ==> OneCancelPerWindow(s, steps[..k])
    decreases k
  {
    hide Apply, Enabled;
    if k > 0 {
      FeasiblePrefix(Apply(s, steps[0]), steps[1..], k - 1);
      assert steps[..k][1..] == steps[1..][..k - 1];
    }
  }

  lemma {:induction false} ExecAppend(s: System, a: seq<Step>, b: seq<Step>)
    requires Feasible(s, a) && Feasible(Exec(s, a), b)
    ensures Feasible(s, a + b) && Exec(s, a + b) == Exec(Exec(s, a), b)
    decreases |a|
  {
    hide Apply, Enabled;
    if |a| == 0 {
      assert a + b == b;
    } else {
      ExecAppend(Apply(s, a[0]), a[1..], b);
      assert (a + b)[1..] == a[1..] + b;
    }
  }

  predicate CancelFree(steps: seq<Step>) {
    forall i :: 0 <= i < |steps| ==> !steps[i].Cancel?
  }

  lemma {:induction false} CancelFreeHasNoSecond(s: System, steps: seq<Step>)
    requires Feasible(s, steps) && CancelFree(steps)
    ensures OneCancelPerWindow(s, steps)
    decreases |steps|
  {
    hide Apply, Enabled;
    if |steps| > 0 {
      CancelFreeHasNoSecond(Apply(s, steps[0]), steps[1..]);
    }
  }

  lemma FirstThen(s: System, step: Step, rest: seq<Step>)
    requires Enabled(s, step) && Feasible(Apply(s, step), rest)
    ensures Feasible(s, [step] + rest) && Exec(s, [step] + rest) == Exec(Apply(s, step), rest)
  {
    hide Apply, Enabled;
    assert ([step] + rest)[1..] == rest;
  }

  lemma UnfoldTwo(s: System, steps: seq<Step>)
    requires |steps| == 2 && Enabled(s, steps[0]) && Enabled(Apply(s, steps[0]), steps[1])
    ensures Feasible(s, steps) && Exec(s, steps) == Apply(Apply(s, steps[0]), steps[1])
    ensures OneCancelPerWindow(s, steps) <==>
      !SecondCancel(s, steps[0]) && !SecondCancel(Apply(s, steps[0]), steps[1])
  {
    hide Apply, Enabled, SecondCancel;
    var s1, one := Apply(s, steps[0]), steps[1..];
    assert one[0] == steps[1] && one[1..] == [];
    assert Feasible(s1, one) && Exec(s1, one) == Apply(s1, steps[1]);
    assert OneCancelPerWindow(s1, one) <==> !SecondCancel(s1, steps[1]);
  }

  lemma UnfoldThree(s: System, steps: seq<Step>)
    requires |steps| == 3 && Enabled(s, steps[0]) && Enabled(Apply(s, steps[0]), steps[1])
    requires Enabled(Apply(Apply(s, steps[0]), steps[1]), steps[2])
    ensures Feasible(s, steps)
    ensures Exec(s, steps) == Apply(Apply(Apply(s, steps[0]), steps[1]), steps[2])
  {
    hide Apply, Enabled;
    var two, one := steps[1..], steps[2..];
    assert two[0] == steps[1] && two[1..] == one;
    assert one[0] == steps[2] && one[1..] == [];
    var s1 := Apply(s, steps[0]);
    var s2 := Apply(s1, steps[1]);
    assert Feasible(s2, one) && Exec(s2, one) == Apply(s2, steps[2]);
    assert Feasible(s1, two) && Exec(s1, two) == Exec(s2, one);
  }

  lemma {:induction false} OneCancelSuffix(s: System, a: seq<Step>, b: seq<Step>)
    requires Feasible(s, a) && Feasible(Exec(s, a), b) && Feasible(s, a + b)
    requires OneCancelPerWindow(s, a + b)
    ensures OneCancelPerWindow(s, a) && OneCancelPerWindow(Exec(s, a), b)
    decreases |a|
  {
    hide Apply, Enabled;
    if |a| == 0 {
      assert a + b == b;
    } else {
      assert (a + b)[1..] == a[1..] + b;
      OneCancelSuffix(Apply(s, a[0]), a[1..], b);
    }
  }

  // ---------------------------------------------------------------- chunk sequences

  /** The data phases that move bytes from..n of a transfer, each as large as the buffer allows. */
  function Chunks(direction: Code, from: nat, n: nat): seq<Chunk>
    decreases n - from
  {
    if from >= n then []
    else
      var k := Min(DATA_SIZE, n - from);
      [Chunk(direction, from, k)] + Chunks(direction, from + k, n)
  }

  function Expected(cdb: Cdb): seq<Chunk> {
    Chunks(TransferDirection(cdb), 0, TransferLength(cdb))
  }

  lemma {:induction false} ChunksShape(d: Code, from: nat, n: nat)
    requires from <= n
    ensures |Chunks(d, from, n)| == (n - from + DATA_SIZE - 1) / DATA_SIZE
    ensures forall i :: 0 <= i < |Chunks(d, from, n)| ==>
      Chunks(d, from, n)[i] == Chunk(d, from + DATA_SIZE * i, Min(DATA_SIZE, n - from - DATA_SIZE * i))
      && from + DATA_SIZE * i < n
    decreases n - from
  {
    if from < n {
      var k := Min(DATA_SIZE, n - from);
      ChunksShape(d, from + k, n);
      var rest := Chunks(d, from + k, n);
      forall i | 0 <= i < |Chunks(d, from, n)|
        ensures Chunks(d, from, n)[i] == Chunk(d, from + DATA_SIZE * i, Min(DATA_SIZE, n - from - DATA_SIZE * i))
        ensures from + DATA_SIZE * i < n
      {
        if i > 0 {
          assert Chunks(d, from, n)[i] == rest[i - 1];
        }
      }
    }
  }

  predicate Covers(c: Chunk, b: nat) {
    c.offset <= b < c.offset + c.length
  }

  /** Every byte of an n-byte transfer moves in exactly one data phase, in order, and nothing else moves. */
  lemma {:induction false} ChunksPartition(d: Code, n: nat, b: nat)
    ensures forall i :: 0 <= i < |Chunks(d, 0, n)| ==>
      Chunks(d, 0, n)[i].direction == d && 1 <= Chunks(d, 0, n)[i].length <= DATA_SIZE
    ensures b < n ==> b / DATA_SIZE < |Chunks(d, 0, n)|
    ensures forall i :: 0 <= i < |Chunks(d, 0, n)| ==>
      (Covers(Chunks(d, 0, n)[i], b) <==> b < n && i == b / DATA_SIZE)
  {
    ChunksShape(d, 0, n);
  }
}
