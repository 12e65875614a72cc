/** The state machine's steps are what the driver object does when the SCSI system calls it. */
module TargetStep {
  import opened Scsi
  import opened TargetDriver
  import opened TargetProtocol
  import opened TargetCancel

  /** The target record as the SCSI system presents it for a step. */
  ghost predicate Presents(t: Target, s: System, step: Step)
    requires Enabled(s, step)
    reads t
  {
    match step
    case Receive(_, cdb, noDisconnects) => t.reason == Command && t.cdb == cdb && t.noDisconnects == noDisconnects
    case DataDone =>
      t.reason == s.bus.phase.code && IsDirection(t.reason) && t.dataLen == s.bus.phase.dataLen
      && t.noDisconnects == s.bus.job.noDisconnects
    case Disconnected => t.reason == Disconnect
    case Relock(_) => t.reason == Disconnect
    case Reselected => t.reason == Reselect
    case Cancel(_, reason) => t.reason == reason
  }

  /** What the SCSI system does next is what the callback asked for. */
  ghost predicate Obeys(action: Code, dataLen: int, status: Status, s: System, step: Step)
    requires Enabled(s, step)
  {
    var s' := Apply(s, step);
    match action
    case Complete =>
      s'.bus.Free? && match step {
        case Receive(n, cdb, _) => s'.log == s.log + [Done(n, cdb, status, [])]
        case DataDone =>
          var j := s.bus.job;
          var length := if s.bus.phase.dataLen < 0 then 0 else s.bus.phase.dataLen;
          s'.log == s.log + [Done(j.nexus, j.cdb, status, j.moved + [Chunk(s.bus.phase.code, j.current, length)])]
        case _ => false
      }
    case DataIn => s'.bus.Held? && s'.bus.phase == Data(DataIn, dataLen) && s'.log == s.log
    case DataOut => s'.bus.Held? && s'.bus.phase == Data(DataOut, dataLen) && s'.log == s.log
    case SaveAndDisconnect =>
      s'.bus.Held? && s'.bus.phase == Disconnecting && s'.bus.job.saved == s'.bus.job.current && s'.log == s.log
    case Reselect =>
      step.Relock? && s'.bus == Held(s.windows[step.window].job, Reselecting) && s'.log == s.log
    case Restart =>
      step.Relock? && s'.bus.Free?
      && var j := s.windows[step.window].job; s'.log == s.log + [Restarted(j.nexus, j.cdb, j.moved)]
    case NotOk =>
      // the SCSI system resets the bus
      s'.bus.Free? && if step.Cancel? then step.reason !in {Abort, Reset} else step.DataDone?
    case Abort => step.Cancel? && step.reason == Abort && s'.bus.Free?
    case Reset => step.Cancel? && step.reason == Reset && s'.bus.Free?
    case _ => false
  }

  /** Main result: the driver object takes every step of the state machine, and the state machine
      follows every action the driver object returns. */
  method Perform(d: Driver, t: Target, ghost s: System, step: Step) returns (action: Code)
    requires Enabled(s, step) && d.Value() == s.driver && Presents(t, s, step)
    requires step.Reselected? ==> IsDirection(s.driver.direction)
    modifies d, t`dataLen, t`status
    ensures d.Value() == Apply(s, step).driver
    ensures !step.Disconnected? ==> Obeys(action, t.dataLen, t.status, s, step)
    ensures Sane(s) && action == NotOk ==> step.Cancel?
  {
    if step.Disconnected? {
      d.Disconnected();
      action := Disconnect;
    } else if step.Relock? {
      action := d.Relocked(t);
    } else {
      action := d.TargetCallback(t);
    }
  }
}
