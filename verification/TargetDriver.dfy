/** The example SCSI target driver: one state record shared by the callbacks of every nexus. */
module TargetDriver {
  import opened Scsi

  const DATA_SIZE := 4096

  /** The value of the driver's shared state record. */
  datatype State = State(residue: int, direction: Code, busy: bool, working: bool)

  /** The fields of a nexus's target record that the driver writes. */
  datatype Record = Record(dataLen: int, status: Status)

  /** What one callback leaves behind, and the action it asks of the SCSI system. */
  datatype Outcome = Outcome(state: State, record: Record, action: Code)

  /** The number of bytes a command asks to move. */
  function TransferLength(cdb: Cdb): nat {
    if cdb[0] == SCMD_INQUIRY then Min(cdb[4], STD_INQUIRY_SIZE)
    else if cdb[0] == SCMD_SEND || cdb[0] == SCMD_RECEIVE then GetValue(cdb[2..5])
    else 0
  }

  function TransferDirection(cdb: Cdb): Code {
    if cdb[0] == SCMD_SEND then DataOut else DataIn
  }

  predicate IsSupported(cdb: Cdb) {
    cdb[0] in {SCMD_TEST_UNIT_READY, SCMD_INQUIRY, SCMD_SEND, SCMD_RECEIVE}
  }

  predicate IsDirection(code: Code) {
    code == DataIn || code == DataOut
  }

  /** The reasons handled by the reset, abort and default branches of the callback. */
  predicate IsCancel(code: Code) {
    !IsDirection(code) && code != Command && code != Disconnect && code != Reselect
  }

  function OnCommand(s: State, t: Record, cdb: Cdb): Outcome {
    var n := TransferLength(cdb);
    if s.busy then Outcome(s, t.(status := Busy), Complete)
    else if !IsSupported(cdb) then Outcome(s, t.(status := CheckCondition), Complete)
    else if cdb[0] == SCMD_TEST_UNIT_READY then Outcome(s, t.(status := Good), Complete)
    else if n == 0 then Outcome(s.(residue := 0), t.(status := Good), Complete)
    else Outcome(s.(residue := n, busy := true), t.(dataLen := Min(n, DATA_SIZE)), TransferDirection(cdb))
  }

  function OnData(s: State, t: Record, reason: Code, noDisconnects: bool): Outcome {
    var left := s.residue - t.dataLen;
    var s' := s.(residue := left);
    if left == 0 then Outcome(s'.(busy := false), t.(status := Good), Complete)
    else if left < 0 then Outcome(s'.(busy := false), t, NotOk)
    else if noDisconnects then Outcome(s', t.(dataLen := Min(left, DATA_SIZE)), reason)
    else Outcome(s'.(direction := reason), t, SaveAndDisconnect)
  }

  /** The disconnect callback up to its call of scsi_unlock. */
  function OnDisconnect(s: State): State {
    s.(working := true)
  }

  /** The rest of the disconnect callback, from the return of scsi_lock. */
  function OnRelock(s: State, t: Record): Outcome {
    if !s.working then Outcome(s.(busy := false), t, Restart)
    else Outcome(s.(working := false), t, Reselect)
  }

  function OnReselect(s: State, t: Record): Outcome {
    Outcome(s, t.(dataLen := Min(s.residue, DATA_SIZE)), s.direction)
  }

  function OnCancel(s: State, t: Record, reason: Code): Outcome {
    Outcome(s.(busy := s.busy && s.working, working := false), t,
            if reason == Reset || reason == Abort then reason else NotOk)
  }

  /** The target structure of one nexus. */
  class Target {
    var reason: Code
    var cdb: Cdb
    var dataLen: int
    var status: Status
    var noDisconnects: bool

    ghost function Value(): Record
      reads this
    {
      Record(dataLen, status)
    }
  }

  /** The driver: the shared state record and its callbacks. */
  class Driver {
    var residue: int
    var direction: Code
    var busy: bool
    var working: bool

    ghost function Value(): State
      reads this
    {
      State(residue, direction, busy, working)
    }

    constructor ()
      ensures !busy && !working
    {
      direction := Other(0);
      busy := false;
      working := false;
    }

    method TargetCommand(target: Target) returns (action: Code)
      modifies this, target`dataLen, target`status
      ensures Outcome(Value(), target.Value(), action) == OnCommand(old(Value()), old(target.Value()), target.cdb)
      ensures working == old(working) && direction == old(direction)
      ensures old(busy) ==>
        action == Complete && target.status == Busy && busy && residue == old(residue)
        && target.dataLen == old(target.dataLen)
      ensures !old(busy) && target.cdb[0] == 0x12 && target.cdb[4] > 0 ==>
        action == DataIn && busy && residue == target.dataLen == (if target.cdb[4] < 36 then target.cdb[4] else 36)
        && target.status == old(target.status)
      ensures !old(busy) && target.cdb[0] in {0x08, 0x0a} ==>
        var n := 65536 * target.cdb[2] as int + 256 * target.cdb[3] as int + target.cdb[4];
        residue == n
        && (n > 0 ==>
              action == (if target.cdb[0] == 0x0a then DataOut else DataIn) && busy
              && target.dataLen == (if n < 4096 then n else 4096) && target.status == old(target.status))
        && (n == 0 ==> action == Complete && target.status == Good && !busy && target.dataLen == old(target.dataLen))
      ensures !old(busy) && (target.cdb[0] == 0x00 || (target.cdb[0] == 0x12 && target.cdb[4] == 0)) ==>
        action == Complete && target.status == Good && !busy && target.dataLen == old(target.dataLen)
        && residue == if target.cdb[0] == 0x00 then old(residue) else 0
      ensures !old(busy) && target.cdb[0] !in {0x00, 0x08, 0x0a, 0x12} ==>
        action == Complete && target.status == CheckCondition && !busy && residue == old(residue)
        && target.dataLen == old(target.dataLen)
    {
      GetValue3(target.cdb[2..5]);
      if busy {
        target.status := Busy;
        return Complete;
      }
      var opcode := target.cdb[0];
      if opcode == SCMD_TEST_UNIT_READY {
        target.status := Good;
        return Complete;
      } else if opcode == SCMD_INQUIRY {
        residue := target.cdb[4];
        if residue == 0 {
          target.status := Good;
          return Complete;
        } else if residue > STD_INQUIRY_SIZE {
          residue := STD_INQUIRY_SIZE;
        }
        target.dataLen := residue;
        busy := true;
        return DataIn;
      } else if opcode == SCMD_SEND || opcode == SCMD_RECEIVE {
        residue := GetValue(target.cdb[2..5]);
        if residue == 0 {
          target.status := Good;
          return Complete;
        }
        if residue > DATA_SIZE {
          target.dataLen := DATA_SIZE;
        } else {
          target.dataLen := residue;
        }
        busy := true;
        return if opcode == SCMD_SEND then DataOut else DataIn;
      } else {
        target.status := CheckCondition;
        return Complete;
      }
    }

    /** Every callback that runs under the lock from start to end. */
    method TargetCallback(target: Target) returns (action: Code)
      requires target.reason != Disconnect
      modifies this, target`dataLen, target`status
      ensures Outcome(Value(), target.Value(), action) ==
              if target.reason == Command then OnCommand(old(Value()), old(target.Value()), target.cdb)
              else if IsDirection(target.reason) then
                OnData(old(Value()), old(target.Value()), target.reason, target.noDisconnects)
              else if target.reason == Reselect then OnReselect(old(Value()), old(target.Value()))
              else OnCancel(old(Value()), old(target.Value()), target.reason)
      ensures target.reason in {DataIn, DataOut} ==>
        var left := old(residue) - old(target.dataLen);
        residue == left && working == old(working)
        && (left == 0 ==> action == Complete && target.status == Good && !busy)
        && (left < 0 ==> action == NotOk && target.status == old(target.status) && !busy)
        && (left > 0 ==> busy == old(busy) && target.status == old(target.status)
                         && action == if target.noDisconnects then target.reason else SaveAndDisconnect)
        && direction == (if left > 0 && !target.noDisconnects then target.reason else old(direction))
        && target.dataLen == (if left <= 0 || !target.noDisconnects then old(target.dataLen)
                              else if left < 4096 then left else 4096)
      ensures target.reason == Reselect ==>
        action == direction && target.dataLen == (if residue < 4096 then residue else 4096)
        && Value() == old(Value()) && target.status == old(target.status)
      ensures target.reason !in {Command, DataIn, DataOut, Reselect} ==>
        action == (if target.reason == Abort then Abort else if target.reason == Reset then Reset else NotOk)
        && busy == (old(busy) && old(working)) && !working && residue == old(residue) && direction == old(direction)
        && target.Value() == old(target.Value())
    {
      if target.reason == Command {
        action := TargetCommand(target);
      } else if IsDirection(target.reason) {
        residue := residue - target.dataLen;
        if residue == 0 {
          target.status := Good;
          busy := false;
          return Complete;
        } else if residue < 0 {
          busy := false;
          return NotOk;
        }
        if target.noDisconnects {
          target.dataLen := if residue > DATA_SIZE then DATA_SIZE else residue;
          return target.reason;
        }
        direction := target.reason;
        return SaveAndDisconnect;
      } else if target.reason == Reselect {
        target.dataLen := if residue > DATA_SIZE then DATA_SIZE else residue;
        return direction;
      } else {
        if !working {
          busy := false;
        }
        working := false;
        return if target.reason == Reset || target.reason == Abort then target.reason else NotOk;
      }
    }

    /** The disconnect callback before it gives up the SCSI lock. */
    method Disconnected()
      modifies this
      ensures Value() == OnDisconnect(old(Value()))
      ensures working && busy == old(busy) && residue == old(residue) && direction == old(direction)
    {
      working := true;
    }

    /** The disconnect callback once it holds the SCSI lock again. */
    method Relocked(target: Target) returns (action: Code)
      modifies this
      ensures Outcome(Value(), target.Value(), action) == OnRelock(old(Value()), target.Value())
      ensures action == if old(working) then Reselect else Restart
      ensures !working && busy == (old(busy) && old(working)) && residue == old(residue) && direction == old(direction)
    {
      if !working {
        busy := false;
        return Restart;
      }
      working := false;
      return Reselect;
    }
  }
}
