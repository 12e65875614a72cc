/** Vocabulary of the SCSI library shared by the target driver and the disk test:
    command descriptor blocks, status values and the callback codes. */
module Scsi {
  import opened Words

  const CDB_SIZE := 12
  type Cdb = s: seq<byte> | |s| == CDB_SIZE witness seq(CDB_SIZE, _ => 0)

  const SCMD_TEST_UNIT_READY: byte := 0x00
  const SCMD_RECEIVE: byte := 0x08
  const SCMD_SEND: byte := 0x0a
  const SCMD_INQUIRY: byte := 0x12
  const SCMD_READ_10: byte := 0x28
  const SCMD_WRITE_10: byte := 0x2a

  const STD_INQUIRY_SIZE := 36

  datatype Status = Good | CheckCondition | Busy

  /** Reasons for a target callback and the actions a callback returns share one set of codes. */
  datatype Code =
    | Complete
    | Command
    | DataIn
    | DataOut
    | SaveAndDisconnect
    | Disconnect
    | Reselect
    | Restart
    | Abort
    | Reset
    | NotOk
    | Other(value: int)

  /** A big-endian parameter (scsi_get_value). */
  function GetValue(source: seq<byte>): nat {
    if |source| == 0 then 0
    else 256 * GetValue(source[..|source| - 1]) + source[|source| - 1]
  }

  lemma GetValue2(s: seq<byte>)
    requires |s| == 2
    ensures GetValue(s) == 256 * (s[0] as int) + s[1]
  {
    assert GetValue(s[..1]) == 256 * GetValue(s[..1][..0]) + s[0];
  }

  lemma GetValue3(s: seq<byte>)
    requires |s| == 3
    ensures GetValue(s) == 65536 * (s[0] as int) + 256 * (s[1] as int) + s[2]
  {
    GetValue2(s[..2]);
  }

  function Min(a: int, b: int): int {
    if a <= b then a else b
  }
}
