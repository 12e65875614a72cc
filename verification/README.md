# Verified models of the TTM50 and TFS example programs

A Dafny model of four programs shipped with the Transtech SCSI TRAM (TTM50) and the Transtech File
System (TFS), with proofs of what they promise. `dafny verify dfyconfig.toml` checks everything.

**SCSI target driver** (`Scsi`, `TargetDriver`, `TargetProtocol`, `TargetStep`, `TargetSafety`,
`TargetRefinement`, `TargetProgress`, `TargetCancel`). `TargetDriver.Driver` is the driver: the shared
state record and its callbacks, each proved against a function on state values. The disconnect
callback is two methods, split where it gives up the SCSI lock. `TargetProtocol` puts those functions
into a state machine: a bus that is free or held by one command, a list of commands suspended in their
disconnect windows, the initiators' saved and current data pointers (SCSI-2, ANSI X3.131-1994, section
6.4) and a log of how each command ended. `TargetStep` proves that the driver object takes exactly the steps of that machine. Any number
of nexuses interleave. A *cancel* is a callback with reset, abort or an invalid reason.

The machine assumes what the manual pages of scsi_target and scsi_lock say: one callback at a time, the
lock held from a command to scsi_unlock and from scsi_lock to its end, each reason following the action
that asks for it. A cancel may come between any two callbacks; it ends the connected command, if there
is one, and leaves suspended callbacks to find out when they have the lock again. A reset or an invalid
reason may name any nexus; while a command is connected an abort comes from its own initiator. The
results are about every run:

* exclusive ownership of the shared state holds throughout a run if and only if no disconnect window
  sees two cancels;
* the reports stay right, however a run goes on without further cancels, if and only if no window
  sees two cancels: before that, a command reported GOOD moved exactly its bytes, once each and in
  order; after it, some continuation reports GOOD for a command whose data went the wrong way;
* under that condition every run refines a run in which no command ever disconnects;
* in every run without cancels the outstanding command is reported GOOD with data phase number
  ceil(n / 4096), after a known number of callbacks, whatever other initiators send in its windows;
* with any number of cancels the residue stays sound and the busy flag never leaks.

**Flash EPROM utility** (`Words`, `FlashDevice`, `HexFile`, `FlashUtility`). The device is four
byte-wide chips, each with its own command register, that decide for themselves what a bus write
means. How far a program or erase pulse gets is arbitrary. The utility is the source's loops. If it
reports success the device holds exactly the bytes the hex file gives and 0xff elsewhere, whatever the
pulses did; every failure has a cause: the wrong part, a file that does not open, is invalid or
contradicts itself, or a retry loop that used all its pulses. If every pulse is complete, it succeeds
whenever the part shows its codes and the file is consistent.
No write is ever taken by a chip for something other than it was meant as, and the four command
registers agree after every write but possibly the first.

**Directory walk** (`DirectoryWalk`). The recursive `find` under a table of sixteen descriptors. Every
call gives back the descriptors it found, and the walk reports exactly what a filter of the full
pre-order listing reports.

**Disk test and file test** (`DiskTest`, `ShadowFile`). The arithmetic pattern of the disk test, the
choice of the buffer size, the CDB and the fill, clear, read and compare sequence on an untrusted disk;
and two of the file system tests, for all random numbers: on an untrusted file they pass exactly when
the replies are right, and on an honest one they keep file and buffer in step.

Inputs that come from outside are parameters or arbitrary values: random numbers, whether a file
opens, the device's pulses, the disk's replies, the interleaving of callbacks and the cancels.

Where the code and its comments disagree the model follows the code: the retry loops marked "4 attempts
only" make at most 3 pulses. The manual page of scsi_target (TTM50/MAN/MAN3/TARGET:176-180) says that an
ABORT concerns the indicated nexus; the code never looks at the nexus. `TargetCancel.AbortSparesOthersIff`
says exactly when that matters: an abort leaves the other initiators' commands alone if and only if none
of them waits in its window, and `AbortHitsAnother` reaches a state where one does. The disk test accepts
disks whose buffer is not whole words, and its loops then leave the buffer; `DiskTest.LoopsOverrunIff`
says exactly which disks those are.

## Model

| member | source | states |
|---|---|---|
| TargetDriver.Driver.constructor | TTM50/EXAMPLES/TARGET.C:324-326 | after start-up neither flag is set |
| TargetDriver.Driver.TargetCommand | TTM50/EXAMPLES/TARGET.C:38-156 | opcode by opcode, in numbers: what an idle driver answers, which length and direction it sets up and whether it is busy then, zero lengths, the INQUIRY clamp at 36, unknown opcodes, and the refusal of a busy one; and that this is the command function the run theorems are about |
| TargetDriver.Driver.TargetCallback | TTM50/EXAMPLES/TARGET.C:159-287 | reason by reason: completion, failure, continuation or disconnection after data; the length and direction on reselection; ABORT answered with ABORT, reset with reset, an invalid reason with NOT_OK, and what a cancel does to the flags; and that this is the specification the run theorems are about |
| TargetDriver.Driver.Disconnected | TTM50/EXAMPLES/TARGET.C:208-215 | the disconnect callback before scsi_unlock sets working and nothing else |
| TargetDriver.Driver.Relocked | TTM50/EXAMPLES/TARGET.C:217-234 | the disconnect callback after scsi_lock: RESTART and not busy when a cancel cleared working, else RESELECT |
| TargetStep.Perform | TTM50/MAN/MAN3/TARGET:102-206 | called as the manual says for any step of the state machine, the driver object reaches the machine's driver state, and the machine follows the action, data length and status it returns, with the right command in the log; outside invalid reasons it never asks for a bus reset in a reachable state |
| TargetProtocol.CancelTakes | TTM50/MAN/MAN3/TARGET:176-197 | a cancel with any other reason than the five regular ones takes the connected command off the bus and is counted in every window |
| Scsi.GetValue3 | TTM50/EXAMPLES/TARGET.C:102-127 | the 24-bit big-endian transfer length |
| TargetProtocol.ChunksShape | TTM50/EXAMPLES/TARGET.C:110-146 | a transfer of n bytes is floor(n / 4096) full data phases and a non-empty remainder, at offsets 0, 4096, ... |
| TargetProtocol.ChunksPartition | TTM50/EXAMPLES/TARGET.C:190-206 | those data phases have one direction, fit the buffer, and each byte below n lies in exactly one of them |
| TargetSafety.InvStep | TTM50/EXAMPLES/TARGET.C:159-287 | from a state in which residue and direction are the owner's, each callback of any nexus leads to such a state unless it is a second cancel in a window, and that one always loses ownership |
| TargetSafety.InvRun | TTM50/EXAMPLES/TARGET.C:236-245 | in every run with at most one cancel a window, a reselected or connected command has its own residue and direction, never another's |
| TargetSafety.FirstSecondCancel | TTM50/EXAMPLES/TARGET.C:247-282 | a run in which some window sees two cancels has a first such cancel: the run up to it has none and keeps the ownership invariant |
| TargetSafety.ExclusiveOwnership | TTM50/EXAMPLES/TARGET.C:43-50 | for every run: at most one command outstanding, busy exactly then, working exactly in an uncancelled window, in all states passed through, if and only if no window sees two cancels |
| TargetSafety.Conservation | TTM50/EXAMPLES/TARGET.C:171-188 | for every such run, GOOD means exactly the expected data phases, a refused or rejected command moved nothing, a cancelled one stopped short, and the invalid-residue branch never ran |
| TargetSafety.GoodMovesEachByteOnce | TTM50/EXAMPLES/TARGET.C:167-206 | a command reported GOOD moved each byte of its length once, in order, in its own direction, and no other byte |
| TargetRefinement.StutterStep | TTM50/EXAMPLES/TARGET.C:203-245 | save and disconnect, window, reselection and busy refusals change nothing in the picture without disconnects |
| TargetRefinement.MatchingStep | TTM50/EXAMPLES/TARGET.C:190-201 | every other callback is matched by the same callback with SFLAG_NO_DISCONNECTS, a cancel by one from the nexus of the command it hits |
| TargetRefinement.DisconnectsAreTransparent | TTM50/EXAMPLES/TARGET.C:190-245 | every run with at most one cancel a window refines a run in which no command disconnects |
| TargetRefinement.ReportsWithoutDisconnects | TTM50/EXAMPLES/TARGET.C:190-245 | from start-up, the log without refusals is the log of a run without disconnects |
| TargetProgress.UndisturbedRun | TTM50/EXAMPLES/TARGET.C:167-245 | in every cancel-free run from an outstanding command, with refused commands of other nexuses in between: after fewer than ceil(residue / 4096) data phases the same command is outstanding and the residue counts them; with the last one it is reported GOOD with exactly its bytes and the driver is idle |
| TargetProgress.EveryTransferCompletes | TTM50/EXAMPLES/TARGET.C:98-206 | the same from the command on: every cancel-free run with ceil(n / 4096) data phases ends the accepted transfer of n bytes with the last of them, GOOD |
| TargetProgress.OneCallbackIsEnabled | TTM50/MAN/MAN3/TARGET:102-206 | besides new commands and cancels, exactly one callback can come while a command is outstanding, so it never gets stuck |
| TargetProgress.CompletesInCallbacks | TTM50/EXAMPLES/TARGET.C:167-245 | an outstanding command completes with a known number of callbacks (one a data phase, or 4 * ceil(residue / 4096) - 3 from the start of a data phase when it disconnects): with fewer, in any cancel-free run, it is outstanding, with as many it has been reported GOOD |
| TargetProgress.DataPhaseResult | TTM50/EXAMPLES/TARGET.C:167-206 | a data phase completes the command or lowers the residue by a full buffer, and then disconnects or goes on as the flag says |
| TargetProgress.OthersAreRefused | TTM50/EXAMPLES/TARGET.C:43-50 | while a command waits, any command of any nexus may come and is refused as BUSY, with nothing else changed |
| TargetProgress.Reconnects | TTM50/EXAMPLES/TARGET.C:208-245 | disconnect, relock and reselect give the bus back to the same command, with the initiator's pointer restored |
| TargetProgress.TransferCompletes | TTM50/EXAMPLES/TARGET.C:98-206 | such a run exists for every length, with and without disconnects |
| TargetCancel.CancelledWindow | TTM50/EXAMPLES/TARGET.C:211-269 | a command cancelled in its window moves no data, every other command is refused as BUSY until its callback has the lock again, and then it restarts and busy is clear |
| TargetCancel.SoundUnderAnyCancels | TTM50/EXAMPLES/TARGET.C:247-282 | with any number of cancels every data phase is 1..4096 bytes (36 for INQUIRY) and within the residue, and an idle system has neither flag set |
| TargetCancel.DataPhaseLowersResidue | TTM50/EXAMPLES/TARGET.C:171-188 | each data phase lowers the residue and keeps it non-negative; the command ends exactly at zero |
| TargetCancel.AbortRestartsTheWaiting | TTM50/EXAMPLES/TARGET.C:259-269 | an abort that names any nexus at all restarts the command that waits in its window, its own initiator's included |
| TargetCancel.AbortSparesOthersIff | TTM50/EXAMPLES/TARGET.C:259-269 | in every good state: an abort leaves the uncancelled command of any other nexus outstanding, with nothing logged, if and only if, with working set, it names the nexus of the command in its window; counting cancelled ones too, if and only if no command of another nexus waits |
| TargetCancel.AbortHitsAnother | TTM50/EXAMPLES/TARGET.C:208-269 | from start-up, for any two nexuses, a cancel-free run leads to a state where an abort from the one restarts the command of the other |
| TargetCancel.LostCommandIsCorrupted | TTM50/EXAMPLES/TARGET.C:211-245 | with both flags cleared, any waiting command can be finished without a further cancel by the residue and direction of another: it is reported GOOD with one more data phase, in the wrong direction |
| TargetCancel.SoundIffNotSecondCancel | TTM50/EXAMPLES/TARGET.C:247-282 | from any good state, all cancel-free continuations of a step keep the reports right if and only if the step is not a second cancel in a window |
| TargetCancel.ConservationIffOneCancel | TTM50/EXAMPLES/TARGET.C:159-287 | for every run: the reports are and stay right in all states passed through, under every cancel-free continuation, if and only if no window sees two cancels |
| TargetCancel.TwoCancelsCorrupt | TTM50/EXAMPLES/TARGET.C:250-255 | from start-up there is a run with two resets in one window in which a SEND of two data phases is reported GOOD although the second went in instead of out |
| FlashDevice.Device.Write | TTM50/EXAMPLES/FLASH.C:36-45 | each chip takes a write as command, erase confirmation or data by its own register; pulses change bits only as the pulse model allows |
| FlashDevice.Device.Read | TTM50/EXAMPLES/FLASH.C:369-387 | what a bus read shows in read, verify and identifier modes, the identifier codes being those of the part |
| FlashDevice.Device.Command | TTM50/EXAMPLES/FLASH.C:404-413 | command by command, in numbers: where each byte moves the four registers, together; no chip takes it for anything else and no word changes |
| FlashDevice.Device.Data | TTM50/EXAMPLES/FLASH.C:522-526 | any word at all, even one made of opcodes, is data after a program set-up, and only the addressed word can change |
| FlashDevice.Device.ConfirmErase | TTM50/EXAMPLES/FLASH.C:293-297 | the confirmation starts one erase pulse on all four chips |
| FlashDevice.ResetDataIsHarmless | TTM50/EXAMPLES/FLASH.C:342-343 | a reset word taken as program data changes nothing |
| FlashDevice.CompletePulse | TTM50/EXAMPLES/FLASH.C:520-541 | a complete pulse stores the data over a blank cell, over the same data, and when it is zero |
| FlashDevice.PulsesAreFree | TTM50/EXAMPLES/FLASH.C:520-541 | for any cell and data a program pulse may do nothing, everything, or anything between, and never sets a bit; the same for erase pulses |
| FlashUtility.ResetFe | TTM50/EXAMPLES/FLASH.C:334-346 | from any state of the four command registers, even different ones, read mode with the contents unchanged; only the first reset can leave them different, and only if they were |
| FlashUtility.ReadIdentifiers | TTM50/EXAMPLES/FLASH.C:348-387 | passes exactly when the part shows 0x89898989 and 0xb4b4b4b4, and never changes the array |
| FlashUtility.ZeroWord | TTM50/EXAMPLES/FLASH.C:398-419 | 1 to 3 pulses of zero at the word, each but the first because it did not read zero, 3 if it still does not; no other word changes or is pulsed |
| FlashUtility.ProgramToZero | TTM50/EXAMPLES/FLASH.C:389-421 | 1 to 3 pulses at each of the 0x20000 words, 3 where a word is still not zero, and all words zero when every pulse was complete |
| FlashUtility.CheckValue | TTM50/EXAMPLES/FLASH.C:250-273 | true exactly when every word has the value, else the first that has not |
| FlashUtility.Erase | TTM50/EXAMPLES/FLASH.C:275-332 | succeeds exactly when every word is erased; gives up after exactly 999 pulses, the first on an array of zeros, each later one on an array with an unerased word |
| FlashUtility.SetWords | TTM50/EXAMPLES/FLASH.C:493-499 | the address with the base or-ed in, and the bytes packed four to a word, low byte first |
| FlashUtility.Reader.GetLine | TTM50/EXAMPLES/FLASH.C:423-502 | 5, 9, 13 and 17 conversions give 1, 2, 3 and 4 words; any other count is a blank line, or an invalid one with reset and exit; end of file |
| FlashUtility.ProgramWord | TTM50/EXAMPLES/FLASH.C:514-542 | 1 to 3 pulses of the value, each but the first because it did not read back; fails exactly when it still does not, and then after 3; no other word changes or is pulsed |
| FlashUtility.ProgramWords | TTM50/EXAMPLES/FLASH.C:504-555 | success leaves the words of the line stored, with 1 to 3 pulses each; failure names a word that does not read back after 3; nothing outside the line changes or is pulsed |
| FlashUtility.CheckWords | TTM50/EXAMPLES/FLASH.C:557-580 | true exactly when the words of the line are stored |
| FlashUtility.ProgramFile | TTM50/EXAMPLES/FLASH.C:184-215 | only words that some line names change; on an erased device success means the described image, and failure names a file that does not open, an invalid line, or a word that does not read back after 3 pulses; with complete pulses a consistent file succeeds |
| FlashUtility.ProgramLine | TTM50/EXAMPLES/FLASH.C:202-210 | one line takes the image of the lines before it to the image with it |
| FlashUtility.CheckFile | TTM50/EXAMPLES/FLASH.C:217-248 | true exactly when the file opens, has no invalid line and every line is stored |
| FlashUtility.EraseDevice | TTM50/EXAMPLES/FLASH.C:132-161 | an unexpected part is left untouched; else the array ends erased, or a word is not zero after 3 pulses and nothing was erased, or 999 erase pulses did not do |
| FlashUtility.HighPriority | TTM50/EXAMPLES/FLASH.C:128-182 | from any device state the verdict says what happened: success means an expected part and a consistent file, every byte of every line in its place and every other byte 0xff; every failure has a cause, and on an expected part, with a consistent file that opens, only a word not zero after 3 pulses, 999 erase pulses, or a word that does not read back after 3; complete pulses mean success; no write is ever misread; only the very first write can leave the four registers different, and none does if they agreed |
| HexFile.LastGivenIsGiven | TTM50/EXAMPLES/FLASH.C:202-210 | the described word is one that some line gives, and blank exactly where no line names it |
| HexFile.ImageIsUnique | TTM50/EXAMPLES/FLASH.C:160-176 | contents that store every line and are erased elsewhere are the described image |
| HexFile.StorableIffConsistent | TTM50/EXAMPLES/FLASH.C:235-243 | some contents store all lines exactly when no two lines give different words for one address |
| HexFile.ConflictIsNotStored | TTM50/EXAMPLES/FLASH.C:565-579 | no contents pass the check of a file with two conflicting lines |
| HexFile.StoredBytes | TTM50/EXAMPLES/FLASH.C:445-499 | a line of 5, 9, 13 or 17 numbers is stored if and only if each of its 4, 8, 12 or 16 bytes is at its own byte address; any other line asks for nothing and is invalid if and only if it is not blank |
| HexFile.DescribedBytes | TTM50/EXAMPLES/FLASH.C:184-248 | contents are the image of a file without conflicts if and only if every byte a line gives is in its place and every other byte is 0xff |
| HexFile.BasedSetsOneBit | TTM50/EXAMPLES/FLASH.C:493-494 | or-ing in the base address sets bit 30 and keeps the other bits |
| HexFile.InDeviceIff | TTM50/EXAMPLES/FLASH.C:32-34 | which lines the model is about, in numbers: those in whole words within the 512 kilobytes |
| DirectoryWalk.Session.Open | TFS/EXAMPLES/TFSH/FIND.C:16-26 | an unused descriptor, or failure when the directory cannot be read or none is unused |
| DirectoryWalk.Session.FindDir | TFS/EXAMPLES/TFSH/FIND.C:14-45 | whatever fails beneath it, the same descriptors are in use afterwards, and the messages are those of the walk |
| DirectoryWalk.Session.FindEntries | TFS/EXAMPLES/TFSH/FIND.C:28-40 | the read loop visits the entries in order, without free slots, "." and ".." |
| DirectoryWalk.Session.Find | TFS/EXAMPLES/TFSH/FIND.C:48-71 | the same for one file: stat failure, report by type, descent |
| DirectoryWalk.WalkIsPreorder | TFS/EXAMPLES/TFSH/FIND.C:14-71 | for every tree and every pattern of failures, the walk cut off by descriptors reports of each file of the full pre-order listing exactly what its depth and the files above it allow |
| DirectoryWalk.FindPrintsSelected | TFS/EXAMPLES/TFSH/FIND.C:59-68 | without failures, exactly the files of a selected type at depth up to sixteen are printed, in pre-order, once each |
| DirectoryWalk.FindPrintsByType | TFS/EXAMPLES/TFSH/FIND.C:59-97 | -type f prints exactly the regular files, -type d exactly the directories, no -type all of them |
| DirectoryWalk.ErrorsAreReported | TFS/EXAMPLES/TFSH/FIND.C:20-63 | a failed stat, an unreadable directory and a full descriptor table each give their message, printing or not; without -print nothing is printed |
| DiskTest.PatternRepeats | TTM50/EXAMPLES/DISKTEST.C:18-19 | two words of the pattern are equal exactly when their indices agree modulo 2^29 |
| DiskTest.NextValue | TTM50/EXAMPLES/DISKTEST.C:154-162 | the pattern starts at 0xdeadbeef and goes up by 0x12345678 modulo 2^32 |
| DiskTest.PatternIsOdd | TTM50/EXAMPLES/DISKTEST.C:176-176 | no word of the pattern is a cleared word |
| DiskTest.MisaddressingIsDetected | TTM50/EXAMPLES/DISKTEST.C:187-201 | a read-back of pattern words from other places and cleared words passes only if every word came from its own place |
| DiskTest.ChooseBlocks | TTM50/EXAMPLES/DISKTEST.C:344-371 | rejects exactly the invalid geometries, the overflowing block count among them; otherwise the largest count that fits 1 MB, 0x7fff and the disk, at least 1 |
| DiskTest.ChoiceIsMost | TTM50/EXAMPLES/DISKTEST.C:360-369 | that number as an expression in block size and last block |
| DiskTest.BuildCdb | TTM50/EXAMPLES/DISKTEST.C:49-59 | all ten bytes of the CDB; it names block 0 and its count decodes to the block count modulo 2^16 |
| DiskTest.CdbDecodes | TTM50/EXAMPLES/DISKTEST.C:100-108 | bytes 7 and 8 are the big-endian count |
| DiskTest.Fill | TTM50/EXAMPLES/DISKTEST.C:42-90 | gives one write of the blocks from block 0 and succeeds exactly when result, status and residue are all zero; an honest disk then holds the buffer |
| DiskTest.Dump | TTM50/EXAMPLES/DISKTEST.C:92-140 | gives one read of the blocks from block 0 and succeeds exactly when result, status and residue are all zero; an honest disk then returns what was written; words a disk does not deliver stay as they were |
| DiskTest.LoopsTouchWholeWords | TTM50/EXAMPLES/DISKTEST.C:156-162 | the pattern loops touch exactly the buffer if and only if its size is a multiple of 4, else they run up to three bytes past it |
| DiskTest.WholeWordsIff | TTM50/EXAMPLES/DISKTEST.C:371-371 | a number of blocks makes whole words exactly when the block size is a multiple of 4, or the number is, or both are even |
| DiskTest.LoopsOverrunIff | TTM50/EXAMPLES/DISKTEST.C:344-371 | for every geometry: the disk is accepted and the loops leave the buffer if and only if a condition on block size and last block alone holds |
| DiskTest.OddBlockOverruns | TTM50/EXAMPLES/DISKTEST.C:344-371 | a disk of one block of 5 bytes meets that condition, and the loops touch 8 bytes of its 5 byte buffer |
| DiskTest.SetBuffer | TTM50/EXAMPLES/DISKTEST.C:154-162 | the buffer holds the pattern |
| DiskTest.TestBuffer | TTM50/EXAMPLES/DISKTEST.C:187-201 | passes exactly on the pattern, else names the first wrong word |
| DiskTest.FillTest | TTM50/EXAMPLES/DISKTEST.C:142-202 | on any disk, a pass means the read itself delivered every word of the pattern; a read of misplaced or cleared words passes exactly when none is misplaced or cleared; the write or the read is reported failed exactly when its reply is not clean, and nothing is read after a failed write; an honest disk passes |
| DiskTest.Trial | TTM50/EXAMPLES/DISKTEST.C:344-400 | for every geometry: rejected exactly when invalid; the loops overrun the buffer exactly on the geometries of LoopsOverrunIff; otherwise the outcome is that of the fill test, and an honest disk passes |
| ShadowFile.Random | TFS/EXAMPLES/TFS/FULLTEST.C:239-246 | the low twenty bits of one number of rand, modulo the limit |
| ShadowFile.ToChar | TFS/EXAMPLES/TFS/FULLTEST.C:379-383 | the char with the low byte of the number |
| ShadowFile.WriteKeepsStep | TFS/EXAMPLES/TFS/FULLTEST.C:389-391 | writing a slice of the buffer at its own place, holes included, makes that slice agree and keeps what agreed |
| ShadowFile.RandomWrites | TFS/EXAMPLES/TFS/FULLTEST.C:385-397 | on any file, one seek and write for each random place; exactly the bytes of those blocks are marked, and never the last byte; on an honest file every marked byte is in the file |
| ShadowFile.FillGaps | TFS/EXAMPLES/TFS/FULLTEST.C:399-412 | one seek and write for each unmarked byte, of its whole run, and none of a marked byte; an honest file is then the whole buffer |
| ShadowFile.RandomWriteSequentialRead | TFS/EXAMPLES/TFS/FULLTEST.C:359-440 | on any file the test passes if and only if its one read delivers the whole buffer; the random numbers give the buffer and the places, and the requests are exactly the blocks, the gaps and that read; on an honest file it passes |
| ShadowFile.Compare | TFS/EXAMPLES/TFS/FULLTEST.C:513-523 | true exactly when the bytes read are those of the buffer |
| ShadowFile.WriteAt | TFS/EXAMPLES/TFS/FULLTEST.C:458-495 | seek and write, stopping at the first result that is not as it should be |
| ShadowFile.CheckAt | TFS/EXAMPLES/TFS/FULLTEST.C:497-523 | seek, read and compare, stopping at the first result that is not as it should be; passes if and only if there is none |
| ShadowFile.OverwriteRound | TFS/EXAMPLES/TFS/FULLTEST.C:475-523 | one round stamps a random block of buffer and file with its number and reads a block back from up to 100 bytes before it, all in range; it passes if and only if every reply is the expected one |
| ShadowFile.OverwriteTest | TFS/EXAMPLES/TFS/FULLTEST.C:443-541 | on any file, the requests are those its random numbers call for, up to the first unexpected reply, and it passes if and only if there is none, so that every read delivered the buffer; on an honest file it passes, and the file is the buffer after every round |

## Left out

- The TFS library and its servers, and the SCSI library: only their manual pages exist, so they are not part of this model beyond the contract of the calls made here.
- The contents of the target driver's data buffer and the INQUIRY fields: fixed or unread data; only lengths, ranges and directions are kept.
- Bus timing, allocation, argument parsing, printing, delays and exit codes.
- Path lookup in the file system: a walk is given the node its path names, so paths longer than TFS_PATH_MAX and changes to the tree during a walk are not modelled.
- The descriptor number tfs_open chooses, and a close that fails.
- The aliasing of the byte pointer and hex_data in get_line: the sixteen byte stores are modelled as four word stores of packed bytes.
- The character scanning of sscanf and fgets: a line is the numbers it converts and whether it is blank.
- Hex lines whose address is not word aligned or lies outside the device.
- FlashDevice.Device.Read: nothing is known of reads in set-up and pulse modes; program verify is taken to show the array, as the check for zeros before the reset relies on it.
- DiskTest.Trial: what the program does after its pattern loops have left the buffer; the outcome is then Overrun and says nothing of the disk.
- The logical block address of the disk test is always 0, as in the source; other SCSI commands are not modelled.
- The opens of the two file system tests: they succeed.
- tst_seq_write_rand_read and the remaining tests of FULLTEST.C, and the other example programs: the same loops or simple calls.
