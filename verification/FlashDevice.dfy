/** Four byte-wide flash EPROM chips side by side, one on each byte lane of a 32-bit bus. Each chip
    has its own command register. How far a pulse gets is up to the chip: a program pulse may clear
    any of the bits that are 0 in the data, an erase pulse may set any bits at all. */
module FlashDevice {
  import opened Words

  const FLASH_WORD_SIZE := 0x20000
  const BLANK_WORD: word := 0xffff_ffff

  const MANUFACTURER_CODE: word := 0x8989_8989
  const DEVICE_CODE: word := 0xb4b4_b4b4

  const READ_MEMORY: byte := 0x00
  const ERASE: byte := 0x20
  const PROGRAM: byte := 0x40
  const READ_ID_CODES: byte := 0x90
  const ERASE_VERIFY: byte := 0xa0
  const PROGRAM_VERIFY: byte := 0xc0
  const RESET: byte := 0xff

  /** The state of one chip's command register. */
  datatype Mode =
    | ReadArray
    | ReadId
    | EraseSetup
    | Erasing
    | EraseVerify(at: nat)
    | ProgramSetup
    | Programming
    | ProgramVerify
    | Undefined

  /** What a bus write is to a chip. */
  datatype Use = AsCommand | AsConfirm | AsData

  /** What a command byte asks of a chip. */
  function Decode(opcode: byte, a: nat): Mode {
    if opcode == 0x00 || opcode == 0xff then ReadArray
    else if opcode == 0x20 then EraseSetup
    else if opcode == 0x40 then ProgramSetup
    else if opcode == 0x90 then ReadId
    else if opcode == 0xa0 then EraseVerify(a)
    else if opcode == 0xc0 then ProgramVerify
    else Undefined
  }

  function UseOf(mode: Mode, b: byte): Use {
    if mode == ProgramSetup then AsData
    else if mode == EraseSetup && b == 0x20 then AsConfirm
    else AsCommand
  }

  function NextMode(mode: Mode, a: nat, b: byte): Mode {
    match UseOf(mode, b)
    case AsData => Programming
    case AsConfirm => Erasing
    case AsCommand => Decode(b, a)
  }

  function NextModes(modes: seq<Mode>, a: nat, v: word): (next: seq<Mode>)
    requires |modes| == 4
    ensures |next| == 4
  {
    seq(4, k requires 0 <= k < 4 => NextMode(modes[k], a, Lane(v, k)))
  }

  /** Some chip takes the write of v for this use. */
  predicate TakenAs(modes: seq<Mode>, v: word, use: Use)
    requires |modes| == 4
  {
    exists k :: 0 <= k < 4 && UseOf(modes[k], Lane(v, k)) == use
  }

  /** A program pulse: some bits that are 0 in the data may become 0. */
  predicate Clears(before: byte, data: byte, after: byte) {
    forall i :: 0 <= i < 8 ==> Bit(after, i) == Bit(before, i) || (Bit(data, i) == 0 && Bit(after, i) == 0)
  }

  /** An erase pulse: some bits may become 1. */
  predicate Sets(before: byte, after: byte) {
    forall i :: 0 <= i < 8 ==> Bit(before, i) <= Bit(after, i)
  }

  /** What writing b does to one cell of a chip; hit says whether it is the addressed one. */
  predicate CellAfter(mode: Mode, b: byte, hit: bool, before: byte, after: byte) {
    match UseOf(mode, b)
    case AsData => if hit then Clears(before, b, after) else after == before
    case AsConfirm => Sets(before, after)
    case AsCommand => after == before
  }

  predicate WordsAfter(modes: seq<Mode>, a: nat, v: word, before: seq<word>, after: seq<word>)
    requires |modes| == 4
  {
    && |after| == |before|
    && forall i, k :: 0 <= i < |before| && 0 <= k < 4 ==>
         CellAfter(modes[k], Lane(v, k), i == a, Lane(before[i], k), Lane(after[i], k))
  }

  /** Whether a pulse did all that was asked of it in one cell. */
  predicate CellComplete(mode: Mode, b: byte, hit: bool, after: byte) {
    match UseOf(mode, b)
    case AsData => hit ==> forall i :: 0 <= i < 8 && Bit(b, i) == 0 ==> Bit(after, i) == 0
    case AsConfirm => after == 0xff
    case AsCommand => true
  }

  predicate WordsComplete(modes: seq<Mode>, a: nat, v: word, after: seq<word>)
    requires |modes| == 4
  {
    forall i, k :: 0 <= i < |after| && 0 <= k < 4 ==>
      CellComplete(modes[k], Lane(v, k), i == a, Lane(after[i], k))
  }

  lemma NothingMoves(mode: Mode, b: byte, hit: bool, cell: byte)
    ensures CellAfter(mode, b, hit, cell, cell)
  {
  }

  /** Programming 0xff changes nothing. */
  lemma ResetDataIsHarmless(before: byte, after: byte)
    requires Clears(before, RESET, after)
    ensures after == before
  {
    forall i | 0 <= i < 8 ensures Bit(after, i) == Bit(before, i) {
      ExtremeBits(i);
    }
    BitsDetermine(after, before);
  }

  /** When no chip takes the write as a pulse that can change it, no word changes. */
  lemma WordsKept(modes: seq<Mode>, a: nat, v: word, before: seq<word>, after: seq<word>)
    requires |modes| == 4 && WordsAfter(modes, a, v, before, after)
    requires forall k :: 0 <= k < 4 ==>
      UseOf(modes[k], Lane(v, k)) == AsCommand || (UseOf(modes[k], Lane(v, k)) == AsData && Lane(v, k) == RESET)
    ensures after == before
  {
    forall i | 0 <= i < |before| ensures after[i] == before[i] {
      forall k | 0 <= k < 4 ensures Lane(after[i], k) == Lane(before[i], k) {
        assert CellAfter(modes[k], Lane(v, k), i == a, Lane(before[i], k), Lane(after[i], k));
        if UseOf(modes[k], Lane(v, k)) == AsData && i == a {
          ResetDataIsHarmless(Lane(before[i], k), Lane(after[i], k));
        }
      }
      LanesDetermine(after[i], before[i]);
    }
  }

  /** Programming 0xff asks for nothing. */
  lemma ResetsAreComplete(modes: seq<Mode>, a: nat, v: word, after: seq<word>)
    requires |modes| == 4
    requires forall k :: 0 <= k < 4 ==>
      UseOf(modes[k], Lane(v, k)) == AsCommand || (UseOf(modes[k], Lane(v, k)) == AsData && Lane(v, k) == RESET)
    ensures WordsComplete(modes, a, v, after)
  {
    forall i | 0 <= i < 8 ensures Bit(RESET, i) == 1 {
      ExtremeBits(i);
    }
  }

  /** A program pulse leaves the words it is not addressed to alone. */
  lemma OthersKept(modes: seq<Mode>, a: nat, v: word, before: seq<word>, after: seq<word>)
    requires |modes| == 4 && WordsAfter(modes, a, v, before, after)
    requires forall k :: 0 <= k < 4 ==> modes[k] == ProgramSetup
    ensures forall i :: 0 <= i < |before| && i != a ==> after[i] == before[i]
  {
    forall i | 0 <= i < |before| && i != a ensures after[i] == before[i] {
      forall k | 0 <= k < 4 ensures Lane(after[i], k) == Lane(before[i], k) {
        assert CellAfter(modes[k], Lane(v, k), i == a, Lane(before[i], k), Lane(after[i], k));
      }
      LanesDetermine(after[i], before[i]);
    }
  }

  /** A complete program pulse stores the data over a blank cell, over the same data, and when it is zero. */
  lemma CompletePulse(before: byte, data: byte, after: byte)
    requires Clears(before, data, after) && CellComplete(ProgramSetup, data, true, after)
    requires before == 0xff || before == data || data == 0
    ensures after == data
  {
    forall i | 0 <= i < 8 ensures Bit(after, i) == Bit(data, i) {
      ExtremeBits(i);
    }
    BitsDetermine(after, data);
  }

  /** A program pulse may do nothing or all it should, which is to leave the bits that are 1 both before and
      in the data; it never sets a bit. An erase pulse may do nothing or erase the cell. */
  lemma PulsesAreFree(before: byte, data: byte)
    ensures Clears(before, data, before) && Clears(before, data, And(before, data))
    ensures CellComplete(ProgramSetup, data, true, And(before, data))
    ensures forall after :: Clears(before, data, after) ==>
      forall i :: 0 <= i < 8 ==> Bit(And(before, data), i) <= Bit(after, i) <= Bit(before, i)
    ensures Sets(before, before) && Sets(before, 0xff)
  {
    forall i | 0 <= i < 8
      ensures Bit(And(before, data), i) == (if Bit(before, i) == 1 && Bit(data, i) == 1 then 1 else 0)
      ensures Bit(0xff, i) == 1
    {
      AndBit(before, data, i);
      ExtremeBits(i);
    }
  }

  lemma CompleteProgram(modes: seq<Mode>, a: nat, v: word, before: seq<word>, after: seq<word>)
    requires |modes| == 4 && WordsAfter(modes, a, v, before, after) && WordsComplete(modes, a, v, after)
    requires (forall k :: 0 <= k < 4 ==> modes[k] == ProgramSetup) && a < |before|
    requires before[a] == BLANK_WORD || before[a] == v || v == 0
    ensures after[a] == v
  {
    assert forall k :: 0 <= k < 4 ==> Lane(BLANK_WORD, k) == 0xff && Lane(0, k) == 0;
    hide Lane;
    forall k | 0 <= k < 4 ensures Lane(after[a], k) == Lane(v, k) {
      assert CellAfter(modes[k], Lane(v, k), a == a, Lane(before[a], k), Lane(after[a], k));
      assert CellComplete(modes[k], Lane(v, k), a == a, Lane(after[a], k));
      CompletePulse(Lane(before[a], k), Lane(v, k), Lane(after[a], k));
    }
    LanesDetermine(after[a], v);
  }

  lemma CompleteEraseWord(modes: seq<Mode>, a: nat, v: word, after: seq<word>, i: nat)
    requires |modes| == 4 && WordsComplete(modes, a, v, after) && i < |after|
    requires forall k :: 0 <= k < 4 ==> UseOf(modes[k], Lane(v, k)) == AsConfirm
    ensures after[i] == BLANK_WORD
  {
    var w := after[i];
    forall k | 0 <= k < 4 ensures Lane(w, k) == 0xff {
      assert CellComplete(modes[k], Lane(v, k), i == a, Lane(w, k));
    }
    LaneSum(w);
  }

  lemma CompleteErase(modes: seq<Mode>, a: nat, v: word, after: seq<word>)
    requires |modes| == 4 && WordsComplete(modes, a, v, after)
    requires forall k :: 0 <= k < 4 ==> UseOf(modes[k], Lane(v, k)) == AsConfirm
    ensures forall i :: 0 <= i < |after| ==> after[i] == BLANK_WORD
  {
    forall i | 0 <= i < |after| ensures after[i] == BLANK_WORD {
      CompleteEraseWord(modes, a, v, after, i);
    }
  }

  /** Some contents the write may leave: any at all that the pulse model allows. */
  method SomePulse(modes: seq<Mode>, a: nat, v: word, words: seq<word>) returns (next: seq<word>)
    requires |modes| == 4
    ensures |next| == |words| && WordsAfter(modes, a, v, words, next)
  {
    forall i, k | 0 <= i < |words| && 0 <= k < 4
      ensures CellAfter(modes[k], Lane(v, k), i == a, Lane(words[i], k), Lane(words[i], k))
    {
      NothingMoves(modes[k], Lane(v, k), i == a, Lane(words[i], k));
    }
    next :| |next| == |words| && WordsAfter(modes, a, v, words, next);
  }

  /** What the writes so far were: how many, after which of them the four command registers did not
      agree, and whether any chip ever took one for something else than it was meant as. */
  datatype Discipline = Discipline(writes: nat, splits: set<nat>, misread: bool)

  /** The same but for writes that every chip took as meant and that left the registers in agreement. */
  predicate Disciplined(before: Discipline, after: Discipline) {
    after.writes >= before.writes && after.splits == before.splits && after.misread == before.misread
  }

  predicate Agree(modes: seq<Mode>) {
    forall k :: 0 <= k < |modes| ==> modes[k] == modes[0]
  }

  ghost function AfterWrite(d: Discipline, modes: seq<Mode>, a: nat, v: word, meant: set<Use>): Discipline
    requires |modes| == 4
  {
    Discipline(
      d.writes + 1,
      d.splits + if Agree(NextModes(modes, a, v)) then {} else {d.writes},
      d.misread || exists use | use !in meant :: TakenAs(modes, v, use))
  }

  /** A program pulse: its address and data, and the word there before it. */
  datatype Pulse = Pulse(at: nat, data: word, before: word)

  class Device {
    const manufacturer: word             // what the part shows as its identifier codes
    const device: word
    var modes: seq<Mode>
    var words: seq<word>

    ghost var discipline: Discipline
    ghost var complete: bool             // every pulse so far did all that was asked of it
    ghost var programs: seq<nat>         // program pulses at each word so far
    ghost var pulses: seq<Pulse>         // those program pulses, in order
    ghost var erases: seq<seq<word>>     // the contents before each erase pulse so far

    ghost predicate Valid()
      reads this
    {
      |modes| == 4 && |words| == |programs| == FLASH_WORD_SIZE
    }

    /** The four command registers agree. */
    ghost predicate InMode(mode: Mode)
      reads this
    {
      Valid() && forall k :: 0 <= k < 4 ==> modes[k] == mode
    }

    /** The four command registers agree and expect a command. */
    ghost predicate Ready()
      reads this
    {
      Valid() && InMode(modes[0]) && modes[0] != ProgramSetup && modes[0] != EraseSetup
    }

    /** A bus write. The device alone decides, chip by chip, what it is. */
    method Write(a: nat, v: word, ghost meant: set<Use>)
      requires Valid() && a < FLASH_WORD_SIZE
      modifies this
      ensures Valid()
      ensures modes == NextModes(old(modes), a, v)
      ensures WordsAfter(old(modes), a, v, old(words), words)
      ensures discipline == AfterWrite(old(discipline), old(modes), a, v, meant)
      ensures complete == (old(complete) && WordsComplete(old(modes), a, v, words))
      ensures programs == if TakenAs(old(modes), v, AsData) then old(programs)[a := old(programs)[a] + 1]
                          else old(programs)
      ensures pulses == old(pulses) + if TakenAs(old(modes), v, AsData) then [Pulse(a, v, old(words)[a])] else []
      ensures erases == old(erases) + if TakenAs(old(modes), v, AsConfirm) then [old(words)] else []
    {
      hide NextModes, TakenAs, WordsAfter, WordsComplete, AfterWrite;
      discipline := AfterWrite(discipline, modes, a, v, meant);
      if TakenAs(modes, v, AsData) {
        programs := programs[a := programs[a] + 1];
      }
      pulses := pulses + if TakenAs(modes, v, AsData) then [Pulse(a, v, words[a])] else [];
      erases := erases + if TakenAs(modes, v, AsConfirm) then [words] else [];
      words := SomePulse(modes, a, v, words);
      complete := complete && WordsComplete(modes, a, v, words);
      modes := NextModes(modes, a, v);
    }

    /** A bus read. It shows the array in read mode, in program verify mode, and in erase verify mode
        at the address latched with that command. In identifier mode it shows the part's codes; nothing
        is known of other reads. */
    method Read(a: nat) returns (v: word)
      requires Valid() && a < FLASH_WORD_SIZE
      ensures InMode(ReadArray) || InMode(ProgramVerify) || InMode(EraseVerify(a)) ==> v == words[a]
      ensures InMode(ReadId) && a < 2 ==> v == [manufacturer, device][a]
    {
      v := *;
      if modes[0] == ReadId && a < 2 {
        v := [manufacturer, device][a];
      } else if forall k :: 0 <= k < 4 ==> modes[k] in {ReadArray, ProgramVerify, EraseVerify(a)} {
        v := words[a];
      }
    }

    /** Write one command byte to all four chips. */
    method Command(a: nat, opcode: byte)
      requires Ready() && a < FLASH_WORD_SIZE
      modifies this
      ensures InMode(Decode(opcode, a)) && words == old(words)
      ensures opcode == 0x00 || opcode == 0xff ==> InMode(ReadArray)
      ensures opcode == 0x20 ==> InMode(EraseSetup)
      ensures opcode == 0x40 ==> InMode(ProgramSetup)
      ensures opcode == 0x90 ==> InMode(ReadId)
      ensures opcode == 0xa0 ==> InMode(EraseVerify(a))
      ensures opcode == 0xc0 ==> InMode(ProgramVerify)
      ensures Disciplined(old(discipline), discipline) && complete == old(complete)
      ensures programs == old(programs) && pulses == old(pulses) && erases == old(erases)
    {
      forall k | 0 <= k < 4 ensures Lane(Uniform(opcode), k) == opcode {
        UniformLane(opcode, k);
      }
      ghost var was := modes;
      Write(a, Uniform(opcode), {AsCommand});
      WordsKept(was, a, Uniform(opcode), old(words), words);
    }

    /** Confirm an erase: the pulse may set any bits of the array. */
    method ConfirmErase(a: nat)
      requires InMode(EraseSetup) && a < FLASH_WORD_SIZE
      modifies this
      ensures InMode(Erasing)
      ensures complete ==> old(complete) && forall i :: 0 <= i < |words| ==> words[i] == BLANK_WORD
      ensures Disciplined(old(discipline), discipline)
      ensures programs == old(programs) && pulses == old(pulses) && erases == old(erases) + [old(words)]
    {
      forall k | 0 <= k < 4 ensures Lane(Uniform(ERASE), k) == ERASE {
        UniformLane(ERASE, k);
      }
      assert UseOf(modes[0], Lane(Uniform(ERASE), 0)) == AsConfirm;
      ghost var was := modes;
      Write(a, Uniform(ERASE), {AsConfirm});
      if complete {
        CompleteErase(was, a, Uniform(ERASE), words);
      }
    }

    /** Write program data: any word at all, even one made of opcodes, is data. */
    method Data(a: nat, v: word)
      requires InMode(ProgramSetup) && a < FLASH_WORD_SIZE
      modifies this
      ensures InMode(Programming)
      ensures forall i :: 0 <= i < FLASH_WORD_SIZE && i != a ==> words[i] == old(words)[i]
      ensures complete ==> old(complete)
      ensures complete && (old(words)[a] == BLANK_WORD || old(words)[a] == v || v == 0) ==> words[a] == v
      ensures Disciplined(old(discipline), discipline)
      ensures programs == old(programs)[a := old(programs)[a] + 1] && erases == old(erases)
      ensures pulses == old(pulses) + [Pulse(a, v, old(words)[a])]
    {
      ghost var was := modes;
      assert UseOf(modes[0], Lane(v, 0)) == AsData;
      Write(a, v, {AsData});
      OthersKept(was, a, v, old(words), words);
      if complete && (old(words)[a] == BLANK_WORD || old(words)[a] == v || v == 0) {
        CompleteProgram(was, a, v, old(words), words);
      }
    }
  }
}
