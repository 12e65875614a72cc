/** The SCSI disk test: a whole number of blocks is filled with an arithmetic pattern, written,
    read back over a cleared buffer and compared word by word. */
module DiskTest {
  import opened Words
  import opened Scsi

  const MAX_BUFFER_SIZE := 0x10_0000
  const MAX_BLOCKS := 0x7fff
  const VALUE_START := 0xdead_beef
  const VALUE_INC := 0x1234_5678

  // ---------------------------------------------------------------- the pattern

  /** Word k of the pattern before it is cut to 32 bits. */
  function Unreduced(k: nat): nat {
    VALUE_START + k * VALUE_INC
  }

  /** Word k of the pattern, in 32-bit arithmetic. */
  function Value(k: nat): word {
    Unreduced(k) % 0x1_0000_0000
  }

  function Pattern(n: nat): seq<word> {
    seq(n, k requires 0 <= k < n => Value(k))
  }

  lemma Difference(i: nat, j: nat)
    ensures Unreduced(i) - Unreduced(j) == (i - j) * VALUE_INC
  {
  }

  lemma SumModulo(a: int, b: int)
    ensures (a % 0x1_0000_0000 + b) % 0x1_0000_0000 == (a + b) % 0x1_0000_0000
  {
  }

  /** The pattern starts at 0xdeadbeef and goes up by 0x12345678 from word to word. */
  lemma NextValue(k: nat)
    ensures Value(0) == 0xdead_beef && Value(k + 1) == (Value(k) + 0x1234_5678) % 0x1_0000_0000
  {
    Difference(k + 1, k);
    hide Unreduced;
    SumModulo(Unreduced(k), VALUE_INC);
  }

  lemma SameRemainder(a: int, b: int) returns (t: int)
    requires a % 0x1_0000_0000 == b % 0x1_0000_0000
    ensures a - b == t * 0x1_0000_0000
  {
    t := a / 0x1_0000_0000 - b / 0x1_0000_0000;
  }

  lemma Congruent(v: int, q: int)
    ensures (v + q * 0x1_0000_0000) % 0x1_0000_0000 == v % 0x1_0000_0000
  {
  }

  lemma SameRemainder29(i: int, j: int) returns (q: int)
    requires i % 0x2000_0000 == j % 0x2000_0000
    ensures i - j == q * 0x2000_0000
  {
    q := i / 0x2000_0000 - j / 0x2000_0000;
  }

  lemma Congruent29(j: int, q: int)
    ensures (j + q * 0x2000_0000) % 0x2000_0000 == j % 0x2000_0000
  {
  }

  /** The increment is 8 times an odd number: 0x246_8acf * 473709615 == 1 + 33686017 * 0x2000_0000. */
  lemma DifferencesDivide(d: int, t: int)
    requires d * VALUE_INC == t * 0x1_0000_0000
    ensures d == (473709615 * t - 33686017 * d) * 0x2000_0000
  {
    assert d * 0x246_8acf == t * 0x2000_0000;
  }

  lemma EqualValuesAgree(i: nat, j: nat)
    requires Value(i) == Value(j)
    ensures i % 0x2000_0000 == j % 0x2000_0000
  {
    hide Unreduced;
    var t := SameRemainder(Unreduced(i), Unreduced(j));
    hide Value;
    Difference(i, j);
    DifferencesDivide(i - j, t);
    Congruent29(j, 473709615 * t - 33686017 * (i - j));
  }

  lemma AgreeingValuesAreEqual(i: nat, j: nat)
    requires i % 0x2000_0000 == j % 0x2000_0000
    ensures Value(i) == Value(j)
  {
    hide Unreduced;
    var q := SameRemainder29(i, j);
    Difference(i, j);
    assert Unreduced(i) == Unreduced(j) + (q * 0x246_8acf) * 0x1_0000_0000;
    Congruent(Unreduced(j), q * 0x246_8acf);
  }

  /** Main result: two words of the pattern are equal exactly when their indices agree modulo 2^29. */
  lemma PatternRepeats(i: nat, j: nat)
    ensures Value(i) == Value(j) <==> i % 0x2000_0000 == j % 0x2000_0000
  {
    if Value(i) == Value(j) {
      EqualValuesAgree(i, j);
    } else if i % 0x2000_0000 == j % 0x2000_0000 {
      AgreeingValuesAreEqual(i, j);
    }
  }

  lemma UnreducedIsOdd(k: nat)
    ensures Unreduced(k) % 2 == 1
  {
    assert Unreduced(k) == 2 * (0x6f56_df77 + k * 0x91a_2b3c) + 1;
  }

  lemma OddRemainder(v: int, q: int, r: int)
    requires v == q * 0x1_0000_0000 + r && v % 2 == 1
    ensures r % 2 == 1
  {
    assert v == 2 * (q * 0x8000_0000) + r;
  }

  /** No word of the pattern looks like a cleared word. */
  lemma PatternIsOdd(k: nat)
    ensures Value(k) % 2 == 1
  {
    UnreducedIsOdd(k);
    hide Unreduced;
    OddRemainder(Unreduced(k), Unreduced(k) / 0x1_0000_0000, Value(k));
  }

  /** What a read leaves in word i: the pattern word from another place, or the cleared word. */
  function Misread(source: seq<int>): seq<word> {
    seq(|source|, i requires 0 <= i < |source| => if source[i] < 0 then 0 else Value(source[i]))
  }

  /** Every word is one of the first 2^29 of the pattern, or cleared. */
  predicate IsSource(source: seq<int>) {
    forall i :: 0 <= i < |source| ==> source[i] < 0x2000_0000
  }

  predicate InPlace(source: seq<int>) {
    forall i :: 0 <= i < |source| ==> source[i] == i
  }

  /** Main result: for a buffer of up to 2^29 words, a read-back made of pattern words and cleared
      words is the pattern only if every word came from its own place. */
  lemma MisaddressingIsDetected(source: seq<int>)
    requires |source| <= 0x2000_0000 && IsSource(source)
    ensures Misread(source) == Pattern(|source|) <==> InPlace(source)
  {
    if Misread(source) == Pattern(|source|) {
      forall i | 0 <= i < |source| ensures source[i] == i {
        assert Misread(source)[i] == Pattern(|source|)[i] == Value(i);
        PatternIsOdd(i);
        if source[i] >= 0 {
          PatternRepeats(source[i], i);
        }
      }
    }
  }

  // ---------------------------------------------------------------- sizes

  type int32 = v: int | -0x8000_0000 <= v < 0x8000_0000

  /** A sum that overflows a 32-bit int. */
  function Wrap(v: int): int32 {
    (v + 0x8000_0000) % 0x1_0000_0000 - 0x8000_0000
  }

  datatype Geometry = Invalid | Valid(blocks: nat, size: nat)

  /** A count of blocks that fits the buffer limit, the CDB count and the disk. */
  predicate Fits(c: nat, blockSize: int, lastBlock: int) {
    c * blockSize <= 0x10_0000 && c <= 0x7fff && c <= lastBlock + 1
  }

  /** What is tested on a disk: nothing if its geometry is invalid, else the most blocks that fit. */
  ghost predicate IsChoice(blockSize: int32, lastBlock: int32, g: Geometry) {
    && (g.Invalid? <==> blockSize < 4 || blockSize > 0x10_0000 || lastBlock < 0 || lastBlock == 0x7fff_ffff)
    && (g.Valid? ==>
          && 1 <= g.blocks && g.size == g.blocks * blockSize <= 0x10_0000
          && forall c: nat :: c <= g.blocks <==> Fits(c, blockSize, lastBlock))
  }

  lemma Monotone(a: nat, b: nat, d: nat)
    requires a <= b
    ensures a * d <= b * d
  {
  }

  lemma DivMod(n: nat, d: nat)
    requires d > 0
    ensures n / d * d <= n < (n / d + 1) * d
  {
    assert n == n / d * d + n % d;
  }

  lemma FitsIffQuotient(c: nat, d: int, n: nat)
    requires d > 0
    ensures c <= n / d <==> c * d <= n
  {
    DivMod(n, d);
    if c <= n / d {
      Monotone(c, n / d, d);
    } else {
      Monotone(n / d + 1, c, d);
    }
  }

  /** Main result: the number of blocks tested is the largest that fits. */
  method ChooseBlocks(blockSize: int32, lastBlock: int32) returns (g: Geometry)
    ensures IsChoice(blockSize, lastBlock, g)
  {
    var numberBlocks := Wrap(lastBlock + 1);
    if blockSize < 4 || blockSize > MAX_BUFFER_SIZE || numberBlocks < 1 {
      return Invalid;
    }
    var blocks := MAX_BUFFER_SIZE / blockSize;
    if blocks > MAX_BLOCKS {
      blocks := MAX_BLOCKS;
    }
    if blocks > numberBlocks {
      blocks := numberBlocks;
    }
    forall c: nat ensures c <= blocks <==> Fits(c, blockSize, lastBlock) {
      FitsIffQuotient(c, blockSize, MAX_BUFFER_SIZE);
    }
    FitsIffQuotient(1, blockSize, MAX_BUFFER_SIZE);
    assert Fits(blocks, blockSize, lastBlock);
    return Valid(blocks, blocks * blockSize);
  }

  /** The number of blocks as an expression: the smallest of the three limits. */
  function MostBlocks(blockSize: int32, lastBlock: int32): int
    requires blockSize > 0
  {
    Min(Min(0x10_0000 / blockSize, 0x7fff), lastBlock + 1)
  }

  lemma ChoiceIsMost(blockSize: int32, lastBlock: int32, g: Geometry)
    requires IsChoice(blockSize, lastBlock, g) && g.Valid?
    ensures g.blocks == MostBlocks(blockSize, lastBlock)
  {
    var c := g.blocks;
    assert Fits(c, blockSize, lastBlock) && !Fits(c + 1, blockSize, lastBlock);
    FitsIffQuotient(c, blockSize, MAX_BUFFER_SIZE);
    FitsIffQuotient(c + 1, blockSize, MAX_BUFFER_SIZE);
  }

  // ---------------------------------------------------------------- the disk

  /** The number of blocks a read or write CDB asks for. */
  function BlockCount(cdb: seq<byte>): nat
    requires |cdb| == 10
  {
    GetValue(cdb[7..9])
  }

  function StartBlock(cdb: seq<byte>): nat
    requires |cdb| == 10
  {
    GetValue(cdb[2..6])
  }

  /** What scsi_command gives back: its result, and the status and residue it stored. */
  datatype Reply = Reply(failed: bool, status: nat, residue: nat)

  datatype Exchange = Exchange(cdb: seq<byte>, reply: Reply)

  /** A read or write of a number of blocks from block 0. */
  predicate IsRequest(cdb: seq<byte>, opcode: byte, lun: nat, blocks: nat)
    requires lun <= 7
  {
    && cdb == [opcode, 32 * lun, 0, 0, 0, 0, 0, blocks / 256 % 256, blocks % 256, 0]
    && StartBlock(cdb) == 0 && BlockCount(cdb) == blocks % 0x1_0000
  }

  class Disk {
    const blockSize: nat
    const honest: bool             // carries out well-formed commands and keeps what is written
    var start: seq<word>           // the words from block 0 on
    ghost var delivered: seq<bool> // which words the last command put into the buffer
    ghost var log: seq<Exchange>   // the commands so far and their replies

    /** Whether an honest disk carries out a command on a buffer of so many words. */
    predicate Accepts(cdb: seq<byte>, length: nat)
      requires |cdb| == 10
    {
      honest && StartBlock(cdb) == 0 && BlockCount(cdb) * blockSize == 4 * length
    }

    /** scsi_command. A disk that is not honest may reply anything, may do anything to its own blocks
        and may put anything into any part of the buffer of a read. */
    method ScsiCommand(cdb: seq<byte>, buffer: array<word>) returns (failed: bool, status: nat, residue: nat)
      requires |cdb| == 10
      modifies this, buffer
      ensures log == old(log) + [Exchange(cdb, Reply(failed, status, residue))]
      ensures cdb[0] == 0x2a ==> buffer[..] == old(buffer[..])
      ensures |delivered| == buffer.Length
      ensures forall i :: 0 <= i < buffer.Length && !delivered[i] ==> buffer[i] == old(buffer[i])
      ensures cdb[0] == 0x2a && Accepts(cdb, buffer.Length) ==>
        !failed && status == 0 && residue == 0 && start == old(buffer[..])
      ensures cdb[0] == 0x28 && Accepts(cdb, buffer.Length) && |old(start)| == buffer.Length ==>
        !failed && status == 0 && residue == 0 && buffer[..] == old(start)
    {
      failed, status, residue := *, *, *;
      delivered := seq(buffer.Length, _ => false);
      var whole := Accepts(cdb, buffer.Length);
      if cdb[0] == SCMD_WRITE_10 {
        start := *;
        if whole {
          failed, status, residue := false, 0, 0;
          start := buffer[..];
        }
      } else if whole && cdb[0] == SCMD_READ_10 && |start| == buffer.Length {
        failed, status, residue := false, 0, 0;
        forall i | 0 <= i < buffer.Length {
          buffer[i] := start[i];
        }
        delivered := seq(buffer.Length, _ => true);
        assert buffer[..] == start;
      } else {
        for i := 0 to buffer.Length
          invariant |delivered| == buffer.Length && log == old(log)
          invariant forall k :: 0 <= k < buffer.Length && !delivered[k] ==> buffer[k] == old(buffer[k])
        {
          var hit: bool := *;
          if hit {
            buffer[i] := *;
            delivered := delivered[i := true];
          }
        }
      }
      log := log + [Exchange(cdb, Reply(failed, status, residue))];
    }
  }

  lemma {:induction false} ZeroValue(s: seq<byte>)
    requires forall i :: 0 <= i < |s| ==> s[i] == 0
    ensures GetValue(s) == 0
  {
    if |s| > 0 {
      ZeroValue(s[..|s| - 1]);
    }
  }

  lemma SplitByte(x: nat)
    ensures x == 256 * (x / 256) + x % 256
  {
  }

  lemma Remainder16(q: nat, r: nat)
    requires r < 0x1_0000
    ensures (0x1_0000 * q + r) % 0x1_0000 == r
  {
  }

  lemma LowBytes(blocks: nat)
    ensures 256 * (blocks / 256 % 256) + blocks % 256 == blocks % 0x1_0000
  {
    SplitByte(blocks);
    SplitByte(blocks / 256);
    Remainder16(blocks / 256 / 256, 256 * (blocks / 256 % 256) + blocks % 256);
  }

  /** The big-endian count in bytes 7 and 8 is the low 16 bits of the number of blocks. */
  lemma CdbDecodes(cdb: seq<byte>, blocks: nat)
    requires |cdb| == 10 && cdb[7] == blocks / 256 % 256 && cdb[8] == blocks % 256
    requires forall i :: 2 <= i < 6 ==> cdb[i] == 0
    ensures BlockCount(cdb) == blocks % 0x1_0000 && StartBlock(cdb) == 0
  {
    GetValue2(cdb[7..9]);
    ZeroValue(cdb[2..6]);
    LowBytes(blocks);
  }

  lemma RequestDecodes(cdb: seq<byte>, opcode: byte, lun: nat, blocks: nat)
    requires lun <= 7
    requires cdb == [opcode, 32 * lun, 0, 0, 0, 0, 0, blocks / 256 % 256, blocks % 256, 0]
    ensures IsRequest(cdb, opcode, lun, blocks)
  {
    hide BlockCount, StartBlock;
    CdbDecodes(cdb, blocks);
  }

  /** The ten bytes of a read or write of blocks from block 0. */
  method BuildCdb(opcode: byte, lun: nat, blocks: nat) returns (cdb: array<byte>)
    requires lun <= 7
    ensures fresh(cdb) && IsRequest(cdb[..], opcode, lun, blocks)
  {
    cdb := new byte[10](_ => 0);
    cdb[0] := opcode;
    cdb[1] := lun * 32;
    cdb[2] := 0;
    cdb[3] := 0;
    cdb[4] := 0;
    cdb[5] := 0;
    cdb[6] := 0;
    cdb[7] := blocks / 256 % 256;
    cdb[8] := blocks % 256;
    cdb[9] := 0;
    hide IsRequest;
    var high, low: byte := blocks / 256 % 256, blocks % 256;
    assert cdb[..] == [opcode, lun * 32, 0, 0, 0, 0, 0, high, low, 0];
    RequestDecodes(cdb[..], opcode, lun, blocks);
  }

  /** One more command was given, and ok says whether its reply was clean. */
  ghost predicate Asked(before: seq<Exchange>, after: seq<Exchange>, opcode: byte, lun: nat, blocks: nat, ok: bool)
    requires lun <= 7
  {
    && |after| == |before| + 1 && after[..|before|] == before
    && IsRequest(after[|before|].cdb, opcode, lun, blocks)
    && (ok <==> after[|before|].reply == Reply(false, 0, 0))
  }

  method Fill(disk: Disk, lun: nat, blocks: nat, buffer: array<word>) returns (ok: bool)
    requires lun <= 7
    modifies disk, buffer
    ensures |disk.log| > 0 && (ok <==> disk.log[|disk.log| - 1].reply == Reply(false, 0, 0))
    ensures Asked(old(disk.log), disk.log, 0x2a, lun, blocks, ok)
    ensures buffer[..] == old(buffer[..])
    ensures disk.honest && blocks <= MAX_BLOCKS && blocks * disk.blockSize == 4 * buffer.Length ==>
      ok && disk.start == buffer[..]
  {
    var cdb := BuildCdb(SCMD_WRITE_10, lun, blocks);
    var failed, status, residue := disk.ScsiCommand(cdb[..], buffer);
    ok := !failed && status == 0 && residue == 0;
  }

  method Dump(disk: Disk, lun: nat, blocks: nat, buffer: array<word>) returns (ok: bool)
    requires lun <= 7
    modifies disk, buffer
    ensures |disk.log| > 0 && (ok <==> disk.log[|disk.log| - 1].reply == Reply(false, 0, 0))
    ensures Asked(old(disk.log), disk.log, 0x28, lun, blocks, ok)
    ensures |disk.delivered| == buffer.Length
    ensures forall i :: 0 <= i < buffer.Length && !disk.delivered[i] ==> buffer[i] == old(buffer[i])
    ensures disk.honest && blocks <= MAX_BLOCKS && blocks * disk.blockSize == 4 * buffer.Length
            && buffer.Length == |old(disk.start)| ==>
      ok && buffer[..] == old(disk.start)
  {
    var cdb := BuildCdb(SCMD_READ_10, lun, blocks);
    var failed, status, residue := disk.ScsiCommand(cdb[..], buffer);
    ok := !failed && status == 0 && residue == 0;
  }

  // ---------------------------------------------------------------- the test

  /** How a trial ends. Overrun: the pattern loops leave the buffer. */
  datatype Outcome =
    | Passed
    | WriteFailed
    | ReadFailed
    | Mismatch(offset: nat, found: word, expected: word)
    | BadGeometry
    | Overrun

  /** The number of words a pattern loop touches from byte i of a buffer of size bytes. */
  function LoopWords(i: nat, size: nat): nat
    decreases size - i
  {
    if i < size then 1 + LoopWords(i + 4, size) else 0
  }

  /** The pattern loops touch exactly the buffer if and only if its size is a multiple of 4; otherwise
      they run past its end by less than a word. */
  lemma {:induction false} LoopsTouchWholeWords(i: nat, size: nat)
    requires i % 4 == 0 && i <= size + 3
    ensures i <= size ==> size <= i + 4 * LoopWords(i, size) < size + 4
    ensures i <= size ==> (i + 4 * LoopWords(i, size) == size <==> size % 4 == 0)
    ensures i > size ==> LoopWords(i, size) == 0
    decreases size + 4 - i
  {
    if i < size {
      LoopsTouchWholeWords(i + 4, size);
    }
  }

  lemma TimesSum(x: nat, n: nat, b: nat)
    ensures x * (4 * n + b) == 4 * (x * n) + x * b
  {
  }

  lemma AddFours(k: nat, r: nat)
    ensures (4 * k + r) % 4 == r % 4
  {
  }

  lemma MultipleModulo4(x: nat, b: nat)
    requires b < 4
    ensures [0, x, 2 * x, 3 * x][b] % 4 == 0 <==> b == 0 || x % 4 == 0 || (b == 2 && x % 2 == 0)
  {
  }

  lemma SmallProduct(x: nat, b: nat)
    requires b < 4
    ensures x * b == [0, x, 2 * x, 3 * x][b]
  {
  }

  /** A buffer of whole blocks is one of whole words unless the block size is odd and the count is no
      multiple of 4, or the block size is twice an odd number and the count is odd. */
  lemma WholeWordsIff(blocks: nat, blockSize: nat)
    ensures blocks * blockSize % 4 == 0 <==>
      blockSize % 4 == 0 || blocks % 4 == 0 || (blockSize % 4 == 2 && blocks % 2 == 0)
  {
    var b := blockSize % 4;
    TimesSum(blocks, blockSize / 4, b);
    AddFours(blocks * (blockSize / 4), blocks * b);
    SmallProduct(blocks, b);
    MultipleModulo4(blocks, b);
  }

  /** The geometries that are accepted although their buffer is not whole words: the block size is odd and
      the number of blocks no multiple of 4, or the block size is twice an odd number and the number odd. */
  predicate Overruns(blockSize: int32, lastBlock: int32) {
    && 4 <= blockSize <= 0x10_0000 && 0 <= lastBlock < 0x7fff_ffff
    && (if blockSize % 2 == 1 then MostBlocks(blockSize, lastBlock) % 4 != 0
        else blockSize % 4 == 2 && MostBlocks(blockSize, lastBlock) % 2 == 1)
  }

  lemma ParityCases(blocks: nat, blockSize: nat)
    ensures blockSize % 4 == 0 || blocks % 4 == 0 || (blockSize % 4 == 2 && blocks % 2 == 0) <==>
      !(if blockSize % 2 == 1 then blocks % 4 != 0 else blockSize % 4 == 2 && blocks % 2 == 1)
  {
  }

  /** Main result: the pattern loops leave the buffer of an accepted disk exactly on those geometries. */
  lemma LoopsOverrunIff(blockSize: int32, lastBlock: int32, g: Geometry)
    requires IsChoice(blockSize, lastBlock, g)
    ensures g.Valid? && 4 * LoopWords(0, g.size) != g.size <==> Overruns(blockSize, lastBlock)
    ensures g.Valid? ==> (4 * LoopWords(0, g.size) != g.size <==> g.size % 4 != 0)
  {
    if g.Valid? {
      ChoiceIsMost(blockSize, lastBlock, g);
      LoopsTouchWholeWords(0, g.size);
      WholeWordsIff(g.blocks, blockSize);
      ParityCases(g.blocks, blockSize);
      hide MostBlocks, Fits;
    }
  }

  /** The utility accepts a disk of one block of 5 bytes, and its loops then touch 8 bytes of the 5. */
  lemma OddBlockOverruns()
    ensures IsChoice(5, 0, Valid(1, 5)) && Overruns(5, 0) && 4 * LoopWords(0, 5) == 8
  {
    assert LoopWords(4, 5) == 1 + LoopWords(8, 5);
  }

  method SetBuffer(buffer: array<word>)
    modifies buffer
    ensures buffer[..] == Pattern(buffer.Length)
  {
    var bufferSize := 4 * buffer.Length;
    var ptr, value, i := 0, VALUE_START as word, 0;
    assert value == Value(0);
    hide Value;
    while i < bufferSize
      invariant 0 <= i <= bufferSize && i == 4 * ptr && value == Value(ptr)
      invariant buffer[..ptr] == Pattern(ptr)
    {
      buffer[ptr] := value;
      NextValue(ptr);
      ptr := ptr + 1;
      value := (value + VALUE_INC) % 0x1_0000_0000;
      i := i + 4;
    }
    assert buffer[..ptr] == buffer[..];
  }

  /** The byte offset, the found and the expected value of the first word that is not the pattern's. */
  predicate FirstMismatch(words: seq<word>, r: Outcome)
    requires r.Mismatch?
  {
    var i := r.offset / 4;
    r.offset % 4 == 0 && i < |words| && r.found == words[i] && r.expected == Value(i) && r.found != r.expected
    && words[..i] == Pattern(i)
  }

  method TestBuffer(buffer: array<word>) returns (r: Outcome)
    ensures r.Passed? || r.Mismatch?
    ensures r.Passed? <==> buffer[..] == Pattern(buffer.Length)
    ensures r.Mismatch? ==> r.offset % 4 == 0 && r.offset / 4 < buffer.Length && r.found == buffer[r.offset / 4]
    ensures r.Mismatch? ==> FirstMismatch(buffer[..], r)
  {
    var bufferSize := 4 * buffer.Length;
    var ptr, value, i := 0, VALUE_START as word, 0;
    assert value == Value(0);
    hide Value;
    while i < bufferSize
      invariant 0 <= i <= bufferSize && i == 4 * ptr && value == Value(ptr)
      invariant buffer[..ptr] == Pattern(ptr)
    {
      if buffer[ptr] != value {
        assert buffer[..][ptr] != Pattern(buffer.Length)[ptr];
        return Mismatch(i, buffer[ptr], value);
      }
      NextValue(ptr);
      ptr := ptr + 1;
      value := (value + VALUE_INC) % 0x1_0000_0000;
      i := i + 4;
    }
    assert buffer[..ptr] == buffer[..];
    return Passed;
  }

  lemma PatternIsNonzero(words: seq<word>, k: nat)
    requires words == Pattern(|words|) && k < |words|
    ensures words[k] != 0
  {
    PatternIsOdd(k);
  }

  /** The commands of a fill test: a write, and a read if the reply to the write was clean. */
  ghost predicate Exchanged(before: seq<Exchange>, after: seq<Exchange>, lun: nat, blocks: nat, r: Outcome)
    requires lun <= 7
  {
    if r.WriteFailed? then Asked(before, after, 0x2a, lun, blocks, false)
    else
      && |after| > |before|
      && Asked(before, after[..|before| + 1], 0x2a, lun, blocks, true)
      && Asked(after[..|before| + 1], after, 0x28, lun, blocks, !r.ReadFailed?)
  }

  /** Main result: the test passes only if the read itself put the whole pattern into the buffer, a
      mismatch is the first wrong word, a read that put pattern words in other places or left cleared
      words never passes, and an honest disk passes. */
  method FillTest(disk: Disk, lun: nat, blocks: nat, buffer: array<word>) returns (r: Outcome)
    requires lun <= 7
    modifies disk, buffer
    ensures !r.BadGeometry? && !r.Overrun?
    ensures Exchanged(old(disk.log), disk.log, lun, blocks, r)
    ensures r.Passed? ==> buffer[..] == Pattern(buffer.Length) && disk.delivered == seq(buffer.Length, _ => true)
    ensures r.Mismatch? ==> FirstMismatch(buffer[..], r)
    ensures r.Passed? || r.Mismatch? ==>
      forall source :: |source| == buffer.Length <= 0x2000_0000 && IsSource(source) && buffer[..] == Misread(source) ==>
        (r.Passed? <==> InPlace(source))
    ensures disk.honest && blocks <= MAX_BLOCKS && blocks * disk.blockSize == 4 * buffer.Length ==> r.Passed?
  {
    hide Value, Pattern, Misread, IsSource, InPlace, Asked;
    SetBuffer(buffer);
    var ok := Fill(disk, lun, blocks, buffer);
    if !ok {
      return WriteFailed;
    }
    ghost var log := disk.log;
    forall k | 0 <= k < buffer.Length {
      buffer[k] := 0;
    }
    ok := Dump(disk, lun, blocks, buffer);
    assert disk.log[..|old(disk.log)| + 1] == log;
    if !ok {
      return ReadFailed;
    }
    r := TestBuffer(buffer);
    forall source | |source| == buffer.Length <= 0x2000_0000 && IsSource(source) && buffer[..] == Misread(source)
      ensures r.Passed? <==> InPlace(source)
    {
      MisaddressingIsDetected(source);
    }
    if r.Passed? {
      forall k | 0 <= k < buffer.Length ensures disk.delivered[k] {
        PatternIsNonzero(buffer[..], k);
      }
    }
  }

  /** Main result: one trial on a disk of any geometry. Block size and last block alone decide whether it
      stays within its buffer, and then an honest disk passes. The trial is not followed beyond an overrun. */
  method Trial(disk: Disk, lun: nat, blockSize: int32, lastBlock: int32) returns (g: Geometry, r: Outcome)
    requires lun <= 7
    modifies disk
    ensures IsChoice(blockSize, lastBlock, g)
    ensures r.BadGeometry? <==> g.Invalid?
    ensures r.Overrun? <==> Overruns(blockSize, lastBlock)
    ensures r.Overrun? <==> g.Valid? && 4 * LoopWords(0, g.size) != g.size
    ensures r.BadGeometry? ==> disk.log == old(disk.log)
    ensures g.Valid? && !r.Overrun? ==> Exchanged(old(disk.log), disk.log, lun, g.blocks, r)
    ensures r.Passed? ==> disk.delivered == seq(g.size / 4, _ => true)
    ensures disk.honest && disk.blockSize == blockSize && g.Valid? && !r.Overrun? ==> r.Passed?
  {
    hide Exchanged, Overruns;
    g := ChooseBlocks(blockSize, lastBlock);
    LoopsOverrunIff(blockSize, lastBlock, g);
    if g.Invalid? {
      return g, BadGeometry;
    }
    if g.size % 4 != 0 {
      return g, Overrun;
    }
    assert Fits(g.blocks, blockSize, lastBlock);
    var buffer := new word[g.size / 4](_ => 0);
    r := FillTest(disk, lun, g.blocks, buffer);
  }
}
