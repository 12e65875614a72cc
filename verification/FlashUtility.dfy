/** The flash EPROM programming utility: clear every word, erase, program a hex file, read it back. */
module FlashUtility {
  import opened Words
  import opened FlashDevice
  import opened HexFile

  const PULSE_LIMIT := 4
  const ERASE_LIMIT := 1000

  ghost predicate AllWords(words: seq<word>, value: word) {
    forall j :: 0 <= j < |words| ==> words[j] == value
  }

  /** Erase pulses from one log to the next: the first on an array of zeros, each later one on an
      array with an unerased word, at most 999 of them. */
  ghost predicate ErasesInOrder(before: seq<seq<word>>, after: seq<seq<word>>) {
    && before <= after && |after| - |before| <= 999
    && (|after| > |before| ==> AllWords(after[|before|], 0))
    && forall p :: |before| < p < |after| ==> !AllWords(after[p], BLANK_WORD)
  }

  /** Reset the command registers: two resets, the first of which may be taken as program data. */
  method ResetFe(d: Device)
    requires d.Valid()
    modifies d
    ensures d.InMode(ReadArray) && d.words == old(d.words)
    ensures d.discipline.misread == old(d.discipline).misread && d.discipline.writes >= old(d.discipline).writes
    ensures old(d.discipline).splits <= d.discipline.splits <= old(d.discipline).splits + {old(d.discipline).writes}
    ensures old(Agree(d.modes)) ==> Disciplined(old(d.discipline), d.discipline)
    ensures d.complete == old(d.complete) && d.erases == old(d.erases)
    ensures forall a :: 0 <= a < FLASH_WORD_SIZE ==> d.programs[a] >= old(d.programs)[a]
    ensures old(d.Ready()) ==> d.programs == old(d.programs) && d.pulses == old(d.pulses)
  {
    forall k | 0 <= k < 4 ensures Lane(Uniform(RESET), k) == RESET {
      UniformLane(RESET, k);
    }
    ghost var before, between, words := d.modes, [], d.words;
    d.Write(0, Uniform(RESET), {AsCommand, AsData});
    WordsKept(before, 0, Uniform(RESET), words, d.words);
    ResetsAreComplete(before, 0, Uniform(RESET), d.words);
    between := d.modes;
    d.Write(0, Uniform(RESET), {AsCommand});
    WordsKept(between, 0, Uniform(RESET), words, d.words);
    ResetsAreComplete(between, 0, Uniform(RESET), d.words);
  }

  /** Read the identifier codes; fails when they are not those of the expected part. */
  method ReadIdentifiers(d: Device) returns (ok: bool)
    requires d.Ready()
    modifies d
    ensures d.InMode(ReadId) && d.words == old(d.words)
    ensures ok <==> d.manufacturer == 0x8989_8989 && d.device == 0xb4b4_b4b4
    ensures Disciplined(old(d.discipline), d.discipline) && d.complete == old(d.complete)
    ensures d.programs == old(d.programs) && d.erases == old(d.erases)
  {
    ResetFe(d);
    d.Command(0, READ_ID_CODES);
    var manufacturer := d.Read(0);
    var device := d.Read(1);
    ok := manufacturer == MANUFACTURER_CODE && device == DEVICE_CODE;
  }

  /** Words from up to to took from least up to three program pulses each, the others none. */
  ghost predicate Pulsed(before: seq<nat>, after: seq<nat>, from: nat, to: nat, least: nat) {
    && |before| == |after| && from <= to <= |before|
    && after[..from] == before[..from] && after[to..] == before[to..]
    && forall a :: from <= a < to ==> before[a] + least <= after[a] <= before[a] + 3
  }

  lemma PulsedNext(before: seq<nat>, between: seq<nat>, from: nat, to: nat, pulses: nat)
    requires Pulsed(before, between, from, to, 1) && to < |before| && 1 <= pulses <= 3
    ensures Pulsed(before, between[to := between[to] + pulses], from, to + 1, 1)
  {
    assert between[to] == between[to..][0] == before[to..][0];
    assert between[to..][1..] == before[to..][1..];
  }

  lemma NotYetPulsed(before: seq<nat>, after: seq<nat>, from: nat, to: nat, least: nat, k: nat)
    requires Pulsed(before, after, from, to, least) && to <= k < |before|
    ensures after[k] == before[k]
  {
    assert after[k] == after[to..][k - to] == before[to..][k - to];
  }

  lemma PulsedGrows(before: seq<nat>, after: seq<nat>, from: nat, to: nat, least: nat)
    requires Pulsed(before, after, from, to, least)
    ensures |after| == |before| && forall k :: 0 <= k < |before| ==> after[k] >= before[k]
  {
    forall k | 0 <= k < |before| ensures after[k] >= before[k] {
      if k < from {
        assert after[k] == after[..from][k] == before[..from][k];
      } else if k >= to {
        NotYetPulsed(before, after, from, to, least, k);
      }
    }
  }

  lemma NoPulses(programs: seq<nat>, at: nat)
    requires at <= |programs|
    ensures Pulsed(programs, programs, at, at, 1)
  {
  }

  /** A run of pulses that was cut short is one in which the rest took none. */
  lemma PulsedWithin(before: seq<nat>, after: seq<nat>, from: nat, to: nat, end: nat)
    requires Pulsed(before, after, from, to, 1) && to <= end <= |before|
    ensures Pulsed(before, after, from, end, 0)
  {
    assert forall a :: to <= a < end ==> after[a] == after[to..][a - to] == before[to..][a - to];
    assert after[to..][end - to..] == before[to..][end - to..];
  }

  /** A number of pulses of one value at one word, each but the first because the word did not have it. */
  ghost predicate Retried(before: seq<Pulse>, after: seq<Pulse>, at: nat, data: word, n: nat) {
    && before <= after && |after| == |before| + n
    && forall p :: |before| <= p < |after| ==>
         after[p].at == at && after[p].data == data && (p > |before| ==> after[p].before != data)
  }

  /** Give one word up to three pulses of zeros. */
  method ZeroWord(d: Device, j: nat) returns (ghost pulses: nat)
    requires d.Ready() && j < FLASH_WORD_SIZE
    modifies d
    ensures d.InMode(ProgramVerify)
    ensures Disciplined(old(d.discipline), d.discipline) && d.erases == old(d.erases)
    ensures 1 <= pulses <= 3 && (d.words[j] != 0 ==> pulses == 3)
    ensures Retried(old(d.pulses), d.pulses, j, 0, pulses)
    ensures d.programs == old(d.programs)[j := old(d.programs)[j] + pulses]
    ensures forall a :: 0 <= a < FLASH_WORD_SIZE && a != j ==> d.words[a] == old(d.words)[a]
    ensures d.complete ==> old(d.complete) && d.words[j] == 0
  {
    var i := 1;
    var data: word := BLANK_WORD;
    while i < PULSE_LIMIT && data != 0
      invariant 1 <= i <= PULSE_LIMIT && d.Ready()
      invariant if i == 1 then data != 0 else d.InMode(ProgramVerify) && data == d.words[j]
      invariant Disciplined(old(d.discipline), d.discipline) && d.erases == old(d.erases)
      invariant Retried(old(d.pulses), d.pulses, j, 0, i - 1)
      invariant d.programs == old(d.programs)[j := old(d.programs)[j] + i - 1]
      invariant forall a :: 0 <= a < FLASH_WORD_SIZE && a != j ==> d.words[a] == old(d.words)[a]
      invariant d.complete ==> old(d.complete) && (i > 1 ==> d.words[j] == 0)
      decreases PULSE_LIMIT - i
    {
      d.Command(0, PROGRAM);
      d.Data(j, 0);
      d.Command(0, PROGRAM_VERIFY);
      data := d.Read(j);
      i := i + 1;
    }
    pulses := i - 1;
  }

  /** Pulse every word to zero. */
  method ProgramToZero(d: Device)
    requires d.Ready()
    modifies d
    ensures d.InMode(ProgramVerify)
    ensures Disciplined(old(d.discipline), d.discipline) && d.erases == old(d.erases)
    ensures Pulsed(old(d.programs), d.programs, 0, 0x2_0000, 1)
    ensures forall k :: 0 <= k < 0x2_0000 && d.words[k] != 0 ==> d.programs[k] == old(d.programs)[k] + 3
    ensures d.complete ==> old(d.complete) && AllWords(d.words, 0)
  {
    hide Pulsed;
    NoPulses(d.programs, 0);
    var j := 0;
    while j < FLASH_WORD_SIZE
      invariant 0 <= j <= FLASH_WORD_SIZE
      invariant d.Ready() && (j > 0 ==> d.InMode(ProgramVerify))
      invariant Disciplined(old(d.discipline), d.discipline) && d.erases == old(d.erases)
      invariant Pulsed(old(d.programs), d.programs, 0, j, 1)
      invariant forall k :: 0 <= k < j && d.words[k] != 0 ==> d.programs[k] == old(d.programs)[k] + 3
      invariant d.complete ==> old(d.complete) && forall k :: 0 <= k < j ==> d.words[k] == 0
    {
      ghost var between := d.programs;
      NotYetPulsed(old(d.programs), between, 0, j, 1, j);
      ghost var pulses := ZeroWord(d, j);
      PulsedNext(old(d.programs), between, 0, j, pulses);
      j := j + 1;
    }
  }

  /** Whether every word reads as value. */
  method CheckValue(d: Device, value: word) returns (ok: bool, ghost at: nat)
    requires d.InMode(ReadArray) || d.InMode(ProgramVerify)
    ensures ok <==> AllWords(d.words, value)
    ensures !ok ==> at < 0x2_0000 && d.words[at] != value && AllWords(d.words[..at], value)
  {
    var j := 0;
    while j < FLASH_WORD_SIZE
      invariant 0 <= j <= FLASH_WORD_SIZE
      invariant forall i :: 0 <= i < j ==> d.words[i] == value
    {
      var data := d.Read(j);
      if data != value {
        return false, j;
      }
      j := j + 1;
    }
    return true, 0;
  }

  /** Pulse the whole array until a sweep finds every word erased, at most 999 times. */
  method Erase(d: Device) returns (ok: bool)
    requires d.Ready() && AllWords(d.words, 0)
    modifies d
    ensures d.InMode(ReadArray)
    ensures ok <==> AllWords(d.words, BLANK_WORD)
    ensures Disciplined(old(d.discipline), d.discipline) && d.programs == old(d.programs)
    ensures ErasesInOrder(old(d.erases), d.erases) && |d.erases| > |old(d.erases)|
    ensures !ok ==> |d.erases| == |old(d.erases)| + 999
    ensures d.complete ==> old(d.complete) && ok
  {
    var i, j, failure := 1, 0, 1;
    ghost var first := |d.erases|;
    while failure != 0 && i < ERASE_LIMIT
      invariant 1 <= i <= ERASE_LIMIT && d.Ready() && 0 <= j <= FLASH_WORD_SIZE
      invariant Disciplined(old(d.discipline), d.discipline) && d.programs == old(d.programs)
      invariant |d.erases| == first + i - 1 && d.erases[..first] == old(d.erases)
      invariant i == 1 ==> failure != 0 && AllWords(d.words, 0) && d.complete == old(d.complete)
      invariant i > 1 && d.complete ==> old(d.complete) && AllWords(d.words, BLANK_WORD)
      invariant i > 1 ==> AllWords(d.erases[first], 0)
      invariant i > 1 ==> (failure == 0 <==> j == FLASH_WORD_SIZE) && (failure == 0 <==> AllWords(d.words, BLANK_WORD))
      invariant forall p :: first < p < |d.erases| ==> !AllWords(d.erases[p], BLANK_WORD)
      decreases ERASE_LIMIT - i
    {
      d.Command(0, ERASE);
      d.ConfirmErase(0);
      failure := 0;
      j := 0;
      ghost var erases, words, complete := d.erases, d.words, d.complete;
      while j < FLASH_WORD_SIZE
        invariant 0 <= j <= FLASH_WORD_SIZE && failure == 0 && d.Ready()
        invariant Disciplined(old(d.discipline), d.discipline) && d.programs == old(d.programs)
        invariant d.erases == erases && d.words == words && d.complete == complete
        invariant forall k :: 0 <= k < j ==> words[k] == BLANK_WORD
      {
        d.Command(j, ERASE_VERIFY);
        var data := d.Read(j);
        if data != BLANK_WORD {
          failure := failure + 1;
          break;
        }
        j := j + 1;
      }
      i := i + 1;
    }
    d.Command(0, READ_MEMORY);
    ok := j == FLASH_WORD_SIZE;
  }

  /** Set the based address and the words of a line; numbers that are not there count as zero. */
  method SetWords(l: Line, hex: array<word>)
    requires WordCount(l) > 0 && hex.Length == 5
    modifies hex
    ensures hex[0] == Based(l.tokens[0])
    ensures hex[1..1 + WordCount(l)] == WordsOf(l)
  {
    var byteData := new word[16](i => if 0 <= i < |l.tokens| - 1 then l.tokens[1 + i] else 0);
    hex[0] := Based(l.tokens[0]);
    for j := 0 to 4
      invariant hex[0] == Based(l.tokens[0])
      invariant forall i :: 0 <= i < |l.tokens| - 1 ==> byteData[i] == l.tokens[1 + i]
      invariant forall k :: 0 <= k < j && k < WordCount(l) ==> hex[1 + k] == WordOf(l, k)
    {
      hex[1 + j] := Pack([byteData[4 * j] % 0x100, byteData[4 * j + 1] % 0x100,
                          byteData[4 * j + 2] % 0x100, byteData[4 * j + 3] % 0x100]);
    }
  }

  /** The stream of lines of an open hex file. */
  class Reader {
    const lines: seq<Line>
    var next: nat

    ghost predicate Valid()
      reads this
    {
      next <= |lines|
    }

    constructor (lines: seq<Line>)
      ensures this.lines == lines && next == 0
    {
      this.lines := lines;
      next := 0;
    }

    /** Read one line into hex: the based address, then up to four words. On an invalid line the
        command registers are reset and the utility exits. */
    method GetLine(d: Device, hex: array<word>) returns (fileEnd: bool, wordCt: nat, exit: bool)
      requires Valid() && hex.Length == 5 && d.Ready() && WellPlaced(lines)
      modifies this`next, hex, d
      ensures Valid()
      ensures fileEnd <==> old(next) == |lines| || exit
      ensures next == if old(next) == |lines| then old(next) else old(next) + 1
      ensures old(next) == |lines| ==> wordCt == 0 && !exit
      ensures old(next) < |lines| ==>
        var l := lines[old(next)];
        wordCt == WordCount(l) == (match |l.tokens| case 5 => 1 case 9 => 2 case 13 => 3 case 17 => 4 case _ => 0)
        && exit == IsInvalid(l) == (!l.blank && |l.tokens| !in {5, 9, 13, 17})
        && (wordCt > 0 ==> hex[0] == Based(l.tokens[0]) && hex[1..1 + wordCt] == WordsOf(l))
      ensures d.Ready() && if exit then d.InMode(ReadArray) else d.modes == old(d.modes)
      ensures d.words == old(d.words) && Disciplined(old(d.discipline), d.discipline)
      ensures d.complete == old(d.complete) && d.programs == old(d.programs) && d.erases == old(d.erases)
      ensures d.pulses == old(d.pulses)
    {
      exit := false;
      if next == |lines| {
        return true, 0, false;
      }
      var l := lines[next];
      next := next + 1;
      if |l.tokens| == 5 {
        wordCt := 1;
      } else if |l.tokens| == 9 {
        wordCt := 2;
      } else if |l.tokens| == 13 {
        wordCt := 3;
      } else if |l.tokens| == 17 {
        wordCt := 4;
      } else if !l.blank {
        ResetFe(d);
        return true, 0, true;
      } else {
        return false, 0, false;
      }
      SetWords(l, hex);
      fileEnd := false;
    }
  }

  /** The retry loop for one word of a line. */
  method ProgramWord(d: Device, base: nat, offset: nat, value: word) returns (failure: bool, ghost tries: nat)
    requires d.Ready() && base + offset < FLASH_WORD_SIZE
    modifies d
    ensures d.InMode(ProgramVerify)
    ensures Disciplined(old(d.discipline), d.discipline) && d.erases == old(d.erases)
    ensures 1 <= tries <= 3 && (failure ==> tries == 3)
    ensures Retried(old(d.pulses), d.pulses, base + offset, value, tries)
    ensures d.programs == old(d.programs)[base + offset := old(d.programs)[base + offset] + tries]
    ensures forall a :: 0 <= a < FLASH_WORD_SIZE && a != base + offset ==> d.words[a] == old(d.words)[a]
    ensures failure <==> d.words[base + offset] != value
    ensures d.complete ==> old(d.complete) && (old(d.words)[base + offset] in {BLANK_WORD, value} ==> !failure)
  {
    var i := 1;
    failure := true;
    while i < PULSE_LIMIT && failure
      invariant 1 <= i <= PULSE_LIMIT && d.Ready()
      invariant if i == 1 then failure else d.InMode(ProgramVerify) && (failure <==> d.words[base + offset] != value)
      invariant Disciplined(old(d.discipline), d.discipline) && d.erases == old(d.erases)
      invariant Retried(old(d.pulses), d.pulses, base + offset, value, i - 1)
      invariant d.programs == old(d.programs)[base + offset := old(d.programs)[base + offset] + i - 1]
      invariant if i == 1 then d.words == old(d.words) && d.complete == old(d.complete) else
        d.complete ==> old(d.complete) && (old(d.words)[base + offset] in {BLANK_WORD, value} ==> !failure)
      invariant forall a :: 0 <= a < FLASH_WORD_SIZE && a != base + offset ==> d.words[a] == old(d.words)[a]
      decreases PULSE_LIMIT - i
    {
      d.Command(base, PROGRAM);
      d.Data(base + offset, value);
      d.Command(base, PROGRAM_VERIFY);
      var data := d.Read(base + offset);
      failure := data != value;
      i := i + 1;
    }
    tries := i - 1;
  }

  /** Each word to program is blank or already has its value. */
  ghost predicate Receptive(words: seq<word>, base: nat, values: seq<word>)
    requires base + |values| <= |words|
  {
    forall j :: 0 <= j < |values| ==> words[base + j] in {BLANK_WORD, values[j]}
  }

  /** The first n of the values are stored from base on, and the rest is as it was. */
  ghost predicate Programmed(before: seq<word>, after: seq<word>, base: nat, values: seq<word>, n: nat) {
    && |before| == |after| && base + |values| <= |before| && n <= |values|
    && (forall a :: 0 <= a < |before| && !(base <= a < base + n) ==> after[a] == before[a])
    && forall j :: 0 <= j < n ==> after[base + j] == values[j]
  }

  lemma NothingProgrammed(words: seq<word>, base: nat, values: seq<word>)
    requires base + |values| <= |words|
    ensures Programmed(words, words, base, values, 0)
  {
  }

  lemma ProgrammedNext(before: seq<word>, between: seq<word>, after: seq<word>, base: nat, values: seq<word>, n: nat)
    requires Programmed(before, between, base, values, n) && n < |values| && |after| == |between|
    requires forall a :: 0 <= a < |between| && a != base + n ==> after[a] == between[a]
    ensures after[base + n] == values[n] ==> Programmed(before, after, base, values, n + 1)
    ensures after[..base] == before[..base] && after[base + |values|..] == before[base + |values|..]
    ensures Receptive(before, base, values) ==> between[base + n] in {BLANK_WORD, values[n]}
  {
  }

  lemma AllProgrammed(before: seq<word>, after: seq<word>, base: nat, values: seq<word>)
    requires Programmed(before, after, base, values, |values|)
    ensures after[..base] == before[..base] && after[base + |values|..] == before[base + |values|..]
    ensures after[base..base + |values|] == values
  {
  }

  /** Program the words of a line, each with up to three pulses until it reads back. */
  method ProgramWords(d: Device, hex: array<word>, wordCt: nat) returns (ok: bool, ghost at: nat)
    requires hex.Length == 5 && 0 < wordCt <= 4 && d.Ready()
    requires 0 <= IndexOf(hex[0]) && IndexOf(hex[0]) + wordCt <= FLASH_WORD_SIZE
    modifies d
    ensures if ok then d.InMode(ProgramVerify) else d.InMode(ReadArray)
    ensures Disciplined(old(d.discipline), d.discipline) && d.erases == old(d.erases)
    ensures Pulsed(old(d.programs), d.programs, IndexOf(hex[0]), IndexOf(hex[0]) + wordCt, if ok then 1 else 0)
    ensures var base := IndexOf(hex[0]);
      d.words[..base] == old(d.words)[..base] && d.words[base + wordCt..] == old(d.words)[base + wordCt..]
      && (ok ==> d.words[base..base + wordCt] == hex[1..1 + wordCt])
    ensures !ok ==>
      at < wordCt && d.words[IndexOf(hex[0]) + at] != hex[1 + at]
      && d.programs[IndexOf(hex[0]) + at] == old(d.programs)[IndexOf(hex[0]) + at] + 3
    ensures d.complete ==> old(d.complete) && (Receptive(old(d.words), IndexOf(hex[0]), hex[1..1 + wordCt]) ==> ok)
  {
    hide Pulsed, Programmed, Receptive;
    var base := IndexOf(hex[0]);
    ghost var words, values := d.words, hex[1..1 + wordCt];
    NoPulses(d.programs, base);
    NothingProgrammed(words, base, values);
    for j := 1 to wordCt + 1
      invariant d.Ready() && (j > 1 ==> d.InMode(ProgramVerify))
      invariant d.complete ==> old(d.complete)
      invariant Disciplined(old(d.discipline), d.discipline) && d.erases == old(d.erases)
      invariant Pulsed(old(d.programs), d.programs, base, base + j - 1, 1)
      invariant Programmed(words, d.words, base, values, j - 1)
    {
      ghost var between, programs := d.words, d.programs;
      NotYetPulsed(old(d.programs), programs, base, base + j - 1, 1, base + j - 1);
      var failure, pulses := ProgramWord(d, base, j - 1, hex[j]);
      PulsedNext(old(d.programs), programs, base, base + j - 1, pulses);
      assert values[j - 1] == hex[j];
      ProgrammedNext(words, between, d.words, base, values, j - 1);
      if failure {
        PulsedWithin(old(d.programs), d.programs, base, base + j, base + wordCt);
        d.Command(base, RESET);
        d.Command(base, RESET);
        return false, j - 1;
      }
    }
    AllProgrammed(words, d.words, base, values);
    return true, 0;
  }

  /** Whether the words of a line read back. */
  method CheckWords(d: Device, hex: array<word>, wordCt: nat) returns (ok: bool)
    requires hex.Length == 5 && 0 < wordCt <= 4 && d.InMode(ReadArray)
    requires 0 <= IndexOf(hex[0]) && IndexOf(hex[0]) + wordCt <= FLASH_WORD_SIZE
    ensures ok <==> d.words[IndexOf(hex[0])..IndexOf(hex[0]) + wordCt] == hex[1..1 + wordCt]
  {
    var base := IndexOf(hex[0]);
    for j := 1 to wordCt + 1
      invariant d.words[base..base + j - 1] == hex[1..j]
    {
      var data := d.Read(base + j - 1);
      if data != hex[j] {
        assert d.words[base..base + wordCt][j - 1] != hex[1..1 + wordCt][j - 1];
        return false;
      }
    }
    return true;
  }

  /** The words no line names are as they were. */
  ghost predicate OnlyNamedChanged(before: seq<word>, after: seq<word>, lines: seq<Line>) {
    && |before| == |after| == FLASH_WORD_SIZE
    && forall a :: 0 <= a < FLASH_WORD_SIZE && !NamedIn(lines, a) ==> after[a] == before[a]
  }

  lemma BlankImage(words: seq<word>)
    requires |words| == FLASH_WORD_SIZE && AllWords(words, BLANK_WORD)
    ensures words == ImageOf([])
  {
  }

  lemma EarlierAgrees(lines: seq<Line>, l: nat, a: nat)
    requires l < |lines| && !Conflicting(lines) && Names(lines[l], a)
    ensures LastGiven(lines[..l], a) in {BLANK_WORD, Given(lines[l], a)}
  {
    LastGivenIsGiven(lines[..l], a);
    if NamedIn(lines[..l], a) {
      var i :| 0 <= i < l && Names(lines[..l][i], a) && LastGiven(lines[..l], a) == Given(lines[..l][i], a);
      assert lines[..l][i] == lines[i];
    }
  }

  lemma PrefixIsReceptive(lines: seq<Line>, l: nat)
    requires l < |lines| && WellPlaced(lines) && !Conflicting(lines) && WordCount(lines[l]) > 0
    ensures Receptive(ImageOf(lines[..l]), IndexOf(Based(lines[l].tokens[0])), WordsOf(lines[l]))
  {
    var base := IndexOf(Based(lines[l].tokens[0]));
    assert InDevice(lines[l]);
    forall j | 0 <= j < WordCount(lines[l])
      ensures ImageOf(lines[..l])[base + j] in {BLANK_WORD, WordsOf(lines[l])[j]}
    {
      EarlierAgrees(lines, l, base + j);
    }
  }

  lemma ImageGrows(before: seq<word>, after: seq<word>, lines: seq<Line>, l: nat)
    requires l < |lines| && InDevice(lines[l]) && WordCount(lines[l]) > 0
    requires before == ImageOf(lines[..l]) && |after| == FLASH_WORD_SIZE
    requires var base, n := IndexOf(Based(lines[l].tokens[0])), WordCount(lines[l]);
      after[..base] == before[..base] && after[base + n..] == before[base + n..]
      && after[base..base + n] == WordsOf(lines[l])
    ensures after == ImageOf(lines[..l + 1])
  {
    var base, n := IndexOf(Based(lines[l].tokens[0])), WordCount(lines[l]);
    assert lines[..l + 1][..l] == lines[..l];
    forall a | 0 <= a < FLASH_WORD_SIZE ensures after[a] == LastGiven(lines[..l + 1], a) {
      if a < base {
        assert after[a] == after[..base][a] == before[..base][a];
      } else if a < base + n {
        assert after[a] == after[base..base + n][a - base];
      } else {
        assert after[a] == after[base + n..][a - base - n] == before[base + n..][a - base - n];
      }
    }
  }

  lemma ImageSkips(lines: seq<Line>, l: nat)
    requires l < |lines| && WordCount(lines[l]) == 0
    ensures ImageOf(lines[..l + 1]) == ImageOf(lines[..l])
  {
    assert lines[..l + 1][..l] == lines[..l];
  }

  lemma SameContents(words: seq<word>, lines: seq<Line>)
    requires |words| == FLASH_WORD_SIZE
    ensures OnlyNamedChanged(words, words, lines)
  {
  }

  lemma OnlyNamedChange(orig: seq<word>, before: seq<word>, after: seq<word>, lines: seq<Line>, l: nat)
    requires |before| == |after| == FLASH_WORD_SIZE && l < |lines| && InDevice(lines[l]) && WordCount(lines[l]) > 0
    requires OnlyNamedChanged(orig, before, lines)
    requires var base, n := IndexOf(Based(lines[l].tokens[0])), WordCount(lines[l]);
      after[..base] == before[..base] && after[base + n..] == before[base + n..]
    ensures OnlyNamedChanged(orig, after, lines)
  {
    var base, n := IndexOf(Based(lines[l].tokens[0])), WordCount(lines[l]);
    forall a | 0 <= a < FLASH_WORD_SIZE && !NamedIn(lines, a) ensures after[a] == orig[a] {
      assert !Names(lines[l], a);
      if a < base {
        assert after[..base][a] == before[..base][a];
      } else {
        assert after[base + n..][a - base - n] == before[base + n..][a - base - n];
      }
    }
  }

  /** How a run of the utility ends: with success, or where it gave up. */
  datatype Verdict =
    | Success
    | WrongPart
    | NotZeroed(at: nat)
    | NotErased
    | NoFile
    | BadLine(line: nat)
    | NotTaken(line: nat, offset: nat)
    | NotStored

  /** A word of a line that does not read back although it has had three pulses more than before. */
  ghost predicate WasNotTaken(words: seq<word>, before: seq<nat>, after: seq<nat>, l: Line, offset: nat)
    requires InDevice(l) && |words| == |before| == |after| == FLASH_WORD_SIZE
  {
    offset < WordCount(l)
    && var a := IndexOf(Based(l.tokens[0])) + offset;
       words[a] != WordOf(l, offset) && after[a] >= before[a] + 3
  }

  /** Where the words of a line that names some are. */
  lemma PlaceOfWords(lines: seq<Line>, l: nat)
    requires WellPlaced(lines) && l < |lines| && WordCount(lines[l]) > 0
    ensures 0 <= IndexOf(Based(lines[l].tokens[0]))
    ensures IndexOf(Based(lines[l].tokens[0])) + WordCount(lines[l]) <= FLASH_WORD_SIZE
  {
    assert InDevice(lines[l]);
  }

  lemma TakesMore(words: seq<word>, before: seq<nat>, between: seq<nat>, after: seq<nat>, l: Line, offset: nat)
    requires InDevice(l) && |words| == |before| == |between| == |after| == FLASH_WORD_SIZE
    requires forall a :: 0 <= a < FLASH_WORD_SIZE ==> between[a] >= before[a]
    requires WasNotTaken(words, between, after, l, offset)
    ensures WasNotTaken(words, before, after, l, offset)
  {
  }

  lemma StillOnlyNamed(orig: seq<word>, before: seq<word>, after: seq<word>, lines: seq<Line>)
    requires OnlyNamedChanged(orig, before, lines) && OnlyNamedChanged(before, after, lines)
    ensures OnlyNamedChanged(orig, after, lines)
  {
  }

  /** Program the words of line l. */
  method ProgramLine(d: Device, ghost lines: seq<Line>, ghost l: nat, hex: array<word>, wordCt: nat)
    returns (ok: bool, ghost at: nat)
    requires d.Ready() && WellPlaced(lines) && l < |lines| && hex.Length == 5 && 0 < wordCt == WordCount(lines[l])
    requires hex[0] == Based(lines[l].tokens[0]) && hex[1..1 + wordCt] == WordsOf(lines[l])
    modifies d
    ensures d.Ready() && Disciplined(old(d.discipline), d.discipline) && d.erases == old(d.erases)
    ensures OnlyNamedChanged(old(d.words), d.words, lines)
    ensures forall a :: 0 <= a < FLASH_WORD_SIZE ==> d.programs[a] >= old(d.programs)[a]
    ensures ok && old(d.words) == ImageOf(lines[..l]) ==> d.words == ImageOf(lines[..l + 1])
    ensures !ok ==> WasNotTaken(d.words, old(d.programs), d.programs, lines[l], at)
    ensures d.complete ==> old(d.complete)
    ensures d.complete && IsConsistent(lines) && old(d.words) == ImageOf(lines[..l]) ==> ok
  {
    hide Pulsed, Conflicting, Names, ImageOf, Receptive, OnlyNamedChanged;
    PlaceOfWords(lines, l);
    SameContents(d.words, lines);
    if IsConsistent(lines) && d.words == ImageOf(lines[..l]) {
      PrefixIsReceptive(lines, l);
    }
    ok, at := ProgramWords(d, hex, wordCt);
    PulsedGrows(old(d.programs), d.programs, IndexOf(hex[0]), IndexOf(hex[0]) + wordCt, if ok then 1 else 0);
    OnlyNamedChange(old(d.words), old(d.words), d.words, lines, l);
    if !ok {
      assert hex[1..1 + wordCt][at] == hex[1 + at];
    } else if old(d.words) == ImageOf(lines[..l]) {
      ImageGrows(old(d.words), d.words, lines, l);
    }
  }

  /** Program every line of the file; opens says whether the file could be opened. */
  method ProgramFile(d: Device, lines: seq<Line>, opens: bool) returns (ok: bool, ghost verdict: Verdict)
    requires d.Ready() && WellPlaced(lines)
    modifies d
    ensures d.Ready() && (ok <==> verdict == Success)
    ensures match verdict
      case Success => opens && forall l :: 0 <= l < |lines| ==> !IsInvalid(lines[l])
      case NoFile => !opens && d.words == old(d.words) && d.programs == old(d.programs)
      case BadLine(l) => opens && l < |lines| && IsInvalid(lines[l])
      case NotTaken(l, j) =>
        opens && l < |lines| && WasNotTaken(d.words, old(d.programs), d.programs, lines[l], j)
      case _ => false
    ensures Disciplined(old(d.discipline), d.discipline) && d.erases == old(d.erases)
    ensures OnlyNamedChanged(old(d.words), d.words, lines)
    ensures d.complete ==> old(d.complete)
    ensures AllWords(old(d.words), BLANK_WORD) ==>
      (verdict == Success ==> d.words == ImageOf(lines))
      && (verdict.BadLine? ==> d.words == ImageOf(lines[..verdict.line]))
    ensures d.complete && opens && IsConsistent(lines) && AllWords(old(d.words), BLANK_WORD) ==> ok
  {
    hide Conflicting, Given, WordOf, Names, ImageOf, WordsOf, OnlyNamedChanged, WasNotTaken, IndexOf, Based, WordCount;
    SameContents(d.words, lines);
    if AllWords(d.words, BLANK_WORD) {
      BlankImage(d.words);
    }
    hide AllWords;
    if !opens {
      return false, NoFile;
    }
    var reader := new Reader(lines);
    var hex := new word[5](_ => 0);
    var fileEnd := false;
    while !fileEnd
      invariant reader.Valid() && reader.lines == lines && d.Ready()
      invariant Disciplined(old(d.discipline), d.discipline) && d.erases == old(d.erases)
      invariant OnlyNamedChanged(old(d.words), d.words, lines)
      invariant d.complete ==> old(d.complete)
      invariant forall a :: 0 <= a < FLASH_WORD_SIZE ==> d.programs[a] >= old(d.programs)[a]
      invariant AllWords(old(d.words), BLANK_WORD) ==> d.words == ImageOf(lines[..reader.next])
      invariant forall l :: 0 <= l < reader.next ==> !IsInvalid(lines[l])
      invariant fileEnd ==> reader.next == |lines|
      decreases !fileEnd, |lines| - reader.next
    {
      ghost var l := reader.next;
      var wordCt, exit;
      fileEnd, wordCt, exit := reader.GetLine(d, hex);
      if exit {
        return false, BadLine(l);
      }
      if wordCt > 0 {
        ghost var before, programs := d.words, d.programs;
        var done;
        ghost var at;
        done, at := ProgramLine(d, lines, l, hex, wordCt);
        StillOnlyNamed(old(d.words), before, d.words, lines);
        if !done {
          TakesMore(d.words, old(d.programs), programs, d.programs, lines[l], at);
          return false, NotTaken(l, at);
        }
      } else if !fileEnd {
        ImageSkips(lines, l);
      }
    }
    assert lines[..|lines|] == lines;
    return true, Success;
  }

  lemma StoresLineIffSlice(words: seq<word>, l: Line)
    requires |words| == FLASH_WORD_SIZE && InDevice(l) && WordCount(l) > 0
    ensures var base := IndexOf(Based(l.tokens[0]));
      StoresLine(words, l) <==> words[base..base + WordCount(l)] == WordsOf(l)
  {
    hide WordOf;
    var base := IndexOf(Based(l.tokens[0]));
    var slice := words[base..base + WordCount(l)];
    if StoresLine(words, l) {
      forall j | 0 <= j < WordCount(l) ensures slice[j] == WordsOf(l)[j] {
        assert Names(l, base + j);
      }
    }
    if slice == WordsOf(l) {
      forall a | 0 <= a < FLASH_WORD_SIZE && Names(l, a) ensures words[a] == Given(l, a) {
        assert slice[a - base] == WordsOf(l)[a - base];
      }
    }
  }

  /** Whether the file could be opened, has no invalid line, and every line reads back. */
  method CheckFile(d: Device, lines: seq<Line>, opens: bool) returns (ok: bool)
    requires d.InMode(ReadArray) && WellPlaced(lines)
    modifies d
    ensures d.InMode(ReadArray) && d.words == old(d.words)
    ensures Disciplined(old(d.discipline), d.discipline) && d.complete == old(d.complete)
    ensures d.programs == old(d.programs) && d.erases == old(d.erases)
    ensures ok <==> opens && (forall i :: 0 <= i < |lines| ==> !IsInvalid(lines[i])) && Stores(d.words, lines)
  {
    if !opens {
      return false;
    }
    var reader := new Reader(lines);
    var hex := new word[5](_ => 0);
    var fileEnd := false;
    while !fileEnd
      invariant reader.Valid() && reader.lines == lines && d.InMode(ReadArray) && d.words == old(d.words)
      invariant Disciplined(old(d.discipline), d.discipline) && d.complete == old(d.complete)
      invariant d.programs == old(d.programs) && d.erases == old(d.erases)
      invariant forall i :: 0 <= i < reader.next ==> !IsInvalid(lines[i]) && StoresLine(d.words, lines[i])
      invariant fileEnd ==> reader.next == |lines|
      decreases !fileEnd, |lines| - reader.next
    {
      ghost var l := reader.next;
      var wordCt, exit;
      fileEnd, wordCt, exit := reader.GetLine(d, hex);
      if exit {
        return false;
      }
      if wordCt > 0 {
        var same := CheckWords(d, hex, wordCt);
        StoresLineIffSlice(d.words, lines[l]);
        if !same {
          return false;
        }
      }
    }
    return true;
  }

  /** The run up to the programming of the file: identify the part, clear it and erase it. */
  method EraseDevice(d: Device) returns (ok: bool, ghost verdict: Verdict)
    requires d.Valid()
    modifies d
    ensures d.Ready() && (ok <==> verdict == Success)
    ensures verdict == WrongPart <==> d.manufacturer != 0x8989_8989 || d.device != 0xb4b4_b4b4
    ensures match verdict
      case Success => d.InMode(ReadArray) && AllWords(d.words, 0xffff_ffff)
      case WrongPart => d.words == old(d.words) && d.erases == old(d.erases)
      case NotZeroed(a) =>
        a < 0x2_0000 && d.words[a] != 0 && d.programs[a] >= old(d.programs)[a] + 3 && d.erases == old(d.erases)
      case NotErased => !AllWords(d.words, 0xffff_ffff) && |d.erases| == |old(d.erases)| + 999
      case _ => false
    ensures forall a :: 0 <= a < FLASH_WORD_SIZE ==> d.programs[a] >= old(d.programs)[a]
    ensures d.complete && verdict != WrongPart ==> old(d.complete) && ok
    ensures d.discipline.misread == old(d.discipline).misread && d.discipline.writes >= old(d.discipline).writes
    ensures old(d.discipline).splits <= d.discipline.splits <= old(d.discipline).splits + {old(d.discipline).writes}
    ensures old(Agree(d.modes)) ==> d.discipline.splits == old(d.discipline).splits
    ensures ErasesInOrder(old(d.erases), d.erases)
  {
    hide Pulsed;
    ghost var at;
    ResetFe(d);
    var found := ReadIdentifiers(d);
    if !found {
      return false, WrongPart;
    }
    ResetFe(d);
    found := ReadIdentifiers(d);
    if !found {
      return false, WrongPart;
    }
    ResetFe(d);
    ghost var start := d.programs;
    ProgramToZero(d);
    PulsedGrows(start, d.programs, 0, FLASH_WORD_SIZE, 1);
    ok, at := CheckValue(d, 0);
    if !ok {
      return false, NotZeroed(at);
    }
    ResetFe(d);
    ok := Erase(d);
    if !ok {
      return false, NotErased;
    }
    ok, at := CheckValue(d, BLANK_WORD);
    return ok, Success;
  }

  /** The whole run of the utility, on a device in any state at all. Main result: the verdict says what
      went wrong, if anything; on success the device holds exactly the described contents, byte by byte,
      whatever the pulses did. */
  method HighPriority(d: Device, lines: seq<Line>, opensToProgram: bool, opensToCheck: bool)
    returns (success: bool, ghost verdict: Verdict)
    requires d.Valid() && WellPlaced(lines)
    modifies d
    ensures d.Ready() && |d.words| == 0x2_0000
    ensures success <==> verdict == Success
    ensures verdict == WrongPart <==> d.manufacturer != 0x8989_8989 || d.device != 0xb4b4_b4b4
    ensures match verdict
      case Success => opensToProgram && opensToCheck && HoldsBytes(d.words, lines) && IsConsistent(lines)
      case WrongPart => d.words == old(d.words) && d.erases == old(d.erases)
      case NotZeroed(a) =>
        a < 0x2_0000 && d.words[a] != 0 && d.programs[a] >= old(d.programs)[a] + 3 && d.erases == old(d.erases)
      case NotErased => !AllWords(d.words, 0xffff_ffff) && |d.erases| == |old(d.erases)| + 999
      case NoFile => !opensToProgram && AllWords(d.words, 0xffff_ffff)
      case BadLine(l) =>
        opensToProgram && l < |lines| && IsInvalid(lines[l]) && d.words == ImageOf(lines[..l])
      case NotTaken(l, j) =>
        opensToProgram && l < |lines| && WasNotTaken(d.words, old(d.programs), d.programs, lines[l], j)
      case NotStored => d.words == ImageOf(lines) && (!opensToCheck || Conflicting(lines))
    ensures success ==> d.InMode(ReadArray) && d.words == ImageOf(lines) && Stores(d.words, lines)
    ensures d.complete && verdict != WrongPart && opensToProgram && opensToCheck && IsConsistent(lines) ==> success
    ensures d.discipline.misread == old(d.discipline).misread
    ensures d.discipline.splits <= old(d.discipline).splits + {old(d.discipline).writes}
    ensures old(Agree(d.modes)) ==> d.discipline.splits == old(d.discipline).splits
    ensures ErasesInOrder(old(d.erases), d.erases)
  {
    hide ImageOf, Conflicting, Names, Given, StoresLine, StoresBytes, NoneGives, ByteAt, WasNotTaken, ErasesInOrder;
    var ok;
    ok, verdict := EraseDevice(d);
    if !ok {
      return false, verdict;
    }
    ResetFe(d);
    ghost var between := d.programs;
    ok, verdict := ProgramFile(d, lines, opensToProgram);
    if verdict.NotTaken? {
      TakesMore(d.words, old(d.programs), between, d.programs, lines[verdict.line], verdict.offset);
    }
    if !ok {
      return false, verdict;
    }
    ResetFe(d);
    ResetFe(d);
    ok := CheckFile(d, lines, opensToCheck);
    StorableIffConsistent(lines);
    DescribedBytes(d.words, lines);
    if Conflicting(lines) {
      ConflictIsNotStored(d.words, lines);
    }
    return ok, if ok then Success else NotStored;
  }
}
