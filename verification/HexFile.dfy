/** Hex files as the flash utility reads them, and the flash contents they describe. */
module HexFile {
  import opened Words
  import opened FlashDevice

  const FLASH_BASE_ADDRESS := 0x4000_0000
  const MAX_TOKENS := 17

  /** One line: the numbers sscanf converts, at most seventeen, and whether it is white space only. */
  datatype Line = Line(tokens: seq<word>, blank: bool)

  /** The number of words a line gives. */
  function WordCount(l: Line): nat {
    if |l.tokens| in {5, 9, 13, 17} then (|l.tokens| - 1) / 4 else 0
  }

  predicate IsInvalid(l: Line) {
    WordCount(l) == 0 && !l.blank
  }

  /** An address with the base address or-ed in; the base is the single bit 30. */
  function Based(address: word): word {
    if address / FLASH_BASE_ADDRESS % 2 == 1 then address else address + FLASH_BASE_ADDRESS
  }

  /** A line that names words names whole words of the device. */
  predicate InDevice(l: Line) {
    && |l.tokens| <= MAX_TOKENS
    && (WordCount(l) > 0 ==>
          var a := Based(l.tokens[0]);
          a % 4 == 0 && a / 4 >= FLASH_BASE_ADDRESS / 4
          && a / 4 - FLASH_BASE_ADDRESS / 4 + WordCount(l) <= FLASH_WORD_SIZE)
  }

  /** The index in the device of the word at a byte address. */
  function IndexOf(address: word): int {
    address / 4 - FLASH_BASE_ADDRESS / 4
  }

  /** The words of a line: its bytes, each the low byte of a number, four to a word. */
  function WordOf(l: Line, j: nat): word
    requires j < WordCount(l)
  {
    Pack([l.tokens[1 + 4 * j] % 0x100, l.tokens[2 + 4 * j] % 0x100,
          l.tokens[3 + 4 * j] % 0x100, l.tokens[4 + 4 * j] % 0x100])
  }

  function WordsOf(l: Line): seq<word> {
    seq(WordCount(l), j requires 0 <= j < WordCount(l) => WordOf(l, j))
  }

  predicate Names(l: Line, a: nat) {
    WordCount(l) > 0 && IndexOf(Based(l.tokens[0])) <= a < IndexOf(Based(l.tokens[0])) + WordCount(l)
  }

  function Given(l: Line, a: nat): word
    requires Names(l, a)
  {
    WordOf(l, a - IndexOf(Based(l.tokens[0])))
  }

  predicate WellPlaced(lines: seq<Line>) {
    forall i :: 0 <= i < |lines| ==> InDevice(lines[i])
  }

  predicate StoresLine(words: seq<word>, l: Line)
    requires |words| == FLASH_WORD_SIZE
  {
    forall a :: 0 <= a < FLASH_WORD_SIZE && Names(l, a) ==> words[a] == Given(l, a)
  }

  predicate Stores(words: seq<word>, lines: seq<Line>)
    requires |words| == FLASH_WORD_SIZE
  {
    forall i :: 0 <= i < |lines| ==> StoresLine(words, lines[i])
  }

  predicate NamedIn(lines: seq<Line>, a: nat) {
    exists i :: 0 <= i < |lines| && Names(lines[i], a)
  }

  /** Two lines disagree about a word. */
  ghost predicate Conflicting(lines: seq<Line>) {
    exists i, j, a: nat :: 0 <= i < |lines| && 0 <= j < |lines| && Names(lines[i], a) && Names(lines[j], a)
                           && Given(lines[i], a) != Given(lines[j], a)
  }

  /** A file the utility can program: no line is invalid and no two disagree. */
  ghost predicate IsConsistent(lines: seq<Line>) {
    (forall i :: 0 <= i < |lines| ==> !IsInvalid(lines[i])) && !Conflicting(lines)
  }

  /** The word the last line to name a gives it; blank when none does. */
  function LastGiven(lines: seq<Line>, a: nat): word {
    if |lines| == 0 then BLANK_WORD
    else if Names(lines[|lines| - 1], a) then Given(lines[|lines| - 1], a)
    else LastGiven(lines[..|lines| - 1], a)
  }

  /** The device contents a file describes. */
  function ImageOf(lines: seq<Line>): seq<word> {
    seq(FLASH_WORD_SIZE, a requires 0 <= a < FLASH_WORD_SIZE => LastGiven(lines, a))
  }

  lemma {:induction false} LastGivenIsGiven(lines: seq<Line>, a: nat)
    ensures NamedIn(lines, a) ==>
      exists i :: 0 <= i < |lines| && Names(lines[i], a) && LastGiven(lines, a) == Given(lines[i], a)
    ensures !NamedIn(lines, a) ==> LastGiven(lines, a) == BLANK_WORD
  {
    if |lines| > 0 && !Names(lines[|lines| - 1], a) {
      var rest := lines[..|lines| - 1];
      LastGivenIsGiven(rest, a);
      if NamedIn(lines, a) {
        var i :| 0 <= i < |lines| && Names(lines[i], a);
        assert rest[i] == lines[i];
        var j :| 0 <= j < |rest| && Names(rest[j], a) && LastGiven(rest, a) == Given(rest[j], a);
        assert lines[j] == rest[j];
      } else {
        forall i | 0 <= i < |rest| ensures !Names(rest[i], a) {
          assert rest[i] == lines[i];
        }
      }
    }
  }

  /** The described contents are the only ones that store every line and are blank elsewhere. */
  lemma ImageIsUnique(words: seq<word>, lines: seq<Line>)
    requires |words| == FLASH_WORD_SIZE && Stores(words, lines)
    requires forall a :: 0 <= a < FLASH_WORD_SIZE && !NamedIn(lines, a) ==> words[a] == BLANK_WORD
    ensures words == ImageOf(lines)
  {
    forall a | 0 <= a < FLASH_WORD_SIZE ensures words[a] == LastGiven(lines, a) {
      LastGivenIsGiven(lines, a);
      if NamedIn(lines, a) {
        var i :| 0 <= i < |lines| && Names(lines[i], a) && LastGiven(lines, a) == Given(lines[i], a);
        assert StoresLine(words, lines[i]);
      }
    }
  }

  lemma ImageIsBlankElsewhere(lines: seq<Line>)
    ensures |ImageOf(lines)| == FLASH_WORD_SIZE
    ensures forall a: nat :: a < FLASH_WORD_SIZE && !NamedIn(lines, a) ==> ImageOf(lines)[a] == BLANK_WORD
  {
    forall a: nat | a < FLASH_WORD_SIZE && !NamedIn(lines, a) ensures ImageOf(lines)[a] == BLANK_WORD {
      LastGivenIsGiven(lines, a);
    }
  }

  lemma ConflictIsNotStored(words: seq<word>, lines: seq<Line>)
    requires |words| == FLASH_WORD_SIZE && WellPlaced(lines) && Conflicting(lines)
    ensures !Stores(words, lines)
  {
    var i, j, a: nat :| 0 <= i < |lines| && 0 <= j < |lines| && Names(lines[i], a) && Names(lines[j], a)
                        && Given(lines[i], a) != Given(lines[j], a);
    assert InDevice(lines[i]);
    if words[a] == Given(lines[i], a) {
      assert !StoresLine(words, lines[j]);
    } else {
      assert !StoresLine(words, lines[i]);
    }
  }

  /** Main result: some device contents store all the lines of a file exactly when no two of them
      disagree, and then the described contents do. */
  lemma StorableIffConsistent(lines: seq<Line>)
    requires WellPlaced(lines)
    ensures (exists words: seq<word> :: |words| == FLASH_WORD_SIZE && Stores(words, lines)) <==> !Conflicting(lines)
    ensures !Conflicting(lines) ==> Stores(ImageOf(lines), lines)
  {
    if Conflicting(lines) {
      forall words: seq<word> | |words| == FLASH_WORD_SIZE ensures !Stores(words, lines) {
        ConflictIsNotStored(words, lines);
      }
    } else {
      var image := ImageOf(lines);
      forall i | 0 <= i < |lines| ensures StoresLine(image, lines[i]) {
        forall a | 0 <= a < FLASH_WORD_SIZE && Names(lines[i], a) ensures image[a] == Given(lines[i], a) {
          LastGivenIsGiven(lines, a);
        }
      }
    }
  }

  // ---------------------------------------------------------------- byte by byte

  /** The byte at a byte offset in the device, which is little-endian. */
  function ByteAt(words: seq<word>, offset: nat): byte
    requires offset / 4 < |words|
  {
    words[offset / 4] / [1, 0x100, 0x1_0000, 0x100_0000][offset % 4] % 0x100
  }

  /** Byte i of a line is in the device, at the place of the line's address plus i. */
  predicate StoresByte(words: seq<word>, l: Line, i: nat)
    requires i + 1 < |l.tokens|
  {
    var offset := l.tokens[0] % 0x4000_0000 + i;
    offset / 4 < |words| && ByteAt(words, offset) == l.tokens[1 + i] % 0x100
  }

  /** A line gives a byte for this offset. */
  predicate GivesByte(l: Line, offset: nat) {
    && |l.tokens| in {5, 9, 13, 17}
    && l.tokens[0] % 0x4000_0000 <= offset < l.tokens[0] % 0x4000_0000 + |l.tokens| - 1
  }

  /** Or-ing in the base address sets bit 30 and leaves the bits below and above it. */
  lemma BasedSetsOneBit(address: word)
    ensures Based(address) % 0x4000_0000 == address % 0x4000_0000
    ensures Based(address) / 0x4000_0000 % 2 == 1 && Based(address) / 0x8000_0000 == address / 0x8000_0000
  {
  }

  /** A line of 4, 8, 12 or 16 bytes lies in the device if its address is whole words from the base or
      from 0, and its bytes end by 0x80000. */
  lemma InDeviceIff(l: Line)
    requires |l.tokens| <= 17
    ensures InDevice(l) <==>
      (|l.tokens| in {5, 9, 13, 17} ==>
         l.tokens[0] < 0x8000_0000 && l.tokens[0] % 4 == 0
         && l.tokens[0] % 0x4000_0000 + |l.tokens| - 1 <= 0x8_0000)
  {
  }

  lemma PlaceOfLine(l: Line)
    requires InDevice(l) && WordCount(l) > 0
    ensures l.tokens[0] % 0x4000_0000 == 4 * IndexOf(Based(l.tokens[0]))
  {
  }

  lemma WordLane(l: Line, j: nat, k: nat)
    requires j < WordCount(l) && k < 4
    ensures Lane(WordOf(l, j), k) == l.tokens[1 + 4 * j + k] % 0x100
  {
    PackLane([l.tokens[1 + 4 * j] % 0x100, l.tokens[2 + 4 * j] % 0x100,
              l.tokens[3 + 4 * j] % 0x100, l.tokens[4 + 4 * j] % 0x100], k);
  }

  lemma ByteIsLane(words: seq<word>, l: Line, j: nat, k: nat)
    requires |words| == FLASH_WORD_SIZE && InDevice(l) && j < WordCount(l) && k < 4
    ensures StoresByte(words, l, 4 * j + k) <==>
      Lane(words[IndexOf(Based(l.tokens[0])) + j], k) == Lane(WordOf(l, j), k)
  {
    PlaceOfLine(l);
    var index := IndexOf(Based(l.tokens[0]));
    var offset := l.tokens[0] % 0x4000_0000 + 4 * j + k;
    assert offset == 4 * (index + j) + k;
    assert offset / 4 == index + j && offset % 4 == k;
    WordLane(l, j, k);
    LaneIsDigit(words[index + j], k);
    hide Lane, WordOf;
  }

  /** A word of a line is stored if its four bytes are. */
  lemma WordFromBytes(words: seq<word>, l: Line, j: nat)
    requires |words| == FLASH_WORD_SIZE && InDevice(l) && j < WordCount(l)
    requires forall i :: 0 <= i < 4 * WordCount(l) ==> StoresByte(words, l, i)
    ensures words[IndexOf(Based(l.tokens[0])) + j] == WordOf(l, j)
  {
    hide StoresByte, WordOf;
    var w := words[IndexOf(Based(l.tokens[0])) + j];
    forall k | 0 <= k < 4 ensures Lane(w, k) == Lane(WordOf(l, j), k) {
      assert StoresByte(words, l, 4 * j + k);
      ByteIsLane(words, l, j, k);
    }
    LanesDetermine(w, WordOf(l, j));
  }

  /** Main result: a line of 4, 8, 12 or 16 bytes is stored if and only if each of its bytes is in its own
      place; other lines ask for nothing, and are invalid if and only if they are not blank. */
  lemma StoredBytes(words: seq<word>, l: Line)
    requires |words| == FLASH_WORD_SIZE && InDevice(l)
    ensures |l.tokens| in {5, 9, 13, 17} ==>
      (StoresLine(words, l) <==> forall i :: 0 <= i < |l.tokens| - 1 ==> StoresByte(words, l, i))
    ensures |l.tokens| !in {5, 9, 13, 17} ==> StoresLine(words, l)
    ensures IsInvalid(l) <==> !l.blank && |l.tokens| !in {5, 9, 13, 17}
  {
    hide StoresByte, WordOf, Lane;
    if StoresLine(words, l) {
      forall i | 0 <= i < 4 * WordCount(l) ensures StoresByte(words, l, i) {
        var index, j := IndexOf(Based(l.tokens[0])), i / 4;
        assert Names(l, index + j);
        ByteIsLane(words, l, j, i % 4);
      }
    }
    if |l.tokens| in {5, 9, 13, 17} && forall i :: 0 <= i < |l.tokens| - 1 ==> StoresByte(words, l, i) {
      forall a | 0 <= a < FLASH_WORD_SIZE && Names(l, a) ensures words[a] == Given(l, a) {
        WordFromBytes(words, l, a - IndexOf(Based(l.tokens[0])));
      }
    }
  }

  lemma GivesIffNames(l: Line, offset: nat)
    requires InDevice(l)
    ensures GivesByte(l, offset) <==> Names(l, offset / 4)
  {
    if WordCount(l) > 0 {
      PlaceOfLine(l);
    }
  }

  /** No line gives the byte at this offset. */
  predicate NoneGives(lines: seq<Line>, offset: nat) {
    forall l :: 0 <= l < |lines| ==> !GivesByte(lines[l], offset)
  }

  lemma NoneGivesIffUnnamed(lines: seq<Line>, offset: nat)
    requires WellPlaced(lines)
    ensures NoneGives(lines, offset) <==> !NamedIn(lines, offset / 4)
  {
    forall l | 0 <= l < |lines| ensures GivesByte(lines[l], offset) <==> Names(lines[l], offset / 4) {
      GivesIffNames(lines[l], offset);
    }
  }

  lemma ByteOfWord(words: seq<word>, a: nat, k: nat)
    requires a < |words| && k < 4
    ensures (4 * a + k) / 4 == a && ByteAt(words, 4 * a + k) == Lane(words[a], k)
  {
    assert (4 * a + k) / 4 == a && (4 * a + k) % 4 == k;
    LaneIsDigit(words[a], k);
  }

  lemma BlankLanes(k: nat)
    requires k < 4
    ensures Lane(BLANK_WORD, k) == 0xff
  {
  }

  lemma BlankFromBytes(words: seq<word>, lines: seq<Line>, a: nat)
    requires |words| == 0x2_0000 && WellPlaced(lines) && a < |words| && !NamedIn(lines, a)
    requires forall offset: nat :: offset < 0x8_0000 && NoneGives(lines, offset) ==> ByteAt(words, offset) == 0xff
    ensures words[a] == BLANK_WORD
  {
    hide NoneGives, NamedIn, ByteAt, Lane;
    forall k | 0 <= k < 4 ensures Lane(words[a], k) == Lane(BLANK_WORD, k) {
      ByteOfWord(words, a, k);
      NoneGivesIffUnnamed(lines, 4 * a + k);
      BlankLanes(k);
    }
    LanesDetermine(words[a], BLANK_WORD);
  }

  lemma ElsewhereBlank(words: seq<word>, lines: seq<Line>)
    requires |words| == FLASH_WORD_SIZE && WellPlaced(lines)
    ensures (forall a: nat :: a < FLASH_WORD_SIZE && !NamedIn(lines, a) ==> words[a] == BLANK_WORD) <==>
      (forall offset: nat :: offset < 0x8_0000 && NoneGives(lines, offset) ==> ByteAt(words, offset) == 0xff)
  {
    hide NoneGives, NamedIn, ByteAt, Lane;
    if forall a: nat :: a < FLASH_WORD_SIZE && !NamedIn(lines, a) ==> words[a] == BLANK_WORD {
      forall offset: nat | offset < 0x8_0000 && NoneGives(lines, offset) ensures ByteAt(words, offset) == 0xff {
        NoneGivesIffUnnamed(lines, offset);
        ByteOfWord(words, offset / 4, offset % 4);
        BlankLanes(offset % 4);
      }
    }
    if forall offset: nat :: offset < 0x8_0000 && NoneGives(lines, offset) ==> ByteAt(words, offset) == 0xff {
      forall a: nat | a < FLASH_WORD_SIZE && !NamedIn(lines, a) ensures words[a] == BLANK_WORD {
        BlankFromBytes(words, lines, a);
      }
    }
  }

  /** Every byte of every line is in its place. */
  ghost predicate StoresBytes(words: seq<word>, lines: seq<Line>) {
    forall l :: 0 <= l < |lines| && |lines[l].tokens| in {5, 9, 13, 17} ==>
      forall i :: 0 <= i < |lines[l].tokens| - 1 ==> StoresByte(words, lines[l], i)
  }

  /** Every byte that a line gives is in its place, and every other byte is 0xff. */
  ghost predicate HoldsBytes(words: seq<word>, lines: seq<Line>)
    requires |words| == 0x2_0000
  {
    && StoresBytes(words, lines)
    && forall offset: nat :: offset < 0x8_0000 && NoneGives(lines, offset) ==> ByteAt(words, offset) == 0xff
  }

  lemma StoresIffBytes(words: seq<word>, lines: seq<Line>)
    requires |words| == FLASH_WORD_SIZE && WellPlaced(lines)
    ensures Stores(words, lines) <==> StoresBytes(words, lines)
  {
    hide StoresByte, StoresLine, InDevice;
    forall l | 0 <= l < |lines| ensures StoresLine(words, lines[l]) <==>
      (|lines[l].tokens| in {5, 9, 13, 17} ==>
         forall i :: 0 <= i < |lines[l].tokens| - 1 ==> StoresByte(words, lines[l], i))
    {
      StoredBytes(words, lines[l]);
    }
  }

  /** Main result: byte by byte, contents are those that a file without conflicts describes if and only if
      each byte of each line is in its place and all others are 0xff. */
  lemma DescribedBytes(words: seq<word>, lines: seq<Line>)
    requires |words| == FLASH_WORD_SIZE && WellPlaced(lines)
    ensures HoldsBytes(words, lines) <==> words == ImageOf(lines) && !Conflicting(lines)
  {
    hide NoneGives, NamedIn, ByteAt, StoresBytes, Stores, Conflicting, ImageOf, WellPlaced;
    ElsewhereBlank(words, lines);
    StoresIffBytes(words, lines);
    if HoldsBytes(words, lines) {
      ImageIsUnique(words, lines);
      if Conflicting(lines) {
        ConflictIsNotStored(words, lines);
      }
    }
    if words == ImageOf(lines) && !Conflicting(lines) {
      StorableIffConsistent(lines);
      ImageIsBlankElsewhere(lines);
    }
  }
}
