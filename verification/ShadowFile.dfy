/** The file system tests that keep a file and a buffer in memory in step: random writes whose gaps
    are then filled, and overwriting at random places. */
module ShadowFile {
  type int8 = v: int | -128 <= v < 128

  /** The longest step back before a read. */
  const STEP_BACK := 100

  /** A char holding the low byte of an int. */
  function ToChar(v: int): (c: int8)
    ensures (v - c) % 256 == 0
  {
    (v + 128) % 256 - 128
  }

  /** The contents after a write at a position; a hole before it reads as zeros. */
  function Written(contents: seq<int8>, pos: nat, data: seq<int8>): seq<int8> {
    var padded := if pos > |contents| then contents + seq(pos - |contents|, _ => 0) else contents;
    padded[..pos] + data + if pos + |data| <= |padded| then padded[pos + |data|..] else []
  }

  /** What a test asks of its file. */
  datatype Request = SeekTo(offset: nat) | WriteOf(data: seq<int8>) | ReadOf(n: nat) | Reopen

  /** The result of a call, and for a read the bytes that are then in the buffer. */
  datatype Reply = Reply(rv: int, data: seq<int8>)

  /** One open file, and the requests so far with their replies. On an honest file writes succeed and a
      read stops only at the end of the file; any other may do anything to its contents, reply anything
      and read anything. */
  class File {
    const honest: bool
    var contents: seq<int8>
    var pos: nat
    ghost var requests: seq<Request>
    ghost var replies: seq<Reply>

    constructor (honest: bool)
      ensures this.honest == honest && contents == [] && pos == 0 && requests == [] && replies == []
    {
      this.honest := honest;
      contents := [];
      pos := 0;
      requests, replies := [], [];
    }

    method Seek(offset: nat) returns (rv: int)
      modifies this
      ensures requests == old(requests) + [SeekTo(offset)] && replies == old(replies) + [Reply(rv, [])]
      ensures honest ==> contents == old(contents) && pos == rv == offset
    {
      if honest {
        pos := offset;
        rv := offset;
      } else {
        pos, rv := *, *;
        contents := *;
      }
      requests, replies := requests + [SeekTo(offset)], replies + [Reply(rv, [])];
    }

    method Write(buffer: array<int8>, at: nat, n: nat) returns (rv: int)
      requires at + n <= buffer.Length
      modifies this
      ensures requests == old(requests) + [WriteOf(buffer[at..at + n])] && replies == old(replies) + [Reply(rv, [])]
      ensures honest ==>
        contents == (if n == 0 then old(contents) else Written(old(contents), old(pos), buffer[at..at + n]))
        && pos == old(pos) + n && rv == n
    {
      if honest {
        if n > 0 {
          contents := Written(contents, pos, buffer[at..at + n]);
        }
        pos := pos + n;
        rv := n;
      } else {
        pos, rv := *, *;
        contents := *;
      }
      requests, replies := requests + [WriteOf(buffer[at..at + n])], replies + [Reply(rv, [])];
    }

    method Read(buffer: array<int8>, n: nat) returns (rv: int)
      requires n <= buffer.Length
      modifies this, buffer
      ensures requests == old(requests) + [ReadOf(n)] && replies == old(replies) + [Reply(rv, buffer[..n])]
      ensures buffer[n..] == old(buffer[n..])
      ensures honest ==>
        contents == old(contents) && pos == old(pos) + rv
        && rv == (if old(pos) >= |contents| then 0 else if old(pos) + n <= |contents| then n else |contents| - old(pos))
        && (rv > 0 ==> buffer[..rv] == contents[old(pos)..old(pos) + rv])
        && buffer[rv..] == old(buffer[rv..])
    {
      if honest {
        var count := if pos >= |contents| then 0 else if pos + n <= |contents| then n else |contents| - pos;
        forall i | 0 <= i < count {
          buffer[i] := contents[pos + i];
        }
        rv := count;
        pos := pos + count;
      } else {
        for i := 0 to n
          invariant buffer[n..] == old(buffer[n..]) && requests == old(requests) && replies == old(replies)
        {
          buffer[i] := *;
        }
        pos, rv := *, *;
        contents := *;
      }
      requests, replies := requests + [ReadOf(n)], replies + [Reply(rv, buffer[..n])];
    }

    /** Close the file and open it again. */
    method CloseAndOpen()
      modifies this
      ensures requests == old(requests) + [Reopen] && replies == old(replies) + [Reply(0, [])]
      ensures honest ==> contents == old(contents) && pos == 0
    {
      pos := 0;
      if !honest {
        contents := *;
      }
      requests, replies := requests + [Reopen], replies + [Reply(0, [])];
    }
  }

  /** rand, and the numbers it has given so far. */
  class Dice {
    ghost var drawn: seq<nat>

    constructor ()
      ensures drawn == []
    {
      drawn := [];
    }

    method Rand() returns (r: nat)
      modifies this
      ensures drawn == old(drawn) + [r]
    {
      r := *;
      drawn := drawn + [r];
    }
  }

  /** A number below limit, from the low twenty bits of rand. */
  method Random(dice: Dice, limit: nat) returns (r: nat, ghost drawn: nat)
    requires limit > 0
    modifies dice
    ensures dice.drawn == old(dice.drawn) + [drawn]
    ensures r == drawn % 0x10_0000 % limit < limit
  {
    var x := dice.Rand();
    r := x % 0x10_0000 % limit;
    drawn := x;
  }

  /** Whether the bytes read are those of the buffer from pos on. */
  method Compare(cmp: array<int8>, orig: array<int8>, pos: nat, n: nat) returns (same: bool)
    requires n <= cmp.Length && pos + n <= orig.Length
    ensures same <==> cmp[..n] == orig[pos..pos + n]
  {
    for j := 0 to n
      invariant cmp[..j] == orig[pos..pos + j]
    {
      if cmp[j] != orig[pos + j] {
        assert cmp[..n][j] != orig[pos..pos + n][j];
        return false;
      }
    }
    return true;
  }

  // ---------------------------------------------------------------- agreement of file and buffer

  /** Byte k of the file is there and is byte k of the buffer. */
  predicate Agrees(contents: seq<int8>, orig: seq<int8>, k: nat) {
    k < |contents| && k < |orig| && contents[k] == orig[k]
  }

  /** Writing a slice of the buffer at its own place makes that slice agree and keeps what agreed. */
  lemma WriteKeepsStep(contents: seq<int8>, orig: seq<int8>, pos: nat, n: nat)
    requires n > 0 && pos + n <= |orig|
    ensures var after := Written(contents, pos, orig[pos..pos + n]);
      && |after| == (if pos + n > |contents| then pos + n else |contents|)
      && (forall k: nat :: pos <= k < pos + n ==> Agrees(after, orig, k))
      && (forall k: nat :: Agrees(contents, orig, k) ==> Agrees(after, orig, k))
  {
  }

  lemma AllAgree(contents: seq<int8>, orig: seq<int8>)
    requires |contents| <= |orig| && forall k: nat :: k < |orig| ==> Agrees(contents, orig, k)
    ensures contents == orig
  {
    if |orig| > 0 {
      assert Agrees(contents, orig, |orig| - 1);
    }
    forall k: nat | k < |contents| ensures contents[k] == orig[k] {
      assert Agrees(contents, orig, k);
    }
  }

  // ---------------------------------------------------------------- random writes, sequential read

  /** Mark the bytes of a block. */
  method MarkBlock(marks: array<int8>, pos: nat, block: nat)
    requires pos + block <= marks.Length
    modifies marks
    ensures forall k :: 0 <= k < marks.Length ==> marks[k] == if pos <= k < pos + block then 1 else old(marks[k])
  {
    for i := 0 to block
      invariant forall k :: 0 <= k < marks.Length ==> marks[k] == if pos <= k < pos + i then 1 else old(marks[k])
    {
      marks[pos + i] := 1;
    }
  }

  /** The places that random numbers give to blocks. */
  ghost function PlacesOf(draws: seq<nat>, limit: nat): (places: seq<nat>)
    requires limit > 0
    ensures |places| == |draws| && forall p :: p in places ==> p < limit
  {
    seq(|draws|, r requires 0 <= r < |draws| => draws[r] % 0x10_0000 % limit)
  }

  lemma NextPlace(draws: seq<nat>, limit: nat, drawn: nat)
    requires limit > 0
    ensures PlacesOf(draws + [drawn], limit) == PlacesOf(draws, limit) + [drawn % 0x10_0000 % limit]
  {
  }

  /** A seek and a write of a block of the buffer for each place. */
  ghost function BlockWrites(orig: seq<int8>, block: nat, places: seq<nat>): seq<Request>
    requires forall p :: p in places ==> p + block <= |orig|
  {
    if |places| == 0 then []
    else
      var last := |places| - 1;
      assert places[last] in places && forall p :: p in places[..last] ==> p in places;
      BlockWrites(orig, block, places[..last])
      + [SeekTo(places[last]), WriteOf(orig[places[last]..places[last] + block])]
  }

  lemma NextWrite(orig: seq<int8>, block: nat, places: seq<nat>, pos: nat)
    requires (forall p :: p in places ==> p + block <= |orig|) && pos + block <= |orig|
    ensures BlockWrites(orig, block, places + [pos])
         == BlockWrites(orig, block, places) + [SeekTo(pos), WriteOf(orig[pos..pos + block])]
  {
    assert (places + [pos])[..|places|] == places;
  }

  /** Byte k lies in one of the blocks. */
  ghost predicate InBlock(places: seq<nat>, block: nat, k: nat) {
    exists p :: p in places && p <= k < p + block
  }

  lemma NextInBlock(places: seq<nat>, block: nat, pos: nat, k: nat)
    ensures InBlock(places + [pos], block, k) <==> InBlock(places, block, k) || pos <= k < pos + block
  {
    if pos <= k < pos + block {
      assert pos in places + [pos];
    }
    if InBlock(places, block, k) {
      var p :| p in places && p <= k < p + block;
      assert p in places + [pos];
    }
  }

  /** Exactly the bytes of the blocks are marked. */
  ghost predicate Marked(marks: seq<int8>, places: seq<nat>, block: nat) {
    forall k: nat :: k < |marks| ==> (marks[k] != 0 <==> InBlock(places, block, k))
  }

  lemma NextMarked(before: seq<int8>, after: seq<int8>, places: seq<nat>, pos: nat, block: nat)
    requires Marked(before, places, block) && |after| == |before|
    requires forall k :: 0 <= k < |before| ==> after[k] == if pos <= k < pos + block then 1 else before[k]
    ensures Marked(after, places + [pos], block)
  {
    forall k: nat | k < |after| ensures after[k] != 0 <==> InBlock(places + [pos], block, k) {
      NextInBlock(places, block, pos, k);
    }
  }

  /** Every marked byte is in the file. */
  ghost predicate MarksAgree(contents: seq<int8>, orig: seq<int8>, marks: seq<int8>)
    requires |marks| == |orig|
  {
    forall k: nat :: k < |orig| ==> marks[k] == 0 || Agrees(contents, orig, k)
  }

  lemma NextAgree(contents: seq<int8>, orig: seq<int8>, before: seq<int8>, after: seq<int8>, pos: nat, block: nat)
    requires |before| == |after| == |orig| > pos + block && MarksAgree(contents, orig, before)
    requires forall k :: 0 <= k < |before| ==> after[k] == if pos <= k < pos + block then 1 else before[k]
    ensures var written := if block == 0 then contents else Written(contents, pos, orig[pos..pos + block]);
      MarksAgree(written, orig, after) && (|contents| < |orig| ==> |written| < |orig|)
  {
    if block > 0 {
      WriteKeepsStep(contents, orig, pos, block);
    }
  }

  lemma NothingWritten(orig: seq<int8>, marks: seq<int8>, block: nat)
    requires |orig| == |marks| > block && forall k :: 0 <= k < |marks| ==> marks[k] == 0
    ensures PlacesOf([], |orig| - block) == [] && BlockWrites(orig, block, []) == []
    ensures Marked(marks, [], block) && MarksAgree([], orig, marks)
  {
  }

  /** Write a slice of the buffer at its own place. */
  method WriteSlice(f: File, orig: array<int8>, pos: nat, n: nat)
    requires pos + n <= orig.Length
    modifies f
    ensures f.requests == old(f.requests) + [SeekTo(pos), WriteOf(orig[..][pos..pos + n])]
    ensures f.honest ==>
      f.contents == if n == 0 then old(f.contents) else Written(old(f.contents), pos, orig[..][pos..pos + n])
  {
    hide Written;
    var _ := f.Seek(pos);
    var _ := f.Write(orig, pos, n);
    assert orig[pos..pos + n] == orig[..][pos..pos + n];
  }

  /** Write random blocks of the buffer at their places and mark them. Exactly the bytes of the blocks
      are marked, every marked byte is in the file, and the last byte of the buffer is never marked: only
      the gap loop can write it. */
  method RandomWrites(f: File, dice: Dice, orig: array<int8>, marks: array<int8>, block: nat, rounds: nat)
    returns (ghost draws: seq<nat>)
    requires orig != marks && orig.Length == marks.Length > block
    requires f.contents == [] && f.requests == [] && forall k :: 0 <= k < marks.Length ==> marks[k] == 0
    modifies f, dice, marks
    ensures |draws| == rounds && dice.drawn == old(dice.drawn) + draws
    ensures var places := PlacesOf(draws, orig.Length - block);
      f.requests == BlockWrites(orig[..], block, places) && Marked(marks[..], places, block)
    ensures marks[orig.Length - 1] == 0
    ensures f.honest ==> |f.contents| < orig.Length && MarksAgree(f.contents, orig[..], marks[..])
  {
    hide Written, Marked, MarksAgree, BlockWrites, PlacesOf;
    var limit := orig.Length - block;
    draws := [];
    ghost var all := orig[..];
    NothingWritten(all, marks[..], block);
    for count := 0 to rounds
      invariant marks[orig.Length - 1] == 0
      invariant |draws| == count && dice.drawn == old(dice.drawn) + draws
      invariant f.requests == BlockWrites(all, block, PlacesOf(draws, limit))
      invariant Marked(marks[..], PlacesOf(draws, limit), block)
      invariant f.honest ==> |f.contents| < orig.Length && MarksAgree(f.contents, all, marks[..])
    {
      ghost var contents, was, places := f.contents, marks[..], PlacesOf(draws, limit);
      var pos;
      ghost var drawn;
      pos, drawn := Random(dice, limit);
      NextPlace(draws, limit, drawn);
      NextWrite(all, block, places, pos);
      assert (old(dice.drawn) + draws) + [drawn] == old(dice.drawn) + (draws + [drawn]);
      draws := draws + [drawn];
      WriteSlice(f, orig, pos, block);
      MarkBlock(marks, pos, block);
      NextMarked(was, marks[..], places, pos, block);
      if f.honest {
        NextAgree(contents, all, was, marks[..], pos, block);
      }
    }
  }

  /** The end of the run of unmarked bytes at i. */
  ghost function RunEnd(marks: seq<int8>, i: nat): (end: nat)
    requires i <= |marks|
    ensures i <= end <= |marks| && (end < |marks| ==> marks[end] != 0)
    ensures forall k :: i <= k < end ==> marks[k] == 0
    decreases |marks| - i
  {
    if i == |marks| || marks[i] != 0 then i else RunEnd(marks, i + 1)
  }

  /** A seek and a write for each unmarked byte below i: the rest of its run. */
  ghost function GapWrites(orig: seq<int8>, marks: seq<int8>, i: nat): seq<Request>
    requires |orig| == |marks| && i <= |marks|
  {
    if i == 0 then []
    else GapWrites(orig, marks, i - 1)
         + if marks[i - 1] != 0 then [] else [SeekTo(i - 1), WriteOf(orig[i - 1..RunEnd(marks, i - 1)])]
  }

  lemma {:induction false} RunEndIs(marks: seq<int8>, i: nat, end: nat)
    requires i <= end <= |marks| && (end < |marks| ==> marks[end] != 0)
    requires forall k :: i <= k < end ==> marks[k] == 0
    ensures RunEnd(marks, i) == end
    decreases end - i
  {
    if i < end {
      RunEndIs(marks, i + 1, end);
    }
  }

  /** Count the unmarked bytes from i on. */
  method CountGap(marks: array<int8>, i: nat) returns (count: nat)
    requires i <= marks.Length
    ensures i + count == RunEnd(marks[..], i)
  {
    count := 0;
    while i + count < marks.Length
      invariant i + count <= marks.Length
      invariant forall k :: i <= k < i + count ==> marks[k] == 0
    {
      if marks[i + count] != 0 {
        break;
      }
      count := count + 1;
    }
    RunEndIs(marks[..], i, i + count);
  }

  /** Every byte is in the file, but for those unmarked from i on. */
  ghost predicate FilledTo(contents: seq<int8>, orig: seq<int8>, marks: seq<int8>, i: nat)
    requires |marks| == |orig|
  {
    |contents| <= |orig| && forall k: nat :: k < |orig| ==> (k >= i && marks[k] == 0) || Agrees(contents, orig, k)
  }

  lemma FillNext(contents: seq<int8>, orig: seq<int8>, marks: seq<int8>, i: nat)
    requires |orig| == |marks| > i && FilledTo(contents, orig, marks, i)
    ensures var end := RunEnd(marks, i);
      FilledTo(if end == i then contents else Written(contents, i, orig[i..end]), orig, marks, i + 1)
  {
    var end := RunEnd(marks, i);
    if end > i {
      WriteKeepsStep(contents, orig, i, end - i);
      hide Written;
    }
  }

  lemma AllFilled(contents: seq<int8>, orig: seq<int8>, marks: seq<int8>)
    requires |marks| == |orig| && FilledTo(contents, orig, marks, |orig|)
    ensures contents == orig
  {
    AllAgree(contents, orig);
  }

  /** Write every run of unmarked bytes, from each of its bytes on, and no marked byte. */
  method FillGaps(f: File, orig: array<int8>, marks: array<int8>)
    requires orig != marks && orig.Length == marks.Length
    requires f.honest ==> |f.contents| <= orig.Length && MarksAgree(f.contents, orig[..], marks[..])
    modifies f
    ensures f.honest ==> f.contents == orig[..]
    ensures f.requests == old(f.requests) + GapWrites(orig[..], marks[..], orig.Length)
  {
    assert f.honest ==> FilledTo(f.contents, orig[..], marks[..], 0);
    hide FilledTo, MarksAgree, Written, RunEnd;
    ghost var all, flags := orig[..], marks[..];
    for i := 0 to orig.Length
      invariant f.honest ==> FilledTo(f.contents, all, flags, i)
      invariant f.requests == old(f.requests) + GapWrites(all, flags, i)
    {
      var count := CountGap(marks, i);
      if f.honest {
        FillNext(f.contents, all, flags, i);
      }
      if count > 0 {
        WriteSlice(f, orig, i, count);
      }
    }
    if f.honest {
      AllFilled(f.contents, all, flags);
    }
  }

  /** Random bytes into the buffer, and no marks. */
  method RandomBytes(dice: Dice, orig: array<int8>, marks: array<int8>) returns (ghost values: seq<nat>)
    requires orig != marks && orig.Length == marks.Length
    modifies dice, orig, marks
    ensures dice.drawn == old(dice.drawn) + values && |values| == orig.Length
    ensures forall i :: 0 <= i < orig.Length ==> orig[i] == ToChar(values[i]) && marks[i] == 0
  {
    values := [];
    for i := 0 to orig.Length
      invariant dice.drawn == old(dice.drawn) + values && |values| == i
      invariant forall k :: 0 <= k < i ==> orig[k] == ToChar(values[k]) && marks[k] == 0
    {
      var r := dice.Rand();
      values := values + [r];
      orig[i] := ToChar(r);
      marks[i] := 0;
    }
  }

  /** Open the file again, read all of it and compare. */
  method ReadWhole(f: File, orig: array<int8>, cmp: array<int8>) returns (ok: bool)
    requires orig != cmp && orig.Length == cmp.Length
    modifies f, cmp
    ensures f.requests == old(f.requests) + [Reopen, ReadOf(orig.Length)]
    ensures |f.replies| > 0 && (ok <==> f.replies[|f.replies| - 1] == Reply(orig.Length, orig[..]))
    ensures f.honest && old(f.contents) == orig[..] ==> ok && f.contents == orig[..]
  {
    f.CloseAndOpen();
    var rv := f.Read(cmp, orig.Length);
    ok := rv == orig.Length;
    assert cmp[..orig.Length] == cmp[..] && orig[0..orig.Length] == orig[..];
    var same := Compare(cmp, orig, 0, orig.Length);
    ok := ok && same;
  }

  /** Main result: on any file, the random numbers give the buffer and the places; the requests are the
      random blocks, the writes that fill the gaps between them, and one read of the whole file; and the
      test passes if and only if that read delivers the whole buffer. On an honest file, whatever the
      random numbers, it does. */
  method RandomWriteSequentialRead(honest: bool, dice: Dice, orig: array<int8>, cmp: array<int8>, block: nat,
                                   rounds: nat)
    returns (f: File, ok: bool, ghost values: seq<nat>, ghost draws: seq<nat>, ghost marks: seq<int8>)
    requires orig != cmp && orig.Length == cmp.Length > block
    modifies dice, orig, cmp
    ensures f.honest == honest && (honest ==> ok && f.contents == orig[..])
    ensures |f.replies| > 0 && (ok <==> f.replies[|f.replies| - 1] == Reply(orig.Length, orig[..]))
    ensures dice.drawn == old(dice.drawn) + values + draws && |values| == orig.Length && |draws| == rounds
    ensures forall i :: 0 <= i < orig.Length ==> orig[i] == ToChar(values[i])
    ensures var places := PlacesOf(draws, orig.Length - block);
      && |marks| == orig.Length && Marked(marks, places, block)
      && f.requests == BlockWrites(orig[..], block, places) + GapWrites(orig[..], marks, orig.Length)
                       + [Reopen, ReadOf(orig.Length)]
  {
    hide ToChar, PlacesOf, BlockWrites, Marked, MarksAgree, Written, GapWrites;
    f := new File(honest);
    values := RandomBytes(dice, orig, cmp);
    draws := RandomWrites(f, dice, orig, cmp, block, rounds);
    marks := cmp[..];
    FillGaps(f, orig, cmp);
    ok := ReadWhole(f, orig, cmp);
  }

  // ---------------------------------------------------------------- overwriting

  function Filled(n: nat, value: int8): (data: seq<int8>)
    ensures |data| == n && forall k :: 0 <= k < n ==> data[k] == value
  {
    seq(n, _ => value)
  }

  /** A buffer with n bytes from pos on replaced by one value. */
  function Stamped(orig: seq<int8>, pos: nat, n: nat, value: int8): seq<int8>
    requires pos + n <= |orig|
  {
    orig[..pos] + Filled(n, value) + orig[pos + n..]
  }

  lemma WritingStamps(orig: seq<int8>, pos: nat, n: nat, value: int8)
    requires pos + n <= |orig|
    ensures Written(orig, pos, Filled(n, value)) == Stamped(orig, pos, n, value)
  {
  }

  lemma StampNext(orig: seq<int8>, pos: nat, n: nat, value: int8)
    requires pos + n < |orig|
    ensures |Stamped(orig, pos, n, value)| == |orig|
    ensures Stamped(orig, pos, n, value)[pos + n := value] == Stamped(orig, pos, n + 1, value)
  {
  }

  method StampBlock(orig: array<int8>, cmp: array<int8>, pos: nat, block: nat, count: nat)
    requires orig != cmp && pos + block <= orig.Length == cmp.Length
    modifies orig, cmp
    ensures cmp[..block] == Filled(block, ToChar(count))
    ensures orig[..] == Stamped(old(orig[..]), pos, block, ToChar(count))
  {
    for j := 0 to block
      invariant cmp[..j] == Filled(j, ToChar(count))
      invariant orig[..] == Stamped(old(orig[..]), pos, j, ToChar(count))
    {
      hide Stamped, ToChar;
      StampNext(old(orig[..]), pos, j, ToChar(count));
      cmp[j] := ToChar(count);
      orig[pos + j] := ToChar(count);
    }
  }

  /** The place up to a hundred bytes before a block. */
  function StepBack(at: nat): (back: nat)
    ensures back == if at < 100 then 0 else at - 100
  {
    if at - STEP_BACK < 0 then 0 else at - STEP_BACK
  }

  /** A test that stops at the first reply it does not expect: ok says whether there was none. */
  ghost predicate Followed(requests: seq<Request>, replies: seq<Reply>, plan: seq<Request>, expected: seq<Reply>,
                           ok: bool)
  {
    && |plan| == |expected| && |requests| == |replies| <= |plan| && requests == plan[..|requests|]
    && if ok then |replies| == |plan| && replies == expected
       else
         |replies| > 0 && replies[..|replies| - 1] == expected[..|replies| - 1]
         && replies[|replies| - 1] != expected[|replies| - 1]
  }

  /** So far every reply was the expected one. */
  ghost predicate SoFar(requests: seq<Request>, replies: seq<Reply>, plan: seq<Request>, expected: seq<Reply>) {
    && |plan| == |expected| && |requests| == |replies| <= |plan|
    && requests == plan[..|requests|] && replies == expected[..|replies|]
  }

  lemma NoReplyYet(plan: seq<Request>, expected: seq<Reply>)
    requires |plan| == |expected|
    ensures SoFar([], [], plan, expected)
  {
  }

  lemma NextReply(requests: seq<Request>, replies: seq<Reply>, plan: seq<Request>, expected: seq<Reply>, r: Reply)
    requires SoFar(requests, replies, plan, expected) && |requests| < |plan|
    ensures var k := |requests|; var q, p := requests + [plan[k]], replies + [r];
      if r != expected[k] then Followed(q, p, plan, expected, false)
      else SoFar(q, p, plan, expected) && (k + 1 == |plan| ==> Followed(q, p, plan, expected, true))
  {
    var k := |requests|;
    assert plan[..k + 1] == plan[..k] + [plan[k]] && expected[..k + 1] == expected[..k] + [expected[k]];
    assert (replies + [r])[..k] == replies;
  }

  lemma FollowedOn(q: seq<Request>, p: seq<Reply>, plan: seq<Request>, expected: seq<Reply>, q': seq<Request>,
                   p': seq<Reply>, plan': seq<Request>, expected': seq<Reply>, ok: bool)
    requires Followed(q, p, plan, expected, true) && Followed(q', p', plan', expected', ok)
    ensures Followed(q + q', p + p', plan + plan', expected + expected', ok)
  {
    assert (plan + plan')[..|q + q'|] == q + q';
    if !ok {
      var n := |p + p'| - 1;
      assert (p + p')[..n] == p + p'[..|p'| - 1] == (expected + expected')[..n];
    }
  }

  lemma StoppedShort(q: seq<Request>, p: seq<Reply>, plan: seq<Request>, expected: seq<Reply>, plan': seq<Request>,
                     expected': seq<Reply>)
    requires Followed(q, p, plan, expected, false) && |plan'| == |expected'|
    ensures Followed(q, p, plan + plan', expected + expected', false)
  {
    assert (plan + plan')[..|q|] == plan[..|q|];
    assert (expected + expected')[..|p| - 1] == expected[..|p| - 1];
  }

  /** The place that a random number gives. */
  function PlaceOf(drawn: nat, limit: nat): (at: nat)
    requires limit > 0
    ensures at < limit
  {
    drawn % 0x10_0000 % limit
  }

  /** The buffer after the rounds with these random numbers: all zeros, and then for each number one block
      stamped with the number of the round. */
  ghost function BufferAfter(size: nat, block: nat, draws: seq<nat>): (buffer: seq<int8>)
    requires block < size
    ensures |buffer| == size
  {
    if |draws| == 0 then Filled(size, 0)
    else
      var n := |draws| - 1;
      Stamped(BufferAfter(size, block, draws[..n]), PlaceOf(draws[n], size - block), block, ToChar(n))
  }

  /** What a round asks of the file: write a block of its number, and read one up to 100 bytes before it. */
  ghost function RoundPlan(at: nat, block: nat, n: nat): seq<Request> {
    [SeekTo(at), WriteOf(Filled(block, ToChar(n)))] + [SeekTo(StepBack(at)), ReadOf(block)]
  }

  /** What a round expects, with this buffer at its end. */
  ghost function RoundReplies(at: nat, block: nat, buffer: seq<int8>): seq<Reply>
    requires at + block <= |buffer|
  {
    [Reply(at, []), Reply(block, [])]
    + [Reply(StepBack(at), []), Reply(block, buffer[StepBack(at)..StepBack(at) + block])]
  }

  lemma RoundStops(q: seq<Request>, p: seq<Reply>, at: nat, block: nat, n: nat, buffer: seq<int8>)
    requires at + block <= |buffer|
    requires Followed(q, p, [SeekTo(at), WriteOf(Filled(block, ToChar(n)))], [Reply(at, []), Reply(block, [])], false)
    ensures Followed(q, p, RoundPlan(at, block, n), RoundReplies(at, block, buffer), false)
  {
    hide Followed;
    StoppedShort(q, p, [SeekTo(at), WriteOf(Filled(block, ToChar(n)))], [Reply(at, []), Reply(block, [])],
                 [SeekTo(StepBack(at)), ReadOf(block)],
                 [Reply(StepBack(at), []), Reply(block, buffer[StepBack(at)..StepBack(at) + block])]);
  }

  lemma RoundGoesOn(q: seq<Request>, p: seq<Reply>, q': seq<Request>, p': seq<Reply>, at: nat, block: nat, n: nat,
                    buffer: seq<int8>, ok: bool)
    requires at + block <= |buffer|
    requires Followed(q, p, [SeekTo(at), WriteOf(Filled(block, ToChar(n)))], [Reply(at, []), Reply(block, [])], true)
    requires Followed(q', p', [SeekTo(StepBack(at)), ReadOf(block)],
                      [Reply(StepBack(at), []), Reply(block, buffer[StepBack(at)..StepBack(at) + block])], ok)
    ensures Followed(q + q', p + p', RoundPlan(at, block, n), RoundReplies(at, block, buffer), ok)
  {
    hide Followed;
    FollowedOn(q, p, [SeekTo(at), WriteOf(Filled(block, ToChar(n)))], [Reply(at, []), Reply(block, [])], q', p',
               [SeekTo(StepBack(at)), ReadOf(block)],
               [Reply(StepBack(at), []), Reply(block, buffer[StepBack(at)..StepBack(at) + block])], ok);
  }

  ghost function Plan(size: nat, block: nat, draws: seq<nat>): seq<Request>
    requires block < size
  {
    if |draws| == 0 then [SeekTo(0), WriteOf(Filled(size, 0))]
    else
      var n := |draws| - 1;
      Plan(size, block, draws[..n]) + RoundPlan(PlaceOf(draws[n], size - block), block, n)
  }

  ghost function Replies(size: nat, block: nat, draws: seq<nat>): seq<Reply>
    requires block < size
  {
    if |draws| == 0 then [Reply(0, []), Reply(size, [])]
    else
      var n := |draws| - 1;
      Replies(size, block, draws[..n])
      + RoundReplies(PlaceOf(draws[n], size - block), block, BufferAfter(size, block, draws))
  }

  lemma NextRound(size: nat, block: nat, draws: seq<nat>, drawn: nat)
    requires block < size
    ensures var at, buffer := PlaceOf(drawn, size - block), BufferAfter(size, block, draws + [drawn]);
      && buffer == Stamped(BufferAfter(size, block, draws), at, block, ToChar(|draws|))
      && Plan(size, block, draws + [drawn]) == Plan(size, block, draws) + RoundPlan(at, block, |draws|)
      && Replies(size, block, draws + [drawn]) == Replies(size, block, draws) + RoundReplies(at, block, buffer)
  {
    assert (draws + [drawn])[..|draws|] == draws;
  }

  /** The buffers after each of the rounds. */
  ghost function BuffersOf(size: nat, block: nat, draws: seq<nat>): seq<seq<int8>>
    requires block < size
  {
    if |draws| == 0 then [] else BuffersOf(size, block, draws[..|draws| - 1]) + [BufferAfter(size, block, draws)]
  }

  lemma NextBuffer(size: nat, block: nat, draws: seq<nat>, drawn: nat)
    requires block < size
    ensures BuffersOf(size, block, draws + [drawn])
         == BuffersOf(size, block, draws) + [BufferAfter(size, block, draws + [drawn])]
  {
    assert (draws + [drawn])[..|draws|] == draws;
  }

  lemma BeforeRounds(size: nat, block: nat)
    requires block < size
    ensures BufferAfter(size, block, []) == Filled(size, 0) && BuffersOf(size, block, []) == []
    ensures Plan(size, block, []) == [SeekTo(0), WriteOf(Filled(size, 0))]
    ensures Replies(size, block, []) == [Reply(0, []), Reply(size, [])]
  {
  }

  lemma WholeWrite(data: seq<int8>)
    ensures Written([], 0, data) == data
  {
  }

  /** Seek and write the first n bytes of a buffer, checking both results. */
  method WriteAt(f: File, buffer: array<int8>, at: nat, n: nat)
    returns (ok: bool, ghost asked: seq<Request>, ghost got: seq<Reply>)
    requires n <= buffer.Length
    modifies f
    ensures f.requests == old(f.requests) + asked && f.replies == old(f.replies) + got
    ensures Followed(asked, got, [SeekTo(at), WriteOf(buffer[..n])], [Reply(at, []), Reply(n, [])], ok)
    ensures f.honest ==>
      ok && f.contents == if n == 0 then old(f.contents) else Written(old(f.contents), at, buffer[..n])
  {
    hide Written, Followed, SoFar;
    ghost var plan, expected := [SeekTo(at), WriteOf(buffer[..n])], [Reply(at, []), Reply(n, [])];
    NoReplyYet(plan, expected);
    assert buffer[0..n] == buffer[..n];
    var rv := f.Seek(at);
    NextReply([], [], plan, expected, Reply(rv, []));
    asked, got := [] + [plan[0]], [] + [Reply(rv, [])];
    if rv != at {
      return false, asked, got;
    }
    rv := f.Write(buffer, 0, n);
    NextReply(asked, got, plan, expected, Reply(rv, []));
    asked, got := asked + [plan[1]], got + [Reply(rv, [])];
    ok := rv == n;
  }

  /** Seek and read n bytes, checking both results, and compare them with the buffer. */
  method CheckAt(f: File, orig: array<int8>, cmp: array<int8>, at: nat, n: nat)
    returns (ok: bool, ghost asked: seq<Request>, ghost got: seq<Reply>)
    requires orig != cmp && at + n <= orig.Length == cmp.Length
    modifies f, cmp
    ensures f.requests == old(f.requests) + asked && f.replies == old(f.replies) + got
    ensures Followed(asked, got, [SeekTo(at), ReadOf(n)], [Reply(at, []), Reply(n, orig[..][at..at + n])], ok)
    ensures f.honest && old(f.contents) == orig[..] ==> ok && f.contents == orig[..]
  {
    hide Followed, SoFar;
    ghost var plan, expected := [SeekTo(at), ReadOf(n)], [Reply(at, []), Reply(n, orig[..][at..at + n])];
    NoReplyYet(plan, expected);
    assert orig[at..at + n] == orig[..][at..at + n];
    var rv := f.Seek(at);
    NextReply([], [], plan, expected, Reply(rv, []));
    asked, got := [] + [plan[0]], [] + [Reply(rv, [])];
    if rv != at {
      return false, asked, got;
    }
    rv := f.Read(cmp, n);
    NextReply(asked, got, plan, expected, Reply(rv, cmp[..n]));
    asked, got := asked + [plan[1]], got + [Reply(rv, cmp[..n])];
    if rv != n {
      return false, asked, got;
    }
    ok := Compare(cmp, orig, at, n);
  }

  /** One round: fill a random block of buffer and file with count, step back, read, compare; give up at
      the first result that is not as it should be. */
  method OverwriteRound(f: File, dice: Dice, orig: array<int8>, cmp: array<int8>, block: nat, count: nat)
    returns (ok: bool, ghost drawn: nat, ghost asked: seq<Request>, ghost got: seq<Reply>)
    requires orig != cmp && orig.Length == cmp.Length > block > 0
    modifies f, dice, orig, cmp
    ensures dice.drawn == old(dice.drawn) + [drawn]
    ensures f.requests == old(f.requests) + asked && f.replies == old(f.replies) + got
    ensures var at := PlaceOf(drawn, orig.Length - block);
      && orig[..] == Stamped(old(orig[..]), at, block, ToChar(count))
      && Followed(asked, got, RoundPlan(at, block, count), RoundReplies(at, block, orig[..]), ok)
    ensures f.honest && old(f.contents == orig[..]) ==> ok && f.contents == orig[..]
  {
    hide ToChar, Written, Stamped, Filled, StepBack, Followed, RoundPlan, RoundReplies;
    var pos;
    pos, drawn := Random(dice, orig.Length - block);
    StampBlock(orig, cmp, pos, block, count);
    WritingStamps(old(orig[..]), pos, block, ToChar(count));
    ok, asked, got := WriteAt(f, cmp, pos, block);
    if !ok {
      RoundStops(asked, got, pos, block, count, orig[..]);
      return;
    }
    ghost var q, p := asked, got;
    var back := StepBack(pos);
    ok, asked, got := CheckAt(f, orig, cmp, back, block);
    RoundGoesOn(q, p, asked, got, pos, block, count, orig[..], ok);
    asked, got := q + asked, p + got;
  }

  /** Main result: on any file, the test asks what its random numbers call for, up to the first reply that
      is not the expected one, and passes if and only if there is none: every read delivered the bytes of
      the buffer. On an honest file it passes, and the file is the buffer after every round and at the end. */
  method OverwriteTest(honest: bool, dice: Dice, orig: array<int8>, cmp: array<int8>, block: nat, rounds: nat)
    returns (f: File, ok: bool, ghost draws: seq<nat>, ghost files: seq<seq<int8>>)
    requires orig != cmp && orig.Length == cmp.Length > block > 0
    modifies dice, orig, cmp
    ensures f.honest == honest && dice.drawn == old(dice.drawn) + draws
    ensures orig[..] == BufferAfter(orig.Length, block, draws)
    ensures Followed(f.requests, f.replies,
                     Plan(orig.Length, block, draws) + [SeekTo(0), ReadOf(orig.Length)],
                     Replies(orig.Length, block, draws) + [Reply(0, []), Reply(orig.Length, orig[..])], ok)
    ensures ok ==> |draws| == rounds
    ensures honest ==> ok && f.contents == orig[..] && files == BuffersOf(orig.Length, block, draws)
  {
    hide BufferAfter, BuffersOf, Stamped, ToChar, StepBack, Plan, Replies, Followed, RoundPlan, RoundReplies;
    var size := orig.Length;
    f := new File(honest);
    draws, files := [], [];
    for i := 0 to orig.Length
      invariant f.contents == [] && f.requests == [] && f.replies == [] && dice.drawn == old(dice.drawn)
      invariant forall k :: 0 <= k < i ==> orig[k] == 0
    {
      orig[i] := 0;
    }
    assert orig[..size] == orig[..] == Filled(size, 0);
    hide Filled;
    BeforeRounds(size, block);
    WholeWrite(orig[..]);
    hide Written;
    ghost var asked, got;
    ok, asked, got := WriteAt(f, orig, 0, size);
    assert f.requests == asked && f.replies == got && orig[..size] == orig[..] == BufferAfter(size, block, draws);
    if !ok {
      StoppedShort(f.requests, f.replies, Plan(size, block, draws), Replies(size, block, draws),
                   [SeekTo(0), ReadOf(size)], [Reply(0, []), Reply(size, orig[..])]);
      return;
    }
    for count := 0 to rounds
      invariant fresh(f) && f.honest == honest && |draws| == count && dice.drawn == old(dice.drawn) + draws
      invariant orig[..] == BufferAfter(size, block, draws)
      invariant Followed(f.requests, f.replies, Plan(size, block, draws), Replies(size, block, draws), true)
      invariant honest ==> f.contents == orig[..] && files == BuffersOf(size, block, draws)
    {
      ghost var q, p := f.requests, f.replies;
      ghost var drawn;
      ok, drawn, asked, got := OverwriteRound(f, dice, orig, cmp, block, count);
      NextRound(size, block, draws, drawn);
      NextBuffer(size, block, draws, drawn);
      ghost var at := PlaceOf(drawn, size - block);
      FollowedOn(q, p, Plan(size, block, draws), Replies(size, block, draws), asked, got,
                 RoundPlan(at, block, count), RoundReplies(at, block, orig[..]), ok);
      assert (old(dice.drawn) + draws) + [drawn] == old(dice.drawn) + (draws + [drawn]);
      draws, files := draws + [drawn], files + [f.contents];
      if !ok {
        StoppedShort(f.requests, f.replies, Plan(size, block, draws), Replies(size, block, draws),
                     [SeekTo(0), ReadOf(size)], [Reply(0, []), Reply(size, orig[..])]);
        return;
      }
    }
    ghost var q, p := f.requests, f.replies;
    ok, asked, got := CheckAt(f, orig, cmp, 0, size);
    assert orig[..][0..size] == orig[..];
    FollowedOn(q, p, Plan(size, block, draws), Replies(size, block, draws), asked, got,
               [SeekTo(0), ReadOf(size)], [Reply(0, []), Reply(size, orig[..])], ok);
  }
}
