/** Bytes, 32-bit words and their byte lanes. */
module Words {
  type byte = b: int | 0 <= b < 256

  /** A 32-bit word by its bit pattern. */
  type word = v: int | 0 <= v < 0x1_0000_0000

  /** Byte k of a word, least significant first. */
  function Lane(v: word, k: nat): byte
    requires k < 4
  {
    if k == 0 then v % 0x100
    else if k == 1 then v / 0x100 % 0x100
    else if k == 2 then v / 0x1_0000 % 0x100
    else v / 0x100_0000
  }

  /** A lane is a digit of the word in base 256. */
  lemma LaneIsDigit(v: word, k: nat)
    requires k < 4
    ensures Lane(v, k) == v / [1, 0x100, 0x1_0000, 0x100_0000][k] % 0x100
  {
  }

  /** The word whose bytes are b, least significant first. */
  function Pack(b: seq<byte>): word
    requires |b| == 4
  {
    b[0] as int + 0x100 * (b[1] as int) + 0x1_0000 * (b[2] as int) + 0x100_0000 * (b[3] as int)
  }

  lemma PackLane(b: seq<byte>, k: nat)
    requires |b| == 4 && k < 4
    ensures Lane(Pack(b), k) == b[k]
  {
    assert Pack(b) / 0x100 == b[1] as int + 0x100 * (b[2] as int) + 0x1_0000 * (b[3] as int);
    assert Pack(b) / 0x1_0000 == b[2] as int + 0x100 * (b[3] as int);
  }

  lemma LaneSum(v: word)
    ensures v == Lane(v, 0) as int + 0x100 * (Lane(v, 1) as int) + 0x1_0000 * (Lane(v, 2) as int)
                 + 0x100_0000 * (Lane(v, 3) as int)
  {
    var v1, v2 := v / 0x100, v / 0x1_0000;
    assert v1 / 0x100 == v2 && v2 / 0x100 == v / 0x100_0000;
    assert v == 0x100 * v1 + v % 0x100;
    assert v1 == 0x100 * v2 + v1 % 0x100;
  }

  lemma LanesDetermine(v: word, w: word)
    requires forall k :: 0 <= k < 4 ==> Lane(v, k) == Lane(w, k)
    ensures v == w
  {
    LaneSum(v);
    LaneSum(w);
  }

  /** The word with the same byte in every lane. */
  function Uniform(b: byte): word {
    Pack([b, b, b, b])
  }

  lemma UniformLane(b: byte, k: nat)
    requires k < 4
    ensures Lane(Uniform(b), k) == b
  {
    PackLane([b, b, b, b], k);
  }

  /** Bit i of a byte. */
  function Bit(b: byte, i: nat): (bit: int)
    requires i < 8
    ensures bit == 0 || bit == 1
  {
    if i == 0 then b % 2 else Bit(b / 2, i - 1)
  }

  /** Bytes below 2^n are determined by their n low bits; here n is 8 and width counts down. */
  lemma {:induction false} LowBitsDetermine(a: byte, b: byte, width: nat)
    requires width <= 8 && a < [1, 2, 4, 8, 16, 32, 64, 128, 256][width]
    requires b < [1, 2, 4, 8, 16, 32, 64, 128, 256][width]
    requires forall i :: 0 <= i < width ==> Bit(a, i) == Bit(b, i)
    ensures a == b
    decreases width
  {
    if width > 0 {
      assert Bit(a, 0) == Bit(b, 0);
      forall i | 0 <= i < width - 1 ensures Bit(a / 2, i) == Bit(b / 2, i) {
        assert Bit(a, i + 1) == Bit(b, i + 1);
      }
      LowBitsDetermine(a / 2, b / 2, width - 1);
    }
  }

  lemma BitsDetermine(a: byte, b: byte)
    requires forall i :: 0 <= i < 8 ==> Bit(a, i) == Bit(b, i)
    ensures a == b
  {
    LowBitsDetermine(a, b, 8);
  }

  lemma {:induction false} OnesBit(b: byte, i: nat, width: nat)
    requires i < width <= 8 && b == [0, 1, 3, 7, 15, 31, 63, 127, 255][width]
    ensures Bit(b, i) == 1
  {
    if i > 0 {
      OnesBit(b / 2, i - 1, width - 1);
    }
  }

  lemma {:induction false} ZeroBit(i: nat)
    requires i < 8
    ensures Bit(0, i) == 0
  {
    if i > 0 {
      ZeroBit(i - 1);
    }
  }

  /** All eight bits of 0xff are 1, and of 0 are 0. */
  lemma {:induction false} ExtremeBits(i: nat)
    requires i < 8
    ensures Bit(0xff, i) == 1 && Bit(0, i) == 0
  {
    assert Bit(0xff, i) == 1 by {
      OnesBit(0xff, i, 8);
    }
    ZeroBit(i);
  }

  /** The bits that are 1 in both bytes. */
  function And(a: byte, b: byte): (c: byte)
    ensures c <= a
  {
    if a == 0 then 0 else 2 * And(a / 2, b / 2) + if a % 2 == 1 && b % 2 == 1 then 1 else 0
  }

  lemma {:induction false} AndBit(a: byte, b: byte, i: nat)
    requires i < 8
    ensures Bit(And(a, b), i) == if Bit(a, i) == 1 && Bit(b, i) == 1 then 1 else 0
  {
    if a == 0 {
      ZeroBit(i);
    } else if i > 0 {
      assert And(a, b) / 2 == And(a / 2, b / 2);
      AndBit(a / 2, b / 2, i - 1);
    }
  }
}
