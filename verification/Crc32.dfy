/**
 The table-driven CRC-32 of the archive writer, against the bit-serial register of RFC 1952
 section 8 (reflected polynomial 0xEDB88320, all-ones start and final inversion).

 A JavaScript int32 is its 32-bit pattern here, so `>>>` is the unsigned shift of `bv32` and the
 closing `>>> 0` only reinterprets the sign.
 */
module Crc32 {
  import opened Bytes

  type Word = bv32

  const POLYNOMIAL: Word := 0xEDB88320
  const ONES: Word := 0xFFFFFFFF

  function Xor(a: Word, b: Word): Word { a ^ b }

  function Half(v: Word): Word { v >> 1 }

  predicate Odd(v: Word) { v & 1 == 1 }

  function Low(v: Word): Word { v & 0xFF }

  function DropByte(v: Word): Word { v >> 8 }

  function Wide(b: Byte): Word { b as bv32 }

  // ---------------------------------------------------------------- the bit-serial definition

  /** Clock one message bit into the division register. */
  function ClockBit(reg: Word, bit: bool): Word {
    if Odd(reg) != bit then Xor(POLYNOMIAL, Half(reg)) else Half(reg)
  }

  /** Clock in the low `n` bits of `b`, least significant first, the order in which bits are sent. */
  function ClockBits(reg: Word, b: Byte, n: nat): Word
    decreases n
  {
    if n == 0 then reg else ClockBits(ClockBit(reg, b & 1 == 1), b >> 1, n - 1)
  }

  /** The register after a whole message. */
  function Register(start: Word, message: ByteString): Word {
    if |message| == 0 then start
    else ClockBits(Register(start, message[..|message| - 1]), message[|message| - 1], 8)
  }

  /** CRC-32 as the standard defines it, one bit at a time. */
  function Crc(message: ByteString): Word {
    Xor(Register(ONES, message), ONES)
  }

  // ---------------------------------------------------------------- algebra of the register

  lemma XorAssociates(a: Word, b: Word, c: Word)
    ensures Xor(Xor(a, b), c) == Xor(a, Xor(b, c))
  {
  }

  lemma XorCommutes(a: Word, b: Word)
    ensures Xor(a, b) == Xor(b, a)
  {
  }

  lemma XorCancels(a: Word, b: Word)
    ensures Xor(Xor(a, b), b) == a
  {
  }

  /** Two pairs may be paired the other way round. */
  lemma XorInterchanges(a: Word, b: Word, c: Word, d: Word)
    ensures Xor(Xor(a, b), Xor(c, d)) == Xor(Xor(a, c), Xor(b, d))
  {
    hide Xor;
    calc {
      Xor(Xor(a, b), Xor(c, d));
      { XorAssociates(a, b, Xor(c, d)); XorAssociates(b, c, d); XorCommutes(b, c); }
      Xor(a, Xor(Xor(c, b), d));
      { XorAssociates(c, b, d); XorAssociates(a, c, Xor(b, d)); }
      Xor(Xor(a, c), Xor(b, d));
    }
  }

  lemma HalfOfXor(a: Word, b: Word)
    ensures Half(Xor(a, b)) == Xor(Half(a), Half(b))
  {
  }

  lemma OddOfXor(a: Word, b: Word)
    ensures Odd(Xor(a, b)) == (Odd(a) != Odd(b))
  {
    assert a & 1 == 0 || a & 1 == 1;
    assert b & 1 == 0 || b & 1 == 1;
    assert (a ^ b) & 1 == (a & 1) ^ (b & 1);
  }

  /** One turn of the inner loop that fills the table. */
  function Step(v: Word): Word {
    if Odd(v) then Xor(POLYNOMIAL, Half(v)) else Half(v)
  }

  function Steps(v: Word, n: nat): Word {
    if n == 0 then v else Step(Steps(v, n - 1))
  }

  lemma StepIsLinear(a: Word, b: Word)
    ensures Step(Xor(a, b)) == Xor(Step(a), Step(b))
  {
    hide Xor, Half, Odd;
    HalfOfXor(a, b);
    OddOfXor(a, b);
    var p, x, y := POLYNOMIAL, Half(a), Half(b);
    XorAssociates(p, x, y);
    XorAssociates(x, p, y);
    XorCommutes(x, p);
    XorCommutes(Xor(p, x), Xor(p, y));
    XorCommutes(p, y);
    XorAssociates(y, p, Xor(p, x));
    XorCommutes(p, Xor(p, x));
    XorCommutes(p, x);
    XorCancels(x, p);
    XorCommutes(x, y);
  }

  lemma {:induction false} StepsAreLinear(a: Word, b: Word, n: nat)
    ensures Steps(Xor(a, b), n) == Xor(Steps(a, n), Steps(b, n))
  {
    hide Xor, Step;
    if n > 0 {
      StepsAreLinear(a, b, n - 1);
      StepIsLinear(Steps(a, n - 1), Steps(b, n - 1));
    }
  }

  /** Clocking in a bit is a step on the register with that bit folded into its low end. */
  lemma ClockBitFoldsBit(s: Word, w: Word)
    ensures ClockBit(Xor(s, w), Odd(w)) == Xor(Step(s), Half(w))
  {
    hide Xor, Half, Odd;
    HalfOfXor(s, w);
    OddOfXor(s, w);
    XorAssociates(POLYNOMIAL, Half(s), Half(w));
  }

  lemma {:induction false} StepsFromTheFront(v: Word, n: nat)
    ensures Steps(v, n + 1) == Steps(Step(v), n)
  {
    hide Step;
    if n > 0 {
      StepsFromTheFront(v, n - 1);
    }
  }

  /** What is left of `b` once its first `n` bits have been sent. */
  function Unsent(b: Byte, n: nat): Byte
    decreases n
  {
    if n == 0 then b else Unsent(b >> 1, n - 1)
  }

  lemma WideBits(b: Byte)
    ensures (b & 1 == 1) == Odd(Wide(b))
    ensures Wide(b >> 1) == Half(Wide(b))
  {
  }

  lemma NothingUnsent(b: Byte)
    ensures Wide(Unsent(b, 8)) == 0
  {
    assert Unsent(b, 8) == Unsent(b >> 1, 7);
    assert Unsent(b >> 1, 7) == Unsent(b >> 2, 6);
    assert Unsent(b >> 2, 6) == Unsent(b >> 3, 5);
    assert Unsent(b >> 3, 5) == Unsent(b >> 4, 4);
    assert Unsent(b >> 4, 4) == Unsent(b >> 5, 3);
    assert Unsent(b >> 5, 3) == Unsent(b >> 6, 2);
    assert Unsent(b >> 6, 2) == Unsent(b >> 7, 1) == Unsent(0, 0);
  }

  lemma {:induction false} ClockBitsIsSteps(reg: Word, b: Byte, n: nat)
    ensures ClockBits(reg, b, n) == Xor(Steps(Xor(reg, Wide(b)), n), Wide(Unsent(b, n)))
    decreases n
  {
    hide Xor, Step, ClockBit, Wide, Half, Odd;
    var s := Xor(reg, Wide(b));
    XorCancels(reg, Wide(b));
    if n > 0 {
      WideBits(b);
      ClockBitFoldsBit(s, Wide(b));
      ClockBitsIsSteps(ClockBit(reg, b & 1 == 1), b >> 1, n - 1);
      XorCancels(Step(s), Half(Wide(b)));
      StepsFromTheFront(s, n - 1);
    }
  }

  lemma XorZero(a: Word)
    ensures Xor(a, 0) == a
    ensures Xor(a, a) == 0
  {
  }

  lemma ByteIsEightSteps(reg: Word, b: Byte)
    ensures ClockBits(reg, b, 8) == Steps(Xor(reg, Wide(b)), 8)
  {
    hide *;
    ClockBitsIsSteps(reg, b, 8);
    NothingUnsent(b);
    XorZero(Steps(Xor(reg, Wide(b)), 8));
  }

  // ---------------------------------------------------------------- the table identity

  /** Eight steps only shift a register whose low byte is clear. */
  lemma StepsShift(v: Word)
    requires v & 0xFF == 0
    ensures Steps(v, 8) == v >> 8
  {
    assert v & 1 == 0 && Steps(v, 1) == v >> 1;
    assert (v >> 1) & 1 == 0 && Steps(v, 2) == v >> 2;
    assert (v >> 2) & 1 == 0 && Steps(v, 3) == v >> 3;
    assert (v >> 3) & 1 == 0 && Steps(v, 4) == v >> 4;
    assert (v >> 4) & 1 == 0 && Steps(v, 5) == v >> 5;
    assert (v >> 5) & 1 == 0 && Steps(v, 6) == v >> 6;
    assert (v >> 6) & 1 == 0 && Steps(v, 7) == v >> 7;
    assert (v >> 7) & 1 == 0 && Steps(v, 8) == v >> 8;
  }

  function High(v: Word): Word { v & 0xFFFFFF00 }

  lemma LowAndHigh(v: Word)
    ensures Xor(Low(v), High(v)) == v
  {
  }

  lemma HighFacts(v: Word)
    ensures High(v) & 0xFF == 0
    ensures High(v) >> 8 == DropByte(v)
  {
  }

  lemma StepsOnHigh(v: Word)
    ensures Steps(High(v), 8) == DropByte(v)
  {
    hide *;
    HighFacts(v);
    StepsShift(High(v));
  }

  lemma ByteOnlyTouchesLow(reg: Word, b: Byte)
    ensures DropByte(Xor(reg, Wide(b))) == DropByte(reg)
  {
  }

  /** A whole byte costs one lookup on the low byte and one shift. */
  lemma TableIdentity(reg: Word, b: Byte)
    ensures ClockBits(reg, b, 8) == Xor(Steps(Low(Xor(reg, Wide(b))), 8), DropByte(reg))
  {
    hide *;
    var x := Xor(reg, Wide(b));
    ByteIsEightSteps(reg, b);
    LowAndHigh(x);
    StepsAreLinear(Low(x), High(x), 8);
    StepsOnHigh(x);
    ByteOnlyTouchesLow(reg, b);
  }

  // ---------------------------------------------------------------- the code

  function IndexWord(i: int): Word
    requires 0 <= i < 256
  {
    i as bv32
  }

  ghost predicate IsCrcTable(table: seq<Word>) {
    |table| == 256 && forall i :: 0 <= i < 256 ==> table[i] == Steps(IndexWord(i), 8)
  }

  function SlotOf(v: Word): (slot: int)
    ensures 0 <= slot < 256
  {
    Low(v) as int
  }

  lemma NumberIsItsWord(v: Word)
    ensures (v as int) as bv32 == v
  {
  }

  lemma SlotIsItsWord(v: Word)
    ensures IndexWord(SlotOf(v)) == Low(v)
  {
    hide Low;
    NumberIsItsWord(Low(v));
  }

  method MakeTable() returns (table: array<Word>)
    ensures fresh(table) && IsCrcTable(table[..])
  {
    hide Xor, Half, Odd, IndexWord;
    table := new bv32[256](_ => 0);
    var index := 0;
    while index < 256
      invariant 0 <= index <= 256
      invariant forall i :: 0 <= i < index ==> table[i] == Steps(IndexWord(i), 8)
    {
      var value := IndexWord(index);
      var bit := 0;
      while bit < 8
        invariant 0 <= bit <= 8
        invariant value == Steps(IndexWord(index), bit)
      {
        value := if Odd(value) then Xor(POLYNOMIAL, Half(value)) else Half(value);
        bit := bit + 1;
      }
      table[index] := value;
      index := index + 1;
    }
  }

  method ComputeCrc(table: array<Word>, buffer: ByteString) returns (crc: Word)
    requires IsCrcTable(table[..])
    ensures crc == Crc(buffer)
  {
    hide Xor, Wide, Low, DropByte, SlotOf, ClockBits, Steps, IndexWord;
    crc := ONES;
    var index := 0;
    while index < |buffer|
      invariant 0 <= index <= |buffer|
      invariant crc == Register(ONES, buffer[..index])
    {
      var x := Xor(crc, Wide(buffer[index]));
      TableIdentity(crc, buffer[index]);
      SlotIsItsWord(x);
      assert table[SlotOf(x)] == table[..][SlotOf(x)];
      assert buffer[..index + 1][..index] == buffer[..index];
      crc := Xor(table[SlotOf(x)], DropByte(crc));
      index := index + 1;
    }
    assert buffer[..index] == buffer;
    crc := Xor(crc, ONES);
  }

  // ---------------------------------------------------------------- what the checksum detects

  lemma {:induction false} RegisterSplits(start: Word, a: ByteString, b: ByteString)
    ensures Register(start, a + b) == Register(Register(start, a), b)
  {
    hide ClockBits;
    if |b| == 0 {
      assert a + b == a;
    } else {
      RegisterSplits(start, a, b[..|b| - 1]);
      assert (a + b)[..|a + b| - 1] == a + b[..|b| - 1];
    }
  }

  lemma RegisterOnOne(start: Word, message: ByteString)
    requires |message| > 0
    ensures Register(start, message) == Register(ClockBits(start, message[0], 8), message[1..])
  {
    hide ClockBits;
    assert message == message[..1] + message[1..];
    assert message[..1][..0] == [];
    RegisterSplits(start, message[..1], message[1..]);
  }

  lemma StepOfNonZero(v: Word)
    requires Step(v) == 0
    ensures v == 0
  {
  }

  lemma XorZeroMeansEqual(a: Word, b: Word)
    ensures Xor(a, b) == 0 <==> a == b
  {
    hide Xor;
    XorZero(a);
    XorZero(b);
    XorCancels(a, b);
    XorCommutes(0, b);
  }

  lemma {:induction false} StepsAreInjective(a: Word, b: Word, n: nat)
    requires Steps(a, n) == Steps(b, n)
    ensures a == b
  {
    hide Xor, Step;
    if n > 0 {
      var x, y := Steps(a, n - 1), Steps(b, n - 1);
      StepIsLinear(x, y);
      XorZeroMeansEqual(Step(x), Step(y));
      StepOfNonZero(Xor(x, y));
      XorZeroMeansEqual(x, y);
      StepsAreInjective(a, b, n - 1);
    }
  }

  /** A difference in the register survives any common continuation. */
  lemma {:induction false} DifferenceSurvives(r: Word, s: Word, tail: ByteString)
    requires r != s
    ensures Register(r, tail) != Register(s, tail)
  {
    hide ClockBits, Xor, Wide;
    if |tail| > 0 {
      var b := tail[|tail| - 1];
      var x, y := Register(r, tail[..|tail| - 1]), Register(s, tail[..|tail| - 1]);
      DifferenceSurvives(r, s, tail[..|tail| - 1]);
      ByteIsEightSteps(x, b);
      ByteIsEightSteps(y, b);
      if Register(r, tail) == Register(s, tail) {
        StepsAreInjective(Xor(x, Wide(b)), Xor(y, Wide(b)), 8);
        XorCancels(x, Wide(b));
        XorCancels(y, Wide(b));
        assert false;
      }
    }
  }

  function Raise(v: Word): Word { v << 8 }

  /** Byte differences laid out in one register, the first in the low byte. */
  function Packed(x: ByteString, y: ByteString): Word
    requires |x| == |y|
  {
    if |x| == 0 then 0
    else Xor(Raise(Packed(x[1..], y[1..])), Xor(Wide(x[0]), Wide(y[0])))
  }

  predicate Fits(v: Word, bytes: nat)
    requires bytes <= 4
  {
    && (bytes <= 3 ==> v & 0xFF000000 == 0)
    && (bytes <= 2 ==> v & 0x00FF0000 == 0)
    && (bytes <= 1 ==> v & 0x0000FF00 == 0)
    && (bytes <= 0 ==> v & 0x000000FF == 0)
  }

  lemma RaisedFits(v: Word, n: nat, x: Byte, y: Byte)
    requires n < 4 && Fits(v, n)
    ensures Fits(Xor(Raise(v), Xor(Wide(x), Wide(y))), n + 1)
  {
  }

  lemma RaisedIsZero(v: Word, x: Byte, y: Byte)
    requires Fits(v, 3)
    requires Xor(Raise(v), Xor(Wide(x), Wide(y))) == 0
    ensures v == 0 && x == y
  {
  }

  lemma FitsGrows(v: Word, n: nat)
    requires n <= 3 && Fits(v, n)
    ensures Fits(v, 3)
  {
  }

  lemma RaiseFacts(v: Word)
    requires Fits(v, 3)
    ensures Raise(v) & 0xFF == 0
    ensures Raise(v) >> 8 == v
  {
  }

  lemma StepsUndoRaise(v: Word)
    requires Fits(v, 3)
    ensures Steps(Raise(v), 8) == v
  {
    hide *;
    RaiseFacts(v);
    StepsShift(Raise(v));
  }

  lemma {:induction false} PackedFits(x: ByteString, y: ByteString)
    requires |x| == |y| <= 4
    ensures Fits(Packed(x, y), |x|)
    ensures |x| < 4 ==> Fits(Packed(x, y), 3)
  {
    hide Xor, Wide, Raise, Fits;
    if |x| == 0 {
      NothingFits();
    } else {
      PackedFits(x[1..], y[1..]);
      RaisedFits(Packed(x[1..], y[1..]), |x| - 1, x[0], y[0]);
    }
    if |x| < 4 {
      FitsGrows(Packed(x, y), |x|);
    }
  }

  lemma NothingFits()
    ensures Fits(0, 0)
  {
  }

  lemma {:induction false} PackedIsZero(x: ByteString, y: ByteString)
    requires |x| == |y| <= 4
    requires Packed(x, y) == 0
    ensures x == y
  {
    hide Xor, Wide, Raise, Fits;
    if |x| > 0 {
      PackedFits(x[1..], y[1..]);
      RaisedIsZero(Packed(x[1..], y[1..]), x[0], y[0]);
      PackedIsZero(x[1..], y[1..]);
      assert x == [x[0]] + x[1..] && y == [y[0]] + y[1..];
    }
  }

  /** Two registers that meet after at most four bytes differed by exactly the packed byte differences. */
  lemma {:induction false} MeetingRegisters(r: Word, s: Word, x: ByteString, y: ByteString)
    requires |x| == |y| <= 4
    requires Register(r, x) == Register(s, y)
    ensures Xor(r, s) == Packed(x, y)
    decreases |x|
  {
    hide Xor, Wide, Raise, Fits, ClockBits, Steps;
    if |x| == 0 {
      XorZeroMeansEqual(r, s);
    } else {
      var a, b := Wide(x[0]), Wide(y[0]);
      var e, p := Xor(a, b), Packed(x[1..], y[1..]);
      RegisterOnOne(r, x);
      RegisterOnOne(s, y);
      MeetingRegisters(ClockBits(r, x[0], 8), ClockBits(s, y[0], 8), x[1..], y[1..]);
      ByteIsEightSteps(r, x[0]);
      ByteIsEightSteps(s, y[0]);
      StepsAreLinear(Xor(r, a), Xor(s, b), 8);
      XorInterchanges(r, a, s, b);
      PackedFits(x[1..], y[1..]);
      StepsUndoRaise(p);
      StepsAreInjective(Xor(Xor(r, s), e), Raise(p), 8);
      XorCancels(Xor(r, s), e);
    }
  }

  /** Every change confined to four consecutive bytes (a burst of up to 32 bits) changes the checksum. */
  lemma BurstChangesCrc(head: ByteString, x: ByteString, y: ByteString, tail: ByteString)
    requires |x| == |y| <= 4 && x != y
    ensures Crc(head + x + tail) != Crc(head + y + tail)
  {
    hide Xor, ClockBits;
    var r := Register(ONES, head);
    RegisterSplits(ONES, head, x);
    RegisterSplits(ONES, head, y);
    RegisterSplits(ONES, head + x, tail);
    RegisterSplits(ONES, head + y, tail);
    if Register(r, x) == Register(r, y) {
      MeetingRegisters(r, r, x, y);
      XorZeroMeansEqual(r, r);
      PackedIsZero(x, y);
      assert false;
    }
    DifferenceSurvives(Register(r, x), Register(r, y), tail);
    XorCancels(Register(ONES, head + x + tail), ONES);
    XorCancels(Register(ONES, head + y + tail), ONES);
  }

  /** The checksum of no bytes is 0, and that of the letter "a" is the published E8B7BE43. */
  lemma KnownValues()
    ensures Crc([]) == 0 && Crc([0x61]) == 0xE8B7_BE43
  {
    assert [0x61][..0] == [] && Register(ONES, []) == ONES;
    assert Register(ONES, [0x61]) == ClockBits(ONES, 0x61, 8);
    EightClocks();
  }

  lemma EightClocks()
    ensures ClockBits(ONES, 0x61, 8) == 0x1748_41BC
  {
    assert ClockBits(ONES, 0x61, 8) == ClockBits(ClockBit(ONES, true), 0x30, 7);
  }
}
