/** WebSocket frames as the client prints and parses them (RFC 6455, sections 5.2 and 5.3). */
module Frames {
  import opened Wrappers
  import opened Bytes

  datatype Frame = Frame(fin: bool, opcode: Byte, payload: ByteString)

  // ---------------------------------------------------------------- masking

  function Xor(a: Byte, b: Byte): Byte {
    a ^ b
  }

  /** `apply_mask` */
  function ApplyMask(data: ByteString, mask: ByteString): (r: ByteString)
    requires |mask| == 4
    ensures |r| == |data| && forall i :: 0 <= i < |data| ==> r[i] == Xor(data[i], mask[i % 4])
  {
    seq(|data|, i requires 0 <= i < |data| => Xor(data[i], mask[i % 4]))
  }

  lemma XorTwice(a: Byte, b: Byte)
    ensures Xor(Xor(a, b), b) == a
  {
  }

  /** Masking twice restores the data. */
  lemma MaskIsInvolution(data: ByteString, mask: ByteString)
    requires |mask| == 4
    ensures ApplyMask(ApplyMask(data, mask), mask) == data
  {
    hide Xor;
    var twice := ApplyMask(ApplyMask(data, mask), mask);
    forall i | 0 <= i < |data|
      ensures twice[i] == data[i]
    {
      XorTwice(data[i], mask[i % 4]);
    }
  }

  // ---------------------------------------------------------------- header bits

  function FirstByte(opcode: Byte): Byte {
    0x80 | (opcode & 0x0F)
  }

  function SecondByte(masked: bool, code: Byte): Byte {
    (if masked then 0x80 else 0x00) | code
  }

  predicate HighBit(b: Byte) {
    b & 0x80 != 0
  }

  function OpcodeOf(b: Byte): Byte {
    b & 0x0F
  }

  function LowBits(b: Byte): Byte {
    b & 0x7F
  }

  lemma FirstByteReads(opcode: Byte)
    ensures HighBit(FirstByte(opcode)) && OpcodeOf(FirstByte(opcode)) == OpcodeOf(opcode)
  {
  }

  lemma SecondByteReads(masked: bool, code: Byte)
    requires code < 0x80
    ensures HighBit(SecondByte(masked, code)) == masked && LowBits(SecondByte(masked, code)) == code
  {
  }

  lemma SmallByte(n: nat)
    requires n < 128
    ensures ByteOf(n) < 0x80
  {
  }

  // ---------------------------------------------------------------- printing

  type Mask = Option<ByteString>

  predicate IsMask(mask: Mask) {
    mask.Some? ==> |mask.value| == 4
  }

  /** The second byte and the extended length. */
  function LengthField(masked: bool, length: nat): ByteString {
    if length < 126 then [SecondByte(masked, ByteOf(length))]
    else if length < U16_LIMIT then [SecondByte(masked, 126)] + BigEndian(length, 2)
    else [SecondByte(masked, 127)] + BigEndian(length, 8)
  }

  function MaskedPayload(mask: Mask, payload: ByteString): ByteString
    requires IsMask(mask)
  {
    if mask.Some? then mask.value + ApplyMask(payload, mask.value) else payload
  }

  datatype FrameError = TooLong

  /** `make_frame`; `struct.pack` refuses a length beyond 64 bits. */
  function MakeFrame(opcode: Byte, payload: ByteString, mask: Mask): Result<ByteString, FrameError>
    requires IsMask(mask)
  {
    if |payload| >= U64_LIMIT then Failure(TooLong)
    else Success([FirstByte(opcode)] + LengthField(mask.Some?, |payload|) + MaskedPayload(mask, payload))
  }

  /** The examples of section 5.7 of RFC 6455: "Hello" in one frame, unmasked and masked. */
  lemma HelloFrames()
    ensures var hello: ByteString := [0x48, 0x65, 0x6c, 0x6c, 0x6f];
      && MakeFrame(0x1, hello, None) == Success([0x81, 0x05, 0x48, 0x65, 0x6c, 0x6c, 0x6f])
      && MakeFrame(0x1, hello, Some([0x37, 0xfa, 0x21, 0x3d]))
         == Success([0x81, 0x85, 0x37, 0xfa, 0x21, 0x3d, 0x7f, 0x9f, 0x4d, 0x51, 0x58])
  {
    var hello: ByteString, mask: ByteString := [0x48, 0x65, 0x6c, 0x6c, 0x6f], [0x37, 0xfa, 0x21, 0x3d];
    assert ApplyMask(hello, mask) == [0x7f, 0x9f, 0x4d, 0x51, 0x58];
    assert ByteOf(5) == 5 && FirstByte(0x1) == 0x81;
    assert LengthField(false, 5) == [0x05] && LengthField(true, 5) == [0x85];
    assert [0x81] + [0x05] + hello == [0x81, 0x05, 0x48, 0x65, 0x6c, 0x6c, 0x6f];
    assert [0x81] + [0x85] + (mask + [0x7f, 0x9f, 0x4d, 0x51, 0x58])
        == [0x81, 0x85, 0x37, 0xfa, 0x21, 0x3d, 0x7f, 0x9f, 0x4d, 0x51, 0x58];
  }

  // ---------------------------------------------------------------- parsing

  datatype Parsed = Parsed(frame: Frame, rest: ByteString)

  /** The size of the extended length field. */
  function ExtendedSize(code: Byte): nat {
    if code == 126 then 2 else if code == 127 then 8 else 0
  }

  function LengthValue(code: Byte, field: ByteString): nat {
    if code == 126 || code == 127 then FromBigEndian(field) else code as nat
  }

  /** The first frame of a stream, if all of it has come. */
  function ParseFrame(s: ByteString): (r: Option<Parsed>)
    ensures r.Some? ==> |r.value.rest| + 2 <= |s|
  {
    if |s| < 2 then None else
    var code, masked := LowBits(s[1]), HighBit(s[1]);
    var extended := ExtendedSize(code);
    if |s| < 2 + extended then None else
    var length := LengthValue(code, s[2..2 + extended]);
    var start := 2 + extended + if masked then 4 else 0;
    if |s| < start + length then None else
    var body := s[start..start + length];
    var payload := if masked then ApplyMask(body, s[start - 4..start]) else body;
    Some(Parsed(Frame(HighBit(s[0]), OpcodeOf(s[0]), payload), s[start + length..]))
  }

  lemma LengthFieldReads(masked: bool, length: nat)
    requires length < U64_LIMIT
    ensures var field := LengthField(masked, length);
      && |field| > 0 && HighBit(field[0]) == masked && |field| == 1 + ExtendedSize(LowBits(field[0]))
      && LengthValue(LowBits(field[0]), field[1..]) == length
  {
    hide HighBit, LowBits, SecondByte;
    FieldLimits();
    if length < 126 {
      SmallByte(length);
      SecondByteReads(masked, ByteOf(length));
      CodeIsLength(length);
    } else if length < U16_LIMIT {
      SecondByteReads(masked, 126);
      BigEndianRoundTrip(length, 2);
    } else {
      SecondByteReads(masked, 127);
      BigEndianRoundTrip(length, 8);
    }
  }

  lemma CodeIsLength(length: nat)
    requires length < 126
    ensures ExtendedSize(ByteOf(length)) == 0 && LengthValue(ByteOf(length), []) == length
  {
    var b := ByteOf(length);
    assert b as int == length;
    assert b != 126 && b != 127;
  }

  /** The parts of a frame: first byte, length field, mask and masked payload. */
  ghost predicate AreParts(field: ByteString, mask: ByteString, body: ByteString) {
    && |field| > 0 && |field| == 1 + ExtendedSize(LowBits(field[0]))
    && LengthValue(LowBits(field[0]), field[1..]) == |body|
    && |mask| == if HighBit(field[0]) then 4 else 0
  }

  function Unmasked(mask: ByteString, body: ByteString): ByteString
    requires |mask| == 4 || |mask| == 0
  {
    if |mask| == 4 then ApplyMask(body, mask) else body
  }

  lemma Slices(b0: Byte, field: ByteString, mask: ByteString, body: ByteString, rest: ByteString, s: ByteString)
    requires |field| > 0 && s == [b0] + field + mask + body + rest
    ensures var start := 1 + |field| + |mask|;
      && |s| >= start + |body| && s[0] == b0 && s[1] == field[0] && s[2..1 + |field|] == field[1..]
      && s[1 + |field|..start] == mask && s[start..start + |body|] == body && s[start + |body|..] == rest
  {
  }

  lemma Regroup(a: ByteString, b: ByteString, c: ByteString, d: ByteString, e: ByteString)
    ensures a + b + (c + d) + e == a + b + c + d + e
  {
  }

  lemma FourCuts(s: ByteString, i: nat, j: nat, k: nat)
    requires 1 <= i <= j <= k <= |s|
    ensures s == [s[0]] + s[1..i] + s[i..j] + s[j..k] + s[k..]
  {
    assert s[..i] == [s[0]] + s[1..i];
    assert s[..j] == s[..i] + s[i..j];
    assert s[..k] == s[..j] + s[j..k];
  }

  lemma ParseParts(b0: Byte, field: ByteString, mask: ByteString, body: ByteString, rest: ByteString)
    requires AreParts(field, mask, body)
    ensures ParseFrame([b0] + field + mask + body + rest)
         == Some(Parsed(Frame(HighBit(b0), OpcodeOf(b0), Unmasked(mask, body)), rest))
  {
    hide HighBit, LowBits, OpcodeOf, LengthValue, ExtendedSize, ApplyMask;
    Slices(b0, field, mask, body, rest, [b0] + field + mask + body + rest);
  }

  /** What the client prints is parsed back, whatever follows it. */
  lemma FrameRoundTrip(opcode: Byte, payload: ByteString, mask: Mask, rest: ByteString)
    requires IsMask(mask) && |payload| < U64_LIMIT
    ensures ParseFrame(MakeFrame(opcode, payload, mask).value + rest)
         == Some(Parsed(Frame(true, OpcodeOf(opcode), payload), rest))
  {
    FirstByteReads(opcode);
    LengthFieldReads(mask.Some?, |payload|);
    hide HighBit, LowBits, OpcodeOf, FirstByte, LengthField, LengthValue, ExtendedSize, ApplyMask, ParseFrame;
    var field := LengthField(mask.Some?, |payload|);
    var key := if mask.Some? then mask.value else [];
    var body := if mask.Some? then ApplyMask(payload, mask.value) else payload;
    if mask.Some? {
      MaskIsInvolution(payload, mask.value);
    }
    assert MaskedPayload(mask, payload) == key + body;
    Regroup([FirstByte(opcode)], field, key, body, rest);
    assert Unmasked(key, body) == payload;
    assert AreParts(field, key, body);
    hide MaskedPayload, AreParts, Unmasked;
    ParseParts(FirstByte(opcode), field, key, body, rest);
  }

  lemma LengthFieldSize(masked: bool, length: nat)
    ensures |LengthField(masked, length)| == if length < 126 then 1 else if length < U16_LIMIT then 3 else 9
  {
  }

  lemma {:induction false} FieldBound(b: ByteString)
    ensures FromBigEndian(b) < FieldLimit(|b|)
  {
    if |b| > 0 {
      FieldBound(b[..|b| - 1]);
    }
  }

  /** A parsed payload is shorter than 2^64, and the header of any frame that carries it, masked or not, is at least
      as long as the one printed: the printed length form is the minimal one of section 5.2. */
  lemma PrintedHeaderIsMinimal(s: ByteString, mask: Mask)
    requires ParseFrame(s).Some? && IsMask(mask) && HighBit(s[1]) == mask.Some?
    ensures var Parsed(frame, rest) := ParseFrame(s).value;
      && |frame.payload| < U64_LIMIT
      && |MakeFrame(frame.opcode, frame.payload, mask).value| <= |s| - |rest|
  {
    hide LowBits, HighBit, OpcodeOf, LengthField, ApplyMask, FromBigEndian, ParseFrame;
    ParsedSizes(s);
    var code := LowBits(s[1]);
    FieldBound(s[2..2 + ExtendedSize(code)]);
    FieldLimits();
    LengthFieldSize(mask.Some?, |ParseFrame(s).value.frame.payload|);
    SmallCode(code, s[1]);
  }

  /** How the bytes of a frame are shared out. */
  lemma ParsedSizes(s: ByteString)
    requires ParseFrame(s).Some?
    ensures |s| >= 2 + ExtendedSize(LowBits(s[1]))
    ensures var (Parsed(frame, rest), code) := (ParseFrame(s).value, LowBits(s[1]));
      && |frame.payload| == LengthValue(code, s[2..2 + ExtendedSize(code)])
      && |s| - |rest| == 2 + ExtendedSize(code) + (if HighBit(s[1]) then 4 else 0) + |frame.payload|
  {
    hide LowBits, HighBit, OpcodeOf, FromBigEndian, ExtendedSize, LengthValue;
  }

  lemma SmallCode(code: Byte, b: Byte)
    requires code == LowBits(b)
    ensures code != 126 && code != 127 ==> code as nat < 126
  {
    LowBitsBound(b);
  }

  lemma LowBitsBound(b: Byte)
    ensures LowBits(b) <= 127
  {
  }

  // ---------------------------------------------------------------- whole streams

  /** The bytes are these frames and then `rest`. */
  predicate HoldsFrames(s: ByteString, frames: seq<Frame>, rest: ByteString)
    decreases |frames|
  {
    if |frames| == 0 then s == rest
    else
      var p := ParseFrame(s);
      p.Some? && p.value.frame == frames[0] && HoldsFrames(p.value.rest, frames[1..], rest)
  }

  /** The bytes are exactly these frames. */
  predicate IsFrames(s: ByteString, frames: seq<Frame>) {
    HoldsFrames(s, frames, [])
  }

  lemma SplitFrame(s: ByteString) returns (field: ByteString, mask: ByteString, body: ByteString)
    requires ParseFrame(s).Some?
    ensures AreParts(field, mask, body) && s == [s[0]] + field + mask + body + ParseFrame(s).value.rest
  {
    hide HighBit, LowBits, OpcodeOf, LengthValue, ApplyMask, ExtendedSize;
    var code := LowBits(s[1]);
    var extended := ExtendedSize(code);
    var length := LengthValue(code, s[2..2 + extended]);
    var start := 2 + extended + if HighBit(s[1]) then 4 else 0;
    field, mask, body := s[1..2 + extended], s[2 + extended..start], s[start..start + length];
    FieldCut(s, 2 + extended);
    FourCuts(s, 2 + extended, start, start + length);
  }

  lemma FieldCut(s: ByteString, i: nat)
    requires 2 <= i <= |s|
    ensures s[1..i][0] == s[1] && s[1..i][1..] == s[2..i]
  {
  }

  /** Parsing does not look past the frame. */
  lemma ParseIsLocal(s: ByteString, more: ByteString)
    requires ParseFrame(s).Some?
    ensures ParseFrame(s + more) == Some(Parsed(ParseFrame(s).value.frame, ParseFrame(s).value.rest + more))
  {
    hide ParseFrame, AreParts, HighBit, OpcodeOf, Unmasked;
    var field, mask, body := SplitFrame(s);
    var rest := ParseFrame(s).value.rest;
    ParseParts(s[0], field, mask, body, rest);
    ParseParts(s[0], field, mask, body, rest + more);
    assert s + more == [s[0]] + field + mask + body + (rest + more);
  }

  /** A stream of frames followed by one more printed frame. */
  lemma {:induction false} FramesAppend(s: ByteString, frames: seq<Frame>, opcode: Byte, payload: ByteString, mask: Mask)
    requires IsFrames(s, frames) && IsMask(mask) && |payload| < U64_LIMIT
    ensures IsFrames(s + MakeFrame(opcode, payload, mask).value, frames + [Frame(true, OpcodeOf(opcode), payload)])
    decreases |frames|
  {
    var one := MakeFrame(opcode, payload, mask).value;
    hide ParseFrame, MakeFrame, OpcodeOf;
    var all := frames + [Frame(true, OpcodeOf(opcode), payload)];
    if |frames| == 0 {
      FrameRoundTrip(opcode, payload, mask, []);
      assert s + one == one && one + [] == one;
      assert ParseFrame(one) == Some(Parsed(all[0], [])) && all[1..] == [];
    } else {
      ParseIsLocal(s, one);
      FramesAppend(ParseFrame(s).value.rest, frames[1..], opcode, payload, mask);
      assert all[1..] == frames[1..] + [Frame(true, OpcodeOf(opcode), payload)];
    }
  }

  /** A parsed frame had all its parts there. */
  lemma ParseNeeds(s: ByteString)
    requires ParseFrame(s).Some?
    ensures |s| >= 2 && |s| >= 2 + ExtendedSize(LowBits(s[1]))
    ensures var extended := ExtendedSize(LowBits(s[1]));
      |s| >= 2 + extended + (if HighBit(s[1]) then 4 else 0) + LengthValue(LowBits(s[1]), s[2..2 + extended])
  {
    hide HighBit, LowBits, OpcodeOf, LengthValue, ApplyMask, ExtendedSize;
  }
}
