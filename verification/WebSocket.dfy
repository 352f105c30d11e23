/** The WebSocket client: exact reads from a stream that arrives in pieces, and calls over it. */
module WebSocket {
  import opened Wrappers
  import opened Bytes
  import opened Frames

  const OP_TEXT: Byte := 0x1
  const OP_BINARY: Byte := 0x2
  const OP_CLOSE: Byte := 0x8
  const OP_PING: Byte := 0x9
  const OP_PONG: Byte := 0xA

  /** A decoded JSON value, as far as `call` looks at it. */
  datatype Json = Object(id: Option<int>, error: bool, text: string) | OtherJson

  datatype CallError = Closed | TooLong | NotAnObject | RemoteError

  /** The text decoder, the JSON reader and the JSON writer, which are not part of this model. */
  datatype Codec = Codec(decode: ByteString -> string, loads: string -> Option<Json>, request: nat -> ByteString)

  // ---------------------------------------------------------------- what a call answers

  datatype Answered = Answered(outcome: Result<Json, CallError>, pongs: seq<ByteString>, rest: ByteString)

  predicate IsData(f: Frame) {
    f.opcode == OP_TEXT || f.opcode == OP_BINARY
  }

  /** What a complete message means for the call waiting for `id`: an outcome, or nothing. */
  function Meaning(codec: Codec, id: nat, text: string): Option<Result<Json, CallError>> {
    match codec.loads(text)
    case None => None
    case Some(OtherJson) => Some(Failure(NotAnObject))
    case Some(Object(i, error, t)) =>
      if i != Some(id) then None else if error then Some(Failure(RemoteError)) else Some(Success(Object(i, error, t)))
  }

  /** The reading loop of `call` on a stream, with the text of the fragments so far. */
  function Answer(codec: Codec, id: nat, s: ByteString, text: string): Answered
    decreases |s|
  {
    match ParseFrame(s)
    case None => Answered(Failure(Closed), [], [])
    case Some(Parsed(f, rest)) =>
      if f.opcode == OP_CLOSE then Answered(Failure(Closed), [], rest)
      else if f.opcode == OP_PING then
        var r := Answer(codec, id, rest, text);
        r.(pongs := [f.payload] + r.pongs)
      else if f.opcode == OP_PONG then Answer(codec, id, rest, text)
      else if IsData(f) then
        var full := text + codec.decode(f.payload);
        if !f.fin then Answer(codec, id, rest, full)
        else
          match Meaning(codec, id, full)
          case None => Answer(codec, id, rest, "")
          case Some(outcome) => Answered(outcome, [], rest)
      else Answer(codec, id, rest, text)
  }

  function Pongs(payloads: seq<ByteString>): (r: seq<Frame>)
    ensures |r| == |payloads| && forall i :: 0 <= i < |r| ==> r[i] == Frame(true, OP_PONG, payloads[i])
  {
    seq(|payloads|, i requires 0 <= i < |payloads| => Frame(true, OP_PONG, payloads[i]))
  }

  // ---------------------------------------------------------------- the client

  class Client {
    const codec: Codec
    var buffer: ByteString
    var nextId: nat
    // What the peer still delivers before it closes the connection.
    var incoming: ByteString
    var sent: ByteString
    ghost var log: seq<Frame>

    /** The bytes sent are the frames logged. */
    ghost predicate Valid()
      reads this
    {
      IsFrames(sent, log)
    }

    /** What is still to be read. */
    function Stream(): ByteString
      reads this
    {
      buffer + incoming
    }

    /** After the handshake `early` bytes of the stream are already buffered. */
    constructor (codec: Codec, early: ByteString, later: ByteString)
      ensures Valid() && Stream() == early + later && nextId == 0 && log == [] && this.codec == codec
    {
      this.codec := codec;
      buffer, incoming, nextId, sent, log := early, later, 0, [], [];
    }

    /** `socket.recv`: some of what is to come, at least one byte unless the peer has closed. */
    method Recv(limit: nat) returns (chunk: ByteString)
      requires limit > 0
      modifies this`incoming
      ensures chunk + incoming == old(incoming) && |chunk| <= limit
      ensures |chunk| == 0 ==> incoming == []
    {
      var most := if limit < |incoming| then limit else |incoming|;
      var n: int := *;
      if n <= 0 || n > most {
        n := most;
      }
      chunk := incoming[..n];
      incoming := incoming[n..];
    }

    /** `_read_exact`: the next `length` bytes, however they arrive. */
    method ReadExact(length: nat) returns (r: Result<ByteString, CallError>)
      modifies this`buffer, this`incoming
      ensures r.Success? <==> length <= |old(Stream())|
      ensures r.Success? ==> r.value == old(Stream())[..length] && Stream() == old(Stream())[length..]
      ensures r.Failure? ==> r.error == Closed && Stream() == []
    {
      var data: ByteString := [];
      while |data| < length
        invariant |data| <= length && data + Stream() == old(Stream())
        invariant |data| < length ==> data + Stream() == old(Stream())
        decreases length - |data|
      {
        if |buffer| > 0 {
          var missing := length - |data|;
          var take := buffer[..if missing < |buffer| then missing else |buffer|];
          ghost var before := Stream();
          buffer := buffer[|take|..];
          assert take + Stream() == before;
          data := data + take;
        } else {
          ghost var before := Stream();
          var chunk := Recv(length - |data|);
          if |chunk| == 0 {
            return Failure(Closed);
          }
          assert chunk + Stream() == before;
          data := data + chunk;
        }
      }
      assert old(Stream())[..length] == data;
      return Success(data);
    }

    /** The extended length, and the whole length field as read. */
    method ReadLength(b1: Byte) returns (r: Result<nat, CallError>, ghost field: ByteString)
      modifies this`buffer, this`incoming
      ensures r.Success? <==> ExtendedSize(LowBits(b1)) <= |old(Stream())|
      ensures r.Failure? ==> r.error == Closed && Stream() == []
      ensures r.Success? ==> |field| == 1 + ExtendedSize(LowBits(b1)) && field[0] == b1
                             && [b1] + old(Stream()) == field + Stream()
                             && r.value == LengthValue(LowBits(b1), field[1..])
    {
      hide HighBit, LowBits;
      var code := LowBits(b1);
      field := [b1];
      if code != 126 && code != 127 {
        return Success(code as nat), field;
      }
      var s := ReadExact(if code == 126 then 2 else 8);
      if s.Failure? {
        return Failure(s.error), field;
      }
      field := [b1] + s.value;
      assert field[1..] == s.value;
      return Success(FromBigEndian(s.value)), field;
    }

    /** The first byte, the second byte and the length of a frame. */
    method ReadHead() returns (r: Result<(Byte, Byte, nat), CallError>, ghost field: ByteString)
      modifies this`buffer, this`incoming
      ensures r.Failure? ==> r.error == Closed && Stream() == [] && ParseFrame(old(Stream())).None?
      ensures r.Success? ==>
                var (b0, b1, length) := r.value;
                && |field| == 1 + ExtendedSize(LowBits(b1)) && field[0] == b1 && length == LengthValue(LowBits(b1), field[1..])
                && old(Stream()) == [b0] + field + Stream()
    {
      hide HighBit, LowBits, ParseFrame, ExtendedSize, LengthValue;
      field := [];
      ghost var s := Stream();
      if ParseFrame(s).Some? { ParseNeeds(s); }
      var b0 := ReadExact(1);
      if b0.Failure? { return Failure(b0.error), field; }
      var b1 := ReadExact(1);
      if b1.Failure? { return Failure(b1.error), field; }
      assert s[0] == b0.value[0] && s[1] == b1.value[0] && Stream() == s[2..];
      var length;
      length, field := ReadLength(b1.value[0]);
      FieldOf(s, field, Stream(), length.Success?);
      if length.Failure? { return Failure(length.error), field; }
      return Success((b0.value[0], b1.value[0], length.value)), field;
    }

    /** `_read_frame`: exactly the first frame of the stream, in whatever pieces it arrives. */
    method ReadFrame() returns (r: Result<Frame, CallError>)
      modifies this`buffer, this`incoming
      ensures ParseFrame(old(Stream())).Some? ==>
                r == Success(ParseFrame(old(Stream())).value.frame) && Stream() == ParseFrame(old(Stream())).value.rest
      ensures ParseFrame(old(Stream())).None? ==> r == Failure(Closed) && Stream() == []
    {
      hide HighBit, LowBits, OpcodeOf, ApplyMask, ParseFrame, ExtendedSize, LengthValue, Stream;
      ghost var s := Stream();
      var head, field := ReadHead();
      if head.Failure? { return Failure(head.error); }
      var (b0, b1, length) := head.value;
      NeedsTail(s, b0, field, Stream());
      ghost var afterField := Stream();
      var mask: ByteString := [];
      if HighBit(b1) {
        mask :- ReadExact(4);
      }
      ghost var afterMask := Stream();
      assert afterField == mask + afterMask;
      var body :- ReadExact(length);
      assert afterMask == body + Stream();
      WholeFrame(s, b0, field, mask, body, Stream());
      return Success(Frame(HighBit(b0), OpcodeOf(b0), if HighBit(b1) then ApplyMask(body, mask) else body));
    }

    /** `sendall(make_frame(…))` with a random mask. */
    method Send(opcode: Byte, payload: ByteString)
      requires Valid() && |payload| < U64_LIMIT
      modifies this`sent, this`log
      ensures Valid() && log == old(log) + [Frame(true, OpcodeOf(opcode), payload)]
    {
      var m0: Byte, m1: Byte, m2: Byte, m3: Byte := *, *, *, *;
      var mask := Some([m0, m1, m2, m3]);
      hide MakeFrame, OpcodeOf, HoldsFrames;
      FramesAppend(sent, log, opcode, payload, mask);
      sent := sent + FrameBytes(opcode, payload, mask);
      log := log + [Frame(true, OpcodeOf(opcode), payload)];
    }

    /** The reading loop of `call`. */
    method Await() returns (outcome: Result<Json, CallError>)
      requires Valid()
      modifies this`buffer, this`incoming, this`sent, this`log
      ensures Valid()
      ensures var a := Answer(codec, nextId, old(Stream()), "");
        outcome == a.outcome && Stream() == a.rest && log == old(log) + Pongs(a.pongs)
    {
      OpcodesAreSmall();
      hide ParseFrame, HoldsFrames, OpcodeOf, Meaning;
      var text := "";
      ghost var goal := Answer(codec, nextId, Stream(), "");
      ghost var pongs: seq<ByteString> := [];
      while true
        invariant Valid() && log == old(log) + Pongs(pongs)
        invariant Continues(goal, pongs, Answer(codec, nextId, Stream(), text))
        decreases |Stream()|
      {
        ghost var s := Stream();
        var f :- ReadFrame();
        if f.opcode == OP_CLOSE {
          assert pongs + [] == pongs;
          return Failure(Closed);
        }
        if f.opcode == OP_PING {
          PayloadIsShort(s);
          ghost var before := Stream();
          Send(OP_PONG, f.payload);
          assert Stream() == before;
          MorePongs(pongs, f.payload, Answer(codec, nextId, Stream(), text).pongs);
          pongs := pongs + [f.payload];
          continue;
        }
        if f.opcode == OP_PONG {
          continue;
        }
        if f.opcode == OP_TEXT || f.opcode == OP_BINARY {
          text := text + codec.decode(f.payload);
          if !f.fin {
            continue;
          }
          var meaning := Meaning(codec, nextId, text);
          text := "";
          if meaning.Some? {
            assert pongs + [] == pongs;
            return meaning.value;
          }
        }
      }
    }

    /** `call`: the answer over the stream, and one pong for each ping met on the way. */
    method Call() returns (outcome: Result<Json, CallError>)
      requires Valid()
      modifies this
      ensures Valid() && nextId == old(nextId) + 1
      ensures |codec.request(nextId)| >= U64_LIMIT ==>
                outcome == Failure(CallError.TooLong) && Stream() == old(Stream()) && log == old(log)
      ensures |codec.request(nextId)| < U64_LIMIT ==>
                var a := Answer(codec, nextId, old(Stream()), "");
                && outcome == a.outcome && Stream() == a.rest
                && log == old(log) + [Frame(true, OP_TEXT, codec.request(nextId))] + Pongs(a.pongs)
    {
      nextId := nextId + 1;
      var message := codec.request(nextId);
      if |message| >= U64_LIMIT {
        return Failure(CallError.TooLong);
      }
      OpcodesAreSmall();
      hide OpcodeOf, HoldsFrames, Answer;
      Send(OP_TEXT, message);
      outcome := Await();
    }
  }

  /** `goal` is what the pongs so far and the answer still to come make together. */
  ghost predicate Continues(goal: Answered, pongs: seq<ByteString>, a: Answered) {
    goal.outcome == a.outcome && goal.rest == a.rest && goal.pongs == pongs + a.pongs
  }

  lemma MorePongs(pongs: seq<ByteString>, p: ByteString, more: seq<ByteString>)
    ensures Pongs(pongs + [p]) == Pongs(pongs) + [Frame(true, OP_PONG, p)]
    ensures pongs + ([p] + more) == pongs + [p] + more
  {
  }

  lemma FieldOf(s: ByteString, field: ByteString, rest: ByteString, complete: bool)
    requires |s| >= 2
    requires complete ==> |field| > 0 && field[0] == s[1] && [s[1]] + s[2..] == field + rest
    ensures complete ==> |s| >= 1 + |field| && s == [s[0]] + field + rest && s[2..1 + |field|] == field[1..]
  {
    if complete {
      assert s == [s[0]] + ([s[1]] + s[2..]);
    }
  }

  /** Without mask and payload in full there is no frame. */
  lemma NeedsTail(s: ByteString, b0: Byte, field: ByteString, tail: ByteString)
    requires |field| > 0 && |field| == 1 + ExtendedSize(LowBits(field[0])) && s == [b0] + field + tail
    ensures ParseFrame(s).Some? ==>
              |tail| >= (if HighBit(field[0]) then 4 else 0) + LengthValue(LowBits(field[0]), field[1..])
  {
    if ParseFrame(s).Some? {
      ParseNeeds(s);
      hide ParseFrame, HighBit, LowBits, ExtendedSize, LengthValue;
      assert s[1] == field[0] && s[2..1 + |field|] == field[1..];
    }
  }

  lemma WholeFrame(s: ByteString, b0: Byte, field: ByteString, mask: ByteString, body: ByteString, rest: ByteString)
    requires s == [b0] + field + (mask + (body + rest)) && AreParts(field, mask, body)
    ensures ParseFrame(s) == Some(Parsed(Frame(HighBit(b0), OpcodeOf(b0), Unmasked(mask, body)), rest))
  {
    hide ParseFrame, AreParts, HighBit, OpcodeOf, Unmasked;
    assert s == [b0] + field + mask + body + rest;
    ParseParts(b0, field, mask, body, rest);
  }

  function FrameBytes(opcode: Byte, payload: ByteString, mask: Mask): ByteString
    requires IsMask(mask) && |payload| < U64_LIMIT
  {
    MakeFrame(opcode, payload, mask).value
  }

  lemma OpcodesAreSmall()
    ensures OpcodeOf(OP_TEXT) == OP_TEXT && OpcodeOf(OP_PONG) == OP_PONG
  {
  }

  /** A payload that was parsed is short enough to be sent back. */
  lemma PayloadIsShort(s: ByteString)
    requires ParseFrame(s).Some?
    ensures |ParseFrame(s).value.frame.payload| < U64_LIMIT
  {
    hide ParseFrame;
    PrintedHeaderIsMinimal(s, if HighBit(s[1]) then Some([0, 0, 0, 0]) else None);
  }
}
