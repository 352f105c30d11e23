/** What `call` answers on any stream of frames, and what it loses when messages come in fragments. */
module WebSocketLaws {
  import opened Wrappers
  import opened Bytes
  import opened Frames
  import opened WebSocket

  const OP_CONTINUATION: Byte := 0x0

  /** The text carried on after a frame: each data frame adds its own until one is final. No other frame counts. */
  function Next(codec: Codec, text: string, f: Frame): string {
    if !IsData(f) then text else if f.fin then "" else text + codec.decode(f.payload)
  }

  /** The text carried after the frames, when `text` was carried before them. */
  function Carried(codec: Codec, text: string, frames: seq<Frame>): string {
    if |frames| == 0 then text else Next(codec, Carried(codec, text, frames[..|frames| - 1]), frames[|frames| - 1])
  }

  /** The text that is looked at on the frame: a final data frame's own text behind the text carried so far. */
  function ReadAt(codec: Codec, text: string, frames: seq<Frame>, k: nat): Option<string>
    requires k < |frames|
  {
    var f := frames[k];
    if IsData(f) && f.fin then Some(Carried(codec, text, frames[..k]) + codec.decode(f.payload)) else None
  }

  /** The text is about this call: JSON that is no object, or an object with the call's id. */
  predicate Concerns(codec: Codec, id: nat, text: string) {
    var json := codec.loads(text);
    json.Some? && (json.value.Object? ==> json.value.id == Some(id))
  }

  /** The frame ends the call: the peer closes, or the text looked at is about this call. */
  predicate Ends(codec: Codec, id: nat, text: string, frames: seq<Frame>, k: nat)
    requires k < |frames|
  {
    var read := ReadAt(codec, text, frames, k);
    frames[k].opcode == OP_CLOSE || (read.Some? && Concerns(codec, id, read.value))
  }

  function EndOf(codec: Codec, id: nat, text: string, frames: seq<Frame>, k: nat): Result<Json, CallError>
    requires k < |frames| && Ends(codec, id, text, frames, k)
  {
    if frames[k].opcode == OP_CLOSE then Failure(Closed)
    else
      var json := codec.loads(ReadAt(codec, text, frames, k).value).value;
      if json.OtherJson? then Failure(NotAnObject) else if json.error then Failure(RemoteError) else Success(json)
  }

  /** The payloads of the pings, in order. */
  function Pings(frames: seq<Frame>): seq<ByteString> {
    if |frames| == 0 then []
    else (if frames[0].opcode == OP_PING then [frames[0].payload] else []) + Pings(frames[1..])
  }

  // ---------------------------------------------------------------- the frame that decides

  lemma {:induction false} CarriedFromTheFront(codec: Codec, text: string, frames: seq<Frame>)
    requires |frames| > 0
    ensures Carried(codec, text, frames) == Carried(codec, Next(codec, text, frames[0]), frames[1..])
  {
    hide Next;
    if |frames| == 1 {
      assert frames[..0] == [];
    } else {
      var front := frames[..|frames| - 1];
      CarriedFromTheFront(codec, text, front);
      assert front[1..] == frames[1..][..|frames| - 2];
    }
  }

  lemma EndsLater(codec: Codec, id: nat, text: string, frames: seq<Frame>, k: nat)
    requires 0 < k < |frames|
    ensures var text' := Next(codec, text, frames[0]);
      && ReadAt(codec, text', frames[1..], k - 1) == ReadAt(codec, text, frames, k)
      && (Ends(codec, id, text', frames[1..], k - 1) <==> Ends(codec, id, text, frames, k))
      && (Ends(codec, id, text, frames, k) ==> EndOf(codec, id, text', frames[1..], k - 1) == EndOf(codec, id, text, frames, k))
  {
    hide Next, Carried, Concerns;
    CarriedFromTheFront(codec, text, frames[..k]);
    assert frames[..k][1..] == frames[1..][..k - 1];
  }

  lemma AllEndLater(codec: Codec, id: nat, text: string, frames: seq<Frame>)
    requires |frames| > 0
    ensures forall i :: 0 <= i < |frames| - 1 ==>
              (Ends(codec, id, Next(codec, text, frames[0]), frames[1..], i) <==> Ends(codec, id, text, frames, i + 1))
  {
    forall i | 0 <= i < |frames| - 1
      ensures Ends(codec, id, Next(codec, text, frames[0]), frames[1..], i) <==> Ends(codec, id, text, frames, i + 1)
    {
      EndsLater(codec, id, text, frames, i + 1);
    }
  }

  /** A frame that does not end the call is passed over, its text carried on and pings answered. */
  lemma PassOver(codec: Codec, id: nat, text: string, s: ByteString, frames: seq<Frame>)
    requires ParseFrame(s).Some? && |frames| > 0 && ParseFrame(s).value.frame == frames[0]
    requires !Ends(codec, id, text, frames, 0)
    ensures var (a, b) := (Answer(codec, id, s, text), Answer(codec, id, ParseFrame(s).value.rest, Next(codec, text, frames[0])));
      a.outcome == b.outcome && a.rest == b.rest && a.pongs == Pings([frames[0]]) + b.pongs
  {
    hide ParseFrame;
    assert frames[..0] == [];
    assert [frames[0]][1..] == [];
  }

  lemma EndsAtOnce(codec: Codec, id: nat, text: string, s: ByteString, frames: seq<Frame>)
    requires ParseFrame(s).Some? && |frames| > 0 && ParseFrame(s).value.frame == frames[0]
    requires Ends(codec, id, text, frames, 0)
    ensures Answer(codec, id, s, text) == Answered(EndOf(codec, id, text, frames, 0), [], ParseFrame(s).value.rest)
  {
    hide ParseFrame;
    assert frames[..0] == [];
  }

  lemma PingsCons(frames: seq<Frame>, k: nat)
    requires 0 < k <= |frames|
    ensures Pings(frames[..k]) == Pings([frames[0]]) + Pings(frames[1..][..k - 1])
  {
    assert frames[..k][1..] == frames[1..][..k - 1] && [frames[0]][1..] == [];
  }

  /** On every stream, fragments or not, the call is decided by the first frame that ends it: its outcome is that
      frame's, the stream goes on just after it, and every ping before it has been answered, in order. */
  lemma {:induction false} FirstEndDecides(codec: Codec, id: nat, text: string, s: ByteString, frames: seq<Frame>,
                                           rest: ByteString, k: nat)
    requires HoldsFrames(s, frames, rest) && k < |frames| && Ends(codec, id, text, frames, k)
    requires forall i :: 0 <= i < k ==> !Ends(codec, id, text, frames, i)
    ensures var a := Answer(codec, id, s, text);
      && a.outcome == EndOf(codec, id, text, frames, k) && a.pongs == Pings(frames[..k])
      && HoldsFrames(a.rest, frames[k + 1..], rest)
    decreases k
  {
    hide ParseFrame, Next, Ends, EndOf, Answer;
    if k == 0 {
      assert frames[..0] == [];
      EndsAtOnce(codec, id, text, s, frames);
    } else {
      hide Pings;
      PassOver(codec, id, text, s, frames);
      AllEndLater(codec, id, text, frames);
      FirstEndDecides(codec, id, Next(codec, text, frames[0]), ParseFrame(s).value.rest, frames[1..], rest, k - 1);
      EndsLater(codec, id, text, frames, k);
      assert frames[1..][k..] == frames[k + 1..];
      PingsCons(frames, k);
    }
  }

  /** When no frame ends the call it fails once the stream runs out, all pings answered. */
  lemma {:induction false} NoEndFails(codec: Codec, id: nat, text: string, s: ByteString, frames: seq<Frame>, rest: ByteString)
    requires HoldsFrames(s, frames, rest) && ParseFrame(rest).None?
    requires forall i :: 0 <= i < |frames| ==> !Ends(codec, id, text, frames, i)
    ensures Answer(codec, id, s, text) == Answered(Failure(Closed), Pings(frames), [])
    decreases |frames|
  {
    hide ParseFrame, Next, Ends;
    if |frames| == 0 {
      assert s == rest;
    } else {
      hide Answer;
      PassOver(codec, id, text, s, frames);
      AllEndLater(codec, id, text, frames);
      NoEndFails(codec, id, Next(codec, text, frames[0]), ParseFrame(s).value.rest, frames[1..], rest);
      assert [frames[0]][1..] == [];
    }
  }

  // ---------------------------------------------------------------- when a message is read as it was sent

  /** The payload of the message begun and not finished, as section 5.4 of RFC 6455 puts fragments together: a data frame
      begins a message and continuation frames go on with it, up to a final one. */
  function Unfinished(frames: seq<Frame>): Option<ByteString> {
    if |frames| == 0 then None
    else
      var before, last := Unfinished(frames[..|frames| - 1]), frames[|frames| - 1];
      if IsData(last) then if last.fin then None else Some(last.payload)
      else if last.opcode != OP_CONTINUATION || before.None? then before
      else if last.fin then None else Some(before.value + last.payload)
  }

  /** The text of the message that the frame completes. */
  function WholeText(codec: Codec, frames: seq<Frame>, k: nat): Option<string>
    requires k < |frames|
  {
    var f, before := frames[k], Unfinished(frames[..k]);
    if !f.fin then None
    else if IsData(f) then Some(codec.decode(f.payload))
    else if f.opcode == OP_CONTINUATION && before.Some? then Some(codec.decode(before.value + f.payload))
    else None
  }

  /** The data frame before the `k`-th has no final data frame from itself on up to there. */
  ghost predicate Pending(frames: seq<Frame>, i: int, k: nat)
    requires k <= |frames|
  {
    0 <= i < k && IsData(frames[i]) && forall j :: i <= j < k && IsData(frames[j]) ==> !frames[j].fin
  }

  /** Nothing is carried exactly when all data frames since the last final one have no text. */
  lemma {:induction false} NothingCarriedIff(codec: Codec, frames: seq<Frame>, k: nat)
    requires k <= |frames|
    ensures Carried(codec, "", frames[..k]) == "" <==> forall i :: Pending(frames, i, k) ==> codec.decode(frames[i].payload) == ""
    decreases k
  {
    if k > 0 {
      NothingCarriedIff(codec, frames, k - 1);
      assert frames[..k][..k - 1] == frames[..k - 1];
      var f := frames[k - 1];
      if !IsData(f) || !f.fin {
        forall i | 0 <= i < k - 1
          ensures Pending(frames, i, k) <==> Pending(frames, i, k - 1)
        {
        }
        assert Pending(frames, k - 1, k) <==> IsData(f);
      }
    }
  }

  /** At a message's last frame the call looks at the message's whole text exactly when the message came in one frame
      and the data frames pending before it, the beginnings of fragmented messages, have no text. */
  lemma WholeTextIsReadIff(codec: Codec, frames: seq<Frame>, k: nat)
    requires k < |frames| && WholeText(codec, frames, k).Some?
    ensures ReadAt(codec, "", frames, k) == WholeText(codec, frames, k)
       <==> IsData(frames[k]) && forall i :: Pending(frames, i, k) ==> codec.decode(frames[i].payload) == ""
  {
    hide Carried, Unfinished;
    NothingCarriedIff(codec, frames, k);
    var carried, own := Carried(codec, "", frames[..k]), codec.decode(frames[k].payload);
    assert carried + own == own ==> |carried| == 0;
    assert carried == "" ==> carried + own == own;
  }

  /** The message completed by the frame is the object with the call's id, as its peer sent it. */
  predicate IsResponse(codec: Codec, id: nat, frames: seq<Frame>, k: nat, json: Json)
    requires k < |frames|
  {
    var whole := WholeText(codec, frames, k);
    whole.Some? && codec.loads(whole.value) == Some(json) && json.Object? && json.id == Some(id)
  }

  /** What the call makes of its response: an error is raised. */
  function Given(json: Json): Result<Json, CallError>
    requires json.Object?
  {
    if json.error then Failure(RemoteError) else Success(json)
  }

  /** A response in one frame is given to the caller if nothing ends the call before it and no text is pending. */
  lemma FirstResponseIsReturned(codec: Codec, id: nat, s: ByteString, frames: seq<Frame>, rest: ByteString, k: nat, json: Json)
    requires HoldsFrames(s, frames, rest) && k < |frames| && IsResponse(codec, id, frames, k, json) && IsData(frames[k])
    requires forall i :: Pending(frames, i, k) ==> codec.decode(frames[i].payload) == ""
    requires forall i :: 0 <= i < k ==> !Ends(codec, id, "", frames, i)
    ensures var a := Answer(codec, id, s, "");
      && a.outcome == Given(json) && a.pongs == Pings(frames[..k]) && HoldsFrames(a.rest, frames[k + 1..], rest)
  {
    hide Answer, Pending, HoldsFrames, Pings, Carried;
    WholeTextIsReadIff(codec, frames, k);
    FirstEndDecides(codec, id, "", s, frames, rest, k);
  }

  /** On a stream that has nothing else to end the call and no text pending, the response is returned exactly when it
      came in one frame. With text pending it must also read the same behind that text; in fragments it is lost. */
  lemma ResponseIsReturnedIff(codec: Codec, id: nat, s: ByteString, frames: seq<Frame>, rest: ByteString, k: nat, json: Json)
    requires HoldsFrames(s, frames, rest) && ParseFrame(rest).None?
    requires k < |frames| && IsResponse(codec, id, frames, k, json) && !json.error
    requires forall i :: 0 <= i < |frames| && i != k ==> !Ends(codec, id, "", frames, i)
    ensures (forall i :: Pending(frames, i, k) ==> codec.decode(frames[i].payload) == "") ==>
              (Answer(codec, id, s, "").outcome == Success(json) <==> IsData(frames[k]))
    ensures Answer(codec, id, s, "").outcome == Success(json)
       <==> && IsData(frames[k])
            && codec.loads(Carried(codec, "", frames[..k]) + codec.decode(frames[k].payload)) == Some(json)
    ensures !IsData(frames[k]) ==> Answer(codec, id, s, "").outcome == Failure(Closed)
  {
    hide Answer, HoldsFrames, Pings, Carried, ParseFrame, Unfinished, Pending;
    WholeTextIsReadIff(codec, frames, k);
    if Ends(codec, id, "", frames, k) {
      FirstEndDecides(codec, id, "", s, frames, rest, k);
    } else {
      NoEndFails(codec, id, "", s, frames, rest);
    }
  }

  /** Whatever the stream, what a call returns is an object read from some text, with the call's own id and no error. */
  lemma {:induction false} AnswersAreOwn(codec: Codec, id: nat, s: ByteString, text: string)
    requires Answer(codec, id, s, text).outcome.Success?
    ensures var json := Answer(codec, id, s, text).outcome.value;
      && json.Object? && json.id == Some(id) && !json.error && exists t :: codec.loads(t) == Some(json)
    decreases |s|
  {
    hide ParseFrame;
    var Parsed(f, rest) := ParseFrame(s).value;
    if f.opcode == OP_PING || f.opcode == OP_PONG || !IsData(f) {
      AnswersAreOwn(codec, id, rest, text);
    } else {
      var full := text + codec.decode(f.payload);
      if !f.fin {
        AnswersAreOwn(codec, id, rest, full);
      } else if !Concerns(codec, id, full) {
        AnswersAreOwn(codec, id, rest, "");
      }
    }
  }

  // ---------------------------------------------------------------- a response that is lost

  /** Text as its bytes, and "ab" the response to the first call. */
  function SmallCodec(): Codec {
    Codec((b: ByteString) => seq(|b|, i requires 0 <= i < |b| => b[i] as char),
          (t: string) => if t == "ab" then Some(Object(Some(1), false, t)) else None, (id: nat) => [])
  }

  const HALVES: seq<Frame> := [Frame(false, OP_TEXT, [97]), Frame(true, OP_CONTINUATION, [98])]

  lemma HalvesParse()
    ensures HoldsFrames([0x01, 1, 97, 0x80, 1, 98], HALVES, [])
  {
    var s: ByteString := [0x01, 1, 97, 0x80, 1, 98];
    assert s[2..2] == [] && s[2..3] == [97] && s[3..] == [0x80, 1, 98];
    assert ParseFrame(s) == Some(Parsed(HALVES[0], s[3..]));
    var t := s[3..];
    assert t[2..3] == [98] && t[3..] == [];
    assert ParseFrame(t) == Some(Parsed(HALVES[1], t[3..]));
    assert HALVES[1..] == [HALVES[1]] && [HALVES[1]][1..] == [];
    assert HoldsFrames([], [], []);
    assert HoldsFrames(t, HALVES[1..], []);
  }

  /** The response "ab" in two fragments is lost. */
  lemma FragmentedResponseIsLost()
    ensures IsResponse(SmallCodec(), 1, HALVES, 1, Object(Some(1), false, "ab"))
    ensures Answer(SmallCodec(), 1, [0x01, 1, 97, 0x80, 1, 98], "").outcome == Failure(Closed)
  {
    HalvesParse();
    hide HoldsFrames;
    var codec := SmallCodec();
    assert HALVES[..1] == [HALVES[0]] && HALVES[..1][..0] == [];
    assert Unfinished(HALVES[..1]) == Some([97]);
    assert codec.decode([97] + [98]) == "ab";
    ResponseIsReturnedIff(codec, 1, [0x01, 1, 97, 0x80, 1, 98], HALVES, [], 1, Object(Some(1), false, "ab"));
  }
}
