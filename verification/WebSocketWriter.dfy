/** The client's side of the stream: frames masked and appended to the connection's output. */
module WebSocketWriter {
  import opened Outcomes
  import opened WebSocketFrames

  datatype SendError = NotConnected

  /** A frame to send, with the random key that masks it. */
  datatype Outgoing = Outgoing(opcode: Byte, payload: Bytes, key: Bytes) {
    ghost predicate Valid() {
      opcode < 0x10 && |key| == 4 && |payload| < LENGTH_LIMIT
    }
  }

  class TradeUpdatesStream {
    var connected: bool
    var sent: Bytes

    constructor (connected: bool)
      ensures this.connected == connected && sent == []
    {
      this.connected := connected;
      sent := [];
    }

    /** Send one final frame; under the send lock no other frame's bytes come between its own. */
    method SendFrame(frame: Outgoing) returns (r: Result<(), SendError>)
      requires frame.Valid()
      modifies this`sent
      ensures r == if connected then Ok(()) else Err(NotConnected)
      ensures sent == if connected then old(sent) + BytesOf(frame) else old(sent)
    {
      if !connected {
        return Err(NotConnected);
      }
      var length := |frame.payload|;
      var header := [WithBit7(true, frame.opcode)];
      if length < 126 {
        header := header + [WithBit7(true, length as Byte)];
      } else if length < 65536 {
        WidthBounds();
        header := header + ([WithBit7(true, 126)] + Pack(length, 2));
      } else {
        WidthBounds();
        header := header + ([WithBit7(true, 127)] + Pack(length, 8));
      }
      var masked: Bytes := [];
      for i := 0 to length
        invariant masked == Masked(frame.payload[..i], frame.key)
      {
        assert frame.payload[..i + 1][..i] == frame.payload[..i];
        masked := masked + [Xor(frame.payload[i], frame.key[i % 4])];
      }
      assert frame.payload[..length] == frame.payload;
      sent := sent + (header + frame.key + masked);
      return Ok(());
    }
  }

  function BytesOf(frame: Outgoing): Bytes
    requires frame.Valid()
  {
    ClientFrame(frame.opcode, frame.payload, frame.key)
  }

  lemma {:induction false} XorWithZero(a: nat, bits: nat)
    requires a < Power2(bits)
    ensures XorBits(a, 0, bits) == a
  {
    if bits > 0 {
      XorWithZero(a / 2, bits - 1);
    }
  }

  /** The text `A` under the key 1, 2, 3, 4, octet by octet. */
  lemma {:induction false} MaskedA(frame: Outgoing)
    requires frame == Outgoing(TEXT, [0x41], [1, 2, 3, 4])
    ensures BytesOf(frame) == [0x81, 0x81, 1, 2, 3, 4, 0x40]
  {
    ByteIsEightBits();
    XorWithZero(0x20, 7);
    assert XorBits(0x41, 1, 8) == 2 * XorBits(0x20, 0, 7) + 0;
    assert Xor(0x41, 1) == 0x40;
    assert frame.payload[..0] == [];
    assert Masked(frame.payload, frame.key) == [Xor(0x41, 1)];
  }

  ghost predicate AllValid(frames: seq<Outgoing>) {
    forall i :: 0 <= i < |frames| ==> frames[i].Valid()
  }

  /** What a connection has sent after these calls of `SendFrame`. */
  function SentBytes(frames: seq<Outgoing>): Bytes
    requires AllValid(frames)
  {
    if |frames| == 0 then [] else SentBytes(frames[..|frames| - 1]) + BytesOf(frames[|frames| - 1])
  }

  /** The frames those calls meant. */
  function FramesOf(frames: seq<Outgoing>): seq<Frame> {
    if |frames| == 0 then []
    else
      var last := frames[|frames| - 1];
      FramesOf(frames[..|frames| - 1]) + [Frame(true, last.opcode, last.payload)]
  }

  /** A peer's reading of a whole client stream; None when it breaks the RFC anywhere. */
  function DecodeStream(b: Bytes): Option<seq<Frame>>
    decreases |b|
  {
    if b == [] then Some([])
    else
      match DecodeClientFrame(b)
      case None => None
      case Some((f, rest)) =>
        match DecodeStream(rest)
        case None => None
        case Some(fs) => Some([f] + fs)
  }

  function Before(fs: seq<Frame>, later: Option<seq<Frame>>): Option<seq<Frame>> {
    match later
    case None => None
    case Some(gs) => Some(fs + gs)
  }

  lemma {:induction false} DecodeOneFrame(frame: Outgoing, rest: Bytes)
    requires frame.Valid()
    ensures DecodeStream(BytesOf(frame) + rest) ==
      Before([Frame(true, frame.opcode, frame.payload)], DecodeStream(rest))
  {
    ClientFrameRoundTrip(frame.opcode, frame.payload, frame.key, rest);
  }

  lemma {:induction false} JoinReadings(sent: Bytes, one: Bytes, rest: Bytes, fs: seq<Frame>, f: Frame)
    requires DecodeStream(sent + (one + rest)) == Before(fs, DecodeStream(one + rest))
    requires DecodeStream(one + rest) == Before([f], DecodeStream(rest))
    ensures DecodeStream(sent + one + rest) == Before(fs + [f], DecodeStream(rest))
  {
    assert sent + one + rest == sent + (one + rest);
    match DecodeStream(rest) {
      case None =>
      case Some(gs) => assert fs + ([f] + gs) == fs + [f] + gs;
    }
  }

  lemma {:induction false} DecodeSent(frames: seq<Outgoing>, rest: Bytes)
    requires AllValid(frames)
    ensures DecodeStream(SentBytes(frames) + rest) == Before(FramesOf(frames), DecodeStream(rest))
  {
    if |frames| == 0 {
      assert SentBytes(frames) + rest == rest;
      assert DecodeStream(rest).Some? ==> [] + DecodeStream(rest).value == DecodeStream(rest).value;
    } else {
      var earlier, last := frames[..|frames| - 1], frames[|frames| - 1];
      DecodeSent(earlier, BytesOf(last) + rest);
      DecodeOneFrame(last, rest);
      JoinReadings(SentBytes(earlier), BytesOf(last), rest, FramesOf(earlier), Frame(true, last.opcode, last.payload));
    }
  }

  /** The frames a peer decodes from everything sent are exactly the frames sent, in order. */
  lemma {:induction false} PeerReadsEveryFrame(frames: seq<Outgoing>)
    requires AllValid(frames)
    ensures DecodeStream(SentBytes(frames)) == Some(FramesOf(frames))
  {
    var sent := SentBytes(frames);
    DecodeSent(frames, []);
    assert sent + [] == sent && FramesOf(frames) + [] == FramesOf(frames);
    assert DecodeStream([]) == Some([]);
  }
}
