/**
 The reader of the trading stream: exact reads over a socket that chunks bytes as it likes,
 and whole messages put together from fragments, with pings answered along the way.
 */
module WebSocketReader {
  import opened Outcomes
  import opened Sequences
  import opened WebSocketFrames

  datatype StreamRefused = ClosedMidFrame

  /** The server's side of the connection, as the bytes it has still to deliver before it closes. */
  class Socket {
    var incoming: Bytes

    constructor (incoming: Bytes)
      ensures this.incoming == incoming
    {
      this.incoming := incoming;
    }

    /** Some of the next bytes, at most `limit`; none only at the end of the stream. */
    method Recv(limit: nat) returns (chunk: Bytes)
      requires limit > 0
      modifies this
      ensures |chunk| <= limit && (chunk == [] <==> old(incoming) == [])
      ensures old(incoming) == chunk + incoming
    {
      var most := if |incoming| < limit then |incoming| else limit;
      if most == 0 {
        return [];
      }
      var size :| 1 <= size <= most;
      chunk, incoming := incoming[..size], incoming[size..];
    }
  }

  /** Read `count` bytes, however they arrive. */
  method ReadExact(sock: Socket, count: nat) returns (r: Result<Bytes, StreamRefused>)
    modifies sock
    ensures
      var stream := old(sock.incoming);
      if count <= |stream| then r == Ok(stream[..count]) && sock.incoming == stream[count..]
      else r == Err(ClosedMidFrame) && sock.incoming == []
  {
    var chunks: Bytes := [];
    var left := count;
    while left > 0
      invariant old(sock.incoming) == chunks + sock.incoming
      invariant 0 <= left && |chunks| + left == count
    {
      var chunk := sock.Recv(if left < 65536 then left else 65536);
      if chunk == [] {
        return Err(ClosedMidFrame);
      }
      chunks := chunks + chunk;
      left := left - |chunk|;
    }
    SplitAt(old(sock.incoming), chunks, sock.incoming);
    return Ok(chunks);
  }

  /** What one call of `read_message` comes to, the bytes it leaves, and the payloads it answered as pongs. */
  datatype Reading =
    | Message(opcode: Byte, payload: Bytes, rest: Bytes, pongs: seq<Bytes>)
    | ServerClosed(rest: Bytes, pongs: seq<Bytes>)
    | Dead(pongs: seq<Bytes>)

  /** The message so far: the opcode of its first fragment, and its payload. */
  datatype Partial = Partial(opcode: Option<Byte>, payload: Bytes)

  predicate IsData(opcode: Byte) {
    opcode == TEXT || opcode == BINARY || opcode == CONTINUATION
  }

  function Extended(p: Partial, f: Frame): (q: Partial)
    ensures q.opcode.Some?
  {
    Partial(if p.opcode.None? then Some(f.opcode) else p.opcode, p.payload + f.payload)
  }

  /** Reading frame after frame off the bytes `b`. */
  function ReadFrom(b: Bytes, p: Partial, pongs: seq<Bytes>): Reading
    decreases |b|
  {
    match TakeFrame(b)
    case None => Dead(pongs)
    case Some((f, rest)) =>
      if f.opcode == CLOSE then ServerClosed(rest, pongs)
      else if f.opcode == PING then ReadFrom(rest, p, pongs + [f.payload])
      else if !IsData(f.opcode) then ReadFrom(rest, p, pongs)
      else if f.fin then Message(Extended(p, f).opcode.value, Extended(p, f).payload, rest, pongs)
      else ReadFrom(rest, Extended(p, f), pongs)
  }

  /** Read the longer forms of the length, when `second` announces one; `field` is `second` and what follows. */
  method ReadLength(sock: Socket, second: Byte, ghost field: Bytes) returns (r: Result<nat, StreamRefused>)
    requires field == [second] + sock.incoming
    modifies sock
    ensures
      match DecodeLength(field)
      case None => r == Err(ClosedMidFrame)
      case Some(length) => r == Ok(length.length) && sock.incoming == field[length.used..]
  {
    var length := Low7(second) as nat;
    if length < 126 {
      return Ok(length);
    }
    ghost var stream := sock.incoming;
    var count := if length == 126 then 2 else 8;
    var extended := ReadExact(sock, count);
    if extended.Err? {
      return Err(ClosedMidFrame);
    }
    assert extended.value == field[1..1 + count] && stream[count..] == field[1 + count..];
    return Ok(Unpack(extended.value));
  }

  /** A frame, in terms of what follows its length. */
  lemma {:induction false} FrameAfterLength(stream: Bytes, length: Length, after: Bytes)
    requires |stream| >= 2 && DecodeLength(stream[1..]) == Some(length) && after == stream[1 + length.used..]
    ensures TakeFrame(stream) ==
      if |after| < length.length then None
      else Some((Frame(Bit7(stream[0]), Low4(stream[0]), after[..length.length]), after[length.length..]))
  {
    if length.length <= |after| {
      SliceAfterDrop(stream, 1 + length.used, length.length);
    }
  }

  /** Take one frame off the socket. */
  method ReadFrame(sock: Socket) returns (r: Result<Frame, StreamRefused>)
    modifies sock
    ensures
      match TakeFrame(old(sock.incoming))
      case None => r == Err(ClosedMidFrame)
      case Some((f, rest)) => r == Ok(f) && sock.incoming == rest
  {
    ghost var stream := sock.incoming;
    var head := ReadExact(sock, 2);
    if head.Err? {
      return Err(ClosedMidFrame);
    }
    var fin, opcode := Bit7(head.value[0]), Low4(head.value[0]);
    assert stream[1..] == [head.value[1]] + sock.incoming;
    var length := ReadLength(sock, head.value[1], stream[1..]);
    if length.Err? {
      return Err(ClosedMidFrame);
    }
    ghost var field := DecodeLength(stream[1..]).value;
    assert sock.incoming == stream[1 + field.used..];
    FrameAfterLength(stream, field, sock.incoming);
    var payload := ReadExact(sock, length.value);
    if payload.Err? {
      return Err(ClosedMidFrame);
    }
    return Ok(Frame(fin, opcode, payload.value));
  }

  /** One complete message; None when the server closes. */
  method ReadMessage(sock: Socket)
    returns (r: Result<Option<(Byte, Bytes)>, StreamRefused>, pongs: seq<Bytes>)
    modifies sock
    ensures
      match ReadFrom(old(sock.incoming), Partial(None, []), [])
      case Message(opcode, payload, rest, answered) =>
        r == Ok(Some((opcode, payload))) && sock.incoming == rest && pongs == answered
      case ServerClosed(rest, answered) => r == Ok(None) && sock.incoming == rest && pongs == answered
      case Dead(answered) => r == Err(ClosedMidFrame) && pongs == answered
  {
    var messageOpcode: Option<Byte> := None;
    var payload: Bytes := [];
    pongs := [];
    while true
      invariant ReadFrom(sock.incoming, Partial(messageOpcode, payload), pongs) ==
        ReadFrom(old(sock.incoming), Partial(None, []), [])
      decreases |sock.incoming|
    {
      var taken := ReadFrame(sock);
      if taken.Err? {
        return Err(ClosedMidFrame), pongs;
      }
      var frame := taken.value;
      if frame.opcode == CLOSE {
        return Ok(None), pongs;
      }
      if frame.opcode == PING {
        pongs := pongs + [frame.payload];
        continue;
      }
      if IsData(frame.opcode) {
        if messageOpcode.None? {
          messageOpcode := Some(frame.opcode);
        }
        payload := payload + frame.payload;
        if frame.fin {
          return Ok(Some((messageOpcode.value, payload))), pongs;
        }
      }
    }
  }

  // ----- conforming streams, sections 5.4 and 5.5 of RFC 6455 -----

  datatype Control = PingFrame(payload: Bytes) | PongFrame(payload: Bytes)

  /** One fragment of a message, and the control frames the server sent before it. */
  datatype Part = Part(controls: seq<Control>, fragment: Bytes)

  ghost predicate Sendable(parts: seq<Part>) {
    forall i :: 0 <= i < |parts| ==> |parts[i].fragment| < LENGTH_END && ControlsSendable(parts[i].controls)
  }

  ghost predicate ControlsSendable(cs: seq<Control>) {
    forall i :: 0 <= i < |cs| ==> |cs[i].payload| < LENGTH_END
  }

  /** Control frames are sent whole: a ping has opcode 0x9, a pong 0xA. */
  function ControlBytes(cs: seq<Control>): Bytes
    requires ControlsSendable(cs)
  {
    if |cs| == 0 then []
    else
      var opcode := match cs[0] { case PingFrame(_) => 0x9 case PongFrame(_) => 0xA };
      ServerFrame(Frame(true, opcode, cs[0].payload)) + ControlBytes(cs[1..])
  }

  /** The first `parts` of a message whose last fragment is yet to come. */
  function OpenBytes(opcode: Byte, parts: seq<Part>): Bytes
    requires IsData(opcode) && Sendable(parts)
  {
    if |parts| == 0 then []
    else
      ControlBytes(parts[0].controls) + ServerFrame(Frame(false, opcode, parts[0].fragment)) +
      OpenBytes(0x0, parts[1..])
  }

  /** A whole message: its first frame carries the opcode, the others continue it, the last is final. */
  function MessageBytes(opcode: Byte, parts: seq<Part>, last: Part): Bytes
    requires IsData(opcode) && Sendable(parts) && Sendable([last])
  {
    assert last == [last][0];
    OpenBytes(opcode, parts) + ControlBytes(last.controls) +
    ServerFrame(Frame(true, if |parts| == 0 then opcode else 0x0, last.fragment))
  }

  function PingsOf(cs: seq<Control>): seq<Bytes> {
    if |cs| == 0 then []
    else (if cs[0].PingFrame? then [cs[0].payload] else []) + PingsOf(cs[1..])
  }

  function AllPings(parts: seq<Part>): seq<Bytes> {
    if |parts| == 0 then [] else PingsOf(parts[0].controls) + AllPings(parts[1..])
  }

  function AllFragments(parts: seq<Part>): Bytes {
    if |parts| == 0 then [] else parts[0].fragment + AllFragments(parts[1..])
  }

  lemma {:induction false} ControlsAreAnswered(cs: seq<Control>, rest: Bytes, p: Partial, pongs: seq<Bytes>)
    requires ControlsSendable(cs)
    ensures ReadFrom(ControlBytes(cs) + rest, p, pongs) == ReadFrom(rest, p, pongs + PingsOf(cs))
  {
    if |cs| == 0 {
      assert ControlBytes(cs) + rest == rest && pongs + PingsOf(cs) == pongs;
    } else {
      var opcode := match cs[0] { case PingFrame(_) => PING case PongFrame(_) => PONG };
      var f := Frame(true, opcode, cs[0].payload);
      var later := ControlBytes(cs[1..]) + rest;
      Reassociate(ServerFrame(f), ControlBytes(cs[1..]), rest);
      ControlIsAnswered(f, later, p, pongs);
      var answered := if cs[0].PingFrame? then pongs + [cs[0].payload] else pongs;
      ControlsAreAnswered(cs[1..], rest, p, answered);
      assert answered + PingsOf(cs[1..]) == pongs + PingsOf(cs);
    }
  }

  lemma {:induction false} ControlIsAnswered(f: Frame, later: Bytes, p: Partial, pongs: seq<Bytes>)
    requires (f.opcode == PING || f.opcode == PONG) && |f.payload| < LENGTH_END
    ensures ReadFrom(ServerFrame(f) + later, p, pongs) ==
      ReadFrom(later, p, if f.opcode == PING then pongs + [f.payload] else pongs)
  {
    ServerFrameRoundTrip(f, later);
  }

  /** The partial message after fragments that began with `opcode`. */
  function PartialAfter(p: Partial, opcode: Byte, parts: seq<Part>): Partial {
    if |parts| == 0 then p
    else Partial(if p.opcode.None? then Some(opcode) else p.opcode, p.payload + AllFragments(parts))
  }

  /** Reading past one frame, with the control frames before it. */
  lemma {:induction false} OneFrame(cs: seq<Control>, f: Frame, later: Bytes, p: Partial, pongs: seq<Bytes>)
    requires ControlsSendable(cs) && f.opcode < 0x10 && |f.payload| < LENGTH_END
    ensures
      ReadFrom(ControlBytes(cs) + ServerFrame(f) + later, p, pongs) ==
      ReadFrom(ServerFrame(f) + later, p, pongs + PingsOf(cs))
    ensures TakeFrame(ServerFrame(f) + later) == Some((f, later))
  {
    Reassociate(ControlBytes(cs), ServerFrame(f), later);
    ControlsAreAnswered(cs, ServerFrame(f) + later, p, pongs);
    ServerFrameRoundTrip(f, later);
  }

  lemma {:induction false} FragmentRead(b: Bytes, f: Frame, rest: Bytes, p: Partial, pongs: seq<Bytes>)
    requires TakeFrame(b) == Some((f, rest)) && IsData(f.opcode)
    ensures ReadFrom(b, p, pongs) ==
      if f.fin then Message(Extended(p, f).opcode.value, Extended(p, f).payload, rest, pongs)
      else ReadFrom(rest, Extended(p, f), pongs)
  {
  }

  /** Reading past the first of several open parts. */
  lemma {:induction false} OneOpenPart(opcode: Byte, parts: seq<Part>, rest: Bytes, p: Partial, pongs: seq<Bytes>)
    requires IsData(opcode) && Sendable(parts) && |parts| > 0
    ensures ReadFrom(OpenBytes(opcode, parts) + rest, p, pongs) ==
      ReadFrom(OpenBytes(CONTINUATION, parts[1..]) + rest,
        Extended(p, Frame(false, opcode, parts[0].fragment)), pongs + PingsOf(parts[0].controls))
  {
    var f := Frame(false, opcode, parts[0].fragment);
    var begun := ControlBytes(parts[0].controls) + ServerFrame(f);
    Reassociate(begun, OpenBytes(CONTINUATION, parts[1..]), rest);
    var later := OpenBytes(CONTINUATION, parts[1..]) + rest;
    OneFrame(parts[0].controls, f, later, p, pongs);
    FragmentRead(ServerFrame(f) + later, f, later, p, pongs + PingsOf(parts[0].controls));
  }

  lemma {:induction false} PartialAfterFirst(p: Partial, opcode: Byte, parts: seq<Part>)
    requires |parts| > 0
    ensures PartialAfter(Extended(p, Frame(false, opcode, parts[0].fragment)), CONTINUATION, parts[1..]) ==
      PartialAfter(p, opcode, parts)
  {
    var next := Extended(p, Frame(false, opcode, parts[0].fragment));
    Reassociate(p.payload, parts[0].fragment, AllFragments(parts[1..]));
    assert |parts| == 1 ==> next.payload == next.payload + AllFragments(parts[1..]);
  }

  lemma {:induction false} FragmentsAccumulate(
    opcode: Byte, parts: seq<Part>, rest: Bytes, p: Partial, pongs: seq<Bytes>)
    requires IsData(opcode) && Sendable(parts)
    ensures ReadFrom(OpenBytes(opcode, parts) + rest, p, pongs) ==
      ReadFrom(rest, PartialAfter(p, opcode, parts), pongs + AllPings(parts))
  {
    if |parts| == 0 {
      assert OpenBytes(opcode, parts) + rest == rest && pongs + AllPings(parts) == pongs;
    } else {
      OneOpenPart(opcode, parts, rest, p, pongs);
      var next := Extended(p, Frame(false, opcode, parts[0].fragment));
      var answered := pongs + PingsOf(parts[0].controls);
      FragmentsAccumulate(CONTINUATION, parts[1..], rest, next, answered);
      Reassociate(pongs, PingsOf(parts[0].controls), AllPings(parts[1..]));
      PartialAfterFirst(p, opcode, parts);
    }
  }

  /** A frame with an opcode that section 5.2 reserves, or a pong, changes nothing. */
  lemma {:induction false} OtherFramesAreSkipped(f: Frame, later: Bytes, p: Partial, pongs: seq<Bytes>)
    requires f.opcode < 0x10 && f.opcode !in {0x0, 0x1, 0x2, 0x8, 0x9} && |f.payload| < LENGTH_END
    ensures ReadFrom(ServerFrame(f) + later, p, pongs) == ReadFrom(later, p, pongs)
  {
    ServerFrameRoundTrip(f, later);
  }

  /** What has been read when the controls before the closing frame of a stream are answered. */
  lemma {:induction false} UpToLastFrame(opcode: Byte, parts: seq<Part>, controls: seq<Control>, f: Frame, rest: Bytes)
    requires IsData(opcode) && Sendable(parts) && ControlsSendable(controls)
    requires f.opcode < 0x10 && |f.payload| < LENGTH_END
    ensures
      ReadFrom(OpenBytes(opcode, parts) + ControlBytes(controls) + ServerFrame(f) + rest, Partial(None, []), []) ==
      ReadFrom(ServerFrame(f) + rest, PartialAfter(Partial(None, []), opcode, parts), AllPings(parts) + PingsOf(controls))
    ensures TakeFrame(ServerFrame(f) + rest) == Some((f, rest))
  {
    var tail := ControlBytes(controls) + ServerFrame(f) + rest;
    Reassociate(OpenBytes(opcode, parts), ControlBytes(controls), ServerFrame(f));
    Reassociate(OpenBytes(opcode, parts), ControlBytes(controls) + ServerFrame(f), rest);
    FragmentsAccumulate(opcode, parts, tail, Partial(None, []), []);
    assert [] + AllPings(parts) == AllPings(parts);
    OneFrame(controls, f, rest, PartialAfter(Partial(None, []), opcode, parts), AllPings(parts));
  }

  /**
   A conforming message comes back whole, however it is fragmented: its opcode, its fragments
   joined, one pong for each ping in order with the same payload, and exactly its bytes consumed.
   */
  lemma {:induction false} MessagesAreReassembled(opcode: Byte, parts: seq<Part>, last: Part, rest: Bytes)
    requires (opcode == 0x1 || opcode == 0x2) && Sendable(parts) && Sendable([last])
    ensures ReadFrom(MessageBytes(opcode, parts, last) + rest, Partial(None, []), []) ==
      Message(opcode, AllFragments(parts) + last.fragment, rest, AllPings(parts) + PingsOf(last.controls))
  {
    assert last == [last][0];
    var f := Frame(true, if |parts| == 0 then opcode else CONTINUATION, last.fragment);
    var p := PartialAfter(Partial(None, []), opcode, parts);
    UpToLastFrame(opcode, parts, last.controls, f, rest);
    FragmentRead(ServerFrame(f) + rest, f, rest, p, AllPings(parts) + PingsOf(last.controls));
    assert p.payload == AllFragments(parts);
  }

  /** A close frame ends the read at once, even inside a message, after the pings before it are answered. */
  lemma {:induction false} CloseEndsTheRead(opcode: Byte, parts: seq<Part>, controls: seq<Control>, reason: Bytes, rest: Bytes)
    requires (opcode == 0x1 || opcode == 0x2) && Sendable(parts) && ControlsSendable(controls)
    requires |reason| < LENGTH_END
    ensures
      var stream := OpenBytes(opcode, parts) + ControlBytes(controls) + ServerFrame(Frame(true, 0x8, reason)) + rest;
      ReadFrom(stream, Partial(None, []), []) == ServerClosed(rest, AllPings(parts) + PingsOf(controls))
  {
    UpToLastFrame(opcode, parts, controls, Frame(true, CLOSE, reason), rest);
  }
}
