/**
 WebSocket frames as bytes: the client's masked frames against the decoding that sections
 5.2 and 5.3 of RFC 6455 prescribe, and the server's unmasked frames as the RFC encodes them.
 */
module WebSocketFrames {
  import opened Outcomes

  newtype Byte = n: int | 0 <= n < 256
  type Bytes = seq<Byte>

  const CONTINUATION: Byte := 0x0
  const TEXT: Byte := 0x1
  const BINARY: Byte := 0x2
  const CLOSE: Byte := 0x8
  const PING: Byte := 0x9
  const PONG: Byte := 0xA

  // ----- network byte order -----

  function Power256(n: nat): nat {
    if n == 0 then 1 else 256 * Power256(n - 1)
  }

  /** One more than the longest length a 64-bit field holds. */
  const LENGTH_END: nat := 0x1_0000_0000_0000_0000

  lemma {:induction false} WidthBounds()
    ensures Power256(1) == 256 && Power256(2) == 65536 && Power256(8) == LENGTH_END
  {
    assert Power256(3) == 256 * Power256(2) && Power256(4) == 256 * Power256(3);
    assert Power256(5) == 256 * Power256(4) && Power256(6) == 256 * Power256(5);
    assert Power256(7) == 256 * Power256(6);
  }

  /** `value` in `width` bytes, most significant first. */
  function Pack(value: nat, width: nat): (b: Bytes)
    requires value < Power256(width)
    ensures |b| == width
    decreases width
  {
    if width == 0 then [] else Pack(value / 256, width - 1) + [(value % 256) as Byte]
  }

  function Unpack(b: Bytes): nat {
    if |b| == 0 then 0 else 256 * Unpack(b[..|b| - 1]) + b[|b| - 1] as nat
  }

  lemma {:induction false} UnpackSnoc(b: Bytes, last: Byte)
    ensures Unpack(b + [last]) == 256 * Unpack(b) + last as nat
  {
    assert (b + [last])[..|b|] == b;
  }

  lemma {:induction false} UnpackPack(value: nat, width: nat)
    requires value < Power256(width)
    ensures Unpack(Pack(value, width)) == value
  {
    if width > 0 {
      UnpackPack(value / 256, width - 1);
      UnpackSnoc(Pack(value / 256, width - 1), (value % 256) as Byte);
    }
  }

  lemma {:induction false} UnpackIsBounded(b: Bytes)
    ensures Unpack(b) < Power256(|b|)
  {
    if |b| > 0 {
      UnpackIsBounded(b[..|b| - 1]);
      assert b[|b| - 1] as nat <= 255;
    }
  }

  // ----- bits -----

  /** `0x80 | low` or `low`, for a value of seven bits. */
  function WithBit7(bit: bool, low: Byte): Byte
    requires low < 0x80
  {
    if bit then 0x80 + low else low
  }

  /** Whether `b & 0x80` is set. */
  predicate Bit7(b: Byte) {
    b >= 0x80
  }

  /** `b & 0x7F`. */
  function Low7(b: Byte): (low: Byte)
    ensures low < 0x80
  {
    if b >= 0x80 then b - 0x80 else b
  }

  /** `b & 0x0F`. */
  function Low4(b: Byte): (low: Byte)
    ensures low < 0x10
  {
    b % 0x10
  }

  lemma {:induction false} OpcodeByte(bit: bool, opcode: Byte)
    requires opcode < 0x10
    ensures
      var head := WithBit7(bit, opcode);
      Bit7(head) == bit && Low7(head) == opcode && Low4(head) == opcode
  {
  }

  /** Exclusive or of the lowest `bits` bits. */
  function XorBits(a: nat, b: nat, bits: nat): nat {
    if bits == 0 then 0 else 2 * XorBits(a / 2, b / 2, bits - 1) + (a + b) % 2
  }

  function Power2(n: nat): nat {
    if n == 0 then 1 else 2 * Power2(n - 1)
  }

  lemma {:induction false} Halves(q: nat, r: nat)
    requires r < 2
    ensures (2 * q + r) / 2 == q && (2 * q + r) % 2 == r
  {
  }

  lemma {:induction false} ParityTwice(a: nat, b: nat, x: nat)
    requires x % 2 == (a + b) % 2
    ensures (x + b) % 2 == a % 2
  {
  }

  lemma {:induction false} XorBitsTwice(a: nat, b: nat, bits: nat)
    requires a < Power2(bits)
    ensures XorBits(a, b, bits) < Power2(bits)
    ensures XorBits(XorBits(a, b, bits), b, bits) == a
  {
    if bits > 0 {
      var half := XorBits(a / 2, b / 2, bits - 1);
      XorBitsTwice(a / 2, b / 2, bits - 1);
      Halves(half, (a + b) % 2);
      ParityTwice(a, b, XorBits(a, b, bits));
    }
  }

  lemma {:induction false} ByteIsEightBits()
    ensures Power2(8) == 256
  {
    assert Power2(4) == 16 && Power2(6) == 4 * Power2(4);
  }

  function Xor(a: Byte, b: Byte): Byte {
    ByteIsEightBits();
    XorBitsTwice(a as nat, b as nat, 8);
    XorBits(a as nat, b as nat, 8) as Byte
  }

  lemma {:induction false} XorTwice(a: Byte, b: Byte)
    ensures Xor(Xor(a, b), b) == a
  {
    ByteIsEightBits();
    XorBitsTwice(a as nat, b as nat, 8);
  }

  // ----- bits, by their place values -----

  /** Bit `j` of `n`. */
  predicate BitSet(n: nat, j: nat) {
    PowersArePositive(j);
    n / Power2(j) % 2 == 1
  }

  lemma {:induction false} PowersArePositive(n: nat)
    ensures Power2(n) > 0
  {
    if n > 0 {
      PowersArePositive(n - 1);
    }
  }

  lemma {:induction false} QuotientIs(n: nat, d: nat, q: nat, r: nat)
    requires r < d && n == q * d + r
    ensures n / d == q
  {
    var e := n / d - q;
    assert n == n / d * d + n % d;
    assert e * d == r - n % d;
    MultipleOf(e, d);
  }

  lemma {:induction false} MultipleOf(e: int, d: int)
    requires d > 0
    ensures (e > 0 ==> e * d >= d) && (e < 0 ==> e * d <= -d)
  {
  }

  /** Dropping the lowest bit moves every other one place down. */
  lemma {:induction false} BitOfHalf(n: nat, j: nat)
    ensures BitSet(n, 0) <==> n % 2 == 1
    ensures BitSet(n, j + 1) <==> BitSet(n / 2, j)
  {
    var p := Power2(j);
    PowersArePositive(j);
    var q, r := n / 2 / p, n / 2 % p;
    assert n / 2 == q * p + r;
    assert n == q * (2 * p) + (2 * r + n % 2);
    QuotientIs(n, 2 * p, q, 2 * r + n % 2);
  }

  lemma {:induction false} OddSum(a: nat, b: nat)
    ensures (a + b) % 2 == 1 <==> (a % 2 == 1) != (b % 2 == 1)
  {
  }

  lemma {:induction false} XorBitsBit(a: nat, b: nat, bits: nat, j: nat)
    requires j < bits
    ensures BitSet(XorBits(a, b, bits), j) <==> BitSet(a, j) != BitSet(b, j)
    decreases bits
  {
    var x, half := XorBits(a, b, bits), XorBits(a / 2, b / 2, bits - 1);
    Halves(half, (a + b) % 2);
    OddSum(a, b);
    var below := if j > 0 then j - 1 else 0;
    BitOfHalf(a, below);
    BitOfHalf(b, below);
    BitOfHalf(x, below);
    if j > 0 {
      XorBitsBit(a / 2, b / 2, bits - 1, j - 1);
    }
  }

  /** The number of `bits` bits that is set exactly where the two differ, by place values. */
  function Difference(a: nat, b: nat, bits: nat): nat {
    if bits == 0 then 0
    else Difference(a, b, bits - 1) + if BitSet(a, bits - 1) != BitSet(b, bits - 1) then Power2(bits - 1) else 0
  }

  lemma {:induction false} XorBitsTop(a: nat, b: nat, bits: nat)
    ensures XorBits(a, b, bits + 1) ==
      XorBits(a, b, bits) + if BitSet(a, bits) != BitSet(b, bits) then Power2(bits) else 0
  {
    OddSum(a, b);
    BitOfHalf(a, 0);
    BitOfHalf(b, 0);
    if bits > 0 {
      BitOfHalf(a, bits - 1);
      BitOfHalf(b, bits - 1);
      XorBitsTop(a / 2, b / 2, bits - 1);
    }
  }

  lemma {:induction false} XorBitsIsDifference(a: nat, b: nat, bits: nat)
    ensures XorBits(a, b, bits) == Difference(a, b, bits)
  {
    if bits > 0 {
      XorBitsIsDifference(a, b, bits - 1);
      XorBitsTop(a, b, bits - 1);
    }
  }

  // ----- masking, section 5.3 -----

  /** Each payload byte xored with the key byte at its position modulo 4. */
  function Masked(payload: Bytes, key: Bytes): (m: Bytes)
    requires |key| == 4
    ensures |m| == |payload|
    ensures forall i :: 0 <= i < |payload| ==> m[i] == Xor(payload[i], key[i % 4])
  {
    if |payload| == 0 then []
    else
      var n := |payload| - 1;
      Masked(payload[..n], key) + [Xor(payload[n], key[n % 4])]
  }

  /** Every bit of an octet sent is set exactly when the payload's bit and the key's differ there. */
  lemma {:induction false} MaskedBits(payload: Bytes, key: Bytes, i: nat, j: nat)
    requires |key| == 4 && i < |payload| && j < 8
    ensures
      BitSet(Masked(payload, key)[i] as nat, j) <==>
      BitSet(payload[i] as nat, j) != BitSet(key[i % 4] as nat, j)
  {
    XorBitsBit(payload[i] as nat, key[i % 4] as nat, 8, j);
  }

  /** What a peer makes of masked octets: each has the bits in which it and the key's octet differ. */
  function Unmasked(masked: Bytes, key: Bytes): (payload: Bytes)
    requires |key| == 4
    ensures |payload| == |masked|
  {
    if |masked| == 0 then []
    else
      var n := |masked| - 1;
      DifferenceIsAByte(masked[n], key[n % 4]);
      Unmasked(masked[..n], key) + [Difference(masked[n] as nat, key[n % 4] as nat, 8) as Byte]
  }

  lemma {:induction false} DifferenceIsAByte(a: Byte, b: Byte)
    ensures Difference(a as nat, b as nat, 8) == Xor(a, b) as nat
  {
    XorBitsIsDifference(a as nat, b as nat, 8);
  }

  /** A peer that goes by the bits gets the payload back. */
  lemma {:induction false} UnmaskMasked(payload: Bytes, key: Bytes)
    requires |key| == 4
    ensures Unmasked(Masked(payload, key), key) == payload
  {
    if |payload| > 0 {
      var n := |payload| - 1;
      var m := Masked(payload, key);
      UnmaskMasked(payload[..n], key);
      DifferenceIsAByte(m[n], key[n % 4]);
      XorTwice(payload[n], key[n % 4]);
      assert m[..n] == Masked(payload[..n], key);
      assert payload == payload[..n] + [payload[n]];
    }
  }

  // ----- the length field, section 5.2 -----

  /** The length in the first of its three forms that holds it: 7 bits, 126 and 16 bits, 127 and 64 bits. */
  function LengthField(length: nat, masked: bool): Bytes
    requires length < LENGTH_END
  {
    WidthBounds();
    if length < 126 then [WithBit7(masked, length as Byte)]
    else if length < 65536 then [WithBit7(masked, 126)] + Pack(length, 2)
    else [WithBit7(masked, 127)] + Pack(length, 8)
  }

  /** A decoded length field: whether the mask bit is set, the length, and the bytes the field takes. */
  datatype Length = Length(masked: bool, length: nat, used: nat)

  function DecodeLength(b: Bytes): (r: Option<Length>)
    ensures r.Some? ==> 1 <= r.value.used <= |b|
  {
    if |b| == 0 then None
    else
      var masked := Bit7(b[0]);
      var code := Low7(b[0]) as nat;
      if code < 126 then Some(Length(masked, code, 1))
      else if code == 126 then
        if |b| < 3 then None else Some(Length(masked, Unpack(b[1..3]), 3))
      else
        if |b| < 9 then None else Some(Length(masked, Unpack(b[1..9]), 9))
  }

  lemma {:induction false} HeadAndField(head: Byte, field: Bytes, rest: Bytes)
    ensures
      var b := [head] + field + rest;
      b[0] == head && b[1..1 + |field|] == field && |b| == 1 + |field| + |rest|
  {
  }

  lemma {:induction false} LengthRoundTrip(length: nat, masked: bool, rest: Bytes)
    requires length < LENGTH_END
    ensures DecodeLength(LengthField(length, masked) + rest) ==
      Some(Length(masked, length, |LengthField(length, masked)|))
  {
    WidthBounds();
    if 126 <= length < 65536 {
      HeadAndField(WithBit7(masked, 126), Pack(length, 2), rest);
      UnpackPack(length, 2);
    } else if 65536 <= length {
      HeadAndField(WithBit7(masked, 127), Pack(length, 8), rest);
      UnpackPack(length, 8);
    }
  }

  /** No field that decodes to the same length is shorter than the one sent. */
  lemma {:induction false} LengthFieldIsShortest(b: Bytes, masked: bool)
    requires DecodeLength(b).Some?
    ensures DecodeLength(b).value.length < LENGTH_END
    ensures |LengthField(DecodeLength(b).value.length, masked)| <= DecodeLength(b).value.used
  {
    WidthBounds();
    var code := Low7(b[0]) as nat;
    if code == 126 {
      UnpackIsBounded(b[1..3]);
    } else if code >= 126 {
      UnpackIsBounded(b[1..9]);
    }
  }

  // ----- the client's frames -----

  /** What a frame carries. */
  datatype Frame = Frame(fin: bool, opcode: Byte, payload: Bytes)

  /** The bytes `_send_frame` hands to the socket, with `key` the random mask. */
  function ClientFrame(opcode: Byte, payload: Bytes, key: Bytes): Bytes
    requires opcode < 0x10 && |key| == 4 && |payload| < LENGTH_END
  {
    [WithBit7(true, opcode)] + LengthField(|payload|, true) + key + Masked(payload, key)
  }

  /** Section 5.2: the most significant bit of a 64-bit length is 0. */
  const LENGTH_LIMIT: nat := 0x8000_0000_0000_0000

  /** A client frame decoded as sections 5.2 and 5.3 prescribe: reserved bits clear, masked, key, payload. */
  function DecodeClientFrame(b: Bytes): (r: Option<(Frame, Bytes)>)
    ensures r.Some? ==> |r.value.1| < |b|
  {
    if |b| == 0 || Low7(b[0]) >= 0x10 then None
    else
      match DecodeLength(b[1..])
      case None => None
      case Some(field) =>
        var keyAt := 1 + field.used;
        var end := keyAt + 4 + field.length;
        if !field.masked || field.length >= LENGTH_LIMIT || |b| < end then None
        else
          var frame := Frame(Bit7(b[0]), Low4(b[0]), Unmasked(b[keyAt + 4..end], b[keyAt..keyAt + 4]));
          Some((frame, b[end..]))
  }

  lemma {:induction false} FiveParts(head: Byte, field: Bytes, key: Bytes, body: Bytes, rest: Bytes)
    ensures
      var b := [head] + field + key + body + rest;
      var keyAt := 1 + |field|;
      var bodyAt := keyAt + |key|;
      var end := bodyAt + |body|;
      && b[0] == head && b[1..] == field + (key + body + rest)
      && b[keyAt..bodyAt] == key && b[bodyAt..end] == body && b[end..] == rest
  {
  }

  /** A peer that follows the RFC reads back exactly the final frame that was sent, and the bytes after it. */
  lemma {:induction false} ClientFrameRoundTrip(opcode: Byte, payload: Bytes, key: Bytes, rest: Bytes)
    requires opcode < 0x10 && |key| == 4 && |payload| < LENGTH_LIMIT
    ensures DecodeClientFrame(ClientFrame(opcode, payload, key) + rest) == Some((Frame(true, opcode, payload), rest))
  {
    var field := LengthField(|payload|, true);
    OpcodeByte(true, opcode);
    FiveParts(WithBit7(true, opcode), field, key, Masked(payload, key), rest);
    LengthRoundTrip(|payload|, true, key + Masked(payload, key) + rest);
    UnmaskMasked(payload, key);
  }

  // ----- the server's frames -----

  function ServerFrame(f: Frame): Bytes
    requires f.opcode < 0x10 && |f.payload| < LENGTH_END
  {
    [WithBit7(f.fin, f.opcode)] + LengthField(|f.payload|, false) + f.payload
  }

  /** One frame as the reader takes it off the stream; None when the stream ends first. */
  function TakeFrame(b: Bytes): (r: Option<(Frame, Bytes)>)
    ensures r.Some? ==> |r.value.1| + 2 <= |b|
  {
    if |b| < 2 then None
    else
      match DecodeLength(b[1..])
      case None => None
      case Some(field) =>
        var start := 1 + field.used;
        var end := start + field.length;
        if |b| < end then None
        else Some((Frame(Bit7(b[0]), Low4(b[0]), b[start..end]), b[end..]))
  }

  lemma {:induction false} ServerFrameRoundTrip(f: Frame, rest: Bytes)
    requires f.opcode < 0x10 && |f.payload| < LENGTH_END
    ensures TakeFrame(ServerFrame(f) + rest) == Some((f, rest))
  {
    var field := LengthField(|f.payload|, false);
    OpcodeByte(f.fin, f.opcode);
    FiveParts(WithBit7(f.fin, f.opcode), field, [], f.payload, rest);
    assert [WithBit7(f.fin, f.opcode)] + field + [] + f.payload + rest == ServerFrame(f) + rest;
    assert [] + f.payload + rest == f.payload + rest;
    LengthRoundTrip(|f.payload|, false, f.payload + rest);
  }
}
