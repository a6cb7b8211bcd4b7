/** The YB-IMU serial frame: head bytes, total length, function, payload, additive checksum. */
module ImuFrames {
  import opened Bytes

  const HEAD1: byte := 0x7E
  const HEAD2: byte := 0x23
  const MIN_FRAME := 5
  const MAX_FRAME := 64

  /** A frame as sent: the function code and its payload. */
  datatype Message = Message(code: byte, payload: seq<byte>)

  datatype Event = Frame(bytes: seq<byte>) | Invalid

  function Checksum(s: seq<byte>): byte {
    Sum(s) % 256
  }

  predicate Sendable(m: Message) {
    |m.payload| + MIN_FRAME <= 255
  }

  /** Frames the streaming parser accepts: total length 5 to 64. */
  predicate Receivable(m: Message) {
    |m.payload| + MIN_FRAME <= MAX_FRAME
  }

  function Body(m: Message): (b: seq<byte>)
    requires Sendable(m)
    ensures |b| == |m.payload| + 4
  {
    [HEAD1, HEAD2, |m.payload| + MIN_FRAME, m.code] + m.payload
  }

  function Encoded(m: Message): (b: seq<byte>)
    requires Sendable(m)
    ensures |b| == |m.payload| + MIN_FRAME
  {
    Body(m) + [Checksum(Body(m))]
  }

  function Stream(ms: seq<Message>): seq<byte>
    requires forall m | m in ms :: Sendable(m)
  {
    if ms == [] then [] else Encoded(ms[0]) + Stream(ms[1..])
  }

  function Frames(ms: seq<Message>): seq<Event>
    requires forall m | m in ms :: Sendable(m)
  {
    if ms == [] then [] else [Frame(Encoded(ms[0]))] + Frames(ms[1..])
  }

  datatype Outcome = Written(bytes: seq<byte>) | TooLarge

  /** The frame is built with a zero length byte that is patched before the checksum is taken. */
  method WriteSerialCommand(code: byte, payload: seq<byte>) returns (r: Outcome)
    ensures r.TooLarge? <==> !Sendable(Message(code, payload))
    ensures r.Written? ==> r.bytes == Encoded(Message(code, payload))
  {
    var frame: seq<byte> := [HEAD1, HEAD2, 0, code] + payload;
    if |frame| + 1 > 255 {
      return TooLarge;
    }
    frame := frame[2 := |frame| + 1];
    assert frame == Body(Message(code, payload));
    var checksum: byte := 0;
    for k := 0 to |frame|
      invariant checksum == Checksum(frame[..k])
    {
      assert frame[..k + 1][..k] == frame[..k];
      checksum := (checksum + frame[k]) % 256;
    }
    assert frame[..|frame|] == frame;
    return Written(frame + [checksum]);
  }
}
