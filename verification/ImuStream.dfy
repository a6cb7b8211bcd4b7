/** The resynchronising stream parser, and its byte-at-a-time twin. */
module ImuStream {
  import opened Bytes
  import opened ImuFrames

  // ---------------------------------------------------------------- the specification of the stream parser

  predicate HeaderAt(b: seq<byte>, i: nat) {
    i + 1 < |b| && b[i] == HEAD1 && b[i + 1] == HEAD2
  }

  /** Index of the first header, or the length when there is none. */
  function FirstHeader(b: seq<byte>): (h: nat)
    ensures h <= |b|
    ensures h < |b| ==> HeaderAt(b, h)
    ensures forall i | 0 <= i < h :: !HeaderAt(b, i)
  {
    if HeaderAt(b, 0) || b == [] then 0
    else
      var rest := FirstHeader(b[1..]);
      assert forall i | 0 <= i < |b| - 1 :: HeaderAt(b[1..], i) == HeaderAt(b, i + 1);
      assert forall i | 0 < i < rest + 1 :: HeaderAt(b, i) == HeaderAt(b[1..], i - 1);
      rest + 1
  }

  /** One round over the buffer: wait for more bytes, or consume some and report an event. */
  datatype Round = Waiting(left: seq<byte>) | Consumed(event: Event, rest: seq<byte>)

  /** One round over a buffer that starts with a header. */
  function RoundAtHeader(b: seq<byte>): Round
    requires HeaderAt(b, 0)
  {
    if |b| < 3 then Waiting(b)
    else if b[2] < MIN_FRAME || b[2] > MAX_FRAME then Consumed(Invalid, b[1..])
    else if |b| < b[2] then Waiting(b)
    else if Checksum(b[..b[2] - 1]) != b[b[2] - 1] then Consumed(Invalid, b[1..])
    else Consumed(Frame(b[..b[2]]), b[b[2]..])
  }

  function OneRound(b: seq<byte>): (r: Round)
    ensures r.Consumed? ==> |r.rest| < |b|
    ensures r.Waiting? ==> |r.left| < MAX_FRAME
  {
    var h := FirstHeader(b);
    if h == |b| then Waiting(if b != [] && b[|b| - 1] == HEAD1 then [HEAD1] else [])
    else RoundAtHeader(b[h..])
  }

  datatype Drained = Drained(events: seq<Event>, left: seq<byte>)

  function Drain(b: seq<byte>): (d: Drained)
    ensures |d.left| < MAX_FRAME
    decreases |b|
  {
    match OneRound(b)
    case Waiting(left) => Drained([], left)
    case Consumed(event, rest) =>
      var d := Drain(rest);
      Drained([event] + d.events, d.left)
  }

  // ---------------------------------------------------------------- the parser object

  class YbImuParser {
    var buffer: seq<byte>

    constructor ()
      ensures buffer == []
    {
      buffer := [];
    }

    method FindHeader() returns (h: nat)
      ensures h == FirstHeader(buffer)
    {
      h := 0;
      while h < |buffer|
        invariant 0 <= h <= |buffer|
        invariant forall i | 0 <= i < h :: !HeaderAt(buffer, i)
      {
        if buffer[h] == HEAD1 && h + 1 != |buffer| && buffer[h + 1] == HEAD2 {
          HeaderIsFirst(buffer, h);
          return;
        }
        h := h + 1;
      }
      HeaderIsFirst(buffer, h);
    }

    /** One turn of the parsing loop; `more` says whether the loop goes round again. */
    method ParseOne() returns (more: bool, event: Event)
      modifies this
      ensures OneRound(old(buffer)) == if more then Consumed(event, buffer) else Waiting(buffer)
    {
      event := Invalid;
      var header := FindHeader();
      if header == |buffer| {
        var keepHead := buffer != [] && buffer[|buffer| - 1] == HEAD1;
        buffer := if keepHead then [HEAD1] else [];
        return false, event;
      }
      buffer := buffer[header..];
      if |buffer| < 3 {
        return false, event;
      }
      var frameSize := buffer[2];
      if frameSize < MIN_FRAME || frameSize > MAX_FRAME {
        buffer := buffer[1..];
        return true, event;
      }
      if |buffer| < frameSize {
        return false, event;
      }
      var frame := buffer[..frameSize];
      var checksum: byte := 0;
      for k := 0 to frameSize - 1
        invariant checksum == Checksum(frame[..k])
      {
        assert frame[..k + 1][..k] == frame[..k];
        checksum := (checksum + frame[k]) % 256;
      }
      assert frame[..frameSize - 1] == buffer[..frameSize - 1];
      if checksum != frame[frameSize - 1] {
        buffer := buffer[1..];
        return true, event;
      }
      event := Frame(frame);
      buffer := buffer[frameSize..];
      return true, event;
    }

    method ParseSerialBuffer() returns (events: seq<Event>)
      modifies this
      ensures Drained(events, buffer) == Drain(old(buffer))
    {
      hide OneRound;
      events := [];
      var more, event := ParseOne();
      while more
        invariant Drain(old(buffer)) ==
                    if more then Drained(events + [event] + Drain(buffer).events, Drain(buffer).left)
                    else Drained(events, buffer)
        decreases more, |buffer|
      {
        events := events + [event];
        more, event := ParseOne();
      }
    }

    method Receive(bytes: seq<byte>) returns (events: seq<Event>)
      modifies this
      ensures Drained(events, buffer) == Drain(old(buffer) + bytes)
    {
      buffer := buffer + bytes;
      events := ParseSerialBuffer();
    }
  }

  // ---------------------------------------------------------------- independence of chunking

  lemma {:induction false} HeaderIsFirst(b: seq<byte>, h: nat)
    requires h <= |b| && (h < |b| ==> HeaderAt(b, h)) && forall i | 0 <= i < h :: !HeaderAt(b, i)
    ensures FirstHeader(b) == h
  {
    var f := FirstHeader(b);
    assert f < |b| ==> HeaderAt(b, f) && f >= h;
    assert h < |b| ==> HeaderAt(b, h) && h >= f;
  }

  lemma HeaderIsShifted(p: seq<byte>, q: seq<byte>)
    requires forall i | 0 <= i < |p| :: !HeaderAt(p + q, i)
    ensures FirstHeader(p + q) == |p| + FirstHeader(q)
  {
    var h := FirstHeader(q);
    var b := p + q;
    forall i | 0 <= i < |q| ensures HeaderAt(b, |p| + i) == HeaderAt(q, i) {}
    forall i | 0 <= i < |p| + h ensures !HeaderAt(b, i) {
      if i >= |p| {
        assert HeaderAt(b, |p| + (i - |p|)) == HeaderAt(q, i - |p|);
      }
    }
    hide HeaderAt;
    HeaderIsFirst(b, |p| + h);
  }

  /** Bytes in front of which no header starts can be dropped. */
  lemma HeaderlessPrefixIsSkipped(p: seq<byte>, q: seq<byte>)
    requires q != [] && forall i | 0 <= i < |p| :: !HeaderAt(p + q, i)
    ensures OneRound(p + q) == OneRound(q)
  {
    hide FirstHeader, HeaderAt, RoundAtHeader;
    HeaderIsShifted(p, q);
    EndOfJoin(p, q, FirstHeader(q));
  }

  lemma EndOfJoin(p: seq<byte>, q: seq<byte>, h: nat)
    requires h <= |q|
    ensures (p + q)[|p| + h..] == q[h..]
    ensures q != [] ==> (p + q)[|p + q| - 1] == q[|q| - 1]
  {}

  lemma ConsumptionIsStable(b: seq<byte>, x: seq<byte>)
    requires OneRound(b).Consumed?
    ensures OneRound(b + x) == Consumed(OneRound(b).event, OneRound(b).rest + x)
  {
    var h := FirstHeader(b);
    forall i | 0 <= i <= h ensures HeaderAt(b + x, i) == HeaderAt(b, i) {}
    HeaderIsFirst(b + x, h);
    FrontOfJoin(b, x, h);
    hide FirstHeader, HeaderAt, RoundAtHeader;
    RoundAtHeaderIsStable(b[h..], x);
  }

  lemma RoundAtHeaderIsStable(f: seq<byte>, x: seq<byte>)
    requires HeaderAt(f, 0) && RoundAtHeader(f).Consumed?
    ensures HeaderAt(f + x, 0) && RoundAtHeader(f + x) == Consumed(RoundAtHeader(f).event, RoundAtHeader(f).rest + x)
  {
    hide Checksum;
    FrontOfJoin(f, x, 1);
    if MIN_FRAME <= f[2] <= MAX_FRAME {
      FrontOfJoin(f, x, f[2]);
      FrontOfJoin(f, x, f[2] - 1);
    }
  }

  lemma FrontOfJoin(f: seq<byte>, x: seq<byte>, n: nat)
    requires n <= |f|
    ensures (f + x)[..n] == f[..n] && (f + x)[n..] == f[n..] + x
  {}

  /** What a waiting round keeps is all that later rounds need. */
  lemma LeftoverIsEnough(b: seq<byte>, x: seq<byte>)
    requires OneRound(b).Waiting?
    ensures OneRound(b + x) == OneRound(OneRound(b).left + x)
  {
    var left := OneRound(b).left;
    if x == [] {
      assert b + x == b && left + x == left;
      LeftoverIsStable(b);
    } else {
      var p := b[..|b| - |left|];
      assert b == p + left;
      assert b + x == p + (left + x);
      forall i | 0 <= i < |p| ensures !HeaderAt(b + x, i) {
        if i + 1 < |b| {
          assert HeaderAt(b + x, i) == HeaderAt(b, i);
        }
      }
      HeaderlessPrefixIsSkipped(p, left + x);
    }
  }

  lemma LeftoverIsStable(b: seq<byte>)
    requires OneRound(b).Waiting?
    ensures OneRound(OneRound(b).left) == OneRound(b)
  {
    var h := FirstHeader(b);
    if h < |b| {
      HeaderIsFirst(b[h..], 0);
    }
  }

  /** Feeding two pieces gives the events of feeding them joined, and the same leftover. */
  lemma {:induction false} DrainSplits(a: seq<byte>, x: seq<byte>)
    ensures var first := Drain(a);
            var second := Drain(first.left + x);
            Drain(a + x) == Drained(first.events + second.events, second.left)
    decreases |a|
  {
    hide OneRound;
    match OneRound(a)
    case Waiting(left) =>
      LeftoverIsEnough(a, x);
    case Consumed(event, rest) =>
      ConsumptionIsStable(a, x);
      DrainSplits(rest, x);
  }

  function Joined(chunks: seq<seq<byte>>): seq<byte> {
    if chunks == [] then [] else Joined(chunks[..|chunks| - 1]) + chunks[|chunks| - 1]
  }

  /** The parser after receiving the chunks one by one. */
  function Fed(chunks: seq<seq<byte>>): Drained {
    if chunks == [] then Drained([], [])
    else
      var before := Fed(chunks[..|chunks| - 1]);
      var last := Drain(before.left + chunks[|chunks| - 1]);
      Drained(before.events + last.events, last.left)
  }

  /** The events and the leftover do not depend on how the stream was cut into chunks. */
  lemma {:induction false} ChunkingDoesNotMatter(chunks: seq<seq<byte>>)
    ensures Fed(chunks) == Drain(Joined(chunks))
    ensures |Fed(chunks).left| < MAX_FRAME
  {
    if chunks != [] {
      ChunkingDoesNotMatter(chunks[..|chunks| - 1]);
      DrainSplits(Joined(chunks[..|chunks| - 1]), chunks[|chunks| - 1]);
    }
  }

  // ---------------------------------------------------------------- round trip

  /** A frame at the head of the stream is delivered whole when, and only when, it is at most 64 bytes long. */
  lemma FrameIsDelivered(m: Message, x: seq<byte>)
    requires Sendable(m)
    ensures OneRound(Encoded(m) + x) == Consumed(Frame(Encoded(m)), x) <==> Receivable(m)
    ensures !Receivable(m) ==> OneRound(Encoded(m) + x).Consumed? && OneRound(Encoded(m) + x).event == Invalid
  {
    var e := Encoded(m);
    var b := e + x;
    HeaderIsFirst(b, 0);
    assert b[0..] == b;
    assert b[..|e|] == e && b[|e|..] == x;
    assert b[..|e| - 1] == Body(m);
  }

  lemma {:induction false} StreamRoundTrip(ms: seq<Message>)
    requires forall m | m in ms :: Sendable(m) && Receivable(m)
    ensures Drain(Stream(ms)) == Drained(Frames(ms), [])
  {
    if ms != [] {
      FrameIsDelivered(ms[0], Stream(ms[1..]));
      StreamRoundTrip(ms[1..]);
    }
  }

  // ---------------------------------------------------------------- the byte-at-a-time twin

  datatype Phase = WaitHead1 | WaitHead2 | WaitLength | WaitFunction | WaitData

  datatype Receiver = Receiver(phase: Phase, data: seq<byte>, length: byte)

  datatype Step = Step(next: Receiver, delivered: seq<Event>)

  /** Frames whose checksum does not match are dropped silently. */
  function Accept(r: Receiver, b: byte): Step {
    match r.phase
    case WaitHead1 => Step(if b == HEAD1 then Receiver(WaitHead2, [b], r.length) else r, [])
    case WaitHead2 =>
      Step(if b == HEAD2 then Receiver(WaitLength, r.data + [b], r.length) else r.(phase := WaitHead1), [])
    case WaitLength => Step(Receiver(WaitFunction, r.data + [b], b), [])
    case WaitFunction => Step(r.(phase := WaitData, data := r.data + [b]), [])
    case WaitData =>
      var data := r.data + [b];
      if |data| < r.length then Step(r.(data := data), [])
      else Step(r.(phase := WaitHead1, data := data),
                if Checksum(data[..|data| - 1]) == data[|data| - 1] then [Frame(data)] else [])
  }

  function AcceptAll(r: Receiver, bytes: seq<byte>): Step {
    if bytes == [] then Step(r, [])
    else
      var before := AcceptAll(r, bytes[..|bytes| - 1]);
      var last := Accept(before.next, bytes[|bytes| - 1]);
      Step(last.next, before.delivered + last.delivered)
  }

  class ImuSerialDriver {
    var phase: Phase
    var data: seq<byte>
    var length: byte

    function Value(): Receiver
      reads this
    {
      Receiver(phase, data, length)
    }

    constructor ()
      ensures Value() == Receiver(WaitHead1, [], 0)
    {
      phase, data, length := WaitHead1, [], 0;
    }

    method ReceiveData(b: byte) returns (delivered: seq<Event>)
      modifies this
      ensures Step(Value(), delivered) == Accept(old(Value()), b)
    {
      delivered := [];
      if phase == WaitHead1 {
        if b == HEAD1 {
          phase, data := WaitHead2, [b];
        }
      } else if phase == WaitHead2 {
        if b == HEAD2 {
          phase, data := WaitLength, data + [b];
        } else {
          phase := WaitHead1;
        }
      } else if phase == WaitLength {
        length, data, phase := b, data + [b], WaitFunction;
      } else if phase == WaitFunction {
        data, phase := data + [b], WaitData;
      } else {
        data := data + [b];
        if |data| >= length {
          phase := WaitHead1;
          if Checksum(data[..|data| - 1]) == data[|data| - 1] {
            delivered := [Frame(data)];
          }
        }
      }
    }
  }

  lemma AcceptOneMore(r: Receiver, s: seq<byte>, b: byte)
    ensures var first := AcceptAll(r, s);
            var last := Accept(first.next, b);
            AcceptAll(r, s + [b]) == Step(last.next, first.delivered + last.delivered)
  {
    hide Accept;
    assert (s + [b])[..|s + [b]| - 1] == s;
  }

  lemma {:induction false} AcceptInPieces(r: Receiver, a: seq<byte>, x: seq<byte>)
    ensures var first := AcceptAll(r, a);
            var second := AcceptAll(first.next, x);
            AcceptAll(r, a + x) == Step(second.next, first.delivered + second.delivered)
  {
    hide Accept;
    if x == [] {
      assert a + x == a;
    } else {
      AcceptInPieces(r, a, x[..|x| - 1]);
      assert (a + x)[..|a + x| - 1] == a + x[..|x| - 1];
    }
  }

  /** Heads and as many bytes as the receiver collects for the length byte. */
  predicate HasFrameShape(p: seq<byte>) {
    |p| >= MIN_FRAME && p[0] == HEAD1 && p[1] == HEAD2 && |p| == (if p[2] < MIN_FRAME then MIN_FRAME else p[2])
  }

  predicate IsGathering(r: Receiver, p: seq<byte>, k: nat)
    requires 1 <= k < |p| && |p| >= MIN_FRAME
  {
    && r.data == p[..k] && (k >= 3 ==> r.length == p[2])
    && r.phase == (if k == 1 then WaitHead2 else if k == 2 then WaitLength
                   else if k == 3 then WaitFunction else WaitData)
  }

  lemma GathersOneMore(r: Receiver, p: seq<byte>, k: nat)
    requires HasFrameShape(p) && 1 <= k < |p| && IsGathering(r, p, k)
    ensures var step := Accept(r, p[k]);
            if k + 1 < |p| then step.delivered == [] && IsGathering(step.next, p, k + 1)
            else step.next.phase == WaitHead1
                 && step.delivered == if Sum(p[..|p| - 1]) % 256 == p[|p| - 1] then [Frame(p)] else []
  {
    assert p[..k] + [p[k]] == p[..k + 1];
    if k + 1 == |p| {
      assert p[..k + 1] == p;
    }
  }

  lemma GathersTheFirst(r: Receiver, p: seq<byte>)
    requires r.phase == WaitHead1 && HasFrameShape(p)
    ensures AcceptAll(r, p[..0]) == Step(r, [])
    ensures Accept(r, p[0]).delivered == [] && IsGathering(Accept(r, p[0]).next, p, 1)
  {}

  /** An idle receiver gathers bytes of this shape, and delivers them at the end exactly when the checksum is right. */
  lemma {:induction false} ShapeIsGathered(r: Receiver, p: seq<byte>, k: nat)
    requires r.phase == WaitHead1 && HasFrameShape(p) && 1 <= k <= |p|
    ensures var step := AcceptAll(r, p[..k]);
            if k < |p| then step.delivered == [] && IsGathering(step.next, p, k)
            else step.next.phase == WaitHead1
                 && step.delivered == if Sum(p[..|p| - 1]) % 256 == p[|p| - 1] then [Frame(p)] else []
  {
    hide AcceptAll, Accept, IsGathering, Sum;
    var before, b := p[..k - 1], p[k - 1];
    assert p[..k] == before + [b];
    AcceptOneMore(r, before, b);
    if k == 1 {
      GathersTheFirst(r, p);
    } else {
      ShapeIsGathered(r, p, k - 1);
      GathersOneMore(AcceptAll(r, before).next, p, k - 1);
    }
  }

  lemma ShapeIsReceived(r: Receiver, p: seq<byte>)
    requires r.phase == WaitHead1 && HasFrameShape(p)
    ensures AcceptAll(r, p).next.phase == WaitHead1
    ensures AcceptAll(r, p).delivered == if Sum(p[..|p| - 1]) % 256 == p[|p| - 1] then [Frame(p)] else []
  {
    hide AcceptAll, Sum;
    ShapeIsGathered(r, p, |p|);
    assert p[..|p|] == p;
  }

  lemma FrameIsReceived(r: Receiver, m: Message)
    requires Sendable(m) && r.phase == WaitHead1
    ensures AcceptAll(r, Encoded(m)).delivered == [Frame(Encoded(m))]
    ensures AcceptAll(r, Encoded(m)).next.phase == WaitHead1
  {
    var e := Encoded(m);
    assert e[..|e| - 1] == Body(m);
    ShapeIsReceived(r, e);
  }

  /** Both parsers deliver exactly the frames that were sent, keep nothing and end ready for the next frame. */
  lemma {:induction false} TwinsAgree(ms: seq<Message>, r: Receiver)
    requires r.phase == WaitHead1 && forall m | m in ms :: Sendable(m) && Receivable(m)
    ensures AcceptAll(r, Stream(ms)).delivered == Frames(ms) == Drain(Stream(ms)).events
    ensures AcceptAll(r, Stream(ms)).next.phase == WaitHead1 && Drain(Stream(ms)).left == []
  {
    StreamRoundTrip(ms);
    if ms != [] {
      var e := Encoded(ms[0]);
      FrameIsReceived(r, ms[0]);
      AcceptInPieces(r, e, Stream(ms[1..]));
      TwinsAgree(ms[1..], AcceptAll(r, e).next);
    }
  }

  lemma {:induction false} IdleSkips(r: Receiver, s: seq<byte>)
    requires r.phase == WaitHead1 && HEAD1 !in s
    ensures AcceptAll(r, s) == Step(r, [])
  {
    if s != [] {
      IdleSkips(r, s[..|s| - 1]);
      assert s[|s| - 1] in s;
    }
  }

  /** The length of the run of head bytes at the end. */
  function TrailingHeads(s: seq<byte>): nat {
    if s != [] && s[|s| - 1] == HEAD1 then TrailingHeads(s[..|s| - 1]) + 1 else 0
  }

  ghost predicate Headerless(s: seq<byte>) {
    forall i | 0 <= i < |s| :: !HeaderAt(s, i)
  }

  lemma HeaderlessPrefix(s: seq<byte>)
    requires s != [] && Headerless(s)
    ensures Headerless(s[..|s| - 1])
  {
    var t := s[..|s| - 1];
    forall i | 0 <= i < |t| ensures !HeaderAt(t, i) {
      assert !HeaderAt(s, i);
    }
  }

  /** Bytes without a header deliver nothing, and leave the receiver waiting for the second head byte exactly when they
      end in an odd run of head bytes: a head byte that breaks a header is not tried as a new first one. */
  lemma {:induction false} NoiseLeavesParity(r: Receiver, s: seq<byte>)
    requires r.phase == WaitHead1 && Headerless(s)
    ensures AcceptAll(r, s).delivered == []
    ensures AcceptAll(r, s).next.phase == if TrailingHeads(s) % 2 == 0 then WaitHead1 else WaitHead2
  {
    if s != [] {
      var before := s[..|s| - 1];
      HeaderlessPrefix(s);
      NoiseLeavesParity(r, before);
      if before != [] {
        assert !HeaderAt(s, |s| - 2);
      }
      assert TrailingHeads(before) > 0 ==> before[|before| - 1] == HEAD1;
    }
  }

  lemma NoiseIsSkipped(noise: seq<byte>, m: Message)
    requires Sendable(m) && Receivable(m) && Headerless(noise)
    ensures Drain(noise + Encoded(m)) == Drained([Frame(Encoded(m))], [])
  {
    var e := Encoded(m);
    FrameIsDelivered(m, []);
    assert e + [] == e;
    forall i | 0 <= i < |noise| ensures !HeaderAt(noise + e, i) {
      assert !HeaderAt(noise, i);
      assert (noise + e)[|noise|] == HEAD1;
    }
    HeaderlessPrefixIsSkipped(noise, e);
    hide Encoded, OneRound;
    assert Drain([]) == Drained([], []) by { assert OneRound([]) == Waiting([]) by { EmptyBufferWaits(); } }
  }

  lemma EmptyBufferWaits()
    ensures OneRound([]) == Waiting([])
  {}

  lemma {:induction false} DrainedFramesAreShort(b: seq<byte>, f: seq<byte>)
    requires Frame(f) in Drain(b).events
    ensures |f| <= MAX_FRAME
    decreases |b|
  {
    hide FirstHeader;
    var round := OneRound(b);
    if round.event != Frame(f) {
      DrainedFramesAreShort(round.rest, f);
    }
  }

  /** A receiver that starts idle delivers and collects no more bytes than it was fed. */
  lemma {:induction false} NothingOutgrowsTheBytes(r: Receiver, s: seq<byte>)
    requires r.phase == WaitHead1
    ensures forall f | Frame(f) in AcceptAll(r, s).delivered :: |f| <= |s|
    ensures AcceptAll(r, s).next.phase == WaitHead1 || |AcceptAll(r, s).next.data| <= |s|
  {
    if s != [] {
      NothingOutgrowsTheBytes(r, s[..|s| - 1]);
    }
  }

  /** A receiver that waits for the second head byte takes the first one of a frame as breaking its header, and the
      frame is lost: what is left of it is too short. */
  lemma BrokenHeaderLosesTheFrame(s: Receiver, m: Message)
    requires Sendable(m) && s.phase == WaitHead2
    ensures Frame(Encoded(m)) !in AcceptAll(s, Encoded(m)).delivered
    ensures HEAD1 !in Encoded(m)[1..] ==>
              AcceptAll(s, Encoded(m)).delivered == [] && AcceptAll(s, Encoded(m)).next.phase == WaitHead1
  {
    var e := Encoded(m);
    assert e == [HEAD1] + e[1..];
    AcceptOneMore(s, [], HEAD1);
    assert [] + [HEAD1] == [HEAD1];
    assert AcceptAll(s, []) == Step(s, []);
    AcceptInPieces(s, [HEAD1], e[1..]);
    hide Encoded, AcceptAll;
    var idle := AcceptAll(s, [HEAD1]).next;
    NothingOutgrowsTheBytes(idle, e[1..]);
    if HEAD1 !in e[1..] {
      IdleSkips(idle, e[1..]);
    }
  }

  /** Behind noise that holds no header the stream parser delivers every frame of at most 64 bytes; the byte receiver
      delivers the frame exactly when the noise ends in an even run of head bytes. */
  lemma NoiseSeparatesTheTwins(noise: seq<byte>, m: Message, r: Receiver)
    requires Sendable(m) && r.phase == WaitHead1 && Headerless(noise)
    ensures Frame(Encoded(m)) in Drain(noise + Encoded(m)).events <==> Receivable(m)
    ensures Frame(Encoded(m)) in AcceptAll(r, noise + Encoded(m)).delivered <==> TrailingHeads(noise) % 2 == 0
  {
    var e := Encoded(m);
    if Receivable(m) {
      NoiseIsSkipped(noise, m);
    } else if Frame(e) in Drain(noise + e).events {
      DrainedFramesAreShort(noise + e, e);
      assert false;
    }
    FrameBehindNoise(noise, m, r);
  }

  /** What the byte receiver delivers behind the noise: the frame alone and then it is idle, or not the frame; and
      nothing at all when no later byte of the frame could pass for a head byte. */
  lemma FrameBehindNoise(noise: seq<byte>, m: Message, r: Receiver)
    requires Sendable(m) && r.phase == WaitHead1 && Headerless(noise)
    ensures var step := AcceptAll(r, noise + Encoded(m));
            if TrailingHeads(noise) % 2 == 0
            then step.delivered == [Frame(Encoded(m))] && step.next.phase == WaitHead1
            else Frame(Encoded(m)) !in step.delivered
                 && (HEAD1 !in Encoded(m)[1..] ==> step.delivered == [] && step.next.phase == WaitHead1)
  {
    var e := Encoded(m);
    NoiseLeavesParity(r, noise);
    AcceptInPieces(r, noise, e);
    var s := AcceptAll(r, noise).next;
    if s.phase == WaitHead1 {
      FrameIsReceived(s, m);
    } else {
      BrokenHeaderLosesTheFrame(s, m);
    }
  }

  /** The shortest such noise: one stray head byte costs the byte receiver the frame. */
  lemma StrayHeadSeparatesTheTwins(m: Message, r: Receiver)
    requires Sendable(m) && Receivable(m) && r.phase == WaitHead1
    ensures Drain([HEAD1] + Encoded(m)).events == [Frame(Encoded(m))]
    ensures Frame(Encoded(m)) !in AcceptAll(r, [HEAD1] + Encoded(m)).delivered
    ensures HEAD1 !in Encoded(m)[1..] ==> AcceptAll(r, [HEAD1] + Encoded(m)).delivered == []
  {
    hide Encoded, AcceptAll, Drain, HeaderAt;
    OneHeadIsOdd();
    NoiseIsSkipped([HEAD1], m);
    FrameBehindNoise([HEAD1], m, r);
  }

  lemma OneHeadIsOdd()
    ensures Headerless([HEAD1]) && TrailingHeads([HEAD1]) == 1
  {
    assert [HEAD1][..0] == [] && TrailingHeads([]) == 0;
  }
}
