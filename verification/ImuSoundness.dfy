/** What the two IMU parsers do with arbitrary bytes: every frame they deliver was in the stream and is well
    formed, and a damaged frame costs nothing but itself. */
module ImuSoundness {
  import opened Bytes
  import opened ImuFrames
  import opened ImuStream

  predicate StandsAt(f: seq<byte>, b: seq<byte>, p: nat) {
    p + |f| <= |b| && b[p..p + |f|] == f
  }

  /** The frame `f` stands in the stream `b`. */
  ghost predicate Occurs(f: seq<byte>, b: seq<byte>) {
    exists p: nat :: StandsAt(f, b, p)
  }

  lemma OccursLater(f: seq<byte>, b: seq<byte>, k: nat)
    requires k <= |b| && Occurs(f, b[k..])
    ensures Occurs(f, b)
  {
    var p: nat :| StandsAt(f, b[k..], p);
    assert StandsAt(f, b, k + p);
  }

  lemma OccursInFront(f: seq<byte>, b: seq<byte>, x: seq<byte>)
    requires Occurs(f, b)
    ensures Occurs(f, b + x)
  {
    var p: nat :| StandsAt(f, b, p);
    assert StandsAt(f, b + x, p);
  }

  /** The message a well-formed frame carries. */
  function MessageOf(f: seq<byte>): Message
    requires |f| >= MIN_FRAME
  {
    Message(f[3], f[4..|f| - 1])
  }

  lemma WellFormedFrames(f: seq<byte>)
    requires MIN_FRAME <= |f| <= 255 && f[0] == HEAD1 && f[1] == HEAD2 && f[2] == |f|
    requires Sum(f[..|f| - 1]) % 256 == f[|f| - 1]
    ensures Sendable(MessageOf(f)) && Encoded(MessageOf(f)) == f
  {
    assert f[..|f| - 1] == Body(MessageOf(f));
    assert f == f[..|f| - 1] + [f[|f| - 1]];
  }

  // ---------------------------------------------------------------- the stream parser

  lemma RoundAtHeaderIsSound(c: seq<byte>, f: seq<byte>)
    requires HeaderAt(c, 0) && RoundAtHeader(c).Consumed? && RoundAtHeader(c).event == Frame(f)
    ensures f <= c && MIN_FRAME <= |f| <= MAX_FRAME && Sendable(MessageOf(f)) && Encoded(MessageOf(f)) == f
  {
    assert f == c[..c[2]] && f[..|f| - 1] == c[..c[2] - 1];
    WellFormedFrames(f);
  }

  lemma RoundIsSound(b: seq<byte>, f: seq<byte>)
    requires OneRound(b).Consumed? && OneRound(b).event == Frame(f)
    ensures Occurs(f, b)
    ensures MIN_FRAME <= |f| <= MAX_FRAME && Sendable(MessageOf(f)) && Encoded(MessageOf(f)) == f
  {
    var h := FirstHeader(b);
    assert HeaderAt(b[h..], 0);
    hide FirstHeader, RoundAtHeader, HeaderAt, Encoded, MessageOf;
    RoundAtHeaderIsSound(b[h..], f);
    assert StandsAt(f, b, h);
  }

  /** What a round leaves of the buffer is an end of it. */
  lemma RoundLeavesAnEnd(b: seq<byte>) returns (k: nat)
    requires OneRound(b).Consumed?
    ensures 0 < k <= |b| && OneRound(b).rest == b[k..]
  {
    var h := FirstHeader(b);
    var c := b[h..];
    k := |b| - |OneRound(b).rest|;
    assert c[1..] == b[h + 1..];
    if c[2] <= |c| {
      assert c[c[2]..] == b[h + c[2]..];
    }
  }

  /** Every frame the parser delivers, from any bytes at all, stands in them and is the encoding of a message of
      at most 64 bytes. */
  lemma {:induction false} DeliveredFramesAreSound(b: seq<byte>, f: seq<byte>)
    requires Frame(f) in Drain(b).events
    ensures Occurs(f, b)
    ensures |f| >= MIN_FRAME
    ensures var m := MessageOf(f); Sendable(m) && Receivable(m) && f == Encoded(m)
    decreases |b|
  {
    hide OneRound, Encoded, Occurs;
    var round := OneRound(b);
    if round.event == Frame(f) {
      RoundIsSound(b, f);
      ShortFrameIsReceivable(MessageOf(f));
    } else {
      DeliveredFramesAreSound(round.rest, f);
      var k := RoundLeavesAnEnd(b);
      OccursLater(f, b, k);
    }
  }

  lemma ShortFrameIsReceivable(m: Message)
    requires Sendable(m) && |Encoded(m)| <= MAX_FRAME
    ensures Receivable(m)
  {}

  /** The parser refuses what stands at the head of `b`: its length byte is out of range, or its checksum is wrong. */
  predicate IsRefused(b: seq<byte>) {
    |b| >= 3 && ( || b[2] < MIN_FRAME || b[2] > MAX_FRAME
                  || (|b| >= b[2] && Sum(b[..b[2] - 1]) % 256 != b[b[2] - 1]))
  }

  lemma RefusedHeadCostsOneByte(b: seq<byte>)
    requires HeaderAt(b, 0) && IsRefused(b)
    ensures OneRound(b) == Consumed(Invalid, b[1..])
  {
    HeaderIsFirst(b, 0);
    assert b[0..] == b;
  }

  /** Behind a damaged frame `p`, cut off or not, that holds no second header, the next frame is delivered: the parser
      drops a byte and looks for the next header, whatever length the damaged frame claims. */
  lemma DamagedFrameIsSkipped(p: seq<byte>, m: Message, x: seq<byte>)
    requires Sendable(m) && Receivable(m) && HeaderAt(p, 0) && forall i | 0 < i < |p| :: !HeaderAt(p, i)
    requires IsRefused(p + Encoded(m) + x)
    ensures Drain(p + Encoded(m) + x) == Drained([Invalid, Frame(Encoded(m))] + Drain(x).events, Drain(x).left)
  {
    var e := Encoded(m);
    var b, q := p + e + x, p[1..];
    assert HeaderAt(b, 0) by { assert HeaderAt(p, 0); }
    RefusedHeadCostsOneByte(b);
    assert b[1..] == q + (e + x);
    forall i | 0 <= i < |q| ensures !HeaderAt(q + (e + x), i) {
      assert !HeaderAt(p, i + 1);
      assert e[0] == HEAD1;
    }
    HeaderlessPrefixIsSkipped(q, e + x);
    FrameIsDelivered(m, x);
    TwoRounds(b, q + (e + x), e, x);
  }

  lemma TwoRounds(b: seq<byte>, c: seq<byte>, e: seq<byte>, x: seq<byte>)
    requires OneRound(b) == Consumed(Invalid, c) && OneRound(c) == Consumed(Frame(e), x)
    ensures Drain(b) == Drained([Invalid, Frame(e)] + Drain(x).events, Drain(x).left)
  {
    hide OneRound;
    assert Drain(c) == Drained([Frame(e)] + Drain(x).events, Drain(x).left);
    assert [Invalid] + ([Frame(e)] + Drain(x).events) == [Invalid, Frame(e)] + Drain(x).events;
  }

  // ---------------------------------------------------------------- the byte receiver

  /** What a receiver that started idle has collected: the end of what it was fed, up to a frame that is not
      complete. */
  ghost predicate IsCollected(r: Receiver, s: seq<byte>) {
    && |r.data| <= |s| && s[|s| - |r.data|..] == r.data
    && |r.data| == (match r.phase case WaitHead1 => 0 case WaitHead2 => 1 case WaitLength => 2 case WaitFunction => 3
                    case WaitData => |r.data|)
    && (|r.data| > 0 ==> r.data[0] == HEAD1) && (|r.data| > 1 ==> r.data[1] == HEAD2)
    && (|r.data| > 2 ==> r.data[2] == r.length)
    && (r.phase == WaitData ==> |r.data| >= 4 && (|r.data| == 4 || |r.data| < r.length))
  }

  /** What a frame of the byte receiver looks like: a length byte below 5 stands for 5. */
  predicate LooksLikeAFrame(f: seq<byte>) {
    HasFrameShape(f) && Sum(f[..|f| - 1]) % 256 == f[|f| - 1]
  }

  lemma CollectsOneMore(r: Receiver, s: seq<byte>, b: byte)
    requires r.phase == WaitHead1 || IsCollected(r, s)
    ensures var step := Accept(r, b);
            && (step.next.phase == WaitHead1 || IsCollected(step.next, s + [b]))
            && (forall f | Frame(f) in step.delivered :: Occurs(f, s + [b]) && LooksLikeAFrame(f))
  {
    var t, data := s + [b], r.data + [b];
    if r.phase == WaitHead1 {
      assert t[|t| - 1..] == [b];
    } else {
      assert t[|t| - |data|..] == s[|s| - |r.data|..] + [b];
      assert StandsAt(data, t, |t| - |data|);
    }
  }

  /** Every frame that the byte receiver delivers, from any bytes at all, stands in them, with heads, length and
      checksum as they should be; it is the encoding of a message unless its length byte is below 5. */
  lemma {:induction false} ReceivedFramesAreSound(r: Receiver, s: seq<byte>)
    requires r.phase == WaitHead1
    ensures AcceptAll(r, s).next.phase == WaitHead1 || IsCollected(AcceptAll(r, s).next, s)
    ensures forall f | Frame(f) in AcceptAll(r, s).delivered ::
              && Occurs(f, s) && LooksLikeAFrame(f)
              && (f[2] >= MIN_FRAME ==> Sendable(MessageOf(f)) && f == Encoded(MessageOf(f)))
  {
    hide Accept, IsCollected, Encoded, Occurs;
    if s != [] {
      var before, b := s[..|s| - 1], s[|s| - 1];
      assert before + [b] == s;
      ReceivedFramesAreSound(r, before);
      CollectsOneMore(AcceptAll(r, before).next, before, b);
      forall f | Frame(f) in AcceptAll(r, before).delivered ensures Occurs(f, s) {
        OccursInFront(f, before, [b]);
      }
      forall f | Frame(f) in AcceptAll(r, s).delivered && LooksLikeAFrame(f) && f[2] >= MIN_FRAME
        ensures Sendable(MessageOf(f)) && f == Encoded(MessageOf(f))
      {
        WellFormedFrames(f);
      }
    }
  }

  /** The two differ on frames whose length byte is below 5: the receiver delivers such a frame, which no message
      encodes to, and the parser does not. */
  lemma ShortLengthIsDelivered(r: Receiver, f: seq<byte>)
    requires r.phase == WaitHead1 && LooksLikeAFrame(f) && f[2] < MIN_FRAME
    ensures Frame(f) in AcceptAll(r, f).delivered
    ensures Frame(f) !in Drain(f).events
    ensures forall m: Message :: Sendable(m) ==> Encoded(m) != f
  {
    ShapeIsReceived(r, f);
    forall m: Message | Sendable(m) ensures Encoded(m) != f {
      assert Encoded(m)[2] >= MIN_FRAME;
    }
    if Frame(f) in Drain(f).events {
      DeliveredFramesAreSound(f, f);
      assert false;
    }
  }

  /** There is such a frame. */
  lemma ShortLengthExists()
    ensures LooksLikeAFrame([HEAD1, HEAD2, 0, 0, 0xA1])
  {
    var f: seq<byte> := [HEAD1, HEAD2, 0, 0];
    SumOfOneMore([], HEAD1);
    SumOfOneMore([HEAD1], HEAD2);
    SumOfOneMore([HEAD1, HEAD2], 0);
    SumOfOneMore([HEAD1, HEAD2, 0], 0);
    assert [] + [HEAD1] == [HEAD1] && [HEAD1] + [HEAD2] == [HEAD1, HEAD2] && [HEAD1, HEAD2] + [0] == [HEAD1, HEAD2, 0]
        && [HEAD1, HEAD2, 0] + [0] == f;
    hide Sum;
    assert [HEAD1, HEAD2, 0, 0, 0xA1][..4] == f;
  }

  /** A frame with a changed byte, other than heads and length, costs the byte receiver nothing but itself. */
  lemma ReceiverSkipsADamagedFrame(r: Receiver, p: seq<byte>, m: Message)
    requires r.phase == WaitHead1 && Sendable(m)
    requires MIN_FRAME <= |p| <= 255 && p[0] == HEAD1 && p[1] == HEAD2 && p[2] == |p|
    requires Sum(p[..|p| - 1]) % 256 != p[|p| - 1]
    ensures AcceptAll(r, p + Encoded(m)).delivered == [Frame(Encoded(m))]
    ensures AcceptAll(r, p + Encoded(m)).next.phase == WaitHead1
  {
    ShapeIsReceived(r, p);
    var e, s := Encoded(m), AcceptAll(r, p).next;
    AcceptInPieces(r, p, e);
    FrameIsReceived(s, m);
  }
}
