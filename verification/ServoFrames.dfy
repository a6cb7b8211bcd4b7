/** The LX binary and ZL ASCII servo frames: what the encoders write and which replies the decoders accept. */
module ServoFrames {
  import opened Options
  import opened Bytes

  // ---------------------------------------------------------------- LX

  const LX_HEAD: byte := 0x55
  const LX_READ: byte := 0x1C

  function Complement(sum: nat): byte {
    255 - sum % 256
  }

  /** The addressed identifier is clamped to one byte below the broadcast range. */
  function LxId(servo: nat): byte {
    if servo < 253 then servo else 253
  }

  function LxBody(servo: nat, command: byte, parameters: seq<byte>): seq<byte> {
    [LxId(servo), (|parameters| + 3) % 256, command] + parameters
  }

  function LxPacket(servo: nat, command: byte, parameters: seq<byte>): seq<byte> {
    [LX_HEAD, LX_HEAD] + LxBody(servo, command, parameters)
    + [Complement(Sum(LxBody(servo, command, parameters)))]
  }

  /** Where everything stands in an LX packet; with its checksum, the bytes behind the heads add up to 255. */
  lemma LxPacketLayout(servo: nat, command: byte, parameters: seq<byte>)
    requires |parameters| + 3 < 256
    ensures var p := LxPacket(servo, command, parameters);
            && |p| == |parameters| + 6 && p[0] == 0x55 && p[1] == 0x55
            && p[2] == (if servo < 253 then servo else 253) && p[3] == |parameters| + 3 && p[4] == command
            && p[5..|p| - 1] == parameters && Sum(p[2..]) % 256 == 255
  {
    var p, body := LxPacket(servo, command, parameters), LxBody(servo, command, parameters);
    assert p[2..] == body + [Complement(Sum(body))];
    SumOfOneMore(body, Complement(Sum(body)));
  }

  lemma SumOfThree(a: byte, b: byte, c: byte)
    ensures Sum([a, b, c]) == a + b + c
  {
    SumOfOneMore([], a);
    SumOfOneMore([a], b);
    SumOfOneMore([a, b], c);
    assert [] + [a] == [a] && [a] + [b] == [a, b] && [a, b] + [c] == [a, b, c];
  }

  /** The sum runs over identifier, length, command and parameters, with the parameters added one by one. */
  method BuildLxPacket(servo: nat, command: byte, parameters: seq<byte>) returns (packet: seq<byte>)
    ensures packet == LxPacket(servo, command, parameters)
  {
    var id, length: byte := LxId(servo), (|parameters| + 3) % 256;
    packet := [LX_HEAD, LX_HEAD, id, length, command] + parameters;
    var sum: nat := id + length + command;
    ghost var head: seq<byte> := [id, length, command];
    SumOfThree(id, length, command);
    assert head + parameters[..0] == head;
    for k := 0 to |parameters|
      invariant sum == Sum(head + parameters[..k])
    {
      assert (head + parameters[..k + 1])[..|head| + k] == head + parameters[..k];
      sum := sum + parameters[k];
    }
    assert head + parameters[..|parameters|] == LxBody(servo, command, parameters);
    packet := packet + [Complement(sum)];
  }

  /** A complete position reply for `servo` starts at index `i`: heads, identifier, length, command and checksum. */
  predicate LxReplyAt(d: seq<byte>, i: nat, servo: nat) {
    && i + 7 < |d| && d[i] == LX_HEAD && d[i + 1] == LX_HEAD
    && d[i + 3] >= 5 && i + d[i + 3] + 3 <= |d|
    && d[i + 2] == servo && d[i + 4] == LX_READ
    && Complement(Sum(d[i + 2..i + d[i + 3] + 2])) == d[i + d[i + 3] + 2]
  }

  ghost predicate FirstLxReply(d: seq<byte>, i: nat, servo: nat) {
    LxReplyAt(d, i, servo) && forall j | 0 <= j < i :: !LxReplyAt(d, j, servo)
  }

  /** The position in the first complete reply, and nothing when there is none. */
  method DecodeLxPosition(d: seq<byte>, servo: nat) returns (r: Option<int>)
    ensures r.None? <==> forall i | 0 <= i < |d| :: !LxReplyAt(d, i, servo)
    ensures forall i | 0 <= i < |d| && FirstLxReply(d, i, servo) :: r == Some(DecodeI16(d[i + 5], d[i + 6]))
  {
    var i := 0;
    while i + 7 < |d|
      invariant forall j | 0 <= j < i :: !LxReplyAt(d, j, servo)
      decreases |d| - i
    {
      var length: int := d[i + 3];
      var size := length + 3;
      if d[i] == LX_HEAD && d[i + 1] == LX_HEAD && length >= 5
        && i + size <= |d| && d[i + 2] == servo && d[i + 4] == LX_READ
      {
        var sum: nat := 0;
        for k := i + 2 to i + size - 1
          invariant sum == Sum(d[i + 2..k])
        {
          assert d[i + 2..k + 1][..k - i - 2] == d[i + 2..k];
          sum := sum + d[k];
        }
        if Complement(sum) == d[i + size - 1] {
          assert FirstLxReply(d, i, servo);
          return Some(DecodeI16(d[i + 5], d[i + 6]));
        }
      }
      i := i + 1;
    }
    return None;
  }

  function LxReadRequest(servo: nat): seq<byte> {
    LxPacket(servo, LX_READ, [])
  }

  function LxReply(servo: nat, low: byte, high: byte): seq<byte> {
    LxPacket(servo, LX_READ, [low, high])
  }

  /** The half-duplex line echoes the request before the reply.  The reply is then the first one found for every servo
      up to 253; beyond that the encoder clamps the identifier and the decoder does not, so nothing is found. */
  lemma LxEchoThenReply(servo: nat, low: byte, high: byte)
    ensures var d := LxReadRequest(servo) + LxReply(servo, low, high);
            if servo <= 253
            then FirstLxReply(d, 6, servo) && DecodeI16(d[11], d[12]) == DecodeI16(low, high)
            else forall i | 0 <= i < |d| :: !LxReplyAt(d, i, servo)
  {
    var id := LxId(servo);
    var d := LxReadRequest(servo) + LxReply(servo, low, high);
    var sum: nat := (id as int) + 0x1F;
    SumOfThree(id, 3, LX_READ);
    assert LxBody(servo, LX_READ, []) == [id, 3, LX_READ];
    assert d[..6] == [LX_HEAD, LX_HEAD, id, 3, LX_READ, Complement(sum)];
    assert d[6..] == LxReply(servo, low, high);
    assert d[6] == LX_HEAD && d[7] == LX_HEAD && d[8] == id && d[9] == 5 && d[10] == LX_READ && |d| == 14;
    assert LxReply(servo, low, high)[2..7] == LxBody(servo, LX_READ, [low, high]);
    assert d[8..13] == d[6..][2..7];
    forall i | 0 <= i < 6 ensures !LxReplyAt(d, i, servo) {
      assert d[0] == LX_HEAD && d[1] == LX_HEAD && d[2] == id && d[3] == 3 && d[4] == LX_READ;
      assert d[5] == Complement(sum);
    }
  }

  /** Changing any one byte of a complete reply, other than its length byte, makes it no reply any more. */
  lemma LxDamageIsRejected(d: seq<byte>, i: nat, servo: nat, k: nat, v: byte)
    requires LxReplyAt(d, i, servo) && i <= k < i + d[i + 3] + 3 && k != i + 3 && v != d[k]
    ensures !LxReplyAt(d[k := v], i, servo)
  {
    var last := i + d[i + 3] + 2;
    var damaged := d[k := v];
    if i + 2 <= k < last {
      assert damaged[i + 2..last] == d[i + 2..last][k - i - 2 := v];
      SumAfterChange(d[i + 2..last], k - i - 2, v);
    } else {
      assert damaged[i + 2..last] == d[i + 2..last];
    }
  }

  // ---------------------------------------------------------------- ZL

  const HASH: byte := 35
  const BANG: byte := 33
  const DASH: byte := 45
  const LETTER_P: byte := 80

  predicate IsDigit(b: byte) {
    48 <= b <= 57
  }

  function Digit(n: nat): (b: byte)
    requires n < 10
    ensures IsDigit(b)
  {
    48 + n
  }

  function Three(n: nat): seq<byte>
    requires n < 1000
  {
    [Digit(n / 100), Digit(n / 10 % 10), Digit(n % 10)]
  }

  function Four(n: nat): seq<byte>
    requires n < 10000
  {
    [Digit(n / 1000), Digit(n / 100 % 10), Digit(n / 10 % 10), Digit(n % 10)]
  }

  function ZlId(servo: nat): nat {
    if servo < 999 then servo else 999
  }

  function ZlPacket(servo: nat, body: seq<byte>): seq<byte> {
    [HASH] + Three(ZlId(servo)) + body + [BANG]
  }

  function ZlPrefix(servo: nat): (p: seq<byte>)
    ensures |p| == 5
  {
    [HASH] + Three(ZlId(servo)) + [LETTER_P]
  }

  predicate MatchAt(d: seq<byte>, i: nat, p: seq<byte>) {
    i + |p| <= |d| && d[i..i + |p|] == p
  }

  /** Text the decoder hands to the number parser: digits, or a minus sign and any number of digits, even none. */
  predicate LooksNumeric(v: seq<byte>) {
    v != [] && forall k | (if v[0] == DASH then 1 else 0) <= k < |v| :: IsDigit(v[k])
  }

  function Decimal(digits: seq<byte>): int
    requires forall k | 0 <= k < |digits| :: IsDigit(digits[k])
  {
    if digits == [] then 0 else 10 * Decimal(digits[..|digits| - 1]) + digits[|digits| - 1] - 48
  }

  function Wrapped32(v: int): int {
    (v + 0x8000_0000) % 0x1_0000_0000 - 0x8000_0000
  }

  /** The number parser fails on a bare minus sign and outside 64 bits; its result is cut down to 32 bits. */
  function Parsed(v: seq<byte>): Option<int>
    requires LooksNumeric(v)
  {
    if v == [DASH] then None
    else
      var n := if v[0] == DASH then -Decimal(v[1..]) else Decimal(v);
      if -0x8000_0000_0000_0000 <= n < 0x8000_0000_0000_0000 then Some(Wrapped32(n)) else None
  }

  /** In the text between two exclamation marks that ends at `e`, the first prefix for this servo is at `p`. */
  ghost predicate ZlSegment(d: seq<byte>, servo: nat, p: nat, e: nat) {
    && MatchAt(d, p, ZlPrefix(servo)) && p + 5 <= e < |d| && d[e] == BANG
    && (forall x | p + 5 <= x < e :: d[x] != BANG)
    && (forall q | 0 <= q < p && MatchAt(d, q, ZlPrefix(servo)) :: exists x :: q <= x < p && d[x] == BANG)
  }

  ghost predicate ZlReplyAt(d: seq<byte>, servo: nat, p: nat, e: nat) {
    ZlSegment(d, servo, p, e) && LooksNumeric(d[p + 5..e])
  }

  ghost predicate FirstZlReply(d: seq<byte>, servo: nat, p: nat, e: nat) {
    ZlReplyAt(d, servo, p, e) && forall q: nat, f: nat | q < p :: !ZlReplyAt(d, servo, q, f)
  }

  /** Position of `p` in `d` from `from` on, or nothing. */
  method Find(d: seq<byte>, p: seq<byte>, from: nat) returns (r: Option<nat>)
    requires p != []
    ensures r.Some? ==> r.value >= from && MatchAt(d, r.value, p)
    ensures forall j | from <= j < (if r.Some? then r.value else |d|) :: !MatchAt(d, j, p)
  {
    var i := from;
    while i + |p| <= |d|
      invariant from <= i
      invariant forall j | from <= j < i :: !MatchAt(d, j, p)
      decreases |d| - i
    {
      if d[i..i + |p|] == p {
        return Some(i);
      }
      i := i + 1;
    }
    return None;
  }

  method DecodeZlPosition(d: seq<byte>, servo: nat) returns (r: Option<int>)
    ensures forall p: nat, e: nat | FirstZlReply(d, servo, p, e) :: r == Parsed(d[p + 5..e])
    ensures (forall p: nat, e: nat :: !ZlReplyAt(d, servo, p, e)) ==> r.None?
  {
    hide ZlSegment, Parsed, ZlPrefix;
    var prefix := ZlPrefix(servo);
    var start := 0;  // where the segment being searched begins
    var cursor := Find(d, prefix, 0);
    while cursor.Some?
      invariant 0 <= start <= |d| && (start > 0 ==> d[start - 1] == BANG)
      invariant cursor.Some? ==> cursor.value >= start && MatchAt(d, cursor.value, prefix)
      invariant forall j | start <= j < (if cursor.Some? then cursor.value else |d|) :: !MatchAt(d, j, prefix)
      invariant forall p: nat, e: nat | p < start :: !ZlReplyAt(d, servo, p, e)
      decreases |d| - start
    {
      var p := cursor.value;
      var end := Find(d, [BANG], p + 5);
      if end.None? {
        NoEndNoReply(d, servo, start, p);
        return None;
      }
      var e := end.value;
      assert d[e] == BANG by { assert d[e..e + 1][0] == d[e]; }
      SegmentIsFound(d, servo, start, p, e);
      if LooksNumeric(d[p + 5..e]) {
        assert FirstZlReply(d, servo, p, e);
        forall q: nat, f: nat | FirstZlReply(d, servo, q, f) ensures q == p && f == e {
          FirstReplyIsUnique(d, servo, p, e, q, f);
        }
        return Parsed(d[p + 5..e]);
      }
      start := e + 1;
      cursor := Find(d, prefix, e + 1);
    }
    NoPrefixNoReply(d, servo, start);
    return None;
  }

  lemma NoPrefixNoReply(d: seq<byte>, servo: nat, start: nat)
    requires forall q: nat, f: nat | q < start :: !ZlReplyAt(d, servo, q, f)
    requires forall j | start <= j < |d| :: !MatchAt(d, j, ZlPrefix(servo))
    ensures forall q: nat, f: nat :: !ZlReplyAt(d, servo, q, f)
  {
    forall q: nat, f: nat ensures !ZlReplyAt(d, servo, q, f) {
      assert ZlReplyAt(d, servo, q, f) ==> MatchAt(d, q, ZlPrefix(servo));
    }
  }

  lemma NoEndNoReply(d: seq<byte>, servo: nat, start: nat, p: nat)
    requires forall q: nat, f: nat | q < start :: !ZlReplyAt(d, servo, q, f)
    requires forall j | start <= j < p :: !MatchAt(d, j, ZlPrefix(servo))
    requires forall j | p + 5 <= j < |d| :: !MatchAt(d, j, [BANG])
    ensures forall q: nat, f: nat :: !ZlReplyAt(d, servo, q, f)
  {
    forall q: nat, f: nat ensures !ZlReplyAt(d, servo, q, f) {
      assert q >= p && ZlReplyAt(d, servo, q, f) ==> MatchAt(d, f, [BANG]);
    }
  }

  /** The prefix found first in a segment is the segment's, and no other prefix up to its end opens a reply. */
  lemma SegmentIsFound(d: seq<byte>, servo: nat, start: nat, p: nat, e: nat)
    requires start <= p && (start > 0 ==> start <= |d| && d[start - 1] == BANG)
    requires MatchAt(d, p, ZlPrefix(servo)) && p + 5 <= e < |d| && d[e] == BANG
    requires forall j | start <= j < p :: !MatchAt(d, j, ZlPrefix(servo))
    requires forall x | p + 5 <= x < e :: !MatchAt(d, x, [BANG])
    requires forall q: nat, f: nat | q < start :: !ZlReplyAt(d, servo, q, f)
    ensures ZlSegment(d, servo, p, e)
    ensures forall q: nat, f: nat | q < p :: !ZlReplyAt(d, servo, q, f)
    ensures forall q: nat, f: nat | p < q <= e :: !ZlReplyAt(d, servo, q, f)
    ensures forall f: nat | ZlReplyAt(d, servo, p, f) :: f == e
  {
    var prefix := ZlPrefix(servo);
    forall x | p + 5 <= x < e ensures d[x] != BANG {
      assert !MatchAt(d, x, [BANG]);
    }
    forall q | 0 <= q < p && MatchAt(d, q, prefix) ensures exists x :: q <= x < p && d[x] == BANG {
      assert d[start - 1] == BANG;
    }
    forall x | p <= x < e ensures d[x] != BANG {
      if x < p + 5 {
        assert d[p..p + 5][x - p] == prefix[x - p];
      }
    }
  }

  lemma FirstReplyIsUnique(d: seq<byte>, servo: nat, p: nat, e: nat, q: nat, f: nat)
    requires FirstZlReply(d, servo, p, e) && FirstZlReply(d, servo, q, f)
    ensures p == q && e == f
  {
    assert !(p < q) && !(q < p);
    assert !(e < f) && !(f < e);
  }

  function ZlReadRequest(servo: nat): seq<byte> {
    ZlPacket(servo, [LETTER_P, 82, 65, 68])  // "PRAD"
  }

  function ZlReply(servo: nat, position: nat): seq<byte>
    requires position < 10000
  {
    ZlPacket(servo, [LETTER_P] + Four(position))
  }

  lemma ThreeDigitsParse(n: nat)
    requires n < 1000
    ensures LooksNumeric(Three(n)) && Decimal(Three(n)) == n
  {
    var f := Three(n);
    assert f[..2] == [f[0], f[1]] && f[..2][..1] == [f[0]] && f[..2][..1][..0] == [];
    assert Decimal(f[..2][..1]) == n / 100;
    assert Decimal(f[..2]) == n / 10;
  }

  lemma FourDigitsParse(position: nat)
    requires position < 10000
    ensures LooksNumeric(Four(position)) && Decimal(Four(position)) == position
    ensures Parsed(Four(position)) == Some(position)
  {
    var f := Four(position);
    assert f[..3] == Three(position / 10);
    ThreeDigitsParse(position / 10);
    assert f[3] == 48 + position % 10;
    hide Three, Four;
    assert Decimal(f) == 10 * Decimal(f[..3]) + f[3] - 48;
  }

  /** After the echo of the request, the reply is found and its position returned, for every servo and position. */
  lemma ZlEchoThenReply(servo: nat, position: nat)
    requires position < 10000
    ensures var d := ZlReadRequest(servo) + ZlReply(servo, position);
            FirstZlReply(d, servo, 9, 18) && Parsed(d[14..18]) == Some(position)
  {
    var d := ZlReadRequest(servo) + ZlReply(servo, position);
    var prefix := ZlPrefix(servo);
    assert |d| == 19;
    assert d[9..14] == prefix && d[14..18] == Four(position) && d[18] == BANG && d[8] == BANG;
    FourDigitsParse(position);
    assert d[5] == 82;
    NoReplyHere(d, servo, 0);
    forall q | 0 < q < 9 ensures d[q] != HASH {}
    forall q: nat, f: nat | q < 9 ensures !ZlReplyAt(d, servo, q, f) {
      RepliesBeginWithAHash(d, servo, q, f);
    }
  }

  lemma RepliesBeginWithAHash(d: seq<byte>, servo: nat, p: nat, e: nat)
    requires p < |d|
    ensures ZlReplyAt(d, servo, p, e) ==> d[p] == HASH
  {
    if MatchAt(d, p, ZlPrefix(servo)) {
      assert d[p..p + 5][0] == d[p];
    }
  }

  /** Behind a prefix a reply goes on with a digit or a minus sign. */
  lemma NoReplyHere(d: seq<byte>, servo: nat, p: nat)
    requires p + 5 < |d| && !IsDigit(d[p + 5]) && d[p + 5] != DASH
    ensures forall e: nat :: !ZlReplyAt(d, servo, p, e)
  {
    forall e: nat ensures !ZlReplyAt(d, servo, p, e) {
      if p + 5 < e < |d| {
        assert d[p + 5..e][0] == d[p + 5];
      }
    }
  }

  /** Every prefix for this servo in `g` is followed by an exclamation mark in `g`. */
  ghost predicate Terminated(g: seq<byte>, servo: nat) {
    forall q | 0 <= q < |g| && MatchAt(g, q, ZlPrefix(servo)) :: exists x :: q <= x < |g| && g[x] == BANG
  }

  /** A prefix that begins before the reply lies before it: the reply's first byte occurs in a prefix only at its
      start. */
  lemma NoPrefixStraddles(g: seq<byte>, servo: nat, position: nat, q: nat)
    requires position < 10000 && q < |g|
    ensures MatchAt(g + ZlReply(servo, position), q, ZlPrefix(servo)) <==> MatchAt(g, q, ZlPrefix(servo))
  {
    var d, prefix := g + ZlReply(servo, position), ZlPrefix(servo);
    if q + 5 <= |g| {
      assert d[q..q + 5] == g[q..q + 5];
    } else {
      assert d[|g|] == HASH;
      assert d[q..q + 5][|g| - q] == d[|g|];
    }
  }

  lemma ReplyInFrontStays(g: seq<byte>, servo: nat, position: nat, p: nat, e: nat)
    requires position < 10000 && e < |g|
    ensures ZlReplyAt(g + ZlReply(servo, position), servo, p, e) <==> ZlReplyAt(g, servo, p, e)
  {
    var d := g + ZlReply(servo, position);
    if p + 5 <= e {
      NoPrefixStraddles(g, servo, position, p);
      forall q | 0 <= q < p ensures MatchAt(d, q, ZlPrefix(servo)) <==> MatchAt(g, q, ZlPrefix(servo)) {
        NoPrefixStraddles(g, servo, position, q);
      }
      hide MatchAt, ZlPrefix;
      assert d[p + 5..e] == g[p + 5..e];
      forall x | 0 <= x <= e ensures d[x] == g[x] {}
    }
  }

  lemma ReplyIsThere(g: seq<byte>, servo: nat, position: nat)
    requires position < 10000
    ensures var d := g + ZlReply(servo, position);
            ZlReplyAt(d, servo, |g|, |g| + 9) <==> Terminated(g, servo)
  {
    var d, n := g + ZlReply(servo, position), |g|;
    assert d[n..n + 5] == ZlPrefix(servo) && d[n + 5..n + 9] == Four(position) && d[n + 9] == BANG;
    FourDigitsParse(position);
    forall x | n + 5 <= x < n + 9 ensures d[x] != BANG {
      assert d[x] == Four(position)[x - n - 5];
    }
    forall q | 0 <= q < n ensures MatchAt(d, q, ZlPrefix(servo)) <==> MatchAt(g, q, ZlPrefix(servo)) {
      NoPrefixStraddles(g, servo, position, q);
    }
    forall x | 0 <= x < n ensures d[x] == g[x] {}
    hide MatchAt, ZlPrefix, LooksNumeric;
  }

  /** Behind any bytes the reply is the first one found exactly when those bytes hold no reply for this servo, and no
      prefix for it without an exclamation mark behind. */
  lemma ZlReplyBehindBytes(g: seq<byte>, servo: nat, position: nat)
    requires position < 10000
    ensures FirstZlReply(g + ZlReply(servo, position), servo, |g|, |g| + 9) <==>
              Terminated(g, servo) && forall p: nat, e: nat :: !ZlReplyAt(g, servo, p, e)
  {
    var d := g + ZlReply(servo, position);
    ReplyIsThere(g, servo, position);
    forall p: nat, e: nat | ZlReplyAt(g, servo, p, e) ensures ZlReplyAt(d, servo, p, e) && p < |g| {
      ReplyInFrontStays(g, servo, position, p, e);
    }
    forall p: nat, e: nat | p < |g| && Terminated(g, servo) && ZlReplyAt(d, servo, p, e)
      ensures ZlReplyAt(g, servo, p, e)
    {
      NoPrefixStraddles(g, servo, position, p);
      var x :| p <= x < |g| && g[x] == BANG;
      assert d[x] == BANG && x >= p + 5 by { PrefixHoldsNoEnd(d, servo, p, x); }
      ReplyInFrontStays(g, servo, position, p, e);
    }
  }

  lemma PrefixHoldsNoEnd(d: seq<byte>, servo: nat, p: nat, x: nat)
    requires MatchAt(d, p, ZlPrefix(servo)) && p <= x < |d| && d[x] == BANG
    ensures x >= p + 5
  {
    forall y | p <= y < p + 5 ensures d[y] == ZlPrefix(servo)[y - p] {
      assert d[p..p + 5][y - p] == d[y];
    }
  }

  /** The shortest case: a frame cut off behind its prefix swallows the next one.  The digits are there, but no
      reply. */
  lemma ZlTruncatedFrameHidesTheNext(servo: nat, position: nat)
    requires position < 10000
    ensures var d := ZlPrefix(servo) + ZlReply(servo, position);
            && MatchAt(d, 5, ZlPrefix(servo)) && LooksNumeric(d[10..14]) && d[14] == BANG
            && forall p: nat, e: nat :: !ZlReplyAt(d, servo, p, e)
  {
    var d := ZlPrefix(servo) + ZlReply(servo, position);
    var prefix := ZlPrefix(servo);
    assert |d| == 15 && d[5] == HASH && d[14] == BANG;
    assert d[0..5] == prefix && d[5..10] == prefix && d[10..14] == Four(position);
    NoReplyHere(d, servo, 0);
    assert MatchAt(d, 0, prefix);
    forall q | 0 < q < 15 && q != 5 ensures d[q] != HASH {}
    forall p: nat, e: nat ensures !ZlReplyAt(d, servo, p, e) {
      if p < |d| {
        RepliesBeginWithAHash(d, servo, p, e);
      }
      if p == 5 {
        HiddenByAPrefix(d, servo, e);
      }
    }
  }

  lemma HiddenByAPrefix(d: seq<byte>, servo: nat, e: nat)
    requires MatchAt(d, 0, ZlPrefix(servo)) && forall x | 0 <= x < 5 && x < |d| :: d[x] != BANG
    ensures !ZlReplyAt(d, servo, 5, e)
  {}

  // ---------------------------------------------------------------- moves

  function Min(a: nat, b: nat): nat {
    if a < b then a else b
  }

  function LxMove(servo: nat, position: nat, duration: nat): seq<byte> {
    var p, t := Min(position, 1000), Min(duration, 30000);
    LxPacket(servo, 1, [p % 256, p / 256, t % 256, t / 256])
  }

  function ZlMove(servo: nat, position: nat, duration: nat): seq<byte> {
    ZlPacket(servo, [LETTER_P] + Four(Min(position, 9999)) + [84] + Four(Min(duration, 9999)))
  }

  /** Either move frame carries the clamped position and duration, read back by the decoders' own number readers. */
  lemma MoveCarriesTheClampedTarget(servo: nat, position: nat, duration: nat)
    ensures var e := LxMove(servo, position, duration);
            |e| == 10 && DecodeI16(e[5], e[6]) == Min(position, 1000) && DecodeI16(e[7], e[8]) == Min(duration, 30000)
    ensures var e := ZlMove(servo, position, duration);
            && |e| == 15 && MatchAt(e, 0, ZlPrefix(servo))
            && LooksNumeric(e[5..9]) && Parsed(e[5..9]) == Some(Min(position, 9999))
            && LooksNumeric(e[10..14]) && Parsed(e[10..14]) == Some(Min(duration, 9999))
  {
    var e := ZlMove(servo, position, duration);
    assert e[0..5] == ZlPrefix(servo);
    assert e[5..9] == Four(Min(position, 9999)) && e[10..14] == Four(Min(duration, 9999));
    FourDigitsParse(Min(position, 9999));
    FourDigitsParse(Min(duration, 9999));
  }

  /** The LX move frame addresses the servo with the move command. */
  lemma LxMoveAddressesTheServo(servo: nat, position: nat, duration: nat)
    ensures var e := LxMove(servo, position, duration);
            e[2] == (if servo < 253 then servo else 253) && e[3] == 7 && e[4] == 1 && Sum(e[2..]) % 256 == 255
  {
    var p, t := Min(position, 1000), Min(duration, 30000);
    LxPacketLayout(servo, 1, [p % 256, p / 256, t % 256, t / 256]);
  }

  /** Every ZL frame addresses the servo, in three digits up to 999, between a hash and the closing mark. */
  lemma ZlFramesAddressTheServo(servo: nat, body: seq<byte>)
    ensures var e := ZlPacket(servo, body);
            && |e| == |body| + 5 && e[0] == 35 && e[|e| - 1] == 33 && e[4..|e| - 1] == body
            && LooksNumeric(e[1..4]) && Decimal(e[1..4]) == Min(servo, 999)
  {
    ThreeDigitsParse(Min(servo, 999));
    assert ZlPacket(servo, body)[1..4] == Three(Min(servo, 999));
  }

  /** A position with a minus sign is read as negative. */
  lemma NegativePositionsParse(position: int)
    requires 0 <= position < 10000
    ensures LooksNumeric([DASH] + Four(position)) && Parsed([DASH] + Four(position)) == Some(-position)
  {
    FourDigitsParse(position);
    assert ([DASH] + Four(position))[1..] == Four(position);
    hide Decimal, Four;
  }
}
