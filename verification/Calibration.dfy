/** Joint positions and raw servo values: the calibration maps, over exact reals. */
module Calibration {
  import UnitConversion

  datatype Calibration = Calibration(
    positionMin: real, positionMax: real, rawMin: real, rawMax: real, offset: real, direction: real)

  predicate Valid(c: Calibration) {
    c.positionMin < c.positionMax && c.rawMin < c.rawMax && (c.direction == 1.0 || c.direction == -1.0)
  }

  function Clamped(v: real, low: real, high: real): real {
    if v < low then low else if v > high then high else v
  }

  /** The direction is 1 or -1: it keeps or turns the sign. */
  function Turned(x: real, c: Calibration): real {
    c.direction * x
  }

  lemma TurnedIsASign(x: real, c: Calibration)
    requires Valid(c)
    ensures Turned(x, c) == if c.direction == 1.0 then x else -x
  {}

  /** From an interval of width `d` to one of width `e`. */
  function Scaled(x: real, d: real, e: real): real
    requires d > 0.0
  {
    x / d * e
  }

  /** The joint position as the servo sees it: turned by the direction and shifted. */
  function Directed(position: real, c: Calibration): real {
    Turned(position, c) + c.offset
  }

  function ToRaw(position: real, c: Calibration): real
    requires Valid(c)
  {
    var bounded := Clamped(Directed(position, c), c.positionMin, c.positionMax);
    c.rawMin + Scaled(bounded - c.positionMin, c.positionMax - c.positionMin, c.rawMax - c.rawMin)
  }

  function ToPosition(raw: real, c: Calibration): real
    requires Valid(c)
  {
    var bounded := Clamped(raw, c.rawMin, c.rawMax);
    var directed := c.positionMin + Scaled(bounded - c.rawMin, c.rawMax - c.rawMin, c.positionMax - c.positionMin);
    Turned(directed - c.offset, c)
  }

  /** Scaling from one interval to another and back is the identity, and stays inside. */
  lemma ScalingInverts(x: real, d: real, e: real)
    requires 0.0 <= x <= d && 0.0 < d && 0.0 < e
    ensures 0.0 <= Scaled(x, d, e) <= e && Scaled(Scaled(x, d, e), e, d) == x
  {
    var q := x / d;
    assert q * d == x;
    assert 0.0 <= q <= 1.0 by {
      assert q > 1.0 ==> q * d > d;
      assert q < 0.0 ==> q * d < 0.0;
    }
    assert 0.0 <= q * e <= e;
    assert (q * e) / e == q;
  }

  /** The position that the range allows. */
  function ClampedPosition(position: real, c: Calibration): real {
    Turned(Clamped(Directed(position, c), c.positionMin, c.positionMax) - c.offset, c)
  }

  /** Reading back what was written gives the position clamped into the range: the position itself exactly when it was
      in range. */
  lemma ReadBackIsTheClampedPosition(position: real, c: Calibration)
    requires Valid(c)
    ensures c.rawMin <= ToRaw(position, c) <= c.rawMax
    ensures ToPosition(ToRaw(position, c), c) == ClampedPosition(position, c)
    ensures ToPosition(ToRaw(position, c), c) == position <==> c.positionMin <= Directed(position, c) <= c.positionMax
  {
    hide Scaled, Turned;
    var bounded := Clamped(Directed(position, c), c.positionMin, c.positionMax);
    ScalingInverts(bounded - c.positionMin, c.positionMax - c.positionMin, c.rawMax - c.rawMin);
    TurnedIsASign(position, c);
    TurnedIsASign(bounded - c.offset, c);
    assert ToPosition(ToRaw(position, c), c) == Turned(bounded - c.offset, c);
  }

  lemma WriteBackIsTheClampedRaw(raw: real, c: Calibration)
    requires Valid(c)
    ensures ToRaw(ToPosition(raw, c), c) == Clamped(raw, c.rawMin, c.rawMax)
  {
    hide Scaled, Turned;
    var bounded := Clamped(raw, c.rawMin, c.rawMax);
    ScalingInverts(bounded - c.rawMin, c.rawMax - c.rawMin, c.positionMax - c.positionMin);
    var directed := c.positionMin + Scaled(bounded - c.rawMin, c.rawMax - c.rawMin, c.positionMax - c.positionMin);
    TurnedIsASign(directed - c.offset, c);
    TurnedIsASign(ToPosition(raw, c), c);
    assert Directed(ToPosition(raw, c), c) == directed;
  }

  /** The width in joint units of one raw step. */
  function RawStep(c: Calibration): real
    requires Valid(c)
  {
    (c.positionMax - c.positionMin) / (c.rawMax - c.rawMin)
  }

  lemma RawStepIsPositive(c: Calibration)
    requires Valid(c)
    ensures RawStep(c) > 0.0
  {
    ScaleByStep(0.0, c.rawMax - c.rawMin, c.positionMax - c.positionMin);
  }

  function Abs(x: real): real {
    if x < 0.0 then -x else x
  }

  /** The length of `x` raw steps. */
  function Length(x: real, step: real): real {
    x * step
  }

  lemma ScaleByStep(x: real, d: real, e: real)
    requires d > 0.0 && e > 0.0
    ensures e / d > 0.0 && Scaled(x, d, e) == Length(x, e / d)
  {
    var q, step := x / d, e / d;
    assert q * d == x && step * d == e;
    assert q * (step * d) == (q * d) * step;
  }

  /** Reading is a clamped straight line whose slope is the raw step. */
  lemma ReadingIsALine(raw: real, c: Calibration)
    requires Valid(c)
    ensures RawStep(c) > 0.0
    ensures ToPosition(raw, c) ==
              Turned(c.positionMin + Length(Clamped(raw, c.rawMin, c.rawMax) - c.rawMin, RawStep(c)) - c.offset, c)
  {
    hide Scaled, Turned, Length;
    ScaleByStep(Clamped(raw, c.rawMin, c.rawMax) - c.rawMin, c.rawMax - c.rawMin, c.positionMax - c.positionMin);
  }

  /** Two readings are as many raw steps apart as their clamped raw values. */
  lemma ReadingDistance(a: real, b: real, c: Calibration)
    requires Valid(c)
    ensures Abs(ToPosition(a, c) - ToPosition(b, c))
         == Length(Abs(Clamped(a, c.rawMin, c.rawMax) - Clamped(b, c.rawMin, c.rawMax)), RawStep(c))
  {
    hide ToPosition, RawStep, Turned, Length, Clamped;
    ReadingIsALine(a, c);
    ReadingIsALine(b, c);
    var x, y := Clamped(a, c.rawMin, c.rawMax) - c.rawMin, Clamped(b, c.rawMin, c.rawMax) - c.rawMin;
    ScaledDistance(x, y, RawStep(c));
    TurningKeepsDistance(Length(x, RawStep(c)), Length(y, RawStep(c)), c);
    assert Abs(x - y) == Abs(Clamped(a, c.rawMin, c.rawMax) - Clamped(b, c.rawMin, c.rawMax));
  }

  lemma ReadingIsLipschitz(a: real, b: real, c: Calibration)
    requires Valid(c)
    ensures Abs(ToPosition(a, c) - ToPosition(b, c)) <= Length(Abs(a - b), RawStep(c))
  {
    hide ToPosition, RawStep, Length;
    ReadingDistance(a, b, c);
    RawStepIsPositive(c);
    var near := Abs(Clamped(a, c.rawMin, c.rawMax) - Clamped(b, c.rawMin, c.rawMax));
    LengthGrows(near, Abs(a - b), RawStep(c));
  }

  lemma LengthGrows(x: real, y: real, step: real)
    requires x <= y && step > 0.0
    ensures Length(x, step) <= Length(y, step)
  {
    assert (y - x) * step >= 0.0;
  }

  lemma TurningKeepsDistance(x: real, y: real, c: Calibration)
    requires Valid(c)
    ensures Abs(Turned(c.positionMin + x - c.offset, c) - Turned(c.positionMin + y - c.offset, c)) == Abs(x - y)
  {
    hide Turned;
    TurnedIsASign(c.positionMin + x - c.offset, c);
    TurnedIsASign(c.positionMin + y - c.offset, c);
  }

  lemma ScaledDistance(x: real, y: real, step: real)
    requires step > 0.0
    ensures Abs(Length(x, step) - Length(y, step)) == Length(Abs(x - y), step)
  {
    var t := x - y;
    assert x * step - y * step == t * step;
    assert t >= 0.0 ==> t * step >= 0.0;
    assert t < 0.0 ==> t * step < 0.0 && (-t) * step == -(t * step);
  }

  /** The ends of the position range are written as the ends of the raw range. */
  lemma EndsMapToEnds(position: real, c: Calibration)
    requires Valid(c)
    ensures c.direction * position + c.offset <= c.positionMin ==> ToRaw(position, c) == c.rawMin
    ensures c.direction * position + c.offset >= c.positionMax ==> ToRaw(position, c) == c.rawMax
  {
    var d, e := c.positionMax - c.positionMin, c.rawMax - c.rawMin;
    assert Directed(position, c) == c.direction * position + c.offset;
    hide Directed, Scaled;
    ScaledEnds(d, e);
  }

  lemma ScaledEnds(d: real, e: real)
    requires d > 0.0
    ensures Scaled(0.0, d, e) == 0.0 && Scaled(d, d, e) == e
  {
    assert d / d == 1.0;
  }

  lemma ScalingIsIncreasing(x: real, y: real, d: real, e: real)
    requires d > 0.0 && e > 0.0 && x < y
    ensures Scaled(x, d, e) < Scaled(y, d, e)
  {
    var p, q := x / d, y / d;
    assert p * d == x && q * d == y;
    assert (q - p) * d > 0.0;
    assert q - p > 0.0;
    assert (q - p) * e > 0.0;
  }

  /** In between, a joint that turns the servo's way is written higher the higher its position. */
  lemma WritingIsIncreasing(p: real, q: real, c: Calibration)
    requires Valid(c) && c.positionMin <= c.direction * p + c.offset < c.direction * q + c.offset <= c.positionMax
    ensures ToRaw(p, c) < ToRaw(q, c)
  {
    assert Directed(p, c) == c.direction * p + c.offset && Directed(q, c) == c.direction * q + c.offset;
    hide Directed, Scaled;
    ScalingIsIncreasing(Directed(p, c) - c.positionMin, Directed(q, c) - c.positionMin,
                        c.positionMax - c.positionMin, c.rawMax - c.rawMin);
  }

  // ---------------------------------------------------------------- rounding and the frame encoder

  /** Rounding to the nearest integer, halves away from zero. */
  function Lround(x: real): int {
    if x >= 0.0 then (x + 0.5).Floor else -(-x + 0.5).Floor
  }

  /** The largest position a move frame carries. */
  function EncoderMax(p: UnitConversion.Protocol): nat {
    if p == UnitConversion.Lx then 1000 else 9999
  }

  /** What the move frame carries for a raw value: rounded, cut to 16 bits, and clamped by the frame encoder. */
  function Carried(raw: real, p: UnitConversion.Protocol): nat {
    var cut := Lround(raw) % 0x1_0000;
    if cut < EncoderMax(p) then cut else EncoderMax(p)
  }

  lemma LroundIsNear(raw: real)
    ensures Abs(Lround(raw) as real - raw) <= 0.5
  {}

  lemma HalfOfAStep(distance: real, step: real)
    requires step > 0.0
    ensures Length(distance, step) <= step / 2.0 <==> distance <= 0.5
  {
    var room := 0.5 - distance;
    assert room * step == step / 2.0 - distance * step;
    assert room >= 0.0 ==> room * step >= 0.0;
    assert room < 0.0 ==> room * step < 0.0;
  }

  /** Rounding the raw value in between moves the position by at most half a raw step, under every valid calibration. */
  lemma RoundedPositionIsReadWithinHalfAStep(position: real, c: Calibration)
    requires Valid(c)
    ensures Abs(ToPosition(Lround(ToRaw(position, c)) as real, c) - ClampedPosition(position, c)) <= RawStep(c) / 2.0
  {
    hide ToPosition, RawStep, ToRaw, Clamped, Directed, Turned, Length, Lround;
    ReadBackIsTheClampedPosition(position, c);
    RawStepIsPositive(c);
    var raw := ToRaw(position, c);
    var rounded := Lround(raw) as real;
    LroundIsNear(raw);
    ReadingIsLipschitz(rounded, raw, c);
    HalfOfAStep(Abs(rounded - raw), RawStep(c));
  }

  /** The frame carries the rounded raw value exactly when that value fits the encoder. */
  lemma CarriedIsTheRoundedRaw(raw: real, p: UnitConversion.Protocol)
    ensures Carried(raw, p) == Lround(raw) <==> 0 <= Lround(raw) <= EncoderMax(p)
    ensures 0 <= Lround(raw) <= EncoderMax(p) <==> -0.5 < raw < EncoderMax(p) as real + 0.5
  {}

  /** Whether the servo is sent close enough: the raw value fits the encoder up to rounding, or it does not but lies
      within half a step of the end of the raw range to which reading clamps. */
  predicate FitsTheEncoder(raw: real, p: UnitConversion.Protocol, c: Calibration) {
    || -0.5 < raw <= EncoderMax(p) as real + 0.5
    || (raw > 0.0 && raw - c.rawMin <= 0.5)
    || (raw < 0.0 && c.rawMax - raw <= 0.5)
  }

  lemma CarriedIsNear(raw: real, p: UnitConversion.Protocol, c: Calibration)
    requires Valid(c) && c.rawMin <= raw <= c.rawMax
    ensures Abs(Clamped(Carried(raw, p) as real, c.rawMin, c.rawMax) - raw) <= 0.5 <==> FitsTheEncoder(raw, p, c)
  {}

  /** The position written in a frame and read back is within half a raw step of the clamped position exactly when the
      raw value fits the encoder. */
  lemma WrittenPositionIsReadWithinHalfAStep(position: real, c: Calibration, p: UnitConversion.Protocol)
    requires Valid(c)
    ensures Abs(ToPosition(Carried(ToRaw(position, c), p) as real, c) - ClampedPosition(position, c))
              <= RawStep(c) / 2.0
            <==> FitsTheEncoder(ToRaw(position, c), p, c)
  {
    hide ToPosition, RawStep, ToRaw, Clamped, Directed, Turned, Length, Carried, FitsTheEncoder;
    ReadBackIsTheClampedPosition(position, c);
    RawStepIsPositive(c);
    var raw := ToRaw(position, c);
    var carried := Carried(raw, p) as real;
    ReadingDistance(carried, raw, c);
    ClampedInRange(raw, c.rawMin, c.rawMax);
    CarriedIsNear(raw, p, c);
    HalfOfAStep(Abs(Clamped(carried, c.rawMin, c.rawMax) - raw), RawStep(c));
  }

  lemma ClampedInRange(v: real, low: real, high: real)
    requires low <= v <= high
    ensures Clamped(v, low, high) == v
  {}

  const WIDE := Calibration(0.0, 1.0, 0.0, 2000.0, 0.0, 1.0)

  lemma WideRangeIsWritten()
    ensures ToRaw(1.0, WIDE) == 2000.0
  {
    hide Scaled, Turned;
    TurnedIsASign(1.0, WIDE);
    assert Scaled(1.0, 1.0, 2000.0) == 2000.0 by { WideRangeScales(); }
  }

  lemma WideRangeIsRead()
    ensures ToPosition(1000.0, WIDE) == 0.5
  {
    hide Scaled, Turned;
    TurnedIsASign(0.5, WIDE);
    assert Scaled(1000.0, 2000.0, 1.0) == 0.5 by { WideRangeScales(); }
  }

  lemma WideRangeScales()
    ensures Scaled(1.0, 1.0, 2000.0) == 2000.0 && Scaled(1000.0, 2000.0, 1.0) == 0.5
  {}

  lemma WideRangeIsCut()
    ensures Carried(2000.0, UnitConversion.Lx) == 1000 && !FitsTheEncoder(2000.0, UnitConversion.Lx, WIDE)
  {
    assert Lround(2000.0) == 2000;
  }

  /** An LX servo whose raw range goes up to 2000: its upper end is written as 1000 and read back in the middle. */
  lemma WideRangeIsCutByTheEncoder()
    ensures Valid(WIDE) && !FitsTheEncoder(ToRaw(1.0, WIDE), UnitConversion.Lx, WIDE)
    ensures Carried(ToRaw(1.0, WIDE), UnitConversion.Lx) == 1000 && ToPosition(1000.0, WIDE) == 0.5
  {
    hide ToRaw, ToPosition, Carried, FitsTheEncoder;
    WideRangeIsWritten();
    WideRangeIsRead();
    WideRangeIsCut();
  }
}
