/** Pulse widths and protocol units: the integer conversions of the port driver.

    The source rounds floating-point quotients half to even.  `Rounded` does the same on exact rationals. */
module UnitConversion {

  datatype Protocol = Lx | Zl

  /** `n / d` rounded to the nearest integer, ties to the even one. */
  function Rounded(n: int, d: int): int
    requires d > 0
  {
    var q, r := n / d, n % d;
    if 2 * r < d || (2 * r == d && q % 2 == 0) then q else q + 1
  }

  /** The result is at most half a unit away. */
  lemma RoundedIsNearest(n: int, d: int)
    requires d > 0
    ensures -d <= 2 * (n - d * Rounded(n, d)) <= d
  {}

  function Clamped(v: int, low: int, high: int): int {
    if v < low then low else if v > high then high else v
  }

  const PULSE_MIN := 500
  const PULSE_MAX := 2500

  function UnitMin(p: Protocol): int {
    if p == Lx then 125 else 833
  }

  function UnitMax(p: Protocol): int {
    if p == Lx then 875 else 2167
  }

  /** 750 / 2000 units per pulse step for LX, 1334 / 2000 for ZL, in lowest terms. */
  function PulseToUnit(p: Protocol, pulse: int): int {
    var k := Clamped(pulse, PULSE_MIN, PULSE_MAX) - PULSE_MIN;
    if p == Lx then Rounded(125 * 8 + 3 * k, 8) else Rounded(833 * 1000 + 667 * k, 1000)
  }

  function UnitToPulse(p: Protocol, unit: int): int {
    var k := Clamped(unit, UnitMin(p), UnitMax(p)) - UnitMin(p);
    if p == Lx then Rounded(500 * 3 + 8 * k, 3) else Rounded(500 * 667 + 1000 * k, 667)
  }

  function AngleToPulse(degrees: int): int {
    Rounded(500 * 9 + 100 * degrees, 9)
  }

  /** The protocol unit to write and the pulse to report, for any integer a command may carry. */
  function NormalizedMoveTarget(p: Protocol, position: int): (int, int) {
    if PULSE_MIN <= position <= PULSE_MAX then (PulseToUnit(p, position), position)
    else if 0 <= position <= 180 then (PulseToUnit(p, AngleToPulse(position)), AngleToPulse(position))
    else
      var unit := Clamped(position, UnitMin(p), UnitMax(p));
      (unit, UnitToPulse(p, unit))
  }

  lemma ConversionsStayInRange(p: Protocol, v: int)
    ensures UnitMin(p) <= PulseToUnit(p, v) <= UnitMax(p)
    ensures PULSE_MIN <= UnitToPulse(p, v) <= PULSE_MAX
    ensures 0 <= v <= 180 ==> PULSE_MIN <= AngleToPulse(v) <= PULSE_MAX
  {}

  /** Writing a pulse and reading the servo back changes it by at most one. */
  lemma ReadBackIsWithinOne(p: Protocol, pulse: int)
    requires PULSE_MIN <= pulse <= PULSE_MAX
    ensures -1 <= UnitToPulse(p, PulseToUnit(p, pulse)) - pulse <= 1
  {
    ConversionsStayInRange(p, pulse);
    var u := PulseToUnit(p, pulse);
    if p == Lx {
      RoundedIsNearest(125 * 8 + 3 * (pulse - 500), 8);
      RoundedIsNearest(500 * 3 + 8 * (u - 125), 3);
    } else {
      RoundedIsNearest(833 * 1000 + 667 * (pulse - 500), 1000);
      RoundedIsNearest(500 * 667 + 1000 * (u - 833), 667);
    }
  }

  lemma UnitIsReadBackExactly(p: Protocol, unit: int)
    requires UnitMin(p) <= unit <= UnitMax(p)
    ensures PulseToUnit(p, UnitToPulse(p, unit)) == unit
  {
    ConversionsStayInRange(p, unit);
    var pulse := UnitToPulse(p, unit);
    if p == Lx {
      RoundedIsNearest(500 * 3 + 8 * (unit - 125), 3);
      RoundedIsNearest(125 * 8 + 3 * (pulse - 500), 8);
    } else {
      RoundedIsNearest(500 * 667 + 1000 * (unit - 833), 667);
      RoundedIsNearest(833 * 1000 + 667 * (pulse - 500), 1000);
    }
  }

  /** One is the best possible: some pulses of either protocol come back one off. */
  lemma ReadBackIsNotExact()
    ensures UnitToPulse(Lx, PulseToUnit(Lx, 504)) == 503
    ensures UnitToPulse(Zl, PulseToUnit(Zl, 501)) == 501 && UnitToPulse(Zl, PulseToUnit(Zl, 502)) == 501
  {
    assert Rounded(1012, 8) == 126 && Rounded(1508, 3) == 503;
    assert Rounded(833667, 1000) == 834 && Rounded(834334, 1000) == 834 && Rounded(334500, 667) == 501;
    hide Rounded;
  }

  /** A pulse comes back unchanged exactly when some unit stands for it: in LX three of every eight, in ZL two of
      three. */
  lemma ReadBackIsExactWhen(p: Protocol, pulse: int)
    requires PULSE_MIN <= pulse <= PULSE_MAX
    ensures UnitToPulse(p, PulseToUnit(p, pulse)) == pulse <==>
              exists unit :: UnitMin(p) <= unit <= UnitMax(p) && UnitToPulse(p, unit) == pulse
    ensures p == Lx ==>
              (UnitToPulse(p, PulseToUnit(p, pulse)) == pulse <==> (pulse - PULSE_MIN) % 8 in {0, 3, 5})
    ensures p == Zl ==>
              (UnitToPulse(p, PulseToUnit(p, pulse)) == pulse <==> (667 * (pulse - PULSE_MIN) + 333) % 1000 <= 666)
  {
    ConversionsStayInRange(p, pulse);
    hide UnitToPulse, PulseToUnit;
    forall unit | UnitMin(p) <= unit <= UnitMax(p) && UnitToPulse(p, unit) == pulse
      ensures UnitToPulse(p, PulseToUnit(p, pulse)) == pulse
    {
      UnitIsReadBackExactly(p, unit);
    }
    if p == Lx {
      LxReadBackIsExactWhen(pulse);
    } else {
      ZlReadBackIsExactWhen(pulse);
    }
  }

  /** With the odd divisors used here there are no ties. */
  lemma RoundedByOdd(n: int, d: int, m: int)
    requires d == 3 || d == 667
    ensures Rounded(n, d) == m <==> -d < 2 * (n - d * m) < d
  {
    if d == 3 {
      assert Rounded(n, 3) == m <==> -3 < 2 * (n - 3 * m) < 3;
    } else {
      assert Rounded(n, 667) == m <==> -667 < 2 * (n - 667 * m) < 667;
    }
  }

  lemma LxReadBackIsExactWhen(pulse: int)
    requires PULSE_MIN <= pulse <= PULSE_MAX
    ensures UnitToPulse(Lx, PulseToUnit(Lx, pulse)) == pulse <==> (pulse - PULSE_MIN) % 8 in {0, 3, 5}
  {
    ConversionsStayInRange(Lx, pulse);
    var k, u := pulse - PULSE_MIN, PulseToUnit(Lx, pulse) - 125;
    RoundedIsNearest(125 * 8 + 3 * k, 8);
    RoundedByOdd(500 * 3 + 8 * u, 3, pulse);
    hide Rounded;
    LxResidue(k, u, 3 * k - 8 * u);
  }

  lemma LxResidue(k: int, u: int, t: int)
    requires t == 3 * k - 8 * u && -4 <= t <= 4
    ensures -1 <= t <= 1 <==> k % 8 in {0, 3, 5}
  {
    var q, r := k / 8, k % 8;
    assert t == 3 * r - 8 * (u - 3 * q);
  }

  lemma ZlReadBackIsExactWhen(pulse: int)
    requires PULSE_MIN <= pulse <= PULSE_MAX
    ensures UnitToPulse(Zl, PulseToUnit(Zl, pulse)) == pulse <==> (667 * (pulse - PULSE_MIN) + 333) % 1000 <= 666
  {
    ConversionsStayInRange(Zl, pulse);
    var k, u := pulse - PULSE_MIN, PulseToUnit(Zl, pulse) - 833;
    RoundedIsNearest(833 * 1000 + 667 * k, 1000);
    RoundedByOdd(500 * 667 + 1000 * u, 667, pulse);
    hide Rounded;
    ZlResidue(667 * k, u, 667 * k - 1000 * u);
  }

  lemma ZlResidue(n: int, u: int, t: int)
    requires t == n - 1000 * u && -500 <= t <= 500
    ensures -333 <= t <= 333 <==> (n + 333) % 1000 <= 666
  {
    assert n + 333 == 1000 * u + (t + 333);
  }

  /** Normalisation of any integer gives a unit and a pulse in range that belong together. */
  lemma NormalizationIsConsistent(p: Protocol, position: int)
    ensures var (unit, pulse) := NormalizedMoveTarget(p, position);
            && UnitMin(p) <= unit <= UnitMax(p) && PULSE_MIN <= pulse <= PULSE_MAX
            && unit == PulseToUnit(p, pulse) && -1 <= UnitToPulse(p, unit) - pulse <= 1
            && (PULSE_MIN <= position <= PULSE_MAX ==> pulse == position)
  {
    var (unit, pulse) := NormalizedMoveTarget(p, position);
    if PULSE_MIN <= position <= PULSE_MAX || 0 <= position <= 180 {
      ConversionsStayInRange(p, position);
      ConversionsStayInRange(p, pulse);
    } else {
      ConversionsStayInRange(p, unit);
      UnitIsReadBackExactly(p, unit);
    }
    ReadBackIsWithinOne(p, pulse);
  }

  /** How a command's position is understood: as a pulse if it is one, else as an angle if it is one, and else as a
      protocol unit, clamped into the range. */
  lemma NormalizationReadsTheCommand(p: Protocol, position: int)
    ensures var (unit, pulse) := NormalizedMoveTarget(p, position);
            && (500 <= position <= 2500 ==> pulse == position)
            && (0 <= position <= 180 ==> pulse == AngleToPulse(position))
            && (!(500 <= position <= 2500) && !(0 <= position <= 180) ==>
                  && UnitMin(p) <= unit <= UnitMax(p)
                  && (UnitMin(p) <= position <= UnitMax(p) ==> unit == position)
                  && (position < UnitMin(p) ==> unit == UnitMin(p))
                  && (position > UnitMax(p) ==> unit == UnitMax(p)))
  {}

  // ---------------------------------------------------------------- ends, direction and ties

  /** Half-way values are rounded to the even neighbour. */
  lemma TiesGoToEven(n: int, d: int)
    requires d > 0 && (2 * (n - d * Rounded(n, d)) == d || 2 * (n - d * Rounded(n, d)) == -d)
    ensures Rounded(n, d) % 2 == 0
  {
    var q, r := n / d, n % d;
    assert n == d * q + r;
    if Rounded(n, d) == q {
      assert 2 * r == d;
    } else {
      assert n - d * (q + 1) == r - d;
      assert 2 * r == d;
    }
  }

  lemma ProductIsAtLeast(d: int, g: int)
    requires d > 0
    ensures g >= 1 ==> d * g >= d
  {}

  lemma QuotientKeepsOrder(m: int, n: int, d: int)
    requires d > 0 && m <= n
    ensures m / d <= n / d
  {
    var q, r, u, v := m / d, m % d, n / d, n % d;
    assert m == d * q + r && n == d * u + v && 0 <= r && v < d;
    var g := q - u;
    ProductIsAtLeast(d, g);
    assert d * q == d * u + d * g;
  }

  lemma RoundingKeepsOrder(m: int, n: int, d: int)
    requires d > 0 && m <= n
    ensures Rounded(m, d) <= Rounded(n, d)
  {
    var q, r, u, v := m / d, m % d, n / d, n % d;
    assert m == d * q + r && n == d * u + v;
    assert q <= u by { QuotientKeepsOrder(m, n, d); }
    if q < u {
      assert Rounded(m, d) <= q + 1 <= u;
    }
  }

  /** All conversions keep the direction, and map the ends of one range to the ends of the other. */
  lemma ConversionsKeepDirection(p: Protocol, v: int, w: int)
    requires v <= w
    ensures PulseToUnit(p, v) <= PulseToUnit(p, w) && UnitToPulse(p, v) <= UnitToPulse(p, w)
    ensures AngleToPulse(v) <= AngleToPulse(w)
    ensures PulseToUnit(p, PULSE_MIN) == UnitMin(p) && PulseToUnit(p, PULSE_MAX) == UnitMax(p)
    ensures UnitToPulse(p, UnitMin(p)) == PULSE_MIN && UnitToPulse(p, UnitMax(p)) == PULSE_MAX
    ensures AngleToPulse(0) == PULSE_MIN && AngleToPulse(90) == 1500 && AngleToPulse(180) == PULSE_MAX
  {
    hide Rounded;
    var k, l := Clamped(v, PULSE_MIN, PULSE_MAX) - PULSE_MIN, Clamped(w, PULSE_MIN, PULSE_MAX) - PULSE_MIN;
    var i, j := Clamped(v, UnitMin(p), UnitMax(p)) - UnitMin(p), Clamped(w, UnitMin(p), UnitMax(p)) - UnitMin(p);
    RoundingKeepsOrder(500 * 9 + 100 * v, 500 * 9 + 100 * w, 9);
    if p == Lx {
      RoundingKeepsOrder(125 * 8 + 3 * k, 125 * 8 + 3 * l, 8);
      RoundingKeepsOrder(500 * 3 + 8 * i, 500 * 3 + 8 * j, 3);
    } else {
      RoundingKeepsOrder(833 * 1000 + 667 * k, 833 * 1000 + 667 * l, 1000);
      RoundingKeepsOrder(500 * 667 + 1000 * i, 500 * 667 + 1000 * j, 667);
    }
    RangeEnds(p);
  }

  lemma RangeEnds(p: Protocol)
    ensures PulseToUnit(p, PULSE_MIN) == UnitMin(p) && PulseToUnit(p, PULSE_MAX) == UnitMax(p)
    ensures UnitToPulse(p, UnitMin(p)) == PULSE_MIN && UnitToPulse(p, UnitMax(p)) == PULSE_MAX
    ensures AngleToPulse(0) == PULSE_MIN && AngleToPulse(90) == 1500 && AngleToPulse(180) == PULSE_MAX
  {}

  /** The unit is the one nearest to the pulse's place in its range, and so is the pulse of an angle. */
  lemma ConversionsAreNearest(pulse: int, degrees: int)
    requires PULSE_MIN <= pulse <= PULSE_MAX
    ensures -2000 <= 2 * (2000 * (PulseToUnit(Lx, pulse) - 125) - 750 * (pulse - 500)) <= 2000
    ensures -2000 <= 2 * (2000 * (PulseToUnit(Zl, pulse) - 833) - 1334 * (pulse - 500)) <= 2000
    ensures -180 <= 2 * (180 * (AngleToPulse(degrees) - 500) - 2000 * degrees) <= 180
  {
    RoundedIsNearest(125 * 8 + 3 * (pulse - 500), 8);
    RoundedIsNearest(833 * 1000 + 667 * (pulse - 500), 1000);
    RoundedIsNearest(500 * 9 + 100 * degrees, 9);
    hide Rounded;
  }
}
