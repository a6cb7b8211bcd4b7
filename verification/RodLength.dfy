/** The three-rod parallel mechanism: rotations keep lengths, and the constraint values give the rod lengths.

    An attitude is given by the cosine and sine of roll, pitch and yaw, any pairs with unit sum of squares; `root3` is a
    number whose square is three. */
module RodLength {

  datatype Vector = Vector(x: real, y: real, z: real)

  datatype Attitude = Attitude(cr: real, sr: real, cp: real, sp: real, cy: real, sy: real)

  datatype Mechanism = Mechanism(l0: real, l1: real, l2: real, root3: real)

  predicate IsAttitude(a: Attitude) {
    a.cr * a.cr + a.sr * a.sr == 1.0 && a.cp * a.cp + a.sp * a.sp == 1.0 && a.cy * a.cy + a.sy * a.sy == 1.0
  }

  predicate IsMechanism(m: Mechanism) {
    m.root3 * m.root3 == 3.0
  }

  function Dot(u: Vector, v: Vector): real {
    u.x * v.x + u.y * v.y + u.z * v.z
  }

  function Minus(u: Vector, v: Vector): Vector {
    Vector(u.x - v.x, u.y - v.y, u.z - v.z)
  }

  /** Corner `i` of an equilateral platform of radius `l0` at height `z`. */
  function PlatformPoint(l0: real, z: real, root3: real, i: nat): Vector
    requires i < 3
  {
    if i == 0 then Vector(0.0, -l0, z)
    else if i == 1 then Vector(-(root3 / 2.0 * l0), l0 / 2.0, z)
    else Vector(root3 / 2.0 * l0, l0 / 2.0, z)
  }

  /** The matrix Rz(yaw) Ry(pitch) Rx(roll) applied to a vector, entry by entry. */
  function Rotated(a: Attitude, v: Vector): Vector {
    Vector(
      a.cy * a.cp * v.x + (a.cy * a.sp * a.sr - a.sy * a.cr) * v.y + (a.cy * a.sp * a.cr + a.sy * a.sr) * v.z,
      a.sy * a.cp * v.x + (a.sy * a.sp * a.sr + a.cy * a.cr) * v.y + (a.sy * a.sp * a.cr - a.cy * a.sr) * v.z,
      -a.sp * v.x + a.cp * a.sr * v.y + a.cp * a.cr * v.z)
  }

  function Moving(m: Mechanism, i: nat): Vector
    requires i < 3
  {
    PlatformPoint(m.l0, -m.l1, m.root3, i)
  }

  function Fixed(m: Mechanism, i: nat): Vector
    requires i < 3
  {
    PlatformPoint(m.l0, m.l2, m.root3, i)
  }

  function Rod(m: Mechanism, a: Attitude, i: nat): Vector
    requires i < 3
  {
    Minus(Rotated(a, Fixed(m, i)), Moving(m, i))
  }

  function SquaredRodLength(m: Mechanism, a: Attitude, i: nat): real
    requires i < 3
  {
    Dot(Rod(m, a, i), Rod(m, a, i))
  }

  /** The constraint value of rod `i`: zero when the rod is perpendicular to the moving radius. */
  function Constraint(m: Mechanism, a: Attitude, i: nat): real
    requires i < 3
  {
    Dot(Rod(m, a, i), Moving(m, i))
  }

  method ConstraintEquations(m: Mechanism, a: Attitude) returns (f: array<real>)
    ensures fresh(f) && f.Length == 3 && forall i | 0 <= i < 3 :: f[i] == Constraint(m, a, i)
  {
    f := new real[3](_ => 0.0);
    for i := 0 to 3
      invariant forall k | 0 <= k < i :: f[k] == Constraint(m, a, k)
    {
      var rod := Minus(Rotated(a, Fixed(m, i)), Moving(m, i));
      f[i] := Dot(rod, Moving(m, i));
    }
  }

  // ---------------------------------------------------------------- rotations keep lengths

  lemma PlaneRotationKeepsNorm(c: real, s: real, x: real, y: real)
    requires c * c + s * s == 1.0
    ensures (c * x - s * y) * (c * x - s * y) + (s * x + c * y) * (s * x + c * y) == x * x + y * y
  {
    calc {
      (c * x - s * y) * (c * x - s * y) + (s * x + c * y) * (s * x + c * y);
      (c * c + s * s) * (x * x) + (c * c + s * s) * (y * y);
      x * x + y * y;
    }
  }

  function RolledUp(a: Attitude, v: Vector): Vector {
    Vector(v.x, a.cr * v.y - a.sr * v.z, a.sr * v.y + a.cr * v.z)
  }

  function Pitched(a: Attitude, v: Vector): Vector {
    Vector(a.cp * v.x + a.sp * v.z, v.y, a.cp * v.z - a.sp * v.x)
  }

  function Yawed(a: Attitude, v: Vector): Vector {
    Vector(a.cy * v.x - a.sy * v.y, a.sy * v.x + a.cy * v.y, v.z)
  }

  /** The matrix is the three plane rotations, roll first. */
  lemma RotationIsRollPitchYaw(a: Attitude, v: Vector)
    ensures Rotated(a, v) == Yawed(a, Pitched(a, RolledUp(a, v)))
  {
    var u := RolledUp(a, v);
    var w := Pitched(a, u);
    assert w.x == a.cp * v.x + a.sp * a.sr * v.y + a.sp * a.cr * v.z;
    assert w.y == a.cr * v.y - a.sr * v.z;
  }

  lemma RotationKeepsNorm(a: Attitude, v: Vector)
    requires IsAttitude(a)
    ensures Dot(Rotated(a, v), Rotated(a, v)) == Dot(v, v)
  {
    RotationIsRollPitchYaw(a, v);
    var u := RolledUp(a, v);
    var w := Pitched(a, u);
    PlaneRotationKeepsNorm(a.cr, a.sr, v.y, v.z);
    PlaneRotationKeepsNorm(a.cp, -a.sp, u.x, u.z);
    PlaneRotationKeepsNorm(a.cy, a.sy, w.x, w.y);
  }

  lemma PlatformNorm(l0: real, z: real, root3: real, i: nat)
    requires i < 3 && root3 * root3 == 3.0
    ensures var p := PlatformPoint(l0, z, root3, i); Dot(p, p) == l0 * l0 + z * z
  {
    assert (root3 / 2.0 * l0) * (root3 / 2.0 * l0) == root3 * root3 / 4.0 * (l0 * l0);
  }

  lemma DifferenceNorm(u: Vector, v: Vector)
    ensures var d := Minus(u, v); Dot(d, d) == Dot(u, u) - Dot(v, v) - 2.0 * Dot(d, v)
  {}

  // ---------------------------------------------------------------- rod lengths

  /** Whatever the attitude, the squared length of a rod is l2^2 - l1^2 less twice its constraint value. */
  lemma RodLengthIdentity(m: Mechanism, a: Attitude, i: nat)
    requires i < 3 && IsMechanism(m) && IsAttitude(a)
    ensures SquaredRodLength(m, a, i) == m.l2 * m.l2 - m.l1 * m.l1 - 2.0 * Constraint(m, a, i)
  {
    hide Rotated, PlatformPoint;
    DifferenceNorm(Rotated(a, Fixed(m, i)), Moving(m, i));
    RotationKeepsNorm(a, Fixed(m, i));
    PlatformNorm(m.l0, m.l2, m.root3, i);
    PlatformNorm(m.l0, -m.l1, m.root3, i);
  }

  /** `norm` is the Euclidean norm of the three constraint values. */
  predicate IsConstraintNorm(m: Mechanism, a: Attitude, norm: real) {
    && norm >= 0.0
    && norm * norm == Constraint(m, a, 0) * Constraint(m, a, 0) + Constraint(m, a, 1) * Constraint(m, a, 1)
                      + Constraint(m, a, 2) * Constraint(m, a, 2)
  }

  lemma SquareGrows(f: real, norm: real)
    requires norm >= 0.0
    ensures f > norm ==> f * f > norm * norm
  {
    if f > norm {
      var d, t := f - norm, f + norm;
      assert d > 0.0 && t > 0.0 && d * t > 0.0;
      assert d * t == f * f - norm * norm;
    }
  }

  lemma ComponentIsBoundedByNorm(f: real, rest: real, norm: real)
    requires norm >= 0.0 && rest >= 0.0 && norm * norm == f * f + rest
    ensures -norm <= f <= norm
  {
    SquareGrows(f, norm);
    SquareGrows(-f, norm);
  }

  /** Passing the constraint check with tolerance `tol` bounds every squared rod length within 2 tol of its theoretical
      value, and a perfect pass makes all three equal to it. */
  lemma SatisfiedConstraintsBoundTheRods(m: Mechanism, a: Attitude, norm: real, tol: real, i: nat)
    requires i < 3 && IsMechanism(m) && IsAttitude(a) && IsConstraintNorm(m, a, norm) && norm < tol
    ensures var error := SquaredRodLength(m, a, i) - (m.l2 * m.l2 - m.l1 * m.l1); -2.0 * tol < error < 2.0 * tol
    ensures norm == 0.0 ==> SquaredRodLength(m, a, i) == m.l2 * m.l2 - m.l1 * m.l1
    ensures -tol < Constraint(m, a, i) < tol
  {
    hide Rotated, PlatformPoint, Constraint, SquaredRodLength;
    RodLengthIdentity(m, a, i);
    var f0, f1, f2 := Constraint(m, a, 0), Constraint(m, a, 1), Constraint(m, a, 2);
    assert f0 * f0 >= 0.0 && f1 * f1 >= 0.0 && f2 * f2 >= 0.0;
    ComponentIsBoundedByNorm(f0, f1 * f1 + f2 * f2, norm);
    ComponentIsBoundedByNorm(f1, f0 * f0 + f2 * f2, norm);
    ComponentIsBoundedByNorm(f2, f0 * f0 + f1 * f1, norm);
  }

  /** A mechanism that meets its constraints exactly has a real theoretical rod length. */
  lemma SolvableMechanismHasARodLength(m: Mechanism, a: Attitude, i: nat)
    requires i < 3 && IsMechanism(m) && IsAttitude(a) && Constraint(m, a, i) == 0.0
    ensures m.l2 * m.l2 >= m.l1 * m.l1
  {
    RodLengthIdentity(m, a, i);
    var r := Rod(m, a, i);
    assert r.x * r.x >= 0.0 && r.y * r.y >= 0.0 && r.z * r.z >= 0.0;
  }

  // ---------------------------------------------------------------- the two platforms

  function SquaredDistance(u: Vector, v: Vector): real {
    Dot(Minus(u, v), Minus(u, v))
  }

  /** The corners of a platform form an equilateral triangle around the axis, at the platform's height. */
  lemma PlatformIsEquilateral(l0: real, z: real, root3: real, i: nat, j: nat)
    requires i < 3 && j < 3 && i != j && root3 * root3 == 3.0
    ensures SquaredDistance(PlatformPoint(l0, z, root3, i), PlatformPoint(l0, z, root3, j)) == 3.0 * (l0 * l0)
    ensures PlatformPoint(l0, z, root3, i).z == z
    ensures var (p, q, r) :=
              (PlatformPoint(l0, z, root3, 0), PlatformPoint(l0, z, root3, 1), PlatformPoint(l0, z, root3, 2));
            p.x + q.x + r.x == 0.0 && p.y + q.y + r.y == 0.0
  {
    var h := root3 / 2.0 * l0;
    assert h * h == root3 * root3 / 4.0 * (l0 * l0);
    assert (h + h) * (h + h) == 4.0 * (h * h);
    var w := l0 + l0 / 2.0;
    assert w * w == 9.0 / 4.0 * (l0 * l0);
  }

  const LEVEL := Attitude(1.0, 0.0, 1.0, 0.0, 1.0, 0.0)

  /** In the level attitude every rod stands upright, between the platforms at l2 above and l1 below. */
  lemma LevelRodsAreUpright(m: Mechanism, i: nat)
    requires i < 3
    ensures IsAttitude(LEVEL) && Rod(m, LEVEL, i) == Vector(0.0, 0.0, m.l1 + m.l2)
    ensures SquaredRodLength(m, LEVEL, i) == (m.l1 + m.l2) * (m.l1 + m.l2)
  {
    assert forall v: Vector :: Rotated(LEVEL, v) == v;
  }
}
