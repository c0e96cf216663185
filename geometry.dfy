// Integer plane geometry shared by the board and the pieces: a 2D vector
// with the quarter turn used to rotate piece bodies, and the rotation index
// that counts quarter turns modulo four.

module Geometry {

  /** An integer coordinate; on the board x grows to the right and y upwards. */
  datatype Vec2 = Vec2(x: int, y: int)
  {
    function Plus(o: Vec2): Vec2 { Vec2(x + o.x, y + o.y) }
    function Minus(o: Vec2): Vec2 { Vec2(x - o.x, y - o.y) }
    function Dot(o: Vec2): int { x * o.x + y * o.y }
    /** The z component of the cross product: positive when `o` lies a
        counter-clockwise turn (less than a half turn) from this vector. */
    function Cross(o: Vec2): int { x * o.y - y * o.x }
  }

  const Origin := Vec2(0, 0)

  /** A quarter turn of `v` about `center`; clockwise when `clockwise` holds
      (with y pointing up, (1, 0) turns to (0, -1)). */
  function RotateAround(v: Vec2, center: Vec2, clockwise: bool): (r: Vec2)
    // the distance to the centre is kept
    ensures r.Minus(center).Dot(r.Minus(center)) == v.Minus(center).Dot(v.Minus(center))
    // the offset from the centre turns by a right angle
    ensures r.Minus(center).Dot(v.Minus(center)) == 0
    // in the requested direction
    ensures v.Minus(center).Cross(r.Minus(center)) ==
              (if clockwise then -1 else 1) * v.Minus(center).Dot(v.Minus(center))
  {
    var d := v.Minus(center);
    center.Plus(if clockwise then Vec2(d.y, -d.x) else Vec2(-d.y, d.x))
  }

  /** The three facts of `RotateAround`'s contract pin the turned point
      down: no other point keeps the distance, is at a right angle and lies
      on the requested side. */
  lemma RotateAroundUnique(v: Vec2, center: Vec2, clockwise: bool, q: Vec2)
    requires q.Minus(center).Dot(q.Minus(center)) == v.Minus(center).Dot(v.Minus(center))
    requires q.Minus(center).Dot(v.Minus(center)) == 0
    requires v.Minus(center).Cross(q.Minus(center)) ==
               (if clockwise then -1 else 1) * v.Minus(center).Dot(v.Minus(center))
    ensures q == RotateAround(v, center, clockwise)
  {
    var d := v.Minus(center);
    var e := q.Minus(center);
    QuarterTurnUnique(d.x, d.y, e.x, e.y, clockwise);
  }

  /** `RotateAroundUnique` on the coordinates of the two offsets. */
  lemma QuarterTurnUnique(dx: int, dy: int, ex: int, ey: int, clockwise: bool)
    requires ex * ex + ey * ey == dx * dx + dy * dy
    requires ex * dx + ey * dy == 0
    requires dx * ey - dy * ex == (if clockwise then -1 else 1) * (dx * dx + dy * dy)
    ensures clockwise ==> ex == dy && ey == -dx
    ensures !clockwise ==> ex == -dy && ey == dx
  {
    var n := dx * dx + dy * dy;
    var c := if clockwise then -n else n;
    SolveQuarterTurn(dx, dy, ex, ey, c);
    if n == 0 {
      SquaresZero(dx, dy);
      SquaresZero(ex, ey);
    } else {
      SquaresNonNegative(dx, dy);
      if clockwise {
        assert n * ex == n * dy && n * ey == n * -dx;
        Cancel(n, ex, dy);
        Cancel(n, ey, -dx);
      } else {
        assert n * ex == n * -dy && n * ey == n * dx;
        Cancel(n, ex, -dy);
        Cancel(n, ey, dx);
      }
    }
  }

  /** The linear system of a quarter turn, solved up to the factor |d|². */
  lemma SolveQuarterTurn(dx: int, dy: int, ex: int, ey: int, c: int)
    requires ex * dx + ey * dy == 0 && dx * ey - dy * ex == c
    ensures (dx * dx + dy * dy) * ex == -dy * c
    ensures (dx * dx + dy * dy) * ey == dx * c
  {
    calc {
      (dx * dx + dy * dy) * ex;
      dx * (ex * dx + ey * dy) - dy * (dx * ey - dy * ex);
      dx * 0 - dy * c;
    }
    calc {
      (dx * dx + dy * dy) * ey;
      dy * (ex * dx + ey * dy) + dx * (dx * ey - dy * ex);
      dy * 0 + dx * c;
    }
  }

  lemma SquaresNonNegative(a: int, b: int)
    ensures a * a + b * b >= 0
  {
    if a < 0 { assert a * a == (-a) * (-a); }
    if b < 0 { assert b * b == (-b) * (-b); }
  }

  lemma SquaresZero(a: int, b: int)
    requires a * a + b * b == 0
    ensures a == 0 && b == 0
  {
    SquaresNonNegative(a, 0);
    SquaresNonNegative(0, b);
  }

  lemma Cancel(n: int, a: int, b: int)
    requires n > 0 && n * a == n * b
    ensures a == b
  {
    assert n * (a - b) == 0;
  }

  /** A quarter turn one way followed by a quarter turn the other way is the identity. */
  lemma RotateAroundInverse(v: Vec2, center: Vec2, clockwise: bool)
    ensures RotateAround(RotateAround(v, center, clockwise), center, !clockwise) == v
  {
  }

  /** Four quarter turns the same way are the identity. */
  lemma RotateAroundFour(v: Vec2, center: Vec2, clockwise: bool)
    ensures var r1 := RotateAround(v, center, clockwise);
            var r2 := RotateAround(r1, center, clockwise);
            var r3 := RotateAround(r2, center, clockwise);
            RotateAround(r3, center, clockwise) == v
  {
  }

  /** The number of distinct orientations of a piece. */
  const NumRotations: nat := 4

  /** A rotation index: the value of a cyclic index modulo NumRotations. */
  type Rotation = r: nat | r < NumRotations

  /** Adds +1 (clockwise) or -1 (counter-clockwise) to a rotation index,
      wrapping around modulo NumRotations. */
  function StepRotation(r: Rotation, clockwise: bool): (s: Rotation)
    ensures clockwise ==> (s == r + 1 || (r == NumRotations - 1 && s == 0))
    ensures !clockwise ==> (s == r - 1 || (r == 0 && s == NumRotations - 1))
  {
    if clockwise then (r + 1) % NumRotations else (r + NumRotations - 1) % NumRotations
  }

  lemma StepRotationInverse(r: Rotation, clockwise: bool)
    ensures StepRotation(StepRotation(r, clockwise), !clockwise) == r
  {
  }

  lemma StepRotationFour(r: Rotation, clockwise: bool)
    ensures StepRotation(StepRotation(StepRotation(StepRotation(r, clockwise), clockwise), clockwise), clockwise) == r
  {
  }
}
