/**
 * Integer 2-D points (System.Drawing.Point) and the extension methods on them:
 * Manhattan distances, wrapping into a box with a positive modulo, quarter and
 * half turns about a centre, and component-wise arithmetic.
 */
module PointExtensions {
  import CSharpInt

  datatype Point = Point(x: int, y: int)

  const Origin: Point := Point(0, 0)

  function Abs(v: int): nat { if v < 0 then -v else v }

  /** `point.ManhattanDistance()`: |x| + |y|. */
  function ManhattanDistanceToOrigin(p: Point): (d: nat)
    ensures d == 0 <==> p == Origin
    ensures d >= Abs(p.x) && d >= Abs(p.y)
  {
    Abs(p.x) + Abs(p.y)
  }

  /** `point.ManhattanDistance(target)`. */
  function ManhattanDistance(p: Point, q: Point): (d: nat)
    ensures d == 0 <==> p == q
    ensures d == ManhattanDistanceToOrigin(Subtract(p, q))
  {
    Abs(p.x - q.x) + Abs(p.y - q.y)
  }

  /** The distance is a metric: symmetric and obeying the triangle inequality. */
  lemma ManhattanMetric(p: Point, q: Point, r: Point)
    ensures ManhattanDistance(p, q) == ManhattanDistance(q, p)
    ensures ManhattanDistance(p, r) <= ManhattanDistance(p, q) + ManhattanDistance(q, r)
  {
  }

  /** Moving both points by the same offset leaves the distance unchanged. */
  lemma ManhattanTranslation(p: Point, q: Point, t: Point)
    ensures ManhattanDistance(Add(p, t), Add(q, t)) == ManhattanDistance(p, q)
  {
  }

  /**
   * One coordinate of `Modulo`: `((v % m) + m) % m` with C#'s truncating `%` when the
   * modulus is positive, the coordinate unchanged otherwise.
   */
  function WrapCoordinate(v: int, m: int): (r: int)
    ensures m > 0 ==> 0 <= r < m && r % m == v % m
    ensures m <= 0 ==> r == v
  {
    if m > 0 then
      var t := CSharpInt.Rem(v, m) + m;
      CSharpInt.QuotRem(v, m);
      CSharpInt.QuotRem(t, m);
      CSharpInt.RemCongruent(v, m);
      CSharpInt.RemCongruent(t, m);
      CSharpInt.ModMultiple(CSharpInt.Rem(v, m), 1, m);
      CSharpInt.Rem(t, m)
    else v
  }

  /** `point.Modulo(modulo)`: each coordinate wrapped into [0, m) when its modulus m is positive. */
  function Modulo(p: Point, modulo: Point): (r: Point)
    ensures modulo.x > 0 ==> 0 <= r.x < modulo.x && r.x % modulo.x == p.x % modulo.x
    ensures modulo.y > 0 ==> 0 <= r.y < modulo.y && r.y % modulo.y == p.y % modulo.y
    ensures modulo.x <= 0 ==> r.x == p.x
    ensures modulo.y <= 0 ==> r.y == p.y
  {
    Point(WrapCoordinate(p.x, modulo.x), WrapCoordinate(p.y, modulo.y))
  }

  /** Wrapping is idempotent and a point already in the box is left alone. */
  lemma ModuloIdempotent(p: Point, modulo: Point)
    ensures Modulo(Modulo(p, modulo), modulo) == Modulo(p, modulo)
    ensures (modulo.x > 0 ==> 0 <= p.x < modulo.x) && (modulo.y > 0 ==> 0 <= p.y < modulo.y)
            ==> Modulo(p, modulo) == p
  {
    var r := Modulo(p, modulo);
    if modulo.x > 0 { SmallModIdentity(r.x, modulo.x); SmallModIdentity(p.x, modulo.x); }
    if modulo.y > 0 { SmallModIdentity(r.y, modulo.y); SmallModIdentity(p.y, modulo.y); }
    if modulo.x > 0 && 0 <= p.x < modulo.x { SmallModIdentity(Modulo(p, modulo).x, modulo.x); }
  }

  lemma SmallModIdentity(v: int, m: int)
    requires m > 0
    ensures 0 <= v < m ==> v % m == v
    ensures 0 <= WrapCoordinate(v, m) < m && WrapCoordinate(v, m) == v % m
  {
    var r := WrapCoordinate(v, m);
    CSharpInt.DivModUnique(r, m, 0, r);
    if 0 <= v < m { CSharpInt.DivModUnique(v, m, 0, v); }
  }

  /** `point.RotateClockwise(centre)`: a quarter turn, (x, y) relative to the centre becomes (y, -x). */
  function RotateClockwise(p: Point, c: Point): Point
  {
    var x := p.x - c.x;
    var y := p.y - c.y;
    Point(c.x + y, c.y - x)
  }

  /** `point.RotateCounterclockwise(centre)`: (x, y) relative to the centre becomes (-y, x). */
  function RotateCounterclockwise(p: Point, c: Point): Point
  {
    var x := p.x - c.x;
    var y := p.y - c.y;
    Point(c.x - y, c.y + x)
  }

  /** `point.Rotate180Degree(centre)`: the point reflected through the centre. */
  function Rotate180Degree(p: Point, c: Point): Point
  {
    var x := p.x - c.x;
    var y := p.y - c.y;
    Point(c.x - x, c.y - y)
  }

  /** The one-argument rotations turn about the origin. */
  function RotateClockwiseAboutOrigin(p: Point): Point { RotateClockwise(p, Origin) }
  function RotateCounterclockwiseAboutOrigin(p: Point): Point { RotateCounterclockwise(p, Origin) }
  function Rotate180DegreeAboutOrigin(p: Point): Point { Rotate180Degree(p, Origin) }

  /**
   * The rotations form the cyclic group of quarter turns: clockwise and counter-clockwise
   * undo each other, two quarter turns are a half turn, a half turn is its own inverse and
   * four quarter turns are the identity.
   */
  lemma RotationGroup(p: Point, c: Point)
    ensures RotateCounterclockwise(RotateClockwise(p, c), c) == p
    ensures RotateClockwise(RotateCounterclockwise(p, c), c) == p
    ensures RotateClockwise(RotateClockwise(p, c), c) == Rotate180Degree(p, c)
    ensures Rotate180Degree(Rotate180Degree(p, c), c) == p
    ensures RotateClockwise(RotateClockwise(RotateClockwise(RotateClockwise(p, c), c), c), c) == p
    ensures RotateCounterclockwise(p, c) == RotateClockwise(Rotate180Degree(p, c), c)
    ensures RotateClockwise(c, c) == c
  {
  }

  /** A rotation keeps the Manhattan distance to its centre (and between any two points). */
  lemma RotationIsometry(p: Point, q: Point, c: Point)
    ensures ManhattanDistance(RotateClockwise(p, c), c) == ManhattanDistance(p, c)
    ensures ManhattanDistance(RotateClockwise(p, c), RotateClockwise(q, c)) == ManhattanDistance(p, q)
    ensures ManhattanDistance(Rotate180Degree(p, c), Rotate180Degree(q, c)) == ManhattanDistance(p, q)
  {
  }

  /** `p1.Subtract(p2)`. */
  function Subtract(p: Point, q: Point): Point { Point(p.x - q.x, p.y - q.y) }

  /** `p1.Add(p2)`. */
  function Add(p: Point, q: Point): Point { Point(p.x + q.x, p.y + q.y) }

  /** `p1.Add(x, y)`. */
  function AddXY(p: Point, x: int, y: int): Point { Point(p.x + x, p.y + y) }

  /** `p.Multiply(factor)`. */
  function Multiply(p: Point, factor: int): Point { Point(p.x * factor, p.y * factor) }

  /** Component-wise arithmetic: subtraction undoes addition, and `Add(x, y)` is `Add` of the point (x, y). */
  lemma Arithmetic(p: Point, q: Point)
    ensures Subtract(Add(p, q), q) == p
    ensures Add(Subtract(p, q), q) == p
    ensures AddXY(p, q.x, q.y) == Add(p, q)
    ensures Add(p, q) == Add(q, p)
  {
  }

  /** Scaling distributes over addition. */
  lemma MultiplyDistributes(p: Point, q: Point, k: int)
    ensures Multiply(Add(p, q), k) == Add(Multiply(p, k), Multiply(q, k))
  {
    assert (p.x + q.x) * k == p.x * k + q.x * k;
    assert (p.y + q.y) * k == p.y * k + q.y * k;
  }

  /** Scaling a point scales its distance to the origin by the factor's magnitude. */
  lemma MultiplyScalesDistance(p: Point, k: int)
    ensures ManhattanDistanceToOrigin(Multiply(p, k)) == Abs(k) * ManhattanDistanceToOrigin(p)
  {
    var ax, ay, ak := Abs(p.x), Abs(p.y), Abs(k);
    AbsMul(p.x, k);
    AbsMul(p.y, k);
    assert ak * (ax + ay) == ak * ax + ak * ay;
  }

  lemma AbsMul(a: int, b: int)
    ensures Abs(a * b) == Abs(b) * Abs(a)
  {
    if a < 0 && b < 0 { assert a * b == (-a) * (-b); }
    else if a < 0 { assert -(a * b) == (-a) * b; }
    else if b < 0 { assert -(a * b) == a * (-b); }
  }
}
