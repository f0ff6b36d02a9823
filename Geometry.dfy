/**
 * Points and query regions of the quadtree: `QtPoint`, `QtRectangle` and
 * `QtCircle` of QuadTree/QuadTree.cs.
 *
 * Point coordinates are C# `double`; they are modelled as exact reals, so no
 * rounding is modelled. Box and circle fields are C# `int`; they are modelled
 * as unbounded integers (no 32-bit overflow).
 */
module Geometry {

  datatype Point = Point(x: real, y: real)

  /** A box given by its centre (x, y) and its half-extents w and h. */
  datatype Rect = Rect(x: int, y: int, w: int, h: int)

  /** A circle; `rSquared` is the value cached by the constructor. */
  datatype Circle = Circle(x: int, y: int, radius: int, rSquared: int)

  /** The two kinds of query region accepted by the two `query` overloads. */
  datatype Region = Box(rect: Rect) | Disk(circle: Circle)

  function Abs(n: int): (r: int)
    ensures r >= 0 && (r == n || r == -n)
  {
    if n < 0 then -n else n
  }

  function RealAbs(a: real): (r: real)
    ensures r >= 0.0 && (r == a || r == -a)
  {
    if a < 0.0 then -a else a
  }

  function Sq(a: real): real { a * a }

  // ---------------------------------------------------------------------------
  // QtRectangle

  /**
   * `QtRectangle.contains`: the closed box, all four edges inclusive, so a
   * point is inside when it is within the half-extent of the centre on both axes.
   */
  predicate Contains(b: Rect, p: Point)
    ensures Contains(b, p) <==>
      RealAbs(p.x - b.x as real) <= b.w as real && RealAbs(p.y - b.y as real) <= b.h as real
  {
    p.x >= (b.x - b.w) as real && p.x <= (b.x + b.w) as real &&
    p.y >= (b.y - b.h) as real && p.y <= (b.y + b.h) as real
  }

  /**
   * `self.intersects(range)`: the boxes are not separated on x nor on y, that
   * is, on each axis the centres are at most the two half-extents apart.
   */
  predicate Intersects(self: Rect, range: Rect)
    ensures Intersects(self, range) <==>
      Abs(range.x - self.x) <= range.w + self.w && Abs(range.y - self.y) <= range.h + self.h
  {
    !(range.x - range.w > self.x + self.w ||
      range.x + range.w < self.x - self.w ||
      range.y - range.h > self.y + self.h ||
      range.y + range.h < self.y - self.h)
  }

  /** Both boxes contain a common point. */
  ghost predicate Overlap(a: Rect, b: Rect)
  {
    exists p :: Contains(a, p) && Contains(b, p)
  }

  /** Edges are inclusive: the four corners of a box with non-negative extents are inside it. */
  lemma CornersContained(b: Rect)
    requires b.w >= 0 && b.h >= 0
    ensures Contains(b, Point((b.x - b.w) as real, (b.y - b.h) as real))
    ensures Contains(b, Point((b.x + b.w) as real, (b.y - b.h) as real))
    ensures Contains(b, Point((b.x - b.w) as real, (b.y + b.h) as real))
    ensures Contains(b, Point((b.x + b.w) as real, (b.y + b.h) as real))
    ensures !Contains(b, Point((b.x + b.w) as real + 0.01, b.y as real))
    ensures !Contains(b, Point((b.x - b.w) as real - 0.01, b.y as real))
    ensures !Contains(b, Point(b.x as real, (b.y + b.h) as real + 0.01))
    ensures !Contains(b, Point(b.x as real, (b.y - b.h) as real - 0.01))
  {
  }

  /** The box test does not depend on the order of its two arguments. */
  lemma IntersectsSymmetric(a: Rect, b: Rect)
    ensures Intersects(a, b) == Intersects(b, a)
  {
  }

  /**
   * For boxes with non-negative extents the box test is exact: it holds
   * precisely when the two closed boxes share a point, so touching edges
   * count as intersecting.
   */
  lemma IntersectsIffOverlap(a: Rect, b: Rect)
    requires a.w >= 0 && a.h >= 0 && b.w >= 0 && b.h >= 0
    ensures Intersects(a, b) <==> Overlap(a, b)
  {
    if Intersects(a, b) {
      var px := if a.x - a.w >= b.x - b.w then a.x - a.w else b.x - b.w;
      var py := if a.y - a.h >= b.y - b.h then a.y - a.h else b.y - b.h;
      assert Contains(a, Point(px as real, py as real)) && Contains(b, Point(px as real, py as real));
    }
    if Overlap(a, b) {
      var p :| Contains(a, p) && Contains(b, p);
      SharedPointIntersects(a, b, p);
    }
  }

  /** A point inside both boxes forces the box test to hold, whatever the extents. */
  lemma SharedPointIntersects(self: Rect, range: Rect, p: Point)
    requires Contains(self, p) && Contains(range, p)
    ensures Intersects(self, range)
  {
  }

  // ---------------------------------------------------------------------------
  // QtCircle

  /** The `QtCircle` constructor: caches the square of the radius. */
  function MakeCircle(x: int, y: int, radius: int): (c: Circle)
    ensures c.x == x && c.y == y && c.radius == radius
    ensures forall p {:trigger CircleContains(c, p)} ::
      CircleContains(c, p) <==> Sq(p.x - x as real) + Sq(p.y - y as real) <= (radius * radius) as real
  {
    Circle(x, y, radius, radius * radius)
  }

  /** The cached square agrees with the radius, which is not negative. */
  predicate CircleWf(c: Circle)
  {
    c.rSquared == c.radius * c.radius && c.radius >= 0
  }

  /**
   * `QtCircle.contains`: squared distance to the centre at most `rSquared`;
   * with a consistent cache, at most the square of the radius.
   */
  predicate CircleContains(c: Circle, p: Point)
    ensures CircleWf(c) ==>
      (CircleContains(c, p) <==> Sq(p.x - c.x as real) + Sq(p.y - c.y as real) <= Sq(c.radius as real))
  {
    Sq(p.x - c.x as real) + Sq(p.y - c.y as real) <= c.rSquared as real
  }

  /**
   * `QtCircle.intersects`: far apart, overlapping along an axis, or the
   * nearest corner test. Only a box meeting the circle's bounding square
   * passes, and a box holding the centre of a circle with a non-negative
   * radius always does.
   */
  predicate CircleIntersects(c: Circle, range: Rect)
    ensures CircleIntersects(c, range) ==> Intersects(Rect(c.x, c.y, c.radius, c.radius), range)
    ensures c.radius >= 0 && Contains(range, Point(c.x as real, c.y as real)) ==> CircleIntersects(c, range)
  {
    var xDist := Abs(range.x - c.x);
    var yDist := Abs(range.y - c.y);
    var edges := (xDist - range.w) * (xDist - range.w) + (yDist - range.h) * (yDist - range.h);
    if xDist > c.radius + range.w || yDist > c.radius + range.h then false
    else if xDist <= range.w || yDist <= range.h then true
    else edges <= c.rSquared
  }

  lemma SquareMonotone(a: real, b: real)
    requires 0.0 <= a <= b
    ensures Sq(a) <= Sq(b)
  {
    assert a * a <= a * b <= b * b;
  }

  lemma ProductSign(a: real, b: real)
    ensures a < 0.0 && b > 0.0 ==> a * b < 0.0
    ensures a > 0.0 && b < 0.0 ==> a * b < 0.0
  {
  }

  /** A square bounds its root: `d * d <= r * r` with `r >= 0` gives `-r <= d <= r`. */
  lemma SquareBoundsRoot(d: real, r: real)
    requires r >= 0.0 && Sq(d) <= Sq(r)
    ensures -r <= d <= r
  {
    assert (r - d) * (r + d) == Sq(r) - Sq(d) >= 0.0;
    ProductSign(r - d, r + d);
  }

  /** A coordinate of a contained point is within `radius` of the centre on each axis. */
  lemma CircleContainsWithinRadius(c: Circle, p: Point)
    requires CircleWf(c) && CircleContains(c, p)
    ensures -(c.radius as real) <= p.x - c.x as real <= c.radius as real
    ensures -(c.radius as real) <= p.y - c.y as real <= c.radius as real
  {
    var r := c.radius as real;
    var dx, dy := p.x - c.x as real, p.y - c.y as real;
    assert Sq(r) == c.rSquared as real;
    assert Sq(dx) >= 0.0 && Sq(dy) >= 0.0;
    SquareBoundsRoot(dx, r);
    SquareBoundsRoot(dy, r);
  }

  /**
   * On one axis, a coordinate `v` of the box with centre `centre` and
   * half-extent `half` lies at least `|centre - q| - half` away from `q`.
   */
  lemma AxisGap(centre: int, half: int, q: int, v: real)
    requires (centre - half) as real <= v <= (centre + half) as real
    ensures var g := (Abs(centre - q) - half) as real;
      g <= v - q as real || g <= q as real - v
  {
  }

  /** A positive integer gap below `|d|` has its square below `d * d`. */
  lemma SquareGap(g: int, d: real)
    requires g > 0 && (g as real <= d || g as real <= -d)
    ensures (g * g) as real <= Sq(d)
  {
    if g as real <= d {
      SquareMonotone(g as real, d);
    } else {
      SquareMonotone(g as real, -d);
    }
  }

  /**
   * The circle test never rejects a box that shares a point with the circle,
   * which is what makes pruning a subtree in a circle query safe.
   */
  lemma CircleIntersectsSound(c: Circle, range: Rect, p: Point)
    requires CircleWf(c)
    requires CircleContains(c, p) && Contains(range, p)
    ensures CircleIntersects(c, range)
  {
    CircleContainsWithinRadius(c, p);
    AxisGap(range.x, range.w, c.x, p.x);
    AxisGap(range.y, range.h, c.y, p.y);
    var gx := Abs(range.x - c.x) - range.w;
    var gy := Abs(range.y - c.y) - range.h;
    if gx > 0 && gy > 0 {
      SquareGap(gx, p.x - c.x as real);
      SquareGap(gy, p.y - c.y as real);
    }
  }

  /**
   * The constructor does not check the sign of the radius; with a negative
   * radius the circle test rejects a box that does share a point with it.
   */
  lemma NegativeRadiusPrunesWrongly()
    ensures var c, b, p := MakeCircle(0, 0, -1), Rect(2, 0, 1, 1), Point(1.0, 0.0);
      CircleContains(c, p) && Contains(b, p) && !CircleIntersects(c, b)
  {
  }

  // ---------------------------------------------------------------------------
  // Query regions

  /** The smallest box holding a well-formed region: the box itself, or the circle's bounding square. */
  function Bounds(range: Region): Rect
  {
    match range
    case Box(r) => r
    case Disk(c) => Rect(c.x, c.y, c.radius, c.radius)
  }

  /** A point a well-formed circle contains lies in its bounding square. */
  lemma CircleInBounds(c: Circle, p: Point)
    ensures CircleWf(c) && CircleContains(c, p) ==> Contains(Bounds(Disk(c)), p)
  {
    if CircleWf(c) && CircleContains(c, p) {
      CircleContainsWithinRadius(c, p);
    }
  }

  /** `range.contains(p)` of the matching `query` overload. */
  predicate RegionContains(range: Region, p: Point)
    ensures RegionWf(range) && RegionContains(range, p) ==> Contains(Bounds(range), p)
  {
    match range
    case Box(r) => Contains(r, p)
    case Disk(c) => CircleInBounds(c, p); CircleContains(c, p)
  }

  /**
   * `range.intersects(boundary)` of the matching `query` overload: it never
   * accepts a boundary the region's bounding box misses.
   */
  predicate RegionIntersects(range: Region, boundary: Rect)
    ensures RegionIntersects(range, boundary) ==> Intersects(Bounds(range), boundary)
  {
    match range
    case Box(r) => Intersects(r, boundary)
    case Disk(c) => CircleIntersects(c, boundary)
  }

  /** Boxes need nothing; a circle needs a consistent cache and a non-negative radius. */
  predicate RegionWf(range: Region)
  {
    range.Disk? ==> CircleWf(range.circle)
  }

  /** Pruning is safe: a region that shares a point with a box passes the intersection test. */
  lemma RegionIntersectsSound(range: Region, boundary: Rect, p: Point)
    requires RegionWf(range)
    requires RegionContains(range, p) && Contains(boundary, p)
    ensures RegionIntersects(range, boundary)
  {
    match range
    case Box(r) => SharedPointIntersects(r, boundary, p);
    case Disk(c) => CircleIntersectsSound(c, boundary, p);
  }
}
