/** `Point<int>` and `Rect<int>`: integer points and axis-aligned
    rectangles whose top-left corner is the smallest coordinate pair.
    The datatypes are the values; MutablePoint and MutableRect are the
    variables that the in-place operators (`+=`, `-=`, `MoveTo`) update. */
module Geometry {
  import opened Arith

  datatype Point = Point(x: int, y: int)

  /** `operator+`: copy `lhs`, then add `rhs` to each component. */
  function Add(lhs: Point, rhs: Point): (pt: Point)
  {
    lhs.(x := lhs.x + rhs.x, y := lhs.y + rhs.y)
  }

  /** `operator-`: copy `lhs`, then subtract `rhs` from each component. */
  function Sub(lhs: Point, rhs: Point): (pt: Point)
  {
    lhs.(x := lhs.x - rhs.x, y := lhs.y - rhs.y)
  }

  /** `operator==` compares both components, which is value identity. */
  predicate Equals(l: Point, r: Point)
    ensures Equals(l, r) <==> l == r
  {
    l.x == r.x && l.y == r.y
  }

  /** `operator!=` is the negation of `operator==`. */
  predicate NotEquals(l: Point, r: Point)
    ensures NotEquals(l, r) <==> l != r
  {
    !Equals(l, r)
  }

  lemma AddComponentwise(p: Point, q: Point)
    ensures Add(p, q) == Point(p.x + q.x, p.y + q.y)
    ensures Sub(p, q) == Point(p.x - q.x, p.y - q.y)
  {
  }

  lemma AddCommutes(p: Point, q: Point)
    ensures Add(p, q) == Add(q, p)
  {
  }

  /** Subtraction undoes addition and vice versa. */
  lemma SubUndoesAdd(p: Point, q: Point)
    ensures Sub(Add(p, q), q) == p
    ensures Add(Sub(p, q), q) == p
  {
  }

  /** A `Point<int>` lvalue, for the compound assignments that change
      `x_` and `y_` in place. */
  class MutablePoint {
    var x: int
    var y: int

    constructor (x: int, y: int)
      ensures Value() == Point(x, y)
    {
      this.x := x;
      this.y := y;
    }

    function Value(): (pt: Point)
      reads this
    {
      Point(x, y)
    }

    /** `operator+=` */
    method AddAssign(rhs: Point)
      modifies this
      ensures Value() == Add(old(Value()), rhs)
    {
      x := x + rhs.x;
      y := y + rhs.y;
    }

    /** `operator-=` */
    method SubAssign(rhs: Point)
      modifies this
      ensures Value() == Sub(old(Value()), rhs)
    {
      x := x - rhs.x;
      y := y - rhs.y;
    }
  }

  datatype Rect = Rect(topLeft: Point, width: int, height: int)
  {
    function GetTopLeft(): (pt: Point)
    {
      topLeft
    }

    function GetTopRight(): (pt: Point)
    {
      Point(topLeft.x + width, topLeft.y)
    }

    function GetBottomRight(): (pt: Point)
    {
      Point(topLeft.x + width, topLeft.y + height)
    }

    function GetBottomLeft(): (pt: Point)
    {
      Point(topLeft.x, topLeft.y + height)
    }

    /** `Contains(const Point&)` */
    predicate ContainsPoint(point: Point)
    {
      point.x >= topLeft.x && point.y >= topLeft.y &&
      point.x < GetBottomRight().x && point.y < GetBottomRight().y
    }

    /** `Contains(const Rect&)`: the other bottom-right corner must lie
        strictly inside. */
    predicate ContainsRect(rect: Rect)
    {
      rect.topLeft.x >= topLeft.x && rect.topLeft.y >= topLeft.y &&
      rect.GetBottomRight().x < GetBottomRight().x &&
      rect.GetBottomRight().y < GetBottomRight().y
    }

    /** `Intersects(const Rect&)`, with its mix of strict and non-strict
        comparisons. */
    predicate Intersects(rect: Rect)
    {
      topLeft.x < rect.topLeft.x + rect.width && topLeft.x + width >= rect.topLeft.x &&
      topLeft.y < rect.topLeft.y + rect.height && topLeft.y + height >= rect.topLeft.y
    }
  }

  /** The corners are the top-left corner moved by the width, the height,
      or both. */
  lemma Corners(r: Rect)
    ensures r.GetTopLeft() == r.topLeft
    ensures r.GetTopRight() == Add(r.topLeft, Point(r.width, 0))
    ensures r.GetBottomRight() == Add(r.topLeft, Point(r.width, r.height))
    ensures r.GetBottomLeft() == Add(r.topLeft, Point(0, r.height))
  {
  }

  /** Point containment is half-open: the left and top edges are inside,
      the right and bottom edges are not. */
  lemma ContainsPointHalfOpen(r: Rect, p: Point)
    ensures r.ContainsPoint(p) <==>
      r.topLeft.x <= p.x < r.topLeft.x + r.width && r.topLeft.y <= p.y < r.topLeft.y + r.height
    ensures r.ContainsPoint(r.GetTopLeft()) <==> r.width > 0 && r.height > 0
    ensures !r.ContainsPoint(r.GetBottomRight())
    ensures !r.ContainsPoint(r.GetTopRight()) && !r.ContainsPoint(r.GetBottomLeft())
  {
  }

  /** Rectangle containment is strict on the far corner: no rectangle
      contains itself, and every point of a contained rectangle is a point
      of the container. */
  lemma ContainsRectStrict(outer: Rect, inner: Rect, p: Point)
    ensures !outer.ContainsRect(outer)
    ensures outer.ContainsRect(inner) && inner.ContainsPoint(p) ==> outer.ContainsPoint(p)
  {
  }

  /** Two rectangles that share a point intersect, seen from either side. */
  lemma SharedPointIntersects(a: Rect, b: Rect, p: Point)
    requires a.ContainsPoint(p) && b.ContainsPoint(p)
    ensures a.Intersects(b) && b.Intersects(a)
  {
  }

  /** `Intersects` is not symmetric: a rectangle that ends exactly where the
      other begins intersects it, but not the other way round. */
  lemma IntersectsNotSymmetric(a: Rect, b: Rect)
    requires a.topLeft.y == b.topLeft.y && a.height == b.height && a.height > 0
    requires a.width + b.width > 0
    requires a.topLeft.x + a.width == b.topLeft.x
    ensures a.Intersects(b)
    ensures !b.Intersects(a)
  {
  }

  /** `destination - (size / 2.0)` converted back to an `int`: the double
      is exact (sizes are far below 2^52), so the result is
      `(2 * destination - size) / 2` truncated toward zero. */
  function CentredOrigin(destination: int, size: int): (r: int)
    ensures 2 * destination - size >= 0 ==> 0 <= (2 * destination - size) - 2 * r <= 1
    ensures 2 * destination - size < 0 ==> -1 <= (2 * destination - size) - 2 * r <= 0
  {
    TruncDiv(2 * destination - size, 2)
  }

  /** A `Rect<int>` lvalue, for `MoveTo`, which changes `top_left_` in
      place. */
  class MutableRect {
    var topLeft: Point
    var width: int
    var height: int

    /** `Rect(x, y, width, height)` stores its arguments verbatim (all four
        default to 0 in the source). */
    constructor (x: int, y: int, width: int, height: int)
      ensures Value() == Rect(Point(x, y), width, height)
    {
      topLeft := Point(x, y);
      this.width := width;
      this.height := height;
    }

    function Value(): (value: Rect)
      reads this
    {
      Rect(topLeft, width, height)
    }

    /** Centres the rectangle on `destination`; the size is untouched. */
    method MoveTo(destination: Point)
      modifies this
      ensures width == old(width) && height == old(height)
      ensures topLeft == Point(CentredOrigin(destination.x, width), CentredOrigin(destination.y, height))
    {
      topLeft := topLeft.(x := CentredOrigin(destination.x, width));
      topLeft := topLeft.(y := CentredOrigin(destination.y, height));
    }
  }

  /** For even sizes `MoveTo` puts the exact centre on `destination`. */
  lemma MoveToEvenSize(destination: Point, width: int, height: int)
    requires width % 2 == 0 && height % 2 == 0
    ensures CentredOrigin(destination.x, width) == destination.x - width / 2
    ensures CentredOrigin(destination.y, height) == destination.y - height / 2
  {
  }
}
