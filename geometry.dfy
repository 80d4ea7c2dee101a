/** Integer pixel geometry shared by both back ends: centroids, boxes and the overlap test. */
module Geometry {

  datatype Point = Point(x: int, y: int)

  /** A detection as the centroid tracker receives it: top-left corner, width and height. */
  datatype Box = Box(x: int, y: int, w: int, h: int)

  /** A corner-to-corner rectangle: (x1, y1) top-left, (x2, y2) bottom-right. */
  datatype Rect = Rect(x1: int, y1: int, x2: int, y2: int)

  /** Python's `int(n / d)` for a positive divisor: the quotient truncated toward zero. */
  function TruncDiv(n: int, d: int): (q: int)
    requires d > 0
    ensures 0 <= n ==> 0 <= q && q * d <= n < q * d + d
    ensures n < 0 ==> q <= 0 && q * d - d < n <= q * d
  {
    if n >= 0 then
      DivBounds(n, d);
      n / d
    else
      DivBounds(-n, d);
      -((-n) / d)
  }

  /** Euclidean division of a non-negative number, with the product written q * d. */
  lemma DivBounds(m: int, d: int)
    requires 0 <= m && 0 < d
    ensures 0 <= m / d && (m / d) * d <= m < (m / d) * d + d
  {
    var q, r := m / d, m % d;
    assert m == d * q + r && 0 <= r < d;
    assert d * q == q * d;
  }

  /** The point lies in the box, borders included. */
  predicate Contains(b: Box, p: Point) {
    b.x <= p.x <= b.x + b.w && b.y <= p.y <= b.y + b.h
  }

  /** `(int(x + w / 2.0), int(y + h / 2.0))`: the box centre, truncated toward zero. */
  function Centroid(b: Box): (c: Point)
    ensures -1 <= 2 * c.x - (2 * b.x + b.w) <= 1 && -1 <= 2 * c.y - (2 * b.y + b.h) <= 1
    ensures 0 <= b.w && 0 <= b.h ==> Contains(b, c)
  {
    Point(TruncDiv(2 * b.x + b.w, 2), TruncDiv(2 * b.y + b.h, 2))
  }

  function Abs(n: int): nat { if n >= 0 then n else -n }

  /**
   * n squared, as the sum of the first n odd numbers. Written as a recursion
   * so that comparisons of distances stay in linear arithmetic; SquareIsProduct
   * shows it is n * n.
   */
  function Square(n: nat): (r: nat)
    ensures r >= n
  {
    if n == 0 then 0 else Square(n - 1) + 2 * n - 1
  }

  lemma {:induction false} SquareIsProduct(n: nat)
    ensures Square(n) == n * n
  {
    if n > 0 {
      SquareIsProduct(n - 1);
      assert (n - 1) * (n - 1) + 2 * n - 1 == n * n;
    }
  }

  /** Squared Euclidean distance; it orders pairs of points exactly as the distance does. */
  function SqDist(p: Point, q: Point): (d: nat)
    ensures d == 0 <==> p == q
  {
    Square(Abs(p.x - q.x)) + Square(Abs(p.y - q.y))
  }

  /** SqDist is dx * dx + dy * dy. */
  lemma SqDistIsSquaredNorm(p: Point, q: Point)
    ensures SqDist(p, q) == (p.x - q.x) * (p.x - q.x) + (p.y - q.y) * (p.y - q.y)
  {
    SquareOfAbs(p.x - q.x);
    SquareOfAbs(p.y - q.y);
  }

  lemma SquareOfAbs(n: int)
    ensures Square(Abs(n)) == n * n
  {
    SquareIsProduct(Abs(n));
    if n < 0 {
      assert (-n) * (-n) == n * n;
    }
  }

  function Max(a: int, b: int): int { if a >= b then a else b }

  function Min(a: int, b: int): int { if a <= b then a else b }

  /** The intersection of the two rectangles has strictly positive width and height. */
  function Overlaps(a: Rect, b: Rect): (r: bool)
    ensures r <==> && a.x1 < a.x2 && b.x1 < b.x2 && a.x1 < b.x2 && b.x1 < a.x2
                   && a.y1 < a.y2 && b.y1 < b.y2 && a.y1 < b.y2 && b.y1 < a.y2
  {
    Max(a.x1, b.x1) < Min(a.x2, b.x2) && Max(a.y1, b.y1) < Min(a.y2, b.y2)
  }

  /** The unit pixel whose top-left corner is (px, py) lies inside r. */
  predicate HasPixel(r: Rect, px: int, py: int) {
    r.x1 <= px < r.x2 && r.y1 <= py < r.y2
  }

  /** Positive-area overlap means exactly that some pixel belongs to both rectangles. */
  lemma OverlapsIffSharedPixel(a: Rect, b: Rect)
    ensures Overlaps(a, b) <==> exists px, py :: HasPixel(a, px, py) && HasPixel(b, px, py)
  {
    if Overlaps(a, b) {
      var px, py := Max(a.x1, b.x1), Max(a.y1, b.y1);
      assert HasPixel(a, px, py) && HasPixel(b, px, py);
    }
  }

  lemma OverlapsSymmetric(a: Rect, b: Rect)
    ensures Overlaps(a, b) == Overlaps(b, a)
  {
  }

  /** The rectangle a box covers: `(x, y, x + w, y + h)`. */
  function RectOfBox(b: Box): Rect {
    Rect(b.x, b.y, b.x + b.w, b.y + b.h)
  }

  /** Corner coordinates to `(x1, y1, x2 - x1, y2 - y1)`; it inverts RectOfBox. */
  function BoxOfCorners(r: Rect): (b: Box)
    ensures RectOfBox(b) == r
  {
    Box(r.x1, r.y1, r.x2 - r.x1, r.y2 - r.y1)
  }

  lemma CornersRoundTrip(b: Box)
    ensures BoxOfCorners(RectOfBox(b)) == b
  {
  }
}
