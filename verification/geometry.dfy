/** Integer and real-valued points and rectangles (cv::Point, cv::Point2f, cv::Rect). */
module Geometry {

  /** An integer pixel position. */
  datatype Point = Point(x: int, y: int)

  /** An integer rectangle given by its top-left corner and its size. */
  datatype Rect = Rect(x: int, y: int, width: int, height: int) {

    /** The top-left corner. */
    function Tl(): Point {
      Point(x, y)
    }

    /** The bottom-right corner, one past the last pixel. */
    function Br(): Point {
      Point(x + width, y + height)
    }
  }

  /** A real-valued position (floating point in the source). */
  datatype PointF = PointF(x: real, y: real)

  function Min(a: int, b: int): int {
    if a <= b then a else b
  }

  function Max(a: int, b: int): int {
    if a >= b then a else b
  }

  /** Sum of the x coordinates of a list of points. */
  function SumX(pts: seq<Point>): int {
    if |pts| == 0 then 0 else SumX(pts[..|pts| - 1]) + pts[|pts| - 1].x
  }

  /** Sum of the y coordinates of a list of points. */
  function SumY(pts: seq<Point>): int {
    if |pts| == 0 then 0 else SumY(pts[..|pts| - 1]) + pts[|pts| - 1].y
  }

  /** Mean of a non-empty list of points, in real arithmetic. */
  function Mean(pts: seq<Point>): (c: PointF)
    requires |pts| > 0
    ensures c.x * |pts| as real == SumX(pts) as real
    ensures c.y * |pts| as real == SumY(pts) as real
  {
    PointF(SumX(pts) as real / |pts| as real, SumY(pts) as real / |pts| as real)
  }

  /** Every point lies in the closed box [lo, hi]. */
  ghost predicate AllWithin(pts: seq<Point>, lo: Point, hi: Point) {
    forall i :: 0 <= i < |pts| ==> lo.x <= pts[i].x <= hi.x && lo.y <= pts[i].y <= hi.y
  }

  lemma {:induction false} SumBounds(pts: seq<Point>, lo: Point, hi: Point)
    requires AllWithin(pts, lo, hi)
    ensures |pts| * lo.x <= SumX(pts) <= |pts| * hi.x
    ensures |pts| * lo.y <= SumY(pts) <= |pts| * hi.y
  {
    if |pts| > 0 {
      var init := pts[..|pts| - 1];
      WithinInit(pts, lo, hi);
      SumBounds(init, lo, hi);
      MulStep(|init|, lo.x);
      MulStep(|init|, hi.x);
      MulStep(|init|, lo.y);
      MulStep(|init|, hi.y);
    }
  }

  lemma WithinInit(pts: seq<Point>, lo: Point, hi: Point)
    requires |pts| > 0 && AllWithin(pts, lo, hi)
    ensures AllWithin(pts[..|pts| - 1], lo, hi)
  {
    var init := pts[..|pts| - 1];
    forall i | 0 <= i < |init| ensures lo.x <= init[i].x <= hi.x && lo.y <= init[i].y <= hi.y {
      assert init[i] == pts[i];
    }
  }

  lemma MulStep(n: nat, a: int)
    ensures (n + 1) * a == n * a + a
  {
  }

  /** A value whose n-fold is an integer sum between n * a and n * b lies between a and b. */
  lemma ScaledBetween(n: nat, s: int, a: int, b: int, c: real)
    requires n > 0 && c * n as real == s as real && n * a <= s <= n * b
    ensures a as real <= c <= b as real
  {
    assert (n * a) as real == n as real * a as real;
    assert (n * b) as real == n as real * b as real;
  }

  /** The x coordinate of the mean lies between the bounds that the sum of x allows. */
  lemma MeanXBetween(pts: seq<Point>, a: int, b: int)
    requires |pts| > 0 && |pts| * a <= SumX(pts) <= |pts| * b
    ensures a as real <= Mean(pts).x <= b as real
  {
    ScaledBetween(|pts|, SumX(pts), a, b, Mean(pts).x);
  }

  /** The y coordinate of the mean lies between the bounds that the sum of y allows. */
  lemma MeanYBetween(pts: seq<Point>, a: int, b: int)
    requires |pts| > 0 && |pts| * a <= SumY(pts) <= |pts| * b
    ensures a as real <= Mean(pts).y <= b as real
  {
    ScaledBetween(|pts|, SumY(pts), a, b, Mean(pts).y);
  }

  /** The mean of points inside a box lies inside the same box. */
  lemma MeanWithin(pts: seq<Point>, lo: Point, hi: Point)
    requires |pts| > 0 && AllWithin(pts, lo, hi)
    ensures lo.x as real <= Mean(pts).x <= hi.x as real
    ensures lo.y as real <= Mean(pts).y <= hi.y as real
  {
    SumBounds(pts, lo, hi);
    MeanXBetween(pts, lo.x, hi.x);
    MeanYBetween(pts, lo.y, hi.y);
  }
}
