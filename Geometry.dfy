/**
 * Hand geometry used by the controller: landmark points, the palm centre,
 * Python's truncating int() conversion, and the pinch classifier.
 *
 * The classifier in the original measures Euclidean distances with a square
 * root. Exact reals have no square root, so the classifier is given twice:
 * once over the three distances it measures (PinchFromDistances), and once
 * over the landmarks themselves, comparing squared distances (IsPinching).
 * IsPinchingMatchesDistances proves the two agree whenever the distances are
 * the true distances between the landmarks.
 */
module Geometry {

  /** A landmark in normalised image coordinates. */
  datatype Point = Point(x: real, y: real)

  /** The hand model reports 21 landmarks, indexed by a fixed anatomical scheme. */
  const LandmarkCount: nat := 21
  const Wrist: nat := 0
  const ThumbMcp: nat := 2
  const ThumbIp: nat := 3
  const ThumbTip: nat := 4
  const IndexMcp: nat := 5
  const IndexTip: nat := 8
  const PinkyMcp: nat := 17

  type Landmarks = lm: seq<Point> | |lm| == LandmarkCount
    witness seq(LandmarkCount, _ => Point(0.0, 0.0))

  /** Calibration constants of the classifier. */
  const PinchDistance: real := 0.07
  const ThumbBend: real := 1.2
  const BendFloor: real := 0.001

  // ---------------------------------------------------------------------
  // Truncation and the palm centre
  // ---------------------------------------------------------------------

  /** Python's int() on a float: truncation toward zero. */
  function Trunc(r: real): (n: int)
    ensures r >= 0.0 ==> n >= 0 && n as real <= r < n as real + 1.0
    ensures r < 0.0 ==> n <= 0 && n as real - 1.0 < r <= n as real
  {
    if r >= 0.0 then r.Floor else -((-r).Floor)
  }

  predicate InUnitSquare(p: Point) {
    0.0 <= p.x <= 1.0 && 0.0 <= p.y <= 1.0
  }

  /** Mean of the wrist, index-base and pinky-base landmarks. */
  function PalmCenter(lm: Landmarks): (c: Point)
    ensures InUnitSquare(lm[Wrist]) && InUnitSquare(lm[IndexMcp]) && InUnitSquare(lm[PinkyMcp])
            ==> InUnitSquare(c)
    ensures lm[Wrist] == lm[IndexMcp] == lm[PinkyMcp] ==> c == lm[Wrist]
  {
    Point((lm[Wrist].x + lm[IndexMcp].x + lm[PinkyMcp].x) / 3.0,
          (lm[Wrist].y + lm[IndexMcp].y + lm[PinkyMcp].y) / 3.0)
  }

  /** A normalised coordinate scaled to a screen dimension and truncated to a pixel. */
  function ScreenCoordinate(c: real, size: int): (px: int)
    ensures 0.0 <= c <= 1.0 && size >= 0 ==> 0 <= px <= size
    ensures 0.0 <= c < 1.0 && size > 0 ==> px < size
  {
    ScreenCoordinateBounds(c, size);
    Trunc(c * size as real)
  }

  lemma ScreenCoordinateBounds(c: real, size: int)
    ensures 0.0 <= c <= 1.0 && size >= 0 ==> 0 <= Trunc(c * size as real) <= size
    ensures 0.0 <= c < 1.0 && size > 0 ==> Trunc(c * size as real) < size
  {
    var scaled := c * size as real;
    ScaleBounds(c, size);
    if 0.0 <= c <= 1.0 && size >= 0 {
      assert 0.0 <= scaled <= size as real;
      TruncRange(scaled, size);
    }
    if 0.0 <= c < 1.0 && size > 0 {
      assert 0.0 <= scaled < size as real;
      TruncRange(scaled, size);
    }
  }

  /** Truncating a value in [0, size] gives a pixel in [0, size], strictly below size if the value is. */
  lemma TruncRange(r: real, size: int)
    ensures 0.0 <= r <= size as real ==> 0 <= Trunc(r) <= size
    ensures 0.0 <= r < size as real ==> Trunc(r) < size
  {
  }

  lemma ScaleBounds(c: real, size: int)
    ensures 0.0 <= c <= 1.0 && size >= 0 ==> 0.0 <= c * size as real <= size as real
    ensures 0.0 <= c < 1.0 && size > 0 ==> c * size as real < size as real
  {
    if 0.0 < c && size > 0 {
      PositiveProduct(c, size as real);
    }
    if c < 1.0 && size > 0 {
      ScaleLess(c, 1.0, size as real);
    }
  }

  // ---------------------------------------------------------------------
  // The pinch classifier
  // ---------------------------------------------------------------------

  function Square(a: real): real {
    a * a
  }

  /** Squared Euclidean distance between two landmarks. */
  function SqDist(p: Point, q: Point): (d: real)
    ensures d >= 0.0
    ensures p == q ==> d == 0.0
  {
    var dx, dy := p.x - q.x, p.y - q.y;
    SquareNonNegative(dx);
    SquareNonNegative(dy);
    Square(dx) + Square(dy)
  }

  lemma SquareNonNegative(a: real)
    ensures Square(a) >= 0.0
  {
    if a < 0.0 {
      SquareStrictlyGrows(0.0, -a);
      assert Square(a) == Square(-a);
    } else if a > 0.0 {
      SquareStrictlyGrows(0.0, a);
    }
  }

  lemma PositiveProduct(x: real, y: real)
    requires x > 0.0 && y > 0.0
    ensures x * y > 0.0
  {
  }

  /** Multiplying by a positive factor keeps a strict order. */
  lemma ScaleLess(a: real, b: real, c: real)
    requires a < b && c > 0.0
    ensures a * c < b * c
  {
    PositiveProduct(b - a, c);
    assert b * c - a * c == (b - a) * c;
  }

  /** d is the Euclidean distance between p and q. */
  predicate IsDistance(d: real, p: Point, q: Point) {
    d >= 0.0 && Square(d) == SqDist(p, q)
  }

  /** The divisor of the thumb-bend ratio: the IP-to-MCP distance, floored. */
  function BendDivisor(ipToMcp: real): (m: real)
    ensures m >= BendFloor && m >= ipToMcp
    ensures m == BendFloor || m == ipToMcp
  {
    if ipToMcp > BendFloor then ipToMcp else BendFloor
  }

  /** The classifier as the original writes it, over the distances it measures. */
  predicate PinchFromDistances(tipToIndex: real, tipToMcp: real, ipToMcp: real): (b: bool)
    ensures b ==> tipToMcp > ThumbBend * BendFloor && tipToMcp > ThumbBend * ipToMcp
  {
    BendGateFloor(tipToMcp, ipToMcp);
    tipToIndex < PinchDistance && tipToMcp / BendDivisor(ipToMcp) > ThumbBend
  }

  /** Passing the bend gate needs the tip 1.2 times the floored divisor away from the MCP joint. */
  lemma BendGateFloor(tipToMcp: real, ipToMcp: real)
    ensures tipToMcp / BendDivisor(ipToMcp) > ThumbBend
            ==> tipToMcp > ThumbBend * BendFloor && tipToMcp > ThumbBend * ipToMcp
  {
    QuotientGreater(tipToMcp, BendDivisor(ipToMcp), ThumbBend);
    if ipToMcp > BendFloor {
      ScaleLess(BendFloor, ipToMcp, ThumbBend);
    } else if ipToMcp < BendFloor {
      ScaleLess(ipToMcp, BendFloor, ThumbBend);
    }
  }

  /** The floored divisor, squared: the floor applies to the square as well. */
  function SquaredBendDivisor(sqIpToMcp: real): (m: real)
    ensures m >= Square(BendFloor) && m >= sqIpToMcp
    ensures m == Square(BendFloor) || m == sqIpToMcp
  {
    if sqIpToMcp > Square(BendFloor) then sqIpToMcp else Square(BendFloor)
  }

  /** The classifier on landmarks, comparing squared distances. */
  predicate IsPinching(lm: Landmarks): (b: bool)
    ensures b ==> lm[ThumbTip] != lm[ThumbMcp]
  {
    && SqDist(lm[ThumbTip], lm[IndexTip]) < Square(PinchDistance)
    && SqDist(lm[ThumbTip], lm[ThumbMcp])
         > Square(ThumbBend) * SquaredBendDivisor(SqDist(lm[ThumbIp], lm[ThumbMcp]))
  }

  /** For non-negative reals, order is decided by the squares. */
  lemma SquareLess(a: real, b: real)
    requires a >= 0.0 && b >= 0.0
    ensures a < b <==> Square(a) < Square(b)
  {
    if a < b {
      SquareStrictlyGrows(a, b);
    } else if b < a {
      SquareStrictlyGrows(b, a);
    }
  }

  lemma SquareStrictlyGrows(lo: real, hi: real)
    requires 0.0 <= lo < hi
    ensures Square(lo) < Square(hi)
  {
    assert hi * hi - lo * lo == (hi - lo) * (hi + lo);
    PositiveProduct(hi - lo, hi + lo);
  }

  /** For a positive divisor, a quotient exceeds c exactly when the dividend exceeds c times it. */
  lemma QuotientGreater(a: real, m: real, c: real)
    requires m > 0.0
    ensures a / m > c <==> a > c * m
  {
    assert (a / m) * m == a;
    if a / m > c {
      ScaleLess(c, a / m, m);
    } else if a / m < c {
      ScaleLess(a / m, c, m);
    }
  }

  /** The landmark classifier decides exactly what the distance classifier decides. */
  lemma IsPinchingMatchesDistances(lm: Landmarks, tipToIndex: real, tipToMcp: real, ipToMcp: real)
    requires IsDistance(tipToIndex, lm[ThumbTip], lm[IndexTip])
    requires IsDistance(tipToMcp, lm[ThumbTip], lm[ThumbMcp])
    requires IsDistance(ipToMcp, lm[ThumbIp], lm[ThumbMcp])
    ensures IsPinching(lm) <==> PinchFromDistances(tipToIndex, tipToMcp, ipToMcp)
  {
    // distance gate
    SquareLess(tipToIndex, PinchDistance);
    // bend gate: tipToMcp / m > 1.2  <==>  tipToMcp > 1.2 m  <==>  tipToMcp^2 > 1.44 m^2
    var m := BendDivisor(ipToMcp);
    QuotientGreater(tipToMcp, m, ThumbBend);
    SquareLess(ThumbBend * m, tipToMcp);
    assert Square(ThumbBend * m) == Square(ThumbBend) * Square(m);
    if ipToMcp > BendFloor {
      SquareLess(BendFloor, ipToMcp);
    } else {
      SquareLess(ipToMcp, BendFloor);
    }
    assert Square(m) == SquaredBendDivisor(Square(ipToMcp));
  }

  /** Worked cases of the two gates, including their strict boundaries and a collapsed thumb. */
  lemma PinchGateExamples(base: real)
    requires base >= BendFloor
    ensures !PinchFromDistances(0.10, 2.0 * base, base)
    ensures PinchFromDistances(0.05, 1.5 * base, base)
    ensures !PinchFromDistances(PinchDistance, 1.5 * base, base)
    ensures !PinchFromDistances(0.05, ThumbBend * base, base)
    ensures PinchFromDistances(0.05, 0.0013, 0.0) && !PinchFromDistances(0.05, 0.0012, 0.0)
  {
    QuotientGreater(1.5 * base, base, ThumbBend);
    QuotientGreater(ThumbBend * base, base, ThumbBend);
    QuotientGreater(0.0013, BendFloor, ThumbBend);
    QuotientGreater(0.0012, BendFloor, ThumbBend);
  }
}
