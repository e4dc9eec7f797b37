/**
 * The geometry utility (utils.py): Euclidean distance between two court points.
 *
 * A Euclidean distance is represented EXACTLY by its square: `Distance(s)` stands for the
 * non-negative real sqrt(s). The square root is strictly increasing on the non-negative reals,
 * so comparing, minimising and testing two distances for equality is the same as doing so on
 * their squares (lemmas ShorterIffLess and DenotesUnique); `Denotes` ties a `Distance` to the
 * real number it stands for.
 */
module Geometry {

  datatype Point = Point(x: real, y: real)

  /** The distance sqrt(square). */
  datatype Distance = Distance(square: real)

  /** `d` is the real length `r`: r is the non-negative square root of d's square. */
  ghost predicate Denotes(d: Distance, r: real) {
    r >= 0.0 && r * r == d.square
  }

  /** euclidean_distance: sqrt((x2 - x1)^2 + (y2 - y1)^2). */
  function EuclideanDistance(p: Point, q: Point): (d: Distance)
    ensures d.square >= 0.0
    ensures p == q ==> d.square == 0.0
  {
    var dx, dy := q.x - p.x, q.y - p.y;
    SumOfSquaresNonnegative(dx, dy);
    Distance(dx * dx + dy * dy)
  }

  /** Strictly shorter: the comparison `<` on distances. */
  predicate Shorter(a: Distance, b: Distance) {
    a.square < b.square
  }

  /** Python's min of two distances: the first one unless the second is strictly shorter. */
  function MinDistance(a: Distance, b: Distance): (m: Distance)
    ensures m == a || m == b
    ensures m.square <= a.square && m.square <= b.square
  {
    if Shorter(b, a) then b else a
  }

  lemma SumOfSquaresNonnegative(dx: real, dy: real)
    ensures dx * dx + dy * dy >= 0.0
  {
  }

  lemma SquareOfNegation(a: real, n: real)
    requires n == -a
    ensures n * n == a * a
  {
  }

  lemma ProductPositive(a: real, b: real)
    requires a > 0.0 && b > 0.0
    ensures a * b > 0.0
  {
  }

  lemma DifferenceOfSquares(a: real, b: real)
    ensures b * b - a * a == (b - a) * (b + a)
  {
  }

  /** Squaring is strictly increasing on the non-negative reals. */
  lemma SquareStrictlyIncreasing(a: real, b: real)
    requires 0.0 <= a < b
    ensures a * a < b * b
  {
    ProductPositive(b - a, b + a);
    DifferenceOfSquares(a, b);
  }

  /** The distance is symmetric in its two points. */
  lemma DistanceSymmetric(p: Point, q: Point)
    ensures EuclideanDistance(p, q) == EuclideanDistance(q, p)
  {
    SquareOfNegation(q.x - p.x, p.x - q.x);
    SquareOfNegation(q.y - p.y, p.y - q.y);
  }

  /** Every distance denotes at most one non-negative real. */
  lemma DenotesUnique(d: Distance, r1: real, r2: real)
    requires Denotes(d, r1) && Denotes(d, r2)
    ensures r1 == r2
  {
    if r1 < r2 {
      SquareStrictlyIncreasing(r1, r2);
    } else if r2 < r1 {
      SquareStrictlyIncreasing(r2, r1);
    }
  }

  /** Comparing two distances agrees with comparing the lengths they denote. */
  lemma ShorterIffLess(a: Distance, b: Distance, ra: real, rb: real)
    requires Denotes(a, ra) && Denotes(b, rb)
    ensures Shorter(a, b) <==> ra < rb
  {
    if ra < rb {
      SquareStrictlyIncreasing(ra, rb);
    } else if rb < ra {
      SquareStrictlyIncreasing(rb, ra);
    }
  }

  /** The 3-4-5 triangle: the distance from (0,0) to (3,4) is 5. */
  lemma ThreeFourFive()
    ensures Denotes(EuclideanDistance(Point(0.0, 0.0), Point(3.0, 4.0)), 5.0)
  {
  }
}
