/** The two-dimensional points shared by the point sets (Point is not part of this model;
    its coordinates are taken as exact reals). */
module Points {
  datatype Point = Point(x: real, y: real)

  /** Point.distance: the point sets compare it with a squared gap along one axis, so it is
      the squared Euclidean distance. */
  function Distance(p: Point, q: Point): (d: real)
    ensures d >= (p.x - q.x) * (p.x - q.x) && d >= (p.y - q.y) * (p.y - q.y)
    ensures d >= 0.0
  {
    (p.x - q.x) * (p.x - q.x) + (p.y - q.y) * (p.y - q.y)
  }

  lemma DistanceSymmetric(p: Point, q: Point)
    ensures Distance(p, q) == Distance(q, p)
  {
    assert (p.x - q.x) * (p.x - q.x) == (q.x - p.x) * (q.x - p.x);
    assert (p.y - q.y) * (p.y - q.y) == (q.y - p.y) * (q.y - p.y);
  }

  /** s[i] is the point of s nearest to goal, and every earlier point is strictly farther: the
      point a left-to-right scan keeps when it replaces its best only on a strictly smaller
      distance. */
  ghost predicate FirstNearest(s: seq<Point>, goal: Point, i: int) {
    0 <= i < |s| &&
    (forall j :: 0 <= j < |s| ==> Distance(s[i], goal) <= Distance(s[j], goal)) &&
    (forall j :: 0 <= j < i ==> Distance(s[i], goal) < Distance(s[j], goal))
  }
}
