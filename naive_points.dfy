/** NaivePointSet: the list of points and the linear scan for the nearest one, the reference
    that says what nearest means. */
module NaivePoints {
  import opened Wrappers
  import opened Points

  /** The scan only accepts points whose distance is strictly below this bound. */
  const Threshold: real := 100000.0

  class NaivePointSet {
    var points: seq<Point>

    /** The constructor keeps the given list. */
    constructor (ps: seq<Point>)
      ensures points == ps
    {
      points := ps;
    }

    /** nearest: the first listed point at the least distance from (x, y), or None (Java
        null) when no listed point is closer than Threshold. */
    method Nearest(x: real, y: real) returns (r: Option<Point>)
      ensures r.None? <==> forall j :: 0 <= j < |points| ==> Distance(points[j], Point(x, y)) >= Threshold
      ensures r.Some? ==> Distance(r.value, Point(x, y)) < Threshold
      ensures r.Some? ==> exists i :: FirstNearest(points, Point(x, y), i) && points[i] == r.value
    {
      var objective := Point(x, y);
      var nearestPoint: Option<Point> := None;
      var minDistance := Threshold;
      ghost var at := 0;
      for k := 0 to |points|
        invariant nearestPoint.None? ==> minDistance == Threshold
        invariant nearestPoint.None? ==> forall j :: 0 <= j < k ==> Distance(points[j], objective) >= Threshold
        invariant nearestPoint.Some? ==> 0 <= at < k && points[at] == nearestPoint.value
        invariant nearestPoint.Some? ==> minDistance == Distance(points[at], objective) < Threshold
        invariant forall j :: 0 <= j < k ==> minDistance <= Distance(points[j], objective)
        invariant nearestPoint.Some? ==> forall j :: 0 <= j < at ==> minDistance < Distance(points[j], objective)
      {
        DistanceSymmetric(objective, points[k]);
        if Distance(objective, points[k]) < minDistance {
          nearestPoint := Some(points[k]);
          at := k;
          minDistance := Distance(objective, points[k]);
        }
      }
      r := nearestPoint;
      if r.Some? {
        assert FirstNearest(points, objective, at);
      }
    }
  }
}
