/** The 2-d tree of both KDTree versions as a value: the split rule, insertion (putHelper),
    and the two nearest-neighbour searches of the later version, with the theorem that the
    pruned search finds a point as close as the exhaustive one. */
module KdTreeSpec {
  import opened Points

  /** A KDTreeNode with its recorded depth, its point and its two children. */
  datatype Tree = Leaf | Node(depth: int, point: Point, small: Tree, big: Tree)

  /** lookAtX: even depths split on x, odd depths on y. */
  predicate LookAtX(d: int) {
    d % 2 == 0
  }

  /** The coordinate a node at depth d splits on. */
  function Axis(p: Point, d: int): real {
    if LookAtX(d) then p.x else p.y
  }

  /** The split rule: p belongs under the small child of a node holding q at depth d exactly
      when it is strictly smaller on the split axis; a tie counts as bigger. */
  predicate GoesSmall(p: Point, q: Point, d: int) {
    Axis(p, d) < Axis(q, d)
  }

  /** The stored points in the order the exhaustive search visits them: node, small, big. */
  function Preorder(t: Tree): seq<Point> {
    match t
    case Leaf => []
    case Node(_, q, s, b) => [q] + Preorder(s) + Preorder(b)
  }

  /** Every node sends the points below it to the side the split rule names, judged at the
      depth the node records. */
  ghost predicate Partitioned(t: Tree) {
    match t
    case Leaf => true
    case Node(d, q, s, b) =>
      (forall p :: p in Preorder(s) ==> GoesSmall(p, q, d)) &&
      (forall p :: p in Preorder(b) ==> !GoesSmall(p, q, d)) &&
      Partitioned(s) && Partitioned(b)
  }

  /** Every node records its distance from a root at the given depth. */
  ghost predicate DepthsFrom(t: Tree, depth: int) {
    match t
    case Leaf => true
    case Node(d, _, s, b) => d == depth && DepthsFrom(s, depth + 1) && DepthsFrom(b, depth + 1)
  }

  /** What put builds from an empty tree. */
  ghost predicate WellFormed(t: Tree) {
    Partitioned(t) && DepthsFrom(t, 0)
  }

  /** putHelper: walk down comparing on the axis of the depth argument, and hang a new node
      recording that depth where the walk falls off the tree. */
  function Insert(t: Tree, p: Point, depth: int): (r: Tree)
    ensures r.Node? && p in Preorder(r)
    ensures t.Node? ==> r.depth == t.depth && r.point == t.point
  {
    match t
    case Leaf => Node(depth, p, Leaf, Leaf)
    case Node(d, q, s, b) =>
      if GoesSmall(p, q, depth) then Node(d, q, Insert(s, p, depth + 1), b)
      else Node(d, q, s, Insert(b, p, depth + 1))
  }

  /** u is t with exactly one empty child replaced by a new leaf node holding p, and that node
      records its distance from the root; every other node is kept with its point. */
  ghost predicate AddsOneLeaf(t: Tree, u: Tree, p: Point, depth: int) {
    match t
    case Leaf => u == Node(depth, p, Leaf, Leaf)
    case Node(d, q, s, b) =>
      u.Node? && u.depth == d && u.point == q &&
      ((u.big == b && AddsOneLeaf(s, u.small, p, depth + 1)) ||
       (u.small == s && AddsOneLeaf(b, u.big, p, depth + 1)))
  }

  lemma {:induction false} InsertAddsOneLeaf(t: Tree, p: Point, depth: int)
    ensures AddsOneLeaf(t, Insert(t, p, depth), p, depth)
    decreases t
  {
    match t
    case Leaf =>
    case Node(d, q, s, b) =>
      if GoesSmall(p, q, depth) {
        InsertAddsOneLeaf(s, p, depth + 1);
      } else {
        InsertAddsOneLeaf(b, p, depth + 1);
      }
  }

  /** The stored points of a node, as a multiset. */
  lemma NodeMultiset(t: Tree)
    requires t.Node?
    ensures multiset(Preorder(t)) == multiset{t.point} + multiset(Preorder(t.small)) + multiset(Preorder(t.big))
  {
    assert Preorder(t) == [t.point] + Preorder(t.small) + Preorder(t.big);
  }

  /** put stores exactly one more copy of p. */
  lemma {:induction false} InsertAddsPoint(t: Tree, p: Point, depth: int)
    ensures multiset(Preorder(Insert(t, p, depth))) == multiset(Preorder(t)) + multiset{p}
    decreases t
  {
    if t.Leaf? {
      assert Preorder(Insert(t, p, depth)) == [p];
    } else if GoesSmall(p, t.point, depth) {
      InsertAddsPoint(t.small, p, depth + 1);
      InsertStep(t, p, depth);
    } else {
      InsertAddsPoint(t.big, p, depth + 1);
      InsertStep(t, p, depth);
    }
  }

  lemma InsertStep(t: Tree, p: Point, depth: int)
    requires t.Node?
    requires GoesSmall(p, t.point, depth) ==>
      multiset(Preorder(Insert(t.small, p, depth + 1))) == multiset(Preorder(t.small)) + multiset{p}
    requires !GoesSmall(p, t.point, depth) ==>
      multiset(Preorder(Insert(t.big, p, depth + 1))) == multiset(Preorder(t.big)) + multiset{p}
    ensures multiset(Preorder(Insert(t, p, depth))) == multiset(Preorder(t)) + multiset{p}
  {
    NodeMultiset(t);
    NodeMultiset(Insert(t, p, depth));
  }

  /** Every point of the tree after put is p or was there before. */
  lemma InsertOnlyAddsP(t: Tree, p: Point, depth: int)
    ensures forall x :: x in Preorder(Insert(t, p, depth)) ==> x in Preorder(t) || x == p
  {
    InsertAddsPoint(t, p, depth);
    forall x | x in Preorder(Insert(t, p, depth))
      ensures x in Preorder(t) || x == p
    {
      assert x in multiset(Preorder(Insert(t, p, depth)));
    }
  }

  /** put keeps the split rule. */
  lemma {:induction false} InsertKeepsPartition(t: Tree, p: Point, depth: int)
    requires Partitioned(t) && DepthsFrom(t, depth)
    ensures Partitioned(Insert(t, p, depth))
    decreases t
  {
    match t
    case Leaf =>
    case Node(d, q, s, b) =>
      if GoesSmall(p, q, depth) {
        InsertKeepsPartition(s, p, depth + 1);
        InsertOnlyAddsP(s, p, depth + 1);
      } else {
        InsertKeepsPartition(b, p, depth + 1);
        InsertOnlyAddsP(b, p, depth + 1);
      }
  }

  /** put from the root keeps a tree put built well formed. */
  lemma InsertKeepsWellFormed(t: Tree, p: Point)
    requires WellFormed(t)
    ensures WellFormed(Insert(t, p, 0))
  {
    InsertKeepsPartition(t, p, 0);
    InsertKeepsDepths(t, p, 0);
  }

  /** put keeps every node's recorded depth equal to its distance from the root. */
  lemma {:induction false} InsertKeepsDepths(t: Tree, p: Point, depth: int)
    requires DepthsFrom(t, depth)
    ensures DepthsFrom(Insert(t, p, depth), depth)
    decreases t
  {
    match t
    case Leaf =>
    case Node(d, q, s, b) =>
      if GoesSmall(p, q, depth) {
        InsertKeepsDepths(s, p, depth + 1);
      } else {
        InsertKeepsDepths(b, p, depth + 1);
      }
  }

  /** The points put has stored, in order: the tree put builds from them, starting empty. */
  ghost function Build(points: seq<Point>): Tree
    decreases |points|
  {
    if points == [] then Leaf
    else Insert(Build(points[..|points| - 1]), points[|points| - 1], 0)
  }

  /** One more point of the list is one more put. */
  lemma BuildPrefix(points: seq<Point>, i: int)
    requires 0 <= i < |points|
    ensures Build(points[..i + 1]) == Insert(Build(points[..i]), points[i], 0)
    ensures multiset(points[..i + 1]) == multiset(points[..i]) + multiset{points[i]}
  {
    assert points[..i + 1][..i] == points[..i];
    assert points[..i + 1] == points[..i] + [points[i]];
  }

  /** One step of both searches: the node's point replaces the best only when strictly closer. */
  function Closer(best: Point, q: Point, goal: Point): Point {
    if Distance(q, goal) < Distance(best, goal) then q else best
  }

  /** chooseGoodSide: 0 (the small child) when the goal is strictly smaller than the node's
      point on the axis of the depth argument, 1 (the big child) otherwise. */
  function ChooseGoodSide(p: Point, goal: Point, depth: int): (side: int)
    ensures side == 0 || side == 1
    ensures side == 0 <==> GoesSmall(goal, p, depth)
  {
    if LookAtX(depth) then
      if goal.x < p.x then 0 else 1
    else
      if goal.y < p.y then 0 else 1
  }

  /** badSideIsUseful: the squared gap from the goal to the border node's split line, on the
      axis of the depth the border records, is strictly below the best distance so far. */
  function BadSideIsUseful(best: Point, goal: Point, borderDepth: int, borderPoint: Point): (useful: bool)
    ensures !useful ==>
      Distance(best, goal) <= (Axis(borderPoint, borderDepth) - Axis(goal, borderDepth)) * (Axis(borderPoint, borderDepth) - Axis(goal, borderDepth))
  {
    var possibleDistanceMin :=
      if LookAtX(borderDepth) then (borderPoint.x - goal.x) * (borderPoint.x - goal.x)
      else (borderPoint.y - goal.y) * (borderPoint.y - goal.y);
    possibleDistanceMin < Distance(best, goal)
  }

  /** nearestHelper: visit the node, then the good side, then the bad side only when it may
      hold something closer. */
  function NearestHelper(t: Tree, goal: Point, depth: int, best: Point): (r: Point)
    ensures r == best || r in Preorder(t)
    ensures Distance(r, goal) <= Distance(best, goal)
  {
    match t
    case Leaf => best
    case Node(d, q, s, b) =>
      var best1 := Closer(best, q, goal);
      var goodSide := ChooseGoodSide(q, goal, depth);
      var best2 := if goodSide == 1 then NearestHelper(b, goal, depth + 1, best1)
                   else NearestHelper(s, goal, depth + 1, best1);
      if BadSideIsUseful(best2, goal, d, q) then
        if goodSide == 1 then NearestHelper(s, goal, depth + 1, best2)
        else NearestHelper(b, goal, depth + 1, best2)
      else best2
  }

  /** nearestInefficientHelper: visit the node, then the whole small side, then the whole big
      side. */
  function NearestInefficientHelper(t: Tree, goal: Point, best: Point): (r: Point)
    ensures r == best || r in Preorder(t)
    ensures Distance(r, goal) <= Distance(best, goal)
  {
    match t
    case Leaf => best
    case Node(_, q, s, b) =>
      NearestInefficientHelper(b, goal, NearestInefficientHelper(s, goal, Closer(best, q, goal)))
  }

  /** r is best or a stored point, and no stored point and not best is strictly closer. */
  ghost predicate NearestOf(r: Point, t: Tree, goal: Point, best: Point) {
    (r == best || r in Preorder(t)) &&
    Distance(r, goal) <= Distance(best, goal) &&
    forall q :: q in Preorder(t) ==> Distance(r, goal) <= Distance(q, goal)
  }

  /** A left-to-right scan of s starting from best, as both searches do. */
  function Scan(best: Point, s: seq<Point>, goal: Point): Point
    decreases |s|
  {
    if s == [] then best else Scan(Closer(best, s[0], goal), s[1..], goal)
  }

  lemma {:induction false} ScanAppend(best: Point, u: seq<Point>, v: seq<Point>, goal: Point)
    ensures Scan(best, u + v, goal) == Scan(Scan(best, u, goal), v, goal)
    decreases |u|
  {
    if u != [] {
      assert (u + v)[1..] == u[1..] + v;
      ScanAppend(Closer(best, u[0], goal), u[1..], v, goal);
    } else {
      assert u + v == v;
    }
  }

  /** The scan keeps the first nearest point of [best] + s. */
  lemma {:induction false} ScanFindsFirstNearest(best: Point, s: seq<Point>, goal: Point)
    ensures exists i :: FirstNearest([best] + s, goal, i) && ([best] + s)[i] == Scan(best, s, goal)
    decreases |s|
  {
    if s == [] {
      assert [best] + s == [best];
      assert FirstNearest([best] + s, goal, 0);
    } else {
      var b1 := Closer(best, s[0], goal);
      ScanFindsFirstNearest(b1, s[1..], goal);
      var i' :| FirstNearest([b1] + s[1..], goal, i') && ([b1] + s[1..])[i'] == Scan(b1, s[1..], goal);
      var i := FirstNearestStep(best, s[0], s[1..], goal, i');
      assert [best] + s == [best, s[0]] + s[1..];
    }
  }

  /** Scanning one more point in front: the first nearest index moves one place right, or
      becomes 0 when best stays and is nearest. */
  lemma FirstNearestStep(best: Point, x: Point, rest: seq<Point>, goal: Point, k: int) returns (i: int)
    requires FirstNearest([Closer(best, x, goal)] + rest, goal, k)
    ensures FirstNearest([best, x] + rest, goal, i)
    ensures ([best, x] + rest)[i] == ([Closer(best, x, goal)] + rest)[k]
  {
    var all := [best, x] + rest;
    var tail := [Closer(best, x, goal)] + rest;
    assert |all| == |tail| + 1;
    assert forall j :: 1 <= j < |tail| ==> all[j + 1] == tail[j];
    if Distance(x, goal) < Distance(best, goal) {
      assert all[1] == tail[0];
      i := k + 1;
      assert all[i] == tail[k];
      assert forall j :: 1 <= j < |all| ==> Distance(all[i], goal) <= Distance(all[j], goal) by {
        forall j | 1 <= j < |all| ensures Distance(all[i], goal) <= Distance(all[j], goal) {
          assert all[j] == tail[j - 1];
        }
      }
      assert forall j :: 1 <= j < i ==> Distance(all[i], goal) < Distance(all[j], goal) by {
        forall j | 1 <= j < i ensures Distance(all[i], goal) < Distance(all[j], goal) {
          assert all[j] == tail[j - 1];
        }
      }
    } else if k == 0 {
      i := 0;
      assert all[0] == tail[0];
      assert forall j :: 2 <= j < |all| ==> Distance(all[0], goal) <= Distance(all[j], goal) by {
        forall j | 2 <= j < |all| ensures Distance(all[0], goal) <= Distance(all[j], goal) {
          assert all[j] == tail[j - 1];
        }
      }
    } else {
      i := k + 1;
      assert all[i] == tail[k];
      assert Distance(all[i], goal) < Distance(tail[0], goal);
      assert forall j :: 2 <= j < |all| ==> Distance(all[i], goal) <= Distance(all[j], goal) by {
        forall j | 2 <= j < |all| ensures Distance(all[i], goal) <= Distance(all[j], goal) {
          assert all[j] == tail[j - 1];
        }
      }
      assert forall j :: 2 <= j < i ==> Distance(all[i], goal) < Distance(all[j], goal) by {
        forall j | 2 <= j < i ensures Distance(all[i], goal) < Distance(all[j], goal) {
          assert all[j] == tail[j - 1];
        }
      }
    }
  }

  /** The exhaustive search is the scan of the stored points in preorder. */
  lemma {:induction false} InefficientIsScan(t: Tree, goal: Point, best: Point)
    ensures NearestInefficientHelper(t, goal, best) == Scan(best, Preorder(t), goal)
    decreases t
  {
    match t
    case Leaf =>
    case Node(_, q, s, b) =>
      var best1 := Closer(best, q, goal);
      InefficientIsScan(s, goal, best1);
      InefficientIsScan(b, goal, NearestInefficientHelper(s, goal, best1));
      ScanAppend(best, [q], Preorder(s), goal);
      ScanAppend(best, [q] + Preorder(s), Preorder(b), goal);
  }

  /** nearestInefficient keeps, among best and the stored points in preorder, the first one at
      the least distance: ties go to the point visited first. */
  lemma InefficientFindsFirstNearest(t: Tree, goal: Point, best: Point)
    ensures exists i ::
      FirstNearest([best] + Preorder(t), goal, i) && ([best] + Preorder(t))[i] == NearestInefficientHelper(t, goal, best)
  {
    InefficientIsScan(t, goal, best);
    ScanFindsFirstNearest(best, Preorder(t), goal);
  }

  /** Hence nearestInefficient returns best or a stored point no farther than any other. */
  lemma InefficientFindsNearest(t: Tree, goal: Point, best: Point)
    ensures NearestOf(NearestInefficientHelper(t, goal, best), t, goal, best)
  {
    InefficientFindsFirstNearest(t, goal, best);
    var all := [best] + Preorder(t);
    var i :| FirstNearest(all, goal, i) && all[i] == NearestInefficientHelper(t, goal, best);
    forall q | q in Preorder(t)
      ensures Distance(all[i], goal) <= Distance(q, goal)
    {
      var j :| 0 <= j < |Preorder(t)| && Preorder(t)[j] == q;
      assert all[j + 1] == q;
    }
    assert all[0] == best;
    assert all[i] == best || all[i] in Preorder(t) by {
      if i > 0 {
        assert all[i] == Preorder(t)[i - 1];
      }
    }
  }

  /** A point on the far side of a split line is at least the squared gap from the goal to that
      line away from the goal. */
  lemma FarSideBound(p: Point, q: Point, goal: Point, d: int)
    requires GoesSmall(p, q, d) != GoesSmall(goal, q, d)
    ensures Distance(p, goal) >= (Axis(q, d) - Axis(goal, d)) * (Axis(q, d) - Axis(goal, d))
  {
    var a := Axis(p, d) - Axis(goal, d);
    var c := Axis(q, d) - Axis(goal, d);
    if GoesSmall(p, q, d) {
      SquareMonotone(-c, -a);
    } else {
      SquareMonotone(c, a);
    }
    assert Distance(p, goal) >= a * a;
  }

  lemma SquareMonotone(c: real, a: real)
    requires 0.0 <= c <= a
    ensures c * c <= a * a
  {
    assert c * c <= c * a;
    assert c * a <= a * a;
  }

  /** Every point of a subtree on the far side of a node's split line is at least that far. */
  lemma FarSubtreeBound(sub: Tree, q: Point, goal: Point, d: int, farSmall: bool)
    requires farSmall ==> (forall p :: p in Preorder(sub) ==> GoesSmall(p, q, d)) && !GoesSmall(goal, q, d)
    requires !farSmall ==> (forall p :: p in Preorder(sub) ==> !GoesSmall(p, q, d)) && GoesSmall(goal, q, d)
    ensures forall p :: p in Preorder(sub) ==>
      Distance(p, goal) >= (Axis(q, d) - Axis(goal, d)) * (Axis(q, d) - Axis(goal, d))
  {
    forall p | p in Preorder(sub)
      ensures Distance(p, goal) >= (Axis(q, d) - Axis(goal, d)) * (Axis(q, d) - Axis(goal, d))
    {
      FarSideBound(p, q, goal, d);
    }
  }

  /** The stored points of a node are its own point and those of its two children. */
  lemma NodePoints(t: Tree)
    requires t.Node?
    ensures forall x :: x in Preorder(t) <==> x == t.point || x in Preorder(t.small) || x in Preorder(t.big)
  {}

  /** A node's search result is nearest when the good side's result is nearest from the
      node-adjusted best and the final result is nearest on the bad side from there. */
  lemma CombineSides(t: Tree, goal: Point, best: Point, good: Tree, bad: Tree, best2: Point, r: Point)
    requires t.Node? && ((good == t.small && bad == t.big) || (good == t.big && bad == t.small))
    requires NearestOf(best2, good, goal, Closer(best, t.point, goal))
    requires NearestOf(r, bad, goal, best2)
    ensures NearestOf(r, t, goal, best)
  {
    NodePoints(t);
  }

  /** A skipped bad side: best2 is already nearest on it. */
  lemma PrunedSide(sub: Tree, q: Point, d: int, goal: Point, best2: Point, farSmall: bool)
    requires farSmall ==> (forall p :: p in Preorder(sub) ==> GoesSmall(p, q, d)) && !GoesSmall(goal, q, d)
    requires !farSmall ==> (forall p :: p in Preorder(sub) ==> !GoesSmall(p, q, d)) && GoesSmall(goal, q, d)
    requires !BadSideIsUseful(best2, goal, d, q)
    ensures NearestOf(best2, sub, goal, best2)
  {
    FarSubtreeBound(sub, q, goal, d, farSmall);
  }

  /** Pruning is sound: on a tree put built, nearestHelper returns best or a stored point no
      farther than any stored point. */
  lemma {:induction false} PrunedFindsNearest(t: Tree, goal: Point, depth: int, best: Point)
    requires Partitioned(t) && DepthsFrom(t, depth)
    ensures NearestOf(NearestHelper(t, goal, depth, best), t, goal, best)
    decreases t
  {
    match t
    case Leaf =>
    case Node(d, q, s, b) =>
      var best1 := Closer(best, q, goal);
      var goodSide := ChooseGoodSide(q, goal, depth);
      var good := if goodSide == 1 then b else s;
      var bad := if goodSide == 1 then s else b;
      var best2 := NearestHelper(good, goal, depth + 1, best1);
      PrunedFindsNearest(good, goal, depth + 1, best1);
      if BadSideIsUseful(best2, goal, d, q) {
        PrunedFindsNearest(bad, goal, depth + 1, best2);
      } else {
        PrunedSide(bad, q, d, goal, best2, goodSide == 1);
      }
      CombineSides(t, goal, best, good, bad, best2, NearestHelper(t, goal, depth, best));
  }

  /** nearest and nearestInefficient, started from the root's point on a non-empty tree put
      built, return stored points at the same, least, distance. */
  lemma NearestMatchesInefficient(t: Tree, goal: Point)
    requires WellFormed(t) && t.Node?
    ensures var r := NearestHelper(t, goal, 0, t.point);
      var e := NearestInefficientHelper(t, goal, t.point);
      r in Preorder(t) && e in Preorder(t) && Distance(r, goal) == Distance(e, goal)
  {
    assert t.point in Preorder(t);
    PrunedFindsNearest(t, goal, 0, t.point);
    InefficientFindsNearest(t, goal, t.point);
  }

  /** Started from the root's own point, the exhaustive search returns the first point of the
      preorder at the least distance. */
  lemma InefficientFirstInPreorder(t: Tree, goal: Point)
    requires t.Node?
    ensures exists i :: FirstNearest(Preorder(t), goal, i) && Preorder(t)[i] == NearestInefficientHelper(t, goal, t.point)
  {
    InefficientFindsFirstNearest(t, goal, t.point);
    var i :| FirstNearest([t.point] + Preorder(t), goal, i) &&
      ([t.point] + Preorder(t))[i] == NearestInefficientHelper(t, goal, t.point);
    var k := FirstNearestDropRepeat(Preorder(t), goal, i);
  }

  /** A repeated head does not change which point is first nearest. */
  lemma FirstNearestDropRepeat(s: seq<Point>, goal: Point, i: int) returns (k: int)
    requires |s| > 0 && FirstNearest([s[0]] + s, goal, i)
    ensures FirstNearest(s, goal, k) && s[k] == ([s[0]] + s)[i]
  {
    var all := [s[0]] + s;
    assert forall j :: 1 <= j < |all| ==> all[j] == s[j - 1];
    if i == 0 {
      k := 0;
      forall j | 0 <= j < |s| ensures Distance(s[0], goal) <= Distance(s[j], goal) {
        assert s[j] == all[j + 1];
      }
    } else {
      assert all[0] == all[1];
      assert i != 1;
      k := i - 1;
      forall j | 0 <= j < |s| ensures Distance(s[k], goal) <= Distance(s[j], goal) {
        assert s[j] == all[j + 1];
      }
      forall j | 0 <= j < k ensures Distance(s[k], goal) < Distance(s[j], goal) {
        assert s[j] == all[j + 1];
      }
    }
  }
}
