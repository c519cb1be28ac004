/** The later KDTree (proj2c): linked KDTreeNode objects that put updates in place, and the
    pruned and exhaustive nearest-neighbour searches over them. Each node carries the tree
    it spells as a ghost KdTreeSpec.Tree, so every operation is stated against that value. */
module KdTreeSearch {
  import opened Wrappers
  import opened Points
  import opened KdTreeSpec

  /** KDTreeNode: depth, point and the two children. */
  class KdNode {
    var depth: int
    var point: Point
    var childSmall: KdNode?
    var childBig: KdNode?
    ghost var Repr: set<object>
    ghost var Model: Tree

    /** The node and its children form a tree (no sharing, no cycles) spelling Model. */
    ghost predicate Valid()
      reads this, Repr
      decreases Repr
    {
      this in Repr &&
      (childSmall != null ==>
        childSmall in Repr && childSmall.Repr <= Repr && this !in childSmall.Repr && childSmall.Valid()) &&
      (childBig != null ==>
        childBig in Repr && childBig.Repr <= Repr && this !in childBig.Repr && childBig.Valid()) &&
      (childSmall != null && childBig != null ==> childSmall.Repr !! childBig.Repr) &&
      Model == Node(depth, point, ModelOf(childSmall), ModelOf(childBig))
    }

    constructor (p: Point, d: int)
      ensures Valid() && fresh(Repr)
      ensures Model == Node(d, p, Leaf, Leaf)
    {
      depth := d;
      point := p;
      childSmall := null;
      childBig := null;
      Repr := {this};
      Model := Node(d, p, Leaf, Leaf);
    }
  }

  /** A node stays valid while nothing it owns changes. */
  twostate lemma NodeValidFramed(n: KdNode)
    requires old(n.Valid()) && unchanged(old(n.Repr))
    ensures n.Valid()
  {
  }

  /** The tree a possibly-null node reference spells. */
  ghost function ModelOf(n: KdNode?): Tree
    reads n
  {
    if n == null then Leaf else n.Model
  }

  ghost function ReprOf(n: KdNode?): set<object>
    reads n
  {
    if n == null then {} else n.Repr
  }

  ghost predicate ValidOrNull(n: KdNode?)
    reads n, ReprOf(n)
  {
    n != null ==> n.Valid()
  }

  /** Double.compare on the coordinates, without its NaN and signed-zero cases. */
  function Compare(a: real, b: real): (c: int)
    ensures c < 0 <==> a < b
    ensures c > 0 <==> a > b
  {
    if a < b then -1 else if a > b then 1 else 0
  }

  /** putHelper: the new node when the walk falls off the tree, otherwise the same node with
      the child on p's side replaced by the result of the recursive call. */
  method PutHelper(node: KdNode?, p: Point, depth: int) returns (r: KdNode)
    requires ValidOrNull(node)
    modifies ReprOf(node)
    ensures r.Valid()
    ensures node != null ==> r == node
    ensures r.Model == Insert(old(ModelOf(node)), p, depth)
    ensures fresh(r.Repr - old(ReprOf(node)))
    decreases ReprOf(node), 1
  {
    if node == null {
      r := new KdNode(p, depth);
      return;
    }
    var cmp;
    if LookAtX(depth) {
      cmp := Compare(p.x, node.point.x);
    } else {
      cmp := Compare(p.y, node.point.y);
    }
    assert cmp < 0 <==> GoesSmall(p, node.point, depth);
    // cmp > 0 and the tie both go to childBig
    if cmp < 0 {
      PutSmall(node, p, depth);
    } else {
      PutBig(node, p, depth);
    }
    r := node;
  }

  /** node.childSmall = putHelper(node.childSmall, p, depth + 1). */
  method PutSmall(node: KdNode, p: Point, depth: int)
    requires node.Valid()
    modifies node.Repr
    ensures node.Valid()
    ensures node.Model == old(node.Model).(small := Insert(old(node.Model.small), p, depth + 1))
    ensures fresh(node.Repr - old(node.Repr))
    decreases node.Repr, 0
  {
    ghost var big := node.childBig;
    assert ValidOrNull(big) && ReprOf(big) !! ReprOf(node.childSmall) && ValidOrNull(node.childSmall);
    label Before:
    var c := PutHelper(node.childSmall, p, depth + 1);
    assert ReprOf(big) !! c.Repr;
    node.childSmall := c;
    node.Repr := node.Repr + c.Repr;
    node.Model := Node(node.depth, node.point, c.Model, ModelOf(big));
    if big != null {
      NodeValidFramed@Before(big);
    }
  }

  /** node.childBig = putHelper(node.childBig, p, depth + 1). */
  method PutBig(node: KdNode, p: Point, depth: int)
    requires node.Valid()
    modifies node.Repr
    ensures node.Valid()
    ensures node.Model == old(node.Model).(big := Insert(old(node.Model.big), p, depth + 1))
    ensures fresh(node.Repr - old(node.Repr))
    decreases node.Repr, 0
  {
    ghost var small := node.childSmall;
    assert ValidOrNull(small) && ReprOf(small) !! ReprOf(node.childBig) && ValidOrNull(node.childBig);
    label Before:
    var c := PutHelper(node.childBig, p, depth + 1);
    assert ReprOf(small) !! c.Repr;
    node.childBig := c;
    node.Repr := node.Repr + c.Repr;
    node.Model := Node(node.depth, node.point, ModelOf(small), c.Model);
    if small != null {
      NodeValidFramed@Before(small);
    }
  }

  /** nearestHelper over the nodes: the pruned search of KdTreeSpec run on the tree the nodes
      spell. */
  function NearestAt(n: KdNode?, goal: Point, depth: int, best: Point): (r: Point)
    requires ValidOrNull(n)
    reads n, ReprOf(n)
    ensures r == NearestHelper(ModelOf(n), goal, depth, best)
    decreases ReprOf(n)
  {
    if n == null then best
    else
      var best1 := if Distance(n.point, goal) < Distance(best, goal) then n.point else best;
      var goodSide := ChooseGoodSide(n.point, goal, depth);
      var best2 := if goodSide == 1 then NearestAt(n.childBig, goal, depth + 1, best1)
                   else NearestAt(n.childSmall, goal, depth + 1, best1);
      if BadSideIsUseful(best2, goal, n.depth, n.point) then
        if goodSide == 1 then NearestAt(n.childSmall, goal, depth + 1, best2)
        else NearestAt(n.childBig, goal, depth + 1, best2)
      else best2
  }

  /** nearestInefficientHelper over the nodes: the exhaustive search of KdTreeSpec. */
  function NearestInefficientAt(n: KdNode?, goal: Point, best: Point): (r: Point)
    requires ValidOrNull(n)
    reads n, ReprOf(n)
    ensures r == NearestInefficientHelper(ModelOf(n), goal, best)
    decreases ReprOf(n)
  {
    if n == null then best
    else
      var best1 := if Distance(n.point, goal) < Distance(best, goal) then n.point else best;
      NearestInefficientAt(n.childBig, goal, NearestInefficientAt(n.childSmall, goal, best1))
  }

  /** KDTree: the root node reference; an empty tree has a null root. */
  class KdTree {
    var root: KdNode?
    ghost var Repr: set<object>
    ghost var Model: Tree

    /** The nodes form a tree spelling Model, which keeps the split rule and records depths
        from 0 at the root. */
    ghost predicate Valid()
      reads this, Repr
    {
      this in Repr &&
      (root != null ==> root in Repr && root.Repr <= Repr && this !in root.Repr && root.Valid()) &&
      Model == ModelOf(root) &&
      WellFormed(Model)
    }

    /** The constructor puts every listed point, in list order. */
    constructor (points: seq<Point>)
      ensures Valid() && fresh(Repr)
      ensures Model == Build(points)
      ensures multiset(Preorder(Model)) == multiset(points)
    {
      root := null;
      Repr := {this};
      Model := Leaf;
      new;
      for i := 0 to |points|
        invariant Valid() && fresh(Repr)
        invariant Model == Build(points[..i])
        invariant multiset(Preorder(Model)) == multiset(points[..i])
      {
        var _ := Put(Some(points[i]));
        BuildPrefix(points, i);
      }
      assert points[..|points|] == points;
    }

    /** put: a missing point (Java null) is refused with IllegalArgumentException and nothing
        changes; otherwise p is inserted by putHelper from depth 0. */
    method Put(p: Option<Point>) returns (ok: bool)
      requires Valid()
      modifies Repr
      ensures Valid() && fresh(Repr - old(Repr))
      ensures ok <==> p.Some?
      ensures Model == if p.Some? then Insert(old(Model), p.value, 0) else old(Model)
      ensures p.Some? ==> multiset(Preorder(Model)) == multiset(Preorder(old(Model))) + multiset{p.value}
    {
      if p.None? {
        return false;
      }
      ghost var m := Model;
      InsertKeepsWellFormed(m, p.value);
      InsertAddsPoint(m, p.value, 0);
      var r := PutHelper(root, p.value, 0);
      assert this !in r.Repr;
      label Put:
      root := r;
      Repr := Repr + r.Repr;
      Model := r.Model;
      NodeValidFramed@Put(r);
      assert Model == Insert(m, p.value, 0);
      ok := true;
    }

    /** nearest: None when the tree is empty (Java dereferences the null root); otherwise a
        stored point no stored point is strictly closer to (x, y) than. */
    function Nearest(x: real, y: real): (r: Option<Point>)
      requires Valid()
      reads this, Repr
      ensures r.Some? <==> Model.Node?
      ensures r.Some? ==> r.value in Preorder(Model)
      ensures r.Some? ==> forall q :: q in Preorder(Model) ==> Distance(r.value, Point(x, y)) <= Distance(q, Point(x, y))
      ensures r.Some? ==> Distance(r.value, Point(x, y)) == Distance(NearestInefficient(x, y).value, Point(x, y))
    {
      if root == null then None
      else
        var r := NearestAt(root, Point(x, y), 0, root.point);
        assert root.point in Preorder(Model);
        PrunedFindsNearest(Model, Point(x, y), 0, root.point);
        NearestMatchesInefficient(Model, Point(x, y));
        Some(r)
    }

    /** nearestInefficient: the same answer by visiting every node; of the stored points at
        the least distance it returns the first in preorder. */
    function NearestInefficient(x: real, y: real): (r: Option<Point>)
      requires Valid()
      reads this, Repr
      ensures r.Some? <==> Model.Node?
      ensures r.Some? ==> exists i :: FirstNearest(Preorder(Model), Point(x, y), i) && Preorder(Model)[i] == r.value
    {
      if root == null then None
      else
        var r := NearestInefficientAt(root, Point(x, y), root.point);
        InefficientFirstInPreorder(Model, Point(x, y));
        Some(r)
    }
  }
}
