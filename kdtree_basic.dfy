/** The first KDTree (proj2ab): linked KDTreeNode objects, each recording its depth and
    whether it splits vertically, that put updates in place; nearest is a stub. Each node
    carries the tree it spells as a ghost KdTreeSpec.Tree. */
module KdTreeBasic {
  import opened Wrappers
  import opened Points
  import opened KdTreeSpec

  /** KDTreeNode: depth, the vertical flag, point and the two children. */
  class KdNode {
    var depth: int
    var vertical: bool
    var point: Point
    var childSmall: KdNode?
    var childBig: KdNode?
    ghost var Repr: set<object>
    ghost var Model: Tree

    /** The node and its children form a tree (no sharing, no cycles) spelling Model, and
        every node splits vertically exactly at even depth. */
    ghost predicate Valid()
      reads this, Repr
      decreases Repr
    {
      this in Repr &&
      vertical == LookAtX(depth) &&
      (childSmall != null ==>
        childSmall in Repr && childSmall.Repr <= Repr && this !in childSmall.Repr && childSmall.Valid()) &&
      (childBig != null ==>
        childBig in Repr && childBig.Repr <= Repr && this !in childBig.Repr && childBig.Valid()) &&
      (childSmall != null && childBig != null ==> childSmall.Repr !! childBig.Repr) &&
      Model == Node(depth, point, ModelOf(childSmall), ModelOf(childBig))
    }

    /** KDTreeNode(p): a node at depth 0. */
    constructor AtRoot(p: Point)
      ensures Valid() && fresh(Repr)
      ensures Model == Node(0, p, Leaf, Leaf) && vertical
    {
      depth := 0;
      vertical := IsVertical(0);
      point := p;
      childSmall := null;
      childBig := null;
      Repr := {this};
      Model := Node(0, p, Leaf, Leaf);
    }

    /** KDTreeNode(p, d). */
    constructor (p: Point, d: int)
      ensures Valid() && fresh(Repr)
      ensures Model == Node(d, p, Leaf, Leaf) && (vertical <==> d % 2 == 0)
    {
      depth := d;
      vertical := IsVertical(d);
      point := p;
      childSmall := null;
      childBig := null;
      Repr := {this};
      Model := Node(d, p, Leaf, Leaf);
    }
  }

  /** A node stays valid while nothing it owns changes. */
  twostate lemma NodeValidFramed(n: KdNode)
    requires old(n.Valid()) && unchanged(old(n.Repr))
    ensures n.Valid()
  {
  }

  /** isVertical: even depths split vertically, that is on x. */
  function IsVertical(d: int): (v: bool)
    ensures v <==> LookAtX(d)
  {
    d % 2 == 0
  }

  /** The tree a possibly-null node reference spells. */
  ghost function ModelOf(n: KdNode?): Tree
    reads n
  {
    if n == null then Leaf else n.Model
  }

  ghost function ReprOf(n: KdNode?): set<object>
    reads n
  {
    if n == null then {} else n.Repr
  }

  ghost predicate ValidOrNull(n: KdNode?)
    reads n, ReprOf(n)
  {
    n != null ==> n.Valid()
  }

  /** compareX: whether the walk at this depth compares x coordinates. */
  function CompareX(d: int): (b: bool)
    ensures b <==> LookAtX(d)
  {
    d % 2 == 0
  }

  /** Double.compare on the coordinates, without its NaN and signed-zero cases. */
  function Compare(a: real, b: real): (c: int)
    ensures c < 0 <==> a < b
    ensures c > 0 <==> a > b
  {
    if a < b then -1 else if a > b then 1 else 0
  }

  /** putHelper: the new node when the walk falls off the tree, otherwise the same node with
      the child on p's side replaced by the result of the recursive call. */
  method PutHelper(node: KdNode?, p: Point, depth: int) returns (r: KdNode)
    requires ValidOrNull(node)
    modifies ReprOf(node)
    ensures r.Valid()
    ensures node != null ==> r == node
    ensures r.Model == Insert(old(ModelOf(node)), p, depth)
    ensures fresh(r.Repr - old(ReprOf(node)))
    decreases ReprOf(node), 1
  {
    if node == null {
      r := new KdNode(p, depth);
      return;
    }
    var cmp;
    if CompareX(depth) {
      cmp := Compare(p.x, node.point.x);
    } else {
      cmp := Compare(p.y, node.point.y);
    }
    assert cmp < 0 <==> GoesSmall(p, node.point, depth);
    // cmp > 0 and the tie both go to childBig
    if cmp < 0 {
      PutSmall(node, p, depth);
    } else {
      PutBig(node, p, depth);
    }
    r := node;
  }

  /** node.childSmall = putHelper(node.childSmall, p, depth + 1). */
  method PutSmall(node: KdNode, p: Point, depth: int)
    requires node.Valid()
    modifies node.Repr
    ensures node.Valid()
    ensures node.Model == old(node.Model).(small := Insert(old(node.Model.small), p, depth + 1))
    ensures fresh(node.Repr - old(node.Repr))
    decreases node.Repr, 0
  {
    ghost var big := node.childBig;
    assert ValidOrNull(big) && ReprOf(big) !! ReprOf(node.childSmall) && ValidOrNull(node.childSmall);
    label Before:
    var c := PutHelper(node.childSmall, p, depth + 1);
    assert ReprOf(big) !! c.Repr;
    node.childSmall := c;
    node.Repr := node.Repr + c.Repr;
    node.Model := Node(node.depth, node.point, c.Model, ModelOf(big));
    if big != null {
      NodeValidFramed@Before(big);
    }
  }

  /** node.childBig = putHelper(node.childBig, p, depth + 1). */
  method PutBig(node: KdNode, p: Point, depth: int)
    requires node.Valid()
    modifies node.Repr
    ensures node.Valid()
    ensures node.Model == old(node.Model).(big := Insert(old(node.Model.big), p, depth + 1))
    ensures fresh(node.Repr - old(node.Repr))
    decreases node.Repr, 0
  {
    ghost var small := node.childSmall;
    assert ValidOrNull(small) && ReprOf(small) !! ReprOf(node.childBig) && ValidOrNull(node.childBig);
    label Before:
    var c := PutHelper(node.childBig, p, depth + 1);
    assert ReprOf(small) !! c.Repr;
    node.childBig := c;
    node.Repr := node.Repr + c.Repr;
    node.Model := Node(node.depth, node.point, ModelOf(small), c.Model);
    if small != null {
      NodeValidFramed@Before(small);
    }
  }

  /** KDTree: the root node reference; an empty tree has a null root. */
  class KdTree {
    var root: KdNode?
    ghost var Repr: set<object>
    ghost var Model: Tree

    /** The nodes form a tree spelling Model, which keeps the split rule and records depths
        from 0 at the root. */
    ghost predicate Valid()
      reads this, Repr
    {
      this in Repr &&
      (root != null ==> root in Repr && root.Repr <= Repr && this !in root.Repr && root.Valid()) &&
      Model == ModelOf(root) &&
      WellFormed(Model)
    }

    /** The constructor puts every listed point, in list order. */
    constructor (points: seq<Point>)
      ensures Valid() && fresh(Repr)
      ensures Model == Build(points)
      ensures multiset(Preorder(Model)) == multiset(points)
    {
      root := null;
      Repr := {this};
      Model := Leaf;
      new;
      for i := 0 to |points|
        invariant Valid() && fresh(Repr)
        invariant Model == Build(points[..i])
        invariant multiset(Preorder(Model)) == multiset(points[..i])
      {
        var _ := Put(Some(points[i]));
        BuildPrefix(points, i);
      }
      assert points[..|points|] == points;
    }

    /** put: a missing point (Java null) is refused with IllegalArgumentException and nothing
        changes; otherwise p is inserted by putHelper from depth 0. */
    method Put(p: Option<Point>) returns (ok: bool)
      requires Valid()
      modifies Repr
      ensures Valid() && fresh(Repr - old(Repr))
      ensures ok <==> p.Some?
      ensures Model == if p.Some? then Insert(old(Model), p.value, 0) else old(Model)
      ensures p.Some? ==> multiset(Preorder(Model)) == multiset(Preorder(old(Model))) + multiset{p.value}
    {
      if p.None? {
        return false;
      }
      ghost var m := Model;
      InsertKeepsWellFormed(m, p.value);
      InsertAddsPoint(m, p.value, 0);
      var r := PutHelper(root, p.value, 0);
      assert this !in r.Repr;
      label Put:
      root := r;
      Repr := Repr + r.Repr;
      Model := r.Model;
      NodeValidFramed@Put(r);
      assert Model == Insert(m, p.value, 0);
      ok := true;
    }

    /** nearest is a stub in this version: it never finds a point. */
    function Nearest(x: real, y: real): (r: Option<Point>)
      ensures r.None?
    {
      None
    }
  }
}
