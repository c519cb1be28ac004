/** DoubleMapPQ is not part of this model. The solver uses it only through add, contains,
    changePriority, removeSmallest and size, so it stands here as a map from item to
    priority with those operations specified on the map. */
module MapPQ {
  class DoubleMapPQ<V(==)> {
    var priorities: map<V, real>

    constructor ()
      ensures priorities == map[]
    {
      priorities := map[];
    }

    function Size(): (n: nat)
      reads this
      ensures n == |priorities|
    {
      |priorities|
    }

    function Contains(v: V): (b: bool)
      reads this
      ensures b <==> v in priorities
    {
      v in priorities
    }

    /** add refuses an item already present. */
    method Add(v: V, priority: real)
      requires v !in priorities
      modifies this
      ensures priorities == old(priorities)[v := priority]
    {
      priorities := priorities[v := priority];
    }

    method ChangePriority(v: V, priority: real)
      requires v in priorities
      modifies this
      ensures priorities == old(priorities)[v := priority]
    {
      priorities := priorities[v := priority];
    }

    /** removeSmallest: some item of least priority; which one among equals is unspecified. */
    method RemoveSmallest() returns (v: V)
      requires |priorities| > 0
      modifies this
      ensures v in old(priorities)
      ensures forall u :: u in old(priorities) ==> old(priorities)[v] <= old(priorities)[u]
      ensures priorities == old(priorities) - {v}
    {
      LeastExists(priorities);
      v :| v in priorities && forall u :: u in priorities ==> priorities[v] <= priorities[u];
      priorities := priorities - {v};
    }
  }

  /** A finite non-empty map has a key of least value. */
  lemma {:induction false} LeastExists<V>(m: map<V, real>)
    requires |m| > 0
    ensures exists v :: v in m && forall u :: u in m ==> m[v] <= m[u]
    decreases |m|
  {
    var k :| k in m;
    var rest := m - {k};
    if |rest| == 0 {
      assert forall u :: u in m ==> u == k;
      assert forall u :: u in m ==> m[k] <= m[u];
    } else {
      LeastExists(rest);
      var w :| w in rest && forall u :: u in rest ==> rest[w] <= rest[u];
      if m[k] <= m[w] {
        assert forall u :: u in m ==> m[k] <= m[u] by {
          forall u | u in m ensures m[k] <= m[u] {
            if u != k {
              assert u in rest;
            }
          }
        }
      } else {
        assert forall u :: u in m ==> m[w] <= m[u] by {
          forall u | u in m ensures m[w] <= m[u] {
            if u != k {
              assert u in rest;
            }
          }
        }
      }
    }
  }
}
