/** ArrayHeapMinPQ: a binary min-heap of (item, priority) nodes in a 1-indexed array, with
    the behaviour of the source kept as written (see the finding lemmas in ArrayHeapSpec). */
module ArrayHeap {
  import opened Wrappers
  import opened ArrayHeapSpec

  /** Slot s holds a node for `item`. */
  predicate Holds<T(==)>(s: Slot<T>, item: T) {
    s.Some? && s.value.item == item
  }

  function Max(a: int, b: int): int {
    if a >= b then a else b
  }

  class ArrayHeapMinPQ<T(==)> {
    var items: array<Slot<T>>
    var size: int
    var capacity: int

    /** items[0] is never used, slots 1..size hold the nodes, every later slot is null, and
        there is always a free slot after the last node once the capacity is positive. */
    ghost predicate Valid()
      reads this, items
    {
      items.Length == capacity + 1 && 0 <= size <= capacity &&
      (size < capacity || capacity == 0) &&
      SlotsValid(items[..], size)
    }

    /** The nodes in slots 1..size. */
    ghost function Contents(): seq<Slot<T>>
      reads this, items
      requires Valid()
    {
      items[1..size + 1]
    }

    ghost predicate HeapOrder()
      reads this, items
      requires Valid()
    {
      HeapOrdered(items[..], size)
    }

    constructor (c: nat)
      ensures Valid() && fresh(items)
      ensures capacity == c && size == 0 && Contents() == []
    {
      items := new Slot<T>[c + 1](_ => None);
      capacity := c;
      size := 0;
    }

    /** add: grow when the array is full, write the node after the last one, swim it up. With
        capacity 0 the write is out of bounds and nothing changes. */
    method Add(item: T, priority: real) returns (ok: bool)
      requires Valid()
      modifies this, items
      ensures Valid()
      ensures ok <==> old(capacity) != 0
      ensures !ok ==> size == old(size) && capacity == old(capacity) && items[..] == old(items[..])
      ensures ok ==> size == old(size) + 1
      ensures ok ==> capacity == if old(size) == old(capacity) - 1 then 2 * old(capacity) else old(capacity)
      ensures ok ==> items[..size + 1] == ArrayHeapSpec.Swim(old(items[..size + 2])[size := Some(Node(item, priority))], size)
      ensures ok ==> multiset(Contents()) == multiset(old(Contents())) + multiset{Some(Node(item, priority))}
      ensures ok && old(HeapOrder()) ==> HeapOrder()
    {
      ghost var a00 := items[..];
      if size == capacity - 1 {
        Resize();
      }
      assert size == old(size) && (size + 1 < items.Length <==> old(capacity) != 0);
      if size + 1 >= items.Length {
        // items[size + 1] is out of bounds: ArrayIndexOutOfBoundsException
        return false;
      }
      assert items[..size + 2] == a00[..size + 2] && items[..size + 1] == a00[..size + 1] by {
        assert items[..|a00|] == a00;
      }
      Place(Node(item, priority));
      ok := true;
    }

    /** The rest of add once there is room: the node goes into slot size + 1 and swims up. */
    method Place(x: Node<T>)
      requires Valid() && size + 1 < capacity
      modifies items, this`size
      ensures Valid() && size == old(size) + 1
      ensures items[..size + 1] == ArrayHeapSpec.Swim(old(items[..size + 2])[size := Some(x)], size)
      ensures multiset(items[1..size + 1]) == multiset(old(items[1..size + 1])) + multiset{Some(x)}
      ensures HeapOrdered(old(items[..]), old(size)) ==> HeapOrdered(items[..], size)
    {
      ghost var a0 := items[..];
      assert old(items[..size + 2]) == a0[..size + 2] && old(items[1..size + 1]) == a0[1..size + 1];
      items[size + 1] := Some(x);
      Swim(size + 1);
      AppendThenSwim(a0, size, Some(x));
      size := size + 1;
      assert items[1..size + 1] == items[..][1..size + 1];
    }

    /** getSmallest as written: it refuses every queue of at most one node. */
    function GetSmallest(): (r: Option<T>)
      reads this, items
      requires Valid()
      ensures r.Some? <==> size > 1
      ensures r.Some? ==> Holds(items[1], r.value)
      ensures r.Some? && HeapOrder() ==> forall i :: 1 <= i <= size ==> Precedes(items[1], items[i])
    {
      if size <= 1 then None
      else
        RootPrecedesEvery(items[..], size);
        Some(items[1].value.item)
    }

    /** getSmallest as evidently intended: only an empty queue is refused. */
    function GetSmallestFixed(): (r: Option<T>)
      reads this, items
      requires Valid()
      ensures r.Some? <==> size >= 1
      ensures r.Some? ==> Holds(items[1], r.value)
      ensures r.Some? && HeapOrder() ==> forall i :: 1 <= i <= size ==> Precedes(items[1], items[i])
    {
      if size < 1 then None
      else
        RootPrecedesEvery(items[..], size);
        Some(items[1].value.item)
    }

    /** removeSmallest: move the last node to the root, null its old slot, sink the root
        (before size is decreased, so sink still sees the null slot), and return the old root.
        On an empty queue the removed node is null and the call fails. */
    method RemoveSmallest() returns (r: Option<T>)
      requires Valid()
      modifies items, this`size
      ensures Valid()
      ensures old(size) == 0 ==> r == None && size == 0 && items[..] == old(items[..])
      ensures old(size) > 0 ==> r == Some(old(items[1].value.item)) && size == old(size) - 1
      ensures old(size) > 0 ==>
        items[..] == SinkAsWritten(old(items[..])[1 := old(items[size])][size + 1 := None], size + 1, 1)
      ensures old(size) > 0 ==> multiset(Contents()) == multiset(old(Contents())) - multiset{old(items[1])}
    {
      if size == 0 {
        // deletedNode is null: NullPointerException
        return None;
      }
      ghost var a0 := items[..];
      var deletedNode := items[1].value;
      items[1] := items[size];
      items[size] := None;
      Sink(1);
      RemoveRootThenSink(a0, size);
      size := size - 1;
      r := Some(deletedNode.item);
    }

    function Size(): (r: int)
      reads this, items
      requires Valid()
      ensures r >= 0 && r == |Contents()|
    {
      size
    }

    /** changePriority: fails when the item is absent; otherwise rewrites the priority of the
        node indexOf finds, then swims it if the priority went down and sinks it otherwise. */
    method ChangePriority(item: T, priority: real) returns (ok: bool)
      requires Valid()
      modifies items
      ensures Valid() && size == old(size)
      ensures ok == old(Contains(item))
      ensures !ok ==> items[..] == old(items[..])
      ensures ok ==> var k := old(IndexOf(item, priority));
        var a := old(items[..])[k := Some(Node(old(items[k].value.item), priority))];
        1 <= k <= size && Holds(old(items[k]), item) &&
        items[..] == if old(items[k].value.priority) > priority then ArrayHeapSpec.Swim(a, k) else SinkAsWritten(a, size, k)
      ensures ok ==> var k := old(IndexOf(item, priority));
        multiset(Contents()) ==
          multiset(old(Contents())) - multiset{old(items[k])} + multiset{Some(Node(item, priority))}
      ensures ok && old(HeapOrder()) && priority < old(items[IndexOf(item, priority)].value.priority) ==> HeapOrder()
    {
      if !Contains(item) {
        // IllegalArgumentException
        return false;
      }
      var objectiveIndex := IndexOf(item, priority);
      var objectiveNode := items[objectiveIndex].value;
      var originPriority := objectiveNode.priority;
      ghost var a0 := items[..];
      assert old(items[1..size + 1]) == a0[1..size + 1];
      assert objectiveNode.item == item;
      items[objectiveIndex] := Some(Node(objectiveNode.item, priority));
      if originPriority > priority {
        Swim(objectiveIndex);
      } else {
        Sink(objectiveIndex);
      }
      if originPriority > priority {
        LowerThenSwim(a0, size, objectiveIndex, Node(item, priority));
      } else {
        RaiseThenSink(a0, size, objectiveIndex, Node(item, priority));
      }
      assert items[1..size + 1] == items[..][1..size + 1];
      ok := true;
    }

    function Contains(item: T): (r: bool)
      reads this, items
      requires Valid()
      ensures r <==> exists i :: 1 <= i <= size && Holds(items[i], item)
    {
      AllUnderRoot();
      ContainsHelper(item, 1)
    }

    /** containsHelper: search the subtree at `current`, visiting both children. */
    function ContainsHelper(item: T, current: int): (r: bool)
      reads this, items
      requires Valid() && current >= 1
      ensures r <==> exists i :: InSubtree(i, current) && i <= size && Holds(items[i], item)
      decreases size + 1 - current
    {
      if current >= size + 1 then false
      else if item == items[current].value.item then true
      else if !HasLeftChild(current) && !HasRightChild(current) then false
      else ContainsHelper(item, LeftChild(current)) || ContainsHelper(item, RightChild(current))
    }

    /** indexOf: the priority argument is passed along but never looked at. */
    function IndexOf(item: T, priority: real): (r: int)
      reads this, items
      requires Valid()
      ensures r == -1 <==> !Contains(item)
      ensures r != -1 ==> 1 <= r <= size && Holds(items[r], item)
    {
      AllUnderRoot();
      IndexOfHelper(item, priority, 1)
    }

    /** indexOfHelper: -1 when the subtree has no node for the item, otherwise the larger of
        the indices the two children report. */
    function IndexOfHelper(item: T, priority: real, current: int): (r: int)
      reads this, items
      requires Valid() && current >= 1
      ensures r == -1 <==> !ContainsHelper(item, current)
      ensures r != -1 ==> InSubtree(r, current) && r <= size && Holds(items[r], item)
      decreases size + 1 - current
    {
      if current >= size + 1 then -1
      else if item == items[current].value.item then current
      else if !HasLeftChild(current) && !HasRightChild(current) then -1
      else Max(IndexOfHelper(item, priority, LeftChild(current)), IndexOfHelper(item, priority, RightChild(current)))
    }

    /** parent: Java's int division, which truncates toward zero. */
    static function Parent(child: int): (r: int)
      ensures child >= 0 ==> 0 <= r && (2 * r == child || 2 * r + 1 == child)
      ensures child > 1 ==> 1 <= r < child
    {
      if child >= 0 then child / 2 else -((-child) / 2)
    }

    static function LeftChild(parent: int): (r: int)
      ensures Parent(r) == parent
    {
      2 * parent
    }

    static function RightChild(parent: int): (r: int)
      ensures parent >= 0 ==> Parent(r) == parent
      ensures r != LeftChild(parent)
    {
      2 * parent + 1
    }

    /** In a valid heap, a slot has a left child exactly when the slot below it holds a node. */
    function HasLeftChild(parent: int): (r: bool)
      reads this, items
      ensures Valid() && parent >= 1 ==>
        (r <==> LeftChild(parent) < items.Length && items[LeftChild(parent)].Some?)
    {
      LeftChild(parent) < size + 1
    }

    function HasRightChild(parent: int): (r: bool)
      reads this, items
      ensures Valid() && parent >= 1 ==>
        (r <==> RightChild(parent) < items.Length && items[RightChild(parent)].Some?)
    {
      RightChild(parent) < size + 1
    }

    /** swim: exchange the node at k with its parent while the parent ranks strictly above. */
    method Swim(k: int)
      requires 1 <= k < items.Length && AllSome(items[..], 1, k + 1)
      modifies items
      ensures items[..] == ArrayHeapSpec.Swim(old(items[..]), k)
    {
      var m := k;
      while m > 1 && CompareTo(items[Parent(m)].value, items[m]) > 0
        invariant 1 <= m <= k
        invariant AllSome(items[..], 1, k + 1)
        invariant ArrayHeapSpec.Swim(items[..], m) == ArrayHeapSpec.Swim(old(items[..]), k)
        decreases m
      {
        Exchange(Parent(m), m);
        m := Parent(m);
      }
    }

    /** sink as written: see ArrayHeapSpec.SinkAsWritten. It needs slots 1..size-1 to hold
        nodes and slot size + 1 to be null; slot size may be null (as in removeSmallest). */
    method Sink(k: int)
      requires 1 <= k && SinkReadyToStep(items[..], size)
      modifies items
      ensures items[..] == SinkAsWritten(old(items[..]), size, k)
    {
      var m := k;
      while 2 * m <= size
        invariant 1 <= m
        invariant SinkReadyToStep(items[..], size)
        invariant SinkAsWritten(items[..], size, m) == SinkAsWritten(old(items[..]), size, k)
        decreases size - m
      {
        ghost var a := items[..];
        var j := 2 * m;
        if j < size && CompareTo(items[j].value, items[j + 1]) > 0 {
          j := j + 1;
        }
        assert j == SinkChild(a, size, m);
        if CompareTo(items[m].value, items[j + 1]) <= 0 {
          SinkAsWrittenStops(a, size, m);
          return;
        }
        SinkAsWrittenStepKeeps(a, size, m);
        Exchange(m, j);
        m := j;
      }
      SinkAsWrittenStops(items[..], size, m);
    }

    method Exchange(i: int, j: int)
      requires 0 <= i < items.Length && 0 <= j < items.Length
      modifies items
      ensures items[..] == Swap(old(items[..]), i, j)
    {
      var swap := items[i];
      items[i] := items[j];
      items[j] := swap;
    }

    /** resize: a fresh array of twice the capacity, slots 1..capacity copied over. */
    method Resize()
      requires Valid()
      modifies this
      ensures Valid() && fresh(items)
      ensures capacity == 2 * old(capacity) && size == old(size)
      ensures items[..old(items.Length)] == old(items[..])
    {
      var newItems := new Slot<T>[2 * capacity + 1](_ => None);
      newItems[0] := None;
      forall i | 1 <= i <= capacity {
        newItems[i] := items[i];
      }
      items := newItems;
      capacity := 2 * capacity;
    }
  }

  /** In a heap ordered over 1..n the root ranks first. */
  lemma RootPrecedesEvery<T>(a: seq<Slot<T>>, n: int)
    requires n < |a|
    ensures HeapOrdered(a, n) ==> forall i :: 1 <= i <= n ==> Precedes(a[1], a[i])
  {
    if HeapOrdered(a, n) {
      forall i | 1 <= i <= n
        ensures Precedes(a[1], a[i])
      {
        RootPrecedesAll(a, n, i);
      }
    }
  }

  lemma AllUnderRoot()
    ensures forall i :: i >= 1 ==> InSubtree(i, 1)
  {
    forall i | i >= 1
      ensures InSubtree(i, 1)
    {
      UnderRoot(i);
    }
  }

  /** swim(k) only looks at slots 1..k, so it commutes with taking a prefix past k. */
  lemma {:induction false} SwimPrefix<T>(a: seq<Slot<T>>, m: int, k: int)
    requires 1 <= k < m <= |a|
    ensures ArrayHeapSpec.Swim(a, k)[..m] == ArrayHeapSpec.Swim(a[..m], k)
    decreases k
  {
    if k > 1 && !Precedes(a[k / 2], a[k]) {
      assert Swap(a, k / 2, k)[..m] == Swap(a[..m], k / 2, k);
      SwimPrefix(Swap(a, k / 2, k), m, k / 2);
    }
  }

  /** Heap order over 1..n only looks at slots 0..n. */
  lemma HeapOrderedPrefix<T>(a: seq<Slot<T>>, b: seq<Slot<T>>, n: int)
    requires 0 <= n < |a| && n < |b| && a[..n + 1] == b[..n + 1]
    ensures HeapOrdered(a, n) == HeapOrdered(b, n)
  {
    assert forall i :: 0 <= i <= n ==> a[i] == a[..n + 1][i] && b[i] == b[..n + 1][i];
  }

  /** What add does to the slots of a valid queue with n nodes: the new node x lands in slot
      n + 1 and swims up; the nodes are the old ones plus x and heap order is kept. */
  lemma AppendThenSwim<T>(a: seq<Slot<T>>, n: int, x: Slot<T>)
    requires n + 1 < |a| && SlotsValid(a, n) && x.Some?
    ensures var r := ArrayHeapSpec.Swim(a[n + 1 := x], n + 1);
      SlotsValid(r, n + 1) &&
      r[..n + 2] == ArrayHeapSpec.Swim(a[..n + 2][n + 1 := x], n + 1) &&
      multiset(r[1..n + 2]) == multiset(a[1..n + 1]) + multiset{x} &&
      (HeapOrdered(a, n) ==> HeapOrdered(r, n + 1))
  {
    var a1 := a[n + 1 := x];
    AppendedSlot(a, n, x);
    SwimKeepsSlots(a1, n + 1, n + 1);
    SwimPrefix(a1, n + 2, n + 1);
    if HeapOrdered(a, n) {
      AppendedSlotIsSwimReady(a1, n + 1);
      SwimRestoresHeap(a1, n + 1, n + 1);
    }
  }

  lemma AppendedSlot<T>(a: seq<Slot<T>>, n: int, x: Slot<T>)
    requires n + 1 < |a| && SlotsValid(a, n) && x.Some?
    ensures SlotsValid(a[n + 1 := x], n + 1)
    ensures a[..n + 2][n + 1 := x] == a[n + 1 := x][..n + 2]
    ensures a[n + 1 := x][1..n + 2] == a[1..n + 1] + [x]
    ensures HeapOrdered(a, n) ==> HeapOrdered(a[n + 1 := x], n)
  {
    assert a[..n + 2][n + 1 := x] == a[n + 1 := x][..n + 2];
    assert a[n + 1 := x][1..n + 2] == a[1..n + 1] + [x];
  }

  /** What removeSmallest does to the slots of a valid queue with n > 0 nodes: the root is
      replaced by the last node, the last slot is nulled, and the as-written sink runs with
      size still n; the remaining n - 1 nodes are the old ones minus the root. */
  lemma RemoveRootThenSink<T>(a: seq<Slot<T>>, n: int)
    requires 1 <= n && n + 1 < |a| && SlotsValid(a, n)
    ensures var r := SinkAsWritten(a[1 := a[n]][n := None], n, 1);
      SlotsValid(r, n - 1) &&
      multiset(r[1..n]) == multiset(a[1..n + 1]) - multiset{a[1]}
  {
    var a1 := a[1 := a[n]][n := None];
    var r := SinkAsWritten(a1, n, 1);
    assert AllSome(a1, 1, n);
    SinkAsWrittenFrame(a1, n, 1);
    SinkAsWrittenKeepsNodes(a1, n, 1);
    PermutedRange(a1, r, 1, n);
    RootReplacedByLast(a, n);
  }

  lemma RootReplacedByLast<T>(a: seq<Slot<T>>, n: int)
    requires 1 <= n < |a|
    ensures multiset(a[1 := a[n]][n := None][1..n]) == multiset(a[1..n + 1]) - multiset{a[1]}
  {
    var a1 := a[1 := a[n]][n := None];
    if n > 1 {
      assert a1[1..n] == [a[n]] + a[2..n];
      assert a[1..n + 1] == [a[1]] + a[2..n] + [a[n]];
    } else {
      assert a[1..n + 1] == [a[1]];
    }
  }

  /** Slot 0 is null, slots 1..n hold nodes and every later slot is null. */
  ghost predicate SlotsValid<T>(a: seq<Slot<T>>, n: int) {
    0 <= n < |a| && a[0].None? && AllSome(a, 1, n + 1) && forall i :: n < i < |a| ==> a[i].None?
  }

  /** An operation that only moves nodes within slots lo..hi-1 of 1..n keeps the slots valid. */
  lemma SlotsValidFramed<T>(a: seq<Slot<T>>, r: seq<Slot<T>>, n: int, lo: int, hi: int)
    requires SlotsValid(a, n) && |r| == |a| && 1 <= lo <= hi <= n + 1
    requires forall i :: 0 <= i < |a| && !(lo <= i < hi) ==> r[i] == a[i]
    requires AllSome(r, lo, hi)
    ensures SlotsValid(r, n)
  {
    forall i | 1 <= i < n + 1
      ensures r[i].Some?
    {
      if !(lo <= i < hi) {
        assert r[i] == a[i];
      }
    }
  }

  /** Swimming from a slot k of 1..n moves nodes only among slots 1..k. */
  lemma SwimKeepsSlots<T>(a: seq<Slot<T>>, n: int, k: int)
    requires 1 <= k <= n && SlotsValid(a, n)
    ensures SlotsValid(ArrayHeapSpec.Swim(a, k), n)
    ensures multiset(ArrayHeapSpec.Swim(a, k)[1..n + 1]) == multiset(a[1..n + 1])
  {
    SwimKeepsValid(a, n, k);
    ArrayHeapSpec.SwimPermutes(a, k, n + 1);
  }

  lemma SwimKeepsValid<T>(a: seq<Slot<T>>, n: int, k: int)
    requires 1 <= k <= n && SlotsValid(a, n)
    ensures SlotsValid(ArrayHeapSpec.Swim(a, k), n)
  {
    SwimFrame(a, k);
    SlotsValidFramed(a, ArrayHeapSpec.Swim(a, k), n, 1, k + 1);
  }

  /** The as-written sink from a slot k of 1..n moves nodes only among slots k..n-1. */
  lemma SinkKeepsSlots<T>(a: seq<Slot<T>>, n: int, k: int)
    requires 1 <= k <= n && n + 1 < |a| && SlotsValid(a, n)
    ensures SlotsValid(SinkAsWritten(a, n, k), n)
    ensures multiset(SinkAsWritten(a, n, k)[1..n + 1]) == multiset(a[1..n + 1])
  {
    SinkKeepsValid(a, n, k);
    SinkAsWrittenPermutes(a, n, k);
  }

  lemma SinkKeepsValid<T>(a: seq<Slot<T>>, n: int, k: int)
    requires 1 <= k <= n && n + 1 < |a| && SlotsValid(a, n)
    ensures SlotsValid(SinkAsWritten(a, n, k), n)
  {
    SinkAsWrittenFrame(a, n, k);
    SinkAsWrittenKeepsNodes(a, n, k);
    SlotsValidFramed(a, SinkAsWritten(a, n, k), n, k, n);
  }

  lemma ReplacedSlot<T>(a: seq<Slot<T>>, n: int, k: int, x: Slot<T>)
    requires 1 <= k <= n < |a|
    ensures multiset(a[k := x][1..n + 1]) == multiset(a[1..n + 1]) - multiset{a[k]} + multiset{x}
    ensures SlotsValid(a, n) && x.Some? ==> SlotsValid(a[k := x], n)
  {
    assert a[k := x][1..n + 1] == a[1..n + 1][k - 1 := x];
  }

  /** changePriority when the priority went down: swim from k. */
  lemma LowerThenSwim<T>(a: seq<Slot<T>>, n: int, k: int, x: Node<T>)
    requires 1 <= k <= n && n + 1 < |a| && SlotsValid(a, n) && x.priority < a[k].value.priority
    ensures var r := ArrayHeapSpec.Swim(a[k := Some(x)], k);
      SlotsValid(r, n) && multiset(r[1..n + 1]) == multiset(a[1..n + 1]) - multiset{a[k]} + multiset{Some(x)} &&
      (HeapOrdered(a, n) ==> HeapOrdered(r, n))
  {
    var a1 := a[k := Some(x)];
    var r := ArrayHeapSpec.Swim(a1, k);
    ReplacedSlot(a, n, k, Some(x));
    SwimKeepsSlots(a1, n, k);
    if HeapOrdered(a, n) {
      LoweredSlotIsSwimReady(a, n, k, x);
      SwimRestoresHeap(a1, n, k);
    }
  }

  /** changePriority when the priority did not go down: the as-written sink from k. */
  lemma RaiseThenSink<T>(a: seq<Slot<T>>, n: int, k: int, x: Node<T>)
    requires 1 <= k <= n && n + 1 < |a| && SlotsValid(a, n)
    ensures var r := SinkAsWritten(a[k := Some(x)], n, k);
      SlotsValid(r, n) && multiset(r[1..n + 1]) == multiset(a[1..n + 1]) - multiset{a[k]} + multiset{Some(x)}
  {
    var a1 := a[k := Some(x)];
    var r := SinkAsWritten(a1, n, k);
    ReplacedSlot(a, n, k, Some(x));
    SinkKeepsSlots(a1, n, k);
  }
}
