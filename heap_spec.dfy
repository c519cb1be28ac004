/** The value-level specification of ArrayHeapMinPQ: slots of the 1-indexed heap array,
    the order PriorityNode.compareTo induces on them, and swim and sink as functions on
    the array's contents. The class in module ArrayHeap is proved against these. */
module ArrayHeapSpec {
  import opened Wrappers

  /** PriorityNode: an item with its priority. */
  datatype Node<T> = Node(item: T, priority: real)

  /** One slot of the backing array; None is a null slot. */
  type Slot<T> = Option<Node<T>>

  /** PriorityNode.compareTo: a null argument ranks above every node (-1); otherwise the
      priorities are compared. */
  function CompareTo<T>(x: Node<T>, o: Slot<T>): (c: int)
    ensures c <= 0 <==> Precedes(Some(x), o)
    ensures c == 0 <==> o.Some? && o.value.priority == x.priority
  {
    match o
    case None => -1
    case Some(y) => if x.priority < y.priority then -1 else if x.priority == y.priority then 0 else 1
  }

  /** `x.compareTo(y) <= 0` lifted to slots: null ranks above every node. */
  predicate Precedes<T>(x: Slot<T>, y: Slot<T>) {
    y.None? || (x.Some? && x.value.priority <= y.value.priority)
  }

  lemma PrecedesTotal<T>(x: Slot<T>, y: Slot<T>)
    ensures Precedes(x, y) || Precedes(y, x)
  {}

  lemma PrecedesTransitive<T>(x: Slot<T>, y: Slot<T>, z: Slot<T>)
    requires Precedes(x, y) && Precedes(y, z)
    ensures Precedes(x, z)
  {}

  /** Slots lo..hi-1 all hold a node. */
  predicate AllSome<T>(a: seq<Slot<T>>, lo: int, hi: int)
    requires 0 <= lo <= hi <= |a|
  {
    forall i :: lo <= i < hi ==> a[i].Some?
  }

  /** Heap order over slots 1..n: no node ranks above one of its children. */
  ghost predicate HeapOrdered<T>(a: seq<Slot<T>>, n: int)
    requires n < |a|
  {
    forall i :: 2 <= i <= n ==> Precedes(a[i / 2], a[i])
  }

  /** exchange(i, j) on the array's contents. */
  function Swap<T>(a: seq<Slot<T>>, i: int, j: int): (r: seq<Slot<T>>)
    requires 0 <= i < |a| && 0 <= j < |a|
    ensures |r| == |a|
  {
    a[i := a[j]][j := a[i]]
  }

  /** exchange swaps exactly slots i and j, so the slots are permuted. */
  lemma SwapPermutes<T>(a: seq<Slot<T>>, i: int, j: int)
    requires 0 <= i < |a| && 0 <= j < |a|
    ensures Swap(a, i, j)[i] == a[j] && Swap(a, i, j)[j] == a[i]
    ensures forall k :: 0 <= k < |a| && k != i && k != j ==> Swap(a, i, j)[k] == a[k]
    ensures multiset(Swap(a, i, j)) == multiset(a)
  {}

  /** A permutation that fixes every slot outside lo..hi-1 permutes the slots lo..hi-1. */
  lemma PermutedRange<T>(a: seq<Slot<T>>, b: seq<Slot<T>>, lo: int, hi: int)
    requires |a| == |b| && 0 <= lo <= hi <= |a| && multiset(a) == multiset(b)
    requires forall i :: 0 <= i < |a| && !(lo <= i < hi) ==> a[i] == b[i]
    ensures multiset(a[lo..hi]) == multiset(b[lo..hi])
  {
    assert a[..lo] == b[..lo];
    assert a[hi..] == b[hi..];
    MultisetOfThirds(a, lo, hi);
    MultisetOfThirds(b, lo, hi);
    MultisetCancel(multiset(a[..lo]), multiset(a[lo..hi]), multiset(b[lo..hi]), multiset(a[hi..]));
  }

  lemma MultisetOfThirds<T>(a: seq<T>, lo: int, hi: int)
    requires 0 <= lo <= hi <= |a|
    ensures multiset(a) == multiset(a[..lo]) + multiset(a[lo..hi]) + multiset(a[hi..])
  {
    assert a == a[..lo] + a[lo..hi] + a[hi..];
  }

  lemma MultisetCancel<T>(p: multiset<T>, x: multiset<T>, y: multiset<T>, s: multiset<T>)
    requires p + x + s == p + y + s
    ensures x == y
  {
    assert x == p + x + s - p - s;
  }

  /** swim(k): move the node at k up while its parent ranks strictly above it. */
  function Swim<T>(a: seq<Slot<T>>, k: int): (r: seq<Slot<T>>)
    requires 1 <= k < |a|
    ensures |r| == |a|
    decreases k
  {
    if k > 1 && !Precedes(a[k / 2], a[k]) then Swim(Swap(a, k / 2, k), k / 2) else a
  }

  /** sink(k) as written: the child j is chosen correctly, but the node at k is then compared
      with the slot j + 1 instead of with j. */
  function SinkAsWritten<T>(a: seq<Slot<T>>, n: int, k: int): (r: seq<Slot<T>>)
    requires 1 <= k && n + 1 < |a|
    ensures |r| == |a|
    decreases n - k
  {
    if 2 * k > n then a
    else
      var j := if 2 * k < n && !Precedes(a[2 * k], a[2 * k + 1]) then 2 * k + 1 else 2 * k;
      if Precedes(a[k], a[j + 1]) then a else SinkAsWritten(Swap(a, k, j), n, j)
  }

  /** sink(k) with the comparison against the chosen child j. */
  function SinkFixed<T>(a: seq<Slot<T>>, n: int, k: int): (r: seq<Slot<T>>)
    requires 1 <= k && n + 1 < |a|
    ensures |r| == |a|
    decreases n - k
  {
    if 2 * k > n then a
    else
      var j := if 2 * k < n && !Precedes(a[2 * k], a[2 * k + 1]) then 2 * k + 1 else 2 * k;
      if Precedes(a[k], a[j]) then a else SinkFixed(Swap(a, k, j), n, j)
  }

  /** Heap order holds over 1..n except between k and its parent, and k's parent still
      ranks above k's children: the state after writing a smaller node at k. */
  ghost predicate SwimReady<T>(a: seq<Slot<T>>, n: int, k: int)
    requires 1 <= k <= n < |a|
  {
    (forall i :: 2 <= i <= n && i != k ==> Precedes(a[i / 2], a[i])) &&
    (k > 1 ==> forall i :: 2 <= i <= n && i / 2 == k ==> Precedes(a[k / 2], a[i]))
  }

  /** Heap order holds over 1..n except between k and its children, and k's parent ranks
      above k's children: the state after writing a larger node at k. */
  ghost predicate SinkReady<T>(a: seq<Slot<T>>, n: int, k: int)
    requires 1 <= k <= n < |a|
  {
    (forall i :: 2 <= i <= n && i / 2 != k ==> Precedes(a[i / 2], a[i])) &&
    (k > 1 ==> forall i :: 2 <= i <= n && i / 2 == k ==> Precedes(a[k / 2], a[i]))
  }

  /** One exchange of swim keeps the node's old slot in order and moves the exception up. */
  lemma SwimStep<T>(a: seq<Slot<T>>, n: int, k: int)
    requires 1 < k <= n < |a| && SwimReady(a, n, k) && !Precedes(a[k / 2], a[k])
    ensures SwimReady(Swap(a, k / 2, k), n, k / 2)
  {
    var p := k / 2;
    var b := Swap(a, p, k);
    PrecedesTotal(a[p], a[k]);
    forall i | 2 <= i <= n && i != p
      ensures Precedes(b[i / 2], b[i])
    {
      if i != k && i / 2 == p {
        PrecedesTransitive(a[k], a[p], a[i]);
      }
    }
    if p > 1 {
      forall i | 2 <= i <= n && i / 2 == p
        ensures Precedes(b[p / 2], b[i])
      {
        if i != k {
          PrecedesTransitive(a[p / 2], a[p], a[i]);
        }
      }
    }
  }

  /** swim restores heap order over 1..n from SwimReady. */
  lemma {:induction false} SwimRestoresHeap<T>(a: seq<Slot<T>>, n: int, k: int)
    requires 1 <= k <= n < |a| && SwimReady(a, n, k)
    ensures HeapOrdered(Swim(a, k), n)
    decreases k
  {
    if k > 1 && !Precedes(a[k / 2], a[k]) {
      SwimStep(a, n, k);
      SwimRestoresHeap(Swap(a, k / 2, k), n, k / 2);
    }
  }

  /** swim only exchanges slots 1..k among themselves. */
  lemma {:induction false} SwimFrame<T>(a: seq<Slot<T>>, k: int)
    requires 1 <= k < |a|
    ensures multiset(Swim(a, k)) == multiset(a)
    ensures forall i :: 0 <= i < |a| && !(1 <= i <= k) ==> Swim(a, k)[i] == a[i]
    ensures AllSome(a, 1, k + 1) ==> AllSome(Swim(a, k), 1, k + 1)
    decreases k
  {
    if k > 1 && !Precedes(a[k / 2], a[k]) {
      var b := Swap(a, k / 2, k);
      SwapPermutes(a, k / 2, k);
      SwimFrame(b, k / 2);
      var r := Swim(b, k / 2);
      assert Swim(a, k) == r;
      forall i | 0 <= i < |a| && !(1 <= i <= k)
        ensures r[i] == a[i]
      {
        assert r[i] == b[i];
      }
      if AllSome(a, 1, k + 1) {
        assert AllSome(b, 1, k + 1);
        forall i | 1 <= i <= k
          ensures r[i].Some?
        {
          if i > k / 2 {
            assert r[i] == b[i];
          }
        }
      }
    }
  }

  /** The corrected sink restores heap order over 1..n from SinkReady. */
  lemma {:induction false} SinkFixedRestoresHeap<T>(a: seq<Slot<T>>, n: int, k: int)
    requires 1 <= k <= n && n + 1 < |a| && SinkReady(a, n, k)
    ensures HeapOrdered(SinkFixed(a, n, k), n)
    decreases n - k
  {
    if 2 * k <= n {
      var j := if 2 * k < n && !Precedes(a[2 * k], a[2 * k + 1]) then 2 * k + 1 else 2 * k;
      PrecedesTotal(a[2 * k], if 2 * k < n then a[2 * k + 1] else None);
      // j holds the child that ranks first
      forall i | 2 <= i <= n && i / 2 == k
        ensures Precedes(a[j], a[i])
      {}
      if Precedes(a[k], a[j]) {
        forall i | 2 <= i <= n && i / 2 == k
          ensures Precedes(a[k], a[i])
        {
          PrecedesTransitive(a[k], a[j], a[i]);
        }
      } else {
        var b := Swap(a, k, j);
        PrecedesTotal(a[k], a[j]);
        forall i | 2 <= i <= n && i / 2 != j
          ensures Precedes(b[i / 2], b[i])
        {}
        SinkFixedRestoresHeap(b, n, j);
      }
    }
  }

  /** The slot an as-written sink step exchanges with: j, chosen between the children of k. */
  function SinkChild<T>(a: seq<Slot<T>>, n: int, k: int): (j: int)
    requires 1 <= k && 2 * k <= n && n + 1 < |a|
    ensures j == 2 * k || j == 2 * k + 1
    ensures j <= n
  {
    if 2 * k < n && !Precedes(a[2 * k], a[2 * k + 1]) then 2 * k + 1 else 2 * k
  }

  /** One exchange of the as-written sink: it only happens below slot n when slot n + 1 is
      null, since slot j + 1 must hold a node that ranks strictly first. */
  lemma SinkAsWrittenStep<T>(a: seq<Slot<T>>, n: int, k: int)
    requires 1 <= k && 2 * k <= n && n + 1 < |a| && a[n + 1].None?
    requires !Precedes(a[k], a[SinkChild(a, n, k) + 1])
    ensures SinkChild(a, n, k) < n
    ensures SinkAsWritten(a, n, k) == SinkAsWritten(Swap(a, k, SinkChild(a, n, k)), n, SinkChild(a, n, k))
  {}

  /** The as-written sink stops at k when k has no child or slot j + 1 ranks after k. */
  lemma SinkAsWrittenStops<T>(a: seq<Slot<T>>, n: int, k: int)
    requires 1 <= k && n + 1 < |a|
    requires 2 * k > n || Precedes(a[k], a[SinkChild(a, n, k) + 1])
    ensures SinkAsWritten(a, n, k) == a
  {}

  /** Slots 1..n-1 hold nodes and slot n + 1 is null: what the as-written sink needs. */
  predicate SinkReadyToStep<T>(a: seq<Slot<T>>, n: int) {
    1 <= n && n + 1 < |a| && AllSome(a, 1, n) && a[n + 1].None?
  }

  /** One exchange of the as-written sink keeps slots 1..n-1 filled and slot n + 1 null. */
  lemma SinkAsWrittenStepKeeps<T>(a: seq<Slot<T>>, n: int, k: int)
    requires 1 <= k && 2 * k <= n && SinkReadyToStep(a, n)
    requires !Precedes(a[k], a[SinkChild(a, n, k) + 1])
    ensures var j := SinkChild(a, n, k); var b := Swap(a, k, j);
      j < n && SinkReadyToStep(b, n) && SinkAsWritten(b, n, j) == SinkAsWritten(a, n, k)
  {
    SinkAsWrittenStep(a, n, k);
    SwapPermutes(a, k, SinkChild(a, n, k));
  }

  /** The as-written sink never exchanges slot n or anything past it: the comparison with
      slot j + 1 stops it as soon as that slot is null, so only slots k..n-1 are permuted. */
  lemma {:induction false} SinkAsWrittenFrame<T>(a: seq<Slot<T>>, n: int, k: int)
    requires 1 <= k <= n && n + 1 < |a| && a[n + 1].None?
    ensures multiset(SinkAsWritten(a, n, k)) == multiset(a)
    ensures forall i :: 0 <= i < |a| && !(k <= i < n) ==> SinkAsWritten(a, n, k)[i] == a[i]
  {
    SinkAsWrittenMultiset(a, n, k);
    SinkAsWrittenFixes(a, n, k);
  }

  lemma {:induction false} SinkAsWrittenMultiset<T>(a: seq<Slot<T>>, n: int, k: int)
    requires 1 <= k <= n && n + 1 < |a| && a[n + 1].None?
    ensures multiset(SinkAsWritten(a, n, k)) == multiset(a)
    decreases n - k
  {
    if 2 * k <= n && !Precedes(a[k], a[SinkChild(a, n, k) + 1]) {
      var j := SinkChild(a, n, k);
      SinkAsWrittenStep(a, n, k);
      SwapPermutes(a, k, j);
      SinkAsWrittenMultiset(Swap(a, k, j), n, j);
    }
  }

  lemma {:induction false} SinkAsWrittenFixes<T>(a: seq<Slot<T>>, n: int, k: int)
    requires 1 <= k <= n && n + 1 < |a| && a[n + 1].None?
    ensures forall i :: 0 <= i < |a| && !(k <= i < n) ==> SinkAsWritten(a, n, k)[i] == a[i]
    decreases n - k
  {
    if 2 * k <= n && !Precedes(a[k], a[SinkChild(a, n, k) + 1]) {
      var j := SinkChild(a, n, k);
      SinkAsWrittenStep(a, n, k);
      SwapPermutes(a, k, j);
      SinkAsWrittenFixes(Swap(a, k, j), n, j);
    }
  }

  /** The as-written sink permutes slots 1..n. */
  lemma SinkAsWrittenPermutes<T>(a: seq<Slot<T>>, n: int, k: int)
    requires 1 <= k <= n && n + 1 < |a| && a[n + 1].None?
    ensures multiset(SinkAsWritten(a, n, k)[1..n + 1]) == multiset(a[1..n + 1])
  {
    SinkAsWrittenFrame(a, n, k);
    PermutedRange(a, SinkAsWritten(a, n, k), 1, n + 1);
  }

  /** Swim from k permutes any range 1..hi-1 that contains k. */
  lemma SwimPermutes<T>(a: seq<Slot<T>>, k: int, hi: int)
    requires 1 <= k < hi <= |a|
    ensures multiset(Swim(a, k)[1..hi]) == multiset(a[1..hi])
  {
    SwimFrame(a, k);
    PermutedRange(a, Swim(a, k), 1, hi);
  }

  /** The as-written sink keeps slots k..n-1 filled. */
  lemma {:induction false} SinkAsWrittenKeepsNodes<T>(a: seq<Slot<T>>, n: int, k: int)
    requires 1 <= k <= n && n + 1 < |a| && a[n + 1].None? && AllSome(a, k, n)
    ensures AllSome(SinkAsWritten(a, n, k), k, n)
    decreases n - k
  {
    if 2 * k <= n && !Precedes(a[k], a[SinkChild(a, n, k) + 1]) {
      var j := SinkChild(a, n, k);
      SinkAsWrittenStep(a, n, k);
      var b := Swap(a, k, j);
      SwapPermutes(a, k, j);
      assert AllSome(b, j, n);
      SinkAsWrittenKeepsNodes(b, n, j);
      SinkAsWrittenFrame(b, n, j);
      var r := SinkAsWritten(b, n, j);
      forall i | k <= i < n
        ensures r[i].Some?
      {
        if i < j {
          assert r[i] == b[i];
        }
      }
    }
  }

  /** Writing a node into slot n of a heap ordered over 1..n-1 leaves only slot n to swim. */
  lemma AppendedSlotIsSwimReady<T>(a: seq<Slot<T>>, n: int)
    requires 1 <= n < |a| && HeapOrdered(a, n - 1)
    ensures SwimReady(a, n, n)
  {}

  /** Lowering the priority of the node at k in a heap leaves only slot k to swim. */
  lemma LoweredSlotIsSwimReady<T>(a: seq<Slot<T>>, n: int, k: int, x: Node<T>)
    requires 1 <= k <= n < |a| && HeapOrdered(a, n) && a[k].Some? && x.priority < a[k].value.priority
    ensures SwimReady(a[k := Some(x)], n, k)
  {
    var b := a[k := Some(x)];
    forall i | 2 <= i <= n && i != k
      ensures Precedes(b[i / 2], b[i])
    {
      if i / 2 == k {
        PrecedesTransitive(b[k], a[k], a[i]);
      }
    }
    if k > 1 {
      forall i | 2 <= i <= n && i / 2 == k
        ensures Precedes(b[k / 2], b[i])
      {
        PrecedesTransitive(a[k / 2], a[k], a[i]);
      }
    }
  }

  /** In a heap the root ranks first: no slot in 1..n precedes slot 1 strictly. */
  lemma {:induction false} RootPrecedesAll<T>(a: seq<Slot<T>>, n: int, i: int)
    requires n < |a| && HeapOrdered(a, n) && 1 <= i <= n
    ensures Precedes(a[1], a[i])
    decreases i
  {
    if i > 1 {
      RootPrecedesAll(a, n, i / 2);
      PrecedesTransitive(a[1], a[i / 2], a[i]);
    }
  }

  /** Finding: removeSmallest on the heap with priorities 1, 2, 9, 3, 4 moves the last node
      (4) to the root and nulls slot 5. The as-written sink chooses child 2 but compares the
      root with slot 3 (priority 9), so it stops and leaves 4 above 2, while the corrected
      sink restores heap order over the four remaining slots. */
  lemma SinkAsWrittenBreaksHeapOrder()
    ensures var a: seq<Slot<int>> :=
              [None, Some(Node(5, 4.0)), Some(Node(2, 2.0)), Some(Node(3, 9.0)), Some(Node(4, 3.0)), None, None];
            SinkReady(a, 5, 1) && SinkAsWritten(a, 5, 1) == a && !HeapOrdered(a, 4) &&
            HeapOrdered(SinkFixed(a, 5, 1), 4)
  {
    var a: seq<Slot<int>> :=
      [None, Some(Node(5, 4.0)), Some(Node(2, 2.0)), Some(Node(3, 9.0)), Some(Node(4, 3.0)), None, None];
    assert !Precedes(a[2 / 2], a[2]);
    SinkFixedRestoresHeap(a, 5, 1);
  }

  /** Slot i lies in the subtree rooted at slot c (c, its children, their children, ...). */
  predicate InSubtree(i: int, c: int)
    requires c >= 1
    ensures InSubtree(i, c) ==> c <= i && (i == c || 2 * c <= i)
    decreases i - c
  {
    c <= i && (i == c || InSubtree(i, 2 * c) || InSubtree(i, 2 * c + 1))
  }

  lemma {:induction false} SubtreeHoldsChildren(p: int, c: int)
    requires 1 <= c && InSubtree(p, c)
    ensures InSubtree(2 * p, c) && InSubtree(2 * p + 1, c)
    decreases p - c
  {
    if p == c {
      assert InSubtree(2 * p, 2 * c) && InSubtree(2 * p + 1, 2 * c + 1);
    } else if InSubtree(p, 2 * c) {
      SubtreeHoldsChildren(p, 2 * c);
    } else {
      SubtreeHoldsChildren(p, 2 * c + 1);
    }
  }

  /** Every slot from 1 on lies under the root, so the recursive searches from slot 1 are
      exhaustive. */
  lemma {:induction false} UnderRoot(i: int)
    requires i >= 1
    ensures InSubtree(i, 1)
    decreases i
  {
    if i > 1 {
      UnderRoot(i / 2);
      SubtreeHoldsChildren(i / 2, 1);
    }
  }
}
