# Bear Maps data structures, modelled in Dafny

This project models the data-structure core of the CS 61B "Bear Maps" projects:

- `ArrayHeapMinPQ`, a binary min-heap of (item, priority) nodes kept in an array from slot 1;
- the two `KDTree` point sets (the proj2ab one, which only builds the tree, and the proj2c one, which also answers nearest-neighbour queries with pruning and exhaustively), and `NaivePointSet`, the linear scan;
- `AStarSolver`, the A* search over a weighted graph with a heuristic, which reports an outcome, a path, its weight and the number of states it explored;
- `MyTrieSet`, a character trie holding a set of strings.

Modules:

- `Wrappers`: `Option`, which stands for Java's `null` returns.
- `Points`: points, the squared distance, and what "first nearest point of a list" means.
- `ArrayHeapSpec`: the heap's array operations as functions on sequences, with their lemmas.
  Covers `swim`, `sink` as written, a corrected `sink`, `exchange`, `compareTo` and heap order.
- `ArrayHeap`: the class `ArrayHeapMinPQ` over an `array`; each method is proved against `ArrayHeapSpec`.
- `KdTreeSpec`: a kd-tree as a value, with the insertion `putHelper` performs and both nearest searches.
  It proves the split-rule invariant, the multiset of stored points, and that the pruned search returns a nearest point.
- `KdTreeSearch` (proj2c) and `KdTreeBasic` (proj2ab): the linked `KDTreeNode` objects.
  `put` updates them in place, and each node carries the tree it spells as a ghost value.
- `NaivePoints`: `NaivePointSet` and its scan.
- `MapPQ`: the priority queue the solver uses, specified on a map.
- `AStar`: the solver as a class whose constructor runs the search.
  The search relaxes edges into `distTo`/`edgeTo`, walks `edgeTo` back from the goal, and classifies the outcome.
  The proofs show that UNSOLVABLE is reported exactly when no path of graph edges leads from start to the goal, and that a SOLVED path follows graph edges and weighs at most the reported weight.
- `TrieSet`: `MyTrieSet`, with its nodes in an arena (node k has `isKey[k]` and the child map `next[k]`) and a ghost record of the string each node spells.

## Model

| member | source | states |
|---|---|---|
| ArrayHeapSpec.CompareTo | proj2ab/bearmaps/ArrayHeapMinPQ.java:222-228 | a null slot compares as larger than every node; otherwise the sign is the order of the priorities; zero exactly for equal priorities |
| ArrayHeapSpec.SwapPermutes | proj2ab/bearmaps/ArrayHeapMinPQ.java:180-184 | exchange swaps the two slots, leaves every other slot alone and keeps the multiset of slots |
| ArrayHeapSpec.SwimRestoresHeap | proj2ab/bearmaps/ArrayHeapMinPQ.java:159-164 | swim from a slot whose only violation is against its parent gives a heap-ordered array |
| ArrayHeapSpec.SwimFrame | proj2ab/bearmaps/ArrayHeapMinPQ.java:159-164 | swim permutes the slots and touches only slots 1..k |
| ArrayHeapSpec.SinkAsWrittenFrame | proj2ab/bearmaps/ArrayHeapMinPQ.java:166-178 | sink as written permutes the array and touches only slots k..size-1 |
| ArrayHeapSpec.SinkAsWrittenBreaksHeapOrder | proj2ab/bearmaps/ArrayHeapMinPQ.java:166-178 | on priorities 4,2,9,3 (after removeSmallest moved the last node up) the as-written sink stops at once and leaves 4 above 2; the corrected sink gives heap order |
| ArrayHeapSpec.SinkFixedRestoresHeap | proj2ab/bearmaps/ArrayHeapMinPQ.java:166-178 | the corrected sink, comparing with the chosen child, restores heap order when slot k is the only violation |
| ArrayHeapSpec.RootPrecedesAll | proj2ab/bearmaps/ArrayHeapMinPQ.java:54-60 | in a heap-ordered array slot 1 precedes every slot up to size |
| ArrayHeap.ArrayHeapMinPQ.constructor | proj2ab/bearmaps/ArrayHeapMinPQ.java:13-21 | an array of c + 1 null slots, capacity c, size 0 |
| ArrayHeap.ArrayHeapMinPQ.Add | proj2ab/bearmaps/ArrayHeapMinPQ.java:24-31 | resizes when size reaches capacity - 1, stores the node in slot size + 1 and swims it; adds exactly that node to the multiset of stored nodes and keeps heap order; capacity 0 is refused (index out of bounds in Java) |
| ArrayHeap.ArrayHeapMinPQ.GetSmallest | proj2ab/bearmaps/ArrayHeapMinPQ.java:54-60 | as written: no answer unless size > 1; otherwise the item in slot 1, which precedes every stored node in a heap |
| ArrayHeap.ArrayHeapMinPQ.GetSmallestFixed | proj2ab/bearmaps/ArrayHeapMinPQ.java:54-60 | corrected: an answer exactly when size >= 1, the item in slot 1, which precedes every stored node in a heap |
| ArrayHeap.ArrayHeapMinPQ.RemoveSmallest | proj2ab/bearmaps/ArrayHeapMinPQ.java:62-70 | returns slot 1's item, moves the last node to slot 1, nulls its slot, sinks from 1 (as written) and shrinks size; the stored multiset loses exactly the returned node |
| ArrayHeap.ArrayHeapMinPQ.Size | proj2ab/bearmaps/ArrayHeapMinPQ.java:72-75 | the number of stored nodes, the length of the slots 1..size |
| ArrayHeap.ArrayHeapMinPQ.ChangePriority | proj2ab/bearmaps/ArrayHeapMinPQ.java:77-94 | refused when the item is absent; otherwise the node indexOf finds gets the new priority and is swum up when it dropped, sunk otherwise; lowering a priority keeps heap order |
| ArrayHeap.ArrayHeapMinPQ.Contains | proj2ab/bearmaps/ArrayHeapMinPQ.java:33-37 | true exactly when some slot 1..size holds the item |
| ArrayHeap.ArrayHeapMinPQ.ContainsHelper | proj2ab/bearmaps/ArrayHeapMinPQ.java:39-52 | true exactly when some slot in the subtree under current, up to size, holds the item |
| ArrayHeap.ArrayHeapMinPQ.IndexOf | proj2ab/bearmaps/ArrayHeapMinPQ.java:108-121 | -1 exactly when the item is absent, otherwise a slot in 1..size holding it |
| ArrayHeap.ArrayHeapMinPQ.IndexOfHelper | proj2ab/bearmaps/ArrayHeapMinPQ.java:123-136 | -1 exactly when the subtree under current holds no such item, otherwise a slot of that subtree holding it |
| ArrayHeap.ArrayHeapMinPQ.Swim | proj2ab/bearmaps/ArrayHeapMinPQ.java:159-164 | the loop leaves the array equal to the specification swim |
| ArrayHeap.ArrayHeapMinPQ.Sink | proj2ab/bearmaps/ArrayHeapMinPQ.java:166-178 | the loop leaves the array equal to the specification sink as written |
| ArrayHeap.ArrayHeapMinPQ.Exchange | proj2ab/bearmaps/ArrayHeapMinPQ.java:180-184 | the array becomes the swap of the two slots |
| ArrayHeap.ArrayHeapMinPQ.Resize | proj2ab/bearmaps/ArrayHeapMinPQ.java:186-195 | a fresh array of twice the capacity plus one, holding the old slots at the same places |
| ArrayHeap.ArrayHeapMinPQ.Parent | proj2ab/bearmaps/ArrayHeapMinPQ.java:139-141 | truncating division: for a slot at least 0, the slot whose left or right child it is; for a slot above 1, a smaller slot from 1 up |
| ArrayHeap.ArrayHeapMinPQ.LeftChild | proj2ab/bearmaps/ArrayHeapMinPQ.java:143-145 | its parent is the given slot |
| ArrayHeap.ArrayHeapMinPQ.RightChild | proj2ab/bearmaps/ArrayHeapMinPQ.java:147-149 | its parent is the given slot (for slots from 0 up), and it differs from the left child |
| ArrayHeap.ArrayHeapMinPQ.HasLeftChild | proj2ab/bearmaps/ArrayHeapMinPQ.java:151-153 | in a valid heap, true for a slot from 1 up exactly when the left child's slot exists and holds a node |
| ArrayHeap.ArrayHeapMinPQ.HasRightChild | proj2ab/bearmaps/ArrayHeapMinPQ.java:155-157 | in a valid heap, true for a slot from 1 up exactly when the right child's slot exists and holds a node |
| KdTreeSpec.Insert | proj2c/bearmaps/proj2ab/KDTree.java:19-40 | the result is a node that stores p; a non-empty tree keeps its root point and depth |
| KdTreeSpec.NearestHelper | proj2c/bearmaps/proj2ab/KDTree.java:48-75 | answers the starting best or a stored point, never farther from the goal than best |
| KdTreeSpec.NearestInefficientHelper | proj2c/bearmaps/proj2ab/KDTree.java:96-106 | answers the starting best or a stored point, never farther from the goal than best |
| KdTreeSpec.InsertAddsOneLeaf | proj2c/bearmaps/proj2ab/KDTree.java:19-40 | putHelper adds exactly one leaf, for p at its depth, along the path the comparisons choose (ties go big) |
| KdTreeSpec.InsertAddsPoint | proj2c/bearmaps/proj2ab/KDTree.java:19-40 | the stored points gain exactly p, as a multiset |
| KdTreeSpec.InsertKeepsPartition | proj2c/bearmaps/proj2ab/KDTree.java:19-40 | every point in a node's small subtree is strictly below it on the node's axis, every point in the big subtree is at or above it, before and after a put |
| KdTreeSpec.InsertKeepsDepths | proj2c/bearmaps/proj2ab/KDTree.java:19-40 | each node records its depth, counting from the depth the insertion started at |
| KdTreeSpec.ChooseGoodSide | proj2c/bearmaps/proj2ab/KDTree.java:144-157 | 0 (small) exactly when the goal is strictly below the node on the node's axis |
| KdTreeSpec.BadSideIsUseful | proj2c/bearmaps/proj2ab/KDTree.java:80-89 | when it answers no, the squared gap to the splitting line is at least the best distance so far |
| KdTreeSpec.ScanFindsFirstNearest | proj2c/bearmaps/proj2ab/KDTree.java:96-106 | replacing the best only on a strictly smaller distance ends at the first nearest point of the visited list |
| KdTreeSpec.InefficientIsScan | proj2c/bearmaps/proj2ab/KDTree.java:96-106 | nearestInefficientHelper is that scan over the preorder of the tree |
| KdTreeSpec.InefficientFindsNearest | proj2c/bearmaps/proj2ab/KDTree.java:96-106 | its answer is the starting best or a stored point, and no stored point is strictly closer |
| KdTreeSpec.PrunedFindsNearest | proj2c/bearmaps/proj2ab/KDTree.java:48-75 | the pruned nearestHelper answers the starting best or a stored point, and no stored point is strictly closer, on a tree that keeps the split rule and its depths |
| KdTreeSpec.NearestMatchesInefficient | proj2c/bearmaps/proj2ab/KDTree.java:42-46 | the pruned and the exhaustive search from the root give points at the same distance |
| KdTreeSpec.InefficientFirstInPreorder | proj2c/bearmaps/proj2ab/KDTree.java:91-94 | nearestInefficient from the root answers the first nearest point in preorder |
| KdTreeSpec.InsertKeepsWellFormed | proj2c/bearmaps/proj2ab/KDTree.java:15-17 | a put from depth 0 keeps the split rule and the recorded depths |
| KdTreeSearch.Compare | proj2c/bearmaps/proj2ab/KDTree.java:26-31 | the sign of the comparison is the order of the two coordinates |
| KdTreeSearch.KdNode.constructor | proj2c/bearmaps/proj2ab/KDTree.java:114-119 | a node with the given point and depth and no children |
| KdTreeSearch.PutHelper | proj2c/bearmaps/proj2ab/KDTree.java:19-40 | returns a new node on a null reference, otherwise the same node; the nodes then spell the insertion of p, and only new nodes join them |
| KdTreeSearch.PutSmall | proj2c/bearmaps/proj2ab/KDTree.java:34-35 | replaces childSmall by the result of putHelper; the node's tree gets p inserted in its small subtree |
| KdTreeSearch.PutBig | proj2c/bearmaps/proj2ab/KDTree.java:32-38 | replaces childBig by the result of putHelper, for greater and tied coordinates; the node's tree gets p inserted in its big subtree |
| KdTreeSearch.NearestAt | proj2c/bearmaps/proj2ab/KDTree.java:48-75 | nearestHelper over the nodes equals the pruned search on the tree they spell |
| KdTreeSearch.NearestInefficientAt | proj2c/bearmaps/proj2ab/KDTree.java:96-106 | nearestInefficientHelper over the nodes equals the exhaustive search on the tree they spell |
| KdTreeSearch.KdTree.constructor | proj2c/bearmaps/proj2ab/KDTree.java:9-13 | puts every listed point in order; the tree holds exactly the listed points |
| KdTreeSearch.KdTree.Put | proj2c/bearmaps/proj2ab/KDTree.java:15-40 | a null point is refused and nothing changes; otherwise the tree becomes the insertion of p from depth 0, keeps the split rule and holds one more p |
| KdTreeSearch.KdTree.Nearest | proj2c/bearmaps/proj2ab/KDTree.java:42-46 | none on an empty tree; otherwise a stored point no stored point is strictly closer than, at the distance nearestInefficient finds |
| KdTreeSearch.KdTree.NearestInefficient | proj2c/bearmaps/proj2ab/KDTree.java:91-94 | none on an empty tree; otherwise the first stored point in preorder at the least distance |
| KdTreeBasic.KdNode.AtRoot | proj2ab/bearmaps/KDTree.java:53-59 | a node at depth 0 that splits vertically, with no children |
| KdTreeBasic.KdNode.constructor | proj2ab/bearmaps/KDTree.java:61-67 | a node at depth d that splits vertically exactly at even depths, with no children |
| KdTreeBasic.IsVertical | proj2ab/bearmaps/KDTree.java:77-79 | true exactly at the depths whose split compares x |
| KdTreeBasic.CompareX | proj2ab/bearmaps/KDTree.java:81-83 | true exactly at the depths whose split compares x |
| KdTreeBasic.Compare | proj2ab/bearmaps/KDTree.java:26-31 | the sign of the comparison is the order of the two coordinates |
| KdTreeBasic.PutHelper | proj2ab/bearmaps/KDTree.java:19-40 | returns a new node on a null reference, otherwise the same node; the nodes then spell the insertion of p |
| KdTreeBasic.PutSmall | proj2ab/bearmaps/KDTree.java:34-35 | the node's tree gets p inserted in its small subtree |
| KdTreeBasic.PutBig | proj2ab/bearmaps/KDTree.java:32-38 | the node's tree gets p inserted in its big subtree, for greater and tied coordinates |
| KdTreeBasic.KdTree.constructor | proj2ab/bearmaps/KDTree.java:9-13 | puts every listed point in order; the tree holds exactly the listed points |
| KdTreeBasic.KdTree.Put | proj2ab/bearmaps/KDTree.java:15-40 | a null point is refused and nothing changes; otherwise the tree becomes the insertion of p and keeps the split rule |
| KdTreeBasic.KdTree.Nearest | proj2ab/bearmaps/KDTree.java:42-45 | always null |
| NaivePoints.NaivePointSet.constructor | proj2ab/bearmaps/NaivePointSet.java:8-11 | keeps the given list |
| NaivePoints.NaivePointSet.Nearest | proj2ab/bearmaps/NaivePointSet.java:13-24 | null exactly when no point is closer than 100000; otherwise the first listed point at the least distance, which is below 100000 |
| AStar.Reverse | proj2c/bearmaps/hw4/AStarSolver.java:120 | Collections.reverse: same length, element i is element len-1-i of the input |
| AStar.SolutionFromEdgeTo | proj2c/bearmaps/hw4/AStarSolver.java:112-122 | [s] when v is s; a found path starts at s, ends at v and follows edgeTo backwards link by link; a broken walk reached a vertex edgeTo lacks (the NullPointerException) without meeting s; an unfinished walk took fuel steps without meeting s |
| AStar.AStarSolver.constructor | proj2c/bearmaps/hw4/AStarSolver.java:22-62 | the search invariant holds and numStatesExplored counts the removed vertices other than end; with an outcome, the loop stopped because the queue ran empty or end was removed; no outcome (Java's null) only when fuel ran out, in the loop with vertices still queued or in a walk back of fuel steps; UNSOLVABLE exactly when end has no distance, and exactly when no path of graph edges leads from start to end; when end has a distance, SOLVED exactly within the timeout; the outcome reports path, time and weight as classified; start == end explores nothing and answers [start] |
| AStar.AStarSolver.Run | proj2c/bearmaps/hw4/AStarSolver.java:32-61 | the same, from the state in which start is queued at distance 0 |
| AStar.AStarSolver.Search | proj2c/bearmaps/hw4/AStarSolver.java:32-42 | the loop ends with the queue empty or end the last removed vertex, or stops after fuel removals with the queue non-empty; it keeps the search invariant, every vertex with a distance other than start has an edgeTo entry, every vertex with a distance is queued or removed, every edge leaving a removed vertex other than end has a target with a distance, and numStatesExplored counts the removals other than end |
| AStar.AStarSolver.VisitNext | proj2c/bearmaps/hw4/AStarSolver.java:34-41 | one round: removes a vertex of least priority; for end nothing else changes; otherwise it is counted and its edges are relaxed, keeping all the loop's invariants |
| AStar.AStarSolver.Expand | proj2c/bearmaps/hw4/AStarSolver.java:36-41 | counts the vertex and relaxes its edges; every vertex with a distance stays queued or removed, and the vertex's edges join the relaxed ones |
| AStar.AStarSolver.RelaxAll | proj2c/bearmaps/hw4/AStarSolver.java:37-41 | afterwards every edge leaving current has a target with a distance at most distTo[current] plus its weight; no distance grows; each vertex whose distance dropped has current as edgeTo and is queued at its new distance plus the heuristic; every other vertex keeps its queue entry and edgeTo |
| AStar.AStarSolver.Relax | proj2c/bearmaps/hw4/AStarSolver.java:92-110 | when q has no distance or p's distance plus w beats it: q gets that distance, edgeTo[q] = p, and q is queued at distance plus estimate; otherwise distTo, edgeTo and the queue are unchanged; the invariant holds |
| AStar.AStarSolver.Conclude | proj2c/bearmaps/hw4/AStarSolver.java:44-61 | the walk back and the classification: no outcome only when the walk takes fuel steps; UNSOLVABLE exactly when end has no distance, exactly when end is unreachable; with a distance, SOLVED exactly within the timeout |
| AStar.AStarSolver.Classify | proj2c/bearmaps/hw4/AStarSolver.java:44-61 | UNSOLVABLE exactly on a broken walk or an empty path; otherwise SOLVED within the timeout, with the time and distTo[end] as weight, and TIMEOUT beyond it, with the time |
| AStar.AStarSolver.EndHasDistance | proj2c/bearmaps/hw4/AStarSolver.java:57 | the last vertex of a path from start along edgeTo has a distance, so distTo.get(end) is defined |
| AStar.AStarSolver.SolutionWeight | proj2c/bearmaps/hw4/AStarSolver.java:75-80 | the stored weight when SOLVED and 0 for any other outcome |
| AStar.AStarSolver.SolvedPathWeight | proj2c/bearmaps/hw4/AStarSolver.java:44-57 | a SOLVED solution is a path of graph edges from start to end whose total weight is at most solutionWeight |
| AStar.RelaxKeepsInv | proj2c/bearmaps/hw4/AStarSolver.java:92-110 | a successful relaxation keeps start at 0, all distances non-negative, every edgeTo entry a graph edge with distTo[q] >= distTo[p] + w, and the queue within distTo |
| AStar.RelaxStep | proj2c/bearmaps/hw4/AStarSolver.java:38-41 | one turn of the for loop keeps what the relaxations so far have done, keeps a predecessor for every vertex with a distance, and brings one more edge within reach |
| AStar.LoweredStep | proj2c/bearmaps/hw4/AStarSolver.java:101-108 | an improving relaxation of an edge out of current lowers its target with current as edgeTo and queues it at distance plus heuristic |
| AStar.WithinReachStep | proj2c/bearmaps/hw4/AStarSolver.java:38-41 | distances only go down, so edges already within reach stay so, and the edge just relaxed joins them |
| AStar.Dequeued | proj2c/bearmaps/hw4/AStarSolver.java:34-35 | removeSmallest moves a vertex from the queue to the removed ones; every vertex with a distance stays queued or removed |
| AStar.SearchStep | proj2c/bearmaps/hw4/AStarSolver.java:34-41 | after a vertex is removed and its edges relaxed, every vertex with a distance is queued or removed, and every edge out of a removed vertex other than end has a target with a distance |
| AStar.ChainHasDistances | proj2c/bearmaps/hw4/AStarSolver.java:112-118 | following edgeTo from a vertex with a distance meets only vertices with a distance |
| AStar.BrokenWalkHasNoDistance | proj2c/bearmaps/hw4/AStarSolver.java:112-118 | a walk back that reaches a vertex without predecessor, never meeting start, began at a vertex without distance |
| AStar.PathsKeepDistances | proj2c/bearmaps/hw4/AStarSolver.java:33-41 | when every vertex with a distance has been removed and expanded and end has no distance, every path of graph edges from start stays among the vertices with a distance |
| AStar.EndUnreachable | proj2c/bearmaps/hw4/AStarSolver.java:33-42 | a search that emptied its queue without giving end a distance leaves end unreachable from start |
| AStar.WalkVerdict | proj2c/bearmaps/hw4/AStarSolver.java:44-50 | once the loop has stopped on its own, a broken walk back means end has no distance and is unreachable; a found path means end has a distance and is reachable |
| AStar.LinkedPathWeight | proj2c/bearmaps/hw4/AStarSolver.java:99-101 | a path along edgeTo follows graph edges, and its end's distance is at least its start's plus their weights |
| MapPQ.DoubleMapPQ.Add | proj2c/bearmaps/hw4/AStarSolver.java:107 | the queue gains v at the given priority and nothing else changes |
| MapPQ.DoubleMapPQ.ChangePriority | proj2c/bearmaps/hw4/AStarSolver.java:105 | v's priority becomes the given one and nothing else changes |
| MapPQ.DoubleMapPQ.RemoveSmallest | proj2c/bearmaps/hw4/AStarSolver.java:34 | returns an item of least priority and removes it |
| MapPQ.LeastExists | proj2c/bearmaps/hw4/AStarSolver.java:34 | a non-empty queue has an item of least priority |
| TrieSet.MyTrieSet.constructor | proj2c/bearmaps/MyTrieSet.java:18-20 | a lone root that is not a key: no keys stored |
| TrieSet.MyTrieSet.Clear | proj2c/bearmaps/MyTrieSet.java:26-28 | a fresh root replaces the trie: no key is left |
| TrieSet.MyTrieSet.Add | proj2c/bearmaps/MyTrieSet.java:48-61 | the empty key changes nothing; otherwise the keys become the old keys plus key, so adding twice is adding once and nothing is removed |
| TrieSet.MyTrieSet.ColHelper | proj2c/bearmaps/MyTrieSet.java:90-100 | appends exactly the keys at and below the node |
| TrieSet.MyTrieSet.Collection | proj2c/bearmaps/MyTrieSet.java:84-88 | lists exactly the stored keys |
| TrieSet.MyTrieSet.Contains | proj2c/bearmaps/MyTrieSet.java:34-42 | true exactly for a stored key |
| TrieSet.MyTrieSet.KeysWithPrefix | proj2c/bearmaps/MyTrieSet.java:67-82 | exactly the stored keys that strictly extend the prefix; empty when the walk along the prefix falls off the trie |
| TrieSet.MyTrieSet.PrefixKeys | proj2c/bearmaps/MyTrieSet.java:75-77 | the keys below the prefix's node through its children are the stored keys strictly extending the prefix |
| TrieSet.MyTrieSet.LongestPrefixOf | proj2c/bearmaps/MyTrieSet.java:108-120 | as written: always returns key |
| TrieSet.MyTrieSet.LongestPrefixOfFixed | proj2c/bearmaps/MyTrieSet.java:108-120 | corrected: the longest prefix of key that is a stored key, or the empty string when none is |
| TrieSet.LongestPrefixCounterexample | proj2c/bearmaps/MyTrieSet.java:108-120 | with "a" stored, the longest stored prefix of "ab" is "a", not "ab" |
| TrieSet.PrefixIsNode | proj2c/bearmaps/MyTrieSet.java:52-59 | every prefix of a node's string is some node's string, since add creates the nodes along the key one by one |
| TrieSet.AddChildKeepsInv | proj2c/bearmaps/MyTrieSet.java:55-57 | hanging a new non-key node under a missing character keeps the tree shape and the stored keys |
| TrieSet.MarkKeyAdds | proj2c/bearmaps/MyTrieSet.java:60 | flagging the last node adds exactly its string to the keys |

## Left out

- Integers are unbounded: `size`, `capacity`, the doubled capacity of `resize` and `numStatesExplored` do not wrap around at 32 bits.
- Priorities, coordinates, distances, weights and times are exact reals rather than IEEE doubles. `Double.compare`'s NaN and signed-zero cases are not modelled.
- ArrayHeap.ArrayHeapMinPQ.RemoveSmallest: on an empty heap Java sets size to -1 and then throws a NullPointerException. The model returns None and changes nothing.
- ArrayHeap.ArrayHeapMinPQ.constructor: the capacity is a `nat`. Java takes any int: -1 gives a zero-length array, and anything below -1 throws NegativeArraySizeException.
- ArrayHeap.ArrayHeapMinPQ.Add: with capacity 0, Java writes past the end of the array and throws. The model refuses the add and changes nothing.
- Null items and null priority nodes inside the heap are not modelled. Slots are `Option`s, and only slot 0 and the slots above size are None.
- `put(null)` is modelled as `Put(None)`, which is refused. A null point inside the list given to a constructor is not modelled.
- KdTreeSearch.KdTree.Nearest: Java dereferences the null root of an empty tree. The model answers None.
- KdTreeSearch.KdTree.NearestInefficient: Java reads `root.point` of an empty tree and throws a NullPointerException. The model answers None.
- The `Stopwatch` is not modelled: the elapsed time is a parameter of the solver's constructor.
- The graph is not modelled as an object: `neighbors` and the heuristic `estimatedDistanceToGoal` are function parameters. Edge weights are non-negative by precondition.
- `DoubleMapPQ` is not part of this model. MapPQ.DoubleMapPQ stands in for it as a map from item to priority. Which of several least items it removes is left open.
- AStar.AStarSolver.constructor: fuel bounds the search loop and the walk back along edgeTo. When either runs out, the outcome stays None, Java's initial null. In Java both end: weights are non-negative and an edgeTo entry changes only on a strict improvement, so edgeTo never forms a cycle. The model does not prove this acyclicity and relies on fuel instead.
- An unset `distTo` entry is absent from the map and means +∞. Java stores `POSITIVE_INFINITY` before comparing; the observable results are the same.
- AStar.AStarSolver.Relax: updates the queue before writing distTo and edgeTo. The queue reads only the new distance, so the final state is the one Java reaches.
- The solver's accessors `outcome()`, `solution()`, `numStatesExplored()` and `explorationTime()` return fields unchanged. They are read as fields, not modelled as members.
- Vertex order (`TreeMap`) is not modelled. The maps are unordered, which does not change any result.
- TrieSet: the trie's nodes are indices into sequences (`isKey`, `next`) rather than separate objects. Aliasing between nodes cannot arise in the Java code either.
- TrieSet.MyTrieSet.ColHelper: appending to the list passed in is modelled as returning the appended strings, which the caller concatenates. The order of the keys, which depends on `HashMap` iteration, is left open. Contracts speak of the set of listed strings.
- Null keys and prefixes are not modelled. In Java, `add(null)` does nothing and `contains(null)` answers false, because no listed key equals null. `keysWithPrefix(null)` answers an empty list, because it catches its own NullPointerException. Only `longestPrefixOf(null)` throws.
- The unused node accessors `splitVertically()` and `getDepth()`, and the demo `main` methods, are not modelled.

## Findings

| source | as written | input that shows it | evidently intended | confidence | as-written member | corrected member |
|---|---|---|---|---|---|---|
| proj2ab/bearmaps/ArrayHeapMinPQ.java:172 | `sink` compares `items[k]` with `items[j + 1]` instead of with the chosen child `items[j]` | priorities 1,2,9,3,4: removeSmallest moves 4 to the root; sink compares 4 with 9, stops, and leaves 4 above 2 | compare with `items[j]`, so heap order is restored | high, not executed | ArrayHeapSpec.SinkAsWrittenBreaksHeapOrder | ArrayHeapSpec.SinkFixedRestoresHeap |
| proj2ab/bearmaps/ArrayHeapMinPQ.java:56 | `getSmallest` throws when `size <= 1` | a heap holding one item: getSmallest throws "PQ is empty" | throw only when `size == 0` | high, not executed | ArrayHeap.ArrayHeapMinPQ.GetSmallest | ArrayHeap.ArrayHeapMinPQ.GetSmallestFixed |
| proj2c/bearmaps/MyTrieSet.java:108-120 | `longestPrefixOf` returns `key` on every path: the `break` and the loop's end both reach `return key` | trie holding "a", key "ab": returns "ab" | the longest prefix of key that is a stored key ("a") | medium, not executed | TrieSet.MyTrieSet.LongestPrefixOf | TrieSet.MyTrieSet.LongestPrefixOfFixed |
