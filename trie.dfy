/** MyTrieSet: a character trie holding a set of non-empty strings. The Java Node objects
    live here in an arena: node k has the flag isKey[k] and the child map next[k] from a
    character to the index of the child node, and node 0 is the root. A ghost Shape records,
    for each node, the string spelled from the root to it and the node above it. */
module TrieSet {

  /** path[k]: the string of node k; parent[k]: the node above k; index: path inverted. */
  datatype Shape = Shape(path: seq<string>, parent: seq<nat>, index: map<string, nat>)

  /** The arena is a tree rooted at node 0 whose edges spell the paths: every child index
      exceeds its parent's, every node other than the root hangs off its parent by the
      last character of its string, and index maps each node's string back to the node, so
      no two nodes spell the same string. */
  ghost predicate TrieInv(isKey: seq<bool>, next: seq<map<char, int>>, sh: Shape) {
    |isKey| == |next| == |sh.path| == |sh.parent| > 0 &&
    sh.path[0] == [] && !isKey[0] &&
    EdgesSpell(next, sh.path) && HangsOffParent(next, sh.path, sh.parent) && Indexed(sh.path, sh.index)
  }

  /** The child of n under c has a larger index and spells n's string followed by c. */
  ghost predicate EdgesSpell(next: seq<map<char, int>>, path: seq<string>)
    requires |next| == |path|
  {
    forall n, c {:trigger next[n][c]} :: 0 <= n < |next| && c in next[n] ==>
      n < next[n][c] < |next| && path[next[n][c]] == path[n] + [c]
  }

  /** Each node other than the root is its parent's child under its string's last character. */
  ghost predicate HangsOffParent(next: seq<map<char, int>>, path: seq<string>, parent: seq<nat>)
    requires |next| == |path| == |parent|
  {
    forall m {:trigger parent[m]} :: 0 < m < |path| ==>
      parent[m] < m && |path[m]| > 0 && path[parent[m]] == path[m][..|path[m]| - 1] &&
      path[m][|path[m]| - 1] in next[parent[m]] && next[parent[m]][path[m][|path[m]| - 1]] == m
  }

  ghost predicate Indexed(path: seq<string>, index: map<string, nat>) {
    forall k {:trigger path[k]} :: 0 <= k < |path| ==> path[k] in index && index[path[k]] == k
  }

  /** The strings of the nodes whose isKey is set. */
  ghost function KeysOf(isKey: seq<bool>, path: seq<string>): set<string> {
    set k | 0 <= k < |path| && k < |isKey| && isKey[k] :: path[k]
  }

  /** The keys at or below node n. */
  ghost function Below(isKey: seq<bool>, path: seq<string>, n: nat): set<string>
    requires n < |path|
  {
    set k | 0 <= k < |path| && k < |isKey| && isKey[k] && path[n] <= path[k] :: path[k]
  }

  /** The keys strictly below node n whose first character past n's string is in d. */
  ghost function BelowVia(isKey: seq<bool>, path: seq<string>, n: nat, d: set<char>): set<string>
    requires n < |path|
  {
    set k | 0 <= k < |path| && k < |isKey| && isKey[k] && path[n] < path[k] && path[k][|path[n]|] in d :: path[k]
  }

  /** The strings a list holds. */
  ghost function Elems(s: seq<string>): set<string> {
    set t | t in s
  }

  lemma ElemsAppend(a: seq<string>, b: seq<string>)
    ensures Elems(a + b) == Elems(a) + Elems(b)
  {
  }

  lemma BelowViaUnion(isKey: seq<bool>, path: seq<string>, n: nat, d: set<char>, c: char)
    requires n < |path|
    ensures BelowVia(isKey, path, n, d + {c}) == BelowVia(isKey, path, n, d) + BelowVia(isKey, path, n, {c})
  {
  }

  /** Moving one item from the unvisited to the visited part of all. */
  lemma VisitOne<T>(all: set<T>, todo: set<T>, done: set<T>, c: T)
    requires c in todo && todo <= all && done == all - todo
    ensures todo - {c} <= all && done + {c} == all - (todo - {c})
  {
  }

  /** What colHelper has gathered at node n once it has visited the children under d. */
  ghost function Gathered(isKey: seq<bool>, path: seq<string>, n: nat, d: set<char>): set<string>
    requires n < |path| && n < |isKey|
  {
    (if isKey[n] then {path[n]} else {}) + BelowVia(isKey, path, n, d)
  }

  /** One child's keys appended to those gathered so far. */
  lemma CollectStep(isKey: seq<bool>, path: seq<string>, n: nat, done: set<char>, c: char,
                    added: seq<string>, more: seq<string>)
    requires n < |path| && n < |isKey|
    requires Elems(added) == Gathered(isKey, path, n, done)
    requires Elems(more) == BelowVia(isKey, path, n, {c})
    ensures Elems(added + more) == Gathered(isKey, path, n, done + {c})
  {
    ElemsAppend(added, more);
    BelowViaUnion(isKey, path, n, done, c);
  }

  /** Every prefix of a node's string is the string of some node. */
  lemma {:induction false} PrefixIsNode(isKey: seq<bool>, next: seq<map<char, int>>, sh: Shape, m: nat, j: nat)
    returns (k: nat)
    requires TrieInv(isKey, next, sh)
    requires m < |sh.path| && j <= |sh.path[m]|
    ensures k < |sh.path| && sh.path[k] == sh.path[m][..j]
    decreases m
  {
    if j == |sh.path[m]| {
      k := m;
    } else {
      assert m != 0;
      var p := sh.parent[m];
      assert sh.path[p] == sh.path[m][..|sh.path[m]| - 1];
      k := PrefixIsNode(isKey, next, sh, p, j);
    }
  }

  /** A node whose string extends node n's by c is the child of n under c. */
  lemma ChildEdge(isKey: seq<bool>, next: seq<map<char, int>>, sh: Shape, n: nat, m: nat, c: char)
    requires TrieInv(isKey, next, sh)
    requires n < |sh.path| && m < |sh.path| && sh.path[m] == sh.path[n] + [c]
    ensures c in next[n] && next[n][c] == m
  {
    assert m != 0;
    var p := sh.parent[m];
    assert sh.path[p] == sh.path[m][..|sh.path[m]| - 1] == sh.path[n];
    assert p == sh.index[sh.path[p]] == sh.index[sh.path[n]] == n;
  }

  /** The node whose string is t, when there is one. */
  lemma NodeOf(isKey: seq<bool>, next: seq<map<char, int>>, sh: Shape, k: nat, j: nat)
    requires TrieInv(isKey, next, sh)
    requires k < |sh.path| && j < |sh.path| && sh.path[k] == sh.path[j]
    ensures k == j
  {
    assert sh.index[sh.path[k]] == k && sh.index[sh.path[j]] == j;
  }

  /** A string that is no node's string has no stored key extending it. */
  lemma NoNodeNoKeys(isKey: seq<bool>, next: seq<map<char, int>>, sh: Shape, t: string)
    requires TrieInv(isKey, next, sh)
    requires forall k :: 0 <= k < |sh.path| ==> sh.path[k] != t
    ensures forall u :: u in KeysOf(isKey, sh.path) ==> !(t <= u)
  {
    forall u | u in KeysOf(isKey, sh.path) && t <= u
      ensures false
    {
      var k :| 0 <= k < |sh.path| && k < |isKey| && isKey[k] && sh.path[k] == u;
      var k' := PrefixIsNode(isKey, next, sh, k, |t|);
    }
  }

  /** Node n's keys are its own string when flagged, and the keys below its children. */
  lemma BelowSplits(isKey: seq<bool>, next: seq<map<char, int>>, sh: Shape, n: nat)
    requires TrieInv(isKey, next, sh) && n < |sh.path|
    ensures Below(isKey, sh.path, n) == Gathered(isKey, sh.path, n, next[n].Keys)
  {
    var path := sh.path;
    forall u | u in Below(isKey, path, n)
      ensures u in (if isKey[n] then {path[n]} else {}) + BelowVia(isKey, path, n, next[n].Keys)
    {
      var k :| 0 <= k < |path| && k < |isKey| && isKey[k] && path[n] <= path[k] && path[k] == u;
      if path[k] == path[n] {
        NodeOf(isKey, next, sh, k, n);
      } else {
        var c := path[k][|path[n]|];
        var m := PrefixIsNode(isKey, next, sh, k, |path[n]| + 1);
        assert path[m] == path[n] + [c];
        ChildEdge(isKey, next, sh, n, m, c);
      }
    }
  }

  /** The keys below the child under c are those below n through c. */
  lemma BelowChild(isKey: seq<bool>, next: seq<map<char, int>>, sh: Shape, n: nat, c: char)
    requires TrieInv(isKey, next, sh) && n < |sh.path| && c in next[n]
    ensures 0 <= next[n][c] < |sh.path| && sh.path[next[n][c]] == sh.path[n] + [c]
    ensures Below(isKey, sh.path, next[n][c]) == BelowVia(isKey, sh.path, n, {c})
  {
    var path := sh.path;
    var m := next[n][c];
    assert path[m] == path[n] + [c];
    forall u | u in Below(isKey, path, m)
      ensures u in BelowVia(isKey, path, n, {c})
    {
      var k :| 0 <= k < |path| && k < |isKey| && isKey[k] && path[m] <= path[k] && path[k] == u;
      assert path[k][|path[n]|] == path[m][|path[n]|];
    }
    forall u | u in BelowVia(isKey, path, n, {c})
      ensures u in Below(isKey, path, m)
    {
      var k :| 0 <= k < |path| && k < |isKey| && isKey[k] && path[n] < path[k] && path[k][|path[n]|] in {c} && path[k] == u;
      assert path[k][..|path[n]| + 1] == path[n] + [c];
    }
  }

  /** The shape after hanging a new node under cur by c. */
  ghost function Grow(sh: Shape, cur: nat, c: char): Shape
    requires cur < |sh.path|
  {
    Shape(sh.path + [sh.path[cur] + [c]], sh.parent + [cur], sh.index[sh.path[cur] + [c] := |sh.path|])
  }

  /** Hanging a fresh node under cur by a character cur has no child for keeps the tree and
      the keys. */
  lemma AddChildKeepsInv(isKey: seq<bool>, next: seq<map<char, int>>, sh: Shape, cur: nat, c: char)
    requires TrieInv(isKey, next, sh) && cur < |next| && c !in next[cur]
    ensures TrieInv(isKey + [false], next[cur := next[cur][c := |next|]] + [map[]], Grow(sh, cur, c))
    ensures KeysOf(isKey + [false], Grow(sh, cur, c).path) == KeysOf(isKey, sh.path)
  {
    GrowEdges(next, sh, cur, c);
    GrowParents(isKey, next, sh, cur, c);
    GrowIndex(isKey, next, sh, cur, c);
    GrowKeys(isKey, sh.path, sh.path[cur] + [c]);
  }

  lemma GrowEdges(next: seq<map<char, int>>, sh: Shape, cur: nat, c: char)
    requires |next| == |sh.path| && EdgesSpell(next, sh.path) && cur < |next| && c !in next[cur]
    ensures EdgesSpell(next[cur := next[cur][c := |next|]] + [map[]], Grow(sh, cur, c).path)
  {
    var N := |next|;
    var next' := next[cur := next[cur][c := N]] + [map[]];
    var path' := Grow(sh, cur, c).path;
    forall n, d | 0 <= n < |next'| && d in next'[n]
      ensures n < next'[n][d] < |next'| && path'[next'[n][d]] == path'[n] + [d]
    {
      if n != cur || d != c {
        assert d in next[n] && next'[n][d] == next[n][d];
      }
    }
  }

  lemma GrowParents(isKey: seq<bool>, next: seq<map<char, int>>, sh: Shape, cur: nat, c: char)
    requires TrieInv(isKey, next, sh) && cur < |next| && c !in next[cur]
    ensures HangsOffParent(next[cur := next[cur][c := |next|]] + [map[]], Grow(sh, cur, c).path, Grow(sh, cur, c).parent)
  {
    var N := |next|;
    var next' := next[cur := next[cur][c := N]] + [map[]];
    var path', parent' := Grow(sh, cur, c).path, Grow(sh, cur, c).parent;
    forall m | 0 < m < |path'|
      ensures parent'[m] < m && |path'[m]| > 0 && path'[parent'[m]] == path'[m][..|path'[m]| - 1] &&
              path'[m][|path'[m]| - 1] in next'[parent'[m]] && next'[parent'[m]][path'[m][|path'[m]| - 1]] == m
    {
      if m == N {
        assert path'[m][..|path'[m]| - 1] == sh.path[cur];
      } else {
        assert sh.parent[m] == parent'[m];
      }
    }
  }

  lemma GrowIndex(isKey: seq<bool>, next: seq<map<char, int>>, sh: Shape, cur: nat, c: char)
    requires TrieInv(isKey, next, sh) && cur < |next| && c !in next[cur]
    ensures Indexed(Grow(sh, cur, c).path, Grow(sh, cur, c).index)
  {
    var sh' := Grow(sh, cur, c);
    forall k | 0 <= k < |sh'.path|
      ensures sh'.path[k] in sh'.index && sh'.index[sh'.path[k]] == k
    {
      if k < |sh.path| && sh.path[k] == sh.path[cur] + [c] {
        ChildEdge(isKey, next, sh, cur, k, c);
      }
    }
  }

  /** A new node that is not a key adds no key. */
  lemma GrowKeys(isKey: seq<bool>, path: seq<string>, t: string)
    requires |isKey| == |path|
    ensures KeysOf(isKey + [false], path + [t]) == KeysOf(isKey, path)
  {
    forall u | u in KeysOf(isKey + [false], path + [t]) ensures u in KeysOf(isKey, path) {
      var k :| 0 <= k < |path| + 1 && k < |isKey| + 1 && (isKey + [false])[k] && (path + [t])[k] == u;
      assert k < |path| && isKey[k] && path[k] == u;
    }
    forall u | u in KeysOf(isKey, path) ensures u in KeysOf(isKey + [false], path + [t]) {
      var k :| 0 <= k < |path| && k < |isKey| && isKey[k] && path[k] == u;
      assert (isKey + [false])[k] && (path + [t])[k] == u;
    }
  }

  /** Setting the flag of a node other than the root keeps the tree and adds its string. */
  lemma MarkKeyAdds(isKey: seq<bool>, next: seq<map<char, int>>, sh: Shape, cur: nat)
    requires TrieInv(isKey, next, sh) && 0 < cur < |sh.path|
    ensures TrieInv(isKey[cur := true], next, sh)
    ensures KeysOf(isKey[cur := true], sh.path) == KeysOf(isKey, sh.path) + {sh.path[cur]}
  {
    var isKey' := isKey[cur := true];
    forall u | u in KeysOf(isKey', sh.path) ensures u in KeysOf(isKey, sh.path) + {sh.path[cur]} {
      var k :| 0 <= k < |sh.path| && k < |isKey'| && isKey'[k] && sh.path[k] == u;
      if k != cur {
        assert isKey[k];
      }
    }
  }

  /** Node k's string is a key exactly when k's flag is set. */
  lemma KeyAtNode(isKey: seq<bool>, next: seq<map<char, int>>, sh: Shape, k: nat)
    requires TrieInv(isKey, next, sh) && k < |sh.path|
    ensures sh.path[k] in KeysOf(isKey, sh.path) <==> isKey[k]
  {
    if sh.path[k] in KeysOf(isKey, sh.path) {
      var j :| 0 <= j < |sh.path| && j < |isKey| && isKey[j] && sh.path[j] == sh.path[k];
      NodeOf(isKey, next, sh, j, k);
    }
  }

  /** The longest prefix of key that is a stored key, or the empty string when there is none. */
  ghost predicate LongestKeyPrefix(keys: set<string>, key: string, r: string) {
    r <= key && (r in keys || r == []) &&
    forall j :: |r| < j <= |key| ==> key[..j] !in keys
  }

  /** With "a" stored, the longest stored prefix of "ab" is "a", and "ab" itself is not. */
  lemma LongestPrefixCounterexample()
    ensures LongestKeyPrefix({"a"}, "ab", "a")
    ensures !LongestKeyPrefix({"a"}, "ab", "ab")
  {
    assert "ab"[..1] == "a";
    assert "ab"[..2] == "ab";
  }

  class MyTrieSet {
    var isKey: seq<bool>
    var next: seq<map<char, int>>
    ghost var shape: Shape

    ghost predicate Valid()
      reads this
    {
      TrieInv(isKey, next, shape)
    }

    /** The stored keys. */
    ghost function Keys(): set<string>
      reads this
    {
      KeysOf(isKey, shape.path)
    }

    /** A new trie is a lone root that is not a key. */
    constructor ()
      ensures Valid() && Keys() == {}
    {
      isKey, next, shape := [false], [map[]], Shape([[]], [0], map[[] := 0]);
    }

    /** clear: a fresh root replaces the trie, so no key is left. */
    method Clear()
      modifies this
      ensures Valid() && Keys() == {}
    {
      isKey, next, shape := [false], [map[]], Shape([[]], [0], map[[] := 0]);
    }

    /** add: the empty key is ignored; otherwise the walk from the root creates each missing
        node along key and flags the last one. */
    method Add(key: string)
      requires Valid()
      modifies this
      ensures Valid()
      ensures Keys() == if |key| == 0 then old(Keys()) else old(Keys()) + {key}
    {
      if |key| < 1 {
        return;
      }
      var cur: nat := 0;
      for i := 0 to |key|
        invariant Valid() && cur < |next| && shape.path[cur] == key[..i]
        invariant Keys() == old(Keys())
      {
        var c := key[i];
        if c !in next[cur] {
          AddChildKeepsInv(isKey, next, shape, cur, c);
          var node := |next|;
          isKey, next := isKey + [false], next[cur := next[cur][c := node]] + [map[]];
          shape := Grow(shape, cur, c);
        }
        cur := next[cur][c];
        assert key[..i + 1] == key[..i] + [c];
      }
      assert key[..|key|] == key;
      MarkKeyAdds(isKey, next, shape, cur);
      isKey := isKey[cur := true];
    }

    /** colHelper: the strings it appends to its list argument, namely the keys at and
        below node n, whose string is s, with the children visited in any order. */
    method ColHelper(s: string, n: nat) returns (found: seq<string>)
      requires Valid() && n < |shape.path| && shape.path[n] == s
      ensures Elems(found) == Below(isKey, shape.path, n)
      decreases |shape.path| - n
    {
      found := [];
      if isKey[n] {
        found := found + [s];
      }
      var todo := next[n].Keys;
      ghost var done: set<char> := {};
      while todo != {}
        invariant todo <= next[n].Keys && done == next[n].Keys - todo
        invariant Elems(found) == Gathered(isKey, shape.path, n, done)
        decreases |todo|
      {
        var c :| c in todo;
        BelowChild(isKey, next, shape, n, c);
        var more := ColHelper(s + [c], next[n][c]);
        CollectStep(isKey, shape.path, n, done, c, found, more);
        found := found + more;
        VisitOne(next[n].Keys, todo, done, c);
        todo, done := todo - {c}, done + {c};
      }
      BelowSplits(isKey, next, shape, n);
    }

    /** collection: the list colHelper builds from the root, holding every stored key. */
    method Collection() returns (r: seq<string>)
      requires Valid()
      ensures Elems(r) == Keys()
    {
      r := ColHelper([], 0);
      assert Below(isKey, shape.path, 0) == Keys();
    }

    /** contains: scans the collection for an equal string. */
    method Contains(key: string) returns (b: bool)
      requires Valid()
      ensures b <==> key in Keys()
    {
      var collection := Collection();
      for i := 0 to |collection|
        invariant forall j :: 0 <= j < i ==> collection[j] != key
      {
        if collection[i] == key {
          return true;
        }
      }
      return false;
    }

    /** keysWithPrefix: the stored keys strictly longer than prefix that start with it; when
        the walk along prefix falls off the trie (a NullPointerException in Java) the list
        is empty. */
    method KeysWithPrefix(prefix: string) returns (r: seq<string>)
      requires Valid()
      ensures Elems(r) == set t | t in Keys() && prefix < t
    {
      var cur: nat := 0;
      for i := 0 to |prefix|
        invariant cur < |next| && shape.path[cur] == prefix[..i]
      {
        var c := prefix[i];
        if c !in next[cur] {
          forall k | 0 <= k < |shape.path| ensures shape.path[k] != prefix {
            if shape.path[k] == prefix {
              var m := PrefixIsNode(isKey, next, shape, k, i + 1);
              assert shape.path[m] == shape.path[cur] + [c];
              ChildEdge(isKey, next, shape, cur, m, c);
            }
          }
          NoNodeNoKeys(isKey, next, shape, prefix);
          return [];
        }
        cur := next[cur][c];
        assert prefix[..i + 1] == prefix[..i] + [c];
      }
      assert prefix[..|prefix|] == prefix;
      r := [];
      var todo := next[cur].Keys;
      ghost var done: set<char> := {};
      while todo != {}
        invariant todo <= next[cur].Keys && done == next[cur].Keys - todo
        invariant Elems(r) == BelowVia(isKey, shape.path, cur, done)
        decreases |todo|
      {
        var c :| c in todo;
        BelowChild(isKey, next, shape, cur, c);
        var more := ColHelper(prefix + [c], next[cur][c]);
        ElemsAppend(r, more);
        r := r + more;
        BelowViaUnion(isKey, shape.path, cur, done, c);
        VisitOne(next[cur].Keys, todo, done, c);
        todo, done := todo - {c}, done + {c};
      }
      PrefixKeys(cur, prefix);
    }

    /** The keys strictly extending node cur's string are those below it through a child. */
    lemma PrefixKeys(cur: nat, prefix: string)
      requires Valid() && cur < |shape.path| && shape.path[cur] == prefix
      ensures BelowVia(isKey, shape.path, cur, next[cur].Keys) == set t | t in Keys() && prefix < t
    {
      BelowSplits(isKey, next, shape, cur);
      forall t | t in Keys() && prefix < t
        ensures t in BelowVia(isKey, shape.path, cur, next[cur].Keys)
      {
        var k :| 0 <= k < |shape.path| && k < |isKey| && isKey[k] && shape.path[k] == t;
        assert t in Below(isKey, shape.path, cur);
      }
    }

    /** longestPrefixOf as written: both the break and the end of the loop fall through to
        return key, so the answer is always key itself. */
    method LongestPrefixOf(key: string) returns (r: string)
      requires Valid()
      ensures r == key
    {
      var i := 0;
      while i < |key|
        invariant 0 <= i <= |key|
      {
        var keys := KeysWithPrefix(key[..i]);
        if |keys| == 0 {
          break;
        }
        i := i + 1;
      }
      r := key;
    }

    /** longestPrefixOf as the interface describes it: walks along key while the trie has
        the next node and remembers the last flagged one. */
    method LongestPrefixOfFixed(key: string) returns (r: string)
      requires Valid()
      ensures LongestKeyPrefix(Keys(), key, r)
    {
      var cur: nat := 0;
      var best := 0;
      var i := 0;
      while i < |key|
        invariant 0 <= best <= i <= |key|
        invariant cur < |next| && shape.path[cur] == key[..i]
        invariant best == 0 || key[..best] in Keys()
        invariant forall j :: best < j <= i ==> key[..j] !in Keys()
      {
        var c := key[i];
        if c !in next[cur] {
          forall j | i < j <= |key| ensures key[..j] !in Keys() {
            if key[..j] in Keys() {
              var k :| 0 <= k < |shape.path| && k < |isKey| && isKey[k] && shape.path[k] == key[..j];
              var m := PrefixIsNode(isKey, next, shape, k, i + 1);
              assert shape.path[m] == shape.path[cur] + [c];
              ChildEdge(isKey, next, shape, cur, m, c);
            }
          }
          break;
        }
        cur := next[cur][c];
        i := i + 1;
        assert key[..i] == key[..i - 1] + [c];
        KeyAtNode(isKey, next, shape, cur);
        if isKey[cur] {
          best := i;
        }
      }
      r := key[..best];
      assert best == 0 ==> r == [];
    }
  }
}
