/**
 * The scene graph as a tree of values, with its depth-first pre-order
 * enumeration and the path (list of child indices) of every node in it.
 */
module SceneGraph {

  /** A scene-graph node: its identity, its animation actions and its children in list order. */
  datatype Node = Node(id: nat, actions: seq<string>, children: seq<Node>)

  /** A node is animated when its `actions` list is non-empty. */
  predicate HasActions(n: Node)
  {
    |n.actions| > 0
  }

  /** The position of a node below a root: the child index taken at each level. */
  type Path = seq<nat>

  predicate ValidPath(t: Node, p: Path)
    decreases p
  {
    p == [] || (p[0] < |t.children| && ValidPath(t.children[p[0]], p[1..]))
  }

  /** The node found by following `p` down from `t`. */
  function At(t: Node, p: Path): Node
    requires ValidPath(t, p)
    decreases p
  {
    if p == [] then t else At(t.children[p[0]], p[1..])
  }

  /** Every node of the tree, depth-first, each node before its descendants, children in list order. */
  function Subtrees(t: Node): seq<Node>
    decreases t
  {
    [t] + ForestSubtrees(t.children)
  }

  function ForestSubtrees(ts: seq<Node>): seq<Node>
    decreases ts
  {
    if ts == [] then [] else ForestSubtrees(ts[..|ts| - 1]) + Subtrees(ts[|ts| - 1])
  }

  /** `ps` with child index `k` put in front of every path. */
  function Prefixed(k: nat, ps: seq<Path>): (r: seq<Path>)
    ensures |r| == |ps|
    ensures forall i :: 0 <= i < |r| ==> |r[i]| > 0 && r[i][0] == k && r[i][1..] == ps[i]
  {
    seq(|ps|, i requires 0 <= i < |ps| => [k] + ps[i])
  }

  /** The paths of the nodes of `t`, in the same order as `Subtrees(t)`. */
  function Paths(t: Node): seq<Path>
    decreases t
  {
    [[]] + ForestPaths(t.children)
  }

  function ForestPaths(ts: seq<Node>): seq<Path>
    decreases ts
  {
    if ts == [] then [] else ForestPaths(ts[..|ts| - 1]) + Prefixed(|ts| - 1, Paths(ts[|ts| - 1]))
  }

  /** Lexicographic order on paths: a proper prefix comes first, otherwise the first differing index decides. */
  predicate LexLess(p: Path, q: Path)
    decreases p
  {
    |q| > 0 && (|p| == 0 || p[0] < q[0] || (p[0] == q[0] && LexLess(p[1..], q[1..])))
  }

  predicate StrictlyIncreasing(ps: seq<Path>)
  {
    forall i, j :: 0 <= i < j < |ps| ==> LexLess(ps[i], ps[j])
  }

  // ---------------------------------------------------------------- the order

  lemma {:induction false} LexLessAsymmetric(p: Path, q: Path)
    ensures LexLess(p, q) ==> !LexLess(q, p)
    decreases p
  {
    if |p| > 0 && |q| > 0 && p[0] == q[0] {
      LexLessAsymmetric(p[1..], q[1..]);
    }
  }

  /** An ancestor's path comes before the path of each of its descendants. */
  lemma {:induction false} AncestorBeforeDescendant(p: Path, q: Path)
    requires q != []
    ensures LexLess(p, p + q)
    decreases p
  {
    if p != [] {
      assert (p + q)[1..] == p[1..] + q;
      AncestorBeforeDescendant(p[1..], q);
    }
  }

  /** Below a common ancestor, everything under an earlier child comes before everything under a later one. */
  lemma {:induction false} EarlierSiblingFirst(p: Path, a: nat, b: nat, r: Path, s: Path)
    requires a < b
    ensures LexLess(p + [a] + r, p + [b] + s)
    decreases p
  {
    if p != [] {
      assert (p + [a] + r)[1..] == p[1..] + [a] + r;
      assert (p + [b] + s)[1..] == p[1..] + [b] + s;
      EarlierSiblingFirst(p[1..], a, b, r, s);
    }
  }

  lemma PrefixedIncreasing(k: nat, ps: seq<Path>)
    requires StrictlyIncreasing(ps)
    ensures StrictlyIncreasing(Prefixed(k, ps))
  {
    var r := Prefixed(k, ps);
    forall i, j | 0 <= i < j < |r| ensures LexLess(r[i], r[j]) {
      assert LexLess(ps[i], ps[j]);
    }
  }

  lemma ConcatIncreasing(a: seq<Path>, b: seq<Path>)
    requires StrictlyIncreasing(a) && StrictlyIncreasing(b)
    requires forall x, y :: x in a && y in b ==> LexLess(x, y)
    ensures StrictlyIncreasing(a + b)
  {
    var c := a + b;
    forall i, j | 0 <= i < j < |c| ensures LexLess(c[i], c[j]) {
      if j < |a| {
        assert c[i] == a[i] && c[j] == a[j];
      } else if i >= |a| {
        assert c[i] == b[i - |a|] && c[j] == b[j - |a|];
      } else {
        assert c[i] in a && c[j] in b;
      }
    }
  }

  /** The paths of a tree are listed in strictly increasing lexicographic order. */
  lemma {:induction false} PathsIncreasing(t: Node)
    ensures StrictlyIncreasing(Paths(t))
    decreases t, 1
  {
    ForestPathsIncreasing(t.children);
    forall y | y in ForestPaths(t.children) ensures LexLess([], y) {
      ForestPathsShape(t.children);
    }
    ConcatIncreasing([[]], ForestPaths(t.children));
  }

  lemma {:induction false} ForestPathsIncreasing(ts: seq<Node>)
    ensures StrictlyIncreasing(ForestPaths(ts))
    decreases ts, 0
  {
    if ts != [] {
      var n := |ts| - 1;
      ForestPathsIncreasing(ts[..n]);
      PathsIncreasing(ts[n]);
      PrefixedIncreasing(n, Paths(ts[n]));
      ForestPathsShape(ts[..n]);
      ConcatIncreasing(ForestPaths(ts[..n]), Prefixed(n, Paths(ts[n])));
    }
  }

  /** Every path under a forest starts with the index of one of its trees. */
  lemma {:induction false} ForestPathsShape(ts: seq<Node>)
    ensures forall p :: p in ForestPaths(ts) ==> |p| > 0 && p[0] < |ts|
    decreases ts
  {
    if ts != [] {
      ForestPathsShape(ts[..|ts| - 1]);
    }
  }

  // ------------------------------------------------ paths enumerate the nodes

  /** `Paths(t)` lists exactly the positions of `Subtrees(t)`: the i-th path leads to the i-th node. */
  lemma {:induction false} PathsLocateSubtrees(t: Node)
    ensures |Paths(t)| == |Subtrees(t)|
    ensures forall i :: 0 <= i < |Paths(t)| ==> ValidPath(t, Paths(t)[i]) && At(t, Paths(t)[i]) == Subtrees(t)[i]
    decreases t, 1
  {
    ForestPathsLocate(t.children);
    forall i | 0 <= i < |Paths(t)| ensures ValidPath(t, Paths(t)[i]) && At(t, Paths(t)[i]) == Subtrees(t)[i] {
      if i > 0 {
        assert Paths(t)[i] == ForestPaths(t.children)[i - 1];
        assert Subtrees(t)[i] == ForestSubtrees(t.children)[i - 1];
      }
    }
  }

  lemma {:induction false} ForestPathsLocate(ts: seq<Node>)
    ensures |ForestPaths(ts)| == |ForestSubtrees(ts)|
    ensures forall i :: 0 <= i < |ForestPaths(ts)| ==>
      var p := ForestPaths(ts)[i];
      |p| > 0 && p[0] < |ts| && ValidPath(ts[p[0]], p[1..]) && At(ts[p[0]], p[1..]) == ForestSubtrees(ts)[i]
    decreases ts, 0
  {
    if ts != [] {
      var n := |ts| - 1;
      var front := ts[..n];
      ForestPathsLocate(front);
      PathsLocateSubtrees(ts[n]);
      var m := |ForestPaths(front)|;
      forall i | 0 <= i < |ForestPaths(ts)|
        ensures var p := ForestPaths(ts)[i];
          |p| > 0 && p[0] < |ts| && ValidPath(ts[p[0]], p[1..]) && At(ts[p[0]], p[1..]) == ForestSubtrees(ts)[i]
      {
        if i < m {
          var p := ForestPaths(front)[i];
          assert ForestPaths(ts)[i] == p;
          assert ForestSubtrees(ts)[i] == ForestSubtrees(front)[i];
          assert front[p[0]] == ts[p[0]];
        } else {
          assert ForestPaths(ts)[i] == Prefixed(n, Paths(ts[n]))[i - m];
          assert ForestSubtrees(ts)[i] == Subtrees(ts[n])[i - m];
        }
      }
    }
  }

  /** Every node of the tree is listed: a valid path is one of `Paths(t)`. */
  lemma {:induction false} PathsComplete(t: Node, p: Path)
    requires ValidPath(t, p)
    ensures p in Paths(t)
    decreases t, 1
  {
    if p != [] {
      ForestPathsComplete(t.children, p);
    }
  }

  lemma {:induction false} ForestPathsComplete(ts: seq<Node>, p: Path)
    requires |p| > 0 && p[0] < |ts| && ValidPath(ts[p[0]], p[1..])
    ensures p in ForestPaths(ts)
    decreases ts, 0
  {
    var n := |ts| - 1;
    if p[0] == n {
      PathsComplete(ts[n], p[1..]);
      var k :| 0 <= k < |Paths(ts[n])| && Paths(ts[n])[k] == p[1..];
      assert Prefixed(n, Paths(ts[n]))[k] == p;
    } else {
      assert ts[..n][p[0]] == ts[p[0]];
      ForestPathsComplete(ts[..n], p);
    }
  }

  /**
   * Pre-order positions: when one listed path comes lexicographically before
   * another, its node is listed first (with AncestorBeforeDescendant and
   * EarlierSiblingFirst: ancestors before descendants, children in list order).
   */
  lemma PreorderPosition(t: Node, i: nat, j: nat)
    requires i < |Paths(t)| && j < |Paths(t)|
    requires LexLess(Paths(t)[i], Paths(t)[j])
    ensures i < j
  {
    PathsIncreasing(t);
    LexLessAsymmetric(Paths(t)[i], Paths(t)[j]);
  }
}
