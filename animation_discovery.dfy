/**
 * Discovery of animated nodes: the recursive walk that pushes every node with
 * a non-empty action list into a shared result array, and what it computes.
 */
module AnimationDiscovery {
  import opened SceneGraph

  /** What the walk appends for the tree `t`: `t` first if it is animated, then each child's tree in list order. */
  function AnimatedPreorder(t: Node): seq<Node>
    decreases t
  {
    (if HasActions(t) then [t] else []) + AnimatedForest(t.children)
  }

  function AnimatedForest(ts: seq<Node>): seq<Node>
    decreases ts
  {
    if ts == [] then [] else AnimatedForest(ts[..|ts| - 1]) + AnimatedPreorder(ts[|ts| - 1])
  }

  /** Reference definition: the animated nodes of a list, kept in their order. */
  function KeepAnimated(s: seq<Node>): (r: seq<Node>)
    ensures |r| <= |s|
    ensures forall x :: x in r <==> x in s && HasActions(x)
  {
    if s == [] then []
    else KeepAnimated(s[..|s| - 1]) + (if HasActions(s[|s| - 1]) then [s[|s| - 1]] else [])
  }

  /** Reference definition on positions: the paths in `ps` that lead to an animated node of `t`. */
  function AnimatedPaths(t: Node, ps: seq<Path>): (r: seq<Path>)
    ensures forall p :: p in r <==> p in ps && ValidPath(t, p) && HasActions(At(t, p))
  {
    if ps == [] then []
    else
      var p := ps[|ps| - 1];
      AnimatedPaths(t, ps[..|ps| - 1]) + (if ValidPath(t, p) && HasActions(At(t, p)) then [p] else [])
  }

  /** The result array the walk appends to. */
  class NodeList {
    var items: seq<Node>

    constructor ()
      ensures items == []
    {
      items := [];
    }

    method Push(n: Node)
      modifies this
      ensures items == old(items) + [n]
    {
      items := items + [n];
    }
  }

  /**
   * The walk with an explicit accumulator: appends the animated nodes of
   * `node`'s tree to `result` and returns that same array.
   */
  method FindObjectsWithAnimationsInto(node: Node, result: NodeList) returns (r: NodeList)
    modifies result
    ensures r == result
    ensures old(result.items) <= result.items
    ensures result.items == old(result.items) + AnimatedPreorder(node)
    decreases node
  {
    if HasActions(node) {
      result.Push(node);
    }
    ghost var afterSelf := result.items;
    var i := 0;
    while i < |node.children|
      invariant 0 <= i <= |node.children|
      invariant result.items == afterSelf + AnimatedForest(node.children[..i])
    {
      var _ := FindObjectsWithAnimationsInto(node.children[i], result);
      assert node.children[..i + 1][..i] == node.children[..i];
      i := i + 1;
    }
    assert node.children[..i] == node.children;
    r := result;
  }

  /** The walk as called without an accumulator: it starts from an empty array. */
  method FindObjectsWithAnimations(scene: Node) returns (found: seq<Node>)
    ensures found == AnimatedPreorder(scene)
  {
    var result := new NodeList();
    var r := FindObjectsWithAnimationsInto(scene, result);
    found := r.items;
  }

  /**
   * Two frames of the render loop on a graph nobody changed in between: the
   * walk does not change the tree, so both frames find the same nodes in the same order.
   */
  method DiscoverOnTwoFrames(scene: Node) returns (first: seq<Node>, second: seq<Node>)
    ensures first == second
    ensures first == AnimatedPreorder(scene)
  {
    first := FindObjectsWithAnimations(scene);
    second := FindObjectsWithAnimations(scene);
  }

  // ------------------------------------------------------------------ lemmas

  lemma {:induction false} KeepAnimatedConcat(a: seq<Node>, b: seq<Node>)
    ensures KeepAnimated(a + b) == KeepAnimated(a) + KeepAnimated(b)
    decreases |b|
  {
    if b != [] {
      var n := |b| - 1;
      assert (a + b)[..|a + b| - 1] == a + b[..n];
      KeepAnimatedConcat(a, b[..n]);
    } else {
      assert a + b == a;
    }
  }

  /** The walk's output is exactly the pre-order listing of the tree, filtered to the animated nodes. */
  lemma {:induction false} AnimatedIsFilteredPreorder(t: Node)
    ensures AnimatedPreorder(t) == KeepAnimated(Subtrees(t))
    decreases t, 1
  {
    AnimatedForestIsFiltered(t.children);
    KeepAnimatedConcat([t], ForestSubtrees(t.children));
    assert KeepAnimated([t]) == (if HasActions(t) then [t] else []) by {
      assert [t][..0] == [];
    }
  }

  lemma {:induction false} AnimatedForestIsFiltered(ts: seq<Node>)
    ensures AnimatedForest(ts) == KeepAnimated(ForestSubtrees(ts))
    decreases ts, 0
  {
    if ts != [] {
      var n := |ts| - 1;
      AnimatedForestIsFiltered(ts[..n]);
      AnimatedIsFilteredPreorder(ts[n]);
      KeepAnimatedConcat(ForestSubtrees(ts[..n]), Subtrees(ts[n]));
    }
  }

  /** Soundness and completeness: a node is reported exactly when it is in the tree and has actions. */
  lemma AnimatedMembership(t: Node, x: Node)
    ensures x in AnimatedPreorder(t) <==> x in Subtrees(t) && HasActions(x)
  {
    AnimatedIsFilteredPreorder(t);
  }

  /** The node at any position of the tree that has actions is reported. */
  lemma AnimatedNodeFound(t: Node, p: Path)
    requires ValidPath(t, p) && HasActions(At(t, p))
    ensures At(t, p) in AnimatedPreorder(t)
  {
    PathsComplete(t, p);
    PathsLocateSubtrees(t);
    var i :| 0 <= i < |Paths(t)| && Paths(t)[i] == p;
    assert Subtrees(t)[i] == At(t, p);
    AnimatedMembership(t, At(t, p));
  }

  /** Filtering a node list and filtering its positions pick the same entries. */
  lemma {:induction false} KeepAnimatedAtPaths(t: Node, s: seq<Node>, ps: seq<Path>)
    requires |s| == |ps|
    requires forall i :: 0 <= i < |ps| ==> ValidPath(t, ps[i]) && At(t, ps[i]) == s[i]
    ensures |KeepAnimated(s)| == |AnimatedPaths(t, ps)|
    ensures forall k :: 0 <= k < |KeepAnimated(s)| ==> At(t, AnimatedPaths(t, ps)[k]) == KeepAnimated(s)[k]
    decreases |s|
  {
    if s != [] {
      var n := |s| - 1;
      KeepAnimatedAtPaths(t, s[..n], ps[..n]);
      assert ps[..n] == ps[..|ps| - 1];
    }
  }

  lemma {:induction false} AnimatedPathsIncreasing(t: Node, ps: seq<Path>)
    requires StrictlyIncreasing(ps)
    ensures StrictlyIncreasing(AnimatedPaths(t, ps))
    decreases |ps|
  {
    if ps != [] {
      var n := |ps| - 1;
      var front := AnimatedPaths(t, ps[..n]);
      AnimatedPathsIncreasing(t, ps[..n]);
      forall x, y | x in front && y in [ps[n]] ensures LexLess(x, y) {
        var i :| 0 <= i < n && ps[..n][i] == x;
      }
      ConcatIncreasing(front, if ValidPath(t, ps[n]) && HasActions(At(t, ps[n])) then [ps[n]] else []);
    }
  }

  /**
   * What the walk reports, position by position: the k-th reported node is
   * the node at the k-th path of a strictly increasing (hence pre-order)
   * list of paths, that node has actions, and every position of the tree
   * holding a node with actions is on the list.
   */
  lemma DiscoveryOrder(t: Node)
    ensures var ps := AnimatedPaths(t, Paths(t));
      && |ps| == |AnimatedPreorder(t)|
      && StrictlyIncreasing(ps)
      && (forall k :: 0 <= k < |ps| ==>
            ValidPath(t, ps[k]) && HasActions(At(t, ps[k])) && At(t, ps[k]) == AnimatedPreorder(t)[k])
      && (forall p :: ValidPath(t, p) && HasActions(At(t, p)) ==> p in ps)
  {
    var ps := AnimatedPaths(t, Paths(t));
    PathsLocateSubtrees(t);
    KeepAnimatedAtPaths(t, Subtrees(t), Paths(t));
    AnimatedIsFilteredPreorder(t);
    PathsIncreasing(t);
    AnimatedPathsIncreasing(t, Paths(t));
    forall k | 0 <= k < |ps| ensures ValidPath(t, ps[k]) && HasActions(At(t, ps[k])) {
      assert ps[k] in ps;
    }
    forall p | ValidPath(t, p) && HasActions(At(t, p)) ensures p in ps {
      PathsComplete(t, p);
    }
  }
}
