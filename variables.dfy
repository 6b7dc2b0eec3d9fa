/** The Variable interface as the autodiff engine sees it.

    A Variable is known by its `unique_id`; the engine asks it whether it is a
    constant, whether it is a leaf, and for the ordered inputs recorded in its
    history. A computation graph maps every `unique_id` to that view of the node.
 */
module Variables {

  /** What `is_constant()`, `is_leaf()` and `history.inputs` report for one node. */
  datatype Node = Node(isConstant: bool, isLeaf: bool, inputs: seq<int>)

  type Graph = map<int, Node>

  /** Every recorded input is itself a node of the graph (in the program the
      inputs are the Variable objects themselves, so they always exist). */
  predicate Closed(g: Graph)
  {
    forall id, k :: id in g && 0 <= k < |g[id].inputs| ==> g[id].inputs[k] in g
  }

  /** Visiting `a` descends into `b`: `a` is neither a constant nor a leaf,
      `b` is one of its inputs, and `b` is not a constant (a visit of a
      constant returns at once). */
  predicate Edge(g: Graph, a: int, b: int)
  {
    a in g && !g[a].isConstant && !g[a].isLeaf && b in g[a].inputs && b in g && !g[b].isConstant
  }

  /** A non-empty chain of non-constant nodes, each descending into the next. */
  predicate IsPath(g: Graph, p: seq<int>)
  {
    && |p| >= 1
    && (forall i :: 0 <= i < |p| ==> p[i] in g && !g[p[i]].isConstant)
    && (forall i :: 0 <= i < |p| - 1 ==> Edge(g, p[i], p[i + 1]))
  }

  ghost predicate Reachable(g: Graph, a: int, b: int)
  {
    exists p :: IsPath(g, p) && p[0] == a && p[|p| - 1] == b
  }

  /** A path whose last node already occurs earlier on it: it closes a cycle. */
  predicate IsLasso(g: Graph, p: seq<int>)
  {
    IsPath(g, p) && p[|p| - 1] in p[..|p| - 1]
  }

  /** Some cycle of the graph can be reached from `a` by descending visits. */
  ghost predicate HasReachableCycle(g: Graph, a: int)
  {
    exists p :: IsLasso(g, p) && p[0] == a
  }

  lemma PathExtend(g: Graph, p: seq<int>, x: int)
    requires IsPath(g, p) && Edge(g, p[|p| - 1], x)
    ensures IsPath(g, p + [x])
  {
  }

  lemma PathSlice(g: Graph, p: seq<int>, i: int, j: int)
    requires IsPath(g, p) && 0 <= i < j <= |p|
    ensures IsPath(g, p[i..j])
  {
  }

  /** Every non-constant node reaches itself by the one-node path. */
  lemma ReachableSelf(g: Graph, a: int)
    requires a in g && !g[a].isConstant
    ensures Reachable(g, a, a)
  {
    assert IsPath(g, [a]);
  }

  /** Reachability extends backwards along an edge. */
  lemma ReachableStep(g: Graph, a: int, b: int, x: int)
    requires Edge(g, a, b) && Reachable(g, b, x)
    ensures Reachable(g, a, x)
  {
    var p :| IsPath(g, p) && p[0] == b && p[|p| - 1] == x;
    var q := [a] + p;
    assert forall i :: 0 <= i < |q| - 1 ==> Edge(g, q[i], q[i + 1]) by {
      forall i | 0 <= i < |q| - 1
        ensures Edge(g, q[i], q[i + 1])
      {
        if i > 0 {
          assert q[i] == p[i - 1] && q[i + 1] == p[i];
        }
      }
    }
    assert IsPath(g, q) && q[0] == a && q[|q| - 1] == x;
  }

  /** Only a non-constant node of the graph reaches anything. */
  lemma ReachableFromNode(g: Graph, a: int, b: int)
    requires Reachable(g, a, b)
    ensures a in g && !g[a].isConstant && b in g && !g[b].isConstant
  {
    var p :| IsPath(g, p) && p[0] == a && p[|p| - 1] == b;
  }

  /** A node reached from `a` other than `a` itself has a consumer that is
      also reached from `a`. */
  lemma ReachablePredecessor(g: Graph, a: int, x: int) returns (c: int)
    requires Reachable(g, a, x) && x != a
    ensures Reachable(g, a, c) && Edge(g, c, x)
  {
    var p :| IsPath(g, p) && p[0] == a && p[|p| - 1] == x;
    c := p[|p| - 2];
    PathSlice(g, p, 0, |p| - 1);
    assert p[..|p| - 1][0] == a;
  }
}
