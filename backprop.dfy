/** `backpropagate`: walks the order returned by `topological_sort`, hands
    each non-leaf node the derivative accumulated for it in `node2driv`,
    and routes every (input, derivative) pair its `chain_rule` returns either
    to the input's `accumulate_derivative` (a leaf) or into `node2driv`. */
module Backprop {
  import opened Variables
  import opened TopoSort

  /** One `(key, item)` pair returned by `chain_rule`: the id of an input of
      the node and the derivative that flows into it. */
  datatype Contribution = Contribution(parent: int, value: real)

  /** `node.chain_rule(d_output)` for the node with the given id. The local
      derivative rules belong to the operations that built the graph. */
  type ChainRule = (int, real) -> seq<Contribution>

  /** One call of `chain_rule`: on which node, with which derivative. */
  datatype Call = Call(node: int, dOutput: real)

  /** The locals of `backpropagate` (`node2driv` and `deriv`) after some
      steps, with the log of the `chain_rule` calls made so far and the log
      of the `accumulate_derivative` calls, as (leaf, amount) pairs. */
  datatype Pass = Pass(node2driv: map<int, real>, deriv: real, calls: seq<Call>, accumulated: seq<Contribution>)

  /** `is_leaf()` of a Variable known by its id. */
  predicate IsLeaf(g: Graph, id: int)
  {
    id in g && g[id].isLeaf
  }

  /** `node2driv = {variable.unique_id: deriv}` before the walk. */
  function Start(variable: int, deriv: real): Pass
  {
    Pass(map[variable := deriv], deriv, [], [])
  }

  /** The body of `for key, item in deriv_tmp`: a leaf accumulates the item,
      any other input adds it to its `node2driv` entry, creating the entry if
      there is none. */
  function Route(g: Graph, p: Pass, c: Contribution): Pass
  {
    if IsLeaf(g, c.parent) then
      p.(accumulated := p.accumulated + [c])
    else if c.parent in p.node2driv then
      p.(node2driv := p.node2driv[c.parent := p.node2driv[c.parent] + c.value])
    else
      p.(node2driv := p.node2driv[c.parent := c.value])
  }

  /** The whole inner loop over the pairs `cs`, in order. */
  function RouteAll(g: Graph, p: Pass, cs: seq<Contribution>): (r: Pass)
    ensures r.deriv == p.deriv && r.calls == p.calls
    ensures p.accumulated <= r.accumulated
    decreases |cs|
  {
    if cs == [] then p else Route(g, RouteAll(g, p, cs[..|cs| - 1]), cs[|cs| - 1])
  }

  /** The derivative handed to `chain_rule` for `n`: its `node2driv` entry if
      it has one, and otherwise whatever `deriv` held before. */
  function DerivFor(p: Pass, n: int): real
  {
    if n in p.node2driv then p.node2driv[n] else p.deriv
  }

  /** One iteration of `for node in order`. */
  function Step(g: Graph, chainRule: ChainRule, p: Pass, n: int): (r: Pass)
    ensures IsLeaf(g, n) ==> r == p
    ensures !IsLeaf(g, n) ==> r.deriv == DerivFor(p, n) && r.calls == p.calls + [Call(n, DerivFor(p, n))]
    ensures p.accumulated <= r.accumulated
  {
    if IsLeaf(g, n) then p
    else
      var d := DerivFor(p, n);
      RouteAll(g, p.(deriv := d, calls := p.calls + [Call(n, d)]), chainRule(n, d))
  }

  /** The outer loop over `order`, from the front. */
  function Walk(g: Graph, chainRule: ChainRule, p: Pass, order: seq<int>): (r: Pass)
    ensures p.calls <= r.calls && p.accumulated <= r.accumulated
    ensures |r.calls| <= |p.calls| + |order|
    decreases |order|
  {
    if order == [] then p
    else Step(g, chainRule, Walk(g, chainRule, p, order[..|order| - 1]), order[|order| - 1])
  }

  // ----- Views of the logs -----

  /** Everything `chain_rule` returned over the given calls, in call order. */
  function Returned(chainRule: ChainRule, calls: seq<Call>): seq<Contribution>
    decreases |calls|
  {
    if calls == [] then []
    else
      var c := calls[|calls| - 1];
      Returned(chainRule, calls[..|calls| - 1]) + chainRule(c.node, c.dOutput)
  }

  function CallNodes(calls: seq<Call>): seq<int>
    decreases |calls|
  {
    if calls == [] then [] else CallNodes(calls[..|calls| - 1]) + [calls[|calls| - 1].node]
  }

  /** The nodes of `order` that are not leaves, in order. */
  function NonLeaves(g: Graph, order: seq<int>): seq<int>
    decreases |order|
  {
    if order == [] then []
    else NonLeaves(g, order[..|order| - 1]) + (if IsLeaf(g, order[|order| - 1]) then [] else [order[|order| - 1]])
  }

  /** The pairs of `cs` whose input is a leaf, in order. */
  function LeafPart(g: Graph, cs: seq<Contribution>): seq<Contribution>
    decreases |cs|
  {
    if cs == [] then []
    else LeafPart(g, cs[..|cs| - 1]) + (if IsLeaf(g, cs[|cs| - 1].parent) then [cs[|cs| - 1]] else [])
  }

  function ParentIds(cs: seq<Contribution>): set<int>
    decreases |cs|
  {
    if cs == [] then {} else ParentIds(cs[..|cs| - 1]) + {cs[|cs| - 1].parent}
  }

  /** The sum of the pairs of `cs` that go to `k`. */
  function NodeSum(cs: seq<Contribution>, k: int): real
    decreases |cs|
  {
    if cs == [] then 0.0
    else NodeSum(cs[..|cs| - 1], k) + (if cs[|cs| - 1].parent == k then cs[|cs| - 1].value else 0.0)
  }

  /** The inner loop leaves `deriv` and the `chain_rule` log alone and makes
      one `accumulate_derivative` call per leaf pair, in order. */
  lemma {:induction false} RouteAllLogs(g: Graph, p: Pass, cs: seq<Contribution>)
    ensures RouteAll(g, p, cs).deriv == p.deriv && RouteAll(g, p, cs).calls == p.calls
    ensures RouteAll(g, p, cs).accumulated == p.accumulated + LeafPart(g, cs)
    decreases |cs|
  {
    if cs != [] {
      RouteAllLogs(g, p, cs[..|cs| - 1]);
    }
  }

  /** Splitting the pairs splits their leaf part. */
  lemma {:induction false} LeafPartConcat(g: Graph, a: seq<Contribution>, b: seq<Contribution>)
    ensures LeafPart(g, a + b) == LeafPart(g, a) + LeafPart(g, b)
    decreases |b|
  {
    if b == [] {
      assert a + b == a;
    } else {
      var front := b[..|b| - 1];
      assert (a + b)[..|a + b| - 1] == a + front;
      LeafPartConcat(g, a, front);
    }
  }

  /** A node belongs to `NonLeaves(g, order)` exactly when it is a node of
      `order` that is not a leaf. */
  lemma {:induction false} NonLeavesMembers(g: Graph, order: seq<int>)
    ensures forall x :: x in NonLeaves(g, order) <==> x in order && !IsLeaf(g, x)
    decreases |order|
  {
    if order != [] {
      var front := order[..|order| - 1];
      NonLeavesMembers(g, front);
      assert order == front + [order[|order| - 1]];
    }
  }

  lemma {:induction false} WalkLogs(g: Graph, chainRule: ChainRule, p0: Pass, order: seq<int>)
    requires p0.accumulated == LeafPart(g, Returned(chainRule, p0.calls))
    ensures CallNodes(Walk(g, chainRule, p0, order).calls) == CallNodes(p0.calls) + NonLeaves(g, order)
    ensures Walk(g, chainRule, p0, order).accumulated
            == LeafPart(g, Returned(chainRule, Walk(g, chainRule, p0, order).calls))
    decreases |order|
  {
    if order != [] {
      var front := order[..|order| - 1];
      var n := order[|order| - 1];
      var q := Walk(g, chainRule, p0, front);
      WalkLogs(g, chainRule, p0, front);
      assert Walk(g, chainRule, p0, order) == Step(g, chainRule, q, n);
      if IsLeaf(g, n) {
        assert NonLeaves(g, order) == NonLeaves(g, front);
      } else {
        var d := DerivFor(q, n);
        var mid := q.(deriv := d, calls := q.calls + [Call(n, d)]);
        RouteAllLogs(g, mid, chainRule(n, d));
        assert mid.calls[..|mid.calls| - 1] == q.calls;
        assert Returned(chainRule, mid.calls) == Returned(chainRule, q.calls) + chainRule(n, d);
        assert CallNodes(mid.calls) == CallNodes(q.calls) + [n];
        assert NonLeaves(g, order) == NonLeaves(g, front) + [n];
        LeafPartConcat(g, Returned(chainRule, q.calls), chainRule(n, d));
      }
    }
  }

  /** `chain_rule` is called exactly once for each non-leaf node of the
      order, in that order, and never for a leaf; the leaf pairs it returns,
      and only those, become `accumulate_derivative` calls, in order. */
  lemma ChainRuleCalls(g: Graph, chainRule: ChainRule, v: int, seed: real, order: seq<int>)
    ensures CallNodes(Walk(g, chainRule, Start(v, seed), order).calls) == NonLeaves(g, order)
    ensures forall x :: x in CallNodes(Walk(g, chainRule, Start(v, seed), order).calls) <==> x in order && !IsLeaf(g, x)
    ensures Walk(g, chainRule, Start(v, seed), order).accumulated
            == LeafPart(g, Returned(chainRule, Walk(g, chainRule, Start(v, seed), order).calls))
  {
    WalkLogs(g, chainRule, Start(v, seed), order);
    NonLeavesMembers(g, order);
  }

  // ----- Fan-in summation -----

  /** What `node2driv` holds for `k` before any pair arrives. */
  function Base(v: int, seed: real, k: int): real
  {
    if k == v then seed else 0.0
  }

  /** `node2driv` after the pairs `returned` arrived: its keys are the output
      and the non-leaf inputs some pair named, and each entry is the seed (for
      the output) plus the sum of every pair naming it. */
  ghost predicate FanIn(g: Graph, v: int, seed: real, node2driv: map<int, real>, returned: seq<Contribution>)
  {
    && (forall k :: k in node2driv <==> k == v || (k in ParentIds(returned) && !IsLeaf(g, k)))
    && (forall k :: k in node2driv ==>
          node2driv[k] == Base(v, seed, k) + (if IsLeaf(g, k) then 0.0 else NodeSum(returned, k)))
  }

  lemma RouteFanIn(g: Graph, v: int, seed: real, p: Pass, returned: seq<Contribution>, c: Contribution)
    requires FanIn(g, v, seed, p.node2driv, returned)
    ensures FanIn(g, v, seed, Route(g, p, c).node2driv, returned + [c])
  {
    var r := returned + [c];
    assert r[..|r| - 1] == returned;
    assert ParentIds(r) == ParentIds(returned) + {c.parent};
    var before, after := p.node2driv, Route(g, p, c).node2driv;
    forall k
      ensures k in after <==> k == v || (k in ParentIds(r) && !IsLeaf(g, k))
      ensures k in after ==> after[k] == Base(v, seed, k) + (if IsLeaf(g, k) then 0.0 else NodeSum(r, k))
    {
      assert NodeSum(r, k) == NodeSum(returned, k) + (if c.parent == k then c.value else 0.0);
      if k !in ParentIds(returned) {
        NodeSumAbsent(returned, k);
      }
    }
  }

  /** No pair names `k`: the sum for `k` is zero. */
  lemma {:induction false} NodeSumAbsent(cs: seq<Contribution>, k: int)
    requires k !in ParentIds(cs)
    ensures NodeSum(cs, k) == 0.0
    decreases |cs|
  {
    if cs != [] {
      NodeSumAbsent(cs[..|cs| - 1], k);
    }
  }

  lemma {:induction false} RouteAllFanIn(g: Graph, v: int, seed: real, p: Pass, returned: seq<Contribution>, cs: seq<Contribution>)
    requires FanIn(g, v, seed, p.node2driv, returned)
    ensures FanIn(g, v, seed, RouteAll(g, p, cs).node2driv, returned + cs)
    decreases |cs|
  {
    if cs == [] {
      assert returned + cs == returned;
    } else {
      var front := cs[..|cs| - 1];
      RouteAllFanIn(g, v, seed, p, returned, front);
      RouteFanIn(g, v, seed, RouteAll(g, p, front), returned + front, cs[|cs| - 1]);
      assert returned + cs == (returned + front) + [cs[|cs| - 1]];
    }
  }

  lemma {:induction false} WalkFanIn(g: Graph, chainRule: ChainRule, v: int, seed: real, p0: Pass, order: seq<int>)
    requires FanIn(g, v, seed, p0.node2driv, Returned(chainRule, p0.calls))
    ensures FanIn(g, v, seed, Walk(g, chainRule, p0, order).node2driv,
                  Returned(chainRule, Walk(g, chainRule, p0, order).calls))
    decreases |order|
  {
    if order != [] {
      var front := order[..|order| - 1];
      var n := order[|order| - 1];
      var q := Walk(g, chainRule, p0, front);
      WalkFanIn(g, chainRule, v, seed, p0, front);
      if !IsLeaf(g, n) {
        var d := DerivFor(q, n);
        var mid := q.(deriv := d, calls := q.calls + [Call(n, d)]);
        assert mid.calls[..|mid.calls| - 1] == q.calls;
        RouteAllFanIn(g, v, seed, mid, Returned(chainRule, q.calls), chainRule(n, d));
        RouteAllLogs(g, mid, chainRule(n, d));
      }
    }
  }

  /** Fan-in summation: after the walk, `node2driv` holds, for the output and
      for every non-leaf input some `chain_rule` named, the seed (for the
      output) plus the sum of all pairs naming it, and holds nothing else. */
  lemma FanInSum(g: Graph, chainRule: ChainRule, v: int, seed: real, order: seq<int>)
    ensures FanIn(g, v, seed, Walk(g, chainRule, Start(v, seed), order).node2driv,
                  Returned(chainRule, Walk(g, chainRule, Start(v, seed), order).calls))
  {
    WalkFanIn(g, chainRule, v, seed, Start(v, seed), order);
  }

  // ----- Each node sees its complete sum -----

  /** Every pair `chain_rule` returns for a node names one of its inputs. */
  ghost predicate ParentsAreInputs(g: Graph, chainRule: ChainRule)
  {
    forall n, d, j :: n in g && 0 <= j < |chainRule(n, d)| ==> chainRule(n, d)[j].parent in g[n].inputs
  }

  /** `chain_rule` names every non-constant input of a non-leaf node. */
  ghost predicate CoversInputs(g: Graph, chainRule: ChainRule)
  {
    forall n, d, y {:trigger Edge(g, n, y), chainRule(n, d)} :: Edge(g, n, y) ==> y in ParentIds(chainRule(n, d))
  }

  /** Pairs that do not name `k` leave its `node2driv` entry alone. */
  lemma {:induction false} RouteAllElsewhere(g: Graph, p: Pass, cs: seq<Contribution>, k: int)
    requires forall j :: 0 <= j < |cs| ==> cs[j].parent != k
    ensures k in RouteAll(g, p, cs).node2driv <==> k in p.node2driv
    ensures k in p.node2driv ==> RouteAll(g, p, cs).node2driv[k] == p.node2driv[k]
    decreases |cs|
  {
    if cs != [] {
      RouteAllElsewhere(g, p, cs[..|cs| - 1], k);
    }
  }

  /** The inner loop only adds keys, among them every non-leaf input it is
      sent a pair for. */
  lemma {:induction false} RouteAllKeys(g: Graph, p: Pass, cs: seq<Contribution>)
    ensures p.node2driv.Keys <= RouteAll(g, p, cs).node2driv.Keys
    ensures forall k :: k in ParentIds(cs) && !IsLeaf(g, k) ==> k in RouteAll(g, p, cs).node2driv
    decreases |cs|
  {
    if cs != [] {
      RouteAllKeys(g, p, cs[..|cs| - 1]);
    }
  }

  /** `node2driv` only gains keys as the walk goes on. */
  lemma {:induction false} KeysGrow(g: Graph, chainRule: ChainRule, p0: Pass, order: seq<int>, i: int, j: int)
    requires 0 <= i <= j <= |order|
    ensures Walk(g, chainRule, p0, order[..i]).node2driv.Keys <= Walk(g, chainRule, p0, order[..j]).node2driv.Keys
    decreases j
  {
    if i < j {
      KeysGrow(g, chainRule, p0, order, i, j - 1);
      var p := Walk(g, chainRule, p0, order[..j - 1]);
      var n := order[j - 1];
      assert order[..j][..j - 1] == order[..j - 1];
      if !IsLeaf(g, n) {
        var d := DerivFor(p, n);
        RouteAllKeys(g, p.(deriv := d, calls := p.calls + [Call(n, d)]), chainRule(n, d));
      }
    }
  }

  /** In a topological order no node at or after index `q` consumes the
      node at `q`. */
  lemma LaterNotConsumer(g: Graph, v: int, order: seq<int>, q: int, j: int)
    requires IsTopologicalOrder(g, v, order) && 0 <= q <= j < |order|
    ensures !Edge(g, order[j], order[q])
  {
    var later := order[j + 1..];
    forall m | 0 <= m < |later|
      ensures later[m] != order[q]
    {
      assert later[m] == order[j + 1 + m];
    }
    assert order[q] !in later;
  }

  /** Once the walk reaches the node at index `q`, its `node2driv` entry
      never changes again: only its consumers send to it, and they all come
      earlier. */
  lemma {:induction false} EntryFrozen(g: Graph, chainRule: ChainRule, v: int, seed: real, order: seq<int>, q: int, j: int)
    requires IsTopologicalOrder(g, v, order) && ParentsAreInputs(g, chainRule)
    requires 0 <= q < |order| && q <= j <= |order|
    ensures order[q] in Walk(g, chainRule, Start(v, seed), order[..j]).node2driv
            <==> order[q] in Walk(g, chainRule, Start(v, seed), order[..q]).node2driv
    ensures order[q] in Walk(g, chainRule, Start(v, seed), order[..q]).node2driv ==>
              Walk(g, chainRule, Start(v, seed), order[..j]).node2driv[order[q]]
              == Walk(g, chainRule, Start(v, seed), order[..q]).node2driv[order[q]]
    decreases j
  {
    if q < j {
      EntryFrozen(g, chainRule, v, seed, order, q, j - 1);
      var p := Walk(g, chainRule, Start(v, seed), order[..j - 1]);
      var n := order[j - 1];
      assert order[..j][..j - 1] == order[..j - 1];
      if !IsLeaf(g, n) {
        var d := DerivFor(p, n);
        var cs := chainRule(n, d);
        LaterNotConsumer(g, v, order, q, j - 1);
        assert n in order && order[q] in order;
        forall i | 0 <= i < |cs|
          ensures cs[i].parent != order[q]
        {
          assert cs[i].parent in g[n].inputs;
        }
        RouteAllElsewhere(g, p.(deriv := d, calls := p.calls + [Call(n, d)]), cs, order[q]);
      }
    }
  }

  /** Walking a consumer of the non-leaf `x` gives `x` a `node2driv`
      entry, when the consumer's `chain_rule` names `x`. */
  lemma ConsumerAddsKey(g: Graph, chainRule: ChainRule, p0: Pass, order: seq<int>, i: int, x: int)
    requires CoversInputs(g, chainRule)
    requires 0 <= i < |order| && Edge(g, order[i], x) && !IsLeaf(g, x)
    ensures x in Walk(g, chainRule, p0, order[..i + 1]).node2driv
  {
    var c := order[i];
    var p := Walk(g, chainRule, p0, order[..i]);
    assert order[..i + 1][..i] == order[..i];
    var d := DerivFor(p, c);
    assert Walk(g, chainRule, p0, order[..i + 1])
        == RouteAll(g, p.(deriv := d, calls := p.calls + [Call(c, d)]), chainRule(c, d));
    assert x in ParentIds(chainRule(c, d));
    RouteAllKeys(g, p.(deriv := d, calls := p.calls + [Call(c, d)]), chainRule(c, d));
  }

  /** A node of a topological order other than its first has a consumer
      at an earlier index. */
  lemma EarlierConsumer(g: Graph, v: int, order: seq<int>, q: int) returns (i: int)
    requires IsTopologicalOrder(g, v, order) && 0 < q < |order|
    ensures 0 <= i < q && Edge(g, order[i], order[q])
  {
    var x := order[q];
    assert order[0] in order && x in order;
    ReachableFromNode(g, v, order[0]);
    assert x != v;
    var c := ReachablePredecessor(g, v, x);
    i :| 0 <= i < |order| && order[i] == c;
    var m :| 0 <= m < |order[i + 1..]| && order[i + 1..][m] == x;
    assert order[i + 1 + m] == x;
  }

  /** A non-empty topological order from `v` starts with `v`. */
  lemma FirstIsVariable(g: Graph, v: int, order: seq<int>)
    requires IsTopologicalOrder(g, v, order) && |order| > 0
    ensures order[0] == v
  {
    assert order[0] in order;
    ReachableFromNode(g, v, order[0]);
  }

  /** The carry-over of `deriv` never happens when every `chain_rule` names
      all non-constant inputs: each non-leaf node of a topological order
      already has a `node2driv` entry when the walk reaches it. */
  lemma NoCarryOver(g: Graph, chainRule: ChainRule, v: int, seed: real, order: seq<int>, q: int)
    requires IsTopologicalOrder(g, v, order) && CoversInputs(g, chainRule)
    requires 0 <= q < |order| && !IsLeaf(g, order[q])
    ensures order[q] in Walk(g, chainRule, Start(v, seed), order[..q]).node2driv
  {
    if q == 0 {
      FirstIsVariable(g, v, order);
      StartHasVariable(g, chainRule, v, seed, order);
    } else {
      var i := EarlierConsumer(g, v, order, q);
      KeyBeforeReached(g, chainRule, Start(v, seed), order, i, q);
    }
  }

  /** Before the first step `node2driv` holds the variable. */
  lemma StartHasVariable(g: Graph, chainRule: ChainRule, v: int, seed: real, order: seq<int>)
    ensures v in Walk(g, chainRule, Start(v, seed), order[..0]).node2driv
  {
    assert order[..0] == [];
  }

  /** A non-leaf node with a consumer earlier in the order has its entry
      by the time the walk reaches it. */
  lemma KeyBeforeReached(g: Graph, chainRule: ChainRule, p0: Pass, order: seq<int>, i: int, q: int)
    requires CoversInputs(g, chainRule)
    requires 0 <= i < q < |order| && Edge(g, order[i], order[q]) && !IsLeaf(g, order[q])
    ensures order[q] in Walk(g, chainRule, p0, order[..q]).node2driv
  {
    ConsumerAddsKey(g, chainRule, p0, order, i, order[q]);
    KeysGrow(g, chainRule, p0, order, i + 1, q);
  }

  /** Fan-in summation as the engine promises it: when every `chain_rule`
      names exactly the non-constant inputs of its node, the derivative the
      walk hands to the `chain_rule` of each non-leaf node is the seed (for
      the output) plus the sum of all pairs naming that node in the whole
      backward pass, so no contribution arrives after it is used. */
  lemma CompleteFanIn(g: Graph, chainRule: ChainRule, v: int, seed: real, order: seq<int>, q: int)
    requires IsTopologicalOrder(g, v, order) && ParentsAreInputs(g, chainRule) && CoversInputs(g, chainRule)
    requires 0 <= q < |order| && !IsLeaf(g, order[q])
    ensures DerivFor(Walk(g, chainRule, Start(v, seed), order[..q]), order[q])
            == Base(v, seed, order[q])
               + NodeSum(Returned(chainRule, Walk(g, chainRule, Start(v, seed), order).calls), order[q])
  {
    NoCarryOver(g, chainRule, v, seed, order, q);
    EntryFrozen(g, chainRule, v, seed, order, q, |order|);
    assert order[..|order|] == order;
    FanInSum(g, chainRule, v, seed, order);
  }

  /** The carry-over at work. Node 0 consumes node 1, which consumes the
      leaf 2, but the `chain_rule` of node 0 names no input. Node 1 then has
      no `node2driv` entry when the walk reaches it, so its `chain_rule`
      receives the seed that `deriv` still holds, not 0. */
  lemma CarryOverExample()
    ensures var g := map[0 := Node(false, false, [1]), 1 := Node(false, false, [2]), 2 := Node(false, true, [])];
            var chainRule: ChainRule := (n: int, d: real) => if n == 1 then [Contribution(2, 2.0 * d)] else [];
            && 1 !in Walk(g, chainRule, Start(0, 5.0), [0]).node2driv
            && Walk(g, chainRule, Start(0, 5.0), [0, 1, 2]).calls == [Call(0, 5.0), Call(1, 5.0)]
            && Walk(g, chainRule, Start(0, 5.0), [0, 1, 2]).accumulated == [Contribution(2, 10.0)]
  {
    var g := map[0 := Node(false, false, [1]), 1 := Node(false, false, [2]), 2 := Node(false, true, [])];
    var chainRule: ChainRule := (n: int, d: real) => if n == 1 then [Contribution(2, 2.0 * d)] else [];
    var order := [0, 1, 2];
    assert order[..2] == [0, 1] && order[..2][..1] == [0] && order[..2][..1][..0] == [];
    var p1 := Walk(g, chainRule, Start(0, 5.0), [0]);
    assert p1 == Pass(map[0 := 5.0], 5.0, [Call(0, 5.0)], []);
    var cs := chainRule(1, 5.0);
    assert cs == [Contribution(2, 10.0)] && cs[..0] == [];
    assert [0, 1][..1] == [0];
    assert DerivFor(p1, 1) == 5.0;
    var mid := p1.(deriv := 5.0, calls := p1.calls + [Call(1, 5.0)]);
    assert Step(g, chainRule, p1, 1) == RouteAll(g, mid, cs);
    assert RouteAll(g, mid, cs) == Route(g, mid, Contribution(2, 10.0));
  }

  /** A constant never reaches `chain_rule`: the walk over a topological
      order calls it only for nodes of the order, and the sort leaves every
      constant out. */
  lemma ConstantNeverCalled(g: Graph, chainRule: ChainRule, v: int, seed: real, order: seq<int>, x: int)
    requires IsTopologicalOrder(g, v, order) && x in g && g[x].isConstant
    ensures x !in CallNodes(Walk(g, chainRule, Start(v, seed), order).calls)
  {
    ChainRuleCalls(g, chainRule, v, seed, order);
  }

  /** The single-leaf chain `y = 2 * x` (ids 0 and 1): walking its order
      with seed 1 makes one `accumulate_derivative(2)` call on `x`. */
  lemma SingleLeafExample()
    ensures var g := map[0 := Node(false, false, [1]), 1 := Node(false, true, [])];
            var chainRule: ChainRule := (n: int, d: real) => if n == 0 then [Contribution(1, 2.0 * d)] else [];
            && Walk(g, chainRule, Start(0, 1.0), [0, 1]).accumulated == [Contribution(1, 2.0)]
            && Get(Accumulate(map[], Walk(g, chainRule, Start(0, 1.0), [0, 1]).accumulated), 1) == 2.0
  {
    var g := map[0 := Node(false, false, [1]), 1 := Node(false, true, [])];
    var chainRule: ChainRule := (n: int, d: real) => if n == 0 then [Contribution(1, 2.0 * d)] else [];
    var start := Start(0, 1.0);
    assert [0, 1][..1] == [0] && [0][..0] == [];
    var toX := Contribution(1, 2.0);
    assert chainRule(0, 1.0) == [toX] && [toX][..0] == [];
    assert DerivFor(start, 0) == 1.0;
    var mid := start.(deriv := 1.0, calls := start.calls + [Call(0, 1.0)]);
    assert Walk(g, chainRule, start, [0]) == RouteAll(g, mid, [toX]);
    assert RouteAll(g, mid, [toX]) == Route(g, mid, toX);
    assert Walk(g, chainRule, start, [0, 1]) == Walk(g, chainRule, start, [0]);
    assert Accumulate(map[], [toX]) == map[1 := 2.0];
  }

  /** Fan-in at a leaf: `y = a + b` with `a = x + 1` and `b = x * 3`, all
      over the leaf `x` (ids 0, 1, 2 and 3). */
  const FanInGraph: Graph := map[0 := Node(false, false, [1, 2]), 1 := Node(false, false, [3]),
                                 2 := Node(false, false, [3]), 3 := Node(false, true, [])]

  /** The `chain_rule` of each node of `FanInGraph`. */
  const FanInChainRule: ChainRule := (n: int, d: real) =>
    if n == 0 then [Contribution(1, d), Contribution(2, d)]
    else if n == 1 then [Contribution(3, d)]
    else if n == 2 then [Contribution(3, 3.0 * d)]
    else []

  /** After `y`: both `a` and `b` hold the seed in `node2driv`. */
  lemma FanInAfterOutput()
    ensures var p := Walk(FanInGraph, FanInChainRule, Start(0, 1.0), [0]);
            && p.node2driv == map[0 := 1.0, 1 := 1.0, 2 := 1.0]
            && p.accumulated == []
  {
    var g, chainRule, start := FanInGraph, FanInChainRule, Start(0, 1.0);
    assert [0][..0] == [];
    var toA := Contribution(1, 1.0);
    var toB := Contribution(2, 1.0);
    assert chainRule(0, 1.0) == [toA, toB];
    assert [toA, toB][..1] == [toA] && [toA][..0] == [];
    var mid := start.(deriv := 1.0, calls := start.calls + [Call(0, 1.0)]);
    assert DerivFor(start, 0) == 1.0;
    assert Walk(g, chainRule, start, [0]) == RouteAll(g, mid, [toA, toB]);
    assert RouteAll(g, mid, []) == mid;
    var afterA := RouteAll(g, mid, [toA]);
    assert afterA == Route(g, mid, toA);
    assert afterA.node2driv == map[0 := 1.0, 1 := 1.0] && afterA.accumulated == [];
    assert RouteAll(g, mid, [toA, toB]) == Route(g, afterA, toB);
  }

  /** After `b`: `a` still holds the seed and the leaf has received 3 from `b`. */
  lemma FanInAfterB()
    ensures var p := Walk(FanInGraph, FanInChainRule, Start(0, 1.0), [0, 2]);
            && 1 in p.node2driv && p.node2driv[1] == 1.0
            && p.accumulated == [Contribution(3, 3.0)]
  {
    var g, chainRule, start := FanInGraph, FanInChainRule, Start(0, 1.0);
    FanInAfterOutput();
    var p1 := Walk(g, chainRule, start, [0]);
    assert [0, 2][..1] == [0];
    var fromB := Contribution(3, 3.0);
    assert chainRule(2, 1.0) == [fromB] && [fromB][..0] == [];
    assert DerivFor(p1, 2) == 1.0;
    var mid := p1.(deriv := 1.0, calls := p1.calls + [Call(2, 1.0)]);
    assert Walk(g, chainRule, start, [0, 2]) == RouteAll(g, mid, [fromB]);
    assert RouteAll(g, mid, [fromB]) == Route(g, mid, fromB);
  }

  /** After `a`: the leaf has also received 1 from `a`. */
  lemma FanInAfterA()
    ensures Walk(FanInGraph, FanInChainRule, Start(0, 1.0), [0, 2, 1]).accumulated
            == [Contribution(3, 3.0), Contribution(3, 1.0)]
  {
    var g, chainRule, start := FanInGraph, FanInChainRule, Start(0, 1.0);
    FanInAfterB();
    var p2 := Walk(g, chainRule, start, [0, 2]);
    assert [0, 2, 1][..2] == [0, 2];
    var fromA := Contribution(3, 1.0);
    assert chainRule(1, 1.0) == [fromA] && [fromA][..0] == [];
    assert DerivFor(p2, 1) == 1.0;
    var mid := p2.(deriv := 1.0, calls := p2.calls + [Call(1, 1.0)]);
    assert Walk(g, chainRule, start, [0, 2, 1]) == RouteAll(g, mid, [fromA]);
    assert RouteAll(g, mid, [fromA]) == Route(g, mid, fromA);
  }

  /** Walking `[0, 2, 1, 3]` (the order a depth-first search that visits
      the inputs of `y` left to right finishes in, reversed) with seed 1
      leaves 1 + 3 = 4 in the storage of `x`, not 1 or 3 alone. */
  lemma FanInExample()
    ensures Get(Accumulate(map[], Walk(FanInGraph, FanInChainRule, Start(0, 1.0), [0, 2, 1, 3]).accumulated), 3) == 4.0
  {
    var order := [0, 2, 1, 3];
    FanInAfterA();
    WalkSnoc(FanInGraph, FanInChainRule, Start(0, 1.0), order, 3);
    assert order[..4] == order && order[..3] == [0, 2, 1];
    assert IsLeaf(FanInGraph, order[3]);
    FanInLeafTotal();
  }

  /** The two `accumulate_derivative` calls on `x` add up to 4. */
  lemma FanInLeafTotal()
    ensures Get(Accumulate(map[], [Contribution(3, 3.0), Contribution(3, 1.0)]), 3) == 4.0
  {
    var fromB, fromA := Contribution(3, 3.0), Contribution(3, 1.0);
    assert [fromB, fromA][..1] == [fromB] && [fromB][..0] == [];
    assert Accumulate(map[], [fromB]) == map[3 := 3.0];
  }

  // ----- Leaf storage -----

  /** A leaf's stored derivative; a leaf never accumulated into holds 0. */
  function Get(m: map<int, real>, id: int): real
  {
    if id in m then m[id] else 0.0
  }

  /** The leaf storage after the given `accumulate_derivative` calls. */
  function Accumulate(m: map<int, real>, cs: seq<Contribution>): (r: map<int, real>)
    ensures r.Keys == m.Keys + ParentIds(cs)
    decreases |cs|
  {
    if cs == [] then m
    else
      var r := Accumulate(m, cs[..|cs| - 1]);
      var c := cs[|cs| - 1];
      r[c.parent := Get(r, c.parent) + c.value]
  }

  lemma AccumulatePush(m: map<int, real>, cs: seq<Contribution>, c: Contribution)
    ensures Accumulate(m, cs + [c])
            == Accumulate(m, cs)[c.parent := Get(Accumulate(m, cs), c.parent) + c.value]
  {
    assert (cs + [c])[..|cs|] == cs;
  }

  /** The leaf storage after some `accumulate_derivative` calls: every
      leaf named gains exactly the sum of the amounts sent to it, and no
      other entry changes. */
  lemma {:induction false} LeafTotals(m: map<int, real>, cs: seq<Contribution>)
    ensures Accumulate(m, cs).Keys == m.Keys + ParentIds(cs)
    ensures forall id :: Get(Accumulate(m, cs), id) == Get(m, id) + NodeSum(cs, id)
    decreases |cs|
  {
    if cs != [] {
      LeafTotals(m, cs[..|cs| - 1]);
    }
  }

  /** Only leaves take part in the sum of the leaf pairs. */
  lemma {:induction false} NodeSumLeafPart(g: Graph, cs: seq<Contribution>, id: int)
    ensures NodeSum(LeafPart(g, cs), id) == if IsLeaf(g, id) then NodeSum(cs, id) else 0.0
    decreases |cs|
  {
    if cs != [] {
      var front := cs[..|cs| - 1];
      var c := cs[|cs| - 1];
      NodeSumLeafPart(g, front, id);
      assert NodeSum(cs, id) == NodeSum(front, id) + (if c.parent == id then c.value else 0.0);
      if IsLeaf(g, c.parent) {
        var lp := LeafPart(g, front) + [c];
        assert LeafPart(g, cs) == lp;
        assert lp[..|lp| - 1] == LeafPart(g, front);
        assert NodeSum(lp, id) == NodeSum(LeafPart(g, front), id) + (if c.parent == id then c.value else 0.0);
      } else {
        assert LeafPart(g, cs) == LeafPart(g, front);
      }
    }
  }

  /** What `backpropagate` leaves in the storage: every leaf gains the sum of
      all pairs naming it, over every `chain_rule` call of the walk, and the
      entry of any other id stays as it was. */
  lemma LeafDerivativeTotals(g: Graph, chainRule: ChainRule, v: int, seed: real, order: seq<int>, stored: map<int, real>, id: int)
    ensures Get(Accumulate(stored, Walk(g, chainRule, Start(v, seed), order).accumulated), id)
            == Get(stored, id)
               + (if IsLeaf(g, id) then NodeSum(Returned(chainRule, Walk(g, chainRule, Start(v, seed), order).calls), id) else 0.0)
  {
    var p := Walk(g, chainRule, Start(v, seed), order);
    ChainRuleCalls(g, chainRule, v, seed, order);
    LeafTotals(stored, p.accumulated);
    NodeSumLeafPart(g, Returned(chainRule, p.calls), id);
  }

  /** The derivatives the leaves hold, keyed by `unique_id`. */
  class LeafDerivatives {
    var derivative: map<int, real>

    constructor ()
      ensures derivative == map[]
    {
      derivative := map[];
    }

    /** `accumulate_derivative(x)` on the leaf with id `id`. */
    method AccumulateDerivative(id: int, x: real)
      modifies this
      ensures derivative == old(derivative)[id := Get(old(derivative), id) + x]
    {
      derivative := derivative[id := Get(derivative, id) + x];
    }
  }

  /** The inner loop over one more pair is one more `Route`. */
  lemma RouteAllSnoc(g: Graph, p: Pass, cs: seq<Contribution>, j: int)
    requires 0 <= j < |cs|
    ensures RouteAll(g, p, cs[..j + 1]) == Route(g, RouteAll(g, p, cs[..j]), cs[j])
  {
    assert cs[..j + 1][..j] == cs[..j];
  }

  /** One iteration of `for key, item in deriv_tmp`: a leaf accumulates
      `item`, any other id adds it to its `node2driv` entry or creates the
      entry. The result is exactly one `Route` step of the pass `done`. */
  method RoutePair(g: Graph, c: Contribution, node2driv: map<int, real>, leaves: LeafDerivatives,
                   ghost done: Pass, ghost stored: map<int, real>)
    returns (updated: map<int, real>, ghost next: Pass)
    requires node2driv == done.node2driv && leaves.derivative == Accumulate(stored, done.accumulated)
    modifies leaves
    ensures next == Route(g, done, c)
    ensures updated == next.node2driv && leaves.derivative == Accumulate(stored, next.accumulated)
  {
    var key, item := c.parent, c.value;
    if IsLeaf(g, key) {
      AccumulatePush(stored, done.accumulated, c);
      leaves.AccumulateDerivative(key, item);
      return node2driv, done.(accumulated := done.accumulated + [c]);
    }
    if key in node2driv {
      updated := node2driv[key := node2driv[key] + item];
    } else {
      updated := node2driv[key := item];
    }
    next := done.(node2driv := updated);
  }

  /** The loop `for key, item in deriv_tmp` of `backpropagate`: returns the
      new `node2driv` and makes the leaves' `accumulate_derivative` calls.
      `p` is the pass before the loop and `stored` the leaf storage before
      the whole backward pass. */
  method RouteContributions(g: Graph, derivTmp: seq<Contribution>, node2driv: map<int, real>,
                            leaves: LeafDerivatives, ghost p: Pass, ghost stored: map<int, real>)
    returns (updated: map<int, real>)
    requires node2driv == p.node2driv && leaves.derivative == Accumulate(stored, p.accumulated)
    modifies leaves
    ensures updated == RouteAll(g, p, derivTmp).node2driv
    ensures leaves.derivative == Accumulate(stored, RouteAll(g, p, derivTmp).accumulated)
  {
    updated := node2driv;
    ghost var done := RouteAll(g, p, []);
    for j := 0 to |derivTmp|
      invariant done == RouteAll(g, p, derivTmp[..j])
      invariant updated == done.node2driv
      invariant leaves.derivative == Accumulate(stored, done.accumulated)
    {
      RouteAllSnoc(g, p, derivTmp, j);
      updated, done := RoutePair(g, derivTmp[j], updated, leaves, done, stored);
    }
    assert derivTmp[..|derivTmp|] == derivTmp;
  }

  /** The walk over one more node is one more `Step`. */
  lemma WalkSnoc(g: Graph, chainRule: ChainRule, p: Pass, order: seq<int>, i: int)
    requires 0 <= i < |order|
    ensures Walk(g, chainRule, p, order[..i + 1]) == Step(g, chainRule, Walk(g, chainRule, p, order[..i]), order[i])
  {
    assert order[..i + 1][..i] == order[..i];
  }

  /** One iteration of `for node in order`: a leaf is skipped; any other
      node takes its `node2driv` entry as `deriv` if it has one (and keeps
      the previous `deriv` otherwise), calls `chain_rule` and routes the
      pairs. The result is exactly one `Step` of the pass `done`. */
  method PropagateNode(g: Graph, chainRule: ChainRule, node: int, node2driv: map<int, real>, deriv: real,
                       leaves: LeafDerivatives, ghost done: Pass, ghost stored: map<int, real>)
    returns (updated: map<int, real>, newDeriv: real, ghost next: Pass)
    requires node2driv == done.node2driv && deriv == done.deriv
    requires leaves.derivative == Accumulate(stored, done.accumulated)
    modifies leaves
    ensures next == Step(g, chainRule, done, node)
    ensures updated == next.node2driv && newDeriv == next.deriv
    ensures leaves.derivative == Accumulate(stored, next.accumulated)
  {
    if IsLeaf(g, node) {
      return node2driv, deriv, done;
    }
    newDeriv := deriv;
    if node in node2driv {
      newDeriv := node2driv[node];
    }
    var derivTmp := chainRule(node, newDeriv);
    ghost var mid := done.(deriv := newDeriv, calls := done.calls + [Call(node, newDeriv)]);
    updated := RouteContributions(g, derivTmp, node2driv, leaves, mid, stored);
    next := RouteAll(g, mid, derivTmp);
  }

  /** `backpropagate(variable, deriv)`, with `seed` the value of the
      parameter `deriv` on entry (the source reassigns it). It fails, before touching any leaf,
      exactly when `topological_sort` raises; otherwise the leaves receive
      the `accumulate_derivative` calls of the walk over the order. */
  method Backpropagate(g: Graph, chainRule: ChainRule, variable: int, seed: real, leaves: LeafDerivatives)
    returns (ok: bool, ghost order: seq<int>)
    requires Closed(g) && variable in g
    modifies leaves
    ensures ok <==> !HasReachableCycle(g, variable)
    ensures !ok ==> leaves.derivative == old(leaves.derivative)
    ensures ok ==> IsTopologicalOrder(g, variable, order)
    ensures ok ==> leaves.derivative
                   == Accumulate(old(leaves.derivative), Walk(g, chainRule, Start(variable, seed), order).accumulated)
  {
    var sorted := TopologicalSort(g, variable);
    if sorted.Err? {
      return false, [];
    }
    var nodes := sorted.value;
    ghost var start := Start(variable, seed);
    ghost var stored := leaves.derivative;
    ghost var done := Walk(g, chainRule, start, []);
    var deriv := seed;
    var node2driv := map[variable := deriv];
    for i := 0 to |nodes|
      invariant done == Walk(g, chainRule, start, nodes[..i])
      invariant node2driv == done.node2driv && deriv == done.deriv
      invariant leaves.derivative == Accumulate(stored, done.accumulated)
    {
      WalkSnoc(g, chainRule, start, nodes, i);
      node2driv, deriv, done := PropagateNode(g, chainRule, nodes[i], node2driv, deriv, leaves, done, stored);
    }
    assert nodes[..|nodes|] == nodes;
    ok, order := true, nodes;
  }
}
