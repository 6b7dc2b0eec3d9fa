/** `topological_sort`: a depth-first search from the right-most Variable that
    keeps a temporary and a permanent mark list and front-inserts every node
    it finishes, so that every consumer comes before its inputs. */
module TopoSort {
  import opened Variables

  datatype SortError = NotADag

  datatype Result<T> = Ok(value: T) | Err(error: SortError)

  predicate NoDuplicates(s: seq<int>)
  {
    forall i, j :: 0 <= i < j < |s| ==> s[i] != s[j]
  }

  /** Consumers precede their inputs: every input the visit of `order[i]`
      descends into occurs strictly later in `order`. */
  ghost predicate ConsumersFirst(g: Graph, order: seq<int>)
  {
    forall i, y :: 0 <= i < |order| && Edge(g, order[i], y) ==> y in order[i + 1..]
  }

  /** Inputs are finished before their consumers: every input the visit of
      `finished[i]` descends into occurs strictly earlier in `finished`. */
  ghost predicate InputsFinishedFirst(g: Graph, finished: seq<int>)
  {
    forall i, y :: 0 <= i < |finished| && Edge(g, finished[i], y) ==> y in finished[..i]
  }

  /** Reversing an inputs-first finishing order gives a consumers-first order. */
  lemma ReverseOfFinished(g: Graph, finished: seq<int>)
    requires InputsFinishedFirst(g, finished)
    ensures ConsumersFirst(g, Reverse(finished))
  {
    var r := Reverse(finished);
    forall i, y | 0 <= i < |r| && Edge(g, r[i], y)
      ensures y in r[i + 1..]
    {
      ReversedInputLater(g, finished, i, y);
    }
  }

  /** One instance of `ReverseOfFinished`: an input of the node at index `i`
      of the reversed order, finished earlier, sits at a later index. */
  lemma ReversedInputLater(g: Graph, finished: seq<int>, i: int, y: int)
    requires InputsFinishedFirst(g, finished)
    requires 0 <= i < |finished| && Edge(g, Reverse(finished)[i], y)
    ensures y in Reverse(finished)[i + 1..]
  {
    var r := Reverse(finished);
    var n := |finished|;
    var j := n - 1 - i;
    assert r[i] == finished[j];
    assert y in finished[..j];
    var k :| 0 <= k < j && finished[..j][k] == y;
    assert r[n - 1 - k] == y;
    assert r[i + 1..][n - 2 - k - i] == y;
  }

  /** What a successful sort from `v` returns: each non-constant node reachable
      from `v` exactly once, consumers before inputs, `v` first. */
  ghost predicate IsTopologicalOrder(g: Graph, v: int, order: seq<int>)
  {
    && NoDuplicates(order)
    && (forall x {:trigger x in order} :: x in order ==> x in g && !g[x].isConstant)
    && (forall x :: x in order <==> Reachable(g, v, x))
    && ConsumersFirst(g, order)
    && (v in g && !g[v].isConstant ==> |order| > 0 && order[0] == v)
  }

  function Reverse(s: seq<int>): (r: seq<int>)
    ensures |r| == |s|
    ensures forall i :: 0 <= i < |s| ==> r[i] == s[|s| - 1 - i]
  {
    seq(|s|, i requires 0 <= i < |s| => s[|s| - 1 - i])
  }

  lemma ReverseMembers(s: seq<int>)
    ensures forall x :: x in Reverse(s) <==> x in s
    ensures NoDuplicates(s) ==> NoDuplicates(Reverse(s))
  {
    var r := Reverse(s);
    forall x | x in s ensures x in r {
      var i :| 0 <= i < |s| && s[i] == x;
      assert r[|s| - 1 - i] == x;
    }
  }

  /** Python's `list.remove`: drops the first occurrence of `x`. */
  function RemoveFirst(s: seq<int>, x: int): (r: seq<int>)
    requires x in s
    ensures |r| == |s| - 1
    ensures multiset(r) == multiset(s) - multiset{x}
  {
    if s[0] == x then
      assert s == [s[0]] + s[1..];
      s[1..]
    else
      assert s == [s[0]] + s[1..];
      [s[0]] + RemoveFirst(s[1..], x)
  }

  /** Removing a node pushed last, and present nowhere else, restores the list. */
  lemma {:induction false} RemoveFirstOfPushed(s: seq<int>, x: int)
    requires x !in s
    ensures RemoveFirst(s + [x], x) == s
  {
    if s != [] {
      assert (s + [x])[1..] == s[1..] + [x];
      RemoveFirstOfPushed(s[1..], x);
    }
  }

  /** Following a path from a node of a consumers-first order only moves
      further along the order. */
  lemma {:induction false} PathMovesLater(g: Graph, order: seq<int>, p: seq<int>, i: int)
    requires ConsumersFirst(g, order) && IsPath(g, p) && |p| >= 2
    requires 0 <= i < |order| && order[i] == p[0]
    ensures p[|p| - 1] in order[i + 1..]
    decreases |p|
  {
    if |p| == 2 {
      assert Edge(g, p[0], p[1]);
    } else {
      var q := p[..|p| - 1];
      PathSlice(g, p, 0, |p| - 1);
      PathMovesLater(g, order, q, i);
      var k :| 0 <= k < |order[i + 1..]| && order[i + 1..][k] == q[|q| - 1];
      var j := i + 1 + k;
      assert Edge(g, order[j], p[|p| - 1]);
      var m :| 0 <= m < |order[j + 1..]| && order[j + 1..][m] == p[|p| - 1];
      assert order[i + 1..][k + 1 + m] == p[|p| - 1];
    }
  }

  /** A consumers-first order that holds `v` holds everything reachable from `v`. */
  lemma ReachableInOrder(g: Graph, order: seq<int>, v: int, x: int)
    requires ConsumersFirst(g, order) && v in order && Reachable(g, v, x)
    ensures x in order
  {
    var p :| IsPath(g, p) && p[0] == v && p[|p| - 1] == x;
    if |p| > 1 {
      var i :| 0 <= i < |order| && order[i] == v;
      PathMovesLater(g, order, p, i);
    }
  }

  /** A graph that has a topological order from `v` has no cycle reachable from `v`. */
  lemma NoCycleInOrder(g: Graph, v: int, order: seq<int>)
    requires IsTopologicalOrder(g, v, order)
    ensures !HasReachableCycle(g, v)
  {
    if HasReachableCycle(g, v) {
      var p :| IsLasso(g, p) && p[0] == v;
      var m :| 0 <= m < |p| - 1 && p[..|p| - 1][m] == p[|p| - 1];
      PathSlice(g, p, 0, m + 1);
      assert p[..m + 1][0] == v && p[..m + 1][m] == p[m];
      assert Reachable(g, v, p[m]);
      var i :| 0 <= i < |order| && order[i] == p[m];
      PathSlice(g, p, m, |p|);
      PathMovesLater(g, order, p[m..], i);
    }
  }

  /** The temporary marks are the recursion stack: a path of descending
      visits, each node on it once. */
  ghost predicate StackValid(g: Graph, temporary: seq<int>)
  {
    NoDuplicates(temporary) && (temporary == [] || IsPath(g, temporary))
  }

  /** The permanent marks are distinct non-constant nodes off the stack. */
  ghost predicate FinishedValid(g: Graph, temporary: seq<int>, permanent: seq<int>)
  {
    && NoDuplicates(permanent)
    && (forall x {:trigger x in permanent} :: x in permanent ==> x in g && !g[x].isConstant && x !in temporary)
  }

  /** The invariant of the marks: the stack and the finished nodes are as
      above, the result is the finished nodes newest first, and every node
      was finished after the inputs it descends into. */
  ghost predicate MarksValid(g: Graph, temporary: seq<int>, permanent: seq<int>, result: seq<int>)
  {
    && Closed(g)
    && StackValid(g, temporary)
    && FinishedValid(g, temporary, permanent)
    && result == Reverse(permanent)
    && InputsFinishedFirst(g, permanent)
    && |temporary| + |permanent| <= |g|
  }

  /** Marking `n` temporarily, when the node on top of the stack descends
      into it, keeps the marks valid. */
  lemma PushKeepsMarksValid(g: Graph, temporary: seq<int>, n: int, permanent: seq<int>, result: seq<int>)
    requires MarksValid(g, temporary, permanent, result)
    requires n in g && !g[n].isConstant && n !in temporary && n !in permanent
    requires temporary == [] || (!g[temporary[|temporary| - 1]].isLeaf && n in g[temporary[|temporary| - 1]].inputs)
    ensures MarksValid(g, temporary + [n], permanent, result)
  {
    if temporary != [] {
      PathExtend(g, temporary, n);
    } else {
      assert IsPath(g, [n]);
    }
    MarkedFit(g, temporary, n, permanent);
  }

  /** The marked nodes are distinct nodes of the graph, so there is room
      for one more unmarked node. */
  lemma MarkedFit(g: Graph, temporary: seq<int>, n: int, permanent: seq<int>)
    requires StackValid(g, temporary) && FinishedValid(g, temporary, permanent)
    requires n in g && n !in temporary && n !in permanent
    ensures |temporary| + |permanent| + 1 <= |g|
  {
    var s := temporary + permanent + [n];
    forall i, j | 0 <= i < j < |s| ensures s[i] != s[j] {
      if j < |temporary| {
      } else if j < |temporary| + |permanent| {
        if i >= |temporary| {
          assert s[i] == permanent[i - |temporary|];
        } else {
          assert s[i] in temporary && s[j] in permanent;
        }
      } else {
        assert s[j] == n;
        assert s[i] in temporary || s[i] in permanent;
      }
    }
    forall x | x in s ensures x in g.Keys {
      if x in temporary {
        var k :| 0 <= k < |temporary| && temporary[k] == x;
      }
    }
    DistinctFit(s, g.Keys);
  }

  /** A list of distinct members of `keys` is no longer than `keys`. */
  lemma {:induction false} DistinctFit(s: seq<int>, keys: set<int>)
    requires NoDuplicates(s)
    requires forall x {:trigger x in s} :: x in s ==> x in keys
    ensures |s| <= |keys|
  {
    if s != [] {
      var rest := s[1..];
      assert forall x {:trigger x in rest} :: x in rest ==> x in keys - {s[0]} by {
        forall x | x in rest ensures x in keys - {s[0]} {
          var k :| 0 <= k < |rest| && rest[k] == x;
          assert s[k + 1] == x && x in s;
        }
      }
      assert s[0] in s && s[0] in keys;
      var others := keys - {s[0]};
      assert keys == others + {s[0]} && s[0] !in others;
      DistinctFit(rest, others);
    }
  }

  /** Finishing `n` (unmark, mark permanently, front-insert) keeps the marks
      valid once every input `n` descends into is permanently marked. */
  lemma FinishKeepsMarksValid(g: Graph, temporary: seq<int>, n: int, permanent: seq<int>)
    requires MarksValid(g, temporary + [n], permanent, Reverse(permanent))
    requires n in g && !g[n].isConstant && n !in temporary
    requires forall y :: Edge(g, n, y) ==> y in permanent
    ensures MarksValid(g, temporary, permanent + [n], [n] + Reverse(permanent))
  {
    StackPop(g, temporary, n);
    FinishedPush(g, temporary, n, permanent);
    ReversePush(permanent, n);
    FinishedAfterInputs(g, permanent, n);
  }

  lemma StackPop(g: Graph, temporary: seq<int>, n: int)
    requires StackValid(g, temporary + [n])
    ensures StackValid(g, temporary)
  {
    var t := temporary + [n];
    assert t[..|temporary|] == temporary;
    if temporary != [] {
      PathSlice(g, t, 0, |temporary|);
    }
  }

  lemma FinishedPush(g: Graph, temporary: seq<int>, n: int, permanent: seq<int>)
    requires FinishedValid(g, temporary + [n], permanent)
    requires n in g && !g[n].isConstant && n !in temporary
    ensures FinishedValid(g, temporary, permanent + [n])
  {
    var p := permanent + [n];
    assert n !in permanent;
    assert forall x {:trigger x in p} :: x in p ==> x in g && !g[x].isConstant && x !in temporary;
  }

  lemma ReversePush(s: seq<int>, x: int)
    ensures Reverse(s + [x]) == [x] + Reverse(s)
  {
    assert (s + [x])[..|s|] == s;
  }

  /** Appending a node whose inputs are all finished keeps inputs before consumers. */
  lemma FinishedAfterInputs(g: Graph, finished: seq<int>, n: int)
    requires InputsFinishedFirst(g, finished)
    requires forall y :: Edge(g, n, y) ==> y in finished
    ensures InputsFinishedFirst(g, finished + [n])
  {
    var p := finished + [n];
    forall i, y | 0 <= i < |p| && Edge(g, p[i], y)
      ensures y in p[..i]
    {
      if i < |finished| {
        assert p[i] == finished[i] && p[..i] == finished[..i];
      } else {
        assert p[..i] == finished;
      }
    }
  }

  /** The state of one `topological_sort` call: the graph it explores, the
      list it returns and the two mark lists of its inner `visit`. */
  class Sorter {
    const graph: Graph
    var result: seq<int>
    var permanentMarked: seq<int>
    var temporaryMarked: seq<int>

    ghost predicate Valid()
      reads this
    {
      MarksValid(graph, temporaryMarked, permanentMarked, result)
    }

    /** How many more nodes can still be marked: decreases with every
        temporary mark, so the recursion of `visit` terminates. */
    ghost function Unmarked(): int
      reads this
    {
      |graph| - |temporaryMarked| - |permanentMarked|
    }

    constructor (g: Graph)
      requires Closed(g)
      ensures Valid() && graph == g
      ensures result == [] && permanentMarked == [] && temporaryMarked == []
    {
      graph := g;
      result, permanentMarked, temporaryMarked := [], [], [];
    }

    /** The inner `visit(n)`. Returns `ok == false` where the source raises
        "Not a DAG", with a path that closes a cycle as the ghost witness. */
    method Visit(n: int) returns (ok: bool, ghost lasso: seq<int>)
      requires Valid() && n in graph
      requires temporaryMarked == []
               || (!graph[temporaryMarked[|temporaryMarked| - 1]].isLeaf
                   && n in graph[temporaryMarked[|temporaryMarked| - 1]].inputs)
      modifies this
      decreases Unmarked(), 1
      ensures graph[n].isConstant || n in old(permanentMarked) ==>
                ok && result == old(result) && permanentMarked == old(permanentMarked)
      ensures !graph[n].isConstant && n !in old(permanentMarked) && n in old(temporaryMarked) ==> !ok
      ensures ok ==> Valid() && temporaryMarked == old(temporaryMarked)
      ensures ok ==> old(permanentMarked) <= permanentMarked
      ensures ok && !graph[n].isConstant ==> n in permanentMarked
      ensures ok && !graph[n].isConstant && n !in old(permanentMarked) ==> |result| > 0 && result[0] == n
      ensures ok ==> forall i {:trigger Reachable(graph, n, permanentMarked[i])} :: |old(permanentMarked)| <= i < |permanentMarked| ==> Reachable(graph, n, permanentMarked[i])
      ensures !ok ==> IsLasso(graph, lasso) && old(temporaryMarked) + [n] <= lasso
    {
      if graph[n].isConstant {
        return true, [];
      }
      if n in permanentMarked {
        return true, [];
      } else if n in temporaryMarked {
        PathExtend(graph, temporaryMarked, n);
        return false, temporaryMarked + [n];
      }
      ok, lasso := VisitUnmarked(n);
    }

    /** The part of `visit(n)` after the mark checks: mark `n` temporarily,
        visit its inputs unless it is a leaf, then move it to the permanent
        marks and insert it at the front of the result. */
    method VisitUnmarked(n: int) returns (ok: bool, ghost lasso: seq<int>)
      requires Valid() && n in graph && !graph[n].isConstant
      requires n !in permanentMarked && n !in temporaryMarked
      requires temporaryMarked == []
               || (!graph[temporaryMarked[|temporaryMarked| - 1]].isLeaf
                   && n in graph[temporaryMarked[|temporaryMarked| - 1]].inputs)
      modifies this
      decreases Unmarked(), 0
      ensures ok ==> Valid() && temporaryMarked == old(temporaryMarked)
      ensures ok ==> old(permanentMarked) <= permanentMarked
      ensures ok ==> n in permanentMarked && |result| > 0 && result[0] == n
      ensures ok ==> forall i {:trigger Reachable(graph, n, permanentMarked[i])} :: |old(permanentMarked)| <= i < |permanentMarked| ==> Reachable(graph, n, permanentMarked[i])
      ensures !ok ==> IsLasso(graph, lasso) && old(temporaryMarked) + [n] <= lasso
    {
      PushKeepsMarksValid(graph, temporaryMarked, n, permanentMarked, result);
      temporaryMarked := temporaryMarked + [n];

      if graph[n].isLeaf {
      } else {
        var inputsOk, inputsLasso := VisitInputs(n);
        if !inputsOk {
          return false, inputsLasso;
        }
      }

      Finish(n, old(temporaryMarked), old(permanentMarked));
      ok, lasso := true, [];
    }

    /** The end of `visit(n)`: `n` leaves the temporary marks, joins the
        permanent ones and is inserted at the front of the result. */
    method Finish(n: int, ghost stack: seq<int>, ghost permanent0: seq<int>)
      requires Valid() && n in graph && !graph[n].isConstant && n !in stack
      requires temporaryMarked == stack + [n]
      requires forall y :: Edge(graph, n, y) ==> y in permanentMarked
      requires permanent0 <= permanentMarked
      requires forall i {:trigger Reachable(graph, n, permanentMarked[i])} :: |permanent0| <= i < |permanentMarked| ==> Reachable(graph, n, permanentMarked[i])
      modifies this
      ensures temporaryMarked == stack
      ensures permanentMarked == old(permanentMarked) + [n] && result == [n] + old(result)
      ensures Valid()
      ensures permanent0 <= permanentMarked
      ensures forall i {:trigger Reachable(graph, n, permanentMarked[i])} :: |permanent0| <= i < |permanentMarked| ==> Reachable(graph, n, permanentMarked[i])
    {
      FinishVisit(graph, stack, n, permanent0, permanentMarked);
      temporaryMarked, permanentMarked, result :=
        RemoveFirst(temporaryMarked, n), permanentMarked + [n], [n] + result;
    }

    /** The loop `for input in n.history.inputs: visit(input)` of `visit(n)`,
        run after `n` has been marked temporarily. On success every input
        that `n` descends into is permanently marked. */
    method VisitInputs(n: int) returns (ok: bool, ghost lasso: seq<int>)
      requires Valid() && n in graph && !graph[n].isLeaf
      requires temporaryMarked != [] && temporaryMarked[|temporaryMarked| - 1] == n
      modifies this
      decreases Unmarked(), 2
      ensures ok ==> Valid() && temporaryMarked == old(temporaryMarked)
      ensures ok ==> old(permanentMarked) <= permanentMarked
      ensures ok ==> forall y :: Edge(graph, n, y) ==> y in permanentMarked
      ensures ok ==> forall i {:trigger Reachable(graph, n, permanentMarked[i])} :: |old(permanentMarked)| <= i < |permanentMarked| ==> Reachable(graph, n, permanentMarked[i])
      ensures !ok ==> IsLasso(graph, lasso) && old(temporaryMarked) <= lasso
    {
      var inputs := graph[n].inputs;
      for k := 0 to |inputs|
        invariant Valid()
        invariant temporaryMarked == old(temporaryMarked)
        invariant old(permanentMarked) <= permanentMarked
        invariant forall y :: y in inputs[..k] && !graph[y].isConstant ==> y in permanentMarked
        invariant forall i {:trigger Reachable(graph, n, permanentMarked[i])} :: |old(permanentMarked)| <= i < |permanentMarked| ==> Reachable(graph, n, permanentMarked[i])
      {
        ghost var before := permanentMarked;
        var childOk, childLasso := Visit(inputs[k]);
        if !childOk {
          assert old(temporaryMarked) <= old(temporaryMarked) + [inputs[k]];
          return false, childLasso;
        }
        ReachableAfterChild(graph, n, inputs[k], |old(permanentMarked)|, before, permanentMarked);
        assert inputs[..k + 1] == inputs[..k] + [inputs[k]];
      }
      assert inputs[..|inputs|] == inputs;
      ok, lasso := true, [];
    }
  }

  /** Everything `visit(n)` promises on success, about the lists it leaves
      behind once the inputs of `n` are done. */
  lemma FinishVisit(g: Graph, temporary: seq<int>, n: int, permanent0: seq<int>, permanent: seq<int>)
    requires MarksValid(g, temporary + [n], permanent, Reverse(permanent))
    requires n in g && !g[n].isConstant && n !in temporary
    requires forall y :: Edge(g, n, y) ==> y in permanent
    requires permanent0 <= permanent
    requires forall i {:trigger Reachable(g, n, permanent[i])} :: |permanent0| <= i < |permanent| ==> Reachable(g, n, permanent[i])
    ensures RemoveFirst(temporary + [n], n) == temporary
    ensures MarksValid(g, RemoveFirst(temporary + [n], n), permanent + [n], [n] + Reverse(permanent))
    ensures permanent0 <= permanent + [n]
    ensures forall i :: |permanent0| <= i < |permanent + [n]| ==> Reachable(g, n, (permanent + [n])[i])
  {
    RemoveFirstOfPushed(temporary, n);
    FinishKeepsMarksValid(g, temporary, n, permanent);
    FinishKeepsReachable(g, n, |permanent0|, permanent);
  }

  /** A finished node is reachable from itself, so appending it keeps every
      node finished during its visit reachable from it. */
  lemma FinishKeepsReachable(g: Graph, n: int, from: int, permanent: seq<int>)
    requires n in g && !g[n].isConstant && 0 <= from <= |permanent|
    requires forall i {:trigger Reachable(g, n, permanent[i])} :: from <= i < |permanent| ==> Reachable(g, n, permanent[i])
    ensures forall i :: from <= i < |permanent + [n]| ==> Reachable(g, n, (permanent + [n])[i])
  {
    ReachableSelf(g, n);
  }

  /** The nodes finished by the visit of an input `c` of `n` are reachable from `n`. */
  lemma ReachableAfterChild(g: Graph, n: int, c: int, from: int, before: seq<int>, after: seq<int>)
    requires 0 <= from <= |before| && before <= after
    requires forall i {:trigger Reachable(g, n, before[i])} :: from <= i < |before| ==> Reachable(g, n, before[i])
    requires forall i :: |before| <= i < |after| ==> Reachable(g, c, after[i])
    requires Edge(g, n, c) || |after| == |before|
    ensures forall i {:trigger Reachable(g, n, after[i])} :: from <= i < |after| ==> Reachable(g, n, after[i])
  {
    forall i | from <= i < |after|
      ensures Reachable(g, n, after[i])
    {
      if i >= |before| {
        ReachableStep(g, n, c, after[i]);
      } else {
        assert after[i] == before[i];
      }
    }
  }

  /** `topological_sort(variable)`: fails exactly when a cycle is reachable
      from `variable`, and otherwise returns a topological order from it. */
  method TopologicalSort(g: Graph, variable: int) returns (r: Result<seq<int>>)
    requires Closed(g) && variable in g
    ensures r.Err? <==> HasReachableCycle(g, variable)
    ensures r.Ok? ==> IsTopologicalOrder(g, variable, r.value)
  {
    var sorter := new Sorter(g);
    var ok, lasso := sorter.Visit(variable);
    if !ok {
      assert lasso[0] == variable;
      return Err(NotADag);
    }
    var order := sorter.result;
    assert sorter.temporaryMarked == [];
    ReverseMembers(sorter.permanentMarked);
    ReverseOfFinished(g, sorter.permanentMarked);
    forall x | x in order ensures Reachable(g, variable, x) {
      var i :| 0 <= i < |sorter.permanentMarked| && sorter.permanentMarked[i] == x;
    }
    forall x | Reachable(g, variable, x) ensures x in order {
      if !g[variable].isConstant {
        assert order[0] == variable;
        ReachableInOrder(g, order, variable, x);
      }
    }
    assert IsTopologicalOrder(g, variable, order);
    NoCycleInOrder(g, variable, order);
    r := Ok(order);
  }
}
