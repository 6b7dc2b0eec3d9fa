# minitorch autodiff core in Dafny

This project models the reverse-mode differentiation engine of minitorch
(`minitorch/autodiff.py`):

- `topological_sort`: a depth-first search from the right-most Variable.
  It keeps a temporary and a permanent mark list and raises "Not a DAG" when
  it meets a node that is still on the recursion stack. It inserts every
  finished node at the front of its result.
- `backpropagate`: walks that order. It keeps a `node2driv` map from
  `unique_id` to the derivative collected so far, calls each non-leaf node's
  `chain_rule` and routes the returned pairs: into `accumulate_derivative`
  for leaves, and into `node2driv` for everything else.
- `Context`: the record an operation keeps for its backward pass
  (`save_for_backward` and `saved_tensors`).

Modules:

- `Variables` (`variables.dfy`): the view of a Variable the engine uses.
  This is its `unique_id`, `is_constant()`, `is_leaf()` and
  `history.inputs`, kept as a map from id to `Node`. The module defines the
  descent edges, paths, reachability and reachable cycles.
- `TopoSort` (`toposort.dfy`): the class `Sorter` holds the three lists of
  `topological_sort` as fields. Its methods `Visit`, `VisitUnmarked`,
  `VisitInputs` and `Finish` are the nested `visit`. `TopologicalSort` is
  the function itself. The result is specified by `IsTopologicalOrder`:
  - no duplicates;
  - exactly the non-constant nodes reachable from the variable;
  - consumers before their inputs;
  - the variable first.
  The failure is specified by `HasReachableCycle`.
- `Backprop` (`backprop.dfy`): the method `Backpropagate` runs the two
  loops over real locals. The body of the outer loop is the method
  `PropagateNode`, the inner loop is `RouteContributions`, and its body is
  `RoutePair`.
  - The class `LeafDerivatives` stands for the leaves' derivative storage.
  - The loop is proved against the specification function `Walk`. `Walk`
    is built from `Step` (one node), `RouteAll` (the inner loop) and
    `Route` (one pair).
  - `Start` (lines 115-116), `DerivFor` (lines 120-121) and `Route`
    (lines 124-130) are plain definitions that the lemmas are about. What
    the seeding means is stated by `FanInSum` and `Backpropagate`, the
    carry-over by `NoCarryOver`, `CompleteFanIn` and `CarryOverExample`,
    and the routing by `RoutePair`, `RouteAllLogs` and `LeafTotals`.
  - `Walk` keeps a log of the `chain_rule` calls and of the
    `accumulate_derivative` calls. The lemmas about the backward pass are
    stated over `Walk`.
- `Contexts` (`context.dfy`): the class `Context`.

Three behaviours of the code that a reader might expect to be otherwise.
The model follows the code:

- A non-leaf node with no `node2driv` entry does not start from 0. It
  gets the `deriv` left over from the previous iteration (lines 120-121).
  `DerivFor` keeps this behaviour.
  - `CarryOverExample` exhibits it.
  - `NoCarryOver` shows that it cannot happen when every `chain_rule` names
    all non-constant inputs of its node.
- One might expect a `no_grad` context always to hold nothing. The code
  only skips the save (lines 145-146), so a
  `Context(no_grad=True, saved_values=…)` keeps the values it was built
  with. `Context.SaveForBackward` states the code's behaviour.
- The engine never derives `is_leaf()` from the inputs; it only asks each
  node (lines 86, 118 and 124). So the model takes that flag as given per
  node.

## Model

| member | source | states |
|---|---|---|
| TopoSort.TopologicalSort | minitorch/autodiff.py:60-97 | Fails exactly when a cycle can be reached from the variable by descending visits. Otherwise the list holds every non-constant node reachable from the variable, once each, consumers before inputs, and the variable first. |
| TopoSort.Sorter.constructor | minitorch/autodiff.py:71-73 | The three lists start empty and the marking invariant holds. |
| TopoSort.Sorter.Visit | minitorch/autodiff.py:75-83 | A constant or permanently marked node returns at once and changes nothing. A node still temporarily marked fails with a path that closes a cycle. On success any other node ends permanently marked and at the front of the result, the invariant is kept, the stack is as before, and every node it finishes is reachable from it. On failure the path returned is a lasso that extends the stack by the node. |
| TopoSort.Sorter.VisitUnmarked | minitorch/autodiff.py:84-94 | An unmarked node is visited: on success it is finished and first in the result, the stack is as before and the invariant holds. On failure a cycle witness extends the stack. |
| TopoSort.Sorter.VisitInputs | minitorch/autodiff.py:86-90 | After the loop over the inputs, every non-constant input is permanently marked, and every node finished in the loop is reachable from the node. A failing input passes up its cycle witness. |
| TopoSort.Sorter.Finish | minitorch/autodiff.py:91-94 | The node is taken off the stack, appended to the permanent marks and inserted at the front of the result, and the invariant still holds. |
| TopoSort.RemoveFirst | minitorch/autodiff.py:91 | `list.remove` drops exactly one occurrence: one element shorter, same multiset less that element. |
| TopoSort.RemoveFirstOfPushed | minitorch/autodiff.py:84-91 | Removing a node that was pushed last and occurs nowhere else restores the stack. |
| TopoSort.PushKeepsMarksValid | minitorch/autodiff.py:84 | Pushing an unmarked input of the top of the stack keeps the stack a path, the lists disjoint, and their total within the graph size. |
| TopoSort.MarkedFit | minitorch/autodiff.py:84 | The stack, the permanent marks and one new distinct node all fit in the graph, so the number of unmarked nodes bounds the recursion. |
| TopoSort.FinishKeepsMarksValid | minitorch/autodiff.py:91-94 | Finishing a node whose inputs are all finished keeps the invariant: the stack loses its top, the permanent list stays inputs-first, and the result is its reverse. |
| TopoSort.ReverseOfFinished | minitorch/autodiff.py:92-94 | Reversing an order in which inputs finish first, which is what front-insertion does, gives an order in which consumers come first. |
| TopoSort.ReachableInOrder | minitorch/autodiff.py:88-90 | A consumers-first order that holds the variable holds everything reachable from it. |
| TopoSort.NoCycleInOrder | minitorch/autodiff.py:81-82 | If a topological order from the variable exists, no cycle is reachable from it, so a reachable cycle always makes the sort raise "Not a DAG". |
| Backprop.Backpropagate | minitorch/autodiff.py:101-130 | Fails, touching no leaf, exactly when the sort raises. Otherwise the leaf storage ends as the old storage plus the `accumulate_derivative` calls of the walk over the topological order, with `deriv` carried over between iterations. |
| Backprop.RouteAll | minitorch/autodiff.py:123-130 | The inner loop over the pairs in order keeps `deriv` and the call log, and only appends to the `accumulate_derivative` log. |
| Backprop.Step | minitorch/autodiff.py:117-130 | One node: a leaf changes nothing. Any other node sets `deriv` to `DerivFor` the node and makes exactly one `chain_rule` call with it, and the `accumulate_derivative` log only grows. |
| Backprop.Walk | minitorch/autodiff.py:117-130 | The loop over the order: both logs only grow, and the walk makes at most `|order|` new `chain_rule` calls. |
| Backprop.Accumulate | minitorch/autodiff.py:125 | The leaf storage after a sequence of `accumulate_derivative` calls holds entries for exactly the ids it held before and the ids that were called. |
| Backprop.PropagateNode | minitorch/autodiff.py:117-130 | One iteration of `for node in order`, with real locals and the leaves' calls, is exactly one `Step` of the pass: new `node2driv`, new `deriv`, and the storage after the new calls. |
| Backprop.RouteContributions | minitorch/autodiff.py:123-130 | The inner loop leaves `node2driv` and the leaf storage as the pair-by-pair routing prescribes: leaves accumulate, other ids are summed into their entry or create it. |
| Backprop.LeafDerivatives.AccumulateDerivative | minitorch/autodiff.py:125 | The leaf's stored derivative grows by the amount, and nothing else changes. |
| Backprop.RoutePair | minitorch/autodiff.py:124-130 | One pair either makes one `accumulate_derivative` call (leaf) or adds to or creates the one `node2driv` entry it names, exactly as one routing step of the pass. |
| Backprop.RouteAllLogs | minitorch/autodiff.py:123-130 | The inner loop keeps `deriv` and the call log, and makes one `accumulate_derivative` call per leaf pair, in order. |
| Backprop.ChainRuleCalls | minitorch/autodiff.py:117-125 | `chain_rule` is called once per non-leaf node of the order, in order, and never for a leaf. The leaf pairs it returns, and only those, become `accumulate_derivative` calls. |
| Backprop.ConstantNeverCalled | minitorch/autodiff.py:77-78 | A constant never reaches `chain_rule`. |
| Backprop.FanInSum | minitorch/autodiff.py:115-130 | At every point of the walk, each `node2driv` entry is the seed (for the variable) plus the sum of all pairs sent to that id so far. Entries exist exactly for the variable and the non-leaf ids sent a pair. |
| Backprop.LeafTotals | minitorch/autodiff.py:124-125 | Each leaf's storage gains exactly the sum of the amounts sent to it, and other entries are unchanged. |
| Backprop.LeafDerivativeTotals | minitorch/autodiff.py:117-126 | After the walk, each leaf's storage is its old value plus the sum of every pair naming it across all `chain_rule` results. A non-leaf's storage is unchanged. |
| Backprop.EntryFrozen | minitorch/autodiff.py:117-130 | Once the walk reaches a node of a topological order, its `node2driv` entry never changes again, when `chain_rule` only names inputs. |
| Backprop.NoCarryOver | minitorch/autodiff.py:120-121 | When every `chain_rule` names all non-constant inputs, each non-leaf node already has a `node2driv` entry when reached, so the carried-over `deriv` is never used. |
| Backprop.CompleteFanIn | minitorch/autodiff.py:115-130 | The derivative handed to a node's `chain_rule` is the seed (for the variable) plus the sum of all pairs naming that node in the whole pass: fan-in is complete before use. |
| Backprop.CarryOverExample | minitorch/autodiff.py:120-122 | A node with no `node2driv` entry receives the previous node's derivative, not 0. |
| Backprop.SingleLeafExample | minitorch/autodiff.py:115-126 | `y = 2 * x` with seed 1 leaves 2 at `x`. |
| Backprop.FanInExample | minitorch/autodiff.py:115-130 | `y = a + b`, `a = x + 1`, `b = x * 3` with seed 1 leaves 4 at `x`. |
| Contexts.Context.constructor | minitorch/autodiff.py:140-141 | The fields take the given values, by default `no_grad` false and nothing saved. |
| Contexts.Context.SaveForBackward | minitorch/autodiff.py:143-147 | With `no_grad` nothing changes. Otherwise the saved values become exactly the arguments. `no_grad` never changes. |
| Contexts.DefaultContext | minitorch/autodiff.py:140-141 | A default context wants gradients and holds nothing. |
| Contexts.SaveThenRead | minitorch/autodiff.py:143-151 | `saved_tensors` after one save into a fresh context returns the values exactly when gradients are wanted, and the empty tuple otherwise. |
| Contexts.SaveTwice | minitorch/autodiff.py:143-151 | A later save replaces an earlier one. |

## Left out

- `central_difference` (lines 10-31) is floating-point finite-difference arithmetic on a caller's function. It is not part of this model.
- `variable_count` (line 35) is not used by the engine. It is not part of this model.
- The `Variable` Protocol (lines 38-57) has only stub methods. It declares `parents`, but `topological_sort` reads `n.history.inputs` (line 89), which the Protocol does not declare. A Variable is reduced to its id and the `Node` record of `is_constant()`, `is_leaf()` and `history.inputs`. The graph is assumed closed: every recorded input is itself a node.
- The derivative rules behind `chain_rule` belong to the operations. `chain_rule` is a function parameter from (node, derivative) to pairs. Its error behaviour, and the partial state a failing rule leaves behind, are not modelled.
- Derivatives are exact reals rather than floats or tensors, so rounding and the order of floating-point additions are not captured. The order of additions is kept in the logs.
- Where `accumulate_derivative` stores its value belongs to the Variable. It is modelled as one map from leaf id to total, with 0 for a leaf never written.
- TopoSort.TopologicalSort: the result is characterised by its properties (the exact order a depth-first search produces, left to right over the inputs, is not stated as a function), so the determinism of the order is not captured.
- TopoSort.TopologicalSort: the `RuntimeError("Not a DAG")` becomes the `Err(NotADag)` result, and Python's recursion limit is not modelled.
- Backprop.Backpropagate: the raised error becomes `ok == false`. The order is a ghost out-parameter that names the list the sort returned.
- Backprop.CompleteFanIn assumes that each `chain_rule` names only its node's inputs (`ParentsAreInputs`) and all of its non-constant inputs (`CoversInputs`). The code checks neither.
- Backprop.NoCarryOver assumes only that each `chain_rule` names all of its node's non-constant inputs (`CoversInputs`).
- Backprop.EntryFrozen assumes only that each `chain_rule` names only its node's inputs (`ParentsAreInputs`).
- Gradient correctness (sum over all paths by the chain rule) depends on the concrete derivative rules. It is stated only as complete fan-in summation (`CompleteFanIn`) and leaf totals (`LeafDerivativeTotals`).
- Contexts.Context.SavedTensors is the property `saved_tensors`. It only reads the field, so it has no contract of its own, and `SaveThenRead` and `SaveTwice` state what it returns.
