/** The first two steps of the recalculation planner: the forward adjacency built
    from the dependency rows, and the set of cells a change reaches. */
module Search {
  import opened Models
  import opened Sequences
  import opened DependencyGraph

  /** Forward adjacency: a precedent mapped to the cells whose formulas reference it. */
  type Graph = map<string, seq<string>>

  /** `graph[x] || []` */
  function Adj(g: Graph, x: string): seq<string>
  {
    if x in g then g[x] else []
  }

  /** `g` lists, for each cell, exactly the cells it feeds in `edges`. */
  ghost predicate IsForwardGraph(g: Graph, edges: set<Dependency>)
  {
    forall p, c :: c in Adj(g, p) <==> Feeds(edges, p, c)
  }

  /** `s` holds every dependent, in `g`, of each of its cells. */
  ghost predicate Closed(g: Graph, s: set<string>)
  {
    forall x, y :: x in s && y in Adj(g, x) ==> y in s
  }

  /** The cells whose formulas reference `p`, in the order of the rows. */
  function Dependents(rows: seq<Dependency>, p: string): (r: seq<string>)
    ensures forall c :: c in r <==> Dependency(c, p) in rows
  {
    if rows == [] then []
    else
      var d := rows[|rows| - 1];
      Dependents(rows[..|rows| - 1], p) + (if d.dependsOn == p then [d.cellId] else [])
  }

  /** Builds the forward adjacency `dependsOn -> [cellId, ...]` by one pass over the rows. */
  method BuildGraph(rows: seq<Dependency>) returns (g: Graph)
    ensures forall p :: Adj(g, p) == Dependents(rows, p)
    ensures IsForwardGraph(g, Edges(rows))
  {
    g := map[];
    var i := 0;
    while i < |rows|
      invariant 0 <= i <= |rows|
      invariant forall p :: Adj(g, p) == Dependents(rows[..i], p)
    {
      var d := rows[i];
      assert rows[..i + 1][..i] == rows[..i];
      g := g[d.dependsOn := Adj(g, d.dependsOn) + [d.cellId]];
      i := i + 1;
    }
    assert rows[..i] == rows;
  }

  /** The state of the reachability search: `reach` holds the cells met so far and
      `stack` the cells still to look at, all of them reached by the change, and every
      dependent of a cell met is either met or still on the stack. `universe` bounds
      the cells the search can meet. */
  ghost predicate SearchState(edges: set<Dependency>, changed: string, universe: set<string>,
                              reach: seq<string>, seen: set<string>, stack: seq<string>)
  {
    && NoDuplicates(reach)
    && seen <= universe && (forall x :: x in reach <==> x in seen)
    && (forall x :: x in stack ==> x in universe && Reachable(edges, changed, x))
    && (forall x :: x in seen ==> Reachable(edges, changed, x))
    && (|reach| == 0 ==> stack == [changed])
    && (|reach| > 0 ==> reach[0] == changed)
    && MetOrPending(edges, reach, stack)
  }

  /** Every dependent of a cell met is met or still on the stack. */
  ghost predicate MetOrPending(edges: set<Dependency>, reach: seq<string>, stack: seq<string>)
  {
    forall i, y :: 0 <= i < |reach| && Feeds(edges, reach[i], y) ==> y in reach || y in stack
  }

  /** The search starts with only the changed cell on the stack. */
  lemma SearchStart(edges: set<Dependency>, changed: string, universe: set<string>)
    requires changed in universe
    ensures SearchState(edges, changed, universe, [], {}, [changed])
  {
    ReachableRefl(edges, changed);
  }

  /** Popping a cell already met keeps the search state. */
  lemma SkipStep(edges: set<Dependency>, changed: string, universe: set<string>,
                 reach: seq<string>, seen: set<string>, stack: seq<string>)
    requires SearchState(edges, changed, universe, reach, seen, stack)
    requires |stack| > 0 && stack[|stack| - 1] in reach
    ensures SearchState(edges, changed, universe, reach, seen, stack[..|stack| - 1])
  {
    var stack' := stack[..|stack| - 1];
    assert forall y :: y in stack ==> y == stack[|stack| - 1] || y in stack';
  }

  /** Popping a cell not met yet, recording it and pushing its dependents keeps the
      search state, and leaves fewer cells of `universe` to meet. */
  lemma ExpandStep(edges: set<Dependency>, changed: string, universe: set<string>,
                   reach: seq<string>, seen: set<string>, stack: seq<string>,
                   curr: string, next: seq<string>)
    requires SearchState(edges, changed, universe, reach, seen, stack)
    requires forall d :: d in edges ==> d.cellId in universe
    requires |stack| > 0 && curr == stack[|stack| - 1] && curr !in reach
    requires forall y :: y in next <==> Feeds(edges, curr, y)
    ensures |universe - (seen + {curr})| < |universe - seen|
    ensures NoDuplicates(reach + [curr]) && (reach + [curr])[0] == changed
    ensures seen + {curr} <= universe
    ensures forall x :: x in reach + [curr] <==> x in seen + {curr}
    ensures forall x :: x in stack[..|stack| - 1] + next ==> x in universe && Reachable(edges, changed, x)
    ensures forall x :: x in seen + {curr} ==> Reachable(edges, changed, x)
    ensures MetOrPending(edges, reach + [curr], stack[..|stack| - 1] + next)
  {
    assert curr in universe - seen;
    assert universe - (seen + {curr}) < universe - seen;
    var stack1 := stack[..|stack| - 1];
    var reach', seen', stack' := reach + [curr], seen + {curr}, stack1 + next;
    assert forall y :: y in stack ==> y == curr || y in stack1;
    assert Reachable(edges, changed, curr);
    forall y | y in next ensures y in universe && Reachable(edges, changed, y) {
      assert Dependency(y, curr) in edges;
      ReachableStep(edges, changed, curr, y);
    }
    assert NoDuplicates(reach');
    assert seen' <= universe && (forall x :: x in reach' <==> x in seen');
    assert forall x :: x in stack' ==> x in universe && Reachable(edges, changed, x);
    assert forall x :: x in seen' ==> Reachable(edges, changed, x);
    assert |reach| > 0 ==> curr != changed;
    assert reach'[0] == changed;
    ExpandClosed(edges, reach, stack, curr, next);
  }

  /** The closure part of `ExpandStep`. */
  lemma ExpandClosed(edges: set<Dependency>, reach: seq<string>, stack: seq<string>,
                     curr: string, next: seq<string>)
    requires |stack| > 0 && curr == stack[|stack| - 1]
    requires MetOrPending(edges, reach, stack)
    requires forall y :: Feeds(edges, curr, y) ==> y in next
    ensures MetOrPending(edges, reach + [curr], stack[..|stack| - 1] + next)
  {
    var reach', stack' := reach + [curr], stack[..|stack| - 1] + next;
    forall i, y | 0 <= i < |reach'| && Feeds(edges, reach'[i], y) ensures y in reach' || y in stack' {
      if i < |reach| {
        assert reach'[i] == reach[i];
        assert y in reach || y in stack;
        assert y in stack ==> y == curr || y in stack[..|stack| - 1];
      }
    }
  }

  /** The cells a change to `changed` reaches, found with an explicit stack, in the
      order they are first met (a JavaScript Set keeps insertion order). */
  method CollectReachable(g: Graph, changed: string, ghost edges: set<Dependency>)
    returns (reach: seq<string>)
    requires IsForwardGraph(g, edges)
    ensures |reach| > 0 && reach[0] == changed
    ensures NoDuplicates(reach)
    ensures forall x, y :: x in reach && Feeds(edges, x, y) ==> y in reach
    ensures forall x :: x in reach <==> Reachable(edges, changed, x)
  {
    ghost var universe := CellsMentioned(edges, changed);
    var stack := [changed];
    reach := [];
    ghost var seen: set<string> := {};
    SearchStart(edges, changed, universe);
    while |stack| > 0
      invariant SearchState(edges, changed, universe, reach, seen, stack)
      decreases |universe - seen|, |stack|
    {
      var curr := stack[|stack| - 1];
      if curr !in reach {
        var next := Adj(g, curr);
        ExpandStep(edges, changed, universe, reach, seen, stack, curr, next);
        stack := stack[..|stack| - 1] + next;
        reach, seen := reach + [curr], seen + {curr};
      } else {
        SkipStep(edges, changed, universe, reach, seen, stack);
        stack := stack[..|stack| - 1];
      }
    }
    SearchDone(edges, changed, universe, reach, seen);
  }

  /** A finite set holding `changed` and every cell that depends on something. */
  lemma CellsMentioned(edges: set<Dependency>, changed: string) returns (u: set<string>)
    ensures changed in u && forall d :: d in edges ==> d.cellId in u
  {
    u := {changed} + set d | d in edges :: d.cellId;
  }

  /** With the stack empty, the cells met are exactly those the change reaches. */
  lemma SearchDone(edges: set<Dependency>, changed: string, universe: set<string>,
                   reach: seq<string>, seen: set<string>)
    requires SearchState(edges, changed, universe, reach, seen, [])
    ensures |reach| > 0 && reach[0] == changed
    ensures NoDuplicates(reach)
    ensures forall x, y :: x in reach && Feeds(edges, x, y) ==> y in reach
    ensures forall x :: x in reach <==> Reachable(edges, changed, x)
  {
    forall x, y | x in reach && Feeds(edges, x, y) ensures y in reach {
      var i :| 0 <= i < |reach| && reach[i] == x;
    }
    forall x | Reachable(edges, changed, x) ensures x in reach {
      ClosedContainsReachable(edges, seen, changed, x);
    }
  }
}
