/** The recalculation planner: which cells must be recomputed after `changed`
    changes, in an order that puts every precedent before its dependents, or the
    cells on the way into a cycle that makes such an order impossible. */
module Planner {
  import opened Models
  import opened Sequences
  import opened DependencyGraph
  import opened Search
  import opened TopoSort

  /** `{ order: [...] }` or the `cycle_detected_involving_cells` payload. */
  datatype RecalcPlan = Order(cells: seq<string>) | Cycle(cells: seq<string>)

  /** Whenever one cell of `r` feeds another, the precedent comes first. */
  ghost predicate PrecedentsFirst(edges: set<Dependency>, r: seq<string>)
  {
    forall i, j :: 0 <= i < |r| && 0 <= j < |r| && Feeds(edges, r[i], r[j]) ==> i < j
  }

  /** A valid recalculation order: the changed cell first, then every reachable cell
      that has a formula, each once, precedents before dependents. */
  ghost predicate IsRecalcOrder(edges: set<Dependency>, changed: string,
                                formulaCells: set<string>, r: seq<string>)
  {
    && |r| > 0 && r[0] == changed
    && NoDuplicates(r)
    && (forall x :: x in r <==> x == changed || (x in formulaCells && Reachable(edges, changed, x)))
    && PrecedentsFirst(edges, r)
  }

  /** A cycle report: distinct cells, starting at the changed cell, each feeding the
      next, the last one feeding one of them again. */
  ghost predicate IsCycleReport(edges: set<Dependency>, changed: string, r: seq<string>)
  {
    && |r| > 0 && r[0] == changed
    && NoDuplicates(r)
    && (forall i :: 0 <= i < |r| - 1 ==> Feeds(edges, r[i], r[i + 1]))
    && (exists j :: 0 <= j < |r| && Feeds(edges, r[|r| - 1], r[j]))
  }

  /** What the planner promises: a cycle is reported exactly when one is reachable
      from the changed cell, and each kind of answer is well formed. */
  ghost predicate SoundPlan(edges: set<Dependency>, changed: string,
                            formulaCells: set<string>, plan: RecalcPlan)
  {
    && (plan.Cycle? <==> HasReachableCycle(edges, changed))
    && (plan.Order? ==> IsRecalcOrder(edges, changed, formulaCells, plan.cells))
    && (plan.Cycle? ==> IsCycleReport(edges, changed, plan.cells))
  }

  /** No cell of `s` has a dependent at its own position or later. */
  ghost predicate NoLaterDependent(g: Graph, s: seq<string>)
  {
    forall i, j :: 0 <= i <= j < |s| ==> s[j] !in Adj(g, s[i])
  }

  /** The cells of a cycle report are all reached by the change, and a cycle
      is among them. */
  lemma CycleReportSound(edges: set<Dependency>, changed: string, r: seq<string>)
    requires IsCycleReport(edges, changed, r)
    ensures forall x :: x in r ==> Reachable(edges, changed, x)
    ensures HasReachableCycle(edges, changed)
  {
    assert IsWalk(edges, r);
    forall x | x in r ensures Reachable(edges, changed, x) {
      var k :| 0 <= k < |r| && r[k] == x;
      WalkReachable(edges, r, k);
    }
    var j :| 0 <= j < |r| && Feeds(edges, r[|r| - 1], r[j]);
    var w := r[j..];
    assert IsWalk(edges, w) by {
      forall i | 0 <= i < |w| - 1 ensures Feeds(edges, w[i], w[i + 1]) {
        assert w[i] == r[j + i] && w[i + 1] == r[j + i + 1];
      }
    }
    assert IsCycle(edges, w);
    WalkReachable(edges, r, j);
  }

  /** A post-order without duplicates has no dependent at or after its precedent. */
  lemma PostOrderNoLater(g: Graph, s: seq<string>)
    requires PostOrdered(g, s) && NoDuplicates(s)
    ensures NoLaterDependent(g, s)
  {
    forall i, j | 0 <= i <= j < |s| ensures s[j] !in Adj(g, s[i]) {
      forall k | 0 <= k < i ensures s[..i][k] != s[j] {
        assert s[..i][k] == s[k];
      }
    }
  }

  /** Filtering keeps the property that no cell has a dependent at or after its own
      position. */
  lemma {:induction false} FilterNoLater(g: Graph, s: seq<string>, keep: set<string>)
    requires NoLaterDependent(g, s)
    ensures NoLaterDependent(g, Filter(s, keep))
  {
    if s != [] {
      var p, x := s[..|s| - 1], s[|s| - 1];
      assert NoLaterDependent(g, p);
      FilterNoLater(g, p, keep);
      var f := Filter(p, keep);
      var r := Filter(s, keep);
      if x in keep {
        assert r == f + [x];
        forall i, j | 0 <= i <= j < |r| ensures r[j] !in Adj(g, r[i]) {
          if i == |r| - 1 {
            assert r[i] == x == s[|s| - 1];
          } else if j == |r| - 1 {
            assert r[i] == f[i] && f[i] in f;
            var k :| 0 <= k < |p| && p[k] == r[i];
            assert s[k] == r[i] && k <= |s| - 1;
          } else {
            assert r[i] == f[i] && r[j] == f[j];
          }
        }
      } else {
        assert r == f;
      }
    }
  }

  /** Reversing a sequence with no later dependents puts precedents first. */
  lemma ReverseNoLater(g: Graph, edges: set<Dependency>, s: seq<string>)
    requires IsForwardGraph(g, edges) && NoLaterDependent(g, s)
    ensures PrecedentsFirst(edges, Reverse(s))
  {
    var r := Reverse(s);
    forall i, j | 0 <= i < |r| && 0 <= j < |r| && Feeds(edges, r[i], r[j]) ensures i < j {
      var n := |s|;
      assert r[i] == s[n - 1 - i] && r[j] == s[n - 1 - j];
      assert s[n - 1 - j] in Adj(g, s[n - 1 - i]);
    }
  }

  /** Along a walk from a reached cell, positions in `s` only go down, so the walk
      never closes into a cycle. */
  lemma WalkNotClosed(g: Graph, edges: set<Dependency>, changed: string, s: seq<string>,
                      w: seq<string>)
    requires IsForwardGraph(g, edges) && NoLaterDependent(g, s)
    requires forall x :: Reachable(edges, changed, x) ==> x in s
    requires IsWalk(edges, w) && Reachable(edges, changed, w[0])
    ensures !Feeds(edges, w[|w| - 1], w[0])
  {
    var first :| 0 <= first < |s| && s[first] == w[0];
    var idx, k := first, 0;
    while k < |w| - 1
      invariant 0 <= k <= |w| - 1
      invariant 0 <= idx <= first && s[idx] == w[k]
      invariant Reachable(edges, changed, w[k])
    {
      assert Feeds(edges, w[k], w[k + 1]);
      ReachableStep(edges, changed, w[k], w[k + 1]);
      var j :| 0 <= j < |s| && s[j] == w[k + 1];
      assert s[j] in Adj(g, s[idx]);
      idx, k := j, k + 1;
    }
    assert s[first] !in Adj(g, s[idx]);
  }

  /** An order of every reached cell with no later dependents rules out a
      reachable cycle. */
  lemma NoReachableCycle(g: Graph, edges: set<Dependency>, changed: string, s: seq<string>)
    requires IsForwardGraph(g, edges) && NoLaterDependent(g, s)
    requires forall x :: Reachable(edges, changed, x) ==> x in s
    ensures !HasReachableCycle(edges, changed)
  {
    forall w | IsCycle(edges, w) ensures !Reachable(edges, changed, w[0]) {
      if Reachable(edges, changed, w[0]) {
        WalkNotClosed(g, edges, changed, s, w);
      }
    }
  }

  /** Reversing the unwinding and dropping its repeated first cell leaves the
      reversed rest of it. */
  lemma DedupReverseUnwound(cycle: seq<string>)
    requires |cycle| > 0 && cycle[0] in cycle[1..] && NoDuplicates(cycle[1..])
    ensures Dedup(Reverse(cycle)) == Reverse(cycle[1..])
  {
    var tail := cycle[1..];
    var r := Reverse(tail);
    assert Reverse(cycle) == r + [cycle[0]];
    assert cycle[0] in r by {
      var k :| 0 <= k < |tail| && tail[k] == cycle[0];
      assert r[|tail| - 1 - k] == cycle[0];
    }
    DedupAppendSeen(r, cycle[0]);
    ReverseNoDuplicates(tail);
    DedupOfDistinct(r);
  }

  /** The report built from a failed search started at `changed`: the reversed
      unwinding, with the cell met twice dropped, is the path into the cycle. */
  lemma UnwoundReport(g: Graph, edges: set<Dependency>, region: set<string>, changed: string,
                      cycle: seq<string>)
    requires IsForwardGraph(g, edges)
    requires UnwoundInto(g, region, [], changed, cycle)
    ensures IsCycleReport(edges, changed, Dedup(Reverse(cycle)))
  {
    DedupReverseUnwound(cycle);
    UnwoundChain(g, edges, cycle);
  }

  /** The reversed rest of an unwinding is a cycle report for its last cell. */
  lemma UnwoundChain(g: Graph, edges: set<Dependency>, cycle: seq<string>)
    requires IsForwardGraph(g, edges)
    requires |cycle| > 0 && cycle[0] in cycle[1..] && NoDuplicates(cycle[1..])
    requires forall i :: 0 <= i < |cycle| - 1 ==> cycle[i] in Adj(g, cycle[i + 1])
    ensures IsCycleReport(edges, cycle[|cycle| - 1], Reverse(cycle[1..]))
  {
    var tail := cycle[1..];
    var r := Reverse(tail);
    var m := |tail|;
    ReverseNoDuplicates(tail);
    forall i | 0 <= i < m - 1 ensures Feeds(edges, r[i], r[i + 1]) {
      assert r[i] == cycle[m - i] && r[i + 1] == cycle[m - i - 1];
    }
    var k :| 0 <= k < m && tail[k] == cycle[0];
    assert r[m - 1] == cycle[1] && r[m - 1 - k] == cycle[0];
    assert Feeds(edges, r[m - 1], r[m - 1 - k]);
  }

  /** A finished search from `changed` over its closed reachable region finishes
      every cell of the region. */
  lemma FinishedAll(g: Graph, edges: set<Dependency>, changed: string, order: seq<string>,
                    visited: set<string>, region: set<string>)
    requires IsForwardGraph(g, edges)
    requires PostOrdered(g, order) && forall x :: x in order <==> x in visited
    requires changed in visited && visited <= region
    requires forall x :: x in region ==> Reachable(edges, changed, x)
    ensures visited == region
  {
    assert ClosedUnder(edges, visited) by {
      forall x, y | x in visited && Feeds(edges, x, y) ensures y in visited {
        var i :| 0 <= i < |order| && order[i] == x;
        assert y in Adj(g, order[i]);
      }
    }
    forall x | x in region ensures x in visited {
      ClosedContainsReachable(edges, visited, changed, x);
    }
  }

  /** The set of the reachable cells, closed under the graph. */
  lemma ReachRegion(g: Graph, edges: set<Dependency>, changed: string, reach: seq<string>)
    returns (region: set<string>)
    requires IsForwardGraph(g, edges)
    requires forall x :: x in reach <==> Reachable(edges, changed, x)
    ensures forall x :: x in region <==> x in reach
    ensures Closed(g, region)
  {
    region := set x | x in reach;
    forall x, y | x in region && y in Adj(g, x) ensures y in region {
      ReachableStep(edges, changed, x, y);
    }
  }

  /** The last cell of a sequence, when kept, is the last cell of the filtered one. */
  lemma FilterLast(s: seq<string>, keep: set<string>)
    requires |s| > 0 && s[|s| - 1] in keep
    ensures |Filter(s, keep)| > 0 && Filter(s, keep)[|Filter(s, keep)| - 1] == s[|s| - 1]
  {
  }

  /** The answer on success: the finished cells that have a formula, and the changed
      cell, in reverse post-order form a valid recalculation order, and no cycle is
      reachable. */
  lemma OrderResult(g: Graph, edges: set<Dependency>, changed: string,
                    formulaCells: set<string>, order: seq<string>)
    requires IsForwardGraph(g, edges)
    requires PostOrdered(g, order) && NoDuplicates(order)
    requires |order| > 0 && order[|order| - 1] == changed
    requires forall x :: x in order <==> Reachable(edges, changed, x)
    ensures !HasReachableCycle(edges, changed)
    ensures IsRecalcOrder(edges, changed, formulaCells,
                          Reverse(Filter(order, formulaCells + {changed})))
  {
    PostOrderNoLater(g, order);
    NoReachableCycle(g, edges, changed, order);
    RecalcShape(g, edges, changed, formulaCells, order);
  }

  /** The ordering half of `OrderResult`. */
  lemma RecalcShape(g: Graph, edges: set<Dependency>, changed: string,
                    formulaCells: set<string>, order: seq<string>)
    requires IsForwardGraph(g, edges)
    requires NoLaterDependent(g, order) && NoDuplicates(order)
    requires |order| > 0 && order[|order| - 1] == changed
    requires forall x :: x in order <==> Reachable(edges, changed, x)
    ensures IsRecalcOrder(edges, changed, formulaCells,
                          Reverse(Filter(order, formulaCells + {changed})))
  {
    var keep := formulaCells + {changed};
    var recalc := Filter(order, keep);
    FilterNoLater(g, order, keep);
    FilterNoDuplicates(order, keep);
    FilterLast(order, keep);
    ReverseNoLater(g, edges, recalc);
    ReverseNoDuplicates(recalc);
    assert Reverse(recalc)[0] == changed;
    RecalcMembers(edges, changed, formulaCells, order);
  }

  /** The cells the answer holds: the changed cell and the reached cells with a formula. */
  lemma RecalcMembers(edges: set<Dependency>, changed: string, formulaCells: set<string>,
                      order: seq<string>)
    requires forall x :: x in order <==> Reachable(edges, changed, x)
    ensures forall x :: x in Reverse(Filter(order, formulaCells + {changed})) <==>
                        x == changed || (x in formulaCells && Reachable(edges, changed, x))
  {
    ReverseMembers(Filter(order, formulaCells + {changed}));
    ReachableRefl(edges, changed);
  }

  /** `getRecalculationOrder` after its argument check: build the graph, collect the
      cells the change reaches, sort them depth-first, and either report the cycle
      met or keep the cells with a formula (and the changed cell) in reverse
      post-order. */
  method Plan(rows: seq<Dependency>, changed: string, formulaCells: set<string>)
    returns (plan: RecalcPlan)
    ensures SoundPlan(Edges(rows), changed, formulaCells, plan)
  {
    ghost var edges := Edges(rows);
    var graph := BuildGraph(rows);
    var reach := CollectReachable(graph, changed, edges);
    ghost var region := ReachRegion(graph, edges, changed, reach);
    var t := new Traversal(graph, region);
    var i := 0;
    while i < |reach|
      invariant 0 <= i <= |reach|
      invariant t.Valid() && t.graph == graph && t.region == region
      invariant t.visiting == {} && t.cycle == []
      invariant i == 0 ==> t.visited == {}
      invariant i > 0 ==> t.visited == region && |t.order| > 0 && t.order[|t.order| - 1] == changed
    {
      var cell := reach[i];
      if cell !in t.visited {
        var ok := t.Visit(cell, []);
        if !ok {
          UnwoundReport(graph, edges, region, changed, t.cycle);
          plan := Cycle(Dedup(Reverse(t.cycle)));
          CycleReportSound(edges, changed, plan.cells);
          return;
        }
        FinishedAll(graph, edges, changed, t.order, t.visited, region);
      }
      i := i + 1;
    }
    OrderResult(graph, edges, changed, formulaCells, t.order);
    plan := Order(Reverse(Filter(t.order, formulaCells + {changed})));
  }
}
