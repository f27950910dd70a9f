/** The depth-first topological sort of the recalculation planner: three-colour
    marking (unvisited, `visiting`, `visited`) over the forward adjacency, cells
    appended to `order` in post-order, and the path into a cycle recorded in `cycle`
    as the recursion unwinds. */
module TopoSort {
  import opened Sequences
  import opened Search

  /** Every dependent of a cell of `order` comes earlier in `order`. */
  ghost predicate PostOrdered(g: Graph, order: seq<string>)
  {
    forall i, y :: 0 <= i < |order| && y in Adj(g, order[i]) ==> y in order[..i]
  }

  /** Each cell of `s` but the first is a dependent of the cell before it. */
  ghost predicate IsChain(g: Graph, s: seq<string>)
  {
    forall i :: 0 <= i < |s| - 1 ==> s[i + 1] in Adj(g, s[i])
  }

  /** `b` is `a` with cells appended at its end. */
  predicate Extends(a: seq<string>, b: seq<string>)
  {
    |a| <= |b| && b[..|a|] == a
  }

  lemma ExtendsTrans(a: seq<string>, b: seq<string>, c: seq<string>)
    requires Extends(a, b) && Extends(b, c)
    ensures Extends(a, c)
  {
    assert c[..|a|] == c[..|b|][..|a|];
  }

  /** `b` is `a` or lies downstream of it along `g`. */
  ghost predicate Leads(g: Graph, a: string, b: string)
  {
    exists s :: |s| > 0 && s[0] == a && s[|s| - 1] == b && IsChain(g, s)
  }

  lemma LeadsRefl(g: Graph, a: string)
    ensures Leads(g, a, a)
  {
    assert IsChain(g, [a]);
  }

  /** A cell leads to whatever its dependents lead to. */
  lemma LeadsPrepend(g: Graph, a: string, b: string, c: string)
    requires b in Adj(g, a) && Leads(g, b, c)
    ensures Leads(g, a, c)
  {
    var s :| |s| > 0 && s[0] == b && s[|s| - 1] == c && IsChain(g, s);
    var s' := [a] + s;
    forall i | 0 <= i < |s'| - 1 ensures s'[i + 1] in Adj(g, s'[i]) {
      if i > 0 {
        assert s'[i] == s[i - 1] && s'[i + 1] == s[i];
      }
    }
    assert s'[0] == a && s'[|s'| - 1] == c;
  }

  /** The cells a call on dependent `dep` newly finished lie downstream of `cell`,
      and so do those finished before that call. */
  lemma LeadsAfterCall(g: Graph, cell: string, dep: string,
                       start: set<string>, before: set<string>, after: set<string>)
    requires dep in Adj(g, cell)
    requires forall x :: x in before - start ==> Leads(g, cell, x)
    requires forall x :: x in after - before ==> Leads(g, dep, x)
    ensures forall x :: x in after - start ==> Leads(g, cell, x)
  {
    forall x | x in after - start ensures Leads(g, cell, x) {
      if x !in before {
        LeadsPrepend(g, cell, dep, x);
      }
    }
  }

  /** What `cycle` holds once the search from `cell`, entered along `path`, has met a
      cell in progress: a chain that runs backwards from the cell met again to `cell`,
      with that cell met again either on `path` or further along the chain, and the
      rest of the chain distinct and off `path`. */
  ghost predicate UnwoundInto(g: Graph, region: set<string>, path: seq<string>, cell: string,
                              cycle: seq<string>)
  {
    && |cycle| > 0 && cycle[|cycle| - 1] == cell
    && (forall i :: 0 <= i < |cycle| - 1 ==> cycle[i] in Adj(g, cycle[i + 1]))
    && (cycle[0] in path || cycle[0] in cycle[1..])
    && NoDuplicates(cycle[1..])
    && (forall x :: x in cycle[1..] ==> x !in path)
    && (forall x :: x in cycle ==> x in region)
  }

  /** Appending a cell whose dependents all appear already keeps a post-order. */
  lemma PostOrderedAppend(g: Graph, order: seq<string>, x: string)
    requires PostOrdered(g, order)
    requires forall y :: y in Adj(g, x) ==> y in order
    ensures PostOrdered(g, order + [x])
  {
    var order' := order + [x];
    forall i, y | 0 <= i < |order'| && y in Adj(g, order'[i]) ensures y in order'[..i] {
      if i < |order| {
        assert order'[..i] == order[..i];
      } else {
        assert order'[..i] == order;
      }
    }
  }

  /** Failing from a dependent of `cell` and pushing `cell` keeps the shape of `cycle`. */
  lemma UnwindStep(g: Graph, region: set<string>, path: seq<string>, cell: string, dep: string,
                   cycle: seq<string>)
    requires UnwoundInto(g, region, path + [cell], dep, cycle)
    requires dep in Adj(g, cell) && cell in region && cell !in path
    ensures UnwoundInto(g, region, path, cell, cycle + [cell])
  {
    var c := cycle + [cell];
    assert c[1..] == cycle[1..] + [cell];
    assert c[0] == cycle[0];
    forall i | 0 <= i < |c| - 1 ensures c[i] in Adj(g, c[i + 1]) {
      if i < |cycle| - 1 {
        assert c[i] == cycle[i] && c[i + 1] == cycle[i + 1];
      }
    }
    assert forall x :: x in cycle[1..] ==> x !in path + [cell];
    assert cell !in cycle[1..];
    forall i, j | 0 <= i < j < |c[1..]| ensures c[1..][i] != c[1..][j] {
      if j == |c[1..]| - 1 {
        assert c[1..][i] in cycle[1..];
      }
    }
  }

  class Traversal {
    /** The forward adjacency being sorted. */
    const graph: Graph
    /** The cells the sort may meet: the reachable set, closed under `graph`. */
    ghost const region: set<string>
    var visited: set<string>
    var visiting: set<string>
    var order: seq<string>
    var cycle: seq<string>

    /** The marks partition what has been met, and `order` lists the finished cells,
        each after all of its dependents. */
    ghost predicate Valid()
      reads this
    {
      && Closed(graph, region)
      && visited <= region && visiting <= region && visited !! visiting
      && NoDuplicates(order)
      && (forall x :: x in order <==> x in visited)
      && PostOrdered(graph, order)
    }

    constructor (graph: Graph, ghost region: set<string>)
      requires Closed(graph, region)
      ensures Valid() && this.graph == graph && this.region == region
      ensures visited == {} && visiting == {} && order == [] && cycle == []
    {
      this.graph := graph;
      this.region := region;
      visited, visiting := {}, {};
      order, cycle := [], [];
    }

    /** `dfs(cellId)`: `path` is the chain of calls in progress, the cells marked
        `visiting`. `order` only grows at its end, and every cell newly finished lies
        downstream of `cell`. On success `cell` and everything it feeds are finished
        and `cell`, if new, is the last cell of `order`; on failure `cycle` holds the
        chain unwound so far. */
    method Visit(cell: string, ghost path: seq<string>) returns (ok: bool)
      requires Valid() && cycle == [] && cell in region
      requires forall x :: x in visiting <==> x in path
      requires NoDuplicates(path) && IsChain(graph, path + [cell])
      modifies this
      decreases region - visited - visiting, 0
      ensures Valid() && old(visited) <= visited && Extends(old(order), order)
      ensures forall x :: x in visited - old(visited) ==> Leads(graph, cell, x)
      ensures ok ==> visiting == old(visiting) && cycle == [] && cell in visited
      ensures ok && cell !in old(visited) ==> |order| > 0 && order[|order| - 1] == cell
      ensures !ok ==> UnwoundInto(graph, region, path, cell, cycle)
    {
      if cell in visiting {
        cycle := cycle + [cell];
        return false;
      }
      if cell in visited {
        return true;
      }
      visiting := visiting + {cell};
      ok := VisitDependents(cell, path);
      if !ok {
        return;
      }
      PostOrderedAppend(graph, order, cell);
      LeadsRefl(graph, cell);
      visiting := visiting - {cell};
      visited := visited + {cell};
      order := order + [cell];
      assert order[..|old(order)|] == old(order) by {
        assert order[..|old(order)|] == old(order + [cell])[..|old(order)|];
      }
      ok := true;
    }

    /** The `for` loop of `dfs(cellId)` over the dependents of `cell`, which is marked
        `visiting`: on success every dependent is finished and the marks in progress
        are as before; on failure `cell` has been pushed onto `cycle`. */
    method VisitDependents(cell: string, ghost path: seq<string>) returns (ok: bool)
      requires Valid() && cycle == [] && cell in region && cell !in visited
      requires forall x :: x in visiting <==> x in path || x == cell
      requires NoDuplicates(path) && cell !in path && IsChain(graph, path + [cell])
      modifies this
      decreases region - visited - visiting, 1
      ensures Valid() && old(visited) <= visited && Extends(old(order), order)
      ensures forall x :: x in visited - old(visited) ==> Leads(graph, cell, x)
      ensures ok ==> visiting == old(visiting) && cycle == []
      ensures ok ==> forall y :: y in Adj(graph, cell) ==> y in visited
      ensures !ok ==> UnwoundInto(graph, region, path, cell, cycle)
    {
      assert NoDuplicates(path + [cell]);
      var deps := Adj(graph, cell);
      var i := 0;
      while i < |deps|
        invariant 0 <= i <= |deps|
        invariant Valid() && cycle == [] && visiting == old(visiting)
        invariant old(visited) <= visited && cell !in visited && Extends(old(order), order)
        invariant forall x :: x in visited - old(visited) ==> Leads(graph, cell, x)
        invariant forall j :: 0 <= j < i ==> deps[j] in visited
      {
        assert IsChain(graph, path + [cell] + [deps[i]]) by {
          var s := path + [cell] + [deps[i]];
          assert s[..|s| - 1] == path + [cell];
        }
        ghost var before, orderBefore := visited, order;
        ok := Visit(deps[i], path + [cell]);
        ExtendsTrans(old(order), orderBefore, order);
        LeadsAfterCall(graph, cell, deps[i], old(visited), before, visited);
        if !ok {
          UnwindStep(graph, region, path, cell, deps[i], cycle);
          cycle := cycle + [cell];
          return;
        }
        i := i + 1;
      }
      ok := true;
    }
  }
}
