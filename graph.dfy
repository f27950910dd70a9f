/** The dependency relation of a spreadsheet, read in the forward direction
    (precedent -> dependent), and what reaching a cell or a cycle along it means. */
module DependencyGraph {
  import opened Models

  /** A change to `p` reaches `c`: the formula of `c` references `p`. */
  ghost predicate Feeds(edges: set<Dependency>, p: string, c: string)
  {
    Dependency(c, p) in edges
  }

  /** A non-empty walk along forward edges. */
  ghost predicate IsWalk(edges: set<Dependency>, w: seq<string>)
  {
    |w| > 0 && forall i :: 0 <= i < |w| - 1 ==> Feeds(edges, w[i], w[i + 1])
  }

  /** `b` must possibly be recomputed when `a` changes (every cell reaches itself). */
  ghost predicate Reachable(edges: set<Dependency>, a: string, b: string)
  {
    exists w :: IsWalk(edges, w) && w[0] == a && w[|w| - 1] == b
  }

  /** A walk whose last cell feeds its first one; `[x]` with `x` referencing itself is one. */
  ghost predicate IsCycle(edges: set<Dependency>, w: seq<string>)
  {
    IsWalk(edges, w) && Feeds(edges, w[|w| - 1], w[0])
  }

  ghost predicate HasReachableCycle(edges: set<Dependency>, changed: string)
  {
    exists w :: IsCycle(edges, w) && Reachable(edges, changed, w[0])
  }

  /** `s` contains every dependent of each of its cells. */
  ghost predicate ClosedUnder(edges: set<Dependency>, s: set<string>)
  {
    forall x, y :: x in s && Feeds(edges, x, y) ==> y in s
  }

  lemma ReachableRefl(edges: set<Dependency>, a: string)
    ensures Reachable(edges, a, a)
  {
    assert IsWalk(edges, [a]);
  }

  lemma ReachableStep(edges: set<Dependency>, a: string, b: string, c: string)
    requires Reachable(edges, a, b) && Feeds(edges, b, c)
    ensures Reachable(edges, a, c)
  {
    var w :| IsWalk(edges, w) && w[0] == a && w[|w| - 1] == b;
    var w' := w + [c];
    assert IsWalk(edges, w');
  }

  /** Every cell of a walk is reachable from where the walk starts. */
  lemma {:induction false} WalkReachable(edges: set<Dependency>, w: seq<string>, k: nat)
    requires IsWalk(edges, w) && k < |w|
    ensures Reachable(edges, w[0], w[k])
  {
    if k == 0 {
      ReachableRefl(edges, w[0]);
    } else {
      WalkReachable(edges, w, k - 1);
      ReachableStep(edges, w[0], w[k - 1], w[k]);
    }
  }

  lemma ReachableTrans(edges: set<Dependency>, a: string, b: string, c: string)
    requires Reachable(edges, a, b) && Reachable(edges, b, c)
    ensures Reachable(edges, a, c)
  {
    var u :| IsWalk(edges, u) && u[0] == a && u[|u| - 1] == b;
    var v :| IsWalk(edges, v) && v[0] == b && v[|v| - 1] == c;
    var w := u + v[1..];
    assert IsWalk(edges, w) by {
      forall i | 0 <= i < |w| - 1 ensures Feeds(edges, w[i], w[i + 1]) {
        if i < |u| - 1 {
          assert w[i] == u[i] && w[i + 1] == u[i + 1];
        } else {
          assert w[i] == v[i - |u| + 1] && w[i + 1] == v[i - |u| + 2];
        }
      }
    }
    assert w[|w| - 1] == c;
  }

  /** A set closed under forward edges that holds `a` holds everything `a` reaches. */
  lemma ClosedContainsReachable(edges: set<Dependency>, s: set<string>, a: string, b: string)
    requires a in s && ClosedUnder(edges, s) && Reachable(edges, a, b)
    ensures b in s
  {
    var w :| IsWalk(edges, w) && w[0] == a && w[|w| - 1] == b;
    var k := 0;
    while k < |w| - 1
      invariant 0 <= k <= |w| - 1 && w[k] in s
    {
      assert Feeds(edges, w[k], w[k + 1]);
      k := k + 1;
    }
  }
}
