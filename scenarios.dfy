/** Small spreadsheets for which the planner's contract leaves exactly one answer. */
module Scenarios {
  import opened Models
  import opened Sequences
  import opened DependencyGraph
  import opened Planner
  import opened Extractor
  import opened Store

  /** `A1 = 10` and nothing referencing it: no rows at all. */
  const LoneRows: set<Dependency> := {}

  /** `A1 = "=A1"`: the row of a self-referencing formula. */
  const SelfRows: set<Dependency> := {Dependency("A1", "A1")}

  /** `A1 = "=B1"`, `B1 = "=A1"`. */
  const MutualRows: set<Dependency> := {Dependency("A1", "B1"), Dependency("B1", "A1")}

  /** `A1 = 5`, `B1 = "=A1+1"`, `C1 = "=B1*2"`. */
  const ChainRows: set<Dependency> := {Dependency("B1", "A1"), Dependency("C1", "B1")}

  /** A self-referencing cell is a cycle of one cell, never ordered. */
  lemma SelfReferenceIsCycle(formulaCells: set<string>, plan: RecalcPlan)
    requires SoundPlan(SelfRows, "A1", formulaCells, plan)
    ensures plan == Cycle(["A1"])
  {
    var w := ["A1"];
    assert IsCycle(SelfRows, w);
    ReachableRefl(SelfRows, "A1");
    var r := plan.cells;
    assert forall a, b :: Feeds(SelfRows, a, b) ==> b == "A1";
  }

  /** Two cells referencing each other: the cycle error names both of them, the
      changed cell first. */
  lemma MutualReferenceIsCycle(formulaCells: set<string>, plan: RecalcPlan)
    requires SoundPlan(MutualRows, "A1", formulaCells, plan)
    ensures plan == Cycle(["A1", "B1"])
  {
    var w := ["A1", "B1"];
    assert IsWalk(MutualRows, w);
    assert IsCycle(MutualRows, w);
    ReachableRefl(MutualRows, "A1");
    var r := plan.cells;
    assert forall a, b :: Feeds(MutualRows, a, b) <==>
      (a == "A1" && b == "B1") || (a == "B1" && b == "A1");
    forall k | 0 <= k < |r| ensures r[k] in {"A1", "B1"} {
      if k > 0 {
        assert Feeds(MutualRows, r[k - 1], r[k]);
      }
    }
    DistinctWithin(r, {"A1", "B1"});
  }

  /** In the chain every walk from `A1` follows `A1, B1, C1`. */
  lemma {:induction false} ChainWalk(r: seq<string>)
    requires IsWalk(ChainRows, r) && r[0] == "A1"
    ensures |r| <= 3
    ensures forall i :: 0 <= i < |r| ==> r[i] == ["A1", "B1", "C1"][i]
  {
    if |r| > 1 {
      assert Feeds(ChainRows, r[0], r[1]);
      assert r[1] == "B1";
    }
    if |r| > 2 {
      assert Feeds(ChainRows, r[1], r[2]);
      assert r[2] == "C1";
    }
    assert |r| > 3 ==> Feeds(ChainRows, r[2], r[3]);
  }

  /** No cycle report exists for the chain. */
  lemma ChainHasNoCycleReport(r: seq<string>)
    ensures !IsCycleReport(ChainRows, "A1", r)
  {
    if |r| > 0 && r[0] == "A1" && IsWalk(ChainRows, r) {
      ChainWalk(r);
      forall j | 0 <= j < |r| ensures !Feeds(ChainRows, r[|r| - 1], r[j]) {
        assert r[j] == ["A1", "B1", "C1"][j];
      }
    }
  }

  /** A value cell feeding a chain of two formulas: the order is the chain itself. */
  lemma ChainOrder(plan: RecalcPlan)
    requires SoundPlan(ChainRows, "A1", {"B1", "C1"}, plan)
    ensures plan == Order(["A1", "B1", "C1"])
  {
    ChainHasNoCycleReport(plan.cells);
    var r := plan.cells;
    assert IsWalk(ChainRows, ["A1", "B1"]);
    assert IsWalk(ChainRows, ["A1", "B1", "C1"]);
    assert Reachable(ChainRows, "A1", "B1") && Reachable(ChainRows, "A1", "C1");
    assert "B1" in r && "C1" in r;
    var i :| 0 <= i < |r| && r[i] == "B1";
    var j :| 0 <= j < |r| && r[j] == "C1";
    assert Feeds(ChainRows, r[i], r[j]);
    DistinctWithin(r, {"A1", "B1", "C1"});
    assert 0 < i < j < |r| <= 3;
  }

  /** A cell nothing depends on: the order is that cell alone. */
  lemma LoneOrder(formulaCells: set<string>, plan: RecalcPlan)
    requires SoundPlan(LoneRows, "A1", formulaCells, plan)
    ensures plan == Order(["A1"])
  {
    forall x | Reachable(LoneRows, "A1", x) ensures x == "A1" {
      var w :| IsWalk(LoneRows, w) && w[0] == "A1" && w[|w| - 1] == x;
      assert |w| == 1 || Feeds(LoneRows, w[0], w[1]);
    }
    ReachableRefl(LoneRows, "A1");
    var r := plan.cells;
    assert !HasReachableCycle(LoneRows, "A1");
    DistinctWithin(r, {"A1"});
  }

  /** The chain example's writes: `A1 = 5`, `B1 = "=A1+1"`, `C1 = "=B1*2"`. */
  method ChainStore() returns (store: DependencyStore<int>)
    ensures store.edges == ChainRows
    ensures forall c :: c in store.FormulaCells() <==> c == "B1" || c == "C1"
  {
    store := new DependencyStore<int>();
    ExampleFormulas();
    store.SetValue("A1", 5);
    var _ := store.SetFormula("B1", Some("=A1+1"));
    var _ := store.SetFormula("C1", Some("=B1*2"));
    ChainRowsWritten();
    ChainFormulaCells(store.cells);
  }

  /** A plan for the chain example: a change to `A1` after `ChainStore`. */
  method ChainScenario() returns (r: Result<RecalcPlan>)
    ensures r == Ok(Order(["A1", "B1", "C1"]))
  {
    var store := ChainStore();
    SameMembers(store.FormulaCells(), {"B1", "C1"});
    r := store.RecalculationOrder(Some("A1"));
    ChainOrder(r.value);
  }

  /** Two cells referring to each other: `A1 = "=B1"`, `B1 = "=A1"`, a change to `A1`. */
  method MutualScenario() returns (r: Result<RecalcPlan>)
    ensures r == Ok(Cycle(["A1", "B1"]))
  {
    var store := new DependencyStore<int>();
    ExampleFormulas();
    var _ := store.SetFormula("A1", Some("=B1"));
    var _ := store.SetFormula("B1", Some("=A1"));
    SameMembers(store.edges, MutualRows);
    r := store.RecalculationOrder(Some("A1"));
    MutualReferenceIsCycle(store.FormulaCells(), r.value);
  }

  /** A cell whose formula references itself: `A1 = "=A1"`, a change to `A1`. */
  method SelfScenario() returns (r: Result<RecalcPlan>)
    ensures r == Ok(Cycle(["A1"]))
  {
    var store := new DependencyStore<int>();
    ExampleFormulas();
    var _ := store.SetFormula("A1", Some("=A1"));
    SameMembers(store.edges, SelfRows);
    r := store.RecalculationOrder(Some("A1"));
    SelfReferenceIsCycle(store.FormulaCells(), r.value);
  }

  /** A lone value cell: `A1 = 10` with no dependents, a change to `A1`. */
  method LoneScenario() returns (r: Result<RecalcPlan>)
    ensures r == Ok(Order(["A1"]))
  {
    var store := new DependencyStore<int>();
    store.SetValue("A1", 10);
    SameMembers(store.edges, LoneRows);
    r := store.RecalculationOrder(Some("A1"));
    LoneOrder(store.FormulaCells(), r.value);
  }

  /** The rows the three writes of the chain example leave. */
  lemma ChainRowsWritten()
    ensures ReplaceEdges(ReplaceEdges(ReplaceEdges({}, "A1", []), "B1", ["A1"]), "C1", ["B1"])
         == ChainRows
  {
    var e := ReplaceEdges(ReplaceEdges(ReplaceEdges({}, "A1", []), "B1", ["A1"]), "C1", ["B1"]);
    ReplaceOwnRows(ReplaceEdges(ReplaceEdges({}, "A1", []), "B1", ["A1"]), "C1", ["B1"]);
    ReplaceOwnRows(ReplaceEdges({}, "A1", []), "B1", ["A1"]);
    forall d ensures d in e <==> d in ChainRows {
      if d.cellId == "C1" || d.cellId == "B1" {
        assert d == Dependency(d.cellId, d.dependsOn);
      }
    }
  }

  /** Of the chain example's cells, `B1` and `C1` hold a formula. */
  lemma ChainFormulaCells(cells: map<string, Cell<int>>)
    requires cells == map["A1" := Cell(Some(5), None), "B1" := Cell(None, Some("=A1+1")),
                          "C1" := Cell(None, Some("=B1*2"))]
    ensures forall c :: c in cells && HasFormula(cells[c]) <==> c == "B1" || c == "C1"
  {
    assert "=A1+1" != "" && "=B1*2" != "";
  }

  /** Two sets with the same members are the same. */
  lemma SameMembers<T>(a: set<T>, b: set<T>)
    requires forall d :: d in a <==> d in b
    ensures a == b
  {
  }
}
