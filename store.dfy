/** The cells and dependency rows of one spreadsheet, and the controller operations
    that write and read them: set a value, set a formula, read a cell, list its
    precedents, and plan a recalculation. */
module Store {
  import opened Models
  import opened Sequences
  import opened Extractor
  import opened DependencyGraph
  import opened Planner

  /** `edges` after `deleteMany({ cellId })` followed by `insertMany` of one row per
      identifier of `deps`. */
  function ReplaceEdges(edges: set<Dependency>, cellId: string, deps: seq<string>): (r: set<Dependency>)
    ensures forall d :: d in r <==>
      (d in edges && d.cellId != cellId) || (d.cellId == cellId && d.dependsOn in deps)
  {
    (set d | d in edges && d.cellId != cellId) + (set p | p in deps :: Dependency(cellId, p))
  }

  /** The rows of every cell are exactly the references of its current formula; a cell
      that holds a value, or that was never written, has none. */
  ghost predicate MirrorsFormulas<V>(cells: map<string, Cell<V>>, edges: set<Dependency>)
  {
    forall d :: d in edges <==>
      d.cellId in cells && d.dependsOn in ExtractDependencies(cells[d.cellId].formulaString)
  }

  /** A formula the planner treats as one: JavaScript truthiness of `formulaString`. */
  predicate HasFormula<V>(c: Cell<V>): (h: bool)
    ensures !h ==> ExtractDependencies(c.formulaString) == []
  {
    c.formulaString.Some? && c.formulaString.value != ""
  }

  /** After the replacement `cellId` depends on exactly `deps` ... */
  lemma ReplaceOwnRows(edges: set<Dependency>, cellId: string, deps: seq<string>)
    ensures forall p :: Dependency(cellId, p) in ReplaceEdges(edges, cellId, deps) <==> p in deps
  {
    forall p | p in deps ensures Dependency(cellId, p) in ReplaceEdges(edges, cellId, deps) {
      assert Dependency(cellId, p) in (set q | q in deps :: Dependency(cellId, q));
    }
  }

  /** ... and the rows of every other cell are untouched. */
  lemma ReplaceOtherRows(edges: set<Dependency>, cellId: string, deps: seq<string>)
    ensures forall d: Dependency :: d.cellId != cellId ==> (d in ReplaceEdges(edges, cellId, deps) <==> d in edges)
  {
  }

  /** Writing a cell twice leaves the rows of the second write only. */
  lemma ReplaceTwice(edges: set<Dependency>, cellId: string, first: seq<string>, second: seq<string>)
    ensures ReplaceEdges(ReplaceEdges(edges, cellId, first), cellId, second)
         == ReplaceEdges(edges, cellId, second)
  {
    var a := ReplaceEdges(ReplaceEdges(edges, cellId, first), cellId, second);
    var b := ReplaceEdges(edges, cellId, second);
    ReplaceOwnRows(ReplaceEdges(edges, cellId, first), cellId, second);
    ReplaceOwnRows(edges, cellId, second);
    forall d ensures d in a <==> d in b {
      if d.cellId == cellId {
        assert d == Dependency(cellId, d.dependsOn);
      }
    }
  }

  /** Replacing a cell's rows by the references of the formula written to it keeps
      every cell's rows in step with its formula. */
  lemma MirrorsAfterWrite<V>(cells: map<string, Cell<V>>, edges: set<Dependency>,
                             cellId: string, cell: Cell<V>)
    requires MirrorsFormulas(cells, edges)
    ensures MirrorsFormulas(cells[cellId := cell],
                            ReplaceEdges(edges, cellId, ExtractDependencies(cell.formulaString)))
  {
    var deps := ExtractDependencies(cell.formulaString);
    var cells', edges' := cells[cellId := cell], ReplaceEdges(edges, cellId, deps);
    ReplaceOwnRows(edges, cellId, deps);
    forall d ensures d in edges' <==>
      d.cellId in cells' && d.dependsOn in ExtractDependencies(cells'[d.cellId].formulaString)
    {
      if d.cellId == cellId {
        assert d == Dependency(cellId, d.dependsOn);
      }
    }
  }

  class DependencyStore<V> {
    /** The `Cell` documents of the spreadsheet, by cell identifier. */
    var cells: map<string, Cell<V>>
    /** The `CellDependency` documents of the spreadsheet; the unique index on
        `(cellId, dependsOn)` makes them a set. */
    var edges: set<Dependency>

    ghost predicate Valid()
      reads this
    {
      MirrorsFormulas(cells, edges)
    }

    constructor ()
      ensures Valid() && cells == map[] && edges == {}
    {
      cells := map[];
      edges := {};
    }

    /** `getCell`: the stored cell, or NotFound for a cell never written. */
    function GetCell(cellId: string): (r: Result<Cell<V>>)
      reads this
      ensures r.Ok? <==> cellId in cells
      ensures r.Ok? ==> r.value == cells[cellId]
      ensures r.Err? ==> r.error == NotFound
    {
      if cellId in cells then Ok(cells[cellId]) else Err(NotFound)
    }

    /** `getCellPrecedents`: the cells `cellId` depends on, which are the references of
        its current formula. */
    function Precedents(cellId: string): (ps: set<string>)
      requires Valid()
      reads this
      ensures forall p :: p in ps <==> Dependency(cellId, p) in edges
      ensures forall p :: p in ps <==>
        cellId in cells && p in ExtractDependencies(cells[cellId].formulaString)
    {
      set d | d in edges && d.cellId == cellId :: d.dependsOn
    }

    /** The cells whose formula the planner counts (`cellsToRecalc.filter`). */
    function FormulaCells(): (fs: set<string>)
      reads this
      ensures forall c :: c in fs <==> c in cells && HasFormula(cells[c])
    {
      set c | c in cells && HasFormula(cells[c])
    }

    /** `setCellValue`: the cell holds `value` and no formula, and loses its rows. */
    method SetValue(cellId: string, value: V)
      requires Valid()
      modifies this
      ensures Valid()
      ensures cells == old(cells)[cellId := Cell(Some(value), None)]
      ensures edges == ReplaceEdges(old(edges), cellId, [])
      ensures GetCell(cellId) == Ok(Cell(Some(value), None)) && Precedents(cellId) == {}
      ensures forall d: Dependency :: d.cellId != cellId ==> (d in edges <==> d in old(edges))
    {
      MirrorsAfterWrite(cells, edges, cellId, Cell(Some(value), None));
      ReplaceOtherRows(edges, cellId, []);
      cells := cells[cellId := Cell(Some(value), None)];
      edges := set d | d in edges && d.cellId != cellId;
      assert edges == ReplaceEdges(old(edges), cellId, []);
    }

    /** `setCellFormula`: the cell holds `formula` and no value, its rows become one
        per reference the formula makes, and those references are returned. */
    method SetFormula(cellId: string, formula: Option<string>) returns (dependencies: seq<string>)
      requires Valid()
      modifies this
      ensures Valid()
      ensures dependencies == ExtractDependencies(formula)
      ensures cells == old(cells)[cellId := Cell(None, formula)]
      ensures edges == ReplaceEdges(old(edges), cellId, dependencies)
      ensures GetCell(cellId) == Ok(Cell(None, formula))
      ensures forall p :: p in Precedents(cellId) <==> p in dependencies
      ensures forall d: Dependency :: d.cellId != cellId ==> (d in edges <==> d in old(edges))
    {
      MirrorsAfterWrite(cells, edges, cellId, Cell(None, formula));
      cells := cells[cellId := Cell(None, formula)];
      dependencies := ExtractDependencies(formula);
      ReplaceOtherRows(edges, cellId, dependencies);
      edges := set d | d in edges && d.cellId != cellId;
      edges := edges + set p | p in dependencies :: Dependency(cellId, p);
    }

    /** `CellDependency.find({ spreadsheetId })`: every row once, in some order. */
    method AllRows() returns (rows: seq<Dependency>)
      ensures NoDuplicates(rows)
      ensures Edges(rows) == edges
    {
      rows := [];
      var rest := edges;
      while rest != {}
        invariant NoDuplicates(rows)
        invariant Edges(rows) + rest == edges
        invariant forall d :: d in rest ==> d !in rows
        decreases |rest|
      {
        var d :| d in rest;
        rows := rows + [d];
        rest := rest - {d};
      }
    }

    /** `getRecalculationOrder`: a missing or empty changed cell is an invalid request;
        otherwise the plan over the current rows, with the cells that have a formula. */
    method RecalculationOrder(changed: Option<string>) returns (r: Result<RecalcPlan>)
      ensures r.Err? <==> changed.None? || changed.value == ""
      ensures r.Err? ==> r.error == InvalidRequest
      ensures r.Ok? ==> SoundPlan(edges, changed.value, FormulaCells(), r.value)
    {
      if changed.None? || changed.value == "" {
        return Err(InvalidRequest);
      }
      var rows := AllRows();
      var plan := Plan(rows, changed.value, FormulaCells());
      r := Ok(plan);
    }
  }
}
