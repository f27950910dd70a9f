# Spreadsheet dependency engine — a Dafny model

This project models the dependency engine of a small spreadsheet service, the logic in
`controllers/spreadsheetController.js`. Cells hold either a value or a formula. A formula
refers to other cells by identifiers such as `A1` or `BC12`. For every formula cell the
service keeps one `CellDependency` row per referenced cell. When a cell changes, it plans
a recalculation: the cells that must be recomputed, each after the cells it reads, or a
report of the cycle that makes such an order impossible.

The model has nine modules, one file each; the last holds small example spreadsheets:

- `Models` (`models.dfy`): the records. A `Cell` has an optional value and an optional
  formula text. A `Dependency` row is `(cellId, dependsOn)`. There are the error kinds
  (`NotFound`, `InvalidRequest`) and a `Result` wrapper.
- `Sequences` (`sequences.dfy`): the array idioms the controller uses.
  `Array.from(new Set(xs))` is `Dedup`, `reverse()` is `Reverse` and `filter` is `Filter`.
- `Extractor` (`extractor.dfy`): `extractDependencies`. The regular expression
  `/[A-Z]+\d+/g` is written out as a character scanner, `Scan`. Lemmas prove that the
  scanner reports exactly the maximal letter-then-digit runs of the text.
- `DependencyGraph` (`graph.dfy`): what it means for a change to reach a cell, and what a
  cycle is. Both are stated over the set of rows.
- `Search` (`search.dfy`): the forward adjacency `dependsOn -> [cellId, ...]`, built by
  one pass over the rows. Also the reachability loop, which uses an explicit stack and
  keeps cells in the order they are first met.
- `TopoSort` (`toposort.dfy`): the recursive `dfs`, as a class. Its fields are the
  `visiting` and `visited` marks and the `order` and `cycle` arrays. `Visit` handles the
  marks, and `VisitDependents` is its loop over the dependents. Both are proved to keep
  `order` a post-order of the finished cells, growing only at its end, and to finish
  only cells downstream of the cell visited. On failure, `cycle` holds the chain of
  calls unwound so far.
- `Planner` (`planner.dfy`): the whole `getRecalculationOrder` computation after its
  argument check. `Plan` satisfies `SoundPlan`:
  - it reports a cycle exactly when a cycle is reachable from the changed cell;
  - a cycle report is the path from the changed cell into the cycle, without duplicates;
  - an order has no duplicates and puts the changed cell first;
  - an order holds exactly the reachable cells that have a formula, plus the changed cell;
  - in an order, every precedent comes before its dependents.
- `Store` (`store.dfy`): the two collections of one spreadsheet, as a class.
  - `SetValue` and `SetFormula` write a cell and replace its rows. They keep the invariant
    that every cell's rows are exactly the references of its current formula.
  - `GetCell` and `Precedents` read the collections.
  - `RecalculationOrder` rejects a missing or empty changed cell, then calls `Plan`.
- `Scenarios` (`scenarios.dfy`): small spreadsheets written through the store, with the
  plan each one gets: a chain, two cells referring to each other, a lone value cell, and
  a self-reference. For each, `SoundPlan` allows exactly one answer.

The cycle report follows the code. The controller pushes the cell met twice, then every
caller on the way back, reverses the list and drops duplicates. The report is therefore
the whole depth-first path from the changed cell into the cycle. It can include cells
upstream of the cycle that are not part of it (`IsCycleReport`).

## Model

| member | source | states |
|---|---|---|
| Sequences.Dedup | controllers/spreadsheetController.js:10 | `Array.from(new Set(xs))`: the result has no duplicates and holds exactly the elements of the input |
| Sequences.DedupOfDistinct | controllers/spreadsheetController.js:148 | deduplicating a list that has no duplicates leaves it unchanged |
| Sequences.DedupAppendSeen | controllers/spreadsheetController.js:148 | appending an element already present does not change the deduplicated list |
| Sequences.DedupAppendNew | controllers/spreadsheetController.js:148 | appending an element not yet present adds it at the end of the deduplicated list, as `Set.add` does for a new element |
| Sequences.Reverse | controllers/spreadsheetController.js:168 | the result has the same length, and position `k` holds the input's element `k` from the end |
| Sequences.ReverseMembers | controllers/spreadsheetController.js:168 | reversing keeps exactly the same elements |
| Sequences.ReverseNoDuplicates | controllers/spreadsheetController.js:148 | reversing a list without duplicates gives a list without duplicates |
| Sequences.Filter | controllers/spreadsheetController.js:167 | the result holds exactly the input elements that are kept, and is no longer than the input |
| Sequences.FilterPositions | controllers/spreadsheetController.js:167 | the filtered list is the subsequence of the input at the kept positions: increasing positions, none of them missed, so kept elements stay in input order |
| Sequences.FilterNoDuplicates | controllers/spreadsheetController.js:167 | filtering a list without duplicates gives a list without duplicates |
| Extractor.Scan | controllers/spreadsheetController.js:9 | every token reported is one or more letters A-Z followed by one or more digits, and occurs in the text |
| Extractor.ExtractDependencies | controllers/spreadsheetController.js:6-11 | an absent or empty formula gives `[]`; every result is an identifier occurring in the formula; no duplicates |
| Extractor.ScanSound | controllers/spreadsheetController.js:9 | everything the scan reports is a maximal match: no letter just before it, no digit just after it |
| Extractor.ScanComplete | controllers/spreadsheetController.js:9 | every maximal match at or after the start position is reported |
| Extractor.ExtractExactly | controllers/spreadsheetController.js:6-11 | a token is extracted if and only if it is a maximal letters-then-digits run of the formula |
| Extractor.ExtractNothingIff | controllers/spreadsheetController.js:7-10 | nothing is extracted exactly when no letter A-Z is directly followed by a digit |
| Extractor.ExtractExample | controllers/spreadsheetController.js:5-11 | `=A1+B2+A1` yields `["A1", "B2"]`: first-occurrence order, repeats dropped |
| Extractor.SingleReference | controllers/spreadsheetController.js:6-11 | `=`, one letter, one digit, then a tail with no letters and no leading digit: the single identifier is the only reference |
| Extractor.ExampleFormulas | controllers/spreadsheetController.js:6-11 | `=A1+1` and `=A1` reference `A1`; `=B1*2` and `=B1` reference `B1` |
| Search.Dependents | controllers/spreadsheetController.js:102-104 | the list built for a precedent holds exactly the cells whose rows depend on it |
| Search.BuildGraph | controllers/spreadsheetController.js:99-107 | for every cell, the adjacency entry (empty when absent) lists its dependents in row order, and a cell is listed exactly when it depends on that cell |
| Search.SkipStep | controllers/spreadsheetController.js:136-137 | popping a cell already collected leaves the collected list unchanged and keeps every invariant of the search |
| Search.ExpandStep | controllers/spreadsheetController.js:135-139 | popping a new cell, recording it and pushing its dependents keeps every invariant of the search, and leaves fewer cells to meet |
| Search.CollectReachable | controllers/spreadsheetController.js:133-141 | the collected list starts with the changed cell and has no duplicates; it is closed under dependents; it holds a cell exactly when the change reaches it |
| TopoSort.PostOrderedAppend | controllers/spreadsheetController.js:128-130 | appending a cell whose dependents are all finished keeps `order` a post-order |
| TopoSort.UnwindStep | controllers/spreadsheetController.js:122-124 | pushing the current cell after a failed call keeps `cycle` a backward chain, duplicate-free apart from its first cell |
| TopoSort.Traversal.constructor | controllers/spreadsheetController.js:109-112 | the marks start empty, as do `order` and `cycle` |
| TopoSort.LeadsPrepend | controllers/spreadsheetController.js:120-122 | a cell leads to everything its dependents lead to |
| TopoSort.ExtendsTrans | controllers/spreadsheetController.js:129 | appending at the end twice is appending at the end |
| TopoSort.Traversal.Visit | controllers/spreadsheetController.js:113-131 | `order` only grows at its end, and every newly finished cell lies downstream of the cell. Success: the cell is finished, the marks in progress are as before, `order` stays a post-order and a new cell is appended last. Failure: `cycle` runs from a cell in progress back along dependents to the cell |
| TopoSort.Traversal.VisitDependents | controllers/spreadsheetController.js:120-126 | the loop over the dependents: `order` only grows at its end and newly finished cells lie downstream. Success: every dependent is finished and the marks in progress are unchanged. Failure: the cell has been pushed onto `cycle`, which runs back along dependents to it |
| Planner.CycleReportSound | controllers/spreadsheetController.js:146-154 | every cell of a cycle report is reachable from the changed cell, and a reachable cycle exists |
| Planner.PostOrderNoLater | controllers/spreadsheetController.js:113-131 | in a duplicate-free post-order no cell has a dependent at or after its own position |
| Planner.FilterNoLater | controllers/spreadsheetController.js:167 | filtering keeps the property that no cell has a dependent at or after its own position |
| Planner.ReverseNoLater | controllers/spreadsheetController.js:168 | reversing such a sequence puts every precedent before its dependents |
| Planner.WalkNotClosed | controllers/spreadsheetController.js:113-131 | a walk from a reached cell only moves to earlier positions of the post-order, so it never returns to its start |
| Planner.NoReachableCycle | controllers/spreadsheetController.js:144-157 | a successful sort of every reached cell rules out a reachable cycle |
| Planner.DedupReverseUnwound | controllers/spreadsheetController.js:148 | `[...new Set(cycle.reverse())]` drops exactly the repeated first cell |
| Planner.UnwoundReport | controllers/spreadsheetController.js:146-154 | the reported list starts at the changed cell, has no duplicates, each cell feeds the next, and the last feeds one of them |
| Planner.FinishedAll | controllers/spreadsheetController.js:144-146 | once the changed cell is finished, every reachable cell is finished, so later iterations skip |
| Planner.OrderResult | controllers/spreadsheetController.js:159-168 | on success no cycle is reachable and the reversed filtered order is a valid recalculation order |
| Planner.RecalcMembers | controllers/spreadsheetController.js:163-166 | the answer holds the changed cell and the reachable cells with a formula, and nothing else |
| Planner.Plan | controllers/spreadsheetController.js:98-168 | `SoundPlan`: cycle reported if and only if one is reachable; reports and orders well formed as above |
| Store.ReplaceEdges | controllers/spreadsheetController.js:46-50 | the rows after `deleteMany` of the cell's rows and `insertMany` of one row per identifier: the cell's old rows gone, one row per identifier added, other rows kept |
| Store.HasFormula | controllers/spreadsheetController.js:164 | the JavaScript truthiness of `formulaString`; a cell without a truthy formula references no cell |
| Store.ReplaceOwnRows | controllers/spreadsheetController.js:46-50 | after the replacement the cell depends on exactly the given identifiers |
| Store.ReplaceOtherRows | controllers/spreadsheetController.js:25 | the rows of every other cell are untouched by the replacement |
| Store.ReplaceTwice | controllers/spreadsheetController.js:40-50 | writing a cell twice leaves only the rows of the second write, so repeating a formula write changes nothing |
| Store.MirrorsAfterWrite | controllers/spreadsheetController.js:40-50 | replacing a cell's rows by its new formula's references keeps every cell's rows equal to its formula's references |
| Store.DependencyStore.GetCell | controllers/spreadsheetController.js:62-77 | the stored cell if it was ever written, NotFound otherwise |
| Store.DependencyStore.Precedents | controllers/spreadsheetController.js:79-87 | the cells a cell depends on are its rows' targets, which are exactly the references of its current formula |
| Store.DependencyStore.FormulaCells | controllers/spreadsheetController.js:163-165 | the cells whose `formulaString` is truthy: present and non-empty |
| Store.DependencyStore.SetValue | controllers/spreadsheetController.js:13-30 | the cell holds the value and no formula; it has no rows; other cells' rows are unchanged; the store invariant holds |
| Store.DependencyStore.SetFormula | controllers/spreadsheetController.js:32-60 | the cell holds the formula and no value; its rows are exactly the returned references, self-reference kept; other rows unchanged; invariant kept |
| Store.DependencyStore.AllRows | controllers/spreadsheetController.js:99 | every stored row once |
| Store.DependencyStore.RecalculationOrder | controllers/spreadsheetController.js:89-172 | a missing or empty `changed_cell_id` is exactly the InvalidRequest case; otherwise the answer satisfies `SoundPlan` over the stored rows and formula cells |
| Scenarios.SelfReferenceIsCycle | controllers/spreadsheetController.js:113-124 | a cell whose formula references itself is reported as the cycle `[A1]`, never ordered |
| Scenarios.MutualReferenceIsCycle | controllers/spreadsheetController.js:146-154 | `A1 = "=B1"`, `B1 = "=A1"`, changed `A1`: the only sound answer is the cycle `[A1, B1]` |
| Scenarios.ChainOrder | controllers/spreadsheetController.js:159-168 | value `A1`, `B1` and `C1` referencing `A1` and `B1`: the only sound answer is the order `[A1, B1, C1]` |
| Scenarios.LoneOrder | controllers/spreadsheetController.js:159-168 | with no rows at all, the only sound answer for `A1` is the order `[A1]` |
| Scenarios.ChainRowsWritten | controllers/spreadsheetController.js:44-50 | the writes `A1 = 5`, `B1 = "=A1+1"`, `C1 = "=B1*2"` leave exactly the rows B1→A1 and C1→B1 |
| Scenarios.ChainStore | controllers/spreadsheetController.js:13-60 | after those writes the rows are the chain's and the formula cells are `B1` and `C1` |
| Scenarios.ChainScenario | controllers/spreadsheetController.js:89-172 | `A1 = 5`, `B1 = "=A1+1"`, `C1 = "=B1*2"`, changed `A1`: the answer is the order `[A1, B1, C1]` |
| Scenarios.MutualScenario | controllers/spreadsheetController.js:89-172 | `A1 = "=B1"`, `B1 = "=A1"`, changed `A1`: the answer is the cycle `[A1, B1]` |
| Scenarios.SelfScenario | controllers/spreadsheetController.js:89-172 | `A1 = "=A1"`, changed `A1`: the answer is the cycle `[A1]` |
| Scenarios.LoneScenario | controllers/spreadsheetController.js:89-172 | `A1 = 10` and no formulas, changed `A1`: the answer is the order `[A1]` |

## Left out

- HTTP plumbing is not modelled: Express routing, `req`/`res`, status codes, the JSON
  bodies and the 500 handlers. Errors are `Result` values, and a reported cycle is the
  `Cycle` plan.
- Mongoose persistence is not modelled. `findOne`, `save`, `deleteMany`, `insertMany` and
  `find` are foreign calls. The model keeps their effect on two in-memory collections of
  one spreadsheet. Several spreadsheets are independent copies of the same store, so
  `spreadsheetId` is left out.
- The `await`s between saving the cell, deleting its rows and inserting the new rows are
  not modelled. Concurrent requests are out of scope. Each write is one atomic update.
- Store.DependencyStore.SetFormula: `formula` is an optional string. A truthy
  `formula_string` that is not a string, such as a JSON number, is not modelled. The
  service saves such a cell first, and `extractDependencies` then throws at `.match`
  before the old rows are deleted. The cell keeps the rows of its previous formula and
  the request fails with a server error.
- The order in which `CellDependency.find` returns rows is not modelled. `AllRows`
  returns them in an arbitrary order. Every property above holds for any row order. The
  exact list returned can depend on that order, as it does in the service.
- Planner.Plan: the model does not state that equal inputs give equal answers. Nothing in the
  model is nondeterministic apart from the row order just mentioned.
- `reverseGraph` is never read, so it is not modelled. Building it does have one effect, the
  failure described next.
- The JavaScript regular-expression engine is not modelled. `Scan` replaces it and handles
  ASCII `A`-`Z` and `0`-`9` only, as the pattern does.
- Cell identifiers that are names of `Object.prototype` members, such as `constructor`,
  `toString` or `__proto__`, are not modelled. The service keeps its adjacency, reverse
  adjacency and marks in plain objects, so such an id reads an inherited property.
  - A row whose `cellId` is such a name: the reverse-adjacency lookup finds the inherited
    property, the `= []` initialisation is skipped, and `.push` throws while the graph is
    built. Every recalculation request for that spreadsheet then fails with a server
    error, whichever cell changed.
  - Such a name as the changed cell: the adjacency lookup in the reachability loop finds
    the inherited property and `.forEach` throws, with the same server error.
  - Referenced identifiers (`dependsOn`) always match `[A-Z]+\d+`, so they are never such
    names.
  The model treats every identifier as an ordinary key and returns a plan in these cases.
