/** The shapes of the stored records and of the engine's answers. */
module Models {

  datatype Option<T> = None | Some(value: T)

  /** A row of the dependency table: the formula of `cellId` references `dependsOn`.
      The table's unique index on (spreadsheet, cellId, dependsOn) makes it a set of rows. */
  datatype Dependency = Dependency(cellId: string, dependsOn: string)

  /** A cell record. A literal cell carries a value, a formula cell a formula text;
      writing one of the two clears the other. */
  datatype Cell<V> = Cell(value: Option<V>, formulaString: Option<string>)

  /** Error kinds the engine surfaces to its caller (a cycle is reported in the plan itself). */
  datatype Error = NotFound | InvalidRequest

  datatype Result<T> = Ok(value: T) | Err(error: Error)

  /** The rows of a table listing, as a set. */
  function Edges(rows: seq<Dependency>): (e: set<Dependency>)
    ensures forall d :: d in e <==> d in rows
  {
    set d | d in rows
  }
}
