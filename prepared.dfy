/** What the binders read from a prepared statement: its bind markers in
    statement order and whether it is token aware. */
module Prepared {
  import opened Cql

  /** One bind marker: its name and the CQL type its value must have. */
  datatype ColSpec = ColSpec(name: string, typ: ColumnType)

  /** The metadata's column count, its column specs and the statement's
      variable column specs all describe the same markers, so one sequence
      stands for all three. */
  datatype PreparedStatement = PreparedStatement(colSpecs: seq<ColSpec>, tokenAware: bool)
  {
    function ColCount(): nat
    {
      |colSpecs|
    }
  }

  /** A partitioner token (a signed 64-bit hash in the driver). */
  datatype Token = Token(value: int)

  /** Why a partition key could not be extracted or hashed. */
  type PartitionKeyError
}
