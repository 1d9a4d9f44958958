/**
 The rows of the manager's records, as the store returns them.
 */
module Records {
  import opened Json

  datatype Row = Row(id: string, version: nat, data: Value)

  /** The rows of every record type. */
  type Rows = string -> seq<Row>

  /** Rows with the same id are the same row. */
  ghost predicate IdsIdentify(rows: seq<Row>) {
    forall a, b :: a in rows && b in rows && a.id == b.id ==> a == b
  }
}
