/** The remote table as the reconciliation engine sees it: a sink that
    records every call made on it, in order. */
module Remote {
  import opened Values

  /** One call on the table: batched posts, updates and deletes, or a single
      record post, update or delete. */
  datatype Op =
    | PostRecords(records: seq<Record>)
    | PostRecord(record: Record)
    | UpdateRecords(records: seq<Record>)
    | DeleteRecords(records: seq<Record>)
    | UpdateRecord(record: Record)
    | DeleteRecord(record: Record)

  class Table {
    var trace: seq<Op>

    constructor ()
      ensures trace == []
    {
      trace := [];
    }

    /** Issues `op` on the table. */
    method Send(op: Op)
      modifies this
      ensures trace == old(trace) + [op]
    {
      trace := trace + [op];
    }
  }
}
