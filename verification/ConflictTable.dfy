/** The repository's table of conflict records. */
module ConflictTable {
  import opened Prelude
  import opened Ordering

  datatype ConflictStatus = Open | StaleResolved | FalsePositive | WinnerChosen

  // conflict_scan_v1 on the write path, maintenance_conflict_scan_v1 in the scheduler.
  datatype Detector = WriteScan | MaintenanceScan

  datatype ConflictRecord = ConflictRecord(
    id: string,
    workspace: string,
    subject: string,
    memoryIds: seq<string>,
    status: ConflictStatus,
    detectedBy: Detector,
    createdAt: int,
    resolvedAt: Option<int>)

  class Conflicts {
    var rows: map<string, ConflictRecord>

    constructor ()
      ensures rows == map[]
    {
      rows := map[];
    }

    method Get(id: string) returns (r: Option<ConflictRecord>)
      ensures r == if id in rows then Some(rows[id]) else None
    {
      r := if id in rows then Some(rows[id]) else None;
    }

    method Upsert(c: ConflictRecord)
      modifies this
      ensures rows == old(rows)[c.id := c]
    {
      rows := rows[c.id := c];
    }

    // update_memory_conflict keeps what identifies the conflict; only its resolution changes.
    method Update(id: string, c: ConflictRecord)
      requires id in rows
      modifies this
      ensures rows == old(rows)[id := old(rows)[id].(status := c.status, resolvedAt := c.resolvedAt)]
    {
      rows := rows[id := rows[id].(status := c.status, resolvedAt := c.resolvedAt)];
    }
  }
}
