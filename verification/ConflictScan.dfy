/** The maintenance scan that keeps its open conflict rows in step with what is detected. */
module ConflictScan {
  import opened Prelude
  import opened Ordering
  import opened Memory
  import opened ConflictPolicy
  import opened MemoryStore
  import opened Repository
  import opened ConflictTable
  import opened ConflictDetection

  type Table = map<string, ConflictRecord>

  const MAX_PAGE := 500

  // ---- Listing in pages ----

  // Listed by creation time, then id.
  predicate Before(a: ConflictRecord, b: ConflictRecord) {
    a.createdAt < b.createdAt || (a.createdAt == b.createdAt && Less(a.id, b.id))
  }

  ghost predicate TableKeyed(rows: Table) {
    forall id | id in rows :: rows[id].id == id
  }

  predicate Listed(ws: string, status: ConflictStatus, c: ConflictRecord) {
    c.workspace == ws && c.status == status
  }

  ghost predicate InOrder(cs: seq<ConflictRecord>) {
    forall i, j | 0 <= i < j < |cs| :: Before(cs[i], cs[j])
  }

  // The whole listing: exactly the matching rows, in order.
  ghost predicate FullListing(rows: Table, ws: string, status: ConflictStatus, cs: seq<ConflictRecord>) {
    && InOrder(cs)
    && forall c :: c in cs <==> c.id in rows && rows[c.id] == c && Listed(ws, status, c)
  }

  lemma BeforeTotal(a: ConflictRecord, b: ConflictRecord)
    ensures a.id != b.id ==> Before(a, b) || Before(b, a)
    ensures !(Before(a, b) && Before(b, a))
  {
    LeqTotal(a.id, b.id);
    if Leq(a.id, b.id) && Leq(b.id, a.id) { LeqAntisymmetric(a.id, b.id); }
  }

  lemma BeforeTransitive(a: ConflictRecord, b: ConflictRecord, c: ConflictRecord)
    requires Before(a, b) && Before(b, c)
    ensures Before(a, c)
  {
    if Leq(a.id, b.id) && Leq(b.id, c.id) {
      LeqTransitive(a.id, b.id, c.id);
      if a.id == c.id { LeqAntisymmetric(a.id, b.id); }
    }
  }

  lemma HeadFirst(cs: seq<ConflictRecord>, c: ConflictRecord)
    requires cs != [] && InOrder(cs) && c in cs
    ensures c == cs[0] || Before(cs[0], c)
  {
  }

  // An ordered listing is determined by its members.
  lemma {:induction false} OneListing(a: seq<ConflictRecord>, b: seq<ConflictRecord>)
    requires InOrder(a) && InOrder(b) && forall c :: c in a <==> c in b
    ensures a == b
    decreases |a|
  {
    if a == [] {
      assert forall c :: c !in b;
      NoMembers(b);
    } else {
      assert a[0] in b;
      assert b[0] in a;
      HeadFirst(a, b[0]);
      HeadFirst(b, a[0]);
      BeforeTotal(a[0], b[0]);
      forall c ensures c in a[1..] <==> c in b[1..] {
        InTail(a, c);
        InTail(b, c);
      }
      OneListing(a[1..], b[1..]);
      assert a == [a[0]] + a[1..] && b == [b[0]] + b[1..];
    }
  }

  lemma NoMembers(cs: seq<ConflictRecord>)
    requires forall c :: c !in cs
    ensures cs == []
  {
    if cs != [] { MemberAt(cs, 0); }
  }

  lemma InTail(cs: seq<ConflictRecord>, c: ConflictRecord)
    requires cs != [] && InOrder(cs)
    ensures c in cs[1..] <==> c in cs && c != cs[0]
  {
    BeforeTotal(cs[0], cs[0]);
    assert cs == [cs[0]] + cs[1..];
    if c in cs[1..] {
      var i :| 0 <= i < |cs| - 1 && cs[1..][i] == c;
      assert Before(cs[0], cs[i + 1]);
    }
  }

  function InsertRecord(c: ConflictRecord, cs: seq<ConflictRecord>): seq<ConflictRecord> {
    if cs == [] || Before(c, cs[0]) then [c] + cs else [cs[0]] + InsertRecord(c, cs[1..])
  }

  lemma {:induction false} InsertRecordCorrect(c: ConflictRecord, cs: seq<ConflictRecord>)
    requires InOrder(cs) && forall x | x in cs :: x.id != c.id
    ensures InOrder(InsertRecord(c, cs))
    ensures forall x :: x in InsertRecord(c, cs) <==> x == c || x in cs
  {
    if cs == [] {
    } else if Before(c, cs[0]) {
      forall i | 0 <= i < |cs| ensures Before(c, cs[i]) {
        if i > 0 { BeforeTransitive(c, cs[0], cs[i]); }
      }
    } else {
      BeforeTotal(c, cs[0]);
      InsertRecordCorrect(c, cs[1..]);
      var rest := InsertRecord(c, cs[1..]);
      forall i | 0 <= i < |rest| ensures Before(cs[0], rest[i]) {
        assert rest[i] in rest;
        InTail(cs, rest[i]);
        if rest[i] in cs[1..] { HeadFirst(cs, rest[i]); }
      }
    }
  }

  function Page<T>(s: seq<T>, limit: nat, offset: nat): seq<T> {
    s[Min(offset, |s|)..Min(offset + limit, |s|)]
  }

  method ListConflicts(table: Conflicts, ws: string, status: ConflictStatus, limit: nat, offset: nat)
    returns (page: seq<ConflictRecord>, ghost all: seq<ConflictRecord>)
    requires TableKeyed(table.rows) && 1 <= limit <= MAX_PAGE
    ensures FullListing(table.rows, ws, status, all) && page == Page(all, limit, offset)
  {
    var rows: seq<ConflictRecord> := [];
    var pending := table.rows.Keys;
    while pending != {}
      invariant pending <= table.rows.Keys && InOrder(rows)
      invariant forall c :: c in rows
                  <==> c.id in table.rows && c.id !in pending && table.rows[c.id] == c && Listed(ws, status, c)
      decreases |pending|
    {
      var id :| id in pending;
      var c := table.rows[id];
      if c.workspace == ws && c.status == status {
        InsertRecordCorrect(c, rows);
        rows := InsertRecord(c, rows);
      }
      pending := pending - {id};
    }
    all := rows;
    page := rows[Min(offset, |rows|)..Min(offset + limit, |rows|)];
  }

  // The paging loop gathers the whole listing, whatever the page size.
  method ListAllConflicts(table: Conflicts, ws: string, status: ConflictStatus, pageSize: nat)
    returns (cs: seq<ConflictRecord>)
    requires TableKeyed(table.rows) && 1 <= pageSize <= MAX_PAGE
    ensures FullListing(table.rows, ws, status, cs)
  {
    var offset := 0;
    var page;
    ghost var all;
    page, all := ListConflicts(table, ws, status, pageSize, offset);
    cs := page;
    while |page| >= pageSize
      invariant FullListing(table.rows, ws, status, all)
      invariant page == Page(all, pageSize, offset) && cs == all[..Min(offset + pageSize, |all|)]
      decreases |all| - offset
    {
      offset := offset + pageSize;
      ghost var again;
      page, again := ListConflicts(table, ws, status, pageSize, offset);
      OneListing(all, again);
      cs := cs + page;
    }
  }

  // ---- The scan ----

  predicate Owned(ws: string, c: ConflictRecord) {
    Listed(ws, Open, c) && c.detectedBy == MaintenanceScan
  }

  predicate OwnedIn(rows: Table, ws: string, id: string) {
    id in rows && Owned(ws, rows[id])
  }

  // A reported row is opened, or kept with its creation time.
  function KeptRow(rows: Table, ws: string, id: string, c: ConflictRecord): ConflictRecord {
    if OwnedIn(rows, ws, id) then c.(createdAt := rows[id].createdAt) else c
  }

  function Closed(c: ConflictRecord, now: int): ConflictRecord {
    c.(status := StaleResolved, resolvedAt := Some(now))
  }

  function ScannedRow(rows: Table, ws: string, found: Table, now: int, id: string): ConflictRecord
    requires id in rows || id in found
  {
    if id in found then KeptRow(rows, ws, id, found[id])
    else if Owned(ws, rows[id]) then Closed(rows[id], now)
    else rows[id]
  }

  // The table after a scan that found the given records.
  function Scanned(rows: Table, ws: string, found: Table, now: int): Table {
    map id | id in rows.Keys + found.Keys :: ScannedRow(rows, ws, found, now, id)
  }

  method OwnedRows(cs: seq<ConflictRecord>) returns (owned: map<string, ConflictRecord>)
    requires InOrder(cs)
    ensures forall id | id in owned :: owned[id] in cs && owned[id].id == id && owned[id].detectedBy == MaintenanceScan
    ensures forall c | c in cs && c.detectedBy == MaintenanceScan :: c.id in owned
  {
    owned := map[];
    for i := 0 to |cs|
      invariant forall id | id in owned ::
                  owned[id] in cs && owned[id].id == id && owned[id].detectedBy == MaintenanceScan
      invariant forall j | 0 <= j < i && cs[j].detectedBy == MaintenanceScan :: cs[j].id in owned
    {
      if cs[i].detectedBy == MaintenanceScan { owned := owned[cs[i].id := cs[i]]; }
    }
  }

  // The rows after the reported ones have been written.
  function Opened(rows: Table, ws: string, found: Table): Table {
    map id | id in rows.Keys + found.Keys :: if id in found then KeptRow(rows, ws, id, found[id]) else rows[id]
  }

  ghost predicate OwnedMap(rows: Table, ws: string, owned: Table) {
    && (forall id :: id in owned <==> OwnedIn(rows, ws, id))
    && (forall id | id in owned :: owned[id] == rows[id])
  }

  method UpsertFound(table: Conflicts, ghost ws: string, found: Table, owned: Table, ghost rows: Table)
    requires TableKeyed(found) && OwnedMap(rows, ws, owned) && table.rows == rows
    modifies table
    ensures table.rows == Opened(rows, ws, found)
  {
    var pending := found.Keys;
    while pending != {}
      invariant pending <= found.Keys && Midway(rows, ws, found, pending, table.rows)
      decreases |pending|
    {
      var id :| id in pending;
      var c := Keep(owned, id, found[id], rows, ws);
      MidwayStep(rows, ws, found, pending, table.rows, id);
      table.Upsert(c);
      pending := pending - {id};
    }
    MidwayDone(rows, ws, found, table.rows);
  }

  // The reported rows that are not pending any more have been written, all others are as they were.
  ghost predicate Midway(rows: Table, ws: string, found: Table, pending: set<string>, current: Table) {
    && current.Keys == rows.Keys + (found.Keys - pending)
    && forall id | id in current ::
         if id in found && id !in pending then current[id] == KeptRow(rows, ws, id, found[id])
         else id in rows && current[id] == rows[id]
  }

  lemma MidwayStep(rows: Table, ws: string, found: Table, pending: set<string>, current: Table, id: string)
    requires Midway(rows, ws, found, pending, current) && id in pending && id in found
    ensures Midway(rows, ws, found, pending - {id}, current[id := KeptRow(rows, ws, id, found[id])])
  {
  }

  lemma MidwayDone(rows: Table, ws: string, found: Table, current: Table)
    requires Midway(rows, ws, found, {}, current)
    ensures current == Opened(rows, ws, found)
  {
  }

  // Keep the creation time of a row the scan owns already.
  method Keep(owned: Table, id: string, c: ConflictRecord, ghost rows: Table, ghost ws: string)
    returns (kept: ConflictRecord)
    requires OwnedMap(rows, ws, owned)
    ensures kept == KeptRow(rows, ws, id, c) && kept.id == c.id
  {
    kept := c;
    if id in owned { kept := c.(createdAt := owned[id].createdAt); }
  }

  method ResolveStale(table: Conflicts, found: Table, owned: Table, now: int)
    requires forall id | id in owned :: owned[id].id == id && id in table.rows
    modifies table
    ensures table.rows.Keys == old(table.rows).Keys
    ensures forall id | id in table.rows ::
              table.rows[id] == if id in owned && id !in found then Closed(owned[id], now) else old(table.rows)[id]
  {
    var pending := owned.Keys;
    while pending != {}
      invariant pending <= owned.Keys && table.rows.Keys == old(table.rows).Keys
      invariant forall id | id in table.rows ::
                  table.rows[id] == if id in owned && id !in pending && id !in found then Closed(owned[id], now)
                                    else old(table.rows)[id]
      decreases |pending|
    {
      var id :| id in pending;
      if id !in found { table.Upsert(Closed(owned[id], now)); }
      pending := pending - {id};
    }
  }

  method Scan(repo: MemoryRepository, table: Conflicts, digest: Digest, ws: string, now: int)
    returns (found: Table, ghost listed: seq<Memory>)
    requires Keyed(repo.rows) && TableKeyed(table.rows)
    modifies table
    ensures Lists(repo.rows, ws, listed) && Reports(digest, ws, listed, MaintenanceScan, now, found)
    ensures table.rows == Scanned(old(table.rows), ws, found, now)
  {
    var ms := repo.ListMemories(ws);
    listed := ms;
    found := DetectMemoryConflicts(digest, ws, ms, MaintenanceScan, now);
    FoundKeyed(digest, ws, ms, now, found);
    SyncRows(table, ws, found, now);
  }

  method SyncRows(table: Conflicts, ws: string, found: Table, now: int)
    requires TableKeyed(table.rows) && TableKeyed(found)
    modifies table
    ensures table.rows == Scanned(old(table.rows), ws, found, now)
  {
    var open := ListAllConflicts(table, ws, Open, MAX_PAGE);
    var owned := OwnedRows(open);
    OwnedExactly(table.rows, ws, open, owned);
    UpsertFound(table, ws, found, owned, table.rows);
    ResolveStale(table, found, owned, now);
  }

  lemma FoundKeyed(digest: Digest, ws: string, ms: seq<Memory>, now: int, found: Table)
    requires Reports(digest, ws, ms, MaintenanceScan, now, found)
    ensures TableKeyed(found)
  {
    forall id | id in found ensures found[id].id == id {
      FoundOwned(digest, ws, ms, now, found, id);
    }
  }

  lemma OwnedExactly(rows: Table, ws: string, open: seq<ConflictRecord>, owned: Table)
    requires TableKeyed(rows) && FullListing(rows, ws, Open, open)
    requires forall id | id in owned ::
               owned[id] in open && owned[id].id == id && owned[id].detectedBy == MaintenanceScan
    requires forall c | c in open && c.detectedBy == MaintenanceScan :: c.id in owned
    ensures OwnedMap(rows, ws, owned)
  {
    forall id | OwnedIn(rows, ws, id) ensures id in owned {
      assert rows[id] in open;
    }
  }

  // ---- What a scan achieves ----

  // Whatever is found is well-formed: open, in the workspace, by this detector.
  lemma FoundOwned(digest: Digest, ws: string, ms: seq<Memory>, now: int, found: Table, id: string)
    requires Reports(digest, ws, ms, MaintenanceScan, now, found) && id in found
    ensures WellFound(ws, now, id, found[id])
  {
    assert Found(digest, ws, ms, MaintenanceScan, now, id, found[id]);
  }

  predicate WellFound(ws: string, now: int, id: string, c: ConflictRecord) {
    Owned(ws, c) && c.id == id && c.createdAt == now && c.resolvedAt == None
  }

  // Afterwards the open rows the scan owns are exactly the reported ones; a row it owned before and
  // still reports keeps its creation time, and rows it neither owns nor reports are untouched.
  lemma OpenRowsAreReported(rows: Table, digest: Digest, ws: string, ms: seq<Memory>, now: int, found: Table,
                            id: string)
    requires Reports(digest, ws, ms, MaintenanceScan, now, found)
    ensures var after := Scanned(rows, ws, found, now);
            && (OwnedIn(after, ws, id) <==> id in found)
            && (id in found && OwnedIn(rows, ws, id) ==> after[id].createdAt == rows[id].createdAt)
            && (id in found && !OwnedIn(rows, ws, id) ==> after[id].createdAt == now)
            && (id !in found && OwnedIn(rows, ws, id) ==> after[id] == Closed(rows[id], now))
            && (id !in found && id in rows && !OwnedIn(rows, ws, id) ==> after[id] == rows[id])
  {
    if id in found { FoundOwned(digest, ws, ms, now, found, id); }
    ScannedOpen(rows, ws, now, found, id);
  }

  lemma ScannedOpen(rows: Table, ws: string, now: int, found: Table, id: string)
    requires id in found ==> WellFound(ws, now, id, found[id])
    ensures var after := Scanned(rows, ws, found, now);
            && (OwnedIn(after, ws, id) <==> id in found)
            && (id in found && OwnedIn(rows, ws, id) ==> after[id] == found[id].(createdAt := rows[id].createdAt))
            && (id in found && !OwnedIn(rows, ws, id) ==> after[id] == found[id])
            && (id !in found && OwnedIn(rows, ws, id) ==> after[id] == Closed(rows[id], now))
            && (id !in found && id in rows && !OwnedIn(rows, ws, id) ==> after[id] == rows[id])
  {
  }

  lemma FoundTopic(digest: Digest, ws: string, ms: seq<Memory>, now: int, found: Table, id: string) returns (t: Topic)
    requires Reports(digest, ws, ms, MaintenanceScan, now, found) && id in found
    ensures Disagree(On(ws, ms, t)) && IdOf(digest, ws, ms, t) == id
    ensures found[id] == ConflictRecord(id, ws, t.key, MemberIds(ws, ms, t), Open, MaintenanceScan, now, None)
  {
    assert Found(digest, ws, ms, MaintenanceScan, now, id, found[id]);
    t :| Disagree(On(ws, ms, t)) && found[id] == RecordOf(digest, ws, ms, t, MaintenanceScan, now)
        && found[id].id == id;
  }

  lemma TopicFound(digest: Digest, ws: string, ms: seq<Memory>, now: int, found: Table, t: Topic)
    requires Reports(digest, ws, ms, MaintenanceScan, now, found) && Disagree(On(ws, ms, t))
    ensures IdOf(digest, ws, ms, t) in found
  {
  }

  // Every row the scan writes lists each member once, which adjudication relies on.
  lemma RowsListDistinctMembers(rows: Table, digest: Digest, ws: string, ms: seq<Memory>, now: int, found: Table)
    requires Distinct(Ids(ms)) && Reports(digest, ws, ms, MaintenanceScan, now, found)
    requires forall id | id in rows :: Distinct(rows[id].memoryIds)
    ensures var after := Scanned(rows, ws, found, now); forall id | id in after :: Distinct(after[id].memoryIds)
  {
    forall id | id in found ensures Distinct(found[id].memoryIds) {
      var t := FoundTopic(digest, ws, ms, now, found, id);
      RecordIds(ws, ms, t, "");
    }
  }

  // Two scans of the same memories at different times find the same conflicts.
  lemma SameFindings(digest: Digest, ws: string, ms: seq<Memory>, ns: seq<Memory>, t: int, u: int, a: Table,
                     b: Table, id: string)
    requires Distinct(Ids(ms)) && Distinct(Ids(ns)) && (forall m :: m in ms <==> m in ns) && Injective(digest)
    requires Reports(digest, ws, ms, MaintenanceScan, t, a) && Reports(digest, ws, ns, MaintenanceScan, u, b) && id in a
    ensures id in b && b[id] == a[id].(createdAt := u)
  {
    var x := FoundTopic(digest, ws, ms, t, a, id);
    ReportByMembers(ws, ms, ns, x);
    TopicFound(digest, ws, ns, u, b, x);
    var y := FoundTopic(digest, ws, ns, u, b, id);
    TopicsApart(digest, ws, ns, x, y);
  }

  // A repeat scan opens and closes nothing: it leaves the table exactly as it is.
  lemma ScanIsFixedPoint(rows: Table, digest: Digest, ws: string, ms: seq<Memory>, ns: seq<Memory>,
                         t: int, u: int, a: Table, b: Table)
    requires Distinct(Ids(ms)) && Distinct(Ids(ns)) && (forall m :: m in ms <==> m in ns) && Injective(digest)
    requires Reports(digest, ws, ms, MaintenanceScan, t, a) && Reports(digest, ws, ns, MaintenanceScan, u, b)
    ensures Scanned(Scanned(rows, ws, a, t), ws, b, u) == Scanned(rows, ws, a, t)
  {
    forall id
      ensures id in a <==> id in b
      ensures id in a ==> WellFound(ws, t, id, a[id]) && b[id] == a[id].(createdAt := u)
    {
      if id in a {
        SameFindings(digest, ws, ms, ns, t, u, a, b, id);
        FoundOwned(digest, ws, ms, t, a, id);
      }
      if id in b { SameFindings(digest, ws, ns, ms, u, t, b, a, id); }
    }
    TwiceScanned(rows, ws, t, u, a, b);
  }

  lemma TwiceScanned(rows: Table, ws: string, t: int, u: int, a: Table, b: Table)
    requires forall id :: id in a <==> id in b
    requires forall id | id in a :: WellFound(ws, t, id, a[id]) && b[id] == a[id].(createdAt := u)
    ensures Scanned(Scanned(rows, ws, a, t), ws, b, u) == Scanned(rows, ws, a, t)
  {
    var once := Scanned(rows, ws, a, t);
    forall id | id in once ensures ScannedRow(once, ws, b, u, id) == once[id] {
      ScannedOpen(rows, ws, t, a, id);
    }
  }

  // A conflict an administrator marked as a false positive is opened again by the next scan that
  // still detects it, as a row created anew.
  lemma FalsePositiveReopened(rows: Table, digest: Digest, ws: string, ms: seq<Memory>, now: int, found: Table,
                              id: string)
    requires Reports(digest, ws, ms, MaintenanceScan, now, found)
    requires id in found && id in rows && rows[id].status == FalsePositive
    ensures var after := Scanned(rows, ws, found, now);
            after[id].status == Open && after[id].createdAt == now && after[id].resolvedAt == None
  {
    FoundOwned(digest, ws, ms, now, found, id);
  }

  // ---- A scan in the fields of the rows ----

  // The row is open, belongs to the workspace, and was written by the maintenance scan.
  predicate OpenHere(rows: Table, ws: string, id: string) {
    id in rows && rows[id].status == Open && rows[id].workspace == ws && rows[id].detectedBy == MaintenanceScan
  }

  // What is found is open and unresolved, dated now, or as before where it was open here already; what is
  // open here and not found again is closed as stale; every other row is as it was.
  lemma ScannedByFields(rows: Table, digest: Digest, ws: string, ms: seq<Memory>, now: int, found: Table, id: string)
    requires Reports(digest, ws, ms, MaintenanceScan, now, found)
    ensures var after := Scanned(rows, ws, found, now);
            && (id in after <==> id in rows || id in found)
            && (id in found ==>
                  && OpenHere(after, ws, id) && after[id].resolvedAt == None && after[id].id == id
                  && after[id].subject == found[id].subject && after[id].memoryIds == found[id].memoryIds
                  && after[id].createdAt == if OpenHere(rows, ws, id) then rows[id].createdAt else now)
            && (id !in found && id in rows ==>
                  after[id] == if OpenHere(rows, ws, id)
                               then rows[id].(status := StaleResolved, resolvedAt := Some(now)) else rows[id])
  {
    if id in found { FoundOwned(digest, ws, ms, now, found, id); }
  }
}
