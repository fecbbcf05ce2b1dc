/** The in-memory repository: its rows, its lifecycle audits, and the compare-and-set transition. */
module Repository {
  import opened Prelude
  import opened Ordering
  import opened Memory
  import opened ConflictPolicy
  import opened MemoryStore
  import opened Lifecycle

  datatype TransitionError = NotFound | Stale

  // A transition replaces status, metadata, successor and time of the stored row, nothing else.
  function Patched(current: Memory, m: Memory): Memory {
    current.(status := m.status, meta := m.meta, supersededBy := m.supersededBy, updatedAt := m.updatedAt)
  }

  // An ordinary update cannot bring a lifecycle-managed row back to active, and never touches the
  // access counters.
  function Updated(before: Memory, m: Memory): Memory {
    var counted := m.(accessCount := before.accessCount, lastAccessed := before.lastAccessed);
    if before.status != Active && m.status == Active
    then counted.(status := before.status, meta := before.meta, supersededBy := before.supersededBy)
    else counted
  }

  ghost predicate ByCreation(ms: seq<Memory>) {
    forall i, j | 0 <= i < j < |ms| :: ms[i].createdAt <= ms[j].createdAt
  }

  // All memories of a workspace, once each, the oldest first.
  ghost predicate Lists(rows: Store, ws: string, ms: seq<Memory>) {
    && Distinct(Ids(ms)) && ByCreation(ms)
    && (forall m | m in ms :: m.id in rows && rows[m.id] == m && m.workspace == ws)
    && (forall id | id in rows && rows[id].workspace == ws :: rows[id] in ms)
  }

  function InsertByCreation(ms: seq<Memory>, m: Memory): seq<Memory> {
    if ms == [] || ms[|ms| - 1].createdAt <= m.createdAt then ms + [m]
    else InsertByCreation(ms[..|ms| - 1], m) + [ms[|ms| - 1]]
  }

  lemma {:induction false} InsertMembers(ms: seq<Memory>, m: Memory)
    ensures forall x :: x in InsertByCreation(ms, m) <==> x in ms || x == m
  {
    if ms != [] && ms[|ms| - 1].createdAt > m.createdAt {
      InsertMembers(ms[..|ms| - 1], m);
      assert ms == ms[..|ms| - 1] + [ms[|ms| - 1]];
    }
  }

  lemma {:induction false} InsertSortedByCreation(ms: seq<Memory>, m: Memory)
    requires ByCreation(ms)
    ensures ByCreation(InsertByCreation(ms, m))
  {
    var last := |ms| - 1;
    if ms != [] && ms[last].createdAt > m.createdAt {
      InsertSortedByCreation(ms[..last], m);
      InsertMembers(ms[..last], m);
      var front := InsertByCreation(ms[..last], m);
      forall i | 0 <= i < |front| ensures front[i].createdAt <= ms[last].createdAt {
        MemberAt(front, i);
      }
    }
  }

  lemma {:induction false} InsertDistinct(ms: seq<Memory>, m: Memory)
    requires Distinct(Ids(ms)) && m.id !in Ids(ms)
    ensures Distinct(Ids(InsertByCreation(ms, m)))
  {
    var last := |ms| - 1;
    if ms == [] || ms[last].createdAt <= m.createdAt {
      assert Ids(ms + [m]) == Ids(ms) + [m.id];
    } else {
      assert Ids(ms[..last]) == Ids(ms)[..last];
      InsertDistinct(ms[..last], m);
      InsertMembers(ms[..last], m);
      var front := InsertByCreation(ms[..last], m);
      forall i | 0 <= i < |front| ensures Ids(front)[i] != ms[last].id {
        MemberAt(front, i);
        IdElsewhere(ms, front[i]);
      }
      assert Ids(front + [ms[last]]) == Ids(front) + [ms[last].id];
    }
  }

  lemma IdElsewhere(ms: seq<Memory>, x: Memory)
    requires ms != [] && Distinct(Ids(ms))
    ensures x in ms[..|ms| - 1] || x.id !in Ids(ms) ==> x.id != ms[|ms| - 1].id
  {
    var last := |ms| - 1;
    assert Ids(ms)[last] == ms[last].id;
    if x in ms[..last] {
      var j :| 0 <= j < last && ms[j] == x;
      assert Ids(ms)[j] == x.id;
    }
  }

  class MemoryRepository {
    var rows: Store
    var audits: seq<Audit>

    constructor ()
      ensures rows == map[] && audits == []
    {
      rows := map[];
      audits := [];
    }

    method AddMemory(m: Memory)
      modifies this`rows
      ensures rows == old(rows)[m.id := m]
    {
      rows := rows[m.id := m];
    }

    method UpdateMemory(m: Memory)
      modifies this`rows
      ensures rows == old(rows)[m.id := if m.id in old(rows) then Updated(old(rows)[m.id], m) else m]
    {
      rows := rows[m.id := if m.id in rows then Updated(rows[m.id], m) else m];
    }

    // transition_memory_with_audit: refused when the row is gone, or has left the status the audit
    // starts from.
    method TransitionWithAudit(m: Memory, audit: Audit) returns (refusal: Option<TransitionError>)
      modifies this
      ensures refusal == if m.id !in old(rows) then Some(NotFound)
                         else if old(rows)[m.id].status != audit.before then Some(Stale) else None
      ensures refusal.None? ==> rows == old(rows)[m.id := Patched(old(rows)[m.id], m)]
      ensures refusal.None? ==> audits == old(audits) + [audit]
      ensures refusal.Some? ==> rows == old(rows) && audits == old(audits)
    {
      if m.id !in rows {
        return Some(NotFound);
      }
      if rows[m.id].status != audit.before {
        return Some(Stale);
      }
      rows := rows[m.id := Patched(rows[m.id], m)];
      audits := audits + [audit];
      refusal := None;
    }

    method ListMemories(ws: string) returns (ms: seq<Memory>)
      requires Keyed(rows)
      ensures Lists(rows, ws, ms)
    {
      ms := [];
      var pending := rows.Keys;
      while pending != {}
        invariant pending <= rows.Keys
        invariant Distinct(Ids(ms)) && ByCreation(ms)
        invariant forall m | m in ms :: m.id in rows && m.id !in pending && rows[m.id] == m && m.workspace == ws
        invariant forall id | id in rows && id !in pending && rows[id].workspace == ws :: rows[id] in ms
        decreases |pending|
      {
        var id :| id in pending;
        if rows[id].workspace == ws {
          InsertMembers(ms, rows[id]);
          InsertSortedByCreation(ms, rows[id]);
          FreshId(ms, id);
          InsertDistinct(ms, rows[id]);
          ms := InsertByCreation(ms, rows[id]);
        }
        pending := pending - {id};
      }
    }
  }

  lemma FreshId(ms: seq<Memory>, id: string)
    requires forall m | m in ms :: m.id != id
    ensures id !in Ids(ms)
  {
    if id in Ids(ms) {
      var m := IdOwner(ms, id);
    }
  }

  lemma EarlierIds(ms: seq<Memory>, i: nat)
    requires Distinct(Ids(ms)) && i < |ms|
    ensures forall m | m in ms[..i] :: m.id != ms[i].id
  {
    forall j | 0 <= j < i ensures ms[j].id != ms[i].id {
      assert Ids(ms)[j] != Ids(ms)[i];
    }
  }

  // A stale update cannot bring a retired memory back.
  lemma UpdateNeverReactivates(before: Memory, m: Memory)
    ensures Updated(before, m).status == Active ==> before.status == Active && m.status == Active
    ensures m.status != Active || before.status == Active ==>
              Updated(before, m) == m.(accessCount := before.accessCount, lastAccessed := before.lastAccessed)
    ensures m.status == Active && before.status != Active ==>
              Updated(before, m) == m.(accessCount := before.accessCount, lastAccessed := before.lastAccessed,
                                       status := before.status, meta := before.meta,
                                       supersededBy := before.supersededBy)
  {
  }

  // The row a lifecycle transition asks for, with any successor, is the row that is stored: nothing of it is
  // lost by storing only what a transition may change.
  lemma TransitionStored(current: Memory, requested: Status, actor: Actor, now: int, successor: Option<string>)
    requires Transition(current, requested, actor, now).Ok?
    ensures var moved := Transition(current, requested, actor, now).value.0.(supersededBy := successor);
            Patched(current, moved) == moved
  {
  }
}
