/** The retention sweeps: one listing of the workspace, swept memory by memory. */
module Sweeps {
  import opened Prelude
  import opened Ordering
  import opened Memory
  import opened ConflictPolicy
  import opened MemoryStore
  import opened Repository
  import opened Retention
  import L = Lifecycle

  datatype Sweep = Decay | Archive | Quarantine

  // ---- What a sweep does to one memory ----

  function SweptStatus(s: Sweep, m: Memory, now: int): Status {
    match s
    case Decay => if Low(m, now) && m.status == Active then Dormant else m.status
    case Archive => if Low(m, now) && m.status in {Active, Dormant} then Archived else m.status
    case Quarantine => if HighRisk(m) && m.status == Active then Quarantined else m.status
  }

  predicate Hit(s: Sweep, m: Memory, now: int) {
    SweptStatus(s, m, now) != m.status
  }

  function SweptRow(s: Sweep, m: Memory, now: int, at: int): Memory {
    if Hit(s, m, now) then m.(status := SweptStatus(s, m, now), updatedAt := at) else m
  }

  // The audits of one memory: archiving an active memory goes through dormant.
  function Steps(s: Sweep, m: Memory, now: int): seq<L.Audit> {
    if !Hit(s, m, now) then []
    else if s == Archive && m.status == Active then
      [L.Audit(m.id, Active, Dormant, L.Scheduler), L.Audit(m.id, Dormant, Archived, L.Scheduler)]
    else [L.Audit(m.id, m.status, SweptStatus(s, m, now), L.Scheduler)]
  }

  // ---- What it does to a workspace ----

  function Swept(rows: Store, ws: string, s: Sweep, now: int, at: int): Store {
    map id | id in rows :: if rows[id].workspace == ws then SweptRow(s, rows[id], now, at) else rows[id]
  }

  // The state after the given memories have been handled.
  function SweptIn(rows: Store, ms: seq<Memory>, s: Sweep, now: int, at: int): Store {
    map id | id in rows :: if rows[id] in ms then SweptRow(s, rows[id], now, at) else rows[id]
  }

  function Trail(ms: seq<Memory>, s: Sweep, now: int): seq<L.Audit> {
    if ms == [] then [] else Trail(ms[..|ms| - 1], s, now) + Steps(s, ms[|ms| - 1], now)
  }

  function Hits(ms: seq<Memory>, s: Sweep, now: int): nat {
    if ms == [] then 0
    else Hits(ms[..|ms| - 1], s, now) + if Hit(s, ms[|ms| - 1], now) then 1 else 0
  }

  lemma SweptWhole(rows: Store, ws: string, ms: seq<Memory>, s: Sweep, now: int, at: int)
    requires Lists(rows, ws, ms)
    ensures SweptIn(rows, ms, s, now, at) == Swept(rows, ws, s, now, at)
  {
  }

  lemma SweptNext(rows: Store, ws: string, ms: seq<Memory>, i: nat, s: Sweep, now: int, at: int)
    requires Keyed(rows) && Lists(rows, ws, ms) && i < |ms|
    ensures var before := SweptIn(rows, ms[..i], s, now, at);
            && ms[i].id in before && before[ms[i].id] == ms[i]
            && SweptIn(rows, ms[..i + 1], s, now, at) == before[ms[i].id := SweptRow(s, ms[i], now, at)]
  {
    MemberAt(ms, i);
    forall j | 0 <= j < i ensures ms[j] != ms[i] {
      assert Ids(ms)[j] != Ids(ms)[i];
    }
    assert ms[..i + 1] == ms[..i] + [ms[i]];
  }

  // ---- The sweeps ----

  method TryTransition(repo: MemoryRepository, m: Memory, audit: L.Audit) returns (ok: bool)
    requires m.id in repo.rows
    modifies repo
    ensures ok <==> old(repo.rows)[m.id].status == audit.before
    ensures ok ==> repo.rows == old(repo.rows)[m.id := Patched(old(repo.rows)[m.id], m)]
    ensures ok ==> repo.audits == old(repo.audits) + [audit]
    ensures !ok ==> repo.rows == old(repo.rows) && repo.audits == old(repo.audits)
  {
    var refusal := repo.TransitionWithAudit(m, audit);
    ok := refusal.None?;
  }

  // One scheduler transition of a listed memory.
  method Move(repo: MemoryRepository, m: Memory, to: Status, at: int) returns (ok: bool, moved: Memory)
    requires m.id in repo.rows && repo.rows[m.id] == m
    requires (m.status == Active && to in {Dormant, Quarantined}) || (m.status == Dormant && to == Archived)
    modifies repo
    ensures ok && moved == m.(status := to, updatedAt := at)
    ensures repo.rows == old(repo.rows)[m.id := moved]
    ensures repo.audits == old(repo.audits) + [L.Audit(m.id, m.status, to, L.Scheduler)]
  {
    var outcome := L.Transition(m, to, L.Scheduler, at);
    moved := outcome.value.0;
    ok := TryTransition(repo, moved, outcome.value.1);
  }

  method DecayOne(repo: MemoryRepository, m: Memory, now: int, at: int) returns (hit: bool)
    requires m.id in repo.rows && repo.rows[m.id] == m
    modifies repo
    ensures hit == Hit(Decay, m, now)
    ensures repo.rows == old(repo.rows)[m.id := SweptRow(Decay, m, now, at)]
    ensures repo.audits == old(repo.audits) + Steps(Decay, m, now)
  {
    hit := false;
    if Signals(m, now).retention < KEEP_THRESHOLD && m.status == Active {
      var moved;
      hit, moved := Move(repo, m, Dormant, at);
    }
  }

  method ArchiveOne(repo: MemoryRepository, m: Memory, now: int, at: int) returns (hit: bool)
    requires m.id in repo.rows && repo.rows[m.id] == m
    modifies repo
    ensures hit == Hit(Archive, m, now)
    ensures repo.rows == old(repo.rows)[m.id := SweptRow(Archive, m, now, at)]
    ensures repo.audits == old(repo.audits) + Steps(Archive, m, now)
  {
    if m.status == Pinned || Signals(m, now).retention >= KEEP_THRESHOLD { return false; }
    var current := m;
    var target := if m.status == Dormant then Some(Archived) else None;
    if m.status == Active {
      var ok, dormant := Move(repo, m, Dormant, at);
      if !ok { return false; }
      target := Some(Archived);
      current := dormant;
    }
    if target.None? { return false; }
    var moved;
    hit, moved := Move(repo, current, target.value, at);
  }

  method QuarantineOne(repo: MemoryRepository, m: Memory, now: int, at: int) returns (hit: bool)
    requires m.id in repo.rows && repo.rows[m.id] == m
    modifies repo
    ensures hit == Hit(Quarantine, m, now)
    ensures repo.rows == old(repo.rows)[m.id := SweptRow(Quarantine, m, now, at)]
    ensures repo.audits == old(repo.audits) + Steps(Quarantine, m, now)
  {
    hit := false;
    if Signals(m, now).highRisk && m.status == Active {
      var moved;
      hit, moved := Move(repo, m, Quarantined, at);
    }
  }

  method SweepOne(repo: MemoryRepository, m: Memory, s: Sweep, now: int, at: int) returns (hit: bool)
    requires m.id in repo.rows && repo.rows[m.id] == m
    modifies repo
    ensures hit == Hit(s, m, now)
    ensures repo.rows == old(repo.rows)[m.id := SweptRow(s, m, now, at)]
    ensures repo.audits == old(repo.audits) + Steps(s, m, now)
  {
    match s
    case Decay => hit := DecayOne(repo, m, now, at);
    case Archive => hit := ArchiveOne(repo, m, now, at);
    case Quarantine => hit := QuarantineOne(repo, m, now, at);
  }

  // decay_memory, archive_memory and quarantine_memory: the listing is swept one memory at a time.
  // Without a concurrent writer no transition is stale, so every listed memory is handled.
  method Run(repo: MemoryRepository, ws: string, s: Sweep, now: int, at: int)
    returns (count: nat, ghost listed: seq<Memory>)
    requires Keyed(repo.rows)
    modifies repo
    ensures Lists(old(repo.rows), ws, listed)
    ensures repo.rows == Swept(old(repo.rows), ws, s, now, at)
    ensures repo.audits == old(repo.audits) + Trail(listed, s, now)
    ensures count == Hits(listed, s, now)
  {
    var ms := repo.ListMemories(ws);
    listed := ms;
    count := SweepListed(repo, ws, ms, s, now, at);
    SweptWhole(old(repo.rows), ws, ms, s, now, at);
  }

  method SweepListed(repo: MemoryRepository, ghost ws: string, ms: seq<Memory>, s: Sweep, now: int, at: int)
    returns (count: nat)
    requires Keyed(repo.rows) && Lists(repo.rows, ws, ms)
    modifies repo
    ensures repo.rows == SweptIn(old(repo.rows), ms, s, now, at)
    ensures repo.audits == old(repo.audits) + Trail(ms, s, now)
    ensures count == Hits(ms, s, now)
  {
    ghost var rows, audits := repo.rows, repo.audits;
    count := 0;
    for i := 0 to |ms|
      invariant repo.rows == SweptIn(rows, ms[..i], s, now, at)
      invariant repo.audits == audits + Trail(ms[..i], s, now)
      invariant count == Hits(ms[..i], s, now)
    {
      SweptNext(rows, ws, ms, i, s, now, at);
      var hit := SweepOne(repo, ms[i], s, now, at);
      if hit { count := count + 1; }
      TrailNext(audits, ms, i, s, now);
    }
    assert ms[..|ms|] == ms;
  }

  lemma TrailNext(audits: seq<L.Audit>, ms: seq<Memory>, i: nat, s: Sweep, now: int)
    requires i < |ms|
    ensures audits + Trail(ms[..i], s, now) + Steps(s, ms[i], now) == audits + Trail(ms[..i + 1], s, now)
    ensures Hits(ms[..i + 1], s, now) == Hits(ms[..i], s, now) + if Hit(s, ms[i], now) then 1 else 0
  {
    assert ms[..i + 1][..i] == ms[..i];
  }

  // ---- What the sweeps add up to ----

  // For one fixed time, decay and then archive is archive alone: the same row and the same audits.
  lemma DecayThenArchive(m: Memory, now: int, t: int, u: int)
    ensures var decayed := SweptRow(Decay, m, now, t);
            && SweptRow(Archive, decayed, now, u) == SweptRow(Archive, m, now, u)
            && Steps(Decay, m, now) + Steps(Archive, decayed, now) == Steps(Archive, m, now)
  {
  }

  lemma DecayThenArchiveStore(rows: Store, ws: string, now: int, t: int, u: int)
    ensures Swept(Swept(rows, ws, Decay, now, t), ws, Archive, now, u) == Swept(rows, ws, Archive, now, u)
  {
    forall id | id in rows
      ensures SweptRow(Archive, SweptRow(Decay, rows[id], now, t), now, u) == SweptRow(Archive, rows[id], now, u)
    {
      DecayThenArchive(rows[id], now, t, u);
    }
  }

  // A second sweep at the same time finds nothing.
  lemma SweepIsFixedPoint(m: Memory, s: Sweep, now: int, at: int)
    ensures !Hit(s, SweptRow(s, m, now, at), now)
  {
  }

  // After decay, archive and quarantine no active memory of the workspace is expired, high-risk or
  // below the threshold; pinned memories and other workspaces are as they were.
  lemma AfterAllSweeps(rows: Store, ws: string, now: int, t: int, u: int, v: int, id: string)
    requires id in rows
    ensures var after := Swept(Swept(Swept(rows, ws, Decay, now, t), ws, Archive, now, u), ws, Quarantine, now, v);
            && id in after
            && (rows[id].workspace != ws || rows[id].status == Pinned ==> after[id] == rows[id])
            && (after[id].workspace == ws && after[id].status == Active ==>
                  after[id] == rows[id] && !Expired(after[id], now) && !HighRisk(after[id])
                  && Signals(after[id], now).retention >= KEEP_THRESHOLD)
  {
    ScoreBounds(rows[id], now);
    AfterAll(rows[id], now, t, u, v);
  }

  lemma AfterAll(m: Memory, now: int, t: int, u: int, v: int)
    ensures var after := SweptRow(Quarantine, SweptRow(Archive, SweptRow(Decay, m, now, t), now, u), now, v);
            && after.workspace == m.workspace
            && (m.status == Pinned ==> after == m)
            && (after.status == Active ==> after == m && !HighRisk(m) && !Low(m, now))
  {
  }

  // The sweeps in the fields of the memories: what each of them hits, and that it changes status and time
  // of those alone.
  lemma SweptByFields(rows: Store, ws: string, s: Sweep, now: int, at: int, id: string)
    requires id in rows
    ensures var m, after := rows[id], Swept(rows, ws, s, now, at);
            && id in after
            && after[id] == if m.workspace != ws then m
                            else match s
                              case Decay =>
                                if m.status == Active && Due(m, now) then m.(status := Dormant, updatedAt := at) else m
                              case Archive =>
                                if (m.status == Active || m.status == Dormant) && Due(m, now)
                                then m.(status := Archived, updatedAt := at) else m
                              case Quarantine =>
                                if m.status == Active && Risky(m)
                                then m.(status := Quarantined, updatedAt := at) else m
  {
    LowByFields(rows[id], now);
  }

  // The audits of one memory in a trail are its own steps, wherever it stands in the listing.
  function Of(audits: seq<L.Audit>, id: string): seq<L.Audit> {
    if audits == [] then []
    else Of(audits[..|audits| - 1], id) + if audits[|audits| - 1].id == id then [audits[|audits| - 1]] else []
  }

  lemma {:induction false} OfAppend(a: seq<L.Audit>, b: seq<L.Audit>, id: string)
    ensures Of(a + b, id) == Of(a, id) + Of(b, id)
  {
    if b == [] {
      assert a + b == a;
    } else {
      var last := |b| - 1;
      assert (a + b)[..|a + b| - 1] == a + b[..last];
      OfAppend(a, b[..last], id);
    }
  }

  lemma {:induction false} OfSame(a: seq<L.Audit>, id: string, other: bool)
    requires forall i | 0 <= i < |a| :: (a[i].id == id) == other
    ensures Of(a, id) == if other then a else []
  {
    if a != [] {
      OfSame(a[..|a| - 1], id, other);
    }
  }

  lemma StepsOf(m: Memory, s: Sweep, now: int, id: string)
    ensures Of(Steps(s, m, now), id) == if m.id == id then Steps(s, m, now) else []
  {
    OfSame(Steps(s, m, now), id, m.id == id);
  }

  lemma {:induction false} NoTrail(ms: seq<Memory>, s: Sweep, now: int, id: string)
    requires forall m | m in ms :: m.id != id
    ensures Of(Trail(ms, s, now), id) == []
  {
    if ms != [] {
      var last := |ms| - 1;
      NoTrail(ms[..last], s, now, id);
      OfAppend(Trail(ms[..last], s, now), Steps(s, ms[last], now), id);
      StepsOf(ms[last], s, now, id);
    }
  }

  lemma {:induction false} TrailOf(ms: seq<Memory>, s: Sweep, now: int, m: Memory)
    requires Distinct(Ids(ms)) && m in ms
    ensures Of(Trail(ms, s, now), m.id) == Steps(s, m, now)
  {
    var last := |ms| - 1;
    assert Ids(ms[..last]) == Ids(ms)[..last];
    EarlierIds(ms, last);
    TrailSnoc(ms, s, now, m.id);
    if m == ms[last] {
      NoTrail(ms[..last], s, now, m.id);
    } else {
      assert m in ms[..last];
      TrailOf(ms[..last], s, now, m);
    }
  }

  lemma TrailSnoc(ms: seq<Memory>, s: Sweep, now: int, id: string)
    requires ms != []
    ensures var m := ms[|ms| - 1];
            Of(Trail(ms, s, now), id)
            == Of(Trail(ms[..|ms| - 1], s, now), id) + if m.id == id then Steps(s, m, now) else []
  {
    OfAppend(Trail(ms[..|ms| - 1], s, now), Steps(s, ms[|ms| - 1], now), id);
    StepsOf(ms[|ms| - 1], s, now, id);
  }

  // So decay followed by archive writes every memory the audits that archive alone writes, whatever
  // order the three listings have.
  lemma SameAudits(rows: Store, ws: string, now: int, at: int, id: string,
                   first: seq<Memory>, second: seq<Memory>, alone: seq<Memory>)
    requires Keyed(rows) && id in rows && rows[id].workspace == ws
    requires Lists(rows, ws, first) && Lists(Swept(rows, ws, Decay, now, at), ws, second) && Lists(rows, ws, alone)
    ensures Of(Trail(first, Decay, now) + Trail(second, Archive, now), id) == Of(Trail(alone, Archive, now), id)
  {
    var m := rows[id];
    var decayed := SweptRow(Decay, m, now, at);
    OfAppend(Trail(first, Decay, now), Trail(second, Archive, now), id);
    assert Swept(rows, ws, Decay, now, at)[id] == decayed;
    TrailOf(first, Decay, now, m);
    TrailOf(second, Archive, now, decayed);
    TrailOf(alone, Archive, now, m);
    DecayThenArchive(m, now, at, at);
  }
}
