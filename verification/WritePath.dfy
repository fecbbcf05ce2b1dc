/** Resolving an incoming memory against the repository and persisting the outcome. */
module WritePath {
  import opened Prelude
  import opened Ordering
  import opened Memory
  import opened ConflictPolicy
  import opened Resolver
  import opened MemoryStore
  import opened Repository
  import opened ResolveInPlace

  // The active memories of the incoming identity, from a listing of its workspace.
  method SameIdentityActives(repo: MemoryRepository, incoming: Memory) returns (out: seq<Memory>)
    requires Keyed(repo.rows) && incoming.id !in repo.rows
    ensures Listing(repo.rows, incoming, out)
  {
    var ms := repo.ListMemories(incoming.workspace);
    out := [];
    for i := 0 to |ms|
      invariant Distinct(Ids(out))
      invariant forall m | m in out ::
                  m in ms[..i] && m.status == Active && m.id != incoming.id && SameIdentity(m, incoming)
      invariant forall m | m in ms[..i] && m.status == Active && SameIdentity(m, incoming) :: m in out
    {
      var m := ms[i];
      assert ms[..i + 1] == ms[..i] + [m];
      if m.status == Active && m.id != incoming.id && SameIdentity(m, incoming) {
        EarlierIds(ms, i);
        NewId(ms[..i], out, m.id);
        DistinctAppend(Ids(out), m.id);
        assert Ids(out + [m]) == Ids(out) + [m.id];
        out := out + [m];
      }
    }
    assert ms[..|ms|] == ms;
  }

  lemma NewId(all: seq<Memory>, out: seq<Memory>, id: string)
    requires (forall m | m in out :: m in all) && forall m | m in all :: m.id != id
    ensures id !in Ids(out)
  {
    forall i | 0 <= i < |out| ensures Ids(out)[i] != id {
      MemberAt(out, i);
    }
  }

  // One mutable item per listed memory.
  method Copies(ms: seq<Memory>) returns (items: seq<MemoryItem>)
    ensures fresh(Objects(items)) && Fields(items) == ms
  {
    items := [];
    for i := 0 to |ms|
      invariant |items| == i && forall j | 0 <= j < i :: fresh(items[j])
      invariant forall j | 0 <= j < i :: items[j].fields == ms[j]
    {
      var item := new MemoryItem(ms[i]);
      items := items + [item];
    }
  }

  // Resolving copies of the listed memories: the rows that changed, with their new values.
  method ResolveCopies(incoming: Memory, listed: seq<Memory>, now: int)
    returns (add: Option<Memory>, changed: set<Memory>)
    requires Matching(incoming, listed)
    ensures var p := PlanOf(incoming, listed, now); Reports(p, listed, add, changed)
  {
    var items := Copies(listed);
    var item := new MemoryItem(incoming);
    ghost var p := PlanOf(incoming, listed, now);
    var added, updates := Resolve(item, items, now);
    add := if added.Some? then Some(item.fields) else None;
    changed := set x | x in updates :: x.fields;
    forall i | 0 <= i < |listed| ensures items[i].fields == RowAfter(p, listed[i]) {
      assert items[i] in Objects(items);
    }
    forall i | 0 <= i < |listed| && items[i] !in updates ensures RowAfter(p, listed[i]) == listed[i] {
      assert items[i] in Objects(items) - updates;
    }
    ReportsItems(p, listed, items, updates, added, add);
  }

  ghost predicate Reports(p: Plan, listed: seq<Memory>, add: Option<Memory>, changed: set<Memory>) {
    && add == Added(p)
    && (forall c | c in listed && RowAfter(p, c) != c :: RowAfter(p, c) in changed)
    && (forall m | m in changed :: exists c | c in listed :: m == RowAfter(p, c))
  }

  lemma ReportsItems(p: Plan, listed: seq<Memory>, items: seq<MemoryItem>, updates: set<MemoryItem>,
                     added: Option<MemoryItem>, add: Option<Memory>)
    requires |items| == |listed| && updates <= Objects(items) && add == Added(p)
    requires forall i | 0 <= i < |listed| :: items[i].fields == RowAfter(p, listed[i])
    requires forall i | 0 <= i < |listed| && items[i] !in updates :: RowAfter(p, listed[i]) == listed[i]
    ensures Reports(p, listed, add, set x | x in updates :: x.fields)
  {
    forall c | c in listed && RowAfter(p, c) != c ensures exists x | x in updates :: x.fields == RowAfter(p, c) {
      var i :| 0 <= i < |listed| && listed[i] == c;
      assert items[i] in updates;
    }
    forall x | x in updates ensures exists c | c in listed :: x.fields == RowAfter(p, c) {
      var i :| 0 <= i < |items| && items[i] == x;
      MemberAt(listed, i);
    }
  }

  // Reconciling touches no access counter.
  lemma AccessKept(incoming: Memory, existing: seq<Memory>, now: int, m: Memory)
    requires Matching(incoming, existing) && m in existing
    ensures SameAccess(RowAfter(PlanOf(incoming, existing, now), m), m)
  {
    var p := PlanOf(incoming, existing, now);
    PrimaryAccess(incoming, existing, now, m);
    RowAccess(p, m);
  }

  ghost predicate SameAccess(a: Memory, b: Memory) {
    a.id == b.id && a.accessCount == b.accessCount && a.lastAccessed == b.lastAccessed
  }

  lemma PrimaryAccess(incoming: Memory, existing: seq<Memory>, now: int, m: Memory)
    requires Matching(incoming, existing) && m in existing
    ensures var p := PlanOf(incoming, existing, now);
            Norm(m.value) == p.value && m.id == p.primary.id ==> SameAccess(p.primary, m)
  {
    var p := PlanOf(incoming, existing, now);
    PlanParts(incoming, existing, now);
    var same := WithValue(existing, p.value, true);
    WithValueMember(existing, p.value, true, m);
    if Norm(m.value) == p.value && m.id == p.primary.id {
      var rep := Representative(same);
      WithValueMember(existing, p.value, true, rep);
      MergedAccess(rep, same + [incoming], incoming.key, now);
      SameIdSame(existing, rep, m);
    }
  }

  lemma MergedAccess(rep: Memory, group: seq<Memory>, key: Option<string>, now: int)
    requires group != []
    ensures SameAccess(Merged(rep, group, key, now), rep)
  {
  }

  lemma RowAccess(p: Plan, m: Memory)
    requires Norm(m.value) == p.value && m.id == p.primary.id ==> SameAccess(p.primary, m)
    ensures SameAccess(RowAfter(p, m), m)
  {
  }

  // On the way from one store to another: rows that differ from the target are still pending.
  ghost predicate Toward(before: Store, current: Store, target: Store, pending: set<Memory>) {
    && current.Keys == before.Keys == target.Keys
    && (forall id | id in target :: current[id] == before[id] || current[id] == target[id])
    && (forall id | id in target && target[id] != current[id] :: target[id] in pending && target[id].id == id)
  }

  lemma TowardStep(before: Store, current: Store, target: Store, pending: set<Memory>, m: Memory)
    requires Toward(before, current, target, pending) && m in pending && m.id in target && target[m.id] == m
    ensures Toward(before, current[m.id := m], target, pending - {m})
  {
  }

  // Persisting the changed rows one by one, towards a given store.
  method Persist(repo: MemoryRepository, changed: set<Memory>, ghost target: Store)
    requires target.Keys == repo.rows.Keys
    requires forall m | m in changed :: m.id in target && target[m.id] == m && Updated(repo.rows[m.id], m) == m
    requires forall id | id in target && target[id] != repo.rows[id] :: target[id] in changed && target[id].id == id
    modifies repo`rows
    ensures repo.rows == target
  {
    ghost var before := repo.rows;
    var pending := changed;
    while pending != {}
      invariant pending <= changed && Toward(before, repo.rows, target, pending)
      decreases |pending|
    {
      var m :| m in pending;
      TowardStep(before, repo.rows, target, pending, m);
      assert Updated(before[m.id], m) == m;
      repo.UpdateMemory(m);
      pending := pending - {m};
    }
  }

  // The store after the changed rows are persisted, before the new one is added.
  ghost function Replaced(store: Store, existing: seq<Memory>, p: Plan): Store {
    map id | id in store :: if store[id] in existing then RowAfter(p, store[id]) else store[id]
  }

  lemma PersistReady(store: Store, incoming: Memory, existing: seq<Memory>, now: int, add: Option<Memory>,
                     changed: set<Memory>)
    requires CanWrite(store, incoming, existing)
    requires Reports(PlanOf(incoming, existing, now), existing, add, changed)
    ensures var target := Replaced(store, existing, PlanOf(incoming, existing, now));
            && (forall m | m in changed :: m.id in target && target[m.id] == m && Updated(store[m.id], m) == m)
            && forall id | id in target && target[id] != store[id] :: target[id] in changed && target[id].id == id
  {
    var p := PlanOf(incoming, existing, now);
    var target := Replaced(store, existing, p);
    forall m | m in changed ensures m.id in target && target[m.id] == m && Updated(store[m.id], m) == m {
      var c :| c in existing && m == RowAfter(p, c);
      AccessKept(incoming, existing, now, c);
    }
    forall id | id in target && target[id] != store[id] ensures target[id] in changed && target[id].id == id {
      AccessKept(incoming, existing, now, store[id]);
    }
  }

  // The whole write: exactly the rows the specification of a write gives. The listing it was
  // resolved against is reported for that purpose.
  method ResolveAndPersist(repo: MemoryRepository, incoming: Memory, now: int)
    returns (created: Option<string>, ghost existing: seq<Memory>)
    requires Keyed(repo.rows) && incoming.id !in repo.rows
    modifies repo`rows
    ensures CanWrite(old(repo.rows), incoming, existing)
    ensures repo.rows == Written(old(repo.rows), incoming, existing, now)
    ensures created == if PlanOf(incoming, existing, now).merged then None else Some(incoming.id)
  {
    var listed := SameIdentityActives(repo, incoming);
    existing := listed;
    var add, changed := ResolveCopies(incoming, listed, now);
    PersistReady(repo.rows, incoming, listed, now, add, changed);
    PrimaryKeeps(incoming, listed, now);
    PrimaryIs(incoming, listed, now);
    Persist(repo, changed, Replaced(repo.rows, listed, PlanOf(incoming, listed, now)));
    if add.Some? {
      repo.AddMemory(add.value);
      created := Some(add.value.id);
    } else {
      created := None;
    }
  }
}
