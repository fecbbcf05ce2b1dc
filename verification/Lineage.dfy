/** Superseded-by links: no cycle, and every chain ends at a memory that still stands. */
module Lineage {
  import opened Prelude
  import opened Ordering
  import opened Memory
  import opened ConflictPolicy
  import opened Resolver
  import opened MemoryStore

  // A ranking of the superseded memories under which every link goes up.
  datatype Ranking = Ranking(rank: map<string, nat>, bound: nat)

  predicate Gone(store: Store, id: string) {
    id in store && store[id].status == Superseded
  }

  ghost predicate Linked(store: Store, r: Ranking, id: string)
    requires Gone(store, id)
  {
    && id in r.rank && r.rank[id] < r.bound
    && store[id].supersededBy.Some?
    && var t := store[id].supersededBy.value;
       t in store && (Gone(store, t) ==> t in r.rank && r.rank[id] < r.rank[t])
  }

  ghost predicate Ranked(store: Store, r: Ranking) {
    forall id | Gone(store, id) :: Linked(store, r, id)
  }

  ghost predicate Sound(store: Store) {
    exists r :: Ranked(store, r)
  }

  // ---- What soundness means ----

  ghost function Target(store: Store, id: string): string
    requires Gone(store, id) && store[id].supersededBy.Some?
  {
    store[id].supersededBy.value
  }

  // The end of the chain that starts at a memory.
  ghost function Root(store: Store, r: Ranking, id: string): (root: string)
    requires Ranked(store, r) && id in store
    ensures root in store && !Gone(store, root)
    decreases if Gone(store, id) && id in r.rank then r.bound - r.rank[id] else 0
  {
    if Gone(store, id) then
      assert Linked(store, r, id);
      var t := Target(store, id);
      assert Gone(store, t) ==> Linked(store, r, t);
      Root(store, r, t)
    else id
  }

  // A walk along the links.
  ghost predicate Walk(store: Store, path: seq<string>) {
    forall i | 0 <= i < |path| - 1 ::
      Gone(store, path[i]) && store[path[i]].supersededBy == Some(path[i + 1])
  }

  // No walk along the links ever comes back to where it was.
  lemma {:induction false} NoCycle(store: Store, r: Ranking, path: seq<string>, i: nat, j: nat)
    requires Ranked(store, r) && Walk(store, path) && i < j < |path|
    ensures path[i] != path[j]
    ensures Gone(store, path[j]) ==> path[i] in r.rank && path[j] in r.rank && r.rank[path[i]] < r.rank[path[j]]
    decreases j
  {
    assert Linked(store, r, path[i]);
    if j > i + 1 {
      NoCycle(store, r, path, i, j - 1);
      assert Linked(store, r, path[j - 1]);
    }
    assert !Gone(store, path[j]) ==> path[i] != path[j];
  }

  // Walking from a memory reaches its root.
  lemma {:induction false} WalkToRoot(store: Store, r: Ranking, id: string) returns (path: seq<string>)
    requires Ranked(store, r) && id in store
    ensures path != [] && path[0] == id && Walk(store, path) && path[|path| - 1] == Root(store, r, id)
    decreases if Gone(store, id) && id in r.rank then r.bound - r.rank[id] else 0
  {
    if Gone(store, id) {
      assert Linked(store, r, id);
      var t := Target(store, id);
      assert Gone(store, t) ==> Linked(store, r, t);
      var rest := WalkToRoot(store, r, t);
      path := [id] + rest;
      forall i | 0 <= i < |path| - 1
        ensures Gone(store, path[i]) && store[path[i]].supersededBy == Some(path[i + 1])
      {
        if i > 0 { assert path[i] == rest[i - 1] && path[i + 1] == rest[i]; }
      }
    } else {
      path := [id];
    }
  }

  // ---- Steps that keep soundness ----

  // Nothing that was superseded changes its link, and every newly superseded memory points at one
  // that stands, or at one that is superseded in the same step after it.
  ghost predicate Retires(before: Store, after: Store, late: set<string>) {
    && (forall id | id in before :: id in after)
    && (forall id | Gone(before, id) :: Gone(after, id) && after[id].supersededBy == before[id].supersededBy)
    && (forall id | Gone(after, id) && !Gone(before, id) :: NewLink(before, after, late, id))
  }

  ghost predicate NewLink(before: Store, after: Store, late: set<string>, id: string)
    requires Gone(after, id)
  {
    && after[id].supersededBy.Some?
    && var t := after[id].supersededBy.value;
       && t in after
       && (Gone(after, t) ==> !Gone(before, t) && id !in late && t in late)
  }

  lemma RetiresKeepsSound(before: Store, after: Store, late: set<string>)
    requires Sound(before) && Retires(before, after, late)
    ensures Sound(after)
  {
    var r :| Ranked(before, r);
    var added := map id | id in after && Gone(after, id) && !Gone(before, id) :: r.bound + if id in late then 1 else 0;
    var r' := Ranking(r.rank + added, r.bound + 2);
    forall id | Gone(after, id) ensures Linked(after, r', id) {
      if Gone(before, id) {
        assert Linked(before, r, id);
      } else {
        assert NewLink(before, after, late, id);
      }
    }
    assert Ranked(after, r');
  }

  // ---- Writes ----

  // How a single row of a write may be retired.
  lemma SettledLink(incoming: Memory, existing: seq<Memory>, now: int, c: Memory)
    requires Matching(incoming, existing) && PlanOf(incoming, existing, now).clash
    requires c in Candidates(incoming, existing, now) && c.status != Superseded
    ensures var p := PlanOf(incoming, existing, now);
            var s := Settled(c, p.decision, now);
            s.status == Superseded ==>
              exists t | t in Candidates(incoming, existing, now) ::
                t.id != c.id && s.supersededBy == Some(t.id) && Spared(t, p.decision, now)
  {
    CandidatesDistinct(incoming, existing, now);
    SettledFate(Candidates(incoming, existing, now), c, now);
  }

  // A spared candidate stands in the store after the write.
  lemma SparedStands(store: Store, incoming: Memory, existing: seq<Memory>, now: int, t: Memory)
    requires CanWrite(store, incoming, existing) && incoming.status == Active
    requires PlanOf(incoming, existing, now).clash && t in Candidates(incoming, existing, now)
    requires Spared(t, PlanOf(incoming, existing, now).decision, now)
    ensures t.id in Written(store, incoming, existing, now)
    ensures !Gone(Written(store, incoming, existing, now), t.id)
  {
    var p := PlanOf(incoming, existing, now);
    var after := Written(store, incoming, existing, now);
    var m := CandidateOrigin(incoming, existing, now, t);
    PrimaryIs(incoming, existing, now);
    if m in existing && Norm(m.value) != p.value {
      assert after[m.id] == RowAfter(p, m);
    } else if p.merged {
      var row :| row in existing && row.id == p.primary.id && Norm(row.value) == p.value;
      assert after[row.id] == RowAfter(p, row);
    } else {
      PrimaryKeeps(incoming, existing, now);
      assert after[incoming.id] == PrimaryAfter(p);
    }
  }

  // The rows retired by the clash rather than by the merge.
  ghost function LateIds(incoming: Memory, existing: seq<Memory>, now: int): set<string> {
    set c | c in Candidates(incoming, existing, now) :: c.id
  }

  lemma WriteLink(store: Store, incoming: Memory, existing: seq<Memory>, now: int, id: string)
    requires CanWrite(store, incoming, existing) && incoming.status == Active
    requires Gone(Written(store, incoming, existing, now), id) && !Gone(store, id)
    ensures NewLink(store, Written(store, incoming, existing, now), LateIds(incoming, existing, now), id)
  {
    var p := PlanOf(incoming, existing, now);
    PrimaryIs(incoming, existing, now);
    if id == incoming.id || (Norm(store[id].value) == p.value && id == p.primary.id) {
      LateLink(store, incoming, existing, now, p.primary);
    } else if Norm(store[id].value) == p.value {
      MergeLink(store, incoming, existing, now, id);
    } else {
      LateLink(store, incoming, existing, now, store[id]);
    }
  }

  // A candidate retired by the clash points at a spared one.
  lemma LateLink(store: Store, incoming: Memory, existing: seq<Memory>, now: int, m: Memory)
    requires CanWrite(store, incoming, existing) && incoming.status == Active && m.status != Superseded
    requires var p := PlanOf(incoming, existing, now);
             && (m == p.primary || (m in existing && Norm(m.value) != p.value))
             && Gone(Written(store, incoming, existing, now), m.id)
             && Written(store, incoming, existing, now)[m.id]
                == if p.clash then Settled(Promote(m, incoming.key), p.decision, now) else m
    ensures NewLink(store, Written(store, incoming, existing, now), LateIds(incoming, existing, now), m.id)
  {
    var p := PlanOf(incoming, existing, now);
    var c := Promote(m, incoming.key);
    CandidateMember(incoming, existing, now, m);
    assert c.id == m.id && c.status == m.status;
    SettledLink(incoming, existing, now, c);
    var t :| t in Candidates(incoming, existing, now) && t.id != c.id
             && Settled(c, p.decision, now).supersededBy == Some(t.id) && Spared(t, p.decision, now);
    SparedStands(store, incoming, existing, now, t);
  }

  // A duplicate retired by the merge points at the survivor, which the clash may retire in turn.
  lemma MergeLink(store: Store, incoming: Memory, existing: seq<Memory>, now: int, id: string)
    requires CanWrite(store, incoming, existing) && id in store && store[id] in existing
    requires Norm(store[id].value) == PlanOf(incoming, existing, now).value
    requires id != PlanOf(incoming, existing, now).primary.id
    ensures Gone(Written(store, incoming, existing, now), id)
    ensures NewLink(store, Written(store, incoming, existing, now), LateIds(incoming, existing, now), id)
  {
    var p := PlanOf(incoming, existing, now);
    PrimaryIs(incoming, existing, now);
    var rep :| rep in existing && rep.id == p.primary.id && Norm(rep.value) == p.value;
    CandidateMember(incoming, existing, now, p.primary);
    assert Promote(p.primary, incoming.key).id == p.primary.id;
    NotLate(store, incoming, existing, now, id);
  }

  lemma NotLate(store: Store, incoming: Memory, existing: seq<Memory>, now: int, id: string)
    requires CanWrite(store, incoming, existing) && id in store && store[id] in existing
    requires Norm(store[id].value) == PlanOf(incoming, existing, now).value
    requires id != PlanOf(incoming, existing, now).primary.id
    ensures id !in LateIds(incoming, existing, now)
  {
    forall c | c in Candidates(incoming, existing, now) ensures c.id != id {
      var m := CandidateOrigin(incoming, existing, now, c);
      assert m == PlanOf(incoming, existing, now).primary || store[m.id] == m;
    }
  }

  lemma WriteSound(store: Store, incoming: Memory, existing: seq<Memory>, now: int)
    requires CanWrite(store, incoming, existing) && incoming.status == Active && Sound(store)
    ensures Sound(Written(store, incoming, existing, now))
  {
    var after := Written(store, incoming, existing, now);
    var late := LateIds(incoming, existing, now);
    forall id | Gone(after, id) && !Gone(store, id) ensures NewLink(store, after, late, id) {
      WriteLink(store, incoming, existing, now, id);
    }
    RetiresKeepsSound(store, after, late);
  }

  // ---- Retiring in favour of a given memory, as dedup and adjudication do ----

  // The store after the given memories have been retired in favour of one winner.
  function RetireAll(store: Store, losers: set<string>, winner: string, now: int): Store {
    map id | id in store :: if id in losers then Retired(store[id], Some(winner), now) else store[id]
  }

  ghost predicate CanRetire(store: Store, losers: set<string>, winner: string) {
    && winner in store && winner !in losers
    && forall id | id in losers :: id in store && !Gone(store, id)
  }

  // The superseded memories on the chain from a memory to its root.
  ghost function Chain(store: Store, r: Ranking, id: string): (chain: set<string>)
    requires Ranked(store, r) && id in store
    ensures forall x | x in chain :: Gone(store, x)
    decreases if Gone(store, id) && id in r.rank then r.bound - r.rank[id] else 0
  {
    if Gone(store, id) then
      assert Linked(store, r, id);
      var t := Target(store, id);
      assert Gone(store, t) ==> Linked(store, r, t);
      {id} + Chain(store, r, t)
    else {}
  }

  // Following a link stays on the chain, or leaves it for the root.
  lemma {:induction false} ChainClosed(store: Store, r: Ranking, id: string, x: string)
    requires Ranked(store, r) && id in store && x in Chain(store, r, id)
    ensures Linked(store, r, x)
    ensures Target(store, x) in Chain(store, r, id) || Target(store, x) == Root(store, r, id)
    decreases if Gone(store, id) && id in r.rank then r.bound - r.rank[id] else 0
  {
    assert Linked(store, r, id);
    var t := Target(store, id);
    assert Gone(store, t) ==> Linked(store, r, t);
    if x != id {
      ChainClosed(store, r, t, x);
    }
  }

  // Retiring is sound when the winner's root is none of the losers: the chain above the winner is
  // ranked above the losers, and the losers above everything else.
  lemma RetireSound(store: Store, r: Ranking, losers: set<string>, winner: string, now: int)
    requires Ranked(store, r) && CanRetire(store, losers, winner)
    requires Root(store, r, winner) !in losers
    ensures Sound(RetireAll(store, losers, winner, now))
  {
    var after := RetireAll(store, losers, winner, now);
    var chain := Chain(store, r, winner);
    var rank := map id | id in r.rank.Keys + losers ::
      if id in losers then r.bound else if id in chain && id in r.rank then r.bound + 1 + r.rank[id]
      else if id in r.rank then r.rank[id] else 0;
    var r' := Ranking(rank, 2 * r.bound + 2);
    forall id | Gone(after, id) ensures Linked(after, r', id) {
      if id in losers {
        if Gone(store, winner) {
          assert Linked(store, r, winner);
        }
      } else {
        assert Linked(store, r, id);
        if id in chain { ChainClosed(store, r, winner, id); }
      }
    }
    assert Ranked(after, r');
  }

  // A ranking of the store afterwards climbs along the winner's chain to its root.
  lemma {:induction false} ChainClimbs(store: Store, r: Ranking, losers: set<string>, winner: string, now: int,
                                       r': Ranking, id: string)
    requires Ranked(store, r) && CanRetire(store, losers, winner) && id in store
    requires Ranked(RetireAll(store, losers, winner, now), r') && Root(store, r, id) in losers
    ensures id == Root(store, r, id)
            || (id in r'.rank && Root(store, r, id) in r'.rank && r'.rank[id] < r'.rank[Root(store, r, id)])
    decreases if Gone(store, id) && id in r.rank then r.bound - r.rank[id] else 0
  {
    var after := RetireAll(store, losers, winner, now);
    if Gone(store, id) {
      assert Linked(store, r, id);
      var t := Target(store, id);
      assert Gone(store, t) ==> Linked(store, r, t);
      ChainClimbs(store, r, losers, winner, now, r', t);
      assert Linked(after, r', id);
      assert Gone(after, t);
    }
  }

  // So retiring keeps the links sound if and only if the memory that the winner stands for, itself
  // or the end of its chain, is not one of those it replaces.
  lemma RetireSoundIff(store: Store, r: Ranking, losers: set<string>, winner: string, now: int)
    requires Ranked(store, r) && CanRetire(store, losers, winner)
    ensures Sound(RetireAll(store, losers, winner, now)) <==> Root(store, r, winner) !in losers
  {
    var after := RetireAll(store, losers, winner, now);
    var root := Root(store, r, winner);
    if root !in losers {
      RetireSound(store, r, losers, winner, now);
    } else if Sound(after) {
      var r' :| Ranked(after, r');
      assert Linked(after, r', root);
      ChainClimbs(store, r, losers, winner, now, r', winner);
    }
  }

  // A winner that is not superseded is its own root, and is never one of the losers.
  lemma StandingWinnerSound(store: Store, losers: set<string>, winner: string, now: int)
    requires Sound(store) && CanRetire(store, losers, winner) && !Gone(store, winner)
    ensures Sound(RetireAll(store, losers, winner, now))
  {
    var r :| Ranked(store, r);
    RetireSoundIff(store, r, losers, winner, now);
  }

  // Choosing a superseded winner over its own successor closes a cycle.
  lemma SupersededWinnerCycles(store: Store, loser: string, winner: string, now: int)
    requires winner in store && loser in store && winner != loser && store[loser].status == Active
    requires Gone(store, winner) && store[winner].supersededBy == Some(loser)
    ensures var after := RetireAll(store, {loser}, winner, now);
            Walk(after, [winner, loser, winner]) && !Sound(after)
  {
    var after := RetireAll(store, {loser}, winner, now);
    var path := [winner, loser, winner];
    assert Walk(after, path);
    forall r ensures !Ranked(after, r) {
      if Ranked(after, r) {
        NoCycle(after, r, path, 0, 2);
      }
    }
  }
}
