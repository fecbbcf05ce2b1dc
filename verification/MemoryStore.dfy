/**
 The repository as a map from ids to memories, and what a write does to it: which rows it replaces, which
 one it adds, and that at most one active value per single-valued identity is left.
 */
module MemoryStore {
  import opened Prelude
  import opened Ordering
  import opened KeyOntology
  import opened Memory
  import opened ConflictPolicy
  import opened Resolver

  type Store = map<string, Memory>

  ghost predicate Keyed(store: Store) {
    forall id | id in store :: store[id].id == id
  }

  // Some order of all the active memories of the incoming identity, as the write path lists them.
  ghost predicate Listing(store: Store, incoming: Memory, existing: seq<Memory>) {
    && Matching(incoming, existing)
    && (forall m | m in existing :: m.id in store && store[m.id] == m)
    && (forall id | id in store && id != incoming.id && store[id].status == Active
                    && SameIdentity(store[id], incoming) :: store[id] in existing)
  }

  // Persisting the outcome of resolving: changed rows are replaced, a new one is added.
  function Written(store: Store, incoming: Memory, existing: seq<Memory>, now: int): Store {
    var p := PlanOf(incoming, existing, now);
    var updated := map id | id in store :: if store[id] in existing then RowAfter(p, store[id]) else store[id];
    if Added(p).Some? then updated[incoming.id := Added(p).value] else updated
  }

  ghost predicate CanWrite(store: Store, incoming: Memory, existing: seq<Memory>) {
    Keyed(store) && incoming.id !in store && Listing(store, incoming, existing)
  }

  // ---- The fate of every row ----

  lemma PromotedKeeps(m: Memory, incoming: Memory)
    requires SameIdentity(m, incoming)
    ensures var c := Promote(m, incoming.key);
            && c.id == m.id && c.value == m.value && c.status == m.status && c.supersededBy == m.supersededBy
            && SameIdentity(c, incoming)
  {
    PromoteKeeps(m, incoming);
  }

  // Settling and promoting touch neither id, value nor identity.
  ghost predicate Kept(after: Memory, m: Memory) {
    after.id == m.id && after.value == m.value && SameIdentity(after, m)
  }

  lemma SettledKept(m: Memory, incoming: Memory, d: Decision, now: int)
    requires SameIdentity(m, incoming)
    ensures Kept(Settled(Promote(m, incoming.key), d, now), m)
  {
    PromotedKeeps(m, incoming);
  }

  lemma PrimaryAfterKept(p: Plan, incoming: Memory)
    requires p.key == incoming.key && SameIdentity(p.primary, incoming)
    ensures Kept(PrimaryAfter(p), p.primary)
  {
    SettledKept(p.primary, incoming, p.decision, p.now);
  }

  lemma RowAfterKept(p: Plan, incoming: Memory, m: Memory)
    requires p.key == incoming.key && SameIdentity(m, incoming)
    requires m.id == p.primary.id && Norm(m.value) == p.value ==>
               SameIdentity(p.primary, incoming) && Norm(p.primary.value) == p.value
    ensures var r := RowAfter(p, m);
            r.id == m.id && Norm(r.value) == Norm(m.value) && SameIdentity(r, incoming)
  {
    if Norm(m.value) == p.value && m.id == p.primary.id {
      PrimaryAfterKept(p, incoming);
    } else if p.clash {
      SettledKept(m, incoming, p.decision, p.now);
    }
  }

  // The surviving memory of a write, or the incoming one, still has the incoming identity.
  lemma PrimaryKeeps(incoming: Memory, existing: seq<Memory>, now: int)
    requires Matching(incoming, existing)
    ensures var p := PlanOf(incoming, existing, now);
            && PrimaryAfter(p).id == p.primary.id
            && Norm(PrimaryAfter(p).value) == p.value
            && (incoming.key.Some? ==> SameIdentity(PrimaryAfter(p), incoming))
  {
    PrimaryIs(incoming, existing, now);
    var p := PlanOf(incoming, existing, now);
    if incoming.key.Some? {
      PrimaryAfterKept(p, incoming);
    }
  }

  lemma RowKeeps(incoming: Memory, existing: seq<Memory>, now: int, m: Memory)
    requires Matching(incoming, existing) && m in existing
    ensures var r := RowAfter(PlanOf(incoming, existing, now), m);
            r.id == m.id && Norm(r.value) == Norm(m.value) && SameIdentity(r, incoming)
  {
    PrimaryIs(incoming, existing, now);
    RowAfterKept(PlanOf(incoming, existing, now), incoming, m);
  }

  // After a clash, whatever is still active beats all the other candidates.
  lemma ClashSurvivor(incoming: Memory, existing: seq<Memory>, now: int, c: Memory)
    requires Matching(incoming, existing) && PlanOf(incoming, existing, now).clash
    requires c in Candidates(incoming, existing, now)
    requires Settled(c, PlanOf(incoming, existing, now).decision, now).status == Active
    ensures Beats(Candidates(incoming, existing, now), c)
  {
    CandidatesDistinct(incoming, existing, now);
    SettledFate(Candidates(incoming, existing, now), c, now);
  }

  // The candidate behind an active row of a clash.
  lemma ActiveRowBeats(incoming: Memory, existing: seq<Memory>, now: int, m: Memory) returns (c: Memory)
    requires Matching(incoming, existing) && PlanOf(incoming, existing, now).clash
    requires m in existing && RowAfter(PlanOf(incoming, existing, now), m).status == Active
    ensures c in Candidates(incoming, existing, now) && Beats(Candidates(incoming, existing, now), c) && c.id == m.id
  {
    var p := PlanOf(incoming, existing, now);
    c := Promote(if Norm(m.value) == p.value then p.primary else m, incoming.key);
    CandidateMember(incoming, existing, now, if Norm(m.value) == p.value then p.primary else m);
    ClashSurvivor(incoming, existing, now, c);
  }

  lemma ActivePrimaryBeats(incoming: Memory, existing: seq<Memory>, now: int) returns (c: Memory)
    requires Matching(incoming, existing) && PlanOf(incoming, existing, now).clash
    requires PrimaryAfter(PlanOf(incoming, existing, now)).status == Active
    ensures c in Candidates(incoming, existing, now) && Beats(Candidates(incoming, existing, now), c)
    ensures c.id == PlanOf(incoming, existing, now).primary.id
  {
    var p := PlanOf(incoming, existing, now);
    c := Promote(p.primary, incoming.key);
    CandidateMember(incoming, existing, now, p.primary);
    ClashSurvivor(incoming, existing, now, c);
  }

  // ---- At most one active value ----

  ghost predicate ActiveLike(m: Memory, incoming: Memory) {
    m.status == Active && SameIdentity(m, incoming)
  }

  // Two active rows left by a write of their identity.
  lemma TwoActiveRows(incoming: Memory, existing: seq<Memory>, now: int, x: Memory, y: Memory)
    requires Matching(incoming, existing) && x in existing && y in existing && x.id != y.id
    requires var p := PlanOf(incoming, existing, now);
             RowAfter(p, x).status == Active && RowAfter(p, y).status == Active
    ensures !SingleValued(incoming)
    ensures Norm(x.value) != Norm(incoming.value) || Norm(y.value) != Norm(incoming.value)
  {
    var p := PlanOf(incoming, existing, now);
    if p.clash {
      NoTwoSurvivors(incoming, existing, now, x, y);
    } else {
      WithValueMember(existing, p.value, false, x);
      WithValueMember(existing, p.value, false, y);
    }
  }

  lemma NoTwoSurvivors(incoming: Memory, existing: seq<Memory>, now: int, x: Memory, y: Memory)
    requires Matching(incoming, existing) && x in existing && y in existing && x.id != y.id
    requires PlanOf(incoming, existing, now).clash
    requires RowAfter(PlanOf(incoming, existing, now), x).status == Active
    ensures RowAfter(PlanOf(incoming, existing, now), y).status != Active
  {
    if RowAfter(PlanOf(incoming, existing, now), y).status == Active {
      var a := ActiveRowBeats(incoming, existing, now, x);
      var b := ActiveRowBeats(incoming, existing, now, y);
      OneBeats(Candidates(incoming, existing, now), a, b);
    }
  }

  // An active row beside the active added one.
  lemma RowAndAdded(incoming: Memory, existing: seq<Memory>, now: int, x: Memory)
    requires Matching(incoming, existing) && x in existing
    requires var p := PlanOf(incoming, existing, now);
             Added(p).Some? && Added(p).value.status == Active && RowAfter(p, x).status == Active
    ensures !SingleValued(incoming) && Norm(x.value) != Norm(incoming.value)
  {
    var p := PlanOf(incoming, existing, now);
    PrimaryIs(incoming, existing, now);
    WithValueMember(existing, p.value, false, x);
    if p.clash {
      var a := ActiveRowBeats(incoming, existing, now, x);
      var b := ActivePrimaryBeats(incoming, existing, now);
      OneBeats(Candidates(incoming, existing, now), a, b);
    }
  }

  // Where an active row of the incoming identity comes from.
  lemma ActiveOrigin(store: Store, incoming: Memory, existing: seq<Memory>, now: int, id: string)
    requires CanWrite(store, incoming, existing) && id in Written(store, incoming, existing, now)
    requires ActiveLike(Written(store, incoming, existing, now)[id], incoming)
    ensures var p := PlanOf(incoming, existing, now);
            if id == incoming.id then Added(p).Some? && Written(store, incoming, existing, now)[id] == Added(p).value
            else id in store && store[id] in existing
                 && Written(store, incoming, existing, now)[id] == RowAfter(p, store[id])
  {
  }

  // A write leaves at most one active value of a single-valued identity, and at most one active
  // memory with the incoming value; no matter what the store was like before.
  lemma WriteRestores(store: Store, incoming: Memory, existing: seq<Memory>, now: int, x: string, y: string)
    requires CanWrite(store, incoming, existing) && x != y
    requires var after := Written(store, incoming, existing, now);
             && x in after && y in after && ActiveLike(after[x], incoming) && ActiveLike(after[y], incoming)
    ensures var after := Written(store, incoming, existing, now);
            && !SingleValued(incoming)
            && (Norm(after[x].value) != Norm(incoming.value) || Norm(after[y].value) != Norm(incoming.value))
  {
    ActiveOrigin(store, incoming, existing, now, x);
    ActiveOrigin(store, incoming, existing, now, y);
    if x == incoming.id {
      RowKeeps(incoming, existing, now, store[y]);
      RowAndAdded(incoming, existing, now, store[y]);
    } else if y == incoming.id {
      RowKeeps(incoming, existing, now, store[x]);
      RowAndAdded(incoming, existing, now, store[x]);
    } else {
      RowKeeps(incoming, existing, now, store[x]);
      RowKeeps(incoming, existing, now, store[y]);
      TwoActiveRows(incoming, existing, now, store[x], store[y]);
    }
  }

  // Active memories of one identity: one of them if it is single-valued, else different values.
  ghost predicate Apart(a: Memory, b: Memory) {
    a.status == Active && b.status == Active && SameIdentity(a, b)
    ==> !SingleValued(a) && Norm(a.value) != Norm(b.value)
  }

  ghost predicate OnePerIdentity(store: Store) {
    forall x, y | x in store && y in store && x != y :: Apart(store[x], store[y])
  }

  lemma WriteKeeps(store: Store, incoming: Memory, existing: seq<Memory>, now: int)
    requires CanWrite(store, incoming, existing) && OnePerIdentity(store)
    ensures Keyed(Written(store, incoming, existing, now))
    ensures OnePerIdentity(Written(store, incoming, existing, now))
  {
    var after := Written(store, incoming, existing, now);
    WriteKeyed(store, incoming, existing, now);
    forall x, y | x in after && y in after && x != y ensures Apart(after[x], after[y]) {
      WriteApart(store, incoming, existing, now, x, y);
    }
  }

  lemma AddedId(incoming: Memory, existing: seq<Memory>, now: int)
    requires Matching(incoming, existing)
    ensures var p := PlanOf(incoming, existing, now); Added(p).Some? ==> Added(p).value.id == incoming.id
  {
    PrimaryKeeps(incoming, existing, now);
    PrimaryIs(incoming, existing, now);
  }

  lemma WriteKeyed(store: Store, incoming: Memory, existing: seq<Memory>, now: int)
    requires CanWrite(store, incoming, existing)
    ensures Keyed(Written(store, incoming, existing, now))
  {
    AddedId(incoming, existing, now);
    forall id | id in store && store[id] in existing
      ensures RowAfter(PlanOf(incoming, existing, now), store[id]).id == id
    {
      RowKeeps(incoming, existing, now, store[id]);
    }
  }

  // A row of another identity is as it was.
  lemma OtherIdentity(store: Store, incoming: Memory, existing: seq<Memory>, now: int, id: string)
    requires CanWrite(store, incoming, existing) && id in Written(store, incoming, existing, now)
    requires Written(store, incoming, existing, now)[id].key.Some?
    requires !SameIdentity(Written(store, incoming, existing, now)[id], incoming)
    ensures id in store && Written(store, incoming, existing, now)[id] == store[id]
  {
    if id == incoming.id {
      PrimaryKeeps(incoming, existing, now);
      PrimaryIs(incoming, existing, now);
    } else if store[id] in existing {
      RowKeeps(incoming, existing, now, store[id]);
    }
  }

  lemma WriteApart(store: Store, incoming: Memory, existing: seq<Memory>, now: int, x: string, y: string)
    requires CanWrite(store, incoming, existing) && OnePerIdentity(store) && x != y
    requires x in Written(store, incoming, existing, now) && y in Written(store, incoming, existing, now)
    ensures Apart(Written(store, incoming, existing, now)[x], Written(store, incoming, existing, now)[y])
  {
    var after := Written(store, incoming, existing, now);
    var a, b := after[x], after[y];
    if a.status == Active && b.status == Active && SameIdentity(a, b) {
      if SameIdentity(a, incoming) {
        SameIdentitySingle(a, incoming);
        WriteRestores(store, incoming, existing, now, x, y);
        OldValuesApart(store, incoming, existing, now, x, y);
      } else {
        OtherIdentity(store, incoming, existing, now, x);
        OtherIdentity(store, incoming, existing, now, y);
        assert Apart(store[x], store[y]);
      }
    }
  }

  lemma OldValuesApart(store: Store, incoming: Memory, existing: seq<Memory>, now: int, x: string, y: string)
    requires CanWrite(store, incoming, existing) && OnePerIdentity(store) && x != y
    requires var after := Written(store, incoming, existing, now);
             && x in after && y in after && ActiveLike(after[x], incoming) && ActiveLike(after[y], incoming)
    ensures Norm(Written(store, incoming, existing, now)[x].value)
            != Norm(Written(store, incoming, existing, now)[y].value)
  {
    WriteRestores(store, incoming, existing, now, x, y);
    ActiveOrigin(store, incoming, existing, now, x);
    ActiveOrigin(store, incoming, existing, now, y);
    PrimaryKeeps(incoming, existing, now);
    if x != incoming.id && y != incoming.id {
      RowKeeps(incoming, existing, now, store[x]);
      RowKeeps(incoming, existing, now, store[y]);
      assert Apart(store[x], store[y]);
    }
  }
}
