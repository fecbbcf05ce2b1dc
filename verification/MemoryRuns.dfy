/** Whole runs over the repository: writes, lifecycle steps, dedup and sweeps. */
module MemoryRuns {
  import opened Prelude
  import opened KeyOntology
  import opened Memory
  import opened ConflictPolicy
  import opened Resolver
  import opened MemoryStore
  import opened Lineage
  import opened Sweeps
  import opened Dedup
  import L = Lifecycle

  datatype Step =
    | Write(incoming: Memory, existing: seq<Memory>, now: int)
    | Move(id: string, request: L.Request)
    | Retire(losers: set<string>, winner: string, at: int)       // an adjudication
    | DedupRun(ws: string, at: int, outcome: Store)
    | SweepRun(ws: string, sweep: Sweep, now: int, at: int)

  ghost predicate Fits(store: Store, s: Step) {
    match s
    case Write(incoming, existing, _) => CanWrite(store, incoming, existing)
    case Move(id, _) => id in store
    case Retire(losers, winner, _) => CanRetire(store, losers, winner)
    case DedupRun(ws, at, outcome) => DedupedStore(store, ws, outcome, at)
    case SweepRun(_, _, _, _) => true
  }

  ghost function After(store: Store, s: Step): Store
    requires Fits(store, s)
  {
    match s
    case Write(incoming, existing, now) => Written(store, incoming, existing, now)
    case Move(id, request) => store[id := L.Apply(store[id], request)]
    case Retire(losers, winner, at) => RetireAll(store, losers, winner, at)
    case DedupRun(_, _, outcome) => outcome
    case SweepRun(ws, sweep, now, at) => Swept(store, ws, sweep, now, at)
  }

  // The states of a run, the first one included.
  ghost predicate Run(states: seq<Store>, steps: seq<Step>) {
    && |states| == |steps| + 1
    && forall i | 0 <= i < |steps| :: Fits(states[i], steps[i]) && states[i + 1] == After(states[i], steps[i])
  }

  // ---- At most one active value ----

  predicate Unpins(store: Store, s: Step) {
    s.Move? && s.id in store && store[s.id].status == Pinned && s.request.status == Active
  }

  // Nothing becomes active, and what stays active keeps its identity and value.
  ghost predicate NoneActivated(before: Store, after: Store) {
    forall id | id in after && after[id].status == Active ::
      && id in before && before[id].status == Active && before[id].key == after[id].key
      && before[id].workspace == after[id].workspace && before[id].scope == after[id].scope
      && before[id].value == after[id].value
  }

  lemma NoneActivatedKeeps(before: Store, after: Store)
    requires OnePerIdentity(before) && NoneActivated(before, after)
    ensures OnePerIdentity(after)
  {
    forall x, y | x in after && y in after && x != y ensures Apart(after[x], after[y]) {
      if after[x].status == Active && after[y].status == Active {
        assert Apart(before[x], before[y]);
      }
    }
  }

  // Only unpinning makes a memory active.
  lemma MoveActivates(m: Memory, r: L.Request)
    requires L.Apply(m, r).status == Active && !(m.status == Pinned && r.status == Active)
    ensures L.Apply(m, r) == m
  {
  }

  lemma ApplyKeepsIdentity(m: Memory, r: L.Request)
    ensures var n := L.Apply(m, r);
            n.id == m.id && n.key == m.key && n.value == m.value && n.workspace == m.workspace && n.scope == m.scope
            && n.supersededBy == m.supersededBy
  {
  }

  // Retention sweeps and dedup activate nothing either.
  lemma SweepKeepsOne(rows: Store, ws: string, s: Sweep, now: int, at: int)
    requires OnePerIdentity(rows)
    ensures OnePerIdentity(Swept(rows, ws, s, now, at))
  {
    NoneActivatedKeeps(rows, Swept(rows, ws, s, now, at));
  }

  // What dedup does to one row.
  lemma DedupedRow(rows: Store, ws: string, after: Store, at: int, id: string)
    requires DedupedStore(rows, ws, after, at) && id in rows
    ensures after[id].id == rows[id].id
    ensures after[id] == rows[id] || after[id].status == Superseded
  {
    assert Deduped(rows, ws, id, after[id], at);
  }

  lemma DedupKeepsOne(rows: Store, ws: string, after: Store, at: int)
    requires Keyed(rows) && OnePerIdentity(rows) && DedupedStore(rows, ws, after, at)
    ensures Keyed(after) && OnePerIdentity(after)
  {
    forall id | id in rows
      ensures after[id].id == id && (after[id] == rows[id] || after[id].status == Superseded)
    {
      DedupedRow(rows, ws, after, at, id);
    }
    NoneActivatedKeeps(rows, after);
  }

  lemma StepKeepsOne(store: Store, s: Step)
    requires Keyed(store) && OnePerIdentity(store) && Fits(store, s) && !Unpins(store, s)
    ensures Keyed(After(store, s)) && OnePerIdentity(After(store, s))
  {
    match s
    case Write(incoming, existing, now) => WriteKeeps(store, incoming, existing, now);
    case Move(id, request) =>
      ApplyKeepsIdentity(store[id], request);
      if L.Apply(store[id], request).status == Active { MoveActivates(store[id], request); }
      NoneActivatedKeeps(store, After(store, s));
    case Retire(losers, winner, at) =>
      NoneActivatedKeeps(store, After(store, s));
    case DedupRun(ws, at, outcome) => DedupKeepsOne(store, ws, outcome, at);
    case SweepRun(ws, sweep, now, at) => SweepKeepsOne(store, ws, sweep, now, at);
  }

  // Over any run without an unpin, every state has at most one active memory per single-valued
  // identity, and different active values per multi-valued one.
  lemma {:induction false} RunKeepsOne(states: seq<Store>, steps: seq<Step>, i: nat)
    requires Run(states, steps) && i < |states|
    requires Keyed(states[0]) && OnePerIdentity(states[0])
    requires forall j | 0 <= j < |steps| :: !Unpins(states[j], steps[j])
    ensures Keyed(states[i]) && OnePerIdentity(states[i])
  {
    if i > 0 {
      RunKeepsOne(states, steps, i - 1);
      StepKeepsOne(states[i - 1], steps[i - 1]);
    }
  }

  // Unpinning keeps the invariant exactly when the memory does not come back as an active one that
  // clashes with an active one of its identity: another one on a single-valued key, or one with the
  // same value.
  ghost predicate Clashes(m: Memory, store: Store) {
    exists x | x in store && x != m.id ::
      store[x].status == Active && SameIdentity(m, store[x])
      && (SingleValued(m) || Norm(m.value) == Norm(store[x].value))
  }

  lemma UnpinKeepsIff(store: Store, id: string, r: L.Request)
    requires Keyed(store) && OnePerIdentity(store) && Unpins(store, Move(id, r))
    ensures OnePerIdentity(After(store, Move(id, r)))
            <==> L.Restorable(store[id]) != Active || !Clashes(store[id], store)
  {
    var m := store[id];
    var n := L.Apply(m, r);
    ApplyKeepsIdentity(m, r);
    var after := store[id := n];
    if n.status == Active && Clashes(m, store) {
      var x :| x in store && x != m.id && store[x].status == Active && SameIdentity(m, store[x])
               && (SingleValued(m) || Norm(m.value) == Norm(store[x].value));
      assert !Apart(after[id], after[x]);
    } else {
      forall x, y | x in after && y in after && x != y ensures Apart(after[x], after[y]) {
        if x != id && y != id {
          assert Apart(store[x], store[y]);
        } else if n.status == Active {
          NoClash(store, m, n, if x == id then y else x);
        }
      }
    }
  }

  lemma NoClash(store: Store, m: Memory, n: Memory, x: string)
    requires !Clashes(m, store) && x in store && x != m.id
    requires n.key == m.key && n.value == m.value && n.workspace == m.workspace && n.scope == m.scope
    ensures Apart(n, store[x]) && Apart(store[x], n)
  {
    if store[x].status == Active && SameIdentity(m, store[x]) {
      SameIdentitySingle(m, store[x]);
    }
  }

  // A write brings the incoming identity back in order: MemoryStore.WriteRestores needs no invariant.
  // Every status it changes, it changes as the lifecycle allows.
  lemma WriteMovesAllowed(store: Store, incoming: Memory, existing: seq<Memory>, now: int, id: string, actor: L.Actor)
    requires CanWrite(store, incoming, existing) && id in Written(store, incoming, existing, now)
    requires id == incoming.id ==> incoming.status == Active
    ensures var before := if id == incoming.id then incoming else store[id];
            AllowedMove(before, Written(store, incoming, existing, now)[id].status, actor, now)
  {
    var p := PlanOf(incoming, existing, now);
    MergedActive(incoming, existing, now);
    if id == incoming.id {
      SettledMove(p.primary, Promote(p.primary, p.key), p, actor);
    } else if store[id] in existing {
      RowMove(p, store[id], actor);
    }
  }

  lemma MergedActive(incoming: Memory, existing: seq<Memory>, now: int)
    requires Matching(incoming, existing)
    ensures var p := PlanOf(incoming, existing, now);
            && p.now == now
            && (p.merged ==> p.primary.status == Active)
            && (!p.merged ==> p.primary == incoming)
            && forall m | m in existing && Norm(m.value) == p.value :: p.primary.status == Active
  {
    PrimaryIs(incoming, existing, now);
  }

  ghost predicate AllowedMove(m: Memory, next: Status, actor: L.Actor, now: int) {
    m.status != next ==>
      && L.Transition(m, next, actor, now).Ok?
      && L.Transition(m, next, actor, now).value.0.status == next
      && L.Transition(m, next, actor, now).value.1.before == m.status
  }

  lemma SideMove(m: Memory, next: Status, actor: L.Actor, now: int)
    requires m.status == Active && next in {Active, Superseded, Conflicted}
    ensures AllowedMove(m, next, actor, now)
  {
  }

  lemma SettledMove(m: Memory, c: Memory, p: Plan, actor: L.Actor)
    requires m.status == Active && c.status == Active
    ensures AllowedMove(m, Settled(c, p.decision, p.now).status, actor, p.now)
    ensures AllowedMove(m, Active, actor, p.now)
  {
    SideMove(m, Settled(c, p.decision, p.now).status, actor, p.now);
  }

  lemma RowMove(p: Plan, m: Memory, actor: L.Actor)
    requires m.status == Active && (Norm(m.value) == p.value ==> p.primary.status == Active)
    ensures AllowedMove(m, RowAfter(p, m).status, actor, p.now)
  {
    if Norm(m.value) == p.value {
      SettledMove(m, Promote(p.primary, p.key), p, actor);
    } else {
      SettledMove(m, Promote(m, p.key), p, actor);
    }
    SideMove(m, Superseded, actor, p.now);
  }

  // ---- Lineage ----

  // Adjudicating towards a superseded memory, and marking a memory superseded by hand, without a
  // successor, are the steps that can break lineage.
  ghost predicate Careful(store: Store, s: Step)
    requires Fits(store, s)
  {
    match s
    case Write(incoming, _, _) => incoming.status == Active
    case Move(_, request) => request.status != Superseded
    case Retire(_, winner, _) => !Gone(store, winner)
    case DedupRun(_, _, _) => true
    case SweepRun(_, _, _, _) => true
  }

  lemma MoveGone(m: Memory, r: L.Request)
    requires r.status != Superseded
    ensures L.Apply(m, r).status == Superseded <==> m.status == Superseded
  {
  }

  // No sweep touches superseded memories or makes one.
  lemma SweepSound(store: Store, ws: string, sweep: Sweep, now: int, at: int)
    requires Sound(store)
    ensures Sound(Swept(store, ws, sweep, now, at))
  {
    RetiresKeepsSound(store, Swept(store, ws, sweep, now, at), {});
  }

  lemma StepKeepsKeyed(store: Store, s: Step)
    requires Keyed(store) && Fits(store, s)
    ensures Keyed(After(store, s))
  {
    match s
    case Write(incoming, existing, now) => WriteKeyed(store, incoming, existing, now);
    case Move(id, request) => ApplyKeepsIdentity(store[id], request);
    case Retire(_, _, _) =>
    case DedupRun(ws, at, outcome) =>
      forall id | id in store ensures outcome[id].id == id {
        DedupedRow(store, ws, outcome, at, id);
      }
    case SweepRun(_, _, _, _) =>
  }

  lemma StepKeepsSound(store: Store, s: Step)
    requires Keyed(store) && Sound(store) && Fits(store, s) && Careful(store, s)
    ensures Sound(After(store, s))
  {
    match s
    case Write(incoming, existing, now) => WriteSound(store, incoming, existing, now);
    case Move(id, request) =>
      MoveGone(store[id], request);
      ApplyKeepsIdentity(store[id], request);
      RetiresKeepsSound(store, After(store, s), {});
    case Retire(losers, winner, at) => StandingWinnerSound(store, losers, winner, at);
    case DedupRun(ws, at, outcome) => DedupSound(store, ws, outcome, at);
    case SweepRun(ws, sweep, now, at) => SweepSound(store, ws, sweep, now, at);
  }

  // Over any run of careful steps the superseded-by links stay free of cycles, and every chain ends
  // at a memory that is not superseded (Lineage.NoCycle and Lineage.WalkToRoot).
  lemma {:induction false} RunKeepsSound(states: seq<Store>, steps: seq<Step>, i: nat)
    requires Run(states, steps) && i < |states| && Keyed(states[0]) && Sound(states[0])
    requires forall j | 0 <= j < |steps| :: Careful(states[j], steps[j])
    ensures Keyed(states[i]) && Sound(states[i])
  {
    if i > 0 {
      RunKeepsSound(states, steps, i - 1);
      StepKeepsKeyed(states[i - 1], steps[i - 1]);
      StepKeepsSound(states[i - 1], steps[i - 1]);
    }
  }
}
