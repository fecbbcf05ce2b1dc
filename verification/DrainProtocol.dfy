/** The buffer as a step system: one store, any number of drains, atomic steps. */
module DrainProtocol {
  import opened Tables
  import opened Totals
  import opened Events
  import opened RedisBuffer

  // Each Lua script and each single command is one atomic step. A drain call is named by the random
  // token of its draining key.

  // Popping: inside the pop loop. Closing: LPOP found nothing, DEL comes next.
  // Failing: a pop, a validation or the DEL raised, the restore script comes next.
  datatype Phase = Popping | Closing | Failing

  datatype Drain = Drain(slot: Slot, phase: Phase)

  datatype System = System(
    store: Store,
    drains: map<string, Drain>,
    popped: map<string, seq<Event>>,
    returned: map<string, seq<Event>>,  // what each finished drain call gave its caller
    lost: seq<Event>,                   // popped events of drains whose restore script failed
    appended: seq<Event>,
    used: set<string>)                  // tokens drawn so far; a random token is never drawn twice

  datatype Step =
    | Append(e: Event)
    | Detach(slot: Slot, token: string)
    | Pop(token: string)
    | Delete(token: string)
    | Fail(token: string)
    | Restore(token: string)
    | RestoreFails(token: string)

  const START := System(Store(map[], map[]), map[], map[], map[], [], [], {})

  predicate InPhase(s: System, token: string, phase: Phase) {
    token in s.drains && s.drains[token].phase == phase
  }

  predicate Enabled(s: System, step: Step) {
    match step
    case Append(_) => true
    case Detach(_, token) => token !in s.used
    case Pop(token) => InPhase(s, token, Popping)
    case Delete(token) => InPhase(s, token, Closing)
    case Fail(token) => InPhase(s, token, Popping) || InPhase(s, token, Closing)
    case Restore(token) => InPhase(s, token, Failing)
    case RestoreFails(token) => InPhase(s, token, Failing)
  }

  function DrainKey(s: System, token: string): Key
    requires token in s.drains
  {
    Draining(s.drains[token].slot, token)
  }

  // Everything taken from the queue by an unfinished drain, in queue order.
  function Outstanding(s: System, token: string): seq<Event>
    requires token in s.drains
  {
    At(s.popped, token) + At(s.store.lists, DrainKey(s, token))
  }

  function Next(s: System, step: Step): System
    requires Enabled(s, step)
  {
    match step
    case Append(e) => s.(store := Appended(s.store, e), appended := s.appended + [e])
    case Detach(slot, token) =>
      var s1 := s.(store := Detached(s.store, slot, token), used := s.used + {token});
      if At(s.store.lists, Data(slot)) == [] then s1.(returned := s.returned[token := []])
      else s1.(drains := s.drains[token := Drain(slot, Popping)])
    case Pop(token) =>
      var k := DrainKey(s, token);
      var queue := At(s.store.lists, k);
      if queue == [] then s.(drains := s.drains[token := s.drains[token].(phase := Closing)])
      else s.(store := s.store.(lists := Put(s.store.lists, k, queue[1..])),
              popped := Put(s.popped, token, At(s.popped, token) + [queue[0]]))
    case Delete(token) =>
      s.(store := s.store.(lists := Put(s.store.lists, DrainKey(s, token), [])),
         returned := s.returned[token := At(s.popped, token)],
         popped := Put(s.popped, token, []),
         drains := s.drains - {token})
    case Fail(token) => s.(drains := s.drains[token := s.drains[token].(phase := Failing)])
    case Restore(token) =>
      s.(store := Restored(s.store, s.drains[token].slot, token, At(s.popped, token)),
         popped := Put(s.popped, token, []),
         drains := s.drains - {token})
    case RestoreFails(token) =>
      s.(lost := s.lost + At(s.popped, token),
         popped := Put(s.popped, token, []),
         drains := s.drains - {token})
  }

  predicate Runs(s: System, steps: seq<Step>)
    decreases |steps|
  {
    steps == [] || (Enabled(s, steps[0]) && Runs(Next(s, steps[0]), steps[1..]))
  }

  function Run(s: System, steps: seq<Step>): System
    requires Runs(s, steps)
    decreases |steps|
  {
    if steps == [] then s else Run(Next(s, steps[0]), steps[1..])
  }

  // ---- Conservation ----

  // However often an event was appended, so often it is now in some list of the store, in some
  // drain's popped values, in some result, or lost.
  ghost predicate ConservedFor(s: System, e: Event) {
    Count(s.appended, e)
    == Total(s.store.lists, e) + Total(s.popped, e) + Total(s.returned, e) + Count(s.lost, e)
  }

  ghost predicate Conserved(s: System) {
    forall e :: ConservedFor(s, e)
  }

  ghost predicate TokensUsed(s: System) {
    && (forall t | t in s.drains :: t in s.used)
    && (forall t | t in s.returned :: t in s.used && t !in s.drains)
    && (forall t | t in s.popped :: t in s.drains)
    && (forall slot, t | Draining(slot, t) in s.store.lists :: t in s.used)
  }

  // An unfinished drain holds at least one event; once it is closing, nothing is left behind.
  ghost predicate DrainsHold(s: System) {
    && (forall t | t in s.drains :: Outstanding(s, t) != [])
    && (forall t | InPhase(s, t, Closing) :: DrainKey(s, t) !in s.store.lists)
  }

  // ---- Exact indexes ----

  ghost predicate Live(st: Store, ws: string, session: string) {
    Data(Slot(ws, session)) in st.lists
  }

  ghost predicate Exact(st: Store) {
    && (forall ws, s :: Live(st, ws, s) <==> ws in SetAt(st.sets, SessionIndex(s)))
    && (forall ws, s :: Live(st, ws, s) <==> s in SetAt(st.sets, WorkspaceIndex(ws)))
    && (forall s :: s in SetAt(st.sets, AllSessions) <==> SetAt(st.sets, SessionIndex(s)) != {})
  }

  ghost predicate Inv(s: System) {
    Canonical(s.store) && TokensUsed(s) && DrainsHold(s) && Exact(s.store) && Conserved(s)
  }

  lemma StartInv()
    ensures Inv(START)
  {
  }

  // The three additions, member by member.
  lemma IndexedMembers(sets: Sets, slot: Slot)
    ensures var after := IndexedSets(sets, slot);
            && (forall ws, s :: ws in SetAt(after, SessionIndex(s))
                                <==> ws in SetAt(sets, SessionIndex(s)) || Slot(ws, s) == slot)
            && (forall ws, s :: s in SetAt(after, WorkspaceIndex(ws))
                                <==> s in SetAt(sets, WorkspaceIndex(ws)) || Slot(ws, s) == slot)
            && SetAt(after, AllSessions) == SetAt(sets, AllSessions) + {slot.session}
  {
  }

  lemma UnindexedMembers(sets: Sets, slot: Slot)
    ensures var after := UnindexedSets(sets, slot);
            && (forall ws, s :: ws in SetAt(after, SessionIndex(s))
                                <==> ws in SetAt(sets, SessionIndex(s)) && Slot(ws, s) != slot)
            && (forall ws, s :: s in SetAt(after, WorkspaceIndex(ws))
                                <==> s in SetAt(sets, WorkspaceIndex(ws)) && Slot(ws, s) != slot)
            && SetAt(after, AllSessions)
               == if SetAt(after, SessionIndex(slot.session)) == {} then SetAt(sets, AllSessions) - {slot.session}
                  else SetAt(sets, AllSessions)
  {
    var s1 := PutSet(sets, SessionIndex(slot.session), SetAt(sets, SessionIndex(slot.session)) - {slot.workspace});
    var s2 := PutSet(s1, WorkspaceIndex(slot.workspace), SetAt(s1, WorkspaceIndex(slot.workspace)) - {slot.session});
    forall s
      ensures SetAt(UnindexedSets(sets, slot), SessionIndex(s)) == SetAt(s1, SessionIndex(s))
    {
      assert SetAt(s2, SessionIndex(s)) == SetAt(s1, SessionIndex(s));
    }
    forall ws
      ensures SetAt(UnindexedSets(sets, slot), WorkspaceIndex(ws)) == SetAt(s2, WorkspaceIndex(ws))
    {
    }
  }

  // The indexes stay exact when a queue gains events and its members are added, and when a queue
  // is emptied and its members are removed.
  lemma IndexedExact(st: Store, lists: Lists, slot: Slot)
    requires Exact(st) && Data(slot) in lists
    requires forall ws, s | Slot(ws, s) != slot :: Data(Slot(ws, s)) in lists <==> Live(st, ws, s)
    ensures Exact(Store(lists, IndexedSets(st.sets, slot)))
  {
    IndexedMembers(st.sets, slot);
    var after := Store(lists, IndexedSets(st.sets, slot));
    forall s
      ensures s in SetAt(after.sets, AllSessions) <==> SetAt(after.sets, SessionIndex(s)) != {}
    {
      if s == slot.session {
        assert slot.workspace in SetAt(after.sets, SessionIndex(s));
      } else {
        assert SetAt(after.sets, SessionIndex(s)) == SetAt(st.sets, SessionIndex(s));
      }
    }
    MembersExact(after, st, slot);
  }

  lemma UnindexedExact(st: Store, lists: Lists, slot: Slot)
    requires Exact(st) && Data(slot) !in lists
    requires forall ws, s | Slot(ws, s) != slot :: Data(Slot(ws, s)) in lists <==> Live(st, ws, s)
    ensures Exact(Store(lists, UnindexedSets(st.sets, slot)))
  {
    UnindexedMembers(st.sets, slot);
    var after := Store(lists, UnindexedSets(st.sets, slot));
    forall s
      ensures s in SetAt(after.sets, AllSessions) <==> SetAt(after.sets, SessionIndex(s)) != {}
    {
      if s != slot.session {
        assert SetAt(after.sets, SessionIndex(s)) == SetAt(st.sets, SessionIndex(s));
      } else if SetAt(after.sets, SessionIndex(s)) != {} {
        var ws :| ws in SetAt(after.sets, SessionIndex(s));
        assert ws in SetAt(st.sets, SessionIndex(s));
      }
    }
    MembersExact(after, st, slot);
  }

  // Both member indexes are exact when only the given slot's entries changed, and those agree.
  lemma MembersExact(after: Store, st: Store, slot: Slot)
    requires Exact(st)
    requires forall ws, s | Slot(ws, s) != slot :: Live(after, ws, s) <==> Live(st, ws, s)
    requires forall ws, s | Slot(ws, s) != slot ::
               ws in SetAt(after.sets, SessionIndex(s)) <==> ws in SetAt(st.sets, SessionIndex(s))
    requires forall ws, s | Slot(ws, s) != slot ::
               s in SetAt(after.sets, WorkspaceIndex(ws)) <==> s in SetAt(st.sets, WorkspaceIndex(ws))
    requires Live(after, slot.workspace, slot.session)
             <==> slot.workspace in SetAt(after.sets, SessionIndex(slot.session))
    requires Live(after, slot.workspace, slot.session)
             <==> slot.session in SetAt(after.sets, WorkspaceIndex(slot.workspace))
    ensures forall ws, s :: Live(after, ws, s) <==> ws in SetAt(after.sets, SessionIndex(s))
    ensures forall ws, s :: Live(after, ws, s) <==> s in SetAt(after.sets, WorkspaceIndex(ws))
  {
    forall ws, s
      ensures Live(after, ws, s) <==> ws in SetAt(after.sets, SessionIndex(s))
      ensures Live(after, ws, s) <==> s in SetAt(after.sets, WorkspaceIndex(ws))
    {
      if Slot(ws, s) != slot {
        assert Live(st, ws, s) <==> ws in SetAt(st.sets, SessionIndex(s));
        assert Live(st, ws, s) <==> s in SetAt(st.sets, WorkspaceIndex(ws));
      }
    }
  }

  // ---- What every step keeps ----

  lemma NextCanonical(s: System, step: Step)
    requires Canonical(s.store) && Enabled(s, step)
    ensures Canonical(Next(s, step).store)
  {
    NextCanonicalLists(s, step);
    NextCanonicalSets(s, step);
  }

  lemma NextCanonicalLists(s: System, step: Step)
    requires NoEmptyList(s.store.lists) && Enabled(s, step)
    ensures NoEmptyList(Next(s, step).store.lists)
  {
  }

  lemma NextCanonicalSets(s: System, step: Step)
    requires NoEmptySet(s.store.sets) && Enabled(s, step)
    ensures NoEmptySet(Next(s, step).store.sets)
  {
    match step
    case Append(e) => IndexKeepsCanonical(s.store.sets, SlotOf(e));
    case Detach(slot, _) => IndexKeepsCanonical(s.store.sets, slot);
    case Restore(token) => IndexKeepsCanonical(s.store.sets, s.drains[token].slot);
    case _ =>
  }

  lemma IndexKeepsCanonical(sets: Sets, slot: Slot)
    requires NoEmptySet(sets)
    ensures NoEmptySet(IndexedSets(sets, slot)) && NoEmptySet(UnindexedSets(sets, slot))
  {
  }

  lemma NextTokens(s: System, step: Step)
    requires TokensUsed(s) && Enabled(s, step)
    ensures TokensUsed(Next(s, step))
  {
  }

  // The draining keys of the other drains, and their phases, do not change.
  lemma NextFrame(s: System, step: Step, t: string)
    requires TokensUsed(s) && Enabled(s, step)
    requires t in Next(s, step).drains && !step.Append?
    requires step.token != t
    ensures t in s.drains && Next(s, step).drains[t] == s.drains[t]
    ensures Outstanding(Next(s, step), t) == Outstanding(s, t)
    ensures DrainKey(s, t) in Next(s, step).store.lists <==> DrainKey(s, t) in s.store.lists
  {
  }

  lemma NextHolds(s: System, step: Step)
    requires Canonical(s.store) && TokensUsed(s) && DrainsHold(s) && Enabled(s, step)
    ensures DrainsHold(Next(s, step))
  {
    var s' := Next(s, step);
    forall t | t in s'.drains
      ensures Outstanding(s', t) != []
      ensures InPhase(s', t, Closing) ==> DrainKey(s', t) !in s'.store.lists
    {
      if step.Append? {
        assert Outstanding(s', t) == Outstanding(s, t);
      } else if step.token != t {
        NextFrame(s, step, t);
      } else if step.Detach? {
        assert Outstanding(s', t) == At(s.popped, t) + At(s.store.lists, Data(step.slot));
      } else {
        OwnStepHolds(s, step);
      }
    }
  }

  lemma OwnStepHolds(s: System, step: Step)
    requires Canonical(s.store) && TokensUsed(s) && DrainsHold(s) && Enabled(s, step)
    requires !step.Append? && !step.Detach? && step.token in Next(s, step).drains
    ensures Outstanding(Next(s, step), step.token) == Outstanding(s, step.token)
    ensures InPhase(Next(s, step), step.token, Closing) ==> DrainKey(s, step.token) !in Next(s, step).store.lists
  {
    if step.Pop? {
      var queue := At(s.store.lists, DrainKey(s, step.token));
      if queue != [] {
        assert At(s.popped, step.token) + queue == At(s.popped, step.token) + [queue[0]] + queue[1..];
      }
    }
  }

  // Popping, deleting and failing leave every live queue alone.
  lemma NextLive(s: System, step: Step, slot: Slot)
    requires Enabled(s, step)
    requires step.Append? ==> SlotOf(step.e) != slot
    requires step.Detach? ==> step.slot != slot
    requires step.Restore? ==> s.drains[step.token].slot != slot
    ensures At(Next(s, step).store.lists, Data(slot)) == At(s.store.lists, Data(slot))
    ensures Data(slot) in Next(s, step).store.lists <==> Data(slot) in s.store.lists
  {
  }

  lemma RestoredLive(lists: Lists, slot: Slot, token: string, raw: seq<Event>)
    requires raw + At(lists, Draining(slot, token)) != []
    ensures Data(slot) in RestoredLists(lists, slot, token, raw)
  {
  }

  lemma NextExact(s: System, step: Step)
    requires Canonical(s.store) && TokensUsed(s) && DrainsHold(s) && Exact(s.store) && Enabled(s, step)
    ensures Exact(Next(s, step).store)
  {
    var lists := Next(s, step).store.lists;
    forall ws, x | (step.Append? ==> SlotOf(step.e) != Slot(ws, x))
                   && (step.Detach? ==> step.slot != Slot(ws, x))
                   && (step.Restore? ==> s.drains[step.token].slot != Slot(ws, x))
      ensures Data(Slot(ws, x)) in lists <==> Live(s.store, ws, x)
    {
      NextLive(s, step, Slot(ws, x));
    }
    match step
    case Append(e) => IndexedExact(s.store, lists, SlotOf(e));
    case Detach(slot, token) => UnindexedExact(s.store, lists, slot);
    case Restore(token) =>
      assert Outstanding(s, token) != [];
      RestoredLive(s.store.lists, s.drains[token].slot, token, At(s.popped, token));
      IndexedExact(s.store, lists, s.drains[token].slot);
    case _ => assert forall ws, x :: Live(Next(s, step).store, ws, x) <==> Live(s.store, ws, x);
  }

  lemma DetachConserves(lists: Lists, slot: Slot, token: string, e: Event)
    requires Draining(slot, token) !in lists
    ensures Total(DetachedLists(lists, slot, token), e) == Total(lists, e)
  {
    var live := At(lists, Data(slot));
    if live != [] {
      TotalPut(lists, Draining(slot, token), live, e);
      TotalPut(Put(lists, Draining(slot, token), live), Data(slot), [], e);
    }
  }

  lemma RestoreConserves(lists: Lists, slot: Slot, token: string, raw: seq<Event>, e: Event)
    ensures Total(RestoredLists(lists, slot, token, raw), e) == Total(lists, e) + Count(raw, e)
  {
    var waiting, live := At(lists, Draining(slot, token)), At(lists, Data(slot));
    var emptied := Put(lists, Draining(slot, token), []);
    TotalPut(lists, Draining(slot, token), [], e);
    TotalPut(emptied, Data(slot), raw + waiting + live, e);
    CountConcat(raw, waiting, e);
    CountConcat(raw + waiting, live, e);
  }

  lemma PopConserves(lists: Lists, popped: map<string, seq<Event>>, k: Key, token: string, e: Event)
    requires At(lists, k) != []
    ensures var queue, raw := At(lists, k), At(popped, token);
            Total(Put(lists, k, queue[1..]), e) + Total(Put(popped, token, raw + [queue[0]]), e)
            == Total(lists, e) + Total(popped, e)
  {
    CountMove(At(lists, k), At(popped, token), e);
    TotalPut(lists, k, At(lists, k)[1..], e);
    TotalPut(popped, token, At(popped, token) + [At(lists, k)[0]], e);
  }

  // Steps that bring events in, take them off the live queue, or hand one over.
  lemma IntakeConserved(s: System, step: Step, e: Event)
    requires TokensUsed(s) && DrainsHold(s) && ConservedFor(s, e) && Enabled(s, step)
    requires step.Append? || step.Detach? || step.Pop?
    ensures ConservedFor(Next(s, step), e)
  {
    var lists := s.store.lists;
    match step
    case Append(x) =>
      TotalPut(lists, Data(SlotOf(x)), At(lists, Data(SlotOf(x))) + [x], e);
      CountConcat(s.appended, [x], e);
      CountConcat(At(lists, Data(SlotOf(x))), [x], e);
    case Detach(slot, token) =>
      DetachConserves(lists, slot, token, e);
      TotalAdd(s.returned, token, [], e);
    case Pop(token) =>
      if At(lists, DrainKey(s, token)) != [] {
        PopConserves(lists, s.popped, DrainKey(s, token), token, e);
      }
  }

  // Steps that end a drain, one way or another.
  lemma OutcomeConserved(s: System, step: Step, e: Event)
    requires TokensUsed(s) && DrainsHold(s) && ConservedFor(s, e) && Enabled(s, step)
    requires !step.Append? && !step.Detach? && !step.Pop?
    ensures ConservedFor(Next(s, step), e)
  {
    var lists := s.store.lists;
    match step
    case Delete(token) =>
      assert Put(lists, DrainKey(s, token), []) == lists;
      TotalPut(s.popped, token, [], e);
      TotalAdd(s.returned, token, At(s.popped, token), e);
    case Fail(token) =>
    case Restore(token) =>
      RestoreConserves(lists, s.drains[token].slot, token, At(s.popped, token), e);
      TotalPut(s.popped, token, [], e);
    case RestoreFails(token) =>
      TotalPut(s.popped, token, [], e);
      CountConcat(s.lost, At(s.popped, token), e);
  }

  lemma NextConserved(s: System, step: Step, e: Event)
    requires TokensUsed(s) && DrainsHold(s) && ConservedFor(s, e) && Enabled(s, step)
    ensures ConservedFor(Next(s, step), e)
  {
    if step.Append? || step.Detach? || step.Pop? {
      IntakeConserved(s, step, e);
    } else {
      OutcomeConserved(s, step, e);
    }
  }

  lemma NextInv(s: System, step: Step)
    requires Inv(s) && Enabled(s, step)
    ensures Inv(Next(s, step))
  {
    NextCanonical(s, step);
    NextTokens(s, step);
    NextHolds(s, step);
    NextExact(s, step);
    forall e ensures ConservedFor(Next(s, step), e) {
      NextConserved(s, step, e);
    }
  }

  lemma {:induction false} RunInv(s: System, steps: seq<Step>)
    requires Inv(s) && Runs(s, steps)
    ensures Inv(Run(s, steps))
    decreases |steps|
  {
    if steps != [] {
      NextInv(s, steps[0]);
      RunInv(Next(s, steps[0]), steps[1..]);
    }
  }

  // ---- Main results ----

  // Where an event can be: in a live queue or a draining key, in a drainer's hands, in the result
  // of a finished drain, or lost with a failed restore.
  datatype Place = Queued(key: Key) | Held(token: string) | Given(token: string) | Gone

  ghost function Contents(s: System, p: Place): seq<Event> {
    match p
    case Queued(key) => At(s.store.lists, key)
    case Held(token) => At(s.popped, token)
    case Given(token) => At(s.returned, token)
    case Gone => s.lost
  }

  // Under every interleaving, an event appended once is in exactly one place, and there once.
  lemma EachEventInOnePlace(steps: seq<Step>, e: Event) returns (p: Place)
    requires Runs(START, steps) && Count(Run(START, steps).appended, e) == 1
    ensures var s := Run(START, steps);
            && Count(Contents(s, p), e) == 1
            && forall q | e in Contents(s, q) :: q == p
  {
    var s := Run(START, steps);
    StartInv();
    RunInv(START, steps);
    assert ConservedFor(s, e);
    p := SomePlace(s, e);
    forall q | e in Contents(s, q) ensures q == p {
      TwoPlaces(s, p, q, e);
    }
    OnePlace(s, p, e);
  }

  lemma SomePlace(s: System, e: Event) returns (p: Place)
    requires ConservedFor(s, e) && Count(s.appended, e) == 1
    ensures e in Contents(s, p)
  {
    if Total(s.store.lists, e) > 0 {
      var k := Holder(s.store.lists, e);
      p := Queued(k);
    } else if Total(s.popped, e) > 0 {
      var t := Holder(s.popped, e);
      p := Held(t);
    } else if Total(s.returned, e) > 0 {
      var t := Holder(s.returned, e);
      p := Given(t);
    } else {
      p := Gone;
    }
  }

  ghost function Share(s: System, p: Place, e: Event): nat {
    match p
    case Queued(_) => Total(s.store.lists, e)
    case Held(_) => Total(s.popped, e)
    case Given(_) => Total(s.returned, e)
    case Gone => Count(s.lost, e)
  }

  lemma OnePlace(s: System, p: Place, e: Event)
    requires e in Contents(s, p)
    ensures 1 <= Count(Contents(s, p), e) <= Share(s, p, e)
  {
    match p
    case Queued(key) => TotalSplit(s.store.lists, key, e);
    case Held(token) => TotalSplit(s.popped, token, e);
    case Given(token) => TotalSplit(s.returned, token, e);
    case Gone =>
  }

  lemma TwoPlaces(s: System, p: Place, q: Place, e: Event)
    requires ConservedFor(s, e) && Count(s.appended, e) == 1
    requires e in Contents(s, p) && e in Contents(s, q)
    ensures p == q
  {
    OnePlace(s, p, e);
    OnePlace(s, q, e);
    if p != q {
      match p
      case Queued(key) => if q.Queued? { TwoHolders(s.store.lists, key, q.key, e); }
      case Held(token) => if q.Held? { TwoHolders(s.popped, token, q.token, e); }
      case Given(token) => if q.Given? { TwoHolders(s.returned, token, q.token, e); }
      case Gone =>
    }
  }

  // Events are lost only with a drain whose restore script fails.
  lemma {:induction false} LostOnlyByFailedRestore(s: System, steps: seq<Step>)
    requires Runs(s, steps) && forall i | 0 <= i < |steps| :: !steps[i].RestoreFails?
    ensures Run(s, steps).lost == s.lost
    decreases |steps|
  {
    if steps != [] {
      LostOnlyByFailedRestore(Next(s, steps[0]), steps[1..]);
    }
  }

  // In every reachable state the three indexes list exactly the non-empty live queues.
  lemma IndexesAlwaysExact(steps: seq<Step>)
    requires Runs(START, steps)
    ensures var st := Run(START, steps).store;
            && (forall ws, s :: ws in SetAt(st.sets, SessionIndex(s)) <==> At(st.lists, Data(Slot(ws, s))) != [])
            && (forall ws, s :: s in SetAt(st.sets, WorkspaceIndex(ws)) <==> At(st.lists, Data(Slot(ws, s))) != [])
            && (forall s :: s in SetAt(st.sets, AllSessions) <==> SetAt(st.sets, SessionIndex(s)) != {})
  {
    StartInv();
    RunInv(START, steps);
    var st := Run(START, steps).store;
    assert forall ws, s :: Live(st, ws, s) <==> At(st.lists, Data(Slot(ws, s))) != [];
  }
}
