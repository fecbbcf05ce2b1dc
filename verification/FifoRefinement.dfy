/** With one drainer at a time per queue, the Redis buffer is the in-process one. */
module FifoRefinement {
  import opened Prelude
  import opened Tables
  import opened Events
  import opened RedisBuffer
  import opened DrainProtocol
  import CB = CandidateBuffer

  // A drain that will succeed takes effect when it detaches its queue; one that fails has no effect.

  // How the drain named by the token ends in the steps to come.
  predicate Succeeds(token: string, steps: seq<Step>) {
    if steps == [] then false
    else if steps[0] == Delete(token) then true
    else if steps[0] == Restore(token) || steps[0] == RestoreFails(token) then false
    else Succeeds(token, steps[1..])
  }

  // The in-process buffer, and what its drain calls returned.
  datatype Fifo = Fifo(sessions: CB.Sessions, returned: map<string, seq<Event>>)

  const EMPTY := Fifo(map[], map[])

  // The effect on the in-process buffer of one step, given the steps that follow it.
  function Effect(f: Fifo, step: Step, later: seq<Step>): Fifo {
    match step
    case Append(e) => f.(sessions := CB.AfterAppend(f.sessions, e))
    case Detach(slot, token) =>
      if CB.Queue(f.sessions, slot) == [] || Succeeds(token, later) then
        Fifo(CB.AfterDrain(f.sessions, slot.session, Some(slot.workspace)),
             f.returned[token := CB.Queue(f.sessions, slot)])
      else f
    case _ => f
  }

  function Replay(f: Fifo, steps: seq<Step>): Fifo
    decreases |steps|
  {
    if steps == [] then f else Replay(Effect(f, steps[0], steps[1..]), steps[1..])
  }

  // Nobody detaches a queue that an unfinished drain has detached, and restore scripts run.
  ghost predicate OneDrainer(s: System, step: Step) {
    && !step.RestoreFails?
    && (step.Detach? ==> forall t | t in s.drains :: s.drains[t].slot != step.slot)
  }

  ghost predicate OneDrainerRun(s: System, steps: seq<Step>)
    requires Runs(s, steps)
    decreases |steps|
  {
    steps == [] || (OneDrainer(s, steps[0]) && OneDrainerRun(Next(s, steps[0]), steps[1..]))
  }

  ghost predicate Drained(s: System, slot: Slot) {
    exists t | t in s.drains :: s.drains[t].slot == slot
  }

  ghost predicate SlotsDiffer(s: System) {
    forall t, u | t in s.drains && u in s.drains && t != u :: s.drains[t].slot != s.drains[u].slot
  }

  // The in-process queue of a slot with an unfinished drain t: a drain that will succeed has
  // already returned what it still holds, one that will not has not touched the queue.
  ghost predicate DrainMatches(s: System, f: Fifo, t: string, steps: seq<Step>)
    requires t in s.drains
  {
    var slot := s.drains[t].slot;
    var live := At(s.store.lists, Data(slot));
    if Succeeds(t, steps) then
      CB.Queue(f.sessions, slot) == live && t in f.returned && f.returned[t] == Outstanding(s, t)
    else
      CB.Queue(f.sessions, slot) == Outstanding(s, t) + live && t !in f.returned
  }

  ghost predicate Matches(s: System, f: Fifo, steps: seq<Step>) {
    && SlotsDiffer(s)
    && (forall t | t in s.drains :: DrainMatches(s, f, t, steps))
    && (forall slot | !Drained(s, slot) :: CB.Queue(f.sessions, slot) == At(s.store.lists, Data(slot)))
    && (forall t | t in s.returned :: t in f.returned && f.returned[t] == s.returned[t])
    && (forall t | t in f.returned :: t in s.returned || t in s.drains)
  }

  lemma EffectQueue(f: Fifo, step: Step, later: seq<Step>, slot: Slot)
    requires step.Append? ==> SlotOf(step.e) != slot
    requires step.Detach? ==> step.slot != slot
    ensures CB.Queue(Effect(f, step, later).sessions, slot) == CB.Queue(f.sessions, slot)
  {
    if step.Append? {
      CB.AppendQueue(f.sessions, step.e, slot);
    } else if step.Detach? {
      CB.DrainQueue(f.sessions, step.slot, slot);
    }
  }

  // A drain that the step does not belong to goes on matching.
  lemma OtherDrain(s: System, f: Fifo, t: string, steps: seq<Step>)
    requires steps != [] && TokensUsed(s) && Enabled(s, steps[0]) && OneDrainer(s, steps[0])
    requires !steps[0].Append? && steps[0].token != t && t in s.drains && SlotsDiffer(s)
    requires DrainMatches(s, f, t, steps)
    ensures t in Next(s, steps[0]).drains
    ensures DrainMatches(Next(s, steps[0]), Effect(f, steps[0], steps[1..]), t, steps[1..])
  {
    var slot := s.drains[t].slot;
    NextFrame(s, steps[0], t);
    NextLive(s, steps[0], slot);
    EffectQueue(f, steps[0], steps[1..], slot);
  }

  lemma AppendLive(st: Store, e: Event, slot: Slot)
    ensures At(Appended(st, e).lists, Data(slot))
            == At(st.lists, Data(slot)) + if SlotOf(e) == slot then [e] else []
  {
  }

  lemma AppendOutstanding(s: System, e: Event, t: string)
    requires t in s.drains
    ensures Outstanding(Next(s, Append(e)), t) == Outstanding(s, t)
  {
  }

  lemma AppendDrain(s: System, f: Fifo, t: string, steps: seq<Step>)
    requires steps != [] && steps[0].Append? && t in s.drains
    requires DrainMatches(s, f, t, steps)
    ensures DrainMatches(Next(s, steps[0]), Effect(f, steps[0], steps[1..]), t, steps[1..])
  {
    var e, slot := steps[0].e, s.drains[t].slot;
    CB.AppendQueue(f.sessions, e, slot);
    AppendLive(s.store, e, slot);
    AppendOutstanding(s, e, t);
    var added := if SlotOf(e) == slot then [e] else [];
    var live := At(s.store.lists, Data(slot));
    Regroup(Outstanding(s, t), live, added);
  }

  lemma Regroup(a: seq<Event>, b: seq<Event>, c: seq<Event>)
    ensures a + (b + c) == a + b + c
  {
  }

  // The drain that the step starts.
  lemma DetachDrain(s: System, f: Fifo, steps: seq<Step>)
    requires steps != [] && steps[0].Detach? && TokensUsed(s) && Enabled(s, steps[0])
    requires forall t | t in f.returned :: t in s.returned || t in s.drains
    requires CB.Queue(f.sessions, steps[0].slot) == At(s.store.lists, Data(steps[0].slot))
    ensures var s', f' := Next(s, steps[0]), Effect(f, steps[0], steps[1..]);
            var token := steps[0].token;
            if token in s'.drains then DrainMatches(s', f', token, steps[1..])
            else && CB.Queue(f'.sessions, steps[0].slot) == At(s'.store.lists, Data(steps[0].slot))
                 && token in s'.returned && token in f'.returned && f'.returned[token] == s'.returned[token]
  {
    var slot := steps[0].slot;
    CB.DrainQueue(f.sessions, slot, slot);
    var s' := Next(s, steps[0]);
    if steps[0].token in s'.drains {
      assert Outstanding(s', steps[0].token) == At(s.store.lists, Data(slot));
    }
  }

  // A step of an unfinished drain: it goes on matching, or it ends and its queue matches.
  lemma OwnDrain(s: System, f: Fifo, steps: seq<Step>)
    requires steps != [] && Canonical(s.store) && TokensUsed(s) && DrainsHold(s) && Enabled(s, steps[0])
    requires !steps[0].Append? && !steps[0].Detach? && !steps[0].RestoreFails?
    requires DrainMatches(s, f, steps[0].token, steps)
    ensures var s', token, slot := Next(s, steps[0]), steps[0].token, s.drains[steps[0].token].slot;
            if token in s'.drains then DrainMatches(s', f, token, steps[1..])
            else && CB.Queue(f.sessions, slot) == At(s'.store.lists, Data(slot))
                 && (if steps[0].Delete? then token in s'.returned && token in f.returned
                                              && f.returned[token] == s'.returned[token]
                     else token !in f.returned && s'.returned == s.returned)
  {
    var token := steps[0].token;
    if token in Next(s, steps[0]).drains {
      OwnStepHolds(s, steps[0]);
      NextLive(s, steps[0], s.drains[token].slot);
    } else if steps[0].Delete? {
      assert InPhase(s, token, Closing);
      assert Outstanding(s, token) == At(s.popped, token);
      NextLive(s, steps[0], s.drains[token].slot);
    }
  }

  lemma StepMatches(s: System, f: Fifo, steps: seq<Step>)
    requires steps != [] && Inv(s) && Enabled(s, steps[0]) && OneDrainer(s, steps[0])
    requires Matches(s, f, steps)
    ensures Matches(Next(s, steps[0]), Effect(f, steps[0], steps[1..]), steps[1..])
  {
    var s', f' := Next(s, steps[0]), Effect(f, steps[0], steps[1..]);
    StepSlots(s, steps[0]);
    forall t | t in s'.drains ensures DrainMatches(s', f', t, steps[1..]) {
      StepDrain(s, f, steps, t);
    }
    forall slot | !Drained(s', slot)
      ensures CB.Queue(f'.sessions, slot) == At(s'.store.lists, Data(slot))
    {
      StepQueue(s, f, steps, slot);
    }
    StepReturned(s, f, steps);
  }

  lemma StepSlots(s: System, step: Step)
    requires TokensUsed(s) && Enabled(s, step) && OneDrainer(s, step) && SlotsDiffer(s)
    ensures SlotsDiffer(Next(s, step))
  {
    var s' := Next(s, step);
    assert forall t | t in s'.drains && t in s.drains :: s'.drains[t].slot == s.drains[t].slot;
    assert forall t | t in s'.drains && t !in s.drains :: step.Detach? && t == step.token;
  }

  lemma StepReturned(s: System, f: Fifo, steps: seq<Step>)
    requires steps != [] && Inv(s) && Enabled(s, steps[0]) && OneDrainer(s, steps[0])
    requires Matches(s, f, steps)
    ensures var s', f' := Next(s, steps[0]), Effect(f, steps[0], steps[1..]);
            && (forall t | t in s'.returned :: t in f'.returned && f'.returned[t] == s'.returned[t])
            && (forall t | t in f'.returned :: t in s'.returned || t in s'.drains)
  {
    var s', f' := Next(s, steps[0]), Effect(f, steps[0], steps[1..]);
    OwnReturned(s, f, steps);
    forall t | !steps[0].Append? ==> t != steps[0].token
      ensures t in s'.returned ==> t in f'.returned && f'.returned[t] == s'.returned[t]
      ensures t in f'.returned ==> t in s'.returned || t in s'.drains
    {
      OtherReturned(s, f, steps, t);
    }
  }

  lemma OtherReturned(s: System, f: Fifo, steps: seq<Step>, t: string)
    requires steps != [] && Enabled(s, steps[0])
    requires !steps[0].Append? ==> t != steps[0].token
    ensures var s', f' := Next(s, steps[0]), Effect(f, steps[0], steps[1..]);
            && (t in s'.returned <==> t in s.returned) && (t in f'.returned <==> t in f.returned)
            && (t in s.returned ==> s'.returned[t] == s.returned[t])
            && (t in f.returned ==> f'.returned[t] == f.returned[t])
            && (t in s'.drains <==> t in s.drains)
  {
  }

  lemma OwnReturned(s: System, f: Fifo, steps: seq<Step>)
    requires steps != [] && Inv(s) && Enabled(s, steps[0]) && OneDrainer(s, steps[0])
    requires Matches(s, f, steps)
    ensures !steps[0].Append? ==>
              var s', f', t := Next(s, steps[0]), Effect(f, steps[0], steps[1..]), steps[0].token;
              && (t in s'.returned ==> t in f'.returned && f'.returned[t] == s'.returned[t])
              && (t in f'.returned ==> t in s'.returned || t in s'.drains)
  {
    if steps[0].Detach? {
      assert !Drained(s, steps[0].slot);
      DetachDrain(s, f, steps);
    } else if !steps[0].Append? {
      OwnDrain(s, f, steps);
    }
  }

  lemma StepDrain(s: System, f: Fifo, steps: seq<Step>, t: string)
    requires steps != [] && Inv(s) && Enabled(s, steps[0]) && OneDrainer(s, steps[0])
    requires Matches(s, f, steps) && t in Next(s, steps[0]).drains
    ensures DrainMatches(Next(s, steps[0]), Effect(f, steps[0], steps[1..]), t, steps[1..])
  {
    var step := steps[0];
    if step.Append? {
      AppendDrain(s, f, t, steps);
    } else if step.token != t {
      OtherDrain(s, f, t, steps);
    } else if step.Detach? {
      assert !Drained(s, step.slot);
      DetachDrain(s, f, steps);
    } else {
      OwnDrain(s, f, steps);
    }
  }

  lemma StepQueue(s: System, f: Fifo, steps: seq<Step>, slot: Slot)
    requires steps != [] && Inv(s) && Enabled(s, steps[0]) && OneDrainer(s, steps[0])
    requires Matches(s, f, steps) && !Drained(Next(s, steps[0]), slot)
    ensures CB.Queue(Effect(f, steps[0], steps[1..]).sessions, slot)
            == At(Next(s, steps[0]).store.lists, Data(slot))
  {
    var step := steps[0];
    UndrainedBefore(s, step, slot);
    if step.Append? {
      CB.AppendQueue(f.sessions, step.e, slot);
      if SlotOf(step.e) != slot { NextLive(s, step, slot); }
    } else if step.Detach? && step.slot == slot {
      DetachDrain(s, f, steps);
    } else if !step.Detach? && s.drains[step.token].slot == slot {
      OwnDrain(s, f, steps);
    } else {
      NextLive(s, step, slot);
      EffectQueue(f, step, steps[1..], slot);
    }
  }

  // A slot without a drain after the step had none before, or its drain ended with the step; and
  // if the step detached it, it found nothing.
  lemma UndrainedBefore(s: System, step: Step, slot: Slot)
    requires Inv(s) && Enabled(s, step) && SlotsDiffer(s) && !Drained(Next(s, step), slot)
    ensures !Drained(s, slot)
            || (!step.Append? && !step.Detach? && s.drains[step.token].slot == slot)
    ensures !step.Append? && !step.Detach? && s.drains[step.token].slot == slot
            ==> step.token !in Next(s, step).drains
    ensures step.Detach? && step.slot == slot ==> step.token !in Next(s, step).drains
  {
    var s' := Next(s, step);
    forall t | t in s'.drains ensures s'.drains[t].slot != slot {
    }
    forall t | t in s.drains && (step.Append? || step.token != t) ensures s.drains[t].slot != slot {
      assert t in s'.drains && s'.drains[t].slot == s.drains[t].slot;
    }
  }

  lemma {:induction false} RunMatches(s: System, f: Fifo, steps: seq<Step>)
    requires Inv(s) && Runs(s, steps) && OneDrainerRun(s, steps) && Matches(s, f, steps)
    ensures Matches(Run(s, steps), Replay(f, steps), [])
    decreases |steps|
  {
    if steps != [] {
      NextInv(s, steps[0]);
      StepMatches(s, f, steps);
      RunMatches(Next(s, steps[0]), Effect(f, steps[0], steps[1..]), steps[1..]);
    }
  }

  // Every drain call returns in Redis what it returns from the in-process buffer, and every queue
  // holds the same events in the same order; what an unfinished drain has taken still counts as
  // standing at the front of its queue.
  lemma RedisRefinesFifo(steps: seq<Step>)
    requires Runs(START, steps) && OneDrainerRun(START, steps)
    ensures var s, f := Run(START, steps), Replay(EMPTY, steps);
            && s.returned == f.returned
            && (forall slot | !Drained(s, slot) :: At(s.store.lists, Data(slot)) == CB.Queue(f.sessions, slot))
            && (forall t | t in s.drains ::
                  Outstanding(s, t) + At(s.store.lists, Data(s.drains[t].slot))
                  == CB.Queue(f.sessions, s.drains[t].slot))
  {
    StartInv();
    RunMatches(START, EMPTY, steps);
    var s, f := Run(START, steps), Replay(EMPTY, steps);
    forall t | t in s.drains ensures t !in f.returned {
      assert DrainMatches(s, f, t, []);
    }
  }
}
