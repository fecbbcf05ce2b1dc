/** The in-process buffer: one list of events per session, in write order. */
module CandidateBuffer {
  import opened Prelude
  import opened Tables
  import opened Events

  type Sessions = map<string, seq<Event>>

  // The events of one workspace, and those of all others, in order.
  function Of(events: seq<Event>, workspace: string): seq<Event> {
    if events == [] then []
    else (if events[0].workspace == workspace then [events[0]] else []) + Of(events[1..], workspace)
  }

  function NotOf(events: seq<Event>, workspace: string): seq<Event> {
    if events == [] then []
    else (if events[0].workspace == workspace then [] else [events[0]]) + NotOf(events[1..], workspace)
  }

  // What a drain or a listing sees: every event, or those of the requested workspace.
  function Selected(events: seq<Event>, workspace: Option<string>): seq<Event> {
    if workspace.None? then events else Of(events, workspace.value)
  }

  function Unselected(events: seq<Event>, workspace: Option<string>): seq<Event> {
    if workspace.None? then [] else NotOf(events, workspace.value)
  }

  // The queue of one workspace and session.
  function Queue(sessions: Sessions, slot: Slot): seq<Event> {
    Of(At(sessions, slot.session), slot.workspace)
  }

  function AfterAppend(sessions: Sessions, e: Event): Sessions {
    Put(sessions, SessionOf(e), At(sessions, SessionOf(e)) + [e])
  }

  function AfterDrain(sessions: Sessions, session: string, workspace: Option<string>): Sessions {
    Put(sessions, session, Unselected(At(sessions, session), workspace))
  }

  // One queue got the event at its end; every other queue is as it was.
  ghost predicate JoinsOnly(before: Sessions, after: Sessions, e: Event, slot: Slot) {
    && Queue(after, slot) == Queue(before, slot) + [e]
    && forall other | other != slot :: Queue(after, other) == Queue(before, other)
  }

  class CandidateBuffer {
    var bySession: Sessions

    constructor ()
      ensures bySession == map[]
    {
      bySession := map[];
    }

    method Append(e: Event)
      modifies this
      ensures bySession == AfterAppend(old(bySession), e)
      ensures e.session.Some? && e.session.value != "" ==>
                JoinsOnly(old(bySession), bySession, e, Slot(e.workspace, e.session.value))
      ensures e.session == None || e.session == Some("") ==>
                JoinsOnly(old(bySession), bySession, e, Slot(e.workspace, e.run))
    {
      AppendLands(bySession, e);
      bySession := bySession[SessionOf(e) := At(bySession, SessionOf(e)) + [e]];
    }

    method Pending(session: string, workspace: Option<string>) returns (events: seq<Event>)
      ensures events == Selected(At(bySession, session), workspace)
      ensures workspace == None ==> events == At(bySession, session)
    {
      var all := At(bySession, session);
      events := [];
      for i := 0 to |all|
        invariant events == Selected(all[..i], workspace)
      {
        SelectOne(all[..i], all[i], workspace);
        assert all[..i + 1] == all[..i] + [all[i]];
        if workspace.None? || all[i].workspace == workspace.value {
          events := events + [all[i]];
        }
      }
      assert all[..|all|] == all;
    }

    // An emptied session is dropped from the dictionary.
    method Drain(session: string, workspace: Option<string>) returns (drained: seq<Event>)
      modifies this
      ensures drained == Selected(At(old(bySession), session), workspace)
      ensures bySession == AfterDrain(old(bySession), session, workspace)
      ensures workspace == None ==> drained == At(old(bySession), session) && bySession == old(bySession) - {session}
    {
      var all := At(bySession, session);
      if workspace.None? {
        bySession := bySession - {session};
        return all;
      }
      var remaining: seq<Event> := [];
      drained := [];
      for i := 0 to |all|
        invariant drained == Selected(all[..i], workspace)
        invariant remaining == Unselected(all[..i], workspace)
        invariant bySession == old(bySession)
      {
        SelectOne(all[..i], all[i], workspace);
        assert all[..i + 1] == all[..i] + [all[i]];
        if all[i].workspace == workspace.value {
          drained := drained + [all[i]];
        } else {
          remaining := remaining + [all[i]];
        }
      }
      assert all[..|all|] == all;
      bySession := if remaining != [] then bySession[session := remaining] else bySession - {session};
    }
  }

  lemma {:induction false} OfAppend(events: seq<Event>, e: Event, workspace: string)
    ensures Of(events + [e], workspace) == Of(events, workspace) + if e.workspace == workspace then [e] else []
  {
    if events == [] {
    } else {
      OfAppend(events[1..], e, workspace);
      assert (events + [e])[1..] == events[1..] + [e];
    }
  }

  lemma {:induction false} NotOfAppend(events: seq<Event>, e: Event, workspace: string)
    ensures NotOf(events + [e], workspace) == NotOf(events, workspace) + if e.workspace == workspace then [] else [e]
  {
    if events == [] {
    } else {
      NotOfAppend(events[1..], e, workspace);
      assert (events + [e])[1..] == events[1..] + [e];
    }
  }

  lemma SelectOne(events: seq<Event>, e: Event, workspace: Option<string>)
    ensures Selected(events + [e], workspace)
            == Selected(events, workspace)
               + if workspace.None? || e.workspace == workspace.value then [e] else []
    ensures Unselected(events + [e], workspace)
            == Unselected(events, workspace)
               + if workspace.None? || e.workspace == workspace.value then [] else [e]
  {
    if workspace.Some? {
      OfAppend(events, e, workspace.value);
      NotOfAppend(events, e, workspace.value);
    }
  }

  // Removing one workspace's events keeps those of every other workspace, in order.
  lemma {:induction false} OfNotOf(events: seq<Event>, gone: string, workspace: string)
    ensures Of(NotOf(events, gone), workspace) == if workspace == gone then [] else Of(events, workspace)
  {
    if events != [] {
      OfNotOf(events[1..], gone, workspace);
      var rest := NotOf(events[1..], gone);
      if events[0].workspace != gone {
        assert NotOf(events, gone) == [events[0]] + rest;
        assert NotOf(events, gone)[1..] == rest;
      } else {
        assert NotOf(events, gone) == rest;
      }
    }
  }

  // Appending adds to the end of one queue and leaves the others alone.
  lemma AppendQueue(sessions: Sessions, e: Event, slot: Slot)
    ensures Queue(AfterAppend(sessions, e), slot)
            == Queue(sessions, slot) + if SlotOf(e) == slot then [e] else []
  {
    OfAppend(At(sessions, SessionOf(e)), e, slot.workspace);
  }

  // Draining one workspace empties its queue and leaves the others alone.
  lemma DrainQueue(sessions: Sessions, drained: Slot, slot: Slot)
    ensures Queue(AfterDrain(sessions, drained.session, Some(drained.workspace)), slot)
            == if slot == drained then [] else Queue(sessions, slot)
  {
    OfNotOf(At(sessions, drained.session), drained.workspace, slot.workspace);
  }

  // An event of a session goes to that session's queue, one without a session, or with an empty one, to
  // the queue of its run.
  lemma AppendLands(sessions: Sessions, e: Event)
    ensures e.session.Some? && e.session.value != "" ==>
              JoinsOnly(sessions, AfterAppend(sessions, e), e, Slot(e.workspace, e.session.value))
    ensures e.session == None || e.session == Some("") ==>
              JoinsOnly(sessions, AfterAppend(sessions, e), e, Slot(e.workspace, e.run))
  {
    forall slot
      ensures Queue(AfterAppend(sessions, e), slot)
              == Queue(sessions, slot) + if SlotOf(e) == slot then [e] else []
    {
      AppendQueue(sessions, e, slot);
    }
  }
}
