/** The Redis candidate buffer: the commands it issues, its three Lua scripts and a drain call. */
module RedisBuffer {
  import opened Prelude
  import opened Tables
  import opened Events

  // The five families of keys. KeyNames shows that their printed names never collide.
  datatype Key =
    | Data(slot: Slot)
    | Draining(slot: Slot, token: string)
    | SessionIndex(session: string)
    | WorkspaceIndex(workspace: string)
    | AllSessions

  datatype Store = Store(lists: Lists, sets: Sets)

  type Lists = map<Key, seq<Event>>
  type Sets = map<Key, set<string>>

  // Redis drops a list or a set together with its last member.
  ghost predicate Canonical(st: Store) {
    NoEmptyList(st.lists) && NoEmptySet(st.sets)
  }

  // ---- What each script does to the store ----

  function IndexedSets(sets: Sets, slot: Slot): Sets {
    var s1 := PutSet(sets, SessionIndex(slot.session), SetAt(sets, SessionIndex(slot.session)) + {slot.workspace});
    var s2 := PutSet(s1, WorkspaceIndex(slot.workspace), SetAt(s1, WorkspaceIndex(slot.workspace)) + {slot.session});
    PutSet(s2, AllSessions, SetAt(s2, AllSessions) + {slot.session})
  }

  function UnindexedSets(sets: Sets, slot: Slot): Sets {
    var s1 := PutSet(sets, SessionIndex(slot.session), SetAt(sets, SessionIndex(slot.session)) - {slot.workspace});
    var s2 := PutSet(s1, WorkspaceIndex(slot.workspace), SetAt(s1, WorkspaceIndex(slot.workspace)) - {slot.session});
    if SetAt(s2, SessionIndex(slot.session)) == {} then
      PutSet(s2, AllSessions, SetAt(s2, AllSessions) - {slot.session})
    else s2
  }

  function Appended(st: Store, e: Event): Store {
    var k := Data(SlotOf(e));
    Store(Put(st.lists, k, At(st.lists, k) + [e]), IndexedSets(st.sets, SlotOf(e)))
  }

  // RENAME overwrites its target.
  function DetachedLists(lists: Lists, slot: Slot, token: string): Lists {
    var live := At(lists, Data(slot));
    if live == [] then lists else Put(Put(lists, Draining(slot, token), live), Data(slot), [])
  }

  function Detached(st: Store, slot: Slot, token: string): Store {
    Store(DetachedLists(st.lists, slot, token), UnindexedSets(st.sets, slot))
  }

  // One queue got the event at its end; every other list is as it was.
  ghost predicate JoinsOnly(before: Lists, after: Lists, e: Event, slot: Slot) {
    && At(after, Data(slot)) == At(before, Data(slot)) + [e]
    && forall k | k != Data(slot) :: At(after, k) == At(before, k)
  }

  // An event of a session goes to that session's queue, one without a session, or with an empty one, to
  // the queue of its run.
  lemma AppendLands(st: Store, e: Event)
    ensures e.session.Some? && e.session.value != "" ==>
              JoinsOnly(st.lists, Appended(st, e).lists, e, Slot(e.workspace, e.session.value))
    ensures e.session == None || e.session == Some("") ==>
              JoinsOnly(st.lists, Appended(st, e).lists, e, Slot(e.workspace, e.run))
  {
  }

  // What the drainer popped goes first, then what it had not reached, then what arrived meanwhile.
  function RestoredLists(lists: Lists, slot: Slot, token: string, raw: seq<Event>): Lists {
    var queue := raw + At(lists, Draining(slot, token)) + At(lists, Data(slot));
    Put(Put(lists, Draining(slot, token), []), Data(slot), queue)
  }

  function Restored(st: Store, slot: Slot, token: string, raw: seq<Event>): Store {
    Store(RestoredLists(st.lists, slot, token, raw), IndexedSets(st.sets, slot))
  }

  // A drain that popped n events and hands them back leaves every queue as it found it; one that
  // popped them all and deletes its key removes exactly the queue it detached.
  lemma UndoDetach(lists: Lists, slot: Slot, token: string, n: nat)
    requires NoEmptyList(lists) && Draining(slot, token) !in lists
    requires At(lists, Data(slot)) != [] && n <= |At(lists, Data(slot))|
    ensures var all := At(lists, Data(slot));
            var popped := Put(DetachedLists(lists, slot, token), Draining(slot, token), all[n..]);
            && RestoredLists(popped, slot, token, all[..n]) == lists
            && Put(popped, Draining(slot, token), []) == Put(lists, Data(slot), [])
  {
    var all := At(lists, Data(slot));
    var popped := Put(DetachedLists(lists, slot, token), Draining(slot, token), all[n..]);
    assert all[..n] + At(popped, Draining(slot, token)) + At(popped, Data(slot)) == all;
  }

  // One turn of the RPOP/LPUSH loop.
  lemma MoveStep(lists: Lists, source: Key, target: Key, front: seq<Event>, back: seq<Event>)
    requires source != target
    ensures var now := Put(Put(lists, target, front), source, back);
            && At(now, target) == front
            && (NoEmptyList(lists) ==> NoEmptyList(now))
            && (target in now <==> front != [])
            && (front != [] ==>
                  var last := |front| - 1;
                  var popped := Put(now, target, front[..last]);
                  && At(popped, source) == back
                  && Put(popped, source, [front[last]] + back)
                     == Put(Put(lists, target, front[..last]), source, [front[last]] + back))
  {
  }

  lemma MoveStart(lists: Lists, source: Key, target: Key)
    requires source != target && NoEmptyList(lists)
    ensures Put(Put(lists, target, At(lists, target)), source, At(lists, source)) == lists
  {
  }

  // PushBack, MoveBack and DEL together.
  lemma RestoreChain(lists: Lists, slot: Slot, token: string, raw: seq<Event>)
    requires NoEmptyList(lists)
    ensures var source, target := Data(slot), Draining(slot, token);
            var pushed := Put(lists, target, raw + At(lists, target));
            var moved := Put(Put(pushed, target, []), source, At(pushed, target) + At(pushed, source));
            && Put(moved, target, []) == RestoredLists(lists, slot, token, raw)
            && NoEmptyList(Put(moved, target, []))
  {
    PutTwice(lists, Draining(slot, token), raw + At(lists, Draining(slot, token)), []);
  }

  // Where a drain call can fail: popping after n successful pops, validating the event popped
  // after n others, or deleting the emptied key.
  datatype Fault = NoFault | AtPop(n: nat) | AtValidate(n: nat) | AtDelete

  // Whether the fault strikes a drain that has `size` events to pop.
  predicate Strikes(fault: Fault, size: nat) {
    match fault
    case NoFault => false
    case AtPop(n) => n <= size
    case AtValidate(n) => n < size
    case AtDelete => true
  }

  // The lists after the queues of these workspaces have been drained.
  function Cleared(lists: Lists, session: string, workspaces: seq<string>): Lists {
    lists - set w | w in workspaces :: Data(Slot(w, session))
  }

  // The events of these workspaces' queues, one queue after the other.
  function Joined(lists: Lists, session: string, workspaces: seq<string>): seq<Event> {
    if workspaces == [] then []
    else Joined(lists, session, workspaces[..|workspaces| - 1])
         + At(lists, Data(Slot(workspaces[|workspaces| - 1], session)))
  }

  lemma OneMoreWorkspace(lists: Lists, session: string, workspaces: seq<string>, w: string)
    requires w !in workspaces
    ensures var before, k := Cleared(lists, session, workspaces), Data(Slot(w, session));
            && At(before, k) == At(lists, k)
            && Put(before, k, []) == Cleared(lists, session, workspaces + [w])
    ensures Joined(lists, session, workspaces + [w])
            == Joined(lists, session, workspaces) + At(lists, Data(Slot(w, session)))
  {
    assert (workspaces + [w])[..|workspaces|] == workspaces;
    var before, k := Cleared(lists, session, workspaces), Data(Slot(w, session));
    assert (set x | x in workspaces + [w] :: Data(Slot(x, session)))
        == (set x | x in workspaces :: Data(Slot(x, session))) + {k};
    assert Put(before, k, []) == Cleared(lists, session, workspaces + [w]);
  }

  // A drain over several workspaces that fails at one of them has thrown away what it drained
  // before: the store is as it was exactly when the queues before that one were all empty.
  lemma {:induction false} FailedSessionDrainKeepsAll(lists: Lists, session: string, workspaces: seq<string>)
    requires NoEmptyList(lists)
    ensures Cleared(lists, session, workspaces) == lists <==> Joined(lists, session, workspaces) == []
  {
    if workspaces != [] {
      var last := |workspaces| - 1;
      FailedSessionDrainKeepsAll(lists, session, workspaces[..last]);
      assert workspaces == workspaces[..last] + [workspaces[last]];
      var k := Data(Slot(workspaces[last], session));
      if Cleared(lists, session, workspaces) == lists {
        assert k !in Cleared(lists, session, workspaces);
        assert Cleared(lists, session, workspaces[..last]) == lists;
      }
    }
  }

  class Redis {
    var lists: map<Key, seq<Event>>
    var sets: map<Key, set<string>>

    function State(): Store
      reads this
    {
      Store(lists, sets)
    }

    constructor ()
      ensures State() == Store(map[], map[])
      ensures Canonical(State())
    {
      lists, sets := map[], map[];
    }

    // ---- Single commands ----

    method RPush(k: Key, e: Event)
      modifies this`lists
      ensures lists == Put(old(lists), k, At(old(lists), k) + [e])
    {
      lists := lists[k := At(lists, k) + [e]];
    }

    method LPush(k: Key, e: Event)
      modifies this`lists
      ensures lists == Put(old(lists), k, [e] + At(old(lists), k))
    {
      lists := lists[k := [e] + At(lists, k)];
    }

    method LPop(k: Key) returns (e: Option<Event>)
      requires NoEmptyList(lists)
      modifies this`lists
      ensures e == if At(old(lists), k) == [] then None else Some(At(old(lists), k)[0])
      ensures lists == if e.None? then old(lists) else Put(old(lists), k, At(old(lists), k)[1..])
    {
      if k !in lists { return None; }
      e := Some(lists[k][0]);
      lists := if |lists[k]| == 1 then lists - {k} else lists[k := lists[k][1..]];
    }

    method RPop(k: Key) returns (e: Event)
      requires NoEmptyList(lists) && k in lists
      modifies this`lists
      ensures e == old(lists[k][|lists[k]| - 1])
      ensures lists == Put(old(lists), k, old(lists[k][..|lists[k]| - 1]))
    {
      var last := |lists[k]| - 1;
      e := lists[k][last];
      lists := if last == 0 then lists - {k} else lists[k := lists[k][..last]];
    }

    method Del(k: Key)
      modifies this`lists
      ensures lists == Put(old(lists), k, [])
    {
      lists := lists - {k};
    }

    method SAdd(k: Key, member: string)
      modifies this`sets
      ensures sets == PutSet(old(sets), k, SetAt(old(sets), k) + {member})
    {
      sets := sets[k := SetAt(sets, k) + {member}];
    }

    method SRem(k: Key, member: string)
      requires NoEmptySet(sets)
      modifies this`sets
      ensures sets == PutSet(old(sets), k, SetAt(old(sets), k) - {member})
    {
      if k in sets {
        sets := if sets[k] - {member} == {} then sets - {k} else sets[k := sets[k] - {member}];
      }
    }

    // ---- The three scripts ----

    method AddToIndexes(slot: Slot)
      requires NoEmptySet(sets)
      modifies this`sets
      ensures NoEmptySet(sets) && sets == IndexedSets(old(sets), slot)
    {
      SAdd(SessionIndex(slot.session), slot.workspace);
      SAdd(WorkspaceIndex(slot.workspace), slot.session);
      SAdd(AllSessions, slot.session);
    }

    method RemoveFromIndexes(slot: Slot)
      requires NoEmptySet(sets)
      modifies this`sets
      ensures NoEmptySet(sets) && sets == UnindexedSets(old(sets), slot)
    {
      SRem(SessionIndex(slot.session), slot.workspace);
      SRem(WorkspaceIndex(slot.workspace), slot.session);
      if SessionIndex(slot.session) !in sets {
        SRem(AllSessions, slot.session);
      }
    }

    method AppendScript(e: Event)
      requires Canonical(State())
      modifies this
      ensures State() == Appended(old(State()), e)
      ensures e.session.Some? && e.session.value != "" ==>
                JoinsOnly(old(lists), lists, e, Slot(e.workspace, e.session.value))
      ensures e.session == None || e.session == Some("") ==> JoinsOnly(old(lists), lists, e, Slot(e.workspace, e.run))
      ensures Canonical(State())
    {
      AppendLands(State(), e);
      var slot := SlotOf(e);
      RPush(Data(slot), e);
      AddToIndexes(slot);
    }

    method DetachScript(slot: Slot, token: string) returns (found: bool)
      requires Canonical(State())
      modifies this
      ensures found == (At(old(lists), Data(slot)) != [])
      ensures State() == Detached(old(State()), slot, token)
      ensures Canonical(State())
    {
      found := Data(slot) in lists;
      if found {
        lists := lists[Draining(slot, token) := lists[Data(slot)]] - {Data(slot)};
      }
      RemoveFromIndexes(slot);
    }

    // for i = #ARGV, 3, -1 do LPUSH target ARGV[i] end
    method PushBack(target: Key, raw: seq<Event>)
      requires NoEmptyList(lists)
      modifies this`lists
      ensures NoEmptyList(lists)
      ensures lists == Put(old(lists), target, raw + At(old(lists), target))
    {
      var i := |raw|;
      PutUnchanged(lists, target);
      assert raw[i..] + At(lists, target) == At(lists, target);
      while i > 0
        invariant 0 <= i <= |raw|
        invariant lists == Put(old(lists), target, raw[i..] + At(old(lists), target))
      {
        i := i - 1;
        LPush(target, raw[i]);
        assert [raw[i]] + (raw[i + 1..] + At(old(lists), target)) == raw[i..] + At(old(lists), target);
      }
    }

    // while LLEN target > 0 do LPUSH source (RPOP target) end
    method MoveBack(source: Key, target: Key)
      requires NoEmptyList(lists) && source != target
      modifies this`lists
      ensures NoEmptyList(lists)
      ensures lists == Put(Put(old(lists), target, []), source, At(old(lists), target) + At(old(lists), source))
    {
      ghost var all, live := At(lists, target), At(lists, source);
      ghost var j := |all|;
      MoveStart(lists, source, target);
      assert all[..j] == all && all[j..] + live == live;
      while target in lists
        invariant 0 <= j <= |all| && NoEmptyList(lists)
        invariant lists == Put(Put(old(lists), target, all[..j]), source, all[j..] + live)
        decreases j
      {
        MoveStep(old(lists), source, target, all[..j], all[j..] + live);
        assert all[..j][..j - 1] == all[..j - 1] && [all[j - 1]] + (all[j..] + live) == all[j - 1..] + live;
        var e := RPop(target);
        j := j - 1;
        LPush(source, e);
      }
    }

    // Puts the popped values back in front of the draining key, then moves that whole key, last
    // value first, in front of the live queue.
    method RestoreScript(slot: Slot, token: string, raw: seq<Event>)
      requires Canonical(State())
      modifies this
      ensures State() == Restored(old(State()), slot, token, raw)
      ensures Canonical(State())
    {
      RestoreChain(lists, slot, token, raw);
      PushBack(Draining(slot, token), raw);
      MoveBack(Data(slot), Draining(slot, token));
      Del(Draining(slot, token));
      AddToIndexes(slot);
    }

    // The pop loop of a drain. The popped value joins `raw` before it is validated, so a value that
    // fails validation is put back as well.
    method PopLoop(k: Key, fault: Fault) returns (raw: seq<Event>, failed: bool)
      requires NoEmptyList(lists)
      modifies this`lists
      ensures NoEmptyList(lists)
      ensures raw <= At(old(lists), k)
      ensures lists == Put(old(lists), k, At(old(lists), k)[|raw|..])
      ensures failed == (!fault.AtDelete? && Strikes(fault, |At(old(lists), k)|))
      ensures !failed ==> raw == At(old(lists), k)
    {
      ghost var all := At(lists, k);
      raw := [];
      PutUnchanged(lists, k);
      while true
        invariant raw <= all && NoEmptyList(lists)
        invariant lists == Put(old(lists), k, all[|raw|..])
        invariant fault.AtDelete? || fault == AtPop(|raw|) || !Strikes(fault, |raw|)
        decreases |all| - |raw|
      {
        if fault == AtPop(|raw|) { return raw, true; }
        var e := LPop(k);
        if e.None? { return raw, false; }
        raw := raw + [e.value];
        if fault == AtValidate(|raw| - 1) { return raw, true; }
      }
    }

    // One drain call with an explicit workspace and no other client in between. `fault` says which
    // of its commands fails, if any.
    method Drain(slot: Slot, token: string, fault: Fault) returns (r: Result<seq<Event>, ()>)
      requires Canonical(State()) && Draining(slot, token) !in lists
      modifies this
      ensures Canonical(State())
      ensures r.Err? <==> At(old(lists), Data(slot)) != [] && Strikes(fault, |At(old(lists), Data(slot))|)
      ensures r.Ok? ==> r.value == At(old(lists), Data(slot))
      ensures lists == if r.Ok? then Put(old(lists), Data(slot), []) else old(lists)
      ensures r.Ok? ==> sets == UnindexedSets(old(sets), slot)
      ensures r.Err? ==> sets == IndexedSets(UnindexedSets(old(sets), slot), slot)
    {
      var found := DetachScript(slot, token);
      if !found { return Ok([]); }
      var raw, failed := PopLoop(Draining(slot, token), fault);
      UndoDetach(old(lists), slot, token, |raw|);
      assert raw == At(old(lists), Data(slot))[..|raw|];
      if failed || fault.AtDelete? {
        RestoreScript(slot, token, raw);
        return Err(());
      }
      Del(Draining(slot, token));
      r := Ok(raw);
    }

    // A drain call without a workspace: one drain after the other over the session's index, in
    // sorted order. On failure the events drained so far are dropped with the local list.
    method DrainSession(session: string, workspaces: seq<string>, tokens: seq<string>, faults: seq<Fault>)
      returns (r: Result<seq<Event>, nat>)
      requires |tokens| == |workspaces| == |faults|
      requires forall i, j | 0 <= i < j < |workspaces| :: workspaces[i] != workspaces[j]
      requires Canonical(State())
      requires forall i | 0 <= i < |workspaces| :: Draining(Slot(workspaces[i], session), tokens[i]) !in lists
      modifies this
      ensures Canonical(State())
      ensures r.Ok? ==> r.value == Joined(old(lists), session, workspaces)
                        && lists == Cleared(old(lists), session, workspaces)
      ensures r.Err? ==> r.error < |workspaces|
                         && lists == Cleared(old(lists), session, workspaces[..r.error])
      ensures r.Err? ==> var queue := At(old(lists), Data(Slot(workspaces[r.error], session)));
                         queue != [] && Strikes(faults[r.error], |queue|)
      ensures forall i | 0 <= i < if r.Ok? then |workspaces| else r.error ::
                var queue := At(old(lists), Data(Slot(workspaces[i], session)));
                queue == [] || !Strikes(faults[i], |queue|)
    {
      var events: seq<Event> := [];
      for i := 0 to |workspaces|
        invariant Canonical(State())
        invariant events == Joined(old(lists), session, workspaces[..i])
        invariant lists == Cleared(old(lists), session, workspaces[..i])
        invariant forall j | 0 <= j < i ::
                    var queue := At(old(lists), Data(Slot(workspaces[j], session)));
                    queue == [] || !Strikes(faults[j], |queue|)
      {
        OneMoreWorkspace(old(lists), session, workspaces[..i], workspaces[i]);
        assert workspaces[..i + 1] == workspaces[..i] + [workspaces[i]];
        var drained := Drain(Slot(workspaces[i], session), tokens[i], faults[i]);
        if drained.Err? { return Err(i); }
        events := events + drained.value;
      }
      assert workspaces[..|workspaces|] == workspaces;
      r := Ok(events);
    }
  }
}
