/** The lifecycle state machine with pinning, and its audit records. */
module Lifecycle {
  import opened Prelude
  import opened Memory

  datatype Actor = Scheduler | Admin | Owner

  datatype Audit = Audit(id: string, before: Status, after: Status, actor: Actor)

  datatype LifecycleError = PinnedFromScheduler | InvalidTransition(before: Status, requested: Status)

  function Mainline(s: Status): set<Status> {
    match s
    case Active => {Dormant}
    case Dormant => {Archived}
    case Archived => {Deleted}
    case Conflicted => {Superseded}
    case _ => {}
  }

  const SAFE_UNPIN: set<Status> := {Active, Dormant, Archived}
  const PINNABLE: set<Status> := {Active, Dormant, Archived}
  const SIDE_TRANSITIONS: set<Status> := {Conflicted, Quarantined, Superseded}

  function Restorable(m: Memory): Status {
    if m.meta.previous.Some? && m.meta.previous.value in SAFE_UNPIN then m.meta.previous.value else Active
  }

  function Transition(m: Memory, requested: Status, actor: Actor, now: int): Result<(Memory, Audit), LifecycleError> {
    if actor == Scheduler && m.status == Pinned && requested == Archived then
      Err(PinnedFromScheduler)
    else if requested == Pinned then
      if m.status !in PINNABLE then Err(InvalidTransition(m.status, Pinned))
      else Ok((m.(status := Pinned, meta := m.meta.(previous := Some(m.status)), updatedAt := now),
               Audit(m.id, m.status, Pinned, actor)))
    else if m.status == Pinned && requested == Active then
      Ok((m.(status := Restorable(m), updatedAt := now), Audit(m.id, Pinned, Restorable(m), actor)))
    else
      var allowed := Mainline(m.status) + if m.status == Active then SIDE_TRANSITIONS else {};
      if requested !in allowed then Err(InvalidTransition(m.status, requested))
      else Ok((m.(status := requested, updatedAt := now), Audit(m.id, m.status, requested, actor)))
  }

  // ---- Runs of transitions ----

  datatype Request = Request(status: Status, actor: Actor, now: int)

  // A refused request changes nothing.
  function Apply(m: Memory, r: Request): Memory {
    match Transition(m, r.status, r.actor, r.now)
    case Ok((updated, _)) => updated
    case Err(_) => m
  }

  function Run(m: Memory, requests: seq<Request>): Memory
    decreases |requests|
  {
    if requests == [] then m else Run(Apply(m, requests[0]), requests[1..])
  }

  function Audits(m: Memory, requests: seq<Request>): seq<Audit>
    decreases |requests|
  {
    if requests == [] then []
    else
      (match Transition(m, requests[0].status, requests[0].actor, requests[0].now)
       case Ok((_, audit)) => [audit]
       case Err(_) => [])
      + Audits(Apply(m, requests[0]), requests[1..])
  }

  // A pinned memory counts as being in the status it was pinned from.
  function Effective(m: Memory): Status {
    if m.status == Pinned then Restorable(m) else m.status
  }

  // How far along a status is; every real change raises it.
  function Stage(s: Status): nat {
    match s
    case Active => 0
    case Dormant => 1
    case Archived => 2
    case Deleted => 3
    case Conflicted => 1
    case Superseded => 2
    case Quarantined => 1
    case Pinned => 0
  }

  // The effective status after each request, the initial one first.
  function Path(m: Memory, requests: seq<Request>): seq<Status>
    decreases |requests|
  {
    if requests == [] then [Effective(m)]
    else [Effective(m)] + Path(Apply(m, requests[0]), requests[1..])
  }

  // The real changes of the lifecycle; pinning is none.
  const EDGES: set<(Status, Status)> := {
    (Active, Dormant), (Dormant, Archived), (Archived, Deleted),
    (Active, Conflicted), (Active, Quarantined), (Active, Superseded), (Conflicted, Superseded)
  }

  // The effective status changes only along an edge, towards the requested status, and never while
  // pinned; and every edge is open to everybody.
  lemma ChangesAreEdges(m: Memory, r: Request)
    ensures Effective(Apply(m, r)) != Effective(m) <==> (m.status, r.status) in EDGES
    ensures (m.status, r.status) in EDGES ==> Apply(m, r).status == r.status
    ensures m.status == Pinned ==> Effective(Apply(m, r)) == Effective(m)
  {
  }

  lemma ApplyForward(m: Memory, r: Request)
    ensures Effective(Apply(m, r)) == Effective(m) || Stage(Effective(m)) < Stage(Effective(Apply(m, r)))
  {
  }

  // Along any run the effective status never moves back: two equal points have nothing else
  // between them, so no status is left and re-entered.
  lemma {:induction false} PathForward(m: Memory, requests: seq<Request>, i: nat, j: nat)
    requires i <= j <= |requests|
    ensures |Path(m, requests)| == |requests| + 1
    ensures var p := Path(m, requests); p[i] == p[j] || Stage(p[i]) < Stage(p[j])
    decreases |requests|
  {
    if requests == [] {
    } else if i > 0 {
      PathForward(Apply(m, requests[0]), requests[1..], i - 1, j - 1);
    } else {
      ApplyForward(m, requests[0]);
      PathForward(Apply(m, requests[0]), requests[1..], 0, if j > 0 then j - 1 else 0);
    }
  }

  lemma NoStatusReentered(m: Memory, requests: seq<Request>, i: nat, j: nat, k: nat)
    requires i <= j <= k <= |requests| && |Path(m, requests)| == |requests| + 1
    ensures var p := Path(m, requests); p[i] == p[k] ==> p[j] == p[i]
  {
    PathForward(m, requests, i, j);
    PathForward(m, requests, j, k);
  }

  function Changes(p: seq<Status>): nat {
    if |p| < 2 then 0 else (if p[0] != p[1] then 1 else 0) + Changes(p[1..])
  }

  // At most three real changes in any run, however often the memory is pinned in between.
  lemma {:induction false} AtMostThreeChanges(m: Memory, requests: seq<Request>)
    ensures Changes(Path(m, requests)) + Stage(Effective(m)) <= 3
    decreases |requests|
  {
    if requests != [] {
      var next := Apply(m, requests[0]);
      ApplyForward(m, requests[0]);
      AtMostThreeChanges(next, requests[1..]);
      var p := Path(m, requests);
      assert p[1..] == Path(next, requests[1..]);
      assert p[1] == Effective(next);
    }
  }

  // Pinning and unpinning give back the status, and nothing but metadata and time has changed.
  lemma PinUnpin(m: Memory, a: Actor, b: Actor, t: int, u: int)
    ensures Transition(m, Pinned, a, t).Ok? <==> m.status in PINNABLE
    ensures Transition(m, Pinned, a, t).Ok? ==>
              var back := Transition(Transition(m, Pinned, a, t).value.0, Active, b, u);
              && back.Ok? && back.value.1.after == m.status
              && back.value.0 == m.(meta := m.meta.(previous := Some(m.status)), updatedAt := u)
  {
  }

  // Each audit record starts where the one before it ended.
  ghost predicate Chained(audits: seq<Audit>, first: Status, last: Status) {
    if audits == [] then first == last
    else audits[0].before == first && Chained(audits[1..], audits[0].after, last)
  }

  lemma {:induction false} AuditsChain(m: Memory, requests: seq<Request>)
    ensures Chained(Audits(m, requests), m.status, Run(m, requests).status)
    ensures forall i | 0 <= i < |Audits(m, requests)| :: Audits(m, requests)[i].id == m.id
    decreases |requests|
  {
    if requests != [] {
      var next := Apply(m, requests[0]);
      AuditsChain(next, requests[1..]);
      var rest := Audits(next, requests[1..]);
      if Transition(m, requests[0].status, requests[0].actor, requests[0].now).Ok? {
        assert Audits(m, requests)[1..] == rest;
      } else {
        assert Audits(m, requests) == rest;
      }
    }
  }
}
