/** TTL keys, and the acquire / execute / release-on-failure protocol of the task wrappers. */
module Admission {
  import opened Prelude

  // Seconds for which an acquired key is held.
  function Hold(ttl: int): int {
    Max(1, ttl)
  }

  type Expiries = map<string, int>

  predicate Held(entries: Expiries, key: string, now: int) {
    key in entries && entries[key] > now
  }

  function Acquired(entries: Expiries, key: string, ttl: int, now: int): Expiries {
    if Held(entries, key, now) then entries else entries[key := now + Hold(ttl)]
  }

  // How the guarded work of a task ends. A maintenance run may also report failure in its result.
  datatype Work = Succeeds | ReportsFailure | Raises

  datatype TaskStatus = Skipped | Completed | Failed | Raised

  // The in-memory idempotency store; the in-memory scheduler lease is the same code.
  class TtlStore {
    var entries: Expiries

    constructor ()
      ensures entries == map[]
    {
      entries := map[];
    }

    method Acquire(key: string, ttl: int, now: int) returns (ok: bool)
      modifies this
      ensures ok == !Held(old(entries), key, now)
      ensures entries == Acquired(old(entries), key, ttl, now)
    {
      if key in entries && entries[key] > now {
        return false;
      }
      entries := entries[key := now + Max(1, ttl)];
      return true;
    }

    method Release(key: string)
      modifies this
      ensures entries == old(entries) - {key}
    {
      entries := entries - {key};
    }

    // A whole task with nothing else going on: it keeps the key only if its work succeeded.
    method Process(key: string, ttl: int, now: int, work: Work) returns (status: TaskStatus)
      modifies this
      ensures status.Skipped? <==> Held(old(entries), key, now)
      ensures status.Skipped? ==> entries == old(entries)
      ensures status.Completed? ==> entries == old(entries)[key := now + Hold(ttl)]
      ensures status.Failed? || status.Raised? ==> entries == old(entries) - {key}
      ensures !status.Skipped? ==>
                status == match work case Succeeds => Completed case ReportsFailure => Failed case Raises => Raised
    {
      var acquired := Acquire(key, ttl, now);
      if !acquired { return Skipped; }
      match work {
        case Succeeds => status := Completed;
        case ReportsFailure => Release(key); status := Failed;
        case Raises => Release(key); status := Raised;
      }
    }
  }

  // ---- Any number of workers over one store ----

  datatype Outcome = Running | Done | Broken

  // One acquired execution.
  datatype Execution = Execution(key: string, start: int, outcome: Outcome)

  datatype System = System(entries: Expiries, log: seq<Execution>, clock: int)

  datatype Step =
    | Start(key: string, now: int)
    | Complete(i: nat, now: int)
    | Fail(i: nat, now: int)

  const IDLE := System(map[], [], 0)

  predicate IsRunning(s: System, i: nat) {
    i < |s.log| && s.log[i].outcome.Running?
  }

  // The clock is monotone, and only running executions end.
  predicate Possible(s: System, step: Step) {
    && step.now >= s.clock
    && (!step.Start? ==> IsRunning(s, step.i))
  }

  function Next(s: System, ttl: int, step: Step): System
    requires Possible(s, step)
  {
    match step
    case Start(key, now) =>
      if Held(s.entries, key, now) then s.(clock := now)
      else System(Acquired(s.entries, key, ttl, now), s.log + [Execution(key, now, Running)], now)
    case Complete(i, now) => s.(log := s.log[i := s.log[i].(outcome := Done)], clock := now)
    case Fail(i, now) =>
      System(s.entries - {s.log[i].key}, s.log[i := s.log[i].(outcome := Broken)], now)
  }

  // No execution is still running once its key's time is up.
  predicate InTime(s: System, ttl: int, now: int) {
    forall i | 0 <= i < |s.log| && s.log[i].outcome.Running? :: now < s.log[i].start + Hold(ttl)
  }

  predicate Runs(s: System, ttl: int, steps: seq<Step>)
    decreases |steps|
  {
    steps == []
    || (Possible(s, steps[0]) && InTime(s, ttl, steps[0].now) && Runs(Next(s, ttl, steps[0]), ttl, steps[1..]))
  }

  function Run(s: System, ttl: int, steps: seq<Step>): System
    requires Runs(s, ttl, steps)
    decreases |steps|
  {
    if steps == [] then s else Run(Next(s, ttl, steps[0]), ttl, steps[1..])
  }

  // A running execution still owns its key.
  ghost predicate Owns(s: System, ttl: int, i: nat)
    requires i < |s.log|
  {
    s.log[i].key in s.entries && s.entries[s.log[i].key] == s.log[i].start + Hold(ttl)
  }

  // A completed execution keeps its key taken until the key's time is up.
  ghost predicate Blocks(s: System, ttl: int, i: nat)
    requires i < |s.log|
  {
    s.clock >= s.log[i].start + Hold(ttl) || Owns(s, ttl, i)
  }

  ghost predicate Inv(s: System, ttl: int) {
    && (forall i | 0 <= i < |s.log| :: s.log[i].start <= s.clock)
    && (forall i | 0 <= i < |s.log| && s.log[i].outcome.Running? :: Owns(s, ttl, i))
    && (forall i | 0 <= i < |s.log| && s.log[i].outcome.Done? :: Blocks(s, ttl, i))
    && (forall i, j | 0 <= i < j < |s.log| && s.log[i].key == s.log[j].key ::
          && !s.log[i].outcome.Running?
          && (s.log[i].outcome.Done? ==> s.log[j].start >= s.log[i].start + Hold(ttl)))
  }

  lemma NextOwns(s: System, ttl: int, step: Step, i: nat)
    requires Inv(s, ttl) && Possible(s, step) && InTime(s, ttl, step.now)
    requires i < |Next(s, ttl, step).log|
    ensures Next(s, ttl, step).log[i].outcome.Running? ==> Owns(Next(s, ttl, step), ttl, i)
    ensures Next(s, ttl, step).log[i].outcome.Done? ==> Blocks(Next(s, ttl, step), ttl, i)
  {
    if i < |s.log| && s.log[i].outcome.Running? {
      assert Owns(s, ttl, i);
    } else if i < |s.log| && s.log[i].outcome.Done? {
      assert Blocks(s, ttl, i);
    }
  }

  // A new execution starts only when no earlier one of its key is running or still blocks it.
  lemma NextPairs(s: System, ttl: int, step: Step, i: nat, j: nat)
    requires Inv(s, ttl) && Possible(s, step) && InTime(s, ttl, step.now)
    requires i < j < |Next(s, ttl, step).log|
    requires Next(s, ttl, step).log[i].key == Next(s, ttl, step).log[j].key
    ensures var log := Next(s, ttl, step).log;
            && !log[i].outcome.Running?
            && (log[i].outcome.Done? ==> log[j].start >= log[i].start + Hold(ttl))
  {
    assert i < |s.log| && s.log[i].outcome.Running? ==> Owns(s, ttl, i);
    assert i < |s.log| && s.log[i].outcome.Done? ==> Blocks(s, ttl, i);
  }

  lemma NextInv(s: System, ttl: int, step: Step)
    requires Inv(s, ttl) && Possible(s, step) && InTime(s, ttl, step.now)
    ensures Inv(Next(s, ttl, step), ttl)
  {
    var s' := Next(s, ttl, step);
    forall i | 0 <= i < |s'.log|
      ensures s'.log[i].outcome.Running? ==> Owns(s', ttl, i)
      ensures s'.log[i].outcome.Done? ==> Blocks(s', ttl, i)
    {
      NextOwns(s, ttl, step, i);
    }
    forall i, j | 0 <= i < j < |s'.log| && s'.log[i].key == s'.log[j].key
      ensures !s'.log[i].outcome.Running?
      ensures s'.log[i].outcome.Done? ==> s'.log[j].start >= s'.log[i].start + Hold(ttl)
    {
      NextPairs(s, ttl, step, i, j);
    }
  }

  lemma {:induction false} RunInv(s: System, ttl: int, steps: seq<Step>)
    requires Inv(s, ttl) && Runs(s, ttl, steps)
    ensures Inv(Run(s, ttl, steps), ttl)
    decreases |steps|
  {
    if steps != [] {
      NextInv(s, ttl, steps[0]);
      RunInv(Next(s, ttl, steps[0]), ttl, steps[1..]);
    }
  }

  // Whatever the interleaving, two executions of one key never run at the same time, and after a
  // completed one the next starts no earlier than the hold time past its acquire.
  lemma OneExecutionPerKey(ttl: int, steps: seq<Step>, i: nat, j: nat)
    requires Runs(IDLE, ttl, steps)
    requires i < j < |Run(IDLE, ttl, steps).log|
    requires Run(IDLE, ttl, steps).log[i].key == Run(IDLE, ttl, steps).log[j].key
    ensures var log := Run(IDLE, ttl, steps).log;
            && !(log[i].outcome.Running? && log[j].outcome.Running?)
            && (log[i].outcome.Done? ==> log[j].start >= log[i].start + Max(1, ttl))
  {
    RunInv(IDLE, ttl, steps);
  }

  // A failed execution frees its key at once; a completed one refuses every start in its time.
  lemma AfterTheEnd(s: System, ttl: int, i: nat, now: int, later: int)
    requires Inv(s, ttl) && InTime(s, ttl, now) && s.clock <= now <= later && IsRunning(s, i)
    ensures var key := s.log[i].key;
            var failed := Next(s, ttl, Fail(i, now));
            var done := Next(s, ttl, Complete(i, now));
            && Next(failed, ttl, Start(key, later)).log == failed.log + [Execution(key, later, Running)]
            && (Next(done, ttl, Start(key, later)).log == done.log <==> later < s.log[i].start + Hold(ttl))
  {
    assert Owns(s, ttl, i);
  }

  // Another execution of the key of i is running beside it.
  ghost predicate Doubled(s: System, i: nat)
    requires i < |s.log|
  {
    IsRunning(s, i) && exists j | 0 <= j < |s.log| && j != i :: s.log[j].key == s.log[i].key && IsRunning(s, j)
  }

  // Exclusion lasts exactly as long as the hold time: beside a running execution a second one of its
  // key can start if and only if the first has overrun.
  lemma OverrunBreaksExclusion(s: System, ttl: int, i: nat, now: int)
    requires Inv(s, ttl) && IsRunning(s, i) && s.clock <= now
    ensures Doubled(Next(s, ttl, Start(s.log[i].key, now)), i) <==> now >= s.log[i].start + Hold(ttl)
  {
    assert Owns(s, ttl, i);
    var s' := Next(s, ttl, Start(s.log[i].key, now));
    if now >= s.log[i].start + Hold(ttl) {
      assert IsRunning(s', |s.log|);
    }
  }

  // Releasing names no owner: when the overrun execution fails, it frees the key under its successor,
  // and a third one starts at once. Without that failure the third is refused for the whole hold time
  // of the successor.
  lemma LateFailFreesSuccessor(s: System, ttl: int, i: nat, now: int, late: int, later: int)
    requires Inv(s, ttl) && IsRunning(s, i) && s.clock <= now <= late <= later
    requires now >= s.log[i].start + Hold(ttl)
    ensures var key, n := s.log[i].key, |s.log|;
            var two := Next(s, ttl, Start(key, now));
            var third := Next(Next(two, ttl, Fail(i, late)), ttl, Start(key, later));
            && IsRunning(two, n) && two.log[n].key == key
            && Doubled(third, n)
            && (Next(two, ttl, Start(key, later)).log == two.log <==> later < now + Hold(ttl))
  {
    assert Owns(s, ttl, i);
    var key, n := s.log[i].key, |s.log|;
    var two := Next(s, ttl, Start(key, now));
    var third := Next(Next(two, ttl, Fail(i, late)), ttl, Start(key, later));
    assert IsRunning(third, n + 1) && third.log[n + 1].key == key;
  }
}
