/** Writing rival memories one at a time, against adjudicating them all at once. */
module StreamBatch {
  import opened Prelude
  import opened Ordering
  import opened Memory
  import opened ConflictPolicy
  import opened Resolver
  import opened MemoryStore
  import opened Lineage

  // One write: the listing the caller passed and the time of the write.
  datatype Choice = Choice(existing: seq<Memory>, now: int)

  ghost predicate Streams(store: Store, ms: seq<Memory>, choices: seq<Choice>)
    requires |ms| == |choices|
    decreases |ms|
  {
    ms == []
    || var last := |ms| - 1;
       && Streams(store, ms[..last], choices[..last])
       && CanWrite(Streamed(store, ms[..last], choices[..last]), ms[last], choices[last].existing)
  }

  ghost function Streamed(store: Store, ms: seq<Memory>, choices: seq<Choice>): Store
    requires |ms| == |choices|
    decreases |ms|
  {
    if ms == [] then store
    else
      var last := |ms| - 1;
      Written(Streamed(store, ms[..last], choices[..last]), ms[last], choices[last].existing, choices[last].now)
  }

  // New memories of one single-valued key, all with different values.
  ghost predicate Rivals(ms: seq<Memory>) {
    && Distinct(Ids(ms))
    && (forall m | m in ms :: m.status == Active && SingleValued(m))
    && (forall i, j | 0 <= i < |ms| && 0 <= j < |ms| :: SameIdentity(ms[i], ms[j]))
    && (forall i, j | 0 <= i < j < |ms| :: Norm(ms[i].value) != Norm(ms[j].value))
  }

  // The store holds no active memory of their identity yet.
  ghost predicate Unclaimed(store: Store, ms: seq<Memory>) {
    Keyed(store) && forall id, m | id in store && m in ms :: !ActiveLike(store[id], m)
  }

  // Which memory is active after a stream, as the signals decide it.
  function Survivor(ms: seq<Memory>): (k: Option<nat>)
    ensures k.Some? ==> k.value < |ms|
  {
    if ms == [] then None
    else
      var last := |ms| - 1;
      match Survivor(ms[..last])
      case None => Some(last)
      case Some(k) =>
        if Weaker(SignalOf(ms[k]), SignalOf(ms[last])) then Some(last)
        else if Weaker(SignalOf(ms[last]), SignalOf(ms[k])) then Some(k)
        else None
  }

  // ---- One write ----

  lemma PairDecision(a: Memory, b: Memory)
    requires a.id != b.id
    ensures var d := DecideConflict([a, b]);
            && (Weaker(SignalOf(b), SignalOf(a)) ==> d.winner == Some(a.id))
            && (Weaker(SignalOf(a), SignalOf(b)) ==> d.winner == Some(b.id))
            && (SignalOf(a) == SignalOf(b) ==> d.winner == None && a.id in d.conflicted && b.id in d.conflicted)
  {
    assert a in [a, b] && b in [a, b];
    assert Ids([a, b]) == [a.id, b.id];
    DecisionMeaning([a, b], a);
    DecisionMeaning([a, b], b);
    SuccessorMeaning([a, b]);
    WeakerTotal(SignalOf(a), SignalOf(b));
    WeakerTotal(SignalOf(a), SignalOf(a));
    WeakerTotal(SignalOf(b), SignalOf(b));
  }

  // The outcome of meeting one active rival with another value.
  lemma PairPlan(m: Memory, c: Memory, now: int)
    requires Matching(m, [c]) && SingleValued(m) && Norm(c.value) != Norm(m.value)
    ensures var p := PlanOf(m, [c], now);
            && !p.merged && p.primary == m && p.clash && p.value == Norm(m.value) && p.key == m.key && p.now == now
            && p.decision == DecideConflict([Promote(m, m.key), Promote(c, m.key)])
  {
    assert WithValue([c], Norm(m.value), true) == [];
    assert WithValue([c], Norm(m.value), false) == [c];
    assert Promoted([m] + [c], m.key) == [Promote(m, m.key), Promote(c, m.key)];
  }

  lemma LonePlan(m: Memory, now: int)
    ensures var p := PlanOf(m, [], now); !p.merged && p.primary == m && !p.clash
  {
  }

  // The rows of the two rivals afterwards.
  lemma PairRows(m: Memory, c: Memory, now: int)
    requires Matching(m, [c]) && SingleValued(m) && m.status == Active && Norm(c.value) != Norm(m.value)
    ensures var p := PlanOf(m, [c], now);
            var added, row := PrimaryAfter(p), RowAfter(p, c);
            && Added(p) == Some(added)
            && (Weaker(SignalOf(c), SignalOf(m)) ==>
                  added.status == Active && SignalOf(added) == SignalOf(m)
                  && row.status == Superseded && row.supersededBy == Some(m.id))
            && (Weaker(SignalOf(m), SignalOf(c)) ==>
                  row.status == Active && SignalOf(row) == SignalOf(c)
                  && added.status == Superseded && added.supersededBy == Some(c.id))
            && (SignalOf(m) == SignalOf(c) ==> added.status == Conflicted && row.status == Conflicted)
  {
    assert c in [c];
    PairPlan(m, c, now);
    PromoteKeeps(m, m);
    PromoteKeeps(c, m);
    PairDecision(Promote(m, m.key), Promote(c, m.key));
    WeakerTotal(SignalOf(m), SignalOf(c));
  }

  // ---- The stream ----

  // The active memories of an identity after a stream: the survivor's row, and nothing else.
  ghost predicate LeavesOnly(after: Store, m: Memory) {
    && m.id in after && ActiveLike(after[m.id], m)
    && SignalOf(after[m.id]) == SignalOf(m) && Norm(after[m.id].value) == Norm(m.value)
    && forall id | id in after && ActiveLike(after[id], m) :: id == m.id
  }

  ghost predicate Leaves(after: Store, ms: seq<Memory>, probe: Memory) {
    && Keyed(after)
    && match Survivor(ms)
       case None => forall id | id in after :: !ActiveLike(after[id], probe)
       case Some(k) => LeavesOnly(after, ms[k])
  }

  // A write onto an identity without active memories.
  lemma LoneWrite(pre: Store, m: Memory, existing: seq<Memory>, now: int)
    requires CanWrite(pre, m, existing) && m.status == Active && m.key.Some?
    requires forall id | id in pre :: !ActiveLike(pre[id], m)
    ensures LeavesOnly(Written(pre, m, existing, now), m)
  {
    if existing != [] {
      MemberAt(existing, 0);
    }
    LonePlan(m, now);
  }

  lemma TheListing(pre: Store, m: Memory, existing: seq<Memory>, c: Memory)
    requires CanWrite(pre, m, existing) && SameIdentity(c, m) && LeavesOnly(pre, c)
    ensures existing == [pre[c.id]]
  {
    assert pre[c.id] in existing;
    forall x | x in existing ensures x == pre[c.id] {
      assert ActiveLike(pre[x.id], c);
    }
    DistinctIds(existing);
    AllSame(existing, pre[c.id]);
  }

  // A write against the one active rival.
  lemma PairWrite(pre: Store, m: Memory, existing: seq<Memory>, now: int, c: Memory)
    requires CanWrite(pre, m, existing) && m.status == Active && SingleValued(m)
    requires SameIdentity(c, m) && LeavesOnly(pre, c) && Norm(c.value) != Norm(m.value)
    ensures var after := Written(pre, m, existing, now);
            && (Weaker(SignalOf(c), SignalOf(m)) ==> LeavesOnly(after, m) && Retiree(after, c, m))
            && (Weaker(SignalOf(m), SignalOf(c)) ==> LeavesOnly(after, c) && Retiree(after, m, c))
            && (SignalOf(m) == SignalOf(c) ==> forall id | id in after :: !ActiveLike(after[id], m))
  {
    TheListing(pre, m, existing, c);
    PairOutcome(pre, m, pre[c.id], now, c);
  }

  // A memory retired in favour of a stronger one.
  ghost predicate Retiree(after: Store, a: Memory, b: Memory) {
    && a.id in after && after[a.id].status == Superseded && after[a.id].supersededBy == Some(b.id)
    && Weaker(SignalOf(a), SignalOf(b))
  }

  lemma PairStore(pre: Store, m: Memory, row: Memory, now: int)
    requires CanWrite(pre, m, [row]) && Added(PlanOf(m, [row], now)).Some?
    ensures var p := PlanOf(m, [row], now);
            Written(pre, m, [row], now) == pre[row.id := RowAfter(p, row)][m.id := Added(p).value]
  {
    assert row in [row];
    forall id | id in pre ensures pre[id] in [row] <==> id == row.id {}
  }

  // Replacing the rival's row and adding the new one.
  lemma NewRival(pre: Store, c: Memory, m: Memory, row: Memory, added: Memory)
    requires LeavesOnly(pre, c) && SameIdentity(c, m) && m.id !in pre
    requires added.id == m.id && row.status != Active
    requires added.status == Active && SameIdentity(added, m) && SignalOf(added) == SignalOf(m)
             && Norm(added.value) == Norm(m.value)
    ensures LeavesOnly(pre[c.id := row][m.id := added], m)
  {
  }

  lemma OldRival(pre: Store, c: Memory, m: Memory, row: Memory, added: Memory)
    requires LeavesOnly(pre, c) && SameIdentity(c, m) && m.id !in pre
    requires added.status != Active
    requires row.status == Active && SameIdentity(row, c) && SignalOf(row) == SignalOf(c)
             && Norm(row.value) == Norm(c.value)
    ensures LeavesOnly(pre[c.id := row][m.id := added], c)
  {
  }

  lemma NoRival(pre: Store, c: Memory, m: Memory, row: Memory, added: Memory)
    requires LeavesOnly(pre, c) && SameIdentity(c, m) && m.id !in pre
    requires added.status != Active && row.status != Active
    ensures var after := pre[c.id := row][m.id := added]; forall id | id in after :: !ActiveLike(after[id], m)
  {
  }

  lemma PairOutcome(pre: Store, m: Memory, row: Memory, now: int, c: Memory)
    requires CanWrite(pre, m, [row]) && m.status == Active && SingleValued(m)
    requires SameIdentity(c, m) && LeavesOnly(pre, c) && row == pre[c.id] && Norm(c.value) != Norm(m.value)
    ensures var after := Written(pre, m, [row], now);
            && (Weaker(SignalOf(c), SignalOf(m)) ==> LeavesOnly(after, m) && Retiree(after, c, m))
            && (Weaker(SignalOf(m), SignalOf(c)) ==> LeavesOnly(after, c) && Retiree(after, m, c))
            && (SignalOf(m) == SignalOf(c) ==> forall id | id in after :: !ActiveLike(after[id], m))
  {
    assert row in [row];
    PairRows(m, row, now);
    PairStore(pre, m, row, now);
    RowKeeps(m, [row], now, row);
    PrimaryKeeps(m, [row], now);
    PrimaryIs(m, [row], now);
    var p := PlanOf(m, [row], now);
    PairCases(pre, m, c, row, RowAfter(p, row), PrimaryAfter(p));
  }

  lemma PairCases(pre: Store, m: Memory, c: Memory, row: Memory, r: Memory, a: Memory)
    requires LeavesOnly(pre, c) && SameIdentity(c, m) && m.id !in pre && c.id != m.id
    requires SignalOf(row) == SignalOf(c)
    requires r.id == c.id && a.id == m.id && SameIdentity(r, m) && SameIdentity(a, m)
    requires Norm(r.value) == Norm(c.value) && Norm(a.value) == Norm(m.value)
    requires Weaker(SignalOf(row), SignalOf(m)) ==>
               a.status == Active && SignalOf(a) == SignalOf(m) && r.status == Superseded
                   && r.supersededBy == Some(m.id)
    requires Weaker(SignalOf(m), SignalOf(row)) ==>
               r.status == Active && SignalOf(r) == SignalOf(row) && a.status == Superseded
                   && a.supersededBy == Some(c.id)
    requires SignalOf(m) == SignalOf(row) ==> a.status == Conflicted && r.status == Conflicted
    ensures var after := pre[c.id := r][m.id := a];
            && (Weaker(SignalOf(c), SignalOf(m)) ==> LeavesOnly(after, m) && Retiree(after, c, m))
            && (Weaker(SignalOf(m), SignalOf(c)) ==> LeavesOnly(after, c) && Retiree(after, m, c))
            && (SignalOf(m) == SignalOf(c) ==> forall id | id in after :: !ActiveLike(after[id], m))
  {
    if Weaker(SignalOf(c), SignalOf(m)) { NewRival(pre, c, m, r, a); }
    if Weaker(SignalOf(m), SignalOf(c)) { OldRival(pre, c, m, r, a); }
    if SignalOf(m) == SignalOf(c) { NoRival(pre, c, m, r, a); }
  }

  // One write of a stream.
  lemma StreamStep(pre: Store, ms: seq<Memory>, choice: Choice)
    requires ms != [] && Rivals(ms)
    requires var last := |ms| - 1; CanWrite(pre, ms[last], choice.existing) && Leaves(pre, ms[..last], ms[last])
    ensures Leaves(Written(pre, ms[|ms| - 1], choice.existing, choice.now), ms, ms[|ms| - 1])
  {
    var last := |ms| - 1;
    var m := ms[last];
    WriteKeyed(pre, m, choice.existing, choice.now);
    match Survivor(ms[..last])
    case None => LoneWrite(pre, m, choice.existing, choice.now);
    case Some(k) =>
      WeakerTotal(SignalOf(m), SignalOf(ms[k]));
      PairWrite(pre, m, choice.existing, choice.now, ms[k]);
  }

  lemma RivalsPrefix(ms: seq<Memory>, n: nat)
    requires Rivals(ms) && n <= |ms|
    ensures Rivals(ms[..n])
  {
    assert Ids(ms[..n]) == Ids(ms)[..n];
  }

  lemma LeavesElsewhere(after: Store, ms: seq<Memory>, a: Memory, b: Memory)
    requires Leaves(after, ms, a) && SameIdentity(a, b)
    ensures Leaves(after, ms, b)
  {
  }

  // Streaming rivals leaves the survivor active, as it was written, and no other memory of its identity.
  lemma {:induction false} StreamLeaves(store: Store, ms: seq<Memory>, choices: seq<Choice>, probe: Memory)
    requires |ms| == |choices| && Rivals(ms) && Streams(store, ms, choices)
    requires Keyed(store) && (forall id | id in store :: !ActiveLike(store[id], probe))
    requires forall m | m in ms :: SameIdentity(m, probe)
    ensures Leaves(Streamed(store, ms, choices), ms, probe)
    decreases |ms|
  {
    if ms != [] {
      var last := |ms| - 1;
      RivalsPrefix(ms, last);
      StreamLeaves(store, ms[..last], choices[..last], probe);
      var pre := Streamed(store, ms[..last], choices[..last]);
      MemberAt(ms, last);
      LeavesElsewhere(pre, ms[..last], probe, ms[last]);
      StreamStep(pre, ms, choices[last]);
      LeavesElsewhere(Streamed(store, ms, choices), ms, ms[last], probe);
    }
  }

  // ---- Against the batch ----

  lemma BeatsPrefix(ms: seq<Memory>, n: nat, w: Memory)
    requires n <= |ms| && Beats(ms, w)
    ensures Beats(ms[..n], w)
  {
  }

  // A memory that beats all the others survives whatever happened before it was written.
  lemma {:induction false} BestSurvives(ms: seq<Memory>, k: nat)
    requires k < |ms| && Distinct(Ids(ms)) && Beats(ms, ms[k])
    ensures Survivor(ms) == Some(k)
    decreases |ms|
  {
    var last := |ms| - 1;
    if k < last {
      BeatsPrefix(ms, last, ms[k]);
      assert Ids(ms[..last]) == Ids(ms)[..last];
      BestSurvives(ms[..last], k);
      assert Ids(ms)[k] != Ids(ms)[last];
      WeakerTotal(SignalOf(ms[k]), SignalOf(ms[last]));
    } else if Survivor(ms[..last]).Some? {
      var j := Survivor(ms[..last]).value;
      assert Ids(ms)[j] != Ids(ms)[k];
      assert ms[j] in ms;
    }
  }

  // ---- When there is no strongest rival ----

  // The memories after the last one with the given signal.
  function AfterLast(ms: seq<Memory>, top: Signal): (r: seq<Memory>)
    ensures |r| <= |ms| && r == ms[|ms| - |r|..]
  {
    if ms == [] || SignalOf(ms[|ms| - 1]) == top then []
    else AfterLast(ms[..|ms| - 1], top) + [ms[|ms| - 1]]
  }

  lemma {:induction false} AfterLastMeaning(ms: seq<Memory>, top: Signal)
    ensures forall m | m in AfterLast(ms, top) :: m in ms && SignalOf(m) != top
    ensures |AfterLast(ms, top)| == |ms| <==> WithSignal(ms, top) == []
  {
    if ms != [] {
      var last := |ms| - 1;
      assert ms == ms[..last] + [ms[last]];
      WithSignalSnoc(ms[..last], ms[last], top);
      if SignalOf(ms[last]) != top { AfterLastMeaning(ms[..last], top); }
    }
  }

  lemma {:induction false} WithSignalSnoc(ms: seq<Memory>, m: Memory, top: Signal)
    ensures WithSignal(ms + [m], top) == WithSignal(ms, top) + if SignalOf(m) == top then [m] else []
  {
    if ms == [] {
      assert [] + [m] == [m] && [m][1..] == [];
    } else {
      WithSignalSnoc(ms[1..], m, top);
      assert (ms + [m])[1..] == ms[1..] + [m];
    }
  }

  // Whether a stream leaves nothing active: the strongest are even in number, and so, again and again,
  // are the strongest of those that come after the last of them.
  predicate EndsEmpty(ms: seq<Memory>)
    decreases |ms|
  {
    if ms == [] then true
    else
      SomeTied(ms);
      AfterLastMeaning(ms, TopSignal(ms));
      |Tied(ms)| % 2 == 0 && EndsEmpty(AfterLast(ms, TopSignal(ms)))
  }

  function TopSignal(ms: seq<Memory>): Signal
    requires ms != []
  {
    SignalOf(Strongest(ms))
  }

  function Shifted(k: Option<nat>, offset: nat): Option<nat> {
    match k case None => None case Some(i) => Some(i + offset)
  }

  // What the next memory makes of the survivor of the front.
  function Met(front: seq<Memory>, k: Option<nat>, x: Memory): Option<nat>
    requires k.Some? ==> k.value < |front|
  {
    match k
    case None => Some(|front|)
    case Some(k) =>
      if Weaker(SignalOf(front[k]), SignalOf(x)) then Some(|front|)
      else if Weaker(SignalOf(x), SignalOf(front[k])) then Some(k)
      else None
  }

  lemma SurvivorSnoc(front: seq<Memory>, x: Memory)
    ensures Survivor(front + [x]) == Met(front, Survivor(front), x)
  {
    assert (front + [x])[..|front|] == front;
  }

  lemma MetShifted(front: seq<Memory>, rest: seq<Memory>, k: Option<nat>, x: Memory)
    requires |rest| <= |front| && rest == front[|front| - |rest|..] && (k.Some? ==> k.value < |rest|)
    ensures Met(front, Shifted(k, |front| - |rest|), x) == Shifted(Met(rest, k, x), |front| - |rest|)
  {
  }

  // A signal that no memory exceeds: an odd number of its holders leaves one of them, an even number
  // cancels out, and the stream starts anew behind the last of them.
  ghost predicate ByTop(ms: seq<Memory>, top: Signal) {
    var rest := AfterLast(ms, top);
    if |WithSignal(ms, top)| % 2 == 0
    then Survivor(ms) == Shifted(Survivor(rest), |ms| - |rest|)
    else Survivor(ms).Some? && SignalOf(ms[Survivor(ms).value]) == top
  }

  lemma {:induction false} SurvivorByTop(ms: seq<Memory>, top: Signal)
    requires forall m | m in ms :: !Weaker(top, SignalOf(m))
    ensures ByTop(ms, top)
    decreases |ms|
  {
    if ms != [] {
      var last := |ms| - 1;
      var front, x := ms[..last], ms[last];
      assert ms == front + [x];
      assert x in ms && forall m | m in front :: m in ms;
      SurvivorByTop(front, top);
      NextByTop(front, x, top);
    }
  }

  lemma NextByTop(front: seq<Memory>, x: Memory, top: Signal)
    requires ByTop(front, top) && !Weaker(top, SignalOf(x)) && forall m | m in front :: !Weaker(top, SignalOf(m))
    ensures ByTop(front + [x], top)
  {
    RestIsWeaker(front, top);
    WeakerTotal(SignalOf(x), top);
    if SignalOf(x) == top { TopArrives(front, x, top); } else { WeakerArrives(front, x, top); }
  }

  lemma RestIsWeaker(ms: seq<Memory>, top: Signal)
    requires forall m | m in ms :: !Weaker(top, SignalOf(m))
    ensures forall m | m in AfterLast(ms, top) :: Weaker(SignalOf(m), top)
  {
    AfterLastMeaning(ms, top);
    forall m | m in AfterLast(ms, top) ensures Weaker(SignalOf(m), top) {
      WeakerTotal(SignalOf(m), top);
    }
  }

  lemma TopArrives(front: seq<Memory>, x: Memory, top: Signal)
    requires ByTop(front, top) && SignalOf(x) == top
    requires forall m | m in AfterLast(front, top) :: Weaker(SignalOf(m), top)
    ensures ByTop(front + [x], top)
  {
    if |WithSignal(front, top)| % 2 == 0 {
      EvenLeavesWeaker(front, top);
      LastWins(front, x);
    } else {
      LastTies(front, x);
    }
    NothingAfter(front, x);
    WithSignalSnoc(front, x, top);
    OneMoreHolder(WithSignal(front, top), x);
  }

  lemma OneMoreHolder(holders: seq<Memory>, x: Memory)
    ensures |holders + [x]| % 2 == 0 <==> |holders| % 2 == 1
  {
  }

  lemma NothingAfter(front: seq<Memory>, x: Memory)
    ensures AfterLast(front + [x], SignalOf(x)) == [] && Survivor([]) == None
  {
  }

  lemma LastWins(front: seq<Memory>, x: Memory)
    requires Survivor(front).Some? ==> Weaker(SignalOf(front[Survivor(front).value]), SignalOf(x))
    ensures Survivor(front + [x]) == Some(|front|)
  {
    SurvivorSnoc(front, x);
  }

  lemma LastTies(front: seq<Memory>, x: Memory)
    requires Survivor(front).Some? && SignalOf(front[Survivor(front).value]) == SignalOf(x)
    ensures Survivor(front + [x]) == None
  {
    SurvivorSnoc(front, x);
    WeakerTotal(SignalOf(x), SignalOf(x));
  }

  lemma EvenLeavesWeaker(ms: seq<Memory>, top: Signal)
    requires ByTop(ms, top) && |WithSignal(ms, top)| % 2 == 0
    requires forall m | m in AfterLast(ms, top) :: Weaker(SignalOf(m), top)
    ensures Survivor(ms).Some? ==> Weaker(SignalOf(ms[Survivor(ms).value]), top)
  {
    var rest := AfterLast(ms, top);
    if Survivor(rest).Some? {
      SuffixAt(ms, rest, Survivor(rest).value);
    }
  }

  lemma SuffixAt(ms: seq<Memory>, rest: seq<Memory>, k: nat)
    requires |rest| <= |ms| && rest == ms[|ms| - |rest|..] && k < |rest|
    ensures ms[k + (|ms| - |rest|)] == rest[k] && rest[k] in rest
  {
  }

  lemma WeakerArrives(front: seq<Memory>, x: Memory, top: Signal)
    requires ByTop(front, top) && SignalOf(x) != top && Weaker(SignalOf(x), top)
    ensures ByTop(front + [x], top)
  {
    SurvivorSnoc(front, x);
    WithSignalSnoc(front, x, top);
    WeakerTotal(SignalOf(x), top);
    var rest := AfterLast(front, top);
    assert (front + [x])[..|front|] == front;
    SurvivorSnoc(rest, x);
    MetShifted(front, rest, Survivor(rest), x);
  }

  lemma {:induction false} EndsEmptyIff(ms: seq<Memory>)
    ensures Survivor(ms).None? <==> EndsEmpty(ms)
    decreases |ms|
  {
    if ms != [] {
      var top := TopSignal(ms);
      SomeTied(ms);
      AfterLastMeaning(ms, top);
      StrongestIsMax(ms);
      SurvivorByTop(ms, top);
      EndsEmptyIff(AfterLast(ms, top));
    }
  }

  ghost predicate Agree(ms: seq<Memory>) {
    match Survivor(ms)
    case None => DecideConflict(ms).winner == None
    case Some(k) => DecideConflict(ms).winner == Some(ms[k].id)
  }

  // The batch names a winner exactly when one candidate alone is the strongest.
  lemma WinnerIff(ms: seq<Memory>)
    requires ms != []
    ensures DecideConflict(ms).winner.Some? <==> |Tied(ms)| == 1
  {
    if |ms| == 1 {
      assert ms[..0] + [ms[0]] == ms && Strongest(ms) == ms[0];
      WithSignalSnoc([], ms[0], TopSignal(ms));
      assert [] + [ms[0]] == ms;
    }
  }

  // Streaming and batch agree exactly when one rival alone is the strongest, or the strongest are even
  // in number and what comes after the last of them leaves nothing active either.
  lemma AgreeIff(ms: seq<Memory>)
    requires Distinct(Ids(ms))
    ensures Agree(ms) <==> ms == [] || |Tied(ms)| == 1 || EndsEmpty(ms)
  {
    EndsEmptyIff(ms);
    if ms != [] {
      WinnerIff(ms);
      if |Tied(ms)| == 1 { WinnerSurvives(ms); }
    }
  }

  // Whenever the batch names a winner, streaming leaves it.
  lemma WinnerSurvives(ms: seq<Memory>)
    requires Distinct(Ids(ms)) && ms != [] && DecideConflict(ms).winner.Some?
    ensures Agree(ms)
  {
    SuccessorMeaning(ms);
    var w :| w in ms && w.id == DecideConflict(ms).winner.value;
    DecisionMeaning(ms, w);
    var k :| 0 <= k < |ms| && ms[k] == w;
    BestSurvives(ms, k);
  }

  // The active memories of the identity are the batch's winner, or none if it has none.
  ghost predicate StoreAgrees(after: Store, ms: seq<Memory>)
    requires ms != []
  {
    forall id :: id in after && ActiveLike(after[id], ms[0]) <==> DecideConflict(ms).winner == Some(id)
  }

  lemma StoreAgreesIff(store: Store, ms: seq<Memory>, choices: seq<Choice>)
    requires |ms| == |choices| > 0 && Rivals(ms) && Streams(store, ms, choices) && Unclaimed(store, ms)
    ensures StoreAgrees(Streamed(store, ms, choices), ms) <==> |Tied(ms)| == 1 || EndsEmpty(ms)
  {
    AgreeIff(ms);
    SameAsFirst(ms);
    MemberAt(ms, 0);
    StreamLeaves(store, ms, choices, ms[0]);
    LeftAgrees(Streamed(store, ms, choices), ms);
  }

  lemma SameAsFirst(ms: seq<Memory>)
    requires ms != [] && Rivals(ms)
    ensures forall m | m in ms :: SameIdentity(m, ms[0])
  {
    forall m | m in ms ensures SameIdentity(m, ms[0]) {
      var i :| 0 <= i < |ms| && ms[i] == m;
      assert SameIdentity(ms[i], ms[0]);
    }
  }

  lemma LeftAgrees(after: Store, ms: seq<Memory>)
    requires ms != [] && Rivals(ms) && Leaves(after, ms, ms[0])
    ensures StoreAgrees(after, ms) <==> Agree(ms)
  {
    match Survivor(ms)
    case None =>
      if DecideConflict(ms).winner.Some? {
        var id := DecideConflict(ms).winner.value;
        assert !(id in after && ActiveLike(after[id], ms[0]));
      }
    case Some(k) =>
      MemberAt(ms, k);
      SameAsFirst(ms);
      assert SameIdentity(ms[k], ms[0]);
      forall id ensures id in after && ActiveLike(after[id], ms[0]) <==> id == ms[k].id {}
  }

  // The whole claim: if the batch decision over all the rivals names a winner, writing them one at
  // a time in any order leaves exactly that memory active.
  lemma StreamingEqualsBatch(store: Store, ms: seq<Memory>, choices: seq<Choice>, w: Memory)
    requires |ms| == |choices| && Rivals(ms) && Streams(store, ms, choices) && Unclaimed(store, ms)
    requires w in ms && DecideConflict(ms).winner == Some(w.id)
    ensures LeavesOnly(Streamed(store, ms, choices), w)
  {
    DecisionMeaning(ms, w);
    var k :| 0 <= k < |ms| && ms[k] == w;
    forall m | m in ms ensures SameIdentity(m, w) {
      var i :| 0 <= i < |ms| && ms[i] == m;
      assert SameIdentity(ms[i], ms[k]);
    }
    BestSurvives(ms, k);
    StreamLeaves(store, ms, choices, w);
  }

  // Two tied memories end conflicted, so a third, weaker one is active afterwards, although the
  // batch decision over the three is uncertain.
  lemma TieThenWeaker(a: Memory, b: Memory, c: Memory)
    requires Distinct([a.id, b.id, c.id])
    requires SignalOf(a) == SignalOf(b) && Weaker(SignalOf(c), SignalOf(a))
    ensures Survivor([a, b, c]) == Some(2) && DecideConflict([a, b, c]).winner == None
  {
    var ms := [a, b, c];
    assert Ids(ms) == [a.id, b.id, c.id];
    assert ms[..2] == [a, b] && ms[..2][..1] == [a];
    assert Survivor([a]) == Some(0) by { assert [a][..0] == []; }
    WeakerTotal(SignalOf(a), SignalOf(b));
    assert Survivor([a, b]) == None;
    assert Ids(ms)[0] != Ids(ms)[1];
    NoWinner(ms, a, b);
  }

  lemma NoWinner(ms: seq<Memory>, a: Memory, b: Memory)
    requires Distinct(Ids(ms)) && a in ms && b in ms && a != b && SignalOf(a) == SignalOf(b)
    requires forall m | m in ms :: !Weaker(SignalOf(a), SignalOf(m))
    ensures DecideConflict(ms).winner == None
  {
    SuccessorMeaning(ms);
    if DecideConflict(ms).winner.Some? {
      var w :| w in ms && w.id == DecideConflict(ms).winner.value;
      DecisionMeaning(ms, w);
      WeakerTotal(SignalOf(a), SignalOf(a));
    }
  }

  // ---- Lineage of the losers ----

  ghost predicate PairwiseDifferent(ms: seq<Memory>) {
    forall i, j | 0 <= i < j < |ms| :: SignalOf(ms[i]) != SignalOf(ms[j])
  }

  lemma {:induction false} SomeoneSurvives(ms: seq<Memory>)
    requires ms != [] && PairwiseDifferent(ms)
    ensures Survivor(ms).Some? && Beats(ms, ms[Survivor(ms).value])
    decreases |ms|
  {
    var last := |ms| - 1;
    if last > 0 {
      SomeoneSurvives(ms[..last]);
      var k := Survivor(ms[..last]).value;
      WeakerTotal(SignalOf(ms[k]), SignalOf(ms[last]));
      forall x | x in ms && x != ms[Survivor(ms).value]
        ensures Weaker(SignalOf(x), SignalOf(ms[Survivor(ms).value]))
      {
        assert x in ms[..last] || x == ms[last];
        if x in ms[..last] && x != ms[k] && Survivor(ms).value == last {
          WeakerTransitive(SignalOf(x), SignalOf(ms[k]), SignalOf(ms[last]));
        }
      }
    }
  }

  ghost predicate Climbs(after: Store, ms: seq<Memory>, path: seq<nat>) {
    && (forall t | 0 <= t < |path| :: path[t] < |ms|)
    && forall t | 0 <= t < |path| - 1 :: Retiree(after, ms[path[t]], ms[path[t + 1]])
  }

  // A write leaves alone every row that is not active.
  lemma RetireeStays(pre: Store, m: Memory, existing: seq<Memory>, now: int, a: Memory, b: Memory)
    requires CanWrite(pre, m, existing) && Retiree(pre, a, b)
    ensures Retiree(Written(pre, m, existing, now), a, b)
  {
    assert pre[a.id] !in existing;
  }

  lemma ClimbsStays(pre: Store, m: Memory, existing: seq<Memory>, now: int, ms: seq<Memory>, more: seq<Memory>,
                    path: seq<nat>)
    requires CanWrite(pre, m, existing) && Climbs(pre, ms, path) && ms <= more
    ensures Climbs(Written(pre, m, existing, now), more, path)
  {
    forall t | 0 <= t < |path| - 1
      ensures Retiree(Written(pre, m, existing, now), more[path[t]], more[path[t + 1]])
    {
      RetireeStays(pre, m, existing, now, ms[path[t]], ms[path[t + 1]]);
    }
  }

  // Before the last write, the survivor of the earlier ones is what the last one meets.
  lemma FrontLeaves(store: Store, ms: seq<Memory>, choices: seq<Choice>)
    requires |ms| == |choices| > 0 && Rivals(ms) && Streams(store, ms, choices) && Unclaimed(store, ms)
    ensures var last := |ms| - 1;
            Leaves(Streamed(store, ms[..last], choices[..last]), ms[..last], ms[last])
  {
    var last := |ms| - 1;
    RivalsPrefix(ms, last);
    forall x | x in ms[..last] ensures SameIdentity(x, ms[last]) {
      var i :| 0 <= i < last && ms[i] == x;
      assert SameIdentity(ms[i], ms[last]);
    }
    MemberAt(ms, last);
    StreamLeaves(store, ms[..last], choices[..last], ms[last]);
  }

  // The last write: who is retired in favour of whom.
  lemma LastRetiree(store: Store, ms: seq<Memory>, choices: seq<Choice>)
    requires |ms| == |choices| > 1 && Rivals(ms) && PairwiseDifferent(ms) && Streams(store, ms, choices)
    requires Unclaimed(store, ms)
    ensures Survivor(ms).Some? && Survivor(ms[..|ms| - 1]).Some?
    ensures Succession(Streamed(store, ms, choices), ms, Survivor(ms[..|ms| - 1]).value, Survivor(ms).value)
  {
    var last := |ms| - 1;
    SomeoneSurvives(ms[..last]);
    FrontLeaves(store, ms, choices);
    var k := Survivor(ms[..last]).value;
    WeakerTotal(SignalOf(ms[k]), SignalOf(ms[last]));
    PairWrite(Streamed(store, ms[..last], choices[..last]), ms[last], choices[last].existing, choices[last].now, ms[k]);
  }

  // The last memory takes over from the earlier survivor, or is retired in its favour.
  ghost predicate Succession(after: Store, ms: seq<Memory>, earlier: nat, now: nat)
    requires earlier < |ms| && now < |ms|
  {
    var last := |ms| - 1;
    (now == last && Retiree(after, ms[earlier], ms[last])) || (now == earlier && Retiree(after, ms[last], ms[earlier]))
  }

  // From every rival, superseded-by links climb strictly in signal to the survivor.
  lemma {:induction false} LosersClimb(store: Store, ms: seq<Memory>, choices: seq<Choice>, i: nat)
    returns (path: seq<nat>)
    requires |ms| == |choices| && Rivals(ms) && PairwiseDifferent(ms) && Streams(store, ms, choices)
    requires Unclaimed(store, ms) && i < |ms|
    ensures Survivor(ms).Some? && Leads(Streamed(store, ms, choices), ms, path, i, Survivor(ms).value)
    decreases |ms|
  {
    var last := |ms| - 1;
    if i < last {
      FrontReady(store, ms, choices, last);
      var earlier := LosersClimb(store, ms[..last], choices[..last], i);
      path := ClimbOn(store, ms, choices, i, earlier);
    } else {
      path := ClimbOn(store, ms, choices, i, []);
    }
  }

  // What held of the whole stream holds of all but its last write.
  lemma FrontReady(store: Store, ms: seq<Memory>, choices: seq<Choice>, last: nat)
    requires |ms| == |choices| == last + 1 && Rivals(ms) && PairwiseDifferent(ms) && Streams(store, ms, choices)
    requires Unclaimed(store, ms)
    ensures Rivals(ms[..last]) && PairwiseDifferent(ms[..last]) && Streams(store, ms[..last], choices[..last])
    ensures Unclaimed(store, ms[..last])
  {
    RivalsPrefix(ms, last);
    DifferentPrefix(ms, last);
    StreamsPrefix(store, ms, choices, last);
    UnclaimedPrefix(store, ms, last);
  }

  lemma DifferentPrefix(ms: seq<Memory>, n: nat)
    requires PairwiseDifferent(ms) && n <= |ms|
    ensures PairwiseDifferent(ms[..n])
  {
  }

  lemma StreamsPrefix(store: Store, ms: seq<Memory>, choices: seq<Choice>, last: nat)
    requires |ms| == |choices| == last + 1 && Streams(store, ms, choices)
    ensures Streams(store, ms[..last], choices[..last])
  {
  }

  lemma UnclaimedPrefix(store: Store, ms: seq<Memory>, n: nat)
    requires Unclaimed(store, ms) && n <= |ms|
    ensures Unclaimed(store, ms[..n])
  {
    forall id, m | id in store && m in ms[..n] ensures !ActiveLike(store[id], m) {
      assert m in ms;
    }
  }

  // The path after the last write.
  lemma ClimbOn(store: Store, ms: seq<Memory>, choices: seq<Choice>, i: nat, earlier: seq<nat>) returns (path: seq<nat>)
    requires |ms| == |choices| && Rivals(ms) && PairwiseDifferent(ms) && Streams(store, ms, choices)
    requires Unclaimed(store, ms) && i < |ms|
    requires var last := |ms| - 1;
             i < last ==> Survivor(ms[..last]).Some? && Leads(Streamed(store, ms[..last], choices[..last]), ms[..last],
                                                              earlier, i, Survivor(ms[..last]).value)
    ensures Survivor(ms).Some? && Leads(Streamed(store, ms, choices), ms, path, i, Survivor(ms).value)
  {
    var last := |ms| - 1;
    if last == 0 {
      path := [0];
    } else {
      LastRetiree(store, ms, choices);
      if i == last {
        path := ShortPath(Streamed(store, ms, choices), ms, Survivor(ms[..last]).value, Survivor(ms).value);
      } else {
        path := Extended(Streamed(store, ms[..last], choices[..last]), ms, choices[last], i, earlier,
                         Survivor(ms[..last]).value, Survivor(ms).value);
      }
    }
  }

  lemma ShortPath(after: Store, ms: seq<Memory>, earlier: nat, now: nat) returns (path: seq<nat>)
    requires earlier < |ms| && now < |ms| && Succession(after, ms, earlier, now)
    ensures Leads(after, ms, path, |ms| - 1, now)
  {
    path := if now == |ms| - 1 then [now] else [|ms| - 1, now];
  }

  ghost predicate Leads(after: Store, ms: seq<Memory>, path: seq<nat>, i: nat, k: nat) {
    path != [] && path[0] == i && path[|path| - 1] == k && Climbs(after, ms, path)
  }

  // A path to the earlier survivor goes on to the new one.
  lemma Extended(pre: Store, ms: seq<Memory>, choice: Choice, i: nat, path: seq<nat>, earlier: nat, now: nat)
    returns (longer: seq<nat>)
    requires ms != [] && CanWrite(pre, ms[|ms| - 1], choice.existing) && earlier < |ms| && now < |ms|
    requires Leads(pre, ms[..|ms| - 1], path, i, earlier)
    requires Succession(Written(pre, ms[|ms| - 1], choice.existing, choice.now), ms, earlier, now)
    ensures Leads(Written(pre, ms[|ms| - 1], choice.existing, choice.now), ms, longer, i, now)
  {
    var m := ms[|ms| - 1];
    LeadsStays(pre, m, choice, ms[..|ms| - 1], ms, path, i, earlier);
    longer := LongerPath(Written(pre, m, choice.existing, choice.now), ms, i, path, earlier, now);
  }

  lemma LeadsStays(pre: Store, m: Memory, choice: Choice, ms: seq<Memory>, more: seq<Memory>, path: seq<nat>,
                   i: nat, k: nat)
    requires CanWrite(pre, m, choice.existing) && ms <= more && Leads(pre, ms, path, i, k)
    ensures Leads(Written(pre, m, choice.existing, choice.now), more, path, i, k)
  {
    ClimbsStays(pre, m, choice.existing, choice.now, ms, more, path);
  }

  lemma LongerPath(after: Store, ms: seq<Memory>, i: nat, path: seq<nat>, earlier: nat, now: nat)
    returns (longer: seq<nat>)
    requires ms != [] && earlier < |ms| && now < |ms| && Leads(after, ms, path, i, earlier)
    requires Succession(after, ms, earlier, now)
    ensures Leads(after, ms, longer, i, now)
  {
    if now == earlier {
      longer := path;
    } else {
      longer := path + [|ms| - 1];
      OneMore(after, ms, path, |ms| - 1);
    }
  }

  lemma OneMore(after: Store, ms: seq<Memory>, path: seq<nat>, next: nat)
    requires path != [] && Climbs(after, ms, path) && next < |ms|
    requires Retiree(after, ms[path[|path| - 1]], ms[next])
    ensures Climbs(after, ms, path + [next])
  {
  }

  ghost predicate Reaches(after: Store, ms: seq<Memory>, i: nat, k: nat) {
    exists path :: Leads(after, ms, path, i, k)
  }

  // Streaming and batch together: with pairwise different signals the batch's winner is the survivor,
  // it alone is active in the end, and the links of every loser climb to it.
  lemma StreamedWinner(store: Store, ms: seq<Memory>, choices: seq<Choice>)
    requires |ms| == |choices| > 0 && Rivals(ms) && PairwiseDifferent(ms) && Streams(store, ms, choices)
    requires Unclaimed(store, ms)
    ensures Survivor(ms).Some?
    ensures var k, after := Survivor(ms).value, Streamed(store, ms, choices);
            && DecideConflict(ms).winner == Some(ms[k].id) && LeavesOnly(after, ms[k])
            && forall i | 0 <= i < |ms| :: Reaches(after, ms, i, k)
  {
    SomeoneSurvives(ms);
    var k := Survivor(ms).value;
    DecisionMeaning(ms, ms[k]);
    StreamingEqualsBatch(store, ms, choices, ms[k]);
    forall i | 0 <= i < |ms| ensures Reaches(Streamed(store, ms, choices), ms, i, k) {
      var path := LosersClimb(store, ms, choices, i);
    }
  }
}
