/** An administrator settles an open conflict: every loser is planned before any is retired. */
module Adjudication {
  import opened Prelude
  import opened Ordering
  import opened Memory
  import opened ConflictPolicy
  import opened MemoryStore
  import opened Lineage
  import opened Repository
  import opened ConflictTable
  import L = Lifecycle

  datatype Action = MarkFalsePositive | ApplySuggested | ChooseWinner(winner: string)

  datatype Refusal =
    | UnknownConflict        // 404
    | AlreadyResolved        // 409
    | UncertainConflict      // 409: nothing tells the members apart
    | WinnerRequired         // 400
    | WinnerNotMember        // 400
    | WinnerElsewhere        // 400: gone, or in another workspace
    | LoserNotRetirable      // 400: some loser cannot become superseded

  // ---- Members and losers ----

  // The members that still exist and are not superseded, in the order of the record.
  function Standing(rows: Store, ids: seq<string>): seq<Memory> {
    if ids == [] then []
    else
      var last := |ids| - 1;
      Standing(rows, ids[..last])
      + if ids[last] in rows && rows[ids[last]].status != Superseded then [rows[ids[last]]] else []
  }

  function Losers(rows: Store, ids: seq<string>, winner: string): seq<string> {
    if ids == [] then []
    else
      var last := |ids| - 1;
      Losers(rows, ids[..last], winner)
      + if ids[last] != winner && ids[last] in rows && rows[ids[last]].status != Superseded then [ids[last]] else []
  }

  lemma {:induction false} LoserMeaning(rows: Store, ids: seq<string>, winner: string, id: string)
    ensures id in Losers(rows, ids, winner)
            <==> id in ids && id != winner && id in rows && rows[id].status != Superseded
  {
    if ids != [] {
      var last := |ids| - 1;
      LoserMeaning(rows, ids[..last], winner, id);
      assert ids == ids[..last] + [ids[last]];
    }
  }

  lemma {:induction false} LosersDistinct(rows: Store, ids: seq<string>, winner: string)
    requires Distinct(ids)
    ensures Distinct(Losers(rows, ids, winner))
  {
    if ids != [] {
      var last := |ids| - 1;
      LosersDistinct(rows, ids[..last], winner);
      LoserMeaning(rows, ids[..last], winner, ids[last]);
    }
  }

  lemma {:induction false} StandingMeaning(rows: Store, ids: seq<string>, m: Memory)
    requires Keyed(rows)
    ensures m in Standing(rows, ids) <==> m.id in ids && m.id in rows && rows[m.id] == m && m.status != Superseded
  {
    if ids != [] {
      var last := |ids| - 1;
      StandingMeaning(rows, ids[..last], m);
      assert ids == ids[..last] + [ids[last]];
    }
  }

  lemma {:induction false} StandingDistinct(rows: Store, ids: seq<string>)
    requires Keyed(rows) && Distinct(ids)
    ensures Distinct(Ids(Standing(rows, ids)))
  {
    if ids != [] {
      var last := |ids| - 1;
      StandingDistinct(rows, ids[..last]);
      var front := Standing(rows, ids[..last]);
      forall i | 0 <= i < |front| ensures Ids(front)[i] != ids[last] {
        StandingMeaning(rows, ids[..last], front[i]);
      }
      if ids[last] in rows && rows[ids[last]].status != Superseded {
        assert Ids(front + [rows[ids[last]]]) == Ids(front) + [ids[last]];
      } else {
        assert front + [] == front;
      }
    }
  }

  predicate Retirable(rows: Store, ids: seq<string>) {
    forall id | id in ids :: id in rows && rows[id].status in {Active, Conflicted}
  }

  // ---- Deciding ----

  function WinnerOf(rows: Store, record: ConflictRecord, action: Action): Result<string, Refusal>
    requires !action.MarkFalsePositive?
  {
    match action
    case ApplySuggested =>
      var d := DecideConflict(Standing(rows, record.memoryIds));
      if d.winner.None? then Err(UncertainConflict) else Ok(d.winner.value)
    case ChooseWinner(w) =>
      if w == "" then Err(WinnerRequired)
      else if w !in record.memoryIds then Err(WinnerNotMember)
      else Ok(w)
  }

  // The winner, or why the request is refused.
  function Verdict(rows: Store, record: ConflictRecord, action: Action): Result<string, Refusal>
    requires !action.MarkFalsePositive?
  {
    match WinnerOf(rows, record, action)
    case Err(e) => Err(e)
    case Ok(w) =>
      if w !in rows || rows[w].workspace != record.workspace then Err(WinnerElsewhere)
      else if !Retirable(rows, Losers(rows, record.memoryIds, w)) then Err(LoserNotRetirable)
      else Ok(w)
  }

  function LoserSet(rows: Store, record: ConflictRecord, winner: string): set<string> {
    SetOf(Losers(rows, record.memoryIds, winner))
  }

  // ---- The operation ----

  // A loser's new row and the audit of its transition.
  function Planned(rows: Store, id: string, winner: string, now: int): (Memory, L.Audit)
    requires id in rows
  {
    (rows[id].(status := Superseded, supersededBy := Some(winner), updatedAt := now),
     L.Audit(rows[id].id, rows[id].status, Superseded, L.Admin))
  }

  // One audit per loser, from the status it had.
  function LoserAudits(rows: Store, losers: seq<string>): seq<L.Audit>
    requires Retirable(rows, losers)
  {
    seq(|losers|, i requires 0 <= i < |losers| && losers[i] in rows =>
      L.Audit(rows[losers[i]].id, rows[losers[i]].status, Superseded, L.Admin))
  }

  method PlanLosers(repo: MemoryRepository, ids: seq<string>, winner: string, now: int)
    returns (plan: Option<seq<(Memory, L.Audit)>>)
    ensures var losers := Losers(repo.rows, ids, winner);
            && (plan.Some? <==> Retirable(repo.rows, losers))
            && (plan.Some? ==>
                  && |plan.value| == |losers|
                  && forall i | 0 <= i < |losers| :: plan.value[i] == Planned(repo.rows, losers[i], winner, now))
  {
    var planned: seq<(Memory, L.Audit)> := [];
    for i := 0 to |ids|
      invariant var losers := Losers(repo.rows, ids[..i], winner);
                && Retirable(repo.rows, losers) && |planned| == |losers|
                && forall j | 0 <= j < |losers| :: planned[j] == Planned(repo.rows, losers[j], winner, now)
    {
      assert ids[..i + 1][..i] == ids[..i];
      if ids[i] != winner && ids[i] in repo.rows && repo.rows[ids[i]].status != Superseded {
        match L.Transition(repo.rows[ids[i]], Superseded, L.Admin, now)
        case Err(_) =>
          LoserMeaning(repo.rows, ids, winner, ids[i]);
          return None;
        case Ok((updated, audit)) =>
          planned := planned + [(updated.(supersededBy := Some(winner)), audit)];
      }
    }
    assert ids[..|ids|] == ids;
    plan := Some(planned);
  }

  method PersistPlan(repo: MemoryRepository, plan: seq<(Memory, L.Audit)>, ghost losers: seq<string>,
                     ghost winner: string, ghost now: int)
    requires Keyed(repo.rows) && Distinct(losers) && Retirable(repo.rows, losers) && |plan| == |losers|
    requires forall i | 0 <= i < |losers| :: plan[i] == Planned(repo.rows, losers[i], winner, now)
    modifies repo
    ensures repo.rows == RetireAll(old(repo.rows), SetOf(losers), winner, now)
    ensures repo.audits == old(repo.audits) + LoserAudits(old(repo.rows), losers)
  {
    for i := 0 to |plan|
      invariant repo.rows == RetireAll(old(repo.rows), SetOf(losers[..i]), winner, now)
      invariant |repo.audits| == |old(repo.audits)| + i
      invariant repo.audits[..|old(repo.audits)|] == old(repo.audits)
      invariant forall j | 0 <= j < i :: repo.audits[|old(repo.audits)| + j] == plan[j].1
    {
      assert losers[i] !in losers[..i];
      var refusal := repo.TransitionWithAudit(plan[i].0, plan[i].1);
      assert losers[..i + 1] == losers[..i] + [losers[i]];
    }
    assert losers[..|plan|] == losers;
  }

  method ResolveConflict(repo: MemoryRepository, table: Conflicts, id: string, action: Action, now: int)
    returns (r: Result<ConflictRecord, Refusal>)
    requires Keyed(repo.rows)
    requires id in table.rows ==> Distinct(table.rows[id].memoryIds)
    modifies repo, table
    // Refusals change nothing at all.
    ensures r.Err? ==> repo.rows == old(repo.rows) && repo.audits == old(repo.audits) && table.rows == old(table.rows)
    ensures id !in old(table.rows) <==> r == Err(UnknownConflict)
    ensures id in old(table.rows) && old(table.rows)[id].status != Open <==> r == Err(AlreadyResolved)
    // A false positive touches the conflict only.
    ensures r.Ok? && action.MarkFalsePositive? ==>
              && repo.rows == old(repo.rows) && repo.audits == old(repo.audits)
              && table.rows
                 == old(table.rows)[id := old(table.rows)[id].(status := FalsePositive, resolvedAt := Some(now))]
    ensures id in old(table.rows) && old(table.rows)[id].status == Open && action.MarkFalsePositive? ==> r.Ok?
    // Otherwise the verdict decides, and every loser is retired in favour of the winner.
    ensures id in old(table.rows) && old(table.rows)[id].status == Open && !action.MarkFalsePositive? ==>
              var record := old(table.rows)[id];
              match Verdict(old(repo.rows), record, action)
              case Err(e) => r == Err(e)
              case Ok(w) =>
                && r.Ok?
                && repo.rows == RetireAll(old(repo.rows), LoserSet(old(repo.rows), record, w), w, now)
                && repo.audits == old(repo.audits)
                                  + LoserAudits(old(repo.rows), Losers(old(repo.rows), record.memoryIds, w))
                && table.rows == old(table.rows)[id := record.(status := WinnerChosen, resolvedAt := Some(now))]
  {
    var found := table.Get(id);
    if found.None? { return Err(UnknownConflict); }
    var record := found.value;
    if record.status != Open { return Err(AlreadyResolved); }
    if action.MarkFalsePositive? {
      var resolved := record.(status := FalsePositive, resolvedAt := Some(now));
      table.Update(id, resolved);
      return Ok(resolved);
    }
    var winner := "";
    match WinnerOf(repo.rows, record, action)
    case Err(e) => return Err(e);
    case Ok(w) => winner := w;
    if winner !in repo.rows || repo.rows[winner].workspace != record.workspace { return Err(WinnerElsewhere); }
    var plan := PlanLosers(repo, record.memoryIds, winner, now);
    if plan.None? { return Err(LoserNotRetirable); }
    LosersDistinct(repo.rows, record.memoryIds, winner);
    PersistPlan(repo, plan.value, Losers(repo.rows, record.memoryIds, winner), winner, now);
    var resolved := record.(status := WinnerChosen, resolvedAt := Some(now));
    table.Update(id, resolved);
    r := Ok(resolved);
  }

  // ---- What an adjudication means ----

  lemma VerdictRetires(rows: Store, record: ConflictRecord, action: Action, w: string)
    requires !action.MarkFalsePositive? && Verdict(rows, record, action) == Ok(w)
    ensures CanRetire(rows, LoserSet(rows, record, w), w)
  {
    forall id | id in LoserSet(rows, record, w) ensures id in rows && !Gone(rows, id) && id != w {
      LoserMeaning(rows, record.memoryIds, w, id);
    }
  }

  // Afterwards the winner's row is as it was, every other member that exists is superseded, those
  // that were not before point at the winner, and no other memory has changed.
  lemma OnlyWinnerStands(rows: Store, record: ConflictRecord, w: string, now: int, id: string)
    requires id in rows
    ensures var after := RetireAll(rows, LoserSet(rows, record, w), w, now);
            && (id == w || id !in record.memoryIds ==> after[id] == rows[id])
            && (id != w && id in record.memoryIds ==>
                  && after[id].status == Superseded
                  && (rows[id].status != Superseded ==>
                        after[id] == rows[id].(status := Superseded, supersededBy := Some(w), updatedAt := now))
                  && (rows[id].status == Superseded ==> after[id] == rows[id]))
  {
    LoserMeaning(rows, record.memoryIds, w, id);
  }

  // The suggested winner is a member that is not superseded and beats all the other such members.
  lemma SuggestedWinner(rows: Store, record: ConflictRecord, w: string)
    requires Keyed(rows) && Distinct(record.memoryIds)
    requires Verdict(rows, record, ApplySuggested) == Ok(w)
    ensures w in record.memoryIds && !Gone(rows, w) && rows[w] in Standing(rows, record.memoryIds)
    ensures Beats(Standing(rows, record.memoryIds), rows[w])
  {
    var standing := Standing(rows, record.memoryIds);
    StandingDistinct(rows, record.memoryIds);
    SuccessorMeaning(standing);
    var m :| m in standing && m.id == w;
    StandingMeaning(rows, record.memoryIds, m);
    DecisionMeaning(standing, m);
  }

  // So the suggested resolution always keeps the lineage sound.
  lemma SuggestedSound(rows: Store, record: ConflictRecord, w: string, now: int)
    requires Keyed(rows) && Distinct(record.memoryIds) && Sound(rows)
    requires Verdict(rows, record, ApplySuggested) == Ok(w)
    ensures Sound(RetireAll(rows, LoserSet(rows, record, w), w, now))
  {
    SuggestedWinner(rows, record, w);
    VerdictRetires(rows, record, ApplySuggested, w);
    StandingWinnerSound(rows, LoserSet(rows, record, w), w, now);
  }

  // A chosen winner keeps it sound if and only if the memory it stands for is not among the members
  // that lose to it; ResolveConflict does not check this.
  lemma ChosenSoundIff(rows: Store, r: Ranking, record: ConflictRecord, w: string, now: int)
    requires Ranked(rows, r) && Verdict(rows, record, ChooseWinner(w)) == Ok(w)
    ensures Sound(RetireAll(rows, LoserSet(rows, record, w), w, now))
            <==> Root(rows, r, w) == w || Root(rows, r, w) !in record.memoryIds
  {
    VerdictRetires(rows, record, ChooseWinner(w), w);
    RetireSoundIff(rows, r, LoserSet(rows, record, w), w, now);
    var root := Root(rows, r, w);
    LoserMeaning(rows, record.memoryIds, w, root);
  }

  // The suggestion exists exactly when one standing member beats all the others.
  lemma SuggestionExists(rows: Store, record: ConflictRecord)
    requires Keyed(rows) && Distinct(record.memoryIds)
    ensures WinnerOf(rows, record, ApplySuggested).Ok? <==> HasBest(Standing(rows, record.memoryIds))
  {
    StandingDistinct(rows, record.memoryIds);
    SomeoneWins(Standing(rows, record.memoryIds));
  }

  // ---- The verdict in the fields of the record and its members ----

  // The members that still exist and are not superseded.
  predicate Stands(rows: Store, record: ConflictRecord, id: string) {
    id in record.memoryIds && id in rows && rows[id].status != Superseded
  }

  // Everybody who loses to the winner is active or conflicted.
  ghost predicate LosersCanGo(rows: Store, record: ConflictRecord, w: string) {
    forall id | Stands(rows, record, id) && id != w :: rows[id].status == Active || rows[id].status == Conflicted
  }

  predicate InPlace(rows: Store, record: ConflictRecord, w: string) {
    w in rows && rows[w].workspace == record.workspace
  }

  lemma RetirableMeaning(rows: Store, record: ConflictRecord, w: string)
    ensures Retirable(rows, Losers(rows, record.memoryIds, w)) <==> LosersCanGo(rows, record, w)
  {
    forall id ensures id in Losers(rows, record.memoryIds, w) <==> Stands(rows, record, id) && id != w {
      LoserMeaning(rows, record.memoryIds, w, id);
    }
  }

  // A chosen winner is taken if and only if it is a member of the conflict, is a memory of the conflict's
  // workspace, and everybody it beats can go; the first of these that fails is the refusal.
  lemma ChoiceByFields(rows: Store, record: ConflictRecord, w: string)
    ensures Verdict(rows, record, ChooseWinner(w))
            == if w == "" then Err(WinnerRequired)
               else if w !in record.memoryIds then Err(WinnerNotMember)
               else if !InPlace(rows, record, w) then Err(WinnerElsewhere)
               else if !LosersCanGo(rows, record, w) then Err(LoserNotRetirable)
               else Ok(w)
  {
    RetirableMeaning(rows, record, w);
  }

  // The member that outranks all the other standing ones.
  ghost predicate Foremost(rows: Store, record: ConflictRecord, w: string) {
    && Stands(rows, record, w)
    && forall id | Stands(rows, record, id) && id != w :: Outranks(rows[w], rows[id])
  }

  // The suggestion is refused as uncertain if and only if no standing member outranks all the others;
  // otherwise that member is the winner, under the same conditions as a chosen one.
  lemma SuggestionByFields(rows: Store, record: ConflictRecord, w: string)
    requires Keyed(rows) && Distinct(record.memoryIds)
    ensures Foremost(rows, record, w) ==>
              Verdict(rows, record, ApplySuggested)
              == if !InPlace(rows, record, w) then Err(WinnerElsewhere)
                 else if !LosersCanGo(rows, record, w) then Err(LoserNotRetirable)
                 else Ok(w)
    ensures (forall id :: !Foremost(rows, record, id)) ==>
              Verdict(rows, record, ApplySuggested) == Err(UncertainConflict)
  {
    var standing := Standing(rows, record.memoryIds);
    StandingDistinct(rows, record.memoryIds);
    forall m ensures m in standing <==> Stands(rows, record, m.id) && rows[m.id] == m {
      StandingMeaning(rows, record.memoryIds, m);
    }
    if Foremost(rows, record, w) {
      assert rows[w] in standing;
      DecidedByFields(standing, rows[w]);
      RetirableMeaning(rows, record, w);
    }
    if DecideConflict(standing).winner.Some? {
      SuggestedForemost(rows, record);
    }
  }

  lemma SuggestedForemost(rows: Store, record: ConflictRecord)
    requires Keyed(rows) && Distinct(Ids(Standing(rows, record.memoryIds)))
    requires DecideConflict(Standing(rows, record.memoryIds)).winner.Some?
    ensures Foremost(rows, record, DecideConflict(Standing(rows, record.memoryIds)).winner.value)
  {
    var standing := Standing(rows, record.memoryIds);
    SuccessorMeaning(standing);
    var m :| m in standing && m.id == DecideConflict(standing).winner.value;
    StandingMeaning(rows, record.memoryIds, m);
    DecidedByFields(standing, m);
    forall id | Stands(rows, record, id) && id != m.id ensures Outranks(m, rows[id]) {
      StandingMeaning(rows, record.memoryIds, rows[id]);
    }
  }
}
