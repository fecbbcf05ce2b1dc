/** What one write does to the stored memories, in the fields of the memories. */
module ResolveOutcome {
  import opened Prelude
  import opened Ordering
  import opened KeyOntology
  import opened Memory
  import opened ConflictPolicy
  import opened Resolver
  import opened MemoryStore

  // ---- The representative ----

  // Ids are preferred by the larger code point where they first differ, and an extension to its prefix.
  lemma {:induction false} NegIdMeaning(a: string, b: string)
    ensures NegIdLess(a, b) <==> (a <= b && a != b) || exists k :: LessAt(b, a, k)
  {
    if a != "" && b != "" {
      NegIdMeaning(a[1..], b[1..]);
      if a[0] == b[0] { PrefixTail(a, b); }
      assert a == [a[0]] + a[1..] && b == [b[0]] + b[1..];
      forall k | LessAt(b, a, k) ensures b[0] < a[0] || (a[0] == b[0] && LessAt(b[1..], a[1..], k - 1)) {
        LessTail(b, a, k);
      }
      forall k | a[0] == b[0] && LessAt(b[1..], a[1..], k) ensures LessAt(b, a, k + 1) {
        LessTail(b, a, k + 1);
      }
      assert b[0] < a[0] ==> LessAt(b, a, 0);
    }
  }

  lemma {:induction false} NegIdTotal(a: string, b: string)
    ensures a == b || NegIdLess(a, b) || NegIdLess(b, a)
  {
    if a != "" && b != "" && a[0] == b[0] {
      NegIdTotal(a[1..], b[1..]);
      assert a == [a[0]] + a[1..] && b == [b[0]] + b[1..];
    }
  }

  // More trusted, more important, more confident, older, or by id.
  ghost predicate Preferred(a: Memory, b: Memory) {
    if a.trust != b.trust then a.trust > b.trust
    else if a.importance != b.importance then a.importance > b.importance
    else if a.confidence != b.confidence then a.confidence > b.confidence
    else if a.createdAt != b.createdAt then a.createdAt < b.createdAt
    else (b.id <= a.id && a.id != b.id) || exists k :: LessAt(a.id, b.id, k)
  }

  lemma PreferredMeaning(a: Memory, b: Memory)
    requires a.id != b.id
    ensures Preferred(a, b) <==> !LessRepresentative(a, b)
  {
    NegIdMeaning(b.id, a.id);
    NegIdTotal(a.id, b.id);
    if NegIdLess(a.id, b.id) { NegIdAsymmetric(a.id, b.id); }
  }

  lemma RepresentativePreferred(ms: seq<Memory>, m: Memory)
    requires m in ms && m.id != Representative(ms).id
    ensures Preferred(Representative(ms), m)
  {
    RepresentativeIsBest(ms);
    PreferredMeaning(Representative(ms), m);
  }

  // ---- Equal values ----

  // The existing memories with the incoming value, and the incoming one.
  predicate InGroup(incoming: Memory, existing: seq<Memory>, x: Memory) {
    x == incoming || (x in existing && Norm(x.value) == Norm(incoming.value))
  }

  // Nobody in the group has a better score of any kind, and each score is somebody's.
  ghost predicate BestScores(incoming: Memory, existing: seq<Memory>, r: Memory) {
    && (forall x | InGroup(incoming, existing, x) ::
          x.confidence <= r.confidence && x.importance <= r.importance
          && x.trust <= r.trust && x.valueScore <= r.valueScore)
    && (exists x :: InGroup(incoming, existing, x) && x.confidence == r.confidence)
    && (exists x :: InGroup(incoming, existing, x) && x.importance == r.importance)
    && (exists x :: InGroup(incoming, existing, x) && x.trust == r.trust)
    && (exists x :: InGroup(incoming, existing, x) && x.valueScore == r.valueScore)
  }

  // Every source that the group names, and no other, once.
  ghost predicate AllSources(incoming: Memory, existing: seq<Memory>, sources: seq<string>) {
    && Distinct(sources)
    && forall s :: s in sources
         <==> s != "" && exists x :: InGroup(incoming, existing, x) && (s in x.sources || s == x.sourceEvent)
  }

  lemma GroupMembers(incoming: Memory, existing: seq<Memory>)
    ensures var same := WithValue(existing, Norm(incoming.value), true);
            forall x :: x in same + [incoming] <==> InGroup(incoming, existing, x)
  {
    forall x ensures x in WithValue(existing, Norm(incoming.value), true)
                     <==> x in existing && Norm(x.value) == Norm(incoming.value) {
      WithValueMember(existing, Norm(incoming.value), true, x);
    }
  }

  lemma ScoresOf(incoming: Memory, existing: seq<Memory>, group: seq<Memory>, r: Memory)
    requires group != [] && forall x :: x in group <==> InGroup(incoming, existing, x)
    requires r.confidence == MaxOf(group, Confidence) && r.importance == MaxOf(group, Importance)
    requires r.trust == MaxOf(group, Trust) && r.valueScore == MaxOf(group, Value)
    ensures BestScores(incoming, existing, r)
  {
    MaxOfMeaning(group, Confidence);
    MaxOfMeaning(group, Importance);
    MaxOfMeaning(group, Trust);
    MaxOfMeaning(group, Value);
  }

  lemma SourcesInFields(incoming: Memory, existing: seq<Memory>, group: seq<Memory>)
    requires forall x :: x in group <==> InGroup(incoming, existing, x)
    ensures AllSources(incoming, existing, CollectSources(group))
  {
    CollectSourcesMeaning(group);
    forall s | s != ""
      ensures Cited(group, s) <==> exists x :: InGroup(incoming, existing, x) && (s in x.sources || s == x.sourceEvent)
    {
      if Cited(group, s) {
        var x :| x in group && s in SourcesOf(x);
        assert InGroup(incoming, existing, x);
      }
    }
  }

  // What merging leaves of the representative: its scores and sources are the group's, its key is
  // canonical, and nothing else but its time has changed.
  ghost predicate MergedRow(incoming: Memory, existing: seq<Memory>, rep: Memory, r: Memory, now: int) {
    && BestScores(incoming, existing, r) && AllSources(incoming, existing, r.sources)
    && r == rep.(key := r.key, sources := r.sources, confidence := r.confidence, importance := r.importance,
                 trust := r.trust, valueScore := r.valueScore, updatedAt := now)
    && (incoming.key.Some? ==> r.key == Some(Canonical(incoming.key.value)))
  }

  lemma MergedInFields(incoming: Memory, existing: seq<Memory>, rep: Memory, group: seq<Memory>, now: int)
    requires group != [] && forall x :: x in group <==> InGroup(incoming, existing, x)
    ensures MergedRow(incoming, existing, rep, Merged(rep, group, incoming.key, now), now)
  {
    ScoresOf(incoming, existing, group, Merged(rep, group, incoming.key, now));
    SourcesInFields(incoming, existing, group);
  }

  // A write of a value that is already held adds nothing. One of the memories with the value, preferred to
  // all the others, takes in the group, and the others are superseded by it; only a clash with another
  // value can change the survivor's status on top of that.
  lemma MergeByFields(incoming: Memory, existing: seq<Memory>, now: int) returns (rep: Memory)
    requires Matching(incoming, existing)
    requires exists m | m in existing :: Norm(m.value) == Norm(incoming.value)
    ensures rep in existing && Norm(rep.value) == Norm(incoming.value)
    ensures var p := PlanOf(incoming, existing, now);
            && Added(p) == None && p.primary.id == rep.id && MergedRow(incoming, existing, rep, p.primary, now)
            && (forall x | x in existing && Norm(x.value) == Norm(incoming.value) && x != rep ::
                  && Preferred(rep, x)
                  && RowAfter(p, x) == x.(status := Superseded, supersededBy := Some(rep.id), updatedAt := now))
            && (!p.clash ==> RowAfter(p, rep) == p.primary)
            && RowAfter(p, rep) == p.primary.(status := RowAfter(p, rep).status,
                                              supersededBy := RowAfter(p, rep).supersededBy)
  {
    var p := PlanOf(incoming, existing, now);
    var same := WithValue(existing, p.value, true);
    GroupMembers(incoming, existing);
    var m :| m in existing && Norm(m.value) == Norm(incoming.value);
    WithValueMember(existing, p.value, true, m);
    rep := Representative(same);
    WithValueMember(existing, p.value, true, rep);
    MergedInFields(incoming, existing, rep, same + [incoming], now);
    forall x | x in existing && Norm(x.value) == p.value && x != rep
      ensures Preferred(rep, x) && RowAfter(p, x) == Retired(x, Some(rep.id), now)
    {
      WithValueMember(existing, p.value, true, x);
      if x.id == rep.id { SameIdSame(existing, x, rep); }
      RepresentativePreferred(same, x);
    }
    PrimaryRow(p, incoming);
  }

  // Settling the merged memory changes no more than status and successor: its key and time are new already.
  lemma PrimaryRow(p: Plan, incoming: Memory)
    requires p.key == incoming.key && p.primary.updatedAt == p.now
    requires incoming.key.Some? ==> p.primary.key == Some(Canonical(incoming.key.value))
    ensures PrimaryAfter(p)
            == p.primary.(status := PrimaryAfter(p).status, supersededBy := PrimaryAfter(p).supersededBy)
  {
  }

  // Whether or not there is a clash, the survivor's row has the best scores and all the sources.
  lemma MergedScores(incoming: Memory, existing: seq<Memory>, now: int, m: Memory)
    requires Matching(incoming, existing) && m in existing && Norm(m.value) == Norm(incoming.value)
    requires forall x | x in existing && Norm(x.value) == Norm(incoming.value) && x != m :: Preferred(m, x)
    ensures var r := RowAfter(PlanOf(incoming, existing, now), m);
            BestScores(incoming, existing, r) && AllSources(incoming, existing, r.sources)
  {
    var rep := MergeByFields(incoming, existing, now);
    if m != rep {
      if m.id == rep.id { SameIdSame(existing, m, rep); }
      PreferredOne(m, rep);
    }
  }

  lemma PreferredOne(a: Memory, b: Memory)
    requires a.id != b.id
    ensures !(Preferred(a, b) && Preferred(b, a))
  {
    PreferredMeaning(a, b);
    PreferredMeaning(b, a);
    NegIdTotal(a.id, b.id);
  }

  // ---- Different values ----

  // The rivals of a clash: the incoming memory, or the one its value was merged into, and every existing
  // memory with another value.
  predicate Rival(incoming: Memory, existing: seq<Memory>, now: int, x: Memory) {
    x == PlanOf(incoming, existing, now).primary || (x in existing && Norm(x.value) != Norm(incoming.value))
  }

  function Fate(p: Plan, c: Memory): Memory {
    if c == p.primary then PrimaryAfter(p) else RowAfter(p, c)
  }

  // A clash is another value on a key with a single one.
  lemma ClashIff(incoming: Memory, existing: seq<Memory>, now: int)
    ensures PlanOf(incoming, existing, now).clash
            <==> SingleValued(incoming) && exists m | m in existing :: Norm(m.value) != Norm(incoming.value)
  {
    var diff := WithValue(existing, Norm(incoming.value), false);
    forall m ensures m in diff <==> m in existing && Norm(m.value) != Norm(incoming.value) {
      WithValueMember(existing, Norm(incoming.value), false, m);
    }
    if diff != [] { MemberAt(diff, 0); }
  }

  // ---- Settling among candidates ----

  ghost predicate Wins(cs: seq<Memory>, w: Memory) {
    w in cs && forall x | x in cs && x != w :: Outranks(w, x)
  }

  ghost predicate Unbeaten(cs: seq<Memory>, c: Memory) {
    c in cs && forall x | x in cs :: !Outranks(x, c)
  }

  ghost predicate LeastUnbeaten(cs: seq<Memory>, t: Memory) {
    Unbeaten(cs, t) && forall x | Unbeaten(cs, x) :: Leq(t.id, x.id)
  }

  lemma SettledUnder(cs: seq<Memory>, w: Memory, c: Memory, now: int)
    requires Distinct(Ids(cs)) && Wins(cs, w) && c in cs
    ensures Settled(c, DecideConflict(cs), now) == if c == w then c else Retired(c, Some(w.id), now)
  {
    DecidedByFields(cs, w);
    if c.id == w.id { SameIdSame(cs, c, w); }
  }

  lemma SettledWithout(cs: seq<Memory>, c: Memory, now: int)
    requires Distinct(Ids(cs)) && c in cs && forall w :: !Wins(cs, w)
    ensures Unbeaten(cs, c) ==> Settled(c, DecideConflict(cs), now) == c.(status := Conflicted, updatedAt := now)
    ensures !Unbeaten(cs, c) ==>
              exists t :: LeastUnbeaten(cs, t) && Settled(c, DecideConflict(cs), now) == Retired(c, Some(t.id), now)
  {
    var d := DecideConflict(cs);
    DecidedByFields(cs, c);
    NobodyWins(cs);
    if !Unbeaten(cs, c) {
      var t := Anchor(cs);
    }
  }

  lemma NobodyWins(cs: seq<Memory>)
    requires cs != [] && Distinct(Ids(cs)) && forall w :: !Wins(cs, w)
    ensures DecideConflict(cs).winner == None
  {
    SuccessorMeaning(cs);
    if DecideConflict(cs).winner.Some? {
      var w :| w in cs && w.id == DecideConflict(cs).winner.value;
      DecidedByFields(cs, w);
      assert Wins(cs, w);
    }
  }

  lemma Anchor(cs: seq<Memory>) returns (t: Memory)
    requires cs != [] && Distinct(Ids(cs)) && DecideConflict(cs).winner == None
    ensures LeastUnbeaten(cs, t) && DecideConflict(cs).successor == Some(t.id)
  {
    var d := DecideConflict(cs);
    SuccessorMeaning(cs);
    t :| t in cs && t.id == d.successor.value;
    DecidedByFields(cs, t);
    forall x | Unbeaten(cs, x) ensures Leq(t.id, x.id) {
      DecidedByFields(cs, x);
    }
  }

  // ---- The rivals of a clash ----

  ghost predicate RivalWins(incoming: Memory, existing: seq<Memory>, now: int, w: Memory) {
    && Rival(incoming, existing, now, w)
    && forall x | Rival(incoming, existing, now, x) && x != w :: Outranks(w, x)
  }

  ghost predicate RivalUnbeaten(incoming: Memory, existing: seq<Memory>, now: int, c: Memory) {
    Rival(incoming, existing, now, c) && forall x | Rival(incoming, existing, now, x) :: !Outranks(x, c)
  }

  lemma RivalIds(incoming: Memory, existing: seq<Memory>, now: int, x: Memory, y: Memory)
    requires Matching(incoming, existing) && Rival(incoming, existing, now, x) && Rival(incoming, existing, now, y)
    ensures x.id == y.id ==> x == y
  {
    var primary := PlanOf(incoming, existing, now).primary;
    if x != primary && x in existing { OtherValueOtherId(incoming, existing, now, x); }
    if y != primary && y in existing { OtherValueOtherId(incoming, existing, now, y); }
    if x != primary && y != primary && x.id == y.id { SameIdSame(existing, x, y); }
  }

  // The candidates of the decision are the rivals with their keys made canonical.
  lemma CandidatesAreRivals(incoming: Memory, existing: seq<Memory>, now: int)
    requires Matching(incoming, existing)
    ensures var cs := Candidates(incoming, existing, now);
            && Distinct(Ids(cs)) && cs != []
            && (forall x | Rival(incoming, existing, now, x) :: Promote(x, incoming.key) in cs)
            && (forall y | y in cs :: exists x :: Rival(incoming, existing, now, x) && y == Promote(x, incoming.key))
  {
    CandidatesDistinct(incoming, existing, now);
    forall x | Rival(incoming, existing, now, x)
      ensures Promote(x, incoming.key) in Candidates(incoming, existing, now)
    {
      CandidateMember(incoming, existing, now, x);
    }
    forall y | y in Candidates(incoming, existing, now)
      ensures exists x :: Rival(incoming, existing, now, x) && y == Promote(x, incoming.key)
    {
      var x := CandidateOrigin(incoming, existing, now, y);
    }
  }

  lemma PromotedRank(a: Memory, b: Memory, key: Option<string>)
    ensures Outranks(Promote(a, key), Promote(b, key)) <==> Outranks(a, b)
  {
  }

  lemma RivalIsCandidate(incoming: Memory, existing: seq<Memory>, now: int, c: Memory)
    requires Matching(incoming, existing) && Rival(incoming, existing, now, c)
    ensures var cs, k := Candidates(incoming, existing, now), Promote(c, incoming.key);
            && (RivalWins(incoming, existing, now, c) <==> Wins(cs, k))
            && (RivalUnbeaten(incoming, existing, now, c) <==> Unbeaten(cs, k))
  {
    CandidateMember(incoming, existing, now, c);
    RivalWinsAmong(incoming, existing, now, c);
    RivalUnbeatenAmong(incoming, existing, now, c);
  }

  lemma RivalWinsAmong(incoming: Memory, existing: seq<Memory>, now: int, c: Memory)
    requires Matching(incoming, existing) && Rival(incoming, existing, now, c)
    requires Promote(c, incoming.key) in Candidates(incoming, existing, now)
    ensures RivalWins(incoming, existing, now, c)
            <==> Wins(Candidates(incoming, existing, now), Promote(c, incoming.key))
  {
    var cs, k := Candidates(incoming, existing, now), Promote(c, incoming.key);
    if RivalWins(incoming, existing, now, c) {
      forall y | y in cs && y != k ensures Outranks(k, y) {
        var x := CandidateOrigin(incoming, existing, now, y);
        PromotedRank(c, x, incoming.key);
      }
    }
    if Wins(cs, k) {
      forall x | Rival(incoming, existing, now, x) && x != c ensures Outranks(c, x) {
        OutrankedAmong(incoming, existing, now, c, x);
      }
    }
  }

  lemma OutrankedAmong(incoming: Memory, existing: seq<Memory>, now: int, c: Memory, x: Memory)
    requires Matching(incoming, existing) && Rival(incoming, existing, now, c) && Rival(incoming, existing, now, x)
    requires x != c && Wins(Candidates(incoming, existing, now), Promote(c, incoming.key))
    ensures Outranks(c, x)
  {
    CandidateMember(incoming, existing, now, x);
    RivalIds(incoming, existing, now, x, c);
    PromotedApart(x, c, incoming.key);
    PromotedRank(c, x, incoming.key);
  }

  lemma PromotedApart(x: Memory, c: Memory, key: Option<string>)
    requires x.id != c.id
    ensures Promote(x, key) != Promote(c, key)
  {
  }

  lemma RivalUnbeatenAmong(incoming: Memory, existing: seq<Memory>, now: int, c: Memory)
    requires Rival(incoming, existing, now, c)
    requires Promote(c, incoming.key) in Candidates(incoming, existing, now)
    ensures RivalUnbeaten(incoming, existing, now, c)
            <==> Unbeaten(Candidates(incoming, existing, now), Promote(c, incoming.key))
  {
    var cs, k := Candidates(incoming, existing, now), Promote(c, incoming.key);
    if RivalUnbeaten(incoming, existing, now, c) {
      forall y | y in cs ensures !Outranks(y, k) {
        var x := CandidateOrigin(incoming, existing, now, y);
        PromotedRank(x, c, incoming.key);
      }
    }
    if Unbeaten(cs, k) {
      forall x | Rival(incoming, existing, now, x) ensures !Outranks(x, c) {
        CandidateMember(incoming, existing, now, x);
        PromotedRank(x, c, incoming.key);
      }
    }
  }

  lemma KeyedBy(c: Memory, key: string)
    ensures Promote(c, Some(key)) == c.(key := Some(Canonical(key)))
  {
  }

  lemma FateIsSettled(incoming: Memory, existing: seq<Memory>, now: int, c: Memory)
    requires Matching(incoming, existing) && PlanOf(incoming, existing, now).clash
    requires Rival(incoming, existing, now, c)
    ensures Fate(PlanOf(incoming, existing, now), c)
            == Settled(Promote(c, incoming.key), DecideConflict(Candidates(incoming, existing, now)), now)
  {
  }

  // A rival that outranks all the others stands, with the canonical key, and every other rival is
  // superseded by it.
  lemma ClashWon(incoming: Memory, existing: seq<Memory>, now: int, w: Memory, c: Memory)
    requires Matching(incoming, existing) && PlanOf(incoming, existing, now).clash
    requires RivalWins(incoming, existing, now, w) && Rival(incoming, existing, now, c)
    ensures var keyed := c.(key := Some(Canonical(incoming.key.value)));
            Fate(PlanOf(incoming, existing, now), c)
            == if c == w then keyed else keyed.(status := Superseded, supersededBy := Some(w.id), updatedAt := now)
  {
    CandidatesAreRivals(incoming, existing, now);
    RivalIsCandidate(incoming, existing, now, w);
    FateIsSettled(incoming, existing, now, c);
    KeyedBy(c, incoming.key.value);
    SettledUnder(Candidates(incoming, existing, now), Promote(w, incoming.key), Promote(c, incoming.key), now);
    RivalIds(incoming, existing, now, c, w);
  }

  // When no rival outranks all the others, those that nobody outranks are conflicted, and the others are
  // superseded by the one of them with the least id.
  lemma ClashTied(incoming: Memory, existing: seq<Memory>, now: int, c: Memory)
    requires Matching(incoming, existing) && PlanOf(incoming, existing, now).clash
    requires Rival(incoming, existing, now, c) && forall w :: !RivalWins(incoming, existing, now, w)
    ensures var keyed := c.(key := Some(Canonical(incoming.key.value)));
            var fate := Fate(PlanOf(incoming, existing, now), c);
            if RivalUnbeaten(incoming, existing, now, c) then fate == keyed.(status := Conflicted, updatedAt := now)
            else exists t :: RivalUnbeaten(incoming, existing, now, t)
                   && (forall x | RivalUnbeaten(incoming, existing, now, x) :: Leq(t.id, x.id))
                   && fate == keyed.(status := Superseded, supersededBy := Some(t.id), updatedAt := now)
  {
    var cs := Candidates(incoming, existing, now);
    CandidatesAreRivals(incoming, existing, now);
    forall w ensures !Wins(cs, w) {
      if w in cs {
        var x :| Rival(incoming, existing, now, x) && w == Promote(x, incoming.key);
        RivalIsCandidate(incoming, existing, now, x);
      }
    }
    RivalIsCandidate(incoming, existing, now, c);
    FateIsSettled(incoming, existing, now, c);
    KeyedBy(c, incoming.key.value);
    SettledWithout(cs, Promote(c, incoming.key), now);
    if !RivalUnbeaten(incoming, existing, now, c) {
      var y :| LeastUnbeaten(cs, y)
               && Settled(Promote(c, incoming.key), DecideConflict(cs), now)
                  == Retired(Promote(c, incoming.key), Some(y.id), now);
      var t := LeastRival(incoming, existing, now, y);
    }
  }

  lemma LeastRival(incoming: Memory, existing: seq<Memory>, now: int, y: Memory) returns (t: Memory)
    requires Matching(incoming, existing) && LeastUnbeaten(Candidates(incoming, existing, now), y)
    ensures t.id == y.id && RivalUnbeaten(incoming, existing, now, t)
    ensures forall x | RivalUnbeaten(incoming, existing, now, x) :: Leq(t.id, x.id)
  {
    t := CandidateOrigin(incoming, existing, now, y);
    RivalIsCandidate(incoming, existing, now, t);
    forall x | RivalUnbeaten(incoming, existing, now, x) ensures Leq(t.id, x.id) {
      RivalIsCandidate(incoming, existing, now, x);
    }
  }

  // ---- The stored memories ----

  // What the write path lists: the active memories of the workspace, the scope and the canonical key.
  lemma ListedByFields(store: Store, incoming: Memory, existing: seq<Memory>, id: string)
    requires CanWrite(store, incoming, existing) && id in store
    ensures store[id] in existing
            <==> && store[id].status == Active && store[id].workspace == incoming.workspace
                 && store[id].scope == incoming.scope && store[id].key.Some? && incoming.key.Some?
                 && Canonical(store[id].key.value) == Canonical(incoming.key.value)
  {
  }

  // No other memory is touched.
  lemma WriteFrame(store: Store, incoming: Memory, existing: seq<Memory>, now: int, id: string)
    requires CanWrite(store, incoming, existing) && id in store
    requires || store[id].status != Active || store[id].workspace != incoming.workspace
             || store[id].scope != incoming.scope || store[id].key == None || incoming.key == None
             || Canonical(store[id].key.value) != Canonical(incoming.key.value)
    ensures id in Written(store, incoming, existing, now) && Written(store, incoming, existing, now)[id] == store[id]
  {
    ListedByFields(store, incoming, existing, id);
    AddedId(incoming, existing, now);
  }
}
