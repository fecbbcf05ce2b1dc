/** Reconciling an incoming memory with the active memories of its identity. */
module Resolver {
  import opened Prelude
  import opened Ordering
  import opened KeyOntology
  import opened Memory
  import opened ConflictPolicy

  // ---- The representative of equal values ----

  // tuple(-ord(c) for c in id), compared as tuples.
  predicate NegIdLess(a: string, b: string) {
    b != "" && (a == "" || a[0] > b[0] || (a[0] == b[0] && NegIdLess(a[1..], b[1..])))
  }

  // Negating code points reverses the order of two different ids exactly when neither is a prefix
  // of the other; between an id and its extension the longer one is preferred.
  lemma {:induction false} NegIdReverses(a: string, b: string)
    requires a != b
    ensures (NegIdLess(b, a) <==> Leq(a, b)) <==> !(a <= b) && !(b <= a)
  {
    if a != "" && b != "" && a[0] == b[0] {
      assert a == [a[0]] + a[1..] && b == [b[0]] + b[1..];
      NegIdReverses(a[1..], b[1..]);
      assert a <= b <==> a[1..] <= b[1..];
      assert b <= a <==> b[1..] <= a[1..];
    }
  }

  // Trust, importance, confidence, then the earlier creation, then the id.
  predicate LessRepresentative(a: Memory, b: Memory) {
    if a.trust != b.trust then a.trust < b.trust
    else if a.importance != b.importance then a.importance < b.importance
    else if a.confidence != b.confidence then a.confidence < b.confidence
    else if a.createdAt != b.createdAt then a.createdAt > b.createdAt
    else NegIdLess(a.id, b.id)
  }

  function Representative(ms: seq<Memory>): (m: Memory)
    requires ms != []
    ensures m in ms
  {
    var last := |ms| - 1;
    if last == 0 then ms[0]
    else
      var best := Representative(ms[..last]);
      if LessRepresentative(best, ms[last]) then ms[last] else best
  }

  lemma {:induction false} NegIdTransitive(a: string, b: string, c: string)
    requires NegIdLess(a, b) && NegIdLess(b, c)
    ensures NegIdLess(a, c)
  {
    if a != "" && a[0] == b[0] && b[0] == c[0] {
      NegIdTransitive(a[1..], b[1..], c[1..]);
    }
  }

  lemma {:induction false} NegIdAsymmetric(a: string, b: string)
    requires NegIdLess(a, b)
    ensures !NegIdLess(b, a)
  {
    if a != "" && a[0] == b[0] {
      NegIdAsymmetric(a[1..], b[1..]);
    }
  }

  lemma LessRepresentativeOrder(a: Memory, b: Memory, c: Memory)
    requires LessRepresentative(a, b)
    ensures !LessRepresentative(b, a)
    ensures LessRepresentative(b, c) ==> LessRepresentative(a, c)
  {
    if NegIdLess(a.id, b.id) { NegIdAsymmetric(a.id, b.id); }
    if NegIdLess(a.id, b.id) && NegIdLess(b.id, c.id) { NegIdTransitive(a.id, b.id, c.id); }
  }

  // No member of the group ranks above the representative.
  lemma {:induction false} RepresentativeIsBest(ms: seq<Memory>)
    requires ms != []
    ensures forall m | m in ms :: !LessRepresentative(Representative(ms), m)
  {
    var last := |ms| - 1;
    assert ms == ms[..last] + [ms[last]];
    if last == 0 {
      NotBelowItself(ms[0]);
    } else {
      RepresentativeIsBest(ms[..last]);
      var best := Representative(ms[..last]);
      NotBelowItself(ms[last]);
      if LessRepresentative(best, ms[last]) {
        forall m | m in ms[..last] ensures !LessRepresentative(ms[last], m) {
          LessRepresentativeOrder(best, ms[last], m);
        }
      }
    }
  }

  lemma NotBelowItself(m: Memory)
    ensures !LessRepresentative(m, m)
  {
    if NegIdLess(m.id, m.id) { NegIdAsymmetric(m.id, m.id); }
  }

  // ---- Merging ----

  function AddSource(out: seq<string>, id: string): seq<string> {
    if id == "" || id in out then out else out + [id]
  }

  function AddSources(out: seq<string>, ids: seq<string>): seq<string> {
    if ids == [] then out else AddSource(AddSources(out, ids[..|ids| - 1]), ids[|ids| - 1])
  }

  function SourcesOf(m: Memory): seq<string> {
    m.sources + if m.sourceEvent != "" then [m.sourceEvent] else []
  }

  function CollectSources(ms: seq<Memory>): seq<string> {
    if ms == [] then []
    else AddSources(CollectSources(ms[..|ms| - 1]), SourcesOf(ms[|ms| - 1]))
  }

  lemma {:induction false} AddSourcesMeaning(out: seq<string>, ids: seq<string>)
    requires Distinct(out) && "" !in out
    ensures var all := AddSources(out, ids);
            && Distinct(all) && "" !in all && out <= all
            && forall x :: x in all <==> x in out || (x in ids && x != "")
  {
    if ids != [] {
      var last := |ids| - 1;
      AddSourcesMeaning(out, ids[..last]);
      assert ids == ids[..last] + [ids[last]];
    }
  }

  ghost predicate Cited(ms: seq<Memory>, x: string) {
    exists m | m in ms :: x in SourcesOf(m)
  }

  lemma CitedOneMore(ms: seq<Memory>, m: Memory)
    ensures forall x :: Cited(ms + [m], x) <==> Cited(ms, x) || x in SourcesOf(m)
  {
    forall x ensures Cited(ms + [m], x) <==> Cited(ms, x) || x in SourcesOf(m) {
      if Cited(ms, x) {
        var c :| c in ms && x in SourcesOf(c);
        assert c in ms + [m];
      }
      if x in SourcesOf(m) { assert m in ms + [m]; }
    }
  }

  // The union of all provenance: every non-empty source once, none lost and none invented.
  lemma {:induction false} CollectSourcesMeaning(ms: seq<Memory>)
    ensures Distinct(CollectSources(ms)) && "" !in CollectSources(ms)
    ensures forall x | x != "" :: x in CollectSources(ms) <==> Cited(ms, x)
  {
    if ms != [] {
      var last := |ms| - 1;
      var earlier := CollectSources(ms[..last]);
      CollectSourcesMeaning(ms[..last]);
      AddSourcesMeaning(earlier, SourcesOf(ms[last]));
      assert CollectSources(ms) == AddSources(earlier, SourcesOf(ms[last]));
      assert ms[..last] + [ms[last]] == ms;
      CitedOneMore(ms[..last], ms[last]);
    }
  }

  datatype Score = Confidence | Importance | Trust | Value

  function ScoreOf(m: Memory, score: Score): real {
    match score
    case Confidence => m.confidence
    case Importance => m.importance
    case Trust => m.trust
    case Value => m.valueScore
  }

  function MaxOf(ms: seq<Memory>, score: Score): real
    requires ms != []
  {
    var last := |ms| - 1;
    if last == 0 then ScoreOf(ms[0], score)
    else
      var best := MaxOf(ms[..last], score);
      if ScoreOf(ms[last], score) > best then ScoreOf(ms[last], score) else best
  }

  // No member of the group scores higher, and one scores as much.
  lemma {:induction false} MaxOfMeaning(ms: seq<Memory>, score: Score)
    requires ms != []
    ensures forall m | m in ms :: ScoreOf(m, score) <= MaxOf(ms, score)
    ensures exists m | m in ms :: ScoreOf(m, score) == MaxOf(ms, score)
  {
    var last := |ms| - 1;
    assert ms == ms[..last] + [ms[last]];
    if last > 0 {
      MaxOfMeaning(ms[..last], score);
    }
    assert ms[last] in ms;
  }

  function Promote(m: Memory, key: Option<string>): Memory {
    if key.Some? && m.key != Some(Canonical(key.value)) then m.(key := Some(Canonical(key.value))) else m
  }

  // The survivor of equal values takes over all provenance and the best scores.
  function Merged(primary: Memory, group: seq<Memory>, key: Option<string>, now: int): Memory
    requires group != []
  {
    Promote(primary.(
              sources := CollectSources(group),
              confidence := MaxOf(group, Confidence),
              importance := MaxOf(group, Importance),
              trust := MaxOf(group, Trust),
              valueScore := MaxOf(group, Value)), key).(updatedAt := now)
  }

  function Retired(m: Memory, successor: Option<string>, now: int): Memory {
    m.(status := Superseded, supersededBy := successor, updatedAt := now)
  }

  // ---- The whole plan of one write ----

  function WithValue(ms: seq<Memory>, v: string, equal: bool): seq<Memory> {
    if ms == [] then []
    else WithValue(ms[..|ms| - 1], v, equal)
         + if (Norm(ms[|ms| - 1].value) == v) == equal then [ms[|ms| - 1]] else []
  }

  function Promoted(ms: seq<Memory>, key: Option<string>): seq<Memory> {
    seq(|ms|, i requires 0 <= i < |ms| => Promote(ms[i], key))
  }

  // Applying a decision to one candidate.
  function Settled(m: Memory, d: Decision, now: int): Memory {
    if d.winner.Some? then
      if m.id != d.winner.value then Retired(m, d.winner, now) else m
    else if m.id in d.conflicted then m.(status := Conflicted, updatedAt := now)
    else if m.id in d.superseded then Retired(m, d.successor, now)
    else m
  }

  datatype Plan = Plan(
    key: Option<string>,     // the incoming key
    value: string,           // the incoming value, normalised
    merged: bool,            // an existing memory already has the value
    primary: Memory,         // the merged survivor, or the incoming memory itself
    clash: bool,             // a different value stands against it on a single-valued key
    decision: Decision,      // meaningful when there is a clash
    now: int)

  function PlanOf(incoming: Memory, existing: seq<Memory>, now: int): Plan {
    var v := Norm(incoming.value);
    var same, diff := WithValue(existing, v, true), WithValue(existing, v, false);
    var primary := if same == [] then incoming
                   else Merged(Representative(same), same + [incoming], incoming.key, now);
    var clash := SingleValued(incoming) && diff != [];
    Plan(incoming.key, v, same != [], primary, clash,
         DecideConflict(if clash then Promoted([primary] + diff, incoming.key) else []), now)
  }

  // What becomes of the surviving memory, and of an existing one.
  function PrimaryAfter(p: Plan): Memory {
    if p.clash then Settled(Promote(p.primary, p.key), p.decision, p.now) else p.primary
  }

  function RowAfter(p: Plan, m: Memory): Memory {
    if Norm(m.value) == p.value then
      if m.id == p.primary.id then PrimaryAfter(p) else Retired(m, Some(p.primary.id), p.now)
    else if p.clash then Settled(Promote(m, p.key), p.decision, p.now)
    else m
  }

  function Added(p: Plan): Option<Memory> {
    if p.merged then None else Some(PrimaryAfter(p))
  }

  // ---- What a write does ----

  // The caller's contract: the active memories of the incoming identity, each once.
  ghost predicate Matching(incoming: Memory, existing: seq<Memory>) {
    && Distinct(Ids(existing))
    && (forall m | m in existing :: m.status == Active && m.id != incoming.id && SameIdentity(m, incoming))
  }

  lemma {:induction false} WithValueMember(ms: seq<Memory>, v: string, equal: bool, m: Memory)
    ensures m in WithValue(ms, v, equal) <==> m in ms && (Norm(m.value) == v) == equal
  {
    if ms != [] {
      var last := |ms| - 1;
      WithValueMember(ms[..last], v, equal, m);
      assert ms == ms[..last] + [ms[last]];
    }
  }

  lemma {:induction false} WithValueDistinct(ms: seq<Memory>, v: string, equal: bool)
    requires Distinct(Ids(ms))
    ensures Distinct(Ids(WithValue(ms, v, equal)))
  {
    if ms != [] {
      var last := |ms| - 1;
      assert Ids(ms[..last]) == Ids(ms)[..last];
      WithValueDistinct(ms[..last], v, equal);
      var rest := WithValue(ms[..last], v, equal);
      forall i | 0 <= i < |rest| ensures Ids(rest)[i] != ms[last].id {
        assert rest[i] in rest;
        WithValueMember(ms[..last], v, equal, rest[i]);
        IdsMember(ms[..last], rest[i]);
        var j :| 0 <= j < last && Ids(ms[..last])[j] == rest[i].id;
        assert Ids(ms)[j] != Ids(ms)[last];
      }
      DistinctAppend(Ids(rest), ms[last].id);
      assert Ids(rest + [ms[last]]) == Ids(rest) + [ms[last].id];
      assert rest + [] == rest;
    }
  }

  // Promotion keeps everything but the key, and the key's identity.
  lemma PromoteKeeps(m: Memory, incoming: Memory)
    requires SameIdentity(m, incoming)
    ensures var p := Promote(m, incoming.key);
            p == m.(key := p.key) && SameIdentity(p, m) && SignalOf(p) == SignalOf(m)
  {
    CanonicalIdempotent(incoming.key.value);
  }

  // Same value: nothing is added, and of the rows with the value the representative takes over
  // every source of the group and its best scores, while the others are retired in its favour.
  lemma MergeOutcome(incoming: Memory, existing: seq<Memory>, now: int, m: Memory)
    requires Matching(incoming, existing) && m in existing && Norm(m.value) == Norm(incoming.value)
    ensures var p := PlanOf(incoming, existing, now);
            var same := WithValue(existing, p.value, true);
            && m in same && Added(p) == None
            && var rep := Representative(same);
               && rep in existing && Norm(rep.value) == p.value && p.primary.id == rep.id
               && (m.id != rep.id ==> RowAfter(p, m) == Retired(m, Some(rep.id), now))
               && (m.id == rep.id && !p.clash ==>
                     RowAfter(p, m).sources == CollectSources(same + [incoming])
                     && RowAfter(p, m).status == Active && RowAfter(p, m).trust == MaxOf(same + [incoming], Trust))
  {
    var p := PlanOf(incoming, existing, now);
    var same := WithValue(existing, p.value, true);
    WithValueMember(existing, p.value, true, m);
    var rep := Representative(same);
    WithValueMember(existing, p.value, true, rep);
  }

  // Different values of a multi-valued key coexist: no row with another value changes, and a new
  // value is added as it came.
  lemma CoexistOutcome(incoming: Memory, existing: seq<Memory>, now: int, m: Memory)
    requires Matching(incoming, existing) && !SingleValued(incoming)
    requires m in existing && Norm(m.value) != Norm(incoming.value)
    ensures var p := PlanOf(incoming, existing, now);
            && RowAfter(p, m) == m
            && ((forall x | x in existing :: Norm(x.value) != Norm(incoming.value)) ==> Added(p) == Some(incoming))
  {
    PrimaryIs(incoming, existing, now);
  }

  // ---- The candidates of a clash ----

  function Candidates(incoming: Memory, existing: seq<Memory>, now: int): seq<Memory> {
    var p := PlanOf(incoming, existing, now);
    Promoted([p.primary] + WithValue(existing, p.value, false), incoming.key)
  }

  // The primary keeps its id, value and identity.
  lemma PrimaryIs(incoming: Memory, existing: seq<Memory>, now: int)
    requires Matching(incoming, existing)
    ensures var p := PlanOf(incoming, existing, now);
            && Norm(p.primary.value) == p.value
            && (p.merged ==> exists m | m in existing ::
                  && m.id == p.primary.id && Norm(m.value) == p.value
                  && p.primary.status == Active && SameIdentity(p.primary, incoming)
                  && p.primary.supersededBy == m.supersededBy)
            && (!p.merged ==> p.primary == incoming)
            && p.merged == exists m | m in existing :: Norm(m.value) == p.value
  {
    var p := PlanOf(incoming, existing, now);
    var same := WithValue(existing, p.value, true);
    forall m ensures m in same <==> m in existing && Norm(m.value) == p.value {
      WithValueMember(existing, p.value, true, m);
    }
    if p.merged {
      var rep := Representative(same);
      assert rep in existing && SameIdentity(rep, incoming);
      PromoteKeeps(rep, incoming);
      CanonicalIdempotent(incoming.key.value);
    } else {
      assert forall m | m in existing :: m !in same;
    }
  }

  lemma OtherValueOtherId(incoming: Memory, existing: seq<Memory>, now: int, m: Memory)
    requires Matching(incoming, existing) && m in existing && Norm(m.value) != Norm(incoming.value)
    ensures m.id != PlanOf(incoming, existing, now).primary.id
  {
    PrimaryIs(incoming, existing, now);
    var p := PlanOf(incoming, existing, now);
    if p.merged {
      var rep :| rep in existing && rep.id == p.primary.id && Norm(rep.value) == p.value;
      if m.id == rep.id { SameIdSame(existing, m, rep); }
    }
  }

  // Diff members and the primary, promoted: distinct ids, so the decision is about distinct memories.
  lemma CandidatesDistinct(incoming: Memory, existing: seq<Memory>, now: int)
    requires Matching(incoming, existing)
    ensures Distinct(Ids(Candidates(incoming, existing, now)))
  {
    var p := PlanOf(incoming, existing, now);
    var diff := WithValue(existing, p.value, false);
    WithValueDistinct(existing, p.value, false);
    PrimaryIs(incoming, existing, now);
    forall i | 0 <= i < |diff| ensures Ids(diff)[i] != p.primary.id {
      WithValueMember(existing, p.value, false, diff[i]);
      OtherValueOtherId(incoming, existing, now, diff[i]);
    }
    DistinctPrepend(p.primary.id, Ids(diff));
    PromotedIds([p.primary] + diff, incoming.key);
    IdsPrepend(p.primary, diff);
  }

  lemma IdsPrepend(m: Memory, ms: seq<Memory>)
    ensures Ids([m] + ms) == [m.id] + Ids(ms)
  {
  }

  lemma PromotedIds(ms: seq<Memory>, key: Option<string>)
    ensures Ids(Promoted(ms, key)) == Ids(ms)
  {
  }

  lemma PromotedMember(ms: seq<Memory>, key: Option<string>, m: Memory)
    requires m in ms
    ensures Promote(m, key) in Promoted(ms, key)
  {
    var i :| 0 <= i < |ms| && ms[i] == m;
    assert Promoted(ms, key)[i] == Promote(m, key);
  }

  // The candidates of the clash: the primary, and the rows with another value.
  lemma CandidateMember(incoming: Memory, existing: seq<Memory>, now: int, m: Memory)
    ensures var p := PlanOf(incoming, existing, now);
            m == p.primary || (m in existing && Norm(m.value) != p.value)
            ==> Promote(m, incoming.key) in Candidates(incoming, existing, now)
  {
    var p := PlanOf(incoming, existing, now);
    var diff := WithValue(existing, p.value, false);
    WithValueMember(existing, p.value, false, m);
    if m == p.primary || m in diff {
      assert m in [p.primary] + diff;
      PromotedMember([p.primary] + diff, incoming.key, m);
    }
  }

  lemma PromotedOrigin(ms: seq<Memory>, key: Option<string>, c: Memory) returns (m: Memory)
    requires c in Promoted(ms, key)
    ensures m in ms && c == Promote(m, key)
  {
    var i :| 0 <= i < |ms| && Promoted(ms, key)[i] == c;
    m := ms[i];
  }

  lemma CandidateOrigin(incoming: Memory, existing: seq<Memory>, now: int, c: Memory) returns (m: Memory)
    requires c in Candidates(incoming, existing, now)
    ensures var p := PlanOf(incoming, existing, now);
            && (m == p.primary || (m in existing && Norm(m.value) != p.value))
            && c == Promote(m, incoming.key)
  {
    var p := PlanOf(incoming, existing, now);
    var diff := WithValue(existing, p.value, false);
    m := PromotedOrigin([p.primary] + diff, incoming.key, c);
    WithValueMember(existing, p.value, false, m);
  }

  // What settling does to a candidate: the one that beats all others is left alone; another one
  // is conflicted, or retired in favour of a candidate that is not retired itself.
  ghost predicate Spared(c: Memory, d: Decision, now: int) {
    Settled(c, d, now) == c || Settled(c, d, now) == c.(status := Conflicted, updatedAt := now)
  }

  lemma SettledFate(candidates: seq<Memory>, c: Memory, now: int)
    requires Distinct(Ids(candidates)) && c in candidates
    ensures var d := DecideConflict(candidates);
            && (Beats(candidates, c) ==> Settled(c, d, now) == c)
            && (!Beats(candidates, c) ==>
                  || Settled(c, d, now) == c.(status := Conflicted, updatedAt := now)
                  || exists t | t in candidates :: t.id != c.id && Spared(t, d, now)
                       && Settled(c, d, now) == Retired(c, Some(t.id), now))
  {
    var d := DecideConflict(candidates);
    DecisionMeaning(candidates, c);
    SuccessorMeaning(candidates);
    if d.winner.Some? {
      var w :| w in candidates && w.id == d.winner.value;
      DecisionMeaning(candidates, w);
      assert Spared(w, d, now);
    } else {
      var t :| t in candidates && t.id == d.successor.value;
      DecisionMeaning(candidates, t);
      assert Spared(t, d, now);
      if Beats(candidates, c) {
        BeatsIsUnbeaten(candidates, c);
      }
    }
  }
}
