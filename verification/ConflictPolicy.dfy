/** Deterministic adjudication of memories that conflict on a single-valued key. */
module ConflictPolicy {
  import opened Prelude
  import opened Ordering
  import opened Memory

  // Highest priority first; Uncertain is no rule of the table but the outcome of a genuine tie.
  datatype Rule = UserCorrection | SourceAuthority | Branch | ValidTime | TrustRecency | Uncertain

  const RULES: seq<Rule> := [UserCorrection, SourceAuthority, Branch, ValidTime, TrustRecency]

  // What a rule sees of a memory: a pair compared lexicographically.
  datatype Mark = Mark(major: real, minor: int)

  // datetime.min stands in for a missing valid-from; only memories without one carry it as such.
  const MIN_TS: int := -62135596800

  function BranchRank(b: BranchStatus): real {
    match b
    case BranchCompleted => 3.0
    case BranchActive => 2.0
    case BranchRolledBack => 1.0
    case BranchFailed => 0.0
  }

  function Extract(rule: Rule, m: Memory): Mark {
    match rule
    case UserCorrection => Mark(if m.meta.userCorrection then 1.0 else 0.0, 0)
    case SourceAuthority => Mark(if m.memoryType in {WorkingState, Episodic} then 0.0 else 1.0, 0)
    case Branch => Mark(BranchRank(m.branch), 0)
    case ValidTime =>
      if m.meta.validFrom.Some? then Mark(1.0, m.meta.validFrom.value) else Mark(0.0, MIN_TS)
    case TrustRecency => Mark(m.trust, m.updatedAt)
    case Uncertain => Mark(0.0, 0)
  }

  predicate MarkLess(a: Mark, b: Mark) {
    a.major < b.major || (a.major == b.major && a.minor < b.minor)
  }

  datatype Signal = Signal(correction: Mark, authority: Mark, branch: Mark, valid: Mark, legacy: Mark)

  function SignalOf(m: Memory): Signal {
    Signal(Extract(UserCorrection, m), Extract(SourceAuthority, m), Extract(Branch, m),
           Extract(ValidTime, m), Extract(TrustRecency, m))
  }

  // Tuple comparison.
  predicate Weaker(a: Signal, b: Signal) {
    if a.correction != b.correction then MarkLess(a.correction, b.correction)
    else if a.authority != b.authority then MarkLess(a.authority, b.authority)
    else if a.branch != b.branch then MarkLess(a.branch, b.branch)
    else if a.valid != b.valid then MarkLess(a.valid, b.valid)
    else MarkLess(a.legacy, b.legacy)
  }

  lemma WeakerTotal(a: Signal, b: Signal)
    ensures a == b || Weaker(a, b) || Weaker(b, a)
    ensures !(Weaker(a, b) && Weaker(b, a)) && !Weaker(a, a)
  {
  }

  lemma WeakerTransitive(a: Signal, b: Signal, c: Signal)
    requires Weaker(a, b) && Weaker(b, c)
    ensures Weaker(a, c)
  {
  }

  // ---- The decision ----

  datatype Decision = Decision(
    winner: Option<string>,
    superseded: seq<string>,
    conflicted: seq<string>,
    successor: Option<string>,
    rule: Rule)

  // max(..., key=_signal): the first of the strongest.
  function Strongest(ms: seq<Memory>): Memory
    requires ms != []
  {
    var last := |ms| - 1;
    if last == 0 then ms[0]
    else
      var best := Strongest(ms[..last]);
      if Weaker(SignalOf(best), SignalOf(ms[last])) then ms[last] else best
  }

  function WithSignal(ms: seq<Memory>, top: Signal): seq<Memory> {
    if ms == [] then []
    else (if SignalOf(ms[0]) == top then [ms[0]] else []) + WithSignal(ms[1..], top)
  }

  function Without(ms: seq<Memory>, ids: seq<string>): seq<Memory> {
    if ms == [] then []
    else (if ms[0].id in ids then [] else [ms[0]]) + Without(ms[1..], ids)
  }

  function Ids(ms: seq<Memory>): seq<string> {
    seq(|ms|, i requires 0 <= i < |ms| => ms[i].id)
  }

  // The first rule in priority order on which the winner beats the strongest other candidate.
  function DecidingRule(winner: Memory, others: seq<Memory>): Rule {
    if others == [] then TrustRecency else FirstBeaten(RULES, winner, Strongest(others))
  }

  function FirstBeaten(rules: seq<Rule>, winner: Memory, runnerUp: Memory): Rule {
    if rules == [] then TrustRecency
    else if MarkLess(Extract(rules[0], runnerUp), Extract(rules[0], winner)) then rules[0]
    else FirstBeaten(rules[1..], winner, runnerUp)
  }

  function Tied(candidates: seq<Memory>): seq<Memory>
    requires candidates != []
  {
    WithSignal(candidates, SignalOf(Strongest(candidates)))
  }

  function Losers(candidates: seq<Memory>): seq<Memory>
    requires candidates != []
  {
    Without(candidates, Ids(Tied(candidates)))
  }

  function DecideConflict(candidates: seq<Memory>): Decision {
    if candidates == [] then Decision(None, [], [], None, Uncertain)
    else if |candidates| == 1 then Decision(Some(candidates[0].id), [], [], None, TrustRecency)
    else
      var tied, losers := Tied(candidates), Losers(candidates);
      SomeTied(candidates);
      if |tied| == 1 then
        Decision(Some(tied[0].id), Sort(Ids(losers)), [], None, DecidingRule(tied[0], losers))
      else
        Decision(None, Sort(Ids(losers)), Sort(Ids(tied)), Some(Sort(Ids(tied))[0]), Uncertain)
  }

  // ---- Strongest, tied and losing candidates ----

  lemma {:induction false} StrongestIsMax(ms: seq<Memory>)
    requires ms != []
    ensures Strongest(ms) in ms
    ensures forall m | m in ms :: !Weaker(SignalOf(Strongest(ms)), SignalOf(m))
  {
    var last := |ms| - 1;
    if last > 0 {
      StrongestIsMax(ms[..last]);
      var best := Strongest(ms[..last]);
      forall m | m in ms ensures !Weaker(SignalOf(Strongest(ms)), SignalOf(m)) {
        assert m in ms[..last] || m == ms[last];
        WeakerTotal(SignalOf(best), SignalOf(ms[last]));
        if m in ms[..last] && Weaker(SignalOf(ms[last]), SignalOf(m)) && Weaker(SignalOf(best), SignalOf(ms[last])) {
          WeakerTransitive(SignalOf(best), SignalOf(ms[last]), SignalOf(m));
        }
      }
    }
  }

  lemma {:induction false} WithSignalMember(ms: seq<Memory>, top: Signal, m: Memory)
    ensures multiset(WithSignal(ms, top))[m] == if SignalOf(m) == top then multiset(ms)[m] else 0
    ensures m in WithSignal(ms, top) <==> m in ms && SignalOf(m) == top
  {
    if ms != [] {
      WithSignalMember(ms[1..], top, m);
      assert ms == [ms[0]] + ms[1..];
    }
  }

  lemma {:induction false} WithoutMember(ms: seq<Memory>, ids: seq<string>, m: Memory)
    ensures multiset(Without(ms, ids))[m] == if m.id in ids then 0 else multiset(ms)[m]
    ensures m in Without(ms, ids) <==> m in ms && m.id !in ids
  {
    if ms != [] {
      WithoutMember(ms[1..], ids, m);
      assert ms == [ms[0]] + ms[1..];
    }
  }

  lemma SomeTied(candidates: seq<Memory>)
    requires candidates != []
    ensures Tied(candidates) != [] && Sort(Ids(Tied(candidates))) != []
  {
    var best := Strongest(candidates);
    StrongestIsMax(candidates);
    WithSignalMember(candidates, SignalOf(best), best);
    SortCorrect(Ids(Tied(candidates)));
    SameLength(Sort(Ids(Tied(candidates))), Ids(Tied(candidates)));
  }

  // The tied candidates are those that no candidate beats.
  lemma TiedMember(candidates: seq<Memory>, m: Memory)
    requires m in candidates
    ensures m in Tied(candidates) <==> forall x | x in candidates :: !Weaker(SignalOf(m), SignalOf(x))
  {
    var best := Strongest(candidates);
    StrongestIsMax(candidates);
    WithSignalMember(candidates, SignalOf(best), m);
    WeakerTotal(SignalOf(m), SignalOf(best));
  }

  // ---- Independence of the candidates' order ----

  lemma {:induction false} IdsPermute(a: seq<Memory>, b: seq<Memory>)
    requires multiset(a) == multiset(b)
    ensures multiset(Ids(a)) == multiset(Ids(b))
    decreases |a|
  {
    if a == [] {
      assert |multiset(b)| == 0;
    } else {
      assert a[0] in multiset(b);
      var j :| 0 <= j < |b| && b[j] == a[0];
      var rest := b[..j] + b[j + 1..];
      RemoveSame(a, b, j);
      IdsPermute(a[1..], rest);
      RemoveAt(Ids(a), 0);
      RemoveAt(Ids(b), j);
      assert Ids(a)[..0] + Ids(a)[1..] == Ids(a[1..]);
      assert Ids(b)[..j] + Ids(b)[j + 1..] == Ids(rest);
    }
  }

  lemma SameStrongest(a: seq<Memory>, b: seq<Memory>)
    requires a != [] && b != [] && multiset(a) == multiset(b)
    ensures SignalOf(Strongest(a)) == SignalOf(Strongest(b))
  {
    StrongestIsMax(a);
    StrongestIsMax(b);
    assert Strongest(a) in multiset(b) && Strongest(b) in multiset(a);
    WeakerTotal(SignalOf(Strongest(a)), SignalOf(Strongest(b)));
  }

  lemma SameTied(a: seq<Memory>, b: seq<Memory>)
    requires a != [] && b != [] && multiset(a) == multiset(b)
    ensures multiset(Tied(a)) == multiset(Tied(b))
  {
    SameStrongest(a, b);
    forall m ensures multiset(Tied(a))[m] == multiset(Tied(b))[m] {
      WithSignalMember(a, SignalOf(Strongest(a)), m);
      WithSignalMember(b, SignalOf(Strongest(b)), m);
    }
  }

  lemma SameLosers(a: seq<Memory>, b: seq<Memory>)
    requires a != [] && b != [] && multiset(a) == multiset(b)
    ensures multiset(Losers(a)) == multiset(Losers(b))
  {
    SameTied(a, b);
    IdsPermute(Tied(a), Tied(b));
    forall m ensures multiset(Losers(a))[m] == multiset(Losers(b))[m] {
      WithoutMember(a, Ids(Tied(a)), m);
      WithoutMember(b, Ids(Tied(b)), m);
      assert m.id in multiset(Ids(Tied(a))) <==> m.id in multiset(Ids(Tied(b)));
    }
  }

  lemma {:induction false} FirstBeatenBySignal(rules: seq<Rule>, w: Memory, r: Memory, s: Memory)
    requires SignalOf(r) == SignalOf(s)
    ensures FirstBeaten(rules, w, r) == FirstBeaten(rules, w, s)
  {
    if rules != [] {
      FirstBeatenBySignal(rules[1..], w, r, s);
      assert Extract(rules[0], r) == Extract(rules[0], s);
    }
  }

  lemma SameRule(winner: Memory, a: seq<Memory>, b: seq<Memory>)
    requires multiset(a) == multiset(b)
    ensures DecidingRule(winner, a) == DecidingRule(winner, b)
  {
    assert |multiset(a)| == |a| && |multiset(b)| == |b|;
    if a != [] {
      SameStrongest(a, b);
      FirstBeatenBySignal(RULES, winner, Strongest(a), Strongest(b));
    }
  }

  lemma SameSortedIds(a: seq<Memory>, b: seq<Memory>)
    requires multiset(a) == multiset(b)
    ensures Sort(Ids(a)) == Sort(Ids(b)) && |a| == |b|
  {
    IdsPermute(a, b);
    SortDependsOnMultiset(Ids(a), Ids(b));
    SameLength(a, b);
  }

  // The decision depends on the candidates only, not on their order.
  lemma OrderIndependent(a: seq<Memory>, b: seq<Memory>)
    requires multiset(a) == multiset(b)
    ensures DecideConflict(a) == DecideConflict(b)
  {
    SameLength(a, b);
    if |a| == 1 {
      assert a[0] in multiset(b);
    } else if |a| > 1 {
      SameTied(a, b);
      SameLosers(a, b);
      SameSortedIds(Tied(a), Tied(b));
      SameSortedIds(Losers(a), Losers(b));
      if |Tied(a)| == 1 {
        SameSole(Tied(a), Tied(b));
        SameRule(Tied(a)[0], Losers(a), Losers(b));
      }
    }
  }

  lemma SameSole(a: seq<Memory>, b: seq<Memory>)
    requires |a| == |b| == 1 && multiset(a) == multiset(b)
    ensures a == b
  {
    assert a[0] in multiset(b);
  }

  // ---- What the decision means ----

  lemma IdsMember(ms: seq<Memory>, m: Memory)
    requires m in ms
    ensures m.id in Ids(ms)
  {
    var i :| 0 <= i < |ms| && ms[i] == m;
    assert Ids(ms)[i] == m.id;
  }

  lemma IdOwner(ms: seq<Memory>, id: string) returns (m: Memory)
    requires id in Ids(ms)
    ensures m in ms && m.id == id
  {
    var i :| 0 <= i < |ms| && Ids(ms)[i] == id;
    m := ms[i];
  }

  lemma SameIdSame(ms: seq<Memory>, a: Memory, b: Memory)
    requires Distinct(Ids(ms)) && a in ms && b in ms && a.id == b.id
    ensures a == b
  {
    var i :| 0 <= i < |ms| && ms[i] == a;
    var j :| 0 <= j < |ms| && ms[j] == b;
    assert Ids(ms)[i] == Ids(ms)[j];
  }

  lemma SortedIds(ms: seq<Memory>, id: string)
    ensures id in Sort(Ids(ms)) <==> id in Ids(ms)
  {
    SortCorrect(Ids(ms));
    assert id in multiset(Sort(Ids(ms))) <==> id in multiset(Ids(ms));
  }

  predicate Beats(candidates: seq<Memory>, w: Memory) {
    forall x | x in candidates && x != w :: Weaker(SignalOf(x), SignalOf(w))
  }

  // A candidate loses exactly when some candidate beats it.
  lemma LoserMember(candidates: seq<Memory>, m: Memory)
    requires Distinct(Ids(candidates)) && m in candidates
    ensures m.id in Ids(Losers(candidates)) <==> m !in Tied(candidates)
    ensures m.id in Ids(Tied(candidates)) <==> m in Tied(candidates)
  {
    var tied := Tied(candidates);
    if m.id in Ids(tied) {
      var t := IdOwner(tied, m.id);
      TiedSubset(candidates, t);
      SameIdSame(candidates, t, m);
    }
    if m in tied { IdsMember(tied, m); }
    WithoutMember(candidates, Ids(tied), m);
    if m !in tied { IdsMember(Losers(candidates), m); }
    if m.id in Ids(Losers(candidates)) {
      var l := IdOwner(Losers(candidates), m.id);
      WithoutMember(candidates, Ids(tied), l);
    }
  }

  lemma TiedSubset(candidates: seq<Memory>, m: Memory)
    requires candidates != [] && m in Tied(candidates)
    ensures m in candidates
  {
    WithSignalMember(candidates, SignalOf(Strongest(candidates)), m);
  }

  lemma {:induction false} FilteredDistinct(ms: seq<Memory>, top: Signal)
    requires Distinct(Ids(ms))
    ensures Distinct(WithSignal(ms, top))
  {
    DistinctIds(ms);
    DistinctCount(ms);
    forall m ensures multiset(WithSignal(ms, top))[m] <= 1 {
      WithSignalMember(ms, top, m);
    }
    DistinctCount(WithSignal(ms, top));
  }

  lemma DistinctIds(ms: seq<Memory>)
    requires Distinct(Ids(ms))
    ensures Distinct(ms)
  {
    forall i, j | 0 <= i < j < |ms| ensures ms[i] != ms[j] {
      assert Ids(ms)[i] != Ids(ms)[j];
    }
  }

  // There is a winner exactly when one candidate beats all others.
  lemma BeatsIsSoleTied(candidates: seq<Memory>, m: Memory)
    requires Distinct(Ids(candidates)) && m in candidates
    ensures Beats(candidates, m) <==> Tied(candidates) == [m]
  {
    var tied := Tied(candidates);
    TiedMember(candidates, m);
    if Beats(candidates, m) {
      forall x | x in candidates ensures !Weaker(SignalOf(m), SignalOf(x)) {
        WeakerTotal(SignalOf(x), SignalOf(m));
      }
      forall t | t in tied ensures t == m {
        TiedSubset(candidates, t);
        TiedMember(candidates, t);
        WeakerTotal(SignalOf(t), SignalOf(m));
      }
      FilteredDistinct(candidates, SignalOf(Strongest(candidates)));
      AllSame(tied, m);
    }
    if tied == [m] {
      StrongestIsMax(candidates);
      forall x | x in candidates && x != m ensures Weaker(SignalOf(x), SignalOf(m)) {
        WithSignalMember(candidates, SignalOf(Strongest(candidates)), x);
        WithSignalMember(candidates, SignalOf(Strongest(candidates)), m);
        WeakerTotal(SignalOf(x), SignalOf(m));
      }
    }
  }

  lemma NotTiedIsBeaten(candidates: seq<Memory>, m: Memory)
    requires m in candidates
    ensures m !in Tied(candidates) <==> exists x | x in candidates :: Weaker(SignalOf(m), SignalOf(x))
  {
    TiedMember(candidates, m);
  }

  // The fate of every candidate: the winner beats all others, the superseded are beaten by someone,
  // and the unbeaten ones are conflicted when there is no winner.
  lemma DecisionMeaning(candidates: seq<Memory>, m: Memory)
    requires Distinct(Ids(candidates)) && m in candidates
    ensures var d := DecideConflict(candidates);
            && (d.winner == Some(m.id) <==> Beats(candidates, m))
            && (m.id in d.superseded <==> exists x | x in candidates :: Weaker(SignalOf(m), SignalOf(x)))
            && (m.id in d.conflicted
                <==> d.winner.None? && forall x | x in candidates :: !Weaker(SignalOf(m), SignalOf(x)))
  {
    if |candidates| == 1 {
      WeakerTotal(SignalOf(m), SignalOf(m));
    } else {
      var tied, losers := Tied(candidates), Losers(candidates);
      SomeTied(candidates);
      BeatsIsSoleTied(candidates, m);
      NotTiedIsBeaten(candidates, m);
      LoserMember(candidates, m);
      SortedIds(losers, m.id);
      SortedIds(tied, m.id);
      if |tied| == 1 {
        TiedSubset(candidates, tied[0]);
        if tied[0].id == m.id { SameIdSame(candidates, tied[0], m); }
      }
    }
  }

  // Without a winner, losers are anchored at the least conflicted id.
  lemma SuccessorMeaning(candidates: seq<Memory>)
    requires candidates != []
    ensures var d := DecideConflict(candidates);
            && (d.winner.Some? <==> d.successor.None?)
            && (d.winner.Some? ==> d.conflicted == [])
            && (d.successor.Some? ==> d.successor.value in d.conflicted
                                      && forall id | id in d.conflicted :: Leq(d.successor.value, id))
            && (d.winner.Some? ==> exists m | m in candidates :: m.id == d.winner.value)
            && (forall id | id in d.conflicted || id in d.superseded :: exists m | m in candidates :: m.id == id)
  {
    var d := DecideConflict(candidates);
    if |candidates| > 1 {
      var tied, losers := Tied(candidates), Losers(candidates);
      SomeTied(candidates);
      SortCorrect(Ids(tied));
      forall id | id in d.conflicted ensures d.successor.Some? ==> Leq(d.successor.value, id) {
        HeadIsLeast(Sort(Ids(tied)), id);
      }
      forall id | id in d.conflicted || id in d.superseded ensures exists m | m in candidates :: m.id == id {
        SortedIds(tied, id);
        SortedIds(losers, id);
        if id in Ids(tied) {
          var m := IdOwner(tied, id);
          TiedSubset(candidates, m);
        } else {
          var m := IdOwner(losers, id);
          WithoutMember(candidates, Ids(tied), m);
        }
      }
      if |tied| == 1 { TiedSubset(candidates, tied[0]); }
    } else {
      assert candidates[0] in candidates;
    }
  }

  ghost predicate HasBest(candidates: seq<Memory>) {
    exists m | m in candidates :: Beats(candidates, m)
  }

  // There is a winner exactly when one candidate beats all the others.
  lemma SomeoneWins(candidates: seq<Memory>)
    requires Distinct(Ids(candidates))
    ensures DecideConflict(candidates).winner.Some? <==> HasBest(candidates)
  {
    var d := DecideConflict(candidates);
    if d.winner.Some? {
      SuccessorMeaning(candidates);
      var m :| m in candidates && m.id == d.winner.value;
      DecisionMeaning(candidates, m);
      assert m in candidates && Beats(candidates, m);
    } else {
      forall m | m in candidates ensures !Beats(candidates, m) {
        DecisionMeaning(candidates, m);
      }
    }
  }

  lemma SubBags(candidates: seq<Memory>)
    requires candidates != []
    ensures multiset(Tied(candidates)) <= multiset(candidates)
    ensures multiset(Losers(candidates)) <= multiset(candidates)
  {
    forall m ensures multiset(Tied(candidates))[m] <= multiset(candidates)[m]
             ensures multiset(Losers(candidates))[m] <= multiset(candidates)[m]
    {
      WithSignalMember(candidates, SignalOf(Strongest(candidates)), m);
      WithoutMember(candidates, Ids(Tied(candidates)), m);
    }
  }

  ghost function Roles(d: Decision, id: string): nat {
    (if d.winner == Some(id) then 1 else 0) + multiset(d.superseded)[id] + multiset(d.conflicted)[id]
  }

  // Winner, superseded and conflicted ids partition the candidates: each id is in exactly one.
  lemma Partition(candidates: seq<Memory>, m: Memory)
    requires Distinct(Ids(candidates)) && m in candidates
    ensures Roles(DecideConflict(candidates), m.id) == 1
  {
    if |candidates| > 1 {
      var tied, losers := Tied(candidates), Losers(candidates);
      SubBags(candidates);
      OnceEach(losers, candidates, m.id);
      OnceEach(tied, candidates, m.id);
      LoserMember(candidates, m);
      SomeTied(candidates);
      if |tied| == 1 {
        TiedSubset(candidates, tied[0]);
        if tied[0].id == m.id { SameIdSame(candidates, tied[0], m); }
      }
    }
  }

  // The named rule is the first one, in priority order, on which the winner and the strongest
  // other candidate differ, and there the winner is ahead; so the fallback label is never the
  // reason for a win over somebody.
  lemma RuleMeaning(candidates: seq<Memory>, w: Memory) returns (k: nat)
    requires |candidates| > 1 && Distinct(Ids(candidates)) && w in candidates && Beats(candidates, w)
    ensures Losers(candidates) != []
    ensures k < |RULES| && DecideConflict(candidates).rule == RULES[k]
    ensures var runnerUp := Strongest(Losers(candidates));
            && runnerUp in candidates && runnerUp != w
            && (forall x | x in candidates && x != w :: !Weaker(SignalOf(runnerUp), SignalOf(x)))
            && MarkLess(Extract(RULES[k], runnerUp), Extract(RULES[k], w))
            && forall i | 0 <= i < k :: Extract(RULES[i], runnerUp) == Extract(RULES[i], w)
  {
    var losers := Losers(candidates);
    BeatsIsSoleTied(candidates, w);
    forall x | x in candidates && x != w ensures x in losers {
      WithoutMember(candidates, Ids(Tied(candidates)), x);
      if x.id in Ids(Tied(candidates)) { SameIdSame(candidates, x, w); }
    }
    DistinctIds(candidates);
    assert candidates[0] != candidates[1];
    assert losers != [] by {
      var x := if candidates[0] == w then candidates[1] else candidates[0];
      assert x in candidates && x in losers;
    }
    StrongestIsMax(losers);
    var runnerUp := Strongest(losers);
    WithoutMember(candidates, Ids(Tied(candidates)), runnerUp);
    IdsMember(Tied(candidates), w);
    k := FirstDifference(w, runnerUp);
  }

  lemma FirstDifference(w: Memory, r: Memory) returns (k: nat)
    requires Weaker(SignalOf(r), SignalOf(w))
    ensures k < |RULES| && FirstBeaten(RULES, w, r) == RULES[k]
    ensures MarkLess(Extract(RULES[k], r), Extract(RULES[k], w))
    ensures forall i | 0 <= i < k :: Extract(RULES[i], r) == Extract(RULES[i], w)
  {
    var a, b := SignalOf(r), SignalOf(w);
    k := if a.correction != b.correction then 0 else if a.authority != b.authority then 1
         else if a.branch != b.branch then 2 else if a.valid != b.valid then 3 else 4;
    FirstAt(RULES, w, r, k);
  }

  lemma {:induction false} FirstAt(rules: seq<Rule>, w: Memory, r: Memory, k: nat)
    requires k < |rules| && MarkLess(Extract(rules[k], r), Extract(rules[k], w))
    requires forall i | 0 <= i < k :: Extract(rules[i], r) == Extract(rules[i], w)
    ensures FirstBeaten(rules, w, r) == rules[k]
  {
    if k > 0 {
      FirstAt(rules[1..], w, r, k - 1);
    }
  }

  // Ids drawn without repetition from distinct candidates occur once each after sorting.
  lemma OnceEach(part: seq<Memory>, candidates: seq<Memory>, id: string)
    requires Distinct(Ids(candidates)) && multiset(part) <= multiset(candidates)
    ensures multiset(Sort(Ids(part)))[id] == if id in Ids(part) then 1 else 0
  {
    SortCorrect(Ids(part));
    forall i, j | 0 <= i < j < |part| ensures Ids(part)[i] != Ids(part)[j] {
      assert part[i] in multiset(part) && part[j] in multiset(part);
      if part[i].id == part[j].id {
        SameIdSame(candidates, part[i], part[j]);
        RemoveAt(part, j);
        assert part[i] in part[..j] + part[j + 1..];
        DistinctIds(candidates);
        DistinctCount(candidates);
      }
    }
    DistinctCount(Ids(part));
  }

  lemma OneBeats(candidates: seq<Memory>, a: Memory, b: Memory)
    requires a in candidates && b in candidates && Beats(candidates, a) && Beats(candidates, b)
    ensures a == b
  {
    if a != b {
      WeakerTotal(SignalOf(a), SignalOf(b));
    }
  }

  lemma BeatsIsUnbeaten(candidates: seq<Memory>, m: Memory)
    requires m in candidates && Beats(candidates, m)
    ensures forall x | x in candidates :: !Weaker(SignalOf(m), SignalOf(x))
  {
    forall x | x in candidates ensures !Weaker(SignalOf(m), SignalOf(x)) {
      WeakerTotal(SignalOf(x), SignalOf(m));
    }
  }

  // ---- The decision in the fields of the memories ----

  // One memory is ahead of another on the first thing on which they differ: a user correction; a type
  // other than working state and episode; how far its branch got; a start of validity, and the later one;
  // trust; the later update.
  predicate Outranks(a: Memory, b: Memory) {
    if a.meta.userCorrection != b.meta.userCorrection then a.meta.userCorrection
    else if Passing(a) != Passing(b) then Passing(b)
    else if a.branch != b.branch then
      a.branch == BranchCompleted || b.branch == BranchFailed
      || (a.branch == BranchActive && b.branch == BranchRolledBack)
    else if a.meta.validFrom != b.meta.validFrom then
      a.meta.validFrom.Some? && (b.meta.validFrom == None || a.meta.validFrom.value > b.meta.validFrom.value)
    else if a.trust != b.trust then a.trust > b.trust
    else a.updatedAt > b.updatedAt
  }

  predicate Passing(m: Memory) {
    m.memoryType == WorkingState || m.memoryType == Episodic
  }

  // That is what the signals compare.
  lemma OutranksMeaning(a: Memory, b: Memory)
    ensures Outranks(a, b) <==> Weaker(SignalOf(b), SignalOf(a))
    ensures !Outranks(a, b) && !Outranks(b, a) <==> SignalOf(a) == SignalOf(b)
  {
    SameMarks(a, b);
    WeakerTotal(SignalOf(a), SignalOf(b));
    OutranksOne(a, b);
    OutranksOne(b, a);
  }

  // Two memories differ on a rule exactly when they differ in what it looks at.
  lemma SameMarks(a: Memory, b: Memory)
    ensures Extract(UserCorrection, a) == Extract(UserCorrection, b) <==> a.meta.userCorrection == b.meta.userCorrection
    ensures Extract(SourceAuthority, a) == Extract(SourceAuthority, b) <==> (Passing(a) <==> Passing(b))
    ensures Extract(Branch, a) == Extract(Branch, b) <==> a.branch == b.branch
    ensures Extract(ValidTime, a) == Extract(ValidTime, b) <==> a.meta.validFrom == b.meta.validFrom
    ensures Extract(TrustRecency, a) == Extract(TrustRecency, b) <==> a.trust == b.trust && a.updatedAt == b.updatedAt
  {
  }

  lemma OutranksOne(a: Memory, b: Memory)
    ensures Outranks(a, b) <==> Weaker(SignalOf(b), SignalOf(a))
  {
    SameMarks(a, b);
  }

  // A candidate wins if and only if it outranks every other one; it is superseded if and only if some
  // candidate outranks it, and conflicted if and only if nobody wins and no candidate does. Both lists
  // are in code-point order.
  lemma DecidedByFields(candidates: seq<Memory>, m: Memory)
    requires Distinct(Ids(candidates)) && m in candidates
    ensures var d := DecideConflict(candidates);
            && (d.winner == Some(m.id) <==> forall x | x in candidates && x != m :: Outranks(m, x))
            && (m.id in d.superseded <==> exists x | x in candidates :: Outranks(x, m))
            && (m.id in d.conflicted <==> d.winner.None? && forall x | x in candidates :: !Outranks(x, m))
            && Sorted(d.superseded) && Sorted(d.conflicted)
  {
    DecisionMeaning(candidates, m);
    forall x, y ensures Outranks(x, y) <==> Weaker(SignalOf(y), SignalOf(x)) {
      OutranksMeaning(x, y);
    }
    ListsSorted(candidates);
  }

  lemma ListsSorted(candidates: seq<Memory>)
    ensures Sorted(DecideConflict(candidates).superseded) && Sorted(DecideConflict(candidates).conflicted)
  {
    if |candidates| > 1 {
      SortCorrect(Ids(Tied(candidates)));
      SortCorrect(Ids(Losers(candidates)));
    }
  }

  // The first thing on which two memories differ, as the rules are named.
  function DecidedBy(a: Memory, b: Memory): Rule {
    if a.meta.userCorrection != b.meta.userCorrection then UserCorrection
    else if Passing(a) != Passing(b) then SourceAuthority
    else if a.branch != b.branch then Branch
    else if a.meta.validFrom != b.meta.validFrom then ValidTime
    else TrustRecency
  }

  // The rule named for a win is the first on which the winner differs from a runner-up that no other
  // candidate outranks.
  lemma RuleByFields(candidates: seq<Memory>, w: Memory) returns (runnerUp: Memory)
    requires |candidates| > 1 && Distinct(Ids(candidates)) && w in candidates
    requires forall x | x in candidates && x != w :: Outranks(w, x)
    ensures runnerUp in candidates && runnerUp != w
    ensures forall x | x in candidates && x != w :: !Outranks(x, runnerUp)
    ensures DecideConflict(candidates).winner == Some(w.id)
    ensures DecideConflict(candidates).rule == DecidedBy(w, runnerUp)
  {
    forall x, y ensures Outranks(x, y) <==> Weaker(SignalOf(y), SignalOf(x)) {
      OutranksMeaning(x, y);
    }
    DecisionMeaning(candidates, w);
    var k := RuleMeaning(candidates, w);
    runnerUp := Strongest(Losers(candidates));
    NamedRule(w, runnerUp, k);
  }

  lemma NamedRule(a: Memory, b: Memory, k: nat)
    requires k < |RULES| && Extract(RULES[k], b) != Extract(RULES[k], a)
    requires forall i | 0 <= i < k :: Extract(RULES[i], b) == Extract(RULES[i], a)
    ensures DecidedBy(a, b) == RULES[k]
  {
    SameMarks(a, b);
    assert k > 0 ==> Extract(UserCorrection, b) == Extract(RULES[0], a);
    assert k > 1 ==> Extract(SourceAuthority, b) == Extract(RULES[1], a);
    assert k > 2 ==> Extract(Branch, b) == Extract(RULES[2], a);
    assert k > 3 ==> Extract(ValidTime, b) == Extract(RULES[3], a);
  }

  // The rule is uncertain exactly when nobody wins; nobody wins among no candidates, and a sole one wins by
  // the last rule.
  lemma UncertainIff(candidates: seq<Memory>)
    ensures DecideConflict(candidates).rule == Uncertain <==> DecideConflict(candidates).winner == None
    ensures candidates == [] ==> DecideConflict(candidates).winner == None
    ensures |candidates| == 1 ==>
              DecideConflict(candidates).winner == Some(candidates[0].id)
              && DecideConflict(candidates).rule == TrustRecency
  {
    if |candidates| > 1 && |Tied(candidates)| == 1 {
      NeverUncertain(Tied(candidates)[0], Losers(candidates));
    }
  }

  lemma NeverUncertain(winner: Memory, others: seq<Memory>)
    ensures DecidingRule(winner, others) != Uncertain
  {
    if others != [] { FirstBeatenListed(RULES, winner, Strongest(others)); }
  }

  lemma {:induction false} FirstBeatenListed(rules: seq<Rule>, winner: Memory, runnerUp: Memory)
    ensures FirstBeaten(rules, winner, runnerUp) in rules || FirstBeaten(rules, winner, runnerUp) == TrustRecency
  {
    if rules != [] { FirstBeatenListed(rules[1..], winner, runnerUp); }
  }
}
