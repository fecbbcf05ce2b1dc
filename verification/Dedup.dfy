/**
 Offline dedup: of the active memories with the same canonical key, scope and value one remains, and the
 others are superseded by it.
 */
module Dedup {
  import opened Prelude
  import opened Ordering
  import opened Text
  import opened KeyOntology
  import opened Memory
  import opened ConflictPolicy
  import opened Resolver
  import opened MemoryStore
  import opened Lineage
  import opened Repository
  import L = Lifecycle

  // ---- What dedup looks at ----

  const SECRET_KEY_TERMS := [
    "api_key", "apikey", "authorization", "password", "passwd", "secret", "token", "credential",
    "credentials", "access_key", "private_key"
  ]

  predicate Contains(s: string, term: string) {
    term <= s || (s != "" && Contains(s[1..], term))
  }

  function Underscored(s: string): string {
    seq(|s|, i requires 0 <= i < |s| => if s[i] == '-' then '_' else s[i])
  }

  predicate SecretLike(key: string) {
    exists term | term in SECRET_KEY_TERMS :: Contains(Underscored(Lower(key)), term)
  }

  predicate Sensitive(m: Memory) {
    || m.status in {Pinned, Quarantined, Conflicted}
    || (m.key.Some? && (SecretLike(m.key.value) || SecretLike(Canonical(m.key.value))))
    || m.secret || m.flags.containsSecret || m.meta.withheld
  }

  predicate Eligible(m: Memory) {
    m.status == Active && !Sensitive(m) && m.key.Some? && m.value.Some?
  }

  datatype Group = Group(key: string, scope: Scope, value: string)

  function GroupOf(m: Memory): Group
    requires m.key.Some?
  {
    Group(Canonical(m.key.value), m.scope, Norm(m.value))
  }

  // The sort key: more trusted, more confident, more used, older, smaller id.
  predicate Ahead(a: Memory, b: Memory) {
    if a.trust != b.trust then a.trust > b.trust
    else if a.confidence != b.confidence then a.confidence > b.confidence
    else if a.accessCount != b.accessCount then a.accessCount > b.accessCount
    else if a.createdAt != b.createdAt then a.createdAt < b.createdAt
    else Less(a.id, b.id)
  }

  lemma AheadTotal(a: Memory, b: Memory)
    ensures a.id != b.id ==> Ahead(a, b) || Ahead(b, a)
    ensures !(Ahead(a, b) && Ahead(b, a))
  {
    LeqTotal(a.id, b.id);
    if Leq(a.id, b.id) && Leq(b.id, a.id) { LeqAntisymmetric(a.id, b.id); }
  }

  lemma AheadTransitive(a: Memory, b: Memory, c: Memory)
    requires Ahead(a, b) && Ahead(b, c)
    ensures Ahead(a, c)
  {
    if Leq(a.id, b.id) && Leq(b.id, c.id) {
      LeqTransitive(a.id, b.id, c.id);
      if a.id == c.id { LeqAntisymmetric(a.id, b.id); }
    }
  }

  // ---- What dedup does ----

  predicate Member(rows: Store, ws: string, id: string, g: Group) {
    id in rows && rows[id].workspace == ws && Eligible(rows[id]) && GroupOf(rows[id]) == g
  }

  // The survivor of a memory's group is ahead of all its other members.
  ghost predicate Survives(rows: Store, ws: string, s: string, id: string) {
    && id in rows && Eligible(rows[id])
    && Member(rows, ws, s, GroupOf(rows[id])) && Member(rows, ws, id, GroupOf(rows[id]))
    && forall x | Member(rows, ws, x, GroupOf(rows[id])) && x != s :: Ahead(rows[s], rows[x])
  }

  ghost predicate Deduped(rows: Store, ws: string, id: string, after: Memory, at: int)
    requires id in rows
  {
    if rows[id].workspace == ws && Eligible(rows[id]) then
      exists s :: Survives(rows, ws, s, id)
                  && after == if s == id then rows[id] else Retired(rows[id], Some(s), at)
    else after == rows[id]
  }

  ghost predicate DedupedStore(rows: Store, ws: string, after: Store, at: int) {
    after.Keys == rows.Keys && forall id | id in rows :: Deduped(rows, ws, id, after[id], at)
  }

  // There is one survivor, whatever order the memories are listed in.
  lemma OneSurvivor(rows: Store, ws: string, s: string, t: string, id: string)
    requires Survives(rows, ws, s, id) && Survives(rows, ws, t, id)
    ensures s == t
  {
    if s != t { AheadTotal(rows[s], rows[t]); }
  }

  // ---- Sorting a group ----

  function InsertRanked(m: Memory, ms: seq<Memory>): seq<Memory> {
    if ms == [] || Ahead(m, ms[0]) then [m] + ms else [ms[0]] + InsertRanked(m, ms[1..])
  }

  function SortRanked(ms: seq<Memory>): seq<Memory> {
    if ms == [] then [] else InsertRanked(ms[0], SortRanked(ms[1..]))
  }

  ghost predicate Ranked(ms: seq<Memory>) {
    forall i, j | 0 <= i < j < |ms| :: Ahead(ms[i], ms[j])
  }

  lemma {:induction false} InsertRankedCorrect(m: Memory, ms: seq<Memory>)
    requires Ranked(ms) && forall x | x in ms :: x.id != m.id
    ensures Ranked(InsertRanked(m, ms))
    ensures forall x :: x in InsertRanked(m, ms) <==> x == m || x in ms
  {
    if ms == [] {
    } else if Ahead(m, ms[0]) {
      forall i | 0 <= i < |ms| ensures Ahead(m, ms[i]) {
        if i > 0 { AheadTransitive(m, ms[0], ms[i]); }
      }
    } else {
      AheadTotal(m, ms[0]);
      InsertRankedCorrect(m, ms[1..]);
      var rest := InsertRanked(m, ms[1..]);
      forall i | 0 <= i < |rest| ensures Ahead(ms[0], rest[i]) {
        assert rest[i] in rest;
        HeadAhead(ms, rest[i]);
      }
    }
  }

  lemma HeadAhead(ms: seq<Memory>, x: Memory)
    requires ms != [] && Ranked(ms)
    ensures x in ms[1..] ==> Ahead(ms[0], x)
  {
  }

  lemma {:induction false} SortRankedCorrect(ms: seq<Memory>)
    requires Distinct(Ids(ms))
    ensures Ranked(SortRanked(ms))
    ensures forall x :: x in SortRanked(ms) <==> x in ms
  {
    if ms != [] {
      assert Ids(ms[1..]) == Ids(ms)[1..];
      SortRankedCorrect(ms[1..]);
      forall x | x in ms[1..] ensures x.id != ms[0].id {
        var i :| 0 <= i < |ms| - 1 && ms[1..][i] == x;
        assert Ids(ms)[0] != Ids(ms)[i + 1];
      }
      InsertRankedCorrect(ms[0], SortRanked(ms[1..]));
    }
  }

  // ---- The operation ----

  function Members(ms: seq<Memory>, g: Group): seq<Memory> {
    if ms == [] then []
    else
      var m := ms[|ms| - 1];
      Members(ms[..|ms| - 1], g) + if Eligible(m) && GroupOf(m) == g then [m] else []
  }

  lemma {:induction false} MembersMeaning(ms: seq<Memory>, g: Group)
    requires Distinct(Ids(ms))
    ensures Distinct(Ids(Members(ms, g)))
    ensures forall m :: m in Members(ms, g) <==> m in ms && Eligible(m) && GroupOf(m) == g
  {
    if ms != [] {
      var last := |ms| - 1;
      assert Ids(ms[..last]) == Ids(ms)[..last];
      MembersMeaning(ms[..last], g);
      EarlierIds(ms, last);
      var front := Members(ms[..last], g);
      FreshId(front, ms[last].id);
      DistinctAppend(Ids(front), ms[last].id);
      assert Ids(front + [ms[last]]) == Ids(front) + [ms[last].id];
      assert front + [] == front;
      assert ms == ms[..last] + [ms[last]];
    }
  }

  method GroupListed(ms: seq<Memory>) returns (groups: map<Group, seq<Memory>>)
    ensures forall g | g in groups :: groups[g] == Members(ms, g) && groups[g] != []
    ensures forall g | g !in groups :: Members(ms, g) == []
  {
    groups := map[];
    for i := 0 to |ms|
      invariant forall g | g in groups :: groups[g] == Members(ms[..i], g) && groups[g] != []
      invariant forall g | g !in groups :: Members(ms[..i], g) == []
    {
      assert ms[..i + 1][..i] == ms[..i];
      var m := ms[i];
      if Eligible(m) {
        var g := GroupOf(m);
        groups := groups[g := (if g in groups then groups[g] else []) + [m]];
      }
    }
    assert ms[..|ms|] == ms;
  }

  // A store in which the given memories have been retired in favour of another.
  function RetiredIn(rows: Store, ms: seq<Memory>, s: string, at: int): Store {
    map id | id in rows :: RetiredRow(rows[id], ms, s, at)
  }

  function RetiredRow(row: Memory, ms: seq<Memory>, s: string, at: int): Memory {
    if row in ms then Retired(row, Some(s), at) else row
  }

  function Pairs(s: string, ms: seq<Memory>): set<(string, string)> {
    set m | m in ms :: (s, m.id)
  }

  // The audits of retired duplicates.
  function RetireAudits(ms: seq<Memory>): seq<L.Audit> {
    seq(|ms|, i requires 0 <= i < |ms| => L.Audit(ms[i].id, Active, Superseded, L.Scheduler))
  }

  ghost predicate Present(rows: Store, ms: seq<Memory>) {
    forall m | m in ms :: m.id in rows && rows[m.id] == m && m.status == Active
  }

  method RetireOne(repo: MemoryRepository, m: Memory, survivor: string, at: int)
    requires m.id in repo.rows && repo.rows[m.id] == m && m.status == Active
    modifies repo
    ensures repo.rows == old(repo.rows)[m.id := Retired(m, Some(survivor), at)]
    ensures repo.audits == old(repo.audits) + RetireAudits([m])
  {
    var moved := L.Transition(m, Superseded, L.Scheduler, at);
    var refusal := repo.TransitionWithAudit(moved.value.0.(supersededBy := Some(survivor)), moved.value.1);
  }

  lemma RetiredNext(rows: Store, ordered: seq<Memory>, i: nat, at: int)
    requires Ranked(ordered) && Keyed(rows) && Present(rows, ordered) && i + 1 < |ordered|
    ensures var m, before := ordered[i + 1], RetiredIn(rows, ordered[1..][..i], ordered[0].id, at);
            && m.id in before && before[m.id] == m && m.status == Active
            && RetiredIn(rows, ordered[1..][..i + 1], ordered[0].id, at)
               == before[m.id := Retired(m, Some(ordered[0].id), at)]
  {
    NotYet(ordered, i);
    assert ordered[i + 1] in ordered;
    assert ordered[1..][..i + 1] == ordered[1..][..i] + [ordered[i + 1]];
  }

  method RetireRest(repo: MemoryRepository, ordered: seq<Memory>, at: int, dryRun: bool)
    returns (pairs: set<(string, string)>)
    requires ordered != [] && Ranked(ordered) && Keyed(repo.rows) && Present(repo.rows, ordered)
    modifies repo
    ensures repo.rows == if dryRun then old(repo.rows) else RetiredIn(old(repo.rows), ordered[1..], ordered[0].id, at)
    ensures repo.audits == old(repo.audits) + if dryRun then [] else RetireAudits(ordered[1..])
    ensures pairs == Pairs(ordered[0].id, ordered[1..])
  {
    ghost var rows, audits := repo.rows, repo.audits;
    var rest := ordered[1..];
    pairs := {};
    for i := 0 to |rest|
      invariant repo.rows == if dryRun then rows else RetiredIn(rows, rest[..i], ordered[0].id, at)
      invariant repo.audits == audits + if dryRun then [] else RetireAudits(rest[..i])
      invariant pairs == Pairs(ordered[0].id, rest[..i])
    {
      NextPair(ordered[0].id, rest, i);
      pairs := pairs + {(ordered[0].id, rest[i].id)};
      if !dryRun {
        RetiredNext(rows, ordered, i, at);
        RetireOne(repo, rest[i], ordered[0].id, at);
      }
    }
    assert rest[..|rest|] == rest;
  }

  lemma NextPair(s: string, rest: seq<Memory>, i: nat)
    requires i < |rest|
    ensures Pairs(s, rest[..i + 1]) == Pairs(s, rest[..i]) + {(s, rest[i].id)}
    ensures RetireAudits(rest[..i + 1]) == RetireAudits(rest[..i]) + RetireAudits([rest[i]])
  {
    assert rest[..i + 1] == rest[..i] + [rest[i]];
  }

  lemma NotYet(ordered: seq<Memory>, i: nat)
    requires Ranked(ordered) && i + 1 < |ordered|
    ensures ordered[i + 1] !in ordered[1..][..i]
  {
    forall j | 0 <= j < i ensures ordered[1..][..i][j] != ordered[i + 1] {
      AheadTotal(ordered[j + 1], ordered[i + 1]);
    }
  }

  // ---- Group by group ----

  predicate Handled(rows: Store, ws: string, id: string, done: set<Group>)
    requires id in rows
  {
    rows[id].workspace == ws && Eligible(rows[id]) && GroupOf(rows[id]) in done
  }

  ghost predicate Progress(rows: Store, ws: string, done: set<Group>, after: Store, at: int) {
    after.Keys == rows.Keys && forall id | id in rows :: Fate(rows, ws, done, id, after[id], at)
  }

  ghost predicate Fate(rows: Store, ws: string, done: set<Group>, id: string, after: Memory, at: int)
    requires id in rows
  {
    if Handled(rows, ws, id, done) then Deduped(rows, ws, id, after, at) else after == rows[id]
  }

  ghost predicate PairsSoFar(rows: Store, ws: string, done: set<Group>, pairs: set<(string, string)>) {
    forall s, id :: (s, id) in pairs <==> s != id && Survives(rows, ws, s, id) && Handled(rows, ws, id, done)
  }

  // The members of one group, ranked.
  ghost predicate RanksGroup(rows: Store, ws: string, g: Group, ordered: seq<Memory>) {
    && ordered != [] && Ranked(ordered)
    && (forall m | m in ordered :: Member(rows, ws, m.id, g) && rows[m.id] == m)
    && (forall id | Member(rows, ws, id, g) :: rows[id] in ordered)
  }

  lemma GroupSurvivor(rows: Store, ws: string, g: Group, ordered: seq<Memory>, id: string)
    requires Keyed(rows) && RanksGroup(rows, ws, g, ordered) && Member(rows, ws, id, g)
    ensures Survives(rows, ws, ordered[0].id, id)
  {
    MemberAt(ordered, 0);
    forall x | Member(rows, ws, x, g) && x != ordered[0].id ensures Ahead(ordered[0], rows[x]) {
      var i :| 0 <= i < |ordered| && ordered[i] == rows[x];
    }
  }

  lemma InTail(ordered: seq<Memory>, m: Memory)
    requires ordered != [] && Ranked(ordered) && m in ordered
    ensures m in ordered[1..] <==> m != ordered[0]
  {
    if m in ordered[1..] {
      HeadAhead(ordered, m);
      AheadTotal(m, m);
    }
  }

  lemma ProgressRow(rows: Store, ws: string, g: Group, ordered: seq<Memory>, id: string, at: int)
    requires Keyed(rows) && RanksGroup(rows, ws, g, ordered) && Member(rows, ws, id, g)
    ensures Deduped(rows, ws, id, RetiredRow(rows[id], ordered[1..], ordered[0].id, at), at)
  {
    GroupSurvivor(rows, ws, g, ordered, id);
    InTail(ordered, rows[id]);
    MemberAt(ordered, 0);
  }

  lemma ProgressAt(rows: Store, ws: string, done: set<Group>, g: Group, ordered: seq<Memory>, row: Memory, at: int,
                   id: string)
    requires Keyed(rows) && g !in done && RanksGroup(rows, ws, g, ordered) && id in rows
             && Fate(rows, ws, done, id, row, at)
    ensures Fate(rows, ws, done + {g}, id, RetiredRow(row, ordered[1..], ordered[0].id, at), at)
  {
    if Member(rows, ws, id, g) {
      ProgressRow(rows, ws, g, ordered, id, at);
    } else {
      NotRetired(rows, ws, done, g, ordered, row, at, id);
      OtherGroup(rows, ws, done, g, id);
    }
  }

  lemma ProgressStep(rows: Store, ws: string, done: set<Group>, g: Group, ordered: seq<Memory>, before: Store, at: int)
    requires Keyed(rows) && Progress(rows, ws, done, before, at) && g !in done && RanksGroup(rows, ws, g, ordered)
    ensures Progress(rows, ws, done + {g}, RetiredIn(before, ordered[1..], ordered[0].id, at), at)
  {
    forall id | id in rows
      ensures Fate(rows, ws, done + {g}, id, RetiredRow(before[id], ordered[1..], ordered[0].id, at), at)
    {
      assert Fate(rows, ws, done, id, before[id], at);
      ProgressAt(rows, ws, done, g, ordered, before[id], at, id);
    }
  }

  lemma OtherGroup(rows: Store, ws: string, done: set<Group>, g: Group, id: string)
    requires id in rows && !Member(rows, ws, id, g)
    ensures Handled(rows, ws, id, done + {g}) <==> Handled(rows, ws, id, done)
  {
  }

  // A row that is no member of the group is not in its ranking, whatever has happened to it so far.
  lemma NotRetired(rows: Store, ws: string, done: set<Group>, g: Group, ordered: seq<Memory>, row: Memory, at: int,
                   id: string)
    requires Keyed(rows) && RanksGroup(rows, ws, g, ordered)
    requires id in rows && Fate(rows, ws, done, id, row, at) && !Member(rows, ws, id, g)
    ensures row !in ordered && row !in ordered[1..]
  {
    assert row.id == id;
    assert row in ordered ==> Member(rows, ws, row.id, g);
  }

  lemma PairsStep(rows: Store, ws: string, done: set<Group>, g: Group, ordered: seq<Memory>, pairs: set<(string,
                  string)>)
    requires Keyed(rows) && PairsSoFar(rows, ws, done, pairs) && g !in done && RanksGroup(rows, ws, g, ordered)
    ensures PairsSoFar(rows, ws, done + {g}, pairs + Pairs(ordered[0].id, ordered[1..]))
  {
    var more := Pairs(ordered[0].id, ordered[1..]);
    forall s, id
      ensures (s, id) in more <==> s != id && Survives(rows, ws, s, id) && Member(rows, ws, id, g)
    {
      PairOf(rows, ws, g, ordered, s, id);
    }
    forall s, id
      ensures (s, id) in pairs + more
              <==> s != id && Survives(rows, ws, s, id) && Handled(rows, ws, id, done + {g})
    {
      assert Survives(rows, ws, s, id) ==>
               (Handled(rows, ws, id, done + {g}) <==> Handled(rows, ws, id, done) || Member(rows, ws, id, g));
    }
  }

  lemma PairOf(rows: Store, ws: string, g: Group, ordered: seq<Memory>, s: string, id: string)
    requires Keyed(rows) && RanksGroup(rows, ws, g, ordered)
    ensures (s, id) in Pairs(ordered[0].id, ordered[1..])
            <==> s != id && Survives(rows, ws, s, id) && Member(rows, ws, id, g)
  {
    MemberAt(ordered, 0);
    if Member(rows, ws, id, g) {
      GroupSurvivor(rows, ws, g, ordered, id);
      if Survives(rows, ws, s, id) { OneSurvivor(rows, ws, s, ordered[0].id, id); }
      InTail(ordered, rows[id]);
    }
    if (s, id) in Pairs(ordered[0].id, ordered[1..]) {
      var m :| m in ordered[1..] && m.id == id;
      assert m in ordered;
      InTail(ordered, m);
    }
  }

  lemma RanksMembers(rows: Store, ws: string, ms: seq<Memory>, g: Group)
    requires Lists(rows, ws, ms) && Members(ms, g) != []
    ensures RanksGroup(rows, ws, g, SortRanked(Members(ms, g)))
  {
    var members := Members(ms, g);
    MembersMeaning(ms, g);
    SortRankedCorrect(members);
    MemberAt(members, 0);
    assert members[0] in SortRanked(members);
  }

  // Rows of a group that is not done yet are as they were.
  lemma StillPresent(rows: Store, ws: string, done: set<Group>, g: Group, ordered: seq<Memory>, before: Store, at: int)
    requires Keyed(rows) && Progress(rows, ws, done, before, at) && g !in done && RanksGroup(rows, ws, g, ordered)
    ensures Keyed(before) && Present(before, ordered)
  {
    forall id | id in before ensures before[id].id == id {
      assert Fate(rows, ws, done, id, before[id], at);
    }
    forall m | m in ordered ensures m.id in before && before[m.id] == m && m.status == Active {
      assert Member(rows, ws, m.id, g);
      assert Fate(rows, ws, done, m.id, before[m.id], at);
    }
  }

  // What holds between two groups.
  ghost predicate SoFar(rows: Store, ws: string, done: set<Group>, current: Store, at: int, dryRun: bool,
                        pairs: set<(string, string)>)
  {
    && (if dryRun then current == rows else Progress(rows, ws, done, current, at))
    && PairsSoFar(rows, ws, done, pairs)
  }

  method DedupGroup(repo: MemoryRepository, group: seq<Memory>, at: int, dryRun: bool,
                    ghost rows: Store, ghost ws: string, ghost done: set<Group>, ghost g: Group)
    returns (pairs: set<(string, string)>)
    requires Keyed(rows) && g !in done && group != [] && RanksGroup(rows, ws, g, SortRanked(group))
    requires if dryRun then repo.rows == rows else Progress(rows, ws, done, repo.rows, at)
    modifies repo
    ensures if dryRun then repo.rows == rows else Progress(rows, ws, done + {g}, repo.rows, at)
    ensures repo.audits == old(repo.audits) + if dryRun then [] else RetireAudits(SortRanked(group)[1..])
    ensures pairs == Pairs(SortRanked(group)[0].id, SortRanked(group)[1..])
  {
    var ordered := SortRanked(group);
    if !dryRun {
      StillPresent(rows, ws, done, g, ordered, repo.rows, at);
      ProgressStep(rows, ws, done, g, ordered, repo.rows, at);
    }
    pairs := {};
    if |group| > 1 {
      pairs := RetireRest(repo, ordered, at, dryRun);
    } else {
      Alone(group[0]);
      RetiredNone(repo.rows, ordered[0].id, at);
    }
  }

  // The audits written since the start are those of the pairs, or none in a dry run.
  ghost predicate TrailMatches(start: seq<L.Audit>, audits: seq<L.Audit>, dryRun: bool, pairs: set<(string, string)>) {
    && start <= audits
    && (dryRun ==> audits == start)
    && (!dryRun ==> forall a :: a in audits[|start|..] <==> Audited(pairs, a))
  }

  lemma TrailGrows(start: seq<L.Audit>, audits: seq<L.Audit>, pairs: set<(string, string)>, s: string,
                   rest: seq<Memory>)
    requires TrailMatches(start, audits, false, pairs)
    ensures TrailMatches(start, audits + RetireAudits(rest), false, pairs + Pairs(s, rest))
  {
    AuditsOfPairs(s, rest, pairs);
    assert (audits + RetireAudits(rest))[|start|..] == audits[|start|..] + RetireAudits(rest);
  }

  method HandleGroup(repo: MemoryRepository, group: seq<Memory>, at: int, dryRun: bool, before: set<(string, string)>,
                     ghost rows: Store, ghost ws: string, ghost ms: seq<Memory>, ghost done: set<Group>, ghost g: Group,
                     ghost start: seq<L.Audit>)
    returns (pairs: set<(string, string)>)
    requires Keyed(rows) && Lists(rows, ws, ms) && g !in done && group == Members(ms, g) && group != []
    requires SoFar(rows, ws, done, repo.rows, at, dryRun, before) && TrailMatches(start, repo.audits, dryRun, before)
    modifies repo
    ensures SoFar(rows, ws, done + {g}, repo.rows, at, dryRun, pairs) && TrailMatches(start, repo.audits, dryRun, pairs)
  {
    ghost var ordered := SortRanked(group);
    RanksMembers(rows, ws, ms, g);
    PairsStep(rows, ws, done, g, ordered, before);
    if !dryRun { TrailGrows(start, repo.audits, before, ordered[0].id, ordered[1..]); }
    var more := DedupGroup(repo, group, at, dryRun, rows, ws, done, g);
    pairs := before + more;
  }

  // The audit of retiring the duplicate of one of the pairs.
  ghost predicate Audited(pairs: set<(string, string)>, a: L.Audit) {
    a == L.Audit(a.id, Active, Superseded, L.Scheduler) && exists s :: (s, a.id) in pairs
  }

  lemma AuditsOfPairs(s: string, rest: seq<Memory>, before: set<(string, string)>)
    ensures forall a :: a in RetireAudits(rest) || Audited(before, a) <==> Audited(before + Pairs(s, rest), a)
  {
    forall a ensures a in RetireAudits(rest) <==> Audited(Pairs(s, rest), a) {
      AuditOfPair(s, rest, a);
    }
    forall a ensures Audited(before + Pairs(s, rest), a) <==> Audited(before, a) || Audited(Pairs(s, rest), a) {
      EitherAudited(before, Pairs(s, rest), a);
    }
  }

  lemma EitherAudited(p: set<(string, string)>, q: set<(string, string)>, a: L.Audit)
    ensures Audited(p + q, a) <==> Audited(p, a) || Audited(q, a)
  {
    if s :| (s, a.id) in p { assert (s, a.id) in p + q; }
    if s :| (s, a.id) in q { assert (s, a.id) in p + q; }
  }

  lemma AuditOfPair(s: string, rest: seq<Memory>, a: L.Audit)
    ensures a in RetireAudits(rest) <==> Audited(Pairs(s, rest), a)
  {
    if a in RetireAudits(rest) {
      var i :| 0 <= i < |rest| && RetireAudits(rest)[i] == a;
      assert rest[i] in rest && (s, rest[i].id) in Pairs(s, rest);
    }
    if Audited(Pairs(s, rest), a) {
      var t :| (t, a.id) in Pairs(s, rest);
      var m :| m in rest && (s, m.id) == (t, a.id);
      var i :| 0 <= i < |rest| && rest[i] == m;
      assert RetireAudits(rest)[i] == a;
    }
  }

  lemma Alone(m: Memory)
    ensures SortRanked([m]) == [m]
  {
    assert [m][1..] == [];
  }

  lemma RetiredNone(rows: Store, s: string, at: int)
    ensures RetiredIn(rows, [], s, at) == rows
  {
  }

  lemma AllHandled(rows: Store, ws: string, ms: seq<Memory>, groups: set<Group>)
    requires Lists(rows, ws, ms) && forall g | g !in groups :: Members(ms, g) == []
    ensures forall id | id in rows && rows[id].workspace == ws && Eligible(rows[id]) :: Handled(rows, ws, id, groups)
  {
    forall id | id in rows && rows[id].workspace == ws && Eligible(rows[id]) ensures Handled(rows, ws, id, groups) {
      MembersMeaning(ms, GroupOf(rows[id]));
      assert rows[id] in Members(ms, GroupOf(rows[id]));
    }
  }

  // dedup_memory. Groups are handled in any order; the pairs are reported as a set.
  method DedupMemory(repo: MemoryRepository, ws: string, at: int, dryRun: bool) returns (pairs: set<(string, string)>)
    requires Keyed(repo.rows)
    modifies repo
    ensures dryRun ==> repo.rows == old(repo.rows)
    ensures !dryRun ==> DedupedStore(old(repo.rows), ws, repo.rows, at)
    ensures forall s, id :: (s, id) in pairs <==> s != id && Survives(old(repo.rows), ws, s, id)
    ensures TrailMatches(old(repo.audits), repo.audits, dryRun, pairs)
  {
    ghost var rows, start := repo.rows, repo.audits;
    var ms := repo.ListMemories(ws);
    var groups := GroupListed(ms);
    var pending := groups.Keys;
    ghost var done: set<Group> := {};
    pairs := {};
    while pending != {}
      invariant pending + done == groups.Keys && pending !! done
      invariant SoFar(rows, ws, done, repo.rows, at, dryRun, pairs)
      invariant TrailMatches(start, repo.audits, dryRun, pairs)
      decreases |pending|
    {
      var g :| g in pending;
      pairs := HandleGroup(repo, groups[g], at, dryRun, pairs, rows, ws, ms, done, g, start);
      pending, done := pending - {g}, done + {g};
    }
    AllHandled(rows, ws, ms, done);
    if !dryRun { ProgressDone(rows, ws, done, repo.rows, at); }
  }

  lemma ProgressDone(rows: Store, ws: string, done: set<Group>, after: Store, at: int)
    requires Progress(rows, ws, done, after, at)
    requires forall id | id in rows && rows[id].workspace == ws && Eligible(rows[id]) :: Handled(rows, ws, id, done)
    ensures DedupedStore(rows, ws, after, at)
  {
    forall id | id in rows ensures Deduped(rows, ws, id, after[id], at) {
      assert Fate(rows, ws, done, id, after[id], at);
    }
  }

  // ---- What dedup achieves ----

  // The survivor of a group is untouched, and every other member points at it; no other memory has
  // changed.
  lemma OneActivePerGroup(rows: Store, ws: string, after: Store, at: int, id: string)
    requires Keyed(rows) && DedupedStore(rows, ws, after, at) && id in rows
    ensures rows[id].workspace != ws || !Eligible(rows[id]) ==> after[id] == rows[id]
    ensures rows[id].workspace == ws && Eligible(rows[id]) ==>
              exists s :: Survives(rows, ws, s, id) && after[s] == rows[s]
                          && (id != s ==> after[id].status == Superseded && after[id].supersededBy == Some(s))
  {
    assert Deduped(rows, ws, id, after[id], at);
    if rows[id].workspace == ws && Eligible(rows[id]) {
      var s :| Survives(rows, ws, s, id) && after[id] == if s == id then rows[id] else Retired(rows[id], Some(s), at);
      SurvivorStays(rows, ws, after, at, s, id);
    }
  }

  lemma SurvivorStays(rows: Store, ws: string, after: Store, at: int, s: string, id: string)
    requires DedupedStore(rows, ws, after, at) && Survives(rows, ws, s, id)
    ensures after[s] == rows[s]
  {
    assert Survives(rows, ws, s, s);
    assert Deduped(rows, ws, s, after[s], at);
    var t :| Survives(rows, ws, t, s) && after[s] == if t == s then rows[s] else Retired(rows[s], Some(t), at);
    OneSurvivor(rows, ws, s, t, s);
  }

  // What is eligible afterwards was the survivor of its group.
  lemma EligibleAfter(rows: Store, ws: string, after: Store, at: int, id: string)
    requires DedupedStore(rows, ws, after, at) && id in after && after[id].workspace == ws && Eligible(after[id])
    ensures after[id] == rows[id] && Survives(rows, ws, id, id)
  {
    assert Deduped(rows, ws, id, after[id], at);
  }

  // A second run finds no pairs.
  lemma SecondRunFindsNone(rows: Store, ws: string, after: Store, at: int, s: string, id: string)
    requires DedupedStore(rows, ws, after, at) && Survives(after, ws, s, id)
    ensures s == id
  {
    EligibleAfter(rows, ws, after, at, s);
    EligibleAfter(rows, ws, after, at, id);
    assert GroupOf(rows[s]) == GroupOf(rows[id]);
    assert Member(rows, ws, s, GroupOf(rows[id])) && Member(rows, ws, id, GroupOf(rows[s]));
    AheadTotal(rows[s], rows[id]);
  }

  // Wherever dedup finds a pair, the store holds two active memories that resolving would have
  // reconciled; so in a store built by resolve writes only there is nothing to dedup.
  lemma PairBreaksInvariant(rows: Store, ws: string, s: string, id: string)
    requires Survives(rows, ws, s, id) && s != id
    ensures !OnePerIdentity(rows)
  {
    assert !Apart(rows[s], rows[id]);
  }

  // Dedup keeps lineage sound: what it retires points at a memory that stands.
  lemma DedupSound(rows: Store, ws: string, after: Store, at: int)
    requires Keyed(rows) && Sound(rows) && DedupedStore(rows, ws, after, at)
    ensures Sound(after)
  {
    forall id | id in rows
      ensures Gone(rows, id) ==> after[id] == rows[id]
      ensures Gone(after, id) && !Gone(rows, id) ==> NewLink(rows, after, {}, id)
    {
      OneActivePerGroup(rows, ws, after, at, id);
    }
    RetiresKeepsSound(rows, after, {});
  }
}
