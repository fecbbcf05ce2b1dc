/** Detecting conflicts: single-valued keys for which a workspace holds different live values. */
module ConflictDetection {
  import opened Prelude
  import opened Ordering
  import opened KeyOntology
  import opened Memory
  import opened ConflictPolicy
  import opened MemoryStore
  import opened Repository
  import opened ConflictTable

  datatype Topic = Topic(key: string, scope: Scope)

  // The conflict id: a digest of the workspace, the canonical key and the sorted member ids. Scope
  // and detector are not part of it. The digest itself is a parameter, taken to be injective.
  type Digest = (string, string, seq<string>) -> string

  ghost predicate Injective(digest: Digest) {
    forall a, k, x, b, l, y :: digest(a, k, x) == digest(b, l, y) ==> a == b && k == l && x == y
  }

  predicate Concerned(ws: string, m: Memory) {
    m.workspace == ws && m.status in {Active, Conflicted} && SingleValued(m)
  }

  function TopicOf(m: Memory): Topic
    requires m.key.Some?
  {
    Topic(Canonical(m.key.value), m.scope)
  }

  function On(ws: string, ms: seq<Memory>, t: Topic): seq<Memory> {
    if ms == [] then []
    else
      var m := ms[|ms| - 1];
      On(ws, ms[..|ms| - 1], t) + if Concerned(ws, m) && TopicOf(m) == t then [m] else []
  }

  lemma {:induction false} OnMeaning(ws: string, ms: seq<Memory>, t: Topic)
    requires Distinct(Ids(ms))
    ensures Distinct(Ids(On(ws, ms, t)))
    ensures forall m :: m in On(ws, ms, t) <==> m in ms && Concerned(ws, m) && TopicOf(m) == t
  {
    if ms != [] {
      var last := |ms| - 1;
      assert Ids(ms[..last]) == Ids(ms)[..last];
      OnMeaning(ws, ms[..last], t);
      EarlierIds(ms, last);
      var front := On(ws, ms[..last], t);
      FreshId(front, ms[last].id);
      DistinctAppend(Ids(front), ms[last].id);
      assert Ids(front + [ms[last]]) == Ids(front) + [ms[last].id];
      assert front + [] == front;
      assert ms == ms[..last] + [ms[last]];
    }
  }

  ghost predicate Disagree(ms: seq<Memory>) {
    exists a, b | a in ms && b in ms :: Norm(a.value) != Norm(b.value)
  }

  function Values(ms: seq<Memory>): set<string> {
    set m | m in ms :: Norm(m.value)
  }

  lemma DisagreeByCount(ms: seq<Memory>)
    ensures Disagree(ms) <==> |Values(ms)| > 1
  {
    var values := Values(ms);
    if Disagree(ms) {
      var a, b :| a in ms && b in ms && Norm(a.value) != Norm(b.value);
      assert {Norm(a.value), Norm(b.value)} <= values;
      SubsetSize({Norm(a.value), Norm(b.value)}, values);
    }
    if |values| > 1 {
      var v :| v in values;
      assert values - {v} != {} by { assert |values - {v}| == |values| - 1; }
      var w :| w in values - {v};
      var a :| a in ms && Norm(a.value) == v;
      var b :| b in ms && Norm(b.value) == w;
    }
  }

  lemma {:induction false} SubsetSize<T>(a: set<T>, b: set<T>)
    requires a <= b
    ensures |a| <= |b|
  {
    if a != {} {
      var x :| x in a;
      SubsetSize(a - {x}, b - {x});
    }
  }

  function MemberIds(ws: string, ms: seq<Memory>, t: Topic): seq<string> {
    Sort(Ids(On(ws, ms, t)))
  }

  function IdOf(digest: Digest, ws: string, ms: seq<Memory>, t: Topic): string {
    digest(ws, t.key, MemberIds(ws, ms, t))
  }

  function RecordOf(digest: Digest, ws: string, ms: seq<Memory>, t: Topic, detector: Detector,
                    now: int): ConflictRecord {
    ConflictRecord(IdOf(digest, ws, ms, t), ws, t.key, MemberIds(ws, ms, t), Open, detector, now, None)
  }

  ghost predicate Found(digest: Digest, ws: string, ms: seq<Memory>, detector: Detector, now: int, id: string,
                        c: ConflictRecord) {
    exists t :: Disagree(On(ws, ms, t)) && c == RecordOf(digest, ws, ms, t, detector, now) && c.id == id
  }

  // Exactly the topics whose members disagree are reported, one record each.
  ghost predicate Reports(digest: Digest, ws: string, ms: seq<Memory>, detector: Detector, now: int,
                          found: map<string, ConflictRecord>)
  {
    && (forall id | id in found :: Found(digest, ws, ms, detector, now, id, found[id]))
    && (forall t | Disagree(On(ws, ms, t)) :: IdOf(digest, ws, ms, t) in found)
  }

  method GroupByTopic(ws: string, ms: seq<Memory>) returns (groups: map<Topic, seq<Memory>>)
    ensures forall t | t in groups :: groups[t] == On(ws, ms, t)
    ensures forall t | t !in groups :: On(ws, ms, t) == []
  {
    groups := map[];
    for i := 0 to |ms|
      invariant forall t | t in groups :: groups[t] == On(ws, ms[..i], t)
      invariant forall t | t !in groups :: On(ws, ms[..i], t) == []
    {
      assert ms[..i + 1][..i] == ms[..i];
      var m := ms[i];
      if Concerned(ws, m) {
        var t := TopicOf(m);
        groups := groups[t := (if t in groups then groups[t] else []) + [m]];
      }
    }
    assert ms[..|ms|] == ms;
  }

  // The members of a group that share the anchor's canonical key.
  function Sharing(anchor: Memory, group: seq<Memory>): seq<Memory> {
    if group == [] then []
    else
      var m := group[|group| - 1];
      Sharing(anchor, group[..|group| - 1])
      + if anchor.key.Some? && m.key.Some? && Canonical(m.key.value) == Canonical(anchor.key.value) then [m] else []
  }

  lemma {:induction false} OnTopic(ws: string, ms: seq<Memory>, t: Topic)
    ensures forall m | m in On(ws, ms, t) :: m.key.Some? && TopicOf(m) == t
  {
    if ms != [] {
      OnTopic(ws, ms[..|ms| - 1], t);
    }
  }

  lemma {:induction false} SharingAll(anchor: Memory, group: seq<Memory>)
    requires anchor.key.Some?
    requires forall m | m in group :: m.key.Some? && Canonical(m.key.value) == Canonical(anchor.key.value)
    ensures Sharing(anchor, group) == group
  {
    if group != [] {
      var last := |group| - 1;
      SharingAll(anchor, group[..last]);
      assert group == group[..last] + [group[last]];
    }
  }

  // All members of a group share the anchor's canonical key, so filtering for it drops nothing.
  lemma SameKeyThroughout(ws: string, ms: seq<Memory>, t: Topic)
    requires On(ws, ms, t) != []
    ensures Sharing(On(ws, ms, t)[0], On(ws, ms, t)) == On(ws, ms, t)
  {
    var group := On(ws, ms, t);
    OnTopic(ws, ms, t);
    MemberAt(group, 0);
    SharingAll(group[0], group);
  }

  // The record of one group, if its values disagree and go on disagreeing after the second filter.
  method GroupRecord(digest: Digest, ws: string, t: Topic, group: seq<Memory>, detector: Detector, now: int,
                     ghost ms: seq<Memory>)
    returns (record: Option<ConflictRecord>)
    requires group == On(ws, ms, t)
    ensures record.Some? <==> Disagree(group)
    ensures record.Some? ==> record.value == RecordOf(digest, ws, ms, t, detector, now)
  {
    DisagreeByCount(group);
    if |Values(group)| <= 1 { return None; }
    SameKeyThroughout(ws, ms, t);
    var members := Sharing(group[0], group);
    if |Values(members)| <= 1 { return None; }
    var ids := Sort(Ids(members));
    return Some(ConflictRecord(digest(ws, t.key, ids), ws, t.key, ids, Open, detector, now, None));
  }

  // detect_memory_conflicts, its records keyed by their ids.
  method DetectMemoryConflicts(digest: Digest, ws: string, ms: seq<Memory>, detector: Detector, now: int)
    returns (found: map<string, ConflictRecord>)
    ensures Reports(digest, ws, ms, detector, now, found)
  {
    var groups := GroupByTopic(ws, ms);
    found := map[];
    var pending := groups.Keys;
    while pending != {}
      invariant pending <= groups.Keys
      invariant forall id | id in found :: Found(digest, ws, ms, detector, now, id, found[id])
      invariant forall t | t in groups.Keys - pending && Disagree(On(ws, ms, t)) :: IdOf(digest, ws, ms, t) in found
      decreases |pending|
    {
      var t :| t in pending;
      pending := pending - {t};
      var record := GroupRecord(digest, ws, t, groups[t], detector, now, ms);
      if record.Some? {
        found := found[record.value.id := record.value];
      }
    }
    assert forall t | t !in groups :: !Disagree(On(ws, ms, t));
  }

  // ---- What a report means ----

  // Different topics never share an id: their members are different memories.
  lemma TopicsApart(digest: Digest, ws: string, ms: seq<Memory>, t: Topic, u: Topic)
    requires Distinct(Ids(ms)) && Injective(digest) && Disagree(On(ws, ms, t))
    requires IdOf(digest, ws, ms, t) == IdOf(digest, ws, ms, u)
    ensures t == u
  {
    var a, b :| a in On(ws, ms, t) && b in On(ws, ms, t) && Norm(a.value) != Norm(b.value);
    IdsMember(On(ws, ms, t), a);
    SortedIds(On(ws, ms, t), a.id);
    SortedIds(On(ws, ms, u), a.id);
    var c := IdOwner(On(ws, ms, u), a.id);
    OnMeaning(ws, ms, t);
    OnMeaning(ws, ms, u);
    SameIdSame(ms, a, c);
  }

  // The report does not depend on the order of the listing.
  lemma ReportByMembers(ws: string, ms: seq<Memory>, ns: seq<Memory>, t: Topic)
    requires Distinct(Ids(ms)) && Distinct(Ids(ns)) && forall m :: m in ms <==> m in ns
    ensures MemberIds(ws, ms, t) == MemberIds(ws, ns, t)
    ensures Disagree(On(ws, ms, t)) <==> Disagree(On(ws, ns, t))
  {
    OnMeaning(ws, ms, t);
    OnMeaning(ws, ns, t);
    SameMembers(Ids(On(ws, ms, t)), Ids(On(ws, ns, t)), On(ws, ms, t), On(ws, ns, t));
    SortDependsOnMultiset(Ids(On(ws, ms, t)), Ids(On(ws, ns, t)));
  }

  lemma SameMembers(x: seq<string>, y: seq<string>, a: seq<Memory>, b: seq<Memory>)
    requires x == Ids(a) && y == Ids(b) && Distinct(x) && Distinct(y) && forall m :: m in a <==> m in b
    ensures multiset(x) == multiset(y)
  {
    DistinctCount(x);
    DistinctCount(y);
    forall id ensures multiset(x)[id] == multiset(y)[id] {
      SameId(x, a, b, id);
      SameId(y, b, a, id);
    }
  }

  lemma SameId(x: seq<string>, a: seq<Memory>, b: seq<Memory>, id: string)
    requires x == Ids(a) && forall m :: m in a ==> m in b
    ensures id in x ==> id in Ids(b)
  {
    if id in x {
      var m := IdOwner(a, id);
      IdsMember(b, m);
    }
  }

  // A reported record lists every member once, in id order.
  lemma RecordIds(ws: string, ms: seq<Memory>, t: Topic, id: string)
    requires Distinct(Ids(ms))
    ensures Distinct(MemberIds(ws, ms, t)) && Sorted(MemberIds(ws, ms, t))
    ensures id in MemberIds(ws, ms, t) <==> exists m | m in ms :: m.id == id && Concerned(ws, m) && TopicOf(m) == t
  {
    OnMeaning(ws, ms, t);
    SortDistinct(Ids(On(ws, ms, t)));
    SortCorrect(Ids(On(ws, ms, t)));
    if id in MemberIds(ws, ms, t) {
      var m := IdOwner(On(ws, ms, t), id);
    }
    if m :| m in ms && m.id == id && Concerned(ws, m) && TopicOf(m) == t {
      IdsMember(On(ws, ms, t), m);
    }
  }

  // Where one active value per identity holds, every reported group contains a conflicted memory.
  lemma ReportedHasConflicted(rows: Store, ws: string, ms: seq<Memory>, t: Topic)
    requires Lists(rows, ws, ms) && OnePerIdentity(rows) && Disagree(On(ws, ms, t))
    ensures exists m | m in On(ws, ms, t) :: m.status == Conflicted
  {
    OnMeaning(ws, ms, t);
    var a, b :| a in On(ws, ms, t) && b in On(ws, ms, t) && Norm(a.value) != Norm(b.value);
    assert rows[a.id] == a && rows[b.id] == b;
    assert a.id != b.id ==> Apart(rows[a.id], rows[b.id]);
    assert a.status == Conflicted || b.status == Conflicted;
  }

  // ---- Detection in the fields of the memories ----

  // Two live memories of the workspace that contradict each other: one single-valued key, one scope, two
  // values.
  predicate Contradict(ws: string, a: Memory, b: Memory) {
    && a.workspace == ws && b.workspace == ws
    && (a.status == Active || a.status == Conflicted) && (b.status == Active || b.status == Conflicted)
    && a.key.Some? && b.key.Some? && IsSingleValued(a.key.value)
    && Canonical(a.key.value) == Canonical(b.key.value) && a.scope == b.scope && Norm(a.value) != Norm(b.value)
  }

  // The topic of two memories that contradict each other.
  lemma ContradictionDisagrees(ws: string, ms: seq<Memory>, a: Memory, b: Memory)
    requires Distinct(Ids(ms)) && a in ms && b in ms && Contradict(ws, a, b)
    ensures var t := Topic(Canonical(a.key.value), a.scope);
            Disagree(On(ws, ms, t)) && a.id in MemberIds(ws, ms, t) && b.id in MemberIds(ws, ms, t)
  {
    SameIdentitySameCardinality(a.key.value, b.key.value);
    var t := Topic(Canonical(a.key.value), a.scope);
    OnMeaning(ws, ms, t);
    assert a in On(ws, ms, t) && b in On(ws, ms, t);
    RecordIds(ws, ms, t, a.id);
    RecordIds(ws, ms, t, b.id);
  }

  // Two conflicted memories that contradict each other are reported in one record, and so is an active one
  // beside a conflicted one: any two that do.
  lemma ContradictionReported(digest: Digest, ws: string, ms: seq<Memory>, detector: Detector, now: int,
                              found: map<string, ConflictRecord>, a: Memory, b: Memory)
    returns (id: string)
    requires Distinct(Ids(ms)) && Injective(digest) && Reports(digest, ws, ms, detector, now, found)
    requires a in ms && b in ms && Contradict(ws, a, b)
    ensures id in found && a.id in found[id].memoryIds && b.id in found[id].memoryIds
    ensures found[id].subject == Canonical(a.key.value) && found[id].workspace == ws && found[id].status == Open
    ensures found[id].id == id && found[id].detectedBy == detector && found[id].createdAt == now
  {
    var t := Topic(Canonical(a.key.value), a.scope);
    ContradictionDisagrees(ws, ms, a, b);
    id := IdOf(digest, ws, ms, t);
    assert Found(digest, ws, ms, detector, now, id, found[id]);
    var u :| Disagree(On(ws, ms, u)) && found[id] == RecordOf(digest, ws, ms, u, detector, now) && found[id].id == id;
    TopicsApart(digest, ws, ms, u, t);
  }

  // A live memory of the workspace on a single-valued key.
  predicate LiveOn(ws: string, m: Memory, key: string, scope: Scope) {
    && m.workspace == ws && (m.status == Active || m.status == Conflicted)
    && m.key.Some? && IsSingleValued(m.key.value) && Canonical(m.key.value) == key && m.scope == scope
  }

  // And nothing else is reported: every record has two members that contradict each other, and lists the
  // live memories of their key and scope.
  lemma ReportedContradiction(digest: Digest, ws: string, ms: seq<Memory>, detector: Detector, now: int,
                              found: map<string, ConflictRecord>, id: string)
    returns (a: Memory, b: Memory)
    requires Distinct(Ids(ms)) && Reports(digest, ws, ms, detector, now, found) && id in found
    ensures a in ms && b in ms && Contradict(ws, a, b)
    ensures found[id].subject == Canonical(a.key.value) && found[id].workspace == ws && found[id].status == Open
    ensures forall x :: x in found[id].memoryIds
              <==> exists m | m in ms :: m.id == x && LiveOn(ws, m, Canonical(a.key.value), a.scope)
  {
    assert Found(digest, ws, ms, detector, now, id, found[id]);
    var t :| Disagree(On(ws, ms, t)) && found[id] == RecordOf(digest, ws, ms, t, detector, now) && found[id].id == id;
    a, b :| a in On(ws, ms, t) && b in On(ws, ms, t) && Norm(a.value) != Norm(b.value);
    OnMeaning(ws, ms, t);
    forall x ensures x in MemberIds(ws, ms, t) <==> exists m | m in ms :: m.id == x && LiveOn(ws, m, t.key, t.scope) {
      LiveMembers(ws, ms, t, x);
    }
  }

  lemma LiveMembers(ws: string, ms: seq<Memory>, t: Topic, x: string)
    requires Distinct(Ids(ms))
    ensures x in MemberIds(ws, ms, t) <==> exists m | m in ms :: m.id == x && LiveOn(ws, m, t.key, t.scope)
  {
    RecordIds(ws, ms, t, x);
    forall m ensures LiveOn(ws, m, t.key, t.scope) <==> Concerned(ws, m) && TopicOf(m) == t {}
  }
}
