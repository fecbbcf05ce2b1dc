/** Which memories dedup retires, and for which, in the fields of the memories. */
module DedupOutcome {
  import opened Prelude
  import opened Ordering
  import opened Text
  import opened KeyOntology
  import opened Memory
  import opened ConflictPolicy
  import opened Resolver
  import opened MemoryStore
  import opened Dedup

  // ---- Keys that look like secrets ----

  lemma {:induction false} ContainsMeaning(s: string, term: string)
    ensures Contains(s, term) <==> exists i :: StandsAt(s, term, i)
  {
    if term <= s { assert StandsAt(s, term, 0); }
    if s != "" {
      ContainsMeaning(s[1..], term);
      forall i | StandsAt(s, term, i) ensures term <= s || StandsAt(s[1..], term, i - 1) {
        assert i > 0 ==> s[1..][i - 1..i - 1 + |term|] == s[i..i + |term|];
        assert i == 0 ==> s[0..|term|] == s[..|term|];
      }
      forall i | StandsAt(s[1..], term, i) ensures StandsAt(s, term, i + 1) {
        assert s[1..][i..i + |term|] == s[i + 1..i + 1 + |term|];
      }
    } else {
      assert forall i :: StandsAt(s, term, i) ==> term == s[i..i + |term|] == "";
    }
  }

  predicate StandsAt(s: string, term: string, i: int) {
    0 <= i && i + |term| <= |s| && s[i..i + |term|] == term
  }

  // A character of a secret term in a key: letter case does not matter, and a dash may stand for an
  // underscore.
  predicate Spells(c: char, t: char) {
    t == if c == '-' then '_' else if 'A' <= c <= 'Z' then c + 32 as char else c
  }

  predicate SpeltAt(key: string, term: string, i: int) {
    0 <= i && i + |term| <= |key| && forall k | 0 <= k < |term| :: Spells(key[i + k], term[k])
  }

  ghost predicate NamesSecret(key: string) {
    exists term, i | term in SECRET_KEY_TERMS :: SpeltAt(key, term, i)
  }

  lemma SecretLikeMeaning(key: string)
    ensures SecretLike(key) <==> NamesSecret(key)
  {
    var text := Underscored(Lower(key));
    forall term ensures Contains(text, term) <==> exists i :: StandsAt(text, term, i) {
      ContainsMeaning(text, term);
    }
    forall term, i ensures StandsAt(text, term, i) <==> SpeltAt(key, term, i) {
      StandsSpelt(key, text, term, i);
    }
  }

  lemma StandsSpelt(key: string, text: string, term: string, i: int)
    requires text == Underscored(Lower(key))
    ensures StandsAt(text, term, i) <==> SpeltAt(key, term, i)
  {
    if 0 <= i && i + |term| <= |key| {
      var part := text[i..i + |term|];
      assert forall k | 0 <= k < |term| :: part[k] == text[i + k];
      assert forall k | 0 <= k < |term| :: Spells(key[i + k], term[k]) <==> text[i + k] == term[k];
    }
  }

  // ---- Groups ----

  // Active, with a key and a value, and nothing about it is secret or withheld.
  ghost predicate Dedupable(m: Memory) {
    && m.status == Active && m.key.Some? && m.value.Some?
    && !m.secret && !m.flags.containsSecret && !m.meta.withheld
    && !NamesSecret(m.key.value) && !NamesSecret(Canonical(m.key.value))
  }

  lemma EligibleMeaning(m: Memory)
    ensures Eligible(m) <==> Dedupable(m)
  {
    if m.key.Some? {
      SecretLikeMeaning(m.key.value);
      SecretLikeMeaning(Canonical(m.key.value));
    }
  }

  // Two memories of the workspace that dedup takes for the same.
  ghost predicate Twins(rows: Store, ws: string, a: string, b: string) {
    && a in rows && b in rows && rows[a].workspace == ws && rows[b].workspace == ws
    && Dedupable(rows[a]) && Dedupable(rows[b])
    && Canonical(rows[a].key.value) == Canonical(rows[b].key.value) && rows[a].scope == rows[b].scope
    && Norm(rows[a].value) == Norm(rows[b].value)
  }

  // At least as trusted; on equal trust as confident; on equal confidence as much used; on equal use no
  // younger; and of the same age the smaller id.
  ghost predicate RanksFirst(a: Memory, b: Memory) {
    && a.trust >= b.trust
    && (a.trust == b.trust ==>
          && a.confidence >= b.confidence
          && (a.confidence == b.confidence ==>
                && a.accessCount >= b.accessCount
                && (a.accessCount == b.accessCount ==>
                      && a.createdAt <= b.createdAt
                      && (a.createdAt == b.createdAt ==> a.id <= b.id || exists k :: LessAt(a.id, b.id, k)))))
  }

  lemma RanksFirstMeaning(a: Memory, b: Memory)
    requires a.id != b.id
    ensures RanksFirst(a, b) <==> Ahead(a, b)
  {
    LeqMeaning(a.id, b.id);
  }

  ghost predicate FirstTwin(rows: Store, ws: string, s: string, id: string) {
    Twins(rows, ws, s, id) && forall x | Twins(rows, ws, x, id) && x != s :: RanksFirst(rows[s], rows[x])
  }

  // The survivor of a memory's group is the first of its twins.
  lemma SurvivesMeaning(rows: Store, ws: string, s: string, id: string)
    requires Keyed(rows)
    ensures Survives(rows, ws, s, id) <==> FirstTwin(rows, ws, s, id)
  {
    forall x | id in rows && Eligible(rows[id]) && rows[id].workspace == ws
      ensures Member(rows, ws, x, GroupOf(rows[id])) <==> Twins(rows, ws, x, id)
    {
      TwinMember(rows, ws, x, id);
    }
    if id in rows { EligibleMeaning(rows[id]); }
    forall x | s in rows && x in rows && x != s ensures RanksFirst(rows[s], rows[x]) <==> Ahead(rows[s], rows[x]) {
      RanksFirstMeaning(rows[s], rows[x]);
    }
  }

  lemma TwinMember(rows: Store, ws: string, x: string, id: string)
    requires id in rows && Eligible(rows[id]) && rows[id].workspace == ws
    ensures Member(rows, ws, x, GroupOf(rows[id])) <==> Twins(rows, ws, x, id)
  {
    EligibleMeaning(rows[id]);
    if x in rows { EligibleMeaning(rows[x]); }
  }

  // Dedup leaves a memory alone unless it is dedupable and has a twin that ranks before it; then it is
  // superseded by the first of its twins, which is left as it is.
  lemma DedupedByFields(rows: Store, ws: string, after: Store, at: int, id: string)
    requires Keyed(rows) && DedupedStore(rows, ws, after, at) && id in rows
    ensures rows[id].workspace != ws || !Dedupable(rows[id]) ==> after[id] == rows[id]
    ensures rows[id].workspace == ws && Dedupable(rows[id]) ==>
              exists s :: FirstTwin(rows, ws, s, id) && after[s] == rows[s]
                && (id != s ==>
                      after[id] == rows[id].(status := Superseded, supersededBy := Some(s), updatedAt := at))
  {
    EligibleMeaning(rows[id]);
    assert Deduped(rows, ws, id, after[id], at);
    if rows[id].workspace == ws && Dedupable(rows[id]) {
      var s :| Survives(rows, ws, s, id) && after[id] == if s == id then rows[id] else Retired(rows[id], Some(s), at);
      SurvivesMeaning(rows, ws, s, id);
      SurvivorStays(rows, ws, after, at, s, id);
    }
  }
}
