/** Resolving an incoming memory item by assigning the fields of stored items in place. */
module ResolveInPlace {
  import opened Prelude
  import opened Ordering
  import opened KeyOntology
  import opened Memory
  import opened ConflictPolicy
  import opened Resolver

  class MemoryItem {
    var fields: Memory

    constructor (m: Memory)
      ensures fields == m
    {
      fields := m;
    }
  }

  function Objects(items: seq<MemoryItem>): set<MemoryItem> {
    set m | m in items
  }

  function Fields(items: seq<MemoryItem>): (r: seq<Memory>)
    reads items
    ensures |r| == |items|
    ensures forall i | 0 <= i < |items| :: r[i] == items[i].fields
  {
    seq(|items|, i requires 0 <= i < |items| reads items => items[i].fields)
  }

  lemma DistinctItems(items: seq<MemoryItem>)
    requires Distinct(Ids(Fields(items)))
    ensures Distinct(items)
  {
    forall i, j | 0 <= i < j < |items| ensures items[i] != items[j] {
      assert Ids(Fields(items))[i] != Ids(Fields(items))[j];
    }
  }

  // The two list comprehensions: items with the given value, and the others.
  method SplitByValue(items: seq<MemoryItem>, v: string) returns (same: seq<MemoryItem>, diff: seq<MemoryItem>)
    ensures Fields(same) == WithValue(Fields(items), v, true)
    ensures Fields(diff) == WithValue(Fields(items), v, false)
    ensures forall m :: m in same <==> m in items && Norm(m.fields.value) == v
    ensures forall m :: m in diff <==> m in items && Norm(m.fields.value) != v
  {
    same, diff := [], [];
    for i := 0 to |items|
      invariant Fields(same) == WithValue(Fields(items[..i]), v, true)
      invariant Fields(diff) == WithValue(Fields(items[..i]), v, false)
      invariant forall m :: m in same <==> m in items[..i] && Norm(m.fields.value) == v
      invariant forall m :: m in diff <==> m in items[..i] && Norm(m.fields.value) != v
    {
      OneMoreField(items[..i], items[i]);
      assert items[..i + 1] == items[..i] + [items[i]];
      if Norm(items[i].fields.value) == v {
        OneMoreField(same, items[i]);
        same := same + [items[i]];
      } else {
        OneMoreField(diff, items[i]);
        diff := diff + [items[i]];
      }
    }
    assert items[..|items|] == items;
  }

  lemma OneMoreField(items: seq<MemoryItem>, m: MemoryItem)
    ensures Fields(items + [m]) == Fields(items) + [m.fields]
    ensures Fields(items + [m])[..|items|] == Fields(items)
  {
  }

  method PickRepresentative(items: seq<MemoryItem>) returns (best: MemoryItem)
    requires items != []
    ensures best in items && best.fields == Representative(Fields(items))
  {
    ghost var all := Fields(items);
    best := items[0];
    for i := 1 to |items|
      invariant best in items && best.fields == Representative(all[..i])
    {
      RepresentativeNext(all, i);
      if LessRepresentative(best.fields, items[i].fields) { best := items[i]; }
    }
    assert all[..|items|] == all;
  }

  lemma RepresentativeNext(ms: seq<Memory>, i: nat)
    requires 0 < i < |ms|
    ensures Representative(ms[..i + 1])
            == if LessRepresentative(Representative(ms[..i]), ms[i]) then ms[i] else Representative(ms[..i])
  {
    assert ms[..i + 1][..i] == ms[..i];
  }

  // The order-preserving union of provenance.
  method CollectProvenance(ms: seq<Memory>) returns (out: seq<string>)
    ensures out == CollectSources(ms)
  {
    out := [];
    for i := 0 to |ms|
      invariant out == CollectSources(ms[..i])
    {
      var ids := SourcesOf(ms[i]);
      ghost var before := out;
      for j := 0 to |ids|
        invariant out == AddSources(before, ids[..j])
      {
        assert ids[..j + 1][..j] == ids[..j];
        if ids[j] != "" && ids[j] !in out { out := out + [ids[j]]; }
      }
      assert ids[..|ids|] == ids;
      assert ms[..i + 1][..i] == ms[..i];
    }
    assert ms[..|ms|] == ms;
  }

  // Field by field; the group contains the primary itself.
  method MergeInto(primary: MemoryItem, group: seq<Memory>, key: Option<string>, now: int)
    requires group != []
    modifies primary
    ensures primary.fields == Merged(old(primary.fields), group, key, now)
  {
    var sources := CollectProvenance(group);
    primary.fields := primary.fields.(sources := sources);
    primary.fields := primary.fields.(confidence := MaxOf(group, Confidence));
    primary.fields := primary.fields.(importance := MaxOf(group, Importance));
    primary.fields := primary.fields.(trust := MaxOf(group, Trust));
    primary.fields := primary.fields.(valueScore := MaxOf(group, Value));
    primary.fields := Promote(primary.fields, key);
    primary.fields := primary.fields.(updatedAt := now);
  }

  // Same-value duplicates other than the survivor are retired.
  method RetireDuplicates(items: seq<MemoryItem>, survivor: MemoryItem, now: int)
    requires Distinct(items) && survivor in items
    requires forall m | m in items && m != survivor :: m.fields.id != survivor.fields.id
    modifies Objects(items) - {survivor}
    ensures forall m | m in items && m != survivor ::
              m.fields == Retired(old(m.fields), Some(survivor.fields.id), now)
  {
    for i := 0 to |items|
      invariant forall j | 0 <= j < i && items[j] != survivor ::
                  items[j].fields == Retired(old(items[j].fields), Some(survivor.fields.id), now)
      invariant forall j | i <= j < |items| :: items[j].fields == old(items[j].fields)
    {
      if items[i].fields.id != survivor.fields.id {
        items[i].fields := Retired(items[i].fields, Some(survivor.fields.id), now);
      }
    }
  }

  method PromoteAll(items: seq<MemoryItem>, key: Option<string>)
    requires Distinct(items)
    modifies Objects(items)
    ensures forall m | m in items :: m.fields == Promote(old(m.fields), key)
  {
    for i := 0 to |items|
      invariant forall j | 0 <= j < i :: items[j].fields == Promote(old(items[j].fields), key)
      invariant forall j | i <= j < |items| :: items[j].fields == old(items[j].fields)
    {
      items[i].fields := Promote(items[i].fields, key);
    }
  }

  // The two loops that apply the decision.
  method SettleAll(items: seq<MemoryItem>, d: Decision, now: int)
    requires Distinct(items)
    modifies Objects(items)
    ensures forall m | m in items :: m.fields == Settled(old(m.fields), d, now)
  {
    for i := 0 to |items|
      invariant forall j | 0 <= j < i :: items[j].fields == Settled(old(items[j].fields), d, now)
      invariant forall j | i <= j < |items| :: items[j].fields == old(items[j].fields)
    {
      var m := items[i];
      if d.winner.Some? {
        if m.fields.id != d.winner.value { m.fields := Retired(m.fields, d.winner, now); }
      } else if m.fields.id in d.conflicted {
        m.fields := m.fields.(status := Conflicted, updatedAt := now);
      } else if m.fields.id in d.superseded {
        m.fields := Retired(m.fields, d.successor, now);
      }
    }
  }

  // Promote the candidates, decide among them, and apply the decision.
  method Adjudicate(candidates: seq<MemoryItem>, key: Option<string>, now: int)
    requires Distinct(candidates)
    modifies Objects(candidates)
    ensures var d := DecideConflict(Promoted(old(Fields(candidates)), key));
            forall m | m in candidates :: m.fields == Settled(Promote(old(m.fields), key), d, now)
  {
    PromoteAll(candidates, key);
    assert Fields(candidates) == Promoted(old(Fields(candidates)), key) by {
      forall i | 0 <= i < |candidates| ensures candidates[i].fields == Promote(old(candidates[i].fields), key) {
        assert candidates[i] in candidates;
      }
    }
    SettleAll(candidates, DecideConflict(Fields(candidates)), now);
  }

  // The survivor of the same-value items takes in the group, the others are retired.
  method MergeSame(same: seq<MemoryItem>, incoming: Memory, now: int) returns (primary: MemoryItem)
    requires same != [] && Distinct(Ids(Fields(same)))
    modifies Objects(same)
    ensures primary in same && primary.fields.id == old(primary.fields.id)
    ensures primary.fields
            == Merged(Representative(old(Fields(same))), old(Fields(same)) + [incoming], incoming.key, now)
    ensures forall m | m in same && m != primary ::
              m.fields == Retired(old(m.fields), Some(primary.fields.id), now)
              && old(m.fields.id) != old(primary.fields.id)
  {
    DistinctItems(same);
    primary := PickRepresentative(same);
    SurvivorAlone(same, primary);
    MergeInto(primary, Fields(same) + [incoming], incoming.key, now);
    RetireDuplicates(same, primary, now);
  }

  lemma SurvivorAlone(items: seq<MemoryItem>, m: MemoryItem)
    requires Distinct(Ids(Fields(items))) && m in items
    ensures forall x | x in items && x != m :: x.fields.id != m.fields.id
  {
    forall x | x in items && x != m ensures x.fields.id != m.fields.id {
      var i :| 0 <= i < |items| && items[i] == x;
      var j :| 0 <= j < |items| && items[j] == m;
      assert Ids(Fields(items))[i] != Ids(Fields(items))[j];
    }
  }

  // The parts of the plan the steps below produce.
  lemma PlanParts(incoming: Memory, existing: seq<Memory>, now: int)
    ensures var p := PlanOf(incoming, existing, now);
            var same := WithValue(existing, p.value, true);
            var diff := WithValue(existing, p.value, false);
            && p.value == Norm(incoming.value) && p.key == incoming.key && p.now == now
            && p.merged == (same != [])
            && (same == [] ==> p.primary == incoming)
            && (same != [] ==> p.primary == Merged(Representative(same), same + [incoming], incoming.key, now))
            && p.clash == (SingleValued(incoming) && diff != [])
            && (p.clash ==> p.decision == DecideConflict(Promoted([p.primary] + diff, p.key)))
  {
  }

  // The row every item is to end up with.
  ghost predicate Aims(target: map<MemoryItem, Memory>, items: set<MemoryItem>, p: Plan)
    reads items
  {
    forall m | m in items :: m in target && target[m] == RowAfter(p, m.fields)
  }

  ghost predicate Arrived(target: map<MemoryItem, Memory>, items: set<MemoryItem>)
    reads items
  {
    forall m | m in items :: m in target && m.fields == target[m]
  }

  // Same value: fold the incoming memory in; otherwise it stands for itself.
  method Fold(incoming: MemoryItem, same: seq<MemoryItem>, now: int, ghost p: Plan, ghost target: map<MemoryItem,
              Memory>)
    returns (primary: MemoryItem)
    requires incoming !in same && Distinct(Ids(Fields(same))) && Aims(target, Objects(same), p)
    requires p.merged == (same != []) && p.now == now && forall m | m in same :: Norm(m.fields.value) == p.value
    requires same == [] ==> p.primary == incoming.fields
    requires same != [] ==>
               p.primary
                   == Merged(Representative(Fields(same)), Fields(same) + [incoming.fields], incoming.fields.key, now)
    modifies Objects(same)
    ensures primary.fields == p.primary
    ensures if p.merged then primary in same && target[primary] == PrimaryAfter(p) else primary == incoming
    ensures Arrived(target, Objects(same) - {primary})
  {
    primary := incoming;
    if same != [] {
      primary := MergeSame(same, incoming.fields, now);
    }
  }

  // Reconciling with the split items, given the parts of the plan.
  method Reconcile(incoming: MemoryItem, same: seq<MemoryItem>, diff: seq<MemoryItem>, now: int,
                   ghost p: Plan, ghost target: map<MemoryItem, Memory>)
    returns (clashed: bool)
    requires Split(incoming, same, diff, p) && p.now == now && Aims(target, Objects(same) + Objects(diff), p)
    modifies {incoming} + Objects(same) + Objects(diff)
    ensures Arrived(target, Objects(same) + Objects(diff))
    ensures incoming.fields == (if p.merged then old(incoming.fields) else PrimaryAfter(p))
    ensures clashed == p.clash
  {
    var key, single := incoming.fields.key, SingleValued(incoming.fields);
    var primary := Fold(incoming, same, now, p, target);
    clashed := single && diff != [];
    Settle(primary, diff, key, now, clashed, p, target, Objects(same) - {primary});
    AllArrived(target, same, diff, primary);
  }

  lemma AllArrived(target: map<MemoryItem, Memory>, same: seq<MemoryItem>, diff: seq<MemoryItem>, primary: MemoryItem)
    requires Arrived(target, Objects(same) - {primary}) && Arrived(target, Objects(diff))
    requires primary in same ==> primary in target && primary.fields == target[primary]
    ensures Arrived(target, Objects(same) + Objects(diff))
  {
  }

  // Adjudicate when there is a clash; otherwise nothing is left to do.
  method Settle(primary: MemoryItem, diff: seq<MemoryItem>, key: Option<string>, now: int, clashed: bool,
                ghost p: Plan, ghost target: map<MemoryItem, Memory>, ghost others: set<MemoryItem>)
    requires Arrived(target, others) && others !! ({primary} + Objects(diff))
    requires primary !in diff && Distinct(diff) && p.clash == clashed && p.key == key && p.now == now
    requires (forall m | m in diff :: Norm(m.fields.value) != p.value) && Aims(target, Objects(diff), p)
    requires primary.fields == p.primary
    requires clashed ==> p.decision == DecideConflict(Promoted([p.primary] + Fields(diff), key))
    modifies {primary} + Objects(diff)
    ensures primary.fields == PrimaryAfter(p)
    ensures Arrived(target, Objects(diff)) && Arrived(target, others)
  {
    if clashed {
      AdjudicateRivals(primary, diff, key, now, p);
    }
  }

  ghost predicate Split(incoming: MemoryItem, same: seq<MemoryItem>, diff: seq<MemoryItem>, p: Plan)
    reads incoming, same, diff
  {
    && incoming !in same && incoming !in diff && Objects(same) !! Objects(diff)
    && Distinct(Ids(Fields(same))) && Distinct(diff)
    && (forall m | m in same :: Norm(m.fields.value) == p.value)
    && (forall m | m in diff :: Norm(m.fields.value) != p.value)
    && p.key == incoming.fields.key && p.merged == (same != [])
    && (same == [] ==> p.primary == incoming.fields)
    && (same != [] ==>
          p.primary
              == Merged(Representative(Fields(same)), Fields(same) + [incoming.fields], incoming.fields.key, p.now))
    && p.clash == (SingleValued(incoming.fields) && diff != [])
    && (p.clash ==> p.decision == DecideConflict(Promoted([p.primary] + Fields(diff), p.key)))
  }

  method Resolve(incoming: MemoryItem, existing: seq<MemoryItem>, now: int)
    returns (add: Option<MemoryItem>, updates: set<MemoryItem>)
    requires Matching(incoming.fields, Fields(existing))
    modifies {incoming} + Objects(existing)
    ensures var p := PlanOf(old(incoming.fields), old(Fields(existing)), now);
            && (forall m | m in Objects(existing) :: m.fields == RowAfter(p, old(m.fields)))
            && add == (if p.merged then None else Some(incoming))
            && incoming.fields == (if p.merged then old(incoming.fields) else PrimaryAfter(p))
    ensures updates <= Objects(existing)
    ensures forall m | m in Objects(existing) - updates :: m.fields == old(m.fields)
  {
    ghost var p := PlanOf(incoming.fields, Fields(existing), now);
    ghost var target := map m | m in Objects(existing) :: RowAfter(p, m.fields);
    var same, diff := SplitExisting(incoming, existing, now, p);
    add := if same != [] then None else Some(incoming);
    var clashed := Reconcile(incoming, same, diff, now, p, target);
    updates := Objects(same) + if clashed then Objects(diff) else {};
    QuietRows(p);
  }

  // Without a clash the items with another value stay as they are.
  lemma QuietRows(p: Plan)
    ensures !p.clash ==> forall m: Memory | Norm(m.value) != p.value :: RowAfter(p, m) == m
  {
  }

  method SplitExisting(incoming: MemoryItem, existing: seq<MemoryItem>, now: int, ghost p: Plan)
    returns (same: seq<MemoryItem>, diff: seq<MemoryItem>)
    requires Matching(incoming.fields, Fields(existing)) && p == PlanOf(incoming.fields, Fields(existing), now)
    ensures Split(incoming, same, diff, p) && p.now == now
    ensures Objects(existing) == Objects(same) + Objects(diff)
  {
    same, diff := SplitByValue(existing, Norm(incoming.fields.value));
    PlanParts(incoming.fields, Fields(existing), now);
    SplitIs(incoming, existing, now, same, diff, p);
  }

  lemma SplitIs(incoming: MemoryItem, existing: seq<MemoryItem>, now: int,
                same: seq<MemoryItem>, diff: seq<MemoryItem>, p: Plan)
    requires Matching(incoming.fields, Fields(existing))
    requires p == PlanOf(incoming.fields, Fields(existing), now)
    requires Fields(same) == WithValue(Fields(existing), p.value, true)
    requires Fields(diff) == WithValue(Fields(existing), p.value, false)
    requires forall m :: m in same <==> m in existing && Norm(m.fields.value) == p.value
    requires forall m :: m in diff <==> m in existing && Norm(m.fields.value) != p.value
    ensures Split(incoming, same, diff, p) && p.now == now
  {
    PlanParts(incoming.fields, Fields(existing), now);
    Apartness(incoming, existing);
    WithValueDistinct(Fields(existing), p.value, true);
    WithValueDistinct(Fields(existing), p.value, false);
    DistinctItems(diff);
  }

  // The incoming item is none of the existing ones.
  lemma Apartness(incoming: MemoryItem, existing: seq<MemoryItem>)
    requires Matching(incoming.fields, Fields(existing))
    ensures incoming !in existing
  {
    forall i | 0 <= i < |existing| ensures existing[i] != incoming {
      assert Fields(existing)[i] in Fields(existing);
    }
  }

  method AdjudicateRivals(primary: MemoryItem, diff: seq<MemoryItem>, key: Option<string>, now: int, ghost p: Plan)
    requires primary !in diff && Distinct(diff) && p.clash && p.key == key && p.now == now
    requires forall m | m in diff :: Norm(m.fields.value) != p.value
    requires primary.fields == p.primary && p.decision == DecideConflict(Promoted([p.primary] + Fields(diff), key))
    modifies {primary} + Objects(diff)
    ensures primary.fields == PrimaryAfter(p)
    ensures forall m | m in Objects(diff) :: m.fields == RowAfter(p, old(m.fields))
  {
    DistinctPrepend(primary, diff);
    assert Fields([primary] + diff) == [p.primary] + Fields(diff);
    Adjudicate([primary] + diff, key, now);
    assert primary in [primary] + diff;
    assert forall m | m in diff :: m in [primary] + diff;
  }
}
