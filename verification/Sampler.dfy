/** The stratified round-robin sampler of the long-memory benchmark, parsed in full and streamed. */
module Sampler {
  import opened Prelude
  import opened Ordering

  datatype Question = Question(id: string, kind: Option<string>)

  function TypeOf(q: Question): string {
    if q.kind.Some? then q.kind.value else "other"
  }

  // ---- Buckets ----

  // The question types in the order in which they first occur.
  function Kinds(data: seq<Question>): seq<string> {
    if data == [] then []
    else
      var before := Kinds(data[..|data| - 1]);
      var t := TypeOf(data[|data| - 1]);
      if t in before then before else before + [t]
  }

  function Bucket(data: seq<Question>, t: string): seq<Question> {
    if data == [] then []
    else
      var q := data[|data| - 1];
      Bucket(data[..|data| - 1], t) + if TypeOf(q) == t then [q] else []
  }

  function Kept(data: seq<Question>, keep: Question -> bool): seq<Question> {
    if data == [] then []
    else
      var q := data[|data| - 1];
      Kept(data[..|data| - 1], keep) + if keep(q) then [q] else []
  }

  function Order(data: seq<Question>): seq<string> {
    Sort(Kinds(data))
  }

  // The buckets in sorted type order, and their sizes.
  function Columns(data: seq<Question>): seq<seq<Question>> {
    var order := Order(data);
    seq(|order|, i requires 0 <= i < |order| => Bucket(data, order[i]))
  }

  function Sizes<T>(columns: seq<seq<T>>): seq<nat> {
    seq(|columns|, i requires 0 <= i < |columns| => |columns[i]|)
  }

  // The per-type bound of the streaming form.
  function Cap(limit: int): nat {
    Max(4, limit / 4 + 4)
  }

  function Capped(sizes: seq<nat>, cap: nat): seq<nat> {
    seq(|sizes|, i requires 0 <= i < |sizes| => Min(sizes[i], cap))
  }

  // ---- The round-robin order, as pairs (type, index within the type) ----

  datatype Pick = Pick(t: nat, idx: nat)

  // Round idx restricted to the first k types.
  function Round(sizes: seq<nat>, idx: nat, k: nat): seq<Pick>
    requires k <= |sizes|
  {
    if k == 0 then []
    else Round(sizes, idx, k - 1) + if idx < sizes[k - 1] then [Pick(k - 1, idx)] else []
  }

  function Rounds(sizes: seq<nat>, n: nat): seq<Pick> {
    if n == 0 then [] else Rounds(sizes, n - 1) + Round(sizes, n - 1, |sizes|)
  }

  function Longest(sizes: seq<nat>): nat {
    if sizes == [] then 0 else Max(sizes[|sizes| - 1], Longest(sizes[..|sizes| - 1]))
  }

  lemma {:induction false} LongestBounds(sizes: seq<nat>)
    ensures forall t | 0 <= t < |sizes| :: sizes[t] <= Longest(sizes)
    ensures Longest(sizes) > 0 ==> exists t | 0 <= t < |sizes| :: sizes[t] == Longest(sizes)
  {
    if sizes != [] {
      var last := |sizes| - 1;
      LongestBounds(sizes[..last]);
      if Longest(sizes) > 0 && sizes[last] < Longest(sizes) {
        var t :| 0 <= t < last && sizes[..last][t] == Longest(sizes);
        assert sizes[t] == Longest(sizes);
      }
    }
  }

  function Take<T>(s: seq<T>, n: int): seq<T> {
    if n <= 0 then [] else if n <= |s| then s[..n] else s
  }

  // The picks of a sample of at most `limit` questions.
  function Picks(sizes: seq<nat>, limit: int): seq<Pick> {
    Take(Rounds(sizes, Longest(sizes)), limit)
  }

  // ---- Sizes of rounds ----

  function SumMin(sizes: seq<nat>, n: nat): nat {
    if sizes == [] then 0
    else SumMin(sizes[..|sizes| - 1], n) + Min(sizes[|sizes| - 1], n)
  }

  function Sum(sizes: seq<nat>): nat {
    if sizes == [] then 0 else Sum(sizes[..|sizes| - 1]) + sizes[|sizes| - 1]
  }

  lemma {:induction false} RoundPrefix(sizes: seq<nat>, idx: nat, k: nat)
    requires k < |sizes|
    ensures Round(sizes, idx, k) == Round(sizes[..|sizes| - 1], idx, k)
  {
    if k > 0 {
      RoundPrefix(sizes, idx, k - 1);
    }
  }

  lemma {:induction false} RoundLength(sizes: seq<nat>, idx: nat)
    ensures SumMin(sizes, idx + 1) == SumMin(sizes, idx) + |Round(sizes, idx, |sizes|)|
  {
    if sizes != [] {
      var last := |sizes| - 1;
      RoundLength(sizes[..last], idx);
      RoundPrefix(sizes, idx, last);
    }
  }

  lemma {:induction false} SumMinZero(sizes: seq<nat>)
    ensures SumMin(sizes, 0) == 0
  {
    if sizes != [] {
      SumMinZero(sizes[..|sizes| - 1]);
    }
  }

  lemma {:induction false} RoundsLength(sizes: seq<nat>, n: nat)
    ensures |Rounds(sizes, n)| == SumMin(sizes, n)
  {
    if n == 0 {
      SumMinZero(sizes);
    } else {
      RoundsLength(sizes, n - 1);
      RoundLength(sizes, n - 1);
      assert Rounds(sizes, n) == Rounds(sizes, n - 1) + Round(sizes, n - 1, |sizes|);
    }
  }

  lemma {:induction false} SumMinAll(sizes: seq<nat>, n: nat)
    ensures SumMin(sizes, n) <= Sum(sizes)
    ensures (forall t | 0 <= t < |sizes| :: sizes[t] <= n) ==> SumMin(sizes, n) == Sum(sizes)
  {
    if sizes != [] {
      SumMinAll(sizes[..|sizes| - 1], n);
    }
  }

  // Rounds past the longest bucket are empty, and a longer run starts with a shorter one.
  lemma {:induction false} RoundsExtend(sizes: seq<nat>, m: nat, n: nat)
    requires m <= n
    ensures Rounds(sizes, m) <= Rounds(sizes, n)
    decreases n - m
  {
    if m < n {
      RoundsExtend(sizes, m, n - 1);
    }
  }

  // ---- Streamed against parsed ----

  lemma {:induction false} RoundCapped(sizes: seq<nat>, cap: nat, idx: nat, k: nat)
    requires k <= |sizes|
    ensures Round(Capped(sizes, cap), idx, k) == if idx < cap then Round(sizes, idx, k) else []
  {
    if k > 0 {
      RoundCapped(sizes, cap, idx, k - 1);
      CappedTurn(sizes, cap, idx, k);
    }
  }

  lemma CappedTurn(sizes: seq<nat>, cap: nat, idx: nat, k: nat)
    requires 0 < k <= |sizes|
    requires Round(Capped(sizes, cap), idx, k - 1) == if idx < cap then Round(sizes, idx, k - 1) else []
    ensures Round(Capped(sizes, cap), idx, k) == if idx < cap then Round(sizes, idx, k) else []
  {
    var cut := Capped(sizes, cap);
    RoundGrows(cut, idx, k);
    RoundGrows(sizes, idx, k);
    assert idx < cut[k - 1] <==> idx < sizes[k - 1] && idx < cap;
  }

  lemma RoundGrows(sizes: seq<nat>, idx: nat, k: nat)
    requires 0 < k <= |sizes|
    ensures Round(sizes, idx, k)
            == if idx < sizes[k - 1] then Round(sizes, idx, k - 1) + [Pick(k - 1, idx)] else Round(sizes, idx, k - 1)
  {
  }

  lemma {:induction false} RoundsCapped(sizes: seq<nat>, cap: nat, n: nat)
    ensures Rounds(Capped(sizes, cap), n) == Rounds(sizes, Min(n, cap))
  {
    if n > 0 {
      RoundsCapped(sizes, cap, n - 1);
      CappedNext(sizes, cap, n);
    }
  }

  lemma CappedNext(sizes: seq<nat>, cap: nat, n: nat)
    requires n > 0
    ensures Rounds(Capped(sizes, cap), n)
            == Rounds(Capped(sizes, cap), n - 1) + if n <= cap then Round(sizes, n - 1, |sizes|) else []
    ensures Rounds(sizes, Min(n, cap))
            == Rounds(sizes, Min(n - 1, cap)) + if n <= cap then Round(sizes, n - 1, |sizes|) else []
  {
    RoundCapped(sizes, cap, n - 1, |sizes|);
    RoundsNext(Capped(sizes, cap), n);
    if n <= cap { RoundsNext(sizes, n); } else { NothingMore(Rounds(sizes, cap)); }
  }

  lemma RoundsNext(sizes: seq<nat>, n: nat)
    requires n > 0
    ensures Rounds(sizes, n) == Rounds(sizes, n - 1) + Round(sizes, n - 1, |sizes|)
  {
  }

  lemma NothingMore(picks: seq<Pick>)
    ensures picks + [] == picks
  {
  }

  lemma LongestIs(sizes: seq<nat>, n: nat)
    requires forall t | 0 <= t < |sizes| :: sizes[t] <= n
    requires n == 0 || exists t | 0 <= t < |sizes| :: sizes[t] == n
    ensures Longest(sizes) == n
  {
    LongestBounds(sizes);
  }

  lemma LongestCapped(sizes: seq<nat>, cap: nat)
    ensures Rounds(Capped(sizes, cap), Longest(Capped(sizes, cap))) == Rounds(sizes, Min(Longest(sizes), cap))
  {
    var cut := Capped(sizes, cap);
    var n := Min(Longest(sizes), cap);
    LongestBounds(sizes);
    if n > 0 {
      var t :| 0 <= t < |sizes| && sizes[t] == Longest(sizes);
      assert cut[t] == n;
    }
    LongestIs(cut, n);
    RoundsCapped(sizes, cap, n);
  }

  // The streamed sample makes the same picks exactly when what it may keep of all types together
  // reaches the limit, or loses nothing.
  lemma StreamedPicks(sizes: seq<nat>, cap: nat, limit: int)
    ensures Picks(Capped(sizes, cap), limit) == Picks(sizes, limit)
            <==> SumMin(sizes, cap) >= Min(limit, Sum(sizes))
  {
    var full := Longest(sizes);
    LongestCapped(sizes, cap);
    RoundsExtend(sizes, Min(full, cap), full);
    RoundsLength(sizes, Min(full, cap));
    RoundsLength(sizes, full);
    LongestBounds(sizes);
    SumMinAll(sizes, full);
    SumMinAll(sizes, cap);
    CapBeyond(sizes, cap);
  }

  lemma CapBeyond(sizes: seq<nat>, cap: nat)
    ensures SumMin(sizes, Min(Longest(sizes), cap)) == SumMin(sizes, cap)
  {
    LongestBounds(sizes);
    if cap > Longest(sizes) {
      SumMinAll(sizes, cap);
      SumMinAll(sizes, Longest(sizes));
    }
  }

  // The documented bound is a promise about memory only: one long type is cut short.
  lemma OneTypeIsCut()
    ensures |Picks([100], 50)| == 50 && |Picks(Capped([100], Cap(50)), 50)| == 16
  {
    RoundsLength([100], 100);
    assert Capped([100], 16) == [16];
    RoundsLength([16], 16);
  }

  // ---- The questions behind the picks ----

  ghost predicate InRange(sizes: seq<nat>, picks: seq<Pick>) {
    forall p | p in picks :: p.t < |sizes| && p.idx < sizes[p.t]
  }

  ghost function Chosen(columns: seq<seq<Question>>, picks: seq<Pick>): seq<Question>
    requires InRange(Sizes(columns), picks)
  {
    seq(|picks|, i requires 0 <= i < |picks| =>
      assert picks[i] in picks;
      columns[picks[i].t][picks[i].idx])
  }

  lemma {:induction false} RoundMember(sizes: seq<nat>, idx: nat, k: nat, p: Pick)
    requires k <= |sizes|
    ensures p in Round(sizes, idx, k) <==> p.idx == idx && p.t < k && idx < sizes[p.t]
  {
    if k > 0 {
      RoundMember(sizes, idx, k - 1, p);
    }
  }

  lemma InConcat<T>(a: seq<T>, b: seq<T>, x: T)
    ensures x in a + b <==> x in a || x in b
  {
  }

  lemma {:induction false} RoundsMember(sizes: seq<nat>, n: nat, p: Pick)
    ensures p in Rounds(sizes, n) <==> p.idx < n && p.t < |sizes| && p.idx < sizes[p.t]
  {
    if n > 0 {
      RoundsMember(sizes, n - 1, p);
      if p.idx == n - 1 { ThisRound(sizes, n, p); } else { OtherRound(sizes, n, p); }
    }
  }

  lemma ThisRound(sizes: seq<nat>, n: nat, p: Pick)
    requires n > 0 && p.idx == n - 1 && p !in Rounds(sizes, n - 1)
    ensures p in Rounds(sizes, n) <==> p.t < |sizes| && p.idx < sizes[p.t]
  {
    WholeRoundMember(sizes, n - 1, p);
    InRounds(sizes, n, p);
  }

  lemma OtherRound(sizes: seq<nat>, n: nat, p: Pick)
    requires n > 0 && p.idx != n - 1
    ensures p in Rounds(sizes, n) <==> p in Rounds(sizes, n - 1)
  {
    WholeRoundMember(sizes, n - 1, p);
    InRounds(sizes, n, p);
  }

  lemma WholeRoundMember(sizes: seq<nat>, idx: nat, p: Pick)
    ensures p in Round(sizes, idx, |sizes|) <==> p.idx == idx && p.t < |sizes| && idx < sizes[p.t]
  {
    RoundMember(sizes, idx, |sizes|, p);
  }

  lemma InRounds(sizes: seq<nat>, n: nat, p: Pick)
    requires n > 0
    ensures p in Rounds(sizes, n) <==> p in Rounds(sizes, n - 1) || p in Round(sizes, n - 1, |sizes|)
  {
    InConcat(Rounds(sizes, n - 1), Round(sizes, n - 1, |sizes|), p);
  }

  lemma PicksInRange(sizes: seq<nat>, limit: int)
    ensures InRange(sizes, Picks(sizes, limit))
  {
    forall p | p in Picks(sizes, limit) ensures p.t < |sizes| && p.idx < sizes[p.t] {
      RoundsMember(sizes, Longest(sizes), p);
    }
  }

  // Round-robin order: by round, then by type.
  predicate Before(p: Pick, q: Pick) {
    p.idx < q.idx || (p.idx == q.idx && p.t < q.t)
  }

  ghost predicate Ascending(picks: seq<Pick>) {
    forall i, j | 0 <= i < j < |picks| :: Before(picks[i], picks[j])
  }

  lemma {:induction false} RoundAscending(sizes: seq<nat>, idx: nat, k: nat)
    requires k <= |sizes|
    ensures Ascending(Round(sizes, idx, k))
  {
    if k > 0 {
      RoundAscending(sizes, idx, k - 1);
      var r := Round(sizes, idx, k - 1);
      forall i | 0 <= i < |r| ensures Before(r[i], Pick(k - 1, idx)) {
        RoundMember(sizes, idx, k - 1, r[i]);
      }
    }
  }

  lemma {:induction false} RoundsAscending(sizes: seq<nat>, n: nat)
    ensures Ascending(Rounds(sizes, n))
  {
    if n > 0 {
      RoundsAscending(sizes, n - 1);
      RoundAscending(sizes, n - 1, |sizes|);
      var before, r := Rounds(sizes, n - 1), Round(sizes, n - 1, |sizes|);
      forall i, j | 0 <= i < |before| && 0 <= j < |r| ensures Before(before[i], r[j]) {
        RoundsMember(sizes, n - 1, before[i]);
        RoundMember(sizes, n - 1, |sizes|, r[j]);
      }
    }
  }

  // How many picks a type got.
  function TakenOf(picks: seq<Pick>, t: nat): nat {
    if picks == [] then 0
    else TakenOf(picks[..|picks| - 1], t) + if picks[|picks| - 1].t == t then 1 else 0
  }

  // A prefix of the round-robin order takes the first so many questions of each type.
  lemma {:induction false} PrefixTakesFirst(sizes: seq<nat>, n: nat, k: nat, t: nat, i: nat)
    requires k <= |Rounds(sizes, n)|
    ensures Pick(t, i) in Rounds(sizes, n)[..k] <==> i < TakenOf(Rounds(sizes, n)[..k], t)
    decreases k
  {
    if k > 0 {
      var all := Rounds(sizes, n);
      var x := all[k - 1];
      assert all[..k][..k - 1] == all[..k - 1] && all[..k] == all[..k - 1] + [x];
      PrefixTakesFirst(sizes, n, k - 1, t, i);
      if x.t == t {
        NextOfType(sizes, n, k);
      }
    }
  }

  lemma NextOfType(sizes: seq<nat>, n: nat, k: nat)
    requires 0 < k <= |Rounds(sizes, n)|
    ensures var x := Rounds(sizes, n)[k - 1]; x.idx == TakenOf(Rounds(sizes, n)[..k - 1], x.t)
    decreases k, 0
  {
    var all := Rounds(sizes, n);
    var x := all[k - 1];
    var taken := TakenOf(all[..k - 1], x.t);
    RoundsAscending(sizes, n);
    RoundsMember(sizes, n, x);
    PrefixTakesFirst(sizes, n, k - 1, x.t, x.idx);
    assert all[..k] == all[..k - 1] + [x];
    if taken < x.idx {
      PrefixTakesFirst(sizes, n, k - 1, x.t, taken);
      EarlierIsTaken(sizes, n, k, Pick(x.t, taken), x);
    }
  }

  // Whatever comes before a pick in round-robin order, and exists, is taken with it.
  lemma EarlierIsTaken(sizes: seq<nat>, n: nat, k: nat, p: Pick, q: Pick)
    requires k <= |Rounds(sizes, n)| && q in Rounds(sizes, n)[..k]
    requires Before(p, q) && p.t < |sizes| && p.idx < sizes[p.t]
    ensures p in Rounds(sizes, n)[..k]
  {
    var all := Rounds(sizes, n);
    RoundsAscending(sizes, n);
    RoundsMember(sizes, n, p);
    RoundsMember(sizes, n, q);
    var i :| 0 <= i < |all| && all[i] == p;
    var j :| 0 <= j < k && all[j] == q;
    assert i < j;
    assert all[..k][i] == p;
  }

  // The per-type counts differ by at most one, unless the smaller type is used up.
  lemma Balanced(sizes: seq<nat>, limit: int, t: nat, u: nat)
    requires t < |sizes| && u < |sizes|
    ensures var picks := Picks(sizes, limit);
            TakenOf(picks, u) <= TakenOf(picks, t) + 1 || TakenOf(picks, t) == sizes[t]
  {
    var n := Longest(sizes);
    var all := Rounds(sizes, n);
    var k: nat := if limit <= 0 then 0 else if limit <= |all| then limit else |all|;
    assert Picks(sizes, limit) == all[..k];
    var a, b := TakenOf(all[..k], t), TakenOf(all[..k], u);
    PrefixTakesFirst(sizes, n, k, t, sizes[t]);
    if Pick(t, sizes[t]) in all[..k] { RoundsMember(sizes, n, Pick(t, sizes[t])); }
    if b > a + 1 && a < sizes[t] {
      PrefixTakesFirst(sizes, n, k, u, b - 1);
      EarlierIsTaken(sizes, n, k, Pick(t, a), Pick(u, b - 1));
      PrefixTakesFirst(sizes, n, k, t, a);
    }
  }

  // ---- Every question is in one bucket ----

  lemma {:induction false} KindsCorrect(data: seq<Question>)
    ensures Distinct(Kinds(data))
    ensures forall i | 0 <= i < |data| :: TypeOf(data[i]) in Kinds(data)
  {
    if data != [] {
      var last := |data| - 1;
      KindsCorrect(data[..last]);
      forall i | 0 <= i < |data| ensures TypeOf(data[i]) in Kinds(data) {
        if i < last { assert data[..last][i] == data[i]; }
      }
    }
  }

  function BucketSizes(data: seq<Question>, order: seq<string>): seq<nat> {
    seq(|order|, i requires 0 <= i < |order| => |Bucket(data, order[i])|)
  }

  lemma {:induction false} SumOneMore(a: seq<nat>, b: seq<nat>, j: nat)
    requires |a| == |b| && j < |a|
    requires forall i | 0 <= i < |a| :: b[i] == a[i] + if i == j then 1 else 0
    ensures Sum(b) == Sum(a) + 1
  {
    var last := |a| - 1;
    if j < last {
      SumOneMore(a[..last], b[..last], j);
    } else {
      assert a[..last] == b[..last];
    }
  }

  lemma {:induction false} BucketsCover(data: seq<Question>, order: seq<string>)
    requires Distinct(order) && forall i | 0 <= i < |data| :: TypeOf(data[i]) in order
    ensures Sum(BucketSizes(data, order)) == |data|
    decreases |data|
  {
    if data == [] {
      SumZero(BucketSizes(data, order));
    } else {
      var last := |data| - 1;
      assert forall i | 0 <= i < last :: data[..last][i] == data[i];
      BucketsCover(data[..last], order);
      var j :| 0 <= j < |order| && order[j] == TypeOf(data[last]);
      SumOneMore(BucketSizes(data[..last], order), BucketSizes(data, order), j);
    }
  }

  lemma {:induction false} SumZero(sizes: seq<nat>)
    requires forall i | 0 <= i < |sizes| :: sizes[i] == 0
    ensures Sum(sizes) == 0
  {
    if sizes != [] {
      SumZero(sizes[..|sizes| - 1]);
    }
  }

  lemma SizesCover(data: seq<Question>)
    ensures Sum(Sizes(Columns(data))) == |data|
  {
    KindsCorrect(data);
    SortDistinct(Kinds(data));
    BucketsCover(data, Order(data));
    assert Sizes(Columns(data)) == BucketSizes(data, Order(data));
  }

  // ---- Main results ----

  // The full-parse sample.
  ghost function Parsed(data: seq<Question>, limit: int): seq<Question> {
    PicksInRange(Sizes(Columns(data)), limit);
    Chosen(Columns(data), Picks(Sizes(Columns(data)), limit))
  }

  function Cut(columns: seq<seq<Question>>, cap: nat): seq<seq<Question>> {
    seq(|columns|, i requires 0 <= i < |columns| => Take(columns[i], cap))
  }

  // The streamed sample, whose buckets stop growing at the cap.
  ghost function Streamed(data: seq<Question>, limit: int): seq<Question> {
    var columns := Cut(Columns(data), Cap(limit));
    PicksInRange(Sizes(columns), limit);
    Chosen(columns, Picks(Sizes(columns), limit))
  }

  lemma PicksAreStratified(sizes: seq<nat>, limit: int)
    ensures |Picks(sizes, limit)| == Min(Max(0, limit), Sum(sizes)) && Distinct(Picks(sizes, limit))
    ensures forall t, u | 0 <= t < |sizes| && 0 <= u < |sizes| ::
              var picks := Picks(sizes, limit);
              TakenOf(picks, u) <= TakenOf(picks, t) + 1 || TakenOf(picks, t) == sizes[t]
  {
    RoundsLength(sizes, Longest(sizes));
    LongestBounds(sizes);
    SumMinAll(sizes, Longest(sizes));
    RoundsAscending(sizes, Longest(sizes));
    forall t, u | 0 <= t < |sizes| && 0 <= u < |sizes|
      ensures TakenOf(Picks(sizes, limit), u) <= TakenOf(Picks(sizes, limit), t) + 1
              || TakenOf(Picks(sizes, limit), t) == sizes[t]
    {
      Balanced(sizes, limit, t, u);
    }
  }

  // A bucket holds questions of its type only.
  lemma {:induction false} BucketType(data: seq<Question>, t: string)
    ensures forall i | 0 <= i < |Bucket(data, t)| :: TypeOf(Bucket(data, t)[i]) == t
  {
    if data != [] {
      BucketType(data[..|data| - 1], t);
    }
  }

  lemma {:induction false} NoneOfType(data: seq<Question>, t: string)
    requires forall i | 0 <= i < |data| :: TypeOf(data[i]) != t
    ensures Bucket(data, t) == []
  {
    if data != [] {
      NoneOfType(data[..|data| - 1], t);
    }
  }

  // The first picks give every type the first questions of its bucket.
  lemma {:induction false} FirstOfBucket(data: seq<Question>, n: nat, k: nat, t: nat)
    requires k <= |Rounds(Sizes(Columns(data)), n)| && t < |Order(data)|
    ensures var picks := Rounds(Sizes(Columns(data)), n)[..k];
            && InRange(Sizes(Columns(data)), picks)
            && TakenOf(picks, t) <= |Bucket(data, Order(data)[t])|
            && Bucket(Chosen(Columns(data), picks), Order(data)[t])
               == Bucket(data, Order(data)[t])[..TakenOf(picks, t)]
  {
    var columns, order := Columns(data), Order(data);
    var all := Rounds(Sizes(columns), n);
    if k > 0 {
      var x := all[k - 1];
      FirstOfBucket(data, n, k - 1, t);
      assert all[..k][..k - 1] == all[..k - 1] && all[..k] == all[..k - 1] + [x];
      RoundsMember(Sizes(columns), n, x);
      NextOfType(Sizes(columns), n, k);
      NextOfBucket(data, all[..k - 1], x, t);
    }
  }

  lemma NextOfBucket(data: seq<Question>, picks: seq<Pick>, x: Pick, t: nat)
    requires InRange(Sizes(Columns(data)), picks) && t < |Order(data)| && x.t < |Order(data)|
    requires x.idx < |Bucket(data, Order(data)[x.t])| && x.idx == TakenOf(picks, x.t)
    requires var bucket := Bucket(data, Order(data)[t]);
             && TakenOf(picks, t) <= |bucket|
             && Bucket(Chosen(Columns(data), picks), Order(data)[t]) == bucket[..TakenOf(picks, t)]
    ensures var bucket := Bucket(data, Order(data)[t]);
            && InRange(Sizes(Columns(data)), picks + [x]) && TakenOf(picks + [x], t) <= |bucket|
            && Bucket(Chosen(Columns(data), picks + [x]), Order(data)[t]) == bucket[..TakenOf(picks + [x], t)]
  {
    BucketGrows(data, picks, x, t);
    TakenOneMore(picks, x, t);
    if x.t == t { PrefixGrows(Bucket(data, Order(data)[t]), x.idx); }
  }

  lemma TakenOneMore(picks: seq<Pick>, x: Pick, t: nat)
    ensures TakenOf(picks + [x], t) == TakenOf(picks, t) + if x.t == t then 1 else 0
  {
    assert (picks + [x])[..|picks|] == picks;
  }

  lemma PrefixGrows(bucket: seq<Question>, n: nat)
    requires n < |bucket|
    ensures bucket[..n] + [bucket[n]] == bucket[..n + 1]
  {
  }

  lemma BucketGrows(data: seq<Question>, picks: seq<Pick>, x: Pick, t: nat)
    requires InRange(Sizes(Columns(data)), picks) && t < |Order(data)| && x.t < |Order(data)|
    requires x.idx < |Bucket(data, Order(data)[x.t])|
    ensures InRange(Sizes(Columns(data)), picks + [x])
    ensures Bucket(Chosen(Columns(data), picks + [x]), Order(data)[t])
            == Bucket(Chosen(Columns(data), picks), Order(data)[t])
               + if x.t == t then [Bucket(data, Order(data)[t])[x.idx]] else []
  {
    var columns, order := Columns(data), Order(data);
    ChosenOneMore(columns, picks, x);
    BucketType(data, order[x.t]);
    OrderDistinct(data, x.t, t);
    OneMore(Chosen(columns, picks), columns[x.t][x.idx], order[t]);
  }

  lemma OrderDistinct(data: seq<Question>, t: nat, u: nat)
    requires t < |Order(data)| && u < |Order(data)|
    ensures Order(data)[t] == Order(data)[u] <==> t == u
  {
    KindsCorrect(data);
    SortDistinct(Kinds(data));
  }

  lemma KindAt(data: seq<Question>, t: string)
    ensures t in Kinds(data) ==> exists i | 0 <= i < |Order(data)| :: Order(data)[i] == t
    ensures t !in Kinds(data) ==> forall i | 0 <= i < |Order(data)| :: Order(data)[i] != t
    ensures t !in Kinds(data) ==> Bucket(data, t) == []
  {
    KindsCorrect(data);
    SortDistinct(Kinds(data));
    assert t in Order(data) <==> t in Kinds(data);
    if t !in Kinds(data) {
      NoneOfType(data, t);
    }
  }

  // Of a type of the data: how many are taken, and that they are its first ones.
  lemma ParsedOfKind(data: seq<Question>, limit: int, t: nat)
    requires t < |Order(data)|
    ensures var n := TakenOf(Picks(Sizes(Columns(data)), limit), t);
            && n <= |Bucket(data, Order(data)[t])|
            && Bucket(Parsed(data, limit), Order(data)[t]) == Bucket(data, Order(data)[t])[..n]
  {
    var sizes := Sizes(Columns(data));
    var all := Rounds(sizes, Longest(sizes));
    var k: nat := if limit <= 0 then 0 else if limit <= |all| then limit else |all|;
    assert Picks(sizes, limit) == all[..k];
    FirstOfBucket(data, Longest(sizes), k, t);
  }

  lemma ParsedOfNone(data: seq<Question>, limit: int, t: string)
    requires t !in Kinds(data)
    ensures Bucket(Parsed(data, limit), t) == [] == Bucket(data, t)
  {
    var columns := Columns(data);
    var picks := Picks(Sizes(columns), limit);
    PicksInRange(Sizes(columns), limit);
    KindAt(data, t);
    var parsed := Parsed(data, limit);
    forall i | 0 <= i < |parsed| ensures TypeOf(parsed[i]) != t {
      assert picks[i] in picks;
      BucketType(data, Order(data)[picks[i].t]);
    }
    NoneOfType(parsed, t);
  }

  // The full sampler returns min(limit, size) questions: of every type the first ones in their order,
  // so that none is returned more often than the data holds it, and as many of each type as of any
  // other, give or take one, unless all of a type are taken.
  lemma ParsedIsStratified(data: seq<Question>, limit: int)
    ensures |Parsed(data, limit)| == Min(Max(0, limit), |data|)
    ensures forall t :: Bucket(Parsed(data, limit), t) <= Bucket(data, t)
    ensures multiset(Parsed(data, limit)) <= multiset(data)
    ensures forall t, u ::
              || |Bucket(Parsed(data, limit), u)| <= |Bucket(Parsed(data, limit), t)| + 1
              || |Bucket(Parsed(data, limit), t)| == |Bucket(data, t)|
  {
    SizesCover(data);
    PicksAreStratified(Sizes(Columns(data)), limit);
    forall t ensures Bucket(Parsed(data, limit), t) <= Bucket(data, t) {
      ParsedBucket(data, limit, t);
    }
    forall t, u
      ensures || |Bucket(Parsed(data, limit), u)| <= |Bucket(Parsed(data, limit), t)| + 1
              || |Bucket(Parsed(data, limit), t)| == |Bucket(data, t)|
    {
      ParsedBalanced(data, limit, t, u);
    }
    SubMultiset(Parsed(data, limit), data);
  }

  lemma ParsedBucket(data: seq<Question>, limit: int, t: string)
    ensures Bucket(Parsed(data, limit), t) <= Bucket(data, t)
  {
    KindAt(data, t);
    if t in Kinds(data) {
      var i :| 0 <= i < |Order(data)| && Order(data)[i] == t;
      ParsedOfKind(data, limit, i);
    } else {
      ParsedOfNone(data, limit, t);
    }
  }

  lemma ParsedBalanced(data: seq<Question>, limit: int, t: string, u: string)
    ensures || |Bucket(Parsed(data, limit), u)| <= |Bucket(Parsed(data, limit), t)| + 1
            || |Bucket(Parsed(data, limit), t)| == |Bucket(data, t)|
  {
    KindAt(data, t);
    KindAt(data, u);
    if t !in Kinds(data) {
      ParsedOfNone(data, limit, t);
    } else if u !in Kinds(data) {
      ParsedOfNone(data, limit, u);
    } else {
      var i :| 0 <= i < |Order(data)| && Order(data)[i] == t;
      var j :| 0 <= j < |Order(data)| && Order(data)[j] == u;
      KindsBalanced(data, limit, i, j);
    }
  }

  lemma KindsBalanced(data: seq<Question>, limit: int, t: nat, u: nat)
    requires t < |Order(data)| && u < |Order(data)|
    ensures var parsed, order := Parsed(data, limit), Order(data);
            || |Bucket(parsed, order[u])| <= |Bucket(parsed, order[t])| + 1
            || |Bucket(parsed, order[t])| == |Bucket(data, order[t])|
  {
    ParsedOfKind(data, limit, t);
    ParsedOfKind(data, limit, u);
    Balanced(Sizes(Columns(data)), limit, t, u);
  }

  lemma SubMultiset(a: seq<Question>, b: seq<Question>)
    requires forall t :: Bucket(a, t) <= Bucket(b, t)
    ensures multiset(a) <= multiset(b)
  {
    forall q ensures multiset(a)[q] <= multiset(b)[q] {
      BucketCount(a, q);
      BucketCount(b, q);
      PrefixCount(Bucket(a, TypeOf(q)), Bucket(b, TypeOf(q)), q);
    }
  }

  lemma PrefixCount(a: seq<Question>, b: seq<Question>, q: Question)
    requires a <= b
    ensures multiset(a)[q] <= multiset(b)[q]
  {
    assert b == a + b[|a|..];
  }

  lemma {:induction false} BucketCount(data: seq<Question>, q: Question)
    ensures multiset(Bucket(data, TypeOf(q)))[q] == multiset(data)[q]
  {
    if data != [] {
      BucketCount(data[..|data| - 1], q);
      assert data == data[..|data| - 1] + [data[|data| - 1]];
    }
  }

  // The streamed sampler returns exactly the full sampler's list if and only if the questions it
  // may hold reach the limit or the whole data.
  lemma StreamedAgrees(data: seq<Question>, limit: int)
    ensures Streamed(data, limit) == Parsed(data, limit)
            <==> SumMin(Sizes(Columns(data)), Cap(limit)) >= Min(limit, |data|)
  {
    var columns := Columns(data);
    var sizes, cap := Sizes(columns), Cap(limit);
    var cut := Cut(columns, cap);
    SizesCover(data);
    CutSizes(columns, cap);
    StreamedPicks(sizes, cap, limit);
    PicksInRange(sizes, limit);
    PicksInRange(Sizes(cut), limit);
    if Picks(Sizes(cut), limit) == Picks(sizes, limit) {
      CutChosen(columns, cap, Picks(sizes, limit));
    } else {
      StreamedIsShorter(sizes, cap, limit);
    }
  }

  // Four types with a quarter of the limit each are enough for the streamed form.
  lemma FourTypesSuffice(data: seq<Question>, limit: int, ts: seq<string>)
    requires |ts| == 4 && Distinct(ts)
    requires forall i | 0 <= i < 4 :: 4 * |Bucket(data, ts[i])| >= limit
    ensures Streamed(data, limit) == Parsed(data, limit)
  {
    StreamedAgrees(data, limit);
    if limit > 0 {
      TypesListed(data, ts);
      SumMinPart(data, Order(data), ts, Cap(limit));
      assert Sizes(Columns(data)) == BucketSizes(data, Order(data));
      QuartersReach(BucketSizes(data, ts), limit);
    }
  }

  lemma TypesListed(data: seq<Question>, ts: seq<string>)
    requires forall i | 0 <= i < |ts| :: Bucket(data, ts[i]) != []
    ensures Distinct(Order(data)) && forall i | 0 <= i < |ts| :: ts[i] in Order(data)
  {
    KindsCorrect(data);
    SortDistinct(Kinds(data));
    forall i | 0 <= i < |ts| ensures ts[i] in Order(data) {
      KindAt(data, ts[i]);
    }
  }

  lemma QuartersReach(part: seq<nat>, limit: int)
    requires |part| == 4 && limit > 0 && forall i | 0 <= i < 4 :: 4 * part[i] >= limit
    ensures SumMin(part, Cap(limit)) >= limit
  {
    SumMinOfFour(part, Cap(limit));
  }

  lemma SumMinOfFour(part: seq<nat>, n: nat)
    requires |part| == 4
    ensures SumMin(part, n) == Min(part[0], n) + Min(part[1], n) + Min(part[2], n) + Min(part[3], n)
  {
    var p1, p2, p3 := part[..1], part[..2], part[..3];
    assert p3[..2] == p2 && p2[..1] == p1 && p1[..0] == [];
    assert SumMin(p1, n) == Min(part[0], n);
    assert SumMin(p2, n) == SumMin(p1, n) + Min(part[1], n);
    assert SumMin(p3, n) == SumMin(p2, n) + Min(part[2], n);
  }

  // Some of the types hold no more than all of them.
  lemma {:induction false} SumMinPart(data: seq<Question>, order: seq<string>, ts: seq<string>, n: nat)
    requires Distinct(order) && Distinct(ts) && forall i | 0 <= i < |ts| :: ts[i] in order
    ensures SumMin(BucketSizes(data, order), n) >= SumMin(BucketSizes(data, ts), n)
    decreases |ts|
  {
    if ts != [] {
      var last := |ts| - 1;
      var j :| 0 <= j < |order| && order[j] == ts[last];
      var rest := order[..j] + order[j + 1..];
      forall i | 0 <= i < last ensures ts[..last][i] in rest {
        StillThere(order, j, ts[i]);
      }
      RestDistinct(order, j);
      SumMinPart(data, rest, ts[..last], n);
      SizesWithout(data, order, j);
      SumMinWithout(BucketSizes(data, order), n, j);
      assert BucketSizes(data, ts)[..last] == BucketSizes(data, ts[..last]);
    }
  }

  lemma StillThere(order: seq<string>, j: nat, t: string)
    requires j < |order| && t in order && t != order[j]
    ensures t in order[..j] + order[j + 1..]
  {
    var k :| 0 <= k < |order| && order[k] == t;
    assert (order[..j] + order[j + 1..])[if k < j then k else k - 1] == t;
  }

  lemma RestDistinct(order: seq<string>, j: nat)
    requires j < |order| && Distinct(order)
    ensures Distinct(order[..j] + order[j + 1..])
  {
  }

  lemma SizesWithout(data: seq<Question>, order: seq<string>, j: nat)
    requires j < |order|
    ensures var sizes := BucketSizes(data, order);
            BucketSizes(data, order[..j] + order[j + 1..]) == sizes[..j] + sizes[j + 1..]
  {
  }

  lemma {:induction false} SumMinWithout(sizes: seq<nat>, n: nat, j: nat)
    requires j < |sizes|
    ensures SumMin(sizes, n) == SumMin(sizes[..j] + sizes[j + 1..], n) + Min(sizes[j], n)
  {
    var last := |sizes| - 1;
    if j < last {
      SumMinWithout(sizes[..last], n, j);
      WithoutOneMore(sizes[..last], sizes[last], j);
      assert sizes == sizes[..last] + [sizes[last]];
      SumMinOneMore(sizes[..last][..j] + sizes[..last][j + 1..], sizes[last], n);
    } else {
      WithoutLast(sizes);
    }
  }

  lemma SumMinOneMore(sizes: seq<nat>, x: nat, n: nat)
    ensures SumMin(sizes + [x], n) == SumMin(sizes, n) + Min(x, n)
  {
    assert (sizes + [x])[..|sizes|] == sizes;
  }

  lemma WithoutOneMore(sizes: seq<nat>, x: nat, j: nat)
    requires j < |sizes|
    ensures (sizes + [x])[..j] + (sizes + [x])[j + 1..] == (sizes[..j] + sizes[j + 1..]) + [x]
  {
  }

  lemma WithoutLast(sizes: seq<nat>)
    requires sizes != []
    ensures sizes[..|sizes| - 1] + sizes[|sizes|..] == sizes[..|sizes| - 1]
  {
  }

  // The streamed list is the beginning of the full one, as far as the held questions reach.
  lemma StreamedIsPrefix(data: seq<Question>, limit: int)
    ensures Streamed(data, limit) <= Parsed(data, limit)
    ensures |Streamed(data, limit)| == Min(Max(0, limit), SumMin(Sizes(Columns(data)), Cap(limit)))
  {
    var columns := Columns(data);
    var sizes, cap := Sizes(columns), Cap(limit);
    var cut := Cut(columns, cap);
    CutSizes(columns, cap);
    LongestCapped(sizes, cap);
    RoundsExtend(sizes, Min(Longest(sizes), cap), Longest(sizes));
    RoundsLength(sizes, Min(Longest(sizes), cap));
    CapBeyond(sizes, cap);
    TakePrefix(Rounds(sizes, Min(Longest(sizes), cap)), Rounds(sizes, Longest(sizes)), limit);
    PicksInRange(sizes, limit);
    PicksInRange(Sizes(cut), limit);
    CutChosen(columns, cap, Picks(Sizes(cut), limit));
    ChosenPrefix(columns, Picks(Sizes(cut), limit), Picks(sizes, limit));
  }

  lemma TakePrefix(a: seq<Pick>, b: seq<Pick>, limit: int)
    requires a <= b
    ensures Take(a, limit) <= Take(b, limit) && |Take(a, limit)| == Min(Max(0, limit), |a|)
  {
  }

  lemma ChosenPrefix(columns: seq<seq<Question>>, a: seq<Pick>, b: seq<Pick>)
    requires a <= b && InRange(Sizes(columns), a) && InRange(Sizes(columns), b)
    ensures Chosen(columns, a) <= Chosen(columns, b)
  {
  }

  lemma CutSizes(columns: seq<seq<Question>>, cap: nat)
    ensures Sizes(Cut(columns, cap)) == Capped(Sizes(columns), cap)
  {
  }

  // Picks that the cut columns can serve are served alike.
  lemma CutChosen(columns: seq<seq<Question>>, cap: nat, picks: seq<Pick>)
    requires InRange(Sizes(columns), picks) && InRange(Sizes(Cut(columns, cap)), picks)
    ensures Chosen(Cut(columns, cap), picks) == Chosen(columns, picks)
  {
    forall i | 0 <= i < |picks| ensures Chosen(Cut(columns, cap), picks)[i] == Chosen(columns, picks)[i] {
      assert picks[i] in picks;
    }
  }

  lemma StreamedIsShorter(sizes: seq<nat>, cap: nat, limit: int)
    requires SumMin(sizes, cap) < Min(limit, Sum(sizes))
    ensures |Picks(Capped(sizes, cap), limit)| < |Picks(sizes, limit)|
  {
    LongestCapped(sizes, cap);
    CapBeyond(sizes, cap);
    RoundsLength(sizes, Min(Longest(sizes), cap));
    RoundsLength(sizes, Longest(sizes));
    LongestBounds(sizes);
    SumMinAll(sizes, Longest(sizes));
  }

  // ---- What is kept, and in which order it is dealt ----

  // The places of the kept questions: all of them that the filter admits, in their order.
  ghost predicate KeptAt(items: seq<Question>, keep: Question -> bool, kept: seq<Question>, places: seq<nat>) {
    && |places| == |kept| && (forall i, j | 0 <= i < j < |places| :: places[i] < places[j])
    && (forall i | 0 <= i < |places| :: places[i] < |items| && kept[i] == items[places[i]] && keep(kept[i]))
    && forall j | 0 <= j < |items| && keep(items[j]) :: j in places
  }

  lemma {:induction false} KeptPlaces(items: seq<Question>, keep: Question -> bool) returns (places: seq<nat>)
    ensures KeptAt(items, keep, Kept(items, keep), places)
  {
    places := [];
    if items != [] {
      var last := |items| - 1;
      places := KeptPlaces(items[..last], keep);
      assert items == items[..last] + [items[last]];
      if keep(items[last]) {
        PlacesGrow(items[..last], items[last], keep, Kept(items[..last], keep), places);
        places := places + [last];
      } else {
        PlacesStay(items[..last], items[last], keep, Kept(items[..last], keep), places);
      }
    }
  }

  lemma PlacesStay(items: seq<Question>, q: Question, keep: Question -> bool, kept: seq<Question>, places: seq<nat>)
    requires KeptAt(items, keep, kept, places) && !keep(q)
    ensures KeptAt(items + [q], keep, kept, places)
  {
  }

  lemma PlacesGrow(items: seq<Question>, q: Question, keep: Question -> bool, kept: seq<Question>, places: seq<nat>)
    requires KeptAt(items, keep, kept, places) && keep(q)
    ensures KeptAt(items + [q], keep, kept + [q], places + [|items|])
  {
    forall j | 0 <= j < |items + [q]| && keep((items + [q])[j]) ensures j in places + [|items|] {
      assert j < |items| ==> (items + [q])[j] == items[j];
    }
  }

  // A bucket holds the questions of its type in their order; those without a type are "other".
  lemma {:induction false} BucketByKind(data: seq<Question>, t: string)
    ensures Bucket(data, t) == Kept(data, (q: Question) => q.kind == Some(t) || (q.kind == None && t == "other"))
  {
    if data != [] { BucketByKind(data[..|data| - 1], t); }
  }

  // Every returned question is one of the items, and one that the filter admits.
  lemma StreamKeeps(items: seq<Question>, limit: int, keep: Question -> bool, q: Question)
    requires q in Streamed(Kept(items, keep), limit)
    ensures keep(q) && q in items
  {
    var data := Kept(items, keep);
    StreamedIsPrefix(data, limit);
    ParsedIsStratified(data, limit);
    assert q in multiset(Parsed(data, limit)) && q in data;
    var i :| 0 <= i < |data| && data[i] == q;
    var places := KeptPlaces(items, keep);
    assert q == items[places[i]];
  }

  // How many questions of its type come before a question of a list.
  function Turn(list: seq<Question>, i: nat): nat
    requires i < |list|
  {
    |Bucket(list[..i], TypeOf(list[i]))|
  }

  // The list is dealt in rounds: whoever comes earlier has the earlier turn, or the same turn and the
  // smaller type.
  lemma DealtInRounds(data: seq<Question>, limit: int, i: nat, j: nat)
    requires i < j < |Parsed(data, limit)|
    ensures var list := Parsed(data, limit);
            || Turn(list, i) < Turn(list, j)
            || (Turn(list, i) == Turn(list, j) && Less(TypeOf(list[i]), TypeOf(list[j])))
  {
    var sizes := Sizes(Columns(data));
    var x := DealtAt(data, limit, i);
    var y := DealtAt(data, limit, j);
    RoundsAscending(sizes, Longest(sizes));
    KindsCorrect(data);
    SortDistinct(Kinds(data));
    SortCorrect(Kinds(data));
  }

  // The pick behind a place of the list: its turn, and its type.
  lemma DealtAt(data: seq<Question>, limit: int, i: nat) returns (x: Pick)
    requires i < |Parsed(data, limit)|
    ensures var sizes := Sizes(Columns(data));
            && i < |Rounds(sizes, Longest(sizes))| && x == Rounds(sizes, Longest(sizes))[i]
            && x.t < |Order(data)| && Turn(Parsed(data, limit), i) == x.idx
            && TypeOf(Parsed(data, limit)[i]) == Order(data)[x.t]
  {
    var columns := Columns(data);
    var sizes := Sizes(columns);
    PicksInRange(sizes, limit);
    x := Picks(sizes, limit)[i];
    assert x in Picks(sizes, limit);
    BucketType(data, Order(data)[x.t]);
    NextOfType(sizes, Longest(sizes), i + 1);
    FirstOfBucket(data, Longest(sizes), i, x.t);
    PicksSoFar(data, limit, i);
  }

  lemma PicksSoFar(data: seq<Question>, limit: int, i: nat)
    requires i <= |Picks(Sizes(Columns(data)), limit)|
    ensures var sizes := Sizes(Columns(data));
            var all := Rounds(sizes, Longest(sizes));
            && i <= |all| && all[..i] == Picks(sizes, limit)[..i] && InRange(sizes, all[..i])
            && InRange(sizes, Picks(sizes, limit))
            && Chosen(Columns(data), all[..i]) == Chosen(Columns(data), Picks(sizes, limit))[..i]
  {
    PicksInRange(Sizes(Columns(data)), limit);
    var picks := Picks(Sizes(Columns(data)), limit);
    assert forall p | p in picks[..i] :: p in picks;
  }

  // ---- The two samplers ----

  lemma ChosenOneMore(columns: seq<seq<Question>>, picks: seq<Pick>, p: Pick)
    requires InRange(Sizes(columns), picks) && p.t < |columns| && p.idx < |columns[p.t]|
    ensures InRange(Sizes(columns), picks + [p])
    ensures Chosen(columns, picks + [p]) == Chosen(columns, picks) + [columns[p.t][p.idx]]
  {
    forall x | x in picks + [p] ensures x.t < |columns| && x.idx < |columns[x.t]| {
      assert x in picks || x == p;
    }
  }

  // The state of the round-robin loop before round idx.
  ghost predicate Progress(columns: seq<seq<Question>>, limit: int, idx: nat, picked: seq<Question>, picks: seq<Pick>) {
    && |picks| <= Max(0, limit)
    && InRange(Sizes(columns), picks) && picked == Chosen(columns, picks)
    && picks <= Rounds(Sizes(columns), idx)
    && (|picks| == |Rounds(Sizes(columns), idx)| || |picks| == limit)
  }

  lemma RoundNext(taken: seq<Pick>, sizes: seq<nat>, idx: nat, t: nat)
    requires t < |sizes|
    ensures taken + Round(sizes, idx, t + 1)
            == taken + Round(sizes, idx, t) + if idx < sizes[t] then [Pick(t, idx)] else []
  {
  }

  // One turn of the outer loop: one question of every type that has any left, up to the limit.
  method OneRound(columns: seq<seq<Question>>, limit: int, idx: nat, before: seq<Question>, ghost taken: seq<Pick>)
    returns (picked: seq<Question>, ghost picks: seq<Pick>)
    requires |before| < limit && Progress(columns, limit, idx, before, taken)
    ensures Progress(columns, limit, idx + 1, picked, picks)
  {
    ghost var sizes := Sizes(columns);
    picked, picks := before, taken;
    assert taken == Rounds(sizes, idx);
    var t := 0;
    while t < |columns|
      invariant 0 <= t <= |columns|
      invariant |picked| == |picks| < limit
      invariant InRange(sizes, picks) && picked == Chosen(columns, picks)
      invariant picks == taken + Round(sizes, idx, t)
    {
      RoundNext(taken, sizes, idx, t);
      t := t + 1;
      if idx < |columns[t - 1]| {
        ChosenOneMore(columns, picks, Pick(t - 1, idx));
        picked, picks := picked + [columns[t - 1][idx]], picks + [Pick(t - 1, idx)];
        if |picked| >= limit { break; }
      }
    }
    RoundStart(sizes, idx, t);
  }

  lemma AllTaken(columns: seq<seq<Question>>, idx: nat)
    requires forall t | 0 <= t < |columns| :: |columns[t]| <= idx
    ensures Longest(Sizes(columns)) <= idx
  {
    LongestBounds(Sizes(columns));
  }

  lemma SomeLeft(columns: seq<seq<Question>>, idx: nat)
    requires exists t | 0 <= t < |columns| :: idx < |columns[t]|
    ensures idx < Longest(Sizes(columns))
  {
    LongestBounds(Sizes(columns));
    var t :| 0 <= t < |columns| && idx < |columns[t]|;
    assert Sizes(columns)[t] <= Longest(Sizes(columns));
  }

  lemma Finished(columns: seq<seq<Question>>, limit: int, idx: nat, picked: seq<Question>, picks: seq<Pick>)
    requires Progress(columns, limit, idx, picked, picks) && idx <= Longest(Sizes(columns))
    requires |picked| >= limit || forall t | 0 <= t < |columns| :: |columns[t]| <= idx
    ensures picks == Picks(Sizes(columns), limit)
  {
    RoundsExtend(Sizes(columns), idx, Longest(Sizes(columns)));
    if |picked| < limit {
      AllTaken(columns, idx);
    }
  }

  // The round-robin loop that both share.
  method RoundRobin(columns: seq<seq<Question>>, limit: int) returns (picked: seq<Question>)
    ensures InRange(Sizes(columns), Picks(Sizes(columns), limit))
    ensures picked == Chosen(columns, Picks(Sizes(columns), limit))
  {
    ghost var picks: seq<Pick> := [];
    picked := [];
    var idx := 0;
    while |picked| < limit && exists t :: 0 <= t < |columns| && idx < |columns[t]|
      invariant 0 <= idx <= Longest(Sizes(columns))
      invariant Progress(columns, limit, idx, picked, picks)
      decreases Longest(Sizes(columns)) - idx
    {
      SomeLeft(columns, idx);
      picked, picks := OneRound(columns, limit, idx, picked, picks);
      idx := idx + 1;
    }
    Finished(columns, limit, idx, picked, picks);
  }

  lemma {:induction false} RoundStart(sizes: seq<nat>, idx: nat, k: nat)
    requires k <= |sizes|
    ensures Round(sizes, idx, k) <= Round(sizes, idx, |sizes|)
    ensures Rounds(sizes, idx) + Round(sizes, idx, k) <= Rounds(sizes, idx + 1)
    decreases |sizes| - k
  {
    if k < |sizes| {
      RoundStart(sizes, idx, k + 1);
    }
  }

  method GroupByType(data: seq<Question>) returns (byType: map<string, seq<Question>>, kinds: seq<string>)
    ensures kinds == Kinds(data)
    ensures forall t :: t in byType <==> t in kinds
    ensures forall t | t in byType :: byType[t] == Bucket(data, t)
  {
    byType, kinds := map[], [];
    for i := 0 to |data|
      invariant kinds == Kinds(data[..i])
      invariant forall t :: t in byType <==> t in kinds
      invariant forall t | t in byType :: byType[t] == Bucket(data[..i], t)
      invariant forall t | t !in kinds :: Bucket(data[..i], t) == []
    {
      var q := data[i];
      assert data[..i + 1][..i] == data[..i];
      if TypeOf(q) !in byType {
        kinds := kinds + [TypeOf(q)];
        byType := byType[TypeOf(q) := []];
      }
      byType := byType[TypeOf(q) := byType[TypeOf(q)] + [q]];
    }
    assert data[..|data|] == data;
  }

  method StratifiedSample(data: seq<Question>, limit: int) returns (picked: seq<Question>)
    ensures picked == Parsed(data, limit)
  {
    var byType, kinds := GroupByType(data);
    KindsCorrect(data);
    SortDistinct(kinds);
    var order := Sort(kinds);
    var columns := seq(|order|, i requires 0 <= i < |order| && order[i] in byType => byType[order[i]]);
    assert columns == Columns(data);
    picked := RoundRobin(columns, limit);
  }

  lemma TakeOneMore<T>(s: seq<T>, x: T, cap: nat)
    ensures Take(s + [x], cap) == Take(s, cap) + if |Take(s, cap)| < cap then [x] else []
  {
  }

  // Every type's bucket holds its first `cap` questions.
  ghost predicate Tracks(buckets: map<string, seq<Question>>, kinds: seq<string>, data: seq<Question>, cap: nat) {
    && kinds == Kinds(data)
    && (forall t :: t in buckets <==> t in kinds)
    && (forall t :: TracksType(buckets, data, cap, t))
  }

  ghost predicate TracksType(buckets: map<string, seq<Question>>, data: seq<Question>, cap: nat, t: string) {
    if t in buckets then buckets[t] == Take(Bucket(data, t), cap) else Bucket(data, t) == []
  }

  function Grown(bucket: seq<Question>, q: Question, cap: nat): seq<Question> {
    if |bucket| < cap then bucket + [q] else bucket
  }

  lemma OneMore(data: seq<Question>, q: Question, t: string)
    ensures Bucket(data + [q], t) == Bucket(data, t) + if TypeOf(q) == t then [q] else []
    ensures Kinds(data + [q]) == Kinds(data) + if TypeOf(q) in Kinds(data) then [] else [TypeOf(q)]
  {
    assert (data + [q])[..|data|] == data;
  }

  lemma TracksOneMore(buckets: map<string, seq<Question>>, kinds: seq<string>, data: seq<Question>, cap: nat,
                      q: Question)
    requires Tracks(buckets, kinds, data, cap)
    ensures var t := TypeOf(q);
            var bucket := if t in buckets then buckets[t] else [];
            Tracks(buckets[t := Grown(bucket, q, cap)], if t in kinds then kinds else kinds + [t], data + [q], cap)
  {
    var t := TypeOf(q);
    var bucket := if t in buckets then buckets[t] else [];
    OneMore(data, q, t);
    var grown, more := buckets[t := Grown(bucket, q, cap)], data + [q];
    forall u ensures TracksType(grown, more, cap, u) {
      assert TracksType(buckets, data, cap, u);
      OneMore(data, q, u);
      TakeOneMore(Bucket(data, u), q, cap);
    }
  }

  lemma TrackedColumns(buckets: map<string, seq<Question>>, kinds: seq<string>, data: seq<Question>, cap: nat)
    requires Tracks(buckets, kinds, data, cap)
    ensures forall t | t in Order(data) :: t in buckets && buckets[t] == Take(Bucket(data, t), cap)
  {
    KindsCorrect(data);
    SortDistinct(kinds);
    forall t | t in Order(data) ensures t in buckets && buckets[t] == Take(Bucket(data, t), cap) {
      assert TracksType(buckets, data, cap, t);
    }
  }

  // Buckets that stop growing at the cap.
  method CappedBuckets(items: seq<Question>, keep: Question -> bool, cap: nat)
    returns (buckets: map<string, seq<Question>>, kinds: seq<string>)
    ensures Tracks(buckets, kinds, Kept(items, keep), cap)
  {
    buckets, kinds := map[], [];
    for i := 0 to |items|
      invariant Tracks(buckets, kinds, Kept(items[..i], keep), cap)
    {
      var q := items[i];
      assert items[..i + 1][..i] == items[..i];
      assert Kept(items[..i + 1], keep) == if keep(q) then Kept(items[..i], keep) + [q] else Kept(items[..i], keep);
      if keep(q) {
        TracksOneMore(buckets, kinds, Kept(items[..i], keep), cap, q);
        var t := TypeOf(q);
        var bucket: seq<Question> := [];
        if t in buckets {
          bucket := buckets[t];
        } else {
          kinds := kinds + [t];
        }
        buckets := buckets[t := Grown(bucket, q, cap)];
      }
    }
    assert items[..|items|] == items;
  }

  method StreamStratified(items: seq<Question>, limit: int, keep: Question -> bool) returns (picked: seq<Question>)
    ensures picked == Streamed(Kept(items, keep), limit)
  {
    var cap := Cap(limit);
    var buckets, kinds := CappedBuckets(items, keep, cap);
    ghost var data := Kept(items, keep);
    TrackedColumns(buckets, kinds, data, cap);
    var order := Sort(kinds);
    var columns := seq(|order|, i requires 0 <= i < |order| && order[i] in buckets => buckets[order[i]]);
    assert columns == Cut(Columns(data), cap);
    picked := RoundRobin(columns, limit);
  }
}
