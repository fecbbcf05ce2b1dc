/** Fixed-window quota counters. */
module Quota {
  import opened Prelude
  import opened Tables
  import opened Text

  // int(time // max(1, window_seconds)); the divisor is positive, so this rounds down.
  function WindowOf(now: int, width: int): int {
    now / Max(1, width)
  }

  // How many of the calls fall into a window, and how many in an interval [from, to).
  function CallsIn(calls: seq<int>, width: int, window: int): nat {
    if calls == [] then 0
    else
      var last := |calls| - 1;
      CallsIn(calls[..last], width, window) + if WindowOf(calls[last], width) == window then 1 else 0
  }

  lemma OneMore(calls: seq<int>, now: int, width: int, window: int)
    ensures CallsIn(calls + [now], width, window)
            == CallsIn(calls, width, window) + if WindowOf(now, width) == window then 1 else 0
  {
    assert (calls + [now])[..|calls|] == calls;
  }

  // The decision on the last of the calls.
  predicate Admits(calls: seq<int>, limit: int, width: int)
    requires calls != []
  {
    CallsIn(calls, width, WindowOf(calls[|calls| - 1], width)) <= limit
  }

  function AdmittedIn(calls: seq<int>, limit: int, width: int, window: int): nat {
    if calls == [] then 0
    else
      var last := |calls| - 1;
      AdmittedIn(calls[..last], limit, width, window)
      + if WindowOf(calls[last], width) == window && Admits(calls, limit, width) then 1 else 0
  }

  function AdmittedBetween(calls: seq<int>, limit: int, width: int, from: int, to: int): nat {
    if calls == [] then 0
    else
      var last := |calls| - 1;
      AdmittedBetween(calls[..last], limit, width, from, to)
      + if from <= calls[last] < to && Admits(calls, limit, width) then 1 else 0
  }

  // A counter per printed key and window; ghost `calls` remembers when each key was checked.
  class QuotaService {
    const limit: int
    const width: int
    var values: map<(string, int), int>
    ghost var calls: map<string, seq<int>>

    ghost predicate Valid()
      reads this
    {
      forall subject, window :: Counts(values, calls, width, subject, window)
    }

    constructor (limit: int, width: int)
      ensures Valid() && calls == map[] && this.limit == limit && this.width == width
    {
      this.limit, this.width, values, calls := limit, width, map[], map[];
    }

    // True when the call is let through, false for "quota exceeded".
    method Check(subject: string, now: int) returns (ok: bool)
      requires Valid()
      modifies this
      ensures Valid()
      ensures calls == old(calls)[subject := At(old(calls), subject) + [now]]
      ensures ok == Admits(At(calls, subject), limit, width)
    {
      ghost var before := At(calls, subject);
      var window := WindowOf(now, width);
      var count := ValueOf(values, subject, window) + 1;
      assert Counts(values, calls, width, subject, window);
      values := values[(subject, window) := count];
      calls := calls[subject := before + [now]];
      forall other, w ensures Counts(values, calls, width, other, w) {
        assert Counts(old(values), old(calls), width, other, w);
        OneMore(before, now, width, w);
      }
      ok := count <= limit;
    }
  }

  function ValueOf(values: map<(string, int), int>, subject: string, window: int): int {
    if (subject, window) in values then values[(subject, window)] else 0
  }

  // The counter of a subject and window counts the subject's calls in that window.
  ghost predicate Counts(values: map<(string, int), int>, calls: map<string, seq<int>>,
                         width: int, subject: string, window: int) {
    ValueOf(values, subject, window) == CallsIn(At(calls, subject), width, window)
  }

  // ---- What a sequence of checks lets through ----

  // Each window admits exactly the first `limit` calls that fall into it.
  lemma {:induction false} WindowAdmits(calls: seq<int>, limit: int, width: int, window: int)
    ensures AdmittedIn(calls, limit, width, window) == Min(CallsIn(calls, width, window), Max(0, limit))
  {
    if calls != [] {
      WindowAdmits(calls[..|calls| - 1], limit, width, window);
    }
  }

  lemma Scaled(w: int, x: int, y: int)
    requires w > 0 && x <= y
    ensures w * x <= w * y
  {
  }

  // An interval no longer than a window meets at most two windows.
  lemma TwoWindows(now: int, width: int, from: int)
    requires from <= now < from + Max(1, width)
    ensures WindowOf(now, width) == WindowOf(from, width) || WindowOf(now, width) == WindowOf(from, width) + 1
  {
    var w := Max(1, width);
    var p, q := now / w, from / w;
    assert now == w * p + now % w && from == w * q + from % w;
    assert w * (q - 1) == w * q - w && w * (q + 2) == w * q + 2 * w;
    if p < q {
      Scaled(w, p, q - 1);
    } else if p > q + 1 {
      Scaled(w, q + 2, p);
    }
  }

  lemma {:induction false} BetweenTwo(calls: seq<int>, limit: int, width: int, from: int)
    ensures var w := WindowOf(from, width);
            AdmittedBetween(calls, limit, width, from, from + Max(1, width))
            <= AdmittedIn(calls, limit, width, w) + AdmittedIn(calls, limit, width, w + 1)
  {
    if calls != [] {
      var last := |calls| - 1;
      BetweenTwo(calls[..last], limit, width, from);
      if from <= calls[last] < from + Max(1, width) {
        TwoWindows(calls[last], width, from);
      }
    }
  }

  // Any half-open interval as long as a window admits at most twice the limit.
  lemma IntervalAdmits(calls: seq<int>, limit: int, width: int, from: int)
    ensures AdmittedBetween(calls, limit, width, from, from + Max(1, width)) <= 2 * Max(0, limit)
  {
    var w := WindowOf(from, width);
    BetweenTwo(calls, limit, width, from);
    WindowAdmits(calls, limit, width, w);
    WindowAdmits(calls, limit, width, w + 1);
  }

  // And that bound is met for every non-negative limit and every width above one: `limit` calls in the
  // last instant of a window, and as many in the first instant of the next.
  lemma BoundIsMet(limit: nat, width: nat)
    requires width >= 2
    ensures AdmittedBetween(seq(limit, _ => width - 1) + seq(limit, _ => width), limit, width,
                            width - 1, (width - 1) + width) == 2 * limit
  {
    var first, second := seq(limit, _ => width - 1), seq(limit, _ => width);
    Boundary(width);
    Burst([], limit, limit, width, width - 1, 0, 1);
    assert [] + first == first;
    Burst(first, limit, limit, width, width, 1, 0);
  }

  lemma Boundary(width: nat)
    requires width >= 2
    ensures WindowOf(width - 1, width) == 0 && WindowOf(width, width) == 1
  {
  }

  lemma {:induction false} Burst(calls: seq<int>, n: nat, limit: nat, width: nat, now: int, window: int, other: int)
    requires n <= limit && width - 1 <= now < 2 * width - 1
    requires WindowOf(now, width) == window != other && CallsIn(calls, width, window) == 0
    ensures var all := calls + seq(n, _ => now);
            && CallsIn(all, width, window) == n && CallsIn(all, width, other) == CallsIn(calls, width, other)
            && AdmittedBetween(all, limit, width, width - 1, (width - 1) + width)
               == AdmittedBetween(calls, limit, width, width - 1, (width - 1) + width) + n
  {
    var all := calls + seq(n, _ => now);
    if n == 0 {
      assert all == calls;
    } else {
      Burst(calls, n - 1, limit, width, now, window, other);
      assert all[..|all| - 1] == calls + seq(n - 1, _ => now);
    }
  }

  // A window of one second is an interval of its own, and admits at most the limit.
  lemma NarrowAdmits(calls: seq<int>, limit: int, width: int, from: int)
    requires width <= 1
    ensures AdmittedBetween(calls, limit, width, from, from + Max(1, width)) <= Max(0, limit)
  {
    BetweenOne(calls, limit, width, from);
    WindowAdmits(calls, limit, width, from);
  }

  lemma {:induction false} BetweenOne(calls: seq<int>, limit: int, width: int, from: int)
    requires width <= 1
    ensures AdmittedBetween(calls, limit, width, from, from + Max(1, width)) == AdmittedIn(calls, limit, width, from)
  {
    if calls != [] {
      BetweenOne(calls[..|calls| - 1], limit, width, from);
    }
  }

  // ---- Counter keys ----

  // The printed key without its constant prefix: workspace, principal, unit and window number.
  function CounterKey(workspace: string, principal: string, unit: string, window: string): string {
    Fields([workspace, principal, unit, window], ':')
  }

  // Ids without colons have counters of their own.
  lemma CounterKeysDiffer(a: seq<string>, b: seq<string>)
    requires |a| == 4 && |b| == 4
    requires (forall f | f in a :: ':' !in f) && (forall f | f in b :: ':' !in f)
    ensures CounterKey(a[0], a[1], a[2], a[3]) == CounterKey(b[0], b[1], b[2], b[3]) <==> a == b
  {
    assert a == [a[0], a[1], a[2], a[3]] && b == [b[0], b[1], b[2], b[3]];
    if CounterKey(a[0], a[1], a[2], a[3]) == CounterKey(b[0], b[1], b[2], b[3]) {
      FieldsInjective(a, b, ':');
    }
  }
}
