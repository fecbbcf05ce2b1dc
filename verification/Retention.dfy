/** Retention scores, over reals and integer seconds; the six-digit rounding is left out. */
module Retention {
  import opened Prelude
  import opened Memory

  const ACCESS_CAP := 10.0
  const HALF_LIFE_DAYS := 30.0
  const HIGH_RISK_THRESHOLD := 0.8
  const EXPIRED_MULTIPLIER := 0.1
  const HIGH_RISK_MULTIPLIER := 0.25
  const KEEP_THRESHOLD := 0.25

  datatype RetentionSignal = RetentionSignal(retention: real, reflection: real, expired: bool, highRisk: bool)

  function Clamp01(v: real): (r: real)
    ensures 0.0 <= r <= 1.0 && (0.0 <= v <= 1.0 ==> r == v)
  {
    if v < 0.0 then 0.0 else if v > 1.0 then 1.0 else v
  }

  function Recency(m: Memory, now: int): real {
    if m.lastAccessed.None? then 0.0
    else
      var age := (now - m.lastAccessed.value) as real / 86400.0;
      Clamp01(1.0 - (if age < 0.0 then 0.0 else age) / HALF_LIFE_DAYS)
  }

  predicate Expired(m: Memory, now: int) {
    m.expiresAt.Some? && m.expiresAt.value <= now
  }

  predicate HighRisk(m: Memory) {
    || Clamp01(m.risk) >= HIGH_RISK_THRESHOLD
    || m.flags.containsSecret || m.flags.destructive || m.flags.toolSensitive || m.flags.production
  }

  function Discounted(score: real, expired: bool, highRisk: bool): real {
    var s := if expired then score * EXPIRED_MULTIPLIER else score;
    if highRisk then s * HIGH_RISK_MULTIPLIER else s
  }

  function RetentionBase(value: real, freshness: real, trust: real, usage: real, recency: real): real {
    0.30 * value + 0.20 * freshness + 0.25 * trust + 0.15 * usage + 0.10 * recency
  }

  function ReflectionBase(value: real, freshness: real, trust: real, usage: real): real {
    0.35 * trust + 0.25 * freshness + 0.25 * usage + 0.15 * value
  }

  function Signals(m: Memory, now: int): RetentionSignal {
    var value, freshness, trust := Clamp01(m.valueScore), Clamp01(m.freshness), Clamp01(m.trust);
    var usage, recency := Clamp01(m.accessCount as real / ACCESS_CAP), Recency(m, now);
    var expired, highRisk := Expired(m, now), HighRisk(m);
    RetentionSignal(
      Clamp01(Discounted(RetentionBase(value, freshness, trust, usage, recency), expired, highRisk)),
      Clamp01(Discounted(ReflectionBase(value, freshness, trust, usage), expired, highRisk)),
      expired, highRisk)
  }

  // Below the threshold: due for decay and archiving.
  predicate Low(m: Memory, now: int) {
    Signals(m, now).retention < KEEP_THRESHOLD
  }

  // The weights sum to one, so the base scores stay within the unit interval.
  lemma BaseBounds(value: real, freshness: real, trust: real, usage: real, recency: real)
    requires 0.0 <= value <= 1.0 && 0.0 <= freshness <= 1.0 && 0.0 <= trust <= 1.0
    requires 0.0 <= usage <= 1.0 && 0.0 <= recency <= 1.0
    ensures 0.0 <= RetentionBase(value, freshness, trust, usage, recency) <= 1.0
    ensures 0.0 <= ReflectionBase(value, freshness, trust, usage) <= 1.0
  {
  }

  // Value weighs most, then trust, freshness, usage and recency: the same gain in a heavier
  // component raises the score more, and in any component it raises it.
  lemma WeightOrder(v: real, f: real, t: real, u: real, r: real, d: real)
    requires d > 0.0
    ensures RetentionBase(v + d, f, t, u, r) > RetentionBase(v, f, t + d, u, r) > RetentionBase(v, f + d, t, u, r)
    ensures RetentionBase(v, f + d, t, u, r) > RetentionBase(v, f, t, u + d, r) > RetentionBase(v, f, t, u, r + d)
    ensures RetentionBase(v, f, t, u, r + d) > RetentionBase(v, f, t, u, r)
  {
  }

  lemma RecencyBounds(m: Memory, now: int)
    ensures 0.0 <= Recency(m, now) <= 1.0
  {
  }

  // The final clamp never acts, and the two multipliers bound what an expired or a high-risk memory
  // can reach: an expired one is always below the threshold, a high-risk one at most on it.
  lemma ScoreBounds(m: Memory, now: int)
    ensures var s := Signals(m, now);
            && 0.0 <= s.retention <= 1.0 && 0.0 <= s.reflection <= 1.0
            && (s.expired ==> s.retention <= 0.1 && s.reflection <= 0.1 && Low(m, now))
            && (s.highRisk ==> s.retention <= KEEP_THRESHOLD)
            && (s.expired && s.highRisk ==> s.retention <= 0.025)
  {
    RecencyBounds(m, now);
    var value, freshness, trust := Clamp01(m.valueScore), Clamp01(m.freshness), Clamp01(m.trust);
    var usage := Clamp01(m.accessCount as real / ACCESS_CAP);
    BaseBounds(value, freshness, trust, usage, Recency(m, now));
    DiscountBounds(RetentionBase(value, freshness, trust, usage, Recency(m, now)), Expired(m, now), HighRisk(m));
    DiscountBounds(ReflectionBase(value, freshness, trust, usage), Expired(m, now), HighRisk(m));
  }

  lemma DiscountBounds(score: real, expired: bool, highRisk: bool)
    requires 0.0 <= score <= 1.0
    ensures var d := Discounted(score, expired, highRisk);
            && 0.0 <= d <= 1.0
            && (expired ==> d <= 0.1) && (highRisk ==> d <= 0.25) && (expired && highRisk ==> d <= 0.025)
  {
  }

  // Recency is full exactly when the memory was last accessed now, or is said to be later.
  lemma FullRecency(m: Memory, now: int)
    ensures Recency(m, now) == 1.0 <==> m.lastAccessed.Some? && m.lastAccessed.value >= now
  {
    if m.lastAccessed.Some? && m.lastAccessed.value < now {
      assert (now - m.lastAccessed.value) as real > 0.0;
    }
  }

  // The components add up to a full score only when every one of them is full.
  lemma FullBase(value: real, freshness: real, trust: real, usage: real, recency: real)
    requires 0.0 <= value <= 1.0 && 0.0 <= freshness <= 1.0 && 0.0 <= trust <= 1.0
    requires 0.0 <= usage <= 1.0 && 0.0 <= recency <= 1.0
    ensures RetentionBase(value, freshness, trust, usage, recency) == 1.0
            <==> value == freshness == trust == usage == recency == 1.0
  {
  }

  // Nothing in the scores of the memory is missing.
  predicate Perfect(m: Memory, now: int) {
    && m.valueScore >= 1.0 && m.freshness >= 1.0 && m.trust >= 1.0 && m.accessCount >= 10
    && m.lastAccessed.Some? && m.lastAccessed.value >= now
  }

  // A high-risk memory escapes decay if and only if it has not expired and its scores are perfect; then
  // it sits exactly on the threshold.
  lemma PerfectHighRisk(m: Memory, now: int)
    requires HighRisk(m)
    ensures !Low(m, now) <==> !Expired(m, now) && Perfect(m, now)
    ensures !Low(m, now) ==> Signals(m, now).retention == KEEP_THRESHOLD
  {
    RecencyBounds(m, now);
    FullRecency(m, now);
    var value, freshness, trust := Clamp01(m.valueScore), Clamp01(m.freshness), Clamp01(m.trust);
    var usage := Clamp01(m.accessCount as real / ACCESS_CAP);
    FullUsage(m.accessCount);
    BaseBounds(value, freshness, trust, usage, Recency(m, now));
    FullBase(value, freshness, trust, usage, Recency(m, now));
  }

  lemma FullUsage(count: int)
    ensures Clamp01(count as real / ACCESS_CAP) == 1.0 <==> count >= 10
  {
    assert count as real / ACCESS_CAP >= 1.0 <==> count as real >= 10.0;
  }

  // ---- The scores in the fields of the memory ----

  function Unit(x: real): real {
    if x <= 0.0 then 0.0 else if x >= 1.0 then 1.0 else x
  }

  // Accesses out of ten, and days out of thirty that are left since the last one.
  function Uses(m: Memory): real {
    if m.accessCount >= 10 then 1.0 else if m.accessCount <= 0 then 0.0 else m.accessCount as real / 10.0
  }

  function Freshly(m: Memory, now: int): real {
    if m.lastAccessed == None then 0.0
    else if m.lastAccessed.value >= now then 1.0
    else if now - m.lastAccessed.value >= 30 * 86400 then 0.0
    else 1.0 - (now - m.lastAccessed.value) as real / 2592000.0
  }

  predicate Lapsed(m: Memory, now: int) {
    m.expiresAt.Some? && m.expiresAt.value <= now
  }

  predicate Risky(m: Memory) {
    m.risk >= 0.8 || m.flags.containsSecret || m.flags.destructive || m.flags.toolSensitive || m.flags.production
  }

  lemma RecencyMeaning(m: Memory, now: int)
    ensures Recency(m, now) == Freshly(m, now)
  {
    if m.lastAccessed.Some? && m.lastAccessed.value < now {
      var seconds := now - m.lastAccessed.value;
      assert (seconds as real / 86400.0) / 30.0 == seconds as real / 2592000.0;
    }
  }

  // What is left of a score: a tenth for an expired memory, a quarter for a risky one.
  function Share(m: Memory, now: int): real {
    if Lapsed(m, now) && Risky(m) then 0.025 else if Lapsed(m, now) then 0.1 else if Risky(m) then 0.25 else 1.0
  }

  // Twenty times each score: what is left of the weighted sum of the components.
  lemma ScoresByFields(m: Memory, now: int)
    ensures var s := Signals(m, now);
            && 20.0 * s.retention
               == Share(m, now) * (6.0 * Unit(m.valueScore) + 4.0 * Unit(m.freshness) + 5.0 * Unit(m.trust)
                                   + 3.0 * Uses(m) + 2.0 * Freshly(m, now))
            && 20.0 * s.reflection
               == Share(m, now) * (7.0 * Unit(m.trust) + 5.0 * Unit(m.freshness) + 5.0 * Uses(m)
                                   + 3.0 * Unit(m.valueScore))
            && (s.expired <==> Lapsed(m, now)) && (s.highRisk <==> Risky(m))
  {
    RecencyMeaning(m, now);
    RecencyBounds(m, now);
    UsesMeaning(m);
    var value, freshness, trust := Unit(m.valueScore), Unit(m.freshness), Unit(m.trust);
    BaseBounds(value, freshness, trust, Uses(m), Freshly(m, now));
    ShareTaken(RetentionBase(value, freshness, trust, Uses(m), Freshly(m, now)), m, now);
    ShareTaken(ReflectionBase(value, freshness, trust, Uses(m)), m, now);
  }

  lemma ShareTaken(score: real, m: Memory, now: int)
    requires 0.0 <= score <= 1.0
    ensures Clamp01(Discounted(score, Expired(m, now), HighRisk(m))) == Share(m, now) * score
  {
    DiscountBounds(score, Expired(m, now), HighRisk(m));
  }

  lemma UsesMeaning(m: Memory)
    ensures Clamp01(m.accessCount as real / ACCESS_CAP) == Uses(m)
  {
    assert m.accessCount as real / ACCESS_CAP >= 1.0 <==> m.accessCount as real >= 10.0;
  }

  // Due for decay and archiving: every expired memory; a risky one unless its scores are perfect; any
  // other one whose weighted components add up to less than five twentieths.
  predicate Due(m: Memory, now: int) {
    if Lapsed(m, now) then true
    else if Risky(m) then
      m.valueScore < 1.0 || m.freshness < 1.0 || m.trust < 1.0 || m.accessCount < 10
      || m.lastAccessed == None || m.lastAccessed.value < now
    else
      6.0 * Unit(m.valueScore) + 4.0 * Unit(m.freshness) + 5.0 * Unit(m.trust) + 3.0 * Uses(m)
      + 2.0 * Freshly(m, now) < 5.0
  }

  lemma LowByFields(m: Memory, now: int)
    ensures Low(m, now) <==> Due(m, now)
  {
    ScoresByFields(m, now);
    ScoreBounds(m, now);
    if Risky(m) { PerfectHighRisk(m, now); }
  }

  // So full value alone keeps an ordinary memory, and full freshness alone does not.
  lemma ValueAloneKeeps(m: Memory, now: int)
    requires !Lapsed(m, now) && !Risky(m) && m.valueScore >= 1.0
    ensures !Due(m, now)
  {
    RecencyMeaning(m, now);
    RecencyBounds(m, now);
  }

  lemma FreshnessAloneFades(m: Memory, now: int)
    requires m.valueScore <= 0.0 && m.trust <= 0.0 && m.accessCount <= 0 && m.lastAccessed == None
    ensures Due(m, now)
  {
  }
}
