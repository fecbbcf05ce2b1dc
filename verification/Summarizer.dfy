/** The rule summarizer and the validator every summary has to pass. */
module Summarizer {
  import opened Prelude
  import opened Ordering
  import opened Text
  import opened AssertionScan
  import opened SummaryText

  datatype Provenance = Provenance(run: Option<string>, step: Option<string>, event: Option<string>,
                                   node: Option<string>)

  datatype Fact = Fact(key: string, value: string, memory: Option<string>, provenance: Option<Provenance>)

  datatype Block = Block(provenance: Option<Provenance>)

  datatype Request = Request(
    blocks: seq<Block>,
    facts: seq<Fact>,            // must_retain_facts
    memoryIds: seq<string>,
    eventIds: seq<string>,
    nodeIds: seq<string>,
    budget: int,
    runId: Option<string>)

  datatype Summary = Summary(
    text: string,
    facts: seq<Fact>,            // retained_facts
    memoryIds: seq<string>,
    eventIds: seq<string>,
    nodeIds: seq<string>,
    postTokens: nat,
    warnings: seq<Warning>)

  datatype Warning = CutToBudget | OtherWarning(text: string)

  datatype Error =
    | InventedFacts | DroppedFacts | DroppedProvenance | ChangedProvenance | InventedProse
    | RequestSource | ChangedMemoryIds | ChangedEventIds | ChangedNodeIds
    | InventedMemory | InventedRun | InventedStep | InventedEvent | InventedNode

  // ---- Facts ----

  function Origin(p: Option<Provenance>): Provenance {
    if p.Some? then p.value else Provenance(None, None, None, None)
  }

  datatype Identity = Identity(pair: Pair, memory: Option<string>, origin: Provenance)

  function FactPair(f: Fact): Pair {
    (f.key, f.value)
  }

  function FactIdentity(f: Fact): Identity {
    Identity(FactPair(f), f.memory, Origin(f.provenance))
  }

  function OrEmpty(s: Option<string>): string {
    if s.Some? then s.value else ""
  }

  function SortKey(f: Fact): seq<string> {
    var o := Origin(f.provenance);
    [f.key, f.value, OrEmpty(f.memory), OrEmpty(o.run), OrEmpty(o.step), OrEmpty(o.event), OrEmpty(o.node)]
  }

  // Tuple comparison of sort keys.
  predicate KeyLeq(a: seq<string>, b: seq<string>) {
    a == [] || (b != [] && (Less(a[0], b[0]) || (a[0] == b[0] && KeyLeq(a[1..], b[1..]))))
  }

  lemma {:induction false} KeyLeqTotal(a: seq<string>, b: seq<string>)
    ensures KeyLeq(a, b) || KeyLeq(b, a)
  {
    if a != [] && b != [] {
      LeqTotal(a[0], b[0]);
      KeyLeqTotal(a[1..], b[1..]);
    }
  }

  lemma {:induction false} KeyLeqTransitive(a: seq<string>, b: seq<string>, c: seq<string>)
    requires KeyLeq(a, b) && KeyLeq(b, c)
    ensures KeyLeq(a, c)
  {
    if a != [] && a[0] == b[0] && b[0] == c[0] {
      KeyLeqTransitive(a[1..], b[1..], c[1..]);
    } else if a != [] {
      LeqReflexive(b[0]);
      LeqTransitive(a[0], b[0], c[0]);
      if a[0] == c[0] { LeqAntisymmetric(a[0], b[0]); }
    }
  }

  function InsertFact(f: Fact, fs: seq<Fact>): seq<Fact> {
    if fs == [] || KeyLeq(SortKey(f), SortKey(fs[0])) then [f] + fs else [fs[0]] + InsertFact(f, fs[1..])
  }

  // sorted(facts, key=_fact_sort_key), stable.
  function SortFacts(fs: seq<Fact>): seq<Fact> {
    if fs == [] then [] else InsertFact(fs[0], SortFacts(fs[1..]))
  }

  ghost predicate InKeyOrder(fs: seq<Fact>) {
    forall i, j | 0 <= i < j < |fs| :: KeyLeq(SortKey(fs[i]), SortKey(fs[j]))
  }

  lemma {:induction false} InsertFactCorrect(f: Fact, fs: seq<Fact>)
    requires InKeyOrder(fs)
    ensures InKeyOrder(InsertFact(f, fs))
    ensures forall x :: x in InsertFact(f, fs) <==> x == f || x in fs
  {
    if fs == [] {
    } else if KeyLeq(SortKey(f), SortKey(fs[0])) {
      forall i | 0 <= i < |fs| ensures KeyLeq(SortKey(f), SortKey(fs[i])) {
        if i > 0 { KeyLeqTransitive(SortKey(f), SortKey(fs[0]), SortKey(fs[i])); }
      }
    } else {
      KeyLeqTotal(SortKey(f), SortKey(fs[0]));
      InsertFactCorrect(f, fs[1..]);
      var rest := InsertFact(f, fs[1..]);
      forall i | 0 <= i < |rest| ensures KeyLeq(SortKey(fs[0]), SortKey(rest[i])) {
        MemberAt(rest, i);
        FirstFact(fs, rest[i]);
      }
    }
  }

  lemma FirstFact(fs: seq<Fact>, x: Fact)
    requires fs != [] && InKeyOrder(fs)
    ensures x in fs[1..] ==> KeyLeq(SortKey(fs[0]), SortKey(x))
  {
  }

  lemma {:induction false} SortFactsCorrect(fs: seq<Fact>)
    ensures InKeyOrder(SortFacts(fs))
    ensures forall x :: x in SortFacts(fs) <==> x in fs
  {
    if fs != [] {
      SortFactsCorrect(fs[1..]);
      InsertFactCorrect(fs[0], SortFacts(fs[1..]));
    }
  }

  function Identities(fs: seq<Fact>): set<Identity> {
    set f | f in fs :: FactIdentity(f)
  }

  function PairsOf(fs: seq<Fact>): set<Pair> {
    set f | f in fs :: FactPair(f)
  }

  // The first fact of every identity.
  function FirstOfEach(fs: seq<Fact>): seq<Fact> {
    if fs == [] then []
    else
      var last := |fs| - 1;
      FirstOfEach(fs[..last]) + if FactIdentity(fs[last]) in Identities(fs[..last]) then [] else [fs[last]]
  }

  method DedupeFacts(facts: seq<Fact>) returns (out: seq<Fact>)
    ensures out == FirstOfEach(SortFacts(facts))
  {
    var fs := SortFacts(facts);
    var seen: set<Identity> := {};
    out := [];
    for i := 0 to |fs|
      invariant out == FirstOfEach(fs[..i]) && seen == Identities(fs[..i])
    {
      assert fs[..i + 1][..i] == fs[..i];
      OneMoreIdentity(fs[..i], fs[i]);
      assert fs[..i + 1] == fs[..i] + [fs[i]];
      if FactIdentity(fs[i]) !in seen {
        seen := seen + {FactIdentity(fs[i])};
        out := out + [fs[i]];
      }
    }
    assert fs[..|fs|] == fs;
  }

  lemma OneMoreIdentity(fs: seq<Fact>, f: Fact)
    ensures Identities(fs + [f]) == Identities(fs) + {FactIdentity(f)}
  {
  }

  ghost predicate DistinctFacts(fs: seq<Fact>) {
    forall i, j | 0 <= i < j < |fs| :: FactIdentity(fs[i]) != FactIdentity(fs[j])
  }

  // Deduplication keeps one fact of every identity, drops none and invents none.
  lemma {:induction false} FirstOfEachMeaning(fs: seq<Fact>)
    ensures DistinctFacts(FirstOfEach(fs)) && Identities(FirstOfEach(fs)) == Identities(fs)
    ensures forall f | f in FirstOfEach(fs) :: f in fs
  {
    if fs != [] {
      var last := |fs| - 1;
      FirstOfEachMeaning(fs[..last]);
      assert fs == fs[..last] + [fs[last]];
      OneMoreIdentity(fs[..last], fs[last]);
      OneMoreIdentity(FirstOfEach(fs[..last]), fs[last]);
      NewIdentity(FirstOfEach(fs[..last]), fs[last]);
    }
  }

  lemma NewIdentity(fs: seq<Fact>, f: Fact)
    requires DistinctFacts(fs)
    ensures FactIdentity(f) !in Identities(fs) ==> DistinctFacts(fs + [f])
  {
    IdentityMember(fs);
  }

  lemma IdentityMember(fs: seq<Fact>)
    ensures forall i | 0 <= i < |fs| :: FactIdentity(fs[i]) in Identities(fs)
  {
    forall i | 0 <= i < |fs| ensures FactIdentity(fs[i]) in Identities(fs) {
      MemberAt(fs, i);
    }
  }

  // Equal identities mean equal pairs.
  lemma SameIdentitiesSamePairs(a: seq<Fact>, b: seq<Fact>)
    requires Identities(a) <= Identities(b)
    ensures PairsOf(a) <= PairsOf(b)
  {
    forall f | f in a ensures FactPair(f) in PairsOf(b) {
      assert FactIdentity(f) in Identities(b);
      var g :| g in b && FactIdentity(g) == FactIdentity(f);
    }
  }

  lemma SameMembers(a: seq<Fact>, b: seq<Fact>)
    requires forall f :: f in a <==> f in b
    ensures Identities(a) == Identities(b) && PairsOf(a) == PairsOf(b)
  {
  }

  lemma DedupedIdentities(facts: seq<Fact>)
    ensures var out := FirstOfEach(SortFacts(facts));
            && DistinctFacts(out) && Identities(out) == Identities(facts) && PairsOf(out) == PairsOf(facts)
            && forall f | f in out :: f in facts
  {
    SortFactsCorrect(facts);
    SameMembers(SortFacts(facts), facts);
    FirstOfEachMeaning(SortFacts(facts));
    SameIdentitiesSamePairs(FirstOfEach(SortFacts(facts)), facts);
    SameIdentitiesSamePairs(facts, FirstOfEach(SortFacts(facts)));
  }

  // ---- The validator ----

  datatype Part = RunPart | StepPart | EventPart | NodePart

  function PartOf(part: Part, p: Option<Provenance>): Option<string> {
    match part
    case RunPart => Origin(p).run
    case StepPart => Origin(p).step
    case EventPart => Origin(p).event
    case NodePart => Origin(p).node
  }

  predicate InFacts(facts: seq<Fact>, part: Part, id: string) {
    exists f | f in facts :: PartOf(part, f.provenance) == Some(id)
  }

  predicate InBlocks(blocks: seq<Block>, part: Part, id: string) {
    exists b | b in blocks :: PartOf(part, b.provenance) == Some(id)
  }

  // Where an id of the given kind may come from.
  predicate Allowed(req: Request, part: Part, id: string) {
    || InFacts(req.facts, part, id)
    || match part
       case RunPart => req.runId == Some(id) || InBlocks(req.blocks, part, id)
       case StepPart => InBlocks(req.blocks, part, id)
       case EventPart => id in req.eventIds
       case NodePart => id in req.nodeIds
  }

  predicate Offends(req: Request, part: Part, f: Fact) {
    PartOf(part, f.provenance).Some? && !Allowed(req, part, PartOf(part, f.provenance).value)
  }

  function FactError(req: Request, f: Fact): Option<Error> {
    if f.memory.Some? && f.memory.value !in req.memoryIds then Some(InventedMemory)
    else if Offends(req, RunPart, f) then Some(InventedRun)
    else if Offends(req, StepPart, f) then Some(InventedStep)
    else if Offends(req, EventPart, f) then Some(InventedEvent)
    else if Offends(req, NodePart, f) then Some(InventedNode)
    else None
  }

  function FirstFactError(req: Request, fs: seq<Fact>): Option<Error> {
    if fs == [] then None
    else if FactError(req, fs[0]).Some? then FactError(req, fs[0])
    else FirstFactError(req, fs[1..])
  }

  predicate MemoryListed(req: Request, f: Fact) {
    f.memory.Some? ==> f.memory.value in req.memoryIds
  }

  function SourceError(req: Request, res: Summary): Option<Error> {
    if exists f | f in req.facts :: !MemoryListed(req, f) then Some(RequestSource)
    else if res.memoryIds != req.memoryIds then Some(ChangedMemoryIds)
    else if res.eventIds != req.eventIds then Some(ChangedEventIds)
    else if res.nodeIds != req.nodeIds then Some(ChangedNodeIds)
    else FirstFactError(req, res.facts)
  }

  // A pair asserted in prose is backed by a required fact, or by the first word of its value.
  predicate Backed(req: Request, p: Pair) {
    || p in PairsOf(req.facts)
    || exists f | f in req.facts :: f.key == p.0 && WordsOf(f.value) != [] && WordsOf(f.value)[0] == p.1
  }

  predicate AllBacked(req: Request, ps: seq<Pair>) {
    forall p | p in ps :: Backed(req, p)
  }

  function ContentError(req: Request, res: Summary): Option<Error> {
    if PairsOf(res.facts) - PairsOf(req.facts) != {} then Some(InventedFacts)
    else if PairsOf(req.facts) - PairsOf(res.facts) != {} then Some(DroppedFacts)
    else if Identities(req.facts) - Identities(res.facts) != {} then Some(DroppedProvenance)
    else if Identities(res.facts) - Identities(req.facts) != {} then Some(ChangedProvenance)
    else if !AllBacked(req, Scan(true, res.text)) then Some(InventedProse)
    else None
  }

  // A summary over budget is cut, and its token count is corrected.
  function Fitted(req: Request, res: Summary, est: Estimate): Summary {
    if est(res.text) > req.budget then
      var (text, cut) := Truncate(res.text, req.budget, est);
      res.(text := text, postTokens := est(text), warnings := res.warnings + if cut then [CutToBudget] else [])
    else if res.postTokens != est(res.text) then res.(postTokens := est(res.text))
    else res
  }

  function Validate(req: Request, res: Summary, est: Estimate): Result<Summary, Error> {
    if ContentError(req, res).Some? then Err(ContentError(req, res).value)
    else if SourceError(req, res).Some? then Err(SourceError(req, res).value)
    else Ok(Fitted(req, res, est))
  }

  // ---- The rule provider ----

  function Pairs(fs: seq<Fact>): seq<Pair> {
    seq(|fs|, i requires 0 <= i < |fs| => FactPair(fs[i]))
  }

  method RenderRuleSummary(facts: seq<Fact>, max: int, est: Estimate) returns (text: string, warnings: seq<Warning>)
    ensures text == Truncate(Content(Pairs(facts)), max, est).0
    ensures warnings == if Truncate(Content(Pairs(facts)), max, est).1 then [CutToBudget] else []
  {
    var cut;
    text, cut := TruncateSummary(Content(Pairs(facts)), max, est);
    warnings := if cut then [CutToBudget] else [];
  }

  // What the rule provider submits to the validator.
  function RuleDraft(req: Request, est: Estimate): Summary {
    var facts := FirstOfEach(SortFacts(req.facts));
    var (text, cut) := Truncate(Content(Pairs(facts)), req.budget, est);
    Summary(text, facts, req.memoryIds, req.eventIds, req.nodeIds, est(text), if cut then [CutToBudget] else [])
  }

  method Summarize(req: Request, est: Estimate) returns (r: Result<Summary, Error>)
    ensures r == Validate(req, RuleDraft(req, est), est)
  {
    var facts := DedupeFacts(req.facts);
    var text, warnings := RenderRuleSummary(facts, req.budget, est);
    r := Validate(req, Summary(text, facts, req.memoryIds, req.eventIds, req.nodeIds, est(text), warnings), est);
  }

  // ---- What an accepted summary guarantees, whoever wrote it ----

  // The estimate the budget relies on: nothing for no text, never more than a text's length.
  ghost predicate Modest(est: Estimate) {
    forall s :: est(s) <= |s|
  }

  // What the cut itself makes a text assert: an ellipsis for the key its kept words leave waiting.
  function CutAsserts(text: string, max: int, est: Estimate): seq<Pair> {
    if 0 < max < est(text) then Waiting(JoinWords(Kept(text, max, est))) else []
  }

  // Exactly the required identities are retained, the sources are the request's, and the text is
  // within the budget. The text handed in asserts backed pairs only; so does the one handed out if and
  // only if the cut leaves no key waiting, or what it makes that key assert is backed as well.
  lemma AcceptedIsExact(req: Request, res: Summary, est: Estimate)
    requires Validate(req, res, est).Ok?
    ensures var out := Validate(req, res, est).value;
            && Identities(out.facts) == Identities(req.facts) && PairsOf(out.facts) == PairsOf(req.facts)
            && out.memoryIds == req.memoryIds && out.eventIds == req.eventIds && out.nodeIds == req.nodeIds
            && out.postTokens == est(out.text)
            && (Modest(est) && req.budget >= 0 ==> out.postTokens <= req.budget)
            && (est(res.text) <= req.budget ==> out.text == res.text)
            && (AllBacked(req, Scan(true, out.text)) <==> AllBacked(req, CutAsserts(res.text, req.budget, est)))
    ensures AllBacked(req, Scan(true, res.text))
  {
    assert Identities(res.facts) == Identities(req.facts);
    if Modest(est) && req.budget >= 0 {
      TruncateFits(res.text, req.budget, est);
    }
    CutBackedIff(req, res.text, est);
  }

  lemma CutBackedIff(req: Request, text: string, est: Estimate)
    requires AllBacked(req, Scan(true, text))
    ensures var out := if est(text) > req.budget then Truncate(text, req.budget, est).0 else text;
            AllBacked(req, Scan(true, out)) <==> AllBacked(req, CutAsserts(text, req.budget, est))
  {
    if 0 < req.budget < est(text) {
      ScanCut(text, req.budget, est);
      BackedParts(req, Scan(true, JoinWords(Kept(text, req.budget, est))), CutAsserts(text, req.budget, est));
    } else {
      NothingAsserted(true, "");
    }
  }

  lemma BackedParts(req: Request, a: seq<Pair>, b: seq<Pair>)
    ensures AllBacked(req, a + b) <==> AllBacked(req, a) && AllBacked(req, b)
  {
    forall p | p in a || p in b ensures p in a + b {}
  }

  // ---- The verdict in the fields of the facts ----

  // The same fact with the same provenance; no provenance is an empty one.
  predicate SameFact(f: Fact, g: Fact) {
    && f.key == g.key && f.value == g.value && f.memory == g.memory
    && forall part :: SourceOf(part, f) == SourceOf(part, g)
  }

  function SourceOf(part: Part, f: Fact): Option<string> {
    if f.provenance == None then None
    else match part
      case RunPart => f.provenance.value.run
      case StepPart => f.provenance.value.step
      case EventPart => f.provenance.value.event
      case NodePart => f.provenance.value.node
  }

  predicate SamePair(f: Fact, g: Fact) {
    f.key == g.key && f.value == g.value
  }

  // Every fact of one list has a counterpart in the other.
  ghost predicate PairsWithin(a: seq<Fact>, b: seq<Fact>) {
    forall f | f in a :: exists g :: g in b && SamePair(f, g)
  }

  ghost predicate FactsWithin(a: seq<Fact>, b: seq<Fact>) {
    forall f | f in a :: exists g :: g in b && SameFact(f, g)
  }

  // A pair the prose may assert: a required fact, or its key with the first word of its value.
  ghost predicate Stated(req: Request, p: Pair) {
    exists f :: f in req.facts && f.key == p.0
      && (f.value == p.1 || (WordsOf(f.value) != [] && WordsOf(f.value)[0] == p.1))
  }

  function ShownId(s: Option<string>): string {
    match s case None => "" case Some(t) => t
  }

  // Key, value, memory, and the four parts of the provenance.
  function FactFields(f: Fact): seq<string> {
    [f.key, f.value, ShownId(f.memory), ShownId(SourceOf(RunPart, f)), ShownId(SourceOf(StepPart, f)),
     ShownId(SourceOf(EventPart, f)), ShownId(SourceOf(NodePart, f))]
  }

  // The first field in which two facts differ is the smaller one in the first of them.
  predicate FieldsLessAt(a: seq<string>, b: seq<string>, k: int) {
    0 <= k < |a| && k < |b| && a[..k] == b[..k] && Less(a[k], b[k])
  }

  lemma {:induction false} KeyLeqMeaning(a: seq<string>, b: seq<string>)
    requires |a| == |b| && KeyLeq(a, b)
    ensures a == b || exists k :: FieldsLessAt(a, b, k)
  {
    if a != [] {
      if Less(a[0], b[0]) {
        assert FieldsLessAt(a, b, 0);
      } else {
        KeyLeqMeaning(a[1..], b[1..]);
        assert a == [a[0]] + a[1..] && b == [b[0]] + b[1..];
        if k :| FieldsLessAt(a[1..], b[1..], k) {
          assert a[..k + 1] == [a[0]] + a[1..][..k] && b[..k + 1] == [b[0]] + b[1..][..k];
          assert FieldsLessAt(a, b, k + 1);
        }
      }
    }
  }

  lemma {:induction false} FirstOfEachOrder(fs: seq<Fact>)
    requires InKeyOrder(fs)
    ensures InKeyOrder(FirstOfEach(fs))
  {
    if fs != [] {
      var last := |fs| - 1;
      FirstOfEachOrder(fs[..last]);
      FirstOfEachMeaning(fs[..last]);
      var front := FirstOfEach(fs[..last]);
      forall i | 0 <= i < |front| ensures KeyLeq(SortKey(front[i]), SortKey(fs[last])) {
        MemberAt(front, i);
        var j :| 0 <= j < last && fs[..last][j] == front[i];
      }
    }
  }

  // The retained facts are in the order of their fields.
  lemma RetainedInOrder(facts: seq<Fact>, i: nat, j: nat)
    requires i < j < |FirstOfEach(SortFacts(facts))|
    ensures var out := FirstOfEach(SortFacts(facts));
            var a, b := FactFields(out[i]), FactFields(out[j]);
            a == b || exists k :: FieldsLessAt(a, b, k)
  {
    SortFactsCorrect(facts);
    FirstOfEachOrder(SortFacts(facts));
    var out := FirstOfEach(SortFacts(facts));
    assert FactFields(out[i]) == SortKey(out[i]) && FactFields(out[j]) == SortKey(out[j]);
    KeyLeqMeaning(SortKey(out[i]), SortKey(out[j]));
  }

  lemma SameFactMeaning(f: Fact, g: Fact)
    ensures SameFact(f, g) <==> FactIdentity(f) == FactIdentity(g)
    ensures SamePair(f, g) <==> FactPair(f) == FactPair(g)
  {
    if SameFact(f, g) {
      assert SourceOf(RunPart, f) == SourceOf(RunPart, g) && SourceOf(StepPart, f) == SourceOf(StepPart, g);
      assert SourceOf(EventPart, f) == SourceOf(EventPart, g) && SourceOf(NodePart, f) == SourceOf(NodePart, g);
    }
  }

  lemma WithinMeaning(a: seq<Fact>, b: seq<Fact>)
    ensures PairsWithin(a, b) <==> PairsOf(a) <= PairsOf(b)
    ensures FactsWithin(a, b) <==> Identities(a) <= Identities(b)
  {
    forall f, g
      ensures SameFact(f, g) <==> FactIdentity(f) == FactIdentity(g)
      ensures SamePair(f, g) <==> FactPair(f) == FactPair(g)
    {
      SameFactMeaning(f, g);
    }
    forall f | f in a ensures FactPair(f) in PairsOf(a) && FactIdentity(f) in Identities(a) {}
  }

  lemma StatedMeaning(req: Request, p: Pair)
    ensures Stated(req, p) <==> Backed(req, p)
  {
    if p in PairsOf(req.facts) {
      var f :| f in req.facts && FactPair(f) == p;
    }
    if f :| f in req.facts && f.key == p.0 && f.value == p.1 {
      assert FactPair(f) == p;
    }
  }

  // Once the facts are the required ones, no id of theirs can be an invented one.
  lemma KnownFactsPass(req: Request, fs: seq<Fact>)
    requires Identities(fs) <= Identities(req.facts) && forall f | f in req.facts :: MemoryListed(req, f)
    ensures FirstFactError(req, fs) == None
  {
    forall f | f in fs ensures FactError(req, f) == None {
      assert FactIdentity(f) in Identities(req.facts);
      var g :| g in req.facts && FactIdentity(g) == FactIdentity(f);
      RequiredFactPasses(req, g);
      assert forall part :: PartOf(part, f.provenance) == PartOf(part, g.provenance);
    }
    NoFactError(req, fs);
  }

  lemma {:induction false} NoFactError(req: Request, fs: seq<Fact>)
    requires forall f | f in fs :: FactError(req, f) == None
    ensures FirstFactError(req, fs) == None
  {
    if fs != [] { NoFactError(req, fs[1..]); }
  }

  lemma NothingLeft<T>(a: set<T>, b: set<T>)
    ensures a - b == {} <==> a <= b
  {
    if a - b == {} {
      forall x | x in a ensures x in b {
        assert x !in a - b;
      }
    }
  }

  // What the content checks refuse, in their order.
  ghost function ContentFault(req: Request, res: Summary): Option<Error> {
    if !PairsWithin(res.facts, req.facts) then Some(InventedFacts)
    else if !PairsWithin(req.facts, res.facts) then Some(DroppedFacts)
    else if !FactsWithin(req.facts, res.facts) then Some(DroppedProvenance)
    else if !FactsWithin(res.facts, req.facts) then Some(ChangedProvenance)
    else if exists p | p in Scan(true, res.text) :: !Stated(req, p) then Some(InventedProse)
    else None
  }

  lemma ContentByFields(req: Request, res: Summary)
    ensures ContentError(req, res) == ContentFault(req, res)
  {
    WithinMeaning(res.facts, req.facts);
    WithinMeaning(req.facts, res.facts);
    NothingLeft(PairsOf(res.facts), PairsOf(req.facts));
    NothingLeft(PairsOf(req.facts), PairsOf(res.facts));
    NothingLeft(Identities(res.facts), Identities(req.facts));
    NothingLeft(Identities(req.facts), Identities(res.facts));
    forall p ensures Stated(req, p) <==> Backed(req, p) {
      StatedMeaning(req, p);
    }
  }

  // What the source checks refuse then; the ids of the facts themselves are never refused.
  function SourceFault(req: Request, res: Summary): Option<Error> {
    if exists f | f in req.facts :: f.memory.Some? && f.memory.value !in req.memoryIds then Some(RequestSource)
    else if res.memoryIds != req.memoryIds then Some(ChangedMemoryIds)
    else if res.eventIds != req.eventIds then Some(ChangedEventIds)
    else if res.nodeIds != req.nodeIds then Some(ChangedNodeIds)
    else None
  }

  lemma SourcesByFields(req: Request, res: Summary)
    requires Identities(res.facts) <= Identities(req.facts)
    ensures SourceError(req, res) == SourceFault(req, res)
  {
    if forall f | f in req.facts :: MemoryListed(req, f) {
      KnownFactsPass(req, res.facts);
    }
  }

  // What is handed out: over budget the text is cut, and a cut is noted; the token count is corrected.
  function HandedOut(req: Request, res: Summary, est: Estimate): Summary {
    var over := est(res.text) > req.budget;
    var text := if over then Truncate(res.text, req.budget, est).0 else res.text;
    var cut := over && Truncate(res.text, req.budget, est).1;
    res.(text := text, postTokens := est(text), warnings := res.warnings + if cut then [CutToBudget] else [])
  }

  lemma FittedMeaning(req: Request, res: Summary, est: Estimate)
    ensures Fitted(req, res, est) == HandedOut(req, res, est)
  {
    assert res.warnings + [] == res.warnings;
  }

  lemma VerdictByFields(req: Request, res: Summary, est: Estimate)
    ensures var content, source := ContentFault(req, res), SourceFault(req, res);
            Validate(req, res, est) == if content.Some? then Err(content.value)
                                       else if source.Some? then Err(source.value)
                                       else Ok(HandedOut(req, res, est))
  {
    ContentByFields(req, res);
    FittedMeaning(req, res, est);
    WithinMeaning(res.facts, req.facts);
    if ContentFault(req, res) == None { SourcesByFields(req, res); }
  }

  // ---- An accepted text that asserts an invented pair once it is cut ----

  const LENGTH: Estimate := (s: string) => |s|

  // One fact, stated in prose as "key = value word", with room for the key, the sign and the notice.
  function ProseRequest(k: string, v: string): Request {
    Request([], [Fact(k, v, None, None)], [], [], [], |k| + 16, None)
  }

  function ProseDraft(k: string, v: string, w: string): Summary {
    Summary(JoinWords([k, "=", v, w]), [Fact(k, v, None, None)], [], [], [], 0, [])
  }

  lemma CutAssertsNotice(k: string, v: string, w: string)
    requires DottedKey(k) && CleanWord(v) && v != ELLIPSIS && |v| + |w| > 12
    requires w != "" && AllIn(WordChars, w) && '=' !in w
    ensures var req, res := ProseRequest(k, v), ProseDraft(k, v, w);
            && Modest(LENGTH) && Validate(req, res, LENGTH).Ok?
            && Scan(true, Validate(req, res, LENGTH).value.text) == [(k, ELLIPSIS)]
            && !Backed(req, (k, ELLIPSIS))
  {
    ProseCut(k, v, w);
    ProseReads(k, v, w);
    NoticeReads(k);
    ProseBacked(k, v);
    ProseAccepted(k, v, w);
  }

  lemma ProseAccepted(k: string, v: string, w: string)
    requires Scan(true, ProseDraft(k, v, w).text) == [(k, v)]
    ensures var req, res := ProseRequest(k, v), ProseDraft(k, v, w);
            Validate(req, res, LENGTH) == Ok(Fitted(req, res, LENGTH))
  {
    var req, res := ProseRequest(k, v), ProseDraft(k, v, w);
    assert req.facts[0] in req.facts && FactPair(req.facts[0]) == (k, v);
    RequiredFactsPass(req, res.facts);
  }

  lemma ProseBacked(k: string, v: string)
    requires CleanWord(v)
    ensures forall t :: Backed(ProseRequest(k, v), (k, t)) <==> t == v
  {
    var req := ProseRequest(k, v);
    var f := Fact(k, v, None, None);
    assert f in req.facts && FactPair(f) == (k, v);
    assert v + "" == v;
    HeadWord(v, v, "");
  }

  // The first word of a value that goes on after a space.
  lemma HeadWord(value: string, head: string, rest: string)
    requires value == head + rest && CleanWord(head) && (rest == "" || rest[0] == ' ')
    ensures StripLeft(value) == value && WordsOf(value) != [] && WordsOf(value)[0] == head
  {
    RunStops(WordChars, head, rest);
    assert value[0] == head[0];
  }

  lemma ProseReads(k: string, v: string, w: string)
    requires DottedKey(k) && CleanWord(v) && '=' !in w
    ensures Scan(true, JoinWords([k, "=", v, w])) == [(k, v)]
  {
    ProseText(k, v, w);
    SpacedReads(k, v, " " + w);
  }

  lemma NoticeReads(k: string)
    requires DottedKey(k)
    ensures Scan(true, JoinWords([k, "="]) + SUFFIX) == [(k, ELLIPSIS)]
  {
    var tail := " (truncated)";
    NoticeParts(SUFFIX, tail);
    SpacedReads(k, ELLIPSIS, tail);
    OpenText(k, " " + (ELLIPSIS + tail));
    assert SUFFIX == " " + (ELLIPSIS + tail);
  }

  lemma ProseText(k: string, v: string, w: string)
    ensures JoinWords([k, "=", v, w]) == k + (" =" + (" " + (v + (" " + w))))
  {
    assert [k, "=", v, w][1..] == ["=", v, w] && ["=", v, w][1..] == [v, w] && [v, w][1..] == [w];
    assert JoinWords([v, w]) == v + (" " + w);
    assert JoinWords(["=", v, w]) == "=" + (" " + (v + (" " + w)));
  }

  lemma OpenText(k: string, rest: string)
    ensures JoinWords([k, "="]) + rest == k + (" =" + rest)
  {
    assert [k, "="][1..] == ["="];
    assert JoinWords([k, "="]) == k + " " + "=";
  }

  // "key = value" is read with its white space.
  lemma SpacedReads(k: string, v: string, rest: string)
    requires DottedKey(k) && CleanWord(v) && rest != "" && IsSpace(rest[0]) && '=' !in rest
    ensures Scan(true, k + (" =" + (" " + (v + rest)))) == [(k, v)]
  {
    var after := " =" + (" " + (v + rest));
    RunStops(KeyChars, k, after);
    SpacedSign(v + rest);
    RunStops(ValueChars, v, rest);
    ScanHit(true, k + after, Hit(k, v, rest));
    MarksKept(v);
    NothingAsserted(EndsWord(v), rest);
  }

  lemma SpacedSign(u: string)
    requires u != "" && !IsSpace(u[0])
    ensures var t := StripLeft(" =" + (" " + u)); t != "" && t[0] == '=' && StripLeft(t[1..]) == u
  {
    var after := " =" + (" " + u);
    assert after[1..] == "=" + (" " + u);
    assert after[1..][1..] == " " + u && (" " + u)[1..] == u;
  }

  lemma ProseCut(k: string, v: string, w: string)
    requires DottedKey(k) && CleanWord(v) && |v| + |w| > 12 && w != "" && AllIn(WordChars, w)
    ensures var text := JoinWords([k, "=", v, w]);
            |text| > |k| + 16 && Truncate(text, |k| + 16, LENGTH).0 == JoinWords([k, "="]) + SUFFIX
  {
    var ws := [k, "=", v, w];
    WordsOfJoined(ws);
    ProseLengths(k, v, w);
    assert ws[..4] == ws && ws[..3] == [k, "=", v] && ws[..2] == [k, "="];
    assert Fitting(ws, 2, |k| + 16, LENGTH) == 2;
    assert Fitting(ws, 3, |k| + 16, LENGTH) == 2;
    assert Fitting(ws, 4, |k| + 16, LENGTH) == 2;
  }

  lemma ProseLengths(k: string, v: string, w: string)
    requires v != ""
    ensures |JoinWords([k, "=", v, w])| == |k| + |v| + |w| + 4
    ensures |WithNotice([k, "=", v, w])| > |k| + 16
    ensures |WithNotice([k, "=", v])| > |k| + 16 && |WithNotice([k, "="])| == |k| + 16
  {
    ProseText(k, v, w);
    assert [k, "=", v][1..] == ["=", v] && ["=", v][1..] == [v];
    assert JoinWords(["=", v]) == "=" + " " + v;
    assert JoinWords([k, "=", v]) == k + " " + JoinWords(["=", v]);
    OpenText(k, "");
    assert |SUFFIX| == 14;
  }

  // ---- The rule provider and its validator ----

  ghost predicate SourcesListed(req: Request) {
    forall f | f in req.facts :: MemoryListed(req, f)
  }

  // A required fact with a listed memory never offends: its provenance is what allows it.
  lemma RequiredFactPasses(req: Request, f: Fact)
    requires f in req.facts && MemoryListed(req, f)
    ensures FactError(req, f) == None
  {
    forall part ensures !Offends(req, part, f) {
      assert PartOf(part, f.provenance).Some? ==> InFacts(req.facts, part, PartOf(part, f.provenance).value);
    }
  }

  lemma {:induction false} RequiredFactsPass(req: Request, fs: seq<Fact>)
    requires forall f | f in fs :: f in req.facts && MemoryListed(req, f)
    ensures FirstFactError(req, fs) == None
  {
    if fs != [] {
      RequiredFactPasses(req, fs[0]);
      RequiredFactsPass(req, fs[1..]);
    }
  }

  // Of all the checks, a rule draft can fail two: listed memories, and what its own text asserts.
  lemma RuleAcceptedIff(req: Request, est: Estimate)
    ensures var draft := RuleDraft(req, est);
            Validate(req, draft, est).Ok? <==> SourcesListed(req) && AllBacked(req, Scan(true, draft.text))
  {
    var draft := RuleDraft(req, est);
    DedupedIdentities(req.facts);
    if SourcesListed(req) {
      RequiredFactsPass(req, draft.facts);
    }
  }

  // The facts and the pairs a rule draft renders.
  function Retained(req: Request): seq<Fact> {
    FirstOfEach(SortFacts(req.facts))
  }

  function Rendered(req: Request): seq<Pair> {
    Pairs(Retained(req))
  }

  predicate Uncut(req: Request, est: Estimate) {
    0 < req.budget && est(Content(Rendered(req))) <= req.budget
  }

  predicate IsLast(req: Request, i: int) {
    i == |Retained(req)| - 1
  }

  // What is read from each retained fact decides, whatever its key and value.
  lemma UncutRuleAcceptedIff(req: Request, est: Estimate)
    requires Uncut(req, est)
    ensures Validate(req, RuleDraft(req, est), est).Ok?
            <==> SourcesListed(req)
                 && forall i | 0 <= i < |Retained(req)| :: AllBacked(req, ReadPair(Rendered(req)[i], IsLast(req, i)))
  {
    RuleAcceptedIff(req, est);
    ScanContentReads(Rendered(req));
    BackedReadings(req, Rendered(req));
  }

  lemma BackedReadings(req: Request, ps: seq<Pair>)
    ensures AllBacked(req, Readings(ps))
            <==> forall i | 0 <= i < |ps| :: AllBacked(req, ReadPair(ps[i], i == |ps| - 1))
  {
    forall q ensures q in Readings(ps) <==> exists i | 0 <= i < |ps| :: q in ReadPair(ps[i], i == |ps| - 1) {
      ReadingsMember(ps, q);
    }
  }

  predicate TokenBacked(req: Request, k: string, t: Option<string>) {
    t.Some? ==> Backed(req, (k, t.value))
  }

  // With dotted keys: the token of every value, and whatever is asserted behind it.
  lemma DottedRuleAcceptedIff(req: Request, est: Estimate)
    requires Uncut(req, est) && forall f | f in req.facts :: DottedKey(f.key)
    ensures Validate(req, RuleDraft(req, est), est).Ok?
            <==> SourcesListed(req)
                 && forall i | 0 <= i < |Retained(req)| ::
                      && TokenBacked(req, Retained(req)[i].key, Token(Shown(Retained(req)[i].value, IsLast(req, i))))
                      && AllBacked(req, ScanBehind(Shown(Retained(req)[i].value, IsLast(req, i))))
  {
    UncutRuleAcceptedIff(req, est);
    DedupedIdentities(req.facts);
    var fs := Retained(req);
    forall i | 0 <= i < |fs|
      ensures AllBacked(req, ReadPair(Rendered(req)[i], IsLast(req, i)))
              <==> && TokenBacked(req, fs[i].key, Token(Shown(fs[i].value, IsLast(req, i))))
                   && AllBacked(req, ScanBehind(Shown(fs[i].value, IsLast(req, i)))) {
      MemberAt(fs, i);
      DottedBacked(req, fs[i], IsLast(req, i));
    }
  }

  lemma DottedBacked(req: Request, f: Fact, last: bool)
    requires DottedKey(f.key)
    ensures var v := Shown(f.value, last);
            AllBacked(req, ReadPair(FactPair(f), last))
            <==> TokenBacked(req, f.key, Token(v)) && AllBacked(req, ScanBehind(v))
  {
    var v := Shown(f.value, last);
    ReadPairDotted(FactPair(f), last);
    BackedParts(req, TokenPair(f.key, Token(v)), ScanBehind(v));
  }

  // With quiet values as well: the token alone.
  lemma QuietRuleAcceptedIff(req: Request, est: Estimate)
    requires Uncut(req, est) && forall f | f in req.facts :: DottedKey(f.key) && Quiet(f.value)
    ensures Validate(req, RuleDraft(req, est), est).Ok?
            <==> SourcesListed(req)
                 && forall i | 0 <= i < |Retained(req)| ::
                      TokenBacked(req, Retained(req)[i].key, LastToken(Retained(req)[i].value, IsLast(req, i)))
  {
    UncutRuleAcceptedIff(req, est);
    DedupedIdentities(req.facts);
    var fs := Retained(req);
    forall i | 0 <= i < |fs|
      ensures AllBacked(req, ReadPair(Rendered(req)[i], IsLast(req, i)))
              <==> TokenBacked(req, fs[i].key, LastToken(fs[i].value, IsLast(req, i))) {
      MemberAt(fs, i);
      QuietBacked(req, fs[i], IsLast(req, i));
    }
  }

  lemma QuietBacked(req: Request, f: Fact, last: bool)
    requires DottedKey(f.key) && Quiet(f.value)
    ensures AllBacked(req, ReadPair(FactPair(f), last)) <==> TokenBacked(req, f.key, LastToken(f.value, last))
  {
    ReadPairToken(FactPair(f), last);
  }

  // And when no two values share a key, the first words: each is read as it stands, or starts with a
  // separator and is not read at all; and the value rendered last is empty or has a word.
  lemma SingleRuleAcceptedIff(req: Request, est: Estimate)
    requires Uncut(req, est) && forall f | f in req.facts :: DottedKey(f.key) && Quiet(f.value)
    requires forall f, g | f in req.facts && g in req.facts && f.key == g.key :: f.value == g.value
    ensures Validate(req, RuleDraft(req, est), est).Ok?
            <==> && SourcesListed(req)
                 && (forall f | f in req.facts :: ReadsFirstWord(f.value))
                 && (forall i | 0 <= i < |Retained(req)| && IsLast(req, i) :: !BlankValue(Retained(req)[i].value))
  {
    QuietRuleAcceptedIff(req, est);
    RetainedPairs(req);
    var fs := Retained(req);
    forall i | 0 <= i < |fs|
      ensures TokenBacked(req, fs[i].key, LastToken(fs[i].value, IsLast(req, i)))
              <==> ReadsFirstWord(fs[i].value) && (IsLast(req, i) ==> !BlankValue(fs[i].value)) {
      MemberAt(fs, i);
      TokenOfSingle(req, fs[i], IsLast(req, i));
    }
    RetainedFirstWords(req);
  }

  lemma RetainedFirstWords(req: Request)
    ensures (forall f | f in req.facts :: ReadsFirstWord(f.value))
            <==> forall i | 0 <= i < |Retained(req)| :: ReadsFirstWord(Retained(req)[i].value)
  {
    RetainedPairs(req);
    forall f | f in req.facts ensures exists i | 0 <= i < |Retained(req)| :: FactPair(Retained(req)[i]) == FactPair(f) {
      RetainedHas(req, f);
    }
    forall i | 0 <= i < |Retained(req)| ensures Retained(req)[i] in req.facts {
      MemberAt(Retained(req), i);
    }
  }

  // The first word of a value.
  function Head(v: string): string {
    if WordsOf(v) == [] then "" else WordsOf(v)[0]
  }

  predicate ReadsFirstWord(v: string) {
    var w := Head(v);
    w == "" || !In(ValueChars, w[0]) || CleanWord(w)
  }

  predicate BlankValue(v: string) {
    v != "" && StripLeft(v) == ""
  }

  // Which facts are retained.
  lemma RetainedPairs(req: Request)
    ensures forall f | f in Retained(req) :: f in req.facts
    ensures Retained(req) == [] <==> req.facts == []
  {
    DedupedIdentities(req.facts);
    if req.facts != [] { RetainedHas(req, req.facts[0]); }
  }

  lemma RetainedHas(req: Request, f: Fact)
    requires f in req.facts
    ensures exists i | 0 <= i < |Retained(req)| :: FactPair(Retained(req)[i]) == FactPair(f)
  {
    DedupedIdentities(req.facts);
    assert FactPair(f) in PairsOf(Retained(req));
    var g :| g in Retained(req) && FactPair(g) == FactPair(f);
    var i :| 0 <= i < |Retained(req)| && Retained(req)[i] == g;
  }

  lemma TokenOfSingle(req: Request, f: Fact, last: bool)
    requires f in req.facts && forall g | g in req.facts && g.key == f.key :: g.value == f.value
    ensures TokenBacked(req, f.key, LastToken(f.value, last))
            <==> ReadsFirstWord(f.value) && (last ==> !BlankValue(f.value))
  {
    BackedBySingle(req, f);
    FirstWord(f.value);
    if WordsOf(f.value) != [] {
      TokenIsFirstWord(f.value);
    }
  }

  lemma BackedBySingle(req: Request, f: Fact)
    requires f in req.facts && forall g | g in req.facts && g.key == f.key :: g.value == f.value
    ensures forall t :: Backed(req, (f.key, t))
                        <==> t == f.value || (WordsOf(f.value) != [] && t == WordsOf(f.value)[0])
  {
    assert FactPair(f) in PairsOf(req.facts);
  }

  // When the text is cut: the readings of the kept words, and what the cut makes a waiting key assert.
  lemma CutRuleAcceptedIff(req: Request, est: Estimate)
    requires 0 < req.budget < est(Content(Rendered(req)))
    ensures var content := Content(Rendered(req));
            var n := |Scan(true, JoinWords(Kept(content, req.budget, est)))|;
            && n <= |Readings(Rendered(req))|
            && (Validate(req, RuleDraft(req, est), est).Ok?
                <==> && SourcesListed(req) && AllBacked(req, Readings(Rendered(req))[..n])
                     && AllBacked(req, CutAsserts(content, req.budget, est)))
  {
    var content := Content(Rendered(req));
    RuleAcceptedIff(req, est);
    ScanContentReads(Rendered(req));
    ScanCut(content, req.budget, est);
    BackedParts(req, Scan(true, JoinWords(Kept(content, req.budget, est))), CutAsserts(content, req.budget, est));
  }

  // Without a budget nothing is asserted.
  lemma NoBudgetAcceptedIff(req: Request, est: Estimate)
    requires req.budget <= 0
    ensures Validate(req, RuleDraft(req, est), est).Ok? <==> SourcesListed(req)
  {
    RuleAcceptedIff(req, est);
    NothingAsserted(true, "");
  }

  // ---- Facts the rule provider never fails on ----

  // Rendered snugly, no cut leaves a key waiting: what is accepted uncut is accepted for any budget.
  lemma SnugNeverFails(req: Request, est: Estimate)
    requires SourcesListed(req) && forall f | f in req.facts :: Snug(FactPair(f))
    requires forall i | 0 <= i < |Retained(req)| :: AllBacked(req, ReadPair(Rendered(req)[i], IsLast(req, i)))
    ensures Validate(req, RuleDraft(req, est), est).Ok?
  {
    RuleAcceptedIff(req, est);
    RetainedPairs(req);
    BackedReadings(req, Rendered(req));
    forall i | 0 <= i < |Rendered(req)| ensures Snug(Rendered(req)[i]) {
      MemberAt(Retained(req), i);
    }
    var n := ScanSnug(Rendered(req), req.budget, est);
  }

  // A value of one or more words whose first is clean and whose others assert nothing.
  ghost predicate CleanFact(f: Fact) {
    Snug(FactPair(f)) && Quiet(f.value) && (f.value == "" || CleanWord(Head(f.value)))
  }

  // So with listed memories the rule provider never fails its own validator on such facts, whatever the
  // budget and the estimate.
  lemma CleanFactsNeverFail(req: Request, est: Estimate)
    requires SourcesListed(req) && forall f | f in req.facts :: CleanFact(f)
    ensures Validate(req, RuleDraft(req, est), est).Ok?
  {
    RetainedPairs(req);
    var fs := Retained(req);
    forall i | 0 <= i < |fs| ensures AllBacked(req, ReadPair(Rendered(req)[i], IsLast(req, i))) {
      MemberAt(fs, i);
      CleanFactBacked(req, fs[i], IsLast(req, i));
    }
    SnugNeverFails(req, est);
  }

  lemma CleanFactBacked(req: Request, f: Fact, last: bool)
    requires f in req.facts && CleanFact(f)
    ensures AllBacked(req, ReadPair(FactPair(f), last))
  {
    ReadPairToken(FactPair(f), last);
    assert FactPair(f) in PairsOf(req.facts);
    FirstWord(f.value);
    if f.value != "" { TokenIsFirstWord(f.value); }
  }

  // A clean word, alone or with other words behind it, makes such a fact.
  lemma WordsAreClean(f: Fact, head: string, tail: string)
    requires DottedKey(f.key) && f.value == head + tail && CleanWord(head)
    requires tail == "" || (tail[0] == ' ' && '=' !in tail && head[|head| - 1] != '=')
    ensures CleanFact(f)
  {
    HeadWord(f.value, head, tail);
    RunStops(ValueChars, head, tail);
    assert forall i | 0 <= i < |head| :: In(ValueChars, head[i]);
    assert forall i | |head| <= i < |f.value| :: f.value[i] in tail;
    assert forall i | 0 <= i < |f.value| :: f.value[i] == (f.value + ".")[i];
  }

  ghost predicate PlainFacts(fs: seq<Fact>) {
    forall f | f in fs :: Plain(FactPair(f))
  }

  // For dotted-identifier keys and values of one clean word, scanning the text gives back the facts:
  // all of them, in order, or the first few when the text was cut. Nothing else is asserted.
  lemma RuleTextReadsBack(req: Request, est: Estimate) returns (n: nat)
    requires PlainFacts(req.facts)
    ensures var draft := RuleDraft(req, est);
            && n <= |draft.facts| && Scan(true, draft.text) == Pairs(draft.facts)[..n]
            && (draft.warnings == [] && req.budget > 0 ==> n == |draft.facts|)
  {
    RetainedPairs(req);
    forall i | 0 <= i < |Retained(req)| ensures Plain(Rendered(req)[i]) {
      MemberAt(Retained(req), i);
    }
    n := ScanSummary(Rendered(req), req.budget, est);
  }

  lemma RuleNeverFails(req: Request, est: Estimate)
    requires PlainFacts(req.facts) && SourcesListed(req)
    ensures Validate(req, RuleDraft(req, est), est).Ok?
  {
    forall f | f in req.facts ensures CleanFact(f) {
      assert f.value + "" == f.value;
      WordsAreClean(f, f.value, "");
    }
    CleanFactsNeverFail(req, est);
  }

  // ---- Where it does fail ----

  // One required fact, no budget pressure.
  ghost predicate SoleFact(req: Request, f: Fact, est: Estimate) {
    req.facts == [f] && 0 < req.budget && est(Content([FactPair(f)])) <= req.budget
  }

  lemma SoleRetained(req: Request, f: Fact, est: Estimate)
    requires SoleFact(req, f, est)
    ensures Retained(req) == [f] && Rendered(req) == [FactPair(f)] && Uncut(req, est)
  {
    assert [f][1..] == [] && SortFacts([f]) == [f];
    assert [f][..0] == [] && FirstOfEach([f]) == [f];
    assert Pairs([f]) == [FactPair(f)];
  }

  // A sole value that goes on behind a clean first word is accepted if and only if what its other words
  // assert is backed.
  lemma SoleTailAcceptedIff(req: Request, f: Fact, head: string, tail: string, est: Estimate)
    requires SoleFact(req, f, est) && DottedKey(f.key) && f.value == head + (" " + tail) && CleanWord(head)
    ensures Validate(req, RuleDraft(req, est), est).Ok?
            <==> SourcesListed(req) && AllBacked(req, Scan(true, tail + "."))
  {
    SoleRetained(req, f, est);
    DottedRuleAcceptedIff(req, est);
    var rest := " " + (tail + ".");
    assert Shown(f.value, true) == head + rest && rest[1..] == tail + ".";
    HeadWord(f.value, head, " " + tail);
    HeadWord(head + rest, head, rest);
    RunStops(ValueChars, head, rest);
    MarksKept(head);
    ScanSpace(EndsWord(head), rest);
    assert Backed(req, (f.key, head));
  }

  // A value whose second word looks like an assertion is read as an invented fact.
  lemma SecondWordFails(req: Request, f: Fact, first: Pair, second: Pair, est: Estimate)
    requires SoleFact(req, f, est) && Plain(first) && Plain(second) && first != second
    requires f.key == first.0 && f.value == first.1 + (" " + Assertion(second))
    ensures Validate(req, RuleDraft(req, est), est).Err?
  {
    SoleTailAcceptedIff(req, f, first.1, Assertion(second), est);
    PlainToken(second.1);
    ReadPairToken(second, true);
    SecondUnbacked(req, f, first, second);
  }

  lemma SecondUnbacked(req: Request, f: Fact, first: Pair, second: Pair)
    requires req.facts == [f] && Plain(first) && Plain(second) && first != second
    requires f.key == first.0 && f.value == first.1 + (" " + Assertion(second))
    ensures !Backed(req, second)
  {
    assert f.value[|first.1|] == ' ';
    assert f.value != second.1;
    HeadWord(f.value, first.1, " " + Assertion(second));
  }

  // A first word with a mark at its end, or a comma behind or inside it, is not read as it stands.
  lemma UncleanWordFails(req: Request, f: Fact, est: Estimate)
    requires SoleFact(req, f, est) && DottedKey(f.key) && Quiet(f.value)
    requires var w := Head(f.value); w != "" && In(ValueChars, w[0]) && !CleanWord(w)
    ensures Validate(req, RuleDraft(req, est), est).Err?
  {
    SoleRetained(req, f, est);
    SingleRuleAcceptedIff(req, est);
  }

  // So a value that ends with a mark fails: the scan strips the mark off.
  lemma TrailingMarkFails(req: Request, f: Fact, p: Pair, est: Estimate)
    requires SoleFact(req, f, est) && Plain(p) && f.key == p.0 && f.value == p.1 + "."
    ensures Validate(req, RuleDraft(req, est), est).Err?
  {
    SoleRetained(req, f, est);
    SoleHead(f.value, p.1);
    UncleanWordFails(req, f, est);
  }

  lemma SoleHead(value: string, v: string)
    requires value == v + "." && CleanWord(v)
    ensures Head(value) == value && AllIn(ValueChars, value) && Quiet(value)
  {
    assert forall i | 0 <= i < |v| :: In(ValueChars, v[i]);
    assert value + "" == value;
    WordThenRest(value, "");
    RunStops(ValueChars, value, "");
  }

  // And so does one whose first word is followed by a comma.
  lemma CommaFails(req: Request, f: Fact, p: Pair, tail: string, est: Estimate)
    requires SoleFact(req, f, est) && Plain(p) && f.key == p.0 && '=' !in tail
    requires f.value == (p.1 + ",") + (" " + tail)
    ensures Validate(req, RuleDraft(req, est), est).Err?
  {
    CommaHead(f.value, p.1, tail);
    UncleanWordFails(req, f, est);
  }

  lemma CommaHead(value: string, v: string, tail: string)
    requires value == (v + ",") + (" " + tail) && CleanWord(v) && '=' !in tail
    ensures Head(value) == v + "," && Quiet(value)
  {
    assert forall i | 0 <= i < |v| :: In(ValueChars, v[i]);
    WordThenRest(v + ",", " " + tail);
    assert value == v + ("," + (" " + tail));
    RunStops(ValueChars, v, "," + (" " + tail));
  }
}
