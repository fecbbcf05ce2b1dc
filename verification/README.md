# MemTrace memory core: a verified model

This project models the parts of the MemTrace API in which state is kept by protocol rather than by a
database transaction, and proves what those protocols promise. The main statements are for all inputs, all
runs, or all reachable states; where a promise fails, lemmas name inputs on which it does and say exactly
when it holds. Nothing was executed.

## What it models

**Candidate buffer.** `RedisBuffer` is the Redis store with the commands the buffer issues, its three Lua
scripts (append, detach by `RENAME`, restore by the two push loops) and the pop loop of a drain;
`DrainProtocol` is the same buffer as a step system with any number of concurrent drains that may fail at
any pop, validation or delete. `CandidateBuffer` is the in-process dictionary of lists, and
`FifoRefinement` relates the two. `Base64Url` and `KeyNames` cover the key segments and the printed key
names; `Jwt` uses the same codec for HS256 tokens.

**Reconciliation and lifecycle.** `Memory`, `KeyOntology` and `ConflictPolicy` hold the records, the key
table and the adjudication policy. `Resolver` is the value-level specification of one write,
`ResolveInPlace` the imperative resolver that assigns fields of mutable items, and `WritePath` lists,
resolves and persists; `ResolveOutcome` says what that makes of each stored memory, field by field.
`MemoryStore` is the repository as a map from id to memory, `Repository` the class
with compare-and-set transitions. `Lifecycle`, `Sweeps` (with `Retention`), `Dedup` (with `DedupOutcome`), `Adjudication`,
`ConflictDetection` and `ConflictScan` are the operations that change rows afterwards; `Lineage`,
`MemoryRuns` and `StreamBatch` hold the facts that span them.

**Timed admission.** `Admission` has the TTL store, the acquire / execute / release-on-failure protocol and
its traces; `Quota` has the fixed-window counters.

**Sampling.** `Sampler` has the full-parse and the bounded-memory stratified samplers.

**Summaries.** `AssertionScan` is the scan for key=value assertions in prose, `SummaryText` has the rendering,
the truncation and what is read back from both; `Summarizer` has the fact deduplication, the validator and
the rule provider.

`Prelude`, `Text`, `Ordering`, `Tables`, `Totals`, `Events` and `ConflictTable` are shared vocabulary.

## Where the code does not do what one might expect

These are theorems of the model, each with the exact condition where one exists.

- A drain over several workspaces drops what it drained before the workspace that fails; nothing is lost
  exactly when the earlier queues were empty (`RedisBuffer.FailedSessionDrainKeepsAll`).
- Streaming writes and the batch decision agree exactly when one rival alone has the strongest signal, or the
  strongest are even in number and what was written after the last of them leaves nothing active by the
  same rule; two tied memories followed by a weaker one leave the weaker one active
  (`StreamBatch.StoreAgreesIff`, `StreamBatch.AgreeIff`, `StreamBatch.TieThenWeaker`).
- Unpinning keeps one active value per key exactly when the restored memory does not clash with an active
  one (`MemoryRuns.UnpinKeepsIff`).
- Choosing a winner keeps lineage acyclic exactly when the memory the winner stands for is not among its
  losers; the route does not check this (`Adjudication.ChosenSoundIff`, `Lineage.SupersededWinnerCycles`).
- Negating code points prefers the smaller id exactly when neither id is a prefix of the other
  (`Resolver.NegIdReverses`).
- The bounded-memory sampler agrees with the full one exactly when the questions it may hold reach the limit
  or the whole data; a single long type is cut short (`Sampler.StreamedAgrees`, `Sampler.OneTypeIsCut`).
- A conflict marked as a false positive is opened again by the next scan that still detects it
  (`ConflictScan.FalsePositiveReopened`).
- The rule summarizer can fail its own validator. What decides is what is read from each fact: with dotted
  keys, the token of its value and whatever is asserted behind it; with one value per key and no
  equals sign behind the tokens, that the first word of every value has no comma, backquote or semicolon in
  it and no mark at its ends, or starts with such a separator, and that the value rendered last is not
  blank. So values of several words pass, and a second word that looks like an assertion, a stop at the end
  of the first word, or a comma behind it fails (`Summarizer.UncutRuleAcceptedIff`,
  `Summarizer.DottedRuleAcceptedIff`, `Summarizer.SingleRuleAcceptedIff`, `Summarizer.CutRuleAcceptedIff`,
  `Summarizer.CleanFactsNeverFail`, `Summarizer.SecondWordFails`, `Summarizer.TrailingMarkFails`,
  `Summarizer.CommaFails`).
- The validator's checks of the run, step, event and node ids of retained facts never refuse: once the facts
  are the required ones, their own provenance allows their ids (`Summarizer.VerdictByFields`,
  `Summarizer.KnownFactsPass`).
- An accepted summary that is cut afterwards can assert what nobody stated: a key whose value is cut off
  takes the truncation mark for its value. Of a text without that mark, a prefix of the assertions is left
  exactly when the kept words, after their last assertion, do not end with a key and an equals sign
  (`Summarizer.CutAssertsNotice`, `Summarizer.AcceptedIsExact`, `SummaryText.CutIsPrefixIffNoOpenKey`).
- A high-risk memory escapes decay exactly when it has not expired and its scores are perfect; it then sits
  on the retention threshold, and only quarantine takes it (`Retention.PerfectHighRisk`).
- Beside a running execution a second one of its key can start exactly when the first has overrun its TTL;
  and releasing without an owner lets the late failure of the first free the key under the second
  (`Admission.OverrunBreaksExclusion`, `Admission.LateFailFreesSuccessor`).

## Model

| member | source | states |
|---|---|---|
| `RedisBuffer.Redis.AppendScript` | apps/api/app/memory/redis_candidate_buffer.py:35-63 | Append adds the event at the end of the queue of its session, or of its run when it has none or an empty one, and indexes that queue in all three sets; nothing else changes. |
| `RedisBuffer.AppendLands` | apps/api/app/memory/redis_candidate_buffer.py:35-36 | The queue an event lands in, by its session or its run; every other list is as it was. |
| `RedisBuffer.Redis.DetachScript` | apps/api/app/memory/redis_candidate_buffer.py:103-139 | Detach moves the whole live queue to the draining key, or reports that there is none, and unindexes the queue; the session leaves the global set only with its last workspace. |
| `RedisBuffer.Redis.PushBack` | apps/api/app/memory/redis_candidate_buffer.py:174-176 | Pushing the popped values left in reverse puts them, in order, in front of what was not popped. |
| `RedisBuffer.Redis.MoveBack` | apps/api/app/memory/redis_candidate_buffer.py:177-179 | The RPOP/LPUSH loop empties the draining key and puts its whole content, in order, in front of the live queue. |
| `RedisBuffer.Redis.RestoreScript` | apps/api/app/memory/redis_candidate_buffer.py:155-198 | Restore leaves popped events, then unpopped ones, then events appended meanwhile, and indexes the queue again. |
| `RedisBuffer.Redis.PopLoop` | apps/api/app/memory/redis_candidate_buffer.py:89-98 | The popped values are a prefix of the detached queue and the rest is still there; a value that fails validation counts as popped. |
| `RedisBuffer.Redis.Drain` | apps/api/app/memory/redis_candidate_buffer.py:82-101 | A successful drain returns exactly the queue and removes it; a failed one leaves every list as it was, whatever command failed. |
| `RedisBuffer.Redis.DrainSession` | apps/api/app/memory/redis_candidate_buffer.py:82-101 | Over several workspaces the queues come back one after the other; when one fails, the queues before it are gone. |
| `RedisBuffer.UndoDetach` | apps/api/app/memory/redis_candidate_buffer.py:82-198 | Restoring after any number of pops undoes the detach; popping everything and deleting removes exactly the detached queue. |
| `RedisBuffer.FailedSessionDrainKeepsAll` | apps/api/app/memory/redis_candidate_buffer.py:82-101 | A failing drain over several workspaces loses nothing if and only if the queues drained before the failure were empty. |
| `DrainProtocol.EachEventInOnePlace` | apps/api/app/memory/redis_candidate_buffer.py:41-198 | Under every interleaving, an appended event is in exactly one queue, draining key, drainer's hand, result, or lost with a failed restore, and there once. |
| `DrainProtocol.RunInv` | apps/api/app/memory/redis_candidate_buffer.py:41-198 | Every run keeps conservation, exact indexes, no empty list or set, and drains that hold what they took. |
| `DrainProtocol.LostOnlyByFailedRestore` | apps/api/app/memory/redis_candidate_buffer.py:98-100 | No event is lost in a run in which every restore script succeeds. |
| `DrainProtocol.IndexesAlwaysExact` | apps/api/app/memory/redis_candidate_buffer.py:41-198 | In every reachable state each index lists exactly the non-empty live queues, and the global set exactly the sessions with a non-empty index. |
| `CandidateBuffer.CandidateBuffer.Append` | apps/api/app/memory/candidate_buffer.py:31-38 | The event goes to the end of the queue of its session, or of its run when it has none or an empty one; every other queue is as it was. |
| `CandidateBuffer.AppendLands` | apps/api/app/memory/candidate_buffer.py:31-38 | The same of the dictionary after an append. |
| `CandidateBuffer.CandidateBuffer.Pending` | apps/api/app/memory/candidate_buffer.py:40-46 | The pending events are the session's events of the workspace, in write order, and nothing is removed. |
| `CandidateBuffer.CandidateBuffer.Drain` | apps/api/app/memory/candidate_buffer.py:56-72 | A drain returns the workspace's events in order, keeps the others in order, and drops an emptied session. |
| `CandidateBuffer.AppendQueue` | apps/api/app/memory/candidate_buffer.py:36-38 | Appending extends one workspace's queue at its end and leaves all other queues alone. |
| `CandidateBuffer.DrainQueue` | apps/api/app/memory/candidate_buffer.py:56-72 | Draining empties one workspace's queue and leaves all other queues alone. |
| `FifoRefinement.RedisRefinesFifo` | apps/api/app/memory/redis_candidate_buffer.py:82-198 | With one drainer at a time per queue, every drain returns what the in-process buffer returns, and every queue holds the same events in the same order, failed drains included. |
| `Base64Url.UnsegSeg` | apps/api/app/memory/redis_candidate_buffer.py:15-21 | Decoding with padding to a multiple of four undoes unpadded base64url encoding, for every byte string (section 5 of RFC 4648). |
| `Base64Url.SegInjective` | apps/api/app/memory/redis_candidate_buffer.py:15-21 | Different byte strings have different segments. |
| `Base64Url.AlphabetMeaning` | apps/api/app/memory/redis_candidate_buffer.py:15-21 | The letters are those of the URL-safe alphabet, by number (section 5 of RFC 4648). |
| `Base64Url.BlockMeaning` | apps/api/app/memory/redis_candidate_buffer.py:15-21 | The bytes and the letters of a block are the same 24-bit number; the bits a shorter block lacks are zero (section 4 of RFC 4648). |
| `KeyNames.NameInjective` | apps/api/app/memory/redis_candidate_buffer.py:23-33 | Live, draining and index key names never coincide, and each is injective in its workspace, session and token. |
| `Jwt.VerifyEncoded` | apps/api/app/governance/jwt_auth.py:74-137 | An encoded HS256 token splits into its three parts, and verifies, giving back its claims, exactly under HS256 settings whose secret signs it the same (section 7.1 of RFC 7515). |
| `Jwt.EncodedTokenVerifies` | apps/api/app/governance/jwt_auth.py:125-137 | A token verifies under the secret it was encoded with. |
| `Jwt.VerifyIff` | apps/api/app/governance/jwt_auth.py:74-122 | Any token verifies if and only if it has exactly three parts, HS256 is expected and named in its header, the secret is not empty, the third part decodes to the signature of the first two, and the second to the claims. |
| `Jwt.AsciiMeaning` | apps/api/app/governance/jwt_auth.py:74-122 | The bytes that are signed are the code points of the first two parts. |
| `Admission.TtlStore.Acquire` | apps/api/app/async_tasks/idempotency.py:19-25 | Acquiring succeeds exactly when the key is absent or expired, and then holds it for max(1, ttl) seconds. |
| `Admission.TtlStore.Release` | apps/api/app/async_tasks/lease.py:62-63 | Releasing drops the key, whoever holds it. |
| `Admission.TtlStore.Process` | apps/api/app/async_tasks/tasks.py:75-172 | A task is skipped exactly when its key is held, keeps the key when its work succeeds, and frees it when the work fails or raises. |
| `Admission.OneExecutionPerKey` | apps/api/app/async_tasks/tasks.py:75-172 | If every execution ends within its TTL, executions of one key never overlap, and after a completed one none starts before its time is up. |
| `Admission.AfterTheEnd` | apps/api/app/async_tasks/tasks.py:105-106 | A failed execution frees the key at once; a completed one keeps it exactly until max(1, ttl) seconds past its start. |
| `Admission.OverrunBreaksExclusion` | apps/api/app/async_tasks/idempotency.py:19-25 | In every state that in-time runs reach, a second execution of a running one's key can start at a given time if and only if the first has overrun its TTL by then. |
| `Admission.LateFailFreesSuccessor` | apps/api/app/async_tasks/lease.py:54-63 | The late failure of an overrun execution lets a third start beside its successor at once; without it the third is refused until the successor's time is up. |
| `Quota.QuotaService.Check` | apps/api/app/governance/quota.py:86-102 | A call is let through exactly when it is among the first `limit` calls of its subject in its window. |
| `Quota.WindowAdmits` | apps/api/app/governance/quota.py:26-32 | Each window admits exactly the smaller of its calls and the limit. |
| `Quota.IntervalAdmits` | apps/api/app/governance/quota.py:86-102 | Any half-open interval as long as a window admits at most twice the limit. |
| `Quota.BoundIsMet` | apps/api/app/governance/quota.py:86-102 | That bound is met around a window boundary, for every limit and every width above one. |
| `Quota.NarrowAdmits` | apps/api/app/governance/quota.py:26-32 | With a width of one second or less, an interval of that length admits at most the limit. |
| `Quota.CounterKeysDiffer` | apps/api/app/governance/quota.py:91 | For ids without colons, two checks share a counter exactly when workspace, principal, unit and window agree. |
| `Sampler.StratifiedSample` | apps/api/app/benchmark/longmemeval_bench.py:148-163 | The full-parse method returns the round-robin selection over the type-sorted buckets. |
| `Sampler.StreamStratified` | apps/api/app/benchmark/longmemeval_bench.py:111-141 | The streaming method returns the same selection over buckets that stop growing at their cap. |
| `Sampler.ParsedIsStratified` | apps/api/app/benchmark/longmemeval_bench.py:148-163 | The full sampler returns min(limit, size) questions: of each type the first ones in their order, none more often than the data has it, and counts per type that differ by at most one unless the smaller type is exhausted. |
| `Sampler.StreamedAgrees` | apps/api/app/benchmark/longmemeval_bench.py:111-163 | Both samplers return the same list if and only if the capped buckets reach the limit or hold all data. |
| `Sampler.StreamedIsPrefix` | apps/api/app/benchmark/longmemeval_bench.py:111-141 | The streamed list is always the beginning of the full one, as long as the capped buckets reach. |
| `Sampler.StreamKeeps` | apps/api/app/benchmark/longmemeval_bench.py:126-127 | Every returned question is one of the items and satisfies the filter. |
| `Sampler.KeptPlaces` | apps/api/app/benchmark/longmemeval_bench.py:125-127 | What is sampled from are all the items the filter admits, in their order. |
| `Sampler.BucketByKind` | apps/api/app/benchmark/longmemeval_bench.py:128 | A bucket holds the questions of its type in order; a question without a type is of type "other". |
| `Sampler.DealtInRounds` | apps/api/app/benchmark/longmemeval_bench.py:153-162 | Of two returned questions the earlier one has the earlier turn within its type, or the same turn and the smaller type. |
| `Sampler.FourTypesSuffice` | apps/api/app/benchmark/longmemeval_bench.py:122 | On data with four types of at least the quarter share each, both samplers return the same list. |
| `Sampler.OneTypeIsCut` | apps/api/app/benchmark/longmemeval_bench.py:111-141 | A hundred questions of one type and a limit of fifty give sixteen. |
| `KeyOntology.CanonicalIgnoresFlags` | apps/api/app/memory/key_ontology.py:183-218 | The canonical key does not depend on the free-form flag or the key pattern's verdict. |
| `KeyOntology.CanonicalIdempotent` | apps/api/app/memory/key_ontology.py:215-218 | Canonicalising twice changes nothing. |
| `KeyOntology.SameIdentitySameCardinality` | apps/api/app/memory/key_ontology.py:221-229 | Keys with one canonical form are single-valued together. |
| `KeyOntology.AliasResolved` | apps/api/app/memory/key_ontology.py:161-185 | Every alias in the table has the canonical key of its entry. |
| `KeyOntology.KnownAliases` | apps/api/app/memory/key_ontology.py:50-77 | The four aliases of the table and their keys. |
| `KeyOntology.KeyResolved` | apps/api/app/memory/key_ontology.py:183-188 | Every key in the table is its own canonical key. |
| `KeyOntology.OtherKeys` | apps/api/app/memory/key_ontology.py:183-205 | Text that is neither a key nor an alias is its own canonical key, and may hold any number of values. |
| `KeyOntology.SingleKeys` | apps/api/app/memory/key_ontology.py:225-229 | A key is single-valued if and only if its canonical key is one of eight. |
| `KeyOntology.CleanMeaning` | apps/api/app/memory/key_ontology.py:183-185 | Keys are taken without white space at the ends, in small letters. |
| `Memory.NormMeaning` | apps/api/app/memory/resolver.py:40-42 | Values are compared without white space at the ends, in small letters; no value is an empty one. |
| `ConflictPolicy.OrderIndependent` | apps/api/app/memory/conflict_policy.py:145-207 | The decision depends on the candidates, not on their order. |
| `ConflictPolicy.DecidedByFields` | apps/api/app/memory/conflict_policy.py:76-207 | A candidate wins if and only if it is ahead of each other one on the first field on which they differ (user correction, lasting type, branch, start of validity, trust, update); who is superseded or conflicted, likewise; both lists sorted. |
| `ConflictPolicy.RuleByFields` | apps/api/app/memory/conflict_policy.py:109-142 | The named rule is the first field on which the winner differs from a runner-up that no other candidate outranks. |
| `ConflictPolicy.UncertainIff` | apps/api/app/memory/conflict_policy.py:145-165 | The rule is "uncertain" if and only if nobody wins; a sole candidate wins by the last rule. |
| `ConflictPolicy.OutranksMeaning` | apps/api/app/memory/conflict_policy.py:76-119 | Comparing signals is comparing those fields in that order. |
| `ConflictPolicy.DecisionMeaning` | apps/api/app/memory/conflict_policy.py:145-207 | A winner is exactly a candidate whose signal beats all others; superseded ones are exactly those beaten by someone; conflicted ones exactly the unbeaten ones when nobody wins. |
| `ConflictPolicy.SuccessorMeaning` | apps/api/app/memory/conflict_policy.py:187-207 | Without a winner the losers' anchor is the least conflicted id, and every id reported belongs to a candidate. |
| `ConflictPolicy.Partition` | apps/api/app/memory/conflict_policy.py:145-207 | Every candidate is winner, superseded or conflicted, and just one of these, once. |
| `ConflictPolicy.RuleMeaning` | apps/api/app/memory/conflict_policy.py:109-142 | The named rule is the first in priority on which winner and strongest loser differ, so the fallback is unreachable for a unique winner of several. |
| `Resolver.NegIdReverses` | apps/api/app/memory/resolver.py:89-91 | Negated code points reverse the id order exactly when neither id is a prefix of the other. |
| `Resolver.RepresentativeIsBest` | apps/api/app/memory/resolver.py:67-79 | No memory with the value ranks above the representative by trust, importance, confidence, earlier creation, then id. |
| `Resolver.CollectSourcesMeaning` | apps/api/app/memory/resolver.py:57-64 | The merged provenance has every non-empty source of the group exactly once and nothing else. |
| `Resolver.MergeOutcome` | apps/api/app/memory/resolver.py:107-124 | A value that is already held adds no row: its representative takes over all sources and best scores, its duplicates are retired in its favour. |
| `Resolver.CoexistOutcome` | apps/api/app/memory/resolver.py:125-130 | Different values of a multi-valued key coexist: no other row changes and a new value is added as it came. |
| `Resolver.SettledFate` | apps/api/app/memory/resolver.py:134-149 | After a clash the candidate that beats all others is left alone; any other is conflicted, or retired in favour of a candidate that is not retired itself. |
| `Resolver.MaxOfMeaning` | apps/api/app/memory/resolver.py:111-114 | The merged scores are the group's maxima. |
| `ResolveOutcome.MergeByFields` | apps/api/app/memory/resolver.py:67-124 | A value already held adds nothing: the most trusted, important, confident, oldest memory with it (then by id) takes the best of each score and every source of the group, the incoming memory included, keeps all else but key and time, and the others are superseded by it. |
| `ResolveOutcome.MergedScores` | apps/api/app/memory/resolver.py:111-114 | Clash or no clash, the survivor's confidence, importance, trust and value score are each at least those of every member of the group and those of some member. |
| `ResolveOutcome.RepresentativePreferred` | apps/api/app/memory/resolver.py:67-91 | The representative comes before every other member by trust, importance, confidence, age, and id by code points. |
| `ResolveOutcome.ClashIff` | apps/api/app/memory/resolver.py:125-134 | There is a clash if and only if the key holds one value and an existing memory has another one. |
| `ResolveOutcome.ClashWon` | apps/api/app/memory/resolver.py:134-149 | The rival that outranks all the others stands with the canonical key, and every other one is superseded by it. |
| `ResolveOutcome.ClashTied` | apps/api/app/memory/resolver.py:134-149 | Without such a rival those that nobody outranks are conflicted, and the others are superseded by the one of them with the least id. |
| `ResolveOutcome.ListedByFields` | apps/api/app/memory/resolver.py:94-105 | A write looks at the active memories of the workspace, the scope and the canonical key. |
| `ResolveOutcome.WriteFrame` | apps/api/app/memory/resolver.py:94-155 | Every other stored memory is as it was. |
| `ResolveInPlace.PickRepresentative` | apps/api/app/memory/resolver.py:67-79 | The loop picks the representative the specification names. |
| `ResolveInPlace.CollectProvenance` | apps/api/app/memory/resolver.py:57-64 | The nested loops compute the specified union of provenance. |
| `ResolveInPlace.Resolve` | apps/api/app/memory/resolver.py:94-155 | After the in-place assignments every existing item has the row the plan gives it, the incoming one is added exactly when nothing was merged, and items outside `updates` are untouched. |
| `WritePath.SameIdentityActives` | apps/api/app/runtime/memory_runtime.py:1123-1139 | The listing has exactly the active memories with the same workspace, canonical key and scope, once each. |
| `WritePath.ResolveAndPersist` | apps/api/app/runtime/memory_runtime.py:1105-1121 | Listing, resolving and persisting change the repository exactly as the specification of a write says. |
| `MemoryStore.WriteRestores` | apps/api/app/memory/resolver.py:94-155 | From any state, a write leaves at most one active memory of a single-valued identity and at most one with the incoming value. |
| `MemoryStore.WriteKeeps` | apps/api/app/memory/resolver.py:94-155 | A write keeps at most one active memory per single-valued identity and different active values per multi-valued one. |
| `MemoryRuns.WriteMovesAllowed` | apps/api/app/memory/lifecycle.py:67-74 | Every status change a write makes is one the lifecycle allows from the old status. |
| `MemoryRuns.RunKeepsOne` | apps/api/app/memory/lifecycle.py:23-74 | Over any run of writes, lifecycle steps other than unpin, adjudications, dedup and retention sweeps, every state keeps one active value per identity. |
| `MemoryRuns.SweepKeepsOne` | apps/api/app/memory/scheduler.py:49-140 | So do the retention sweeps. |
| `MemoryRuns.DedupKeepsOne` | apps/api/app/memory/scheduler.py:207-272 | So does dedup. |
| `MemoryRuns.UnpinKeepsIff` | apps/api/app/memory/lifecycle.py:58-65 | Unpinning keeps it if and only if the memory does not return active against an active clash. |
| `MemoryRuns.RunKeepsSound` | apps/api/app/memory/resolver.py:118-149 | Over any run of writes of active memories, dedup and retention sweeps, adjudications with a standing winner, and lifecycle steps that do not supersede by hand, superseded-by links stay sound. |
| `Lineage.NoCycle` | apps/api/app/memory/resolver.py:118-149 | Sound links never return to a memory they left. |
| `Lineage.WalkToRoot` | apps/api/app/memory/resolver.py:118-149 | From every memory the links lead to one that is not superseded. |
| `Lineage.WriteSound` | apps/api/app/memory/resolver.py:118-149 | A write keeps the links sound, although the merge survivor may be retired by the clash in the same write. |
| `Lineage.RetireSoundIff` | apps/api/app/api/admin_routes.py:551-571 | Retiring members for a winner is sound if and only if the end of the winner's chain is none of them. |
| `Lineage.SupersededWinnerCycles` | apps/api/app/api/admin_routes.py:536-545 | Choosing a superseded winner over its own successor closes a cycle. |
| `StreamBatch.StreamLeaves` | apps/api/app/memory/resolver.py:94-155 | Writing rivals one at a time leaves the survivor that the signals determine as the only active memory, or none after a last tie. |
| `StreamBatch.StreamingEqualsBatch` | apps/api/app/memory/conflict_policy.py:145-185 | If the batch decision names a winner, streaming in any order leaves exactly that memory active. |
| `StreamBatch.AgreeIff` | apps/api/app/memory/conflict_policy.py:145-207 | Streaming and batch agree if and only if there are no rivals, one alone is the strongest, or the strongest are even in number and so, again and again, are the strongest of those after the last of them. |
| `StreamBatch.EndsEmptyIff` | apps/api/app/memory/resolver.py:134-149 | Those even counts, level by level, are exactly when a stream leaves no memory active. |
| `StreamBatch.StoreAgreesIff` | apps/api/app/memory/resolver.py:94-155 | After a stream, the store's active memories of the identity are the batch's winner, or none without one, if and only if the same condition holds. |
| `StreamBatch.TieThenWeaker` | apps/api/app/memory/resolver.py:130-149 | Two tied memories and then a weaker one: the weaker one is active, the batch is uncertain. |
| `StreamBatch.LosersClimb` | apps/api/app/memory/resolver.py:135-140 | With pairwise different signals, every loser's superseded-by links climb strictly in signal to the survivor. |
| `StreamBatch.StreamedWinner` | apps/api/app/memory/resolver.py:94-155 | With pairwise different signals, streaming in any order leaves exactly the batch's winner active, and every loser's links climb to it. |
| `Lifecycle.ChangesAreEdges` | apps/api/app/memory/lifecycle.py:10-74 | The effective status changes exactly along seven edges, towards the requested status, and never while pinned. |
| `Lifecycle.PathForward` | apps/api/app/memory/lifecycle.py:23-74 | With pinned read as the status it was pinned from, any run of transitions only moves strictly forward. |
| `Lifecycle.NoStatusReentered` | apps/api/app/memory/lifecycle.py:23-74 | No status is left and entered again. |
| `Lifecycle.AtMostThreeChanges` | apps/api/app/memory/lifecycle.py:10-20 | A run makes at most three real status changes. |
| `Lifecycle.PinUnpin` | apps/api/app/memory/lifecycle.py:43-65 | Pin then unpin gives back the status and changes only metadata and time. |
| `Lifecycle.AuditsChain` | apps/api/app/memory/lifecycle.py:77-95 | The audits of a run form an unbroken chain from the initial to the current status. |
| `Repository.MemoryRepository.TransitionWithAudit` | apps/api/app/runtime/repository.py:553-595 | A compare-and-set on the old status: refused when the row is missing or stale, else status, metadata, successor and time are replaced and the audit is kept. |
| `Repository.MemoryRepository.ListMemories` | apps/api/app/runtime/repository.py:597-611 | The listing has all memories of the workspace, once each, oldest first. |
| `Repository.MemoryRepository.UpdateMemory` | apps/api/app/runtime/repository.py:437-466 | An update replaces the row but for its access counters, and its lifecycle fields when it would re-activate it. |
| `Repository.UpdateNeverReactivates` | apps/api/app/runtime/repository.py:96-105 | A stale update cannot make a retired memory active; it keeps the stored access counters, and the lifecycle fields where it would re-activate, and takes everything else. |
| `Repository.TransitionStored` | apps/api/app/runtime/repository.py:553-595 | A lifecycle transition, with any successor, is stored in full, although only four fields are written. |
| `Retention.WeightOrder` | apps/api/app/memory/retention.py:40 | Value weighs most, then trust, freshness, usage and recency, and no component ever counts against a memory. |
| `Retention.ScoreBounds` | apps/api/app/memory/retention.py:31-47 | Scores stay within the unit interval without the final clamp; an expired memory is below the threshold, a high-risk one at most on it. |
| `Retention.ScoresByFields` | apps/api/app/memory/retention.py:23-47 | Both scores as weighted sums of the memory's fields, cut to a tenth when it has expired and to a quarter when it is risky. |
| `Retention.LowByFields` | apps/api/app/memory/retention.py:31-47 | A memory is due if and only if it has expired, or is risky without perfect scores, or is neither and 6 value + 4 freshness + 5 trust + 3 usage + 2 recency stays below 5. |
| `Retention.ValueAloneKeeps` | apps/api/app/memory/retention.py:40 | Full value alone keeps an ordinary memory. |
| `Retention.FreshnessAloneFades` | apps/api/app/memory/retention.py:40 | Full freshness alone does not. |
| `Retention.PerfectHighRisk` | apps/api/app/memory/retention.py:31-47 | A high-risk memory is not due for decay if and only if it is unexpired, with value, freshness and trust full, ten accesses, and the last of them now; it then scores exactly the threshold. |
| `Sweeps.Run` | apps/api/app/memory/scheduler.py:49-140 | Each sweep changes exactly the memories of the workspace that are due, writes their audits in listing order, and counts them. |
| `Sweeps.SweptByFields` | apps/api/app/memory/scheduler.py:49-140 | Decay takes exactly the active memories of the workspace that are due, archive the active and dormant ones, quarantine the active risky ones; nothing but status and time changes. |
| `Sweeps.ArchiveOne` | apps/api/app/memory/scheduler.py:74-114 | Archiving takes an active memory through dormant with two audits, a dormant one with one, and leaves pinned ones alone. |
| `Sweeps.DecayThenArchiveStore` | apps/api/app/memory/scheduler.py:49-114 | For one fixed time, decay then archive leaves the same store as archive alone. |
| `Sweeps.SameAudits` | apps/api/app/memory/scheduler.py:49-114 | And every memory gets the same audits, whatever order the listings have. |
| `Sweeps.SweepIsFixedPoint` | apps/api/app/memory/scheduler.py:49-140 | A second sweep at the same time changes nothing. |
| `Sweeps.AfterAllSweeps` | apps/api/app/memory/scheduler.py:49-140 | After decay, archive and quarantine no active memory is expired, high-risk or below 0.25, and pinned memories are untouched. |
| `Dedup.DedupMemory` | apps/api/app/memory/scheduler.py:207-272 | Of each group of eligible memories the least by the sort key stays and the others point at it, with one kind of audit per pair; a dry run changes nothing and reports the same pairs. |
| `Dedup.OneSurvivor` | apps/api/app/memory/scheduler.py:404-405 | A group has one survivor, whatever order it is listed in. |
| `DedupOutcome.DedupedByFields` | apps/api/app/memory/scheduler.py:207-272 | A memory is left alone unless it may be deduped and has a twin ranked before it; then it is superseded by the first of its twins, which is left as it is. |
| `DedupOutcome.SurvivesMeaning` | apps/api/app/memory/scheduler.py:404-405 | The survivor of a group is at least as trusted as every other member, on equal trust as confident, then as much used, then no younger, then of the smaller id by code points. |
| `DedupOutcome.EligibleMeaning` | apps/api/app/memory/scheduler.py:408-422 | Only active memories with a key and a value are deduped, with nothing secret, redacted or secret-like about them. |
| `DedupOutcome.SecretLikeMeaning` | apps/api/app/memory/secrets.py:31-50 | A key is secret-like if and only if one of the terms stands in it, in any letter case, dashes counting as underscores. |
| `Dedup.OneActivePerGroup` | apps/api/app/memory/scheduler.py:234-261 | Afterwards the survivor is untouched, every other member is superseded by it, and no other memory has changed. |
| `Dedup.SecondRunFindsNone` | apps/api/app/memory/scheduler.py:207-272 | A second run finds no pairs. |
| `Dedup.PairBreaksInvariant` | apps/api/app/memory/scheduler.py:207-272 | A pair is only ever found in a store that breaks one active value per identity, so never in one built by writes. |
| `Dedup.DedupSound` | apps/api/app/memory/scheduler.py:234-261 | Dedup keeps superseded-by links sound. |
| `Adjudication.ResolveConflict` | apps/api/app/api/admin_routes.py:484-576 | A refusal changes nothing; a false positive touches only the conflict; otherwise every standing loser is retired for the winner, each with its audit, and the conflict is closed. |
| `Adjudication.PlanLosers` | apps/api/app/api/admin_routes.py:551-568 | Planning succeeds exactly when every standing loser can become superseded, and writes nothing. |
| `Adjudication.ChoiceByFields` | apps/api/app/api/admin_routes.py:536-568 | A chosen winner is taken if and only if it is a member, a memory of the conflict's workspace, and all standing others are active or conflicted; the first condition to fail is the refusal. |
| `Adjudication.SuggestionByFields` | apps/api/app/api/admin_routes.py:523-568 | The suggestion is the standing member that outranks all the others, under the same conditions, and uncertain if and only if there is none. |
| `Adjudication.OnlyWinnerStands` | apps/api/app/api/admin_routes.py:551-571 | Afterwards the winner is as it was, every other member is superseded, newly retired ones point at the winner, and no other memory has changed. |
| `Adjudication.SuggestionExists` | apps/api/app/api/admin_routes.py:523-535 | A suggestion exists exactly when one standing member beats all the others. |
| `Adjudication.SuggestedSound` | apps/api/app/api/admin_routes.py:523-571 | Applying the suggestion always keeps lineage sound. |
| `Adjudication.ChosenSoundIff` | apps/api/app/api/admin_routes.py:536-571 | Choosing a winner keeps it sound if and only if the memory the winner stands for is not another member of the conflict. |
| `ConflictDetection.DetectMemoryConflicts` | apps/api/app/memory/conflicts.py:65-109 | Exactly the single-valued topics whose live members disagree are reported, one record each. |
| `ConflictDetection.ContradictionReported` | apps/api/app/memory/conflicts.py:65-109 | Any two live memories, active or conflicted, of one single-valued key and scope with different values are reported in one open record. |
| `ConflictDetection.ReportedContradiction` | apps/api/app/memory/conflicts.py:65-109 | Every record has two such members, and lists exactly the live memories of their key and scope. |
| `ConflictDetection.TopicsApart` | apps/api/app/memory/conflicts.py:92-97 | Different topics never share a conflict id, although the scope is not part of it. |
| `ConflictDetection.ReportByMembers` | apps/api/app/memory/conflicts.py:65-109 | The report does not depend on the order of the listing. |
| `ConflictDetection.RecordIds` | apps/api/app/memory/conflicts.py:88-92 | A record lists every live member of its topic once, in id order. |
| `ConflictDetection.ReportedHasConflicted` | apps/api/app/memory/conflicts.py:65-109 | In a store with one active value per identity every reported group contains a conflicted memory. |
| `ConflictScan.ListAllConflicts` | apps/api/app/memory/scheduler.py:425-445 | The paging loop returns the full listing for any page size. |
| `ConflictScan.OneListing` | apps/api/app/runtime/repository.py:722-742 | A listing ordered by creation time and id is determined by its rows, so pages of repeated queries fit together. |
| `ConflictScan.Scan` | apps/api/app/memory/scheduler.py:163-204 | The scan writes exactly the specified table: reported rows opened or kept, stale rows it owns closed. |
| `ConflictScan.ScannedByFields` | apps/api/app/memory/scheduler.py:163-204 | What is found ends open, with its old creation time where it was open already; what the scan owned and did not find again is closed as stale; every other row is as it was. |
| `ConflictScan.RowsListDistinctMembers` | apps/api/app/memory/conflicts.py:92 | Every row a scan writes lists each member once, which adjudication relies on. |
| `ConflictScan.OpenRowsAreReported` | apps/api/app/memory/scheduler.py:163-204 | Afterwards the open rows it owns are exactly those reported, kept rows keep their creation time, and other rows are untouched. |
| `ConflictScan.ScanIsFixedPoint` | apps/api/app/memory/scheduler.py:163-204 | A repeat scan of the same memories leaves the table exactly as it is. |
| `ConflictScan.FalsePositiveReopened` | apps/api/app/memory/scheduler.py:182-187 | A false positive that is still detected is opened again. |
| `AssertionScan.SummaryFactKeys` | apps/api/app/memory/summarizer_provider.py:363-368 | The loop returns exactly the pairs of all matches, left to right. |
| `AssertionScan.MatchIffSplits` | apps/api/app/memory/summarizer_provider.py:360 | The greedy reading finds a match exactly when the text splits into the parts of the pattern at all. |
| `AssertionScan.ScanNothing` | apps/api/app/memory/summarizer_provider.py:360-368 | Nothing is asserted if and only if no match starts anywhere behind a word boundary. |
| `AssertionScan.ScanFirst` | apps/api/app/memory/summarizer_provider.py:360-368 | Otherwise the leftmost match is read first, and the search goes on right behind it. |
| `AssertionScan.PatternCharacters` | apps/api/app/memory/summarizer_provider.py:360-366 | The characters of each class of the pattern, and of the marks that are stripped. |
| `AssertionScan.StripMarksMeaning` | apps/api/app/memory/summarizer_provider.py:366 | Stripping takes the marks off both ends of a value and nothing else. |
| `AssertionScan.ScanBreak` | apps/api/app/memory/summarizer_provider.py:360 | A semicolon separates any two texts: what the whole asserts is what the two assert. |
| `AssertionScan.ScanPrefix` | apps/api/app/memory/summarizer_provider.py:360 | Going on after white space adds assertions and changes none of those before. |
| `AssertionScan.DanglingIff` | apps/api/app/memory/summarizer_provider.py:360 | A key is left waiting for its value exactly when the text behind the last assertion ends with a key and an equals sign. |
| `SummaryText.ScanContentReads` | apps/api/app/memory/summarizer_provider.py:141-146 | Whatever its keys and values, every fact of the rendering is read by itself. |
| `SummaryText.ReadPairDotted` | apps/api/app/memory/summarizer_provider.py:360-368 | From a fact with a dotted key are read the token of its value and what is asserted behind that token. |
| `SummaryText.TokenIsFirstWord` | apps/api/app/memory/summarizer_provider.py:389-402 | The token is the value's first word exactly when that word is free of separators and of marks at its ends, and the whole value only when there is no other word. |
| `SummaryText.ScanContent` | apps/api/app/memory/summarizer_provider.py:141-150 | Scanning the full rendering of plain pairs gives them back, in order. |
| `SummaryText.ScanSummary` | apps/api/app/memory/summarizer_provider.py:122-150 | Scanning the rendering cut to any budget gives a prefix of the pairs, and all of them when nothing was cut. |
| `SummaryText.TruncateSummary` | apps/api/app/memory/summarizer_provider.py:122-138 | The loop keeps the most words that fit with the notice. |
| `SummaryText.TruncateMeaning` | apps/api/app/memory/summarizer_provider.py:122-138 | A text over its budget keeps as many of its first words as fit with the notice, no more than the budget has tokens. |
| `SummaryText.TruncateFits` | apps/api/app/memory/summarizer_provider.py:122-138 | What is left fits the budget if the estimate is at most the text's length. |
| `SummaryText.ScanCut` | apps/api/app/memory/summarizer_provider.py:122-138 | A cut text asserts what its kept words assert, a prefix of what the text asserted, and the truncation mark for a key left waiting. |
| `SummaryText.CutIsPrefixIff` | apps/api/app/memory/summarizer_provider.py:122-138 | What a cut text asserts is a prefix of what the text asserted if and only if no key is left waiting, or the text itself gives that key the mark. |
| `SummaryText.CutIsPrefixIffNoOpenKey` | apps/api/app/memory/summarizer_provider.py:122-138 | For texts without the mark: if and only if the kept words, after their last assertion, do not end with a key and an equals sign. |
| `Summarizer.DedupeFacts` | apps/api/app/memory/summarizer_provider.py:110-119 | The loop keeps the first fact of every identity in sort-key order. |
| `Summarizer.DedupedIdentities` | apps/api/app/memory/summarizer_provider.py:93-119 | Deduplication keeps every identity once and invents none. |
| `Summarizer.RetainedInOrder` | apps/api/app/memory/summarizer_provider.py:106-119 | Retained facts are ordered by key, value, memory and provenance ids. |
| `Summarizer.VerdictByFields` | apps/api/app/memory/summarizer_provider.py:309-419 | The verdict on any draft in the fields of its facts: which check refuses first, and what is handed out otherwise. |
| `Summarizer.KnownFactsPass` | apps/api/app/memory/summarizer_provider.py:309-357 | When the facts are required ones with listed memories, none of their ids is refused. |
| `Summarizer.AcceptedIsExact` | apps/api/app/memory/summarizer_provider.py:371-419 | An accepted summary retains exactly the required identities and sources, is within the budget, and asserted only backed pairs; after a cut it still does if and only if what the mark makes a waiting key assert is backed. |
| `Summarizer.CutAssertsNotice` | apps/api/app/memory/summarizer_provider.py:408-416 | For any dotted key, clean value and long enough word there is a request whose accepted draft, cut to the budget, asserts an unbacked pair. |
| `Summarizer.Summarize` | apps/api/app/memory/summarizer_provider.py:164-182 | The rule provider submits its deduplicated facts and their rendering to the validator. |
| `Summarizer.RuleAcceptedIff` | apps/api/app/memory/summarizer_provider.py:309-419 | Of all the checks the rule provider can fail two: the listing of its facts' memories, and what its own text asserts. |
| `Summarizer.UncutRuleAcceptedIff` | apps/api/app/memory/summarizer_provider.py:141-182 | When nothing is cut: accepted if and only if memories are listed and what is read from each fact by itself is backed. |
| `Summarizer.DottedRuleAcceptedIff` | apps/api/app/memory/summarizer_provider.py:371-405 | With dotted keys: if and only if, for every fact, the token of its value and all that is asserted behind it are backed. |
| `Summarizer.QuietRuleAcceptedIff` | apps/api/app/memory/summarizer_provider.py:371-405 | With no equals sign behind the tokens: if and only if the tokens are backed. |
| `Summarizer.SingleRuleAcceptedIff` | apps/api/app/memory/summarizer_provider.py:389-405 | With one value per key: if and only if every value's first word is free of separators and of marks at its ends or starts with a separator, and the last value is not blank. |
| `Summarizer.CutRuleAcceptedIff` | apps/api/app/memory/summarizer_provider.py:122-182 | When the text is cut: if and only if the readings within the kept words are backed, and what the mark makes a waiting key assert. |
| `Summarizer.NoBudgetAcceptedIff` | apps/api/app/memory/summarizer_provider.py:122-124 | Without a budget: if and only if memories are listed. |
| `Summarizer.SnugNeverFails` | apps/api/app/memory/summarizer_provider.py:122-182 | Facts whose values have no white space in front or right behind an equals sign are accepted for every budget if they are accepted uncut. |
| `Summarizer.CleanFactsNeverFail` | apps/api/app/memory/summarizer_provider.py:389-402 | With listed memories the rule provider never fails on values of one or more words, the first clean and the others without an equals sign, for any budget and estimate. |
| `Summarizer.WordsAreClean` | apps/api/app/memory/summarizer_provider.py:389-402 | A clean word, alone or followed by other words, is such a value. |
| `Summarizer.RuleTextReadsBack` | apps/api/app/memory/summarizer_provider.py:141-182 | For dotted keys and values of one clean word, scanning the rule text gives back the facts, or the first few when cut. |
| `Summarizer.RuleNeverFails` | apps/api/app/memory/summarizer_provider.py:164-182 | With such facts and listed memories the rule provider never fails its own validator. |
| `Summarizer.SoleTailAcceptedIff` | apps/api/app/memory/summarizer_provider.py:371-405 | A sole value behind whose clean first word there are others is accepted if and only if what the others assert is backed. |
| `Summarizer.SecondWordFails` | apps/api/app/memory/summarizer_provider.py:403-405 | A value whose second word is an assertion makes it fail. |
| `Summarizer.TrailingMarkFails` | apps/api/app/memory/summarizer_provider.py:363-368 | A value that ends with a stop makes it fail. |
| `Summarizer.CommaFails` | apps/api/app/memory/summarizer_provider.py:360-402 | So does a value whose first word is followed by a comma. |

## Left out

- Redis buffer: the branches without `eval`, process crashes that strand a draining key, lost replies, and `pending`, `size` and `sessions` on Redis.
- Redis buffer: index sets hold plain ids instead of their base64url segments; `Base64Url.SegInjective` is why that is the same.
- Bytes are written as four base-4 digits, so that base64 needs no division; alphabet errors are modelled, the decoder's leniency about characters outside the alphabet is not.
- JWT: RS256 and ES256, claim validation, and the internals of JSON, UTF-8 and HMAC, which are given functions.
- Admission.TtlStore.Process: the work of a task is a given outcome; runtime construction and clean-up are not modelled.
- Quota.QuotaService.Check: the lookup of limits, disabled quotas and counter failures are not modelled; one subject stands for workspace, principal and unit.
- Text: lower-casing, stripping and word characters are ASCII only.
- Key ontology: the verdict of the free-form key pattern is a parameter, and wildcard specifications are absent because they change neither canonical key nor cardinality.
- Scores are reals and times integers; six-digit rounding, non-finite floats, memory summaries, embeddings, explanation texts and version records are absent.
- One clock reading stands for all of one call.
- ResolveInPlace.Resolve: `updates` is a set of items, not a list in dictionary order.
- Sweeps.Run: the three sweeps share one method; stale transitions cannot occur without a concurrent writer.
- Dedup.DedupMemory: groups are handled in any order and pairs are a set; the skip counters and value digests are absent, and redaction states and secret-like metadata keys are one flag.
- Adjudication.ResolveConflict: authentication and the admin audit are absent; records list distinct members, as `ConflictScan.RowsListDistinctMembers` shows for scanned ones.
- ConflictDetection.DetectMemoryConflicts: the digest is an injective function given by the caller, and reports are keyed by id instead of sorted.
- The conflict scan on the write path reads only the first hundred rows of the listing and is not modelled.
- Summarizer.Summarize: token counts of blocks and the omitted count are absent; the token estimate is a given function.
- The language-model provider enters only as an arbitrary draft given to the validator.
- Retrieval, extraction, redaction, reindexing, profile and procedural refresh, metrics, the SQL repository, the web layer and the other services: foreign calls, I/O, or members that would be easy.
