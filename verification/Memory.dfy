/**
 Memory items: their statuses, the fields that the reconciliation and the sweeps look at, and the
 identity under which two of them compete for being the active one.
 */
module Memory {
  import opened Prelude
  import opened Text
  import opened KeyOntology

  datatype Status = Active | Dormant | Archived | Superseded | Conflicted | Quarantined | Pinned | Deleted

  datatype Scope = WorkspaceScope | UserScope | SessionScope

  datatype MemoryType = WorkingState | Profile | Project | Episodic | ToolEvidence | Procedural

  datatype BranchStatus = BranchActive | BranchFailed | BranchRolledBack | BranchCompleted

  datatype RiskFlags = RiskFlags(containsSecret: bool, destructive: bool, toolSensitive: bool, production: bool)

  // The entries of the lifecycle metadata that are read somewhere. `previous` is None when the
  // entry is missing or names no status; `withheld` covers the redaction states and secret-like
  // metadata keys that dedup refuses to touch.
  datatype Metadata = Metadata(
    userCorrection: bool,
    validFrom: Option<int>,
    previous: Option<Status>,
    withheld: bool)

  // Scores are reals and timestamps integers; rounding is ignored.
  datatype Memory = Memory(
    id: string,
    workspace: string,
    key: Option<string>,
    value: Option<string>,
    scope: Scope,
    memoryType: MemoryType,
    branch: BranchStatus,
    sources: seq<string>,
    sourceEvent: string,       // empty when the memory names no single source event
    confidence: real,
    importance: real,
    valueScore: real,
    freshness: real,
    trust: real,
    risk: real,
    flags: RiskFlags,
    secret: bool,              // sensitivity == secret
    accessCount: int,
    lastAccessed: Option<int>,
    expiresAt: Option<int>,
    status: Status,
    supersededBy: Option<string>,
    meta: Metadata,
    createdAt: int,
    updatedAt: int)

  function Norm(value: Option<string>): string {
    if value.Some? then Lower(Strip(value.value)) else ""
  }

  // Two memories are about the same thing when they share workspace, canonical key and scope.
  datatype Identity = Identity(workspace: string, key: string, scope: Scope)

  function IdentityOf(m: Memory): Identity
    requires m.key.Some?
  {
    Identity(m.workspace, Canonical(m.key.value), m.scope)
  }

  predicate SameIdentity(a: Memory, b: Memory) {
    a.key.Some? && b.key.Some? && IdentityOf(a) == IdentityOf(b)
  }

  predicate SingleValued(m: Memory) {
    m.key.Some? && IsSingleValued(m.key.value)
  }

  lemma SameIdentitySingle(a: Memory, b: Memory)
    requires SameIdentity(a, b)
    ensures SingleValued(a) <==> SingleValued(b)
  {
    SameIdentitySameCardinality(a.key.value, b.key.value);
  }

  // Values are compared without white space at the ends and without letter case; no value is an empty one.
  lemma NormMeaning(value: string)
    ensures exists i, j :: Folds(value, Norm(Some(value)), i, j)
    ensures Norm(None) == ""
  {
    FoldMeaning(value);
    assert Norm(Some(value)) == Lower(Strip(value));
  }
}
