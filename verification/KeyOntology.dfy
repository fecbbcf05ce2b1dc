/** The key ontology: canonical keys, their aliases and how many values a key may hold. */
module KeyOntology {
  import opened Prelude
  import opened Text

  datatype KeySpec = KeySpec(key: string, single: bool, aliases: seq<string>)

  // The named keys in table order; the "user.preference.*" wildcard names no key by itself.
  const SPECS: seq<KeySpec> := [
    KeySpec("project.runtime", true, ["project.js_runtime", "project.node_runtime"]),
    KeySpec("project.runtime.excluded", false, []),
    KeySpec("project.package_manager", true, ["project.pkg_manager"]),
    KeySpec("project.language", true, ["project.lang"]),
    KeySpec("project.language.excluded", false, []),
    KeySpec("project.database", true, []),
    KeySpec("project.database.excluded", false, []),
    KeySpec("project.test_framework", true, []),
    KeySpec("project.test_command", true, []),
    KeySpec("project.formatting", true, []),
    KeySpec("tool.command.failed", false, []),
    KeySpec("endpoint.current", true, []),
    KeySpec("endpoint.deprecated", false, [])
  ]

  function FindKey(specs: seq<KeySpec>, key: string): Option<KeySpec> {
    if specs == [] then None
    else if specs[0].key == key then Some(specs[0])
    else FindKey(specs[1..], key)
  }

  // The key an alias stands for; other text stands for itself.
  function Unalias(specs: seq<KeySpec>, key: string): string {
    if specs == [] then key
    else if key in specs[0].aliases then specs[0].key
    else Unalias(specs[1..], key)
  }

  function Clean(key: string): string {
    Lower(Strip(key))
  }

  datatype Warning = NoWarning | UnknownKey | UnsafeKey

  datatype Normalization = Normalization(key: string, spec: Option<KeySpec>, freeForm: bool, warning: Warning)

  // `safe` is the verdict of the free-form key pattern on the unaliased key.
  function NormalizeMemoryKey(key: string, freeForm: bool, safe: bool): Normalization {
    var canonical := Unalias(SPECS, Clean(key));
    match FindKey(SPECS, canonical)
    case Some(spec) => Normalization(spec.key, Some(spec), false, NoWarning)
    case None =>
      if !freeForm then Normalization(canonical, None, false, UnknownKey)
      else if !safe then Normalization(canonical, None, false, UnsafeKey)
      else Normalization(canonical, None, true, NoWarning)
  }

  // canonical_memory_key; the pattern's verdict never reaches the key (see CanonicalIgnoresFlags).
  function Canonical(key: string): string {
    NormalizeMemoryKey(key, true, true).key
  }

  predicate IsSingleValued(key: string) {
    var n := NormalizeMemoryKey(key, false, true);
    key != "" && n.spec.Some? && n.spec.value.single
  }

  lemma {:induction false} FoundKey(specs: seq<KeySpec>, key: string)
    ensures FindKey(specs, key).Some? ==> FindKey(specs, key).value.key == key
  {
    if specs != [] {
      FoundKey(specs[1..], key);
    }
  }

  // The canonical key is the unaliased clean key, whatever the free-form flag and pattern say.
  lemma CanonicalIgnoresFlags(key: string, freeForm: bool, safe: bool)
    ensures NormalizeMemoryKey(key, freeForm, safe).key == Canonical(key) == Unalias(SPECS, Clean(key))
    ensures NormalizeMemoryKey(key, freeForm, safe).spec == FindKey(SPECS, Canonical(key))
  {
    FoundKey(SPECS, Unalias(SPECS, Clean(key)));
  }

  // ---- The table is consistent ----

  predicate PlainChar(c: char) {
    'a' <= c <= 'z' || c == '.' || c == '_'
  }

  predicate PlainText(s: string) {
    forall i | 0 <= i < |s| :: PlainChar(s[i])
  }

  lemma TableIsPlain()
    ensures forall i | 0 <= i < |SPECS| :: PlainText(SPECS[i].key)
  {
    forall i | 0 <= i < |SPECS| ensures PlainText(SPECS[i].key) {
      if i < 4 { PlainFront(i); } else if i < 8 { PlainMiddle(i); } else { PlainBack(i); }
    }
  }

  lemma PlainFront(i: nat)
    requires i < 4
    ensures PlainText(SPECS[i].key)
  {
  }

  lemma PlainMiddle(i: nat)
    requires 4 <= i < 8
    ensures PlainText(SPECS[i].key)
  {
  }

  lemma PlainBack(i: nat)
    requires 8 <= i < |SPECS|
    ensures PlainText(SPECS[i].key)
  {
  }

  lemma CleanPlain(s: string)
    requires PlainText(s)
    ensures Clean(s) == s
  {
    StripTrimmed(s);
  }

  predicate NamesNoSpec(alias: string) {
    forall i | 0 <= i < |SPECS| :: SPECS[i].key != alias
  }

  // Each alias differs from every key in its length or in some letter.
  lemma Alias0() ensures NamesNoSpec(SPECS[0].aliases[0]) {
    assert SPECS[0].aliases[0][8] == 'j';
  }

  lemma Alias1() ensures NamesNoSpec(SPECS[0].aliases[1]) {
    assert SPECS[0].aliases[1][8] == 'n';
  }

  lemma Alias2() ensures NamesNoSpec(SPECS[2].aliases[0]) {
    assert SPECS[2].aliases[0][9] == 'k';
  }

  lemma Alias3() ensures NamesNoSpec(SPECS[3].aliases[0]) {
    assert |SPECS[3].aliases[0]| == 12;
  }

  lemma AliasesNameNoSpec()
    ensures forall i, a | 0 <= i < |SPECS| && a in SPECS[i].aliases :: NamesNoSpec(a)
  {
    Alias0();
    Alias1();
    Alias2();
    Alias3();
  }

  lemma {:induction false} UnaliasTarget(specs: seq<KeySpec>, key: string)
    ensures Unalias(specs, key) == key || exists i | 0 <= i < |specs| :: specs[i].key == Unalias(specs, key)
  {
    if specs != [] && key !in specs[0].aliases {
      UnaliasTarget(specs[1..], key);
      if Unalias(specs[1..], key) != key {
        var i :| 0 <= i < |specs[1..]| && specs[1..][i].key == Unalias(specs[1..], key);
        assert specs[i + 1].key == Unalias(specs, key);
      }
    }
  }

  lemma {:induction false} UnaliasNoAlias(specs: seq<KeySpec>, key: string)
    requires forall i | 0 <= i < |specs| :: key !in specs[i].aliases
    ensures Unalias(specs, key) == key
  {
    if specs != [] {
      UnaliasNoAlias(specs[1..], key);
    }
  }

  // What the table guarantees: its keys are clean and not empty, and no key is an alias.
  ghost predicate CleanKeys(specs: seq<KeySpec>) {
    forall i | 0 <= i < |specs| :: specs[i].key != "" && Clean(specs[i].key) == specs[i].key
  }

  ghost predicate NoKeyIsAlias(specs: seq<KeySpec>) {
    forall i, j | 0 <= i < |specs| && 0 <= j < |specs| :: specs[j].key !in specs[i].aliases
  }

  ghost predicate NoEmptyAlias(specs: seq<KeySpec>) {
    forall i | 0 <= i < |specs| :: "" !in specs[i].aliases
  }

  ghost predicate Consistent(specs: seq<KeySpec>) {
    CleanKeys(specs) && NoKeyIsAlias(specs) && NoEmptyAlias(specs)
  }

  lemma TableClean()
    ensures CleanKeys(SPECS)
  {
    TableIsPlain();
    forall i | 0 <= i < |SPECS| ensures Clean(SPECS[i].key) == SPECS[i].key {
      CleanPlain(SPECS[i].key);
    }
  }

  lemma TableAliases()
    ensures NoKeyIsAlias(SPECS)
  {
    AliasesNameNoSpec();
    forall i, j | 0 <= i < |SPECS| && 0 <= j < |SPECS| ensures SPECS[j].key !in SPECS[i].aliases {
      forall a | a in SPECS[i].aliases ensures a != SPECS[j].key {
        assert NamesNoSpec(a);
      }
    }
  }

  lemma TableNoEmptyAlias()
    ensures NoEmptyAlias(SPECS)
  {
  }

  lemma TableConsistent()
    ensures Consistent(SPECS)
  {
    TableClean();
    TableAliases();
    TableNoEmptyAlias();
  }

  lemma CleanTwice(key: string)
    ensures Clean(Clean(key)) == Clean(key)
  {
    StripTrims(key);
    LowerLower(Strip(key));
    StripTrimmed(Clean(key));
  }

  lemma UnaliasTwice(specs: seq<KeySpec>, key: string)
    requires Consistent(specs)
    ensures var k := Unalias(specs, Clean(key)); Unalias(specs, Clean(k)) == k
  {
    var c := Clean(key);
    var k := Unalias(specs, c);
    CleanTwice(key);
    UnaliasTarget(specs, c);
    if k != c {
      var i :| 0 <= i < |specs| && specs[i].key == k;
      UnaliasNoAlias(specs, k);
    }
  }

  lemma {:induction false} NoSpecForEmpty(specs: seq<KeySpec>)
    requires forall i | 0 <= i < |specs| :: specs[i].key != ""
    ensures FindKey(specs, "") == None
  {
    if specs != [] {
      NoSpecForEmpty(specs[1..]);
    }
  }

  lemma EmptyKey(specs: seq<KeySpec>)
    requires Consistent(specs)
    ensures FindKey(specs, Unalias(specs, Clean(""))) == None
  {
    assert Strip("") == "" && Lower("") == "";
    UnaliasNoAlias(specs, "");
    NoSpecForEmpty(specs);
  }

  // Canonicalising twice changes nothing.
  lemma CanonicalIdempotent(key: string)
    ensures Canonical(Canonical(key)) == Canonical(key)
  {
    TableConsistent();
    UnaliasTwice(SPECS, key);
    CanonicalIgnoresFlags(key, true, true);
    CanonicalIgnoresFlags(Canonical(key), true, true);
  }

  // How many values a key may hold is a property of its canonical key.
  lemma SingleValuedByCanonical(key: string)
    ensures var spec := FindKey(SPECS, Canonical(key));
            IsSingleValued(key) <==> spec.Some? && spec.value.single
  {
    CanonicalIgnoresFlags(key, false, true);
    if key == "" {
      TableConsistent();
      EmptyKey(SPECS);
    }
  }

  lemma SameIdentitySameCardinality(left: string, right: string)
    requires Canonical(left) == Canonical(right)
    ensures IsSingleValued(left) <==> IsSingleValued(right)
  {
    SingleValuedByCanonical(left);
    SingleValuedByCanonical(right);
  }

  // ---- What the table says ----

  lemma {:induction false} FindMeaning(specs: seq<KeySpec>, key: string)
    ensures match FindKey(specs, key)
            case None => forall i | 0 <= i < |specs| :: specs[i].key != key
            case Some(spec) => exists i | 0 <= i < |specs| :: specs[i] == spec && spec.key == key
  {
    if specs != [] {
      FindMeaning(specs[1..], key);
      assert forall i | 0 < i < |specs| :: specs[i] == specs[1..][i - 1];
      if specs[0].key != key && FindKey(specs, key).Some? {
        var i :| 0 <= i < |specs[1..]| && specs[1..][i] == FindKey(specs, key).value;
        assert specs[i + 1] == FindKey(specs, key).value;
      }
    }
  }

  // An alias is resolved by the first entry that lists it.
  lemma {:induction false} UnaliasFirst(specs: seq<KeySpec>, alias: string, i: nat)
    requires i < |specs| && alias in specs[i].aliases && forall j | 0 <= j < i :: alias !in specs[j].aliases
    ensures Unalias(specs, alias) == specs[i].key
  {
    if i > 0 { UnaliasFirst(specs[1..], alias, i - 1); }
  }

  // Every alias stands for the key of its entry, and every key for itself.
  lemma AliasResolved(alias: string, i: nat)
    requires i < |SPECS| && alias in SPECS[i].aliases
    ensures Canonical(alias) == SPECS[i].key
  {
    AliasPlace(alias, i);
    CleanPlain(alias);
    UnaliasFirst(SPECS, alias, i);
    CanonicalIgnoresFlags(alias, true, true);
  }

  // Aliases differ in length.
  lemma AliasPlace(alias: string, i: nat)
    requires i < |SPECS| && alias in SPECS[i].aliases
    ensures PlainText(alias) && forall j | 0 <= j < i :: alias !in SPECS[j].aliases
  {
    assert i == 0 ==> |alias| == 18 || |alias| == 20;
    assert i == 2 ==> |alias| == 19;
    assert i == 3 ==> |alias| == 12;
  }

  lemma KeyResolved(i: nat)
    requires i < |SPECS|
    ensures Canonical(SPECS[i].key) == SPECS[i].key
  {
    TableConsistent();
    UnaliasNoAlias(SPECS, SPECS[i].key);
    CanonicalIgnoresFlags(SPECS[i].key, true, true);
  }

  // Any other text, cleaned, is its own canonical key, and holds any number of values.
  lemma OtherKeys(key: string)
    requires forall i | 0 <= i < |SPECS| :: SPECS[i].key != Clean(key) && Clean(key) !in SPECS[i].aliases
    ensures Canonical(key) == Clean(key) && !IsSingleValued(key)
  {
    UnaliasNoAlias(SPECS, Clean(key));
    CanonicalIgnoresFlags(key, true, true);
    SingleValuedByCanonical(key);
    FindMeaning(SPECS, Clean(key));
  }

  // Keys are compared without white space at the ends and without letter case.
  lemma CleanMeaning(key: string)
    ensures exists i, j :: Folds(key, Clean(key), i, j)
  {
    FoldMeaning(key);
    assert Clean(key) == Lower(Strip(key));
  }

  lemma KnownAliases()
    ensures Canonical("project.js_runtime") == Canonical("project.node_runtime") == "project.runtime"
    ensures Canonical("project.pkg_manager") == "project.package_manager"
    ensures Canonical("project.lang") == "project.language"
  {
    AliasResolved(SPECS[0].aliases[0], 0);
    AliasResolved(SPECS[0].aliases[1], 0);
    AliasResolved(SPECS[2].aliases[0], 2);
    AliasResolved(SPECS[3].aliases[0], 3);
  }

  const SINGLE_KEYS: set<string> := {
    "project.runtime", "project.package_manager", "project.language", "project.database",
    "project.test_framework", "project.test_command", "project.formatting", "endpoint.current"
  }

  // The keys with one value.
  lemma SingleKeys(key: string)
    ensures IsSingleValued(key) <==> Canonical(key) in SINGLE_KEYS
  {
    SingleValuedByCanonical(key);
    var k := Canonical(key);
    FindMeaning(SPECS, k);
    forall i | 0 <= i < |SPECS| ensures SPECS[i].single <==> SPECS[i].key in SINGLE_KEYS {
      SingleKey(i);
    }
    if k in SINGLE_KEYS { SingleListed(k); }
  }

  lemma SingleListed(key: string)
    requires key in SINGLE_KEYS
    ensures exists i | 0 <= i < |SPECS| :: SPECS[i].key == key
  {
    assert key == SPECS[0].key || key == SPECS[2].key || key == SPECS[3].key || key == SPECS[5].key
        || key == SPECS[7].key || key == SPECS[8].key || key == SPECS[9].key || key == SPECS[11].key;
  }

  lemma SingleKey(i: nat)
    requires i < |SPECS|
    ensures SPECS[i].single <==> SPECS[i].key in SINGLE_KEYS
  {
    if !SPECS[i].single {
      var k := SPECS[i].key;
      assert |k| == 24 || |k| == 25 || |k| == 19;
    }
  }
}
