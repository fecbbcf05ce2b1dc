/**
 The scan for key=value assertions: \b([A-Za-z][\w.-]*)\s*=\s*([^\s;,`]+), with closing marks stripped
 off the values, on ASCII text.
 */
module AssertionScan {
  import opened Prelude
  import opened Text

  type Pair = (string, string)

  datatype Class = KeyChars | Spaces | ValueChars | WordChars

  predicate Letter(c: char) {
    'a' <= c <= 'z' || 'A' <= c <= 'Z'
  }

  predicate Word(c: char) {
    Letter(c) || '0' <= c <= '9' || c == '_'
  }

  predicate In(cl: Class, c: char) {
    match cl
    case KeyChars => Word(c) || c == '.' || c == '-'
    case Spaces => IsSpace(c)
    case ValueChars => !IsSpace(c) && c != ';' && c != ',' && c != '`'
    case WordChars => !IsSpace(c)
  }

  predicate AllIn(cl: Class, s: string) {
    forall i | 0 <= i < |s| :: In(cl, s[i])
  }

  // The length of the longest prefix within a class.
  function Run(cl: Class, s: string): (n: nat)
    ensures n <= |s|
  {
    if s != "" && In(cl, s[0]) then 1 + Run(cl, s[1..]) else 0
  }

  datatype Hit = Hit(key: string, value: string, rest: string)

  // A match of the pattern that starts with the text; `boundary` says that no word goes on here.
  function MatchHere(boundary: bool, s: string): (h: Option<Hit>)
    ensures h.Some? ==> h.value.value != "" && |h.value.rest| < |s|
  {
    if s == "" || !boundary || !Letter(s[0]) then None
    else Assigned(s[..Run(KeyChars, s)], s[Run(KeyChars, s)..])
  }

  // What follows the key: an equals sign, and a value.
  function Assigned(key: string, after: string): (h: Option<Hit>)
    ensures h.Some? ==> h.value.value != "" && |h.value.rest| < |after|
  {
    var t := StripLeft(after);
    if t == "" || t[0] != '=' then None else Valued(key, StripLeft(t[1..]))
  }

  function Valued(key: string, s: string): (h: Option<Hit>)
    ensures h.Some? ==> h.value.value != "" && |h.value.rest| < |s|
  {
    var w := Run(ValueChars, s);
    if w == 0 then None else Some(Hit(key, s[..w], s[w..]))
  }

  predicate Mark(c: char) {
    || c == '.' || c == '!' || c == '?' || c == ')' || c == ']' || c == '}' || c == '>'
    || c == '\U{3002}' || c == '\U{FF01}' || c == '\U{FF1F}'
  }

  function MarksLeft(s: string): string {
    if s != "" && Mark(s[0]) then MarksLeft(s[1..]) else s
  }

  function MarksRight(s: string): string {
    if s != "" && Mark(s[|s| - 1]) then MarksRight(s[..|s| - 1]) else s
  }

  function StripMarks(s: string): string {
    MarksRight(MarksLeft(s))
  }

  function PairOf(h: Hit): Pair {
    (h.key, StripMarks(h.value))
  }

  // ---- The characters of the pattern ----

  const MARKS := ".!?)]}>\U{3002}\U{FF01}\U{FF1F}"

  lemma PatternCharacters(c: char)
    ensures Letter(c) <==> 65 <= c as int <= 90 || 97 <= c as int <= 122
    ensures Word(c) <==> Letter(c) || 48 <= c as int <= 57 || c == '_'
    ensures In(KeyChars, c) <==> Word(c) || c in ".-"
    ensures In(ValueChars, c) <==> !White(c) && c !in ";,`"
    ensures In(Spaces, c) <==> White(c)
    ensures Mark(c) <==> c in MARKS
  {
  }

  // Stripping takes the marks off both ends, and nothing else.
  ghost predicate Bare(s: string, i: int, j: int) {
    && 0 <= i <= j <= |s| && (forall k | 0 <= k < i || j <= k < |s| :: s[k] in MARKS)
    && (i < j ==> s[i] !in MARKS && s[j - 1] !in MARKS)
  }

  lemma {:induction false} MarksLeftMeaning(s: string) returns (i: nat)
    ensures i <= |s| && MarksLeft(s) == s[i..]
    ensures (forall k | 0 <= k < i :: Mark(s[k])) && (i < |s| ==> !Mark(s[i]))
  {
    i := 0;
    if s != "" && Mark(s[0]) {
      var j := MarksLeftMeaning(s[1..]);
      i := j + 1;
      assert forall k | 0 < k < |s| :: s[k] == s[1..][k - 1];
    }
  }

  lemma {:induction false} MarksRightMeaning(s: string) returns (j: nat)
    ensures j <= |s| && MarksRight(s) == s[..j]
    ensures (forall k | j <= k < |s| :: Mark(s[k])) && (j > 0 ==> !Mark(s[j - 1]))
  {
    j := |s|;
    if s != "" && Mark(s[|s| - 1]) {
      j := MarksRightMeaning(s[..|s| - 1]);
      assert forall k | 0 <= k < |s| - 1 :: s[k] == s[..|s| - 1][k];
    }
  }

  lemma StripMarksMeaning(s: string) returns (i: nat, j: nat)
    ensures Bare(s, i, j) && StripMarks(s) == s[i..j]
  {
    i := MarksLeftMeaning(s);
    var n := MarksRightMeaning(s[i..]);
    j := i + n;
    assert s[i..][..n] == s[i..j];
    assert forall k | i <= k < |s| :: s[k] == s[i..][k - i];
    forall c ensures Mark(c) <==> c in MARKS {
      PatternCharacters(c);
    }
  }

  // Whether a new word may start after the text.
  predicate EndsWord(s: string)
    requires s != ""
  {
    !Word(s[|s| - 1])
  }

  // finditer: every match, left to right, each search going on where the last match ended.
  function Scan(boundary: bool, s: string): seq<Pair>
    decreases |s|
  {
    if s == "" then []
    else
      match MatchHere(boundary, s)
      case None => Scan(!Word(s[0]), s[1..])
      case Some(h) => [PairOf(h)] + Scan(EndsWord(h.value), h.rest)
  }

  lemma ScanHit(boundary: bool, s: string, h: Hit)
    requires MatchHere(boundary, s) == Some(h)
    ensures h.value != "" && Scan(boundary, s) == [PairOf(h)] + Scan(EndsWord(h.value), h.rest)
  {
  }

  lemma ScanMiss(boundary: bool, s: string)
    requires s != "" && MatchHere(boundary, s) == None
    ensures Scan(boundary, s) == Scan(!Word(s[0]), s[1..])
  {
  }

  lemma PairsOfParts(a: seq<Pair>, b: seq<Pair>)
    ensures SetOf(a + b) == SetOf(a) + SetOf(b)
  {
  }

  method SummaryFactKeys(summary: string) returns (facts: set<Pair>)
    ensures facts == SetOf(Scan(true, summary))
  {
    facts := {};
    var rest, boundary := summary, true;
    while rest != ""
      invariant SetOf(Scan(true, summary)) == facts + SetOf(Scan(boundary, rest))
      decreases |rest|
    {
      var found := MatchHere(boundary, rest);
      if found.Some? {
        var h := found.value;
        ScanHit(boundary, rest, h);
        PairsOfParts([PairOf(h)], Scan(EndsWord(h.value), h.rest));
        facts := facts + {PairOf(h)};
        rest, boundary := h.rest, EndsWord(h.value);
      } else {
        ScanMiss(boundary, rest);
        rest, boundary := rest[1..], !Word(rest[0]);
      }
    }
  }

  // ---- Runs and leading white space ----

  lemma {:induction false} RunIsLongest(cl: Class, s: string)
    ensures AllIn(cl, s[..Run(cl, s)])
    ensures Run(cl, s) < |s| ==> !In(cl, s[Run(cl, s)])
  {
    if s != "" && In(cl, s[0]) {
      RunIsLongest(cl, s[1..]);
    }
  }

  // A text that cannot go on a run leaves it as it is.
  lemma {:induction false} RunExtend(cl: Class, s: string, r: string)
    requires r == "" || !In(cl, r[0])
    ensures Run(cl, s + r) == Run(cl, s)
  {
    if s == "" {
      assert s + r == r;
    } else {
      RunExtend(cl, s[1..], r);
      DropConcat(s, r);
    }
  }

  lemma {:induction false} RunWhole(cl: Class, s: string)
    requires AllIn(cl, s)
    ensures Run(cl, s) == |s|
  {
    if s != "" {
      RunWhole(cl, s[1..]);
    }
  }

  lemma RunStops(cl: Class, head: string, rest: string)
    requires AllIn(cl, head) && (rest == "" || !In(cl, rest[0]))
    ensures Run(cl, head + rest) == |head|
    ensures (head + rest)[|head|..] == rest && (head + rest)[..|head|] == head
  {
    RunExtend(cl, head, rest);
    RunWhole(cl, head);
  }

  lemma {:induction false} Blank(s: string)
    ensures StripLeft(s) == "" <==> AllIn(Spaces, s)
  {
    if s != "" && IsSpace(s[0]) {
      Blank(s[1..]);
      assert AllIn(Spaces, s[1..]) ==> AllIn(Spaces, s);
    }
  }

  lemma {:induction false} StripLeftBlank(a: string, r: string)
    requires AllIn(Spaces, a)
    ensures StripLeft(a + r) == StripLeft(r)
  {
    if a == "" {
      assert a + r == r;
    } else {
      StripLeftBlank(a[1..], r);
      DropConcat(a, r);
    }
  }

  lemma {:induction false} StripLeftSolid(a: string, r: string)
    requires StripLeft(a) != ""
    ensures StripLeft(a + r) == StripLeft(a) + r
  {
    DropConcat(a, r);
    if IsSpace(a[0]) {
      StripLeftSolid(a[1..], r);
    }
  }

  // Stripping leaves a suffix, after nothing but white space.
  lemma {:induction false} StripLeftSuffix(s: string)
    ensures var n := |s| - |StripLeft(s)|; s[n..] == StripLeft(s) && AllIn(Spaces, s[..n])
  {
    if s != "" && IsSpace(s[0]) {
      StripLeftSuffix(s[1..]);
      var n := |s[1..]| - |StripLeft(s[1..])|;
      assert s[1..][n..] == s[n + 1..];
      assert s[..n + 1] == [s[0]] + s[1..][..n];
    }
  }

  // One text ends with another.
  predicate EndsWith(s: string, t: string) {
    s == t || (s != "" && EndsWith(s[1..], t))
  }

  lemma {:induction false} EndsTransitive(s: string, t: string, u: string)
    requires EndsWith(s, t) && EndsWith(t, u)
    ensures EndsWith(s, u)
  {
    if s != t { EndsTransitive(s[1..], t, u); }
  }

  lemma {:induction false} EndsDropped(s: string, n: nat)
    requires n <= |s|
    ensures EndsWith(s, s[n..])
  {
    if n > 0 {
      EndsDropped(s[1..], n - 1);
      assert s[1..][n - 1..] == s[n..];
    } else {
      assert s[0..] == s;
    }
  }

  lemma {:induction false} EndsStripped(s: string)
    ensures EndsWith(s, StripLeft(s))
  {
    if s != "" && IsSpace(s[0]) { EndsStripped(s[1..]); }
  }

  lemma {:induction false} EndsLast(s: string, t: string)
    requires EndsWith(s, t) && t != ""
    ensures s != "" && s[|s| - 1] == t[|t| - 1]
  {
    if s != t {
      EndsLast(s[1..], t);
      assert s[1..][|s| - 2] == s[|s| - 1];
    }
  }

  // ---- The scan follows the pattern ----

  // A split of the text into the parts of the pattern, greedy or not.
  ghost predicate Splits(s: string, k: nat, e: nat, v: nat, w: nat) {
    && 0 < k <= e < v <= |s| && v + w <= |s| && 0 < w
    && Letter(s[0]) && AllIn(KeyChars, s[..k]) && AllIn(Spaces, s[k..e])
    && s[e] == '=' && AllIn(Spaces, s[e + 1..v]) && AllIn(ValueChars, s[v..v + w])
  }

  // No backtracking is ever needed: the greedy reading finds a match whenever there is any.
  lemma MatchIffSplits(s: string)
    ensures MatchHere(true, s).Some? <==> exists k, e, v, w :: Splits(s, k, e, v, w)
  {
    if MatchHere(true, s).Some? {
      GreedySplits(s);
    }
    if k, e, v, w :| Splits(s, k, e, v, w) {
      SplitIsGreedy(s, k, e, v, w);
    }
  }

  lemma GreedySplits(s: string)
    requires MatchHere(true, s).Some?
    ensures exists k, e, v, w :: Splits(s, k, e, v, w)
  {
    var k := Run(KeyChars, s);
    var t := StripLeft(s[k..]);
    var e := |s| - |t|;
    var u := StripLeft(t[1..]);
    var v := |s| - |u|;
    var w := Run(ValueChars, u);
    RunIsLongest(KeyChars, s);
    RunIsLongest(ValueChars, u);
    Tail(s, k, e);
    Tail(s, e + 1, v);
    assert s[v..][..w] == s[v..v + w];
    assert Splits(s, k, e, v, w);
  }

  lemma Tail(s: string, i: nat, j: int)
    requires i <= |s| && j == |s| - |StripLeft(s[i..])|
    ensures i <= j <= |s| && s[j..] == StripLeft(s[i..]) && AllIn(Spaces, s[i..j])
  {
    StripLeftSuffix(s[i..]);
    assert s[i..][j - i..] == s[j..] && s[i..][..j - i] == s[i..j];
  }

  lemma SplitIsGreedy(s: string, k: nat, e: nat, v: nat, w: nat)
    requires Splits(s, k, e, v, w)
    ensures MatchHere(true, s).Some? && MatchHere(true, s).value.key == s[..k]
  {
    SkipsSpaces(s, k, e);
    SkipsSpaces(s, e + 1, v);
    ValueStarts(s, v, w);
    KeyStops(s, k, e);
    assert s[e..][0] == '=' && s[e..][1..] == s[e + 1..];
    assert StripLeft(s[e..]) == s[e..];
  }

  lemma SkipsSpaces(s: string, i: nat, j: nat)
    requires i <= j <= |s| && AllIn(Spaces, s[i..j])
    ensures StripLeft(s[i..]) == StripLeft(s[j..])
  {
    Cut(s, i, j);
    StripLeftBlank(s[i..j], s[j..]);
  }

  lemma KeyStops(s: string, k: nat, e: nat)
    requires k <= e < |s| && AllIn(KeyChars, s[..k]) && AllIn(Spaces, s[k..e]) && s[e] == '='
    ensures Run(KeyChars, s) == k
  {
    Cut(s, 0, k);
    if k < e { assert s[k..e][0] == s[k]; }
    RunStops(KeyChars, s[..k], s[k..]);
  }

  lemma Cut(s: string, i: nat, j: nat)
    requires i <= j <= |s|
    ensures s[i..] == s[i..j] + s[j..] && s[0..] == s
  {
  }

  lemma ValueStarts(s: string, v: nat, w: nat)
    requires v + w <= |s| && 0 < w && AllIn(ValueChars, s[v..v + w])
    ensures Run(ValueChars, s[v..]) > 0 && StripLeft(s[v..]) == s[v..]
  {
    assert s[v..][0] == s[v..v + w][0];
  }

  // A match of the pattern starts at the position, and no word goes on there.
  predicate StartsAt(boundary: bool, s: string, i: int) {
    0 <= i < |s| && (if i == 0 then boundary else !Word(s[i - 1])) && MatchHere(true, s[i..]).Some?
  }

  lemma StartsHere(boundary: bool, s: string)
    ensures MatchHere(boundary, s).Some? <==> StartsAt(boundary, s, 0)
  {
    assert s[0..] == s;
  }

  lemma StartsLater(boundary: bool, s: string, i: int)
    requires 0 < i < |s|
    ensures StartsAt(boundary, s, i) <==> StartsAt(!Word(s[0]), s[1..], i - 1)
  {
    assert s[1..][i - 1..] == s[i..];
  }

  // Nothing is asserted exactly when no match starts anywhere.
  lemma {:induction false} ScanNothing(boundary: bool, s: string)
    ensures Scan(boundary, s) == [] <==> forall i :: !StartsAt(boundary, s, i)
    decreases |s|
  {
    StartsHere(boundary, s);
    if s != "" && MatchHere(boundary, s).None? {
      ScanNothing(!Word(s[0]), s[1..]);
      if i :| StartsAt(boundary, s, i) { StartsLater(boundary, s, i); }
      var b, tail := !Word(s[0]), s[1..];
      if j :| StartsAt(b, tail, j) { StartsLater(boundary, s, j + 1); }
    }
  }

  ghost predicate FirstAt(boundary: bool, s: string, i: int) {
    StartsAt(boundary, s, i) && forall k | 0 <= k < i :: !StartsAt(boundary, s, k)
  }

  lemma FirstLater(boundary: bool, s: string, i: int)
    requires FirstAt(boundary, s, i) && i > 0
    ensures MatchHere(boundary, s) == None && FirstAt(!Word(s[0]), s[1..], i - 1)
  {
    StartsHere(boundary, s);
    StartsLater(boundary, s, i);
    var b, tail := !Word(s[0]), s[1..];
    forall k | 0 <= k < i - 1 ensures !StartsAt(b, tail, k) {
      StartsLater(boundary, s, k + 1);
    }
  }

  // The match at i is read, and the search goes on at j, behind it, with the character before.
  ghost predicate Reads(boundary: bool, s: string, i: int, h: Hit, j: int) {
    && 0 <= i < j <= |s| && MatchHere(true, s[i..]) == Some(h) && h.rest == s[j..]
    && Scan(boundary, s) == [PairOf(h)] + Scan(!Word(s[j - 1]), s[j..])
  }

  // Where a match may start, the boundary makes no difference to it.
  lemma MatchAnyway(boundary: bool, s: string)
    requires StartsAt(boundary, s, 0)
    ensures MatchHere(true, s).Some? && MatchHere(boundary, s) == MatchHere(true, s)
  {
    assert s[0..] == s;
  }

  lemma FirstNow(boundary: bool, s: string) returns (h: Hit, j: int)
    requires StartsAt(boundary, s, 0)
    ensures Reads(boundary, s, 0, h, j)
  {
    MatchAnyway(boundary, s);
    h := MatchHere(true, s).value;
    j := |s| - |h.rest|;
    EndsBehind(s, h);
    ScanHit(boundary, s, h);
    assert EndsWord(h.value) == !Word(s[j - 1]);
    assert s[0..] == s;
  }

  lemma ReadsLater(boundary: bool, s: string, i: int, h: Hit, n: int)
    requires s != "" && MatchHere(boundary, s) == None && Reads(!Word(s[0]), s[1..], i - 1, h, n)
    ensures Reads(boundary, s, i, h, n + 1)
  {
    ScanMiss(boundary, s);
    TailSlices(s, i, n + 1);
  }

  lemma TailSlices(s: string, i: int, j: int)
    requires 0 < i < j <= |s|
    ensures s[1..][i - 1..] == s[i..] && s[1..][j - 1..] == s[j..] && s[1..][j - 2] == s[j - 1]
  {
  }

  // Otherwise the first match counts.
  lemma {:induction false} ScanFirst(boundary: bool, s: string, i: int) returns (h: Hit, j: int)
    requires FirstAt(boundary, s, i)
    ensures Reads(boundary, s, i, h, j)
    decreases |s|
  {
    if i == 0 {
      h, j := FirstNow(boundary, s);
    } else {
      FirstLater(boundary, s, i);
      var n;
      h, n := ScanFirst(!Word(s[0]), s[1..], i - 1);
      ReadsLater(boundary, s, i, h, n);
      j := n + 1;
    }
  }

  // Behind a match stands the rest, and before the rest the last character of the value.
  lemma EndsBehind(s: string, h: Hit)
    requires MatchHere(true, s) == Some(h)
    ensures var j := |s| - |h.rest|;
            0 < j <= |s| && s[j..] == h.rest && h.value != "" && s[j - 1] == h.value[|h.value| - 1]
  {
    var after := s[Run(KeyChars, s)..];
    var t := StripLeft(after);
    var u := StripLeft(t[1..]);
    var w := Run(ValueChars, u);
    EndsDropped(s, Run(KeyChars, s));
    EndsStripped(after);
    EndsDropped(t, 1);
    EndsStripped(t[1..]);
    EndsTransitive(s, after, t);
    EndsTransitive(s, t, t[1..]);
    EndsTransitive(s, t[1..], u);
    EndsSlice(s, u);
    assert s[|s| - |u|..][w..] == s[|s| - |u| + w..];
    assert s[|s| - |u| + w - 1] == u[w - 1];
  }

  lemma {:induction false} EndsSlice(s: string, t: string)
    requires EndsWith(s, t)
    ensures |t| <= |s| && s[|s| - |t|..] == t
  {
    if s != t {
      EndsSlice(s[1..], t);
      assert s[1..][|s| - 1 - |t|..] == s[|s| - |t|..];
    }
  }

  // Without an equals sign there is nothing to find.
  lemma {:induction false} NothingAsserted(boundary: bool, s: string)
    requires '=' !in s
    ensures Scan(boundary, s) == []
    decreases |s|
  {
    if s != "" {
      SuffixSilent(s, Run(KeyChars, s));
      NothingAsserted(!Word(s[0]), s[1..]);
    }
  }

  lemma SuffixSilent(s: string, k: nat)
    requires '=' !in s && k <= |s|
    ensures var t := StripLeft(s[k..]); t == "" || t[0] != '='
  {
    StripLeftSuffix(s[k..]);
    var t := StripLeft(s[k..]);
    if t != "" { assert t[0] in s[k..]; }
  }

  // ---- A semicolon separates ----

  function Later(h: Option<Hit>, r: string): Option<Hit> {
    if h.None? then None else Some(h.value.(rest := h.value.rest + r))
  }

  lemma ValuedLater(key: string, s: string, r: string)
    requires r == "" || !In(ValueChars, r[0])
    ensures Valued(key, s + r) == Later(Valued(key, s), r)
  {
    var w := Run(ValueChars, s);
    RunExtend(ValueChars, s, r);
    assert (s + r)[..w] == s[..w] && (s + r)[w..] == s[w..] + r;
  }

  lemma AssignedBreak(key: string, s: string, r: string)
    requires r != "" && r[0] == ';'
    ensures Assigned(key, s + r) == Later(Assigned(key, s), r)
  {
    Blank(s);
    var t := StripLeft(s);
    if t == "" {
      StripLeftBlank(s, r);
    } else {
      StripLeftSolid(s, r);
      DropConcat(t, r);
      Blank(t[1..]);
      if StripLeft(t[1..]) == "" {
        StripLeftBlank(t[1..], r);
      } else {
        StripLeftSolid(t[1..], r);
        ValuedLater(key, StripLeft(t[1..]), r);
      }
    }
  }

  lemma MatchBreak(boundary: bool, s: string, r: string)
    requires s != "" && r != "" && r[0] == ';'
    ensures MatchHere(boundary, s + r) == Later(MatchHere(boundary, s), r)
  {
    var k := Run(KeyChars, s);
    RunExtend(KeyChars, s, r);
    assert (s + r)[..k] == s[..k] && (s + r)[k..] == s[k..] + r;
    AssignedBreak(s[..k], s[k..], r);
  }

  // No match crosses a semicolon, so what is before and after it is read separately.
  lemma {:induction false} ScanBreak(boundary: bool, s: string, r: string)
    ensures Scan(boundary, s + (";" + r)) == Scan(boundary, s) + Scan(true, r)
    decreases |s|
  {
    var sr := ";" + r;
    if s == "" {
      assert s + sr == sr && sr[1..] == r;
    } else {
      MatchBreak(boundary, s, sr);
      if MatchHere(boundary, s).Some? {
        var h := MatchHere(boundary, s).value;
        ScanHit(boundary, s, h);
        ScanHit(boundary, s + sr, h.(rest := h.rest + sr));
        ScanBreak(EndsWord(h.value), h.rest, r);
        Regroup([PairOf(h)], Scan(EndsWord(h.value), h.rest), Scan(true, r));
      } else {
        ScanMiss(boundary, s);
        ScanMiss(boundary, s + sr);
        DropConcat(s, sr);
        ScanBreak(!Word(s[0]), s[1..], r);
      }
    }
  }

  lemma Regroup<T>(a: seq<T>, b: seq<T>, c: seq<T>)
    ensures a + (b + c) == (a + b) + c
  {
  }

  // ---- White space ----

  // How a text may end in the middle of a match: with a key, or with a key and an equals sign.
  datatype Ending = Shut | Hanging | Assigning

  function EndingOf(after: string): Ending {
    var t := StripLeft(after);
    if t == "" then Hanging
    else if t[0] == '=' && StripLeft(t[1..]) == "" then Assigning
    else Shut
  }

  function Open(boundary: bool, s: string): Ending {
    if s == "" || !boundary || !Letter(s[0]) then Shut else EndingOf(s[Run(KeyChars, s)..])
  }

  lemma AssignedSpace(key: string, s: string, r: string)
    requires r != "" && IsSpace(r[0])
    ensures match EndingOf(s)
            case Shut => Assigned(key, s + r) == Later(Assigned(key, s), r)
            case Hanging => Assigned(key, s) == None && Assigned(key, s + r) == Assigned(key, r)
            case Assigning => Assigned(key, s) == None && Assigned(key, s + r) == Valued(key, StripLeft(r))
  {
    Blank(s);
    var t := StripLeft(s);
    if t == "" {
      StripLeftBlank(s, r);
    } else {
      StripLeftSolid(s, r);
      DropConcat(t, r);
      Blank(t[1..]);
      if StripLeft(t[1..]) == "" {
        StripLeftBlank(t[1..], r);
      } else {
        StripLeftSolid(t[1..], r);
        ValuedLater(key, StripLeft(t[1..]), r);
      }
    }
  }

  lemma MatchSpace(boundary: bool, s: string, r: string)
    requires s != "" && r != "" && IsSpace(r[0])
    ensures var key := s[..Run(KeyChars, s)];
            match Open(boundary, s)
            case Shut => MatchHere(boundary, s + r) == Later(MatchHere(boundary, s), r)
            case Hanging => MatchHere(boundary, s) == None && MatchHere(boundary, s + r) == Assigned(key, r)
            case Assigning => MatchHere(boundary, s) == None && MatchHere(boundary, s + r) == Valued(key, StripLeft(r))
  {
    var k := Run(KeyChars, s);
    RunExtend(KeyChars, s, r);
    assert (s + r)[..k] == s[..k] && (s + r)[k..] == s[k..] + r;
    AssignedSpace(s[..k], s[k..], r);
  }

  // Every equals sign is followed by white space only.
  ghost predicate EmptyHanded(s: string) {
    forall i | 0 <= i < |s| && s[i] == '=' :: AllIn(Spaces, s[i + 1..])
  }

  lemma EmptyHandedSuffix(s: string, n: nat)
    requires EmptyHanded(s) && n <= |s|
    ensures EmptyHanded(s[n..])
  {
    forall i | 0 <= i < |s[n..]| && s[n..][i] == '=' ensures AllIn(Spaces, s[n..][i + 1..]) {
      assert s[n..][i + 1..] == s[n + i + 1..];
    }
  }

  lemma EmptyHandedMisses(boundary: bool, s: string)
    requires EmptyHanded(s)
    ensures MatchHere(boundary, s) == None
  {
    if s != "" {
      var after := s[Run(KeyChars, s)..];
      EmptyHandedSuffix(s, Run(KeyChars, s));
      StripLeftSuffix(after);
      var t := StripLeft(after);
      if t != "" && t[0] == '=' {
        var n := |after| - |t|;
        assert after[n] == '=' && after[n + 1..] == t[1..];
        Blank(t[1..]);
      }
    }
  }

  lemma {:induction false} EmptyHandedScan(boundary: bool, s: string)
    requires EmptyHanded(s)
    ensures Scan(boundary, s) == []
    decreases |s|
  {
    if s != "" {
      EmptyHandedMisses(boundary, s);
      EmptyHandedSuffix(s, 1);
      EmptyHandedScan(!Word(s[0]), s[1..]);
    }
  }

  lemma EmptyHandedConcat(a: string, b: string)
    requires '=' !in a && EmptyHanded(b)
    ensures EmptyHanded(a + b)
  {
    forall i | 0 <= i < |a + b| && (a + b)[i] == '=' ensures AllIn(Spaces, (a + b)[i + 1..]) {
      assert i >= |a|;
      assert (a + b)[i + 1..] == b[i - |a| + 1..];
    }
  }

  lemma {:induction false} EndingSilent(after: string)
    requires !EndingOf(after).Shut?
    ensures EmptyHanded(after)
  {
    if after == "" {
    } else if IsSpace(after[0]) {
      EndingSilent(after[1..]);
      EmptyHandedConcat([after[0]], after[1..]);
      assert after == [after[0]] + after[1..];
    } else {
      Blank(after[1..]);
      AssignedNothing(after);
    }
  }

  lemma AssignedNothing(t: string)
    requires t != "" && AllIn(Spaces, t[1..])
    ensures EmptyHanded(t)
  {
    WithinRun(Spaces, t, 1, t[1..]);
  }

  // A text that ends in the middle of a match asserts nothing from its key on.
  lemma OpenSilent(boundary: bool, s: string)
    requires !Open(boundary, s).Shut?
    ensures EmptyHanded(s)
  {
    var k := Run(KeyChars, s);
    RunIsLongest(KeyChars, s);
    NoEquals(s[..k]);
    EndingSilent(s[k..]);
    EmptyHandedConcat(s[..k], s[k..]);
    assert s == s[..k] + s[k..];
  }

  lemma NoEquals(key: string)
    requires AllIn(KeyChars, key)
    ensures '=' !in key
  {
  }

  lemma WithinRun(cl: Class, s: string, i: nat, part: string)
    requires AllIn(cl, part) && i + |part| <= |s| && s[i..i + |part|] == part
    ensures forall j | i <= j < i + |part| :: In(cl, s[j])
  {
    forall j | i <= j < i + |part| ensures In(cl, s[j]) {
      assert part[j - i] == s[j];
    }
  }

  // Going on after white space adds pairs, but changes none.
  lemma {:induction false} ScanPrefix(boundary: bool, s: string, r: string)
    requires r == "" || IsSpace(r[0])
    ensures Scan(boundary, s) <= Scan(boundary, s + r)
    decreases |s|
  {
    if r == "" {
      assert s + r == s;
    } else if s != "" {
      MatchSpace(boundary, s, r);
      if !Open(boundary, s).Shut? {
        OpenSilent(boundary, s);
        EmptyHandedScan(boundary, s);
      } else if MatchHere(boundary, s).Some? {
        var h := MatchHere(boundary, s).value;
        ScanHit(boundary, s, h);
        ScanHit(boundary, s + r, h.(rest := h.rest + r));
        ScanPrefix(EndsWord(h.value), h.rest, r);
      } else {
        ScanMiss(boundary, s);
        ScanMiss(boundary, s + r);
        DropConcat(s, r);
        ScanPrefix(!Word(s[0]), s[1..], r);
      }
    }
  }

  lemma ScanSpace(boundary: bool, s: string)
    requires s != "" && IsSpace(s[0])
    ensures Scan(boundary, s) == Scan(true, s[1..])
  {
  }

  lemma {:induction false} ScanSpaces(boundary: bool, sp: string, r: string)
    requires sp != "" && AllIn(Spaces, sp)
    ensures Scan(boundary, sp + r) == Scan(true, r)
    decreases |sp|
  {
    DropConcat(sp, r);
    ScanSpace(boundary, sp + r);
    if |sp| == 1 {
      assert sp[1..] + r == r;
    } else {
      ScanSpaces(true, sp[1..], r);
    }
  }

  // How much white space there is between words makes no difference.
  lemma {:induction false} ScanOneSpace(boundary: bool, s: string, sp: string, r: string)
    requires sp != "" && AllIn(Spaces, sp)
    ensures Scan(boundary, s + (sp + r)) == Scan(boundary, s + (" " + r))
    decreases |s|
  {
    var x, y := sp + r, " " + r;
    if s == "" {
      assert s + x == x && s + y == y;
      ScanSpaces(boundary, sp, r);
      ScanSpaces(boundary, " ", r);
    } else {
      MatchOneSpace(boundary, s, sp, r);
      var m, n := MatchHere(boundary, s + x), MatchHere(boundary, s + y);
      if m.Some? {
        ScanHit(boundary, s + x, m.value);
        ScanHit(boundary, s + y, n.value);
        if m != n {
          ScanOneSpace(EndsWord(m.value.value), MatchHere(boundary, s).value.rest, sp, r);
        }
      } else {
        ScanMiss(boundary, s + x);
        ScanMiss(boundary, s + y);
        DropConcat(s, x);
        DropConcat(s, y);
        ScanOneSpace(!Word(s[0]), s[1..], sp, r);
      }
    }
  }

  lemma MatchOneSpace(boundary: bool, s: string, sp: string, r: string)
    requires s != "" && sp != "" && AllIn(Spaces, sp)
    ensures var m := MatchHere(boundary, s);
            || MatchHere(boundary, s + (sp + r)) == MatchHere(boundary, s + (" " + r))
            || (m.Some? && MatchHere(boundary, s + (sp + r)) == Later(m, sp + r)
                && MatchHere(boundary, s + (" " + r)) == Later(m, " " + r))
  {
    MatchSpace(boundary, s, sp + r);
    MatchSpace(boundary, s, " " + r);
    StripLeftBlank(sp, r);
    StripLeftBlank(" ", r);
  }

  // White space at the end asserts nothing.
  lemma {:induction false} ScanTrailing(boundary: bool, s: string, sp: string)
    requires AllIn(Spaces, sp)
    ensures Scan(boundary, s + sp) == Scan(boundary, s)
    decreases |s|
  {
    if sp == "" {
      assert s + sp == s;
    } else if s == "" {
      assert s + sp == sp;
      NothingAsserted(boundary, sp);
    } else {
      MatchSpace(boundary, s, sp);
      Blank(sp);
      if MatchHere(boundary, s).Some? {
        var h := MatchHere(boundary, s).value;
        ScanHit(boundary, s, h);
        ScanHit(boundary, s + sp, h.(rest := h.rest + sp));
        ScanTrailing(EndsWord(h.value), h.rest, sp);
      } else {
        ScanMiss(boundary, s);
        ScanMiss(boundary, s + sp);
        DropConcat(s, sp);
        ScanTrailing(!Word(s[0]), s[1..], sp);
      }
    }
  }

  // ---- Texts that end with a key and an equals sign ----

  // The key of an assertion that is still waiting for its value at the end of the text.
  function Dangling(boundary: bool, s: string): Option<string>
    decreases |s|
  {
    if s == "" then None
    else
      match MatchHere(boundary, s)
      case Some(h) => Dangling(EndsWord(h.value), h.rest)
      case None =>
        if Open(boundary, s).Assigning? then Some(s[..Run(KeyChars, s)]) else Dangling(!Word(s[0]), s[1..])
  }

  // A notice after white space, without equals signs, becomes the value of a dangling key; otherwise
  // it asserts nothing.
  lemma {:induction false} ScanNotice(boundary: bool, s: string, r: string)
    requires r != "" && IsSpace(r[0]) && '=' !in r && Run(ValueChars, StripLeft(r)) > 0
    ensures var token := StripLeft(r)[..Run(ValueChars, StripLeft(r))];
            Scan(boundary, s + r) == Scan(boundary, s)
              + match Dangling(boundary, s) case None => [] case Some(key) => [(key, StripMarks(token))]
    decreases |s|
  {
    var u := StripLeft(r);
    if s == "" {
      assert s + r == r;
      NothingAsserted(boundary, r);
    } else {
      MatchSpace(boundary, s, r);
      if MatchHere(boundary, s).Some? {
        var h := MatchHere(boundary, s).value;
        ScanHit(boundary, s, h);
        ScanHit(boundary, s + r, h.(rest := h.rest + r));
        ScanNotice(EndsWord(h.value), h.rest, r);
      } else if Open(boundary, s).Assigning? {
        OpenSilent(boundary, s);
        EmptyHandedScan(boundary, s);
        NoticeRead(boundary, s, r, s[..Run(KeyChars, s)]);
      } else {
        assert r[0..] == r;
        SuffixSilent(r, 0);
        ScanMiss(boundary, s);
        ScanMiss(boundary, s + r);
        DropConcat(s, r);
        ScanNotice(!Word(s[0]), s[1..], r);
      }
    }
  }

  lemma NoticeRead(boundary: bool, s: string, r: string, key: string)
    requires r != "" && '=' !in r && Run(ValueChars, StripLeft(r)) > 0
    requires MatchHere(boundary, s + r) == Valued(key, StripLeft(r))
    ensures Scan(boundary, s + r) == [(key, StripMarks(StripLeft(r)[..Run(ValueChars, StripLeft(r))]))]
  {
    var u := StripLeft(r);
    var w := Run(ValueChars, u);
    ScanHit(boundary, s + r, Hit(key, u[..w], u[w..]));
    StripLeftSuffix(r);
    assert forall c | c in u[w..] :: c in r;
    NothingAsserted(EndsWord(u[..w]), u[w..]);
  }

  // What is left of a text after its last assertion.
  function Unread(boundary: bool, s: string): (bool, string)
    decreases |s|
  {
    if Scan(boundary, s) == [] then (boundary, s)
    else
      match MatchHere(boundary, s)
      case Some(h) => Unread(EndsWord(h.value), h.rest)
      case None => Unread(!Word(s[0]), s[1..])
  }

  // The text ends with a key, after no word, and an equals sign.
  ghost predicate EndsWithOpenKey(boundary: bool, s: string) {
    exists i | 0 <= i < |s| :: OpenAt(boundary, s, i)
  }

  predicate OpenAt(boundary: bool, s: string, i: nat)
    requires i < |s|
  {
    (if i == 0 then boundary else !Word(s[i - 1])) && Open(true, s[i..]).Assigning?
  }

  lemma {:induction false} DanglingUnread(boundary: bool, s: string)
    ensures var (b, u) := Unread(boundary, s);
            && Scan(b, u) == [] && Dangling(boundary, s) == Dangling(b, u)
            && EndsWith(s, u)
    decreases |s|
  {
    if Scan(boundary, s) != [] {
      if MatchHere(boundary, s).Some? {
        var h := MatchHere(boundary, s).value;
        DanglingUnread(EndsWord(h.value), h.rest);
        MatchRest(boundary, s);
        EndsTransitive(s, h.rest, Unread(EndsWord(h.value), h.rest).1);
      } else {
        DanglingUnread(!Word(s[0]), s[1..]);
        if Open(boundary, s).Assigning? {
          OpenSilent(boundary, s);
          EmptyHandedScan(boundary, s);
        }
      }
    }
  }

  lemma MatchRest(boundary: bool, s: string)
    requires MatchHere(boundary, s).Some?
    ensures EndsWith(s, MatchHere(boundary, s).value.rest)
  {
    var k := Run(KeyChars, s);
    EndsDropped(s, k);
    AssignedRest(s[..k], s[k..]);
    EndsTransitive(s, s[k..], MatchHere(boundary, s).value.rest);
  }

  lemma AssignedRest(key: string, after: string)
    requires Assigned(key, after).Some?
    ensures EndsWith(after, Assigned(key, after).value.rest)
  {
    var t := StripLeft(after);
    var u := StripLeft(t[1..]);
    var rest := u[Run(ValueChars, u)..];
    EndsStripped(after);
    EndsDropped(t, 1);
    EndsStripped(t[1..]);
    EndsDropped(u, Run(ValueChars, u));
    EndsTransitive(after, t, t[1..]);
    EndsTransitive(after, t[1..], u);
    EndsTransitive(after, u, rest);
  }

  lemma {:induction false} DanglingSilent(boundary: bool, s: string)
    requires Scan(boundary, s) == []
    ensures Dangling(boundary, s).Some? <==> EndsWithOpenKey(boundary, s)
    decreases |s|
  {
    if s != "" {
      assert MatchHere(boundary, s) == None;
      ScanMiss(boundary, s);
      assert s[0..] == s;
      if Open(boundary, s).Assigning? {
        assert OpenAt(boundary, s, 0);
      } else {
        DanglingSilent(!Word(s[0]), s[1..]);
        OpenKeyShift(boundary, s);
      }
    }
  }

  lemma OpenKeyShift(boundary: bool, s: string)
    requires s != "" && !Open(boundary, s).Assigning?
    ensures EndsWithOpenKey(boundary, s) <==> EndsWithOpenKey(!Word(s[0]), s[1..])
  {
    assert s[0..] == s;
    assert !OpenAt(boundary, s, 0);
    if EndsWithOpenKey(boundary, s) {
      var i :| 0 <= i < |s| && OpenAt(boundary, s, i);
      OpenAtNext(boundary, s, i);
    }
    if EndsWithOpenKey(!Word(s[0]), s[1..]) {
      var j :| 0 <= j < |s[1..]| && OpenAt(!Word(s[0]), s[1..], j);
      OpenAtNext(boundary, s, j + 1);
    }
  }

  lemma OpenAtNext(boundary: bool, s: string, i: nat)
    requires 0 < i < |s|
    ensures OpenAt(boundary, s, i) <==> OpenAt(!Word(s[0]), s[1..], i - 1)
  {
    assert s[1..][i - 1..] == s[i..];
  }

  // A key dangles exactly when what is left after the last assertion ends with a key and an equals
  // sign.
  lemma DanglingIff(boundary: bool, s: string)
    ensures var (b, u) := Unread(boundary, s);
            Dangling(boundary, s).Some? <==> EndsWithOpenKey(b, u)
  {
    DanglingUnread(boundary, s);
    var (b, u) := Unread(boundary, s);
    DanglingSilent(b, u);
  }

  // Then the last character that is no white space is an equals sign.
  lemma {:induction false} DanglingEnds(boundary: bool, s: string)
    requires s != "" && !IsSpace(s[|s| - 1]) && Dangling(boundary, s).Some?
    ensures s[|s| - 1] == '='
    decreases |s|
  {
    if MatchHere(boundary, s).Some? {
      var h := MatchHere(boundary, s).value;
      MatchRest(boundary, s);
      EndsLast(s, h.rest);
      DanglingEnds(EndsWord(h.value), h.rest);
    } else if Open(boundary, s).Assigning? {
      OpenEnds(s);
    } else {
      DanglingEnds(!Word(s[0]), s[1..]);
    }
  }

  lemma OpenEnds(s: string)
    requires s != "" && !IsSpace(s[|s| - 1]) && EndingOf(s[Run(KeyChars, s)..]).Assigning?
    ensures s[|s| - 1] == '='
  {
    var after := s[Run(KeyChars, s)..];
    var t := StripLeft(after);
    EndsDropped(s, Run(KeyChars, s));
    EndsStripped(after);
    EndsTransitive(s, after, t);
    EndsLast(s, t);
    Blank(t[1..]);
    WithinRun(Spaces, t, 1, t[1..]);
  }
}
