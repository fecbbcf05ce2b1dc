/**
 The rendered fact summary, cutting a text to a token budget, and what can be read back from both of them.
 */
module SummaryText {
  import opened Prelude
  import opened Text
  import opened AssertionScan

  // ---- Rendering ----

  function Assertion(p: Pair): string {
    p.0 + "=" + p.1
  }

  // "; ".join(...)
  function Joined(ps: seq<Pair>): string {
    if ps == [] then ""
    else if |ps| == 1 then Assertion(ps[0])
    else Assertion(ps[0]) + "; " + Joined(ps[1..])
  }

  function Content(ps: seq<Pair>): string {
    if ps == [] then "No structured facts retained." else Joined(ps) + "."
  }

  // ---- Reading the rendering back ----

  // What the scan reads from one assertion of the rendering; a stop follows the last one.
  function ReadPair(p: Pair, last: bool): seq<Pair> {
    Scan(true, Assertion(p) + if last then "." else "")
  }

  function Readings(ps: seq<Pair>): seq<Pair> {
    if ps == [] then [] else ReadPair(ps[0], |ps| == 1) + Readings(ps[1..])
  }

  // Whatever the keys and values, every fact of the rendering is read by itself.
  lemma {:induction false} ScanContentReads(ps: seq<Pair>)
    ensures Scan(true, Content(ps)) == Readings(ps)
  {
    if ps == [] {
      NothingAsserted(true, Content(ps));
    } else if |ps| == 1 {
      assert Readings(ps[1..]) == [];
      assert ReadPair(ps[0], true) + [] == ReadPair(ps[0], true);
    } else {
      ScanContentReads(ps[1..]);
      var rest := Content(ps[1..]);
      ContentStarts(Assertion(ps[0]), Joined(ps[1..]));
      ScanBreak(true, Assertion(ps[0]), " " + rest);
      assert (" " + rest)[1..] == rest;
      ScanSpace(true, " " + rest);
      assert Assertion(ps[0]) + "" == Assertion(ps[0]);
    }
  }

  lemma ContentStarts(first: string, rest: string)
    ensures (first + "; " + rest) + "." == first + (";" + (" " + (rest + ".")))
  {
  }

  lemma {:induction false} ReadingsMember(ps: seq<Pair>, q: Pair)
    ensures q in Readings(ps) <==> exists i | 0 <= i < |ps| :: q in ReadPair(ps[i], i == |ps| - 1)
  {
    if ps != [] {
      ReadingsMember(ps[1..], q);
      assert forall i | 0 <= i < |ps| - 1 :: ps[1..][i] == ps[i + 1];
      if i :| 0 <= i < |ps| && q in ReadPair(ps[i], i == |ps| - 1) {
        if i > 0 { assert q in ReadPair(ps[1..][i - 1], i - 1 == |ps[1..]| - 1); }
      }
    }
  }

  // ---- Dotted keys ----

  predicate DottedKey(k: string) {
    k != "" && Letter(k[0]) && AllIn(KeyChars, k)
  }

  // What the scan takes for the value of a key: the run of value characters after leading white
  // space, without the marks around it; nothing when there is no such run.
  function Token(v: string): Option<string> {
    var u := StripLeft(v);
    var w := Run(ValueChars, u);
    if w == 0 then None else Some(StripMarks(u[..w]))
  }

  function TokenPair(k: string, t: Option<string>): seq<Pair> {
    match t case None => [] case Some(token) => [(k, token)]
  }

  // What is left behind the token, and whether a new word may start there.
  function Behind(v: string): (bool, string) {
    var u := StripLeft(v);
    var w := Run(ValueChars, u);
    if w == 0 then (true, u) else (EndsWord(u[..w]), u[w..])
  }

  function ScanBehind(v: string): seq<Pair> {
    Scan(Behind(v).0, Behind(v).1)
  }

  // A dotted key with any value is read as the value's token, and what the rest of the value asserts.
  lemma ReadAssertion(k: string, v: string)
    requires DottedKey(k)
    ensures Scan(true, k + ("=" + v)) == TokenPair(k, Token(v)) + ScanBehind(v)
  {
    var s := k + ("=" + v);
    RunStops(KeyChars, k, "=" + v);
    assert ("=" + v)[1..] == v && StripLeft("=" + v) == "=" + v;
    assert MatchHere(true, s) == Valued(k, StripLeft(v));
    if Token(v).Some? {
      ScanHit(true, s, MatchHere(true, s).value);
    } else {
      NoValueRead(true, k, v);
    }
  }

  lemma {:induction false} NoValueRead(boundary: bool, k: string, v: string)
    requires AllIn(KeyChars, k) && Token(v) == None
    ensures Scan(boundary, k + ("=" + v)) == Scan(true, StripLeft(v))
    decreases |k|
  {
    var s := k + ("=" + v);
    if k == "" {
      assert s[1..] == v;
      ScanMiss(boundary, s);
      ScanStripped(v);
    } else {
      RunStops(KeyChars, k, "=" + v);
      assert ("=" + v)[1..] == v && StripLeft("=" + v) == "=" + v;
      assert MatchHere(boundary, s) == None;
      ScanMiss(boundary, s);
      DropConcat(k, "=" + v);
      NoValueRead(!Word(k[0]), k[1..], v);
    }
  }

  lemma {:induction false} ScanStripped(v: string)
    ensures Scan(true, v) == Scan(true, StripLeft(v))
  {
    if v != "" && IsSpace(v[0]) {
      ScanSpace(true, v);
      ScanStripped(v[1..]);
    }
  }

  // No equals sign behind the token.
  predicate Quiet(v: string) {
    '=' !in Behind(v).1
  }

  lemma {:induction false} MarksRightDot(s: string)
    ensures MarksRight(s + ".") == MarksRight(s)
  {
    assert (s + ".")[..|s|] == s;
  }

  lemma {:induction false} MarksLeftDot(s: string)
    ensures MarksLeft(s + ".") == if MarksLeft(s) == "" then "" else MarksLeft(s) + "."
  {
    if s == "" {
      assert (s + ".")[1..] == "";
    } else {
      DropConcat(s, ".");
      if Mark(s[0]) { MarksLeftDot(s[1..]); }
    }
  }

  lemma StripMarksDot(s: string)
    ensures StripMarks(s + ".") == StripMarks(s)
  {
    MarksLeftDot(s);
    MarksRightDot(MarksLeft(s));
  }

  lemma {:induction false} RunDot(u: string)
    ensures var w := Run(ValueChars, u); Run(ValueChars, u + ".") == if w == |u| then w + 1 else w
  {
    if u == "" {
      assert u + "." == ".";
      RunWhole(ValueChars, ".");
    } else {
      DropConcat(u, ".");
      if In(ValueChars, u[0]) { RunDot(u[1..]); }
    }
  }

  // The stop of the rendering is stripped off again, unless the value is blank: then it is read as
  // an empty value.
  lemma TokenDot(v: string)
    ensures Token(v + ".") == if StripLeft(v) == "" then Some("") else Token(v)
    ensures Quiet(v) ==> Quiet(v + ".")
  {
    var u := StripLeft(v);
    Blank(v);
    if u == "" {
      StripLeftBlank(v, ".");
      RunWhole(ValueChars, ".");
      assert StripLeft(".") == "." && "."[..1] == "." && "."[1..] == "";
    } else {
      StripLeftSolid(v, ".");
      TokenDotSolid(u);
    }
  }

  lemma TokenDotSolid(u: string)
    requires u != ""
    ensures var w, x := Run(ValueChars, u), Run(ValueChars, u + ".");
            && (w == 0 <==> x == 0) && StripMarks((u + ".")[..x]) == StripMarks(u[..w])
            && ('=' !in u[w..] ==> '=' !in (u + ".")[x..])
  {
    var w := Run(ValueChars, u);
    RunDot(u);
    if w < |u| {
      assert (u + ".")[..w] == u[..w];
      assert (u + ".")[w..] == u[w..] + ".";
    } else {
      assert u[..w] == u && (u + ".")[..|u| + 1] == u + ".";
      StripMarksDot(u);
    }
  }

  function LastToken(v: string, last: bool): Option<string> {
    if last && StripLeft(v) == "" then Some("") else Token(v)
  }

  // A value as the rendering shows it.
  function Shown(v: string, last: bool): string {
    if last then v + "." else v
  }

  // What is read from one fact with a dotted key: the token of its value, and what is asserted behind.
  lemma ReadPairDotted(p: Pair, last: bool)
    requires DottedKey(p.0)
    ensures ReadPair(p, last) == TokenPair(p.0, Token(Shown(p.1, last))) + ScanBehind(Shown(p.1, last))
  {
    var stop := if last then "." else "";
    assert Assertion(p) + stop == p.0 + ("=" + (p.1 + stop));
    assert p.1 + "" == p.1;
    ReadAssertion(p.0, Shown(p.1, last));
  }

  // A quiet value asserts its token only.
  lemma ReadPairToken(p: Pair, last: bool)
    requires DottedKey(p.0) && Quiet(p.1)
    ensures ReadPair(p, last) == TokenPair(p.0, LastToken(p.1, last))
  {
    var v := Shown(p.1, last);
    ReadPairDotted(p, last);
    TokenDot(p.1);
    NothingAsserted(Behind(v).0, Behind(v).1);
  }

  // ---- Plain pairs ----

  // A word that is read as it stands.
  predicate CleanWord(w: string) {
    w != "" && AllIn(ValueChars, w) && !Mark(w[0]) && !Mark(w[|w| - 1])
  }

  // A dotted identifier and a clean word: what the rendering can be read back from.
  predicate Plain(p: Pair) {
    DottedKey(p.0) && CleanWord(p.1)
  }

  predicate AllPlain(ps: seq<Pair>) {
    forall i | 0 <= i < |ps| :: Plain(ps[i])
  }

  lemma MarksKept(s: string)
    requires s != "" && !Mark(s[0]) && !Mark(s[|s| - 1])
    ensures StripMarks(s) == s
  {
  }

  lemma PlainToken(v: string)
    requires CleanWord(v)
    ensures StripLeft(v) == v && Token(v) == Some(v) && Quiet(v)
  {
    RunWhole(ValueChars, v);
    MarksKept(v);
    assert v[..|v|] == v;
  }

  lemma {:induction false} PlainReadings(ps: seq<Pair>)
    requires AllPlain(ps)
    ensures Readings(ps) == ps
  {
    if ps != [] {
      PlainReadings(ps[1..]);
      PlainToken(ps[0].1);
      ReadPairToken(ps[0], |ps| == 1);
      assert ps == [ps[0]] + ps[1..];
    }
  }

  // Scanning the whole rendering of plain pairs gives back its pairs, in order.
  lemma ScanContent(ps: seq<Pair>)
    requires AllPlain(ps)
    ensures Scan(true, Content(ps)) == ps
  {
    ScanContentReads(ps);
    PlainReadings(ps);
  }

  // ---- Words ----

  // str.split(): the maximal stretches without white space.
  function WordsOf(s: string): seq<string>
    decreases |s|
  {
    if s == "" then []
    else if IsSpace(s[0]) then WordsOf(s[1..])
    else [s[..Run(WordChars, s)]] + WordsOf(s[Run(WordChars, s)..])
  }

  lemma {:induction false} FirstWord(v: string)
    ensures var u := StripLeft(v);
            && (u == "" ==> WordsOf(v) == [])
            && (u != "" ==> WordsOf(v) != [] && WordsOf(v)[0] == u[..Run(WordChars, u)] && !IsSpace(u[0]))
  {
    if v != "" && IsSpace(v[0]) { FirstWord(v[1..]); }
  }

  lemma {:induction false} ValueRunInWord(u: string)
    ensures Run(ValueChars, u) <= Run(WordChars, u)
  {
    if u != "" && In(ValueChars, u[0]) { ValueRunInWord(u[1..]); }
  }

  lemma {:induction false} MarksLeftShorter(s: string)
    ensures |MarksLeft(s)| <= |s|
  {
    if s != "" && Mark(s[0]) { MarksLeftShorter(s[1..]); }
  }

  lemma {:induction false} MarksRightShorter(s: string)
    ensures |MarksRight(s)| <= |s|
  {
    if s != "" && Mark(s[|s| - 1]) { MarksRightShorter(s[..|s| - 1]); }
  }

  lemma MarksKeptIff(s: string)
    ensures |StripMarks(s)| <= |s|
    ensures s != "" ==> (|StripMarks(s)| == |s| <==> !Mark(s[0]) && !Mark(s[|s| - 1]))
  {
    MarksLeftShorter(s);
    MarksRightShorter(MarksLeft(s));
    if s != "" {
      MarksLeftShorter(s[1..]);
      MarksRightShorter(s[..|s| - 1]);
    }
  }

  // The token of a value is its first word exactly when that word is clean; it is the whole value only
  // when the value is that word; there is none when the word starts with a separator.
  lemma TokenIsFirstWord(v: string)
    requires WordsOf(v) != []
    ensures var w := WordsOf(v)[0];
            && w != "" && (Token(v) == None <==> !In(ValueChars, w[0]))
            && (Token(v) == Some(w) <==> CleanWord(w)) && (Token(v) == Some(v) ==> v == w)
  {
    FirstWord(v);
    var u := StripLeft(v);
    var x, y := Run(WordChars, u), Run(ValueChars, u);
    ValueRunInWord(u);
    MarksKeptIff(u[..y]);
    RunIsLongest(ValueChars, u);
    RunIsLongest(WordChars, u);
    if CleanWord(u[..x]) {
      SplitAt(u, x);
      RunStops(ValueChars, u[..x], u[x..]);
      MarksKept(u[..x]);
    }
    StripLeftSuffix(v);
  }

  function JoinWords(ws: seq<string>): string {
    if ws == [] then "" else if |ws| == 1 then ws[0] else ws[0] + " " + JoinWords(ws[1..])
  }

  // Words that each follow a space.
  function Lined(ws: seq<string>): string {
    if ws == [] then "" else " " + (ws[0] + Lined(ws[1..]))
  }

  lemma {:induction false} JoinIsLined(ws: seq<string>)
    ensures ws != [] ==> Lined(ws) == " " + JoinWords(ws)
  {
    if |ws| > 1 {
      JoinIsLined(ws[1..]);
      assert ws[0] + (" " + JoinWords(ws[1..])) == ws[0] + " " + JoinWords(ws[1..]);
    } else if |ws| == 1 {
      assert ws[0] + "" == ws[0];
    }
  }

  // Joined words go on with the rest of the words.
  lemma {:induction false} JoinSplit(ws: seq<string>, k: nat)
    requires 0 < k <= |ws|
    ensures JoinWords(ws) == JoinWords(ws[..k]) + Lined(ws[k..])
  {
    JoinIsLined(ws[1..]);
    if k == 1 {
      if |ws| == 1 { assert ws[0] + "" == ws[0]; }
      assert |ws| > 1 ==> ws[0] + (" " + JoinWords(ws[1..])) == ws[0] + " " + JoinWords(ws[1..]);
    } else {
      JoinSplit(ws[1..], k - 1);
      assert ws[..k][1..] == ws[1..][..k - 1] && ws[1..][k - 1..] == ws[k..];
      var a, b := JoinWords(ws[1..][..k - 1]), Lined(ws[k..]);
      assert (ws[0] + " ") + (a + b) == (ws[0] + " " + a) + b;
    }
  }

  lemma {:induction false} WordsOfJoined(ws: seq<string>)
    requires forall w | w in ws :: w != "" && AllIn(WordChars, w)
    ensures WordsOf(JoinWords(ws)) == ws
  {
    if |ws| == 1 {
      assert ws[0] in ws && ws[0] + "" == ws[0];
      WordThenRest(ws[0], "");
    } else if ws != [] {
      assert forall w | w in ws[1..] :: w in ws;
      WordsOfJoined(ws[1..]);
      var rest := JoinWords(ws[1..]);
      assert ws[0] + " " + rest == ws[0] + (" " + rest) && (" " + rest)[1..] == rest;
      assert ws[0] in ws;
      WordThenRest(ws[0], " " + rest);
    }
  }

  lemma WordThenRest(w: string, rest: string)
    requires w != "" && AllIn(WordChars, w) && (rest == "" || IsSpace(rest[0]))
    ensures WordsOf(w + rest) == [w] + WordsOf(rest)
  {
    RunStops(WordChars, w, rest);
  }

  lemma {:induction false} WordsOfBlank(sp: string, r: string)
    requires AllIn(Spaces, sp)
    ensures WordsOf(sp + r) == WordsOf(r)
  {
    if sp == "" {
      assert sp + r == r;
    } else {
      DropConcat(sp, r);
      WordsOfBlank(sp[1..], r);
    }
  }

  // Behind any text, white space and words can be replaced by the words, a space before each.
  lemma {:induction false} ScanLined(s: string, t: string)
    requires t == "" || IsSpace(t[0])
    ensures Scan(true, s + t) == Scan(true, s + Lined(WordsOf(t)))
    decreases |t|
  {
    if t != "" {
      var n := Run(Spaces, t);
      var sp, w := t[..n], t[n..];
      RunIsLongest(Spaces, t);
      assert t == sp + w;
      WordsOfBlank(sp, w);
      if w == "" {
        ScanTrailing(true, s, t);
        assert sp == t && s + "" == s;
      } else {
        ScanOneSpace(true, s, sp, w);
        NextWord(s, w);
        var m := Run(WordChars, w);
        RunIsLongest(WordChars, w);
        ScanLined(s + (" " + w[..m]), w[m..]);
      }
    }
  }

  lemma NextWord(s: string, w: string)
    requires w != "" && !IsSpace(w[0])
    ensures var m := Run(WordChars, w);
            && 0 < m && s + (" " + w) == (s + (" " + w[..m])) + w[m..]
            && (s + (" " + w[..m])) + Lined(WordsOf(w[m..])) == s + Lined(WordsOf(w))
  {
    var m := Run(WordChars, w);
    SplitAt(w, m);
    WordMoved(s, w[..m], w[m..]);
    WordMoved(s, w[..m], Lined(WordsOf(w[m..])));
    LinedFirst(w[..m], WordsOf(w[m..]));
  }

  lemma SplitAt(w: string, m: nat)
    requires m <= |w|
    ensures w == w[..m] + w[m..]
  {
  }

  lemma WordMoved(s: string, a: string, b: string)
    ensures s + (" " + (a + b)) == (s + (" " + a)) + b
  {
  }

  lemma LinedFirst(w: string, ws: seq<string>)
    ensures Lined([w] + ws) == " " + (w + Lined(ws))
  {
    assert ([w] + ws)[1..] == ws;
  }

  // A text and its words joined by spaces assert the same.
  lemma ScanWords(text: string)
    ensures Scan(true, text) == Scan(true, JoinWords(WordsOf(text)))
  {
    var t := " " + text;
    assert t[1..] == text;
    ScanSpace(true, t);
    ScanLined("", t);
    var ws := WordsOf(text);
    assert WordsOf(t) == ws;
    assert "" + t == t && "" + Lined(ws) == Lined(ws);
    JoinIsLined(ws);
    if ws != [] {
      assert Lined(ws)[1..] == JoinWords(ws);
      ScanSpace(true, Lined(ws));
    }
  }

  // The first words of a text assert a prefix of what it asserts.
  lemma FirstWordsRead(text: string, k: nat)
    requires k <= |WordsOf(text)|
    ensures Scan(true, JoinWords(WordsOf(text)[..k])) <= Scan(true, text)
  {
    var ws := WordsOf(text);
    if k > 0 {
      ScanWords(text);
      JoinSplit(ws, k);
      JoinIsLined(ws[k..]);
      ScanPrefix(true, JoinWords(ws[..k]), Lined(ws[k..]));
    }
  }

  // ---- Cutting ----

  const SUFFIX := " \U{2026} (truncated)"
  const ELLIPSIS := "\U{2026}"

  type Estimate = string -> nat

  function WithNotice(words: seq<string>): string {
    if words == [] then "" else JoinWords(words) + SUFFIX
  }

  // How many of the first n words fit with the notice.
  function Fitting(words: seq<string>, n: nat, max: int, est: Estimate): (k: nat)
    requires n <= |words|
    ensures k <= n
  {
    if n == 0 || est(WithNotice(words[..n])) <= max then n else Fitting(words, n - 1, max, est)
  }

  // The words that are kept when a text is cut.
  function Kept(text: string, max: int, est: Estimate): seq<string>
    requires max > 0
  {
    var words := WordsOf(text);
    words[..Fitting(words, Min(|words|, max), max, est)]
  }

  function Truncate(text: string, max: int, est: Estimate): (string, bool) {
    if max <= 0 then ("", est(text) > 0)
    else if est(text) <= max then (text, false)
    else if WordsOf(text) == [] then (text[..Min(|text|, max)], |text| > max)
    else (WithNotice(Kept(text, max, est)), true)
  }

  method TruncateSummary(text: string, max: int, est: Estimate) returns (summary: string, truncated: bool)
    ensures (summary, truncated) == Truncate(text, max, est)
  {
    if max <= 0 { return "", est(text) > 0; }
    if est(text) <= max { return text, false; }
    var words := WordsOf(text);
    if words == [] {
      return text[..Min(|text|, max)], |text| > max;
    }
    var keep := Min(|words|, max);
    while keep > 0
      invariant 0 <= keep <= |words|
      invariant Fitting(words, Min(|words|, max), max, est) == Fitting(words, keep, max, est)
    {
      var candidate := JoinWords(words[..keep]) + SUFFIX;
      if est(candidate) <= max { return candidate, true; }
      keep := keep - 1;
    }
    return "", true;
  }

  // Most words are kept: those that fit, and one more would not.
  lemma {:induction false} FittingMeaning(words: seq<string>, n: nat, max: int, est: Estimate)
    requires n <= |words|
    ensures var k := Fitting(words, n, max, est);
            && (k > 0 ==> est(WithNotice(words[..k])) <= max)
            && forall j | k < j <= n :: est(WithNotice(words[..j])) > max
  {
    if n > 0 && est(WithNotice(words[..n])) > max {
      FittingMeaning(words, n - 1, max, est);
    }
  }

  // A text over its budget keeps its first words and the notice: as many words as fit, no more than the
  // budget has tokens; none at all when not even one fits.
  lemma TruncateMeaning(text: string, max: int, est: Estimate) returns (k: nat)
    requires 0 < max < est(text) && WordsOf(text) != []
    ensures k <= |WordsOf(text)| && k <= max
    ensures Truncate(text, max, est) == (if k == 0 then "" else JoinWords(WordsOf(text)[..k]) + SUFFIX, true)
    ensures k > 0 ==> est(JoinWords(WordsOf(text)[..k]) + SUFFIX) <= max
    ensures forall j | k < j <= |WordsOf(text)| && j <= max :: est(JoinWords(WordsOf(text)[..j]) + SUFFIX) > max
  {
    var words := WordsOf(text);
    k := Fitting(words, Min(|words|, max), max, est);
    FittingMeaning(words, Min(|words|, max), max, est);
    forall j | k < j <= |words| && j <= max ensures est(JoinWords(words[..j]) + SUFFIX) > max {
      assert est(WithNotice(words[..j])) > max;
    }
  }

  // What is left fits the budget.
  lemma TruncateFits(text: string, max: int, est: Estimate)
    requires max >= 0 && est("") == 0 && est(text[..Min(|text|, max)]) <= Min(|text|, max)
    ensures est(Truncate(text, max, est).0) <= max
  {
    var words := WordsOf(text);
    if max > 0 {
      FittingMeaning(words, Min(|words|, max), max, est);
    }
  }

  // ---- What a cut text asserts ----

  lemma NoticeToken(notice: string)
    requires notice == SUFFIX
    ensures notice != "" && IsSpace(notice[0]) && '=' !in notice
    ensures var u := StripLeft(notice);
            Run(ValueChars, u) == 1 && StripMarks(u[..1]) == ELLIPSIS
  {
    NoticeParts(notice, " (truncated)");
    RunStops(ValueChars, ELLIPSIS, " (truncated)");
    MarksKept(ELLIPSIS);
  }

  lemma NoticeParts(notice: string, tail: string)
    requires notice == SUFFIX && tail == " (truncated)"
    ensures notice[..1] == " " && '=' !in notice && notice[1..] == ELLIPSIS + tail
  {
    assert notice == " " + (ELLIPSIS + tail);
  }

  // A key that the kept words leave without a value takes the notice's ellipsis for it.
  function Waiting(kept: string): seq<Pair> {
    match Dangling(true, kept) case None => [] case Some(key) => [(key, ELLIPSIS)]
  }

  lemma ScanWithNotice(kept: string, notice: string)
    requires notice == SUFFIX
    ensures Scan(true, kept + notice) == Scan(true, kept) + Waiting(kept)
  {
    NoticeToken(notice);
    ScanNotice(true, kept, notice);
  }

  // A cut text asserts what its kept words assert, which is a prefix of what the text asserted, and
  // the ellipsis for a key that was waiting for its value.
  lemma ScanCut(text: string, max: int, est: Estimate)
    requires 0 < max < est(text)
    ensures var kept := JoinWords(Kept(text, max, est));
            && Scan(true, kept) <= Scan(true, text)
            && Scan(true, Truncate(text, max, est).0) == Scan(true, kept) + Waiting(kept)
  {
    var words := WordsOf(text);
    var kept := Kept(text, max, est);
    FirstWordsRead(text, |kept|);
    if words == [] {
      BlankText(text);
      NothingAsserted(true, text[..Min(|text|, max)]);
    } else if kept != [] {
      ScanWithNotice(JoinWords(kept), SUFFIX);
    }
  }

  lemma {:induction false} BlankText(s: string)
    requires WordsOf(s) == []
    ensures AllIn(Spaces, s)
  {
    if s != "" {
      BlankText(s[1..]);
      assert s == [s[0]] + s[1..];
    }
  }

  // So the cut text asserts a prefix of what the text asserted if and only if its kept words leave no
  // key waiting, or that key's next value in the text reads as the ellipsis itself.
  lemma CutIsPrefixIff(text: string, max: int, est: Estimate)
    requires 0 < max < est(text)
    ensures var kept := JoinWords(Kept(text, max, est));
            var n := |Scan(true, kept)|;
            Scan(true, Truncate(text, max, est).0) <= Scan(true, text)
            <==> Waiting(kept) == [] || (n < |Scan(true, text)| && Scan(true, text)[n] == Waiting(kept)[0])
  {
    ScanCut(text, max, est);
    var kept := JoinWords(Kept(text, max, est));
    PrefixOneMore(Scan(true, kept), Waiting(kept), Scan(true, text));
  }

  lemma PrefixOneMore(a: seq<Pair>, b: seq<Pair>, c: seq<Pair>)
    requires a <= c && |b| <= 1
    ensures a + b <= c <==> b == [] || (|a| < |c| && c[|a|] == b[0])
  {
    if b == [] { assert a + b == a; }
  }

  lemma {:induction false} ValuesFromText(boundary: bool, s: string, c: char)
    ensures forall p | p in Scan(boundary, s) && c in p.1 :: c in s
    decreases |s|
  {
    if s != "" {
      if MatchHere(boundary, s).Some? {
        var h := MatchHere(boundary, s).value;
        ValuesFromText(EndsWord(h.value), h.rest, c);
        ValueFromText(boundary, s, c);
      } else {
        ValuesFromText(!Word(s[0]), s[1..], c);
      }
    }
  }

  lemma ValueFromText(boundary: bool, s: string, c: char)
    requires MatchHere(boundary, s).Some?
    ensures var h := MatchHere(boundary, s).value; (c in StripMarks(h.value) ==> c in s) && (c in h.rest ==> c in s)
  {
    var h := MatchHere(boundary, s).value;
    var after := s[Run(KeyChars, s)..];
    var t := StripLeft(after);
    var u := StripLeft(t[1..]);
    StripLeftPart(after, c);
    StripLeftPart(t[1..], c);
    StripMarksPart(h.value, c);
    Halves(u, Run(ValueChars, u), c);
    assert c in after ==> c in s;
    assert c in t[1..] ==> c in t;
  }

  lemma Halves(s: string, n: nat, c: char)
    requires n <= |s|
    ensures c in s[..n] || c in s[n..] ==> c in s
  {
  }

  lemma {:induction false} StripLeftPart(s: string, c: char)
    ensures c in StripLeft(s) ==> c in s
  {
    if s != "" && IsSpace(s[0]) { StripLeftPart(s[1..], c); }
  }

  lemma StripMarksPart(s: string, c: char)
    ensures c in StripMarks(s) ==> c in s
  {
    MarksLeftPart(s, c);
    MarksRightPart(MarksLeft(s), c);
  }

  lemma {:induction false} MarksLeftPart(s: string, c: char)
    ensures c in MarksLeft(s) ==> c in s
  {
    if s != "" && Mark(s[0]) { MarksLeftPart(s[1..], c); }
  }

  lemma {:induction false} MarksRightPart(s: string, c: char)
    ensures c in MarksRight(s) ==> c in s
  {
    if s != "" && Mark(s[|s| - 1]) { MarksRightPart(s[..|s| - 1], c); }
  }

  // In a text without an ellipsis of its own: if and only if what the kept words leave unread does not
  // end with a key and an equals sign.
  lemma CutIsPrefixIffNoOpenKey(text: string, max: int, est: Estimate)
    requires 0 < max < est(text) && ELLIPSIS[0] !in text
    ensures var (b, unread) := Unread(true, JoinWords(Kept(text, max, est)));
            Scan(true, Truncate(text, max, est).0) <= Scan(true, text) <==> !EndsWithOpenKey(b, unread)
  {
    var kept := JoinWords(Kept(text, max, est));
    CutIsPrefixIff(text, max, est);
    DanglingIff(true, kept);
    ValuesFromText(true, text, ELLIPSIS[0]);
    var n := |Scan(true, kept)|;
    if n < |Scan(true, text)| {
      assert Scan(true, text)[n] in Scan(true, text);
      assert ELLIPSIS[0] in ELLIPSIS;
    }
  }

  // ---- Texts in which every equals sign has something right behind it ----

  ghost predicate Tight(s: string) {
    forall i | 0 <= i < |s| && s[i] == '=' :: i + 1 < |s| && !IsSpace(s[i + 1])
  }

  // No word of a tight text ends with an equals sign.
  lemma {:induction false} TightWords(s: string)
    requires Tight(s)
    ensures forall w | w in WordsOf(s) :: w != "" && !IsSpace(w[|w| - 1]) && w[|w| - 1] != '='
    decreases |s|
  {
    if s != "" {
      if IsSpace(s[0]) {
        TightRest(s, 1);
        TightWords(s[1..]);
      } else {
        var n := Run(WordChars, s);
        RunIsLongest(WordChars, s);
        TightRest(s, n);
        TightWords(s[n..]);
        assert s[..n][n - 1] == s[n - 1];
        assert In(WordChars, s[..n][n - 1]);
      }
    }
  }

  lemma TightRest(s: string, n: nat)
    requires Tight(s) && n <= |s|
    ensures Tight(s[n..])
  {
    forall i | 0 <= i < |s[n..]| && s[n..][i] == '=' ensures i + 1 < |s[n..]| && !IsSpace(s[n..][i + 1]) {
      assert s[n + i] == '=';
    }
  }

  lemma {:induction false} JoinLast(ws: seq<string>)
    requires ws != [] && forall w | w in ws :: w != ""
    ensures var s, w := JoinWords(ws), ws[|ws| - 1]; s != "" && w != "" && s[|s| - 1] == w[|w| - 1]
  {
    assert ws[|ws| - 1] in ws;
    if |ws| > 1 {
      assert ws[1..][|ws| - 2] == ws[|ws| - 1];
      assert forall w | w in ws[1..] :: w in ws;
      JoinLast(ws[1..]);
      LastOfConcat(ws[0] + " ", JoinWords(ws[1..]));
    }
  }

  lemma LastOfConcat(a: string, b: string)
    requires b != ""
    ensures a + b != "" && (a + b)[|a + b| - 1] == b[|b| - 1]
  {
  }

  // So the first words of a tight text never leave a key waiting.
  lemma TightNeverWaits(text: string, k: nat)
    requires Tight(text) && k <= |WordsOf(text)|
    ensures Waiting(JoinWords(WordsOf(text)[..k])) == []
  {
    var ws := WordsOf(text)[..k];
    TightWords(text);
    if ws != [] {
      assert forall w | w in ws :: w in WordsOf(text);
      JoinLast(ws);
      assert ws[|ws| - 1] in ws;
      var kept := JoinWords(ws);
      if Dangling(true, kept).Some? { DanglingEnds(true, kept); }
    }
  }

  // A value without white space in front or right behind an equals sign.
  ghost predicate Snug(p: Pair) {
    DottedKey(p.0) && (p.1 == "" || !IsSpace(p.1[0])) && Tight(p.1 + ".")
  }

  lemma PlainIsSnug(p: Pair)
    requires Plain(p)
    ensures Snug(p)
  {
    var s := p.1 + ".";
    assert forall i | 0 <= i < |s| :: In(ValueChars, s[i]);
  }

  lemma TightConcat(a: string, b: string)
    requires Tight(a) && Tight(b)
    ensures Tight(a + b)
  {
    forall i | 0 <= i < |a + b| && (a + b)[i] == '=' ensures i + 1 < |a + b| && !IsSpace((a + b)[i + 1]) {
      if i >= |a| { assert b[i - |a|] == '='; }
    }
  }

  lemma TightAssertion(p: Pair, mark: char)
    requires Snug(p) && mark in {'.', ';'}
    ensures Tight(Assertion(p) + [mark])
  {
    var v := p.1 + [mark];
    assert forall i | 0 <= i < |p.1| :: v[i] == (p.1 + ".")[i];
    TightEquals(v);
    assert forall i | 0 <= i < |p.0| :: In(KeyChars, p.0[i]);
    TightConcat(p.0, "=" + v);
    assert Assertion(p) + [mark] == p.0 + ("=" + v);
  }

  lemma TightEquals(v: string)
    requires v != "" && !IsSpace(v[0]) && Tight(v)
    ensures Tight("=" + v)
  {
    forall i | 0 <= i < |"=" + v| && ("=" + v)[i] == '='
      ensures i + 1 < |"=" + v| && !IsSpace(("=" + v)[i + 1]) {
      if i > 0 { assert v[i - 1] == '='; }
    }
  }

  lemma SilentIsTight(s: string)
    requires '=' !in s
    ensures Tight(s)
  {
  }

  lemma {:induction false} TightContent(ps: seq<Pair>)
    requires forall i | 0 <= i < |ps| :: Snug(ps[i])
    ensures Tight(Content(ps))
  {
    if ps == [] {
      SilentIsTight(Content(ps));
    } else if |ps| == 1 {
      TightAssertion(ps[0], '.');
    } else {
      TightContent(ps[1..]);
      TightAssertion(ps[0], ';');
      var rest := Content(ps[1..]);
      SilentIsTight(" ");
      TightConcat(" ", rest);
      TightConcat(Assertion(ps[0]) + ";", " " + rest);
      ContentStarts(Assertion(ps[0]), Joined(ps[1..]));
      assert Assertion(ps[0]) + (";" + (" " + rest)) == (Assertion(ps[0]) + ";") + (" " + rest);
    }
  }

  // Whatever the budget, the rendering of snug pairs asserts a prefix of its readings, and all of them
  // when nothing was cut.
  lemma ScanSnug(ps: seq<Pair>, max: int, est: Estimate) returns (n: nat)
    requires forall i | 0 <= i < |ps| :: Snug(ps[i])
    ensures n <= |Readings(ps)| && Scan(true, Truncate(Content(ps), max, est).0) == Readings(ps)[..n]
    ensures !Truncate(Content(ps), max, est).1 && max > 0 ==> n == |Readings(ps)|
  {
    var text := Content(ps);
    ScanContentReads(ps);
    if max <= 0 {
      n := 0;
    } else if est(text) <= max {
      n := |Readings(ps)|;
    } else {
      ScanCut(text, max, est);
      TightContent(ps);
      TightNeverWaits(text, |Kept(text, max, est)|);
      var kept := JoinWords(Kept(text, max, est));
      n := |Scan(true, kept)|;
      assert Scan(true, kept) + [] == Scan(true, kept);
      ContentHasWords(ps);
    }
  }

  // The rendering is never blank, so it is cut by words.
  lemma ContentHasWords(ps: seq<Pair>)
    ensures WordsOf(Content(ps)) != []
  {
    var text := Content(ps);
    assert text[|text| - 1] == '.';
    SolidHasWords(text);
  }

  lemma {:induction false} SolidHasWords(s: string)
    requires s != "" && !IsSpace(s[|s| - 1])
    ensures WordsOf(s) != []
  {
    if IsSpace(s[0]) { SolidHasWords(s[1..]); }
  }

  // For plain pairs the readings are the pairs.
  lemma ScanSummary(ps: seq<Pair>, max: int, est: Estimate) returns (n: nat)
    requires AllPlain(ps)
    ensures n <= |ps| && Scan(true, Truncate(Content(ps), max, est).0) == ps[..n]
    ensures !Truncate(Content(ps), max, est).1 && max > 0 ==> n == |ps|
  {
    PlainReadings(ps);
    forall i | 0 <= i < |ps| ensures Snug(ps[i]) {
      PlainIsSnug(ps[i]);
    }
    n := ScanSnug(ps, max, est);
  }
}
