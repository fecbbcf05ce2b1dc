/**
 Text operations on ASCII letters and white space: case, stripping, and splitting at a separator, which
 gives back the fields that were joined when none of them contains it.
 */
module Text {

  function LowerChar(c: char): char {
    if 'A' <= c <= 'Z' then c + 32 as char else c
  }

  function UpperChar(c: char): char {
    if 'a' <= c <= 'z' then c - 32 as char else c
  }

  function Lower(s: string): string {
    seq(|s|, i requires 0 <= i < |s| => LowerChar(s[i]))
  }

  function Upper(s: string): string {
    seq(|s|, i requires 0 <= i < |s| => UpperChar(s[i]))
  }

  predicate IsSpace(c: char) {
    || c == ' ' || c == '\t' || c == '\n' || c == '\r' || c == 11 as char || c == 12 as char
    || 28 as char <= c <= 31 as char
  }

  // The same by code points.
  predicate White(c: char) {
    9 <= c as int <= 13 || 28 <= c as int <= 32
  }

  function StripLeft(s: string): (r: string)
    ensures |r| <= |s|
  {
    if s != "" && IsSpace(s[0]) then StripLeft(s[1..]) else s
  }

  function StripRight(s: string): string {
    if s != "" && IsSpace(s[|s| - 1]) then StripRight(s[..|s| - 1]) else s
  }

  function Strip(s: string): string {
    StripRight(StripLeft(s))
  }

  // Neither end is white space.
  predicate Trimmed(s: string) {
    s == "" || (!IsSpace(s[0]) && !IsSpace(s[|s| - 1]))
  }

  lemma {:induction false} StripLeftTrims(s: string)
    ensures var t := StripLeft(s); t == "" || !IsSpace(t[0])
  {
    if s != "" && IsSpace(s[0]) {
      StripLeftTrims(s[1..]);
    }
  }

  lemma {:induction false} StripRightTrims(s: string)
    requires s == "" || !IsSpace(s[0])
    ensures Trimmed(StripRight(s))
  {
    if s != "" && IsSpace(s[|s| - 1]) {
      StripRightTrims(s[..|s| - 1]);
    }
  }

  lemma StripTrims(s: string)
    ensures Trimmed(Strip(s))
  {
    StripLeftTrims(s);
    StripRightTrims(StripLeft(s));
  }

  lemma StripTrimmed(s: string)
    requires Trimmed(s)
    ensures Strip(s) == s
  {
  }

  lemma LowerLower(s: string)
    ensures Lower(Lower(s)) == Lower(s)
    ensures Trimmed(s) ==> Trimmed(Lower(s))
  {
  }

  // Stripped text is what stands between the white space at both ends.
  lemma {:induction false} StripLeftMeaning(s: string) returns (i: nat)
    ensures i <= |s| && StripLeft(s) == s[i..] && forall k | 0 <= k < i :: IsSpace(s[k])
  {
    i := 0;
    if s != "" && IsSpace(s[0]) {
      var j := StripLeftMeaning(s[1..]);
      i := j + 1;
      assert forall k | 0 < k < i :: s[k] == s[1..][k - 1];
    }
  }

  lemma {:induction false} StripRightMeaning(s: string) returns (j: nat)
    ensures j <= |s| && StripRight(s) == s[..j] && forall k | j <= k < |s| :: IsSpace(s[k])
  {
    j := |s|;
    if s != "" && IsSpace(s[|s| - 1]) {
      j := StripRightMeaning(s[..|s| - 1]);
      assert forall k | j <= k < |s| - 1 :: s[k] == s[..|s| - 1][k];
    }
  }

  lemma StripMeaning(s: string) returns (i: nat, j: nat)
    ensures i <= j <= |s| && Strip(s) == s[i..j] && Trimmed(s[i..j])
    ensures forall k | 0 <= k < i || j <= k < |s| :: IsSpace(s[k])
  {
    i := StripLeftMeaning(s);
    var n := StripRightMeaning(s[i..]);
    j := i + n;
    StripTrims(s);
    assert s[i..][..n] == s[i..j];
    assert forall k | j <= k < |s| :: s[k] == s[i..][k - i];
  }

  // Stripped and lower-cased text: the stretch between white space at both ends, its capital letters
  // replaced by small ones.
  ghost predicate Folds(s: string, t: string, i: nat, j: nat) {
    && i <= j <= |s| && |t| == j - i
    && (forall k | 0 <= k < i || j <= k < |s| :: White(s[k]))
    && (i < j ==> !White(s[i]) && !White(s[j - 1]))
    && forall k | 0 <= k < |t| ::
         t[k] as int == s[i + k] as int + if 'A' <= s[i + k] <= 'Z' then 32 else 0
  }

  lemma FoldMeaning(s: string)
    ensures exists i, j :: Folds(s, Lower(Strip(s)), i, j)
  {
    var i, j := StripMeaning(s);
    assert Folds(s, Lower(Strip(s)), i, j);
  }

  lemma DropConcat(head: string, rest: string)
    requires head != ""
    ensures (head + rest)[1..] == head[1..] + rest && (head + rest)[0] == head[0]
  {
  }

  // ---- Splitting at a separator ----

  function Split(s: string, sep: char): (parts: seq<string>)
    ensures parts != []
  {
    if s == "" then [""]
    else
      var rest := Split(s[1..], sep);
      if s[0] == sep then [""] + rest else [[s[0]] + rest[0]] + rest[1..]
  }

  lemma {:induction false} SplitPlain(s: string, sep: char)
    requires sep !in s
    ensures Split(s, sep) == [s]
  {
    if s != "" {
      SplitPlain(s[1..], sep);
      assert [s[0]] + s[1..] == s;
    }
  }

  // Text up to the first separator is the first part.
  lemma {:induction false} SplitFirst(head: string, tail: string, sep: char)
    requires sep !in head
    ensures Split(head + [sep] + tail, sep) == [head] + Split(tail, sep)
  {
    var s := head + [sep] + tail;
    if head == "" {
      assert s[1..] == tail;
    } else {
      SplitFirst(head[1..], tail, sep);
      assert s[1..] == head[1..] + [sep] + tail;
      assert [head[0]] + head[1..] == head;
    }
  }

  // Separator-free fields, each preceded by the separator.
  function Fields(fields: seq<string>, sep: char): string {
    if fields == [] then "" else [sep] + fields[0] + Fields(fields[1..], sep)
  }

  lemma {:induction false} SplitFields(fields: seq<string>, sep: char)
    requires forall f | f in fields :: sep !in f
    ensures Split(Fields(fields, sep), sep) == [""] + fields
  {
    if fields != [] {
      SplitFields(fields[1..], sep);
      var rest := Fields(fields[1..], sep);
      assert Fields(fields, sep)[1..] == fields[0] + rest;
      if |fields| == 1 {
        assert fields[0] + rest == fields[0];
        SplitPlain(fields[0], sep);
        assert fields == [fields[0]];
      } else {
        assert rest[0] == sep && rest == [sep] + rest[1..];
        assert fields[0] + rest == fields[0] + [sep] + rest[1..];
        SplitFirst(fields[0], rest[1..], sep);
        assert Split(rest, sep) == [""] + Split(rest[1..], sep);
        assert ([""] + Split(rest[1..], sep))[1..] == Split(rest[1..], sep);
        assert ([""] + fields[1..])[1..] == fields[1..];
        assert [fields[0]] + fields[1..] == fields;
      }
    }
  }

  // The parts of a split text are free of the separator and give the text back.
  lemma {:induction false} SplitBack(s: string, sep: char)
    ensures var parts := Split(s, sep); s == parts[0] + Fields(parts[1..], sep)
  {
    if s != "" {
      SplitBack(s[1..], sep);
      var rest := Split(s[1..], sep);
      assert s == [s[0]] + s[1..];
      if s[0] == sep {
        assert ([""] + rest)[1..] == rest;
        assert Fields(rest, sep) == [sep] + rest[0] + Fields(rest[1..], sep);
        assert [sep] + rest[0] + Fields(rest[1..], sep) == [sep] + (rest[0] + Fields(rest[1..], sep));
      } else {
        assert ([[s[0]] + rest[0]] + rest[1..])[1..] == rest[1..];
      }
    }
  }

  lemma {:induction false} SplitFree(s: string, sep: char)
    ensures forall f | f in Split(s, sep) :: sep !in f
  {
    if s != "" { SplitFree(s[1..], sep); }
  }

  lemma FieldsInjective(a: seq<string>, b: seq<string>, sep: char)
    requires (forall f | f in a :: sep !in f) && (forall f | f in b :: sep !in f)
    requires Fields(a, sep) == Fields(b, sep)
    ensures a == b
  {
    SplitFields(a, sep);
    SplitFields(b, sep);
    assert a == ([""] + a)[1..] && b == ([""] + b)[1..];
  }
}
