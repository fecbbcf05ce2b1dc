/**
 Base64 with the URL-safe alphabet (sections 4 and 5 of RFC 4648), with the padding dropped when encoding
 and put back before decoding.
 */
module Base64Url {
  import opened Prelude

  // A byte is four base-4 digits, most significant first; a base64 letter stands for three of them.
  type Digit = x: int | 0 <= x < 4

  datatype Byte = Byte(a: Digit, b: Digit, c: Digit, d: Digit)

  datatype Sextet = Sextet(a: Digit, b: Digit, c: Digit)

  function Number(s: Sextet): int {
    16 * s.a + 4 * s.b + s.c
  }

  function SextetOf(n: int): Sextet
    requires 0 <= n < 64
  {
    Sextet(n / 4 / 4, n / 4 % 4, n % 4)
  }

  // The alphabet: A-Z, a-z, 0-9, '-' and '_' for 0 to 63.
  function Letter(s: Sextet): char {
    var n := Number(s);
    if n < 26 then (n + 65) as char
    else if n < 52 then (n + 71) as char
    else if n < 62 then (n - 4) as char
    else if n == 62 then '-' else '_'
  }

  function Value(c: char): Option<Sextet> {
    if 'A' <= c <= 'Z' then Some(SextetOf(c as int - 65))
    else if 'a' <= c <= 'z' then Some(SextetOf(c as int - 71))
    else if '0' <= c <= '9' then Some(SextetOf(c as int + 4))
    else if c == '-' then Some(SextetOf(62))
    else if c == '_' then Some(SextetOf(63))
    else None
  }

  lemma NumberInverse(s: Sextet)
    ensures 0 <= Number(s) < 64 && SextetOf(Number(s)) == s
  {
    LastDigit(4 * s.a + s.b, s.c);
    LastDigit(s.a, s.b);
    assert Number(s) == 4 * (4 * s.a + s.b) + s.c;
  }

  lemma LastDigit(q: int, r: Digit)
    ensures (4 * q + r) / 4 == q && (4 * q + r) % 4 == r
  {
  }

  lemma LetterValue(s: Sextet)
    ensures Value(Letter(s)) == Some(s)
    ensures Letter(s) != '=' && Letter(s) != ':' && Letter(s) != '.' && Letter(s) as int < 128
  {
    NumberInverse(s);
  }

  const CAPITALS := "ABCDEFGHIJKLMNOPQRSTUVWXYZ"
  const SMALLS := "abcdefghijklmnopqrstuvwxyz"
  const DIGITS := "0123456789"

  // The URL-safe alphabet of section 5 of RFC 4648, by its numbers.
  lemma AlphabetMeaning(s: Sextet)
    ensures var n := Number(s);
            && 0 <= n < 64
            && Letter(s) == if n < 26 then CAPITALS[n] else if n < 52 then SMALLS[n - 26]
                            else if n < 62 then DIGITS[n - 52] else if n == 62 then '-' else '_'
  {
    NumberInverse(s);
    InARow(CAPITALS, 'A');
    InARow(SMALLS, 'a');
    InARow(DIGITS, '0');
  }

  lemma InARow(letters: string, first: char)
    requires (letters, first) in {(CAPITALS, 'A'), (SMALLS, 'a'), (DIGITS, '0')}
    ensures forall i | 0 <= i < |letters| :: letters[i] as int == first as int + i
  {
  }

  // The number a byte stands for.
  function Code(b: Byte): int {
    64 * b.a + 16 * b.b + 4 * b.c + b.d
  }

  // A block's bytes and its letters are the same number of 24 bits, most significant first; the bits a
  // shorter block lacks are zero.
  lemma BlockMeaning(x: Byte, y: Byte, z: Byte)
    ensures var v := Sextets([x, y, z]);
            |v| == 4 && 65536 * Code(x) + 256 * Code(y) + Code(z)
                        == 262144 * Number(v[0]) + 4096 * Number(v[1]) + 64 * Number(v[2]) + Number(v[3])
    ensures var v := Sextets([x, y]);
            |v| == 3 && 1024 * Code(x) + 4 * Code(y) == 4096 * Number(v[0]) + 64 * Number(v[1]) + Number(v[2])
    ensures var v := Sextets([x]); |v| == 2 && 16 * Code(x) == 64 * Number(v[0]) + Number(v[1])
  {
    assert [x, y, z][3..] == [];
  }

  // Three bytes become four sextets; a last block of one or two bytes becomes two or three.
  function Sextets(b: seq<Byte>): seq<Sextet> {
    if b == [] then []
    else
      var x := b[0];
      if |b| == 1 then [Sextet(x.a, x.b, x.c), Sextet(x.d, 0, 0)]
      else
        var y := b[1];
        if |b| == 2 then [Sextet(x.a, x.b, x.c), Sextet(x.d, y.a, y.b), Sextet(y.c, y.d, 0)]
        else
          var z := b[2];
          [Sextet(x.a, x.b, x.c), Sextet(x.d, y.a, y.b), Sextet(y.c, y.d, z.a), Sextet(z.b, z.c, z.d)]
          + Sextets(b[3..])
  }

  function Bytes(v: seq<Sextet>): Option<seq<Byte>> {
    if v == [] then Some([])
    else if |v| == 1 then None
    else
      var x := Byte(v[0].a, v[0].b, v[0].c, v[1].a);
      if |v| == 2 then Some([x])
      else
        var y := Byte(v[1].b, v[1].c, v[2].a, v[2].b);
        if |v| == 3 then Some([x, y])
        else
          var rest := Bytes(v[4..]);
          if rest.None? then None else Some([x, y, Byte(v[2].c, v[3].a, v[3].b, v[3].c)] + rest.value)
  }

  lemma {:induction false} BytesSextets(b: seq<Byte>)
    ensures Bytes(Sextets(b)) == Some(b)
  {
    if |b| >= 3 {
      BytesSextets(b[3..]);
      assert Sextets(b)[4..] == Sextets(b[3..]);
      assert b == [b[0], b[1], b[2]] + b[3..];
    } else if |b| == 2 {
      assert b == [b[0], b[1]];
    } else if |b| == 1 {
      assert b == [b[0]];
    }
  }

  function Letters(v: seq<Sextet>): string {
    seq(|v|, i requires 0 <= i < |v| => Letter(v[i]))
  }

  function Values(t: string): Option<seq<Sextet>> {
    if t == "" then Some([])
    else match (Value(t[0]), Values(t[1..]))
      case (Some(v), Some(rest)) => Some([v] + rest)
      case _ => None
  }

  lemma {:induction false} ValuesLetters(v: seq<Sextet>)
    ensures Values(Letters(v)) == Some(v)
  {
    if v != [] {
      ValuesLetters(v[1..]);
      LetterValue(v[0]);
      assert Letters(v)[1..] == Letters(v[1..]);
      assert v == [v[0]] + v[1..];
    }
  }

  // "=" * (-len(text) % 4)
  function Padding(length: int): string {
    var n: nat := (-length) % 4;
    seq(n, _ => '=')
  }

  function StripPadding(t: string): string {
    if t != "" && t[|t| - 1] == '=' then StripPadding(t[..|t| - 1]) else t
  }

  // urlsafe_b64encode
  function Encode(b: seq<Byte>): string {
    var t := Letters(Sextets(b));
    t + Padding(|t|)
  }

  // urlsafe_b64decode of padded text in the alphabet; None for its "incorrect padding" error.
  function Decode(t: string): Option<seq<Byte>> {
    var body := StripPadding(t);
    if |t| % 4 != 0 || |t| - |body| > 2 then None
    else match Values(body)
      case Some(v) => Bytes(v)
      case None => None
  }

  // The unpadded forms used for key segments and tokens.
  function Seg(b: seq<Byte>): string {
    StripPadding(Encode(b))
  }

  function Unseg(t: string): Option<seq<Byte>> {
    Decode(t + Padding(|t|))
  }

  lemma {:induction false} StripExact(body: string, pad: string)
    requires forall c | c in body :: c != '='
    requires forall c | c in pad :: c == '='
    ensures StripPadding(body + pad) == body
  {
    var t := body + pad;
    if pad == "" {
      assert t == body;
      assert body != "" ==> body[|body| - 1] in body;
    } else {
      var last := |pad| - 1;
      assert pad[last] in pad;
      forall c | c in pad[..last] ensures c == '=' { assert c in pad; }
      StripExact(body, pad[..last]);
      assert t[..|t| - 1] == body + pad[..last];
    }
  }

  lemma LettersPlain(v: seq<Sextet>)
    ensures forall c | c in Letters(v) :: c != '=' && c != ':' && c != '.' && c as int < 128
  {
    forall c | c in Letters(v) ensures c != '=' && c != ':' && c != '.' && c as int < 128 {
      var i :| 0 <= i < |v| && c == Letters(v)[i];
      LetterValue(v[i]);
    }
  }

  lemma SegLetters(b: seq<Byte>)
    ensures Seg(b) == Letters(Sextets(b))
  {
    var t := Letters(Sextets(b));
    LettersPlain(Sextets(b));
    StripExact(t, Padding(|t|));
  }

  lemma {:induction false} SextetsLength(b: seq<Byte>)
    ensures |Sextets(b)| % 4 != 1
  {
    if |b| >= 3 {
      SextetsLength(b[3..]);
    }
  }

  lemma PaddingFills(n: nat)
    ensures (n + |Padding(n)|) % 4 == 0 && (n % 4 != 1 ==> |Padding(n)| <= 2)
    ensures forall c | c in Padding(n) :: c == '='
  {
  }

  lemma DecodePadded(v: seq<Sextet>)
    requires |v| % 4 != 1
    ensures Decode(Letters(v) + Padding(|v|)) == Bytes(v)
  {
    LettersPlain(v);
    PaddingFills(|v|);
    StripExact(Letters(v), Padding(|v|));
    ValuesLetters(v);
  }

  // Section 5 of RFC 4648, without padding: decoding undoes encoding for every byte string.
  lemma UnsegSeg(b: seq<Byte>)
    ensures Unseg(Seg(b)) == Some(b)
  {
    SegLetters(b);
    SextetsLength(b);
    DecodePadded(Sextets(b));
    BytesSextets(b);
  }

  lemma SegInjective(a: seq<Byte>, b: seq<Byte>)
    requires Seg(a) == Seg(b)
    ensures a == b
  {
    UnsegSeg(a);
    UnsegSeg(b);
  }

  // A segment is plain ASCII text without a padding sign, a colon or a dot.
  lemma SegPlain(b: seq<Byte>)
    ensures forall c | c in Seg(b) :: c != '=' && c != ':' && c != '.' && c as int < 128
  {
    SegLetters(b);
    LettersPlain(Sextets(b));
  }
}
