/** HS256 bearer tokens: encoding, and the splitting and signature path of verification. */
module Jwt {
  import opened Prelude
  import opened Text
  import opened Base64Url

  type Octets = seq<Byte>

  // JSON, UTF-8 and HMAC-SHA256 are taken as given functions.
  datatype Env<!Json> = Env(
    dumps: Json -> Octets,
    loads: Octets -> Option<Json>,
    alg: Json -> Option<string>,
    hs256Header: Json,
    utf8: string -> Octets,
    hmac: (Octets, Octets) -> Octets)

  // Dumping and loading are inverse, and the header written by the encoder names HS256.
  ghost predicate Sound<Json(!new)>(env: Env<Json>) {
    && (forall x :: env.loads(env.dumps(x)) == Some(x))
    && env.alg(env.hs256Header) == Some("HS256")
  }

  datatype Settings = Settings(algorithm: string, secret: string)

  datatype JwtError =
    | NotAJwt | MalformedHeader | AlgMismatch | NoSecret | SignatureMismatch | MalformedPayload
    | OtherAlgorithm
    | NonAsciiPayload | SignaturePadding  // library errors that are not turned into a JwtError

  function ExpectedAlg(settings: Settings): string {
    Upper(if settings.algorithm != "" then settings.algorithm else "HS256")
  }

  // The code points of ASCII text.
  function Ascii(s: string): Octets
    requires IsAscii(s)
  {
    seq(|s|, i requires 0 <= i < |s| && s[i] as int < 128 =>
      var n := s[i] as int; Byte(n / 64, n / 16 % 4, n / 4 % 4, n % 4))
  }

  lemma AsciiMeaning(s: string)
    requires IsAscii(s)
    ensures |Ascii(s)| == |s| && forall i | 0 <= i < |s| :: Code(Ascii(s)[i]) == s[i] as int
  {
  }

  predicate IsAscii(s: string) {
    forall i | 0 <= i < |s| :: s[i] as int < 128
  }

  function LoadSegment<Json>(env: Env<Json>, segment: string): Option<Json> {
    match Unseg(segment)
    case Some(raw) => env.loads(raw)
    case None => None
  }

  function SigningInput(header: string, payload: string): string {
    header + "." + payload
  }

  lemma InputAscii(header: Octets, payload: Octets)
    ensures IsAscii(SigningInput(Seg(header), Seg(payload)))
  {
    SegPlain(header);
    SegPlain(payload);
    var input := SigningInput(Seg(header), Seg(payload));
    forall i | 0 <= i < |input| ensures input[i] as int < 128 {
      assert input[i] in Seg(header) || input[i] == '.' || input[i] in Seg(payload);
    }
  }

  // RS256 and ES256 go to a foreign library and end here as OtherAlgorithm.
  function Verify<Json>(env: Env<Json>, token: string, settings: Settings): Result<Json, JwtError> {
    var parts := Split(token, '.');
    if |parts| != 3 then Err(NotAJwt)
    else
      var header := LoadSegment(env, parts[0]);
      if header.None? then Err(MalformedHeader)
      else if env.alg(header.value) != Some(ExpectedAlg(settings)) then Err(AlgMismatch)
      else if ExpectedAlg(settings) != "HS256" then Err(OtherAlgorithm)
      else if settings.secret == "" then Err(NoSecret)
      else
        var input := SigningInput(parts[0], parts[1]);
        if !IsAscii(input) then Err(NonAsciiPayload)
        else
          var expected := env.hmac(env.utf8(settings.secret), Ascii(input));
          match Unseg(parts[2])
          case None => Err(SignaturePadding)
          case Some(signature) =>
            if signature != expected then Err(SignatureMismatch)
            else match LoadSegment(env, parts[1])
              case None => Err(MalformedPayload)
              case Some(claims) => Ok(claims)
  }

  function EncodeHs256<Json>(env: Env<Json>, claims: Json, secret: string): string {
    var header, payload := Seg(env.dumps(env.hs256Header)), Seg(env.dumps(claims));
    var input := SigningInput(header, payload);
    InputAscii(env.dumps(env.hs256Header), env.dumps(claims));
    input + "." + Seg(env.hmac(env.utf8(secret), Ascii(input)))
  }

  lemma ThreeParts(a: string, b: string, c: string)
    requires '.' !in a && '.' !in b && '.' !in c
    ensures Split(SigningInput(a, b) + "." + c, '.') == [a, b, c]
  {
    var rest := b + ['.'] + c;
    assert SigningInput(a, b) + "." + c == a + ['.'] + rest;
    SplitFirst(a, rest, '.');
    SplitFirst(b, c, '.');
    SplitPlain(c, '.');
  }

  lemma EncodedParts<Json>(env: Env<Json>, claims: Json, secret: string)
    ensures var header, payload := env.dumps(env.hs256Header), env.dumps(claims);
            var input := SigningInput(Seg(header), Seg(payload));
            && IsAscii(input)
            && var signature := env.hmac(env.utf8(secret), Ascii(input));
               Split(EncodeHs256(env, claims, secret), '.') == [Seg(header), Seg(payload), Seg(signature)]
  {
    var header, payload := env.dumps(env.hs256Header), env.dumps(claims);
    SegPlain(header);
    SegPlain(payload);
    InputAscii(header, payload);
    var input := SigningInput(Seg(header), Seg(payload));
    var signature := env.hmac(env.utf8(secret), Ascii(input));
    SegPlain(signature);
    ThreeParts(Seg(header), Seg(payload), Seg(signature));
  }

  // A token encoded under one secret verifies, and gives back its claims, exactly under settings
  // that expect HS256 with a secret that signs the same (section 7.1 of RFC 7515).
  lemma VerifyEncoded<Json(!new)>(env: Env<Json>, claims: Json, secret: string, settings: Settings)
    requires Sound(env)
    ensures var input := SigningInput(Seg(env.dumps(env.hs256Header)), Seg(env.dumps(claims)));
            && IsAscii(input)
            && var r := Verify(env, EncodeHs256(env, claims, secret), settings);
               && (r.Ok? <==> ExpectedAlg(settings) == "HS256" && settings.secret != ""
                              && env.hmac(env.utf8(settings.secret), Ascii(input))
                                 == env.hmac(env.utf8(secret), Ascii(input)))
               && (r.Ok? ==> r.value == claims)
  {
    var header, payload := env.dumps(env.hs256Header), env.dumps(claims);
    EncodedParts(env, claims, secret);
    UnsegSeg(header);
    UnsegSeg(payload);
    UnsegSeg(env.hmac(env.utf8(secret), Ascii(SigningInput(Seg(header), Seg(payload)))));
  }

  // In particular a token verifies under the settings whose secret signed it.
  lemma EncodedTokenVerifies<Json(!new)>(env: Env<Json>, claims: Json, settings: Settings)
    requires Sound(env) && settings.secret != "" && ExpectedAlg(settings) == "HS256"
    ensures Verify(env, EncodeHs256(env, claims, settings.secret), settings) == Ok(claims)
  {
    VerifyEncoded(env, claims, settings.secret, settings);
  }

  // ---- Which tokens verify ----

  // The name of the algorithm, in any letter case.
  predicate NamesHs256(name: string) {
    |name| == 5 && name[0] in {'H', 'h'} && name[1] in {'S', 's'} && name[2..] == "256"
  }

  lemma UpperHs256(name: string)
    ensures Upper(name) == "HS256" <==> NamesHs256(name)
  {
    if |name| == 5 {
      assert name[2..] == [name[2], name[3], name[4]];
      assert Upper(name) == [UpperChar(name[0]), UpperChar(name[1]), UpperChar(name[2]), UpperChar(name[3]),
                             UpperChar(name[4])];
    }
  }

  lemma ThreePartsOnly(token: string)
    requires |Split(token, '.')| == 3
    ensures var p := Split(token, '.');
            token == p[0] + "." + p[1] + "." + p[2] && '.' !in p[0] && '.' !in p[1] && '.' !in p[2]
  {
    SplitBack(token, '.');
    SplitFree(token, '.');
    var p := Split(token, '.');
    assert p[1..][1..][1..] == [];
    assert Fields(p[1..][1..], '.') == "." + p[2] + "";
    assert Fields(p[1..], '.') == "." + p[1] + ("." + p[2]);
  }

  // What a token has to be, part by part, for its claims to be accepted.
  ghost predicate Signed<Json(!new)>(env: Env<Json>, token: string, a: string, b: string, c: string,
                                     settings: Settings, claims: Json)
  {
    && token == a + "." + b + "." + c && '.' !in a && '.' !in b && '.' !in c
    && (settings.algorithm == "" || NamesHs256(settings.algorithm)) && settings.secret != ""
    && Unseg(a).Some? && env.loads(Unseg(a).value).Some?
    && env.alg(env.loads(Unseg(a).value).value) == Some("HS256")
    && IsAscii(a + "." + b) && Unseg(c) == Some(env.hmac(env.utf8(settings.secret), Ascii(a + "." + b)))
    && Unseg(b).Some? && env.loads(Unseg(b).value) == Some(claims)
  }

  // Any token verifies if and only if it has exactly three parts, HS256 is expected and named in its
  // header, and its third part is the signature of the first two under the configured secret.
  lemma VerifyIff<Json(!new)>(env: Env<Json>, token: string, settings: Settings, claims: Json)
    ensures Verify(env, token, settings) == Ok(claims)
            <==> exists a, b, c :: Signed(env, token, a, b, c, settings, claims)
  {
    UpperHs256(settings.algorithm);
    UpperHs256("HS256");
    var parts := Split(token, '.');
    if Verify(env, token, settings) == Ok(claims) {
      ThreePartsOnly(token);
      assert Signed(env, token, parts[0], parts[1], parts[2], settings, claims);
    }
    if a, b, c :| Signed(env, token, a, b, c, settings, claims) {
      ThreeParts(a, b, c);
    }
  }
}
