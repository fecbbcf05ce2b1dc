/** The printed names of the buffer's Redis keys. */
module KeyNames {
  import opened Text
  import opened Base64Url
  import opened Events
  import opened RedisBuffer

  // UTF-8 is any injective encoding here.
  type Encoding = string -> seq<Byte>

  ghost predicate Injective(utf8: Encoding) {
    forall s, t :: utf8(s) == utf8(t) ==> s == t
  }

  function SegOf(utf8: Encoding, s: string): string {
    Seg(utf8(s))
  }

  // The fields of a name after the prefix.
  function FieldsOf(utf8: Encoding, k: Key): seq<string> {
    match k
    case Data(slot) => ["data", SegOf(utf8, slot.workspace), SegOf(utf8, slot.session)]
    case Draining(slot, token) =>
      ["data", SegOf(utf8, slot.workspace), SegOf(utf8, slot.session), "draining", token]
    case SessionIndex(session) => ["index", SegOf(utf8, session)]
    case WorkspaceIndex(workspace) => ["workspace", SegOf(utf8, workspace), "sessions"]
    case AllSessions => ["sessions"]
  }

  // The printed name: the prefix, then every field after a colon.
  function Name(prefix: string, utf8: Encoding, k: Key): string {
    prefix + Fields(FieldsOf(utf8, k), ':')
  }

  // A token is 32 hexadecimal digits; only the absence of a colon matters.
  predicate PlainToken(k: Key) {
    k.Draining? ==> ':' !in k.token
  }

  lemma FieldsPlain(utf8: Encoding, k: Key)
    requires PlainToken(k)
    ensures forall f | f in FieldsOf(utf8, k) :: ':' !in f
  {
    match k
    case Data(slot) =>
      SegPlain(utf8(slot.workspace));
      SegPlain(utf8(slot.session));
    case Draining(slot, _) =>
      SegPlain(utf8(slot.workspace));
      SegPlain(utf8(slot.session));
    case SessionIndex(session) => SegPlain(utf8(session));
    case WorkspaceIndex(workspace) => SegPlain(utf8(workspace));
    case AllSessions =>
  }

  // Two keys share a printed name only if they are the same key; so live, draining and index keys
  // never coincide, and each is injective in its workspace, session and token.
  lemma NameInjective(prefix: string, utf8: Encoding, k: Key, l: Key)
    requires Injective(utf8) && PlainToken(k) && PlainToken(l)
    requires Name(prefix, utf8, k) == Name(prefix, utf8, l)
    ensures k == l
  {
    var f, g := Fields(FieldsOf(utf8, k), ':'), Fields(FieldsOf(utf8, l), ':');
    assert f == (prefix + f)[|prefix|..] && g == (prefix + g)[|prefix|..];
    FieldsPlain(utf8, k);
    FieldsPlain(utf8, l);
    FieldsInjective(FieldsOf(utf8, k), FieldsOf(utf8, l), ':');
    SameFields(utf8, k, l);
  }

  lemma SameFields(utf8: Encoding, k: Key, l: Key)
    requires Injective(utf8) && FieldsOf(utf8, k) == FieldsOf(utf8, l)
    ensures k == l
  {
    var f, g := FieldsOf(utf8, k), FieldsOf(utf8, l);
    assert |f| == |g| && f[0] == g[0];
    if k.Data? || k.Draining? {
      assert f[1] == g[1] && f[2] == g[2];
      SegInjective(utf8(k.slot.workspace), utf8(l.slot.workspace));
      SegInjective(utf8(k.slot.session), utf8(l.slot.session));
      if k.Draining? { assert f[4] == g[4]; }
    } else if k.SessionIndex? {
      assert f[1] == g[1];
      SegInjective(utf8(k.session), utf8(l.session));
    } else if k.WorkspaceIndex? {
      assert f[1] == g[1];
      SegInjective(utf8(k.workspace), utf8(l.workspace));
    }
  }
}
