/**
  The TLS ClientHello parser: from the bytes of a first segment to the host name of its
  server_name extension (section 4.1.2 of RFC 8446, section 3 of RFC 6066).
 */
module ClientHello {
  import opened Common

  const RECORD_HANDSHAKE: uint8 := 0x16
  const RECORD_APPLICATION_DATA: uint8 := 0x17
  const HANDSHAKE_CLIENT_HELLO: uint8 := 0x01
  const HOST_NAME: uint8 := 0x00
  const SERVER_NAME: uint16 := 0

  type Bytes = seq<uint8>

  /** A part of the parsed bytes. */
  datatype View = View(start: nat, length: nat)

  const NO_NAME := View(0, 0)

  datatype ParseResult = ParseResult(isTls: bool, isClientHello: bool, sni: View)

  function ReadU16(p: Bytes, i: nat): (x: uint16)
    requires i + 2 <= |p|
  {
    256 * p[i] as nat + p[i + 1] as nat
  }

  // ---------- The parser as a function

  /** The host name in a server_name extension whose data is at `o`. */
  function NameAt(p: Bytes, o: nat, length: nat, end: nat): View
    requires o + length <= end <= |p|
  {
    if length < 5 || length < 2 + ReadU16(p, o) || ReadU16(p, o) < 3 then NO_NAME
    else if p[o + 2] == HOST_NAME && o + 5 + ReadU16(p, o + 3) <= end && ReadU16(p, o + 3) > 0 then
      View(o + 5, ReadU16(p, o + 3))
    else NO_NAME
  }

  /** Walks the extensions up to the first server_name. */
  function Scan(p: Bytes, o: nat, end: nat): View
    requires end <= |p|
    decreases end - o
  {
    if o + 4 > end || o + 4 + ReadU16(p, o + 2) > end then NO_NAME
    else if ReadU16(p, o) == SERVER_NAME then NameAt(p, o + 4, ReadU16(p, o + 2), end)
    else Scan(p, o + 4 + ReadU16(p, o + 2), end)
  }

  /** Past a vector with a one-byte length. */
  function SkipShort(p: Bytes, o: nat): Option<nat> {
    if |p| < o + 1 then None else Some(o + 1 + p[o] as nat)
  }

  /** Past a vector with a two-byte length. */
  function SkipLong(p: Bytes, o: nat): Option<nat> {
    if |p| < o + 2 then None else Some(o + 2 + ReadU16(p, o))
  }

  /** Where the extensions start: behind session id, cipher suites and compression methods. */
  function ExtensionsAt(p: Bytes): Option<nat> {
    var a := SkipShort(p, 43);
    if a.None? then None else
    var b := SkipLong(p, a.value);
    if b.None? then None else SkipShort(p, b.value)
  }

  function Name(p: Bytes): View {
    var at := ExtensionsAt(p);
    if at.None? then NO_NAME else
    var end := SkipLong(p, at.value);
    if end.None? || end.value > |p| then NO_NAME else Scan(p, at.value + 2, end.value)
  }

  function Parse(p: Bytes): ParseResult {
    if |p| < 9 then ParseResult(false, false, NO_NAME)
    else if p[0] != RECORD_HANDSHAKE then ParseResult(p[0] == RECORD_APPLICATION_DATA, false, NO_NAME)
    else if ReadU16(p, 1) < 0x0300 || ReadU16(p, 1) > 0x0304 || |p| < 5 + ReadU16(p, 3)
            || p[5] != HANDSHAKE_CLIENT_HELLO then ParseResult(true, false, NO_NAME)
    else ParseResult(true, true, Name(p))
  }

  // ---------- The parser

  /** The loop over the extensions. */
  method FindName(p: Bytes, start: nat, end: nat) returns (sni: View)
    requires end <= |p|
    ensures sni == Scan(p, start, end)
  {
    var offset: nat := start;
    while offset + 4 <= end
      invariant Scan(p, offset, end) == Scan(p, start, end)
      decreases end - offset
    {
      var kind := ReadU16(p, offset);
      var length := ReadU16(p, offset + 2);
      offset := offset + 4;
      if offset + length > end {
        return NO_NAME;
      }
      if kind == SERVER_NAME {
        if length < 5 {
          return NO_NAME;
        }
        var listLength: nat := ReadU16(p, offset);
        if length < 2 + listLength || listLength < 3 {
          return NO_NAME;
        }
        var nameType := p[offset + 2];
        var nameLength := ReadU16(p, offset + 3);
        if nameType == HOST_NAME && offset + 5 + nameLength <= end && nameLength > 0 {
          return View(offset + 5, nameLength);
        }
        return NO_NAME;
      }
      offset := offset + length;
    }
    return NO_NAME;
  }

  method ParseClientHello(p: Bytes) returns (r: ParseResult)
    ensures r == Parse(p)
    ensures r.sni.start + r.sni.length <= |p|
  {
    ScanInside(p);
    if |p| < 9 {
      return ParseResult(false, false, NO_NAME);
    }
    if p[0] != RECORD_HANDSHAKE {
      return ParseResult(p[0] == RECORD_APPLICATION_DATA, false, NO_NAME);
    }
    r := ParseResult(true, false, NO_NAME);
    var version := ReadU16(p, 1);
    if version < 0x0300 || version > 0x0304 {
      return;
    }
    var recordLength: nat := ReadU16(p, 3);
    if |p| < 5 + recordLength || p[5] != HANDSHAKE_CLIENT_HELLO {
      return;
    }
    r := ParseResult(true, true, NO_NAME);
    var offset: nat := 43;
    if |p| < offset + 1 {
      return;
    }
    offset := offset + 1 + p[offset] as nat;
    if |p| < offset + 2 {
      return;
    }
    offset := offset + 2 + ReadU16(p, offset);
    if |p| < offset + 1 {
      return;
    }
    offset := offset + 1 + p[offset] as nat;
    if |p| < offset + 2 {
      return;
    }
    var extensionsLength := ReadU16(p, offset);
    offset := offset + 2;
    if |p| < offset + extensionsLength {
      return;
    }
    var sni := FindName(p, offset, offset + extensionsLength);
    r := ParseResult(true, true, sni);
  }

  /** The returned name lies inside the bytes, whatever they are. */
  lemma ScanInside(p: Bytes)
    ensures Parse(p).sni.start + Parse(p).sni.length <= |p|
  {
    var at := ExtensionsAt(p);
    if at.Some? {
      var end := SkipLong(p, at.value);
      if end.Some? && end.value <= |p| {
        FoundFrom(p, at.value + 2, end.value);
      }
    }
  }

  /** `o` is reached from `start` over whole extensions of other types. */
  ghost predicate Reached(p: Bytes, start: nat, o: nat, end: nat)
    requires end <= |p|
    decreases end - start
  {
    || start == o
    || (start + 4 <= end && start + 4 + ReadU16(p, start + 2) <= end && ReadU16(p, start) != 0
        && Reached(p, start + 4 + ReadU16(p, start + 2), o, end))
  }

  /** At `o` is a whole server_name extension, long enough for its list, that begins with the host name in `v`. */
  ghost predicate HostNameAt(p: Bytes, o: nat, end: nat, v: View)
    requires end <= |p|
  {
    && o + 9 <= end && ReadU16(p, o) == 0
    && 5 <= ReadU16(p, o + 2) && o + 4 + ReadU16(p, o + 2) <= end
    && 3 <= ReadU16(p, o + 4) && 2 + ReadU16(p, o + 4) <= ReadU16(p, o + 2)
    && p[o + 6] == 0 && v == View(o + 9, ReadU16(p, o + 7)) && v.length > 0
    && v.start + v.length <= end
  }

  lemma {:induction false} FoundFrom(p: Bytes, start: nat, end: nat)
    requires end <= |p|
    ensures Scan(p, start, end) == NO_NAME
         || exists o: nat :: Reached(p, start, o, end) && HostNameAt(p, o, end, Scan(p, start, end))
    decreases end - start
  {
    if Scan(p, start, end) != NO_NAME {
      if ReadU16(p, start) == SERVER_NAME {
        assert Reached(p, start, start, end) && HostNameAt(p, start, end, Scan(p, start, end));
      } else {
        var next := start + 4 + ReadU16(p, start + 2);
        FoundFrom(p, next, end);
        var o: nat :| Reached(p, next, o, end) && HostNameAt(p, o, end, Scan(p, next, end));
        assert Reached(p, start, o, end);
      }
    }
  }

  lemma {:induction false} ReachedIsFound(p: Bytes, start: nat, o: nat, end: nat, v: View)
    requires end <= |p| && Reached(p, start, o, end) && HostNameAt(p, o, end, v)
    ensures Scan(p, start, end) == v
    decreases end - start
  {
    if start != o {
      ReachedIsFound(p, start + 4 + ReadU16(p, start + 2), o, end, v);
    }
  }

  /** On all bytes: a name is returned exactly when it is the host name of the first server_name extension. */
  lemma ScanExact(p: Bytes, start: nat, end: nat, v: View)
    requires end <= |p| && v.length > 0
    ensures Scan(p, start, end) == v <==> exists o: nat :: Reached(p, start, o, end) && HostNameAt(p, o, end, v)
  {
    FoundFrom(p, start, end);
    if o: nat :| Reached(p, start, o, end) && HostNameAt(p, o, end, v) {
      ReachedIsFound(p, start, o, end, v);
    }
  }

  /** The bytes hold a whole handshake record of SSL 3.0 to TLS 1.3 whose message is a ClientHello. */
  ghost predicate IsHello(p: Bytes) {
    |p| >= 9 && p[0] == 0x16 && 0x0300 <= ReadU16(p, 1) <= 0x0304 && |p| >= 5 + ReadU16(p, 3) && p[5] == 0x01
  }

  /** On all bytes: what is reported as TLS and what as a ClientHello; nothing else has a name. */
  lemma KindExact(p: Bytes)
    ensures Parse(p).isTls <==> |p| >= 9 && (p[0] == 0x16 || p[0] == 0x17)
    ensures Parse(p).isClientHello <==> IsHello(p)
    ensures !IsHello(p) ==> Parse(p).sni.length == 0
  {
  }

  /**
    The extensions of the message take the bytes from `at` to below `end`: they follow the
    fixed part of 43 bytes, session id, cipher suites and compression methods.
   */
  ghost predicate Extensions(p: Bytes, at: nat, end: nat) {
    && 44 <= |p|
    && var ciphers := 44 + p[43] as nat;
    && ciphers + 2 <= |p|
    && var compression := ciphers + 2 + ReadU16(p, ciphers);
    && compression + 1 <= |p|
    && at == compression + 1 + p[compression] as nat + 2 <= |p|
    && end == at + ReadU16(p, at - 2) <= |p|
  }

  /** The parser scans exactly those bytes. */
  lemma ScansExtensions(p: Bytes)
    requires IsHello(p)
    ensures forall at: nat, end: nat :: Extensions(p, at, end) ==> Parse(p).sni == Scan(p, at, end)
    ensures (forall at: nat, end: nat :: !Extensions(p, at, end)) ==> Parse(p).sni == NO_NAME
  {
    var at := ExtensionsAt(p);
    if at.Some? && SkipLong(p, at.value).Some? && SkipLong(p, at.value).value <= |p| {
      assert Extensions(p, at.value + 2, SkipLong(p, at.value).value);
    }
  }

  /** `o` is where the first server_name extension of the message starts; `end` is the end of all extensions. */
  ghost predicate FirstServerName(p: Bytes, o: nat, end: nat) {
    exists at: nat :: Extensions(p, at, end) && Reached(p, at, o, end) && o + 4 <= end && ReadU16(p, o) == 0
  }

  /** On all bytes: the parser returns exactly the host name of the first server_name extension of a ClientHello. */
  lemma ParseExact(p: Bytes, v: View)
    requires v.length > 0
    ensures Parse(p).sni == v <==>
            IsHello(p) && exists o: nat, end: nat :: FirstServerName(p, o, end) && HostNameAt(p, o, end, v)
  {
    KindExact(p);
    if IsHello(p) {
      ScansExtensions(p);
      if at: nat, end: nat :| Extensions(p, at, end) {
        ScanExact(p, at, end, v);
        if o: nat :| Reached(p, at, o, end) && HostNameAt(p, o, end, v) {
          assert FirstServerName(p, o, end);
        }
      }
    }
  }

  lemma {:induction false} ScanReached(p: Bytes, start: nat, o: nat, end: nat)
    requires end <= |p| && Reached(p, start, o, end)
    ensures Scan(p, start, end) == Scan(p, o, end)
    decreases end - start
  {
    if start != o {
      ScanReached(p, start + 4 + ReadU16(p, start + 2), o, end);
    }
  }

  /**
    The name that the parser returns lies inside its extension exactly when its length leaves
    room for the 5 bytes before it. The parser only compares with the end of all extensions.
   */
  lemma NameInside(p: Bytes, o: nat, end: nat)
    requires Parse(p).sni.length > 0 && FirstServerName(p, o, end)
    ensures var sni := Parse(p).sni;
            sni.start + sni.length <= o + 4 + ReadU16(p, o + 2) <==> 5 + sni.length <= ReadU16(p, o + 2)
  {
    KindExact(p);
    ScansExtensions(p);
    var at: nat :| Extensions(p, at, end) && Reached(p, at, o, end);
    ScanReached(p, at, o, end);
  }

  // ---------- Well-formed messages

  datatype AnyExtension =
    | ServerName(name: Bytes)
    | Other(kind: uint16, data: Bytes)
  {
    /** The data fits behind a two-byte length. */
    predicate Fits() {
      match this
      case ServerName(name) => |name| + 5 < TWO16
      case Other(kind, data) => kind != SERVER_NAME && |data| < TWO16
    }
  }

  type Extension = e: AnyExtension | e.Fits() witness ServerName([])

  datatype Hello = Hello(
    recordVersion: uint16, version: uint16, random: Bytes, sessionId: Bytes,
    ciphers: Bytes, compression: Bytes, extensions: seq<Extension>)

  /** A vector behind its one-byte length. */
  function Short(v: Bytes): Bytes
    requires |v| < 0x100
  {
    [|v| as uint8] + v
  }

  /** A vector behind its two-byte length. */
  ghost function Long(v: Bytes): Bytes
    requires |v| < TWO16
  {
    BigEndian(|v|) + v
  }

  /** A server_name list with one host name. */
  ghost function NameList(name: Bytes): Bytes
    requires |name| + 5 < TWO16
  {
    Long([HOST_NAME] + Long(name))
  }

  ghost function EncodeExtension(e: Extension): Bytes {
    match e
    case ServerName(name) => BigEndian(SERVER_NAME) + Long(NameList(name))
    case Other(kind, data) => BigEndian(kind) + Long(data)
  }

  ghost function Join<T>(encode: T -> Bytes, es: seq<T>): Bytes {
    if es == [] then [] else encode(es[0]) + Join(encode, es[1..])
  }

  ghost function EncodeExtensions(es: seq<Extension>): Bytes {
    Join(EncodeExtension, es)
  }

  /** The fields of `h` and an extension block of the bytes `ext` fit in one record. */
  ghost predicate Fits(h: Hello, ext: Bytes) {
    && 0x0300 <= h.recordVersion <= 0x0304
    && |h.random| == 32 && |h.sessionId| < 0x100 && |h.ciphers| < TWO16 && |h.compression| < 0x100
    && |ext| < TWO16 && |Body(h, ext)| + 4 < TWO16
  }

  ghost predicate Valid(h: Hello) {
    Fits(h, EncodeExtensions(h.extensions))
  }

  ghost function Body(h: Hello, ext: Bytes): Bytes
    requires |h.random| == 32 && |h.sessionId| < 0x100 && |h.ciphers| < TWO16 && |h.compression| < 0x100
    requires |ext| < TWO16
  {
    BigEndian(h.version) + h.random
    + (Short(h.sessionId) + (Long(h.ciphers) + (Short(h.compression) + Long(ext))))
  }

  /** The record header and the handshake header of a message of `n` bytes. */
  ghost function Head(version: uint16, n: nat): Bytes
    requires n + 4 < TWO16
  {
    [RECORD_HANDSHAKE] + BigEndian(version) + BigEndian(n + 4) + [HANDSHAKE_CLIENT_HELLO, 0] + BigEndian(n)
  }

  /** The TLS record that carries a message with the extension block `ext`. */
  ghost function Record(h: Hello, ext: Bytes): Bytes
    requires Fits(h, ext)
  {
    Head(h.recordVersion, |Body(h, ext)|) + Body(h, ext)
  }

  ghost function Encode(h: Hello): Bytes
    requires Valid(h)
  {
    Record(h, EncodeExtensions(h.extensions))
  }

  /** The host name that a client asks for: the first server_name extension decides. */
  ghost function HostName(es: seq<Extension>): Bytes {
    if es == [] then []
    else match es[0]
      case ServerName(name) => name
      case Other(_, _) => HostName(es[1..])
  }

  // ---------- Round trip

  /** `s` stands in `p` from `o` on. */
  ghost predicate At(p: Bytes, o: nat, s: Bytes) {
    o + |s| <= |p| && forall i | 0 <= i < |s| :: p[o + i] == s[i]
  }

  lemma AtSplit(p: Bytes, o: nat, s: Bytes, t: Bytes)
    requires At(p, o, s + t)
    ensures At(p, o, s) && At(p, o + |s|, t)
  {
    forall i | 0 <= i < |s| ensures p[o + i] == s[i] {
      assert s[i] == (s + t)[i];
    }
    forall i | 0 <= i < |t| ensures p[o + |s| + i] == t[i] {
      assert t[i] == (s + t)[|s| + i];
    }
  }

  lemma AtU16(p: Bytes, o: nat, x: uint16)
    requires At(p, o, BigEndian(x))
    ensures ReadU16(p, o) == x
  {
    var s := BigEndian(x);
    assert p[o + 0] == s[0] && p[o + 1] == s[1];
  }

  lemma AtShort(p: Bytes, o: nat, v: Bytes)
    requires |v| < 0x100 && At(p, o, Short(v))
    ensures SkipShort(p, o) == Some(o + |Short(v)|)
  {
    assert p[o + 0] == Short(v)[0];
  }

  lemma AtLong(p: Bytes, o: nat, v: Bytes)
    requires |v| < TWO16 && At(p, o, Long(v))
    ensures SkipLong(p, o) == Some(o + |Long(v)|)
    ensures ReadU16(p, o) == |v| && At(p, o + 2, v)
  {
    AtSplit(p, o, BigEndian(|v|), v);
    AtU16(p, o, |v|);
  }

  function NonEmpty(start: nat, length: nat): View {
    if length == 0 then NO_NAME else View(start, length)
  }

  /** The host name of a server_name extension is found. */
  lemma AtName(p: Bytes, o: nat, name: Bytes, end: nat)
    requires |name| + 5 < TWO16 && At(p, o, NameList(name)) && o + |NameList(name)| <= end <= |p|
    ensures NameAt(p, o, |NameList(name)|, end) == NonEmpty(o + 5, |name|) && At(p, o + 5, name)
  {
    var list := [HOST_NAME] + Long(name);
    AtLong(p, o, list);
    assert p[o + 2 + 0] == list[0];
    AtSplit(p, o + 2, [HOST_NAME], Long(name));
    AtLong(p, o + 3, name);
  }

  lemma AtServerName(p: Bytes, o: nat, name: Bytes, end: nat)
    requires |name| + 5 < TWO16 && At(p, o, EncodeExtension(ServerName(name)))
    requires o + |EncodeExtension(ServerName(name))| <= end <= |p|
    ensures Scan(p, o, end) == NonEmpty(o + 9, |name|) && At(p, o + 9, name)
  {
    AtSplit(p, o, BigEndian(SERVER_NAME), Long(NameList(name)));
    AtU16(p, o, SERVER_NAME);
    AtLong(p, o + 2, NameList(name));
    AtName(p, o + 4, name, end);
  }

  lemma AtOther(p: Bytes, o: nat, kind: uint16, data: Bytes, end: nat)
    requires kind != SERVER_NAME && |data| < TWO16 && At(p, o, EncodeExtension(Other(kind, data)))
    requires o + |EncodeExtension(Other(kind, data))| <= end <= |p|
    ensures Scan(p, o, end) == Scan(p, o + |EncodeExtension(Other(kind, data))|, end)
  {
    AtSplit(p, o, BigEndian(kind), Long(data));
    AtU16(p, o, kind);
    AtLong(p, o + 2, data);
  }

  /** Scanning an extension at `o` that takes `length` bytes finds its name or goes on behind it. */
  ghost predicate Scanned(p: Bytes, scan: nat -> View, e: Extension, o: nat, length: nat) {
    match e
    case ServerName(name) => scan(o) == NonEmpty(o + 9, |name|) && At(p, o + 9, name)
    case Other(_, _) => scan(o) == scan(o + length)
  }

  /** Scanning a list of extensions finds the first name, if each extension is scanned right. */
  lemma {:induction false} AtJoin(
    p: Bytes, o: nat, encode: Extension -> Bytes, scan: nat -> View, es: seq<Extension>, end: nat) returns (at: nat)
    requires At(p, o, Join(encode, es)) && end == o + |Join(encode, es)| && scan(end) == NO_NAME
    requires forall e: Extension, o: nat | o + |encode(e)| <= end && At(p, o, encode(e)) ::
               Scanned(p, scan, e, o, |encode(e)|)
    ensures scan(o) == NonEmpty(at, |HostName(es)|) && At(p, at, HostName(es))
    decreases |es|
  {
    if es == [] {
      at := 0;
    } else {
      AtSplit(p, o, encode(es[0]), Join(encode, es[1..]));
      assert Scanned(p, scan, es[0], o, |encode(es[0])|);
      match es[0]
      case ServerName(name) =>
        at := o + 9;
      case Other(_, _) =>
        at := AtJoin(p, o + |encode(es[0])|, encode, scan, es[1..], end);
    }
  }

  lemma AtExtensions(p: Bytes, o: nat, es: seq<Extension>) returns (at: nat)
    requires At(p, o, EncodeExtensions(es))
    ensures Scan(p, o, o + |EncodeExtensions(es)|) == NonEmpty(at, |HostName(es)|) && At(p, at, HostName(es))
  {
    var end := o + |EncodeExtensions(es)|;
    var scan := (o: nat) => Scan(p, o, end);
    forall e: Extension, o: nat | o + |EncodeExtension(e)| <= end && At(p, o, EncodeExtension(e))
      ensures Scanned(p, scan, e, o, |EncodeExtension(e)|)
    {
      match e
      case ServerName(name) => AtServerName(p, o, name, end);
      case Other(kind, data) => AtOther(p, o, kind, data, end);
    }
    at := AtJoin(p, o, EncodeExtension, scan, es, end);
  }

  /** The variable-length fields in front of the extensions are skipped. */
  lemma AtFields(p: Bytes, sessionId: Bytes, ciphers: Bytes, compression: Bytes, rest: Bytes)
    requires |sessionId| < 0x100 && |ciphers| < TWO16 && |compression| < 0x100
    requires At(p, 43, Short(sessionId) + (Long(ciphers) + (Short(compression) + rest)))
    ensures var at := ExtensionsAt(p);
            && at.Some? && At(p, at.value, rest)
            && at.value == 43 + |Short(sessionId)| + |Long(ciphers)| + |Short(compression)|
  {
    var a := 43 + |Short(sessionId)|;
    AtSplit(p, 43, Short(sessionId), Long(ciphers) + (Short(compression) + rest));
    AtShort(p, 43, sessionId);
    AtSplit(p, a, Long(ciphers), Short(compression) + rest);
    AtLong(p, a, ciphers);
    AtSplit(p, a + |Long(ciphers)|, Short(compression), rest);
    AtShort(p, a + |Long(ciphers)|, compression);
  }

  lemma AtHead(p: Bytes, version: uint16, n: nat)
    requires n + 4 < TWO16 && At(p, 0, Head(version, n))
    ensures p[0] == RECORD_HANDSHAKE && p[5] == HANDSHAKE_CLIENT_HELLO
    ensures ReadU16(p, 1) == version && ReadU16(p, 3) == n + 4
  {
    var head := Head(version, n);
    assert p[0 + 0] == head[0] && p[0 + 1] == head[1] && p[0 + 2] == head[2];
    assert p[0 + 3] == head[3] && p[0 + 4] == head[4] && p[0 + 5] == head[5];
  }

  /** The fields of a message stand where the parser looks for them. */
  lemma AtRecord(p: Bytes, h: Hello, ext: Bytes) returns (o: nat)
    requires Fits(h, ext) && At(p, 0, Record(h, ext))
    ensures ExtensionsAt(p) == Some(o) && At(p, o, Long(ext)) && o + |Long(ext)| == |Record(h, ext)|
    ensures Parse(p) == ParseResult(true, true, Name(p))
  {
    var body := Body(h, ext);
    AtSplit(p, 0, Head(h.recordVersion, |body|), body);
    AtHead(p, h.recordVersion, |body|);
    var fields := Short(h.sessionId) + (Long(h.ciphers) + (Short(h.compression) + Long(ext)));
    AtSplit(p, 9, BigEndian(h.version) + h.random, fields);
    AtFields(p, h.sessionId, h.ciphers, h.compression, Long(ext));
    o := ExtensionsAt(p).value;
  }

  /** What a view shows. */
  function Shown(p: Bytes, v: View): Bytes
    requires v.start + v.length <= |p|
  {
    p[v.start..v.start + v.length]
  }

  lemma AtShown(p: Bytes, at: nat, s: Bytes)
    requires At(p, at, s)
    ensures var v := NonEmpty(at, |s|);
            v.start + v.length <= |p| && Shown(p, v) == s
  {
    if s != [] {
      forall i | 0 <= i < |s| ensures p[at..at + |s|][i] == s[i] {
        assert p[at + i] == s[i];
      }
    }
  }

  lemma AtStart(s: Bytes, more: Bytes)
    ensures At(s + more, 0, s)
  {
  }

  lemma NameOfHello(p: Bytes, h: Hello) returns (at: nat)
    requires Valid(h) && At(p, 0, Encode(h))
    ensures Parse(p) == ParseResult(true, true, NonEmpty(at, |HostName(h.extensions)|))
    ensures At(p, at, HostName(h.extensions))
  {
    var o := AtRecord(p, h, EncodeExtensions(h.extensions));
    AtLong(p, o, EncodeExtensions(h.extensions));
    at := AtExtensions(p, o + 2, h.extensions);
  }

  /**
    For every well-formed ClientHello, followed by any bytes, the parser returns the host
    name of its server_name extension, or an empty name when it has none.
   */
  lemma RoundTrip(h: Hello, more: Bytes)
    requires Valid(h)
    ensures var p := Encode(h) + more;
            var r := Parse(p);
            && r.isTls && r.isClientHello
            && r.sni.start + r.sni.length <= |p| && Shown(p, r.sni) == HostName(h.extensions)
  {
    AtStart(Encode(h), more);
    var at := NameOfHello(Encode(h) + more, h);
    AtShown(Encode(h) + more, at, HostName(h.extensions));
  }

  // ---------- A name from behind its extension

  /** A server_name extension of 5 bytes that announces a name of 20 bytes, and 20 bytes behind it. */
  ghost function Overlong(rest: Bytes): Bytes {
    BigEndian(SERVER_NAME) + BigEndian(5) + BigEndian(3) + [HOST_NAME] + BigEndian(20) + rest
  }

  lemma AtOverlong(p: Bytes, o: nat, rest: Bytes)
    requires |rest| == 20 && At(p, o, Overlong(rest))
    ensures Scan(p, o, o + 29) == View(o + 9, 20) && ReadU16(p, o) == SERVER_NAME && ReadU16(p, o + 2) == 5
    ensures At(p, o + 9, rest)
  {
    var x := Overlong(rest);
    assert p[o + 0] == x[0] && p[o + 1] == x[1] && p[o + 2] == x[2] && p[o + 3] == x[3] && p[o + 4] == x[4];
    assert p[o + 5] == x[5] && p[o + 6] == x[6] && p[o + 7] == x[7] && p[o + 8] == x[8];
    forall i | 0 <= i < 20
      ensures p[o + 9 + i] == rest[i]
    {
      assert x[9 + i] == rest[i];
    }
  }

  /** The parser returns the 20 bytes `rest` as the name, and they start where the extension at `o` ends. */
  ghost predicate NamedOutside(p: Bytes, o: nat, rest: Bytes) {
    && FirstServerName(p, o, |p|) && o + 29 <= |p|
    && Parse(p).sni == View(o + 9, 20) && o + 4 + ReadU16(p, o + 2) == o + 9
    && Shown(p, Parse(p).sni) == rest
  }

  lemma OutsideAt(p: Bytes, at: nat, rest: Bytes)
    requires |rest| == 20 && ExtensionsAt(p) == Some(at) && At(p, at, Long(Overlong(rest))) && at + 31 == |p|
    requires Parse(p) == ParseResult(true, true, Name(p))
    ensures NamedOutside(p, at + 2, rest)
  {
    AtLong(p, at, Overlong(rest));
    assert Extensions(p, at + 2, |p|);
    AtOverlong(p, at + 2, rest);
    AtShown(p, at + 11, rest);
  }

  lemma RecordAlone(h: Hello, ext: Bytes) returns (p: Bytes, at: nat)
    requires Fits(h, ext)
    ensures p == Record(h, ext) && ExtensionsAt(p) == Some(at) && At(p, at, Long(ext)) && at + 2 + |ext| == |p|
    ensures Parse(p) == ParseResult(true, true, Name(p))
  {
    p := Record(h, ext);
    AtStart(p, []);
    assert p + [] == p;
    at := AtRecord(p, h, ext);
  }

  /** A whole message, with any fields, whose returned name lies entirely behind its extension. */
  lemma NameOutside(h: Hello, rest: Bytes) returns (o: nat)
    requires |rest| == 20 && Fits(h, Overlong(rest))
    ensures NamedOutside(Record(h, Overlong(rest)), o, rest)
  {
    var p, at := RecordAlone(h, Overlong(rest));
    OutsideAt(p, at, rest);
    o := at + 2;
  }
}
