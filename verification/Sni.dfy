/**
 Server-name extraction from a TLS ClientHello: the bounds-checked walk over the bytes,
 the wire grammar it accepts (section 4.1.2 of RFC 8446, section 3 of RFC 6066), and the
 proof that the walk finds a name exactly when the bytes decompose that way.
 `utf8` is the validity test applied to the name; the theorems hold for any such test.
 */
module Sni {
  import opened Basics

  type Bytes = seq<byte>

  function U16(hi: byte, lo: byte): nat {
    hi as nat * 256 + lo as nat
  }

  /** The two bytes that read back as `n`. */
  ghost function PutU16(n: nat): (b: Bytes)
    requires n < 0x1_0000
    ensures |b| == 2 && U16(b[0], b[1]) == n
  {
    var w: Bytes := [(n / 256) as byte, (n % 256) as byte];
    assert |w| == 2 && U16(w[0], w[1]) == n;
    var b: Bytes :| |b| == 2 && U16(b[0], b[1]) == n;
    b
  }

  function U24(a: byte, b: byte, c: byte): nat {
    a as nat * 0x1_0000 + b as nat * 256 + c as nat
  }

  ghost function PutU24(n: nat): (b: Bytes)
    requires n < 0x100_0000
    ensures |b| == 3 && U24(b[0], b[1], b[2]) == n
  {
    var w: Bytes := [(n / 0x1_0000) as byte, (n / 256 % 256) as byte, (n % 256) as byte];
    assert |w| == 3 && U24(w[0], w[1], w[2]) == n;
    var b: Bytes :| |b| == 3 && U24(b[0], b[1], b[2]) == n;
    b
  }

  // ---- Length-prefixed vectors ---------------------------------------------------

  ghost function PutVec8(v: Bytes): Bytes
    requires |v| < 256
  {
    [|v| as byte] + v
  }

  ghost function PutVec16(v: Bytes): Bytes
    requires |v| < 0x1_0000
  {
    PutU16(|v|) + v
  }

  /** Split off a vector with a one-byte length. */
  function Vec8(d: Bytes): (r: Option<(Bytes, Bytes)>)
    ensures r.Some? ==> |r.value.0| < 256 && d == PutVec8(r.value.0) + r.value.1
  {
    if |d| < 1 || 1 + d[0] as nat > |d| then None else Some((d[1..1 + d[0] as nat], d[1 + d[0] as nat..]))
  }

  /** Split off a vector with a two-byte length. */
  function Vec16(d: Bytes): (r: Option<(Bytes, Bytes)>)
    ensures r.Some? ==> |r.value.0| < 0x1_0000 && d == PutVec16(r.value.0) + r.value.1
  {
    if |d| < 2 || 2 + U16(d[0], d[1]) > |d| then None
    else
      var n := U16(d[0], d[1]);
      assert d[..2] == PutU16(n);
      Some((d[2..2 + n], d[2 + n..]))
  }

  lemma Vec8Reads(v: Bytes, rest: Bytes)
    requires |v| < 256
    ensures Vec8(PutVec8(v) + rest) == Some((v, rest))
  {
    var d := PutVec8(v) + rest;
    assert d[1..1 + |v|] == v && d[1 + |v|..] == rest;
  }

  lemma Vec16Reads(v: Bytes, rest: Bytes)
    requires |v| < 0x1_0000
    ensures Vec16(PutVec16(v) + rest) == Some((v, rest))
  {
    var d := PutVec16(v) + rest;
    assert d[0] == PutU16(|v|)[0] && d[1] == PutU16(|v|)[1];
    assert d[2..2 + |v|] == v && d[2 + |v|..] == rest;
  }

  // ---- The parser on values ---------------------------------------------------------

  function ParseSniExtension(d: Bytes, utf8: Bytes -> bool): Option<Bytes> {
    if |d| < 5 || U16(d[0], d[1]) + 2 > |d| || d[2] != 0 || 5 + U16(d[3], d[4]) > |d| then None
    else
      var host := d[5..5 + U16(d[3], d[4])];
      if utf8(host) then Some(host) else None
  }

  /** Walk the extension block to the first extension of type 0. */
  function Scan(block: Bytes, utf8: Bytes -> bool): Option<Bytes> {
    if |block| < 4 then None
    else
      var n := U16(block[2], block[3]);
      if 4 + n > |block| then None
      else if U16(block[0], block[1]) == 0 then ParseSniExtension(block[4..4 + n], utf8)
      else Scan(block[4 + n..], utf8)
  }

  predicate HeaderOk(d: Bytes) {
    && |d| >= 44
    && d[0] == 0x16
    && !(d[1] < 3 || (d[1] == 3 && d[2] < 1))
    && 5 + U16(d[3], d[4]) <= |d|
    && d[5] == 1
    && 9 + U24(d[6], d[7], d[8]) <= |d|
  }

  function AfterCompression(d: Bytes): Option<Bytes> {
    match Vec16(d)
    case None => None
    case Some((block, _)) => Some(block)
  }

  function AfterCiphers(d: Bytes): Option<Bytes> {
    match Vec8(d)
    case None => None
    case Some((_, rest)) => AfterCompression(rest)
  }

  function AfterSession(d: Bytes): Option<Bytes> {
    match Vec16(d)
    case None => None
    case Some((_, rest)) => AfterCiphers(rest)
  }

  /** The extension block, past session id, cipher suites and compression methods. */
  function Block(d: Bytes): Option<Bytes> {
    match Vec8(d)
    case None => None
    case Some((_, rest)) => AfterSession(rest)
  }

  function Extract(d: Bytes, utf8: Bytes -> bool): Option<Bytes> {
    if !HeaderOk(d) then None
    else
      match Block(d[43..])
      case None => None
      case Some(block) => Scan(block, utf8)
  }

  // ---- The parser as a walk over offsets -----------------------------------------------

  // Where the extension block lies, by offset arithmetic: one function per hop of the walk, each
  // shown to split one vector off the rest of the data.

  function Slice(data: Bytes, r: Option<(nat, nat)>): Option<Bytes>
    requires r.Some? ==> r.value.0 <= r.value.1 <= |data|
  {
    match r
    case None => None
    case Some((lo, hi)) => Some(data[lo..hi])
  }

  function ExtensionsFrom(data: Bytes, o: nat): (r: Option<(nat, nat)>)
    requires o + 2 <= |data|
    ensures r.Some? ==> r.value.0 <= r.value.1 <= |data|
  {
    var end := o + 2 + U16(data[o], data[o + 1]);
    if end > |data| then None else Some((o + 2, end))
  }

  function CompressionFrom(data: Bytes, o: nat): (r: Option<(nat, nat)>)
    requires o < |data|
    ensures r.Some? ==> r.value.0 <= r.value.1 <= |data|
  {
    var p := o + 1 + data[o] as nat;
    if p + 2 > |data| then None else ExtensionsFrom(data, p)
  }

  function CiphersFrom(data: Bytes, o: nat): (r: Option<(nat, nat)>)
    requires o + 2 <= |data|
    ensures r.Some? ==> r.value.0 <= r.value.1 <= |data|
  {
    var p := o + 2 + U16(data[o], data[o + 1]);
    if p >= |data| then None else CompressionFrom(data, p)
  }

  function Bounds(data: Bytes): (r: Option<(nat, nat)>)
    requires |data| >= 44
    ensures r.Some? ==> r.value.0 <= r.value.1 <= |data|
  {
    var p := 44 + data[43] as nat;
    if p + 2 > |data| then None else CiphersFrom(data, p)
  }

  lemma ExtensionsAt(data: Bytes, o: nat)
    requires o + 2 <= |data|
    ensures AfterCompression(data[o..]) == Slice(data, ExtensionsFrom(data, o))
  {
    var d, n := data[o..], U16(data[o], data[o + 1]);
    if 2 + n <= |d| {
      assert d[2..2 + n] == data[o + 2..o + 2 + n];
    }
  }

  lemma Vec8At(data: Bytes, o: nat)
    requires o < |data|
    ensures var n := data[o] as nat;
            && (o + 1 + n > |data| ==> Vec8(data[o..]) == None)
            && (o + 1 + n <= |data| ==> Vec8(data[o..]).Some? && Vec8(data[o..]).value.1 == data[o + 1 + n..])
  {
    var d, n := data[o..], data[o] as nat;
    if 1 + n <= |d| {
      assert d[1 + n..] == data[o + 1 + n..];
    }
  }

  lemma CompressionAt(data: Bytes, o: nat)
    requires o < |data|
    ensures AfterCiphers(data[o..]) == Slice(data, CompressionFrom(data, o))
  {
    var p := o + 1 + data[o] as nat;
    Vec8At(data, o);
    if p > |data| {
      assert AfterCiphers(data[o..]) == None;
    } else {
      assert AfterCiphers(data[o..]) == AfterCompression(data[p..]);
      if p + 2 <= |data| {
        ExtensionsAt(data, p);
      }
    }
  }

  lemma Vec16At(data: Bytes, o: nat)
    requires o + 2 <= |data|
    ensures var n := U16(data[o], data[o + 1]);
            && (o + 2 + n > |data| ==> Vec16(data[o..]) == None)
            && (o + 2 + n <= |data| ==> Vec16(data[o..]).Some? && Vec16(data[o..]).value.1 == data[o + 2 + n..])
  {
    var d, n := data[o..], U16(data[o], data[o + 1]);
    if 2 + n <= |d| {
      assert d[2 + n..] == data[o + 2 + n..];
    }
  }

  lemma CiphersAt(data: Bytes, o: nat)
    requires o + 2 <= |data|
    ensures AfterSession(data[o..]) == Slice(data, CiphersFrom(data, o))
  {
    var p := o + 2 + U16(data[o], data[o + 1]);
    Vec16At(data, o);
    if p > |data| {
      assert AfterSession(data[o..]) == None;
    } else {
      assert AfterSession(data[o..]) == AfterCiphers(data[p..]);
      if p < |data| {
        CompressionAt(data, p);
      }
    }
  }

  lemma BoundsOfBlock(data: Bytes)
    requires |data| >= 44
    ensures Block(data[43..]) == Slice(data, Bounds(data))
  {
    var p := 44 + data[43] as nat;
    Vec8At(data, 43);
    if p > |data| {
      assert Block(data[43..]) == None;
    } else {
      assert Block(data[43..]) == AfterSession(data[p..]);
      if p + 2 <= |data| {
        CiphersAt(data, p);
      }
    }
  }

  lemma SliceOfSlice(d: Bytes, a: nat, b: nat, i: nat, j: nat)
    requires a <= b <= |d| && i <= j <= b - a
    ensures d[a..b][i..j] == d[a + i..a + j]
  {
    assert forall k :: 0 <= k < j - i ==> d[a..b][i..j][k] == d[a + i..a + j][k];
  }

  /** One turn of the extension loop. */
  lemma ScanAt(data: Bytes, o: nat, end: nat, utf8: Bytes -> bool)
    requires o <= end <= |data|
    ensures Scan(data[o..end], utf8)
         == if o + 4 > end then None
            else
              var n := U16(data[o + 2], data[o + 3]);
              if o + 4 + n > end then None
              else if U16(data[o], data[o + 1]) == 0 then ParseSniExtension(data[o + 4..o + 4 + n], utf8)
              else Scan(data[o + 4 + n..end], utf8)
  {
    if o + 4 <= end {
      var rest, n := data[o..end], U16(data[o + 2], data[o + 3]);
      if o + 4 + n <= end {
        SliceOfSlice(data, o, end, 4, 4 + n);
        SliceOfSlice(data, o, end, 4 + n, end - o);
        assert rest[4 + n..] == rest[4 + n..end - o];
      }
    }
  }

  lemma ExtractByBounds(data: Bytes, utf8: Bytes -> bool)
    requires HeaderOk(data)
    ensures Bounds(data) == None ==> Extract(data, utf8) == None
    ensures Bounds(data).Some? ==> Extract(data, utf8) == Scan(data[Bounds(data).value.0..Bounds(data).value.1], utf8)
  {
    BoundsOfBlock(data);
  }

  /** The walk over the fixed fields and vectors, up to the extension block. */
  method FindBlock(data: Bytes) returns (bounds: Option<(nat, nat)>)
    requires |data| >= 44
    ensures bounds == Bounds(data)
  {
    var offset := 43;
    offset := offset + 1 + data[offset] as nat;
    if offset + 2 > |data| {
      return None;
    }
    offset := offset + 2 + U16(data[offset], data[offset + 1]);
    if offset >= |data| {
      return None;
    }
    offset := offset + 1 + data[offset] as nat;
    if offset + 2 > |data| {
      return None;
    }
    var extensionsLen := U16(data[offset], data[offset + 1]);
    offset := offset + 2;
    var end := offset + extensionsLen;
    if end > |data| {
      return None;
    }
    return Some((offset, end));
  }

  method ExtractSni(data: Bytes, utf8: Bytes -> bool) returns (name: Option<Bytes>)
    ensures name == Extract(data, utf8)
  {
    if !HeaderOk(data) {
      return None;
    }
    ExtractByBounds(data, utf8);
    var bounds := FindBlock(data);
    if bounds.None? {
      return None;
    }
    name := WalkExtensions(data, bounds.value.0, bounds.value.1, utf8);
  }

  /** The extension loop, from `start` to the end of the block. */
  method WalkExtensions(data: Bytes, start: nat, end: nat, utf8: Bytes -> bool) returns (name: Option<Bytes>)
    requires start <= end <= |data|
    ensures name == Scan(data[start..end], utf8)
  {
    var offset := start;
    while offset + 4 <= end
      invariant start <= offset <= end
      invariant Scan(data[start..end], utf8) == Scan(data[offset..end], utf8)
    {
      ScanAt(data, offset, end, utf8);
      var extType := U16(data[offset], data[offset + 1]);
      var extLen := U16(data[offset + 2], data[offset + 3]);
      offset := offset + 4;
      var extEnd := offset + extLen;
      if extEnd > end {
        return None;
      }
      if extType == 0 {
        return ParseSniExtension(data[offset..extEnd], utf8);
      }
      offset := extEnd;
    }
    ScanAt(data, offset, end, utf8);
    return None;
  }

  // ---- What it accepts ------------------------------------------------------------------

  datatype Extension = Extension(kind: nat, body: Bytes)

  ghost predicate ValidExtension(e: Extension) {
    0 < e.kind < 0x1_0000 && |e.body| < 0x1_0000
  }

  ghost predicate ValidExtensions(es: seq<Extension>) {
    forall i :: 0 <= i < |es| ==> ValidExtension(es[i])
  }

  /** One extension ahead of `rest`. */
  ghost function PutExtension(kind: nat, body: Bytes, rest: Bytes): Bytes
    requires kind < 0x1_0000 && |body| < 0x1_0000
  {
    PutU16(kind) + (PutVec16(body) + rest)
  }

  ghost function PutExtensions(es: seq<Extension>): Bytes
    requires ValidExtensions(es)
  {
    if es == [] then [] else PutExtension(es[0].kind, es[0].body, PutExtensions(es[1..]))
  }

  ghost function PutSniBody(listLen: nat, host: Bytes, names: Bytes): Bytes
    requires listLen < 0x1_0000 && |host| < 0x1_0000
  {
    PutU16(listLen) + ([0] + (PutVec16(host) + names))
  }

  ghost function PutBlock(before: seq<Extension>, sniBody: Bytes, after: Bytes): Bytes
    requires ValidExtensions(before) && |sniBody| < 0x1_0000
  {
    PutExtensions(before) + PutExtension(0, sniBody, after)
  }

  ghost function PutHeader(
    major: byte, minor: byte, recordLen: nat, handshakeLen: nat, versionAndRandom: Bytes): Bytes
    requires recordLen < 0x1_0000 && handshakeLen < 0x100_0000
  {
    var r, t := PutU16(recordLen), PutU24(handshakeLen);
    [0x16, major, minor, r[0], r[1], 1, t[0], t[1], t[2]] + versionAndRandom
  }

  /** Session id, cipher suites and compression methods, then `tail`. */
  ghost function PutFront(session: Bytes, ciphers: Bytes, compression: Bytes, tail: Bytes): Bytes
    requires |session| < 256 && |ciphers| < 0x1_0000 && |compression| < 256
  {
    PutVec8(session) + (PutVec16(ciphers) + (PutVec8(compression) + tail))
  }

  ghost function PutBody(session: Bytes, ciphers: Bytes, compression: Bytes, block: Bytes, trailing: Bytes): Bytes
    requires |session| < 256 && |ciphers| < 0x1_0000 && |compression| < 256 && |block| < 0x1_0000
  {
    PutFront(session, ciphers, compression, PutVec16(block) + trailing)
  }

  /**
   Everything the walk looks at. `before` are the extensions ahead of the server name, none of
   type 0; `names` is what follows the first name in its extension, `after` what follows that
   extension, `trailing` what follows the block. The two outer lengths are only
   required to stay inside the data.
   */
  datatype Hello = Hello(
    major: byte, minor: byte, recordLen: nat, handshakeLen: nat, versionAndRandom: Bytes,
    session: Bytes, ciphers: Bytes, compression: Bytes,
    before: seq<Extension>, listLen: nat, host: Bytes, names: Bytes, after: Bytes, trailing: Bytes)
  {
    ghost predicate SniValid() {
      && listLen < 0x1_0000 && |host| < 0x1_0000
      && listLen + 2 <= |PutSniBody(listLen, host, names)| < 0x1_0000
      && ValidExtensions(before)
    }

    ghost function ExtensionBlock(): Bytes
      requires SniValid()
    {
      PutBlock(before, PutSniBody(listLen, host, names), after)
    }

    ghost predicate SizesValid() {
      && !(major < 3 || (major == 3 && minor < 1))
      && recordLen < 0x1_0000 && handshakeLen < 0x100_0000
      && |versionAndRandom| == 34
      && |session| < 256 && |ciphers| < 0x1_0000 && |compression| < 256
      && SniValid() && |ExtensionBlock()| < 0x1_0000
    }

    ghost function Encode(): Bytes
      requires SizesValid()
    {
      PutHeader(major, minor, recordLen, handshakeLen, versionAndRandom)
      + PutBody(session, ciphers, compression, ExtensionBlock(), trailing)
    }

    ghost predicate Valid() {
      SizesValid() && 5 + recordLen <= |Encode()| && 9 + handshakeLen <= |Encode()|
    }
  }

  // ---- Encoding, then extracting ---------------------------------------------------------

  /** The parser on its five fixed bytes and what follows them. */
  lemma ParseFixed(l0: byte, l1: byte, kind: byte, n0: byte, n1: byte, rest: Bytes, utf8: Bytes -> bool)
    ensures ParseSniExtension([l0, l1, kind, n0, n1] + rest, utf8)
         == if U16(l0, l1) > 3 + |rest| || kind != 0 || U16(n0, n1) > |rest| || !utf8(rest[..U16(n0, n1)]) then None
            else Some(rest[..U16(n0, n1)])
  {
    var d := [l0, l1, kind, n0, n1] + rest;
    assert U16(n0, n1) <= |rest| ==> d[5..5 + U16(n0, n1)] == rest[..U16(n0, n1)];
  }

  lemma ParseReadsName(listLen: nat, host: Bytes, names: Bytes, utf8: Bytes -> bool)
    requires listLen < 0x1_0000 && |host| < 0x1_0000 && utf8(host)
    requires listLen + 2 <= |PutSniBody(listLen, host, names)|
    ensures ParseSniExtension(PutSniBody(listLen, host, names), utf8) == Some(host)
  {
    var list, len := PutU16(listLen), PutU16(|host|);
    assert PutSniBody(listLen, host, names) == [list[0], list[1], 0, len[0], len[1]] + (host + names);
    ParseFixed(list[0], list[1], 0, len[0], len[1], host + names, utf8);
    assert (host + names)[..|host|] == host;
  }

  lemma ScanStep(kind: nat, body: Bytes, rest: Bytes, utf8: Bytes -> bool)
    requires kind < 0x1_0000 && |body| < 0x1_0000
    ensures Scan(PutExtension(kind, body, rest), utf8)
         == if kind == 0 then ParseSniExtension(body, utf8) else Scan(rest, utf8)
  {
    var d := PutExtension(kind, body, rest);
    var k, n := PutU16(kind), PutU16(|body|);
    assert d == [k[0], k[1], n[0], n[1]] + (body + rest);
    assert d[4..4 + |body|] == body && d[4 + |body|..] == rest;
  }

  lemma {:induction false} ScanSkips(es: seq<Extension>, rest: Bytes, utf8: Bytes -> bool)
    requires ValidExtensions(es)
    ensures Scan(PutExtensions(es) + rest, utf8) == Scan(rest, utf8)
  {
    if es == [] {
      assert PutExtensions(es) + rest == rest;
    } else {
      ScanSkips(es[1..], rest, utf8);
      ScanStep(es[0].kind, es[0].body, PutExtensions(es[1..]) + rest, utf8);
      PutExtensionAppend(es[0].kind, es[0].body, PutExtensions(es[1..]), rest);
    }
  }

  lemma PutExtensionAppend(kind: nat, body: Bytes, mid: Bytes, rest: Bytes)
    requires kind < 0x1_0000 && |body| < 0x1_0000
    ensures PutExtension(kind, body, mid) + rest == PutExtension(kind, body, mid + rest)
  {
  }

  lemma FrontReads(session: Bytes, ciphers: Bytes, compression: Bytes, tail: Bytes)
    requires |session| < 256 && |ciphers| < 0x1_0000 && |compression| < 256
    ensures Block(PutFront(session, ciphers, compression, tail)) == AfterCompression(tail)
  {
    var d2 := PutVec8(compression) + tail;
    assert AfterCiphers(d2) == AfterCompression(tail) by {
      Vec8Reads(compression, tail);
    }
    var d1 := PutVec16(ciphers) + d2;
    assert AfterSession(d1) == AfterCompression(tail) by {
      Vec16Reads(ciphers, d2);
    }
    Vec8Reads(session, d1);
  }

  lemma BodyReads(session: Bytes, ciphers: Bytes, compression: Bytes, block: Bytes, trailing: Bytes)
    requires |session| < 256 && |ciphers| < 0x1_0000 && |compression| < 256 && |block| < 0x1_0000
    ensures Block(PutBody(session, ciphers, compression, block, trailing)) == Some(block)
  {
    FrontReads(session, ciphers, compression, PutVec16(block) + trailing);
    Vec16Reads(block, trailing);
  }

  lemma HeaderReads(
    major: byte, minor: byte, recordLen: nat, handshakeLen: nat, versionAndRandom: Bytes, body: Bytes)
    requires !(major < 3 || (major == 3 && minor < 1)) && |versionAndRandom| == 34 && body != []
    requires recordLen < 0x1_0000 && handshakeLen < 0x100_0000
    requires 5 + recordLen <= 43 + |body| && 9 + handshakeLen <= 43 + |body|
    ensures var d := PutHeader(major, minor, recordLen, handshakeLen, versionAndRandom) + body;
            HeaderOk(d) && d[43..] == body
  {
  }

  /** Every accepted shape yields its first host name. */
  lemma ExtractReadsName(h: Hello, utf8: Bytes -> bool)
    requires h.Valid() && utf8(h.host)
    ensures Extract(h.Encode(), utf8) == Some(h.host)
  {
    var sni, block := PutSniBody(h.listLen, h.host, h.names), h.ExtensionBlock();
    var body := PutBody(h.session, h.ciphers, h.compression, block, h.trailing);
    HeaderReads(h.major, h.minor, h.recordLen, h.handshakeLen, h.versionAndRandom, body);
    BodyReads(h.session, h.ciphers, h.compression, block, h.trailing);
    assert Scan(block, utf8) == Some(h.host) by {
      ScanSkips(h.before, PutExtension(0, sni, h.after), utf8);
      ScanStep(0, sni, h.after, utf8);
      ParseReadsName(h.listLen, h.host, h.names, utf8);
    }
  }

  // ---- Extracting, then decomposing --------------------------------------------------------

  lemma ParseDecomposes(body: Bytes, utf8: Bytes -> bool) returns (listLen: nat, host: Bytes, names: Bytes)
    requires ParseSniExtension(body, utf8).Some?
    ensures listLen < 0x1_0000 && |host| < 0x1_0000 && listLen + 2 <= |body|
    ensures PutSniBody(listLen, host, names) == body
    ensures ParseSniExtension(body, utf8) == Some(host) && utf8(host)
  {
    listLen := U16(body[0], body[1]);
    var n := U16(body[3], body[4]);
    host, names := body[5..5 + n], body[5 + n..];
    assert PutU16(listLen) == [body[0], body[1]] && PutU16(n) == [body[3], body[4]];
  }

  lemma ExtensionDecomposes(block: Bytes)
    requires |block| >= 4 && 4 + U16(block[2], block[3]) <= |block|
    ensures var kind, n := U16(block[0], block[1]), U16(block[2], block[3]);
            PutExtension(kind, block[4..4 + n], block[4 + n..]) == block
  {
    var kind, n := U16(block[0], block[1]), U16(block[2], block[3]);
    assert PutU16(kind) == [block[0], block[1]] && PutU16(n) == [block[2], block[3]];
  }

  lemma PutExtensionsCons(e: Extension, es: seq<Extension>)
    requires ValidExtension(e) && ValidExtensions(es)
    ensures ValidExtensions([e] + es)
    ensures PutExtensions([e] + es) == PutExtension(e.kind, e.body, PutExtensions(es))
  {
    assert ([e] + es)[1..] == es;
  }

  lemma PrependExtension(e: Extension, before: seq<Extension>, sni: Bytes, after: Bytes)
    requires ValidExtension(e) && ValidExtensions(before) && |sni| < 0x1_0000
    requires ValidExtensions([e] + before)
    ensures PutBlock([e] + before, sni, after) == PutExtension(e.kind, e.body, PutBlock(before, sni, after))
  {
    PutExtensionsCons(e, before);
    PutExtensionAppend(e.kind, e.body, PutExtensions(before), PutExtension(0, sni, after));
  }

  /** A block whose walk goes on past its first extension. */
  lemma LaterDecomposes(block: Bytes, before: seq<Extension>, sni: Bytes, after: Bytes) returns (all: seq<Extension>)
    requires 4 <= |block| < 0x1_0000 && 4 + U16(block[2], block[3]) <= |block| && U16(block[0], block[1]) != 0
    requires ValidExtensions(before) && |sni| < 0x1_0000
    requires PutBlock(before, sni, after) == block[4 + U16(block[2], block[3])..]
    ensures ValidExtensions(all) && PutBlock(all, sni, after) == block
  {
    var e := Extension(U16(block[0], block[1]), block[4..4 + U16(block[2], block[3])]);
    all := [e] + before;
    ExtensionDecomposes(block);
    PutExtensionsCons(e, before);
    PrependExtension(e, before, sni, after);
  }

  lemma FirstDecomposes(block: Bytes)
    requires 4 <= |block| < 0x1_0000 && 4 + U16(block[2], block[3]) <= |block| && U16(block[0], block[1]) == 0
    ensures var n := U16(block[2], block[3]); PutBlock([], block[4..4 + n], block[4 + n..]) == block
  {
    ExtensionDecomposes(block);
    assert [] + block == block;
  }

  /** The inside of an extension block that yields a name. */
  lemma {:induction false} ScanDecomposes(block: Bytes, utf8: Bytes -> bool)
    returns (before: seq<Extension>, sni: Bytes, after: Bytes)
    requires Scan(block, utf8).Some? && |block| < 0x1_0000
    ensures ValidExtensions(before) && |sni| < 0x1_0000 && PutBlock(before, sni, after) == block
    ensures ParseSniExtension(sni, utf8) == Scan(block, utf8)
  {
    var n := U16(block[2], block[3]);
    if U16(block[0], block[1]) == 0 {
      FirstDecomposes(block);
      before, sni, after := [], block[4..4 + n], block[4 + n..];
    } else {
      before, sni, after := ScanDecomposes(block[4 + n..], utf8);
      before := LaterDecomposes(block, before, sni, after);
    }
  }

  lemma BodyDecomposes(d: Bytes)
    returns (session: Bytes, ciphers: Bytes, compression: Bytes, block: Bytes, trailing: Bytes)
    requires Block(d).Some?
    ensures |session| < 256 && |ciphers| < 0x1_0000 && |compression| < 256 && |block| < 0x1_0000
    ensures PutBody(session, ciphers, compression, block, trailing) == d && Block(d) == Some(block)
  {
    var d1 := Vec8(d).value.1;
    var d2 := Vec16(d1).value.1;
    var d3 := Vec8(d2).value.1;
    session, ciphers, compression := Vec8(d).value.0, Vec16(d1).value.0, Vec8(d2).value.0;
    block, trailing := Vec16(d3).value.0, Vec16(d3).value.1;
  }

  lemma U16Unique(b: Bytes, hi: byte, lo: byte)
    requires |b| == 2 && U16(b[0], b[1]) == U16(hi, lo)
    ensures b == [hi, lo]
  {
  }

  /** Two digits to the base 256. */
  lemma DigitsUnique(x: int, y: int, p: int, q: int)
    requires 0 <= y < 256 && 0 <= q < 256 && x * 256 + y == p * 256 + q
    ensures x == p && y == q
  {
  }

  lemma U24Unique(d: Bytes, a: byte, b: byte, c: byte)
    requires |d| == 3 && U24(d[0], d[1], d[2]) == U24(a, b, c)
    ensures d == [a, b, c]
  {
    var x, p := d[0] as int * 256 + d[1] as int, a as int * 256 + b as int;
    DigitsUnique(x, d[2] as int, p, c as int);
    DigitsUnique(d[0] as int, d[1] as int, a as int, b as int);
  }

  /** Bytes that yield a name decompose into an accepted shape carrying that name. */
  lemma ExtractDecomposes(d: Bytes, utf8: Bytes -> bool) returns (h: Hello)
    requires Extract(d, utf8).Some?
    ensures h.Valid() && h.Encode() == d && h.host == Extract(d, utf8).value && utf8(h.host)
  {
    var session, ciphers, compression, block, trailing := BodyDecomposes(d[43..]);
    assert Scan(block, utf8) == Extract(d, utf8);
    var before, sni, after := ScanDecomposes(block, utf8);
    var listLen, host, names := ParseDecomposes(sni, utf8);
    h := Hello(d[1], d[2], U16(d[3], d[4]), U24(d[6], d[7], d[8]), d[9..43],
               session, ciphers, compression, before, listLen, host, names, after, trailing);
    BuildHello(d, h, sni, block);
  }

  lemma BuildHello(d: Bytes, h: Hello, sni: Bytes, block: Bytes)
    requires HeaderOk(d)
    requires h.major == d[1] && h.minor == d[2] && h.recordLen == U16(d[3], d[4])
    requires h.handshakeLen == U24(d[6], d[7], d[8]) && h.versionAndRandom == d[9..43]
    requires |h.session| < 256 && |h.ciphers| < 0x1_0000 && |h.compression| < 256 && |block| < 0x1_0000
    requires PutBody(h.session, h.ciphers, h.compression, block, h.trailing) == d[43..]
    requires ValidExtensions(h.before) && |sni| < 0x1_0000 && PutBlock(h.before, sni, h.after) == block
    requires h.listLen < 0x1_0000 && |h.host| < 0x1_0000 && h.listLen + 2 <= |sni|
    requires PutSniBody(h.listLen, h.host, h.names) == sni
    ensures h.Valid() && h.Encode() == d
  {
    U16Unique(PutU16(h.recordLen), d[3], d[4]);
    U24Unique(PutU24(h.handshakeLen), d[6], d[7], d[8]);
    assert PutHeader(h.major, h.minor, h.recordLen, h.handshakeLen, h.versionAndRandom) == d[..9] + d[9..43];
    assert d == (d[..9] + d[9..43]) + d[43..];
  }

  ghost predicate Carries(h: Hello, d: Bytes, host: Bytes) {
    h.Valid() && h.Encode() == d && h.host == host
  }

  /** The walk finds `host` exactly in the bytes that decompose with `host` as first name. */
  lemma ExtractIff(d: Bytes, utf8: Bytes -> bool, host: Bytes)
    ensures Extract(d, utf8) == Some(host) <==> utf8(host) && exists h :: Carries(h, d, host)
  {
    if Extract(d, utf8) == Some(host) {
      var h := ExtractDecomposes(d, utf8);
      assert Carries(h, d, host);
    }
    if utf8(host) && exists h :: Carries(h, d, host) {
      var h :| Carries(h, d, host);
      ExtractReadsName(h, utf8);
    }
  }

  lemma Vec8IgnoresMore(d: Bytes, more: Bytes)
    requires Vec8(d).Some?
    ensures Vec8(d + more) == Some((Vec8(d).value.0, Vec8(d).value.1 + more))
  {
    var v, rest := Vec8(d).value.0, Vec8(d).value.1;
    assert d + more == PutVec8(v) + (rest + more);
    Vec8Reads(v, rest + more);
  }

  lemma Vec16IgnoresMore(d: Bytes, more: Bytes)
    requires Vec16(d).Some?
    ensures Vec16(d + more) == Some((Vec16(d).value.0, Vec16(d).value.1 + more))
  {
    var v, rest := Vec16(d).value.0, Vec16(d).value.1;
    assert d + more == PutVec16(v) + (rest + more);
    Vec16Reads(v, rest + more);
  }

  lemma BlockIgnoresMore(d: Bytes, more: Bytes)
    requires Block(d).Some?
    ensures Block(d + more) == Block(d)
  {
    var d1 := Vec8(d).value.1;
    var d2 := Vec16(d1).value.1;
    var d3 := Vec8(d2).value.1;
    Vec8IgnoresMore(d, more);
    Vec16IgnoresMore(d1, more);
    Vec8IgnoresMore(d2, more);
    Vec16IgnoresMore(d3, more);
  }

  lemma HeaderIgnoresMore(d: Bytes, more: Bytes)
    requires HeaderOk(d)
    ensures HeaderOk(d + more) && (d + more)[43..] == d[43..] + more
  {
  }

  /** More bytes after the record never change a name already found. */
  lemma TrailingBytesIgnored(d: Bytes, more: Bytes, utf8: Bytes -> bool)
    requires Extract(d, utf8).Some?
    ensures Extract(d + more, utf8) == Extract(d, utf8)
  {
    HeaderIgnoresMore(d, more);
    BlockIgnoresMore(d[43..], more);
  }

  // ---- Well-formed ClientHello messages -------------------------------------------------------

  datatype Name = Name(kind: byte, name: Bytes)

  ghost predicate ValidNames(ns: seq<Name>) {
    forall i :: 0 <= i < |ns| ==> |ns[i].name| < 0x1_0000
  }

  ghost function PutNames(ns: seq<Name>): Bytes
    requires ValidNames(ns)
  {
    if ns == [] then [] else [ns[0].kind] + (PutVec16(ns[0].name) + PutNames(ns[1..]))
  }

  datatype HelloExtension = ServerName(names: seq<Name>) | Other(extension: Extension) {
    ghost predicate Valid() {
      match this
      case ServerName(names) => ValidNames(names) && |PutNames(names)| + 2 < 0x1_0000
      case Other(e) => ValidExtension(e)
    }

    /** This extension ahead of `rest`; a server name is a length-prefixed list of names. */
    ghost function Put(rest: Bytes): Bytes
      requires Valid()
    {
      match this
      case ServerName(names) => PutExtension(0, PutVec16(PutNames(names)), rest)
      case Other(e) => PutExtension(e.kind, e.body, rest)
    }
  }

  ghost predicate AllValid(es: seq<HelloExtension>) {
    forall i :: 0 <= i < |es| ==> es[i].Valid()
  }

  ghost function PutAll(es: seq<HelloExtension>): Bytes
    requires AllValid(es)
  {
    if es == [] then [] else es[0].Put(PutAll(es[1..]))
  }

  /** A ClientHello message in one record, with or without an extension block. */
  datatype ClientHello = ClientHello(
    major: byte, minor: byte, versionAndRandom: Bytes, session: Bytes, ciphers: Bytes, compression: Bytes,
    extensions: Option<seq<HelloExtension>>)
  {
    ghost predicate ExtensionsValid() {
      extensions.Some? ==> AllValid(extensions.value) && |PutAll(extensions.value)| < 0x1_0000
    }

    ghost function Tail(): Bytes
      requires ExtensionsValid()
    {
      match extensions
      case None => []
      case Some(es) => PutVec16(PutAll(es))
    }

    ghost predicate FieldsValid() {
      && |versionAndRandom| == 34
      && |session| <= 32 && |ciphers| < 0x1_0000 && |compression| < 256
      && ExtensionsValid()
    }

    ghost function Message(): Bytes
      requires FieldsValid()
    {
      versionAndRandom + PutFront(session, ciphers, compression, Tail())
    }

    ghost predicate WellFormed() {
      FieldsValid() && |Message()| + 4 < 0x1_0000
    }

    ghost function Record(): Bytes
      requires WellFormed()
    {
      PutRecord(major, minor, PutHandshake(Message()))
    }
  }

  /** A ClientHello handshake message. */
  ghost function PutHandshake(message: Bytes): Bytes
    requires |message| < 0x100_0000
  {
    [1] + (PutU24(|message|) + message)
  }

  /** A handshake record of any protocol version. */
  ghost function PutRecord(major: byte, minor: byte, handshake: Bytes): Bytes
    requires |handshake| < 0x1_0000
  {
    [0x16, major, minor] + PutVec16(handshake)
  }

  // ---- What a ClientHello yields --------------------------------------------------------------

  /** Versions from 3.1 (TLS 1.0) on. */
  predicate VersionOk(major: byte, minor: byte) {
    !(major < 3 || (major == 3 && minor < 1))
  }

  /** The first entry of a name list, if it is a host name (type 0) that passes the test. */
  function FirstEntry(names: seq<Name>, utf8: Bytes -> bool): Option<Bytes> {
    if names != [] && names[0].kind == 0 && utf8(names[0].name) then Some(names[0].name) else None
  }

  /** The names of the first server-name extension. */
  function ServerNames(es: seq<HelloExtension>): Option<seq<Name>> {
    if es == [] then None
    else match es[0]
      case ServerName(names) => Some(names)
      case Other(_) => ServerNames(es[1..])
  }

  function NamesOf(c: ClientHello): Option<seq<Name>> {
    match c.extensions
    case None => None
    case Some(es) => ServerNames(es)
  }

  /** What a list beginning with this entry yields, whatever follows it. */
  lemma EntryYields(kind: byte, host: Bytes, others: Bytes, utf8: Bytes -> bool)
    requires |host| < 0x1_0000 && 3 + |host| + |others| < 0x1_0000
    ensures ParseSniExtension(PutVec16([kind] + (PutVec16(host) + others)), utf8)
         == if kind == 0 && utf8(host) then Some(host) else None
  {
    var list := [kind] + (PutVec16(host) + others);
    var n, len := PutU16(|list|), PutU16(|host|);
    assert PutVec16(list) == [n[0], n[1], kind, len[0], len[1]] + (host + others);
    ParseFixed(n[0], n[1], kind, len[0], len[1], host + others, utf8);
    assert (host + others)[..|host|] == host;
  }

  lemma NamesYield(names: seq<Name>, utf8: Bytes -> bool)
    requires ValidNames(names) && |PutNames(names)| < 0x1_0000
    ensures ParseSniExtension(PutVec16(PutNames(names)), utf8) == FirstEntry(names, utf8)
  {
    if names == [] {
      assert |PutVec16(PutNames(names))| == 2;
    } else {
      EntryYields(names[0].kind, names[0].name, PutNames(names[1..]), utf8);
    }
  }

  lemma {:induction false} ExtensionsYield(es: seq<HelloExtension>, utf8: Bytes -> bool)
    requires AllValid(es)
    ensures Scan(PutAll(es), utf8)
         == match ServerNames(es) case None => None case Some(names) => FirstEntry(names, utf8)
  {
    if es != [] {
      var rest := PutAll(es[1..]);
      match es[0]
      case ServerName(names) =>
        ScanStep(0, PutVec16(PutNames(names)), rest, utf8);
        NamesYield(names, utf8);
      case Other(e) =>
        ScanStep(e.kind, e.body, rest, utf8);
        ExtensionsYield(es[1..], utf8);
    }
  }

  lemma RecordShape(major: byte, minor: byte, versionAndRandom: Bytes, body: Bytes)
    requires |versionAndRandom| + |body| + 4 < 0x1_0000
    ensures var n := |versionAndRandom| + |body|;
            PutRecord(major, minor, PutHandshake(versionAndRandom + body))
            == PutHeader(major, minor, n + 4, n, versionAndRandom) + body
  {
    var message := versionAndRandom + body;
    var r, t := PutU16(|message| + 4), PutU24(|message|);
    assert PutHandshake(message) == [1, t[0], t[1], t[2]] + versionAndRandom + body;
  }

  /** What comes out of a record depends only on its version and on what follows the compression methods. */
  lemma RecordYields(major: byte, minor: byte, versionAndRandom: Bytes, body: Bytes, utf8: Bytes -> bool)
    requires |versionAndRandom| == 34 && body != [] && |body| + 38 < 0x1_0000
    ensures Extract(PutRecord(major, minor, PutHandshake(versionAndRandom + body)), utf8)
         == if !VersionOk(major, minor) then None
            else match Block(body) case None => None case Some(block) => Scan(block, utf8)
  {
    var n := |versionAndRandom| + |body|;
    RecordShape(major, minor, versionAndRandom, body);
    if VersionOk(major, minor) {
      HeaderReads(major, minor, n + 4, n, versionAndRandom, body);
    }
  }

  /**
   The whole outcome for any ClientHello in one record: the first entry of the first server-name extension,
   provided the record version is at least 3.1, that entry is a host name and it passes the test; else nothing.
   */
  lemma ClientHelloRoundTrip(c: ClientHello, utf8: Bytes -> bool)
    requires c.WellFormed()
    ensures Extract(c.Record(), utf8)
         == match NamesOf(c)
            case None => None
            case Some(names) => if VersionOk(c.major, c.minor) then FirstEntry(names, utf8) else None
  {
    var body := PutFront(c.session, c.ciphers, c.compression, c.Tail());
    RecordYields(c.major, c.minor, c.versionAndRandom, body, utf8);
    FrontReads(c.session, c.ciphers, c.compression, c.Tail());
    match c.extensions
    case None =>
    case Some(es) =>
      assert PutVec16(PutAll(es)) + [] == c.Tail();
      Vec16Reads(PutAll(es), []);
      ExtensionsYield(es, utf8);
  }

  /** The first host name of a list, wherever it stands. */
  function FirstHost(names: seq<Name>): Option<Bytes> {
    if names == [] then None
    else if names[0].kind == 0 then Some(names[0].name)
    else FirstHost(names[1..])
  }

  /**
   A server name that is sent is found exactly when its list begins with a host name: an entry of
   another type ahead of it hides it.
   */
  lemma HostFoundIff(c: ClientHello, utf8: Bytes -> bool, names: seq<Name>, host: Bytes)
    requires c.WellFormed() && VersionOk(c.major, c.minor)
    requires NamesOf(c) == Some(names) && FirstHost(names) == Some(host) && utf8(host)
    ensures Extract(c.Record(), utf8) == Some(host) <==> names[0].kind == 0
  {
    ClientHelloRoundTrip(c, utf8);
  }

  /** Such a message: one entry of type 1, then a host name. */
  lemma OtherTypeHidesHost(host: Bytes, utf8: Bytes -> bool)
    requires |host| < 0x8000 && utf8(host)
    ensures var names := [Name(1, []), Name(0, host)];
            var c := ClientHello(3, 3, seq(34, _ => 0), [], [0, 0x2f], [0], Some([ServerName(names)]));
            c.WellFormed() && FirstHost(names) == Some(host) && Extract(c.Record(), utf8) == None
  {
    var names := [Name(1, []), Name(0, host)];
    var c := ClientHello(3, 3, seq(34, _ => 0), [], [0, 0x2f], [0], Some([ServerName(names)]));
    assert PutNames(names[1..][1..]) == [];
    assert |PutNames(names[1..])| == 3 + |host|;
    assert |PutNames(names)| == 6 + |host|;
    assert PutAll([ServerName(names)][1..]) == [];
    assert |PutAll([ServerName(names)])| == 12 + |host|;
    ClientHelloRoundTrip(c, utf8);
  }

  // ---- The bytes themselves -----------------------------------------------------------------

  /** Two-byte lengths are sent high byte first. */
  lemma WireOrder16(n: nat)
    requires n < 0x1_0000
    ensures PutU16(n) == [(n / 256) as byte, (n % 256) as byte]
  {
    var b := PutU16(n);
    assert b == [b[0], b[1]];
    HighAndLow(n, b[0] as nat, b[1] as nat);
  }

  lemma HighAndLow(n: nat, hi: nat, lo: nat)
    requires n == hi * 256 + lo && lo < 256
    ensures hi == n / 256 && lo == n % 256
  {
  }

  /** So are three-byte lengths. */
  lemma WireOrder24(n: nat)
    requires n < 0x100_0000
    ensures PutU24(n) == [(n / 0x1_0000) as byte, (n / 256 % 256) as byte, (n % 256) as byte]
  {
    var b := PutU24(n);
    assert b == [b[0], b[1], b[2]];
    DigitsOf(n, b[0] as nat, b[1] as nat, b[2] as nat);
  }

  lemma DigitsOf(n: nat, a: nat, b: nat, c: nat)
    requires n == a * 0x1_0000 + b * 256 + c && b < 256 && c < 256
    ensures a == n / 0x1_0000 && b == n / 256 % 256 && c == n % 256
  {
    HighAndLow(n, a * 256 + b, c);
    HighAndLow(a * 256 + b, a, b);
    assert n == a * 0x1_0000 + (b * 256 + c) && b * 256 + c < 0x1_0000;
  }

  function Zeros(n: nat): Bytes {
    seq(n, _ => 0)
  }

  /** "example.com". */
  const EXAMPLE_HOST: Bytes := [101, 120, 97, 109, 112, 108, 101, 46, 99, 111, 109]

  /** A ClientHello of TLS 1.2 for example.com, byte by byte. */
  function ExampleHello(): Bytes {
    [0x16, 3, 3, 0x00, 0x43]                                   // handshake record, 67 bytes
    + [0x01, 0x00, 0x00, 0x3f, 3, 3] + Zeros(32)               // ClientHello, 63 bytes, version, random
    + [0x00, 0x00, 0x02, 0x00, 0x2f, 0x01, 0x00]               // session id, cipher suites, compression methods
    + [0x00, 0x14, 0x00, 0x00, 0x00, 0x10]                     // 20 bytes of extensions, server_name, 16 bytes
    + [0x00, 0x0e, 0x00, 0x00, 0x0b] + EXAMPLE_HOST            // a list of 14 bytes, host_name, 11 bytes
  }

  /** What the walk reads of those bytes. */
  ghost predicate LooksLikeExample(d: Bytes) {
    && |d| == 72
    && d[0] == 0x16 && d[1] == 3 && d[2] == 3 && d[3] == 0 && d[4] == 0x43
    && d[5] == 1 && d[6] == 0 && d[7] == 0 && d[8] == 0x3f
    && d[43] == 0 && d[44] == 0 && d[45] == 2 && d[48] == 1 && d[50] == 0 && d[51] == 0x14
    && d[52] == 0 && d[53] == 0 && d[54] == 0 && d[55] == 0x10
    && d[56] == 0 && d[57] == 0x0e && d[58] == 0 && d[59] == 0 && d[60] == 0x0b
  }

  lemma ExampleBounds(d: Bytes)
    requires LooksLikeExample(d)
    ensures HeaderOk(d) && Bounds(d) == Some((52, 72))
  {
  }

  lemma ExampleExtension(d: Bytes, utf8: Bytes -> bool)
    requires LooksLikeExample(d) && utf8(d[61..72])
    ensures Scan(d[52..72], utf8) == Some(d[61..72])
  {
    ScanAt(d, 52, 72, utf8);
    assert d[56..72][5..16] == d[61..72];
  }

  lemma ExampleLooks()
    ensures LooksLikeExample(ExampleHello()) && ExampleHello()[61..72] == EXAMPLE_HOST
  {
  }

  /** The name comes out of those bytes. */
  lemma ExampleYieldsName(utf8: Bytes -> bool)
    requires utf8(EXAMPLE_HOST)
    ensures Extract(ExampleHello(), utf8) == Some(EXAMPLE_HOST)
  {
    var d := ExampleHello();
    ExampleLooks();
    ExampleBounds(d);
    ExtractByBounds(d, utf8);
    ExampleExtension(d, utf8);
  }
}
