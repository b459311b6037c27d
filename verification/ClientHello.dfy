/**
  The TLS messages the sniffer reads, as an encoder: section 4.1.2 of RFC 8446
  for the ClientHello and section 3 of RFC 6066 for the server_name extension,
  loosened to exactly what the sniffer accepts.
 */
module ClientHello {
  import opened Bits
  import opened Bytes
  import opened Sniffer

  type Opaque8 = b: seq<Byte> | |b| < 0x100
  type Opaque16 = b: seq<Byte> | |b| < 0x1_0000

  datatype Extension = Extension(kind: U16, body: Opaque16)

  /** One entry of a server name list; kind 0 is a host name. */
  datatype Name = Name(kind: Byte, text: Opaque16)

  function Vector8(b: Opaque8): seq<Byte> {
    [|b|] + b
  }

  function Vector16(b: Opaque16): (r: seq<Byte>)
    ensures |r| == 2 + |b|
  {
    E16(|b|) + b
  }

  function EncodeExtensions(es: seq<Extension>): seq<Byte> {
    if es == [] then []
    else E16(es[0].kind) + Vector16(es[0].body) + EncodeExtensions(es[1..])
  }

  function EncodeNames(names: seq<Name>): seq<Byte> {
    if names == [] then []
    else [names[0].kind] + Vector16(names[0].text) + EncodeNames(names[1..])
  }

  /** A hello up to its first server_name extension, with the lengths it claims. */
  datatype Front = Front(
    version: seq<Byte>,
    helloLength: nat,
    fixed: seq<Byte>,
    session: Opaque8,
    suites: Opaque16,
    compression: Opaque8,
    extensionsLength: U16,
    before: seq<Extension>)

  function HelloBytes(f: Front): seq<Byte> {
    f.fixed + (Vector8(f.session) + (Vector16(f.suites) + (Vector8(f.compression)
    + (E16(f.extensionsLength) + EncodeExtensions(f.before)))))
  }

  /** `rest` is the handshake from that extension's header on. */
  ghost predicate Fits(f: Front, rest: seq<Byte>) {
    && |f.version| == 2 && |f.fixed| == 34
    && 4 + |HelloBytes(f)| + |rest| < 0x1_0000
    && f.helloLength <= |HelloBytes(f)| + |rest|
    && (forall e :: e in f.before ==> e.kind != 0)
    && |rest| >= 4 && rest[0] == rest[1] == 0
    && |EncodeExtensions(f.before)| + 4 <= f.extensionsLength <= |EncodeExtensions(f.before)| + |rest|
  }

  function Record(f: Front, rest: seq<Byte>): seq<Byte>
    requires 4 + |HelloBytes(f)| + |rest| < 0x1_0000 && f.helloLength < 0x100_0000
  {
    [0x16] + f.version + E16(4 + |HelloBytes(f)| + |rest|)
    + ([0x01] + E24(f.helloLength) + (HelloBytes(f) + rest))
  }

  // ---- What encodings sniff as ----

  function Header(kind: U16, length: U16): seq<Byte> {
    E16(kind) + E16(length)
  }

  lemma HeaderReads(kind: U16, length: U16, more: seq<Byte>)
    ensures var b := Header(kind, length) + more;
            Be16(b[0], b[1]) == kind && Be16(b[2], b[3]) == length && b[4..] == more
  {
    ReadWrite16(kind);
    ReadWrite16(length);
  }

  lemma SkipExtension(e: Extension, more: seq<Byte>, budget: nat)
    requires e.kind != 0 && 4 + |e.body| <= budget <= 4 + |e.body| + |more|
    ensures WalkExtensions(Header(e.kind, |e.body|) + (e.body + more), budget)
            == WalkExtensions(more, budget - 4 - |e.body|)
  {
    HeaderReads(e.kind, |e.body|, e.body + more);
    hide Header, Be16;
    var b := Header(e.kind, |e.body|) + (e.body + more);
    assert b[4 + |e.body|..] == b[4..][|e.body|..] == more;
  }

  lemma {:induction false} WalkPast(before: seq<Extension>, rest: seq<Byte>, budget: nat)
    requires forall e :: e in before ==> e.kind != 0
    requires |EncodeExtensions(before)| <= budget <= |EncodeExtensions(before)| + |rest|
    ensures WalkExtensions(EncodeExtensions(before) + rest, budget)
            == WalkExtensions(rest, budget - |EncodeExtensions(before)|)
  {
    hide WalkExtensions;
    if before == [] {
      assert EncodeExtensions(before) + rest == rest;
    } else {
      var e, more := before[0], EncodeExtensions(before[1..]) + rest;
      assert EncodeExtensions(before) + rest == Header(e.kind, |e.body|) + (e.body + more);
      SkipExtension(e, more, budget);
      WalkPast(before[1..], rest, budget - 4 - |e.body|);
    }
  }

  lemma SessionStep(s: Opaque8, b: seq<Byte>)
    requires |b| >= 2
    ensures SniffSession(Vector8(s) + b) == SniffSuites(b)
  {
    assert (Vector8(s) + b)[1 + |s|..] == b;
  }

  lemma SuitesStep(s: Opaque16, b: seq<Byte>)
    requires |b| > 0
    ensures SniffSuites(Vector16(s) + b) == SniffCompression(b)
  {
    ReadWrite16(|s|);
    assert (Vector16(s) + b)[2 + |s|..] == b;
  }

  lemma CompressionStep(s: Opaque8, b: seq<Byte>)
    requires |b| >= 2
    ensures SniffCompression(Vector8(s) + b) == SniffExtensions(b)
  {
    assert (Vector8(s) + b)[1 + |s|..] == b;
  }

  lemma ExtensionsStep(n: U16, b: seq<Byte>)
    requires n <= |b|
    ensures SniffExtensions(E16(n) + b) == WalkExtensions(b, n)
  {
    ReadWrite16(n);
    assert (E16(n) + b)[2..] == b;
  }

  lemma HelloStep(f: Front, rest: seq<Byte>)
    requires |f.fixed| == 34 && f.extensionsLength <= |EncodeExtensions(f.before)| + |rest|
    ensures SniffHello(HelloBytes(f) + rest)
            == WalkExtensions(EncodeExtensions(f.before) + rest, f.extensionsLength)
  {
    hide SniffSession, SniffSuites, SniffCompression, SniffExtensions, WalkExtensions;
    hide EncodeExtensions, Vector8, Vector16, E16;
    var b4 := EncodeExtensions(f.before) + rest;
    var b3 := E16(f.extensionsLength) + b4;
    var b2 := Vector8(f.compression) + b3;
    var b1 := Vector16(f.suites) + b2;
    var b0 := Vector8(f.session) + b1;
    assert HelloBytes(f) + rest == f.fixed + b0;
    assert (f.fixed + b0)[34..] == b0;
    SessionStep(f.session, b1);
    SuitesStep(f.suites, b2);
    CompressionStep(f.compression, b3);
    ExtensionsStep(f.extensionsLength, b4);
  }

  lemma HandshakeStep(length: seq<Byte>, body: seq<Byte>)
    requires |length| == 3 && Be24(length[0], length[1], length[2]) <= |body|
    ensures SniffHandshake([0x01] + length + body) == SniffHello(body)
  {
    hide SniffHello, Be24;
    var b := [0x01] + length + body;
    assert b[1] == length[0] && b[2] == length[1] && b[3] == length[2];
    assert b[4..] == body;
  }

  lemma RecordHeaderStep(version: seq<Byte>, handshake: seq<Byte>, tail: seq<Byte>)
    requires |version| == 2 && 0 < |handshake| < 0x1_0000
    ensures Sniff([0x16] + version + E16(|handshake|) + handshake + tail) == SniffHandshake(handshake)
  {
    ReadWrite16(|handshake|);
    hide SniffHandshake, E16, Be16;
    var data := [0x16] + version + E16(|handshake|) + handshake + tail;
    assert data[3] == E16(|handshake|)[0] && data[4] == E16(|handshake|)[1];
    assert data[5..5 + |handshake|] == handshake;
  }

  lemma RecordStep(f: Front, rest: seq<Byte>, tail: seq<Byte>)
    requires |f.version| == 2 && 4 + |HelloBytes(f)| + |rest| < 0x1_0000
    requires f.helloLength <= |HelloBytes(f)| + |rest|
    ensures Sniff(Record(f, rest) + tail) == SniffHello(HelloBytes(f) + rest)
  {
    ReadWrite24(f.helloLength);
    hide Sniff, SniffHandshake, SniffHello, HelloBytes, E16, E24, Be24;
    var body := HelloBytes(f) + rest;
    HandshakeStep(E24(f.helloLength), body);
    RecordHeaderStep(f.version, [0x01] + E24(f.helloLength) + body, tail);
  }

  lemma SniffsAsExtension(f: Front, rest: seq<Byte>, tail: seq<Byte>)
    requires Fits(f, rest)
    ensures Sniff(Record(f, rest) + tail) == AtServerName(rest)
  {
    hide Sniff, SniffHello, HelloBytes, Record, EncodeExtensions;
    RecordStep(f, rest, tail);
    HelloStep(f, rest);
    WalkPast(f.before, rest, f.extensionsLength);
  }

  // ---- What sniffed input must look like ----

  lemma SessionSplits(b: seq<Byte>) returns (s: Opaque8, t: seq<Byte>)
    requires |b| > 0 && SniffSession(b) != NoHost
    ensures b == Vector8(s) + t && |t| >= 2 && SniffSession(b) == SniffSuites(t)
  {
    hide SniffSuites;
    var n: nat := b[0];
    s, t := b[1..1 + n], b[1 + n..];
  }

  lemma SuitesSplits(b: seq<Byte>) returns (s: Opaque16, t: seq<Byte>)
    requires |b| >= 2 && SniffSuites(b) != NoHost
    ensures b == Vector16(s) + t && |t| > 0 && SniffSuites(b) == SniffCompression(t)
  {
    hide SniffCompression;
    WriteRead16(b[0], b[1]);
    hide E16, Be16;
    var n := Be16(b[0], b[1]);
    assert b == [b[0], b[1]] + b[2..2 + n] + b[2 + n..];
    s, t := b[2..2 + n], b[2 + n..];
  }

  lemma CompressionSplits(b: seq<Byte>) returns (s: Opaque8, t: seq<Byte>)
    requires |b| > 0 && SniffCompression(b) != NoHost
    ensures b == Vector8(s) + t && |t| >= 2 && SniffCompression(b) == SniffExtensions(t)
  {
    hide SniffExtensions;
    var n: nat := b[0];
    s, t := b[1..1 + n], b[1 + n..];
  }

  lemma ExtensionsSplits(b: seq<Byte>) returns (n: U16, t: seq<Byte>)
    requires |b| >= 2 && SniffExtensions(b) != NoHost
    ensures b == E16(n) + t && n <= |t| && SniffExtensions(b) == WalkExtensions(t, n)
  {
    hide WalkExtensions;
    WriteRead16(b[0], b[1]);
    hide E16, Be16;
    assert b == [b[0], b[1]] + b[2..];
    n, t := Be16(b[0], b[1]), b[2..];
  }

  lemma ExtensionSplits(b: seq<Byte>, budget: nat) returns (e: Extension, t: seq<Byte>)
    requires budget <= |b| && WalkExtensions(b, budget) != NoHost && Be16(b[0], b[1]) != 0
    ensures e.kind != 0 && b == E16(e.kind) + Vector16(e.body) + t
    ensures 4 + |e.body| <= budget && |t| == |b| - 4 - |e.body|
    ensures WalkExtensions(b, budget) == WalkExtensions(t, budget - 4 - |e.body|)
  {
    WriteRead16(b[0], b[1]);
    WriteRead16(b[2], b[3]);
    hide AtServerName, E16, Be16;
    var n := Be16(b[2], b[3]);
    e, t := Extension(Be16(b[0], b[1]), b[4..4 + n]), b[4 + n..];
    assert b == [b[0], b[1]] + ([b[2], b[3]] + b[4..4 + n]) + t;
  }

  lemma NameHeader(b: seq<Byte>, budget: nat)
    requires budget <= |b| && WalkExtensions(b, budget) != NoHost
    ensures 4 <= budget
    ensures Be16(b[0], b[1]) == 0 ==> b[0] == b[1] == 0 && WalkExtensions(b, budget) == AtServerName(b)
  {
    hide AtServerName;
  }

  lemma {:induction false} WalkSplits(b: seq<Byte>, budget: nat) returns (before: seq<Extension>, rest: seq<Byte>)
    requires budget <= |b| && WalkExtensions(b, budget) != NoHost
    ensures b == EncodeExtensions(before) + rest && (forall e :: e in before ==> e.kind != 0)
    ensures |rest| >= 4 && rest[0] == rest[1] == 0
    ensures |EncodeExtensions(before)| + 4 <= budget
    ensures WalkExtensions(b, budget) == AtServerName(rest)
    decreases |b|
  {
    hide AtServerName, WalkExtensions, E16, Vector16, Be16;
    NameHeader(b, budget);
    if Be16(b[0], b[1]) == 0 {
      before, rest := [], b;
    } else {
      var e, t := ExtensionSplits(b, budget);
      var more;
      more, rest := WalkSplits(t, budget - 4 - |e.body|);
      before := [e] + more;
      EncodeOneMore(e, more);
    }
  }

  lemma EncodeOneMore(e: Extension, more: seq<Extension>)
    ensures EncodeExtensions([e] + more) == E16(e.kind) + Vector16(e.body) + EncodeExtensions(more)
  {
    assert ([e] + more)[1..] == more;
  }

  lemma HelloSplits(b: seq<Byte>) returns (f: Front, rest: seq<Byte>)
    requires SniffHello(b) != NoHost
    ensures b == HelloBytes(f) + rest && |f.fixed| == 34
    ensures forall e :: e in f.before ==> e.kind != 0
    ensures |rest| >= 4 && rest[0] == rest[1] == 0
    ensures |EncodeExtensions(f.before)| + 4 <= f.extensionsLength <= |EncodeExtensions(f.before)| + |rest|
    ensures SniffHello(b) == AtServerName(rest)
  {
    hide SniffSession, SniffSuites, SniffCompression, SniffExtensions, WalkExtensions, AtServerName;
    hide EncodeExtensions, Vector8, Vector16, E16;
    var session, b1 := SessionSplits(b[34..]);
    var suites, b2 := SuitesSplits(b1);
    var compression, b3 := CompressionSplits(b2);
    var extensionsLength, b4 := ExtensionsSplits(b3);
    var before;
    before, rest := WalkSplits(b4, extensionsLength);
    f := Front([], 0, b[..34], session, suites, compression, extensionsLength, before);
    assert b == f.fixed + b[34..];
  }

  lemma HandshakeSplits(b: seq<Byte>) returns (n: nat, body: seq<Byte>)
    requires SniffHandshake(b) != NoHost
    ensures n < 0x100_0000 && n <= |body|
    ensures b == [0x01] + E24(n) + body && SniffHandshake(b) == SniffHello(body)
  {
    WriteRead24(b[1], b[2], b[3]);
    hide SniffHello, E24, Be24;
    n, body := Be24(b[1], b[2], b[3]), b[4..];
    assert b == [b[0]] + [b[1], b[2], b[3]] + body;
  }

  lemma RecordHeaderSplits(data: seq<Byte>) returns (version: seq<Byte>, handshake: seq<Byte>, tail: seq<Byte>)
    requires Sniff(data) != NoHost
    ensures |version| == 2 && |handshake| < 0x1_0000
    ensures data == [0x16] + version + E16(|handshake|) + handshake + tail
    ensures Sniff(data) == SniffHandshake(handshake)
  {
    WriteRead16(data[3], data[4]);
    hide SniffHandshake, E16, Be16;
    var n := Be16(data[3], data[4]);
    version, handshake, tail := data[1..3], data[5..5 + n], data[5 + n..];
    assert data == [data[0]] + version + [data[3], data[4]] + handshake + tail;
  }

  /** Anything but NoHost comes from a record whose hello reaches a server_name extension. */
  lemma SniffedSplits(data: seq<Byte>) returns (f: Front, rest: seq<Byte>, tail: seq<Byte>)
    requires Sniff(data) != NoHost
    ensures Fits(f, rest) && data == Record(f, rest) + tail && Sniff(data) == AtServerName(rest)
  {
    hide Sniff, SniffHandshake, SniffHello, AtServerName, EncodeExtensions, E16, E24;
    var version, handshake;
    version, handshake, tail := RecordHeaderSplits(data);
    var n, body := HandshakeSplits(handshake);
    f, rest := HelloSplits(body);
    f := f.(version := version, helloLength := n);
    assert |handshake| == 4 + |body|;
  }

  // ---- The server name list ----

  /** A server name list: the length it claims, the entries before the host name, and what follows it. */
  datatype NameList = NameList(length: U16, others: seq<Name>, after: seq<Byte>)

  function NameListBytes(l: NameList, host: Opaque16): seq<Byte> {
    E16(l.length) + (EncodeNames(l.others) + ([0] + Vector16(host) + l.after))
  }

  /** The host name's header lies in the list and its text in the extension. */
  ghost predicate ListFits(l: NameList, host: Opaque16) {
    && (forall n :: n in l.others ==> n.kind != 0)
    && |EncodeNames(l.others)| + 3 <= l.length <= |EncodeNames(l.others)| + 3 + |host| + |l.after|
    && ValidUtf8(host)
  }

  lemma NameReads(kind: Byte, text: Opaque16, more: seq<Byte>)
    ensures var b := [kind] + Vector16(text) + more;
            && b[0] == kind && Be16(b[1], b[2]) == |text|
            && b[3..3 + |text|] == text && b[3 + |text|..] == more
  {
    ReadWrite16(|text|);
    hide E16, Be16;
    var b := [kind] + Vector16(text) + more;
    assert b[1] == E16(|text|)[0] && b[2] == E16(|text|)[1];
  }

  lemma HostNameStep(host: Opaque16, after: seq<Byte>, budget: nat)
    requires ValidUtf8(host) && 3 <= budget <= 3 + |host| + |after|
    ensures WalkNames([0] + Vector16(host) + after, budget) == Host(host)
  {
    hide ValidUtf8;
    NameReads(0, host, after);
    hide Vector16, Be16;
  }

  lemma {:induction false} WalkPastNames(others: seq<Name>, rest: seq<Byte>, budget: nat)
    requires forall n :: n in others ==> n.kind != 0
    requires |EncodeNames(others)| <= budget <= |EncodeNames(others)| + |rest|
    ensures WalkNames(EncodeNames(others) + rest, budget) == WalkNames(rest, budget - |EncodeNames(others)|)
  {
    hide E16, Be16;
    if others == [] {
      assert EncodeNames(others) + rest == rest;
    } else {
      var n, more := others[0], EncodeNames(others[1..]) + rest;
      assert EncodeNames(others) + rest == [n.kind] + Vector16(n.text) + more;
      NameReads(n.kind, n.text, more);
      WalkPastNames(others[1..], rest, budget - 3 - |n.text|);
    }
  }

  lemma NameListSniffs(l: NameList, host: Opaque16)
    requires ListFits(l, host)
    ensures SniffNames(NameListBytes(l, host)) == Host(host)
  {
    hide WalkNames, EncodeNames, ValidUtf8;
    var named := [0] + Vector16(host) + l.after;
    WalkPastNames(l.others, named, l.length);
    HostNameStep(host, l.after, l.length - |EncodeNames(l.others)|);
    ReadWrite16(l.length);
    hide E16, Be16;
    assert NameListBytes(l, host)[2..] == EncodeNames(l.others) + named;
  }

  lemma NameSplits(b: seq<Byte>) returns (n: Name, t: seq<Byte>)
    requires |b| >= 3 && 3 + Be16(b[1], b[2]) <= |b|
    ensures b == [n.kind] + Vector16(n.text) + t && n.kind == b[0]
    ensures n.text == b[3..3 + Be16(b[1], b[2])] && t == b[3 + Be16(b[1], b[2])..]
  {
    WriteRead16(b[1], b[2]);
    hide E16, Be16;
    var k := Be16(b[1], b[2]);
    n, t := Name(b[0], b[3..3 + k]), b[3 + k..];
    assert b == [b[0]] + ([b[1], b[2]] + b[3..3 + k]) + t;
  }

  lemma {:induction false} WalkNamesSplits(b: seq<Byte>, budget: nat, host: seq<Byte>)
      returns (others: seq<Name>, after: seq<Byte>)
    requires budget <= |b| && WalkNames(b, budget) == Host(host)
    ensures |host| < 0x1_0000 && ValidUtf8(host)
    ensures b == EncodeNames(others) + ([0] + Vector16(host) + after)
    ensures (forall n :: n in others ==> n.kind != 0) && |EncodeNames(others)| + 3 <= budget
    decreases |b|
  {
    hide E16, Be16, Vector16, ValidUtf8;
    var n, t := NameSplits(b);
    if n.kind == 0 {
      others, after := [], t;
    } else {
      var more;
      more, after := WalkNamesSplits(t, budget - 3 - |n.text|, host);
      others := [n] + more;
      EncodeOneMoreName(n, more);
    }
  }

  lemma EncodeOneMoreName(n: Name, more: seq<Name>)
    ensures EncodeNames([n] + more) == [n.kind] + Vector16(n.text) + EncodeNames(more)
  {
    assert ([n] + more)[1..] == more;
  }

  lemma NameListSplits(b: seq<Byte>, host: seq<Byte>) returns (l: NameList)
    requires SniffNames(b) == Host(host)
    ensures |host| < 0x1_0000 && ListFits(l, host) && b == NameListBytes(l, host)
  {
    WriteRead16(b[0], b[1]);
    hide WalkNames, EncodeNames, ValidUtf8, E16, Be16;
    var length := Be16(b[0], b[1]);
    var others, after := WalkNamesSplits(b[2..], length, host);
    l := NameList(length, others, after);
    assert b == [b[0], b[1]] + b[2..];
  }

  // ---- Exactly what the sniffer finds ----

  function ServerNameExtension(body: Opaque16): seq<Byte> {
    [0, 0] + Vector16(body)
  }

  lemma AtServerNameReads(body: Opaque16, after: seq<Byte>)
    ensures AtServerName(ServerNameExtension(body) + after) == SniffNames(body)
  {
    ReadWrite16(|body|);
    hide SniffNames, E16, Be16;
    var b := ServerNameExtension(body) + after;
    assert b[2] == E16(|body|)[0] && b[3] == E16(|body|)[1];
    assert b[4..4 + |body|] == body;
  }

  /** The input is a record whose first server_name extension carries a valid host name entry for `host`. */
  ghost predicate Carries(data: seq<Byte>, host: seq<Byte>, f: Front, l: NameList, after: seq<Byte>, tail: seq<Byte>) {
    && |host| < 0x1_0000 && ListFits(l, host) && |NameListBytes(l, host)| < 0x1_0000
    && Fits(f, ServerNameExtension(NameListBytes(l, host)) + after)
    && data == Record(f, ServerNameExtension(NameListBytes(l, host)) + after) + tail
  }

  /** The input is a record whose first server_name extension claims `n` bytes, more than the record holds. */
  ghost predicate Overruns(data: seq<Byte>, f: Front, n: U16, after: seq<Byte>, tail: seq<Byte>) {
    && |after| < n
    && Fits(f, [0, 0] + E16(n) + after)
    && data == Record(f, [0, 0] + E16(n) + after) + tail
  }

  lemma CarriedHostIsFound(data: seq<Byte>, host: seq<Byte>, f: Front, l: NameList, after: seq<Byte>, tail: seq<Byte>)
    requires Carries(data, host, f, l, after, tail)
    ensures Sniff(data) == Host(host)
  {
    hide Sniff, AtServerName, SniffNames, Fits, Record, ListFits, NameListBytes, ServerNameExtension;
    SniffsAsExtension(f, ServerNameExtension(NameListBytes(l, host)) + after, tail);
    AtServerNameReads(NameListBytes(l, host), after);
    NameListSniffs(l, host);
  }

  lemma FoundHostIsCarried(data: seq<Byte>, host: seq<Byte>)
      returns (f: Front, l: NameList, after: seq<Byte>, tail: seq<Byte>)
    requires Sniff(data) == Host(host)
    ensures Carries(data, host, f, l, after, tail)
  {
    hide Sniff, SniffNames, Record, ListFits, NameListBytes;
    var rest;
    f, rest, tail := SniffedSplits(data);
    WriteRead16(rest[2], rest[3]);
    hide E16, Be16;
    var n := Be16(rest[2], rest[3]);
    l := NameListSplits(rest[4..4 + n], host);
    after := rest[4 + n..];
    assert rest == ServerNameExtension(rest[4..4 + n]) + after by {
      assert rest == [rest[0], rest[1]] + ([rest[2], rest[3]] + rest[4..4 + n]) + after;
    }
  }

  /**
    The sniffer finds a host name exactly when the input is one complete record
    whose first server_name extension carries it as its first host name entry.
   */
  lemma HostFoundIff(data: seq<Byte>, host: seq<Byte>)
    ensures Sniff(data) == Host(host) <==> exists f, l, after, tail :: Carries(data, host, f, l, after, tail)
  {
    hide Sniff, Carries;
    if Sniff(data) == Host(host) {
      var f, l, after, tail := FoundHostIsCarried(data, host);
    }
    if f, l, after, tail :| Carries(data, host, f, l, after, tail) {
      CarriedHostIsFound(data, host, f, l, after, tail);
    }
  }

  lemma OverrunAborts(data: seq<Byte>, f: Front, n: U16, after: seq<Byte>, tail: seq<Byte>)
    requires Overruns(data, f, n, after, tail)
    ensures Sniff(data) == OutOfBounds
  {
    hide Sniff, SniffNames, Record, Fits;
    var rest := [0, 0] + E16(n) + after;
    SniffsAsExtension(f, rest, tail);
    ReadWrite16(n);
    hide E16, Be16;
    assert rest[2] == E16(n)[0] && rest[3] == E16(n)[1];
  }

  lemma AbortIsOverrun(data: seq<Byte>) returns (f: Front, n: U16, after: seq<Byte>, tail: seq<Byte>)
    requires Sniff(data) == OutOfBounds
    ensures Overruns(data, f, n, after, tail)
  {
    hide Sniff, Record;
    var rest;
    f, rest, tail := SniffedSplits(data);
    WriteRead16(rest[2], rest[3]);
    NamesNeverAbort(rest);
    hide AtServerName, E16, Be16;
    n, after := Be16(rest[2], rest[3]), rest[4..];
    assert rest == [0, 0] + E16(n) + after by {
      assert rest == [rest[0], rest[1]] + [rest[2], rest[3]] + after;
    }
  }

  /**
    The sniffer slices out of bounds exactly when the first server_name
    extension of a record claims more bytes than are left of the handshake.
   */
  lemma AbortIff(data: seq<Byte>)
    ensures Sniff(data) == OutOfBounds <==> exists f, n: U16, after, tail :: Overruns(data, f, n, after, tail)
  {
    hide Sniff, Overruns;
    if Sniff(data) == OutOfBounds {
      var f, n, after, tail := AbortIsOverrun(data);
    }
    if f, n: U16, after, tail :| Overruns(data, f, n, after, tail) {
      OverrunAborts(data, f, n, after, tail);
    }
  }

  /** Such a record exists: a hello of empty vectors and a server_name extension of one byte that is not there. */
  lemma ShortRecordAborts()
    ensures Sniff(Record(Front([3, 3], 0, seq(34, _ => 0), [], [], [], 4, []), [0, 0] + E16(1))) == OutOfBounds
  {
    var f := Front([3, 3], 0, seq(34, _ => 0), [], [], [], 4, []);
    assert [0, 0] + E16(1) + [] == [0, 0] + E16(1);
    assert Record(f, [0, 0] + E16(1)) + [] == Record(f, [0, 0] + E16(1));
    OverrunAborts(Record(f, [0, 0] + E16(1)), f, 1, [], []);
  }

  lemma NamesNeverAbort(rest: seq<Byte>)
    requires |rest| >= 4
    ensures AtServerName(rest) == OutOfBounds <==> |rest| < 4 + Be16(rest[2], rest[3])
  {
    hide WalkNames, Be16;
  }

  // ---- Conforming messages and partial input ----

  /** A conforming ClientHello; `names` is the server name list, if the hello has one. */
  datatype Hello = Hello(
    version: seq<Byte>,
    random: seq<Byte>,
    session: Opaque8,
    suites: Opaque16,
    compression: Opaque8,
    before: seq<Extension>,
    names: seq<Name>,
    after: seq<Extension>)

  /** The extensions of a hello with a server_name extension between the others. */
  function NamedExtensions(h: Hello): seq<Byte>
    requires 2 + |EncodeNames(h.names)| < 0x1_0000
  {
    EncodeExtensions(h.before) + (ServerNameExtension(Vector16(EncodeNames(h.names))) + EncodeExtensions(h.after))
  }

  /** A handshake record around a hello with the given extension block, every length exact. */
  function EncodeRecord(recordVersion: seq<Byte>, h: Hello, extensions: Opaque16): (r: seq<Byte>)
    requires 4 + |HelloBody(h, extensions)| < 0x1_0000
  {
    var body := HelloBody(h, extensions);
    [0x16] + recordVersion + E16(4 + |body|) + ([0x01] + E24(|body|) + body)
  }

  function HelloBody(h: Hello, extensions: Opaque16): seq<Byte> {
    h.version + h.random + (Vector8(h.session) + (Vector16(h.suites) + (Vector8(h.compression)
    + Vector16(extensions))))
  }

  lemma BodyStep(h: Hello, extensions: Opaque16)
    requires |h.version| == 2 && |h.random| == 32
    ensures SniffHello(HelloBody(h, extensions)) == WalkExtensions(extensions, |extensions|)
  {
    hide SniffSession, SniffSuites, SniffCompression, SniffExtensions, WalkExtensions;
    hide Vector8, Vector16, E16;
    var b3 := Vector16(extensions);
    var b2 := Vector8(h.compression) + b3;
    var b1 := Vector16(h.suites) + b2;
    var b0 := Vector8(h.session) + b1;
    assert (h.version + h.random + b0)[34..] == b0;
    SessionStep(h.session, b1);
    SuitesStep(h.suites, b2);
    CompressionStep(h.compression, b3);
    VectorIsBlock(extensions);
    ExtensionsStep(|extensions|, extensions);
  }

  lemma VectorIsBlock(extensions: Opaque16)
    ensures Vector16(extensions) == E16(|extensions|) + extensions
  {
  }

  lemma ConformingStep(recordVersion: seq<Byte>, h: Hello, extensions: Opaque16, tail: seq<Byte>)
    requires |recordVersion| == 2 && |h.version| == 2 && |h.random| == 32
    requires 4 + |HelloBody(h, extensions)| < 0x1_0000
    ensures Sniff(EncodeRecord(recordVersion, h, extensions) + tail) == WalkExtensions(extensions, |extensions|)
  {
    var body := HelloBody(h, extensions);
    ReadWrite24(|body|);
    BodyStep(h, extensions);
    hide Sniff, SniffHandshake, SniffHello, WalkExtensions, HelloBody, E16, E24, Be24;
    RecordHeaderStep(recordVersion, [0x01] + E24(|body|) + body, tail);
    HandshakeStep(E24(|body|), body);
  }

  /**
    A conforming hello with a server_name extension sniffs as its host name, any
    ASCII name or other text in UTF-8, whatever surrounds it: other extensions on both sides, entries of other kinds
    before the host name, anything after it, and bytes after the record.
   */
  lemma ConformingHostIsFound(recordVersion: seq<Byte>, h: Hello, others: seq<Name>, host: Opaque16,
                              more: seq<Name>, tail: seq<Byte>)
    requires |recordVersion| == 2 && |h.version| == 2 && |h.random| == 32
    requires h.names == others + [Name(0, host)] + more
    requires (forall i :: 0 <= i < |host| ==> host[i] < 0x80) || (exists text :: host == EncodeText(text))
    requires (forall n :: n in others ==> n.kind != 0) && (forall e :: e in h.before ==> e.kind != 0)
    requires 2 + |EncodeNames(h.names)| < 0x1_0000 && |NamedExtensions(h)| < 0x1_0000
    requires 4 + |HelloBody(h, NamedExtensions(h))| < 0x1_0000
    ensures Sniff(EncodeRecord(recordVersion, h, NamedExtensions(h)) + tail) == Host(host)
  {
    hide Sniff, EncodeRecord, HelloBody, EncodeExtensions, AtServerName, SniffNames, ValidUtf8, E16, EncodeText;
    TextIsValid(host);
    var list := Vector16(EncodeNames(h.names));
    var rest := ServerNameExtension(list) + EncodeExtensions(h.after);
    ConformingStep(recordVersion, h, NamedExtensions(h), tail);
    WalkPast(h.before, rest, |NamedExtensions(h)|);
    AtServerNameReads(list, EncodeExtensions(h.after));
    ConformingList(others, host, more);
    NameListSniffs(NameList(|EncodeNames(h.names)|, others, EncodeNames(more)), host);
  }

  lemma TextIsValid(host: seq<Byte>)
    requires (forall i :: 0 <= i < |host| ==> host[i] < 0x80) || (exists text :: host == EncodeText(text))
    ensures ValidUtf8(host)
  {
    hide ValidUtf8, EncodeText;
    if text :| host == EncodeText(text) {
      EncodedIsValid(text);
    } else {
      AsciiIsValid(host);
    }
  }

  lemma ConformingList(others: seq<Name>, host: Opaque16, more: seq<Name>)
    requires |EncodeNames(others + [Name(0, host)] + more)| < 0x1_0000
    ensures |EncodeNames(others + [Name(0, host)] + more)|
            == |EncodeNames(others)| + 3 + |host| + |EncodeNames(more)|
    ensures Vector16(EncodeNames(others + [Name(0, host)] + more))
            == NameListBytes(NameList(|EncodeNames(others + [Name(0, host)] + more)|, others, EncodeNames(more)), host)
  {
    hide E16, EncodeNames;
    var named := [Name(0, host)] + more;
    EncodeOneMoreName(Name(0, host), more);
    EncodeNamesConcat(others, named);
    assert others + [Name(0, host)] + more == others + named;
  }

  /** A conforming hello without a server_name extension sniffs as no host. */
  lemma NoServerNameNoHost(recordVersion: seq<Byte>, h: Hello, tail: seq<Byte>)
    requires |recordVersion| == 2 && |h.version| == 2 && |h.random| == 32
    requires (forall e :: e in h.before ==> e.kind != 0) && |EncodeExtensions(h.before)| < 0x1_0000
    requires 4 + |HelloBody(h, EncodeExtensions(h.before))| < 0x1_0000
    ensures Sniff(EncodeRecord(recordVersion, h, EncodeExtensions(h.before)) + tail) == NoHost
  {
    hide Sniff, EncodeRecord, HelloBody, EncodeExtensions;
    var block := EncodeExtensions(h.before);
    ConformingStep(recordVersion, h, block, tail);
    WalkPast(h.before, [], |block|);
    assert block + [] == block;
  }

  /**
    Input arriving piecemeal: every prefix shorter than the record gives no
    host, and every longer one the same outcome as the whole input.
   */
  lemma DependsOnlyOnRecord(data: seq<Byte>, k: nat)
    requires 5 <= |data| && k <= |data|
    ensures k < 5 + Be16(data[3], data[4]) ==> Sniff(data[..k]) == NoHost
    ensures 5 + Be16(data[3], data[4]) <= k ==> Sniff(data[..k]) == Sniff(data)
  {
    hide Be16, Be24, SniffHello;
    var n := 5 + Be16(data[3], data[4]);
    if n <= k {
      assert data[..k][5..n] == data[5..n];
    }
  }

  lemma {:induction false} EncodeNamesConcat(a: seq<Name>, b: seq<Name>)
    ensures EncodeNames(a + b) == EncodeNames(a) + EncodeNames(b)
  {
    hide Vector16;
    if a == [] {
      assert a + b == b;
    } else {
      assert (a + b)[1..] == a[1..] + b;
      EncodeNamesConcat(a[1..], b);
      assert EncodeNames(a + b)
             == [a[0].kind] + Vector16(a[0].text) + (EncodeNames(a[1..]) + EncodeNames(b));
    }
  }
}
