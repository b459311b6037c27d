/**
  The TLS server-name sniffer of redog-component/src/sniffer.rs. The methods
  walk the input with a position; the functions describe the same parser as one
  that consumes its input, which the theorems about the format are stated on.
 */
module Sniffer {
  import opened Bits
  import opened Bytes

  /** The sniffer's outcome; slicing past the input aborts it. */
  datatype Sniffed = Host(name: seq<Byte>) | NoHost | OutOfBounds

  // ---- The parser as a consumer ----

  function Sniff(data: seq<Byte>): Sniffed {
    if |data| < 6 || data[0] != 0x16 then NoHost
    else
      var length := Be16(data[3], data[4]);
      if |data| < 5 + length then NoHost else SniffHandshake(data[5..5 + length])
  }

  function SniffHandshake(b: seq<Byte>): Sniffed {
    if |b| < 4 || b[0] != 0x01 then NoHost
    else if |b| < 4 + Be24(b[1], b[2], b[3]) then NoHost
    else SniffHello(b[4..])
  }

  /** After the version and random: session id, cipher suites, compression methods, extensions. */
  function SniffHello(b: seq<Byte>): Sniffed {
    if |b| <= 34 then NoHost else SniffSession(b[34..])
  }

  function SniffSession(b: seq<Byte>): Sniffed
    requires |b| > 0
  {
    var n: nat := b[0];
    if |b| < 1 + n + 2 then NoHost else SniffSuites(b[1 + n..])
  }

  function SniffSuites(b: seq<Byte>): Sniffed
    requires |b| >= 2
  {
    var n := Be16(b[0], b[1]);
    if |b| <= 2 + n then NoHost else SniffCompression(b[2 + n..])
  }

  function SniffCompression(b: seq<Byte>): Sniffed
    requires |b| > 0
  {
    var n: nat := b[0];
    if |b| < 1 + n + 2 then NoHost else SniffExtensions(b[1 + n..])
  }

  function SniffExtensions(b: seq<Byte>): Sniffed
    requires |b| >= 2
  {
    var n := Be16(b[0], b[1]);
    if |b| < 2 + n then NoHost else WalkExtensions(b[2..], n)
  }

  /** The extension walk: `budget` is what is left of the extension block, `b` of the handshake. */
  function WalkExtensions(b: seq<Byte>, budget: nat): Sniffed
    requires budget <= |b|
  {
    if budget < 4 then NoHost
    else if Be16(b[0], b[1]) == 0 then AtServerName(b)
    else
      var n := 4 + Be16(b[2], b[3]);
      if budget < n then NoHost else WalkExtensions(b[n..], budget - n)
  }

  /** At the header of a server_name extension. */
  function AtServerName(b: seq<Byte>): Sniffed
    requires |b| >= 4
  {
    var n := 4 + Be16(b[2], b[3]);
    if |b| < n then OutOfBounds else SniffNames(b[4..n])
  }

  function SniffNames(b: seq<Byte>): Sniffed {
    if |b| < 2 then NoHost
    else
      var n := Be16(b[0], b[1]);
      if |b| < 2 + n then NoHost else WalkNames(b[2..], n)
  }

  /** The name walk: `budget` is what is left of the name list, `b` of the extension. */
  function WalkNames(b: seq<Byte>, budget: nat): (r: Sniffed)
    requires budget <= |b|
    ensures !r.OutOfBounds?
  {
    if budget < 3 then NoHost
    else
      var n := 3 + Be16(b[1], b[2]);
      if b[0] == 0 && n <= |b| then (if ValidUtf8(b[3..n]) then Host(b[3..n]) else NoHost)
      else if budget < n then NoHost
      else WalkNames(b[n..], budget - n)
  }

  // ---- The parser as written ----

  method SniffTlsSni(data: seq<Byte>) returns (r: Sniffed)
    ensures r == Sniff(data)
  {
    if |data| < 6 {
      return NoHost;
    }
    if data[0] != 0x16 {
      return NoHost;
    }
    var recordLength := Be16(data[3], data[4]);
    if |data| < 5 + recordLength {
      return NoHost;
    }
    r := ParseClientHello(data[5..5 + recordLength]);
  }

  method ParseClientHello(data: seq<Byte>) returns (r: Sniffed)
    ensures r == SniffHandshake(data)
  {
    hide SniffSuites, Be24;
    if data == [] || data[0] != 0x01 {
      return NoHost;
    }
    if |data| < 4 {
      return NoHost;
    }
    var helloLength := Be24(data[1], data[2], data[3]);
    if |data| < 4 + helloLength {
      return NoHost;
    }
    var pos := 4;
    pos := pos + 2;
    pos := pos + 32;
    if pos >= |data| {
      return NoHost;
    }
    assert data[4..][34..] == data[pos..];

    var sessionIdLen: nat := data[pos];
    ghost var at := pos;
    pos := pos + 1 + sessionIdLen;
    if pos + 2 > |data| {
      return NoHost;
    }
    assert data[at..][1 + sessionIdLen..] == data[pos..];
    r := ParseSuites(data, pos);
  }

  /** ParseClientHello from the cipher suites on. */
  method ParseSuites(data: seq<Byte>, start: nat) returns (r: Sniffed)
    requires start + 2 <= |data|
    ensures r == SniffSuites(data[start..])
  {
    hide WalkExtensions, Be16;
    var pos := start;
    var cipherSuitesLen := Be16(data[pos], data[pos + 1]);
    pos := pos + 2 + cipherSuitesLen;
    if pos >= |data| {
      return NoHost;
    }
    assert data[start..][2 + cipherSuitesLen..] == data[pos..];

    var compressionLen: nat := data[pos];
    ghost var at := pos;
    pos := pos + 1 + compressionLen;
    if pos + 2 > |data| {
      return NoHost;
    }
    assert data[at..][1 + compressionLen..] == data[pos..];

    var extensionsLen := Be16(data[pos], data[pos + 1]);
    at := pos;
    pos := pos + 2;
    var extensionsEnd := pos + extensionsLen;
    if extensionsEnd > |data| {
      return NoHost;
    }
    assert data[at..][2..] == data[pos..];
    r := ParseExtensions(data, pos, extensionsEnd);
  }

  lemma ExtensionStep(data: seq<Byte>, pos: nat, end: nat)
    requires pos + 4 <= end <= |data|
    ensures var n := pos + 4 + Be16(data[pos + 2], data[pos + 3]);
            WalkExtensions(data[pos..], end - pos) ==
            if Be16(data[pos], data[pos + 1]) == 0 then
              (if |data| < n then OutOfBounds else SniffNames(data[pos + 4..n]))
            else if end < n then NoHost
            else WalkExtensions(data[n..], end - n)
  {
    hide Be16, SniffNames;
    var b := data[pos..];
    var n := 4 + Be16(data[pos + 2], data[pos + 3]);
    if n <= |b| {
      assert b[4..n] == data[pos + 4..pos + n] && b[n..] == data[pos + n..];
    }
  }

  /** The extension loop of ParseClientHello. */
  method ParseExtensions(data: seq<Byte>, start: nat, extensionsEnd: nat) returns (r: Sniffed)
    requires start <= extensionsEnd <= |data|
    ensures r == WalkExtensions(data[start..], extensionsEnd - start)
  {
    hide Be16, SniffNames;
    var pos := start;
    while pos + 4 <= extensionsEnd
      invariant WalkExtensions(data[start..], extensionsEnd - start) ==
                if pos <= extensionsEnd then WalkExtensions(data[pos..], extensionsEnd - pos) else NoHost
    {
      ExtensionStep(data, pos, extensionsEnd);
      hide WalkExtensions;
      var extType := Be16(data[pos], data[pos + 1]);
      var extLen := Be16(data[pos + 2], data[pos + 3]);
      pos := pos + 4;
      if extType == 0x0000 {
        if pos + extLen > |data| {
          return OutOfBounds;
        }
        r := ParseSniExtension(data[pos..pos + extLen]);
        return;
      }
      pos := pos + extLen;
    }
    r := NoHost;
  }

  lemma NameStep(data: seq<Byte>, pos: nat, end: nat)
    requires pos + 3 <= end <= |data|
    ensures var n := pos + 3 + Be16(data[pos + 1], data[pos + 2]);
            WalkNames(data[pos..], end - pos) ==
            if data[pos] == 0 && n <= |data| then
              (if ValidUtf8(data[pos + 3..n]) then Host(data[pos + 3..n]) else NoHost)
            else if end < n then NoHost
            else WalkNames(data[n..], end - n)
  {
    hide Be16, ValidUtf8;
    var b := data[pos..];
    var n := 3 + Be16(data[pos + 1], data[pos + 2]);
    if n <= |b| {
      assert b[3..n] == data[pos + 3..pos + n] && b[n..] == data[pos + n..];
    }
  }

  lemma NamesStart(data: seq<Byte>)
    ensures SniffNames(data) ==
            if |data| < 2 || |data| < 2 + Be16(data[0], data[1]) then NoHost
            else WalkNames(data[2..], Be16(data[0], data[1]))
  {
    hide WalkNames, Be16;
  }

  lemma NamesEnd(b: seq<Byte>, budget: nat)
    requires budget <= |b| && budget < 3
    ensures WalkNames(b, budget) == NoHost
  {
  }

  method ParseSniExtension(data: seq<Byte>) returns (r: Sniffed)
    ensures r == SniffNames(data)
  {
    hide Be16, ValidUtf8, SniffNames, WalkNames;
    NamesStart(data);
    if |data| < 2 {
      return NoHost;
    }
    var listLen := Be16(data[0], data[1]);
    if |data| < 2 + listLen {
      return NoHost;
    }
    var pos := 2;
    while pos + 3 <= 2 + listLen
      invariant pos >= 2
      invariant SniffNames(data) ==
                if pos <= 2 + listLen then WalkNames(data[pos..], 2 + listLen - pos) else NoHost
    {
      NameStep(data, pos, 2 + listLen);
      var nameType := data[pos];
      var nameLen := Be16(data[pos + 1], data[pos + 2]);
      pos := pos + 3;
      if nameType == 0x00 {
        if pos + nameLen <= |data| {
          if ValidUtf8(data[pos..pos + nameLen]) {
            return Host(data[pos..pos + nameLen]);
          }
          return NoHost;
        }
      }
      pos := pos + nameLen;
    }
    if pos <= 2 + listLen {
      NamesEnd(data[pos..], 2 + listLen - pos);
    }
    r := NoHost;
  }
}
