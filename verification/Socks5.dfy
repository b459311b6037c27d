/** The SOCKS5 server codec of redog-transport/src/socks5.rs (RFC 1928, sections 3 to 6). */
module Socks5 {
  import opened Bits
  import opened Bytes
  import opened Options

  datatype Command = Connect | Bind | UdpAssociate

  type Octets4 = o: seq<Byte> | |o| == 4 witness [0, 0, 0, 0]
  type Octets16 = o: seq<Byte> | |o| == 16 witness [0, 0, 0, 0, 0, 0, 0, 0, 0, 0, 0, 0, 0, 0, 0, 0]
  type Utf8 = b: seq<Byte> | ValidUtf8(b)

  datatype Address = Ipv4(ip4: Octets4, port: U16) | Ipv6(ip6: Octets16, port: U16) | Domain(name: Utf8, port: U16)

  datatype Error = UnexpectedEof | Protocol

  function CommandByte(c: Command): Byte {
    match c
    case Connect => 0x01
    case Bind => 0x02
    case UdpAssociate => 0x03
  }

  function CommandOf(v: Byte): (c: Option<Command>)
    ensures forall k :: c == Some(k) <==> v == CommandByte(k)
    ensures c == Some(Connect) <==> v == 1
    ensures c == Some(Bind) <==> v == 2
    ensures c == Some(UdpAssociate) <==> v == 3
  {
    if v == 0x01 then Some(Connect)
    else if v == 0x02 then Some(Bind)
    else if v == 0x03 then Some(UdpAssociate)
    else None
  }

  /** A read: its result and the input left unread. */
  datatype Read<T> = Read(result: Result<T, Error>, rest: seq<Byte>)

  /** read_exact: n bytes, or an error after consuming everything. */
  function TakeExact(n: nat, input: seq<Byte>): Read<seq<Byte>> {
    if n <= |input| then Read(Ok(input[..n]), input[n..]) else Read(Err(UnexpectedEof), [])
  }

  /** The address part, its port still open. */
  function TakeHost(atyp: Byte, input: seq<Byte>): Read<Address> {
    if atyp == 0x01 then
      if |input| < 4 then Read(Err(UnexpectedEof), []) else Read(Ok(Ipv4(input[..4], 0)), input[4..])
    else if atyp == 0x03 then
      if input == [] || |input| < 1 + input[0] as int then Read(Err(UnexpectedEof), [])
      else
        var n := 1 + input[0] as int;
        Read(if ValidUtf8(input[1..n]) then Ok(Domain(input[1..n], 0)) else Err(Protocol), input[n..])
    else if atyp == 0x04 then
      if |input| < 16 then Read(Err(UnexpectedEof), []) else Read(Ok(Ipv6(input[..16], 0)), input[16..])
    else
      Read(Err(Protocol), input)
  }

  function TakeAddress(atyp: Byte, input: seq<Byte>): Read<Address> {
    var host := TakeHost(atyp, input);
    if host.result.Err? then host
    else if |host.rest| < 2 then Read(Err(UnexpectedEof), [])
    else Read(Ok(host.result.value.(port := Be16(host.rest[0], host.rest[1]))), host.rest[2..])
  }

  /** The type byte and the host; a domain's length is cut to one byte. */
  function HostBytes(addr: Address): (b: seq<Byte>)
    ensures |b| > 0
  {
    match addr
    case Ipv4(o, _) => [0x01] + o
    case Ipv6(o, _) => [0x04] + o
    case Domain(name, _) => [0x03] + [|name| % 0x100] + name
  }

  function Encoded(addr: Address): (b: seq<Byte>)
    ensures |b| > 2
  {
    HostBytes(addr) + E16(addr.port)
  }

  const METHOD_REPLY: seq<Byte> := [0x05, 0x00]
  const SUCCESS_REPLY: seq<Byte> := [0x05, 0x00, 0x00, 0x01, 0, 0, 0, 0, 0, 0]

  /** What a handshake returns, leaves unread and writes. */
  datatype Outcome = Outcome(result: Result<(Command, Address), Error>, rest: seq<Byte>, output: seq<Byte>)

  function Handshake(input: seq<Byte>): Outcome {
    if |input| < 1 then Outcome(Err(UnexpectedEof), [], [])
    else if input[0] != 0x05 then Outcome(Err(Protocol), input[1..], [])
    else if |input| < 2 then Outcome(Err(UnexpectedEof), [], [])
    else
      var methods := TakeExact(input[1], input[2..]);
      if methods.result.Err? then Outcome(Err(UnexpectedEof), [], [])
      else HandleRequest(methods.rest)
  }

  /** The request half, after the method reply was written. */
  function HandleRequest(input: seq<Byte>): Outcome {
    if |input| < 4 then Outcome(Err(UnexpectedEof), [], METHOD_REPLY)
    else if input[0] != 0x05 then Outcome(Err(Protocol), input[4..], METHOD_REPLY)
    else
      var cmd := CommandOf(input[1]);
      if cmd.None? then Outcome(Err(Protocol), input[4..], METHOD_REPLY)
      else
        var addr := TakeAddress(input[3], input[4..]);
        if addr.result.Err? then Outcome(Err(addr.result.error), addr.rest, METHOD_REPLY)
        else Outcome(Ok((cmd.value, addr.result.value)), addr.rest, METHOD_REPLY + SUCCESS_REPLY)
  }

  /** A byte stream: what is still to be read, and what was written. */
  class Stream {
    var input: seq<Byte>
    var output: seq<Byte>

    constructor (input: seq<Byte>)
      ensures this.input == input && output == []
    {
      this.input, output := input, [];
    }

    method ReadExact(n: nat) returns (r: Result<seq<Byte>, Error>)
      modifies this
      ensures Read(r, input) == TakeExact(n, old(input)) && output == old(output)
    {
      if n <= |input| {
        r, input := Ok(input[..n]), input[n..];
      } else {
        r, input := Err(UnexpectedEof), [];
      }
    }

    method WriteAll(b: seq<Byte>)
      modifies this
      ensures output == old(output) + b && input == old(input)
    {
      output := output + b;
    }
  }

  method ReadU8(stream: Stream) returns (r: Result<Byte, Error>)
    modifies stream
    ensures stream.output == old(stream.output)
    ensures old(stream.input) == [] ==> r == Err(UnexpectedEof) && stream.input == []
    ensures old(stream.input) != [] ==> r == Ok(old(stream.input)[0]) && stream.input == old(stream.input)[1..]
  {
    var buf := stream.ReadExact(1);
    if buf.Err? {
      return Err(buf.error);
    }
    r := Ok(buf.value[0]);
  }

  method ReadU16(stream: Stream) returns (r: Result<U16, Error>)
    modifies stream
    ensures stream.output == old(stream.output)
    ensures |old(stream.input)| < 2 ==> r == Err(UnexpectedEof) && stream.input == []
    ensures |old(stream.input)| >= 2 ==>
              r == Ok(Be16(old(stream.input)[0], old(stream.input)[1])) && stream.input == old(stream.input)[2..]
  {
    var buf := stream.ReadExact(2);
    if buf.Err? {
      return Err(buf.error);
    }
    r := Ok(Be16(buf.value[0], buf.value[1]));
  }

  method ReadAddress(stream: Stream, atyp: Byte) returns (r: Result<Address, Error>)
    modifies stream
    ensures Read(r, stream.input) == TakeAddress(atyp, old(stream.input)) && stream.output == old(stream.output)
  {
    if atyp == 0x01 {
      var octets := stream.ReadExact(4);
      if octets.Err? { return Err(octets.error); }
      var port := ReadU16(stream);
      if port.Err? { return Err(port.error); }
      return Ok(Ipv4(octets.value, port.value));
    } else if atyp == 0x03 {
      var len := ReadU8(stream);
      if len.Err? { return Err(len.error); }
      var name := stream.ReadExact(len.value);
      if name.Err? { return Err(name.error); }
      assert name.value == old(stream.input)[1..1 + len.value as int];
      assert stream.input == old(stream.input)[1 + len.value as int..];
      if !ValidUtf8(name.value) { return Err(Protocol); }
      var port := ReadU16(stream);
      if port.Err? { return Err(port.error); }
      return Ok(Domain(name.value, port.value));
    } else if atyp == 0x04 {
      var octets := stream.ReadExact(16);
      if octets.Err? { return Err(octets.error); }
      var port := ReadU16(stream);
      if port.Err? { return Err(port.error); }
      return Ok(Ipv6(octets.value, port.value));
    }
    r := Err(Protocol);
  }

  method ServerHandshake(stream: Stream) returns (r: Result<(Command, Address), Error>)
    modifies stream
    ensures Outcome(r, stream.input, stream.output)
            == Handshake(old(stream.input)).(output := old(stream.output) + Handshake(old(stream.input)).output)
  {
    ghost var written := stream.output;
    var ver := ReadU8(stream);
    if ver.Err? { return Err(ver.error); }
    if ver.value != 0x05 { return Err(Protocol); }
    var nmethods := ReadU8(stream);
    if nmethods.Err? { return Err(nmethods.error); }
    var methods := stream.ReadExact(nmethods.value);
    if methods.Err? { return Err(methods.error); }
    stream.WriteAll(METHOD_REPLY);

    var header := stream.ReadExact(4);
    if header.Err? { return Err(header.error); }
    if header.value[0] != 0x05 { return Err(Protocol); }
    var cmd := CommandOf(header.value[1]);
    if cmd.None? { return Err(Protocol); }
    var addr := ReadAddress(stream, header.value[3]);
    if addr.Err? { return Err(addr.error); }
    stream.WriteAll(SUCCESS_REPLY);
    assert stream.output == written + (METHOD_REPLY + SUCCESS_REPLY);
    r := Ok((cmd.value, addr.value));
  }

  /** Appends the fields to a buffer; a domain's length is cut to one byte. */
  method EncodeAddress(addr: Address) returns (buf: seq<Byte>)
    ensures buf == Encoded(addr)
    ensures addr.Ipv4? ==> buf == [0x01] + addr.ip4 + E16(addr.port)
    ensures addr.Ipv6? ==> buf == [0x04] + addr.ip6 + E16(addr.port)
    ensures addr.Domain? ==> buf == [0x03, |addr.name| % 0x100] + addr.name + E16(addr.port)
  {
    hide E16, ValidUtf8;
    buf := [];
    match addr
    case Ipv4(octets, port) =>
      buf := buf + [0x01];
      buf := buf + octets;
      buf := buf + E16(port);
    case Ipv6(octets, port) =>
      buf := buf + [0x04];
      buf := buf + octets;
      buf := buf + E16(port);
    case Domain(name, port) =>
      buf := buf + [0x03];
      buf := buf + [|name| % 0x100];
      buf := buf + name;
      buf := buf + E16(port);
  }

  // ---- Addresses ----

  /** Reads an address from its type byte on. */
  function Decoded(b: seq<Byte>): Read<Address>
    requires |b| > 0
  {
    TakeAddress(b[0], b[1..])
  }

  /** Every address but a domain of more than 255 bytes. */
  predicate Encodable(addr: Address) {
    addr.Domain? ==> |addr.name| <= 255
  }

  lemma Ipv4Reads(o: Octets4, after: seq<Byte>)
    ensures TakeHost(0x01, o + after) == Read(Ok(Ipv4(o, 0)), after)
  {
    assert (o + after)[..4] == o && (o + after)[4..] == after;
  }

  lemma Ipv6Reads(o: Octets16, after: seq<Byte>)
    ensures TakeHost(0x04, o + after) == Read(Ok(Ipv6(o, 0)), after)
  {
    assert (o + after)[..16] == o && (o + after)[16..] == after;
  }

  lemma DomainReads(name: Utf8, after: seq<Byte>)
    requires |name| <= 255
    ensures TakeHost(0x03, [|name|] + name + after) == Read(Ok(Domain(name, 0)), after)
  {
    hide ValidUtf8;
    var b := [|name|] + name + after;
    assert b[1..1 + |name|] == name && b[1 + |name|..] == after;
  }

  lemma HostReads(addr: Address, after: seq<Byte>)
    requires Encodable(addr)
    ensures var b := HostBytes(addr) + after;
            TakeHost(b[0], b[1..]) == Read(Ok(addr.(port := 0)), after)
  {
    hide ValidUtf8, TakeHost;
    var b := HostBytes(addr) + after;
    match addr
    case Ipv4(o, _) =>
      assert b[1..] == o + after;
      Ipv4Reads(o, after);
    case Ipv6(o, _) =>
      assert b[1..] == o + after;
      Ipv6Reads(o, after);
    case Domain(name, _) =>
      assert b[1..] == [|name|] + name + after;
      DomainReads(name, after);
  }

  lemma PortStep(atyp: Byte, input: seq<Byte>, host: Address, port: U16, tail: seq<Byte>)
    requires TakeHost(atyp, input) == Read(Ok(host), E16(port) + tail)
    ensures TakeAddress(atyp, input) == Read(Ok(host.(port := port)), tail)
  {
    ReadWrite16(port);
    hide TakeHost, E16, Be16;
    var b := E16(port) + tail;
    assert b[0] == E16(port)[0] && b[1] == E16(port)[1] && b[2..] == tail;
  }

  lemma ShortRoundTrips(addr: Address, tail: seq<Byte>)
    requires Encodable(addr)
    ensures Decoded(Encoded(addr) + tail) == Read(Ok(addr), tail)
  {
    var after := E16(addr.port) + tail;
    var b := HostBytes(addr) + after;
    hide TakeHost, HostBytes, E16, TakeAddress;
    HostReads(addr, after);
    PortStep(b[0], b[1..], addr.(port := 0), addr.port, tail);
    assert Encoded(addr) + tail == b;
  }

  lemma LongIsCut(addr: Address, tail: seq<Byte>)
    requires !Encodable(addr)
    ensures Decoded(Encoded(addr) + tail).result != Ok(addr)
  {
    hide E16, Be16, ValidUtf8;
    var b := Encoded(addr) + tail;
    assert b[1..][0] == |addr.name| % 0x100;
  }

  /** An encoded address reads back as itself, leaving the trailing bytes, exactly when its length byte can hold it. */
  lemma AddressRoundTrip(addr: Address, tail: seq<Byte>)
    ensures Decoded(Encoded(addr) + tail) == Read(Ok(addr), tail) <==> Encodable(addr)
  {
    hide Decoded, Encoded;
    if Encodable(addr) {
      ShortRoundTrips(addr, tail);
    } else {
      LongIsCut(addr, tail);
    }
  }

  lemma HostSplits(b: seq<Byte>, host: Address, rest: seq<Byte>)
    requires |b| > 0 && TakeHost(b[0], b[1..]) == Read(Ok(host), rest)
    ensures Encodable(host) && host.port == 0 && b == HostBytes(host) + rest
  {
    hide ValidUtf8;
    match host
    case Ipv4(o, _) => assert b == [b[0]] + o + rest;
    case Ipv6(o, _) => assert b == [b[0]] + o + rest;
    case Domain(name, _) => assert b == [b[0]] + [b[1]] + name + rest;
  }

  lemma PortSplits(atyp: Byte, input: seq<Byte>, addr: Address, rest: seq<Byte>) returns (host: Address)
    requires TakeAddress(atyp, input) == Read(Ok(addr), rest)
    ensures TakeHost(atyp, input) == Read(Ok(host), E16(addr.port) + rest) && addr == host.(port := addr.port)
  {
    var taken := TakeHost(atyp, input);
    host := taken.result.value;
    WriteRead16(taken.rest[0], taken.rest[1]);
    hide TakeHost, E16, Be16;
    assert taken.rest == [taken.rest[0], taken.rest[1]] + rest;
  }

  /** Whatever reads as an address is the encoding of that address, and the rest. */
  lemma DecodedIsEncoded(b: seq<Byte>, addr: Address, rest: seq<Byte>)
    requires |b| > 0 && Decoded(b) == Read(Ok(addr), rest)
    ensures Encodable(addr) && b == Encoded(addr) + rest
  {
    hide TakeHost, TakeAddress, HostBytes, E16;
    var host := PortSplits(b[0], b[1..], addr, rest);
    HostSplits(b, host, E16(addr.port) + rest);
    SameHostBytes(host, addr);
  }

  lemma SameHostBytes(a: Address, b: Address)
    requires b == a.(port := b.port)
    ensures HostBytes(a) == HostBytes(b)
  {
  }

  /** No encoding is the beginning of another: two that agree as far as they go are the same. */
  lemma EncodingsArePrefixFree(a: Address, b: Address, t: seq<Byte>, u: seq<Byte>)
    requires Encodable(a) && Encodable(b) && Encoded(a) + t == Encoded(b) + u
    ensures a == b && t == u
  {
    hide Decoded, Encoded;
    ShortRoundTrips(a, t);
    ShortRoundTrips(b, u);
  }

  // ---- The handshake ----

  function Greeting(methods: seq<Byte>): seq<Byte>
    requires |methods| < 0x100
  {
    [0x05, |methods|] + methods
  }

  function Request(cmd: Command, reserved: Byte, addr: Address): seq<Byte> {
    [0x05, CommandByte(cmd), reserved] + Encoded(addr)
  }

  lemma GreetingStep(methods: seq<Byte>, more: seq<Byte>)
    requires |methods| < 0x100
    ensures Handshake(Greeting(methods) + more) == HandleRequest(more)
  {
    hide HandleRequest;
    var b := Greeting(methods) + more;
    assert b[2..] == methods + more;
    assert (methods + more)[|methods|..] == more;
  }

  lemma DecodedTakes(b: seq<Byte>)
    requires |b| > 0
    ensures Decoded(b) == TakeAddress(b[0], b[1..])
  {
    hide TakeAddress;
  }

  lemma RequestStep(cmd: Command, reserved: Byte, addr: Address, payload: seq<Byte>)
    requires Encodable(addr)
    ensures HandleRequest(Request(cmd, reserved, addr) + payload)
            == Outcome(Ok((cmd, addr)), payload, METHOD_REPLY + SUCCESS_REPLY)
  {
    hide TakeAddress, Encoded, Decoded;
    ShortRoundTrips(addr, payload);
    DecodedTakes(Encoded(addr) + payload);
    var b := Request(cmd, reserved, addr) + payload;
    var e := Encoded(addr) + payload;
    assert b == [0x05, CommandByte(cmd), reserved] + e;
    assert b[3] == e[0] && b[4..] == e[1..];
  }

  /**
    The handshake succeeds with a command and an address exactly on a greeting,
    a request for them and a payload, and leaves exactly the payload unread.
   */
  lemma HandshakeSucceedsIff(input: seq<Byte>, cmd: Command, addr: Address, payload: seq<Byte>)
    ensures Handshake(input).result == Ok((cmd, addr)) && Handshake(input).rest == payload <==>
            Encodable(addr)
            && exists methods: seq<Byte>, reserved: Byte ::
                 |methods| < 0x100 && input == Greeting(methods) + (Request(cmd, reserved, addr) + payload)
  {
    hide Handshake, HandleRequest, Greeting, Request, Encoded;
    if Handshake(input).result == Ok((cmd, addr)) && Handshake(input).rest == payload {
      var methods, more := GreetingSplits(input);
      var reserved := RequestSplits(more, cmd, addr, payload);
    }
    if Encodable(addr) {
      forall methods: seq<Byte>, reserved: Byte
        | |methods| < 0x100 && input == Greeting(methods) + (Request(cmd, reserved, addr) + payload)
        ensures Handshake(input).result == Ok((cmd, addr)) && Handshake(input).rest == payload
      {
        GreetingStep(methods, Request(cmd, reserved, addr) + payload);
        RequestStep(cmd, reserved, addr, payload);
      }
    }
  }

  lemma GreetingSplits(input: seq<Byte>) returns (methods: seq<Byte>, more: seq<Byte>)
    requires Handshake(input).result.Ok?
    ensures |methods| < 0x100 && input == Greeting(methods) + more && Handshake(input) == HandleRequest(more)
  {
    hide HandleRequest;
    var n: nat := input[1];
    methods, more := input[2..2 + n], input[2 + n..];
    assert input[2..][n..] == more;
    assert input == [input[0], input[1]] + methods + more;
  }

  lemma RequestSplits(input: seq<Byte>, cmd: Command, addr: Address, payload: seq<Byte>) returns (reserved: Byte)
    requires HandleRequest(input).result == Ok((cmd, addr)) && HandleRequest(input).rest == payload
    ensures Encodable(addr) && input == Request(cmd, reserved, addr) + payload
  {
    hide TakeAddress, Encoded, Decoded;
    assert input[3..][1..] == input[4..];
    DecodedTakes(input[3..]);
    DecodedIsEncoded(input[3..], addr, payload);
    reserved := input[2];
    assert input == [input[0], input[1], input[2]] + input[3..];
  }

  /**
    What a handshake writes: nothing before a complete greeting, then that no
    authentication is asked for, and on success, and only then, the reply that
    the request was granted, bound to 0.0.0.0:0.
   */
  lemma HandshakeWrites(input: seq<Byte>)
    ensures var h := Handshake(input);
            var greeted := |input| >= 2 && input[0] == 0x05 && |input| >= 2 + input[1] as int;
            && (h.result.Ok? ==> greeted)
            && (h.output == [] <==> !greeted)
            && (h.output == [0x05, 0x00] <==> greeted && h.result.Err?)
            && (h.output == [0x05, 0x00] + [0x05, 0x00, 0x00, 0x01, 0, 0, 0, 0, 0, 0] <==> h.result.Ok?)
  {
    hide TakeAddress;
  }

  // ---- Partial input ----

  lemma HostIsFinal(atyp: Byte, input: seq<Byte>, more: seq<Byte>)
    requires TakeHost(atyp, input).result != Err(UnexpectedEof)
    ensures TakeHost(atyp, input + more)
            == Read(TakeHost(atyp, input).result, TakeHost(atyp, input).rest + more)
  {
    hide ValidUtf8;
    var b := input + more;
    if atyp == 0x01 {
      assert b[..4] == input[..4] && b[4..] == input[4..] + more;
    } else if atyp == 0x03 {
      var n := 1 + input[0] as int;
      assert b[1..n] == input[1..n] && b[n..] == input[n..] + more;
    } else if atyp == 0x04 {
      assert b[..16] == input[..16] && b[16..] == input[16..] + more;
    }
  }

  lemma AddressIsFinal(atyp: Byte, input: seq<Byte>, more: seq<Byte>)
    requires TakeAddress(atyp, input).result != Err(UnexpectedEof)
    ensures TakeAddress(atyp, input + more)
            == Read(TakeAddress(atyp, input).result, TakeAddress(atyp, input).rest + more)
  {
    HostIsFinal(atyp, input, more);
    hide TakeHost, Be16;
    var rest := TakeHost(atyp, input).rest;
    if |rest| >= 2 {
      assert (rest + more)[2..] == rest[2..] + more;
    }
  }

  lemma RequestIsFinal(input: seq<Byte>, more: seq<Byte>)
    requires HandleRequest(input).result != Err(UnexpectedEof)
    ensures var h := HandleRequest(input); HandleRequest(input + more) == h.(rest := h.rest + more)
  {
    hide TakeAddress;
    var b := input + more;
    assert b[4..] == input[4..] + more;
    if input[0] == 0x05 && CommandOf(input[1]).Some? {
      AddressIsFinal(input[3], input[4..], more);
    }
  }

  lemma ResultIsFinal(input: seq<Byte>, more: seq<Byte>)
    requires Handshake(input).result != Err(UnexpectedEof)
    ensures var h := Handshake(input); Handshake(input + more) == h.(rest := h.rest + more)
  {
    hide HandleRequest;
    var b := input + more;
    if input[0] != 0x05 {
      assert b[1..] == input[1..] + more;
    } else {
      var n: nat := input[1];
      assert b[2..] == input[2..] + more && b[2..][n..] == input[2..][n..] + more;
      RequestIsFinal(input[2..][n..], more);
    }
  }

  lemma LongInputSuffices(input: seq<Byte>)
    requires |input| >= 600
    ensures Handshake(input).result != Err(UnexpectedEof)
  {
    hide ValidUtf8;
  }

  /**
    Input arriving piecemeal: the handshake waits for more exactly as long as
    more input can change its result. Any other result is final, and further
    bytes stay unread.
   */
  lemma WaitsOnlyWhileOpen(input: seq<Byte>)
    ensures Handshake(input).result == Err(UnexpectedEof) <==>
              exists more :: Handshake(input + more).result != Handshake(input).result
    ensures Handshake(input).result != Err(UnexpectedEof) ==>
              forall more :: Handshake(input + more).rest == Handshake(input).rest + more
  {
    hide Handshake;
    if Handshake(input).result == Err(UnexpectedEof) {
      var more := seq(600, _ => 0 as Byte);
      LongInputSuffices(input + more);
    } else {
      forall more
        ensures Handshake(input + more).result == Handshake(input).result
        ensures Handshake(input + more).rest == Handshake(input).rest + more
      {
        ResultIsFinal(input, more);
      }
    }
  }

  // ---- The client's side ----

  /** What a client makes of the server's bytes (RFC 1928, sections 3 and 6). */
  datatype ClientView =
    | Waiting
    | MethodChosen(auth: Byte)
    | Granted(auth: Byte, bound: Address)
    | Failed

  /** The reply to a request: version, reply code, reserved byte, bound address. */
  function ReadReply(auth: Byte, b: seq<Byte>): ClientView {
    if b == [] then MethodChosen(auth)
    else if |b| < 4 then Waiting
    else if b[0] != 0x05 || b[1] != 0x00 || b[2] != 0x00 then Failed
    else
      var bound := TakeAddress(b[3], b[4..]);
      if bound.result.Ok? && bound.rest == [] then Granted(auth, bound.result.value) else Failed
  }

  /** The client offered `methods` and takes any of them. */
  function ClientReads(methods: seq<Byte>, b: seq<Byte>): ClientView {
    if |b| < 2 then Waiting
    else if b[0] != 0x05 || b[1] !in methods then Failed
    else ReadReply(b[1], b[2..])
  }

  lemma NothingReads(methods: seq<Byte>)
    requires 0x00 in methods
    ensures ClientReads(methods, []) == Waiting
    ensures ClientReads(methods, [0x05, 0x00]) == MethodChosen(0x00)
  {
    hide TakeAddress;
  }

  lemma UnspecifiedReads()
    ensures TakeAddress(0x01, [0, 0, 0, 0, 0, 0]) == Read(Ok(Ipv4([0, 0, 0, 0], 0)), [])
  {
    var o := [0, 0, 0, 0];
    assert E16(0) + [] == [0, 0];
    assert o + (E16(0) + []) == [0, 0, 0, 0, 0, 0];
    Ipv4Reads(o, E16(0) + []);
    PortStep(0x01, o + (E16(0) + []), Ipv4(o, 0), 0, []);
  }

  lemma GrantReads(methods: seq<Byte>)
    requires 0x00 in methods
    ensures ClientReads(methods, [0x05, 0x00] + [0x05, 0x00, 0x00, 0x01, 0, 0, 0, 0, 0, 0])
            == Granted(0x00, Ipv4([0, 0, 0, 0], 0))
  {
    hide TakeAddress;
    UnspecifiedReads();
    var reply := [0x05, 0x00, 0x00, 0x01, 0, 0, 0, 0, 0, 0];
    assert ([0x05, 0x00] + reply)[2..] == reply;
    assert reply[4..] == [0, 0, 0, 0, 0, 0];
  }

  /**
    Both sides together: a client that offers to go without authentication is
    never refused a method, and takes its request for granted exactly when the
    server does.
   */
  lemma ClientAgrees(input: seq<Byte>, methods: seq<Byte>)
    requires 0x00 in methods
    ensures var h := Handshake(input);
            && (ClientReads(methods, h.output) == Granted(0x00, Ipv4([0, 0, 0, 0], 0)) <==> h.result.Ok?)
            && (ClientReads(methods, h.output) == MethodChosen(0x00) <==>
                  h.result.Err? && |input| >= 2 && input[0] == 0x05 && |input| >= 2 + input[1] as int)
            && ClientReads(methods, h.output) != Failed
  {
    hide Handshake, ClientReads;
    HandshakeWrites(input);
    NothingReads(methods);
    GrantReads(methods);
  }
}
