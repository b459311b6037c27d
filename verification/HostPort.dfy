/** Host and port parsing of redog-listener/src/http_parse.rs, against the destination printer. */
module HostPort {
  import opened Bits
  import opened Options
  import opened Text
  import opened Metadata

  datatype ParseError = EmptyHost | MalformedIpv6 | InvalidPort

  type HostAndPort = Result<(string, U16), ParseError>

  function ParsePort(host: string, text: string): HostAndPort {
    var port := ParseUnsigned(text, 0x1_0000);
    if port.Some? then Ok((host, port.value)) else Err(InvalidPort)
  }

  function ParseHostPort(s: string, defaultPort: U16): HostAndPort {
    if s == "" then Err(EmptyHost)
    else
      var bracketEnd := Find(s, ']');
      if bracketEnd.Some? then
        if !StartsWith(s, "[") || bracketEnd.value == 0 then Err(MalformedIpv6)
        else
          var host := s[1..bracketEnd.value];
          var port := StripPrefix(s[bracketEnd.value + 1..], ":");
          if port.None? || port.value == "" then Ok((host, defaultPort)) else ParsePort(host, port.value)
      else
        var colon := FindLast(s, ':');
        if colon.None? then Ok((s, defaultPort))
        else
          var host, port := s[..colon.value], s[colon.value + 1..];
          if host == "" then Err(EmptyHost)
          else if port == "" then Ok((host, defaultPort))
          else ParsePort(host, port)
  }

  function UntilSlash(s: string): string {
    var slash := Find(s, '/');
    if slash.Some? then s[..slash.value] else s
  }

  function ExtractHostFromTarget(target: string, defaultPort: U16): HostAndPort {
    var http := StripPrefix(target, "http://");
    var https := StripPrefix(target, "https://");
    ParseHostPort(if http.Some? then UntilSlash(http.value)
                  else if https.Some? then UntilSlash(https.value)
                  else target, defaultPort)
  }

  // ---- Round trips ----

  lemma PlainRoundTrips(host: string, port: U16, defaultPort: U16)
    requires host != "" && ']' !in host
    ensures ParseHostPort(host + ":" + Print(port), defaultPort) == Ok((host, port))
  {
    hide Find, FindLast, ParseUnsigned;
    var digits := Print(port);
    var s := host + ":" + digits;
    ParsePrint(port, 0x1_0000);
    assert ']' !in s;
    assert Find(s, ']').None?;
    FindLastAt(host, ':', digits);
    assert s == host + [':'] + digits;
    assert s[..|host|] == host && s[|host| + 1..] == digits;
  }

  lemma BracketedIsOther(host: string, text: string, defaultPort: U16)
    requires ']' in host
    ensures ParseHostPort(host + text, defaultPort).Ok? ==> ParseHostPort(host + text, defaultPort).value.0 != host
  {
    hide FindLast, ParseUnsigned;
    var s := host + text;
    var k :| 0 <= k < |host| && host[k] == ']';
    FindNotAfter(s, ']', k);
  }

  /**
    A printed destination parses back to its host and port exactly when the host
    is not empty and has no closing bracket, an unbracketed IPv6 text included.
   */
  lemma DestinationRoundTrip(host: string, port: U16, defaultPort: U16)
    ensures ParseHostPort(Authority(host, port), defaultPort) == Ok((host, port)) <==> host != "" && ']' !in host
  {
    hide ParseHostPort, Print;
    if host == "" {
      EmptyHostFails(port, defaultPort);
    } else if ']' in host {
      assert host + ":" + Print(port) == host + (":" + Print(port));
      BracketedIsOther(host, ":" + Print(port), defaultPort);
    } else {
      PlainRoundTrips(host, port, defaultPort);
    }
  }

  /** So does the destination of a connection: its domain if it has one, whatever the address, else its address text. */
  lemma ConnectionRoundTrip(c: Connection, ipText: Ip -> string, defaultPort: U16)
    ensures c.host.Some? ==> RemoteHost(c, ipText) == c.host.value
    ensures c.host.None? && c.dstIp.Some? ==> RemoteHost(c, ipText) == ipText(c.dstIp.value)
    ensures c.host.None? && c.dstIp.None? ==> RemoteHost(c, ipText) == ""
    ensures Destination(c, ipText) == RemoteHost(c, ipText) + ":" + Print(c.dstPort)
    ensures ParseHostPort(Destination(c, ipText), defaultPort) == Ok((RemoteHost(c, ipText), c.dstPort)) <==>
              RemoteHost(c, ipText) != "" && ']' !in RemoteHost(c, ipText)
  {
    DestinationRoundTrip(RemoteHost(c, ipText), c.dstPort, defaultPort);
    assert "" + ":" == ":";
  }

  lemma EmptyHostFails(port: U16, defaultPort: U16)
    ensures ParseHostPort(":" + Print(port), defaultPort) == Err(EmptyHost)
  {
    hide Find, FindLast, ParseUnsigned;
    var s := ":" + Print(port);
    assert s == "" + [':'] + Print(port);
    FindLastAt("", ':', Print(port));
    assert Find(s, ']').None?;
  }

  /** The bracketed form round-trips for every text without a closing bracket, with and without a port. */
  lemma BracketedRoundTrips(host: string, port: U16, defaultPort: U16)
    requires ']' !in host
    ensures ParseHostPort("[" + host + "]:" + Print(port), defaultPort) == Ok((host, port))
    ensures ParseHostPort("[" + host + "]", defaultPort) == Ok((host, defaultPort))
  {
    hide Find, FindLast, ParseUnsigned;
    ParsePrint(port, 0x1_0000);
    BracketStep(host, ":" + Print(port));
    assert "[" + host + "]:" + Print(port) == "[" + host + "]" + (":" + Print(port));
    assert (":" + Print(port))[1..] == Print(port);
    BracketStep(host, "");
    assert "[" + host + "]" == "[" + host + "]" + "";
  }

  lemma BracketStep(host: string, rest: string)
    requires ']' !in host
    ensures var s := "[" + host + "]" + rest;
            && StartsWith(s, "[") && Find(s, ']') == Some(1 + |host|)
            && s[1..1 + |host|] == host && s[2 + |host|..] == rest
  {
    hide Find;
    var s := "[" + host + "]" + rest;
    assert s == ("[" + host) + [']'] + rest;
    FindAt("[" + host, ']', rest);
  }

  /** An absolute target parses as its authority alone, whatever path follows, if any. */
  lemma TargetIsAuthority(secure: bool, authority: string, path: string, defaultPort: U16)
    requires '/' !in authority && (path == "" || path[0] == '/')
    ensures var scheme := if secure then "https://" else "http://";
            ExtractHostFromTarget(scheme + (authority + path), defaultPort) == ParseHostPort(authority, defaultPort)
  {
    hide ParseHostPort, Find;
    var rest := authority + path;
    if path == "" {
      assert rest == authority;
      assert Find(rest, '/').None?;
    } else {
      assert rest == authority + ['/'] + path[1..];
      FindAt(authority, '/', path[1..]);
    }
    assert UntilSlash(rest) == authority;
    if secure {
      SchemeStep("https://", rest);
      assert !StartsWith("https://" + rest, "http://") by {
        assert ("https://" + rest)[..7][4] == 's' && "http://"[4] == ':';
      }
    } else {
      SchemeStep("http://", rest);
    }
  }

  /** A target without a scheme is the authority itself, slashes included. */
  lemma PlainTargetIsParsed(target: string, defaultPort: U16)
    requires forall rest :: target != "http://" + rest && target != "https://" + rest
    ensures ExtractHostFromTarget(target, defaultPort) == ParseHostPort(target, defaultPort)
  {
    hide ParseHostPort;
    StartsWithIff(target, "http://");
    StartsWithIff(target, "https://");
  }

  lemma SchemeStep(scheme: string, rest: string)
    ensures StripPrefix(scheme + rest, scheme) == Some(rest)
  {
  }

  // ---- Exactly what is accepted ----

  /** What a port text stands for; no text stands for the default. */
  predicate PortIs(text: string, port: U16, defaultPort: U16) {
    if text == "" then port == defaultPort else ParseUnsigned(text, 0x1_0000) == Some(port)
  }

  /** A bare host, or a host, a colon and a port text without colons. */
  ghost predicate PlainForm(s: string, host: string, port: U16, defaultPort: U16) {
    && host != "" && ']' !in s
    && ((':' !in s && s == host && port == defaultPort)
        || exists text :: ':' !in text && s == host + [':'] + text && PortIs(text, port, defaultPort))
  }

  /** A bracketed host and what follows: a port after a colon, or anything else, which is ignored. */
  ghost predicate BracketForm(s: string, host: string, port: U16, defaultPort: U16) {
    && ']' !in host
    && exists rest :: s == "[" + host + [']'] + rest
         && (if StartsWith(rest, ":") then PortIs(rest[1..], port, defaultPort) else port == defaultPort)
  }

  /** The parser accepts exactly these two forms; every other text is an error. */
  lemma AcceptedIff(s: string, host: string, port: U16, defaultPort: U16)
    ensures ParseHostPort(s, defaultPort) == Ok((host, port)) <==>
              PlainForm(s, host, port, defaultPort) || BracketForm(s, host, port, defaultPort)
  {
    hide ParseHostPort, PlainForm, BracketForm;
    if ParseHostPort(s, defaultPort) == Ok((host, port)) {
      AcceptedHasForm(s, host, port, defaultPort);
    }
    if PlainForm(s, host, port, defaultPort) {
      PlainIsAccepted(s, host, port, defaultPort);
    }
    if BracketForm(s, host, port, defaultPort) {
      BracketIsAccepted(s, host, port, defaultPort);
    }
  }

  /** Which error a refused text gets; a text that is refused for neither reason has a bad port. */
  lemma RefusedIff(s: string, defaultPort: U16)
    ensures ParseHostPort(s, defaultPort) == Err(EmptyHost) <==>
              s == "" || (']' !in s && s[0] == ':' && ':' !in s[1..])
    ensures ParseHostPort(s, defaultPort) == Err(MalformedIpv6) <==> ']' in s && s[0] != '['
  {
    hide Find, FindLast, ParseUnsigned;
    assert s != "" ==> (StartsWith(s, "[") <==> s[0] == '[');
    if s != "" && ']' !in s && s[0] == ':' && ':' !in s[1..] {
      assert s == "" + [':'] + s[1..];
      FindLastAt("", ':', s[1..]);
    }
  }

  lemma AcceptedHasForm(s: string, host: string, port: U16, defaultPort: U16)
    requires ParseHostPort(s, defaultPort) == Ok((host, port))
    ensures PlainForm(s, host, port, defaultPort) || BracketForm(s, host, port, defaultPort)
  {
    hide Find, FindLast, ParseUnsigned;
    var end := Find(s, ']');
    if end.Some? {
      var rest := s[end.value + 1..];
      assert s == "[" + host + [']'] + rest by {
        assert s == s[..1] + s[1..end.value] + [s[end.value]] + rest;
      }
      assert ']' !in host by {
        assert forall i :: 1 <= i < end.value ==> s[i] in s[..end.value];
      }
    } else if FindLast(s, ':').Some? {
      var colon := FindLast(s, ':').value;
      assert s == s[..colon] + [':'] + s[colon + 1..];
    }
  }

  lemma PlainIsAccepted(s: string, host: string, port: U16, defaultPort: U16)
    requires PlainForm(s, host, port, defaultPort)
    ensures ParseHostPort(s, defaultPort) == Ok((host, port))
  {
    hide Find, FindLast, ParseUnsigned;
    if !(':' !in s && s == host && port == defaultPort) {
      var text :| ':' !in text && s == host + [':'] + text && PortIs(text, port, defaultPort);
      FindLastAt(host, ':', text);
      assert s[..|host|] == host && s[|host| + 1..] == text;
    }
  }

  lemma BracketIsAccepted(s: string, host: string, port: U16, defaultPort: U16)
    requires BracketForm(s, host, port, defaultPort)
    ensures ParseHostPort(s, defaultPort) == Ok((host, port))
  {
    hide Find, FindLast, ParseUnsigned;
    var rest :| s == "[" + host + [']'] + rest
                && if StartsWith(rest, ":") then PortIs(rest[1..], port, defaultPort) else port == defaultPort;
    BracketStep(host, rest);
    assert s == "[" + host + "]" + rest;
  }
}
