/** The textual rule format of redog-rules/src/parser.rs, and its inverse printer. */
module RuleParser {
  import opened Options
  import opened Text
  import opened Rules

  datatype ParseError = InvalidFormat | InvalidRegex | InvalidCidr | InvalidPort | UnknownType

  /** The regex and CIDR libraries: which patterns compile, and what a CIDR text denotes. */
  datatype Libraries = Libraries(validRegex: string -> bool, parseCidr: string -> Option<IpNet>)

  function ParseRule(text: string, libs: Libraries): Result<Rule, ParseError> {
    var line := Trim(text);
    if StartsWith(line, "MATCH,") || line == "MATCH" then
      var rest := StripPrefix(line, "MATCH,");
      Ok(MatchRule(Trim(if rest.Some? then rest.value else "DIRECT")))
    else
      var parts := SplitN(line, ',', 3);
      if |parts| < 3 then Err(InvalidFormat)
      else ParseFields(Trim(parts[0]), Trim(parts[1]), Trim(parts[2]), libs)
  }

  function ParseFields(ruleType: string, payload: string, target: string, libs: Libraries): Result<Rule, ParseError> {
    if ruleType == "DOMAIN" then Ok(DomainRule(payload, target))
    else if ruleType == "DOMAIN-SUFFIX" then Ok(DomainSuffixRule(payload, target))
    else if ruleType == "DOMAIN-KEYWORD" then Ok(DomainKeywordRule(payload, target))
    else if ruleType == "DOMAIN-REGEX" then
      if libs.validRegex(payload) then Ok(DomainRegexRule(payload, target)) else Err(InvalidRegex)
    else if ruleType == "IP-CIDR" || ruleType == "IP-CIDR6" then ParseCidrRule(payload, target, false, libs)
    else if ruleType == "SRC-IP-CIDR" then ParseCidrRule(payload, target, true, libs)
    else if ruleType == "SRC-PORT" then
      var port := ParseUnsigned(payload, 0x1_0000);
      if port.Some? then Ok(SrcPortRule(port.value, target)) else Err(InvalidPort)
    else if ruleType == "DST-PORT" then
      var port := ParseUnsigned(payload, 0x1_0000);
      if port.Some? then Ok(DstPortRule(port.value, target)) else Err(InvalidPort)
    else Err(UnknownType)
  }

  function ParseCidrRule(payload: string, target: string, isSrc: bool, libs: Libraries): Result<Rule, ParseError> {
    var net := libs.parseCidr(payload);
    if net.Some? then Ok(IpCidrRule(net.value, payload, target, isSrc)) else Err(InvalidCidr)
  }

  /** A rule as the API lists it, back on one line. */
  function PrintRule(r: Rule): string {
    if r.MatchRule? then "MATCH," + r.target
    else RuleType(r) + "," + Payload(r) + "," + r.target
  }

  /** The rules the parser can produce. */
  ghost predicate Canonical(r: Rule, libs: Libraries) {
    && IsTrimmed(r.target)
    && IsTrimmed(Payload(r)) && ',' !in Payload(r)
    && (r.DomainRegexRule? ==> libs.validRegex(r.pattern))
    && (r.IpCidrRule? ==> libs.parseCidr(r.cidr) == Some(r.net))
  }

  lemma PrintedIsTrimmed(n: nat)
    ensures IsTrimmed(Print(n)) && ',' !in Print(n)
  {
    var s := Print(n);
    assert s[0] in s && s[|s| - 1] in s;
  }

  lemma SplitNStep(a: string, c: char, rest: string, n: nat)
    requires c !in a && 1 < n
    ensures SplitN(a + [c] + rest, c, n) == [a] + SplitN(rest, c, n - 1)
  {
    hide Find;
    FindAt(a, c, rest);
    assert (a + [c] + rest)[..|a|] == a && (a + [c] + rest)[|a| + 1..] == rest;
  }

  lemma SplitThree(a: string, b: string, c: string)
    requires ',' !in a && ',' !in b
    ensures SplitN(a + "," + b + "," + c, ',', 3) == [a, b, c]
  {
    assert a + "," + b + "," + c == a + [','] + (b + [','] + c);
    SplitNStep(a, ',', b + [','] + c, 3);
    SplitNStep(b, ',', c, 2);
    assert SplitN(c, ',', 1) == [c];
    hide SplitN;
  }

  lemma ThreePartsHaveNoCommas(line: string)
    requires |SplitN(line, ',', 3)| == 3
    ensures ',' !in SplitN(line, ',', 3)[0] && ',' !in SplitN(line, ',', 3)[1]
  {
  }

  function Count(s: string, c: char): nat {
    if s == "" then 0 else (if s[0] == c then 1 else 0) + Count(s[1..], c)
  }

  lemma {:induction false} CountConcat(a: string, b: string, c: char)
    ensures Count(a + b, c) == Count(a, c) + Count(b, c)
  {
    if a == "" {
      assert a + b == b;
    } else {
      assert (a + b)[1..] == a[1..] + b;
      CountConcat(a[1..], b, c);
    }
  }

  lemma {:induction false} CountNone(s: string, c: char)
    ensures c !in s <==> Count(s, c) == 0
  {
    if s != "" {
      CountNone(s[1..], c);
      assert s == [s[0]] + s[1..];
    }
  }

  lemma CountOne(c: char)
    ensures Count([c], c) == 1
  {
    assert [c][1..] == "";
  }

  lemma CountAround(a: string, c: char, rest: string)
    requires c !in a
    ensures Count(a + [c] + rest, c) == 1 + Count(rest, c)
  {
    hide Count;
    CountConcat(a + [c], rest, c);
    CountConcat(a, [c], c);
    CountNone(a, c);
    CountOne(c);
  }

  lemma SplitNWhole(s: string, c: char, n: nat)
    requires 0 < n && (n == 1 || c !in s)
    ensures SplitN(s, c, n) == [s]
  {
  }

  lemma {:induction false} PartsCount(s: string, c: char, n: nat)
    requires 0 < n
    ensures |SplitN(s, c, n)| < n <==> Count(s, c) + 1 < n
    decreases n
  {
    hide Find, Count, SplitN;
    CountNone(s, c);
    var at := Find(s, c);
    if n > 1 && at.Some? {
      var a, rest := s[..at.value], s[at.value + 1..];
      assert s == a + [c] + rest;
      SplitNStep(a, c, rest, n);
      CountAround(a, c, rest);
      PartsCount(rest, c, n - 1);
    } else {
      SplitNWhole(s, c, n);
    }
  }

  /** A line is malformed exactly when it is no MATCH line and has fewer than two commas. */
  lemma MalformedIff(text: string, libs: Libraries)
    ensures ParseRule(text, libs) == Err(InvalidFormat) <==>
              !StartsWith(Trim(text), "MATCH,") && Trim(text) != "MATCH" && Count(Trim(text), ',') < 2
  {
    PartsCount(Trim(text), ',', 3);
    hide Trim, SplitN;
    FieldsAreWellFormed(libs);
  }

  lemma FieldsAreWellFormed(libs: Libraries)
    ensures forall a, b, c :: ParseFields(a, b, c, libs) != Err(InvalidFormat)
  {
  }

  /** A type name is trimmed, has no comma, and parses back to its own fields. */
  lemma TypeReads(r: Rule, libs: Libraries)
    requires !r.MatchRule? && Canonical(r, libs)
    ensures IsTrimmed(RuleType(r)) && RuleType(r) != "" && ',' !in RuleType(r)
    ensures RuleType(r) != "MATCH"
    ensures ParseFields(RuleType(r), Payload(r), r.target, libs) == Ok(r)
  {
    hide Print, ParseUnsigned, IsTrimmed, IsWhitespace;
    if r.SrcPortRule? || r.DstPortRule? {
      ParsePrint(r.port, 0x1_0000);
    }
    TypeIsPlain(r);
  }

  lemma TypeIsPlain(r: Rule)
    ensures IsTrimmed(RuleType(r)) && RuleType(r) != "" && ',' !in RuleType(r)
  {
  }

  lemma CanonicalRoundTrips(r: Rule, libs: Libraries)
    requires Canonical(r, libs)
    ensures ParseRule(PrintRule(r), libs) == Ok(r)
  {
    hide ParseFields, RuleType, Payload, IsWhitespace;
    var line := PrintRule(r);
    if r.MatchRule? {
      assert line[0] == 'M';
      MatchLine(r.target);
      assert line[6..] == r.target;
    } else {
      TypeReads(r, libs);
      SplitThree(RuleType(r), Payload(r), r.target);
      FieldLine(RuleType(r), Payload(r), r.target);
    }
  }

  lemma MatchLine(target: string)
    requires IsTrimmed(target)
    ensures IsTrimmed("MATCH," + target) && StartsWith("MATCH," + target, "MATCH,")
  {
    var line := "MATCH," + target;
    assert line[|line| - 1] == if target == "" then ',' else target[|target| - 1];
  }

  lemma OnlyMatchStartsSo(a: string, rest: string)
    requires ',' !in a && StartsWith(a + "," + rest, "MATCH,")
    ensures a == "MATCH"
  {
    var line, m := a + "," + rest, "MATCH,";
    assert line[|a|] == ',' && m[5] == ',';
    assert forall i :: 0 <= i < 6 ==> line[i] == m[i];
    assert |a| >= 5;
    assert forall i :: 0 <= i < |a| ==> line[i] in a;
    assert a == line[..5] == m[..5];
  }

  lemma FieldLine(ruleType: string, payload: string, target: string)
    requires IsTrimmed(ruleType) && ruleType != "" && ',' !in ruleType && ruleType != "MATCH" && IsTrimmed(target)
    ensures var line := ruleType + "," + payload + "," + target;
            IsTrimmed(line) && !StartsWith(line, "MATCH,") && line != "MATCH"
  {
    var line := ruleType + "," + payload + "," + target;
    assert line[0] == ruleType[0];
    assert line[|line| - 1] == if target == "" then ',' else target[|target| - 1];
    assert line[|ruleType|] == ',';
    assert line == ruleType + "," + (payload + "," + target);
    if StartsWith(line, "MATCH,") {
      OnlyMatchStartsSo(ruleType, payload + "," + target);
    }
    assert line != "MATCH" by {
      assert ',' in line;
    }
  }

  lemma FieldsAreCanonical(ruleType: string, payload: string, target: string, r: Rule, libs: Libraries)
    requires ParseFields(ruleType, payload, target, libs) == Ok(r)
    requires IsTrimmed(payload) && IsTrimmed(target) && ',' !in payload
    ensures Canonical(r, libs)
  {
    hide ParseUnsigned, IsTrimmed, IsWhitespace, Print;
    if r.SrcPortRule? || r.DstPortRule? {
      PrintedIsTrimmed(r.port);
    }
    EmptyIsTrimmed();
  }

  lemma EmptyIsTrimmed()
    ensures IsTrimmed("")
  {
  }

  lemma ParsedIsCanonical(text: string, r: Rule, libs: Libraries)
    requires ParseRule(text, libs) == Ok(r)
    ensures Canonical(r, libs)
  {
    hide ParseFields, IsTrimmed, IsWhitespace;
    var line := Trim(text);
    if StartsWith(line, "MATCH,") || line == "MATCH" {
      EmptyIsTrimmed();
    } else {
      var parts := SplitN(line, ',', 3);
      ThreePartsHaveNoCommas(line);
      FieldsAreCanonical(Trim(parts[0]), Trim(parts[1]), Trim(parts[2]), r, libs);
    }
  }

  /** Every line the parser accepts prints as a line it parses to the same rule. */
  lemma AcceptedLinesRoundTrip(text: string, r: Rule, libs: Libraries)
    requires ParseRule(text, libs) == Ok(r)
    ensures ParseRule(PrintRule(r), libs) == Ok(r)
  {
    ParsedIsCanonical(text, r, libs);
    CanonicalRoundTrips(r, libs);
  }

  lemma FamilyIsNamed(r: Rule)
    ensures r.IpCidrRule? && !r.isSrc ==> RuleType(r) == if r.net.V6Net? then "IP-CIDR6" else "IP-CIDR"
  {
  }

  /**
    The rules that survive printing and parsing are exactly the canonical ones. A
    destination block prints the name of its address family, though both names
    parse to it.
   */
  lemma RoundTripIff(r: Rule, libs: Libraries)
    ensures r.IpCidrRule? && !r.isSrc ==> RuleType(r) == if r.net.V6Net? then "IP-CIDR6" else "IP-CIDR"
    ensures ParseRule(PrintRule(r), libs) == Ok(r) <==> Canonical(r, libs)
  {
    FamilyIsNamed(r);
    hide Canonical, ParseRule, PrintRule, RuleType;
    if Canonical(r, libs) {
      CanonicalRoundTrips(r, libs);
    }
    if ParseRule(PrintRule(r), libs) == Ok(r) {
      ParsedIsCanonical(PrintRule(r), r, libs);
    }
  }

  // ---- The format ----

  /** What the three fields of a line stand for. */
  ghost predicate Denotes(name: string, payload: string, target: string, r: Rule, libs: Libraries) {
    && r.target == target
    && match r
       case DomainRule(domain, _) => name == "DOMAIN" && domain == payload
       case DomainSuffixRule(suffix, _) => name == "DOMAIN-SUFFIX" && suffix == payload
       case DomainKeywordRule(keyword, _) => name == "DOMAIN-KEYWORD" && keyword == payload
       case DomainRegexRule(pattern, _) => name == "DOMAIN-REGEX" && pattern == payload && libs.validRegex(pattern)
       case IpCidrRule(net, cidr, _, isSrc) =>
         && (if isSrc then name == "SRC-IP-CIDR" else name == "IP-CIDR" || name == "IP-CIDR6")
         && cidr == payload && libs.parseCidr(cidr) == Some(net)
       case SrcPortRule(port, _) => name == "SRC-PORT" && ParseUnsigned(payload, 0x1_0000) == Some(port)
       case DstPortRule(port, _) => name == "DST-PORT" && ParseUnsigned(payload, 0x1_0000) == Some(port)
       case MatchRule(_) => false
  }

  /** A line cut at its first two commas. */
  ghost predicate Fields(line: string, a: string, b: string, c: string) {
    line == a + "," + b + "," + c && ',' !in a && ',' !in b
  }

  ghost predicate MatchLineFor(line: string, r: Rule) {
    && r.MatchRule?
    && ((line == "MATCH" && r.target == "DIRECT") || exists rest :: line == "MATCH," + rest && r.target == Trim(rest))
  }

  lemma FieldsReadBack(ruleType: string, payload: string, target: string, r: Rule, libs: Libraries)
    ensures ParseFields(ruleType, payload, target, libs) == Ok(r) <==> Denotes(ruleType, payload, target, r, libs)
  {
    hide ParseUnsigned;
  }

  lemma FieldsAreParts(line: string)
    ensures forall a, b, c :: Fields(line, a, b, c) ==> SplitN(line, ',', 3) == [a, b, c]
    ensures |SplitN(line, ',', 3)| == 3 ==>
              var parts := SplitN(line, ',', 3);
              Fields(line, parts[0], parts[1], parts[2])
  {
    forall a, b, c | Fields(line, a, b, c)
      ensures SplitN(line, ',', 3) == [a, b, c]
    {
      SplitThree(a, b, c);
    }
    if |SplitN(line, ',', 3)| == 3 {
      PartsRejoin(line);
    }
  }

  /** One more part is cut at the next separator, if there is one. */
  lemma SplitNCut(s: string, c: char, n: nat)
    requires 1 < n && 1 < |SplitN(s, c, n)|
    ensures var parts := SplitN(s, c, n);
            && c !in parts[0]
            && s == parts[0] + [c] + s[|parts[0]| + 1..]
            && parts[1..] == SplitN(s[|parts[0]| + 1..], c, n - 1)
  {
    hide Find;
    var i := Find(s, c).value;
    assert s == s[..i] + [s[i]] + s[i + 1..];
  }

  lemma PartsRejoin(line: string)
    requires |SplitN(line, ',', 3)| == 3
    ensures var parts := SplitN(line, ',', 3); Fields(line, parts[0], parts[1], parts[2])
  {
    hide SplitN;
    var parts := SplitN(line, ',', 3);
    SplitNCut(line, ',', 3);
    var rest := line[|parts[0]| + 1..];
    SplitNCut(rest, ',', 2);
    var last := rest[|parts[1]| + 1..];
    SplitNWhole(last, ',', 1);
    assert parts[1..][0] == parts[1] && parts[1..][1..] == [parts[2]];
    assert line == parts[0] + "," + (parts[1] + "," + last);
  }

  lemma MatchLinesRead(text: string, r: Rule, libs: Libraries)
    requires StartsWith(Trim(text), "MATCH,") || Trim(text) == "MATCH"
    ensures ParseRule(text, libs) == Ok(r) <==> MatchLineFor(Trim(text), r)
  {
    hide Trim;
    var line := Trim(text);
    if StartsWith(line, "MATCH,") {
      assert line == "MATCH," + line[6..];
      assert forall rest :: line == "MATCH," + rest ==> rest == line[6..];
    } else {
      assert forall rest :: line != "MATCH," + rest;
    }
    EmptyIsTrimmed();
    assert IsTrimmed("DIRECT");
    DefaultIsTrimmed();
  }

  lemma DefaultIsTrimmed()
    ensures Trim("DIRECT") == "DIRECT" && Trim("MATCH") == "MATCH"
  {
    assert IsTrimmed("DIRECT") && IsTrimmed("MATCH");
  }

  /**
    The rule language: a line parses to a rule exactly when it is a MATCH line
    for its target, DIRECT if it has none, or three fields, any whitespace
    around them, that name the rule's kind, payload and target.
   */
  lemma ParsedIff(text: string, r: Rule, libs: Libraries)
    ensures ParseRule(text, libs) == Ok(r) <==>
              || MatchLineFor(Trim(text), r)
              || exists a, b, c :: Fields(Trim(text), a, b, c) && Denotes(Trim(a), Trim(b), Trim(c), r, libs)
  {
    hide Trim, ParseFields, SplitN, Denotes, Fields;
    var line := Trim(text);
    FieldsAreParts(line);
    if StartsWith(line, "MATCH,") || line == "MATCH" {
      MatchLinesRead(text, r, libs);
      forall a, b, c | Fields(line, a, b, c)
        ensures !Denotes(Trim(a), Trim(b), Trim(c), r, libs)
      {
        MatchIsNoField(line, a, b, c, r, libs);
      }
    } else {
      assert !MatchLineFor(line, r);
      var parts := SplitN(line, ',', 3);
      if |parts| == 3 {
        FieldsReadBack(Trim(parts[0]), Trim(parts[1]), Trim(parts[2]), r, libs);
      }
    }
  }

  lemma MatchIsNoField(line: string, a: string, b: string, c: string, r: Rule, libs: Libraries)
    requires StartsWith(line, "MATCH,") || line == "MATCH"
    requires Fields(line, a, b, c)
    ensures !Denotes(Trim(a), Trim(b), Trim(c), r, libs)
  {
    hide Trim, ParseUnsigned;
    DefaultIsTrimmed();
    assert line == a + "," + (b + "," + c);
    assert line[|a|] == ',';
    if StartsWith(line, "MATCH,") {
      OnlyMatchStartsSo(a, b + "," + c);
    }
  }

  /** Why three fields are refused. */
  lemma RefusedIff(text: string, a: string, b: string, c: string, libs: Libraries)
    requires Fields(Trim(text), a, b, c) && a != "MATCH"
    ensures var name, payload := Trim(a), Trim(b);
            && (ParseRule(text, libs) == Err(InvalidRegex) <==> name == "DOMAIN-REGEX" && !libs.validRegex(payload))
            && (ParseRule(text, libs) == Err(InvalidCidr) <==>
                  name in {"IP-CIDR", "IP-CIDR6", "SRC-IP-CIDR"} && libs.parseCidr(payload).None?)
            && (ParseRule(text, libs) == Err(InvalidPort) <==>
                  name in {"SRC-PORT", "DST-PORT"} && ParseUnsigned(payload, 0x1_0000).None?)
            && (ParseRule(text, libs) == Err(UnknownType) <==>
                  name !in {"DOMAIN", "DOMAIN-SUFFIX", "DOMAIN-KEYWORD", "DOMAIN-REGEX", "IP-CIDR", "IP-CIDR6",
                            "SRC-IP-CIDR", "SRC-PORT", "DST-PORT"})
  {
    hide Trim, SplitN, ParseUnsigned;
    var line := Trim(text);
    FieldsAreParts(line);
    assert line == a + "," + (b + "," + c);
    assert line != "MATCH" by {
      assert line[|a|] == ',';
    }
    if StartsWith(line, "MATCH,") {
      OnlyMatchStartsSo(a, b + "," + c);
    }
  }
}
