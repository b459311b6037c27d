/**
  What routing means, rule kind by rule kind, in terms of texts, intervals and
  ports alone; and that the engine's route is the one this meaning gives.
 */
module Routing {
  import opened Bits
  import opened Options
  import opened Text
  import opened DomainLabels
  import opened Metadata
  import opened Rules
  import opened Tunnel

  /** `x` lies in the block of `size` addresses from `first` on, a multiple of the size. */
  ghost predicate Lies(x: nat, first: nat, size: nat)
    requires 0 < size
  {
    first % size == 0 && first <= x < first + size
  }

  ghost predicate ShareBlock(x: nat, y: nat, size: nat)
    requires 0 < size
  {
    exists first: nat :: Lies(x, first, size) && Lies(y, first, size)
  }

  /** `x` lies in the block of 2^(width - len) addresses around `addr`. */
  ghost predicate InBlock(addr: nat, width: nat, len: nat, x: nat) {
    len <= width && ShareBlock(addr, x, Pow2(width - len))
  }

  ghost predicate NetCovers(net: IpNet, ip: Ip) {
    match net
    case V4Net(addr, len) => ip.V4? && InBlock(addr, 32, len, ip.addr)
    case V6Net(bits, len) => ip.V6? && InBlock(bits, 128, len, ip.bits)
  }

  /** The connections a rule is for. */
  ghost predicate Covers(r: Rule, c: Connection, regexMatch: (string, string) -> bool) {
    match r
    case DomainRule(domain, _) => c.host.Some? && EqualIgnoringCase(c.host.value, domain)
    case DomainSuffixRule(suffix, _) =>
      && c.host.Some?
      && var k := |c.host.value| - |suffix|;
         k >= 0 && EqualIgnoringCase(c.host.value[k..], suffix) && (k == 0 || c.host.value[k - 1] == '.')
    case DomainKeywordRule(keyword, _) =>
      c.host.Some? && exists a, word, b :: c.host.value == a + word + b && EqualIgnoringCase(word, keyword)
    case DomainRegexRule(pattern, _) => c.host.Some? && regexMatch(pattern, c.host.value)
    case IpCidrRule(net, _, _, isSrc) =>
      var ip := if isSrc then Some(c.srcIp) else c.dstIp;
      ip.Some? && NetCovers(net, ip.value)
    case SrcPortRule(port, _) => c.srcPort == port
    case DstPortRule(port, _) => c.dstPort == port
    case MatchRule(_) => true
  }

  // ---- Address blocks ----

  lemma SameTopIsInterval(a: nat, b: nat, d: nat, first: nat)
    requires 0 < d && first % d == 0 && first <= a < first + d
    ensures a / d == b / d <==> first <= b < first + d
  {
    RoundsTo(a, first, d);
    RoundsTo(b, first, d);
    RoundedDown(a, d);
    RoundedDown(b, d);
    MultiplesDiffer(a / d, b / d, d);
  }

  lemma MultiplesDiffer(p: int, q: int, d: int)
    requires 0 < d
    ensures p * d == q * d <==> p == q
  {
    assert p < q ==> p * d < q * d;
    assert q < p ==> q * d < p * d;
  }

  lemma BlockIff(addr: nat, width: nat, len: nat, x: nat)
    requires len <= width
    ensures SameTop(addr, x, width - len) <==> InBlock(addr, width, len, x)
  {
    hide Pow2;
    var d := Pow2(width - len);
    RoundedDown(addr, d);
    var first := addr - addr % d;
    SameTopIsInterval(addr, x, d, first);
    assert Lies(addr, first, d);
    if InBlock(addr, width, len, x) {
      var other: nat :| Lies(addr, other, d) && Lies(x, other, d);
      SameTopIsInterval(addr, x, d, other);
    }
  }

  lemma NetContainsIff(net: IpNet, ip: Ip)
    ensures NetContains(net, ip) <==> NetCovers(net, ip)
  {
    hide InBlock, SameTop;
    match net
    case V4Net(addr, len) =>
      if ip.V4? && len <= 32 { BlockIff(addr, 32, len, ip.addr); } else { TooLong(addr, 32, len); }
    case V6Net(bits, len) =>
      if ip.V6? && len <= 128 { BlockIff(bits, 128, len, ip.bits); } else { TooLong(bits, 128, len); }
  }

  lemma TooLong(addr: nat, width: nat, len: nat)
    ensures width < len ==> forall x :: !InBlock(addr, width, len, x)
  {
  }

  // ---- Domains ----

  lemma {:induction false} OccursAfter(a: string, part: string, b: string)
    ensures Occurs(part, a + part + b)
  {
    var s := a + part + b;
    if a == "" {
      assert s[..|part|] == part;
    } else {
      assert s[1..] == a[1..] + part + b;
      OccursAfter(a[1..], part, b);
    }
  }

  lemma {:induction false} OccursSplits(part: string, s: string) returns (a: string, b: string)
    requires Occurs(part, s)
    ensures s == a + part + b
  {
    if StartsWith(s, part) {
      a, b := "", s[|part|..];
    } else {
      a, b := OccursSplits(part, s[1..]);
      a := [s[0]] + a;
    }
  }

  lemma KeywordIff(keyword: string, host: string)
    ensures Occurs(Lower(keyword), Lower(host)) <==>
              exists a, word, b :: host == a + word + b && EqualIgnoringCase(word, keyword)
  {
    hide Occurs, Lower, EqualIgnoringCase;
    if Occurs(Lower(keyword), Lower(host)) {
      var a, word, b := WordOf(keyword, host);
    }
    forall a, word, b | host == a + word + b && EqualIgnoringCase(word, keyword)
      ensures Occurs(Lower(keyword), Lower(host))
    {
      LowerConcat(a + word, b);
      LowerConcat(a, word);
      LowerEqualsIff(word, keyword);
      OccursAfter(Lower(a), Lower(keyword), Lower(b));
    }
  }

  lemma WordOf(keyword: string, host: string) returns (a: string, word: string, b: string)
    requires Occurs(Lower(keyword), Lower(host))
    ensures host == a + word + b && EqualIgnoringCase(word, keyword)
  {
    hide Occurs, Lower, EqualIgnoringCase;
    var x, y := OccursSplits(Lower(keyword), Lower(host));
    LowerAt(keyword);
    LowerAt(host);
    var i, j := |x|, |x| + |keyword|;
    a, word, b := host[..i], host[i..j], host[j..];
    LowerSlice(host, i, j);
    assert Lower(host)[i..j] == Lower(keyword);
    LowerEqualsIff(word, keyword);
  }

  /** A rule matches exactly the connections it is for. */
  lemma MatchesIff(r: Rule, c: Connection, regexMatch: (string, string) -> bool)
    ensures Matches(r, c, regexMatch) <==> Covers(r, c, regexMatch)
  {
    hide NetContains, NetCovers, Occurs, Lower, IsSuffixOf, EqualIgnoringCase;
    match r
    case DomainRule(domain, _) =>
      if c.host.Some? { LowerEqualsIff(c.host.value, domain); }
    case DomainSuffixRule(suffix, _) =>
      if c.host.Some? { SuffixIff(suffix, c.host.value); }
    case DomainKeywordRule(keyword, _) =>
      if c.host.Some? { KeywordIff(keyword, c.host.value); }
    case IpCidrRule(net, _, _, isSrc) =>
      NetContainsIff(net, c.srcIp);
      if c.dstIp.Some? { NetContainsIff(net, c.dstIp.value); }
    case _ =>
  }

  // ---- The route ----

  /** Rule i covers the connection with a configured adapter, and no earlier rule does. */
  ghost predicate FirstCovering(rules: seq<Rule>, i: nat, c: Connection,
                                regexMatch: (string, string) -> bool, proxies: Proxies) {
    && i < |rules|
    && Covers(rules[i], c, regexMatch) && rules[i].target in proxies
    && forall j :: 0 <= j < i ==> !(Covers(rules[j], c, regexMatch) && rules[j].target in proxies)
  }

  /**
    The route of a connection: the adapter of the first rule that is for it and
    configured; without one, the proxy named DIRECT, or the built-in one.
   */
  lemma RouteIff(m: MatchResult, rules: seq<Rule>, c: Connection,
                 regexMatch: (string, string) -> bool, proxies: Proxies)
    ensures IsRoute(m, rules, c, regexMatch, proxies) <==>
              || (exists i: nat :: FirstCovering(rules, i, c, regexMatch, proxies)
                    && m == MatchResult(RuleType(rules[i]), Payload(rules[i]), proxies[rules[i].target]))
              || ((forall i: nat :: !FirstCovering(rules, i, c, regexMatch, proxies))
                    && m == MatchResult("MATCH", "",
                                        if "DIRECT" in proxies then proxies["DIRECT"] else Adapter("DIRECT")))
  {
    hide Matches, Covers, RuleType, Payload;
    forall i | 0 <= i < |rules|
      ensures Tunnel.Usable(rules[i], c, regexMatch, proxies) <==>
                Covers(rules[i], c, regexMatch) && rules[i].target in proxies
    {
      MatchesIff(rules[i], c, regexMatch);
    }
    forall i: nat
      ensures FirstCovering(rules, i, c, regexMatch, proxies) <==> Decides(rules, i, c, regexMatch, proxies)
    {
    }
    if r :| r in rules && Tunnel.Usable(r, c, regexMatch, proxies) {
      var i := FirstUsable(rules, c, regexMatch, proxies);
    }
  }

  lemma {:induction false} FirstUsable(rules: seq<Rule>, c: Connection,
                                       regexMatch: (string, string) -> bool, proxies: Proxies) returns (i: nat)
    requires exists r :: r in rules && Tunnel.Usable(r, c, regexMatch, proxies)
    ensures Decides(rules, i, c, regexMatch, proxies)
  {
    hide Tunnel.Usable;
    i := 0;
    if !Tunnel.Usable(rules[0], c, regexMatch, proxies) {
      i := FirstUsable(rules[1..], c, regexMatch, proxies);
      i := i + 1;
    }
  }

  /**
    A MATCH rule with a configured adapter decides whatever no earlier rule
    decided, and the fallback is then impossible.
   */
  lemma CatchAllDecides(m: MatchResult, rules: seq<Rule>, i: nat, c: Connection,
                        regexMatch: (string, string) -> bool, proxies: Proxies)
    requires IsRoute(m, rules, c, regexMatch, proxies)
    requires i < |rules| && rules[i].MatchRule? && rules[i].target in proxies
    requires forall j :: 0 <= j < i ==> !(Covers(rules[j], c, regexMatch) && rules[j].target in proxies)
    ensures m == MatchResult("MATCH", "", proxies[rules[i].target])
  {
    RouteIff(m, rules, c, regexMatch, proxies);
    assert FirstCovering(rules, i, c, regexMatch, proxies);
    hide Covers;
  }

  /** A route is unique. */
  lemma RouteIsUnique(m: MatchResult, m': MatchResult, rules: seq<Rule>, c: Connection,
                      regexMatch: (string, string) -> bool, proxies: Proxies)
    requires IsRoute(m, rules, c, regexMatch, proxies) && IsRoute(m', rules, c, regexMatch, proxies)
    ensures m == m'
  {
    hide Matches, RuleType, Payload;
  }
}
