/** Rule routing of redog-tunnel/src/tunnel.rs: the first matching rule whose adapter exists. */
module Tunnel {
  import opened Metadata
  import opened Rules

  datatype Adapter = Adapter(name: string)

  datatype MatchResult = MatchResult(ruleName: string, rulePayload: string, adapter: Adapter)

  type Proxies = map<string, Adapter>

  /** The built-in direct adapter, unless a proxy of that name is configured. */
  function DirectAdapter(proxies: Proxies): Adapter {
    if "DIRECT" in proxies then proxies["DIRECT"] else Adapter("DIRECT")
  }

  predicate Usable(r: Rule, c: Connection, regexMatch: (string, string) -> bool, proxies: Proxies) {
    Matches(r, c, regexMatch) && r.target in proxies
  }

  /** Rule i decides: it is usable and no earlier rule is. */
  ghost predicate Decides(rules: seq<Rule>, i: nat, c: Connection,
                          regexMatch: (string, string) -> bool, proxies: Proxies) {
    && i < |rules|
    && Usable(rules[i], c, regexMatch, proxies)
    && forall j :: 0 <= j < i ==> !Usable(rules[j], c, regexMatch, proxies)
  }

  /** The result of routing: the deciding rule's, or the DIRECT fallback when no rule is usable. */
  ghost predicate IsRoute(m: MatchResult, rules: seq<Rule>, c: Connection,
                          regexMatch: (string, string) -> bool, proxies: Proxies) {
    || (exists i: nat :: Decides(rules, i, c, regexMatch, proxies)
          && m == MatchResult(RuleType(rules[i]), Payload(rules[i]), proxies[rules[i].target]))
    || ((forall r :: r in rules ==> !Usable(r, c, regexMatch, proxies))
          && m == MatchResult("MATCH", "", DirectAdapter(proxies)))
  }

  class RoutingTunnel {
    var proxies: Proxies
    var rules: seq<Rule>
    const regexMatch: (string, string) -> bool

    constructor (proxies: Proxies, rules: seq<Rule>, regexMatch: (string, string) -> bool)
      ensures this.proxies == proxies && this.rules == rules && this.regexMatch == regexMatch
    {
      this.proxies, this.rules, this.regexMatch := proxies, rules, regexMatch;
    }

    method UpdateProxies(proxies: Proxies)
      modifies this
      ensures this.proxies == proxies && rules == old(rules)
    {
      this.proxies := proxies;
    }

    method UpdateRules(rules: seq<Rule>)
      modifies this
      ensures this.rules == rules && proxies == old(proxies)
    {
      this.rules := rules;
    }

    method RuleMatch(c: Connection) returns (m: MatchResult)
      ensures IsRoute(m, rules, c, regexMatch, proxies)
    {
      var i := 0;
      while i < |rules|
        invariant 0 <= i <= |rules|
        invariant forall j :: 0 <= j < i ==> !Usable(rules[j], c, regexMatch, proxies)
      {
        var rule := rules[i];
        if Matches(rule, c, regexMatch) {
          if rule.target in proxies {
            assert Decides(rules, i, c, regexMatch, proxies);
            return MatchResult(RuleType(rule), Payload(rule), proxies[rule.target]);
          }
        }
        i := i + 1;
      }
      m := MatchResult("MATCH", "", DirectAdapter(proxies));
    }
  }
}
