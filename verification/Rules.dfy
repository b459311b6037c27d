/** The routing rules of redog-rules: what each kind matches and how it describes itself. */
module Rules {
  import opened Bits
  import opened Text
  import opened DomainLabels
  import opened Metadata

  /** A parsed CIDR block; addresses in it agree with it on the first `len` bits. */
  datatype IpNet = V4Net(addr: U32, len: nat) | V6Net(bits: nat, len: nat)

  predicate SameTop(a: nat, b: nat, dropped: nat) {
    a / Pow2(dropped) == b / Pow2(dropped)
  }

  predicate NetContains(net: IpNet, ip: Ip) {
    match net
    case V4Net(addr, len) => ip.V4? && len <= 32 && SameTop(addr, ip.addr, 32 - len)
    case V6Net(bits, len) => ip.V6? && len <= 128 && SameTop(bits, ip.bits, 128 - len)
  }

  datatype Rule =
    | DomainRule(domain: string, target: string)
    | DomainSuffixRule(suffix: string, target: string)
    | DomainKeywordRule(keyword: string, target: string)
    | DomainRegexRule(pattern: string, target: string)
    | IpCidrRule(net: IpNet, cidr: string, target: string, isSrc: bool)
    | SrcPortRule(port: U16, target: string)
    | DstPortRule(port: U16, target: string)
    | MatchRule(target: string)

  function RuleType(r: Rule): string {
    match r
    case DomainRule(_, _) => "DOMAIN"
    case DomainSuffixRule(_, _) => "DOMAIN-SUFFIX"
    case DomainKeywordRule(_, _) => "DOMAIN-KEYWORD"
    case DomainRegexRule(_, _) => "DOMAIN-REGEX"
    case IpCidrRule(net, _, _, isSrc) =>
      if isSrc then "SRC-IP-CIDR" else if net.V4Net? then "IP-CIDR" else "IP-CIDR6"
    case SrcPortRule(_, _) => "SRC-PORT"
    case DstPortRule(_, _) => "DST-PORT"
    case MatchRule(_) => "MATCH"
  }

  function Payload(r: Rule): string {
    match r
    case DomainRule(domain, _) => domain
    case DomainSuffixRule(suffix, _) => suffix
    case DomainKeywordRule(keyword, _) => keyword
    case DomainRegexRule(pattern, _) => pattern
    case IpCidrRule(_, cidr, _, _) => cidr
    case SrcPortRule(port, _) => Print(port)
    case DstPortRule(port, _) => Print(port)
    case MatchRule(_) => ""
  }

  predicate Occurs(part: string, s: string) {
    StartsWith(s, part) || (s != "" && Occurs(part, s[1..]))
  }

  /** Whether a rule matches; `regexMatch(pattern, text)` is the regex engine. */
  predicate Matches(r: Rule, c: Connection, regexMatch: (string, string) -> bool) {
    match r
    case DomainRule(domain, _) => c.host.Some? && Lower(c.host.value) == Lower(domain)
    case DomainSuffixRule(suffix, _) => c.host.Some? && IsSuffixOf(suffix, c.host.value)
    case DomainKeywordRule(keyword, _) => c.host.Some? && Occurs(Lower(keyword), Lower(c.host.value))
    case DomainRegexRule(pattern, _) => c.host.Some? && regexMatch(pattern, c.host.value)
    case IpCidrRule(net, _, _, isSrc) =>
      if isSrc then NetContains(net, c.srcIp) else c.dstIp.Some? && NetContains(net, c.dstIp.value)
    case SrcPortRule(port, _) => c.srcPort == port
    case DstPortRule(port, _) => c.dstPort == port
    case MatchRule(_) => true
  }
}
