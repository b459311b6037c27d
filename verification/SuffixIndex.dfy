/**
  The trie as an index of DOMAIN-SUFFIX rules: inserting a rule list last to
  first, the trie's longest match stands for the engine's first match. The
  theorems say for exactly which rule lists it does.
 */
module SuffixIndex {
  import opened Options
  import opened DomainLabels
  import opened Trie
  import opened TrieLookups
  import opened Metadata
  import opened Rules
  import opened Tunnel

  type SuffixRules = rules: seq<Rule> | forall r :: r in rules ==> r.DomainSuffixRule? witness []

  /** The inserts of a rule list, last rule first. */
  function IndexInserts(rules: SuffixRules): (ops: seq<Insert>)
    ensures |ops| == |rules|
    ensures forall op :: op in ops ==> op.Suffix?
  {
    if rules == [] then []
    else
      assert rules[0] in rules;
      IndexInserts(rules[1..]) + [Suffix(rules[0].suffix, rules[0].target)]
  }

  function IndexLookup(rules: SuffixRules, host: string): Option<string> {
    LongestMatch(ViewAfter(IndexInserts(rules)), Labels(host))
  }

  /** The target of the first rule whose suffix matches. */
  function Scan(rules: SuffixRules, host: string): Option<string> {
    var n := FirstMatching(rules, host);
    if n.Some? then Some(rules[n.value].target) else None
  }

  function FirstMatching(rules: SuffixRules, host: string): (r: Option<nat>)
    ensures r.Some? ==> r.value < |rules| && IsSuffixOf(rules[r.value].suffix, host)
    ensures r.Some? ==> forall i :: 0 <= i < r.value ==> !IsSuffixOf(rules[i].suffix, host)
    ensures r.None? ==> forall i :: 0 <= i < |rules| ==> !IsSuffixOf(rules[i].suffix, host)
  {
    hide IsSuffixOf;
    if rules == [] then None
    else if IsSuffixOf(rules[0].suffix, host) then Some(0)
    else
      var r := FirstMatching(rules[1..], host);
      assert forall i :: 1 <= i < |rules| ==> rules[i] == rules[1..][i - 1];
      if r.Some? then Some(r.value + 1) else None
  }

  /** The first rule with the same label path as `suffix`. */
  function FirstSame(rules: SuffixRules, suffix: string): (r: Option<nat>)
    ensures r.Some? ==> r.value < |rules| && Labels(rules[r.value].suffix) == Labels(suffix)
    ensures r.Some? ==> forall i :: 0 <= i < r.value ==> Labels(rules[i].suffix) != Labels(suffix)
    ensures r.None? ==> forall i :: 0 <= i < |rules| ==> Labels(rules[i].suffix) != Labels(suffix)
  {
    hide Labels;
    if rules == [] then None
    else if Labels(rules[0].suffix) == Labels(suffix) then Some(0)
    else
      var r := FirstSame(rules[1..], suffix);
      assert forall i :: 1 <= i < |rules| ==> rules[i] == rules[1..][i - 1];
      if r.Some? then Some(r.value + 1) else None
  }

  lemma FirstSameIs(rules: SuffixRules, j: nat)
    requires j < |rules|
    requires forall i :: 0 <= i < j ==> Labels(rules[i].suffix) != Labels(rules[j].suffix)
    ensures FirstSame(rules, rules[j].suffix) == Some(j)
  {
    hide Labels;
  }

  /** The rule the index answers with: matching, of most labels, and the first of its path. */
  ghost predicate Longest(rules: SuffixRules, host: string, j: nat) {
    && j < |rules| && IsSuffixOf(rules[j].suffix, host)
    && (forall i :: 0 <= i < |rules| && IsSuffixOf(rules[i].suffix, host) ==>
          |Labels(rules[i].suffix)| <= |Labels(rules[j].suffix)|)
    && FirstSame(rules, rules[j].suffix) == Some(j)
  }

  lemma {:induction false} IndexInsertsAt(rules: SuffixRules, i: nat)
    requires i < |rules|
    ensures IndexInserts(rules)[|rules| - 1 - i] == Suffix(rules[i].suffix, rules[i].target)
  {
    if i > 0 {
      IndexInsertsAt(rules[1..], i - 1);
    }
  }

  /** The index answers with a longest matching rule, and with None exactly when no rule matches. */
  lemma IndexAnswersLongest(rules: SuffixRules, host: string)
    ensures match IndexLookup(rules, host)
            case Some(x) => exists j: nat :: Longest(rules, host, j) && rules[j].target == x
            case None => forall i :: 0 <= i < |rules| ==> !IsSuffixOf(rules[i].suffix, host)
  {
    hide Labels, IsSuffixOf, LongestMatch, ViewAfter;
    var ops := IndexInserts(rules);
    LookupFindsBest(ops, host);
    forall i | 0 <= i < |rules|
      ensures ops[|rules| - 1 - i] == Suffix(rules[i].suffix, rules[i].target)
    {
      IndexInsertsAt(rules, i);
    }
    match IndexLookup(rules, host)
    case None =>
      forall i | 0 <= i < |rules|
        ensures !IsSuffixOf(rules[i].suffix, host)
      {
        assert ops[|rules| - 1 - i] in ops;
      }
    case Some(x) =>
      var k: nat :| IsBest(ops, host, k) && ops[k].data == x;
      var j := |rules| - 1 - k;
      assert ops[|rules| - 1 - j] == ops[k];
      BestIsLongest(rules, ops, host, k, j);
  }

  lemma BestIsLongest(rules: SuffixRules, ops: seq<Insert>, host: string, k: nat, j: nat)
    requires |ops| == |rules| && k + j == |rules| - 1 && IsBest(ops, host, k)
    requires forall i :: 0 <= i < |rules| ==> ops[|rules| - 1 - i] == Suffix(rules[i].suffix, rules[i].target)
    ensures Longest(rules, host, j) && rules[j].target == ops[k].data
  {
    hide Labels, IsSuffixOf;
    assert ops[|rules| - 1 - j] == ops[k];
    forall i | 0 <= i < |rules| && IsSuffixOf(rules[i].suffix, host)
      ensures |Labels(rules[i].suffix)| < |Labels(rules[j].suffix)|
              || (|Labels(rules[i].suffix)| == |Labels(rules[j].suffix)| && j <= i)
    {
      assert TrieLookups.Matches(ops[|rules| - 1 - i], host);
    }
    forall i | 0 <= i < j
      ensures Labels(rules[i].suffix) != Labels(rules[j].suffix)
    {
      SuffixIsLabelPrefix(rules[i].suffix, host);
      SuffixIsLabelPrefix(rules[j].suffix, host);
    }
    FirstSameIs(rules, j);
  }

  /** What matches the host is what matches its longest matching suffix. */
  lemma MatchesThroughLongest(rules: SuffixRules, host: string, j: nat)
    requires Longest(rules, host, j)
    ensures FirstMatching(rules, host) == FirstMatching(rules, rules[j].suffix)
  {
    hide Labels, IsSuffixOf;
    var longest := rules[j].suffix;
    SuffixIsLabelPrefix(longest, host);
    forall i | 0 <= i < |rules|
      ensures IsSuffixOf(rules[i].suffix, host) <==> IsSuffixOf(rules[i].suffix, longest)
    {
      SuffixIsLabelPrefix(rules[i].suffix, host);
      SuffixIsLabelPrefix(rules[i].suffix, longest);
    }
  }

  lemma OwnSuffixIsLongest(rules: SuffixRules, j: nat)
    requires j < |rules|
    ensures FirstSame(rules, rules[j].suffix).Some?
    ensures Longest(rules, rules[j].suffix, FirstSame(rules, rules[j].suffix).value)
  {
    hide Labels, IsSuffixOf;
    var own := rules[j].suffix;
    var k := FirstSame(rules, own).value;
    forall i | 0 <= i < |rules|
      ensures IsSuffixOf(rules[i].suffix, own) ==> |Labels(rules[i].suffix)| <= |Labels(own)|
    {
      SuffixIsLabelPrefix(rules[i].suffix, own);
    }
    SuffixIsLabelPrefix(rules[k].suffix, own);
    FirstSameIs(rules, k);
  }

  lemma LongestIsUnique(rules: SuffixRules, host: string, i: nat, j: nat)
    requires Longest(rules, host, i) && Longest(rules, host, j)
    ensures i == j
  {
    hide Labels, IsSuffixOf;
    SuffixIsLabelPrefix(rules[i].suffix, host);
    SuffixIsLabelPrefix(rules[j].suffix, host);
    assert Labels(rules[i].suffix) == Labels(rules[j].suffix);
  }

  /** At every rule's own suffix, the first match and the first rule of that very path agree on the target. */
  predicate Unshadowed(rules: SuffixRules) {
    forall j :: 0 <= j < |rules| ==>
      Scan(rules, rules[j].suffix) ==
      (var n := FirstSame(rules, rules[j].suffix); if n.Some? then Some(rules[n.value].target) else None)
  }

  lemma AgreeAt(rules: SuffixRules, host: string)
    requires Unshadowed(rules)
    ensures Scan(rules, host) == IndexLookup(rules, host)
  {
    hide Labels, IsSuffixOf, LongestMatch, ViewAfter, IndexInserts;
    IndexAnswersLongest(rules, host);
    if IndexLookup(rules, host).Some? {
      var j: nat :| Longest(rules, host, j) && rules[j].target == IndexLookup(rules, host).value;
      MatchesThroughLongest(rules, host, j);
    }
  }

  lemma DisagreeAt(rules: SuffixRules, j: nat)
    requires j < |rules|
    ensures var n := FirstSame(rules, rules[j].suffix);
            n.Some? && IndexLookup(rules, rules[j].suffix) == Some(rules[n.value].target)
  {
    hide Labels, IsSuffixOf, LongestMatch, ViewAfter, IndexInserts;
    var own := rules[j].suffix;
    IndexAnswersLongest(rules, own);
    OwnSuffixIsLongest(rules, j);
    var k := FirstSame(rules, own).value;
    var i: nat :| Longest(rules, own, i) && rules[i].target == IndexLookup(rules, own).value;
    LongestIsUnique(rules, own, i, k);
  }

  /**
    The exact condition: the first-match scan and the trie agree on every host
    if and only if no rule's own suffix is decided differently by an earlier,
    shorter suffix.
   */
  lemma ScanAgreesWithIndex(rules: SuffixRules)
    ensures (forall host :: Scan(rules, host) == IndexLookup(rules, host)) <==> Unshadowed(rules)
  {
    hide IndexLookup, FirstMatching, FirstSame;
    if Unshadowed(rules) {
      forall host
        ensures Scan(rules, host) == IndexLookup(rules, host)
      {
        AgreeAt(rules, host);
      }
    }
    if forall host :: Scan(rules, host) == IndexLookup(rules, host) {
      forall j | 0 <= j < |rules|
        ensures Scan(rules, rules[j].suffix) ==
                (var n := FirstSame(rules, rules[j].suffix); if n.Some? then Some(rules[n.value].target) else None)
      {
        DisagreeAt(rules, j);
      }
    }
  }

  /** Lists ordered from more labels to fewer always qualify. */
  lemma OrderedListsAreUnshadowed(rules: SuffixRules)
    requires forall i, j :: 0 <= i < j < |rules| ==> |Labels(rules[j].suffix)| <= |Labels(rules[i].suffix)|
    ensures Unshadowed(rules)
  {
    hide Labels, FirstMatching, FirstSame;
    forall j | 0 <= j < |rules|
      ensures FirstMatching(rules, rules[j].suffix) == FirstSame(rules, rules[j].suffix)
    {
      OrderedMatchIsSame(rules, j);
    }
  }

  lemma OrderedMatchIsSame(rules: SuffixRules, j: nat)
    requires j < |rules|
    requires forall i, j :: 0 <= i < j < |rules| ==> |Labels(rules[j].suffix)| <= |Labels(rules[i].suffix)|
    ensures FirstMatching(rules, rules[j].suffix) == FirstSame(rules, rules[j].suffix)
  {
    hide Labels, IsSuffixOf;
    OwnSuffixIsLongest(rules, j);
    var k := FirstSame(rules, rules[j].suffix).value;
    var i := FirstMatching(rules, rules[j].suffix).value;
    SuffixIsLabelPrefix(rules[i].suffix, rules[j].suffix);
    assert i <= k;
    assert |Labels(rules[k].suffix)| <= |Labels(rules[i].suffix)|;
  }

  // ---- The engine's own scan ----

  /** The rules whose adapter is configured. */
  function Known(rules: SuffixRules, proxies: Proxies): (known: SuffixRules)
    ensures forall r :: r in known ==> r in rules
  {
    if rules == [] then []
    else
      var rest := Known(rules[1..], proxies);
      assert rules[0] in rules;
      if rules[0].target in proxies then [rules[0]] + rest else rest
  }

  /** The deciding rule of a connection is the first match among the known rules. */
  lemma {:induction false} DecidesIsKnownScan(rules: SuffixRules, i: nat, c: Connection,
                                              regexMatch: (string, string) -> bool, proxies: Proxies)
    requires c.host.Some? && Decides(rules, i, c, regexMatch, proxies)
    ensures Scan(Known(rules, proxies), c.host.value) == Some(rules[i].target)
  {
    hide IsSuffixOf;
    var rest := rules[1..];
    if i > 0 {
      assert !Tunnel.Usable(rules[0], c, regexMatch, proxies);
      forall j | 0 <= j < i - 1
        ensures !Tunnel.Usable(rest[j], c, regexMatch, proxies)
      {
        assert rest[j] == rules[j + 1];
      }
      DecidesIsKnownScan(rest, i - 1, c, regexMatch, proxies);
      if rules[0].target in proxies {
        SkipUnmatched(Known(rest, proxies), rules[0], c.host.value);
      }
    }
  }

  lemma SkipUnmatched(rules: SuffixRules, r: Rule, host: string)
    requires r.DomainSuffixRule? && !IsSuffixOf(r.suffix, host)
    ensures Scan([r] + rules, host) == Scan(rules, host)
  {
    hide IsSuffixOf;
    assert ([r] + rules)[1..] == rules;
  }

  lemma {:induction false} NoneUsableIsEmptyScan(rules: SuffixRules, c: Connection,
                                                 regexMatch: (string, string) -> bool, proxies: Proxies)
    requires c.host.Some? && forall r :: r in rules ==> !Tunnel.Usable(r, c, regexMatch, proxies)
    ensures Scan(Known(rules, proxies), c.host.value) == None
  {
    hide IsSuffixOf;
    if rules != [] {
      assert rules[0] in rules;
      NoneUsableIsEmptyScan(rules[1..], c, regexMatch, proxies);
      if rules[0].target in proxies {
        SkipUnmatched(Known(rules[1..], proxies), rules[0], c.host.value);
      }
    }
  }

  /** Routing a connection with a domain, with the trie of the known rules in place of the scan. */
  function IndexedRoute(rules: SuffixRules, host: string, proxies: Proxies): Adapter {
    match IndexLookup(Known(rules, proxies), host)
    case Some(target) => if target in proxies then proxies[target] else DirectAdapter(proxies)
    case None => DirectAdapter(proxies)
  }

  /**
    Whenever the known rules are unshadowed, every connection with a domain gets
    the adapter the trie picks, and falls back to DIRECT exactly when the trie
    finds nothing.
   */
  lemma RouteFollowsIndex(m: MatchResult, rules: SuffixRules, c: Connection,
                          regexMatch: (string, string) -> bool, proxies: Proxies)
    requires c.host.Some? && IsRoute(m, rules, c, regexMatch, proxies)
    requires Unshadowed(Known(rules, proxies))
    ensures m.adapter == IndexedRoute(rules, c.host.value, proxies)
    ensures m.ruleName == "MATCH" <==> IndexLookup(Known(rules, proxies), c.host.value) == None
  {
    hide Labels, IsSuffixOf, IndexLookup, FirstMatching;
    AgreeAt(Known(rules, proxies), c.host.value);
    if i: nat :| Decides(rules, i, c, regexMatch, proxies)
                 && m == MatchResult(RuleType(rules[i]), Payload(rules[i]), proxies[rules[i].target]) {
      DecidesIsKnownScan(rules, i, c, regexMatch, proxies);
      assert rules[i] in rules;
      assert RuleType(rules[i]) == "DOMAIN-SUFFIX";
    } else {
      NoneUsableIsEmptyScan(rules, c, regexMatch, proxies);
    }
  }
}
