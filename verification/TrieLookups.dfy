/** What trie lookups return after any sequence of inserts, in terms of the suffix test. */
module TrieLookups {
  import opened Options
  import opened Text
  import opened DomainLabels
  import opened Trie

  datatype Insert = Suffix(domain: string, data: string) | Exact(domain: string, data: string)

  /** Where an insert stores its data. */
  function KeyOf(op: Insert): Path {
    match op
    case Suffix(domain, _) => Labels(domain)
    case Exact(domain, _) => Labels(domain) + [EXACT]
  }

  /** The trie's view after inserting into an empty trie, in order. */
  function ViewAfter(ops: seq<Insert>): map<Path, string> {
    if ops == [] then map[]
    else
      var last := ops[|ops| - 1];
      ViewAfter(ops[..|ops| - 1])[KeyOf(last) := last.data]
  }

  lemma ViewAfterOneMore(ops: seq<Insert>, i: nat)
    requires i < |ops|
    ensures ViewAfter(ops[..i + 1]) == ViewAfter(ops[..i])[KeyOf(ops[i]) := ops[i].data]
  {
    assert ops[..i + 1][..i] == ops[..i];
  }

  method Perform(trie: DomainTrie, op: Insert)
    requires trie.Valid()
    modifies trie.Repr
    ensures trie.Valid() && fresh(trie.Repr - old(trie.Repr))
    ensures trie.view == old(trie.view)[KeyOf(op) := op.data]
  {
    hide Labels;
    match op
    case Suffix(domain, data) => trie.InsertSuffix(domain, data);
    case Exact(domain, data) => trie.InsertExact(domain, data);
  }

  /** A trie built by these inserts holds the view the lemmas below speak of. */
  method Build(ops: seq<Insert>) returns (trie: DomainTrie)
    ensures trie.Valid() && fresh(trie.Repr) && trie.view == ViewAfter(ops)
  {
    hide KeyOf;
    trie := new DomainTrie();
    var i := 0;
    while i < |ops|
      invariant 0 <= i <= |ops|
      invariant trie.Valid() && fresh(trie.Repr) && trie.view == ViewAfter(ops[..i])
    {
      ViewAfterOneMore(ops, i);
      Perform(trie, ops[i]);
      i := i + 1;
    }
    assert ops[..i] == ops;
  }

  /** The last insert that stored at `p`. */
  function LastAt(ops: seq<Insert>, p: Path): Option<nat> {
    if ops == [] then None
    else if KeyOf(ops[|ops| - 1]) == p then Some(|ops| - 1)
    else LastAt(ops[..|ops| - 1], p)
  }

  lemma {:induction false} LastAtIsLast(ops: seq<Insert>, p: Path)
    ensures LastAt(ops, p).None? ==> forall i :: 0 <= i < |ops| ==> KeyOf(ops[i]) != p
    ensures LastAt(ops, p).Some? ==>
              && LastAt(ops, p).value < |ops| && KeyOf(ops[LastAt(ops, p).value]) == p
              && forall i :: LastAt(ops, p).value < i < |ops| ==> KeyOf(ops[i]) != p
  {
    hide KeyOf;
    if ops != [] {
      LastAtIsLast(ops[..|ops| - 1], p);
    }
  }

  lemma {:induction false} ViewHoldsLast(ops: seq<Insert>, p: Path)
    ensures p in ViewAfter(ops) <==> LastAt(ops, p).Some?
    ensures p in ViewAfter(ops) ==>
              LastAt(ops, p).value < |ops| && ViewAfter(ops)[p] == ops[LastAt(ops, p).value].data
  {
    hide KeyOf;
    if ops != [] {
      ViewHoldsLast(ops[..|ops| - 1], p);
    }
  }

  /** The length of the longest prefix with data, or 0. */
  function MatchLength(view: map<Path, string>, path: Path): (n: nat)
    ensures n <= |path|
    ensures n == 0 ==> LongestMatch(view, path) == None
    ensures n > 0 ==> path[..n] in view && LongestMatch(view, path) == Some(view[path[..n]])
    ensures forall m :: n < m <= |path| ==> path[..m] !in view
  {
    if path == [] then 0
    else
      assert path[..|path|] == path;
      if path in view then |path|
      else
        var init := path[..|path| - 1];
        var n := MatchLength(view, init);
        assert forall m :: 0 <= m <= |init| ==> init[..m] == path[..m];
        n
  }

  /** The suffix an insert answers for: an exact insert acts as a suffix insert below the marker. */
  function Spelled(op: Insert): string {
    match op
    case Suffix(domain, _) => domain
    case Exact(domain, _) => EXACT + "." + domain
  }

  predicate Matches(op: Insert, domain: string) {
    IsSuffixOf(Spelled(op), domain)
  }

  lemma SpelledKey(op: Insert)
    ensures Labels(Spelled(op)) == KeyOf(op)
  {
    hide Labels;
    if op.Exact? {
      MarkedLabels(op.domain);
    }
  }

  /** An insert matches exactly the domains whose label paths start with its key. */
  lemma MatchesByKey(op: Insert, domain: string)
    ensures Matches(op, domain) <==> KeyOf(op) <= Labels(domain)
  {
    hide Labels, IsSuffixOf, KeyOf, Spelled;
    SpelledKey(op);
    SuffixIsLabelPrefix(Spelled(op), domain);
  }

  /** Insert i matches, no match has more labels, and none after it has as many. */
  ghost predicate IsBest(ops: seq<Insert>, domain: string, i: nat) {
    && i < |ops| && Matches(ops[i], domain)
    && forall j {:trigger ops[j]} :: 0 <= j < |ops| && Matches(ops[j], domain) ==>
         |KeyOf(ops[j])| < |KeyOf(ops[i])| || (|KeyOf(ops[j])| == |KeyOf(ops[i])| && j <= i)
  }

  /**
    Longest match wins: after any inserts, a lookup of any domain returns the
    data of the matching insert with the most labels, the latest of equals, and
    None exactly when none matches. An exact insert matches as a suffix insert of
    its marked spelling would.
   */
  lemma LookupFindsBest(ops: seq<Insert>, domain: string)
    ensures match LongestMatch(ViewAfter(ops), Labels(domain))
            case Some(x) => exists i: nat :: IsBest(ops, domain, i) && ops[i].data == x
            case None => forall op :: op in ops ==> !Matches(op, domain)
  {
    hide Labels, Matches, KeyOf;
    var path := Labels(domain);
    var view := ViewAfter(ops);
    var n := MatchLength(view, path);
    forall j | 0 <= j < |ops| && Matches(ops[j], domain)
      ensures |KeyOf(ops[j])| <= n
      ensures KeyOf(ops[j]) == path[..|KeyOf(ops[j])|]
    {
      var key := KeyOf(ops[j]);
      MatchesByKey(ops[j], domain);
      LastAtIsLast(ops, key);
      ViewHoldsLast(ops, key);
      assert key == path[..|key|];
    }
    if n > 0 {
      ViewHoldsLast(ops, path[..n]);
      LastAtIsLast(ops, path[..n]);
      var i := LastAt(ops, path[..n]).value;
      MatchesByKey(ops[i], domain);
      assert IsBest(ops, domain, i);
    } else {
      forall j | 0 <= j < |ops|
        ensures !Matches(ops[j], domain)
      {
        KeyIsNotEmpty(ops[j]);
      }
    }
  }

  /** A lookup in any trie answers the same for every spelling of a domain, and so does an insert. */
  lemma LookupIgnoresCase(view: map<Path, string>, a: string, b: string, data: string)
    requires EqualIgnoringCase(a, b)
    ensures LongestMatch(view, Labels(a)) == LongestMatch(view, Labels(b))
    ensures KeyOf(Suffix(a, data)) == KeyOf(Suffix(b, data)) && KeyOf(Exact(a, data)) == KeyOf(Exact(b, data))
  {
    CaseDoesNotMatter(a, b);
  }

  /**
    The promise of an insert, in plain strings: after it, a trie finds some data
    for every host that ends in the suffix, up to case, at its start or after a dot.
   */
  lemma InsertedSuffixIsFound(view: map<Path, string>, suffix: string, data: string, host: string)
    requires var k := |host| - |suffix|;
             k >= 0 && EqualIgnoringCase(host[k..], suffix) && (k == 0 || host[k - 1] == '.')
    ensures LongestMatch(view[KeyOf(Suffix(suffix, data)) := data], Labels(host)).Some?
    ensures (forall m :: |Labels(suffix)| < m <= |Labels(host)| ==> Labels(host)[..m] !in view) ==>
              LongestMatch(view[KeyOf(Suffix(suffix, data)) := data], Labels(host)) == Some(data)
  {
    hide Labels, IsSuffixOf;
    SuffixIff(suffix, host);
    SuffixIsLabelPrefix(suffix, host);
    var path, key := Labels(host), Labels(suffix);
    assert path[..|key|] == key;
    var n := MatchLength(view[key := data], path);
    assert n >= |key|;
    assert n != |key| ==> path[..n] in view;
  }

  lemma KeyIsNotEmpty(op: Insert)
    ensures KeyOf(op) != []
  {
    hide Labels;
  }

  /** Exact inserts show only for domains that spell the marker as a label of their own. */
  lemma ExactMatchesOnlyMarked(op: Insert, domain: string)
    requires op.Exact? && Matches(op, domain)
    ensures EXACT in Labels(domain)
  {
    hide Labels, Matches;
    MatchesByKey(op, domain);
    assert KeyOf(op)[|Labels(op.domain)|] == EXACT;
  }

  /**
    Exactly what an exact insert changes: lookups of domains that spell the
    marker below its domain and match nothing longer return the new data; all
    other lookups return what they returned before.
   */
  lemma ExactChangesExactly(view: map<Path, string>, domain: string, data: string, other: string)
    ensures var key := KeyOf(Exact(domain, data));
            LongestMatch(view[key := data], Labels(other)) ==
            if key <= Labels(other) && MatchLength(view, Labels(other)) <= |key| then Some(data)
            else LongestMatch(view, Labels(other))
  {
    hide Labels;
    var path := Labels(other);
    var key := KeyOf(Exact(domain, data));
    var n, n' := MatchLength(view, path), MatchLength(view[key := data], path);
    forall m | 0 <= m <= |path|
      ensures path[..m] in view[key := data] <==> path[..m] in view || (key <= path && m == |key|)
    {
      assert path[..m] <= path;
      assert key <= path ==> path[..|key|] == key;
    }
    if key <= path {
      assert path[..|key|] == key;
      assert n' == if n <= |key| then |key| else n;
    } else {
      assert n' == n;
    }
  }

  /**
    An exact insert is never found at its own domain: a lookup there returns
    what it returned before, so the new data exactly when it was there already.
   */
  lemma ExactIsNeverFound(view: map<Path, string>, domain: string, data: string)
    ensures LongestMatch(view[KeyOf(Exact(domain, data)) := data], Labels(domain))
            == LongestMatch(view, Labels(domain))
  {
    ExactChangesExactly(view, domain, data, domain);
  }

  /** It is found under the marked spelling. */
  lemma ExactIsFoundUnderMarker(view: map<Path, string>, domain: string, data: string)
    ensures LongestMatch(view[KeyOf(Exact(domain, data)) := data], Labels("__exact__." + domain)) == Some(data)
  {
    assert EXACT + "." + domain == "__exact__." + domain;
    SpelledKey(Exact(domain, data));
    ExactChangesExactly(view, domain, data, EXACT + "." + domain);
  }

  lemma MarkedLabels(domain: string)
    ensures Labels(EXACT + "." + domain) == Labels(domain) + [EXACT]
  {
    SplitConcat(EXACT, domain, '.');
    SplitWithout(EXACT, '.');
    ReverseConcat([EXACT], Split(domain, '.'));
    LowerAllConcat(Reverse(Split(domain, '.')), [EXACT]);
    assert Reverse([EXACT]) == [EXACT];
    MarkerIsLower();
    assert LowerAll([EXACT]) == [EXACT];
  }

  lemma MarkerIsLower()
    ensures Lower(EXACT) == EXACT
  {
    assert Lower("t__") == "t__";
    assert Lower("act__") == "act__";
    assert Lower("exact__") == "exact__";
  }
}
